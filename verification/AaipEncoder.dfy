/**
 The AAIP encoder (libisofs/aaip_0_2.c): a counting pass and a writing pass, which skips the
 positions of the field heads.
 */
module AaipEncoder {
  import opened Common
  import opened IsoBytes
  import opened AaipFormat

  /** What aaip_encode_comp() writes. A component with prefix but no further data writes nothing. */
  function CompWritten(prefix: Byte, data: Bytes): Bytes {
    if data == [] && prefix > 0 then [] else CompBytes(Joined(Split(prefix, data)))
  }

  /** The byte count that aaip_encode_pair() predicts. */
  function PairSize(attr: Attr): nat {
    var s := SplitName(attr.name);
    var l := |s.rest| + (if s.prefix > 0 then 1 else 0);
    l + |attr.value| + 2 * (NumRecs(l) + NumRecs(|attr.value|))
  }

  /** The bytes that aaip_encode_pair() writes. */
  function PairWritten(attr: Attr): Bytes {
    var s := SplitName(attr.name);
    CompWritten(s.prefix, s.rest) + CompWritten(0, attr.value)
  }

  /** The bytes reserved for a pair: what gets written, and the zeros of the allocation behind it. */
  function PairBytes(attr: Attr): Bytes
    requires |PairWritten(attr)| <= PairSize(attr)
  {
    PairWritten(attr) + Zeros(PairSize(attr) - |PairWritten(attr)|)
  }

  lemma CompWrittenLength(prefix: Byte, data: Bytes)
    ensures var l := |data| + (if prefix > 0 then 1 else 0);
      |CompWritten(prefix, data)| == if data == [] && prefix > 0 then 0 else l + 2 * NumRecs(l)
  {
    CompBytesLength(Joined(Split(prefix, data)));
  }

  /** The prediction of the counting pass is what the writing pass produces, except for a name that
      is nothing but a namespace text. There it exceeds what is written by three bytes. */
  lemma PredictionIsExact(attr: Attr)
    ensures |PairWritten(attr)| == PairSize(attr) - (if IsBareNamespace(attr.name) then 3 else 0)
  {
    var s := SplitName(attr.name);
    CompWrittenLength(s.prefix, s.rest);
    CompWrittenLength(0, attr.value);
    hide CompWritten, SplitName;
    assert NumRecs(1) == 1;
  }

  lemma PairIsStream(attr: Attr)
    requires !IsBareNamespace(attr.name) && |PairWritten(attr)| <= PairSize(attr)
    ensures PairBytes(attr) == StreamOf([ShortName(attr.name), attr.value])
  {
    PredictionIsExact(attr);
    PairStream(ShortName(attr.name), attr.value);
    hide SplitName, CompBytes, PairSize, StreamOf;
    assert Joined(Split(0, attr.value)) == attr.value;
    assert PairBytes(attr) == PairWritten(attr) + [];
  }

  lemma PairStream(name: Bytes, value: Bytes)
    ensures StreamOf([name, value]) == CompBytes(name) + CompBytes(value)
  {
    var c: seq<Bytes> := [name, value];
    assert c[1..] == [value] && [value][1..] == [];
    assert StreamOf([value]) == CompBytes(value) + [] == CompBytes(value);
  }

  function TotalSize(attrs: seq<Attr>): nat {
    if attrs == [] then 0 else PairSize(attrs[0]) + TotalSize(attrs[1..])
  }

  /** The payload of the fields: the reserved bytes of all pairs. */
  function Payload(attrs: seq<Attr>): Bytes {
    if attrs == [] then []
    else
      PredictionIsExact(attrs[0]);
      PairBytes(attrs[0]) + Payload(attrs[1..])
  }

  lemma {:induction false} PayloadLength(attrs: seq<Attr>)
    ensures |Payload(attrs)| == TotalSize(attrs)
  {
    if attrs != [] {
      PredictionIsExact(attrs[0]);
      PayloadLength(attrs[1..]);
    }
  }

  ghost predicate NoBareNames(attrs: seq<Attr>) {
    forall i :: 0 <= i < |attrs| ==> !IsBareNamespace(attrs[i].name)
  }

  lemma {:induction false} StreamOfConcat(a: seq<Bytes>, b: seq<Bytes>)
    ensures StreamOf(a + b) == StreamOf(a) + StreamOf(b)
  {
    if a == [] {
      assert a + b == b;
    } else {
      assert (a + b)[1..] == a[1..] + b;
      StreamOfConcat(a[1..], b);
    }
  }

  /** The payload is the series of component records. */
  lemma {:induction false} PayloadIsStream(attrs: seq<Attr>)
    requires NoBareNames(attrs)
    ensures Payload(attrs) == StreamOf(Components(attrs))
  {
    if attrs != [] {
      PredictionIsExact(attrs[0]);
      PairIsStream(attrs[0]);
      PayloadIsStream(attrs[1..]);
      StreamOfConcat([ShortName(attrs[0].name), attrs[0].value], Components(attrs[1..]));
    }
  }

  /** For a name that is nothing but a namespace text, no name component gets written. The reserved bytes are
      then the records of the value, of an empty component, and one stray byte. */
  lemma BarePair(attr: Attr)
    requires IsBareNamespace(attr.name)
    ensures |PairWritten(attr)| <= PairSize(attr)
    ensures PairBytes(attr) == StreamOf([attr.value, []]) + [0]
  {
    PredictionIsExact(attr);
    PairStream(attr.value, []);
    hide SplitName, CompBytes, PairSize, StreamOf;
    assert Joined(Split(0, attr.value)) == attr.value;
    assert PairWritten(attr) == [] + CompBytes(attr.value) == CompBytes(attr.value);
    assert CompBytes([]) == [0, 0] by {
      EmptyComp();
    }
    assert Zeros(3) == [0, 0] + [0];
    Associate(CompBytes(attr.value), [0, 0], [0]);
  }

  lemma EmptyComp()
    ensures CompBytes([]) == [0, 0]
  {
  }

  lemma NoBareTail(attrs: seq<Attr>)
    requires attrs != [] && NoBareNames(attrs)
    ensures !IsBareNamespace(attrs[0].name) && NoBareNames(attrs[1..])
  {
    hide IsBareNamespace;
  }

  /** The first bare name at index i shifts all that follows: in place of the name comes the value, then an empty
      component in place of the value, then a stray byte ahead of the next record. */
  lemma {:induction false} BareInPayload(attrs: seq<Attr>, i: nat)
    requires i < |attrs| && NoBareNames(attrs[..i]) && IsBareNamespace(attrs[i].name)
    ensures Payload(attrs) ==
            StreamOf(Components(attrs[..i]) + [attrs[i].value, []]) + [0] + Payload(attrs[i + 1..])
    decreases i
  {
    hide IsBareNamespace, StreamOf, PairWritten, PairSize, NoBareNames, PairBytes, ShortName;
    var bare: seq<Bytes> := [attrs[i].value, []];
    PredictionIsExact(attrs[0]);
    if i == 0 {
      BarePair(attrs[0]);
      assert Components(attrs[..0]) + bare == bare;
    } else {
      var first, rest := [ShortName(attrs[0].name), attrs[0].value], Components(attrs[1..][..i - 1]);
      assert attrs[..i][0] == attrs[0] && attrs[..i][1..] == attrs[1..][..i - 1];
      NoBareTail(attrs[..i]);
      PairIsStream(attrs[0]);
      BareInPayload(attrs[1..], i - 1);
      assert attrs[1..][i..] == attrs[i + 1..];
      Associate(first, rest, bare);
      StreamOfConcat(first, rest + bare);
      Associate(StreamOf(first), StreamOf(rest + bare) + [0], Payload(attrs[i + 1..]));
      Associate(StreamOf(first), StreamOf(rest + bare), [0]);
    }
  }

  // ---------------------------------------------------------------- Positions

  /** Where aaip_encode_byte() puts payload byte number fill. */
  function Position(fill: nat): nat {
    (fill / FIELD_PAYLOAD) * 255 + 5 + fill % FIELD_PAYLOAD
  }

  lemma PositionParts(fill: nat)
    ensures Position(fill) / 255 == fill / FIELD_PAYLOAD && Position(fill) % 255 == 5 + fill % FIELD_PAYLOAD
  {
  }

  lemma FieldsCover(size: nat)
    ensures size <= 250 * NumFields(size) < size + 250
  {
  }

  /** The bounds of a payload position */
  lemma PayloadIndex(size: nat, idx: nat)
    requires idx < size + 5 * NumFields(size)
    ensures idx / 255 < NumFields(size)
    ensures idx % 255 >= 5 ==> idx / 255 * 250 + idx % 255 - 5 < size
  {
    hide NumFields;
    FieldsCover(size);
    var n, q, r := NumFields(size), idx / 255, idx % 255;
    assert idx == 255 * q + r;
  }

  lemma PositionAt(q: nat, r: nat)
    requires 5 <= r < 255
    ensures Position(q * 250 + r - 5) == 255 * q + r
  {
    assert (q * 250 + (r - 5)) / 250 == q;
  }

  /** Payload positions and field head positions partition the result, and
      each payload position belongs to exactly one payload byte. */
  lemma PositionsPartition(size: nat, idx: nat)
    requires idx < size + 5 * NumFields(size)
    ensures idx % 255 < 5 ==> idx / 255 < NumFields(size) && forall f: nat :: Position(f) != idx
    ensures idx % 255 >= 5 ==>
      var f := idx / 255 * FIELD_PAYLOAD + idx % 255 - 5;
      f < size && Position(f) == idx && forall g: nat :: Position(g) == idx ==> g == f
  {
    hide Position, NumFields;
    PayloadIndex(size, idx);
    if idx % 255 >= 5 {
      PositionAt(idx / 255, idx % 255);
    }
    forall g: nat | Position(g) == idx
      ensures idx % 255 >= 5 && g == idx / 255 * FIELD_PAYLOAD + idx % 255 - 5
    {
      PositionParts(g);
      assert g == g / 250 * 250 + g % 250;
    }
  }

  lemma NextField(size: nat, idx: nat)
    requires size > FIELD_PAYLOAD && 255 <= idx < size + 5 * NumFields(size)
    ensures NumFields(size) == NumFields(size - FIELD_PAYLOAD) + 1
    ensures (idx - 255) / 255 == idx / 255 - 1 && (idx - 255) % 255 == idx % 255
    ensures idx - 255 < size - FIELD_PAYLOAD + 5 * NumFields(size - FIELD_PAYLOAD)
    ensures forall c, k :: 0 <= k < 5 ==>
              HeadByte(size, c, idx / 255, k) == HeadByte(size - FIELD_PAYLOAD, c, idx / 255 - 1, k)
  {
  }

  lemma FirstField(size: nat, c: bool)
    requires size > 0
    ensures size <= FIELD_PAYLOAD ==>
      NumFields(size) == 1 && forall k :: 0 <= k < 5 ==> HeadByte(size, c, 0, k) == FieldHead(size + 5, c)[k]
    ensures size > FIELD_PAYLOAD ==>
      NumFields(size) > 1 && forall k :: 0 <= k < 5 ==> HeadByte(size, c, 0, k) == FieldHead(255, true)[k]
  {
  }

  /** The byte of the fields at any index is a head byte or the payload byte that belongs there. */
  lemma {:induction false} FieldsAt(payload: Bytes, continued: bool, idx: nat)
    requires idx < |payload| + 5 * NumFields(|payload|)
    ensures |Fields(payload, continued)| == |payload| + 5 * NumFields(|payload|)
    ensures Fields(payload, continued)[idx] == FieldByte(payload, continued, idx)
    decreases |payload|
  {
    hide HeadByte, NumFields;
    FieldsLength(payload, continued);
    if |payload| > FIELD_PAYLOAD && idx >= 255 {
      var rest := payload[FIELD_PAYLOAD..];
      NextField(|payload|, idx);
      FieldsAt(rest, continued, idx - 255);
      SameByte(payload, continued, idx);
      assert Fields(payload, continued)[idx] == Fields(rest, continued)[idx - 255];
    } else {
      FirstFieldAt(payload, continued, idx);
    }
  }

  /** What belongs at an index behind the first field */
  lemma SameByte(payload: Bytes, continued: bool, idx: nat)
    requires |payload| > FIELD_PAYLOAD && 255 <= idx < |payload| + 5 * NumFields(|payload|)
    ensures idx - 255 < |payload| - FIELD_PAYLOAD + 5 * NumFields(|payload| - FIELD_PAYLOAD)
    ensures FieldByte(payload, continued, idx) == FieldByte(payload[FIELD_PAYLOAD..], continued, idx - 255)
  {
    hide HeadByte, NumFields;
    NextField(|payload|, idx);
    PayloadIndex(|payload|, idx);
  }

  lemma FirstFieldAt(payload: Bytes, continued: bool, idx: nat)
    requires idx < 255 && idx < |payload| + 5 * NumFields(|payload|)
    ensures idx < |Fields(payload, continued)| && Fields(payload, continued)[idx] == FieldByte(payload, continued, idx)
  {
    hide HeadByte, NumFields;
    FieldsLength(payload, continued);
    FirstField(|payload|, continued);
    assert idx / 255 == 0 && idx % 255 == idx;
  }

  /** What belongs at an index of the result: a head byte of a field, or a payload byte. */
  function FieldByte(payload: Bytes, continued: bool, idx: nat): Byte
    requires idx < |payload| + 5 * NumFields(|payload|)
  {
    if idx % 255 < 5 then HeadByte(|payload|, continued, idx / 255, idx % 255)
    else payload[idx / 255 * FIELD_PAYLOAD + idx % 255 - 5]
  }

  /** Byte k of the head of field i, as written at the end of aaip_encode(). */
  function HeadByte(size: nat, continued: bool, i: nat, k: nat): Byte
    requires k < 5
  {
    var n := NumFields(size);
    var total := size + 5 * n;
    match k
    case 0 => 'A' as int
    case 1 => 'L' as int
    case 2 => if i < n - 1 || total % 255 == 0 then 255 else total % 255
    case 3 => 1
    case _ => if continued || i < n - 1 then 1 else 0
  }

  /** aaip_count_bytes(): the loop over the field heads ends behind a field without continuation. */
  function CountBytes(data: Bytes): nat {
    if |data| < 5 || data[2] == 0 || data[2] > |data| then 0
    else if data[4] % 2 == 0 then data[2]
    else data[2] + CountBytes(data[data[2]..])
  }

  lemma {:induction false} CountBytesOfFields(payload: Bytes)
    requires payload != []
    ensures CountBytes(Fields(payload, false)) == |Fields(payload, false)|
    decreases |payload|
  {
    var data := Fields(payload, false);
    if |payload| <= FIELD_PAYLOAD {
      assert data == FieldHead(|payload| + 5, false) + payload;
    } else {
      var first := FieldHead(255, true) + payload[..FIELD_PAYLOAD];
      assert data == first + Fields(payload[FIELD_PAYLOAD..], false);
      assert data[255..] == Fields(payload[FIELD_PAYLOAD..], false);
      CountBytesOfFields(payload[FIELD_PAYLOAD..]);
    }
  }

  // ---------------------------------------------------------------- The writing pass

  /** The content of the result array after the given payload bytes were written into zeros. */
  function ImageAt(stream: Bytes, idx: nat): Byte {
    var f := idx / 255 * FIELD_PAYLOAD + idx % 255 - 5;
    if idx % 255 >= 5 && f < |stream| then stream[f] else 0
  }

  ghost predicate Holds(result: array<Byte>, stream: Bytes)
    reads result
  {
    forall idx :: 0 <= idx < result.Length ==> result[idx] == ImageAt(stream, idx)
  }

  lemma PositionFits(size: nat, fill: nat)
    requires fill < size
    ensures Position(fill) < size + 5 * NumFields(size)
  {
  }

  lemma ImagePlusByte(stream: Bytes, value: Byte, idx: nat)
    ensures ImageAt(stream + [value], idx) == if idx == Position(|stream|) then value else ImageAt(stream, idx)
  {
    hide Position;
    PositionParts(|stream|);
    assert |stream| == |stream| / 250 * 250 + |stream| % 250;
    if idx % 255 >= 5 {
      PositionAt(idx / 255, idx % 255);
    }
  }

  lemma ImagePlusZeros(stream: Bytes, n: nat, idx: nat)
    ensures ImageAt(stream + Zeros(n), idx) == ImageAt(stream, idx)
  {
  }

  /** aaip_encode_byte() */
  method EncodeByte(result: array<Byte>, fill: nat, value: Byte, ghost size: nat, ghost stream: Bytes)
    returns (fill': nat)
    requires Holds(result, stream) && fill == |stream| < size && result.Length == size + 5 * NumFields(size)
    modifies result
    ensures Holds(result, stream + [value]) && fill' == fill + 1
  {
    PositionFits(size, fill);
    forall idx: nat
      ensures ImageAt(stream + [value], idx) == if idx == Position(fill) then value else ImageAt(stream, idx)
    {
      ImagePlusByte(stream, value, idx);
    }
    result[(fill / 250) * 255 + 5 + fill % 250] := value;
    fill' := fill + 1;
  }

  /** What aaip_encode_comp() still has to write when data is left of the component. */
  function CompLeft(prefix: Byte, data: Bytes): Bytes {
    if data == [] then [] else CompBytes(Joined(Split(prefix, data)))
  }

  /** aaip_encode_comp() */
  method EncodeComp(result: array<Byte>, fill: nat, prefix: Byte, data: Bytes, ghost size: nat, ghost stream: Bytes)
    returns (fill': nat)
    requires Holds(result, stream) && fill == |stream| && result.Length == size + 5 * NumFields(size)
    requires fill + |CompWritten(prefix, data)| <= size
    modifies result
    ensures Holds(result, stream + CompWritten(prefix, data))
    ensures fill' == fill + |CompWritten(prefix, data)|
  {
    fill' := fill;
    ghost var done := stream;
    if data == [] && prefix <= 0 {
      fill' := EncodeByte(result, fill', 0, size, done);
      fill' := EncodeByte(result, fill', 0, size, done + [0]);
      assert stream + CompWritten(prefix, data) == done + [0] + [0];
      return;
    }
    var prefix' := prefix;
    var rpt := 0;
    while rpt < |data|
      invariant 0 <= rpt <= |data|
      invariant prefix' > 0 ==> rpt == 0 && prefix' == prefix
      invariant rpt == 0 ==> prefix' == prefix
      invariant fill' == |done| && Holds(result, done)
      invariant done + CompLeft(prefix', data[rpt..]) == stream + CompWritten(prefix, data)
    {
      fill', prefix', rpt, done := EncodeRecord(result, fill', prefix', data, rpt, size, done);
    }
    assert data[rpt..] == [];
  }

  function FirstHead(len: nat): Bytes
    requires len > 0
  {
    if len > 255 then [1, 255] else [0, len]
  }

  function FirstLength(len: nat): nat {
    if len > 255 then 255 else len
  }

  /** What is left of a component after its first record. */
  lemma LeftOver(comp: Bytes, rest: Bytes)
    requires comp != [] && rest == comp[FirstLength(|comp|)..]
    ensures FirstHead(|comp|) + comp[..FirstLength(|comp|)] + CompLeft(0, rest) == CompBytes(comp)
  {
    assert Joined(Split(0, rest)) == rest;
    var head, first := FirstHead(|comp|), comp[..FirstLength(|comp|)];
    if |comp| > 255 {
      hide CompBytes;
      assert CompLeft(0, rest) == CompBytes(rest);
      CompBytesLong(comp);
    } else {
      assert first == comp && CompLeft(0, rest) == [];
      NothingBehind(head + first);
    }
  }

  lemma CompBytesLong(comp: Bytes)
    requires |comp| > 255
    ensures CompBytes(comp) == [1, 255] + comp[..255] + CompBytes(comp[255..])
  {
  }

  /** The innermost loop of aaip_encode_comp(). */
  method EncodeRun(result: array<Byte>, fill: nat, data: Bytes, compStart: nat, todo: nat, ghost size: nat,
                   ghost stream: Bytes)
    returns (fill': nat, rpt: nat)
    requires Holds(result, stream) && fill == |stream| && result.Length == size + 5 * NumFields(size)
    requires compStart + todo <= |data| && fill + todo <= size
    modifies result
    ensures Holds(result, stream + data[compStart..compStart + todo])
    ensures fill' == fill + todo && rpt == compStart + todo
  {
    hide Holds, NumFields;
    fill', rpt := fill, compStart;
    ghost var done := stream;
    assert stream + data[compStart..compStart] == stream;
    while rpt - compStart < todo
      invariant compStart <= rpt <= compStart + todo
      invariant fill' == fill + rpt - compStart && done == stream + data[compStart..rpt] && Holds(result, done)
    {
      fill' := EncodeByte(result, fill', data[rpt], size, done);
      done := done + [data[rpt]];
      assert done == stream + data[compStart..rpt + 1];
      rpt := rpt + 1;
    }
  }

  /** One round of the outer loop in aaip_encode_comp(). */
  method EncodeRecord(result: array<Byte>, fill: nat, prefix: Byte, data: Bytes, rpt: nat, ghost size: nat,
                      ghost stream: Bytes)
    returns (fill': nat, prefix': Byte, rpt': nat, ghost done: Bytes)
    requires Holds(result, stream) && fill == |stream| && result.Length == size + 5 * NumFields(size)
    requires rpt < |data| && fill + |CompLeft(prefix, data[rpt..])| <= size
    modifies result
    ensures Holds(result, done) && fill' == |done| && prefix' == 0 && rpt < rpt' <= |data|
    ensures done + CompLeft(prefix', data[rpt'..]) == stream + CompLeft(prefix, data[rpt..])
  {
    hide Holds, NumFields, CompBytes, CompLeft;
    var todo := |data| - rpt + (if prefix > 0 then 1 else 0);
    ghost var comp := Joined(Split(prefix, data[rpt..]));
    ghost var n := FirstLength(todo);
    LeftOver(comp, comp[n..]);
    ghost var left := CompBytes(comp);
    assert CompLeft(prefix, data[rpt..]) == left by {
      AllLeft(prefix, data[rpt..]);
    }
    fill' := EncodeByte(result, fill, if todo > 255 then 1 else 0, size, stream);
    done := stream + [if todo > 255 then 1 else 0];
    if todo > 255 {
      todo := 255;
    }
    fill' := EncodeByte(result, fill', todo, size, done);
    done := done + [todo];
    assert done == stream + FirstHead(|comp|);
    prefix' := prefix;
    if prefix' > 0 {
      fill' := EncodeByte(result, fill', prefix', size, done);
      done := done + [prefix'];
      todo := todo - 1;
      prefix' := 0;
    }
    ghost var run := data[rpt..rpt + todo];
    assert comp[..n - todo] == if prefix > 0 then [prefix] else [];
    assert done == stream + FirstHead(|comp|) + comp[..n - todo];
    fill', rpt' := EncodeRun(result, fill', data, rpt, todo, size, done);
    done := done + run;
    assert comp[n..] == data[rpt'..];
    assert comp[..n - todo] + run == comp[..n];
    Reassembled(stream, FirstHead(|comp|), comp[..n - todo], run, comp[..n], CompLeft(0, data[rpt'..]));
  }

  lemma AllLeft(prefix: Byte, data: Bytes)
    ensures data != [] ==> CompLeft(prefix, data) == CompBytes(Joined(Split(prefix, data)))
  {
  }

  lemma Reassembled(stream: Bytes, head: Bytes, a: Bytes, b: Bytes, part: Bytes, rest: Bytes)
    requires a + b == part
    ensures stream + head + a + b + rest == stream + (head + part + rest)
  {
    assert stream + head + a + b == stream + head + (a + b);
  }

  /** The translation of the name in aaip_encode_pair() */
  method TranslateName(name: Bytes) returns (s: Split)
    ensures s == SplitName(name)
  {
    hide NamespaceText;
    s := Split(0, name);
    var i := MIN_NAMED_SPACE;
    while i <= MAX_NAMED_SPACE
      invariant MIN_NAMED_SPACE <= i <= MAX_NAMED_SPACE + 1
      invariant StripFrom(s, i) == StripFrom(Split(0, name), MIN_NAMED_SPACE)
    {
      var text := NamespaceText(i);
      if text <= s.rest {
        s := Split(i, s.rest[|text|..]);
      }
      i := i + 1;
    }
    if s.prefix <= 0 && s.rest != [] && 0 < s.rest[0] <= MAXDEF_NAMESPACE {
      s := Split(NAMESPACE_LITERAL, s.rest);
    }
  }

  /** aaip_encode_pair(): counts the bytes of a pair, and writes them if there is a result array. */
  method EncodePair(attr: Attr, result: array?<Byte>, fill: nat, ghost size: nat, ghost stream: Bytes)
    returns (numRecs: nat, compSize: nat)
    requires result != null ==>
               && Holds(result, stream) && fill == |stream| && fill + PairSize(attr) <= size
               && result.Length == size + 5 * NumFields(size)
    modifies if result != null then {result} else {}
    ensures compSize == PairSize(attr) && |PairWritten(attr)| <= compSize
    ensures result != null ==> Holds(result, stream + PairBytes(attr))
  {
    hide *;
    PredictionIsExact(attr);
    PairSizeIs(attr);
    var s := TranslateName(attr.name);
    var l := |s.rest| + (if s.prefix > 0 then 1 else 0);
    numRecs := NumRecs(l) + NumRecs(|attr.value|);
    compSize := l + |attr.value| + 2 * numRecs;
    if result == null {
      return;
    }
    PairParts(attr, stream);
    var fill' := EncodeComp(result, fill, s.prefix, s.rest, size, stream);
    fill' := EncodeComp(result, fill', 0, attr.value, size, stream + CompWritten(s.prefix, s.rest));
    ZerosHold(result, stream + PairWritten(attr), PairSize(attr) - |PairWritten(attr)|);
  }

  lemma PairSizeIs(attr: Attr)
    ensures var s := SplitName(attr.name); var l := |s.rest| + (if s.prefix > 0 then 1 else 0);
      PairSize(attr) == l + |attr.value| + 2 * (NumRecs(l) + NumRecs(|attr.value|))
  {
    hide SplitName, NumRecs;
  }

  lemma PairParts(attr: Attr, stream: Bytes)
    requires |PairWritten(attr)| <= PairSize(attr)
    ensures var s := SplitName(attr.name);
      && |PairWritten(attr)| == |CompWritten(s.prefix, s.rest)| + |CompWritten(0, attr.value)|
      && stream + CompWritten(s.prefix, s.rest) + CompWritten(0, attr.value) == stream + PairWritten(attr)
    ensures stream + PairWritten(attr) + Zeros(PairSize(attr) - |PairWritten(attr)|) == stream + PairBytes(attr)
  {
    hide CompWritten, SplitName, PairSize, Zeros;
  }

  /** The bytes behind the end of the stream are already zero. */
  lemma ZerosHold(result: array<Byte>, stream: Bytes, n: nat)
    requires Holds(result, stream)
    ensures Holds(result, stream + Zeros(n))
  {
    forall idx | 0 <= idx < result.Length ensures result[idx] == ImageAt(stream + Zeros(n), idx) {
      ImagePlusZeros(stream, n, idx);
    }
  }

  lemma {:induction false} PayloadConcat(a: seq<Attr>, b: seq<Attr>)
    ensures TotalSize(a + b) == TotalSize(a) + TotalSize(b)
    ensures Payload(a + b) == Payload(a) + Payload(b)
  {
    if a == [] {
      assert a + b == b;
    } else {
      assert (a + b)[1..] == a[1..] + b;
      PayloadConcat(a[1..], b);
      PredictionIsExact(a[0]);
      hide PairSize, PairBytes;
    }
  }

  lemma OnePayload(attr: Attr)
    ensures |PairWritten(attr)| <= PairSize(attr)
    ensures TotalSize([attr]) == PairSize(attr) && Payload([attr]) == PairBytes(attr)
  {
    PredictionIsExact(attr);
    hide PairSize, PairBytes;
    assert [attr][1..] == [];
    assert Payload([attr]) == PairBytes(attr) + Payload([]);
  }

  lemma TotalSizeOfPrefix(attrs: seq<Attr>, i: nat)
    requires i < |attrs|
    ensures TotalSize(attrs[..i + 1]) == TotalSize(attrs[..i]) + PairSize(attrs[i]) <= TotalSize(attrs)
    ensures |PairWritten(attrs[i])| <= PairSize(attrs[i])
    ensures Payload(attrs[..i + 1]) == Payload(attrs[..i]) + PairBytes(attrs[i])
  {
    OnePayload(attrs[i]);
    PayloadConcat(attrs[..i], [attrs[i]]);
    PayloadConcat(attrs[..i + 1], attrs[i + 1..]);
    hide PairSize, PairBytes, TotalSize, Payload, PairWritten;
    PrefixGrows(attrs, i);
  }

  lemma PrefixGrows<T>(s: seq<T>, i: nat)
    requires i < |s|
    ensures s[..i + 1] == s[..i] + [s[i]] && s == s[..i + 1] + s[i + 1..]
  {
  }

  /** The first loop of aaip_encode() */
  method CountPairs(attrs: seq<Attr>) returns (memSize: nat)
    ensures memSize == TotalSize(attrs) && (memSize == 0 <==> attrs == [])
  {
    memSize := 0;
    assert attrs[..0] == [] && TotalSize([]) == 0;
    assert attrs != [] ==> TotalSize(attrs) >= PairSize(attrs[0]);
    hide TotalSize;
    for i := 0 to |attrs|
      invariant memSize == TotalSize(attrs[..i]) && memSize >= i
    {
      var _, compSize := EncodePair(attrs[i], null, 0, 0, []);
      TotalSizeOfPrefix(attrs, i);
      memSize := memSize + compSize;
    }
    assert attrs[..|attrs|] == attrs;
  }

  /** The second loop of aaip_encode() */
  method WritePairs(attrs: seq<Attr>, result: array<Byte>) returns (resultLen: nat)
    requires Holds(result, []) && result.Length == TotalSize(attrs) + 5 * NumFields(TotalSize(attrs))
    modifies result
    ensures Holds(result, Payload(attrs)) && resultLen == |Payload(attrs)|
  {
    resultLen := 0;
    assert attrs[..0] == [] && Payload([]) == [] && TotalSize([]) == 0;
    hide TotalSize, Payload, Holds, NumFields, PairSize, PairBytes;
    for i := 0 to |attrs|
      invariant resultLen == TotalSize(attrs[..i]) && Holds(result, Payload(attrs[..i]))
    {
      PayloadLength(attrs[..i]);
      TotalSizeOfPrefix(attrs, i);
      var _, compSize := EncodePair(attrs[i], result, resultLen, TotalSize(attrs), Payload(attrs[..i]));
      resultLen := resultLen + compSize;
    }
    assert attrs[..|attrs|] == attrs;
    PayloadLength(attrs);
  }

  lemma EmptyImage(result: array<Byte>)
    requires forall idx :: 0 <= idx < result.Length ==> result[idx] == 0
    ensures Holds(result, [])
  {
  }

  /** aaip_encode(): yields the fields of the payload and their number, or nothing without attributes. */
  method Encode(attrs: seq<Attr>, continued: bool) returns (numFields: nat, result: array?<Byte>, resultLen: nat)
    ensures (result == null) == (attrs == [])
    ensures result != null ==> fresh(result) && result[..] == Fields(Payload(attrs), continued)
    ensures result != null ==> resultLen == result.Length
    ensures numFields == NumFields(|Payload(attrs)|)
  {
    PayloadLength(attrs);
    var memSize := CountPairs(attrs);
    resultLen := 0;
    numFields := memSize / 250 + (if memSize % 250 != 0 then 1 else 0);
    assert numFields == NumFields(memSize);
    if numFields == 0 {
      return numFields, null, 0;
    }
    memSize := memSize + numFields * 5;
    result := new Byte[memSize](_ => 0);
    EmptyImage(result);
    hide TotalSize, Payload, Holds, Fields;
    resultLen := WritePairs(attrs, result);
    WriteHeads(result, numFields, continued, Payload(attrs));
    resultLen := resultLen + numFields * 5;
  }

  /** The loop at the end of aaip_encode(), which writes the field heads. */
  method WriteHeads(result: array<Byte>, numFields: nat, continued: bool, ghost payload: Bytes)
    requires payload != [] && Holds(result, payload)
    requires numFields == NumFields(|payload|) && result.Length == |payload| + 5 * numFields
    modifies result
    ensures result[..] == Fields(payload, continued)
  {
    var memSize := result.Length;
    for i := 0 to numFields
      invariant forall idx :: 0 <= idx < memSize ==>
                  result[idx] ==
                    if idx % 255 < 5 && idx / 255 < i then HeadByte(|payload|, continued, idx / 255, idx % 255)
                                 else ImageAt(payload, idx)
    {
      result[i * 255 + 0] := 'A' as int;
      result[i * 255 + 1] := 'L' as int;
      result[i * 255 + 2] := if i < numFields - 1 || memSize % 255 == 0 then 255 else memSize % 255;
      result[i * 255 + 3] := 1;
      result[i * 255 + 4] := if continued || i < numFields - 1 then 1 else 0;
    }
    FieldsLength(payload, continued);
    forall idx | 0 <= idx < memSize ensures result[idx] == Fields(payload, continued)[idx] {
      FieldsAt(payload, continued, idx);
      PositionsPartition(|payload|, idx);
    }
    assert result[..] == Fields(payload, continued);
  }
}
