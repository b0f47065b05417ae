/**
 The AAIP decoder on the output of the encoder (libisofs/aaip_0_2.c): where it is in the series of
 records and fields after submitting and fetching any amount of data.
 */
module AaipTrack {
  import opened Common
  import opened IsoBytes
  import opened AaipFormat
  import opened AaipDecoder

  // ---------------------------------------------------------------- Records

  type Load = d: Bytes | |d| <= 255

  /** A component record: its data, and whether it is the last one of its component */
  datatype Rec = Rec(ends: bool, data: Load)

  function RecBytes(r: Rec): (b: Bytes)
    ensures |b| == |r.data| + 2
  {
    [if r.ends then 0 else 1, |r.data|] + r.data
  }

  function RecStream(q: seq<Rec>): Bytes {
    if q == [] then [] else RecBytes(q[0]) + RecStream(q[1..])
  }

  /** The number of components which end in the records */
  function Ends(q: seq<Rec>): (n: nat)
    ensures n <= |q|
  {
    if q == [] then 0 else (if q[0].ends then 1 else 0) + Ends(q[1..])
  }

  lemma {:induction false} RecStreamConcat(a: seq<Rec>, b: seq<Rec>)
    ensures RecStream(a + b) == RecStream(a) + RecStream(b)
    ensures Ends(a + b) == Ends(a) + Ends(b)
  {
    if a == [] {
      assert a + b == b;
    } else {
      assert (a + b)[1..] == a[1..] + b;
      RecStreamConcat(a[1..], b);
      hide RecBytes;
      assert RecStream(a + b) == RecBytes(a[0]) + (RecStream(a[1..]) + RecStream(b));
    }
  }

  /** The records of a component */
  function CompRecs(c: Bytes): seq<Rec>
    decreases |c|
  {
    if |c| > 255 then [Rec(false, c[..255])] + CompRecs(c[255..]) else [Rec(true, c)]
  }

  lemma {:induction false} CompRecsStream(c: Bytes)
    ensures RecStream(CompRecs(c)) == CompBytes(c)
    decreases |c|
  {
    if |c| > 255 {
      CompRecsStream(c[255..]);
      assert CompRecs(c)[1..] == CompRecs(c[255..]);
      assert RecBytes(Rec(false, c[..255])) == [1, 255] + c[..255];
    } else {
      var q := [Rec(true, c)];
      assert q[1..] == [];
      assert RecStream(q) == RecBytes(q[0]) + [] == CompBytes(c);
    }
  }

  /** The records of a series of components */
  function Records(comps: seq<Bytes>): seq<Rec> {
    if comps == [] then [] else CompRecs(comps[0]) + Records(comps[1..])
  }

  lemma {:induction false} RecordsStream(comps: seq<Bytes>)
    ensures RecStream(Records(comps)) == StreamOf(comps)
  {
    if comps != [] {
      CompRecsStream(comps[0]);
      RecordsStream(comps[1..]);
      RecStreamConcat(CompRecs(comps[0]), Records(comps[1..]));
      hide CompRecs, CompBytes;
    }
  }

  // ---------------------------------------------------------------- Attributes from records

  /** The attributes completed so far, and the pair that is being collected */
  datatype Asm = Asm(attrs: seq<Attr>, name: Bytes, value: Bytes, firstIsName: bool)

  function AddRecord(a: Asm, r: Rec): Asm {
    if a.firstIsName then a.(name := a.name + r.data, firstIsName := !r.ends)
    else if r.ends then Asm(a.attrs + [Attr(ExpandName(a.name), a.value + r.data)], [], [], true)
    else a.(value := a.value + r.data)
  }

  function Assemble(a: Asm, q: seq<Rec>): Asm
    decreases |q|
  {
    if q == [] then a else Assemble(AddRecord(a, q[0]), q[1..])
  }

  lemma {:induction false} AssembleConcat(a: Asm, p: seq<Rec>, q: seq<Rec>)
    ensures Assemble(a, p + q) == Assemble(Assemble(a, p), q)
    decreases |p|
  {
    if p == [] {
      assert p + q == q;
    } else {
      assert (p + q)[1..] == p[1..] + q;
      AssembleConcat(AddRecord(a, p[0]), p[1..], q);
    }
  }

  /** A component gets collected whole. */
  lemma {:induction false} AssembleComponent(a: Asm, c: Bytes)
    ensures Assemble(a, CompRecs(c)) == AddComponent(a, c)
    decreases |c|
  {
    if |c| > 255 {
      var a' := AddRecord(a, Rec(false, c[..255]));
      assert CompRecs(c)[1..] == CompRecs(c[255..]);
      AssembleComponent(a', c[255..]);
      assert c[..255] + c[255..] == c;
      assert a.name + c[..255] + c[255..] == a.name + c;
      assert a.value + c[..255] + c[255..] == a.value + c;
    } else {
      assert CompRecs(c)[1..] == [];
    }
  }

  function AddComponent(a: Asm, c: Bytes): Asm {
    if a.firstIsName then a.(name := a.name + c, firstIsName := false)
    else Asm(a.attrs + [Attr(ExpandName(a.name), a.value + c)], [], [], true)
  }

  /** What the decoder makes of an attribute */
  function Decoded(attr: Attr): Attr {
    Attr(ExpandName(ShortName(attr.name)), attr.value)
  }

  function DecodedAll(attrs: seq<Attr>): (r: seq<Attr>)
    ensures |r| == |attrs|
  {
    seq(|attrs|, i requires 0 <= i < |attrs| => Decoded(attrs[i]))
  }

  lemma {:induction false} RecordsConcat(a: seq<Bytes>, b: seq<Bytes>)
    ensures Records(a + b) == Records(a) + Records(b)
  {
    if a == [] {
      assert a + b == b;
    } else {
      assert (a + b)[1..] == a[1..] + b;
      RecordsConcat(a[1..], b);
      hide CompRecs;
    }
  }

  /** The components of one attribute */
  function NameAndValue(attr: Attr): seq<Bytes> {
    [ShortName(attr.name), attr.value]
  }

  lemma RecordsOfPair(attr: Attr)
    ensures Records(NameAndValue(attr)) == CompRecs(ShortName(attr.name)) + CompRecs(attr.value)
  {
    hide ShortName, CompRecs;
    var c := NameAndValue(attr);
    var w := c[1..];
    assert w[0] == attr.value && w[1..] == [];
    assert Records(w) == CompRecs(attr.value) + Records(w[1..]);
  }

  lemma AssemblePair(done: seq<Attr>, attr: Attr)
    ensures Assemble(Asm(done, [], [], true), Records(NameAndValue(attr))) == Asm(done + [Decoded(attr)], [], [], true)
  {
    RecordsOfPair(attr);
    hide ShortName, ExpandName, CompRecs, NameAndValue, Records, Assemble;
    var n, v := ShortName(attr.name), attr.value;
    var start, named := Asm(done, [], [], true), Asm(done, n, [], false);
    AssembleConcat(start, CompRecs(n), CompRecs(v));
    AssembleComponent(start, n);
    AssembleComponent(named, v);
    assert start.name + n == n && named.value + v == v;
  }

  lemma {:induction false} AssembleAttrs(done: seq<Attr>, attrs: seq<Attr>)
    ensures Assemble(Asm(done, [], [], true), Records(Components(attrs))) == Asm(done + DecodedAll(attrs), [], [], true)
    decreases |attrs|
  {
    if attrs == [] {
      assert done + DecodedAll(attrs) == done;
    } else {
      var done' := done + [Decoded(attrs[0])];
      var c := NameAndValue(attrs[0]);
      AssemblePair(done, attrs[0]);
      AssembleAttrs(done', attrs[1..]);
      assert Components(attrs) == c + Components(attrs[1..]);
      DecodedAllStep(done, attrs);
      hide *;
      RecordsConcat(c, Components(attrs[1..]));
      AssembleConcat(Asm(done, [], [], true), Records(c), Records(Components(attrs[1..])));
    }
  }

  lemma DecodedAllStep(done: seq<Attr>, attrs: seq<Attr>)
    requires attrs != []
    ensures done + [Decoded(attrs[0])] + DecodedAll(attrs[1..]) == done + DecodedAll(attrs)
  {
    hide Decoded;
    assert DecodedAll(attrs) == [Decoded(attrs[0])] + DecodedAll(attrs[1..]);
  }

  // ---------------------------------------------------------------- Decoding on track

  /** Where the decoder is: the records which are complete in its buffer, the records still to come,
      and how many bytes of the first one of them are already in the buffer. */
  datatype Trail = Trail(q: seq<Rec>, u: seq<Rec>, r: nat)

  ghost predicate Fits(t: Trail) {
    && (t.u == [] ==> t.r == 0)
    && (t.u != [] ==> t.r <= |t.u[0].data| + 2 && (t.r == |t.u[0].data| + 2 ==> t.u[0].data == []))
  }

  lemma FitsStream(t: Trail)
    requires Fits(t)
    ensures t.r <= |RecStream(t.u)|
  {
  }

  /** The payload still to come */
  ghost function Pending(t: Trail): Bytes
    requires Fits(t)
  {
    FitsStream(t);
    RecStream(t.u)[t.r..]
  }

  /** The payload in the buffer */
  ghost function Body(t: Trail): Bytes
    requires Fits(t)
  {
    FitsStream(t);
    RecStream(t.q) + RecStream(t.u)[..t.r]
  }

  /** No record is complete but uncounted. That can happen to an empty one. */
  ghost predicate Clean(t: Trail) {
    t.u != [] ==> t.r < |t.u[0].data| + 2
  }

  /** The records form pairs of components, except for the name that might already be taken out. */
  ghost predicate Whole(q: seq<Rec>, firstIsName: bool) {
    && (q != [] ==> q[|q| - 1].ends)
    && firstIsName == (Ends(q) % 2 == 0)
  }

  /** The counters of the decoder tell where it is. */
  ghost predicate Counts(d: Dec, t: Trail) {
    && Fits(t) && Whole(t.q + t.u, d.firstIsName)
    && d.numRecs == |t.q| && d.numComponents == Ends(t.q)
    && (t.r < 2 ==> d.recHeadMissing == 2 - t.r)
    && (t.r >= 2 ==> d.recHeadMissing == 0 && d.recMissing == |t.u[0].data| + 2 - t.r && d.recEnds == t.u[0].ends)
    && (t.u == [] ==> d.endOfComponents == |d.recs|)
  }

  /** Some bytes of a field head are missing. */
  ghost predicate InHead(d: Dec, t: Trail, rest: Bytes)
    requires Fits(t)
  {
    var f := Fields(Pending(t), false);
    && 1 <= d.aaHeadMissing <= 5 <= |f| && d.aaMissing == 0 && d.aaEnds == 0 && Pending(t) != []
    && d.recs == Body(t) + f[..5 - d.aaHeadMissing] && rest == f[5 - d.aaHeadMissing..]
  }

  /** A field head is complete. */
  ghost predicate InField(d: Dec, t: Trail, rest: Bytes)
    requires Fits(t)
  {
    && d.aaHeadMissing == 0 && d.aaEnds <= 1 && d.aaMissing <= |Pending(t)| && d.recs == Body(t)
    && (d.aaEnds == 1 <==> d.aaMissing == |Pending(t)|)
    && rest == Pending(t)[..d.aaMissing] + Fields(Pending(t)[d.aaMissing..], false)
  }

  /** No more data are to come. */
  ghost predicate AtEnd(d: Dec, t: Trail, rest: Bytes)
    requires Fits(t)
  {
    && d.aaHeadMissing == 0 && 2 <= d.aaEnds <= 3 && d.aaMissing == 0 && d.recs == Body(t)
    && Pending(t) == [] && rest == [] && (d.aaEnds == 3 ==> t.q == [])
  }

  ghost predicate OnTrack(d: Dec, t: Trail, rest: Bytes) {
    && Counts(d, t) && (InHead(d, t, rest) || InField(d, t, rest) || AtEnd(d, t, rest))
    && (t.u == [] ==> AtEnd(d, t, rest))
  }

  /** The second trail is the first one, continued by submitting data. An empty record at the very
      end never gets complete. */
  ghost predicate Continues(t: Trail, t': Trail) {
    && t.q + t.u == t'.q + t'.u && |t.q| <= |t'.q|
    && (t.u != [] && t'.u == [] ==> t.u[|t.u| - 1].data != [])
  }

  lemma MoveInStream(a: Bytes, s: Bytes, r: nat, missing: nat, data: Bytes, more: Bytes, n: nat)
    requires r + missing <= |s| && n <= |data| && n <= missing
    requires data + more == s[r..][..missing] + Fields(s[r..][missing..], false)
    ensures a + s[..r + n] == a + s[..r] + data[..n]
    ensures data[n..] + more == s[r + n..][..missing - n] + Fields(s[r + n..][missing - n..], false)
  {
    hide Fields;
    var p := s[r..];
    assert data[..n] == (data + more)[..n] == p[..n];
    assert s[..r + n] == s[..r] + p[..n];
    assert s[r + n..] == p[n..];
    assert p[missing..] == p[n..][missing - n..];
    assert data[n..] + more == (data + more)[n..];
  }

  /** Some bytes of the current field move from the submitted data to the buffer. */
  lemma MoveBytes(t: Trail, missing: nat, data: Bytes, more: Bytes, n: nat)
    requires Fits(t) && Fits(t.(r := t.r + n)) && missing <= |Pending(t)| && n <= |data| && n <= missing
    requires data + more == Pending(t)[..missing] + Fields(Pending(t)[missing..], false)
    ensures var p := Pending(t.(r := t.r + n));
      && |p| == |Pending(t)| - n
      && Body(t.(r := t.r + n)) == Body(t) + data[..n]
      && data[n..] + more == p[..missing - n] + Fields(p[missing - n..], false)
  {
    FitsStream(t);
    FitsStream(t.(r := t.r + n));
    hide RecStream, Fields;
    MoveInStream(RecStream(t.q), RecStream(t.u), t.r, missing, data, more, n);
  }

  /** The first two bytes of the records to come are the head of the first one. */
  lemma StreamHead(u: seq<Rec>)
    requires u != []
    ensures |RecStream(u)| >= |u[0].data| + 2
    ensures RecStream(u)[..2] == [if u[0].ends then 0 else 1, |u[0].data|]
    ensures RecStream(u)[..|u[0].data| + 2] == RecBytes(u[0])
    ensures RecStream(u)[|u[0].data| + 2..] == RecStream(u[1..])
  {
    assert RecStream(u) == RecBytes(u[0]) + RecStream(u[1..]);
  }

  /** The decoder after n payload bytes, before it looks at record boundaries */
  function Moved(d: Dec, data: Bytes, n: nat): Dec
    requires n <= |data| && n <= d.aaMissing
  {
    d.(recs := d.recs + data[..n], aaMissing := d.aaMissing - n)
  }

  /** The decoder is inside a field, disregarding the record counters. */
  lemma MovedInField(d: Dec, t: Trail, data: Bytes, more: Bytes, n: nat, t': Trail)
    requires Fits(t) && InField(d, t, data + more) && n <= |data| && n <= d.aaMissing
    requires Fits(t')
    requires t' == t.(r := t.r + n) || (t.u != [] && t.r + n == |t.u[0].data| + 2 && t' == PastRecord(t))
    ensures InField(Moved(d, data, n), t', data[n..] + more)
  {
    if t' == t.(r := t.r + n) {
      MoveBytes(t, d.aaMissing, data, more, n);
    } else {
      CompleteRecord(t, d.aaMissing, data, more, n);
    }
    hide Fields, Pending, Body, PastRecord;
  }

  /** aaip_consume_rec_head() stays on track. */
  lemma RecHeadStep(d: Dec, t: Trail, data: Bytes, more: Bytes) returns (t': Trail)
    requires Counts(d, t) && InField(d, t, data + more)
    requires data != [] && d.aaMissing > 0 && d.recHeadMissing > 0
    ensures var (d', data') := ConsumeRecHead(d, data);
      Counts(d', t') && InField(d', t', data' + more) && Continues(t, t')
      && t'.u != [] && (d'.aaMissing > 0 && data' != [] ==> d'.recHeadMissing == 0)
      && |d'.recs| + |data'| == |d.recs| + |data|
  {
    hide Whole, Fields;
    assert t.u != [] && t.r < 2;
    var n := Min(Min(|data|, d.aaMissing), d.recHeadMissing);
    t' := t.(r := t.r + n);
    MovedInField(d, t, data, more, n, t');
    if t'.r == 2 {
      HeadInBuffer(t');
    }
    hide Pending, Body, At, RecBytes, RecStream, Ends;
  }

  lemma HeadInBuffer(t: Trail)
    requires Fits(t) && t.u != [] && t.r == 2
    ensures At(Body(t), |Body(t)| - 2) == (if t.u[0].ends then 0 else 1) && At(Body(t), |Body(t)| - 1) == |t.u[0].data|
  {
    StreamHead(t.u);
    EndsWith(Body(t), RecStream(t.q), RecStream(t.u)[..2]);
    hide *;
    assert RecStream(t.u)[..2][0] == (if t.u[0].ends then 0 else 1) && RecStream(t.u)[..2][1] == |t.u[0].data|;
  }

  lemma EndsWith(s: Bytes, a: Bytes, b: Bytes)
    requires s == a + b && |b| == 2
    ensures At(s, |s| - 2) == b[0] && At(s, |s| - 1) == b[1]
  {
  }

  /** The trail behind the first record to come */
  function PastRecord(t: Trail): Trail
    requires t.u != []
  {
    Trail(t.q + [t.u[0]], t.u[1..], 0)
  }

  lemma PastRecordKeeps(t: Trail)
    requires Fits(t) && t.u != []
    ensures var t' := PastRecord(t);
      && Fits(t') && t.q + t.u == t'.q + t'.u && Ends(t'.q) == Ends(t.q) + (if t.u[0].ends then 1 else 0)
    ensures Pending(PastRecord(t)) == RecStream(t.u)[|t.u[0].data| + 2..]
    ensures Body(PastRecord(t)) == RecStream(t.q) + RecStream(t.u)[..|t.u[0].data| + 2]
  {
    var one := [t.u[0]];
    StreamHead(t.u);
    RecStreamConcat(t.q, one);
    assert one[1..] == [];
    assert RecStream(one) == RecBytes(t.u[0]) + RecStream([]) == RecBytes(t.u[0]);
    assert Ends(one) == if t.u[0].ends then 1 else 0;
    hide RecStream, RecBytes, Ends;
    assert t.q + t.u == t.q + one + t.u[1..];
    assert RecStream(t.u[1..])[..0] == [];
  }

  /** aaip_consume_rec_data() stays on track. */
  lemma RecDataStep(d: Dec, t: Trail, data: Bytes, more: Bytes) returns (t': Trail)
    requires Counts(d, t) && InField(d, t, data + more)
    requires data != [] && d.aaMissing > 0 && d.recHeadMissing == 0
    ensures var (d', data') := ConsumeRecData(d, data);
      Counts(d', t') && InField(d', t', data' + more) && Continues(t, t') && Clean(t')
      && |d'.recs| + |data'| == |d.recs| + |data|
  {
    var n := Min(Min(|data|, d.aaMissing), d.recMissing);
    if n < d.recMissing {
      t' := t.(r := t.r + n);
      PartOfRecord(d, t, data, more, n);
    } else {
      t' := PastRecord(t);
      RestOfRecord(d, t, data, more, n);
    }
    hide Counts, InField, Continues, ConsumeRecData;
  }

  lemma PartOfRecord(d: Dec, t: Trail, data: Bytes, more: Bytes, n: nat)
    requires Counts(d, t) && InField(d, t, data + more)
    requires data != [] && d.aaMissing > 0 && d.recHeadMissing == 0
    requires n == Min(Min(|data|, d.aaMissing), d.recMissing) < d.recMissing
    ensures var (d', data') := ConsumeRecData(d, data); var t' := t.(r := t.r + n);
      Counts(d', t') && InField(d', t', data' + more) && Continues(t, t') && Clean(t')
      && |d'.recs| + |data'| == |d.recs| + |data|
  {
    MovedInField(d, t, data, more, n, t.(r := t.r + n));
    hide Whole, Fields, Pending, Body, RecStream, Ends;
  }

  lemma RestOfRecord(d: Dec, t: Trail, data: Bytes, more: Bytes, n: nat)
    requires Counts(d, t) && InField(d, t, data + more)
    requires data != [] && d.aaMissing > 0 && d.recHeadMissing == 0
    requires n == Min(Min(|data|, d.aaMissing), d.recMissing) == d.recMissing
    ensures t.u != []
    ensures var (d', data') := ConsumeRecData(d, data); var t' := PastRecord(t);
      Counts(d', t') && InField(d', t', data' + more) && Continues(t, t') && Clean(t')
      && |d'.recs| + |data'| == |d.recs| + |data|
  {
    assert t.u != [] && t.r >= 2;
    LastHasData(d, t, data + more);
    RestCounts(d, t, data, n);
    PastRecordKeeps(t);
    MovedInField(d, t, data, more, n, PastRecord(t));
    assert Moved(d, data, n).recs == ConsumeRecData(d, data).0.recs;
    hide Counts, PastRecord, Body, Pending;
    SameField(Moved(d, data, n), ConsumeRecData(d, data).0, PastRecord(t), data[n..] + more);
    hide InField;
  }

  lemma SameField(d: Dec, d': Dec, t: Trail, rest: Bytes)
    requires Fits(t) && InField(d, t, rest)
    requires d'.recs == d.recs && d'.aaHeadMissing == d.aaHeadMissing && d'.aaMissing == d.aaMissing
             && d'.aaEnds == d.aaEnds
    ensures InField(d', t, rest)
  {
  }

  lemma RestCounts(d: Dec, t: Trail, data: Bytes, n: nat)
    requires Counts(d, t) && t.r >= 2 && (|t.u| == 1 ==> t.u[0].data != [])
    requires n == Min(Min(|data|, d.aaMissing), d.recMissing) == d.recMissing
    ensures var (d', data') := ConsumeRecData(d, data); var t' := PastRecord(t);
      Counts(d', t') && Continues(t, t') && Clean(t')
  {
    PastRecordKeeps(t);
    LastRecordEnds(t, d.firstIsName);
    hide Whole, Ends;
  }

  /** An empty record does not get complete at the very end of the payload. */
  lemma LastHasData(d: Dec, t: Trail, rest: Bytes)
    requires Counts(d, t) && InField(d, t, rest) && d.aaMissing > 0 && t.r >= 2
    ensures |t.u| == 1 ==> t.u[0].data != []
  {
    if |t.u| == 1 {
      StreamHead(t.u);
    }
  }

  lemma LastRecordEnds(t: Trail, firstIsName: bool)
    requires t.u != [] && Whole(t.q + t.u, firstIsName)
    ensures PastRecord(t).u == [] ==> t.u[0].ends
  {
    hide Ends;
    if |t.u| == 1 {
      assert (t.q + t.u)[|t.q + t.u| - 1] == t.u[0];
    }
  }

  /** Like MoveBytes, for the bytes which complete a record. */
  lemma CompleteRecord(t: Trail, missing: nat, data: Bytes, more: Bytes, n: nat)
    requires Fits(t) && t.u != [] && t.r + n == |t.u[0].data| + 2
    requires missing <= |Pending(t)| && n <= |data| && n <= missing
    requires data + more == Pending(t)[..missing] + Fields(Pending(t)[missing..], false)
    ensures var t' := PastRecord(t); var p := Pending(t');
      && |p| == |Pending(t)| - n
      && Body(t') == Body(t) + data[..n]
      && data[n..] + more == p[..missing - n] + Fields(p[missing - n..], false)
  {
    FitsStream(t);
    PastRecordKeeps(t);
    StreamHead(t.u);
    hide RecStream, Fields, PastRecord;
    MoveInStream(RecStream(t.q), RecStream(t.u), t.r, missing, data, more, n);
  }

  lemma ContinuesFurther(t0: Trail, t1: Trail, t2: Trail)
    requires Continues(t0, t1) && Continues(t1, t2)
    ensures Continues(t0, t2)
  {
    if t0.u != [] && t1.u != [] && t2.u == [] {
      assert t0.u[|t0.u| - 1] == (t0.q + t0.u)[|t0.q + t0.u| - 1] == t1.u[|t1.u| - 1];
    }
  }

  lemma CleanPending(t: Trail)
    requires Fits(t) && Clean(t) && Pending(t) == []
    ensures t.u == []
  {
    if t.u != [] {
      StreamHead(t.u);
    }
  }

  lemma DataPending(d: Dec, t: Trail, rest: Bytes)
    requires Fits(t) && InField(d, t, rest) && rest != []
    ensures Pending(t) != []
  {
  }

  /** The loop of aaip_consume_aa_data() stays on track. */
  lemma {:induction false} RecordsStep(d: Dec, t: Trail, data: Bytes, more: Bytes) returns (t': Trail)
    requires Counts(d, t) && InField(d, t, data + more)
    requires data == [] && Pending(t) == [] ==> t.u == []
    ensures var (left, d', data') := ConsumeRecords(d, data);
      Counts(d', t') && InField(d', t', data' + more) && Continues(t, t')
      && (d'.aaMissing == 0 || data' == []) && (!left && Pending(t') == [] ==> t'.u == []) && (left ==> t'.u != [])
      && |d'.recs| + |data'| == |d.recs| + |data|
    decreases |data|, if d.recHeadMissing == 0 then 1 else 0
  {
    hide InField, ConsumeRecHead, ConsumeRecData, Continues, Whole, Pending;
    t' := t;
    ContinuesSame(t);
    if data != [] {
      DataPending(d, t, data + more);
    }
    if data != [] && d.aaMissing > 0 {
      var t1, d1, data1 := t, d, data;
      if d.recHeadMissing > 0 {
        t1 := RecHeadStep(d, t, data, more);
        d1, data1 := ConsumeRecHead(d, data).0, ConsumeRecHead(d, data).1;
        t' := t1;
      }
      if d.recHeadMissing == 0 || (data1 != [] && d1.aaMissing > 0) {
        var t2 := RecDataStep(d1, t1, data1, more);
        var (d2, data2) := ConsumeRecData(d1, data1);
        if Pending(t2) == [] {
          CleanPending(t2);
        }
        t' := RecordsStep(d2, t2, data2, more);
        if d.recHeadMissing > 0 {
          ContinuesFurther(t, t1, t2);
        }
        ContinuesFurther(t, t2, t');
      }
    }
  }

  /** The emergency closure has nothing to close. */
  lemma NothingToClose(d: Dec, t: Trail)
    requires Counts(d, t) && t.u == []
    ensures ClosePair(CloseComponent(CloseRecord(d))) == d
  {
    assert t.q + t.u == t.q;
  }

  /** aaip_consume_aa_data() stays on track. */
  lemma DataStep(d: Dec, t: Trail, data: Bytes, more: Bytes) returns (t': Trail)
    requires Counts(d, t) && InField(d, t, data + more) && data != []
    ensures var (d', data') := ConsumeAaData(d, data);
      OnTrack(d', t', data' + more) && Continues(t, t')
      && (d'.aaMissing == 0 || data' == [])
      && (|data'| == |data| ==> d'.aaHeadMissing > 0)
      && |d'.recs| + |data'| == |d.recs| + |data|
  {
    hide Counts, InField, InHead, AtEnd, ConsumeRecords, EndField, Continues;
    t' := RecordsStep(d, t, data, more);
    var (left, d1, data1) := ConsumeRecords(d, data);
    FieldGoesOn(d1, t', data1 + more);
    if !left {
      EndFieldStep(d1, t', data1 + more);
    }
  }

  lemma FieldGoesOn(d: Dec, t: Trail, rest: Bytes)
    requires Counts(d, t) && InField(d, t, rest)
    ensures d.aaHeadMissing == 0 && (t.u != [] ==> OnTrack(d, t, rest))
  {
    hide Counts, Fields, Pending, Body, InHead, AtEnd;
  }

  /** The end of a field is followed by the next field head, or by the end of all data. */
  lemma EndFieldStep(d: Dec, t: Trail, rest: Bytes)
    requires Counts(d, t) && InField(d, t, rest) && (Pending(t) == [] ==> t.u == [])
    ensures var d' := EndField(d);
      && OnTrack(d', t, rest) && d'.recs == d.recs && d'.aaMissing == d.aaMissing
      && (d.aaMissing == 0 && rest != [] ==> d'.aaHeadMissing > 0)
  {
    FieldsEmpty(Pending(t));
    if d.aaEnds == 1 && d.aaMissing == 0 {
      NothingToClose(d, t);
    }
    hide Fields, Pending, Body, Whole, Ends, CloseRecord, CloseComponent, ClosePair;
  }

  lemma FieldsEmpty(p: Bytes)
    ensures Fields(p, false) == [] <==> p == []
    ensures p != [] ==> |Fields(p, false)| >= 5
    ensures p[..0] + Fields(p[0..], false) == Fields(p, false)
  {
    assert p[0..] == p;
  }

  // ---------------------------------------------------------------- Submitting on track

  /** The first field of a payload, and the other ones */
  lemma FirstField(p: Bytes) returns (n: nat)
    requires p != []
    ensures 1 <= n <= |p| && n <= FIELD_PAYLOAD && (n == |p| <==> |p| <= FIELD_PAYLOAD)
    ensures |Fields(p, false)| >= 5
    ensures Fields(p, false)[..5] == FieldHead(n + 5, n < |p|)
    ensures Fields(p, false)[5..] == p[..n] + Fields(p[n..], false)
  {
    n := if |p| <= FIELD_PAYLOAD then |p| else FIELD_PAYLOAD;
    hide FieldHead;
    if |p| <= FIELD_PAYLOAD {
      assert Fields(p, false) == FieldHead(n + 5, false) + p;
      assert p[..n] + Fields(p[n..], false) == p;
    } else {
      assert Fields(p, false) == FieldHead(255, true) + (p[..n] + Fields(p[n..], false));
    }
  }

  /** aaip_consume_aa_head() stays on track. */
  lemma AaHeadStep(d: Dec, t: Trail, data: Bytes, more: Bytes)
    requires Counts(d, t) && InHead(d, t, data + more) && data != []
    ensures var (ok, d', data') := ConsumeAaHead(d, data);
      ok && Counts(d', t) && |d'.recs| + |data'| <= |d.recs| + |data|
      && (InHead(d', t, data' + more) || InField(d', t, data' + more))
      && (d'.aaHeadMissing > 0 ==> InHead(d', t, data' + more) && data' == [])
      && (d'.aaHeadMissing == 0 ==> InField(d', t, data' + more) && d'.aaMissing > 0 && d'.recs == Body(t))
  {
    var p := Pending(t);
    var n := FirstField(p);
    var todo := Min(|data|, d.aaHeadMissing);
    hide Whole, Ends, Fields, Pending, Body, RecStream, FieldHead;
    MoveHead(Body(t), Fields(p, false), 5 - d.aaHeadMissing, data, more, todo);
    if todo == d.aaHeadMissing {
      HeadRead(d.recs + data[..todo], Body(t), n, n < |p|);
    }
    hide IsFieldHead;
  }

  lemma MoveHead(body: Bytes, f: Bytes, have: nat, data: Bytes, more: Bytes, todo: nat)
    requires have + todo <= 5 <= |f| && todo <= |data| && data + more == f[have..]
    ensures body + f[..have] + data[..todo] == body + f[..have + todo]
    ensures data[todo..] + more == f[have + todo..]
  {
    assert data[..todo] == (data + more)[..todo] == f[have..][..todo];
    assert f[..have] + f[have..][..todo] == f[..have + todo];
    assert data[todo..] + more == (data + more)[todo..];
  }

  lemma HeadRead(recs: Bytes, body: Bytes, n: nat, continued: bool)
    requires n <= FIELD_PAYLOAD && recs == body + FieldHead(n + 5, continued)
    ensures |recs| - 5 == |body| && recs[..|body|] == body
    ensures var head := recs[|body|..];
      IsFieldHead(head) && head[2] == n + 5 && head[4] % 2 == if continued then 1 else 0
  {
    assert recs[|body|..] == FieldHead(n + 5, continued);
  }

  /** The loop of aaip_submit_data() stays on track, and it accepts all data. */
  lemma {:induction false} SubmitLoopStep(d: Dec, t: Trail, data: Bytes, more: Bytes, consumed: nat) returns (t': Trail)
    requires OnTrack(d, t, data + more)
    ensures var s := SubmitLoop(d, data, consumed);
      s.Accepted? && OnTrack(s.d, t', more) && Continues(t, t') && |s.d.recs| <= |d.recs| + |data|
      && (t' != t ==> |s.d.recs| <= |Body(t)| + |data|)
    decreases |data|, if d.aaHeadMissing == 0 then 1 else 0
  {
    hide Counts, InHead, InField, ConsumeAaHead, ConsumeAaData, Body, Continues;
    t' := t;
    ContinuesSame(t);
    if data == [] {
      assert data + more == more;
    } else {
      TrackKind(d, t, data + more);
      var d1, data1 := d, data;
      if d.aaHeadMissing > 0 {
        AaHeadStep(d, t, data, more);
        d1, data1 := ConsumeAaHead(d, data).1, ConsumeAaHead(d, data).2;
        assert data1 == [] ==> data1 + more == more;
      }
      if data1 != [] {
        t' := DataStep(d1, t, data1, more);
        var (d2, data2) := ConsumeAaData(d1, data1);
        assert data2 == [] ==> data2 + more == more;
        if d2.aaMissing == 0 {
          var t1 := t';
          t' := SubmitLoopStep(d2, t1, data2, more, consumed + |data| - |data2|);
          ContinuesFurther(t, t1, t');
        }
      }
    }
  }

  lemma ContinuesSame(t: Trail)
    ensures Continues(t, t)
  {
  }

  lemma TrackKind(d: Dec, t: Trail, rest: Bytes)
    requires OnTrack(d, t, rest) && rest != []
    ensures if d.aaHeadMissing > 0 then InHead(d, t, rest) else InField(d, t, rest) && d.recs == Body(t)
  {
  }

  /** The reply of aaip_submit_data() stays on track, and it tells what is there to be fetched. */
  lemma ReplyStep(d: Dec, t: Trail, rest: Bytes)
    requires OnTrack(d, t, rest)
    ensures var (code, d') := Reply(d);
      OnTrack(d', t, rest) && (code == 2 || code == 3 <==> t.q != []) && d'.recs == d.recs
        && d'.aaHeadMissing == d.aaHeadMissing
      && (code == 4 <==> d'.aaEnds == 3) && (code == 1 ==> d'.aaEnds < 2)
  {
    FieldsEmpty(Pending(t));
    hide Fields, Whole, RecStream;
  }

  /** aaip_submit_data() stays on track. */
  lemma SubmitStep(d: Dec, t: Trail, data: Bytes, more: Bytes) returns (t': Trail)
    requires OnTrack(d, t, data + more) && data != [] && |d.recs| + |data| <= BUFFER_SIZE
    ensures var (code, d', _) := Submit(d, data);
      OnTrack(d', t', more) && Continues(t, t') && |d'.recs| <= |d.recs| + |data|
      && (t' != t ==> |d'.recs| <= |Body(t)| + |data|)
      && 1 <= code <= 4 && (code == 2 || code == 3 <==> t'.q != [])
      && (code == 4 <==> d'.aaEnds == 3) && (code == 1 ==> d'.aaEnds < 2)
  {
    TrackKind(d, t, data + more);
    t' := SubmitLoopStep(d, t, data, more, 0);
    ReplyStep(SubmitLoop(d, data, 0).d, t', more);
    hide OnTrack, SubmitLoop, Reply, Continues, Body;
  }

  // ---------------------------------------------------------------- Fetching on track

  /** How many records there are up to the end of the first component */
  function RunLength(q: seq<Rec>): (n: nat)
    ensures n <= |q| && (q != [] ==> n >= 1)
  {
    if q == [] then 0 else if q[0].ends then 1 else 1 + RunLength(q[1..])
  }

  predicate RunEnds(q: seq<Rec>) {
    q != [] && (q[0].ends || RunEnds(q[1..]))
  }

  /** The data of the records up to the end of the first component */
  function RunData(q: seq<Rec>): Bytes {
    if q == [] then [] else if q[0].ends then q[0].data else q[0].data + RunData(q[1..])
  }

  /** The records behind the end of the first component */
  function AfterRun(q: seq<Rec>): seq<Rec> {
    q[RunLength(q)..]
  }

  /** The size of these records in the buffer */
  function RunSize(q: seq<Rec>): nat {
    if q == [] then 0 else |q[0].data| + 2 + (if q[0].ends then 0 else RunSize(q[1..]))
  }

  lemma {:induction false} RunParts(q: seq<Rec>)
    ensures RunSize(q) <= |RecStream(q)|
    ensures RecStream(q)[RunSize(q)..] == RecStream(AfterRun(q))
    ensures Ends(q) == Ends(AfterRun(q)) + (if RunEnds(q) then 1 else 0)
    ensures !RunEnds(q) ==> AfterRun(q) == []
  {
    if q != [] {
      StreamHead(q);
      if !q[0].ends {
        RunParts(q[1..]);
        assert AfterRun(q) == AfterRun(q[1..]);
        assert RecStream(q)[RunSize(q)..] == RecStream(q)[|q[0].data| + 2..][RunSize(q[1..])..];
      }
    }
  }

  /** The run is what assembling adds to a name or to a value. */
  lemma {:induction false} AssembleRun(a: Asm, q: seq<Rec>)
    requires q != []
    ensures Assemble(a, q) == Assemble(AddRun(a, q), AfterRun(q))
    decreases |q|
  {
    AddRunStep(a, q);
    hide AddRun, AddRecord, RunEnds, RunData;
    if !q[0].ends {
      assert AfterRun(q) == AfterRun(q[1..]);
      if q[1..] != [] {
        AssembleRun(AddRecord(a, q[0]), q[1..]);
      }
    }
  }

  lemma AddRunStep(a: Asm, q: seq<Rec>)
    requires q != []
    ensures AddRun(a, q) ==
            if q[0].ends || q[1..] == [] then AddRecord(a, q[0]) else AddRun(AddRecord(a, q[0]), q[1..])
  {
    hide ExpandName;
    if !q[0].ends {
      var rest := RunData(q[1..]);
      assert RunEnds(q) == RunEnds(q[1..]);
      assert q[1..] == [] ==> rest == [] && !RunEnds(q[1..]);
      assert RunData(q) == q[0].data + rest;
      assert a.name + q[0].data + rest == a.name + RunData(q);
      assert a.value + q[0].data + rest == a.value + RunData(q);
    }
  }

  function AddRun(a: Asm, q: seq<Rec>): Asm {
    if a.firstIsName then a.(name := a.name + RunData(q), firstIsName := !RunEnds(q))
    else if RunEnds(q) then Asm(a.attrs + [Attr(ExpandName(a.name), a.value + RunData(q))], [], [], true)
    else a.(value := a.value + RunData(q))
  }

  /** The loop of aaip_fetch_data() gathers the run, if there is room for its data. */
  lemma {:induction false} GatherRun(d: Dec, size: int, i: nat, data: Bytes, before: Bytes, q: seq<Rec>, tail: Bytes)
    requires d.recs == before + RecStream(q) + tail && i + |q| == d.numRecs && |data| <= size
    ensures Gather(d, size, i, |before|, data) == RunGathered(size, i, |before|, data, q)
    decreases |q|
  {
    hide *;
    if q == [] {
      GatherNothing(d, size, i, |before|, data, q);
    } else {
      FirstInBuffer(d.recs, before, q, tail);
      RunGatheredStep(size, i, |before|, data, q);
      GatherStep(d, size, i, |before|, data, q[0]);
      if |data + q[0].data| <= size && !q[0].ends {
        GatherRun(d, size, i + 1, data + q[0].data, before + RecBytes(q[0]), q[1..], tail);
      }
    }
  }

  lemma GatherNothing(d: Dec, size: int, i: nat, h: nat, data: Bytes, q: seq<Rec>)
    requires q == [] && i == d.numRecs && |data| <= size
    ensures Gather(d, size, i, h, data) == RunGathered(size, i, h, data, q)
  {
    assert data + RunData(q) == data;
  }

  lemma GatherStep(d: Dec, size: int, i: nat, h: nat, data: Bytes, r: Rec)
    requires i < d.numRecs && At(d.recs, h) == (if r.ends then 0 else 1)
    requires At(d.recs, h + 1) == |r.data| && Part(d.recs, h + 2, |r.data|) == r.data
    ensures Gather(d, size, i, h, data) ==
            if |data + r.data| > size then TooSmall
            else if r.ends then Gathered(i + 1, h + |r.data| + 2, data + r.data, true)
            else Gather(d, size, i + 1, h + |r.data| + 2, data + r.data)
  {
    hide At, Part;
  }

  lemma RunGatheredStep(size: int, i: nat, h: nat, data: Bytes, q: seq<Rec>)
    requires q != []
    ensures var data' := data + q[0].data;
      RunGathered(size, i, h, data, q) ==
      if |data'| > size then TooSmall
      else if q[0].ends then Gathered(i + 1, h + |q[0].data| + 2, data', true)
      else RunGathered(size, i + 1, h + |q[0].data| + 2, data', q[1..])
  {
    if !q[0].ends {
      assert data + q[0].data + RunData(q[1..]) == data + RunData(q);
    }
  }

  function RunGathered(size: int, i: nat, h: nat, data: Bytes, q: seq<Rec>): Gathered {
    if |data| + |RunData(q)| <= size then Gathered(i + RunLength(q), h + RunSize(q), data + RunData(q), RunEnds(q))
    else TooSmall
  }

  lemma FirstInBuffer(recs: Bytes, before: Bytes, q: seq<Rec>, tail: Bytes)
    requires q != [] && recs == before + RecStream(q) + tail
    ensures var h := |before|;
      && At(recs, h) == (if q[0].ends then 0 else 1) && At(recs, h + 1) == |q[0].data|
      && Part(recs, h + 2, |q[0].data|) == q[0].data
      && recs == (before + RecBytes(q[0])) + RecStream(q[1..]) + tail
  {
    assert RecStream(q) == RecBytes(q[0]) + RecStream(q[1..]);
    hide *;
    Regroup(before, RecBytes(q[0]), RecStream(q[1..]), tail);
    HeadAndData(recs, before, q[0], RecStream(q[1..]) + tail);
  }

  lemma HeadAndData(recs: Bytes, before: Bytes, r: Rec, after: Bytes)
    requires recs == before + RecBytes(r) + after
    ensures var h := |before|;
      && At(recs, h) == (if r.ends then 0 else 1) && At(recs, h + 1) == |r.data|
      && Part(recs, h + 2, |r.data|) == r.data
  {
    var h := |before|;
    assert recs[h] == RecBytes(r)[0] && recs[h + 1] == RecBytes(r)[1];
    assert recs[h + 2..h + 2 + |r.data|] == RecBytes(r)[2..] == r.data;
  }

  /** The trail after the first run of records was taken out of the buffer */
  function Fetched(t: Trail): Trail {
    t.(q := AfterRun(t.q))
  }

  lemma ShiftedBytes(a: Bytes, n: nat, b: Bytes)
    requires n <= |a|
    ensures (a + b)[n..] == a[n..] + b
  {
  }

  /** The place in the fields is not affected by taking out complete records. */
  lemma FetchedPlace(d: Dec, t: Trail, rest: Bytes, d': Dec)
    requires OnTrack(d, t, rest)
    requires Fits(Fetched(t)) && d'.recs == d.recs[Min(RunSize(t.q), |d.recs|)..]
    requires d'.aaHeadMissing == d.aaHeadMissing && d'.aaMissing == d.aaMissing && d'.aaEnds == d.aaEnds
    ensures RunSize(t.q) <= |d.recs|
    ensures InHead(d', Fetched(t), rest) || InField(d', Fetched(t), rest) || AtEnd(d', Fetched(t), rest)
    ensures InHead(d, t, rest) || d.recs == Body(t)
  {
    FitsStream(t);
    RunParts(t.q);
    var s := RecStream(t.u)[..t.r];
    ghost var f := Fields(Pending(t), false);
    hide RecStream, RunSize, AfterRun, Fields;
    ShiftedBytes(RecStream(t.q), RunSize(t.q), s);
    if InHead(d, t, rest) {
      ShiftedBytes(Body(t), RunSize(t.q), f[..5 - d.aaHeadMissing]);
    }
  }

  /** The pairing of the components that remain */
  lemma FetchedWhole(t: Trail, firstIsName: bool)
    requires t.q != [] && Whole(t.q + t.u, firstIsName)
    ensures Ends(AfterRun(t.q)) == Ends(t.q) - (if RunEnds(t.q) then 1 else 0)
    ensures Whole(AfterRun(t.q) + t.u, if RunEnds(t.q) then !firstIsName else firstIsName)
  {
    RunParts(t.q);
    RecStreamConcat(t.q, t.u);
    RecStreamConcat(AfterRun(t.q), t.u);
    hide RunEnds, Ends, RecStream;
    var a, b := t.q + t.u, AfterRun(t.q) + t.u;
    assert b == a[RunLength(t.q)..];
  }

  /** aaip_fetch_data() stays on track. */
  lemma FetchStep(d: Dec, t: Trail, rest: Bytes, size: int)
    requires OnTrack(d, t, rest) && t.q != [] && size >= 0
    ensures var (code, data, d') := Fetch(d, size);
      if |RunData(t.q)| > size then code == -2
      else
        && code == (if d.firstIsName then 0 else 2) + (if RunEnds(t.q) then 0 else 1)
        && data == RunData(t.q) && OnTrack(d', Fetched(t), rest)
        && d'.firstIsName == (if RunEnds(t.q) then !d.firstIsName else d.firstIsName)
        && |d'.recs| == |d.recs| - RunSize(t.q) && d'.aaEnds == d.aaEnds
  {
    hide *;
    FetchIs(d, t, rest, size);
    TookOut(d, t, rest);
  }

  /** The state after the first run was taken out */
  function WithoutRun(d: Dec, q: seq<Rec>): Dec {
    d.(recs := d.recs[Min(RunSize(q), |d.recs|)..], numRecs := Sub(d.numRecs, RunLength(q)),
       endOfComponents := Sub(d.endOfComponents, RunSize(q)),
       firstIsName := if RunEnds(q) then !d.firstIsName else d.firstIsName,
       numComponents := if RunEnds(q) then Sub(d.numComponents, 1) else d.numComponents)
  }

  lemma FetchIs(d: Dec, t: Trail, rest: Bytes, size: int)
    requires OnTrack(d, t, rest) && t.q != [] && size >= 0
    ensures Fetch(d, size) ==
            if |RunData(t.q)| > size then (-2, [], d)
            else ((if d.firstIsName then 0 else 2) + (if RunEnds(t.q) then 0 else 1), RunData(t.q), WithoutRun(d, t.q))
  {
    GatherIs(d, t, rest, size);
    hide RunData, RunEnds, RunSize, RunLength, Counts, InHead, InField, AtEnd, Gather;
  }

  lemma GatherIs(d: Dec, t: Trail, rest: Bytes, size: int)
    requires OnTrack(d, t, rest) && t.q != [] && size >= 0
    ensures d.numRecs == |t.q|
    ensures Gather(d, size, 0, 0, []) ==
            if |RunData(t.q)| > size then TooSmall
            else Gathered(RunLength(t.q), RunSize(t.q), RunData(t.q), RunEnds(t.q))
  {
    RecsSplit(d, t, rest);
    var tail := d.recs[|RecStream(t.q)|..];
    assert d.numRecs == |t.q|;
    hide RecStream, OnTrack, RunData, RunEnds, RunSize, RunLength, Gather;
    var none: Bytes := [];
    assert none + RecStream(t.q) == RecStream(t.q);
    assert none + RunData(t.q) == RunData(t.q);
    GatherRun(d, size, 0, none, none, t.q, tail);
  }

  lemma TookOut(d: Dec, t: Trail, rest: Bytes)
    requires OnTrack(d, t, rest) && t.q != []
    ensures var d' := WithoutRun(d, t.q);
      OnTrack(d', Fetched(t), rest) && |d'.recs| == |d.recs| - RunSize(t.q)
      && d'.firstIsName == (if RunEnds(t.q) then !d.firstIsName else d.firstIsName) && d'.aaEnds == d.aaEnds
  {
    FetchedWhole(t, d.firstIsName);
    FetchedPlace(d, t, rest, WithoutRun(d, t.q));
    hide InHead, InField, AtEnd, RunEnds, RunSize, Ends, Whole;
  }

  lemma RecsSplit(d: Dec, t: Trail, rest: Bytes)
    requires OnTrack(d, t, rest)
    ensures |RecStream(t.q)| <= |d.recs| && d.recs == RecStream(t.q) + d.recs[|RecStream(t.q)|..]
  {
    hide RecStream, Fields;
  }
}
