/**
 What the AAIP decoder (libisofs/aaip_0_2.c) computes, as functions on its state: the levels of
 fields and records, of components, of pairs, and of the attribute list.
 */
module AaipDecoder {
  import opened Common
  import opened IsoBytes
  import opened AaipFormat

  const BUFFER_SIZE: nat := 4096
  const BUFFER_RESERVE: nat := 263
  const MAX_NAME_EXPANSION: nat := 9

  /** struct aaip_state up to its component counters. The buffer is given by its content. */
  datatype Dec = Dec(aaHeadMissing: nat, aaMissing: nat, aaEnds: nat, recs: Bytes, recHeadMissing: nat,
                     recMissing: nat, recEnds: bool, numRecs: nat, numComponents: nat, endOfComponents: nat,
                     firstIsName: bool)

  const FRESH: Dec := Dec(5, 0, 0, [], 2, 0, false, 0, 0, 0, true)

  /** A byte of the buffer. Outside of the content there is nothing of interest. */
  function At(s: Bytes, i: int): Byte { if 0 <= i < |s| then s[i] else 0 }

  function Part(s: Bytes, from: nat, len: nat): (r: Bytes)
    ensures |r| <= len
  {
    s[Min(from, |s|)..Min(from + len, |s|)]
  }

  // ---------------------------------------------------------------- Fields and records

  /** aaip_consume_rec_head() */
  function ConsumeRecHead(d: Dec, data: Bytes): (r: (Dec, Bytes))
    ensures |data| > 0 && d.aaMissing > 0 && d.recHeadMissing > 0 ==> |r.1| < |data|
  {
    var todo := Min(Min(|data|, d.aaMissing), d.recHeadMissing);
    var recs := d.recs + data[..todo];
    var d' := d.(recs := recs, recHeadMissing := d.recHeadMissing - todo, aaMissing := d.aaMissing - todo);
    (if d'.recHeadMissing > 0 then d'
     else d'.(recMissing := At(recs, |recs| - 1), recEnds := At(recs, |recs| - 2) % 2 == 0),
     data[todo..])
  }

  /** The counting of a completed record */
  function CountRecord(d: Dec): Dec {
    if d.recEnds
    then d.(numRecs := d.numRecs + 1, numComponents := d.numComponents + 1, endOfComponents := |d.recs|)
    else d.(numRecs := d.numRecs + 1)
  }

  /** aaip_consume_rec_data() */
  function ConsumeRecData(d: Dec, data: Bytes): (r: (Dec, Bytes))
    ensures |r.1| <= |data|
    ensures |r.1| == |data| > 0 && d.aaMissing > 0 ==> r.0.recHeadMissing > 0
  {
    var todo := Min(Min(|data|, d.aaMissing), d.recMissing);
    var d' := d.(recs := d.recs + data[..todo], recMissing := d.recMissing - todo, aaMissing := d.aaMissing - todo);
    (if d'.recMissing > 0 then d' else CountRecord(d').(recHeadMissing := 2), data[todo..])
  }

  predicate IsFieldHead(head: Bytes) {
    At(head, 0) == 'A' as int && (At(head, 1) == 'L' as int || At(head, 1) == 'A' as int) && At(head, 3) == 1
  }

  /** aaip_consume_aa_head(): the head bytes pass through the buffer. */
  function ConsumeAaHead(d: Dec, data: Bytes): (r: (bool, Dec, Bytes))
    ensures |data| > 0 && d.aaHeadMissing > 0 && r.0 ==> |r.2| < |data|
  {
    var todo := Min(|data|, d.aaHeadMissing);
    var d' := d.(recs := d.recs + data[..todo], aaHeadMissing := d.aaHeadMissing - todo);
    if d'.aaHeadMissing > 0 || |d'.recs| < 5 then (true, d', data[todo..])
    else
      var body := |d'.recs| - 5;
      var head := d'.recs[body..];
      if !IsFieldHead(head) then (false, d', data)
      else (true, d'.(recs := d'.recs[..body], aaMissing := if head[2] >= 5 then head[2] - 5 else 0,
                      aaEnds := if head[4] % 2 == 0 then 1 else 0), data[todo..])
  }

  /** The loop of aaip_consume_aa_data(). The first result tells that it was left by return. */
  function ConsumeRecords(d: Dec, data: Bytes): (r: (bool, Dec, Bytes))
    ensures |r.2| <= |data|
    ensures r.0 ==> |r.2| < |data|
    decreases |data|, if d.recHeadMissing == 0 then 1 else 0
  {
    if data == [] || d.aaMissing == 0 then (false, d, data)
    else if d.recHeadMissing > 0 then
      var (d1, data1) := ConsumeRecHead(d, data);
      if data1 == [] || d1.aaMissing == 0 then (true, d1, data1)
      else
        var (d2, data2) := ConsumeRecData(d1, data1);
        ConsumeRecords(d2, data2)
    else
      var (d2, data2) := ConsumeRecData(d, data);
      ConsumeRecords(d2, data2)
  }

  /** An empty record which ends its component */
  function AddEmptyRecord(d: Dec): Dec {
    d.(recs := d.recs + [0, 0], numRecs := d.numRecs + 1, numComponents := d.numComponents + 1,
       endOfComponents := |d.recs| + 2)
  }

  function CloseRecord(d: Dec): Dec {
    if d.recHeadMissing == 2 then d
    else
      var recs := if d.recHeadMissing > 0 && d.recs != [] then d.recs[|d.recs| - 1 := 0] + [0]
                  else d.recs + seq(d.recMissing, _ => 0);
      CountRecord(d.(recs := recs, recHeadMissing := 2, recMissing := 0))
  }

  function CloseComponent(d: Dec): Dec {
    if d.endOfComponents != |d.recs| && d.endOfComponents != 0 then AddEmptyRecord(d) else d
  }

  function ClosePair(d: Dec): Dec {
    if d.firstIsName == (d.numComponents % 2 == 1) then AddEmptyRecord(d) else d
  }

  /** The end of a field in aaip_consume_aa_data() */
  function EndField(d: Dec): Dec {
    if d.aaMissing > 0 then d
    else if d.aaEnds == 0 then d.(aaHeadMissing := 5)
    else ClosePair(CloseComponent(CloseRecord(d))).(aaEnds := 2)
  }

  /** aaip_consume_aa_data() */
  function ConsumeAaData(d: Dec, data: Bytes): (r: (Dec, Bytes))
    ensures |r.1| <= |data|
  {
    var (left, d', data') := ConsumeRecords(d, data);
    (if left then d' else EndField(d'), data')
  }

  // ---------------------------------------------------------------- Submitting

  /** The outcome of the loop in aaip_submit_data(). That loop never ends if there are bytes behind
      the last field. */
  datatype Submitted = Accepted(d: Dec) | NoField(d: Dec, consumed: nat) | Endless

  function SubmitLoop(d: Dec, data: Bytes, consumed: nat): Submitted
    decreases |data|, if d.aaHeadMissing == 0 then 1 else 0
  {
    if data == [] then Accepted(d)
    else if d.aaHeadMissing > 0 then
      var (ok, d1, data1) := ConsumeAaHead(d, data);
      if !ok then NoField(d1, consumed)
      else if data1 == [] || d1.aaMissing == 0 then Accepted(d1)
      else
        var (d2, data2) := ConsumeAaData(d1, data1);
        if d2.aaMissing > 0 then Accepted(d2) else SubmitLoop(d2, data2, consumed + |data| - |data2|)
    else
      var (d2, data2) := ConsumeAaData(d, data);
      if d2.aaMissing > 0 then Accepted(d2)
      else if |data2| == |data| && d2.aaHeadMissing == 0 then Endless
      else SubmitLoop(d2, data2, consumed + |data| - |data2|)
  }

  /** The reply at the end of aaip_submit_data() */
  function Reply(d: Dec): (r: (int, Dec))
    ensures r.0 == 1 || r.0 == 2 || r.0 == 3 || r.0 == 4
    ensures r.1 == d.(aaEnds := r.1.aaEnds)
  {
    if d.numComponents > 0 then (3, d)
    else if d.numRecs > 0 then (2, d)
    else
      var e := if d.aaEnds != 0 && d.aaHeadMissing == 0 && d.aaMissing == 0 then 2 else d.aaEnds;
      var e' := if e == 2 then 3 else e;
      (if e' == 3 then 4 else 1, d.(aaEnds := e'))
  }

  const ENDLESS: int := -100

  /** aaip_submit_data(): the return value, the new state, the consumed bytes in case of -1. */
  function Submit(d: Dec, data: Bytes): (int, Dec, nat) {
    if d.aaEnds == 3 then (4, d, 0)
    else if data == [] then
      var (code, d') := Reply(d);
      (code, d', 0)
    else if |d.recs| + |data| > BUFFER_SIZE then (0, d, 0)
    else
      match SubmitLoop(d, data, 0)
      case Accepted(d1) =>
        var (code, d2) := Reply(d1);
        (code, d2, 0)
      case NoField(d1, consumed) => (-1, d1, consumed)
      case Endless => (ENDLESS, d, 0)
  }

  // ---------------------------------------------------------------- Fetching

  /** The records gathered by the loop in aaip_fetch_data(): how many, how many bytes of the buffer
      they occupy, their data, and whether the last one ends the component. */
  datatype Gathered = Gathered(count: nat, bytes: nat, data: Bytes, complete: bool) | TooSmall

  /** The loop in aaip_fetch_data() from record i at index h on, after the given data. */
  function Gather(d: Dec, size: int, i: nat, h: nat, data: Bytes): (g: Gathered)
    requires i <= d.numRecs
    ensures g.Gathered? ==> i <= g.count <= d.numRecs && (i < d.numRecs ==> i < g.count)
    ensures g.TooSmall? ==> size < |data| + 255 * (d.numRecs - i)
    decreases d.numRecs - i
  {
    if i == d.numRecs then Gathered(i, h, data, false)
    else
      var load := At(d.recs, h + 1);
      if |data| + load > size then TooSmall
      else
        var data' := data + Part(d.recs, h + 2, load);
        if At(d.recs, h) % 2 == 0 then Gathered(i + 1, h + load + 2, data', true)
        else Gather(d, size, i + 1, h + load + 2, data')
  }

  /** aaip_shift_recs() */
  function ShiftRecs(d: Dec, todo: nat): Dec {
    d.(recs := d.recs[Min(todo, |d.recs|)..],
       endOfComponents := if d.endOfComponents >= todo then d.endOfComponents - todo else 0)
  }

  /** The state after gathered records were taken out */
  function TakeOut(d: Dec, g: Gathered): Dec
    requires g.Gathered? && g.count <= d.numRecs
  {
    var d' := ShiftRecs(d.(numRecs := d.numRecs - g.count), g.bytes);
    if g.complete
    then d'.(firstIsName := !d.firstIsName, numComponents := if d.numComponents > 0 then d.numComponents - 1 else 0)
    else d'
  }

  /** aaip_fetch_data(): the return value, the fetched data, the new state */
  function Fetch(d: Dec, size: int): (r: (int, Bytes, Dec))
    ensures -2 <= r.0 <= 3
    ensures r.0 >= 0 ==> r.2.numRecs < d.numRecs
    ensures r.0 >= 0 ==> (r.0 >= 2) == !d.firstIsName && (r.0 % 2 == 0 <==> r.2.firstIsName != d.firstIsName)
    ensures r.0 < 0 ==> r.2 == d
    ensures r.0 == -2 ==> size < 255 * d.numRecs
  {
    if d.numRecs == 0 then (-1, [], d)
    else
      var g := Gather(d, size, 0, 0, []);
      if g.TooSmall? then (-2, [], d)
      else ((if d.firstIsName then 0 else 2) + (if g.complete then 0 else 1), g.data, TakeOut(d, g))
  }

  // ---------------------------------------------------------------- Pairs

  /** The decoder with the two buffers in which the name and the value of a pair get collected */
  datatype Pair = Pair(dec: Dec, name: Bytes, nameSize: nat, value: Bytes, valueSize: nat)

  /** aaip_advance_pair() with flag bit0: the return value and the new state. The expansion of the
      name is reserved at the end of its buffer. */
  function Advance(p: Pair): (r: (int, Pair))
    ensures -2 <= r.0 <= 5 && r.0 != 0
    ensures r.1.nameSize == p.nameSize && r.1.valueSize == p.valueSize && r.1.dec.numRecs <= p.dec.numRecs
    ensures r.0 == -2 && r.1.dec.numRecs == p.dec.numRecs ==>
              && r.1 == p
              && (p.dec.firstIsName ==> p.nameSize - MAX_NAME_EXPANSION < |p.name| + 255 * p.dec.numRecs)
              && (!p.dec.firstIsName ==> p.valueSize < |p.value| + 255 * p.dec.numRecs)
    ensures r.0 >= 1 ==> r.1.dec.numRecs < p.dec.numRecs
    decreases p.dec.numRecs
  {
    if p.dec.firstIsName then
      var (code, data, d1) := Fetch(p.dec, p.nameSize - MAX_NAME_EXPANSION - |p.name|);
      if code < 0 then (code, p)
      else
        var p1 := p.(dec := d1, name := p.name + data);
        if code == 0 then
          var (more, d2, _) := Submit(d1, []);
          var p2 := p1.(dec := d2);
          if more == 2 || more == 3 then Advance(p2)
          else if more == 4 then (5, p2)
          else (1, p2)
        else (1, p1)
    else
      var (code, data, d1) := Fetch(p.dec, p.valueSize - |p.value|);
      if code < 0 then (code, p)
      else
        var p1 := p.(dec := d1, value := p.value + data);
        if code == 2 then
          if d1.numComponents >= 2 then (3, p1)
          else
            var d2 := if d1.aaEnds == 2 && d1.numRecs == 0 then d1.(aaEnds := 3) else d1;
            (if d2.aaEnds == 3 then 4 else 2, p1.(dec := d2))
        else (1, p1)
  }

  /** The start of a new pair in aaip_decode_pair() */
  function StartPair(p: Pair, status: int): Pair {
    if status == 2 || status == 3 then
      var d := if p.dec.firstIsName then p.dec else SkipValue(p.dec);
      p.(dec := d, name := [], value := [])
    else p
  }

  /** aaip_fetch_data() with flag bit0: the data get discarded, whatever their size. */
  function SkipValue(d: Dec): (d': Dec)
    ensures d'.numRecs <= d.numRecs
  {
    Fetch(d, 255 * d.numRecs).2
  }

  /** aaip_decode_pair() with flag bit0: the return value, the new state, the consumed bytes. The
      return value is the next pair status, too. */
  function DecodePair(p: Pair, status: int, data: Bytes): (r: (int, Pair, nat))
    ensures r.1.nameSize == p.nameSize && r.1.valueSize == p.valueSize
    ensures data == [] ==> r.2 == 0 && r.1.dec.numRecs <= p.dec.numRecs && r.0 != 0
    ensures data == [] && (r.0 == 2 || r.0 == 3) ==> r.1.dec.numRecs < p.dec.numRecs
    ensures data == [] && r.0 == -2 && r.1.dec.numRecs == p.dec.numRecs ==>
              && r.1 == StartPair(p, status)
              && (r.1.dec.firstIsName ==> r.1.nameSize - MAX_NAME_EXPANSION < |r.1.name| + 255 * r.1.dec.numRecs)
              && (!r.1.dec.firstIsName ==> r.1.valueSize < |r.1.value| + 255 * r.1.dec.numRecs)
  {
    if status == 4 then (status, p.(name := ExpandName(p.name)), 0)
    else if (status < 0 && status != -2) || status == 5 then (status, p, 0)
    else if status == 3 && data != [] then (0, p, 0)
    else
      var p1 := StartPair(p, status);
      if data != [] then
        var (code, d2, consumed) := Submit(p1.dec, data);
        var p2 := p1.(dec := d2);
        if code == ENDLESS then (ENDLESS, p2, 0)
        else if code < 0 then (-1, p2, consumed)
        else if code == 0 then (-3, p2, 0)
        else if code == 1 then (1, p2, 0)
        else if code == 4 then (5, p2, 0)
        else AdvancePair(p2, |data|)
      else if p1.dec.numComponents > 0 || p1.dec.numRecs > 0 then AdvancePair(p1, 0)
      else (1, p1, 0)
  }

  /** The second half of aaip_decode_pair() */
  function AdvancePair(p: Pair, consumed: nat): (r: (int, Pair, nat))
    ensures r.1.nameSize == p.nameSize && r.1.valueSize == p.valueSize && r.1.dec.numRecs <= p.dec.numRecs
    ensures r.2 == consumed
    ensures r.0 == -2 && r.1.dec.numRecs == p.dec.numRecs ==>
              && r.1 == p
              && (p.dec.firstIsName ==> p.nameSize - MAX_NAME_EXPANSION < |p.name| + 255 * p.dec.numRecs)
              && (!p.dec.firstIsName ==> p.valueSize < |p.value| + 255 * p.dec.numRecs)
    ensures r.0 == 2 || r.0 == 3 ==> r.1.dec.numRecs < p.dec.numRecs
  {
    var (code, p1) := Advance(p);
    var code' := if p1.dec.aaEnds != 3 then code else if 2 <= code <= 4 then 4 else 5;
    (code', if 2 <= code' <= 4 then p1.(name := ExpandName(p1.name)) else p1, consumed)
  }

  // ---------------------------------------------------------------- The list of attributes

  const INITIAL_LENGTH: nat := 256

  /** The state of aaip_decode_attrs(). done is the pending pair status 5 at the end; the other ones
      only bridge a refusal for lack of memory. */
  datatype List = List(pair: Pair, status: int, attrs: seq<Attr>, done: bool)

  const START: List := List(Pair(FRESH, [], INITIAL_LENGTH, [], INITIAL_LENGTH), 2, [], false)

  /** By how much the buffers could turn out to be too small for the records at hand */
  function Shortage(p: Pair): nat {
    Sub(|p.name| + 255 * p.dec.numRecs + MAX_NAME_EXPANSION, p.nameSize)
      + Sub(|p.value| + 255 * p.dec.numRecs, p.valueSize)
  }

  /** aaip_enlarge_buf() by factor 1.5, for the buffer which was too small */
  function Enlarge(p: Pair): Pair {
    if p.dec.firstIsName then p.(nameSize := p.nameSize * 3 / 2) else p.(valueSize := p.valueSize * 3 / 2)
  }

  /** aaip_decode_attrs() with ample memory: the return value and the new state */
  function DecodeAttrs(l: List, data: Bytes): (r: (int, List))
    requires l.pair.nameSize >= 2 && l.pair.valueSize >= 2
    ensures r.1.pair.nameSize >= 2 && r.1.pair.valueSize >= 2
    decreases if data == [] then 0 else 1, l.pair.dec.numRecs, Shortage(StartPair(l.pair, l.status))
  {
    if l.done then (2, l)
    else
      var (code, pair, consumed) := DecodePair(l.pair, l.status, data);
      var l1 := l.(pair := pair, status := code);
      if code == -2 then DecodeAttrs(l1.(pair := Enlarge(pair)), [])
      else if code == -1 then (if consumed == 0 then (-4, l1) else DecodeAttrs(l1, []))
      else if code == ENDLESS then (ENDLESS, l1)
      else if code < 0 then (-3, l1)
      else if code == 0 then DecodeAttrs(l1, [])
      else if code == 1 then (1, l1)
      else if code == 5 then (2, l1.(done := true))
      else if code == 2 || code == 3 || code == 4 then
        var l2 := l1.(pair := pair.(name := [], value := []), attrs := l1.attrs + [Attr(pair.name, pair.value)]);
        if code == 2 then (1, l2)
        else if code == 4 then (2, l2.(done := true))
        else DecodeAttrs(l2, [])
      else (-2, l1)
  }
}
