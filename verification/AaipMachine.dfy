/**
 The AAIP decoder (libisofs/aaip_0_2.c) as an object which is updated in place: its counters, the
 ring buffer with the records, the buffers for a pair, and the list of attributes.
 */
module AaipMachine {
  import opened Common
  import opened IsoBytes
  import opened AaipFormat
  import opened AaipDecoder
  import opened AaipEndless
  import opened AaipFifo

  // ---------------------------------------------------------------- What is in the buffer

  /** Where n records end which begin at h */
  function RecsEnd(s: Bytes, n: nat, h: nat): nat {
    if n == 0 then h else RecsEnd(s, n - 1, h + 2 + At(s, h + 1))
  }

  /** The bytes of a field head that are in the buffer */
  function HeadBytes(d: Dec): nat {
    if 0 < d.aaHeadMissing <= 5 then 5 - d.aaHeadMissing else 0
  }

  /** The buffer holds the counted records, then the begun record, then the begun field head. */
  ghost predicate Wf(d: Dec) {
    var e := RecsEnd(d.recs, d.numRecs, 0);
    && d.aaHeadMissing <= 5 && d.recHeadMissing <= 2
    && (d.recHeadMissing == 0 ==>
          e + 2 + HeadBytes(d) <= |d.recs| && e + 2 + At(d.recs, e + 1) + HeadBytes(d) == |d.recs| + d.recMissing)
    && (d.recHeadMissing > 0 ==> e + 2 - d.recHeadMissing + HeadBytes(d) == |d.recs|)
  }

  lemma WfFramed(d: Dec)
    requires Wf(d)
    ensures Framed(d)
  {
    RecsEndAtLeast(d.recs, d.numRecs, 0);
    hide RecsEnd;
  }

  lemma {:induction false} RecsEndAtLeast(s: Bytes, n: nat, h: nat)
    ensures RecsEnd(s, n, h) >= h + 2 * n
  {
    if n > 0 {
      RecsEndAtLeast(s, n - 1, h + 2 + At(s, h + 1));
    }
  }

  /** Bytes behind the records do not matter. */
  lemma {:induction false} RecsEndSame(s: Bytes, t: Bytes, n: nat, h: nat, e: nat)
    requires RecsEnd(s, n, h) <= e <= |s| && e <= |t| && s[..e] == t[..e]
    ensures RecsEnd(t, n, h) == RecsEnd(s, n, h)
  {
    if n > 0 {
      RecsEndAtLeast(s, n - 1, h + 2 + At(s, h + 1));
      assert s[..e][h + 1] == t[..e][h + 1];
      RecsEndSame(s, t, n - 1, h + 2 + At(s, h + 1), e);
    }
  }

  lemma {:induction false} RecsEndNext(s: Bytes, n: nat, h: nat)
    ensures RecsEnd(s, n + 1, h) == RecsEnd(s, n, h) + 2 + At(s, RecsEnd(s, n, h) + 1)
  {
    if n > 0 {
      RecsEndNext(s, n - 1, h + 2 + At(s, h + 1));
    }
  }

  /** Dropping bytes in front of the records */
  lemma {:induction false} RecsEndShifted(s: Bytes, n: nat, h: nat, k: nat)
    requires k <= h && k <= |s| && RecsEnd(s, n, h) <= |s|
    ensures RecsEnd(s[k..], n, h - k) == RecsEnd(s, n, h) - k
  {
    RecsEndAtLeast(s, n, h);
    if n > 0 {
      RecsEndAtLeast(s, n - 1, h + 2 + At(s, h + 1));
      RecsEndShifted(s, n - 1, h + 2 + At(s, h + 1), k);
    }
  }

  // ---------------------------------------------------------------- Every step keeps the order

  lemma AppendKeeps(d: Dec, more: Bytes)
    requires RecsEnd(d.recs, d.numRecs, 0) <= |d.recs|
    ensures RecsEnd(d.recs + more, d.numRecs, 0) == RecsEnd(d.recs, d.numRecs, 0)
  {
    RecsEndSame(d.recs, d.recs + more, d.numRecs, 0, |d.recs|);
  }

  lemma RecHeadKeeps(d: Dec, data: Bytes)
    requires Wf(d) && d.aaHeadMissing == 0 && d.recHeadMissing > 0
    ensures var (d', rest) := ConsumeRecHead(d, data);
      && Wf(d') && d'.aaHeadMissing == 0 && |d'.recs| + |rest| == |d.recs| + |data|
      && (rest != [] && d'.aaMissing > 0 ==> d'.recHeadMissing == 0)
      && (d'.recHeadMissing == 0 ==> |d'.recs| >= 2 && d'.recMissing < 256)
  {
    hide RecsEnd;
    var todo := Min(Min(|data|, d.aaMissing), d.recHeadMissing);
    AppendKeeps(d, data[..todo]);
  }

  lemma RecDataKeeps(d: Dec, data: Bytes)
    requires Wf(d) && d.aaHeadMissing == 0 && d.recHeadMissing == 0
    ensures var (d', rest) := ConsumeRecData(d, data);
      Wf(d') && d'.aaHeadMissing == 0 && |d'.recs| + |rest| == |d.recs| + |data|
  {
    hide RecsEnd;
    var todo := Min(Min(|data|, d.aaMissing), d.recMissing);
    AppendKeeps(d, data[..todo]);
    RecsEndNext(d.recs + data[..todo], d.numRecs, 0);
  }

  lemma AaHeadKeeps(d: Dec, data: Bytes)
    requires Wf(d) && d.aaHeadMissing > 0
    ensures var todo := Min(|data|, d.aaHeadMissing);
      && |d.recs| >= 5 - d.aaHeadMissing
      && var (ok, d', rest) := ConsumeAaHead(d, data);
      ok ==> Wf(d') && |d'.recs| + |rest| <= |d.recs| + |data| && (rest != [] ==> d'.aaHeadMissing == 0)
  {
    hide RecsEnd, IsFieldHead;
    var todo := Min(|data|, d.aaHeadMissing);
    var all := d.recs + data[..todo];
    AppendKeeps(d, data[..todo]);
    if todo == d.aaHeadMissing {
      RecsEndSame(all, all[..|all| - 5], d.numRecs, 0, |all| - 5);
    }
  }

  /** What the closing of a record, of a component and of a pair may add to the buffer */
  lemma EndFieldKeeps(d: Dec)
    requires Wf(d) && d.aaHeadMissing == 0
    ensures var d' := EndField(d);
      && Wf(d') && |d.recs| <= |d'.recs| <= |d.recs| + 259
      && (d.recHeadMissing == 2 ==> |d'.recs| <= |d.recs| + 4)
      && (d.aaMissing == 0 && d.aaEnds != 0 ==> d'.recHeadMissing == 2 && d'.aaEnds == 2 && d'.aaHeadMissing == 0)
      && d'.aaMissing == d.aaMissing
  {
    hide RecsEnd;
    CloseRecordKeeps(d);
    var d1 := CloseRecord(d);
    EmptyRecordKeeps(d1);
    EmptyRecordKeeps(AddEmptyRecord(d1));
    hide CloseRecord;
  }

  lemma EmptyRecordKeeps(d: Dec)
    requires Wf(d) && d.aaHeadMissing == 0
    ensures d.recHeadMissing == 2 ==> Wf(AddEmptyRecord(d))
  {
    AppendKeeps(d, [0, 0]);
    RecsEndNext(d.recs + [0, 0], d.numRecs, 0);
    hide RecsEnd;
  }

  lemma CloseRecordKeeps(d: Dec)
    requires Wf(d) && d.aaHeadMissing == 0
    ensures var d' := CloseRecord(d);
      && Wf(d') && d'.recHeadMissing == 2 && d'.aaHeadMissing == 0 && d'.aaEnds == d.aaEnds
        && d'.aaMissing == d.aaMissing
      && |d.recs| <= |d'.recs| <= |d.recs| + 255 && (d.recHeadMissing == 2 ==> d' == d)
      && (d.recHeadMissing == 1 ==> d.recs != [])
  {
    hide RecsEnd;
    if d.recHeadMissing == 0 {
      AppendKeeps(d, seq(d.recMissing, _ => 0));
      RecsEndNext(d.recs + seq(d.recMissing, _ => 0), d.numRecs, 0);
    } else if d.recHeadMissing == 1 {
      var recs := d.recs[|d.recs| - 1 := 0] + [0];
      RecsEndSame(d.recs, recs, d.numRecs, 0, |d.recs| - 1);
      RecsEndNext(recs, d.numRecs, 0);
    }
  }

  lemma WfRecords(d: Dec)
    requires Wf(d)
    ensures RecsEnd(d.recs, d.numRecs, 0) <= |d.recs|
  {
    hide RecsEnd;
  }

  /** The loop in aaip_fetch_data() stays inside of the records. */
  lemma RecordInBuffer(s: Bytes, n: nat, h: nat)
    requires n > 0 && RecsEnd(s, n, h) <= |s|
    ensures h + 2 + At(s, h + 1) <= |s| && RecsEnd(s, n, h) == RecsEnd(s, n - 1, h + 2 + At(s, h + 1))
  {
    RecsEndAtLeast(s, n - 1, h + 2 + At(s, h + 1));
  }

  lemma {:induction false} GatherKeeps(d: Dec, size: int, i: nat, h: nat, data: Bytes)
    requires i <= d.numRecs && RecsEnd(d.recs, d.numRecs - i, h) <= |d.recs|
    ensures var g := Gather(d, size, i, h, data);
      g.Gathered? ==>
        h <= g.bytes && RecsEnd(d.recs, d.numRecs - g.count, g.bytes) == RecsEnd(d.recs, d.numRecs - i, h)
    decreases d.numRecs - i
  {
    if i < d.numRecs {
      RecordInBuffer(d.recs, d.numRecs - i, h);
      var load := At(d.recs, h + 1);
      GatherKeeps(d, size, i + 1, h + load + 2, data + Part(d.recs, h + 2, load));
    }
  }

  lemma TakeOutKeeps(d: Dec, size: int)
    requires Wf(d)
    ensures var g := Gather(d, size, 0, 0, []);
      g.Gathered? ==> g.bytes <= |d.recs| && Wf(TakeOut(d, g))
  {
    hide Gather, RecsEnd;
    GatherKeeps(d, size, 0, 0, []);
    var g := Gather(d, size, 0, 0, []);
    if g.Gathered? {
      RecsEndAtLeast(d.recs, d.numRecs - g.count, g.bytes);
      RecsEndShifted(d.recs, d.numRecs - g.count, g.bytes, g.bytes);
    }
  }

  lemma FetchKeeps(d: Dec, size: int)
    requires Wf(d)
    ensures Wf(Fetch(d, size).2)
  {
    hide Gather, RecsEnd, Wf;
    TakeOutKeeps(d, size);
  }

  lemma ReplyKeeps(d: Dec)
    requires Wf(d)
    ensures Wf(Reply(d).1)
  {
    hide RecsEnd;
  }

  /** There is room for the data and for an emergency closure, or this closure was done already. */
  ghost predicate Fits(d: Dec, data: Bytes) {
    |d.recs| + |data| <= BUFFER_SIZE || Closed(d)
  }

  /** The state after an emergency closure, which a second one would not change */
  ghost predicate Closed(d: Dec) {
    && d.aaEnds == 2 && d.aaMissing == 0 && d.recHeadMissing == 2 && |d.recs| <= BUFFER_SIZE + 259
    && (d.endOfComponents == 0 || d.endOfComponents == |d.recs|) && d.firstIsName == (d.numComponents % 2 == 0)
  }

  lemma ClosedStays(d: Dec)
    requires Closed(d)
    ensures EndField(d) == d
  {
  }

  lemma GetsClosed(d: Dec)
    requires Wf(d) && d.aaHeadMissing == 0 && |d.recs| <= BUFFER_SIZE && d.aaMissing == 0 && d.aaEnds != 0
    ensures Closed(EndField(d))
  {
    hide Wf, CloseRecord;
    EndFieldKeeps(d);
  }

  /** The state between two steps on the data of a field */
  ghost predicate InData(d: Dec, data: Bytes) {
    Wf(d) && d.aaHeadMissing == 0 && Fits(d, data)
  }

  /** One round of the loop in aaip_consume_aa_data(): whether it was left by return, the new state, the rest. */
  function Round(d: Dec, data: Bytes): (bool, Dec, Bytes) {
    if d.recHeadMissing > 0 then
      var (d1, data1) := ConsumeRecHead(d, data);
      if data1 == [] || d1.aaMissing == 0 then (true, d1, data1)
      else
        var (d2, data2) := ConsumeRecData(d1, data1);
        (false, d2, data2)
    else
      var (d2, data2) := ConsumeRecData(d, data);
      (false, d2, data2)
  }

  lemma RoundStep(d: Dec, data: Bytes)
    requires InData(d, data) && data != [] && d.aaMissing > 0
    ensures var (left, d', rest) := Round(d, data);
      && InData(d', rest) && |d.recs| + |data| <= BUFFER_SIZE
      && (if left then ConsumeRecords(d, data) == (true, d', rest)
          else ConsumeRecords(d, data) == ConsumeRecords(d', rest))
      && (|rest| < |data| || (|rest| == |data| && d.recHeadMissing == 0 && d'.recHeadMissing > 0))
  {
    hide Wf;
    if d.recHeadMissing > 0 {
      RecHeadKeeps(d, data);
      var (d1, data1) := ConsumeRecHead(d, data);
      if data1 != [] && d1.aaMissing > 0 {
        RecDataKeeps(d1, data1);
      }
    } else {
      RecDataKeeps(d, data);
    }
  }

  lemma FinishStep(d: Dec, data: Bytes)
    requires InData(d, data)
    ensures Wf(EndField(d)) && (EndField(d).aaHeadMissing == 0 ==> InData(EndField(d), data))
    ensures EndField(d).aaHeadMissing > 0 ==> |EndField(d).recs| + |data| <= BUFFER_SIZE
    ensures |d.recs| + (if d.recHeadMissing == 2 then 4 else 259) <= SIZE
  {
    hide Wf, CloseRecord, CloseComponent, ClosePair;
    EndFieldKeeps(d);
    if Closed(d) {
      ClosedStays(d);
    } else if d.aaMissing == 0 && d.aaEnds != 0 {
      GetsClosed(d);
    }
  }

  /** The state between two rounds of the loop in aaip_submit_data() */
  ghost predicate BetweenFields(d: Dec, data: Bytes) {
    if d.aaHeadMissing > 0 then Wf(d) && |d.recs| + |data| <= BUFFER_SIZE else InData(d, data)
  }

  lemma StartsBetween(d: Dec, data: Bytes)
    requires Wf(d) && |d.recs| + |data| <= BUFFER_SIZE
    ensures BetweenFields(d, data)
  {
  }

  lemma HeadStep(d: Dec, data: Bytes)
    requires BetweenFields(d, data) && d.aaHeadMissing > 0
    ensures Wf(d) && |d.recs| + |data| <= SIZE
    ensures var (ok, d', rest) := ConsumeAaHead(d, data);
      ok ==> Wf(d') && (rest != [] ==> InData(d', rest))
  {
    hide Wf, ConsumeAaHead;
    AaHeadKeeps(d, data);
  }

  /** The end of ConsumeAaHead with a complete head at the end of the buffer */
  function TakeHead(d: Dec): (r: (bool, Dec))
    requires |d.recs| >= 5
    ensures !r.0 ==> r.1 == d
  {
    var body := |d.recs| - 5;
    var head := d.recs[body..];
    if !IsFieldHead(head) then (false, d)
    else (true, d.(recs := d.recs[..body], aaMissing := if head[2] >= 5 then head[2] - 5 else 0,
                   aaEnds := if head[4] % 2 == 0 then 1 else 0))
  }

  lemma AaHeadIs(d: Dec, data: Bytes, d': Dec)
    requires var todo := Min(|data|, d.aaHeadMissing);
      d' == d.(recs := d.recs + data[..todo], aaHeadMissing := d.aaHeadMissing - todo)
    requires d'.aaHeadMissing == 0 ==> |d'.recs| >= 5
    ensures ConsumeAaHead(d, data)
         == if d'.aaHeadMissing > 0 then (true, d', data[Min(|data|, d.aaHeadMissing)..])
            else if TakeHead(d').0 then (true, TakeHead(d').1, data[Min(|data|, d.aaHeadMissing)..])
            else (false, d', data)
  {
    hide IsFieldHead;
  }

  /** What aaip_advance_pair() does after the final part of a value */
  function ValueEnd(d: Dec): (int, Dec) {
    if d.numComponents >= 2 then (3, d)
    else
      var d' := if d.aaEnds == 2 && d.numRecs == 0 then d.(aaEnds := 3) else d;
      (if d'.aaEnds == 3 then 4 else 2, d')
  }

  lemma ValueEndKeeps(d: Dec)
    requires Wf(d)
    ensures Wf(ValueEnd(d).1)
  {
    hide RecsEnd;
  }

  // ---------------------------------------------------------------- The decoder

  class AaipState {
    var aaHeadMissing: nat
    var aaMissing: nat
    var aaEnds: nat
    const recs: RingFifo
    var recHeadMissing: nat
    var recMissing: nat
    var recEnds: bool
    var numRecs: nat
    var numComponents: nat
    var endOfComponents: nat
    var firstIsName: bool

    ghost predicate Valid()
      reads this, recs
    {
      recs.Valid()
    }

    /** The state as a value */
    ghost function V(): Dec
      requires Valid()
      reads this, recs, recs.recs
    {
      Dec(aaHeadMissing, aaMissing, aaEnds, recs.Contents(), recHeadMissing, recMissing, recEnds, numRecs,
          numComponents, endOfComponents, firstIsName)
    }

    /** aaip_init_aaip_state() */
    constructor ()
      ensures Valid() && fresh(recs) && fresh(recs.recs) && V() == FRESH
    {
      recs := new RingFifo();
      aaHeadMissing, aaMissing, aaEnds := 5, 0, 0;
      recHeadMissing, recMissing, recEnds := 2, 0, false;
      numRecs, numComponents, endOfComponents, firstIsName := 0, 0, 0, true;
    }

    /** Reads the record head which is complete now. */
    method LookAtHead()
      requires Valid() && |V().recs| >= 2
      modifies this
      ensures Valid()
      ensures var d := old(V());
        V() == d.(recMissing := At(d.recs, |d.recs| - 1), recEnds := At(d.recs, |d.recs| - 2) % 2 == 0)
    {
      hide RingFifo.Contents;
      recMissing := recs.GetByte(recs.fill - 1);
      var flags := recs.GetByte(recs.fill - 2);
      recEnds := flags % 2 == 0;
    }

    /** aaip_consume_rec_head(): the bytes behind the consumed ones */
    method ConsumeHead(data: Bytes) returns (rest: Bytes)
      requires Valid() && Wf(V()) && aaHeadMissing == 0 && recHeadMissing > 0 && |V().recs| + |data| <= SIZE
      modifies this, recs, recs.recs
      ensures Valid() && (V(), rest) == ConsumeRecHead(old(V()), data)
    {
      hide RingFifo.Contents, Wf;
      RecHeadKeeps(V(), data);
      var todo := |data|;
      if todo > aaMissing {
        todo := aaMissing;
      }
      if todo >= recHeadMissing {
        todo := recHeadMissing;
      }
      ghost var d := V();
      assert todo == Min(Min(|data|, aaMissing), recHeadMissing);
      recs.Push(data[..todo]);
      recHeadMissing := recHeadMissing - todo;
      aaMissing := aaMissing - todo;
      assert V() == d.(recs := d.recs + data[..todo], recHeadMissing := d.recHeadMissing - todo,
                       aaMissing := d.aaMissing - todo);
      if recHeadMissing == 0 {
        LookAtHead();
      }
      rest := data[todo..];
    }

    /** aaip_consume_rec_data() */
    method ConsumeData(data: Bytes) returns (rest: Bytes)
      requires Valid() && |V().recs| + |data| <= SIZE
      modifies this, recs, recs.recs
      ensures Valid() && (V(), rest) == ConsumeRecData(old(V()), data)
    {
      hide RingFifo.Contents;
      var todo := |data|;
      if todo > aaMissing {
        todo := aaMissing;
      }
      if todo > recMissing {
        todo := recMissing;
      }
      ghost var d := V();
      assert todo == Min(Min(|data|, aaMissing), recMissing);
      recs.Push(data[..todo]);
      recMissing := recMissing - todo;
      aaMissing := aaMissing - todo;
      rest := data[todo..];
      assert V() == d.(recs := d.recs + data[..todo], recMissing := d.recMissing - todo,
             aaMissing := d.aaMissing - todo);
      if recMissing <= 0 {
        numRecs := numRecs + 1;
        if recEnds {
          numComponents := numComponents + 1;
          endOfComponents := recs.fill;
        }
        recHeadMissing := 2;
      }
    }

    /** Checks a complete field head and takes it out of the buffer. */
    method TakeFieldHead() returns (ok: bool)
      requires Valid() && |V().recs| >= 5
      modifies this, recs, recs.recs
      ensures Valid() && (ok, V()) == TakeHead(old(V()))
    {
      hide RingFifo.Contents;
      ghost var all := recs.Contents();
      var head := recs.Read(recs.fill - 5, 5);
      assert head == all[|all| - 5..];
      if head[0] != 'A' as int || (head[1] != 'L' as int && head[1] != 'A' as int) || head[3] != 1 {
        return false;
      }
      aaMissing := head[2];
      aaEnds := if head[4] % 2 == 0 then 1 else 0;
      recs.Truncate(5);
      if aaMissing >= 5 {
        aaMissing := aaMissing - 5;
      } else {
        aaMissing := 0;
      }
      ok := true;
    }

    /** aaip_consume_aa_head(): ok tells that it is no foreign field. */
    method ConsumeFieldHead(data: Bytes) returns (ok: bool, rest: Bytes)
      requires Valid() && Wf(V()) && aaHeadMissing > 0 && |V().recs| + |data| <= SIZE
      modifies this, recs, recs.recs
      ensures Valid() && (ok, V(), rest) == ConsumeAaHead(old(V()), data)
    {
      hide RingFifo.Contents, Wf, TakeHead, ConsumeAaHead;
      AaHeadKeeps(V(), data);
      var todo := |data|;
      if todo >= aaHeadMissing {
        todo := aaHeadMissing;
      }
      ghost var d := V();
      assert todo == Min(|data|, aaHeadMissing);
      recs.Push(data[..todo]);
      aaHeadMissing := aaHeadMissing - todo;
      assert V() == d.(recs := d.recs + data[..todo], aaHeadMissing := d.aaHeadMissing - todo);
      AaHeadIs(d, data, V());
      if aaHeadMissing == 0 {
        ok := TakeFieldHead();
        if !ok {
          return false, data;
        }
      }
      ok, rest := true, data[todo..];
    }

    /** Completes the last record, if it is not complete. */
    method EndRecord()
      requires Valid() && Wf(V()) && aaHeadMissing == 0 && |V().recs| + 255 <= SIZE
      modifies this, recs, recs.recs
      ensures Valid() && V() == CloseRecord(old(V()))
    {
      hide RingFifo.Contents, RecsEnd;
      CloseRecordKeeps(V());
      if recHeadMissing != 2 {
        ghost var d := V();
        if recHeadMissing != 0 {
          recs.SetByte(recs.fill - 1, 0);
          recs.Push([0]);
        } else {
          FillRecord();
        }
        recHeadMissing := 2;
        recMissing := 0;
        numRecs := numRecs + 1;
        if recEnds {
          numComponents := numComponents + 1;
          endOfComponents := recs.fill;
        }
      }
    }

    /** Fills in the missing bytes of the last record. */
    method FillRecord()
      requires Valid() && |V().recs| + recMissing <= SIZE
      modifies recs, recs.recs
      ensures Valid() && V() == old(V()).(recs := old(V()).recs + seq(recMissing, _ => 0))
    {
      hide RingFifo.Contents;
      var i := 0;
      assert recs.Contents() == recs.Contents() + seq(0, _ => 0);
      while i < recMissing
        invariant 0 <= i <= recMissing && Valid() && recs.Contents() == old(recs.Contents()) + seq(i, _ => 0)
      {
        recs.Push([0]);
        assert seq(i + 1, _ => 0) == seq(i, _ => 0) + [0];
        i := i + 1;
      }
    }

    /** Adds an empty record that ends its component. */
    method PushEmptyRecord()
      requires Valid() && |V().recs| + 2 <= SIZE
      modifies this, recs, recs.recs
      ensures Valid() && V() == AddEmptyRecord(old(V()))
    {
      hide RingFifo.Contents;
      recs.Push([0, 0]);
      numRecs := numRecs + 1;
      numComponents := numComponents + 1;
      endOfComponents := recs.fill;
    }

    /** The end of a field in aaip_consume_aa_data(), with the emergency closure of an incomplete pair */
    method FinishField()
      requires Valid() && Wf(V()) && aaHeadMissing == 0
      requires |V().recs| + (if recHeadMissing == 2 then 4 else 259) <= SIZE
      modifies this, recs, recs.recs
      ensures Valid() && V() == EndField(old(V()))
    {
      hide RingFifo.Contents, RecsEnd, Wf, CloseRecord;
      if aaMissing <= 0 {
        if aaEnds != 0 {
          CloseRecordKeeps(V());
          if recHeadMissing != 2 {
            EndRecord();
          }
          if endOfComponents != recs.fill && endOfComponents != 0 {
            PushEmptyRecord();
          }
          if firstIsName == (numComponents % 2 == 1) {
            PushEmptyRecord();
          }
          aaEnds := 2;
        } else {
          aaHeadMissing := 5;
        }
      }
    }

    /** One round of the loop in aaip_consume_aa_data() */
    method ConsumeRecord(data: Bytes) returns (left: bool, rest: Bytes)
      requires Valid() && InData(V(), data) && data != [] && aaMissing > 0
      modifies this, recs, recs.recs
      ensures Valid() && (left, V(), rest) == Round(old(V()), data)
    {
      hide RingFifo.Contents, Wf, ConsumeRecHead, ConsumeRecData, RecsEnd;
      left, rest := false, data;
      if recHeadMissing > 0 {
        RecHeadKeeps(V(), data);
        rest := ConsumeHead(data);
        if rest == [] || aaMissing <= 0 {
          left := true;
          return;
        }
      }
      rest := ConsumeData(rest);
    }

    /** aaip_consume_aa_data() */
    method ConsumeFieldData(data: Bytes) returns (rest: Bytes)
      requires Valid() && InData(V(), data)
      modifies this, recs, recs.recs
      ensures Valid() && (V(), rest) == ConsumeAaData(old(V()), data)
      ensures Wf(V()) && (aaHeadMissing == 0 ==> InData(V(), rest))
      ensures aaHeadMissing > 0 ==> |V().recs| + |rest| <= BUFFER_SIZE
    {
      hide RingFifo.Contents, Wf, RecsEnd, Round, EndField, Fits;
      rest := data;
      while rest != [] && aaMissing > 0
        invariant Valid() && InData(V(), rest)
        invariant ConsumeRecords(old(V()), data) == ConsumeRecords(V(), rest)
        decreases |rest|, if recHeadMissing == 0 then 1 else 0
      {
        RoundStep(V(), rest);
        var left;
        left, rest := ConsumeRecord(rest);
        if left {
          return;
        }
      }
      FinishStep(V(), rest);
      FinishField();
    }

    /** The loop in aaip_submit_data(). It never ends if there are bytes behind the last field, which
        the method reports at the first round without progress. */
    method ConsumeFields(data: Bytes) returns (ret: int, consumed: nat)
      requires Valid() && Wf(V()) && |V().recs| + |data| <= BUFFER_SIZE
      modifies this, recs, recs.recs
      ensures Valid()
      ensures match SubmitLoop(old(V()), data, 0)
        case Accepted(d) => ret == 1 && V() == d && Wf(d)
        case NoField(d, c) => ret == -1 && V() == d && consumed == c
        case Endless => ret == ENDLESS
    {
      hide RingFifo.Contents, Wf, RecsEnd, ConsumeAaHead, ConsumeAaData, InData;
      var rest := data;
      consumed := 0;
      StartsBetween(V(), data);
      while rest != []
        invariant Valid() && BetweenFields(V(), rest) && Wf(V())
        invariant |rest| <= |data| && SubmitLoop(old(V()), data, 0) == SubmitLoop(V(), rest, |data| - |rest|)
        decreases |rest|, if aaHeadMissing == 0 then 1 else 0
      {
        var progress := aaHeadMissing > 0;
        if aaHeadMissing > 0 {
          HeadStep(V(), rest);
          var ok;
          consumed := |data| - |rest|;
          ok, rest := ConsumeFieldHead(rest);
          if !ok {
            return -1, consumed;
          }
          if rest == [] || aaMissing <= 0 {
            return 1, consumed;
          }
        }
        var size := |rest|;
        rest := ConsumeFieldData(rest);
        if aaMissing > 0 {
          return 1, consumed;
        }
        if !progress && |rest| == size && aaHeadMissing == 0 {
          return ENDLESS, consumed;
        }
      }
      ret := 1;
    }

    /** The end of aaip_submit_data() */
    method Status() returns (ret: int)
      requires Valid()
      modifies this
      ensures Valid() && (ret, V()) == Reply(old(V()))
    {
      hide RingFifo.Contents;
      if numComponents > 0 {
        return 3;
      }
      if numRecs > 0 {
        return 2;
      }
      if aaEnds != 0 && aaHeadMissing == 0 && aaMissing == 0 {
        aaEnds := 2;
      }
      if aaEnds == 2 && numRecs == 0 {
        aaEnds := 3;
      }
      if aaEnds == 3 {
        return 4;
      }
      return 1;
    }

    /** aaip_submit_data() */
    method SubmitData(data: Bytes) returns (ret: int, consumed: nat)
      requires Valid() && Wf(V())
      modifies this, recs, recs.recs
      ensures Valid() && ret == Submit(old(V()), data).0
      ensures ret != ENDLESS ==> (ret, V(), consumed) == Submit(old(V()), data)
      ensures ret >= 0 ==> Wf(V())
      ensures Framed(old(V()))
      ensures ret == ENDLESS <==>
              old(aaEnds) != 3 && data != [] && |old(V()).recs| + |data| <= BUFFER_SIZE
                && SubmitsTooMuch(old(V()), data)
    {
      hide RingFifo.Contents, Wf, SubmitLoop, Reply, SubmitsTooMuch, Framed;
      WfFramed(V());
      SubmitEndless(V(), data);
      consumed := 0;
      if aaEnds == 3 {
        return 4, 0;
      }
      if data != [] {
        if recs.fill + |data| > BUFFER_SIZE {
          return 0, 0;
        }
        ret, consumed := ConsumeFields(data);
        if ret == -1 || ret == ENDLESS {
          return;
        }
        consumed := 0;
      }
      ReplyKeeps(V());
      ret := Status();
    }

    /** aaip_fetch_data(): with discard the data get dropped, whatever their size. */
    method FetchData(size: int, discard: bool) returns (ret: int, data: Bytes)
      requires Valid() && Wf(V())
      modifies this, recs, recs.recs
      ensures Valid() && Wf(V())
      ensures var (code, bytes, d) := Fetch(old(V()), if discard then 255 * old(numRecs) else size);
        ret == code && V() == d && (ret >= 0 ==> data == bytes)
    {
      hide RingFifo.Contents, Wf, RecsEnd, Gather;
      var limit := if discard then 255 * numRecs else size;
      FetchKeeps(V(), limit);
      TakeOutKeeps(V(), limit);
      data := [];
      if numRecs == 0 {
        return -1, [];
      }
      var count, bytes, complete;
      ret, count, bytes, complete, data := GatherRecs(size, discard);
      if ret < 0 {
        return -2, [];
      }
      numRecs := numRecs - count;
      ShiftOut(bytes);
      ret := if firstIsName then 0 else 2;
      if complete {
        firstIsName := !firstIsName;
        if numComponents > 0 {
          numComponents := numComponents - 1;
        }
      } else {
        ret := ret + 1;
      }
    }

    /** aaip_shift_recs() */
    method ShiftOut(todo: nat)
      requires Valid() && todo <= |V().recs|
      modifies this, recs, recs.recs
      ensures Valid() && V() == ShiftRecs(old(V()), todo)
    {
      hide RingFifo.Contents;
      recs.Shift(todo);
      if endOfComponents >= todo {
        endOfComponents := endOfComponents - todo;
      } else {
        endOfComponents := 0;
      }
    }

    /** Reads the record at an index of the buffer: its data, and whether it ends its component. */
    method ReadRecord(at: nat, payload: nat) returns (part: Bytes, ends: bool)
      requires Valid() && at + 2 + payload <= |V().recs|
      ensures part == Part(V().recs, at + 2, payload) && ends == (At(V().recs, at) % 2 == 0)
    {
      hide RingFifo.Contents;
      part := recs.Read(at + 2, payload);
      var flags := recs.GetByte(at);
      ends := flags % 2 == 0;
    }

    /** The loop in aaip_fetch_data() */
    method GatherRecs(size: int, discard: bool)
      returns (ret: int, count: nat, bytes: nat, complete: bool, data: Bytes)
      requires Valid() && Wf(V())
      ensures match Gather(V(), if discard then 255 * numRecs else size, 0, 0, [])
        case TooSmall => ret == -2
        case Gathered(n, b, got, c) => ret == 1 && count == n && bytes == b && data == got && complete == c
    {
      hide RingFifo.Contents, RecsEnd, Part, Wf;
      WfRecords(V());
      ghost var d, limit := V(), if discard then 255 * numRecs else size;
      count, bytes, complete, data := 0, 0, false, [];
      while count < numRecs && !complete
        invariant count <= numRecs && (discard ==> |data| <= 255 * count)
        invariant !complete ==> RecsEnd(d.recs, numRecs - count, bytes) <= |d.recs|
        invariant Gather(d, limit, 0, 0, [])
               == if complete then Gathered(count, bytes, data, true) else Gather(d, limit, count, bytes, data)
      {
        RecordInBuffer(d.recs, numRecs - count, bytes);
        var payload := recs.GetByte(bytes + 1);
        if !discard && |data| + payload > size {
          return -2, count, bytes, complete, data;
        }
        var part, ends := ReadRecord(bytes, payload);
        data := data + part;
        complete := ends;
        bytes := bytes + payload + 2;
        count := count + 1;
      }
      ret := 1;
    }

    /** The end of a value in aaip_advance_pair() */
    method EndOfValue() returns (ret: int)
      requires Valid() && Wf(V())
      modifies this
      ensures Valid() && Wf(V()) && (ret, V()) == ValueEnd(old(V()))
    {
      hide RingFifo.Contents, Wf;
      ValueEndKeeps(V());
      if numComponents >= 2 {
        return 3;
      }
      if aaEnds == 2 && numRecs == 0 {
        aaEnds := 3;
      }
      if aaEnds == 3 {
        return 4;
      }
      return 2;
    }
  }
}
