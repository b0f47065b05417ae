/**
 When aaip_submit_data() does not return (libisofs/aaip_0_2.c): the loop never ends if there are bytes
 behind the last field.
 */
module AaipEndless {
  import opened Common
  import opened IsoBytes
  import opened AaipFormat
  import opened AaipDecoder
  import opened AaipTrack

  // ---------------------------------------------------------------- Rounds

  /** Whether the loop of aaip_submit_data() still runs after n rounds */
  predicate Running(d: Dec, data: Bytes, n: nat)
    decreases n
  {
    if data == [] then false
    else if n == 0 then true
    else if d.aaHeadMissing > 0 then
      var (ok, d1, data1) := ConsumeAaHead(d, data);
      if !ok || data1 == [] || d1.aaMissing == 0 then false
      else
        var (d2, data2) := ConsumeAaData(d1, data1);
        d2.aaMissing == 0 && Running(d2, data2, n - 1)
    else
      var (d2, data2) := ConsumeAaData(d, data);
      d2.aaMissing == 0 && Running(d2, data2, n - 1)
  }

  /** The payload of the last field is used up. */
  predicate Stuck(d: Dec) {
    d.aaHeadMissing == 0 && d.aaMissing == 0 && d.aaEnds != 0
  }

  /** The second state came from the first one by taking n bytes of payload. */
  predicate Took(d: Dec, data: Bytes, d': Dec, data': Bytes, n: nat) {
    && n <= |data| && n <= d.aaMissing && data' == data[n..] && d'.aaMissing == d.aaMissing - n
    && d'.aaHeadMissing == d.aaHeadMissing && d'.aaEnds == d.aaEnds
  }

  lemma HeadTook(d: Dec, data: Bytes)
    ensures var (d', data') := ConsumeRecHead(d, data); Took(d, data, d', data', |data| - |data'|)
  {
  }

  lemma DataTook(d: Dec, data: Bytes)
    ensures var (d', data') := ConsumeRecData(d, data); Took(d, data, d', data', |data| - |data'|)
  {
  }

  lemma TookBoth(d: Dec, data: Bytes, d1: Dec, data1: Bytes, d2: Dec, data2: Bytes, m: nat, n: nat)
    requires Took(d, data, d1, data1, m) && Took(d1, data1, d2, data2, n)
    ensures Took(d, data, d2, data2, m + n)
  {
  }

  lemma TookNothing(d: Dec, data: Bytes)
    ensures Took(d, data, d, data, 0)
  {
  }

  lemma TookAll(d: Dec, data: Bytes, d': Dec, data': Bytes)
    requires |data'| <= |data| && Took(d, data, d', data', |data| - |data'|) && (data' == [] || d'.aaMissing == 0)
    ensures Took(d, data, d', data', Min(|data|, d.aaMissing))
  {
  }

  /** The records of a field take bytes until there are no more, or the field is complete. */
  lemma {:induction false} RecordsTaken(d: Dec, data: Bytes)
    ensures var (left, d', data') := ConsumeRecords(d, data);
      Took(d, data, d', data', |data| - |data'|) && (data' == [] || d'.aaMissing == 0)
    decreases |data|, if d.recHeadMissing == 0 then 1 else 0
  {
    hide ConsumeRecHead, ConsumeRecData, Took;
    TookNothing(d, data);
    if data != [] && d.aaMissing > 0 {
      var d1, data1, m := d, data, 0;
      if d.recHeadMissing > 0 {
        HeadTook(d, data);
        d1, data1 := ConsumeRecHead(d, data).0, ConsumeRecHead(d, data).1;
        m := |data| - |data1|;
      }
      if data1 != [] && d1.aaMissing > 0 {
        DataTook(d1, data1);
        var (d2, data2) := ConsumeRecData(d1, data1);
        RecordsTaken(d2, data2);
        var (_, d3, data3) := ConsumeRecords(d2, data2);
        TookBoth(d, data, d1, data1, d2, data2, m, |data1| - |data2|);
        TookBoth(d, data, d2, data2, d3, data3, |data| - |data2|, |data2| - |data3|);
      }
    }
  }

  /** How many bytes the loop of a field takes, and whether there is another field to come */
  lemma DataTaken(d: Dec, data: Bytes)
    requires d.aaHeadMissing == 0
    ensures var (d', data') := ConsumeAaData(d, data); var n := Min(|data|, d.aaMissing);
      && data' == data[n..] && d'.aaMissing == d.aaMissing - n
      && (d'.aaMissing > 0 ==> d'.aaHeadMissing == 0 && d'.aaEnds == d.aaEnds)
      && (d'.aaMissing == 0 ==>
            d'.aaHeadMissing == (if d.aaEnds == 0 && !(n > 0 && d'.aaHeadMissing == 0) then 5 else 0)
            && (d'.aaEnds == 0 <==> d.aaEnds == 0))
  {
    hide ConsumeRecords;
    RecordsTaken(d, data);
    TookAll(d, data, ConsumeRecords(d, data).1, ConsumeRecords(d, data).2);
  }

  /** A loop that is stuck stays so, with the same bytes. */
  lemma StuckRound(d: Dec, data: Bytes)
    requires Stuck(d) && data != []
    ensures var (d', data') := ConsumeAaData(d, data); Stuck(d') && data' == data
  {
    DataTaken(d, data);
    hide ConsumeAaData;
  }

  lemma {:induction false} StuckForever(d: Dec, data: Bytes, n: nat)
    requires Stuck(d) && data != []
    ensures Running(d, data, n)
    decreases n
  {
    if n > 0 {
      StuckRound(d, data);
      hide ConsumeAaData;
      StuckForever(ConsumeAaData(d, data).0, data, n - 1);
    }
  }

  /** The outcome of endless work means just that: after any number of rounds the loop still runs. */
  lemma EndlessRuns(d: Dec, data: Bytes, consumed: nat)
    ensures SubmitLoop(d, data, consumed).Endless? <==> forall n :: Running(d, data, n)
  {
    if SubmitLoop(d, data, consumed).Endless? {
      forall n ensures Running(d, data, n) {
        KeepsRunning(d, data, consumed, n);
      }
    } else {
      var n := EndsAfter(d, data, consumed);
    }
  }

  lemma {:induction false} KeepsRunning(d: Dec, data: Bytes, consumed: nat, n: nat)
    requires SubmitLoop(d, data, consumed).Endless?
    ensures Running(d, data, n)
    decreases n
  {
    hide ConsumeAaData, ConsumeAaHead;
    if n > 0 {
      if d.aaHeadMissing > 0 {
        var (ok, d1, data1) := ConsumeAaHead(d, data);
        var (d2, data2) := ConsumeAaData(d1, data1);
        KeepsRunning(d2, data2, consumed + |data| - |data2|, n - 1);
      } else {
        DataTaken(d, data);
        var (d2, data2) := ConsumeAaData(d, data);
        if |data2| == |data| && d2.aaHeadMissing == 0 {
          StuckForever(d, data, n);
        } else {
          KeepsRunning(d2, data2, consumed + |data| - |data2|, n - 1);
        }
      }
    }
  }

  lemma {:induction false} EndsAfter(d: Dec, data: Bytes, consumed: nat) returns (n: nat)
    requires !SubmitLoop(d, data, consumed).Endless?
    ensures !Running(d, data, n)
    decreases |data|, if d.aaHeadMissing == 0 then 1 else 0
  {
    hide ConsumeAaData, ConsumeAaHead;
    n := 1;
    if data != [] {
      var d1, data1 := d, data;
      if d.aaHeadMissing > 0 {
        d1, data1 := ConsumeAaHead(d, data).1, ConsumeAaHead(d, data).2;
        if !ConsumeAaHead(d, data).0 || data1 == [] || d1.aaMissing == 0 {
          return;
        }
      }
      var (d2, data2) := ConsumeAaData(d1, data1);
      if d2.aaMissing == 0 {
        n := EndsAfter(d2, data2, consumed + |data| - |data2|);
        n := n + 1;
      }
    }
  }

  // ---------------------------------------------------------------- Bytes behind the last field

  /** There are bytes behind the payload of the last field, if the given bytes complete a field head. Only
      the framing by fields matters. A field without payload ends the work, whatever is behind it. */
  predicate BehindLastField(head: Bytes, data: Bytes)
    requires |head| < 5
    decreases |data|
  {
    var missing := 5 - |head|;
    && |data| > missing
    && var h, rest := head + data[..missing], data[missing..];
      && IsFieldHead(h) && h[2] > 5 && |rest| > h[2] - 5
      && (h[4] % 2 == 0 || BehindLastField([], rest[h[2] - 5..]))
  }

  /** The same inside of a field */
  predicate BehindPayload(missing: nat, last: bool, data: Bytes) {
    |data| > missing && (last || BehindLastField([], data[missing..]))
  }

  /** The bytes of an incomplete field head are at the end of the buffer. */
  predicate Framed(d: Dec) {
    d.aaHeadMissing <= 5 && (d.aaHeadMissing > 0 ==> 5 <= |d.recs| + d.aaHeadMissing)
  }

  /** The same for the state of the decoder */
  predicate SubmitsTooMuch(d: Dec, data: Bytes)
    requires Framed(d)
  {
    if d.aaHeadMissing > 0 then BehindLastField(d.recs[|d.recs| + d.aaHeadMissing - 5..], data)
    else BehindPayload(d.aaMissing, d.aaEnds != 0, data)
  }

  lemma HeadTaken(d: Dec, data: Bytes)
    requires Framed(d) && d.aaHeadMissing > 0
    ensures var (ok, d1, data1) := ConsumeAaHead(d, data); var have := d.recs[|d.recs| + d.aaHeadMissing - 5..];
      if ok && data1 != [] && d1.aaMissing > 0 then
        d1.aaHeadMissing == 0 && (BehindLastField(have, data) <==> BehindPayload(d1.aaMissing, d1.aaEnds != 0, data1))
      else !BehindLastField(have, data)
  {
    if |data| > d.aaHeadMissing {
      var recs, have := d.recs + data[..d.aaHeadMissing], d.recs[|d.recs| + d.aaHeadMissing - 5..];
      assert recs[|recs| - 5..] == have + data[..d.aaHeadMissing];
      hide IsFieldHead;
    }
  }

  lemma PayloadTaken(d: Dec, data: Bytes)
    requires d.aaHeadMissing == 0
    ensures var (d', data') := ConsumeAaData(d, data);
      if d'.aaMissing == 0 then
        Framed(d') && (BehindPayload(d.aaMissing, d.aaEnds != 0, data) <==> SubmitsTooMuch(d', data'))
      else !BehindPayload(d.aaMissing, d.aaEnds != 0, data)
  {
    DataTaken(d, data);
    hide ConsumeAaData, BehindLastField;
    var (d', data') := ConsumeAaData(d, data);
    assert d'.recs[|d'.recs|..] == [];
    assert data'[0..] == data';
    assert data' == [] ==> !BehindLastField([], data') by {
      NothingBehindNothing();
    }
  }

  lemma NothingBehindNothing()
    ensures !BehindLastField([], [])
  {
  }

  /** The loop does not end if and only if there are bytes behind the last field. */
  lemma {:induction false} EndlessIff(d: Dec, data: Bytes, consumed: nat)
    requires Framed(d)
    ensures SubmitLoop(d, data, consumed).Endless? <==> SubmitsTooMuch(d, data)
    decreases |data|, if d.aaHeadMissing == 0 then 1 else 0, 1
  {
    hide SubmitsTooMuch, Framed, ConsumeAaHead, ConsumeAaData;
    if data == [] {
      NoneTooMuch(d);
    } else if d.aaHeadMissing > 0 {
      EndlessInHead(d, data, consumed);
    } else {
      EndlessInData(d, data, consumed);
    }
  }

  lemma {:induction false} EndlessInHead(d: Dec, data: Bytes, consumed: nat)
    requires Framed(d) && d.aaHeadMissing > 0 && data != []
    ensures SubmitLoop(d, data, consumed).Endless? <==> SubmitsTooMuch(d, data)
    decreases |data|, 0, 0
  {
    hide ConsumeAaHead, ConsumeAaData, BehindLastField, BehindPayload;
    HeadTaken(d, data);
    var (ok, d1, data1) := ConsumeAaHead(d, data);
    if ok && data1 != [] && d1.aaMissing > 0 {
      PayloadTaken(d1, data1);
      var (d2, data2) := ConsumeAaData(d1, data1);
      if d2.aaMissing == 0 {
        EndlessIff(d2, data2, consumed + |data| - |data2|);
      }
    }
  }

  lemma {:induction false} EndlessInData(d: Dec, data: Bytes, consumed: nat)
    requires Framed(d) && d.aaHeadMissing == 0 && data != []
    ensures SubmitLoop(d, data, consumed).Endless? <==> SubmitsTooMuch(d, data)
    decreases |data|, 1, 0
  {
    hide ConsumeAaHead, ConsumeAaData, BehindLastField, Framed;
    DataTaken(d, data);
    PayloadTaken(d, data);
    var (d2, data2) := ConsumeAaData(d, data);
    if d2.aaMissing == 0 && !(|data2| == |data| && d2.aaHeadMissing == 0) {
      EndlessIff(d2, data2, consumed + |data| - |data2|);
    }
  }

  lemma NoneTooMuch(d: Dec)
    requires Framed(d)
    ensures !SubmitsTooMuch(d, [])
  {
  }

  // ---------------------------------------------------------------- Fields from the encoder

  /** Behind the fields of a payload, any further bytes are too much. */
  lemma {:induction false} BehindFields(p: Bytes, extra: Bytes)
    requires p != []
    ensures BehindLastField([], Fields(p, false) + extra) <==> extra != []
    decreases |p|, 0
  {
    hide BehindLastField, Fields;
    var n := FirstField(p);
    var rest := p[..n] + Fields(p[n..], false);
    assert Fields(p, false) == FieldHead(n + 5, n < |p|) + rest;
    Associate(FieldHead(n + 5, n < |p|), rest, extra);
    BehindFirst(n, n < |p|, rest + extra);
    PayloadOfFields(p, n, extra);
  }

  lemma BehindFirst(n: nat, continued: bool, rest: Bytes)
    requires 0 < n <= FIELD_PAYLOAD
    ensures BehindLastField([], FieldHead(n + 5, continued) + rest) <==> BehindPayload(n, !continued, rest)
  {
    var h := FieldHead(n + 5, continued);
    assert [] + (h + rest)[..5] == h && (h + rest)[5..] == rest;
  }

  /** The same inside of a field with n more bytes of payload */
  lemma {:induction false} PayloadOfFields(p: Bytes, n: nat, extra: Bytes)
    requires n <= |p|
    ensures BehindPayload(n, n == |p|, p[..n] + Fields(p[n..], false) + extra) <==> extra != []
    decreases |p| - n, 1
  {
    hide BehindLastField;
    var f := Fields(p[n..], false);
    Associate(p[..n], f, extra);
    assert (p[..n] + (f + extra))[n..] == f + extra;
    if n == |p| {
      assert f == [];
    } else {
      FieldsEmpty(p[n..]);
      BehindFields(p[n..], extra);
    }
  }

  lemma BehindHead(have: Bytes, data: Bytes)
    requires |have| < 5
    ensures BehindLastField(have, data) <==> BehindLastField([], have + data)
  {
    var missing := 5 - |have|;
    if |data| > missing {
      assert [] + (have + data)[..5] == have + data[..missing];
      assert (have + data)[5..] == data[missing..];
      hide IsFieldHead;
    }
  }

  lemma TrackIsFramed(d: Dec, t: Trail, rest: Bytes)
    requires OnTrack(d, t, rest)
    ensures Framed(d)
  {
    hide Fields, Whole, RecStream, Pending;
  }

  /** On track, bytes behind the fields of the encoder are too much. */
  lemma TooMuchOnTrack(d: Dec, t: Trail, rest: Bytes, extra: Bytes)
    requires OnTrack(d, t, rest) && Framed(d)
    ensures SubmitsTooMuch(d, rest + extra) <==> extra != []
  {
    hide BehindLastField, Fields, Whole, RecStream, Pending;
    if InHead(d, t, rest) {
      var f, k := Fields(Pending(t), false), 5 - d.aaHeadMissing;
      assert d.recs[|d.recs| - k..] == f[..k];
      BehindHead(f[..k], rest + extra);
      Associate(f[..k], rest, extra);
      assert f[..k] + rest == f;
      BehindFields(Pending(t), extra);
    } else if InField(d, t, rest) {
      PayloadOfFields(Pending(t), d.aaMissing, extra);
    } else {
      assert rest + extra == extra;
    }
  }

  /** When the rest of the fields is submitted with further bytes behind it, then the loop does not end, and
      only then. */
  lemma EndlessOnTrack(d: Dec, t: Trail, rest: Bytes, extra: Bytes)
    requires OnTrack(d, t, rest)
    ensures SubmitLoop(d, rest + extra, 0).Endless? <==> extra != []
  {
    TrackIsFramed(d, t, rest);
    hide OnTrack, SubmitLoop, Framed;
    EndlessIff(d, rest + extra, 0);
    TooMuchOnTrack(d, t, rest, extra);
  }

  /** For a new decoder */
  lemma EndlessFromStart(p: Bytes, extra: Bytes)
    requires p != []
    ensures SubmitLoop(FRESH, Fields(p, false) + extra, 0).Endless? <==> extra != []
  {
    hide SubmitLoop, BehindLastField, Fields;
    EndlessIff(FRESH, Fields(p, false) + extra, 0);
    assert FRESH.recs[|FRESH.recs| + FRESH.aaHeadMissing - 5..] == [];
    BehindFields(p, extra);
  }

  /** aaip_submit_data() does not return if and only if it accepts the chunk and then meets bytes behind the
      last field. */
  lemma SubmitEndless(d: Dec, data: Bytes)
    requires Framed(d)
    ensures Submit(d, data).0 == ENDLESS <==>
            d.aaEnds != 3 && data != [] && |d.recs| + |data| <= BUFFER_SIZE && SubmitsTooMuch(d, data)
  {
    hide SubmitLoop, SubmitsTooMuch, Framed;
    EndlessIff(d, data, 0);
  }
}
