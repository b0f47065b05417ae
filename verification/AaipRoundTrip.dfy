/**
 The AAIP decoder undoes the AAIP encoder (libisofs/aaip_0_2.c), in whatever chunks the fields are
 handed to it.
 */
module AaipRoundTrip {
  import opened Common
  import opened IsoBytes
  import opened AaipFormat
  import opened AaipDecoder
  import opened AaipTrack
  import Encoder = AaipEncoder

  // ---------------------------------------------------------------- Pairs on track

  /** The attributes decoded so far, and the pair that is being collected */
  function AsmOf(attrs: seq<Attr>, p: Pair): Asm {
    Asm(attrs, p.name, p.value, p.dec.firstIsName)
  }

  /** The buffers hold what they can hold. */
  ghost predicate Roomy(p: Pair) {
    && |p.name| + MAX_NAME_EXPANSION <= p.nameSize && |p.value| <= p.valueSize
    && 2 <= p.nameSize && 2 <= p.valueSize
    && (p.dec.firstIsName ==> p.value == [])
  }

  /** The first k records of the buffer, or what is left of them, are older than the current chunk,
      except for the end of the last one. They complete nothing but a name. All that is behind them
      came with the current chunk. */
  ghost predicate OldPart(d: Dec, q: seq<Rec>, k: nat, chunk: nat) {
    && k <= |q| + 1
    && (k > 0 ==> Ends(q[..k - 1]) <= if d.firstIsName then 1 else 0)
    && (k <= |q| ==> |d.recs| <= chunk + |RecStream(q[..k])|)
  }

  /** What is fetched, buffered, and still to come makes up the final attributes. */
  ghost predicate Going(p: Pair, attrs: seq<Attr>, t: Trail, rest: Bytes, k: nat, chunk: nat, final: Asm) {
    && OnTrack(p.dec, t, rest) && OldPart(p.dec, t.q, k, chunk) && Roomy(p)
    && Assemble(AsmOf(attrs, p), t.q + t.u) == final
  }

  /** The room that is left for the current component */
  function Room(p: Pair): int {
    if p.dec.firstIsName then p.nameSize - MAX_NAME_EXPANSION - |p.name| else p.valueSize - |p.value|
  }

  function AppendRun(p: Pair, q: seq<Rec>): Pair {
    if p.dec.firstIsName then p.(dec := WithoutRun(p.dec, q), name := p.name + RunData(q))
    else p.(dec := WithoutRun(p.dec, q), value := p.value + RunData(q))
  }

  predicate ValueComplete(p: Pair, q: seq<Rec>) {
    !p.dec.firstIsName && RunEnds(q)
  }

  /** The complete pair as attribute */
  function Completed(p: Pair): Attr {
    Attr(ExpandName(p.name), p.value)
  }

  function Cleared(p: Pair): Pair {
    p.(name := [], value := [])
  }

  lemma {:induction false} EndsOfPrefix(q: seq<Rec>, k: nat)
    requires k <= |q|
    ensures k < RunLength(q) ==> Ends(q[..k]) == 0
    ensures k >= RunLength(q) ==>
      AfterRun(q)[..k - RunLength(q)] == q[RunLength(q)..k]
      && Ends(q[..k]) == (if RunEnds(q) then 1 else 0) + Ends(AfterRun(q)[..k - RunLength(q)])
      && |RecStream(q[..k])| == RunSize(q) + |RecStream(AfterRun(q)[..k - RunLength(q)])|
    decreases |q|
  {
    if q != [] && k > 0 {
      assert q[..k][0] == q[0] && q[..k][1..] == q[1..][..k - 1];
      if !q[0].ends {
        EndsOfPrefix(q[1..], k - 1);
        assert AfterRun(q) == AfterRun(q[1..]);
      }
    }
  }

  /** Fetching a run of records does not leave older ones behind a complete value. */
  lemma OldPartShrinks(d: Dec, q: seq<Rec>, k: nat, chunk: nat)
    requires q != [] && OldPart(d, q, k, chunk) && RunSize(q) <= |d.recs|
    ensures OldPart(WithoutRun(d, q), AfterRun(q), Sub(k, RunLength(q)), chunk)
    ensures !d.firstIsName && RunEnds(q) ==> Sub(k, RunLength(q)) == 0
  {
    if k > RunLength(q) {
      OldPartLeft(d, q, k, chunk);
    } else {
      OldPartGone(d, q, k, chunk);
    }
    hide *;
  }

  lemma OldPartLeft(d: Dec, q: seq<Rec>, k: nat, chunk: nat)
    requires q != [] && OldPart(d, q, k, chunk) && RunSize(q) <= |d.recs| && k > RunLength(q)
    ensures OldPart(WithoutRun(d, q), AfterRun(q), k - RunLength(q), chunk) && (RunEnds(q) ==> d.firstIsName)
  {
    hide RunEnds, RunSize, RunLength, Ends, RecStream;
    EndsOfPrefix(q, k - 1);
    if k <= |q| {
      EndsOfPrefix(q, k);
    }
  }

  lemma OldPartGone(d: Dec, q: seq<Rec>, k: nat, chunk: nat)
    requires q != [] && OldPart(d, q, k, chunk) && RunSize(q) <= |d.recs| && k <= RunLength(q)
    ensures OldPart(WithoutRun(d, q), AfterRun(q), 0, chunk)
  {
    var m := RunLength(q);
    assert AfterRun(q)[..0] == [];
    EndsOfPrefix(q, m);
    PrefixSize(q, k, m);
    hide RunEnds, RunSize, RunLength, Ends, RecStream;
  }

  lemma PrefixSize(q: seq<Rec>, k: nat, m: nat)
    requires k <= m <= |q|
    ensures |RecStream(q[..k])| <= |RecStream(q[..m])|
  {
    RecStreamConcat(q[..k], q[k..m]);
    assert q[..m] == q[..k] + q[k..m];
  }

  /** Appending a run to the pair keeps things going. */
  lemma RunStep(p: Pair, attrs: seq<Attr>, t: Trail, rest: Bytes, k: nat, chunk: nat, final: Asm)
    requires Going(p, attrs, t, rest, k, chunk, final) && t.q != [] && |RunData(t.q)| <= Room(p)
    ensures var p' := AppendRun(p, t.q);
      if ValueComplete(p, t.q)
      then Going(Cleared(p'), attrs + [Completed(p')], Fetched(t), rest, 0, chunk, final)
      else Going(p', attrs, Fetched(t), rest, Sub(k, RunLength(t.q)), chunk, final)
  {
    TookOut(p.dec, t, rest);
    OldPartShrinks(p.dec, t.q, k, chunk);
    AssembleRun(AsmOf(attrs, p), t.q);
    AssembleConcat(AsmOf(attrs, p), t.q, t.u);
    AssembleConcat(AddRun(AsmOf(attrs, p), t.q), AfterRun(t.q), t.u);
    hide OnTrack, OldPart, Assemble, RunData, RunEnds, RunSize, RunLength, AfterRun;
  }

  lemma {:induction false} LastEndEndsRun(q: seq<Rec>)
    requires q != [] && q[|q| - 1].ends
    ensures RunEnds(q) && Ends(q) > 0
  {
    if !q[0].ends {
      LastEndEndsRun(q[1..]);
    }
  }

  /** What the counters say about the records to come. */
  lemma ToCome(d: Dec, t: Trail, rest: Bytes)
    requires OnTrack(d, t, rest)
    ensures d.aaEnds <= 3 && (d.aaEnds == 3 ==> t.q == [] && rest == [])
    ensures d.aaEnds == 3 ==> (t.u == [] <==> d.firstIsName)
    ensures t.u == [] ==> d.aaEnds >= 2
    ensures t.q == [] && !d.firstIsName ==> t.u != []
    ensures t.q != [] && !RunEnds(t.q) ==> t.u != []
    ensures d.firstIsName && t.u == [] && Ends(t.q) <= 1 ==> t.q == [] && d.aaEnds >= 2
  {
    assert t.q + [] == t.q && [] + t.u == t.u;
    if t.q != [] && t.u == [] {
      LastEndEndsRun(t.q);
    }
    if d.aaEnds == 3 {
      NothingPending(t);
    }
  }

  lemma NothingPending(t: Trail)
    requires Fits(t) && Pending(t) == []
    ensures t.u == [] || (|t.u| == 1 && t.u[0].data == [])
    ensures t.u != [] && t.u[0].ends ==> Ends(t.u) == 1
  {
    if t.u != [] {
      StreamHead(t.u);
      if t.u[1..] != [] {
        StreamHead(t.u[1..]);
      }
    }
  }

  /** The records that are complete make up whole components, if the pair level asks for more data. */
  ghost predicate Advanced(code: int, p: Pair, attrs: seq<Attr>, t: Trail, rest: Bytes, k: nat, chunk: nat,
                           final: Asm) {
    && (code == -2 || code == 1 || code == 5 ==> Going(p, attrs, t, rest, k, chunk, final))
    && (code == 2 || code == 3 || code == 4 ==>
          Going(Cleared(p), attrs + [Completed(p)], t, rest, 0, chunk, final) && p.dec.firstIsName)
    && (code == -2 || code == 3 ==> t.q != [])
    && (code == 1 || code == 5 ==> t.q == [])
    && (code == 1 || code == 2 || code == 5 ==> t.u != [])
    && (code == 2 ==> Ends(t.q) <= 1)
    && (code == 4 ==> t.q == [] && t.u == [])
    && (code == 4 || code == 5 ==> rest == [])
    && (p.dec.aaEnds == 3 <==> code == 4 || code == 5)
    && (code == -2 || 1 <= code <= 5)
  }

  lemma Counted(d: Dec, t: Trail, rest: Bytes)
    requires OnTrack(d, t, rest)
    ensures d.numRecs == |t.q| && d.numComponents == Ends(t.q)
  {
  }

  /** Everything is delivered. */
  lemma Delivered(p: Pair, attrs: seq<Attr>, t: Trail, rest: Bytes, k: nat, chunk: nat, final: Asm)
    requires Going(p, attrs, t, rest, k, chunk, final) && p.dec.aaEnds == 2 && t.q == []
    ensures Going(p.(dec := p.dec.(aaEnds := 3)), attrs, t, rest, k, chunk, final)
    ensures rest == [] && (t.u == [] <==> p.dec.firstIsName)
  {
    ToCome(p.dec.(aaEnds := 3), t, rest);
    hide Whole, Fields, Pending, Body, Assemble, Ends, RecStream;
  }

  /** aaip_advance_pair() at a value */
  lemma AdvanceValue(p: Pair, attrs: seq<Attr>, t: Trail, rest: Bytes, k: nat, chunk: nat, final: Asm)
    returns (t': Trail, k': nat)
    requires Going(p, attrs, t, rest, k, chunk, final) && t.q != [] && !p.dec.firstIsName
    ensures Advanced(Advance(p).0, Advance(p).1, attrs, t', rest, k', chunk, final) && t'.u == t.u
  {
    ToCome(p.dec, t, rest);
    FetchIs(p.dec, t, rest, Room(p));
    t', k' := t, k;
    if |RunData(t.q)| <= Room(p) {
      RunStep(p, attrs, t, rest, k, chunk, final);
      TookOut(p.dec, t, rest);
      RunParts(t.q);
      t', k' := Fetched(t), if RunEnds(t.q) then 0 else Sub(k, RunLength(t.q));
      AfterValue(p, attrs, t, rest, k, chunk, final);
    }
    hide Going, OnTrack, Ends, RunEnds, RunData, RunLength, AfterRun, WithoutRun;
  }

  lemma AfterValue(p: Pair, attrs: seq<Attr>, t: Trail, rest: Bytes, k: nat, chunk: nat, final: Asm)
    requires Going(p, attrs, t, rest, k, chunk, final) && t.q != [] && !p.dec.firstIsName && |RunData(t.q)| <= Room(p)
    ensures var k' := if RunEnds(t.q) then 0 else Sub(k, RunLength(t.q));
      Advanced(Advance(p).0, Advance(p).1, attrs, Fetched(t), rest, k', chunk, final)
  {
    hide OnTrack, Ends, RunEnds, RunData, RunLength, AfterRun, WithoutRun, Assemble, Fetch, OldPart;
    ToCome(p.dec, t, rest);
    FetchIs(p.dec, t, rest, Room(p));
    RunStep(p, attrs, t, rest, k, chunk, final);
    TookOut(p.dec, t, rest);
    RunParts(t.q);
    var p1 := AppendRun(p, t.q);
    ToCome(p1.dec, Fetched(t), rest);
    Counted(p1.dec, Fetched(t), rest);
    hide Going;
    if ValueComplete(p, t.q) && p1.dec.aaEnds == 2 && p1.dec.numRecs == 0 {
      Delivered(Cleared(p1), attrs + [Completed(p1)], Fetched(t), rest, 0, chunk, final);
    }
  }

  /** aaip_submit_data() without data, as used for peeking, only touches the end mark. */
  lemma Peeked(p: Pair, attrs: seq<Attr>, t: Trail, rest: Bytes, k: nat, chunk: nat, final: Asm)
    requires Going(p, attrs, t, rest, k, chunk, final)
    ensures var (code, d', _) := Submit(p.dec, []);
      && Going(p.(dec := d'), attrs, t, rest, k, chunk, final) && d'.firstIsName == p.dec.firstIsName
      && (code == 2 || code == 3 <==> t.q != []) && (code == 4 <==> d'.aaEnds == 3) && 1 <= code <= 4
  {
    ToCome(p.dec, t, rest);
    ReplyStep(p.dec, t, rest);
    Counted(p.dec, t, rest);
    hide OnTrack, Assemble, Ends, RecStream;
  }

  /** aaip_advance_pair() */
  lemma AdvanceStep(p: Pair, attrs: seq<Attr>, t: Trail, rest: Bytes, k: nat, chunk: nat, final: Asm)
    returns (t': Trail, k': nat)
    requires Going(p, attrs, t, rest, k, chunk, final) && t.q != []
    ensures Advanced(Advance(p).0, Advance(p).1, attrs, t', rest, k', chunk, final) && t'.u == t.u
  {
    if !p.dec.firstIsName {
      t', k' := AdvanceValue(p, attrs, t, rest, k, chunk, final);
    } else {
      ToCome(p.dec, t, rest);
      FetchIs(p.dec, t, rest, Room(p));
      t', k' := t, k;
      if |RunData(t.q)| <= Room(p) {
        RunStep(p, attrs, t, rest, k, chunk, final);
        TookOut(p.dec, t, rest);
        RunParts(t.q);
        t', k' := Fetched(t), Sub(k, RunLength(t.q));
        var p1 := AppendRun(p, t.q);
        ToCome(p1.dec, t', rest);
        if RunEnds(t.q) {
          Peeked(p1, attrs, t', rest, k', chunk, final);
          var p2 := p1.(dec := Submit(p1.dec, []).1);
          ToCome(p2.dec, t', rest);
          if t'.q != [] {
            t', k' := AdvanceValue(p2, attrs, t', rest, k', chunk, final);
          }
        }
      }
    }
    hide Going, OnTrack, Ends, RunEnds, RunData, RunLength, AfterRun, WithoutRun;
  }

  // ---------------------------------------------------------------- The list on track

  /** The reply of aaip_decode_pair(): like Advanced, but with the name expanded */
  ghost predicate Collected(code: int, p: Pair, attrs: seq<Attr>, t: Trail, rest: Bytes, k: nat, chunk: nat,
                            final: Asm) {
    && (code == -2 || code == 1 || code == 5 ==> Going(p, attrs, t, rest, k, chunk, final))
    && (code == 2 || code == 3 || code == 4 ==>
          Going(Cleared(p), attrs + [Attr(p.name, p.value)], t, rest, 0, chunk, final) && p.dec.firstIsName)
    && (code == -2 || code == 3 ==> t.q != [])
    && (code == 1 ==> t.q == [])
    && (code == 1 || code == 2 ==> t.u != [])
    && (code == 2 ==> Ends(t.q) <= 1)
    && (code == 4 || code == 5 ==> p.dec.aaEnds == 3)
    && (code == -2 || 1 <= code <= 5)
  }

  lemma CollectStep(p: Pair, attrs: seq<Attr>, t: Trail, rest: Bytes, k: nat, chunk: nat, final: Asm, consumed: nat)
    returns (t': Trail, k': nat)
    requires Going(p, attrs, t, rest, k, chunk, final) && t.q != []
    ensures var (code, p', _) := AdvancePair(p, consumed);
      Collected(code, p', attrs, t', rest, k', chunk, final) && t'.u == t.u
  {
    t', k' := AdvanceStep(p, attrs, t, rest, k, chunk, final);
    hide Going, Ends, Advance;
  }

  /** aaip_decode_attrs() can take up its work, with the pair that is being collected, or with a new one. */
  predicate Resumable(l: List) {
    && !l.done && (l.status == 1 || l.status == 2 || l.status == 3 || l.status == -2)
    && (l.status == 2 || l.status == 3 ==> l.pair.name == [] && l.pair.value == [] && l.pair.dec.firstIsName)
  }

  /** At the end the list is what was encoded, unless an empty record was left over. */
  lemma ListEnd(p: Pair, attrs: seq<Attr>, t: Trail, rest: Bytes, k: nat, chunk: nat, final: Asm)
    requires Going(p, attrs, t, rest, k, chunk, final) && p.dec.aaEnds == 3
    ensures rest == [] && (t.u == [] ==> attrs == final.attrs)
    ensures t.u != [] ==> |attrs| < |final.attrs| && t.u[|t.u| - 1].data == []
  {
    ToCome(p.dec, t, rest);
    NothingPending(t);
    assert [] + t.u == t.u;
    if t.u != [] {
      assert t.u[1..] == [];
      assert Assemble(AsmOf(attrs, p), t.u) == AddRecord(AsmOf(attrs, p), t.u[0]);
      assert t.u[0].ends;
    }
  }

  /** The outcome of aaip_decode_attrs(): either it wants more data, or it is done. */
  ghost predicate Outcome(code: int, l: List, t: Trail, rest: Bytes, chunk: nat, final: Asm) {
    if code == 1 then
      && Resumable(l) && (l.status == 1 || l.status == 2) && t.u != []
      && (exists k :: Going(l.pair, l.attrs, t, rest, k, chunk, final) && (l.status == 2 ==> k == 0))
      && (if l.status == 1 then t.q == [] else Ends(t.q) <= 1)
    else
      && code == 2 && rest == [] && (t.u == [] ==> l.attrs == final.attrs)
      && (t.u != [] ==> |l.attrs| < |final.attrs| && t.u[|t.u| - 1].data == [])
  }

  /** The decoder waits for the next chunk. There is room for it in the buffer. */
  ghost predicate Waiting(l: List, t: Trail, rest: Bytes, final: Asm) {
    && Resumable(l) && (l.status == 1 || l.status == 2) && t.u != []
    && OnTrack(l.pair.dec, t, rest) && Roomy(l.pair) && |l.pair.dec.recs| <= CHUNK
    && Ends(t.q) <= (if l.pair.dec.firstIsName then 1 else 0)
    && Assemble(AsmOf(l.attrs, l.pair), t.q + t.u) == final
  }

  const CHUNK: nat := 2048

  /** With everything fetched, the buffer holds no more than a record and a field head. */
  lemma SmallBuffer(d: Dec, t: Trail, rest: Bytes)
    requires OnTrack(d, t, rest) && t.q == []
    ensures |d.recs| <= 262
  {
    hide Fields, Whole;
  }

  lemma OutcomeWaits(l: List, t: Trail, rest: Bytes, chunk: nat, final: Asm)
    requires Outcome(1, l, t, rest, chunk, final) && chunk <= CHUNK
    ensures Waiting(l, t, rest, final)
  {
    var k :| Going(l.pair, l.attrs, t, rest, k, chunk, final) && (l.status == 2 ==> k == 0);
    if l.status == 1 {
      SmallBuffer(l.pair.dec, t, rest);
    } else {
      assert t.q[..0] == [];
    }
    hide OnTrack, Assemble;
  }

  /** What was in the buffer before the chunk becomes the old part of it. */
  lemma OldPartOfChunk(d: Dec, t: Trail, d': Dec, t': Trail, rest: Bytes, rest': Bytes, chunk: nat)
    requires OnTrack(d, t, rest) && Continues(t, t') && d'.firstIsName == d.firstIsName
    requires Ends(t.q) <= (if d.firstIsName then 1 else 0)
    requires t' != t ==> |d'.recs| <= |Body(t)| + chunk
    ensures OldPart(d', t'.q, |t.q| + 1, chunk)
  {
    hide RecStream, Ends, OnTrack, Body;
    SameStart(t.q, t.u, t'.q, t'.u);
    if |t.q| < |t'.q| {
      FitsOnTrack(d, t, rest);
      OneMore(t);
    }
  }

  lemma SameStart(q: seq<Rec>, u: seq<Rec>, q': seq<Rec>, u': seq<Rec>)
    requires q + u == q' + u' && |q| <= |q'|
    ensures q'[..|q|] == q
    ensures |q| < |q'| ==> u != [] && q'[..|q| + 1] == q + [u[0]]
  {
    assert q'[..|q|] == (q' + u')[..|q|] == (q + u)[..|q|];
    if |q| < |q'| {
      assert q'[|q|] == (q' + u')[|q|] == (q + u)[|q|];
    }
  }

  lemma FitsOnTrack(d: Dec, t: Trail, rest: Bytes)
    requires OnTrack(d, t, rest)
    ensures Fits(t)
  {
  }

  lemma OneMore(t: Trail)
    requires Fits(t) && t.u != []
    ensures |RecStream(t.q + [t.u[0]])| == |RecStream(t.q)| + |t.u[0].data| + 2 >= |Body(t)|
  {
    var one := [t.u[0]];
    RecStreamConcat(t.q, one);
    assert one[1..] == [];
    assert |RecStream(one)| == |t.u[0].data| + 2;
    FitsStream(t);
  }

  /** The second trail comes later. The record at the very end is still to come, unless it has data. */
  ghost predicate Follows(t: Trail, t': Trail) {
    && t.u != []
    && (t'.u == [] ==> t.u[|t.u| - 1].data != [])
    && (t'.u != [] ==> t'.u[|t'.u| - 1] == t.u[|t.u| - 1])
  }

  lemma ContinuesFollows(t: Trail, t': Trail)
    requires Continues(t, t') && t.u != []
    ensures Follows(t, t')
  {
    if t'.u != [] {
      assert t.u[|t.u| - 1] == (t.q + t.u)[|t.q + t.u| - 1] == (t'.q + t'.u)[|t'.q + t'.u| - 1];
    }
  }

  lemma SameComponent(d: Dec, t: Trail, rest: Bytes, d': Dec, t': Trail, rest': Bytes)
    requires OnTrack(d, t, rest) && OnTrack(d', t', rest') && t.q + t.u == t'.q + t'.u
    ensures d'.firstIsName == d.firstIsName
  {
  }

  /** The submitted chunk keeps things going. */
  lemma GoingOn(l: List, t: Trail, data: Bytes, more: Bytes, final: Asm) returns (t': Trail)
    requires Waiting(l, t, data + more, final) && 1 <= |data| <= CHUNK
    ensures var (code, d', _) := Submit(l.pair.dec, data);
      && Going(l.pair.(dec := d'), l.attrs, t', more, |t.q| + 1, |data|, final) && Follows(t, t')
      && 1 <= code <= 4 && (code == 2 || code == 3 <==> t'.q != [])
      && (code == 4 <==> d'.aaEnds == 3) && (code == 1 ==> t'.u != [])
  {
    var d := l.pair.dec;
    t' := SubmitStep(d, t, data, more);
    var d' := Submit(d, data).1;
    SameComponent(d, t, data + more, d', t', more);
    OldPartOfChunk(d, t, d', t', data + more, more, |data|);
    ContinuesFollows(t, t');
    ToCome(d', t', more);
    hide OnTrack, OldPart, Assemble, Follows, Submit;
  }

  /** aaip_decode_pair() with a chunk of data */
  lemma CollectChunk(l: List, t: Trail, data: Bytes, more: Bytes, final: Asm) returns (t': Trail, k': nat)
    requires Waiting(l, t, data + more, final) && 1 <= |data| <= CHUNK
    ensures var (code, p', _) := DecodePair(l.pair, l.status, data);
      Collected(code, p', l.attrs, t', more, k', |data|, final) && Follows(t, t')
  {
    PairOfChunk(l, data);
    t' := GoingOn(l, t, data, more, final);
    k' := |t.q| + 1;
    var p2 := l.pair.(dec := Submit(l.pair.dec, data).1);
    hide Going, OnTrack, Ends, Submit, DecodePair, AdvancePair, Waiting;
    if t'.q != [] {
      t', k' := CollectStep(p2, l.attrs, t', more, k', |data|, final, |data|);
    }
  }

  lemma PairOfChunk(l: List, data: Bytes)
    requires Resumable(l) && (l.status == 1 || l.status == 2) && data != []
    ensures var (code, d', _) := Submit(l.pair.dec, data); var p2 := l.pair.(dec := d');
      1 <= code <= 4 ==>
        DecodePair(l.pair, l.status, data) ==
        if code == 1 then (1, p2, 0) else if code == 4 then (5, p2, 0) else AdvancePair(p2, |data|)
  {
    hide Submit, AdvancePair;
    assert StartPair(l.pair, l.status) == l.pair;
  }

  /** aaip_decode_pair() without new data */
  lemma CollectBuffered(l: List, t: Trail, rest: Bytes, k: nat, chunk: nat, final: Asm) returns (t': Trail, k': nat)
    requires Resumable(l) && Going(l.pair, l.attrs, t, rest, k, chunk, final) && t.q != []
    ensures var (code, p', _) := DecodePair(l.pair, l.status, []);
      Collected(code, p', l.attrs, t', rest, k', chunk, final) && t'.u == t.u
  {
    assert StartPair(l.pair, l.status) == l.pair;
    Counted(l.pair.dec, t, rest);
    t', k' := CollectStep(l.pair, l.attrs, t, rest, k, chunk, final, 0);
    hide OnTrack, Going, Ends, AdvancePair;
  }

  /** aaip_decode_attrs() from the reply of aaip_decode_pair() on */
  lemma {:induction false} HandleReply(l: List, data: Bytes, t: Trail, rest: Bytes, k: nat, chunk: nat, final: Asm)
    returns (t': Trail)
    requires Resumable(l) && Roomy(l.pair)
    requires var (code, p, _) := DecodePair(l.pair, l.status, data);
      Collected(code, p, l.attrs, t, rest, k, chunk, final)
    ensures var (code, l') := DecodeAttrs(l, data); Outcome(code, l', t', rest, chunk, final) && t'.u == t.u
    decreases if data == [] then 0 else 1, l.pair.dec.numRecs, Shortage(StartPair(l.pair, l.status)), 0
  {
    hide OnTrack, OldPart, Assemble, Ends, DecodePair, ExpandName;
    var (code, p, _) := DecodePair(l.pair, l.status, data);
    var l1 := l.(pair := p, status := code);
    t' := t;
    if code == -2 {
      var l2 := l1.(pair := Enlarge(p));
      assert Going(l2.pair, l2.attrs, t, rest, k, chunk, final);
      t' := DrainBuffer(l2, t, rest, k, chunk, final);
    } else if code == 2 || code == 3 || code == 4 {
      var l2 := l1.(pair := Cleared(p), attrs := l1.attrs + [Attr(p.name, p.value)]);
      if code == 3 {
        t' := DrainBuffer(l2, t, rest, 0, chunk, final);
      } else if code == 4 {
        ListEnd(l2.pair, l2.attrs, t, rest, 0, chunk, final);
      }
    } else if code == 5 {
      ListEnd(p, l.attrs, t, rest, k, chunk, final);
    }
  }

  /** aaip_decode_attrs() without new data */
  lemma {:induction false} DrainBuffer(l: List, t: Trail, rest: Bytes, k: nat, chunk: nat, final: Asm)
    returns (t': Trail)
    requires Resumable(l) && Going(l.pair, l.attrs, t, rest, k, chunk, final) && t.q != []
    ensures var (code, l') := DecodeAttrs(l, []); Outcome(code, l', t', rest, chunk, final) && t'.u == t.u
    decreases 0, l.pair.dec.numRecs, Shortage(StartPair(l.pair, l.status)), 1
  {
    var t1, k1 := CollectBuffered(l, t, rest, k, chunk, final);
    t' := HandleReply(l, [], t1, rest, k1, chunk, final);
  }

  // ---------------------------------------------------------------- All chunks

  function Joint(chunks: seq<Bytes>): Bytes {
    if chunks == [] then [] else chunks[0] + Joint(chunks[1..])
  }

  /** aaip_decode_attrs() with one chunk after the other, as long as it wants more */
  function DecodeChunks(l: List, chunks: seq<Bytes>): (int, List)
    requires l.pair.nameSize >= 2 && l.pair.valueSize >= 2
    decreases |chunks|
  {
    if chunks == [] then (1, l)
    else
      var (code, l') := DecodeAttrs(l, chunks[0]);
      if code == 1 then DecodeChunks(l', chunks[1..]) else (code, l')
  }

  ghost predicate Submittable(chunks: seq<Bytes>) {
    forall i :: 0 <= i < |chunks| ==> 1 <= |chunks[i]| <= CHUNK
  }

  lemma NothingLeft(d: Dec, t: Trail)
    requires OnTrack(d, t, []) && t.u != []
    ensures t.u[|t.u| - 1].data == []
  {
    FieldsEmpty(Pending(t));
    assert Pending(t) == [];
    NothingPending(t);
    hide Fields, Whole;
  }

  /** All chunks get decoded, except for an empty record at the very end. */
  lemma {:induction false} ChunksStep(l: List, t: Trail, chunks: seq<Bytes>, final: Asm)
    requires Waiting(l, t, Joint(chunks), final) && Submittable(chunks)
    ensures var (code, l') := DecodeChunks(l, chunks);
      if t.u[|t.u| - 1].data != [] then code == 2 && l'.attrs == final.attrs
      else code == 2 ==> |l'.attrs| < |final.attrs|
    decreases |chunks|
  {
    hide OnTrack, Assemble, Ends, DecodePair, DecodeAttrs, Going, Submit;
    if chunks == [] {
      NothingLeft(l.pair.dec, t);
    } else {
      var more := Joint(chunks[1..]);
      var t1, k1 := CollectChunk(l, t, chunks[0], more, final);
      var t2 := HandleReply(l, chunks[0], t1, more, k1, |chunks[0]|, final);
      var (code, l') := DecodeAttrs(l, chunks[0]);
      if code == 1 {
        OutcomeWaits(l', t2, more, |chunks[0]|, final);
        ChunksStep(l', t2, chunks[1..], final);
      }
    }
  }

  lemma {:induction false} CompRecsEnd(c: Bytes)
    ensures CompRecs(c) != [] && Ends(CompRecs(c)) == 1
    ensures var last := CompRecs(c)[|CompRecs(c)| - 1]; last.ends && (last.data == [] <==> c == [])
    decreases |c|
  {
    if |c| > 255 {
      CompRecsEnd(c[255..]);
      assert CompRecs(c)[1..] == CompRecs(c[255..]);
    } else {
      assert CompRecs(c)[1..] == [];
    }
  }

  lemma {:induction false} RecordsEnd(comps: seq<Bytes>)
    ensures Ends(Records(comps)) == |comps|
    ensures comps != [] ==>
      var q := Records(comps);
      q != [] && q[|q| - 1].ends && (q[|q| - 1].data == [] <==> comps[|comps| - 1] == [])
  {
    if comps != [] {
      CompRecsEnd(comps[0]);
      RecordsEnd(comps[1..]);
      RecStreamConcat(CompRecs(comps[0]), Records(comps[1..]));
      hide CompRecs, Ends, RecStream;
    }
  }

  lemma {:induction false} ComponentsEnd(attrs: seq<Attr>)
    ensures |Components(attrs)| == 2 * |attrs|
    ensures attrs != [] ==> Components(attrs)[2 * |attrs| - 1] == attrs[|attrs| - 1].value
  {
    if attrs != [] {
      ComponentsEnd(attrs[1..]);
      hide ShortName;
    }
  }

  /** The decoder is ready for the fields of any attributes. */
  lemma StartWaits(attrs: seq<Attr>)
    requires attrs != [] && Encoder.NoBareNames(attrs)
    ensures var u := Records(Components(attrs));
      && Waiting(START, Trail([], u, 0), Fields(Encoder.Payload(attrs), false), Asm(DecodedAll(attrs), [], [], true))
      && (u[|u| - 1].data == [] <==> attrs[|attrs| - 1].value == [])
  {
    hide *;
    RecordsOfAttrs(attrs);
    Encoder.PayloadIsStream(attrs);
    RecordsStream(Components(attrs));
    StartAssembled(attrs);
    StartOnTrack(Trail([], Records(Components(attrs)), 0), Asm(DecodedAll(attrs), [], [], true));
  }

  lemma StartAssembled(attrs: seq<Attr>)
    ensures Assemble(Asm([], [], [], true), Records(Components(attrs))) == Asm(DecodedAll(attrs), [], [], true)
  {
    AssembleAttrs([], attrs);
    var none: seq<Attr> := [];
    assert none + DecodedAll(attrs) == DecodedAll(attrs);
  }

  lemma RecordsOfAttrs(attrs: seq<Attr>)
    requires attrs != []
    ensures var u := Records(Components(attrs));
      u != [] && Whole(u, true) && (u[|u| - 1].data == [] <==> attrs[|attrs| - 1].value == [])
  {
    ComponentsEnd(attrs);
    RecordsEnd(Components(attrs));
    hide Components, Records, Ends;
  }

  lemma StartOnTrack(t: Trail, final: Asm)
    requires t.q == [] && t.u != [] && t.r == 0 && Whole(t.u, true) && Assemble(Asm([], [], [], true), t.u) == final
    ensures Waiting(START, t, Fields(RecStream(t.u), false), final)
  {
    assert t.q + t.u == t.u;
    StreamHead(t.u);
    FieldsEmpty(RecStream(t.u));
    hide Fields, RecStream, Whole, Assemble;
  }

  /** Whatever the chunks, all attributes get decoded if the last value is not empty, and else
      the last one does not get decoded. */
  lemma DecodesAll(attrs: seq<Attr>, chunks: seq<Bytes>)
    requires attrs != [] && Encoder.NoBareNames(attrs)
    requires Submittable(chunks) && Joint(chunks) == Fields(Encoder.Payload(attrs), false)
    ensures var (code, l) := DecodeChunks(START, chunks);
      if attrs[|attrs| - 1].value != [] then code == 2 && l.attrs == DecodedAll(attrs)
      else code == 2 ==> |l.attrs| < |attrs|
  {
    hide *;
    StartWaits(attrs);
    ChunksStep(START, Trail([], Records(Components(attrs)), 0), chunks, Asm(DecodedAll(attrs), [], [], true));
  }

  /** The decoder yields the encoded attributes, in order, if and only if the last value is not empty
      and the encoder did not strip a second namespace text from any name. */
  lemma RoundTrip(attrs: seq<Attr>, chunks: seq<Bytes>)
    requires attrs != [] && Encoder.NoBareNames(attrs)
    requires Submittable(chunks) && Joint(chunks) == Fields(Encoder.Payload(attrs), false)
    ensures var (code, l) := DecodeChunks(START, chunks);
      code == 2 && l.attrs == attrs <==>
      attrs[|attrs| - 1].value != [] && forall i :: 0 <= i < |attrs| ==> !StripsTwice(attrs[i].name)
  {
    hide DecodeChunks, Fields, Joint, ShortName, ExpandName, StripsTwice, Submittable;
    hide Encoder.Payload, Encoder.NoBareNames;
    DecodesAll(attrs, chunks);
    forall i | 0 <= i < |attrs| ensures DecodedAll(attrs)[i] == attrs[i] <==> !StripsTwice(attrs[i].name) {
      NameRoundTrip(attrs[i].name);
    }
  }
}
