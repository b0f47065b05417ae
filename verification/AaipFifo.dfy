/**
 The buffer for component records in the AAIP decoder (libisofs/aaip_0_2.c): the simple fifo, which
 moves its bytes, and the ring buffer, which replaces it.
 */
module AaipFifo {
  import opened Common
  import opened IsoBytes
  import opened AaipDecoder

  const SIZE: nat := BUFFER_SIZE + BUFFER_RESERVE

  /** The operations on the buffer */
  datatype Op = Push(data: Bytes) | Read(idx: nat, num: nat) | Set(at: nat, value: Byte) | Get(pos: nat)
              | Truncate(count: nat) | Shift(todo: nat)

  /** What the callers guarantee */
  predicate Legal(s: Bytes, op: Op) {
    match op
    case Push(data) => |s| + |data| <= SIZE
    case Read(idx, num) => idx + num <= |s|
    case Set(at, _) => at < |s|
    case Get(pos) => pos < |s|
    case Truncate(count) => count <= |s|
    case Shift(todo) => todo <= |s|
  }

  /** The content after an operation */
  function Apply(s: Bytes, op: Op): Bytes
    requires Legal(s, op)
  {
    match op
    case Push(data) => s + data
    case Read(_, _) => s
    case Set(at, value) => s[at := value]
    case Get(_) => s
    case Truncate(count) => s[..|s| - count]
    case Shift(todo) => s[todo..]
  }

  /** The bytes handed out by an operation */
  function Answer(s: Bytes, op: Op): Bytes
    requires Legal(s, op)
  {
    match op
    case Read(idx, num) => s[idx..idx + num]
    case Get(pos) => [s[pos]]
    case _ => []
  }

  predicate LegalAll(s: Bytes, ops: seq<Op>)
    decreases |ops|
  {
    ops == [] || (Legal(s, ops[0]) && LegalAll(Apply(s, ops[0]), ops[1..]))
  }

  function Answers(s: Bytes, ops: seq<Op>): seq<Bytes>
    requires LegalAll(s, ops)
    decreases |ops|
  {
    if ops == [] then [] else [Answer(s, ops[0])] + Answers(Apply(s, ops[0]), ops[1..])
  }

  // ---------------------------------------------------------------- The ring buffer

  /** The cell of the ring which holds byte idx of the fifo */
  function Cell(start: nat, idx: nat): nat
    requires start < SIZE
  {
    if idx < SIZE - start then start + idx else idx - (SIZE - start)
  }

  /** The first bytes of the fifo in a ring */
  function Interval(ring: Bytes, start: nat, fill: nat): (s: Bytes)
    requires |ring| == SIZE && start < SIZE && fill <= SIZE
    ensures |s| == fill && forall i :: 0 <= i < fill ==> s[i] == ring[Cell(start, i)]
  {
    if fill <= SIZE - start then ring[start..start + fill] else ring[start..] + ring[..fill - (SIZE - start)]
  }

  /** Writing behind the last byte appends to the fifo. */
  lemma Appended(ring: Bytes, ring': Bytes, start: nat, fill: nat, data: Bytes)
    requires |ring| == |ring'| == SIZE && start < SIZE && fill + |data| <= SIZE
    requires forall i :: fill <= i < fill + |data| ==> ring'[Cell(start, i)] == data[i - fill]
    requires forall i :: 0 <= i < fill ==> ring'[Cell(start, i)] == ring[Cell(start, i)]
    ensures Interval(ring', start, fill + |data|) == Interval(ring, start, fill) + data
  {
    hide Cell;
  }

  /** Moving the start drops bytes from the fifo. */
  lemma Dropped(ring: Bytes, start: nat, fill: nat, todo: nat)
    requires |ring| == SIZE && start < SIZE && fill <= SIZE && todo < fill
    ensures Interval(ring, Cell(start, todo), fill - todo) == Interval(ring, start, fill)[todo..]
  {
    forall i | 0 <= i < fill - todo ensures Cell(Cell(start, todo), i) == Cell(start, todo + i) {
    }
  }

  /** The bytes of the fifo are not in the intervals behind its end. */
  lemma OtherCell(start: nat, i: nat, fill: nat, startPt: nat, atStart: nat, atRecs: nat)
    requires start < SIZE && i < fill && fill + atStart + atRecs <= SIZE
    requires atStart > 0 ==> startPt == Cell(start, fill) && startPt + atStart <= SIZE
    requires atRecs > 0 ==> Cell(start, fill + atStart) == 0
    ensures !(startPt <= Cell(start, i) < startPt + atStart) && !(Cell(start, i) < atRecs)
  {
  }

  class RingFifo {
    const recs: array<Byte>
    var fill: nat
    var start: nat

    ghost predicate Valid()
      reads this
    {
      recs.Length == SIZE && fill <= SIZE && start < SIZE
    }

    ghost function Contents(): (s: Bytes)
      reads this, recs
      requires Valid()
      ensures |s| == fill
    {
      Interval(recs[..], start, fill)
    }

    constructor ()
      ensures Valid() && fresh(recs) && Contents() == []
    {
      recs := new Byte[SIZE](_ => 0);
      fill, start := 0, 0;
    }

    /** aaip_ring_adr(): the one or two intervals of the ring that form an interval of the fifo. */
    method Address(idx: nat, todo: nat) returns (startPt: nat, atStart: nat, atRecs: nat, ret: int)
      requires Valid() && idx + todo <= SIZE
      ensures atStart + atRecs == todo && startPt < SIZE && startPt + atStart <= SIZE
      ensures forall i :: idx <= i < idx + todo ==>
                Cell(start, i) == if i - idx < atStart then startPt + (i - idx) else i - idx - atStart
      ensures ret == if startPt + todo < SIZE then 1 else 2
      ensures if ret == 1 then atRecs == 0 else startPt + atStart == SIZE
      ensures startPt == if idx < SIZE then Cell(start, idx) else start
    {
      var ahead := SIZE - start;
      if idx < ahead {
        startPt := start + idx;
      } else {
        startPt := idx - ahead;
      }
      ahead := SIZE - startPt;
      if todo >= ahead {
        return startPt, ahead, todo - ahead, 2;
      }
      return startPt, todo, 0, 1;
    }

    /** aaip_push_to_recs() */
    method Push(data: Bytes)
      requires Valid() && fill + |data| <= SIZE
      modifies this, recs
      ensures Valid() && Contents() == old(Contents()) + data
    {
      var startPt, atStart, atRecs, _ := Address(fill, |data|);
      forall k | 0 <= k < atStart {
        recs[startPt + k] := data[k];
      }
      forall k | 0 <= k < atRecs {
        recs[k] := data[atStart + k];
      }
      forall i | 0 <= i < fill ensures recs[Cell(start, i)] == old(recs[Cell(start, i)]) {
        OtherCell(start, i, fill, startPt, atStart, atRecs);
      }
      Appended(old(recs[..]), recs[..], start, fill, data);
      fill := fill + |data|;
    }

    /** aaip_read_from_recs() */
    method Read(idx: nat, num: nat) returns (data: Bytes)
      requires Valid() && idx + num <= fill
      ensures data == Contents()[idx..idx + num]
    {
      var startPt, atStart, atRecs, _ := Address(idx, num);
      data := recs[startPt..startPt + atStart] + recs[..atRecs];
      forall k | 0 <= k < num ensures data[k] == Contents()[idx + k] {
        assert data[k] == recs[Cell(start, idx + k)];
      }
    }

    /** aaip_set_buffer_byte() */
    method SetByte(idx: nat, value: Byte)
      requires Valid() && idx < fill
      modifies recs
      ensures Valid() && Contents() == old(Contents())[idx := value]
    {
      var startPt, _, _, _ := Address(idx, 1);
      recs[startPt] := value;
    }

    /** aaip_get_buffer_byte() */
    method GetByte(idx: nat) returns (value: Byte)
      requires Valid() && idx < fill
      ensures value == Contents()[idx]
    {
      var startPt, _, _, _ := Address(idx, 1);
      value := recs[startPt];
    }

    /** The removal of bytes at the end, as done with field heads */
    method Truncate(count: nat)
      requires Valid() && count <= fill
      modifies this
      ensures Valid() && Contents() == old(Contents())[..|old(Contents())| - count]
    {
      fill := fill - count;
    }

    /** The buffer part of aaip_shift_recs() */
    method Shift(todo: nat)
      requires Valid() && todo <= fill
      modifies this
      ensures Valid() && Contents() == old(Contents())[todo..]
    {
      if todo < fill {
        var startPt, _, atRecs, ret := Address(0, todo);
        Dropped(recs[..], start, fill, todo);
        if ret == 1 {
          start := startPt + todo;
        } else {
          start := atRecs;
        }
      } else {
        start := 0;
      }
      fill := fill - todo;
    }
  }

  // ---------------------------------------------------------------- The simple fifo

  class ShiftFifo {
    const recs: array<Byte>
    var fill: nat

    ghost predicate Valid()
      reads this
    {
      recs.Length == SIZE && fill <= SIZE
    }

    ghost function Contents(): Bytes
      reads this, recs
      requires Valid()
    {
      recs[..fill]
    }

    constructor ()
      ensures Valid() && fresh(recs) && Contents() == []
    {
      recs := new Byte[SIZE](_ => 0);
      fill := 0;
    }

    method Push(data: Bytes)
      requires Valid() && fill + |data| <= SIZE
      modifies this, recs
      ensures Valid() && Contents() == old(Contents()) + data
    {
      forall k | 0 <= k < |data| {
        recs[fill + k] := data[k];
      }
      fill := fill + |data|;
    }

    method Read(idx: nat, num: nat) returns (data: Bytes)
      requires Valid() && idx + num <= fill
      ensures data == Contents()[idx..idx + num]
    {
      data := recs[idx..idx + num];
    }

    method SetByte(idx: nat, value: Byte)
      requires Valid() && idx < fill
      modifies recs
      ensures Valid() && Contents() == old(Contents())[idx := value]
    {
      recs[idx] := value;
    }

    method GetByte(idx: nat) returns (value: Byte)
      requires Valid() && idx < fill
      ensures value == Contents()[idx]
    {
      value := recs[idx];
    }

    method Truncate(count: nat)
      requires Valid() && count <= fill
      modifies this
      ensures Valid() && Contents() == old(Contents())[..|old(Contents())| - count]
    {
      fill := fill - count;
    }

    method Shift(todo: nat)
      requires Valid() && todo <= fill
      modifies this, recs
      ensures Valid() && Contents() == old(Contents())[todo..]
    {
      if todo < fill {
        forall k | 0 <= k < fill - todo {
          recs[k] := recs[todo + k];
        }
      }
      fill := fill - todo;
    }
  }

  // ---------------------------------------------------------------- Refinement

  /** Ring buffer and simple fifo give the same answers to any operations. */
  method RunBoth(ops: seq<Op>) returns (ringAnswers: seq<Bytes>, shiftAnswers: seq<Bytes>)
    requires LegalAll([], ops)
    ensures ringAnswers == shiftAnswers == Answers([], ops)
  {
    hide Interval, Cell, Apply, Answer, Legal, LegalAll, Answers, RingFifo.Contents, ShiftFifo.Contents;
    var ring := new RingFifo();
    var shift := new ShiftFifo();
    ringAnswers, shiftAnswers := [], [];
    var rest := ops;
    NothingBefore(Answers([], ops));
    while rest != []
      invariant ring.Valid() && shift.Valid() && fresh(ring) && fresh(shift) && fresh(ring.recs) && fresh(shift.recs)
      invariant ring.recs != shift.recs
      invariant ring.Contents() == shift.Contents() && LegalAll(ring.Contents(), rest)
      invariant ringAnswers == shiftAnswers && ringAnswers + Answers(ring.Contents(), rest) == Answers([], ops)
      decreases |rest|
    {
      FirstAnswer(ring.Contents(), rest);
      ghost var later := Answers(Apply(ring.Contents(), rest[0]), rest[1..]);
      var a, b := Step(ring, shift, rest[0]);
      Associate(ringAnswers, [a], later);
      ringAnswers, shiftAnswers := ringAnswers + [a], shiftAnswers + [b];
      rest := rest[1..];
    }
    NoAnswers(ring.Contents());
    NothingBehind(ringAnswers);
  }

  lemma FirstAnswer(s: Bytes, ops: seq<Op>)
    requires LegalAll(s, ops) && ops != []
    ensures Legal(s, ops[0]) && LegalAll(Apply(s, ops[0]), ops[1..])
    ensures Answers(s, ops) == [Answer(s, ops[0])] + Answers(Apply(s, ops[0]), ops[1..])
  {
    hide Legal, Apply, Answer;
  }

  lemma NoAnswers(s: Bytes)
    ensures LegalAll(s, []) && Answers(s, []) == []
  {
  }

  method Step(ring: RingFifo, shift: ShiftFifo, op: Op) returns (a: Bytes, b: Bytes)
    requires ring.Valid() && shift.Valid() && ring.recs != shift.recs
    requires ring.Contents() == shift.Contents() && Legal(ring.Contents(), op)
    modifies ring, ring.recs, shift, shift.recs
    ensures ring.Valid() && shift.Valid()
    ensures ring.Contents() == shift.Contents() == Apply(old(ring.Contents()), op)
    ensures a == b == Answer(old(ring.Contents()), op)
  {
    hide Interval, Cell;
    a, b := [], [];
    match op {
      case Push(data) =>
        ring.Push(data);
        shift.Push(data);
      case Read(idx, num) =>
        a := ring.Read(idx, num);
        b := shift.Read(idx, num);
      case Set(at, value) =>
        ring.SetByte(at, value);
        shift.SetByte(at, value);
      case Get(pos) =>
        var x := ring.GetByte(pos);
        var y := shift.GetByte(pos);
        a, b := [x], [y];
      case Truncate(count) =>
        ring.Truncate(count);
        shift.Truncate(count);
      case Shift(todo) =>
        ring.Shift(todo);
        shift.Shift(todo);
    }
  }
}
