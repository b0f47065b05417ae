/**
 The writer thread and the reader thread of the ring buffer (libisofs/buffer.c), interleaved
 statement by statement.

 Each thread works off a list of calls which ends by its close call. A thread holds the mutex
 from its lock to its unlock, or to its wait for a condition. A waiting thread wakes up by the
 signal of the other one, or spuriously.
 */
module RingProtocol {
  import opened Common
  import opened RingBuffer

  /** Who holds the mutex. */
  datatype Mutex = Free | ByWriter | ByReader

  /** How a thread came to test its wait condition. */
  datatype Wake = Fresh | Signalled | Spurious

  datatype WriterCall = Write(data: seq<Byte>) | WriterClose(error: bool)

  datatype ReaderCall = Read(count: nat) | ReaderClose(error: bool)

  /** The next statement of a thread. n is the byte count of the round, chunk are its bytes. */
  datatype Pc =
    | Idle
    | Top                    // loop test, then lock
    | Test(wake: Wake)       // inner loop test, mutex held
    | Asleep                 // waiting, mutex released
    | Woken(wake: Wake)      // about to get the mutex back
    | Copy
    | Advance(chunk: seq<Byte>)
    | Account(chunk: seq<Byte>)
    | Signal
    | Unlock
    | GiveUp                 // unlock and return 0
    | CloseLock(error: bool)
    | CloseSet(error: bool)
    | CloseSignal
    | CloseUnlock

  datatype WriterThread = WriterThread(pc: Pc, calls: seq<WriterCall>, data: seq<Byte>, done: nat)

  datatype ReaderThread = ReaderThread(pc: Pc, calls: seq<ReaderCall>, count: nat, done: nat)

  /** The shared buffer, both threads, and what went through: written are the bytes copied in so
      far, delivered those handed out. issued are the bytes of all write calls so far. cut tells
      that a write call ended early or was left out, eof that a read call reported end of file. */
  datatype State = State(ring: Ring, rend: End, wend: End, mutex: Mutex, w: WriterThread, r: ReaderThread,
                         written: seq<Byte>, delivered: seq<Byte>, issued: seq<Byte>, cut: bool, eof: bool)

  datatype Move = WriterStep | ReaderStep | WriterSkip | ReaderSkip | WriterSpurious | ReaderSpurious

  function Ended(error: bool): (e: End)
    ensures e != Open
  {
    if error then Failed else EndedOk
  }

  /** pthread_cond_signal(): a waiting thread gets on its way, otherwise nothing happens. */
  function Wakened(pc: Pc): Pc {
    if pc == Asleep then Woken(Signalled) else pc
  }

  function SetW(s: State, pc: Pc): State {
    s.(w := s.w.(pc := pc))
  }

  function SetR(s: State, pc: Pc): State {
    s.(r := s.r.(pc := pc))
  }

  /** Whether the writer thread can execute its next statement: locks and waits can block it. */
  predicate WriterEnabled(s: State) {
    match s.w.pc
    case Idle => s.w.calls != []
    case Top => s.w.done >= |s.w.data| || s.mutex == Free
    case Asleep => false
    case Woken(_) => s.mutex == Free
    case CloseLock(_) => s.mutex == Free
    case _ => true
  }

  predicate ReaderEnabled(s: State) {
    match s.r.pc
    case Idle => s.r.calls != []
    case Top => s.r.done >= s.r.count || s.mutex == Free
    case Asleep => false
    case Woken(_) => s.mutex == Free
    case CloseLock(_) => s.mutex == Free
    case _ => true
  }

  /** The byte counts of the round under way are within their bounds. */
  predicate InBounds(s: State) {
    && s.ring.InRange()
    && s.w.done <= |s.w.data| && s.r.done <= s.r.count
    && (s.w.pc.Advance? ==> s.ring.wpos + |s.w.pc.chunk| <= s.ring.Cap())
    && (s.r.pc.Advance? ==> s.ring.rpos + |s.r.pc.chunk| <= s.ring.Cap())
    && (s.r.pc.Account? ==> |s.r.pc.chunk| <= s.ring.size)
  }

  /** The client starts its next call. */
  function WriterStarts(s: State): State
    requires s.w.calls != []
  {
    var rest := s.w.calls[1..];
    match s.w.calls[0]
    case Write(data) => s.(w := WriterThread(Top, rest, data, 0), issued := s.issued + data)
    case WriterClose(error) => s.(w := s.w.(pc := CloseLock(error), calls := rest))
  }

  function ReaderStarts(s: State): State
    requires s.r.calls != []
  {
    var rest := s.r.calls[1..];
    match s.r.calls[0]
    case Read(count) => s.(r := ReaderThread(Top, rest, count, 0))
    case ReaderClose(error) => s.(r := s.r.(pc := CloseLock(error), calls := rest))
  }

  /** iso_ring_buffer_write(): loop test and lock, or return from the wait. */
  function WriteLocks(s: State): State {
    match s.w.pc
    case Top => if s.w.done >= |s.w.data| then SetW(s, Idle) else SetW(s, Test(Fresh)).(mutex := ByWriter)
    case Woken(wake) => SetW(s, Test(wake)).(mutex := ByWriter)
    case _ => s
  }

  /** iso_ring_buffer_write(): the inner loop with its wait. */
  function WriteTests(s: State): State {
    match s.w.pc
    case Test(_) =>
      if s.ring.size == s.ring.Cap() then
        if s.rend != Open then SetW(s, GiveUp) else SetW(s, Asleep).(mutex := Free)
      else SetW(s, Copy)
    case GiveUp => s.(w := s.w.(pc := Idle, data := [], done := 0), mutex := Free, cut := true)
    case _ => s
  }

  /** iso_ring_buffer_write(): the round of copying. */
  function WriteCopies(s: State): State
    requires InBounds(s)
  {
    match s.w.pc
    case Copy =>
      var chunk := s.w.data[s.w.done..s.w.done + s.ring.InLen(|s.w.data| - s.w.done)];
      SetW(s, Advance(chunk)).(ring := s.ring.CopiedIn(chunk))
    case Advance(chunk) => SetW(s, Account(chunk)).(ring := s.ring.WriteAdvanced(|chunk|))
    case Account(chunk) =>
      s.(w := s.w.(pc := Signal, done := s.w.done + |chunk|), ring := s.ring.Grown(|chunk|),
        written := s.written + chunk)
    case _ => s
  }

  /** Signal to the other thread and unlock. */
  function WriterLeaves(s: State): State {
    match s.w.pc
    case Signal => SetW(SetR(s, Wakened(s.r.pc)), Unlock)
    case Unlock => SetW(s, Top).(mutex := Free)
    case CloseSignal => SetW(SetR(s, Wakened(s.r.pc)), CloseUnlock)
    case CloseUnlock => SetW(s, Idle).(mutex := Free)
    case _ => s
  }

  /** iso_ring_buffer_writer_close(): lock and set the flag. */
  function WriterCloses(s: State): State {
    match s.w.pc
    case CloseLock(error) => SetW(s, CloseSet(error)).(mutex := ByWriter)
    case CloseSet(error) => SetW(s, CloseSignal).(wend := Ended(error))
    case _ => s
  }

  /** iso_ring_buffer_read(): loop test and lock, or return from the wait. */
  function ReadLocks(s: State): State {
    match s.r.pc
    case Top => if s.r.done >= s.r.count then SetR(s, Idle) else SetR(s, Test(Fresh)).(mutex := ByReader)
    case Woken(wake) => SetR(s, Test(wake)).(mutex := ByReader)
    case _ => s
  }

  /** iso_ring_buffer_read(): the inner loop with its wait. */
  function ReadTests(s: State): State {
    match s.r.pc
    case Test(_) =>
      if s.ring.size == 0 then
        if s.wend != Open then SetR(s, GiveUp) else SetR(s, Asleep).(mutex := Free)
      else SetR(s, Copy)
    case GiveUp => s.(r := s.r.(pc := Idle, count := 0, done := 0), mutex := Free, eof := true)
    case _ => s
  }

  /** iso_ring_buffer_read(): the round of copying. */
  function ReadCopies(s: State): State
    requires InBounds(s)
  {
    match s.r.pc
    case Copy => SetR(s, Advance(s.ring.ChunkOut(s.ring.OutLen(s.r.count - s.r.done))))
    case Advance(chunk) => SetR(s, Account(chunk)).(ring := s.ring.ReadAdvanced(|chunk|))
    case Account(chunk) =>
      s.(r := s.r.(pc := Signal, done := s.r.done + |chunk|), ring := s.ring.Shrunk(|chunk|),
         delivered := s.delivered + chunk)
    case _ => s
  }

  /** Signal to the other thread and unlock. */
  function ReaderLeaves(s: State): State {
    match s.r.pc
    case Signal => SetR(SetW(s, Wakened(s.w.pc)), Unlock)
    case Unlock => SetR(s, Top).(mutex := Free)
    case CloseSignal => SetR(SetW(s, Wakened(s.w.pc)), CloseUnlock)
    case CloseUnlock => SetR(s, Idle).(mutex := Free)
    case _ => s
  }

  /** iso_ring_buffer_reader_close(): lock and set the flag. */
  function ReaderCloses(s: State): State {
    match s.r.pc
    case CloseLock(error) => SetR(s, CloseSet(error)).(mutex := ByReader)
    case CloseSet(error) => if s.rend != Open then SetR(s, CloseUnlock) else SetR(s, CloseSignal).(rend := Ended(error))
    case _ => s
  }

  predicate Locking(pc: Pc) {
    pc.Top? || pc.Woken?
  }

  predicate Testing(pc: Pc) {
    pc.Test? || pc.GiveUp?
  }

  predicate Copying(pc: Pc) {
    pc.Copy? || pc.Advance? || pc.Account?
  }

  predicate Leaving(pc: Pc) {
    pc.Signal? || pc.Unlock? || pc.CloseSignal? || pc.CloseUnlock?
  }

  predicate Closes(pc: Pc) {
    pc.CloseLock? || pc.CloseSet? || pc.CloseSignal? || pc.CloseUnlock?
  }

  /** The next statement of the writer thread. */
  function WriterNext(s: State): State
    requires InBounds(s) && WriterEnabled(s)
  {
    if s.w.pc.Idle? then WriterStarts(s)
    else if Locking(s.w.pc) then WriteLocks(s)
    else if Testing(s.w.pc) then WriteTests(s)
    else if Copying(s.w.pc) then WriteCopies(s)
    else if Leaving(s.w.pc) then WriterLeaves(s)
    else WriterCloses(s)
  }

  /** The next statement of the reader thread. */
  function ReaderNext(s: State): State
    requires InBounds(s) && ReaderEnabled(s)
  {
    if s.r.pc.Idle? then ReaderStarts(s)
    else if Locking(s.r.pc) then ReadLocks(s)
    else if Testing(s.r.pc) then ReadTests(s)
    else if Copying(s.r.pc) then ReadCopies(s)
    else if Leaving(s.r.pc) then ReaderLeaves(s)
    else ReaderCloses(s)
  }

  predicate Enabled(s: State, m: Move) {
    match m
    case WriterStep => WriterEnabled(s)
    case ReaderStep => ReaderEnabled(s)
    case WriterSkip => s.w.pc == Idle && |s.w.calls| > 1
    case ReaderSkip => s.r.pc == Idle && |s.r.calls| > 1
    case WriterSpurious => s.w.pc == Asleep
    case ReaderSpurious => s.r.pc == Asleep
  }

  /** One move of the system. A client may leave out calls, but not its last one. */
  function Next(s: State, m: Move): State
    requires InBounds(s) && Enabled(s, m)
  {
    match m
    case WriterStep => WriterNext(s)
    case ReaderStep => ReaderNext(s)
    case WriterSkip => s.(w := s.w.(calls := s.w.calls[1..]), cut := true)
    case ReaderSkip => s.(r := s.r.(calls := s.r.calls[1..]))
    case WriterSpurious => SetW(s, Woken(Spurious))
    case ReaderSpurious => SetR(s, Woken(Spurious))
  }

  // ---------------------------------------------------------------- Invariant

  /** Statements which are executed while the mutex is held. */
  predicate Critical(pc: Pc) {
    pc.Test? || pc.Copy? || pc.Advance? || pc.Account? || pc.Signal? || pc.Unlock? || pc.GiveUp?
    || pc.CloseSet? || pc.CloseSignal? || pc.CloseUnlock?
  }

  /** Exactly the holder of the mutex is in a critical statement. */
  ghost predicate MutualExclusion(w: Pc, r: Pc, mutex: Mutex) {
    (Critical(w) <==> mutex == ByWriter) && (Critical(r) <==> mutex == ByReader)
  }

  /** Where the thread that holds the mutex is with its round of copying. */
  datatype Phase = Quiet | WriteAdvance(chunk: seq<Byte>) | WriteAccount(chunk: seq<Byte>)
                 | ReadAdvance(chunk: seq<Byte>) | ReadAccount(chunk: seq<Byte>)

  function PhaseOf(w: Pc, r: Pc): Phase {
    if w.Advance? then WriteAdvance(w.chunk)
    else if w.Account? then WriteAccount(w.chunk)
    else if r.Advance? then ReadAdvance(r.chunk)
    else if r.Account? then ReadAccount(r.chunk)
    else Quiet
  }

  /** The ring relation holds, except between the statements that restore it, and
      no byte gets lost, duplicated or reordered. */
  ghost predicate PhaseOk(phase: Phase, ring: Ring, written: seq<Byte>, delivered: seq<Byte>) {
    ring.InRange() &&
    match phase
    case Quiet => ring.Valid() && written == delivered + ring.Contents()
    case WriteAdvance(chunk) =>
      && ring.Valid() && written == delivered + ring.Contents()
      && 0 < |chunk| <= ring.Cap() - ring.size && ring.wpos + |chunk| <= ring.Cap()
      && ring.Window(ring.size + |chunk|) == ring.Contents() + chunk
    case WriteAccount(chunk) =>
      && 0 < |chunk| <= ring.Cap() - ring.size && written == delivered + ring.Contents()
      && ring.wpos == Wrap(ring.rpos + ring.size + |chunk|, ring.Cap())
      && ring.Window(ring.size + |chunk|) == ring.Contents() + chunk
    case ReadAdvance(chunk) =>
      && ring.Valid() && written == delivered + ring.Contents()
      && 0 < |chunk| <= ring.size && ring.rpos + |chunk| <= ring.Cap()
      && chunk == ring.ChunkOut(|chunk|)
    case ReadAccount(chunk) =>
      && 0 < |chunk| <= ring.size && ring.wpos == Wrap(ring.rpos + (ring.size - |chunk|), ring.Cap())
      && written == delivered + chunk + ring.Window(ring.size - |chunk|)
  }

  lemma CopyInPhase(ring: Ring, chunk: seq<Byte>, written: seq<Byte>, delivered: seq<Byte>)
    requires PhaseOk(Quiet, ring, written, delivered)
    requires 0 < |chunk| <= ring.Cap() - ring.size && ring.wpos + |chunk| <= ring.Cap()
    ensures PhaseOk(WriteAdvance(chunk), ring.CopiedIn(chunk), written, delivered)
  {
    CopiedInWindow(ring, chunk);
    var t := ring.CopiedIn(chunk);
    assert t.Contents() == t.Window(ring.size + |chunk|)[..ring.size];
  }

  lemma WriteAdvancePhase(ring: Ring, chunk: seq<Byte>, written: seq<Byte>, delivered: seq<Byte>)
    requires PhaseOk(WriteAdvance(chunk), ring, written, delivered)
    ensures PhaseOk(WriteAccount(chunk), ring.WriteAdvanced(|chunk|), written, delivered)
  {
    var t := ring.WriteAdvanced(|chunk|);
    assert forall k :: 0 <= k < ring.size + |chunk| ==> ring.At(k) == t.At(k);
    assert t.Window(ring.size + |chunk|) == ring.Window(ring.size + |chunk|);
    assert t.Contents() == ring.Contents();
  }

  lemma GrowPhase(ring: Ring, chunk: seq<Byte>, written: seq<Byte>, delivered: seq<Byte>)
    requires PhaseOk(WriteAccount(chunk), ring, written, delivered)
    ensures PhaseOk(Quiet, ring.Grown(|chunk|), written + chunk, delivered)
  {
    var t := ring.Grown(|chunk|);
    assert forall k :: 0 <= k < ring.size + |chunk| ==> ring.At(k) == t.At(k);
    assert t.Contents() == ring.Window(ring.size + |chunk|);
  }

  lemma CopyOutPhase(ring: Ring, len: nat, written: seq<Byte>, delivered: seq<Byte>)
    requires PhaseOk(Quiet, ring, written, delivered)
    requires 0 < len <= ring.size && ring.rpos + len <= ring.Cap()
    ensures PhaseOk(ReadAdvance(ring.ChunkOut(len)), ring, written, delivered)
  {
  }

  lemma ReadAdvancePhase(ring: Ring, chunk: seq<Byte>, written: seq<Byte>, delivered: seq<Byte>)
    requires PhaseOk(ReadAdvance(chunk), ring, written, delivered)
    ensures PhaseOk(ReadAccount(chunk), ring.ReadAdvanced(|chunk|), written, delivered)
  {
    TakenWindow(ring, |chunk|);
    assert ring.Contents() == ring.Contents()[..|chunk|] + ring.Contents()[|chunk|..];
  }

  lemma ShrinkPhase(ring: Ring, chunk: seq<Byte>, written: seq<Byte>, delivered: seq<Byte>)
    requires PhaseOk(ReadAccount(chunk), ring, written, delivered)
    ensures PhaseOk(Quiet, ring.Shrunk(|chunk|), written, delivered + chunk)
  {
    var t := ring.Shrunk(|chunk|);
    assert forall k :: 0 <= k < t.size ==> ring.At(k) == t.At(k);
    assert t.Contents() == ring.Window(ring.size - |chunk|);
  }

  /** The writer stays within the bytes of its call and within the free space. */
  ghost predicate WriterBounds(w: WriterThread, ring: Ring) {
    && w.done <= |w.data| && ring.size <= ring.Cap()
    && (w.pc.Test? || w.pc.Asleep? || w.pc.Woken? || w.pc.Copy? ==> w.done < |w.data|)
    && (w.pc.Copy? ==> ring.size < ring.Cap())
    && (w.pc.Advance? ==> ring.wpos + |w.pc.chunk| <= ring.Cap())
    && (w.pc.Advance? || w.pc.Account? ==>
          0 < |w.pc.chunk| <= |w.data| - w.done && ring.size + |w.pc.chunk| <= ring.Cap())
  }

  /** The reader stays within the bytes of its call and within the buffered bytes. */
  ghost predicate ReaderBounds(r: ReaderThread, ring: Ring) {
    && r.done <= r.count && (r.pc.Idle? || Closes(r.pc) ==> r.done == r.count)
    && (r.pc.Test? || r.pc.Asleep? || r.pc.Woken? || r.pc.Copy? ==> r.done < r.count)
    && (r.pc.Copy? ==> ring.size > 0)
    && (r.pc.Advance? ==> ring.rpos + |r.pc.chunk| <= ring.Cap())
    && (r.pc.Advance? || r.pc.Account? ==> 0 < |r.pc.chunk| <= r.count - r.done && |r.pc.chunk| <= ring.size)
  }

  /** All bytes of the write calls were copied in or are still to do in the call under way. */
  ghost predicate AllIssued(w: WriterThread, written: seq<Byte>, issued: seq<Byte>, cut: bool) {
    && w.done <= |w.data|
    && (w.pc.Idle? || Closes(w.pc) ==> w.done == |w.data|)
    && (w.pc.Advance? || w.pc.Account? ==>
          w.done + |w.pc.chunk| <= |w.data| && w.pc.chunk == w.data[w.done..w.done + |w.pc.chunk|])
    && (!cut ==> written + w.data[w.done..] == issued)
  }

  predicate WasSignalled(pc: Pc) {
    match pc
    case Woken(wake) => wake.Signalled?
    case Test(wake) => wake.Signalled?
    case _ => false
  }

  /** The thread is about to signal the other one. */
  predicate Signals(pc: Pc) {
    pc.Signal? || pc.CloseSignal?
  }

  /** The negations of the two wait conditions. */
  predicate WriterMayGo(s: State) {
    s.ring.size != s.ring.Cap() || !s.rend.Open?
  }

  predicate ReaderMayGo(s: State) {
    s.ring.size != 0 || !s.wend.Open?
  }

  /** No wakeup gets lost: a thread sleeps only as long as its wait condition is true, except while
      the other thread is about to signal it. A signalled thread will not sleep again. */
  ghost predicate NoLostWakeup(pc: Pc, other: Pc, mayGo: bool) {
    && (pc.Asleep? ==> !mayGo || Signals(other))
    && (Signals(other) ==> mayGo)
    && (WasSignalled(pc) ==> mayGo)
  }

  /** The last call of each thread is its close call. */
  ghost predicate WriterWillClose(pc: Pc, calls: seq<WriterCall>, wend: End) {
    !wend.Open? || pc.CloseLock? || pc.CloseSet? || (calls != [] && calls[|calls| - 1].WriterClose?)
  }

  ghost predicate ReaderWillClose(pc: Pc, calls: seq<ReaderCall>, rend: End) {
    !rend.Open? || pc.CloseLock? || pc.CloseSet? || (calls != [] && calls[|calls| - 1].ReaderClose?)
  }

  /** End of file is reported only after the writer closed. */
  ghost predicate EofIsTrue(pc: Pc, wend: End, size: nat, eof: bool) {
    (pc.GiveUp? ==> !wend.Open? && size == 0) && (eof ==> !wend.Open?)
  }

  /** The mutex and the waits are in order. */
  ghost predicate InSync(s: State) {
    && MutualExclusion(s.w.pc, s.r.pc, s.mutex)
    && NoLostWakeup(s.w.pc, s.r.pc, WriterMayGo(s)) && NoLostWakeup(s.r.pc, s.w.pc, ReaderMayGo(s))
  }

  /** The invariant. It implies that the next statement of each thread stays within bounds. */
  ghost predicate Inv(s: State): (ok: bool)
    ensures ok ==> InBounds(s)
  {
    && s.ring.InRange() && InSync(s)
    && PhaseOk(PhaseOf(s.w.pc, s.r.pc), s.ring, s.written, s.delivered)
    && WriterBounds(s.w, s.ring) && ReaderBounds(s.r, s.ring)
    && AllIssued(s.w, s.written, s.issued, s.cut)
    && WriterWillClose(s.w.pc, s.w.calls, s.wend) && ReaderWillClose(s.r.pc, s.r.calls, s.rend)
    && EofIsTrue(s.r.pc, s.wend, s.ring.size, s.eof)
  }

  ghost predicate Closing(wcalls: seq<WriterCall>, rcalls: seq<ReaderCall>) {
    && wcalls != [] && wcalls[|wcalls| - 1].WriterClose?
    && rcalls != [] && rcalls[|rcalls| - 1].ReaderClose?
  }

  function Init(cap: nat, wcalls: seq<WriterCall>, rcalls: seq<ReaderCall>): State {
    State(Ring(seq(cap, _ => 0), 0, 0, 0), Open, Open, Free, WriterThread(Idle, wcalls, [], 0),
          ReaderThread(Idle, rcalls, 0, 0), [], [], [], false, false)
  }

  lemma InitInv(cap: nat, wcalls: seq<WriterCall>, rcalls: seq<ReaderCall>)
    requires cap > 0 && Closing(wcalls, rcalls)
    ensures Inv(Init(cap, wcalls, rcalls))
  {
  }

  lemma WriterStartsKeepsInv(s: State)
    requires Inv(s) && s.w.pc.Idle? && s.w.calls != []
    ensures Inv(WriterStarts(s))
  {
    hide PhaseOk, ReaderBounds, ReaderWillClose, EofIsTrue;
  }

  lemma WriteLocksKeepsSync(s: State)
    requires Inv(s) && Locking(s.w.pc) && WriterEnabled(s)
    ensures InSync(WriteLocks(s))
  {
    hide PhaseOk, AllIssued, ReaderBounds, ReaderWillClose, WriterWillClose, EofIsTrue;
  }

  lemma WriteLocksKeepsInv(s: State)
    requires Inv(s) && Locking(s.w.pc) && WriterEnabled(s)
    ensures Inv(WriteLocks(s))
  {
    hide InSync, PhaseOk, ReaderBounds, ReaderWillClose, EofIsTrue;
    WriteLocksKeepsSync(s);
  }

  lemma WriteTestsKeepsInv(s: State)
    requires Inv(s) && Testing(s.w.pc)
    ensures Inv(WriteTests(s))
  {
    hide PhaseOk, ReaderBounds, ReaderWillClose, EofIsTrue;
  }

  lemma WriterLeavesKeepsSync(s: State)
    requires Inv(s) && Leaving(s.w.pc)
    ensures InSync(WriterLeaves(s))
  {
    hide PhaseOk, AllIssued, ReaderBounds, ReaderWillClose, WriterWillClose, EofIsTrue;
  }

  lemma WriterLeavesKeepsInv(s: State)
    requires Inv(s) && Leaving(s.w.pc)
    ensures Inv(WriterLeaves(s))
  {
    hide InSync, PhaseOk;
    WriterLeavesKeepsSync(s);
  }

  lemma WriterClosesKeepsInv(s: State)
    requires Inv(s) && WriterEnabled(s) && (s.w.pc.CloseLock? || s.w.pc.CloseSet?)
    ensures Inv(WriterCloses(s))
  {
    hide PhaseOk, ReaderBounds, ReaderWillClose;
  }

  lemma ReaderStartsKeepsInv(s: State)
    requires Inv(s) && s.r.pc.Idle? && s.r.calls != []
    ensures Inv(ReaderStarts(s))
  {
    hide PhaseOk, WriterBounds, AllIssued, WriterWillClose;
  }

  lemma ReadLocksKeepsSync(s: State)
    requires Inv(s) && Locking(s.r.pc) && ReaderEnabled(s)
    ensures InSync(ReadLocks(s))
  {
    hide PhaseOk, AllIssued, WriterBounds, ReaderWillClose, WriterWillClose, EofIsTrue;
  }

  lemma ReadLocksKeepsInv(s: State)
    requires Inv(s) && Locking(s.r.pc) && ReaderEnabled(s)
    ensures Inv(ReadLocks(s))
  {
    hide InSync, PhaseOk, WriterBounds, AllIssued, WriterWillClose;
    ReadLocksKeepsSync(s);
  }

  lemma ReadTestsKeepsInv(s: State)
    requires Inv(s) && Testing(s.r.pc)
    ensures Inv(ReadTests(s))
  {
    hide PhaseOk, WriterBounds, AllIssued, WriterWillClose;
  }

  lemma ReaderLeavesKeepsSync(s: State)
    requires Inv(s) && Leaving(s.r.pc)
    ensures InSync(ReaderLeaves(s))
  {
    hide PhaseOk, AllIssued, WriterBounds, ReaderWillClose, WriterWillClose, EofIsTrue;
  }

  lemma ReaderLeavesKeepsInv(s: State)
    requires Inv(s) && Leaving(s.r.pc)
    ensures Inv(ReaderLeaves(s))
  {
    hide InSync, PhaseOk;
    ReaderLeavesKeepsSync(s);
  }

  lemma ReaderClosesKeepsInv(s: State)
    requires Inv(s) && ReaderEnabled(s) && (s.r.pc.CloseLock? || s.r.pc.CloseSet?)
    ensures Inv(ReaderCloses(s))
  {
    hide PhaseOk, WriterBounds, AllIssued, WriterWillClose;
  }

  lemma WriteCopiesPhase(s: State)
    requires Inv(s) && Copying(s.w.pc)
    ensures var t := WriteCopies(s); PhaseOk(PhaseOf(t.w.pc, t.r.pc), t.ring, t.written, t.delivered)
  {
    hide PhaseOk, AllIssued, ReaderBounds, ReaderWillClose, WriterWillClose, EofIsTrue, NoLostWakeup;
    var ring, w := s.ring, s.w;
    if w.pc.Copy? {
      var chunk := w.data[w.done..w.done + ring.InLen(|w.data| - w.done)];
      CopyInPhase(ring, chunk, s.written, s.delivered);
    } else if w.pc.Advance? {
      WriteAdvancePhase(ring, w.pc.chunk, s.written, s.delivered);
    } else {
      GrowPhase(ring, w.pc.chunk, s.written, s.delivered);
    }
  }

  lemma WriteCopiesIssued(s: State)
    requires Inv(s) && Copying(s.w.pc)
    ensures var t := WriteCopies(s); AllIssued(t.w, t.written, t.issued, t.cut)
  {
    hide InSync, PhaseOk, AllIssued, ReaderBounds, ReaderWillClose, WriterWillClose, EofIsTrue;
    if s.w.pc.Copy? {
      CopyIssued(s.w, s.ring.InLen(|s.w.data| - s.w.done), s.written, s.issued, s.cut);
    } else if s.w.pc.Advance? {
      AdvanceIssued(s.w, s.written, s.issued, s.cut);
    } else {
      GrowIssued(s.w, s.written, s.issued, s.cut);
    }
  }

  lemma CopyIssued(w: WriterThread, len: nat, written: seq<Byte>, issued: seq<Byte>, cut: bool)
    requires AllIssued(w, written, issued, cut) && w.pc.Copy? && w.done + len <= |w.data|
    ensures AllIssued(w.(pc := Advance(w.data[w.done..w.done + len])), written, issued, cut)
  {
  }

  lemma AdvanceIssued(w: WriterThread, written: seq<Byte>, issued: seq<Byte>, cut: bool)
    requires AllIssued(w, written, issued, cut) && w.pc.Advance?
    ensures AllIssued(w.(pc := Account(w.pc.chunk)), written, issued, cut)
  {
  }

  lemma GrowIssued(w: WriterThread, written: seq<Byte>, issued: seq<Byte>, cut: bool)
    requires AllIssued(w, written, issued, cut) && w.pc.Account?
    ensures AllIssued(w.(pc := Signal, done := w.done + |w.pc.chunk|), written + w.pc.chunk, issued, cut)
  {
    assert w.data[w.done..] == w.pc.chunk + w.data[w.done + |w.pc.chunk|..];
  }

  lemma WriteCopiesKeepsSync(s: State)
    requires Inv(s) && Copying(s.w.pc)
    ensures var t := WriteCopies(s); InSync(t) && EofIsTrue(t.r.pc, t.wend, t.ring.size, t.eof)
  {
    hide PhaseOk, AllIssued, ReaderBounds, ReaderWillClose, WriterWillClose;
  }

  lemma WriteCopiesKeepsInv(s: State)
    requires Inv(s) && Copying(s.w.pc)
    ensures Inv(WriteCopies(s))
  {
    hide InSync, PhaseOk, AllIssued, ReaderWillClose, EofIsTrue;
    WriteCopiesKeepsSync(s);
    WriteCopiesPhase(s);
    WriteCopiesIssued(s);
  }

  lemma ReadCopiesPhase(s: State)
    requires Inv(s) && Copying(s.r.pc)
    ensures var t := ReadCopies(s); PhaseOk(PhaseOf(t.w.pc, t.r.pc), t.ring, t.written, t.delivered)
  {
    hide PhaseOk, AllIssued, WriterBounds, ReaderWillClose, WriterWillClose, EofIsTrue, NoLostWakeup;
    var ring, r := s.ring, s.r;
    if r.pc.Copy? {
      CopyOutPhase(ring, ring.OutLen(r.count - r.done), s.written, s.delivered);
    } else if r.pc.Advance? {
      ReadAdvancePhase(ring, r.pc.chunk, s.written, s.delivered);
    } else {
      ShrinkPhase(ring, r.pc.chunk, s.written, s.delivered);
    }
  }

  lemma ReadCopiesKeepsSync(s: State)
    requires Inv(s) && Copying(s.r.pc)
    ensures InSync(ReadCopies(s))
  {
    hide PhaseOk, AllIssued, WriterBounds, ReaderWillClose, WriterWillClose, EofIsTrue;
  }

  lemma ReadCopiesKeepsInv(s: State)
    requires Inv(s) && Copying(s.r.pc)
    ensures Inv(ReadCopies(s))
  {
    hide InSync, PhaseOk, AllIssued, WriterWillClose;
    ReadCopiesKeepsSync(s);
    ReadCopiesPhase(s);
  }

  lemma NextKeepsInv(s: State, m: Move)
    requires Inv(s) && Enabled(s, m)
    ensures Inv(Next(s, m))
  {
    match m
    case WriterStep =>
      hide Inv;
      if s.w.pc.Idle? { WriterStartsKeepsInv(s); }
      else if Locking(s.w.pc) { WriteLocksKeepsInv(s); }
      else if Testing(s.w.pc) { WriteTestsKeepsInv(s); }
      else if Copying(s.w.pc) { WriteCopiesKeepsInv(s); }
      else if Leaving(s.w.pc) { WriterLeavesKeepsInv(s); }
      else { WriterClosesKeepsInv(s); }
    case ReaderStep =>
      hide Inv;
      if s.r.pc.Idle? { ReaderStartsKeepsInv(s); }
      else if Locking(s.r.pc) { ReadLocksKeepsInv(s); }
      else if Testing(s.r.pc) { ReadTestsKeepsInv(s); }
      else if Copying(s.r.pc) { ReadCopiesKeepsInv(s); }
      else if Leaving(s.r.pc) { ReaderLeavesKeepsInv(s); }
      else { ReaderClosesKeepsInv(s); }
    case _ =>
      hide PhaseOk;
  }

  // ---------------------------------------------------------------- Runs

  /** The moves lead from s to t, each of them being possible when its turn comes. */
  ghost predicate IsRun(s: State, moves: seq<Move>, t: State)
    decreases |moves|
  {
    if moves == [] then s == t
    else InBounds(s) && Enabled(s, moves[0]) && IsRun(Next(s, moves[0]), moves[1..], t)
  }

  lemma {:induction false} RunKeepsInv(s: State, moves: seq<Move>, t: State)
    requires Inv(s) && IsRun(s, moves, t)
    ensures Inv(t)
    decreases |moves|
  {
    if moves != [] {
      NextKeepsInv(s, moves[0]);
      RunKeepsInv(Next(s, moves[0]), moves[1..], t);
    }
  }

  lemma DeliveredFirst(phase: Phase, ring: Ring, written: seq<Byte>, delivered: seq<Byte>)
    requires PhaseOk(phase, ring, written, delivered)
    ensures delivered <= written
  {
    if phase.ReadAccount? {
      assert written == delivered + (phase.chunk + ring.Window(ring.size - |phase.chunk|));
    }
  }

  /** In every interleaving: while the mutex is free, the ring relation holds, and the bytes handed
      to the reader followed by the buffered bytes are the bytes copied in so far. If no write call
      ended early, then these are the beginning of what the write calls submitted. */
  lemma BytesConserved(cap: nat, wcalls: seq<WriterCall>, rcalls: seq<ReaderCall>, moves: seq<Move>, t: State)
    requires cap > 0 && Closing(wcalls, rcalls) && IsRun(Init(cap, wcalls, rcalls), moves, t)
    ensures t.mutex == Free ==> t.ring.Valid() && t.written == t.delivered + t.ring.Contents()
    ensures !t.cut ==> t.written <= t.issued
    ensures t.delivered <= t.written
  {
    InitInv(cap, wcalls, rcalls);
    RunKeepsInv(Init(cap, wcalls, rcalls), moves, t);
    assert !t.cut ==> t.written + t.w.data[t.w.done..] == t.issued;
    DeliveredFirst(PhaseOf(t.w.pc, t.r.pc), t.ring, t.written, t.delivered);
  }

  /** The two threads never are in critical statements at the same time. */
  lemma NeverBothCritical(cap: nat, wcalls: seq<WriterCall>, rcalls: seq<ReaderCall>, moves: seq<Move>, t: State)
    requires cap > 0 && Closing(wcalls, rcalls) && IsRun(Init(cap, wcalls, rcalls), moves, t)
    ensures !(Critical(t.w.pc) && Critical(t.r.pc))
    ensures t.mutex == Free <==> !Critical(t.w.pc) && !Critical(t.r.pc)
  {
    InitInv(cap, wcalls, rcalls);
    RunKeepsInv(Init(cap, wcalls, rcalls), moves, t);
  }

  /** When the read call is about to report end of file, the writer has closed and every byte that
      was copied in is delivered. */
  lemma EofMeansAllDelivered(cap: nat, wcalls: seq<WriterCall>, rcalls: seq<ReaderCall>, moves: seq<Move>, t: State)
    requires cap > 0 && Closing(wcalls, rcalls) && IsRun(Init(cap, wcalls, rcalls), moves, t)
    requires t.r.pc == GiveUp
    ensures t.wend != Open && t.delivered == t.written
  {
    InitInv(cap, wcalls, rcalls);
    RunKeepsInv(Init(cap, wcalls, rcalls), moves, t);
  }

  /** While the mutex is free, a sleeping thread has a reason to sleep. */
  lemma SleepsForAReason(cap: nat, wcalls: seq<WriterCall>, rcalls: seq<ReaderCall>, moves: seq<Move>, t: State)
    requires cap > 0 && Closing(wcalls, rcalls) && IsRun(Init(cap, wcalls, rcalls), moves, t)
    requires t.mutex == Free
    ensures t.w.pc == Asleep ==> t.ring.size == t.ring.Cap() && t.rend == Open
    ensures t.r.pc == Asleep ==> t.ring.size == 0 && t.wend == Open
    ensures !(t.w.pc == Asleep && t.r.pc == Asleep)
  {
    InitInv(cap, wcalls, rcalls);
    RunKeepsInv(Init(cap, wcalls, rcalls), moves, t);
  }

  /** Both clients are through. */
  predicate Finished(s: State) {
    s.w.pc.Idle? && s.w.calls == [] && s.r.pc.Idle? && s.r.calls == []
  }

  /** No deadlock: as long as not both clients are through, some thread can execute its next statement. */
  lemma NoDeadlock(s: State)
    requires Inv(s) && !Finished(s)
    ensures WriterEnabled(s) || ReaderEnabled(s)
  {
    hide PhaseOk, AllIssued;
    assert s.mutex.Free? || s.mutex.ByWriter? || s.mutex.ByReader?;
  }

  // ---------------------------------------------------------------- Termination

  function Rank(pc: Pc): nat {
    match pc
    case Idle => 0
    case Top => 12
    case Test(wake) => (match wake case Fresh => 11 case Signalled => 6 case Spurious => 9)
    case Asleep => 8
    case Woken(wake) => (match wake case Fresh => 12 case Signalled => 7 case Spurious => 10)
    case Copy => 5
    case Advance(_) => 4
    case Account(_) => 3
    case Signal => 14
    case Unlock => 13
    case GiveUp => 1
    case CloseLock(_) => 4
    case CloseSet(_) => 3
    case CloseSignal => 2
    case CloseUnlock => 1
  }

  function WriterWork(calls: seq<WriterCall>): nat {
    if calls == [] then 0
    else (match calls[0] case Write(data) => 20 * |data| + 13 case WriterClose(_) => 5) + WriterWork(calls[1..])
  }

  function ReaderWork(calls: seq<ReaderCall>): nat {
    if calls == [] then 0
    else (match calls[0] case Read(count) => 20 * count + 13 case ReaderClose(_) => 5) + ReaderWork(calls[1..])
  }

  function WriterMeasure(w: WriterThread): nat
    requires w.done <= |w.data|
  {
    WriterWork(w.calls) + Rank(w.pc) + 20 * (|w.data| - w.done)
  }

  function ReaderMeasure(r: ReaderThread): nat
    requires r.done <= r.count
  {
    ReaderWork(r.calls) + Rank(r.pc) + 20 * (r.count - r.done)
  }

  /** An upper bound for the number of statements still to be executed. */
  function Measure(s: State): nat
    requires s.w.done <= |s.w.data| && s.r.done <= s.r.count
  {
    WriterMeasure(s.w) + ReaderMeasure(s.r)
  }

  predicate IsSpurious(m: Move) {
    m.WriterSpurious? || m.ReaderSpurious?
  }

  lemma WriterStartsWorks(s: State)
    requires s.w.pc.Idle? && s.w.calls != [] && s.w.done == |s.w.data|
    ensures var t := WriterStarts(s);
      t.r == s.r && t.w.done <= |t.w.data| && WriterMeasure(t.w) < WriterMeasure(s.w)
  {
  }

  lemma WriteLocksWorks(s: State)
    requires Locking(s.w.pc) && s.w.done <= |s.w.data|
    ensures var t := WriteLocks(s);
      t.r == s.r && t.w.done <= |t.w.data| && WriterMeasure(t.w) < WriterMeasure(s.w)
  {
  }

  lemma WriteTestsWorks(s: State)
    requires Testing(s.w.pc) && s.w.done <= |s.w.data| && (WasSignalled(s.w.pc) ==> WriterMayGo(s))
    ensures var t := WriteTests(s);
      t.r == s.r && t.w.done <= |t.w.data| && WriterMeasure(t.w) < WriterMeasure(s.w)
  {
  }

  lemma WriteCopiesWorks(s: State)
    requires InBounds(s) && WriterBounds(s.w, s.ring) && Copying(s.w.pc)
    ensures var t := WriteCopies(s);
      t.r == s.r && t.w.done <= |t.w.data| && WriterMeasure(t.w) < WriterMeasure(s.w)
  {
  }

  lemma WriterClosesWorks(s: State)
    requires (s.w.pc.CloseLock? || s.w.pc.CloseSet?) && s.w.done <= |s.w.data|
    ensures var t := WriterCloses(s);
      t.r == s.r && t.w.done <= |t.w.data| && WriterMeasure(t.w) < WriterMeasure(s.w)
  {
  }

  lemma WriterLeavesWorks(s: State)
    requires Leaving(s.w.pc) && s.w.done <= |s.w.data| && s.r.done <= s.r.count
    ensures var t := WriterLeaves(s);
      t.w.done <= |t.w.data| && t.r.done <= t.r.count && Measure(t) < Measure(s)
  {
  }

  lemma WriterWorks(s: State)
    requires Inv(s) && WriterEnabled(s)
    ensures var t := WriterNext(s); t.w.done <= |t.w.data| && t.r.done <= t.r.count && Measure(t) < Measure(s)
  {
    if s.w.pc.Idle? { WriterStartsWorks(s); }
    else if Locking(s.w.pc) { WriteLocksWorks(s); }
    else if Testing(s.w.pc) { WriteTestsWorks(s); }
    else if Copying(s.w.pc) { WriteCopiesWorks(s); }
    else if Leaving(s.w.pc) { WriterLeavesWorks(s); }
    else { WriterClosesWorks(s); }
    hide Inv, WriterStarts, WriteLocks, WriteTests, WriteCopies, WriterLeaves, WriterCloses, WriterMeasure,
         ReaderMeasure, WriterBounds;
  }

  lemma ReaderStartsWorks(s: State)
    requires s.r.pc.Idle? && s.r.calls != [] && s.r.done == s.r.count
    ensures var t := ReaderStarts(s);
      t.w == s.w && t.r.done <= t.r.count && ReaderMeasure(t.r) < ReaderMeasure(s.r)
  {
  }

  lemma ReadLocksWorks(s: State)
    requires Locking(s.r.pc) && s.r.done <= s.r.count
    ensures var t := ReadLocks(s);
      t.w == s.w && t.r.done <= t.r.count && ReaderMeasure(t.r) < ReaderMeasure(s.r)
  {
  }

  lemma ReadTestsWorks(s: State)
    requires Testing(s.r.pc) && s.r.done <= s.r.count && (WasSignalled(s.r.pc) ==> ReaderMayGo(s))
    ensures var t := ReadTests(s);
      t.w == s.w && t.r.done <= t.r.count && ReaderMeasure(t.r) < ReaderMeasure(s.r)
  {
  }

  lemma ReadCopiesWorks(s: State)
    requires InBounds(s) && ReaderBounds(s.r, s.ring) && Copying(s.r.pc)
    ensures var t := ReadCopies(s);
      t.w == s.w && t.r.done <= t.r.count && ReaderMeasure(t.r) < ReaderMeasure(s.r)
  {
  }

  lemma ReaderClosesWorks(s: State)
    requires (s.r.pc.CloseLock? || s.r.pc.CloseSet?) && s.r.done <= s.r.count
    ensures var t := ReaderCloses(s);
      t.w == s.w && t.r.done <= t.r.count && ReaderMeasure(t.r) < ReaderMeasure(s.r)
  {
  }

  lemma ReaderLeavesWorks(s: State)
    requires Leaving(s.r.pc) && s.w.done <= |s.w.data| && s.r.done <= s.r.count
    ensures var t := ReaderLeaves(s);
      t.w.done <= |t.w.data| && t.r.done <= t.r.count && Measure(t) < Measure(s)
  {
  }

  lemma ReaderWorks(s: State)
    requires Inv(s) && ReaderEnabled(s)
    ensures var t := ReaderNext(s); t.w.done <= |t.w.data| && t.r.done <= t.r.count && Measure(t) < Measure(s)
  {
    if s.r.pc.Idle? { ReaderStartsWorks(s); }
    else if Locking(s.r.pc) { ReadLocksWorks(s); }
    else if Testing(s.r.pc) { ReadTestsWorks(s); }
    else if Copying(s.r.pc) { ReadCopiesWorks(s); }
    else if Leaving(s.r.pc) { ReaderLeavesWorks(s); }
    else { ReaderClosesWorks(s); }
    hide Inv, ReaderStarts, ReadLocks, ReadTests, ReadCopies, ReaderLeaves, ReaderCloses, ReaderMeasure, WriterMeasure,
         ReaderBounds;
  }

  /** Each move but a spurious wakeup brings the system closer to its end. */
  lemma MeasureDecreases(s: State, m: Move)
    requires Inv(s) && Enabled(s, m)
    ensures var t := Next(s, m);
      && t.w.done <= |t.w.data| && t.r.done <= t.r.count
      && if IsSpurious(m) then Measure(t) == Measure(s) + 2 else Measure(t) < Measure(s)
  {
    match m
    case WriterStep => WriterWorks(s);
    case ReaderStep => ReaderWorks(s);
    case _ =>
  }

  function SpuriousCount(moves: seq<Move>): nat {
    if moves == [] then 0 else (if IsSpurious(moves[0]) then 1 else 0) + SpuriousCount(moves[1..])
  }

  /** Every run is finite: its length is bounded by the work of the clients and three times the
      number of spurious wakeups. With NoDeadlock, the system always gets to its end. */
  lemma {:induction false} RunsEnd(s: State, moves: seq<Move>, t: State)
    requires Inv(s) && IsRun(s, moves, t)
    ensures s.w.done <= |s.w.data| && s.r.done <= s.r.count
    ensures |moves| <= Measure(s) + 3 * SpuriousCount(moves)
    decreases |moves|
  {
    if moves != [] {
      NextKeepsInv(s, moves[0]);
      MeasureDecreases(s, moves[0]);
      RunsEnd(Next(s, moves[0]), moves[1..], t);
    }
  }

  // ---------------------------------------------------------------- Outcome

  /** What all the write calls submit. */
  function AllData(calls: seq<WriterCall>): seq<Byte> {
    if calls == [] then []
    else (match calls[0] case Write(data) => data case WriterClose(_) => []) + AllData(calls[1..])
  }

  /** The writer closes once, by its last call. */
  ghost predicate ClosesLast(calls: seq<WriterCall>) {
    forall k :: 0 <= k < |calls| - 1 ==> calls[k].Write?
  }

  ghost predicate ClosedIsThrough(pc: Pc, calls: seq<WriterCall>, wend: End) {
    && ClosesLast(calls)
    && (Closes(pc) || !wend.Open? ==> calls == [])
    && (!wend.Open? ==> pc.Idle? || pc.CloseSignal? || pc.CloseUnlock?)
  }

  ghost predicate StillToIssue(issued: seq<Byte>, calls: seq<WriterCall>, cut: bool, all: seq<Byte>) {
    !cut ==> issued + AllData(calls) == all
  }

  ghost predicate OutcomeInv(s: State, all: seq<Byte>) {
    && ClosedIsThrough(s.w.pc, s.w.calls, s.wend) && StillToIssue(s.issued, s.w.calls, s.cut, all)
    && (s.eof ==> s.ring.size == 0)
  }

  lemma WriterStartsOutcome(s: State, all: seq<Byte>)
    requires OutcomeInv(s, all) && s.w.pc.Idle? && s.w.calls != []
    ensures OutcomeInv(WriterStarts(s), all)
  {
    var c := s.w.calls[0];
    assert ClosesLast(s.w.calls[1..]);
    if c.Write? {
      assert (s.issued + c.data) + AllData(s.w.calls[1..]) == s.issued + (c.data + AllData(s.w.calls[1..]));
    } else {
      assert |s.w.calls| == 1;
      assert s.issued + AllData(s.w.calls) == s.issued;
    }
  }

  lemma InvEof(s: State)
    requires Inv(s)
    ensures EofIsTrue(s.r.pc, s.wend, s.ring.size, s.eof) && ReaderBounds(s.r, s.ring)
  {
    hide InSync, PhaseOk, AllIssued, EofIsTrue, ReaderBounds;
  }

  lemma WriteLocksOutcome(s: State, all: seq<Byte>)
    requires OutcomeInv(s, all) && Locking(s.w.pc)
    requires EofIsTrue(s.r.pc, s.wend, s.ring.size, s.eof)
    ensures OutcomeInv(WriteLocks(s), all)
  {
    hide ClosesLast, AllData;
  }

  lemma WriteTestsOutcome(s: State, all: seq<Byte>)
    requires OutcomeInv(s, all) && Testing(s.w.pc)
    requires EofIsTrue(s.r.pc, s.wend, s.ring.size, s.eof)
    ensures OutcomeInv(WriteTests(s), all)
  {
    hide ClosesLast, AllData;
  }

  lemma WriteCopiesOutcome(s: State, all: seq<Byte>)
    requires OutcomeInv(s, all) && Copying(s.w.pc)
    requires InBounds(s) && EofIsTrue(s.r.pc, s.wend, s.ring.size, s.eof)
    ensures OutcomeInv(WriteCopies(s), all)
  {
    hide ClosesLast, AllData;
  }

  lemma WriterLeavesOutcome(s: State, all: seq<Byte>)
    requires OutcomeInv(s, all) && Leaving(s.w.pc)
    requires EofIsTrue(s.r.pc, s.wend, s.ring.size, s.eof)
    ensures OutcomeInv(WriterLeaves(s), all)
  {
    hide ClosesLast, AllData;
  }

  lemma WriterClosesOutcome(s: State, all: seq<Byte>)
    requires OutcomeInv(s, all) && (s.w.pc.CloseLock? || s.w.pc.CloseSet?)
    requires EofIsTrue(s.r.pc, s.wend, s.ring.size, s.eof)
    ensures OutcomeInv(WriterCloses(s), all)
  {
    hide ClosesLast, AllData;
  }

  lemma WriterKeepsOutcome(s: State, all: seq<Byte>)
    requires Inv(s) && WriterEnabled(s) && OutcomeInv(s, all)
    ensures OutcomeInv(WriterNext(s), all)
  {
    hide *;
    InvEof(s);
    WriterKinds(s);
    if s.w.pc.Idle? { WriterStartsOutcome(s, all); }
    else if Locking(s.w.pc) { WriteLocksOutcome(s, all); }
    else if Testing(s.w.pc) { WriteTestsOutcome(s, all); }
    else if Copying(s.w.pc) { WriteCopiesOutcome(s, all); }
    else if Leaving(s.w.pc) { WriterLeavesOutcome(s, all); }
    else { WriterClosesOutcome(s, all); }
  }

  /** The kind of the next statement, if the thread can execute one */
  lemma WriterKinds(s: State)
    requires WriterEnabled(s) && InBounds(s)
    ensures s.w.pc.Idle? ==> s.w.calls != [] && WriterNext(s) == WriterStarts(s)
    ensures Locking(s.w.pc) ==> WriterNext(s) == WriteLocks(s)
    ensures Testing(s.w.pc) ==> WriterNext(s) == WriteTests(s)
    ensures Copying(s.w.pc) ==> WriterNext(s) == WriteCopies(s)
    ensures Leaving(s.w.pc) ==> WriterNext(s) == WriterLeaves(s)
    ensures !(s.w.pc.Idle? || Locking(s.w.pc) || Testing(s.w.pc) || Copying(s.w.pc) || Leaving(s.w.pc)) ==>
              (s.w.pc.CloseLock? || s.w.pc.CloseSet?) && WriterNext(s) == WriterCloses(s)
  {
    hide WriterStarts, WriteLocks, WriteTests, WriteCopies, WriterLeaves, WriterCloses, InBounds;
  }

  lemma ReaderStartsOutcome(s: State, all: seq<Byte>)
    requires OutcomeInv(s, all) && s.r.pc.Idle? && s.r.calls != []
    requires EofIsTrue(s.r.pc, s.wend, s.ring.size, s.eof)
    ensures OutcomeInv(ReaderStarts(s), all)
  {
    hide ClosesLast, StillToIssue;
  }

  lemma ReadLocksOutcome(s: State, all: seq<Byte>)
    requires OutcomeInv(s, all) && Locking(s.r.pc)
    requires EofIsTrue(s.r.pc, s.wend, s.ring.size, s.eof)
    ensures OutcomeInv(ReadLocks(s), all)
  {
    hide ClosesLast, StillToIssue;
  }

  lemma ReadTestsOutcome(s: State, all: seq<Byte>)
    requires OutcomeInv(s, all) && Testing(s.r.pc)
    requires EofIsTrue(s.r.pc, s.wend, s.ring.size, s.eof)
    ensures OutcomeInv(ReadTests(s), all)
  {
    hide ClosesLast, StillToIssue;
  }

  lemma ReadCopiesOutcome(s: State, all: seq<Byte>)
    requires OutcomeInv(s, all) && Copying(s.r.pc)
    requires InBounds(s) && ReaderBounds(s.r, s.ring) && EofIsTrue(s.r.pc, s.wend, s.ring.size, s.eof)
    ensures OutcomeInv(ReadCopies(s), all)
  {
    hide ClosesLast, StillToIssue;
  }

  lemma ReaderLeavesOutcome(s: State, all: seq<Byte>)
    requires OutcomeInv(s, all) && Leaving(s.r.pc)
    requires EofIsTrue(s.r.pc, s.wend, s.ring.size, s.eof)
    ensures OutcomeInv(ReaderLeaves(s), all)
  {
    hide ClosesLast, StillToIssue;
  }

  lemma ReaderClosesOutcome(s: State, all: seq<Byte>)
    requires OutcomeInv(s, all) && (s.r.pc.CloseLock? || s.r.pc.CloseSet?)
    requires EofIsTrue(s.r.pc, s.wend, s.ring.size, s.eof)
    ensures OutcomeInv(ReaderCloses(s), all)
  {
    hide ClosesLast, StillToIssue;
  }

  lemma ReaderKeepsOutcome(s: State, all: seq<Byte>)
    requires Inv(s) && ReaderEnabled(s) && OutcomeInv(s, all)
    ensures OutcomeInv(ReaderNext(s), all)
  {
    hide *;
    InvEof(s);
    ReaderKinds(s);
    if s.r.pc.Idle? { ReaderStartsOutcome(s, all); }
    else if Locking(s.r.pc) { ReadLocksOutcome(s, all); }
    else if Testing(s.r.pc) { ReadTestsOutcome(s, all); }
    else if Copying(s.r.pc) { ReadCopiesOutcome(s, all); }
    else if Leaving(s.r.pc) { ReaderLeavesOutcome(s, all); }
    else { ReaderClosesOutcome(s, all); }
  }

  lemma ReaderKinds(s: State)
    requires ReaderEnabled(s) && InBounds(s)
    ensures s.r.pc.Idle? ==> s.r.calls != [] && ReaderNext(s) == ReaderStarts(s)
    ensures Locking(s.r.pc) ==> ReaderNext(s) == ReadLocks(s)
    ensures Testing(s.r.pc) ==> ReaderNext(s) == ReadTests(s)
    ensures Copying(s.r.pc) ==> ReaderNext(s) == ReadCopies(s)
    ensures Leaving(s.r.pc) ==> ReaderNext(s) == ReaderLeaves(s)
    ensures !(s.r.pc.Idle? || Locking(s.r.pc) || Testing(s.r.pc) || Copying(s.r.pc) || Leaving(s.r.pc)) ==>
              (s.r.pc.CloseLock? || s.r.pc.CloseSet?) && ReaderNext(s) == ReaderCloses(s)
  {
    hide ReaderStarts, ReadLocks, ReadTests, ReadCopies, ReaderLeaves, ReaderCloses, InBounds;
  }

  lemma {:induction false} RunKeepsOutcome(s: State, moves: seq<Move>, t: State, all: seq<Byte>)
    requires Inv(s) && OutcomeInv(s, all) && IsRun(s, moves, t)
    ensures Inv(t) && OutcomeInv(t, all)
    decreases |moves|
  {
    if moves != [] {
      var m := moves[0];
      NextKeepsInv(s, m);
      match m {
        case WriterStep => WriterKeepsOutcome(s, all);
        case ReaderStep => ReaderKeepsOutcome(s, all);
        case WriterSkip => assert forall k :: 0 <= k < |s.w.calls| - 2 ==> s.w.calls[1..][k] == s.w.calls[k + 1];
        case _ =>
      }
      hide Inv, OutcomeInv;
      RunKeepsOutcome(Next(s, m), moves[1..], t, all);
    }
  }

  /** A complete transfer: when both clients are through, no write call was cut short or left out,
      and the reader saw the end of file, then the reader has got exactly what the writer submitted. */
  lemma CompleteTransfer(cap: nat, wcalls: seq<WriterCall>, rcalls: seq<ReaderCall>, moves: seq<Move>, t: State)
    requires cap > 0 && Closing(wcalls, rcalls) && ClosesLast(wcalls)
    requires IsRun(Init(cap, wcalls, rcalls), moves, t) && Finished(t) && !t.cut && t.eof
    ensures t.delivered == AllData(wcalls)
  {
    var s := Init(cap, wcalls, rcalls);
    InitInv(cap, wcalls, rcalls);
    assert [] + AllData(wcalls) == AllData(wcalls);
    RunKeepsOutcome(s, moves, t, AllData(wcalls));
    assert t.w.data[t.w.done..] == [];
  }
}
