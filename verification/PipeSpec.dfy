/**
  src/kernel/fs/pipe.c as a protocol.  Any number of tasks read from, write to and close
  the write side of one pipe; each step is one mutex or condition-variable operation (atomic
  under task_lock) or one access to the pipe by the owner of its mutex, and any task that
  is not blocked may take the next step.  The pipe has size PIPE_SIZE and its read end
  stays open.
*/
module PipeSpec {
  import opened Common
  import SemaphoreSpec

  const PIPE_SIZE: nat := 4096

  /** The two condition variables are the addresses of the two counters. */
  datatype Condition = OnRead | OnWrite

  /**
    PIPE_TYPE_UNBUFFERED reads up to n bytes, PIPE_TYPE_BUF_CHAR up to a delimiter, the low
    byte of the size argument.
  */
  datatype Mode = UpTo(n: nat) | Until(c: Byte)

  /** A byte read as a char, which is signed. */
  function SignedChar(c: Byte): int {
    if c < 128 then c else c - 256
  }

  /** The comparison that ends a delimited read: an unsigned byte of the ring with a signed char. */
  predicate Matches(mode: Mode, b: Byte) {
    mode.Until? && b == SignedChar(mode.c)
  }

  /** Where a task stands inside pipe_write, pipe_read or pipe_close. */
  datatype Code =
    | WriteLoop(data: seq<Byte>, i: nat)   // about to write data[i], or done
    | WriteSleep(data: seq<Byte>, i: nat)  // found the pipe full and signalled the readers
    | WriteSignal                          // all written
    | ReadOpen(mode: Mode)
    | ReadCheck(mode: Mode)
    | ReadSleep(mode: Mode)                // found the pipe empty and open
    | ReadLoop(mode: Mode, got: seq<Byte>)   // copied `got` to the caller so far
    | ReadSignal
    | CloseSet
    | CloseSignal
    | Exit                                 // about to release the mutex and return

  datatype Pc =
    | Idle
    | Contend(code: Code)                  // about to call mutex_acquire
    | Queued(code: Code)                   // blocked in the mutex queue
    | Owner(code: Code)
    | Asleep(on: Condition, code: Code)    // blocked in condvar_wait

  type Tid = nat

  /** How a read ended: with bytes left in the pipe, with none left, or at once with -1. */
  datatype Ending = Ample | Drained | Closed

  /** What one read returned. */
  datatype Reply = Reply(reader: Tid, mode: Mode, bytes: seq<Byte>, ending: Ending)

  /** `written` and `taken` record every byte ever stored in and read from the ring. */
  datatype Pipe = Pipe(
    buffer: seq<Byte>, bRead: nat, bWrite: nat, writeOpen: bool,
    pcs: map<Tid, Pc>, owner: Option<Tid>, queue: seq<Tid>,
    written: seq<Byte>, taken: seq<Byte>, replies: seq<Reply>)

  // ---------- One step ----------

  predicate IsEmpty(s: Pipe) {
    s.bRead == s.bWrite
  }

  predicate IsFull(s: Pipe) {
    s.bWrite == (s.bRead + PIPE_SIZE) % TWO32
  }

  function Goto(s: Pipe, t: Tid, pc: Pc): Pipe {
    s.(pcs := s.pcs[t := pc])
  }

  /** mutex_acquire. */
  function Acquire(s: Pipe, t: Tid, code: Code): Pipe {
    if s.owner.None?
    then Goto(s, t, Owner(code)).(owner := Some(t))
    else Goto(s, t, Queued(code)).(queue := s.queue + [t])
  }

  /** mutex_release: the first task in the queue becomes the owner. */
  function Release(s: Pipe): Pipe
    requires s.queue != [] ==> s.queue[0] in s.pcs && s.pcs[s.queue[0]].Queued?
  {
    if s.queue == [] then s.(owner := None)
    else Goto(s, s.queue[0], Owner(s.pcs[s.queue[0]].code)).(owner := Some(s.queue[0]), queue := s.queue[1..])
  }

  function Woken(pc: Pc, c: Condition): Pc {
    if pc.Asleep? && pc.on == c then Contend(pc.code) else pc
  }

  /** condvar_signal: every task asleep on the condition will compete for the mutex again. */
  function Signal(s: Pipe, c: Condition): Pipe {
    s.(pcs := map t | t in s.pcs :: Woken(s.pcs[t], c))
  }

  function Store(s: Pipe, b: Byte): Pipe
    requires |s.buffer| == PIPE_SIZE
  {
    s.(buffer := s.buffer[s.bWrite % PIPE_SIZE := b], bWrite := (s.bWrite + 1) % TWO32, written := s.written + [b])
  }

  function Head(s: Pipe): Byte
    requires |s.buffer| == PIPE_SIZE
  {
    s.buffer[s.bRead % PIPE_SIZE]
  }

  function Take(s: Pipe): Pipe
    requires |s.buffer| == PIPE_SIZE
  {
    s.(bRead := (s.bRead + 1) % TWO32, taken := s.taken + [Head(s)])
  }

  function EndingOf(s: Pipe): Ending {
    if IsEmpty(s) then Drained else Ample
  }

  /** The copy loop of a read ends with these bytes. */
  function Finish(s: Pipe, t: Tid, mode: Mode, bytes: seq<Byte>): Pipe {
    Goto(s, t, Owner(ReadSignal)).(replies := s.replies + [Reply(t, mode, bytes, EndingOf(s))])
  }

  /** A read of a pipe whose write side is closed returns -1. */
  function Refuse(s: Pipe, t: Tid, mode: Mode): Pipe {
    Goto(s, t, Owner(Exit)).(replies := s.replies + [Reply(t, mode, [], Closed)])
  }

  /** The queue holds blocked tasks only. */
  predicate QueueOk(s: Pipe) {
    forall t :: t in s.queue ==> t in s.pcs && s.pcs[t].Queued?
  }

  /** What the owner of the mutex does next. */
  function OwnerStep(s: Pipe, t: Tid, code: Code): Pipe
    requires |s.buffer| == PIPE_SIZE && QueueOk(s) && t !in s.queue
  {
    match code
    case WriteLoop(data, i) =>
      if i >= |data| then Goto(s, t, Owner(WriteSignal))
      else if IsFull(s) then Goto(Signal(s, OnRead), t, Owner(WriteSleep(data, i)))
      else Goto(Store(s, data[i]), t, Owner(WriteLoop(data, i + 1)))
    case WriteSleep(data, i) => Release(Goto(s, t, Asleep(OnWrite, WriteLoop(data, i))))
    case WriteSignal => Goto(Signal(s, OnRead), t, Owner(Exit))
    case ReadOpen(mode) => if s.writeOpen then Goto(s, t, Owner(ReadCheck(mode))) else Refuse(s, t, mode)
    case ReadCheck(mode) =>
      Goto(s, t, Owner(if IsEmpty(s) && s.writeOpen then ReadSleep(mode) else ReadLoop(mode, [])))
    case ReadSleep(mode) => Release(Goto(s, t, Asleep(OnRead, ReadLoop(mode, []))))
    case ReadLoop(mode, got) =>
      if (mode.UpTo? && |got| >= mode.n) || IsEmpty(s) then Finish(s, t, mode, got)
      else if Matches(mode, Head(s)) then Finish(Take(s), t, mode, got + [Head(s)])
      else Goto(Take(s), t, Owner(ReadLoop(mode, got + [Head(s)])))
    case ReadSignal => Goto(Signal(s, OnWrite), t, Owner(Exit))
    case CloseSet => Goto(s, t, Owner(CloseSignal)).(writeOpen := false)
    case CloseSignal => Goto(Signal(s, OnRead), t, Owner(Exit))
    case Exit => Release(Goto(s, t, Idle))
  }

  datatype Action = Write(t: Tid, data: seq<Byte>) | Read(t: Tid, mode: Mode) | Close(t: Tid) | Move(t: Tid)

  /** Idle tasks may start an operation; contenders and the owner may move; blocked tasks may not. */
  predicate Enabled(s: Pipe, a: Action) {
    a.t in s.pcs &&
    match a
    case Move(t) => s.pcs[t].Contend? || s.pcs[t].Owner?
    case _ => s.pcs[a.t].Idle?
  }

  function Step(s: Pipe, a: Action): Pipe
    requires |s.buffer| == PIPE_SIZE && QueueOk(s) && Enabled(s, a)
  {
    match a
    case Write(t, data) => Goto(s, t, Contend(WriteLoop(data, 0)))
    case Read(t, mode) => Goto(s, t, Contend(ReadOpen(mode)))
    case Close(t) => Goto(s, t, Contend(CloseSet))
    case Move(t) =>
      if s.pcs[t].Contend? then Acquire(s, t, s.pcs[t].code) else OwnerStep(s, t, s.pcs[t].code)
  }

  // ---------- The invariant ----------

  /** One owner at most; the queue lists exactly the tasks blocked on the mutex. */
  ghost predicate MutexInv(s: Pipe) {
    && (forall t :: t in s.pcs && s.pcs[t].Owner? ==> s.owner == Some(t))
    && (s.owner.Some? ==> s.owner.value in s.pcs && s.pcs[s.owner.value].Owner?)
    && QueueOk(s)
    && (forall t :: t in s.pcs && s.pcs[t].Queued? ==> t in s.queue)
    && Distinct(s.queue)
    && (s.queue != [] ==> s.owner.Some?)
  }

  /** The ring holds exactly what was written and not yet taken; the counters are 32 bits wide. */
  ghost predicate DataInv(s: Pipe) {
    && |s.buffer| == PIPE_SIZE
    && |s.taken| <= |s.written| <= |s.taken| + PIPE_SIZE
    && s.taken == s.written[..|s.taken|]
    && s.bRead == |s.taken| % TWO32 && s.bWrite == |s.written| % TWO32
    && (forall j :: |s.taken| <= j < |s.written| ==> s.buffer[j % PIPE_SIZE] == s.written[j])
  }

  ghost predicate Sleeps(s: Pipe, c: Condition) {
    exists t :: t in s.pcs && s.pcs[t].Asleep? && s.pcs[t].on == c
  }

  ghost predicate ReadersOk(s: Pipe) {
    Sleeps(s, OnRead) ==> IsEmpty(s) && s.writeOpen
  }

  ghost predicate WritersOk(s: Pipe) {
    Sleeps(s, OnWrite) ==> IsFull(s)
  }

  /** What the owner may have upset and has yet to signal. */
  ghost predicate SleepInv(s: Pipe) {
    match s.owner
    case None => ReadersOk(s) && WritersOk(s)
    case Some(t) => t in s.pcs && s.pcs[t].Owner? && SleepInvAt(s, s.pcs[t].code)
  }

  ghost predicate SleepInvAt(s: Pipe, code: Code) {
    && (code.WriteLoop? || code.WriteSignal? || code.CloseSignal? || ReadersOk(s))
    && (code.ReadLoop? || code.ReadSignal? || WritersOk(s))
    && (code.WriteSleep? ==> IsFull(s) && !Sleeps(s, OnRead))
    && (code.ReadSleep? ==> IsEmpty(s) && s.writeOpen)
  }

  /** A task that waits resumes at a point where it re-examines the pipe; sleepers are in their loops. */
  ghost predicate EntryOk(pc: Pc) {
    && (pc.Contend? || pc.Queued? ==> !pc.code.WriteSleep? && !pc.code.ReadSleep?)
    && (pc.Asleep? ==> if pc.on == OnWrite then pc.code.WriteLoop? else pc.code.ReadLoop?)
  }

  ghost predicate EntryInv(s: Pipe) {
    forall t :: t in s.pcs ==> EntryOk(s.pcs[t])
  }

  ghost predicate Inv(s: Pipe) {
    MutexInv(s) && EntryInv(s) && DataInv(s) && SleepInv(s)
  }

  // ---------- The ring buffer ----------

  /** PIPE_SIZE divides 2^32, so the slot of a byte survives the wrap of the counter. */
  lemma SlotSurvivesWrap(n: nat)
    ensures (n % TWO32) % PIPE_SIZE == n % PIPE_SIZE
    ensures (n % TWO32 + 1) % TWO32 == (n + 1) % TWO32
  {
  }

  lemma FillLevel(s: Pipe)
    requires DataInv(s)
    ensures IsEmpty(s) <==> |s.written| == |s.taken|
    ensures IsFull(s) <==> |s.written| == |s.taken| + PIPE_SIZE
    ensures (s.bWrite + TWO32 - s.bRead) % TWO32 == |s.written| - |s.taken|
  {
    assert |s.taken| == |s.taken| / TWO32 * TWO32 + s.bRead;
    assert |s.written| == |s.written| / TWO32 * TWO32 + s.bWrite;
  }

  lemma SlotsDiffer(i: nat, j: nat)
    requires i < j < i + PIPE_SIZE
    ensures i % PIPE_SIZE != j % PIPE_SIZE
  {
  }

  lemma StoreKeepsData(s: Pipe, b: Byte)
    requires DataInv(s) && !IsFull(s)
    ensures DataInv(Store(s, b))
  {
    FillLevel(s);
    SlotSurvivesWrap(|s.written|);
    var s' := Store(s, b);
    forall j | |s.taken| <= j < |s'.written|
      ensures s'.buffer[j % PIPE_SIZE] == s'.written[j]
    {
      if j < |s.written| {
        SlotsDiffer(j, |s.written|);
        assert s.buffer[j % PIPE_SIZE] == s.written[j];
      }
    }
  }

  lemma TakeKeepsData(s: Pipe)
    requires DataInv(s) && !IsEmpty(s)
    ensures DataInv(Take(s)) && Head(s) == s.written[|s.taken|]
  {
    FillLevel(s);
    SlotSurvivesWrap(|s.taken|);
    assert s.buffer[|s.taken| % PIPE_SIZE] == s.written[|s.taken|];
    assert s.taken + [s.written[|s.taken|]] == s.written[..|s.taken| + 1];
  }

  /** The bytes in the ring, read off the two 32-bit counters. */
  function Buffered(s: Pipe): seq<Byte>
    requires |s.buffer| == PIPE_SIZE
  {
    seq((s.bWrite + TWO32 - s.bRead) % TWO32, k requires 0 <= k => s.buffer[(s.bRead + k) % TWO32 % PIPE_SIZE])
  }

  lemma WrapAdd(r: nat, k: nat)
    ensures (r % TWO32 + k) % TWO32 % PIPE_SIZE == (r + k) % PIPE_SIZE
  {
  }

  lemma BufferedAt(s: Pipe, k: nat)
    requires DataInv(s) && |s.taken| + k < |s.written|
    ensures k < |Buffered(s)| && Buffered(s)[k] == s.written[|s.taken| + k]
  {
    FillLevel(s);
    WrapAdd(|s.taken|, k);
    assert s.buffer[(|s.taken| + k) % PIPE_SIZE] == s.written[|s.taken| + k];
  }

  /** Read so far, then buffered, is all that was written, in order. */
  lemma RingHoldsTheRest(s: Pipe)
    requires DataInv(s)
    ensures s.taken + Buffered(s) == s.written
  {
    FillLevel(s);
    forall k | 0 <= k < |Buffered(s)|
      ensures Buffered(s)[k] == s.written[|s.taken|..][k]
    {
      BufferedAt(s, k);
    }
    assert Buffered(s) == s.written[|s.taken|..];
  }

  // ---------- The mutex ----------

  lemma OwnerGoto(s: Pipe, t: Tid, code: Code)
    requires MutexInv(s) && EntryInv(s) && s.owner == Some(t)
    ensures MutexInv(Goto(s, t, Owner(code))) && EntryInv(Goto(s, t, Owner(code)))
  {
  }

  /** A signal wakes all who sleep on its condition and nobody else. */
  lemma SignalWakesItsSleepers(s: Pipe, c: Condition)
    ensures forall d :: Sleeps(Signal(s, c), d) <==> d != c && Sleeps(s, d)
    ensures forall t :: t in s.pcs && s.pcs[t].Asleep? && s.pcs[t].on != c ==> Signal(s, c).pcs[t] == s.pcs[t]
  {
    var s' := Signal(s, c);
    forall d | Sleeps(s', d)
      ensures d != c && Sleeps(s, d)
    {
      var t :| t in s'.pcs && s'.pcs[t].Asleep? && s'.pcs[t].on == d;
      assert s'.pcs[t] == Woken(s.pcs[t], c);
    }
    forall d | d != c && Sleeps(s, d)
      ensures Sleeps(s', d)
    {
      var t :| t in s.pcs && s.pcs[t].Asleep? && s.pcs[t].on == d;
      assert s'.pcs[t] == s.pcs[t];
    }
  }

  lemma SignalKeepsMutex(s: Pipe, c: Condition)
    requires MutexInv(s) && EntryInv(s)
    ensures MutexInv(Signal(s, c)) && EntryInv(Signal(s, c))
    ensures !Sleeps(Signal(s, c), c)
    ensures forall d :: Sleeps(Signal(s, c), d) ==> Sleeps(s, d)
  {
  }

  /** Without its first element, a list without repetition has exactly the others. */
  lemma QueueRest(q: seq<Tid>)
    requires q != [] && Distinct(q)
    ensures Distinct(q[1..]) && forall u :: u in q[1..] <==> u in q && u != q[0]
  {
    assert q == [q[0]] + q[1..];
    forall u | u in q[1..]
      ensures u != q[0]
    {
      var i :| 0 <= i < |q[1..]| && q[1..][i] == u;
      assert q[i + 1] == u;
    }
    assert forall i :: 0 <= i < |q| - 1 ==> q[1..][i] == q[i + 1];
  }

  /** Task `t` gives the mutex up and leaves nobody queued behind. */
  lemma ReleaseKeepsQueue(s: Pipe, t: Tid, pc: Pc)
    requires MutexInv(s) && s.owner == Some(t) && (pc.Idle? || pc.Asleep?)
    ensures t !in s.queue && MutexInv(Release(Goto(s, t, pc)))
  {
    assert t !in s.queue;
    if s.queue != [] {
      QueueRest(s.queue);
      hide Distinct;
    }
  }

  lemma ReleaseKeepsMutex(s: Pipe, t: Tid, pc: Pc)
    requires MutexInv(s) && EntryInv(s) && s.owner == Some(t)
    requires (pc.Idle? || pc.Asleep?) && EntryOk(pc)
    ensures t !in s.queue && MutexInv(Release(Goto(s, t, pc))) && EntryInv(Release(Goto(s, t, pc)))
  {
    ReleaseKeepsQueue(s, t, pc);
    hide MutexInv;
  }

  lemma AcquireKeepsMutex(s: Pipe, t: Tid)
    requires MutexInv(s) && EntryInv(s) && t in s.pcs && s.pcs[t].Contend?
    ensures MutexInv(Acquire(s, t, s.pcs[t].code)) && EntryInv(Acquire(s, t, s.pcs[t].code))
  {
  }

  /** The pipe's mutex, seen as a semaphore of one unit. */
  ghost predicate IsMutex(s: Pipe, m: SemaphoreSpec.Sem<Tid>) {
    && m.max == 1 && m.waiters == s.queue
    && m.owners == (if s.owner.Some? then multiset{s.owner.value} else multiset{})
    && m.count == |m.owners|
  }

  /** Acquiring the mutex is the semaphore's own step ... */
  lemma AcquireIsSemaphoreStep(s: Pipe, t: Tid, code: Code, m: SemaphoreSpec.Sem<Tid>)
    requires IsMutex(s, m)
    ensures IsMutex(Acquire(s, t, code), SemaphoreSpec.DoAcquire(m, t))
  {
  }

  /** ... and so is releasing it, whether the owner leaves or falls asleep on a condition. */
  lemma ReleaseIsSemaphoreStep(s: Pipe, t: Tid, pc: Pc, m: SemaphoreSpec.Sem<Tid>)
    requires IsMutex(s, m) && MutexInv(s) && s.owner == Some(t) && t !in s.queue
    ensures SemaphoreSpec.Enabled(m, SemaphoreSpec.Action.Release(t))
    ensures IsMutex(Release(Goto(s, t, pc)), SemaphoreSpec.DoRelease(m, t))
  {
    assert multiset{t} - multiset{t} == multiset{};
    if s.queue != [] {
      assert multiset{t} - multiset{t} + multiset{s.queue[0]} == multiset{s.queue[0]};
    }
  }

  // ---------- The sleepers ----------

  /** Moving a task that does not fall asleep adds no sleeper. */
  lemma GotoSleeps(s: Pipe, t: Tid, pc: Pc)
    ensures forall d :: Sleeps(Goto(s, t, pc), d) ==> Sleeps(s, d) || (pc.Asleep? && pc.on == d)
  {
  }

  /** Whoever gets the mutex next starts from a consistent set of sleepers. */
  lemma ReleaseKeepsSleep(s: Pipe, t: Tid, pc: Pc)
    requires MutexInv(s) && EntryInv(s) && s.owner == Some(t) && t !in s.queue
    requires pc.Idle? || pc.Asleep?
    requires ReadersOk(s) && WritersOk(s)
    requires pc.Asleep? && pc.on == OnRead ==> IsEmpty(s) && s.writeOpen
    requires pc.Asleep? && pc.on == OnWrite ==> IsFull(s)
    ensures SleepInv(Release(Goto(s, t, pc)))
  {
  }

  // ---------- Every step keeps the invariant ----------

  lemma QuietStep(s: Pipe, t: Tid, code: Code)
    requires Inv(s) && s.owner == Some(t) && SleepInvAt(s, code)
    ensures Inv(Goto(s, t, Owner(code)))
  {
  }

  lemma StoreStep(s: Pipe, t: Tid, b: Byte, data: seq<Byte>, i: nat)
    requires Inv(s) && s.owner == Some(t) && s.pcs[t].code.WriteLoop? && !IsFull(s)
    ensures Inv(Goto(Store(s, b), t, Owner(WriteLoop(data, i))))
  {
    StoreKeepsData(s, b);
    OwnerGoto(Store(s, b), t, WriteLoop(data, i));
    GotoSleeps(s, t, Owner(WriteLoop(data, i)));
    GotoSleeps(Store(s, b), t, Owner(WriteLoop(data, i)));
    SameSleepers(s, Store(s, b));
  }

  lemma SameSleepers(s: Pipe, s': Pipe)
    requires s'.pcs == s.pcs
    ensures forall c :: Sleeps(s', c) <==> Sleeps(s, c)
  {
  }

  lemma TakeStep(s: Pipe, t: Tid, code: Code)
    requires Inv(s) && s.owner == Some(t) && s.pcs[t].code.ReadLoop? && !IsEmpty(s)
    requires code.ReadLoop? || code.ReadSignal?
    ensures Inv(Goto(Take(s), t, Owner(code)))
  {
    TakeKeepsData(s);
    OwnerGoto(Take(s), t, code);
    GotoSleeps(Take(s), t, Owner(code));
    SameSleepers(s, Take(s));
  }

  /** Signalling wakes one side; the other side's sleepers are as before. */
  lemma SignalStep(s: Pipe, t: Tid, c: Condition, code: Code)
    requires Inv(s) && s.owner == Some(t)
    requires c == OnRead && (code.Exit? || (code.WriteSleep? && IsFull(s))) ==> WritersOk(s)
    requires c == OnWrite && code.Exit? ==> ReadersOk(s)
    requires code.Exit? || (code.WriteSleep? && IsFull(s) && c == OnRead)
    ensures Inv(Goto(Signal(s, c), t, Owner(code)))
  {
    SignalKeepsMutex(s, c);
    OwnerGoto(Signal(s, c), t, code);
    GotoSleeps(Signal(s, c), t, Owner(code));
  }

  lemma LeaveStep(s: Pipe, t: Tid, pc: Pc)
    requires Inv(s) && s.owner == Some(t) && ReadersOk(s) && WritersOk(s)
    requires (pc.Idle? || pc.Asleep?) && EntryOk(pc)
    requires pc.Asleep? && pc.on == OnRead ==> IsEmpty(s) && s.writeOpen
    requires pc.Asleep? && pc.on == OnWrite ==> IsFull(s)
    ensures t !in s.queue && Inv(Release(Goto(s, t, pc)))
  {
    ReleaseKeepsMutex(s, t, pc);
    ReleaseKeepsSleep(s, t, pc);
  }

  /** Recording a reply disturbs nothing. */
  lemma FinishKeepsInv(s: Pipe, t: Tid, mode: Mode, bytes: seq<Byte>)
    requires Inv(Goto(s, t, Owner(ReadSignal)))
    ensures Inv(Finish(s, t, mode, bytes))
  {
    SameSleepers(Goto(s, t, Owner(ReadSignal)), Finish(s, t, mode, bytes));
  }

  lemma RefuseKeepsInv(s: Pipe, t: Tid, mode: Mode)
    ensures Inv(Goto(s, t, Owner(Exit))) ==> Inv(Refuse(s, t, mode))
  {
    SameSleepers(Goto(s, t, Owner(Exit)), Refuse(s, t, mode));
  }

  lemma WriterStepKeepsInv(s: Pipe, t: Tid)
    requires Inv(s) && s.owner == Some(t)
    requires var c := s.pcs[t].code; c.WriteLoop? || c.WriteSleep? || c.WriteSignal?
    ensures t !in s.queue && Inv(OwnerStep(s, t, s.pcs[t].code))
  {
    assert t !in s.queue;
    match s.pcs[t].code
    case WriteLoop(data, i) =>
      if i >= |data| {
        QuietStep(s, t, WriteSignal);
      } else if IsFull(s) {
        SignalStep(s, t, OnRead, WriteSleep(data, i));
      } else {
        StoreStep(s, t, data[i], data, i + 1);
      }
    case WriteSleep(data, i) => LeaveStep(s, t, Asleep(OnWrite, WriteLoop(data, i)));
    case WriteSignal => SignalStep(s, t, OnRead, Exit);
  }

  lemma ReaderStepKeepsInv(s: Pipe, t: Tid)
    requires Inv(s) && s.owner == Some(t)
    requires var c := s.pcs[t].code; c.ReadOpen? || c.ReadCheck? || c.ReadSleep? || c.ReadLoop? || c.ReadSignal?
    ensures t !in s.queue && Inv(OwnerStep(s, t, s.pcs[t].code))
  {
    assert t !in s.queue;
    match s.pcs[t].code
    case ReadOpen(mode) =>
      QuietStep(s, t, if s.writeOpen then ReadCheck(mode) else Exit);
      RefuseKeepsInv(s, t, mode);
    case ReadCheck(mode) => QuietStep(s, t, if IsEmpty(s) && s.writeOpen then ReadSleep(mode) else ReadLoop(mode, []));
    case ReadSleep(mode) => LeaveStep(s, t, Asleep(OnRead, ReadLoop(mode, [])));
    case ReadLoop(mode, got) =>
      if (mode.UpTo? && |got| >= mode.n) || IsEmpty(s) {
        QuietStep(s, t, ReadSignal);
        FinishKeepsInv(s, t, mode, got);
      } else if Matches(mode, Head(s)) {
        TakeStep(s, t, ReadSignal);
        FinishKeepsInv(Take(s), t, mode, got + [Head(s)]);
      } else {
        TakeStep(s, t, ReadLoop(mode, got + [Head(s)]));
      }
    case ReadSignal => SignalStep(s, t, OnWrite, Exit);
  }

  lemma OwnerStepKeepsInv(s: Pipe, t: Tid)
    requires Inv(s) && s.owner == Some(t)
    ensures t !in s.queue && Inv(OwnerStep(s, t, s.pcs[t].code))
  {
    assert t !in s.queue;
    var code := s.pcs[t].code;
    if code.WriteLoop? || code.WriteSleep? || code.WriteSignal? {
      WriterStepKeepsInv(s, t);
    } else if code.CloseSet? {
      CloseStep(s, t);
    } else if code.CloseSignal? {
      SignalStep(s, t, OnRead, Exit);
    } else if code.Exit? {
      LeaveStep(s, t, Idle);
    } else {
      ReaderStepKeepsInv(s, t);
    }
  }

  lemma CloseStep(s: Pipe, t: Tid)
    requires Inv(s) && s.owner == Some(t) && s.pcs[t].code.CloseSet?
    ensures Inv(Goto(s, t, Owner(CloseSignal)).(writeOpen := false))
  {
    OwnerGoto(s, t, CloseSignal);
    GotoSleeps(s, t, Owner(CloseSignal));
    SameSleepers(Goto(s, t, Owner(CloseSignal)), Goto(s, t, Owner(CloseSignal)).(writeOpen := false));
  }

  /** A task outside the critical section does not disturb it. */
  lemma OutsideStep(s: Pipe, t: Tid, code: Code)
    requires Inv(s) && t in s.pcs && s.pcs[t].Idle? && !code.WriteSleep? && !code.ReadSleep?
    ensures Inv(Goto(s, t, Contend(code)))
  {
  }

  lemma AcquireStep(s: Pipe, t: Tid)
    requires Inv(s) && t in s.pcs && s.pcs[t].Contend?
    ensures Inv(Acquire(s, t, s.pcs[t].code))
  {
    AcquireKeepsMutex(s, t);
    GotoSleeps(s, t, Owner(s.pcs[t].code));
    GotoSleeps(s, t, Queued(s.pcs[t].code));
  }

  lemma StepKeepsInv(s: Pipe, a: Action)
    requires Inv(s) && Enabled(s, a)
    ensures Inv(Step(s, a))
  {
    match a
    case Write(t, data) => OutsideStep(s, t, WriteLoop(data, 0));
    case Read(t, mode) => OutsideStep(s, t, ReadOpen(mode));
    case Close(t) => OutsideStep(s, t, CloseSet);
    case Move(t) =>
      if s.pcs[t].Contend? {
        AcquireStep(s, t);
      } else {
        OwnerStepKeepsInv(s, t);
      }
  }

  // ---------- Every interleaving ----------

  /** pipe_alloc: the buffer is uninitialised memory. */
  ghost predicate Init(s: Pipe) {
    && |s.buffer| == PIPE_SIZE && s.bRead == 0 && s.bWrite == 0 && s.writeOpen
    && (forall t :: t in s.pcs ==> s.pcs[t] == Idle)
    && s.owner == None && s.queue == [] && s.written == [] && s.taken == [] && s.replies == []
  }

  ghost predicate Run(s: Pipe, s': Pipe, actions: seq<Action>)
    decreases |actions|
  {
    if actions == [] then s' == s
    else |s.buffer| == PIPE_SIZE && QueueOk(s) && Enabled(s, actions[0]) && Run(Step(s, actions[0]), s', actions[1..])
  }

  lemma {:induction false} RunKeepsInv(s: Pipe, s': Pipe, actions: seq<Action>)
    requires Inv(s) && Run(s, s', actions)
    ensures Inv(s')
    decreases |actions|
  {
    if actions == [] {
    } else {
      StepKeepsInv(s, actions[0]);
      RunKeepsInv(Step(s, actions[0]), s', actions[1..]);
    }
  }

  lemma InitInv(s: Pipe)
    requires Init(s)
    ensures Inv(s)
  {
  }

  /**
    Under every interleaving of readers and writers that block and resume in the middle of
    a transfer, nothing is lost, duplicated or reordered, however often the counters wrap.
  */
  lemma PipeIsFifo(s0: Pipe, s: Pipe, actions: seq<Action>)
    requires Init(s0) && Run(s0, s, actions)
    ensures |s.buffer| == PIPE_SIZE && s.taken + Buffered(s) == s.written
  {
    InitInv(s0);
    RunKeepsInv(s0, s, actions);
    RingHoldsTheRest(s);
  }

  // ---------- What each read returns ----------

  /** The bytes of all replies, in the order of the reads. */
  function Returned(replies: seq<Reply>): seq<Byte> {
    if replies == [] then [] else Returned(replies[..|replies| - 1]) + replies[|replies| - 1].bytes
  }

  /** The delimiter is the last byte and no other. */
  ghost predicate EndsAt(bytes: seq<Byte>, c: Byte) {
    bytes != [] && bytes[|bytes| - 1] == c && c !in bytes[..|bytes| - 1]
  }

  /** A read returns all it asked for, and stops short, or runs past its delimiter, only to empty the pipe. */
  ghost predicate ReplyOk(r: Reply) {
    if r.ending == Closed then r.bytes == []
    else
    match r.mode
    case UpTo(n) => |r.bytes| <= n && (|r.bytes| == n || r.ending == Drained)
    case Until(c) => if c < 128 && c in r.bytes then EndsAt(r.bytes, c) else r.ending == Drained
  }

  function InHandOf(code: Code): seq<Byte> {
    if code.ReadLoop? then code.got else []
  }

  /** What the owner of the mutex has copied and not yet returned. */
  ghost function InHand(s: Pipe): seq<Byte> {
    if s.owner.Some? && s.owner.value in s.pcs && s.pcs[s.owner.value].Owner?
    then InHandOf(s.pcs[s.owner.value].code)
    else []
  }

  ghost predicate HandOk(code: Code) {
    code.ReadLoop? ==>
      match code.mode
      case UpTo(n) => |code.got| <= n
      case Until(c) => c < 128 ==> c !in code.got
  }

  /** Bytes leave the ring only into the hands of the owner, and are returned in one piece. */
  ghost predicate ReadInv(s: Pipe) {
    && Returned(s.replies) + InHand(s) == s.taken
    && (forall r :: r in s.replies ==> ReplyOk(r))
    && (forall t :: t in s.pcs && s.pcs[t].Owner? ==> HandOk(s.pcs[t].code))
    && WaitersEmpty(s)
  }

  lemma ReturnedOne(replies: seq<Reply>, r: Reply)
    ensures Returned(replies + [r]) == Returned(replies) + r.bytes
  {
    assert (replies + [r])[..|replies|] == replies;
  }

  /** Tasks that wait have nothing in hand. */
  ghost predicate WaitersEmpty(s: Pipe) {
    forall t :: t in s.pcs && (s.pcs[t].Contend? || s.pcs[t].Queued? || s.pcs[t].Asleep?) ==>
      InHandOf(s.pcs[t].code) == []
  }

  lemma FinishReads(s: Pipe, t: Tid, mode: Mode, bytes: seq<Byte>)
    requires MutexInv(s) && WaitersEmpty(s) && s.owner == Some(t) && Returned(s.replies) + bytes == s.taken
    requires (forall r :: r in s.replies ==> ReplyOk(r)) && ReplyOk(Reply(t, mode, bytes, EndingOf(s)))
    ensures ReadInv(Finish(s, t, mode, bytes))
  {
    ReturnedOne(s.replies, Reply(t, mode, bytes, EndingOf(s)));
    hide Returned, ReplyOk, IsEmpty;
  }

  lemma FinishKeepsReads(s: Pipe, t: Tid, mode: Mode, got: seq<Byte>)
    requires MutexInv(s) && ReadInv(s) && s.owner == Some(t) && s.pcs[t].code == ReadLoop(mode, got)
    requires (mode.UpTo? && |got| >= mode.n) || IsEmpty(s)
    ensures ReadInv(Finish(s, t, mode, got))
  {
    assert ReplyOk(Reply(t, mode, got, EndingOf(s)));
    hide Returned, ReplyOk, IsEmpty;
    FinishReads(s, t, mode, got);
  }

  /** One more byte taken and in hand. */
  lemma InHandGrows(taken: seq<Byte>, returned: seq<Byte>, got: seq<Byte>, b: Byte)
    requires returned + got == taken
    ensures returned + (got + [b]) == taken + [b]
  {
  }

  lemma TakeKeepsReads(s: Pipe, t: Tid, mode: Mode, got: seq<Byte>)
    requires MutexInv(s) && ReadInv(s) && s.owner == Some(t) && s.pcs[t].code == ReadLoop(mode, got)
    requires |s.buffer| == PIPE_SIZE && (mode.UpTo? ==> |got| < mode.n) && !Matches(mode, Head(s))
    ensures ReadInv(Goto(Take(s), t, Owner(ReadLoop(mode, got + [Head(s)]))))
  {
    InHandGrows(s.taken, Returned(s.replies), got, Head(s));
    hide Returned, ReplyOk;
  }

  lemma TakeLastKeepsReads(s: Pipe, t: Tid, mode: Mode, got: seq<Byte>)
    requires MutexInv(s) && ReadInv(s) && s.owner == Some(t) && s.pcs[t].code == ReadLoop(mode, got)
    requires |s.buffer| == PIPE_SIZE && Matches(mode, Head(s))
    ensures ReadInv(Finish(Take(s), t, mode, got + [Head(s)]))
  {
    UntilReply(t, mode, got, Head(s), EndingOf(Take(s)));
    InHandGrows(s.taken, Returned(s.replies), got, Head(s));
    hide Returned, ReplyOk, Head, IsEmpty;
    FinishReads(Take(s), t, mode, got + [Head(s)]);
  }

  lemma UntilReply(t: Tid, mode: Mode, got: seq<Byte>, b: Byte, ending: Ending)
    requires mode == Until(b) && b < 128 && b !in got && ending != Closed
    ensures ReplyOk(Reply(t, mode, got + [b], ending))
  {
    assert (got + [b])[..|got|] == got;
  }

  lemma RefuseKeepsReads(s: Pipe, t: Tid, mode: Mode)
    requires MutexInv(s) && ReadInv(s) && s.owner == Some(t) && InHandOf(s.pcs[t].code) == []
    ensures ReadInv(Refuse(s, t, mode))
  {
    ReturnedOne(s.replies, Reply(t, mode, [], Closed));
    assert Returned(s.replies) + [] == Returned(s.replies);
    assert ReplyOk(Reply(t, mode, [], Closed));
    hide Returned, ReplyOk;
  }

  /** The owner stays at a point where it has nothing in hand. */
  lemma GotoKeepsReads(s: Pipe, t: Tid, code: Code)
    requires MutexInv(s) && ReadInv(s) && s.owner == Some(t)
    requires InHandOf(s.pcs[t].code) == [] == InHandOf(code) && HandOk(code)
    ensures ReadInv(Goto(s, t, Owner(code)))
  {
    hide Returned, ReplyOk;
  }

  lemma SignalKeepsReads(s: Pipe, c: Condition)
    requires MutexInv(s) && ReadInv(s)
    ensures ReadInv(Signal(s, c))
  {
    hide Returned, ReplyOk;
  }

  lemma LeaveKeepsReads(s: Pipe, t: Tid, pc: Pc)
    requires MutexInv(s) && ReadInv(s) && s.owner == Some(t) && t !in s.queue && InHandOf(s.pcs[t].code) == []
    requires pc.Idle? || (pc.Asleep? && InHandOf(pc.code) == [])
    ensures ReadInv(Release(Goto(s, t, pc)))
  {
    hide Returned, ReplyOk;
    if s.queue != [] {
      assert s.pcs[s.queue[0]].Queued?;
    }
  }

  lemma WriterStepKeepsReads(s: Pipe, t: Tid)
    requires Inv(s) && ReadInv(s) && s.owner == Some(t)
    requires var c := s.pcs[t].code; c.WriteLoop? || c.WriteSleep? || c.WriteSignal?
    ensures t !in s.queue && ReadInv(OwnerStep(s, t, s.pcs[t].code))
  {
    assert t !in s.queue && |s.buffer| == PIPE_SIZE && QueueOk(s) && t in s.pcs && s.pcs[t].Owner?;
    hide ReadInv, DataInv, SleepInv, EntryInv;
    match s.pcs[t].code
    case WriteLoop(data, i) =>
      if i >= |data| {
        GotoKeepsReads(s, t, WriteSignal);
      } else if IsFull(s) {
        SignalThenReads(s, t, OnRead, WriteSleep(data, i));
      } else {
        StoreKeepsReads(s, data[i]);
        GotoKeepsReads(Store(s, data[i]), t, WriteLoop(data, i + 1));
      }
    case WriteSleep(data, i) => LeaveKeepsReads(s, t, Asleep(OnWrite, WriteLoop(data, i)));
    case WriteSignal => SignalThenReads(s, t, OnRead, Exit);
  }

  lemma LoopStepKeepsReads(s: Pipe, t: Tid, mode: Mode, got: seq<Byte>)
    requires MutexInv(s) && ReadInv(s) && s.owner == Some(t) && s.pcs[t] == Owner(ReadLoop(mode, got))
    requires |s.buffer| == PIPE_SIZE && QueueOk(s) && t !in s.queue
    ensures ReadInv(OwnerStep(s, t, ReadLoop(mode, got)))
  {
    hide ReadInv, Goto, Take, Head, Finish, IsEmpty, Matches;
    if (mode.UpTo? && |got| >= mode.n) || IsEmpty(s) {
      FinishKeepsReads(s, t, mode, got);
    } else if Matches(mode, Head(s)) {
      TakeLastKeepsReads(s, t, mode, got);
    } else {
      TakeKeepsReads(s, t, mode, got);
    }
  }

  lemma ReaderStepKeepsReads(s: Pipe, t: Tid)
    requires Inv(s) && ReadInv(s) && s.owner == Some(t)
    requires var c := s.pcs[t].code; c.ReadOpen? || c.ReadCheck? || c.ReadSleep? || c.ReadLoop? || c.ReadSignal?
    ensures t !in s.queue && ReadInv(OwnerStep(s, t, s.pcs[t].code))
  {
    assert t !in s.queue && |s.buffer| == PIPE_SIZE && QueueOk(s) && t in s.pcs && s.pcs[t].Owner?;
    hide ReadInv, DataInv, SleepInv, EntryInv, MutexInv, Goto, Signal, Release, Take, Finish, IsEmpty;
    match s.pcs[t].code
    case ReadOpen(mode) =>
      if s.writeOpen {
        GotoKeepsReads(s, t, ReadCheck(mode));
      } else {
        RefuseKeepsReads(s, t, mode);
      }
    case ReadCheck(mode) =>
      GotoKeepsReads(s, t, if IsEmpty(s) && s.writeOpen then ReadSleep(mode) else ReadLoop(mode, []));
    case ReadSleep(mode) => LeaveKeepsReads(s, t, Asleep(OnRead, ReadLoop(mode, [])));
    case ReadLoop(mode, got) => LoopStepKeepsReads(s, t, mode, got);
    case ReadSignal => SignalThenReads(s, t, OnWrite, Exit);
  }

  lemma OwnerStepKeepsReads(s: Pipe, t: Tid)
    requires Inv(s) && ReadInv(s) && s.owner == Some(t)
    ensures t !in s.queue && ReadInv(OwnerStep(s, t, s.pcs[t].code))
  {
    assert t !in s.queue;
    var code := s.pcs[t].code;
    hide ReadInv, DataInv, SleepInv;
    if code.WriteLoop? || code.WriteSleep? || code.WriteSignal? {
      WriterStepKeepsReads(s, t);
    } else if code.CloseSet? {
      CloseKeepsReads(s, t);
    } else if code.CloseSignal? {
      SignalThenReads(s, t, OnRead, Exit);
    } else if code.Exit? {
      LeaveKeepsReads(s, t, Idle);
    } else {
      ReaderStepKeepsReads(s, t);
    }
  }

  lemma SignalThenReads(s: Pipe, t: Tid, c: Condition, code: Code)
    requires MutexInv(s) && EntryInv(s) && ReadInv(s) && s.owner == Some(t)
    requires InHandOf(s.pcs[t].code) == [] && !code.ReadLoop?
    ensures ReadInv(Goto(Signal(s, c), t, Owner(code)))
  {
    hide ReadInv;
    SignalKeepsMutex(s, c);
    SignalKeepsReads(s, c);
    GotoKeepsReads(Signal(s, c), t, code);
  }

  lemma StoreKeepsReads(s: Pipe, b: Byte)
    requires ReadInv(s) && |s.buffer| == PIPE_SIZE
    ensures ReadInv(Store(s, b))
  {
  }

  lemma CloseKeepsReads(s: Pipe, t: Tid)
    requires MutexInv(s) && ReadInv(s) && s.owner == Some(t) && s.pcs[t].code.CloseSet?
    ensures ReadInv(Goto(s, t, Owner(CloseSignal)).(writeOpen := false))
  {
    GotoKeepsReads(s, t, CloseSignal);
  }

  lemma StepKeepsReads(s: Pipe, a: Action)
    requires Inv(s) && ReadInv(s) && Enabled(s, a)
    ensures ReadInv(Step(s, a))
  {
    hide Returned, ReplyOk, DataInv, SleepInv;
    match a
    case Write(t, data) =>
    case Read(t, mode) =>
    case Close(t) =>
    case Move(t) =>
      if s.pcs[t].Owner? {
        OwnerStepKeepsReads(s, t);
      }
  }

  lemma {:induction false} RunKeepsReads(s: Pipe, s': Pipe, actions: seq<Action>)
    requires Inv(s) && ReadInv(s) && Run(s, s', actions)
    ensures ReadInv(s')
    decreases |actions|
  {
    if actions == [] {
    } else {
      StepKeepsInv(s, actions[0]);
      StepKeepsReads(s, actions[0]);
      RunKeepsReads(Step(s, actions[0]), s', actions[1..]);
    }
  }

  lemma {:induction false} ReturnedPrefix(replies: seq<Reply>, k: nat)
    requires k < |replies|
    ensures Returned(replies[..k]) + replies[k].bytes <= Returned(replies)
    decreases |replies|
  {
    var last := |replies| - 1;
    if k == last {
    } else {
      ReturnedPrefix(replies[..last], k);
      assert replies[..last][..k] == replies[..k];
    }
  }

  lemma ReplyIsSlice(s: Pipe, k: nat)
    requires DataInv(s) && ReadInv(s) && k < |s.replies|
    ensures var from := |Returned(s.replies[..k])|;
            && from + |s.replies[k].bytes| <= |s.written|
            && s.replies[k].bytes == s.written[from..from + |s.replies[k].bytes|]
    ensures ReplyOk(s.replies[k])
  {
    ReturnedPrefix(s.replies, k);
    assert s.replies[k] in s.replies;
    hide Returned, ReplyOk, InHand;
    var before, bytes := Returned(s.replies[..k]), s.replies[k].bytes;
    assert before + bytes <= s.taken <= s.written;
    assert (before + bytes)[|before|..] == bytes;
  }

  /**
    Under every interleaving each read returns one contiguous piece of what was written,
    directly behind what the reads before it returned, and as long as it asked for unless it
    left the pipe empty.
  */
  lemma ReadsAreSlices(s0: Pipe, s: Pipe, actions: seq<Action>, k: nat)
    requires Init(s0) && Run(s0, s, actions) && k < |s.replies|
    ensures var from := |Returned(s.replies[..k])|;
            && from + |s.replies[k].bytes| <= |s.written|
            && s.replies[k].bytes == s.written[from..from + |s.replies[k].bytes|]
    ensures ReplyOk(s.replies[k])
  {
    InitInv(s0);
    RunKeepsInv(s0, s, actions);
    RunKeepsReads(s0, s, actions);
    ReplyIsSlice(s, k);
  }

  // ---------- No lost wake-up ----------

  /**
    Whenever nobody is inside a critical section, a reader sleeps only on an empty pipe
    whose write side is open, and a writer only on a full one, so the two never sleep on
    each other.
  */
  lemma NoLostWakeup(s0: Pipe, s: Pipe, actions: seq<Action>)
    requires Init(s0) && Run(s0, s, actions) && s.owner == None
    ensures Sleeps(s, OnRead) ==> IsEmpty(s) && s.writeOpen && |s.written| == |s.taken|
    ensures Sleeps(s, OnWrite) ==> IsFull(s) && |s.written| == |s.taken| + PIPE_SIZE
    ensures !(Sleeps(s, OnRead) && Sleeps(s, OnWrite))
  {
    InitInv(s0);
    RunKeepsInv(s0, s, actions);
    FillLevel(s);
  }

  /** No task can move by itself. */
  ghost predicate Standstill(s: Pipe) {
    forall t :: t in s.pcs ==> !s.pcs[t].Contend? && !s.pcs[t].Owner?
  }

  /** At a standstill nobody waits for the mutex, and all who sleep wait for the same side. */
  lemma StandstillLeavesOneSide(s0: Pipe, s: Pipe, actions: seq<Action>)
    requires Init(s0) && Run(s0, s, actions) && Standstill(s)
    ensures s.owner == None && s.queue == [] && forall t :: t in s.pcs ==> s.pcs[t].Idle? || s.pcs[t].Asleep?
    ensures !(Sleeps(s, OnRead) && Sleeps(s, OnWrite))
  {
    InitInv(s0);
    RunKeepsInv(s0, s, actions);
    NoLostWakeup(s0, s, actions);
  }
}
