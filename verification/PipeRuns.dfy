/**
  Runs of the pipe of src/kernel/fs/pipe.c that show how far its promises reach: a delimiter of
  0x80 or more is never recognised, and a writer asleep when the write side is closed is never
  woken.
*/
module PipeRuns {
  import opened Common
  import opened PipeSpec

  // ---------- A step appended to a run ----------

  lemma {:induction false} RunOneMore(s0: Pipe, s: Pipe, actions: seq<Action>, a: Action)
    requires Run(s0, s, actions) && |s.buffer| == PIPE_SIZE && QueueOk(s) && Enabled(s, a)
    ensures Run(s0, Step(s, a), actions + [a])
    decreases |actions|
  {
    hide Step, Enabled, QueueOk;
    if actions == [] {
      assert ([] + [a])[1..] == [];
    } else {
      assert (actions + [a])[1..] == actions[1..] + [a];
      RunOneMore(Step(s0, actions[0]), s, actions[1..], a);
    }
  }

  lemma OneMore(s0: Pipe, s: Pipe, actions: seq<Action>, a: Action) returns (s': Pipe, actions': seq<Action>)
    requires Run(s0, s, actions) && Inv(s) && Enabled(s, a)
    ensures s' == Step(s, a) && Inv(s') && Run(s0, s', actions')
  {
    StepKeepsInv(s, a);
    RunOneMore(s0, s, actions, a);
    s', actions' := Step(s, a), actions + [a];
  }

  // ---------- Tasks that run alone ----------

  /** Task `t` owns the mutex, nobody waits for it, and nobody sleeps on the readers' condition. */
  ghost predicate Alone(s: Pipe, t: Tid, code: Code) {
    && s.owner == Some(t) && s.queue == [] && t in s.pcs && s.pcs[t] == Owner(code)
    && forall u :: u in s.pcs && s.pcs[u].Asleep? ==> s.pcs[u].on == OnWrite
  }

  /** The mutex is free, nobody waits for it, and nobody sleeps on the readers' condition. */
  ghost predicate Free(s: Pipe) {
    s.owner == None && s.queue == [] && forall u :: u in s.pcs && s.pcs[u].Asleep? ==> s.pcs[u].on == OnWrite
  }

  /** Every task but `t` is where it was. */
  ghost predicate Beside(s: Pipe, s': Pipe, t: Tid) {
    s'.pcs.Keys == s.pcs.Keys && forall u :: u in s.pcs && u != t ==> s'.pcs[u] == s.pcs[u]
  }

  lemma BesideSelf(s: Pipe, t: Tid)
    ensures Beside(s, s, t)
  {
  }

  lemma BesideThen(s: Pipe, s1: Pipe, s2: Pipe, t: Tid)
    requires Beside(s, s1, t) && Beside(s1, s2, t)
    ensures Beside(s, s2, t)
  {
  }

  /** The bytes, the replies and the switch of the pipe are as they were. */
  ghost predicate SameData(s: Pipe, s': Pipe) {
    s'.written == s.written && s'.taken == s.taken && s'.replies == s.replies && s'.writeOpen == s.writeOpen
  }

  /** Where a call begins. */
  function FirstCode(a: Action): Code
    requires !a.Move?
  {
    match a
    case Write(_, data) => WriteLoop(data, 0)
    case Read(_, mode) => ReadOpen(mode)
    case Close(_) => CloseSet
  }

  lemma Calls(s: Pipe, a: Action)
    requires |s.buffer| == PIPE_SIZE && QueueOk(s) && !a.Move? && Enabled(s, a)
    ensures Step(s, a) == Goto(s, a.t, Contend(FirstCode(a)))
  {
  }

  lemma Acquires(s: Pipe, t: Tid, code: Code)
    requires |s.buffer| == PIPE_SIZE && QueueOk(s) && t in s.pcs && s.pcs[t] == Contend(code) && Free(s)
    ensures Alone(Step(s, Move(t)), t, code) && Beside(s, Step(s, Move(t)), t) && SameData(s, Step(s, Move(t)))
  {
    hide OwnerStep;
  }

  /** Call the function, acquire the mutex. */
  lemma Enters(s0: Pipe, s: Pipe, actions: seq<Action>, a: Action) returns (s': Pipe, actions': seq<Action>)
    requires Run(s0, s, actions) && Inv(s) && Free(s) && !a.Move? && Enabled(s, a)
    ensures Run(s0, s', actions') && Inv(s') && Alone(s', a.t, FirstCode(a)) && Beside(s, s', a.t) && SameData(s, s')
  {
    hide Run, Inv, Step, FirstCode;
    InvParts(s);
    Calls(s, a);
    var s1, first := OneMore(s0, s, actions, a);
    InvParts(s1);
    Acquires(s1, a.t, FirstCode(a));
    s', actions' := OneMore(s0, s1, first, Move(a.t));
  }

  /** A step at which the owner only moves on. */
  lemma Goes(s0: Pipe, s: Pipe, actions: seq<Action>, t: Tid, code: Code, next: Code)
    returns (s': Pipe, actions': seq<Action>)
    requires Run(s0, s, actions) && Inv(s) && Alone(s, t, code)
    requires |s.buffer| == PIPE_SIZE && QueueOk(s) && t !in s.queue && OwnerStep(s, t, code) == Goto(s, t, Owner(next))
    ensures Run(s0, s', actions') && Inv(s') && Alone(s', t, next) && Beside(s, s', t) && SameData(s, s')
    ensures IsEmpty(s') == IsEmpty(s) && IsFull(s') == IsFull(s)
  {
    hide Run, Inv, MutexInv, DataInv, SleepInv, EntryInv, OwnerStep;
    s', actions' := OneMore(s0, s, actions, Move(t));
  }

  /** A step at which the owner wakes the readers, of whom there are none. */
  lemma Signals(s0: Pipe, s: Pipe, actions: seq<Action>, t: Tid, code: Code, next: Code)
    returns (s': Pipe, actions': seq<Action>)
    requires Run(s0, s, actions) && Inv(s) && Alone(s, t, code)
    requires |s.buffer| == PIPE_SIZE && QueueOk(s) && t !in s.queue
    requires OwnerStep(s, t, code) == Goto(Signal(s, OnRead), t, Owner(next))
    ensures Run(s0, s', actions') && Inv(s') && Alone(s', t, next) && Beside(s, s', t) && SameData(s, s')
  {
    hide Run, Inv, MutexInv, DataInv, SleepInv, EntryInv, OwnerStep;
    s', actions' := OneMore(s0, s, actions, Move(t));
  }

  /** Release the mutex, to return or to sleep. */
  lemma Leaves(s0: Pipe, s: Pipe, actions: seq<Action>, t: Tid, code: Code) returns (s': Pipe, actions': seq<Action>)
    requires Run(s0, s, actions) && Inv(s) && Alone(s, t, code) && (code.Exit? || code.WriteSleep?)
    ensures Run(s0, s', actions') && Inv(s') && Free(s') && Beside(s, s', t) && SameData(s, s') && t in s'.pcs
    ensures if code.Exit? then s'.pcs[t].Idle? else s'.pcs[t].Asleep?
  {
    assert |s.buffer| == PIPE_SIZE && QueueOk(s);
    hide Run, Inv, MutexInv, DataInv, SleepInv, EntryInv;
    s', actions' := OneMore(s0, s, actions, Move(t));
  }

  lemma StoreMoves(s: Pipe, t: Tid, data: seq<Byte>, i: nat)
    requires |s.buffer| == PIPE_SIZE && QueueOk(s) && Alone(s, t, WriteLoop(data, i)) && i < |data| && !IsFull(s)
    ensures var s' := OwnerStep(s, t, WriteLoop(data, i));
            && Step(s, Move(t)) == s' && Alone(s', t, WriteLoop(data, i + 1)) && Beside(s, s', t)
            && SameData(s', s.(written := s.written + [data[i]]))
  {
    hide IsFull;
  }

  lemma StoresOne(s0: Pipe, s: Pipe, actions: seq<Action>, t: Tid, data: seq<Byte>, i: nat)
    returns (s': Pipe, actions': seq<Action>)
    requires Run(s0, s, actions) && Inv(s) && Alone(s, t, WriteLoop(data, i))
    requires i < |data| && |s.written| < |s.taken| + PIPE_SIZE
    ensures Run(s0, s', actions') && Inv(s') && Alone(s', t, WriteLoop(data, i + 1)) && Beside(s, s', t)
    ensures SameData(s', s.(written := s.written + [data[i]]))
  {
    FillLevel(s);
    InvParts(s);
    StoreMoves(s, t, data, i);
    hide Run, Inv, Step, OwnerStep, Beside, SameData;
    s', actions' := OneMore(s0, s, actions, Move(t));
  }

  /** Store `data[i..k]` while there is room. */
  lemma {:induction false} Stores(s0: Pipe, s: Pipe, actions: seq<Action>, t: Tid, data: seq<Byte>, i: nat, k: nat)
    returns (s': Pipe, actions': seq<Action>)
    requires Run(s0, s, actions) && Inv(s) && Alone(s, t, WriteLoop(data, i))
    requires i <= k <= |data| && |s.written| + (k - i) <= |s.taken| + PIPE_SIZE
    ensures Run(s0, s', actions') && Inv(s') && Alone(s', t, WriteLoop(data, k)) && Beside(s, s', t)
    ensures SameData(s', s.(written := s.written + data[i..k]))
    decreases k - i
  {
    hide Run, Inv, Alone, Beside;
    if i == k {
      s', actions' := s, actions;
      BesideSelf(s, t);
      assert s.written + data[i..k] == s.written;
    } else {
      var s1, more := StoresOne(s0, s, actions, t, data, i);
      s', actions' := Stores(s0, s1, more, t, data, i + 1, k);
      BesideThen(s, s1, s', t);
      assert s.written + [data[i]] + data[i + 1..k] == s.written + data[i..k];
    }
  }

  /** One byte taken at which the read does not end. */
  lemma TakesOne(s0: Pipe, s: Pipe, actions: seq<Action>, t: Tid, mode: Mode, got: seq<Byte>)
    returns (s': Pipe, actions': seq<Action>)
    requires Run(s0, s, actions) && Inv(s) && Alone(s, t, ReadLoop(mode, got)) && |s.taken| < |s.written|
    requires (mode.UpTo? ==> |got| < mode.n) && !Matches(mode, s.written[|s.taken|])
    ensures Run(s0, s', actions') && Inv(s') && Alone(s', t, ReadLoop(mode, got + [s.written[|s.taken|]]))
    ensures Beside(s, s', t) && SameData(s', s.(taken := s.taken + [s.written[|s.taken|]]))
  {
    FillLevel(s);
    TakeKeepsData(s);
    assert |s.buffer| == PIPE_SIZE && QueueOk(s);
    hide Run, Inv, MutexInv, DataInv, SleepInv, EntryInv, Head;
    s', actions' := OneMore(s0, s, actions, Move(t));
  }

  /** The read ends, with all it asked for or with the pipe empty. */
  lemma Ends(s0: Pipe, s: Pipe, actions: seq<Action>, t: Tid, mode: Mode, got: seq<Byte>)
    returns (s': Pipe, actions': seq<Action>)
    requires Run(s0, s, actions) && Inv(s) && Alone(s, t, ReadLoop(mode, got))
    requires |s.taken| == |s.written| || (mode.UpTo? && |got| >= mode.n)
    ensures Run(s0, s', actions') && Inv(s') && Alone(s', t, ReadSignal) && Beside(s, s', t)
    ensures var ending := if |s.taken| == |s.written| then Drained else Ample;
            SameData(s', s.(replies := s.replies + [Reply(t, mode, got, ending)]))
  {
    FillLevel(s);
    assert |s.buffer| == PIPE_SIZE && QueueOk(s);
    hide Run, Inv, MutexInv, DataInv, SleepInv, EntryInv;
    s', actions' := OneMore(s0, s, actions, Move(t));
  }

  lemma CheckMoves(s: Pipe, t: Tid, mode: Mode)
    requires |s.buffer| == PIPE_SIZE && QueueOk(s) && Alone(s, t, ReadCheck(mode)) && !IsEmpty(s)
    ensures t !in s.queue && OwnerStep(s, t, ReadCheck(mode)) == Goto(s, t, Owner(ReadLoop(mode, [])))
  {
  }

  lemma OpenMoves(s: Pipe, t: Tid, mode: Mode)
    requires |s.buffer| == PIPE_SIZE && QueueOk(s) && Alone(s, t, ReadOpen(mode)) && s.writeOpen
    ensures t !in s.queue && OwnerStep(s, t, ReadOpen(mode)) == Goto(s, t, Owner(ReadCheck(mode)))
  {
  }

  /** pipe_read up to its copy loop, with the write side open and bytes in the pipe. */
  lemma ReaderArrives(s0: Pipe, s: Pipe, actions: seq<Action>, t: Tid, mode: Mode)
    returns (s': Pipe, actions': seq<Action>)
    requires Run(s0, s, actions) && Inv(s) && Free(s) && t in s.pcs && s.pcs[t].Idle? && s.writeOpen
    requires |s.taken| < |s.written|
    ensures Run(s0, s', actions') && Inv(s') && Alone(s', t, ReadLoop(mode, [])) && Beside(s, s', t) && SameData(s, s')
  {
    hide Run, Inv, Beside, Alone, OwnerStep;
    var s1, a1 := Enters(s0, s, actions, Read(t, mode));
    InvParts(s1);
    OpenMoves(s1, t, mode);
    var s2, a2 := Goes(s0, s1, a1, t, ReadOpen(mode), ReadCheck(mode));
    InvParts(s2);
    CheckMoves(s2, t, mode);
    s', actions' := Goes(s0, s2, a2, t, ReadCheck(mode), ReadLoop(mode, []));
    BesideThen(s, s1, s2, t);
    BesideThen(s, s2, s', t);
  }

  /** pipe_read of an empty pipe whose write side is open goes to sleep, and resumes at its copy loop. */
  lemma EmptyReadSleeps(s0: Pipe, s: Pipe, actions: seq<Action>, t: Tid, mode: Mode)
    returns (s': Pipe, actions': seq<Action>)
    requires Run(s0, s, actions) && Inv(s) && Free(s) && t in s.pcs && s.pcs[t].Idle? && s.writeOpen
    requires |s.taken| == |s.written|
    ensures Run(s0, s', actions') && Inv(s') && Beside(s, s', t) && SameData(s, s') && s'.owner == None
    ensures t in s'.pcs && s'.pcs[t] == Asleep(OnRead, ReadLoop(mode, []))
  {
    hide Run, Inv, Beside, Alone, OwnerStep;
    var s1, a1 := Enters(s0, s, actions, Read(t, mode));
    InvParts(s1);
    OpenMoves(s1, t, mode);
    var s2, a2 := Goes(s0, s1, a1, t, ReadOpen(mode), ReadCheck(mode));
    InvParts(s2);
    EmptyMoves(s2, t, mode);
    var s3, a3 := Goes(s0, s2, a2, t, ReadCheck(mode), ReadSleep(mode));
    InvParts(s3);
    SleepMoves(s3, t, mode);
    s', actions' := OneMore(s0, s3, a3, Move(t));
    BesideThen(s, s1, s2, t);
    BesideThen(s, s2, s3, t);
    BesideThen(s, s3, s', t);
  }

  lemma EmptyMoves(s: Pipe, t: Tid, mode: Mode)
    requires |s.buffer| == PIPE_SIZE && QueueOk(s) && Alone(s, t, ReadCheck(mode)) && IsEmpty(s) && s.writeOpen
    ensures t !in s.queue && OwnerStep(s, t, ReadCheck(mode)) == Goto(s, t, Owner(ReadSleep(mode)))
  {
  }

  lemma SleepMoves(s: Pipe, t: Tid, mode: Mode)
    requires |s.buffer| == PIPE_SIZE && QueueOk(s) && Alone(s, t, ReadSleep(mode))
    ensures Enabled(s, Move(t))
    ensures var s' := Step(s, Move(t));
            && s'.owner == None && Beside(s, s', t) && SameData(s, s')
            && t in s'.pcs && s'.pcs[t] == Asleep(OnRead, ReadLoop(mode, []))
  {
  }

  /** pipe_write of bytes for which there is room. */
  lemma WritesAll(s0: Pipe, s: Pipe, actions: seq<Action>, t: Tid, data: seq<Byte>)
    returns (s': Pipe, actions': seq<Action>)
    requires Run(s0, s, actions) && Inv(s) && Free(s) && t in s.pcs && s.pcs[t].Idle?
    requires |s.written| + |data| <= |s.taken| + PIPE_SIZE
    ensures Run(s0, s', actions') && Inv(s') && Free(s') && Beside(s, s', t) && t in s'.pcs && s'.pcs[t].Idle?
    ensures SameData(s', s.(written := s.written + data))
  {
    var s1, a1 := Enters(s0, s, actions, Write(t, data));
    var s2, a2 := Stores(s0, s1, a1, t, data, 0, |data|);
    InvParts(s2);
    var s3, a3 := Goes(s0, s2, a2, t, WriteLoop(data, |data|), WriteSignal);
    InvParts(s3);
    var s4, a4 := Signals(s0, s3, a3, t, WriteSignal, Exit);
    s', actions' := Leaves(s0, s4, a4, t, Exit);
    hide Run, Inv;
    assert data[0..|data|] == data;
  }

  lemma InvParts(s: Pipe)
    requires Inv(s)
    ensures |s.buffer| == PIPE_SIZE && QueueOk(s) && |s.taken| <= |s.written|
    ensures IsEmpty(s) <==> |s.written| == |s.taken|
  {
    FillLevel(s);
  }

  // ---------- Delimiters of 0x80 and above ----------

  /** With such a delimiter a read takes whatever there is. */
  lemma {:induction false} TakesAll(s0: Pipe, s: Pipe, actions: seq<Action>, t: Tid, c: Byte, got: seq<Byte>)
    returns (s': Pipe, actions': seq<Action>)
    requires Run(s0, s, actions) && Inv(s) && Alone(s, t, ReadLoop(Until(c), got)) && c >= 128
    ensures |s.taken| <= |s.written| && Run(s0, s', actions')
    ensures s'.replies == s.replies + [Reply(t, Until(c), got + s.written[|s.taken|..], Drained)]
    decreases |s.written| - |s.taken|
  {
    hide Run, Inv, Alone;
    InvParts(s);
    if |s.taken| == |s.written| {
      s', actions' := Ends(s0, s, actions, t, Until(c), got);
      assert got + s.written[|s.taken|..] == got;
    } else {
      var b := s.written[|s.taken|];
      var s1, more := TakesOne(s0, s, actions, t, Until(c), got);
      s', actions' := TakesAll(s0, s1, more, t, c, got + [b]);
      assert got + [b] + s.written[|s.taken| + 1..] == got + s.written[|s.taken|..];
    }
  }

  /** A delimited pipe_read by a task that nobody disturbs, from a pipe that is not empty. */
  lemma ReadsPastDelimiter(s0: Pipe, s: Pipe, actions: seq<Action>, t: Tid, c: Byte)
    returns (s': Pipe, actions': seq<Action>)
    requires Run(s0, s, actions) && Inv(s) && Free(s) && t in s.pcs && s.pcs[t].Idle? && s.writeOpen
    requires c >= 128 && |s.taken| < |s.written|
    ensures Run(s0, s', actions') && s'.replies == s.replies + [Reply(t, Until(c), s.written[|s.taken|..], Drained)]
  {
    hide Run, Inv, Alone;
    var s1, a1 := ReaderArrives(s0, s, actions, t, Until(c));
    s', actions' := TakesAll(s0, s1, a1, t, c, []);
    assert [] + s.written[|s.taken|..] == s.written[|s.taken|..];
  }

  /** A pipe with three tasks, as pipe_alloc leaves it. */
  function NewPipe(): Pipe {
    Pipe(seq(PIPE_SIZE, _ => 0), 0, 0, true, map[0 := Idle, 1 := Idle, 2 := Idle], None, [], [], [], [])
  }

  lemma NewPipeRuns()
    ensures Init(NewPipe()) && Inv(NewPipe()) && Free(NewPipe()) && Run(NewPipe(), NewPipe(), [])
  {
    InitInv(NewPipe());
  }

  /** One task writes 1, c, 3, another reads up to c: it gets all three bytes. */
  lemma HighDelimiterIsMissed(c: Byte) returns (s: Pipe, actions: seq<Action>)
    requires c >= 128
    ensures Init(NewPipe()) && Run(NewPipe(), s, actions) && s.replies == [Reply(1, Until(c), [1, c, 3], Drained)]
  {
    NewPipeRuns();
    var s1, a1 := WritesAll(NewPipe(), NewPipe(), [], 0, [1, c, 3]);
    hide Run, Inv;
    assert s1.written == [1, c, 3] && s1.written[0..] == s1.written;
    s, actions := ReadsPastDelimiter(NewPipe(), s1, a1, 1, c);
  }

  /** Every read up to `c` that returned one ended there. */
  ghost predicate Honoured(s: Pipe, c: Byte) {
    forall r :: r in s.replies && r.mode == Until(c) && c in r.bytes ==> EndsAt(r.bytes, c)
  }

  /** In every run, reads that meet their delimiter end there, if and only if it is below 0x80. */
  lemma DelimiterHonouredIff(c: Byte)
    ensures (forall s0, s, actions :: Init(s0) && Run(s0, s, actions) ==> Honoured(s, c)) <==> c < 128
  {
    if c < 128 {
      forall s0, s, actions | Init(s0) && Run(s0, s, actions)
        ensures Honoured(s, c)
      {
        RepliesOk(s0, s, actions);
      }
    } else {
      var s, actions := HighDelimiterIsMissed(c);
      assert !EndsAt([1, c, 3], c);
      assert s.replies[0] in s.replies && !Honoured(s, c);
    }
  }

  lemma RepliesOk(s0: Pipe, s: Pipe, actions: seq<Action>)
    requires Init(s0) && Run(s0, s, actions)
    ensures forall r :: r in s.replies ==> ReplyOk(r)
  {
    forall k | 0 <= k < |s.replies|
      ensures ReplyOk(s.replies[k])
    {
      ReadsAreSlices(s0, s, actions, k);
    }
  }

  // ---------- When a sleeping writer can still be woken ----------

  /** Past the test of write_open in pipe_read. */
  predicate Reading(code: Code) {
    code.ReadCheck? || code.ReadSleep? || code.ReadLoop? || code.ReadSignal?
  }

  /** The write side is closed, nobody is reading, and task `w` sleeps until somebody reads. */
  ghost predicate Stranded(s: Pipe, w: Tid) {
    && !s.writeOpen && w in s.pcs && s.pcs[w].Asleep? && s.pcs[w].on == OnWrite
    && forall t :: t in s.pcs && !s.pcs[t].Idle? ==> !Reading(s.pcs[t].code)
  }

  lemma StrandedGoto(s: Pipe, t: Tid, pc: Pc, w: Tid)
    requires Stranded(s, w) && t != w && (pc.Idle? || !Reading(pc.code))
    ensures Stranded(Goto(s, t, pc), w)
  {
  }

  lemma StrandedSignal(s: Pipe, t: Tid, code: Code, w: Tid)
    requires Stranded(s, w) && t != w && !Reading(code)
    ensures Stranded(Goto(Signal(s, OnRead), t, Owner(code)), w)
  {
    assert Stranded(Signal(s, OnRead), w);
    StrandedGoto(Signal(s, OnRead), t, Owner(code), w);
  }

  lemma StrandedRelease(s: Pipe, t: Tid, pc: Pc, w: Tid)
    requires Stranded(s, w) && QueueOk(s) && t !in s.queue && t != w && (pc.Idle? || !Reading(pc.code))
    ensures Stranded(Release(Goto(s, t, pc)), w)
  {
    StrandedGoto(s, t, pc, w);
    if s.queue != [] {
      assert s.pcs[s.queue[0]].Queued?;
      StrandedGoto(Goto(s, t, pc), s.queue[0], Owner(s.pcs[s.queue[0]].code), w);
    }
  }

  lemma StrandedOwnerStep(s: Pipe, t: Tid, w: Tid)
    requires Stranded(s, w) && |s.buffer| == PIPE_SIZE && QueueOk(s) && t in s.pcs && s.pcs[t].Owner? && t !in s.queue
    ensures Stranded(OwnerStep(s, t, s.pcs[t].code), w) && OwnerStep(s, t, s.pcs[t].code).taken == s.taken
  {
    match s.pcs[t].code
    case WriteLoop(data, i) =>
      hide Stranded;
      if i >= |data| {
        StrandedGoto(s, t, Owner(WriteSignal), w);
      } else if IsFull(s) {
        StrandedSignal(s, t, WriteSleep(data, i), w);
      } else {
        StrandedStore(s, data[i], w);
        StrandedGoto(Store(s, data[i]), t, Owner(WriteLoop(data, i + 1)), w);
      }
    case WriteSleep(data, i) => StrandedRelease(s, t, Asleep(OnWrite, WriteLoop(data, i)), w);
    case WriteSignal => StrandedSignal(s, t, Exit, w);
    case ReadOpen(mode) => StrandedRefuse(s, t, mode, w);
    case CloseSet => StrandedGoto(s, t, Owner(CloseSignal), w);
    case CloseSignal => StrandedSignal(s, t, Exit, w);
    case Exit => StrandedRelease(s, t, Idle, w);
    case _ => assert false;
  }

  lemma StrandedRefuse(s: Pipe, t: Tid, mode: Mode, w: Tid)
    requires Stranded(s, w) && t != w
    ensures Stranded(Refuse(s, t, mode), w)
  {
  }

  lemma StrandedStore(s: Pipe, b: Byte, w: Tid)
    requires Stranded(s, w) && |s.buffer| == PIPE_SIZE
    ensures Stranded(Store(s, b), w)
  {
  }

  /** No step of any task reads a byte or wakes the writer. */
  lemma StrandedStep(s: Pipe, a: Action, w: Tid)
    requires Stranded(s, w) && |s.buffer| == PIPE_SIZE && QueueOk(s) && Enabled(s, a)
    ensures Stranded(Step(s, a), w) && Step(s, a).taken == s.taken
  {
    match a
    case Write(t, data) => StrandedGoto(s, t, Contend(WriteLoop(data, 0)), w);
    case Read(t, mode) => StrandedGoto(s, t, Contend(ReadOpen(mode)), w);
    case Close(t) => StrandedGoto(s, t, Contend(CloseSet), w);
    case Move(t) =>
      if s.pcs[t].Contend? {
        StrandedGoto(s, t, if s.owner.None? then Owner(s.pcs[t].code) else Queued(s.pcs[t].code), w);
      } else {
        StrandedOwnerStep(s, t, w);
      }
  }

  lemma {:induction false} StrandedForEver(s: Pipe, s': Pipe, actions: seq<Action>, w: Tid)
    requires Inv(s) && Stranded(s, w) && Run(s, s', actions)
    ensures Stranded(s', w) && s'.taken == s.taken
    decreases |actions|
  {
    if actions == [] {
    } else {
      StepKeepsInv(s, actions[0]);
      StrandedStep(s, actions[0], w);
      StrandedForEver(Step(s, actions[0]), s', actions[1..], w);
    }
  }

  lemma SignalWakes(s0: Pipe, s: Pipe, actions: seq<Action>, r: Tid, w: Tid) returns (s': Pipe, actions': seq<Action>)
    requires Run(s0, s, actions) && Inv(s) && Alone(s, r, ReadSignal)
    requires w in s.pcs && s.pcs[w].Asleep? && s.pcs[w].on == OnWrite
    ensures Run(s0, s', actions') && w in s'.pcs && s'.pcs[w].Contend?
  {
    InvParts(s);
    hide Run, Inv;
    s', actions' := OneMore(s0, s, actions, Move(r));
  }

  /** A read of one byte from a pipe with a sleeping writer wakes the writer. */
  lemma ReadOneByte(s: Pipe, r: Tid, w: Tid) returns (s': Pipe, actions: seq<Action>)
    requires Inv(s) && Free(s) && s.writeOpen && |s.taken| < |s.written| && r in s.pcs && s.pcs[r].Idle?
    requires w in s.pcs && s.pcs[w].Asleep? && s.pcs[w].on == OnWrite
    ensures Run(s, s', actions) && w in s'.pcs && s'.pcs[w].Contend?
  {
    hide Run, Inv, Alone;
    var mode := UpTo(1);
    RunNothing(s);
    var s1, a1 := ReaderArrives(s, s, [], r, mode);
    var s2, a2 := TakesOne(s, s1, a1, r, mode, []);
    var s3, a3 := Ends(s, s2, a2, r, mode, [] + [s1.written[|s1.taken|]]);
    s', actions := SignalWakes(s, s3, a3, r, w);
  }

  lemma RunNothing(s: Pipe)
    ensures Run(s, s, [])
  {
  }

  /**
    A writer asleep at a standstill can still be woken if and only if the write side is open.
    Once it is closed every read fails, and what is in the ring is never read.
  */
  lemma WriterWakesIff(s0: Pipe, s: Pipe, actions: seq<Action>, w: Tid, r: Tid)
    requires Init(s0) && Run(s0, s, actions) && Standstill(s)
    requires w in s.pcs && s.pcs[w].Asleep? && s.pcs[w].on == OnWrite && r in s.pcs && s.pcs[r].Idle?
    ensures (exists s', more :: Run(s, s', more) && w in s'.pcs && !s'.pcs[w].Asleep?) <==> s.writeOpen
  {
    WriterAsleep(s0, s, actions, w);
    hide Run, Inv;
    if s.writeOpen {
      var s', more := ReadOneByte(s, r, w);
    } else {
      forall s', more | Run(s, s', more)
        ensures w in s'.pcs && s'.pcs[w].Asleep?
      {
        StrandedForEver(s, s', more, w);
      }
    }
  }

  /** What a standstill with a sleeping writer looks like. */
  lemma WriterAsleep(s0: Pipe, s: Pipe, actions: seq<Action>, w: Tid)
    requires Init(s0) && Run(s0, s, actions) && Standstill(s)
    requires w in s.pcs && s.pcs[w].Asleep? && s.pcs[w].on == OnWrite
    ensures Inv(s) && Free(s) && |s.taken| < |s.written| && (!s.writeOpen ==> Stranded(s, w))
  {
    InitInv(s0);
    RunKeepsInv(s0, s, actions);
    StandstillLeavesOneSide(s0, s, actions);
    NoLostWakeup(s0, s, actions);
    assert Sleeps(s, OnWrite);
    hide Run, DataInv, SleepInv;
    forall t | t in s.pcs && s.pcs[t].Asleep?
      ensures s.pcs[t].on == OnWrite && EntryOk(s.pcs[t])
    {
      assert Sleeps(s, s.pcs[t].on);
    }
  }

  /** One byte more than the pipe holds is written, and the write side closed: the writer is stranded. */
  lemma ClosedWriterIsStranded() returns (s: Pipe, actions: seq<Action>)
    ensures Init(NewPipe()) && Run(NewPipe(), s, actions) && Stranded(s, 0) && |s.written| == |s.taken| + PIPE_SIZE
    ensures Standstill(s) && 2 in s.pcs && s.pcs[2].Idle?
  {
    hide Run, Inv;
    NewPipeRuns();
    var data: seq<Byte> := seq(PIPE_SIZE + 1, _ => 7);
    var s1, a1 := WriterBlocks(NewPipe(), NewPipe(), [], 0, data);
    s, actions := Closes(NewPipe(), s1, a1, 1);
    SleeperIsWriting(s, 0);
  }

  lemma SleeperIsWriting(s: Pipe, w: Tid)
    requires Inv(s) && w in s.pcs && s.pcs[w].Asleep? && s.pcs[w].on == OnWrite
    ensures s.pcs[w].code.WriteLoop?
  {
    assert EntryOk(s.pcs[w]);
  }

  /** pipe_write of one byte too many goes to sleep. */
  lemma WriterBlocks(s0: Pipe, s: Pipe, actions: seq<Action>, t: Tid, data: seq<Byte>)
    returns (s': Pipe, actions': seq<Action>)
    requires Run(s0, s, actions) && Inv(s) && Free(s) && t in s.pcs && s.pcs[t].Idle?
    requires |s.written| == |s.taken| && |data| > PIPE_SIZE
    ensures Run(s0, s', actions') && Inv(s') && Free(s') && Beside(s, s', t) && t in s'.pcs && s'.pcs[t].Asleep?
    ensures |s'.written| == |s'.taken| + PIPE_SIZE
  {
    var s1, a1 := Enters(s0, s, actions, Write(t, data));
    var s2, a2 := Stores(s0, s1, a1, t, data, 0, PIPE_SIZE);
    InvParts(s2);
    FillLevel(s2);
    var s3, a3 := Signals(s0, s2, a2, t, WriteLoop(data, PIPE_SIZE), WriteSleep(data, PIPE_SIZE));
    hide Run, Inv;
    s', actions' := Leaves(s0, s3, a3, t, WriteSleep(data, PIPE_SIZE));
  }

  /** pipe_close of the write side. */
  lemma Closes(s0: Pipe, s: Pipe, actions: seq<Action>, t: Tid) returns (s': Pipe, actions': seq<Action>)
    requires Run(s0, s, actions) && Inv(s) && Free(s) && t in s.pcs && s.pcs[t].Idle?
    ensures Run(s0, s', actions') && Inv(s') && Free(s') && Beside(s, s', t) && t in s'.pcs && s'.pcs[t].Idle?
    ensures !s'.writeOpen && s'.written == s.written && s'.taken == s.taken
  {
    hide Run, Inv, OwnerStep, Beside;
    var s1, a1 := Enters(s0, s, actions, Close(t));
    InvParts(s1);
    CloseMoves(s1, t);
    var s2, a2 := OneMore(s0, s1, a1, Move(t));
    InvParts(s2);
    SignalMoves(s2, t);
    var s3, a3 := Signals(s0, s2, a2, t, CloseSignal, Exit);
    s', actions' := Leaves(s0, s3, a3, t, Exit);
    BesideThen(s, s1, s2, t);
    BesideThen(s, s2, s3, t);
    BesideThen(s, s3, s', t);
    BesideKeys(s, s', t);
  }

  lemma CloseMoves(s: Pipe, t: Tid)
    requires |s.buffer| == PIPE_SIZE && QueueOk(s) && Alone(s, t, CloseSet)
    ensures var s' := Step(s, Move(t));
            Alone(s', t, CloseSignal) && Beside(s, s', t) && SameData(s', s.(writeOpen := false))
  {
  }

  lemma SignalMoves(s: Pipe, t: Tid)
    requires |s.buffer| == PIPE_SIZE && QueueOk(s) && Alone(s, t, CloseSignal)
    ensures t !in s.queue && OwnerStep(s, t, CloseSignal) == Goto(Signal(s, OnRead), t, Owner(Exit))
  {
  }

  lemma BesideKeys(s: Pipe, s': Pipe, t: Tid)
    requires Beside(s, s', t)
    ensures s'.pcs.Keys == s.pcs.Keys
  {
  }
}
