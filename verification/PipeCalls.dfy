/**
  What the calls of src/kernel/fs/pipe.c are given and what becomes of it, over every
  interleaving: every byte handed to pipe_write is stored, once and in order, and every
  pipe_read is answered in its own mode, in order.
*/
module PipeCalls {
  import opened Common
  import opened PipeSpec

  // ---------- What a task is in the middle of ----------

  function CodeOf(pc: Pc): Option<Code> {
    if pc.Idle? then None else Some(pc.code)
  }

  /** The bytes that a task's current call has yet to store. */
  function RestOf(code: Option<Code>): seq<Byte> {
    match code
    case Some(WriteLoop(data, i)) => if i <= |data| then data[i..] else []
    case Some(WriteSleep(data, i)) => if i <= |data| then data[i..] else []
    case _ => []
  }

  /** The mode of the read that a task has not been answered yet, if any. */
  function ModeOf(code: Option<Code>): seq<Mode> {
    match code
    case Some(ReadOpen(mode)) => [mode]
    case Some(ReadCheck(mode)) => [mode]
    case Some(ReadSleep(mode)) => [mode]
    case Some(ReadLoop(mode, _)) => [mode]
    case _ => []
  }

  function At(s: Pipe, t: Tid): Option<Code> {
    if t in s.pcs then CodeOf(s.pcs[t]) else None
  }

  /** The state is one in which the action can be taken. */
  ghost predicate Ready(s: Pipe, a: Action) {
    |s.buffer| == PIPE_SIZE && QueueOk(s) && Enabled(s, a)
  }

  // ---------- What one action is given and does ----------

  /** The bytes that a call hands over for task `t`. */
  function Given(a: Action, t: Tid): seq<Byte> {
    if a.Write? && a.t == t then a.data else []
  }

  /** The mode of a read that task `t` calls for. */
  function Asked(a: Action, t: Tid): seq<Mode> {
    if a.Read? && a.t == t then [a.mode] else []
  }

  /** Tasks other than the one that moves stay in the middle of what they are in. */
  lemma OthersStay(s: Pipe, a: Action, u: Tid)
    requires Ready(s, a) && u != a.t
    ensures At(Step(s, a), u) == At(s, u)
  {
    if a.Move? && s.pcs[a.t].Owner? {
      OthersStayOwner(s, a.t, s.pcs[a.t].code, u);
    }
  }

  lemma ReleaseStays(s: Pipe, u: Tid)
    requires s.queue != [] ==> s.queue[0] in s.pcs && s.pcs[s.queue[0]].Queued?
    ensures At(Release(s), u) == At(s, u)
  {
  }

  lemma OthersStayOwner(s: Pipe, t: Tid, code: Code, u: Tid)
    requires |s.buffer| == PIPE_SIZE && QueueOk(s) && t in s.pcs && t !in s.queue && u != t
    ensures At(OwnerStep(s, t, code), u) == At(s, u)
  {
    match code
    case WriteLoop(data, i) =>
    case WriteSleep(data, i) => LeavesStays(s, t, Asleep(OnWrite, WriteLoop(data, i)), u);
    case WriteSignal =>
    case ReadOpen(mode) =>
    case ReadCheck(mode) =>
    case ReadSleep(mode) => LeavesStays(s, t, Asleep(OnRead, ReadLoop(mode, [])), u);
    case ReadLoop(mode, got) =>
    case ReadSignal =>
    case CloseSet =>
    case CloseSignal =>
    case Exit => LeavesStays(s, t, Idle, u);
  }

  lemma LeavesStays(s: Pipe, t: Tid, pc: Pc, u: Tid)
    requires QueueOk(s) && t in s.pcs && t !in s.queue && u != t
    ensures At(Release(Goto(s, t, pc)), u) == At(s, u)
  {
    ReleaseStays(Goto(s, t, pc), u);
  }

  function Modes(replies: seq<Reply>): seq<Mode> {
    seq(|replies|, i requires 0 <= i < |replies| => replies[i].mode)
  }

  /**
    The law of one step for the task that moves, in which `bytes` are stored and `answers`
    given: what it was given before and now is what it stores now and has yet to store, and
    the reads it called for are those answered now, in their modes, and those still to be
    answered.
  */
  ghost predicate Accounts(s: Pipe, s': Pipe, t: Tid, given: seq<Byte>, asked: seq<Mode>,
                           bytes: seq<Byte>, answers: seq<Reply>) {
    && s'.written == s.written + bytes && s'.replies == s.replies + answers
    && RestOf(At(s, t)) + given == bytes + RestOf(At(s', t))
    && ModeOf(At(s, t)) + asked == Modes(answers) + ModeOf(At(s', t))
    && forall i :: 0 <= i < |answers| ==> answers[i].reader == t
  }

  /** A step that stores and answers nothing. */
  lemma NothingNew(s: Pipe, s': Pipe, t: Tid, given: seq<Byte>, asked: seq<Mode>)
    requires s'.written == s.written && s'.replies == s.replies
    requires RestOf(At(s, t)) + given == RestOf(At(s', t)) && ModeOf(At(s, t)) + asked == ModeOf(At(s', t))
    ensures Accounts(s, s', t, given, asked, [], [])
  {
    assert Modes([]) == [] && s.written + [] == s.written && s.replies + [] == s.replies;
    assert [] + RestOf(At(s', t)) == RestOf(At(s', t)) && [] + ModeOf(At(s', t)) == ModeOf(At(s', t));
  }

  /** A step that stores one byte. */
  lemma OneByte(s: Pipe, s': Pipe, t: Tid, b: Byte)
    requires s'.written == s.written + [b] && s'.replies == s.replies
    requires RestOf(At(s, t)) == [b] + RestOf(At(s', t)) && ModeOf(At(s, t)) == ModeOf(At(s', t))
    ensures Accounts(s, s', t, [], [], [b], [])
  {
    assert Modes([]) == [] && s.replies + [] == s.replies;
    assert RestOf(At(s, t)) + [] == RestOf(At(s, t)) && ModeOf(At(s, t)) + [] == ModeOf(At(s, t));
    assert [] + ModeOf(At(s', t)) == ModeOf(At(s', t));
  }

  /** A step that answers one read. */
  lemma OneReply(s: Pipe, s': Pipe, t: Tid, r: Reply)
    requires s'.written == s.written && s'.replies == s.replies + [r] && r.reader == t
    requires RestOf(At(s, t)) == RestOf(At(s', t)) && ModeOf(At(s, t)) == [r.mode] + ModeOf(At(s', t))
    ensures Accounts(s, s', t, [], [], [], [r])
  {
    assert Modes([r]) == [r.mode] && s.written + [] == s.written;
    assert RestOf(At(s, t)) + [] == RestOf(At(s, t)) && ModeOf(At(s, t)) + [] == ModeOf(At(s, t));
    assert [] + RestOf(At(s', t)) == RestOf(At(s', t));
  }

  lemma WriterAccounts(s: Pipe, t: Tid, code: Code) returns (bytes: seq<Byte>, answers: seq<Reply>)
    requires |s.buffer| == PIPE_SIZE && QueueOk(s) && t in s.pcs && s.pcs[t] == Owner(code) && t !in s.queue
    requires code.WriteLoop? || code.WriteSleep? || code.WriteSignal?
    ensures Accounts(s, OwnerStep(s, t, code), t, [], [], bytes, answers)
  {
    var s' := OwnerStep(s, t, code);
    bytes, answers := [], [];
    hide Accounts;
    match code
    case WriteLoop(data, i) =>
      if i < |data| && !IsFull(s) {
        assert data[i..] == [data[i]] + data[i + 1..];
        OneByte(s, s', t, data[i]);
        bytes := [data[i]];
      } else {
        NothingNew(s, s', t, [], []);
      }
    case WriteSleep(data, i) =>
      var pc := Asleep(OnWrite, WriteLoop(data, i));
      ReleaseStays(Goto(s, t, pc), t);
      assert At(Goto(s, t, pc), t) == Some(pc.code);
      NothingNew(s, s', t, [], []);
    case WriteSignal =>
      NothingNew(s, s', t, [], []);
  }

  lemma ReaderAccounts(s: Pipe, t: Tid, code: Code) returns (bytes: seq<Byte>, answers: seq<Reply>)
    requires |s.buffer| == PIPE_SIZE && QueueOk(s) && t in s.pcs && s.pcs[t] == Owner(code) && t !in s.queue
    requires code.ReadOpen? || code.ReadCheck? || code.ReadSleep? || code.ReadLoop? || code.ReadSignal?
    ensures Accounts(s, OwnerStep(s, t, code), t, [], [], bytes, answers)
  {
    var s' := OwnerStep(s, t, code);
    bytes, answers := [], [];
    hide Accounts;
    match code
    case ReadOpen(mode) =>
      if s.writeOpen {
        NothingNew(s, s', t, [], []);
      } else {
        answers := [Reply(t, mode, [], Closed)];
        OneReply(s, s', t, answers[0]);
      }
    case ReadCheck(mode) => NothingNew(s, s', t, [], []);
    case ReadSleep(mode) =>
      var pc := Asleep(OnRead, ReadLoop(mode, []));
      ReleaseStays(Goto(s, t, pc), t);
      assert At(Goto(s, t, pc), t) == Some(pc.code);
      NothingNew(s, s', t, [], []);
    case ReadLoop(mode, got) => bytes, answers := LoopAccounts(s, t, mode, got);
    case ReadSignal => NothingNew(s, s', t, [], []);
  }

  lemma LoopAccounts(s: Pipe, t: Tid, mode: Mode, got: seq<Byte>) returns (bytes: seq<Byte>, answers: seq<Reply>)
    requires |s.buffer| == PIPE_SIZE && QueueOk(s) && t !in s.queue
    requires t in s.pcs && s.pcs[t] == Owner(ReadLoop(mode, got))
    ensures Accounts(s, OwnerStep(s, t, ReadLoop(mode, got)), t, [], [], bytes, answers)
  {
    var s' := OwnerStep(s, t, ReadLoop(mode, got));
    bytes, answers := [], [];
    hide Accounts;
    if (mode.UpTo? && |got| >= mode.n) || IsEmpty(s) {
      answers := [Reply(t, mode, got, EndingOf(s))];
      OneReply(s, s', t, answers[0]);
    } else if Matches(mode, Head(s)) {
      answers := [Reply(t, mode, got + [Head(s)], EndingOf(Take(s)))];
      OneReply(s, s', t, answers[0]);
    } else {
      NothingNew(s, s', t, [], []);
    }
  }

  lemma OwnerAccounts(s: Pipe, t: Tid, code: Code) returns (bytes: seq<Byte>, answers: seq<Reply>)
    requires |s.buffer| == PIPE_SIZE && QueueOk(s) && t in s.pcs && s.pcs[t] == Owner(code) && t !in s.queue
    ensures Accounts(s, OwnerStep(s, t, code), t, [], [], bytes, answers)
  {
    var s' := OwnerStep(s, t, code);
    bytes, answers := [], [];
    hide Accounts;
    if code.WriteLoop? || code.WriteSleep? || code.WriteSignal? {
      bytes, answers := WriterAccounts(s, t, code);
    } else if code.CloseSet? || code.CloseSignal? {
      NothingNew(s, s', t, [], []);
    } else if code.Exit? {
      ReleaseStays(Goto(s, t, Idle), t);
      assert At(Goto(s, t, Idle), t) == None;
      NothingNew(s, s', t, [], []);
    } else {
      bytes, answers := ReaderAccounts(s, t, code);
    }
  }

  lemma StepAccounts(s: Pipe, a: Action) returns (bytes: seq<Byte>, answers: seq<Reply>)
    requires Ready(s, a)
    ensures Accounts(s, Step(s, a), a.t, Given(a, a.t), Asked(a, a.t), bytes, answers)
  {
    var s' := Step(s, a);
    bytes, answers := [], [];
    hide Accounts;
    match a
    case Write(t, data) =>
      assert RestOf(At(s', t)) == data[0..] == data && [] + data == data;
      NothingNew(s, s', t, data, []);
    case Read(t, mode) => NothingNew(s, s', t, [], [mode]);
    case Close(t) => NothingNew(s, s', t, [], []);
    case Move(t) =>
      if s.pcs[t].Contend? {
        NothingNew(s, s', t, [], []);
      } else {
        bytes, answers := OwnerAccounts(s, t, s.pcs[t].code);
      }
  }

  // ---------- Whole runs ----------

  /** Every byte stored during a run, with the task that stored it. */
  ghost function Log(s: Pipe, actions: seq<Action>): seq<(Tid, Byte)>
    decreases |actions|
  {
    if actions == [] || !Ready(s, actions[0]) then []
    else
      var s' := Step(s, actions[0]);
      var stored := if |s.written| <= |s'.written| then s'.written[|s.written|..] else [];
      Tagged(actions[0].t, stored) + Log(s', actions[1..])
  }

  function Tagged(t: Tid, bytes: seq<Byte>): seq<(Tid, Byte)> {
    seq(|bytes|, i requires 0 <= i < |bytes| => (t, bytes[i]))
  }

  /** The bytes of the log, and those of one task. */
  function Bytes(log: seq<(Tid, Byte)>): seq<Byte> {
    if log == [] then [] else [log[0].1] + Bytes(log[1..])
  }

  function By(log: seq<(Tid, Byte)>, t: Tid): seq<Byte> {
    if log == [] then [] else (if log[0].0 == t then [log[0].1] else []) + By(log[1..], t)
  }

  /** All that task `t` handed to pipe_write, and the modes of all its reads. */
  function AllGiven(actions: seq<Action>, t: Tid): seq<Byte> {
    if actions == [] then [] else Given(actions[0], t) + AllGiven(actions[1..], t)
  }

  function AllAsked(actions: seq<Action>, t: Tid): seq<Mode> {
    if actions == [] then [] else Asked(actions[0], t) + AllAsked(actions[1..], t)
  }

  /** The modes in which task `t` was answered. */
  function AnsweredTo(replies: seq<Reply>, t: Tid): seq<Mode> {
    if replies == [] then []
    else (if replies[0].reader == t then [replies[0].mode] else []) + AnsweredTo(replies[1..], t)
  }

  lemma {:induction false} LogAppend(a: seq<(Tid, Byte)>, b: seq<(Tid, Byte)>, t: Tid)
    ensures Bytes(a + b) == Bytes(a) + Bytes(b) && By(a + b, t) == By(a, t) + By(b, t)
    decreases |a|
  {
    if a == [] {
      assert a + b == b;
    } else {
      assert (a + b)[0] == a[0] && (a + b)[1..] == a[1..] + b;
      LogAppend(a[1..], b, t);
      var mine := if a[0].0 == t then [a[0].1] else [];
      Assoc([a[0].1], Bytes(a[1..]), Bytes(b));
      Assoc(mine, By(a[1..], t), By(b, t));
    }
  }

  lemma {:induction false} TaggedBytes(t: Tid, bytes: seq<Byte>, u: Tid)
    ensures Bytes(Tagged(t, bytes)) == bytes && By(Tagged(t, bytes), u) == if u == t then bytes else []
    decreases |bytes|
  {
    if bytes == [] {
    } else {
      assert Tagged(t, bytes)[0] == (t, bytes[0]) && Tagged(t, bytes)[1..] == Tagged(t, bytes[1..]);
      TaggedBytes(t, bytes[1..], u);
      assert [bytes[0]] + bytes[1..] == bytes;
    }
  }

  lemma {:induction false} AnsweredAppend(a: seq<Reply>, b: seq<Reply>, t: Tid)
    ensures AnsweredTo(a + b, t) == AnsweredTo(a, t) + AnsweredTo(b, t)
    decreases |a|
  {
    if a == [] {
      assert a + b == b;
    } else {
      assert (a + b)[0] == a[0] && (a + b)[1..] == a[1..] + b;
      AnsweredAppend(a[1..], b, t);
      var mine := if a[0].reader == t then [a[0].mode] else [];
      Assoc(mine, AnsweredTo(a[1..], t), AnsweredTo(b, t));
    }
  }

  lemma {:induction false} AnsweredOne(replies: seq<Reply>, t: Tid, u: Tid)
    requires forall i :: 0 <= i < |replies| ==> replies[i].reader == t
    ensures AnsweredTo(replies, u) == if u == t then Modes(replies) else []
    decreases |replies|
  {
    if replies == [] {
    } else {
      AnsweredOne(replies[1..], t, u);
      assert Modes(replies) == [replies[0].mode] + Modes(replies[1..]);
    }
  }

  /** What a stretch of a run did for task `t`: the bytes stored, tagged, and the answers given. */
  ghost predicate Settled(s: Pipe, s': Pipe, t: Tid, given: seq<Byte>, asked: seq<Mode>,
                          log: seq<(Tid, Byte)>, answers: seq<Reply>) {
    && s'.written == s.written + Bytes(log) && s'.replies == s.replies + answers
    && RestOf(At(s, t)) + given == By(log, t) + RestOf(At(s', t))
    && ModeOf(At(s, t)) + asked == AnsweredTo(answers, t) + ModeOf(At(s', t))
  }

  lemma MoverSettles(s: Pipe, s': Pipe, t: Tid, given: seq<Byte>, asked: seq<Mode>,
                     bytes: seq<Byte>, answers: seq<Reply>)
    requires Accounts(s, s', t, given, asked, bytes, answers)
    ensures Settled(s, s', t, given, asked, Tagged(t, bytes), answers)
  {
    TaggedBytes(t, bytes, t);
    AnsweredOne(answers, t, t);
    hide RestOf, ModeOf, At, Tagged, Modes, Bytes, By, AnsweredTo;
  }

  lemma OtherSettles(s: Pipe, s': Pipe, mover: Tid, t: Tid, given: seq<Byte>, asked: seq<Mode>,
                     bytes: seq<Byte>, answers: seq<Reply>)
    requires Accounts(s, s', mover, given, asked, bytes, answers) && t != mover && At(s', t) == At(s, t)
    ensures Settled(s, s', t, [], [], Tagged(mover, bytes), answers)
  {
    TaggedBytes(mover, bytes, t);
    AnsweredOne(answers, mover, t);
    hide RestOf, ModeOf, At, Tagged, Modes, Bytes, By, AnsweredTo;
    assert RestOf(At(s, t)) + [] == [] + RestOf(At(s, t)) && ModeOf(At(s, t)) + [] == [] + ModeOf(At(s, t));
  }

  lemma Suffix(w: seq<Byte>, bytes: seq<Byte>)
    ensures (w + bytes)[|w|..] == bytes
  {
  }

  lemma StepSettles(s: Pipe, a: Action, t: Tid) returns (bytes: seq<Byte>, answers: seq<Reply>)
    requires Ready(s, a)
    ensures Step(s, a).written == s.written + bytes
    ensures Settled(s, Step(s, a), t, Given(a, t), Asked(a, t), Tagged(a.t, bytes), answers)
  {
    hide Step, Settled, At, Tagged;
    bytes, answers := StepAccounts(s, a);
    if t != a.t {
      OthersStay(s, a, t);
      OtherSettles(s, Step(s, a), a.t, t, Given(a, a.t), Asked(a, a.t), bytes, answers);
    } else {
      MoverSettles(s, Step(s, a), a.t, Given(a, a.t), Asked(a, a.t), bytes, answers);
    }
  }

  lemma Regroup<T>(r0: seq<T>, g0: seq<T>, b0: seq<T>, r1: seq<T>, g1: seq<T>, b1: seq<T>, r2: seq<T>)
    requires r0 + g0 == b0 + r1 && r1 + g1 == b1 + r2
    ensures r0 + (g0 + g1) == (b0 + b1) + r2
  {
    assert r0 + (g0 + g1) == (r0 + g0) + g1;
    assert (b0 + r1) + g1 == b0 + (r1 + g1);
    assert b0 + (b1 + r2) == (b0 + b1) + r2;
  }

  lemma Assoc<T>(a: seq<T>, b: seq<T>, c: seq<T>)
    ensures a + b + c == a + (b + c)
  {
  }

  lemma SettledThen(s: Pipe, s1: Pipe, s2: Pipe, t: Tid,
                    given: seq<Byte>, asked: seq<Mode>, log: seq<(Tid, Byte)>, answers: seq<Reply>,
                    given': seq<Byte>, asked': seq<Mode>, log': seq<(Tid, Byte)>, answers': seq<Reply>)
    requires Settled(s, s1, t, given, asked, log, answers) && Settled(s1, s2, t, given', asked', log', answers')
    ensures Settled(s, s2, t, given + given', asked + asked', log + log', answers + answers')
  {
    hide RestOf, ModeOf, At, Bytes, By, AnsweredTo;
    LogAppend(log, log', t);
    AnsweredAppend(answers, answers', t);
    Regroup(RestOf(At(s, t)), given, By(log, t), RestOf(At(s1, t)), given', By(log', t), RestOf(At(s2, t)));
    Regroup(ModeOf(At(s, t)), asked, AnsweredTo(answers, t), ModeOf(At(s1, t)), asked', AnsweredTo(answers', t),
            ModeOf(At(s2, t)));
    Assoc(s.written, Bytes(log), Bytes(log'));
    Assoc(s.replies, answers, answers');
  }

  lemma {:induction false} RunSettles(s: Pipe, s': Pipe, actions: seq<Action>, t: Tid) returns (answers: seq<Reply>)
    requires Run(s, s', actions)
    ensures Settled(s, s', t, AllGiven(actions, t), AllAsked(actions, t), Log(s, actions), answers)
    decreases |actions|
  {
    if actions == [] {
      answers := [];
    } else {
      hide Settled, Step, Tagged, Given, Asked;
      var s1 := Step(s, actions[0]);
      var bytes, now := StepSettles(s, actions[0], t);
      Suffix(s.written, bytes);
      var later := RunSettles(s1, s', actions[1..], t);
      SettledThen(s, s1, s', t, Given(actions[0], t), Asked(actions[0], t), Tagged(actions[0].t, bytes), now,
                  AllGiven(actions[1..], t), AllAsked(actions[1..], t), Log(s1, actions[1..]), later);
      answers := now + later;
    }
  }

  /**
    Over every interleaving, what a task handed to pipe_write is what it stored, in order,
    followed by what its current call has yet to store; and `written` is what all tasks
    stored, in the order in which they did.
  */
  lemma WritersLoseNothing(s0: Pipe, s: Pipe, actions: seq<Action>, t: Tid)
    requires Init(s0) && Run(s0, s, actions)
    ensures s.written == Bytes(Log(s0, actions))
    ensures AllGiven(actions, t) == By(Log(s0, actions), t) + RestOf(At(s, t))
  {
    var answers := RunSettles(s0, s, actions, t);
    assert RestOf(At(s0, t)) == [];
    hide Log, AllGiven, Run;
    assert [] + AllGiven(actions, t) == AllGiven(actions, t) && [] + Bytes(Log(s0, actions)) == Bytes(Log(s0, actions));
  }

  /**
    Over every interleaving, the reads of a task are answered in order, each in its own mode;
    at most its last read is still unanswered.
  */
  lemma ReadsAreAnswered(s0: Pipe, s: Pipe, actions: seq<Action>, t: Tid)
    requires Init(s0) && Run(s0, s, actions)
    ensures AllAsked(actions, t) == AnsweredTo(s.replies, t) + ModeOf(At(s, t))
  {
    var answers := RunSettles(s0, s, actions, t);
    assert ModeOf(At(s0, t)) == [] && s.replies == [] + answers == answers;
    hide Log, AllAsked, Run;
    assert [] + AllAsked(actions, t) == AllAsked(actions, t);
  }

  // ---------- When a reply was given ----------

  /** A reply tells the truth about the pipe at the moment it was given. */
  ghost predicate Truthful(s: Pipe, r: Reply) {
    match r.ending
    case Closed => !s.writeOpen
    case Drained => |s.taken| == |s.written|
    case Ample => |s.taken| < |s.written|
  }

  /** A step gives at most one reply, from what it finds in the pipe. */
  lemma NewReply(s: Pipe, a: Action)
    requires Ready(s, a)
    ensures var s' := Step(s, a);
            && s.replies <= s'.replies && |s'.replies| <= |s.replies| + 1
            && (|s'.replies| > |s.replies| ==>
                  var r := s'.replies[|s.replies|];
                  if r.ending == Closed then !s'.writeOpen else (r.ending == Drained <==> IsEmpty(s')))
  {
    hide QueueOk;
  }

  lemma NewReplyTrue(s: Pipe, a: Action)
    requires Inv(s) && Enabled(s, a)
    ensures var s' := Step(s, a);
            && s.replies <= s'.replies && |s'.replies| <= |s.replies| + 1
            && (|s'.replies| > |s.replies| ==> Truthful(s', s'.replies[|s.replies|]))
  {
    StepKeepsInv(s, a);
    FillLevel(Step(s, a));
    assert Ready(s, a);
    hide Step, MutexInv, EntryInv, SleepInv;
    NewReply(s, a);
  }

  lemma {:induction false} RepliesGrow(s: Pipe, s': Pipe, actions: seq<Action>)
    requires Inv(s) && Run(s, s', actions)
    ensures s.replies <= s'.replies
    decreases |actions|
  {
    if actions == [] {
    } else {
      StepKeepsInv(s, actions[0]);
      NewReplyTrue(s, actions[0]);
      hide Inv, Step;
      RepliesGrow(Step(s, actions[0]), s', actions[1..]);
    }
  }

  lemma {:induction false} ReplyMoment(s: Pipe, s': Pipe, actions: seq<Action>, k: nat) returns (n: nat, mid: Pipe)
    requires Inv(s) && Run(s, s', actions) && |s.replies| <= k < |s'.replies|
    ensures n <= |actions| && Run(s, mid, actions[..n]) && Run(mid, s', actions[n..])
    ensures |mid.replies| == k + 1 && mid.replies[k] == s'.replies[k] && Truthful(mid, s'.replies[k])
    decreases |actions|
  {
    hide Inv, Step, Truthful;
    var s1 := Step(s, actions[0]);
    StepKeepsInv(s, actions[0]);
    NewReplyTrue(s, actions[0]);
    if |s1.replies| > k {
      n, mid := 1, s1;
      RepliesGrow(s1, s', actions[1..]);
      assert actions[..1][1..] == [] && Run(s1, s1, []);
    } else {
      n, mid := ReplyMoment(s1, s', actions[1..], k);
      n := n + 1;
      assert actions[..n][0] == actions[0] && actions[..n][1..] == actions[1..][..n - 1];
      assert actions[n..] == actions[1..][n - 1..];
    }
  }

  /**
    Every reply of a run was true at some point of the run, when it was the latest: -1 with the
    write side closed, short with the pipe empty, otherwise with bytes left.
  */
  lemma RepliesAreTrue(s0: Pipe, s: Pipe, actions: seq<Action>, k: nat) returns (n: nat, mid: Pipe)
    requires Init(s0) && Run(s0, s, actions) && k < |s.replies|
    ensures n <= |actions| && Run(s0, mid, actions[..n]) && Run(mid, s, actions[n..])
    ensures |mid.replies| == k + 1 && mid.replies[k] == s.replies[k] && Truthful(mid, s.replies[k])
  {
    InitInv(s0);
    n, mid := ReplyMoment(s0, s, actions, k);
  }
}
