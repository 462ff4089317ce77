/**
  The two counters and the flag with which src/kernel/proc/task.c guards context switches,
  as a protocol of single counter updates.  The timer may interrupt between any two of
  them; which task is chosen, and whether there is one, is left open.
*/
module TaskCounters {
  import opened Common

  /** The updates that the functions of task.c are made of. */
  datatype Micro =
    | IncLock    // ++schedule_lock_counter
    | DecLock    // task_unlock_scheduler
    | IncPost    // ++postpone_switch_counter
    | DecPost    // --postpone_switch_counter, and the postponed task_schedule
    | Schedule   // task_schedule
    | Wake       // task_switch_wrapper or task_add_node, in task_unblock

  datatype Call = TaskLock | TaskUnlock | TaskBlock | TaskUnblock

  function Code(c: Call): seq<Micro> {
    match c
    case TaskLock => [IncLock, IncPost]
    case TaskUnlock => [DecPost, DecLock]
    case TaskBlock => [IncLock, Schedule, DecLock]
    case TaskUnblock => [IncLock, Wake, DecLock]
  }

  /** The loop of task_time_handler over the tasks whose sleep is over. */
  function Wakes(n: nat): seq<Micro> {
    if n == 0 then [] else Code(TaskUnblock) + Wakes(n - 1)
  }

  /** task_time_handler behind its test of schedule_lock_counter. */
  function Handler(n: nat, sliceOver: bool): seq<Micro> {
    Code(TaskLock) + (Wakes(n) + ((if sliceOver then [Schedule] else []) + Code(TaskUnlock)))
  }

  type Tid = nat

  /** What a task still has to do, and how many task_lock sections it is in. */
  datatype Ctx = Ctx(todo: seq<Micro>, held: nat)

  /** `switches` records both counters at every real context switch. */
  datatype Kernel = Kernel(lock: nat, postpone: nat, flag: bool, current: Tid, tasks: map<Tid, Ctx>,
                           switches: seq<(nat, nat)>)

  datatype Action =
    | Begin(call: Call)                           // the running task calls a function of task.c
    | Timer(wakes: nat, sliceOver: bool)          // an interrupt
    | Run(target: Option<Tid>, urgent: bool)      // the next update; `target` is switched to if there is a switch
    | Spawn(task: Tid)                            // a new task, starting in task_kernel_init

  predicate MaySwitch(k: Kernel, m: Micro) {
    match m
    case Schedule => k.postpone == 0
    case Wake => k.postpone == 0
    case DecPost => k.postpone == 1 && k.flag
    case _ => false
  }

  predicate Enabled(k: Kernel, a: Action) {
    k.current in k.tasks &&
    var me := k.tasks[k.current];
    match a
    case Begin(call) => me.todo == [] && (call == TaskUnlock ==> me.held > 0)
    case Timer(_, _) => true
    case Run(target, _) =>
      && me.todo != []
      && (target.Some? ==> MaySwitch(k, me.todo[0]) && target.value in k.tasks && target.value != k.current)
    case Spawn(task) => task !in k.tasks
  }

  /** task_switch: the running task is left behind with the rest of its code. */
  function SwitchTo(k: Kernel, target: Option<Tid>): Kernel {
    if target.None? then k
    else k.(current := target.value, switches := k.switches + [(k.lock, k.postpone)])
  }

  function Apply(k: Kernel, m: Micro, rest: seq<Micro>, target: Option<Tid>, urgent: bool): Kernel
    requires k.current in k.tasks
  {
    var me := k.tasks[k.current];
    var k' := k.(tasks := k.tasks[k.current := me.(todo := rest)]);
    match m
    case IncLock => k'.(lock := k.lock + 1)
    case DecLock => k'.(lock := (k.lock + TWO32 - 1) % TWO32)
    case IncPost => k'.(postpone := k.postpone + 1, tasks := k.tasks[k.current := Ctx(rest, me.held + 1)])
    case DecPost =>
      var held := if me.held > 0 then me.held - 1 else 0;
      var down := k'.(postpone := (k.postpone + TWO32 - 1) % TWO32, tasks := k.tasks[k.current := Ctx(rest, held)]);
      if down.postpone == 0 && k.flag then SwitchTo(down.(flag := false), target) else down
    case Schedule => if k.postpone > 0 then k'.(flag := true) else SwitchTo(k', target)
    case Wake =>
      if k.postpone > 0 then k'.(flag := k.flag || urgent) else SwitchTo(k', target)
  }

  function Step(k: Kernel, a: Action): Kernel
    requires Enabled(k, a)
  {
    var me := k.tasks[k.current];
    match a
    case Begin(call) => k.(tasks := k.tasks[k.current := me.(todo := Code(call))])
    case Timer(wakes, sliceOver) =>
      if k.lock > 0 then k
      else k.(tasks := k.tasks[k.current := me.(todo := Handler(wakes, sliceOver) + me.todo)])
    case Run(target, urgent) => Apply(k, me.todo[0], me.todo[1..], target, urgent)
    case Spawn(task) => k.(tasks := k.tasks[task := Ctx([DecLock], 0)])
  }

  // ---------- The invariant ----------

  /** The next update but one is the unlock that a suspended task owes. */
  ghost predicate ThenUnlocks(todo: seq<Micro>) {
    |todo| > 1 && todo[1] == DecLock
  }

  /** Started with these counter values, the code stays in balance up to its end. */
  ghost predicate Balanced(todo: seq<Micro>, lock: nat, postpone: nat)
    decreases |todo|
  {
    postpone <= lock <= postpone + 1 &&
    if todo == [] then lock == postpone
    else
      match todo[0]
      case IncLock => Balanced(todo[1..], lock + 1, postpone)
      case DecLock => lock > 0 && Balanced(todo[1..], lock - 1, postpone)
      case IncPost => Balanced(todo[1..], lock, postpone + 1)
      case DecPost =>
        lock == postpone > 0 && (postpone == 1 ==> ThenUnlocks(todo)) && Balanced(todo[1..], lock, postpone - 1)
      case Schedule =>
        (postpone == 0 ==> lock == 1 && ThenUnlocks(todo)) && Balanced(todo[1..], lock, postpone)
      case Wake =>
        (postpone == 0 ==> lock == 1 && ThenUnlocks(todo)) && Balanced(todo[1..], lock, postpone)
  }

  /** A task that is switched out owes exactly one unlock and is in no task_lock section. */
  ghost predicate Suspended(c: Ctx) {
    c.held == 0 && c.todo != [] && c.todo[0] == DecLock && Balanced(c.todo, 1, 0)
  }

  ghost predicate Inv(k: Kernel) {
    && k.current in k.tasks
    && k.lock < TWO32
    && Balanced(k.tasks[k.current].todo, k.lock, k.postpone)
    && k.tasks[k.current].held == k.postpone
    && (forall t :: t in k.tasks && t != k.current ==> Suspended(k.tasks[t]))
    && (forall i :: 0 <= i < |k.switches| ==> k.switches[i] == (1, 0))
  }

  // ---------- Balance of the code ----------

  /** Code that runs from (l, p) back to (l', p') may be put in front of balanced code. */
  lemma CallBalanced(c: Call, n: nat)
    requires c == TaskUnlock ==> n > 0
    ensures Balanced(Code(c), n, n)
  {
    var code := Code(c);
    match c
    case TaskLock =>
      assert code[1..] == [IncPost] && code[1..][1..] == [];
    case TaskUnlock =>
      assert code[1..] == [DecLock] && code[1..][1..] == [];
    case _ =>
      assert code[1..] == [code[1], DecLock] && code[1..][1..] == [DecLock] && [DecLock][1..] == [];
      assert Balanced([DecLock], n + 1, n);
      assert Balanced(code[1..], n + 1, n);
  }

  /** One woken task inside the handler, in front of code that is balanced at (1, 1). */
  lemma WakeBalanced(rest: seq<Micro>)
    requires Balanced(rest, 1, 1)
    ensures Balanced(Code(TaskUnblock) + rest, 1, 1)
  {
  }

  lemma {:induction false} WakesBalanced(n: nat, rest: seq<Micro>)
    requires Balanced(rest, 1, 1)
    ensures Balanced(Wakes(n) + rest, 1, 1)
  {
    if n == 0 {
      assert Wakes(0) + rest == rest;
    } else {
      WakesBalanced(n - 1, rest);
      WakeBalanced(Wakes(n - 1) + rest);
      assert Wakes(n) + rest == Code(TaskUnblock) + (Wakes(n - 1) + rest);
    }
  }

  lemma TailBalanced(sliceOver: bool, rest: seq<Micro>)
    requires Balanced(rest, 0, 0)
    ensures Balanced((if sliceOver then [Schedule] else []) + Code(TaskUnlock) + rest, 1, 1)
  {
  }

  /** An interrupt taken with the scheduler unlocked returns to the interrupted code in balance. */
  lemma HandlerBalanced(n: nat, sliceOver: bool, rest: seq<Micro>)
    requires Balanced(rest, 0, 0)
    ensures Balanced(Handler(n, sliceOver) + rest, 0, 0)
  {
    var tail := (if sliceOver then [Schedule] else []) + Code(TaskUnlock) + rest;
    TailBalanced(sliceOver, rest);
    WakesBalanced(n, tail);
    var all := Handler(n, sliceOver) + rest;
    assert all == [IncLock, IncPost] + (Wakes(n) + tail);
    assert all[0] == IncLock && all[1..] == [IncPost] + (Wakes(n) + tail);
    assert all[1..][0] == IncPost && all[1..][1..] == Wakes(n) + tail;
  }

  // ---------- Every step ----------

  lemma SwitchKeepsInv(k: Kernel, target: Tid, urgent: bool)
    requires Inv(k) && Enabled(k, Run(Some(target), urgent))
    ensures Inv(Step(k, Run(Some(target), urgent)))
  {
    var me := k.tasks[k.current];
    var k' := Step(k, Run(Some(target), urgent));
    assert Suspended(k.tasks[target]);
    assert k'.tasks[k.current] == Ctx(me.todo[1..], 0);
    assert Suspended(k'.tasks[k.current]);
  }

  /** The running task goes on with counters that its remaining code balances. */
  lemma AdvanceKeepsInv(k: Kernel, k': Kernel)
    requires Inv(k) && k'.current == k.current && k'.switches == k.switches && k'.lock < TWO32
    requires k.tasks[k.current].todo != []
    requires k'.tasks == k.tasks[k.current := Ctx(k.tasks[k.current].todo[1..], k'.postpone)]
    requires Balanced(k.tasks[k.current].todo[1..], k'.lock, k'.postpone)
    ensures Inv(k')
  {
    hide Balanced, Suspended;
  }

  /** One update without a switch: the counters move as the code expects. */
  lemma UpdateBalances(k: Kernel, urgent: bool)
    requires Inv(k) && k.lock + 1 < TWO32 && Enabled(k, Run(None, urgent))
    ensures var k' := Step(k, Run(None, urgent));
            && k'.current == k.current && k'.switches == k.switches && k'.lock < TWO32
            && k'.tasks == k.tasks[k.current := Ctx(k.tasks[k.current].todo[1..], k'.postpone)]
            && Balanced(k.tasks[k.current].todo[1..], k'.lock, k'.postpone)
  {
    hide Suspended;
    var todo := k.tasks[k.current].todo;
    assert Balanced(todo, k.lock, k.postpone);
    match todo[0]
    case IncLock =>
    case DecLock => assert (k.lock + TWO32 - 1) % TWO32 == k.lock - 1;
    case IncPost =>
    case DecPost => assert (k.postpone + TWO32 - 1) % TWO32 == k.postpone - 1;
    case Schedule =>
    case Wake =>
  }

  lemma RunKeepsInv(k: Kernel, urgent: bool)
    requires Inv(k) && k.lock + 1 < TWO32 && Enabled(k, Run(None, urgent))
    ensures Inv(Step(k, Run(None, urgent)))
  {
    hide Inv, Step, Balanced;
    UpdateBalances(k, urgent);
    AdvanceKeepsInv(k, Step(k, Run(None, urgent)));
  }

  lemma StepKeepsInv(k: Kernel, a: Action)
    requires Inv(k) && k.lock + 1 < TWO32 && Enabled(k, a)
    ensures Inv(Step(k, a))
  {
    var me := k.tasks[k.current];
    match a
    case Begin(call) => CallBalanced(call, k.lock);
    case Timer(wakes, sliceOver) =>
      if k.lock == 0 {
        HandlerBalanced(wakes, sliceOver, me.todo);
      }
    case Run(target, urgent) =>
      if target.Some? {
        SwitchKeepsInv(k, target.value, urgent);
      } else {
        RunKeepsInv(k, urgent);
      }
    case Spawn(task) =>
      assert [DecLock][1..] == [];
  }

  // ---------- Every run ----------

  /** multitask_init: the kernel's own task runs, nothing is locked. */
  function Init(first: Tid): Kernel {
    Kernel(0, 0, false, first, map[first := Ctx([], 0)], [])
  }

  /** A run; nesting 2^32 - 1 locks deep would exceed any kernel stack. */
  ghost predicate Runs(k: Kernel, k': Kernel, actions: seq<Action>)
    decreases |actions|
  {
    if actions == [] then k' == k
    else k.lock + 1 < TWO32 && Enabled(k, actions[0]) && Runs(Step(k, actions[0]), k', actions[1..])
  }

  lemma {:induction false} RunsKeepInv(k: Kernel, k': Kernel, actions: seq<Action>)
    requires Inv(k) && Runs(k, k', actions)
    ensures Inv(k')
    decreases |actions|
  {
    if actions == [] {
    } else {
      StepKeepsInv(k, actions[0]);
      RunsKeepInv(Step(k, actions[0]), k', actions[1..]);
    }
  }

  /**
    Over every run, with the timer interrupting anywhere, every real context switch happened
    with schedule_lock_counter at one and postpone_switch_counter at zero; whoever is not
    running is in no task_lock section and has as its next update the one unlock that, from
    those values, brings the counter back to zero.
  */
  lemma SwitchesAreGuarded(first: Tid, k: Kernel, actions: seq<Action>)
    requires Runs(Init(first), k, actions)
    ensures forall i :: 0 <= i < |k.switches| ==> k.switches[i] == (1, 0)
    ensures forall t :: t in k.tasks && t != k.current ==>
              k.tasks[t].held == 0 && k.tasks[t].todo != [] && k.tasks[t].todo[0] == DecLock
    ensures k.current in k.tasks && k.postpone == k.tasks[k.current].held
  {
    RunsKeepInv(Init(first), k, actions);
  }

  /** A task that is resumed undoes the lock it was switched out with, and is then unlocked. */
  lemma ResumedTaskUnlocks(first: Tid, k: Kernel, actions: seq<Action>, target: Tid, urgent: bool)
    requires Runs(Init(first), k, actions) && k.lock + 1 < TWO32
    requires Enabled(k, Action.Run(Some(target), urgent))
    ensures var k1 := Step(k, Action.Run(Some(target), urgent));
            k1.current == target && k1.lock == 1 && k1.postpone == 0 && Enabled(k1, Action.Run(None, false)) &&
            var k2 := Step(k1, Action.Run(None, false)); k2.current == target && k2.lock == 0 && k2.postpone == 0
  {
    RunsKeepInv(Init(first), k, actions);
    assert Suspended(k.tasks[target]);
  }

  /** Outside kernel calls the counters equal the number of open task_lock sections, and never underflow. */
  lemma CountersAtRest(first: Tid, k: Kernel, actions: seq<Action>)
    requires Runs(Init(first), k, actions)
    ensures k.current in k.tasks && (k.tasks[k.current].todo == [] ==> k.lock == k.postpone == k.tasks[k.current].held)
    ensures k.tasks[k.current].todo != [] && k.tasks[k.current].todo[0] == DecLock ==> k.lock > 0
    ensures k.tasks[k.current].todo != [] && k.tasks[k.current].todo[0] == DecPost ==> k.postpone > 0
  {
    RunsKeepInv(Init(first), k, actions);
  }

  // ---------- Postponed switches ----------

  /** The update that an action carries out, if it carries out one. */
  function UpdateOf(k: Kernel, a: Action): Option<Micro>
    requires Enabled(k, a)
  {
    if a.Run? then Some(k.tasks[k.current].todo[0]) else None
  }

  /**
    Whether a switch is due after the actions, given whether one was before: a request to
    schedule, or an urgent wake-up, falls into a locked section, and no section has been
    closed since.
  */
  ghost predicate Due(k: Kernel, actions: seq<Action>, before: bool)
    decreases |actions|
  {
    if actions == [] then before
    else
      Enabled(k, actions[0]) &&
      var m := UpdateOf(k, actions[0]);
      var requested := k.postpone > 0 && (m == Some(Schedule) || (m == Some(Wake) && actions[0].urgent));
      var closed := k.postpone == 1 && m == Some(DecPost);
      Due(Step(k, actions[0]), actions[1..], requested || (before && !closed))
  }

  lemma FlagStep(k: Kernel, a: Action)
    requires Inv(k) && Enabled(k, a)
    ensures var m := UpdateOf(k, a);
            var requested := k.postpone > 0 && (m == Some(Schedule) || (m == Some(Wake) && a.urgent));
            var closed := k.postpone == 1 && m == Some(DecPost);
            Step(k, a).flag <==> requested || (k.flag && !closed)
  {
    if UpdateOf(k, a) == Some(DecPost) {
      DecPostIsOpen(k);
    }
    hide Balanced, Suspended;
  }

  lemma DecPostIsOpen(k: Kernel)
    requires Inv(k) && k.tasks[k.current].todo != [] && k.tasks[k.current].todo[0] == DecPost
    ensures k.postpone > 0
  {
  }

  lemma {:induction false} FlagIsDue(k: Kernel, k': Kernel, actions: seq<Action>)
    requires Inv(k) && Runs(k, k', actions)
    ensures k'.flag <==> Due(k, actions, k.flag)
    decreases |actions|
  {
    if actions == [] {
    } else {
      FlagStep(k, actions[0]);
      StepKeepsInv(k, actions[0]);
      hide Inv, Step;
      FlagIsDue(Step(k, actions[0]), k', actions[1..]);
    }
  }

  /**
    Over every run, the unlock that closes the outermost section switches, if there is a task
    to switch to, exactly when a switch became due inside.
  */
  lemma PostponedSwitchIsMade(first: Tid, k: Kernel, actions: seq<Action>)
    requires Runs(Init(first), k, actions) && k.current in k.tasks && k.tasks[k.current].todo != []
    requires k.tasks[k.current].todo[0] == DecPost && k.postpone == 1
    ensures MaySwitch(k, DecPost) <==> Due(Init(first), actions, false)
  {
    FlagIsDue(Init(first), k, actions);
  }

  // ---------- Calls that run undisturbed ----------

  /** The running task carries out all it has to do without a switch. */
  function Finish(k: Kernel, urgent: bool): (k': Kernel)
    requires k.current in k.tasks
    ensures k'.current in k'.tasks && k'.current == k.current && k'.tasks[k'.current].todo == []
    decreases |k.tasks[k.current].todo|
  {
    var todo := k.tasks[k.current].todo;
    if todo == [] then k else Finish(Apply(k, todo[0], todo[1..], None, urgent), urgent)
  }

  function Quiet(n: nat, urgent: bool): seq<Action> {
    if n == 0 then [] else [Run(None, urgent)] + Quiet(n - 1, urgent)
  }

  /** Such a stretch is a run of the kernel. */
  lemma {:induction false} FinishIsARun(k: Kernel, urgent: bool)
    requires Inv(k) && k.lock + |k.tasks[k.current].todo| < TWO32
    ensures Runs(k, Finish(k, urgent), Quiet(|k.tasks[k.current].todo|, urgent)) && Inv(Finish(k, urgent))
    decreases |k.tasks[k.current].todo|
  {
    var todo := k.tasks[k.current].todo;
    if todo == [] {
    } else {
      var a := Run(None, urgent);
      StepKeepsInv(k, a);
      ApplyMoves(k, urgent);
      FinishIsARun(Step(k, a), urgent);
      assert Quiet(|todo|, urgent)[0] == a && Quiet(|todo|, urgent)[1..] == Quiet(|todo| - 1, urgent);
    }
  }

  lemma ApplyMoves(k: Kernel, urgent: bool)
    requires k.current in k.tasks && k.tasks[k.current].todo != [] && k.lock < TWO32
    ensures var k' := Step(k, Run(None, urgent));
            k'.current == k.current && k'.tasks[k.current].todo == k.tasks[k.current].todo[1..]
  {
  }

  /** A whole call, from a task that has nothing else to do. */
  function Called(k: Kernel, c: Call, urgent: bool): Kernel
    requires Enabled(k, Begin(c))
  {
    Finish(Step(k, Begin(c)), urgent)
  }

  ghost predicate AtRest(k: Kernel) {
    Inv(k) && k.tasks[k.current].todo == [] && k.lock + 8 < TWO32
  }

  lemma ApplyLeaves(k: Kernel, m: Micro, rest: seq<Micro>, urgent: bool)
    requires k.current in k.tasks
    ensures var k' := Apply(k, m, rest, None, urgent);
            k'.current == k.current && k'.current in k'.tasks && k'.tasks[k'.current].todo == rest
  {
  }

  lemma TwoUpdates(k: Kernel, m: Micro, n: Micro, urgent: bool)
    requires k.current in k.tasks && k.tasks[k.current].todo == [m, n]
    ensures Finish(k, urgent) == Apply(Apply(k, m, [n], None, urgent), n, [], None, urgent)
  {
    assert [m, n][1..] == [n] && [n][1..] == [];
    ApplyLeaves(k, m, [n], urgent);
    ApplyLeaves(Apply(k, m, [n], None, urgent), n, [], urgent);
    hide Apply;
    var k1 := Apply(k, m, [n], None, urgent);
    assert Finish(k, urgent) == Finish(k1, urgent);
    assert Finish(k1, urgent) == Finish(Apply(k1, n, [], None, urgent), urgent);
  }

  lemma ThreeUpdates(k: Kernel, l: Micro, m: Micro, n: Micro, urgent: bool)
    requires k.current in k.tasks && k.tasks[k.current].todo == [l, m, n]
    ensures Finish(k, urgent) ==
            Apply(Apply(Apply(k, l, [m, n], None, urgent), m, [n], None, urgent), n, [], None, urgent)
  {
    assert [l, m, n][1..] == [m, n];
    var k1 := Apply(k, l, [m, n], None, urgent);
    assert Finish(k, urgent) == Finish(k1, urgent);
    TwoUpdates(k1, m, n, urgent);
  }

  /** task_lock opens a section. */
  lemma LockOpens(k: Kernel)
    requires AtRest(k)
    ensures var k' := Called(k, TaskLock, false);
            k'.lock == k.lock + 1 && k'.postpone == k.postpone + 1 && k'.flag == k.flag && k'.switches == k.switches
  {
    TwoUpdates(Step(k, Begin(TaskLock)), IncLock, IncPost, false);
  }

  /** task_block inside a section makes a switch due, whatever was before. */
  lemma BlockRequests(k: Kernel)
    requires AtRest(k) && k.postpone > 0
    ensures var k' := Called(k, TaskBlock, false);
            k'.lock == k.lock && k'.postpone == k.postpone && k'.flag && k'.switches == k.switches
  {
    ThreeUpdates(Step(k, Begin(TaskBlock)), IncLock, Schedule, DecLock, false);
  }

  /** So does task_unblock, if the wake-up is urgent. */
  lemma UnblockRequests(k: Kernel, urgent: bool)
    requires AtRest(k) && k.postpone > 0
    ensures var k' := Called(k, TaskUnblock, urgent);
            k'.lock == k.lock && k'.postpone == k.postpone && k'.flag == (k.flag || urgent) && k'.switches == k.switches
  {
    ThreeUpdates(Step(k, Begin(TaskUnblock)), IncLock, Wake, DecLock, urgent);
  }

  lemma CalledKeepsInv(k: Kernel, c: Call, urgent: bool)
    requires AtRest(k) && (c == TaskUnlock ==> k.postpone > 0)
    ensures Inv(Called(k, c, urgent))
  {
    StepKeepsInv(k, Begin(c));
    FinishIsARun(Step(k, Begin(c)), urgent);
  }

  /** task_lock, task_block, task_unlock, as in semaphore_acquire: the unlock gives the processor away. */
  lemma BlockedTaskIsSwitchedOut(k: Kernel, target: Tid)
    requires AtRest(k) && k.postpone == 0
    ensures var k1 := Called(k, TaskLock, false);
            Enabled(k1, Begin(TaskBlock)) &&
            var k2 := Called(k1, TaskBlock, false);
            Enabled(k2, Begin(TaskUnlock)) &&
            var k3 := Step(k2, Begin(TaskUnlock));
            && k3.tasks[k3.current].todo == [DecPost, DecLock] && MaySwitch(k3, DecPost)
            && (target in k3.tasks && target != k3.current ==>
                  Enabled(k3, Run(Some(target), false)) && Step(k3, Run(Some(target), false)).current == target)
  {
    var k1 := Called(k, TaskLock, false);
    var k2 := Called(k1, TaskBlock, false);
    assert k.lock == 0;
    LockOpens(k);
    CalledKeepsInv(k, TaskLock, false);
    BlockRequests(k1);
    CalledKeepsInv(k1, TaskBlock, false);
    hide Called, Balanced, Suspended;
    assert k2.current in k2.tasks && k2.tasks[k2.current].todo == [] && k2.tasks[k2.current].held == 1;
  }

  // ---------- What the timer handler is made of ----------

  function Count(ms: seq<Micro>, m: Micro): nat {
    if ms == [] then 0 else (if ms[0] == m then 1 else 0) + Count(ms[1..], m)
  }

  lemma {:induction false} CountAppend(a: seq<Micro>, b: seq<Micro>, m: Micro)
    ensures Count(a + b, m) == Count(a, m) + Count(b, m)
    decreases |a|
  {
    if a == [] {
      assert a + b == b;
    } else {
      assert (a + b)[0] == a[0] && (a + b)[1..] == a[1..] + b;
      CountAppend(a[1..], b, m);
    }
  }

  lemma CountThree(l: Micro, m: Micro, n: Micro, x: Micro)
    ensures Count([l, m, n], x) == (if l == x then 1 else 0) + (if m == x then 1 else 0) + (if n == x then 1 else 0)
    ensures Count([m, n], x) == (if m == x then 1 else 0) + (if n == x then 1 else 0)
    ensures Count([n], x) == if n == x then 1 else 0
  {
    CountOne(l, [m, n], x);
    CountOne(m, [n], x);
    CountOne(n, [], x);
    assert Count([], x) == 0;
    hide Count;
    assert [l] + [m, n] == [l, m, n] && [m] + [n] == [m, n] && [n] + [] == [n];
  }

  lemma CountOne(m: Micro, rest: seq<Micro>, x: Micro)
    ensures Count([m] + rest, x) == (if m == x then 1 else 0) + Count(rest, x)
  {
    assert ([m] + rest)[1..] == rest;
  }

  lemma {:induction false} WakesContents(n: nat, m: Micro)
    requires m == Wake || m == Schedule
    ensures Count(Wakes(n), m) == if m == Wake then n else 0
  {
    if n == 0 {
    } else {
      WakesContents(n - 1, m);
      CountAppend(Code(TaskUnblock), Wakes(n - 1), m);
      CountThree(IncLock, Wake, DecLock, m);
    }
  }

  /** It wakes each of the `n` tasks, and asks for a switch if and only if the time slice is over. */
  lemma HandlerContents(n: nat, sliceOver: bool, m: Micro)
    requires m == Wake || m == Schedule
    ensures Count(Handler(n, sliceOver), m) == if m == Wake then n else if sliceOver then 1 else 0
  {
    var slice: seq<Micro> := if sliceOver then [Schedule] else [];
    var open, close := Code(TaskLock), Code(TaskUnlock);
    CountThree(IncLock, IncLock, IncPost, m);
    CountThree(DecPost, DecPost, DecLock, m);
    CountThree(Schedule, Schedule, Schedule, m);
    assert Count(slice, m) == if m == Schedule && sliceOver then 1 else 0;
    WakesContents(n, m);
    CountAppend(open, Wakes(n) + (slice + close), m);
    CountAppend(Wakes(n), slice + close, m);
    CountAppend(slice, close, m);
    assert Handler(n, sliceOver) == open + (Wakes(n) + (slice + close));
  }
}
