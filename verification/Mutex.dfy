/**
  src/kernel/proc/mutex.c on objects: wait queues threaded through the `next` field of the
  tasks themselves.  The semaphore methods are proved to take exactly the steps of
  SemaphoreSpec; condition variables keep a list per condition and wake all of it.
*/
module Mutex {
  import opened Common
  import opened SemaphoreSpec

  /** task_info_t, of which only the intrusive link matters here. */
  class Task {
    var next: Task?
    constructor ()
      ensures next == null
    {
      next := null;
    }
  }

  function TaskAt(ts: seq<Task>, i: nat): Task? {
    if i < |ts| then ts[i] else null
  }

  ghost predicate Linked(ts: seq<Task>, i: nat)
    requires i < |ts|
    reads ts[i]
  {
    ts[i].next == TaskAt(ts, i + 1)
  }

  /** `ts` is the list that starts at `head`, in order and without repetition. */
  ghost predicate Chain(head: Task?, ts: seq<Task>)
    reads ts
  {
    head == TaskAt(ts, 0) && Distinct(ts) && forall i :: 0 <= i < |ts| ==> Linked(ts, i)
  }

  lemma ChainAppend(head: Task?, ts: seq<Task>, t: Task)
    requires head == TaskAt(ts, 0) && Distinct(ts) && t !in ts && t.next == null
    requires forall i :: 0 <= i < |ts| - 1 ==> Linked(ts, i)
    requires |ts| > 0 ==> ts[|ts| - 1].next == t
    ensures Chain(if |ts| == 0 then t else head, ts + [t])
  {
    var all := ts + [t];
    forall i | 0 <= i < |all|
      ensures Linked(all, i)
    {
      if i < |ts| - 1 {
        assert Linked(ts, i);
      }
    }
  }

  lemma ChainRest(ts: seq<Task>)
    requires |ts| > 0 && Distinct(ts) && forall i :: 1 <= i < |ts| ==> Linked(ts, i)
    ensures Chain(TaskAt(ts, 1), ts[1..])
  {
    var rest := ts[1..];
    forall i | 0 <= i < |rest|
      ensures Linked(rest, i)
    {
      assert Linked(ts, i + 1);
    }
  }

  /** The ready list of task.c, which also lives in the `next` fields. */
  class Scheduler {
    var ready: Task?   // schedule_tasks

    /** The part of task_unblock that touches the link (task_add_node). */
    method Unblock(t: Task)
      modifies this, t
      ensures ready == t && t.next == old(ready)
    {
      t.next := ready;
      ready := t;
    }
  }

  class Semaphore {
    const max: nat
    var count: nat        // current_count
    var first: Task?      // waiting_tasks_start
    var last: Task?       // waiting_tasks_end, stale while nobody waits
    ghost var state: Sem<Task>

    ghost predicate Valid()
      reads this, state.waiters
    {
      && Inv(state) && state.max == max && state.count == count
      && Chain(first, state.waiters)
      && (state.waiters != [] ==> last == state.waiters[|state.waiters| - 1])
    }

    constructor (max: nat)
      requires max < TWO32
      ensures Valid() && state == Create(max)
    {
      this.max := max;
      count := 0;
      first, last := null, null;
      state := Create(max);
    }

    /** semaphore_acquire by `current`; true means the task goes on, false that it blocks. */
    method AcquireBy(current: Task) returns (entered: bool)
      requires Valid() && current !in state.waiters
      modifies this, current, state.waiters
      ensures Valid() && state == DoAcquire(old(state), current)
      ensures entered <==> old(count) < max
      ensures state.waiters == if entered then old(state.waiters) else old(state.waiters) + [current]
      ensures entered ==> state.owners == old(state.owners) + multiset{current}
      ensures forall w :: w in old(state.waiters) && w != old(last) ==> w.next == old(w.next)
    {
      AcquireKeepsInv(state, current);
      if count < max {
        count := count + 1;
        state := DoAcquire(state, current);
        return true;
      }
      ghost var ws := state.waiters;
      current.next := null;
      if first == null {
        assert ws == [];
        first := current;
      } else {
        last.next := current;
      }
      last := current;
      ChainAppend(old(first), ws, current);
      state := DoAcquire(state, current);
      return false;
    }

    /** semaphore_release; the task that is woken, if any, now owns the unit. */
    method ReleaseBy(current: Task, scheduler: Scheduler) returns (woken: Task?)
      requires Valid()
      modifies this, scheduler, state.waiters
      ensures state == DoRelease(old(state), current) && count == state.count
      ensures Valid() <==> current in old(state.owners)
      ensures woken == TaskAt(old(state.waiters), 0)
      ensures woken != null ==> woken in state.owners && scheduler.ready == woken
    {
      ReleaseKeepsInvIff(state, current);
      if first == null {
        assert state.waiters == [];
        count := (count + TWO32 - 1) % TWO32;
        state := DoRelease(state, current);
        return null;
      }
      ghost var ws := state.waiters;
      assert Linked(ws, 0);
      woken := first;
      first := woken.next;
      scheduler.Unblock(woken);
      ChainRest(ws);
      state := DoRelease(state, current);
    }
  }

  /** condvar_t: a condition (an address) and the list of tasks asleep on it. */
  class Condvar {
    const condition: int
    var tasks: Task?
    ghost var asleep: seq<Task>

    ghost predicate Valid()
      reads this, asleep
    {
      Chain(tasks, asleep)
    }

    constructor (condition: int, first: Task)
      requires first.next == null
      ensures Valid() && this.condition == condition && asleep == [first]
    {
      this.condition := condition;
      tasks := first;
      asleep := [first];
    }

    /** The list part of condvar_wait: `current` goes to the end, found by walking the list. */
    method Append(current: Task)
      requires Valid() && current !in asleep
      modifies this, current, asleep
      ensures Valid() && asleep == old(asleep) + [current]
    {
      ghost var ts := asleep;
      current.next := null;
      if tasks == null {
        tasks := current;
      } else {
        AddList(current);
      }
      ChainAppend(old(tasks), ts, current);
      asleep := ts + [current];
    }

    /** condvar_add_list: does nothing if the task were already in the list, which it is not. */
    method AddList(current: Task)
      requires Valid() && current !in asleep && current.next == null && asleep != []
      modifies asleep
      ensures asleep[|asleep| - 1].next == current && current.next == null
      ensures forall i :: 0 <= i < |asleep| - 1 ==> Linked(asleep, i)
    {
      var task: Task := tasks;
      ghost var k := 0;
      assert Linked(asleep, 0);
      while task.next != null
        invariant k < |asleep| && task == asleep[k] && Linked(asleep, k)
        decreases |asleep| - k
      {
        if task == current {
          assert false;  // a sleeping task does not run
        }
        task := task.next;
        k := k + 1;
      }
      if task != current {
        task.next := current;
      }
    }

    /** The loop of condvar_signal: every sleeper is woken, in order, and the list is dropped. */
    method WakeAll(scheduler: Scheduler) returns (woken: seq<Task>)
      requires Valid()
      modifies this, scheduler, asleep
      ensures Valid() && asleep == [] && woken == old(asleep)
    {
      ghost var ts := asleep;
      woken := [];
      var task := tasks;
      while task != null
        invariant |woken| <= |ts| && woken == ts[..|woken|] && task == TaskAt(ts, |woken|)
        invariant forall i :: |woken| <= i < |ts| ==> Linked(ts, i)
        invariant asleep == ts
        decreases |ts| - |woken|
      {
        assert Linked(ts, |woken|);
        var next := task.next;
        scheduler.Unblock(task);
        woken := woken + [task];
        task := next;
      }
      tasks := null;
      asleep := [];
    }
  }

  class Condvars {
    var vars: seq<Condvar>         // condvars, newest first
    ghost var sleepers: set<Task>  // every task asleep on some condition

    ghost predicate Valid()
      reads this, vars, sleepers
    {
      && (forall i :: 0 <= i < |vars| ==> (forall t :: t in vars[i].asleep ==> t in sleepers) && vars[i].Valid())
      && (forall i, j :: 0 <= i < j < |vars| ==> vars[i] != vars[j] && vars[i].condition != vars[j].condition)
      && (forall i, j, t :: 0 <= i < j < |vars| && t in vars[i].asleep ==> t !in vars[j].asleep)
    }

    /** The search loop of condvar_wait and condvar_signal. */
    method Find(condition: int) returns (i: nat)
      ensures i <= |vars| && (i < |vars| ==> vars[i].condition == condition)
      ensures forall j :: 0 <= j < i ==> vars[j].condition != condition
    {
      i := 0;
      while i < |vars| && vars[i].condition != condition
        invariant i <= |vars|
        invariant forall j :: 0 <= j < i ==> vars[j].condition != condition
      {
        i := i + 1;
      }
    }

    /** The lists of different conditions share no task. */
    lemma Beside(i: nat)
      requires Valid() && i < |vars|
      ensures forall j :: 0 <= j < |vars| && j != i ==> vars[j] != vars[i] && vars[j].condition != vars[i].condition
      ensures forall j, t :: 0 <= j < |vars| && j != i && t in vars[j].asleep ==> t !in vars[i].asleep
    {
    }

    method EnqueueFound(i: nat, current: Task)
      requires Valid() && current !in sleepers && i < |vars|
      modifies this`sleepers, vars, sleepers, current
      ensures Valid() && sleepers == old(sleepers) + {current}
      ensures forall j :: 0 <= j < |vars| ==>
                vars[j].asleep == if j == i then old(vars[j].asleep) + [current] else old(vars[j].asleep)
    {
      assert current !in vars[i].asleep;
      Beside(i);
      ghost var asleep := vars[i].asleep;
      vars[i].Append(current);
      forall j | 0 <= j < |vars| && j != i
        ensures vars[j].asleep == old(vars[j].asleep) && vars[j].Valid()
      {
        ghost var ts := vars[j].asleep;
        assert old(vars[j].Valid());
        forall k | 0 <= k < |ts|
          ensures Linked(ts, k)
        {
          assert old(Linked(ts, k)) && ts[k] in ts && ts[k] !in asleep;
        }
      }
      sleepers := sleepers + {current};
    }

    /** The links of the sleepers do not involve a task that is awake. */
    method ClearLink(current: Task)
      requires Valid() && current !in sleepers
      modifies current
      ensures Valid() && current.next == null && forall v :: v in vars ==> v.asleep == old(v.asleep)
    {
      current.next := null;
      forall j | 0 <= j < |vars|
        ensures vars[j].Valid()
      {
        assert old(vars[j].Valid());
        ghost var ts := vars[j].asleep;
        forall k | 0 <= k < |ts|
          ensures Linked(ts, k)
        {
          assert old(Linked(ts, k)) && ts[k] in ts;
        }
      }
    }

    /** condvar_alloc: the new condition variable comes first. */
    method Prepend(v: Condvar, ghost current: Task)
      requires Valid() && v.Valid() && v.asleep == [current] && current !in sleepers
      requires v !in vars && forall u :: u in vars ==> u.condition != v.condition
      modifies this
      ensures Valid() && sleepers == old(sleepers) + {current} && vars == [v] + old(vars)
    {
      hide Condvar.Valid;
      vars := [v] + vars;
      sleepers := sleepers + {current};
    }

    method EnqueueNew(condition: int, current: Task)
      requires Valid() && current !in sleepers && forall v :: v in vars ==> v.condition != condition
      modifies this, current
      ensures Valid() && sleepers == old(sleepers) + {current}
      ensures |vars| == |old(vars)| + 1 && vars[1..] == old(vars)
      ensures vars[0].condition == condition && vars[0].asleep == [current]
    {
      ClearLink(current);
      var v := new Condvar(condition, current);
      Prepend(v, current);
    }

    /** condvar_wait up to the release of the mutex. */
    method Enqueue(condition: int, current: Task)
      requires Valid() && current !in sleepers
      modifies this, vars, sleepers, current
      ensures Valid() && sleepers == old(sleepers) + {current}
      ensures forall v :: v in old(vars) ==>
                v.asleep == if v.condition == condition then old(v.asleep) + [current] else old(v.asleep)
      ensures (exists v :: v in old(vars) && v.condition == condition) ==> vars == old(vars)
      ensures (forall v :: v in old(vars) ==> v.condition != condition) ==>
                |vars| == |old(vars)| + 1 && vars[1..] == old(vars) && vars[0].condition == condition &&
                    vars[0].asleep == [current]
    {
      var i := Find(condition);
      if i < |vars| {
        Beside(i);
        EnqueueFound(i, current);
      } else {
        EnqueueNew(condition, current);
      }
    }

    method WakeFound(i: nat, scheduler: Scheduler) returns (woken: seq<Task>)
      requires Valid() && i < |vars|
      modifies this`sleepers, vars, sleepers, scheduler
      ensures Valid() && woken == old(vars[i].asleep) && sleepers == old(sleepers) - set t | t in woken
      ensures forall j :: 0 <= j < |vars| ==> vars[j].asleep == if j == i then [] else old(vars[j].asleep)
    {
      Beside(i);
      ghost var asleep := vars[i].asleep;
      woken := vars[i].WakeAll(scheduler);
      forall j | 0 <= j < |vars| && j != i
        ensures vars[j].asleep == old(vars[j].asleep) && vars[j].Valid()
      {
        ghost var ts := vars[j].asleep;
        assert old(vars[j].Valid());
        forall k | 0 <= k < |ts|
          ensures Linked(ts, k)
        {
          assert old(Linked(ts, k)) && ts[k] in ts && ts[k] !in asleep;
        }
      }
      sleepers := sleepers - set t | t in woken;
    }

    /** condvar_signal: all tasks asleep on the condition wake, and nobody else does. */
    method Signal(condition: int, scheduler: Scheduler) returns (woken: seq<Task>)
      requires Valid()
      modifies this`sleepers, vars, sleepers, scheduler
      ensures Valid() && sleepers == old(sleepers) - set t | t in woken
      ensures forall v :: v in vars ==>
                if v.condition == condition then v.asleep == [] && woken == old(v.asleep) else v.asleep == old(v.asleep)
      ensures (forall v :: v in vars ==> v.condition != condition) ==> woken == []
    {
      woken := [];
      var i := Find(condition);
      if i < |vars| {
        Beside(i);
        woken := WakeFound(i, scheduler);
      }
    }
  }
}
