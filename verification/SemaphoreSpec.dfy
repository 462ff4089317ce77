/**
  A counting semaphore of src/kernel/proc/mutex.c as a protocol: which task owns a unit,
  who waits, and what every interleaving of acquire and release keeps.  Each operation is
  atomic because it runs under task_lock; a waiting task takes no step until it is woken.
*/
module SemaphoreSpec {
  import opened Common

  /**
    `arrived` and `granted` record, in order, the tasks that had to wait and the tasks that
    were handed a unit by a release.
  */
  datatype Sem<T> = Sem(max: nat, count: nat, owners: multiset<T>, waiters: seq<T>, arrived: seq<T>, granted: seq<T>)

  datatype Action<T> = Acquire(task: T) | Release(task: T)

  /** semaphore_create. */
  function Create<T>(max: nat): Sem<T> {
    Sem(max, 0, multiset{}, [], [], [])
  }

  function DoAcquire<T(==)>(s: Sem<T>, t: T): Sem<T> {
    if s.count < s.max
    then s.(count := s.count + 1, owners := s.owners + multiset{t})
    else s.(waiters := s.waiters + [t], arrived := s.arrived + [t])
  }

  /**
    Without a waiter the 32-bit count goes down; with one the unit changes hands and the
    count stays as it is.
  */
  function DoRelease<T(==)>(s: Sem<T>, t: T): Sem<T> {
    if s.waiters == []
    then s.(count := (s.count + TWO32 - 1) % TWO32, owners := s.owners - multiset{t})
    else s.(owners := s.owners - multiset{t} + multiset{s.waiters[0]},
            waiters := s.waiters[1..], granted := s.granted + [s.waiters[0]])
  }

  /** A waiting task is blocked, and only holders release. */
  predicate Enabled<T(==)>(s: Sem<T>, a: Action<T>) {
    a.task !in s.waiters && (a.Release? ==> a.task in s.owners)
  }

  ghost predicate Inv<T>(s: Sem<T>) {
    && |s.owners| == s.count <= s.max < TWO32
    && (s.waiters != [] ==> s.count == s.max)
    && Distinct(s.waiters)
    && s.arrived == s.granted + s.waiters
  }

  function Step<T(==)>(s: Sem<T>, a: Action<T>): Sem<T> {
    match a
    case Acquire(t) => DoAcquire(s, t)
    case Release(t) => DoRelease(s, t)
  }

  lemma OwnerMeansCount<T>(s: Sem<T>, t: T)
    requires |s.owners| == s.count && t in s.owners
    ensures s.count > 0
  {
  }

  /** Some run of enabled actions leads from `s` to `s'`. */
  ghost predicate Run<T>(s: Sem<T>, s': Sem<T>, actions: seq<Action<T>>)
    decreases |actions|
  {
    if actions == [] then s' == s
    else Enabled(s, actions[0]) && Run(Step(s, actions[0]), s', actions[1..])
  }

  lemma AcquireKeepsInv<T>(s: Sem<T>, t: T)
    requires Inv(s) && t !in s.waiters
    ensures Inv(DoAcquire(s, t))
  {
    assert s.granted + s.waiters + [t] == s.granted + (s.waiters + [t]);
  }

  /** Handing the unit over moves the first waiter from the queue to the record of grants. */
  lemma HandOver<T>(s: Sem<T>)
    requires s.waiters != [] && s.arrived == s.granted + s.waiters
    ensures s.arrived == s.granted + [s.waiters[0]] + s.waiters[1..]
  {
  }

  lemma OwnerReleaseKeepsInv<T>(s: Sem<T>, t: T)
    requires Inv(s) && t in s.owners
    ensures Inv(DoRelease(s, t))
  {
    OwnerMeansCount(s, t);
    assert |s.owners - multiset{t}| == |s.owners| - 1;
    if s.waiters != [] {
      HandOver(s);
    }
  }

  /** The owners and the count part company when a task releases what it does not own. */
  lemma StrayReleaseDrifts<T>(s: Sem<T>, t: T)
    requires Inv(s) && t !in s.owners
    ensures |DoRelease(s, t).owners| != DoRelease(s, t).count
  {
    assert s.owners - multiset{t} == s.owners;
  }

  /** A release keeps the invariant if and only if the task owns a unit. */
  lemma ReleaseKeepsInvIff<T>(s: Sem<T>, t: T)
    requires Inv(s)
    ensures Inv(DoRelease(s, t)) <==> t in s.owners
  {
    if t in s.owners {
      OwnerReleaseKeepsInv(s, t);
    } else {
      StrayReleaseDrifts(s, t);
    }
  }

  lemma StepKeepsInv<T>(s: Sem<T>, a: Action<T>)
    requires Inv(s) && Enabled(s, a)
    ensures Inv(Step(s, a)) && Step(s, a).max == s.max
  {
    match a
    case Acquire(t) => AcquireKeepsInv(s, t);
    case Release(t) => ReleaseKeepsInvIff(s, t);
  }

  lemma {:induction false} RunKeepsInv<T>(s: Sem<T>, s': Sem<T>, actions: seq<Action<T>>)
    requires Inv(s) && Run(s, s', actions)
    ensures Inv(s') && s'.max == s.max
    decreases |actions|
  {
    if actions == [] {
    } else {
      StepKeepsInv(s, actions[0]);
      RunKeepsInv(Step(s, actions[0]), s', actions[1..]);
    }
  }

  // ---------- What the actions of a run amount to ----------

  /** The task that calls acquire while all units are taken. */
  function Late<T>(s: Sem<T>, a: Action<T>): seq<T> {
    if a.Acquire? && s.count >= s.max then [a.task] else []
  }

  /** The tasks that called acquire while all units were taken, in the order of their calls. */
  function Waited<T(==)>(s: Sem<T>, actions: seq<Action<T>>): seq<T>
    decreases |actions|
  {
    if actions == [] then [] else Late(s, actions[0]) + Waited(Step(s, actions[0]), actions[1..])
  }

  /** The tasks that called acquire while a unit was free. */
  function Entered<T(==)>(s: Sem<T>, actions: seq<Action<T>>): multiset<T>
    decreases |actions|
  {
    if actions == [] then multiset{}
    else
      (if actions[0].Acquire? && s.count < s.max then multiset{actions[0].task} else multiset{}) +
      Entered(Step(s, actions[0]), actions[1..])
  }

  /** The tasks that called release. */
  function Released<T>(actions: seq<Action<T>>): multiset<T> {
    if actions == [] then multiset{}
    else (if actions[0].Release? then multiset{actions[0].task} else multiset{}) + Released(actions[1..])
  }

  lemma LateArrives<T>(s: Sem<T>, a: Action<T>)
    ensures Step(s, a).arrived == s.arrived + Late(s, a)
  {
  }

  lemma {:induction false} ArrivalsAreCalls<T>(s: Sem<T>, s': Sem<T>, actions: seq<Action<T>>)
    requires Run(s, s', actions)
    ensures s'.arrived == s.arrived + Waited(s, actions)
    decreases |actions|
  {
    if actions == [] {
    } else {
      var s1 := Step(s, actions[0]);
      ArrivalsAreCalls(s1, s', actions[1..]);
      LateArrives(s, actions[0]);
      hide Late, Step;
      assert s.arrived + Late(s, actions[0]) + Waited(s1, actions[1..]) == s.arrived + Waited(s, actions);
    }
  }

  /** Nobody owns a unit but by entering with one free or by being handed one, and not having released it. */
  lemma {:induction false} OwnersAreCallers<T>(s: Sem<T>, s': Sem<T>, actions: seq<Action<T>>)
    requires Run(s, s', actions)
    ensures s'.owners + Released(actions) + multiset(s.granted) ==
            s.owners + Entered(s, actions) + multiset(s'.granted)
    decreases |actions|
  {
    if actions == [] {
    } else {
      var s1 := Step(s, actions[0]);
      OwnersAreCallers(s1, s', actions[1..]);
      OneStepOwners(s, actions[0]);
      var rel := if actions[0].Release? then multiset{actions[0].task} else multiset{};
      var ent := if actions[0].Acquire? && s.count < s.max then multiset{actions[0].task} else multiset{};
      assert Released(actions) == rel + Released(actions[1..]);
      assert Entered(s, actions) == ent + Entered(s1, actions[1..]);
      hide *;
      OwnersAddUp(s.owners, s1.owners, s'.owners, rel, Released(actions[1..]), ent, Entered(s1, actions[1..]),
            multiset(s.granted), multiset(s1.granted), multiset(s'.granted));
    }
  }

  /** What two stretches of a run did to the owners, added up. */
  lemma OwnersAddUp<T>(o: multiset<T>, o1: multiset<T>, o2: multiset<T>, r1: multiset<T>, r2: multiset<T>,
                 e1: multiset<T>, e2: multiset<T>, g: multiset<T>, g1: multiset<T>, g2: multiset<T>)
    requires o1 + r1 + g == o + e1 + g1 && o2 + r2 + g1 == o1 + e2 + g2
    ensures o2 + (r1 + r2) + g == o + (e1 + e2) + g2
  {
    forall x: T
      ensures (o2 + (r1 + r2) + g)[x] == (o + (e1 + e2) + g2)[x]
    {
      assert (o1 + r1 + g)[x] == (o + e1 + g1)[x] && (o2 + r2 + g1)[x] == (o1 + e2 + g2)[x];
    }
  }

  lemma OneStepOwners<T>(s: Sem<T>, a: Action<T>)
    requires Enabled(s, a)
    ensures Step(s, a).owners + (if a.Release? then multiset{a.task} else multiset{}) + multiset(s.granted) ==
            s.owners + (if a.Acquire? && s.count < s.max then multiset{a.task} else multiset{}) +
            multiset(Step(s, a).granted)
  {
    if a.Release? {
      assert s.owners - multiset{a.task} + multiset{a.task} == s.owners;
      if s.waiters != [] {
        assert multiset(s.granted + [s.waiters[0]]) == multiset(s.granted) + multiset{s.waiters[0]};
      }
    }
  }

  /**
    In every run from creation the owners number exactly current_count and never exceed
    max_count, and somebody waits only while all units are taken.  The tasks that were handed
    a unit, followed by those who still wait, are the tasks whose calls found no free unit, in
    the order of the calls; the owners are those who entered or were handed a unit and have
    not released it.
  */
  lemma OwnersAndFairness<T>(max: nat, s: Sem<T>, actions: seq<Action<T>>)
    requires max < TWO32 && Run(Create(max), s, actions)
    ensures |s.owners| == s.count <= max
    ensures s.waiters != [] ==> s.count == max
    ensures s.granted + s.waiters == Waited(Create(max), actions)
    ensures s.owners + Released(actions) == Entered(Create(max), actions) + multiset(s.granted)
  {
    RunKeepsInv(Create(max), s, actions);
    ArrivalsAreCalls(Create(max), s, actions);
    OwnersAreCallers(Create(max), s, actions);
    hide Run, Waited, Entered, Released;
    assert multiset(Create<T>(max).granted) == multiset{} == Create<T>(max).owners && Create<T>(max).arrived == [];
    assert s.owners + Released(actions) + multiset{} == s.owners + Released(actions);
    assert multiset{} + Entered(Create(max), actions) == Entered(Create(max), actions);
  }

  /** A mutex never has two owners. */
  lemma MutualExclusion<T>(s: Sem<T>, actions: seq<Action<T>>, a: T, b: T)
    requires Run(Create(1), s, actions) && a in s.owners && b in s.owners
    ensures a == b && s.owners == multiset{a}
  {
    RunKeepsInv(Create(1), s, actions);
    var rest := s.owners - multiset{a};
    assert s.owners == rest + multiset{a};
    assert |rest| == 0;
  }

  /** A release of a fresh mutex, which nobody owns, wraps the count around. */
  lemma StrayReleaseBreaks<T>(t: T)
    ensures Inv(Create<T>(1)) && t !in Create<T>(1).owners
    ensures DoRelease(Create(1), t).count > 1 && !Inv(DoRelease(Create(1), t))
  {
  }
}
