/** Safety over all runs of the pool, no lost wakeup, FIFO starts, and a bound on waiting. */
module ThreadPoolProofs {
  import opened Common
  import opened ThreadPoolSpec

  ghost predicate Counts(c: Config, s: State) {
    && ValidConfig(c)
    && |s.slots| == c.maxNum
    && c.minNum <= s.liveNum <= c.maxNum
    && 0 <= s.exitNum
    && s.liveNum == Sum(IsLive, s.slots)
    && s.busyNum == Sum(IsRunning, s.slots)
    && (s.taskQ != [] ==> !SomeoneSleeps(s.slots))
    && s.added == s.started + s.taskQ
    && |s.started| == s.busyNum + |s.finished|
  }

  /** Every start of t has finished or is still in some slot. */
  ghost predicate Balanced(s: State, t: Task) {
    multiset(s.started)[t] == Sum(Runs(t), s.slots) + multiset(s.finished)[t]
  }

  ghost predicate Inv(c: Config, s: State) {
    Counts(c, s) && forall t :: Balanced(s, t)
  }

  lemma {:induction false} SumUpdate(f: Slot -> int, slots: seq<Slot>, i: nat, x: Slot)
    requires i < |slots|
    ensures Sum(f, slots[i := x]) == Sum(f, slots) - f(slots[i]) + f(x)
  {
    if i == 0 {
      assert slots[i := x][1..] == slots[1..];
    } else {
      assert slots[i := x][1..] == slots[1..][i - 1 := x];
      SumUpdate(f, slots[1..], i - 1, x);
    }
  }

  lemma {:induction false} SumWakeAll(f: Slot -> int, slots: seq<Slot>)
    requires f(Live(Sleeping)) == f(Live(Notified))
    ensures Sum(f, WakeAll(slots)) == Sum(f, slots)
  {
    if slots == [] {
    } else {
      assert WakeAll(slots)[1..] == WakeAll(slots[1..]);
      SumWakeAll(f, slots[1..]);
    }
  }

  lemma SlotUpdate(slots: seq<Slot>, i: nat, x: Slot)
    requires i < |slots|
    ensures Sum(IsLive, slots[i := x]) == Sum(IsLive, slots) - IsLive(slots[i]) + IsLive(x)
    ensures Sum(IsRunning, slots[i := x]) == Sum(IsRunning, slots) - IsRunning(slots[i]) + IsRunning(x)
    ensures Sum(IsEmpty, slots[i := x]) == Sum(IsEmpty, slots) - IsEmpty(slots[i]) + IsEmpty(x)
    ensures x != Live(Sleeping) && SomeoneSleeps(slots[i := x]) ==> SomeoneSleeps(slots)
  {
    SumUpdate(IsLive, slots, i, x);
    SumUpdate(IsRunning, slots, i, x);
    SumUpdate(IsEmpty, slots, i, x);
    if x != Live(Sleeping) && SomeoneSleeps(slots[i := x]) {
      var j :| 0 <= j < |slots| && slots[i := x][j] == Live(Sleeping);
      assert slots[j] == Live(Sleeping);
    }
  }

  lemma WakeAllKeeps(slots: seq<Slot>)
    ensures Sum(IsLive, WakeAll(slots)) == Sum(IsLive, slots)
    ensures Sum(IsRunning, WakeAll(slots)) == Sum(IsRunning, slots)
    ensures Sum(IsEmpty, WakeAll(slots)) == Sum(IsEmpty, slots)
    ensures !SomeoneSleeps(WakeAll(slots))
  {
    SumWakeAll(IsLive, slots);
    SumWakeAll(IsRunning, slots);
    SumWakeAll(IsEmpty, slots);
  }

  /** What the growing loop does to every count; it creates min(NUMBER, free slots, room) workers. */
  lemma {:induction false} GrowFromCounts(c: Config, slots: seq<Slot>, live: int, i: nat, count: int)
    requires i <= |slots| && 0 <= count <= NUMBER && live <= c.maxNum
    ensures var (slots', live') := GrowFrom(c, slots, live, i, count);
            && live <= live' <= c.maxNum
            && Sum(IsLive, slots') - Sum(IsLive, slots) == live' - live
            && Sum(IsRunning, slots') == Sum(IsRunning, slots)
            && Sum(IsEmpty, slots') == Sum(IsEmpty, slots) - (live' - live)
            && (SomeoneSleeps(slots') ==> SomeoneSleeps(slots))
    decreases |slots| - i
  {
    if i < |slots| && count < NUMBER && live < c.maxNum {
      if slots[i].Empty? {
        SlotUpdate(slots, i, Live(Ready));
        GrowFromCounts(c, slots[i := Live(Ready)], live + 1, i + 1, count + 1);
      } else {
        GrowFromCounts(c, slots, live, i + 1, count);
      }
    }
  }

  lemma {:induction false} InitSum(c: Config, f: Slot -> int, n: nat)
    requires ValidConfig(c) && n <= c.maxNum && f(Empty) == 0
    ensures Sum(f, Init(c).slots[n..]) == if n < c.minNum then f(Live(Ready)) * (c.minNum - n) else 0
    decreases c.maxNum - n
  {
    var slots := Init(c).slots;
    if n < c.maxNum {
      assert slots[n..][1..] == slots[n + 1..];
      InitSum(c, f, n + 1);
    }
  }

  lemma InitInv(c: Config)
    requires ValidConfig(c)
    ensures Inv(c, Init(c))
  {
    assert Init(c).slots[0..] == Init(c).slots;
    InitSum(c, IsLive, 0);
    InitSum(c, IsRunning, 0);
    forall t ensures Balanced(Init(c), t) { InitSum(c, Runs(t), 0); }
  }

  lemma TakeOrSleepCounts(c: Config, s: State, i: nat)
    requires Counts(c, s) && i < |s.slots| && (s.slots[i] == Live(Ready) || s.slots[i] == Live(Notified))
    ensures Counts(c, TakeOrSleep(s, i))
  {
    SlotUpdate(s.slots, i, if s.taskQ == [] then Live(Sleeping) else Live(Running(s.taskQ[0])));
    if s.taskQ != [] { assert s.started + [s.taskQ[0]] + s.taskQ[1..] == s.started + s.taskQ; }
  }

  /** Each action keeps the counters, however stale the manager's readings are. */
  lemma StepCounts(c: Config, s: State, a: Action)
    requires Counts(c, s) && Enabled(c, s, a)
    ensures Counts(c, Apply(c, s, a))
  {
    match a
    case Add(t) =>
      WakeAllKeeps(s.slots);
      assert s.started + (s.taskQ + [t]) == s.started + s.taskQ + [t];
    case Acquire(i) => TakeOrSleepCounts(c, s, i);
    case Reacquire(i) =>
      if s.exitNum > 0 && s.liveNum > c.minNum {
        SlotUpdate(s.slots, i, Retired);
      } else {
        TakeOrSleepCounts(c, if s.exitNum > 0 then s.(exitNum := s.exitNum - 1) else s, i);
      }
    case SpuriousWake(i) => SlotUpdate(s.slots, i, Live(Notified));
    case Finish(i) => SlotUpdate(s.slots, i, Live(Ready));
    case Grow => GrowFromCounts(c, s.slots, s.liveNum, 0, 0);
    case Notify => WakeAllKeeps(s.slots);
    case Look =>
    case Shrink =>
  }

  lemma TakeOrSleepBalanced(s: State, i: nat, t: Task)
    requires Balanced(s, t) && i < |s.slots| && (s.slots[i] == Live(Ready) || s.slots[i] == Live(Notified))
    ensures Balanced(TakeOrSleep(s, i), t)
  {
    if s.taskQ == [] {
      SumUpdate(Runs(t), s.slots, i, Live(Sleeping));
    } else {
      SumUpdate(Runs(t), s.slots, i, Live(Running(s.taskQ[0])));
    }
  }

  lemma FinishBalanced(c: Config, s: State, i: nat, t: Task)
    requires Balanced(s, t) && Enabled(c, s, Finish(i))
    ensures Balanced(Apply(c, s, Finish(i)), t)
  {
    SumUpdate(Runs(t), s.slots, i, Live(Ready));
  }

  /** Each action keeps the balance of every task. */
  lemma StepBalanced(c: Config, s: State, a: Action, t: Task)
    requires Balanced(s, t) && Enabled(c, s, a)
    ensures Balanced(Apply(c, s, a), t)
  {
    match a
    case Add(_) => SumWakeAll(Runs(t), s.slots);
    case Acquire(i) => TakeOrSleepBalanced(s, i, t);
    case Reacquire(i) =>
      if s.exitNum > 0 && s.liveNum > c.minNum {
        SumUpdate(Runs(t), s.slots, i, Retired);
      } else {
        TakeOrSleepBalanced(if s.exitNum > 0 then s.(exitNum := s.exitNum - 1) else s, i, t);
      }
    case SpuriousWake(i) => SumUpdate(Runs(t), s.slots, i, Live(Notified));
    case Finish(i) => FinishBalanced(c, s, i, t);
    case Grow => GrowFromRuns(c, s.slots, s.liveNum, 0, 0, t);
    case Notify => SumWakeAll(Runs(t), s.slots);
    case Look =>
    case Shrink =>
  }

  lemma {:induction false} GrowFromRuns(c: Config, slots: seq<Slot>, live: int, i: nat, count: int, t: Task)
    requires i <= |slots|
    ensures Sum(Runs(t), GrowFrom(c, slots, live, i, count).0) == Sum(Runs(t), slots)
    decreases |slots| - i
  {
    if i < |slots| && count < NUMBER && live < c.maxNum {
      if slots[i].Empty? {
        SumUpdate(Runs(t), slots, i, Live(Ready));
        GrowFromRuns(c, slots[i := Live(Ready)], live + 1, i + 1, count + 1, t);
      } else {
        GrowFromRuns(c, slots, live, i + 1, count, t);
      }
    }
  }

  lemma StepInv(c: Config, s: State, a: Action)
    requires Inv(c, s) && Enabled(c, s, a)
    ensures Inv(c, Apply(c, s, a))
  {
    StepCounts(c, s, a);
    forall t ensures Balanced(Apply(c, s, a), t) { StepBalanced(c, s, a, t); }
  }

  lemma {:induction false} RunInv(c: Config, s: State, run: seq<Action>)
    requires Inv(c, s) && Executable(c, s, run)
    ensures Inv(c, Execute(c, s, run))
    decreases |run|
  {
    if run == [] {
    } else {
      StepInv(c, s, run[0]);
      RunInv(c, Apply(c, s, run[0]), run[1..]);
    }
  }

  ghost predicate Reachable(c: Config, s: State) {
    exists run :: ValidConfig(c) && Executable(c, Init(c), run) && s == Execute(c, Init(c), run)
  }

  lemma ReachableInv(c: Config, s: State)
    requires Reachable(c, s)
    ensures Inv(c, s)
  {
    var run :| ValidConfig(c) && Executable(c, Init(c), run) && s == Execute(c, Init(c), run);
    InitInv(c);
    RunInv(c, Init(c), run);
  }

  // Main results

  /** No lost wakeup: while a task waits, nobody sleeps and some worker is alive and can take its next step. */
  lemma NoLostWakeup(c: Config, s: State)
    requires Reachable(c, s) && s.taskQ != []
    ensures forall i | 0 <= i < |s.slots| :: s.slots[i] != Live(Sleeping)
    ensures exists i: nat :: i < |s.slots| && s.slots[i].Live?
                       && (Enabled(c, s, Acquire(i)) || Enabled(c, s, Reacquire(i)) || Enabled(c, s, Finish(i)))
  {
    ReachableInv(c, s);
    var i := SomeLive(s.slots);
    assert s.slots[i] != Live(Sleeping);
    assert Enabled(c, s, Acquire(i)) || Enabled(c, s, Reacquire(i)) || Enabled(c, s, Finish(i));
  }

  lemma {:induction false} SomeLive(slots: seq<Slot>) returns (i: nat)
    requires Sum(IsLive, slots) > 0
    ensures i < |slots| && slots[i].Live?
  {
    if slots[0].Live? {
      i := 0;
    } else {
      i := SomeLive(slots[1..]);
      i := i + 1;
    }
  }

  /** Tasks start in the order they were added, each once; nothing is lost or duplicated on the way. */
  lemma ConservationAndOrder(c: Config, s: State, t: Task)
    requires Reachable(c, s)
    ensures s.added == s.started + s.taskQ
    ensures multiset(s.added)[t] == multiset(s.taskQ)[t] + Sum(Runs(t), s.slots) + multiset(s.finished)[t]
    ensures s.busyNum == Sum(IsRunning, s.slots) && |s.added| == |s.taskQ| + s.busyNum + |s.finished|
  {
    ReachableInv(c, s);
    assert Balanced(s, t);
  }

  lemma {:induction false} SlotsPartition(slots: seq<Slot>)
    ensures Sum(IsLive, slots) + Sum(IsRetired, slots) + Sum(IsEmpty, slots) == |slots|
    ensures 0 <= Sum(IsRetired, slots) && 0 <= Sum(IsEmpty, slots)
    ensures 0 <= Sum(IsRunning, slots) <= Sum(IsLive, slots)
  {
    if slots == [] {
    } else {
      SlotsPartition(slots[1..]);
    }
  }

  /** liveNum counts the workers that have not returned, stays in [min, max], and bounds what can still grow. */
  lemma LiveBounds(c: Config, s: State)
    requires Reachable(c, s)
    ensures c.minNum <= s.liveNum <= c.maxNum
    ensures s.liveNum == Sum(IsLive, s.slots)
    ensures s.liveNum + Sum(IsRetired, s.slots) == c.maxNum - Sum(IsEmpty, s.slots)
    ensures s.liveNum + Sum(IsRetired, s.slots) <= c.maxNum
  {
    ReachableInv(c, s);
    SlotsPartition(s.slots);
  }

  ghost predicate Kept(before: Slot, after: Slot) {
    (before.Retired? ==> after.Retired?) && (!before.Empty? ==> !after.Empty?)
  }

  lemma StepKeepsSlot(c: Config, s: State, a: Action, i: nat)
    requires Enabled(c, s, a) && i < |s.slots|
    ensures |Apply(c, s, a).slots| == |s.slots| && Kept(s.slots[i], Apply(c, s, a).slots[i])
  {
    if a.Grow? { GrowFromKeeps(c, s.slots, s.liveNum, 0, 0, i); }
  }

  /** A retired slot stays retired and an occupied one is never freed, over any run. */
  lemma {:induction false} SlotsNeverFreed(c: Config, s: State, run: seq<Action>, i: nat)
    requires Executable(c, s, run) && i < |s.slots|
    ensures |Execute(c, s, run).slots| == |s.slots| && Kept(s.slots[i], Execute(c, s, run).slots[i])
    decreases |run|
  {
    if run == [] {
    } else {
      StepKeepsSlot(c, s, run[0], i);
      SlotsNeverFreed(c, Apply(c, s, run[0]), run[1..], i);
    }
  }

  lemma {:induction false} GrowFromKeeps(c: Config, slots: seq<Slot>, live: int, from: nat, count: int, i: nat)
    requires from <= |slots| && i < |slots|
    ensures !slots[i].Empty? ==> GrowFrom(c, slots, live, from, count).0[i] == slots[i]
    decreases |slots| - from
  {
    if from < |slots| && count < NUMBER && live < c.maxNum {
      if slots[from].Empty? {
        GrowFromKeeps(c, slots[from := Live(Ready)], live + 1, from + 1, count + 1, i);
      } else {
        GrowFromKeeps(c, slots, live, from + 1, count, i);
      }
    }
  }

  lemma {:induction false} RetiredKept(before: seq<Slot>, after: seq<Slot>)
    requires |before| == |after| && forall i | 0 <= i < |before| :: Kept(before[i], after[i])
    ensures Sum(IsRetired, before) <= Sum(IsRetired, after)
  {
    if before == [] {
    } else {
      assert Kept(before[0], after[0]);
      RetiredKept(before[1..], after[1..]);
    }
  }

  /** A pool never gets back the room of its retired workers, whatever happens later. */
  lemma NeverRegrows(c: Config, s: State, run: seq<Action>)
    requires Reachable(c, s) && Executable(c, s, run)
    ensures Execute(c, s, run).liveNum <= c.maxNum - Sum(IsRetired, s.slots)
  {
    var s' := Execute(c, s, run);
    ReachableInv(c, s);
    RunInv(c, s, run);
    forall i | 0 <= i < |s.slots| ensures |s'.slots| == |s.slots| && Kept(s.slots[i], s'.slots[i]) {
      SlotsNeverFreed(c, s, run, i);
    }
    RetiredKept(s.slots, s'.slots);
    SlotsPartition(s'.slots);
  }

  lemma {:induction false} RunMore(c: Config, s: State, run: seq<Action>, a: Action)
    requires Executable(c, s, run) && Enabled(c, Execute(c, s, run), a)
    ensures Executable(c, s, run + [a]) && Execute(c, s, run + [a]) == Apply(c, Execute(c, s, run), a)
    decreases |run|
  {
    if run == [] {
      assert run + [a] == [a] && [a][1..] == [];
    } else {
      assert (run + [a])[1..] == run[1..] + [a];
      RunMore(c, Apply(c, s, run[0]), run[1..], a);
    }
  }

  lemma Reach(c: Config, s: State, a: Action) returns (s': State)
    requires Reachable(c, s) && Enabled(c, s, a)
    ensures s' == Apply(c, s, a) && Reachable(c, s')
  {
    var run :| ValidConfig(c) && Executable(c, Init(c), run) && s == Execute(c, Init(c), run);
    RunMore(c, Init(c), run, a);
    s' := Apply(c, s, a);
  }

  /** A pool for one to three workers that has grown to three. */
  lemma GrownPool(t: Task) returns (s: State)
    ensures Reachable(Config(1, 3), s)
    ensures s.slots == [Live(Ready), Live(Ready), Live(Ready)] && s.taskQ == [t, t] && s.manager == Idle
    ensures s.liveNum == 3 && s.exitNum == 0 && s.busyNum == 0
  {
    var c := Config(1, 3);
    s := Init(c);
    assert Executable(c, s, []) && Execute(c, s, []) == s;
    assert s.slots == [Live(Ready), Empty, Empty];
    s := Reach(c, s, Add(t));
    assert s.slots == [Live(Ready), Empty, Empty];
    s := Reach(c, s, Add(t));
    assert s.slots == [Live(Ready), Empty, Empty] && s.taskQ == [t, t];
    s := Reach(c, s, Look);
    GrowTwo(c);
    s := Reach(c, s, Grow);
    s := Reach(c, s, Shrink);
  }

  lemma GrowTwo(c: Config)
    requires c == Config(1, 3)
    ensures GrowFrom(c, [Live(Ready), Empty, Empty], 1, 0, 0) == ([Live(Ready), Live(Ready), Live(Ready)], 3)
  {
    var a: seq<Slot> := [Live(Ready), Live(Ready), Empty];
    var b: seq<Slot> := [Live(Ready), Live(Ready), Live(Ready)];
    assert GrowFrom(c, b, 3, 3, 2) == (b, 3);
    assert a[2 := Live(Ready)] == b && GrowFrom(c, a, 2, 2, 1) == (b, 3);
    assert [Live(Ready), Empty, Empty][1 := Live(Ready)] == a;
    assert GrowFrom(c, [Live(Ready), Empty, Empty], 1, 1, 0) == (b, 3);
  }

  /** Its two tasks are done and two workers sleep. */
  lemma IdlePool(t: Task) returns (s: State)
    ensures Reachable(Config(1, 3), s)
    ensures s.slots == [Live(Sleeping), Live(Sleeping), Live(Ready)] && s.taskQ == [] && s.manager == Idle
    ensures s.liveNum == 3 && s.exitNum == 0 && s.busyNum == 0
  {
    var c := Config(1, 3);
    s := GrownPool(t);
    s := Reach(c, s, Acquire(0));
    s := Reach(c, s, Acquire(1));
    s := Reach(c, s, Finish(0));
    s := Reach(c, s, Finish(1));
    assert s.slots == [Live(Ready), Live(Ready), Live(Ready)];
    s := Reach(c, s, Acquire(0));
    s := Reach(c, s, Acquire(1));
  }

  /** Then the manager lets both go. */
  lemma RetiredPool(t: Task) returns (s: State)
    ensures Reachable(Config(1, 3), s) && s.slots == [Retired, Retired, Live(Ready)]
  {
    var c := Config(1, 3);
    s := IdlePool(t);
    s := Reach(c, s, Look);
    s := Reach(c, s, Grow);
    s := Reach(c, s, Shrink);
    s := Reach(c, s, Notify);
    assert s.slots == [Live(Notified), Live(Notified), Live(Ready)];
    s := Reach(c, s, Reacquire(0));
    s := Reach(c, s, Reacquire(1));
  }

  /** A pool that may have three workers comes to have one for ever. */
  lemma ShrunkenPool(t: Task) returns (s: State)
    ensures Reachable(Config(1, 3), s) && Sum(IsRetired, s.slots) == 2
    ensures forall run | Executable(Config(1, 3), s, run) :: Execute(Config(1, 3), s, run).liveNum == 1
  {
    var c := Config(1, 3);
    s := RetiredPool(t);
    assert Sum(IsRetired, s.slots) == 1 + Sum(IsRetired, s.slots[1..]);
    assert s.slots[1..] == [Retired, Live(Ready)] && s.slots[1..][1..] == [Live(Ready)] && s.slots[1..][1..][1..] == [];
    assert Sum(IsRetired, s.slots[1..][1..]) == 0;
    ReachableInv(c, s);
    forall run | Executable(c, s, run) ensures Execute(c, s, run).liveNum == 1 {
      NeverRegrows(c, s, run);
      RunInv(c, s, run);
    }
  }

  // Up to that bound the pool may grow again

  ghost predicate Leads(c: Config, s: State, s': State) {
    exists run :: Executable(c, s, run) && Execute(c, s, run) == s'
  }

  /** The actions of clients and manager keep what workers are there. */
  lemma CalmStep(c: Config, s: State, at: State, a: Action) returns (next: State)
    requires Leads(c, s, at) && Inv(c, at) && Enabled(c, at, a)
    requires a.Add? || a.Look? || a.Grow? || a.Shrink? || a.Notify?
    ensures next == Apply(c, at, a) && Leads(c, s, next) && Inv(c, next)
    ensures Sum(IsRetired, next.slots) == Sum(IsRetired, at.slots) && next.liveNum >= at.liveNum
  {
    next := Apply(c, at, a);
    var run :| Executable(c, s, run) && Execute(c, s, run) == at;
    RunMore(c, s, run, a);
    StepInv(c, at, a);
    SlotsPartition(at.slots);
    SlotsPartition(next.slots);
    if a.Add? || a.Notify? { WakeAllKeeps(at.slots); }
    if a.Grow? { GrowFromCounts(c, at.slots, at.liveNum, 0, 0); }
  }

  function StepsToIdle(m: Manager): nat {
    match m
    case Idle => 0
    case Notifying(left) => left + 1
    case Grown(_, _) => NUMBER + 2
    case Looked(_, _, _) => NUMBER + 3
  }

  lemma {:induction false} ManagerComesBack(c: Config, s: State, at: State) returns (next: State)
    requires Leads(c, s, at) && Inv(c, at)
    ensures Leads(c, s, next) && Inv(c, next) && next.manager.Idle?
    ensures Sum(IsRetired, next.slots) == Sum(IsRetired, at.slots) && next.liveNum >= at.liveNum
    decreases StepsToIdle(at.manager)
  {
    next := at;
    if !at.manager.Idle? {
      next := CalmStep(c, s, at, if at.manager.Looked? then Grow else if at.manager.Grown? then Shrink else Notify);
      next := ManagerComesBack(c, s, next);
    }
  }

  lemma {:induction false} TasksQueue(c: Config, s: State, at: State, t: Task) returns (next: State)
    requires Leads(c, s, at) && Inv(c, at) && at.manager.Idle?
    ensures Leads(c, s, next) && Inv(c, next) && next.manager.Idle? && |next.taskQ| > next.liveNum == at.liveNum
    ensures Sum(IsRetired, next.slots) == Sum(IsRetired, at.slots)
    decreases at.liveNum - |at.taskQ|
  {
    next := at;
    if |at.taskQ| <= at.liveNum {
      next := CalmStep(c, s, at, Add(t));
      next := TasksQueue(c, s, next, t);
    }
  }

  lemma GrownOnce(c: Config, s: State, at: State, t: Task) returns (next: State)
    requires Leads(c, s, at) && Inv(c, at) && at.liveNum + Sum(IsRetired, at.slots) < c.maxNum
    ensures Leads(c, s, next) && Inv(c, next)
    ensures Sum(IsRetired, next.slots) == Sum(IsRetired, at.slots) && next.liveNum > at.liveNum
  {
    next := ManagerComesBack(c, s, at);
    if next.liveNum == at.liveNum {
      next := TasksQueue(c, s, next, t);
      next := CalmStep(c, s, next, Look);
      SlotsPartition(next.slots);
      assert next.slots[0..] == next.slots;
      GrowAmount(c, next.slots, next.liveNum, 0, 0);
      next := CalmStep(c, s, next, Grow);
    }
  }

  /** With enough tasks and no retirement, the pool can get exactly as many workers as were never retired. */
  lemma {:induction false} MayRegrow(c: Config, s: State, at: State, t: Task) returns (next: State)
    requires Leads(c, s, at) && Inv(c, at)
    ensures Leads(c, s, next) && Inv(c, next)
    ensures next.liveNum == c.maxNum - Sum(IsRetired, at.slots)
    decreases c.maxNum - at.liveNum
  {
    SlotsPartition(at.slots);
    next := at;
    if at.liveNum + Sum(IsRetired, at.slots) < c.maxNum {
      next := GrownOnce(c, s, at, t);
      next := MayRegrow(c, s, next, t);
    }
  }

  ghost predicate Gets(c: Config, s: State, run: seq<Action>, n: int) {
    Executable(c, s, run) && Execute(c, s, run).liveNum >= n
  }

  /** The most workers a pool can still come to have are exactly its maximum less those that retired so far. */
  lemma RegrowsUpTo(c: Config, s: State, n: int)
    requires Reachable(c, s)
    ensures (exists run :: Gets(c, s, run, n)) <==> n <= c.maxNum - Sum(IsRetired, s.slots)
  {
    ReachableInv(c, s);
    if n <= c.maxNum - Sum(IsRetired, s.slots) {
      assert Executable(c, s, []) && Execute(c, s, []) == s;
      var next := MayRegrow(c, s, s, Task(0, ""));
      var run :| Executable(c, s, run) && Execute(c, s, run) == next;
      assert Gets(c, s, run, n);
    } else {
      forall run | Executable(c, s, run) ensures !Gets(c, s, run, n) { NeverRegrows(c, s, run); }
    }
  }

  /** How many workers one pass creates: retired slots do not count as room, so a shrunken pool may not regrow. */
  lemma {:induction false} GrowAmount(c: Config, slots: seq<Slot>, live: int, i: nat, count: int)
    requires i <= |slots| && 0 <= count <= NUMBER && live <= c.maxNum
    ensures GrowFrom(c, slots, live, i, count).1 - live
         == Min(NUMBER - count, Min(c.maxNum - live, Sum(IsEmpty, slots[i..])))
    decreases |slots| - i
  {
    SlotsPartition(slots[i..]);
    if i < |slots| {
      assert slots[i..][1..] == slots[i + 1..];
      SlotsPartition(slots[i + 1..]);
      if count < NUMBER && live < c.maxNum {
        if slots[i].Empty? {
          assert slots[i := Live(Ready)][i + 1..] == slots[i + 1..];
          GrowAmount(c, slots[i := Live(Ready)], live + 1, i + 1, count + 1);
        } else {
          GrowAmount(c, slots, live, i + 1, count);
        }
      }
    }
  }

  // Waiting time

  predicate WorkerAction(a: Action) {
    a.Acquire? || a.Reacquire? || a.Finish?
  }

  function WorkerActions(run: seq<Action>): nat {
    if run == [] then 0 else (if WorkerAction(run[0]) then 1 else 0) + WorkerActions(run[1..])
  }

  /** Workers still to be created count twice, live ones once, and once more while they run a task. */
  function Potential(s: State): int {
    2 * Sum(IsEmpty, s.slots) + Sum(IsLive, s.slots) + Sum(IsRunning, s.slots)
  }

  lemma PotentialStep(c: Config, s: State, a: Action)
    requires Inv(c, s) && Enabled(c, s, a) && s.taskQ != []
    ensures Apply(c, s, a).started != s.started || Potential(Apply(c, s, a)) <= Potential(s) - (if WorkerAction(a) then 1 else 0)
    ensures s.started <= Apply(c, s, a).started
    ensures Apply(c, s, a).started == s.started ==> Apply(c, s, a).taskQ != []
  {
    match a
    case Add(_) => WakeAllKeeps(s.slots);
    case Acquire(i) =>
    case Reacquire(i) => SlotUpdate(s.slots, i, Retired);
    case SpuriousWake(i) => SlotUpdate(s.slots, i, Live(Notified));
    case Finish(i) => SlotUpdate(s.slots, i, Live(Ready));
    case Grow => GrowFromCounts(c, s.slots, s.liveNum, 0, 0);
    case Notify => WakeAllKeeps(s.slots);
    case Look =>
    case Shrink =>
  }

  lemma {:induction false} WaitingRun(c: Config, s: State, run: seq<Action>)
    requires Inv(c, s) && Executable(c, s, run) && s.taskQ != []
    ensures s.started <= Execute(c, s, run).started
    ensures Execute(c, s, run).started == s.started ==> WorkerActions(run) <= Potential(s)
    decreases |run|
  {
    SlotsPartition(s.slots);
    if run == [] {
    } else {
      var s' := Apply(c, s, run[0]);
      StepInv(c, s, run[0]);
      PotentialStep(c, s, run[0]);
      if s'.started == s.started {
        WaitingRun(c, s', run[1..]);
      } else {
        StartedGrows(c, s', run[1..]);
      }
    }
  }

  lemma {:induction false} StartedGrows(c: Config, s: State, run: seq<Action>)
    requires Executable(c, s, run)
    ensures s.started <= Execute(c, s, run).started
    decreases |run|
  {
    if run == [] {
    } else {
      StartedGrows(c, Apply(c, s, run[0]), run[1..]);
    }
  }

  /** The head of the queue starts before the workers have taken more than 2 * maxNum steps, in any interleaving. */
  lemma BoundedWait(c: Config, s: State, run: seq<Action>)
    requires Reachable(c, s) && s.taskQ != [] && Executable(c, s, run)
    requires WorkerActions(run) > 2 * c.maxNum
    ensures |Execute(c, s, run).started| > |s.started|
    ensures Execute(c, s, run).started[|s.started|] == s.taskQ[0]
  {
    ReachableInv(c, s);
    SlotsPartition(s.slots);
    WaitingRun(c, s, run);
    RunInv(c, s, run);
    AddedGrows(c, s, run);
    var s' := Execute(c, s, run);
    assert s'.added[|s.started|] == s.added[|s.started|];
  }

  lemma {:induction false} AddedGrows(c: Config, s: State, run: seq<Action>)
    requires Executable(c, s, run)
    ensures s.added <= Execute(c, s, run).added
    decreases |run|
  {
    if run == [] {
    } else {
      AddedGrows(c, Apply(c, s, run[0]), run[1..]);
    }
  }
}
