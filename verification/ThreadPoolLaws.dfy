/** What the manager's decisions rest on, whatever happens between its readings and its acts, and how workers leave. */
module ThreadPoolLaws {
  import opened Common
  import opened ThreadPoolSpec
  import opened ThreadPoolProofs

  /** A worker that is alive and executes nothing. */
  function IsIdle(s: Slot): int {
    if s.Live? && !s.phase.Running? then 1 else 0
  }

  lemma {:induction false} IdleCount(slots: seq<Slot>)
    ensures Sum(IsIdle, slots) == Sum(IsLive, slots) - Sum(IsRunning, slots)
  {
    if slots == [] {
    } else {
      IdleCount(slots[1..]);
    }
  }

  /** Steps of clients and workers. */
  predicate ByOthers(run: seq<Action>) {
    forall i | 0 <= i < |run| :: !run[i].Look? && !run[i].Grow? && !run[i].Shrink? && !run[i].Notify?
  }

  lemma {:induction false} OthersLeaveManager(c: Config, s: State, run: seq<Action>)
    requires Executable(c, s, run) && ByOthers(run)
    ensures Execute(c, s, run).manager == s.manager
    decreases |run|
  {
    if run == [] {
    } else {
      assert !run[0].Look?;
      OthersLeaveManager(c, Apply(c, s, run[0]), run[1..]);
    }
  }

  /**
   * A pass of the manager from its look to its act, with any steps of clients and workers in between. It starts workers
   * just if at the look more tasks were queued than workers were alive, and fewer were alive than there may be; how many
   * depends on the pool when it acts. It asks two workers to leave just if at the look the idle workers outnumbered the
   * running ones and more were alive than there must be.
   */
  lemma PassDecides(c: Config, s: State, before: seq<Action>, between: seq<Action>)
    returns (looked: State, grown: State, acts: State)
    requires Reachable(c, s) && s.manager.Idle? && ByOthers(before) && ByOthers(between)
    requires Executable(c, Apply(c, s, Look), before)
    requires var at := Execute(c, Apply(c, s, Look), before); at.manager.Looked? ==> Executable(c, Apply(c, at, Grow), between)
    ensures looked == Execute(c, Apply(c, s, Look), before) && Enabled(c, looked, Grow) && grown == Apply(c, looked, Grow)
    ensures var n := if |s.taskQ| > Sum(IsLive, s.slots) && Sum(IsLive, s.slots) < c.maxNum
                     then Min(2, Min(c.maxNum - looked.liveNum, Sum(IsEmpty, looked.slots))) else 0;
            && grown.liveNum == looked.liveNum + n
            && Sum(IsEmpty, grown.slots) == Sum(IsEmpty, looked.slots) - n
            && (n == 0 ==> grown.slots == looked.slots)
    ensures acts == Execute(c, grown, between) && Enabled(c, acts, Shrink)
    ensures Apply(c, acts, Shrink)
            == if Sum(IsIdle, s.slots) > Sum(IsRunning, s.slots) && Sum(IsLive, s.slots) > c.minNum
               then acts.(exitNum := 2, manager := Notifying(2)) else acts.(manager := Idle)
  {
    var start := Apply(c, s, Look);
    ReachableInv(c, s);
    IdleCount(s.slots);
    OthersLeaveManager(c, start, before);
    looked := Execute(c, start, before);
    StepInv(c, s, Look);
    RunInv(c, start, before);
    grown := Apply(c, looked, Grow);
    PassGrows(c, looked);
    OthersLeaveManager(c, grown, between);
    acts := Execute(c, grown, between);
  }

  lemma PassGrows(c: Config, s: State)
    requires Inv(c, s) && s.manager.Looked?
    ensures var m, s' := s.manager, Apply(c, s, Grow);
            var n := if m.queued > m.live && m.live < c.maxNum
                     then Min(2, Min(c.maxNum - s.liveNum, Sum(IsEmpty, s.slots))) else 0;
            && s'.manager == Grown(m.live, m.busy) && s'.liveNum == s.liveNum + n
            && Sum(IsEmpty, s'.slots) == Sum(IsEmpty, s.slots) - n && (n == 0 ==> s'.slots == s.slots)
  {
    SlotsPartition(s.slots);
    assert s.slots[0..] == s.slots;
    GrowAmount(c, s.slots, s.liveNum, 0, 0);
    GrowFromCounts(c, s.slots, s.liveNum, 0, 0);
    GrowsNone(c, s.slots, s.liveNum, 0, 0);
  }

  lemma {:induction false} GrowsNone(c: Config, slots: seq<Slot>, live: int, i: nat, count: int)
    requires i <= |slots| && 0 <= count <= NUMBER && live <= c.maxNum
    ensures GrowFrom(c, slots, live, i, count).1 >= live
    ensures GrowFrom(c, slots, live, i, count).1 == live ==> GrowFrom(c, slots, live, i, count).0 == slots
    decreases |slots| - i
  {
    if i == |slots| {
    } else if count < NUMBER && live < c.maxNum {
      if slots[i].Empty? {
        GrowsNone(c, slots[i := Live(Ready)], live + 1, i + 1, count + 1);
      } else {
        GrowsNone(c, slots, live, i + 1, count);
      }
    }
  }

  /** After the act the manager wakes everybody twice and is done. */
  lemma NotifyWakes(c: Config, s: State, i: nat)
    requires s.manager.Notifying? && i < |s.slots|
    ensures var s' := Apply(c, s, Notify);
            && s'.slots[i] == (if s.slots[i] == Live(Sleeping) then Live(Notified) else s.slots[i])
            && s'.manager == (if s.manager.left == 2 then Notifying(1) else if s.manager.left < 2 then Idle
                              else Notifying(s.manager.left - 1))
            && s'.exitNum == s.exitNum && s'.taskQ == s.taskQ && |s'.slots| == |s.slots|
  {}

  // Leaving

  /** A worker that wakes uses up one request to leave, if there is one, and leaves just if more are alive than must be. */
  lemma WakeDecides(c: Config, s: State, i: nat)
    requires Enabled(c, s, Reacquire(i))
    ensures var s' := Apply(c, s, Reacquire(i));
            && s'.exitNum == (if s.exitNum > 0 then s.exitNum - 1 else s.exitNum)
            && (forall j | 0 <= j < |s.slots| && j != i :: s'.slots[j] == s.slots[j])
            && if s.exitNum > 0 && s.liveNum > c.minNum then
                 s'.slots[i] == Retired && s'.liveNum == s.liveNum - 1 && s'.taskQ == s.taskQ && s'.started == s.started
               else s'.liveNum == s.liveNum && WokenTakes(s, s', i)
  {}

  /** A sleeper that returns from wait unasked comes to the lock like a notified one; nothing else happens. */
  lemma UnaskedWakes(c: Config, s: State, i: nat)
    requires Enabled(c, s, SpuriousWake(i))
    ensures Enabled(c, Apply(c, s, SpuriousWake(i)), Reacquire(i))
    ensures Apply(c, s, SpuriousWake(i)) == s.(slots := s.slots[..i] + [Live(Notified)] + s.slots[i + 1..])
  {}

  /** It takes the task that waits longest, or sleeps if there is none. */
  predicate WokenTakes(s: State, s': State, i: nat)
    requires i < |s.slots| == |s'.slots|
  {
    if s.taskQ == [] then s'.slots[i] == Live(Sleeping) && s'.taskQ == [] && s'.busyNum == s.busyNum
    else s'.slots[i] == Live(Running(s.taskQ[0])) && [s.taskQ[0]] + s'.taskQ == s.taskQ && s'.busyNum == s.busyNum + 1
  }

  function Wakes(run: seq<Action>): nat {
    if run == [] then 0 else (if run[0].Reacquire? then 1 else 0) + Wakes(run[1..])
  }

  predicate NoShrink(run: seq<Action>) {
    forall i | 0 <= i < |run| :: !run[i].Shrink?
  }

  /** Between two acts of the manager every worker that wakes uses up one request, until none is left. */
  lemma {:induction false} RequestsUsedUp(c: Config, s: State, run: seq<Action>)
    requires Inv(c, s) && Executable(c, s, run) && NoShrink(run)
    ensures Execute(c, s, run).exitNum == if s.exitNum > Wakes(run) then s.exitNum - Wakes(run) else 0
    decreases |run|
  {
    if run == [] {
    } else {
      assert !run[0].Shrink?;
      StepInv(c, s, run[0]);
      RequestsUsedUp(c, Apply(c, s, run[0]), run[1..]);
    }
  }

  lemma StepLeaves(c: Config, s: State, a: Action)
    requires Inv(c, s) && Enabled(c, s, a) && !a.Shrink?
    ensures Sum(IsRetired, Apply(c, s, a).slots) + Apply(c, s, a).exitNum <= Sum(IsRetired, s.slots) + s.exitNum
  {
    var s' := Apply(c, s, a);
    StepInv(c, s, a);
    SlotsPartition(s.slots);
    SlotsPartition(s'.slots);
    match a
    case Add(_) => WakeAllKeeps(s.slots);
    case Acquire(i) => SlotUpdate(s.slots, i, s'.slots[i]);
    case Reacquire(i) => SlotUpdate(s.slots, i, s'.slots[i]);
    case SpuriousWake(i) => SlotUpdate(s.slots, i, s'.slots[i]);
    case Finish(i) => SlotUpdate(s.slots, i, s'.slots[i]);
    case Grow => GrowFromCounts(c, s.slots, s.liveNum, 0, 0);
    case Notify => WakeAllKeeps(s.slots);
    case Look =>
  }

  /** So at most as many workers leave as were asked to: two for each act of the manager. */
  lemma {:induction false} FewLeave(c: Config, s: State, run: seq<Action>)
    requires Inv(c, s) && Executable(c, s, run) && NoShrink(run)
    ensures Sum(IsRetired, Execute(c, s, run).slots) - Sum(IsRetired, s.slots) <= s.exitNum
    decreases |run|
  {
    StayInv(c, s, run);
    if run == [] {
    } else {
      assert !run[0].Shrink?;
      StepInv(c, s, run[0]);
      StepLeaves(c, s, run[0]);
      FewLeave(c, Apply(c, s, run[0]), run[1..]);
    }
  }

  lemma StayInv(c: Config, s: State, run: seq<Action>)
    requires Inv(c, s) && Executable(c, s, run)
    ensures Execute(c, s, run).exitNum >= 0
  {
    RunInv(c, s, run);
  }
}
