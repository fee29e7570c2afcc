/**
 * The thread pool as a step system: one action per critical section of the workers, the manager and the
 * clients. A state also records which tasks were added, started and finished so far, in order.
 */
module ThreadPoolSpec {
  /** A bound callback: which callback, and the message bound to it. */
  datatype Task = Task(callback: nat, message: string)

  /** Where a worker stands: before the lock, inside cond.wait, woken from it, or executing a task. */
  datatype Phase = Ready | Sleeping | Notified | Running(task: Task)

  /** An entry of threadIDs. A worker that returned stays joinable, so its entry is never free again. */
  datatype Slot = Empty | Live(phase: Phase) | Retired

  /** The manager between its critical sections, with the values it read under the lock. */
  datatype Manager =
    | Idle
    | Looked(queued: int, live: int, busy: int)
    | Grown(live: int, busy: int)
    | Notifying(left: nat)

  datatype Config = Config(minNum: int, maxNum: int)

  datatype State = State(
    taskQ: seq<Task>, busyNum: int, liveNum: int, exitNum: int, slots: seq<Slot>, manager: Manager,
    added: seq<Task>, started: seq<Task>, finished: seq<Task>)

  datatype Action =
    | Add(task: Task)
    | Acquire(worker: nat)
    | Reacquire(worker: nat)
    | SpuriousWake(worker: nat)
    | Finish(worker: nat)
    | Look | Grow | Shrink | Notify

  const NUMBER: int := 2

  predicate ValidConfig(c: Config) {
    1 <= c.minNum <= c.maxNum
  }

  function Init(c: Config): State
    requires ValidConfig(c)
  {
    State([], 0, c.minNum, 0, seq(c.maxNum, i => if i < c.minNum then Live(Ready) else Empty), Idle, [], [], [])
  }

  /** notify_all */
  function Woken(s: Slot): Slot {
    if s == Live(Sleeping) then Live(Notified) else s
  }

  function WakeAll(slots: seq<Slot>): (r: seq<Slot>)
    ensures |r| == |slots| && forall i | 0 <= i < |r| :: r[i] == Woken(slots[i])
  {
    if slots == [] then [] else [Woken(slots[0])] + WakeAll(slots[1..])
  }

  predicate Enabled(c: Config, s: State, a: Action) {
    match a
    case Add(_) => true
    case Acquire(i) => i < |s.slots| && s.slots[i] == Live(Ready)
    case Reacquire(i) => i < |s.slots| && s.slots[i] == Live(Notified)
    case SpuriousWake(i) => i < |s.slots| && s.slots[i] == Live(Sleeping)
    case Finish(i) => i < |s.slots| && s.slots[i].Live? && s.slots[i].phase.Running?
    case Look => s.manager.Idle?
    case Grow => s.manager.Looked?
    case Shrink => s.manager.Grown?
    case Notify => s.manager.Notifying?
  }

  /** The wait loop and the pop, once the lock is held. */
  function TakeOrSleep(s: State, i: nat): State
    requires i < |s.slots|
  {
    if s.taskQ == [] then s.(slots := s.slots[i := Live(Sleeping)])
    else
      var t := s.taskQ[0];
      s.(taskQ := s.taskQ[1..], busyNum := s.busyNum + 1, slots := s.slots[i := Live(Running(t))],
         started := s.started + [t])
  }

  /** The worker returns from cond.wait and first looks at exitNum. */
  function Resume(c: Config, s: State, i: nat): State
    requires i < |s.slots|
  {
    if s.exitNum > 0 then
      if s.liveNum > c.minNum then
        s.(exitNum := s.exitNum - 1, liveNum := s.liveNum - 1, slots := s.slots[i := Retired])
      else TakeOrSleep(s.(exitNum := s.exitNum - 1), i)
    else TakeOrSleep(s, i)
  }

  /** The loop of the manager that starts at most NUMBER workers in free slots, from slot i on. */
  function GrowFrom(c: Config, slots: seq<Slot>, live: int, i: nat, count: int): (r: (seq<Slot>, int))
    requires i <= |slots|
    ensures |r.0| == |slots|
    decreases |slots| - i
  {
    if i < |slots| && count < NUMBER && live < c.maxNum then
      if slots[i].Empty? then GrowFrom(c, slots[i := Live(Ready)], live + 1, i + 1, count + 1)
      else GrowFrom(c, slots, live, i + 1, count)
    else (slots, live)
  }

  function Apply(c: Config, s: State, a: Action): State
    requires Enabled(c, s, a)
  {
    match a
    case Add(t) => s.(taskQ := s.taskQ + [t], slots := WakeAll(s.slots), added := s.added + [t])
    case Acquire(i) => TakeOrSleep(s, i)
    case Reacquire(i) => Resume(c, s, i)
    case SpuriousWake(i) => s.(slots := s.slots[i := Live(Notified)])
    case Finish(i) =>
      s.(busyNum := s.busyNum - 1, slots := s.slots[i := Live(Ready)],
         finished := s.finished + [s.slots[i].phase.task])
    case Look => s.(manager := Looked(|s.taskQ|, s.liveNum, s.busyNum))
    case Grow =>
      var m := s.manager;
      var s' := s.(manager := Grown(m.live, m.busy));
      if m.queued > m.live && m.live < c.maxNum then
        var (slots, live) := GrowFrom(c, s.slots, s.liveNum, 0, 0);
        s'.(slots := slots, liveNum := live)
      else s'
    case Shrink =>
      if s.manager.busy * 2 < s.manager.live && s.manager.live > c.minNum then
        s.(exitNum := NUMBER, manager := Notifying(NUMBER))
      else s.(manager := Idle)
    case Notify =>
      s.(slots := WakeAll(s.slots),
         manager := if s.manager.left <= 1 then Idle else Notifying(s.manager.left - 1))
  }

  /** Every interleaving: a run is any sequence of actions each enabled when it is taken. */
  predicate Executable(c: Config, s: State, run: seq<Action>)
    decreases |run|
  {
    run == [] || (Enabled(c, s, run[0]) && Executable(c, Apply(c, s, run[0]), run[1..]))
  }

  function Execute(c: Config, s: State, run: seq<Action>): State
    requires Executable(c, s, run)
    decreases |run|
  {
    if run == [] then s else Execute(c, Apply(c, s, run[0]), run[1..])
  }

  // Counting over the slots

  function Sum(f: Slot -> int, slots: seq<Slot>): int {
    if slots == [] then 0 else f(slots[0]) + Sum(f, slots[1..])
  }

  function IsLive(s: Slot): int { if s.Live? then 1 else 0 }

  function IsRunning(s: Slot): int { if s.Live? && s.phase.Running? then 1 else 0 }

  function IsRetired(s: Slot): int { if s.Retired? then 1 else 0 }

  function IsEmpty(s: Slot): int { if s.Empty? then 1 else 0 }

  /** Whether a slot is executing t. */
  function Runs(t: Task): Slot -> int {
    (s: Slot) => if s == Live(Running(t)) then 1 else 0
  }

  predicate SomeoneSleeps(slots: seq<Slot>) {
    exists i :: 0 <= i < |slots| && slots[i] == Live(Sleeping)
  }
}
