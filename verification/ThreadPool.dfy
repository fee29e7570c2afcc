/**
 * The pool object: each method is one critical section, performs exactly one action of the step system, and keeps the
 * invariant that is proved of all its runs.
 */
module ThreadPool {
  import opened ThreadPoolSpec
  import opened ThreadPoolProofs

  class Pool {
    const minNum: int
    const maxNum: int
    var taskQ: seq<Task>
    var busyNum: int
    var liveNum: int
    var exitNum: int
    var threadIDs: array<Slot>
    var manager: Manager
    ghost var added: seq<Task>
    ghost var started: seq<Task>
    ghost var finished: seq<Task>

    ghost function Cfg(): Config { Config(minNum, maxNum) }

    ghost function View(): State
      reads this, threadIDs
    {
      State(taskQ, busyNum, liveNum, exitNum, threadIDs[..], manager, added, started, finished)
    }

    ghost predicate Valid()
      reads this, threadIDs
    {
      Inv(Cfg(), View())
    }

    constructor (min: int, max: int)
      requires 1 <= min <= max
      ensures minNum == min && maxNum == max && fresh(threadIDs)
      ensures View() == Init(Cfg()) && Valid()
    {
      minNum, maxNum := min, max;
      taskQ, busyNum, liveNum, exitNum := [], 0, min, 0;
      manager := Idle;
      added, started, finished := [], [], [];
      threadIDs := new Slot[max](_ => Empty);
      new;
      var i := 0;
      while i < min
        invariant 0 <= i <= min
        invariant fresh(threadIDs) && threadIDs.Length == max
        invariant forall j | 0 <= j < max :: threadIDs[j] == if j < i then Live(Ready) else Empty
        modifies threadIDs
      {
        threadIDs[i] := Live(Ready);
        i := i + 1;
      }
      assert threadIDs[..] == Init(Cfg()).slots;
      InitInv(Cfg());
    }

    method NotifyAll()
      modifies threadIDs
      ensures threadIDs[..] == WakeAll(old(threadIDs[..]))
    {
      for i := 0 to threadIDs.Length
        invariant forall j | 0 <= j < threadIDs.Length ::
                    threadIDs[j] == if j < i then Woken(old(threadIDs[j])) else old(threadIDs[j])
      {
        threadIDs[i] := Woken(threadIDs[i]);
      }
    }

    method AddTask(t: Task)
      requires Valid()
      modifies this, threadIDs
      ensures threadIDs == old(threadIDs)
      ensures View() == Apply(Cfg(), old(View()), Add(t)) && Valid()
    {
      StepInv(Cfg(), View(), Add(t));
      taskQ := taskQ + [t];
      added := added + [t];
      NotifyAll();
    }

    /** The part of the worker's section after the wait loop's test can be made. */
    method TakeTaskOrWait(i: nat)
      requires i < threadIDs.Length
      modifies this, threadIDs
      ensures threadIDs == old(threadIDs)
      ensures View() == TakeOrSleep(old(View()), i)
    {
      if taskQ == [] {
        threadIDs[i] := Live(Sleeping);
      } else {
        var task := taskQ[0];
        taskQ := taskQ[1..];
        busyNum := busyNum + 1;
        threadIDs[i] := Live(Running(task));
        started := started + [task];
      }
    }

    method WorkerEnters(i: nat)
      requires Valid() && Enabled(Cfg(), View(), Acquire(i))
      modifies this, threadIDs
      ensures threadIDs == old(threadIDs)
      ensures View() == Apply(Cfg(), old(View()), Acquire(i)) && Valid()
    {
      StepInv(Cfg(), View(), Acquire(i));
      TakeTaskOrWait(i);
    }

    method WorkerWakes(i: nat)
      requires Valid() && Enabled(Cfg(), View(), Reacquire(i))
      modifies this, threadIDs
      ensures threadIDs == old(threadIDs)
      ensures View() == Apply(Cfg(), old(View()), Reacquire(i)) && Valid()
    {
      StepInv(Cfg(), View(), Reacquire(i));
      if exitNum > 0 {
        exitNum := exitNum - 1;
        if liveNum > minNum {
          liveNum := liveNum - 1;
          threadIDs[i] := Retired;
          return;
        }
      }
      TakeTaskOrWait(i);
    }

    /** cond.wait may return without a notification. */
    method WorkerWakesUnasked(i: nat)
      requires Valid() && Enabled(Cfg(), View(), SpuriousWake(i))
      modifies threadIDs
      ensures threadIDs == old(threadIDs)
      ensures View() == Apply(Cfg(), old(View()), SpuriousWake(i)) && Valid()
    {
      StepInv(Cfg(), View(), SpuriousWake(i));
      threadIDs[i] := Live(Notified);
    }

    method WorkerFinishes(i: nat)
      requires Valid() && Enabled(Cfg(), View(), Finish(i))
      modifies this, threadIDs
      ensures threadIDs == old(threadIDs)
      ensures View() == Apply(Cfg(), old(View()), Finish(i)) && Valid()
    {
      StepInv(Cfg(), View(), Finish(i));
      finished := finished + [threadIDs[i].phase.task];
      busyNum := busyNum - 1;
      threadIDs[i] := Live(Ready);
    }

    method ManagerLooks()
      requires Valid() && Enabled(Cfg(), View(), Look)
      modifies this
      ensures threadIDs == old(threadIDs)
      ensures View() == Apply(Cfg(), old(View()), Look) && Valid()
    {
      StepInv(Cfg(), View(), Look);
      manager := Looked(|taskQ|, liveNum, busyNum);
    }

    method ManagerGrows()
      requires Valid() && Enabled(Cfg(), View(), Grow)
      modifies this, threadIDs
      ensures threadIDs == old(threadIDs)
      ensures View() == Apply(Cfg(), old(View()), Grow) && Valid()
    {
      StepInv(Cfg(), View(), Grow);
      var m := manager;
      manager := Grown(m.live, m.busy);
      if m.queued > m.live && m.live < maxNum {
        var count := 0;
        var i := 0;
        while i < threadIDs.Length && count < NUMBER && liveNum < maxNum
          invariant 0 <= i <= threadIDs.Length && threadIDs == old(threadIDs)
          invariant View() == old(View()).(manager := Grown(m.live, m.busy), liveNum := liveNum, slots := threadIDs[..])
          invariant GrowFrom(Cfg(), threadIDs[..], liveNum, i, count)
                 == GrowFrom(Cfg(), old(threadIDs[..]), old(liveNum), 0, 0)
        {
          if threadIDs[i].Empty? {
            ghost var before := threadIDs[..];
            threadIDs[i] := Live(Ready);
            assert threadIDs[..] == before[i := Live(Ready)];
            count := count + 1;
            liveNum := liveNum + 1;
          }
          i := i + 1;
        }
      }
    }

    method ManagerShrinks()
      requires Valid() && Enabled(Cfg(), View(), Shrink)
      modifies this
      ensures threadIDs == old(threadIDs)
      ensures View() == Apply(Cfg(), old(View()), Shrink) && Valid()
    {
      StepInv(Cfg(), View(), Shrink);
      if manager.busy * 2 < manager.live && manager.live > minNum {
        exitNum := NUMBER;
        manager := Notifying(NUMBER);
      } else {
        manager := Idle;
      }
    }

    method ManagerNotifies()
      requires Valid() && Enabled(Cfg(), View(), Notify)
      modifies this, threadIDs
      ensures threadIDs == old(threadIDs)
      ensures View() == Apply(Cfg(), old(View()), Notify) && Valid()
    {
      StepInv(Cfg(), View(), Notify);
      manager := if manager.left <= 1 then Idle else Notifying(manager.left - 1);
      NotifyAll();
    }
  }
}
