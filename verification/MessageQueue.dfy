/** The message bus on top of the pool: each subscriber's messages start in publish order. */
module MessageQueue {
  import opened Common
  import opened ThreadPoolSpec
  import opened ThreadPoolProofs
  import ThreadPool

  // The bus as a step system

  /** What happened under the bus mutex so far, in order. */
  datatype Event = Subscribed(topic: string) | Published(topic: string, message: string)

  /** publish holds the bus mutex while it walks the subscribers, but each Add takes the pool lock on its own. */
  datatype Publishing = Publishing(topic: string, message: string, next: nat)

  datatype Bus = Bus(subscribers: seq<string>, publishing: Option<Publishing>, log: seq<Event>, pool: State)

  datatype BusAction =
    | Subscribe(topic: string)
    | Publish(topic: string, message: string)
    | Advance
    | Pool(action: Action)

  function InitBus(c: Config): Bus
    requires ValidConfig(c)
  {
    Bus([], None, [], Init(c))
  }

  predicate BusEnabled(c: Config, b: Bus, a: BusAction) {
    match a
    case Subscribe(_) => b.publishing.None?
    case Publish(_, _) => b.publishing.None?
    case Advance => b.publishing.Some?
    case Pool(p) => !p.Add? && Enabled(c, b.pool, p)
  }

  function BusApply(c: Config, b: Bus, a: BusAction): Bus
    requires BusEnabled(c, b, a)
  {
    match a
    case Subscribe(topic) => b.(subscribers := b.subscribers + [topic], log := b.log + [Subscribed(topic)])
    case Publish(topic, message) =>
      b.(publishing := Some(Publishing(topic, message, 0)), log := b.log + [Published(topic, message)])
    case Advance =>
      var p := b.publishing.value;
      if p.next >= |b.subscribers| then b.(publishing := None)
      else
        var b' := b.(publishing := Some(p.(next := p.next + 1)));
        if b.subscribers[p.next] == p.topic then b'.(pool := Apply(c, b.pool, Add(Task(p.next, p.message)))) else b'
    case Pool(p) => b.(pool := Apply(c, b.pool, p))
  }

  predicate BusExecutable(c: Config, b: Bus, run: seq<BusAction>)
    decreases |run|
  {
    run == [] || (BusEnabled(c, b, run[0]) && BusExecutable(c, BusApply(c, b, run[0]), run[1..]))
  }

  function BusExecute(c: Config, b: Bus, run: seq<BusAction>): Bus
    requires BusExecutable(c, b, run)
    decreases |run|
  {
    if run == [] then b else BusExecute(c, BusApply(c, b, run[0]), run[1..])
  }

  // What a subscriber is promised

  /** The topics subscribed to in a log; position is subscriber number. */
  function Topics(log: seq<Event>): seq<string> {
    if log == [] then []
    else
      var rest := Topics(log[..|log| - 1]);
      match log[|log| - 1]
      case Subscribed(topic) => rest + [topic]
      case Published(_, _) => rest
  }

  /** The messages published to subscriber k's topic after it subscribed, in publish order. */
  function Promised(k: nat, log: seq<Event>): seq<string> {
    if log == [] then []
    else
      var init := log[..|log| - 1];
      match log[|log| - 1]
      case Subscribed(_) => Promised(k, init)
      case Published(topic, message) =>
        var rest := Promised(k, init);
        if k < |Topics(init)| && Topics(init)[k] == topic then rest + [message] else rest
  }

  /** The messages of the tasks bound to subscriber k. */
  function MessagesOf(k: nat, tasks: seq<Task>): seq<string> {
    if tasks == [] then []
    else
      var rest := MessagesOf(k, tasks[..|tasks| - 1]);
      if tasks[|tasks| - 1].callback == k then rest + [tasks[|tasks| - 1].message] else rest
  }

  /** What of the current publication is still to be handed to subscriber k. */
  function Due(k: nat, b: Bus): seq<string> {
    if b.publishing.Some? then
      var p := b.publishing.value;
      if p.next <= k < |b.subscribers| && b.subscribers[k] == p.topic then [p.message] else []
    else []
  }

  ghost predicate BusInv(c: Config, b: Bus, k: nat) {
    && Inv(c, b.pool)
    && Topics(b.log) == b.subscribers
    && MessagesOf(k, b.pool.added) + Due(k, b) == Promised(k, b.log)
  }

  lemma LogSubscribed(k: nat, log: seq<Event>, topic: string)
    ensures Topics(log + [Subscribed(topic)]) == Topics(log) + [topic]
    ensures Promised(k, log + [Subscribed(topic)]) == Promised(k, log)
  {
    assert (log + [Subscribed(topic)])[..|log|] == log;
  }

  lemma LogPublished(k: nat, log: seq<Event>, topic: string, message: string)
    ensures Topics(log + [Published(topic, message)]) == Topics(log)
    ensures Promised(k, log + [Published(topic, message)])
            == Promised(k, log) + if k < |Topics(log)| && Topics(log)[k] == topic then [message] else []
  {
    assert (log + [Published(topic, message)])[..|log|] == log;
  }

  lemma NothingMore(a: seq<string>, b: seq<string>)
    requires a + [] == b
    ensures a == b
  {}

  /** A publication is due to just the subscribers it was promised to. */
  lemma PublishedDue(c: Config, b: Bus, topic: string, message: string, k: nat)
    requires b.publishing.None? && Topics(b.log) == b.subscribers
    requires MessagesOf(k, b.pool.added) + Due(k, b) == Promised(k, b.log)
    ensures var next := BusApply(c, b, Publish(topic, message));
            MessagesOf(k, next.pool.added) + Due(k, next) == Promised(k, next.log)
  {
    LogPublished(k, b.log, topic, message);
    NothingMore(MessagesOf(k, b.pool.added), Promised(k, b.log));
  }

  lemma MessagesOfPush(k: nat, tasks: seq<Task>, t: Task)
    ensures MessagesOf(k, tasks + [t]) == MessagesOf(k, tasks) + if t.callback == k then [t.message] else []
  {
    assert (tasks + [t])[..|tasks|] == tasks;
  }

  lemma DueNext(k: nat, b: Bus, next: Bus, p: Publishing)
    requires b.publishing == Some(p) && next.subscribers == b.subscribers
    requires next.publishing == if p.next >= |b.subscribers| then None else Some(p.(next := p.next + 1))
    ensures Due(k, b)
            == (if k == p.next < |b.subscribers| && b.subscribers[k] == p.topic then [p.message] else []) + Due(k, next)
  {}

  /** What a round of publish hands on is no longer due. */
  lemma HandedDue(c: Config, b: Bus, k: nat)
    requires b.publishing.Some?
    ensures var next := BusApply(c, b, Advance);
            MessagesOf(k, next.pool.added) + Due(k, next) == MessagesOf(k, b.pool.added) + Due(k, b)
  {
    var p, next := b.publishing.value, BusApply(c, b, Advance);
    DueNext(k, b, next, p);
    if p.next < |b.subscribers| && b.subscribers[p.next] == p.topic {
      var t := Task(p.next, p.message);
      assert next.pool.added == b.pool.added + [t];
      MessagesOfPush(k, b.pool.added, t);
      Glue(MessagesOf(k, b.pool.added), if k == p.next then [p.message] else [], Due(k, next));
    } else {
      assert next.pool == b.pool;
    }
  }

  lemma HandedInv(c: Config, b: Bus)
    requires Inv(c, b.pool) && b.publishing.Some?
    ensures Inv(c, BusApply(c, b, Advance).pool)
  {
    var p := b.publishing.value;
    if p.next < |b.subscribers| && b.subscribers[p.next] == p.topic { StepInv(c, b.pool, Add(Task(p.next, p.message))); }
  }

  lemma PoolKeepsAdded(c: Config, s: State, a: Action)
    requires Enabled(c, s, a) && !a.Add?
    ensures Apply(c, s, a).added == s.added
  {}

  lemma StepBusInv(c: Config, b: Bus, a: BusAction, k: nat)
    requires BusInv(c, b, k) && BusEnabled(c, b, a)
    ensures BusInv(c, BusApply(c, b, a), k)
  {
    match a
    case Subscribe(topic) =>
      LogSubscribed(k, b.log, topic);
    case Publish(topic, message) =>
      LogPublished(k, b.log, topic, message);
      PublishedDue(c, b, topic, message, k);
    case Advance =>
      HandedInv(c, b);
      HandedDue(c, b, k);
    case Pool(p) =>
      StepInv(c, b.pool, p);
      PoolKeepsAdded(c, b.pool, p);
  }

  lemma {:induction false} RunBusInv(c: Config, b: Bus, run: seq<BusAction>, k: nat)
    requires BusInv(c, b, k) && BusExecutable(c, b, run)
    ensures BusInv(c, BusExecute(c, b, run), k)
    decreases |run|
  {
    if run == [] {
    } else {
      StepBusInv(c, b, run[0], k);
      RunBusInv(c, BusApply(c, b, run[0]), run[1..], k);
    }
  }

  lemma {:induction false} MessagesOfPrefix(k: nat, a: seq<Task>, b: seq<Task>)
    ensures MessagesOf(k, a) <= MessagesOf(k, a + b)
  {
    if b == [] {
      assert a + b == a;
    } else {
      assert (a + b)[..|a + b| - 1] == a + b[..|b| - 1];
      MessagesOfPrefix(k, a, b[..|b| - 1]);
    }
  }

  /** What started for subscriber k is a prefix of what it was promised, and all of it once nothing is queued. */
  predicate Delivers(b: Bus, k: nat) {
    && MessagesOf(k, b.pool.started) <= Promised(k, b.log)
    && (b.publishing.None? && b.pool.taskQ == [] ==> MessagesOf(k, b.pool.started) == Promised(k, b.log))
  }

  lemma InvDelivers(c: Config, b: Bus, k: nat)
    requires BusInv(c, b, k)
    ensures Delivers(b, k)
  {
    MessagesOfPrefix(k, b.pool.started, b.pool.taskQ);
    assert b.pool.taskQ == [] ==> b.pool.added == b.pool.started;
  }

  lemma InitBusInv(c: Config, k: nat)
    requires ValidConfig(c)
    ensures BusInv(c, InitBus(c), k)
  {
    InitInv(c);
  }

  /** In every run, every subscriber gets what it was promised, in publish order. */
  lemma DeliveredInPublishOrder(c: Config, run: seq<BusAction>, k: nat)
    requires ValidConfig(c) && BusExecutable(c, InitBus(c), run)
    ensures Delivers(BusExecute(c, InitBus(c), run), k)
  {
    InitBusInv(c, k);
    RunBusInv(c, InitBus(c), run, k);
    InvDelivers(c, BusExecute(c, InitBus(c), run), k);
  }

  // The bus object

  /** The tasks that one publication adds, in subscription order. */
  function TasksFor(subscribers: seq<string>, topic: string, message: string): seq<Task> {
    if subscribers == [] then []
    else
      var last := |subscribers| - 1;
      TasksFor(subscribers[..last], topic, message) + if subscribers[last] == topic then [Task(last, message)] else []
  }

  /** publish without another thread in between, after n of its rounds. */
  function Publication(topic: string, message: string, n: nat): seq<BusAction> {
    if n == 0 then [Publish(topic, message)] else Publication(topic, message, n - 1) + [Advance]
  }

  lemma {:induction false} BusRunMore(c: Config, b: Bus, run: seq<BusAction>, a: BusAction)
    requires BusExecutable(c, b, run) && BusEnabled(c, BusExecute(c, b, run), a)
    ensures BusExecutable(c, b, run + [a]) && BusExecute(c, b, run + [a]) == BusApply(c, BusExecute(c, b, run), a)
    decreases |run|
  {
    if run == [] {
      assert run + [a] == [a] && [a][1..] == [];
    } else {
      assert (run + [a])[1..] == run[1..] + [a];
      BusRunMore(c, BusApply(c, b, run[0]), run[1..], a);
    }
  }

  /** The steps lead from b to b'. */
  ghost predicate BusLeads(c: Config, b: Bus, run: seq<BusAction>, b': Bus) {
    BusExecutable(c, b, run) && BusExecute(c, b, run) == b'
  }

  /** A subscriber is known by its number, which stands for its callback. */
  class Queue {
    var subscribers: seq<string>
    var publishing: Option<Publishing>
    ghost var log: seq<Event>
    const pool: ThreadPool.Pool

    ghost function View(): Bus
      reads this, pool, pool.threadIDs
    {
      Bus(subscribers, publishing, log, pool.View())
    }

    ghost predicate Valid()
      reads this, pool, pool.threadIDs
    {
      pool.Valid() && forall k: nat :: BusInv(pool.Cfg(), View(), k)
    }

    constructor (min: int, max: int)
      requires 1 <= min <= max
      ensures fresh(pool) && fresh(pool.threadIDs) && pool.Cfg() == Config(min, max)
      ensures View() == InitBus(Config(min, max)) && Valid()
    {
      subscribers, publishing, log := [], None, [];
      pool := new ThreadPool.Pool(min, max);
      new;
      forall k: nat ensures BusInv(pool.Cfg(), View(), k) { InitBusInv(pool.Cfg(), k); }
    }

    /** Every subscriber gets what it was promised so far, in publish order, and all of it once nothing is queued. */
    lemma Delivered(k: nat)
      requires Valid()
      ensures Delivers(View(), k)
    {
      InvDelivers(pool.Cfg(), View(), k);
    }

    lemma StepValid(a: BusAction, k: nat)
      requires Valid() && BusEnabled(pool.Cfg(), View(), a)
      ensures BusInv(pool.Cfg(), BusApply(pool.Cfg(), View(), a), k)
    {
      StepBusInv(pool.Cfg(), View(), a, k);
    }

    method SubscribeTo(topic: string)
      requires Valid() && publishing.None?
      modifies this
      ensures View() == BusApply(pool.Cfg(), old(View()), Subscribe(topic)) && Valid()
    {
      forall k: nat { StepValid(Subscribe(topic), k); }
      subscribers := subscribers + [topic];
      log := log + [Subscribed(topic)];
    }

    /** publish, once it holds the bus mutex. */
    method StartPublishing(topic: string, message: string)
      requires Valid() && publishing.None?
      modifies this
      ensures View() == BusApply(pool.Cfg(), old(View()), Publish(topic, message)) && Valid()
    {
      forall k: nat { StepValid(Publish(topic, message), k); }
      publishing := Some(Publishing(topic, message, 0));
      log := log + [Published(topic, message)];
    }

    /** One round of the loop of publish: the next subscriber, or the end of the loop. */
    method HandOn()
      requires Valid() && publishing.Some?
      modifies this, pool, pool.threadIDs
      ensures pool.threadIDs == old(pool.threadIDs)
      ensures View() == BusApply(pool.Cfg(), old(View()), Advance) && Valid()
    {
      forall k: nat { StepValid(Advance, k); }
      var p := publishing.value;
      if p.next >= |subscribers| {
        publishing := None;
      } else {
        publishing := Some(p.(next := p.next + 1));
        if subscribers[p.next] == p.topic { pool.AddTask(Task(p.next, p.message)); }
      }
    }

    /** A critical section of the pool, also while a publication is under way. */
    method PoolActs(a: Action)
      requires Valid() && !a.Add? && Enabled(pool.Cfg(), pool.View(), a)
      modifies pool, pool.threadIDs
      ensures pool.threadIDs == old(pool.threadIDs)
      ensures View() == BusApply(pool.Cfg(), old(View()), Pool(a)) && Valid()
    {
      forall k: nat { StepValid(Pool(a), k); }
      match a
      case Acquire(i) => pool.WorkerEnters(i);
      case Reacquire(i) => pool.WorkerWakes(i);
      case SpuriousWake(i) => pool.WorkerWakesUnasked(i);
      case Finish(i) => pool.WorkerFinishes(i);
      case Look => pool.ManagerLooks();
      case Grow => pool.ManagerGrows();
      case Shrink => pool.ManagerShrinks();
      case Notify => pool.ManagerNotifies();
    }

    /** publish with no other thread in between: its rounds one after the other, so one Add per matching subscriber. */
    method PublishTo(topic: string, message: string)
      requires Valid() && publishing.None?
      modifies this, pool, pool.threadIDs
      ensures pool.threadIDs == old(pool.threadIDs) && subscribers == old(subscribers) && Valid()
      ensures BusLeads(pool.Cfg(), old(View()), Publication(topic, message, |subscribers| + 1), View())
      ensures pool.View() == AddAll(pool.Cfg(), old(pool.View()), TasksFor(subscribers, topic, message))
    {
      ghost var c, b := pool.Cfg(), View();
      assert [Publish(topic, message)][1..] == [];
      StartPublishing(topic, message);
      for n := 0 to |subscribers|
        invariant pool.threadIDs == old(pool.threadIDs) && subscribers == old(subscribers) && Valid()
        invariant publishing == Some(Publishing(topic, message, n))
        invariant BusLeads(c, b, Publication(topic, message, n), View())
        invariant pool.View() == AddAll(c, b.pool, TasksFor(subscribers[..n], topic, message))
      {
        BusRunMore(c, b, Publication(topic, message, n), Advance);
        TasksForNext(c, b.pool, subscribers, n, topic, message);
        HandOn();
      }
      assert subscribers[..|subscribers|] == subscribers;
      BusRunMore(c, b, Publication(topic, message, |subscribers|), Advance);
      HandOn();
    }
  }

  lemma TasksForNext(c: Config, s: State, subscribers: seq<string>, n: nat, topic: string, message: string)
    requires n < |subscribers|
    ensures var before := AddAll(c, s, TasksFor(subscribers[..n], topic, message));
            AddAll(c, s, TasksFor(subscribers[..n + 1], topic, message))
            == if subscribers[n] == topic then Apply(c, before, Add(Task(n, message))) else before
  {
    var tasks := TasksFor(subscribers[..n], topic, message);
    assert subscribers[..n + 1][..n] == subscribers[..n];
    assert (tasks + [Task(n, message)])[..|tasks|] == tasks && tasks + [] == tasks;
  }

  function AddAll(c: Config, s: State, tasks: seq<Task>): State {
    if tasks == [] then s
    else Apply(c, AddAll(c, s, tasks[..|tasks| - 1]), Add(tasks[|tasks| - 1]))
  }

  /** A publication queues its tasks behind what was there and leaves no worker asleep. */
  lemma {:induction false} AddAllQueues(c: Config, s: State, tasks: seq<Task>)
    ensures var s' := AddAll(c, s, tasks);
            && s'.taskQ == s.taskQ + tasks && s'.added == s.added + tasks && s'.started == s.started
            && (tasks != [] ==> !SomeoneSleeps(s'.slots))
  {
    if tasks == [] {
    } else {
      var init := tasks[..|tasks| - 1];
      AddAllQueues(c, s, init);
      WakeAllKeeps(AddAll(c, s, init).slots);
      assert s.taskQ + init + [tasks[|tasks| - 1]] == s.taskQ + tasks;
      assert s.added + init + [tasks[|tasks| - 1]] == s.added + tasks;
    }
  }
}
