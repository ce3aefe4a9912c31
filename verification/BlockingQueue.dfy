/**
  A bounded, closable producer/consumer queue guarded by one mutex and two condition
  variables, as a step system over any number of threads.

  A thread inside `push`, `pop` or `close` is, at any moment, in one of four places: trying to
  take the mutex, holding it, asleep on a condition variable, or woken but not yet running.
  A critical section is one step, because every field is touched only while the mutex is held.
  Wake-ups without a notification may happen to any sleeper at any time.

  The properties proved over every run are at the end: the log of completed operations is a
  history of a sequential queue (`RunsAreLinearizable`), no wake-up is lost
  (`AsleepOnlyIfBlocked`), and once callers stop only blocked threads remain (`OnlyBlockedRemain`).
 */
module BlockingQueue {
  import opened Blocks

  type Tid = nat

  /** A call in progress. `Close(true)` waits for the queue to drain. */
  datatype Op<+T> = Push(v: T) | Pop | Close(drain: bool)

  /** Where a thread is inside its call. `resumed` says that it has slept at least once. */
  datatype Thread<+T> =
    | Entering(op: Op<T>)
    | Holding(op: Op<T>, resumed: bool)
    | Waiting(op: Op<T>)
    | Notified(op: Op<T>)

  datatype Condition = HaveData | HaveSpace

  /** What the callers can observe, in the order in which it took effect. */
  datatype Event<+T> =
    | PushDone(v: T, ok: bool)
    | PopDone(v: T)
    | PopFailed
    | CloseStarted
    | CloseReturned(drain: bool)

  /** A thread absent from `threads` is not inside any call. */
  datatype State<T> = State(
    maxSize: nat,
    queue: seq<T>,
    closed: bool,
    owner: Option<Tid>,
    threads: map<Tid, Thread<T>>,
    log: seq<Event<T>>)

  /** `Run(t, wake)` runs the critical section of `t`; `wake` is whom `notify_one` picks. */
  datatype Step<+T> =
    | Call(t: Tid, op: Op<T>)
    | Acquire(t: Tid)
    | Run(t: Tid, wake: Option<Tid>)
    | Spurious(t: Tid)

  // ----- condition variables ------------------------------------------------

  function ConditionOf<T>(op: Op<T>): Condition {
    if op.Pop? then HaveData else HaveSpace
  }

  predicate AsleepOn<T>(th: Thread<T>, c: Condition) {
    th.Waiting? && ConditionOf(th.op) == c
  }

  function Wake<T>(th: Thread<T>): Thread<T> {
    Notified(th.op)
  }

  function NotifyAll<T>(threads: map<Tid, Thread<T>>, c: Condition): map<Tid, Thread<T>> {
    map t | t in threads :: if AsleepOn(threads[t], c) then Wake(threads[t]) else threads[t]
  }

  /** `notify_one` wakes some sleeper, and nobody only when there is no sleeper. */
  predicate MayWake<T>(threads: map<Tid, Thread<T>>, c: Condition, wake: Option<Tid>) {
    match wake
    case None => forall t :: t in threads ==> !AsleepOn(threads[t], c)
    case Some(w) => w in threads && AsleepOn(threads[w], c)
  }

  function NotifyOne<T>(threads: map<Tid, Thread<T>>, wake: Option<Tid>): map<Tid, Thread<T>>
    requires wake.Some? ==> wake.value in threads
  {
    if wake.Some? then threads[wake.value := Wake(threads[wake.value])] else threads
  }

  // ----- critical sections --------------------------------------------------

  /** The condition, if any, that the critical section of `op` signals with `notify_one`. */
  function Signals<T>(s: State<T>, op: Op<T>): Option<Condition> {
    match op
    case Push(_) => if !s.closed && |s.queue| < s.maxSize then Some(HaveData) else None
    case Pop => if s.queue != [] && !(s.closed && |s.queue| == 1) then Some(HaveSpace) else None
    case Close(_) => None
  }

  predicate CanRun<T>(s: State<T>, t: Tid, wake: Option<Tid>) {
    && s.owner == Some(t)
    && t in s.threads
    && s.threads[t].Holding?
    && var c := Signals(s, s.threads[t].op);
       if c.Some? then MayWake(s.threads, c.value, wake) else wake.None?
  }

  /** Going to sleep releases the mutex. */
  function Sleep<T>(s: State<T>, t: Tid, op: Op<T>): State<T> {
    s.(owner := None, threads := s.threads[t := Waiting(op)])
  }

  /** Returning releases the mutex and leaves an entry in the log. */
  function Return<T>(s: State<T>, t: Tid, e: Event<T>): State<T> {
    s.(owner := None, threads := s.threads - {t}, log := s.log + [e])
  }

  function RunPush<T>(s: State<T>, t: Tid, wake: Option<Tid>): State<T>
    requires CanRun(s, t, wake) && s.threads[t].op.Push?
  {
    var op := s.threads[t].op;
    if !s.closed && |s.queue| >= s.maxSize then
      Sleep(s, t, op)
    else if s.closed then
      Return(s, t, PushDone(op.v, false))
    else
      Return(s.(queue := s.queue + [op.v], threads := NotifyOne(s.threads, wake)), t, PushDone(op.v, true))
  }

  function RunPop<T>(s: State<T>, t: Tid, wake: Option<Tid>): State<T>
    requires CanRun(s, t, wake) && s.threads[t].op.Pop?
  {
    if s.queue == [] then
      if s.closed then Return(s, t, PopFailed) else Sleep(s, t, Pop)
    else
      var threads := if s.closed && |s.queue| == 1
                     then NotifyAll(s.threads, HaveSpace)
                     else NotifyOne(s.threads, wake);
      Return(s.(queue := s.queue[1..], threads := threads), t, PopDone(s.queue[0]))
  }

  /** The part of `close` that runs once, before its waiting loop. */
  function BeginClose<T>(s: State<T>): State<T> {
    s.(closed := true,
       threads := NotifyAll(NotifyAll(s.threads, HaveData), HaveSpace),
       log := s.log + [CloseStarted])
  }

  function RunClose<T>(s: State<T>, t: Tid, wake: Option<Tid>): State<T>
    requires CanRun(s, t, wake) && s.threads[t].op.Close?
  {
    var op := s.threads[t].op;
    var begun := if s.threads[t].resumed then s else BeginClose(s);
    if op.drain && s.queue != [] then Sleep(begun, t, op) else Return(begun, t, CloseReturned(op.drain))
  }

  // ----- steps and runs -----------------------------------------------------

  predicate Enabled<T>(s: State<T>, step: Step<T>) {
    match step
    case Call(t, _) => t !in s.threads
    case Acquire(t) => s.owner.None? && t in s.threads && (s.threads[t].Entering? || s.threads[t].Notified?)
    case Run(t, wake) => CanRun(s, t, wake)
    case Spurious(t) => t in s.threads && s.threads[t].Waiting?
  }

  function Do<T>(s: State<T>, step: Step<T>): State<T>
    requires Enabled(s, step)
  {
    match step
    case Call(t, op) => s.(threads := s.threads[t := Entering(op)])
    case Acquire(t) =>
      s.(owner := Some(t), threads := s.threads[t := Holding(s.threads[t].op, s.threads[t].Notified?)])
    case Run(t, wake) => (
      match s.threads[t].op
      case Push(_) => RunPush(s, t, wake)
      case Pop => RunPop(s, t, wake)
      case Close(_) => RunClose(s, t, wake))
    case Spurious(t) => s.(threads := s.threads[t := Wake(s.threads[t])])
  }

  function Initial<T>(maxSize: nat): State<T> {
    State(maxSize, [], false, None, map[], [])
  }

  ghost predicate IsRun<T>(s: State<T>, steps: seq<Step<T>>, s': State<T>)
    decreases |steps|
  {
    if steps == [] then s == s'
    else Enabled(s, steps[0]) && IsRun(Do(s, steps[0]), steps[1..], s')
  }

  // ----- the sequential queue -----------------------------------------------

  /** A queue without threads: what each completed operation must look like. */
  datatype Abstract<T> = Abstract(items: seq<T>, closed: bool)

  ghost predicate Permits<T>(maxSize: nat, a: Abstract<T>, e: Event<T>) {
    match e
    case PushDone(_, ok) => if ok then !a.closed && |a.items| < maxSize else a.closed
    case PopDone(v) => a.items != [] && a.items[0] == v
    case PopFailed => a.closed && a.items == []
    case CloseStarted => true
    case CloseReturned(drain) => a.closed && (drain ==> a.items == [])
  }

  function Effect<T>(a: Abstract<T>, e: Event<T>): Abstract<T> {
    match e
    case PushDone(v, ok) => if ok then a.(items := a.items + [v]) else a
    case PopDone(_) => if a.items == [] then a else a.(items := a.items[1..])
    case PopFailed => a
    case CloseStarted => a.(closed := true)
    case CloseReturned(_) => a
  }

  function Replay<T>(log: seq<Event<T>>): Abstract<T> {
    if log == [] then Abstract([], false)
    else Effect(Replay(log[..|log|-1]), log[|log|-1])
  }

  /** The log is a history of the sequential queue. */
  ghost predicate Legal<T>(maxSize: nat, log: seq<Event<T>>) {
    log == [] ||
    (var before := log[..|log|-1]; Legal(maxSize, before) && Permits(maxSize, Replay(before), log[|log|-1]))
  }

  /** The operation could not complete even if its thread ran by itself. */
  ghost predicate Blocked<T>(maxSize: nat, a: Abstract<T>, op: Op<T>) {
    match op
    case Push(_) => !a.closed && |a.items| >= maxSize
    case Pop => !a.closed && a.items == []
    case Close(drain) => drain && a.closed && a.items != []
  }

  // ----- the inductive invariant --------------------------------------------

  ghost function Sleepers<T>(threads: map<Tid, Thread<T>>, c: Condition): set<Tid> {
    set t | t in threads && AsleepOn(threads[t], c)
  }

  /** Threads that have slept, were woken, and have not looked at the queue since. */
  predicate IsWoken<T>(th: Thread<T>) {
    th.Notified? || (th.Holding? && th.resumed)
  }

  ghost function Woken<T>(threads: map<Tid, Thread<T>>, c: Condition): set<Tid> {
    set t | t in threads && IsWoken(threads[t]) && ConditionOf(threads[t].op) == c
  }

  ghost predicate OwnerHolds<T>(owner: Option<Tid>, threads: map<Tid, Thread<T>>) {
    forall t :: (t in threads && threads[t].Holding?) <==> owner == Some(t)
  }

  /** Only a draining `close` sleeps inside `close`, and only after closing the queue. */
  ghost predicate ClosersClosed<T>(closed: bool, threads: map<Tid, Thread<T>>) {
    forall t :: t in threads && threads[t].op.Close? && (threads[t].Waiting? || IsWoken(threads[t]))
      ==> threads[t].op.drain && closed
  }

  /** If anyone sleeps, then the threads already woken can use up everything available. */
  ghost predicate Covered(sleepers: set<Tid>, woken: set<Tid>, available: int) {
    sleepers != {} ==> available <= |woken|
  }

  /** No lost wake-ups. */
  ghost predicate WakeUpsSuffice<T>(maxSize: nat, size: nat, closed: bool, threads: map<Tid, Thread<T>>) {
    if !closed then
      && Covered(Sleepers(threads, HaveSpace), Woken(threads, HaveSpace), maxSize - size)
      && Covered(Sleepers(threads, HaveData), Woken(threads, HaveData), size)
    else
      && Sleepers(threads, HaveData) == {}
      && (forall t :: t in Sleepers(threads, HaveSpace) ==> threads[t].op.Close?)
      && (Sleepers(threads, HaveSpace) != {} ==> size > 0)
  }

  ghost predicate LogExplains<T>(maxSize: nat, log: seq<Event<T>>, queue: seq<T>, closed: bool) {
    Legal(maxSize, log) && Replay(log) == Abstract(queue, closed)
  }

  ghost predicate Inv<T>(s: State<T>) {
    && OwnerHolds(s.owner, s.threads)
    && |s.queue| <= s.maxSize
    && ClosersClosed(s.closed, s.threads)
    && WakeUpsSuffice(s.maxSize, |s.queue|, s.closed, s.threads)
    && LogExplains(s.maxSize, s.log, s.queue, s.closed)
  }

  // ----- every step keeps the invariant -------------------------------------

  lemma LogExtends<T>(maxSize: nat, log: seq<Event<T>>, a: Abstract<T>, e: Event<T>)
    requires LogExplains(maxSize, log, a.items, a.closed) && Permits(maxSize, a, e)
    ensures LogExplains(maxSize, log + [e], Effect(a, e).items, Effect(a, e).closed)
  {
    assert (log + [e])[..|log|] == log;
  }

  lemma StillCovered(sleepers: set<Tid>, woken: set<Tid>, available: int,
                     sleepers': set<Tid>, woken': set<Tid>, available': int)
    requires Covered(sleepers, woken, available)
    requires sleepers' <= sleepers && woken <= woken' && available' <= available
    ensures Covered(sleepers', woken', available')
  {
    assert woken' == woken + (woken' - woken);
  }

  /** A thread that enters, takes the mutex or is woken leaves no sleeper worse off. */
  lemma PutKeepsWakeUps<T>(maxSize: nat, size: nat, closed: bool, threads: map<Tid, Thread<T>>, t: Tid, th: Thread<T>)
    requires WakeUpsSuffice(maxSize, size, closed, threads)
    requires !th.Waiting?
    requires t in threads && IsWoken(threads[t]) ==> IsWoken(th) && th.op == threads[t].op
    ensures WakeUpsSuffice(maxSize, size, closed, threads[t := th])
  {
    var threads' := threads[t := th];
    if !closed {
      StillCovered(Sleepers(threads, HaveSpace), Woken(threads, HaveSpace), maxSize - size,
                   Sleepers(threads', HaveSpace), Woken(threads', HaveSpace), maxSize - size);
      StillCovered(Sleepers(threads, HaveData), Woken(threads, HaveData), size,
                   Sleepers(threads', HaveData), Woken(threads', HaveData), size);
    } else {
      assert Sleepers(threads', HaveData) <= Sleepers(threads, HaveData);
      assert Sleepers(threads', HaveSpace) <= Sleepers(threads, HaveSpace);
    }
  }

  /** Whoever goes to sleep is blocked, so the threads already woken can take what there is. */
  lemma SleepKeepsWakeUps<T>(maxSize: nat, size: nat, closed: bool, threads: map<Tid, Thread<T>>, t: Tid, op: Op<T>)
    requires WakeUpsSuffice(maxSize, size, closed, threads)
    requires t in threads && threads[t].Holding? && threads[t].op == op
    requires match op
             case Push(_) => !closed && size >= maxSize
             case Pop => !closed && size == 0
             case Close(_) => closed && size > 0
    ensures WakeUpsSuffice(maxSize, size, closed, threads[t := Waiting(op)])
  {
    var threads' := threads[t := Waiting(op)];
    if op.Push? {
      StillCovered(Sleepers(threads, HaveData), Woken(threads, HaveData), size,
                   Sleepers(threads', HaveData), Woken(threads', HaveData), size);
    } else if op.Pop? {
      StillCovered(Sleepers(threads, HaveSpace), Woken(threads, HaveSpace), maxSize - size,
                   Sleepers(threads', HaveSpace), Woken(threads', HaveSpace), maxSize - size);
    } else {
      assert Sleepers(threads', HaveData) <= Sleepers(threads, HaveData);
      assert Sleepers(threads', HaveSpace) <= Sleepers(threads, HaveSpace) + {t};
    }
  }

  lemma CallKeepsInv<T>(s: State<T>, t: Tid, op: Op<T>)
    requires Inv(s) && Enabled(s, Call(t, op))
    ensures Inv(Do(s, Call(t, op)))
  {
    PutKeepsWakeUps(s.maxSize, |s.queue|, s.closed, s.threads, t, Entering(op));
  }

  lemma AcquireKeepsInv<T>(s: State<T>, t: Tid)
    requires Inv(s) && Enabled(s, Acquire(t))
    ensures Inv(Do(s, Acquire(t)))
  {
    PutKeepsWakeUps(s.maxSize, |s.queue|, s.closed, s.threads, t, Holding(s.threads[t].op, s.threads[t].Notified?));
  }

  lemma SpuriousKeepsInv<T>(s: State<T>, t: Tid)
    requires Inv(s) && Enabled(s, Spurious(t))
    ensures Inv(Do(s, Spurious(t)))
  {
    PutKeepsWakeUps(s.maxSize, |s.queue|, s.closed, s.threads, t, Wake(s.threads[t]));
  }

  lemma SleepKeepsInv<T>(s: State<T>, t: Tid)
    requires Inv(s) && s.owner == Some(t) && t in s.threads
    requires Blocked(s.maxSize, Abstract(s.queue, s.closed), s.threads[t].op)
    ensures Inv(Sleep(s, t, s.threads[t].op))
  {
    SleepKeepsWakeUps(s.maxSize, |s.queue|, s.closed, s.threads, t, s.threads[t].op);
  }

  lemma OneUsed(sleepers: set<Tid>, woken: set<Tid>, available: int, sleepers': set<Tid>, woken': set<Tid>, t: Tid)
    requires Covered(sleepers, woken, available)
    requires sleepers' <= sleepers && woken - {t} <= woken'
    ensures Covered(sleepers', woken', available - 1)
  {
    assert |woken - {t}| >= |woken| - 1;
    StillCovered(sleepers, woken - {t}, available - 1, sleepers', woken', available - 1);
  }

  lemma OneMore(sleepers: set<Tid>, woken: set<Tid>, available: int, sleepers': set<Tid>, woken': set<Tid>, w: Tid)
    requires Covered(sleepers, woken, available)
    requires w in sleepers && w !in woken
    requires sleepers' <= sleepers && woken + {w} <= woken'
    ensures Covered(sleepers', woken', available + 1)
  {
    assert |woken + {w}| == |woken| + 1;
    StillCovered(sleepers, woken + {w}, available + 1, sleepers', woken', available + 1);
  }

  /** The runner consumes one unit of what its own condition stands for. */
  lemma RunnerKeepsCover<T>(threads: map<Tid, Thread<T>>, t: Tid, wake: Option<Tid>, mine: Condition, available: int)
    requires wake.Some? ==>
      wake.value in threads && threads[wake.value].Waiting? && ConditionOf(threads[wake.value].op) != mine
    requires Covered(Sleepers(threads, mine), Woken(threads, mine), available)
    ensures var threads' := NotifyOne(threads, wake) - {t};
            Covered(Sleepers(threads', mine), Woken(threads', mine), available - 1)
  {
    var threads' := NotifyOne(threads, wake) - {t};
    assert Sleepers(threads', mine) <= Sleepers(threads, mine);
    assert Woken(threads, mine) - {t} <= Woken(threads', mine);
    OneUsed(Sleepers(threads, mine), Woken(threads, mine), available,
            Sleepers(threads', mine), Woken(threads', mine), t);
  }

  /** And it adds one unit for the other condition, which it signals. */
  lemma SignalKeepsCover<T>(threads: map<Tid, Thread<T>>, t: Tid, wake: Option<Tid>, theirs: Condition, available: int)
    requires t in threads && threads[t].Holding? && ConditionOf(threads[t].op) != theirs
    requires MayWake(threads, theirs, wake)
    requires Covered(Sleepers(threads, theirs), Woken(threads, theirs), available)
    ensures var threads' := NotifyOne(threads, wake) - {t};
            Covered(Sleepers(threads', theirs), Woken(threads', theirs), available + 1)
  {
    var threads' := NotifyOne(threads, wake) - {t};
    assert Sleepers(threads', theirs) <= Sleepers(threads, theirs);
    if wake.Some? {
      assert Woken(threads, theirs) + {wake.value} <= Woken(threads', theirs);
      OneMore(Sleepers(threads, theirs), Woken(threads, theirs), available,
              Sleepers(threads', theirs), Woken(threads', theirs), wake.value);
    } else {
      assert Sleepers(threads', theirs) == {};
    }
  }

  lemma ReturnKeepsOwner<T>(owner: Option<Tid>, threads: map<Tid, Thread<T>>, t: Tid, threads': map<Tid, Thread<T>>)
    requires OwnerHolds(owner, threads) && owner == Some(t)
    requires forall u :: u in threads' && u != t ==> u in threads && (threads'[u].Holding? ==> threads[u].Holding?)
    ensures OwnerHolds(None, threads' - {t})
  {
  }

  /** Once closed, fewer sleepers is all that has to be shown, until the queue is empty. */
  lemma FewerSleepers<T>(maxSize: nat, size: nat, size': nat,
                         threads: map<Tid, Thread<T>>, threads': map<Tid, Thread<T>>)
    requires WakeUpsSuffice(maxSize, size, true, threads)
    requires forall u :: u in threads' && threads'[u].Waiting? ==> u in threads && threads[u] == threads'[u]
    requires size' > 0 || size' == size || (forall u :: u in threads' ==> !AsleepOn(threads'[u], HaveSpace))
    ensures WakeUpsSuffice(maxSize, size', true, threads')
  {
    assert Sleepers(threads', HaveData) <= Sleepers(threads, HaveData);
    assert Sleepers(threads', HaveSpace) <= Sleepers(threads, HaveSpace);
  }

  lemma PushKeepsInv<T>(s: State<T>, t: Tid, wake: Option<Tid>)
    requires Inv(s) && CanRun(s, t, wake) && s.threads[t].op.Push?
    ensures Inv(RunPush(s, t, wake))
  {
    var op := s.threads[t].op;
    var a := Abstract(s.queue, s.closed);
    if Blocked(s.maxSize, a, op) {
      SleepKeepsInv(s, t);
    } else if s.closed {
      LogExtends(s.maxSize, s.log, a, PushDone(op.v, false));
      ReturnKeepsOwner(s.owner, s.threads, t, s.threads);
      FewerSleepers(s.maxSize, |s.queue|, |s.queue|, s.threads, s.threads - {t});
    } else {
      LogExtends(s.maxSize, s.log, a, PushDone(op.v, true));
      ReturnKeepsOwner(s.owner, s.threads, t, NotifyOne(s.threads, wake));
      RunnerKeepsCover(s.threads, t, wake, HaveSpace, s.maxSize - |s.queue|);
      SignalKeepsCover(s.threads, t, wake, HaveData, |s.queue|);
    }
  }

  lemma PopKeepsInv<T>(s: State<T>, t: Tid, wake: Option<Tid>)
    requires Inv(s) && CanRun(s, t, wake) && s.threads[t].op.Pop?
    ensures Inv(RunPop(s, t, wake))
  {
    var a := Abstract(s.queue, s.closed);
    if Blocked(s.maxSize, a, Pop) {
      SleepKeepsInv(s, t);
    } else if s.queue == [] {
      LogExtends(s.maxSize, s.log, a, PopFailed);
      ReturnKeepsOwner(s.owner, s.threads, t, s.threads);
      FewerSleepers(s.maxSize, 0, 0, s.threads, s.threads - {t});
    } else {
      TakeKeepsInv(s, t, wake);
    }
  }

  lemma TakeKeepsInv<T>(s: State<T>, t: Tid, wake: Option<Tid>)
    requires Inv(s) && CanRun(s, t, wake) && s.threads[t].op.Pop? && s.queue != []
    ensures Inv(RunPop(s, t, wake))
  {
    var s' := RunPop(s, t, wake);
    LogExtends(s.maxSize, s.log, Abstract(s.queue, s.closed), PopDone(s.queue[0]));
    if s.closed {
      FewerSleepers(s.maxSize, |s.queue|, |s.queue| - 1, s.threads, s'.threads);
    } else {
      RunnerKeepsCover(s.threads, t, wake, HaveData, |s.queue|);
      SignalKeepsCover(s.threads, t, wake, HaveSpace, s.maxSize - |s.queue|);
    }
    var woken := if s.closed && |s.queue| == 1 then NotifyAll(s.threads, HaveSpace) else NotifyOne(s.threads, wake);
    ReturnKeepsOwner(s.owner, s.threads, t, woken);
  }

  /** Closing wakes everybody, whatever the queue holds. */
  lemma BeginCloseKeepsInv<T>(s: State<T>)
    requires Inv(s)
    ensures Inv(BeginClose(s))
  {
    LogExtends(s.maxSize, s.log, Abstract(s.queue, s.closed), CloseStarted);
    assert Sleepers(BeginClose(s).threads, HaveData) == {};
    assert Sleepers(BeginClose(s).threads, HaveSpace) == {};
  }

  lemma CloseKeepsInv<T>(s: State<T>, t: Tid, wake: Option<Tid>)
    requires Inv(s) && CanRun(s, t, wake) && s.threads[t].op.Close?
    ensures Inv(RunClose(s, t, wake))
  {
    var op := s.threads[t].op;
    var begun := if s.threads[t].resumed then s else BeginClose(s);
    if !s.threads[t].resumed { BeginCloseKeepsInv(s); }
    assert begun.closed && t in begun.threads && begun.threads[t] == s.threads[t];
    if op.drain && s.queue != [] {
      SleepKeepsInv(begun, t);
    } else {
      LogExtends(s.maxSize, begun.log, Abstract(s.queue, true), CloseReturned(op.drain));
      ReturnKeepsOwner(begun.owner, begun.threads, t, begun.threads);
      FewerSleepers(s.maxSize, |s.queue|, |s.queue|, begun.threads, begun.threads - {t});
    }
  }

  lemma StepKeepsInv<T>(s: State<T>, step: Step<T>)
    requires Inv(s) && Enabled(s, step)
    ensures Inv(Do(s, step))
  {
    match step
    case Call(t, op) => CallKeepsInv(s, t, op);
    case Acquire(t) => AcquireKeepsInv(s, t);
    case Spurious(t) => SpuriousKeepsInv(s, t);
    case Run(t, wake) =>
      match s.threads[t].op
      case Push(_) => PushKeepsInv(s, t, wake);
      case Pop => PopKeepsInv(s, t, wake);
      case Close(_) => CloseKeepsInv(s, t, wake);
  }

  lemma {:induction false} RunKeepsInv<T>(s: State<T>, steps: seq<Step<T>>, s': State<T>)
    requires Inv(s) && IsRun(s, steps, s')
    ensures Inv(s')
    decreases |steps|
  {
    if steps != [] {
      StepKeepsInv(s, steps[0]);
      RunKeepsInv(Do(s, steps[0]), steps[1..], s');
    }
  }

  // ----- safety over whole runs ---------------------------------------------

  /** The values taken in, in order. */
  function Accepted<T>(log: seq<Event<T>>): seq<T> {
    if log == [] then []
    else
      var e := log[|log|-1];
      Accepted(log[..|log|-1]) + (if e.PushDone? && e.ok then [e.v] else [])
  }

  /** The values handed out, in order. */
  function Delivered<T>(log: seq<Event<T>>): seq<T> {
    if log == [] then []
    else
      var e := log[|log|-1];
      Delivered(log[..|log|-1]) + (if e.PopDone? then [e.v] else [])
  }

  /** In a legal history nothing is lost, duplicated or reordered. */
  lemma {:induction false} LegalConserves<T>(maxSize: nat, log: seq<Event<T>>)
    requires Legal(maxSize, log)
    ensures Accepted(log) == Delivered(log) + Replay(log).items
    ensures |Replay(log).items| <= maxSize
    ensures Replay(log).closed <==> CloseStarted in log
  {
    if log != [] {
      var before, e := log[..|log|-1], log[|log|-1];
      LegalConserves(maxSize, before);
      assert log == before + [e];
      var items := Replay(before).items;
      if e.PopDone? {
        assert Delivered(before) + items == Delivered(before) + [e.v] + items[1..];
      }
    }
  }

  lemma {:induction false} LegalPrefix<T>(maxSize: nat, log: seq<Event<T>>, i: nat)
    requires Legal(maxSize, log) && i <= |log|
    ensures Legal(maxSize, log[..i])
    ensures i < |log| ==> Permits(maxSize, Replay(log[..i]), log[i])
    decreases |log|
  {
    if i < |log| {
      var before := log[..|log|-1];
      LegalPrefix(maxSize, before, i);
      assert before[..i] == log[..i];
    } else {
      assert log[..i] == log;
    }
  }

  /**
    What callers may rely on, over the log of any run: values come out in the order they went in,
    never more than `maxSize` are held, `push` fails exactly after `close`, `pop` fails only on a
    closed and emptied queue, and a draining `close` returns only once everything was taken out.
   */
  lemma RunsAreLinearizable<T>(maxSize: nat, steps: seq<Step<T>>, s: State<T>, i: nat)
    requires IsRun(Initial(maxSize), steps, s) && i <= |s.log|
    ensures Legal(maxSize, s.log)
    ensures Replay(s.log) == Abstract(s.queue, s.closed)
    ensures Accepted(s.log) == Delivered(s.log) + s.queue
    ensures var before := s.log[..i];
            && Delivered(before) <= Accepted(before)
            && |Accepted(before)| - |Delivered(before)| <= maxSize
            && (i < |s.log| && s.log[i].PushDone? ==> (s.log[i].ok <==> CloseStarted !in before))
            && (i < |s.log| && s.log[i].PopFailed? ==> CloseStarted in before && Accepted(before) == Delivered(before))
            && (i < |s.log| && s.log[i] == CloseReturned(true) ==> Accepted(before) == Delivered(before))
  {
    RunKeepsInv(Initial(maxSize), steps, s);
    MaxSizeIsFixed(Initial(maxSize), steps, s);
    LegalConserves(maxSize, s.log);
    LegalPrefix(maxSize, s.log, i);
    LegalConserves(maxSize, s.log[..i]);
  }

  lemma {:induction false} MaxSizeIsFixed<T>(s: State<T>, steps: seq<Step<T>>, s': State<T>)
    requires IsRun(s, steps, s')
    ensures s'.maxSize == s.maxSize
    decreases |steps|
  {
    if steps != [] { MaxSizeIsFixed(Do(s, steps[0]), steps[1..], s'); }
  }

  ghost predicate BelongsTo<T>(e: Event<T>, op: Op<T>) {
    match e
    case PushDone(v, _) => op == Push(v)
    case PopDone(_) => op.Pop?
    case PopFailed => op.Pop?
    case CloseStarted => op.Close?
    case CloseReturned(drain) => op == Close(drain)
  }

  /**
    The log is written only by threads inside their calls, each about its own operation, and a thread
    leaves its call with the very step that logs its return.
   */
  lemma StepLogs<T>(s: State<T>, step: Step<T>)
    requires Enabled(s, step)
    ensures var s' := Do(s, step);
            && s.log <= s'.log
            && (s.log != s'.log ==> step.Run?)
            && (step.Run? ==>
                 && (forall i :: |s.log| <= i < |s'.log| ==> BelongsTo(s'.log[i], s.threads[step.t].op))
                 && (step.t !in s'.threads <==> s.log != s'.log && s'.log[|s'.log|-1] != CloseStarted))
  {
    var s' := Do(s, step);
    if step.Run? && s.threads[step.t].op.Push? && step.wake.Some? {
      assert step.t !in s'.threads;
    }
  }

  /** So what was logged when a call returned stands before everything logged for later calls. */
  lemma {:induction false} LogOnlyGrows<T>(s: State<T>, steps: seq<Step<T>>, s': State<T>)
    requires IsRun(s, steps, s')
    ensures s.log <= s'.log
    decreases |steps|
  {
    if steps != [] {
      StepLogs(s, steps[0]);
      LogOnlyGrows(Do(s, steps[0]), steps[1..], s');
    }
  }

  // ----- every call is carried out as it was made -----------------------------

  ghost predicate NoCallOf<T>(t: Tid, steps: seq<Step<T>>) {
    forall i :: 0 <= i < |steps| && steps[i].Call? ==> steps[i].t != t
  }

  lemma StepKeepsOperation<T>(s: State<T>, step: Step<T>, t: Tid)
    requires Enabled(s, step) && !(step.Call? && step.t == t)
    ensures t in Do(s, step).threads ==> t in s.threads && Do(s, step).threads[t].op == s.threads[t].op
  {
    if step.Run? { SectionOnlyWakes(s, step.t, step.wake); }
  }

  lemma {:induction false} OperationIsKept<T>(s: State<T>, t: Tid, steps: seq<Step<T>>, s': State<T>)
    requires IsRun(s, steps, s') && NoCallOf(t, steps) && t in s'.threads
    ensures t in s.threads && s'.threads[t].op == s.threads[t].op
    decreases |steps|
  {
    if steps != [] {
      OperationIsKept(Do(s, steps[0]), t, steps[1..], s');
      StepKeepsOperation(s, steps[0], t);
    }
  }

  /** A thread stays inside its call, with the operation it called, until it returns. */
  lemma {:induction false} CalledAs<T>(s: State<T>, t: Tid, op: Op<T>, steps: seq<Step<T>>, s': State<T>)
    requires Enabled(s, Call(t, op)) && IsRun(Do(s, Call(t, op)), steps, s') && NoCallOf(t, steps)
    ensures t in s'.threads ==> s'.threads[t].op == op
  {
    if t in s'.threads { OperationIsKept(Do(s, Call(t, op)), t, steps, s'); }
  }

  /** The fields tell whether a section goes to sleep. */
  predicate MustSleep<T>(s: State<T>, op: Op<T>) {
    || (op.Push? && !s.closed && |s.queue| >= s.maxSize)
    || (op.Pop? && !s.closed && s.queue == [])
    || (op == Close(true) && s.queue != [])
  }

  /** The entry a section leaves on returning, from its operation and the fields before it. */
  function Outcome<T>(s: State<T>, op: Op<T>): Event<T> {
    if op.Push? then PushDone(op.v, !s.closed)
    else if op.Close? then CloseReturned(op.drain)
    else if s.queue != [] then PopDone(s.queue[0])
    else PopFailed
  }

  /**
    Whatever happens after a call of `op`, when its thread runs, it is `op` that is carried out: it sleeps
    exactly when `op` has to wait, and otherwise returns and logs the outcome of `op` on the queue as it is.
   */
  lemma {:induction false} CallIsCarriedOut<T>(s: State<T>, t: Tid, op: Op<T>, steps: seq<Step<T>>, u: State<T>,
                                               wake: Option<Tid>)
    requires Enabled(s, Call(t, op)) && IsRun(Do(s, Call(t, op)), steps, u) && NoCallOf(t, steps)
    requires Enabled(u, Run(t, wake))
    ensures var u' := Do(u, Run(t, wake));
      && (forall i :: |u.log| <= i < |u'.log| ==> BelongsTo(u'.log[i], op))
      && (t in u'.threads <==> MustSleep(u, op))
      && (t in u'.threads ==> u'.threads[t] == Waiting(op) && u'.queue == u.queue)
      && (t !in u'.threads ==> u.log < u'.log && u'.log[|u'.log|-1] == Outcome(u, op))
  {
    CalledAs(s, t, op, steps, u);
    StepLogs(u, Run(t, wake));
    SectionEnds(u, t, wake);
  }

  lemma SectionEnds<T>(s: State<T>, t: Tid, wake: Option<Tid>)
    requires Enabled(s, Run(t, wake))
    ensures var s' := Do(s, Run(t, wake)); var op := s.threads[t].op;
      && (t in s'.threads <==> MustSleep(s, op))
      && (t in s'.threads ==> s'.threads[t] == Waiting(op) && s'.queue == s.queue)
      && (t !in s'.threads ==> s.log < s'.log && s'.log[|s'.log|-1] == Outcome(s, op))
  {
  }

  // ----- no lost wake-ups, and progress -------------------------------------

  /** No thread can take the mutex or run; only new calls or unprovoked wake-ups could change anything. */
  ghost predicate Settled<T>(s: State<T>) {
    && (forall t :: !Enabled(s, Acquire(t)))
    && (forall t, wake :: !Enabled(s, Run(t, wake)))
  }

  /**
    No wake-up is lost. In every reachable state a thread asleep in an operation that could complete
    is accompanied by another one, woken for the same condition, that has yet to run; and the mutex
    never has two holders.
   */
  lemma NoLostWakeUps<T>(maxSize: nat, steps: seq<Step<T>>, s: State<T>, t: Tid)
    requires IsRun(Initial(maxSize), steps, s)
    requires t in s.threads && s.threads[t].Waiting?
    requires !Blocked(maxSize, Abstract(s.queue, s.closed), s.threads[t].op)
    ensures exists u :: u in s.threads && u != t && IsWoken(s.threads[u])
                        && ConditionOf(s.threads[u].op) == ConditionOf(s.threads[t].op)
    ensures forall u, w :: u in s.threads && w in s.threads && s.threads[u].Holding? && s.threads[w].Holding? ==> u == w
  {
    RunKeepsInv(Initial(maxSize), steps, s);
    MaxSizeIsFixed(Initial(maxSize), steps, s);
    var c := ConditionOf(s.threads[t].op);
    assert t in Sleepers(s.threads, c);
    assert !s.closed;
    assert Woken(s.threads, c) != {};
    var u :| u in Woken(s.threads, c);
    assert u != t;
  }

  lemma HolderCanRun<T>(s: State<T>, t: Tid) returns (wake: Option<Tid>)
    requires s.owner == Some(t) && t in s.threads && s.threads[t].Holding?
    ensures Enabled(s, Run(t, wake))
  {
    var c := Signals(s, s.threads[t].op);
    if c.Some? && exists w :: w in s.threads && AsleepOn(s.threads[w], c.value) {
      var w :| w in s.threads && AsleepOn(s.threads[w], c.value);
      wake := Some(w);
    } else {
      wake := None;
    }
  }

  lemma SettledIsFree<T>(s: State<T>)
    requires OwnerHolds(s.owner, s.threads) && Settled(s)
    ensures s.owner.None?
    ensures forall t :: t in s.threads ==> s.threads[t].Waiting?
  {
    if s.owner.Some? {
      var wake := HolderCanRun(s, s.owner.value);
      assert false;
    }
    forall t | t in s.threads ensures s.threads[t].Waiting? {
      assert s.threads[t].Holding? ==> s.owner == Some(t);
      assert !Enabled(s, Acquire(t));
    }
  }

  /** When everything has come to rest, the only threads left are asleep and genuinely blocked. */
  lemma AsleepOnlyIfBlocked<T>(maxSize: nat, steps: seq<Step<T>>, s: State<T>, t: Tid)
    requires IsRun(Initial(maxSize), steps, s) && Settled(s)
    requires t in s.threads
    ensures s.threads[t].Waiting?
    ensures Blocked(maxSize, Abstract(s.queue, s.closed), s.threads[t].op)
    ensures MustSleep(s, s.threads[t].op)
  {
    RunKeepsInv(Initial(maxSize), steps, s);
    MaxSizeIsFixed(Initial(maxSize), steps, s);
    SettledIsFree(s);
    if !Blocked(maxSize, Abstract(s.queue, s.closed), s.threads[t].op) {
      NoLostWakeUps(maxSize, steps, s, t);
      assert false;
    }
  }

  ghost function Ready<T>(threads: map<Tid, Thread<T>>): set<Tid> {
    set t | t in threads && (threads[t].Entering? || threads[t].Notified?)
  }

  /** Calls of `close` that have not closed the queue yet; each will wake everybody once. */
  ghost function Unbegun<T>(threads: map<Tid, Thread<T>>): set<Tid> {
    set t | t in threads && threads[t].op.Close?
            && (threads[t].Entering? || threads[t] == Holding(threads[t].op, false))
  }

  ghost function Major<T>(s: State<T>): nat {
    |s.threads.Keys| + |Unbegun(s.threads)|
  }

  ghost function Minor<T>(s: State<T>): nat {
    2 * |Ready(s.threads)| + (if s.owner.Some? then 1 else 0)
  }

  /** A bound on the steps left, given that at most `n` threads are inside calls. */
  ghost function Rank<T>(s: State<T>, n: nat): nat {
    Major(s) * (2 * n + 1) + Minor(s)
  }

  lemma NoMore(small: set<Tid>, large: set<Tid>)
    requires small <= large
    ensures |small| <= |large|
    ensures small != large ==> |small| < |large|
  {
    assert large == small + (large - small);
  }

  lemma AcquireLowersRank<T>(s: State<T>, t: Tid)
    requires Enabled(s, Acquire(t))
    ensures Major(Do(s, Acquire(t))) <= Major(s) && Minor(Do(s, Acquire(t))) < Minor(s)
    ensures Do(s, Acquire(t)).threads.Keys == s.threads.Keys
  {
    var s' := Do(s, Acquire(t));
    assert Ready(s'.threads) == Ready(s.threads) - {t};
    assert s'.threads.Keys == s.threads.Keys;
    NoMore(Unbegun(s'.threads), Unbegun(s.threads));
  }

  /** What a section may do to the threads: change its own, and wake sleepers. */
  ghost predicate OnlyWakes<T>(before: map<Tid, Thread<T>>, after: map<Tid, Thread<T>>, t: Tid) {
    && (forall u :: u != t ==> (u in before <==> u in after))
    && forall u :: u in after && u != t ==>
         after[u] == before[u] || (before[u].Waiting? && after[u] == Wake(before[u]))
  }

  lemma SectionOnlyWakes<T>(s: State<T>, t: Tid, wake: Option<Tid>)
    requires CanRun(s, t, wake)
    ensures OnlyWakes(s.threads, Do(s, Run(t, wake)).threads, t)
    ensures Do(s, Run(t, wake)).owner.None?
  {
  }

  /** A section that puts its thread to sleep wakes nobody, unless it is the first part of `close`. */
  lemma SleepLowersRank<T>(s: State<T>, t: Tid, wake: Option<Tid>)
    requires CanRun(s, t, wake) && t in Do(s, Run(t, wake)).threads
    ensures var s' := Do(s, Run(t, wake));
            && s'.threads.Keys == s.threads.Keys
            && Major(s') <= Major(s)
            && (Major(s') < Major(s) || Minor(s') < Minor(s))
  {
    var s' := Do(s, Run(t, wake));
    assert s'.threads.Keys == s.threads.Keys;
    NoMore(Unbegun(s'.threads), Unbegun(s.threads));
    if s.threads[t].op.Close? && !s.threads[t].resumed {
      assert t in Unbegun(s.threads) && t !in Unbegun(s'.threads);
    } else {
      assert Ready(s'.threads) == Ready(s.threads);
    }
  }

  lemma ReturnLowersRank<T>(s: State<T>, s': State<T>, t: Tid)
    requires t in s.threads && t !in s'.threads && OnlyWakes(s.threads, s'.threads, t)
    ensures s'.threads.Keys < s.threads.Keys
    ensures Major(s') < Major(s)
  {
    NoMore(s'.threads.Keys, s.threads.Keys);
    NoMore(Unbegun(s'.threads), Unbegun(s.threads));
  }

  lemma StepLowersRank<T>(s: State<T>, step: Step<T>, n: nat)
    requires Enabled(s, step) && (step.Acquire? || step.Run?)
    requires |s.threads.Keys| <= n
    ensures Rank(Do(s, step), n) < Rank(s, n)
    ensures |Do(s, step).threads.Keys| <= n
  {
    var s' := Do(s, step);
    if step.Acquire? {
      AcquireLowersRank(s, step.t);
    } else if step.t in s'.threads {
      SleepLowersRank(s, step.t, step.wake);
    } else {
      SectionOnlyWakes(s, step.t, step.wake);
      ReturnLowersRank(s, s', step.t);
      NoMore(s'.threads.Keys, s.threads.Keys);
    }
    NoMore(Ready(s'.threads), s'.threads.Keys);
    RankOrder(Major(s), Minor(s), Major(s'), Minor(s'), n);
  }

  lemma {:induction false} RankOrder(major: nat, minor: nat, major': nat, minor': nat, n: nat)
    requires major' < major || (major' <= major && minor' < minor)
    requires major' < major ==> minor' <= 2 * n
    ensures major' * (2 * n + 1) + minor' < major * (2 * n + 1) + minor
  {
    if major' < major {
      assert (major' + 1) * (2 * n + 1) <= major * (2 * n + 1);
    } else {
      assert major' == major;
    }
  }

  /**
    Once nobody calls and nobody wakes by itself, whatever the scheduler does, at most `Rank` more
    steps can be taken.
   */
  lemma {:induction false} SettlesWithinRank<T>(s: State<T>, steps: seq<Step<T>>, s': State<T>, n: nat)
    requires IsRun(s, steps, s') && |s.threads.Keys| <= n
    requires Internal(steps)
    ensures |steps| <= Rank(s, n)
    decreases |steps|
  {
    if steps != [] {
      StepLowersRank(s, steps[0], n);
      SettlesWithinRank(Do(s, steps[0]), steps[1..], s', n);
    }
  }

  lemma {:induction false} RunConcat<T>(s: State<T>, first: seq<Step<T>>, s': State<T>,
                                             more: seq<Step<T>>, s'': State<T>)
    requires IsRun(s, first, s') && IsRun(s', more, s'')
    ensures IsRun(s, first + more, s'')
    decreases |first|
  {
    if first == [] {
      assert first + more == more;
    } else {
      assert (first + more)[1..] == first[1..] + more;
      RunConcat(Do(s, first[0]), first[1..], s', more, s'');
    }
  }

  ghost predicate Internal<T>(steps: seq<Step<T>>) {
    forall i :: 0 <= i < |steps| ==> steps[i].Acquire? || steps[i].Run?
  }

  /** Steps can be taken until the queue has come to rest. */
  lemma {:induction false} ComesToRest<T>(s: State<T>, n: nat) returns (steps: seq<Step<T>>, s': State<T>)
    requires |s.threads.Keys| <= n
    ensures IsRun(s, steps, s') && Internal(steps) && Settled(s') && |steps| <= Rank(s, n)
    decreases Rank(s, n)
  {
    if Settled(s) {
      steps, s' := [], s;
    } else {
      var step := InternalStep(s);
      StepLowersRank(s, step, n);
      var more;
      more, s' := ComesToRest(Do(s, step), n);
      steps := [step] + more;
      assert steps[1..] == more;
    }
  }

  lemma InternalStep<T>(s: State<T>) returns (step: Step<T>)
    requires !Settled(s)
    ensures Enabled(s, step) && (step.Acquire? || step.Run?)
  {
    if t :| Enabled(s, Acquire(t)) {
      step := Acquire(t);
    } else {
      var t, wake :| Enabled(s, Run(t, wake));
      step := Run(t, wake);
    }
  }

  /**
    Every run goes on, without new calls, to a state in which only blocked threads are left, and it cannot
    be kept from getting there for more than `Rank` steps: every operation that can complete does complete.
   */
  lemma OnlyBlockedRemain<T>(maxSize: nat, steps: seq<Step<T>>, s: State<T>)
    returns (more: seq<Step<T>>, s': State<T>)
    requires IsRun(Initial(maxSize), steps, s)
    ensures IsRun(s, more, s') && Internal(more) && |more| <= Rank(s, |s.threads.Keys|)
    ensures forall t :: t in s'.threads ==>
      s'.threads[t].Waiting? && Blocked(maxSize, Abstract(s'.queue, s'.closed), s'.threads[t].op)
  {
    more, s' := ComesToRest(s, |s.threads.Keys|);
    RunConcat(Initial(maxSize), steps, s, more, s');
    forall t | t in s'.threads
      ensures s'.threads[t].Waiting? && Blocked(maxSize, Abstract(s'.queue, s'.closed), s'.threads[t].op)
    {
      AsleepOnlyIfBlocked(maxSize, steps + more, s', t);
    }
  }

  // ----- the object itself --------------------------------------------------

  /**
    The queue object. `queue` and `closed` are its own fields; `owner` and `threads` stand for the
    mutex and the two condition variables, `log` for what its callers have seen. Each method is the
    code between taking the mutex (or waking up) and releasing it.
   */
  class Monitor<T> {
    const maxSize: nat
    var queue: seq<T>
    var closed: bool
    var owner: Option<Tid>
    var threads: map<Tid, Thread<T>>
    ghost var log: seq<Event<T>>

    ghost function View(): State<T>
      reads this
    {
      State(maxSize, queue, closed, owner, threads, log)
    }

    constructor (maxSize: nat)
      ensures View() == Initial(maxSize) && Inv(View())
    {
      this.maxSize := maxSize;
      queue, closed, owner, threads, log := [], false, None, map[], [];
    }

    method Push(t: Tid, wake: Option<Tid>) returns (accepted: Option<bool>)
      requires Inv(View()) && CanRun(View(), t, wake) && threads[t].op.Push?
      modifies this
      ensures View() == RunPush(old(View()), t, wake) && Inv(View())
      ensures accepted.None? <==> old(!closed && |queue| >= maxSize)
      ensures accepted.Some? ==> accepted.value == !old(closed)
      ensures queue == if accepted == Some(true) then old(queue) + [old(threads[t].op.v)] else old(queue)
      ensures accepted.Some? ==> log == old(log) + [PushDone(old(threads[t].op.v), accepted.value)]
    {
      PushKeepsInv(View(), t, wake);
      var v := threads[t].op.v;
      if !closed && |queue| >= maxSize {
        owner, threads := None, threads[t := Waiting(threads[t].op)];
        return None;
      }
      if closed {
        owner, threads, log := None, threads - {t}, log + [PushDone(v, false)];
        return Some(false);
      }
      queue := queue + [v];
      threads := NotifyOne(threads, wake);
      owner, threads, log := None, threads - {t}, log + [PushDone(v, true)];
      return Some(true);
    }

    method Pop(t: Tid, wake: Option<Tid>) returns (taken: Option<Option<T>>)
      requires Inv(View()) && CanRun(View(), t, wake) && threads[t].op.Pop?
      modifies this
      ensures View() == RunPop(old(View()), t, wake) && Inv(View())
      ensures taken.None? <==> old(!closed && queue == [])
      ensures old(queue) != [] ==> taken == Some(Some(old(queue)[0])) && queue == old(queue)[1..]
      ensures old(closed && queue == []) ==> taken == Some(None) && queue == []
      ensures taken.Some? && taken.value.Some? ==> log == old(log) + [PopDone(taken.value.value)]
      ensures taken.Some? && taken.value.None? ==> log == old(log) + [PopFailed]
    {
      PopKeepsInv(View(), t, wake);
      if queue == [] {
        if closed {
          owner, threads, log := None, threads - {t}, log + [PopFailed];
          return Some(None);
        }
        owner, threads := None, threads[t := Waiting(Op<T>.Pop)];
        return None;
      }
      var v := queue[0];
      queue := queue[1..];
      if closed && queue == [] {
        threads := NotifyAll(threads, HaveSpace);
      } else {
        threads := NotifyOne(threads, wake);
      }
      owner, threads, log := None, threads - {t}, log + [PopDone(v)];
      return Some(Some(v));
    }

    /** Closes the queue and wakes everybody; the mutex stays taken. */
    method BeginClosing()
      modifies this
      ensures View() == BeginClose(old(View()))
    {
      closed := true;
      threads := NotifyAll(threads, HaveData);
      threads := NotifyAll(threads, HaveSpace);
      log := log + [CloseStarted];
    }

    method Close(t: Tid) returns (returned: bool)
      requires Inv(View()) && CanRun(View(), t, None) && threads[t].op.Close?
      modifies this
      ensures View() == RunClose(old(View()), t, None) && Inv(View())
      ensures closed && queue == old(queue)
      ensures returned <==> !(old(threads[t].op.drain) && old(queue) != [])
    {
      CloseKeepsInv(View(), t, None);
      var op := threads[t].op;
      if !threads[t].resumed {
        BeginClosing();
      }
      if op.drain && queue != [] {
        owner, threads := None, threads[t := Waiting(op)];
        return false;
      }
      owner, threads, log := None, threads - {t}, log + [CloseReturned(op.drain)];
      return true;
    }
  }
}
