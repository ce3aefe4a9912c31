/**
  A counter shared by the members of a group; the member that takes it to zero closes the queue.

  `close` reads the counter and, in a second atomic step, subtracts one from it. Between the two
  other members may run, so the counter can pass zero: it is a 64-bit word and wraps around.
 */
module GroupClose {
  import opened Words

  type Tid = nat

  /** Inside `close`: about to read the counter, or about to subtract from it. */
  datatype Phase = Testing | Subtracting

  /** `started`, `skipped`, `subtracted` and `closes` record what has happened so far. */
  datatype State = State(
    count: nat,
    callers: map<Tid, Phase>,
    started: nat,
    skipped: nat,
    subtracted: nat,
    closes: nat)

  datatype Step = Call(t: Tid) | Test(t: Tid) | Subtract(t: Tid)

  function Initial(groupSize: nat): State {
    State(groupSize, map[], 0, 0, 0, 0)
  }

  predicate Enabled(s: State, step: Step) {
    match step
    case Call(t) => t !in s.callers
    case Test(t) => t in s.callers && s.callers[t].Testing?
    case Subtract(t) => t in s.callers && s.callers[t].Subtracting?
  }

  function Do(s: State, step: Step): State
    requires Enabled(s, step)
  {
    match step
    case Call(t) => s.(callers := s.callers[t := Testing], started := s.started + 1)
    case Test(t) =>
      if s.count == 0 then s.(callers := s.callers - {t}, skipped := s.skipped + 1)
      else s.(callers := s.callers[t := Subtracting])
    case Subtract(t) =>
      s.(count := (s.count - 1) % WORD,
         callers := s.callers - {t},
         subtracted := s.subtracted + 1,
         closes := if s.count == 1 then s.closes + 1 else s.closes)
  }

  ghost predicate IsRun(s: State, steps: seq<Step>, s': State)
    decreases |steps|
  {
    if steps == [] then s == s'
    else Enabled(s, steps[0]) && IsRun(Do(s, steps[0]), steps[1..], s')
  }

  /** How often a counter started at `groupSize` has passed from one to zero. */
  function Passes(groupSize: nat, subtracted: nat): nat {
    if groupSize == 0 || subtracted < groupSize then 0 else 1 + (subtracted - groupSize) / WORD
  }

  ghost predicate Inv(groupSize: nat, s: State) {
    && groupSize < WORD
    && s.count == (groupSize - s.subtracted) % WORD
    && s.closes == Passes(groupSize, s.subtracted)
    && s.started == |s.callers.Keys| + s.skipped + s.subtracted
    && (groupSize == 0 ==> s.subtracted == 0 && forall t :: t in s.callers ==> s.callers[t].Testing?)
    && (s.started <= groupSize ==> s.skipped == 0)
  }

  lemma CountAfter(groupSize: nat, subtracted: nat)
    requires 0 < groupSize < WORD
    ensures ((groupSize - subtracted) % WORD - 1) % WORD == (groupSize - (subtracted + 1)) % WORD
    ensures Passes(groupSize, subtracted + 1)
            == Passes(groupSize, subtracted) + (if (groupSize - subtracted) % WORD == 1 then 1 else 0)
  {
  }

  /** Zero is never seen by the members of a group that is not overfull. */
  lemma ZeroMeansAllSubtracted(groupSize: nat, s: State, t: Tid)
    requires Inv(groupSize, s) && t in s.callers && s.count == 0
    ensures groupSize < s.started
  {
    assert s.callers.Keys == s.callers.Keys - {t} + {t};
  }

  lemma TestKeepsInv(groupSize: nat, s: State, t: Tid)
    requires Inv(groupSize, s) && Enabled(s, Test(t))
    ensures Inv(groupSize, Do(s, Test(t)))
  {
    var s' := Do(s, Test(t));
    if s.count == 0 {
      assert s'.callers.Keys == s.callers.Keys - {t};
      ZeroMeansAllSubtracted(groupSize, s, t);
    } else {
      assert s'.callers.Keys == s.callers.Keys;
    }
  }

  lemma SubtractKeepsInv(groupSize: nat, s: State, t: Tid)
    requires Inv(groupSize, s) && Enabled(s, Subtract(t))
    ensures Inv(groupSize, Do(s, Subtract(t)))
  {
    assert Do(s, Subtract(t)).callers.Keys == s.callers.Keys - {t};
    CountAfter(groupSize, s.subtracted);
  }

  lemma StepKeepsInv(groupSize: nat, s: State, step: Step)
    requires Inv(groupSize, s) && Enabled(s, step)
    ensures Inv(groupSize, Do(s, step))
  {
    match step
    case Call(t) => assert Do(s, step).callers.Keys == s.callers.Keys + {t};
    case Test(t) => TestKeepsInv(groupSize, s, t);
    case Subtract(t) => SubtractKeepsInv(groupSize, s, t);
  }

  lemma {:induction false} RunKeepsInv(groupSize: nat, s: State, steps: seq<Step>, s': State)
    requires Inv(groupSize, s) && IsRun(s, steps, s')
    ensures Inv(groupSize, s')
    decreases |steps|
  {
    if steps != [] {
      StepKeepsInv(groupSize, s, steps[0]);
      RunKeepsInv(groupSize, Do(s, steps[0]), steps[1..], s');
    }
  }

  /**
    With no more callers than the group has members nobody is turned away, and the queue is closed
    exactly by the last member's subtraction: never before, and once all have returned exactly once.
   */
  lemma GroupClosesOnce(groupSize: nat, steps: seq<Step>, s: State)
    requires 0 < groupSize < WORD && IsRun(Initial(groupSize), steps, s)
    requires s.started <= groupSize
    ensures s.closes == if s.subtracted == groupSize then 1 else 0
    ensures s.started == groupSize && s.callers == map[] ==> s.closes == 1
  {
    RunKeepsInv(groupSize, Initial(groupSize), steps, s);
    assert s.callers == map[] ==> s.callers.Keys == {};
  }

  /**
    With any number of callers: the queue is closed at most once if and only if fewer than 2^64
    subtractions follow the one that closed it; and an empty group never closes anything.
   */
  lemma ClosesAtMostOnceIff(groupSize: nat, steps: seq<Step>, s: State)
    requires groupSize < WORD && IsRun(Initial(groupSize), steps, s)
    ensures s.closes <= 1 <==> groupSize == 0 || s.subtracted < groupSize + WORD
    ensures s.closes == 0 <==> groupSize == 0 || s.subtracted < groupSize
  {
    RunKeepsInv(groupSize, Initial(groupSize), steps, s);
  }

  /**
    The counter is what is left of the group exactly if there were no more subtractions than members,
    which is so whenever there were no more callers.
   */
  lemma CountIsExactIff(groupSize: nat, steps: seq<Step>, s: State)
    requires groupSize < WORD && IsRun(Initial(groupSize), steps, s)
    ensures s.count + s.subtracted == groupSize <==> s.subtracted <= groupSize
    ensures s.started <= groupSize ==> s.count + s.subtracted == groupSize
  {
    RunKeepsInv(groupSize, Initial(groupSize), steps, s);
  }

  // ----- who touches the counter ----------------------------------------------

  /** The subtractions among the steps. */
  function Subtractions(steps: seq<Step>): nat {
    if steps == [] then 0 else (if steps[0].Subtract? then 1 else 0) + Subtractions(steps[1..])
  }

  /** A caller who reads zero returns and leaves the counter alone; any other goes on to subtract. */
  lemma TestOnlyLooks(s: State, t: Tid)
    requires Enabled(s, Test(t))
    ensures var s' := Do(s, Test(t));
      && s'.count == s.count && s'.closes == s.closes && s'.subtracted == s.subtracted
      && (s.count == 0 ==> s'.callers == s.callers - {t})
      && (s.count != 0 ==> s'.callers == s.callers[t := Subtracting])
  {
  }

  /** Only subtractions change the counter, by one each, and only they close the queue. */
  lemma {:induction false} CounterFollowsSubtractions(s: State, steps: seq<Step>, s': State)
    requires IsRun(s, steps, s') && s.count < WORD
    ensures s'.count == (s.count - Subtractions(steps)) % WORD
    ensures s'.subtracted == s.subtracted + Subtractions(steps)
    ensures s.closes <= s'.closes <= s.closes + Subtractions(steps)
    decreases |steps|
  {
    if steps != [] { CounterFollowsSubtractions(Do(s, steps[0]), steps[1..], s'); }
  }

  // ----- too many callers ---------------------------------------------------

  lemma {:induction false} RunAppend(s: State, steps: seq<Step>, s': State, step: Step)
    requires IsRun(s, steps, s') && Enabled(s', step)
    ensures IsRun(s, steps + [step], Do(s', step))
    decreases |steps|
  {
    if steps == [] {
      assert (steps + [step])[1..] == [];
    } else {
      assert (steps + [step])[1..] == steps[1..] + [step];
      RunAppend(Do(s, steps[0]), steps[1..], s', step);
    }
  }

  ghost function Between(lo: nat, hi: nat): (ts: set<Tid>)
    ensures forall t :: t in ts <==> lo <= t < hi
  {
    if hi <= lo then {} else Between(lo, hi - 1) + {hi - 1}
  }

  /** The callers 0 to n - 1 are inside; the first `tested` of them have read the counter. */
  ghost function Inside(groupSize: nat, n: nat, tested: nat): State {
    State(groupSize, map t | t in Between(0, n) :: if t < tested then Subtracting else Testing, n, 0, 0, 0)
  }

  lemma {:induction false} AllCall(groupSize: nat, n: nat) returns (steps: seq<Step>)
    ensures IsRun(Initial(groupSize), steps, Inside(groupSize, n, 0))
  {
    if n == 0 {
      steps := [];
      assert Inside(groupSize, 0, 0).callers == map[];
    } else {
      var s := Inside(groupSize, n - 1, 0);
      steps := AllCall(groupSize, n - 1);
      RunAppend(Initial(groupSize), steps, s, Call(n - 1));
      assert Do(s, Call(n - 1)).callers == Inside(groupSize, n, 0).callers;
      steps := steps + [Call(n - 1)];
    }
  }

  lemma {:induction false} AllTest(groupSize: nat, n: nat, tested: nat) returns (steps: seq<Step>)
    requires groupSize > 0 && tested <= n
    ensures IsRun(Initial(groupSize), steps, Inside(groupSize, n, tested))
  {
    if tested == 0 {
      steps := AllCall(groupSize, n);
    } else {
      var s := Inside(groupSize, n, tested - 1);
      steps := AllTest(groupSize, n, tested - 1);
      RunAppend(Initial(groupSize), steps, s, Test(tested - 1));
      assert Do(s, Test(tested - 1)).callers == Inside(groupSize, n, tested).callers;
      steps := steps + [Test(tested - 1)];
    }
  }

  lemma {:induction false} AllSubtract(groupSize: nat, n: nat, done: nat) returns (steps: seq<Step>, s: State)
    requires groupSize > 0 && done <= n
    ensures IsRun(Initial(groupSize), steps, s) && s.started == n && s.subtracted == done
    ensures s.callers == map t | t in Between(done, n) :: Subtracting
  {
    if done == 0 {
      steps := AllTest(groupSize, n, n);
      s := Inside(groupSize, n, n);
    } else {
      steps, s := AllSubtract(groupSize, n, done - 1);
      RunAppend(Initial(groupSize), steps, s, Subtract(done - 1));
      steps, s := steps + [Subtract(done - 1)], Do(s, Subtract(done - 1));
    }
  }

  ghost predicate Wraps(groupSize: nat, n: nat, steps: seq<Step>, s: State) {
    IsRun(Initial(groupSize), steps, s) && s.started == n && s.count + s.subtracted != groupSize
  }

  /** The counter of a group can wrap exactly with more callers than members. */
  lemma CanWrapIff(groupSize: nat, n: nat)
    requires 0 < groupSize < WORD
    ensures (exists steps, s :: Wraps(groupSize, n, steps, s)) <==> n > groupSize
  {
    forall steps, s | Wraps(groupSize, n, steps, s) ensures n > groupSize {
      CountIsExactIff(groupSize, steps, s);
    }
    if n > groupSize {
      var steps, s := AllSubtract(groupSize, n, n);
      CountIsExactIff(groupSize, steps, s);
      assert Wraps(groupSize, n, steps, s);
    }
  }

  /** One caller too many can take it past zero, for every positive group size. */
  lemma CounterCanWrap(groupSize: nat)
    requires 0 < groupSize < WORD
    ensures exists steps, s :: IsRun(Initial(groupSize), steps, s) && s.closes == 1 && s.count == WORD - 1
  {
    var steps, s := AllSubtract(groupSize, groupSize + 1, groupSize + 1);
    RunKeepsInv(groupSize, Initial(groupSize), steps, s);
  }
}
