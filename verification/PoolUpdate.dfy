/**
  How the blockchain explorer follows the node's transaction pool.

  A pool notification starts an update unless one is under way. An update asks the node for the
  difference between its pool and the last known one, then for the details of the new transactions,
  and then tells the observers. Both questions are answered later, on other threads. A three-state
  guard, changed by compare-and-exchange only, lets one update run at a time and remembers that
  another one was wanted meanwhile.

  The model is a step system: any number of activities, each a notification being handled or an
  update waiting for an answer, interleave one atomic access at a time. The node's answers, its
  pool, the synchronisation flag and the number of observers are changed by steps of their own.
 */
module PoolUpdate {

  type Id = nat
  type Hash = nat

  datatype Guard = NoUpdate | Updating | UpdateRequired

  /** Where an activity is. `seen` is the local copy of the guard inside the exchange loops. */
  datatype Activity =
    | TestSync
    | TestObservers
    | LoadToBegin
    | Begin(seen: Guard)
    | Fetch
    | AwaitDifference(snapshot: set<Hash>)
    | AwaitDetails(added: seq<Hash>, gone: seq<Hash>)
    | LoadToEnd
    | End(seen: Guard)

  /** Where the reason for a refused notification has got to. */
  datatype Place = WithGuard | With(a: Id) | Fetched | Dropped

  datatype Notification = Notification(added: seq<Hash>, gone: seq<Hash>)

  /** A difference between two known pools; it is lost if its details could not be fetched. */
  datatype Diff = Diff(added: seq<Hash>, gone: seq<Hash>, told: bool)

  /**
    `guard`, `known` and the two flags are the explorer's fields, `pool` the node's. The rest
    records what happened: `refusals` follows every refused notification, `begun` and `ended` count
    updates, `history` lists the differences learned and whether observers were told, `told` is what they
    were told, and `honest` says that the node has answered no question for details with other
    transactions than those asked for.
   */
  datatype State = State(
    guard: Guard,
    acts: map<Id, Activity>,
    synchronized: bool,
    observers: nat,
    known: set<Hash>,
    pool: set<Hash>,
    refusals: seq<Place>,
    begun: nat,
    ended: nat,
    history: seq<Diff>,
    told: seq<Notification>,
    honest: bool)

  datatype Answer = Failed | Answered(hashes: seq<Hash>)

  /** `spurious` makes a weak exchange fail although the guard has the expected value. */
  datatype Step =
    | PoolChanged(a: Id)
    | ReadSync(a: Id)
    | ReadObservers(a: Id)
    | Load(a: Id)
    | TryBegin(a: Id, spurious: bool)
    | Ask(a: Id)
    | Difference(a: Id, answer: Answer, removed: seq<Hash>)
    | Details(a: Id, answer: Answer)
    | TryEnd(a: Id, spurious: bool)
    | SetSync(flag: bool)
    | SetObservers(count: nat)
    | SetPool(content: set<Hash>)

  // ----- applying a difference ----------------------------------------------

  function Elements<X>(s: seq<X>): set<X> {
    set x | x in s
  }

  /** The hashes, in order, that inserting `novel` one by one adds to `known`. */
  function AddedBy(known: set<Hash>, novel: seq<Hash>): seq<Hash> {
    if novel == [] then []
    else
      var before, h := novel[..|novel|-1], novel[|novel|-1];
      AddedBy(known, before) + (if h in known || h in before then [] else [h])
  }

  /** The hashes, in order, that erasing `removed` one by one takes out of `known`. */
  function GoneBy(known: set<Hash>, removed: seq<Hash>): seq<Hash> {
    if removed == [] then []
    else
      var before, h := removed[..|removed|-1], removed[|removed|-1];
      GoneBy(known, before) + (if h in known && h !in before then [h] else [])
  }

  // ----- steps --------------------------------------------------------------

  predicate Enabled(s: State, step: Step) {
    match step
    case PoolChanged(a) => a !in s.acts
    case ReadSync(a) => a in s.acts && s.acts[a].TestSync?
    case ReadObservers(a) => a in s.acts && s.acts[a].TestObservers?
    case Load(a) => a in s.acts && (s.acts[a].LoadToBegin? || s.acts[a].LoadToEnd?)
    case TryBegin(a, _) => a in s.acts && s.acts[a].Begin?
    case Ask(a) => a in s.acts && s.acts[a].Fetch?
    case Difference(a, _, _) => a in s.acts && s.acts[a].AwaitDifference?
    case Details(a, _) => a in s.acts && s.acts[a].AwaitDetails?
    case TryEnd(a, _) => a in s.acts && s.acts[a].End?
    case SetSync(_) => true
    case SetObservers(_) => true
    case SetPool(_) => true
  }

  function Go(s: State, a: Id, next: Activity): State {
    s.(acts := s.acts[a := next])
  }

  /** Everything at one place moves to another. */
  function Move(refusals: seq<Place>, from: Place, to: Place): (r: seq<Place>)
    ensures |r| == |refusals|
    ensures forall i :: 0 <= i < |r| ==> r[i] == if refusals[i] == from then to else refusals[i]
  {
    seq(|refusals|, i requires 0 <= i < |refusals| => if refusals[i] == from then to else refusals[i])
  }

  /** The handling of a notification ends early because nobody is to be told. */
  function Drop(s: State, a: Id): State {
    s.(acts := s.acts - {a}, refusals := Move(s.refusals, With(a), Dropped))
  }

  /** A notification is refused: what it stood for, and itself, are left to the guard. */
  function Refuse(s: State, a: Id): State {
    s.(guard := UpdateRequired,
       acts := s.acts - {a},
       refusals := Move(s.refusals, With(a), WithGuard) + [WithGuard])
  }

  /** The loop of `beginUpdate` has a new local copy of the guard; the third state ends it. */
  function LookAgain(s: State, a: Id): State {
    if s.guard == UpdateRequired then Refuse(s, a) else Go(s, a, Begin(s.guard))
  }

  /** `endUpdate` has succeeded; it asks for a rerun if the third state was seen. */
  function Finish(s: State, a: Id): State {
    var s' := s.(guard := NoUpdate, ended := s.ended + 1);
    if s.guard == UpdateRequired then
      Go(s'.(refusals := Move(s.refusals, WithGuard, With(a))), a, TestSync)
    else
      s'.(acts := s.acts - {a})
  }

  function Learn(s: State, a: Id, novel: seq<Hash>, removed: seq<Hash>): State {
    var known := s.known + Elements(novel);
    Go(s.(known := known - Elements(removed)), a, AwaitDetails(AddedBy(s.known, novel), GoneBy(known, removed)))
  }

  function Tell(s: State, a: Id, details: seq<Hash>): State
    requires a in s.acts && s.acts[a].AwaitDetails?
  {
    var added, gone := s.acts[a].added, s.acts[a].gone;
    Go(s.(told := if details == [] && gone == [] then s.told else s.told + [Notification(details, gone)],
          history := s.history + [Diff(added, gone, true)],
          honest := s.honest && Elements(details) == Elements(added)),
       a, LoadToEnd)
  }

  function Lose(s: State, a: Id): State
    requires a in s.acts && s.acts[a].AwaitDetails?
  {
    Go(s.(history := s.history + [Diff(s.acts[a].added, s.acts[a].gone, false)]), a, LoadToEnd)
  }

  function Do(s: State, step: Step): State
    requires Enabled(s, step)
  {
    match step
    case PoolChanged(a) => Go(s, a, TestSync)
    case ReadSync(a) => if s.synchronized then Go(s, a, TestObservers) else Drop(s, a)
    case ReadObservers(a) => if s.observers != 0 then Go(s, a, LoadToBegin) else Drop(s, a)
    case Load(a) => if s.acts[a].LoadToBegin? then LookAgain(s, a) else Go(s, a, End(s.guard))
    case TryBegin(a, spurious) =>
      if spurious || s.guard != s.acts[a].seen then LookAgain(s, a)
      else if s.guard == NoUpdate then Go(s.(guard := Updating, begun := s.begun + 1), a, Fetch)
      else Refuse(s, a)
    case Ask(a) => Go(s.(refusals := Move(s.refusals, With(a), Fetched)), a, AwaitDifference(s.known))
    case Difference(a, answer, removed) =>
      if answer.Failed? then Go(s, a, LoadToEnd) else Learn(s, a, answer.hashes, removed)
    case Details(a, answer) =>
      if answer.Failed? then Lose(s, a) else Tell(s, a, answer.hashes)
    case TryEnd(a, spurious) =>
      if spurious || s.guard != s.acts[a].seen then Go(s, a, End(s.guard)) else Finish(s, a)
    case SetSync(flag) => s.(synchronized := flag)
    case SetObservers(count) => s.(observers := count)
    case SetPool(content) => s.(pool := content)
  }

  function Initial(pool: set<Hash>): State {
    State(NoUpdate, map[], false, 0, {}, pool, [], 0, 0, [], [], true)
  }

  ghost predicate IsRun(s: State, steps: seq<Step>, s': State)
    decreases |steps|
  {
    if steps == [] then s == s'
    else Enabled(s, steps[0]) && IsRun(Do(s, steps[0]), steps[1..], s')
  }

  // ----- the inductive invariant --------------------------------------------

  /** Activities between a successful `beginUpdate` and the end of `endUpdate`. */
  predicate Owns(act: Activity) {
    act.Fetch? || act.AwaitDifference? || act.AwaitDetails? || act.LoadToEnd? || act.End?
  }

  /** Activities that will ask the node afresh unless refused or dropped. */
  predicate WillAsk(act: Activity) {
    act.TestSync? || act.TestObservers? || act.LoadToBegin? || act.Begin? || act.Fetch?
  }

  ghost predicate Exclusive(guard: Guard, acts: map<Id, Activity>) {
    && (forall a, b :: a in acts && b in acts && Owns(acts[a]) && Owns(acts[b]) ==> a == b)
    && (guard != NoUpdate <==> exists a :: a in acts && Owns(acts[a]))
  }

  ghost predicate CopiesAreUsable(guard: Guard, acts: map<Id, Activity>) {
    forall a :: a in acts ==>
      && (acts[a].End? ==> acts[a].seen != NoUpdate)
      && (acts[a].Begin? ==> acts[a].seen != UpdateRequired)
  }

  ghost predicate RefusalsAreKept(guard: Guard, acts: map<Id, Activity>, refusals: seq<Place>) {
    && (guard == UpdateRequired <==> WithGuard in refusals)
    && forall i :: 0 <= i < |refusals| && refusals[i].With? ==>
         refusals[i].a in acts && WillAsk(acts[refusals[i].a])
  }

  ghost predicate SnapshotIsCurrent(known: set<Hash>, acts: map<Id, Activity>) {
    forall a :: a in acts && acts[a].AwaitDifference? ==> acts[a].snapshot == known
  }

  ghost predicate Inv(s: State) {
    && Exclusive(s.guard, s.acts)
    && s.begun == s.ended + (if s.guard == NoUpdate then 0 else 1)
    && CopiesAreUsable(s.guard, s.acts)
    && RefusalsAreKept(s.guard, s.acts, s.refusals)
    && SnapshotIsCurrent(s.known, s.acts)
  }

  // ----- every step keeps the invariant -------------------------------------

  /** An activity moves on without gaining or giving up the update. */
  lemma GoKeepsInv(s: State, a: Id, next: Activity)
    requires Inv(s)
    requires Owns(next) <==> a in s.acts && Owns(s.acts[a])
    requires a in s.acts && WillAsk(s.acts[a]) ==> WillAsk(next)
    requires next.End? ==> next.seen != NoUpdate
    requires next.Begin? ==> next.seen != UpdateRequired
    requires next.AwaitDifference? ==> next.snapshot == s.known
    ensures Inv(Go(s, a, next))
  {
    if s.guard != NoUpdate {
      var o :| o in s.acts && Owns(s.acts[o]);
      assert o in s.acts[a := next] && Owns(s.acts[a := next][o]);
    }
  }

  lemma DropKeepsInv(s: State, a: Id)
    requires Inv(s) && a in s.acts && !Owns(s.acts[a])
    ensures Inv(Drop(s, a))
  {
    var s' := Drop(s, a);
    if s.guard != NoUpdate {
      var o :| o in s.acts && Owns(s.acts[o]);
      assert o in s'.acts && Owns(s'.acts[o]);
    }
    if s.guard == UpdateRequired {
      var i :| 0 <= i < |s.refusals| && s.refusals[i] == WithGuard;
      assert s'.refusals[i] == WithGuard;
    }
  }

  lemma RefuseKeepsInv(s: State, a: Id)
    requires Inv(s) && a in s.acts && !Owns(s.acts[a]) && s.guard != NoUpdate
    ensures Inv(Refuse(s, a))
  {
    var s' := Refuse(s, a);
    var o :| o in s.acts && Owns(s.acts[o]);
    assert o in s'.acts && Owns(s'.acts[o]);
    assert s'.refusals[|s.refusals|] == WithGuard;
  }

  lemma LookAgainKeepsInv(s: State, a: Id)
    requires Inv(s) && a in s.acts && (s.acts[a].LoadToBegin? || s.acts[a].Begin?)
    ensures Inv(LookAgain(s, a))
  {
    if s.guard == UpdateRequired { RefuseKeepsInv(s, a); } else { GoKeepsInv(s, a, Begin(s.guard)); }
  }

  lemma BeginKeepsInv(s: State, a: Id)
    requires Inv(s) && a in s.acts && s.acts[a].Begin? && s.guard == NoUpdate
    ensures Inv(Go(s.(guard := Updating, begun := s.begun + 1), a, Fetch))
  {
    var acts' := s.acts[a := Fetch];
    assert a in acts' && Owns(acts'[a]);
  }

  lemma FinishKeepsInv(s: State, a: Id)
    requires Inv(s) && a in s.acts && s.acts[a].End? && s.guard != NoUpdate
    ensures Inv(Finish(s, a))
  {
    var s' := Finish(s, a);
    assert forall b :: b in s'.acts && b != a ==> b in s.acts && !Owns(s.acts[b]);
  }

  lemma AskKeepsInv(s: State, a: Id)
    requires Inv(s) && Enabled(s, Ask(a))
    ensures Inv(Do(s, Ask(a)))
  {
    var moved := s.(refusals := Move(s.refusals, With(a), Fetched));
    var s' := Do(s, Ask(a));
    assert a in s'.acts && Owns(s'.acts[a]);
    if s.guard == UpdateRequired {
      var i :| 0 <= i < |s.refusals| && s.refusals[i] == WithGuard;
      assert s'.refusals[i] == WithGuard;
    }
  }

  /** Only the owner of the update changes `known`, and it is not waiting for a difference then. */
  lemma {:induction false} LearnKeepsInv(s: State, a: Id, novel: seq<Hash>, removed: seq<Hash>)
    requires Inv(s) && a in s.acts && s.acts[a].AwaitDifference?
    ensures Inv(Learn(s, a, novel, removed))
  {
    var s' := Learn(s, a, novel, removed);
    assert a in s'.acts && Owns(s'.acts[a]);
    assert forall b :: b in s'.acts && b != a ==> !Owns(s'.acts[b]);
  }

  lemma {:induction false} StepKeepsInv(s: State, step: Step)
    requires Inv(s) && Enabled(s, step)
    ensures Inv(Do(s, step))
  {
    match step
    case PoolChanged(a) => GoKeepsInv(s, a, TestSync);
    case ReadSync(a) => if s.synchronized { GoKeepsInv(s, a, TestObservers); } else { DropKeepsInv(s, a); }
    case ReadObservers(a) => if s.observers != 0 { GoKeepsInv(s, a, LoadToBegin); } else { DropKeepsInv(s, a); }
    case Load(a) => if s.acts[a].LoadToBegin? { LookAgainKeepsInv(s, a); } else { GoKeepsInv(s, a, End(s.guard)); }
    case TryBegin(a, spurious) =>
      if spurious || s.guard != s.acts[a].seen { LookAgainKeepsInv(s, a); }
      else if s.guard == NoUpdate { BeginKeepsInv(s, a); }
      else { RefuseKeepsInv(s, a); }
    case Ask(a) => AskKeepsInv(s, a);
    case Difference(a, answer, removed) =>
      if answer.Failed? { GoKeepsInv(s, a, LoadToEnd); } else { LearnKeepsInv(s, a, answer.hashes, removed); }
    case Details(a, answer) =>
      var s' := Do(s, step);
      GoKeepsInv(s.(told := s'.told, history := s'.history, honest := s'.honest), a, LoadToEnd);
    case TryEnd(a, spurious) =>
      if spurious || s.guard != s.acts[a].seen { GoKeepsInv(s, a, End(s.guard)); } else { FinishKeepsInv(s, a); }
    case SetSync(_) =>
    case SetObservers(_) =>
    case SetPool(_) =>
  }

  lemma {:induction false} RunKeepsInv(s: State, steps: seq<Step>, s': State)
    requires Inv(s) && IsRun(s, steps, s')
    ensures Inv(s')
    decreases |steps|
  {
    if steps != [] {
      StepKeepsInv(s, steps[0]);
      RunKeepsInv(Do(s, steps[0]), steps[1..], s');
    }
  }

  // ----- exclusion and refusals over whole runs -----------------------------

  /**
    At most one update is under way, every update begun is ended exactly once whichever way it goes,
    and `endUpdate` never finds the guard idle.
   */
  lemma {:induction false} UpdatesAreExclusive(pool: set<Hash>, steps: seq<Step>, s: State, a: Id, b: Id)
    requires IsRun(Initial(pool), steps, s)
    requires a in s.acts && Owns(s.acts[a])
    ensures b in s.acts && Owns(s.acts[b]) ==> a == b
    ensures s.begun == s.ended + 1 && s.guard != NoUpdate
    ensures s.acts[a].End? ==> s.acts[a].seen != NoUpdate
  {
    RunKeepsInv(Initial(pool), steps, s);
  }

  /**
    No refused notification is forgotten. At any time the guard still asks for a rerun, or an
    activity is on its way to a new question, or the question was asked, or it was dropped; and when
    nothing is going on any more, one of the last two.
   */
  lemma {:induction false} NoRefusalIsForgotten(pool: set<Hash>, steps: seq<Step>, s: State, i: nat)
    requires IsRun(Initial(pool), steps, s) && i < |s.refusals|
    ensures s.refusals[i] == WithGuard ==>
              s.guard == UpdateRequired && exists o :: o in s.acts && Owns(s.acts[o])
    ensures s.refusals[i].With? ==> s.refusals[i].a in s.acts && WillAsk(s.acts[s.refusals[i].a])
    ensures s.acts == map[] ==> s.begun == s.ended && (s.refusals[i] == Fetched || s.refusals[i] == Dropped)
  {
    RunKeepsInv(Initial(pool), steps, s);
  }

  /** Why a refusal may move: in particular it counts as answered only by a later question. */
  ghost predicate MayMove(s: State, step: Step, from: Place, to: Place) {
    match from
    case WithGuard => step.TryEnd? && to == With(step.a) && s.guard == UpdateRequired
    case With(a) =>
      || (to == WithGuard && (step.Load? || step.TryBegin?) && step.a == a)
      || (to == Fetched && step == Ask(a))
      || (to == Dropped && step == ReadSync(a) && !s.synchronized)
      || (to == Dropped && step == ReadObservers(a) && s.observers == 0)
    case Fetched => false
    case Dropped => false
  }

  lemma {:induction false} RefusalsMoveForAReason(s: State, step: Step, i: nat)
    requires Enabled(s, step) && i < |s.refusals|
    ensures i < |Do(s, step).refusals|
    ensures Do(s, step).refusals[i] != s.refusals[i] ==> MayMove(s, step, s.refusals[i], Do(s, step).refusals[i])
  {
  }

  /** After `k` steps, in state `u`, refusal `i` was about to be settled by the next step. */
  ghost predicate SettledAt(s: State, steps: seq<Step>, i: nat, k: nat, u: State, end: Place) {
    && k < |steps| && IsRun(s, steps[..k], u) && Enabled(u, steps[k])
    && i < |u.refusals| && u.refusals[i].With?
    && MayMove(u, steps[k], u.refusals[i], end)
  }

  /**
    Over any stretch of a run: a refusal pending at its start and settled at its end was settled by a
    question asked in between, or dropped because the explorer was out of sync or had no observers.
   */
  lemma {:induction false} RefusalsSettleForAReason(s: State, steps: seq<Step>, s': State, i: nat)
    requires IsRun(s, steps, s') && i < |s.refusals| && (s.refusals[i].WithGuard? || s.refusals[i].With?)
    ensures i < |s'.refusals|
    ensures s'.refusals[i] == Fetched || s'.refusals[i] == Dropped ==>
              exists k: nat, u :: SettledAt(s, steps, i, k, u, s'.refusals[i])
    decreases |steps|
  {
    if steps != [] {
      var s1, rest := Do(s, steps[0]), steps[1..];
      RefusalsMoveForAReason(s, steps[0], i);
      if s1.refusals[i].WithGuard? || s1.refusals[i].With? {
        RefusalsSettleForAReason(s1, rest, s', i);
        if s'.refusals[i] == Fetched || s'.refusals[i] == Dropped {
          var k: nat, u :| SettledAt(s1, rest, i, k, u, s'.refusals[i]);
          assert steps[..k + 1][1..] == rest[..k];
          assert SettledAt(s, steps, i, k + 1, u, s'.refusals[i]);
        }
      } else {
        SettledStays(s1, rest, s', i);
        assert SettledAt(s, steps, i, 0, s, s'.refusals[i]);
      }
    }
  }

  lemma {:induction false} SettledStays(s: State, steps: seq<Step>, s': State, i: nat)
    requires IsRun(s, steps, s') && i < |s.refusals| && (s.refusals[i] == Fetched || s.refusals[i] == Dropped)
    ensures i < |s'.refusals| && s'.refusals[i] == s.refusals[i]
    decreases |steps|
  {
    if steps != [] {
      RefusalsMoveForAReason(s, steps[0], i);
      SettledStays(Do(s, steps[0]), steps[1..], s', i);
    }
  }

  // ----- why activities leave, and why the guard changes ---------------------

  /** Nobody was to be told; or its update has ended; or it is refused, and the refusal is on record. */
  ghost predicate MayLeave(s: State, step: Step, a: Id)
    requires Enabled(s, step)
  {
    var s' := Do(s, step);
    || (step == ReadSync(a) && !s.synchronized)
    || (step == ReadObservers(a) && s.observers == 0)
    || (step.TryEnd? && step.a == a && s.guard == Updating && s'.ended == s.ended + 1)
    || (s.guard != NoUpdate && s'.guard == UpdateRequired && |s'.refusals| == |s.refusals| + 1
        && s'.refusals[|s.refusals|] == WithGuard)
  }

  /** A notification is not lost: who takes it up leaves only for one of these reasons. */
  lemma {:induction false} ActivitiesLeaveForAReason(s: State, step: Step, a: Id)
    requires Inv(s) && Enabled(s, step) && a in s.acts && a !in Do(s, step).acts
    ensures MayLeave(s, step, a)
  {
  }

  lemma {:induction false} OneLeavesAtATime(s: State, step: Step, a: Id)
    requires Enabled(s, step) && a in s.acts && a !in Do(s, step).acts
    ensures Do(s, step).acts == s.acts - {a}
  {
  }

  /** After `k` steps, in state `u`, activity `a` was about to leave. */
  ghost predicate LeavesAt(s: State, steps: seq<Step>, a: Id, k: nat, u: State) {
    && k < |steps| && IsRun(s, steps[..k], u) && Enabled(u, steps[k])
    && a in u.acts && a !in Do(u, steps[k]).acts && MayLeave(u, steps[k], a)
  }

  /** The same over any stretch of a run: a notification taken up and gone at its end left for a reason. */
  lemma {:induction false} NoNotificationIsLost(s: State, steps: seq<Step>, s': State, a: Id)
    requires Inv(s) && IsRun(s, steps, s') && a in s.acts && a !in s'.acts
    ensures exists k: nat, u :: LeavesAt(s, steps, a, k, u)
    decreases |steps|
  {
    var s1, rest := Do(s, steps[0]), steps[1..];
    StepKeepsInv(s, steps[0]);
    if a !in s1.acts {
      ActivitiesLeaveForAReason(s, steps[0], a);
      assert LeavesAt(s, steps, a, 0, s);
    } else {
      NoNotificationIsLost(s1, rest, s', a);
      var k: nat, u :| LeavesAt(s1, rest, a, k, u);
      assert steps[..k + 1][1..] == rest[..k];
      assert LeavesAt(s, steps, a, k + 1, u);
    }
  }

  /**
    The guard changes in three ways: an idle one is taken and an update begins, a taken one is marked and a
    refusal is put on record, or an update ends and leaves it idle.
   */
  lemma {:induction false} GuardChangesForAReason(s: State, step: Step)
    requires Inv(s) && Enabled(s, step)
    ensures var s' := Do(s, step); s'.begun != s.begun <==> s.guard == NoUpdate && s'.guard != NoUpdate
    ensures var s' := Do(s, step); s'.ended != s.ended <==> s.guard != NoUpdate && s'.guard == NoUpdate
    ensures var s' := Do(s, step); s'.begun != s.begun ==>
      step.TryBegin? && s'.begun == s.begun + 1 && s'.guard == Updating && s'.acts == s.acts[step.a := Fetch]
    ensures var s' := Do(s, step); s'.ended != s.ended ==> step.TryEnd? && s'.ended == s.ended + 1
    ensures var s' := Do(s, step); s'.guard == UpdateRequired && s.guard != UpdateRequired ==>
      s.guard == Updating && s'.refusals[|s.refusals|..] == [WithGuard] && s'.acts == s.acts - {step.a}
  {
    StepKeepsInv(s, step);
  }

  /** An exchange that is neither disturbed nor fails by chance does its work. */
  lemma {:induction false} ExchangesSucceed(s: State, a: Id)
    requires a in s.acts
    ensures s.acts[a] == Begin(NoUpdate) && s.guard == NoUpdate ==>
      Do(s, TryBegin(a, false)).begun == s.begun + 1
    ensures s.acts[a] == Begin(Updating) && s.guard == Updating ==>
      |Do(s, TryBegin(a, false)).refusals| == |s.refusals| + 1
    ensures s.acts[a] == End(s.guard) ==> Do(s, TryEnd(a, false)).ended == s.ended + 1
  {
  }

  /** After an update that was asked to run again, its activity starts over like a fresh notification. */
  lemma {:induction false} RerunStartsOver(s: State, a: Id, spurious: bool)
    requires Inv(s) && Enabled(s, TryEnd(a, spurious)) && Do(s, TryEnd(a, spurious)).ended != s.ended
    ensures var others := s.(acts := s.acts - {a}); var s' := Do(s, TryEnd(a, spurious));
      s'.acts == if WithGuard in s.refusals then Do(others, PoolChanged(a)).acts else others.acts
  {
    assert (s.acts - {a})[a := TestSync] == s.acts[a := TestSync];
  }
}
