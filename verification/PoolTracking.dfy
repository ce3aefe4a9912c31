/** What the known pool and the observers' view of it are, over whole runs of `PoolUpdate`. */
module PoolTracking {
  import opened PoolUpdate

  /** The pool as an observer that started with nothing and applied every notification sees it. */
  function Seen(told: seq<Notification>): set<Hash> {
    if told == [] then {}
    else Apply(Seen(told[..|told|-1]), told[|told|-1].added, told[|told|-1].gone)
  }

  function Apply(view: set<Hash>, added: seq<Hash>, gone: seq<Hash>): set<Hash> {
    view + Elements(added) - Elements(gone)
  }

  /** The observers lag behind `known` only by the update whose details are awaited. */
  ghost predicate ObserversFollow(known: set<Hash>, acts: map<Id, Activity>, view: set<Hash>) {
    && (forall a :: a in acts && acts[a].AwaitDetails? ==> known == Apply(view, acts[a].added, acts[a].gone))
    && ((forall a :: a in acts ==> !acts[a].AwaitDetails?) ==> known == view)
  }

  // ----- following the pool -------------------------------------------------

  ghost predicate NoDuplicates<X>(s: seq<X>) {
    forall i, j :: 0 <= i < j < |s| ==> s[i] != s[j]
  }

  lemma {:induction false} AddedByIsExact(known: set<Hash>, novel: seq<Hash>)
    ensures Elements(AddedBy(known, novel)) == Elements(novel) - known
    ensures NoDuplicates(AddedBy(known, novel))
  {
    if novel != [] {
      var before, h := novel[..|novel|-1], novel[|novel|-1];
      AddedByIsExact(known, before);
      assert novel == before + [h];
      assert Elements(novel) == Elements(before) + {h};
      var added := AddedBy(known, before);
      assert added + [] == added;
      assert h in added <==> h in Elements(added);
      assert Elements(added + [h]) == Elements(added) + {h};
    }
  }

  lemma {:induction false} GoneByIsExact(known: set<Hash>, removed: seq<Hash>)
    ensures Elements(GoneBy(known, removed)) == Elements(removed) * known
    ensures NoDuplicates(GoneBy(known, removed))
  {
    if removed != [] {
      var before, h := removed[..|removed|-1], removed[|removed|-1];
      GoneByIsExact(known, before);
      assert removed == before + [h];
      assert Elements(removed) == Elements(before) + {h};
      var gone := GoneBy(known, before);
      assert gone + [] == gone;
      assert h in gone <==> h in Elements(gone);
      assert Elements(gone + [h]) == Elements(gone) + {h};
    }
  }

  /** What is new is listed in the order of the answer, and what was listed before is no longer new. */
  lemma {:induction false} AddedByConcat(known: set<Hash>, first: seq<Hash>, second: seq<Hash>)
    ensures AddedBy(known, first + second) == AddedBy(known, first) + AddedBy(known + Elements(first), second)
    ensures forall h :: AddedBy(known, [h]) == if h in known then [] else [h]
    decreases second
  {
    forall h: Hash ensures AddedBy(known, [h]) == if h in known then [] else [h] { assert [h][..0] == []; }
    if second == [] {
      assert first + [] == first;
    } else {
      var before, h := second[..|second|-1], second[|second|-1];
      AddedByConcat(known, first, before);
      assert (first + second)[..|first + second|-1] == first + before;
    }
  }

  lemma {:induction false} GoneByConcat(known: set<Hash>, first: seq<Hash>, second: seq<Hash>)
    ensures GoneBy(known, first + second) == GoneBy(known, first) + GoneBy(known - Elements(first), second)
    ensures forall h :: GoneBy(known, [h]) == if h in known then [h] else []
    decreases second
  {
    forall h: Hash ensures GoneBy(known, [h]) == if h in known then [h] else [] { assert [h][..0] == []; }
    if second == [] {
      assert first + [] == first;
    } else {
      var before, h := second[..|second|-1], second[|second|-1];
      GoneByConcat(known, first, before);
      assert (first + second)[..|first + second|-1] == first + before;
    }
  }

  /** The node answers with what its pool has beyond the snapshot, and what it lacks of it. */
  ghost predicate Truthful(s: State, a: Id, novel: seq<Hash>, removed: seq<Hash>)
    requires a in s.acts && s.acts[a].AwaitDifference?
  {
    && Elements(novel) == s.pool - s.acts[a].snapshot
    && Elements(removed) == s.acts[a].snapshot - s.pool
  }

  /**
    A truthful answer, whenever it comes, makes the known pool equal to the node's pool at that
    moment; what will be reported is free of duplicates and is exactly the change.
   */
  lemma {:induction false} TrackingIsExact(pool: set<Hash>, steps: seq<Step>, s: State, a: Id,
                                                   novel: seq<Hash>, removed: seq<Hash>)
    requires IsRun(Initial(pool), steps, s)
    requires a in s.acts && s.acts[a].AwaitDifference? && Truthful(s, a, novel, removed)
    ensures var s' := Do(s, Difference(a, Answered(novel), removed));
            && s'.known == s.pool
            && NoDuplicates(s'.acts[a].added) && Elements(s'.acts[a].added) == s.pool - s.known
            && NoDuplicates(s'.acts[a].gone) && Elements(s'.acts[a].gone) == s.known - s.pool
  {
    RunKeepsInv(Initial(pool), steps, s);
    AddedByIsExact(s.known, novel);
    GoneByIsExact(s.known + Elements(novel), removed);
  }

  /** The known pool and the observers' view of it after a number of differences. */
  function KnownAfter(history: seq<Diff>): set<Hash> {
    if history == [] then {}
    else
      var d := history[|history|-1];
      Apply(KnownAfter(history[..|history|-1]), d.added, d.gone)
  }

  function ViewAfter(history: seq<Diff>): set<Hash> {
    if history == [] then {}
    else
      var d, view := history[|history|-1], ViewAfter(history[..|history|-1]);
      if d.told then Apply(view, d.added, d.gone) else view
  }

  /** What is added was not there, and what goes was there or has just been added. */
  ghost predicate Proper(known: set<Hash>, added: seq<Hash>, gone: seq<Hash>) {
    Elements(added) !! known && Elements(gone) <= known + Elements(added)
  }

  ghost predicate ProperHistory(history: seq<Diff>) {
    history == [] ||
    (var before, d := history[..|history|-1], history[|history|-1];
     ProperHistory(before) && Proper(KnownAfter(before), d.added, d.gone))
  }

  ghost predicate AwaitsDetails(acts: map<Id, Activity>) {
    exists a :: a in acts && acts[a].AwaitDetails?
  }

  /** `known` is what the history leads to, less the one difference whose details are awaited. */
  ghost predicate HistoryLeadsTo(history: seq<Diff>, acts: map<Id, Activity>, known: set<Hash>) {
    && ProperHistory(history)
    && (forall a :: a in acts && acts[a].AwaitDetails? ==>
         && Proper(KnownAfter(history), acts[a].added, acts[a].gone)
         && known == Apply(KnownAfter(history), acts[a].added, acts[a].gone))
    && (!AwaitsDetails(acts) ==> known == KnownAfter(history))
  }

  ghost predicate Followed(s: State) {
    HistoryLeadsTo(s.history, s.acts, s.known) && (s.honest ==> Seen(s.told) == ViewAfter(s.history))
  }

  lemma LearnIsProper(known: set<Hash>, novel: seq<Hash>, removed: seq<Hash>)
    ensures var added, gone := AddedBy(known, novel), GoneBy(known + Elements(novel), removed);
            Proper(known, added, gone) && Apply(known, added, gone) == known + Elements(novel) - Elements(removed)
  {
    AddedByIsExact(known, novel);
    GoneByIsExact(known + Elements(novel), removed);
  }

  lemma {:induction false} LearnIsFollowed(s: State, a: Id, novel: seq<Hash>, removed: seq<Hash>)
    requires Inv(s) && Followed(s) && a in s.acts && s.acts[a].AwaitDifference?
    ensures Followed(Learn(s, a, novel, removed))
  {
    var s' := Learn(s, a, novel, removed);
    LearnIsProper(s.known, novel, removed);
    assert forall b :: b in s.acts && b != a ==> !Owns(s.acts[b]);
    assert s'.acts[a].AwaitDetails?;
  }

  lemma AppendDiff(history: seq<Diff>, d: Diff)
    ensures KnownAfter(history + [d]) == Apply(KnownAfter(history), d.added, d.gone)
    ensures ViewAfter(history + [d]) ==
            if d.told then Apply(ViewAfter(history), d.added, d.gone) else ViewAfter(history)
    ensures ProperHistory(history + [d]) <==> ProperHistory(history) && Proper(KnownAfter(history), d.added, d.gone)
  {
    assert (history + [d])[..|history|] == history;
  }

  /** One more difference, told or lost, and no details awaited any more. */
  lemma DiffIsFollowed(s: State, d: Diff, s': State)
    requires HistoryLeadsTo(s.history, s.acts, s.known) && (s.honest ==> Seen(s.told) == ViewAfter(s.history))
    requires exists a :: a in s.acts && s.acts[a].AwaitDetails?
                         && s.acts[a].added == d.added && s.acts[a].gone == d.gone
    requires s'.known == s.known && s'.history == s.history + [d] && !AwaitsDetails(s'.acts)
    requires s'.honest ==> s.honest && Seen(s'.told) == ViewAfter(s'.history)
    ensures Followed(s')
  {
    AppendDiff(s.history, d);
  }

  /** What observers are told adds the same to their view as the difference does. */
  lemma ToldMatches(told: seq<Notification>, history: seq<Diff>, details: seq<Hash>, added: seq<Hash>, gone: seq<Hash>)
    requires Seen(told) == ViewAfter(history) && Elements(details) == Elements(added)
    ensures Seen(Noted(told, details, gone)) == ViewAfter(history + [Diff(added, gone, true)])
  {
    AppendDiff(history, Diff(added, gone, true));
    ToldIsSeen(told, details, gone);
  }

  lemma OwnerAlone(s: State, a: Id, s': State)
    requires Inv(s) && a in s.acts && s.acts[a].AwaitDetails?
    requires s'.acts == s.acts[a := LoadToEnd]
    ensures !AwaitsDetails(s'.acts)
  {
    assert forall b :: b in s.acts && b != a ==> !Owns(s.acts[b]);
  }

  /** Details arrive, or fail to: the difference is told, or lost. */
  lemma {:induction false} DetailsAreFollowed(s: State, a: Id, answer: Answer)
    requires Inv(s) && Followed(s) && Enabled(s, Details(a, answer))
    ensures Followed(Do(s, Details(a, answer)))
  {
    var s', d := Do(s, Details(a, answer)), Diff(s.acts[a].added, s.acts[a].gone, answer.Answered?);
    OwnerAlone(s, a, s');
    if answer.Failed? {
      AppendDiff(s.history, d);
    } else if s'.honest {
      ToldMatches(s.told, s.history, answer.hashes, d.added, d.gone);
    }
    DiffIsFollowed(s, d, s');
  }

  function Noted(told: seq<Notification>, details: seq<Hash>, gone: seq<Hash>): seq<Notification> {
    if details == [] && gone == [] then told else told + [Notification(details, gone)]
  }

  lemma ToldIsSeen(told: seq<Notification>, details: seq<Hash>, gone: seq<Hash>)
    ensures Seen(Noted(told, details, gone)) == Apply(Seen(told), details, gone)
  {
    if details == [] && gone == [] {
      assert Apply(Seen(told), details, gone) == Seen(told);
    } else {
      assert (told + [Notification(details, gone)])[..|told|] == told;
    }
  }

  lemma {:induction false} GoIsFollowed(s: State, s': State, a: Id)
    requires Followed(s) && ChangesLittle(s, s', a)
    ensures Followed(s')
  {
    if AwaitsDetails(s.acts) {
      var b :| b in s.acts && s.acts[b].AwaitDetails?;
      assert b in s'.acts && s'.acts[b].AwaitDetails?;
    }
  }

  lemma {:induction false} StepIsFollowed(s: State, step: Step)
    requires Inv(s) && Followed(s) && Enabled(s, step)
    ensures Followed(Do(s, step))
  {
    match step
    case Difference(a, answer, removed) =>
      if answer.Failed? { GoIsFollowed(s, Do(s, step), a); } else { LearnIsFollowed(s, a, answer.hashes, removed); }
    case Details(a, answer) => DetailsAreFollowed(s, a, answer);
    case SetSync(_) =>
    case SetObservers(_) =>
    case SetPool(_) =>
    case _ => QuietStepIsFollowed(s, step);
  }

  /** The steps that neither learn a difference nor receive details. */
  predicate IsQuiet(step: Step) {
    !step.Difference? && !step.Details? && !step.SetSync? && !step.SetObservers? && !step.SetPool?
  }

  ghost predicate OnlyChanges(a: Id, acts: map<Id, Activity>, acts': map<Id, Activity>) {
    && (forall b :: b != a ==> (b in acts' <==> b in acts) && (b in acts ==> acts'[b] == acts[b]))
    && (a in acts ==> !acts[a].AwaitDetails?) && (a in acts' ==> !acts'[a].AwaitDetails?)
  }

  /** A change of one activity that neither enters nor leaves the wait for details. */
  ghost predicate ChangesLittle(s: State, s': State, a: Id) {
    && s'.known == s.known && s'.told == s.told && s'.history == s.history && s'.honest == s.honest
    && OnlyChanges(a, s.acts, s'.acts)
  }

  lemma LookAgainChangesLittle(s: State, a: Id)
    requires a in s.acts && !s.acts[a].AwaitDetails?
    ensures ChangesLittle(s, LookAgain(s, a), a) && ChangesLittle(s, Refuse(s, a), a)
  {
  }

  lemma {:induction false} QuietStepChangesLittle(s: State, step: Step)
    requires Enabled(s, step) && IsQuiet(step)
    ensures ChangesLittle(s, Do(s, step), step.a)
  {
    match step
    case Load(a) => LookAgainChangesLittle(s, a);
    case TryBegin(a, _) => LookAgainChangesLittle(s, a);
    case _ =>
  }

  lemma {:induction false} QuietStepIsFollowed(s: State, step: Step)
    requires Followed(s) && Enabled(s, step) && IsQuiet(step)
    ensures Followed(Do(s, step))
  {
    QuietStepChangesLittle(s, step);
    GoIsFollowed(s, Do(s, step), step.a);
  }

  lemma {:induction false} RunIsFollowed(s: State, steps: seq<Step>, s': State)
    requires Inv(s) && Followed(s) && IsRun(s, steps, s')
    ensures Followed(s')
    decreases |steps|
  {
    if steps != [] {
      StepKeepsInv(s, steps[0]);
      StepIsFollowed(s, steps[0]);
      RunIsFollowed(Do(s, steps[0]), steps[1..], s');
    }
  }

  ghost predicate AllTold(history: seq<Diff>) {
    forall i :: 0 <= i < |history| ==> history[i].told
  }

  lemma {:induction false} AllToldIsSeen(history: seq<Diff>)
    requires AllTold(history)
    ensures ViewAfter(history) == KnownAfter(history)
  {
    if history != [] { AllToldIsSeen(history[..|history|-1]); }
  }

  /**
    As long as every question for details was answered with the transactions asked for, applying all
    notifications in order gives the known pool, less the one update still waiting for its details.
   */
  lemma {:induction false} ObserversSeeThePool(pool: set<Hash>, steps: seq<Step>, s: State)
    requires IsRun(Initial(pool), steps, s) && s.honest && AllTold(s.history)
    ensures ObserversFollow(s.known, s.acts, Seen(s.told))
  {
    RunIsFollowed(Initial(pool), steps, s);
    AllToldIsSeen(s.history);
  }

  /**
    A failed second question loses its update: up-to-date observers stay up to date if and only
    if the truthful difference was empty, that is, the pool had not changed.
   */
  lemma {:induction false} FailedDetailsLoseTheUpdate(s: State, a: Id, novel: seq<Hash>, removed: seq<Hash>)
    requires Inv(s) && s.known == Seen(s.told)
    requires a in s.acts && s.acts[a].AwaitDifference? && Truthful(s, a, novel, removed)
    ensures var s' := Do(Do(s, Difference(a, Answered(novel), removed)), Details(a, Failed));
            s'.known == Seen(s'.told) <==> s.pool == s.known
  {
    AddedByIsExact(s.known, novel);
    GoneByIsExact(s.known + Elements(novel), removed);
    assert s.known + (s.pool - s.known) - (s.known - s.pool) == s.pool;
  }

  // ----- what observers miss, transaction by transaction --------------------

  predicate Mentions(d: Diff, h: Hash) {
    h in d.added || h in d.gone
  }

  /** Added and removed at once leaves a transaction out as before. */
  predicate Changes(d: Diff, h: Hash) {
    (h in d.added) != (h in d.gone)
  }

  /** How many lost differences changed `h` since observers were last told of it. */
  function LostSince(history: seq<Diff>, h: Hash): nat {
    if history == [] then 0
    else
      var d, before := history[|history|-1], LostSince(history[..|history|-1], h);
      if d.told && Mentions(d, h) then 0
      else if !d.told && Changes(d, h) then before + 1
      else before
  }

  lemma {:induction false} ViewAgreesIff(history: seq<Diff>, h: Hash)
    requires ProperHistory(history)
    ensures (h in ViewAfter(history) <==> h in KnownAfter(history)) <==> LostSince(history, h) % 2 == 0
  {
    if history != [] {
      var before, d := history[..|history|-1], history[|history|-1];
      ViewAgreesIff(before, h);
      assert h in Elements(d.added) <==> h in d.added;
      assert h in Elements(d.gone) <==> h in d.gone;
    }
  }

  /**
    With no details awaited, observers are right about a transaction exactly if an even number of lost
    differences changed it since they were last told of it.
   */
  lemma {:induction false} ObserversAgreeIff(pool: set<Hash>, steps: seq<Step>, s: State, h: Hash)
    requires IsRun(Initial(pool), steps, s) && s.honest && !AwaitsDetails(s.acts)
    ensures (h in Seen(s.told) <==> h in s.known) <==> LostSince(s.history, h) % 2 == 0
  {
    RunIsFollowed(Initial(pool), steps, s);
    ViewAgreesIff(s.history, h);
  }

  // ----- whole updates ------------------------------------------------------

  lemma {:induction false} RunAppend(s: State, steps: seq<Step>, s': State, step: Step)
    requires IsRun(s, steps, s') && Enabled(s', step)
    ensures IsRun(s, steps + [step], Do(s', step))
    decreases |steps|
  {
    if steps == [] {
      assert (steps + [step])[1..] == [];
    } else {
      assert (steps + [step])[1..] == steps[1..] + [step];
      RunAppend(Do(s, steps[0]), steps[1..], s', step);
    }
  }

  /** Nothing is under way, and somebody is to be told. */
  predicate Idle(s: State) {
    s.acts == map[] && s.guard == NoUpdate && s.synchronized && s.observers > 0
  }

  /** The fields that concern tracking. */
  predicate Tracks(s: State, known: set<Hash>, pool: set<Hash>, history: seq<Diff>, told: seq<Notification>) {
    s.known == known && s.pool == pool && s.history == history && s.told == told && s.honest
  }

  /** A notification taken as far as the question for the difference. */
  lemma ReachesQuestion(s0: State, steps0: seq<Step>, s: State, a: Id) returns (steps: seq<Step>, s': State)
    requires IsRun(s0, steps0, s) && Idle(s) && s.honest
    ensures IsRun(s0, steps, s') && Tracks(s', s.known, s.pool, s.history, s.told)
    ensures s'.acts == map[a := AwaitDifference(s.known)] && s'.guard == Updating && s'.synchronized && s'.observers > 0
  {
    RunAppend(s0, steps0, s, PoolChanged(a));
    var s1 := Do(s, PoolChanged(a));
    RunAppend(s0, steps0 + [PoolChanged(a)], s1, ReadSync(a));
    var s2, steps2 := Do(s1, ReadSync(a)), steps0 + [PoolChanged(a)] + [ReadSync(a)];
    RunAppend(s0, steps2, s2, ReadObservers(a));
    var s3, steps3 := Do(s2, ReadObservers(a)), steps2 + [ReadObservers(a)];
    RunAppend(s0, steps3, s3, Load(a));
    var s4, steps4 := Do(s3, Load(a)), steps3 + [Load(a)];
    RunAppend(s0, steps4, s4, TryBegin(a, false));
    var s5, steps5 := Do(s4, TryBegin(a, false)), steps4 + [TryBegin(a, false)];
    RunAppend(s0, steps5, s5, Ask(a));
    steps, s' := steps5 + [Ask(a)], Do(s5, Ask(a));
  }

  /** And from there to its end. */
  lemma ReachesEnd(s0: State, steps0: seq<Step>, s: State, a: Id, novel: seq<Hash>, removed: seq<Hash>, answer: Answer)
    returns (steps: seq<Step>, s': State)
    requires IsRun(s0, steps0, s) && s.acts == map[a := AwaitDifference(s.known)] && s.guard == Updating
    requires s.synchronized && s.observers > 0 && s.honest
    requires answer.Answered? ==> answer.hashes == AddedBy(s.known, novel)
    ensures var added, gone := AddedBy(s.known, novel), GoneBy(s.known + Elements(novel), removed);
            && IsRun(s0, steps, s') && Idle(s')
            && Tracks(s', s.known + Elements(novel) - Elements(removed), s.pool,
                      s.history + [Diff(added, gone, answer.Answered?)],
                      if answer.Failed? || (added == [] && gone == []) then s.told
                      else s.told + [Notification(added, gone)])
  {
    var reply := Difference(a, Answered(novel), removed);
    RunAppend(s0, steps0, s, reply);
    var s1, steps1 := Do(s, reply), steps0 + [reply];
    RunAppend(s0, steps1, s1, Details(a, answer));
    var s2, steps2 := Do(s1, Details(a, answer)), steps1 + [Details(a, answer)];
    RunAppend(s0, steps2, s2, Load(a));
    var s3, steps3 := Do(s2, Load(a)), steps2 + [Load(a)];
    RunAppend(s0, steps3, s3, TryEnd(a, false));
    steps, s' := steps3 + [TryEnd(a, false)], Do(s3, TryEnd(a, false));
  }

  /** A run that ends with nothing under way. */
  lemma StartsIdle(pool: set<Hash>) returns (steps: seq<Step>, s: State)
    ensures IsRun(Initial(pool), steps, s) && Idle(s) && Tracks(s, {}, pool, [], [])
  {
    RunAppend(Initial(pool), [], Initial(pool), SetSync(true));
    var s1 := Do(Initial(pool), SetSync(true));
    RunAppend(Initial(pool), [] + [SetSync(true)], s1, SetObservers(1));
    steps, s := [] + [SetSync(true)] + [SetObservers(1)], Do(s1, SetObservers(1));
  }

  /** Some runs lose an update: a transaction enters the pool, is known, and observers never hear of it. */
  lemma SomeRunLosesAnUpdate(h: Hash) returns (steps: seq<Step>, s: State)
    ensures IsRun(Initial({h}), steps, s) && Idle(s)
    ensures Tracks(s, {h}, {h}, [Diff([h], [], false)], []) && Seen(s.told) == {}
  {
    steps, s := StartsIdle({h});
    steps, s := ReachesQuestion(Initial({h}), steps, s, 0);
    OneNew({}, h);
    steps, s := ReachesEnd(Initial({h}), steps, s, 0, [h], [], Failed);
  }

  lemma OneNew(known: set<Hash>, h: Hash)
    requires h !in known
    ensures AddedBy(known, [h]) == [h] && Elements([h]) == {h}
  {
    assert [h][..0] == [];
  }

  /** And some make up for it: when it leaves again and observers are told, they are right once more. */
  lemma SomeRunMakesUpForIt(h: Hash) returns (steps: seq<Step>, s: State)
    ensures IsRun(Initial({h}), steps, s) && Idle(s)
    ensures Tracks(s, {}, {}, [Diff([h], [], false), Diff([], [h], true)], [Notification([], [h])])
    ensures Seen(s.told) == s.known
  {
    steps, s := SomeRunLosesAnUpdate(h);
    RunAppend(Initial({h}), steps, s, SetPool({}));
    steps, s := steps + [SetPool({})], Do(s, SetPool({}));
    steps, s := ReachesQuestion(Initial({h}), steps, s, 0);
    OneGone({h}, h);
    steps, s := ReachesEnd(Initial({h}), steps, s, 0, [], [h], Answered([]));
    assert [Diff([h], [], false)] + [Diff([], [h], true)] == [Diff([h], [], false), Diff([], [h], true)];
    assert [] + [Notification([], [h])] == [Notification([], [h])];
    assert [Notification([], [h])][..0] == [];
  }

  lemma OneGone(known: set<Hash>, h: Hash)
    requires h in known
    ensures GoneBy(known + Elements([]), [h]) == [h] && AddedBy(known, []) == []
    ensures Elements([h]) == {h} && Elements<Hash>([]) == {}
  {
    assert [h][..0] == [];
  }

  // ----- the explorer's own loops -------------------------------------------

  class Explorer {
    var knownPoolState: set<Hash>

    constructor ()
      ensures knownPoolState == {}
    {
      knownPoolState := {};
    }

    /** The first callback: inserts the new hashes, erases the removed ones, and lists what changed. */
    method ApplyDifference(novel: seq<Hash>, removed: seq<Hash>) returns (added: seq<Hash>, gone: seq<Hash>)
      modifies this
      ensures knownPoolState == old(knownPoolState) + Elements(novel) - Elements(removed)
      ensures added == AddedBy(old(knownPoolState), novel)
      ensures gone == GoneBy(old(knownPoolState) + Elements(novel), removed)
      ensures NoDuplicates(added) && NoDuplicates(gone)
      ensures knownPoolState == Apply(old(knownPoolState), added, gone)
    {
      ghost var before := knownPoolState;
      added := [];
      for i := 0 to |novel|
        invariant knownPoolState == before + Elements(novel[..i])
        invariant added == AddedBy(before, novel[..i])
      {
        assert novel[..i + 1][..i] == novel[..i];
        assert Elements(novel[..i + 1]) == Elements(novel[..i]) + {novel[i]};
        var inserted := novel[i] !in knownPoolState;
        knownPoolState := knownPoolState + {novel[i]};
        if inserted {
          added := added + [novel[i]];
        }
      }
      assert novel[..|novel|] == novel;
      ghost var between := knownPoolState;
      gone := [];
      for i := 0 to |removed|
        invariant knownPoolState == between - Elements(removed[..i])
        invariant gone == GoneBy(between, removed[..i])
      {
        assert removed[..i + 1][..i] == removed[..i];
        assert Elements(removed[..i + 1]) == Elements(removed[..i]) + {removed[i]};
        if removed[i] in knownPoolState {
          gone := gone + [removed[i]];
          knownPoolState := knownPoolState - {removed[i]};
        }
      }
      assert removed[..|removed|] == removed;
      AddedByIsExact(before, novel);
      GoneByIsExact(between, removed);
    }
  }
}
