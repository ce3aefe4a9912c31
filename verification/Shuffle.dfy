/**
  A shuffle of the numbers below N, one number to a call. Instead of an array of N numbers it keeps a
  map of those places whose number is no longer their own index.
 */
module Shuffle {
  import opened Blocks

  // ----- the shuffle of an array --------------------------------------------

  /** Takes the number at a place away and fills the place with the last number. */
  ghost function Drawn(pool: seq<nat>, v: nat): (pool': seq<nat>)
    requires v < |pool|
    ensures |pool'| == |pool| - 1
    ensures forall i :: 0 <= i < |pool'| ==> pool'[i] == if i == v then pool[|pool| - 1] else pool[i]
  {
    var last := |pool| - 1;
    if v == last then pool[..last] else pool[..last][v := pool[last]]
  }

  /** One choice for each call, among the places left at that call. */
  ghost predicate AreChoices(choices: seq<nat>, n: nat) {
    |choices| <= n && forall k :: 0 <= k < |choices| ==> choices[k] < n - k
  }

  ghost function Outputs(pool: seq<nat>, choices: seq<nat>): (out: seq<nat>)
    requires AreChoices(choices, |pool|)
    ensures |out| == |choices|
    decreases choices
  {
    if choices == [] then [] else [pool[choices[0]]] + Outputs(Drawn(pool, choices[0]), choices[1..])
  }

  ghost function LeftOver(pool: seq<nat>, choices: seq<nat>): (rest: seq<nat>)
    requires AreChoices(choices, |pool|)
    ensures |rest| == |pool| - |choices|
    decreases choices
  {
    if choices == [] then pool else LeftOver(Drawn(pool, choices[0]), choices[1..])
  }

  ghost function Iota(n: nat): (s: seq<nat>)
    ensures |s| == n && forall i :: 0 <= i < n ==> s[i] == i
  {
    seq(n, i => i)
  }

  ghost predicate Distinct(s: seq<nat>) {
    forall i, j :: 0 <= i < j < |s| ==> s[i] != s[j]
  }

  // ----- what is drawn ------------------------------------------------------

  lemma DrawConserves(pool: seq<nat>, v: nat)
    requires v < |pool|
    ensures multiset{pool[v]} + multiset(Drawn(pool, v)) == multiset(pool)
  {
    var last := |pool| - 1;
    assert pool == pool[..last] + [pool[last]];
  }

  /** No number is lost and none is made up. */
  lemma {:induction false} OutputsConserve(pool: seq<nat>, choices: seq<nat>)
    requires AreChoices(choices, |pool|)
    ensures multiset(Outputs(pool, choices)) + multiset(LeftOver(pool, choices)) == multiset(pool)
    decreases choices
  {
    if choices != [] {
      var v := choices[0];
      DrawConserves(pool, v);
      OutputsConserve(Drawn(pool, v), choices[1..]);
      assert multiset(Outputs(pool, choices)) == multiset{pool[v]} + multiset(Outputs(Drawn(pool, v), choices[1..]));
    }
  }

  lemma DrawKeepsDistinct(pool: seq<nat>, v: nat)
    requires Distinct(pool) && v < |pool|
    ensures Distinct(Drawn(pool, v)) && pool[v] !in Drawn(pool, v)
    ensures forall x :: x in pool <==> x == pool[v] || x in Drawn(pool, v)
  {
    var pool', last := Drawn(pool, v), |pool| - 1;
    forall x | x in pool && x != pool[v] ensures x in pool' {
      var i :| 0 <= i < |pool| && pool[i] == x;
      assert pool'[if i == last then v else i] == x;
    }
  }

  /** From distinct numbers the outputs are distinct and among them. */
  lemma {:induction false} OutputsAreDistinct(pool: seq<nat>, choices: seq<nat>)
    requires Distinct(pool) && AreChoices(choices, |pool|)
    ensures Distinct(Outputs(pool, choices)) && Among(Outputs(pool, choices), pool)
    decreases choices
  {
    if choices != [] {
      DrawKeepsDistinct(pool, choices[0]);
      OutputsAreDistinct(Drawn(pool, choices[0]), choices[1..]);
    }
  }

  ghost predicate Among(out: seq<nat>, pool: seq<nat>) {
    forall x :: x in out ==> x in pool
  }

  lemma OutputsCons(pool: seq<nat>, v: nat, choices: seq<nat>)
    requires v < |pool| && AreChoices(choices, |pool| - 1)
    ensures AreChoices([v] + choices, |pool|)
    ensures Outputs(pool, [v] + choices) == [pool[v]] + Outputs(Drawn(pool, v), choices)
  {
    assert ([v] + choices)[1..] == choices;
  }

  /** Some choices lead to any list of distinct numbers in the pool. */
  lemma {:induction false} ChoicesFor(pool: seq<nat>, out: seq<nat>) returns (choices: seq<nat>)
    requires Distinct(pool) && Distinct(out) && Among(out, pool)
    ensures AreChoices(choices, |pool|) && Outputs(pool, choices) == out
    decreases out
  {
    if out == [] {
      choices := [];
    } else {
      assert out[0] in out && out[0] in pool;
      var v: nat :| v < |pool| && pool[v] == out[0];
      DrawKeepsDistinct(pool, v);
      assert Among(out[1..], Drawn(pool, v)) by {
        assert forall x :: x in out[1..] ==> x in out && x != out[0];
      }
      var more := ChoicesFor(Drawn(pool, v), out[1..]);
      choices := [v] + more;
      OutputsCons(pool, v, more);
      assert out == [out[0]] + out[1..];
    }
  }

  /** And no others do. */
  lemma {:induction false} ChoicesAreUnique(pool: seq<nat>, c: seq<nat>, d: seq<nat>)
    requires Distinct(pool) && AreChoices(c, |pool|) && AreChoices(d, |pool|)
    requires Outputs(pool, c) == Outputs(pool, d)
    ensures c == d
    decreases c
  {
    if c != [] {
      assert Outputs(pool, c)[0] == Outputs(pool, d)[0];
      DrawKeepsDistinct(pool, c[0]);
      assert Outputs(pool, c)[1..] == Outputs(pool, d)[1..];
      ChoicesAreUnique(Drawn(pool, c[0]), c[1..], d[1..]);
      assert c == [c[0]] + c[1..] && d == [d[0]] + d[1..];
    }
  }

  ghost predicate Gives(n: nat, choices: seq<nat>, out: seq<nat>) {
    AreChoices(choices, n) && Outputs(Iota(n), choices) == out
  }

  /**
    The possible outputs of k calls are exactly the lists of k distinct numbers below n, and each comes
    from exactly one list of choices: uniform choices give a uniform shuffle.
   */
  lemma EveryOrderOnce(n: nat, out: seq<nat>)
    ensures (exists c :: Gives(n, c, out)) <==> Distinct(out) && forall x :: x in out ==> x < n
    ensures forall c, d :: Gives(n, c, out) && Gives(n, d, out) ==> c == d
  {
    var pool := Iota(n);
    assert forall x :: 0 <= x < n ==> pool[x] == x;
    if Distinct(out) && forall x :: x in out ==> x < n {
      forall x | x in out ensures x in pool {
        assert pool[x] == x;
      }
      var c := ChoicesFor(pool, out);
      assert Gives(n, c, out);
    }
    forall c | Gives(n, c, out)
      ensures Distinct(out) && forall x :: x in out ==> x < n
    {
      OutputsAreDistinct(pool, c);
    }
    forall c, d | Gives(n, c, out) && Gives(n, d, out)
      ensures c == d
    {
      ChoicesAreUnique(pool, c, d);
    }
  }

  /** After n calls every number below n has come exactly once. */
  lemma AllCallsGiveAPermutation(n: nat, choices: seq<nat>)
    requires AreChoices(choices, n) && |choices| == n
    ensures multiset(Outputs(Iota(n), choices)) == multiset(Iota(n))
  {
    OutputsConserve(Iota(n), choices);
    assert LeftOver(Iota(n), choices) == [];
  }

  // ----- the generator ------------------------------------------------------

  /** The number at a place: its own index unless the map says otherwise. */
  function At(selected: map<nat, nat>, i: nat): nat {
    if i in selected then selected[i] else i
  }

  class ShuffleGenerator {
    const N: nat
    var count: nat
    var selected: map<nat, nat>

    /** The array that the map stands for. Places from `count` on are not part of it. */
    ghost function Contents(): (pool: seq<nat>)
      reads this
      ensures |pool| == count && forall i :: 0 <= i < count ==> pool[i] == At(selected, i)
    {
      var places := selected;
      seq(count, (i: nat) => At(places, i))
    }

    constructor (n: nat)
      ensures N == n && Contents() == Iota(n)
    {
      N := n;
      count := n;
      selected := map[];
    }

    /** `choice` is what the random distribution gives: a place below `count`, if there is one. */
    method Next(choice: nat) returns (r: Option<nat>)
      requires count > 0 ==> choice < count
      modifies this
      ensures old(count) == 0 ==> r == None && Contents() == old(Contents())
      ensures old(count) > 0 ==> r == Some(old(Contents())[choice]) && Contents() == Drawn(old(Contents()), choice)
    {
      if count == 0 {
        return None;
      }
      count := count - 1;
      var value := choice;
      var rval := if count in selected then selected[count] else count;
      if value in selected {
        selected, value := selected[value := rval], selected[value];
      } else {
        selected := selected[value := rval];
      }
      return Some(value);
    }

    method Reset()
      modifies this
      ensures Contents() == Iota(N)
    {
      count := N;
      selected := map[];
    }
  }

  /** Part of the choices are used up, and the rest leads on from the pool that is left. */
  ghost predicate Midway(pool: seq<nat>, out: seq<nat>, choices: seq<nat>, all: seq<nat>) {
    AreChoices(choices, |pool|) && out + Outputs(pool, choices) == all
  }

  lemma MidwayMovesOn(pool: seq<nat>, out: seq<nat>, choices: seq<nat>, all: seq<nat>)
    requires Midway(pool, out, choices, all) && choices != []
    ensures choices[0] < |pool|
    ensures Midway(Drawn(pool, choices[0]), out + [pool[choices[0]]], choices[1..], all)
  {
  }

  /** As many calls as there are choices. */
  method Shuffle(n: nat, choices: seq<nat>) returns (out: seq<nat>)
    requires AreChoices(choices, n)
    ensures out == Outputs(Iota(n), choices)
  {
    var generator := new ShuffleGenerator(n);
    out := [];
    assert choices[0..] == choices;
    for k := 0 to |choices|
      invariant generator.count == n - k
      invariant Midway(generator.Contents(), out, choices[k..], Outputs(Iota(n), choices))
    {
      MidwayMovesOn(generator.Contents(), out, choices[k..], Outputs(Iota(n), choices));
      assert choices[k..][1..] == choices[k + 1..];
      var x := generator.Next(choices[k]);
      out := out + [x.value];
    }
  }
}
