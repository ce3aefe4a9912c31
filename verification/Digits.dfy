/** Positional notation with the most significant digit first, and powers of a base. */
module Digits {

  function Pow(b: nat, n: nat): (p: nat)
    ensures b > 0 ==> p > 0
  {
    if n == 0 then 1 else b * Pow(b, n - 1)
  }

  ghost predicate AreDigits(b: nat, ds: seq<nat>) {
    forall i :: 0 <= i < |ds| ==> ds[i] < b
  }

  function Value(b: nat, ds: seq<nat>): nat {
    if ds == [] then 0 else Value(b, ds[..|ds|-1]) * b + ds[|ds|-1]
  }

  lemma MulGrows(x: nat, y: nat, c: nat)
    requires x <= y
    ensures x * c <= y * c
  {
  }

  predicate IsDivMod(v: nat, b: nat, q: nat, r: nat) {
    v == q * b + r && r < b
  }

  /** Quotient and remainder, by what defines them. */
  ghost function DivMod(v: nat, b: nat): (qr: (nat, nat))
    requires b > 0
    ensures IsDivMod(v, b, qr.0, qr.1)
  {
    assert IsDivMod(v, b, v / b, v % b);
    var q: nat, r: nat :| IsDivMod(v, b, q, r);
    (q, r)
  }

  lemma {:induction false} DivModIsUnique(b: nat, q: nat, r: nat, q': nat, r': nat)
    requires r < b && r' < b && q * b + r == q' * b + r'
    ensures q == q' && r == r'
  {
    if q < q' { MulGrows(q + 1, q', b); }
    if q' < q { MulGrows(q' + 1, q, b); }
  }

  /** The last `n` digits of `v`. */
  ghost function ToDigits(b: nat, v: nat, n: nat): (ds: seq<nat>)
    requires b > 0
    ensures |ds| == n && AreDigits(b, ds)
  {
    if n == 0 then []
    else
      var (q, r) := DivMod(v, b);
      ToDigits(b, q, n - 1) + [r]
  }

  lemma {:induction false} ValueIsBounded(b: nat, ds: seq<nat>)
    requires b > 0 && AreDigits(b, ds)
    ensures Value(b, ds) < Pow(b, |ds|)
  {
    if ds != [] {
      var high := ds[..|ds|-1];
      ValueIsBounded(b, high);
      OneMoreDigit(b, Value(b, high), Pow(b, |high|), ds[|ds|-1]);
    }
  }

  lemma {:induction false} OneMoreDigit(b: nat, high: nat, p: nat, low: nat)
    requires high < p && low < b
    ensures high * b + low < b * p
  {
    MulGrows(high + 1, p, b);
  }

  lemma QuotientIsBounded(b: nat, v: nat, p: nat)
    requires b > 0 && v < b * p
    ensures DivMod(v, b).0 < p
  {
    var (q, r) := DivMod(v, b);
    if p <= q {
      MulGrows(p, q, b);
      assert false;
    }
  }

  lemma ValueOfAppend(b: nat, ds: seq<nat>, d: nat)
    ensures Value(b, ds + [d]) == Value(b, ds) * b + d
  {
    assert (ds + [d])[..|ds|] == ds;
  }

  lemma {:induction false} ValueOfDigits(b: nat, v: nat, n: nat)
    requires b > 0 && v < Pow(b, n)
    ensures Value(b, ToDigits(b, v, n)) == v
  {
    if n > 0 {
      var (q, r) := DivMod(v, b);
      QuotientIsBounded(b, v, Pow(b, n - 1));
      ValueOfDigits(b, q, n - 1);
      ValueOfAppend(b, ToDigits(b, q, n - 1), r);
    }
  }

  lemma {:induction false} DigitsOfValue(b: nat, ds: seq<nat>)
    requires b > 0 && AreDigits(b, ds)
    ensures ToDigits(b, Value(b, ds), |ds|) == ds
  {
    if ds != [] {
      var high, low := ds[..|ds|-1], ds[|ds|-1];
      DigitsOfValue(b, high);
      var (q, r) := DivMod(Value(b, ds), b);
      DivModIsUnique(b, Value(b, high), low, q, r);
      assert ds == high + [low];
    }
  }

  lemma MulAssociates(x: nat, y: nat, z: nat)
    ensures (x * y) * z == x * (y * z)
  {
  }

  lemma ShiftIn(x: nat, p: nat, y: nat, b: nat, d: nat)
    ensures (x * p + y) * b + d == x * (b * p) + (y * b + d)
  {
    MulAssociates(x, p, b);
  }

  /** Splitting a numeral in two. */
  lemma {:induction false} ValueOfConcat(b: nat, xs: seq<nat>, ys: seq<nat>)
    ensures Value(b, xs + ys) == Value(b, xs) * Pow(b, |ys|) + Value(b, ys)
    decreases |ys|
  {
    if ys == [] {
      assert xs + ys == xs;
    } else {
      var ys', d := ys[..|ys|-1], ys[|ys|-1];
      ValueOfConcat(b, xs, ys');
      assert (xs + ys)[..|xs + ys| - 1] == xs + ys';
      ShiftIn(Value(b, xs), Pow(b, |ys'|), Value(b, ys'), b, d);
    }
  }

  lemma {:induction false} ValueCons(b: nat, d: nat, ds: seq<nat>)
    ensures Value(b, [d] + ds) == d * Pow(b, |ds|) + Value(b, ds)
    decreases |ds|
  {
    if ds == [] {
      assert [d] + ds == [] + [d];
      ValueOfAppend(b, [], d);
    } else {
      var ds', x := ds[..|ds|-1], ds[|ds|-1];
      ValueCons(b, d, ds');
      assert [d] + ds == ([d] + ds') + [x];
      ValueOfAppend(b, [d] + ds', x);
      ShiftIn(d, Pow(b, |ds'|), Value(b, ds'), b, x);
    }
  }

  /** Dropping leading digits does not make a number larger. */
  lemma {:induction false} ValueOfSuffix(b: nat, ds: seq<nat>, i: nat)
    requires i <= |ds|
    ensures Value(b, ds[i..]) <= Value(b, ds)
    decreases i
  {
    if i == 0 {
      assert ds[i..] == ds;
    } else {
      ValueOfSuffix(b, ds, i - 1);
      assert ds[i - 1..] == [ds[i - 1]] + ds[i..];
      ValueCons(b, ds[i - 1], ds[i..]);
    }
  }

  lemma {:induction false} PowSum(b: nat, m: nat, n: nat)
    ensures Pow(b, m + n) == Pow(b, m) * Pow(b, n)
    decreases m
  {
    if m > 0 {
      PowSum(b, m - 1, n);
      MulAssociates(b, Pow(b, m - 1), Pow(b, n));
    }
  }

  lemma {:induction false} PowGrows(b: nat, m: nat, n: nat)
    requires b > 0 && m <= n
    ensures Pow(b, m) <= Pow(b, n)
    decreases n
  {
    if m < n {
      PowGrows(b, m, n - 1);
      MulGrows(1, b, Pow(b, n - 1));
    }
  }
}
