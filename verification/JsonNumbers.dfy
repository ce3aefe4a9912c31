/** Which numbers the reader of `Json` accepts, and what it makes of them. */
module JsonNumbers {
  import opened Digits
  import opened Json
  import opened JsonGrammar

  /** An integer is read as what it denotes exactly if that is in range, and otherwise as the nearest one that is. */
  lemma IntegerIsExactIff(t: string, rest: string)
    requires IsInteger(t) && EndsNumber(rest)
    ensures var d := Denoted(t);
            && (ReadValue(t + rest) == Ok(Int(d), rest) <==> MIN_INT <= d <= MAX_INT)
            && (d < MIN_INT ==> ReadValue(t + rest) == Ok(Int(MIN_INT), rest))
            && (d > MAX_INT ==> ReadValue(t + rest) == Ok(Int(MAX_INT), rest))
  {
    IntegerIff(t);
    IntegerReads(t, t + rest, rest);
  }

  /** A text of digits, with a sign or not, that nothing prolongs is refused exactly if it has a leading zero. */
  lemma DigitsAcceptedIff(c: char, ds: string, rest: string)
    requires StartsNumber(c) && AllDigits(ds) && EndsNumber(rest)
    ensures ReadValue([c] + ds + rest).Ok? <==> ds == [] || (c != '0' && (c == '-' ==> ds[0] != '0'))
  {
    var t := [c] + ds;
    assert t[1..] == ds;
    IntegerIff(t);
    ValueIsNumber(t + rest, t, rest);
    RunIs(ds, rest);
    NoDots(ds);
  }

  /** A sign without digits is read as zero. */
  lemma LoneMinusIsZero(rest: string)
    requires EndsNumber(rest)
    ensures ReadValue("-" + rest) == Ok(Int(0), rest)
  {
    assert "-"[1..] == "" && Codes("") == [];
    IntegerIsExactIff("-", rest);
  }

  lemma {:induction false} OneAndZeros(n: nat)
    ensures var t := "1" + seq(n, i => '0'); AllDigits(t) && Digits.Value(10, Codes(t)) == Pow(10, n)
  {
    var t := "1" + seq(n, i => '0');
    if n == 0 {
      assert t == "1" && Codes(t) == [] + [1];
      ValueOfAppend(10, [], 1);
    } else {
      OneAndZeros(n - 1);
      var t' := "1" + seq(n - 1, i => '0');
      assert Codes(t) == Codes(t') + [0];
      ValueOfAppend(10, Codes(t'), 0);
    }
  }

  /** Ten to the power of nineteen is read as the largest integer. */
  lemma LargeIsClamped()
    ensures ReadValue("1" + seq(19, i => '0')) == Ok(Int(MAX_INT), "")
  {
    var t := "1" + seq(19, i => '0');
    OneAndZeros(19);
    assert Pow(10, 19) > MAX_INT by {
      assert Pow(10, 3) == 1000 && Pow(10, 4) == 10000;
      PowSum(10, 4, 4);
      PowSum(10, 8, 8);
      PowSum(10, 3, 16);
    }
    assert t + "" == t;
    IntegerIsExactIff(t, "");
  }

  /** A plain decimal that nothing prolongs is refused exactly at the end of the input. */
  lemma DecimalRefusedIff(t: string, rest: string)
    requires IsDecimal(t) && EndsNumber(rest) && (rest != [] ==> rest[0] != 'e')
    ensures ReadValue(t + rest).Bad? <==> rest == []
    ensures rest != [] ==> ReadValue(t + rest) == Ok(Real(t), rest)
  {
    DecimalIff(t);
    ValueIsNumber(t + rest, t, rest);
    RunIs(t[1..], rest);
  }

  lemma {:induction false} DotsAreCounted(s: string)
    ensures Dots(s) == multiset(s)['.']
  {
    if s != [] {
      DotsAreCounted(s[..|s|-1]);
      assert s == s[..|s|-1] + [s[|s|-1]];
    }
  }

  /** A number with a second dot is refused. */
  lemma TwoDotsAreRefused(c: char, run: string, rest: string)
    requires StartsNumber(c) && AllInNumber(run) && EndsNumber(rest) && multiset(run)['.'] > 1
    ensures ReadValue([c] + run + rest).Bad?
  {
    var t := [c] + run;
    assert t[1..] == run;
    ValueIsNumber(t + rest, t, rest);
    RunIs(run, rest);
    DotsAreCounted(run);
  }
}
