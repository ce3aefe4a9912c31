/**
  Variable-length integers: seven bits to a byte, lowest first, the high bit set on every byte but the
  last. The readers accept only the shortest form of a number that fits.
 */
module Varint {
  import opened Digits
  import opened Words

  // ----- groups of bytes and what they stand for ----------------------------

  ghost function GroupValue(g: Bytes): nat {
    if g == [] then 0 else GroupValue(g[..|g|-1]) + (g[|g|-1] % 128) * Pow(128, |g|-1)
  }

  /** Every byte has its high bit set: the number goes on. */
  ghost predicate GoesOn(g: Bytes) {
    forall i :: 0 <= i < |g| ==> g[i] >= 128
  }

  /** A whole number: only the last byte has its high bit clear. */
  ghost predicate IsGroup(g: Bytes) {
    |g| > 0 && g[|g|-1] < 128 && GoesOn(g[..|g|-1])
  }

  /** Nothing shorter stands for the same number. */
  ghost predicate IsShortest(g: Bytes) {
    |g| == 1 || (|g| > 1 && g[|g|-1] != 0)
  }

  /** The length of the first group, or of everything if no byte ends it. */
  ghost function GroupLength(s: Bytes): (n: nat)
    ensures n <= |s| && (IsGroup(s[..n]) || (n == |s| && GoesOn(s)))
    decreases |s|
  {
    if s == [] then 0
    else if s[0] < 128 then 1
    else
      var n := GroupLength(s[1..]);
      assert s[..n + 1] == [s[0]] + s[1..][..n];
      n + 1
  }

  /** The bytes written for a number. */
  function Written(v: nat): (g: Bytes) {
    if v < 128 then [v] else [128 + v % 128] + Written(v / 128)
  }

  lemma {:induction false} GroupCons(b: byte, g: Bytes)
    ensures GroupValue([b] + g) == b % 128 + 128 * GroupValue(g)
    decreases |g|
  {
    if g == [] {
      assert ([b] + g)[..0] == [];
      assert Pow(128, 0) == 1;
    } else {
      var high, low := g[|g|-1], g[..|g|-1];
      assert ([b] + g)[..|g|] == [b] + low;
      GroupCons(b, low);
      ScaleUp(high % 128, Pow(128, |low|));
    }
  }

  /** The low seven bits of each byte, the last byte's first. */
  ghost function Payloads(g: Bytes): (ds: seq<nat>)
    ensures |ds| == |g| && forall i :: 0 <= i < |g| ==> ds[i] == g[|g| - 1 - i] % 128
  {
    seq(|g|, i requires 0 <= i < |g| => g[|g| - 1 - i] % 128)
  }

  /** A group is a number in base 128, written lowest digit first. */
  lemma {:induction false} GroupIsNumeral(g: Bytes)
    ensures GroupValue(g) == Digits.Value(128, Payloads(g))
  {
    if g != [] {
      var low, high := g[..|g|-1], g[|g|-1];
      GroupIsNumeral(low);
      assert Payloads(g) == [high % 128] + Payloads(low);
      ValueCons(128, high % 128, Payloads(low));
    }
  }

  lemma ScaleUp(x: nat, p: nat)
    ensures x * (128 * p) == 128 * (x * p)
  {
  }

  lemma {:induction false} WrittenIsShortest(v: nat)
    ensures IsGroup(Written(v)) && IsShortest(Written(v)) && GroupValue(Written(v)) == v
    ensures v > 0 ==> Written(v)[|Written(v)|-1] != 0
  {
    if v < 128 {
      assert Written(v)[..0] == [];
      assert Pow(128, 0) == 1;
    } else {
      WrittenIsShortest(v / 128);
      GroupCons(128 + v % 128, Written(v / 128));
      LongerGroup(128 + v % 128, Written(v / 128));
    }
  }

  lemma LongerGroup(b: byte, g: Bytes)
    requires IsGroup(g) && b >= 128
    ensures IsGroup([b] + g) && ([b] + g)[|g|] == g[|g|-1]
  {
    assert ([b] + g)[..|g|] == [b] + g[..|g|-1];
  }

  /** A group in shortest form is what is written for its value. */
  lemma {:induction false} ShortestIsWritten(g: Bytes)
    requires IsGroup(g) && IsShortest(g)
    ensures Written(GroupValue(g)) == g
    ensures g[|g|-1] != 0 ==> GroupValue(g) > 0
    decreases |g|
  {
    var b, rest := g[0], g[1..];
    assert g == [b] + rest;
    GroupCons(b, rest);
    if rest == [] {
      assert GroupValue(rest) == 0;
    } else {
      assert rest[..|rest|-1] == g[..|g|-1][1..];
      ShortestIsWritten(rest);
      assert b == g[..|g|-1][0];
      DivModIs(GroupValue(g), 128, GroupValue(rest), b % 128);
    }
  }

  lemma {:induction false} PowOf128(k: nat)
    ensures Pow(128, k) == Pow(2, 7 * k)
  {
    if k > 0 {
      PowOf128(k - 1);
      PowSum(2, 7, 7 * (k - 1));
      assert Pow(2, 7) == 128;
    }
  }

  lemma {:induction false} GroupIsBounded(g: Bytes)
    ensures GroupValue(g) < Pow(128, |g|)
    decreases |g|
  {
    if g != [] {
      var low := g[..|g|-1];
      GroupIsBounded(low);
      NextGroupByte(GroupValue(low), g[|g|-1] % 128, Pow(128, |low|), 128);
    }
  }

  lemma {:induction false} NextGroupByte(low: nat, b: nat, p: nat, m: nat)
    requires low < p && b < m
    ensures low + b * p < m * p
  {
    MulGrows(b + 1, m, p);
  }

  /** A group in shortest form takes as many bytes as its number needs. */
  lemma {:induction false} ShortestIsLarge(g: Bytes)
    requires IsGroup(g) && g[|g|-1] != 0
    ensures GroupValue(g) >= Pow(128, |g|-1)
  {
    MulGrows(1, g[|g|-1] % 128, Pow(128, |g|-1));
  }

  // ----- what a reader of a given width makes of its input ------------------

  /** `count` is the number of bytes looked at. */
  datatype Outcome =
    | Value(v: nat, count: nat)      // a whole number in shortest form that fits
    | Partial(v: nat, count: nat)    // the input ended before the number did
    | TooLarge(count: nat)
    | NotShortest(count: nat)

  ghost function Read(bits: nat, s: Bytes): Outcome {
    var n := GroupLength(s);
    var g := s[..n];
    if !IsGroup(g) then
      if s == [] || 7 * |s| < bits then Partial(GroupValue(s), |s|) else TooLarge(LongestFor(bits))
    else if !IsShortest(g) then
      if 7 * (n - 1) < bits then NotShortest(n) else TooLarge(LongestFor(bits))
    else if GroupValue(g) < Pow(2, bits) then Value(GroupValue(g), n)
    else TooLarge(LongestFor(bits))
  }

  /** How many bytes a number of this many bits may take. */
  function LongestFor(bits: nat): nat {
    if bits == 0 then 1 else (bits + 6) / 7
  }

  lemma GroupComesFirst(g: Bytes, rest: Bytes)
    requires IsGroup(g)
    ensures GroupLength(g + rest) == |g| && (g + rest)[..|g|] == g
  {
    var s := g + rest;
    var n := GroupLength(s);
    assert s[..|g|] == g;
    assert s[|g|-1] == g[|g|-1];
  }

  /** A reader accepts exactly the numbers that fit, in exactly the form in which they are written. */
  lemma {:induction false} AcceptsExactly(bits: nat, g: Bytes, rest: Bytes)
    requires IsGroup(g)
    ensures Read(bits, g + rest).Value? <==> GroupValue(g) < Pow(2, bits) && g == Written(GroupValue(g))
    ensures Read(bits, g + rest).Value? ==> Read(bits, g + rest) == Value(GroupValue(g), |g|)
    ensures !Read(bits, g + rest).Partial?
  {
    GroupComesFirst(g, rest);
    WrittenIsShortest(GroupValue(g));
    if IsShortest(g) {
      ShortestIsWritten(g);
    }
  }

  /** The other outcomes: a form that is too long, a number that is too large, an input that ends too soon. */
  lemma RefusedBecause(bits: nat, g: Bytes, rest: Bytes)
    ensures IsGroup(g) ==> (Read(bits, g + rest).NotShortest? <==> |g| > 1 && g[|g|-1] == 0 && 7 * (|g| - 1) < bits)
    ensures IsGroup(g) && g == Written(GroupValue(g)) ==>
      (Read(bits, g + rest).TooLarge? <==> GroupValue(g) >= Pow(2, bits))
    ensures GoesOn(g) ==> (Read(bits, g).Partial? <==> g == [] || 7 * |g| < bits)
    ensures GoesOn(g) && Read(bits, g).Partial? ==> Read(bits, g) == Partial(GroupValue(g), |g|)
  {
    if IsGroup(g) {
      GroupComesFirst(g, rest);
      WrittenIsShortest(GroupValue(g));
    } else if GoesOn(g) {
      assert g[..|g|] == g;
    }
  }

  /** Whatever is written reads back, with what follows left over. */
  lemma ReadsBack(bits: nat, v: nat, rest: Bytes)
    requires v < Pow(2, bits)
    ensures Read(bits, Written(v) + rest) == Value(v, |Written(v)|)
  {
    WrittenIsShortest(v);
    AcceptsExactly(bits, Written(v), rest);
  }

  /** What was accepted is a prefix of the input, and is what would be written for the number. */
  lemma {:induction false} AcceptedIsWritten(bits: nat, s: Bytes)
    requires Read(bits, s).Value?
    ensures var r := Read(bits, s); r.v < Pow(2, bits) && r.count <= |s| && s[..r.count] == Written(r.v)
  {
    ShortestIsWritten(s[..GroupLength(s)]);
  }

  /** Numbers written back to back, and as many reads, one after the other. */
  ghost function WrittenAll(vs: seq<nat>): Bytes {
    if vs == [] then [] else Written(vs[0]) + WrittenAll(vs[1..])
  }

  ghost function ReadAll(bits: nat, n: nat, s: Bytes): (r: (seq<nat>, Bytes))
    ensures |r.0| <= n
  {
    var r := Read(bits, s);
    if n == 0 || !r.Value? then ([], s)
    else
      var (vs, rest) := ReadAll(bits, n - 1, s[r.count..]);
      ([r.v] + vs, rest)
  }

  /** Numbers written back to back are read back, all of them, and nothing more is consumed. */
  lemma {:induction false} AllReadBack(bits: nat, vs: seq<nat>, rest: Bytes)
    requires AreDigits(Pow(2, bits), vs)
    ensures ReadAll(bits, |vs|, WrittenAll(vs) + rest) == (vs, rest)
  {
    if vs == [] {
      assert WrittenAll(vs) + rest == rest;
    } else {
      var v, vs' := vs[0], vs[1..];
      AllReadBack(bits, vs', rest);
      assert WrittenAll(vs) + rest == Written(v) + (WrittenAll(vs') + rest);
      ReadsBack(bits, v, WrittenAll(vs') + rest);
      assert (Written(v) + (WrittenAll(vs') + rest))[|Written(v)|..] == WrittenAll(vs') + rest;
      assert vs == [v] + vs';
    }
  }

  /** So two lists written back to back give the same bytes only if they are the same list. */
  lemma WrittenAllIsInjective(vs: seq<nat>, ws: seq<nat>)
    requires WrittenAll(vs) == WrittenAll(ws)
    ensures vs == ws
  {
    var bits := EnoughBits(vs + ws);
    ReadBackFrom(bits, vs, vs + ws, WrittenAll(vs));
    ReadBackFrom(bits, ws, vs + ws, WrittenAll(vs));
    ReadAllStops(bits, |vs|, |vs| + |ws|, WrittenAll(vs));
    ReadAllStops(bits, |ws|, |vs| + |ws|, WrittenAll(vs));
  }

  lemma ReadBackFrom(bits: nat, vs: seq<nat>, all: seq<nat>, s: Bytes)
    requires AreDigits(Pow(2, bits), all) && s == WrittenAll(vs) && forall v :: v in vs ==> v in all
    ensures ReadAll(bits, |vs|, s) == (vs, [])
  {
    assert forall i :: 0 <= i < |vs| ==> vs[i] in all;
    AllReadBack(bits, vs, []);
    assert WrittenAll(vs) + [] == s;
  }

  /** Once everything is read, asking for more numbers gives no more. */
  lemma {:induction false} ReadAllStops(bits: nat, n: nat, m: nat, s: Bytes)
    requires n <= m && ReadAll(bits, n, s).1 == []
    ensures ReadAll(bits, m, s) == ReadAll(bits, n, s)
  {
    var r := Read(bits, s);
    if n == 0 {
      assert s == [] && r.Partial?;
    } else if r.Value? {
      ReadAllStops(bits, n - 1, m - 1, s[r.count..]);
    }
  }

  lemma {:induction false} EnoughBits(vs: seq<nat>) returns (bits: nat)
    ensures AreDigits(Pow(2, bits), vs)
  {
    if vs == [] {
      bits := 0;
    } else {
      var bits' := EnoughBits(vs[1..]);
      bits := bits' + vs[0];
      BelowPower(vs[0]);
      PowGrows(2, vs[0], bits);
      PowGrows(2, bits', bits);
      assert forall i :: 1 <= i < |vs| ==> vs[i] == vs[1..][i - 1];
    }
  }

  lemma {:induction false} BelowPower(v: nat)
    ensures v < Pow(2, v)
  {
    if v > 0 { BelowPower(v - 1); }
  }

  // ----- the writer and the reader over byte ranges -------------------------

  lemma {:induction false} OrCommutes(x: nat, y: nat)
    ensures BitOr(x, y) == BitOr(y, x)
    decreases x + y
  {
    if x > 0 || y > 0 { OrCommutes(x / 2, y / 2); }
  }

  lemma OrNextBit(b: nat, k: nat)
    requires b < Pow(2, k)
    ensures BitOr(b, Pow(2, k)) == Pow(2, k) + b
  {
    OrCommutes(b, Pow(2, k));
    OrIsSum(1, k, b);
  }

  lemma LowSevenBits(x: nat)
    ensures BitAnd(x, 0x7f) == x % 128
  {
    var p := Pow(2, 7);
    AndMask(x, 7);
    assert p == 128;
  }

  /** The seven bits of a byte that are part of the number. */
  method Payload(b: byte) returns (x: nat)
    ensures x == b % 128
  {
    LowSevenBits(b);
    return BitAnd(b, 0x7f);
  }

  /** A byte of a number that goes on. */
  method Marked(x: nat) returns (b: byte)
    requires x < 128
    ensures b == 128 + x
  {
    MarkIsSum(x);
    return BitOr(x, 0x80);
  }

  lemma MarkIsSum(x: nat)
    requires x < 128
    ensures BitOr(x, 0x80) == 128 + x
  {
    var p := Pow(2, 7);
    assert p == 128;
    OrNextBit(x, 7);
  }

  lemma LowBitsOfByte(i: nat)
    ensures i % 256 % 128 == i % 128
  {
  }

  method WriteVarint(v: u64) returns (dest: Bytes)
    ensures dest == Written(v)
  {
    var i: u64 := v;
    dest := [];
    while i >= 0x80
      invariant dest + Written(i) == Written(v)
    {
      LowBitsOfByte(i);
      var low := Payload(i % 256);
      var b := Marked(low);
      assert dest + Written(i) == dest + [b] + Written(i / 128);
      dest := dest + [b];
      assert Pow(2, 7) == 128;
      i := Shr(i, 7);
    }
    dest := dest + [i % 256];
  }

  /** The state of a reader that has seen `k` bytes of a number that goes on. */
  ghost predicate InGroup(bits: nat, s: Bytes, k: nat, i: nat) {
    k <= |s| && GoesOn(s[..k]) && (k == 0 || 7 * k < bits) && i == GroupValue(s[..k])
  }

  lemma EndsHere(s: Bytes, k: nat)
    requires k < |s| && GoesOn(s[..k]) && s[k] < 128
    ensures GroupLength(s) == k + 1 && IsGroup(s[..k + 1])
  {
    assert s[..k + 1][..k] == s[..k];
    GroupComesFirst(s[..k + 1], s[k + 1..]);
    assert s == s[..k + 1] + s[k + 1..];
  }

  lemma GroupIsLonger(s: Bytes, k: nat)
    requires k <= |s| && GoesOn(s[..k])
    ensures k <= GroupLength(s) && (IsGroup(s[..GroupLength(s)]) ==> k < GroupLength(s))
  {
    var n := GroupLength(s);
    assert 0 < n <= k ==> s[n - 1] == s[..k][n - 1];
  }

  /** Too many bytes that go on: the number is too large whatever follows. */
  lemma TooManyBytes(bits: nat, s: Bytes, k: nat)
    requires k > 0 && k <= |s| && GoesOn(s[..k]) && 7 * k >= bits && (k == 1 || 7 * (k - 1) < bits)
    ensures Read(bits, s) == TooLarge(k)
  {
    GroupIsLonger(s, k);
    var n := GroupLength(s);
    var g := s[..n];
    if IsGroup(g) && IsShortest(g) {
      ShortestIsLarge(g);
      PowOf128(n - 1);
      PowGrows(2, bits, 7 * (n - 1));
    }
  }

  lemma ValueSoFar(s: Bytes, k: nat)
    requires k < |s|
    ensures GroupValue(s[..k + 1]) == GroupValue(s[..k]) + (s[k] % 128) * Pow(2, 7 * k)
    ensures GroupValue(s[..k]) < Pow(2, 7 * k)
  {
    assert s[..k + 1][..k] == s[..k];
    PowOf128(k);
    GroupIsBounded(s[..k]);
  }

  /** What the overflow test decides about the byte that ends a number. */
  lemma LastByteFits(bits: nat, k: nat, i: nat, b: nat)
    requires i < Pow(2, 7 * k) && b < 128 && (k == 0 || 7 * k < bits)
    ensures i + b * Pow(2, 7 * k) < Pow(2, bits) <==> !(7 * k + 7 >= bits && b >= Pow(2, bits - 7 * k))
  {
    if 7 * k + 7 >= bits {
      var rest := bits - 7 * k;
      PowSum(2, rest, 7 * k);
      if b < Pow(2, rest) {
        NextGroupByte(i, b, Pow(2, 7 * k), Pow(2, rest));
      } else {
        MulGrows(Pow(2, rest), b, Pow(2, 7 * k));
      }
    } else {
      PowSum(2, 7, 7 * k);
      assert Pow(2, 7) == 128;
      NextGroupByte(i, b, Pow(2, 7 * k), 128);
      PowGrows(2, 7 * k + 7, bits);
    }
  }

  lemma {:induction false} OrAbove(i: nat, x: nat, k: nat)
    requires i < Pow(2, k)
    ensures BitOr(i, x * Pow(2, k)) == i + x * Pow(2, k)
  {
    OrCommutes(i, x * Pow(2, k));
    OrIsSum(x, k, i);
  }

  lemma ShlFits(x: nat, k: nat)
    requires x * Pow(2, k) < WORD
    ensures Shl(x, k) == x * Pow(2, k)
  {
  }

  /** Adding bits above those collected so far. */
  method Collect(i: u64, x: nat, shift: nat) returns (i': u64)
    requires i < Pow(2, shift) && i + x * Pow(2, shift) < WORD
    ensures i' == i + x * Pow(2, shift)
  {
    ShlFits(x, shift);
    OrAbove(i, x, shift);
    return BitOr(i, Shl(x, shift));
  }

  lemma FitsInWord(v: nat, bits: nat)
    requires v < Pow(2, bits) && bits <= 64
    ensures v < WORD
  {
    WordIsPower();
    PowGrows(2, bits, 64);
  }

  /** What is collected once byte `k` is added. */
  ghost function Collected(i: nat, b: byte, k: nat): nat {
    i + (b % 128) * Pow(2, 7 * k)
  }

  /** What one more byte decides. */
  lemma NextByteDecides(bits: nat, s: Bytes, k: nat, i: nat)
    requires InGroup(bits, s, k, i) && k < |s|
    ensures k == 0 || 7 * k < bits
    ensures i < Pow(2, 7 * k)
    ensures
      var b := s[k];
      if 7 * k + 7 >= bits && b >= Pow(2, bits - 7 * k) then Read(bits, s) == TooLarge(k + 1)
      else if b == 0 && k != 0 then Read(bits, s) == NotShortest(k + 1)
      else
        var i' := Collected(i, b, k);
        i' < Pow(2, bits) && if b < 128 then Read(bits, s) == Value(i', k + 1) else InGroup(bits, s, k + 1, i')
  {
    var b := s[k];
    ValueSoFar(s, k);
    if b >= 128 && 7 * k + 7 >= bits {
      SmallPower(bits - 7 * k);
      assert s[..k + 1] == s[..k] + [b];
      TooManyBytes(bits, s, k + 1);
    } else {
      LastByteFits(bits, k, i, b % 128);
      if b < 128 {
        LastByteDecides(bits, s, k, i);
      } else {
        GoesOnWith(bits, s, k, i);
      }
    }
  }

  lemma GoesOnWith(bits: nat, s: Bytes, k: nat, i: nat)
    requires InGroup(bits, s, k, i) && k < |s| && s[k] >= 128 && 7 * k + 7 < bits
    ensures InGroup(bits, s, k + 1, Collected(i, s[k], k))
  {
    ValueSoFar(s, k);
    assert s[..k + 1] == s[..k] + [s[k]];
  }

  lemma {:induction false} LastByteDecides(bits: nat, s: Bytes, k: nat, i: nat)
    requires InGroup(bits, s, k, i) && k < |s| && s[k] < 128
    ensures
      var v := Collected(i, s[k], k);
      Read(bits, s) ==
        if v >= Pow(2, bits) then TooLarge(k + 1)
        else if s[k] == 0 && k != 0 then NotShortest(k + 1)
        else Value(v, k + 1)
  {
    EndsHere(s, k);
    ValueSoFar(s, k);
    LastByteFits(bits, k, i, s[k]);
    if s[k] == 0 {
      assert Pow(2, bits - 7 * k) > 0;
    }
  }

  lemma SmallPower(n: nat)
    requires n <= 7
    ensures Pow(2, n) <= 128
  {
    PowGrows(2, n, 7);
    assert Pow(2, 7) == 128;
  }

  /**
    Reads a number of at most `bits` bits. A negative count is an error: -1 for a number that is too
    large, -2 for one that is not in shortest form. Running out of input is not an error: the number
    is then what was collected so far.
   */
  method ReadVarint(bits: nat, s: Bytes) returns (read: int, i: u64)
    requires bits <= 64
    ensures Read(bits, s).Value? || Read(bits, s).Partial? ==> read == Read(bits, s).count && i == Read(bits, s).v
    ensures Read(bits, s).TooLarge? <==> read == -1
    ensures Read(bits, s).NotShortest? <==> read == -2
  {
    read, i := 0, 0;
    var shift := 0;
    assert s[..0] == [];
    while true
      invariant 0 <= read && shift == 7 * read && InGroup(bits, s, read, i)
      decreases |s| - read
    {
      if read == |s| {
        EndsEarly(bits, s, i);
        return;
      }
      NextByteDecides(bits, s, read, i);
      var b := s[read];
      read := read + 1;
      if shift + 7 >= bits && b >= Pow(2, bits - shift) {
        return -1, i;
      }
      if b == 0 && shift != 0 {
        return -2, i;
      }
      FitsInWord(Collected(i, b, read - 1), bits);
      var x := Payload(b);
      i := Collect(i, x, shift);
      if b < 128 {
        return;
      }
      shift := shift + 7;
    }
  }

  lemma WordIsPower()
    ensures Pow(2, 64) == WORD
  {
    PowersOfTwo();
  }

  lemma EndsEarly(bits: nat, s: Bytes, i: nat)
    requires InGroup(bits, s, |s|, i)
    ensures Read(bits, s) == Partial(i, |s|)
  {
    assert s[..|s|] == s;
    GroupIsLonger(s, |s|);
  }
}
