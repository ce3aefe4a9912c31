/**
  64-bit words: shifts and bitwise operations on natural numbers, and the double-word arithmetic
  built from them.
 */
module Words {
  import opened Digits

  const HALF: nat := 0x1_0000_0000
  const WORD: nat := 0x1_0000_0000_0000_0000

  type u32 = x: int | 0 <= x < 0x1_0000_0000
  type u64 = x: int | 0 <= x < 0x1_0000_0000_0000_0000
  type byte = x: nat | x < 256
  type Bytes = seq<byte>

  // ----- bits ---------------------------------------------------------------

  function BitOr(x: nat, y: nat): nat
    decreases x + y
  {
    if x == 0 && y == 0 then 0
    else 2 * BitOr(x / 2, y / 2) + (if x % 2 == 1 || y % 2 == 1 then 1 else 0)
  }

  function BitAnd(x: nat, y: nat): nat {
    if x == 0 then 0
    else 2 * BitAnd(x / 2, y / 2) + (if x % 2 == 1 && y % 2 == 1 then 1 else 0)
  }

  /** Bits pushed out of the word are lost. */
  function Shl(x: nat, k: nat): u64 {
    (x * Pow(2, k)) % WORD
  }

  function Shr(x: nat, k: nat): nat {
    x / Pow(2, k)
  }

  lemma PowersOfTwo()
    ensures Pow(2, 8) == 0x100 && Pow(2, 16) == 0x1_0000 && Pow(2, 24) == 0x100_0000 && Pow(2, 32) == HALF
    ensures Pow(2, 40) == 0x100_0000_0000 && Pow(2, 48) == 0x1_0000_0000_0000 && Pow(2, 56) == 0x100_0000_0000_0000
    ensures Pow(2, 64) == WORD
  {
    assert Pow(2, 4) == 16;
    PowSum(2, 4, 4);
    PowSum(2, 8, 8);
    PowSum(2, 16, 8);
    PowSum(2, 16, 16);
    PowSum(2, 32, 8);
    PowSum(2, 32, 16);
    PowSum(2, 32, 24);
    PowSum(2, 32, 32);
  }

  lemma {:induction false} OrZero(x: nat)
    ensures BitOr(x, 0) == x
  {
    if x > 0 { OrZero(x / 2); }
  }

  /** Bits side by side: a bitwise or of numbers that share no position is their sum. */
  lemma {:induction false} OrIsSum(x: nat, k: nat, y: nat)
    requires y < Pow(2, k)
    ensures BitOr(x * Pow(2, k), y) == x * Pow(2, k) + y
    decreases k
  {
    if k == 0 {
      OrZero(x);
      assert x * Pow(2, 0) == x;
    } else {
      var half := x * Pow(2, k - 1);
      assert x * Pow(2, k) == 2 * half;
      OrIsSum(x, k - 1, y / 2);
    }
  }

  /** Setting one bit. */
  lemma {:induction false} OrPower(v: nat, k: nat)
    ensures BitOr(v, Pow(2, k)) == if v / Pow(2, k) % 2 == 1 then v else v + Pow(2, k)
    decreases k
  {
    if k == 0 {
      OrZero(v / 2);
    } else {
      var h := Pow(2, k - 1);
      OrPower(v / 2, k - 1);
      DivDiv(v, 2, h);
      assert BitOr(v, 2 * h) == 2 * BitOr(v / 2, h) + v % 2;
    }
  }

  lemma {:induction false} OrPowerAt(v: nat, k: nat, p: nat, q: nat)
    requires p == Pow(2, k) && v / p == q
    ensures BitOr(v, p) == if q % 2 == 1 then v else v + p
  {
    OrPower(v, k);
  }

  lemma {:induction false} AndMask(x: nat, k: nat)
    ensures BitAnd(x, Pow(2, k) - 1) == x % Pow(2, k)
    decreases k
  {
    if x > 0 {
      if k == 0 {
        AndZero(x);
      } else {
        var p := Pow(2, k - 1);
        AndMask(x / 2, k - 1);
        DivDiv(x, 2, p);
      }
    }
  }

  lemma {:induction false} AndZero(x: nat)
    ensures BitAnd(x, 0) == 0
  {
    if x > 0 { AndZero(x / 2); }
  }

  lemma DivModOf(x: nat, p: nat)
    requires p > 0
    ensures x == (x / p) * p + x % p && 0 <= x % p < p && 0 <= x / p
  {
  }

  lemma {:induction false} DivModIs(x: nat, p: nat, q: nat, r: nat)
    requires r < p && x == q * p + r
    ensures x / p == q && x % p == r
  {
    DivModOf(x, p);
    DivModIsUnique(p, x / p, x % p, q, r);
  }

  lemma {:induction false} CarryOver(h: nat, q: nat, p: nat, r: nat, b: nat, l: nat)
    requires h == q * p + r && r < p && l < b
    ensures h * b + l == q * (b * p) + (r * b + l) && r * b + l < b * p
  {
    OneMoreDigit(b, r, p, l);
    ShiftIn(q, p, r, b, l);
  }

  /** Dividing by `b` and then by `p` is dividing by `b * p`. */
  lemma {:induction false} DivDiv(x: nat, b: nat, p: nat)
    requires b > 0 && p > 0
    ensures b * p > 0 && x / (b * p) == x / b / p && x % (b * p) == (x / b % p) * b + x % b
  {
    var h, l := x / b, x % b;
    DivModOf(x, b);
    DivModOf(h, p);
    CarryOver(h, h / p, p, h % p, b, l);
    DivModIs(x, b * p, h / p, (h % p) * b + l);
  }

  /** Doubling and halving `k` times, without overflow. */
  function Up(x: nat, k: nat): nat {
    if k == 0 then x else 2 * Up(x, k - 1)
  }

  function Down(x: nat, k: nat): nat {
    if k == 0 then x else Down(x / 2, k - 1)
  }

  lemma {:induction false} UpIsProduct(x: nat, k: nat)
    ensures Up(x, k) == x * Pow(2, k)
  {
    if k > 0 {
      UpIsProduct(x, k - 1);
      MulAssociates(x, 2, Pow(2, k - 1));
    }
  }

  lemma {:induction false} DownIsQuotient(x: nat, k: nat)
    ensures Down(x, k) == x / Pow(2, k)
    decreases k
  {
    if k > 0 {
      DownIsQuotient(x / 2, k - 1);
      DivDiv(x, 2, Pow(2, k - 1));
    }
  }

  lemma AndEven(x: nat, half: nat)
    ensures BitAnd(x, 2 * half) == 2 * BitAnd(x / 2, half)
  {
  }

  /** A mask moved up selects the bits further up. */
  lemma {:induction false} AndUp(x: nat, m: nat, k: nat)
    ensures BitAnd(x, Up(m, k)) == Up(BitAnd(Down(x, k), m), k)
    decreases k
  {
    if k > 0 {
      AndUp(x / 2, m, k - 1);
      AndEven(x, Up(m, k - 1));
    }
  }

  // ----- double words -------------------------------------------------------

  function HiDword(x: u64): u64 {
    Shr(x, 32)
  }

  function LoDword(x: u64): u64 {
    AndMaskLo(x);
    BitAnd(x, 0xFFFF_FFFF)
  }

  lemma AndMaskLo(x: u64)
    ensures BitAnd(x, 0xFFFF_FFFF) == x % HALF
  {
    PowersOfTwo();
    AndMask(x, 32);
  }

  lemma {:induction false} Dwords(x: u64)
    ensures HiDword(x) < HALF && LoDword(x) < HALF && x == HiDword(x) * HALF + LoDword(x)
  {
    PowersOfTwo();
    AndMaskLo(x);
  }

  lemma {:induction false} SmallProduct(x: nat, y: nat)
    requires x < HALF && y < HALF
    ensures x * y < WORD && (x * y) % WORD == x * y
  {
    MulGrows(x, 0xFFFF_FFFF, y);
    MulGrows(y, 0xFFFF_FFFF, 0xFFFF_FFFF);
  }

  lemma ProductOfHalves(x: nat, y: nat, a: nat, b: nat, c: nat, d: nat)
    requires x == a * HALF + b && y == c * HALF + d
    ensures x * y == (a * c) * WORD + (a * d + b * c) * HALF + b * d
  {
    assert x * y == (a * HALF) * (c * HALF) + (a * HALF) * d + b * (c * HALF) + b * d;
  }

  lemma {:induction false} ProductFits(x: u64, y: u64)
    ensures x * y < WORD * WORD
  {
    MulGrows(x, WORD - 1, y);
    MulGrows(y, WORD - 1, WORD - 1);
  }

  /** The product of two words as a double word, through their halves. */
  method Mul128(multiplier: u64, multiplicand: u64) returns (productLo: u64, productHi: u64)
    ensures productHi * WORD + productLo == multiplier * multiplicand
  {
    var a, b := HiDword(multiplier), LoDword(multiplier);
    var c, d := HiDword(multiplicand), LoDword(multiplicand);
    Dwords(multiplier);
    Dwords(multiplicand);
    SmallProduct(a, c);
    SmallProduct(a, d);
    SmallProduct(b, c);
    SmallProduct(b, d);

    var ac := (a * c) % WORD;
    var ad := (a * d) % WORD;
    var bc := (b * c) % WORD;
    var bd := (b * d) % WORD;
    ProductOfHalves(multiplier, multiplicand, a, b, c, d);
    ProductFits(multiplier, multiplicand);
    productLo, productHi := AddPartialProducts(ac, ad, bc, bd);
  }

  /** What a shift by half a word pushes out is what the opposite shift keeps. */
  lemma {:induction false} ShiftParts(x: u64)
    ensures Shr(x, 32) * WORD + Shl(x, 32) == x * HALF && 0 <= Shr(x, 32) < HALF
    ensures x < HALF ==> Shl(x, 32) == x * HALF
  {
    PowersOfTwo();
  }

  /** Addition in a word: the sum came out smaller than a summand exactly if it wrapped around. */
  function AddWithCarry(x: u64, y: u64): (r: (u64, u64))
    ensures r.0 + r.1 * WORD == x + y && r.1 <= 1
  {
    var sum := (x + y) % WORD;
    (sum, if sum < x then 1 else 0)
  }

  lemma CarriesAddUp(ac: nat, adbc: nat, adbcCarry: nat, bd: nat, up: nat, down: nat, lo: nat, loCarry: nat)
    requires ac * WORD + (adbc + adbcCarry * WORD) * HALF + bd < WORD * WORD
    requires down * WORD + up == adbc * HALF && lo + loCarry * WORD == bd + up
    ensures (ac + down + adbcCarry * HALF + loCarry) * WORD + lo == ac * WORD + (adbc + adbcCarry * WORD) * HALF + bd
    ensures ac + down + adbcCarry * HALF + loCarry < WORD
  {
  }

  /** The carries of the schoolbook method. */
  method AddPartialProducts(ac: u64, ad: u64, bc: u64, bd: u64) returns (productLo: u64, productHi: u64)
    requires ac * WORD + (ad + bc) * HALF + bd < WORD * WORD
    ensures productHi * WORD + productLo == ac * WORD + (ad + bc) * HALF + bd
  {
    var (adbc, adbcCarry) := AddWithCarry(ad, bc);
    var up, down := Shl(adbc, 32), Shr(adbc, 32);
    ShiftParts(adbc);
    var (lo, loCarry) := AddWithCarry(bd, up);
    productLo := lo;
    CarriesAddUp(ac, adbc, adbcCarry, bd, up, down, lo, loCarry);
    ShiftParts(adbcCarry);
    productHi := (ac + down + Shl(adbcCarry, 32) + loCarry) % WORD;
    assert ac <= productHi;
  }

  /** One step of the long division: `remainder` is carried over from the previous one. */
  method DivWithRemainder(dividend: u64, divisor: u32, remainder: u32) returns (quotient: u64, remainder': u32)
    requires divisor != 0 && remainder < divisor && dividend < HALF
    ensures remainder * HALF + dividend == quotient * divisor + remainder'
    ensures remainder' < divisor && quotient < HALF
  {
    PowersOfTwo();
    OrIsSum(remainder, 32, dividend);
    var dividend' := BitOr(Shl(remainder, 32), dividend);
    DivModOf(dividend', divisor);
    remainder' := dividend' % divisor;
    quotient := dividend' / divisor;
    if HALF <= quotient {
      MulGrows(HALF, quotient, divisor);
      assert false;
    }
  }

  /** Joins two halves of a quotient. */
  lemma {:induction false} JoinHalves(high: nat, low: nat)
    requires high < HALF && low < HALF
    ensures BitOr(Shl(high, 32), low) == high * HALF + low < WORD
  {
    PowersOfTwo();
    OrIsSum(high, 32, low);
  }

  lemma LongDivision(h3: nat, h2: nat, h1: nat, h0: nat, divisor: nat,
                     q3: nat, r3: nat, q2: nat, r2: nat, q1: nat, r1: nat, q0: nat, r0: nat)
    requires h3 == q3 * divisor + r3 && r3 * HALF + h2 == q2 * divisor + r2
    requires r2 * HALF + h1 == q1 * divisor + r1 && r1 * HALF + h0 == q0 * divisor + r0
    ensures (h3 * HALF + h2) * WORD + (h1 * HALF + h0)
            == ((q3 * HALF + q2) * WORD + (q1 * HALF + q0)) * divisor + r0
  {
    var n3, n2, n1, n0 := q3 * divisor, q2 * divisor, q1 * divisor, q0 * divisor;
    assert ((q3 * HALF + q2) * WORD + (q1 * HALF + q0)) * divisor
        == (n3 * HALF + n2) * WORD + (n1 * HALF + n0);
  }

  /** Long division of a double word by a half word, in base 2^32. */
  method Div128By32(dividendHi: u64, dividendLo: u64, divisor: u32)
    returns (remainder: u32, quotientHi: u64, quotientLo: u64)
    requires divisor != 0
    ensures dividendHi * WORD + dividendLo == (quotientHi * WORD + quotientLo) * divisor + remainder
    ensures remainder < divisor
  {
    Dwords(dividendHi);
    Dwords(dividendLo);
    var h3, h2 := HiDword(dividendHi), LoDword(dividendHi);
    var h1, h0 := HiDword(dividendLo), LoDword(dividendLo);
    var q3, r3 := DivWithRemainder(h3, divisor, 0);
    var q2, r2 := DivWithRemainder(h2, divisor, r3);
    var q1, r1 := DivWithRemainder(h1, divisor, r2);
    var q0, r0 := DivWithRemainder(h0, divisor, r1);
    JoinHalves(q3, q2);
    JoinHalves(q1, q0);
    quotientHi := BitOr(Shl(q3, 32), q2);
    quotientLo := BitOr(Shl(q1, 32), q0);
    LongDivision(h3, h2, h1, h0, divisor, q3, r3, q2, r2, q1, r1, q0, r0);
    remainder := r0;
  }

  // ----- byte order ---------------------------------------------------------

  /** Byte `i` of a word, counted from the least significant one. */
  function ByteOf(x: u64, i: nat): nat {
    x / Pow(2, 8 * i) % 256
  }

  const MASKS: seq<nat> := [
    0x0000_0000_0000_00FF, 0x0000_0000_0000_FF00, 0x0000_0000_00FF_0000, 0x0000_0000_FF00_0000,
    0x0000_00FF_0000_0000, 0x0000_FF00_0000_0000, 0x00FF_0000_0000_0000, 0xFF00_0000_0000_0000]

  /** One operand of the macro: byte `i` cut out and moved to its mirrored position. */
  function SwapTerm(x: u64, i: nat): nat
    requires i < 8
  {
    var cut := BitAnd(x, MASKS[i]);
    if i < 4 then Shl(cut, 56 - 16 * i) else Shr(cut, 16 * i - 56)
  }

  function OrAll(terms: seq<nat>): nat {
    if |terms| == 0 then 0
    else if |terms| == 1 then terms[0]
    else BitOr(OrAll(terms[..|terms|-1]), terms[|terms|-1])
  }

  /** The macro that reverses the bytes of a word: the bitwise or of its eight operands. */
  function Swap64(x: u64): nat {
    OrAll(seq(8, i requires 0 <= i < 8 => SwapTerm(x, i)))
  }

  lemma MaskByte(x: u64, i: nat)
    ensures BitAnd(x, 0xFF * Pow(2, 8 * i)) == ByteOf(x, i) * Pow(2, 8 * i)
  {
    PowersOfTwo();
    AndUp(x, 0xFF, 8 * i);
    UpIsProduct(0xFF, 8 * i);
    UpIsProduct(BitAnd(Down(x, 8 * i), 0xFF), 8 * i);
    AndMask(Down(x, 8 * i), 8);
    DownIsQuotient(x, 8 * i);
  }

  lemma {:induction false} OrNext(a: nat, k: nat, b: nat)
    requires b < 256
    ensures BitOr(a * Pow(2, k + 8), b * Pow(2, k)) == (a * 256 + b) * Pow(2, k)
  {
    PowersOfTwo();
    PowSum(2, k, 8);
    var p := Pow(2, k);
    MulGrows(b + 1, 256, p);
    OrIsSum(a, k + 8, b * p);
    NextByte(a, b, p);
  }

  lemma NextByte(a: nat, b: nat, p: nat)
    ensures a * (p * 256) + b * p == (a * 256 + b) * p
  {
  }

  lemma Masks(i: nat)
    requires i < 8
    ensures MASKS[i] == 0xFF * Pow(2, 8 * i)
  {
    PowersOfTwo();
  }

  lemma {:induction false} MoveUp(b: nat, p: nat, q: nat, r: nat)
    requires b < 256 && p * q == r && r * 256 <= WORD
    ensures (b * p * q) % WORD == b * r
  {
    MulAssociates(b, p, q);
    MulGrows(b, 255, r);
  }

  lemma {:induction false} MoveDown(b: nat, p: nat, q: nat, r: nat)
    requires q > 0 && r * q == p
    ensures (b * p) / q == b * r
  {
    MulAssociates(b, r, q);
    DivModIs(b * p, q, b * r, 0);
  }

  lemma {:induction false} TermIsMirrored(x: u64, i: nat)
    requires i < 8
    ensures SwapTerm(x, i) == ByteOf(x, i) * Pow(2, 56 - 8 * i)
  {
    Masks(i);
    MaskByte(x, i);
    if i < 4 {
      PowSum(2, 8 * i, 56 - 16 * i);
      PowersOfTwo();
      PowGrows(2, 56 - 8 * i, 56);
      MoveUp(ByteOf(x, i), Pow(2, 8 * i), Pow(2, 56 - 16 * i), Pow(2, 56 - 8 * i));
    } else {
      PowSum(2, 56 - 8 * i, 16 * i - 56);
      MoveDown(ByteOf(x, i), Pow(2, 8 * i), Pow(2, 16 * i - 56), Pow(2, 56 - 8 * i));
    }
  }

  /** Bytes in their places, put together: they read as a number in base 256. */
  lemma {:induction false} OrAllIsValue(terms: seq<nat>, bytes: seq<nat>)
    requires 1 <= |terms| == |bytes| <= 8 && AreDigits(256, bytes)
    requires forall i :: 0 <= i < |terms| ==> terms[i] == bytes[i] * Pow(2, 56 - 8 * i)
    ensures OrAll(terms) == Value(256, bytes) * Pow(2, 64 - 8 * |terms|)
    decreases |terms|
  {
    var n := |terms| - 1;
    assert bytes == bytes[..n] + [bytes[n]];
    ValueOfAppend(256, bytes[..n], bytes[n]);
    if n == 0 {
      assert Value(256, bytes[..n]) == 0;
    } else {
      OrAllIsValue(terms[..n], bytes[..n]);
      OrNext(Value(256, bytes[..n]), 56 - 8 * n, bytes[n]);
    }
  }

  /** The bytes of a word as they lie in the memory of a little-endian machine. */
  function MemoryOf(x: u64): (s: seq<nat>)
    ensures |s| == 8 && AreDigits(256, s)
  {
    seq(8, i requires 0 <= i < 8 => ByteOf(x, i))
  }

  lemma TermsAreMirrored(x: u64, terms: seq<nat>)
    requires |terms| == 8 && forall i :: 0 <= i < 8 ==> terms[i] == SwapTerm(x, i)
    ensures forall i :: 0 <= i < 8 ==> terms[i] == MemoryOf(x)[i] * Pow(2, 56 - 8 * i)
  {
    forall i | 0 <= i < 8 ensures terms[i] == MemoryOf(x)[i] * Pow(2, 56 - 8 * i) {
      TermIsMirrored(x, i);
    }
  }

  lemma SwapReadsMemory(x: u64)
    ensures Swap64(x) == Value(256, MemoryOf(x))
  {
    var terms := seq(8, i requires 0 <= i < 8 => SwapTerm(x, i));
    TermsAreMirrored(x, terms);
    OrAllIsValue(terms, MemoryOf(x));
  }

  lemma {:induction false} PowOfByte(i: nat)
    ensures Pow(2, 8 * i) == Pow(256, i)
  {
    if i > 0 {
      PowOfByte(i - 1);
      PowSum(2, 8, 8 * (i - 1));
      PowersOfTwo();
    }
  }

  lemma {:induction false} DigitAt(b: nat, v: nat, n: nat, i: nat)
    requires b > 0 && i < n
    ensures Pow(b, i) > 0 && ToDigits(b, v, n)[n - 1 - i] == v / Pow(b, i) % b
    decreases n
  {
    var (q, r) := DivMod(v, b);
    DivModIs(v, b, q, r);
    if i > 0 {
      DigitAt(b, q, n - 1, i - 1);
      DivDiv(v, b, Pow(b, i - 1));
    }
  }

  /** The last digit is the remainder. */
  lemma {:induction false} DigitsStep(b: nat, v: nat, n: nat)
    requires b > 0 && n > 0
    ensures ToDigits(b, v, n) == ToDigits(b, v / b, n - 1) + [v % b]
  {
    var (q, r) := DivMod(v, b);
    DivModIs(v, b, q, r);
  }

  /** Memory holds the digits in base 256, the last one first. */
  lemma MemoryIsReversedDigits(x: u64)
    ensures MemoryOf(x) == Reverse(ToDigits(256, x, 8))
  {
    forall i | 0 <= i < 8 ensures MemoryOf(x)[i] == ToDigits(256, x, 8)[7 - i] {
      PowOfByte(i);
      DigitAt(256, x, 8, i);
    }
  }

  function Reverse<T>(s: seq<T>): (r: seq<T>)
    ensures |r| == |s| && forall i :: 0 <= i < |s| ==> r[i] == s[|s| - 1 - i]
  {
    seq(|s|, i requires 0 <= i < |s| => s[|s| - 1 - i])
  }

  lemma {:induction false} DigitsSuffix(b: nat, v: nat, n: nat, m: nat)
    requires b > 0 && m <= n
    ensures ToDigits(b, v, n)[n - m..] == ToDigits(b, v, m)
    decreases m
  {
    if m > 0 {
      var (q, r) := DivMod(v, b);
      DigitsSuffix(b, q, n - 1, m - 1);
    }
  }

  lemma SwapFits(x: u64)
    ensures Swap64(x) < WORD
  {
    SwapReadsMemory(x);
    ValueIsBounded(256, MemoryOf(x));
    PowOfByte(8);
    PowersOfTwo();
  }

  /**
    Storing a word big-endian: its bytes are swapped, and the last `size` of them are copied out of
    memory. The result is the number's last `size` digits in base 256, the first digit first.
   */
  function ToBigEndian(num: u64, size: nat): (data: seq<nat>)
    requires 1 <= size <= 8
    ensures |data| == size && AreDigits(256, data)
  {
    SwapFits(num);
    MemoryOf(Swap64(num))[8 - size..]
  }

  lemma ReversedTwice<T>(s: seq<T>)
    ensures Reverse(Reverse(s)) == s
  {
  }

  lemma MemoryOfMirror(num: u64, mirror: u64)
    requires mirror == Value(256, MemoryOf(num))
    ensures MemoryOf(mirror) == ToDigits(256, num, 8)
  {
    MemoryIsReversedDigits(mirror);
    DigitsOfValue(256, MemoryOf(num));
    MemoryIsReversedDigits(num);
    ReversedTwice(ToDigits(256, num, 8));
  }

  lemma {:induction false} BigEndianIsDigits(num: u64, size: nat)
    requires 1 <= size <= 8
    ensures ToBigEndian(num, size) == ToDigits(256, num, size)
  {
    SwapFits(num);
    SwapReadsMemory(num);
    MemoryOfMirror(num, Swap64(num));
    DigitsSuffix(256, num, 8, size);
  }

  /** Loading up to eight big-endian bytes into a word. */
  method FromBigEndian(data: seq<byte>) returns (res: u64)
    requires 1 <= |data| <= 8
    ensures res == Value(256, data)
  {
    res := 0;
    for i := 0 to |data|
      invariant res == Value(256, data[..i]) < Pow(256, i)
    {
      assert data[..i + 1] == data[..i] + [data[i]];
      ValueOfAppend(256, data[..i], data[i]);
      ValueIsBounded(256, data[..i + 1]);
      LoadByte(res, i, data[i]);
      res := BitOr(Shl(res, 8), data[i]);
    }
    assert data[..|data|] == data;
  }

  lemma BelowSevenBytes(v: nat, i: nat)
    requires i < 8 && v < Pow(256, i)
    ensures v < 0x100_0000_0000_0000
  {
    PowersOfTwo();
    PowOfByte(7);
    PowGrows(256, i, 7);
  }

  lemma ShlByte(v: nat)
    requires v < 0x100_0000_0000_0000
    ensures Shl(v, 8) == v * Pow(2, 8) == v * 256
  {
    PowersOfTwo();
  }

  lemma LoadByte(res: nat, i: nat, b: byte)
    requires i < 8 && res < Pow(256, i)
    ensures BitOr(Shl(res, 8), b) == res * 256 + b < WORD
  {
    BelowSevenBytes(res, i);
    ShlByte(res);
    assert b < Pow(2, 8) by { PowersOfTwo(); }
    OrIsSum(res, 8, b);
  }
}
