/**
  Base58 as used for addresses: the input is cut into blocks of eight bytes, each written as eleven
  symbols, and a shorter last block as the fewest symbols that always suffice.
 */
module Base58 {
  import opened Blocks
  import opened Digits
  import opened Words

  const ALPHABET: string := "123456789" + "ABCDEFGH" + "JKLMN" + "PQRSTUVWXYZ" + "abcdefghijk" + "mnopqrstuvwxyz"
  const ENCODED_SIZES: seq<nat> := [0, 2, 3, 5, 6, 7, 9, 10, 11]
  const FULL_BLOCK: nat := 8
  const FULL_ENCODED_BLOCK: nat := 11

  // ----- the two lookup tables ----------------------------------------------

  /** The symbol for a digit; the alphabet runs through six ranges of characters. */
  function Symbol(d: nat): char
    requires d < 58
  {
    (d + if d < 9 then 49 else if d < 17 then 56 else if d < 22 then 57
         else if d < 33 then 58 else if d < 44 then 64 else 65) as char
  }

  lemma SymbolsAreTheAlphabet(d: nat)
    requires d < 58
    ensures |ALPHABET| == 58 && ALPHABET[d] == Symbol(d)
  {
  }

  /** The digit for a symbol, or -1 for any other character. */
  function DigitOf(c: char): (d: int)
    ensures -1 <= d < 58
  {
    if '1' <= c <= '9' then c as int - 49
    else if 'A' <= c <= 'H' then c as int - 56
    else if 'J' <= c <= 'N' then c as int - 57
    else if 'P' <= c <= 'Z' then c as int - 58
    else if 'a' <= c <= 'k' then c as int - 64
    else if 'm' <= c <= 'z' then c as int - 65
    else -1
  }

  lemma DigitOfSymbol(d: nat)
    requires d < 58
    ensures DigitOf(Symbol(d)) == d
  {
  }

  lemma SymbolOfDigit(c: char)
    requires DigitOf(c) >= 0
    ensures Symbol(DigitOf(c)) == c
  {
  }

  /** A lookup: the index is an unsigned word, so characters before the first symbol are far out. */
  function Lookup(table: seq<int>, letter: char): int {
    var idx := (letter as int - '1' as int) % WORD;
    if idx < |table| then table[idx] else -1
  }

  /** Fills the table from characters to digits. */
  method ReverseAlphabet() returns (table: seq<int>)
    ensures forall c :: Lookup(table, c) == DigitOf(c)
  {
    var data := new int[Symbol(57) as int - Symbol(0) as int + 1](_ => -1);
    for i := 0 to 58
      invariant forall c :: '1' <= c <= 'z' ==>
        data[c as int - 49] == if DigitOf(c) < i then DigitOf(c) else -1
    {
      DigitOfSymbol(i);
      data[Symbol(i) as int - Symbol(0) as int] := i;
    }
    table := data[..];
  }

  /** How many bytes a block of `size` symbols stands for, or -1: the inverse of `ENCODED_SIZES`. */
  function DecodedSize(size: nat): (n: int)
    ensures (0 <= n <= 8 && ENCODED_SIZES[n] == size) || (n == -1 && size !in ENCODED_SIZES)
  {
    if size == 0 then 0 else if size == 2 then 1 else if size == 3 then 2 else if size == 5 then 3
    else if size == 6 then 4 else if size == 7 then 5 else if size == 9 then 6 else if size == 10 then 7
    else if size == 11 then 8 else -1
  }

  /** Fills the table from encoded to decoded block sizes. */
  method DecodedBlockSizes() returns (table: seq<int>)
    ensures |table| == FULL_ENCODED_BLOCK + 1
    ensures forall size :: 0 <= size < |table| ==> table[size] == DecodedSize(size)
  {
    var data := new int[ENCODED_SIZES[FULL_BLOCK] + 1](_ => -1);
    for i := 0 to FULL_BLOCK + 1
      invariant forall k :: 0 <= k < data.Length ==> data[k] == if DecodedSize(k) < i then DecodedSize(k) else -1
    {
      data[ENCODED_SIZES[i]] := i;
    }
    table := data[..];
  }

  // ----- what a block stands for --------------------------------------------

  ghost function ToSymbols(ds: seq<nat>): (s: string)
    requires AreDigits(58, ds)
    ensures |s| == |ds| && forall i :: 0 <= i < |s| ==> s[i] == Symbol(ds[i])
  {
    seq(|ds|, i requires 0 <= i < |ds| => Symbol(ds[i]))
  }

  predicate AllSymbols(s: string) {
    forall i :: 0 <= i < |s| ==> DigitOf(s[i]) >= 0
  }

  function ToNumerals(s: string): (ds: seq<nat>)
    requires AllSymbols(s)
    ensures |ds| == |s| && AreDigits(58, ds) && forall i :: 0 <= i < |s| ==> ds[i] == DigitOf(s[i])
  {
    seq(|s|, i requires 0 <= i < |s| => DigitOf(s[i]))
  }

  /** A block's bytes as one number, written in base 58 with as many symbols as its length calls for. */
  ghost function EncodedBlock(block: Bytes): (s: string)
    requires |block| <= 8
    ensures |s| == ENCODED_SIZES[|block|]
  {
    ToSymbols(ToDigits(58, Value(256, block), ENCODED_SIZES[|block|]))
  }

  /** The blocks that stand for something: a legal size, symbols only, and a number that fits. */
  ghost predicate IsEncodedBlock(s: string) {
    DecodedSize(|s|) > 0 && AllSymbols(s) && Value(58, ToNumerals(s)) < Pow(256, DecodedSize(|s|))
  }

  ghost function DecodedBlock(s: string): (r: Option<Bytes>)
    ensures r.Some? ==> |r.value| == DecodedSize(|s|) > 0
  {
    if IsEncodedBlock(s) then Some(ToDigits(256, Value(58, ToNumerals(s)), DecodedSize(|s|))) else None
  }

  lemma PowersOf58()
    ensures Pow(58, 1) == 58 && Pow(58, 2) == 3364 && Pow(58, 3) == 195112 && Pow(58, 4) == 11316496
    ensures Pow(58, 5) == 656356768 && Pow(58, 6) == 38068692544 && Pow(58, 7) == 2207984167552
    ensures Pow(58, 8) == 128063081718016 && Pow(58, 9) == 7427658739644928
    ensures Pow(58, 10) == 430804206899405824 && Pow(58, 11) == 24986644000165537792
  {
    assert Pow(58, 2) == 58 * Pow(58, 1);
    assert Pow(58, 3) == 58 * Pow(58, 2);
    assert Pow(58, 4) == 58 * Pow(58, 3);
    assert Pow(58, 5) == 58 * Pow(58, 4);
    assert Pow(58, 6) == 58 * Pow(58, 5);
    assert Pow(58, 7) == 58 * Pow(58, 6);
    assert Pow(58, 8) == 58 * Pow(58, 7);
    assert Pow(58, 9) == 58 * Pow(58, 8);
    assert Pow(58, 10) == 58 * Pow(58, 9);
    assert Pow(58, 11) == 58 * Pow(58, 10);
  }

  lemma PowersOf256()
    ensures Pow(256, 0) == 1 && Pow(256, 1) == 0x100 && Pow(256, 2) == 0x1_0000 && Pow(256, 3) == 0x100_0000
    ensures Pow(256, 4) == 0x1_0000_0000 && Pow(256, 5) == 0x100_0000_0000 && Pow(256, 6) == 0x1_0000_0000_0000
    ensures Pow(256, 7) == 0x100_0000_0000_0000 && Pow(256, 8) == WORD
  {
    assert Pow(256, 2) == 256 * Pow(256, 1);
    assert Pow(256, 3) == 256 * Pow(256, 2);
    assert Pow(256, 4) == 256 * Pow(256, 3);
    assert Pow(256, 5) == 256 * Pow(256, 4);
    assert Pow(256, 6) == 256 * Pow(256, 5);
    assert Pow(256, 7) == 256 * Pow(256, 6);
    assert Pow(256, 8) == 256 * Pow(256, 7);
  }

  /** The table of sizes: enough symbols for every block of `n` bytes, and never one too many. */
  lemma {:induction false} SizesAreLeast(n: nat)
    requires n <= 8
    ensures Pow(256, n) <= Pow(58, ENCODED_SIZES[n])
    ensures n > 0 ==> ENCODED_SIZES[n] > 0 && Pow(58, ENCODED_SIZES[n] - 1) < Pow(256, n)
    ensures DecodedSize(ENCODED_SIZES[n]) == n
  {
    PowersOf58();
    PowersOf256();
  }

  lemma NumeralsOfSymbols(ds: seq<nat>)
    requires AreDigits(58, ds)
    ensures AllSymbols(ToSymbols(ds)) && ToNumerals(ToSymbols(ds)) == ds
  {
    forall i | 0 <= i < |ds| ensures DigitOf(ToSymbols(ds)[i]) == ds[i] {
      DigitOfSymbol(ds[i]);
    }
  }

  /** Decoding a block undoes encoding it. */
  lemma BlockRoundTrip(block: Bytes)
    requires 1 <= |block| <= 8
    ensures DecodedBlock(EncodedBlock(block)) == Some(block)
  {
    var n := |block|;
    var v := Value(256, block);
    SizesAreLeast(n);
    ValueIsBounded(256, block);
    var ds := ToDigits(58, v, ENCODED_SIZES[n]);
    NumeralsOfSymbols(ds);
    ValueOfDigits(58, v, ENCODED_SIZES[n]);
    DigitsOfValue(256, block);
  }

  /** And the other way round, whenever decoding succeeds. */
  lemma {:induction false} BlockRoundTripBack(s: string)
    requires DecodedBlock(s).Some?
    ensures EncodedBlock(DecodedBlock(s).value) == s
  {
    var n, ds := DecodedSize(|s|), ToNumerals(s);
    ValueOfDigits(256, Value(58, ds), n);
    DigitsOfValue(58, ds);
    forall i | 0 <= i < |s| ensures Symbol(ds[i]) == s[i] {
      SymbolOfDigit(s[i]);
    }
    assert ToSymbols(ds) == s;
  }

  // ----- the coder for one block --------------------------------------------

  /** Writes a block into a buffer that holds the first symbol everywhere. */
  method EncodeBlock(block: Bytes, res: array<char>, at: nat)
    requires 1 <= |block| <= 8 && at + ENCODED_SIZES[|block|] <= res.Length
    requires forall k :: at <= k < at + ENCODED_SIZES[|block|] ==> res[k] == Symbol(0)
    modifies res
    ensures res[..] == old(res[..])[..at] + EncodedBlock(block) + old(res[..])[at + ENCODED_SIZES[|block|]..]
  {
    SizesAreLeast(|block|);
    ValueIsBounded(256, block);
    var num := FromBigEndian(block);
    WriteSymbols(num, ENCODED_SIZES[|block|], res, at);
  }

  lemma BufferMovesOn(before: seq<char>, m: nat, symbols: seq<char>, rest: seq<char>, c: char)
    requires 0 < m <= |before|
    ensures (before[..m] + (symbols + rest))[m - 1 := c] == before[..m - 1] + (([c] + symbols) + rest)
  {
  }

  lemma SymbolsCons(d: nat, ds: seq<nat>)
    requires d < 58 && AreDigits(58, ds)
    ensures AreDigits(58, [d] + ds) && ToSymbols([d] + ds) == [Symbol(d)] + ToSymbols(ds)
  {
  }

  lemma DigitsMoveOn(digits: seq<nat>, num: nat, n: nat, done: seq<nat>)
    requires n > 0 && digits == ToDigits(58, num, n) + done
    ensures digits == ToDigits(58, num / 58, n - 1) + ([num % 58] + done)
  {
    DigitsStep(58, num, n);
  }

  /** The state of the digit loop: `i + 1` places are left, and `num` goes there. */
  ghost predicate Writing(buffer: seq<char>, before: seq<char>, at: nat, value: nat, size: nat,
                          num: nat, i: int, done: seq<nat>) {
    && at + size <= |before| && -1 <= i < size && |done| == size - 1 - i && AreDigits(58, done)
    && num < Pow(58, i + 1) && ToDigits(58, value, size) == ToDigits(58, num, i + 1) + done
    && buffer == before[..at + i + 1] + (ToSymbols(done) + before[at + size..])
  }

  lemma WritingStarts(before: seq<char>, at: nat, value: nat, size: nat)
    requires at + size <= |before| && value < Pow(58, size)
    ensures Writing(before, before, at, value, size, value, size - 1, [])
  {
    assert before == before[..at + size] + (ToSymbols([]) + before[at + size..]);
  }

  lemma WritingMovesOn(buffer: seq<char>, before: seq<char>, at: nat, value: nat, size: nat,
                       num: nat, i: int, done: seq<nat>)
    requires Writing(buffer, before, at, value, size, num, i, done) && num > 0
    ensures 0 <= i && at + i < |buffer|
    ensures Writing(buffer[at + i := Symbol(num % 58)], before, at, value, size, num / 58, i - 1, [num % 58] + done)
  {
    assert 0 <= i by { assert Pow(58, 0) == 1; }
    DigitsMoveOn(ToDigits(58, value, size), num, i + 1, done);
    SymbolsCons(num % 58, done);
    BufferMovesOn(before, at + i + 1, ToSymbols(done), before[at + size..], Symbol(num % 58));
    assert num / 58 < Pow(58, i);
  }

  lemma WritingEnds(buffer: seq<char>, before: seq<char>, at: nat, value: nat, size: nat, i: int, done: seq<nat>)
    requires Writing(buffer, before, at, value, size, 0, i, done)
    requires forall k :: at <= k < at + size ==> before[k] == Symbol(0)
    ensures buffer == before[..at] + ToSymbols(ToDigits(58, value, size)) + before[at + size..]
  {
    ZeroDigits(i + 1);
    assert before[..at + i + 1] + ToSymbols(done) == before[..at] + ToSymbols(ToDigits(58, 0, i + 1) + done);
    assert buffer == before[..at + i + 1] + ToSymbols(done) + before[at + size..];
  }

  /** The digit loop, from the last symbol to the first; leading zeros are already in place. */
  method WriteSymbols(value: u64, size: nat, res: array<char>, at: nat)
    requires at + size <= res.Length && value < Pow(58, size)
    requires forall k :: at <= k < at + size ==> res[k] == Symbol(0)
    modifies res
    ensures res[..] == old(res[..])[..at] + ToSymbols(ToDigits(58, value, size)) + old(res[..])[at + size..]
  {
    ghost var before := res[..];
    ghost var done: seq<nat> := [];
    var num: u64, i: int := value, size - 1;
    WritingStarts(before, at, value, size);
    while 0 < num
      invariant Writing(res[..], before, at, value, size, num, i, done)
    {
      WritingMovesOn(res[..], before, at, value, size, num, i, done);
      done := [num % 58] + done;
      res[at + i] := Symbol(num % 58);
      num := num / 58;
      i := i - 1;
    }
    WritingEnds(res[..], before, at, value, size, i, done);
  }

  lemma {:induction false} ZeroDigits(n: nat)
    ensures forall k :: 0 <= k < n ==> ToDigits(58, 0, n)[k] == 0
  {
    if n > 0 {
      DigitsStep(58, 0, n);
      ZeroDigits(n - 1);
    }
  }

  lemma NumeralsOfSuffix(s: string, i: nat)
    requires i < |s| && AllSymbols(s[i + 1..]) && DigitOf(s[i]) >= 0
    ensures AllSymbols(s[i..]) && ToNumerals(s[i..]) == [DigitOf(s[i])] + ToNumerals(s[i + 1..])
  {
    assert s[i..] == [s[i]] + s[i + 1..];
  }

  /** A number too large for a word at the end of a block makes the whole block too large. */
  lemma OverflowIsFinal(s: string, i: nat)
    requires i <= |s| <= 11 && AllSymbols(s[i..]) && Value(58, ToNumerals(s[i..])) >= WORD
    ensures !IsEncodedBlock(s)
  {
    if AllSymbols(s) && DecodedSize(|s|) > 0 {
      assert ToNumerals(s)[i..] == ToNumerals(s[i..]);
      ValueOfSuffix(58, ToNumerals(s), i);
      assert Pow(256, 8) == WORD by { PowersOf256(); }
      PowGrows(256, DecodedSize(|s|), 8);
    }
  }

  /** The state of the decoding loop: the symbols from `i` on are read, the next one weighs `order`. */
  ghost predicate Reading(block: string, i: int, resNum: nat, order: nat) {
    && 0 <= i <= |block| && AllSymbols(block[i..])
    && resNum == Value(58, ToNumerals(block[i..]))
    && (i > 0 ==> order == Pow(58, |block| - i))
  }

  lemma {:induction false} ReadingValue(block: string, i: nat, resNum: nat, order: nat, digit: nat)
    requires Reading(block, i + 1, resNum, order) && DigitOf(block[i]) == digit
    ensures AllSymbols(block[i..]) && Value(58, ToNumerals(block[i..])) == resNum + order * digit
  {
    NumeralsOfSuffix(block, i);
    NextNumeral(digit, ToNumerals(block[i + 1..]), ToNumerals(block[i..]), order);
  }

  lemma {:induction false} NextNumeral(digit: nat, ds: seq<nat>, ds': seq<nat>, order: nat)
    requires ds' == [digit] + ds && order == Pow(58, |ds|)
    ensures Value(58, ds') == Value(58, ds) + order * digit
  {
    ValueCons(58, digit, ds);
  }

  lemma ReadingMovesOn(block: string, i: nat, resNum: nat, order: nat, digit: nat)
    requires Reading(block, i + 1, resNum, order) && |block| <= 11 && DigitOf(block[i]) == digit
    ensures resNum + order * digit < WORD ==> Reading(block, i, resNum + order * digit, (order * 58) % WORD)
    ensures resNum + order * digit >= WORD ==> !IsEncodedBlock(block)
  {
    ReadingValue(block, i, resNum, order, digit);
    var sum := resNum + order * digit;
    if sum >= WORD {
      OverflowIsFinal(block, i);
    }
    NextOrder(|block| - i);
  }

  lemma ReadingEnds(block: string, resNum: nat, order: nat)
    requires Reading(block, 0, resNum, order)
    ensures AllSymbols(block) && resNum == Value(58, ToNumerals(block))
  {
    assert block[0..] == block;
  }

  /** Adding one more digit in a word: both tests together notice exactly the sums that do not fit. */
  method AddDigit(resNum: u64, order: u64, digit: nat) returns (r: Option<u64>)
    requires digit < 58
    ensures r == if resNum + order * digit < WORD then Some(resNum + order * digit) else None
  {
    var lo, hi := Mul128(order, digit);
    var tmp := (resNum + lo) % WORD;
    if tmp < resNum || 0 != hi {
      return None;
    }
    return Some(tmp);
  }

  /**
    Reads a block from its last symbol to its first. `order` is the weight of the current symbol; the
    last multiplication by 58 may wrap around, and its result is not used.
   */
  method DecodeBlock(block: string, sizes: seq<int>, reverse: seq<int>) returns (r: Option<Bytes>)
    requires 1 <= |block| <= FULL_ENCODED_BLOCK
    requires |sizes| == FULL_ENCODED_BLOCK + 1 && forall n :: 0 <= n < |sizes| ==> sizes[n] == DecodedSize(n)
    requires forall c :: Lookup(reverse, c) == DigitOf(c)
    ensures r == DecodedBlock(block)
  {
    var resSize := sizes[|block|];
    if resSize <= 0 {
      return None;
    }
    var resNum: u64, order: u64, i := 0, 1, |block|;
    while i > 0
      invariant Reading(block, i, resNum, order)
    {
      i := i - 1;
      var digit := Lookup(reverse, block[i]);
      if digit < 0 {
        return None;
      }
      ReadingMovesOn(block, i, resNum, order, digit);
      var sum := AddDigit(resNum, order, digit);
      if sum.None? {
        return None;
      }
      resNum := sum.value;
      order := (order * 58) % WORD;
    }
    ReadingEnds(block, resNum, order);
    r := StoreBlock(resNum, resSize);
  }

  /** Stores a number big-endian in `resSize` bytes, if it fits. */
  method StoreBlock(resNum: u64, resSize: nat) returns (r: Option<Bytes>)
    requires 1 <= resSize <= 8
    ensures r == if resNum < Pow(256, resSize) then Some(ToDigits(256, resNum, resSize)) else None
  {
    FitsInBytes(resSize);
    if resSize < FULL_BLOCK && Shl(1, 8 * resSize) <= resNum {
      return None;
    }
    BigEndianIsDigits(resNum, resSize);
    return Some(ToBigEndian(resNum, resSize));
  }

  lemma NextOrder(k: nat)
    requires 1 <= k <= 11
    ensures k <= 10 ==> (Pow(58, k - 1) * 58) % WORD == Pow(58, k)
  {
    PowersOf58();
  }

  lemma FitsInBytes(n: nat)
    requires 1 <= n <= 8
    ensures n < 8 ==> Shl(1, 8 * n) == Pow(256, n)
    ensures Pow(256, 8) == WORD
  {
    PowersOf256();
    PowersOfTwo();
  }

  // ----- whole strings ------------------------------------------------------

  /** An encoded block is the same number in base 58, with the length its size calls for. */
  lemma EncodedBlockValue(block: Bytes)
    requires |block| <= 8
    ensures |EncodedBlock(block)| == ENCODED_SIZES[|block|] && AllSymbols(EncodedBlock(block))
    ensures Value(58, ToNumerals(EncodedBlock(block))) == Value(256, block)
  {
    var n := Value(256, block);
    ValueIsBounded(256, block);
    SizesAreLeast(|block|);
    ValueOfDigits(58, n, ENCODED_SIZES[|block|]);
    NumeralsOfSymbols(ToDigits(58, n, ENCODED_SIZES[|block|]));
  }

  /** The block code, extended to blocks that do not occur. */
  ghost function BlockCode(block: Bytes): string {
    if |block| <= 8 then EncodedBlock(block) else ""
  }

  ghost function BlockDecode(s: string): Option<Bytes> {
    DecodedBlock(s)
  }

  /** Full blocks first, then what is left. */
  ghost function Encoded(data: Bytes): string {
    MapBlocks(BlockCode, 8, data)
  }

  ghost function Decoded(enc: string): Option<Bytes> {
    TryBlocks(BlockDecode, 11, enc)
  }

  /** Eight bytes at a time, then the rest. */
  lemma EncodedByBlocks(first: Bytes, rest: Bytes)
    requires |first| <= 8
    ensures Encoded(first) == EncodedBlock(first)
    ensures |first| == 8 ==> Encoded(first + rest) == EncodedBlock(first) + Encoded(rest)
  {
    if first == [] { assert EncodedBlock(first) == ""; }
    if |first| == 8 { MapCons(BlockCode, 8, first, rest); }
  }

  lemma BlockCodeUndone(b: Bytes, code: string)
    requires 0 < |b| <= 8 && code == EncodedBlock(b)
    ensures DecodedBlock(code) == Some(b) && 0 < |code| <= 11 && (|b| == 8 <==> |code| == 11)
  {
    BlockRoundTrip(b);
  }

  lemma {:induction false} BlocksUndo()
    ensures Undoes(BlockCode, 8, BlockDecode, 11)
  {
    forall b: Bytes | 0 < |b| <= 8
      ensures BlockDecode(BlockCode(b)) == Some(b) && 0 < |BlockCode(b)| <= 11 && (|b| == 8 <==> |BlockCode(b)| == 11)
    {
      BlockCodeUndone(b, EncodedBlock(b));
    }
  }

  lemma {:induction false} BlocksAreUndone()
    ensures UndoneBy(BlockCode, 8, BlockDecode, 11)
  {
    forall e: string | 0 < |e| <= 11 && BlockDecode(e).Some?
      ensures var b := BlockDecode(e).value; BlockCode(b) == e && 0 < |b| <= 8 && (|b| == 8 <==> |e| == 11)
    {
      BlockRoundTripBack(e);
    }
  }

  /** Decoding undoes encoding, for byte strings of every length. */
  lemma DecodeUndoesEncode(data: Bytes)
    ensures Decoded(Encoded(data)) == Some(data)
  {
    BlocksUndo();
    TryUndoesMap(BlockCode, 8, BlockDecode, 11, data);
  }

  /** Encoding undoes decoding, for every text that decodes. */
  lemma EncodeUndoesDecode(enc: string)
    requires Decoded(enc).Some?
    ensures Encoded(Decoded(enc).value) == enc
  {
    BlocksAreUndone();
    MapUndoesTry(BlockCode, 8, BlockDecode, 11, enc);
  }

  /** So a text decodes exactly when it is the encoding of some bytes, and of no others. */
  lemma DecodesIffEncoded(enc: string, data: Bytes)
    ensures Decoded(enc) == Some(data) <==> enc == Encoded(data)
  {
    DecodeUndoesEncode(data);
    if Decoded(enc).Some? {
      EncodeUndoesDecode(enc);
    }
  }

  // ----- the coder for whole strings ----------------------------------------

  /** The state of the encoding loop: `i` full blocks are written, the rest holds the first symbol. */
  ghost predicate Encoding<A>(f: seq<A> -> string, buffer: string, data: seq<A>, i: nat) {
    && 8 * i <= |data| && 11 * i <= |buffer| && buffer[..11 * i] == MapBlocks(f, 8, data[..8 * i])
    && Blank(buffer, 11 * i)
  }

  ghost predicate Blank(buffer: string, from: nat) {
    forall k :: from <= k < |buffer| ==> buffer[k] == Symbol(0)
  }

  lemma EncodingMovesOn<A>(f: seq<A> -> string, buffer: string, data: seq<A>, i: nat, block: seq<A>, code: string)
    requires Encoding(f, buffer, data, i) && 11 * i + 11 <= |buffer| && 8 * i + 8 <= |data|
    requires block == data[8 * i..8 * i + 8] && f(block) == code && |code| == 11
    ensures Encoding(f, buffer[..11 * i] + code + buffer[11 * i + 11..], data, i + 1)
  {
    MapAppend(f, 8, data[..8 * i], i, block);
    assert data[..8 * (i + 1)] == data[..8 * i] + block;
  }

  lemma {:induction false} EncodingEnds<A>(f: seq<A> -> string, buffer: string, data: seq<A>, i: nat,
                                                block: seq<A>, code: string)
    requires Encoding(f, buffer, data, i) && 11 * i + |code| == |buffer| && |data| - 8 * i < 8
    requires block == data[8 * i..] && (if block == [] then code == [] else f(block) == code)
    ensures buffer[..11 * i] + code + buffer[11 * i + |code|..] == MapBlocks(f, 8, data)
  {
    MapAppend(f, 8, data[..8 * i], i, block);
    assert data == data[..8 * i] + block;
  }

  /** The loop over the full blocks. */
  method EncodeFullBlocks(data: Bytes, res: array<char>, fullBlocks: nat)
    requires 8 * fullBlocks <= |data| && 11 * fullBlocks <= res.Length && Blank(res[..], 0)
    modifies res
    ensures Encoding(BlockCode, res[..], data, fullBlocks)
  {
    for i := 0 to fullBlocks
      invariant Encoding(BlockCode, res[..], data, i)
    {
      var block := data[i * FULL_BLOCK..i * FULL_BLOCK + FULL_BLOCK];
      EncodingMovesOn(BlockCode, res[..], data, i, block, EncodedBlock(block));
      EncodeBlock(block, res, i * FULL_ENCODED_BLOCK);
    }
  }

  /** The shorter last block, if there is one. */
  method EncodeLastBlock(data: Bytes, res: array<char>, fullBlocks: nat)
    requires 8 * fullBlocks <= |data| < 8 * fullBlocks + 8
    requires res.Length == 11 * fullBlocks + ENCODED_SIZES[|data| - 8 * fullBlocks]
    requires Encoding(BlockCode, res[..], data, fullBlocks)
    modifies res
    ensures res[..] == Encoded(data)
  {
    var block := data[fullBlocks * FULL_BLOCK..];
    EncodingEnds(BlockCode, res[..], data, fullBlocks, block, EncodedBlock(block));
    if 0 < |block| {
      EncodeBlock(block, res, fullBlocks * FULL_ENCODED_BLOCK);
    }
  }

  method Encode(data: Bytes) returns (text: string)
    ensures text == Encoded(data)
  {
    if data == [] {
      return "";
    }
    var fullBlocks, last := |data| / FULL_BLOCK, |data| % FULL_BLOCK;
    var res := new char[fullBlocks * FULL_ENCODED_BLOCK + ENCODED_SIZES[last]](_ => Symbol(0));
    EncodeFullBlocks(data, res, fullBlocks);
    EncodeLastBlock(data, res, fullBlocks);
    text := res[..];
  }

  /** The state of the decoding loop: `i` full blocks are read. */
  ghost predicate Decoding<A>(g: string -> Option<seq<A>>, enc: string, data: seq<A>, i: nat) {
    11 * i <= |enc| && TryBlocks(g, 11, enc[..11 * i]) == Some(data)
  }

  lemma DecodingMovesOn<A>(g: string -> Option<seq<A>>, enc: string, data: seq<A>, i: nat, block: string)
    requires Decoding(g, enc, data, i) && 11 * i + 11 <= |enc| && block == enc[11 * i..11 * i + 11]
    ensures g(block).Some? ==> Decoding(g, enc, data + g(block).value, i + 1)
    ensures g(block).None? ==> TryBlocks(g, 11, enc).None?
  {
    TryAppend(g, 11, enc[..11 * i], i, block);
    assert enc[..11 * (i + 1)] == enc[..11 * i] + block;
    TryAppend(g, 11, enc[..11 * (i + 1)], i + 1, enc[11 * (i + 1)..]);
    assert enc == enc[..11 * (i + 1)] + enc[11 * (i + 1)..];
  }

  lemma DecodingEnds<A>(g: string -> Option<seq<A>>, enc: string, data: seq<A>, i: nat, block: string)
    requires Decoding(g, enc, data, i) && |enc| - 11 * i < 11 && block == enc[11 * i..]
    ensures TryBlocks(g, 11, enc) == if block == [] then Some(data) else Join(Some(data), g(block))
  {
    TryAppend(g, 11, enc[..11 * i], i, block);
    assert enc == enc[..11 * i] + block;
    assert data + [] == data;
  }

  /** A last block that cannot be decoded spoils everything before it. */
  lemma BadLastBlock<A>(g: string -> Option<seq<A>>, enc: string, i: nat, block: string)
    requires 11 * i < |enc| && |enc| - 11 * i < 11 && block == enc[11 * i..] && g(block).None?
    ensures TryBlocks(g, 11, enc).None?
  {
    TryAppend(g, 11, enc[..11 * i], i, block);
    assert enc == enc[..11 * i] + block;
  }

  method Decode(enc: string) returns (r: Option<Bytes>)
    ensures r == Decoded(enc)
  {
    if enc == [] {
      return Some([]);
    }
    var sizes := DecodedBlockSizes();
    var reverse := ReverseAlphabet();
    var fullBlocks, last := |enc| / FULL_ENCODED_BLOCK, |enc| % FULL_ENCODED_BLOCK;
    var lastBlock := enc[fullBlocks * FULL_ENCODED_BLOCK..];
    if sizes[last] < 0 {
      BadLastBlock(BlockDecode, enc, fullBlocks, lastBlock);
      return None;
    }
    var data: Bytes := [];
    for i := 0 to fullBlocks
      invariant Decoding(BlockDecode, enc, data, i)
    {
      var block := enc[i * FULL_ENCODED_BLOCK..i * FULL_ENCODED_BLOCK + FULL_ENCODED_BLOCK];
      DecodingMovesOn(BlockDecode, enc, data, i, block);
      var decoded := DecodeBlock(block, sizes, reverse);
      if decoded.None? {
        return None;
      }
      data := data + decoded.value;
    }
    DecodingEnds(BlockDecode, enc, data, fullBlocks, lastBlock);
    if 0 < last {
      var decoded := DecodeBlock(lastBlock, sizes, reverse);
      if decoded.None? {
        return None;
      }
      data := data + decoded.value;
    }
    return Some(data);
  }
}
