/**
  Decoding of base 64 (section 4 of RFC 4648). The decoder takes symbols up to the first other character
  and has no opinion on padding.
 */
module Base64 {
  import opened Blocks
  import opened Digits
  import opened Words

  // ----- the alphabet -------------------------------------------------------

  /** Table 1 of RFC 4648. */
  const ALPHABET: string := "ABCDEFGHIJKLMNOPQRSTUVWXYZ" + "abcdefghijklmnopqrstuvwxyz" + "0123456789" + "+/"

  function Symbol(v: nat): char
    requires v < 64
  {
    if v < 26 then ('A' as int + v) as char
    else if v < 52 then ('a' as int + (v - 26)) as char
    else if v < 62 then ('0' as int + (v - 52)) as char
    else if v == 62 then '+' else '/'
  }

  /** The position of a symbol; 255 is what is left of "not found" in a byte. */
  function Find(c: char): (v: nat)
    ensures v < 64 || v == 255
  {
    if 'A' <= c <= 'Z' then c as int - 'A' as int
    else if 'a' <= c <= 'z' then c as int - 'a' as int + 26
    else if '0' <= c <= '9' then c as int - '0' as int + 52
    else if c == '+' then 62 else if c == '/' then 63 else 255
  }

  predicate IsSymbol(c: char) {
    Find(c) < 64
  }

  lemma SymbolsAreTheAlphabet(v: nat)
    requires v < 64
    ensures |ALPHABET| == 64 && ALPHABET[v] == Symbol(v)
  {
  }

  /** A character is found at its place in the alphabet, and not at all if it has none. */
  lemma FindIsPosition(c: char)
    ensures |ALPHABET| == 64
    ensures Find(c) < 64 ==> ALPHABET[Find(c)] == c
    ensures Find(c) == 255 <==> c !in ALPHABET
  {
    SymbolsAreTheAlphabet(0);
    if Find(c) < 64 {
      SymbolFound(c);
      SymbolsAreTheAlphabet(Find(c));
    } else {
      forall v: nat | v < 64 ensures ALPHABET[v] != c {
        SymbolsAreTheAlphabet(v);
        FindSymbol(v);
      }
    }
  }

  lemma FindSymbol(v: nat)
    requires v < 64
    ensures Find(Symbol(v)) == v
  {
  }

  lemma SymbolFound(c: char)
    requires IsSymbol(c)
    ensures Symbol(Find(c)) == c
  {
  }

  ghost predicate AllSymbols(s: string) {
    forall i :: 0 <= i < |s| ==> IsSymbol(s[i])
  }

  ghost function Symbols(vs: seq<nat>): (s: string)
    requires AreDigits(64, vs)
    ensures |s| == |vs| && forall i :: 0 <= i < |s| ==> s[i] == Symbol(vs[i])
  {
    seq(|vs|, i requires 0 <= i < |vs| => Symbol(vs[i]))
  }

  ghost function Values(s: string): (vs: seq<nat>)
    ensures |vs| == |s| && forall i :: 0 <= i < |s| ==> vs[i] == Find(s[i])
  {
    seq(|s|, i requires 0 <= i < |s| => Find(s[i]))
  }

  lemma ValuesOfSymbols(vs: seq<nat>)
    requires AreDigits(64, vs)
    ensures AllSymbols(Symbols(vs)) && Values(Symbols(vs)) == vs
  {
    forall i | 0 <= i < |vs| ensures Find(Symbols(vs)[i]) == vs[i] {
      FindSymbol(vs[i]);
    }
  }

  lemma SymbolsOfValues(s: string)
    requires AllSymbols(s)
    ensures AreDigits(64, Values(s)) && Symbols(Values(s)) == s
  {
    forall i | 0 <= i < |s| ensures Symbol(Values(s)[i]) == s[i] {
      SymbolFound(s[i]);
    }
  }

  // ----- blocks of up to three bytes and four groups of six bits ------------

  /** Section 4 of RFC 4648: up to three bytes as groups of six bits, without the padding. */
  ghost function Groups(b: Bytes): (vs: seq<nat>)
    ensures AreDigits(64, vs) && |vs| == if 0 < |b| <= 3 then |b| + 1 else 0
  {
    if |b| == 3 then [b[0] / 4, b[0] % 4 * 16 + b[1] / 16, b[1] % 16 * 4 + b[2] / 64, b[2] % 64]
    else if |b| == 2 then [b[0] / 4, b[0] % 4 * 16 + b[1] / 16, b[1] % 16 * 4]
    else if |b| == 1 then [b[0] / 4, b[0] % 4 * 16]
    else []
  }

  lemma ValueOfFew(base: nat, ds: seq<nat>)
    ensures |ds| == 1 ==> Value(base, ds) == ds[0]
    ensures |ds| == 2 ==> Value(base, ds) == ds[0] * base + ds[1]
    ensures |ds| == 3 ==> Value(base, ds) == (ds[0] * base + ds[1]) * base + ds[2]
    ensures |ds| == 4 ==> Value(base, ds) == ((ds[0] * base + ds[1]) * base + ds[2]) * base + ds[3]
    decreases |ds|
  {
    if 1 < |ds| <= 4 {
      ValueOfFew(base, ds[..|ds|-1]);
    } else if |ds| == 1 {
      assert ds[..0] == [];
    }
  }

  /** Cutting at other places leaves the bits as they are. */
  lemma Recut(x: nat, y: nat, z: nat)
    ensures (x / 4) * 64 + x % 4 * 16 == x * 16
    ensures ((x / 4) * 64 + (x % 4 * 16 + y / 16)) * 64 + y % 16 * 4 == (x * 256 + y) * 4
    ensures (((x / 4) * 64 + (x % 4 * 16 + y / 16)) * 64 + (y % 16 * 4 + z / 64)) * 64 + z % 64
         == (x * 256 + y) * 256 + z
  {
  }

  /** The groups are the bytes as one number, in base 64, with zero bits to fill up the last group. */
  lemma GroupsAreNumeral(b: Bytes)
    requires 0 < |b| <= 3
    ensures Value(64, Groups(b)) == Value(256, b) * (if |b| == 3 then 1 else if |b| == 2 then 4 else 16)
  {
    Recut(b[0], if |b| > 1 then b[1] else 0, if |b| > 2 then b[2] else 0);
    ValueOfFew(256, b);
    ValueOfFew(64, Groups(b));
  }

  function First(a: nat, b: nat): nat { a * 4 + b / 16 }

  function Second(b: nat, c: nat): nat { b % 16 * 16 + c / 4 }

  function Third(c: nat, d: nat): nat { c % 4 * 64 + d }

  /** One byte less than there are groups. */
  ghost function Joined(vs: seq<nat>): (b: Bytes)
    requires AreDigits(64, vs)
    ensures |b| == if 1 <= |vs| <= 4 then |vs| - 1 else 0
  {
    if |vs| == 4 then [First(vs[0], vs[1]), Second(vs[1], vs[2]), Third(vs[2], vs[3])]
    else if |vs| == 3 then [First(vs[0], vs[1]), Second(vs[1], vs[2])]
    else if |vs| == 2 then [First(vs[0], vs[1])]
    else []
  }

  lemma FirstByte(p: nat, q: nat, y: nat)
    requires y < 16
    ensures First(p, q * 16 + y) == p * 4 + q
  {
  }

  lemma SecondByte(q: nat, r: nat, s: nat, z: nat)
    requires r < 16 && z < 4
    ensures Second(q * 16 + r, s * 4 + z) == r * 16 + s
  {
    ModOf(q, 16, r);
  }

  lemma ThirdByte(s: nat, t: nat, u: nat)
    requires t < 4
    ensures Third(s * 4 + t, u) == t * 64 + u
  {
    ModOf(s, 4, t);
  }

  lemma {:induction false} ModOf(q: nat, m: nat, r: nat)
    requires r < m
    ensures (q * m + r) % m == r
  {
    DivModIs(q * m + r, m, q, r);
  }

  lemma GroupsRoundTrip(b: Bytes)
    requires 0 < |b| <= 3
    ensures Joined(Groups(b)) == b
  {
    var x := b[0];
    if |b| == 1 {
      FirstByte(x / 4, x % 4, 0);
    } else {
      var y := b[1];
      FirstByte(x / 4, x % 4, y / 16);
      if |b| == 2 {
        SecondByte(x % 4, y / 16, y % 16, 0);
      } else {
        SecondByte(x % 4, y / 16, y % 16, b[2] / 64);
        ThirdByte(y % 16, b[2] / 64, b[2] % 64);
      }
    }
  }

  /** No bits beyond the last byte. */
  ghost predicate NoSpareBits(vs: seq<nat>) {
    (|vs| == 2 ==> vs[1] % 16 == 0) && (|vs| == 3 ==> vs[2] % 4 == 0)
  }

  lemma PartsOfFirst(a: nat, b: nat)
    requires a < 64 && b < 64
    ensures First(a, b) / 4 == a && First(a, b) % 4 == b / 16
  {
  }

  lemma PartsOfSecond(b: nat, c: nat)
    requires b < 64 && c < 64
    ensures Second(b, c) / 16 == b % 16 && Second(b, c) % 16 == c / 4
  {
  }

  lemma PartsOfThird(c: nat, d: nat)
    requires c < 64 && d < 64
    ensures Third(c, d) / 64 == c % 4 && Third(c, d) % 64 == d
  {
  }

  lemma {:induction false} GroupsRoundTripBack(vs: seq<nat>)
    requires 0 < |vs| <= 4 && AreDigits(64, vs)
    ensures Groups(Joined(vs)) == vs <==> |vs| != 1 && NoSpareBits(vs)
  {
    if |vs| > 1 {
      PartsOfFirst(vs[0], vs[1]);
      if |vs| > 2 {
        PartsOfSecond(vs[1], vs[2]);
        if |vs| > 3 {
          PartsOfThird(vs[2], vs[3]);
        }
      }
    }
  }

  // ----- whole texts --------------------------------------------------------

  ghost function EncodedBlock(b: Bytes): string {
    Symbols(Groups(b))
  }

  ghost function DecodedBlock(e: string): Bytes {
    if AllSymbols(e) then Joined(Values(e)) else []
  }

  ghost function Encoded(data: Bytes): string {
    MapBlocks(EncodedBlock, 3, data)
  }

  /** How many symbols a text starts with. */
  ghost function SymbolCount(text: string): (n: nat)
    ensures n <= |text| && AllSymbols(text[..n]) && (n < |text| ==> !IsSymbol(text[n]))
  {
    if text == [] || !IsSymbol(text[0]) then 0
    else
      var n := SymbolCount(text[1..]);
      assert text[..n + 1] == [text[0]] + text[1..][..n];
      n + 1
  }

  ghost function Decoded(text: string): Bytes {
    MapBlocks(DecodedBlock, 4, text[..SymbolCount(text)])
  }

  lemma {:induction false} BlockUndone(b: Bytes)
    requires 0 < |b| <= 3
    ensures var e := EncodedBlock(b); DecodedBlock(e) == b && |e| == |b| + 1 && AllSymbols(e)
  {
    ValuesOfSymbols(Groups(b));
    GroupsRoundTrip(b);
  }

  lemma {:induction false} EncodedIsSymbols(data: Bytes)
    ensures AllSymbols(Encoded(data))
    decreases |data|
  {
    if 0 < |data| <= 3 {
      BlockUndone(data);
    } else if data != [] {
      BlockUndone(data[..3]);
      EncodedIsSymbols(data[3..]);
    }
  }

  lemma {:induction false} SymbolsComeFirst(s: string, rest: string)
    requires AllSymbols(s) && (rest == [] || !IsSymbol(rest[0]))
    ensures SymbolCount(s + rest) == |s| && (s + rest)[..|s|] == s
  {
    if s == [] {
      assert s + rest == rest;
    } else {
      assert (s + rest)[1..] == s[1..] + rest;
      SymbolsComeFirst(s[1..], rest);
    }
  }

  /** Decoding undoes encoding, with or without padding: whatever follows only has to start with another character. */
  lemma DecodeUndoesEncode(data: Bytes, rest: string)
    requires rest == [] || !IsSymbol(rest[0])
    ensures Decoded(Encoded(data) + rest) == data
  {
    EncodedIsSymbols(data);
    SymbolsComeFirst(Encoded(data), rest);
    forall b: Bytes | 0 < |b| <= 3
      ensures DecodedBlock(EncodedBlock(b)) == b && 0 < |EncodedBlock(b)| <= 4 && (|b| == 3 <==> |EncodedBlock(b)| == 4)
    {
      BlockUndone(b);
    }
    MapUndoesMap(EncodedBlock, 3, DecodedBlock, 4, data);
  }

  /** The padded form of section 4 of RFC 4648. */
  ghost function Padded(data: Bytes): string {
    Encoded(data) + (if |data| % 3 == 1 then "==" else if |data| % 3 == 2 then "=" else "")
  }

  lemma DecodeUndoesPadded(data: Bytes)
    ensures Decoded(Padded(data)) == data
  {
    DecodeUndoesEncode(data, if |data| % 3 == 1 then "==" else if |data| % 3 == 2 then "=" else "");
  }

  ghost function LastBlock(text: string): string {
    text[|text| - |text| % 4..]
  }

  lemma {:induction false} BlockIsKept(e: string)
    requires 0 < |e| <= 4 && AllSymbols(e)
    ensures |DecodedBlock(e)| == |e| - 1
    ensures EncodedBlock(DecodedBlock(e)) == e <==> |e| != 1 && NoSpareBits(Values(e))
  {
    SymbolsOfValues(e);
    GroupsRoundTripBack(Values(e));
    if EncodedBlock(DecodedBlock(e)) == e {
      ValuesOfSymbols(Groups(DecodedBlock(e)));
    }
  }

  /** Symbols are the encoding of what they decode to exactly when no symbol and no bit is left over. */
  lemma {:induction false} EncodeUndoesDecodeIff(text: string)
    requires AllSymbols(text)
    ensures Encoded(MapBlocks(DecodedBlock, 4, text)) == text
       <==> |text| % 4 != 1 && NoSpareBits(Values(LastBlock(text)))
    decreases |text|
  {
    if |text| < 4 {
      assert LastBlock(text) == text;
      if text != [] { BlockIsKept(text); }
    } else {
      var first, rest := text[..4], text[4..];
      assert text == first + rest && LastBlock(text) == LastBlock(rest);
      BlockIsKept(first);
      EncodeUndoesDecodeIff(rest);
      MapCons(DecodedBlock, 4, first, rest);
      MapCons(EncodedBlock, 3, DecodedBlock(first), MapBlocks(DecodedBlock, 4, rest));
    }
  }

  // ----- the decoder --------------------------------------------------------

  lemma {:induction false} MaskField(x: nat, k: nat, w: nat)
    ensures Pow(2, w) > 0 && BitAnd(x, (Pow(2, w) - 1) * Pow(2, k)) == (x / Pow(2, k) % Pow(2, w)) * Pow(2, k)
  {
    var m := Pow(2, w) - 1;
    UpIsProduct(m, k);
    DownIsQuotient(x, k);
    AndUp(x, m, k);
    AndMask(Down(x, k), w);
    UpIsProduct(BitAnd(Down(x, k), m), k);
  }

  /** `w` bits of a number from bit `k` on. */
  method Field(x: nat, mask: nat, k: nat, ghost w: nat) returns (r: nat)
    requires mask == (Pow(2, w) - 1) * Pow(2, k)
    ensures r == x / Pow(2, k) % Pow(2, w)
  {
    MaskField(x, k, w);
    DivModIs((x / Pow(2, k) % Pow(2, w)) * Pow(2, k), Pow(2, k), x / Pow(2, k) % Pow(2, w), 0);
    return Shr(BitAnd(x, mask), k);
  }

  lemma SmallPowers()
    ensures Pow(2, 0) == 1 && Pow(2, 2) == 4 && Pow(2, 4) == 16
  {
  }

  lemma SmallMod(x: nat, m: nat)
    requires x < m
    ensures x % m == x
  {
  }

  // Groups of six bits leave nothing to mask off and nothing that a byte cannot hold.

  lemma FirstIsByte(a: nat, b: nat)
    requires a < 64 && b < 64
    ensures (a * 4 + b / 16 % 4) % 256 == First(a, b)
  {
    SmallMod(b / 16, 4);
    SmallMod(a * 4 + b / 16, 256);
  }

  lemma SecondIsByte(b: nat, c: nat)
    requires b < 64 && c < 64
    ensures (b % 16 * 16 + c / 4 % 16) % 256 == Second(b, c)
  {
    SmallMod(c / 4, 16);
    SmallMod(b % 16 * 16 + c / 4, 256);
  }

  lemma ThirdIsByte(c: nat, d: nat)
    requires c < 64 && d < 64
    ensures (c % 4 * 64 + d) % 256 == Third(c, d)
  {
    SmallMod(c % 4 * 64 + d, 256);
  }

  /** Four groups, some of which may be left over from a failed search, as three bytes. */
  method JoinGroups(a: byte, b: byte, c: byte, d: byte) returns (x: byte, y: byte, z: byte)
    ensures a < 64 && b < 64 ==> x == First(a, b)
    ensures b < 64 && c < 64 ==> y == Second(b, c)
    ensures c < 64 && d < 64 ==> z == Third(c, d)
  {
    SmallPowers();
    if a < 64 && b < 64 { FirstIsByte(a, b); }
    if b < 64 && c < 64 { SecondIsByte(b, c); }
    if c < 64 && d < 64 { ThirdIsByte(c, d); }
    var b0 := Field(b, 0x30, 4, 2);
    var b1 := Field(b, 0xf, 0, 4);
    var c0 := Field(c, 0x3c, 2, 4);
    var c1 := Field(c, 0x3, 0, 2);
    x := (a * 4 + b0) % 256;
    y := (b1 * 16 + c0) % 256;
    z := (c1 * 64 + d) % 256;
  }

  /** Looks the symbols up and joins what is found; the places from `count` on hold no symbols. */
  method DecodeBlock(quad: array<char>, count: nat) returns (data: Bytes)
    requires quad.Length == 4 && 0 < count <= 4 && AllSymbols(quad[..count])
    ensures data == DecodedBlock(quad[..count])
  {
    var a: byte, b: byte, c: byte, d: byte := Find(quad[0]), Find(quad[1]), Find(quad[2]), Find(quad[3]);
    var x, y, z := JoinGroups(a, b, c, d);
    ghost var vs := Values(quad[..count]);
    assert vs[0] == a && (count > 1 ==> vs[1] == b) && (count > 2 ==> vs[2] == c) && (count > 3 ==> vs[3] == d);
    data := [x, y, z][..count - 1];
  }

  /** What the loop has done: full blocks are decoded, and the symbols since the last one are at hand. */
  ghost predicate Reading(g: string -> Bytes, text: string, n: nat, pending: string, ret: Bytes, k: nat) {
    && n <= |text| && AllSymbols(text[..n]) && |pending| < 4 && n == k * 4 + |pending|
    && pending == text[k * 4..n] && ret == MapBlocks(g, 4, text[..k * 4])
  }

  lemma PartOfSymbols(text: string, m: nat, n: nat)
    requires m <= n <= |text| && AllSymbols(text[..n])
    ensures AllSymbols(text[m..n])
  {
    forall i | 0 <= i < n - m ensures IsSymbol(text[m..n][i]) {
      assert text[m..n][i] == text[..n][m + i];
    }
  }

  lemma ReadingMovesOn(g: string -> Bytes, text: string, n: nat, pending: string, ret: Bytes, k: nat, pending': string)
    requires Reading(g, text, n, pending, ret, k) && n < |text| && IsSymbol(text[n]) && pending' == pending + [text[n]]
    ensures AllSymbols(pending')
    ensures |pending'| < 4 ==> Reading(g, text, n + 1, pending', ret, k)
    ensures |pending'| == 4 ==> Reading(g, text, n + 1, [], ret + g(pending'), k + 1)
  {
    assert text[..n + 1] == text[..n] + [text[n]];
    assert pending' == text[k * 4..n + 1];
    PartOfSymbols(text, k * 4, n + 1);
    if |pending'| == 4 {
      MapAppend(g, 4, text[..k * 4], k, pending');
      assert text[..k * 4] + pending' == text[..(k + 1) * 4];
    }
  }

  lemma {:induction false} AllSymbolsCounted(text: string, n: nat)
    requires n <= |text| && AllSymbols(text[..n]) && (n < |text| ==> !IsSymbol(text[n]))
    ensures n == SymbolCount(text)
  {
    SymbolsComeFirst(text[..n], text[n..]);
    assert text == text[..n] + text[n..];
  }

  lemma {:induction false} ReadingEnds(g: string -> Bytes, text: string, n: nat, pending: string, ret: Bytes, k: nat)
    requires Reading(g, text, n, pending, ret, k) && (n < |text| ==> !IsSymbol(text[n]))
    ensures n == SymbolCount(text) && AllSymbols(pending)
    ensures MapBlocks(g, 4, text[..n]) == if pending == [] then ret else ret + g(pending)
  {
    AllSymbolsCounted(text, n);
    PartOfSymbols(text, k * 4, n);
    LastBlockAdded(g, text[..n], text[..k * 4], k, pending);
  }

  lemma LastBlockAdded(g: string -> Bytes, s: string, full: string, k: nat, pending: string)
    requires |full| == k * 4 && |pending| < 4 && s == full + pending
    ensures var r := MapBlocks(g, 4, full); MapBlocks(g, 4, s) == if pending == [] then r else r + g(pending)
  {
    MapAppend(g, 4, full, k, pending);
    var r := MapBlocks(g, 4, full);
    assert r + [] == r;
  }

  /** The symbols left over, with zeros in the places of those that are missing. */
  method DecodeRest(quad: array<char>, count: nat) returns (data: Bytes)
    requires quad.Length == 4 && 0 < count <= 3 && AllSymbols(quad[..count])
    modifies quad
    ensures data == DecodedBlock(old(quad[..count]))
  {
    ghost var pending := quad[..count];
    for j := count to 4
      invariant quad[..count] == pending
    {
      quad[j] := '\0';
    }
    data := DecodeBlock(quad, count);
  }

  method Decode(text: string) returns (ret: Bytes)
    ensures ret == Decoded(text)
  {
    var quad := new char[4](_ => '\0');
    var i, n := 0, 0;
    ghost var k := 0;
    ret := [];
    while n < |text| && text[n] != '=' && IsSymbol(text[n])
      invariant i <= 3 && Reading(DecodedBlock, text, n, quad[..i], ret, k)
    {
      ReadingMovesOn(DecodedBlock, text, n, quad[..i], ret, k, quad[..i] + [text[n]]);
      quad[i] := text[n];
      i, n := i + 1, n + 1;
      if i == 4 {
        var data := DecodeBlock(quad, 4);
        ret := ret + data;
        i, k := 0, k + 1;
      }
    }
    ReadingEnds(DecodedBlock, text, n, quad[..i], ret, k);
    if i > 0 {
      var data := DecodeRest(quad, i);
      ret := ret + data;
    }
  }
}
