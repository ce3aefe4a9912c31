/**
  JSON values, their printed form and their reader. The reader takes every character with formatted
  extraction, so white space is dropped everywhere, also inside strings; strings keep their backslash
  pairs as they stand.
 */
module Json {

  datatype Value =
    | Array(items: seq<Value>)
    | Bool(b: bool)
    | Int(i: int)
    | Nil
    | Object(members: seq<Member>)
    | Real(text: string)
    | Str(s: string)

  datatype Member = Member(name: string, value: Value)

  const MIN_INT: int := -0x8000_0000_0000_0000
  const MAX_INT: int := 0x7fff_ffff_ffff_ffff

  // ----- what a value is ----------------------------------------------------

  /** The order of keys: by characters, a proper prefix first. */
  predicate Less(a: string, b: string) {
    b != [] && (a == [] || a[0] < b[0] || (a[0] == b[0] && Less(a[1..], b[1..])))
  }

  ghost predicate Sorted(ms: seq<Member>) {
    forall i, j :: 0 <= i < j < |ms| ==> Less(ms[i].name, ms[j].name)
  }

  /** What the representation guarantees: sorted keys and 64-bit integers. */
  ghost predicate WellFormed(v: Value) {
    match v
    case Array(items) => forall i :: 0 <= i < |items| ==> WellFormed(items[i])
    case Object(ms) => Sorted(ms) && forall i :: 0 <= i < |ms| ==> WellFormed(ms[i].value)
    case Int(i) => MIN_INT <= i <= MAX_INT
    case _ => true
  }

  ghost predicate RealFree(v: Value) {
    match v
    case Array(items) => forall i :: 0 <= i < |items| ==> RealFree(items[i])
    case Object(ms) => forall i :: 0 <= i < |ms| ==> RealFree(ms[i].value)
    case Real(_) => false
    case _ => true
  }

  predicate IsSpace(c: char) {
    c == ' ' || '\t' <= c <= '\r'
  }

  predicate IsPlain(c: char) {
    !IsSpace(c) && c != '"' && c != '\\'
  }

  /** Plain characters and backslash pairs, without white space. */
  ghost predicate IsToken(s: string) {
    s == [] || (IsPlain(s[0]) && IsToken(s[1..]))
    || (s[0] == '\\' && |s| > 1 && !IsSpace(s[1]) && IsToken(s[2..]))
  }

  /** All strings and keys can stand between quotes as they are. */
  ghost predicate Quotable(v: Value) {
    match v
    case Array(items) => forall i :: 0 <= i < |items| ==> Quotable(items[i])
    case Object(ms) => forall i :: 0 <= i < |ms| ==> IsToken(ms[i].name) && Quotable(ms[i].value)
    case Str(s) => IsToken(s)
    case _ => true
  }

  /** Stores a member under its name, in place of one with the same name if there is one. */
  function Put(ms: seq<Member>, m: Member): (r: seq<Member>) {
    if ms == [] then [m]
    else if Less(ms[0].name, m.name) then [ms[0]] + Put(ms[1..], m)
    else if ms[0].name == m.name then [m] + ms[1..]
    else [m] + ms
  }

  // ----- printing -----------------------------------------------------------

  function DigitChar(d: nat): char
    requires d < 10
  {
    ('0' as int + d) as char
  }

  function PrintNat(n: nat): (s: string) {
    if n < 10 then [DigitChar(n)] else PrintNat(n / 10) + [DigitChar(n % 10)]
  }

  function PrintInt(i: int): string {
    if i < 0 then "-" + PrintNat(-i) else PrintNat(i)
  }

  ghost function Print(v: Value): string
    requires RealFree(v)
    decreases v
  {
    match v
    case Array(items) => "[" + PrintItems(items) + "]"
    case Bool(b) => if b then "true" else "false"
    case Int(i) => PrintInt(i)
    case Nil => "null"
    case Object(ms) => "{" + PrintMembers(ms) + "}"
    case Str(s) => Quoted(s)
  }

  ghost function Quoted(s: string): string {
    "\"" + s + "\""
  }

  ghost function PrintItems(items: seq<Value>): string
    requires forall i :: 0 <= i < |items| ==> RealFree(items[i])
    decreases items, 0
  {
    if items == [] then "" else Print(items[0]) + PrintMoreItems(items[1..])
  }

  ghost function PrintMoreItems(items: seq<Value>): string
    requires forall i :: 0 <= i < |items| ==> RealFree(items[i])
    decreases items, 1
  {
    if items == [] then "" else "," + PrintItems(items)
  }

  ghost function PrintMember(m: Member): string
    requires RealFree(m.value)
    decreases m
  {
    Quoted(m.name) + ":" + Print(m.value)
  }

  ghost function PrintMembers(ms: seq<Member>): string
    requires forall i :: 0 <= i < |ms| ==> RealFree(ms[i].value)
    decreases ms, 0
  {
    if ms == [] then "" else PrintMember(ms[0]) + PrintMoreMembers(ms[1..])
  }

  ghost function PrintMoreMembers(ms: seq<Member>): string
    requires forall i :: 0 <= i < |ms| ==> RealFree(ms[i].value)
    decreases ms, 1
  {
    if ms == [] then "" else "," + PrintMembers(ms)
  }

  // ----- reading ------------------------------------------------------------

  datatype Parse<+T> = Ok(value: T, rest: string) | Bad

  function ReadChar(s: string): (r: Parse<char>)
    ensures r.Ok? ==> |r.rest| < |s| && !IsSpace(r.value)
  {
    if s == [] then Bad else if IsSpace(s[0]) then ReadChar(s[1..]) else Ok(s[0], s[1..])
  }

  /** The rest of a string, up to its closing quote; `acc` is what was read of it. */
  function ReadToken(s: string, acc: string): (r: Parse<string>)
    ensures r.Ok? ==> |r.rest| < |s|
    decreases |s|
  {
    var c := ReadChar(s);
    if c.Bad? then Bad
    else if c.value == '"' then Ok(acc, c.rest)
    else if c.value == '\\' then
      var d := ReadChar(c.rest);
      if d.Bad? then Bad else ReadToken(d.rest, acc + [c.value, d.value])
    else ReadToken(c.rest, acc + [c.value])
  }

  /** A fixed word, taken character by character without skipping anything. */
  function ReadWord(s: string, word: string, v: Value): (r: Parse<Value>)
    ensures r.Ok? ==> |r.rest| <= |s|
  {
    if |word| <= |s| && s[..|word|] == word then Ok(v, s[|word|..]) else Bad
  }

  predicate IsDigit(c: char) {
    '0' <= c <= '9'
  }

  predicate InNumber(c: char) {
    IsDigit(c) || c == '.'
  }

  /** How many characters of a number follow. */
  function RunLength(s: string): (n: nat)
    ensures n <= |s|
  {
    if s != [] && InNumber(s[0]) then 1 + RunLength(s[1..]) else 0
  }

  function Dots(s: string): (n: nat)
    ensures n <= |s|
  {
    if s == [] then 0 else (if s[|s|-1] == '.' then 1 else 0) + Dots(s[..|s|-1])
  }

  function DigitCount(s: string): (n: nat)
    ensures n <= |s|
  {
    if s != [] && IsDigit(s[0]) then 1 + DigitCount(s[1..]) else 0
  }

  function NatOf(s: string): nat {
    if s == [] then 0 else NatOf(s[..|s|-1]) * 10 + (if IsDigit(s[|s|-1]) then s[|s|-1] as int - '0' as int else 0)
  }

  function Clamp(i: int): (r: int)
    ensures MIN_INT <= r <= MAX_INT
  {
    if i < MIN_INT then MIN_INT else if i > MAX_INT then MAX_INT else i
  }

  /** Conversion to an integer: a sign without digits gives zero, a number out of range the nearest one. */
  function IntOf(text: string): int
  {
    if text != [] && text[0] == '-' then Clamp(0 - NatOf(text[1..])) else Clamp(NatOf(text))
  }

  predicate HasLeadingZero(text: string) {
    |text| > 1 && (text[0] == '0' || (text[0] == '-' && text[1] == '0'))
  }

  /** A number whose first character was `c`. */
  function ReadNumber(c: char, s: string): (r: Parse<Value>)
    ensures r.Ok? ==> |r.rest| <= |s|
  {
    var n := RunLength(s);
    var text, rest := [c] + s[..n], s[n..];
    if Dots(s[..n]) == 0 then
      if HasLeadingZero(text) then Bad else Ok(Int(IntOf(text)), rest)
    else if Dots(s[..n]) > 1 then Bad
    else ReadExponent(text, rest)
  }

  /** The exponent mark and the sign that may follow it. */
  function MarkLength(s: string): (k: nat)
    requires s != []
    ensures 1 <= k <= |s|
  {
    if |s| > 1 && (s[1] == '+' || s[1] == '-') then 2 else 1
  }

  /** The rest of a number with a dot. Looking twice for an exponent at the end of the input is an error. */
  function ReadExponent(text: string, s: string): (r: Parse<Value>)
    ensures r.Ok? ==> |r.rest| <= |s|
  {
    if s == [] then Bad
    else if s[0] != 'e' then Ok(Real(text), s)
    else
      var k := MarkLength(s);
      var n := DigitCount(s[k..]);
      if n == 0 then Bad else Ok(Real(text + s[..k + n]), s[k + n..])
  }

  function ReadValue(s: string): (r: Parse<Value>)
    ensures r.Ok? ==> |r.rest| < |s|
    decreases |s|, 0
  {
    var c := ReadChar(s);
    if c.Bad? then Bad
    else if c.value == '[' then ReadArray(c.rest)
    else if c.value == 't' then ReadWord(c.rest, "rue", Bool(true))
    else if c.value == 'f' then ReadWord(c.rest, "alse", Bool(false))
    else if c.value == '-' || IsDigit(c.value) then ReadNumber(c.value, c.rest)
    else if c.value == 'n' then ReadWord(c.rest, "ull", Nil)
    else if c.value == '{' then ReadObject(c.rest)
    else if c.value == '"' then
      var t := ReadToken(c.rest, "");
      if t.Bad? then Bad else Ok(Str(t.value), t.rest)
    else Bad
  }

  function ReadArray(s: string): (r: Parse<Value>)
    ensures r.Ok? ==> |r.rest| < |s| && r.value.Array?
    decreases |s|, 2
  {
    var c := ReadChar(s);
    if c.Bad? then Bad
    else if c.value == ']' then Ok(Array([]), c.rest)
    else ReadItems([c.value] + c.rest, [])
  }

  /** One or more items; `acc` holds those read before. */
  function ReadItems(s: string, acc: seq<Value>): (r: Parse<Value>)
    ensures r.Ok? ==> |r.rest| < |s| && r.value.Array?
    decreases |s|, 1
  {
    var v := ReadValue(s);
    if v.Bad? then Bad
    else
      var c := ReadChar(v.rest);
      if c.Bad? then Bad
      else if c.value == ']' then Ok(Array(acc + [v.value]), c.rest)
      else if c.value == ',' then ReadItems(c.rest, acc + [v.value])
      else Bad
  }

  function ReadObject(s: string): (r: Parse<Value>)
    ensures r.Ok? ==> |r.rest| < |s| && r.value.Object?
    decreases |s|, 2
  {
    var c := ReadChar(s);
    if c.Bad? then Bad
    else if c.value == '}' then Ok(Object([]), c.rest)
    else ReadMembers(c.value, c.rest, [])
  }

  /** One or more members, the first of which started with `c`. */
  function ReadMembers(c: char, s: string, acc: seq<Member>): (r: Parse<Value>)
    ensures r.Ok? ==> |r.rest| < |s| && r.value.Object?
    decreases |s|, 1
  {
    var m := ReadMember(c, s);
    if m.Bad? then Bad
    else
      var e := ReadChar(m.rest);
      if e.Bad? then Bad
      else if e.value == '}' then Ok(Object(Put(acc, m.value)), e.rest)
      else if e.value != ',' then Bad
      else
        var d := ReadChar(e.rest);
        if d.Bad? then Bad else ReadMembers(d.value, d.rest, Put(acc, m.value))
  }

  function ReadMember(c: char, s: string): (r: Parse<Member>)
    ensures r.Ok? ==> |r.rest| < |s|
    decreases |s|, 0
  {
    if c != '"' then Bad
    else
      var name := ReadToken(s, "");
      if name.Bad? then Bad
      else
        var d := ReadChar(name.rest);
        if d.Bad? || d.value != ':' then Bad
        else
          var v := ReadValue(d.rest);
          if v.Bad? then Bad else Ok(Member(name.value, v.value), v.rest)
  }

  /** A whole text: anything after the value is ignored. */
  function FromString(s: string): Parse<Value> {
    ReadValue(s)
  }
}
