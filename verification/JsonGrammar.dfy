/**
  What the reader of `Json` accepts, said without the reader. A value is spelled as a list of atoms; blanks
  may stand before any atom, and nowhere else. A text is read as a value with some rest if and only if it
  starts, so laid out, with a spelling of that value, and the rest does not prolong it (`AcceptedIff`).
 */
module JsonGrammar {
  import opened Blocks
  import opened Digits
  import opened Json

  datatype Spelling =
    | Items(items: seq<Spelling>)
    | Truth(b: bool)
    | Integer(text: string)
    | Null
    | Fields(fields: seq<Field>)
    | Decimal(text: string, exponent: string)
    | Quote(s: string)

  datatype Field = Field(name: string, spelling: Spelling)

  // ----- the atoms of a spelling --------------------------------------------

  ghost function Atoms(sp: Spelling): (atoms: seq<string>)
    ensures atoms != []
    decreases sp
  {
    match sp
    case Items(items) => ["["] + if items == [] then ["]"] else ItemAtoms(items)
    case Truth(b) => [if b then "true" else "false"]
    case Integer(text) => [text]
    case Null => ["null"]
    case Fields(fields) => ["{"] + if fields == [] then ["}"] else FieldsAtoms(fields)
    case Decimal(text, exponent) => [text + exponent]
    case Quote(s) => QuoteAtoms(s)
  }

  /** Items with what comes between and after them. */
  ghost function ItemAtoms(items: seq<Spelling>): seq<string>
    requires items != []
    decreases items, 0
  {
    Atoms(items[0]) + ItemTail(items[1..])
  }

  ghost function ItemTail(more: seq<Spelling>): seq<string>
    decreases more, 1
  {
    if more == [] then ["]"] else [","] + ItemAtoms(more)
  }

  ghost function FieldAtoms(f: Field): seq<string>
    decreases f
  {
    QuoteAtoms(f.name) + ([":"] + Atoms(f.spelling))
  }

  ghost function FieldsAtoms(fields: seq<Field>): seq<string>
    requires fields != []
    decreases fields, 0
  {
    FieldAtoms(fields[0]) + FieldTail(fields[1..])
  }

  ghost function FieldTail(more: seq<Field>): seq<string>
    decreases more, 1
  {
    if more == [] then ["}"] else [","] + FieldsAtoms(more)
  }

  /** Blanks are dropped between any two characters of a string. */
  ghost function QuoteAtoms(s: string): seq<string> {
    ["\""] + TokenAtoms(s)
  }

  ghost function TokenAtoms(s: string): seq<string> {
    if s == [] then ["\""] else [[s[0]]] + TokenAtoms(s[1..])
  }

  // ----- which spellings there are, and what they mean ----------------------

  predicate AllDigits(s: string) {
    forall i :: 0 <= i < |s| ==> IsDigit(s[i])
  }

  predicate AllInNumber(s: string) {
    forall i :: 0 <= i < |s| ==> InNumber(s[i])
  }

  predicate StartsNumber(c: char) {
    c == '-' || IsDigit(c)
  }

  /** Digits without a leading zero, after a minus sign or not; a sign alone will do, zero has none. */
  predicate IsInteger(t: string) {
    t == "-" || t == "0" ||
    (var ds := if t != [] && t[0] == '-' then t[1..] else t; ds != [] && AllDigits(ds) && ds[0] != '0')
  }

  /** A digit or a minus sign, and one dot among digits after it. */
  ghost predicate IsDecimal(t: string) {
    t != [] && StartsNumber(t[0]) &&
    exists k :: 1 <= k < |t| && t[k] == '.' && AllDigits(t[1..k]) && AllDigits(t[k + 1..])
  }

  /** Digits after a plus sign, a minus sign or no sign. */
  predicate IsSigned(x: string) {
    x != [] && if x[0] == '+' || x[0] == '-' then |x| > 1 && AllDigits(x[1..]) else AllDigits(x)
  }

  predicate IsExponent(e: string) {
    e == "" || (e[0] == 'e' && IsSigned(e[1..]))
  }

  ghost predicate Legal(sp: Spelling) {
    match sp
    case Items(items) => AllLegal(items)
    case Integer(t) => IsInteger(t)
    case Fields(fields) => AllFieldsLegal(fields)
    case Decimal(t, e) => IsDecimal(t) && IsExponent(e)
    case Quote(s) => IsToken(s)
    case _ => true
  }

  ghost predicate AllLegal(items: seq<Spelling>) {
    forall i :: 0 <= i < |items| ==> Legal(items[i])
  }

  ghost predicate AllFieldsLegal(fields: seq<Field>) {
    forall i :: 0 <= i < |fields| ==> IsToken(fields[i].name) && Legal(fields[i].spelling)
  }

  /** The values of digits. */
  function Codes(ds: string): (r: seq<nat>)
    requires AllDigits(ds)
  {
    seq(|ds|, i requires 0 <= i < |ds| => ds[i] as int - '0' as int)
  }

  /** The integer that a text denotes; a sign alone denotes none and counts as zero. */
  function Denoted(t: string): int {
    if AllDigits(t) then Digits.Value(10, Codes(t))
    else if t[0] == '-' && AllDigits(t[1..]) then 0 - Digits.Value(10, Codes(t[1..]))
    else 0
  }

  /** Integers out of range become the nearest one in range. */
  ghost function Meaning(sp: Spelling): Value
    decreases sp
  {
    match sp
    case Items(items) => Array(Meanings(items))
    case Truth(b) => Bool(b)
    case Integer(text) => Int(Clamp(Denoted(text)))
    case Null => Nil
    case Fields(fields) => Object(Stored([], fields))
    case Decimal(text, exponent) => Real(text + exponent)
    case Quote(s) => Str(s)
  }

  ghost function Meanings(items: seq<Spelling>): seq<Value>
    decreases items
  {
    if items == [] then [] else [Meaning(items[0])] + Meanings(items[1..])
  }

  /** Fields are stored one after the other; a later one replaces an earlier one of the same name. */
  ghost function Stored(acc: seq<Member>, fields: seq<Field>): seq<Member>
    decreases fields
  {
    if fields == [] then acc else Stored(Put(acc, MemberOf(fields[0])), fields[1..])
  }

  ghost function MemberOf(f: Field): Member
    decreases f
  {
    Member(f.name, Meaning(f.spelling))
  }

  predicate EndsNumber(rest: string) {
    rest == [] || !InNumber(rest[0])
  }

  /** What follows does not prolong the number, if it is one. A plain decimal has to be followed by something. */
  ghost predicate Ends(sp: Spelling, rest: string) {
    match sp
    case Integer(_) => EndsNumber(rest)
    case Decimal(_, e) =>
      if e == "" then rest != [] && !InNumber(rest[0]) && rest[0] != 'e' else rest == [] || !IsDigit(rest[0])
    case _ => true
  }

  // ----- layout: blanks before atoms ----------------------------------------

  ghost function Trim(s: string): string {
    if s != [] && IsSpace(s[0]) then Trim(s[1..]) else s
  }

  /** Takes atoms off a text, with any blanks before each, and gives what is left. */
  ghost function Take(atoms: seq<string>, s: string): Option<string> {
    if atoms == [] then Some(s)
    else if atoms[0] <= Trim(s) then Take(atoms[1..], Trim(s)[|atoms[0]|..])
    else None
  }

  ghost predicate IsSpelling(sp: Spelling, s: string, v: Value, rest: string) {
    Legal(sp) && Meaning(sp) == v && Take(Atoms(sp), s) == Some(rest) && Ends(sp, rest)
  }

  lemma {:induction false} ReadCharTrims(s: string)
    ensures ReadChar(s) == if Trim(s) == [] then Bad else Ok(Trim(s)[0], Trim(s)[1..])
    ensures Trim(s) != [] ==> !IsSpace(Trim(s)[0]) && Trim(Trim(s)) == Trim(s)
  {
    if s != [] && IsSpace(s[0]) { ReadCharTrims(s[1..]); }
  }

  lemma TakeOne(atom: string, s: string)
    ensures Take([atom], s) == if atom <= Trim(s) then Some(Trim(s)[|atom|..]) else None
  {
    assert [atom][1..] == [];
  }

  lemma TakeCons(atom: string, more: seq<string>, s: string)
    ensures Take([atom] + more, s) == if atom <= Trim(s) then Take(more, Trim(s)[|atom|..]) else None
  {
    assert ([atom] + more)[1..] == more;
  }

  lemma {:induction false} TakeConcat(a: seq<string>, b: seq<string>, s: string)
    ensures Take(a + b, s) == if Take(a, s).None? then None else Take(b, Take(a, s).value)
    decreases a
  {
    if a == [] {
      assert a + b == b;
    } else {
      assert (a + b)[1..] == a[1..] + b;
      if a[0] <= Trim(s) { TakeConcat(a[1..], b, Trim(s)[|a[0]|..]); }
    }
  }

  lemma TakeTrimmed(atoms: seq<string>, s: string)
    requires atoms != []
    ensures Take(atoms, Trim(s)) == Take(atoms, s)
  {
    ReadCharTrims(s);
  }

  /** Taking a single character is reading it. */
  lemma CharTakes(c: char, s: string)
    requires !IsSpace(c)
    ensures ReadChar(s).Ok? && ReadChar(s).value == c <==> [c] <= Trim(s)
    ensures [c] <= Trim(s) ==> ReadChar(s) == Ok(c, Trim(s)[1..])
  {
    ReadCharTrims(s);
  }

  // ----- every spelling is read ---------------------------------------------

  lemma {:induction false} TokenReads(t: string, s: string, acc: string, rest: string)
    requires IsToken(t) && Take(TokenAtoms(t), s) == Some(rest)
    ensures ReadToken(s, acc) == Ok(acc + t, rest)
    decreases |t|
  {
    if t == [] {
      TakeOne("\"", s);
      CharTakes('"', s);
      assert acc + t == acc;
    } else {
      var c := t[0];
      TakeCons([c], TokenAtoms(t[1..]), s);
      CharTakes(c, s);
      if IsPlain(c) {
        TokenReads(t[1..], Trim(s)[1..], acc + [c], rest);
        assert acc + [c] + t[1..] == acc + t;
      } else {
        var d, s' := t[1], Trim(s)[1..];
        assert t[1..][1..] == t[2..];
        TakeCons([d], TokenAtoms(t[2..]), s');
        CharTakes(d, s');
        TokenReads(t[2..], Trim(s')[1..], acc + [c, d], rest);
        assert acc + [c, d] + t[2..] == acc + t;
      }
    }
  }

  lemma {:induction false} RunIs(run: string, rest: string)
    requires AllInNumber(run) && EndsNumber(rest)
    ensures RunLength(run + rest) == |run| && (run + rest)[..|run|] == run && (run + rest)[|run|..] == rest
  {
    if run == [] {
      assert run + rest == rest;
    } else {
      assert (run + rest)[1..] == run[1..] + rest;
      RunIs(run[1..], rest);
    }
  }

  lemma {:induction false} DigitsAre(ds: string, rest: string)
    requires AllDigits(ds) && (rest == [] || !IsDigit(rest[0]))
    ensures DigitCount(ds + rest) == |ds|
  {
    if ds == [] {
      assert ds + rest == rest;
    } else {
      assert (ds + rest)[1..] == ds[1..] + rest;
      DigitsAre(ds[1..], rest);
    }
  }

  lemma {:induction false} NoDots(ds: string)
    requires AllDigits(ds)
    ensures Dots(ds) == 0
  {
    if ds != [] { NoDots(ds[..|ds|-1]); }
  }

  /** A text that starts like a number is read as one. */
  lemma ValueIsNumber(s: string, t: string, rest: string)
    requires t != [] && StartsNumber(t[0]) && Trim(s) == t + rest
    ensures ReadValue(s) == ReadNumber(t[0], t[1..] + rest) && t == [t[0]] + t[1..]
  {
    ReadCharTrims(s);
    assert Trim(s)[1..] == t[1..] + rest;
  }

  lemma IntegerIff(t: string)
    ensures IsInteger(t) <==> t != [] && StartsNumber(t[0]) && AllDigits(t[1..]) && !HasLeadingZero(t)
  {
    assert t != [] ==> t == [t[0]] + t[1..];
  }

  lemma {:induction false} NatOfIsValue(t: string)
    requires AllDigits(t)
    ensures NatOf(t) == Digits.Value(10, Codes(t))
  {
    if t != [] {
      var init := t[..|t|-1];
      NatOfIsValue(init);
      assert Codes(t)[..|t|-1] == Codes(init);
    }
  }

  /** The conversion gives the number denoted, as long as it is in range, and else the nearest. */
  lemma IntOfIs(t: string)
    requires IsInteger(t)
    ensures IntOf(t) == Clamp(Denoted(t))
  {
    IntegerIff(t);
    if t[0] == '-' {
      NatOfIsValue(t[1..]);
    } else {
      assert t == [t[0]] + t[1..];
      NatOfIsValue(t);
    }
  }

  lemma IntegerReads(t: string, s: string, rest: string)
    requires Legal(Integer(t)) && EndsNumber(rest) && Trim(s) == t + rest
    ensures ReadValue(s) == Ok(Int(Clamp(Denoted(t))), rest)
  {
    IntegerIff(t);
    IntOfIs(t);
    ValueIsNumber(s, t, rest);
    RunIs(t[1..], rest);
    NoDots(t[1..]);
  }

  lemma {:induction false} DotsConcat(a: string, b: string)
    ensures Dots(a + b) == Dots(a) + Dots(b)
    decreases |b|
  {
    if b == [] {
      assert a + b == a;
    } else {
      assert (a + b)[..|a + b| - 1] == a + b[..|b|-1];
      DotsConcat(a, b[..|b|-1]);
    }
  }

  /** A number with one dot has digits before and after it. */
  lemma {:induction false} OneDot(run: string) returns (k: nat)
    requires AllInNumber(run) && Dots(run) == 1
    ensures k < |run| && run[k] == '.' && AllDigits(run[..k]) && AllDigits(run[k + 1..])
  {
    var init := run[..|run|-1];
    if run[|run|-1] == '.' {
      k := |run| - 1;
      NoDotsNoMore(init);
    } else {
      k := OneDot(init);
      assert run[k + 1..] == init[k + 1..] + [run[|run|-1]] && run[..k] == init[..k];
    }
  }

  lemma DecimalIff(t: string)
    ensures IsDecimal(t) <==> t != [] && StartsNumber(t[0]) && AllInNumber(t[1..]) && Dots(t[1..]) == 1
  {
    if t != [] {
      var run := t[1..];
      if AllInNumber(run) && Dots(run) == 1 {
        var k := OneDot(run);
        assert t[k + 1] == '.' && t[1..k + 1] == run[..k] && t[k + 2..] == run[k + 1..];
      }
      forall k | 1 <= k < |t| && t[k] == '.' && AllDigits(t[1..k]) && AllDigits(t[k + 1..])
        ensures AllInNumber(run) && Dots(run) == 1
      {
        var a, b := t[1..k], t[k + 1..];
        assert run == a + ("." + b);
        DotsConcat(a, "." + b);
        DotsConcat(".", b);
        NoDots(a);
        NoDots(b);
      }
    }
  }

  lemma ExponentIff(e: string)
    ensures IsExponent(e) <==> e == "" || (e[0] == 'e' && MarkLength(e) < |e| && AllDigits(e[MarkLength(e)..]))
  {
    if |e| > 1 {
      var x := e[1..];
      assert e[2..] == x[1..] && e[1] == x[0];
      assert x == [x[0]] + x[1..];
    }
  }

  lemma ExponentReads(t: string, e: string, rest: string)
    requires IsExponent(e) && Ends(Decimal(t, e), rest)
    ensures ReadExponent(t, e + rest) == Ok(Real(t + e), rest)
  {
    if e == "" {
      assert e + rest == rest && t + e == t;
    } else {
      ExponentIff(e);
      var k := MarkLength(e);
      assert MarkLength(e + rest) == k;
      assert (e + rest)[k..] == e[k..] + rest;
      DigitsAre(e[k..], rest);
      assert (e + rest)[..|e|] == e && (e + rest)[|e|..] == rest;
    }
  }

  lemma DecimalStarts(t: string, e: string, s: string, rest: string)
    requires Legal(Decimal(t, e)) && EndsNumber(e + rest) && Trim(s) == t + e + rest
    ensures ReadValue(s) == ReadExponent(t, e + rest)
  {
    DecimalIff(t);
    Regroup(t, e, rest);
    ValueIsNumber(s, t, e + rest);
    RunIs(t[1..], e + rest);
  }

  lemma DecimalReads(t: string, e: string, s: string, rest: string)
    requires Legal(Decimal(t, e)) && Ends(Decimal(t, e), rest) && Trim(s) == t + e + rest
    ensures ReadValue(s) == Ok(Real(t + e), rest)
  {
    DecimalStarts(t, e, s, rest);
    ExponentReads(t, e, rest);
  }

  lemma WordReads(c: char, word: string, v: Value, s: string, rest: string)
    requires Trim(s) == [c] + word + rest
    ensures ReadChar(s) == Ok(c, word + rest) && ReadWord(word + rest, word, v) == Ok(v, rest)
  {
    ReadCharTrims(s);
    assert Trim(s)[1..] == word + rest;
    assert (word + rest)[..|word|] == word && (word + rest)[|word|..] == rest;
  }

  lemma QuoteReads(t: string, s: string, rest: string)
    requires IsToken(t) && Take(QuoteAtoms(t), s) == Some(rest)
    ensures ReadValue(s) == Ok(Str(t), rest)
    ensures ReadChar(s).Ok? && ReadChar(s).value == '"' && ReadToken(ReadChar(s).rest, "") == Ok(t, rest)
  {
    TakeCons("\"", TokenAtoms(t), s);
    CharTakes('"', s);
    TokenReads(t, Trim(s)[1..], "", rest);
    assert "" + t == t;
  }

  /** A spelling starts with a character that is neither white space nor a closing bracket. */
  lemma AtomStarts(sp: Spelling)
    requires Legal(sp)
    ensures var a := Atoms(sp)[0]; a != [] && !IsSpace(a[0]) && a[0] != ']'
  {
    if sp.Integer? { IntegerIff(sp.text); }
  }

  lemma TakeWord(word: string, s: string, rest: string)
    requires Take([word], s) == Some(rest)
    ensures Trim(s) == word + rest
  {
    TakeOne(word, s);
  }

  lemma {:induction false} SpellingReads(sp: Spelling, s: string, rest: string)
    requires Legal(sp) && Ends(sp, rest) && Take(Atoms(sp), s) == Some(rest)
    ensures ReadValue(s) == Ok(Meaning(sp), rest)
    decreases sp
  {
    match sp
    case Items(items) => ArrayReads(items, s, rest);
    case Fields(fields) => ObjectReads(fields, s, rest);
    case Quote(t) => QuoteReads(t, s, rest);
    case Integer(t) =>
      TakeWord(t, s, rest);
      IntegerReads(t, s, rest);
    case Decimal(t, e) =>
      TakeWord(t + e, s, rest);
      DecimalReads(t, e, s, rest);
    case _ => WordSpellingReads(sp, s, rest);
  }

  lemma WordSpellingReads(sp: Spelling, s: string, rest: string)
    requires (sp.Truth? || sp.Null?) && Take(Atoms(sp), s) == Some(rest)
    ensures ReadValue(s) == Ok(Meaning(sp), rest)
  {
    WordsAreSpelled();
    TakeWord(Atoms(sp)[0], s, rest);
    if sp == Truth(true) {
      WordReads('t', "rue", Bool(true), s, rest);
    } else if sp == Truth(false) {
      WordReads('f', "alse", Bool(false), s, rest);
    } else {
      WordReads('n', "ull", Nil, s, rest);
    }
  }

  lemma WordsAreSpelled()
    ensures Atoms(Truth(true)) == [['t'] + "rue"] && Atoms(Truth(false)) == [['f'] + "alse"]
    ensures Atoms(Null) == [['n'] + "ull"]
  {
    assert "true" == ['t'] + "rue" && "false" == ['f'] + "alse" && "null" == ['n'] + "ull";
  }

  lemma ArrayStarts(s: string, s': string, c: char, s'': string)
    requires ReadChar(s) == Ok('[', s') && ReadChar(s') == Ok(c, s'')
    ensures ReadValue(s) == if c == ']' then Ok(Array([]), s'') else ReadItems([c] + s'', [])
  {
  }

  lemma {:induction false} ArrayReads(items: seq<Spelling>, s: string, rest: string)
    requires AllLegal(items) && Take(Atoms(Items(items)), s) == Some(rest)
    ensures ReadValue(s) == Ok(Array(Meanings(items)), rest)
    decreases items, 1
  {
    var s' := Trim(s)[1..];
    CharTakes('[', s);
    if items == [] {
      TakeCons("[", ["]"], s);
      TakeOne("]", s');
      CharTakes(']', s');
      ArrayStarts(s, s', ']', rest);
    } else {
      TakeCons("[", ItemAtoms(items), s);
      ItemsStart(items, s', rest);
      var t := Trim(s');
      assert [t[0]] + t[1..] == t;
      ArrayStarts(s, s', t[0], t[1..]);
      ItemsRead(items, t, [], rest);
      assert [] + Meanings(items) == Meanings(items);
    }
  }

  /** Items do not start with a closing bracket. */
  lemma ItemsStart(items: seq<Spelling>, s: string, rest: string)
    requires items != [] && AllLegal(items) && Take(ItemAtoms(items), s) == Some(rest)
    ensures var t := Trim(s); t != [] && t[0] != ']' && ReadChar(s) == Ok(t[0], t[1..])
    ensures Take(ItemAtoms(items), Trim(s)) == Some(rest)
  {
    AtomStarts(items[0]);
    TakeConcat(Atoms(items[0]), ItemTail(items[1..]), s);
    ReadCharTrims(s);
    TakeTrimmed(ItemAtoms(items), s);
  }

  lemma LastItem(s: string, acc: seq<Value>, v: Value, s': string, rest: string)
    requires ReadValue(s) == Ok(v, s') && ReadChar(s') == Ok(']', rest)
    ensures ReadItems(s, acc) == Ok(Array(acc + [v]), rest)
  {
  }

  lemma NextItem(s: string, acc: seq<Value>, v: Value, s': string, rest: string)
    requires ReadValue(s) == Ok(v, s') && ReadChar(s') == Ok(',', rest)
    ensures ReadItems(s, acc) == ReadItems(rest, acc + [v])
  {
  }

  /** After blanks, a comma or a closing bracket ends any value. */
  lemma PunctuationEnds(sp: Spelling, s: string, c: char, rest: string)
    requires ReadChar(s) == Ok(c, rest) && c in {',', ']', '}'}
    ensures Ends(sp, s)
  {
  }

  lemma {:induction false} ItemsRead(items: seq<Spelling>, s: string, acc: seq<Value>, rest: string)
    requires items != [] && AllLegal(items) && Take(ItemAtoms(items), s) == Some(rest)
    ensures ReadItems(s, acc) == Ok(Array(acc + Meanings(items)), rest)
    decreases items, 0
  {
    var sp, more := items[0], items[1..];
    var v := Meaning(sp);
    TakeConcat(Atoms(sp), ItemTail(more), s);
    var s' := Take(Atoms(sp), s).value;
    if more == [] {
      TakeOne("]", s');
      CharTakes(']', s');
      PunctuationEnds(sp, s', ']', rest);
      SpellingReads(sp, s, s');
      LastItem(s, acc, v, s', rest);
      assert Meanings(items) == [v];
    } else {
      TakeCons(",", ItemAtoms(more), s');
      CharTakes(',', s');
      var s'' := Trim(s')[1..];
      PunctuationEnds(sp, s', ',', s'');
      SpellingReads(sp, s, s');
      NextItem(s, acc, v, s', s'');
      ItemsRead(more, s'', acc + [v], rest);
      assert acc + [v] + Meanings(more) == acc + Meanings(items);
    }
  }

  lemma ObjectStarts(s: string, s': string, c: char, s'': string)
    requires ReadChar(s) == Ok('{', s') && ReadChar(s') == Ok(c, s'')
    ensures ReadValue(s) == if c == '}' then Ok(Object([]), s'') else ReadMembers(c, s'', [])
  {
  }

  lemma {:induction false} ObjectReads(fields: seq<Field>, s: string, rest: string)
    requires AllFieldsLegal(fields) && Take(Atoms(Fields(fields)), s) == Some(rest)
    ensures ReadValue(s) == Ok(Object(Stored([], fields)), rest)
    decreases fields, 1
  {
    var s' := Trim(s)[1..];
    CharTakes('{', s);
    if fields == [] {
      TakeCons("{", ["}"], s);
      TakeOne("}", s');
      CharTakes('}', s');
      ObjectStarts(s, s', '}', rest);
    } else {
      TakeCons("{", FieldsAtoms(fields), s);
      FieldsRead(fields, s', [], rest);
      ObjectStarts(s, s', '"', ReadChar(s').rest);
    }
  }

  lemma {:induction false} FieldReads(f: Field, s: string, rest: string)
    requires IsToken(f.name) && Legal(f.spelling) && Ends(f.spelling, rest) && Take(FieldAtoms(f), s) == Some(rest)
    ensures ReadChar(s).Ok? && ReadChar(s).value == '"'
    ensures ReadMember('"', ReadChar(s).rest) == Ok(MemberOf(f), rest)
    decreases f
  {
    TakeConcat(QuoteAtoms(f.name), [":"] + Atoms(f.spelling), s);
    var s' := Take(QuoteAtoms(f.name), s).value;
    QuoteReads(f.name, s, s');
    TakeCons(":", Atoms(f.spelling), s');
    CharTakes(':', s');
    SpellingReads(f.spelling, Trim(s')[1..], rest);
  }

  lemma LastMember(c: char, s: string, acc: seq<Member>, m: Member, s': string, rest: string)
    requires ReadMember(c, s) == Ok(m, s') && ReadChar(s') == Ok('}', rest)
    ensures ReadMembers(c, s, acc) == Ok(Object(Put(acc, m)), rest)
  {
  }

  lemma NextMember(c: char, s: string, acc: seq<Member>, m: Member, s': string, s'': string, d: char, rest: string)
    requires ReadMember(c, s) == Ok(m, s') && ReadChar(s') == Ok(',', s'') && ReadChar(s'') == Ok(d, rest)
    ensures ReadMembers(c, s, acc) == ReadMembers(d, rest, Put(acc, m))
  {
  }

  lemma {:induction false} FieldsRead(fields: seq<Field>, s: string, acc: seq<Member>, rest: string)
    requires fields != [] && AllFieldsLegal(fields) && Take(FieldsAtoms(fields), s) == Some(rest)
    ensures ReadChar(s).Ok? && ReadChar(s).value == '"'
    ensures ReadMembers('"', ReadChar(s).rest, acc) == Ok(Object(Stored(acc, fields)), rest)
    decreases fields, 0
  {
    var f, more := fields[0], fields[1..];
    var m := MemberOf(f);
    TakeConcat(FieldAtoms(f), FieldTail(more), s);
    var s' := Take(FieldAtoms(f), s).value;
    if more == [] {
      TakeOne("}", s');
      CharTakes('}', s');
      PunctuationEnds(f.spelling, s', '}', rest);
      FieldReads(f, s, s');
      LastMember('"', ReadChar(s).rest, acc, m, s', rest);
      assert Stored(acc, fields) == Stored(Put(acc, m), []);
    } else {
      TakeCons(",", FieldsAtoms(more), s');
      CharTakes(',', s');
      var s'' := Trim(s')[1..];
      PunctuationEnds(f.spelling, s', ',', s'');
      FieldReads(f, s, s');
      FieldsRead(more, s'', Put(acc, m), rest);
      NextMember('"', ReadChar(s).rest, acc, m, s', s'', '"', ReadChar(s'').rest);
    }
  }

  // ----- nothing else is read -----------------------------------------------

  lemma CharTaken(s: string, c: char, t: string, s': string, rest: string)
    requires ReadChar(s) == Ok(c, s') && Take(TokenAtoms(t), s') == Some(rest)
    ensures Take(TokenAtoms([c] + t), s) == Some(rest)
  {
    ReadCharTrims(s);
    assert ([c] + t)[1..] == t;
    TakeCons([c], TokenAtoms(t), s);
  }

  /** Whatever is taken for the rest of a string is a token up to a quote. */
  lemma {:induction false} TokenTaken(s: string, acc: string) returns (t: string)
    requires ReadToken(s, acc).Ok?
    ensures IsToken(t) && ReadToken(s, acc).value == acc + t
    ensures Take(TokenAtoms(t), s) == Some(ReadToken(s, acc).rest)
    decreases |s|
  {
    var c, rest := ReadChar(s), ReadToken(s, acc).rest;
    if c.value == '"' {
      t := "";
      ReadCharTrims(s);
      TakeOne("\"", s);
      assert acc + t == acc;
    } else if c.value == '\\' {
      var d := ReadChar(c.rest);
      var more := TokenTaken(d.rest, acc + [c.value, d.value]);
      t := [c.value] + ([d.value] + more);
      assert t[2..] == more && acc + [c.value, d.value] + more == acc + t;
      CharTaken(c.rest, d.value, more, d.rest, rest);
      CharTaken(s, c.value, [d.value] + more, c.rest, rest);
    } else {
      var more := TokenTaken(c.rest, acc + [c.value]);
      t := [c.value] + more;
      assert t[1..] == more && acc + [c.value] + more == acc + t;
      CharTaken(s, c.value, more, c.rest, rest);
    }
  }

  lemma QuoteTaken(s: string) returns (t: string)
    requires ReadChar(s).Ok? && ReadChar(s).value == '"' && ReadToken(ReadChar(s).rest, "").Ok?
    ensures IsToken(t) && ReadToken(ReadChar(s).rest, "").value == t
    ensures Take(QuoteAtoms(t), s) == Some(ReadToken(ReadChar(s).rest, "").rest)
  {
    ReadCharTrims(s);
    t := TokenTaken(ReadChar(s).rest, "");
    assert "" + t == t;
    TakeCons("\"", TokenAtoms(t), s);
  }

  lemma WordTaken(s: string, c: char, word: string, v: Value)
    requires ReadChar(s).Ok? && ReadChar(s).value == c && ReadWord(ReadChar(s).rest, word, v).Ok?
    ensures Take([[c] + word], s) == Some(ReadWord(ReadChar(s).rest, word, v).rest)
  {
    ReadCharTrims(s);
    var s' := ReadChar(s).rest;
    assert Trim(s) == [c] + s' && s' == word + s'[|word|..];
    assert ([c] + word) + s'[|word|..] == Trim(s);
    TakeOne([c] + word, s);
  }

  lemma {:induction false} RunTaken(s: string)
    ensures AllInNumber(s[..RunLength(s)]) && EndsNumber(s[RunLength(s)..])
  {
    if s != [] && InNumber(s[0]) {
      RunTaken(s[1..]);
      assert s[..RunLength(s)] == [s[0]] + s[1..][..RunLength(s[1..])];
      assert s[RunLength(s)..] == s[1..][RunLength(s[1..])..];
    }
  }

  lemma {:induction false} DigitsTaken(s: string)
    ensures AllDigits(s[..DigitCount(s)]) && (DigitCount(s) == |s| || !IsDigit(s[DigitCount(s)]))
  {
    if s != [] && IsDigit(s[0]) {
      DigitsTaken(s[1..]);
      assert s[..DigitCount(s)] == [s[0]] + s[1..][..DigitCount(s[1..])];
    }
  }

  lemma {:induction false} NoDotsNoMore(s: string)
    requires AllInNumber(s) && Dots(s) == 0
    ensures AllDigits(s)
  {
    if s != [] { NoDotsNoMore(s[..|s|-1]); }
  }

  lemma ExponentIs(s: string, k: nat, n: nat)
    requires s != [] && s[0] == 'e' && k == MarkLength(s) && n == DigitCount(s[k..]) > 0
    ensures IsExponent(s[..k + n]) && (k + n == |s| || !IsDigit(s[k + n]))
  {
    DigitsTaken(s[k..]);
    var e := s[..k + n];
    assert MarkLength(e) == k && e[k..] == s[k..][..n];
    ExponentIff(e);
  }

  lemma ExponentTaken(t: string, s: string) returns (e: string)
    requires ReadExponent(t, s).Ok? && EndsNumber(s)
    ensures IsExponent(e) && ReadExponent(t, s).value == Real(t + e) && s == e + ReadExponent(t, s).rest
    ensures Ends(Decimal(t, e), ReadExponent(t, s).rest)
  {
    if s[0] != 'e' {
      e := "";
      assert t + e == t && e + s == s;
    } else {
      var k := MarkLength(s);
      var n := DigitCount(s[k..]);
      ExponentIs(s, k, n);
      e := s[..k + n];
    }
  }

  lemma TakePrefix(atom: string, s: string, rest: string)
    requires Trim(s) == atom + rest
    ensures Take([atom], s) == Some(rest)
  {
    TakeOne(atom, s);
  }

  lemma NumberTaken(s: string) returns (sp: Spelling)
    requires ReadChar(s).Ok? && StartsNumber(ReadChar(s).value)
    requires ReadNumber(ReadChar(s).value, ReadChar(s).rest).Ok?
    ensures var r := ReadNumber(ReadChar(s).value, ReadChar(s).rest); IsSpelling(sp, s, r.value, r.rest)
  {
    var c, s' := ReadChar(s).value, ReadChar(s).rest;
    ReadCharTrims(s);
    var n := RunLength(s');
    var run, rest := s'[..n], s'[n..];
    var t := [c] + run;
    RunTaken(s');
    assert t[1..] == run && Trim(s) == t + rest;
    if Dots(run) == 0 {
      NoDotsNoMore(run);
      IntegerIff(t);
      IntOfIs(t);
      sp := Integer(t);
      TakePrefix(t, s, rest);
    } else {
      DecimalIff(t);
      var e := ExponentTaken(t, rest);
      sp := Decimal(t, e);
      var r := ReadNumber(c, s');
      Regroup(t, e, r.rest);
      TakePrefix(t + e, s, r.rest);
    }
  }

  lemma Regroup(a: string, b: string, c: string)
    ensures a + b + c == a + (b + c)
  {
  }

  lemma WordValueTaken(s: string) returns (sp: Spelling)
    requires ReadChar(s).Ok? && ReadChar(s).value in {'t', 'f', 'n'} && ReadValue(s).Ok?
    ensures IsSpelling(sp, s, ReadValue(s).value, ReadValue(s).rest)
  {
    var c := ReadChar(s).value;
    WordsAreSpelled();
    if c == 't' {
      sp := Truth(true);
      WordTaken(s, c, "rue", Bool(true));
    } else if c == 'f' {
      sp := Truth(false);
      WordTaken(s, c, "alse", Bool(false));
    } else {
      sp := Null;
      WordTaken(s, c, "ull", Nil);
    }
  }

  /** Every text that is read starts with a spelling of the value. */
  lemma {:induction false} ValueTaken(s: string) returns (sp: Spelling)
    requires ReadValue(s).Ok?
    ensures IsSpelling(sp, s, ReadValue(s).value, ReadValue(s).rest)
    decreases |s|, 0
  {
    var c := ReadChar(s);
    if c.value == '[' {
      sp := ArrayTaken(s);
    } else if c.value == '{' {
      sp := ObjectTaken(s);
    } else if StartsNumber(c.value) {
      sp := NumberTaken(s);
    } else if c.value == '"' {
      var t := QuoteTaken(s);
      sp := Quote(t);
    } else {
      sp := WordValueTaken(s);
    }
  }

  lemma {:induction false} ArrayTaken(s: string) returns (sp: Spelling)
    requires ReadChar(s).Ok? && ReadChar(s).value == '[' && ReadArray(ReadChar(s).rest).Ok?
    ensures var r := ReadArray(ReadChar(s).rest); IsSpelling(sp, s, r.value, r.rest)
    decreases |s|, 0, 1
  {
    ReadCharTrims(s);
    var s' := ReadChar(s).rest;
    var c := ReadChar(s');
    ReadCharTrims(s');
    if c.value == ']' {
      sp := Items([]);
      TakeCons("[", ["]"], s);
      TakeOne("]", s');
    } else {
      assert [c.value] + c.rest == Trim(s');
      var items := ItemsTaken(Trim(s'), []);
      sp := Items(items);
      assert [] + Meanings(items) == Meanings(items);
      TakeCons("[", ItemAtoms(items), s);
      TakeTrimmed(ItemAtoms(items), s');
    }
  }

  lemma OneItemTaken(sp: Spelling, s: string, s': string, rest: string)
    requires Legal(sp) && Take(Atoms(sp), s) == Some(s') && ReadChar(s') == Ok(']', rest)
    ensures Take(ItemAtoms([sp]), s) == Some(rest)
  {
    OneItem(sp);
    ReadCharTrims(s');
    TakeConcat(Atoms(sp), ["]"], s);
    TakeOne("]", s');
  }

  lemma MoreItemsTaken(sp: Spelling, more: seq<Spelling>, s: string, s': string, s'': string, rest: string)
    requires Legal(sp) && AllLegal(more) && more != []
    requires Take(Atoms(sp), s) == Some(s') && ReadChar(s') == Ok(',', s'') && Take(ItemAtoms(more), s'') == Some(rest)
    ensures Take(ItemAtoms([sp] + more), s) == Some(rest)
  {
    ConsItem(sp, more);
    ReadCharTrims(s');
    TakeConcat(Atoms(sp), [","] + ItemAtoms(more), s);
    TakeCons(",", ItemAtoms(more), s');
  }

  lemma OneItem(sp: Spelling)
    requires Legal(sp)
    ensures AllLegal([sp]) && Meanings([sp]) == [Meaning(sp)] && ItemAtoms([sp]) == Atoms(sp) + ["]"]
  {
    assert [sp][1..] == [];
  }

  lemma ConsItem(sp: Spelling, more: seq<Spelling>)
    requires Legal(sp) && AllLegal(more) && more != []
    ensures AllLegal([sp] + more) && Meanings([sp] + more) == [Meaning(sp)] + Meanings(more)
    ensures ItemAtoms([sp] + more) == Atoms(sp) + ([","] + ItemAtoms(more))
  {
    assert ([sp] + more)[1..] == more;
  }

  lemma {:induction false} ItemsTaken(s: string, acc: seq<Value>) returns (items: seq<Spelling>)
    requires ReadItems(s, acc).Ok?
    ensures items != [] && AllLegal(items) && ReadItems(s, acc).value == Array(acc + Meanings(items))
    ensures Take(ItemAtoms(items), s) == Some(ReadItems(s, acc).rest)
    decreases |s|, 1
  {
    var v := ReadValue(s);
    var sp := ValueTaken(s);
    var c := ReadChar(v.rest);
    if c.value == ']' {
      items := [sp];
      OneItem(sp);
      OneItemTaken(sp, s, v.rest, c.rest);
    } else {
      var more := ItemsTaken(c.rest, acc + [v.value]);
      items := [sp] + more;
      ConsItem(sp, more);
      assert acc + [v.value] + Meanings(more) == acc + Meanings(items);
      MoreItemsTaken(sp, more, s, v.rest, c.rest, ReadItems(s, acc).rest);
    }
  }

  lemma {:induction false} ObjectTaken(s: string) returns (sp: Spelling)
    requires ReadChar(s).Ok? && ReadChar(s).value == '{' && ReadObject(ReadChar(s).rest).Ok?
    ensures var r := ReadObject(ReadChar(s).rest); IsSpelling(sp, s, r.value, r.rest)
    decreases |s|, 0, 1
  {
    ReadCharTrims(s);
    var s' := ReadChar(s).rest;
    var c := ReadChar(s');
    if c.value == '}' {
      ReadCharTrims(s');
      sp := Fields([]);
      TakeCons("{", ["}"], s);
      TakeOne("}", s');
    } else {
      var fields := FieldsTaken(s', []);
      sp := Fields(fields);
      TakeCons("{", FieldsAtoms(fields), s);
    }
  }

  lemma OneField(f: Field, acc: seq<Member>)
    requires IsToken(f.name) && Legal(f.spelling)
    ensures AllFieldsLegal([f]) && Stored(acc, [f]) == Put(acc, MemberOf(f))
    ensures FieldsAtoms([f]) == FieldAtoms(f) + ["}"]
  {
    assert [f][1..] == [];
    assert Stored(Put(acc, MemberOf(f)), []) == Put(acc, MemberOf(f));
  }

  lemma ConsField(f: Field, more: seq<Field>, acc: seq<Member>)
    requires IsToken(f.name) && Legal(f.spelling) && AllFieldsLegal(more) && more != []
    ensures AllFieldsLegal([f] + more) && Stored(acc, [f] + more) == Stored(Put(acc, MemberOf(f)), more)
    ensures FieldsAtoms([f] + more) == FieldAtoms(f) + ([","] + FieldsAtoms(more))
  {
    assert ([f] + more)[1..] == more;
  }

  /** `s` is the text from the first character of the first member on, with any blanks before it. */
  lemma {:induction false} FieldsTaken(s: string, acc: seq<Member>) returns (fields: seq<Field>)
    requires ReadChar(s).Ok? && ReadMembers(ReadChar(s).value, ReadChar(s).rest, acc).Ok?
    ensures var r := ReadMembers(ReadChar(s).value, ReadChar(s).rest, acc);
            && fields != [] && AllFieldsLegal(fields) && r.value == Object(Stored(acc, fields))
            && Take(FieldsAtoms(fields), s) == Some(r.rest)
    decreases |s|, 1
  {
    var m := ReadMember(ReadChar(s).value, ReadChar(s).rest);
    var f := FieldTaken(s);
    var e := ReadChar(m.rest);
    ReadCharTrims(m.rest);
    if e.value == '}' {
      fields := [f];
      OneField(f, acc);
      TakeConcat(FieldAtoms(f), ["}"], s);
      TakeOne("}", m.rest);
    } else {
      var more := FieldsTaken(e.rest, Put(acc, m.value));
      fields := [f] + more;
      ConsField(f, more, acc);
      TakeConcat(FieldAtoms(f), [","] + FieldsAtoms(more), s);
      TakeCons(",", FieldsAtoms(more), m.rest);
    }
  }

  lemma {:induction false} FieldTaken(s: string) returns (f: Field)
    requires ReadChar(s).Ok? && ReadMember(ReadChar(s).value, ReadChar(s).rest).Ok?
    ensures var r := ReadMember(ReadChar(s).value, ReadChar(s).rest);
            && IsToken(f.name) && Legal(f.spelling) && MemberOf(f) == r.value
            && Take(FieldAtoms(f), s) == Some(r.rest)
    decreases |s|, 0
  {
    var name := ReadToken(ReadChar(s).rest, "");
    var t := QuoteTaken(s);
    var d := ReadChar(name.rest);
    ReadCharTrims(name.rest);
    var sp := ValueTaken(d.rest);
    f := Field(t, sp);
    TakeConcat(QuoteAtoms(t), [":"] + Atoms(sp), s);
    TakeCons(":", Atoms(sp), name.rest);
  }

  /** The reader gives a value and a rest exactly if the text starts with a spelling of the value that ends there. */
  lemma AcceptedIff(s: string, v: Value, rest: string)
    ensures ReadValue(s) == Ok(v, rest) <==> exists sp :: IsSpelling(sp, s, v, rest)
  {
    if ReadValue(s) == Ok(v, rest) {
      var sp := ValueTaken(s);
    }
    forall sp | IsSpelling(sp, s, v, rest) ensures ReadValue(s) == Ok(v, rest) {
      SpellingReads(sp, s, rest);
    }
  }
}
