/** Printing and reading undo each other, as far as they do. */
module JsonLaws {
  import opened Blocks
  import opened Digits
  import opened Json
  import opened JsonGrammar

  // ----- strings, keys and members ------------------------------------------

  /** The character at `i` follows an odd number of backslashes. */
  predicate Escaped(s: string, i: nat)
    requires i <= |s|
  {
    i > 0 && s[i - 1] == '\\' && !Escaped(s, i - 1)
  }

  /** The character at `i` is no white space, and a quote only if it is escaped. */
  predicate Fits(s: string, i: nat)
    requires i < |s|
  {
    s[i] as int != 32 && !(9 <= s[i] as int <= 13) && (s[i] == '"' ==> Escaped(s, i))
  }

  /** Every character fits, and no backslash is left at the end to escape the closing quote. */
  ghost predicate CanBeQuoted(s: string) {
    (forall i :: 0 <= i < |s| ==> Fits(s, i)) && !Escaped(s, |s|)
  }

  lemma {:induction false} EscapedLater(s: string, k: nat, i: nat)
    requires k <= i <= |s| && !Escaped(s, k)
    ensures Escaped(s[k..], i - k) == Escaped(s, i)
    decreases i
  {
    if i > k { EscapedLater(s, k, i - 1); }
  }

  lemma FitsLater(s: string, k: nat, i: nat)
    requires k <= i < |s| && !Escaped(s, k)
    ensures Fits(s[k..], i - k) == Fits(s, i)
  {
    EscapedLater(s, k, i);
  }

  lemma CanBeQuotedLater(s: string, k: nat)
    requires k <= |s| && !Escaped(s, k)
    requires forall i :: 0 <= i < k ==> Fits(s, i)
    ensures CanBeQuoted(s) <==> CanBeQuoted(s[k..])
  {
    var t := s[k..];
    EscapedLater(s, k, |s|);
    if CanBeQuoted(s) {
      forall i | 0 <= i < |t| ensures Fits(t, i) { FitsLater(s, k, i + k); }
    }
    if CanBeQuoted(t) {
      forall i | k <= i < |s| ensures Fits(s, i) { FitsLater(s, k, i); }
    }
  }

  /** Tokens are exactly the strings that can stand between quotes. */
  lemma {:induction false} TokenIff(s: string)
    ensures IsToken(s) <==> CanBeQuoted(s)
    decreases |s|
  {
    if s != [] {
      if s[0] == '\\' {
        assert Escaped(s, 1);
        if |s| > 1 {
          TokenIff(s[2..]);
          if Fits(s, 1) { CanBeQuotedLater(s, 2); }
        }
      } else {
        TokenIff(s[1..]);
        if Fits(s, 0) { CanBeQuotedLater(s, 1); }
      }
    }
  }

  /** The order of keys: the first character in which they differ decides, and a proper prefix comes first. */
  ghost predicate ComesBefore(a: string, b: string, k: nat) {
    k <= |a| && k < |b| && a[..k] == b[..k] && (k < |a| ==> a[k] < b[k])
  }

  lemma {:induction false} LessIff(a: string, b: string)
    ensures Less(a, b) <==> exists k: nat :: ComesBefore(a, b, k)
  {
    if b == [] || a == [] || a[0] != b[0] {
      if Less(a, b) { assert ComesBefore(a, b, 0); }
    } else {
      var a', b' := a[1..], b[1..];
      LessIff(a', b');
      if Less(a', b') {
        var k: nat :| ComesBefore(a', b', k);
        assert a[..k + 1] == [a[0]] + a'[..k] && b[..k + 1] == [b[0]] + b'[..k];
        assert ComesBefore(a, b, k + 1);
      }
      forall k: nat | ComesBefore(a, b, k) ensures Less(a', b') {
        assert k > 0;
        assert a'[..k - 1] == a[..k][1..] && b'[..k - 1] == b[..k][1..];
        assert ComesBefore(a', b', k - 1);
      }
    }
  }

  /** The value stored under a name. */
  function Lookup(ms: seq<Member>, name: string): Option<Value> {
    if ms == [] then None else if ms[0].name == name then Some(ms[0].value) else Lookup(ms[1..], name)
  }

  lemma {:induction false} LookupAbsent(ms: seq<Member>, name: string)
    requires forall i :: 0 <= i < |ms| ==> Less(name, ms[i].name)
    ensures Lookup(ms, name) == None
  {
    if ms != [] {
      LessIsIrreflexive(name);
      LookupAbsent(ms[1..], name);
    }
  }

  lemma {:induction false} LessIsIrreflexive(a: string)
    ensures !Less(a, a)
  {
    if a != [] { LessIsIrreflexive(a[1..]); }
  }

  /** Storing a member gives its name its value, whether or not it had one, and leaves other names alone. */
  lemma {:induction false} PutStores(ms: seq<Member>, m: Member, name: string)
    ensures Lookup(Put(ms, m), name) == if name == m.name then Some(m.value) else Lookup(ms, name)
  {
    if ms != [] {
      var first, more := ms[0], ms[1..];
      if Less(first.name, m.name) {
        PutStores(more, m, name);
        assert ([first] + Put(more, m))[1..] == Put(more, m);
        if first.name == m.name { LessIsIrreflexive(m.name); }
      } else if first.name == m.name {
        assert ([m] + more)[1..] == more;
      } else {
        assert ([m] + ms)[1..] == ms;
      }
    }
  }

  lemma {:induction false} OtherFieldsDoNotCount(acc: seq<Member>, fields: seq<Field>, name: string)
    requires forall i :: 0 <= i < |fields| ==> fields[i].name != name
    ensures Lookup(Stored(acc, fields), name) == Lookup(acc, name)
    decreases fields
  {
    if fields != [] {
      var m := MemberOf(fields[0]);
      PutStores(acc, m, name);
      OtherFieldsDoNotCount(Put(acc, m), fields[1..], name);
    }
  }

  /** The last field of a name gives it its value, whatever came before. */
  lemma {:induction false} LastFieldWins(acc: seq<Member>, fields: seq<Field>, k: nat)
    requires k < |fields| && forall i :: k < i < |fields| ==> fields[i].name != fields[k].name
    ensures Lookup(Stored(acc, fields), fields[k].name) == Some(Meaning(fields[k].spelling))
    decreases k
  {
    var m := MemberOf(fields[0]);
    var more := fields[1..];
    if k == 0 {
      PutStores(acc, m, m.name);
      OtherFieldsDoNotCount(Put(acc, m), more, m.name);
    } else {
      LastFieldWins(Put(acc, m), more, k - 1);
    }
  }

  // ----- printed forms ------------------------------------------------------

  /** Texts with a separator between them. */
  function Separated(texts: seq<string>): string {
    if texts == [] then "" else if |texts| == 1 then texts[0] else texts[0] + "," + Separated(texts[1..])
  }

  lemma {:induction false} ItemsAreSeparated(items: seq<Value>, texts: seq<string>)
    requires |texts| == |items| && forall i :: 0 <= i < |items| ==> RealFree(items[i]) && texts[i] == Print(items[i])
    ensures PrintItems(items) == Separated(texts)
    decreases items
  {
    if |items| == 1 {
      assert items[1..] == [] && texts[0] + "" == texts[0];
    } else if items != [] {
      assert forall i :: 0 <= i < |items| - 1 ==> items[1..][i] == items[i + 1] && texts[1..][i] == texts[i + 1];
      ItemsAreSeparated(items[1..], texts[1..]);
      Regroup(texts[0], ",", Separated(texts[1..]));
    }
  }

  lemma {:induction false} MembersAreSeparated(ms: seq<Member>, texts: seq<string>)
    requires |texts| == |ms|
    requires forall i :: 0 <= i < |ms| ==>
      RealFree(ms[i].value) && texts[i] == "\"" + ms[i].name + "\"" + ":" + Print(ms[i].value)
    ensures PrintMembers(ms) == Separated(texts)
    decreases ms
  {
    if |ms| == 1 {
      assert ms[1..] == [] && texts[0] + "" == texts[0];
    } else if ms != [] {
      assert forall i :: 0 <= i < |ms| - 1 ==> ms[1..][i] == ms[i + 1] && texts[1..][i] == texts[i + 1];
      MembersAreSeparated(ms[1..], texts[1..]);
      Regroup(texts[0], ",", Separated(texts[1..]));
    }
  }

  /** Every value has the printed form of RFC 8259, members in the order of their keys. */
  lemma PrintedForms(v: Value, texts: seq<string>)
    requires RealFree(v)
    ensures v == Nil ==> Print(v) == "null"
    ensures v.Bool? ==> Print(v) == if v.b then "true" else "false"
    ensures v.Str? ==> Print(v) == "\"" + v.s + "\""
    ensures v.Int? ==> IsInteger(Print(v)) && Denoted(Print(v)) == v.i && Print(v) != "-"
    ensures v.Array? && |texts| == |v.items| && (forall i :: 0 <= i < |texts| ==> texts[i] == Print(v.items[i])) ==>
      Print(v) == "[" + Separated(texts) + "]"
    ensures v.Object? && |texts| == |v.members| && (forall i :: 0 <= i < |texts| ==>
        texts[i] == "\"" + v.members[i].name + "\"" + ":" + Print(v.members[i].value)) ==>
      Print(v) == "{" + Separated(texts) + "}"
  {
    match v
    case Int(i) =>
      IntIsSpelled(i);
      if Print(v) == "-" { NatIsSpelled(if i < 0 then -i else i); }
    case Array(items) =>
      if |texts| == |items| && (forall i :: 0 <= i < |texts| ==> texts[i] == Print(items[i])) {
        ItemsAreSeparated(items, texts);
      }
    case Object(ms) =>
      if |texts| == |ms| && (forall i :: 0 <= i < |texts| ==>
          texts[i] == "\"" + ms[i].name + "\"" + ":" + Print(ms[i].value)) {
        MembersAreSeparated(ms, texts);
      }
    case _ =>
  }

  // ----- what the reader builds ---------------------------------------------

  lemma {:induction false} LessIsTransitive(a: string, b: string, c: string)
    requires Less(a, b) && Less(b, c)
    ensures Less(a, c)
  {
    if a != [] && a[0] == b[0] == c[0] {
      LessIsTransitive(a[1..], b[1..], c[1..]);
    }
  }

  lemma {:induction false} LessIsTotal(a: string, b: string)
    ensures Less(a, b) || a == b || Less(b, a)
  {
    if a != [] && b != [] && a[0] == b[0] {
      LessIsTotal(a[1..], b[1..]);
      assert a == [a[0]] + a[1..] && b == [b[0]] + b[1..];
    }
  }

  /** Every member after storing is the stored one or was there before. */
  lemma {:induction false} PutMembers(ms: seq<Member>, m: Member, i: nat)
    requires i < |Put(ms, m)|
    ensures Put(ms, m)[i] == m || Put(ms, m)[i] in ms
  {
    if ms != [] && Less(ms[0].name, m.name) && i > 0 {
      PutMembers(ms[1..], m, i - 1);
    }
  }

  lemma SortedCons(m: Member, ms: seq<Member>)
    requires Sorted(ms) && forall j :: 0 <= j < |ms| ==> Less(m.name, ms[j].name)
    ensures Sorted([m] + ms)
  {
  }

  /** Storing a member keeps the keys sorted. */
  lemma {:induction false} PutKeepsSorted(ms: seq<Member>, m: Member)
    requires Sorted(ms)
    ensures Sorted(Put(ms, m))
  {
    if ms != [] {
      var first, more := ms[0], ms[1..];
      assert Sorted(more);
      if Less(first.name, m.name) {
        PutKeepsSorted(more, m);
        var r := Put(more, m);
        forall j | 0 <= j < |r| ensures Less(first.name, r[j].name) {
          PutMembers(more, m, j);
        }
        SortedCons(first, r);
      } else if first.name != m.name {
        LessIsTotal(first.name, m.name);
        forall j | 0 <= j < |ms| ensures Less(m.name, ms[j].name) {
          if j > 0 { LessIsTransitive(m.name, first.name, ms[j].name); }
        }
        SortedCons(m, ms);
      } else {
        SortedCons(m, more);
      }
    }
  }

  ghost predicate Sound(v: Value) {
    WellFormed(v) && Quotable(v)
  }

  lemma PutKeepsSound(ms: seq<Member>, m: Member)
    requires Sound(Object(ms)) && Sound(m.value) && IsToken(m.name)
    ensures Sound(Object(Put(ms, m)))
  {
    PutKeepsSorted(ms, m);
    var r := Put(ms, m);
    forall i | 0 <= i < |r| ensures WellFormed(r[i].value) && IsToken(r[i].name) && Quotable(r[i].value) {
      PutMembers(ms, m, i);
    }
  }

  lemma {:induction false} MeaningIsSound(sp: Spelling)
    requires Legal(sp)
    ensures Sound(Meaning(sp))
    decreases sp
  {
    match sp
    case Items(items) => ItemsAreSound(items);
    case Fields(fields) => FieldsAreSound([], fields);
    case _ =>
  }

  lemma {:induction false} ItemsAreSound(items: seq<Spelling>)
    requires AllLegal(items)
    ensures Sound(Array(Meanings(items)))
    decreases items
  {
    if items != [] {
      MeaningIsSound(items[0]);
      ItemsAreSound(items[1..]);
    }
  }

  lemma {:induction false} FieldsAreSound(acc: seq<Member>, fields: seq<Field>)
    requires Sound(Object(acc)) && AllFieldsLegal(fields)
    ensures Sound(Object(Stored(acc, fields)))
    decreases fields
  {
    if fields != [] {
      var f := fields[0];
      MeaningIsSound(f.spelling);
      PutKeepsSound(acc, MemberOf(f));
      FieldsAreSound(Put(acc, MemberOf(f)), fields[1..]);
    }
  }

  /** Whatever the reader accepts is well formed, and its strings can be printed as they are. */
  lemma ReadIsSound(s: string)
    requires ReadValue(s).Ok?
    ensures Sound(ReadValue(s).value)
  {
    var sp := ValueTaken(s);
    MeaningIsSound(sp);
  }

  // ----- printing is one way of spelling ------------------------------------

  ghost predicate Printable(v: Value) {
    WellFormed(v) && RealFree(v) && Quotable(v)
  }

  ghost predicate AllPrintable(items: seq<Value>) {
    forall i :: 0 <= i < |items| ==> Printable(items[i])
  }

  ghost predicate AllMembersPrintable(ms: seq<Member>) {
    forall i :: 0 <= i < |ms| ==> Printable(ms[i].value) && IsToken(ms[i].name)
  }

  /** A natural number is printed with its decimal digits, and no zero before them. */
  lemma {:induction false} NatIsSpelled(n: nat)
    ensures var s := PrintNat(n);
            s != [] && AllDigits(s) && Digits.Value(10, Codes(s)) == n && (s[0] == '0' ==> s == "0")
    ensures n > 0 ==> PrintNat(n)[0] != '0'
  {
    var s := PrintNat(n);
    if n < 10 {
      assert Codes(s) == [] + [n];
      ValueOfAppend(10, [], n);
    } else {
      var s' := PrintNat(n / 10);
      NatIsSpelled(n / 10);
      assert Codes(s) == Codes(s') + [n % 10];
      ValueOfAppend(10, Codes(s'), n % 10);
    }
  }

  lemma IntIsSpelled(i: int)
    ensures IsInteger(PrintInt(i)) && Denoted(PrintInt(i)) == i
  {
    if i < 0 {
      NatIsSpelled(-i);
      assert PrintInt(i)[1..] == PrintNat(-i);
    } else {
      NatIsSpelled(i);
    }
  }

  /** Atoms one after the other, without blanks. */
  ghost function Flat(atoms: seq<string>): string {
    if atoms == [] then "" else atoms[0] + Flat(atoms[1..])
  }

  lemma {:induction false} FlatConcat(a: seq<string>, b: seq<string>)
    ensures Flat(a + b) == Flat(a) + Flat(b)
    decreases a
  {
    if a == [] {
      assert a + b == b && "" + Flat(b) == Flat(b);
    } else {
      assert (a + b)[1..] == a[1..] + b;
      FlatConcat(a[1..], b);
      Regroup(a[0], Flat(a[1..]), Flat(b));
    }
  }

  lemma FlatOne(atom: string)
    ensures Flat([atom]) == atom
  {
    assert [atom][1..] == [] && atom + "" == atom;
  }

  ghost predicate Solid(atoms: seq<string>) {
    forall i :: 0 <= i < |atoms| ==> atoms[i] != [] && !IsSpace(atoms[i][0])
  }

  /** Without blanks the atoms are all there. */
  lemma {:induction false} FlatIsTaken(atoms: seq<string>, rest: string)
    requires Solid(atoms)
    ensures Take(atoms, Flat(atoms) + rest) == Some(rest)
  {
    if atoms == [] {
      assert "" + rest == rest;
    } else {
      var s := Flat(atoms) + rest;
      assert s == atoms[0] + (Flat(atoms[1..]) + rest);
      assert Trim(s) == s && s[|atoms[0]|..] == Flat(atoms[1..]) + rest;
      FlatIsTaken(atoms[1..], rest);
    }
  }

  lemma {:induction false} TokenIsSolid(s: string)
    requires IsToken(s)
    ensures Solid(TokenAtoms(s))
    decreases |s|
  {
    if s != [] {
      if IsPlain(s[0]) {
        TokenIsSolid(s[1..]);
      } else {
        assert s[1..][1..] == s[2..];
        TokenIsSolid(s[2..]);
      }
    }
  }

  lemma {:induction false} AtomsAreSolid(sp: Spelling)
    requires Legal(sp)
    ensures Solid(Atoms(sp))
    decreases sp
  {
    match sp
    case Items(items) => if items != [] { ItemsAreSolid(items); }
    case Fields(fields) => if fields != [] { FieldsAreSolid(fields); }
    case Quote(s) => TokenIsSolid(s);
    case _ =>
  }

  lemma {:induction false} ItemsAreSolid(items: seq<Spelling>)
    requires items != [] && AllLegal(items)
    ensures Solid(ItemAtoms(items))
    decreases items
  {
    AtomsAreSolid(items[0]);
    if |items| > 1 { ItemsAreSolid(items[1..]); }
  }

  lemma {:induction false} FieldsAreSolid(fields: seq<Field>)
    requires fields != [] && AllFieldsLegal(fields)
    ensures Solid(FieldsAtoms(fields))
    decreases fields
  {
    FieldIsSolid(fields[0]);
    if |fields| > 1 { FieldsAreSolid(fields[1..]); }
  }

  lemma {:induction false} FieldIsSolid(f: Field)
    requires IsToken(f.name) && Legal(f.spelling)
    ensures Solid(FieldAtoms(f))
    decreases f
  {
    TokenIsSolid(f.name);
    AtomsAreSolid(f.spelling);
  }

  lemma {:induction false} TokenFlat(s: string)
    ensures Flat(TokenAtoms(s)) == s + "\""
  {
    if s == [] {
      FlatOne("\"");
    } else {
      TokenFlat(s[1..]);
      FlatCons([s[0]], TokenAtoms(s[1..]));
      assert s == [s[0]] + s[1..];
    }
  }

  lemma FlatCons(atom: string, more: seq<string>)
    ensures Flat([atom] + more) == atom + Flat(more)
  {
    assert ([atom] + more)[1..] == more;
  }

  lemma QuoteFlat(s: string)
    ensures Flat(QuoteAtoms(s)) == Quoted(s)
  {
    TokenFlat(s);
    FlatCons("\"", TokenAtoms(s));
    Regroup("\"", s, "\"");
  }

  /** What is printed is a spelling of the value, without blanks. */
  lemma {:induction false} PrintSpells(v: Value) returns (sp: Spelling)
    requires Printable(v)
    ensures Legal(sp) && Meaning(sp) == v && !sp.Decimal? && (sp.Integer? <==> v.Int?)
    ensures Flat(Atoms(sp)) == Print(v)
    decreases v
  {
    match v
    case Array(items) => sp := ArraySpells(items);
    case Bool(b) =>
      sp := Truth(b);
      FlatOne(if b then "true" else "false");
    case Int(i) =>
      IntIsSpelled(i);
      sp := Integer(PrintInt(i));
      FlatOne(PrintInt(i));
    case Nil =>
      sp := Null;
      FlatOne("null");
    case Object(ms) => sp := ObjectSpells(ms);
    case Str(s) =>
      sp := Quote(s);
      QuoteFlat(s);
  }

  lemma {:induction false} ArraySpells(items: seq<Value>) returns (sp: Spelling)
    requires AllPrintable(items)
    ensures Legal(sp) && Meaning(sp) == Array(items) && sp.Items?
    ensures Flat(Atoms(sp)) == "[" + PrintItems(items) + "]"
    decreases items, 1
  {
    if items == [] {
      sp := Items([]);
      FlatCons("[", ["]"]);
      FlatOne("]");
      assert "[" + "" + "]" == "[" + "]";
    } else {
      var sps := ItemsSpell(items);
      sp := Items(sps);
      FlatCons("[", ItemAtoms(sps));
      Regroup("[", PrintItems(items), "]");
    }
  }

  lemma {:induction false} ItemsSpell(items: seq<Value>) returns (sps: seq<Spelling>)
    requires items != [] && AllPrintable(items)
    ensures sps != [] && AllLegal(sps) && Meanings(sps) == items && Flat(ItemAtoms(sps)) == PrintItems(items) + "]"
    decreases items, 0
  {
    var sp := PrintSpells(items[0]);
    var p := Print(items[0]);
    if |items| == 1 {
      sps := [sp];
      OneItem(sp);
      FlatConcat(Atoms(sp), ["]"]);
      FlatOne("]");
      assert items == [items[0]] && items[1..] == [] && p + "" == p;
    } else {
      var more := ItemsSpell(items[1..]);
      sps := [sp] + more;
      ConsItem(sp, more);
      assert items == [items[0]] + items[1..];
      FlatConcat(Atoms(sp), [","] + ItemAtoms(more));
      FlatCons(",", ItemAtoms(more));
      CommaJoined(p, PrintItems(items[1..]), "]");
    }
  }

  lemma CommaJoined(first: string, more: string, end: string)
    ensures first + ("," + (more + end)) == first + ("," + more) + end
  {
  }

  lemma {:induction false} PutLast(ms: seq<Member>, m: Member)
    requires Sorted(ms + [m])
    ensures Put(ms, m) == ms + [m]
  {
    if ms != [] {
      assert (ms + [m])[0] == ms[0] && (ms + [m])[|ms|] == m;
      assert (ms + [m])[1..] == ms[1..] + [m];
      PutLast(ms[1..], m);
      assert ms == [ms[0]] + ms[1..];
    }
  }

  lemma PutNext(acc: seq<Member>, ms: seq<Member>)
    requires ms != [] && Sorted(acc + ms)
    ensures Put(acc, ms[0]) == acc + [ms[0]] && acc + [ms[0]] + ms[1..] == acc + ms
  {
    assert acc + [ms[0]] == (acc + ms)[..|acc| + 1];
    PutLast(acc, ms[0]);
  }

  lemma {:induction false} ObjectSpells(ms: seq<Member>) returns (sp: Spelling)
    requires AllMembersPrintable(ms) && Sorted(ms)
    ensures Legal(sp) && Meaning(sp) == Object(ms) && sp.Fields?
    ensures Flat(Atoms(sp)) == "{" + PrintMembers(ms) + "}"
    decreases ms, 1
  {
    if ms == [] {
      sp := Fields([]);
      FlatCons("{", ["}"]);
      FlatOne("}");
      assert "{" + "" + "}" == "{" + "}";
    } else {
      assert [] + ms == ms;
      var fields := MembersSpell(ms, []);
      sp := Fields(fields);
      FlatCons("{", FieldsAtoms(fields));
      Regroup("{", PrintMembers(ms), "}");
    }
  }

  lemma {:induction false} MembersSpell(ms: seq<Member>, acc: seq<Member>) returns (fields: seq<Field>)
    requires ms != [] && AllMembersPrintable(ms) && Sorted(acc + ms)
    ensures fields != [] && AllFieldsLegal(fields) && Stored(acc, fields) == acc + ms
    ensures Flat(FieldsAtoms(fields)) == PrintMembers(ms) + "}"
    decreases ms, 0
  {
    var m := ms[0];
    var f := MemberSpells(m);
    var p := PrintMember(m);
    PutNext(acc, ms);
    if |ms| == 1 {
      fields := [f];
      OneField(f, acc);
      FlatConcat(FieldAtoms(f), ["}"]);
      FlatOne("}");
      assert acc + [m] == acc + ms && ms[1..] == [] && p + "" == p;
    } else {
      var more := MembersSpell(ms[1..], acc + [m]);
      fields := [f] + more;
      ConsField(f, more, acc);
      FlatConcat(FieldAtoms(f), [","] + FieldsAtoms(more));
      FlatCons(",", FieldsAtoms(more));
      CommaJoined(p, PrintMembers(ms[1..]), "}");
    }
  }

  lemma {:induction false} MemberSpells(m: Member) returns (f: Field)
    requires Printable(m.value) && IsToken(m.name)
    ensures IsToken(f.name) && Legal(f.spelling) && MemberOf(f) == m && Flat(FieldAtoms(f)) == PrintMember(m)
    decreases m
  {
    var sp := PrintSpells(m.value);
    f := Field(m.name, sp);
    FlatConcat(QuoteAtoms(m.name), [":"] + Atoms(sp));
    QuoteFlat(m.name);
    FlatCons(":", Atoms(sp));
    Regroup(Quoted(m.name), ":", Print(m.value));
  }

  // ----- the laws -----------------------------------------------------------

  /** Everything that could prolong an integer is taken as part of it. */
  lemma IntTakesAll(s: string)
    requires ReadValue(s).Ok? && ReadValue(s).value.Int?
    ensures EndsNumber(ReadValue(s).rest)
  {
    RunTaken(ReadChar(s).rest);
  }

  /**
    A printed value, whatever follows it, reads back as that value and leaves what follows, exactly
    when its strings can stand between quotes as they are and nothing prolongs a number.
   */
  lemma ReadUndoesPrintIff(v: Value, rest: string)
    requires WellFormed(v) && RealFree(v)
    ensures ReadValue(Print(v) + rest) == Ok(v, rest) <==> Quotable(v) && (v.Int? ==> EndsNumber(rest))
  {
    var s := Print(v) + rest;
    if Quotable(v) && (v.Int? ==> EndsNumber(rest)) {
      var sp := PrintSpells(v);
      AtomsAreSolid(sp);
      FlatIsTaken(Atoms(sp), rest);
      SpellingReads(sp, s, rest);
    } else if ReadValue(s) == Ok(v, rest) {
      ReadIsSound(s);
      if v.Int? { IntTakesAll(s); }
    }
  }

  /** Whatever is accepted and has no reals in it prints to a text that reads as the same value. */
  lemma AcceptedTextNormalises(s: string)
    requires FromString(s).Ok? && RealFree(FromString(s).value)
    ensures var v := FromString(s).value; FromString(Print(v)) == Ok(v, "")
  {
    var v := FromString(s).value;
    ReadIsSound(s);
    ReadUndoesPrintIff(v, "");
    assert Print(v) + "" == Print(v);
  }

  /** Printing tells values apart. */
  lemma PrintIsInjective(v: Value, w: Value)
    requires Printable(v) && Printable(w) && Print(v) == Print(w)
    ensures v == w
  {
    ReadUndoesPrintIff(v, "");
    ReadUndoesPrintIff(w, "");
  }

  /** A string with a blank in it reads back without it. */
  lemma BlanksAreLost()
    ensures ReadValue(Print(Str("a b"))) == Ok(Str("ab"), "")
  {
    assert Print(Str("a b")) == "\"a b\"";
    assert ReadChar("\"a b\"") == Ok('"', "a b\"");
    assert ReadChar("a b\"") == Ok('a', " b\"");
    assert ReadChar(" b\"") == Ok('b', "\"") by { assert " b\""[1..] == "b\""; }
    assert ReadChar("\"") == Ok('"', "");
    assert ReadToken("\"", "ab") == Ok("ab", "");
    assert "a" + ['b'] == "ab" && "" + ['a'] == "a";
    assert ReadToken(" b\"", "a") == ReadToken("\"", "ab");
    assert ReadToken("a b\"", "") == ReadToken(" b\"", "a");
  }
}
