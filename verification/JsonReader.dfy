/** The reader of `Json` as it works: loops that consume an input stream. */
module JsonReader {
  import opened Blocks
  import opened Json
  import G = JsonGrammar

  /** What a call gave and what it left, against what should be read. */
  ghost predicate Gave<T>(p: Parse<T>, r: Option<T>, rest: string) {
    if p.Ok? then r == Some(p.value) && rest == p.rest else r.None?
  }

  lemma ExponentText(s: string, mark: string, digits: string, rest: string)
    requires s == mark + (digits + rest)
    ensures mark + digits == s[..|mark| + |digits|] && rest == s[|mark| + |digits|..]
  {
  }

  class Reader {
    var rest: string

    constructor (source: string)
      ensures rest == source
    {
      rest := source;
    }

    /** Formatted extraction of one character. */
    method ReadChar() returns (c: Option<char>)
      modifies this
      ensures Gave(Json.ReadChar(old(rest)), c, rest)
    {
      while |rest| > 0 && IsSpace(rest[0])
        invariant Json.ReadChar(rest) == Json.ReadChar(old(rest))
      {
        rest := rest[1..];
      }
      if rest == [] {
        return None;
      }
      c := Some(rest[0]);
      rest := rest[1..];
    }

    method ReadStringToken() returns (value: Option<string>)
      modifies this
      ensures Gave(ReadToken(old(rest), ""), value, rest)
    {
      var text := "";
      while true
        invariant ReadToken(rest, text) == ReadToken(old(rest), "")
        decreases |rest|
      {
        var c := ReadChar();
        if c.None? {
          return None;
        }
        if c.value == '"' {
          return Some(text);
        }
        if c.value == '\\' {
          var d := ReadChar();
          if d.None? {
            return None;
          }
          text := text + [c.value, d.value];
        } else {
          text := text + [c.value];
        }
      }
    }

    /** Unformatted extraction of as many characters as a word has. */
    method ReadWord(word: string, v: Value) returns (r: Option<Value>)
      modifies this
      ensures Gave(Json.ReadWord(old(rest), word, v), r, rest)
    {
      if |rest| < |word| || rest[..|word|] != word {
        return None;
      }
      rest := rest[|word|..];
      return Some(v);
    }

    /** Collects digits and dots. */
    method ReadRun() returns (text: string, dots: nat)
      modifies this
      ensures var n := RunLength(old(rest)); text == old(rest)[..n] && rest == old(rest)[n..] && dots == Dots(text)
    {
      text, dots := "", 0;
      while |rest| > 0 && InNumber(rest[0])
        invariant old(rest) == text + rest && RunLength(old(rest)) == |text| + RunLength(rest)
        invariant dots == Dots(text)
        decreases |rest|
      {
        assert (text + [rest[0]])[..|text|] == text;
        if rest[0] == '.' {
          dots := dots + 1;
        }
        text := text + [rest[0]];
        rest := rest[1..];
      }
    }

    /** Collects digits. */
    method ReadDigits() returns (text: string)
      modifies this
      ensures var n := DigitCount(old(rest)); text == old(rest)[..n] && rest == old(rest)[n..]
    {
      text := "";
      while |rest| > 0 && IsDigit(rest[0])
        invariant old(rest) == text + rest && DigitCount(old(rest)) == |text| + DigitCount(rest)
        decreases |rest|
      {
        text := text + [rest[0]];
        rest := rest[1..];
      }
    }

    method ReadMark() returns (mark: string)
      requires rest != []
      modifies this
      ensures var k := MarkLength(old(rest)); mark == old(rest)[..k] && rest == old(rest)[k..]
    {
      mark := [rest[0]];
      rest := rest[1..];
      if |rest| > 0 && (rest[0] == '+' || rest[0] == '-') {
        mark := mark + [rest[0]];
        rest := rest[1..];
      }
    }

    method ReadReal(start: string) returns (r: Option<Value>)
      modifies this
      ensures Gave(ReadExponent(start, old(rest)), r, rest)
    {
      var text := start;
      if rest == [] {
        return None;
      }
      if rest[0] != 'e' {
        return Some(Real(text));
      }
      var mark := ReadMark();
      var digits := ReadDigits();
      ExponentText(old(rest), mark, digits, rest);
      if |digits| == 0 {
        return None;
      }
      return Some(Real(text + (mark + digits)));
    }

    method ReadNumber(c: char) returns (r: Option<Value>)
      modifies this
      ensures Gave(Json.ReadNumber(c, old(rest)), r, rest)
    {
      var run, dots := ReadRun();
      var text := [c] + run;
      if dots > 0 {
        if dots > 1 {
          return None;
        }
        r := ReadReal(text);
      } else {
        if HasLeadingZero(text) {
          return None;
        }
        return Some(Int(IntOf(text)));
      }
    }

    method ReadValue() returns (r: Option<Value>)
      modifies this
      ensures Gave(Json.ReadValue(old(rest)), r, rest)
      decreases |rest|, 0
    {
      var c := ReadChar();
      if c.None? {
        return None;
      }
      if c.value == '[' {
        r := ReadArray();
      } else if c.value == 't' {
        r := ReadWord("rue", Bool(true));
      } else if c.value == 'f' {
        r := ReadWord("alse", Bool(false));
      } else if c.value == '-' || IsDigit(c.value) {
        r := ReadNumber(c.value);
      } else if c.value == 'n' {
        r := ReadWord("ull", Nil);
      } else if c.value == '{' {
        r := ReadObject();
      } else if c.value == '"' {
        var value := ReadStringToken();
        r := if value.None? then None else Some(Str(value.value));
      } else {
        return None;
      }
    }

    method ReadArray() returns (r: Option<Value>)
      modifies this
      ensures Gave(Json.ReadArray(old(rest)), r, rest)
      decreases |rest|, 2
    {
      var value: seq<Value> := [];
      var c := ReadChar();
      if c.None? {
        return None;
      }
      if c.value == ']' {
        return Some(Array(value));
      }
      rest := [c.value] + rest;
      while true
        invariant |rest| <= |old(rest)| && ReadItems(rest, value) == Json.ReadArray(old(rest))
        decreases |rest|
      {
        var item := ReadValue();
        if item.None? {
          return None;
        }
        value := value + [item.value];
        c := ReadChar();
        if c.None? {
          return None;
        }
        if c.value == ']' {
          return Some(Array(value));
        }
        if c.value != ',' {
          return None;
        }
      }
    }

    method ReadObject() returns (r: Option<Value>)
      modifies this
      ensures Gave(Json.ReadObject(old(rest)), r, rest)
      decreases |rest|, 2
    {
      var c := ReadChar();
      if c.None? {
        return None;
      }
      var value: seq<Member> := [];
      if c.value == '}' {
        return Some(Object(value));
      }
      while true
        invariant c.Some? && |rest| < |old(rest)| && ReadMembers(c.value, rest, value) == Json.ReadObject(old(rest))
        decreases |rest|
      {
        var member := ReadMember(c.value);
        if member.None? {
          return None;
        }
        value := Put(value, member.value);
        c := ReadChar();
        if c.None? {
          return None;
        }
        if c.value == '}' {
          return Some(Object(value));
        }
        if c.value != ',' {
          return None;
        }
        c := ReadChar();
        if c.None? {
          return None;
        }
      }
    }

    method ReadMember(first: char) returns (r: Option<Member>)
      modifies this
      ensures Gave(Json.ReadMember(first, old(rest)), r, rest)
      decreases |rest|, 0
    {
      if first != '"' {
        return None;
      }
      var name := ReadStringToken();
      if name.None? {
        return None;
      }
      var c := ReadChar();
      if c.None? || c.value != ':' {
        return None;
      }
      var value := ReadValue();
      if value.None? {
        return None;
      }
      return Some(Member(name.value, value.value));
    }
  }

  /** The text is read as a value exactly if it starts with a spelling of it. */
  lemma ReadIffSpelled(source: string)
    ensures forall sp, v, rest :: G.IsSpelling(sp, source, v, rest) ==> Json.FromString(source) == Ok(v, rest)
    ensures Json.FromString(source).Ok? ==>
      exists sp :: G.IsSpelling(sp, source, Json.FromString(source).value, Json.FromString(source).rest)
  {
    forall sp, v, rest | G.IsSpelling(sp, source, v, rest) ensures Json.FromString(source) == Ok(v, rest) {
      G.AcceptedIff(source, v, rest);
    }
    if Json.FromString(source).Ok? {
      G.AcceptedIff(source, Json.FromString(source).value, Json.FromString(source).rest);
    }
  }

  method FromString(source: string) returns (r: Option<Value>)
    ensures r == if Json.FromString(source).Ok? then Some(Json.FromString(source).value) else None
    ensures forall sp, v, rest :: G.IsSpelling(sp, source, v, rest) ==> r == Some(v)
    ensures r.Some? ==> exists sp, rest :: G.IsSpelling(sp, source, r.value, rest)
  {
    ReadIffSpelled(source);
    var stream := new Reader(source);
    r := stream.ReadValue();
  }
}
