/** Patterns read back from their text, and patterns compiled for values in lower case. */
module GlobCasing {
  import opened Common
  import opened Glob
  import opened GlobForms

  predicate PatternSign(c: char) { c == '*' || c == '?' || c == '\\' }

  // ----- Writing a pattern --------------------------------------------------------------------

  function Stars(n: nat): string { seq(n, _ => '*') }

  function ItemText(item: PatternChar): string {
    match item
    case Char(c) => if PatternSign(c) then ['\\', c] else [c]
    case WildcardSingle => "?"
    case WildcardMany(num) => Stars(num)
  }

  function PatternText(p: seq<PatternChar>): string {
    if p == [] then "" else ItemText(p[0]) + PatternText(p[1..])
  }

  /** Runs of stars are written as one item. */
  predicate Normal(p: seq<PatternChar>) {
    && (forall i :: 0 <= i < |p| && p[i].WildcardMany? ==> p[i].num > 0)
    && (forall i :: 0 < i < |p| && p[i].WildcardMany? ==> !p[i - 1].WildcardMany?)
  }

  /** Compiling a written pattern gives the pattern back: escaped signs are literal, the others are wildcards. */
  lemma {:induction false} WrittenCompiles(p: seq<PatternChar>)
    requires Normal(p)
    ensures CompileFrom(PatternText(p), false, Exact) == p
  {
    hide ItemText;
    if p != [] {
      var rest := PatternText(p[1..]);
      assert p == [p[0]] + p[1..];
      WrittenCompiles(p[1..]);
      if p[0].WildcardMany? {
        assert |p| > 1 ==> !p[1].WildcardMany?;
        NoStarFirst(p[1..]);
      }
      ItemCompiles(p[0], rest);
    }
  }

  lemma NoStarFirst(p: seq<PatternChar>)
    requires p != [] ==> !p[0].WildcardMany?
    ensures PatternText(p) != "" ==> PatternText(p)[0] != '*'
  {}

  lemma ItemCompiles(item: PatternChar, rest: string)
    requires item.WildcardMany? ==> item.num > 0 && (rest != "" ==> rest[0] != '*')
    ensures CompileFrom(ItemText(item) + rest, false, Exact) == [item] + CompileFrom(rest, false, Exact)
  {
    var text := ItemText(item) + rest;
    match item
    case WildcardSingle => assert text[1..] == rest;
    case WildcardMany(num) =>
      assert text[num..] == rest && (num < |text| ==> text[num] == rest[0]);
      StarsRun(text, num);
    case Char(c) =>
      if PatternSign(c) {
        assert text[1..] == [c] + rest && text[1..][1..] == rest;
      } else {
        assert text[1..] == rest;
      }
  }

  lemma {:induction false} StarsRun(text: string, n: nat)
    requires n <= |text| && (forall i :: 0 <= i < n ==> text[i] == '*') && (n < |text| ==> text[n] != '*')
    ensures StarRun(text) == n
  {
    if n > 0 {
      StarsRun(text[1..], n - 1);
    }
  }

  // ----- Lower case ---------------------------------------------------------------------------

  /** The text with its upper-case characters replaced, one by one. */
  function Lowered(s: string, casing: Casing): string
    requires casing.Lower?
  {
    if s == "" then ""
    else (if casing.isUppercase(s[0]) then casing.lowerChar(s[0]) else [s[0]]) + Lowered(s[1..], casing)
  }

  /** Pattern signs have no case, and no character has one of them, or nothing, as its lower case. */
  ghost predicate SignsHaveNoCase(casing: Casing)
    requires casing.Lower?
  {
    && (forall c :: PatternSign(c) ==> !casing.isUppercase(c))
    && (forall c :: casing.isUppercase(c) ==> casing.lowerChar(c) != "" && Plain(casing.lowerChar(c)))
  }

  lemma {:induction false} CharsJoin(a: string, b: string)
    ensures Chars(a + b) == Chars(a) + Chars(b)
  {
    if a == "" {
      assert a + b == b;
    } else {
      assert (a + b)[1..] == a[1..] + b;
      CharsJoin(a[1..], b);
    }
  }

  /** A text without pattern signs, be its first character escaped or not. */
  lemma PlainPart(part: string, tail: string, escaped: bool)
    requires part != "" && (Plain(part) || (escaped && |part| == 1))
    ensures CompileFrom(part + tail, escaped, Exact) == Chars(part) + CompileFrom(tail, false, Exact)
  {
    var text := part + tail;
    assert text[0] == part[0] && text[1..] == part[1..] + tail;
    PlainCompiles(part[1..], tail);
    Associates([Char(part[0])], Chars(part[1..]), CompileFrom(tail, false, Exact));
    assert CompileFrom(text, escaped, Exact) == [Char(part[0])] + CompileFrom(text[1..], false, Exact);
  }

  lemma OneChar(c: char)
    ensures Chars([c]) == [Char(c)]
  {
    assert [c][1..] == "";
    assert Chars("") == [];
  }

  /** Compiling for lower case is compiling the text in lower case. */
  lemma {:induction false} LowerCompiles(s: string, escaped: bool, casing: Casing)
    requires casing.Lower? && SignsHaveNoCase(casing)
    ensures CompileFrom(s, escaped, casing) == CompileFrom(Lowered(s, casing), escaped, Exact)
    decreases |s|
  {
    if s != "" {
      var c, rest := s[0], Lowered(s[1..], casing);
      var part := if casing.isUppercase(c) then casing.lowerChar(c) else [c];
      var text := part + rest;
      assert Lowered(s, casing) == text;
      if PatternSign(c) && !escaped {
        assert text[1..] == rest;
        if c == '*' {
          StarsStay(s, casing);
          LowerCompiles(s[StarRun(s)..], false, casing);
        } else {
          LowerCompiles(s[1..], c == '\\', casing);
        }
      } else {
        LowerCompiles(s[1..], false, casing);
        PlainPart(part, rest, escaped);
        OneChar(c);
      }
    }
  }

  lemma {:induction false} StarsStay(s: string, casing: Casing)
    requires casing.Lower? && SignsHaveNoCase(casing)
    ensures StarRun(Lowered(s, casing)) == StarRun(s)
    ensures Lowered(s, casing)[StarRun(s)..] == Lowered(s[StarRun(s)..], casing)
  {
    if s != "" {
      var text := Lowered(s, casing);
      if s[0] == '*' {
        assert text[1..] == Lowered(s[1..], casing);
        StarsStay(s[1..], casing);
        assert s[1..][StarRun(s[1..])..] == s[StarRun(s)..];
        assert text[1..][StarRun(s[1..])..] == text[StarRun(s)..];
      } else {
        assert text[0] != '*';
        assert s[0..] == s && text[0..] == text;
      }
    }
  }

  lemma {:induction false} LowerPlain(s: string, tail: string, casing: Casing)
    requires casing.Lower? && Plain(s)
    ensures CompileFrom(s + tail, false, casing) == Chars(Lowered(s, casing)) + CompileFrom(tail, false, casing)
  {
    if s == "" {
      assert s + tail == tail;
    } else {
      var part := if casing.isUppercase(s[0]) then casing.lowerChar(s[0]) else [s[0]];
      assert (s + tail)[1..] == s[1..] + tail;
      LowerPlain(s[1..], tail, casing);
      CharsJoin(part, Lowered(s[1..], casing));
      OneChar(s[0]);
      Associates(Chars(part), Chars(Lowered(s[1..], casing)), CompileFrom(tail, false, casing));
    }
  }

  /** A plain text compiled for lower case matches exactly the values whose lower case is its own. */
  lemma LowerMatches(s: string, casing: Casing, value: string)
    requires casing.Lower? && Plain(s)
    ensures Matches(Compiled(s, casing).pattern, casing.lowerString(value)) <==> casing.lowerString(value) == Lowered(s, casing)
  {
    LowerPlain(s, "", casing);
    assert s + "" == s && Chars(Lowered(s, casing)) + [] == Chars(Lowered(s, casing));
    CharsMatch(Lowered(s, casing), casing.lowerString(value));
  }

  /** With a star behind it, those whose lower case starts with it. */
  lemma LowerPrefixMatches(s: string, casing: Casing, value: string)
    requires casing.Lower? && Plain(s)
    ensures Matches(Compiled(s + "*", casing).pattern, casing.lowerString(value))
       <==> Lowered(s, casing) <= casing.lowerString(value)
  {
    var v, low := casing.lowerString(value), Lowered(s, casing);
    LowerPlain(s, "*", casing);
    assert "*"[1..] == "" && StarRun("*") == 1;
    assert CompileFrom("*", false, casing) == [WildcardMany(1)] + CompileFrom("", false, casing) == [WildcardMany(1)];
    PrefixMatches(low, [WildcardMany(1)], v);
    if low <= v {
      StarMatchesAll(v[|low|..]);
    }
  }
}
