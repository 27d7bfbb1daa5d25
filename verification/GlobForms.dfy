/**
 The forms that avoid globbing: exact entries of `GlobSet` and `GlobMap`, and the prefix and suffix tests
 of `MatchType`.  For each the patterns on which it agrees with plain globbing are determined exactly.
 */
module GlobForms {
  import opened Common
  import opened Glob

  // ----- Exact entries ------------------------------------------------------------------------

  /** A star or question mark that the character before it does not escape. */
  predicate IsGlob(s: string) {
    exists i :: 0 <= i < |s| && (s[i] == '*' || s[i] == '?') && (i == 0 || s[i - 1] != '\\')
  }

  /** `replace('\\', "")`. */
  function Strip(s: string): string {
    if s == "" then "" else (if s[0] == '\\' then "" else [s[0]]) + Strip(s[1..])
  }

  /** Two backslashes in a row. */
  predicate DoubledBackslash(s: string) {
    exists i :: 0 <= i < |s| - 1 && s[i] == '\\' && s[i + 1] == '\\'
  }

  /** A key is globbed by a pattern text. */
  predicate Globs(pattern: string, key: string) { Matches(CompileFrom(pattern, false, Exact), key) }

  /** A key is found under a pattern text by the containers. */
  predicate Finds(pattern: string, key: string) {
    if IsGlob(pattern) then Globs(pattern, key) else key == Strip(pattern)
  }

  lemma {:induction false} StripNothing(s: string)
    requires '\\' !in s
    ensures Strip(s) == s
  {
    if s != "" {
      StripNothing(s[1..]);
    }
  }

  /** The pattern to glob with, or the exact key. */
  method TryCompile(pattern: string, casing: Casing) returns (r: Result<GlobPattern, string>)
    ensures r == if IsGlob(pattern) then Ok(Compiled(pattern, casing)) else Err(Strip(pattern))
  {
    var lastCh, hasEscape, isGlob := '\0', false, false;
    for i := 0 to |pattern|
      invariant i > 0 ==> lastCh == pattern[i - 1]
      invariant i == 0 ==> lastCh != '\\'
      invariant hasEscape <==> '\\' in pattern[..i]
      invariant isGlob <==> exists j :: 0 <= j < i && (pattern[j] == '*' || pattern[j] == '?')
                                        && (j == 0 || pattern[j - 1] != '\\')
    {
      var ch := pattern[i];
      if ch == '\\' {
        hasEscape := true;
      } else if (ch == '*' || ch == '?') && lastCh != '\\' {
        isGlob := true;
      }
      lastCh := ch;
    }
    assert pattern[..|pattern|] == pattern;
    if isGlob {
      var glob := Compile(pattern, casing);
      r := Ok(glob);
    } else if hasEscape {
      r := Err(Strip(pattern));
    } else {
      StripNothing(pattern);
      r := Err(pattern);
    }
  }

  lemma {:induction false} CharsMatch(s: string, v: string)
    ensures Matches(Chars(s), v) <==> v == s
  {
    if s == "" {
    } else {
      assert Chars(s)[1..] == Chars(s[1..]);
      if v != "" {
        CharsMatch(s[1..], v[1..]);
        assert v == [v[0]] + v[1..] && s == [s[0]] + s[1..];
      }
    }
  }

  /** Without doubled backslashes, every escaped text is its own stripped form. */
  lemma {:induction false} EscapedTextIsPlain(s: string, escaped: bool)
    requires !DoubledBackslash(s) && (escaped && s != "" ==> s[0] != '\\')
    requires s != "" && (s[0] == '*' || s[0] == '?') ==> escaped
    requires forall i :: 0 < i < |s| && (s[i] == '*' || s[i] == '?') ==> s[i - 1] == '\\'
    ensures CompileFrom(s, escaped, Exact) == Chars(Strip(s))
    decreases |s|
  {
    if s == "" {
    } else {
      var rest := s[1..];
      assert forall i :: 0 <= i < |rest| ==> rest[i] == s[i + 1];
      if s[0] == '\\' {
        assert |s| > 1 ==> s[0 + 1] != '\\';
        EscapedTextIsPlain(rest, true);
        assert "" + Strip(rest) == Strip(rest);
      } else {
        assert |s| > 1 ==> s[1] != '*' && s[1] != '?';
        EscapedTextIsPlain(rest, false);
        var stripped := [s[0]] + Strip(rest);
        assert Strip(s) == stripped && stripped[1..] == Strip(rest);
        assert Chars(stripped) == [Char(s[0])] + Chars(Strip(rest));
        assert CompileFrom(s, escaped, Exact) == [Char(s[0])] + CompileFrom(rest, false, Exact);
      }
    }
  }

  /** A doubled backslash compiles to a literal one. */
  lemma {:induction false} DoubledIsLiteral(s: string, escaped: bool)
    requires DoubledBackslash(s) || (escaped && s != "" && s[0] == '\\')
    ensures Char('\\') in CompileFrom(s, escaped, Exact)
    decreases |s|
  {
    if escaped && s[0] == '\\' {
      assert CompileFrom(s, escaped, Exact)[0] == Char('\\');
    } else {
      var i :| 0 <= i < |s| - 1 && s[i] == '\\' && s[i + 1] == '\\';
      if s[0] == '*' && !escaped {
        var n := StarRun(s);
        assert s[n..][i - n] == '\\' && s[n..][i + 1 - n] == '\\';
        DoubledIsLiteral(s[n..], false);
      } else {
        var rest := s[1..];
        assert i > 0 ==> rest[i - 1] == '\\' && rest[i - 1 + 1] == '\\';
        DoubledIsLiteral(rest, s[0] == '\\');
      }
    }
  }

  /** A literal of the pattern occurs in every value it matches. */
  lemma {:induction false} LiteralOccurs(p: seq<PatternChar>, v: string, c: char)
    requires Matches(p, v) && Char(c) in p
    ensures c in v
    decreases |p|
  {
    if p[0] != Char(c) {
      assert p == [p[0]] + p[1..];
      if p[0].WildcardMany? {
        var k :| 0 <= k <= |v| && Matches(p[1..], v[k..]);
        LiteralOccurs(p[1..], v[k..], c);
      } else {
        LiteralOccurs(p[1..], v[1..], c);
      }
    }
  }

  lemma {:induction false} StripHasNoBackslash(s: string)
    ensures '\\' !in Strip(s)
  {
    if s == "" {
    } else {
      StripHasNoBackslash(s[1..]);
    }
  }

  /**
   An entry lookup agrees with globbing on every key exactly for patterns that are globbed anyway or
   hold no doubled backslash.
   */
  lemma EntriesAgreeExactly(pattern: string)
    ensures (forall key :: Finds(pattern, key) <==> Globs(pattern, key)) <==> IsGlob(pattern) || !DoubledBackslash(pattern)
  {
    if !IsGlob(pattern) {
      var entry := Strip(pattern);
      if DoubledBackslash(pattern) {
        DoubledIsLiteral(pattern, false);
        StripHasNoBackslash(pattern);
        if Globs(pattern, entry) {
          LiteralOccurs(CompileFrom(pattern, false, Exact), entry, '\\');
        }
        assert Finds(pattern, entry) && !Globs(pattern, entry);
      } else {
        EscapedTextIsPlain(pattern, false);
        forall key
          ensures Finds(pattern, key) <==> Globs(pattern, key)
        {
          CharsMatch(entry, key);
        }
      }
    }
  }

  /** What was put into a container: a pattern text or a plain entry. */
  datatype Inserted = Pattern(text: string) | Entry(text: string)

  predicate Hit(inserted: Inserted, key: string) {
    match inserted
    case Pattern(text) => Finds(text, key)
    case Entry(text) => key == text
  }

  predicate AnyHit(inserted: seq<Inserted>, key: string) {
    exists i :: 0 <= i < |inserted| && Hit(inserted[i], key)
  }

  predicate AnyMatch(patterns: seq<GlobPattern>, key: string) {
    exists i :: 0 <= i < |patterns| && Matches(patterns[i].pattern, key)
  }

  lemma AnyHitMore(inserted: seq<Inserted>, more: Inserted, key: string)
    ensures AnyHit(inserted + [more], key) <==> AnyHit(inserted, key) || Hit(more, key)
  {
    var all := inserted + [more];
    assert all[|inserted|] == more;
    if i :| 0 <= i < |inserted| && Hit(inserted[i], key) {
      assert all[i] == inserted[i];
    }
  }

  lemma AnyMatchMore(patterns: seq<GlobPattern>, more: GlobPattern, key: string)
    ensures AnyMatch(patterns + [more], key) <==> AnyMatch(patterns, key) || Matches(more.pattern, key)
  {
    var all := patterns + [more];
    assert all[|patterns|] == more;
    if i :| 0 <= i < |patterns| && Matches(patterns[i].pattern, key) {
      assert all[i] == patterns[i];
    }
  }

  predicate HasDoubledBackslash(inserted: Inserted) {
    inserted.Pattern? && !IsGlob(inserted.text) && DoubledBackslash(inserted.text)
  }

  /** Some entry is the key, or some pattern globs it. */
  predicate AnyGlobs(inserted: seq<Inserted>, key: string) {
    exists i :: 0 <= i < |inserted|
                && match inserted[i] case Pattern(text) => Globs(text, key) case Entry(text) => key == text
  }

  /** Without doubled backslashes finding is globbing. */
  lemma AnyHitGlobs(inserted: seq<Inserted>, key: string)
    requires forall i :: 0 <= i < |inserted| ==> !HasDoubledBackslash(inserted[i])
    ensures AnyHit(inserted, key) <==> AnyGlobs(inserted, key)
  {
    hide Globs, Finds, IsGlob, DoubledBackslash;
    forall i | 0 <= i < |inserted| && inserted[i].Pattern?
      ensures Finds(inserted[i].text, key) <==> Globs(inserted[i].text, key)
    {
      EntriesAgreeExactly(inserted[i].text);
    }
    if AnyHit(inserted, key) {
      var i :| 0 <= i < |inserted| && Hit(inserted[i], key);
      assert inserted[i].Pattern? ==> Globs(inserted[i].text, key);
    }
    if AnyGlobs(inserted, key) {
      var i :| 0 <= i < |inserted|
               && match inserted[i] case Pattern(text) => Globs(text, key) case Entry(text) => key == text;
      assert Hit(inserted[i], key);
    }
  }

  class GlobSet {
    var entries: set<string>
    var patterns: seq<GlobPattern>
    ghost var inserted: seq<Inserted>

    /** Entries and patterns together find what the insertions find. */
    ghost predicate Valid()
      reads this
    {
      && (forall i :: 0 <= i < |patterns| ==> patterns[i].casing.Exact?)
      && forall key :: AnyHit(inserted, key) <==> key in entries || AnyMatch(patterns, key)
    }

    constructor ()
      ensures Valid() && inserted == []
    {
      entries, patterns, inserted := {}, [], [];
    }

    method InsertPattern(pattern: string)
      requires Valid()
      modifies this
      ensures Valid() && inserted == old(inserted) + [Pattern(pattern)]
    {
      hide AnyHit, AnyMatch;
      var compiled := TryCompile(pattern, Exact);
      forall key: string
        ensures AnyHit(inserted + [Pattern(pattern)], key) <==> AnyHit(inserted, key) || Finds(pattern, key)
        ensures compiled.Ok? ==>
                  (AnyMatch(patterns + [compiled.value], key) <==> AnyMatch(patterns, key) || Finds(pattern, key))
      {
        AnyHitMore(inserted, Pattern(pattern), key);
        if compiled.Ok? {
          AnyMatchMore(patterns, compiled.value, key);
        }
      }
      match compiled {
        case Ok(glob) => patterns := patterns + [glob];
        case Err(entry) => entries := entries + {entry};
      }
      inserted := inserted + [Pattern(pattern)];
    }

    method InsertEntry(entry: string)
      requires Valid()
      modifies this
      ensures Valid() && inserted == old(inserted) + [Entry(entry)]
    {
      hide AnyHit, AnyMatch;
      forall key: string
        ensures AnyHit(inserted + [Entry(entry)], key) <==> AnyHit(inserted, key) || key == entry
      {
        AnyHitMore(inserted, Entry(entry), key);
      }
      entries := entries + {entry};
      inserted := inserted + [Entry(entry)];
    }

    method Contains(key: string) returns (found: bool)
      requires Valid()
      ensures found <==> AnyHit(inserted, key)
      ensures (forall i :: 0 <= i < |inserted| ==> !HasDoubledBackslash(inserted[i])) ==>
                (found <==> AnyGlobs(inserted, key))
    {
      if forall i :: 0 <= i < |inserted| ==> !HasDoubledBackslash(inserted[i]) {
        AnyHitGlobs(inserted, key);
      }
      hide AnyHit, AnyGlobs, HasDoubledBackslash;
      found := key in entries;
      if !found {
        for i := 0 to |patterns|
          invariant forall j :: 0 <= j < i ==> !Matches(patterns[j].pattern, key)
        {
          var matched := GlobMatches(patterns[i], key);
          if matched {
            return true;
          }
        }
      }
    }
  }

  // ----- Prefix and suffix forms --------------------------------------------------------------

  datatype MatchType =
    | Equal(text: string)
    | StartsWith(text: string)
    | EndsWith(text: string)
    | Globbing(glob: GlobPattern)
    | All

  function ParseMatchType(value: string): MatchType {
    if value == "*" then All
    else if value != "" && value[|value| - 1] == '*' then StartsWith(value[..|value| - 1])
    else if value != "" && value[0] == '*' then EndsWith(value[1..])
    else if '*' in value then Globbing(Compiled(value, Exact))
    else Equal(value)
  }

  predicate TypeMatches(m: MatchType, value: string) {
    match m
    case Equal(text) => value == text
    case StartsWith(text) => text <= value
    case EndsWith(text) => |text| <= |value| && value[|value| - |text|..] == text
    case Globbing(glob) => Matches(glob.pattern, value)
    case All => true
  }

  /** No character a glob pattern treats specially. */
  predicate Plain(s: string) { '*' !in s && '?' !in s && '\\' !in s }

  /** The part of a pattern that its fast form compares literally is plain, or there is no such part. */
  predicate FastFormApplies(value: string) {
    match ParseMatchType(value)
    case Equal(text) => Plain(text)
    case StartsWith(text) => Plain(text)
    case EndsWith(text) => Plain(text)
    case _ => true
  }

  lemma {:induction false} PlainCompiles(s: string, tail: string)
    requires Plain(s)
    ensures CompileFrom(s + tail, false, Exact) == Chars(s) + CompileFrom(tail, false, Exact)
  {
    if s == "" {
      assert s + tail == tail;
    } else {
      assert (s + tail)[1..] == s[1..] + tail;
      PlainCompiles(s[1..], tail);
      assert [Char(s[0])] + (Chars(s[1..]) + CompileFrom(tail, false, Exact)) == Chars(s) + CompileFrom(tail, false, Exact);
    }
  }

  lemma {:induction false} PrefixMatches(s: string, p: seq<PatternChar>, v: string)
    ensures Matches(Chars(s) + p, v) <==> s <= v && Matches(p, v[|s|..])
  {
    if s == "" {
      assert Chars(s) + p == p && v[0..] == v;
    } else {
      assert (Chars(s) + p)[1..] == Chars(s[1..]) + p;
      if v != "" {
        PrefixMatches(s[1..], p, v[1..]);
        assert s <= v <==> s[0] == v[0] && s[1..] <= v[1..] by {
          assert v == [v[0]] + v[1..] && s == [s[0]] + s[1..];
        }
        assert s <= v ==> v[1..][|s| - 1..] == v[|s|..];
      }
    }
  }

  lemma StarMatchesAll(v: string)
    ensures Matches([WildcardMany(1)], v)
  {
    assert Matches([WildcardMany(1)][1..], v[|v|..]);
  }

  lemma SuffixMatches(s: string, v: string)
    ensures Matches([WildcardMany(1)] + Chars(s), v) <==> |s| <= |v| && v[|v| - |s|..] == s
  {
    hide Matches;
    var p := [WildcardMany(1)] + Chars(s);
    assert p[1..] == Chars(s);
    forall k | 0 <= k <= |v|
      ensures Matches(p[1..], v[k..]) <==> v[k..] == s
    {
      CharsMatch(s, v[k..]);
    }
    StarTakes(p, v);
    if |s| <= |v| && v[|v| - |s|..] == s {
      assert Matches(p[1..], v[|v| - |s|..]);
    }
  }

  lemma StarTakes(p: seq<PatternChar>, v: string)
    requires p != [] && p[0].WildcardMany?
    ensures Matches(p, v) <==> exists k :: 0 <= k <= |v| && Matches(p[1..], v[k..])
  {}

  lemma OneStar()
    ensures CompileFrom("*", false, Exact) == [WildcardMany(1)]
  {
    assert "*"[1..] == "";
    assert StarRun("*") == 1;
    assert CompileFrom("*"[1..], false, Exact) == [];
  }

  /** Where the fast form applies it is globbing. */
  lemma FastFormGlobs(value: string, v: string)
    requires FastFormApplies(value)
    ensures TypeMatches(ParseMatchType(value), v) <==> Globs(value, v)
  {
    match ParseMatchType(value)
    case All =>
      OneStar();
      StarMatchesAll(v);
    case StartsWith(text) =>
      assert value == text + "*";
      PlainCompiles(text, "*");
      OneStar();
      PrefixMatches(text, [WildcardMany(1)], v);
      if text <= v {
        StarMatchesAll(v[|text|..]);
      }
    case EndsWith(text) =>
      assert StarRun(text) == 0;
      assert StarRun(value) == 1;
      PlainCompiles(text, "");
      assert text + "" == text && Chars(text) + [] == Chars(text);
      SuffixMatches(text, v);
    case Globbing(_) =>
    case Equal(text) =>
      PlainCompiles(text, "");
      assert text + "" == text && Chars(text) + [] == Chars(text);
      CharsMatch(text, v);
  }

  /** The shortest value a pattern matches, with 'x' where any character will do. */
  function Shortest(p: seq<PatternChar>): string {
    if p == [] then ""
    else
      match p[0]
      case Char(c) => [c] + Shortest(p[1..])
      case WildcardSingle => "x" + Shortest(p[1..])
      case WildcardMany(_) => Shortest(p[1..])
  }

  lemma {:induction false} ShortestMatches(p: seq<PatternChar>)
    ensures Matches(p, Shortest(p))
  {
    if p == [] {
    } else {
      ShortestMatches(p[1..]);
      var w := Shortest(p[1..]);
      if p[0].WildcardMany? {
        assert w[0..] == w;
        assert Matches(p[1..], Shortest(p)[0..]);
      } else {
        assert Shortest(p)[1..] == w;
      }
    }
  }

  function ShortestOf(s: string, escaped: bool): string { Shortest(CompileFrom(s, escaped, Exact)) }

  /** One step of compiling, seen through the shortest value. */
  lemma ShortestStep(s: string, escaped: bool)
    requires s != ""
    ensures ShortestOf(s, escaped) ==
            if s[0] == '*' && !escaped then ShortestOf(s[StarRun(s)..], false)
            else if s[0] == '?' && !escaped then "x" + ShortestOf(s[1..], false)
            else if s[0] == '\\' && !escaped then ShortestOf(s[1..], true)
            else [s[0]] + ShortestOf(s[1..], false)
  {}

  lemma {:induction false} ShortestIsShort(s: string, escaped: bool)
    ensures |ShortestOf(s, escaped)| <= |s|
    decreases |s|
  {
    if s == "" {
    } else {
      ShortestStep(s, escaped);
      ShortestIsShort(s[1..], false);
      ShortestIsShort(s[1..], true);
      if s[0] == '*' && !escaped {
        ShortestIsShort(s[StarRun(s)..], false);
      }
    }
  }

  /** Only a plain text is the shortest value of its own pattern. */
  lemma {:induction false} ShortestIsSelf(s: string)
    requires ShortestOf(s, false) == s
    ensures Plain(s)
    decreases |s|
  {
    if s == "" {
    } else {
      var rest := s[1..];
      assert s == [s[0]] + rest;
      ShortestStep(s, false);
      ShortestIsShort(rest, true);
      if s[0] == '*' {
        ShortestIsShort(s[StarRun(s)..], false);
        assert false;
      }
      assert ShortestOf(s, false)[1..] == ShortestOf(rest, false);
      ShortestIsSelf(rest);
    }
  }

  /** A trailing star costs a character, whether it is a wildcard or escaped. */
  lemma {:induction false} TrailingStarIsLost(s: string, escaped: bool)
    requires escaped ==> s != ""
    ensures |ShortestOf(s + "*", escaped)| <= |s|
    decreases |s|
  {
    var t := s + "*";
    ShortestStep(t, escaped);
    if s == "" {
      assert t[StarRun(t)..] == "";
    } else {
      assert t[1..] == s[1..] + "*";
      if s[0] == '\\' && !escaped {
        if s[1..] == "" {
          ShortestIsShort("*", true);
        } else {
          TrailingStarIsLost(s[1..], true);
        }
      } else if s[0] == '*' && !escaped {
        ShortestIsShort(t[StarRun(t)..], false);
      } else {
        TrailingStarIsLost(s[1..], false);
      }
    }
  }

  lemma {:induction false} StarredIsSelf(s: string)
    requires s <= ShortestOf(s + "*", false)
    ensures Plain(s)
    decreases |s|
  {
    var t := s + "*";
    TrailingStarIsLost(s, false);
    if s == "" {
    } else {
      assert t[1..] == s[1..] + "*" && s == [s[0]] + s[1..];
      ShortestStep(t, false);
      if s[0] == '*' {
        StarLoses(s, t);
      } else if s[0] == '\\' {
        if s[1..] == "" {
          ShortestStep("*", true);
        } else {
          TrailingStarIsLost(s[1..], true);
        }
      } else {
        assert ShortestOf(t, false)[1..] == ShortestOf(s[1..] + "*", false);
        StarredIsSelf(s[1..]);
      }
    }
  }

  /** A leading run of stars leaves a shortest value too short to start with the text before the last star. */
  lemma StarLoses(s: string, t: string)
    requires s != "" && s[0] == '*' && t == s + "*"
    ensures |ShortestOf(t, false)| < |s|
  {
    var n := StarRun(t);
    ShortestStep(t, false);
    if n < |t| {
      assert t[n] != '*';
      assert n < |s|;
      assert t[n..] == s[n..] + "*";
      TrailingStarIsLost(s[n..], false);
    }
  }

  lemma LeadingStar(s: string)
    ensures var w := ShortestOf("*" + s, false);
            |w| <= |s| && (w == s ==> Plain(s))
  {
    var t := "*" + s;
    ShortestStep(t, false);
    var n := StarRun(t);
    assert t[n..] == s[n - 1..];
    ShortestIsShort(s[n - 1..], false);
    if n == 1 {
      assert s[0..] == s;
      if ShortestOf(s, false) == s {
        ShortestIsSelf(s);
      }
    }
  }

  lemma WholeSuffix(w: string, text: string)
    requires |w| <= |text| && TypeMatches(EndsWith(text), w)
    ensures w == text
  {
    assert w[0..] == w;
  }

  /** The fast form of a pattern agrees with globbing on every value exactly where its literal part is plain. */
  lemma FastFormAgreesExactly(value: string)
    ensures (forall v :: TypeMatches(ParseMatchType(value), v) <==> Globs(value, v)) <==> FastFormApplies(value)
  {
    if FastFormApplies(value) {
      forall v
        ensures TypeMatches(ParseMatchType(value), v) <==> Globs(value, v)
      {
        FastFormGlobs(value, v);
      }
    } else {
      var w := ShortestOf(value, false);
      ShortestMatches(CompileFrom(value, false, Exact));
      assert Globs(value, w);
      match ParseMatchType(value)
      case StartsWith(text) =>
        assert value == text + "*";
        if text <= w {
          StarredIsSelf(text);
        }
      case EndsWith(text) =>
        assert value == "*" + text;
        LeadingStar(text);
        if TypeMatches(EndsWith(text), w) {
          WholeSuffix(w, text);
        }
      case Equal(text) =>
        if w == text {
          ShortestIsSelf(text);
        }
      case _ =>
    }
  }
}
