/**
 Glob patterns (crates/utils/src/glob.rs): the compiler, the matcher that remembers only its last star,
 and the containers that look exact keys up without globbing.
 */
module Glob {
  import opened Common

  datatype PatternChar =
    | WildcardMany(num: nat)
    | WildcardSingle
    | Char(c: char)

  /** Case folding of a pattern; the Unicode mappings stay abstract. */
  datatype Casing =
    | Exact
    | Lower(isUppercase: char -> bool, lowerChar: char -> string, lowerString: string -> string)

  datatype GlobPattern = GlobPattern(pattern: seq<PatternChar>, casing: Casing)

  // ----- Compiling ----------------------------------------------------------------------------

  function Chars(s: string): seq<PatternChar> {
    if s == "" then [] else [Char(s[0])] + Chars(s[1..])
  }

  function CompileChar(c: char, casing: Casing): seq<PatternChar> {
    if casing.Lower? && casing.isUppercase(c) then Chars(casing.lowerChar(c)) else [Char(c)]
  }

  /** Length of the run of stars at the front. */
  function StarRun(s: string): (n: nat)
    ensures n <= |s| && (s != "" && s[0] == '*' ==> n > 0)
    ensures forall i :: 0 <= i < n ==> s[i] == '*'
    ensures n < |s| ==> s[n] != '*'
  {
    if s != "" && s[0] == '*' then 1 + StarRun(s[1..]) else 0
  }

  /** The pattern compiled from `s` on, after a backslash when `escaped`. */
  function CompileFrom(s: string, escaped: bool, casing: Casing): seq<PatternChar>
    decreases |s|
  {
    if s == "" then []
    else if s[0] == '*' && !escaped then [WildcardMany(StarRun(s))] + CompileFrom(s[StarRun(s)..], false, casing)
    else if s[0] == '?' && !escaped then [WildcardSingle] + CompileFrom(s[1..], false, casing)
    else if s[0] == '\\' && !escaped then CompileFrom(s[1..], true, casing)
    else CompileChar(s[0], casing) + CompileFrom(s[1..], false, casing)
  }

  function Compiled(pattern: string, casing: Casing): GlobPattern {
    GlobPattern(CompileFrom(pattern, false, casing), casing)
  }

  lemma StarRunFrom(s: string, pos: nat, run: nat)
    requires pos + run <= |s| && run > 0
    requires forall i :: pos <= i < pos + run ==> s[i] == '*'
    requires pos + run < |s| ==> s[pos + run] != '*'
    ensures StarRun(s[pos..]) == run
  {
    assert forall i :: 0 <= i < |s| - pos ==> s[pos..][i] == s[pos + i];
  }

  method Compile(pattern: string, casing: Casing) returns (glob: GlobPattern)
    ensures glob == Compiled(pattern, casing)
  {
    var chars: seq<PatternChar> := [];
    var isEscaped := false;
    var pos := 0;
    while pos < |pattern|
      invariant pos <= |pattern|
      invariant chars + CompileFrom(pattern[pos..], isEscaped, casing) == CompileFrom(pattern, false, casing)
    {
      var c := pattern[pos];
      ghost var before, from, wasEscaped := chars, pos, isEscaped;
      pos := pos + 1;
      if c == '*' && !isEscaped {
        var num := 1;
        while pos < |pattern| && pattern[pos] == '*'
          invariant from < pos <= |pattern| && num == pos - from
          invariant forall i :: from <= i < pos ==> pattern[i] == '*'
        {
          num := num + 1;
          pos := pos + 1;
        }
        StarRunFrom(pattern, from, num);
        assert pattern[from..][num..] == pattern[pos..];
        chars := chars + [WildcardMany(num)];
      } else if c == '?' && !isEscaped {
        chars := chars + [WildcardSingle];
      } else if c == '\\' && !isEscaped {
        isEscaped := true;
      } else {
        isEscaped := false;
        chars := chars + CompileChar(c, casing);
      }
      assert from + 1 == pos ==> pattern[from..][1..] == pattern[pos..];
      assert chars == before + chars[|before|..];
      Associates(before, chars[|before|..], CompileFrom(pattern[pos..], isEscaped, casing));
      assert [] + CompileFrom(pattern[pos..], isEscaped, casing) == CompileFrom(pattern[pos..], isEscaped, casing);
    }
    assert pattern[pos..] == "";
    glob := GlobPattern(chars, casing);
  }

  // ----- Matching -----------------------------------------------------------------------------

  /** The meaning of a pattern: each star stands for some stretch of the value. */
  predicate Matches(p: seq<PatternChar>, v: string)
    decreases |p|
  {
    if p == [] then v == ""
    else
      match p[0]
      case Char(c) => v != "" && v[0] == c && Matches(p[1..], v[1..])
      case WildcardSingle => v != "" && Matches(p[1..], v[1..])
      case WildcardMany(_) => exists k :: 0 <= k <= |v| && Matches(p[1..], v[k..])
  }

  predicate StarFree(p: seq<PatternChar>) {
    forall i :: 0 <= i < |p| ==> !p[i].WildcardMany?
  }

  /** A star takes nothing, or one more character. */
  lemma StarUnfolds(p: seq<PatternChar>, v: string)
    requires p != [] && p[0].WildcardMany?
    ensures Matches(p, v) <==> Matches(p[1..], v) || (v != "" && Matches(p, v[1..]))
  {
    assert v[0..] == v;
    if Matches(p, v) && !Matches(p[1..], v) {
      var k :| 0 <= k <= |v| && Matches(p[1..], v[k..]);
      assert v[1..][k - 1..] == v[k..];
    }
    if v != "" && Matches(p, v[1..]) {
      var k :| 0 <= k <= |v[1..]| && Matches(p[1..], v[1..][k..]);
      assert v[1..][k..] == v[k + 1..];
    }
  }

  lemma StarAbsorbs(p: seq<PatternChar>, v: string, k: nat)
    requires p != [] && p[0].WildcardMany? && k <= |v| && Matches(p, v[k..])
    ensures Matches(p, v)
  {
    var j :| 0 <= j <= |v[k..]| && Matches(p[1..], v[k..][j..]);
    assert v[k..][j..] == v[k + j..];
  }

  lemma {:induction false} StarFreePrefix(p: seq<PatternChar>, v: string, n: nat)
    requires n <= |p| && StarFree(p[..n]) && Matches(p, v)
    ensures n <= |v| && Matches(p[n..], v[n..])
  {
    if n == 0 {
      assert p[0..] == p && v[0..] == v;
    } else {
      assert !p[..n][0].WildcardMany?;
      assert p[1..][..n - 1] == p[..n][1..];
      StarFreePrefix(p[1..], v[1..], n - 1);
      assert p[1..][n - 1..] == p[n..] && v[1..][n - 1..] == v[n..];
    }
  }

  /** Once a later star is reached, letting the earlier one take more cannot help. */
  lemma LaterStarSuffices(p: seq<PatternChar>, v: string, star: nat, px: nat, nx: nat, retry: nat)
    requires star < px < |p| && nx <= |v| && retry <= |v|
    requires p[star].WildcardMany? && p[px].WildcardMany? && StarFree(p[star + 1..px])
    requires nx + 1 - retry == px - (star + 1)
    requires Matches(p[star..], v[retry..])
    ensures Matches(p[px..], v[nx..])
  {
    assert p[star..][1..] == p[star + 1..];
    var k :| 0 <= k <= |v[retry..]| && Matches(p[star + 1..], v[retry..][k..]);
    var n := px - (star + 1);
    assert v[retry..][k..] == v[retry + k..];
    assert p[star + 1..][..n] == p[star + 1..px];
    StarFreePrefix(p[star + 1..], v[retry + k..], n);
    assert p[star + 1..][n..] == p[px..] && v[retry + k..][n..] == v[nx..][k + 1..];
    StarAbsorbs(p[px..], v[nx..], k + 1);
  }

  /** The position the matcher falls back to: the last star met, and what that star takes next. */
  predicate RetryPoint(p: seq<PatternChar>, v: string, px: nat, nx: nat, nextPx: nat, nextNx: nat) {
    && nextNx <= |v| + 1 && nextPx < |p| && p[nextPx].WildcardMany?
    && ((px == nextPx && nx == nextNx)
        || (nextPx < px <= |p| && nx + 1 - nextNx == px - (nextPx + 1) && StarFree(p[nextPx + 1..px])))
  }

  /** What is still to be tried decides the match. */
  predicate Decides(p: seq<PatternChar>, v: string, px: nat, nx: nat, nextPx: nat, nextNx: nat)
    requires px <= |p| && nx <= |v| && nextPx <= |p|
  {
    Matches(p, v) <==> Matches(p[px..], v[nx..]) || (0 < nextNx <= |v| && Matches(p[nextPx..], v[nextNx..]))
  }

  lemma StarStep(p: seq<PatternChar>, v: string, px: nat, nx: nat, nextPx: nat, nextNx: nat)
    requires px < |p| && nx <= |v| && nextPx <= |p| && p[px].WildcardMany?
    requires Decides(p, v, px, nx, nextPx, nextNx)
    requires 0 < nextNx ==> RetryPoint(p, v, px, nx, nextPx, nextNx)
    ensures Decides(p, v, px + 1, nx, px, nx + 1) && RetryPoint(p, v, px + 1, nx, px, nx + 1)
  {
    if 0 < nextNx <= |v| && Matches(p[nextPx..], v[nextNx..]) && px != nextPx {
      LaterStarSuffices(p, v, nextPx, px, nx, nextNx);
    }
    StarUnfolds(p[px..], v[nx..]);
    assert p[px..][1..] == p[px + 1..];
    assert nx < |v| ==> v[nx..][1..] == v[nx + 1..];
  }

  lemma CharStep(p: seq<PatternChar>, v: string, px: nat, nx: nat, nextPx: nat, nextNx: nat)
    requires px < |p| && nx < |v| && nextPx <= |p| && !p[px].WildcardMany?
    requires p[px].Char? ==> p[px].c == v[nx]
    requires Decides(p, v, px, nx, nextPx, nextNx)
    requires 0 < nextNx ==> RetryPoint(p, v, px, nx, nextPx, nextNx)
    ensures Decides(p, v, px + 1, nx + 1, nextPx, nextNx)
    ensures 0 < nextNx ==> RetryPoint(p, v, px + 1, nx + 1, nextPx, nextNx)
  {
    assert p[px..][1..] == p[px + 1..] && v[nx..][1..] == v[nx + 1..];
    if 0 < nextNx {
      assert p[nextPx + 1..px + 1] == p[nextPx + 1..px] + [p[px]];
    }
  }

  method GlobMatches(glob: GlobPattern, text: string) returns (matched: bool)
    ensures matched <==> Matches(glob.pattern, if glob.casing.Lower? then glob.casing.lowerString(text) else text)
  {
    hide Matches;
    var value := if glob.casing.Lower? then glob.casing.lowerString(text) else text;
    var p := glob.pattern;
    var px, nx, nextPx, nextNx := 0, 0, 0, 0;
    assert p[0..] == p && value[0..] == value;
    while px < |p| || nx < |value|
      invariant px <= |p| && nx <= |value| && nextPx <= |p| && nextNx <= |value| + 1
      invariant Decides(p, value, px, nx, nextPx, nextNx)
      invariant 0 < nextNx ==> RetryPoint(p, value, px, nx, nextPx, nextNx)
      invariant nextNx == 0 ==> nextPx == 0
      decreases 2 * (|value| + 1 - nextNx) - (if 0 < nextNx && px == nextPx then 1 else 0),
                |p| - nextPx, |p| - px + |value| - nx
    {
      if px < |p| {
        match p[px] {
          case Char(c) =>
            if nx < |value| && value[nx] == c {
              CharStep(p, value, px, nx, nextPx, nextNx);
              px, nx := px + 1, nx + 1;
              continue;
            }
          case WildcardSingle =>
            if nx < |value| {
              CharStep(p, value, px, nx, nextPx, nextNx);
              px, nx := px + 1, nx + 1;
              continue;
            }
          case WildcardMany(_) =>
            StarStep(p, value, px, nx, nextPx, nextNx);
            nextPx, nextNx := px, nx + 1;
            px := px + 1;
            continue;
        }
      }
      Mismatch(p[px..], value[nx..]);
      if 0 < nextNx && nextNx <= |value| {
        px, nx := nextPx, nextNx;
        continue;
      }
      return false;
    }
    Exhausted();
    assert p[px..] == [] && value[nx..] == "";
    matched := true;
  }

  /** The first pattern item rules the value out. */
  lemma Mismatch(p: seq<PatternChar>, v: string)
    requires if p == [] then v != "" else !p[0].WildcardMany? && (v == "" || (p[0].Char? && p[0].c != v[0]))
    ensures !Matches(p, v)
  {}

  lemma Exhausted()
    ensures Matches([], "")
  {}
}
