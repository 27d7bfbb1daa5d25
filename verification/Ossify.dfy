/**
 The licence-snippet stripper (`remove_proprietary_snippets` of resources/scripts/ossify.py).

 The nested scan is proved to drop exactly the lines lying in some proprietary snippet, and to leave a text
 without proprietary snippets that a second pass returns as it is.
 */
module Ossify {
  import opened Common

  const BEGIN := "// SPDX-SnippetBegin"
  const END := "// SPDX-SnippetEnd"
  const SEL := "SPDX-License-Identifier: LicenseRef-SEL"

  // ----- Python strings -----------------------------------------------------------------------

  /** `text.split('\n')` */
  function Split(text: string): (lines: seq<string>)
    ensures |lines| > 0
  {
    if text == "" then [""]
    else
      var rest := Split(text[1..]);
      if text[0] == '\n' then [""] + rest else [[text[0]] + rest[0]] + rest[1..]
  }

  /** `'\n'.join(lines)` */
  function Join(lines: seq<string>): string {
    if lines == [] then ""
    else if |lines| == 1 then lines[0]
    else lines[0] + "\n" + Join(lines[1..])
  }

  predicate SingleLines(lines: seq<string>) {
    forall i :: 0 <= i < |lines| ==> '\n' !in lines[i]
  }

  lemma {:induction false} JoinOfSplit(text: string)
    ensures Join(Split(text)) == text && SingleLines(Split(text))
  {
    if text == "" {
    } else {
      JoinOfSplit(text[1..]);
      var rest := Split(text[1..]);
      assert text == [text[0]] + text[1..];
      if text[0] == '\n' {
        assert ([""] + rest)[1..] == rest;
      } else {
        assert ([[text[0]] + rest[0]] + rest[1..])[1..] == rest[1..];
      }
    }
  }

  lemma {:induction false} SplitOfLine(line: string, text: string)
    requires '\n' !in line
    ensures Split(line) == [line] && Split(line + "\n" + text) == [line] + Split(text)
  {
    if line == "" {
      assert (line + "\n" + text)[1..] == text;
    } else {
      SplitOfLine(line[1..], text);
      assert (line + "\n" + text)[1..] == line[1..] + "\n" + text;
      assert line == [line[0]] + line[1..];
    }
  }

  lemma {:induction false} SplitOfJoin(lines: seq<string>)
    requires SingleLines(lines) && lines != []
    ensures Split(Join(lines)) == lines
  {
    SplitOfLine(lines[0], Join(lines[1..]));
    if |lines| <= 1 {
    } else {
      SplitOfJoin(lines[1..]);
      assert lines == [lines[0]] + lines[1..];
    }
  }

  lemma OccursInLine(line: string, text: string, part: string, k: nat)
    requires '\n' !in part && part != ""
    ensures var all := line + "\n" + text;
            OccursAt(all, part, k) <==> OccursAt(line, part, k) || OccursAt(text, part, k - |line| - 1)
  {
    var all := line + "\n" + text;
    if k + |part| <= |line| {
      assert all[k..k + |part|] == line[k..k + |part|];
    } else if k > |line| {
      var shifted := k - |line| - 1;
      if k + |part| <= |all| {
        assert all[k..k + |part|] == text[shifted..shifted + |part|];
      }
    } else if k + |part| <= |all| {
      assert all[k..k + |part|][|line| - k] == '\n';
    }
  }

  /** A marker without line breaks is in the text behind a line or in that line. */
  lemma ContainsBehindLine(line: string, text: string, part: string)
    requires '\n' !in part && part != ""
    ensures Contains(line + "\n" + text, part) <==> Contains(line, part) || Contains(text, part)
  {
    hide OccursAt;
    var all := line + "\n" + text;
    if Contains(all, part) {
      var k :| 0 <= k <= |all| && OccursAt(all, part, k);
      OccursInLine(line, text, part, k);
      InBounds(line, part, k);
      InBounds(text, part, k - |line| - 1);
    }
    if Contains(line, part) {
      var k :| 0 <= k <= |line| && OccursAt(line, part, k);
      OccursInLine(line, text, part, k);
    }
    if Contains(text, part) {
      var k :| 0 <= k <= |text| && OccursAt(text, part, k);
      OccursInLine(line, text, part, k + |line| + 1);
    }
  }

  lemma InBounds(text: string, part: string, k: int)
    ensures OccursAt(text, part, k) ==> 0 <= k <= |text|
  {}

  /** A marker without line breaks is in the joined text just when it is in one of the lines. */
  lemma {:induction false} ContainsJoined(lines: seq<string>, part: string)
    requires '\n' !in part && part != ""
    ensures Contains(Join(lines), part) <==> exists i :: 0 <= i < |lines| && Contains(lines[i], part)
  {
    if |lines| <= 1 {
    } else {
      hide Contains;
      ContainsBehindLine(lines[0], Join(lines[1..]), part);
      ContainsJoined(lines[1..], part);
      assert forall i :: 0 < i < |lines| ==> lines[i] == lines[1..][i - 1];
      assert forall i :: 0 <= i < |lines[1..]| ==> lines[1..][i] == lines[i + 1];
    }
  }

  // ----- Snippets -----------------------------------------------------------------------------

  /** The index behind the snippet opened at line `i`: behind its end marker, or the end of the file. */
  function SnippetEnd(lines: seq<string>, i: nat): (end: nat)
    requires i <= |lines|
    ensures i <= end <= |lines| && (i < |lines| ==> i < end)
    decreases |lines| - i
  {
    if i == |lines| then i
    else if Contains(lines[i], END) then i + 1
    else SnippetEnd(lines, i + 1)
  }

  ghost predicate Mentions(lines: seq<string>, start: nat, end: nat) {
    exists k :: start <= k < end <= |lines| && Contains(lines[k], SEL)
  }

  ghost predicate IsSelSnippet(lines: seq<string>, i: nat) {
    i < |lines| && Contains(lines[i], BEGIN) && Mentions(lines, i, SnippetEnd(lines, i))
  }

  /** Line `k` belongs to a proprietary snippet. */
  ghost predicate Covered(lines: seq<string>, k: nat) {
    exists i: nat :: i <= k && IsSelSnippet(lines, i) && k < SnippetEnd(lines, i)
  }

  /** The first `n` lines without those of proprietary snippets. */
  ghost function Kept(lines: seq<string>, n: nat): seq<string>
    requires n <= |lines|
  {
    if n == 0 then []
    else Kept(lines, n - 1) + if Covered(lines, n - 1) then [] else [lines[n - 1]]
  }

  /** Where the proprietary snippets opened before line `n` end. */
  ghost function SelEnds(lines: seq<string>, n: nat): set<nat>
    requires n <= |lines|
  {
    set i: nat | i < n && IsSelSnippet(lines, i) :: SnippetEnd(lines, i)
  }

  /** No proprietary snippet opened before line `i` reaches it. */
  ghost predicate Between(lines: seq<string>, i: nat) {
    i <= |lines| && forall h: nat :: h < i && IsSelSnippet(lines, h) ==> SnippetEnd(lines, h) <= i
  }

  /** Snippets opened inside a snippet end where it ends. */
  lemma {:induction false} SameEnd(lines: seq<string>, i: nat, k: nat)
    requires i <= k < |lines| && k < SnippetEnd(lines, i)
    ensures SnippetEnd(lines, k) == SnippetEnd(lines, i)
    decreases k - i
  {
    if i == k {
    } else {
      SameEnd(lines, i + 1, k);
    }
  }

  lemma NothingYet(lines: seq<string>)
    ensures Between(lines, 0) && Kept(lines, 0) == [] && SelEnds(lines, 0) == {}
  {}

  /** Behind a removed snippet. */
  lemma SkipsSnippet(lines: seq<string>, i: nat)
    requires Between(lines, i) && IsSelSnippet(lines, i)
    ensures var end := SnippetEnd(lines, i);
            && Between(lines, end)
            && Kept(lines, end) == Kept(lines, i)
            && SelEnds(lines, end) == SelEnds(lines, i) + {end}
            && end !in SelEnds(lines, i)
  {
    var end := SnippetEnd(lines, i);
    forall h: nat | i <= h < end
      ensures SnippetEnd(lines, h) == end
    {
      SameEnd(lines, i, h);
    }
    AllCovered(lines, i, end);
  }

  lemma {:induction false} AllCovered(lines: seq<string>, i: nat, n: nat)
    requires IsSelSnippet(lines, i) && i <= n <= SnippetEnd(lines, i)
    ensures Kept(lines, n) == Kept(lines, i)
    decreases n - i
  {
    if n == i {
    } else {
      AllCovered(lines, i, n - 1);
      assert Covered(lines, n - 1);
    }
  }

  /** Behind a kept line. */
  lemma KeepsLine(lines: seq<string>, i: nat)
    requires Between(lines, i) && i < |lines| && !IsSelSnippet(lines, i)
    ensures Between(lines, i + 1)
    ensures Kept(lines, i + 1) == Kept(lines, i) + [lines[i]] && SelEnds(lines, i + 1) == SelEnds(lines, i)
  {}

  /** The stripped text: everything outside proprietary snippets. */
  ghost function Stripped(content: string): string {
    Join(Kept(Split(content), |Split(content)|))
  }

  /** Drops every proprietary snippet and counts the blocks it dropped. */
  method RemoveProprietarySnippets(content: string) returns (text: string, snippetsRemoved: nat)
    ensures text == Stripped(content)
    ensures snippetsRemoved == |SelEnds(Split(content), |Split(content)|)|
  {
    hide Contains, Kept, SelEnds, Join, Split, Mentions, Between;
    snippetsRemoved := 0;
    var lines := Split(content);
    NothingYet(lines);
    var resultLines: seq<string> := [];
    var i: nat := 0;
    ghost var at: nat := 0;
    while i < |lines|
      invariant at == (if i <= |lines| then i else |lines|)
      invariant Between(lines, at) && resultLines == Kept(lines, at)
      invariant snippetsRemoved == |SelEnds(lines, at)|
    {
      var line := lines[i];
      if Contains(line, BEGIN) {
        var snippetLines: seq<string> := [];
        var j: nat := i;
        while j < |lines|
          invariant i <= j <= |lines| && snippetLines == lines[i..j]
          invariant SnippetEnd(lines, j) == SnippetEnd(lines, i)
        {
          snippetLines := snippetLines + [lines[j]];
          if Contains(lines[j], END) { break; }
          j := j + 1;
        }
        var snippetContent := Join(snippetLines);
        SnippetMentions(lines, i, snippetLines);
        if Contains(snippetContent, SEL) {
          SkipsSnippet(lines, i);
          snippetsRemoved := snippetsRemoved + 1;
          i := j + 1;
        } else {
          KeepsLine(lines, i);
          resultLines := resultLines + [line];
          i := i + 1;
        }
      } else {
        KeepsLine(lines, i);
        resultLines := resultLines + [line];
        i := i + 1;
      }
      at := if i <= |lines| then i else |lines|;
    }
    text := Join(resultLines);
  }

  lemma SnippetMentions(lines: seq<string>, i: nat, snippet: seq<string>)
    requires i < |lines| && snippet == lines[i..SnippetEnd(lines, i)]
    ensures Contains(Join(snippet), SEL) <==> Mentions(lines, i, SnippetEnd(lines, i))
  {
    ContainsJoined(snippet, SEL);
    if Mentions(lines, i, SnippetEnd(lines, i)) {
      var k :| i <= k < SnippetEnd(lines, i) && Contains(lines[k], SEL);
      assert snippet[k - i] == lines[k];
    }
  }

  // ----- What is left -------------------------------------------------------------------------

  ghost predicate Clean(lines: seq<string>) {
    forall i: nat :: !IsSelSnippet(lines, i)
  }

  /** The kept part of the lines from `i` on. */
  ghost function KeptFrom(lines: seq<string>, i: nat): seq<string>
    requires i <= |lines|
    decreases |lines| - i
  {
    if i == |lines| then []
    else if IsSelSnippet(lines, i) then KeptFrom(lines, SnippetEnd(lines, i))
    else [lines[i]] + KeptFrom(lines, i + 1)
  }

  lemma {:induction false} KeptSplits(lines: seq<string>, i: nat)
    requires Between(lines, i)
    ensures Kept(lines, |lines|) == Kept(lines, i) + KeptFrom(lines, i)
    decreases |lines| - i
  {
    hide Kept, IsSelSnippet;
    if i < |lines| {
      if IsSelSnippet(lines, i) {
        SkipsSnippet(lines, i);
        KeptSplits(lines, SnippetEnd(lines, i));
      } else {
        KeepsLine(lines, i);
        KeptSplits(lines, i + 1);
      }
    } else {
      assert Kept(lines, i) + [] == Kept(lines, i);
    }
  }

  lemma {:induction false} EndShifts(line: string, rest: seq<string>, i: nat)
    requires i <= |rest|
    ensures SnippetEnd([line] + rest, i + 1) == SnippetEnd(rest, i) + 1
    decreases |rest| - i
  {
    if i == |rest| {
    } else {
      EndShifts(line, rest, i + 1);
    }
  }

  lemma SnippetShifts(line: string, rest: seq<string>, i: nat)
    ensures IsSelSnippet([line] + rest, i + 1) ==> IsSelSnippet(rest, i)
  {
    if i < |rest| && IsSelSnippet([line] + rest, i + 1) {
      var all := [line] + rest;
      EndShifts(line, rest, i);
      var k :| i + 1 <= k < SnippetEnd(all, i + 1) && Contains(all[k], SEL);
      assert all[k] == rest[k - 1];
    }
  }

  /** The first line of a snippet that is not proprietary is kept, and what follows is not proprietary either. */
  lemma OpenHead(lines: seq<string>, i: nat)
    requires i < |lines| && !Mentions(lines, i, SnippetEnd(lines, i))
    ensures KeptFrom(lines, i) == [lines[i]] + KeptFrom(lines, i + 1)
    ensures !Contains(lines[i], END) ==> !Mentions(lines, i + 1, SnippetEnd(lines, i + 1))
  {
    hide Contains;
  }

  /** From the first line of a snippet that is not proprietary on, the kept part starts with that snippet. */
  lemma {:induction false} RestStaysWhole(lines: seq<string>, i: nat)
    requires i <= |lines| && !Mentions(lines, i, SnippetEnd(lines, i))
    ensures var n, kept := SnippetEnd(lines, i) - i, KeptFrom(lines, i);
            n <= |kept| && kept[..n] == lines[i..i + n] && SnippetEnd(kept, 0) == n
    decreases |lines| - i
  {
    if i == |lines| {
    } else {
      OpenHead(lines, i);
      hide Contains, Mentions, KeptFrom, IsSelSnippet, SnippetEnd;
      EndSteps(lines, i);
      var rest := KeptFrom(lines, i + 1);
      HeadEnds(lines[i], rest);
      if !Contains(lines[i], END) {
        RestStaysWhole(lines, i + 1);
        HeadBefore(lines, i, SnippetEnd(lines, i) - i, rest);
      }
    }
  }

  lemma EndSteps(lines: seq<string>, i: nat)
    requires i < |lines|
    ensures SnippetEnd(lines, i) == if Contains(lines[i], END) then i + 1 else SnippetEnd(lines, i + 1)
  {}

  lemma HeadEnds(line: string, rest: seq<string>)
    ensures SnippetEnd([line] + rest, 0) == if Contains(line, END) then 1 else 1 + SnippetEnd(rest, 0)
  {
    EndShifts(line, rest, 0);
  }

  lemma HeadBefore(lines: seq<string>, i: nat, n: nat, rest: seq<string>)
    requires n > 0 && i + n <= |lines| && n - 1 <= |rest| && rest[..n - 1] == lines[i + 1..i + n]
    ensures ([lines[i]] + rest)[..n] == lines[i..i + n]
  {
    assert ([lines[i]] + rest)[..n] == [lines[i]] + rest[..n - 1];
  }

  lemma {:induction false} EndBehind(before: seq<string>, rest: seq<string>, i: nat)
    requires i <= |rest|
    ensures SnippetEnd(before + rest, |before| + i) == |before| + SnippetEnd(rest, i)
    decreases |rest| - i
  {
    if i == |rest| {
    } else {
      EndBehind(before, rest, i + 1);
    }
  }

  lemma OutsideIsBetween(lines: seq<string>, i: nat)
    requires i < |lines| && !Covered(lines, i)
    ensures Between(lines, i)
  {
    hide IsSelSnippet, SnippetEnd;
  }

  /**
   A snippet that is neither proprietary nor opened inside a proprietary one is in the stripped lines whole: the same
   lines one after the other, ending where it ended.
   */
  lemma OpenSnippetStaysWhole(lines: seq<string>, i: nat)
    requires i < |lines| && !Covered(lines, i) && !Mentions(lines, i, SnippetEnd(lines, i))
    ensures var kept, at, n := Kept(lines, |lines|), |Kept(lines, i)|, SnippetEnd(lines, i) - i;
            at + n <= |kept| && kept[at..at + n] == lines[i..i + n] && SnippetEnd(kept, at) == at + n
  {
    hide Kept, KeptFrom, IsSelSnippet, Mentions, Covered, Between, SnippetEnd;
    OutsideIsBetween(lines, i);
    KeptSplits(lines, i);
    RestStaysWhole(lines, i);
    EndBehind(Kept(lines, i), KeptFrom(lines, i), 0);
    var kept, at, n := Kept(lines, |lines|), |Kept(lines, i)|, SnippetEnd(lines, i) - i;
    assert kept[at..at + n] == KeptFrom(lines, i)[..n];
  }

  lemma {:induction false} KeptIsClean(lines: seq<string>, i: nat)
    requires i <= |lines|
    ensures Clean(KeptFrom(lines, i))
    decreases |lines| - i
  {
    if i == |lines| {
    } else {
      if IsSelSnippet(lines, i) {
        KeptIsClean(lines, SnippetEnd(lines, i));
      } else {
        KeptIsClean(lines, i + 1);
        var rest := KeptFrom(lines, i + 1);
        forall h: nat
          ensures !IsSelSnippet([lines[i]] + rest, h)
        {
          if h > 0 {
            SnippetShifts(lines[i], rest, h - 1);
          } else if Contains(lines[i], BEGIN) {
            RestStaysWhole(lines, i);
            HeadStaysOpen(lines, i);
          }
        }
      }
    }
  }

  lemma HeadStaysOpen(lines: seq<string>, i: nat)
    requires i < |lines| && !Mentions(lines, i, SnippetEnd(lines, i))
    ensures !IsSelSnippet(KeptFrom(lines, i), 0)
  {
    RestStaysWhole(lines, i);
    var kept, n := KeptFrom(lines, i), SnippetEnd(lines, i) - i;
    forall k | 0 <= k < n
      ensures !Contains(kept[k], SEL)
    {
      assert kept[k] == kept[..n][k] == lines[i..i + n][k] == lines[i + k];
    }
  }

  lemma {:induction false} CleanIsKept(lines: seq<string>, n: nat)
    requires Clean(lines) && n <= |lines|
    ensures Kept(lines, n) == lines[..n]
  {
    if n == 0 {
    } else {
      CleanIsKept(lines, n - 1);
      assert lines[..n] == lines[..n - 1] + [lines[n - 1]];
    }
  }

  lemma {:induction false} KeptLines(lines: seq<string>, n: nat)
    requires SingleLines(lines) && n <= |lines|
    ensures SingleLines(Kept(lines, n)) && |Kept(lines, n)| <= n
    ensures |Kept(lines, n)| == n ==> forall k: nat :: k < n ==> !Covered(lines, k)
  {
    if n == 0 {
    } else {
      KeptLines(lines, n - 1);
    }
  }

  /** The lines of the stripped text; an empty text is still one empty line to Python. */
  lemma StrippedLines(content: string)
    ensures var kept := Kept(Split(content), |Split(content)|);
            Split(Stripped(content)) == (if kept == [] then [""] else kept)
  {
    JoinOfSplit(content);
    KeptLines(Split(content), |Split(content)|);
    var kept := Kept(Split(content), |Split(content)|);
    if kept != [] {
      SplitOfJoin(kept);
    }
  }

  lemma EmptyLineIsClean()
    ensures Clean([""])
  {
    assert !Contains("", BEGIN);
  }

  /** No proprietary snippet is left in the stripped text. */
  lemma NothingProprietaryRemains(content: string)
    ensures Clean(Split(Stripped(content)))
  {
    var lines := Split(content);
    KeptSplits(lines, 0);
    assert Kept(lines, |lines|) == KeptFrom(lines, 0);
    KeptIsClean(lines, 0);
    StrippedLines(content);
    EmptyLineIsClean();
  }

  /** A text is returned as it is exactly when it holds no proprietary snippet. */
  lemma UnchangedExactly(content: string)
    ensures Stripped(content) == content <==> Clean(Split(content))
  {
    var lines := Split(content);
    JoinOfSplit(content);
    if Clean(lines) {
      CleanIsKept(lines, |lines|);
      assert lines[..|lines|] == lines;
    } else {
      NothingProprietaryRemains(content);
    }
  }

  /** A second pass changes nothing and drops nothing. */
  lemma Idempotent(content: string)
    ensures Stripped(Stripped(content)) == Stripped(content)
    ensures SelEnds(Split(Stripped(content)), |Split(Stripped(content))|) == {}
  {
    NothingProprietaryRemains(content);
    UnchangedExactly(Stripped(content));
  }

  // ----- One block ----------------------------------------------------------------------------

  /** The licence is named in one of the lines. */
  ghost predicate NamesLicence(lines: seq<string>) {
    exists i :: 0 <= i < |lines| && Contains(lines[i], "SPDX-License-Identifier: LicenseRef-SEL")
  }

  ghost predicate NoneContains(lines: seq<string>, marker: string) {
    forall i :: 0 <= i < |lines| ==> !Contains(lines[i], marker)
  }

  /**
   A block between its two markers, with no marker in front of it, behind it or inside it, is dropped as a whole if the
   licence is named in it and kept as a whole if not.
   */
  lemma MarkedBlock(before: seq<string>, block: seq<string>, after: seq<string>)
    requires |block| >= 2 && Contains(block[0], "// SPDX-SnippetBegin") && Contains(block[|block| - 1], "// SPDX-SnippetEnd")
    requires NoneContains(before + after, "// SPDX-SnippetBegin") && NoneContains(block[1..], "// SPDX-SnippetBegin")
    requires NoneContains(block[..|block| - 1], "// SPDX-SnippetEnd")
    ensures var lines := before + block + after;
            Kept(lines, |lines|) == if NamesLicence(block) then before + after else lines
  {
    hide Contains, Kept, Between, SnippetEnd;
    var lines, start, end := before + block + after, |before|, |before| + |block|;
    BlockLines(before, block, after);
    NothingYet(lines);
    PlainStretch(lines, 0, start);
    if NamesLicence(block) {
      SkipsSnippet(lines, start);
      PlainStretch(lines, end, |lines|);
      assert [] + before == before;
    } else {
      PlainStretch(lines, start, |lines|);
      assert [] + before + (block + after) == lines;
    }
  }

  /** Only the first line of the block opens a snippet, which is the block. */
  lemma BlockLines(before: seq<string>, block: seq<string>, after: seq<string>)
    requires |block| >= 2 && Contains(block[0], BEGIN) && Contains(block[|block| - 1], END)
    requires NoneContains(before + after, BEGIN) && NoneContains(block[1..], BEGIN)
    requires NoneContains(block[..|block| - 1], END)
    ensures var lines, start, end := before + block + after, |before|, |before| + |block|;
            && lines[0..start] == before && lines[end..|lines|] == after && lines[start..|lines|] == block + after
            && SnippetEnd(lines, start) == end
            && (IsSelSnippet(lines, start) <==> NamesLicence(block))
            && forall i: nat :: i != start ==> !IsSelSnippet(lines, i)
  {
    hide Contains, SnippetEnd;
    var lines, start, end := before + block + after, |before|, |before| + |block|;
    BlockAt(before, block, after);
    BlockEnds(lines, block, start, start);
    forall i: nat | i != start && i < |lines|
      ensures !Contains(lines[i], BEGIN)
    {
      if i < start {
        assert lines[i] == (before + after)[i];
      } else if i < end {
        assert lines[i] == block[1..][i - start - 1];
      } else {
        assert lines[i] == (before + after)[i - |block|];
      }
    }
    if NamesLicence(block) {
      var k :| 0 <= k < |block| && Contains(block[k], SEL);
      assert Contains(lines[start + k], SEL);
    }
  }

  lemma BlockAt(before: seq<string>, block: seq<string>, after: seq<string>)
    ensures var lines, start, end := before + block + after, |before|, |before| + |block|;
            && lines[0..start] == before && lines[end..|lines|] == after && lines[start..|lines|] == block + after
            && forall k :: start <= k < end ==> lines[k] == block[k - start]
  {
    Associates(before, block, after);
  }

  lemma {:induction false} BlockEnds(lines: seq<string>, block: seq<string>, start: nat, i: nat)
    requires block != [] && start + |block| <= |lines| && start <= i < start + |block|
    requires forall k :: start <= k < start + |block| ==> lines[k] == block[k - start]
    requires NoneContains(block[..|block| - 1], END) && Contains(block[|block| - 1], END)
    ensures SnippetEnd(lines, i) == start + |block|
    decreases start + |block| - i
  {
    hide Contains;
    if i < start + |block| - 1 {
      assert lines[i] == block[..|block| - 1][i - start];
      BlockEnds(lines, block, start, i + 1);
    }
  }

  /** Lines that open no proprietary snippet are kept. */
  lemma {:induction false} PlainStretch(lines: seq<string>, lo: nat, hi: nat)
    requires lo <= hi <= |lines| && Between(lines, lo)
    requires forall i: nat :: lo <= i < hi ==> !IsSelSnippet(lines, i)
    ensures Between(lines, hi) && Kept(lines, hi) == Kept(lines, lo) + lines[lo..hi]
    decreases hi
  {
    hide Kept, Between, IsSelSnippet;
    if lo == hi {
      assert Kept(lines, lo) + [] == Kept(lines, lo);
    } else {
      PlainStretch(lines, lo, hi - 1);
      KeepsLine(lines, hi - 1);
      assert lines[lo..hi] == lines[lo..hi - 1] + [lines[hi - 1]];
      Associates(Kept(lines, lo), lines[lo..hi - 1], [lines[hi - 1]]);
    }
  }
}
