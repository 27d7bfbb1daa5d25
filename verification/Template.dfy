/**
 The `{{...}}` template compiler and its evaluator (crates/utils/src/template.rs).

 `Parse` compiles nested blocks into one flat item array whose block items carry a jump target, and
 `Eval` runs that array as a jump program.  Both are in-place loops proved against `ParsePieces` and
 `RunFrom`; the module TemplateMeaning proves that together they give the tree semantics.
 */
module Template {
  import opened Common

  // ----- Data model ---------------------------------------------------------------------------

  datatype Item<T> =
    | Static(text: string)
    | Variable(name: T, escape: bool)
    | If(variable: T, blockEnd: nat)
    | ForEach(variable: T, blockEnd: nat)
  {
    predicate IsBlock() { If? || ForEach? }
  }

  datatype Binding<T> = Single(value: string) | Block(entries: seq<map<T, string>>)

  datatype ParseError =
    | UnmatchedBraces
    | InvalidBlockStart
    | InvalidBlockEnd
    | InvalidVariable
    | MismatchedName
    | MismatchedType
    | UnclosedBlock

  /** What one stretch of template text is. */
  datatype Piece =
    | Text(text: string)
    | Value(name: string, escape: bool)
    | Open(each: bool, name: string)
    | Close(each: bool, name: string)
    | Bad(error: ParseError)

  // ----- Strings ------------------------------------------------------------------------------

  /** The first position of `pattern` in `s`. */
  function Find(s: string, pattern: string): (pos: Option<nat>)
    ensures pos.Some? ==> pos.value + |pattern| <= |s| && pattern <= s[pos.value..]
    ensures pos.Some? ==> forall i :: 0 <= i < pos.value ==> !(pattern <= s[i..])
    ensures pos.None? ==> forall i :: 0 <= i <= |s| ==> !(pattern <= s[i..])
    decreases |s|
  {
    if pattern <= s then Some(0)
    else if s == [] then None
    else
      var rest := Find(s[1..], pattern);
      assert forall i :: 0 < i <= |s| ==> s[i..] == s[1..][i - 1..];
      match rest
      case None => None
      case Some(pos) => Some(pos + 1)
  }

  /** `str::split_once`. */
  function SplitOnce(s: string, pattern: string): (parts: Option<(string, string)>)
    ensures parts.Some? ==> s == parts.value.0 + pattern + parts.value.1
  {
    match Find(s, pattern)
    case None => None
    case Some(pos) =>
      assert s == s[..pos] + s[pos..] && s[pos..] == pattern + s[pos + |pattern|..];
      Some((s[..pos], s[pos + |pattern|..]))
  }

  /** The code points with the Unicode White_Space property. */
  predicate IsSpace(c: char) {
    var n := c as int;
    || 0x09 <= n <= 0x0D || n == 0x20 || n == 0x85 || n == 0xA0 || n == 0x1680
    || 0x2000 <= n <= 0x200A || n == 0x2028 || n == 0x2029 || n == 0x202F || n == 0x205F || n == 0x3000
  }

  function TrimStart(s: string): string {
    if s != [] && IsSpace(s[0]) then TrimStart(s[1..]) else s
  }

  function TrimEnd(s: string): string {
    if s != [] && IsSpace(s[|s| - 1]) then TrimEnd(s[..|s| - 1]) else s
  }

  function Trim(s: string): string { TrimEnd(TrimStart(s)) }

  // ----- Lexing -------------------------------------------------------------------------------

  const OPENING: string := "{{"
  const CLOSING: string := "}}"

  /** A block keyword with its variable; None when there is no keyword. */
  function Keyword(s: string): Option<(bool, string)> {
    if "each " <= s then Some((true, s[5..]))
    else if "if " <= s then Some((false, s[3..]))
    else None
  }

  function Classify(tag: string): Piece {
    if "#" <= tag then
      match Keyword(Trim(tag[1..]))
      case None => Bad(InvalidBlockStart)
      case Some((each, name)) => Open(each, name)
    else if "/" <= tag then
      match Keyword(Trim(tag[1..]))
      case None => Bad(InvalidBlockEnd)
      case Some((each, name)) => Close(each, name)
    else if "!" <= tag then Value(tag[1..], false)
    else Value(tag, true)
  }

  function TextPiece(s: string): seq<Piece> {
    if s == "" then [] else [Text(s)]
  }

  function Lex(template: string): seq<Piece>
    decreases |template|
  {
    match SplitOnce(template, OPENING)
    case None => TextPiece(template)
    case Some((start, end)) =>
      TextPiece(start) + LexTag(end)
  }

  /** The text after an opening `{{`. */
  function LexTag(end: string): seq<Piece>
    decreases |end|
  {
    match SplitOnce(end, CLOSING)
    case None => [Bad(UnmatchedBraces)]
    case Some((tag, rest)) => [Classify(Trim(tag))] + Lex(rest)
  }

  // ----- Parsing ------------------------------------------------------------------------------

  /** An open block: its variable as written, and the index of its item. */
  datatype Frame = Frame(name: string, pos: nat)

  predicate FramesInside<T>(items: seq<Item<T>>, stack: seq<Frame>) {
    forall i :: 0 <= i < |stack| ==> stack[i].pos < |items|
  }

  function BlockItem<T>(each: bool, variable: T, blockEnd: nat): Item<T> {
    if each then ForEach(variable, blockEnd) else If(variable, blockEnd)
  }

  datatype Progress<T> = Progress(items: seq<Item<T>>, stack: seq<Frame>)

  /** One piece: a new item, a pushed frame, or a popped frame whose item gets its jump target. */
  function ParsePiece<T>(resolve: string -> Option<T>, piece: Piece, p: Progress<T>): (r: Result<Progress<T>, ParseError>)
    requires FramesInside(p.items, p.stack)
    ensures r.Ok? ==> FramesInside(r.value.items, r.value.stack)
  {
    match piece
    case Text(text) => Ok(p.(items := p.items + [Static(text)]))
    case Value(name, escape) =>
      (match resolve(name)
       case None => Err(InvalidVariable)
       case Some(v) => Ok(p.(items := p.items + [Variable(v, escape)])))
    case Open(each, name) =>
      (match resolve(name)
       case None => Err(InvalidVariable)
       case Some(v) =>
         Ok(Progress(p.items + [BlockItem(each, v, 0)], p.stack + [Frame(name, |p.items|)])))
    case Close(each, name) =>
      if p.stack == [] then Ok(p)
      else
        var frame := p.stack[|p.stack| - 1];
        var item := p.items[frame.pos];
        if frame.name != name then Err(MismatchedName)
        else if (item.If? && !each) || (item.ForEach? && each) then
          Ok(Progress(p.items[frame.pos := item.(blockEnd := |p.items|)], p.stack[..|p.stack| - 1]))
        else Err(MismatchedType)
    case Bad(error) => Err(error)
  }

  function ParsePieces<T>(resolve: string -> Option<T>, pieces: seq<Piece>, p: Progress<T>): Result<seq<Item<T>>, ParseError>
    requires FramesInside(p.items, p.stack)
    decreases |pieces|, 0
  {
    if pieces == [] then
      if p.stack == [] then Ok(p.items) else Err(UnclosedBlock)
    else
      Continue(resolve, pieces[1..], ParsePiece(resolve, pieces[0], p))
  }

  function Continue<T>(resolve: string -> Option<T>, rest: seq<Piece>, step: Result<Progress<T>, ParseError>)
    : Result<seq<Item<T>>, ParseError>
    requires step.Ok? ==> FramesInside(step.value.items, step.value.stack)
    decreases |rest|, 1
  {
    match step
    case Err(error) => Err(error)
    case Ok(p) => ParsePieces(resolve, rest, p)
  }

  function ParseText<T>(resolve: string -> Option<T>, template: string): Result<seq<Item<T>>, ParseError> {
    ParsePieces(resolve, Lex(template), Progress([], []))
  }

  lemma ParseSkipsNothing<T>(resolve: string -> Option<T>, piece: Piece, rest: seq<Piece>, p: Progress<T>)
    requires FramesInside(p.items, p.stack)
    ensures ParsePieces(resolve, [piece] + rest, p) == Continue(resolve, rest, ParsePiece(resolve, piece, p))
  {
    assert ([piece] + rest)[1..] == rest;
  }

  lemma BadStops<T>(resolve: string -> Option<T>, error: ParseError, p: Progress<T>)
    requires FramesInside(p.items, p.stack)
    ensures ParsePieces(resolve, [Bad(error)], p) == Err(error)
  {}

  /** Adds one tag to the items and the block stack, in the order the parser takes its branches. */
  method AddPiece<T>(resolve: string -> Option<T>, piece: Piece, items: seq<Item<T>>, blockStack: seq<Frame>)
    returns (error: Option<ParseError>, items': seq<Item<T>>, blockStack': seq<Frame>)
    requires FramesInside(items, blockStack)
    ensures ParsePiece(resolve, piece, Progress(items, blockStack))
         == if error.Some? then Err(error.value) else Ok(Progress(items', blockStack'))
  {
    error, items', blockStack' := None, items, blockStack;
    match piece {
      case Open(each, name) =>
        var variable := resolve(name);
        if variable.None? {
          return Some(InvalidVariable), items, blockStack;
        }
        blockStack' := blockStack + [Frame(name, |items|)];
        items' := items + [if each then ForEach(variable.value, 0) else If(variable.value, 0)];
      case Close(each, name) =>
        if blockStack != [] {
          var frame := blockStack[|blockStack| - 1];
          blockStack' := blockStack[..|blockStack| - 1];
          if frame.name != name {
            return Some(MismatchedName), items, blockStack;
          }
          var item := items[frame.pos];
          if item.If? && !each {
            items' := items[frame.pos := If(item.variable, |items|)];
          } else if item.ForEach? && each {
            items' := items[frame.pos := ForEach(item.variable, |items|)];
          } else {
            error := Some(MismatchedType);
          }
        }
      case Value(name, escape) =>
        var variable := resolve(name);
        if variable.None? {
          return Some(InvalidVariable), items, blockStack;
        }
        items' := items + [Variable(variable.value, escape)];
      case Text(text) => items' := items + [Static(text)];
      case Bad(e) => error := Some(e);
    }
  }

  method Parse<T>(resolve: string -> Option<T>, text: string) returns (r: Result<seq<Item<T>>, ParseError>)
    ensures r == ParseText(resolve, text)
  {
    hide ParsePiece;
    var template, items: seq<Item<T>>, blockStack: seq<Frame> := text, [], [];
    var error: Option<ParseError>;
    while true
      invariant FramesInside(items, blockStack)
      invariant ParseText(resolve, text) == ParsePieces(resolve, Lex(template), Progress(items, blockStack))
      decreases |template|
    {
      var halves := SplitOnce(template, OPENING);
      var start := if halves.None? then template else halves.value.0;
      ghost var rest := if halves.None? then [] else LexTag(halves.value.1);
      assert Lex(template) == TextPiece(start) + rest;
      if start != "" {
        ParseSkipsNothing(resolve, Text(start), rest, Progress(items, blockStack));
        error, items, blockStack := AddPiece(resolve, Text(start), items, blockStack);
        if error.Some? {
          return Err(error.value);
        }
      } else {
        assert Lex(template) == rest;
      }
      assert ParseText(resolve, text) == ParsePieces(resolve, rest, Progress(items, blockStack));
      if halves.None? {
        break;
      }
      var parts := SplitOnce(halves.value.1, CLOSING);
      if parts.None? {
        assert rest == [Bad(UnmatchedBraces)];
        BadStops(resolve, UnmatchedBraces, Progress(items, blockStack));
        return Err(UnmatchedBraces);
      }
      var piece := Classify(Trim(parts.value.0));
      template := parts.value.1;
      ParseSkipsNothing(resolve, piece, Lex(template), Progress(items, blockStack));
      error, items, blockStack := AddPiece(resolve, piece, items, blockStack);
      if error.Some? {
        return Err(error.value);
      }
    }
    r := if blockStack == [] then Ok(items) else Err(UnclosedBlock);
  }

  // ----- Evaluation ---------------------------------------------------------------------------

  function EscapeChar(c: char): string {
    match c
    case '&' => "&amp;"
    case '<' => "&lt;"
    case '>' => "&gt;"
    case '"' => "&quot;"
    case '\'' => "&#39;"
    case _ => [c]
  }

  function Escaped(s: string): string {
    if s == "" then "" else Escaped(s[..|s| - 1]) + EscapeChar(s[|s| - 1])
  }

  method HtmlEscape(result: string, input: string) returns (extended: string)
    ensures extended == result + Escaped(input)
  {
    hide EscapeChar;
    extended := result;
    for i := 0 to |input|
      invariant extended == result + Escaped(input[..i])
    {
      assert input[..i + 1][..i] == input[..i];
      Associates(result, Escaped(input[..i]), EscapeChar(input[i]));
      extended := extended + EscapeChar(input[i]);
    }
    assert input[..|input|] == input;
  }

  function Show(escape: bool, value: string): string {
    if escape then Escaped(value) else value
  }

  /** Jump targets point forward, inside the array, and blocks are nested or disjoint. */
  predicate Jumps<T>(items: seq<Item<T>>) {
    && (forall i :: 0 <= i < |items| && items[i].IsBlock() ==> i < items[i].blockEnd <= |items|)
    && (forall i, j :: 0 <= i < j < |items| && items[i].IsBlock() && items[j].IsBlock() && j < items[i].blockEnd
                       ==> items[j].blockEnd <= items[i].blockEnd)
  }

  /** What the inner loop emits at one item. */
  function EntryText<T(==)>(item: Item<T>, entry: map<T, string>): string {
    match item
    case Static(text) => text
    case Variable(name, escape) => if name in entry then Show(escape, entry[name]) else ""
    case _ => ""
  }

  /** Where the inner loop goes after item `pos`. */
  function EntryNext<T(==)>(item: Item<T>, pos: nat, entry: map<T, string>): nat {
    if item.If? && item.variable !in entry then item.blockEnd else pos + 1
  }

  /** The inner loop from `pos` to the block end `hi`: values come from one entry. */
  function InnerFrom<T(==)>(items: seq<Item<T>>, pos: nat, hi: nat, entry: map<T, string>): string
    requires pos <= hi <= |items|
    requires forall j :: pos <= j < hi && items[j].IsBlock() ==> j < items[j].blockEnd <= hi
    decreases hi - pos
  {
    if pos == hi then ""
    else
      assert items[pos].IsBlock() ==> pos < items[pos].blockEnd <= hi;
      EntryText(items[pos], entry) + InnerFrom(items, EntryNext(items[pos], pos, entry), hi, entry)
  }

  lemma InnerStep<T>(items: seq<Item<T>>, pos: nat, hi: nat, entry: map<T, string>)
    requires pos < hi <= |items|
    requires forall j :: pos <= j < hi && items[j].IsBlock() ==> j < items[j].blockEnd <= hi
    ensures pos < EntryNext(items[pos], pos, entry) <= hi
    ensures InnerFrom(items, pos, hi, entry)
         == EntryText(items[pos], entry) + InnerFrom(items, EntryNext(items[pos], pos, entry), hi, entry)
  {
    assert items[pos].IsBlock() ==> pos < items[pos].blockEnd <= hi;
  }

  function EachEntry<T(==)>(items: seq<Item<T>>, lo: nat, hi: nat, entries: seq<map<T, string>>): string
    requires lo <= hi <= |items|
    requires forall j :: lo <= j < hi && items[j].IsBlock() ==> j < items[j].blockEnd <= hi
  {
    if entries == [] then ""
    else InnerFrom(items, lo, hi, entries[0]) + EachEntry(items, lo, hi, entries[1..])
  }

  /** What the outer loop emits at item `pos`. */
  function ItemText<T(==)>(items: seq<Item<T>>, pos: nat, bindings: map<T, Binding<T>>): string
    requires Jumps(items) && pos < |items|
  {
    match items[pos]
    case Static(text) => text
    case Variable(name, escape) =>
      if name in bindings && bindings[name].Single? then Show(escape, bindings[name].value) else ""
    case If(_, _) => ""
    case ForEach(variable, blockEnd) =>
      if variable in bindings && bindings[variable].Block?
      then EachEntry(items, pos + 1, blockEnd, bindings[variable].entries) else ""
  }

  /** Where the outer loop goes after item `pos`. */
  function NextPos<T(==)>(items: seq<Item<T>>, pos: nat, bindings: map<T, Binding<T>>): (next: nat)
    requires Jumps(items) && pos < |items|
    ensures pos < next <= |items|
  {
    assert items[pos].IsBlock() ==> pos < items[pos].blockEnd <= |items|;
    match items[pos]
    case If(variable, blockEnd) => if variable in bindings then pos + 1 else blockEnd
    case ForEach(_, blockEnd) => blockEnd
    case _ => pos + 1
  }

  /** The outer loop from item `pos` on. */
  function RunFrom<T(==)>(items: seq<Item<T>>, pos: nat, bindings: map<T, Binding<T>>): string
    requires Jumps(items) && pos <= |items|
    decreases |items| - pos
  {
    if pos == |items| then ""
    else ItemText(items, pos, bindings) + RunFrom(items, NextPos(items, pos, bindings), bindings)
  }

  /** The inner loop of `eval`: `slice` shrinks from the front and is replaced on a skipped `if`. */
  method EvalEntry<T(==)>(items: seq<Item<T>>, lo: nat, hi: nat, entry: map<T, string>, result: string)
    returns (extended: string)
    requires lo <= hi <= |items|
    requires forall j :: lo <= j < hi && items[j].IsBlock() ==> j < items[j].blockEnd <= hi
    ensures extended == result + InnerFrom(items, lo, hi, entry)
  {
    hide InnerFrom;
    extended := result;
    var slice := items[lo..hi];
    while slice != []
      invariant |slice| <= hi - lo && slice == items[hi - |slice|..hi]
      invariant extended + InnerFrom(items, hi - |slice|, hi, entry) == result + InnerFrom(items, lo, hi, entry)
      decreases |slice|
    {
      var subItem := slice[0];
      ghost var pos: nat, before := hi - |slice|, extended;
      assert subItem == items[pos];
      InnerStep(items, pos, hi, entry);
      slice := slice[1..];
      match subItem {
        case Static(text) => extended := extended + text;
        case Variable(name, escape) =>
          if name in entry {
            if escape {
              extended := HtmlEscape(extended, entry[name]);
            } else {
              extended := extended + entry[name];
            }
          }
        case If(variable, startPos) =>
          if variable !in entry {
            slice := items[startPos..hi];
          }
        case ForEach(_, _) =>
      }
      assert hi - |slice| == EntryNext(subItem, pos, entry);
      assert extended == before + EntryText(subItem, entry);
      Associates(before, EntryText(subItem, entry), InnerFrom(items, hi - |slice|, hi, entry));
    }
    InnerEnds(items, hi, entry);
    assert extended + "" == extended;
  }

  lemma InnerEnds<T>(items: seq<Item<T>>, hi: nat, entry: map<T, string>)
    requires hi <= |items|
    ensures InnerFrom(items, hi, hi, entry) == ""
  {}

  method EvalEach<T(==)>(items: seq<Item<T>>, lo: nat, hi: nat, entries: seq<map<T, string>>, result: string)
    returns (extended: string)
    requires lo <= hi <= |items|
    requires forall j :: lo <= j < hi && items[j].IsBlock() ==> j < items[j].blockEnd <= hi
    ensures extended == result + EachEntry(items, lo, hi, entries)
  {
    extended := result;
    for i := 0 to |entries|
      invariant extended + EachEntry(items, lo, hi, entries[i..]) == result + EachEntry(items, lo, hi, entries)
    {
      assert entries[i..][1..] == entries[i + 1..];
      Associates(extended, InnerFrom(items, lo, hi, entries[i]), EachEntry(items, lo, hi, entries[i + 1..]));
      extended := EvalEntry(items, lo, hi, entries[i], extended);
    }
  }

  method Eval<T(==)>(items: seq<Item<T>>, bindings: map<T, Binding<T>>) returns (result: string)
    requires Jumps(items)
    ensures result == RunFrom(items, 0, bindings)
  {
    hide InnerFrom, EachEntry, Escaped;
    result := "";
    var idx, baseOffset: nat := 0, 0;
    while baseOffset + idx < |items|
      invariant baseOffset + idx <= |items|
      invariant result + RunFrom(items, baseOffset + idx, bindings) == RunFrom(items, 0, bindings)
      decreases |items| - (baseOffset + idx)
    {
      var pos := idx + baseOffset;
      ghost var before := result;
      idx := idx + 1;
      match items[pos] {
        case Static(text) => result := result + text;
        case Variable(name, escape) =>
          if name in bindings && bindings[name].Single? {
            if escape {
              result := HtmlEscape(result, bindings[name].value);
            } else {
              result := result + bindings[name].value;
            }
          }
        case If(variable, blockEnd) =>
          if variable !in bindings {
            baseOffset, idx := blockEnd, 0;
          }
        case ForEach(variable, blockEnd) =>
          if variable in bindings && bindings[variable].Block? {
            result := EvalEach(items, pos + 1, blockEnd, bindings[variable].entries, result);
          }
          baseOffset, idx := blockEnd, 0;
      }
      assert baseOffset + idx == NextPos(items, pos, bindings);
      assert result == before + ItemText(items, pos, bindings);
      Associates(before, ItemText(items, pos, bindings), RunFrom(items, baseOffset + idx, bindings));
    }
  }
}
