/** What the template parser refuses, and with which error; and the spaces it lets pass. */
module TemplateErrors {
  import opened Common
  import opened Template
  import opened TemplateMeaning
  import opened TemplateWriting

  /** Nodes in front of the place where parsing fails: whole nodes, and inside one open block after another. */
  datatype Before = Top(doc: Doc) | Inner(outer: Before, each: bool, name: string, doc: Doc)

  function BeforePieces(before: Before): seq<Piece> {
    match before
    case Top(doc) => Pieces(doc)
    case Inner(outer, each, name, doc) => BeforePieces(outer) + ([Open(each, name)] + Pieces(doc))
  }

  predicate IsLegal<T>(resolve: string -> Option<T>, before: Before) {
    match before
    case Top(doc) => Resolves(resolve, doc) && Nested(doc, true)
    case Inner(outer, _, name, doc) =>
      IsLegal(resolve, outer) && resolve(name).Some? && Resolves(resolve, doc) && Nested(doc, false)
  }

  /** A piece that cannot stand behind `before`, and the error it raises. */
  function Refusal<T>(resolve: string -> Option<T>, before: Before, piece: Piece): Option<ParseError> {
    match piece
    case Text(_) => None
    case Value(name, _) => if resolve(name).None? then Some(InvalidVariable) else None
    case Open(_, name) => if resolve(name).None? then Some(InvalidVariable) else None
    case Close(each, name) =>
      if before.Top? then None
      else if before.name != name then Some(MismatchedName)
      else if before.each != each then Some(MismatchedType)
      else None
    case Bad(error) => Some(error)
  }

  /** The parser behind `before`: its innermost open block is on top of the stack. */
  ghost predicate Reached<T>(before: Before, p: Progress<T>) {
    && Inside(p)
    && (before.Top? ==> p.stack == [])
    && (before.Inner? ==>
          && p.stack != []
          && var frame := p.stack[|p.stack| - 1];
             && frame.name == before.name
             && p.items[frame.pos].IsBlock() && (p.items[frame.pos].ForEach? <==> before.each))
  }

  lemma {:induction false} ReadBefore<T>(resolve: string -> Option<T>, before: Before, tail: seq<Piece>)
    returns (p: Progress<T>)
    requires IsLegal(resolve, before)
    ensures Reached(before, p)
    ensures ParsePieces(resolve, BeforePieces(before) + tail, Progress([], [])) == ParsePieces(resolve, tail, p)
  {
    hide ParsePieces;
    match before {
      case Top(doc) =>
        ParsesDoc(resolve, doc, tail, Progress([], []));
        p := With(Progress([], []), Compile(resolve, doc, 0));
      case Inner(outer, each, name, doc) =>
        var open := Open(each, name);
        Associates(BeforePieces(outer), [open] + Pieces(doc), tail);
        Associates([open], Pieces(doc), tail);
        var q := ReadBefore(resolve, outer, [open] + (Pieces(doc) + tail));
        ParseSkipsNothing(resolve, open, Pieces(doc) + tail, q);
        var begun := Progress(q.items + [BlockItem(each, resolve(name).value, 0)], q.stack + [Frame(name, |q.items|)]);
        ParsesDoc(resolve, doc, tail, begun);
        p := With(begun, Compile(resolve, doc, |begun.items|));
    }
  }

  /** A refused piece fails the parse with its own error, whatever comes behind it. */
  lemma PieceRefused<T>(resolve: string -> Option<T>, before: Before, piece: Piece, rest: seq<Piece>)
    requires IsLegal(resolve, before) && Refusal(resolve, before, piece).Some?
    ensures ParsePieces(resolve, BeforePieces(before) + ([piece] + rest), Progress([], []))
         == Err(Refusal(resolve, before, piece).value)
  {
    var p := ReadBefore(resolve, before, [piece] + rest);
    ParseSkipsNothing(resolve, piece, rest, p);
  }

  /** A template that ends inside a block is refused for that block. */
  lemma EndRefused<T>(resolve: string -> Option<T>, before: Before)
    requires IsLegal(resolve, before) && before.Inner?
    ensures ParsePieces(resolve, BeforePieces(before), Progress([], [])) == Err(UnclosedBlock)
  {
    var p := ReadBefore(resolve, before, []);
    assert BeforePieces(before) + [] == BeforePieces(before);
  }

  /** A tag that is never closed. */
  lemma UnmatchedTag(tag: string)
    requires Find(tag, CLOSING).None?
    ensures Lex("{{" + tag) == [Bad(UnmatchedBraces)]
  {
    hide Find, SplitOnce;
    NothingOpens();
    SplitsAtDouble("", '{', tag);
    assert "" + ['{', '{'] + tag == "{{" + tag;
    assert SplitOnce(tag, CLOSING).None? by { NotSplit(tag, CLOSING); }
  }

  lemma NotSplit(s: string, pattern: string)
    requires Find(s, pattern).None?
    ensures SplitOnce(s, pattern).None?
  {}

  /** A block tag that starts with neither `if` nor `each` and a space. */
  lemma NoKeyword(opening: bool, word: string, rest: string)
    requires Find((if opening then "#" else "/") + word + "}", CLOSING).None?
    requires NoSpaceAtEnd(word) && (word != "" ==> !IsSpace(word[0]))
    requires !("if " <= word) && !("each " <= word)
    ensures Lex("{{" + ((if opening then "#" else "/") + word) + "}}" + rest)
         == [Bad(if opening then InvalidBlockStart else InvalidBlockEnd)] + Lex(rest)
  {
    hide Find, SplitOnce, IsSpace, TrimStart, TrimEnd, Trim;
    var tag := (if opening then "#" else "/") + word;
    var end := tag + "}}" + rest;
    NothingOpens();
    SplitsAtDouble("", '{', end);
    SplitsAtDouble(tag, '}', rest);
    assert "" + ['{', '{'] + end == "{{" + tag + "}}" + rest;
    MarkersAreNoSpace();
    assert word != "" ==> tag[|tag| - 1] == word[|word| - 1];
    TrimNothing(tag);
    TrimNothing(word);
    assert tag[1..] == word;
    assert TextPiece("") + LexTag(end) == LexTag(end);
  }

  // ----- Spaces around a tag ------------------------------------------------------------------

  predicate Spaces(s: string) {
    forall i :: 0 <= i < |s| ==> IsSpace(s[i])
  }

  lemma {:induction false} TrimsFront(before: string, s: string)
    requires Spaces(before) && (s != "" ==> !IsSpace(s[0]))
    ensures TrimStart(before + s) == s
  {
    hide IsSpace;
    if before == "" {
      assert before + s == s;
    } else {
      assert (before + s)[1..] == before[1..] + s;
      TrimsFront(before[1..], s);
    }
  }

  lemma {:induction false} TrimsBack(s: string, after: string)
    requires Spaces(after) && NoSpaceAtEnd(s)
    ensures TrimEnd(s + after) == s
  {
    hide IsSpace;
    if after == "" {
      assert s + after == s;
    } else {
      var n := |after| - 1;
      assert (s + after)[..|s + after| - 1] == s + after[..n];
      TrimsBack(s, after[..n]);
    }
  }

  /** Spaces around the content of a tag, of any of the 25 kinds, do not count. */
  lemma SpacesDropped(before: string, tag: string, after: string)
    requires forall c :: c in before + after ==> c as int in SPACES
    requires tag != "" && tag[0] as int !in SPACES && tag[|tag| - 1] as int !in SPACES
    ensures Classify(Trim(before + tag + after)) == Classify(Trim(tag))
  {
    hide Classify;
    SpaceCodes();
    forall c | c in before || c in after
      ensures IsSpace(c)
    {
      assert c in before + after;
    }
    hide IsSpace;
    TrimsFront(before, tag + after);
    Associates(before, tag, after);
    TrimsBack(tag, after);
    TrimNothing(tag);
  }

  const SPACES: set<int> :=
    {0x09, 0x0A, 0x0B, 0x0C, 0x0D, 0x20, 0x85, 0xA0, 0x1680, 0x2000, 0x2001, 0x2002, 0x2003, 0x2004, 0x2005, 0x2006,
     0x2007, 0x2008, 0x2009, 0x200A, 0x2028, 0x2029, 0x202F, 0x205F, 0x3000}

  lemma SpaceCodes()
    ensures forall c: char :: IsSpace(c) <==> c as int in SPACES
  {}
}
