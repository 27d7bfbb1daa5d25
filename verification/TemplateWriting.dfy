/** Writing a document as template text, and reading it back. */
module TemplateWriting {
  import opened Common
  import opened Template
  import opened TemplateMeaning
  import opened TemplateRendering

  // ----- Writing ------------------------------------------------------------------------------

  function KeywordText(each: bool): string { if each then "each " else "if " }

  /** What stands between the braces of a tag. */
  function TagText(piece: Piece): string
    requires !piece.Text? && !piece.Bad?
  {
    match piece
    case Value(name, escape) => if escape then name else "!" + name
    case Open(each, name) => "#" + KeywordText(each) + name
    case Close(each, name) => "/" + KeywordText(each) + name
  }

  function WritePiece(piece: Piece): string
    requires !piece.Bad?
  {
    if piece.Text? then piece.text else OPENING + TagText(piece) + CLOSING
  }

  function WritePieces(pieces: seq<Piece>): string
    requires Writable(pieces)
  {
    if pieces == [] then "" else WritePiece(pieces[0]) + WritePieces(pieces[1..])
  }

  function Write(doc: Doc): string
    requires Writable(Pieces(doc))
  {
    WritePieces(Pieces(doc))
  }

  // ----- What can be written ------------------------------------------------------------------

  predicate NoSpaceAtEnd(s: string) { s == "" || !IsSpace(s[|s| - 1]) }

  /** A tag that is read as itself: no spaces to trim, no marker in front of a plain value, no early closing. */
  predicate LegalTag(piece: Piece) {
    && !piece.Text? && !piece.Bad?
    && Find(TagText(piece) + "}", CLOSING).None?
    && NoSpaceAtEnd(piece.name)
    && match piece
       case Value(name, escape) =>
         escape && name != "" ==> !IsSpace(name[0]) && name[0] != '#' && name[0] != '/' && name[0] != '!'
       case _ => piece.name != ""
  }

  /** Text is not empty, is followed by a tag or nothing, and does not open a tag. */
  predicate LegalText(text: string, rest: seq<Piece>) {
    && text != "" && (rest != [] ==> !rest[0].Text?)
    && Find(if rest == [] then text else text + "{", OPENING).None?
  }

  predicate Writable(pieces: seq<Piece>) {
    pieces == []
    || ((if pieces[0].Text? then LegalText(pieces[0].text, pieces[1..]) else LegalTag(pieces[0])) && Writable(pieces[1..]))
  }

  // ----- Reading back -------------------------------------------------------------------------

  /** A doubled character is found where it was written, unless it begins earlier. */
  lemma FirstDouble(before: string, c: char, after: string)
    requires Find(before + [c], [c, c]).None?
    ensures Find(before + [c, c] + after, [c, c]) == Some(|before|)
  {
    var s := before + [c, c] + after;
    assert s[|before|..] == [c, c] + after;
    forall i | 0 <= i < |before|
      ensures !([c, c] <= s[i..])
    {
      assert !([c, c] <= (before + [c])[i..]);
      assert s[i..][..2] == (before + [c])[i..][..2];
    }
  }

  lemma SplitsAtDouble(before: string, c: char, after: string)
    requires Find(before + [c], [c, c]).None?
    ensures SplitOnce(before + [c, c] + after, [c, c]) == Some((before, after))
  {
    hide Find;
    var s := before + [c, c] + after;
    FirstDouble(before, c, after);
    assert s[..|before|] == before && s[|before| + 2..] == after;
  }

  lemma TrimNothing(s: string)
    requires NoSpaceAtEnd(s) && (s != "" ==> !IsSpace(s[0]))
    ensures Trim(s) == s
  {}

  lemma ClassifiesTag(piece: Piece)
    requires LegalTag(piece)
    ensures Classify(Trim(TagText(piece))) == piece
  {
    hide Find, IsSpace, TrimStart, TrimEnd, Trim;
    var tag := TagText(piece);
    MarkersAreNoSpace();
    TrimNothing(tag);
    if !piece.Value? {
      var keyword := KeywordText(piece.each) + piece.name;
      assert tag[1..] == keyword;
      TrimNothing(keyword);
      assert keyword[|KeywordText(piece.each)|..] == piece.name;
      assert !piece.each ==> keyword[0] == 'i';
    } else if !piece.escape {
      assert tag[1..] == piece.name;
    }
  }

  lemma MarkersAreNoSpace()
    ensures !IsSpace('#') && !IsSpace('/') && !IsSpace('!') && !IsSpace('e') && !IsSpace('i')
  {}

  /** A text and a tag behind it are read as such. */
  lemma LexReadsTag(text: string, piece: Piece, rest: string)
    requires LegalTag(piece) && Find(text + "{", OPENING).None?
    ensures Lex(text + WritePiece(piece) + rest) == TextPiece(text) + [piece] + Lex(rest)
  {
    hide Find, SplitOnce, Classify, Trim, TagText;
    var tag := TagText(piece);
    var end := tag + CLOSING + rest;
    assert text + WritePiece(piece) + rest == text + OPENING + end;
    SplitsAtDouble(text, '{', end);
    SplitsAtDouble(tag, '}', rest);
    ClassifiesTag(piece);
    Associates(TextPiece(text), [piece], Lex(rest));
  }

  /** Lexing undoes writing. */
  lemma {:induction false} LexReadsPieces(pieces: seq<Piece>)
    requires Writable(pieces)
    ensures Lex(WritePieces(pieces)) == pieces
    decreases |pieces|
  {
    hide Lex, WritePiece, TagText, Find, IsSpace;
    if pieces == [] {
      LexPlain("");
    } else if !pieces[0].Text? {
      LexReadsPieces(pieces[1..]);
      NothingOpens();
      LexReadsTag("", pieces[0], WritePieces(pieces[1..]));
      assert "" + WritePiece(pieces[0]) == WritePiece(pieces[0]);
    } else if |pieces| == 1 {
      assert pieces[0].text + "" == pieces[0].text;
      assert WritePieces(pieces) == pieces[0].text by {
        TextIsWritten(pieces[0]);
      }
      LexPlain(pieces[0].text);
    } else {
      var text, tag, rest := pieces[0].text, pieces[1], pieces[2..];
      assert pieces[1..][1..] == rest && pieces == [pieces[0]] + [tag] + rest;
      LexReadsPieces(rest);
      TextIsWritten(pieces[0]);
      LexReadsTag(text, tag, WritePieces(rest));
      Associates(text, WritePiece(tag), WritePieces(rest));
      assert WritePieces(pieces) == text + (WritePiece(tag) + WritePieces(rest));
    }
  }

  lemma TextIsWritten(piece: Piece)
    requires piece.Text?
    ensures WritePiece(piece) == piece.text
  {}

  lemma NothingOpens()
    ensures Find("" + "{", OPENING).None?
  {}

  lemma LexPlain(text: string)
    requires Find(text, OPENING).None?
    ensures Lex(text) == TextPiece(text)
  {}

  // ----- Theorem ------------------------------------------------------------------------------

  /**
   Every well-nested document that can be written is parsed back from its text: the parser compiles it, and
   running the compiled program renders it.
   */
  lemma WrittenTextRenders<T>(resolve: string -> Option<T>, doc: Doc, bindings: map<T, Binding<T>>)
    requires Resolves(resolve, doc) && Nested(doc, true) && Writable(Pieces(doc))
    ensures var items := Compile(resolve, doc, 0);
            && ParseText(resolve, Write(doc)) == Ok(items)
            && Jumps(items)
            && RunFrom(items, 0, bindings) == Render(resolve, doc, bindings)
  {
    LexReadsPieces(Pieces(doc));
    WrittenDocParses(resolve, doc);
    CompiledRenders(resolve, doc, bindings);
  }
}
