/**
 What a template means.

 `Doc` is the tree a template text denotes, read by recursive descent (`Tree`).  The theorems say that
 the one-pass stack parser accepts exactly the texts that have a tree, that it compiles the tree, and
 that the flat jump program renders the tree.
 */
module TemplateMeaning {
  import opened Common
  import opened Template

  /** A sequence of nodes.  A `Stray` is a closing tag met outside every block, which the parser skips. */
  datatype Doc =
    | End
    | TextNode(text: string, rest: Doc)
    | ValueNode(name: string, escape: bool, rest: Doc)
    | BlockNode(each: bool, name: string, body: Doc, rest: Doc)
    | Stray(each: bool, name: string, rest: Doc)

  /** The pieces a document is written as. */
  function Pieces(doc: Doc): seq<Piece> {
    match doc
    case End => []
    case TextNode(text, rest) => [Text(text)] + Pieces(rest)
    case ValueNode(name, escape, rest) => [Value(name, escape)] + Pieces(rest)
    case BlockNode(each, name, body, rest) => [Open(each, name)] + (Pieces(body) + ([Close(each, name)] + Pieces(rest)))
    case Stray(each, name, rest) => [Close(each, name)] + Pieces(rest)
  }

  /** Every variable and block name resolves. */
  predicate Resolves<T>(resolve: string -> Option<T>, doc: Doc) {
    match doc
    case End => true
    case TextNode(_, rest) => Resolves(resolve, rest)
    case ValueNode(name, _, rest) => resolve(name).Some? && Resolves(resolve, rest)
    case BlockNode(_, name, body, rest) => resolve(name).Some? && Resolves(resolve, body) && Resolves(resolve, rest)
    case Stray(_, _, rest) => Resolves(resolve, rest)
  }

  /** Stray closing tags occur at top level only, and not even there unless `top`. */
  predicate Nested(doc: Doc, top: bool) {
    match doc
    case End => true
    case TextNode(_, rest) => Nested(rest, top)
    case ValueNode(_, _, rest) => Nested(rest, top)
    case BlockNode(_, _, body, rest) => Nested(body, false) && Nested(rest, top)
    case Stray(_, _, rest) => top && Nested(rest, top)
  }

  /** The flat items of a document whose first item gets index `base`. */
  function Compile<T>(resolve: string -> Option<T>, doc: Doc, base: nat): seq<Item<T>>
    requires Resolves(resolve, doc)
  {
    match doc
    case End => []
    case TextNode(text, rest) => [Static(text)] + Compile(resolve, rest, base + 1)
    case ValueNode(name, escape, rest) => [Variable(resolve(name).value, escape)] + Compile(resolve, rest, base + 1)
    case BlockNode(each, name, body, rest) =>
      var inner := Compile(resolve, body, base + 1);
      var end := base + 1 + |inner|;
      [BlockItem(each, resolve(name).value, end)] + (inner + Compile(resolve, rest, end))
    case Stray(_, _, rest) => Compile(resolve, rest, base)
  }

  // ----- The stack parser compiles the tree ---------------------------------------------------

  predicate Inside<T>(p: Progress<T>) { FramesInside(p.items, p.stack) }

  function With<T>(p: Progress<T>, items: seq<Item<T>>): (p': Progress<T>)
    requires Inside(p)
    ensures Inside(p')
  {
    p.(items := p.items + items)
  }

  /** Parsing the pieces of a document appends its compiled items and leaves the stack alone. */
  lemma {:induction false} ParsesDoc<T>(resolve: string -> Option<T>, doc: Doc, tail: seq<Piece>, p: Progress<T>)
    requires Inside(p) && Resolves(resolve, doc) && Nested(doc, p.stack == [])
    ensures ParsePieces(resolve, Pieces(doc) + tail, p)
         == ParsePieces(resolve, tail, With(p, Compile(resolve, doc, |p.items|)))
    decreases doc, 0
  {
    hide ParsePieces;
    match doc
    case End =>
      assert Pieces(doc) + tail == tail;
      assert p.items + [] == p.items;
    case TextNode(text, rest) =>
      Associates([Text(text)], Pieces(rest), tail);
      ParseSkipsNothing(resolve, Text(text), Pieces(rest) + tail, p);
      ParsesDoc(resolve, rest, tail, With(p, [Static(text)]));
      Associates(p.items, [Static(text)], Compile(resolve, rest, |p.items| + 1));
    case ValueNode(name, escape, rest) =>
      var item := Variable(resolve(name).value, escape);
      Associates([Value(name, escape)], Pieces(rest), tail);
      ParseSkipsNothing(resolve, Value(name, escape), Pieces(rest) + tail, p);
      ParsesDoc(resolve, rest, tail, With(p, [item]));
      Associates(p.items, [item], Compile(resolve, rest, |p.items| + 1));
    case BlockNode(each, name, body, rest) =>
      var inner := Compile(resolve, body, |p.items| + 1);
      var end := |p.items| + 1 + |inner|;
      var item := BlockItem(each, resolve(name).value, end);
      ParsesBlock(resolve, doc, tail, p);
      ParsesDoc(resolve, rest, tail, With(p, [item] + inner));
      Associates([item], inner, Compile(resolve, rest, end));
      Associates(p.items, [item] + inner, Compile(resolve, rest, end));
    case Stray(each, name, rest) =>
      Associates([Close(each, name)], Pieces(rest), tail);
      ParseSkipsNothing(resolve, Close(each, name), Pieces(rest) + tail, p);
      ParsesDoc(resolve, rest, tail, p);
  }

  lemma Patched<T>(items: seq<T>, old': T, more: seq<T>, new': T)
    ensures (items + [old'] + more)[|items| := new'] == items + ([new'] + more)
  {}

  /** Opening tag, body and closing tag of the block `doc` starts with. */
  lemma {:induction false} ParsesBlock<T>(resolve: string -> Option<T>, doc: Doc, tail: seq<Piece>, p: Progress<T>)
    requires Inside(p) && doc.BlockNode? && Resolves(resolve, doc) && Nested(doc.body, false)
    ensures var inner := Compile(resolve, doc.body, |p.items| + 1);
            var item := BlockItem(doc.each, resolve(doc.name).value, |p.items| + 1 + |inner|);
            ParsePieces(resolve, Pieces(doc) + tail, p)
              == ParsePieces(resolve, Pieces(doc.rest) + tail, With(p, [item] + inner))
    decreases doc.body, 1
  {
    hide ParsePieces;
    var variable, open, close := resolve(doc.name).value, Open(doc.each, doc.name), Close(doc.each, doc.name);
    var after := [close] + (Pieces(doc.rest) + tail);
    Associates([close], Pieces(doc.rest), tail);
    Associates(Pieces(doc.body), [close] + Pieces(doc.rest), tail);
    Associates([open], Pieces(doc.body) + ([close] + Pieces(doc.rest)), tail);
    ParseSkipsNothing(resolve, open, Pieces(doc.body) + after, p);
    var begun := Progress(p.items + [BlockItem(doc.each, variable, 0)], p.stack + [Frame(doc.name, |p.items|)]);
    ParsesDoc(resolve, doc.body, after, begun);
    var inner := Compile(resolve, doc.body, |p.items| + 1);
    var filled := With(begun, inner);
    ParseSkipsNothing(resolve, close, Pieces(doc.rest) + tail, filled);
    var item := BlockItem(doc.each, variable, |p.items| + 1 + |inner|);
    Patched(p.items, BlockItem(doc.each, variable, 0), inner, item);
    assert filled.stack[..|filled.stack| - 1] == p.stack;
  }

  // ----- Recursive descent --------------------------------------------------------------------

  datatype Grabbed = Grabbed(doc: Doc, rest: seq<Piece>)

  /** The longest run of whole nodes at the front of `pieces`. */
  function Grab<T>(resolve: string -> Option<T>, pieces: seq<Piece>): (g: Grabbed)
    ensures |g.rest| <= |pieces|
    decreases |pieces|
  {
    if pieces == [] then Grabbed(End, [])
    else
      match pieces[0]
      case Text(text) =>
        var g := Grab(resolve, pieces[1..]);
        g.(doc := TextNode(text, g.doc))
      case Value(name, escape) =>
        if resolve(name).None? then Grabbed(End, pieces)
        else
          var g := Grab(resolve, pieces[1..]);
          g.(doc := ValueNode(name, escape, g.doc))
      case Open(each, name) =>
        var body := Grab(resolve, pieces[1..]);
        if resolve(name).Some? && body.rest != [] && body.rest[0] == Close(each, name) then
          var g := Grab(resolve, body.rest[1..]);
          g.(doc := BlockNode(each, name, body.doc, g.doc))
        else Grabbed(End, pieces)
      case _ => Grabbed(End, pieces)
  }

  function Append(a: Doc, b: Doc): Doc {
    match a
    case End => b
    case TextNode(text, rest) => TextNode(text, Append(rest, b))
    case ValueNode(name, escape, rest) => ValueNode(name, escape, Append(rest, b))
    case BlockNode(each, name, body, rest) => BlockNode(each, name, body, Append(rest, b))
    case Stray(each, name, rest) => Stray(each, name, Append(rest, b))
  }

  /** The tree of a piece sequence, if it has one: closing tags between top-level nodes are strays. */
  function Tree<T>(resolve: string -> Option<T>, pieces: seq<Piece>): Option<Doc>
    decreases |pieces|
  {
    var g := Grab(resolve, pieces);
    if g.rest == [] then Some(g.doc)
    else if g.rest[0].Close? then
      match Tree(resolve, g.rest[1..])
      case None => None
      case Some(doc) => Some(Append(g.doc, Stray(g.rest[0].each, g.rest[0].name, doc)))
    else None
  }

  lemma BlockText(open: seq<Piece>, body: seq<Piece>, close: seq<Piece>, more: seq<Piece>, rest: seq<Piece>)
    ensures open + (body + (close + more)) + rest == open + (body + (close + (more + rest)))
  {
    Associates(close, more, rest);
    Associates(body, close + more, rest);
    Associates(open, body + (close + more), rest);
  }

  lemma {:induction false} GrabIsLegal<T>(resolve: string -> Option<T>, pieces: seq<Piece>)
    ensures var g := Grab(resolve, pieces);
            Resolves(resolve, g.doc) && Nested(g.doc, false)
    decreases |pieces|
  {
    if pieces == [] {
    } else {
      var g := Grab(resolve, pieces[1..]);
      GrabIsLegal(resolve, pieces[1..]);
      if g.rest != [] {
        GrabIsLegal(resolve, g.rest[1..]);
      }
    }
  }

  lemma GrabUnfolds<T>(resolve: string -> Option<T>, pieces: seq<Piece>)
    ensures pieces == [] || pieces[0].Close? || pieces[0].Bad? ==> Grab(resolve, pieces) == Grabbed(End, pieces)
    ensures pieces != [] && pieces[0].Text? ==>
              var g := Grab(resolve, pieces[1..]);
              Grab(resolve, pieces) == g.(doc := TextNode(pieces[0].text, g.doc))
    ensures pieces != [] && pieces[0].Value? ==>
              var g := Grab(resolve, pieces[1..]);
              Grab(resolve, pieces) == if resolve(pieces[0].name).None? then Grabbed(End, pieces)
                                       else g.(doc := ValueNode(pieces[0].name, pieces[0].escape, g.doc))
    ensures pieces != [] && pieces[0].Open? ==>
              var g, each, name := Grab(resolve, pieces[1..]), pieces[0].each, pieces[0].name;
              Grab(resolve, pieces) == if resolve(name).Some? && g.rest != [] && g.rest[0] == Close(each, name) then
                                         var more := Grab(resolve, g.rest[1..]);
                                         more.(doc := BlockNode(each, name, g.doc, more.doc))
                                       else Grabbed(End, pieces)
  {}

  lemma BlockKeepsPieces(each: bool, name: string, body: Grabbed, more: Grabbed, tail: seq<Piece>)
    requires Pieces(body.doc) + body.rest == tail && body.rest != [] && body.rest[0] == Close(each, name)
    requires Pieces(more.doc) + more.rest == body.rest[1..]
    ensures Pieces(BlockNode(each, name, body.doc, more.doc)) + more.rest == [Open(each, name)] + tail
  {
    var close := [Close(each, name)];
    assert body.rest == close + body.rest[1..];
    BlockText([Open(each, name)], Pieces(body.doc), close, Pieces(more.doc), more.rest);
  }

  /** The descent loses no piece. */
  lemma {:induction false} GrabKeepsPieces<T>(resolve: string -> Option<T>, pieces: seq<Piece>)
    ensures var g := Grab(resolve, pieces);
            Pieces(g.doc) + g.rest == pieces
    decreases |pieces|
  {
    hide Grab;
    GrabUnfolds(resolve, pieces);
    if pieces == [] {
    } else {
      var tail := pieces[1..];
      assert pieces == [pieces[0]] + tail;
      GrabKeepsPieces(resolve, tail);
      var g := Grab(resolve, tail);
      match pieces[0]
      case Text(_) => Associates([pieces[0]], Pieces(g.doc), g.rest);
      case Value(_, _) => Associates([pieces[0]], Pieces(g.doc), g.rest);
      case Open(each, name) =>
        if resolve(name).Some? && g.rest != [] && g.rest[0] == Close(each, name) {
          GrabKeepsPieces(resolve, g.rest[1..]);
          BlockKeepsPieces(each, name, g, Grab(resolve, g.rest[1..]), tail);
        }
      case _ =>
    }
  }

  /** The descent loses no piece and finds a well-nested document. */
  lemma GrabSound<T>(resolve: string -> Option<T>, pieces: seq<Piece>)
    ensures var g := Grab(resolve, pieces);
            Pieces(g.doc) + g.rest == pieces && Resolves(resolve, g.doc) && Nested(g.doc, false)
  {
    hide *;
    GrabIsLegal(resolve, pieces);
    GrabKeepsPieces(resolve, pieces);
  }

  /** Where the descent stops short of a closing tag, the stack parser fails, whatever it has read so far. */
  lemma {:induction false} StuckFails<T>(resolve: string -> Option<T>, pieces: seq<Piece>, p: Progress<T>)
    requires Inside(p)
    requires var rest := Grab(resolve, pieces).rest; rest != [] && !rest[0].Close?
    ensures ParsePieces(resolve, Grab(resolve, pieces).rest, p).Err?
    decreases |pieces|
  {
    var tail := pieces[1..];
    match pieces[0]
    case Text(_) => StuckFails(resolve, tail, p);
    case Value(name, _) =>
      if resolve(name).Some? {
        StuckFails(resolve, tail, p);
      }
    case Open(each, name) =>
      if resolve(name).Some? {
        var body := Grab(resolve, tail);
        if body.rest != [] && body.rest[0] == Close(each, name) {
          StuckFails(resolve, body.rest[1..], p);
        } else {
          UnclosedFails(resolve, pieces, p);
        }
      }
    case _ =>
  }

  lemma {:induction false} UnclosedFails<T>(resolve: string -> Option<T>, pieces: seq<Piece>, p: Progress<T>)
    requires Inside(p) && pieces != [] && pieces[0].Open? && resolve(pieces[0].name).Some?
    requires var rest := Grab(resolve, pieces[1..]).rest; rest == [] || rest[0] != Close(pieces[0].each, pieces[0].name)
    ensures ParsePieces(resolve, pieces, p).Err?
    decreases |pieces|, 0
  {
    var name, each, tail := pieces[0].name, pieces[0].each, pieces[1..];
    var body := Grab(resolve, tail);
    var begun := Progress(p.items + [BlockItem(each, resolve(name).value, 0)], p.stack + [Frame(name, |p.items|)]);
    GrabSound(resolve, tail);
    ParsesDoc(resolve, body.doc, body.rest, begun);
    var filled := With(begun, Compile(resolve, body.doc, |begun.items|));
    assert ParsePieces(resolve, pieces, p) == ParsePieces(resolve, body.rest, filled);
    if body.rest != [] && !body.rest[0].Close? {
      StuckFails(resolve, tail, filled);
    }
  }

  lemma {:induction false} AppendParts<T>(resolve: string -> Option<T>, a: Doc, b: Doc)
    requires Resolves(resolve, a) && Nested(a, false) && Resolves(resolve, b) && Nested(b, true)
    ensures Pieces(Append(a, b)) == Pieces(a) + Pieces(b)
    ensures Resolves(resolve, Append(a, b)) && Nested(Append(a, b), true)
    decreases a
  {
    match a
    case End =>
    case TextNode(text, rest) =>
      AppendParts(resolve, rest, b);
      Associates([Text(text)], Pieces(rest), Pieces(b));
    case ValueNode(name, escape, rest) =>
      AppendParts(resolve, rest, b);
      Associates([Value(name, escape)], Pieces(rest), Pieces(b));
    case BlockNode(each, name, body, rest) =>
      AppendParts(resolve, rest, b);
      var close := [Close(each, name)];
      Associates(close, Pieces(rest), Pieces(b));
      Associates(Pieces(body), close + Pieces(rest), Pieces(b));
      Associates([Open(each, name)], Pieces(body) + (close + Pieces(rest)), Pieces(b));
    case Stray(_, _, rest) =>
  }

  /** The tree of a piece sequence is written as exactly those pieces. */
  lemma {:induction false} TreeSound<T>(resolve: string -> Option<T>, pieces: seq<Piece>)
    ensures var tree := Tree(resolve, pieces);
            tree.Some? ==> Pieces(tree.value) == pieces && Resolves(resolve, tree.value) && Nested(tree.value, true)
    decreases |pieces|
  {
    hide Grab, Append;
    var g := Grab(resolve, pieces);
    GrabSound(resolve, pieces);
    if g.rest == [] {
      NestedAtTop(g.doc);
    } else if g.rest[0].Close? && Tree(resolve, g.rest[1..]).Some? {
      TreeSound(resolve, g.rest[1..]);
      var more := Tree(resolve, g.rest[1..]).value;
      AppendParts(resolve, g.doc, Stray(g.rest[0].each, g.rest[0].name, more));
      assert g.rest == [g.rest[0]] + g.rest[1..];
      Associates(Pieces(g.doc), [g.rest[0]], g.rest[1..]);
    }
  }

  lemma {:induction false} NestedAtTop(doc: Doc)
    requires Nested(doc, false)
    ensures Nested(doc, true)
  {
    match doc
    case End =>
    case TextNode(_, rest) => NestedAtTop(rest);
    case ValueNode(_, _, rest) => NestedAtTop(rest);
    case BlockNode(_, _, _, rest) => NestedAtTop(rest);
    case Stray(_, _, _) =>
  }

  /** Without a tree the parser fails. */
  lemma {:induction false} ParseNeedsTree<T>(resolve: string -> Option<T>, pieces: seq<Piece>, items: seq<Item<T>>)
    requires ParsePieces(resolve, pieces, Progress(items, [])).Ok?
    ensures Tree(resolve, pieces).Some?
    decreases |pieces|
  {
    var g := Grab(resolve, pieces);
    if g.rest == [] {
    } else {
      var p := Progress(items, []);
      GrabSound(resolve, pieces);
      NestedAtTop(g.doc);
      ParsesDoc(resolve, g.doc, g.rest, p);
      var next := With(p, Compile(resolve, g.doc, |items|));
      if g.rest[0].Close? {
        ParseNeedsTree(resolve, g.rest[1..], next.items);
      } else {
        StuckFails(resolve, pieces, next);
      }
    }
  }

  /**
   The stack parser accepts exactly the texts that have a tree, and returns that tree compiled.
   */
  lemma ParseCompilesTree<T>(resolve: string -> Option<T>, text: string)
    ensures var tree := Tree(resolve, Lex(text));
            && (ParseText(resolve, text).Ok? <==> tree.Some?)
            && (tree.Some? ==> Resolves(resolve, tree.value)
                               && ParseText(resolve, text) == Ok(Compile(resolve, tree.value, 0)))
  {
    var pieces := Lex(text);
    TreeSound(resolve, pieces);
    if ParseText(resolve, text).Ok? {
      ParseNeedsTree(resolve, pieces, []);
    }
    if Tree(resolve, pieces).Some? {
      var doc := Tree(resolve, pieces).value;
      ParsesDoc(resolve, doc, [], Progress([], []));
      assert pieces + [] == pieces;
      assert [] + Compile(resolve, doc, 0) == Compile(resolve, doc, 0);
    }
  }

  /** Conversely every well-nested document parses, and to its own compilation. */
  lemma WrittenDocParses<T>(resolve: string -> Option<T>, doc: Doc)
    requires Resolves(resolve, doc) && Nested(doc, true)
    ensures ParsePieces(resolve, Pieces(doc), Progress([], [])) == Ok(Compile(resolve, doc, 0))
  {
    ParsesDoc(resolve, doc, [], Progress([], []));
    assert Pieces(doc) + [] == Pieces(doc);
    assert [] + Compile(resolve, doc, 0) == Compile(resolve, doc, 0);
  }
}
