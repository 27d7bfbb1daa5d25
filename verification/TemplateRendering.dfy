/** The flat jump program renders the tree it was compiled from. */
module TemplateRendering {
  import opened Common
  import opened Template
  import opened TemplateMeaning

  // ----- Tree semantics -----------------------------------------------------------------------

  /** `{{name}}` is escaped, `{{!name}}` is inserted as it is. */
  function Inserted(escape: bool, value: string): string {
    if escape then Escaped(value) else value
  }

  /**
   Inside an `each`, values come from one entry.  An `each` nested there is not repeated: its body is
   rendered inline, once.
   */
  function RenderEntry<T(==)>(resolve: string -> Option<T>, doc: Doc, entry: map<T, string>): string
    requires Resolves(resolve, doc)
  {
    match doc
    case End => ""
    case TextNode(text, rest) => text + RenderEntry(resolve, rest, entry)
    case ValueNode(name, escape, rest) =>
      var key := resolve(name).value;
      (if key in entry then Inserted(escape, entry[key]) else "") + RenderEntry(resolve, rest, entry)
    case BlockNode(each, name, body, rest) =>
      (if each || resolve(name).value in entry then RenderEntry(resolve, body, entry) else "")
      + RenderEntry(resolve, rest, entry)
    case Stray(_, _, rest) => RenderEntry(resolve, rest, entry)
  }

  function RenderEntries<T(==)>(resolve: string -> Option<T>, doc: Doc, entries: seq<map<T, string>>): string
    requires Resolves(resolve, doc)
  {
    if entries == [] then ""
    else RenderEntry(resolve, doc, entries[0]) + RenderEntries(resolve, doc, entries[1..])
  }

  /** At top level an `if` tests whether its key is bound; an `each` renders its body once per entry. */
  function Render<T(==)>(resolve: string -> Option<T>, doc: Doc, bindings: map<T, Binding<T>>): string
    requires Resolves(resolve, doc)
  {
    match doc
    case End => ""
    case TextNode(text, rest) => text + Render(resolve, rest, bindings)
    case ValueNode(name, escape, rest) =>
      var key := resolve(name).value;
      (if key in bindings && bindings[key].Single? then Inserted(escape, bindings[key].value) else "")
      + Render(resolve, rest, bindings)
    case BlockNode(each, name, body, rest) =>
      var key := resolve(name).value;
      (if key !in bindings then ""
       else if !each then Render(resolve, body, bindings)
       else if bindings[key].Block? then RenderEntries(resolve, body, bindings[key].entries)
       else "")
      + Render(resolve, rest, bindings)
    case Stray(_, _, rest) => Render(resolve, rest, bindings)
  }

  // ----- Jump targets -------------------------------------------------------------------------

  /** Jump targets of items that start at index `base` lie ahead and inside, nested or disjoint. */
  predicate JumpsAt<T>(items: seq<Item<T>>, base: nat) {
    && (forall i :: 0 <= i < |items| && items[i].IsBlock() ==> base + i < items[i].blockEnd <= base + |items|)
    && (forall i, j :: 0 <= i < j < |items| && items[i].IsBlock() && items[j].IsBlock() && base + j < items[i].blockEnd
                       ==> items[j].blockEnd <= items[i].blockEnd)
  }

  lemma JumpsConcat<T>(a: seq<Item<T>>, b: seq<Item<T>>, base: nat)
    requires JumpsAt(a, base) && JumpsAt(b, base + |a|)
    ensures JumpsAt(a + b, base)
  {
    var c := a + b;
    forall i | 0 <= i < |c| && c[i].IsBlock()
      ensures base + i < c[i].blockEnd <= base + |c| && (i < |a| ==> c[i].blockEnd <= base + |a|)
    {
      assert i >= |a| ==> c[i] == b[i - |a|];
    }
    forall i, j | 0 <= i < j < |c| && c[i].IsBlock() && c[j].IsBlock() && base + j < c[i].blockEnd
      ensures c[j].blockEnd <= c[i].blockEnd
    {
      if i >= |a| {
        assert c[i] == b[i - |a|] && c[j] == b[j - |a|];
      } else {
        assert c[i] == a[i] && j < |a|;
      }
    }
  }

  lemma JumpsBlock<T>(item: Item<T>, inner: seq<Item<T>>, base: nat)
    requires JumpsAt(inner, base + 1)
    requires item.IsBlock() && item.blockEnd == base + 1 + |inner|
    ensures JumpsAt([item] + inner, base)
  {
    var c := [item] + inner;
    forall i | 0 < i < |c|
      ensures c[i] == inner[i - 1]
    {
    }
    forall i | 0 <= i < |c| && c[i].IsBlock()
      ensures base + i < c[i].blockEnd <= base + |c|
    {
      assert i > 0 ==> c[i] == inner[i - 1];
    }
    forall i, j | 0 <= i < j < |c| && c[i].IsBlock() && c[j].IsBlock() && base + j < c[i].blockEnd
      ensures c[j].blockEnd <= c[i].blockEnd
    {
      assert c[j] == inner[j - 1];
      assert i > 0 ==> c[i] == inner[i - 1];
    }
  }

  /** Every slice the evaluator takes is in range. */
  lemma {:induction false} CompiledJumps<T>(resolve: string -> Option<T>, doc: Doc, base: nat)
    requires Resolves(resolve, doc)
    ensures JumpsAt(Compile(resolve, doc, base), base)
    decreases doc
  {
    match doc
    case End =>
    case TextNode(text, rest) =>
      CompiledJumps(resolve, rest, base + 1);
      JumpsConcat([Static(text)], Compile(resolve, rest, base + 1), base);
    case ValueNode(name, escape, rest) =>
      CompiledJumps(resolve, rest, base + 1);
      JumpsConcat([Variable(resolve(name).value, escape)], Compile(resolve, rest, base + 1), base);
    case BlockNode(each, name, body, rest) =>
      var inner := Compile(resolve, body, base + 1);
      var end := base + 1 + |inner|;
      var item := BlockItem(each, resolve(name).value, end);
      CompiledJumps(resolve, body, base + 1);
      CompiledJumps(resolve, rest, end);
      JumpsBlock(item, inner, base);
      JumpsConcat([item] + inner, Compile(resolve, rest, end), base);
      Associates([item], inner, Compile(resolve, rest, end));
    case Stray(_, _, rest) => CompiledJumps(resolve, rest, base);
  }

  // ----- The program renders the tree ---------------------------------------------------------

  /** `items` holds the compilation of `doc` from index `base` on. */
  ghost predicate Holds<T>(resolve: string -> Option<T>, doc: Doc, items: seq<Item<T>>, base: nat)
    requires Resolves(resolve, doc)
  {
    Matches(items, base, Compile(resolve, doc, base))
  }

  ghost predicate Matches<A>(items: seq<A>, base: nat, code: seq<A>) {
    base + |code| <= |items| && forall k :: 0 <= k < |code| ==> items[base + k] == code[k]
  }

  lemma MatchesConcat<A>(items: seq<A>, base: nat, a: seq<A>, b: seq<A>)
    requires Matches(items, base, a + b)
    ensures Matches(items, base, a) && Matches(items, base + |a|, b)
    ensures a != [] ==> items[base] == a[0]
  {
    forall k | 0 <= k < |a|
      ensures items[base + k] == a[k]
    {
      assert (a + b)[k] == a[k];
    }
    forall k | 0 <= k < |b|
      ensures items[base + |a| + k] == b[k]
    {
      assert (a + b)[|a| + k] == b[k];
      assert items[base + (|a| + k)] == b[k];
    }
    if a != [] {
      assert items[base + 0] == a[0];
    }
  }

  /** Index behind the compilation of `doc`. */
  function After<T>(resolve: string -> Option<T>, doc: Doc, base: nat): nat
    requires Resolves(resolve, doc)
  {
    base + |Compile(resolve, doc, base)|
  }

  /** Index of the first item behind the head node. */
  function RestStart<T>(resolve: string -> Option<T>, doc: Doc, base: nat): nat
    requires Resolves(resolve, doc) && !doc.End?
  {
    match doc
    case BlockNode(_, _, body, _) => After(resolve, body, base + 1)
    case Stray(_, _, _) => base
    case _ => base + 1
  }

  /** The head item of a compiled document, and what is compiled behind it. */
  lemma HoldsParts<T>(resolve: string -> Option<T>, doc: Doc, items: seq<Item<T>>, base: nat)
    requires Resolves(resolve, doc) && Holds(resolve, doc, items, base)
    ensures base <= After(resolve, doc, base) <= |items|
    ensures doc.End? ==> After(resolve, doc, base) == base
    ensures doc.TextNode? ==> base < |items| && items[base] == Static(doc.text)
    ensures doc.ValueNode? ==> base < |items| && items[base] == Variable(resolve(doc.name).value, doc.escape)
    ensures doc.BlockNode? ==>
              var end := After(resolve, doc.body, base + 1);
              && base < end <= |items|
              && items[base] == BlockItem(doc.each, resolve(doc.name).value, end)
              && Holds(resolve, doc.body, items, base + 1)
    ensures !doc.End? ==>
              var rest := RestStart(resolve, doc, base);
              && After(resolve, doc, base) == After(resolve, doc.rest, rest)
              && Holds(resolve, doc.rest, items, rest)
  {
    match doc
    case BlockNode(each, name, body, rest) =>
      var inner := Compile(resolve, body, base + 1);
      var end := base + 1 + |inner|;
      var behind := Compile(resolve, rest, end);
      MatchesConcat(items, base, [BlockItem(each, resolve(name).value, end)], inner + behind);
      MatchesConcat(items, base + 1, inner, behind);
    case TextNode(text, rest) =>
      MatchesConcat(items, base, [Static(text)], Compile(resolve, rest, base + 1));
    case ValueNode(name, escape, rest) =>
      MatchesConcat(items, base, [Variable(resolve(name).value, escape)], Compile(resolve, rest, base + 1));
    case _ =>
  }

  /** Inside the block end `hi`, jumps stay inside. */
  predicate JumpsInside<T>(items: seq<Item<T>>, base: nat, hi: nat) {
    base <= hi <= |items| && forall j :: base <= j < hi && items[j].IsBlock() ==> j < items[j].blockEnd <= hi
  }

  lemma {:induction false} EntryRenders<T>(resolve: string -> Option<T>, doc: Doc, items: seq<Item<T>>, base: nat,
                                           hi: nat, entry: map<T, string>)
    requires Resolves(resolve, doc) && Holds(resolve, doc, items, base)
    requires base <= After(resolve, doc, base) <= hi && JumpsInside(items, base, hi)
    ensures InnerFrom(items, base, hi, entry)
         == RenderEntry(resolve, doc, entry) + InnerFrom(items, After(resolve, doc, base), hi, entry)
    decreases doc
  {
    hide Holds, After, Compile, InnerFrom, Escaped;
    HoldsParts(resolve, doc, items, base);
    var tail := InnerFrom(items, After(resolve, doc, base), hi, entry);
    if doc.End? {
      assert "" + tail == tail;
    } else {
      var start := RestStart(resolve, doc, base);
      HoldsParts(resolve, doc.rest, items, start);
      EntryRenders(resolve, doc.rest, items, start, hi, entry);
      var rest := RenderEntry(resolve, doc.rest, entry);
      assert InnerFrom(items, start, hi, entry) == rest + tail;
      if !doc.Stray? {
        InnerStep(items, base, hi, entry);
      }
      match doc
      case TextNode(text, _) => Associates(text, rest, tail);
      case ValueNode(name, escape, _) =>
        var key := resolve(name).value;
        Associates(if key in entry then Inserted(escape, entry[key]) else "", rest, tail);
      case BlockNode(each, name, body, _) =>
        assert items[base].IsBlock();
        EntryRenders(resolve, body, items, base + 1, hi, entry);
        Associates(RenderEntry(resolve, body, entry), rest, tail);
        assert "" + InnerFrom(items, base + 1, hi, entry) == InnerFrom(items, base + 1, hi, entry);
        assert "" + (rest + tail) == rest + tail;
        assert "" + rest == rest;
      case Stray(_, _, _) =>
    }
  }

  lemma {:induction false} EntriesRender<T>(resolve: string -> Option<T>, doc: Doc, items: seq<Item<T>>, base: nat,
                                                entries: seq<map<T, string>>)
    requires Resolves(resolve, doc) && Holds(resolve, doc, items, base)
    requires JumpsInside(items, base, After(resolve, doc, base))
    ensures EachEntry(items, base, After(resolve, doc, base), entries) == RenderEntries(resolve, doc, entries)
  {
    if entries == [] {
    } else {
      EntryRenders(resolve, doc, items, base, After(resolve, doc, base), entries[0]);
      assert RenderEntry(resolve, doc, entries[0]) + "" == RenderEntry(resolve, doc, entries[0]);
      EntriesRender(resolve, doc, items, base, entries[1..]);
    }
  }

  /** A block item emits its entries, or nothing. */
  lemma BlockEmits<T>(resolve: string -> Option<T>, doc: Doc, items: seq<Item<T>>, base: nat,
                      bindings: map<T, Binding<T>>)
    requires doc.BlockNode? && Resolves(resolve, doc) && Holds(resolve, doc, items, base) && Jumps(items)
    requires base < After(resolve, doc, base) <= |items|
    ensures var key := resolve(doc.name).value;
            ItemText(items, base, bindings)
              == if doc.each && key in bindings && bindings[key].Block?
                 then RenderEntries(resolve, doc.body, bindings[key].entries) else ""
  {
    hide Holds, After, Compile, EachEntry, RenderEntries, RenderEntry, InnerFrom;
    HoldsParts(resolve, doc, items, base);
    HoldsParts(resolve, doc.body, items, base + 1);
    var key := resolve(doc.name).value;
    assert items[base].IsBlock();
    if doc.each && key in bindings && bindings[key].Block? {
      EntriesRender(resolve, doc.body, items, base + 1, bindings[key].entries);
    }
  }

  lemma RunStep<T>(items: seq<Item<T>>, pos: nat, bindings: map<T, Binding<T>>)
    requires Jumps(items) && pos < |items|
    ensures RunFrom(items, pos, bindings)
         == ItemText(items, pos, bindings) + RunFrom(items, NextPos(items, pos, bindings), bindings)
  {}

  lemma {:induction false} ProgramRenders<T>(resolve: string -> Option<T>, doc: Doc, items: seq<Item<T>>, base: nat,
                                             bindings: map<T, Binding<T>>)
    requires Resolves(resolve, doc) && Holds(resolve, doc, items, base) && Jumps(items)
    requires base <= After(resolve, doc, base) <= |items|
    ensures RunFrom(items, base, bindings)
         == Render(resolve, doc, bindings) + RunFrom(items, After(resolve, doc, base), bindings)
    decreases doc
  {
    hide Holds, After, Compile, EachEntry, RenderEntries, RenderEntry, InnerFrom, RunFrom, Escaped;
    HoldsParts(resolve, doc, items, base);
    var tail := RunFrom(items, After(resolve, doc, base), bindings);
    if doc.End? {
      assert "" + tail == tail;
    } else {
      var start := RestStart(resolve, doc, base);
      HoldsParts(resolve, doc.rest, items, start);
      ProgramRenders(resolve, doc.rest, items, start, bindings);
      var rest := Render(resolve, doc.rest, bindings);
      assert RunFrom(items, start, bindings) == rest + tail;
      if !doc.Stray? {
        RunStep(items, base, bindings);
      }
      match doc
      case TextNode(text, _) => Associates(text, rest, tail);
      case ValueNode(name, escape, _) => Associates(ItemText(items, base, bindings), rest, tail);
      case BlockNode(each, name, body, _) =>
        BlockEmits(resolve, doc, items, base, bindings);
        hide ItemText, Jumps;
        HoldsParts(resolve, body, items, base + 1);
        if !each && resolve(name).value in bindings {
          ProgramRenders(resolve, body, items, base + 1, bindings);
          Associates(Render(resolve, body, bindings), rest, tail);
          assert "" + RunFrom(items, base + 1, bindings) == RunFrom(items, base + 1, bindings);
        } else {
          Associates(ItemText(items, base, bindings), rest, tail);
        }
      case Stray(_, _, _) =>
    }
  }

  /** A compiled document is a safe jump program that renders the document. */
  lemma CompiledRenders<T>(resolve: string -> Option<T>, doc: Doc, bindings: map<T, Binding<T>>)
    requires Resolves(resolve, doc)
    ensures var items := Compile(resolve, doc, 0);
            Jumps(items) && RunFrom(items, 0, bindings) == Render(resolve, doc, bindings)
  {
    var items := Compile(resolve, doc, 0);
    CompiledJumps(resolve, doc, 0);
    ProgramRenders(resolve, doc, items, 0, bindings);
    assert Render(resolve, doc, bindings) + "" == Render(resolve, doc, bindings);
  }

  /**
   Compiler correctness: a text that parses has a tree; its items are a safe jump program, and running
   them gives the rendering of that tree under all bindings.
   */
  lemma TemplateMeans<T>(resolve: string -> Option<T>, text: string, bindings: map<T, Binding<T>>)
    requires ParseText(resolve, text).Ok?
    ensures var tree := Tree(resolve, Lex(text));
            var items := ParseText(resolve, text).value;
            && tree.Some? && Resolves(resolve, tree.value)
            && Jumps(items)
            && RunFrom(items, 0, bindings) == Render(resolve, tree.value, bindings)
  {
    ParseCompilesTree(resolve, text);
    var doc := Tree(resolve, Lex(text)).value;
    CompiledRenders(resolve, doc, bindings);
  }

  // ----- HTML escaping ------------------------------------------------------------------------

  /** The entity `s` starts with: the character it stands for and its length. */
  function EntityAt(s: string): Option<(char, nat)> {
    if "&amp;" <= s then Some(('&', 5))
    else if "&lt;" <= s then Some(('<', 4))
    else if "&gt;" <= s then Some(('>', 4))
    else if "&quot;" <= s then Some(('"', 6))
    else if "&#39;" <= s then Some(('\'', 5))
    else None
  }

  /** Reads the five entities back; None where `&` starts none of them. */
  function Unescape(s: string): Option<string> {
    if s == "" then Some("")
    else if s[0] != '&' then
      match Unescape(s[1..])
      case None => None
      case Some(rest) => Some([s[0]] + rest)
    else
      match EntityAt(s)
      case None => None
      case Some((c, n)) =>
        match Unescape(s[n..])
        case None => None
        case Some(rest) => Some([c] + rest)
  }

  lemma NotPrefix(p: string, s: string, k: nat)
    requires k < |p| && k < |s| && p[k] != s[k]
    ensures !(p <= s)
  {}

  lemma EscapedEntity(c: char, tail: string)
    requires |EscapeChar(c)| > 1
    ensures EntityAt(EscapeChar(c) + tail) == Some((c, |EscapeChar(c)|))
  {
    var e := EscapeChar(c);
    var s := e + tail;
    assert e <= s;
    assert s[1] == e[1];
    match c
    case '&' =>
    case '<' => NotPrefix("&amp;", s, 1);
    case '>' =>
      NotPrefix("&amp;", s, 1);
      NotPrefix("&lt;", s, 1);
    case '"' =>
      NotPrefix("&amp;", s, 1);
      NotPrefix("&lt;", s, 1);
      NotPrefix("&gt;", s, 1);
    case '\'' =>
      NotPrefix("&amp;", s, 1);
      NotPrefix("&lt;", s, 1);
      NotPrefix("&gt;", s, 1);
      NotPrefix("&quot;", s, 1);
  }

  lemma UnescapeChar(c: char, tail: string)
    requires Unescape(tail).Some?
    ensures Unescape(EscapeChar(c) + tail) == Some([c] + Unescape(tail).value)
  {
    hide EntityAt;
    var e := EscapeChar(c);
    assert (e + tail)[|e|..] == tail;
    assert (e + tail)[0] == e[0];
    if |e| > 1 {
      EscapedEntity(c, tail);
    }
  }

  /** Escaping loses nothing. */
  lemma {:induction false} EscapeRoundTrip(s: string, tail: string)
    requires Unescape(tail).Some?
    ensures Unescape(Escaped(s) + tail) == Some(s + Unescape(tail).value)
  {
    hide EscapeChar, Unescape;
    if s == "" {
      assert "" + tail == tail;
      assert "" + Unescape(tail).value == Unescape(tail).value;
    } else {
      var init, last := s[..|s| - 1], s[|s| - 1];
      UnescapeChar(last, tail);
      EscapeRoundTrip(init, EscapeChar(last) + tail);
      Associates(Escaped(init), EscapeChar(last), tail);
      assert s == init + [last];
      Associates(init, [last], Unescape(tail).value);
    }
  }

  /** Escaped text holds no character that could open a tag or end an attribute value. */
  lemma {:induction false} EscapedIsInert(s: string)
    ensures forall c :: c in Escaped(s) ==> c != '<' && c != '>' && c != '"' && c != '\''
  {
    if s == "" {
    } else {
      EscapedIsInert(s[..|s| - 1]);
    }
  }
}
