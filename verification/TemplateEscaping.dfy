/** Which characters of a rendering come from where. */
module TemplateEscaping {
  import opened Common
  import opened Template
  import opened TemplateMeaning
  import opened TemplateRendering
  import opened TemplateWriting

  // ----- Single tags --------------------------------------------------------------------------

  /** The text of one tag, at top level and as the whole body of an `each`. */
  function TagAlone(raw: bool, name: string): string {
    "{{" + (if raw then "!" else "") + name + "}}"
  }

  function TagRepeated(raw: bool, name: string, list: string): string {
    "{{#each " + list + "}}" + TagAlone(raw, name) + "{{/each " + list + "}}"
  }

  /** The name of a value or of a block as it may be written. */
  predicate LegalName(name: string, raw: bool) {
    LegalTag(Value(name, !raw))
  }

  predicate LegalList(list: string) {
    LegalTag(Open(true, list)) && LegalTag(Close(true, list))
  }

  /** What the entries have bound to the name, one after the other, escaped or not. */
  function AllValues<T(==)>(entries: seq<map<T, string>>, key: T, raw: bool): string {
    if entries == [] then ""
    else
      (if key !in entries[0] then "" else if raw then entries[0][key] else Escaped(entries[0][key]))
      + AllValues(entries[1..], key, raw)
  }

  /** A bound `{{name}}` renders as its escaped value and a bound `{{!name}}` as the value itself. */
  lemma TagRenders<T>(resolve: string -> Option<T>, raw: bool, name: string, bindings: map<T, Binding<T>>)
    requires LegalName(name, raw) && resolve(name).Some?
    requires var key := resolve(name).value; key in bindings && bindings[key].Single?
    ensures var value, parsed := bindings[resolve(name).value].value, ParseText(resolve, TagAlone(raw, name));
            && parsed.Ok? && Jumps(parsed.value)
            && RunFrom(parsed.value, 0, bindings) == if raw then value else Escaped(value)
  {
    hide Escaped, LegalTag, RunFrom, Jumps, ParseText;
    var doc := ValueNode(name, !raw, End);
    WriteTag(raw, name);
    WrittenTextRenders(resolve, doc, bindings);
  }

  lemma WriteTag(raw: bool, name: string)
    requires LegalName(name, raw)
    ensures var doc := ValueNode(name, !raw, End); Writable(Pieces(doc)) && Write(doc) == TagAlone(raw, name)
  {
    hide LegalTag;
    var pieces := [Value(name, !raw)];
    OneNode(name, !raw);
    assert pieces[1..] == [];
    assert WritePieces(pieces) == WritePiece(pieces[0]) + "";
  }

  lemma OneNode(name: string, escape: bool)
    ensures Pieces(ValueNode(name, escape, End)) == [Value(name, escape)]
    ensures Nested(ValueNode(name, escape, End), false) && Nested(ValueNode(name, escape, End), true)
  {
    assert Pieces(End) == [];
  }

  /** Inside an `each` the same holds of every entry. */
  lemma TagsRender<T>(resolve: string -> Option<T>, raw: bool, name: string, list: string, bindings: map<T, Binding<T>>)
    requires LegalName(name, raw) && LegalList(list) && resolve(name).Some? && resolve(list).Some?
    requires var key := resolve(list).value; key in bindings && bindings[key].Block?
    ensures var entries, parsed := bindings[resolve(list).value].entries, ParseText(resolve, TagRepeated(raw, name, list));
            && parsed.Ok? && Jumps(parsed.value)
            && RunFrom(parsed.value, 0, bindings) == AllValues(entries, resolve(name).value, raw)
  {
    hide Escaped, LegalTag, RunFrom, Jumps, ParseText;
    var value := ValueNode(name, !raw, End);
    var doc := BlockNode(true, list, value, End);
    WriteTags(raw, name, list);
    WrittenTextRenders(resolve, doc, bindings);
    EntriesAre(resolve, raw, name, bindings[resolve(list).value].entries);
    assert Render(resolve, doc, bindings) == RenderEntries(resolve, value, bindings[resolve(list).value].entries) + "";
  }

  lemma {:induction false} EntriesAre<T>(resolve: string -> Option<T>, raw: bool, name: string, entries: seq<map<T, string>>)
    requires resolve(name).Some?
    ensures RenderEntries(resolve, ValueNode(name, !raw, End), entries) == AllValues(entries, resolve(name).value, raw)
  {
    hide Escaped;
    if entries != [] {
      EntriesAre(resolve, raw, name, entries[1..]);
      var key, entry := resolve(name).value, entries[0];
      var text := if key !in entry then "" else if raw then entry[key] else Escaped(entry[key]);
      assert RenderEntry(resolve, ValueNode(name, !raw, End), entry) == text + "";
      assert text + "" == text;
    }
  }

  lemma WriteTags(raw: bool, name: string, list: string)
    requires LegalName(name, raw) && LegalList(list)
    ensures var doc := BlockNode(true, list, ValueNode(name, !raw, End), End);
            Writable(Pieces(doc)) && Nested(doc, true) && Write(doc) == TagRepeated(raw, name, list)
  {
    hide LegalTag, WritePiece, WritePieces, Writable;
    var open, value, close := Open(true, list), Value(name, !raw), Close(true, list);
    OneBlock(list, name, !raw);
    ThreeTags(open, value, close);
    TagTexts(raw, name, list);
    Associates("{{#each " + list + "}}", TagAlone(raw, name), "{{/each " + list + "}}");
  }

  lemma OneBlock(list: string, name: string, escape: bool)
    ensures var doc := BlockNode(true, list, ValueNode(name, escape, End), End);
            Pieces(doc) == [Open(true, list), Value(name, escape), Close(true, list)] && Nested(doc, true)
  {
    OneNode(name, escape);
    assert Pieces(End) == [];
  }

  predicate IsTag(piece: Piece) { !piece.Text? && !piece.Bad? }

  lemma ThreeTags(a: Piece, b: Piece, c: Piece)
    requires LegalTag(a) && LegalTag(b) && LegalTag(c)
    ensures IsTag(a) && IsTag(b) && IsTag(c)
    ensures Writable([a, b, c]) && WritePieces([a, b, c]) == WritePiece(a) + (WritePiece(b) + WritePiece(c))
  {
    assert IsTag(a) && IsTag(b) && IsTag(c);
    hide LegalTag, WritePiece;
    assert [a, b, c][1..] == [b, c] && [b, c][1..] == [c] && [c][1..] == [];
    assert Writable([]) && Writable([c]);
    assert Writable([b, c]);
    assert WritePieces([c]) == WritePiece(c) + "" == WritePiece(c);
  }

  lemma TagTexts(raw: bool, name: string, list: string)
    ensures WritePiece(Open(true, list)) == "{{#each " + list + "}}"
    ensures WritePiece(Value(name, !raw)) == TagAlone(raw, name)
    ensures WritePiece(Close(true, list)) == "{{/each " + list + "}}"
  {
    Markers();
    MarkedTag("#", "each ", list);
    MarkedTag("/", "each ", list);
    ValueText(raw, name);
  }

  lemma Markers()
    ensures "{{" + "#" + "each " == "{{#each " && "{{" + "/" + "each " == "{{/each "
  {}

  lemma ValueText(raw: bool, name: string)
    ensures WritePiece(Value(name, !raw)) == TagAlone(raw, name)
  {
    if raw {
      Associates("{{", "!", name);
    } else {
      assert "{{" + "" == "{{";
    }
  }

  lemma MarkedTag(marker: string, keyword: string, name: string)
    ensures "{{" + (marker + keyword + name) + "}}" == "{{" + marker + keyword + name + "}}"
  {
    Associates("{{", marker + keyword, name);
    Associates("{{", marker, keyword);
  }

  // ----- Whole programs -----------------------------------------------------------------------

  /** A stretch of a rendering: static text of the program, a value as it is, or an escaped value. */
  datatype Part = Fixed(text: string) | Raw(text: string) | Safe(value: string)

  function PartText(part: Part): string {
    match part
    case Safe(value) => Escaped(value)
    case _ => part.text
  }

  function PartsText(parts: seq<Part>): string {
    if parts == [] then "" else PartText(parts[0]) + PartsText(parts[1..])
  }

  /** Where the parts come from: fixed ones are texts of the program, raw ones need a `{{!...}}` in it. */
  ghost predicate Sourced<T>(items: seq<Item<T>>, parts: seq<Part>) {
    forall part :: part in parts ==>
      match part
      case Fixed(text) => Static(text) in items
      case Raw(_) => exists item :: item in items && item.Variable? && !item.escape
      case Safe(_) => true
  }

  lemma {:induction false} PartsJoin(a: seq<Part>, b: seq<Part>)
    ensures PartsText(a + b) == PartsText(a) + PartsText(b)
  {
    if a == [] {
      assert a + b == b;
    } else {
      assert (a + b)[1..] == a[1..] + b;
      PartsJoin(a[1..], b);
      Associates(PartText(a[0]), PartsText(a[1..]), PartsText(b));
    }
  }

  lemma OnePart(part: Part)
    ensures PartsText([part]) == PartText(part)
  {
    assert PartsText([part]) == PartText(part) + "";
  }

  /** One value at an item of the program. */
  lemma ValuePart<T>(items: seq<Item<T>>, i: nat, bound: Option<string>) returns (parts: seq<Part>)
    requires i < |items| && items[i].Variable?
    ensures PartsText(parts) == (if bound.None? then "" else Show(items[i].escape, bound.value)) && Sourced(items, parts)
  {
    match bound
    case None => parts := [];
    case Some(value) =>
      parts := [if items[i].escape then Safe(value) else Raw(value)];
      OnePart(parts[0]);
      assert items[i] in items;
  }

  lemma FixedPart<T>(items: seq<Item<T>>, i: nat) returns (parts: seq<Part>)
    requires i < |items| && items[i].Static?
    ensures PartsText(parts) == items[i].text && Sourced(items, parts)
  {
    parts := [Fixed(items[i].text)];
    OnePart(parts[0]);
    assert items[i] in items;
  }

  lemma {:induction false} InnerParts<T>(items: seq<Item<T>>, pos: nat, hi: nat, entry: map<T, string>)
    returns (parts: seq<Part>)
    requires JumpsInside(items, pos, hi)
    ensures PartsText(parts) == InnerFrom(items, pos, hi, entry) && Sourced(items, parts)
    decreases hi - pos
  {
    hide InnerFrom, Escaped, PartsText, Sourced;
    if pos == hi {
      InnerEnds(items, hi, entry);
      parts := [];
      NoParts(items);
    } else {
      var first: seq<Part>;
      InnerStep(items, pos, hi, entry);
      match items[pos] {
        case Static(_) => first := FixedPart(items, pos);
        case Variable(name, _) => first := ValuePart(items, pos, if name in entry then Some(entry[name]) else None);
        case _ => first := []; NoParts(items);
      }
      var rest := InnerParts(items, EntryNext(items[pos], pos, entry), hi, entry);
      parts := first + rest;
      PartsJoin(first, rest);
      SourcedJoin(items, first, rest);
    }
  }

  lemma NoParts<T>(items: seq<Item<T>>)
    ensures PartsText([]) == "" && Sourced(items, [])
  {}

  lemma SourcedJoin<T>(items: seq<Item<T>>, a: seq<Part>, b: seq<Part>)
    requires Sourced(items, a) && Sourced(items, b)
    ensures Sourced(items, a + b)
  {}

  lemma {:induction false} EachParts<T>(items: seq<Item<T>>, lo: nat, hi: nat, entries: seq<map<T, string>>)
    returns (parts: seq<Part>)
    requires JumpsInside(items, lo, hi)
    ensures PartsText(parts) == EachEntry(items, lo, hi, entries) && Sourced(items, parts)
  {
    hide InnerFrom, PartsText, Sourced;
    if entries == [] {
      parts := [];
      NoParts(items);
    } else {
      var first := InnerParts(items, lo, hi, entries[0]);
      var rest := EachParts(items, lo, hi, entries[1..]);
      parts := first + rest;
      PartsJoin(first, rest);
      SourcedJoin(items, first, rest);
    }
  }

  /** Every rendering is made of the static texts of the program and of values, raw only under `{{!...}}`. */
  lemma {:induction false} RunParts<T>(items: seq<Item<T>>, pos: nat, bindings: map<T, Binding<T>>)
    returns (parts: seq<Part>)
    requires Jumps(items) && pos <= |items|
    ensures PartsText(parts) == RunFrom(items, pos, bindings) && Sourced(items, parts)
    decreases |items| - pos
  {
    hide EachEntry, Escaped, PartsText, Sourced;
    if pos == |items| {
      parts := [];
      NoParts(items);
    } else {
      var first: seq<Part>;
      match items[pos] {
        case Static(_) => first := FixedPart(items, pos);
        case Variable(name, _) =>
          var bound := name in bindings && bindings[name].Single?;
          first := ValuePart(items, pos, if bound then Some(bindings[name].value) else None);
        case If(_, _) => first := []; NoParts(items);
        case ForEach(variable, blockEnd) =>
          if variable in bindings && bindings[variable].Block? {
            first := EachParts(items, pos + 1, blockEnd, bindings[variable].entries);
          } else {
            first := [];
            NoParts(items);
          }
      }
      var rest := RunParts(items, NextPos(items, pos, bindings), bindings);
      parts := first + rest;
      PartsJoin(first, rest);
      SourcedJoin(items, first, rest);
    }
  }

  predicate Special(c: char) { c == '<' || c == '>' || c == '"' || c == '\'' }

  /** A text that is cut into static texts of the program and texts without special characters. */
  ghost predicate SpecialsAreFixed<T>(items: seq<Item<T>>, text: string) {
    exists parts: seq<Part> ::
      && PartsText(parts) == text
      && forall part :: part in parts ==>
           if part.Fixed? then Static(part.text) in items else forall c :: c in PartText(part) ==> !Special(c)
  }

  /** A program without `{{!...}}` emits `<`, `>` and quotes only from its own text, whatever is bound. */
  lemma PlainProgramIsInert<T>(items: seq<Item<T>>, bindings: map<T, Binding<T>>)
    requires Jumps(items) && forall item :: item in items && item.Variable? ==> item.escape
    ensures SpecialsAreFixed(items, RunFrom(items, 0, bindings))
  {
    hide RunFrom, Jumps;
    var parts := RunParts(items, 0, bindings);
    forall part | part in parts && !part.Fixed?
      ensures forall c :: c in PartText(part) ==> !Special(c)
    {
      EscapedIsInert(part.value);
    }
  }
}
