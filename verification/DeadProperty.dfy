/**
 Dead WebDAV properties: an XML forest kept as one flat vector of tags and edited by linear scans
 (crates/types/src/dead_property.rs).  The scans are proved to be tree operations on every balanced stream.
 */
module DeadProperty {
  import opened Common

  datatype ElementTag = ElementTag(name: string, attrs: Option<string>)

  datatype PropertyTag = ElementStart(tag: ElementTag) | ElementEnd | Text(text: string)

  // ----- Scans --------------------------------------------------------------------------------

  /** What `find_tag` still does on `tags`: whether the element is found, and the tags it collects. */
  function FindFrom(tags: seq<PropertyTag>, needle: string, depth: nat, found: bool): (bool, seq<PropertyTag>) {
    if tags == [] then (found, [])
    else
      var rest := tags[1..];
      match tags[0]
      case ElementStart(tag) =>
        if depth == 0 && tag.name == needle then FindFrom(rest, needle, depth + 1, true)
        else Collect(found, tags[0], FindFrom(rest, needle, depth + 1, found))
      case ElementEnd =>
        if found && depth == 1 then (true, [])
        else Collect(found, tags[0], FindFrom(rest, needle, if depth > 0 then depth - 1 else 0, found))
      case Text(_) => Collect(found, tags[0], FindFrom(rest, needle, depth, found))
  }

  function Collect(found: bool, tag: PropertyTag, rest: (bool, seq<PropertyTag>)): (bool, seq<PropertyTag>) {
    (rest.0, Keep(found, tag, rest.1))
  }

  function Keep(keep: bool, tag: PropertyTag, rest: seq<PropertyTag>): seq<PropertyTag> {
    if keep then [tag] + rest else rest
  }

  function Find(tags: seq<PropertyTag>, needle: string): Option<seq<PropertyTag>> {
    var r := FindFrom(tags, needle, 0, false);
    if r.0 then Some(r.1) else None
  }

  /** What the retain closure of `remove_element` still keeps of `tags`. */
  function RetainFrom(tags: seq<PropertyTag>, name: string, depth: int, remove: bool): seq<PropertyTag> {
    if tags == [] then []
    else
      var rest := tags[1..];
      match tags[0]
      case ElementStart(tag) =>
        var remove' := remove || (depth == 0 && tag.name == name);
        Keep(!remove', tags[0], RetainFrom(rest, name, depth + 1, remove'))
      case ElementEnd =>
        if remove && depth == 1 then RetainFrom(rest, name, 0, false)
        else Keep(!remove, tags[0], RetainFrom(rest, name, depth - 1, remove))
      case Text(_) => Keep(!remove, tags[0], RetainFrom(rest, name, depth, remove))
  }

  lemma KeepJoins(before: seq<PropertyTag>, keep: bool, tag: PropertyTag, rest: seq<PropertyTag>)
    ensures before + Keep(keep, tag, rest) == (if keep then before + [tag] else before) + rest
  {
    Associates(before, [tag], rest);
  }

  class Property {
    var tags: seq<PropertyTag>

    constructor (tags: seq<PropertyTag>)
      ensures this.tags == tags
    {
      this.tags := tags;
    }

    method FindTag(needle: string) returns (children: Option<seq<PropertyTag>>)
      ensures children == Find(tags, needle)
    {
      var depth, collected, foundTag: bool := 0, [], false;
      var i := 0;
      assert tags[0..] == tags;
      assert [] + FindFrom(tags, needle, 0, false).1 == FindFrom(tags, needle, 0, false).1;
      while i < |tags|
        invariant 0 <= depth && i <= |tags|
        invariant var r := FindFrom(tags[i..], needle, depth, foundTag);
                  FindFrom(tags, needle, 0, false) == (r.0, collected + r.1)
      {
        assert tags[i..][1..] == tags[i + 1..];
        var tag := tags[i];
        ghost var before := collected;
        match tag {
          case ElementStart(start) =>
            if depth == 0 && start.name == needle {
              foundTag := true;
            } else if foundTag {
              collected := collected + [tag];
            }
            depth := depth + 1;
          case ElementEnd =>
            if foundTag {
              if depth == 1 {
                assert collected + [] == collected;
                break;
              }
              collected := collected + [tag];
            }
            depth := if depth > 0 then depth - 1 else 0;
          case Text(_) =>
            if foundTag {
              collected := collected + [tag];
            }
        }
        i := i + 1;
        assert collected == before + collected[|before|..];
        Associates(before, collected[|before|..], FindFrom(tags[i..], needle, depth, foundTag).1);
        assert [] + FindFrom(tags[i..], needle, depth, foundTag).1 == FindFrom(tags[i..], needle, depth, foundTag).1;
      }
      assert collected + [] == collected;
      children := if foundTag then Some(collected) else None;
    }

    method RemoveElement(element: ElementTag)
      modifies this
      ensures tags == RetainFrom(old(tags), element.name, 0, false)
    {
      var depth, remove, kept := 0, false, [];
      assert tags[0..] == tags;
      assert [] + RetainFrom(tags, element.name, 0, false) == RetainFrom(tags, element.name, 0, false);
      for i := 0 to |tags|
        invariant tags == old(tags)
        invariant kept + RetainFrom(tags[i..], element.name, depth, remove) == RetainFrom(tags, element.name, 0, false)
      {
        assert tags[i..][1..] == tags[i + 1..];
        var item, keep := tags[i], true;
        match item {
          case ElementStart(tag) =>
            if depth == 0 && !remove && tag.name == element.name {
              remove := true;
            }
            depth := depth + 1;
            keep := !remove;
          case ElementEnd =>
            depth := depth - 1;
            if remove && depth == 0 {
              remove := false;
              keep := false;
            } else {
              keep := !remove;
            }
          case Text(_) => keep := !remove;
        }
        KeepJoins(kept, keep, item, RetainFrom(tags[i + 1..], element.name, depth, remove));
        if keep {
          kept := kept + [item];
        }
      }
      assert kept + [] == kept;
      tags := kept;
    }

    method AddElement(element: ElementTag, values: seq<PropertyTag>)
      modifies this
      ensures tags == old(tags) + [ElementStart(element)] + values + [ElementEnd]
    {
      tags := tags + [ElementStart(element)];
      tags := tags + values;
      tags := tags + [ElementEnd];
    }
  }

  // ----- Forests ------------------------------------------------------------------------------

  /** A list of text nodes and elements with children. */
  datatype Forest =
    | Nil
    | TextNode(text: string, rest: Forest)
    | Element(tag: ElementTag, children: Forest, rest: Forest)

  function Flatten(f: Forest): seq<PropertyTag> {
    match f
    case Nil => []
    case TextNode(text, rest) => [Text(text)] + Flatten(rest)
    case Element(tag, children, rest) => [ElementStart(tag)] + (Flatten(children) + ([ElementEnd] + Flatten(rest)))
  }

  /** Every end tag closes an element that is open, and none stays open. */
  predicate Balanced(tags: seq<PropertyTag>, depth: nat) {
    if tags == [] then depth == 0
    else
      match tags[0]
      case ElementStart(_) => Balanced(tags[1..], depth + 1)
      case ElementEnd => depth > 0 && Balanced(tags[1..], depth - 1)
      case Text(_) => Balanced(tags[1..], depth)
  }

  lemma {:induction false} FlattenIsBalanced(f: Forest, tail: seq<PropertyTag>, depth: nat)
    ensures Balanced(Flatten(f) + tail, depth) <==> Balanced(tail, depth)
    decreases f
  {
    Unfold(f, tail);
    match f
    case Nil =>
    case TextNode(_, rest) => FlattenIsBalanced(rest, tail, depth);
    case Element(_, children, rest) =>
      FlattenIsBalanced(children, [ElementEnd] + (Flatten(rest) + tail), depth + 1);
      FlattenIsBalanced(rest, tail, depth);
  }

  /** The stream of a forest with something behind it, seen from its first tag. */
  lemma Unfold(f: Forest, tail: seq<PropertyTag>)
    ensures match f
            case Nil => Flatten(f) + tail == tail
            case TextNode(text, rest) =>
              && (Flatten(f) + tail)[0] == Text(text)
              && (Flatten(f) + tail)[1..] == Flatten(rest) + tail
            case Element(tag, children, rest) =>
              var behind := [ElementEnd] + (Flatten(rest) + tail);
              && (Flatten(f) + tail)[0] == ElementStart(tag)
              && (Flatten(f) + tail)[1..] == Flatten(children) + behind
              && behind[1..] == Flatten(rest) + tail
  {
    match f
    case Nil =>
    case TextNode(text, rest) =>
      Associates([Text(text)], Flatten(rest), tail);
    case Element(tag, children, rest) =>
      Associates([ElementEnd], Flatten(rest), tail);
      Associates(Flatten(children), [ElementEnd] + Flatten(rest), tail);
      Associates([ElementStart(tag)], Flatten(children) + ([ElementEnd] + Flatten(rest)), tail);
      var behind := Flatten(children) + ([ElementEnd] + (Flatten(rest) + tail));
      assert Flatten(f) + tail == [ElementStart(tag)] + behind;
  }

  /** The forest at the front of a stream, up to the first end tag that closes nothing in it. */
  function Grab(tags: seq<PropertyTag>): (r: (Forest, seq<PropertyTag>))
    ensures |r.1| <= |tags|
    decreases |tags|
  {
    if tags == [] then (Nil, [])
    else
      match tags[0]
      case Text(text) =>
        var (f, rest) := Grab(tags[1..]);
        (TextNode(text, f), rest)
      case ElementEnd => (Nil, tags)
      case ElementStart(tag) =>
        var (children, rest) := Grab(tags[1..]);
        if rest == [] then (Element(tag, children, Nil), [])
        else
          var (f, rest') := Grab(rest[1..]);
          (Element(tag, children, f), rest')
  }

  lemma {:induction false} GrabIsWhole(tags: seq<PropertyTag>, depth: nat)
    requires Balanced(tags, depth)
    ensures var (f, rest) := Grab(tags);
            && Flatten(f) + rest == tags
            && Balanced(rest, depth)
            && (if rest == [] then depth == 0 else rest[0] == ElementEnd && depth > 0)
    decreases |tags|
  {
    if tags == [] {
    } else {
      assert tags == [tags[0]] + tags[1..];
      match tags[0]
      case Text(_) =>
        GrabIsWhole(tags[1..], depth);
        Associates([tags[0]], Flatten(Grab(tags[1..]).0), Grab(tags[1..]).1);
      case ElementEnd =>
      case ElementStart(_) =>
        var (children, rest) := Grab(tags[1..]);
        GrabIsWhole(tags[1..], depth + 1);
        var (f, rest') := Grab(rest[1..]);
        GrabIsWhole(rest[1..], depth);
        assert rest == [ElementEnd] + rest[1..];
        Associates([ElementEnd], Flatten(f), rest');
        Associates(Flatten(children), [ElementEnd] + Flatten(f), rest');
        Associates([tags[0]], Flatten(children) + ([ElementEnd] + Flatten(f)), rest');
    }
  }

  /** The balanced streams are exactly the flattened forests. */
  lemma BalancedIsForest(tags: seq<PropertyTag>)
    ensures Balanced(tags, 0) <==> exists f :: Flatten(f) == tags
  {
    if Balanced(tags, 0) {
      GrabIsWhole(tags, 0);
      var f := Grab(tags).0;
      assert Flatten(f) + [] == Flatten(f);
    }
    forall f | Flatten(f) == tags
      ensures Balanced(tags, 0)
    {
      FlattenIsBalanced(f, [], 0);
      assert Flatten(f) + [] == tags;
    }
  }

  // ----- Tree operations ----------------------------------------------------------------------

  /** The children of the first top-level element of that name. */
  function FirstNamed(f: Forest, name: string): Option<Forest> {
    match f
    case Nil => None
    case TextNode(_, rest) => FirstNamed(rest, name)
    case Element(tag, children, rest) => if tag.name == name then Some(children) else FirstNamed(rest, name)
  }

  /** The forest without its top-level elements of that name. */
  function DropNamed(f: Forest, name: string): Forest {
    match f
    case Nil => Nil
    case TextNode(text, rest) => TextNode(text, DropNamed(rest, name))
    case Element(tag, children, rest) =>
      if tag.name == name then DropNamed(rest, name) else Element(tag, children, DropNamed(rest, name))
  }

  function AppendElement(f: Forest, tag: ElementTag, children: Forest): Forest {
    match f
    case Nil => Element(tag, children, Nil)
    case TextNode(text, rest) => TextNode(text, AppendElement(rest, tag, children))
    case Element(tag', children', rest) => Element(tag', children', AppendElement(rest, tag, children))
  }

  /** Inside an element the scan for a name collects everything, or passes over everything. */
  lemma {:induction false} FindInside(f: Forest, tail: seq<PropertyTag>, needle: string, depth: nat, found: bool)
    requires depth > 0
    ensures var r := FindFrom(tail, needle, depth, found);
            FindFrom(Flatten(f) + tail, needle, depth, found) == (r.0, if found then Flatten(f) + r.1 else r.1)
    decreases f
  {
    Unfold(f, tail);
    match f
    case Nil =>
      assert [] + FindFrom(tail, needle, depth, found).1 == FindFrom(tail, needle, depth, found).1;
    case TextNode(text, rest) =>
      FindInside(rest, tail, needle, depth, found);
      Associates([Text(text)], Flatten(rest), FindFrom(tail, needle, depth, found).1);
    case Element(tag, children, rest) =>
      var r := FindFrom(tail, needle, depth, found).1;
      FindInside(children, [ElementEnd] + (Flatten(rest) + tail), needle, depth + 1, found);
      FindInside(rest, tail, needle, depth, found);
      if found {
        Associates([ElementEnd], Flatten(rest), r);
        Associates(Flatten(children), [ElementEnd] + Flatten(rest), r);
        Associates([ElementStart(tag)], Flatten(children) + ([ElementEnd] + Flatten(rest)), r);
      }
  }

  /** `find_tag` on a flattened forest is the tree search. */
  lemma {:induction false} FindIsTreeSearch(f: Forest, needle: string)
    ensures Find(Flatten(f), needle)
         == match FirstNamed(f, needle) case None => None case Some(children) => Some(Flatten(children))
    decreases f
  {
    Unfold(f, []);
    assert Flatten(f) + [] == Flatten(f);
    match f
    case Nil =>
    case TextNode(_, rest) =>
      assert Flatten(rest) + [] == Flatten(rest);
      FindIsTreeSearch(rest, needle);
      PassOver(Flatten(f), needle);
    case Element(tag, children, rest) =>
      assert Flatten(rest) + [] == Flatten(rest);
      var behind := [ElementEnd] + Flatten(rest);
      FindInside(children, behind, needle, 1, tag.name == needle);
      if tag.name == needle {
        assert FindFrom(behind, needle, 1, true) == (true, []);
        assert Flatten(children) + [] == Flatten(children);
      } else {
        FindIsTreeSearch(rest, needle);
        PassOver(behind, needle);
        PassOver(Flatten(f), needle);
      }
  }

  /** Nothing is collected before the element is found. */
  lemma PassOver(tags: seq<PropertyTag>, needle: string)
    requires tags != []
    ensures tags[0].Text? ==> Find(tags, needle) == Find(tags[1..], needle)
    ensures tags[0].ElementEnd? ==> FindFrom(tags, needle, 1, false) == FindFrom(tags[1..], needle, 0, false)
    ensures tags[0].ElementStart? && tags[0].tag.name != needle ==>
              FindFrom(tags, needle, 0, false) == FindFrom(tags[1..], needle, 1, false)
  {}

  lemma {:induction false} RetainInside(f: Forest, tail: seq<PropertyTag>, name: string, depth: int, remove: bool)
    requires depth > 0
    ensures RetainFrom(Flatten(f) + tail, name, depth, remove)
         == if remove then RetainFrom(tail, name, depth, remove) else Flatten(f) + RetainFrom(tail, name, depth, remove)
    decreases f
  {
    Unfold(f, tail);
    var r := RetainFrom(tail, name, depth, remove);
    match f
    case Nil =>
      assert [] + r == r;
    case TextNode(text, rest) =>
      RetainInside(rest, tail, name, depth, remove);
      Associates([Text(text)], Flatten(rest), r);
    case Element(tag, children, rest) =>
      RetainInside(children, [ElementEnd] + (Flatten(rest) + tail), name, depth + 1, remove);
      RetainInside(rest, tail, name, depth, remove);
      if !remove {
        Associates([ElementEnd], Flatten(rest), r);
        Associates(Flatten(children), [ElementEnd] + Flatten(rest), r);
        Associates([ElementStart(tag)], Flatten(children) + ([ElementEnd] + Flatten(rest)), r);
      }
  }

  /** `remove_element` on a flattened forest drops the top-level elements of that name. */
  lemma {:induction false} RemoveIsTreeDrop(f: Forest, name: string)
    ensures RetainFrom(Flatten(f), name, 0, false) == Flatten(DropNamed(f, name))
    decreases f
  {
    Unfold(f, []);
    assert Flatten(f) + [] == Flatten(f);
    match f
    case Nil =>
    case TextNode(_, rest) =>
      assert Flatten(rest) + [] == Flatten(rest);
      RemoveIsTreeDrop(rest, name);
    case Element(tag, children, rest) =>
      assert Flatten(rest) + [] == Flatten(rest);
      var behind := [ElementEnd] + Flatten(rest);
      RetainInside(children, behind, name, 1, tag.name == name);
      RemoveIsTreeDrop(rest, name);
      if tag.name == name {
        assert RetainFrom(behind, name, 1, true) == RetainFrom(behind[1..], name, 0, false);
      } else {
        assert RetainFrom(behind, name, 1, false) == [ElementEnd] + RetainFrom(behind[1..], name, 0, false);
      }
  }

  lemma AddedText(before: seq<PropertyTag>, tag: ElementTag, values: seq<PropertyTag>)
    ensures before + [ElementStart(tag)] + values + [ElementEnd] == before + ([ElementStart(tag)] + values + [ElementEnd])
  {}

  /** `add_element` appends an element at top level. */
  lemma {:induction false} AddIsTreeAppend(f: Forest, tag: ElementTag, children: Forest)
    ensures Flatten(f) + [ElementStart(tag)] + Flatten(children) + [ElementEnd] == Flatten(AppendElement(f, tag, children))
    decreases f
  {
    var added := [ElementStart(tag)] + Flatten(children) + [ElementEnd];
    AddedText(Flatten(f), tag, Flatten(children));
    match f
    case Nil =>
      assert added == [ElementStart(tag)] + (Flatten(children) + ([ElementEnd] + []));
    case TextNode(text, rest) =>
      AddIsTreeAppend(rest, tag, children);
      AddedText(Flatten(rest), tag, Flatten(children));
      Associates([Text(text)], Flatten(rest), added);
    case Element(tag', children', rest) =>
      AddIsTreeAppend(rest, tag, children);
      AddedText(Flatten(rest), tag, Flatten(children));
      Associates([ElementEnd], Flatten(rest), added);
      Associates(Flatten(children'), [ElementEnd] + Flatten(rest), added);
      Associates([ElementStart(tag')], Flatten(children') + ([ElementEnd] + Flatten(rest)), added);
  }

  /** How the three tree operations interact. */
  lemma {:induction false} TreeLaws(f: Forest, tag: ElementTag, children: Forest, other: string)
    ensures FirstNamed(DropNamed(f, tag.name), tag.name) == None
    ensures other != tag.name ==> FirstNamed(DropNamed(f, tag.name), other) == FirstNamed(f, other)
    ensures FirstNamed(f, tag.name) == None ==> DropNamed(f, tag.name) == f
    ensures FirstNamed(AppendElement(f, tag, children), tag.name)
         == if FirstNamed(f, tag.name).None? then Some(children) else FirstNamed(f, tag.name)
    ensures DropNamed(AppendElement(f, tag, children), tag.name) == DropNamed(f, tag.name)
  {
    match f
    case Nil =>
    case TextNode(_, rest) => TreeLaws(rest, tag, children, other);
    case Element(_, _, rest) => TreeLaws(rest, tag, children, other);
  }

  /** The laws of the edits on every balanced stream. */
  lemma EditLaws(tags: seq<PropertyTag>, tag: ElementTag, values: seq<PropertyTag>, other: string)
    requires Balanced(tags, 0) && Balanced(values, 0)
    ensures var removed := RetainFrom(tags, tag.name, 0, false);
            var added := tags + [ElementStart(tag)] + values + [ElementEnd];
            && Balanced(removed, 0) && Balanced(added, 0)
            && Find(removed, tag.name) == None
            && (other != tag.name ==> Find(removed, other) == Find(tags, other))
            && Find(added, tag.name) == (if Find(tags, tag.name).None? then Some(values) else Find(tags, tag.name))
            && RetainFrom(added, tag.name, 0, false) == removed
            && (Find(tags, tag.name).None? ==> removed == tags)
  {
    BalancedIsForest(tags);
    BalancedIsForest(values);
    var f :| Flatten(f) == tags;
    var children :| Flatten(children) == values;
    var dropped, grown := DropNamed(f, tag.name), AppendElement(f, tag, children);
    RemoveIsTreeDrop(f, tag.name);
    AddIsTreeAppend(f, tag, children);
    RemoveIsTreeDrop(grown, tag.name);
    FindIsTreeSearch(f, tag.name);
    FindIsTreeSearch(f, other);
    FindIsTreeSearch(dropped, tag.name);
    FindIsTreeSearch(dropped, other);
    FindIsTreeSearch(grown, tag.name);
    TreeLaws(f, tag, children, other);
    BalancedIsForest(Flatten(dropped));
    BalancedIsForest(Flatten(grown));
  }
}
