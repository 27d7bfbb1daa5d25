/** What macro expansion returns, said on the text of the macros. */
module MacroExpansion {
  import opened Common
  import opened Macros

  // ----- Where the macros of a text are -------------------------------------------------------

  function Word(kind: MacroKind): string {
    match kind
    case Cfg => "cfg"
    case Env => "env"
    case File => "file"
  }

  /** A macro as it is written. */
  function Written(kind: MacroKind, arg: string): string { "%{" + Word(kind) + ":" + arg + "}%" }

  /** A macro stands at the start of the text. */
  predicate StartsWith(text: string, kind: MacroKind, arg: string) {
    '}' !in arg && Written(kind, arg) <= text
  }

  lemma WrittenParts(kind: MacroKind, arg: string, rest: string)
    ensures Written(kind, arg) + rest == Opening(kind) + (arg + ("}%" + rest))
  {
    var head := Opening(kind);
    assert "%{" + Word(kind) + ":" == head;
    Associates(head, arg, "}%");
    Associates(head + arg, "}%", rest);
    Associates(head, arg, "}%" + rest);
  }

  lemma {:induction false} BraceAt(arg: string, rest: string)
    requires '}' !in arg
    ensures UpToBrace(arg + ("}" + rest)) == |arg|
  {
    var text := arg + ("}" + rest);
    if arg == "" {
      assert text[0] == '}';
    } else {
      assert text[0] == arg[0] && text[1..] == arg[1..] + ("}" + rest);
      BraceAt(arg[1..], rest);
    }
  }

  lemma KindsDiffer(a: MacroKind, b: MacroKind, text: string)
    requires a != b && Opening(a) <= text
    ensures !(Opening(b) <= text)
  {
    assert text[2] == Opening(a)[2] != Opening(b)[2];
  }

  /** The macro at the start of a text is found, and only it. */
  lemma MacroRead(kind: MacroKind, arg: string, rest: string)
    requires '}' !in arg
    ensures MacroAt(Written(kind, arg) + rest, kind) == Some((arg, |Written(kind, arg)|))
    ensures forall other :: other != kind ==> MacroAt(Written(kind, arg) + rest, other) == None
  {
    hide UpToBrace;
    var text, body := Written(kind, arg) + rest, arg + ("}%" + rest);
    WrittenParts(kind, arg, rest);
    assert "}%" + rest == "}" + ("%" + rest);
    BraceAt(arg, "%" + rest);
    var n := |Opening(kind)|;
    assert text[..n] == Opening(kind) && text[n..] == body;
    assert body[..|arg|] == arg && body[|arg|] == '}' && body[|arg| + 1] == '%';
    assert |Written(kind, arg)| == n + |arg| + 2 by {
      WrittenParts(kind, arg, "");
      assert Written(kind, arg) + "" == Written(kind, arg);
    }
    forall other | other != kind
      ensures MacroAt(text, other) == None
    {
      KindsDiffer(kind, other, text);
    }
  }

  lemma ArgumentEnds(body: string, end: nat)
    requires end + 1 < |body| && body[end] == '}' && body[end + 1] == '%'
    ensures body == body[..end] + ("}%" + body[end + 2..])
  {}

  /** The other way round: what is found is written there. */
  lemma FoundIsWritten(text: string, kind: MacroKind)
    requires MacroAt(text, kind).Some?
    ensures var arg := MacroAt(text, kind).value.0; StartsWith(text, kind, arg)
  {
    hide UpToBrace, Opening, Written;
    var n := |Opening(kind)|;
    var body := text[n..];
    var end := UpToBrace(body);
    var arg, more := body[..end], body[end + 2..];
    ArgumentEnds(body, end);
    assert text == text[..n] + body;
    WrittenParts(kind, arg, more);
    assert Written(kind, arg) <= Written(kind, arg) + more;
  }

  /** Scanning takes a macro where one starts, and a single character where none does. */
  lemma ScanMacro(kind: MacroKind, arg: string, rest: string)
    requires '}' !in arg
    ensures Scan(Written(kind, arg) + rest) == [Macro(kind, arg)] + Scan(rest)
  {
    hide MacroAt;
    var text := Written(kind, arg) + rest;
    MacroRead(kind, arg, rest);
    assert text[|Written(kind, arg)|..] == rest;
    assert text != "";
  }

  lemma ScanPlain(text: string)
    requires text != "" && forall kind, arg :: !StartsWith(text, kind, arg)
    ensures Scan(text) == [Plain(text[0])] + Scan(text[1..])
  {
    hide MacroAt, StartsWith;
    forall kind | MacroAt(text, kind).Some?
      ensures false
    {
      FoundIsWritten(text, kind);
    }
  }

  /** A text is the sequence of its pieces. */
  function PieceText(piece: Piece): string {
    match piece
    case Plain(ch) => [ch]
    case Macro(kind, arg) => Written(kind, arg)
  }

  function PiecesText(pieces: seq<Piece>): string {
    if pieces == [] then "" else PieceText(pieces[0]) + PiecesText(pieces[1..])
  }

  lemma {:induction false} ScanLosesNothing(text: string)
    ensures PiecesText(Scan(text)) == text
    ensures forall i :: 0 <= i < |Scan(text)| && Scan(text)[i].Macro? ==> '}' !in Scan(text)[i].arg
    decreases |text|
  {
    hide MacroAt, StartsWith;
    if text != "" {
      if kind, arg :| StartsWith(text, kind, arg) {
        var written := Written(kind, arg);
        assert '}' !in arg && written <= text by { Starts(text, kind, arg); }
        var rest := text[|written|..];
        assert text == written + rest;
        assert written != "";
        ScanMacro(kind, arg, rest);
        ScanLosesNothing(rest);
      } else {
        ScanPlain(text);
        ScanLosesNothing(text[1..]);
        assert text == [text[0]] + text[1..];
      }
    }
  }

  lemma Starts(text: string, kind: MacroKind, arg: string)
    requires StartsWith(text, kind, arg)
    ensures '}' !in arg && Written(kind, arg) <= text
  {}

  /** No `%{` in the text. */
  predicate Bare(text: string) { !Contains(text, "%{") }

  predicate NoMacro(pieces: seq<Piece>) {
    forall i :: 0 <= i < |pieces| ==> pieces[i].Plain?
  }

  lemma BareScan(text: string)
    requires Bare(text)
    ensures NoMacro(Scan(text))
  {
    forall i | 0 <= i < |Scan(text)|
      ensures Scan(text)[i].Plain?
    {
      if Scan(text)[i].Macro? {
        MacroIsSeen(text, i);
      }
    }
  }

  /** A text without `%{` comes back as it is. */
  lemma BareStays(w: World, text: string, seen: set<string>)
    requires Bare(text)
    ensures Resolve(w, text, seen) == Outcome(text, [])
  {}

  // ----- What stands in place of the macros ---------------------------------------------------

  /** The text put in place of a piece; None where that is an error. */
  function Put(w: World, piece: Piece, seen: set<string>): Option<string> {
    match piece
    case Plain(ch) => Some([ch])
    case Macro(Env, raw) => if w.strip(raw) in w.env then Some(w.env[w.strip(raw)]) else None
    case Macro(File, raw) => if w.strip(raw) in w.files then Some(w.files[w.strip(raw)]) else None
    case Macro(Cfg, raw) =>
      var name := w.strip(raw);
      if name in seen || name !in w.settings || Resolve(w, w.settings[name], seen + {name}).errors != [] then None
      else Some(Resolve(w, w.settings[name], seen + {name}).text)
  }

  predicate AllPut(w: World, pieces: seq<Piece>, seen: set<string>) {
    forall i :: 0 <= i < |pieces| ==> Put(w, pieces[i], seen).Some?
  }

  function PutText(w: World, pieces: seq<Piece>, seen: set<string>): string
    requires AllPut(w, pieces, seen)
  {
    if pieces == [] then "" else
      assert pieces[0] in pieces;
      Put(w, pieces[0], seen).value + PutText(w, pieces[1..], seen)
  }

  lemma PutIsReplacement(w: World, piece: Piece, seen: set<string>)
    requires Put(w, piece, seen).Some?
    ensures Replacement(w, piece, seen) == Outcome(Put(w, piece, seen).value, [])
  {}

  lemma {:induction false} SubstitutePuts(w: World, pieces: seq<Piece>, seen: set<string>)
    requires AllPut(w, pieces, seen)
    ensures Substitute(w, pieces, seen) == Outcome(PutText(w, pieces, seen), [])
    decreases |pieces|
  {
    hide Put, Replacement;
    if pieces != [] {
      PutIsReplacement(w, pieces[0], seen);
      SubstitutePuts(w, pieces[1..], seen);
    }
  }

  lemma {:induction false} PlainPuts(w: World, pieces: seq<Piece>, seen: set<string>)
    requires NoMacro(pieces)
    ensures AllPut(w, pieces, seen) && PutText(w, pieces, seen) == PiecesText(pieces)
    decreases |pieces|
  {
    if pieces != [] {
      assert forall i :: 0 <= i < |pieces[1..]| ==> pieces[1..][i] == pieces[i + 1];
      PlainPuts(w, pieces[1..], seen);
      assert pieces[0].Plain?;
    }
  }

  /** Texts that follow one another, each with the macros of the one before it replaced. */
  predicate Follow(w: World, seen: set<string>, texts: seq<string>) {
    forall i :: 0 <= i < |texts| - 1 ==>
      AllPut(w, Scan(texts[i]), seen) && texts[i + 1] == PutText(w, Scan(texts[i]), seen) && texts[i + 1] != texts[i]
  }

  /** Nothing is left to replace. */
  predicate Stable(w: World, seen: set<string>, text: string) {
    AllPut(w, Scan(text), seen) && PutText(w, Scan(text), seen) == text
  }

  lemma MacroFreeIsStable(w: World, seen: set<string>, text: string)
    requires NoMacro(Scan(text))
    ensures Stable(w, seen, text)
  {
    PlainPuts(w, Scan(text), seen);
    ScanLosesNothing(text);
  }

  lemma {:induction false} RoundsFollow(w: World, seen: set<string>, texts: seq<string>, n: nat)
    requires 0 < |texts| <= n + 1 && Follow(w, seen, texts)
    requires |texts| == n + 1 || Stable(w, seen, texts[|texts| - 1])
    ensures Rounds(w, texts[0], seen, n) == Outcome(texts[|texts| - 1], [])
    decreases n
  {
    hide Scan, Substitute, PutText, AllPut;
    if n > 0 {
      if |texts| == 1 {
        SubstitutePuts(w, Scan(texts[0]), seen);
      } else {
        SubstitutePuts(w, Scan(texts[0]), seen);
        var rest := texts[1..];
        assert forall i :: 0 <= i < |rest| ==> rest[i] == texts[i + 1];
        RoundsFollow(w, seen, rest, n - 1);
      }
    }
  }

  /**
   Without errors, expansion replaces all macros at once, from left to right, up to eight times: it ends with the text
   in which nothing is left to replace, or with the eighth.
   */
  lemma ResolveFollows(w: World, seen: set<string>, texts: seq<string>)
    requires 0 < |texts| <= 9 && Follow(w, seen, texts) && Contains(texts[0], "%{")
    requires |texts| == 9 || Stable(w, seen, texts[|texts| - 1])
    ensures Resolve(w, texts[0], seen) == Outcome(texts[|texts| - 1], [])
  {
    RoundsFollow(w, seen, texts, 8);
  }

  /** If the replacements hold no macro, one round is all. */
  lemma OneRound(w: World, seen: set<string>, text: string)
    requires Contains(text, "%{") && AllPut(w, Scan(text), seen)
    requires NoMacro(Scan(PutText(w, Scan(text), seen)))
    ensures Resolve(w, text, seen) == Outcome(PutText(w, Scan(text), seen), [])
  {
    hide Scan, PutText, AllPut;
    var expanded := PutText(w, Scan(text), seen);
    MacroFreeIsStable(w, seen, expanded);
    if expanded == text {
      ResolveFollows(w, seen, [text]);
    } else {
      ResolveFollows(w, seen, [text, expanded]);
    }
  }

  // ----- One macro ----------------------------------------------------------------------------

  lemma BareInside(x: string, part: string, y: string)
    requires Bare(x + part + y)
    ensures Bare(part)
  {
    if k :| 0 <= k <= |part| && OccursAt(part, "%{", k) {
      assert (x + part + y)[|x| + k..|x| + k + 2] == part[k..k + 2];
      assert OccursAt(x + part + y, "%{", |x| + k);
    }
  }

  lemma BareParts(a: string, b: string, c: string)
    requires Bare(a + b + c)
    ensures Bare(a) && Bare(b) && Bare(c)
  {
    hide Bare;
    assert "" + a + (b + c) == a + b + c && a + b + c == (a + b) + c + "";
    BareInside("", a, b + c);
    BareInside(a, b, c);
    BareInside(a + b, c, "");
  }

  function Plains(text: string): seq<Piece> {
    if text == "" then [] else [Plain(text[0])] + Plains(text[1..])
  }

  lemma NoMacroHere(a: string, rest: string)
    requires a != "" && Bare(a) && (rest != "" ==> rest[0] != '{')
    ensures forall kind, arg :: !StartsWith(a + rest, kind, arg)
  {
    hide StartsWith, Bare;
    if |a| > 1 && a[0] == '%' && a[1] == '{' {
      OpensContain(a);
    }
    forall kind, arg
      ensures !StartsWith(a + rest, kind, arg)
    {
      if StartsWith(a + rest, kind, arg) {
        MacroOpens(a + rest, kind, arg);
      }
    }
  }

  lemma OpensContain(a: string)
    requires |a| > 1 && a[0] == '%' && a[1] == '{'
    ensures !Bare(a)
  {
    assert a[0..2] == "%{";
    assert OccursAt(a, "%{", 0);
  }

  lemma {:induction false} ScanPrefix(a: string, rest: string)
    requires Bare(a) && (rest != "" ==> rest[0] != '{')
    ensures Scan(a + rest) == Plains(a) + Scan(rest)
  {
    hide Scan, StartsWith, Bare;
    if a == "" {
      assert a + rest == rest;
    } else {
      var text := a + rest;
      assert text[1..] == a[1..] + rest;
      NoMacroHere(a, rest);
      ScanPlain(text);
      assert [a[0]] + a[1..] + "" == a;
      BareInside([a[0]], a[1..], "");
      ScanPrefix(a[1..], rest);
      Associates([Plain(a[0])], Plains(a[1..]), Scan(rest));
    }
  }

  lemma MacroOpens(text: string, kind: MacroKind, arg: string)
    requires StartsWith(text, kind, arg)
    ensures |text| >= 2 && text[0] == '%' && text[1] == '{'
  {
    WrittenParts(kind, arg, "");
    assert Written(kind, arg)[0] == '%' && Written(kind, arg)[1] == '{';
  }

  lemma {:induction false} PutPlains(w: World, a: string, pieces: seq<Piece>, seen: set<string>)
    requires AllPut(w, pieces, seen)
    ensures AllPut(w, Plains(a) + pieces, seen)
    ensures PutText(w, Plains(a) + pieces, seen) == a + PutText(w, pieces, seen)
  {
    hide AllPut;
    if a == "" {
      assert Plains(a) + pieces == pieces;
      assert a + PutText(w, pieces, seen) == PutText(w, pieces, seen);
    } else {
      PutPlains(w, a[1..], pieces, seen);
      assert Plains(a) + pieces == [Plain(a[0])] + (Plains(a[1..]) + pieces);
      PutFirst(w, Plain(a[0]), Plains(a[1..]) + pieces, seen);
      assert a == [a[0]] + a[1..];
      Associates([a[0]], a[1..], PutText(w, pieces, seen));
    }
  }

  lemma PutFirst(w: World, piece: Piece, rest: seq<Piece>, seen: set<string>)
    requires AllPut(w, rest, seen) && Put(w, piece, seen).Some?
    ensures AllPut(w, [piece] + rest, seen)
    ensures PutText(w, [piece] + rest, seen) == Put(w, piece, seen).value + PutText(w, rest, seen)
  {
    hide Put;
    assert ([piece] + rest)[1..] == rest;
  }

  lemma PutNothing(w: World, seen: set<string>)
    ensures AllPut(w, [], seen) && PutText(w, [], seen) == ""
  {}

  lemma PutBare(w: World, a: string, seen: set<string>)
    ensures AllPut(w, Plains(a), seen) && PutText(w, Plains(a), seen) == a
  {
    hide AllPut, PutText;
    PutNothing(w, seen);
    PutPlains(w, a, [], seen);
    assert Plains(a) + [] == Plains(a) && a + "" == a;
  }

  /** A text with one macro. */
  lemma OneMacroScan(a: string, kind: MacroKind, arg: string, b: string)
    requires '}' !in arg && Bare(a) && Bare(b)
    ensures Scan(a + Written(kind, arg) + b) == Plains(a) + ([Macro(kind, arg)] + Plains(b))
    ensures Contains(a + Written(kind, arg) + b, "%{")
  {
    hide Scan;
    var text := Written(kind, arg) + b;
    Associates(a, Written(kind, arg), b);
    MacroOpens(text, kind, arg) by { assert Written(kind, arg) <= text; }
    ScanPrefix(a, text);
    ScanMacro(kind, arg, b);
    ScanPrefix(b, "");
    assert b + "" == b;
    assert Scan("") == [] by { ScanNothing(); }
    assert Plains(b) + [] == Plains(b);
    assert (a + text)[|a|..|a| + 2] == "%{";
    assert OccursAt(a + text, "%{", |a|);
  }

  lemma ScanNothing()
    ensures Scan("") == []
  {}

  /** A macro between two texts is replaced by the file, the variable, or the expansion of the setting it names. */
  lemma OneMacro(w: World, a: string, kind: MacroKind, arg: string, b: string, seen: set<string>)
    requires '}' !in arg && Put(w, Macro(kind, arg), seen).Some?
    requires Bare(a + Put(w, Macro(kind, arg), seen).value + b)
    ensures Resolve(w, a + Written(kind, arg) + b, seen) == Outcome(a + Put(w, Macro(kind, arg), seen).value + b, [])
  {
    hide Scan, Put, Bare, Resolve;
    var content, text := Put(w, Macro(kind, arg), seen).value, a + Written(kind, arg) + b;
    BareParts(a, content, b);
    OneMacroScan(a, kind, arg, b);
    hide AllPut, PutText;
    var pieces := [Macro(kind, arg)] + Plains(b);
    PutBare(w, b, seen);
    PutFirst(w, Macro(kind, arg), Plains(b), seen);
    PutPlains(w, a, pieces, seen);
    Associates(a, content, b);
    BareScan(a + content + b);
    OneRound(w, seen, text);
  }

  /** The complaint about a macro that names nothing. */
  function Complaints(w: World, kind: MacroKind, arg: string, seen: set<string>): Option<Complaint> {
    var name := w.strip(arg);
    match kind
    case Env => if name in w.env then None else Some(NoVariable(name))
    case File => if name in w.files then None else Some(Unreadable(name))
    case Cfg =>
      if name in seen then Some(Circular(name))
      else if name !in w.settings then Some(UnknownSetting(name))
      else None
  }

  /** Such a macro is dropped with exactly its complaint. */
  lemma OneComplaint(w: World, a: string, kind: MacroKind, arg: string, b: string, seen: set<string>)
    requires '}' !in arg && Complaints(w, kind, arg, seen).Some? && Bare(a + b)
    ensures Resolve(w, a + Written(kind, arg) + b, seen) == Outcome(a + b, [Complaints(w, kind, arg, seen).value])
  {
    hide Scan, Bare;
    var text := a + Written(kind, arg) + b;
    assert a + b == a + b + "";
    BareParts(a, b, "");
    OneMacroScan(a, kind, arg, b);
    hide Resolve, Stable, AllPut, PutText, Contains;
    var pieces := [Macro(kind, arg)] + Plains(b);
    BareScan(a + b);
    MacroFreeIsStable(w, seen, a + b);
    BareIsClean(a + b);
    PutBare(w, b, seen);
    SubstitutePuts(w, Plains(b), seen);
    FirstComplains(w, kind, arg, Plains(b), seen);
    SubstitutePlains(w, a, pieces, seen);
    LastRounds(w, seen, text, a + b, [Complaints(w, kind, arg, seen).value]);
  }

  lemma BareIsClean(text: string)
    requires Bare(text)
    ensures !Contains(text, "%{")
  {}

  lemma FirstComplains(w: World, kind: MacroKind, arg: string, rest: seq<Piece>, seen: set<string>)
    requires Complaints(w, kind, arg, seen).Some? && Substitute(w, rest, seen).errors == []
    ensures Substitute(w, [Macro(kind, arg)] + rest, seen)
         == Outcome(Substitute(w, rest, seen).text, [Complaints(w, kind, arg, seen).value])
  {
    assert ([Macro(kind, arg)] + rest)[1..] == rest;
    assert "" + Substitute(w, rest, seen).text == Substitute(w, rest, seen).text;
  }

  lemma {:induction false} SubstitutePlains(w: World, a: string, pieces: seq<Piece>, seen: set<string>)
    ensures var o := Substitute(w, pieces, seen);
            Substitute(w, Plains(a) + pieces, seen) == Outcome(a + o.text, o.errors)
  {
    var o := Substitute(w, pieces, seen);
    if a == "" {
      assert Plains(a) + pieces == pieces && a + o.text == o.text;
    } else {
      SubstitutePlains(w, a[1..], pieces, seen);
      var all := Plains(a) + pieces;
      assert all == [Plain(a[0])] + (Plains(a[1..]) + pieces);
      assert all[1..] == Plains(a[1..]) + pieces;
      assert a == [a[0]] + a[1..];
      Associates([a[0]], a[1..], o.text);
    }
  }

  lemma LastRounds(w: World, seen: set<string>, text: string, next: string, errors: seq<Complaint>)
    requires Contains(text, "%{") && !Contains(next, "%{") && Stable(w, seen, next)
    requires Substitute(w, Scan(text), seen) == Outcome(next, errors)
    ensures Resolve(w, text, seen) == Outcome(next, errors)
  {
    hide Scan, Substitute, Stable;
    assert [next][|[next]| - 1] == next;
    RoundsFollow(w, seen, [next], 7);
    assert text != next;
    assert errors + [] == errors;
  }
}
