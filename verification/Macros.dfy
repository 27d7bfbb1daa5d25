/** Macro expansion in settings (`resolve_macros` of resources/scripts/migrate_v016.py). */
module Macros {
  import opened Common

  // ----- Scanning -----------------------------------------------------------------------------

  datatype MacroKind = Cfg | Env | File

  datatype Piece = Plain(ch: char) | Macro(kind: MacroKind, arg: string)

  function Opening(kind: MacroKind): string {
    match kind
    case Cfg => "%{cfg:"
    case Env => "%{env:"
    case File => "%{file:"
  }

  function UpToBrace(text: string): (n: nat)
    ensures n <= |text| && (n < |text| ==> text[n] == '}') && '}' !in text[..n]
  {
    if text == "" || text[0] == '}' then 0 else 1 + UpToBrace(text[1..])
  }

  /** The macro of the given kind at the start of the text: its argument and its length. */
  function MacroAt(text: string, kind: MacroKind): (m: Option<(string, nat)>)
    ensures m.Some? ==> 0 < m.value.1 <= |text| && OccursAt(text, "%{", 0)
  {
    var n := |Opening(kind)|;
    if n > |text| || text[..n] != Opening(kind) then None
    else
      assert text[..n][..2] == text[..2] == "%{";
      var body := text[n..];
      var end := UpToBrace(body);
      if end + 1 < |body| && body[end + 1] == '%' then Some((body[..end], n + end + 2)) else None
  }

  /** The pieces the pattern `%\{(cfg|env|file):([^}]*)\}%` splits a text into, from left to right. */
  function Scan(text: string): seq<Piece> {
    if text == "" then []
    else
      match (MacroAt(text, Cfg), MacroAt(text, Env), MacroAt(text, File))
      case (Some(m), _, _) => [Macro(Cfg, m.0)] + Scan(text[m.1..])
      case (None, Some(m), _) => [Macro(Env, m.0)] + Scan(text[m.1..])
      case (None, None, Some(m)) => [Macro(File, m.0)] + Scan(text[m.1..])
      case _ => [Plain(text[0])] + Scan(text[1..])
  }

  // ----- Resolution ---------------------------------------------------------------------------

  /** Settings, environment and readable files; `strip` is Python's. */
  datatype World = World(settings: map<string, string>, env: map<string, string>, files: map<string, string>,
                         strip: string -> string)

  datatype Complaint = Circular(arg: string) | UnknownSetting(arg: string) | NoVariable(arg: string) | Unreadable(arg: string)

  datatype Outcome = Outcome(text: string, errors: seq<Complaint>)

  function Lookup(from: map<string, string>, arg: string, missing: Complaint): Outcome {
    if arg in from then Outcome(from[arg], []) else Outcome("", [missing])
  }

  /** Expansion ends because a nested setting is never one of those being expanded. */
  function Resolve(w: World, value: string, seen: set<string>): Outcome
    decreases w.settings.Keys - seen, 3, 0
  {
    if !Contains(value, "%{") then Outcome(value, []) else Rounds(w, value, seen, 8)
  }

  /** Substitutes until nothing changes, at most `n` times. */
  function Rounds(w: World, prev: string, seen: set<string>, n: nat): Outcome
    decreases w.settings.Keys - seen, 2, n
  {
    if n == 0 then Outcome(prev, [])
    else
      var cur := Substitute(w, Scan(prev), seen);
      if cur.text == prev then cur
      else
        var rest := Rounds(w, cur.text, seen, n - 1);
        Outcome(rest.text, cur.errors + rest.errors)
  }

  function Substitute(w: World, pieces: seq<Piece>, seen: set<string>): Outcome
    decreases w.settings.Keys - seen, 1, |pieces|
  {
    if pieces == [] then Outcome("", [])
    else
      var first := Replacement(w, pieces[0], seen);
      var rest := Substitute(w, pieces[1..], seen);
      Outcome(first.text + rest.text, first.errors + rest.errors)
  }

  function Replacement(w: World, piece: Piece, seen: set<string>): Outcome
    decreases w.settings.Keys - seen, 0, 0
  {
    match piece
    case Plain(ch) => Outcome([ch], [])
    case Macro(kind, raw) =>
      var arg := w.strip(raw);
      match kind
      case Env => Lookup(w.env, arg, NoVariable(arg))
      case File => Lookup(w.files, arg, Unreadable(arg))
      case Cfg =>
        if arg in seen then Outcome("", [Circular(arg)])
        else if arg !in w.settings then Outcome("", [UnknownSetting(arg)])
        else
          assert arg in w.settings.Keys - seen && arg !in w.settings.Keys - (seen + {arg});
          Resolve(w, w.settings[arg], seen + {arg})
  }

  // ----- Chains of references -----------------------------------------------------------------

  /** `value` refers to the setting `arg`. */
  predicate RefersTo(w: World, value: string, arg: string) {
    exists i :: 0 <= i < |Scan(value)| && Scan(value)[i].Macro? && Scan(value)[i].kind.Cfg? && w.strip(Scan(value)[i].arg) == arg
  }

  /** A chain of settings, each referred to by the one before it, the first by `value`. */
  predicate IsChain(w: World, value: string, chain: seq<string>)
    decreases |chain|
  {
    chain == [] || (RefersTo(w, value, chain[0])
                    && (chain[0] in w.settings ==> IsChain(w, w.settings[chain[0]], chain[1..]))
                    && (chain[0] !in w.settings ==> |chain| == 1))
  }

  /** A text with a macro passes the test for `%{`. */
  lemma {:induction false} MacroIsSeen(text: string, i: nat)
    requires i < |Scan(text)| && Scan(text)[i].Macro?
    ensures Contains(text, "%{")
    decreases |text|
  {
    hide MacroAt, Opening, UpToBrace;
    if Scan(text)[0].Macro? {
      assert OccursAt(text, "%{", 0);
    } else {
      MacroIsSeen(text[1..], i - 1);
      var k :| 0 <= k <= |text[1..]| && OccursAt(text[1..], "%{", k);
      assert text[1..][k..k + 2] == text[k + 1..k + 3];
      assert OccursAt(text, "%{", k + 1);
    }
  }

  lemma {:induction false} SubstituteErrors(w: World, pieces: seq<Piece>, seen: set<string>, i: nat)
    requires i < |pieces| && Substitute(w, pieces, seen).errors == []
    ensures Replacement(w, pieces[i], seen).errors == []
    decreases |pieces|
  {
    if i == 0 {
    } else {
      assert pieces[1..][i - 1] == pieces[i];
      SubstituteErrors(w, pieces[1..], seen, i - 1);
    }
  }

  /** Without errors a reference is to an existing setting outside `seen` that itself expands without errors. */
  lemma NoErrorsBelow(w: World, value: string, seen: set<string>, arg: string)
    requires Resolve(w, value, seen).errors == [] && RefersTo(w, value, arg)
    ensures arg in w.settings && arg !in seen && Resolve(w, w.settings[arg], seen + {arg}).errors == []
  {
    var i :| 0 <= i < |Scan(value)| && Scan(value)[i].Macro? && Scan(value)[i].kind.Cfg? && w.strip(Scan(value)[i].arg) == arg;
    MacroIsSeen(value, i);
    var cur := Substitute(w, Scan(value), seen);
    assert cur.errors == [];
    SubstituteErrors(w, Scan(value), seen, i);
  }

  /** When expansion reports no error, every chain of references names existing settings and never repeats. */
  lemma {:induction false} CleanMeansAcyclic(w: World, value: string, seen: set<string>, chain: seq<string>)
    requires Resolve(w, value, seen).errors == [] && IsChain(w, value, chain)
    ensures forall i :: 0 <= i < |chain| ==> chain[i] in w.settings && chain[i] !in seen
    ensures forall i, j :: 0 <= i < j < |chain| ==> chain[i] != chain[j]
    decreases |chain|
  {
    if chain == [] {
    } else {
      NoErrorsBelow(w, value, seen, chain[0]);
      CleanMeansAcyclic(w, w.settings[chain[0]], seen + {chain[0]}, chain[1..]);
      forall i | 0 < i < |chain|
        ensures chain[i] in w.settings && chain[i] !in seen && chain[i] != chain[0]
      {
        assert chain[1..][i - 1] == chain[i];
      }
      forall i, j | 0 <= i < j < |chain|
        ensures chain[i] != chain[j]
      {
        if i > 0 {
          assert chain[1..][i - 1] == chain[i] && chain[1..][j - 1] == chain[j];
        }
      }
    }
  }
}
