/** The signature settings the migration script reads (resources/scripts/migrate_v016.py). */
module Signatures {
  import opened Common
  import opened Sorting
  import opened Records
  import Macros
  import MacroExpansion
  import SubTrees

  /** One `signature.<id>.` subtree of the settings. */
  type Signature = map<string, string>

  const RELAXED := "relaxed/relaxed"

  function Get(s: Signature, key: string, missing: string): string { if key in s then s[key] else missing }

  function DomainOf(t: Texts, s: Signature): string { t.stripLower(Get(s, "domain", "")) }

  function SelectorOf(t: Texts, s: Signature): string { t.strip(Get(s, "selector", "")) }

  /** Only two algorithms are kept. */
  function AlgorithmOf(t: Texts, s: Signature): Option<Algorithm> {
    var name := t.stripLower(Get(s, "algorithm", ""));
    if name == "ed25519-sha256" then Some(Ed25519Sha256)
    else if name == "rsa-sha256" then Some(RsaSha256)
    else None
  }

  function CanonicalizationOf(t: Texts, s: Signature): string {
    var canon := t.stripLower(Get(s, "canonicalization", RELAXED));
    if canon == "" then RELAXED else canon
  }

  /** The key with its macros expanded; None when it is missing, empty, or did not expand. */
  function PrivateKeyOf(t: Texts, w: Macros.World, s: Signature): Option<string> {
    if "private-key" !in s then None
    else
      var o := Macros.Resolve(w, s["private-key"], {});
      var key := t.strip(o.text);
      if o.errors != [] || key == "" || Contains(key, "%{") then None else Some(key)
  }

  predicate IsUsable(t: Texts, w: Macros.World, s: Signature) {
    AlgorithmOf(t, s).Some? && SelectorOf(t, s) != "" && PrivateKeyOf(t, w, s).Some?
  }

  /** The private key is the content of the file at `path`, which holds no macro itself. */
  predicate KeyInFile(t: Texts, w: Macros.World, s: Signature, path: string) {
    && "private-key" in s && s["private-key"] == "%{file:" + path + "}%" && '}' !in path
    && w.strip(path) in w.files
    && var content := w.files[w.strip(path)];
       !Contains(content, "%{") && t.strip(content) != "" && !Contains(t.strip(content), "%{")
  }

  lemma KeyIsContent(t: Texts, w: Macros.World, s: Signature, path: string)
    requires KeyInFile(t, w, s, path)
    ensures PrivateKeyOf(t, w, s) == Some(t.strip(w.files[w.strip(path)]))
  {
    hide Macros.Resolve, Contains;
    var content := w.files[w.strip(path)];
    var key := MacroExpansion.Written(Macros.File, path);
    assert key == "%{file:" + path + "}%" by { MacroExpansion.WrittenParts(Macros.File, path, ""); }
    assert "" + key + "" == key && "" + content + "" == content;
    assert MacroExpansion.Bare(content);
    MacroExpansion.OneMacro(w, "", Macros.File, path, "", {});
  }

  lemma InFiles(t: Texts, w: Macros.World, s: Signature, path: string)
    requires KeyInFile(t, w, s, path)
    ensures w.strip(path) in w.files
  {}

  /** What the settings say, key by key. */
  lemma SettingsRead(t: Texts, s: Signature)
    requires "algorithm" in s && "selector" in s && "domain" in s
    ensures AlgorithmOf(t, s) == Some(Ed25519Sha256) <==> t.stripLower(s["algorithm"]) == "ed25519-sha256"
    ensures AlgorithmOf(t, s) == Some(RsaSha256) <==> t.stripLower(s["algorithm"]) == "rsa-sha256"
    ensures SelectorOf(t, s) == t.strip(s["selector"]) && DomainOf(t, s) == t.stripLower(s["domain"])
    ensures "canonicalization" in s && t.stripLower(s["canonicalization"]) != "" ==>
              CanonicalizationOf(t, s) == t.stripLower(s["canonicalization"])
    ensures "canonicalization" in s && t.stripLower(s["canonicalization"]) == "" ==>
              CanonicalizationOf(t, s) == "relaxed/relaxed"
    ensures "canonicalization" !in s && t.stripLower("relaxed/relaxed") == "relaxed/relaxed" ==>
              CanonicalizationOf(t, s) == "relaxed/relaxed"
  {}

  /** The signature subtrees of the settings in the order of their ids. */
  ghost predicate SignaturesIn(settings: SubTrees.Settings, signatures: seq<Signature>) {
    exists ids, trees, sorted :: InOrder(settings, ids, trees, sorted, signatures)
  }

  ghost predicate InOrder(settings: SubTrees.Settings, ids: seq<string>, trees: SubTrees.Trees, sorted: seq<string>,
                          signatures: seq<Signature>) {
    && SubTrees.Partition(settings, "signature", "algorithm", ids, trees)
    && Ordered(sorted, false) && (forall id :: id in sorted <==> id in trees)
    && (forall i, j :: 0 <= i < j < |sorted| ==> sorted[i] != sorted[j])
    && |signatures| == |sorted| && forall i :: 0 <= i < |sorted| ==> sorted[i] in trees && signatures[i] == trees[sorted[i]]
  }

  method SignatureTrees(settings: SubTrees.Settings) returns (signatures: seq<Signature>)
    requires SubTrees.IsDict(settings)
    ensures SignaturesIn(settings, signatures)
  {
    hide SubTrees.Partition, Ordered;
    var trees := SubTrees.BuildSubTrees(settings, "signature", "algorithm");
    ghost var ids :| SubTrees.Partition(settings, "signature", "algorithm", ids, trees);
    var sorted := SortedSet(trees.Keys);
    signatures := [];
    for i := 0 to |sorted|
      invariant |signatures| == i
      invariant forall j :: 0 <= j < i ==> sorted[j] in trees && signatures[j] == trees[sorted[j]]
    {
      assert sorted[i] in sorted;
      signatures := signatures + [trees[sorted[i]]];
    }
    assert InOrder(settings, ids, trees, sorted, signatures);
  }
}
