/**
 Grouping flat settings into per-record trees (`build_sub_trees` of resources/scripts/migrate_v016.py).
 */
module SubTrees {
  import opened Sorting

  type Settings = seq<(string, string)>

  /** A Python dict, in insertion order: no key twice. */
  predicate IsDict(settings: Settings) {
    forall i, j :: 0 <= i < j < |settings| ==> settings[i].0 != settings[j].0
  }

  /** The text every key of a record starts with. */
  function Head(prefix: string, id: string): string { prefix + "." + id + "." }

  /** The record a discriminator key names; empty when prefix and suffix overlap. */
  function RecordId(prefix: string, discriminator: string, key: string): string {
    var lo, hi := |prefix| + 1, |key| - |discriminator| - 1;
    if prefix + "." <= key && |discriminator| + 1 <= |key| && key[hi..] == "." + discriminator && lo <= hi
    then key[lo..hi] else ""
  }

  predicate IsRecord(settings: Settings, prefix: string, discriminator: string, id: string) {
    id != "" && exists i :: 0 <= i < |settings| && RecordId(prefix, discriminator, settings[i].0) == id
  }

  /** `id` is the longest record id whose head the key starts with. */
  predicate Owns(ids: seq<string>, prefix: string, id: string, key: string) {
    id in ids && Head(prefix, id) <= key && forall other :: other in ids && Head(prefix, other) <= key ==> |other| <= |id|
  }

  lemma DiscriminatorKey(prefix: string, discriminator: string, key: string)
    ensures var id := RecordId(prefix, discriminator, key);
            id != "" ==> key == Head(prefix, id) + discriminator
  {
    var id := RecordId(prefix, discriminator, key);
    if id != "" {
      var lo, hi := |prefix| + 1, |key| - |discriminator| - 1;
      assert key == key[..lo] + key[lo..hi] + key[hi..];
      assert key[..lo] == prefix + ".";
    }
  }

  /** A key names exactly the record that stands between the prefix and the discriminator. */
  lemma RecordIdExactly(prefix: string, discriminator: string, key: string, id: string)
    requires id != ""
    ensures RecordId(prefix, discriminator, key) == id <==> key == prefix + "." + id + "." + discriminator
  {
    DiscriminatorKey(prefix, discriminator, key);
    if key == prefix + "." + id + "." + discriminator {
      var lo, hi := |prefix| + 1, |key| - |discriminator| - 1;
      assert key[lo..hi] == id && key[hi..] == "." + discriminator;
      assert key[..lo] == prefix + ".";
    }
  }

  /** Two ids whose heads both start a key: the shorter one's head starts the longer one's. */
  lemma HeadsNest(prefix: string, a: string, b: string, key: string)
    requires Head(prefix, a) <= key && Head(prefix, b) <= key && |a| <= |b|
    ensures Head(prefix, a) <= Head(prefix, b) && (|a| == |b| ==> a == b)
  {
    var n := |prefix| + 1;
    assert key[..|Head(prefix, b)|] == Head(prefix, b);
    assert Head(prefix, a)[n..n + |a|] == a && Head(prefix, b)[n..n + |b|] == b;
    if |a| == |b| {
      assert Head(prefix, a) == key[..n + |a| + 1] == Head(prefix, b);
    }
  }

  /** A key has at most one owner, and one as soon as any head starts it. */
  lemma {:induction false} OwnerIsUnique(ids: seq<string>, prefix: string, a: string, b: string, key: string)
    requires Owns(ids, prefix, a, key) && Owns(ids, prefix, b, key)
    ensures a == b
  {
    HeadsNest(prefix, a, b, key);
  }

  lemma {:induction false} OwnerExists(ids: seq<string>, prefix: string, key: string) returns (owner: string)
    requires exists id :: id in ids && Head(prefix, id) <= key
    ensures Owns(ids, prefix, owner, key)
  {
    var init, last := ids[..|ids| - 1], ids[|ids| - 1];
    assert ids == init + [last];
    if exists id :: id in init && Head(prefix, id) <= key {
      owner := OwnerExists(init, prefix, key);
      if Head(prefix, last) <= key && |last| > |owner| {
        owner := last;
      }
    } else {
      owner := last;
    }
  }

  method RecordIds(settings: Settings, prefix: string, discriminator: string) returns (ids: seq<string>)
    requires IsDict(settings)
    ensures forall id :: id in ids <==> IsRecord(settings, prefix, discriminator, id)
    ensures forall i, j :: 0 <= i < j < |ids| ==> ids[i] != ids[j]
  {
    ids := [];
    for n := 0 to |settings|
      invariant forall id :: id in ids <==> IsRecord(settings[..n], prefix, discriminator, id)
      invariant forall i, j :: 0 <= i < j < |ids| ==> ids[i] != ids[j]
    {
      var key := settings[n].0;
      var id := RecordId(prefix, discriminator, key);
      assert settings[..n + 1] == settings[..n] + [settings[n]];
      if id != "" {
        if id in ids {
          var i :| 0 <= i < n && RecordId(prefix, discriminator, settings[..n][i].0) == id;
          DiscriminatorKey(prefix, discriminator, settings[i].0);
          DiscriminatorKey(prefix, discriminator, key);
          assert false;
        }
        ids := ids + [id];
      }
      RecordsOfMore(settings[..n], settings[n], prefix, discriminator);
    }
    assert settings[..|settings|] == settings;
  }

  lemma RecordsOfMore(settings: Settings, more: (string, string), prefix: string, discriminator: string)
    ensures forall id :: IsRecord(settings + [more], prefix, discriminator, id)
                         <==> IsRecord(settings, prefix, discriminator, id)
                              || (id != "" && RecordId(prefix, discriminator, more.0) == id)
  {
    var all := settings + [more];
    assert all[|settings|] == more;
    forall id | IsRecord(settings, prefix, discriminator, id)
      ensures IsRecord(all, prefix, discriminator, id)
    {
      var i :| 0 <= i < |settings| && RecordId(prefix, discriminator, settings[i].0) == id;
      assert all[i] == settings[i];
    }
  }

  type Trees = map<string, map<string, string>>

  /** A tree holds exactly the settings its record owns, under what follows the record's head. */
  ghost predicate HoldsOwned(tree: map<string, string>, settings: Settings, prefix: string, ids: seq<string>, id: string) {
    var head := Head(prefix, id);
    && (forall sub :: sub in tree ==> (head + sub, tree[sub]) in settings && Owns(ids, prefix, id, head + sub))
    && (forall i :: 0 <= i < |settings| && Owns(ids, prefix, id, settings[i].0) ==>
          settings[i].0[|head|..] in tree && tree[settings[i].0[|head|..]] == settings[i].1)
  }

  /** Among the first `n` settings, some head of the first `r` ids starts the key. */
  ghost predicate Claimed(settings: Settings, prefix: string, ids: seq<string>, r: nat, key: string)
    requires r <= |ids|
  {
    (exists i :: 0 <= i < |settings| && settings[i].0 == key) && exists j :: 0 <= j < r && Head(prefix, ids[j]) <= key
  }

  /** Moves the unclaimed settings under one head into a tree. */
  method Claim(settings: Settings, head: string, claimed: set<string>)
    returns (tree: map<string, string>, claimed': set<string>)
    requires IsDict(settings)
    ensures forall sub :: sub in tree ==> (head + sub, tree[sub]) in settings && head + sub !in claimed
    ensures forall i :: 0 <= i < |settings| && head <= settings[i].0 && settings[i].0 !in claimed ==>
              settings[i].0[|head|..] in tree && tree[settings[i].0[|head|..]] == settings[i].1
    ensures forall k :: k in claimed' <==> k in claimed || (head <= k && exists i :: 0 <= i < |settings| && settings[i].0 == k)
  {
    tree, claimed' := map[], claimed;
    for n := 0 to |settings|
      invariant forall sub :: sub in tree ==>
                  head + sub !in claimed && exists i :: 0 <= i < n && settings[i] == (head + sub, tree[sub])
      invariant forall i :: 0 <= i < n && head <= settings[i].0 && settings[i].0 !in claimed ==>
                  settings[i].0[|head|..] in tree && tree[settings[i].0[|head|..]] == settings[i].1
      invariant forall k :: k in claimed' <==> k in claimed || (head <= k && exists i :: 0 <= i < n && settings[i].0 == k)
    {
      var (k, v) := settings[n];
      if k !in claimed' && head <= k {
        var sub := k[|head|..];
        assert k == head + sub;
        forall i | 0 <= i < n && head <= settings[i].0
          ensures settings[i].0[|head|..] != sub
        {
          assert settings[i].0 == head + settings[i].0[|head|..];
        }
        tree := tree[sub := v];
        claimed' := claimed' + {k};
      }
    }
  }

  /** In length order, being first to claim a key means owning it. */
  lemma FirstClaimOwns(ids: seq<string>, sorted: seq<string>, prefix: string, r: nat, key: string)
    requires r < |sorted| && SortedCopy(ids, sorted)
    ensures Owns(ids, prefix, sorted[r], key)
       <==> Head(prefix, sorted[r]) <= key && !exists j :: 0 <= j < r && Head(prefix, sorted[j]) <= key
  {
    var id := sorted[r];
    if Owns(ids, prefix, id, key) {
      forall j | 0 <= j < r && Head(prefix, sorted[j]) <= key
        ensures false
      {
        assert !Before(sorted[r], sorted[j], true);
        assert sorted[j] in ids && |sorted[j]| <= |id|;
        HeadsNest(prefix, sorted[j], id, key);
      }
    }
    if Head(prefix, id) <= key && !exists j :: 0 <= j < r && Head(prefix, sorted[j]) <= key {
      forall other | other in ids && Head(prefix, other) <= key
        ensures |other| <= |id|
      {
        assert other in sorted;
        var j :| 0 <= j < |sorted| && sorted[j] == other;
        assert j >= r;
        if j > r {
          assert !Before(sorted[j], sorted[r], true);
        }
      }
    }
  }

  /** The ids sorted by decreasing length, without repetition. */
  ghost predicate SortedCopy(ids: seq<string>, sorted: seq<string>) {
    && Sorting.Ordered(sorted, true)
    && (forall id :: id in ids <==> id in sorted)
    && forall i, j :: 0 <= i < j < |sorted| ==> sorted[i] != sorted[j]
  }

  /** One tree for each of the record ids, holding the settings it owns. */
  ghost predicate Partition(settings: Settings, prefix: string, discriminator: string, ids: seq<string>, trees: Trees) {
    && (forall id :: id in ids <==> IsRecord(settings, prefix, discriminator, id))
    && (forall id :: id in trees <==> id in ids)
    && (forall id :: id in trees ==> HoldsOwned(trees[id], settings, prefix, ids, id))
  }

  /** The trees partition the headed settings by the longest record id. */
  method BuildSubTrees(settings: Settings, prefix: string, discriminator: string) returns (trees: Trees)
    requires IsDict(settings)
    ensures exists ids :: Partition(settings, prefix, discriminator, ids, trees)
  {
    var recordIds := RecordIds(settings, prefix, discriminator);
    var sorted := Sort(recordIds, true);
    ghost var ids := recordIds;
    CountsDistinct(ids, sorted);
    var claimed: set<string> := {};
    trees := map[];
    for r := 0 to |sorted|
      invariant SortedCopy(ids, sorted)
      invariant forall k :: k in claimed <==> Claimed(settings, prefix, sorted, r, k)
      invariant forall id :: id in trees <==> id in sorted[..r]
      invariant forall id :: id in trees ==> HoldsOwned(trees[id], settings, prefix, ids, id)
    {
      var id := sorted[r];
      var tree, claimed' := Claim(settings, Head(prefix, id), claimed);
      OwnedTree(settings, prefix, ids, sorted, r, claimed, tree);
      forall k
        ensures Claimed(settings, prefix, sorted, r + 1, k)
           <==> Claimed(settings, prefix, sorted, r, k)
                || (Head(prefix, id) <= k && exists i :: 0 <= i < |settings| && settings[i].0 == k)
      {
      }
      claimed := claimed';
      assert sorted[..r + 1] == sorted[..r] + [id];
      trees := trees[id := tree];
    }
    assert sorted[..|sorted|] == sorted;
    assert Partition(settings, prefix, discriminator, ids, trees);
  }

  lemma OwnedTree(settings: Settings, prefix: string, ids: seq<string>, sorted: seq<string>, r: nat, claimed: set<string>,
                  tree: map<string, string>)
    requires r < |sorted| && SortedCopy(ids, sorted)
    requires forall k :: k in claimed <==> Claimed(settings, prefix, sorted, r, k)
    requires var head := Head(prefix, sorted[r]);
             && (forall sub :: sub in tree ==> (head + sub, tree[sub]) in settings && head + sub !in claimed)
             && (forall i :: 0 <= i < |settings| && head <= settings[i].0 && settings[i].0 !in claimed ==>
                   settings[i].0[|head|..] in tree && tree[settings[i].0[|head|..]] == settings[i].1)
    ensures HoldsOwned(tree, settings, prefix, ids, sorted[r])
  {
    var head := Head(prefix, sorted[r]);
    forall sub | sub in tree
      ensures Owns(ids, prefix, sorted[r], head + sub)
    {
      FirstClaimOwns(ids, sorted, prefix, r, head + sub);
      var i :| 0 <= i < |settings| && settings[i] == (head + sub, tree[sub]);
      assert !Claimed(settings, prefix, sorted, r, head + sub);
    }
    forall i | 0 <= i < |settings| && Owns(ids, prefix, sorted[r], settings[i].0)
      ensures head <= settings[i].0 && settings[i].0 !in claimed
    {
      FirstClaimOwns(ids, sorted, prefix, r, settings[i].0);
    }
  }

  /** Every setting under some record head is in exactly one tree, with its value. */
  lemma ExactlyOneTree(settings: Settings, prefix: string, discriminator: string, ids: seq<string>, trees: Trees, i: nat)
    requires Partition(settings, prefix, discriminator, ids, trees)
    requires i < |settings| && exists id :: id in ids && Head(prefix, id) <= settings[i].0
    ensures exists owner ::
              && Owns(ids, prefix, owner, settings[i].0) && owner in trees
              && settings[i].0[|Head(prefix, owner)|..] in trees[owner]
              && trees[owner][settings[i].0[|Head(prefix, owner)|..]] == settings[i].1
              && forall id, sub :: id in trees && sub in trees[id] && Head(prefix, id) + sub == settings[i].0 ==> id == owner
  {
    var owner := OwnerExists(ids, prefix, settings[i].0);
    forall id, sub | id in trees && sub in trees[id] && Head(prefix, id) + sub == settings[i].0
      ensures id == owner
    {
      OwnerIsUnique(ids, prefix, id, owner, settings[i].0);
    }
  }

  /** With a discriminator free of dots, every record's tree holds its own discriminator. */
  lemma OwnDiscriminator(settings: Settings, prefix: string, discriminator: string, ids: seq<string>, trees: Trees, id: string)
    requires '.' !in discriminator
    requires Partition(settings, prefix, discriminator, ids, trees) && id in trees
    ensures discriminator in trees[id] && (Head(prefix, id) + discriminator, trees[id][discriminator]) in settings
  {
    var i :| 0 <= i < |settings| && RecordId(prefix, discriminator, settings[i].0) == id;
    var key := settings[i].0;
    DiscriminatorKey(prefix, discriminator, key);
    var owner := OwnerExists(ids, prefix, key);
    HeadsNest(prefix, id, owner, key);
    NoLongerHead(prefix, id, owner, discriminator);
    HeadsNest(prefix, owner, id, key);
    assert key[|Head(prefix, id)|..] == discriminator;
  }

  /** A head that reaches beyond a record's own would end in a dot of the discriminator. */
  lemma NoLongerHead(prefix: string, id: string, owner: string, discriminator: string)
    requires '.' !in discriminator && |id| <= |owner|
    requires Head(prefix, owner) <= Head(prefix, id) + discriminator
    ensures |owner| == |id|
  {
    var head, longer, key := Head(prefix, id), Head(prefix, owner), Head(prefix, id) + discriminator;
    var dot := |longer| - 1;
    assert |longer| == |prefix| + 2 + |owner| && |head| == |prefix| + 2 + |id|;
    assert longer[dot] == '.';
    hide Head;
    assert key[dot] == longer[dot];
    assert forall at :: |head| <= at < |key| ==> key[at] in discriminator;
  }
}
