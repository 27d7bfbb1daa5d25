/** Python's `sorted`, for the orders the migration script sorts by. */
module Sorting {

  /** Code-point order of strings. */
  predicate LexLess(a: string, b: string) {
    if a == "" then b != ""
    else b != "" && (a[0] < b[0] || (a[0] == b[0] && LexLess(a[1..], b[1..])))
  }

  lemma {:induction false} LexTotal(a: string, b: string)
    ensures LexLess(a, b) || LexLess(b, a) || a == b
    ensures !(LexLess(a, b) && LexLess(b, a))
  {
    if a != "" && b != "" {
      LexTotal(a[1..], b[1..]);
      assert a == [a[0]] + a[1..] && b == [b[0]] + b[1..];
    }
  }

  /** Up to position `k` the strings agree; there the first ends or has the smaller character. */
  predicate FirstDifference(a: string, b: string, k: nat) {
    && k <= |a| && k < |b| && a[..k] == b[..k]
    && (k < |a| ==> a[k] < b[k])
  }

  lemma FirstAgrees(a: string, b: string, k: nat)
    requires k > 0 && FirstDifference(a, b, k)
    ensures a != "" && b != "" && a[0] == b[0]
  {
    assert a[..k][0] == b[..k][0];
  }

  /** A string is less than another exactly if it is a proper prefix or smaller at the first difference. */
  lemma {:induction false} LexExactly(a: string, b: string)
    ensures LexLess(a, b) <==> exists k: nat :: FirstDifference(a, b, k)
  {
    if a == "" || b == "" || a[0] != b[0] {
      if LexLess(a, b) {
        assert FirstDifference(a, b, 0);
      }
      if k: nat :| FirstDifference(a, b, k) {
        if k > 0 {
          FirstAgrees(a, b, k);
        }
      }
    } else {
      var a', b' := a[1..], b[1..];
      LexExactly(a', b');
      if k: nat :| FirstDifference(a', b', k) {
        assert a[..k + 1] == [a[0]] + a'[..k] && b[..k + 1] == [b[0]] + b'[..k];
        assert FirstDifference(a, b, k + 1);
      }
      if k: nat :| FirstDifference(a, b, k) {
        assert a'[..k - 1] == a[..k][1..] && b'[..k - 1] == b[..k][1..];
        assert FirstDifference(a', b', k - 1);
      }
    }
  }

  lemma {:induction false} LexTransitive(a: string, b: string, c: string)
    requires LexLess(a, b) && LexLess(b, c)
    ensures LexLess(a, c)
  {
    if a == "" {
    } else {
      if a[0] == b[0] == c[0] {
        LexTransitive(a[1..], b[1..], c[1..]);
      }
    }
  }

  /** Longer strings first, equal lengths in code-point order. */
  predicate LongerFirst(a: string, b: string) {
    |a| > |b| || (|a| == |b| && LexLess(a, b))
  }

  predicate Ordered(s: seq<string>, byLength: bool) {
    forall i, j :: 0 <= i < j < |s| ==> !Before(s[j], s[i], byLength)
  }

  predicate Before(a: string, b: string, byLength: bool) {
    if byLength then LongerFirst(a, b) else LexLess(a, b)
  }

  lemma BeforeIsOrder(a: string, b: string, c: string, byLength: bool)
    ensures !Before(b, a, byLength) && !Before(c, b, byLength) ==> !Before(c, a, byLength)
    ensures Before(a, b, byLength) ==> !Before(b, a, byLength)
  {
    LexTotal(a, b);
    LexTotal(b, c);
    LexTotal(a, c);
    if LexLess(a, b) && LexLess(b, c) {
      LexTransitive(a, b, c);
    }
  }

  method Sort(items: seq<string>, byLength: bool) returns (sorted: seq<string>)
    ensures Ordered(sorted, byLength) && multiset(sorted) == multiset(items)
  {
    sorted := [];
    for i := 0 to |items|
      invariant Ordered(sorted, byLength) && multiset(sorted) == multiset(items[..i])
    {
      assert items[..i + 1] == items[..i] + [items[i]];
      sorted := Insert(sorted, items[i], byLength);
    }
    assert items[..|items|] == items;
  }

  method Insert(sorted: seq<string>, item: string, byLength: bool) returns (result: seq<string>)
    requires Ordered(sorted, byLength)
    ensures Ordered(result, byLength) && multiset(result) == multiset(sorted) + multiset{item}
  {
    hide Before;
    var k := |sorted|;
    while k > 0 && Before(item, sorted[k - 1], byLength)
      invariant 0 <= k <= |sorted|
      invariant forall j :: k <= j < |sorted| ==> Before(item, sorted[j], byLength)
    {
      k := k - 1;
    }
    result := sorted[..k] + [item] + sorted[k..];
    assert sorted == sorted[..k] + sorted[k..];
    forall i, j | 0 <= i < j < |result|
      ensures !Before(result[j], result[i], byLength)
    {
      if i < k && j == k {
        BeforeIsOrder(result[i], sorted[k - 1], item, byLength);
        if i < k - 1 {
          assert !Before(sorted[k - 1], sorted[i], byLength);
        } else {
          BeforeIsOrder(item, item, item, byLength);
        }
      } else if i == k {
        BeforeIsOrder(item, result[j], item, byLength);
        assert result[j] == sorted[j - 1];
      }
    }
  }

  lemma {:induction false} CountsDistinct(s: seq<string>, t: seq<string>)
    requires multiset(s) == multiset(t) && forall i, j :: 0 <= i < j < |s| ==> s[i] != s[j]
    ensures forall i, j :: 0 <= i < j < |t| ==> t[i] != t[j]
    ensures forall id :: id in s <==> id in t
  {
    forall id
      ensures id in s <==> id in t
    {
      assert id in s <==> id in multiset(s);
      assert id in t <==> id in multiset(t);
    }
    forall i, j | 0 <= i < j < |t|
      ensures t[i] != t[j]
    {
      if t[i] == t[j] {
        assert t == t[..i] + [t[i]] + t[i + 1..j] + [t[j]] + t[j + 1..];
        assert multiset(t)[t[i]] >= 2;
        AtMostOnce(s, t[i]);
      }
    }
  }

  lemma {:induction false} AtMostOnce(s: seq<string>, x: string)
    requires forall i, j :: 0 <= i < j < |s| ==> s[i] != s[j]
    ensures multiset(s)[x] <= 1
  {
    if s == [] {
    } else {
      var init, last := s[..|s| - 1], s[|s| - 1];
      assert s == init + [last];
      AtMostOnce(init, x);
      if last == x {
        assert x !in init;
      }
    }
  }

  /** Python's `sorted` of a set. */
  method SortedSet(items: set<string>) returns (sorted: seq<string>)
    ensures Ordered(sorted, false) && forall x :: x in sorted <==> x in items
    ensures forall i, j :: 0 <= i < j < |sorted| ==> sorted[i] != sorted[j]
  {
    var rest := items;
    var listed: seq<string> := [];
    while rest != {}
      invariant rest <= items && forall x :: x in listed <==> x in items - rest
      invariant forall i, j :: 0 <= i < j < |listed| ==> listed[i] != listed[j]
    {
      var x :| x in rest;
      assert x !in listed;
      listed := listed + [x];
      rest := rest - {x};
    }
    sorted := Sort(listed, false);
    CountsDistinct(listed, sorted);
  }
}
