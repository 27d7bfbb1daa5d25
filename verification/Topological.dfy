/**
 Kahn's algorithm with in-place counters (crates/utils/src/topological.rs).

 The graph is the sequence of inserted edges.  `Exhaust` consumes the iterator to its end; the result is
 characterised on every graph: a node is emitted exactly when no walk that revisits a node leads to it.
 */
module Topological {
  import opened Common

  datatype Edge<T> = Edge(from: T, to: T)

  // ----- Graphs -------------------------------------------------------------------------------

  function Nodes<T(==)>(graph: seq<Edge<T>>): set<T> {
    if graph == [] then {} else Nodes(graph[..|graph| - 1]) + {graph[|graph| - 1].from, graph[|graph| - 1].to}
  }

  /** The targets of the edges that leave `from`, in insertion order. */
  function Targets<T(==)>(graph: seq<Edge<T>>, from: T): seq<T> {
    if graph == [] then []
    else
      var last := graph[|graph| - 1];
      Targets(graph[..|graph| - 1], from) + if last.from == from then [last.to] else []
  }

  /** How many edges lead to `to` from nodes outside `done`. */
  function Pending<T(==)>(graph: seq<Edge<T>>, to: T, done: set<T>): nat {
    if graph == [] then 0
    else
      var last := graph[|graph| - 1];
      Pending(graph[..|graph| - 1], to, done) + if last.to == to && last.from !in done then 1 else 0
  }

  /** Consecutive nodes of `walk` are joined by edges. */
  ghost predicate IsWalk<T>(graph: seq<Edge<T>>, walk: seq<T>) {
    forall i :: 0 <= i < |walk| - 1 ==> Edge(walk[i], walk[i + 1]) in graph
  }

  ghost predicate IsCycle<T>(graph: seq<Edge<T>>, walk: seq<T>) {
    |walk| >= 2 && walk[0] == walk[|walk| - 1] && IsWalk(graph, walk)
  }

  ghost predicate Acyclic<T(!new)>(graph: seq<Edge<T>>) {
    forall walk :: !IsCycle(graph, walk)
  }

  predicate Distinct<T(==)>(s: seq<T>) {
    forall i, j :: 0 <= i < j < |s| ==> s[i] != s[j]
  }

  /** A walk that visits some node twice ends in `node`. */
  ghost predicate BehindCycle<T(!new)>(graph: seq<Edge<T>>, node: T) {
    exists walk :: IsWalk(graph, walk) && !Distinct(walk) && walk != [] && walk[|walk| - 1] == node
  }

  /** Every edge into an emitted node starts at a node emitted before it. */
  ghost predicate RespectsEdges<T>(graph: seq<Edge<T>>, order: seq<T>) {
    forall e, i :: e in graph && 0 <= i < |order| && order[i] == e.to ==> e.from in order[..i]
  }

  /** The queue before a step stays behind the nodes pushed to its front. */
  predicate EndsWith<T(==)>(s: seq<T>, tail: seq<T>) {
    |tail| <= |s| && s[|s| - |tail|..] == tail
  }

  function Elements<T(==)>(s: seq<T>): set<T> { set x | x in s }

  // ----- Counting lemmas ----------------------------------------------------------------------

  lemma {:induction false} NodesAreEndpoints<T>(graph: seq<Edge<T>>, e: Edge<T>)
    requires e in graph
    ensures e.from in Nodes(graph) && e.to in Nodes(graph)
  {
    var init, last := graph[..|graph| - 1], graph[|graph| - 1];
    assert graph == init + [last];
    if e == last {
    } else {
      NodesAreEndpoints(init, e);
    }
  }

  /** Emitting `x` releases one pending edge per occurrence in its target list. */
  lemma {:induction false} EmittingReleases<T>(graph: seq<Edge<T>>, to: T, done: set<T>, x: T)
    requires x !in done
    ensures Pending(graph, to, done) == Pending(graph, to, done + {x}) + multiset(Targets(graph, x))[to]
  {
    if graph == [] {
    } else {
      EmittingReleases(graph[..|graph| - 1], to, done, x);
    }
  }

  lemma {:induction false} PendingEdge<T>(graph: seq<Edge<T>>, to: T, done: set<T>) returns (e: Edge<T>)
    requires Pending(graph, to, done) > 0
    ensures e in graph && e.to == to && e.from !in done
  {
    var last := graph[|graph| - 1];
    if last.to == to && last.from !in done {
      return last;
    }
    e := PendingEdge(graph[..|graph| - 1], to, done);
  }

  lemma {:induction false} NothingPending<T>(graph: seq<Edge<T>>, to: T, done: set<T>, e: Edge<T>)
    requires Pending(graph, to, done) == 0 && e in graph && e.to == to
    ensures e.from in done
  {
    var init, last := graph[..|graph| - 1], graph[|graph| - 1];
    assert graph == init + [last];
    if e == last {
    } else {
      NothingPending(init, to, done, e);
    }
  }

  lemma {:induction false} UnknownSource<T>(graph: seq<Edge<T>>, from: T)
    requires from !in Nodes(graph)
    ensures Targets(graph, from) == []
  {
    if graph == [] {
    } else {
      UnknownSource(graph[..|graph| - 1], from);
    }
  }

  /** What one more inserted edge does to the three functions of the graph. */
  lemma InsertedEdge<T>(graph: seq<Edge<T>>, e: Edge<T>, node: T)
    ensures Nodes(graph + [e]) == Nodes(graph) + {e.from, e.to}
    ensures Targets(graph + [e], node) == Targets(graph, node) + if e.from == node then [e.to] else []
    ensures Pending(graph + [e], node, {}) == Pending(graph, node, {}) + if e.to == node then 1 else 0
  {
    assert (graph + [e])[..|graph|] == graph;
  }

  lemma {:induction false} UnknownTarget<T>(graph: seq<Edge<T>>, node: T)
    requires node !in Nodes(graph)
    ensures Pending(graph, node, {}) == 0
  {
    if graph == [] {
    } else {
      UnknownTarget(graph[..|graph| - 1], node);
    }
  }

  /** A node nothing is pending for may be emitted next. */
  lemma EmittedInOrder<T>(graph: seq<Edge<T>>, emitted: seq<T>, node: T)
    requires RespectsEdges(graph, emitted) && node !in emitted && Pending(graph, node, Elements(emitted)) == 0
    ensures RespectsEdges(graph, emitted + [node])
  {
    var order := emitted + [node];
    forall e, i | e in graph && 0 <= i < |order| && order[i] == e.to
      ensures e.from in order[..i]
    {
      if i < |emitted| {
        assert order[..i] == emitted[..i];
      } else {
        NothingPending(graph, node, Elements(emitted), e);
        assert order[..i] == emitted;
      }
    }
  }

  // ----- Invariants of the maps ---------------------------------------------------------------

  /** The edge map lists, for every node with an outgoing edge, its targets. */
  ghost predicate EdgeMap<T>(graph: seq<Edge<T>>, edges: map<T, seq<T>>) {
    && edges.Keys <= Nodes(graph)
    && (forall n :: n in edges ==> edges[n] == Targets(graph, n))
    && (forall n :: n in Nodes(graph) && n !in edges ==> Targets(graph, n) == [])
  }

  /**
   The counting invariant, while the edges to `rest` are still to be taken off the counters: nodes are
   emitted, queued or counted, never two of these, and a counter is the number of edges that hold its
   node back.
   */
  ghost predicate Balanced<T>(graph: seq<Edge<T>>, emitted: seq<T>, queue: seq<T>, count: map<T, nat>, rest: seq<T>) {
    && Distinct(emitted) && Distinct(queue)
    && Elements(emitted) !! Elements(queue) !! count.Keys
    && Elements(emitted) + Elements(queue) + count.Keys == Nodes(graph)
    && (forall n :: n in count ==>
          count[n] > 0 && count[n] == Pending(graph, n, Elements(emitted)) + multiset(rest)[n])
    && (forall n :: n in queue ==> Pending(graph, n, Elements(emitted)) == 0 && n !in rest)
  }

  lemma EdgeMapGrows<T>(graph: seq<Edge<T>>, edges: map<T, seq<T>>, e: Edge<T>)
    requires EdgeMap(graph, edges)
    ensures EdgeMap(graph + [e], edges[e.from := (if e.from in edges then edges[e.from] else []) + [e.to]])
  {
    var graph' := graph + [e];
    forall n
      ensures Nodes(graph') == Nodes(graph) + {e.from, e.to}
      ensures Targets(graph', n) == Targets(graph, n) + if e.from == n then [e.to] else []
      ensures n !in Nodes(graph) ==> Targets(graph, n) == []
    {
      InsertedEdge(graph, e, n);
      if n !in Nodes(graph) {
        UnknownSource(graph, n);
      }
    }
  }

  /** The counters of a graph nothing has been emitted from. */
  ghost predicate Counters<T>(graph: seq<Edge<T>>, count: map<T, nat>) {
    count.Keys == Nodes(graph) && forall n :: n in count ==> count[n] == Pending(graph, n, {})
  }

  lemma CountersGrow<T>(graph: seq<Edge<T>>, count: map<T, nat>, e: Edge<T>)
    requires Counters(graph, count)
    ensures var known := if e.from in count then count else count[e.from := 0];
            Counters(graph + [e], known[e.to := (if e.to in known then known[e.to] else 0) + 1])
  {
    forall n
      ensures Nodes(graph + [e]) == Nodes(graph) + {e.from, e.to}
      ensures Pending(graph + [e], n, {}) == Pending(graph, n, {}) + if e.to == n then 1 else 0
      ensures n !in Nodes(graph) ==> Pending(graph, n, {}) == 0
    {
      InsertedEdge(graph, e, n);
      if n !in Nodes(graph) {
        UnknownTarget(graph, n);
      }
    }
  }

  lemma CountersOfNodes<T>(graph: seq<Edge<T>>, count: map<T, nat>)
    requires Counters(graph, count)
    ensures count.Keys == Nodes(graph) && forall n :: n in count ==> count[n] == Pending(graph, n, {})
  {}

  /** Splitting the counters into the zero ones and the others starts the invariant. */
  lemma InitialBalance<T>(graph: seq<Edge<T>>, count: map<T, nat>, retained: map<T, nat>, noEdges: seq<T>)
    requires Counters(graph, count) && Distinct(noEdges)
    requires forall n :: n in noEdges <==> n in count && count[n] == 0
    requires forall n :: n in retained <==> n in count && n !in noEdges
    requires forall n :: n in retained ==> retained[n] == count[n]
    ensures Balanced(graph, [], noEdges, retained, [])
    ensures Elements(noEdges) == set n | n in Nodes(graph) && Pending(graph, n, {}) == 0
  {
    hide Pending, Nodes;
    assert Elements<T>([]) == {};
  }

  /** Taking the oldest node off the queue puts its targets up for release. */
  lemma PopKeepsBalance<T>(graph: seq<Edge<T>>, emitted: seq<T>, queue: seq<T>, count: map<T, nat>)
    requires Balanced(graph, emitted, queue, count, []) && queue != []
    ensures var last := |queue| - 1;
            && queue[last] !in emitted && queue[last] in Nodes(graph) && Pending(graph, queue[last], Elements(emitted)) == 0
            && Balanced(graph, emitted + [queue[last]], queue[..last], count, Targets(graph, queue[last]))
  {
    var last := |queue| - 1;
    var node, rest := queue[last], queue[..last];
    var done := Elements(emitted);
    assert queue == rest + [node];
    assert node in Elements(queue) && node !in Elements(rest);
    assert Elements(queue) == Elements(rest) + {node};
    assert Elements(emitted + [node]) == done + {node};
    forall n
      ensures Pending(graph, n, done) == Pending(graph, n, done + {node}) + multiset(Targets(graph, node))[n]
    {
      EmittingReleases(graph, n, done, node);
    }
    assert forall n :: n in Targets(graph, node) <==> multiset(Targets(graph, node))[n] > 0;
  }

  /** One neighbour: its counter goes down, and at zero it moves to the queue. */
  lemma ReleaseKeepsBalance<T>(graph: seq<Edge<T>>, emitted: seq<T>, queue: seq<T>, count: map<T, nat>, node: T, rest: seq<T>)
    requires Balanced(graph, emitted, queue, count, [node] + rest)
    ensures node !in count ==> Balanced(graph, emitted, queue, count, rest)
    ensures node in count && count[node] > 1 ==> Balanced(graph, emitted, queue, count[node := count[node] - 1], rest)
    ensures node in count && count[node] == 1 ==> Balanced(graph, emitted, [node] + queue, count - {node}, rest)
  {
    forall n
      ensures multiset([node] + rest)[n] == multiset(rest)[n] + if n == node then 1 else 0
      ensures n in rest <==> multiset(rest)[n] > 0
    {
    }
    assert Elements([node] + queue) == {node} + Elements(queue);
  }

  lemma CountersPositive<T>(graph: seq<Edge<T>>, emitted: seq<T>, queue: seq<T>, count: map<T, nat>, rest: seq<T>, node: T)
    requires Balanced(graph, emitted, queue, count, rest) && node in count
    ensures count[node] > 0
  {}

  // ----- Emission and cycles ------------------------------------------------------------------

  /** A distinct sequence over a finite set is no longer than the set. */
  lemma {:induction false} Pigeonhole<T>(s: seq<T>, pool: set<T>)
    requires Distinct(s) && forall i :: 0 <= i < |s| ==> s[i] in pool
    ensures |s| <= |pool|
  {
    if s == [] {
    } else {
      var last := |s| - 1;
      Pigeonhole(s[..last], pool - {s[last]});
    }
  }

  /** From a node that is still counted one can walk back inside the counted nodes for ever. */
  lemma {:induction false} WalkBack<T>(graph: seq<Edge<T>>, emitted: seq<T>, count: map<T, nat>, node: T, length: nat)
    returns (walk: seq<T>)
    requires Balanced(graph, emitted, [], count, []) && node in count && length > 0
    ensures |walk| == length && walk[length - 1] == node && IsWalk(graph, walk)
    ensures forall i :: 0 <= i < length ==> walk[i] in count.Keys
  {
    if length == 1 {
      walk := [node];
    } else {
      var later := WalkBack(graph, emitted, count, node, length - 1);
      var e := PendingEdge(graph, later[0], Elements(emitted));
      NodesAreEndpoints(graph, e);
      assert e.from in Nodes(graph) && e.from !in Elements(emitted) && Elements<T>([]) == {};
      walk := [e.from] + later;
      forall i | 0 <= i < length - 1
        ensures Edge(walk[i], walk[i + 1]) in graph
      {
        if i > 0 {
          assert walk[i] == later[i - 1] && walk[i + 1] == later[i];
        }
      }
    }
  }

  lemma CountedIsBehindCycle<T(!new)>(graph: seq<Edge<T>>, emitted: seq<T>, count: map<T, nat>, node: T)
    requires Balanced(graph, emitted, [], count, []) && node in count
    ensures BehindCycle(graph, node)
  {
    var walk := WalkBack(graph, emitted, count, node, |count.Keys| + 1);
    if Distinct(walk) {
      Pigeonhole(walk, count.Keys);
    }
  }

  /** A walk that ends in an emitted node was emitted in its own order, so it repeats nothing. */
  lemma {:induction false} EmittedWalk<T>(graph: seq<Edge<T>>, emitted: seq<T>, walk: seq<T>, end: nat)
    requires Distinct(emitted) && RespectsEdges(graph, emitted) && IsWalk(graph, walk)
    requires walk != [] && end < |emitted| && emitted[end] == walk[|walk| - 1]
    ensures Distinct(walk) && forall i :: 0 <= i < |walk| - 1 ==> walk[i] in emitted[..end]
    decreases |walk|
  {
    if |walk| <= 1 {
    } else {
      var last := |walk| - 1;
      var init := walk[..last];
      var e := Edge(walk[last - 1], walk[last]);
      assert e in graph && e.from in emitted[..end];
      var before :| 0 <= before < end && emitted[before] == e.from;
      EmittedWalk(graph, emitted, init, before);
      forall i | 0 <= i < last
        ensures walk[i] in emitted[..end] && walk[i] != walk[last]
      {
        assert walk[i] == init[i];
        if i < last - 1 {
          assert init[i] in emitted[..before];
        }
        var k :| 0 <= k < end && emitted[k] == walk[i];
      }
      forall i, j | 0 <= i < j < |walk|
        ensures walk[i] != walk[j]
      {
        if j < last {
          assert walk[i] == init[i] && walk[j] == init[j];
        }
      }
    }
  }

  lemma EmittedIsNotBehindCycle<T(!new)>(graph: seq<Edge<T>>, emitted: seq<T>, node: T)
    requires Distinct(emitted) && RespectsEdges(graph, emitted) && node in emitted
    ensures !BehindCycle(graph, node)
  {
    var end :| 0 <= end < |emitted| && emitted[end] == node;
    forall walk | IsWalk(graph, walk) && walk != [] && walk[|walk| - 1] == node
      ensures Distinct(walk)
    {
      EmittedWalk(graph, emitted, walk, end);
    }
  }

  /** A graph has a cycle exactly when one of its nodes is behind one. */
  lemma CycleFromRepeat<T(!new)>(graph: seq<Edge<T>>, node: T)
    requires BehindCycle(graph, node)
    ensures !Acyclic(graph)
  {
    var walk :| IsWalk(graph, walk) && !Distinct(walk) && walk != [] && walk[|walk| - 1] == node;
    var i, j :| 0 <= i < j < |walk| && walk[i] == walk[j];
    var cycle := walk[i..j + 1];
    forall k | 0 <= k < |cycle| - 1
      ensures Edge(cycle[k], cycle[k + 1]) in graph
    {
      assert cycle[k] == walk[i + k] && cycle[k + 1] == walk[i + k + 1];
    }
    assert IsCycle(graph, cycle);
  }

  lemma RepeatFromCycle<T(!new)>(graph: seq<Edge<T>>, cycle: seq<T>)
    requires IsCycle(graph, cycle)
    ensures cycle[0] in Nodes(graph) && BehindCycle(graph, cycle[0])
  {
    NodesAreEndpoints(graph, Edge(cycle[0], cycle[1]));
  }

  /** What is left in an exhausted iterator: exactly the nodes behind a cycle, so none iff the graph is acyclic. */
  lemma ExhaustedExactly<T(!new)>(graph: seq<Edge<T>>, emitted: seq<T>, count: map<T, nat>)
    requires Balanced(graph, emitted, [], count, []) && RespectsEdges(graph, emitted)
    ensures forall n :: n in Nodes(graph) ==> (n in emitted <==> !BehindCycle(graph, n))
    ensures count.Keys == {} <==> Acyclic(graph)
    ensures Acyclic(graph) ==> Elements(emitted) == Nodes(graph)
  {
    assert Elements<T>([]) == {};
    forall n | n in Nodes(graph)
      ensures n in emitted <==> !BehindCycle(graph, n)
      ensures n in emitted <==> n !in count
    {
      if n in emitted {
        assert n in Elements(emitted);
        EmittedIsNotBehindCycle(graph, emitted, n);
      } else {
        CountedIsBehindCycle(graph, emitted, count, n);
      }
    }
    if n :| n in count {
      CycleFromRepeat(graph, n);
    }
    forall cycle | IsCycle(graph, cycle)
      ensures count.Keys != {}
    {
      RepeatFromCycle(graph, cycle);
      assert cycle[0] in count;
    }
  }

  // ----- The two mutable structures -----------------------------------------------------------

  class TopologicalSort<T(==,!new)> {
    var edges: map<T, seq<T>>
    var count: map<T, nat>
    ghost var graph: seq<Edge<T>>

    ghost predicate Valid()
      reads this
    {
      EdgeMap(graph, edges) && Counters(graph, count)
    }

    constructor ()
      ensures Valid() && graph == []
    {
      edges, count, graph := map[], map[], [];
    }

    method Insert(from: T, to: T)
      requires Valid()
      modifies this
      ensures Valid() && graph == old(graph) + [Edge(from, to)]
    {
      EdgeMapGrows(graph, edges, Edge(from, to));
      CountersGrow(graph, count, Edge(from, to));
      if from !in count {
        count := count[from := 0];
      }
      edges := edges[from := (if from in edges then edges[from] else []) + [to]];
      count := count[to := (if to in count then count[to] else 0) + 1];
      graph := graph + [Edge(from, to)];
    }

    /** Nodes without incoming edges leave the counter map for the queue, in any order. */
    method IntoIterator() returns (it: TopologicalSortIterator<T>)
      requires Valid()
      ensures fresh(it) && it.Valid() && it.graph == graph && it.emitted == []
      ensures Elements(it.noEdges) == set n | n in Nodes(graph) && Pending(graph, n, {}) == 0
    {
      hide EdgeMap, Counters, Balanced, Pending, Nodes;
      CountersOfNodes(graph, count);
      var noEdges: seq<T> := [];
      var retained := count;
      var todo := count.Keys;
      while todo != {}
        invariant todo <= count.Keys
        invariant Distinct(noEdges)
        invariant forall n :: n in noEdges <==> n in count.Keys - todo && count[n] == 0
        invariant forall n :: n in retained <==> n in count && n !in noEdges
        invariant forall n :: n in retained ==> retained[n] == count[n]
        decreases todo
      {
        var node :| node in todo;
        todo := todo - {node};
        if count[node] == 0 {
          noEdges := noEdges + [node];
          retained := retained - {node};
        }
      }
      InitialBalance(graph, count, retained, noEdges);
      it := new TopologicalSortIterator(edges, retained, noEdges, graph);
    }
  }

  class TopologicalSortIterator<T(==,!new)> {
    var edges: map<T, seq<T>>
    var count: map<T, nat>
    var noEdges: seq<T>
    ghost var graph: seq<Edge<T>>
    ghost var emitted: seq<T>

    ghost predicate Valid()
      reads this
    {
      EdgeMap(graph, edges) && Balanced(graph, emitted, noEdges, count, []) && RespectsEdges(graph, emitted)
    }

    constructor (edges: map<T, seq<T>>, count: map<T, nat>, noEdges: seq<T>, ghost graph: seq<Edge<T>>)
      requires EdgeMap(graph, edges) && Balanced(graph, [], noEdges, count, [])
      ensures Valid() && this.graph == graph && emitted == [] && this.noEdges == noEdges && this.count == count
    {
      hide EdgeMap, Balanced;
      this.edges, this.count, this.noEdges, this.graph, this.emitted := edges, count, noEdges, graph, [];
    }

    method IsValid() returns (valid: bool)
      ensures valid <==> count.Keys == {}
    {
      valid := |count| == 0;
    }

    /** The stored targets of a node; a node without outgoing edges has no entry. */
    method TargetsOf(node: T) returns (targets: seq<T>)
      requires EdgeMap(graph, edges) && node in Nodes(graph)
      ensures targets == Targets(graph, node)
    {
      targets := if node in edges then edges[node] else [];
    }

    /** Emits the oldest queued node and queues the nodes it was the last to hold back. */
    method Next() returns (node: Option<T>)
      requires Valid()
      modifies this
      ensures Valid() && graph == old(graph)
      ensures node.None? ==> old(noEdges) == [] && emitted == old(emitted) && noEdges == [] && count == old(count)
      ensures node.Some? ==> old(noEdges) != [] && node.value == old(noEdges)[|old(noEdges)| - 1]
                             && emitted == old(emitted) + [node.value]
      ensures node.Some? ==> EndsWith(noEdges, old(noEdges)[..|old(noEdges)| - 1])
    {
      hide Balanced, EdgeMap, RespectsEdges, Pending, Nodes, Targets, Elements, Distinct, EndsWith;
      if noEdges == [] {
        return None;
      }
      var last := |noEdges| - 1;
      var noEdge := noEdges[last];
      PopKeepsBalance(graph, emitted, noEdges, count);
      EmittedInOrder(graph, emitted, noEdge);
      noEdges := noEdges[..last];
      emitted := emitted + [noEdge];
      var targets := TargetsOf(noEdge);
      Release(targets);
      node := Some(noEdge);
    }

    /** Takes one edge per target off the counters. */
    method Release(targets: seq<T>)
      requires Balanced(graph, emitted, noEdges, count, targets)
      modifies this`count, this`noEdges
      ensures Balanced(graph, emitted, noEdges, count, [])
      ensures EndsWith(noEdges, old(noEdges))
    {
      hide Balanced;
      var k := 0;
      assert targets[0..] == targets;
      while k < |targets|
        invariant k <= |targets|
        invariant EndsWith(noEdges, old(noEdges))
        invariant Balanced(graph, emitted, noEdges, count, targets[k..])
      {
        var neighbor := targets[k];
        assert targets[k..] == [neighbor] + targets[k + 1..];
        ReleaseKeepsBalance(graph, emitted, noEdges, count, neighbor, targets[k + 1..]);
        if neighbor in count {
          CountersPositive(graph, emitted, noEdges, count, targets[k..], neighbor);
          ghost var before := count;
          count := count[neighbor := count[neighbor] - 1];
          if count[neighbor] == 0 {
            count := count - {neighbor};
            assert count == before - {neighbor};
            noEdges := [neighbor] + noEdges;
          }
        }
        k := k + 1;
      }
      assert targets[k..] == [];
    }

    /** Consumes the iterator the way a `for` loop does. */
    method Exhaust() returns (order: seq<T>)
      requires Valid() && emitted == []
      modifies this
      ensures Valid() && graph == old(graph) && order == emitted && noEdges == []
      ensures Distinct(order) && RespectsEdges(graph, order) && Elements(order) <= Nodes(graph)
      ensures forall n :: n in Nodes(graph) ==> (n in order <==> !BehindCycle(graph, n))
      ensures count.Keys == {} <==> Acyclic(graph)
      ensures Acyclic(graph) ==> Elements(order) == Nodes(graph)
    {
      hide Balanced, EdgeMap, RespectsEdges, Pending, Nodes, Targets, Elements, Distinct;
      order := [];
      var node := Next();
      while node.Some?
        invariant Valid() && graph == old(graph)
        invariant node.Some? ==> emitted == order + [node.value]
        invariant node.None? ==> emitted == order && noEdges == []
        decreases Nodes(graph) - Elements(emitted), if node.Some? then 1 else 0
      {
        ghost var before := emitted;
        order := order + [node.value];
        node := Next();
        MoreEmitted(graph, before, emitted, noEdges, count);
      }
      ExhaustedExactly(graph, emitted, count);
      OnlyNodes(graph, emitted, count);
    }
  }

  lemma OnlyNodes<T>(graph: seq<Edge<T>>, emitted: seq<T>, count: map<T, nat>)
    requires Balanced(graph, emitted, [], count, [])
    ensures Distinct(emitted) && Elements(emitted) <= Nodes(graph)
  {}

  lemma MoreEmitted<T>(graph: seq<Edge<T>>, before: seq<T>, emitted: seq<T>, queue: seq<T>, count: map<T, nat>)
    requires Balanced(graph, emitted, queue, count, []) && before <= emitted
    ensures if before == emitted then Elements(before) == Elements(emitted)
            else Nodes(graph) - Elements(emitted) < Nodes(graph) - Elements(before)
  {
    if before != emitted {
      var node := emitted[|before|];
      assert node in Elements(emitted) && node !in Elements(before);
    }
  }
}
