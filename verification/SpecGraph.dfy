/** The dependency-graph check of the specification validator (tools/validate_universal_spec.py):
    count in-degrees, pop nodes without open predecessors, and accept when every node was popped. */
module SpecGraph {

  type Edge<N> = (N, N)

  predicate Distinct<N(==)>(s: seq<N>) {
    forall i, j | 0 <= i < j < |s| :: s[i] != s[j]
  }

  predicate EndpointsIn<N(==)>(nodes: seq<N>, edges: seq<Edge<N>>) {
    forall k | 0 <= k < |edges| :: edges[k].0 in nodes && edges[k].1 in nodes
  }

  /** Consecutive nodes are joined by edges. */
  ghost predicate Walk<N>(edges: seq<Edge<N>>, p: seq<N>) {
    forall i, j | 0 <= i < j < |p| && j == i + 1 :: (p[i], p[j]) in edges
  }

  ghost predicate Cyclic<N(!new)>(edges: seq<Edge<N>>) {
    exists p: seq<N> :: |p| >= 2 && Walk(edges, p) && p[0] == p[|p| - 1]
  }

  // ---------------------------------------------------------------- counting

  /** Targets of the edges that leave n, in edge order. */
  function Targets<N(==)>(edges: seq<Edge<N>>, n: N): seq<N> {
    if edges == [] then []
    else
      var e := edges[|edges| - 1];
      Targets(edges[..|edges| - 1], n) + (if e.0 == n then [e.1] else [])
  }

  /** Number of edges into v whose source has not been removed. */
  ghost function OpenEdges<N>(edges: seq<Edge<N>>, v: N, removed: set<N>): nat {
    if edges == [] then 0
    else
      var e := edges[|edges| - 1];
      OpenEdges(edges[..|edges| - 1], v, removed) + (if e.1 == v && e.0 !in removed then 1 else 0)
  }

  ghost function Occurrences<N>(s: seq<N>, v: N): nat {
    if s == [] then 0 else Occurrences(s[1..], v) + (if s[0] == v then 1 else 0)
  }

  lemma {:induction false} OccurrencesAppend<N>(s: seq<N>, x: N, v: N)
    ensures Occurrences(s + [x], v) == Occurrences(s, v) + (if x == v then 1 else 0)
  {
    if s == [] {
      assert s + [x] == [x];
    } else {
      assert (s + [x])[1..] == s[1..] + [x];
      OccurrencesAppend(s[1..], x, v);
    }
  }

  /** Removing n closes exactly the edges listed among its targets. */
  lemma {:induction false} RemoveSource<N>(edges: seq<Edge<N>>, v: N, removed: set<N>, n: N)
    requires n !in removed
    ensures OpenEdges(edges, v, removed) == OpenEdges(edges, v, removed + {n}) + Occurrences(Targets(edges, n), v)
  {
    if edges != [] {
      var init, e := edges[..|edges| - 1], edges[|edges| - 1];
      RemoveSource(init, v, removed, n);
      if e.0 == n {
        OccurrencesAppend(Targets(init, n), e.1, v);
      } else {
        assert Targets(init, n) + [] == Targets(init, n);
      }
    }
  }

  /** A node has no open edge exactly when all its predecessors were removed. */
  lemma {:induction false} NoOpenEdges<N>(edges: seq<Edge<N>>, v: N, removed: set<N>)
    ensures OpenEdges(edges, v, removed) == 0 <==> forall k | 0 <= k < |edges| && edges[k].1 == v :: edges[k].0 in removed
  {
    if edges != [] {
      var init := edges[..|edges| - 1];
      NoOpenEdges(init, v, removed);
      assert forall k | 0 <= k < |init| :: init[k] == edges[k];
    }
  }

  lemma {:induction false} TargetsAreNodes<N>(nodes: seq<N>, edges: seq<Edge<N>>, n: N)
    requires EndpointsIn(nodes, edges)
    ensures forall k | 0 <= k < |Targets(edges, n)| :: Targets(edges, n)[k] in nodes
  {
    if edges != [] {
      TargetsAreNodes(nodes, edges[..|edges| - 1], n);
    }
  }

  // ---------------------------------------------------------------- orders and cycles

  /** Every predecessor of a listed node is listed before it. */
  ghost predicate Topological<N>(edges: seq<Edge<N>>, order: seq<N>) {
    && Distinct(order)
    && forall i, k | 0 <= i < |order| && 0 <= k < |edges| && edges[k].1 == order[i] :: edges[k].0 in order[..i]
  }

  lemma {:induction false} WalkGoesBack<N>(edges: seq<Edge<N>>, order: seq<N>, p: seq<N>, i: int) returns (j: int)
    requires Topological(edges, order) && |p| >= 2 && Walk(edges, p)
    requires 0 <= i < |order| && order[i] == p[|p| - 1]
    ensures 0 <= j < i && order[j] == p[0]
    decreases |p|
  {
    var k := |p| - 2;
    var l := k + 1;
    assert (p[k], p[l]) in edges;
    var e :| 0 <= e < |edges| && edges[e] == (p[k], p[l]);
    assert edges[e].0 in order[..i];
    j :| 0 <= j < i && order[j] == p[k];
    if |p| > 2 {
      j := WalkGoesBack(edges, order, p[..|p| - 1], j);
    }
  }

  lemma TopologicalIsAcyclic<N(!new)>(nodes: seq<N>, edges: seq<Edge<N>>, order: seq<N>)
    requires EndpointsIn(nodes, edges) && Topological(edges, order) && forall v | v in nodes :: v in order
    ensures !Cyclic(edges)
  {
    forall p: seq<N> | |p| >= 2 && Walk(edges, p) ensures p[0] != p[|p| - 1] {
      var k := |p| - 2;
      var l := k + 1;
      assert (p[k], p[l]) in edges;
      var e :| 0 <= e < |edges| && edges[e] == (p[k], p[l]);
      assert edges[e].1 in nodes && p[|p| - 1] in order;
      var i :| 0 <= i < |order| && order[i] == p[|p| - 1];
      var j := WalkGoesBack(edges, order, p, i);
    }
  }

  /** Every node of r has a predecessor in r. */
  ghost predicate PredecessorClosed<N(!new)>(edges: seq<Edge<N>>, r: set<N>) {
    forall v {:trigger HasPredecessor(edges, r, v)} | v in r :: HasPredecessor(edges, r, v)
  }

  ghost predicate HasPredecessor<N>(edges: seq<Edge<N>>, r: set<N>, v: N) {
    exists k :: 0 <= k < |edges| && edges[k].1 == v && edges[k].0 in r
  }

  lemma Prepend<N>(edges: seq<Edge<N>>, k: nat, q: seq<N>)
    requires k < |edges| && |q| > 0 && edges[k].1 == q[0] && Walk(edges, q)
    ensures Walk(edges, [edges[k].0] + q)
  {
    var p := [edges[k].0] + q;
    forall i, j | 0 <= i < j < |p| && j == i + 1 ensures (p[i], p[j]) in edges {
      if i == 0 {
        assert edges[k] == (p[0], p[1]);
      } else {
        assert p[i] == q[i - 1] && p[j] == q[j - 1];
      }
    }
  }

  lemma Subwalk<N>(edges: seq<Edge<N>>, p: seq<N>, i: nat, j: nat)
    requires Walk(edges, p) && i <= j < |p|
    ensures Walk(edges, p[i..j + 1])
  {
    var c := p[i..j + 1];
    forall k, l | 0 <= k < l < |c| && l == k + 1 ensures (c[k], c[l]) in edges {
      assert c[k] == p[i + k] && c[l] == p[i + l];
    }
  }

  lemma {:induction false} LongWalk<N(!new)>(edges: seq<Edge<N>>, r: set<N>, start: N, n: nat) returns (p: seq<N>)
    requires PredecessorClosed(edges, r) && start in r
    ensures |p| == n + 1 && Walk(edges, p) && forall i | 0 <= i < |p| :: p[i] in r
  {
    if n == 0 {
      p := [start];
    } else {
      var q := LongWalk(edges, r, start, n - 1);
      assert HasPredecessor(edges, r, q[0]);
      var k :| 0 <= k < |edges| && edges[k].1 == q[0] && edges[k].0 in r;
      p := [edges[k].0] + q;
      Prepend(edges, k, q);
    }
  }

  ghost function Elements<N>(s: seq<N>): (r: set<N>)
    ensures forall k | 0 <= k < |s| :: s[k] in r
    ensures forall v | v in r :: v in s
  {
    if s == [] then {}
    else
      assert forall k | 0 <= k < |s| - 1 :: s[..|s| - 1][k] == s[k];
      Elements(s[..|s| - 1]) + {s[|s| - 1]}
  }

  lemma {:induction false} DistinctSize<N>(s: seq<N>)
    requires Distinct(s)
    ensures |Elements(s)| == |s|
  {
    if s != [] {
      var init, last := s[..|s| - 1], s[|s| - 1];
      DistinctSize(init);
      assert last !in init;
    }
  }

  lemma {:induction false} SubsetSize<N>(x: set<N>, y: set<N>)
    requires x <= y
    ensures |x| <= |y|
    ensures |x| == |y| ==> x == y
  {
    assert |y| == |x| + |y - x| by {
      assert y == x + (y - x);
    }
  }

  lemma ClosedIsCyclic<N(!new)>(edges: seq<Edge<N>>, r: set<N>, start: N)
    requires PredecessorClosed(edges, r) && start in r
    ensures Cyclic(edges)
  {
    var p := LongWalk(edges, r, start, |r|);
    if Distinct(p) {
      DistinctSize(p);
      SubsetSize(Elements(p), r);
    }
    var i, j :| 0 <= i < j < |p| && p[i] == p[j];
    var c := p[i..j + 1];
    Subwalk(edges, p, i, j);
    assert |c| >= 2 && Walk(edges, c) && c[0] == c[|c| - 1];
  }

  // ---------------------------------------------------------------- the check

  lemma OneMoreEdge<N>(edges: seq<Edge<N>>, k: nat, v: N)
    requires k < |edges|
    ensures Targets(edges[..k + 1], v) == Targets(edges[..k], v) + (if edges[k].0 == v then [edges[k].1] else [])
    ensures OpenEdges(edges[..k + 1], v, {}) == OpenEdges(edges[..k], v, {}) + (if edges[k].1 == v then 1 else 0)
  {
    assert edges[..k + 1][..k] == edges[..k];
  }

  /** The two tables hold every edge, duplicates included. */
  ghost predicate Tabulated<N(!new)>(nodes: seq<N>, edges: seq<Edge<N>>, adjacency: map<N, seq<N>>, indegree: map<N, int>) {
    && (forall v :: (v in adjacency <==> v in nodes) && (v in indegree <==> v in nodes))
    && forall v | v in nodes :: adjacency[v] == Targets(edges, v) && indegree[v] == OpenEdges(edges, v, {})
  }

  lemma TabulateOneMore<N(!new)>(nodes: seq<N>, edges: seq<Edge<N>>, k: nat, adjacency: map<N, seq<N>>, indegree: map<N, int>)
    requires k < |edges| && edges[k].0 in nodes && edges[k].1 in nodes && Tabulated(nodes, edges[..k], adjacency, indegree)
    ensures var (source, target) := edges[k];
            Tabulated(nodes, edges[..k + 1], adjacency[source := adjacency[source] + [target]], indegree[target := indegree[target] + 1])
  {
    forall v | v in nodes
      ensures Targets(edges[..k + 1], v) == Targets(edges[..k], v) + (if edges[k].0 == v then [edges[k].1] else [])
      ensures OpenEdges(edges[..k + 1], v, {}) == OpenEdges(edges[..k], v, {}) + (if edges[k].1 == v then 1 else 0)
    {
      OneMoreEdge(edges, k, v);
    }
  }

  method BuildGraph<N(==, !new)>(nodes: seq<N>, edges: seq<Edge<N>>) returns (adjacency: map<N, seq<N>>, indegree: map<N, int>)
    requires EndpointsIn(nodes, edges)
    ensures forall v :: v in adjacency <==> v in nodes
    ensures forall v :: v in indegree <==> v in nodes
    ensures forall v | v in nodes :: adjacency[v] == Targets(edges, v) && indegree[v] == OpenEdges(edges, v, {})
  {
    adjacency := map v | v in nodes :: [];
    indegree := map v | v in nodes :: 0;
    for k := 0 to |edges|
      invariant Tabulated(nodes, edges[..k], adjacency, indegree)
    {
      var (source, target) := edges[k];
      assert source in nodes && target in nodes;
      TabulateOneMore(nodes, edges, k, adjacency, indegree);
      adjacency := adjacency[source := adjacency[source] + [target]];
      indegree := indegree[target := indegree[target] + 1];
    }
    assert edges[..|edges|] == edges;
  }

  method InitialQueue<N(==)>(nodes: seq<N>, indegree: map<N, int>) returns (queue: seq<N>)
    requires Distinct(nodes) && forall v :: v in indegree <==> v in nodes
    ensures Distinct(queue)
    ensures forall v :: v in queue <==> v in nodes && indegree[v] == 0
  {
    queue := [];
    for k := 0 to |nodes|
      invariant Distinct(queue)
      invariant forall v :: v in queue <==> v in nodes[..k] && indegree[v] == 0
    {
      assert nodes[..k + 1] == nodes[..k] + [nodes[k]];
      if indegree[nodes[k]] == 0 {
        queue := queue + [nodes[k]];
      }
    }
    assert nodes[..|nodes|] == nodes;
  }

  /** The counters and the queue agree with what has been removed: `rest` are the targets of the
      last removed node still to be processed. */
  ghost predicate Consistent<N(!new)>(nodes: seq<N>, edges: seq<Edge<N>>, removed: set<N>, rest: seq<N>,
                                      indegree: map<N, int>, queue: seq<N>)
  {
    && (forall v :: v in indegree <==> v in nodes)
    && (forall v | v in nodes :: indegree[v] == OpenEdges(edges, v, removed) + Occurrences(rest, v))
    && Distinct(queue)
    && (forall v :: (v in queue ==> v in nodes && v !in removed) && (v in removed ==> v in nodes))
    && (forall v | v in nodes :: indegree[v] == 0 <==> v in removed || v in queue)
  }

  /** Process the targets of one popped node. */
  method Release<N(==, !new)>(nodes: seq<N>, edges: seq<Edge<N>>, ghost removed: set<N>, targets: seq<N>,
                              indegree0: map<N, int>, queue0: seq<N>)
    returns (indegree: map<N, int>, queue: seq<N>)
    requires Consistent(nodes, edges, removed, targets, indegree0, queue0)
    requires forall k | 0 <= k < |targets| :: targets[k] in nodes
    ensures Consistent(nodes, edges, removed, [], indegree, queue)
  {
    indegree, queue := indegree0, queue0;
    assert targets[0..] == targets;
    for k := 0 to |targets|
      invariant Consistent(nodes, edges, removed, targets[k..], indegree, queue)
    {
      var target := targets[k];
      assert targets[k..][1..] == targets[k + 1..] && targets[k..][0] == target;
      assert indegree[target] >= 1;
      indegree := indegree[target := indegree[target] - 1];
      if indegree[target] == 0 {
        queue := queue + [target];
      }
    }
    assert targets[|targets|..] == [];
  }

  lemma PopIsConsistent<N(!new)>(nodes: seq<N>, edges: seq<Edge<N>>, removed: set<N>, indegree: map<N, int>, queue: seq<N>)
    requires Consistent(nodes, edges, removed, [], indegree, queue) && queue != []
    ensures var n := queue[|queue| - 1];
            Consistent(nodes, edges, removed + {n}, Targets(edges, n), indegree, queue[..|queue| - 1])
  {
    var n := queue[|queue| - 1];
    forall v | v in nodes
      ensures indegree[v] == OpenEdges(edges, v, removed + {n}) + Occurrences(Targets(edges, n), v)
    {
      RemoveSource(edges, v, removed, n);
    }
    assert forall v :: v in queue <==> v in queue[..|queue| - 1] || v == n by {
      assert queue == queue[..|queue| - 1] + [n];
    }
  }

  lemma PopIsTopological<N(!new)>(nodes: seq<N>, edges: seq<Edge<N>>, order: seq<N>, indegree: map<N, int>, queue: seq<N>)
    requires Consistent(nodes, edges, Elements(order), [], indegree, queue) && queue != [] && Topological(edges, order)
    ensures Topological(edges, order + [queue[|queue| - 1]])
    ensures Elements(order + [queue[|queue| - 1]]) == Elements(order) + {queue[|queue| - 1]}
  {
    var n := queue[|queue| - 1];
    assert n in queue && n !in Elements(order);
    NoOpenEdges(edges, n, Elements(order));
    forall k | 0 <= k < |edges| && edges[k].1 == n ensures edges[k].0 in order {
      assert edges[k].0 in Elements(order);
    }
    assert n !in order;
    AppendTopological(edges, order, n);
    assert (order + [n])[..|order|] == order;
  }

  lemma AppendTopological<N>(edges: seq<Edge<N>>, order: seq<N>, n: N)
    requires Topological(edges, order) && n !in order && forall k | 0 <= k < |edges| && edges[k].1 == n :: edges[k].0 in order
    ensures Topological(edges, order + [n])
  {
    var more := order + [n];
    forall i, k | 0 <= i < |more| && 0 <= k < |edges| && edges[k].1 == more[i] ensures edges[k].0 in more[..i] {
      assert more[..i] == order[..i];
      if i == |order| {
        assert more[..i] == order;
      }
    }
  }

  datatype Verdict = DuplicateNode | UnknownEndpoint | NotAcyclic | Accepted

  /** Pops until the queue is empty; `order` is the pop order. */
  method Drain<N(==, !new)>(nodes: seq<N>, edges: seq<Edge<N>>) returns (visited: nat, ghost order: seq<N>)
    requires Distinct(nodes) && EndpointsIn(nodes, edges)
    ensures visited == |order| <= |nodes| && Topological(edges, order) && forall v | v in order :: v in nodes
    ensures forall v | v in nodes && v !in order :: OpenEdges(edges, v, Elements(order)) > 0
  {
    var adjacency, indegree := BuildGraph(nodes, edges);
    var queue := InitialQueue(nodes, indegree);
    visited, order := 0, [];
    assert Elements(order) == {};
    while queue != []
      invariant Consistent(nodes, edges, Elements(order), [], indegree, queue)
      invariant Topological(edges, order) && visited == |order|
      decreases |nodes| - |order|
    {
      var node := queue[|queue| - 1];
      PopIsTopological(nodes, edges, order, indegree, queue);
      PopIsConsistent(nodes, edges, Elements(order), indegree, queue);
      TargetsAreNodes(nodes, edges, node);
      assert node in nodes;
      queue, visited := queue[..|queue| - 1], visited + 1;
      order := order + [node];
      OrderFits(nodes, order);
      indegree, queue := Release(nodes, edges, Elements(order), adjacency[node], indegree, queue);
    }
    OrderFits(nodes, order);
    assert forall v :: v in order <==> v in Elements(order);
  }

  lemma OrderFits<N(!new)>(nodes: seq<N>, order: seq<N>)
    requires Distinct(order) && forall v | v in Elements(order) :: v in nodes
    ensures |order| <= |nodes|
  {
    DistinctSize(order);
    SubsetSize(Elements(order), Elements(nodes));
    ElementsAtMost(nodes);
  }

  lemma {:induction false} ElementsAtMost<N>(s: seq<N>)
    ensures |Elements(s)| <= |s|
  {
    if s != [] {
      ElementsAtMost(s[..|s| - 1]);
    }
  }

  lemma VisitedAllIffAcyclic<N(!new)>(nodes: seq<N>, edges: seq<Edge<N>>, order: seq<N>)
    requires Distinct(nodes) && EndpointsIn(nodes, edges)
    requires Topological(edges, order) && forall v | v in order :: v in nodes
    requires forall v | v in nodes && v !in order :: OpenEdges(edges, v, Elements(order)) > 0
    ensures |order| == |nodes| <==> !Cyclic(edges)
  {
    DistinctSize(order);
    DistinctSize(nodes);
    assert forall v :: v in order <==> v in Elements(order);
    assert forall v :: v in nodes <==> v in Elements(nodes);
    SubsetSize(Elements(order), Elements(nodes));
    if |order| == |nodes| {
      TopologicalIsAcyclic(nodes, edges, order);
    } else {
      var left := Elements(nodes) - Elements(order);
      forall v | v in left ensures HasPredecessor(edges, left, v) {
        NoOpenEdges(edges, v, Elements(order));
        var k :| 0 <= k < |edges| && edges[k].1 == v && edges[k].0 !in Elements(order);
        assert edges[k].0 in left;
      }
      assert left != {} by {
        assert (forall v | v in Elements(nodes) :: v in Elements(order)) ==> Elements(nodes) == Elements(order);
        assert forall v | v in Elements(nodes) :: v in Elements(order) || v in left;
      }
      var start :| start in left;
      ClosedIsCyclic(edges, left, start);
    }
  }

  /** The graph part of the validator: accepts exactly the acyclic graphs over distinct nodes with
      known endpoints; duplicate edges are allowed. */
  method CheckGraph<N(==, !new)>(nodes: seq<N>, edges: seq<Edge<N>>) returns (verdict: Verdict)
    ensures verdict.DuplicateNode? <==> !Distinct(nodes)
    ensures verdict.UnknownEndpoint? <==> Distinct(nodes) && !EndpointsIn(nodes, edges)
    ensures verdict.Accepted? <==> Distinct(nodes) && EndpointsIn(nodes, edges) && !Cyclic(edges)
  {
    if !Distinct(nodes) {
      return DuplicateNode;
    }
    if !EndpointsIn(nodes, edges) {
      return UnknownEndpoint;
    }
    ghost var order;
    var visited;
    visited, order := Drain(nodes, edges);
    VisitedAllIffAcyclic(nodes, edges, order);
    verdict := if visited == |nodes| then Accepted else NotAcyclic;
  }
}
