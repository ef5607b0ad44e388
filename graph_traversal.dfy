/** `topoPathByCanvas` (packages/backend/convex/graph.utils.ts): a
    topological order of a workflow graph that follows a canvas-ordered
    depth-first walk. The walk extends the current path tip while it has
    eligible children, otherwise resumes the most recent fork that still
    has one, and only then jumps to the topmost eligible node.

    The traversal is specified by the step functions below (`Step`, `Walk`,
    `TopoPath`); the method `TopoPathByCanvas` is the imperative loop of the
    source, proved to compute `TopoPath`. */
module GraphTraversal {
  import opened Wrappers
  import opened GraphModel

  // ---------------------------------------------------------------------
  // Degrees and neighbours
  // ---------------------------------------------------------------------

  /** `graph.outNeighbors(k)`: the targets of `k`'s out-edges, in edge order. */
  function OutNeighbors(edges: seq<Edge>, k: Key): (r: seq<Key>)
    ensures forall t :: t in r <==> Edge(k, t) in edges
    decreases |edges|
  {
    if edges == [] then []
    else
      var rest := OutNeighbors(edges[1..], k);
      assert forall t :: Edge(k, t) in edges <==> Edge(k, t) == edges[0] || Edge(k, t) in edges[1..];
      if edges[0].source == k then [edges[0].target] + rest else rest
  }

  /** The number of edges into `k` whose source is not in `done`. With
      `done` empty this is `graph.inDegree(k)`. */
  function PendingIn(edges: seq<Edge>, k: Key, done: seq<Key>): nat
    decreases |edges|
  {
    if edges == [] then 0
    else (if edges[0].target == k && edges[0].source !in done then 1 else 0) + PendingIn(edges[1..], k, done)
  }

  function InDegree(edges: seq<Edge>, k: Key): nat {
    PendingIn(edges, k, [])
  }

  /** The number of copies of the edge `x -> k`. */
  function CountEdges(edges: seq<Edge>, x: Key, k: Key): nat
    decreases |edges|
  {
    if edges == [] then 0
    else (if edges[0] == Edge(x, k) then 1 else 0) + CountEdges(edges[1..], x, k)
  }

  /** Every edge into `k` starts at a node of `done`. */
  ghost predicate Ready(edges: seq<Edge>, done: seq<Key>, k: Key) {
    forall e :: e in edges && e.target == k ==> e.source in done
  }

  /** No pending in-edge is the same as every predecessor being done. */
  lemma {:induction false} PendingInZero(edges: seq<Edge>, k: Key, done: seq<Key>)
    ensures PendingIn(edges, k, done) == 0 <==> Ready(edges, done, k)
    decreases |edges|
  {
    if edges != [] {
      PendingInZero(edges[1..], k, done);
      assert forall e :: e in edges <==> e == edges[0] || e in edges[1..];
    }
  }

  /** Visiting `x` settles exactly the copies of `x -> k` among the pending
      in-edges of `k`. */
  lemma {:induction false} PendingInVisit(edges: seq<Edge>, k: Key, done: seq<Key>, x: Key)
    requires x !in done
    ensures PendingIn(edges, k, done + [x]) + CountEdges(edges, x, k) == PendingIn(edges, k, done)
    decreases |edges|
  {
    if edges != [] {
      PendingInVisit(edges[1..], k, done, x);
    }
  }

  lemma {:induction false} OutNeighborsCount(edges: seq<Edge>, x: Key, k: Key)
    ensures multiset(OutNeighbors(edges, x))[k] == CountEdges(edges, x, k)
    decreases |edges|
  {
    if edges != [] {
      OutNeighborsCount(edges[1..], x, k);
    }
  }

  // ---------------------------------------------------------------------
  // Children, forks and the topmost eligible node
  // ---------------------------------------------------------------------

  /** `list.filter(k => keep.has(k))`. */
  function FilterIn(s: seq<Key>, keep: set<Key>): (r: seq<Key>)
    ensures forall k :: k in r <==> k in s && k in keep
    ensures |r| <= |s|
    decreases |s|
  {
    if s == [] then []
    else
      var init := FilterIn(s[..|s| - 1], keep);
      assert forall k :: k in s <==> k in s[..|s| - 1] || k == s[|s| - 1];
      if s[|s| - 1] in keep then init + [s[|s| - 1]] else init
  }

  /** `getEligibleChildrenSorted`: the eligible out-neighbours of `k`,
      sorted by canvas order. */
  function EligibleChildrenSorted(g: Graph, k: Key, eligible: set<Key>): (r: seq<Key>)
    requires eligible <= g.pos.Keys
    ensures AllNodes(g, r)
    ensures forall c :: c in r <==> c in eligible && Edge(k, c) in g.edges
  {
    var children := FilterIn(OutNeighbors(g.edges, k), eligible);
    var r := SortByCanvas(g, children);
    assert forall c :: c in r <==> c in multiset(r);
    r
  }

  lemma EligibleChildrenSortedIsSorted(g: Graph, k: Key, eligible: set<Key>)
    requires eligible <= g.pos.Keys
    ensures SortedByCanvas(g, EligibleChildrenSorted(g, k, eligible))
  {
    SortByCanvasSorted(g, FilterIn(OutNeighbors(g.edges, k), eligible));
  }

  /** The node of `s` that sorts first on the canvas. */
  ghost function Topmost(g: Graph, s: set<Key>): (r: Key)
    requires s != {} && s <= g.pos.Keys
    ensures r in s
    ensures forall y :: y in s && y != r ==> Before(g, r, y)
    decreases |s|
  {
    var x :| x in s;
    if s == {x} then x
    else
      var m := Topmost(g, s - {x});
      BeforeIsStrictTotalOrder(g, x, m, m);
      if Before(g, x, m) then
        assert forall y :: y in s - {x} && y != m ==> Before(g, m, y);
        assert forall y :: y in s && y != x ==> Before(g, x, y) by {
          forall y | y in s && y != x ensures Before(g, x, y) {
            if y != m {
              BeforeIsStrictTotalOrder(g, x, m, y);
            }
          }
        }
        x
      else
        m
  }

  /** `pickTopmostEligible`: nothing when no node is eligible, otherwise the
      eligible node that sorts first. */
  ghost function PickTopmost(g: Graph, eligible: set<Key>): (r: Option<Key>)
    requires eligible <= g.pos.Keys
    ensures r.None? <==> eligible == {}
    ensures r.Some? ==> r.value in eligible
  {
    if eligible == {} then None else Some(Topmost(g, eligible))
  }

  /** The topmost element of a set is the only element preceding all others. */
  lemma TopmostUnique(g: Graph, s: set<Key>, x: Key)
    requires s <= g.pos.Keys && x in s
    requires forall y :: y in s && y != x ==> Before(g, x, y)
    ensures Topmost(g, s) == x
  {
    var m := Topmost(g, s);
    if m != x {
      BeforeIsStrictTotalOrder(g, m, x, m);
    }
  }

  datatype ForkEntry = ForkEntry(fork: Key, remaining: seq<Key>)

  /** The inner loop over the fork stack: refresh the top entry's remaining
      eligible children; pop it when none is left, otherwise shift its first
      child off and resume there. */
  function ResumeFork(g: Graph, stack: seq<ForkEntry>, eligible: set<Key>): (r: (Option<Key>, seq<ForkEntry>))
    requires eligible <= g.pos.Keys
    ensures r.0.Some? ==> r.0.value in eligible
    ensures r.0.None? ==> r.1 == []
    ensures |r.1| <= |stack|
    decreases |stack|
  {
    if stack == [] then (None, [])
    else
      var top := stack[|stack| - 1];
      var remaining := EligibleChildrenSorted(g, top.fork, eligible);
      if remaining == [] then ResumeFork(g, stack[..|stack| - 1], eligible)
      else (Some(remaining[0]), stack[..|stack| - 1] + [ForkEntry(top.fork, remaining[1..])])
  }

  // ---------------------------------------------------------------------
  // The traversal as a sequence of states
  // ---------------------------------------------------------------------

  datatype TraversalState = TraversalState(
    indegree: map<Key, int>,
    eligible: set<Key>,
    order: seq<Key>,
    forkStack: seq<ForkEntry>,
    active: Option<Key>)

  /** The loop of `visit` over the out-neighbours: lower each known child's
      in-degree and make it eligible when the degree reaches zero. */
  function Decrement(indegree: map<Key, int>, eligible: set<Key>, children: seq<Key>): (map<Key, int>, set<Key>)
    decreases |children|
  {
    if children == [] then (indegree, eligible)
    else
      var c := children[0];
      if c !in indegree then Decrement(indegree, eligible, children[1..])
      else
        var d := indegree[c] - 1;
        Decrement(indegree[c := d], if d == 0 then eligible + {c} else eligible, children[1..])
  }

  /** When no child appears more often than its in-degree, `Decrement` lowers
      each degree by the child's multiplicity and adds exactly the children
      whose degree ends at zero. */
  lemma {:induction false} DecrementEffect(indegree: map<Key, int>, eligible: set<Key>, children: seq<Key>)
    requires forall k :: k in indegree ==> indegree[k] >= multiset(children)[k]
    ensures Decrement(indegree, eligible, children).0.Keys == indegree.Keys
    ensures forall k :: k in indegree ==>
      Decrement(indegree, eligible, children).0[k] == indegree[k] - multiset(children)[k]
    ensures forall k :: k in Decrement(indegree, eligible, children).1 <==>
      k in eligible || (k in indegree && k in children && Decrement(indegree, eligible, children).0[k] == 0)
    decreases |children|
  {
    if children != [] {
      var c := children[0];
      var rest := children[1..];
      assert children == [c] + rest;
      assert multiset(children) == multiset{c} + multiset(rest);
      if c !in indegree {
        DecrementEffect(indegree, eligible, rest);
      } else {
        var d := indegree[c] - 1;
        var e := if d == 0 then eligible + {c} else eligible;
        DecrementEffect(indegree[c := d], e, rest);
      }
    }
  }

  /** `visit(x)`. */
  function Visit(g: Graph, st: TraversalState, x: Key): TraversalState {
    var (indegree, eligible) := Decrement(st.indegree, st.eligible - {x}, OutNeighbors(g.edges, x));
    TraversalState(indegree, eligible, st.order + [x], st.forkStack, Some(x))
  }

  /** Every edge into a visited node starts at a node visited before it. */
  ghost predicate TopoPrefix(g: Graph, order: seq<Key>) {
    forall i :: 0 <= i < |order| ==> Ready(g.edges, order[..i], order[i])
  }

  /** What holds between two iterations of the main loop. */
  ghost predicate Inv(g: Graph, st: TraversalState) {
    && Valid(g)
    && DistinctKeys(st.order)
    && (forall k :: k in st.order ==> k in g.pos)
    && st.indegree.Keys == g.pos.Keys
    && (forall k :: k in st.indegree ==> st.indegree[k] == PendingIn(g.edges, k, st.order))
    && (forall k :: k in st.eligible <==> k in g.pos && k !in st.order && st.indegree[k] == 0)
    && TopoPrefix(g, st.order)
  }

  /** The state before the main loop: every node's in-degree, the nodes
      without in-edges eligible, nothing visited, no fork, no path tip. */
  function Initial(g: Graph): TraversalState {
    TraversalState(
      map k | k in g.pos :: InDegree(g.edges, k),
      set k | k in g.pos && InDegree(g.edges, k) == 0,
      [], [], None)
  }

  lemma InitialInv(g: Graph)
    requires Valid(g)
    ensures Inv(g, Initial(g))
  {
  }

  /** The node the loop body picks before falling back to the topmost
      eligible node, and the fork stack it leaves: the path tip's topmost
      eligible child (remembering the tip as a fork when it has more than
      one), else the node `ResumeFork` finds. */
  function Choose(g: Graph, eligible: set<Key>, forkStack: seq<ForkEntry>, active: Option<Key>): (r: (Option<Key>, seq<ForkEntry>))
    requires eligible <= g.pos.Keys
    ensures r.0.Some? ==> r.0.value in eligible
    ensures r.0.None? ==> r.1 == []
  {
    var (tipNext, stack) :=
      if active.Some? then
        var children := EligibleChildrenSorted(g, active.value, eligible);
        if children == [] then (None, forkStack)
        else (Some(children[0]),
              if |children| >= 2 then forkStack + [ForkEntry(active.value, children[1..])] else forkStack)
      else (None, forkStack);
    if tipNext.Some? then (tipNext, stack) else ResumeFork(g, stack, eligible)
  }

  /** The node the next iteration visits: the path tip's topmost eligible
      child, else a resumed fork's, else the topmost eligible node; nothing
      exactly when no node is eligible. */
  ghost function NextNode(g: Graph, st: TraversalState): (r: Option<Key>)
    requires st.eligible <= g.pos.Keys
    ensures r.None? <==> st.eligible == {}
    ensures r.Some? ==> r.value in st.eligible
  {
    var forkNext := Choose(g, st.eligible, st.forkStack, st.active).0;
    if forkNext.Some? then forkNext else PickTopmost(g, st.eligible)
  }

  /** One iteration of the main loop: `None` where the source throws. */
  ghost function Step(g: Graph, st: TraversalState): Option<TraversalState>
    requires st.eligible <= g.pos.Keys
  {
    match NextNode(g, st)
    case None => None
    case Some(x) => Some(Visit(g, st.(forkStack := Choose(g, st.eligible, st.forkStack, st.active).1), x))
  }

  lemma {:induction false} PendingInAtLeast(edges: seq<Edge>, k: Key, done: seq<Key>, x: Key)
    requires x !in done
    ensures PendingIn(edges, k, done) >= CountEdges(edges, x, k)
  {
    PendingInVisit(edges, k, done, x);
  }

  lemma {:induction false} CountEdgesPositive(edges: seq<Edge>, x: Key, k: Key)
    ensures CountEdges(edges, x, k) > 0 <==> Edge(x, k) in edges
    decreases |edges|
  {
    if edges != [] {
      CountEdgesPositive(edges[1..], x, k);
      assert Edge(x, k) in edges <==> Edge(x, k) == edges[0] || Edge(x, k) in edges[1..];
    }
  }

  /** A node that is eligible has every predecessor visited, so it is not
      its own predecessor and no visited node is its successor. */
  lemma EligibleFacts(g: Graph, st: TraversalState, x: Key)
    requires Inv(g, st) && x in st.eligible
    ensures Ready(g.edges, st.order, x)
    ensures Edge(x, x) !in g.edges
    ensures forall k :: k in st.order ==> Edge(x, k) !in g.edges
  {
    PendingInZero(g.edges, x, st.order);
    forall k | k in st.order ensures Edge(x, k) !in g.edges {
      var i :| 0 <= i < |st.order| && st.order[i] == k;
      assert Ready(g.edges, st.order[..i], st.order[i]);
    }
  }

  /** `visit` keeps the loop invariant when it is given an eligible node. */
  lemma VisitPreservesInv(g: Graph, st: TraversalState, x: Key)
    requires Inv(g, st) && x in st.eligible
    ensures Inv(g, Visit(g, st, x))
    ensures Visit(g, st, x).order == st.order + [x]
  {
    var children := OutNeighbors(g.edges, x);
    var order' := st.order + [x];
    EligibleFacts(g, st, x);
    forall k | k in st.indegree ensures st.indegree[k] >= multiset(children)[k] {
      OutNeighborsCount(g.edges, x, k);
      PendingInAtLeast(g.edges, k, st.order, x);
    }
    DecrementEffect(st.indegree, st.eligible - {x}, children);
    var next := Visit(g, st, x);
    assert DistinctKeys(order') by {
      forall i, j | 0 <= i < j < |order'| ensures order'[i] != order'[j] {
        if j == |st.order| {
          assert order'[i] == st.order[i];
        } else {
          assert order'[i] == st.order[i] && order'[j] == st.order[j];
        }
      }
    }
    forall k | k in next.indegree ensures next.indegree[k] == PendingIn(g.edges, k, order') {
      OutNeighborsCount(g.edges, x, k);
      PendingInVisit(g.edges, k, st.order, x);
    }
    forall k ensures k in next.eligible <==> k in g.pos && k !in order' && next.indegree[k] == 0 {
      if k in g.pos {
        OutNeighborsCount(g.edges, x, k);
        CountEdgesPositive(g.edges, x, k);
      }
    }
    assert TopoPrefix(g, order') by {
      forall i | 0 <= i < |order'| ensures Ready(g.edges, order'[..i], order'[i]) {
        if i < |st.order| {
          assert order'[..i] == st.order[..i];
        } else {
          assert order'[..i] == st.order;
        }
      }
    }
  }

  /** A distinct sequence has as many elements as its set. */
  lemma {:induction false} DistinctCard(s: seq<Key>)
    requires DistinctKeys(s)
    ensures |set k | k in s| == |s|
    decreases |s|
  {
    if s != [] {
      var init := s[..|s| - 1];
      assert DistinctKeys(init) by {
        forall i, j | 0 <= i < j < |init| ensures init[i] != init[j] {
          assert init[i] == s[i] && init[j] == s[j];
        }
      }
      DistinctCard(init);
      assert (set k | k in s) == (set k | k in init) + {s[|s| - 1]};
    }
  }

  /** A distinct sequence holds each of its elements once. */
  lemma {:induction false} DistinctCount(s: seq<Key>, k: Key)
    requires DistinctKeys(s)
    ensures multiset(s)[k] == if k in s then 1 else 0
    decreases |s|
  {
    if s != [] {
      var init := s[..|s| - 1];
      assert s == init + [s[|s| - 1]];
      assert DistinctKeys(init) by {
        forall i, j | 0 <= i < j < |init| ensures init[i] != init[j] {
          assert init[i] == s[i] && init[j] == s[j];
        }
      }
      DistinctCount(init, k);
    }
  }

  lemma DistinctSameElements(a: seq<Key>, b: seq<Key>)
    requires DistinctKeys(a) && DistinctKeys(b)
    requires forall k :: k in a <==> k in b
    ensures multiset(a) == multiset(b)
  {
    forall k ensures multiset(a)[k] == multiset(b)[k] {
      DistinctCount(a, k);
      DistinctCount(b, k);
    }
  }

  /** Visited nodes are distinct nodes of the graph, so there are never
      more of them than nodes; when there are as many, every node is visited. */
  lemma OrderBound(g: Graph, st: TraversalState)
    requires Inv(g, st)
    ensures |st.order| <= |g.nodes|
    ensures |st.order| == |g.nodes| ==> forall k :: k in g.nodes ==> k in st.order
  {
    var visited := set k | k in st.order;
    var all := set k | k in g.nodes;
    DistinctCard(st.order);
    DistinctCard(g.nodes);
    assert visited <= all;
    if |st.order| == |g.nodes| {
      assert |all - visited| == |all| - |visited|;
      assert all - visited == {};
      forall k | k in g.nodes ensures k in st.order {
        assert k in all;
      }
    }
  }

  /** `visit` of the chosen node keeps the invariant and grows the order. */
  lemma StepPreservesInv(g: Graph, st: TraversalState)
    requires Inv(g, st)
    ensures Step(g, st).Some? ==> Inv(g, Step(g, st).value) && |Step(g, st).value.order| == |st.order| + 1
    ensures Step(g, st).None? <==> st.eligible == {}
  {
    var next := NextNode(g, st);
    if next.Some? {
      VisitPreservesInv(g, st.(forkStack := Choose(g, st.eligible, st.forkStack, st.active).1), next.value);
    }
  }

  /** The main loop, run from `st` until every node is visited or no node is
      eligible. */
  ghost function Walk(g: Graph, st: TraversalState): Result<seq<Key>, GraphError>
    requires Inv(g, st)
    decreases |g.nodes| - |st.order|
  {
    OrderBound(g, st);
    if |st.order| >= |g.nodes| then Success(st.order)
    else
      StepPreservesInv(g, st);
      match Step(g, st)
      case None => Failure(CycleOrUnreachable)
      case Some(next) =>
        OrderBound(g, next);
        Walk(g, next)
  }

  /** `topoPathByCanvas(graph)`. */
  ghost function TopoPath(g: Graph): Result<seq<Key>, GraphError>
    requires Valid(g)
  {
    if |g.nodes| == 0 then Success([])
    else
      InitialInv(g);
      Walk(g, Initial(g))
  }

  // ---------------------------------------------------------------------
  // What the traversal promises
  // ---------------------------------------------------------------------

  /** For every edge `u -> v` between two entries of `r`, `u` comes first. */
  ghost predicate EdgesForward(g: Graph, r: seq<Key>) {
    forall i, j :: 0 <= i < |r| && 0 <= j < |r| && Edge(r[i], r[j]) in g.edges ==> i < j
  }

  /** `r` lists every node once, each after all of its predecessors. */
  ghost predicate IsTopologicalOrder(g: Graph, r: seq<Key>) {
    DistinctKeys(r) && multiset(r) == multiset(g.nodes) && EdgesForward(g, r)
  }

  /** `k` has a predecessor in `s`. */
  ghost predicate HasPredecessorIn(g: Graph, s: set<Key>, k: Key) {
    exists e :: e in g.edges && e.target == k && e.source in s
  }

  /** A non-empty set of nodes each of which has a predecessor inside the
      set: what a cycle, or anything reachable only through one, forms. */
  ghost predicate Sourceless(g: Graph, s: set<Key>) {
    s != {} && s <= g.pos.Keys && forall k :: k in s ==> HasPredecessorIn(g, s, k)
  }

  /** The graph has no cycle: every non-empty set of nodes has a node
      without a predecessor in the set. */
  ghost predicate Acyclic(g: Graph) {
    forall s: set<Key> :: !Sourceless(g, s)
  }

  /** The entry after `path[i]` on a closed walk. */
  function Succ(path: seq<Key>, i: nat): Key
    requires i < |path|
  {
    if i + 1 < |path| then path[i + 1] else path[0]
  }

  /** A closed walk `path[0] -> path[1] -> ... -> path[0]`. */
  ghost predicate IsCycle(g: Graph, path: seq<Key>) {
    |path| > 0 && forall i :: 0 <= i < |path| ==> Edge(path[i], Succ(path, i)) in g.edges
  }

  lemma DistinctPrefixForward(g: Graph, r: seq<Key>)
    requires DistinctKeys(r) && TopoPrefix(g, r)
    ensures EdgesForward(g, r)
  {
    forall i, j | 0 <= i < |r| && 0 <= j < |r| && Edge(r[i], r[j]) in g.edges ensures i < j {
      assert Ready(g.edges, r[..j], r[j]);
      assert r[i] in r[..j];
      var i' :| 0 <= i' < j && r[..j][i'] == r[i];
      assert r[i'] == r[i];
    }
  }

  lemma {:induction false} FirstIn(r: seq<Key>, s: set<Key>, k: Key)
    requires k in s && k in r
    ensures exists i :: 0 <= i < |r| && r[i] in s && forall j :: 0 <= j < i ==> r[j] !in s
    decreases |r|
  {
    if r[0] !in s {
      FirstIn(r[1..], s, k);
      var i :| 0 <= i < |r[1..]| && r[1..][i] in s && forall j :: 0 <= j < i ==> r[1..][j] !in s;
      assert r[i + 1] in s;
      forall j | 0 <= j < i + 1 ensures r[j] !in s {
        if j > 0 {
          assert r[j] == r[1..][j - 1];
        }
      }
    }
  }

  /** A graph with a topological order has no cycle. */
  lemma TopologicalOrderAcyclic(g: Graph, r: seq<Key>)
    requires Valid(g) && IsTopologicalOrder(g, r)
    ensures Acyclic(g)
  {
    forall s: set<Key> | s <= g.pos.Keys && s != {} ensures !Sourceless(g, s) {
      var k :| k in s;
      assert k in multiset(g.nodes);
      FirstIn(r, s, k);
      var i :| 0 <= i < |r| && r[i] in s && forall j :: 0 <= j < i ==> r[j] !in s;
      forall e | e in g.edges && e.target == r[i] ensures e.source !in s {
        assert e.source in multiset(g.nodes);
        assert e.source in multiset(r);
        var j :| 0 <= j < |r| && r[j] == e.source;
        assert Edge(r[j], r[i]) == e;
      }
      assert !HasPredecessorIn(g, s, r[i]);
    }
  }

  lemma SubsetCard(a: set<Key>, b: set<Key>)
    requires a <= b
    ensures |a| <= |b|
  {
    assert b == a + (b - a);
  }

  lemma SomeUnvisited(g: Graph, st: TraversalState) returns (k: Key)
    requires Inv(g, st) && |st.order| < |g.nodes|
    ensures k in g.pos && k !in st.order
  {
    var visited := set k | k in st.order;
    var all := set k | k in g.nodes;
    DistinctCard(st.order);
    DistinctCard(g.nodes);
    if all <= visited {
      SubsetCard(all, visited);
    }
    k :| k in all && k !in visited;
  }

  lemma PendingPredecessor(g: Graph, st: TraversalState, k: Key) returns (e: Edge)
    requires Inv(g, st) && k in g.pos && k !in st.order && k !in st.eligible
    ensures e in g.edges && e.target == k && e.source in g.pos && e.source !in st.order
  {
    PendingInZero(g.edges, k, st.order);
    e :| e in g.edges && e.target == k && e.source !in st.order;
  }

  /** When nodes remain but none is eligible, the unvisited nodes have no
      source among them: the graph has a cycle. */
  lemma StuckMeansCycle(g: Graph, st: TraversalState)
    requires Inv(g, st) && |st.order| < |g.nodes| && st.eligible == {}
    ensures !Acyclic(g)
  {
    var rest := set k | k in g.pos && k !in st.order;
    var missing := SomeUnvisited(g, st);
    assert missing in rest;
    forall k | k in rest ensures HasPredecessorIn(g, rest, k) {
      var e := PendingPredecessor(g, st, k);
      assert e.source in rest;
    }
    assert Sourceless(g, rest);
  }

  lemma {:induction false} WalkOutcome(g: Graph, st: TraversalState)
    requires Inv(g, st)
    ensures Walk(g, st).Success? ==> IsTopologicalOrder(g, Walk(g, st).value)
    ensures Walk(g, st).Failure? ==> Walk(g, st).error == CycleOrUnreachable && !Acyclic(g)
    decreases |g.nodes| - |st.order|
  {
    OrderBound(g, st);
    if |st.order| >= |g.nodes| {
      DistinctSameElements(st.order, g.nodes);
      DistinctPrefixForward(g, st.order);
    } else {
      StepPreservesInv(g, st);
      match Step(g, st)
      case None =>
        StuckMeansCycle(g, st);
      case Some(next) =>
        OrderBound(g, next);
        WalkOutcome(g, next);
    }
  }

  /** `topoPathByCanvas` returns a topological order of the whole graph, and
      throws exactly when the graph has a cycle. */
  lemma TopoPathCorrect(g: Graph)
    requires Valid(g)
    ensures TopoPath(g).Success? ==> IsTopologicalOrder(g, TopoPath(g).value)
    ensures TopoPath(g).Failure? <==> !Acyclic(g)
    ensures TopoPath(g).Failure? ==> TopoPath(g).error == CycleOrUnreachable
  {
    if |g.nodes| == 0 {
      assert g.pos.Keys == {};
    } else {
      InitialInv(g);
      WalkOutcome(g, Initial(g));
      if TopoPath(g).Success? {
        TopologicalOrderAcyclic(g, TopoPath(g).value);
      }
    }
  }

  lemma CyclePredecessors(g: Graph, path: seq<Key>, k: Key) returns (e: Edge)
    requires IsCycle(g, path) && k in path
    ensures e in g.edges && e.target == k && e.source in path
  {
    var n := |path|;
    var i :| 0 <= i < n && path[i] == k;
    if i == 0 {
      assert Succ(path, n - 1) == path[0];
      e := Edge(path[n - 1], Succ(path, n - 1));
    } else {
      assert Succ(path, i - 1) == path[i];
      e := Edge(path[i - 1], Succ(path, i - 1));
    }
  }

  /** A graph with a cycle has no topological order: `topoPathByCanvas`
      throws on it. */
  lemma CycleNotAcyclic(g: Graph, path: seq<Key>)
    requires Valid(g) && IsCycle(g, path)
    ensures !Acyclic(g)
    ensures TopoPath(g).Failure?
  {
    var s := set k | k in path;
    forall k | k in s ensures HasPredecessorIn(g, s, k) {
      var e := CyclePredecessors(g, path, k);
      assert e.source in s;
    }
    forall k | k in s ensures k in g.pos {
      var e := CyclePredecessors(g, path, k);
    }
    assert path[0] in s;
    assert Sourceless(g, s);
    TopoPathCorrect(g);
  }

  // ---------------------------------------------------------------------
  // How the next node is chosen
  // ---------------------------------------------------------------------

  /** The head of the sorted eligible children of `k` is an eligible child
      of `k` that sorts before every other one. */
  lemma TopmostChild(g: Graph, k: Key, eligible: set<Key>)
    requires eligible <= g.pos.Keys
    requires EligibleChildrenSorted(g, k, eligible) != []
    ensures var x := EligibleChildrenSorted(g, k, eligible)[0];
      && x in eligible && Edge(k, x) in g.edges
      && forall c :: c in eligible && Edge(k, c) in g.edges && c != x ==> Before(g, x, c)
  {
    var children := FilterIn(OutNeighbors(g.edges, k), eligible);
    SortedHeadIsTopmost(g, children);
  }

  /** While the path tip has an eligible child, the walk moves to the
      tip's topmost eligible child. */
  lemma StepExtendsTip(g: Graph, st: TraversalState)
    requires Inv(g, st) && st.active.Some?
    requires exists c :: c in st.eligible && Edge(st.active.value, c) in g.edges
    ensures NextNode(g, st).Some?
    ensures var x := NextNode(g, st).value;
      && x in st.eligible && Edge(st.active.value, x) in g.edges
      && forall c :: c in st.eligible && Edge(st.active.value, c) in g.edges && c != x ==> Before(g, x, c)
  {
    var c :| c in st.eligible && Edge(st.active.value, c) in g.edges;
    assert c in EligibleChildrenSorted(g, st.active.value, st.eligible);
    TopmostChild(g, st.active.value, st.eligible);
  }

  /** `k` has no eligible child. */
  ghost predicate Exhausted(g: Graph, k: Key, eligible: set<Key>) {
    forall c :: Edge(k, c) in g.edges ==> c !in eligible
  }

  lemma ExhaustedIffNoChildren(g: Graph, k: Key, eligible: set<Key>)
    requires eligible <= g.pos.Keys
    ensures Exhausted(g, k, eligible) <==> EligibleChildrenSorted(g, k, eligible) == []
  {
    var children := EligibleChildrenSorted(g, k, eligible);
    if children != [] {
      assert children[0] in children;
    }
  }

  /** When `ResumeFork` finds nothing, every fork on the stack is exhausted. */
  lemma {:induction false} ResumeForkNone(g: Graph, stack: seq<ForkEntry>, eligible: set<Key>)
    requires eligible <= g.pos.Keys
    requires ResumeFork(g, stack, eligible).0.None?
    ensures forall i :: 0 <= i < |stack| ==> Exhausted(g, stack[i].fork, eligible)
    decreases |stack|
  {
    if stack != [] {
      var n := |stack| - 1;
      ExhaustedIffNoChildren(g, stack[n].fork, eligible);
      ResumeForkNone(g, stack[..n], eligible);
      forall i | 0 <= i < n ensures Exhausted(g, stack[i].fork, eligible) {
        assert stack[..n][i] == stack[i];
      }
    }
  }

  /** The fork stack is searched from its top: the node `ResumeFork` picks
      is the topmost eligible child of some fork `i`, and every fork above
      `i` is exhausted. */
  lemma {:induction false} ResumeForkMostRecent(g: Graph, stack: seq<ForkEntry>, eligible: set<Key>) returns (i: nat)
    requires eligible <= g.pos.Keys
    requires ResumeFork(g, stack, eligible).0.Some?
    ensures i < |stack| && EligibleChildrenSorted(g, stack[i].fork, eligible) != []
    ensures ResumeFork(g, stack, eligible).0.value == EligibleChildrenSorted(g, stack[i].fork, eligible)[0]
    ensures forall j :: i < j < |stack| ==> Exhausted(g, stack[j].fork, eligible)
    decreases |stack|
  {
    var n := |stack| - 1;
    if EligibleChildrenSorted(g, stack[n].fork, eligible) == [] {
      ExhaustedIffNoChildren(g, stack[n].fork, eligible);
      i := ResumeForkMostRecent(g, stack[..n], eligible);
      assert stack[..n][i] == stack[i];
      forall j | i < j < |stack| ensures Exhausted(g, stack[j].fork, eligible) {
        if j < n {
          assert stack[..n][j] == stack[j];
        }
      }
    } else {
      i := n;
    }
  }

  /** A jump to the topmost eligible node happens only when neither the
      path tip nor any fork on the stack has an eligible child. */
  lemma JumpOnlyWhenStuck(g: Graph, st: TraversalState)
    requires Inv(g, st)
    requires Choose(g, st.eligible, st.forkStack, st.active).0.None?
    ensures st.active.Some? ==> Exhausted(g, st.active.value, st.eligible)
    ensures forall i :: 0 <= i < |st.forkStack| ==> Exhausted(g, st.forkStack[i].fork, st.eligible)
  {
    if st.active.Some? {
      ExhaustedIffNoChildren(g, st.active.value, st.eligible);
    }
    ResumeForkNone(g, st.forkStack, st.eligible);
  }

  // ---------------------------------------------------------------------
  // The empty key, as written
  // ---------------------------------------------------------------------

  /** The one-node graph whose node key is the empty string. */
  const EmptyKeyGraph := Graph([""], map["" := CanvasPos(0, 0)], [])

  /** The first iteration of the main loop as the source writes it: with no
      path tip and an empty fork stack it picks the topmost eligible node,
      and then throws if that node is falsy, which the empty key is. */
  ghost function FirstPickAsWritten(g: Graph): (r: Result<Key, GraphError>)
    requires Valid(g)
    ensures r.Success? ==> r.value != "" && r.value in g.pos
  {
    var next := PickTopmost(g, Initial(g).eligible);
    if next.Some? && next.value != "" then Success(next.value) else Failure(CycleOrUnreachable)
  }

  /** What one pass of the inner fork loop does as the source writes it. */
  datatype ForkPass =
    | Popped(rest: seq<ForkEntry>)
    | Found(next: Key, rest: seq<ForkEntry>)
    | Shifted(rest: seq<ForkEntry>)

  /** One pass of the inner fork loop as written: refresh the top entry,
      pop it when nothing is left, otherwise shift its first child off and
      stop only when that child is truthy, which the empty key is not. */
  function ForkPassAsWritten(g: Graph, stack: seq<ForkEntry>, eligible: set<Key>): (r: ForkPass)
    requires eligible <= g.pos.Keys
    requires stack != []
    ensures |r.rest| <= |stack|
    ensures r.Found? ==> r.next != "" && r.next in eligible
  {
    var top := stack[|stack| - 1];
    var remaining := EligibleChildrenSorted(g, top.fork, eligible);
    if remaining == [] then Popped(stack[..|stack| - 1])
    else if remaining[0] != "" then Found(remaining[0], stack[..|stack| - 1] + [ForkEntry(top.fork, remaining[1..])])
    else Shifted(stack[..|stack| - 1] + [ForkEntry(top.fork, remaining[1..])])
  }

  /** The inner fork loop as written, run for at most `fuel` passes:
      `None` while it is still running, otherwise the node it found (or
      none, once the stack is empty). */
  function ForkLoopAsWritten(g: Graph, stack: seq<ForkEntry>, eligible: set<Key>, fuel: nat): Option<Option<Key>>
    requires eligible <= g.pos.Keys
    decreases fuel
  {
    if fuel == 0 then None
    else if stack == [] then Some(None)
    else
      match ForkPassAsWritten(g, stack, eligible)
      case Found(next, _) => Some(Some(next))
      case Popped(rest) => ForkLoopAsWritten(g, rest, eligible, fuel - 1)
      case Shifted(rest) => ForkLoopAsWritten(g, rest, eligible, fuel - 1)
  }

  /** As written, once the empty key heads the refreshed children of the
      top fork, the inner loop never ends: each pass shifts "" off, the
      test `if (next)` fails, and the next pass refreshes the same list.
      The model's `ResumeFork` resumes at "" instead. */
  lemma {:induction false} EmptyKeyForkLoopsAsWritten(g: Graph, stack: seq<ForkEntry>, eligible: set<Key>, fuel: nat)
    requires eligible <= g.pos.Keys
    requires stack != []
    requires var children := EligibleChildrenSorted(g, stack[|stack| - 1].fork, eligible);
      children != [] && children[0] == ""
    ensures ForkLoopAsWritten(g, stack, eligible, fuel) == None
    ensures ResumeFork(g, stack, eligible).0 == Some("")
    decreases fuel
  {
    if fuel > 0 {
      var top := stack[|stack| - 1];
      var remaining := EligibleChildrenSorted(g, top.fork, eligible);
      var rest := stack[..|stack| - 1] + [ForkEntry(top.fork, remaining[1..])];
      assert ForkPassAsWritten(g, stack, eligible) == Shifted(rest);
      assert rest[|rest| - 1].fork == top.fork;
      EmptyKeyForkLoopsAsWritten(g, rest, eligible, fuel - 1);
    }
  }

  lemma EmptyKeyInitial()
    ensures Valid(EmptyKeyGraph)
    ensures Initial(EmptyKeyGraph).eligible == {""}
    ensures Topmost(EmptyKeyGraph, {""}) == ""
  {
    var g := EmptyKeyGraph;
    assert InDegree(g.edges, "") == 0;
    TopmostUnique(g, {""}, "");
  }

  /** As written, the traversal throws "cycle or unreachable node" on the
      acyclic one-node graph keyed by the empty string; the model, which
      tests for a missing node instead of a falsy one, orders it. */
  lemma EmptyKeyRejectedAsWritten()
    ensures Valid(EmptyKeyGraph)
    ensures FirstPickAsWritten(EmptyKeyGraph) == Failure(CycleOrUnreachable)
    ensures Acyclic(EmptyKeyGraph)
    ensures TopoPath(EmptyKeyGraph) == Success([""])
  {
    var g := EmptyKeyGraph;
    EmptyKeyInitial();
    var s0 := Initial(g);
    InitialInv(g);
    assert NextNode(g, s0) == Some("");
    StepPreservesInv(g, s0);
    var s1 := Step(g, s0).value;
    assert s1.order == [""];
    assert Walk(g, s1) == Success([""]);
    assert Walk(g, s0) == Walk(g, s1);
    TopoPathCorrect(g);
  }

  // ---------------------------------------------------------------------
  // The imperative traversal

  // ---------------------------------------------------------------------

  /** `getEligibleChildrenSorted`: collect the eligible out-neighbours, then
      sort them by canvas order. */
  method GetEligibleChildrenSorted(g: Graph, k: Key, eligible: set<Key>) returns (children: seq<Key>)
    requires eligible <= g.pos.Keys
    ensures children == EligibleChildrenSorted(g, k, eligible)
  {
    var neighbors := OutNeighbors(g.edges, k);
    children := [];
    for i := 0 to |neighbors|
      invariant children == FilterIn(neighbors[..i], eligible)
    {
      assert neighbors[..i + 1][..i] == neighbors[..i];
      if neighbors[i] in eligible {
        children := children + [neighbors[i]];
      }
    }
    assert neighbors[..|neighbors|] == neighbors;
    children := SortByCanvas(g, children);
  }

  /** `pickTopmostEligible`: copy the eligible set into a list, sort it by
      canvas order and take the head. */
  method PickTopmostEligible(g: Graph, eligible: set<Key>) returns (r: Option<Key>)
    requires eligible <= g.pos.Keys
    ensures r == PickTopmost(g, eligible)
  {
    if |eligible| == 0 {
      return None;
    }
    var candidates: seq<Key> := [];
    var rest := eligible;
    while rest != {}
      invariant rest <= eligible
      invariant forall k :: k in candidates <==> k in eligible && k !in rest
      decreases |rest|
    {
      var k :| k in rest;
      candidates := candidates + [k];
      rest := rest - {k};
    }
    var sorted := SortByCanvas(g, candidates);
    assert sorted[0] in multiset(sorted);
    SortedHeadIsTopmost(g, candidates);
    TopmostUnique(g, eligible, sorted[0]);
    r := Some(sorted[0]);
  }

  /** `visit(x)`: append `x` to the order, drop it from the eligible set,
      lower the in-degree of each out-neighbour and make the ones that reach
      zero eligible, then make `x` the path tip. */
  method VisitNode(g: Graph, indegree: map<Key, int>, eligible: set<Key>, order: seq<Key>, x: Key)
    returns (indegree': map<Key, int>, eligible': set<Key>, order': seq<Key>, active': Option<Key>)
    ensures (indegree', eligible') == Decrement(indegree, eligible - {x}, OutNeighbors(g.edges, x))
    ensures order' == order + [x] && active' == Some(x)
  {
    order' := order + [x];
    eligible' := eligible - {x};
    indegree' := indegree;
    var neighbors := OutNeighbors(g.edges, x);
    for i := 0 to |neighbors|
      invariant Decrement(indegree', eligible', neighbors[i..]) == Decrement(indegree, eligible - {x}, neighbors)
    {
      var child := neighbors[i];
      assert neighbors[i..][1..] == neighbors[i + 1..];
      if child in indegree' {
        var nextDegree := indegree'[child] - 1;
        indegree' := indegree'[child := nextDegree];
        if nextDegree == 0 {
          eligible' := eligible' + {child};
        }
      }
    }
    active' := Some(x);
  }

  /** The loop over the nodes before the traversal: record each node's
      in-degree and make the nodes without in-edges eligible. */
  method InitialDegrees(g: Graph) returns (indegree: map<Key, int>, eligible: set<Key>)
    requires Valid(g)
    ensures indegree == Initial(g).indegree && eligible == Initial(g).eligible
  {
    var nodes := g.nodes;
    indegree := map[];
    eligible := {};
    for i := 0 to |nodes|
      invariant indegree == map k | k in nodes[..i] :: InDegree(g.edges, k)
      invariant eligible == set k | k in nodes[..i] && InDegree(g.edges, k) == 0
    {
      assert nodes[..i + 1] == nodes[..i] + [nodes[i]];
      var degree := InDegree(g.edges, nodes[i]);
      indegree := indegree[nodes[i] := degree];
      if degree == 0 {
        eligible := eligible + {nodes[i]};
      }
    }
    assert nodes[..|nodes|] == nodes;
  }

  /** The first part of the loop body: extend the path tip, or else resume
      the most recent fork that still has an eligible child, popping the
      exhausted ones. */
  method ChooseNext(g: Graph, eligible: set<Key>, forkStack: seq<ForkEntry>, active: Option<Key>)
    returns (next: Option<Key>, forkStack': seq<ForkEntry>, active': Option<Key>)
    requires eligible <= g.pos.Keys
    ensures (next, forkStack') == Choose(g, eligible, forkStack, active)
    ensures active' == if active.Some? && EligibleChildrenSorted(g, active.value, eligible) == [] then None else active
  {
    next := None;
    forkStack' := forkStack;
    active' := active;
    if active.Some? {
      var children := GetEligibleChildrenSorted(g, active.value, eligible);
      if |children| == 0 {
        active' := None;
      } else {
        next := Some(children[0]);
        if |children| >= 2 {
          forkStack' := forkStack' + [ForkEntry(active.value, children[1..])];
        }
      }
    }
    if next.None? {
      ghost var stack0 := forkStack';
      while |forkStack'| > 0
        invariant ResumeFork(g, forkStack', eligible) == ResumeFork(g, stack0, eligible)
        invariant next.None?
        decreases |forkStack'|
      {
        var candidate := forkStack'[|forkStack'| - 1];
        var remaining := GetEligibleChildrenSorted(g, candidate.fork, eligible);
        candidate := candidate.(remaining := remaining);
        forkStack' := forkStack'[..|forkStack'| - 1] + [candidate];
        if |candidate.remaining| == 0 {
          forkStack' := forkStack'[..|forkStack'| - 1];
          continue;
        }
        next := Some(candidate.remaining[0]);
        forkStack' := forkStack'[..|forkStack'| - 1] + [candidate.(remaining := candidate.remaining[1..])];
        assert (next, forkStack') == ResumeFork(g, stack0, eligible);
        break;
      }
    }
  }

  /** `topoPathByCanvas(graph)`. */
  method TopoPathByCanvas(g: Graph) returns (r: Result<seq<Key>, GraphError>)
    requires Valid(g)
    ensures r == TopoPath(g)
    ensures r.Success? ==> IsTopologicalOrder(g, r.value)
    ensures r.Failure? <==> !Acyclic(g)
  {
    TopoPathCorrect(g);
    var nodes := g.nodes;
    if |nodes| == 0 {
      return Success([]);
    }
    var indegree, eligible := InitialDegrees(g);
    var order: seq<Key> := [];
    var forkStack: seq<ForkEntry> := [];
    var active: Option<Key> := None;
    InitialInv(g);

    while |order| < |nodes|
      invariant Inv(g, TraversalState(indegree, eligible, order, forkStack, active))
      invariant Walk(g, TraversalState(indegree, eligible, order, forkStack, active)) == TopoPath(g)
      decreases |nodes| - |order|
    {
      ghost var st := TraversalState(indegree, eligible, order, forkStack, active);
      var next;
      next, forkStack, active := ChooseNext(g, eligible, forkStack, active);
      if next.None? {
        next := PickTopmostEligible(g, eligible);
      }
      if next.None? {
        return Failure(CycleOrUnreachable);
      }
      StepPreservesInv(g, st);
      indegree, eligible, order, active := VisitNode(g, indegree, eligible, order, next.value);
      assert TraversalState(indegree, eligible, order, forkStack, active) == Step(g, st).value;
      OrderBound(g, st);
    }
    r := Success(order);
  }

  // ---------------------------------------------------------------------
  // computeBranchOrderedExecutionAuto
  // ---------------------------------------------------------------------

  /** The nodes that are an endpoint of at least one edge. */
  ghost predicate Involved(g: Graph, k: Key) {
    exists e :: e in g.edges && (e.source == k || e.target == k)
  }

  /** The endpoints of the edges. */
  function Endpoints(edges: seq<Edge>): (r: set<Key>)
    ensures forall k :: k in r <==> exists e :: e in edges && (e.source == k || e.target == k)
    decreases |edges|
  {
    if edges == [] then {}
    else
      var init := edges[..|edges| - 1];
      var last := edges[|edges| - 1];
      assert forall e :: e in edges <==> e in init || e == last;
      Endpoints(init) + {last.source, last.target}
  }

  lemma LastHasNoEdgeBack(g: Graph, r: seq<Key>, y: Key)
    requires r != [] && EdgesForward(g, r) && y in r
    ensures Edge(r[|r| - 1], y) !in g.edges
  {
    var k :| 0 <= k < |r| && r[k] == y;
  }

  /** Dropping entries keeps a sequence distinct and keeps every edge
      between two remaining entries pointing forward. */
  lemma {:induction false} FilterInKeepsOrder(g: Graph, r: seq<Key>, keep: set<Key>)
    requires DistinctKeys(r) && EdgesForward(g, r)
    ensures DistinctKeys(FilterIn(r, keep)) && EdgesForward(g, FilterIn(r, keep))
    decreases |r|
  {
    if r != [] {
      var init := r[..|r| - 1];
      var last := r[|r| - 1];
      assert DistinctKeys(init) && EdgesForward(g, init) by {
        forall i, j | 0 <= i < j < |init| ensures init[i] != init[j] {
          assert init[i] == r[i] && init[j] == r[j];
        }
        forall i, j | 0 <= i < |init| && 0 <= j < |init| && Edge(init[i], init[j]) in g.edges ensures i < j {
          assert init[i] == r[i] && init[j] == r[j];
        }
      }
      FilterInKeepsOrder(g, init, keep);
      var f := FilterIn(init, keep);
      if last in keep {
        var f' := f + [last];
        assert last !in init;
        forall i, j | 0 <= i < j < |f'| ensures f'[i] != f'[j] {
          if j == |f| {
            assert f'[i] == f[i] && f[i] in init;
          } else {
            assert f'[i] == f[i] && f'[j] == f[j];
          }
        }
        forall i, j | 0 <= i < |f'| && 0 <= j < |f'| && Edge(f'[i], f'[j]) in g.edges ensures i < j {
          if j < |f| {
            assert f'[j] == f[j] && f[j] in init;
          }
          LastHasNoEdgeBack(g, r, f'[j]);
          if i < |f| && j < |f| {
            assert f'[i] == f[i] && f'[j] == f[j];
          }
        }
      }
    }
  }

  /** `computeBranchOrderedExecutionAuto(data)`: the traversal order of the
      built graph, keeping only the nodes that take part in an edge. */
  ghost function BranchOrderedExecution(data: InputData): Result<seq<Key>, GraphError> {
    var g :- GraphOf(data);
    BuildGraphSpec(data);
    var order :- TopoPath(g);
    Success(FilterIn(order, Endpoints(g.edges)))
  }

  /** It fails exactly when the graph cannot be built or has a cycle; on
      success it lists each node that takes part in an edge once, every
      edge's source before its target, in the traversal's order. */
  lemma BranchOrderedExecutionCorrect(data: InputData)
    ensures BranchOrderedExecution(data).Success? <==>
      GraphOf(data).Success? && (BuildGraphSpec(data); Acyclic(GraphOf(data).value))
    ensures BranchOrderedExecution(data).Success? ==>
      var g := GraphOf(data).value;
      var r := BranchOrderedExecution(data).value;
      && DistinctKeys(r)
      && (forall k :: k in r <==> Involved(g, k))
      && (forall e :: e in g.edges ==> e.source in r && e.target in r)
      && EdgesForward(g, r)
  {
    if GraphOf(data).Success? {
      var g := GraphOf(data).value;
      BuildGraphSpec(data);
      TopoPathCorrect(g);
      if TopoPath(g).Success? {
        var order := TopoPath(g).value;
        FilterInKeepsOrder(g, order, Endpoints(g.edges));
        forall k | Involved(g, k) ensures k in order {
          var e :| e in g.edges && (e.source == k || e.target == k);
          assert k in g.pos;
          assert k in multiset(g.nodes);
        }
      }
    }
  }

  /** `computeBranchOrderedExecutionAuto(data)`: build the graph, order it,
      collect the endpoints of every edge and filter the order by them. */
  method ComputeBranchOrderedExecutionAuto(data: InputData) returns (r: Result<seq<Key>, GraphError>)
    ensures r == BranchOrderedExecution(data)
  {
    var g :- BuildGraph(data);
    var order :- TopoPathByCanvas(g);
    var involved: set<Key> := {};
    for i := 0 to |g.edges|
      invariant involved == Endpoints(g.edges[..i])
    {
      assert g.edges[..i + 1][..i] == g.edges[..i];
      involved := involved + {g.edges[i].source, g.edges[i].target};
    }
    assert g.edges[..|g.edges|] == g.edges;
    r := Success(FilterIn(order, involved));
  }
}
