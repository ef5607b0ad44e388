/** The graph model of packages/backend/convex/graph.utils.ts: canvas
    positions, the `byCanvas` comparator, sorting by it, and `buildGraph`.

    A graphology `Graph({ type: "directed" })` is a simple graph: it refuses a
    second node with the same key and a second edge between the same ordered
    pair of nodes, and accepts self-loops. It is modelled as the node keys in
    insertion order, the stored position of each node and the edges in
    insertion order. */
module GraphModel {
  import opened Wrappers
  import JsText

  type Key = string

  /** A JavaScript number as far as positions are concerned: a finite
      (integral) value, or one of NaN and the infinities. */
  datatype JsNumber = Finite(value: int) | NonFinite

  /** The optional `{ x?, y? }` object a node may carry. */
  datatype RawPosition = RawPosition(x: Option<JsNumber>, y: Option<JsNumber>)

  datatype CanvasPos = CanvasPos(x: int, y: int)

  /** Node ids arrive as strings or numbers. */
  datatype RawId = StrId(s: string) | NumId(n: int)

  datatype InputNode = InputNode(id: RawId, position: Option<RawPosition>)
  datatype InputEdge = InputEdge(source: RawId, target: RawId)
  datatype InputData = InputData(nodes: seq<InputNode>, edges: seq<InputEdge>)

  datatype Edge = Edge(source: Key, target: Key)

  datatype Graph = Graph(nodes: seq<Key>, pos: map<Key, CanvasPos>, edges: seq<Edge>)

  datatype GraphError =
    | NodeNotFound(key: Key)
    | DuplicateNode(key: Key)
    | DuplicateEdge(source: Key, target: Key)
    | CycleOrUnreachable

  // ---------------------------------------------------------------------
  // Identifiers and positions
  // ---------------------------------------------------------------------

  /** `String(id)`: strings are kept, numbers are printed in decimal. */
  function ToKey(id: RawId): (k: Key)
    ensures id.StrId? ==> k == id.s
    ensures id.NumId? ==> k == JsText.IntToDecimal(id.n) && k != ""
  {
    match id
    case StrId(s) => s
    case NumId(n) => JsText.IntToDecimal(n)
  }

  /** `Number(c)` followed by the `Number.isFinite(c) ? c : 0` fallback. */
  function CoordOrZero(c: Option<JsNumber>): int {
    if c.Some? && c.value.Finite? then c.value.value else 0
  }

  /** `posOrDefault`: each coordinate independently becomes 0 when it is
      missing or not finite, and is kept otherwise. */
  function PosOrDefault(p: Option<RawPosition>): (r: CanvasPos)
    ensures p.Some? && p.value.x.Some? && p.value.x.value.Finite? ==> r.x == p.value.x.value.value
    ensures !(p.Some? && p.value.x.Some? && p.value.x.value.Finite?) ==> r.x == 0
    ensures p.Some? && p.value.y.Some? && p.value.y.value.Finite? ==> r.y == p.value.y.value.value
    ensures !(p.Some? && p.value.y.Some? && p.value.y.value.Finite?) ==> r.y == 0
  {
    if p.None? then CanvasPos(0, 0)
    else CanvasPos(CoordOrZero(p.value.x), CoordOrZero(p.value.y))
  }

  /** A stored position, read back as the raw attribute object. */
  function AsRaw(p: CanvasPos): RawPosition {
    RawPosition(Some(Finite(p.x)), Some(Finite(p.y)))
  }

  /** Normalising an already normalised position changes nothing, so the
      position `posOf` reads back is the one `buildGraph` stored. */
  lemma PosOrDefaultIdempotent(p: Option<RawPosition>)
    ensures PosOrDefault(Some(AsRaw(PosOrDefault(p)))) == PosOrDefault(p)
  {
  }

  /** `posOf`: a key that is not a node is an error; otherwise the stored
      position, normalised again. */
  function PosOf(g: Graph, k: Key): (r: Result<CanvasPos, GraphError>)
    ensures k !in g.pos <==> r == Failure(NodeNotFound(k))
    ensures k in g.pos ==> r == Success(g.pos[k])
  {
    if k !in g.pos then Failure(NodeNotFound(k))
    else
      PosOrDefaultIdempotent(Some(AsRaw(g.pos[k])));
      Success(PosOrDefault(Some(AsRaw(g.pos[k]))))
  }

  // ---------------------------------------------------------------------
  // The canvas order
  // ---------------------------------------------------------------------

  /** `a.localeCompare(b)`, modelled as lexicographic order on Unicode code points:
      negative, zero or positive. */
  function KeyCompare(a: string, b: string): (r: int)
    ensures -1 <= r <= 1
    ensures r == 0 <==> a == b
  {
    if a == [] && b == [] then 0
    else if a == [] then -1
    else if b == [] then 1
    else if a[0] < b[0] then -1
    else if b[0] < a[0] then 1
    else
      var r := KeyCompare(a[1..], b[1..]);
      assert a == [a[0]] + a[1..] && b == [b[0]] + b[1..];
      r
  }

  lemma {:induction false} KeyCompareAntisymmetric(a: string, b: string)
    ensures KeyCompare(a, b) == -KeyCompare(b, a)
  {
    if a != [] && b != [] && a[0] == b[0] {
      KeyCompareAntisymmetric(a[1..], b[1..]);
    }
  }

  lemma {:induction false} KeyCompareTransitive(a: string, b: string, c: string)
    requires KeyCompare(a, b) < 0 && KeyCompare(b, c) < 0
    ensures KeyCompare(a, c) < 0
  {
    if a != [] && b != [] && c != [] && a[0] == b[0] && b[0] == c[0] {
      KeyCompareTransitive(a[1..], b[1..], c[1..]);
    }
  }

  /** The value `byCanvas` computes once both positions are known:
      `pa.y - pb.y || pa.x - pb.x || a.localeCompare(b)`. */
  function CanvasCompare(pa: CanvasPos, a: Key, pb: CanvasPos, b: Key): (r: int)
    ensures r < 0 <==> (pa.y < pb.y || (pa.y == pb.y && (pa.x < pb.x || (pa.x == pb.x && KeyCompare(a, b) < 0))))
    ensures r == 0 <==> pa == pb && a == b
  {
    var dy := pa.y - pb.y;
    if dy != 0 then dy
    else
      var dx := pa.x - pb.x;
      if dx != 0 then dx else KeyCompare(a, b)
  }

  /** `byCanvas(graph, a, b)`: fails when either key is not a node (the
      first key is looked up first); otherwise orders by ascending `y`, then
      ascending `x`, then key, and is zero only for the same node. */
  function ByCanvas(g: Graph, a: Key, b: Key): (r: Result<int, GraphError>)
    ensures a !in g.pos ==> r == Failure(NodeNotFound(a))
    ensures a in g.pos && b !in g.pos ==> r == Failure(NodeNotFound(b))
    ensures a in g.pos && b in g.pos ==> r.Success?
    ensures r.Success? ==> (r.value == 0 <==> a == b)
    ensures r.Success? ==>
      (r.value < 0 <==> (g.pos[a].y < g.pos[b].y
                         || (g.pos[a].y == g.pos[b].y
                             && (g.pos[a].x < g.pos[b].x
                                 || (g.pos[a].x == g.pos[b].x && KeyCompare(a, b) < 0)))))
  {
    var pa :- PosOf(g, a);
    var pb :- PosOf(g, b);
    Success(CanvasCompare(pa, a, pb, b))
  }

  /** `a` sorts strictly before `b` on the canvas. */
  predicate Before(g: Graph, a: Key, b: Key)
    requires a in g.pos && b in g.pos
  {
    CanvasCompare(g.pos[a], a, g.pos[b], b) < 0
  }

  /** `byCanvas` is a strict total order on the nodes of a graph. */
  lemma BeforeIsStrictTotalOrder(g: Graph, a: Key, b: Key, c: Key)
    requires a in g.pos && b in g.pos && c in g.pos
    ensures !Before(g, a, a)
    ensures a != b ==> (Before(g, a, b) <==> !Before(g, b, a))
    ensures Before(g, a, b) && Before(g, b, c) ==> Before(g, a, c)
  {
    KeyCompareAntisymmetric(a, b);
    if Before(g, a, b) && Before(g, b, c) && g.pos[a] == g.pos[b] && g.pos[b] == g.pos[c] {
      KeyCompareTransitive(a, b, c);
    }
  }

  ghost predicate AllNodes(g: Graph, s: seq<Key>) {
    forall i :: 0 <= i < |s| ==> s[i] in g.pos
  }

  ghost predicate SortedByCanvas(g: Graph, s: seq<Key>)
    requires AllNodes(g, s)
  {
    forall i, j :: 0 <= i < j < |s| ==> !Before(g, s[j], s[i])
  }

  function InsertByCanvas(g: Graph, x: Key, s: seq<Key>): (r: seq<Key>)
    requires x in g.pos && AllNodes(g, s)
    ensures multiset(r) == multiset(s) + multiset{x}
    ensures AllNodes(g, r)
  {
    if s == [] then [x]
    else if Before(g, s[0], x) then
      var rest := InsertByCanvas(g, x, s[1..]);
      assert s == [s[0]] + s[1..];
      [s[0]] + rest
    else [x] + s
  }

  /** `array.sort((p, q) => byCanvas(graph, p, q))`. The comparator is a
      consistent total order, so the library sort returns the sorted
      permutation, which this insertion sort computes. */
  function SortByCanvas(g: Graph, s: seq<Key>): (r: seq<Key>)
    requires AllNodes(g, s)
    ensures multiset(r) == multiset(s) && |r| == |s|
    ensures AllNodes(g, r)
  {
    if s == [] then []
    else
      assert s == [s[0]] + s[1..];
      InsertByCanvas(g, s[0], SortByCanvas(g, s[1..]))
  }

  /** Every element of `x` inserted into `s` is `x` or an element of `s`. */
  lemma InsertElements(g: Graph, x: Key, s: seq<Key>, y: Key)
    requires x in g.pos && AllNodes(g, s)
    requires y in InsertByCanvas(g, x, s)
    ensures y == x || y in s
  {
    assert y in multiset(InsertByCanvas(g, x, s));
  }

  lemma InsertInFront(g: Graph, x: Key, s: seq<Key>)
    requires x in g.pos && AllNodes(g, s) && SortedByCanvas(g, s)
    requires s != [] && !Before(g, s[0], x)
    ensures SortedByCanvas(g, [x] + s)
  {
    var r := [x] + s;
    forall i, j | 0 <= i < j < |r| ensures !Before(g, r[j], r[i]) {
      if i == 0 {
        var y := s[j - 1];
        assert r[j] == y;
        if j - 1 > 0 {
          assert !Before(g, s[j - 1], s[0]);
        }
        BeforeIsStrictTotalOrder(g, y, x, s[0]);
        BeforeIsStrictTotalOrder(g, x, s[0], s[0]);
      } else {
        assert r[j] == s[j - 1] && r[i] == s[i - 1];
      }
    }
  }

  lemma InsertAfterHead(g: Graph, x: Key, s: seq<Key>, rest: seq<Key>)
    requires x in g.pos && AllNodes(g, s) && SortedByCanvas(g, s)
    requires s != [] && Before(g, s[0], x)
    requires rest == InsertByCanvas(g, x, s[1..]) && SortedByCanvas(g, rest)
    ensures SortedByCanvas(g, [s[0]] + rest)
  {
    var r := [s[0]] + rest;
    forall j | 0 < j < |r| ensures !Before(g, r[j], s[0]) {
      var y := rest[j - 1];
      assert r[j] == y;
      InsertElements(g, x, s[1..], y);
      if y == x {
        BeforeIsStrictTotalOrder(g, s[0], x, x);
      } else {
        var k :| 0 <= k < |s[1..]| && s[1..][k] == y;
        assert s[k + 1] == y;
      }
    }
    forall i, j | 0 < i < j < |r| ensures !Before(g, r[j], r[i]) {
      assert r[j] == rest[j - 1] && r[i] == rest[i - 1];
    }
  }

  lemma {:induction false} InsertKeepsSorted(g: Graph, x: Key, s: seq<Key>)
    requires x in g.pos && AllNodes(g, s) && SortedByCanvas(g, s)
    ensures SortedByCanvas(g, InsertByCanvas(g, x, s))
    decreases |s|
  {
    if s == [] {
    } else if Before(g, s[0], x) {
      InsertKeepsSorted(g, x, s[1..]);
      InsertAfterHead(g, x, s, InsertByCanvas(g, x, s[1..]));
    } else {
      InsertInFront(g, x, s);
    }
  }

  /** The sort returns its input sorted by canvas order. */
  lemma {:induction false} SortByCanvasSorted(g: Graph, s: seq<Key>)
    requires AllNodes(g, s)
    ensures SortedByCanvas(g, SortByCanvas(g, s))
  {
    if s != [] {
      SortByCanvasSorted(g, s[1..]);
      InsertKeepsSorted(g, s[0], SortByCanvas(g, s[1..]));
    }
  }

  /** The first element of a sorted sequence of distinct nodes precedes
      every other element on the canvas. */
  lemma SortedHeadIsTopmost(g: Graph, s: seq<Key>)
    requires AllNodes(g, s) && |s| > 0
    ensures forall y :: y in s && y != SortByCanvas(g, s)[0] ==> Before(g, SortByCanvas(g, s)[0], y)
  {
    var r := SortByCanvas(g, s);
    SortByCanvasSorted(g, s);
    forall y | y in s && y != r[0] ensures Before(g, r[0], y) {
      assert y in multiset(r);
      var j :| 0 <= j < |r| && r[j] == y;
      assert j > 0;
      BeforeIsStrictTotalOrder(g, r[0], y, y);
    }
  }

  // ---------------------------------------------------------------------
  // The graph
  // ---------------------------------------------------------------------

  ghost predicate DistinctKeys(s: seq<Key>) {
    forall i, j :: 0 <= i < j < |s| ==> s[i] != s[j]
  }

  ghost predicate DistinctEdges(s: seq<Edge>) {
    forall i, j :: 0 <= i < j < |s| ==> s[i] != s[j]
  }

  /** What graphology maintains: distinct nodes, each with a position,
      distinct edges between nodes. */
  ghost predicate Valid(g: Graph) {
    && DistinctKeys(g.nodes)
    && (forall k :: k in g.pos <==> k in g.nodes)
    && DistinctEdges(g.edges)
    && (forall e :: e in g.edges ==> e.source in g.pos && e.target in g.pos)
  }

  const EmptyGraph := Graph([], map[], [])

  /** `addNodeWithPosition` for each input node in turn; graphology throws
      on a key that is already a node. */
  function AddNodes(acc: Graph, nodes: seq<InputNode>): (r: Result<Graph, GraphError>)
    decreases |nodes|
  {
    if nodes == [] then Success(acc)
    else
      var key := ToKey(nodes[0].id);
      if key in acc.pos then Failure(DuplicateNode(key))
      else AddNodes(Graph(acc.nodes + [key], acc.pos[key := PosOrDefault(nodes[0].position)], acc.edges), nodes[1..])
  }

  /** The edge loop of `buildGraph`: an edge whose normalised endpoints are
      both nodes is added (graphology throws on a repeated pair), any other
      edge is dropped. */
  function AddEdges(acc: Graph, edges: seq<InputEdge>): (r: Result<Graph, GraphError>)
    decreases |edges|
  {
    if edges == [] then Success(acc)
    else
      var s := ToKey(edges[0].source);
      var t := ToKey(edges[0].target);
      if s in acc.pos && t in acc.pos then
        if Edge(s, t) in acc.edges then Failure(DuplicateEdge(s, t))
        else AddEdges(acc.(edges := acc.edges + [Edge(s, t)]), edges[1..])
      else AddEdges(acc, edges[1..])
  }

  /** The graph `buildGraph(data)` returns, or the error it throws. */
  function GraphOf(data: InputData): Result<Graph, GraphError> {
    var withNodes :- AddNodes(EmptyGraph, data.nodes);
    AddEdges(withNodes, data.edges)
  }

  function NodeKeys(nodes: seq<InputNode>): (keys: seq<Key>)
    ensures |keys| == |nodes|
    ensures forall i :: 0 <= i < |nodes| ==> keys[i] == ToKey(nodes[i].id)
  {
    seq(|nodes|, i requires 0 <= i < |nodes| => ToKey(nodes[i].id))
  }

  /** Some input edge normalises to `s -> t`. */
  ghost predicate Mentions(edges: seq<InputEdge>, s: Key, t: Key) {
    exists i :: 0 <= i < |edges| && ToKey(edges[i].source) == s && ToKey(edges[i].target) == t
  }

  lemma MentionsCons(edges: seq<InputEdge>, s: Key, t: Key)
    requires edges != []
    ensures Mentions(edges, s, t) <==>
      ((ToKey(edges[0].source) == s && ToKey(edges[0].target) == t) || Mentions(edges[1..], s, t))
  {
    if Mentions(edges, s, t) {
      var i :| 0 <= i < |edges| && ToKey(edges[i].source) == s && ToKey(edges[i].target) == t;
      if i > 0 {
        assert edges[1..][i - 1] == edges[i];
      }
    }
    if Mentions(edges[1..], s, t) {
      var i :| 0 <= i < |edges[1..]| && ToKey(edges[1..][i].source) == s && ToKey(edges[1..][i].target) == t;
      assert edges[i + 1] == edges[1..][i];
    }
  }

  /** The normalised input edges whose two endpoints are among `keys`, in
      input order. */
  function KeptEdges(keys: set<Key>, edges: seq<InputEdge>): (r: seq<Edge>)
    decreases |edges|
  {
    if edges == [] then []
    else
      var s := ToKey(edges[0].source);
      var t := ToKey(edges[0].target);
      var rest := KeptEdges(keys, edges[1..]);
      if s in keys && t in keys then [Edge(s, t)] + rest else rest
  }

  /** An edge is kept exactly when some input edge normalises to it and both
      of its endpoints are nodes. */
  lemma {:induction false} KeptEdgesExactly(keys: set<Key>, edges: seq<InputEdge>, e: Edge)
    ensures e in KeptEdges(keys, edges) <==> e.source in keys && e.target in keys && Mentions(edges, e.source, e.target)
    decreases |edges|
  {
    if edges != [] {
      KeptEdgesExactly(keys, edges[1..], e);
      MentionsCons(edges, e.source, e.target);
    }
  }

  lemma NodeKeysCons(nodes: seq<InputNode>)
    requires nodes != []
    ensures NodeKeys(nodes) == [ToKey(nodes[0].id)] + NodeKeys(nodes[1..])
  {
  }

  lemma DistinctKeysCons(k: Key, rest: seq<Key>)
    ensures DistinctKeys([k] + rest) <==> k !in rest && DistinctKeys(rest)
  {
    var s := [k] + rest;
    if k !in rest && DistinctKeys(rest) {
      forall i, j | 0 <= i < j < |s| ensures s[i] != s[j] {
        assert s[j] == rest[j - 1];
        if i > 0 {
          assert s[i] == rest[i - 1];
        }
      }
    }
    if DistinctKeys(s) {
      forall i, j | 0 <= i < j < |rest| ensures rest[i] != rest[j] {
        assert rest[i] == s[i + 1] && rest[j] == s[j + 1];
      }
    }
    if k in rest {
      var j :| 0 <= j < |rest| && rest[j] == k;
      assert s[j + 1] == s[0];
    }
  }

  lemma {:induction false} AddNodesSucceeds(acc: Graph, nodes: seq<InputNode>)
    ensures AddNodes(acc, nodes).Success? <==>
      DistinctKeys(NodeKeys(nodes)) && (forall k :: k in NodeKeys(nodes) ==> k !in acc.pos)
    decreases |nodes|
  {
    if nodes != [] {
      var key := ToKey(nodes[0].id);
      var next := Graph(acc.nodes + [key], acc.pos[key := PosOrDefault(nodes[0].position)], acc.edges);
      NodeKeysCons(nodes);
      DistinctKeysCons(key, NodeKeys(nodes[1..]));
      AddNodesSucceeds(next, nodes[1..]);
    }
  }

  lemma SeqAppendAssoc<T>(a: seq<T>, b: seq<T>, c: seq<T>)
    ensures a + (b + c) == (a + b) + c
  {
  }

  lemma {:induction false} AddNodesResult(acc: Graph, nodes: seq<InputNode>)
    requires AddNodes(acc, nodes).Success?
    ensures AddNodes(acc, nodes).value.nodes == acc.nodes + NodeKeys(nodes)
    decreases |nodes|
  {
    if nodes != [] {
      var key := ToKey(nodes[0].id);
      var next := Graph(acc.nodes + [key], acc.pos[key := PosOrDefault(nodes[0].position)], acc.edges);
      assert AddNodes(acc, nodes) == AddNodes(next, nodes[1..]);
      AddNodesResult(next, nodes[1..]);
      var rest := NodeKeys(nodes[1..]);
      NodeKeysCons(nodes);
      SeqAppendAssoc(acc.nodes, [key], rest);
    } else {
      assert NodeKeys(nodes) == [];
    }
  }

  lemma {:induction false} AddNodesKeepsEdges(acc: Graph, nodes: seq<InputNode>)
    requires AddNodes(acc, nodes).Success?
    ensures AddNodes(acc, nodes).value.edges == acc.edges
    decreases |nodes|
  {
    if nodes != [] {
      var key := ToKey(nodes[0].id);
      var next := Graph(acc.nodes + [key], acc.pos[key := PosOrDefault(nodes[0].position)], acc.edges);
      AddNodesKeepsEdges(next, nodes[1..]);
    }
  }

  lemma {:induction false} AddNodesDomain(acc: Graph, nodes: seq<InputNode>, k: Key)
    requires AddNodes(acc, nodes).Success?
    ensures k in AddNodes(acc, nodes).value.pos <==> k in acc.pos || k in NodeKeys(nodes)
    decreases |nodes|
  {
    if nodes != [] {
      var key := ToKey(nodes[0].id);
      var next := Graph(acc.nodes + [key], acc.pos[key := PosOrDefault(nodes[0].position)], acc.edges);
      NodeKeysCons(nodes);
      AddNodesDomain(next, nodes[1..], k);
    }
  }

  lemma {:induction false} AddNodesPositions(acc: Graph, nodes: seq<InputNode>, i: nat)
    requires AddNodes(acc, nodes).Success?
    requires i < |nodes|
    ensures ToKey(nodes[i].id) in AddNodes(acc, nodes).value.pos
    ensures AddNodes(acc, nodes).value.pos[ToKey(nodes[i].id)] == PosOrDefault(nodes[i].position)
    decreases |nodes|
  {
    var key := ToKey(nodes[0].id);
    var next := Graph(acc.nodes + [key], acc.pos[key := PosOrDefault(nodes[0].position)], acc.edges);
    if i == 0 {
      AddNodesKeepsPositions(next, nodes[1..], key);
    } else {
      AddNodesPositions(next, nodes[1..], i - 1);
    }
  }

  lemma {:induction false} AddNodesKeepsPositions(acc: Graph, nodes: seq<InputNode>, k: Key)
    requires AddNodes(acc, nodes).Success?
    requires k in acc.pos
    ensures k in AddNodes(acc, nodes).value.pos && AddNodes(acc, nodes).value.pos[k] == acc.pos[k]
    decreases |nodes|
  {
    if nodes != [] {
      var key := ToKey(nodes[0].id);
      var next := Graph(acc.nodes + [key], acc.pos[key := PosOrDefault(nodes[0].position)], acc.edges);
      AddNodesKeepsPositions(next, nodes[1..], k);
    }
  }

  lemma {:induction false} AddEdgesEffect(acc: Graph, edges: seq<InputEdge>)
    requires DistinctEdges(acc.edges)
    ensures AddEdges(acc, edges).Success? <==> DistinctEdges(acc.edges + KeptEdges(acc.pos.Keys, edges))
    ensures AddEdges(acc, edges).Success? ==>
      AddEdges(acc, edges).value == acc.(edges := acc.edges + KeptEdges(acc.pos.Keys, edges))
    decreases |edges|
  {
    if edges != [] {
      var s := ToKey(edges[0].source);
      var t := ToKey(edges[0].target);
      var rest := KeptEdges(acc.pos.Keys, edges[1..]);
      if s in acc.pos && t in acc.pos {
        var all := acc.edges + KeptEdges(acc.pos.Keys, edges);
        assert all == (acc.edges + [Edge(s, t)]) + rest;
        if Edge(s, t) in acc.edges {
          var i :| 0 <= i < |acc.edges| && acc.edges[i] == Edge(s, t);
          assert all[i] == all[|acc.edges|];
        } else {
          var next := acc.(edges := acc.edges + [Edge(s, t)]);
          assert next.pos.Keys == acc.pos.Keys;
          AddEdgesEffect(next, edges[1..]);
        }
      } else {
        assert acc.edges + KeptEdges(acc.pos.Keys, edges) == acc.edges + rest;
        AddEdgesEffect(acc, edges[1..]);
      }
    }
  }

  /** `buildGraph` succeeds exactly when the normalised node ids are
      distinct and no kept edge repeats; it then keeps every node, in input
      order and with its normalised position, and exactly the edges whose
      two normalised endpoints are nodes, in input order. */
  lemma BuildGraphSpec(data: InputData)
    ensures GraphOf(data).Success? <==>
      DistinctKeys(NodeKeys(data.nodes))
      && DistinctEdges(KeptEdges((set k | k in NodeKeys(data.nodes)), data.edges))
    ensures GraphOf(data).Success? ==>
      var g := GraphOf(data).value;
      && Valid(g)
      && g.nodes == NodeKeys(data.nodes)
      && g.edges == KeptEdges((set k | k in NodeKeys(data.nodes)), data.edges)
      && (forall i :: 0 <= i < |data.nodes| ==> g.pos[ToKey(data.nodes[i].id)] == PosOrDefault(data.nodes[i].position))
  {
    var keys := NodeKeys(data.nodes);
    var keySet := set k | k in keys;
    AddNodesSucceeds(EmptyGraph, data.nodes);
    if AddNodes(EmptyGraph, data.nodes).Success? {
      AddNodesResult(EmptyGraph, data.nodes);
      AddNodesKeepsEdges(EmptyGraph, data.nodes);
      var withNodes := AddNodes(EmptyGraph, data.nodes).value;
      forall k ensures k in withNodes.pos <==> k in keySet {
        AddNodesDomain(EmptyGraph, data.nodes, k);
      }
      assert withNodes.pos.Keys == keySet;
      AddEdgesEffect(withNodes, data.edges);
      assert withNodes.edges == [];
      if GraphOf(data).Success? {
        var g := GraphOf(data).value;
        assert g.edges == KeptEdges(keySet, data.edges);
        forall e | e in g.edges ensures e.source in g.pos && e.target in g.pos {
          KeptEdgesExactly(keySet, data.edges, e);
        }
        forall i | 0 <= i < |data.nodes| ensures g.pos[ToKey(data.nodes[i].id)] == PosOrDefault(data.nodes[i].position) {
          AddNodesPositions(EmptyGraph, data.nodes, i);
        }
      }
    }
  }

  /** The edge set `buildGraph` keeps: an edge is in the graph exactly when
      some input edge normalises to it and both its endpoints are nodes;
      dangling edges are dropped silently. */
  lemma BuildGraphKeptEdges(data: InputData, e: Edge)
    requires GraphOf(data).Success?
    ensures e in GraphOf(data).value.edges <==>
      e.source in NodeKeys(data.nodes) && e.target in NodeKeys(data.nodes) && Mentions(data.edges, e.source, e.target)
  {
    BuildGraphSpec(data);
    KeptEdgesExactly((set k | k in NodeKeys(data.nodes)), data.edges, e);
  }

  /** `buildGraph(data)`: adds every node with its normalised position, then
      every edge whose normalised endpoints are both nodes. */
  method BuildGraph(data: InputData) returns (r: Result<Graph, GraphError>)
    ensures r == GraphOf(data)
    ensures r.Success? ==> Valid(r.value) && r.value.nodes == NodeKeys(data.nodes)
  {
    BuildGraphSpec(data);
    var g := EmptyGraph;
    for i := 0 to |data.nodes|
      invariant AddNodes(g, data.nodes[i..]) == AddNodes(EmptyGraph, data.nodes)
    {
      assert data.nodes[i..][1..] == data.nodes[i + 1..];
      var key := ToKey(data.nodes[i].id);
      var pos := PosOrDefault(data.nodes[i].position);
      if key in g.pos {
        return Failure(DuplicateNode(key));
      }
      g := Graph(g.nodes + [key], g.pos[key := pos], g.edges);
    }
    for i := 0 to |data.edges|
      invariant AddEdges(g, data.edges[i..]) == GraphOf(data)
    {
      assert data.edges[i..][1..] == data.edges[i + 1..];
      var sourceKey := ToKey(data.edges[i].source);
      var targetKey := ToKey(data.edges[i].target);
      var hasSource := sourceKey in g.pos;
      var hasTarget := targetKey in g.pos;
      if hasSource && hasTarget {
        if Edge(sourceKey, targetKey) in g.edges {
          return Failure(DuplicateEdge(sourceKey, targetKey));
        }
        g := g.(edges := g.edges + [Edge(sourceKey, targetKey)]);
      }
    }
    r := Success(g);
  }
}
