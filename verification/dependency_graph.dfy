/** The keyed-service dependency graph: nodes in the order they were added,
    and edges from a parent service to a child service that depends on it.
    The construction order builds every parent before its children and,
    among the nodes that are ready, keeps the order the nodes were added
    in; the destruction order is its reverse. A graph with a cycle has no
    order. Nodes are identified by integers, standing for node addresses. */
module DependencyGraph {
  import opened Wrappers

  type Node = int

  datatype Edge = Edge(parent: Node, child: Node)

  datatype Graph = Graph(nodes: seq<Node>, edges: seq<Edge>)

  const EmptyGraph: Graph := Graph([], [])

  /** Registers a node after all those already registered. */
  function AddNode(g: Graph, n: Node): (r: Graph)
    ensures r.nodes == g.nodes + [n] && r.edges == g.edges
  {
    g.(nodes := g.nodes + [n])
  }

  /** Records that `child` depends on `parent`. */
  function AddEdge(g: Graph, parent: Node, child: Node): (r: Graph)
    ensures r.nodes == g.nodes && r.edges == g.edges + [Edge(parent, child)]
  {
    g.(edges := g.edges + [Edge(parent, child)])
  }

  // ---------------------------------------------------------------------
  // Sequence helpers
  // ---------------------------------------------------------------------

  predicate Distinct(s: seq<Node>) {
    forall i, j :: 0 <= i < j < |s| ==> s[i] != s[j]
  }

  /** `s` without its element at index `i`. */
  function RemoveAt(s: seq<Node>, i: nat): (r: seq<Node>)
    requires i < |s|
    ensures |r| == |s| - 1
  {
    s[..i] + s[i + 1..]
  }

  lemma RemoveAtFacts(s: seq<Node>, i: nat)
    requires i < |s|
    ensures forall j :: 0 <= j < |s| - 1 ==> RemoveAt(s, i)[j] == (if j < i then s[j] else s[j + 1])
    ensures multiset(RemoveAt(s, i)) == multiset(s) - multiset{s[i]}
  {
    var a, b := s[..i], s[i + 1..];
    assert s == a + [s[i]] + b;
    assert multiset(s) == multiset(a) + multiset{s[i]} + multiset(b);
    assert multiset(RemoveAt(s, i)) == multiset(a) + multiset(b);
  }

  /** `a` comes strictly before `b` in `o`. */
  predicate Precedes(o: seq<Node>, a: Node, b: Node) {
    exists x, y :: 0 <= x < y < |o| && o[x] == a && o[y] == b
  }

  // ---------------------------------------------------------------------
  // Construction and destruction orders
  // ---------------------------------------------------------------------

  /** `n` still waits for a parent that has not been built yet. */
  predicate Blocked(edges: seq<Edge>, remaining: seq<Node>, n: Node) {
    exists k :: 0 <= k < |edges| && edges[k].child == n && edges[k].parent in remaining
  }

  /** The index of the first remaining node, in insertion order, that waits
      for nothing; None when every remaining node waits (a cycle). */
  function FirstReady(edges: seq<Edge>, remaining: seq<Node>, from: nat): (r: Option<nat>)
    requires from <= |remaining|
    ensures r.Some? ==>
      && from <= r.value < |remaining|
      && !Blocked(edges, remaining, remaining[r.value])
      && forall j :: from <= j < r.value ==> Blocked(edges, remaining, remaining[j])
    ensures r.None? ==> forall j :: from <= j < |remaining| ==> Blocked(edges, remaining, remaining[j])
    decreases |remaining| - from
  {
    if from == |remaining| then None
    else if !Blocked(edges, remaining, remaining[from]) then Some(from)
    else FirstReady(edges, remaining, from + 1)
  }

  /** Builds the remaining nodes one at a time, always taking the first
      ready one in insertion order. */
  function Order(edges: seq<Edge>, remaining: seq<Node>): Option<seq<Node>>
    decreases |remaining|
  {
    if |remaining| == 0 then Some([])
    else
      match FirstReady(edges, remaining, 0)
      case None => None
      case Some(i) =>
        match Order(edges, RemoveAt(remaining, i))
        case None => None
        case Some(rest) => Some([remaining[i]] + rest)
  }

  /** The order in which the services are built: every registered node,
      as often as it was registered. None only when no order respects every
      edge, that is, when the graph has a cycle. */
  function ConstructionOrder(g: Graph): (r: Option<seq<Node>>)
    ensures r.Some? ==> multiset(r.value) == multiset(g.nodes)
    ensures r.None? ==> forall w :: !IsTopologicalOrder(w, g.nodes, g.edges)
  {
    var r := Order(g.edges, g.nodes);
    if r.Some? then
      OrderIsPermutation(g.edges, g.nodes);
      r
    else
      NoOrderMeansNoTopologicalOrder(g.edges, g.nodes);
      r
  }

  /** The contrapositive of TopologicalOrderGivesOrder, for every candidate
      order at once. */
  lemma NoOrderMeansNoTopologicalOrder(edges: seq<Edge>, nodes: seq<Node>)
    requires Order(edges, nodes).None?
    ensures forall w :: !IsTopologicalOrder(w, nodes, edges)
  {
    forall w | IsTopologicalOrder(w, nodes, edges)
      ensures false
    {
      TopologicalOrderGivesOrder(edges, nodes, w);
    }
  }

  /** The order in which the services are torn down: the construction order
      read backwards. */
  function DestructionOrder(g: Graph): (r: Option<seq<Node>>)
    ensures r.Some? <==> ConstructionOrder(g).Some?
    ensures r.Some? ==>
      var c := ConstructionOrder(g).value;
      |r.value| == |c| && forall i :: 0 <= i < |c| ==> r.value[i] == c[|c| - 1 - i]
  {
    match ConstructionOrder(g)
    case None => None
    case Some(c) => Some(seq(|c|, i requires 0 <= i < |c| => c[|c| - 1 - i]))
  }

  /** A node registered with AddNode is built by any construction order of
      the extended graph. */
  lemma AddedNodeIsBuilt(g: Graph, n: Node)
    requires ConstructionOrder(AddNode(g, n)).Some?
    ensures n in ConstructionOrder(AddNode(g, n)).value
  {
    var o := ConstructionOrder(AddNode(g, n)).value;
    assert n in multiset(AddNode(g, n).nodes);
    assert n in multiset(o);
  }

  /** An edge recorded with AddEdge between two registered services, in a
      graph of distinct services, puts the parent before the child in any
      construction order. */
  lemma AddedEdgeIsRespected(g: Graph, parent: Node, child: Node)
    requires Distinct(g.nodes) && parent in g.nodes && child in g.nodes
    requires ConstructionOrder(AddEdge(g, parent, child)).Some?
    ensures Precedes(ConstructionOrder(AddEdge(g, parent, child)).value, parent, child)
  {
    var h := AddEdge(g, parent, child);
    OrderRespectsEdges(h.edges, h.nodes);
    assert h.edges[|g.edges|] == Edge(parent, child);
  }

  /** `w` lists each node once and every parent before its children. */
  predicate IsTopologicalOrder(w: seq<Node>, nodes: seq<Node>, edges: seq<Edge>) {
    && multiset(w) == multiset(nodes)
    && Distinct(w)
    && forall k, a, b ::
         (0 <= k < |edges| && 0 <= a < |w| && 0 <= b < |w| &&
          w[a] == edges[k].parent && w[b] == edges[k].child) ==> a < b
  }

  // ---------------------------------------------------------------------
  // Properties
  // ---------------------------------------------------------------------

  /** The order holds exactly the nodes that were added. */
  lemma {:induction false} OrderIsPermutation(edges: seq<Edge>, remaining: seq<Node>)
    requires Order(edges, remaining).Some?
    ensures multiset(Order(edges, remaining).value) == multiset(remaining)
    decreases |remaining|
  {
    if |remaining| > 0 {
      var i := FirstReady(edges, remaining, 0).value;
      var rest := RemoveAt(remaining, i);
      RemoveAtFacts(remaining, i);
      OrderIsPermutation(edges, rest);
      assert multiset(remaining) == multiset(rest) + multiset{remaining[i]};
    }
  }

  lemma InMultiset(s: seq<Node>, t: seq<Node>, x: Node)
    requires multiset(s) == multiset(t) && x in t
    ensures x in s
  {
    assert x in multiset(t);
  }

  /** The element removed is the only one `RemoveAt` drops. */
  lemma StillPresent(s: seq<Node>, i: nat, y: Node)
    requires i < |s| && y in s && y != s[i]
    ensures y in RemoveAt(s, i)
  {
    RemoveAtFacts(s, i);
    var iy :| 0 <= iy < |s| && s[iy] == y;
    if iy < i {
      assert RemoveAt(s, i)[iy] == y;
    } else {
      assert RemoveAt(s, i)[iy - 1] == y;
    }
  }

  /** One construction step keeps an edge in order: the node built first is
      not a child still waiting, and the rest are in order already. */
  lemma StepRespectsEdge(edges: seq<Edge>, remaining: seq<Node>, i: nat, o': seq<Node>, k: nat)
    requires i < |remaining| && k < |edges|
    requires edges[k].parent in remaining && edges[k].child in remaining
    requires !Blocked(edges, remaining, remaining[i])
    requires multiset(o') == multiset(RemoveAt(remaining, i))
    requires edges[k].parent in RemoveAt(remaining, i) && edges[k].child in RemoveAt(remaining, i) ==>
      Precedes(o', edges[k].parent, edges[k].child)
    ensures Precedes([remaining[i]] + o', edges[k].parent, edges[k].child)
  {
    var x := remaining[i];
    var p, c := edges[k].parent, edges[k].child;
    var o := [x] + o';
    if c == x {
      assert false;
    }
    StillPresent(remaining, i, c);
    InMultiset(o', RemoveAt(remaining, i), c);
    var b :| 0 <= b < |o'| && o'[b] == c;
    if p == x {
      assert o[0] == p && o[b + 1] == c;
    } else {
      StillPresent(remaining, i, p);
      var a, b' :| 0 <= a < b' < |o'| && o'[a] == p && o'[b'] == c;
      assert o[a + 1] == p && o[b' + 1] == c;
    }
  }

  /** Every parent is built before each of its children. */
  lemma {:induction false} OrderRespectsEdges(edges: seq<Edge>, remaining: seq<Node>)
    requires Distinct(remaining)
    requires Order(edges, remaining).Some?
    ensures forall k :: 0 <= k < |edges| && edges[k].parent in remaining && edges[k].child in remaining ==>
      Precedes(Order(edges, remaining).value, edges[k].parent, edges[k].child)
    decreases |remaining|
  {
    if |remaining| > 0 {
      var i := FirstReady(edges, remaining, 0).value;
      var rest := RemoveAt(remaining, i);
      RemoveAtFacts(remaining, i);
      assert Distinct(rest);
      var o' := Order(edges, rest).value;
      assert Order(edges, remaining).value == [remaining[i]] + o';
      OrderRespectsEdges(edges, rest);
      OrderIsPermutation(edges, rest);
      forall k | 0 <= k < |edges| && edges[k].parent in remaining && edges[k].child in remaining
        ensures Precedes(Order(edges, remaining).value, edges[k].parent, edges[k].child)
      {
        StepRespectsEdge(edges, remaining, i, o', k);
      }
    }
  }

  /** Removing an element keeps a topological order topological. */
  lemma RemoveKeepsTopological(w: seq<Node>, nodes: seq<Node>, edges: seq<Edge>, j: nat, i: nat)
    requires IsTopologicalOrder(w, nodes, edges)
    requires j < |w| && i < |nodes| && w[j] == nodes[i]
    ensures IsTopologicalOrder(RemoveAt(w, j), RemoveAt(nodes, i), edges)
  {
    var w' := RemoveAt(w, j);
    RemoveAtFacts(w, j);
    RemoveAtFacts(nodes, i);
    forall a, b | 0 <= a < b < |w'|
      ensures w'[a] != w'[b]
    {
      var a' := if a < j then a else a + 1;
      var b' := if b < j then b else b + 1;
      assert w'[a] == w[a'] && w'[b] == w[b'] && a' < b';
    }
    forall k, a, b | 0 <= k < |edges| && 0 <= a < |w'| && 0 <= b < |w'| &&
        w'[a] == edges[k].parent && w'[b] == edges[k].child
      ensures a < b
    {
      var a' := if a < j then a else a + 1;
      var b' := if b < j then b else b + 1;
      assert w'[a] == w[a'] && w'[b] == w[b'];
    }
  }

  /** Whenever the nodes admit some topological order, the construction
      order exists: the graph fails only on a cycle. */
  lemma {:induction false} TopologicalOrderGivesOrder(edges: seq<Edge>, remaining: seq<Node>, w: seq<Node>)
    requires IsTopologicalOrder(w, remaining, edges)
    ensures Order(edges, remaining).Some?
    decreases |remaining|
  {
    if |remaining| > 0 {
      assert |w| == |multiset(w)| == |multiset(remaining)| == |remaining|;
      assert w[0] in multiset(remaining);
      var i0 :| 0 <= i0 < |remaining| && remaining[i0] == w[0];
      if Blocked(edges, remaining, w[0]) {
        var k :| 0 <= k < |edges| && edges[k].child == w[0] && edges[k].parent in remaining;
        InMultiset(w, remaining, edges[k].parent);
        assert false;
      }
      assert FirstReady(edges, remaining, 0).Some?;
      var i := FirstReady(edges, remaining, 0).value;
      assert remaining[i] in multiset(w);
      var j :| 0 <= j < |w| && w[j] == remaining[i];
      RemoveKeepsTopological(w, remaining, edges, j, i);
      TopologicalOrderGivesOrder(edges, RemoveAt(remaining, i), RemoveAt(w, j));
    }
  }

  /** For a graph whose nodes are all distinct, the construction order
      exists exactly when some topological order does, and then it is one. */
  lemma ConstructionOrderIsTopological(g: Graph)
    requires Distinct(g.nodes)
    ensures ConstructionOrder(g).Some? ==> IsTopologicalOrder(ConstructionOrder(g).value, g.nodes, g.edges)
    ensures (exists w :: IsTopologicalOrder(w, g.nodes, g.edges)) ==> ConstructionOrder(g).Some?
  {
    if ConstructionOrder(g).Some? {
      var o := ConstructionOrder(g).value;
      OrderIsPermutation(g.edges, g.nodes);
      OrderRespectsEdges(g.edges, g.nodes);
      assert |o| == |g.nodes| by {
        assert |multiset(o)| == |multiset(g.nodes)|;
      }
      forall a, b | 0 <= a < b < |o|
        ensures o[a] != o[b]
      {
        DistinctPermutation(g.nodes, o, a, b);
      }
      forall k, a, b | 0 <= k < |g.edges| && 0 <= a < |o| && 0 <= b < |o| &&
          o[a] == g.edges[k].parent && o[b] == g.edges[k].child
        ensures a < b
      {
        InMultiset(g.nodes, o, o[a]);
        InMultiset(g.nodes, o, o[b]);
        var x, y :| 0 <= x < y < |o| && o[x] == o[a] && o[y] == o[b];
        DistinctIndices(g.nodes, o, x, a);
        DistinctIndices(g.nodes, o, y, b);
      }
    }
    if exists w :: IsTopologicalOrder(w, g.nodes, g.edges) {
      var w :| IsTopologicalOrder(w, g.nodes, g.edges);
      TopologicalOrderGivesOrder(g.edges, g.nodes, w);
    }
  }

  lemma {:induction false} DistinctPermutation(s: seq<Node>, o: seq<Node>, a: nat, b: nat)
    requires Distinct(s) && multiset(o) == multiset(s)
    requires a < b < |o|
    ensures o[a] != o[b]
  {
    if o[a] == o[b] {
      var o' := RemoveAt(o, a);
      RemoveAtFacts(o, a);
      assert o'[b - 1] == o[a];
      assert o[a] in multiset(o');
      assert multiset(o)[o[a]] >= 2;
      CountAtMostOne(s, o[a]);
    }
  }

  lemma {:induction false} CountAtMostOne(s: seq<Node>, x: Node)
    requires Distinct(s)
    ensures multiset(s)[x] <= 1
    decreases |s|
  {
    if |s| > 0 {
      assert s == [s[0]] + s[1..];
      CountAtMostOne(s[1..], x);
      if s[0] == x {
        assert x !in s[1..];
      }
    }
  }

  lemma DistinctIndices(s: seq<Node>, o: seq<Node>, x: nat, a: nat)
    requires Distinct(s) && multiset(o) == multiset(s)
    requires x < |o| && a < |o| && o[x] == o[a]
    ensures x == a
  {
    if x < a { DistinctPermutation(s, o, x, a); }
    if a < x { DistinctPermutation(s, o, a, x); }
  }

  /** Every child is torn down before each of its parents. */
  lemma DestructionRespectsEdges(g: Graph)
    requires Distinct(g.nodes)
    requires DestructionOrder(g).Some?
    ensures forall k :: 0 <= k < |g.edges| && g.edges[k].parent in g.nodes && g.edges[k].child in g.nodes ==>
      Precedes(DestructionOrder(g).value, g.edges[k].child, g.edges[k].parent)
  {
    var c := ConstructionOrder(g).value;
    var d := DestructionOrder(g).value;
    OrderRespectsEdges(g.edges, g.nodes);
    forall k | 0 <= k < |g.edges| && g.edges[k].parent in g.nodes && g.edges[k].child in g.nodes
      ensures Precedes(d, g.edges[k].child, g.edges[k].parent)
    {
      ReversalSwapsPrecedence(c, d, g.edges[k].parent, g.edges[k].child);
    }
  }

  /** Reading an order backwards swaps which of two nodes comes first. */
  lemma ReversalSwapsPrecedence(c: seq<Node>, d: seq<Node>, a: Node, b: Node)
    requires |d| == |c| && forall i :: 0 <= i < |c| ==> d[i] == c[|c| - 1 - i]
    requires Precedes(c, a, b)
    ensures Precedes(d, b, a)
  {
    var x, y :| 0 <= x < y < |c| && c[x] == a && c[y] == b;
    assert d[|c| - 1 - y] == b && d[|c| - 1 - x] == a;
  }

  /** No edge gives `c` a parent among `rest`. Stated by recursion so that
      it can be evaluated on a concrete graph. */
  predicate NoParentIn(edges: seq<Edge>, c: Node, rest: seq<Node>)
    decreases |edges|
  {
    |edges| == 0 || ((edges[0].child != c || edges[0].parent !in rest) && NoParentIn(edges[1..], c, rest))
  }

  /** No node is registered before one of its parents: every parent of a
      node is either absent or among the nodes added before it. */
  predicate ParentsFirst(edges: seq<Edge>, nodes: seq<Node>)
    decreases |nodes|
  {
    |nodes| == 0 || (NoParentIn(edges, nodes[0], nodes) && ParentsFirst(edges, nodes[1..]))
  }

  /** NoParentIn says what Blocked denies. */
  lemma {:induction false} NoParentInIsNotBlocked(edges: seq<Edge>, c: Node, rest: seq<Node>)
    ensures NoParentIn(edges, c, rest) <==> !Blocked(edges, rest, c)
    decreases |edges|
  {
    if |edges| > 0 {
      NoParentInIsNotBlocked(edges[1..], c, rest);
      if Blocked(edges[1..], rest, c) {
        var k :| 0 <= k < |edges[1..]| && edges[1..][k].child == c && edges[1..][k].parent in rest;
        assert edges[k + 1] == edges[1..][k];
      }
      if Blocked(edges, rest, c) && (edges[0].child != c || edges[0].parent !in rest) {
        var k :| 0 <= k < |edges| && edges[k].child == c && edges[k].parent in rest;
        assert edges[1..][k - 1] == edges[k];
      }
    }
  }

  /** When the nodes were added parents first, they are built in exactly the
      order they were added. */
  lemma {:induction false} ParentsFirstKeepsInsertionOrder(edges: seq<Edge>, nodes: seq<Node>)
    requires ParentsFirst(edges, nodes)
    ensures Order(edges, nodes) == Some(nodes)
    decreases |nodes|
  {
    if |nodes| > 0 {
      NoParentInIsNotBlocked(edges, nodes[0], nodes);
      assert FirstReady(edges, nodes, 0) == Some(0);
      assert RemoveAt(nodes, 0) == nodes[1..];
      ParentsFirstKeepsInsertionOrder(edges, nodes[1..]);
      assert nodes == [nodes[0]] + nodes[1..];
    }
  }

  /** With no edges, services are built in the order they were added. */
  lemma NoEdgesKeepsInsertionOrder(nodes: seq<Node>)
    ensures Order([], nodes) == Some(nodes)
  {
    NoEdgesMeansParentsFirst(nodes);
    ParentsFirstKeepsInsertionOrder([], nodes);
  }

  /** Without edges, every node trivially comes after its parents. */
  lemma {:induction false} NoEdgesMeansParentsFirst(nodes: seq<Node>)
    ensures ParentsFirst([], nodes)
    decreases |nodes|
  {
    if |nodes| > 0 {
      NoEdgesMeansParentsFirst(nodes[1..]);
    }
  }
}
