/** The dependency-graph unit-test scenarios. Each graph is built with the
    same calls, in the same order, as the test builds it; nodes are numbered
    in the order they are added. */
module DependencyGraphScenarios {
  import opened Wrappers
  import opened DependencyGraph

  /** A graph whose nodes were added parents first is built in the order
      the nodes were added and torn down in the given reversal of it. */
  lemma BuiltInInsertionOrder(g: Graph, n: seq<Node>, d: seq<Node>)
    requires g.nodes == n && ParentsFirst(g.edges, n)
    requires |d| == |n| && forall i :: 0 <= i < |n| ==> d[i] == n[|n| - 1 - i]
    ensures ConstructionOrder(g) == Some(n)
    ensures DestructionOrder(g) == Some(d)
  {
    ParentsFirstKeepsInsertionOrder(g.edges, n);
    assert DestructionOrder(g).value == d;
  }

  const SingleCaseGraph: Graph :=
    AddNode(EmptyGraph, 1)

  /** One node alone is both built and torn down by itself. */
  lemma SingleCase()
    ensures ConstructionOrder(SingleCaseGraph) == Some([1])
    ensures DestructionOrder(SingleCaseGraph) == Some([1])
  {
    assert SingleCaseGraph == Graph([1], []);
    assert ParentsFirst([], [1]);
    BuiltInInsertionOrder(SingleCaseGraph, [1], [1]);
  }

  const SimpleDependencyGraph: Graph :=
    AddEdge(AddNode(AddNode(EmptyGraph, 1), 2), 1, 2)

  /** The parent is built before the child and torn down after it. */
  lemma SimpleDependency()
    ensures ConstructionOrder(SimpleDependencyGraph) == Some([1, 2])
    ensures DestructionOrder(SimpleDependencyGraph) == Some([2, 1])
  {
    assert SimpleDependencyGraph == Graph([1, 2], [Edge(1, 2)]);
    assert ParentsFirst([Edge(1, 2)], [1, 2]);
    BuiltInInsertionOrder(SimpleDependencyGraph, [1, 2], [2, 1]);
  }

  const TwoChildrenOneParentGraph: Graph :=
    AddEdge(AddEdge(AddNode(AddNode(AddNode(EmptyGraph, 1), 2), 3), 1, 2), 1, 3)

  /** The parent comes first; the two children follow in the order they were added, and are torn down in the opposite order. */
  lemma TwoChildrenOneParent()
    ensures ConstructionOrder(TwoChildrenOneParentGraph) == Some([1, 2, 3])
    ensures DestructionOrder(TwoChildrenOneParentGraph) == Some([3, 2, 1])
  {
    assert TwoChildrenOneParentGraph == Graph([1, 2, 3], [Edge(1, 2), Edge(1, 3)]);
    assert ParentsFirst([Edge(1, 2), Edge(1, 3)], [1, 2, 3]);
    BuiltInInsertionOrder(TwoChildrenOneParentGraph, [1, 2, 3], [3, 2, 1]);
  }

  const MConfigurationGraph: Graph :=
    AddEdge(AddNode(AddEdge(AddEdge(AddNode(AddEdge(AddNode(AddNode(AddNode(EmptyGraph, 1), 2), 3), 1, 3), 4), 1, 4), 2, 4), 5), 2, 5)

  /** Two parents with a child each and a child shared between them: both parents first, then the children in the order they were added. */
  lemma MConfiguration()
    ensures ConstructionOrder(MConfigurationGraph) == Some([1, 2, 3, 4, 5])
    ensures DestructionOrder(MConfigurationGraph) == Some([5, 4, 3, 2, 1])
  {
    assert MConfigurationGraph == Graph([1, 2, 3, 4, 5], [Edge(1, 3), Edge(1, 4), Edge(2, 4), Edge(2, 5)]);
    assert ParentsFirst([Edge(1, 3), Edge(1, 4), Edge(2, 4), Edge(2, 5)], [1, 2, 3, 4, 5]);
    BuiltInInsertionOrder(MConfigurationGraph, [1, 2, 3, 4, 5], [5, 4, 3, 2, 1]);
  }

  const DiamondConfigurationGraph: Graph :=
    AddEdge(AddEdge(AddNode(AddEdge(AddNode(AddEdge(AddNode(AddNode(EmptyGraph, 1), 2), 1, 2), 3), 1, 3), 4), 2, 4), 3, 4)

  /** A diamond: the top, then the two middles in the order they were added, then the bottom. */
  lemma DiamondConfiguration()
    ensures ConstructionOrder(DiamondConfigurationGraph) == Some([1, 2, 3, 4])
    ensures DestructionOrder(DiamondConfigurationGraph) == Some([4, 3, 2, 1])
  {
    assert DiamondConfigurationGraph == Graph([1, 2, 3, 4], [Edge(1, 2), Edge(1, 3), Edge(2, 4), Edge(3, 4)]);
    assert ParentsFirst([Edge(1, 2), Edge(1, 3), Edge(2, 4), Edge(3, 4)], [1, 2, 3, 4]);
    BuiltInInsertionOrder(DiamondConfigurationGraph, [1, 2, 3, 4], [4, 3, 2, 1]);
  }

}
