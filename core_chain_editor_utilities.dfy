/** The graph operations of `ChainEditorUtilities` in the CombatDesigner
    project. In this copy `UpdateFollowUps` does not reorder edges by priority. */
module CoreChainEditorUtilities {
  import opened Wrappers
  import opened Sequences
  import opened ChainGraph

  /** The last index at which `x` occurs in `str`, or -1. */
  method FindLastIndex(str: string, x: char) returns (index: int)
    ensures -1 <= index < |str|
    ensures index == -1 <==> x !in str
    ensures index != -1 ==> str[index] == x && x !in str[index + 1..]
  {
    index := -1;
    for i := 0 to |str|
      invariant -1 <= index < i
      invariant index == -1 <==> x !in str[..i]
      invariant index != -1 ==> str[index] == x && x !in str[index + 1..i]
    {
      if str[i] == x {
        index := i;
      }
    }
    assert str[..|str|] == str;
  }

  /** Appends a new node of the requested kind and renumbers the graph. Nothing
      happens for a null graph or another node type. */
  method CreateNode(graph: ChainGraph?, nodeType: NodeType, init: NodeInit)
    requires graph != null ==> Distinct(graph.nodes)
    modifies graph, (set n | n in NodesOf(graph))`id
    ensures graph != null ==> graph.model == old(graph.model) && Distinct(graph.nodes)
    ensures graph != null && nodeType.OtherNodeType? ==>
      graph.nodes == old(graph.nodes) && forall n :: n in graph.nodes ==> n.id == old(n.id)
    ensures graph != null && !nodeType.OtherNodeType? ==>
      |graph.nodes| == |old(graph.nodes)| + 1 &&
      graph.nodes[..|old(graph.nodes)|] == old(graph.nodes) &&
      Numbered(graph.nodes) &&
      var node := graph.nodes[|old(graph.nodes)|];
      fresh(node) &&
      node.id == |old(graph.nodes)| &&
      node.isRoot == nodeType.RootBehaviorNodeType? &&
      node.nodeName == (if nodeType.RootBehaviorNodeType? then "Root Behavior" else "Chain Behavior") &&
      node.name == node.nodeName &&
      node.parentGraph == graph &&
      node.priority == init.priority && node.behavior == init.behavior &&
      node.outputNodes == init.outputNodes && node.followUps == init.followUps
  {
    if graph != null {
      var created := NewNode(nodeType, init.priority);
      if created != null {
        var node: ChainBehaviorNode := created;
        node.InitNode(graph, init);
        node.parentGraph := graph;
        assert node !in graph.nodes by {
          forall k | 0 <= k < |graph.nodes| ensures graph.nodes[k] != node {
            assert old(allocated(graph.nodes[k]));
          }
        }
        AppendKeepsDistinct(graph.nodes, node);
        graph.nodes := graph.nodes + [node];
        ghost var added := graph.nodes;
        UpdateChainBehaviorNodeID(graph);
        assert graph.nodes == added;
        node.name := node.nodeName;
      }
    }
  }

  /** The `switch` of `CreateNode`: a fresh node of the requested kind with its
      display name set, or null for any other node type. */
  method NewNode(nodeType: NodeType, priority: int) returns (node: ChainBehaviorNode?)
    ensures node == null <==> nodeType.OtherNodeType?
    ensures node != null ==>
      fresh(node) && node.parentGraph == null && node.priority == priority &&
      node.isRoot == nodeType.RootBehaviorNodeType? &&
      node.nodeName == (if nodeType.RootBehaviorNodeType? then "Root Behavior" else "Chain Behavior")
  {
    node := null;
    match nodeType {
      case ChainBehaviorNodeType =>
        node := new ChainBehaviorNode(false, priority);
        node.nodeName := "Chain Behavior";
      case RootBehaviorNodeType =>
        node := new ChainBehaviorNode(true, priority);
        node.nodeName := "Root Behavior";
      case OtherNodeType(_) =>
    }
  }

  /** Bakes the graph into its model when the designer confirms: the model's
      list is cleared and refilled with one entry per node, in node order. */
  method UpdateGraphToModel(graph: ChainGraph, confirmed: bool)
    requires graph.model != null
    modifies graph.model`chainBehaviors
    ensures confirmed ==> graph.model.chainBehaviors == BakeAll(graph.nodes)
    ensures !confirmed ==> graph.model.chainBehaviors == old(graph.model.chainBehaviors)
  {
    if confirmed {
      var model := graph.model;
      model.chainBehaviors := [];
      for i := 0 to |graph.nodes|
        invariant model.chainBehaviors == BakeAll(graph.nodes[..i])
      {
        assert graph.nodes[..i + 1][..i] == graph.nodes[..i];
        model.chainBehaviors := model.chainBehaviors + [Bake(graph.nodes[i])];
      }
      assert graph.nodes[..|graph.nodes|] == graph.nodes;
    }
  }

  /** Deletes the node at `nodeIndex`: purges it from every edge list and from
      the graph, renumbers, and rebuilds the follow-ups. An index that is not
      a position of the list leaves everything unchanged. */
  method DeleteNode(nodeIndex: int, graph: ChainGraph)
    requires WellFormed(graph.nodes)
    modifies graph`nodes, graph.nodes`outputNodes, graph.nodes`id, graph.nodes`followUps
    ensures !DeleteGuard(|old(graph.nodes)|, nodeIndex) ==>
      graph.nodes == old(graph.nodes) &&
      forall n :: n in graph.nodes ==>
        n.outputNodes == old(n.outputNodes) && n.id == old(n.id) && n.followUps == old(n.followUps)
    ensures DeleteGuard(|old(graph.nodes)|, nodeIndex) ==>
      graph.nodes == old(graph.nodes[..nodeIndex] + graph.nodes[nodeIndex + 1..]) &&
      EdgesPurged(graph.nodes, old(graph.nodes[nodeIndex])) &&
      (forall n :: n in graph.nodes ==> old(graph.nodes[nodeIndex]) !in Targets(n)) &&
      WellFormed(graph.nodes) &&
      Numbered(graph.nodes) &&
      FollowUpsResolve(graph.nodes) &&
      UnconnectedKeepFollowUps(graph.nodes)
  {
    // The source guards with `graph.nodes.Count >= nodeIndex`; see
    // `DeleteGuardAsWritten`.
    if DeleteGuard(|graph.nodes|, nodeIndex) {
      var deleteNode := graph.nodes[nodeIndex];
      ghost var before := graph.nodes;
      ghost var oldEdges := map n | n in before :: n.outputNodes;
      forall n | n in before ensures EdgesInto(oldEdges[n], before) {
        var k :| 0 <= k < |before| && before[k] == n;
        assert Distinct(Targets(before[k]));
      }
      RemoveNodeAndCleanUp(graph, deleteNode);
      ghost var after := graph.nodes;
      RemoveFirstAtIndex(before, nodeIndex);
      CleanupKeepsWellFormed(before, oldEdges, deleteNode);
      UpdateChainBehaviorNodeID(graph);
      UpdateFollowUps(graph);
      FollowUpsResolveFromMirror(after);
    }
  }

  /** The cleanup routine called from `DeleteNode` (its header is missing in
      the source): removes the first occurrence of `deleteNode` from every
      non-null edge list of the graph, then from the graph. */
  method RemoveNodeAndCleanUp(graph: ChainGraph, deleteNode: ChainBehaviorNode)
    requires Distinct(graph.nodes)
    modifies graph`nodes, (set n | n in graph.nodes)`outputNodes
    ensures graph.nodes == RemoveFirst(old(graph.nodes), deleteNode)
    ensures EdgesPurged(old(graph.nodes), deleteNode)
    ensures forall n :: n in graph.nodes ==> n in old(graph.nodes)
  {
    var nodes := graph.nodes;
    PurgeEdges(nodes, deleteNode);
    graph.nodes := RemoveFirst(graph.nodes, deleteNode);
    forall n | n in graph.nodes ensures n in nodes {
      RemoveFirstMembers(nodes, deleteNode, n);
    }
  }

  /** The loop of the cleanup routine: each non-null edge list of `nodes` that
      holds `deleteNode` loses its first occurrence. */
  method PurgeEdges(nodes: seq<ChainBehaviorNode>, deleteNode: ChainBehaviorNode)
    requires Distinct(nodes)
    modifies nodes`outputNodes
    ensures forall k :: 0 <= k < |nodes| ==> nodes[k].outputNodes == Purged(old(nodes[k].outputNodes), deleteNode)
  {
    for i := 0 to |nodes|
      invariant forall k :: 0 <= k < i ==> nodes[k].outputNodes == Purged(old(nodes[k].outputNodes), deleteNode)
      invariant forall k :: i <= k < |nodes| ==> nodes[k].outputNodes == old(nodes[k].outputNodes)
    {
      var n := nodes[i];
      NoOtherPosition(nodes, i);
      if n.outputNodes.Some? {
        if deleteNode in n.outputNodes.value {
          n.outputNodes := Some(RemoveFirst(n.outputNodes.value, deleteNode));
        }
      }
    }
  }

  /** Sets every node's id to its position in the list. The new ids depend on
      the order of the list alone, so on a graph that is already numbered the
      call changes nothing. */
  method UpdateChainBehaviorNodeID(graph: ChainGraph)
    requires Distinct(graph.nodes)
    modifies (set n | n in graph.nodes)`id
    ensures Numbered(graph.nodes)
  {
    for i := 0 to |graph.nodes|
      invariant forall k :: 0 <= k < i ==> graph.nodes[k].id == k
    {
      NoOtherPosition(graph.nodes, i);
      graph.nodes[i].id := i;
    }
  }

  /** Rebuilds `followUps` of every node with an edge list as the ids of its
      edges, in edge order; in this copy the edges are not reordered first. */
  method UpdateFollowUps(graph: ChainGraph)
    requires Distinct(graph.nodes)
    modifies (set n | n in graph.nodes)`followUps
    ensures forall n :: n in graph.nodes ==> MirrorsEdges(n)
    ensures UnconnectedKeepFollowUps(graph.nodes)
  {
    var nodes := graph.nodes;
    for i := 0 to |nodes|
      modifies nodes`followUps
      invariant forall k :: 0 <= k < i && nodes[k].outputNodes.Some? ==> nodes[k].followUps == Ids(nodes[k].outputNodes.value)
      invariant forall k :: 0 <= k < i && nodes[k].outputNodes.None? ==> nodes[k].followUps == old(nodes[k].followUps)
      invariant forall k :: i <= k < |nodes| ==> nodes[k].followUps == old(nodes[k].followUps)
    {
      var n: ChainBehaviorNode := nodes[i];
      NoOtherPosition(nodes, i);
      if n.outputNodes.Some? {
        RebuildFollowUps(n);
      }
    }
  }

  /** The body of the loop in `UpdateFollowUps` for one node with an edge
      list: clears `followUps` and appends the id of each edge in turn. */
  method RebuildFollowUps(n: ChainBehaviorNode)
    requires n.outputNodes.Some?
    modifies n`followUps
    ensures n.followUps == Ids(n.outputNodes.value)
  {
    var edges := n.outputNodes.value;
    n.followUps := [];
    for j := 0 to |edges|
      invariant n.followUps == Ids(edges[..j])
    {
      assert edges[..j + 1][..j] == edges[..j];
      n.followUps := n.followUps + [edges[j].id];
    }
    assert edges[..|edges|] == edges;
  }

  /** Replaces the node's edge list with its stable ascending sort by the
      priority of the nodes it points at. No caller in this copy. */
  method ReorderByPriority(n: ChainBehaviorNode)
    requires n.outputNodes.Some?
    modifies n`outputNodes
    ensures n.outputNodes == Some(SortByPriority(old(n.outputNodes.value)))
  {
    n.outputNodes := Some(SortByPriority(n.outputNodes.value));
  }
}
