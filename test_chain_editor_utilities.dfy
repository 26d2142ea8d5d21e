/** The graph operations of the second copy of `ChainEditorUtilities`, in the
    CombatDesignerTest project. `CreateNode`, `UpdateChainBehaviorNodeID`,
    `ReorderByPriority` and the cleanup routine (`DeleteNodeAndCleanUp` here)
    are the same as in `CoreChainEditorUtilities`; this copy differs in
    `UpdateFollowUps`, which reorders each edge list by priority first, and so
    in what `DeleteNode` leaves behind. */
module TestChainEditorUtilities {
  import opened Wrappers
  import opened Sequences
  import opened ChainGraph
  import CoreChainEditorUtilities

  /** Deletes the node at `nodeIndex` as in the other copy, but the rebuild
      also sorts every remaining edge list by priority: the remaining nodes
      hold, in order, their former edge lists purged of the deleted node and
      reordered. */
  method DeleteNode(nodeIndex: int, graph: ChainGraph)
    requires WellFormed(graph.nodes)
    modifies graph`nodes, graph.nodes`outputNodes, graph.nodes`id, graph.nodes`followUps
    ensures !DeleteGuard(|old(graph.nodes)|, nodeIndex) ==>
      graph.nodes == old(graph.nodes) &&
      forall n :: n in graph.nodes ==>
        n.outputNodes == old(n.outputNodes) && n.id == old(n.id) && n.followUps == old(n.followUps)
    ensures DeleteGuard(|old(graph.nodes)|, nodeIndex) ==>
      graph.nodes == old(graph.nodes[..nodeIndex] + graph.nodes[nodeIndex + 1..]) &&
      (forall n :: n in graph.nodes ==>
        n.outputNodes == Reordered(Purged(old(n.outputNodes), old(graph.nodes[nodeIndex])))) &&
      (forall n :: n in graph.nodes ==> old(graph.nodes[nodeIndex]) !in Targets(n)) &&
      WellFormed(graph.nodes) &&
      Numbered(graph.nodes) &&
      FollowUpsResolve(graph.nodes) &&
      FollowUpsInPriorityOrder(graph.nodes)
  {
    // As in the other copy, the source guards with `graph.nodes.Count >=
    // nodeIndex`; see `DeleteGuardAsWritten`.
    if DeleteGuard(|graph.nodes|, nodeIndex) {
      var deleteNode := graph.nodes[nodeIndex];
      ghost var before := graph.nodes;
      ghost var survivors := RemoveFirst(before, deleteNode);
      ghost var oldEdges := map n | n in before :: n.outputNodes;
      forall n | n in before ensures EdgesInto(oldEdges[n], before) {
        var k :| 0 <= k < |before| && before[k] == n;
        assert Distinct(Targets(before[k]));
      }
      RemoveFirstKeepsDistinct(before, deleteNode);
      CoreChainEditorUtilities.RemoveNodeAndCleanUp(graph, deleteNode);
      CoreChainEditorUtilities.UpdateChainBehaviorNodeID(graph);
      label Rebuild:
      UpdateFollowUps(graph);
      forall i | 0 <= i < |survivors|
        ensures survivors[i] in oldEdges
        ensures survivors[i].outputNodes == Reordered(Purged(oldEdges[survivors[i]], deleteNode))
        ensures MirrorsEdges(survivors[i])
      {
        var n := survivors[i];
        assert RebuiltSorted(n, old@Rebuild(n.outputNodes), old@Rebuild(n.followUps));
        assert n in before;
      }
      ReorderedDeletionConsistent(before, survivors, oldEdges, deleteNode);
      RemoveFirstAtIndex(before, nodeIndex);
    }
  }

  /** Reorders the edge list of every node that has one by priority, then
      rebuilds its `followUps` as the ids of the reordered edges. */
  method UpdateFollowUps(graph: ChainGraph)
    requires Distinct(graph.nodes)
    modifies (set n | n in graph.nodes)`outputNodes, (set n | n in graph.nodes)`followUps
    ensures forall k :: 0 <= k < |graph.nodes| ==>
      RebuiltSorted(graph.nodes[k], old(graph.nodes[k].outputNodes), old(graph.nodes[k].followUps))
  {
    var nodes := graph.nodes;
    for i := 0 to |nodes|
      modifies nodes`outputNodes, nodes`followUps
      invariant forall k :: 0 <= k < i ==> RebuiltSorted(nodes[k], old(nodes[k].outputNodes), old(nodes[k].followUps))
      invariant forall k :: i <= k < |nodes| ==>
        nodes[k].outputNodes == old(nodes[k].outputNodes) && nodes[k].followUps == old(nodes[k].followUps)
    {
      var n: ChainBehaviorNode := nodes[i];
      NoOtherPosition(nodes, i);
      if n.outputNodes.Some? {
        ReorderAndRebuild(n);
      }
    }
  }

  /** The body of the loop in `UpdateFollowUps` for one node with an edge
      list: `ReorderByPriority`, then the rebuild of `followUps`. */
  method ReorderAndRebuild(n: ChainBehaviorNode)
    requires n.outputNodes.Some?
    modifies n`outputNodes, n`followUps
    ensures n.outputNodes == Reordered(old(n.outputNodes))
    ensures n.followUps == Ids(n.outputNodes.value)
  {
    CoreChainEditorUtilities.ReorderByPriority(n);
    CoreChainEditorUtilities.RebuildFollowUps(n);
  }
}
