/** The chain-behavior graph the editor maintains: the node objects, the graph
    that holds them in order, the runtime model the graph is baked into, and the
    specification functions and lemmas the editor operations are proved against. */
module ChainGraph {
  import opened Wrappers
  import opened Sequences

  /** The combat behavior asset a node refers to; the editor only passes it on. */
  class Behavior { }

  /** The node kinds `CreateNode` is asked for; `OtherNodeType` is any further
      value of the enumeration. */
  datatype NodeType = ChainBehaviorNodeType | RootBehaviorNodeType | OtherNodeType(ordinal: int)

  /** What `InitNode` leaves in a new node. Its body is not part of this model,
      so these values are whatever it chose. */
  datatype NodeInit = NodeInit(
    id: int,
    priority: int,
    behavior: Behavior?,
    outputNodes: Option<seq<ChainBehaviorNode>>,
    followUps: seq<int>)

  /** One baked entry of the runtime model. */
  datatype ChainBehavior = ChainBehavior(id: int, behavior: Behavior?, followUps: seq<int>, priority: int)

  /** The runtime asset a graph is baked into. */
  class ActorModel {
    var name: string
    var chainBehaviors: seq<ChainBehavior>
  }

  /** A node of the graph. `RootBehaviorNode` is a subclass of
      `ChainBehaviorNode`; `isRoot` records which of the two was instantiated. */
  class ChainBehaviorNode {
    const isRoot: bool
    var nodeName: string
    var name: string
    var parentGraph: ChainGraph?
    var id: int
    /** Set in the Inspector, never by the editor utilities; fixed here when
        the node is created. */
    const priority: int
    var behavior: Behavior?
    /** `output.nodes`, the outgoing connections; `None` is a null list. */
    var outputNodes: Option<seq<ChainBehaviorNode>>
    /** The ids of the outgoing connections, derived by `UpdateFollowUps`. */
    var followUps: seq<int>

    /** `ScriptableObject.CreateInstance` of the node class. */
    constructor (isRoot: bool, priority: int)
      ensures this.isRoot == isRoot && this.priority == priority && parentGraph == null
    {
      this.isRoot := isRoot;
      this.priority := priority;
      parentGraph := null;
    }

    /** `InitNode(graph)`: its effect is given as `init`. */
    method InitNode(graph: ChainGraph, init: NodeInit)
      modifies this`id, this`behavior, this`outputNodes, this`followUps
      ensures id == init.id && behavior == init.behavior
      ensures outputNodes == init.outputNodes && followUps == init.followUps
    {
      id, behavior := init.id, init.behavior;
      outputNodes, followUps := init.outputNodes, init.followUps;
    }
  }

  /** The graph asset: its nodes in order and the model it belongs to. */
  class ChainGraph {
    var nodes: seq<ChainBehaviorNode>
    var model: ActorModel?
  }

  /** The nodes of a graph that may be null. */
  function NodesOf(graph: ChainGraph?): seq<ChainBehaviorNode>
    reads graph
  {
    if graph == null then [] else graph.nodes
  }

  // ---------------------------------------------------------------------------
  // The guard of `DeleteNode`

  /** The guard as written in both copies: `graph.nodes.Count >= nodeIndex`. */
  predicate DeleteGuardAsWritten(count: nat, nodeIndex: int) {
    count >= nodeIndex
  }

  /** The guard that indexing `graph.nodes[nodeIndex]` needs. */
  predicate DeleteGuard(count: nat, nodeIndex: int) {
    0 <= nodeIndex < count
  }

  /** The written guard lets through `nodeIndex == Count` and every negative
      index, where `graph.nodes[nodeIndex]` throws. */
  lemma DeleteGuardAsWrittenAdmitsOutOfRange(count: nat)
    ensures DeleteGuardAsWritten(count, count) && !DeleteGuard(count, count)
    ensures DeleteGuardAsWritten(count, -1) && !DeleteGuard(count, -1)
  {
  }

  /** The corrected guard admits exactly the indices the written one admits
      and that are positions of the list. */
  lemma DeleteGuardRefinesAsWritten(count: nat, nodeIndex: int)
    ensures DeleteGuard(count, nodeIndex) <==>
            DeleteGuardAsWritten(count, nodeIndex) && nodeIndex != count && nodeIndex >= 0
  {
  }

  // ---------------------------------------------------------------------------
  // Ids

  /** The ids of `s`, in order. */
  function Ids(s: seq<ChainBehaviorNode>): (r: seq<int>)
    reads s`id
    ensures |r| == |s| && forall i :: 0 <= i < |s| ==> r[i] == s[i].id
  {
    if s == [] then [] else Ids(s[..|s| - 1]) + [s[|s| - 1].id]
  }

  /** Ids are the positions in the node list: `0 .. |nodes| - 1`. */
  ghost predicate Numbered(nodes: seq<ChainBehaviorNode>)
    reads nodes`id
  {
    forall i :: 0 <= i < |nodes| ==> nodes[i].id == i
  }

  // ---------------------------------------------------------------------------
  // Edges

  /** The outgoing connections of `n`, with a null list read as empty. */
  function Targets(n: ChainBehaviorNode): seq<ChainBehaviorNode>
    reads n`outputNodes
  {
    if n.outputNodes.Some? then n.outputNodes.value else []
  }

  /** Every connection points at a node of the graph. */
  ghost predicate EdgesWithin(nodes: seq<ChainBehaviorNode>)
    reads nodes`outputNodes
  {
    forall i, t :: 0 <= i < |nodes| && t in Targets(nodes[i]) ==> t in nodes
  }

  /** No edge list holds the same node twice. */
  ghost predicate EdgesSimple(nodes: seq<ChainBehaviorNode>)
    reads nodes`outputNodes
  {
    forall i {:trigger Targets(nodes[i])} :: 0 <= i < |nodes| ==> Distinct(Targets(nodes[i]))
  }

  /** The shape the editor keeps: each node once in the graph, every edge inside
      the graph, every edge list without repetitions. */
  ghost predicate WellFormed(nodes: seq<ChainBehaviorNode>)
    reads nodes`outputNodes
  {
    Distinct(nodes) && EdgesWithin(nodes) && EdgesSimple(nodes)
  }

  /** A (possibly null) edge list without repetitions whose targets are all in
      `nodes`. */
  ghost predicate EdgesInto(o: Option<seq<ChainBehaviorNode>>, nodes: seq<ChainBehaviorNode>) {
    o.Some? ==> Distinct(o.value) && forall t :: t in o.value ==> t in nodes
  }

  /** Appending a new node whose edges stay inside the graph keeps it
      well-formed. */
  lemma AppendKeepsWellFormed(nodes: seq<ChainBehaviorNode>, node: ChainBehaviorNode)
    requires WellFormed(nodes) && node !in nodes
    requires EdgesInto(node.outputNodes, nodes)
    ensures WellFormed(nodes + [node])
  {
    var after := nodes + [node];
    forall i, t | 0 <= i < |after| && t in Targets(after[i]) ensures t in after {
      if i < |nodes| {
        assert after[i] == nodes[i];
      }
    }
    forall i | 0 <= i < |after| ensures Distinct(Targets(after[i])) {
      if i < |nodes| {
        assert after[i] == nodes[i];
      }
    }
    AppendKeepsDistinct(nodes, node);
  }

  /** An edge list after the cleanup of `deleteNode`: its first occurrence is
      removed, and a null list stays null. */
  function Purged(o: Option<seq<ChainBehaviorNode>>, deleteNode: ChainBehaviorNode): (r: Option<seq<ChainBehaviorNode>>)
    ensures r.None? <==> o.None?
  {
    match o
    case None => None
    case Some(s) => Some(RemoveFirst(s, deleteNode))
  }

  /** Every node of `nodes` holds the edge list that the cleanup of
      `deleteNode` leaves of its earlier one. */
  twostate predicate EdgesPurged(nodes: seq<ChainBehaviorNode>, deleteNode: ChainBehaviorNode)
    reads nodes`outputNodes
  {
    forall n :: n in nodes ==> n.outputNodes == Purged(old(n.outputNodes), deleteNode)
  }

  /** Purging `deleteNode` from the edge lists of a well-formed graph (whose
      former edge lists `oldEdges` records) and then from its node list leaves
      a well-formed graph in which no edge points at `deleteNode`. */
  lemma CleanupKeepsWellFormed(before: seq<ChainBehaviorNode>, oldEdges: map<ChainBehaviorNode, Option<seq<ChainBehaviorNode>>>, deleteNode: ChainBehaviorNode)
    requires Distinct(before)
    requires forall n :: n in before ==>
      n in oldEdges && EdgesInto(oldEdges[n], before) && n.outputNodes == Purged(oldEdges[n], deleteNode)
    ensures WellFormed(RemoveFirst(before, deleteNode))
    ensures forall n :: n in RemoveFirst(before, deleteNode) ==> deleteNode !in Targets(n)
  {
    var after := RemoveFirst(before, deleteNode);
    RemoveFirstKeepsDistinct(before, deleteNode);
    forall i | 0 <= i < |after|
      ensures deleteNode !in Targets(after[i]) && Distinct(Targets(after[i]))
      ensures forall t :: t in Targets(after[i]) ==> t in after
    {
      var n := after[i];
      RemoveFirstMembers(before, deleteNode, n);
      var o := oldEdges[n];
      if o.Some? {
        forall t | t in Targets(n) ensures t != deleteNode && t in after {
          PurgedRemovesAllEdges(o, deleteNode, t);
          RemoveFirstMembers(before, deleteNode, t);
        }
        PurgedRemovesAllEdges(o, deleteNode, deleteNode);
      }
    }
  }

  /** On a graph without repeated edges, the cleanup leaves no edge to the
      deleted node and keeps every other edge. */
  lemma PurgedRemovesAllEdges(o: Option<seq<ChainBehaviorNode>>, deleteNode: ChainBehaviorNode, t: ChainBehaviorNode)
    requires o.Some? && Distinct(o.value)
    ensures deleteNode !in Purged(o, deleteNode).value
    ensures t in Purged(o, deleteNode).value <==> t in o.value && t != deleteNode
    ensures Distinct(Purged(o, deleteNode).value)
  {
    DistinctOccursOnce(o.value, deleteNode);
    RemoveFirstLeavesNone(o.value, deleteNode);
    RemoveFirstMembers(o.value, deleteNode, t);
    RemoveFirstKeepsDistinct(o.value, deleteNode);
  }

  // ---------------------------------------------------------------------------
  // Follow-ups

  /** `followUps` lists the ids of the outgoing connections, in edge order. */
  ghost predicate MirrorsEdges(n: ChainBehaviorNode)
    reads n`outputNodes, n`followUps, Targets(n)`id
  {
    n.outputNodes.Some? ==> n.followUps == Ids(n.outputNodes.value)
  }

  /** Nodes without an edge list kept their follow-ups. */
  twostate predicate UnconnectedKeepFollowUps(nodes: seq<ChainBehaviorNode>)
    reads nodes`outputNodes, nodes`followUps
  {
    forall n :: n in nodes && n.outputNodes.None? ==> n.followUps == old(n.followUps)
  }

  /** Every follow-up of a node with an edge list is the position in the graph
      of the node its edge points at. */
  ghost predicate FollowUpsResolve(nodes: seq<ChainBehaviorNode>)
    reads nodes`outputNodes, nodes`followUps
  {
    forall i :: 0 <= i < |nodes| && nodes[i].outputNodes.Some? ==>
      |nodes[i].followUps| == |nodes[i].outputNodes.value| &&
      forall j :: 0 <= j < |nodes[i].followUps| ==>
        0 <= nodes[i].followUps[j] < |nodes| &&
        nodes[nodes[i].followUps[j]] == nodes[i].outputNodes.value[j]
  }

  /** Renumbered ids plus rebuilt follow-ups make every follow-up a valid index
      of the node its edge points at. */
  lemma FollowUpsResolveFromMirror(nodes: seq<ChainBehaviorNode>)
    requires Numbered(nodes) && EdgesWithin(nodes)
    requires forall i :: 0 <= i < |nodes| ==> MirrorsEdges(nodes[i])
    ensures FollowUpsResolve(nodes)
  {
    forall i, j | 0 <= i < |nodes| && nodes[i].outputNodes.Some? && 0 <= j < |nodes[i].followUps|
      ensures 0 <= nodes[i].followUps[j] < |nodes|
      ensures nodes[nodes[i].followUps[j]] == nodes[i].outputNodes.value[j]
    {
      assert MirrorsEdges(nodes[i]);
      var t := nodes[i].outputNodes.value[j];
      assert t in Targets(nodes[i]);
      assert t in nodes;
      var k :| 0 <= k < |nodes| && nodes[k] == t;
      assert nodes[i].followUps[j] == t.id == k;
    }
  }

  // ---------------------------------------------------------------------------
  // Priority order: `OrderBy(o => o.priority)`, a stable ascending sort

  /** Ascending by priority. */
  ghost predicate SortedByPriority(s: seq<ChainBehaviorNode>)
  {
    forall i, j :: 0 <= i < j < |s| ==> s[i].priority <= s[j].priority
  }

  /** The entries of `s` whose priority is `p`, in the order of `s`. */
  function WithPriority(s: seq<ChainBehaviorNode>, p: int): seq<ChainBehaviorNode>
  {
    if s == [] then []
    else (if s[0].priority == p then [s[0]] else []) + WithPriority(s[1..], p)
  }

  /** Places `x` before the first entry whose priority is not smaller. */
  function InsertByPriority(x: ChainBehaviorNode, s: seq<ChainBehaviorNode>): (r: seq<ChainBehaviorNode>)
    ensures forall y :: y in r ==> y == x || y in s
  {
    if s == [] then [x]
    else if x.priority <= s[0].priority then [x] + s
    else [s[0]] + InsertByPriority(x, s[1..])
  }

  /** `s.OrderBy(o => o.priority).ToList()`, as an insertion sort. */
  function SortByPriority(s: seq<ChainBehaviorNode>): (r: seq<ChainBehaviorNode>)
    ensures forall y :: y in r ==> y in s
  {
    if s == [] then []
    else InsertByPriority(s[0], SortByPriority(s[1..]))
  }

  /** Inserting adds exactly one occurrence of `x`. */
  lemma {:induction false} InsertByPriorityMultiset(x: ChainBehaviorNode, s: seq<ChainBehaviorNode>)
    ensures multiset(InsertByPriority(x, s)) == multiset{x} + multiset(s)
  {
    if s != [] && x.priority > s[0].priority {
      InsertByPriorityMultiset(x, s[1..]);
      assert s == [s[0]] + s[1..];
    }
  }

  /** The sort is a permutation of its input. */
  lemma {:induction false} SortByPriorityPermutes(s: seq<ChainBehaviorNode>)
    ensures multiset(SortByPriority(s)) == multiset(s)
  {
    if s != [] {
      SortByPriorityPermutes(s[1..]);
      InsertByPriorityMultiset(s[0], SortByPriority(s[1..]));
      assert s == [s[0]] + s[1..];
    }
  }

  lemma {:induction false} InsertKeepsSorted(x: ChainBehaviorNode, s: seq<ChainBehaviorNode>)
    requires SortedByPriority(s)
    ensures SortedByPriority(InsertByPriority(x, s))
  {
    if s != [] && x.priority > s[0].priority {
      InsertKeepsSorted(x, s[1..]);
      var r := InsertByPriority(x, s[1..]);
      forall y | y in r ensures s[0].priority <= y.priority {
        assert y == x || y in s[1..];
      }
    }
  }

  lemma {:induction false} InsertWithPriority(x: ChainBehaviorNode, s: seq<ChainBehaviorNode>, p: int)
    ensures WithPriority(InsertByPriority(x, s), p) ==
            (if x.priority == p then [x] else []) + WithPriority(s, p)
  {
    if s == [] {
      assert [x][1..] == [];
    } else if x.priority <= s[0].priority {
      assert ([x] + s)[1..] == s;
    } else {
      var t := InsertByPriority(x, s[1..]);
      InsertWithPriority(x, s[1..], p);
      assert ([s[0]] + t)[1..] == t;
      assert WithPriority(s, p) == (if s[0].priority == p then [s[0]] else []) + WithPriority(s[1..], p);
      if x.priority == p {
        // `s[0]` has a smaller priority, so it is not among the entries kept.
        assert WithPriority([s[0]] + t, p) == WithPriority(t, p);
        assert WithPriority(s, p) == WithPriority(s[1..], p);
      } else {
        assert WithPriority(t, p) == WithPriority(s[1..], p);
      }
    }
  }

  /** The result is ascending by priority. */
  lemma {:induction false} SortByPrioritySorted(s: seq<ChainBehaviorNode>)
    ensures SortedByPriority(SortByPriority(s))
  {
    if s != [] {
      SortByPrioritySorted(s[1..]);
      InsertKeepsSorted(s[0], SortByPriority(s[1..]));
    }
  }

  /** The sort is stable: the entries of each priority keep their relative
      order. With `SortByPrioritySorted` this pins the result down uniquely. */
  lemma {:induction false} SortByPriorityStable(s: seq<ChainBehaviorNode>, p: int)
    ensures WithPriority(SortByPriority(s), p) == WithPriority(s, p)
  {
    if s != [] {
      SortByPriorityStable(s[1..], p);
      InsertWithPriority(s[0], SortByPriority(s[1..]), p);
    }
  }

  /** Sorting a list that is already in priority order changes nothing. */
  lemma {:induction false} SortByPriorityOfSorted(s: seq<ChainBehaviorNode>)
    requires SortedByPriority(s)
    ensures SortByPriority(s) == s
  {
    if s != [] {
      assert SortedByPriority(s[1..]) by {
        forall i, j | 0 <= i < j < |s[1..]| ensures s[1..][i].priority <= s[1..][j].priority {
          assert s[1..][i] == s[i + 1] && s[1..][j] == s[j + 1];
        }
      }
      SortByPriorityOfSorted(s[1..]);
      if |s| > 1 {
        assert s[1..][0] == s[1];
      }
      assert s == [s[0]] + s[1..];
    }
  }

  /** Sorting keeps each node's membership and keeps edge lists free of
      repetitions. */
  lemma SortByPriorityMembers(s: seq<ChainBehaviorNode>)
    ensures forall t :: t in SortByPriority(s) <==> t in s
    ensures Distinct(s) ==> Distinct(SortByPriority(s))
  {
    var r := SortByPriority(s);
    SortByPriorityPermutes(s);
    forall t ensures t in r <==> t in s {
      assert t in r <==> t in multiset(r);
      assert t in s <==> t in multiset(s);
    }
    if Distinct(s) {
      PermutationKeepsDistinct(s, r);
    }
  }

  /** An edge list after `ReorderByPriority`; the sort runs only on a list
      that is not null. */
  function Reordered(o: Option<seq<ChainBehaviorNode>>): (r: Option<seq<ChainBehaviorNode>>)
    ensures r.None? <==> o.None?
  {
    match o
    case None => None
    case Some(s) => Some(SortByPriority(s))
  }

  /** `n` after the sorting rebuild, given that its edge list was `o` and its
      follow-ups `f`: the list is reordered by priority, and the follow-ups
      are the ids of the reordered list, or still `f` when there is no list. */
  ghost predicate RebuiltSorted(n: ChainBehaviorNode, o: Option<seq<ChainBehaviorNode>>, f: seq<int>)
    reads n`outputNodes, n`followUps, Targets(n)`id
  {
    n.outputNodes == Reordered(o) &&
    if o.Some? then n.followUps == Ids(n.outputNodes.value) else n.followUps == f
  }

  /** Reordering an edge list keeps its targets and its lack of repetitions
      and puts it in ascending priority order. */
  lemma ReorderedKeepsEdges(o: Option<seq<ChainBehaviorNode>>, nodes: seq<ChainBehaviorNode>)
    ensures o.Some? ==> forall t :: t in Reordered(o).value <==> t in o.value
    ensures o.Some? ==> SortedByPriority(Reordered(o).value)
    ensures EdgesInto(o, nodes) ==> EdgesInto(Reordered(o), nodes)
  {
    if o.Some? {
      SortByPriorityMembers(o.value);
      SortByPrioritySorted(o.value);
    }
  }

  /** A graph is well-formed exactly when its nodes are distinct and each of
      its edge lists goes into it without repetitions. */
  lemma WellFormedByEdges(nodes: seq<ChainBehaviorNode>)
    ensures WellFormed(nodes) <==>
      Distinct(nodes) && forall k :: 0 <= k < |nodes| ==> EdgesInto(nodes[k].outputNodes, nodes)
  {
    if Distinct(nodes) && forall k :: 0 <= k < |nodes| ==> EdgesInto(nodes[k].outputNodes, nodes) {
      forall k | 0 <= k < |nodes| ensures Distinct(Targets(nodes[k])) {
        assert EdgesInto(nodes[k].outputNodes, nodes);
      }
    }
    if WellFormed(nodes) {
      forall k | 0 <= k < |nodes| ensures EdgesInto(nodes[k].outputNodes, nodes) {
        assert Distinct(Targets(nodes[k]));
      }
    }
  }

  /** The edge list the deletion leaves in a surviving node: purged of
      `deleteNode`, reordered, inside the shrunk graph `after`, without
      repetitions and in priority order. */
  lemma PurgedReorderedEdges(o: Option<seq<ChainBehaviorNode>>, before: seq<ChainBehaviorNode>, deleteNode: ChainBehaviorNode, after: seq<ChainBehaviorNode>)
    requires EdgesInto(o, before)
    requires forall t :: t in before && t != deleteNode ==> t in after
    ensures EdgesInto(Reordered(Purged(o, deleteNode)), after)
    ensures Reordered(Purged(o, deleteNode)).Some? ==>
      deleteNode !in Reordered(Purged(o, deleteNode)).value &&
      SortedByPriority(Reordered(Purged(o, deleteNode)).value)
  {
    if o.Some? {
      var purged := Purged(o, deleteNode);
      forall t | t in purged.value ensures t in after {
        PurgedRemovesAllEdges(o, deleteNode, t);
      }
      PurgedRemovesAllEdges(o, deleteNode, deleteNode);
      ReorderedKeepsEdges(purged, after);
    }
  }

  /** Removing `deleteNode` from a well-formed graph `before`, and giving each
      remaining node its former edge list (`oldEdges`) purged of `deleteNode`
      and reordered by priority, leaves a well-formed graph with
      priority-sorted edge lists, none of which points at `deleteNode`. */
  lemma CleanupAndReorderKeepsWellFormed(before: seq<ChainBehaviorNode>, after: seq<ChainBehaviorNode>, oldEdges: map<ChainBehaviorNode, Option<seq<ChainBehaviorNode>>>, deleteNode: ChainBehaviorNode)
    requires Distinct(before) && after == RemoveFirst(before, deleteNode)
    requires forall n :: n in after ==>
      n in oldEdges && EdgesInto(oldEdges[n], before) && n.outputNodes == Reordered(Purged(oldEdges[n], deleteNode))
    ensures WellFormed(after)
    ensures forall i :: 0 <= i < |after| ==>
      deleteNode !in Targets(after[i]) && SortedByPriority(Targets(after[i]))
  {
    RemoveFirstKeepsDistinct(before, deleteNode);
    forall t | t in before && t != deleteNode ensures t in after {
      RemoveFirstMembers(before, deleteNode, t);
    }
    forall i | 0 <= i < |after|
      ensures EdgesInto(after[i].outputNodes, after)
      ensures deleteNode !in Targets(after[i]) && SortedByPriority(Targets(after[i]))
    {
      var n := after[i];
      assert n in after;
      PurgedReorderedEdges(oldEdges[n], before, deleteNode, after);
    }
    WellFormedByEdges(after);
  }

  /** Follow-ups of every connected node list graph positions in ascending
      priority of the nodes they name. */
  ghost predicate FollowUpsInPriorityOrder(nodes: seq<ChainBehaviorNode>)
    reads nodes`outputNodes, nodes`followUps
  {
    forall i, j, k :: 0 <= i < |nodes| && nodes[i].outputNodes.Some? && 0 <= j < k < |nodes[i].followUps| ==>
      0 <= nodes[i].followUps[j] < |nodes| && 0 <= nodes[i].followUps[k] < |nodes| &&
      nodes[nodes[i].followUps[j]].priority <= nodes[nodes[i].followUps[k]].priority
  }

  /** Resolving follow-ups of priority-sorted edge lists gives follow-ups in
      priority order. */
  lemma FollowUpsInPriorityOrderFromSorted(nodes: seq<ChainBehaviorNode>)
    requires FollowUpsResolve(nodes)
    requires forall i :: 0 <= i < |nodes| ==> SortedByPriority(Targets(nodes[i]))
    ensures FollowUpsInPriorityOrder(nodes)
  {
    forall i, j, k | 0 <= i < |nodes| && nodes[i].outputNodes.Some? && 0 <= j < k < |nodes[i].followUps|
      ensures 0 <= nodes[i].followUps[j] < |nodes| && 0 <= nodes[i].followUps[k] < |nodes|
      ensures nodes[nodes[i].followUps[j]].priority <= nodes[nodes[i].followUps[k]].priority
    {
      assert SortedByPriority(Targets(nodes[i]));
      assert Targets(nodes[i]) == nodes[i].outputNodes.value;
    }
  }

  /** The state the priority-sorting deletion leaves: the survivors of
      `deleteNode`, each holding its former edge list purged and reordered,
      renumbered and with rebuilt follow-ups, form a well-formed graph whose
      follow-ups resolve in ascending priority and in which no edge points at
      `deleteNode`. */
  lemma ReorderedDeletionConsistent(before: seq<ChainBehaviorNode>, after: seq<ChainBehaviorNode>, oldEdges: map<ChainBehaviorNode, Option<seq<ChainBehaviorNode>>>, deleteNode: ChainBehaviorNode)
    requires Distinct(before) && after == RemoveFirst(before, deleteNode)
    requires forall n :: n in after ==>
      n in oldEdges && EdgesInto(oldEdges[n], before) && n.outputNodes == Reordered(Purged(oldEdges[n], deleteNode))
    requires Numbered(after) && forall i :: 0 <= i < |after| ==> MirrorsEdges(after[i])
    ensures WellFormed(after) && FollowUpsResolve(after) && FollowUpsInPriorityOrder(after)
    ensures forall n :: n in after ==> deleteNode !in Targets(n)
  {
    CleanupAndReorderKeepsWellFormed(before, after, oldEdges, deleteNode);
    FollowUpsResolveFromMirror(after);
    FollowUpsInPriorityOrderFromSorted(after);
  }

  // ---------------------------------------------------------------------------
  // Baking into the runtime model

  /** The model entry `UpdateGraphToModel` writes for `n`. */
  function Bake(n: ChainBehaviorNode): ChainBehavior
    reads n`id, n`behavior, n`followUps
  {
    ChainBehavior(n.id, n.behavior, n.followUps, n.priority)
  }

  /** One entry per node, in node order. */
  function BakeAll(nodes: seq<ChainBehaviorNode>): (r: seq<ChainBehavior>)
    reads nodes`id, nodes`behavior, nodes`followUps
    ensures |r| == |nodes|
    ensures forall i :: 0 <= i < |nodes| ==> r[i] == Bake(nodes[i])
  {
    if nodes == [] then [] else BakeAll(nodes[..|nodes| - 1]) + [Bake(nodes[|nodes| - 1])]
  }

  /** Baking a consistent graph gives a model whose ids are its positions and
      whose follow-ups of connected nodes are positions of that model. */
  lemma BakedModelResolves(nodes: seq<ChainBehaviorNode>)
    requires Numbered(nodes) && FollowUpsResolve(nodes)
    ensures forall i :: 0 <= i < |nodes| ==> BakeAll(nodes)[i].id == i
    ensures forall i, j :: 0 <= i < |nodes| && nodes[i].outputNodes.Some? && 0 <= j < |BakeAll(nodes)[i].followUps| ==>
              0 <= BakeAll(nodes)[i].followUps[j] < |BakeAll(nodes)|
  {
  }
}
