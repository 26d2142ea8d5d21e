# Chain editor graph bookkeeping

CombatDesigner's chain editor is a node graph. A graph (`ChainGraph`) holds an
ordered list of node objects (`ChainBehaviorNode`). Each node has:

- an `id`, which should be its position in the list;
- a `priority`;
- an outgoing edge list `output.nodes`, whose entries are references to other nodes;
- `followUps`, the ids of those nodes, derived from the edges.

The static class `ChainEditorUtilities` does the bookkeeping on such a graph:

- appends a node (`CreateNode`);
- renumbers ids to list positions (`UpdateChainBehaviorNodeID`);
- purges a node from every edge list and from the graph (the cleanup routine);
- rebuilds the follow-ups from the edges (`UpdateFollowUps`), in one copy after a stable sort by priority (`ReorderByPriority`);
- deletes a node, which is purge, renumber and rebuild in that order (`DeleteNode`);
- bakes the graph into the runtime model's `chainBehaviors` list (`UpdateGraphToModel`).

There are two near-identical copies of the class:

- **Core copy**: `CombatDesigner/.../Editor/Utils/ChainEditorUtilities.cs`. Its `UpdateFollowUps` has the sort commented out.
- **Test copy**: `CombatDesignerTest/.../Editor/Utils/ChainEditorUtilities.cs`. Its `UpdateFollowUps` sorts each edge list before rebuilding, so what its `DeleteNode` leaves behind differs.

The two copies differ in the rebuild. The Test copy calls `ReorderByPriority(n)` before each rebuild (Test line 166). In the Core copy that call is commented out (Core line 214). So the priority-order property is proved for the Test copy only. For the Core copy, the follow-ups are proved to follow edge order.

The code of `CreateNode`, `UpdateChainBehaviorNodeID`, `ReorderByPriority`, the cleanup routine and the ".asset" rule is the same in both copies. So the Test copy's module reuses those members of the Core copy's module. Each row below cites one copy, and the states cell names the matching lines of the other.

Modules:

- `Wrappers` holds `Option`.
- `Sequences` models `List.Remove` (`RemoveFirst`), `string.Contains` and distinctness.
- `AssetPath` models the ".asset" rule of `CreateNewGraph`.
- `ChainGraph` holds the classes and the specification functions, with the lemmas about them:
  - the graph invariant `WellFormed`;
  - the cleanup `Purged`;
  - the priority sort `SortByPriority`;
  - the follow-up predicates;
  - the baked model.
- `CoreChainEditorUtilities` and `TestChainEditorUtilities` are the two copies' operations, as methods on the objects.

Nodes are Dafny objects, so `List.Contains` and `List.Remove` compare by reference, as in C#. A null `output.nodes` is `None`.

Every `DeleteNode` result assumes the graph is well-formed on entry (the other graph operations assume only the first of these conditions; see "## Left out"):

- no node is listed twice;
- every edge points at a node of the graph;
- no edge list holds a node twice.

Under that assumption, the deletion leaves:

- a well-formed graph;
- ids `0 .. Count-1`;
- no edge to the deleted node;
- follow-ups that are positions of the nodes their edges point at. In the Test copy these positions are also in ascending priority.

## Model

| member | source | states |
|---|---|---|
| `AssetPath.WithAssetExtension` | CombatDesigner/Assets/CombatDesigner/Core/Scripts/_EditorTools/ChainEditor/Editor/Utils/ChainEditorUtilities.cs:32-35 | The normalised path always contains ".asset". A path that already contains it is returned unchanged. Any other path gets exactly ".asset" appended. (The Test copy has the same rule at lines 25-28.) |
| `AssetPath.WithAssetExtensionIdempotent` | CombatDesigner/Assets/CombatDesigner/Core/Scripts/_EditorTools/ChainEditor/Editor/Utils/ChainEditorUtilities.cs:32-35 | Normalising a path twice gives the same result as normalising it once. |
| `CoreChainEditorUtilities.FindLastIndex` | CombatDesigner/Assets/CombatDesigner/Core/Scripts/_EditorTools/ChainEditor/Editor/Utils/ChainEditorUtilities.cs:54-61 | The result lies in `[-1, |str|)`. It is -1 exactly when `x` does not occur in `str`. Otherwise `str[index] == x` and `x` does not occur after `index`, so `index` is the last occurrence. |
| `CoreChainEditorUtilities.CreateNode` | CombatDesigner/Assets/CombatDesigner/Core/Scripts/_EditorTools/ChainEditor/Editor/Utils/ChainEditorUtilities.cs:99-133 | A null graph is left alone; a non-null graph keeps its model and its nodes stay distinct. For another node type, the node list and every id are unchanged. For `ChainBehaviorNode` / `RootBehaviorNode`: the list grows by exactly one and the earlier nodes keep their order. The new last node: <ul><li>is fresh;</li><li>has id `old Count`;</li><li>has the right kind;</li><li>is named "Chain Behavior" / "Root Behavior", with `name == nodeName`;</li><li>has the graph as its parent;</li><li>holds what `InitNode` chose;</li></ul>and all ids are list positions. (The Test copy has the same code at lines 80-114.) |
| `ChainGraph.ChainBehaviorNode.constructor` | CombatDesigner/Assets/CombatDesigner/Core/Scripts/_EditorTools/ChainEditor/Editor/Utils/ChainEditorUtilities.cs:107 | `ScriptableObject.CreateInstance` of the node class gives a node of the requested kind (`isRoot`) with its priority and no parent graph. (`RootBehaviorNode` at line 111.) |
| `ChainGraph.ChainBehaviorNode.InitNode` | CombatDesigner/Assets/CombatDesigner/Core/Scripts/_EditorTools/ChainEditor/Editor/Utils/ChainEditorUtilities.cs:120 | The node's `id`, `behavior`, edge list and follow-ups become the values `InitNode` chooses, given as the `NodeInit` parameter; the frame allows no other field to change. |
| `CoreChainEditorUtilities.NewNode` | CombatDesigner/Assets/CombatDesigner/Core/Scripts/_EditorTools/ChainEditor/Editor/Utils/ChainEditorUtilities.cs:103-116 | The `switch` yields null exactly for the other node types. Otherwise it yields a fresh node of the requested kind, without a parent, carrying its display name. |
| `ChainGraph.AppendKeepsWellFormed` | CombatDesigner/Assets/CombatDesigner/Core/Scripts/_EditorTools/ChainEditor/Editor/Utils/ChainEditorUtilities.cs:123-124 | Appending a node that is not yet in a well-formed graph, and whose edges stay inside it, keeps the graph well-formed. |
| `CoreChainEditorUtilities.UpdateGraphToModel` | CombatDesigner/Assets/CombatDesigner/Core/Scripts/_EditorTools/ChainEditor/Editor/Utils/ChainEditorUtilities.cs:135-148 | When confirmed, `model.chainBehaviors` becomes exactly one entry per node, in node order. Entry i carries node i's `id`, `behavior`, `followUps` and `priority`. When not confirmed, it is unchanged. |
| `ChainGraph.BakedModelResolves` | CombatDesigner/Assets/CombatDesigner/Core/Scripts/_EditorTools/ChainEditor/Editor/Utils/ChainEditorUtilities.cs:139-143 | Baking a numbered graph whose follow-ups resolve gives model entries whose ids are their positions. Every follow-up of a connected entry is a position of the model. |
| `ChainGraph.DeleteGuardAsWrittenAdmitsOutOfRange` | CombatDesigner/Assets/CombatDesigner/Core/Scripts/_EditorTools/ChainEditor/Editor/Utils/ChainEditorUtilities.cs:155-157 | The written guard `Count >= nodeIndex` admits `nodeIndex == Count` and `nodeIndex == -1`. Neither is a valid index for `graph.nodes[nodeIndex]`. (The Test copy's guard is at line 120.) |
| `ChainGraph.DeleteGuardRefinesAsWritten` | CombatDesigner/Assets/CombatDesigner/Core/Scripts/_EditorTools/ChainEditor/Editor/Utils/ChainEditorUtilities.cs:155 | The corrected guard admits exactly the indices the written guard admits, minus `Count` and the negative ones. |
| `CoreChainEditorUtilities.DeleteNode` | CombatDesigner/Assets/CombatDesigner/Core/Scripts/_EditorTools/ChainEditor/Editor/Utils/ChainEditorUtilities.cs:151-169 | An index outside the list changes nothing. A valid index on a well-formed graph has these effects: <ul><li>The node is cut out of the list and every other node keeps its order.</li><li>Every survivor's edge list is its old one with the first occurrence of the node removed.</li><li>No edge points at the deleted node.</li><li>The graph stays well-formed.</li><li>Ids are `0..Count-1`.</li><li>Every follow-up is the new position of the node its edge points at.</li><li>Nodes without an edge list keep their follow-ups.</li></ul> |
| `CoreChainEditorUtilities.RemoveNodeAndCleanUp` | CombatDesigner/Assets/CombatDesigner/Core/Scripts/_EditorTools/ChainEditor/Editor/Utils/ChainEditorUtilities.cs:183-196 | The node list becomes `List.Remove` of the node. Every listed node's edge list becomes its old one with the first occurrence of the node removed; a null list stays null. No node is added. (This is `DeleteNodeAndCleanUp` at lines 136-150 of the Test copy.) |
| `CoreChainEditorUtilities.PurgeEdges` | CombatDesigner/Assets/CombatDesigner/Core/Scripts/_EditorTools/ChainEditor/Editor/Utils/ChainEditorUtilities.cs:184-193 | After the loop, node k's edge list is `Purged` of its old one, for every k. |
| `ChainGraph.CleanupKeepsWellFormed` | CombatDesigner/Assets/CombatDesigner/Core/Scripts/_EditorTools/ChainEditor/Editor/Utils/ChainEditorUtilities.cs:183-196 | Purging a node from every edge list of a well-formed graph, and then from its node list, leaves a well-formed graph in which no edge points at that node. |
| `ChainGraph.PurgedRemovesAllEdges` | CombatDesigner/Assets/CombatDesigner/Core/Scripts/_EditorTools/ChainEditor/Editor/Utils/ChainEditorUtilities.cs:188-191 | A single `Remove` takes every occurrence out of an edge list without repetitions. A target survives exactly when it was there and is not the removed node, and the list stays free of repetitions. |
| `Sequences.RemoveFirst` | CombatDesigner/Assets/CombatDesigner/Core/Scripts/_EditorTools/ChainEditor/Editor/Utils/ChainEditorUtilities.cs:190 | `List.Remove(x)`: when `x` occurs, the list gets exactly one entry shorter; when it does not, the list is unchanged. Which entry goes is stated by the lemmas below. (Also used for `graph.nodes.Remove` at line 194.) |
| `Sequences.RemoveFirstMultiset` | CombatDesigner/Assets/CombatDesigner/Core/Scripts/_EditorTools/ChainEditor/Editor/Utils/ChainEditorUtilities.cs:190 | `List.Remove(x)` takes away exactly one occurrence of `x`, if there is one (as multisets). |
| `Sequences.RemoveFirstCutsFirst` | CombatDesigner/Assets/CombatDesigner/Core/Scripts/_EditorTools/ChainEditor/Editor/Utils/ChainEditorUtilities.cs:190 | `List.Remove(x)` cuts out exactly the first occurrence, and all other entries keep their relative order. |
| `Sequences.RemoveFirstLeavesNone` | CombatDesigner/Assets/CombatDesigner/Core/Scripts/_EditorTools/ChainEditor/Editor/Utils/ChainEditorUtilities.cs:190 | After one `Remove`, no occurrence is left if and only if there was at most one. |
| `Sequences.RemoveFirstMembers` | CombatDesigner/Assets/CombatDesigner/Core/Scripts/_EditorTools/ChainEditor/Editor/Utils/ChainEditorUtilities.cs:194 | `Remove` adds nothing, and every element other than `x` stays. |
| `Sequences.RemoveFirstAtIndex` | CombatDesigner/Assets/CombatDesigner/Core/Scripts/_EditorTools/ChainEditor/Editor/Utils/ChainEditorUtilities.cs:157-160 | In a list without repetitions, removing the entry at `nodeIndex` by value removes exactly that position. |
| `Sequences.RemoveFirstKeepsDistinct` | CombatDesigner/Assets/CombatDesigner/Core/Scripts/_EditorTools/ChainEditor/Editor/Utils/ChainEditorUtilities.cs:194 | Removing an element introduces no repetition. |
| `CoreChainEditorUtilities.UpdateChainBehaviorNodeID` | CombatDesigner/Assets/CombatDesigner/Core/Scripts/_EditorTools/ChainEditor/Editor/Utils/ChainEditorUtilities.cs:199-205 | Afterwards `nodes[i].id == i` for every position i. Its frame lets it write only the ids of the listed nodes. (The Test copy has the same code at lines 152-158.) |
| `CoreChainEditorUtilities.UpdateFollowUps` | CombatDesigner/Assets/CombatDesigner/Core/Scripts/_EditorTools/ChainEditor/Editor/Utils/ChainEditorUtilities.cs:208-222 | Every node with an edge list gets follow-ups that are exactly the ids of its edges, in edge order (no sort in this copy). Nodes with a null list keep their follow-ups. Only follow-ups change. |
| `CoreChainEditorUtilities.RebuildFollowUps` | CombatDesigner/Assets/CombatDesigner/Core/Scripts/_EditorTools/ChainEditor/Editor/Utils/ChainEditorUtilities.cs:215-219 | `Clear` followed by one `Add` per edge leaves `followUps` equal to the ids of the edges, in order. |
| `ChainGraph.FollowUpsResolveFromMirror` | CombatDesigner/Assets/CombatDesigner/Core/Scripts/_EditorTools/ChainEditor/Editor/Utils/ChainEditorUtilities.cs:161-162 | Renumbering before the rebuild makes every follow-up the list position of the node its edge points at. |
| `CoreChainEditorUtilities.ReorderByPriority` | CombatDesigner/Assets/CombatDesigner/Core/Scripts/_EditorTools/ChainEditor/Editor/Utils/ChainEditorUtilities.cs:225-228 | The edge list is replaced by its priority sort, `SortByPriority` (`OrderBy(o => o.priority)`). (The Test copy has the same code at lines 176-179.) |
| `ChainGraph.SortByPriority` | CombatDesignerTest/Assets/CombatDesigner/Tools/ChainEditor/Editor/Utils/ChainEditorUtilities.cs:178 | `OrderBy(o => o.priority).ToList()`: every entry of the result comes from the input. The sort lemmas below pin it down: a permutation, ascending, and stable like `OrderBy`. |
| `ChainGraph.SortByPriorityPermutes` | CombatDesignerTest/Assets/CombatDesigner/Tools/ChainEditor/Editor/Utils/ChainEditorUtilities.cs:176-179 | The sorted list is a permutation of the edge list (equal multisets). |
| `ChainGraph.SortByPrioritySorted` | CombatDesignerTest/Assets/CombatDesigner/Tools/ChainEditor/Editor/Utils/ChainEditorUtilities.cs:178 | The sorted list is ascending by priority. |
| `ChainGraph.SortByPriorityStable` | CombatDesignerTest/Assets/CombatDesigner/Tools/ChainEditor/Editor/Utils/ChainEditorUtilities.cs:178 | The sort is stable: for every priority, the entries with that priority keep their relative order. |
| `ChainGraph.SortByPriorityOfSorted` | CombatDesignerTest/Assets/CombatDesigner/Tools/ChainEditor/Editor/Utils/ChainEditorUtilities.cs:178 | Sorting a list that is already in priority order changes nothing. |
| `ChainGraph.SortByPriorityMembers` | CombatDesignerTest/Assets/CombatDesigner/Tools/ChainEditor/Editor/Utils/ChainEditorUtilities.cs:178 | The sort keeps exactly the same targets, and it keeps a list without repetitions free of them. |
| `ChainGraph.ReorderedKeepsEdges` | CombatDesignerTest/Assets/CombatDesigner/Tools/ChainEditor/Editor/Utils/ChainEditorUtilities.cs:166 | Reordering a (possibly null) edge list keeps its targets and puts it in priority order. It keeps an edge list that goes into the graph without repetitions in that state. |
| `TestChainEditorUtilities.UpdateFollowUps` | CombatDesignerTest/Assets/CombatDesigner/Tools/ChainEditor/Editor/Utils/ChainEditorUtilities.cs:160-174 | Every listed node's edge list becomes its priority sort `Reordered` (a null list stays null). A node with a list gets follow-ups equal to the ids of the reordered edges, in their new order. A node with a null list keeps its follow-ups. |
| `TestChainEditorUtilities.ReorderAndRebuild` | CombatDesignerTest/Assets/CombatDesigner/Tools/ChainEditor/Editor/Utils/ChainEditorUtilities.cs:166-171 | One pass of the loop body: the edge list is reordered by priority, then the follow-ups become the ids of the reordered edges. |
| `ChainGraph.FollowUpsInPriorityOrderFromSorted` | CombatDesignerTest/Assets/CombatDesigner/Tools/ChainEditor/Editor/Utils/ChainEditorUtilities.cs:166-171 | When the follow-ups resolve and every edge list is sorted, each node's follow-ups name nodes in ascending priority. |
| `TestChainEditorUtilities.DeleteNode` | CombatDesignerTest/Assets/CombatDesigner/Tools/ChainEditor/Editor/Utils/ChainEditorUtilities.cs:116-134 | An index outside the list changes nothing. A valid index on a well-formed graph has these effects: <ul><li>The node is cut out of the list and every other node keeps its order.</li><li>Every survivor's edge list is its old one with the node removed, then reordered by priority.</li><li>No edge points at the deleted node.</li><li>The graph stays well-formed.</li><li>Ids are `0..Count-1`.</li><li>Every follow-up is a valid new position of the node its edge points at.</li><li>Each node's follow-ups are in ascending priority.</li></ul> |
| `ChainGraph.CleanupAndReorderKeepsWellFormed` | CombatDesignerTest/Assets/CombatDesigner/Tools/ChainEditor/Editor/Utils/ChainEditorUtilities.cs:125-127 | Giving each survivor its former edge list purged and reordered keeps the graph well-formed. Every edge list is priority-sorted and none points at the deleted node. |
| `ChainGraph.ReorderedDeletionConsistent` | CombatDesignerTest/Assets/CombatDesigner/Tools/ChainEditor/Editor/Utils/ChainEditorUtilities.cs:124-127 | After the purge, reorder, renumber and rebuild, the graph is well-formed. Its follow-ups resolve to positions in ascending priority, and no edge points at the deleted node. |

## Left out

- Unity plumbing is not modelled: `AssetDatabase`, `EditorUtility.SetDirty`, `Debug.Log`, `Object.DestroyImmediate` and the window lookup. None of them change the graph's lists or fields as the editor reads them.
- The confirmation dialog of `UpdateGraphToModel` is modelled as the `confirmed` parameter.
- Node positions (`nodeRect`, the `pos` argument) are not modelled: they are float layout data and no operation reads them.
- `ChainGraph.ChainBehaviorNode.InitNode`: its body is outside this model. The model assumes it writes only the new node's `id`, `behavior`, `outputNodes` and `followUps`; the values it writes are the `NodeInit` parameter. It is assumed to leave `nodeName`, `name`, `isRoot` and `priority` alone, not to add the node to `graph.nodes`, and not to touch other nodes. `CreateNode`'s display-name and "grows by exactly one" results depend on that frame. `InitGraph` is not part of this model.
- `priority` is set in the Inspector and never written by these utilities. Here it is a constant fixed when the node is created.
- Nodes have a single outgoing edge list. The `output` object that holds it in C# is taken to be non-null and owned by its node.
- `UpdateGraphToModel`: in C#, each baked entry shares the node's `followUps` list object. Here the entry holds a copy of its value, which is the same at the moment of baking; later aliasing is not captured.
- `DeleteNode`, both copies: a null graph (which the source skips) is not modelled, because the graph parameter is non-null. Null list entries, which the source's `deleteNode != null` test skips, and the cast to `ChainBehaviorNode` are not modelled either.
- `DeleteNode`, both copies: the graph must be well-formed on entry. This is a precondition the source does not state. It is needed for the node-list `Remove` to remove the indexed node, and for a single `Remove` per edge list to purge every edge.
- `CoreChainEditorUtilities.CreateNode`, `CoreChainEditorUtilities.RemoveNodeAndCleanUp`, `CoreChainEditorUtilities.PurgeEdges`, `CoreChainEditorUtilities.UpdateChainBehaviorNodeID`, `CoreChainEditorUtilities.UpdateFollowUps` and `TestChainEditorUtilities.UpdateFollowUps` require that no node is listed twice in `graph.nodes`; the C# runs on any list. A node listed twice is not modelled. The C# would give such a node the id of its last position (Core lines 199-205), and it would remove `deleteNode` twice from that node's edge list (Core lines 184-191). The visible code keeps this condition: `CreateNode` only appends a fresh instance, and the cleanup only removes.
- `CoreChainEditorUtilities.UpdateGraphToModel` requires `graph.model != null`. In the C#, a null model throws a `NullReferenceException` while the dialog text is built (Core line 137). That exception path is not modelled.
- `CoreChainEditorUtilities.ReorderByPriority` requires a non-null edge list. In the C#, `OrderBy` throws on a null list (Core line 227, Test line 178). That exception path is not modelled. Its only caller, the Test copy's `UpdateFollowUps`, checks for null first.
- `CoreChainEditorUtilities.FindLastIndex` works on a Dafny `string`, a sequence of Unicode scalar values; a C# `char` is one UTF-16 code unit. On a string with a character outside the Basic Multilingual Plane, every index after that character is one smaller than the C# result (for `"😀/"` and `'/'`, C# gives 2 and the model 1). A lone surrogate cannot be searched for at all. The ".asset" rule is unaffected, because it is an ordinal match of an ASCII substring.
- `TestChainEditorUtilities.DeleteNode` does not state that nodes without an edge list keep their follow-ups. `TestChainEditorUtilities.UpdateFollowUps` does state it.
- `CreateNewGraph` is modelled only for its ".asset" rule. The save panel, the asset creation and the initial root node are not modelled.
- `LoadGraph`, `UnloadGraph`, `cachedPath`, `DrawGrid`, `MakeTex`, the zoom helpers, `RepaintInspector` and the popup window are not modelled: they are editor I/O, floating-point drawing and reflection.
- `FindLastIndex` exists only in the Core copy, so it appears once.
- `CoreChainEditorUtilities.UpdateChainBehaviorNodeID` does not state idempotence as an ensures of its own. `Numbered` together with the frame fixes every id to its position, so a second call writes the same values.
- Concurrency and the editor's repaint cycle are not modelled: the editor runs these operations one at a time on the main thread.

## Findings

| source | as written | input that shows it | evidently intended | confidence | as-written member | corrected member |
|---|---|---|---|---|---|---|
| CombatDesigner/Assets/CombatDesigner/Core/Scripts/_EditorTools/ChainEditor/Editor/Utils/ChainEditorUtilities.cs:155 | `DeleteNode` guards the lookup with `graph.nodes.Count >= nodeIndex`; the Test copy has the same guard at line 120 | `nodeIndex == graph.nodes.Count`, or `nodeIndex == -1`: the guard passes and `graph.nodes[nodeIndex]` is out of range | act only when `0 <= nodeIndex < graph.nodes.Count` | not executed | `ChainGraph.DeleteGuardAsWrittenAdmitsOutOfRange` | `CoreChainEditorUtilities.DeleteNode` |
