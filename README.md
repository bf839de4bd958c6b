# Node-based editor: graph bookkeeping

A Dafny model of the connection-graph bookkeeping of `NodeBasedEditor`, the
editor window of a visual node-graph editor. The window keeps a list of
nodes and a list of connections. It also keeps two pending endpoints,
`selectedInPoint` and `selectedOutPoint`, which hold a half-built connection.
Its handlers do the following:

- add a node of either variant;
- record a clicked connection point as pending;
- complete a connection when the other side is already pending and the two
  points belong to different nodes;
- remove a single connection;
- remove a node, first cascading to every connection attached to the node's
  first in-point or first out-point;
- clear the pending selection on a left-button press.

Files:

- `graph.dfy` (module `Graph`): the values kept in the lists and the list
  operations the handlers use. The lemmas about these functions are also
  here.
  - `RemoveFirst` is `List<T>.Remove`.
  - `RemoveAll` calls it once for each element of a list.
  - `Touching` and `Surviving` split the connection list by the source's
    cascade test.
  - `SkipTouching` describes the connection list part-way through the
    cascade's removal loop.
  - `FreshNodes`, `FreshConnections` and `NoSelfLoop` are the list-level
    parts of the window's invariant.
- `editor.dfy` (module `Editor`): the class `NodeBasedEditor`. Its fields are
  the window's fields, and its methods are the window's handlers, written as
  the source writes them. The cascade keeps its two index loops. The
  collecting loop is the method `CollectConnectionsToRemove`, and the removal
  loop stays in `OnClickRemoveNode`. The removal loop is proved against
  `RemoveAll`, and the lemma `RemoveAllTouching` ties the two loops to
  `Surviving`. The object invariant `Valid()` has three parts:
  - every node and connection in a list is a distinct object, and no two
    nodes (and no two connections) in a list share an identity;
  - no connection joins two points of one node;
  - at most one endpoint is pending.
- `scenarios.dfy` (module `Scenarios`): client methods that drive the handlers
  through whole interactions and state the observable outcome.

Identities: `Node`, `ConnectionPoint` and `Connection` are classes of the
system whose code is not part of this model, and they are compared by
reference. The model turns them into values that carry an identity:

- A node is `Node(id, kind, origin)`.
- A point is `Point(owner, side, index)`. `node.inPoint[0]` is
  `Point(node.id, In, 0)` and `node.outPoint[0]` is `Point(node.id, Out, 0)`.
- A connection is `Connection(id, inPoint, outPoint)`.

The window hands out identities from a counter, `nextId`, which stands for
allocating a new object. The object invariant says that an identity names
at most one node and at most one connection of the lists. Within a list,
reference equality is therefore value equality. `OnClickRemoveNode` also
requires that its argument is the node its identity names, when that node
is in the list: a node reference cannot name a different object.
A list field that may still be null is an `Option<seq<T>>`.

The handlers keep these details of the code:

- The cascade removes the connections attached to the node's *first*
  in-point or *first* out-point, not those attached to any of its points
  (see `Graph.CascadeChecksFirstPointsOnly`).
- Removing a node that is not in the list still runs the cascade for it.
  Only the final `nodes.Remove` is a no-op.
- Clicking an in-point while another in-point is pending replaces the pending
  one. The same holds for out-points.
- Every left-button press that reaches the window's own event handling clears
  the pending selection, not only a press on empty canvas.

## Model

| member | source | states |
|---|---|---|
| `Editor.NodeBasedEditor.constructor` | unity_texture_packer/Assets/Editor/NodeBasedEditor.cs:9-13 | a new window has null node and connection lists and nothing pending, and satisfies the object invariant |
| `Editor.NodeBasedEditor.AddNode` | unity_texture_packer/Assets/Editor/NodeBasedEditor.cs:144-164 | creates the node list if it is null and appends exactly one new node, which differs from every node already there; the existing nodes, the connections and the selection are untouched |
| `Editor.NodeBasedEditor.OnClickAddNodeInput` | unity_texture_packer/Assets/Editor/NodeBasedEditor.cs:144-153 | appends one new Input node at the click position to the (lazily created) node list, and changes nothing else |
| `Editor.NodeBasedEditor.OnClickAddNodeOutput` | unity_texture_packer/Assets/Editor/NodeBasedEditor.cs:155-164 | appends one new Output node at the click position to the (lazily created) node list, and changes nothing else |
| `Editor.NodeBasedEditor.OnClickInPoint` | unity_texture_packer/Assets/Editor/NodeBasedEditor.cs:166-182 | with no out-point pending, the clicked in-point becomes pending and the connections are unchanged; with an out-point of another node pending, exactly one connection (in, out) is appended and both selections end null; with an out-point of the same node pending, no connection is made and both end null; the invariant (including at most one pending point and no self-loop) is kept |
| `Editor.NodeBasedEditor.OnClickOutPoint` | unity_texture_packer/Assets/Editor/NodeBasedEditor.cs:184-200 | the mirror image of OnClickInPoint: pending out-point, or exactly one connection appended when the pending in-point's owner differs, or rejection with both selections cleared |
| `Editor.NodeBasedEditor.CreateConnection` | unity_texture_packer/Assets/Editor/NodeBasedEditor.cs:226-232 | creates the connection list if it is null and appends one new connection from the selected in-point to the selected out-point, without comparing their owners |
| `Editor.NodeBasedEditor.ClearConnectionSelection` | unity_texture_packer/Assets/Editor/NodeBasedEditor.cs:234-238 | both pending endpoints become null and both lists are unchanged |
| `Editor.NodeBasedEditor.CollectConnectionsToRemove` | unity_texture_packer/Assets/Editor/NodeBasedEditor.cs:206-210 | the first loop collects exactly the connections that touch the node's inPoint[0] or outPoint[0], in list order |
| `Editor.NodeBasedEditor.OnClickRemoveNode` | unity_texture_packer/Assets/Editor/NodeBasedEditor.cs:202-219 | the connection list becomes exactly the connections that do not touch the node's inPoint[0] or outPoint[0], in their original order; the node list loses the first occurrence of the node and nothing else, so the node is gone; no remaining connection touches the node and no remaining node has its identity; the selection is unchanged; the invariant is kept |
| `Editor.NodeBasedEditor.OnClickRemoveConnection` | unity_texture_packer/Assets/Editor/NodeBasedEditor.cs:221-224 | the connection list loses the first occurrence of the connection, keeping the others in order (a no-op when it is absent), so the connection is gone; nodes and selection are unchanged |
| `Editor.NodeBasedEditor.ProcessEvents` | unity_texture_packer/Assets/Editor/NodeBasedEditor.cs:60-79 | a left-button press clears both pending endpoints and any other event leaves them as they are; a right-button press offers the context menu at the pointer; neither list changes |
| `Editor.NodeBasedEditor.ChooseContextMenuItem` | unity_texture_packer/Assets/Editor/NodeBasedEditor.cs:125-131 | "Add Input" appends a new Input node and "Add Output" a new Output node at the position the caller passes, which is the one ProcessEvents returned when it opened the menu (see `Scenarios.ContextMenuAddsAtPress`) |
| `Graph.DistinctAppend` | unity_texture_packer/Assets/Editor/NodeBasedEditor.cs:149 | appending an object that is not in a duplicate-free list keeps it duplicate-free |
| `Graph.AppendFreshNode` | unity_texture_packer/Assets/Editor/NodeBasedEditor.cs:144-164 | a node with a new identity is not yet in the list, and appending it keeps every node a distinct object with an identity of its own |
| `Graph.AppendFreshConnection` | unity_texture_packer/Assets/Editor/NodeBasedEditor.cs:226-232 | a connection with a new identity is not yet in the list; appending it keeps the connections distinct with identities of their own, and keeps them free of self-loops when its points have different owners |
| `Graph.FirstIndex` | unity_texture_packer/Assets/Editor/NodeBasedEditor.cs:223 | the index List.Remove acts on holds an element equal to the argument, with no equal element before it |
| `Graph.RemoveFirstSpec` | unity_texture_packer/Assets/Editor/NodeBasedEditor.cs:223 | List.Remove(x) is the list with the element at the first index of x cut out, and the list itself when x is absent |
| `Graph.RemoveFirstAt` | unity_texture_packer/Assets/Editor/NodeBasedEditor.cs:223 | after Remove, elements before the removed one keep their index and the later ones move down by one |
| `Graph.RemoveFirstSubset` | unity_texture_packer/Assets/Editor/NodeBasedEditor.cs:223 | Remove shortens the list by one exactly when x is present and introduces no element |
| `Graph.RemoveFirstDistinct` | unity_texture_packer/Assets/Editor/NodeBasedEditor.cs:218 | on a list of distinct objects Remove takes the object out completely and the list stays duplicate-free |
| `Graph.RemoveKeepsFreshNodes` | unity_texture_packer/Assets/Editor/NodeBasedEditor.cs:218 | removing a node keeps the node list's objects and identities distinct and takes the node out of the list; when the node is the one its identity names, no node with that identity remains |
| `Graph.RemoveKeepsConnections` | unity_texture_packer/Assets/Editor/NodeBasedEditor.cs:221-224 | removing a connection keeps the connections distinct and free of self-loops, and takes the connection out of the list |
| `Graph.RemoveAppended` | unity_texture_packer/Assets/Editor/NodeBasedEditor.cs:218 | removing a freshly appended node gives back the list as it was before the add |
| `Graph.TouchingMembers` | unity_texture_packer/Assets/Editor/NodeBasedEditor.cs:208-210 | the collected connections are exactly those in the list whose in-point is the node's inPoint[0] or whose out-point is its outPoint[0] |
| `Graph.SurvivingMembers` | unity_texture_packer/Assets/Editor/NodeBasedEditor.cs:202-216 | the surviving connections are exactly those in the list that do not touch the node's first points |
| `Graph.CascadeChecksFirstPointsOnly` | unity_texture_packer/Assets/Editor/NodeBasedEditor.cs:209 | a connection attached to another in-point of the removed node, and to another node's out-point, is neither collected nor removed |
| `Graph.TouchingAppend` | unity_texture_packer/Assets/Editor/NodeBasedEditor.cs:208-210 | collecting over a concatenation collects over each part in turn, so the first loop builds its list one connection at a time |
| `Graph.SurvivingAppend` | unity_texture_packer/Assets/Editor/NodeBasedEditor.cs:202-216 | the cascade distributes over concatenation, so surviving connections keep their relative order |
| `Graph.TouchingSurvivingSplit` | unity_texture_packer/Assets/Editor/NodeBasedEditor.cs:208-213 | every connection is either collected or survives: the two counts add up to the list's length |
| `Graph.SurvivingUntouched` | unity_texture_packer/Assets/Editor/NodeBasedEditor.cs:204-216 | when no connection touches the node, the cascade leaves the connection list as it is |
| `Graph.SurvivingDistinct` | unity_texture_packer/Assets/Editor/NodeBasedEditor.cs:212-213 | the cascade keeps a list of distinct connections distinct |
| `Graph.CascadeKeepsConnections` | unity_texture_packer/Assets/Editor/NodeBasedEditor.cs:202-216 | after the cascade, the connections are still distinct and free of self-loops, and none touches the removed node's first points |
| `Graph.SkipNone` | unity_texture_packer/Assets/Editor/NodeBasedEditor.cs:212-213 | before the removal loop has run, the connection list is the original |
| `Graph.SkipStep` | unity_texture_packer/Assets/Editor/NodeBasedEditor.cs:212-213 | one Remove of the k-th collected connection takes out exactly the k-th touching connection of the original list and nothing else |
| `Graph.SkipAll` | unity_texture_packer/Assets/Editor/NodeBasedEditor.cs:212-213 | once every collected connection is removed, what is left is exactly the surviving connections |
| `Graph.RemoveAllFrom` | unity_texture_packer/Assets/Editor/NodeBasedEditor.cs:212-213 | from any point of the removal loop, removing the collected connections still to go leaves exactly the surviving connections |
| `Graph.RemoveAllTouching` | unity_texture_packer/Assets/Editor/NodeBasedEditor.cs:206-213 | the two loops together: removing one by one every connection the first loop collected leaves exactly the connections that do not touch the node, in their original order |
| `Scenarios.ConnectThenRemoveNode` | unity_texture_packer/Assets/Editor/NodeBasedEditor.cs:166-219 | adding two nodes, clicking the first's out-point and the second's in-point makes one connection; removing the first node leaves one node and no connection |
| `Scenarios.SameNodeClickRejected` | unity_texture_packer/Assets/Editor/NodeBasedEditor.cs:184-198 | clicking a node's in-point and then its own out-point makes no connection and leaves nothing pending |
| `Scenarios.AddTwiceSamePosition` | unity_texture_packer/Assets/Editor/NodeBasedEditor.cs:144-153 | two adds at the same position give two different nodes |
| `Scenarios.LeftClickCancelsPending` | unity_texture_packer/Assets/Editor/NodeBasedEditor.cs:66-68 | a pending in-point is dropped by a left-button press |
| `Scenarios.ContextMenuAddsAtPress` | unity_texture_packer/Assets/Editor/NodeBasedEditor.cs:70-71 | a right-button press at a position, followed by "Add Input", gives one Input node created at that position |

## Left out

- Editor.NodeBasedEditor.ProcessEvents: the MouseDrag branch (OnDrag, lines 133-142) is not modelled. That branch moves every node's rectangle through `Node.Drag` and records the drag delta. Both are floating-point geometry held in the node class and in the `drag` and `offset` fields. The model leaves the lists and the selection unchanged on a drag, which matches the source, because the lists hold the same node objects.
- Editor.NodeBasedEditor.OnClickRemoveNode: requires the node list to exist. The source would throw a null-reference exception at line 218 otherwise. The handler is only installed on nodes that live in that list, so the list exists whenever it is called.
- Editor.NodeBasedEditor.OnClickRemoveNode: requires that any listed node with the argument's identity is the argument itself. In the source the argument is a node reference, so it cannot name one object while carrying another's identity.
- Editor.NodeBasedEditor.OnClickRemoveConnection: requires the connection list to exist, because the source would throw at line 223 otherwise. Only a connection in that list can call this handler.
- Every node is assumed to have an `inPoint[0]` and an `outPoint[0]`. `Node`, `NodeInput`, `NodeOutput`, `ConnectionPoint` and `Connection` are not part of this model. If a node had an empty point collection, line 209 would throw; that path is not modelled.
- Where a clicked point comes from is not modelled. The unseen node classes decide which point reports a click to which handler. The handlers accept any point, as the source's do.
- Callbacks: the source passes the handlers to nodes and connections as delegates. The model calls the handlers directly instead.
- Rendering is not modelled: `OnGUI`, `DrawNodes`, `DrawConnections`, `DrawConnectionLine` (the Bezier curve to the pointer), `DrawGrid` and the `GUI.changed`/`Repaint` invalidation. These are immediate-mode drawing in the host toolkit.
- `ProcessNodeEvents` is not modelled. It hands each event to the unseen `Node.ProcessEvents`.
- Window and menu registration are not modelled: `OpenWindow`, `OnEnable`, `NodeStyle`, and the `GenericMenu` object itself. Only the menu's effect is modelled: ProcessEvents returns where the menu opens, and ChooseContextMenuItem performs the chosen entry.
