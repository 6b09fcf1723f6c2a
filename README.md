# Room node graph editor — a verified model

This project models the room node graph editor of the Dungeon Gunner Unity project. The editor
is a window where a designer builds a directed graph of rooms. Each room is a `RoomNodeSO`
object that holds an id, a type, a rectangle on the canvas, selection and drag flags, and two
adjacency lists: the ids of its parents and the ids of its children. The window
(`RoomNodeGraphEditor`) turns mouse events into changes to these objects:

- it picks the node under the pointer;
- it passes the event to that node or to the canvas;
- it links two nodes when a right-button line drag ends over a node;
- it clears selections and the line being dragged;
- it creates nodes from the context menu, with an entrance node first when the graph is empty.

The model keeps the source's imperative shape. `NodeGraph.RoomNode`, `NodeGraph.RoomNodeGraph` and
`NodeGraphEditor.RoomNodeGraphEditor` are classes whose methods update fields in place, under
`modifies` clauses that name single fields. Each object has a `View` (or `State`) that
maps it to a value of module `GraphModel` or `RoomNodeView`. The `ensures` of every
state-changing method give its new state exactly. The small handlers (`DragNode`,
`ProcessLeftClickDownEvent`, `DragConnectingLine` and the like) state their new field values
directly. The event handlers and node creation instead give the new value through a function
of `GraphModel` or `RoomNodeView`. The lemmas about those functions state what the editor
guarantees:

- a link is always recorded on both sides, with no check of any kind;
- across any sequence of events and creations in which each creation draws two distinct new
  ids, node ids stay unique, every recorded link appears as often in child lists as in parent
  lists, and no list names a missing node;
- the hit test finds the last node in the list whose rectangle contains the pointer;
- selection toggles on each left press, and the drag flag follows the last drag or left release;
- starting from an empty graph, the first node always has the entrance type.

Modules, in dependency order:

| file | module | contents |
|---|---|---|
| wrappers.dfy | Wrappers | `Option` |
| unity_types.dfy | UnityTypes | `Vector2`, `Rect`, `Rect.Contains`, input events |
| room_node_types.dfy | RoomNodeTypes | room node types and `List.Find` over them |
| room_node_view.dfy | RoomNodeView | a node's value and its own mouse handlers |
| graph_model.dfy | GraphModel | the graph and editor as values, and every editor operation on them |
| node_graph.dfy | NodeGraph | classes `RoomNode` and `RoomNodeGraph` |
| node_graph_editor.dfy | NodeGraphEditor | class `RoomNodeGraphEditor` |

Two behaviours of the code shape the model:

- No link is ever rejected. `AddChildRoomIDToRoomNode` and `AddParentRoomIDToRoomNode` append
  unconditionally and return `true`, so duplicate links, self-links and several parents are
  all recorded. The invariant proved is the one the code keeps: links are mirrored between
  child and parent lists, and no id dangles.
- On an empty graph, creation adds two nodes. First comes an entrance node at (200, 200). Then
  comes a "none" node at the pointer (`GraphModel.CreateOnEmptyGraph`).

## Model

| member | source | states |
|---|---|---|
| RoomNodeTypes.FindFirst | Assets/Scripts/NodeGraph/Editor/RoomNodeGraphEditor.cs:213-216 | `List.Find`: nothing exactly when no type matches; otherwise a matching type at some index with no match before it |
| RoomNodeView.AfterEvent | Assets/Scripts/NodeGraph/RoomNodeSO.cs:76-160 | a node's own event handlers never change its id, type, or parent and child lists |
| RoomNodeView.RunKeepsLinks | Assets/Scripts/NodeGraph/RoomNodeSO.cs:76-160 | after any sequence of events a node still has its id, type and both adjacency lists |
| RoomNodeView.SelectionParity | Assets/Scripts/NodeGraph/RoomNodeSO.cs:108-113 | after any events, a node is selected iff its initial selection was flipped an odd number of times, once per left press |
| RoomNodeView.DoubleLeftClickRestoresSelection | Assets/Scripts/NodeGraph/RoomNodeSO.cs:108-113 | two left presses in a row give back the original selection |
| RoomNodeView.DraggingFollowsLastSignal | Assets/Scripts/NodeGraph/RoomNodeSO.cs:126-151 | the drag flag equals what the last drag (true) or left release (false) said, or its initial value if neither occurred |
| RoomNodeView.DragThenLeftReleaseClears | Assets/Scripts/NodeGraph/RoomNodeSO.cs:135-151 | a drag sets the drag flag, and a left release right after it clears it |
| NodeGraph.RoomNode.constructor | Assets/Scripts/NodeGraph/RoomNodeSO.cs:8-19 | a new node has empty parent and child lists, no graph and no type, and is neither selected nor dragged |
| NodeGraph.RoomNode.Initialize | Assets/Scripts/NodeGraph/RoomNodeSO.cs:23-33 | the node gets the given rectangle, graph, type and type catalogue, the given id (standing for a new GUID), and the name "RoomNode" |
| NodeGraph.RoomNode.GetRoomNodeTypesToDisplay | Assets/Scripts/NodeGraph/RoomNodeSO.cs:38-51 | the array has one entry per catalogue type; entry i is type i's name when that type is displayed in the editor, and empty (null) otherwise |
| NodeGraph.RoomNode.ProcessEvents | Assets/Scripts/NodeGraph/RoomNodeSO.cs:76-92 | the node's value changes as `AfterEvent` says; the whole graph changes as `NodeEvent` says at this node's position (a right press also starts a line from this node); the graph stays valid |
| NodeGraph.RoomNode.ProcessMouseDownEvent | Assets/Scripts/NodeGraph/RoomNodeSO.cs:94-103 | a left press toggles selection; a right press starts the line at this node and the pointer; other buttons change nothing |
| NodeGraph.RoomNode.ProcessLeftClickDownEvent | Assets/Scripts/NodeGraph/RoomNodeSO.cs:108-113 | selection is flipped |
| NodeGraph.RoomNode.ProcessRightClickDownEvent | Assets/Scripts/NodeGraph/RoomNodeSO.cs:118-121 | the graph's line now starts at this node, with its loose end at the pointer |
| NodeGraph.RoomNode.ProcessMouseUpEvent | Assets/Scripts/NodeGraph/RoomNodeSO.cs:126-130 | only a left release changes the node: it ends a drag |
| NodeGraph.RoomNode.ProcessLeftClickUpEvent | Assets/Scripts/NodeGraph/RoomNodeSO.cs:135-141 | afterwards the node is not being dragged |
| NodeGraph.RoomNode.ProcessMouseDragEvent | Assets/Scripts/NodeGraph/RoomNodeSO.cs:146-151 | a drag of any button marks the node as dragged and moves its rectangle by the delta |
| NodeGraph.RoomNode.DragNode | Assets/Scripts/NodeGraph/RoomNodeSO.cs:156-160 | the rectangle's position moves by the delta; its size is unchanged |
| NodeGraph.RoomNode.AddChildRoomIDToRoomNode | Assets/Scripts/NodeGraph/RoomNodeSO.cs:165-169 | returns true for any id, including a duplicate or the node's own id; the child list becomes the old list with the id at the end; every other field is unchanged; in the graph only this node's value changes |
| NodeGraph.RoomNode.AddParentRoomIDToRoomNode | Assets/Scripts/NodeGraph/RoomNodeSO.cs:171-175 | returns true for any id; the parent list becomes the old list with the id at the end; the child list and every other field are unchanged; in the graph only this node's value changes |
| GraphModel.ConnectAt | Assets/Scripts/NodeGraph/Editor/RoomNodeGraphEditor.cs:163-166 | linking keeps the number of nodes and every node's id and type; its full effect is stated by `ConnectAppendsBothLinks` |
| GraphModel.TopMost | Assets/Scripts/NodeGraph/Editor/RoomNodeGraphEditor.cs:87-97 | a found position holds a node containing the point with no later node containing it; nothing is found only when no node contains the point |
| GraphModel.ClearSelection | Assets/Scripts/NodeGraph/Editor/RoomNodeGraphEditor.cs:294-303 | same number of nodes, none selected, and each keeps its id, type and both adjacency lists |
| GraphModel.ClearLine | Assets/Scripts/NodeGraph/Editor/RoomNodeGraphEditor.cs:286-290 | no line start, the loose end at zero, and the nodes unchanged |
| GraphModel.CanvasMouseDown | Assets/Scripts/NodeGraph/Editor/RoomNodeGraphEditor.cs:112-124 | a left press ends the line and leaves no node selected; any other button changes nothing |
| GraphModel.CanvasMouseUp | Assets/Scripts/NodeGraph/Editor/RoomNodeGraphEditor.cs:153-171 | a right release during a line drag always ends the line and zeroes its end; any other release changes nothing; the node count is kept |
| GraphModel.CanvasMouseDrag | Assets/Scripts/NodeGraph/Editor/RoomNodeGraphEditor.cs:176-195 | a canvas drag changes neither the nodes nor the line's start, and changes nothing at all when no line is dragged |
| GraphModel.CanvasEvent | Assets/Scripts/NodeGraph/Editor/RoomNodeGraphEditor.cs:129-148 | a canvas event keeps the node count and leaves the line's start, if any, at a node of the graph |
| GraphModel.NodeEvent | Assets/Scripts/NodeGraph/RoomNodeSO.cs:76-121 | only node k changes, and no node's id, type or adjacency changes; a right press starts the line at k and the pointer, any other event leaves the line as it was |
| GraphModel.CurrentAfter | Assets/Scripts/NodeGraph/Editor/RoomNodeGraphEditor.cs:69-72 | the new current node, if any, is a node of the graph; which one is stated by `RoutingRule` |
| GraphModel.Dispatch | Assets/Scripts/NodeGraph/Editor/RoomNodeGraphEditor.cs:74-81 | dispatching keeps the node count and the line's start in range; the routing itself is stated by `RoutingRule` |
| GraphModel.EditorStep | Assets/Scripts/NodeGraph/Editor/RoomNodeGraphEditor.cs:67-82 | one event keeps the node count and every index the editor holds in range |
| GraphModel.CreateOfType | Assets/Scripts/NodeGraph/Editor/RoomNodeGraphEditor.cs:222-241 | exactly one node, with the given id and type, is appended after the unchanged old nodes; the line is untouched |
| GraphModel.Create | Assets/Scripts/NodeGraph/Editor/RoomNodeGraphEditor.cs:208-217 | two nodes are appended to an empty graph and one to any other, after the unchanged old nodes; the last has the first "none" type, and on an empty graph the first has the first entrance type |
| GraphModel.ConnectAppendsBothLinks | Assets/Scripts/NodeGraph/Editor/RoomNodeGraphEditor.cs:160-166 | linking s to n appends n's id to s's children and s's id to n's parents, even when s = n; other nodes and fields are unchanged |
| GraphModel.ConnectAddsOneEdge | Assets/Scripts/NodeGraph/Editor/RoomNodeGraphEditor.cs:163-166 | linking adds the link (s, n) exactly once to the links recorded on the child side and once to those on the parent side |
| GraphModel.ConnectKeepsClosed | Assets/Scripts/NodeGraph/Editor/RoomNodeGraphEditor.cs:163-166 | if every id in every adjacency list names a node, that still holds after linking two nodes of the graph |
| GraphModel.ConnectKeepsInvariant | Assets/Scripts/NodeGraph/Editor/RoomNodeGraphEditor.cs:163-166 | linking two nodes keeps ids unique, links mirrored between child and parent lists, and no id dangling |
| GraphModel.ClearSelectionSpec | Assets/Scripts/NodeGraph/Editor/RoomNodeGraphEditor.cs:294-303 | after clearing, no node is selected and every node equals its old value except for the selection flag |
| GraphModel.TopMostIsHighestHit | Assets/Scripts/NodeGraph/Editor/RoomNodeGraphEditor.cs:87-97 | the hit test gives k iff node k contains the point and no later node does; it gives nothing iff no node contains the point |
| GraphModel.CanvasPressEffects | Assets/Scripts/NodeGraph/Editor/RoomNodeGraphEditor.cs:112-124 | a left press on the canvas ends the line and deselects every node, changing nothing else; a right press changes no graph state |
| GraphModel.LineReleaseOverNodeConnects | Assets/Scripts/NodeGraph/Editor/RoomNodeGraphEditor.cs:153-171 | a right release over node k during a line drag from s links s to k on both sides, clears the line and zeroes its end |
| GraphModel.LineReleaseOverCanvasChangesNoNode | Assets/Scripts/NodeGraph/Editor/RoomNodeGraphEditor.cs:153-171 | a right release over no node during a line drag leaves every node as it was and clears the line |
| GraphModel.LineDragRoutesToCanvas | Assets/Scripts/NodeGraph/Editor/RoomNodeGraphEditor.cs:74-81 | while a line is dragged, every event goes to the canvas, even one over a node |
| GraphModel.DraggedNodeKeepsEvents | Assets/Scripts/NodeGraph/Editor/RoomNodeGraphEditor.cs:69-81 | a node being left-dragged stays current and gets the event, even when the pointer has left it |
| GraphModel.RoutingRule | Assets/Scripts/NodeGraph/Editor/RoomNodeGraphEditor.cs:69-81 | the event goes to the canvas exactly when no node is current or a line is dragged, and to the current node otherwise; the current node is re-picked by hit test unless it is being left-dragged |
| GraphModel.StepKeepsInvariant | Assets/Scripts/NodeGraph/Editor/RoomNodeGraphEditor.cs:67-82 | every event keeps ids unique, links mirrored, no id dangling, and the editor's indices in range |
| GraphModel.RunKeepsInvariant | Assets/Scripts/NodeGraph/Editor/RoomNodeGraphEditor.cs:353-375 | the same holds after any sequence of events, one per OnGUI call |
| GraphModel.StepKeepsTypes | Assets/Scripts/NodeGraph/Editor/RoomNodeGraphEditor.cs:67-82 | no event changes any node's type |
| GraphModel.CreateOnEmptyGraph | Assets/Scripts/NodeGraph/Editor/RoomNodeGraphEditor.cs:208-217 | on an empty graph, creation gives exactly two nodes: the first catalogue entrance type at (200, 200), then the first "none" type at the pointer, both with empty lists |
| GraphModel.CreateOnNonEmptyGraph | Assets/Scripts/NodeGraph/Editor/RoomNodeGraphEditor.cs:208-233 | on a non-empty graph, creation appends one "none" node at the end and leaves the existing nodes and the line as they were |
| GraphModel.CreateOfTypeKeepsInvariant | Assets/Scripts/NodeGraph/Editor/RoomNodeGraphEditor.cs:222-241 | appending a node under a fresh id keeps the invariant, and every existing id is still present |
| GraphModel.CreateKeepsInvariant | Assets/Scripts/NodeGraph/Editor/RoomNodeGraphEditor.cs:208-217 | creation under two distinct fresh ids keeps the invariant |
| GraphModel.ActionsKeepInvariant | Assets/Scripts/NodeGraph/Editor/RoomNodeGraphEditor.cs:67-241 | across any mix of events and creations, each creation with two distinct new ids, ids stay unique, links stay mirrored and no id dangles |
| GraphModel.EntranceStaysFirst | Assets/Scripts/NodeGraph/Editor/RoomNodeGraphEditor.cs:210-216 | from an empty graph, after any mix of events and creations, the first node has the catalogue's entrance type |
| NodeGraphEditor.RoomNodeGraphEditor.constructor | Assets/Scripts/NodeGraph/Editor/RoomNodeGraphEditor.cs:53-60 | the window opens on the given graph with no current node and the given type catalogue |
| NodeGraphEditor.RoomNodeGraphEditor.ProcessEvents | Assets/Scripts/NodeGraph/Editor/RoomNodeGraphEditor.cs:67-82 | the editor's state (graph value and current node) changes exactly as `EditorStep` says; the heap stays valid |
| NodeGraphEditor.RoomNodeGraphEditor.SelectCurrentRoomNode | Assets/Scripts/NodeGraph/Editor/RoomNodeGraphEditor.cs:69-72 | the current node becomes the hit-test result unless it is being left-dragged; the graph is unchanged |
| NodeGraphEditor.RoomNodeGraphEditor.DispatchEvent | Assets/Scripts/NodeGraph/Editor/RoomNodeGraphEditor.cs:74-81 | the graph changes as the canvas handlers say when no node is current or a line is dragged, and as the current node's handlers say otherwise |
| NodeGraphEditor.RoomNodeGraphEditor.IsMouseOverRoomNode | Assets/Scripts/NodeGraph/Editor/RoomNodeGraphEditor.cs:87-97 | returns the node at the position `TopMost` finds (the last node containing the pointer), or null when no node contains it |
| NodeGraphEditor.RoomNodeGraphEditor.ProcessRoomNodeGraphEvents | Assets/Scripts/NodeGraph/Editor/RoomNodeGraphEditor.cs:129-148 | a press, release or drag goes to its canvas handler; any other event kind changes nothing |
| NodeGraphEditor.RoomNodeGraphEditor.ProcessMouseDownEvent | Assets/Scripts/NodeGraph/Editor/RoomNodeGraphEditor.cs:112-124 | a left press clears the line and every selection; a right press (context menu) changes no graph state |
| NodeGraphEditor.RoomNodeGraphEditor.ProcessMouseUpEvent | Assets/Scripts/NodeGraph/Editor/RoomNodeGraphEditor.cs:153-171 | a right release during a line drag links the line's start to the node under the pointer, if any, and then clears the line; any other release changes nothing |
| NodeGraphEditor.RoomNodeGraphEditor.ConnectRoomNodes | Assets/Scripts/NodeGraph/Editor/RoomNodeGraphEditor.cs:160-166 | both appends always happen: the node values become `ConnectAt` of the old ones at the two nodes' positions |
| NodeGraphEditor.RoomNodeGraphEditor.ProcessMouseDragEvent | Assets/Scripts/NodeGraph/Editor/RoomNodeGraphEditor.cs:176-183 | only a right drag during a line drag changes anything: it moves the line's loose end |
| NodeGraphEditor.RoomNodeGraphEditor.ProcessRightMouseDragEvent | Assets/Scripts/NodeGraph/Editor/RoomNodeGraphEditor.cs:188-195 | the loose end moves by the delta when a line is dragged, and stays put otherwise |
| NodeGraphEditor.RoomNodeGraphEditor.DragConnectingLine | Assets/Scripts/NodeGraph/Editor/RoomNodeGraphEditor.cs:200-203 | the loose end moves by the delta |
| NodeGraphEditor.RoomNodeGraphEditor.CreateRoomNode | Assets/Scripts/NodeGraph/Editor/RoomNodeGraphEditor.cs:208-217 | the graph becomes `Create` of the old graph; the old node list is a strict prefix of the new one; a graph that met the invariant still meets it |
| NodeGraphEditor.RoomNodeGraphEditor.CreateRoomNodeOfType | Assets/Scripts/NodeGraph/Editor/RoomNodeGraphEditor.cs:222-241 | the list becomes the old list followed by one newly allocated node, which the method hands back to its caller. It has the given type, the rectangle at the pointer with the node size, empty lists and the given id. It belongs to this graph and carries the editor's type catalogue |
| NodeGraphEditor.RoomNodeGraphEditor.ClearLineDrag | Assets/Scripts/NodeGraph/Editor/RoomNodeGraphEditor.cs:286-290 | no line start and the loose end at zero; nothing else changes |
| NodeGraphEditor.RoomNodeGraphEditor.ClearAllSelectedRoomNodes | Assets/Scripts/NodeGraph/Editor/RoomNodeGraphEditor.cs:294-303 | every node is deselected and nothing else about any node, or about the graph, changes |

## Left out

- Drawing: `Draw`, `DrawRoomNodes`, `DrawDraggedLine`, `DrawRoomNodeConnections`, `DrawConnectionLine`, the GUI styles set up in `OnEnable`, `Repaint` and `GUI.changed`. They produce pixels, not graph state.
- The type popup in `RoomNodeSO.Draw`, which can change a node's type. It is GUI code and is not among the modelled operations. So `GraphModel.EntranceStaysFirst` covers events and creations only.
- Floating point: positions and sizes are exact reals. Single-precision rounding in `DragNode`, `DragConnectingLine` and `Rect.Contains` is not modelled.
- `Rect.Contains` is modelled as Unity defines it: the left and top edges are included, the right and bottom edges excluded.
- Unity host plumbing has no effect on the modelled state and is left out. This covers `AssetDatabase.AddObjectToAsset`/`SaveAssets`, `EditorUtility.SetDirty`, `Selection.activeObject`, `OpenWindow` and the `[OnOpenAsset]` lookup of the asset by instance id.
- `GameResources.Instance.roomNodeTypeList`: the singleton is replaced by a type catalogue passed to the editor's constructor and to `RoomNode.Initialize`.
- `Guid.NewGuid()`: new ids are parameters. `CreateRoomNode` requires them to be distinct and absent from the graph, as fresh GUIDs are in practice.
- `RoomNodeGraphSO` is not part of this model. Only the fields the editor uses (`roomNodeList`, `roomNodeToDrawLineFrom`, `linePosition`) are kept. `SetNodeToDrawConnectionLineFrom` is taken to set those two fields, as its name and its call site say. `OnValidate` and the id dictionary it rebuilds are left out.
- `ShowContextMenu`: the menu is host UI. Its single item calls `CreateRoomNode`, which is modelled, with the pointer position and two fresh ids.
- A window with no graph: `OnGUI` does nothing then. The model always has a graph, passed to the constructor. The static `currentRoomNodeGraph` is an instance constant here.
- `Settings.cs` holds a single constant that no modelled code reads.
- No connection-validity check exists in the modelled files, so the model has none.
- The adjacency invariant is not part of the classes' `Valid()`. It is proved over the values: `GraphModel.StepKeepsInvariant`, `GraphModel.RunKeepsInvariant`, `GraphModel.CreateKeepsInvariant` and `GraphModel.ActionsKeepInvariant`. The heap methods are tied to those values by their `ensures`, and `CreateRoomNode` carries it from the old graph to the new one.
- NodeGraph.RoomNode.GetRoomNodeTypesToDisplay does not state that the returned array is newly allocated. A C# `null` entry is `None`.
- NodeGraphEditor.RoomNodeGraphEditor.CreateRoomNode does not itself state that the appended nodes are newly allocated or how their graph, catalogue and name are set. `CreateRoomNodeOfType`, which it calls once or twice, states both for each node it appends. Restating them across the two calls puts this method's proof beyond the verifier's resource bound.
- NodeGraphEditor.RoomNodeGraphEditor.CreateRoomNodeOfType returns the node it creates, which the source's overload keeps in a local. The return value only serves to name that node in the contract.
