/**
 * The room node graph editor window (RoomNodeGraphEditor): it routes mouse events to the canvas
 * or to the node under the pointer, connects nodes on a right-button release, clears selections
 * and the connecting line, and creates nodes from the context menu. The ensures of every
 * state-changing method give its new state exactly: the event handlers and node creation through
 * a function of module GraphModel, the small handlers (DragConnectingLine and the like) by their
 * new field values.
 */
module NodeGraphEditor {
  import opened Wrappers
  import opened UnityTypes
  import opened RoomNodeTypes
  import opened RoomNodeView
  import opened GraphModel
  import opened NodeGraph

  class RoomNodeGraphEditor {
    const currentRoomNodeGraph: RoomNodeGraph
    var currentRoomNode: RoomNode?
    const roomNodeTypeList: seq<RoomNodeType>

    /** The graph is valid and the current node, if any, is one of its nodes. */
    ghost predicate Valid()
      reads this, currentRoomNodeGraph, currentRoomNodeGraph.roomNodeList
    {
      currentRoomNodeGraph.Valid() &&
      (currentRoomNode == null || currentRoomNode in currentRoomNodeGraph.roomNodeList)
    }

    ghost function State(): EditorState
      reads this, currentRoomNodeGraph, currentRoomNodeGraph.roomNodeList
    {
      EditorState(currentRoomNodeGraph.View(), IndexOf(currentRoomNodeGraph.roomNodeList, currentRoomNode))
    }

    /** The window opened on `graph` (OnDoubleClickAsset), with the type catalogue loaded (OnEnable). */
    constructor (graph: RoomNodeGraph, typeList: seq<RoomNodeType>)
      requires graph.Valid()
      ensures Valid()
      ensures currentRoomNodeGraph == graph && currentRoomNode == null && roomNodeTypeList == typeList
    {
      currentRoomNodeGraph := graph;
      currentRoomNode := null;
      roomNodeTypeList := typeList;
    }

    /** Routes one event; see GraphModel.EditorStep. */
    method ProcessEvents(currentEvent: Event)
      requires Valid()
      modifies this`currentRoomNode
      modifies currentRoomNodeGraph`roomNodeToDrawLineFrom, currentRoomNodeGraph`linePosition
      modifies currentRoomNodeGraph.roomNodeList`isSelected, currentRoomNodeGraph.roomNodeList`isLeftClickDragging, currentRoomNodeGraph.roomNodeList`rect
      modifies currentRoomNodeGraph.roomNodeList`childRoomNodeIDList, currentRoomNodeGraph.roomNodeList`parentRoomNodeIDList
      ensures Valid()
      ensures State() == EditorStep(old(State()), currentEvent)
    {
      SelectCurrentRoomNode(currentEvent);
      DispatchEvent(currentEvent);
    }

    /** The first half of ProcessEvents: unless the current node is being left-dragged, the node under the pointer becomes current. */
    method SelectCurrentRoomNode(currentEvent: Event)
      requires Valid()
      modifies this`currentRoomNode
      ensures Valid()
      ensures State() == old(State()).(current := CurrentAfter(old(State()), currentEvent))
    {
      var list := currentRoomNodeGraph.roomNodeList;
      ghost var st := State();
      assert WellFormed(st);
      if currentRoomNode == null || !currentRoomNode.isLeftClickDragging {
        currentRoomNode := IsMouseOverRoomNode(currentEvent);
        ghost var hit := TopMost(st.graph.nodes, currentEvent.mousePosition);
        if hit.Some? {
          IndexOfDistinct(list, hit.value);
        }
      } else {
        assert list[st.current.value] == currentRoomNode;
      }
    }

    /** The second half of ProcessEvents: the event goes to the canvas, or to the current node. */
    method DispatchEvent(currentEvent: Event)
      requires Valid()
      modifies currentRoomNodeGraph`roomNodeToDrawLineFrom, currentRoomNodeGraph`linePosition
      modifies currentRoomNodeGraph.roomNodeList`isSelected, currentRoomNodeGraph.roomNodeList`isLeftClickDragging, currentRoomNodeGraph.roomNodeList`rect
      modifies currentRoomNodeGraph.roomNodeList`childRoomNodeIDList, currentRoomNodeGraph.roomNodeList`parentRoomNodeIDList
      ensures Valid()
      ensures State() == old(State()).(graph := Dispatch(old(State()).graph, old(State()).current, currentEvent))
    {
      var graph := currentRoomNodeGraph;
      var list := graph.roomNodeList;
      ghost var st := State();
      assert WellFormed(st);
      if currentRoomNode == null || graph.roomNodeToDrawLineFrom != null {
        ProcessRoomNodeGraphEvents(currentEvent);
      } else {
        var node := currentRoomNode;
        var k := st.current.value;
        assert list[k] == node && node.roomNodeGraph == graph;
        node.ProcessEvents(currentEvent);
      }
      assert graph.roomNodeList == list;
    }

    /**
     * The node whose rectangle contains the pointer, searching from the end of the list (the
     * node drawn last, on top) back to the start; null when the pointer is over no node.
     */
    method IsMouseOverRoomNode(currentEvent: Event) returns (roomNode: RoomNode?)
      ensures roomNode == NodeAt(currentRoomNodeGraph.roomNodeList,
                                 TopMost(currentRoomNodeGraph.NodeViews(), currentEvent.mousePosition))
    {
      var list := currentRoomNodeGraph.roomNodeList;
      ghost var vs := currentRoomNodeGraph.NodeViews();
      var i := |list| - 1;
      assert vs[..i + 1] == vs;
      while i >= 0
        invariant -1 <= i < |list|
        invariant TopMost(vs, currentEvent.mousePosition)
               == TopMost(vs[..i + 1], currentEvent.mousePosition)
      {
        assert vs[..i + 1][..i] == vs[..i];
        if Contains(list[i].rect, currentEvent.mousePosition) {
          assert vs[..i + 1][i] == vs[i];
          return list[i];
        }
        i := i - 1;
      }
      return null;
    }

    method ProcessRoomNodeGraphEvents(currentEvent: Event)
      requires Valid()
      modifies currentRoomNodeGraph`roomNodeToDrawLineFrom, currentRoomNodeGraph`linePosition
      modifies currentRoomNodeGraph.roomNodeList`isSelected, currentRoomNodeGraph.roomNodeList`childRoomNodeIDList, currentRoomNodeGraph.roomNodeList`parentRoomNodeIDList
      ensures Valid()
      ensures currentRoomNodeGraph.View() == CanvasEvent(old(currentRoomNodeGraph.View()), currentEvent)
    {
      match currentEvent.kind
      case MouseDown => ProcessMouseDownEvent(currentEvent);
      case MouseUp => ProcessMouseUpEvent(currentEvent);
      case MouseDrag => ProcessMouseDragEvent(currentEvent);
      case Other =>
    }

    /** A press on empty canvas. The right button opens the context menu (host UI, no graph change). */
    method ProcessMouseDownEvent(currentEvent: Event)
      requires Valid()
      modifies currentRoomNodeGraph`roomNodeToDrawLineFrom, currentRoomNodeGraph`linePosition
      modifies currentRoomNodeGraph.roomNodeList`isSelected
      ensures Valid()
      ensures currentRoomNodeGraph.View() == CanvasMouseDown(old(currentRoomNodeGraph.View()), currentEvent)
    {
      if currentEvent.button == 1 {
        // ShowContextMenu: the menu's one item later calls CreateRoomNode
      } else if currentEvent.button == 0 {
        ClearLineDrag();
        ClearAllSelectedRoomNodes();
      }
    }

    /** A release on the canvas: a right release ending a line connects the line's start to the node under the pointer. */
    method ProcessMouseUpEvent(currentEvent: Event)
      requires Valid()
      modifies currentRoomNodeGraph`roomNodeToDrawLineFrom, currentRoomNodeGraph`linePosition
      modifies currentRoomNodeGraph.roomNodeList`childRoomNodeIDList, currentRoomNodeGraph.roomNodeList`parentRoomNodeIDList
      ensures Valid()
      ensures currentRoomNodeGraph.View() == CanvasMouseUp(old(currentRoomNodeGraph.View()), currentEvent)
    {
      var graph := currentRoomNodeGraph;
      var list := graph.roomNodeList;
      ghost var g := graph.View();
      if currentEvent.button == 1 && graph.roomNodeToDrawLineFrom != null {
        ghost var hit := TopMost(g.nodes, currentEvent.mousePosition);
        var roomNode := IsMouseOverRoomNode(currentEvent);
        ghost var linked := g.nodes;
        if roomNode != null {
          ghost var k := hit.value;
          IndexOfDistinct(list, k);
          ConnectRoomNodes(graph.roomNodeToDrawLineFrom, roomNode);
          linked := ConnectAt(g.nodes, g.lineFrom.value, k);
        } else {
          assert hit == None;
        }
        assert graph.NodeViews() == linked;
        ClearLineDrag();
        assert graph.View() == ClearLine(g.(nodes := linked));
        assert graph.View() == CanvasMouseUp(g, currentEvent);
      } else {
        assert graph.View() == g;
      }
    }

    /**
     * Records `roomNode` as a child of `from` and, when that succeeds (it always does), `from` as
     * a parent of `roomNode`; no duplicate, self-link or multi-parent check is made.
     */
    method ConnectRoomNodes(from: RoomNode, roomNode: RoomNode)
      requires Valid()
      requires from in currentRoomNodeGraph.roomNodeList && roomNode in currentRoomNodeGraph.roomNodeList
      modifies from`childRoomNodeIDList, roomNode`parentRoomNodeIDList
      ensures Valid()
      ensures currentRoomNodeGraph.NodeViews()
           == ConnectAt(old(currentRoomNodeGraph.NodeViews()),
                        IndexOf(currentRoomNodeGraph.roomNodeList, from).value,
                        IndexOf(currentRoomNodeGraph.roomNodeList, roomNode).value)
    {
      var list := currentRoomNodeGraph.roomNodeList;
      assert from.roomNodeGraph == currentRoomNodeGraph && roomNode.roomNodeGraph == currentRoomNodeGraph;
      var added := from.AddChildRoomIDToRoomNode(roomNode.id);
      if added {
        var _ := roomNode.AddParentRoomIDToRoomNode(from.id);
      }
    }

    /** A drag on the canvas: a right drag moves the loose end of the line being dragged, if any. */
    method ProcessMouseDragEvent(currentEvent: Event)
      requires Valid()
      modifies currentRoomNodeGraph`linePosition
      ensures Valid()
      ensures currentRoomNodeGraph.View() == CanvasMouseDrag(old(currentRoomNodeGraph.View()), currentEvent)
    {
      if currentEvent.button == 1 {
        ProcessRightMouseDragEvent(currentEvent);
      }
    }

    method ProcessRightMouseDragEvent(currentEvent: Event)
      requires Valid()
      modifies currentRoomNodeGraph`linePosition
      ensures Valid()
      ensures currentRoomNodeGraph.roomNodeToDrawLineFrom != null ==>
        currentRoomNodeGraph.linePosition == Add(old(currentRoomNodeGraph.linePosition), currentEvent.delta)
      ensures currentRoomNodeGraph.roomNodeToDrawLineFrom == null ==>
        currentRoomNodeGraph.linePosition == old(currentRoomNodeGraph.linePosition)
    {
      if currentRoomNodeGraph.roomNodeToDrawLineFrom != null {
        DragConnectingLine(currentEvent.delta);
      }
    }

    method DragConnectingLine(delta: Vector2)
      modifies currentRoomNodeGraph`linePosition
      ensures currentRoomNodeGraph.linePosition == Add(old(currentRoomNodeGraph.linePosition), delta)
    {
      currentRoomNodeGraph.linePosition := Add(currentRoomNodeGraph.linePosition, delta);
    }

    /** The context-menu action: an entrance node first when the graph is empty, then a node of the "none" type. */
    method CreateRoomNode(mousePosition: Vector2, entranceId: string, noneId: string)
      requires Valid()
      requires entranceId != noneId
      requires !HasId(currentRoomNodeGraph.NodeViews(), entranceId) && !HasId(currentRoomNodeGraph.NodeViews(), noneId)
      modifies currentRoomNodeGraph`roomNodeList
      ensures Valid()
      ensures State() == old(State()).(graph := Create(old(currentRoomNodeGraph.View()), roomNodeTypeList, mousePosition, entranceId, noneId))
      ensures GraphInv(old(currentRoomNodeGraph.View())) ==> GraphInv(currentRoomNodeGraph.View())
      ensures old(currentRoomNodeGraph.roomNodeList) < currentRoomNodeGraph.roomNodeList
    {
      ghost var g := currentRoomNodeGraph.View();
      ghost var st := State();
      if |currentRoomNodeGraph.roomNodeList| == 0 {
        var _ := CreateRoomNodeOfType(EntrancePosition, FindFirst(roomNodeTypeList, IsEntranceType), entranceId);
      }
      ghost var first := State();
      assert first.graph == (if |g.nodes| == 0 then CreateOfType(g, EntrancePosition, FindFirst(roomNodeTypeList, IsEntranceType), entranceId) else g);
      assert first.current == st.current;
      var _ := CreateRoomNodeOfType(mousePosition, FindFirst(roomNodeTypeList, IsNoneType), noneId);
      assert State() == first.(graph := CreateOfType(first.graph, mousePosition, FindFirst(roomNodeTypeList, IsNoneType), noneId));
      if GraphInv(g) {
        CreateKeepsInvariant(g, roomNodeTypeList, mousePosition, entranceId, noneId);
      }
    }

    /** The overload that takes a type: one new node of that type at the end of the list, initialised. */
    method CreateRoomNodeOfType(mousePosition: Vector2, roomNodeType: Option<RoomNodeType>, newId: string)
      returns (roomNode: RoomNode)
      requires Valid()
      modifies currentRoomNodeGraph`roomNodeList
      ensures Valid()
      ensures State() == old(State()).(graph := CreateOfType(old(currentRoomNodeGraph.View()), mousePosition, roomNodeType, newId))
      ensures currentRoomNodeGraph.roomNodeList == old(currentRoomNodeGraph.roomNodeList) + [roomNode]
      ensures fresh(roomNode)
      ensures roomNode.Setup() == NodeSetup(currentRoomNodeGraph, roomNodeTypeList, "RoomNode")
      ensures currentRoomNodeGraph.NodeSetups()
           == old(currentRoomNodeGraph.NodeSetups()) + [NodeSetup(currentRoomNodeGraph, roomNodeTypeList, "RoomNode")]
    {
      var graph := currentRoomNodeGraph;
      var list := graph.roomNodeList;
      ghost var g := graph.View();
      ghost var setups := graph.NodeSetups();
      roomNode := new RoomNode();
      graph.roomNodeList := graph.roomNodeList + [roomNode];
      roomNode.Initialize(Rect(mousePosition, NodeSize), graph, roomNodeType, roomNodeTypeList, newId);
      ghost var grown := graph.roomNodeList;
      assert grown == list + [roomNode];
      assert roomNode !in list;
      assert graph.NodeViews() == g.nodes + [NewNode(newId, roomNodeType, mousePosition)] by {
        forall i | 0 <= i < |list| ensures grown[i].View() == g.nodes[i] {
          assert grown[i] == list[i];
        }
      }
      assert graph.NodeSetups() == setups + [NodeSetup(graph, roomNodeTypeList, "RoomNode")] by {
        forall i | 0 <= i < |list| ensures grown[i].Setup() == setups[i] {
          assert grown[i] == list[i];
        }
      }
      assert graph.Owns(grown) by {
        DistinctAppend(list, roomNode);
        forall i | 0 <= i < |list| ensures grown[i].roomNodeGraph == graph {
          assert grown[i].Setup() == setups[i];
        }
      }
      IndexOfAppend(list, roomNode, graph.roomNodeToDrawLineFrom);
      IndexOfAppend(list, roomNode, currentRoomNode);
    }

    /** Ends any connecting line: no start node, and the loose end back at zero. */
    method ClearLineDrag()
      requires Valid()
      modifies currentRoomNodeGraph`roomNodeToDrawLineFrom, currentRoomNodeGraph`linePosition
      ensures Valid()
      ensures currentRoomNodeGraph.roomNodeToDrawLineFrom == null && currentRoomNodeGraph.linePosition == Zero
      ensures currentRoomNodeGraph.View() == ClearLine(old(currentRoomNodeGraph.View()))
    {
      currentRoomNodeGraph.roomNodeToDrawLineFrom := null;
      currentRoomNodeGraph.linePosition := Zero;
    }

    /** Deselects every node of the graph and changes nothing else. */
    method ClearAllSelectedRoomNodes()
      requires Valid()
      modifies currentRoomNodeGraph.roomNodeList`isSelected
      ensures Valid()
      ensures currentRoomNodeGraph.View()
           == old(currentRoomNodeGraph.View()).(nodes := ClearSelection(old(currentRoomNodeGraph.NodeViews())))
    {
      var list := currentRoomNodeGraph.roomNodeList;
      ghost var vs := currentRoomNodeGraph.NodeViews();
      for i := 0 to |list|
        invariant forall k :: 0 <= k < |list| ==>
          list[k].View() == (if k < i then vs[k].(isSelected := false) else vs[k])
      {
        DistinctAt(list, i);
        if list[i].isSelected {
          list[i].isSelected := false;
        }
      }
      assert currentRoomNodeGraph.NodeViews() == ClearSelection(vs);
    }
  }
}
