/**
 * The room node (RoomNodeSO) and the graph that holds the nodes (RoomNodeGraphSO), as objects
 * whose fields the editor updates in place. Each object has a `View` that gives its value;
 * methods state their effect on that value, and the graph's `Valid` says which objects it
 * owns. What those values keep invariant is proved in module GraphModel.
 */
module NodeGraph {
  import opened Wrappers
  import opened UnityTypes
  import opened RoomNodeTypes
  import opened RoomNodeView
  import opened GraphModel

  /** The position of `n` in `list` (first occurrence), or nothing when `n` is null or absent. */
  function IndexOf(list: seq<RoomNode>, n: RoomNode?): (r: Option<nat>)
    ensures r.None? <==> n == null || n !in list
    ensures r.Some? ==> r.value < |list| && list[r.value] == n
  {
    if list == [] then None
    else if list[0] == n then Some(0)
    else match IndexOf(list[1..], n)
      case Some(k) => Some(k + 1)
      case None => None
  }

  /** The node at position `o` of `list`, or null when `o` is nothing. */
  function NodeAt(list: seq<RoomNode>, o: Option<nat>): RoomNode?
    requires InRange(o, |list|)
  {
    match o
    case Some(k) => list[k]
    case None => null
  }

  /** The fields of a node that Initialize sets and no later operation changes, beside its View. */
  datatype NodeSetup = NodeSetup(roomNodeGraph: RoomNodeGraph?, roomNodeTypeList: seq<RoomNodeType>, name: string)

  /** The values of the nodes of `list`, in order. */
  ghost function ViewsOf(list: seq<RoomNode>): (vs: seq<NodeView>)
    reads list
    ensures |vs| == |list|
    ensures forall i {:trigger vs[i]} :: 0 <= i < |list| ==> vs[i] == list[i].View()
  {
    seq(|list|, i reads list requires 0 <= i < |list| => list[i].View())
  }

  ghost function SetupsOf(list: seq<RoomNode>): (ss: seq<NodeSetup>)
    reads list
    ensures |ss| == |list|
    ensures forall i {:trigger ss[i]} :: 0 <= i < |list| ==> ss[i] == list[i].Setup()
  {
    seq(|list|, i reads list requires 0 <= i < |list| => list[i].Setup())
  }

  /** Positions i and j of `list` hold different nodes. */
  predicate Apart(list: seq<RoomNode>, i: nat, j: nat)
    requires i < |list| && j < |list|
  {
    list[i] != list[j]
  }

  /** No node is listed twice. */
  predicate Distinct(list: seq<RoomNode>) {
    forall i, j :: 0 <= i < j < |list| ==> Apart(list, i, j)
  }

  /** In a list without repetitions, the node at k is at no other position. */
  lemma DistinctAt(list: seq<RoomNode>, k: nat)
    requires Distinct(list) && k < |list|
    ensures forall j :: 0 <= j < |list| && j != k ==> list[j] != list[k]
  {
    forall j | 0 <= j < |list| && j != k
      ensures list[j] != list[k]
    {
      if j < k {
        assert Apart(list, j, k);
      } else {
        assert Apart(list, k, j);
      }
    }
  }

  /** In a list without repetitions, the position of the node at k is k. */
  lemma IndexOfDistinct(list: seq<RoomNode>, k: nat)
    requires Distinct(list) && k < |list|
    ensures IndexOf(list, list[k]) == Some(k)
  {
    var r := IndexOf(list, list[k]);
    DistinctAt(list, k);
    assert list[r.value] == list[k];
  }

  /** Appending a node not yet listed keeps the list free of repetitions. */
  lemma DistinctAppend(list: seq<RoomNode>, x: RoomNode)
    requires Distinct(list) && x !in list
    ensures Distinct(list + [x])
  {
    var grown := list + [x];
    forall i, j | 0 <= i < j < |grown|
      ensures Apart(grown, i, j)
    {
      if j < |list| {
        assert Apart(list, i, j);
      }
    }
  }

  /** Appending to a list does not move a node that was already in it. */
  lemma {:induction false} IndexOfAppend(list: seq<RoomNode>, x: RoomNode, n: RoomNode?)
    requires n == null || n in list
    ensures IndexOf(list + [x], n) == IndexOf(list, n)
  {
    if n != null && list[0] != n {
      assert (list + [x])[1..] == list[1..] + [x];
      IndexOfAppend(list[1..], x, n);
    }
  }

  /** When every node but the one at k still has its value in `before`, the values are `before` updated at k. */
  lemma ViewsAfterUpdate(list: seq<RoomNode>, k: nat, before: seq<NodeView>)
    requires k < |list| == |before|
    requires forall j :: 0 <= j < |list| && j != k ==> list[j].View() == before[j]
    ensures ViewsOf(list) == before[k := list[k].View()]
  {
  }

  class RoomNode {
    var id: string
    var parentRoomNodeIDList: seq<string>
    var childRoomNodeIDList: seq<string>
    var roomNodeGraph: RoomNodeGraph?
    var roomNodeType: Option<RoomNodeType>
    var roomNodeTypeList: seq<RoomNodeType>
    var name: string
    var rect: Rect
    var isLeftClickDragging: bool
    var isSelected: bool

    /** A node as `ScriptableObject.CreateInstance` leaves it: only the field initialisers have run. */
    constructor ()
      ensures parentRoomNodeIDList == [] && childRoomNodeIDList == []
      ensures !isLeftClickDragging && !isSelected
      ensures roomNodeGraph == null && roomNodeType == None
    {
      id := "";
      parentRoomNodeIDList := [];
      childRoomNodeIDList := [];
      roomNodeGraph := null;
      roomNodeType := None;
      roomNodeTypeList := [];
      name := "";
      rect := Rect(Zero, Zero);
      isLeftClickDragging := false;
      isSelected := false;
    }

    function View(): NodeView
      reads this
    {
      NodeView(id, parentRoomNodeIDList, childRoomNodeIDList, roomNodeType, rect, isSelected, isLeftClickDragging)
    }

    ghost function Setup(): NodeSetup
      reads this
    {
      NodeSetup(roomNodeGraph, roomNodeTypeList, name)
    }

    /**
     * Sets the node's rectangle, graph and type, names it, gives it `newId` (standing for a new
     * GUID) and loads the catalogue of room node types.
     */
    method Initialize(rect: Rect, nodeGraph: RoomNodeGraph, roomNodeType: Option<RoomNodeType>,
                      typeList: seq<RoomNodeType>, newId: string)
      modifies this`rect, this`id, this`name, this`roomNodeGraph, this`roomNodeType, this`roomNodeTypeList
      ensures this.rect == rect && id == newId && name == "RoomNode"
      ensures roomNodeGraph == nodeGraph && this.roomNodeType == roomNodeType && roomNodeTypeList == typeList
    {
      this.rect := rect;
      this.id := newId;
      this.name := "RoomNode";
      this.roomNodeGraph := nodeGraph;
      this.roomNodeType := roomNodeType;
      roomNodeTypeList := typeList;
    }

    /**
     * The entries of the node's type popup: entry i is type i's name when that type is shown in
     * the editor, and empty (C# `null`) otherwise.
     */
    method GetRoomNodeTypesToDisplay() returns (roomArray: array<Option<string>>)
      ensures roomArray.Length == |roomNodeTypeList|
      ensures forall i :: 0 <= i < roomArray.Length ==>
        roomArray[i] == (if roomNodeTypeList[i].displayInNodeGraphEditor
                         then Some(roomNodeTypeList[i].roomNodeTypeName) else None)
    {
      roomArray := new Option<string>[|roomNodeTypeList|](_ => None);
      for i := 0 to |roomNodeTypeList|
        invariant forall j :: 0 <= j < i ==>
          roomArray[j] == (if roomNodeTypeList[j].displayInNodeGraphEditor
                           then Some(roomNodeTypeList[j].roomNodeTypeName) else None)
        invariant forall j :: i <= j < roomArray.Length ==> roomArray[j] == None
      {
        if roomNodeTypeList[i].displayInNodeGraphEditor {
          roomArray[i] := Some(roomNodeTypeList[i].roomNodeTypeName);
        }
      }
    }

    /**
     * Dispatches an event by kind; a right press also starts a connecting line from this node.
     * On the graph's value this is GraphModel.NodeEvent at this node's position.
     */
    method ProcessEvents(currentEvent: Event)
      requires roomNodeGraph != null && roomNodeGraph.Valid() && this in roomNodeGraph.roomNodeList
      modifies this`isSelected, this`isLeftClickDragging, this`rect
      modifies roomNodeGraph`roomNodeToDrawLineFrom, roomNodeGraph`linePosition
      ensures roomNodeGraph.Valid()
      ensures View() == AfterEvent(old(View()), currentEvent)
      ensures IndexOf(roomNodeGraph.roomNodeList, this).Some?
      ensures roomNodeGraph.View()
           == NodeEvent(old(roomNodeGraph.View()), IndexOf(roomNodeGraph.roomNodeList, this).value, currentEvent)
    {
      var graph := roomNodeGraph;
      var list := graph.roomNodeList;
      ghost var vs := graph.NodeViews();
      ghost var k := IndexOf(list, this).value;
      DistinctAt(list, k);
      match currentEvent.kind
      case MouseDown => ProcessMouseDownEvent(currentEvent);
      case MouseUp => ProcessMouseUpEvent(currentEvent);
      case MouseDrag => ProcessMouseDragEvent(currentEvent);
      case Other =>
    }

    method ProcessMouseDownEvent(currentEvent: Event)
      requires roomNodeGraph != null && currentEvent.kind == MouseDown
      modifies this`isSelected, roomNodeGraph`roomNodeToDrawLineFrom, roomNodeGraph`linePosition
      ensures View() == AfterEvent(old(View()), currentEvent)
      ensures IsRightDown(currentEvent) ==>
        roomNodeGraph.roomNodeToDrawLineFrom == this && roomNodeGraph.linePosition == currentEvent.mousePosition
      ensures !IsRightDown(currentEvent) ==>
        roomNodeGraph.roomNodeToDrawLineFrom == old(roomNodeGraph.roomNodeToDrawLineFrom) &&
        roomNodeGraph.linePosition == old(roomNodeGraph.linePosition)
    {
      if currentEvent.button == 0 {
        ProcessLeftClickDownEvent();
      } else if currentEvent.button == 1 {
        ProcessRightClickDownEvent(currentEvent);
      }
    }

    /** A left press toggles the selection (and makes the node Unity's active object, not modelled). */
    method ProcessLeftClickDownEvent()
      modifies this`isSelected
      ensures isSelected == !old(isSelected)
    {
      isSelected := !isSelected;
    }

    /** A right press makes this node the start of the connecting line, at the pointer. */
    method ProcessRightClickDownEvent(currentEvent: Event)
      requires roomNodeGraph != null
      modifies roomNodeGraph`roomNodeToDrawLineFrom, roomNodeGraph`linePosition
      ensures roomNodeGraph.roomNodeToDrawLineFrom == this && roomNodeGraph.linePosition == currentEvent.mousePosition
    {
      roomNodeGraph.SetNodeToDrawConnectionLineFrom(this, currentEvent.mousePosition);
    }

    method ProcessMouseUpEvent(currentEvent: Event)
      requires currentEvent.kind == MouseUp
      modifies this`isLeftClickDragging
      ensures View() == AfterEvent(old(View()), currentEvent)
    {
      if currentEvent.button == 0 {
        ProcessLeftClickUpEvent();
      }
    }

    /** A left release ends a drag. */
    method ProcessLeftClickUpEvent()
      modifies this`isLeftClickDragging
      ensures !isLeftClickDragging
    {
      if isLeftClickDragging {
        isLeftClickDragging := false;
      }
    }

    /** A drag, of any button, marks the node as dragged and moves it. */
    method ProcessMouseDragEvent(currentEvent: Event)
      requires currentEvent.kind == MouseDrag
      modifies this`isLeftClickDragging, this`rect
      ensures View() == AfterEvent(old(View()), currentEvent)
    {
      isLeftClickDragging := true;
      DragNode(currentEvent.delta);
    }

    method DragNode(delta: Vector2)
      modifies this`rect
      ensures rect == old(rect).(position := Add(old(rect).position, delta))
    {
      rect := rect.(position := Add(rect.position, delta));
    }

    /** Appends `childID` to the child list, whatever it is, and reports success. */
    method AddChildRoomIDToRoomNode(childID: string) returns (added: bool)
      modifies this`childRoomNodeIDList
      ensures added
      ensures View() == old(View()).(childRoomNodeIDList := old(childRoomNodeIDList) + [childID])
      ensures roomNodeGraph != null && Distinct(roomNodeGraph.roomNodeList) && this in roomNodeGraph.roomNodeList ==>
        roomNodeGraph.NodeViews()
        == old(roomNodeGraph.NodeViews())[IndexOf(roomNodeGraph.roomNodeList, this).value := View()]
    {
      childRoomNodeIDList := childRoomNodeIDList + [childID];
      if roomNodeGraph != null && Distinct(roomNodeGraph.roomNodeList) && this in roomNodeGraph.roomNodeList {
        var list := roomNodeGraph.roomNodeList;
        var k := IndexOf(list, this).value;
        DistinctAt(list, k);
        ViewsAfterUpdate(list, k, old(roomNodeGraph.NodeViews()));
      }
      return true;
    }

    /** Appends `parentID` to the parent list, whatever it is, and reports success. */
    method AddParentRoomIDToRoomNode(parentID: string) returns (added: bool)
      modifies this`parentRoomNodeIDList
      ensures added
      ensures View() == old(View()).(parentRoomNodeIDList := old(parentRoomNodeIDList) + [parentID])
      ensures roomNodeGraph != null && Distinct(roomNodeGraph.roomNodeList) && this in roomNodeGraph.roomNodeList ==>
        roomNodeGraph.NodeViews()
        == old(roomNodeGraph.NodeViews())[IndexOf(roomNodeGraph.roomNodeList, this).value := View()]
    {
      parentRoomNodeIDList := parentRoomNodeIDList + [parentID];
      if roomNodeGraph != null && Distinct(roomNodeGraph.roomNodeList) && this in roomNodeGraph.roomNodeList {
        var list := roomNodeGraph.roomNodeList;
        var k := IndexOf(list, this).value;
        DistinctAt(list, k);
        ViewsAfterUpdate(list, k, old(roomNodeGraph.NodeViews()));
      }
      return true;
    }
  }

  /**
   * The graph asset, reduced to the fields the editor uses: its nodes, the node a connecting
   * line is being dragged from (null when none), and the line's loose end.
   */
  class RoomNodeGraph {
    var roomNodeList: seq<RoomNode>
    var roomNodeToDrawLineFrom: RoomNode?
    var linePosition: Vector2

    constructor ()
      ensures roomNodeList == [] && roomNodeToDrawLineFrom == null && linePosition == Zero
      ensures Valid()
    {
      roomNodeList := [];
      roomNodeToDrawLineFrom := null;
      linePosition := Zero;
    }

    ghost function NodeViews(): seq<NodeView>
      reads this`roomNodeList, roomNodeList
    {
      ViewsOf(roomNodeList)
    }

    ghost function NodeSetups(): seq<NodeSetup>
      reads this`roomNodeList, roomNodeList
    {
      SetupsOf(roomNodeList)
    }

    ghost function View(): GraphView
      reads this, roomNodeList
    {
      GraphView(NodeViews(), IndexOf(roomNodeList, roomNodeToDrawLineFrom), linePosition)
    }

    /** Each node is listed once and belongs to this graph, and the line starts at a listed node. */
    ghost predicate Valid()
      reads this, roomNodeList
    {
      && Owns(roomNodeList)
      && (roomNodeToDrawLineFrom == null || roomNodeToDrawLineFrom in roomNodeList)
    }

    /** Each node of `list` is listed once and belongs to this graph. */
    ghost predicate Owns(list: seq<RoomNode>)
      reads list
    {
      Distinct(list) && forall i :: 0 <= i < |list| ==> list[i].roomNodeGraph == this
    }

    /** Starts a connecting line at `node`, with its loose end at `position`. */
    method SetNodeToDrawConnectionLineFrom(node: RoomNode, position: Vector2)
      modifies this`roomNodeToDrawLineFrom, this`linePosition
      ensures roomNodeToDrawLineFrom == node && linePosition == position
    {
      roomNodeToDrawLineFrom := node;
      linePosition := position;
    }
  }
}
