/**
 * The value of one room node as the editor sees it, and what the node's own mouse handlers
 * do to that value (RoomNodeSO.ProcessEvents and the handlers it dispatches to).
 */
module RoomNodeView {
  import opened Wrappers
  import opened UnityTypes
  import opened RoomNodeTypes

  /** The fields of a room node that the editor reads or changes. */
  datatype NodeView = NodeView(
    id: string,
    parentRoomNodeIDList: seq<string>,
    childRoomNodeIDList: seq<string>,
    roomNodeType: Option<RoomNodeType>,
    rect: Rect,
    isSelected: bool,
    isLeftClickDragging: bool)

  /** Two node values agree on identity, type and adjacency (they may differ in position and flags). */
  predicate SameLinks(a: NodeView, b: NodeView) {
    && a.id == b.id
    && a.parentRoomNodeIDList == b.parentRoomNodeIDList
    && a.childRoomNodeIDList == b.childRoomNodeIDList
    && a.roomNodeType == b.roomNodeType
  }

  predicate IsLeftDown(e: Event) { e.kind == MouseDown && e.button == 0 }

  predicate IsRightDown(e: Event) { e.kind == MouseDown && e.button == 1 }

  predicate IsLeftUp(e: Event) { e.kind == MouseUp && e.button == 0 }

  /**
   * The effect of one event on the node it is delivered to. A left button press toggles the
   * selection; a left release ends a drag; a drag of any button marks the node as dragged and
   * moves its rectangle by the event's delta. A right press also starts a connecting line, which
   * is graph state (see GraphModel.NodeEvent). The node's identity, type and adjacency are
   * never touched.
   */
  function AfterEvent(v: NodeView, e: Event): (r: NodeView)
    ensures SameLinks(v, r)
  {
    match e.kind
    case MouseDown =>
      if e.button == 0 then v.(isSelected := !v.isSelected) else v
    case MouseUp =>
      if e.button == 0 && v.isLeftClickDragging then v.(isLeftClickDragging := false) else v
    case MouseDrag =>
      v.(isLeftClickDragging := true, rect := v.rect.(position := Add(v.rect.position, e.delta)))
    case Other => v
  }

  /** The node after receiving the events of `es`, oldest first. */
  function Run(v: NodeView, es: seq<Event>): NodeView
  {
    if es == [] then v else AfterEvent(Run(v, es[..|es| - 1]), es[|es| - 1])
  }

  /** The number of left button presses in `es`. */
  function LeftDownCount(es: seq<Event>): nat
  {
    if es == [] then 0
    else LeftDownCount(es[..|es| - 1]) + (if IsLeftDown(es[|es| - 1]) then 1 else 0)
  }

  /** What an event says about dragging: a drag starts it, a left release ends it, others say nothing. */
  function DragSignal(e: Event): Option<bool>
  {
    if e.kind == MouseDrag then Some(true)
    else if IsLeftUp(e) then Some(false)
    else None
  }

  /** The last thing the events of `es` say about dragging, if any says anything. */
  function LastDragSignal(es: seq<Event>): Option<bool>
  {
    if es == [] then None
    else if DragSignal(es[|es| - 1]).Some? then DragSignal(es[|es| - 1])
    else LastDragSignal(es[..|es| - 1])
  }

  /** Events never change a node's identity, type or adjacency lists. */
  lemma {:induction false} RunKeepsLinks(v: NodeView, es: seq<Event>)
    ensures SameLinks(v, Run(v, es))
  {
    if es != [] {
      RunKeepsLinks(v, es[..|es| - 1]);
    }
  }

  /** Selection is a toggle: after any events, a node is selected iff it was, flipped once per left press. */
  lemma {:induction false} SelectionParity(v: NodeView, es: seq<Event>)
    ensures Run(v, es).isSelected == (v.isSelected != (LeftDownCount(es) % 2 == 1))
  {
    if es != [] {
      SelectionParity(v, es[..|es| - 1]);
    }
  }

  /** Two left presses in a row give back the original selection. */
  lemma DoubleLeftClickRestoresSelection(v: NodeView, first: Event, second: Event)
    requires IsLeftDown(first) && IsLeftDown(second)
    ensures Run(v, [first, second]).isSelected == v.isSelected
  {
    assert [first, second][..1] == [first];
    assert [first][..0] == [];
    assert LeftDownCount([first]) == 1;
    assert LeftDownCount([first, second]) == 2;
    SelectionParity(v, [first, second]);
  }

  /** The drag flag is whatever the last drag or left release said, or unchanged if there was none. */
  lemma {:induction false} DraggingFollowsLastSignal(v: NodeView, es: seq<Event>)
    ensures Run(v, es).isLeftClickDragging == LastDragSignal(es).GetOr(v.isLeftClickDragging)
  {
    if es != [] {
      DraggingFollowsLastSignal(v, es[..|es| - 1]);
    }
  }

  /** A drag sets the drag flag, and a left release right after it clears it again. */
  lemma DragThenLeftReleaseClears(v: NodeView, es: seq<Event>, drag: Event, release: Event)
    requires drag.kind == MouseDrag && IsLeftUp(release)
    ensures Run(v, es + [drag]).isLeftClickDragging
    ensures !Run(v, es + [drag, release]).isLeftClickDragging
  {
    assert (es + [drag, release])[..|es| + 1] == es + [drag];
    assert (es + [drag])[..|es|] == es;
  }
}
