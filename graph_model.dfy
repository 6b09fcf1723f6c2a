/**
 * The room node graph as a value, and what each editor operation does to it: connecting two
 * nodes on a right-button release, clearing selections and the connecting line, hit-testing,
 * routing an event, and creating nodes. The imperative editor (module NodeGraphEditor) is
 * proved to change its heap exactly as these functions say; the lemmas here state what the
 * functions guarantee.
 */
module GraphModel {
  import opened Wrappers
  import opened UnityTypes
  import opened RoomNodeTypes
  import opened RoomNodeView

  /** The graph: its node list, the index of the node a line is being dragged from, and the line's end. */
  datatype GraphView = GraphView(nodes: seq<NodeView>, lineFrom: Option<nat>, linePosition: Vector2)

  /** The editor: the graph it shows and the index of the node that currently receives events. */
  datatype EditorState = EditorState(graph: GraphView, current: Option<nat>)

  /** A directed parent-to-child link, as a pair of node ids. */
  type Edge = (string, string)

  predicate InRange(o: Option<nat>, n: nat) { o.Some? ==> o.value < n }

  /** Every index the editor holds points into the node list. */
  predicate WellFormed(st: EditorState) {
    InRange(st.graph.lineFrom, |st.graph.nodes|) && InRange(st.current, |st.graph.nodes|)
  }

  // ---------------------------------------------------------------------------------------
  // Adjacency bookkeeping

  /** The links recorded in a child list: one (id, child) pair per entry. */
  function OutEdges(id: string, children: seq<string>): multiset<Edge>
  {
    if children == [] then multiset{}
    else OutEdges(id, children[..|children| - 1]) + multiset{(id, children[|children| - 1])}
  }

  /** The links recorded in a parent list: one (parent, id) pair per entry. */
  function InEdges(parents: seq<string>, id: string): multiset<Edge>
  {
    if parents == [] then multiset{}
    else InEdges(parents[..|parents| - 1], id) + multiset{(parents[|parents| - 1], id)}
  }

  /** Every link as recorded on the parent side, in all child lists. */
  function ChildEdges(vs: seq<NodeView>): multiset<Edge>
  {
    if vs == [] then multiset{}
    else ChildEdges(vs[..|vs| - 1]) + OutEdges(vs[|vs| - 1].id, vs[|vs| - 1].childRoomNodeIDList)
  }

  /** Every link as recorded on the child side, in all parent lists. */
  function ParentEdges(vs: seq<NodeView>): multiset<Edge>
  {
    if vs == [] then multiset{}
    else ParentEdges(vs[..|vs| - 1]) + InEdges(vs[|vs| - 1].parentRoomNodeIDList, vs[|vs| - 1].id)
  }

  ghost predicate HasId(vs: seq<NodeView>, x: string) {
    exists j :: 0 <= j < |vs| && vs[j].id == x
  }

  ghost predicate UniqueIds(vs: seq<NodeView>) {
    forall i, j :: 0 <= i < j < |vs| ==> vs[i].id != vs[j].id
  }

  /** No dangling adjacency: every id in a parent or child list names a node of the graph. */
  ghost predicate Closed(vs: seq<NodeView>) {
    && (forall i, x :: 0 <= i < |vs| && x in vs[i].childRoomNodeIDList ==> HasId(vs, x))
    && (forall i, x :: 0 <= i < |vs| && x in vs[i].parentRoomNodeIDList ==> HasId(vs, x))
  }

  /** Every link appears once in a child list for each time it appears in a parent list. */
  ghost predicate Balanced(vs: seq<NodeView>) {
    ChildEdges(vs) == ParentEdges(vs)
  }

  ghost predicate AdjacencyInv(vs: seq<NodeView>) {
    UniqueIds(vs) && Closed(vs) && Balanced(vs)
  }

  ghost predicate GraphInv(g: GraphView) {
    AdjacencyInv(g.nodes) && InRange(g.lineFrom, |g.nodes|)
  }

  ghost predicate EditorInv(st: EditorState) {
    WellFormed(st) && AdjacencyInv(st.graph.nodes)
  }

  /** Two node lists that agree node by node on identity, type and adjacency. */
  predicate SameAdjacency(vs: seq<NodeView>, ws: seq<NodeView>) {
    |vs| == |ws| && forall i :: 0 <= i < |vs| ==> SameLinks(vs[i], ws[i])
  }

  lemma OutEdgesAppend(id: string, children: seq<string>, c: string)
    ensures OutEdges(id, children + [c]) == OutEdges(id, children) + multiset{(id, c)}
  {
    assert (children + [c])[..|children|] == children;
  }

  lemma InEdgesAppend(parents: seq<string>, p: string, id: string)
    ensures InEdges(parents + [p], id) == InEdges(parents, id) + multiset{(p, id)}
  {
    assert (parents + [p])[..|parents|] == parents;
  }

  /** The count of link x on the child side, before and after replacing node k. */
  lemma {:induction false} UpdateChildEdgesAt(vs: seq<NodeView>, k: nat, v: NodeView, x: Edge)
    requires k < |vs|
    ensures ChildEdges(vs[k := v])[x] + OutEdges(vs[k].id, vs[k].childRoomNodeIDList)[x]
         == ChildEdges(vs)[x] + OutEdges(v.id, v.childRoomNodeIDList)[x]
  {
    var last := |vs| - 1;
    if k == last {
      assert vs[k := v][..last] == vs[..last];
    } else {
      assert vs[k := v][..last] == vs[..last][k := v];
      UpdateChildEdgesAt(vs[..last], k, v, x);
    }
  }

  /** Replacing node k changes the child-side links by exactly the difference of the two child lists. */
  lemma UpdateChildEdges(vs: seq<NodeView>, k: nat, v: NodeView)
    requires k < |vs|
    ensures ChildEdges(vs[k := v]) + OutEdges(vs[k].id, vs[k].childRoomNodeIDList)
         == ChildEdges(vs) + OutEdges(v.id, v.childRoomNodeIDList)
  {
    forall x
      ensures (ChildEdges(vs[k := v]) + OutEdges(vs[k].id, vs[k].childRoomNodeIDList))[x]
           == (ChildEdges(vs) + OutEdges(v.id, v.childRoomNodeIDList))[x]
    {
      UpdateChildEdgesAt(vs, k, v, x);
    }
  }

  /** The count of link x on the parent side, before and after replacing node k. */
  lemma {:induction false} UpdateParentEdgesAt(vs: seq<NodeView>, k: nat, v: NodeView, x: Edge)
    requires k < |vs|
    ensures ParentEdges(vs[k := v])[x] + InEdges(vs[k].parentRoomNodeIDList, vs[k].id)[x]
         == ParentEdges(vs)[x] + InEdges(v.parentRoomNodeIDList, v.id)[x]
  {
    var last := |vs| - 1;
    if k == last {
      assert vs[k := v][..last] == vs[..last];
    } else {
      assert vs[k := v][..last] == vs[..last][k := v];
      UpdateParentEdgesAt(vs[..last], k, v, x);
    }
  }

  /** Replacing node k changes the parent-side links by exactly the difference of the two parent lists. */
  lemma UpdateParentEdges(vs: seq<NodeView>, k: nat, v: NodeView)
    requires k < |vs|
    ensures ParentEdges(vs[k := v]) + InEdges(vs[k].parentRoomNodeIDList, vs[k].id)
         == ParentEdges(vs) + InEdges(v.parentRoomNodeIDList, v.id)
  {
    forall x
      ensures (ParentEdges(vs[k := v]) + InEdges(vs[k].parentRoomNodeIDList, vs[k].id))[x]
           == (ParentEdges(vs) + InEdges(v.parentRoomNodeIDList, v.id))[x]
    {
      UpdateParentEdgesAt(vs, k, v, x);
    }
  }

  /** The recorded links depend only on ids and adjacency lists. */
  lemma {:induction false} SameAdjacencySameEdges(vs: seq<NodeView>, ws: seq<NodeView>)
    requires SameAdjacency(vs, ws)
    ensures ChildEdges(vs) == ChildEdges(ws) && ParentEdges(vs) == ParentEdges(ws)
  {
    if vs != [] {
      SameAdjacencySameEdges(vs[..|vs| - 1], ws[..|ws| - 1]);
    }
  }

  /** The graph invariant depends only on ids and adjacency lists. */
  lemma SameAdjacencyKeepsInvariant(vs: seq<NodeView>, ws: seq<NodeView>)
    requires SameAdjacency(vs, ws) && AdjacencyInv(vs)
    ensures AdjacencyInv(ws)
  {
    SameAdjacencySameEdges(vs, ws);
    forall x | HasId(vs, x) ensures HasId(ws, x) {
      var j :| 0 <= j < |vs| && vs[j].id == x;
      assert ws[j].id == x;
    }
  }

  // ---------------------------------------------------------------------------------------
  // Connecting two nodes (RoomNodeGraphEditor.ProcessMouseUpEvent)

  /**
   * Node s takes node n's id at the end of its child list, then node n takes node s's id at
   * the end of its parent list. Nothing is checked first: duplicate links, self-links and
   * second parents are all recorded.
   */
  function ConnectAt(vs: seq<NodeView>, s: nat, n: nat): (r: seq<NodeView>)
    requires s < |vs| && n < |vs|
    ensures |r| == |vs|
    ensures forall k :: 0 <= k < |vs| ==> r[k].id == vs[k].id && r[k].roomNodeType == vs[k].roomNodeType
  {
    var linked := vs[s := vs[s].(childRoomNodeIDList := vs[s].childRoomNodeIDList + [vs[n].id])];
    linked[n := linked[n].(parentRoomNodeIDList := linked[n].parentRoomNodeIDList + [vs[s].id])]
  }

  /** Connecting appends to both lists unconditionally and leaves every other node and field alone. */
  lemma ConnectAppendsBothLinks(vs: seq<NodeView>, s: nat, n: nat)
    requires s < |vs| && n < |vs|
    ensures ConnectAt(vs, s, n)[s].childRoomNodeIDList == vs[s].childRoomNodeIDList + [vs[n].id]
    ensures ConnectAt(vs, s, n)[n].parentRoomNodeIDList == vs[n].parentRoomNodeIDList + [vs[s].id]
    ensures s != n ==> ConnectAt(vs, s, n)[s].parentRoomNodeIDList == vs[s].parentRoomNodeIDList
    ensures s != n ==> ConnectAt(vs, s, n)[n].childRoomNodeIDList == vs[n].childRoomNodeIDList
    ensures forall k :: 0 <= k < |vs| && k != s && k != n ==> ConnectAt(vs, s, n)[k] == vs[k]
    ensures forall k :: 0 <= k < |vs| ==>
      var w := ConnectAt(vs, s, n)[k];
      w.id == vs[k].id && w.roomNodeType == vs[k].roomNodeType && w.rect == vs[k].rect &&
      w.isSelected == vs[k].isSelected && w.isLeftClickDragging == vs[k].isLeftClickDragging
  {
  }

  /** Connecting adds exactly the link (s, n), once on each side, whether or not it was already there. */
  lemma ConnectAddsOneEdge(vs: seq<NodeView>, s: nat, n: nat)
    requires s < |vs| && n < |vs|
    ensures ChildEdges(ConnectAt(vs, s, n)) == ChildEdges(vs) + multiset{(vs[s].id, vs[n].id)}
    ensures ParentEdges(ConnectAt(vs, s, n)) == ParentEdges(vs) + multiset{(vs[s].id, vs[n].id)}
  {
    var link := multiset{(vs[s].id, vs[n].id)};
    var from := vs[s].(childRoomNodeIDList := vs[s].childRoomNodeIDList + [vs[n].id]);
    var linked := vs[s := from];
    var to := linked[n].(parentRoomNodeIDList := linked[n].parentRoomNodeIDList + [vs[s].id]);
    assert ConnectAt(vs, s, n) == linked[n := to];
    ConnectFirstHalf(vs, s, from, vs[n].id);
    assert linked[n].id == vs[n].id;
    ConnectSecondHalf(linked, n, to, vs[s].id);
  }

  /** Cancelling a common part on both sides of a multiset equation. */
  lemma CancelPart(a: multiset<Edge>, b: multiset<Edge>, c: multiset<Edge>, d: multiset<Edge>)
    requires a + b == c + (b + d)
    ensures a == c + d
  {
    assert forall x :: (a + b)[x] == a[x] + b[x];
    assert forall x :: (c + (b + d))[x] == c[x] + b[x] + d[x];
    assert forall x :: a[x] == (c + d)[x];
  }

  /** The first half of a connection: node s gains child c, which adds the link (s, c) on the child side only. */
  lemma ConnectFirstHalf(vs: seq<NodeView>, s: nat, from: NodeView, c: string)
    requires s < |vs|
    requires from == vs[s].(childRoomNodeIDList := vs[s].childRoomNodeIDList + [c])
    ensures ChildEdges(vs[s := from]) == ChildEdges(vs) + multiset{(vs[s].id, c)}
    ensures ParentEdges(vs[s := from]) == ParentEdges(vs)
  {
    UpdateChildEdges(vs, s, from);
    OutEdgesAppend(vs[s].id, vs[s].childRoomNodeIDList, c);
    CancelPart(ChildEdges(vs[s := from]), OutEdges(vs[s].id, vs[s].childRoomNodeIDList),
               ChildEdges(vs), multiset{(vs[s].id, c)});
    UpdateParentEdges(vs, s, from);
    CancelPart(ParentEdges(vs[s := from]), InEdges(vs[s].parentRoomNodeIDList, vs[s].id),
               ParentEdges(vs), multiset{});
  }

  /** The second half of a connection: node n gains parent p, which adds the link (p, n) on the parent side only. */
  lemma ConnectSecondHalf(vs: seq<NodeView>, n: nat, to: NodeView, p: string)
    requires n < |vs|
    requires to == vs[n].(parentRoomNodeIDList := vs[n].parentRoomNodeIDList + [p])
    ensures ChildEdges(vs[n := to]) == ChildEdges(vs)
    ensures ParentEdges(vs[n := to]) == ParentEdges(vs) + multiset{(p, vs[n].id)}
  {
    UpdateChildEdges(vs, n, to);
    CancelPart(ChildEdges(vs[n := to]), OutEdges(vs[n].id, vs[n].childRoomNodeIDList),
               ChildEdges(vs), multiset{});
    UpdateParentEdges(vs, n, to);
    InEdgesAppend(vs[n].parentRoomNodeIDList, p, vs[n].id);
    CancelPart(ParentEdges(vs[n := to]), InEdges(vs[n].parentRoomNodeIDList, vs[n].id),
               ParentEdges(vs), multiset{(p, vs[n].id)});
  }

  /** Connecting two nodes of the graph keeps ids unique, links mirrored and no id dangling. */
  lemma ConnectKeepsInvariant(vs: seq<NodeView>, s: nat, n: nat)
    requires s < |vs| && n < |vs| && AdjacencyInv(vs)
    ensures AdjacencyInv(ConnectAt(vs, s, n))
  {
    ConnectAddsOneEdge(vs, s, n);
    ConnectKeepsClosed(vs, s, n);
    ConnectAppendsBothLinks(vs, s, n);
  }

  /** The ids recorded by a connection are ids of the graph, so a closed graph stays closed. */
  lemma ConnectKeepsClosed(vs: seq<NodeView>, s: nat, n: nat)
    requires s < |vs| && n < |vs| && Closed(vs)
    ensures Closed(ConnectAt(vs, s, n))
  {
    var r := ConnectAt(vs, s, n);
    ConnectAppendsBothLinks(vs, s, n);
    forall x | HasId(vs, x) ensures HasId(r, x) {
      var j :| 0 <= j < |vs| && vs[j].id == x;
      assert r[j].id == x;
    }
    assert HasId(vs, vs[n].id) && HasId(vs, vs[s].id);
    forall i, x | 0 <= i < |r| && x in r[i].childRoomNodeIDList ensures HasId(r, x) {
      assert x in vs[i].childRoomNodeIDList || x == vs[n].id;
    }
    forall i, x | 0 <= i < |r| && x in r[i].parentRoomNodeIDList ensures HasId(r, x) {
      assert x in vs[i].parentRoomNodeIDList || x == vs[s].id;
    }
  }

  // ---------------------------------------------------------------------------------------
  // Selection, the connecting line, and hit-testing

  /** RoomNodeGraphEditor.ClearAllSelectedRoomNodes */
  function ClearSelection(vs: seq<NodeView>): (r: seq<NodeView>)
    ensures |r| == |vs|
    ensures forall i :: 0 <= i < |vs| ==> !r[i].isSelected && SameLinks(vs[i], r[i])
  {
    seq(|vs|, i requires 0 <= i < |vs| => vs[i].(isSelected := false))
  }

  /** After clearing, no node is selected and nothing else about any node differs. */
  lemma ClearSelectionSpec(vs: seq<NodeView>)
    ensures |ClearSelection(vs)| == |vs|
    ensures forall i :: 0 <= i < |vs| ==> !ClearSelection(vs)[i].isSelected
    ensures forall i :: 0 <= i < |vs| ==> ClearSelection(vs)[i] == vs[i].(isSelected := false)
    ensures SameAdjacency(vs, ClearSelection(vs))
  {
  }

  /** RoomNodeGraphEditor.ClearLineDrag */
  function ClearLine(g: GraphView): (r: GraphView)
    ensures r.lineFrom.None? && r.linePosition == Zero && r.nodes == g.nodes
  {
    g.(lineFrom := None, linePosition := Zero)
  }

  /**
   * RoomNodeGraphEditor.IsMouseOverRoomNode: the index of the last node in the list (the one
   * drawn on top) whose rectangle contains the point, or nothing.
   */
  function TopMost(vs: seq<NodeView>, p: Vector2): (r: Option<nat>)
    ensures InRange(r, |vs|)
    ensures r.Some? ==> Contains(vs[r.value].rect, p) && forall j :: r.value < j < |vs| ==> !Contains(vs[j].rect, p)
    ensures r.None? ==> forall i :: 0 <= i < |vs| ==> !Contains(vs[i].rect, p)
  {
    if vs == [] then None
    else if Contains(vs[|vs| - 1].rect, p) then Some(|vs| - 1)
    else TopMost(vs[..|vs| - 1], p)
  }

  /** The hit test finds node k exactly when k is hit and no later node is; it finds nothing exactly when no node is hit. */
  lemma {:induction false} TopMostIsHighestHit(vs: seq<NodeView>, p: Vector2)
    ensures TopMost(vs, p).None? <==> forall i :: 0 <= i < |vs| ==> !Contains(vs[i].rect, p)
    ensures forall k :: TopMost(vs, p) == Some(k) <==>
      (0 <= k < |vs| && Contains(vs[k].rect, p) && forall j :: k < j < |vs| ==> !Contains(vs[j].rect, p))
  {
    if vs != [] {
      var init := vs[..|vs| - 1];
      TopMostIsHighestHit(init, p);
      assert forall i :: 0 <= i < |init| ==> init[i] == vs[i];
    }
  }

  // ---------------------------------------------------------------------------------------
  // Events on the graph canvas (RoomNodeGraphEditor.ProcessRoomNodeGraphEvents)

  /** A press on empty canvas: the right button only opens the context menu; the left one clears the line and all selections. */
  function CanvasMouseDown(g: GraphView, e: Event): (r: GraphView)
    ensures |r.nodes| == |g.nodes|
    ensures e.button != 0 ==> r == g
    ensures e.button == 0 ==> r.lineFrom.None? && forall i :: 0 <= i < |r.nodes| ==> !r.nodes[i].isSelected
  {
    if e.button == 1 then g
    else if e.button == 0 then ClearLine(g).(nodes := ClearSelection(g.nodes))
    else g
  }

  /** A right release while a line is dragged links the line's start to the node under the pointer, if any, and always clears the line. */
  function CanvasMouseUp(g: GraphView, e: Event): (r: GraphView)
    requires InRange(g.lineFrom, |g.nodes|)
    ensures |r.nodes| == |g.nodes|
    ensures e.button == 1 && g.lineFrom.Some? ==> r.lineFrom.None? && r.linePosition == Zero
    ensures !(e.button == 1 && g.lineFrom.Some?) ==> r == g
  {
    if e.button == 1 && g.lineFrom.Some? then
      var linked :=
        match TopMost(g.nodes, e.mousePosition)
        case Some(k) => ConnectAt(g.nodes, g.lineFrom.value, k)
        case None => g.nodes;
      ClearLine(g.(nodes := linked))
    else g
  }

  /** A right drag while a line is dragged moves the line's end by the event's delta. */
  function CanvasMouseDrag(g: GraphView, e: Event): (r: GraphView)
    ensures r.nodes == g.nodes && r.lineFrom == g.lineFrom
    ensures g.lineFrom.None? ==> r == g
  {
    if e.button == 1 && g.lineFrom.Some? then g.(linePosition := Add(g.linePosition, e.delta)) else g
  }

  function CanvasEvent(g: GraphView, e: Event): (r: GraphView)
    requires InRange(g.lineFrom, |g.nodes|)
    ensures |r.nodes| == |g.nodes| && InRange(r.lineFrom, |r.nodes|)
  {
    match e.kind
    case MouseDown => CanvasMouseDown(g, e)
    case MouseUp => CanvasMouseUp(g, e)
    case MouseDrag => CanvasMouseDrag(g, e)
    case Other => g
  }

  /** An event delivered to node k: the node's own handlers, plus a right press starting a line from it. */
  function NodeEvent(g: GraphView, k: nat, e: Event): (r: GraphView)
    requires k < |g.nodes|
    ensures |r.nodes| == |g.nodes|
    ensures forall i :: 0 <= i < |g.nodes| && i != k ==> r.nodes[i] == g.nodes[i]
    ensures SameAdjacency(g.nodes, r.nodes)
    ensures IsRightDown(e) ==> r.lineFrom == Some(k) && r.linePosition == e.mousePosition
    ensures !IsRightDown(e) ==> r.lineFrom == g.lineFrom && r.linePosition == g.linePosition
  {
    var nodes := g.nodes[k := AfterEvent(g.nodes[k], e)];
    if IsRightDown(e) then GraphView(nodes, Some(k), e.mousePosition) else g.(nodes := nodes)
  }

  /** The current node after event e: kept while it is being left-dragged, otherwise the node under the pointer. */
  function CurrentAfter(st: EditorState, e: Event): (r: Option<nat>)
    requires WellFormed(st)
    ensures InRange(r, |st.graph.nodes|)
  {
    if st.current.None? || !st.graph.nodes[st.current.value].isLeftClickDragging
    then TopMost(st.graph.nodes, e.mousePosition)
    else st.current
  }

  /** The event goes to the canvas when no node is current or a line is being dragged, and to the current node otherwise. */
  function Dispatch(g: GraphView, current: Option<nat>, e: Event): (r: GraphView)
    requires InRange(g.lineFrom, |g.nodes|) && InRange(current, |g.nodes|)
    ensures InRange(r.lineFrom, |r.nodes|) && |r.nodes| == |g.nodes|
  {
    if current.None? || g.lineFrom.Some? then CanvasEvent(g, e) else NodeEvent(g, current.value, e)
  }

  /** RoomNodeGraphEditor.ProcessEvents: the current node is chosen first, then the event is dispatched. */
  function EditorStep(st: EditorState, e: Event): (r: EditorState)
    requires WellFormed(st)
    ensures WellFormed(r) && |r.graph.nodes| == |st.graph.nodes|
  {
    var current := CurrentAfter(st, e);
    EditorState(Dispatch(st.graph, current, e), current)
  }

  /** The editor after the events of `es`, oldest first. */
  function RunEditor(st: EditorState, es: seq<Event>): (r: EditorState)
    requires WellFormed(st)
    ensures WellFormed(r) && |r.graph.nodes| == |st.graph.nodes|
  {
    if es == [] then st else EditorStep(RunEditor(st, es[..|es| - 1]), es[|es| - 1])
  }

  /** A right release over node k while a line is dragged from s records the link s to k on both sides and ends the line. */
  lemma LineReleaseOverNodeConnects(g: GraphView, e: Event, k: nat)
    requires InRange(g.lineFrom, |g.nodes|) && g.lineFrom.Some?
    requires e.button == 1 && TopMost(g.nodes, e.mousePosition) == Some(k)
    ensures CanvasMouseUp(g, e) == GraphView(ConnectAt(g.nodes, g.lineFrom.value, k), None, Zero)
  {
  }

  /** A right release over empty canvas while a line is dragged ends the line and changes no node. */
  lemma LineReleaseOverCanvasChangesNoNode(g: GraphView, e: Event)
    requires InRange(g.lineFrom, |g.nodes|) && g.lineFrom.Some?
    requires e.button == 1 && TopMost(g.nodes, e.mousePosition).None?
    ensures CanvasMouseUp(g, e) == GraphView(g.nodes, None, Zero)
  {
  }

  /** A left press on empty canvas ends any line and deselects every node; a right press changes nothing. */
  lemma CanvasPressEffects(g: GraphView, e: Event)
    ensures e.button == 0 ==>
      var r := CanvasMouseDown(g, e);
      r.lineFrom.None? && r.linePosition == Zero && |r.nodes| == |g.nodes| &&
      forall i :: 0 <= i < |g.nodes| ==> r.nodes[i] == g.nodes[i].(isSelected := false)
    ensures e.button == 1 ==> CanvasMouseDown(g, e) == g
  {
  }

  /** While a line is dragged every event goes to the canvas, even one over a node. */
  lemma LineDragRoutesToCanvas(st: EditorState, e: Event)
    requires WellFormed(st) && st.graph.lineFrom.Some?
    ensures EditorStep(st, e).graph == CanvasEvent(st.graph, e)
  {
  }

  /** A node being left-dragged stays current and receives the event even when the pointer has left it. */
  lemma DraggedNodeKeepsEvents(st: EditorState, e: Event)
    requires WellFormed(st) && st.current.Some? && st.graph.nodes[st.current.value].isLeftClickDragging
    requires st.graph.lineFrom.None?
    ensures EditorStep(st, e) == EditorState(NodeEvent(st.graph, st.current.value, e), st.current)
  {
  }

  /** An event goes to the canvas exactly when no node is current afterwards or a line is being dragged. */
  lemma RoutingRule(st: EditorState, e: Event)
    requires WellFormed(st)
    ensures var r := EditorStep(st, e);
      (r.current.None? || st.graph.lineFrom.Some?) ==> r.graph == CanvasEvent(st.graph, e)
    ensures var r := EditorStep(st, e);
      (r.current.Some? && st.graph.lineFrom.None?) ==> r.graph == NodeEvent(st.graph, r.current.value, e)
    ensures st.current.None? || !st.graph.nodes[st.current.value].isLeftClickDragging ==>
      EditorStep(st, e).current == TopMost(st.graph.nodes, e.mousePosition)
    ensures st.current.Some? && st.graph.nodes[st.current.value].isLeftClickDragging ==>
      EditorStep(st, e).current == st.current
  {
  }

  /** Every event keeps node ids unique, every link mirrored on both sides, and no id dangling. */
  lemma StepKeepsInvariant(st: EditorState, e: Event)
    requires EditorInv(st)
    ensures EditorInv(EditorStep(st, e))
  {
    var g := st.graph;
    var r := EditorStep(st, e);
    if r.current.Some? && g.lineFrom.None? {
      var k := r.current.value;
      assert SameAdjacency(g.nodes, g.nodes[k := AfterEvent(g.nodes[k], e)]);
      SameAdjacencyKeepsInvariant(g.nodes, r.graph.nodes);
    } else {
      assert r.graph == CanvasEvent(g, e);
      match e.kind
      case MouseDown =>
        if e.button == 0 {
          ClearSelectionSpec(g.nodes);
          SameAdjacencyKeepsInvariant(g.nodes, r.graph.nodes);
        }
      case MouseUp =>
        if e.button == 1 && g.lineFrom.Some? {
          match TopMost(g.nodes, e.mousePosition)
          case Some(k) => ConnectKeepsInvariant(g.nodes, g.lineFrom.value, k);
          case None =>
        }
      case MouseDrag =>
      case Other =>
    }
  }

  /** The graph invariant holds after any sequence of events. */
  lemma {:induction false} RunKeepsInvariant(st: EditorState, es: seq<Event>)
    requires EditorInv(st)
    ensures EditorInv(RunEditor(st, es))
  {
    if es != [] {
      RunKeepsInvariant(st, es[..|es| - 1]);
      StepKeepsInvariant(RunEditor(st, es[..|es| - 1]), es[|es| - 1]);
    }
  }

  // ---------------------------------------------------------------------------------------
  // Creating nodes (RoomNodeGraphEditor.CreateRoomNode, both overloads)

  /** The size every new node's rectangle gets (nodeWidth by nodeHeight). */
  const NodeSize: Vector2 := Vector2(160.0, 75.0)

  /** Where the entrance node of an empty graph is placed. */
  const EntrancePosition: Vector2 := Vector2(200.0, 200.0)

  /** A node as it stands after creation and RoomNodeSO.Initialize. */
  function NewNode(id: string, t: Option<RoomNodeType>, position: Vector2): NodeView
  {
    NodeView(id, [], [], t, Rect(position, NodeSize), false, false)
  }

  /** The overload that takes a type: one new node of that type at the end of the list. */
  function CreateOfType(g: GraphView, position: Vector2, t: Option<RoomNodeType>, id: string): (r: GraphView)
    ensures |r.nodes| == |g.nodes| + 1 && r.nodes[..|g.nodes|] == g.nodes
    ensures r.nodes[|g.nodes|].id == id && r.nodes[|g.nodes|].roomNodeType == t
    ensures r.lineFrom == g.lineFrom && r.linePosition == g.linePosition
  {
    g.(nodes := g.nodes + [NewNode(id, t, position)])
  }

  /** The context-menu overload: an entrance node first if the graph is empty, then a node of the "none" type. */
  function Create(g: GraphView, types: seq<RoomNodeType>, position: Vector2, entranceId: string, noneId: string): (r: GraphView)
    ensures |r.nodes| == |g.nodes| + (if |g.nodes| == 0 then 2 else 1)
    ensures r.nodes[..|g.nodes|] == g.nodes
    ensures r.nodes[|r.nodes| - 1].roomNodeType == FindFirst(types, IsNoneType)
    ensures |g.nodes| == 0 ==> r.nodes[0].roomNodeType == FindFirst(types, IsEntranceType)
  {
    var first :=
      if |g.nodes| == 0 then CreateOfType(g, EntrancePosition, FindFirst(types, IsEntranceType), entranceId)
      else g;
    CreateOfType(first, position, FindFirst(types, IsNoneType), noneId)
  }

  /** On an empty graph, creation adds the entrance node and then the "none" node, and nothing else. */
  lemma CreateOnEmptyGraph(g: GraphView, types: seq<RoomNodeType>, position: Vector2, entranceId: string, noneId: string)
    requires g.nodes == []
    ensures Create(g, types, position, entranceId, noneId) ==
      g.(nodes := [NewNode(entranceId, FindFirst(types, IsEntranceType), EntrancePosition),
                   NewNode(noneId, FindFirst(types, IsNoneType), position)])
  {
  }

  /** On a non-empty graph, creation appends one "none" node and leaves the existing nodes as they were. */
  lemma CreateOnNonEmptyGraph(g: GraphView, types: seq<RoomNodeType>, position: Vector2, entranceId: string, noneId: string)
    requires g.nodes != []
    ensures Create(g, types, position, entranceId, noneId) ==
      g.(nodes := g.nodes + [NewNode(noneId, FindFirst(types, IsNoneType), position)])
  {
  }

  /** Appending a node with empty lists adds no link. */
  lemma {:induction false} AppendKeepsEdges(vs: seq<NodeView>, v: NodeView)
    requires v.childRoomNodeIDList == [] && v.parentRoomNodeIDList == []
    ensures ChildEdges(vs + [v]) == ChildEdges(vs) && ParentEdges(vs + [v]) == ParentEdges(vs)
  {
    assert (vs + [v])[..|vs|] == vs;
  }

  /** Appending a new node under a fresh id keeps the invariant. */
  lemma CreateOfTypeKeepsInvariant(g: GraphView, position: Vector2, t: Option<RoomNodeType>, id: string)
    requires GraphInv(g) && !HasId(g.nodes, id)
    ensures GraphInv(CreateOfType(g, position, t, id))
    ensures forall x :: HasId(g.nodes, x) ==> HasId(CreateOfType(g, position, t, id).nodes, x)
  {
    var vs := g.nodes;
    var ws := vs + [NewNode(id, t, position)];
    AppendKeepsEdges(vs, NewNode(id, t, position));
    forall x | HasId(vs, x) ensures HasId(ws, x) {
      var j :| 0 <= j < |vs| && vs[j].id == x;
      assert ws[j].id == x;
    }
  }

  /** Creation under fresh ids keeps the invariant. */
  lemma CreateKeepsInvariant(g: GraphView, types: seq<RoomNodeType>, position: Vector2, entranceId: string, noneId: string)
    requires GraphInv(g) && entranceId != noneId && !HasId(g.nodes, entranceId) && !HasId(g.nodes, noneId)
    ensures GraphInv(Create(g, types, position, entranceId, noneId))
  {
    if |g.nodes| == 0 {
      var first := CreateOfType(g, EntrancePosition, FindFirst(types, IsEntranceType), entranceId);
      CreateOfTypeKeepsInvariant(g, EntrancePosition, FindFirst(types, IsEntranceType), entranceId);
      assert first.nodes == [NewNode(entranceId, FindFirst(types, IsEntranceType), EntrancePosition)];
      CreateOfTypeKeepsInvariant(first, position, FindFirst(types, IsNoneType), noneId);
    } else {
      CreateOfTypeKeepsInvariant(g, position, FindFirst(types, IsNoneType), noneId);
    }
  }

  // ---------------------------------------------------------------------------------------
  // The entrance node stays first

  /** What the editor can be asked to do: handle an input event, or create a node from the context menu. */
  datatype Action = Input(e: Event) | CreateNode(position: Vector2, entranceId: string, noneId: string)

  function Apply(st: EditorState, a: Action, types: seq<RoomNodeType>): (r: EditorState)
    requires WellFormed(st)
    ensures WellFormed(r)
  {
    match a
    case Input(e) => EditorStep(st, e)
    case CreateNode(position, entranceId, noneId) =>
      st.(graph := Create(st.graph, types, position, entranceId, noneId))
  }

  function RunActions(st: EditorState, acts: seq<Action>, types: seq<RoomNodeType>): (r: EditorState)
    requires WellFormed(st)
    ensures WellFormed(r)
  {
    if acts == [] then st
    else Apply(RunActions(st, acts[..|acts| - 1], types), acts[|acts| - 1], types)
  }

  /** The graph's first node, if any, has the catalogue's entrance type. */
  predicate EntranceFirst(g: GraphView, types: seq<RoomNodeType>) {
    g.nodes != [] ==> g.nodes[0].roomNodeType == FindFirst(types, IsEntranceType)
  }

  /** Events never change a node's type. */
  lemma StepKeepsTypes(st: EditorState, e: Event)
    requires WellFormed(st)
    ensures forall i :: 0 <= i < |st.graph.nodes| ==>
      EditorStep(st, e).graph.nodes[i].roomNodeType == st.graph.nodes[i].roomNodeType
  {
    var g := st.graph;
    var r := EditorStep(st, e);
    if e.kind == MouseUp && e.button == 1 && g.lineFrom.Some? {
      match TopMost(g.nodes, e.mousePosition)
      case Some(k) => ConnectAppendsBothLinks(g.nodes, g.lineFrom.value, k);
      case None =>
    }
  }

  /**
   * Starting from an empty graph, whatever events and creations follow, the first node has the
   * entrance type: the first creation puts it there and no modelled operation changes a type
   * or removes a node.
   */
  lemma {:induction false} EntranceStaysFirst(st: EditorState, acts: seq<Action>, types: seq<RoomNodeType>)
    requires WellFormed(st) && st.graph.nodes == []
    ensures EntranceFirst(RunActions(st, acts, types).graph, types)
  {
    if acts != [] {
      var before := RunActions(st, acts[..|acts| - 1], types);
      EntranceStaysFirst(st, acts[..|acts| - 1], types);
      match acts[|acts| - 1]
      case Input(e) => StepKeepsTypes(before, e);
      case CreateNode(position, entranceId, noneId) =>
    }
  }

  /** A creation action's two ids are distinct and name no node of the graph it is applied to. */
  ghost predicate FreshAt(st: EditorState, a: Action) {
    a.CreateNode? ==>
      a.entranceId != a.noneId && !HasId(st.graph.nodes, a.entranceId) && !HasId(st.graph.nodes, a.noneId)
  }

  /**
   * Ids stay unique, links stay mirrored and no id dangles across any sequence of events and
   * creations, provided each creation draws two distinct new ids.
   */
  lemma {:induction false} ActionsKeepInvariant(st: EditorState, acts: seq<Action>, types: seq<RoomNodeType>)
    requires EditorInv(st)
    requires forall i :: 0 <= i < |acts| ==> FreshAt(RunActions(st, acts[..i], types), acts[i])
    ensures EditorInv(RunActions(st, acts, types))
  {
    if acts != [] {
      var n := |acts| - 1;
      var prefix := acts[..n];
      forall i | 0 <= i < |prefix| ensures FreshAt(RunActions(st, prefix[..i], types), prefix[i]) {
        assert prefix[..i] == acts[..i];
      }
      ActionsKeepInvariant(st, prefix, types);
      var before := RunActions(st, prefix, types);
      match acts[n]
      case Input(e) => StepKeepsInvariant(before, e);
      case CreateNode(position, entranceId, noneId) =>
        assert FreshAt(RunActions(st, acts[..n], types), acts[n]);
        CreateKeepsInvariant(before.graph, types, position, entranceId, noneId);
    }
  }
}
