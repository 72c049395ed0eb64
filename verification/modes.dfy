/** The editing-mode state machine: the transitions of `handle_input`
    (src/main.rs:163-198) and the per-frame mode update of the main loop
    (src/main.rs:238-268), which drags the selected node in Base mode and
    recomputes the hovered node or edge in Delete mode. */
module Modes {
  import opened Util
  import opened Geometry
  import opened GraphStore

  /** `NODE_RADIUS.powi(2)` with `NODE_RADIUS = 14`: how close the pointer
      must be to a node's centre to pick it up. */
  const PickRadiusSq: real := 196.0
  /** `100.0 * 100.0`: beyond this squared distance nothing is hovered. */
  const HoverCutoffSq: real := 10000.0
  /** The clamp passed to `Edge::distance_squared` when hovering edges. */
  const EdgeClamp: real := 0.5

  datatype Selection = NodeSel(node: NodeId) | EdgeSel(edge: EdgeId)

  datatype Mode =
    | Base(selected: Option<NodeId>)
    | AddEdge(first: Option<NodeId>)
    | AddNode
    | Delete(hover: Option<Selection>)

  /** What the input devices report for one frame; the pointer position is
      already in world coordinates. */
  datatype Input = Input(
    xPressed: bool,
    leftPressed: bool,
    leftDown: bool,
    leftReleased: bool,
    mouse: Vec2)

  /** The order in which the node and edge maps are walked. */
  function NodeOrder(g: Graph): (r: seq<NodeId>)
    ensures forall k | 0 <= k < |r| :: r[k] in g.nodes
  {
    var r := Ascending(g.nodes.Keys, g.nextNode);
    assert forall k | 0 <= k < |r| :: r[k] in r;
    r
  }

  function EdgeOrder(g: Graph): (r: seq<EdgeId>)
    ensures forall k | 0 <= k < |r| :: r[k] in g.edges
  {
    var r := Ascending(g.edges.Keys, g.nextEdge);
    assert forall k | 0 <= k < |r| :: r[k] in r;
    r
  }

  /** Under the store's invariant the walks visit every live id once. */
  lemma OrdersComplete(g: Graph)
    requires Wf(g)
    ensures forall n :: n in NodeOrder(g) <==> n in g.nodes
    ensures forall e :: e in EdgeOrder(g) <==> e in g.edges
    ensures NoDup(NodeOrder(g)) && NoDup(EdgeOrder(g))
  {
    AscendingNoDup(g.nodes.Keys, g.nextNode);
    AscendingNoDup(g.edges.Keys, g.nextEdge);
  }

  /** A mode only refers to things the store holds. */
  ghost predicate ModeConsistent(g: Graph, mode: Mode) {
    match mode
    case Base(Some(v)) => v in g.nodes
    case Delete(Some(NodeSel(n))) => n in g.nodes
    case Delete(Some(EdgeSel(e))) => e in g.edges
    case _ => true
  }

  // ---------------------------------------------------------------------
  // Picking a node in Base mode

  predicate Within(g: Graph, n: NodeId, mouse: Vec2)
    requires n in g.nodes
  {
    DistSq(g.nodes[n].pos, mouse) <= PickRadiusSq
  }

  /** The position, from `k` on, of the first node of `order` within the
      pick radius: the `for … break` of src/main.rs:169-175. */
  function FirstWithinFrom(g: Graph, order: seq<NodeId>, mouse: Vec2, k: nat): (r: Option<nat>)
    requires k <= |order| && forall j | 0 <= j < |order| :: order[j] in g.nodes
    ensures r.Some? ==> k <= r.value < |order| && Within(g, order[r.value], mouse)
    ensures r.Some? ==> forall j | k <= j < r.value :: !Within(g, order[j], mouse)
    ensures r.None? <==> forall j | k <= j < |order| :: !Within(g, order[j], mouse)
    decreases |order| - k
  {
    if k == |order| then None
    else if Within(g, order[k], mouse) then Some(k)
    else FirstWithinFrom(g, order, mouse, k + 1)
  }

  /** The node a press picks up, if any. */
  function Pick(g: Graph, mouse: Vec2): (r: Option<NodeId>)
    ensures r.Some? ==> r.value in g.nodes && Within(g, r.value, mouse)
  {
    match FirstWithinFrom(g, NodeOrder(g), mouse, 0)
    case Some(k) => Some(NodeOrder(g)[k])
    case None => None
  }

  /** Pick takes the first node in walk order within the radius, and picks
      nothing exactly when no node is within it. */
  lemma PickIsFirstWithin(g: Graph, mouse: Vec2)
    requires Wf(g)
    ensures Pick(g, mouse).None? <==> forall n | n in g.nodes :: !Within(g, n, mouse)
    ensures Pick(g, mouse).Some? ==>
      forall n | n in g.nodes && Within(g, n, mouse) :: Pick(g, mouse).value <= n
  {
    var order := NodeOrder(g);
    OrdersComplete(g);
    var r := FirstWithinFrom(g, order, mouse, 0);
    if r.None? {
      forall n | n in g.nodes
        ensures !Within(g, n, mouse)
      {
        var k :| 0 <= k < |order| && order[k] == n;
      }
    } else {
      var p := r.value;
      forall n | n in g.nodes && Within(g, n, mouse)
        ensures order[p] <= n
      {
        var k :| 0 <= k < |order| && order[k] == n;
        assert p <= k;
        AscendingMonotone(g.nodes.Keys, g.nextNode, p, k);
      }
    }
  }

  lemma AscendingMonotone(s: set<nat>, bound: nat, i: nat, j: nat)
    requires i <= j < |Ascending(s, bound)|
    ensures Ascending(s, bound)[i] <= Ascending(s, bound)[j]
  {
  }

  // ---------------------------------------------------------------------
  // Hovering in Delete mode

  /** A running minimum of the scan: `f32::INFINITY` before anything has
      been seen. */
  datatype Dist = Infinite | Finite(val: real)

  predicate Below(d: real, m: Dist) {
    m.Infinite? || d < m.val
  }

  function Scale4(m: Dist): Dist {
    if m.Infinite? then Infinite else Finite(4.0 * m.val)
  }

  predicate Exceeds(m: Dist, bound: real) {
    m.Infinite? || m.val > bound
  }

  /** `m` is at most `m0`. */
  predicate NoAbove(m: Dist, m0: Dist) {
    m0.Infinite? || (m.Finite? && m.val <= m0.val)
  }

  function NodeDist(g: Graph, n: NodeId, mouse: Vec2): real
    requires n in g.nodes
  {
    DistSq(g.nodes[n].pos, mouse)
  }

  function EdgeDist(g: Graph, e: EdgeId, mouse: Vec2): real
    requires Wf(g) && e in g.edges
  {
    SegmentDistSq(mouse, g.nodes[g.edges[e].src].pos, g.nodes[g.edges[e].dst].pos, EdgeClamp)
  }

  /** The node scan of src/main.rs:246-253 over `order`, from the running
      minimum `m` and selection `sel`. It ends with a minimum nothing in
      `order` lies strictly below, and either leaves (m, sel) alone or
      selects a node of `order` strictly nearer than `m`, at the new minimum. */
  function NodePass(g: Graph, order: seq<NodeId>, mouse: Vec2, m: Dist, sel: Option<Selection>): (r: (Dist, Option<Selection>))
    requires forall k | 0 <= k < |order| :: order[k] in g.nodes
    ensures NoAbove(r.0, m)
    ensures forall k | 0 <= k < |order| :: !Below(NodeDist(g, order[k], mouse), r.0)
    ensures r == (m, sel)
         || (r.1.Some? && r.1.value.NodeSel? && r.1.value.node in order
             && r.0 == Finite(NodeDist(g, r.1.value.node, mouse)) && Below(r.0.val, m))
    decreases |order|
  {
    if order == [] then (m, sel)
    else
      var d := NodeDist(g, order[0], mouse);
      assert forall k | 0 <= k < |order[1..]| :: order[1..][k] == order[k + 1];
      if Below(d, m) then NodePass(g, order[1..], mouse, Finite(d), Some(NodeSel(order[0])))
      else NodePass(g, order[1..], mouse, m, sel)
  }

  /** The edge scan of src/main.rs:255-262: an edge replaces the running
      selection when it is nearer than four times the nearest node and
      nearer than the running minimum. */
  function EdgePass(g: Graph, order: seq<EdgeId>, mouse: Vec2, nodeDist: Dist, m: Dist, sel: Option<Selection>)
    : (r: (Dist, Option<Selection>))
    requires Wf(g) && forall k | 0 <= k < |order| :: order[k] in g.edges
    ensures NoAbove(r.0, m)
    ensures forall k | 0 <= k < |order| ::
      !(Below(EdgeDist(g, order[k], mouse), Scale4(nodeDist)) && Below(EdgeDist(g, order[k], mouse), r.0))
    ensures r == (m, sel)
         || (r.1.Some? && r.1.value.EdgeSel? && r.1.value.edge in order
             && r.0 == Finite(EdgeDist(g, r.1.value.edge, mouse)) && Below(r.0.val, m)
             && Below(r.0.val, Scale4(nodeDist)))
    decreases |order|
  {
    if order == [] then (m, sel)
    else
      var d := EdgeDist(g, order[0], mouse);
      assert forall k | 0 <= k < |order[1..]| :: order[1..][k] == order[k + 1];
      if Below(d, Scale4(nodeDist)) && Below(d, m) then
        EdgePass(g, order[1..], mouse, nodeDist, Finite(d), Some(EdgeSel(order[0])))
      else EdgePass(g, order[1..], mouse, nodeDist, m, sel)
  }

  /** The edge scan without the `4.0*node_dist` test. */
  function EdgePassPlain(g: Graph, order: seq<EdgeId>, mouse: Vec2, m: Dist, sel: Option<Selection>)
    : (Dist, Option<Selection>)
    requires Wf(g) && forall k | 0 <= k < |order| :: order[k] in g.edges
    decreases |order|
  {
    if order == [] then (m, sel)
    else
      var d := EdgeDist(g, order[0], mouse);
      if Below(d, m) then EdgePassPlain(g, order[1..], mouse, Finite(d), Some(EdgeSel(order[0])))
      else EdgePassPlain(g, order[1..], mouse, m, sel)
  }

  /** The test `d < 4.0*node_dist` never decides anything: the scan starts
      from the nearest node's distance and only goes down, and distances are
      never negative, so `d < min_dist` already implies it. Edges are not
      biased against as the factor suggests. */
  lemma {:induction false} FourfoldTestRedundant(g: Graph, order: seq<EdgeId>, mouse: Vec2, nodeDist: Dist, m: Dist, sel: Option<Selection>)
    requires Wf(g) && forall k | 0 <= k < |order| :: order[k] in g.edges
    requires NoAbove(m, nodeDist) && (nodeDist.Finite? ==> nodeDist.val >= 0.0)
    ensures EdgePass(g, order, mouse, nodeDist, m, sel) == EdgePassPlain(g, order, mouse, m, sel)
    decreases |order|
  {
    if order != [] {
      var d := EdgeDist(g, order[0], mouse);
      assert forall k | 0 <= k < |order[1..]| :: order[1..][k] == order[k + 1];
      if Below(d, m) {
        assert Below(d, Scale4(nodeDist));
        FourfoldTestRedundant(g, order[1..], mouse, nodeDist, Finite(d), Some(EdgeSel(order[0])));
      } else {
        FourfoldTestRedundant(g, order[1..], mouse, nodeDist, m, sel);
      }
    }
  }

  /** The hover selection of src/main.rs:244-264. */
  function DeleteHover(g: Graph, mouse: Vec2): Option<Selection>
    requires Wf(g)
  {
    var (nodeDist, sel1) := NodePass(g, NodeOrder(g), mouse, Infinite, None);
    var (m, sel2) := EdgePass(g, EdgeOrder(g), mouse, nodeDist, nodeDist, sel1);
    if Exceeds(m, HoverCutoffSq) then None else sel2
  }

  /** `h` is the nearest thing to the pointer: a node no farther than every
      node and every edge, or an edge strictly nearer than every node and no
      farther than every edge; and only within the cutoff. Nothing is
      hovered exactly when everything is beyond it. */
  ghost predicate NearestHover(g: Graph, mouse: Vec2, h: Option<Selection>)
    requires Wf(g)
  {
      && (h.Some? && h.value.NodeSel? ==>
            var n := h.value.node;
            && n in g.nodes && NodeDist(g, n, mouse) <= HoverCutoffSq
            && (forall n' | n' in g.nodes :: NodeDist(g, n, mouse) <= NodeDist(g, n', mouse))
            && (forall e | e in g.edges :: NodeDist(g, n, mouse) <= EdgeDist(g, e, mouse)))
      && (h.Some? && h.value.EdgeSel? ==>
            var e := h.value.edge;
            && e in g.edges && EdgeDist(g, e, mouse) <= HoverCutoffSq
            && (forall n | n in g.nodes :: EdgeDist(g, e, mouse) < NodeDist(g, n, mouse))
            && (forall e' | e' in g.edges :: EdgeDist(g, e, mouse) <= EdgeDist(g, e', mouse)))
      && (h.None? <==>
            (forall n | n in g.nodes :: NodeDist(g, n, mouse) > HoverCutoffSq)
            && (forall e | e in g.edges :: EdgeDist(g, e, mouse) > HoverCutoffSq))
  }

  /** The hover selection of Delete mode is the nearest thing to the pointer
      within the cutoff. */
  lemma DeleteHoverNearest(g: Graph, mouse: Vec2)
    requires Wf(g)
    ensures NearestHover(g, mouse, DeleteHover(g, mouse))
  {
    HoverNode(g, mouse);
    HoverEdge(g, mouse);
    HoverNone(g, mouse);
  }

  /** A hovered node is within the cutoff and nearest of all. */
  lemma HoverNode(g: Graph, mouse: Vec2)
    requires Wf(g)
    ensures var h := DeleteHover(g, mouse);
      h.Some? && h.value.NodeSel? ==>
        var n := h.value.node;
        && n in g.nodes && NodeDist(g, n, mouse) <= HoverCutoffSq
        && (forall n' | n' in g.nodes :: NodeDist(g, n, mouse) <= NodeDist(g, n', mouse))
        && (forall e | e in g.edges :: NodeDist(g, n, mouse) <= EdgeDist(g, e, mouse))
  {
    var (nodeDist, sel1) := NodePass(g, NodeOrder(g), mouse, Infinite, None);
    var (m, sel2) := EdgePass(g, EdgeOrder(g), mouse, nodeDist, nodeDist, sel1);
    ScanFloor(g, mouse);
  }

  /** A hovered edge is within the cutoff, strictly nearer than every node
      and no farther than every edge. */
  lemma HoverEdge(g: Graph, mouse: Vec2)
    requires Wf(g)
    ensures var h := DeleteHover(g, mouse);
      h.Some? && h.value.EdgeSel? ==>
        var e := h.value.edge;
        && e in g.edges && EdgeDist(g, e, mouse) <= HoverCutoffSq
        && (forall n | n in g.nodes :: EdgeDist(g, e, mouse) < NodeDist(g, n, mouse))
        && (forall e' | e' in g.edges :: EdgeDist(g, e, mouse) <= EdgeDist(g, e', mouse))
  {
    var (nodeDist, sel1) := NodePass(g, NodeOrder(g), mouse, Infinite, None);
    var (m, sel2) := EdgePass(g, EdgeOrder(g), mouse, nodeDist, nodeDist, sel1);
    ScanFloor(g, mouse);
  }

  /** Nothing is hovered exactly when everything is beyond the cutoff. */
  lemma HoverNone(g: Graph, mouse: Vec2)
    requires Wf(g)
    ensures DeleteHover(g, mouse).None? <==>
      (forall n | n in g.nodes :: NodeDist(g, n, mouse) > HoverCutoffSq)
      && (forall e | e in g.edges :: EdgeDist(g, e, mouse) > HoverCutoffSq)
  {
    var (nodeDist, sel1) := NodePass(g, NodeOrder(g), mouse, Infinite, None);
    var (m, sel2) := EdgePass(g, EdgeOrder(g), mouse, nodeDist, nodeDist, sel1);
    ScanFloor(g, mouse);
  }

  /** What the two scans leave behind: no node lies below the node minimum
      and no edge below the final minimum. */
  lemma ScanFloor(g: Graph, mouse: Vec2)
    requires Wf(g)
    ensures var (nodeDist, sel1) := NodePass(g, NodeOrder(g), mouse, Infinite, None);
      var (m, _) := EdgePass(g, EdgeOrder(g), mouse, nodeDist, nodeDist, sel1);
      && (forall n | n in g.nodes :: !Below(NodeDist(g, n, mouse), nodeDist))
      && (forall e | e in g.edges :: !Below(EdgeDist(g, e, mouse), m))
  {
    var (nodeDist, sel1) := NodePass(g, NodeOrder(g), mouse, Infinite, None);
    var (m, _) := EdgePass(g, EdgeOrder(g), mouse, nodeDist, nodeDist, sel1);
    OrdersComplete(g);
    var nodes, edges := NodeOrder(g), EdgeOrder(g);
    forall n | n in g.nodes
      ensures !Below(NodeDist(g, n, mouse), nodeDist)
    {
      var k :| 0 <= k < |nodes| && nodes[k] == n;
    }
    forall e | e in g.edges
      ensures !Below(EdgeDist(g, e, mouse), m)
    {
      var k :| 0 <= k < |edges| && edges[k] == e;
      if nodeDist.Finite? {
        assert nodeDist == Finite(NodeDist(g, sel1.value.node, mouse));
        assert nodeDist.val >= 0.0;
      }
    }
  }

  // ---------------------------------------------------------------------
  // handle_input

  /** What a click on `sel` leaves of `g`: a node goes together with
      exactly the edges at it, an edge goes alone, and with nothing hovered
      the store stays as it was. Surviving edges keep their endpoints. */
  ghost predicate ClickRemoves(g: Graph, sel: Option<Selection>, g': Graph) {
    match sel
    case None => g' == g
    case Some(NodeSel(n)) =>
      && g'.nodes == g.nodes - {n}
      && (forall e :: e in g'.edges <==> e in g.edges && g.edges[e].src != n && g.edges[e].dst != n)
      && (forall e | e in g'.edges :: g'.edges[e] == g.edges[e])
    case Some(EdgeSel(e)) =>
      && g'.nodes == g.nodes
      && g'.edges == g.edges - {e}
  }

  /** The click in Delete mode (src/main.rs:182-187): removes the hovered
      node or edge. It only ever takes things away; on a valid store with a
      hover that exists it cannot panic, removes exactly what was clicked
      and keeps the store valid. */
  function Commit(g: Graph, sel: Option<Selection>): (r: Result<Graph>)
    ensures r.Ok? ==> r.value.nodes.Keys <= g.nodes.Keys && r.value.edges.Keys <= g.edges.Keys
    ensures Valid(g) && ModeConsistent(g, Delete(sel)) ==>
      r.Ok? && Valid(r.value) && ClickRemoves(g, sel, r.value)
  {
    match sel
    case Some(NodeSel(n)) => CommitNode(g, n); RemoveNode(g, n)
    case Some(EdgeSel(e)) => CommitEdge(g, e); RemoveEdge(g, e)
    case None => Ok(g)
  }

  lemma CommitNode(g: Graph, n: NodeId)
    ensures Valid(g) && n in g.nodes ==>
      RemoveNode(g, n).Ok? && Valid(RemoveNode(g, n).value) && ClickRemoves(g, Some(NodeSel(n)), RemoveNode(g, n).value)
  {
    if Valid(g) && n in g.nodes {
      RemoveNodeCorrect(g, n);
    }
  }

  lemma CommitEdge(g: Graph, e: EdgeId)
    ensures Valid(g) && e in g.edges ==>
      RemoveEdge(g, e).Ok? && Valid(RemoveEdge(g, e).value) && ClickRemoves(g, Some(EdgeSel(e)), RemoveEdge(g, e).value)
  {
    if Valid(g) && e in g.edges {
      RemoveEdgeKeepsLockstep(g, e);
    }
  }

  /** `handle_input` (src/main.rs:163-198), without the camera keys. In Base
      mode X enters Delete mode, and otherwise holding the left button with
      nothing selected picks a node; a left release then clears the
      selection. In Delete mode a left press removes the hovered thing and
      clears the hover, and X returns to Base mode. The other modes ignore
      input. A removal that would panic is an error. */
  function HandleInput(g: Graph, mode: Mode, inp: Input): (r: Result<(Graph, Mode)>)
    ensures !mode.Delete? ==> r.Ok? && r.value.0 == g
  {
    match mode
    case Base(selected) =>
      var m1 :=
        if inp.xPressed then Delete(None)
        else if inp.leftDown && selected.None? then
          (match Pick(g, inp.mouse) case Some(v) => Base(Some(v)) case None => mode)
        else mode;
      Ok((g, if inp.leftReleased then Base(None) else m1))
    case Delete(sel) =>
      var g1 :- if inp.leftPressed then Commit(g, sel) else Ok(g);
      var m1 := if inp.leftPressed then Delete(None) else mode;
      Ok((g1, if inp.xPressed then Base(None) else m1))
    case _ => Ok((g, mode))
  }

  /** With a valid store and a consistent mode, input handling never panics,
      keeps the store valid and the mode consistent, and follows the mode
      table: X toggles between Base and Delete with nothing selected, a left
      release in Base clears the selection, a press with nothing selected
      picks only a node within reach, and the inert modes stay put. */
  lemma HandleInputKeepsInvariant(g: Graph, mode: Mode, inp: Input)
    requires Valid(g) && ModeConsistent(g, mode)
    ensures HandleInput(g, mode, inp).Ok?
    ensures var (g', mode') := HandleInput(g, mode, inp).value;
      && Valid(g') && ModeConsistent(g', mode')
      && (mode.Base? && inp.xPressed && !inp.leftReleased ==> mode' == Delete(None))
      && (mode.Base? && inp.leftReleased ==> mode' == Base(None))
      && (mode.Base? && mode.selected.None? && mode'.Base? && mode'.selected.Some? ==>
            inp.leftDown && Within(g, mode'.selected.value, inp.mouse))
      && (mode == Base(None) && !inp.xPressed && !inp.leftReleased ==>
            mode' == if inp.leftDown && Pick(g, inp.mouse).Some? then Base(Pick(g, inp.mouse)) else Base(None))
      && (mode.Base? && mode.selected.Some? && !inp.xPressed && !inp.leftReleased ==> mode' == mode)
      && (mode.Delete? && inp.xPressed ==> mode' == Base(None))
      && (mode.Delete? && !inp.xPressed ==> mode' == if inp.leftPressed then Delete(None) else mode)
      && (mode.Delete? && !inp.leftPressed ==> g' == g)
      && (mode.AddEdge? || mode.AddNode? ==> mode' == mode)
  {
  }

  /** A click in Delete mode on the hovered node removes it with every edge
      at it and nothing else; on the hovered edge it removes exactly that
      edge. */
  lemma DeleteClickRemoves(g: Graph, sel: Selection, inp: Input)
    requires Valid(g) && ModeConsistent(g, Delete(Some(sel))) && inp.leftPressed
    ensures HandleInput(g, Delete(Some(sel)), inp).Ok?
    ensures var g' := HandleInput(g, Delete(Some(sel)), inp).value.0;
      && (sel.NodeSel? ==>
            && g'.nodes == g.nodes - {sel.node}
            && (forall e :: e in g'.edges <==> e in g.edges && g.edges[e].src != sel.node && g.edges[e].dst != sel.node))
      && (sel.EdgeSel? ==> g'.nodes == g.nodes && g'.edges == g.edges - {sel.edge})
  {
  }

  /** Pressing X twice without touching the mouse comes back to Base mode
      with nothing selected and the store untouched. */
  lemma ToggleTwice(g: Graph, selected: Option<NodeId>, inp: Input)
    requires inp.xPressed && !inp.leftPressed && !inp.leftReleased
    ensures HandleInput(g, Base(selected), inp) == Ok((g, Delete(None)))
    ensures HandleInput(g, Delete(None), inp) == Ok((g, Base(None)))
  {
  }

  // ---------------------------------------------------------------------
  // The per-frame mode update

  /** `g'` is `g` with node `v` dragged onto the pointer: every other node,
      every edge, the adjacency and the id counters stay as they were. */
  ghost predicate Dragged(g: Graph, v: NodeId, mouse: Vec2, g': Graph) {
    && g'.nodes.Keys == g.nodes.Keys
    && v in g'.nodes && g'.nodes[v].pos == mouse
    && (forall n | n in g.nodes && n != v :: g'.nodes[n] == g.nodes[n])
    && g'.edges == g.edges && g'.adj == g.adj
    && g'.nextNode == g.nextNode && g'.nextEdge == g.nextEdge
  }

  /** src/main.rs:238-268: in Base mode the selected node follows the
      pointer (indexing a missing node panics); in Delete mode the hover
      becomes the nearest node or edge within the cutoff. Nothing else
      changes the store or the mode. */
  function UpdateMode(g: Graph, mode: Mode, mouse: Vec2): (r: Result<(Graph, Mode)>)
    requires Wf(g)
    ensures mode.Delete? ==>
      r.Ok? && r.value.0 == g && r.value.1.Delete? && NearestHover(g, mouse, r.value.1.hover)
    ensures mode.Base? && mode.selected.Some? ==>
      (r.Ok? <==> mode.selected.value in g.nodes)
      && (r.Ok? ==> r.value.1 == mode && Dragged(g, mode.selected.value, mouse, r.value.0))
    ensures mode == Base(None) || mode.AddEdge? || mode.AddNode? ==> r == Ok((g, mode))
  {
    match mode
    case Base(Some(v)) =>
      if v !in g.nodes then Err(UnknownNode)
      else Ok((g.(nodes := g.nodes[v := g.nodes[v].(pos := mouse)]), mode))
    case Delete(_) =>
      DeleteHoverNearest(g, mouse);
      Ok((g, Delete(DeleteHover(g, mouse))))
    case _ => Ok((g, mode))
  }

  /** Dragging moves exactly the selected node onto the pointer and keeps
      the store valid; the Delete update hovers only existing things. */
  lemma UpdateModeKeepsInvariant(g: Graph, mode: Mode, mouse: Vec2)
    requires Valid(g) && ModeConsistent(g, mode)
    ensures UpdateMode(g, mode, mouse).Ok?
    ensures var (g', mode') := UpdateMode(g, mode, mouse).value;
      && Valid(g') && ModeConsistent(g', mode') && mode'.Base? == mode.Base?
      && g'.edges == g.edges && g'.adj == g.adj && g'.nodes.Keys == g.nodes.Keys
      && (mode.Base? && mode.selected.Some? ==>
            g'.nodes[mode.selected.value].pos == mouse
            && forall n | n in g.nodes && n != mode.selected.value :: g'.nodes[n] == g.nodes[n])
      && (!(mode.Base? && mode.selected.Some?) ==> g' == g)
  {
    if mode.Base? && mode.selected.Some? {
      var v := mode.selected.value;
      var g' := UpdateMode(g, mode, mouse).value.0;
      assert Lockstep(g') by {
        forall w | w in g'.adj
          ensures AdjExact(g', w)
        {
          assert AdjExact(g, w);
        }
      }
    }
  }
}
