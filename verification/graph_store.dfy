/** The graph store of `State` (src/main.rs:43-130): nodes and edges in
    id-keyed maps plus a per-node adjacency list of (neighbour, edge) pairs
    for incoming and outgoing edges, kept in lockstep with the edge set.
    Slot-map keys are modelled as fresh ids drawn from counters that only
    grow, so an id is never issued twice. */
module GraphStore {
  import opened Util
  import opened Geometry

  type NodeId = nat
  type EdgeId = nat

  datatype Node = Node(pos: Vec2)

  /** A directed edge from `src` to `dst`. */
  datatype Edge = Edge(src: NodeId, dst: NodeId)

  /** An adjacency entry: the node at the other end and the edge. */
  type Entry = (NodeId, EdgeId)

  datatype Adjlist = Adjlist(incoming: seq<Entry>, outgoing: seq<Entry>)

  datatype Graph = Graph(
    nodes: map<NodeId, Node>,
    edges: map<EdgeId, Edge>,
    adj: map<NodeId, Adjlist>,
    nextNode: nat,
    nextEdge: nat)

  const EmptyGraph := Graph(map[], map[], map[], 0, 0)

  /** `Edge::new` of src/edge.rs: asserts that the edge is not a self-loop. */
  function NewEdge(u: NodeId, v: NodeId): (r: Result<Edge>)
    ensures r.Ok? <==> u != v
    ensures r.Ok? ==> r.value.src == u && r.value.dst == v
  {
    if u == v then Err(SelfLoop) else Ok(Edge(u, v))
  }

  // ---------------------------------------------------------------------
  // The invariant

  /** Whether `edge` is an outgoing (`outgoing`) or incoming edge of `w`. */
  predicate Touches(edge: Edge, w: NodeId, outgoing: bool) {
    if outgoing then edge.src == w else edge.dst == w
  }

  /** `p` is the entry that edge `p.1` contributes to `w`'s outgoing
      (`outgoing`) or incoming list. */
  ghost predicate IsEntry(es: map<EdgeId, Edge>, w: NodeId, p: Entry, outgoing: bool) {
    p.1 in es && es[p.1] == (if outgoing then Edge(w, p.0) else Edge(p.0, w))
  }

  /** `l` lists every such entry exactly once and nothing else. */
  ghost predicate ListExact(es: map<EdgeId, Edge>, w: NodeId, l: seq<Entry>, outgoing: bool) {
    NoDup(l) && forall p :: p in l <==> IsEntry(es, w, p, outgoing)
  }

  ghost predicate AdjExact(g: Graph, w: NodeId)
    requires w in g.adj
  {
    ListExact(g.edges, w, g.adj[w].outgoing, true) && ListExact(g.edges, w, g.adj[w].incoming, false)
  }

  /** Every adjacency list present agrees with the edge set. */
  ghost predicate Lockstep(g: Graph) {
    forall w | w in g.adj :: AdjExact(g, w)
  }

  /** Every edge joins two distinct existing nodes. */
  ghost predicate EdgesOk(g: Graph) {
    forall e | e in g.edges ::
      g.edges[e].src in g.nodes && g.edges[e].dst in g.nodes && g.edges[e].src != g.edges[e].dst
  }

  /** Every live id was issued by the counters. */
  ghost predicate IdsIssued(g: Graph) {
    (forall n | n in g.nodes :: n < g.nextNode) && (forall e | e in g.edges :: e < g.nextEdge)
  }

  ghost predicate Wf(g: Graph) {
    g.adj.Keys == g.nodes.Keys && EdgesOk(g) && IdsIssued(g)
  }

  /** The store's invariant: well formed and adjacency in lockstep. */
  ghost predicate Valid(g: Graph) {
    Wf(g) && Lockstep(g)
  }

  /** Every edge (u, v) appears as (v, e) in u's outgoing list and as (u, e)
      in v's incoming list; every entry of every list stands for an edge. */
  lemma ValidMeansBothLists(g: Graph)
    requires Valid(g)
    ensures forall e | e in g.edges ::
      (g.edges[e].dst, e) in g.adj[g.edges[e].src].outgoing
      && (g.edges[e].src, e) in g.adj[g.edges[e].dst].incoming
    ensures forall u, p | u in g.adj && p in g.adj[u].outgoing ::
      p.1 in g.edges && g.edges[p.1] == Edge(u, p.0)
    ensures forall v, p | v in g.adj && p in g.adj[v].incoming ::
      p.1 in g.edges && g.edges[p.1] == Edge(p.0, v)
  {
    forall e | e in g.edges
      ensures (g.edges[e].dst, e) in g.adj[g.edges[e].src].outgoing
      ensures (g.edges[e].src, e) in g.adj[g.edges[e].dst].incoming
    {
      var Edge(u, v) := g.edges[e];
      assert AdjExact(g, u) && AdjExact(g, v);
      assert IsEntry(g.edges, u, (v, e), true);
      assert IsEntry(g.edges, v, (u, e), false);
    }
    forall u, p | u in g.adj && p in g.adj[u].outgoing
      ensures p.1 in g.edges && g.edges[p.1] == Edge(u, p.0)
    {
      assert AdjExact(g, u);
    }
    forall v, p | v in g.adj && p in g.adj[v].incoming
      ensures p.1 in g.edges && g.edges[p.1] == Edge(p.0, v)
    {
      assert AdjExact(g, v);
    }
  }

  lemma EmptyGraphValid()
    ensures Valid(EmptyGraph)
  {
  }

  // ---------------------------------------------------------------------
  // Per-list facts used by every operation

  /** A list stays exact when an edge that does not touch it disappears. */
  lemma ListExactDropUnrelated(g: Graph, g': Graph, w: NodeId, l: seq<Entry>, outgoing: bool, e: EdgeId)
    requires ListExact(g.edges, w, l, outgoing)
    requires g'.edges == g.edges - {e}
    requires e in g.edges ==> !Touches(g.edges[e], w, outgoing)
    ensures ListExact(g'.edges, w, l, outgoing)
  {
    forall p
      ensures p in l <==> IsEntry(g'.edges, w, p, outgoing)
    {
      assert IsEntry(g'.edges, w, p, outgoing) <==> IsEntry(g.edges, w, p, outgoing) && p.1 != e;
    }
  }

  /** A list stays exact when the entry at `i` and its edge disappear and
      `l'` holds exactly the other entries. */
  lemma ListExactDropEntry(g: Graph, g': Graph, w: NodeId, l: seq<Entry>, l': seq<Entry>, outgoing: bool, i: nat)
    requires ListExact(g.edges, w, l, outgoing) && i < |l|
    requires g'.edges == g.edges - {l[i].1}
    requires NoDup(l') && forall p :: p in l' <==> p in l && p != l[i]
    ensures ListExact(g'.edges, w, l', outgoing)
  {
    assert IsEntry(g.edges, w, l[i], outgoing);
    forall p
      ensures p in l' <==> IsEntry(g'.edges, w, p, outgoing)
    {
      if IsEntry(g.edges, w, p, outgoing) && p.1 == l[i].1 {
        assert p == l[i];
      }
    }
  }

  /** A list stays exact when a fresh edge that does not touch it appears. */
  lemma ListExactAddUnrelated(g: Graph, g': Graph, w: NodeId, l: seq<Entry>, outgoing: bool, id: EdgeId, edge: Edge)
    requires ListExact(g.edges, w, l, outgoing)
    requires id !in g.edges && g'.edges == g.edges[id := edge]
    requires !Touches(edge, w, outgoing)
    ensures ListExact(g'.edges, w, l, outgoing)
  {
    forall p
      ensures p in l <==> IsEntry(g'.edges, w, p, outgoing)
    {
      assert IsEntry(g'.edges, w, p, outgoing) <==> IsEntry(g.edges, w, p, outgoing) || (p.1 == id && Touches(edge, w, outgoing));
    }
  }

  /** A list that gets the entry of a fresh edge appended stays exact. */
  lemma ListExactAddEntry(g: Graph, g': Graph, w: NodeId, l: seq<Entry>, outgoing: bool, id: EdgeId, edge: Edge)
    requires ListExact(g.edges, w, l, outgoing)
    requires id !in g.edges && g'.edges == g.edges[id := edge]
    requires Touches(edge, w, outgoing)
    ensures ListExact(g'.edges, w, l + [(if outgoing then edge.dst else edge.src, id)], outgoing)
  {
    var x: Entry := (if outgoing then edge.dst else edge.src, id);
    assert x !in l;
    var l' := l + [x];
    forall i, j | 0 <= i < j < |l'|
      ensures l'[i] != l'[j]
    {
      if j == |l| {
        assert l'[i] in l;
      }
    }
    forall p
      ensures p in l' <==> IsEntry(g'.edges, w, p, outgoing)
    {
      assert p in l' <==> p in l || p == x;
    }
  }

  // ---------------------------------------------------------------------
  // add_node / add_edge

  /** `State::add_node` (src/main.rs:93-97). */
  function AddNode(g: Graph, node: Node): (r: (Graph, NodeId))
  {
    var id := g.nextNode;
    (g.(nodes := g.nodes[id := node], adj := g.adj[id := Adjlist([], [])], nextNode := id + 1), id)
  }

  /** `add_node` returns an id never issued before, stores the node under it
      with an empty adjacency entry, changes nothing else, and keeps the
      store valid. */
  lemma AddNodeFresh(g: Graph, node: Node)
    requires Valid(g)
    ensures var (g', id) := AddNode(g, node);
      && id !in g.nodes
      && (forall n | n in g.nodes :: n < id)
      && g'.nodes == g.nodes[id := node]
      && g'.adj == g.adj[id := Adjlist([], [])]
      && g'.edges == g.edges
      && Valid(g')
  {
    var (g', id) := AddNode(g, node);
    forall w | w in g'.adj
      ensures AdjExact(g', w)
    {
      if w != id {
        assert AdjExact(g, w);
      } else {
        assert forall e | e in g.edges :: g.edges[e].src != id && g.edges[e].dst != id;
      }
    }
  }

  /** A node id that was issued and then removed is never handed out again. */
  lemma StaleNodeIdStaysDead(g: Graph, node: Node, n: NodeId)
    requires Valid(g)
    requires n < g.nextNode && n !in g.nodes
    ensures var (g', id) := AddNode(g, node); id != n && n !in g'.nodes && n < g'.nextNode
  {
  }

  /** `State::add_edge` (src/main.rs:98-104): inserts the edge, then pushes
      (v, id) onto u's outgoing and (u, id) onto v's incoming list; indexing
      the adjacency map of an unknown endpoint panics. */
  function AddEdge(g: Graph, edge: Edge): (r: Result<(Graph, EdgeId)>)
    ensures r.Ok? <==> edge.src in g.adj && edge.dst in g.adj
    ensures r.Ok? ==> r.value.1 == g.nextEdge && r.value.0.nextEdge == g.nextEdge + 1
    ensures r.Ok? ==> r.value.0.edges == g.edges[r.value.1 := edge] && r.value.0.nodes == g.nodes
    ensures r.Ok? ==> r.value.0.adj.Keys == g.adj.Keys && r.value.0.nextNode == g.nextNode
  {
    var id := g.nextEdge;
    var edges := g.edges[id := edge];
    if edge.src !in g.adj then Err(MissingAdjList)
    else
      var su := g.adj[edge.src];
      var adj1 := g.adj[edge.src := su.(outgoing := su.outgoing + [(edge.dst, id)])];
      if edge.dst !in adj1 then Err(MissingAdjList)
      else
        var sv := adj1[edge.dst];
        var adj2 := adj1[edge.dst := sv.(incoming := sv.incoming + [(edge.src, id)])];
        Ok((Graph(g.nodes, edges, adj2, g.nextNode, id + 1), id))
  }

  /** `add_edge` of a non-self-loop between existing nodes succeeds, appends
      exactly one entry to the source node's outgoing and the destination's
      incoming list, leaves every other list alone and keeps the store valid. */
  lemma AddEdgeKeepsLockstep(g: Graph, edge: Edge)
    requires Valid(g)
    requires edge.src in g.nodes && edge.dst in g.nodes && edge.src != edge.dst
    ensures AddEdge(g, edge).Ok?
    ensures var (g', id) := AddEdge(g, edge).value;
      && id !in g.edges
      && g'.adj[edge.src].outgoing == g.adj[edge.src].outgoing + [(edge.dst, id)]
      && g'.adj[edge.dst].incoming == g.adj[edge.dst].incoming + [(edge.src, id)]
      && g'.adj[edge.src].incoming == g.adj[edge.src].incoming
      && g'.adj[edge.dst].outgoing == g.adj[edge.dst].outgoing
      && (forall w | w in g.adj && w != edge.src && w != edge.dst :: g'.adj[w] == g.adj[w])
      && g'.adj.Keys == g.adj.Keys
      && Valid(g')
  {
    var (g', id) := AddEdge(g, edge).value;
    var Edge(u, v) := edge;
    forall w | w in g'.adj
      ensures AdjExact(g', w)
    {
      AddEdgeAt(g, edge, w);
    }
  }

  /** After `add_edge`, each node's lists are exact again. */
  lemma AddEdgeAt(g: Graph, edge: Edge, w: NodeId)
    requires Valid(g) && w in g.adj
    requires edge.src in g.nodes && edge.dst in g.nodes && edge.src != edge.dst
    ensures AddEdge(g, edge).Ok? && AdjExact(AddEdge(g, edge).value.0, w)
  {
    var (g', id) := AddEdge(g, edge).value;
    var Edge(u, v) := edge;
    assert AdjExact(g, w);
    var a := g.adj[w];
    if w == u {
      ListExactAddEntry(g, g', w, a.outgoing, true, id, edge);
      ListExactAddUnrelated(g, g', w, a.incoming, false, id, edge);
    } else if w == v {
      ListExactAddUnrelated(g, g', w, a.outgoing, true, id, edge);
      ListExactAddEntry(g, g', w, a.incoming, false, id, edge);
    } else {
      ListExactAddUnrelated(g, g', w, a.outgoing, true, id, edge);
      ListExactAddUnrelated(g, g', w, a.incoming, false, id, edge);
    }
  }

  // ---------------------------------------------------------------------
  // remove_edge

  /** `State::remove_edge` (src/main.rs:122-128): removes the edge (panics
      when it is unknown), then swap-removes the first (v, e) from u's
      outgoing and the first (u, e) from v's incoming list, each found with
      `index_of(..).unwrap()`. */
  function RemoveEdge(g: Graph, e: EdgeId): (r: Result<Graph>)
    ensures e !in g.edges ==> r.Err?
    ensures r.Ok? ==> r.value.edges == g.edges - {e} && r.value.nodes == g.nodes
    ensures r.Ok? ==> r.value.adj.Keys == g.adj.Keys
    ensures r.Ok? ==> r.value.nextNode == g.nextNode && r.value.nextEdge == g.nextEdge
  {
    if e !in g.edges then Err(UnknownEdge)
    else
      var Edge(u, v) := g.edges[e];
      var edges := g.edges - {e};
      if u !in g.adj then Err(MissingAdjList)
      else
        match IndexOf(g.adj[u].outgoing, (v, e))
        case None => Err(MissingEntry)
        case Some(i) =>
          var adj1 := g.adj[u := g.adj[u].(outgoing := SwapRemove(g.adj[u].outgoing, i))];
          if v !in adj1 then Err(MissingAdjList)
          else
            match IndexOf(adj1[v].incoming, (u, e))
            case None => Err(MissingEntry)
            case Some(j) =>
              var adj2 := adj1[v := adj1[v].(incoming := SwapRemove(adj1[v].incoming, j))];
              Ok(g.(edges := edges, adj := adj2))
  }

  /** `remove_edge` of an existing edge succeeds (both `unwrap`s find their
      entry), removes exactly one entry from the source node's outgoing and the
      destination's incoming list, leaves every other list alone and keeps
      the store valid. */
  lemma RemoveEdgeKeepsLockstep(g: Graph, e: EdgeId)
    requires Valid(g) && e in g.edges
    ensures RemoveEdge(g, e).Ok?
    ensures var g' := RemoveEdge(g, e).value; var Edge(u, v) := g.edges[e];
      && multiset(g'.adj[u].outgoing) == multiset(g.adj[u].outgoing) - multiset{(v, e)}
      && multiset(g'.adj[v].incoming) == multiset(g.adj[v].incoming) - multiset{(u, e)}
      && g'.adj[u].incoming == g.adj[u].incoming
      && g'.adj[v].outgoing == g.adj[v].outgoing
      && (forall w | w in g.adj && w != u && w != v :: g'.adj[w] == g.adj[w])
      && Valid(g')
  {
    var Edge(u, v) := g.edges[e];
    assert AdjExact(g, u) && AdjExact(g, v);
    assert IsEntry(g.edges, u, (v, e), true);
    assert IsEntry(g.edges, v, (u, e), false);
    var i := IndexOf(g.adj[u].outgoing, (v, e)).value;
    var j := IndexOf(g.adj[v].incoming, (u, e)).value;
    var g' := RemoveEdge(g, e).value;
    SwapRemoveMultiset(g.adj[u].outgoing, i);
    SwapRemoveMultiset(g.adj[v].incoming, j);
    SwapRemoveNoDup(g.adj[u].outgoing, i);
    SwapRemoveNoDup(g.adj[v].incoming, j);
    forall w | w in g'.adj
      ensures AdjExact(g', w)
    {
      assert AdjExact(g, w);
      var a := g.adj[w];
      if w == u {
        ListExactDropEntry(g, g', w, a.outgoing, g'.adj[w].outgoing, true, i);
        ListExactDropUnrelated(g, g', w, a.incoming, false, e);
      } else if w == v {
        ListExactDropUnrelated(g, g', w, a.outgoing, true, e);
        ListExactDropEntry(g, g', w, a.incoming, g'.adj[w].incoming, false, j);
      } else {
        ListExactDropUnrelated(g, g', w, a.outgoing, true, e);
        ListExactDropUnrelated(g, g', w, a.incoming, false, e);
      }
    }
  }

  /** Removing an edge right after adding it restores the store; only the
      edge counter has moved on. */
  lemma AddThenRemoveEdge(g: Graph, edge: Edge)
    requires Valid(g)
    requires edge.src in g.nodes && edge.dst in g.nodes && edge.src != edge.dst
    ensures AddEdge(g, edge).Ok?
    ensures var (g', id) := AddEdge(g, edge).value;
      RemoveEdge(g', id) == Ok(g.(nextEdge := g.nextEdge + 1))
  {
    var Edge(u, v) := edge;
    var au, av := g.adj[u], g.adj[v];
    var id := g.nextEdge;
    assert (v, id) !in au.outgoing && (u, id) !in av.incoming by {
      assert AdjExact(g, u) && AdjExact(g, v);
    }
    AddThenRemoveFresh(g, edge, au.outgoing, av.incoming);
  }

  lemma AddThenRemoveFresh(g: Graph, edge: Edge, outU: seq<Entry>, inV: seq<Entry>)
    requires edge.src in g.adj && edge.dst in g.adj && edge.src != edge.dst
    requires g.nextEdge !in g.edges
    requires outU == g.adj[edge.src].outgoing && (edge.dst, g.nextEdge) !in outU
    requires inV == g.adj[edge.dst].incoming && (edge.src, g.nextEdge) !in inV
    ensures AddEdge(g, edge).Ok?
    ensures var (g', id) := AddEdge(g, edge).value;
      RemoveEdge(g', id) == Ok(g.(nextEdge := g.nextEdge + 1))
  {
    var (g', id) := AddEdge(g, edge).value;
    var Edge(u, v) := edge;
    var au, av := g.adj[u], g.adj[v];
    assert g'.adj == g.adj[u := au.(outgoing := outU + [(v, id)])][v := av.(incoming := inV + [(u, id)])];
    RemoveLastAdded(g', id, outU, inV);
    PushesUndone(g.adj, u, v, outU, inV, (v, id), (u, id));
    assert g'.edges - {id} == g.edges;
  }

  /** Setting two different lists of an adjacency map and then setting them
      back gives the map started from. */
  lemma PushesUndone(adj: map<NodeId, Adjlist>, u: NodeId, v: NodeId, outU: seq<Entry>, inV: seq<Entry>, x: Entry, y: Entry)
    requires u != v && u in adj && v in adj
    requires adj[u].outgoing == outU && adj[v].incoming == inV
    ensures var a2 := adj[u := adj[u].(outgoing := outU + [x])][v := adj[v].(incoming := inV + [y])];
      var a3 := a2[u := a2[u].(outgoing := outU)];
      a3[v := a3[v].(incoming := inV)] == adj
  {
    var a2 := adj[u := adj[u].(outgoing := outU + [x])][v := adj[v].(incoming := inV + [y])];
    var a3 := a2[u := a2[u].(outgoing := outU)];
    assert a3 == adj[v := adj[v].(incoming := inV + [y])];
  }

  /** `remove_edge` of an edge whose two entries were the last ones pushed
      pops exactly those entries. */
  lemma RemoveLastAdded(h: Graph, id: EdgeId, outU: seq<Entry>, inV: seq<Entry>)
    requires id in h.edges
    requires var Edge(u, v) := h.edges[id];
      && u != v && u in h.adj && v in h.adj
      && h.adj[u].outgoing == outU + [(v, id)] && (v, id) !in outU
      && h.adj[v].incoming == inV + [(u, id)] && (u, id) !in inV
    ensures var Edge(u, v) := h.edges[id];
      var adj1 := h.adj[u := h.adj[u].(outgoing := outU)];
      RemoveEdge(h, id) == Ok(h.(edges := h.edges - {id}, adj := adj1[v := adj1[v].(incoming := inV)]))
  {
    var Edge(u, v) := h.edges[id];
    IndexOfAppendedFresh(outU, (v, id));
    IndexOfAppendedFresh(inV, (u, id));
    PushThenSwapRemoveLast(outU, (v, id));
    PushThenSwapRemoveLast(inV, (u, id));
  }

  /** `index_of` finds a value appended to a list that lacked it at the end. */
  lemma IndexOfAppendedFresh<T>(s: seq<T>, x: T)
    requires x !in s
    ensures IndexOf(s + [x], x) == Some(|s|)
  {
  }

  // ---------------------------------------------------------------------
  // remove_node

  /** One iteration of either loop of `State::remove_node` (src/main.rs:108-117)
      for the entry (u, e) of the removed node n: swap-removes the first
      (n, e) from u's outgoing list (`fromIncoming`, first loop) or from u's
      incoming list (second loop), then drops the edge, which may already
      be gone. */
  function Unlink(g: Graph, n: NodeId, entry: Entry, fromIncoming: bool): (r: Result<Graph>)
    ensures entry.0 !in g.adj ==> r == Err(MissingAdjList)
    ensures entry.0 in g.adj ==>
      var a := g.adj[entry.0];
      (r.Err? <==> (n, entry.1) !in (if fromIncoming then a.outgoing else a.incoming))
    ensures r.Ok? ==> r.value.edges == g.edges - {entry.1} && r.value.nodes == g.nodes
    ensures r.Ok? ==> r.value.adj.Keys == g.adj.Keys
    ensures r.Ok? ==> r.value.nextNode == g.nextNode && r.value.nextEdge == g.nextEdge
  {
    var (u, e) := entry;
    if u !in g.adj then Err(MissingAdjList)
    else
      var a := g.adj[u];
      var l := if fromIncoming then a.outgoing else a.incoming;
      match IndexOf(l, (n, e))
      case None => Err(MissingEntry)
      case Some(pos) =>
        var l' := SwapRemove(l, pos);
        var a' := if fromIncoming then a.(outgoing := l') else a.(incoming := l');
        Ok(g.(adj := g.adj[u := a'], edges := g.edges - {e}))
  }

  /** The loop over the remaining entries `rest` of one list of n. */
  function Detach(g: Graph, n: NodeId, rest: seq<Entry>, fromIncoming: bool): (r: Result<Graph>)
    ensures r.Ok? ==> r.value.nodes == g.nodes && r.value.adj.Keys == g.adj.Keys
    ensures r.Ok? ==> r.value.edges.Keys <= g.edges.Keys
    ensures r.Ok? ==> forall e | e in r.value.edges :: r.value.edges[e] == g.edges[e]
    ensures r.Ok? ==> r.value.nextNode == g.nextNode && r.value.nextEdge == g.nextEdge
    decreases |rest|
  {
    if rest == [] then Ok(g)
    else
      var g1 :- Unlink(g, n, rest[0], fromIncoming);
      Detach(g1, n, rest[1..], fromIncoming)
  }

  /** `State::remove_node` (src/main.rs:105-121): takes n's adjacency entry
      out (panics when n is unknown), unlinks every incoming entry from the
      neighbour's outgoing list and every outgoing entry from the
      neighbour's incoming list, then removes the node. */
  function RemoveNode(g: Graph, n: NodeId): (r: Result<Graph>)
    ensures n !in g.adj ==> r == Err(UnknownNode)
    ensures r.Ok? ==> r.value.nodes == g.nodes - {n} && r.value.adj.Keys == g.adj.Keys - {n}
    ensures r.Ok? ==> r.value.edges.Keys <= g.edges.Keys
    ensures r.Ok? ==> r.value.nextNode == g.nextNode && r.value.nextEdge == g.nextEdge
  {
    if n !in g.adj then Err(UnknownNode)
    else
      var l := g.adj[n];
      var g1 := g.(adj := g.adj - {n});
      var g2 :- Detach(g1, n, l.incoming, true);
      var g3 :- Detach(g2, n, l.outgoing, false);
      Ok(g3.(nodes := g3.nodes - {n}))
  }

  /** The state in the middle of `remove_node`: n's adjacency entry is gone,
      every other list is exact, and `ins`/`outs` list exactly the edges into
      and out of n that are still to be unlinked. */
  ghost predicate Detaching(g: Graph, n: NodeId, ins: seq<Entry>, outs: seq<Entry>) {
    && n in g.nodes && g.adj.Keys == g.nodes.Keys - {n}
    && EdgesOk(g) && IdsIssued(g) && Lockstep(g)
    && ListExact(g.edges, n, ins, false) && ListExact(g.edges, n, outs, true)
  }

  lemma TailOfNoDup<T>(s: seq<T>)
    requires s != [] && NoDup(s)
    ensures NoDup(s[1..])
    ensures forall x :: x in s[1..] <==> x in s && x != s[0]
  {
    forall x | x in s && x != s[0]
      ensures x in s[1..]
    {
      var k :| 0 <= k < |s| && s[k] == x;
      assert s[1..][k - 1] == x;
    }
  }

  /** One unlink step keeps the mid-removal invariant and drops exactly the
      edge of the entry it handles. */
  lemma UnlinkStep(g: Graph, n: NodeId, rest: seq<Entry>, other: seq<Entry>, fromIncoming: bool)
    requires rest != []
    requires Detaching(g, n, if fromIncoming then rest else other, if fromIncoming then other else rest)
    ensures Unlink(g, n, rest[0], fromIncoming).Ok?
    ensures var g1 := Unlink(g, n, rest[0], fromIncoming).value;
      && Detaching(g1, n, if fromIncoming then rest[1..] else other, if fromIncoming then other else rest[1..])
  {
    var (u, e) := rest[0];
    assert rest[0] in rest;
    assert IsEntry(g.edges, n, (u, e), !fromIncoming);
    assert u in g.nodes && u != n;
    assert AdjExact(g, u);
    var a := g.adj[u];
    var l := if fromIncoming then a.outgoing else a.incoming;
    var lo := if fromIncoming then a.incoming else a.outgoing;
    assert ListExact(g.edges, u, l, fromIncoming);
    assert IsEntry(g.edges, u, (n, e), fromIncoming);
    var pos := IndexOf(l, (n, e)).value;
    var g1 := Unlink(g, n, rest[0], fromIncoming).value;
    SwapRemoveNoDup(l, pos);
    forall w | w in g1.adj
      ensures AdjExact(g1, w)
    {
      assert AdjExact(g, w);
      if w == u {
        ListExactDropEntry(g, g1, u, l, SwapRemove(l, pos), fromIncoming, pos);
        ListExactDropUnrelated(g, g1, u, lo, !fromIncoming, e);
      } else {
        ListExactDropUnrelated(g, g1, w, g.adj[w].outgoing, true, e);
        ListExactDropUnrelated(g, g1, w, g.adj[w].incoming, false, e);
      }
    }
    TailOfNoDup(rest);
    ListExactDropEntry(g, g1, n, rest, rest[1..], !fromIncoming, 0);
    ListExactDropUnrelated(g, g1, n, other, fromIncoming, e);
  }

  /** The loop over one list of n succeeds and removes exactly the edges in
      that direction at n. */
  lemma {:induction false} DetachCorrect(g: Graph, n: NodeId, rest: seq<Entry>, other: seq<Entry>, fromIncoming: bool)
    requires Detaching(g, n, if fromIncoming then rest else other, if fromIncoming then other else rest)
    ensures Detach(g, n, rest, fromIncoming).Ok?
    ensures var r := Detach(g, n, rest, fromIncoming).value;
      && Detaching(r, n, if fromIncoming then [] else other, if fromIncoming then other else [])
      && (forall e :: e in r.edges <==> e in g.edges && !Touches(g.edges[e], n, !fromIncoming))
    decreases |rest|
  {
    if rest == [] {
      forall e | e in g.edges
        ensures !Touches(g.edges[e], n, !fromIncoming)
      {
        var p: Entry := (if fromIncoming then g.edges[e].src else g.edges[e].dst, e);
        assert !IsEntry(g.edges, n, p, !fromIncoming);
      }
    } else {
      UnlinkStep(g, n, rest, other, fromIncoming);
      var g1 := Unlink(g, n, rest[0], fromIncoming).value;
      DetachCorrect(g1, n, rest[1..], other, fromIncoming);
      assert rest[0] in rest;
      assert IsEntry(g.edges, n, rest[0], !fromIncoming);
      var r := Detach(g1, n, rest[1..], fromIncoming).value;
      forall e
        ensures e in r.edges <==> e in g.edges && !Touches(g.edges[e], n, !fromIncoming)
      {
        if e in g1.edges {
          assert g1.edges[e] == g.edges[e];
        }
      }
    }
  }

  /** Once no list of the store mentions n any more, no edge touches n. */
  lemma NoEdgeAt(g: Graph, n: NodeId)
    requires ListExact(g.edges, n, [], false) && ListExact(g.edges, n, [], true)
    ensures forall e | e in g.edges :: g.edges[e].src != n && g.edges[e].dst != n
  {
    forall e | e in g.edges
      ensures g.edges[e].src != n && g.edges[e].dst != n
    {
      assert !IsEntry(g.edges, n, (g.edges[e].dst, e), true);
      assert !IsEntry(g.edges, n, (g.edges[e].src, e), false);
    }
  }

  /** `remove_node` of an existing node of a valid store succeeds, removes the
      node together with exactly the edges incident to it, leaves no
      adjacency entry that mentions it, and keeps the store valid. */
  lemma RemoveNodeCorrect(g: Graph, n: NodeId)
    requires Valid(g) && n in g.nodes
    ensures RemoveNode(g, n).Ok?
    ensures var r := RemoveNode(g, n).value;
      && Valid(r)
      && r.nodes == g.nodes - {n}
      && (forall e :: e in r.edges <==> e in g.edges && g.edges[e].src != n && g.edges[e].dst != n)
      && (forall e | e in r.edges :: r.edges[e] == g.edges[e])
      && (forall u, p | u in r.adj && p in r.adj[u].outgoing :: p.0 != n && p.1 in r.edges)
      && (forall u, p | u in r.adj && p in r.adj[u].incoming :: p.0 != n && p.1 in r.edges)
  {
    var l := g.adj[n];
    var g1 := g.(adj := g.adj - {n});
    StartRemoval(g, n);
    DetachCorrect(g1, n, l.incoming, l.outgoing, true);
    var g2 := Detach(g1, n, l.incoming, true).value;
    DetachCorrect(g2, n, l.outgoing, [], false);
    var g3 := Detach(g2, n, l.outgoing, false).value;
    var r := g3.(nodes := g3.nodes - {n});
    assert RemoveNode(g, n) == Ok(r);
    FinishRemoval(g3, n);
  }

  /** Taking n's adjacency entry out enters the mid-removal invariant with
      n's own two lists still to do. */
  lemma StartRemoval(g: Graph, n: NodeId)
    requires Valid(g) && n in g.nodes
    ensures Detaching(g.(adj := g.adj - {n}), n, g.adj[n].incoming, g.adj[n].outgoing)
  {
    var g1 := g.(adj := g.adj - {n});
    assert AdjExact(g, n);
    forall w | w in g1.adj
      ensures AdjExact(g1, w)
    {
      assert AdjExact(g, w);
    }
  }

  /** Dropping n from the node map once both of its lists are used up
      restores the invariant. */
  lemma FinishRemoval(g: Graph, n: NodeId)
    requires Detaching(g, n, [], [])
    ensures var r := g.(nodes := g.nodes - {n});
      && Valid(r)
      && (forall e | e in r.edges :: r.edges[e].src != n && r.edges[e].dst != n)
      && (forall u, p | u in r.adj && p in r.adj[u].outgoing :: p.0 != n && p.1 in r.edges)
      && (forall u, p | u in r.adj && p in r.adj[u].incoming :: p.0 != n && p.1 in r.edges)
  {
    var r := g.(nodes := g.nodes - {n});
    NoEdgeAt(g, n);
    assert Lockstep(r) by {
      forall w | w in r.adj
        ensures AdjExact(r, w)
      {
        assert AdjExact(g, w);
      }
    }
    ValidMeansBothLists(r);
  }

  /** A self-loop at n (which `Edge::new` forbids, but main.rs's own `Edge`
      does not) makes `remove_node` panic: the first loop looks up n's own,
      already removed, adjacency entry. */
  lemma SelfLoopPanics(g: Graph, n: NodeId, e: EdgeId)
    requires n in g.adj && e in g.edges && g.edges[e] == Edge(n, n)
    requires ListExact(g.edges, n, g.adj[n].incoming, false)
    ensures RemoveNode(g, n).Err?
  {
    assert IsEntry(g.edges, n, (n, e), false);
    var l := g.adj[n];
    var g1 := g.(adj := g.adj - {n});
    var k := IndexOf(l.incoming, (n, e)).value;
    DetachPanicsAt(g1, n, l.incoming, k);
  }

  /** The first loop fails once it reaches an entry whose neighbour has no
      adjacency entry; every earlier step keeps that neighbour absent. */
  lemma {:induction false} DetachPanicsAt(g: Graph, n: NodeId, rest: seq<Entry>, k: nat)
    requires k < |rest| && rest[k].0 !in g.adj
    ensures Detach(g, n, rest, true).Err?
    decreases k
  {
    if k == 0 {
    } else {
      var r1 := Unlink(g, n, rest[0], true);
      if r1.Ok? {
        assert rest[1..][k - 1] == rest[k];
        DetachPanicsAt(r1.value, n, rest[1..], k - 1);
      }
    }
  }

  /** Removing a node right after adding it gives the store back, apart from
      the node counter. */
  lemma AddThenRemoveNode(g: Graph, node: Node)
    requires Valid(g)
    ensures var (g', id) := AddNode(g, node);
      RemoveNode(g', id) == Ok(g.(nextNode := g.nextNode + 1))
  {
    var (g', id) := AddNode(g, node);
    assert g'.adj - {id} == g.adj;
    assert g'.nodes - {id} == g.nodes;
  }
}
