/** One iteration of the main loop (src/main.rs:230-321) restricted to the
    core: advance the clock, handle input, update the mode, tick the
    signals, and every five seconds inject a signal onto the seed edge. */
module Frame {
  import opened Util
  import Geometry
  import opened GraphStore
  import opened Signals
  import opened Modes

  /** Seconds between two injections onto the seed edge. */
  const SpawnInterval: real := 5.0

  datatype State = State(
    graph: Graph,
    signals: seq<Signal>,
    mode: Mode,
    time: real,
    elapsed: real,
    seed: EdgeId)

  /** The loop's invariant: a valid store and a mode that refers only to
      what it holds. */
  ghost predicate Inv(st: State) {
    Valid(st.graph) && ModeConsistent(st.graph, st.mode)
  }

  /** The state entering the loop (src/main.rs:225-229): Base mode with
      nothing selected, no signals, and `elapsed` primed to 100 so that the
      first frame injects at once. */
  function Initial(g: Graph, seed: EdgeId): (st: State)
    requires Valid(g)
    ensures Inv(st) && st.signals == [] && st.mode == Base(None)
    ensures st.elapsed >= SpawnInterval
  {
    State(g, [], Base(None), 0.0, 100.0, seed)
  }

  /** `state.add_node` for each node in turn, with the ids it returns. */
  function AddNodes(g: Graph, ns: seq<Node>): (r: (Graph, seq<NodeId>))
    ensures |r.1| == |ns|
    decreases |ns|
  {
    if ns == [] then (g, [])
    else
      var (g1, id) := GraphStore.AddNode(g, ns[0]);
      var (g2, ids) := AddNodes(g1, ns[1..]);
      (g2, [id] + ids)
  }

  /** Adding nodes hands out consecutive fresh ids, stores each node under
      its id with an empty adjacency entry, and keeps the earlier nodes and
      the edges. */
  lemma {:induction false} AddNodesShape(g: Graph, ns: seq<Node>)
    ensures var (g', ids) := AddNodes(g, ns);
      && (forall k | 0 <= k < |ids| :: ids[k] == g.nextNode + k && ids[k] in g'.nodes && g'.nodes[ids[k]] == ns[k])
      && (forall n :: n in g'.nodes <==> n in g.nodes || g.nextNode <= n < g.nextNode + |ns|)
      && (forall n | n in g.nodes && n < g.nextNode :: g'.nodes[n] == g.nodes[n])
      && g'.edges == g.edges
      && g'.nextNode == g.nextNode + |ns| && g'.nextEdge == g.nextEdge
    decreases |ns|
  {
    if ns != [] {
      var (g1, id) := GraphStore.AddNode(g, ns[0]);
      AddNodesShape(g1, ns[1..]);
      var (g2, ids) := AddNodes(g1, ns[1..]);
      var all := [id] + ids;
      forall k | 0 < k < |all|
        ensures all[k] == g.nextNode + k && all[k] in g2.nodes && g2.nodes[all[k]] == ns[k]
      {
        assert all[k] == ids[k - 1] && ns[1..][k - 1] == ns[k];
      }
    }
  }

  /** Adding nodes to a valid store keeps it valid. */
  lemma {:induction false} AddNodesValid(g: Graph, ns: seq<Node>)
    requires Valid(g)
    ensures Valid(AddNodes(g, ns).0)
    decreases |ns|
  {
    if ns != [] {
      AddNodeFresh(g, ns[0]);
      AddNodesValid(GraphStore.AddNode(g, ns[0]).0, ns[1..]);
    }
  }

  /** One `add_edge` of a non-loop between live nodes of a valid store
      succeeds, stores the edge under the next id and keeps the store valid. */
  lemma AddEdgeStep(g: Graph, e: Edge)
    requires Valid(g) && e.src in g.nodes && e.dst in g.nodes && e.src != e.dst
    ensures GraphStore.AddEdge(g, e).Ok?
    ensures var (g', id) := GraphStore.AddEdge(g, e).value;
      && Valid(g') && id == g.nextEdge && id !in g.edges
      && g'.nodes == g.nodes && g'.edges == g.edges[id := e]
      && g'.nextNode == g.nextNode && g'.nextEdge == g.nextEdge + 1
  {
    AddEdgeKeepsLockstep(g, e);
  }

  /** `state.add_edge(Edge::new(u, v))` for each pair in turn, with the
      edge ids it returns. */
  function ConnectAll(g: Graph, pairs: seq<(NodeId, NodeId)>): (r: Result<(Graph, seq<EdgeId>)>)
    ensures r.Ok? ==> |r.value.1| == |pairs|
    decreases |pairs|
  {
    if pairs == [] then Ok((g, []))
    else
      var e :- NewEdge(pairs[0].0, pairs[0].1);
      var (g1, id) :- GraphStore.AddEdge(g, e);
      var (g2, ids) :- ConnectAll(g1, pairs[1..]);
      Ok((g2, [id] + ids))
  }

  /** Connecting distinct nodes that all have adjacency entries never
      panics: it hands out consecutive fresh edge ids, stores each pair
      under its id, and keeps the nodes, the adjacency keys and the earlier
      edges. */
  lemma {:induction false} ConnectAllShape(g: Graph, pairs: seq<(NodeId, NodeId)>)
    requires forall k | 0 <= k < |pairs| :: pairs[k].0 in g.adj && pairs[k].1 in g.adj && pairs[k].0 != pairs[k].1
    ensures ConnectAll(g, pairs).Ok?
    ensures var (g', ids) := ConnectAll(g, pairs).value;
      && (forall k | 0 <= k < |ids| :: ids[k] == g.nextEdge + k && ids[k] in g'.edges && g'.edges[ids[k]] == Edge(pairs[k].0, pairs[k].1))
      && (forall e :: e in g'.edges <==> e in g.edges || g.nextEdge <= e < g.nextEdge + |pairs|)
      && (forall e | e in g.edges && e < g.nextEdge :: g'.edges[e] == g.edges[e])
      && g'.nodes == g.nodes && g'.adj.Keys == g.adj.Keys
      && g'.nextNode == g.nextNode && g'.nextEdge == g.nextEdge + |pairs|
    decreases |pairs|
  {
    if pairs != [] {
      var e := Edge(pairs[0].0, pairs[0].1);
      var (g1, id) := GraphStore.AddEdge(g, e).value;
      var tail := pairs[1..];
      forall k | 0 <= k < |tail|
        ensures tail[k].0 in g1.adj && tail[k].1 in g1.adj && tail[k].0 != tail[k].1
      {
        assert tail[k] == pairs[k + 1];
      }
      ConnectAllShape(g1, tail);
      var (g2, ids) := ConnectAll(g1, tail).value;
      var all := [id] + ids;
      assert ConnectAll(g, pairs) == Ok((g2, all));
      forall k | 0 < k < |all|
        ensures all[k] == g.nextEdge + k && all[k] in g2.edges && g2.edges[all[k]] == Edge(pairs[k].0, pairs[k].1)
      {
        assert all[k] == ids[k - 1] && tail[k - 1] == pairs[k];
      }
    }
  }

  /** Connecting distinct live nodes of a valid store keeps it valid. */
  lemma {:induction false} ConnectAllValid(g: Graph, pairs: seq<(NodeId, NodeId)>)
    requires Valid(g)
    requires forall k | 0 <= k < |pairs| :: pairs[k].0 in g.nodes && pairs[k].1 in g.nodes && pairs[k].0 != pairs[k].1
    ensures ConnectAll(g, pairs).Ok? && Valid(ConnectAll(g, pairs).value.0)
    decreases |pairs|
  {
    if pairs != [] {
      var e := Edge(pairs[0].0, pairs[0].1);
      AddEdgeStep(g, e);
      var (g1, id) := GraphStore.AddEdge(g, e).value;
      var tail := pairs[1..];
      forall k | 0 <= k < |tail|
        ensures tail[k].0 in g1.nodes && tail[k].1 in g1.nodes && tail[k].0 != tail[k].1
      {
        assert tail[k] == pairs[k + 1];
      }
      ConnectAllValid(g1, tail);
    }
  }

  /** The nodes `main` creates, in order (src/main.rs:207-214). */
  const DemoNodes: seq<Node> := [
    Node(Geometry.Vec2(10.0, 10.0)), Node(Geometry.Vec2(50.0, 200.0)),
    Node(Geometry.Vec2(100.0, 100.0)), Node(Geometry.Vec2(200.0, 250.0)),
    Node(Geometry.Vec2(300.0, 200.0)), Node(Geometry.Vec2(-50.0, -50.0))]

  /** The demo store `main` builds before its loop (src/main.rs:206-222):
      six nodes added to the empty store, then seven edges between them by
      position in `ids`, the last of which becomes the seed edge. */
  function DemoStore(): Result<(Graph, EdgeId)> {
    var (g, ids) := AddNodes(EmptyGraph, DemoNodes);
    var (g', es) :- ConnectAll(g, [(ids[0], ids[1]), (ids[1], ids[2]), (ids[2], ids[3]),
      (ids[0], ids[4]), (ids[1], ids[4]), (ids[2], ids[4]), (ids[5], ids[0])]);
    Ok((g', es[6]))
  }

  /** Nodes added to the empty store get ids 0, 1, 2, … in order, and the
      store stays valid. */
  lemma NodesFromEmpty(ns: seq<Node>)
    ensures var (g, ids) := AddNodes(EmptyGraph, ns);
      && Valid(g) && (forall k | 0 <= k < |ids| :: ids[k] == k)
      && (forall n :: n in g.nodes <==> 0 <= n < |ns|)
      && g.edges == map[] && g.nextEdge == 0
  {
    EmptyGraphValid();
    AddNodesValid(EmptyGraph, ns);
    AddNodesShape(EmptyGraph, ns);
  }

  /** Linking nodes of a store built from the empty one, by index and
      never a node to itself, succeeds, keeps the store valid and stores
      the k-th link as edge k. */
  lemma LinksFromEmpty(ns: seq<Node>, pairs: seq<(NodeId, NodeId)>)
    requires forall k | 0 <= k < |pairs| :: pairs[k].0 < |ns| && pairs[k].1 < |ns| && pairs[k].0 != pairs[k].1
    ensures ConnectAll(AddNodes(EmptyGraph, ns).0, pairs).Ok?
    ensures var (g, ids) := ConnectAll(AddNodes(EmptyGraph, ns).0, pairs).value;
      && Valid(g)
      && (forall n :: n in g.nodes <==> 0 <= n < |ns|)
      && (forall e :: e in g.edges <==> 0 <= e < |pairs|)
      && (forall k | 0 <= k < |ids| :: ids[k] == k && g.edges[k] == Edge(pairs[k].0, pairs[k].1))
  {
    NodesFromEmpty(ns);
    var g0 := AddNodes(EmptyGraph, ns).0;
    ConnectAllValid(g0, pairs);
    ConnectAllShape(g0, pairs);
    var (g, ids) := ConnectAll(g0, pairs).value;
    forall k | 0 <= k < |ids|
      ensures ids[k] == k && g.edges[k] == Edge(pairs[k].0, pairs[k].1)
    {
      assert ids[k] == g0.nextEdge + k;
    }
  }

  /** The six demo nodes get ids 0 to 5, in order. */
  lemma DemoIds()
    ensures AddNodes(EmptyGraph, DemoNodes).1 == [0, 1, 2, 3, 4, 5]
  {
    NodesFromEmpty(DemoNodes);
  }

  /** Building the demo store panics nowhere. It holds nodes 0 to 5 and
      edges 0 to 6, is valid, and its seed edge runs from the sixth node to
      the first, so the loop starts in a state that meets its invariant. */
  lemma DemoStoreStarts()
    ensures DemoStore().Ok?
    ensures var (g, seed) := DemoStore().value;
      && Valid(g)
      && (forall n :: n in g.nodes <==> 0 <= n < 6)
      && (forall e :: e in g.edges <==> 0 <= e < 7)
      && seed == 6 && g.edges[seed] == Edge(5, 0)
      && Inv(Initial(g, seed))
  {
    DemoIds();
    var pairs := [(0, 1), (1, 2), (2, 3), (0, 4), (1, 4), (2, 4), (5, 0)];
    LinksFromEmpty(DemoNodes, pairs);
    var (g, es) := ConnectAll(AddNodes(EmptyGraph, DemoNodes).0, pairs).value;
    assert DemoStore() == Ok((g, es[6]));
  }

  /** One frame with frame time `dt`. The store and mode are those left by
      `handle_input` and then the per-frame mode update. The signals
      afterwards are those of the frame before, each stepped once against
      the edited store, plus the injected one when its period has come
      round; the arrivals are the sounds and bursts of that step. */
  method NextFrame(st: State, inp: Input, dt: real) returns (st': State, arrivals: seq<NodeId>)
    requires Inv(st)
    ensures Inv(st')
    ensures HandleInput(st.graph, st.mode, inp).Ok?
    ensures var (g1, m1) := HandleInput(st.graph, st.mode, inp).value;
      Wf(g1) && UpdateMode(g1, m1, inp.mouse) == Ok((st'.graph, st'.mode))
    ensures multiset(arrivals) == multiset(Arrivals(st'.graph, st.signals, st'.time))
    ensures st'.time == st.time + dt && st'.seed == st.seed
    ensures st.elapsed + dt >= SpawnInterval ==> st'.elapsed == 0.0
    ensures st.elapsed + dt < SpawnInterval ==> st'.elapsed == st.elapsed + dt
    ensures |arrivals| <= |st.signals|
    ensures multiset(st'.signals) ==
      multiset(Advance(st'.graph, st.signals, st'.time, dt))
      + (if st.elapsed + dt >= SpawnInterval then multiset{Signal(st.seed, st'.time)} else multiset{})
    ensures st.mode.Base? || st.mode.Delete? ==> st'.mode.Base? || st'.mode.Delete?
  {
    var time := st.time + dt;
    var elapsed := st.elapsed + dt;
    HandleInputKeepsInvariant(st.graph, st.mode, inp);
    var (g1, m1) := HandleInput(st.graph, st.mode, inp).value;
    UpdateModeKeepsInvariant(g1, m1, inp.mouse);
    var (g2, m2) := UpdateMode(g1, m1, inp.mouse).value;
    var live;
    live, arrivals := Tick(g2, st.signals, time, dt);
    ArrivalsBounded(g2, st.signals, time);
    assert |arrivals| == |Arrivals(g2, st.signals, time)| by {
      assert |multiset(arrivals)| == |multiset(Arrivals(g2, st.signals, time))|;
    }
    if elapsed >= SpawnInterval {
      elapsed := 0.0;
      live := live + [Signal(st.seed, time)];
    }
    st' := State(g2, live, m2, time, elapsed, st.seed);
  }

  /** At most one arrival per signal. */
  lemma {:induction false} ArrivalsBounded(g: Graph, ss: seq<Signal>, time: real)
    requires Wf(g)
    ensures |Arrivals(g, ss, time)| <= |ss|
    decreases |ss|
  {
    if ss != [] {
      ArrivalsBounded(g, ss[1..], time);
    }
  }
}
