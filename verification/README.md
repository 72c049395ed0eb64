# mus sequencer core in Dafny

A model of the sequencer engine of `mus`, a node-graph rhythm machine.
Signals travel along directed edges drawn on a canvas. When a signal arrives
at a node it triggers a sound and fans out onto every outgoing edge of that
node. The model covers four parts of the engine, and proves properties of
each:

- **Graph store** (`graph_store.dfy`). This is `Edge::new` (from
  `src/edge.rs`) and `State::add_node`,
  `add_edge`, `remove_node` and `remove_edge`. Nodes and edges live in
  id-keyed maps, and each node has an `Adjlist` of (neighbour, edge) pairs
  for its incoming and outgoing edges.
  - The invariant `Valid` says that every adjacency list holds exactly the
    entries of the edges at that node, with none twice.
  - Slot-map keys are modelled as fresh ids drawn from counters that only
    grow.
  - A panic (`unwrap` on `None`, or indexing a missing key) is modelled as
    an `Err` of `Result`.
  - On a valid store, no internal `index_of(..).unwrap()` or adjacency
    index can panic when the node or edge passed in exists. An unknown node
    or edge passed to `remove_node`, `remove_edge` or `add_edge` still
    panics, as it does in `mus`. Through `HandleInputKeepsInvariant` and
    `NextFrame`, no frame panics while the invariant holds.
- **Signal tick** (`signals.dfy`). This is the reverse `swap_remove`/`push`
  loop of the main loop, written as the method `Tick` with loop invariants.
  - `Tick` proves that every signal present at the start of the tick is
    stepped exactly once and that signals pushed during the tick are not
    stepped.
  - Sounds and particle bursts are recorded as the list of nodes where
    signals arrived.
- **Editing modes** (`modes.dfy`). This is `handle_input`, the drag in Base
  mode and the hover computation of Delete mode. Clicking in Delete mode
  calls the graph store, so the two are verified together.
- **Helpers**:
  - `index_of` and `Vec::swap_remove` (`util.dfy`);
  - the clamped point-to-segment distance `Edge::distance_squared`
    (`geometry.dfy`);
  - one frame of the main loop, and the demo store `main` builds before
    it (`frame.dfy`).

Times and coordinates are `real`.

Some choices in the model:

- **Which `Edge` is modelled.** `src/main.rs` declares its own `Edge`
  (src/main.rs:132-148) and never includes `src/edge.rs`. The `Edge::new`
  in main.rs has no `u != v` assertion; the one in edge.rs does.
  `GraphStore.NewEdge` follows edge.rs. `GraphStore.SelfLoopPanics` shows
  why the assertion matters: with a self-loop, `remove_node` looks up the
  adjacency entry it has just removed.
- **Iteration order.** The order in which the slot maps are walked is
  modelled as ascending id.

## Model

| member | source | states |
|---|---|---|
| Util.IndexOfFrom | src/util.rs:9-11 | The position found from `k` on holds the element and no earlier position from `k` does. It is None exactly when the element does not occur from `k` on. |
| Util.IndexOf | src/util.rs:9-11 | `index_of` returns the first position of the element, and None exactly when the element is not in the vector. |
| Util.SwapRemove | src/main.rs:124-127 | `swap_remove(i)` shortens the vector by one and moves the last element into slot `i`. Every other slot is unchanged. |
| Util.SwapRemoveMultiset | src/main.rs:125 | `swap_remove` drops exactly one occurrence of the removed value. |
| Util.SwapRemoveNoDup | src/main.rs:109 | On a list without duplicates, `swap_remove` keeps the list duplicate-free and removes exactly the value at `i`. |
| Util.SwapRemoveSuffix | src/main.rs:272 | Slots before `i` are untouched. The slots from `i` on hold exactly what followed `i` before. This is what lets the reverse loop skip nothing and revisit nothing. |
| Util.PushThenSwapRemoveLast | src/main.rs:101-125 | Pushing a value and then swap-removing it at its own position gives back the original list. |
| Util.Ascending | src/main.rs:169 | The walk order holds exactly the live ids, each once and in increasing order. |
| Geometry.DistSq | src/edge.rs:17 | Squared distance is non-negative and zero from a point to itself. |
| Geometry.Clamp | src/edge.rs:21 | `clamp` lands in [lo, hi] and leaves values already inside unchanged. |
| Geometry.ProjectionParam | src/edge.rs:21 | The projection parameter lies in [clamp/2, 1 - clamp/2]. |
| Geometry.SegmentDistSq | src/edge.rs:14-24 | The result is non-negative. For a zero-length edge it is the squared distance from the pointer to the edge's start. |
| Geometry.SegmentDistIsNearest | src/edge.rs:21-23 | The result equals the squared distance from the pointer to the clamped projection, and no point of the clamped sub-segment is nearer. |
| Geometry.ClampedMinimum | src/edge.rs:21 | The clamped minimiser of the distance parabola is optimal on the clamp interval. |
| Geometry.ProjectionAvoidsEndpoints | src/edge.rs:21-22 | With a positive clamp the projected point is never an endpoint. With the caller's clamp of 0.5 the parameter lies in [0.25, 0.75]. |
| GraphStore.NewEdge | src/edge.rs:10-13 | Construction succeeds exactly when u != v, and the edge stores the ordered pair (u, v). |
| GraphStore.ValidMeansBothLists | src/main.rs:98-104 | Under the invariant, each edge (u, v) is in u's outgoing and v's incoming list, and each list entry stands for an edge. |
| GraphStore.AddNodeFresh | src/main.rs:93-97 | `AddNode`, the model of `add_node`, returns an id not in use and above every live id, with an empty adjacency entry. Nothing else changes and the store stays valid. |
| GraphStore.StaleNodeIdStaysDead | src/main.rs:93-97 | An id that was issued and then removed is never handed out again. |
| GraphStore.AddEdge | src/main.rs:98-104 | `add_edge` panics exactly when an endpoint has no adjacency entry. Otherwise it returns the next edge id and stores the edge under it, keeping the nodes, the adjacency keys and the node counter. |
| GraphStore.AddEdgeKeepsLockstep | src/main.rs:98-104 | `add_edge` appends (v, id) to u's outgoing list and (u, id) to v's incoming list. No other list changes and the store stays valid. |
| GraphStore.RemoveEdge | src/main.rs:122-128 | `remove_edge` of an unknown edge panics. Success removes exactly that edge and keeps nodes, adjacency keys and counters. |
| GraphStore.RemoveEdgeKeepsLockstep | src/main.rs:122-128 | On a valid store both `unwrap`s succeed. The source node's outgoing and the destination node's incoming list each lose exactly one entry, every other list is unchanged, and the store stays valid. |
| GraphStore.AddThenRemoveEdge | src/main.rs:98-128 | Removing an edge right after adding it restores the store, except for the edge counter. |
| GraphStore.Unlink | src/main.rs:107-117 | One loop iteration of `remove_node`. It panics exactly when the neighbour has no adjacency entry or its list lacks (n, e), the two `unwrap`s. On success it drops the edge and keeps nodes, adjacency keys and counters. |
| GraphStore.Detach | src/main.rs:107-117 | The loop over one list only removes edges, leaving surviving edges unchanged. It keeps nodes, adjacency keys and counters. |
| GraphStore.RemoveNode | src/main.rs:105-121 | `remove_node` of an unknown node panics. Success removes the node and its adjacency entry, removes edges only, and keeps the counters. |
| GraphStore.UnlinkStep | src/main.rs:107-117 | Each iteration finds its entry in the neighbour's list (the `unwrap` succeeds) and keeps the mid-removal invariant. |
| GraphStore.DetachCorrect | src/main.rs:107-117 | Each loop succeeds and removes exactly the edges in its direction at the node. |
| GraphStore.RemoveNodeCorrect | src/main.rs:105-121 | On a valid store, `remove_node` succeeds and keeps the store valid. It removes the node and exactly the edges incident to it, leaves other edges untouched, and leaves no list mentioning the node or a removed edge. |
| GraphStore.SelfLoopPanics | src/main.rs:106-108 | A self-loop at a node makes `remove_node` panic. |
| GraphStore.DetachPanicsAt | src/main.rs:107-108 | The first loop panics once it reaches an entry whose neighbour has no adjacency entry. |
| GraphStore.AddThenRemoveNode | src/main.rs:93-121 | Removing a node right after adding it restores the store, except for the node counter. |
| Signals.FanOut | src/main.rs:293-298 | There is one new signal per outgoing entry, in list order, each on that entry's edge and starting at the carried-over time. |
| Signals.PushFanOut | src/main.rs:293-298 | The push loop appends exactly the fan-out to the end of the list. |
| Signals.Tick | src/main.rs:270-301 | As a multiset, the tick's result is every signal present at the start stepped exactly once, with pushed signals left unstepped. There is one recorded arrival per arriving signal. |
| Signals.Visit | src/main.rs:271-283 | One iteration changes only slot `i` and what lies behind it, and it replaces that slot by exactly the step of its signal. |
| Signals.Arrive | src/main.rs:284-300 | On arrival, the fan-out replaces the signal and the arrival is recorded at the edge's destination. |
| Signals.StepOutcomes | src/main.rs:271-300 | `Step` and `Arrival` model one iteration of the loop body, as the signals it leaves and the node where it sounds. A signal on a vanished edge disappears without an arrival. On a leftward edge, the signal stays on its edge with elapsed time frozen. On a rightward edge, it arrives exactly when its arrival instant has passed and becomes the fan-out starting at that instant; otherwise it is left unchanged. |
| Signals.DueIffReached | src/main.rs:281-283 | The test `elapsed * SIGNAL_SPEED < dx` is the same as the arrival instant lying after the current time. |
| Signals.ArrivalIndependentOfTick | src/main.rs:285-288 | Carry-over: the signals produced by an arrival start at the arrival instant, whatever the time of the tick that notices it. |
| Signals.FanOutIsOutgoing | src/main.rs:290-298 | On a valid store, the fan-out at v covers exactly the edges leaving v, each once, all with the same start time. |
| Signals.AdvanceAppend | src/main.rs:270 | Stepping a list is stepping its parts, for both signals and arrivals. |
| Signals.AdvanceReorder | src/main.rs:270-300 | The tick's result does not depend on the order in which signals are held, so `swap_remove` reordering is harmless. |
| Modes.OrdersComplete | src/main.rs:247-255 | The node and edge walks each visit every live id exactly once. |
| Modes.FirstWithinFrom | src/main.rs:169-175 | The loop stops at the first node within NODE_RADIUS² of the pointer, and finds none exactly when no node is within it. |
| Modes.Pick | src/main.rs:168-175 | A picked node exists and is within reach. |
| Modes.PickIsFirstWithin | src/main.rs:168-175 | Nothing is picked exactly when no node is within reach; otherwise the first node in walk order is picked. |
| Modes.NodePass | src/main.rs:245-253 | The node scan ends at a minimum no node lies strictly below. It selects a node exactly at that minimum, strictly nearer than the starting value. |
| Modes.EdgePass | src/main.rs:254-261 | The edge scan ends with no edge passing both tests against the final minimum. An edge replaces the selection only when it is strictly nearer than the running minimum and than 4*node_dist. |
| Modes.FourfoldTestRedundant | src/main.rs:257 | The `d < 4.0*node_dist` test never changes the outcome of the edge scan. |
| Modes.HoverNode | src/main.rs:244-263 | `DeleteHover` models the scan. A hovered node is at squared distance at most 100² from the pointer and is no farther than every node and every edge. |
| Modes.HoverEdge | src/main.rs:244-263 | For the `DeleteHover` scan, a hovered edge is at squared distance at most 100² from the pointer, is strictly nearer than every node, and is no farther than every edge. |
| Modes.HoverNone | src/main.rs:244-263 | The `DeleteHover` scan hovers nothing exactly when every node and every edge is at squared distance above 100². |
| Modes.DeleteHoverNearest | src/main.rs:244-263 | The hovered node is no farther than every node and every edge. A hovered edge is strictly nearer than every node and no farther than every edge. The hover lies within 100², and nothing is hovered exactly when everything is beyond that. |
| Modes.Commit | src/main.rs:182-187 | A click only ever removes nodes and edges. On a valid store with an existing hover it cannot panic and keeps the store valid. A hovered node goes with exactly the edges at it, and the surviving edges keep their endpoints. A hovered edge goes alone. With nothing hovered the store is unchanged. |
| Modes.HandleInput | src/main.rs:163-198 | Only Delete mode can change the store. |
| Modes.HandleInputKeepsInvariant | src/main.rs:163-198 | On a valid store with a consistent mode, input never panics and keeps both invariants. The transitions are: X toggles Base and Delete with nothing selected; a release in Base clears the selection; in Base(None) without X or release, the left button held selects the node `Pick` finds, and the mode stays Base(None) when there is none; a held selection stays; Delete + X returns to Base(None); a click in Delete clears the hover; AddEdge/AddNode are inert. |
| Modes.DeleteClickRemoves | src/main.rs:181-189 | A click on a hovered node removes it and exactly the edges at it. A click on a hovered edge removes exactly that edge. |
| Modes.ToggleTwice | src/main.rs:165-191 | Pressing X twice returns to Base(None) with the store untouched. |
| Modes.UpdateMode | src/main.rs:238-268 | In Delete mode the store is unchanged and the new hover is the nearest node or edge within 100², or nothing when everything is farther. In Base mode with a selection the update panics exactly when the node is gone. Otherwise it moves that node onto the pointer and changes nothing else. The other modes are left alone. |
| Modes.UpdateModeKeepsInvariant | src/main.rs:238-243 | Dragging moves exactly the selected node onto the pointer. Edges, adjacency and the set of nodes are unchanged, and the invariants hold. |
| Frame.Initial | src/main.rs:223-229 | The loop starts valid in Base(None) with no signals, primed to inject on the first frame. |
| GraphStore.EmptyGraphValid | src/main.rs:48-52 | The empty store of `State::default()` is valid. |
| Frame.AddNodesShape | src/main.rs:207-214 | `AddNodes`, which calls `add_node` once per node, hands out consecutive fresh ids and stores each node under its id. The earlier nodes and the edges are kept. |
| Frame.AddNodesValid | src/main.rs:207-214 | Adding nodes one by one keeps a valid store valid. |
| Frame.AddEdgeStep | src/main.rs:98-104 | One `add_edge` of a non-loop between live nodes of a valid store succeeds. It stores the edge under the next id and keeps the store valid. |
| Frame.ConnectAllShape | src/main.rs:216-222 | `ConnectAll`, which calls `add_edge(Edge::new(u, v))` once per pair, never panics when the pairs are distinct nodes with adjacency entries. It hands out consecutive fresh edge ids, stores each pair under its id, and keeps the nodes and the earlier edges. |
| Frame.ConnectAllValid | src/main.rs:216-222 | Connecting distinct live nodes one pair at a time keeps a valid store valid. |
| Frame.NodesFromEmpty | src/main.rs:206-214 | Nodes added to the empty store get ids 0, 1, 2, … in order, and the store is valid. |
| Frame.LinksFromEmpty | src/main.rs:206-222 | Linking distinct nodes of such a store by index succeeds and stores the k-th link as edge k. The result is valid. |
| Frame.DemoIds | src/main.rs:207-214 | The six demo nodes get ids 0 to 5, in order. |
| Frame.DemoStoreStarts | src/main.rs:206-229 | Building the demo store (`DemoStore`) panics nowhere. It holds nodes 0 to 5 and edges 0 to 6, its seed edge runs from the sixth node to the first, and the loop starts in a state that meets its invariant. |
| Frame.NextFrame | src/main.rs:230-316 | One frame keeps the invariants. The store and mode are exactly those of `handle_input` followed by the per-frame mode update, and neither panics. The clock advances by dt and each old signal is stepped exactly once against the edited store. The arrivals are exactly the sounds and bursts of that step. Every five seconds one signal is injected on the seed edge at the new time and the timer resets. |
| Frame.ArrivalsBounded | src/main.rs:283-292 | There is at most one sound and burst per signal and tick. |

## Left out

- Audio (`src/audio.rs`) and the `tx.send(..).unwrap()` at src/main.rs:284 are not modelled. Each arrival is recorded as the destination node id, so a failing channel is not modelled.
- Particles (`src/particle.rs`, src/main.rs:292, 302-308) are visual only. A burst is the same arrival record.
- Rendering (`src/render.rs`), `src/translation.rs`, `src/node.rs` and `Selection::get_center` are display-only, or not used by the core.
- The camera keys and pointer offset (src/main.rs:151-162, 233) are left out. The input record carries the pointer already in world coordinates.
- The `AddEdge` and `AddNode` modes have no handling in `handle_input` (src/main.rs:194-196), so they are modelled as inert.
- f32 rounding, NaN and overflow are not modelled: times and coordinates are `real`. `f32::INFINITY` becomes `Dist.Infinite`.
- Frame.DemoStoreStarts: the concrete ids 0 to 6 come from the counter model of slot-map keys. `mus` only promises distinct fresh keys.
- Slot-map slot reuse is not modelled. Ids come from counters, so iteration follows ascending id rather than the slot map's physical slot order.
- Geometry.DistSq: states `a == b ==> r == 0` but not the converse. The converse holds over the reals but needs nonlinear reasoning the model avoids, so non-degenerate edges are stated as `DistSq(a, b) != 0.0`, the test `distance_squared` itself makes.
- Modes.DeleteHoverNearest: does not say which of several equally near nodes or edges is chosen. The scan keeps the first in walk order.
- Modes.PickIsFirstWithin: states "first" through ascending ids, which is the modelled walk order, not the slot map's actual order.
- Frame.NextFrame: requires the invariant instead of modelling the panics a broken state would raise. `HandleInput` models the panics of a Delete click as errors, and `UpdateMode` models the drag's panic on a missing node as an error. Lemmas show that these cannot occur under the invariant. The Delete-mode hover scan (`DeleteHover`, inside `UpdateMode`) and `Signals.Tick` instead require `Wf`, and so do not model the indexing panics at src/main.rs:140-141, 276 and 290-293. `Inv` supplies `Wf` at their only call site in `NextFrame`.
- The per-tick camera pan and `state.dt` bookkeeping are left out because they have no effect on the core.
