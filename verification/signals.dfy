/** The signal tick of the main loop (src/main.rs:270-301): every signal
    present at the start of the tick is pruned, stalled, left in transit or,
    on arrival, replaced by one signal per outgoing edge of the destination.
    Sound and particle bursts are recorded as the list of destination nodes
    that a signal reached. */
module Signals {
  import opened Util
  import opened GraphStore

  /** Horizontal pixels a signal travels per second: `PX_PER_BAR / BAR_TIME`,
      that is 150 pixels per 10-second bar. */
  const SignalSpeed: real := 15.0

  /** A signal travelling along `edge` since `startTime`. */
  datatype Signal = Signal(edge: EdgeId, startTime: real)

  /** Horizontal extent of an edge: how far a signal on it has to travel. */
  function Run(g: Graph, e: EdgeId): real
    requires Wf(g) && e in g.edges
  {
    g.nodes[g.edges[e].dst].pos.x - g.nodes[g.edges[e].src].pos.x
  }

  /** The instant a signal reaches the end of its (rightward) edge. */
  function ArrivalTime(g: Graph, s: Signal): real
    requires Wf(g) && s.edge in g.edges
  {
    s.startTime + Run(g, s.edge) / SignalSpeed
  }

  /** One new signal per entry of the destination's outgoing list, in list
      order, all starting at `start`. */
  function FanOut(outs: seq<Entry>, start: real): (r: seq<Signal>)
    ensures |r| == |outs|
    ensures forall k :: 0 <= k < |r| ==> r[k] == Signal(outs[k].1, start)
  {
    if outs == [] then [] else [Signal(outs[0].1, start)] + FanOut(outs[1..], start)
  }

  /** What one iteration of the tick loop turns the signal `s` into. */
  function Step(g: Graph, s: Signal, time: real, dt: real): seq<Signal>
    requires Wf(g)
  {
    if s.edge !in g.edges then []
    else
      var dx := Run(g, s.edge);
      if dx < 0.0 then [s.(startTime := s.startTime + dt)]
      else if (time - s.startTime) * SignalSpeed < dx then [s]
      else FanOut(g.adj[g.edges[s.edge].dst].outgoing, s.startTime + dx / SignalSpeed)
  }

  /** The node at which `s` arrives during this tick, if any: where the
      sound is triggered and the particle burst is spawned. */
  function Arrival(g: Graph, s: Signal, time: real): Option<NodeId>
    requires Wf(g)
  {
    if s.edge !in g.edges then None
    else
      var dx := Run(g, s.edge);
      if dx < 0.0 || (time - s.startTime) * SignalSpeed < dx then None
      else Some(g.edges[s.edge].dst)
  }

  /** Every signal of `ss` stepped exactly once; nothing else. */
  function Advance(g: Graph, ss: seq<Signal>, time: real, dt: real): seq<Signal>
    requires Wf(g)
  {
    if ss == [] then [] else Step(g, ss[0], time, dt) + Advance(g, ss[1..], time, dt)
  }

  /** The arrivals of the signals of `ss`, one per arriving signal. */
  function Arrivals(g: Graph, ss: seq<Signal>, time: real): seq<NodeId>
    requires Wf(g)
  {
    if ss == [] then []
    else
      (match Arrival(g, ss[0], time) case Some(v) => [v] case None => [])
      + Arrivals(g, ss[1..], time)
  }

  lemma AdvanceAt(g: Graph, ss: seq<Signal>, i: nat, time: real, dt: real)
    requires Wf(g) && i < |ss|
    ensures Advance(g, ss[i..], time, dt) == Step(g, ss[i], time, dt) + Advance(g, ss[i + 1..], time, dt)
    ensures Arrivals(g, ss[i..], time)
         == (match Arrival(g, ss[i], time) case Some(v) => [v] case None => []) + Arrivals(g, ss[i + 1..], time)
  {
    assert ss[i..][0] == ss[i];
    assert ss[i..][1..] == ss[i + 1..];
  }

  /** The fan-out loop (src/main.rs:293-298): pushes one signal per
      outgoing entry onto the end of the list. */
  method PushFanOut(live: seq<Signal>, outs: seq<Entry>, start: real) returns (r: seq<Signal>)
    ensures r == live + FanOut(outs, start)
  {
    r := live;
    var k := 0;
    while k < |outs|
      invariant 0 <= k <= |outs|
      invariant |r| == |live| + k
      invariant r[..|live|] == live
      invariant forall j :: 0 <= j < k ==> r[|live| + j] == Signal(outs[j].1, start)
    {
      r := r + [Signal(outs[k].1, start)];
      k := k + 1;
    }
    assert r == live + FanOut(outs, start);
  }

  /** The tick loop of src/main.rs:270-301. It walks the list from the back
      with `swap_remove` and `push`; the result holds, as a multiset, every
      signal present at the start stepped exactly once, and the signals it
      pushes are never stepped again in the same tick. */
  method Tick(g: Graph, signals: seq<Signal>, time: real, dt: real) returns (live: seq<Signal>, arrivals: seq<NodeId>)
    requires Wf(g)
    ensures multiset(live) == multiset(Advance(g, signals, time, dt))
    ensures multiset(arrivals) == multiset(Arrivals(g, signals, time))
  {
    live := signals;
    arrivals := [];
    var i := |signals|;
    while i > 0
      invariant 0 <= i <= |signals| && i <= |live|
      invariant live[..i] == signals[..i]
      invariant multiset(live[i..]) == multiset(Advance(g, signals[i..], time, dt))
      invariant multiset(arrivals) == multiset(Arrivals(g, signals[i..], time))
    {
      i := i - 1;
      ghost var before, arrivalsBefore := live, arrivals;
      live, arrivals := Visit(g, live, arrivals, i, time, dt);
      TickStep(g, signals, before, live, arrivalsBefore, arrivals, i, time, dt);
    }
  }

  /** The body of the tick loop for the signal at index `i`: only the slot
      `i` and what lies behind it change, and they change by exactly the
      step of that signal. */
  method Visit(g: Graph, live: seq<Signal>, arrivals: seq<NodeId>, i: nat, time: real, dt: real)
    returns (live': seq<Signal>, arrivals': seq<NodeId>)
    requires Wf(g) && i < |live|
    ensures i <= |live'| && live'[..i] == live[..i]
    ensures multiset(live'[i..]) == multiset(Step(g, live[i], time, dt)) + multiset(live[i + 1..])
    ensures multiset(arrivals') == multiset(arrivals)
      + multiset(match Arrival(g, live[i], time) case Some(v) => [v] case None => [])
  {
    var s := live[i];
    arrivals' := arrivals;
    if s.edge !in g.edges {
      assert Step(g, s, time, dt) == [] && Arrival(g, s, time) == None;
      SwapRemoveSuffix(live, i);
      live' := SwapRemove(live, i);
      return;
    }
    var Edge(u, v) := g.edges[s.edge];
    var dx := g.nodes[v].pos.x - g.nodes[u].pos.x;
    assert dx == Run(g, s.edge);
    if dx < 0.0 {
      var s' := s.(startTime := s.startTime + dt);
      assert Step(g, s, time, dt) == [s'] && Arrival(g, s, time) == None;
      live' := live[i := s'];
      ReplaceAt(live, i, s');
      return;
    }
    var t := time - s.startTime;
    assert Arrival(g, s, time) == if t * SignalSpeed < dx then None else Some(v);
    if t * SignalSpeed < dx {
      assert Step(g, s, time, dt) == [s];
      live' := live;
      assert live[i..] == [s] + live[i + 1..] by {
        assert live[i..][0] == s && live[i..][1..] == live[i + 1..];
      }
      return;
    }
    live', arrivals' := Arrive(g, live, arrivals, i, time, dt);
  }

  /** The arrival branch of the loop body (src/main.rs:283-300): carry the
      start time over to the exact arrival instant, record the arrival at the
      destination, push one signal per outgoing edge and swap-remove the
      arrived signal. */
  method Arrive(g: Graph, live: seq<Signal>, arrivals: seq<NodeId>, i: nat, time: real, dt: real)
    returns (live': seq<Signal>, arrivals': seq<NodeId>)
    requires Wf(g) && i < |live| && live[i].edge in g.edges
    requires 0.0 <= Run(g, live[i].edge) <= (time - live[i].startTime) * SignalSpeed
    ensures i <= |live'| && live'[..i] == live[..i]
    ensures multiset(live'[i..]) == multiset(Step(g, live[i], time, dt)) + multiset(live[i + 1..])
    ensures arrivals' == arrivals + [g.edges[live[i].edge].dst]
  {
    var s := live[i];
    var dx := Run(g, s.edge);
    var to := g.edges[s.edge].dst;
    var start := s.startTime + dx / SignalSpeed;
    ghost var fan := FanOut(g.adj[to].outgoing, start);
    assert Step(g, s, time, dt) == fan;
    arrivals' := arrivals + [to];
    live' := live[i := s.(startTime := start)];
    live' := PushFanOut(live', g.adj[to].outgoing, start);
    ReplaceThenAppend(live, i, s.(startTime := start), fan);
    SwapRemoveSuffix(live', i);
    live' := SwapRemove(live', i);
  }

  lemma ReplaceAt<T>(s: seq<T>, i: nat, x: T)
    requires i < |s|
    ensures s[i := x][..i] == s[..i]
    ensures s[i := x][i + 1..] == s[i + 1..]
    ensures s[i := x][i..] == [x] + s[i + 1..]
  {
  }

  lemma ReplaceThenAppend<T>(s: seq<T>, i: nat, x: T, tail: seq<T>)
    requires i < |s|
    ensures (s[i := x] + tail)[..i] == s[..i]
    ensures (s[i := x] + tail)[i + 1..] == s[i + 1..] + tail
  {
    assert (s[i := x] + tail)[i + 1..] == s[i := x][i + 1..] + tail;
  }

  /** One iteration of the tick loop re-establishes its invariant: the
      slot at `i` is replaced by the step of `signals[i]`. */
  lemma TickStep(g: Graph, signals: seq<Signal>, before: seq<Signal>, after: seq<Signal>,
                 arrBefore: seq<NodeId>, arrAfter: seq<NodeId>, i: nat, time: real, dt: real)
    requires Wf(g) && i < |signals| && i < |before|
    requires before[..i + 1] == signals[..i + 1]
    requires multiset(before[i + 1..]) == multiset(Advance(g, signals[i + 1..], time, dt))
    requires multiset(arrBefore) == multiset(Arrivals(g, signals[i + 1..], time))
    requires i <= |after| && after[..i] == before[..i]
    requires multiset(after[i..]) == multiset(Step(g, before[i], time, dt)) + multiset(before[i + 1..])
    requires multiset(arrAfter) == multiset(arrBefore)
      + multiset(match Arrival(g, before[i], time) case Some(v) => [v] case None => [])
    ensures after[..i] == signals[..i]
    ensures multiset(after[i..]) == multiset(Advance(g, signals[i..], time, dt))
    ensures multiset(arrAfter) == multiset(Arrivals(g, signals[i..], time))
  {
    assert before[i] == signals[i] by {
      assert before[..i + 1][i] == signals[..i + 1][i];
    }
    assert before[..i] == signals[..i] by {
      assert before[..i] == before[..i + 1][..i];
      assert signals[..i] == signals[..i + 1][..i];
    }
    AdvanceAt(g, signals, i, time, dt);
  }

  // ---------------------------------------------------------------------
  // What one step does, stated through the arrival instant

  /** The four outcomes of one visit (src/main.rs:271-300). A signal whose
      edge is gone vanishes without an arrival; one on a leftward edge stays
      on it with its elapsed time frozen; one on a rightward edge arrives
      exactly when its arrival instant has passed, and then becomes the
      fan-out at the destination starting at that instant; otherwise it is
      left as it is. */
  lemma StepOutcomes(g: Graph, s: Signal, time: real, dt: real)
    requires Wf(g)
    ensures s.edge !in g.edges ==> Step(g, s, time, dt) == [] && Arrival(g, s, time) == None
    ensures s.edge in g.edges && Run(g, s.edge) < 0.0 ==>
      && Arrival(g, s, time) == None
      && |Step(g, s, time, dt)| == 1
      && Step(g, s, time, dt)[0].edge == s.edge
      && (time + dt) - Step(g, s, time, dt)[0].startTime == time - s.startTime
    ensures s.edge in g.edges && Run(g, s.edge) >= 0.0 ==>
      (Arrival(g, s, time).Some? <==> ArrivalTime(g, s) <= time)
    ensures s.edge in g.edges && Run(g, s.edge) >= 0.0 && time < ArrivalTime(g, s) ==>
      Step(g, s, time, dt) == [s]
    ensures s.edge in g.edges && Run(g, s.edge) >= 0.0 && ArrivalTime(g, s) <= time ==>
      && Arrival(g, s, time) == Some(g.edges[s.edge].dst)
      && Step(g, s, time, dt) == FanOut(g.adj[g.edges[s.edge].dst].outgoing, ArrivalTime(g, s))
  {
    if s.edge in g.edges && Run(g, s.edge) >= 0.0 {
      DueIffReached(time - s.startTime, Run(g, s.edge));
    }
  }

  /** The main loop's test `elapsed * SIGNAL_SPEED < dx` says the travelled
      distance falls short, which is the same as the arrival instant lying
      after the current time. */
  lemma DueIffReached(elapsed: real, dx: real)
    ensures elapsed * SignalSpeed < dx <==> elapsed < dx / SignalSpeed
  {
  }

  /** Carry-over: the signals an arrival produces depend only on the
      arrival instant, not on how late the tick that noticed it came. */
  lemma ArrivalIndependentOfTick(g: Graph, s: Signal, time1: real, dt1: real, time2: real, dt2: real)
    requires Wf(g) && s.edge in g.edges && Run(g, s.edge) >= 0.0
    requires ArrivalTime(g, s) <= time1 && ArrivalTime(g, s) <= time2
    ensures Step(g, s, time1, dt1) == Step(g, s, time2, dt2)
    ensures forall r | r in Step(g, s, time1, dt1) :: r.startTime == ArrivalTime(g, s)
  {
    StepOutcomes(g, s, time1, dt1);
    StepOutcomes(g, s, time2, dt2);
  }

  /** With the store's invariant, an arrival at v fans out to exactly the
      outgoing edges of v: one signal per edge leaving v, no edge twice, all
      starting at the same instant. */
  lemma FanOutIsOutgoing(g: Graph, v: NodeId, start: real)
    requires Valid(g) && v in g.nodes
    ensures var r := FanOut(g.adj[v].outgoing, start);
      && (forall k | 0 <= k < |r| :: r[k].startTime == start && r[k].edge in g.edges && g.edges[r[k].edge].src == v)
      && (forall e | e in g.edges && g.edges[e].src == v :: exists k :: 0 <= k < |r| && r[k].edge == e)
      && (forall j, k | 0 <= j < k < |r| :: r[j].edge != r[k].edge)
  {
    var outs := g.adj[v].outgoing;
    var r := FanOut(outs, start);
    assert AdjExact(g, v);
    forall k | 0 <= k < |r|
      ensures r[k].edge in g.edges && g.edges[r[k].edge].src == v
    {
      assert outs[k] in outs;
      assert IsEntry(g.edges, v, outs[k], true);
    }
    forall e | e in g.edges && g.edges[e].src == v
      ensures exists k :: 0 <= k < |r| && r[k].edge == e
    {
      assert IsEntry(g.edges, v, (g.edges[e].dst, e), true);
      var k :| 0 <= k < |outs| && outs[k] == (g.edges[e].dst, e);
      assert r[k].edge == e;
    }
    forall j, k | 0 <= j < k < |r|
      ensures r[j].edge != r[k].edge
    {
      assert outs[j] in outs && outs[k] in outs;
      assert IsEntry(g.edges, v, outs[j], true) && IsEntry(g.edges, v, outs[k], true);
      assert outs[j] != outs[k];
    }
  }

  /** Stepping a list is stepping its parts. */
  lemma {:induction false} AdvanceAppend(g: Graph, a: seq<Signal>, b: seq<Signal>, time: real, dt: real)
    requires Wf(g)
    ensures Advance(g, a + b, time, dt) == Advance(g, a, time, dt) + Advance(g, b, time, dt)
    ensures Arrivals(g, a + b, time) == Arrivals(g, a, time) + Arrivals(g, b, time)
    decreases |a|
  {
    if a == [] {
      assert a + b == b;
    } else {
      AdvanceAppend(g, a[1..], b, time, dt);
      HeadOfAppend(g, a, b, time, dt);
      var x := a[0];
      SharedHead(Step(g, x, time, dt), Advance(g, a + b, time, dt), Advance(g, a[1..] + b, time, dt),
        Advance(g, a, time, dt), Advance(g, a[1..], time, dt), Advance(g, b, time, dt));
      SharedHead(match Arrival(g, x, time) case Some(v) => [v] case None => [],
        Arrivals(g, a + b, time), Arrivals(g, a[1..] + b, time),
        Arrivals(g, a, time), Arrivals(g, a[1..], time), Arrivals(g, b, time));
    }
  }

  /** Two lists with the same head whose tails differ by a suffix differ by
      that suffix. */
  lemma SharedHead<T>(x: seq<T>, whole: seq<T>, rest: seq<T>, part: seq<T>, partRest: seq<T>, b: seq<T>)
    requires whole == x + rest && part == x + partRest && rest == partRest + b
    ensures whole == part + b
  {
    assert x + (partRest + b) == (x + partRest) + b;
  }

  /** Unfolds the stepping of `a + b` and of `a` at the common head. */
  lemma HeadOfAppend(g: Graph, a: seq<Signal>, b: seq<Signal>, time: real, dt: real)
    requires Wf(g) && a != []
    ensures Advance(g, a + b, time, dt) == Step(g, a[0], time, dt) + Advance(g, a[1..] + b, time, dt)
    ensures Advance(g, a, time, dt) == Step(g, a[0], time, dt) + Advance(g, a[1..], time, dt)
    ensures Arrivals(g, a + b, time)
         == (match Arrival(g, a[0], time) case Some(v) => [v] case None => []) + Arrivals(g, a[1..] + b, time)
    ensures Arrivals(g, a, time)
         == (match Arrival(g, a[0], time) case Some(v) => [v] case None => []) + Arrivals(g, a[1..], time)
  {
    assert (a + b)[0] == a[0] && (a + b)[1..] == a[1..] + b;
  }

  /** The order in which the signals are held does not matter: lists with
      the same signals give the same signals and arrivals after a tick. */
  lemma {:induction false} AdvanceReorder(g: Graph, a: seq<Signal>, b: seq<Signal>, time: real, dt: real)
    requires Wf(g) && multiset(a) == multiset(b)
    ensures multiset(Advance(g, a, time, dt)) == multiset(Advance(g, b, time, dt))
    ensures multiset(Arrivals(g, a, time)) == multiset(Arrivals(g, b, time))
    decreases |a|
  {
    if a == [] {
      assert b == [];
    } else {
      var x := a[0];
      var pre, post := TakeOut(a, b);
      assert a == [x] + a[1..];
      AdvanceReorder(g, a[1..], pre + post, time, dt);
      AdvanceAppend(g, [x], a[1..], time, dt);
      AdvanceAppend(g, pre, [x] + post, time, dt);
      AdvanceAppend(g, [x], post, time, dt);
      AdvanceAppend(g, pre, post, time, dt);
      MultisetMoveFront(Advance(g, pre, time, dt), Advance(g, [x], time, dt),
                        Advance(g, post, time, dt), Advance(g, a[1..], time, dt));
      MultisetMoveFront(Arrivals(g, pre, time), Arrivals(g, [x], time),
                        Arrivals(g, post, time), Arrivals(g, a[1..], time));
    }
  }

  lemma MultisetMoveFront<T>(p: seq<T>, x: seq<T>, q: seq<T>, r: seq<T>)
    requires multiset(r) == multiset(p + q)
    ensures multiset(x + r) == multiset(p + (x + q))
  {
  }
}
