/** Any number of schedulers on one pool, over whole runs. */
module DialRuns {
  import opened DialHistory
  import opened DialScheduling

  datatype Network = Network(scheds: seq<Sched>, total: int, clock: Clock)

  /** A dial calls back as its contract says: connected at most once, done exactly once. */
  datatype Event =
    | Enqueued(i: nat, n: NodeId, wanted: bool)
    | WasConnected(i: nat, k: nat)
    | WasDone(i: nat, k: nat)
    | Stopped(i: nat)

  predicate Possible(net: Network, e: Event) {
    && e.i < |net.scheds|
    && (e.WasConnected? ==> e.k < |net.scheds[e.i].inFlight| && !net.scheds[e.i].inFlight[e.k].validated)
    && (e.WasDone? ==> e.k < |net.scheds[e.i].inFlight|)
  }

  function ViewOf(net: Network, i: nat): View
    requires i < |net.scheds|
  {
    View(net.scheds[i], net.total, net.clock)
  }

  function StepView(caps: Caps, expiry: int, net: Network, e: Event): View
    requires Possible(net, e)
  {
    var v := ViewOf(net, e.i);
    match e
    case Enqueued(_, n, wanted) => Enqueue(caps, expiry, v, n, wanted)
    case WasConnected(_, k) => Connected(v, k)
    case WasDone(_, k) => Done(caps, expiry, v, k)
    case Stopped(_) => Stop(v)
  }

  /** Events that cannot happen leave the network as it is. */
  function Step(caps: Caps, expiry: int, net: Network, e: Event): Network {
    if !Possible(net, e) then net
    else
      var w := StepView(caps, expiry, net, e);
      Network(net.scheds[e.i := w.s], w.total, w.clock)
  }

  lemma {:induction false} StepKeepsCount(caps: Caps, expiry: int, net: Network, e: Event)
    ensures |Step(caps, expiry, net, e).scheds| == |net.scheds|
  {}

  function Run(caps: Caps, expiry: int, net: Network, es: seq<Event>): (end: Network)
    ensures |end.scheds| == |net.scheds|
    decreases |es|
  {
    if es == [] then net else Run(caps, expiry, Step(caps, expiry, net, es[0]), es[1..])
  }

  const IDLE: Sched := Sched(0, 0, 0, false, [], map[], [], [])

  function Fresh(count: nat, ticks: nat -> int): Network {
    Network(seq(count, i => IDLE), 0, Clock(ticks, 0))
  }

  function SumActive(ss: seq<Sched>): int {
    if ss == [] then 0 else ss[0].active + SumActive(ss[1..])
  }

  lemma {:induction false} SumUpdate(ss: seq<Sched>, i: nat, s: Sched)
    requires i < |ss|
    ensures SumActive(ss[i := s]) == SumActive(ss) - ss[i].active + s.active
  {
    if i == 0 {
      assert ss[i := s][1..] == ss[1..];
    } else {
      assert ss[i := s][1..] == ss[1..][i - 1 := s];
      SumUpdate(ss[1..], i - 1, s);
    }
  }

  /**
   The pool's counter is the sum of the schedulers' counters, each of which is its number of dials in flight;
   no cap is exceeded; and no scheduler dials a node twice within the expiry.
   */
  ghost predicate Balanced(caps: Caps, expiry: int, net: Network) {
    && net.total == SumActive(net.scheds) && (net.total <= caps.maxTotal || net.total == 0)
    && (forall i :: 0 <= i < |net.scheds| ==> Counters(caps, net.scheds[i]))
    && (forall i :: 0 <= i < |net.scheds| ==> Cooled(expiry, ViewOf(net, i)))
  }

  /** A later clock does no harm to a scheduler that did not move. */
  lemma {:induction false} LaterCools(expiry: int, v: View, w: View)
    requires Cooled(expiry, v) && w.s == v.s && w.clock.ticks == v.clock.ticks && w.clock.turn >= v.clock.turn
    ensures Cooled(expiry, w)
  {
    assert v.clock.Now() <= w.clock.Now();
  }

  /** What a step does to the scheduler it belongs to, the pool and the clock. */
  lemma {:induction false} StepViewKeeps(caps: Caps, expiry: int, net: Network, e: Event)
    requires Balanced(caps, expiry, net) && Possible(net, e)
    ensures var v, w := ViewOf(net, e.i), StepView(caps, expiry, net, e);
            && Counters(caps, w.s) && Cooled(expiry, w)
            && w.s.active - v.s.active == w.total - v.total
            && (w.total <= caps.maxTotal || w.total <= v.total)
            && w.clock.ticks == v.clock.ticks && w.clock.turn >= v.clock.turn
  {
    hide Enqueue, Done, CountValidated;
    var v := ViewOf(net, e.i);
    assert Counters(caps, v.s) && Cooled(expiry, v);
    match e {
      case Enqueued(_, n, wanted) => EnqueueKeeps(caps, expiry, v, n, wanted);
      case WasConnected(_, k) => ConnectedKeeps(caps, expiry, v, k);
      case WasDone(_, k) => DoneKeeps(caps, expiry, v, k);
      case Stopped(_) => CooledAlike(expiry, v, Stop(v));
    }
  }

  lemma {:induction false} ActiveNonnegative(caps: Caps, ss: seq<Sched>)
    requires forall i :: 0 <= i < |ss| ==> Counters(caps, ss[i])
    ensures SumActive(ss) >= 0
  {
    if ss != [] { ActiveNonnegative(caps, ss[1..]); }
  }

  lemma {:induction false} StepKeepsBalance(caps: Caps, expiry: int, net: Network, e: Event)
    requires Balanced(caps, expiry, net)
    ensures Balanced(caps, expiry, Step(caps, expiry, net, e))
  {
    hide Counters, Cooled, StepView;
    if Possible(net, e) {
      StepViewKeeps(caps, expiry, net, e);
      var w := StepView(caps, expiry, net, e);
      var after := Step(caps, expiry, net, e);
      SumUpdate(net.scheds, e.i, w.s);
      forall i | 0 <= i < |after.scheds| ensures Counters(caps, after.scheds[i]) && Cooled(expiry, ViewOf(after, i)) {
        if i != e.i {
          LaterCools(expiry, ViewOf(net, i), ViewOf(after, i));
        } else {
          LaterCools(expiry, w, ViewOf(after, i));
        }
      }
      ActiveNonnegative(caps, after.scheds);
    }
  }

  lemma {:induction false} RunKeepsBalance(caps: Caps, expiry: int, net: Network, es: seq<Event>)
    requires Balanced(caps, expiry, net)
    ensures Balanced(caps, expiry, Run(caps, expiry, net, es))
    decreases |es|
  {
    hide Balanced, Step;
    if es != [] {
      StepKeepsBalance(caps, expiry, net, es[0]);
      RunKeepsBalance(caps, expiry, Step(caps, expiry, net, es[0]), es[1..]);
    }
  }

  lemma {:induction false} IdleSum(count: nat)
    ensures SumActive(seq(count, i => IDLE)) == 0
  {
    if count > 0 {
      assert seq(count, i => IDLE)[1..] == seq(count - 1, i => IDLE);
      IdleSum(count - 1);
    }
  }

  lemma {:induction false} FreshIsBalanced(caps: Caps, expiry: int, count: nat, ticks: nat -> int)
    requires Forward(ticks)
    ensures Balanced(caps, expiry, Fresh(count, ticks))
  {
    IdleSum(count);
  }

  /** Conservation, caps and spacing in every reachable state of any number of schedulers. */
  lemma {:induction false} AlwaysBalanced(caps: Caps, expiry: int, count: nat, ticks: nat -> int, es: seq<Event>)
    requires Forward(ticks)
    ensures Balanced(caps, expiry, Run(caps, expiry, Fresh(count, ticks), es))
  {
    FreshIsBalanced(caps, expiry, count, ticks);
    RunKeepsBalance(caps, expiry, Fresh(count, ticks), es);
  }

  /** After `stop`, whatever happens, the scheduler starts no dial and only ever gives slots back. */
  lemma {:induction false} NoDialAfterStop(caps: Caps, expiry: int, net: Network, es: seq<Event>, i: nat)
    requires i < |net.scheds| && net.scheds[i].stopping
    ensures var after := Run(caps, expiry, net, es);
            && |after.scheds| == |net.scheds| && after.scheds[i].stopping
            && after.scheds[i].log == net.scheds[i].log && after.scheds[i].active <= net.scheds[i].active
    decreases |es|
  {
    if es != [] {
      var e := es[0];
      if Possible(net, e) && e.i == i {
        StoppedStartsNothing(caps, expiry, ViewOf(net, i));
      }
      NoDialAfterStop(caps, expiry, Step(caps, expiry, net, e), es[1..], i);
    }
  }

  // ---------------------------------------------------------------------------------------------
  // When a queue waits
  // ---------------------------------------------------------------------------------------------

  predicate WaitsForRoom(caps: Caps, net: Network, i: nat)
    requires i < |net.scheds|
  {
    net.scheds[i].queue != [] ==> !HasRoom(caps, ViewOf(net, i))
  }

  lemma BalancedAt(caps: Caps, expiry: int, net: Network, i: nat)
    requires Balanced(caps, expiry, net) && i < |net.scheds|
    ensures Counters(caps, net.scheds[i]) && Cooled(expiry, ViewOf(net, i))
  {}

  /** A scheduler alone on its pool keeps peers waiting only when a cap is reached. */
  lemma {:induction false} AloneWaitsOnlyForRoom(caps: Caps, expiry: int, net: Network, es: seq<Event>)
    requires Balanced(caps, expiry, net) && |net.scheds| == 1 && WaitsForRoom(caps, net, 0)
    ensures var after := Run(caps, expiry, net, es); |after.scheds| == 1 && WaitsForRoom(caps, after, 0)
    decreases |es|
  {
    hide Balanced, Enqueue, Done;
    if es != [] {
      var e := es[0];
      if Possible(net, e) {
        BalancedAt(caps, expiry, net, 0);
        var v := ViewOf(net, 0);
        match e {
          case Enqueued(_, n, wanted) => EnqueueKeeps(caps, expiry, v, n, wanted);
          case WasConnected(_, k) =>
          case WasDone(_, k) => DoneKeeps(caps, expiry, v, k);
          case Stopped(_) =>
        }
      }
      StepKeepsBalance(caps, expiry, net, e);
      AloneWaitsOnlyForRoom(caps, expiry, Step(caps, expiry, net, e), es[1..]);
    }
  }
}
