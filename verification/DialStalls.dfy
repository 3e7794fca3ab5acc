/** When schedulers on one pool keep peers waiting beside free room: exactly which caps let it happen. */
module DialStalls {
  import opened Arith
  import opened DialHistory
  import opened DialScheduling
  import opened DialRuns

  /** In every reachable state of `count` schedulers, a queue waits only when a cap is reached. */
  ghost predicate NeverStalls(caps: Caps, expiry: int, count: nat, ticks: nat -> int) {
    forall es: seq<Event>, i: nat :: i < count ==> WaitsForRoom(caps, Run(caps, expiry, Fresh(count, ticks), es), i)
  }

  /** One scheduler, no room at all, or room for every scheduler to reach its own cap. */
  predicate Ample(caps: Caps, count: nat) {
    count <= 1 || caps.maxTotal <= 0 || caps.maxPerChain <= 0 || caps.maxTotal >= count * caps.maxPerChain
  }

  // ---------------------------------------------------------------------------------------------
  // With ample caps nobody stalls
  // ---------------------------------------------------------------------------------------------

  ghost predicate Capped(caps: Caps, ss: seq<Sched>) {
    forall i :: 0 <= i < |ss| ==> Counters(caps, ss[i])
  }

  /** While one scheduler is below its cap, the sum is below all caps together. */
  lemma {:induction false} SumBelow(caps: Caps, ss: seq<Sched>, i: nat)
    requires caps.maxPerChain > 0 && Capped(caps, ss)
    ensures SumActive(ss) <= |ss| * caps.maxPerChain
    ensures i < |ss| && ss[i].active < caps.maxPerChain ==> SumActive(ss) < |ss| * caps.maxPerChain
    decreases |ss|
  {
    if ss != [] {
      assert Counters(caps, ss[0]) && ss[0].active <= caps.maxPerChain;
      SumBelow(caps, ss[1..], if i > 0 then i - 1 else 0);
      assert |ss| * caps.maxPerChain == |ss[1..]| * caps.maxPerChain + caps.maxPerChain;
    }
  }

  /** Only a scheduler at its own cap has a queue. */
  ghost predicate QueuesFull(caps: Caps, net: Network) {
    forall i :: 0 <= i < |net.scheds| && net.scheds[i].queue != [] ==> net.scheds[i].active >= caps.maxPerChain
  }

  /** Where the pool has room for all, a scheduler without room is at its own cap. */
  lemma {:induction false} NoRoomIsOwnCap(caps: Caps, expiry: int, net: Network, i: nat)
    requires Balanced(caps, expiry, net) && i < |net.scheds| && caps.maxPerChain > 0
    requires caps.maxTotal >= |net.scheds| * caps.maxPerChain && !HasRoom(caps, ViewOf(net, i))
    ensures net.scheds[i].active >= caps.maxPerChain
  {
    hide Counters, Cooled;
    SumBelow(caps, net.scheds, i);
  }

  /** A queue that enqueue leaves alone still belongs to a scheduler that has not fewer dials in flight. */
  lemma {:induction false} EnqueuedMoves(caps: Caps, expiry: int, v: View, e: Event)
    requires Counters(caps, v.s) && Cooled(expiry, v)
    ensures e.Enqueued? ==> Enqueue(caps, expiry, v, e.n, e.wanted).s.active >= v.s.active
  {
    hide Enqueue, Cooled, Counters;
    if e.Enqueued? { EnqueueKeeps(caps, expiry, v, e.n, e.wanted); }
  }

  lemma {:induction false} StepKeepsQueuesFull(caps: Caps, expiry: int, net: Network, e: Event)
    requires Balanced(caps, expiry, net) && QueuesFull(caps, net)
    requires caps.maxPerChain > 0 && caps.maxTotal >= |net.scheds| * caps.maxPerChain
    ensures QueuesFull(caps, Step(caps, expiry, net, e))
  {
    hide Counters, Cooled, Enqueue, Done;
    StepKeepsBalance(caps, expiry, net, e);
    if Possible(net, e) {
      BalancedAt(caps, expiry, net, e.i);
      var v, after := ViewOf(net, e.i), Step(caps, expiry, net, e);
      match e {
        case Enqueued(_, n, wanted) => EnqueueKeeps(caps, expiry, v, n, wanted);
        case WasConnected(_, k) =>
        case WasDone(_, k) => DoneKeeps(caps, expiry, v, k);
        case Stopped(_) =>
      }
      if !HasRoom(caps, ViewOf(after, e.i)) { NoRoomIsOwnCap(caps, expiry, after, e.i); }
      EnqueuedMoves(caps, expiry, v, e);
    }
  }

  lemma {:induction false} RunKeepsQueuesFull(caps: Caps, expiry: int, net: Network, es: seq<Event>)
    requires Balanced(caps, expiry, net) && QueuesFull(caps, net)
    requires caps.maxPerChain > 0 && caps.maxTotal >= |net.scheds| * caps.maxPerChain
    ensures QueuesFull(caps, Run(caps, expiry, net, es))
    decreases |es|
  {
    hide Balanced, QueuesFull, Step;
    if es != [] {
      StepKeepsBalance(caps, expiry, net, es[0]);
      StepKeepsQueuesFull(caps, expiry, net, es[0]);
      StepKeepsCount(caps, expiry, net, es[0]);
      RunKeepsQueuesFull(caps, expiry, Step(caps, expiry, net, es[0]), es[1..]);
    }
  }

  /** Without any room there is none to wait beside. */
  lemma {:induction false} NeverRoom(caps: Caps, expiry: int, net: Network, i: nat)
    requires Balanced(caps, expiry, net) && i < |net.scheds| && (caps.maxTotal <= 0 || caps.maxPerChain <= 0)
    ensures !HasRoom(caps, ViewOf(net, i))
  {
    hide Cooled;
    ActiveNonnegative(caps, net.scheds);
    assert Counters(caps, net.scheds[i]);
  }

  lemma {:induction false} AmpleNeverStalls(caps: Caps, expiry: int, count: nat, ticks: nat -> int)
    requires Forward(ticks) && Ample(caps, count)
    ensures NeverStalls(caps, expiry, count, ticks)
  {
    hide Balanced, Run;
    var begun := Fresh(count, ticks);
    FreshIsBalanced(caps, expiry, count, ticks);
    forall es: seq<Event>, i: nat | i < count ensures WaitsForRoom(caps, Run(caps, expiry, begun, es), i) {
      var net := Run(caps, expiry, begun, es);
      RunKeepsBalance(caps, expiry, begun, es);
      if count == 1 {
        AloneWaitsOnlyForRoom(caps, expiry, begun, es);
      } else if caps.maxTotal <= 0 || caps.maxPerChain <= 0 {
        NeverRoom(caps, expiry, net, i);
      } else {
        RunKeepsQueuesFull(caps, expiry, begun, es);
      }
    }
  }

  // ---------------------------------------------------------------------------------------------
  // Otherwise some run stalls
  // ---------------------------------------------------------------------------------------------

  lemma {:induction false} RunConcat(caps: Caps, expiry: int, net: Network, a: seq<Event>, b: seq<Event>)
    ensures Run(caps, expiry, net, a + b) == Run(caps, expiry, Run(caps, expiry, net, a), b)
    decreases |a|
  {
    hide Step;
    if a == [] {
      assert a + b == b;
    } else {
      assert (a + b)[1..] == a[1..] + b;
      RunConcat(caps, expiry, Step(caps, expiry, net, a[0]), a[1..], b);
    }
  }

  lemma {:induction false} RunOne(caps: Caps, expiry: int, net: Network, e: Event)
    ensures Run(caps, expiry, net, [e]) == Step(caps, expiry, net, e)
  {
    hide Step;
    assert [e][1..] == [];
    assert Run(caps, expiry, Step(caps, expiry, net, e), []) == Step(caps, expiry, net, e);
  }

  /** Nobody stops or waits, dials in flight are counted, and no node from [m] on was dialled. */
  ghost predicate Untroubled(net: Network, m: nat) {
    forall i :: 0 <= i < |net.scheds| ==>
      && !net.scheds[i].stopping && net.scheds[i].queue == [] && net.scheds[i].active == |net.scheds[i].inFlight|
      && forall k: nat :: k >= m ==> [k] !in net.scheds[i].entries
  }

  /** Enqueuing a new node where there is room starts its dial and touches nobody else. */
  lemma {:induction false} NewDial(caps: Caps, expiry: int, net: Network, m: nat, i: nat)
    requires Untroubled(net, m) && i < |net.scheds| && HasRoom(caps, ViewOf(net, i))
    ensures var after := Step(caps, expiry, net, Enqueued(i, [m], true));
            && Untroubled(after, m + 1) && |after.scheds| == |net.scheds| && after.total == net.total + 1
            && after.scheds[i].active == net.scheds[i].active + 1
            && forall j :: 0 <= j < |net.scheds| && j != i ==> after.scheds[j] == net.scheds[j]
  {
    var v := ViewOf(net, i);
    var p := Prune(v);
    assert forall k: nat :: k >= m ==> [k] !in p.s.entries;
    assert !Contains(p.s.entries, [m], p.clock.Now());
    var w := Enqueue(caps, expiry, v, [m], true);
    assert w == StartDial(expiry, p.(clock := p.clock.Next()), [m]);
    forall k: nat | k >= m + 1 ensures [k] !in w.s.entries { assert [k][0] != [m][0]; }
  }

  /** n more dials on scheduler i, if neither cap stops them. */
  lemma {:induction false} Fill(caps: Caps, expiry: int, net: Network, m: nat, i: nat, n: nat) returns (es: seq<Event>)
    requires Untroubled(net, m) && i < |net.scheds|
    requires net.scheds[i].active + n <= caps.maxPerChain && net.total + n <= caps.maxTotal
    ensures var after := Run(caps, expiry, net, es);
            && Untroubled(after, m + n) && after.total == net.total + n
            && after.scheds[i].active == net.scheds[i].active + n
            && forall j :: 0 <= j < |net.scheds| && j != i ==> after.scheds[j] == net.scheds[j]
    decreases n
  {
    hide Untroubled, Step;
    if n == 0 {
      es := [];
    } else {
      var e := Enqueued(i, [m], true);
      NewDial(caps, expiry, net, m, i);
      var more := Fill(caps, expiry, Step(caps, expiry, net, e), m + 1, i, n - 1);
      es := [e] + more;
      RunConcat(caps, expiry, net, [e], more);
      RunOne(caps, expiry, net, e);
    }
  }

  function Min(a: int, b: int): int {
    if a < b then a else b
  }

  /** Schedulers 1 to j filled to their caps, or as far as the pool allows; scheduler 0 and those above j idle. */
  ghost predicate Filled(caps: Caps, net: Network, j: nat) {
    && net.total == Min(j * caps.maxPerChain, caps.maxTotal)
    && (forall i :: 0 <= i < |net.scheds| && (i == 0 || i > j) ==> net.scheds[i].active == 0)
    && (j >= 1 && |net.scheds| > 1 ==> net.scheds[1].active >= 1)
  }

  lemma RunNothing(caps: Caps, expiry: int, net: Network)
    ensures Run(caps, expiry, net, []) == net
  {}

  lemma {:induction false} FillOthers(caps: Caps, expiry: int, net: Network, j: nat) returns (es: seq<Event>, m: nat)
    requires Untroubled(net, 0) && Filled(caps, net, 0) && j < |net.scheds|
    requires caps.maxPerChain > 0 && caps.maxTotal > 0
    ensures Untroubled(Run(caps, expiry, net, es), m) && Filled(caps, Run(caps, expiry, net, es), j)
    decreases j
  {
    hide Untroubled, Run;
    if j == 0 {
      es, m := [], 0;
      RunNothing(caps, expiry, net);
    } else {
      var first, m0 := FillOthers(caps, expiry, net, j - 1);
      var half := Run(caps, expiry, net, first);
      var n := Min(caps.maxPerChain, caps.maxTotal - half.total);
      assert j * caps.maxPerChain == (j - 1) * caps.maxPerChain + caps.maxPerChain;
      MulNonneg(j - 1, caps.maxPerChain);
      var more := Fill(caps, expiry, half, m0, j, n);
      RunConcat(caps, expiry, net, first, more);
      es, m := first + more, m0 + n;
    }
  }

  lemma {:induction false} QueuesWhenFull(caps: Caps, expiry: int, net: Network, m: nat)
    requires Untroubled(net, m) && |net.scheds| >= 2 && net.total == caps.maxTotal
    ensures var after := Step(caps, expiry, net, Enqueued(0, [m], true));
            && |after.scheds| == |net.scheds| && after.total == net.total && after.scheds[0].queue == [[m]]
            && after.scheds[0].active == net.scheds[0].active && after.scheds[1] == net.scheds[1]
  {
    var v := ViewOf(net, 0);
    var p := Prune(v);
    assert [m] !in p.s.entries;
    assert Enqueue(caps, expiry, v, [m], true).s.queue == [] + [[m]];
  }

  lemma {:induction false} FreesOneSlot(caps: Caps, expiry: int, net: Network)
    requires |net.scheds| >= 2 && !net.scheds[1].stopping && net.scheds[1].queue == []
    requires net.scheds[1].active == |net.scheds[1].inFlight| >= 1
    ensures var after := Step(caps, expiry, net, WasDone(1, 0));
            |after.scheds| == |net.scheds| && after.total == net.total - 1 && after.scheds[0] == net.scheds[0]
  {}

  /** Scheduler 0 below its cap on a full pool: it queues a node, and a slot freed by scheduler 1 does not wake it. */
  lemma {:induction false} StallsOnFullPool(caps: Caps, expiry: int, net: Network, m: nat)
    requires Untroubled(net, m) && |net.scheds| >= 2 && net.total == caps.maxTotal
    requires net.scheds[0].active < caps.maxPerChain && net.scheds[1].active >= 1
    ensures !WaitsForRoom(caps, Run(caps, expiry, net, [Enqueued(0, [m], true), WasDone(1, 0)]), 0)
  {
    var a, b := Enqueued(0, [m], true), WasDone(1, 0);
    var queued := Step(caps, expiry, net, a);
    QueuesWhenFull(caps, expiry, net, m);
    var freed := Step(caps, expiry, queued, b);
    FreesOneSlot(caps, expiry, queued);
    RunConcat(caps, expiry, net, [a], [b]);
    RunOne(caps, expiry, net, a);
    RunOne(caps, expiry, queued, b);
    assert [a] + [b] == [a, b];
  }

  lemma {:induction false} FreshIsUntroubled(caps: Caps, count: nat, ticks: nat -> int)
    requires caps.maxTotal > 0
    ensures Untroubled(Fresh(count, ticks), 0) && Filled(caps, Fresh(count, ticks), 0)
  {}

  lemma {:induction false} ScarceStalls(caps: Caps, expiry: int, count: nat, ticks: nat -> int) returns (es: seq<Event>)
    requires !Ample(caps, count)
    ensures !WaitsForRoom(caps, Run(caps, expiry, Fresh(count, ticks), es), 0)
  {
    hide Run, Untroubled;
    var begun := Fresh(count, ticks);
    FreshIsUntroubled(caps, count, ticks);
    var others, m := FillOthers(caps, expiry, begun, count - 1);
    var half := Run(caps, expiry, begun, others);
    var n := caps.maxTotal - half.total;
    assert count * caps.maxPerChain == (count - 1) * caps.maxPerChain + caps.maxPerChain;
    var own := Fill(caps, expiry, half, m, 0, n);
    var full := Run(caps, expiry, half, own);
    var last := [Enqueued(0, [m + n], true), WasDone(1, 0)];
    StallsOnFullPool(caps, expiry, full, m + n);
    RunConcat(caps, expiry, begun, others, own);
    RunConcat(caps, expiry, begun, others + own, last);
    es := others + own + last;
  }

  /**
   Every reachable state keeps peers waiting only without room exactly when there is one scheduler, no room at all, or
   room on the pool for every scheduler's own cap.
   */
  lemma {:induction false} NeverStallsIff(caps: Caps, expiry: int, count: nat, ticks: nat -> int)
    requires Forward(ticks)
    ensures NeverStalls(caps, expiry, count, ticks) <==> Ample(caps, count)
  {
    if Ample(caps, count) {
      AmpleNeverStalls(caps, expiry, count, ticks);
    } else {
      var es := ScarceStalls(caps, expiry, count, ticks);
      var i: nat := 0;
      assert i < count && !WaitsForRoom(caps, Run(caps, expiry, Fresh(count, ticks), es), i);
    }
  }
}
