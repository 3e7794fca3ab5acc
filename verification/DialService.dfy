/** Queued peers are served in their order, and none that was enqueued is forgotten. */
module DialService {
  import opened DialHistory
  import opened DialScheduling
  import opened DialRuns

  /** A dial of n lies less than the expiry before t. */
  ghost predicate HeldAt(log: seq<Dialed>, expiry: int, n: NodeId, t: int) {
    exists j :: 0 <= j < |log| && log[j].node == n && log[j].at <= t < log[j].at + expiry
  }

  /** Every entry of the history comes from a dial, and every dial is past. */
  ghost predicate Sourced(expiry: int, v: View) {
    && Forward(v.clock.ticks)
    && (forall j :: 0 <= j < |v.s.log| ==> v.s.log[j].at <= v.clock.Now())
    && forall n :: n in v.s.entries ==>
         exists j :: 0 <= j < |v.s.log| && v.s.log[j].node == n && v.s.log[j].at + expiry == v.s.entries[n]
  }

  lemma {:induction false} ContainsIsHeld(expiry: int, v: View, n: NodeId)
    requires Sourced(expiry, v) && Contains(v.s.entries, n, v.clock.Now())
    ensures HeldAt(v.s.log, expiry, n, v.clock.Now())
  {}

  lemma {:induction false} HeldLonger(log: seq<Dialed>, more: seq<Dialed>, expiry: int, n: NodeId, t: int)
    requires HeldAt(log, expiry, n, t) && log <= more
    ensures HeldAt(more, expiry, n, t)
  {
    var j :| 0 <= j < |log| && log[j].node == n && log[j].at <= t < log[j].at + expiry;
    assert more[j] == log[j];
  }

  lemma {:induction false} WaitIsSourced(expiry: int, v: View, w: View)
    requires Sourced(expiry, v) && w.s.log == v.s.log
    requires w.clock.ticks == v.clock.ticks && w.clock.turn >= v.clock.turn
    requires forall n :: n in w.s.entries ==> n in v.s.entries && w.s.entries[n] == v.s.entries[n]
    ensures Sourced(expiry, w)
  {
    assert v.clock.Now() <= w.clock.Now();
  }

  lemma {:induction false} DialIsSourced(expiry: int, v: View, n: NodeId)
    requires Sourced(expiry, v)
    ensures Sourced(expiry, StartDial(expiry, v, n))
  {
    var w := StartDial(expiry, v, n);
    assert v.clock.Now() <= w.clock.Now();
    assert w.s.log[|v.s.log|] == Dialed(n, v.clock.Now());
    forall m | m in w.s.entries
      ensures exists j :: 0 <= j < |w.s.log| && w.s.log[j].node == m && w.s.log[j].at + expiry == w.s.entries[m]
    {
      if m != n {
        var j :| 0 <= j < |v.s.log| && v.s.log[j].node == m && v.s.log[j].at + expiry == v.s.entries[m];
        assert w.s.log[j] == v.s.log[j];
      }
    }
  }

  // ---------------------------------------------------------------------------------------------
  // One release
  // ---------------------------------------------------------------------------------------------

  function NodesOf(log: seq<Dialed>): (ns: seq<NodeId>)
    ensures |ns| == |log| && forall i :: 0 <= i < |log| ==> ns[i] == log[i].node
  {
    seq(|log|, i requires 0 <= i < |log| => log[i].node)
  }

  /** The nodes whose flag is set, in their order. */
  function Picked(ns: seq<NodeId>, flags: seq<bool>): seq<NodeId>
    requires |ns| == |flags|
  {
    if ns == [] then [] else (if flags[0] then [ns[0]] else []) + Picked(ns[1..], flags[1..])
  }

  /** At some reading of the clock between v and w a dial of n lay less than the expiry back. */
  ghost predicate DroppedFor(expiry: int, v: View, w: View, n: NodeId) {
    exists turn: nat :: v.clock.turn <= turn < w.clock.turn && HeldAt(w.s.log, expiry, n, v.clock.ticks(turn))
  }

  /**
   From v to w the front of the queue was taken, one peer for each flag: those flagged were dialled, in their order,
   and each of the others was dropped for a dial of that node within the expiry.
   */
  ghost predicate Served(expiry: int, v: View, w: View, flags: seq<bool>) {
    && |flags| <= |v.s.queue| && w.s.queue == v.s.queue[|flags|..]
    && v.s.log <= w.s.log && NodesOf(w.s.log[|v.s.log|..]) == Picked(v.s.queue[..|flags|], flags)
    && w.clock.ticks == v.clock.ticks && w.clock.turn >= v.clock.turn
    && (forall i :: 0 <= i < |flags| && !flags[i] ==> DroppedFor(expiry, v, w, v.s.queue[i]))
    && forall j :: |v.s.log| <= j < |w.s.log| ==> w.s.log[j].at >= v.clock.Now()
  }

  lemma {:induction false} DroppedEarlier(expiry: int, v: View, q: View, w: View, n: NodeId)
    requires DroppedFor(expiry, q, w, n) && q.clock.ticks == v.clock.ticks && v.clock.turn <= q.clock.turn
    ensures DroppedFor(expiry, v, w, n)
  {
    var turn: nat :| q.clock.turn <= turn < w.clock.turn && HeldAt(w.s.log, expiry, n, q.clock.ticks(turn));
    assert v.clock.turn <= turn < w.clock.turn && HeldAt(w.s.log, expiry, n, v.clock.ticks(turn));
  }

  lemma PickedFirst(ns: seq<NodeId>, flags: seq<bool>)
    requires |ns| == |flags| > 0
    ensures Picked(ns, flags) == (if flags[0] then [ns[0]] else []) + Picked(ns[1..], flags[1..])
  {}

  lemma {:induction false} DroppedNow(expiry: int, v: View, w: View, n: NodeId)
    requires HeldAt(w.s.log, expiry, n, v.clock.Now()) && v.clock.turn < w.clock.turn
    ensures DroppedFor(expiry, v, w, n)
  {
    assert HeldAt(w.s.log, expiry, n, v.clock.ticks(v.clock.turn));
  }

  /** One peer taken in front of a stretch that is served. */
  lemma {:induction false} ServedOneMore(expiry: int, v: View, q: View, w: View, dialled: bool, flags: seq<bool>)
    requires Served(expiry, q, w, flags) && Forward(v.clock.ticks) && v.s.queue != [] && q.s.queue == v.s.queue[1..]
    requires q.clock.ticks == v.clock.ticks && q.clock.turn > v.clock.turn
    requires if dialled then q.s.log == v.s.log + [Dialed(v.s.queue[0], q.clock.ticks(q.clock.turn - 1))]
             else q.s.log == v.s.log && HeldAt(v.s.log, expiry, v.s.queue[0], v.clock.Now())
    ensures Served(expiry, v, w, [dialled] + flags)
  {
    hide DroppedFor, HeldAt, Picked;
    var all := [dialled] + flags;
    assert all[1..] == flags && v.s.queue[..|all|][1..] == q.s.queue[..|flags|]
        && v.s.queue[..|all|][0] == v.s.queue[0];
    PickedFirst(v.s.queue[..|all|], all);
    var added, more := NodesOf(w.s.log[|v.s.log|..]), NodesOf(w.s.log[|q.s.log|..]);
    assert added == (if dialled then [v.s.queue[0]] else []) + more;
    assert v.clock.Now() <= q.clock.ticks(q.clock.turn - 1) && v.clock.Now() <= q.clock.Now();
    forall i | 0 <= i < |all| && !all[i] ensures DroppedFor(expiry, v, w, v.s.queue[i]) {
      if i == 0 {
        HeldLonger(v.s.log, w.s.log, expiry, v.s.queue[0], v.clock.Now());
        DroppedNow(expiry, v, w, v.s.queue[0]);
      } else {
        assert !flags[i - 1] && q.s.queue[i - 1] == v.s.queue[i];
        DroppedEarlier(expiry, v, q, w, v.s.queue[i]);
      }
    }
  }

  lemma {:induction false} ServedNothing(expiry: int, v: View)
    ensures Served(expiry, v, v, [])
  {
    assert v.s.queue[0..] == v.s.queue && v.s.queue[..0] == [] && v.s.log[|v.s.log|..] == [];
  }

  lemma SourcedForward(expiry: int, v: View)
    requires Sourced(expiry, v)
    ensures Forward(v.clock.ticks)
  {}

  /** Draining serves the queue from its front. */
  lemma {:induction false} DrainServes(caps: Caps, expiry: int, v: View) returns (flags: seq<bool>)
    requires Sourced(expiry, v)
    ensures Served(expiry, v, Drain(caps, expiry, v), flags) && Sourced(expiry, Drain(caps, expiry, v))
    decreases |v.s.queue|
  {
    hide Sourced, HeldAt, Served, Contains, Added;
    if !HasRoom(caps, v) || v.s.queue == [] {
      flags := [];
      ServedNothing(expiry, v);
    } else {
      var n := v.s.queue[0];
      var q := v.(s := v.s.(queue := v.s.queue[1..]), clock := v.clock.Next());
      WaitIsSourced(expiry, v, q);
      SourcedForward(expiry, v);
      if Contains(v.s.entries, n, v.clock.Now()) {
        ContainsIsHeld(expiry, v, n);
        var more := DrainServes(caps, expiry, q);
        ServedOneMore(expiry, v, q, Drain(caps, expiry, q), false, more);
        flags := [false] + more;
      } else {
        var d := StartDial(expiry, q, n);
        DialIsSourced(expiry, q, n);
        var more := DrainServes(caps, expiry, d);
        ServedOneMore(expiry, v, d, Drain(caps, expiry, d), true, more);
        flags := [true] + more;
      }
    }
  }

  lemma {:induction false} ServedEarlier(expiry: int, v: View, p: View, w: View, flags: seq<bool>)
    requires Served(expiry, p, w, flags) && Forward(v.clock.ticks)
    requires p.s.queue == v.s.queue && p.s.log == v.s.log
    requires p.clock.ticks == v.clock.ticks && p.clock.turn >= v.clock.turn
    ensures Served(expiry, v, w, flags)
  {
    hide DroppedFor, Picked;
    assert v.clock.Now() <= p.clock.Now();
    forall i | 0 <= i < |flags| && !flags[i] ensures DroppedFor(expiry, v, w, v.s.queue[i]) {
      DroppedEarlier(expiry, v, p, w, v.s.queue[i]);
    }
  }

  lemma {:induction false} SpacedNotHeld(expiry: int, v: View)
    requires Cooled(expiry, v)
    ensures forall j :: 0 <= j < |v.s.log| ==> !HeldAt(v.s.log[..j], expiry, v.s.log[j].node, v.s.log[j].at)
  {}

  /** A finished dial: the queue is served from its front, and nobody is dialled who was held back. */
  lemma {:induction false} DoneServes(caps: Caps, expiry: int, v: View, k: nat) returns (flags: seq<bool>)
    requires k < |v.s.inFlight| && Counters(caps, v.s) && Cooled(expiry, v) && Sourced(expiry, v)
    ensures var w := Done(caps, expiry, v, k);
            && Served(expiry, v, w, flags) && Sourced(expiry, w)
            && forall j :: |v.s.log| <= j < |w.s.log| ==> !HeldAt(w.s.log[..j], expiry, w.s.log[j].node, w.s.log[j].at)
  {
    hide Sourced, Served, HeldAt, Drain, Counters, Cooled;
    var d := v.s.inFlight[k];
    var rest := v.s.inFlight[..k] + v.s.inFlight[k + 1..];
    var count := if d.validated then v.s.validatedCount - 1 else v.s.validatedCount;
    var freed :=
        v.(s := v.s.(inFlight := rest, validatedCount := count, active := v.s.active - 1), total := v.total - 1);
    WaitIsSourced(expiry, v, freed);
    SourcedForward(expiry, v);
    if v.s.stopping {
      flags := [];
      ServedNothing(expiry, freed);
      ServedEarlier(expiry, v, freed, freed, []);
    } else {
      WaitIsSourced(expiry, freed, Prune(freed));
      flags := DrainServes(caps, expiry, Prune(freed));
      ServedEarlier(expiry, v, Prune(freed), Drain(caps, expiry, Prune(freed)), flags);
    }
    DoneKeeps(caps, expiry, v, k);
    SpacedNotHeld(expiry, Done(caps, expiry, v, k));
  }

  // ---------------------------------------------------------------------------------------------
  // Whole runs
  // ---------------------------------------------------------------------------------------------

  /** Since t the node was dialled, or a dial before t still kept it back. */
  ghost predicate DialledFor(log: seq<Dialed>, expiry: int, n: NodeId, t: int) {
    exists j :: 0 <= j < |log| && log[j].node == n && (log[j].at >= t || log[j].at + expiry > t)
  }

  /** A peer enqueued at t has been seen to, waits, or the scheduler was stopped. */
  ghost predicate Accounted(expiry: int, s: Sched, n: NodeId, t: int) {
    s.stopping || n in s.queue || DialledFor(s.log, expiry, n, t)
  }

  lemma {:induction false} DialledLonger(log: seq<Dialed>, more: seq<Dialed>, expiry: int, n: NodeId, t: int)
    requires DialledFor(log, expiry, n, t) && log <= more
    ensures DialledFor(more, expiry, n, t)
  {
    var j :| 0 <= j < |log| && log[j].node == n && (log[j].at >= t || log[j].at + expiry > t);
    assert more[j] == log[j];
  }

  lemma {:induction false} HeldIsDialled(log: seq<Dialed>, expiry: int, n: NodeId, t: int, now: int)
    requires HeldAt(log, expiry, n, now) && t <= now
    ensures DialledFor(log, expiry, n, t)
  {
    var j :| 0 <= j < |log| && log[j].node == n && log[j].at <= now < log[j].at + expiry;
    assert log[j].at + expiry > t;
  }

  lemma {:induction false} PickedHas(ns: seq<NodeId>, flags: seq<bool>, i: nat)
    requires |ns| == |flags| && i < |ns| && flags[i]
    ensures ns[i] in Picked(ns, flags)
  {
    if i > 0 {
      PickedHas(ns[1..], flags[1..], i - 1);
      assert ns[1..][i - 1] == ns[i];
    }
  }

  lemma DialledThen(log: seq<Dialed>, expiry: int, n: NodeId, t: int, j: nat)
    requires j < |log| && log[j].node == n && log[j].at >= t
    ensures DialledFor(log, expiry, n, t)
  {}

  lemma {:induction false} DroppedIsDialled(expiry: int, v: View, w: View, n: NodeId, t: int)
    requires DroppedFor(expiry, v, w, n) && Forward(v.clock.ticks) && t <= v.clock.Now()
    ensures DialledFor(w.s.log, expiry, n, t)
  {
    hide HeldAt, DialledFor;
    var turn: nat :| v.clock.turn <= turn < w.clock.turn && HeldAt(w.s.log, expiry, n, v.clock.ticks(turn));
    assert v.clock.Now() <= v.clock.ticks(turn);
    HeldIsDialled(w.s.log, expiry, n, t, v.clock.ticks(turn));
  }

  /** Serving the queue sees to whoever it takes. */
  lemma {:induction false} ServedAccounts(expiry: int, v: View, w: View, flags: seq<bool>, n: NodeId, t: int)
    requires Served(expiry, v, w, flags) && Forward(v.clock.ticks) && n in v.s.queue && t <= v.clock.Now()
    ensures n in w.s.queue || DialledFor(w.s.log, expiry, n, t)
  {
    hide DroppedFor, HeldAt, DialledFor, Picked;
    var i :| 0 <= i < |v.s.queue| && v.s.queue[i] == n;
    if i >= |flags| {
      assert w.s.queue[i - |flags|] == n;
    } else if flags[i] {
      assert v.s.queue[..|flags|][i] == n;
      PickedHas(v.s.queue[..|flags|], flags, i);
      var added := w.s.log[|v.s.log|..];
      var j :| 0 <= j < |NodesOf(added)| && NodesOf(added)[j] == n;
      assert w.s.log[|v.s.log| + j] == added[j];
      DialledThen(w.s.log, expiry, n, t, |v.s.log| + j);
    } else {
      DroppedIsDialled(expiry, v, w, n, t);
    }
  }

  lemma ExpiredIsPart(entries: Entries, now: int)
    ensures forall n :: n in Expired(entries, now) ==> n in entries && Expired(entries, now)[n] == entries[n]
  {}

  /** What enqueue does to its own node, and to one enqueued before. */
  lemma {:induction false} EnqueueAccounts(
    caps: Caps, expiry: int, v: View, m: NodeId, wanted: bool, n: NodeId, t: int)
    requires Sourced(expiry, v) && t <= v.clock.Now()
    ensures var w := Enqueue(caps, expiry, v, m, wanted);
            && Sourced(expiry, w)
            && (Accounted(expiry, v.s, n, t) || (m == n && wanted) ==> Accounted(expiry, w.s, n, t))
  {
    hide Sourced, DialledFor, Contains, Added, Expired;
    if !v.s.stopping && wanted {
      SourcedForward(expiry, v);
      var p := Prune(v);
      var q := p.(clock := p.clock.Next());
      ExpiredIsPart(v.s.entries, v.clock.Now());
      WaitIsSourced(expiry, v, p);
      WaitIsSourced(expiry, p, q);
      assert v.clock.Now() <= p.clock.Now() <= q.clock.Now();
      if Contains(p.s.entries, m, p.clock.Now()) {
        ContainsIsHeld(expiry, p, m);
        HeldIsDialled(q.s.log, expiry, m, t, p.clock.Now());
      } else if HasRoom(caps, q) {
        DialIsSourced(expiry, q, m);
        var d := StartDial(expiry, q, m);
        DialledThen(d.s.log, expiry, m, t, |v.s.log|);
        if DialledFor(v.s.log, expiry, n, t) { DialledLonger(v.s.log, d.s.log, expiry, n, t); }
      } else {
        WaitIsSourced(expiry, q, q.(s := q.s.(queue := q.s.queue + [m])));
      }
    }
  }

  ghost predicate AllSourced(expiry: int, net: Network) {
    forall i :: 0 <= i < |net.scheds| ==> Sourced(expiry, ViewOf(net, i))
  }

  lemma ServedGrows(expiry: int, v: View, w: View, flags: seq<bool>)
    requires Served(expiry, v, w, flags)
    ensures v.s.log <= w.s.log
  {}

  /** What a step does to the scheduler it belongs to. */
  lemma {:induction false} StepViewAccounts(caps: Caps, expiry: int, net: Network, e: Event, n: NodeId, t: int)
    requires Balanced(caps, expiry, net) && AllSourced(expiry, net) && Possible(net, e) && t <= net.clock.Now()
    ensures var w := StepView(caps, expiry, net, e);
            && Sourced(expiry, w) && w.clock.ticks == net.clock.ticks && w.clock.turn >= net.clock.turn
            && (Accounted(expiry, net.scheds[e.i], n, t) ==> Accounted(expiry, w.s, n, t))
            && (e == Enqueued(e.i, n, true) ==> Accounted(expiry, w.s, n, t))
  {
    hide Sourced, DialledFor, Enqueue, Done, Counters, Cooled, Served;
    var v := ViewOf(net, e.i);
    BalancedAt(caps, expiry, net, e.i);
    SourcedForward(expiry, v);
    match e {
      case Enqueued(_, m, wanted) =>
        EnqueueAccounts(caps, expiry, v, m, wanted, n, t);
        EnqueueKeeps(caps, expiry, v, m, wanted);
      case WasConnected(_, k) => WaitIsSourced(expiry, v, Connected(v, k));
      case WasDone(_, k) =>
        var flags := DoneServes(caps, expiry, v, k);
        DoneKeeps(caps, expiry, v, k);
        var w := Done(caps, expiry, v, k);
        ServedGrows(expiry, v, w, flags);
        if n in v.s.queue { ServedAccounts(expiry, v, w, flags, n, t); }
        if DialledFor(v.s.log, expiry, n, t) { DialledLonger(v.s.log, w.s.log, expiry, n, t); }
      case Stopped(_) => WaitIsSourced(expiry, v, Stop(v));
    }
  }

  lemma {:induction false} StepAccounts(caps: Caps, expiry: int, net: Network, e: Event, i: nat, n: NodeId, t: int)
    requires Balanced(caps, expiry, net) && AllSourced(expiry, net) && i < |net.scheds| && t <= net.clock.Now()
    ensures var after := Step(caps, expiry, net, e);
            && AllSourced(expiry, after) && |after.scheds| == |net.scheds| && net.clock.Now() <= after.clock.Now()
            && (Accounted(expiry, net.scheds[i], n, t) ==> Accounted(expiry, after.scheds[i], n, t))
            && (e == Enqueued(i, n, true) ==> Accounted(expiry, after.scheds[i], n, t))
  {
    hide Sourced, Accounted, StepView, Balanced;
    if Possible(net, e) {
      StepViewAccounts(caps, expiry, net, e, n, t);
      var after := Step(caps, expiry, net, e);
      SourcedForward(expiry, ViewOf(net, e.i));
      forall j | 0 <= j < |after.scheds| ensures Sourced(expiry, ViewOf(after, j)) {
        WaitIsSourced(expiry, if j == e.i then StepView(caps, expiry, net, e) else ViewOf(net, j), ViewOf(after, j));
      }
    }
  }

  lemma {:induction false} RunAccounts(
    caps: Caps, expiry: int, net: Network, es: seq<Event>, i: nat, n: NodeId, t: int)
    requires Balanced(caps, expiry, net) && AllSourced(expiry, net) && i < |net.scheds| && t <= net.clock.Now()
    ensures var after := Run(caps, expiry, net, es);
            && AllSourced(expiry, after)
            && (Accounted(expiry, net.scheds[i], n, t) ==> Accounted(expiry, after.scheds[i], n, t))
    decreases |es|
  {
    hide AllSourced, Accounted, Balanced, Step;
    if es != [] {
      StepKeepsBalance(caps, expiry, net, es[0]);
      StepAccounts(caps, expiry, net, es[0], i, n, t);
      RunAccounts(caps, expiry, Step(caps, expiry, net, es[0]), es[1..], i, n, t);
    }
  }

  lemma FreshIsSourced(expiry: int, count: nat, ticks: nat -> int)
    requires Forward(ticks)
    ensures AllSourced(expiry, Fresh(count, ticks))
  {}

  /**
   In every run of any number of schedulers a wanted peer, once enqueued, is still in the queue, or was dialled since,
   or a dial of it within the expiry kept it back, unless its scheduler was stopped.
   */
  lemma {:induction false} NobodyForgotten(
    caps: Caps, expiry: int, count: nat, ticks: nat -> int, before: seq<Event>, i: nat, n: NodeId, es: seq<Event>)
    requires Forward(ticks) && i < count
    ensures var net := Run(caps, expiry, Fresh(count, ticks), before);
            var after := Run(caps, expiry, net, [Enqueued(i, n, true)] + es);
            Accounted(expiry, after.scheds[i], n, net.clock.Now())
  {
    hide AllSourced, Accounted, Balanced, Step;
    var begun, e := Fresh(count, ticks), Enqueued(i, n, true);
    FreshIsBalanced(caps, expiry, count, ticks);
    FreshIsSourced(expiry, count, ticks);
    RunKeepsBalance(caps, expiry, begun, before);
    RunAccounts(caps, expiry, begun, before, i, n, begun.clock.Now());
    var net := Run(caps, expiry, begun, before);
    StepKeepsBalance(caps, expiry, net, e);
    StepAccounts(caps, expiry, net, e, i, n, net.clock.Now());
    RunAccounts(caps, expiry, Step(caps, expiry, net, e), es, i, n, net.clock.Now());
    assert ([e] + es)[1..] == es;
  }

  // ---------------------------------------------------------------------------------------------
  // Nobody else is dialled
  // ---------------------------------------------------------------------------------------------

  /** Everybody who waits or was dialled is one of these. */
  ghost predicate Among(s: Sched, allowed: set<NodeId>) {
    && (forall k :: 0 <= k < |s.queue| ==> s.queue[k] in allowed)
    && forall j :: 0 <= j < |s.log| ==> s.log[j].node in allowed
  }

  lemma {:induction false} DrainAmong(caps: Caps, expiry: int, v: View, allowed: set<NodeId>)
    requires Among(v.s, allowed)
    ensures Among(Drain(caps, expiry, v).s, allowed)
    decreases |v.s.queue|
  {
    hide Contains, Added;
    if HasRoom(caps, v) && v.s.queue != [] {
      var n := v.s.queue[0];
      var q := v.(s := v.s.(queue := v.s.queue[1..]), clock := v.clock.Next());
      assert Among(q.s, allowed) && Among(StartDial(expiry, q, n).s, allowed);
      DrainAmong(caps, expiry, q, allowed);
      DrainAmong(caps, expiry, StartDial(expiry, q, n), allowed);
    }
  }

  /** The nodes that were enqueued on scheduler i and wanted. */
  function Wanted(es: seq<Event>, i: nat): set<NodeId>
    decreases |es|
  {
    if es == [] then {}
        else (if es[0].Enqueued? && es[0].i == i && es[0].wanted then {es[0].n} else {}) + Wanted(es[1..], i)
  }

  lemma {:induction false} StepAmong(caps: Caps, expiry: int, net: Network, e: Event, i: nat, allowed: set<NodeId>)
    requires i < |net.scheds| && Among(net.scheds[i], allowed)
    requires e.Enqueued? && e.i == i && e.wanted ==> e.n in allowed
    ensures Among(Step(caps, expiry, net, e).scheds[i], allowed)
  {
    hide Drain, Contains, Added, Expired;
    if Possible(net, e) && e.i == i && e.WasDone? && !net.scheds[i].stopping {
      var v := ViewOf(net, i);
      var d := v.s.inFlight[e.k];
      var rest := v.s.inFlight[..e.k] + v.s.inFlight[e.k + 1..];
      var count := if d.validated then v.s.validatedCount - 1 else v.s.validatedCount;
      var freed :=
          v.(s := v.s.(inFlight := rest, validatedCount := count, active := v.s.active - 1), total := v.total - 1);
      DrainAmong(caps, expiry, Prune(freed), allowed);
    }
  }

  lemma {:induction false} RunAmong(caps: Caps, expiry: int, net: Network, es: seq<Event>, i: nat, allowed: set<NodeId>)
    requires i < |net.scheds| && Among(net.scheds[i], allowed) && Wanted(es, i) <= allowed
    ensures Among(Run(caps, expiry, net, es).scheds[i], allowed)
    decreases |es|
  {
    hide Step, Among;
    if es != [] {
      StepAmong(caps, expiry, net, es[0], i, allowed);
      StepKeepsCount(caps, expiry, net, es[0]);
      RunAmong(caps, expiry, Step(caps, expiry, net, es[0]), es[1..], i, allowed);
    }
  }

  /** In every run a scheduler dials and queues only peers that were enqueued on it and that its filter wants. */
  lemma {:induction false} OnlyWantedDialled(
    caps: Caps, expiry: int, count: nat, ticks: nat -> int, es: seq<Event>, i: nat)
    requires i < count
    ensures Among(Run(caps, expiry, Fresh(count, ticks), es).scheds[i], Wanted(es, i))
  {
    hide Run;
    RunAmong(caps, expiry, Fresh(count, ticks), es, i, Wanted(es, i));
  }
}
