/** Dial schedulers that share one pool: what each operation does to the counters, the queue and the history. */
module DialScheduling {
  import opened DialHistory

  datatype Caps = Caps(maxTotal: int, maxPerChain: int)

  /** A dial in flight, and whether its connection was confirmed. */
  datatype Dial = Dial(node: NodeId, validated: bool)

  /** A dial that was started, and when. */
  datatype Dialed = Dialed(node: NodeId, at: int)

  /** One scheduler; the dials in flight and the log are there for the claims, not for the code. */
  datatype Sched = Sched(
    active: int, validatedCount: int, totalValidated: int, stopping: bool, queue: seq<NodeId>, entries: Entries,
    inFlight: seq<Dial>, log: seq<Dialed>)

  /** A scheduler, the pool's counter and the clock. */
  datatype View = View(s: Sched, total: int, clock: Clock)

  predicate HasRoom(caps: Caps, v: View) {
    v.s.active < caps.maxPerChain && v.total < caps.maxTotal
  }

  /** Take a slot, remember the node and spawn its dial. */
  function StartDial(expiry: int, v: View, n: NodeId): View {
    var now := v.clock.Now();
    View(v.s.(active := v.s.active + 1, entries := Added(v.s.entries, n, now, expiry),
              inFlight := v.s.inFlight + [Dial(n, false)], log := v.s.log + [Dialed(n, now)]),
         v.total + 1, v.clock.Next())
  }

  function Prune(v: View): View {
    v.(s := v.s.(entries := Expired(v.s.entries, v.clock.Now())), clock := v.clock.Next())
  }

  /** `enqueue`; `wanted` is the filter's verdict. */
  function Enqueue(caps: Caps, expiry: int, v: View, n: NodeId, wanted: bool): View {
    if v.s.stopping || !wanted then v
    else
      var p := Prune(v);
      var q := p.(clock := p.clock.Next());
      if Contains(p.s.entries, n, p.clock.Now()) then q
      else if HasRoom(caps, q) then StartDial(expiry, q, n)
      else q.(s := q.s.(queue := q.s.queue + [n]))
  }

  /** The loop of `release`: take from the queue while there is room. */
  function Drain(caps: Caps, expiry: int, v: View): View
    decreases |v.s.queue|
  {
    if !HasRoom(caps, v) || v.s.queue == [] then v
    else
      var n := v.s.queue[0];
      var q := v.(s := v.s.(queue := v.s.queue[1..]), clock := v.clock.Next());
      if Contains(v.s.entries, n, v.clock.Now()) then Drain(caps, expiry, q)
      else Drain(caps, expiry, StartDial(expiry, q, n))
  }

  /** `release`. */
  function Release(caps: Caps, expiry: int, v: View): View {
    var w := v.(s := v.s.(active := v.s.active - 1), total := v.total - 1);
    if v.s.stopping then w else Drain(caps, expiry, Prune(w))
  }

  /** The `on_done` callback of dial k. */
  function Done(caps: Caps, expiry: int, v: View, k: nat): View
    requires k < |v.s.inFlight|
  {
    var d := v.s.inFlight[k];
    var rest := v.s.inFlight[..k] + v.s.inFlight[k + 1..];
    var count := if d.validated then v.s.validatedCount - 1 else v.s.validatedCount;
    Release(caps, expiry, v.(s := v.s.(inFlight := rest, validatedCount := count)))
  }

  /** The `on_connected` callback of dial k. */
  function Connected(v: View, k: nat): View
    requires k < |v.s.inFlight|
  {
    v.(s := v.s.(inFlight := v.s.inFlight[k := v.s.inFlight[k].(validated := true)],
                 validatedCount := v.s.validatedCount + 1, totalValidated := v.s.totalValidated + 1))
  }

  function Stop(v: View): View {
    v.(s := v.s.(stopping := true, queue := []))
  }

  // ---------------------------------------------------------------------------------------------
  // The invariant of one scheduler
  // ---------------------------------------------------------------------------------------------

  function CountValidated(ds: seq<Dial>): nat {
    if ds == [] then 0 else (if ds[0].validated then 1 else 0) + CountValidated(ds[1..])
  }

  /** Two dials of one node lie at least the expiry apart. */
  ghost predicate Spaced(log: seq<Dialed>, expiry: int) {
    forall i, j :: 0 <= i < j < |log| && log[i].node == log[j].node ==> log[i].at + expiry <= log[j].at
  }

  /** Every dial of the past is held back by an entry at least as late, or its cooldown is over. */
  ghost predicate Covered(log: seq<Dialed>, entries: Entries, expiry: int, now: int) {
    forall i :: 0 <= i < |log| ==>
      now >= log[i].at + expiry || (log[i].node in entries && entries[log[i].node] >= log[i].at + expiry)
  }

  ghost predicate Counters(caps: Caps, s: Sched) {
    && s.active == |s.inFlight| && s.validatedCount == CountValidated(s.inFlight)
    && (s.active <= caps.maxPerChain || s.active == 0)
    && (s.stopping ==> s.queue == [])
  }

  ghost predicate Cooled(expiry: int, v: View) {
    Forward(v.clock.ticks) && Spaced(v.s.log, expiry) && Covered(v.s.log, v.s.entries, expiry, v.clock.Now())
  }

  lemma {:induction false} CountPush(ds: seq<Dial>, d: Dial)
    ensures CountValidated(ds + [d]) == CountValidated(ds) + (if d.validated then 1 else 0)
  {
    if ds == [] {
      assert ds + [d] == [d] && [d][1..] == [];
    } else {
      assert (ds + [d])[1..] == ds[1..] + [d];
      CountPush(ds[1..], d);
    }
  }

  lemma {:induction false} CountConcat(a: seq<Dial>, b: seq<Dial>)
    ensures CountValidated(a + b) == CountValidated(a) + CountValidated(b)
  {
    if a == [] {
      assert a + b == b;
    } else {
      assert (a + b)[1..] == a[1..] + b;
      CountConcat(a[1..], b);
    }
  }

  /** The flag of dial k accounts for exactly one. */
  lemma {:induction false} CountAt(ds: seq<Dial>, k: nat, d: Dial)
    requires k < |ds|
    ensures var rest := CountValidated(ds[..k]) + CountValidated(ds[k + 1..]);
            && CountValidated(ds) == rest + (if ds[k].validated then 1 else 0)
            && CountValidated(ds[k := d]) == rest + (if d.validated then 1 else 0)
            && CountValidated(ds[..k] + ds[k + 1..]) == rest
  {
    var front, back := ds[..k], ds[k + 1..];
    assert ds == front + [ds[k]] + back && ds[k := d] == front + [d] + back;
    CountPush(front, ds[k]);
    CountPush(front, d);
    CountConcat(front + [ds[k]], back);
    CountConcat(front + [d], back);
    CountConcat(front, back);
  }

  /** Both counters move together, and the caps hold. */
  ghost predicate Moves(caps: Caps, v: View, w: View) {
    && w.s.active - v.s.active == w.total - v.total >= 0
    && (w.total > v.total ==> w.total <= caps.maxTotal)
    && w.clock.ticks == v.clock.ticks && w.clock.turn >= v.clock.turn
    && w.s.stopping == v.s.stopping
  }

  lemma {:induction false} StartDialKeeps(caps: Caps, expiry: int, v: View, n: NodeId)
    requires Counters(caps, v.s) && HasRoom(caps, v)
    ensures Counters(caps, StartDial(expiry, v, n).s) && Moves(caps, v, StartDial(expiry, v, n))
  {
    CountPush(v.s.inFlight, Dial(n, false));
  }

  lemma {:induction false} StartDialCools(expiry: int, v: View, n: NodeId)
    requires Cooled(expiry, v)
    requires forall i :: 0 <= i < |v.s.log| && v.s.log[i].node == n ==> v.s.log[i].at + expiry <= v.clock.Now()
    ensures Cooled(expiry, StartDial(expiry, v, n))
  {
    assert v.clock.Now() <= v.clock.Next().Now();
  }

  /** Reading the clock and forgetting what is over change nothing that matters. */
  lemma {:induction false} WaitCools(expiry: int, v: View, w: View)
    requires Cooled(expiry, v) && w.s.log == v.s.log && w.clock == v.clock.Next()
    requires w.s.entries == v.s.entries || w.s.entries == Expired(v.s.entries, v.clock.Now())
    ensures Cooled(expiry, w)
  {
    assert v.clock.Now() <= w.clock.Now();
  }

  lemma CooledAlike(expiry: int, v: View, w: View)
    requires Cooled(expiry, v) && w.s.log == v.s.log && w.s.entries == v.s.entries && w.clock == v.clock
    ensures Cooled(expiry, w)
  {}

  /** A node the history does not hold back has no recent dial. */
  lemma {:induction false} NotHeldIsCool(expiry: int, v: View, n: NodeId)
    requires Cooled(expiry, v) && !Contains(v.s.entries, n, v.clock.Now())
    ensures forall i :: 0 <= i < |v.s.log| && v.s.log[i].node == n ==> v.s.log[i].at + expiry <= v.clock.Next().Now()
  {
    assert v.clock.Now() <= v.clock.Next().Now();
  }

  lemma MovesNowhere(caps: Caps, v: View)
    ensures Moves(caps, v, v)
  {}

  lemma MovesTurn(caps: Caps, v: View, w: View)
    requires w.s.active == v.s.active && w.total == v.total && w.clock == v.clock.Next() && w.s.stopping == v.s.stopping
    ensures Moves(caps, v, w)
  {}

  lemma MovesOn(caps: Caps, u: View, v: View, w: View)
    requires Moves(caps, u, v) && Moves(caps, v, w)
    ensures Moves(caps, u, w)
  {}

  lemma StartDialQueue(expiry: int, v: View, n: NodeId)
    ensures StartDial(expiry, v, n).s.queue == v.s.queue
  {}

  lemma {:induction false} DrainKeeps(caps: Caps, expiry: int, v: View)
    requires Counters(caps, v.s) && Cooled(expiry, v)
    ensures var w := Drain(caps, expiry, v);
            && Counters(caps, w.s) && Cooled(expiry, w) && Moves(caps, v, w)
            && (w.s.queue != [] ==> !HasRoom(caps, w))
    decreases |v.s.queue|
  {
    hide Cooled, StartDial, Moves;
    MovesNowhere(caps, v);
    if HasRoom(caps, v) && v.s.queue != [] {
      var n := v.s.queue[0];
      var q := v.(s := v.s.(queue := v.s.queue[1..]), clock := v.clock.Next());
      WaitCools(expiry, v, q);
      MovesTurn(caps, v, q);
      if Contains(v.s.entries, n, v.clock.Now()) {
        DrainKeeps(caps, expiry, q);
        MovesOn(caps, v, q, Drain(caps, expiry, q));
      } else {
        NotHeldIsCool(expiry, v, n);
        StartDialKeeps(caps, expiry, q, n);
        StartDialCools(expiry, q, n);
        var d := StartDial(expiry, q, n);
        StartDialQueue(expiry, q, n);
        DrainKeeps(caps, expiry, d);
        MovesOn(caps, q, d, Drain(caps, expiry, d));
        MovesOn(caps, v, q, Drain(caps, expiry, d));
      }
    }
  }

  lemma {:induction false} PruneKeeps(caps: Caps, expiry: int, v: View)
    requires Counters(caps, v.s) && Cooled(expiry, v)
    ensures var w := Prune(v); Counters(caps, w.s) && Cooled(expiry, w) && Moves(caps, v, w) && w.s.queue == v.s.queue
  {
    hide Cooled;
    WaitCools(expiry, v, Prune(v));
  }

  lemma {:induction false} EnqueueKeeps(caps: Caps, expiry: int, v: View, n: NodeId, wanted: bool)
    requires Counters(caps, v.s) && Cooled(expiry, v)
    ensures var w := Enqueue(caps, expiry, v, n, wanted);
            && Counters(caps, w.s) && Cooled(expiry, w) && Moves(caps, v, w)
            && (w.s.queue != v.s.queue ==> !HasRoom(caps, w))
            && (!HasRoom(caps, v) ==> !HasRoom(caps, w))
  {
    hide Cooled, Contains, Expired, Added;
    if !v.s.stopping && wanted {
      PruneKeeps(caps, expiry, v);
      var p := Prune(v);
      var q := p.(clock := p.clock.Next());
      WaitCools(expiry, p, q);
      if !Contains(p.s.entries, n, p.clock.Now()) && HasRoom(caps, q) {
        NotHeldIsCool(expiry, p, n);
        StartDialKeeps(caps, expiry, q, n);
        StartDialCools(expiry, q, n);
      } else {
        CooledAlike(expiry, q, q.(s := q.s.(queue := q.s.queue + [n])));
      }
    }
  }

  lemma {:induction false} DoneKeeps(caps: Caps, expiry: int, v: View, k: nat)
    requires k < |v.s.inFlight| && Counters(caps, v.s) && Cooled(expiry, v)
    ensures var w := Done(caps, expiry, v, k);
            && Counters(caps, w.s) && Cooled(expiry, w)
            && w.s.active - v.s.active == w.total - v.total
            && (w.total > v.total - 1 ==> w.total <= caps.maxTotal)
            && w.clock.ticks == v.clock.ticks && w.clock.turn >= v.clock.turn && w.s.stopping == v.s.stopping
            && (w.s.queue != [] ==> !HasRoom(caps, w))
  {
    hide Drain, CountValidated;
    var d := v.s.inFlight[k];
    CountAt(v.s.inFlight, k, d);
    var rest := v.s.inFlight[..k] + v.s.inFlight[k + 1..];
    var count := if d.validated then v.s.validatedCount - 1 else v.s.validatedCount;
    var w := v.(s := v.s.(inFlight := rest, validatedCount := count, active := v.s.active - 1), total := v.total - 1);
    assert Cooled(expiry, w);
    assert Counters(caps, w.s);
    if !v.s.stopping {
      PruneKeeps(caps, expiry, w);
      DrainKeeps(caps, expiry, Prune(w));
    }
  }

  lemma {:induction false} ConnectedKeeps(caps: Caps, expiry: int, v: View, k: nat)
    requires k < |v.s.inFlight| && !v.s.inFlight[k].validated && Counters(caps, v.s) && Cooled(expiry, v)
    ensures Counters(caps, Connected(v, k).s) && Cooled(expiry, Connected(v, k))
  {
    CountAt(v.s.inFlight, k, v.s.inFlight[k].(validated := true));
  }

  /** After stop the log of dials never grows again. */
  lemma {:induction false} StoppedStartsNothing(caps: Caps, expiry: int, v: View)
    requires v.s.stopping
    ensures forall n, wanted :: Enqueue(caps, expiry, v, n, wanted) == v
    ensures forall k :: 0 <= k < |v.s.inFlight| ==>
              var w := Done(caps, expiry, v, k); w.s.stopping && w.s.log == v.s.log && w.s.active == v.s.active - 1
  {}
}
