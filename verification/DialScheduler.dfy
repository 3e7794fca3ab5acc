/** The scheduler as an object, beside the pool, the history and the clock it works with. */
module DialScheduler {
  import opened DialHistory
  import opened DialScheduling

  class SteadyClock {
    const ticks: nat -> int
    var turn: nat

    constructor (ticks: nat -> int)
      ensures this.ticks == ticks && turn == 0
    {
      this.ticks, turn := ticks, 0;
    }

    function Value(): Clock
      reads this
    {
      Clock(ticks, turn)
    }

    method Read() returns (now: int)
      modifies this
      ensures now == old(Value()).Now() && Value() == old(Value()).Next()
    {
      now := ticks(turn);
      turn := turn + 1;
    }
  }

  class WatcherPool {
    const caps: Caps
    var activeTotal: int

    constructor (caps: Caps)
      ensures this.caps == caps && activeTotal == 0
    {
      this.caps, activeTotal := caps, 0;
    }
  }

  class DialScheduler {
    const pool: WatcherPool
    const history: DialHistory
    const clock: SteadyClock
    var active: int
    var validatedCount: int
    var totalValidated: int
    var stopping: bool
    var queue: seq<NodeId>
    var inFlight: seq<Dial>
    ghost var log: seq<Dialed>

    ghost function Now(): View
      reads this, pool, history, clock
    {
      View(Sched(active, validatedCount, totalValidated, stopping, queue, history.entries, inFlight, log),
           pool.activeTotal, clock.Value())
    }

    /** Every scheduler makes its own history. */
    constructor (pool: WatcherPool, clock: SteadyClock, expiry: int)
      ensures this.pool == pool && this.clock == clock && fresh(history) && history.expiry == expiry
      ensures Now().s == Sched(0, 0, 0, false, [], map[], [], [])
    {
      this.pool, this.clock := pool, clock;
      history := new DialHistory(expiry);
      active, validatedCount, totalValidated, stopping := 0, 0, 0, false;
      queue, inFlight, log := [], [], [];
    }

    /** The common part of `enqueue` and `release`: both counters, the history, the spawned dial. */
    method SpawnDial(n: NodeId)
      modifies this, pool, history, clock
      ensures Now() == StartDial(history.expiry, old(Now()), n)
    {
      active := active + 1;
      pool.activeTotal := pool.activeTotal + 1;
      var now := clock.Read();
      history.Add(n, now);
      inFlight := inFlight + [Dial(n, false)];
      log := log + [Dialed(n, now)];
    }

    method ExpireHistory()
      modifies history, clock
      ensures Now() == Prune(old(Now()))
    {
      var now := clock.Read();
      history.Expire(now);
    }

    method EnqueuePeer(n: NodeId, wanted: bool)
      modifies this, pool, history, clock
      ensures Now() == Enqueue(pool.caps, history.expiry, old(Now()), n, wanted)
    {
      hide StartDial, Expired;
      if stopping { return; }
      if !wanted { return; }
      ExpireHistory();
      var now := clock.Read();
      if n in history.entries && now < history.entries[n] { return; }
      if active < pool.caps.maxPerChain && pool.activeTotal < pool.caps.maxTotal {
        SpawnDial(n);
      } else {
        queue := queue + [n];
      }
    }

    method ReleaseSlot()
      modifies this, pool, history, clock
      ensures Now() == Release(pool.caps, history.expiry, old(Now()))
    {
      hide StartDial, Expired;
      active := active - 1;
      pool.activeTotal := pool.activeTotal - 1;
      if stopping { return; }
      ExpireHistory();
      ghost var start := Now();
      while active < pool.caps.maxPerChain && pool.activeTotal < pool.caps.maxTotal && queue != []
        invariant Drain(pool.caps, history.expiry, Now()) == Drain(pool.caps, history.expiry, start)
        decreases |queue|
      {
        var n := queue[0];
        queue := queue[1..];
        var now := clock.Read();
        if n in history.entries && now < history.entries[n] { continue; }
        StartDialQueue(history.expiry, Now(), n);
        SpawnDial(n);
      }
    }

    /** `on_done` of dial k: its flag says whether it had been counted as validated. */
    method OnDone(k: nat)
      requires k < |inFlight|
      modifies this, pool, history, clock
      ensures Now() == Done(pool.caps, history.expiry, old(Now()), k)
    {
      hide Release;
      if inFlight[k].validated { validatedCount := validatedCount - 1; }
      inFlight := inFlight[..k] + inFlight[k + 1..];
      ReleaseSlot();
    }

    method OnConnected(k: nat)
      requires k < |inFlight|
      modifies this
      ensures Now() == Connected(old(Now()), k)
    {
      inFlight := inFlight[k := inFlight[k].(validated := true)];
      validatedCount := validatedCount + 1;
      totalValidated := totalValidated + 1;
    }

    method StopDialling()
      modifies this
      ensures Now() == Stop(old(Now()))
    {
      stopping := true;
      queue := [];
    }
  }
}
