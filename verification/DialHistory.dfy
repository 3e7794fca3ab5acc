/** Recently dialled nodes, kept out of the dial queue until their cooldown is over. */
module DialHistory {
  type NodeId = seq<nat>

  /** A clock that is read from time to time and never runs backwards. */
  datatype Clock = Clock(ticks: nat -> int, turn: nat) {
    function Now(): int {
      ticks(turn)
    }

    function Next(): Clock {
      this.(turn := turn + 1)
    }
  }

  ghost predicate Forward(ticks: nat -> int) {
    forall i, j :: 0 <= i <= j ==> ticks(i) <= ticks(j)
  }

  type Entries = map<NodeId, int>

  function Added(entries: Entries, n: NodeId, now: int, expiry: int): Entries {
    entries[n := now + expiry]
  }

  predicate Contains(entries: Entries, n: NodeId, now: int) {
    n in entries && now < entries[n]
  }

  function Expired(entries: Entries, now: int): Entries {
    map n | n in entries && now < entries[n] :: entries[n]
  }

  class DialHistory {
    const expiry: int
    var entries: Entries

    constructor (expiry: int)
      ensures this.expiry == expiry && entries == map[]
    {
      this.expiry, entries := expiry, map[];
    }

    method Add(n: NodeId, now: int)
      modifies this
      ensures entries == Added(old(entries), n, now, expiry)
    {
      entries := entries[n := now + expiry];
    }

    /** `expire`: one pass over the map, in whatever order it is stored. */
    method Expire(now: int)
      modifies this
      ensures entries == Expired(old(entries), now)
    {
      var left := entries.Keys;
      ghost var before := entries;
      while left != {}
        invariant left <= before.Keys
        invariant entries.Keys == set n | n in before && (n in left || now < before[n])
        invariant forall n :: n in entries ==> entries[n] == before[n]
        decreases |left|
      {
        var n :| n in left;
        if now >= entries[n] {
          entries := entries - {n};
        }
        left := left - {n};
      }
    }
  }

  // ---------------------------------------------------------------------------------------------
  // Whole histories
  // ---------------------------------------------------------------------------------------------

  datatype Op = AddOp(n: NodeId, at: int) | ExpireOp(at: int)

  function Replay(ops: seq<Op>, expiry: int): Entries {
    if ops == [] then map[]
    else
      var before := Replay(ops[..|ops| - 1], expiry);
      match ops[|ops| - 1]
      case AddOp(n, at) => Added(before, n, at, expiry)
      case ExpireOp(at) => Expired(before, at)
  }

  ghost predicate InOrder(ops: seq<Op>) {
    forall i, j :: 0 <= i <= j < |ops| ==> ops[i].at <= ops[j].at
  }

  /** The time of the last add of a node. */
  ghost predicate LastAdded(ops: seq<Op>, n: NodeId, s: int) {
    exists i :: 0 <= i < |ops| && ops[i] == AddOp(n, s)
             && forall j :: i < j < |ops| ==> !(ops[j].AddOp? && ops[j].n == n)
  }

  /** What the entries say about a node, given when it was last added and the time of the last operation. */
  ghost predicate Remembers(entries: Entries, ops: seq<Op>, n: NodeId, expiry: int) {
    && (n in entries ==> exists s :: LastAdded(ops, n, s) && entries[n] == s + expiry)
    && (forall s :: LastAdded(ops, n, s) ==> n in entries || ops[|ops| - 1].at >= s + expiry)
  }

  lemma {:induction false} LastAddedPush(ops: seq<Op>, op: Op, n: NodeId, s: int)
    ensures LastAdded(ops + [op], n, s) <==> if op.AddOp? && op.n == n then s == op.at else LastAdded(ops, n, s)
  {
    var more := ops + [op];
    var k := |ops|;
    assert more[k] == op;
    if LastAdded(more, n, s) {
      var i :| 0 <= i < |more| && more[i] == AddOp(n, s)
               && forall j :: i < j < |more| ==> !(more[j].AddOp? && more[j].n == n);
      if i < k {
        assert ops[i] == AddOp(n, s);
        assert forall j :: i < j < |ops| ==> ops[j] == more[j];
      }
    }
    if !(op.AddOp? && op.n == n) && LastAdded(ops, n, s) {
      var i :| 0 <= i < |ops| && ops[i] == AddOp(n, s)
               && forall j :: i < j < |ops| ==> !(ops[j].AddOp? && ops[j].n == n);
      assert more[i] == AddOp(n, s);
    }
    if op.AddOp? && op.n == n && s == op.at {
      assert more[k] == AddOp(n, s);
    }
  }

  lemma {:induction false} RemembersStep(entries: Entries, before: seq<Op>, op: Op, n: NodeId, expiry: int)
    requires Remembers(entries, before, n, expiry)
    requires before != [] ==> before[|before| - 1].at <= op.at
    requires forall s: int ::
      LastAdded(before + [op], n, s) <==> if op.AddOp? && op.n == n then s == op.at else LastAdded(before, n, s)
    ensures var after := if op.AddOp? then Added(entries, op.n, op.at, expiry) else Expired(entries, op.at);
            Remembers(after, before + [op], n, expiry)
  {
    var after := if op.AddOp? then Added(entries, op.n, op.at, expiry) else Expired(entries, op.at);
    var ops := before + [op];
    hide LastAdded;
    if op.AddOp? && op.n == n {
      assert LastAdded(ops, n, op.at) && after[n] == op.at + expiry;
    } else if n in after {
      var s :| LastAdded(before, n, s) && entries[n] == s + expiry;
      assert LastAdded(ops, n, s);
    }
  }

  lemma {:induction false} ReplayRemembers(ops: seq<Op>, n: NodeId, expiry: int)
    requires InOrder(ops)
    ensures Remembers(Replay(ops, expiry), ops, n, expiry)
  {
    if ops != [] {
      var k := |ops| - 1;
      var before, op := ops[..k], ops[k];
      assert ops == before + [op];
      ReplayRemembers(before, n, expiry);
      forall s: int
        ensures LastAdded(ops, n, s) <==> if op.AddOp? && op.n == n then s == op.at else LastAdded(before, n, s)
      {
        LastAddedPush(before, op, n, s);
      }
      if before != [] { assert before[k - 1].at <= op.at; }
      RemembersStep(Replay(before, expiry), before, op, n, expiry);
    }
  }

  lemma {:induction false} LastAddedUnique(ops: seq<Op>, n: NodeId, s: int, u: int)
    requires LastAdded(ops, n, s) && LastAdded(ops, n, u)
    ensures s == u
  {
    var i :| 0 <= i < |ops| && ops[i] == AddOp(n, s) && forall j :: i < j < |ops| ==> !(ops[j].AddOp? && ops[j].n == n);
    var k :| 0 <= k < |ops| && ops[k] == AddOp(n, u) && forall j :: k < j < |ops| ==> !(ops[j].AddOp? && ops[j].n == n);
    assert i == k;
  }

  /** A node is held back at time t exactly when its last add was less than the expiry ago. */
  lemma {:induction false} HeldBackIff(ops: seq<Op>, n: NodeId, expiry: int, t: int)
    requires InOrder(ops) && (ops != [] ==> ops[|ops| - 1].at <= t)
    ensures Contains(Replay(ops, expiry), n, t) <==> exists s :: LastAdded(ops, n, s) && t < s + expiry
  {
    ReplayRemembers(ops, n, expiry);
    var entries := Replay(ops, expiry);
    if s :| LastAdded(ops, n, s) && t < s + expiry {
      assert n in entries;
      var u :| LastAdded(ops, n, u) && entries[n] == u + expiry;
      LastAddedUnique(ops, n, s, u);
    }
  }
}
