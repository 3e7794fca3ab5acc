/** Event filters and the watcher that offers every log to every subscription. */
module EventWatching {
  import opened Bytes
  import opened ChainTracker

  type Address = seq<nat>

  datatype Log = Log(address: Address, topics: seq<Hash>, data: seq<nat>)

  datatype Filter = Filter(
    addresses: seq<Address>, topics: seq<Option<Hash>>, fromBlock: Option<nat>, toBlock: Option<nat>)

  /** The block is in range, the emitter is listed or none is, and every topic asked for is there. */
  ghost predicate Matches(f: Filter, log: Log, number: nat) {
    && (f.fromBlock.Some? ==> f.fromBlock.value <= number)
    && (f.toBlock.Some? ==> number <= f.toBlock.value)
    && (f.addresses != [] ==> log.address in f.addresses)
    && forall i :: 0 <= i < |f.topics| && f.topics[i].Some? ==> i < |log.topics| && log.topics[i] == f.topics[i].value
  }

  /** `EventFilter::matches`. */
  method MatchFilter(f: Filter, log: Log, number: nat) returns (r: bool)
    ensures r == Matches(f, log, number)
  {
    if f.fromBlock.Some? && number < f.fromBlock.value { return false; }
    if f.toBlock.Some? && number > f.toBlock.value { return false; }
    if f.addresses != [] && log.address !in f.addresses { return false; }
    for i := 0 to |f.topics|
      invariant forall j :: 0 <= j < i && f.topics[j].Some? ==> j < |log.topics| && log.topics[j] == f.topics[j].value
    {
      if f.topics[i].None? { continue; }
      if i >= |log.topics| { return false; }
      if log.topics[i] != f.topics[i].value { return false; }
    }
    r := true;
  }

  datatype Event = Event(log: Log, block: Block, index: nat)

  /** A subscription's callback carries the number of the service's subscription. */
  datatype Watched = Watched(id: nat, filter: Filter, target: nat)

  datatype Call = Call(target: nat, event: Event)

  const WATCH_IDS: nat := 0x1_0000_0000

  ghost function CallsForLog(ws: seq<Watched>, e: Event): seq<Call> {
    if ws == [] then []
    else
      CallsForLog(ws[..|ws| - 1], e)
      + (if Matches(ws[|ws| - 1].filter, e.log, e.block.number) then [Call(ws[|ws| - 1].target, e)] else [])
  }

  /** The callbacks of one receipt: log by log, each offered to the subscriptions in their order. */
  ghost function CallsForReceipt(ws: seq<Watched>, logs: seq<Log>, b: Block): seq<Call> {
    if logs == [] then []
    else CallsForReceipt(ws, logs[..|logs| - 1], b) + CallsForLog(ws, Event(logs[|logs| - 1], b, |logs| - 1))
  }

  function WithoutWatched(ws: seq<Watched>, id: nat): seq<Watched> {
    if ws == [] then [] else (if ws[0].id == id then [] else [ws[0]]) + WithoutWatched(ws[1..], id)
  }

  /** The places of the subscriptions under other ids. */
  ghost function Survivors(ws: seq<Watched>, id: nat): (keep: seq<nat>)
    ensures forall i :: 0 <= i < |keep| ==> keep[i] < |ws| && ws[keep[i]].id != id
    ensures forall k :: 0 <= k < |ws| && ws[k].id != id ==> k in keep
    ensures forall i, j :: 0 <= i < j < |keep| ==> keep[i] < keep[j]
  {
    if ws == [] then []
    else
      var n := |ws| - 1;
      var front := Survivors(ws[..n], id);
      if ws[n].id == id then front else front + [n]
  }

  lemma {:induction false} WithoutPush(ws: seq<Watched>, w: Watched, id: nat)
    ensures WithoutWatched(ws + [w], id) == WithoutWatched(ws, id) + (if w.id == id then [] else [w])
  {
    if ws == [] {
      assert ws + [w] == [w] && [w][1..] == [];
    } else {
      assert (ws + [w])[1..] == ws[1..] + [w] && (ws + [w])[0] == ws[0];
      WithoutPush(ws[1..], w, id);
      var first, more := if ws[0].id == id then [] else [ws[0]], WithoutWatched(ws[1..], id);
      assert WithoutWatched(ws, id) == first + more;
      assert first + (more + [w]) == first + more + [w];
    }
  }

  /** Exactly those under the id are gone; the others keep their order. */
  lemma {:induction false} WithoutKeepsOrder(ws: seq<Watched>, id: nat)
    ensures var keep, rest := Survivors(ws, id), WithoutWatched(ws, id);
            |rest| == |keep| && forall k :: 0 <= k < |keep| ==> rest[k] == ws[keep[k]]
  {
    if ws != [] {
      var n := |ws| - 1;
      assert ws == ws[..n] + [ws[n]];
      WithoutKeepsOrder(ws[..n], id);
      WithoutPush(ws[..n], ws[n], id);
      var front := Survivors(ws[..n], id);
      assert forall k :: 0 <= k < |front| ==> ws[..n][front[k]] == ws[front[k]];
    }
  }

  class EventWatcher {
    var subscriptions: seq<Watched>
    var nextId: nat

    constructor ()
      ensures subscriptions == [] && nextId == 1
    {
      subscriptions, nextId := [], 1;
    }

    method Watch(filter: Filter, target: nat) returns (id: nat)
      modifies this
      ensures id == old(nextId) && nextId == (old(nextId) + 1) % WATCH_IDS
      ensures subscriptions == old(subscriptions) + [Watched(id, filter, target)]
    {
      id := nextId;
      nextId := (nextId + 1) % WATCH_IDS;
      subscriptions := subscriptions + [Watched(id, filter, target)];
    }

    /** `unwatch`: what stays is moved to the front, and the tail is erased. */
    method Unwatch(id: nat)
      modifies this`subscriptions
      ensures subscriptions == WithoutWatched(old(subscriptions), id)
      ensures var was, keep := old(subscriptions), Survivors(old(subscriptions), id);
              |subscriptions| == |keep| && forall k :: 0 <= k < |keep| ==> subscriptions[k] == was[keep[k]]
    {
      ghost var was := subscriptions;
      var kept := 0;
      for i := 0 to |subscriptions|
        invariant kept <= i <= |subscriptions| == |was| && subscriptions[i..] == was[i..]
        invariant subscriptions[..kept] == WithoutWatched(was[..i], id)
      {
        assert was[..i + 1] == was[..i] + [was[i]];
        WithoutPush(was[..i], was[i], id);
        assert subscriptions[i] == subscriptions[i..][0] == was[i];
        assert subscriptions[i + 1..] == subscriptions[i..][1..];
        if subscriptions[i].id != id {
          subscriptions := subscriptions[kept := subscriptions[i]];
          kept := kept + 1;
        }
      }
      assert was[..|was|] == was;
      subscriptions := subscriptions[..kept];
      WithoutKeepsOrder(was, id);
    }

    /** `process_receipt`; the callbacks it makes are returned in order. */
    method ProcessReceipt(logs: seq<Log>, b: Block) returns (calls: seq<Call>)
      ensures calls == CallsForReceipt(subscriptions, logs, b)
    {
      calls := [];
      for i := 0 to |logs|
        invariant calls == CallsForReceipt(subscriptions, logs[..i], b)
      {
        var more := OfferLog(Event(logs[i], b, i));
        assert logs[..i + 1][..i] == logs[..i];
        calls := calls + more;
      }
      assert logs[..|logs|] == logs;
    }

    method OfferLog(e: Event) returns (calls: seq<Call>)
      ensures calls == CallsForLog(subscriptions, e)
    {
      calls := [];
      for k := 0 to |subscriptions|
        invariant calls == CallsForLog(subscriptions[..k], e)
      {
        var s := subscriptions[k];
        var matched := MatchFilter(s.filter, e.log, e.block.number);
        assert subscriptions[..k + 1][..k] == subscriptions[..k];
        if matched { calls := calls + [Call(s.target, e)]; }
      }
      assert subscriptions[..|subscriptions|] == subscriptions;
    }
  }
}
