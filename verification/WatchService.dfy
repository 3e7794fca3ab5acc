/** The watch service as an object over its tracker and its watcher. */
module WatchService {
  import opened Bytes
  import opened ChainTracker
  import opened EventWatching
  import opened WatchRuns

  ghost function RequestAll(w: World, window: nat, sending: bool, bs: seq<Block>): World {
    if bs == [] then w else RequestStep(RequestAll(w, window, sending, bs[..|bs| - 1]), window, sending, bs[|bs| - 1])
  }

  /** Who is notified depends on the two tables alone. */
  lemma {:induction false} SameNotices(decodes: Decoder, v: World, w: World, receipts: seq<seq<Log>>, b: Block)
    requires v.subs == w.subs && v.watched == w.watched
    ensures BlockNotices(decodes, v, receipts, b) == BlockNotices(decodes, w, receipts, b)
  {
    if receipts != [] { SameNotices(decodes, v, w, receipts[..|receipts| - 1], b); }
  }

  class EthWatchService {
    const tracker: ChainTracker
    const watcher: EventWatcher
    const topicOf: string -> Hash
    const decodes: Decoder
    var sending: bool
    var subscriptions: seq<Sub>
    var nextId: nat
    var nextRequest: nat
    var pending: map<nat, Block>
    var notices: seq<Notice>
    ghost var asks: map<nat, Ask>
    ghost var watches: nat
    ghost var sent: seq<Request>
    ghost var answered: seq<Request>

    ghost predicate Valid()
      reads this, tracker, tracker.ring
    {
      tracker.Valid()
    }

    ghost function Now(): World
      reads this, tracker, watcher
    {
      World(subscriptions, nextId, watcher.subscriptions, watcher.nextId, tracker.accepted, nextRequest, pending,
            asks, watches, sent, answered, notices)
    }

    constructor (topicOf: string -> Hash, decodes: Decoder)
      ensures Valid() && Now() == START && !sending && fresh(tracker) && fresh(tracker.ring) && fresh(watcher)
      ensures this.topicOf == topicOf && this.decodes == decodes && tracker.size == DEFAULT_WINDOW
    {
      tracker := new ChainTracker(DEFAULT_WINDOW);
      watcher := new EventWatcher();
      this.topicOf, this.decodes, sending := topicOf, decodes, false;
      subscriptions, nextId, nextRequest, pending, notices := [], 1, 1, map[], [];
      asks, watches, sent, answered := map[], 0, [], [];
    }

    method MakeFilter(contract: Address, topic: Hash, fromBlock: Option<nat>, toBlock: Option<nat>) returns (f: Filter)
      ensures f == EventFilterFor(Ask(contract, topic, fromBlock, toBlock))
    {
      var addresses := [];
      if !AllZero(contract) { addresses := addresses + [contract]; }
      f := Filter(addresses, [Some(topic)], fromBlock, toBlock);
    }

    /** `watch_event`: the topic is the hash of the signature. */
    method WatchEvent(
      contract: Address, signature: string, fromBlock: Option<nat>, toBlock: Option<nat>) returns (id: nat)
      requires Valid()
      modifies this, watcher
      ensures Valid() && id == old(nextId)
      ensures Now() == WatchStep(old(Now()), signature, Ask(contract, topicOf(signature), fromBlock, toBlock))
    {
      hide EventFilterFor, Holds, Tip, Window;
      id := nextId;
      nextId := (nextId + 1) % WATCH_IDS;
      var filter := MakeFilter(contract, topicOf(signature), fromBlock, toBlock);
      subscriptions := subscriptions + [Sub(id, signature)];
      var discarded := watcher.Watch(filter, id);
      asks := asks[id := Ask(contract, topicOf(signature), fromBlock, toBlock)];
      watches := watches + 1;
    }

    /** What stays is moved to the front, and the tail is erased. */
    method Erase(id: nat)
      modifies this`subscriptions
      ensures subscriptions == Without(old(subscriptions), id)
    {
      ghost var was := subscriptions;
      var kept := 0;
      for i := 0 to |subscriptions|
        invariant kept <= i <= |subscriptions| == |was| && subscriptions[i..] == was[i..]
        invariant subscriptions[..kept] == Without(was[..i], id)
      {
        assert was[..i + 1] == was[..i] + [was[i]];
        WithoutSubPush(was[..i], was[i], id);
        assert subscriptions[i] == subscriptions[i..][0] == was[i];
        assert subscriptions[i + 1..] == subscriptions[i..][1..];
        if subscriptions[i].id != id {
          subscriptions := subscriptions[kept := subscriptions[i]];
          kept := kept + 1;
        }
      }
      assert was[..|was|] == was;
      subscriptions := subscriptions[..kept];
    }

    method UnwatchEvent(id: nat)
      requires Valid()
      modifies this, watcher
      ensures Valid() && Now() == UnwatchStep(old(Now()), id)
    {
      Erase(id);
      watcher.Unwatch(id);
    }

    method RequestReceipts(b: Block)
      requires Valid()
      modifies this, tracker, tracker.ring
      ensures Valid() && Now() == RequestStep(old(Now()), tracker.size, sending, b) && sending == old(sending)
    {
      hide Window;
      if !sending { return; }
      var isNew := tracker.MarkSeen(b);
      if !isNew { return; }
      var id := nextRequest;
      nextRequest := (nextRequest + 1) % REQUEST_IDS;
      pending := pending[id := b];
      sent := sent + [Request(id, b)];
    }

    method ProcessNewBlockHashes(entries: seq<Block>)
      requires Valid()
      modifies this, tracker, tracker.ring
      ensures Valid() && Now() == RequestAll(old(Now()), tracker.size, sending, entries) && sending == old(sending)
    {
      hide RequestStep;
      ghost var start := Now();
      for i := 0 to |entries|
        invariant Valid() && Now() == RequestAll(start, tracker.size, sending, entries[..i]) && sending == old(sending)
      {
        assert entries[..i + 1][..i] == entries[..i];
        RequestReceipts(entries[i]);
      }
      assert entries[..|entries|] == entries;
    }

    /** A NewBlock message, of which only the header's number is used. */
    method ProcessNewBlock(number: nat)
      requires Valid()
      modifies this, tracker, tracker.ring
      ensures Valid() && sending == old(sending)
      ensures Now() == Step(decodes, tracker.size, old(Now()), NewBlock(number, sending))
    {
      hide RequestStep, ReceiptsStep;
      RequestReceipts(NewBlockOf(number));
    }

    /** The callback made for a matched event: the subscription is looked up by the id it was given. */
    method Notify(c: Call)
      modifies this`notices
      ensures notices == old(notices) + Notices(decodes, subscriptions, c)
    {
      var k := 0;
      while k < |subscriptions| && subscriptions[k].id != c.target
        invariant k <= |subscriptions| && notices == old(notices)
        invariant Notices(decodes, subscriptions[k..], c) == Notices(decodes, subscriptions, c)
      {
        assert subscriptions[k..][1..] == subscriptions[k + 1..];
        k := k + 1;
      }
      if k == |subscriptions| { return; }
      if decodes(c.event.log, subscriptions[k].signature) {
        notices := notices + [Notice(subscriptions[k], c.event)];
      }
    }

    method NotifyAll(calls: seq<Call>)
      modifies this`notices
      ensures notices == old(notices) + AllNotices(decodes, subscriptions, calls)
    {
      for i := 0 to |calls|
        invariant notices == old(notices) + AllNotices(decodes, subscriptions, calls[..i])
      {
        assert calls[..i + 1][..i] == calls[..i];
        Notify(calls[i]);
      }
      assert calls[..|calls|] == calls;
    }

    method ProcessReceipts(receipts: seq<seq<Log>>, b: Block)
      modifies this`notices
      ensures notices == old(notices) + BlockNotices(decodes, old(Now()), receipts, b)
    {
      hide CallsForReceipt, AllNotices;
      ghost var start := Now();
      for i := 0 to |receipts|
        invariant Now() == start.(notices := notices)
        invariant notices == start.notices + BlockNotices(decodes, start, receipts[..i], b)
      {
        assert receipts[..i + 1][..i] == receipts[..i];
        var calls := watcher.ProcessReceipt(receipts[i], b);
        NotifyAll(calls);
      }
      assert receipts[..|receipts|] == receipts;
    }

    /** A Receipts message: the first list goes to the request, if the id is outstanding. */
    method ProcessReceiptsMessage(id: Option<nat>, lists: seq<seq<seq<Log>>>)
      requires Valid()
      modifies this
      ensures Valid() && Now() == ReceiptsStep(decodes, old(Now()), id, lists) && sending == old(sending)
    {
      hide BlockNotices;
      if lists == [] { return; }
      ghost var start := Now();
      var b := UNKNOWN;
      if id.Some? && id.value in pending {
        b := pending[id.value];
        answered := answered + [Request(id.value, b)];
        pending := pending - {id.value};
      }
      SameNotices(decodes, start, Now(), lists[0], b);
      ProcessReceipts(lists[0], b);
      ProcessLater(start, lists[1..]);
    }

    method ProcessLater(ghost start: World, lists: seq<seq<seq<Log>>>)
      requires Now().subs == start.subs && Now().watched == start.watched
      modifies this`notices
      ensures notices == old(notices) + LaterNotices(decodes, start, lists)
    {
      hide BlockNotices;
      ghost var before := Now();
      for i := 0 to |lists|
        invariant Now() == before.(notices := notices)
        invariant notices == before.notices + LaterNotices(decodes, start, lists[..i])
      {
        assert lists[..i + 1][..i] == lists[..i];
        SameNotices(decodes, start, Now(), lists[i], UNKNOWN);
        ProcessReceipts(lists[i], UNKNOWN);
      }
      assert lists[..|lists|] == lists;
    }
  }
}
