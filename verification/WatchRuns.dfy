/** The watch service over whole runs: two subscription tables, requests and their answers. */
module WatchRuns {
  import opened Bytes
  import opened ChainTracker
  import opened EventWatching

  /** A subscription as the service keeps it; `signature` stands for what decoding and delivery need. */
  datatype Sub = Sub(id: nat, signature: string)

  datatype Request = Request(id: nat, block: Block)

  datatype Notice = Notice(sub: Sub, event: Event)

  const REQUEST_IDS: nat := 0x1_0000_0000_0000_0000

  const ZERO_HASH: Hash :=
    [0, 0, 0, 0, 0, 0, 0, 0, 0, 0, 0, 0, 0, 0, 0, 0, 0, 0, 0, 0, 0, 0, 0, 0, 0, 0, 0, 0, 0, 0, 0, 0]

  /** A block that was not asked for: hash and number are zero. */
  const UNKNOWN: Block := Block(ZERO_HASH, 0)

  /** What a caller of `watch_event` asks for; a contract of zeros stands for any. */
  datatype Ask = Ask(contract: Address, topic: Hash, fromBlock: Option<nat>, toBlock: Option<nat>)

  predicate AllZero(a: Address) {
    forall i :: 0 <= i < |a| ==> a[i] == 0
  }

  /** One topic, and the contract unless its address is all zero. */
  function EventFilterFor(ask: Ask): Filter {
    Filter(if AllZero(ask.contract) then [] else [ask.contract], [Some(ask.topic)], ask.fromBlock, ask.toBlock)
  }

  /** The block is in the range, the log is the contract's, and its first topic is the one asked for. */
  predicate Meets(ask: Ask, log: Log, number: nat) {
    && (ask.fromBlock.Some? ==> ask.fromBlock.value <= number)
    && (ask.toBlock.Some? ==> number <= ask.toBlock.value)
    && (AllZero(ask.contract) || log.address == ask.contract)
    && log.topics != [] && log.topics[0] == ask.topic
  }

  /** The filter that is made lets exactly those logs through. */
  lemma {:induction false} FilterMeets(ask: Ask, log: Log, number: nat)
    ensures Matches(EventFilterFor(ask), log, number) <==> Meets(ask, log, number)
  {
    var f := EventFilterFor(ask);
    assert |f.topics| == 1 && f.topics[0] == Some(ask.topic);
    assert log.address in [ask.contract] <==> log.address == ask.contract;
  }

  /**
   The service, its watcher and its tracker; `asks`, `watches`, `sent`, `answered` and `notices` record what happened.
   */
  datatype World = World(
    subs: seq<Sub>, nextId: nat, watched: seq<Watched>, watcherNext: nat,
    accepted: seq<Block>, nextRequest: nat, pending: map<nat, Block>,
    asks: map<nat, Ask>, watches: nat, sent: seq<Request>, answered: seq<Request>, notices: seq<Notice>)

  /** How logs decode is a parameter. */
  type Decoder = (Log, string) -> bool

  function Without(ss: seq<Sub>, id: nat): seq<Sub> {
    if ss == [] then [] else (if ss[0].id == id then [] else [ss[0]]) + Without(ss[1..], id)
  }

  lemma {:induction false} WithoutSubPush(ss: seq<Sub>, s: Sub, id: nat)
    ensures Without(ss + [s], id) == Without(ss, id) + (if s.id == id then [] else [s])
  {
    if ss == [] {
      assert ss + [s] == [s] && [s][1..] == [];
    } else {
      assert (ss + [s])[1..] == ss[1..] + [s] && (ss + [s])[0] == ss[0];
      WithoutSubPush(ss[1..], s, id);
      var first, more := if ss[0].id == id then [] else [ss[0]], Without(ss[1..], id);
      assert Without(ss, id) == first + more;
      assert first + (more + [s]) == first + more + [s];
    }
  }

  /** `watch_event`: both counters move, whatever the watcher returns. */
  function WatchStep(w: World, signature: string, ask: Ask): World {
    w.(subs := w.subs + [Sub(w.nextId, signature)], nextId := (w.nextId + 1) % WATCH_IDS,
       watched := w.watched + [Watched(w.watcherNext, EventFilterFor(ask), w.nextId)],
       watcherNext := (w.watcherNext + 1) % WATCH_IDS,
       asks := w.asks[w.nextId := ask], watches := w.watches + 1)
  }

  function UnwatchStep(w: World, id: nat): World {
    w.(subs := Without(w.subs, id), watched := WithoutWatched(w.watched, id))
  }

  /** `request_receipts`; without a send callback nothing happens. */
  function RequestStep(w: World, window: nat, sending: bool, b: Block): World {
    if !sending || b.hash in Window(w.accepted, window) then w
    else
      w.(accepted := Marked(w.accepted, window, b), nextRequest := (w.nextRequest + 1) % REQUEST_IDS,
         pending := w.pending[w.nextRequest := b], sent := w.sent + [Request(w.nextRequest, b)])
  }

  /** The callback of a matched event: the first subscription under the number, if the log decodes. */
  function Notices(decodes: Decoder, ss: seq<Sub>, c: Call): seq<Notice> {
    if ss == [] then []
    else if ss[0].id == c.target then (if decodes(c.event.log, ss[0].signature) then [Notice(ss[0], c.event)] else [])
    else Notices(decodes, ss[1..], c)
  }

  function AllNotices(decodes: Decoder, ss: seq<Sub>, cs: seq<Call>): seq<Notice> {
    if cs == [] then [] else AllNotices(decodes, ss, cs[..|cs| - 1]) + Notices(decodes, ss, cs[|cs| - 1])
  }

  /** `process_receipts` for the receipts of one block. */
  ghost function BlockNotices(decodes: Decoder, w: World, receipts: seq<seq<Log>>, b: Block): seq<Notice> {
    if receipts == [] then []
    else
      BlockNotices(decodes, w, receipts[..|receipts| - 1], b)
      + AllNotices(decodes, w.subs, CallsForReceipt(w.watched, receipts[|receipts| - 1], b))
  }

  /** The first list of a reply that carries an outstanding request id belongs to that request's block. */
  function BlockOf(w: World, id: Option<nat>): Block {
    if id.Some? && id.value in w.pending then w.pending[id.value] else UNKNOWN
  }

  function Settle(w: World, id: Option<nat>): World {
    if id.Some? && id.value in w.pending then
      w.(pending := w.pending - {id.value}, answered := w.answered + [Request(id.value, w.pending[id.value])])
    else w
  }

  ghost function LaterNotices(decodes: Decoder, w: World, lists: seq<seq<seq<Log>>>): seq<Notice> {
    if lists == [] then []
    else LaterNotices(decodes, w, lists[..|lists| - 1]) + BlockNotices(decodes, w, lists[|lists| - 1], UNKNOWN)
  }

  /** A Receipts message. */
  ghost function ReceiptsStep(decodes: Decoder, w: World, id: Option<nat>, lists: seq<seq<seq<Log>>>): World {
    if lists == [] then w
    else
      Settle(w, id).(notices := w.notices + BlockNotices(decodes, w, lists[0], BlockOf(w, id))
                                + LaterNotices(decodes, w, lists[1..]))
  }

  /** A NewBlock message carries no hash, so its block is asked for under the zero hash. */
  function NewBlockOf(number: nat): Block {
    Block(ZERO_HASH, number)
  }

  /** What reaches the service: calls of its owner, announced hashes, new blocks and receipts. */
  datatype Action =
    | Watch(signature: string, ask: Ask)
    | Unwatch(id: nat)
    | Announced(block: Block, sending: bool)
    | NewBlock(number: nat, sending: bool)
    | Receipts(request: Option<nat>, lists: seq<seq<seq<Log>>>)

  ghost function Step(decodes: Decoder, window: nat, w: World, a: Action): World {
    match a
    case Watch(signature, ask) => WatchStep(w, signature, ask)
    case Unwatch(id) => UnwatchStep(w, id)
    case Announced(b, sending) => RequestStep(w, window, sending, b)
    case NewBlock(number, sending) => RequestStep(w, window, sending, NewBlockOf(number))
    case Receipts(id, lists) => ReceiptsStep(decodes, w, id, lists)
  }

  ghost function Run(decodes: Decoder, window: nat, w: World, actions: seq<Action>): World
    decreases |actions|
  {
    if actions == [] then w else Run(decodes, window, Step(decodes, window, w, actions[0]), actions[1..])
  }

  const START: World := World([], 1, [], 1, [], 1, map[], map[], 0, [], [], [])

  // ---------------------------------------------------------------------------------------------
  // The two tables
  // ---------------------------------------------------------------------------------------------

  /** Same ids in the same order on both sides, and the callbacks point where they should. */
  ghost predicate SameIds(ss: seq<Sub>, ws: seq<Watched>) {
    |ss| == |ws| && forall i :: 0 <= i < |ss| ==> ss[i].id == ws[i].id == ws[i].target
  }

  ghost predicate LockStep(w: World) {
    w.nextId == w.watcherNext && SameIds(w.subs, w.watched)
  }

  /** Removing an id removes the matching pair. */
  lemma {:induction false} RemovePair(ss: seq<Sub>, ws: seq<Watched>, id: nat)
    requires SameIds(ss, ws)
    ensures SameIds(Without(ss, id), WithoutWatched(ws, id))
  {
    if ss != [] {
      assert ss[0].id == ws[0].id == ws[0].target;
      RemovePair(ss[1..], ws[1..], id);
    }
  }

  lemma {:induction false} StepKeepsLockStep(decodes: Decoder, window: nat, w: World, a: Action)
    requires LockStep(w)
    ensures LockStep(Step(decodes, window, w, a))
  {
    match a {
      case Watch(_, _) =>
      case Unwatch(id) => RemovePair(w.subs, w.watched, id);
      case Announced(_, _) =>
      case NewBlock(_, _) =>
      case Receipts(_, _) =>
    }
  }

  // ---------------------------------------------------------------------------------------------
  // Ids stay apart while the counter has not wrapped
  // ---------------------------------------------------------------------------------------------

  ghost predicate Rising(ss: seq<Sub>, bound: nat) {
    (forall i :: 0 <= i < |ss| ==> ss[i].id < bound) && forall i, j :: 0 <= i < j < |ss| ==> ss[i].id < ss[j].id
  }

  ghost predicate Apart(w: World) {
    w.watches < WATCH_IDS - 1 ==> w.nextId == 1 + w.watches && Rising(w.subs, w.nextId)
  }

  lemma {:induction false} WithoutRises(ss: seq<Sub>, id: nat, bound: nat, low: int)
    requires Rising(ss, bound) && forall i :: 0 <= i < |ss| ==> low < ss[i].id
    ensures var r := Without(ss, id); Rising(r, bound) && (forall i :: 0 <= i < |r| ==> low < r[i].id && r[i].id != id)
    decreases |ss|
  {
    if ss != [] {
      WithoutRises(ss[1..], id, bound, ss[0].id);
      var r, t := Without(ss, id), Without(ss[1..], id);
      assert r == (if ss[0].id == id then [] else [ss[0]]) + t;
      assert low < ss[0].id;
    }
  }

  lemma {:induction false} StepKeepsApart(decodes: Decoder, window: nat, w: World, a: Action)
    requires Apart(w)
    ensures Apart(Step(decodes, window, w, a))
  {
    match a {
      case Watch(_, _) =>
      case Unwatch(id) =>
        if w.watches < WATCH_IDS - 1 { WithoutRises(w.subs, id, w.nextId, -1); }
      case Announced(_, _) =>
      case NewBlock(_, _) =>
      case Receipts(_, _) =>
    }
  }

  // ---------------------------------------------------------------------------------------------
  // Requests and answers
  // ---------------------------------------------------------------------------------------------

  function RequestId(k: nat): nat {
    (1 + k) % REQUEST_IDS
  }

  /** The requests sent are the blocks accepted, numbered in order, and repeats are a window apart. */
  ghost predicate Numbered(w: World, window: nat) {
    && |w.sent| == |w.accepted| && w.nextRequest == RequestId(|w.sent|)
    && (forall i :: 0 <= i < |w.sent| ==> w.sent[i] == Request(RequestId(i), w.accepted[i]))
    && FarApart(w.accepted, window)
  }

  /** While request ids have not wrapped: what is outstanding or answered was sent, not both, and answered only once. */
  ghost predicate Settled(w: World) {
    |w.sent| < REQUEST_IDS ==>
      && (forall id :: id in w.pending ==> 1 <= id <= |w.sent| && w.pending[id] == w.sent[id - 1].block)
      && (forall i :: 0 <= i < |w.answered| ==>
            var r := w.answered[i]; 1 <= r.id <= |w.sent| && r == w.sent[r.id - 1] && r.id !in w.pending)
      && (forall i, j :: 0 <= i < j < |w.answered| ==> w.answered[i].id != w.answered[j].id)
  }

  /** While request ids have not wrapped, every request is outstanding until it is answered. */
  ghost predicate Tracked(w: World) {
    |w.sent| < REQUEST_IDS ==>
      forall i :: 0 <= i < |w.sent| ==> w.sent[i].id in w.pending || w.sent[i] in w.answered
  }

  lemma NextId(k: nat)
    ensures (RequestId(k) + 1) % REQUEST_IDS == RequestId(k + 1)
    ensures k < REQUEST_IDS - 1 ==> RequestId(k) == 1 + k
  {
    var q, x := (1 + k) / REQUEST_IDS, (1 + k) % REQUEST_IDS;
    assert 2 + k == q * REQUEST_IDS + (x + 1);
    if x + 1 == REQUEST_IDS {
      assert 2 + k == (q + 1) * REQUEST_IDS;
    }
  }

  lemma {:induction false} RequestKeepsNumbers(w: World, window: nat, sending: bool, b: Block)
    requires Numbered(w, window)
    ensures Numbered(RequestStep(w, window, sending, b), window)
  {
    hide Window, FarApart;
    MarkedFarApart(w.accepted, window, b);
    NextId(|w.sent|);
  }

  lemma {:induction false} RequestKeepsSettled(w: World, window: nat, sending: bool, b: Block)
    requires Numbered(w, window) && Settled(w)
    ensures Settled(RequestStep(w, window, sending, b))
  {
    hide Window, FarApart;
    NextId(|w.sent|);
    var v := RequestStep(w, window, sending, b);
    if v != w && |v.sent| < REQUEST_IDS {
      var k := |w.sent|;
      assert v.sent[k] == Request(1 + k, b) && forall i :: 0 <= i < k ==> v.sent[i] == w.sent[i];
      forall id | id in v.pending ensures 1 <= id <= |v.sent| && v.pending[id] == v.sent[id - 1].block {
        if id != 1 + k { assert id in w.pending; }
      }
    }
  }

  lemma {:induction false} ReceiptsKeepSettled(
    decodes: Decoder, w: World, window: nat, id: Option<nat>, lists: seq<seq<seq<Log>>>)
    requires Numbered(w, window) && Settled(w)
    ensures Numbered(ReceiptsStep(decodes, w, id, lists), window) && Settled(ReceiptsStep(decodes, w, id, lists))
  {
    hide BlockNotices, LaterNotices, FarApart;
    if |w.sent| < REQUEST_IDS && id.Some? && id.value in w.pending {
      NextId(id.value - 1);
      assert w.sent[id.value - 1] == Request(id.value, w.pending[id.value]);
    }
  }

  lemma {:induction false} RequestKeepsTracked(w: World, window: nat, sending: bool, b: Block)
    requires Tracked(w)
    ensures Tracked(RequestStep(w, window, sending, b))
  {
    hide Window, Marked;
  }

  lemma {:induction false} PendingIsSent(w: World, window: nat, i: nat)
    requires Numbered(w, window) && Settled(w) && i < |w.sent| < REQUEST_IDS && w.sent[i].id in w.pending
    ensures w.sent[i] == Request(w.sent[i].id, w.pending[w.sent[i].id])
  {
    hide FarApart;
    NextId(i);
  }

  lemma {:induction false} SettleKeepsTracked(w: World, window: nat, id: Option<nat>)
    requires Numbered(w, window) && Settled(w) && Tracked(w)
    ensures Tracked(Settle(w, id))
  {
    hide Numbered, Settled;
    var v := Settle(w, id);
    if |w.sent| < REQUEST_IDS && id.Some? && id.value in w.pending {
      assert w.answered <= v.answered && v.answered[|w.answered|] == Request(id.value, w.pending[id.value]);
      forall i | 0 <= i < |w.sent| ensures w.sent[i].id in v.pending || w.sent[i] in v.answered {
        if w.sent[i].id == id.value { PendingIsSent(w, window, i); }
      }
    }
  }

  lemma {:induction false} TrackedAlike(v: World, w: World)
    requires Tracked(v) && w.sent == v.sent && w.pending == v.pending && w.answered == v.answered
    ensures Tracked(w)
  {}

  lemma {:induction false} StepKeepsTracked(decodes: Decoder, window: nat, w: World, a: Action)
    requires Numbered(w, window) && Settled(w) && Tracked(w)
    ensures Tracked(Step(decodes, window, w, a))
  {
    hide Numbered, Settled, Tracked, RequestStep, Settle, BlockNotices, LaterNotices;
    match a {
      case Watch(_, _) => TrackedAlike(w, Step(decodes, window, w, a));
      case Unwatch(_) => TrackedAlike(w, Step(decodes, window, w, a));
      case Announced(b, sending) => RequestKeepsTracked(w, window, sending, b);
      case NewBlock(number, sending) => RequestKeepsTracked(w, window, sending, NewBlockOf(number));
      case Receipts(id, lists) =>
        SettleKeepsTracked(w, window, id);
        if lists != [] { TrackedAlike(Settle(w, id), Step(decodes, window, w, a)); }
    }
  }

  /** What holds in every reachable state. */
  ghost predicate Sound(w: World, window: nat) {
    LockStep(w) && Apart(w) && Numbered(w, window) && Settled(w) && Tracked(w)
  }

  lemma {:induction false} StepKeepsSound(decodes: Decoder, window: nat, w: World, a: Action)
    requires Sound(w, window)
    ensures Sound(Step(decodes, window, w, a), window)
  {
    hide BlockNotices, LaterNotices, FarApart, Window, LockStep, Apart, Tracked;
    StepKeepsTracked(decodes, window, w, a);
    StepKeepsLockStep(decodes, window, w, a);
    StepKeepsApart(decodes, window, w, a);
    match a {
      case Watch(_, _) =>
      case Unwatch(_) =>
      case Announced(b, sending) =>
        RequestKeepsNumbers(w, window, sending, b);
        RequestKeepsSettled(w, window, sending, b);
      case NewBlock(number, sending) =>
        RequestKeepsNumbers(w, window, sending, NewBlockOf(number));
        RequestKeepsSettled(w, window, sending, NewBlockOf(number));
      case Receipts(id, lists) => ReceiptsKeepSettled(decodes, w, window, id, lists);
    }
  }

  /** In every run: the tables agree, ids stay apart, repeats are a window apart and answers are given once. */
  lemma {:induction false} AlwaysSound(decodes: Decoder, window: nat, w: World, actions: seq<Action>)
    requires Sound(w, window)
    ensures Sound(Run(decodes, window, w, actions), window)
    decreases |actions|
  {
    hide Sound, Step;
    if actions != [] {
      StepKeepsSound(decodes, window, w, actions[0]);
      AlwaysSound(decodes, window, Step(decodes, window, w, actions[0]), actions[1..]);
    }
  }

  lemma {:induction false} StartIsSound(window: nat)
    ensures Sound(START, window)
  {}

  // ---------------------------------------------------------------------------------------------
  // The two tables act as one
  // ---------------------------------------------------------------------------------------------

  /** The simple form: one table of subscriptions with their filters. */
  ghost function DirectNotices(decodes: Decoder, ss: seq<Sub>, ws: seq<Watched>, e: Event): seq<Notice>
    requires |ss| == |ws|
  {
    if ss == [] then []
    else
      var k := |ss| - 1;
      DirectNotices(decodes, ss[..k], ws[..k], e)
      + (if Matches(ws[k].filter, e.log, e.block.number) && decodes(e.log, ss[k].signature) then [Notice(ss[k], e)]
         else [])
  }

  ghost predicate UniqueIds(ss: seq<Sub>) {
    forall i, j :: 0 <= i < j < |ss| ==> ss[i].id != ss[j].id
  }

  /** Looking an id up finds the subscription that has it. */
  lemma {:induction false} LookupFinds(decodes: Decoder, ss: seq<Sub>, k: nat, c: Call)
    requires k < |ss| && UniqueIds(ss) && c.target == ss[k].id
    ensures Notices(decodes, ss, c) == if decodes(c.event.log, ss[k].signature) then [Notice(ss[k], c.event)] else []
  {
    if k > 0 {
      assert ss[0].id != ss[k].id;
      LookupFinds(decodes, ss[1..], k - 1, c);
    }
  }

  lemma {:induction false} AllNoticesConcat(decodes: Decoder, ss: seq<Sub>, a: seq<Call>, b: seq<Call>)
    ensures AllNotices(decodes, ss, a + b) == AllNotices(decodes, ss, a) + AllNotices(decodes, ss, b)
  {
    if b == [] {
      assert a + b == a;
    } else {
      var k := |b| - 1;
      assert (a + b)[..|a + b| - 1] == a + b[..k];
      AllNoticesConcat(decodes, ss, a, b[..k]);
    }
  }

  /** Every matching subscription is notified, in order, although the tables meet only through their ids. */
  lemma {:induction false} TablesActAsOne(decodes: Decoder, ss: seq<Sub>, ws: seq<Watched>, e: Event, k: nat)
    requires SameIds(ss, ws) && UniqueIds(ss) && k <= |ss|
    ensures AllNotices(decodes, ss, CallsForLog(ws[..k], e)) == DirectNotices(decodes, ss[..k], ws[..k], e)
    decreases k
  {
    hide Matches, UniqueIds;
    if k > 0 {
      TablesActAsOne(decodes, ss, ws, e, k - 1);
      assert ws[..k][..k - 1] == ws[..k - 1] && ss[..k][..k - 1] == ss[..k - 1];
      var front := CallsForLog(ws[..k - 1], e);
      if Matches(ws[k - 1].filter, e.log, e.block.number) {
        var c := Call(ws[k - 1].target, e);
        LookupFinds(decodes, ss, k - 1, c);
        AllNoticesConcat(decodes, ss, front, [c]);
        assert [c][..0] == [];
        assert AllNotices(decodes, ss, [c]) == Notices(decodes, ss, c);
      } else {
        assert front + [] == front;
      }
    }
  }

  /** In every reachable state before the ids wrap, a log reaches exactly the subscriptions whose filter it matches. */
  lemma {:induction false} NoticesAreDirect(decodes: Decoder, window: nat, actions: seq<Action>, e: Event)
    requires Run(decodes, window, START, actions).watches < WATCH_IDS - 1
    ensures var w := Run(decodes, window, START, actions);
            && |w.subs| == |w.watched|
            && AllNotices(decodes, w.subs, CallsForLog(w.watched, e)) == DirectNotices(decodes, w.subs, w.watched, e)
  {
    hide Run, Numbered, Settled, Tracked, CallsForLog, DirectNotices, AllNotices;
    StartIsSound(window);
    AlwaysSound(decodes, window, START, actions);
    var w := Run(decodes, window, START, actions);
    assert w.subs[..|w.subs|] == w.subs && w.watched[..|w.watched|] == w.watched;
    TablesActAsOne(decodes, w.subs, w.watched, e, |w.subs|);
  }

  // ---------------------------------------------------------------------------------------------
  // Subscriptions get what was asked for
  // ---------------------------------------------------------------------------------------------

  /** While ids have not wrapped, each subscription's filter is the one its id was asked for with. */
  ghost predicate AsAsked(w: World) {
    |w.subs| == |w.watched| &&
    (w.watches < WATCH_IDS - 1 ==>
       forall i :: 0 <= i < |w.subs| ==>
         w.subs[i].id in w.asks && w.watched[i].filter == EventFilterFor(w.asks[w.subs[i].id]))
  }

  /** Every pair left is one of the pairs there were. */
  lemma {:induction false} WithoutPairs(ss: seq<Sub>, ws: seq<Watched>, id: nat)
    requires SameIds(ss, ws)
    ensures var rs, rw := Without(ss, id), WithoutWatched(ws, id);
            && |rs| == |rw|
            && forall k :: 0 <= k < |rs| ==> exists i :: 0 <= i < |ss| && rs[k] == ss[i] && rw[k] == ws[i]
  {
    if ss != [] {
      WithoutPairs(ss[1..], ws[1..], id);
      var rs, rw := Without(ss, id), WithoutWatched(ws, id);
      var ts, tw := Without(ss[1..], id), WithoutWatched(ws[1..], id);
      assert ss[0].id == ws[0].id;
      forall k | 0 <= k < |rs| ensures exists i :: 0 <= i < |ss| && rs[k] == ss[i] && rw[k] == ws[i] {
        var kept := if ss[0].id == id then 0 else 1;
        assert |rs| == |ts| + kept && |rw| == |tw| + kept;
        if k < kept {
          assert rs[k] == ss[0] && rw[k] == ws[0];
        } else {
          assert rs[k] == ts[k - kept] && rw[k] == tw[k - kept];
          var i :| 0 <= i < |ss[1..]| && ts[k - kept] == ss[1..][i] && tw[k - kept] == ws[1..][i];
          assert rs[k] == ss[i + 1] && rw[k] == ws[i + 1];
        }
      }
    }
  }

  lemma {:induction false} StepKeepsAsked(decodes: Decoder, window: nat, w: World, a: Action)
    requires AsAsked(w) && LockStep(w) && Apart(w)
    ensures AsAsked(Step(decodes, window, w, a))
  {
    hide EventFilterFor, Window, BlockNotices, LaterNotices;
    match a {
      case Watch(_, ask) =>
      case Unwatch(id) => WithoutPairs(w.subs, w.watched, id);
      case Announced(_, _) =>
      case NewBlock(_, _) =>
      case Receipts(_, _) =>
    }
  }

  lemma {:induction false} AlwaysAsked(decodes: Decoder, window: nat, w: World, actions: seq<Action>)
    requires AsAsked(w) && Sound(w, window)
    ensures AsAsked(Run(decodes, window, w, actions))
    decreases |actions|
  {
    hide AsAsked, LockStep, Apart, Numbered, Settled, Tracked, Step;
    if actions != [] {
      StepKeepsAsked(decodes, window, w, actions[0]);
      StepKeepsSound(decodes, window, w, actions[0]);
      AlwaysAsked(decodes, window, Step(decodes, window, w, actions[0]), actions[1..]);
    }
  }

  /** The subscriptions whose ask the log meets and whose signature decodes it, in order. */
  function AskedNotices(decodes: Decoder, ss: seq<Sub>, asks: map<nat, Ask>, e: Event): seq<Notice>
    requires forall i :: 0 <= i < |ss| ==> ss[i].id in asks
  {
    if ss == [] then []
    else
      var k := |ss| - 1;
      AskedNotices(decodes, ss[..k], asks, e)
      + (if Meets(asks[ss[k].id], e.log, e.block.number) && decodes(e.log, ss[k].signature) then [Notice(ss[k], e)]
         else [])
  }

  lemma {:induction false} DirectIsAsked(
    decodes: Decoder, ss: seq<Sub>, ws: seq<Watched>, asks: map<nat, Ask>, e: Event)
    requires |ss| == |ws| && forall i :: 0 <= i < |ss| ==> ss[i].id in asks
    requires forall i :: 0 <= i < |ss| ==> ws[i].filter == EventFilterFor(asks[ss[i].id])
    ensures DirectNotices(decodes, ss, ws, e) == AskedNotices(decodes, ss, asks, e)
  {
    hide Matches, Meets, EventFilterFor;
    if ss != [] {
      var k := |ss| - 1;
      DirectIsAsked(decodes, ss[..k], ws[..k], asks, e);
      FilterMeets(asks[ss[k].id], e.log, e.block.number);
    }
  }

  /**
   In every reachable state before the ids wrap, a log reaches exactly the subscriptions whose contract, topic and
   range it meets and whose signature decodes it.
   */
  lemma {:induction false} NoticesMeetAsks(decodes: Decoder, window: nat, actions: seq<Action>, e: Event)
    requires Run(decodes, window, START, actions).watches < WATCH_IDS - 1
    ensures var w := Run(decodes, window, START, actions);
            && (forall i :: 0 <= i < |w.subs| ==> w.subs[i].id in w.asks)
            && AllNotices(decodes, w.subs, CallsForLog(w.watched, e)) == AskedNotices(decodes, w.subs, w.asks, e)
  {
    hide Run, Sound, CallsForLog, DirectNotices, AllNotices, AskedNotices, EventFilterFor;
    StartIsSound(window);
    AlwaysAsked(decodes, window, START, actions);
    NoticesAreDirect(decodes, window, actions, e);
    var w := Run(decodes, window, START, actions);
    DirectIsAsked(decodes, w.subs, w.watched, w.asks, e);
  }

  /** One receipt, log by log, in the simple form. */
  ghost function DirectReceipt(decodes: Decoder, ss: seq<Sub>, ws: seq<Watched>, logs: seq<Log>, b: Block): seq<Notice>
    requires |ss| == |ws|
  {
    if logs == [] then []
    else
      var k := |logs| - 1;
      DirectReceipt(decodes, ss, ws, logs[..k], b) + DirectNotices(decodes, ss, ws, Event(logs[k], b, k))
  }

  /** The receipts of one block in the simple form. */
  ghost function DirectBlock(decodes: Decoder, ss: seq<Sub>, ws: seq<Watched>, rs: seq<seq<Log>>, b: Block): seq<Notice>
    requires |ss| == |ws|
  {
    if rs == [] then []
    else DirectBlock(decodes, ss, ws, rs[..|rs| - 1], b) + DirectReceipt(decodes, ss, ws, rs[|rs| - 1], b)
  }

  lemma {:induction false} ReceiptIsDirect(decodes: Decoder, ss: seq<Sub>, ws: seq<Watched>, logs: seq<Log>, b: Block)
    requires SameIds(ss, ws) && UniqueIds(ss)
    ensures AllNotices(decodes, ss, CallsForReceipt(ws, logs, b)) == DirectReceipt(decodes, ss, ws, logs, b)
  {
    hide CallsForLog, DirectNotices, UniqueIds;
    if logs != [] {
      var k := |logs| - 1;
      var e := Event(logs[k], b, k);
      ReceiptIsDirect(decodes, ss, ws, logs[..k], b);
      AllNoticesConcat(decodes, ss, CallsForReceipt(ws, logs[..k], b), CallsForLog(ws, e));
      assert ss[..|ss|] == ss && ws[..|ws|] == ws;
      TablesActAsOne(decodes, ss, ws, e, |ss|);
    }
  }

  lemma {:induction false} BlockIsDirect(decodes: Decoder, w: World, receipts: seq<seq<Log>>, b: Block)
    requires SameIds(w.subs, w.watched) && UniqueIds(w.subs)
    ensures BlockNotices(decodes, w, receipts, b) == DirectBlock(decodes, w.subs, w.watched, receipts, b)
  {
    hide CallsForReceipt, DirectReceipt, UniqueIds, AllNotices;
    if receipts != [] {
      BlockIsDirect(decodes, w, receipts[..|receipts| - 1], b);
      ReceiptIsDirect(decodes, w.subs, w.watched, receipts[|receipts| - 1], b);
    }
  }

  /** A reply to an outstanding request carries the block that was asked for; the next reply with that id does not. */
  lemma {:induction false} ReplyNamesItsBlock(
    decodes: Decoder, window: nat, actions: seq<Action>, id: nat, lists: seq<seq<seq<Log>>>)
    requires var w := Run(decodes, window, START, actions); id in w.pending && |w.sent| < REQUEST_IDS && lists != []
    ensures var w := Run(decodes, window, START, actions);
            var v := ReceiptsStep(decodes, w, Some(id), lists);
            && 1 <= id <= |w.sent| && w.sent[id - 1] == Request(id, BlockOf(w, Some(id)))
            && id !in v.pending && BlockOf(v, Some(id)) == UNKNOWN
            && v.answered == w.answered + [w.sent[id - 1]]
  {
    hide Run, LockStep, Apart, Tracked, FarApart, BlockNotices, LaterNotices;
    StartIsSound(window);
    AlwaysSound(decodes, window, START, actions);
    NextId(id - 1);
  }

  lemma {:induction false} ApartIsUnique(w: World)
    requires Apart(w) && w.watches < WATCH_IDS - 1
    ensures UniqueIds(w.subs)
  {}

  /** Later lists of a reply belong to no request. */
  ghost function DirectLater(decodes: Decoder, ss: seq<Sub>, ws: seq<Watched>, lists: seq<seq<seq<Log>>>): seq<Notice>
    requires |ss| == |ws|
  {
    if lists == [] then []
    else
      DirectLater(decodes, ss, ws, lists[..|lists| - 1]) + DirectBlock(decodes, ss, ws, lists[|lists| - 1], UNKNOWN)
  }

  lemma {:induction false} LaterIsDirect(decodes: Decoder, w: World, lists: seq<seq<seq<Log>>>)
    requires SameIds(w.subs, w.watched) && UniqueIds(w.subs)
    ensures LaterNotices(decodes, w, lists) == DirectLater(decodes, w.subs, w.watched, lists)
  {
    hide BlockNotices, DirectBlock, UniqueIds;
    if lists != [] {
      LaterIsDirect(decodes, w, lists[..|lists| - 1]);
      BlockIsDirect(decodes, w, lists[|lists| - 1], UNKNOWN);
    }
  }

  /**
   A reply notifies exactly the subscriptions its logs match, in order: those of its first list under the block that
   was asked for, if its id is outstanding, and all others under the zero block.
   */
  lemma {:induction false} ReplyNotifiesForItsBlock(
    decodes: Decoder, window: nat, actions: seq<Action>, id: Option<nat>, lists: seq<seq<seq<Log>>>)
    requires lists != [] && |Run(decodes, window, START, actions).sent| < REQUEST_IDS
    requires Run(decodes, window, START, actions).watches < WATCH_IDS - 1
    ensures var w := Run(decodes, window, START, actions);
            var asked := id.Some? && id.value in w.pending;
            && (asked ==> 1 <= id.value <= |w.sent|) && |w.subs| == |w.watched|
            && var block := if asked then w.sent[id.value - 1].block else UNKNOWN;
               ReceiptsStep(decodes, w, id, lists).notices ==
               w.notices + DirectBlock(decodes, w.subs, w.watched, lists[0], block)
               + DirectLater(decodes, w.subs, w.watched, lists[1..])
  {
    hide Run, Apart, Numbered, Settled, Tracked, UniqueIds, BlockNotices, LaterNotices, DirectBlock, DirectLater;
    StartIsSound(window);
    AlwaysSound(decodes, window, START, actions);
    var w := Run(decodes, window, START, actions);
    if id.Some? && id.value in w.pending { ReplyNamesItsBlock(decodes, window, actions, id.value, lists); }
    ApartIsUnique(w);
    BlockIsDirect(decodes, w, lists[0], BlockOf(w, id));
    LaterIsDirect(decodes, w, lists[1..]);
  }

  /** A second request for one block is sent only after at least a window of other blocks. */
  lemma {:induction false} RepeatRequestsFarApart(decodes: Decoder, window: nat, actions: seq<Action>, i: nat, j: nat)
    requires var w := Run(decodes, window, START, actions);
             i < j < |w.sent| && w.sent[i].block.hash == w.sent[j].block.hash
    ensures j - i - 1 >= window
  {
    hide Run, LockStep, Apart, Tracked, Settled;
    StartIsSound(window);
    AlwaysSound(decodes, window, START, actions);
  }

  // ---------------------------------------------------------------------------------------------
  // New blocks, which all look alike
  // ---------------------------------------------------------------------------------------------

  lemma {:induction false} SentGrows(decodes: Decoder, window: nat, w: World, actions: seq<Action>)
    ensures w.sent <= Run(decodes, window, w, actions).sent
    decreases |actions|
  {
    hide BlockNotices, LaterNotices, Window;
    if actions != [] { SentGrows(decodes, window, Step(decodes, window, w, actions[0]), actions[1..]); }
  }

  /** A hash is in the window exactly when one of the last requests was for it. */
  lemma {:induction false} WindowIsLastRequests(w: World, window: nat, h: Hash)
    requires Numbered(w, window)
    ensures h in Window(w.accepted, window) <==>
              exists i :: 0 <= i < |w.sent| && |w.sent| - window <= i && w.sent[i].block.hash == h
  {
    hide FarApart;
    var hs, win := HashesOf(w.accepted), Window(w.accepted, window);
    var off := |hs| - |win|;
    assert forall i :: off <= i < |hs| ==> hs[i] == win[i - off];
    if h in win {
      var j :| 0 <= j < |win| && win[j] == h;
      assert hs[off + j] == h && w.sent[off + j].block.hash == h;
    }
  }

  /** A NewBlock message is dropped, whatever its number, exactly if one of the last requests was for the zero hash. */
  lemma {:induction false} NewBlockDroppedIff(decodes: Decoder, window: nat, actions: seq<Action>, number: nat)
    ensures var w := Run(decodes, window, START, actions);
            Step(decodes, window, w, NewBlock(number, true)) == w <==>
              exists i :: 0 <= i < |w.sent| && |w.sent| - window <= i && w.sent[i].block.hash == ZERO_HASH
  {
    hide Run, LockStep, Apart, Tracked, Settled, FarApart, Window;
    StartIsSound(window);
    AlwaysSound(decodes, window, START, actions);
    var w := Run(decodes, window, START, actions);
    WindowIsLastRequests(w, window, ZERO_HASH);
    assert |w.sent + [Request(w.nextRequest, NewBlockOf(number))]| == |w.sent| + 1;
  }

  lemma {:induction false} RunConcat(decodes: Decoder, window: nat, w: World, a: seq<Action>, b: seq<Action>)
    ensures Run(decodes, window, w, a + b) == Run(decodes, window, Run(decodes, window, w, a), b)
    decreases |a|
  {
    hide Step;
    if a == [] {
      assert a + b == b;
    } else {
      assert (a + b)[1..] == a[1..] + b;
      RunConcat(decodes, window, Step(decodes, window, w, a[0]), a[1..], b);
    }
  }

  lemma RunOne(decodes: Decoder, window: nat, w: World, a: Action)
    ensures Run(decodes, window, w, [a]) == Step(decodes, window, w, a)
  {
    hide Step;
    assert [a][1..] == [];
    assert Run(decodes, window, Step(decodes, window, w, a), []) == Step(decodes, window, w, a);
  }

  /** Once a NewBlock message led to a request, all that follow are dropped until `window` more requests were sent. */
  lemma {:induction false} NewBlockHidesLater(
    decodes: Decoder, window: nat, first: seq<Action>, between: seq<Action>, one: nat, other: nat)
    requires var w := Run(decodes, window, START, first);
             var v := Run(decodes, window, START, first + [NewBlock(one, true)] + between);
             Step(decodes, window, w, NewBlock(one, true)) != w && |v.sent| <= |w.sent| + window
    ensures var v := Run(decodes, window, START, first + [NewBlock(one, true)] + between);
            Step(decodes, window, v, NewBlock(other, true)) == v
  {
    hide Run, Window;
    var w := Run(decodes, window, START, first);
    var a := NewBlock(one, true);
    var u := Step(decodes, window, w, a);
    RunConcat(decodes, window, START, first, [a]);
    RunConcat(decodes, window, START, first + [a], between);
    RunOne(decodes, window, w, a);
    SentGrows(decodes, window, u, between);
    var v := Run(decodes, window, START, first + [a] + between);
    var k := |w.sent|;
    assert v.sent[k] == u.sent[k] && v.sent[k].block.hash == ZERO_HASH;
    NewBlockDroppedIff(decodes, window, first + [a] + between, other);
  }
}
