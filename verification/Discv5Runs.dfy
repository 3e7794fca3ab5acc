/** Many nodes and a network that drops, repeats, reorders and forges, over whole runs. */
module Discv5Runs {
  import opened Bytes
  import opened RlpxCrypto
  import opened Discv5Packets
  import opened Discv5Node
  import opened Discv5Agreement

  /** A node, with a number for every challenge it issued: those still open, and those a handshake consumed. */
  datatype Node = Node(state: State, issued: nat, unanswered: map<Endpoint, nat>, accepted: seq<nat>)

  /** A handshake some node built when asked for `peer`, and the pending request it was built from. */
  datatype Built = Built(builder: nat, peer: Peer, pending: Pending, rnd: Random, handshake: Handshake)

  datatype System = System(nodes: seq<Node>, built: seq<Built>)

  /** Any bytes may reach any node from any endpoint at any time, so the network needs no state of its own. */
  datatype Event =
    | Deliver(data: bytes, from: Endpoint)
    | Find(peer: Peer, rnd: Random)
    | Challenge(to: Endpoint, addr: digest, nonce: nonce12, iv: block, idNonce: block)

  function Receive(c: Suite, me: Identity, n: Node, data: bytes, from: Endpoint): Node {
    var t := Handle(c, me, n.state, data, from).0;
    if Accepts(c, me, n.state, data, from) && from in n.unanswered then
      n.(state := t, unanswered := n.unanswered - {from}, accepted := n.accepted + [n.unanswered[from]])
    else n.(state := t)
  }

  function Issue(c: Suite, n: Node, e: Event): Node
    requires e.Challenge?
  {
    Node(SendWhoareyou(c, n.state, e.to, e.addr, e.nonce, e.iv, e.idNonce).0, n.issued + 1,
        n.unanswered[e.to := n.issued], n.accepted)
  }

  /** What `send_findnode` builds when it answers a challenge. */
  function Answer(c: Suite, me: Identity, builder: nat, s: State, peer: Peer, rnd: Random): Option<Built> {
    if peer.at in s.sessions || peer.at !in s.pending || s.pending[peer.at].challenge.None? then None
    else
      match BuildHandshake(c, me, s.pending[peer.at], c.address(peer.id), rnd)
      case Err(_) => None
      case Ok(h) => Some(Built(builder, peer, s.pending[peer.at], rnd, h))
  }

  function StepNode(c: Suite, me: Identity, n: Node, e: Event): Node {
    match e
    case Deliver(data, from) => Receive(c, me, n, data, from)
    case Find(peer, rnd) => n.(state := FindNode(c, me, n.state, peer, rnd).0)
    case Challenge(_, _, _, _, _) => Issue(c, n, e)
  }

  function Step(c: Suite, ids: seq<Identity>, sys: System, at: nat, e: Event): System
    requires |sys.nodes| == |ids| && at < |ids|
  {
    var n := sys.nodes[at];
    var built := if e.Find? then Answer(c, ids[at], at, n.state, e.peer, e.rnd) else None;
    System(sys.nodes[at := StepNode(c, ids[at], n, e)], if built.Some? then sys.built + [built.value] else sys.built)
  }

  predicate InRange(ids: seq<Identity>, events: seq<(nat, Event)>) {
    forall i :: 0 <= i < |events| ==> events[i].0 < |ids|
  }

  function Run(c: Suite, ids: seq<Identity>, sys: System, events: seq<(nat, Event)>): (end: System)
    requires |sys.nodes| == |ids| && InRange(ids, events)
    ensures |end.nodes| == |ids|
    decreases |events|
  {
    if events == [] then sys else Run(c, ids, Step(c, ids, sys, events[0].0, events[0].1), events[1..])
  }

  const FRESH: Node := Node(State(map[], map[], map[], 0, 0, 0), 0, map[], [])

  function Start(ids: seq<Identity>): System {
    System(seq(|ids|, i => FRESH), [])
  }

  // ---------------------------------------------------------------------------------------------
  // Challenges are consumed at most once
  // ---------------------------------------------------------------------------------------------

  ghost predicate Distinct(xs: seq<nat>) {
    forall i, j :: 0 <= i < j < |xs| ==> xs[i] != xs[j]
  }

  /** Open challenges are the unanswered ones, under different numbers, none of which was consumed before. */
  ghost predicate Accounted(n: Node) {
    && n.unanswered.Keys == n.state.challenges.Keys
    && Distinct(n.accepted) && |n.accepted| == n.state.handshakePackets
    && (forall i :: 0 <= i < |n.accepted| ==> n.accepted[i] < n.issued)
    && (forall e :: e in n.unanswered ==> n.unanswered[e] < n.issued && n.unanswered[e] !in n.accepted)
    && (forall e, f :: e in n.unanswered && f in n.unanswered && e != f ==> n.unanswered[e] != n.unanswered[f])
  }

  lemma {:induction false} ReceiveKeepsAccount(c: Suite, me: Identity, n: Node, data: bytes, from: Endpoint)
    requires Accounted(n)
    ensures Accounted(Receive(c, me, n, data, from))
    ensures Accepts(c, me, n.state, data, from) ==>
            from in n.unanswered && Receive(c, me, n, data, from).accepted == n.accepted + [n.unanswered[from]]
  {
    hide Handle, Accepts;
    AcceptsExactly(c, me, n.state, data, from);
  }

  lemma {:induction false} FindKeepsAccount(c: Suite, me: Identity, n: Node, peer: Peer, rnd: Random)
    requires Accounted(n)
    ensures Accounted(n.(state := FindNode(c, me, n.state, peer, rnd).0))
  {
    hide BuildHandshake, BuildMessage, EncodePacket;
  }

  lemma {:induction false} IssueKeepsAccount(c: Suite, n: Node, e: Event)
    requires Accounted(n) && e.Challenge?
    ensures Accounted(Issue(c, n, e))
  {
    hide HeaderOf, EncodePacket;
  }

  lemma {:induction false} StepKeepsAccount(c: Suite, me: Identity, n: Node, e: Event)
    requires Accounted(n)
    ensures Accounted(StepNode(c, me, n, e))
  {
    hide Accounted;
    match e {
      case Deliver(data, from) => ReceiveKeepsAccount(c, me, n, data, from);
      case Find(peer, rnd) => FindKeepsAccount(c, me, n, peer, rnd);
      case Challenge(_, _, _, _, _) => IssueKeepsAccount(c, n, e);
    }
  }

  // ---------------------------------------------------------------------------------------------
  // Built handshakes are what their builder installed
  // ---------------------------------------------------------------------------------------------

  /** A log entry is a handshake that its builder really built: addressed to the peer asked for, with the keys and
   the id of the pending request. */
  ghost predicate Genuine(c: Suite, ids: seq<Identity>, b: Built) {
    && b.builder < |ids| && b.pending.challenge.Some?
    && BuildHandshake(c, ids[b.builder], b.pending, c.address(b.peer.id), b.rnd) == Ok(b.handshake)
    && b.handshake.session.remoteAddr == c.address(b.peer.id) && b.handshake.session.remoteId == b.pending.peer.id
  }

  lemma {:induction false} AnswerIsGenuine(c: Suite, ids: seq<Identity>, at: nat, s: State, peer: Peer, rnd: Random)
    requires at < |ids| && Answer(c, ids[at], at, s, peer, rnd).Some?
    ensures var b := Answer(c, ids[at], at, s, peer, rnd).value;
            var t := FindNode(c, ids[at], s, peer, rnd);
            && Genuine(c, ids, b) && b.peer == peer
            && t.1 == Ok(b.handshake.packet) && peer.at in t.0.sessions && t.0.sessions[peer.at] == b.handshake.session
  {
    hide HandshakeAuthData, EncodePacket, SessionKeys, IdInput, HeaderOf;
  }

  /** What holds in every reachable state. */
  ghost predicate Sound(c: Suite, ids: seq<Identity>, sys: System) {
    && |sys.nodes| == |ids|
    && (forall i :: 0 <= i < |sys.nodes| ==> Accounted(sys.nodes[i]))
    && (forall i :: 0 <= i < |sys.built| ==> Genuine(c, ids, sys.built[i]))
  }

  lemma {:induction false} StepKeepsSound(c: Suite, ids: seq<Identity>, sys: System, at: nat, e: Event)
    requires Sound(c, ids, sys) && at < |ids|
    ensures Sound(c, ids, Step(c, ids, sys, at, e))
  {
    hide Accounted, Genuine, StepNode, Answer;
    StepKeepsAccount(c, ids[at], sys.nodes[at], e);
    if e.Find? && Answer(c, ids[at], at, sys.nodes[at].state, e.peer, e.rnd).Some? {
      AnswerIsGenuine(c, ids, at, sys.nodes[at].state, e.peer, e.rnd);
    }
  }

  lemma SoundSize(c: Suite, ids: seq<Identity>, sys: System)
    requires Sound(c, ids, sys)
    ensures |sys.nodes| == |ids|
  {}

  lemma {:induction false} RunKeepsSound(c: Suite, ids: seq<Identity>, sys: System, events: seq<(nat, Event)>)
    requires Sound(c, ids, sys) && InRange(ids, events)
    ensures Sound(c, ids, Run(c, ids, sys, events))
    decreases |events|
  {
    hide Sound, Step;
    SoundSize(c, ids, sys);
    if events != [] {
      StepKeepsSound(c, ids, sys, events[0].0, events[0].1);
      SoundSize(c, ids, Step(c, ids, sys, events[0].0, events[0].1));
      RunKeepsSound(c, ids, Step(c, ids, sys, events[0].0, events[0].1), events[1..]);
    }
  }

  /** In every run, each WHOAREYOU is used up by at most one accepted handshake. */
  lemma {:induction false} EachChallengeOnce(c: Suite, ids: seq<Identity>, events: seq<(nat, Event)>, at: nat)
    requires at < |ids| && InRange(ids, events)
    ensures var n := Run(c, ids, Start(ids), events).nodes[at];
            && Distinct(n.accepted) && |n.accepted| == n.state.handshakePackets
            && (forall i :: 0 <= i < |n.accepted| ==> n.accepted[i] < n.issued)
  {
    RunKeepsSound(c, ids, Start(ids), events);
  }

  // ---------------------------------------------------------------------------------------------
  // Key agreement
  // ---------------------------------------------------------------------------------------------

  /** After these events, node `at` accepts from `from` the k-th handshake built, which was addressed to it. */
  ghost predicate AcceptedAfter(
    c: Suite, ids: seq<Identity>, events: seq<(nat, Event)>, at: nat, k: nat, from: Endpoint)
    requires InRange(ids, events)
  {
    var sys := Run(c, ids, Start(ids), events);
    && at < |ids| && k < |sys.built| && sys.built[k].peer.id == ids[at].id
    && Accepts(c, ids[at], sys.nodes[at].state, sys.built[k].handshake.packet, from)
  }

  /**
   At the end of any run, a node that accepts a handshake addressed to it uses up the challenge that was answered,
   and its session mirrors the builder's exactly when the builder's pending request was for this node.
   */
  lemma {:induction false} KeyAgreementIff(
    c: Suite, ids: seq<Identity>, events: seq<(nat, Event)>, at: nat, k: nat, from: Endpoint)
    requires Lawful(c) && InRange(ids, events) && AcceptedAfter(c, ids, events, at, k, from)
    requires Owns(c, ids[at]) && forall i :: 0 <= i < |ids| ==> SmallRecord(ids[i])
    ensures var sys := Run(c, ids, Start(ids), events);
            var b := sys.built[k];
            var t := Step(c, ids, sys, at, Deliver(b.handshake.packet, from)).nodes[at].state;
            && from in t.sessions && b.builder < |ids|
            && from in sys.nodes[at].state.challenges
            && Some(sys.nodes[at].state.challenges[from].data) == b.pending.challenge
            && t.sessions[from].remoteAddr == c.address(ids[b.builder].id)
            && (Mirror(c, ids[b.builder], b.handshake.session, ids[at], t.sessions[from])
                <==> b.pending.peer.id == ids[at].id)
  {
    hide Run, Handle, Accepts, BuildHandshake, Mirror, Lawful;
    RunKeepsSound(c, ids, Start(ids), events);
    var sys := Run(c, ids, Start(ids), events);
    var b := sys.built[k];
    AcceptsExactly(c, ids[at], sys.nodes[at].state, b.handshake.packet, from);
    AcceptedMirrors(c, ids[b.builder], b.pending, b.rnd, ids[at], sys.nodes[at].state, from);
  }

  /** Whatever the pending request was: the accepting node reads with the key the builder writes with. */
  lemma {:induction false} AcceptedReadsInRuns(
    c: Suite, ids: seq<Identity>, events: seq<(nat, Event)>, at: nat, k: nat, from: Endpoint)
    requires FixedSizes(c) && SealBinds(c) && InRange(ids, events) && AcceptedAfter(c, ids, events, at, k, from)
    requires forall i :: 0 <= i < |ids| ==> SmallRecord(ids[i])
    ensures var sys := Run(c, ids, Start(ids), events);
            var b := sys.built[k];
            var t := Step(c, ids, sys, at, Deliver(b.handshake.packet, from)).nodes[at].state;
            from in t.sessions && b.handshake.session.writeKey == t.sessions[from].readKey
  {
    hide Run, Handle, Accepts, BuildHandshake, SealBinds;
    RunKeepsSound(c, ids, Start(ids), events);
    var sys := Run(c, ids, Start(ids), events);
    var b := sys.built[k];
    AcceptsExactly(c, ids[at], sys.nodes[at].state, b.handshake.packet, from);
    AcceptedReads(c, ids[b.builder], b.pending, b.rnd, ids[at], sys.nodes[at].state, from);
  }

  // ---------------------------------------------------------------------------------------------
  // What a caller can see to: one id per endpoint
  // ---------------------------------------------------------------------------------------------

  ghost predicate FindsAt(e: (nat, Event), n: nat, at: Endpoint) {
    e.0 == n && e.1.Find? && e.1.peer.at == at
  }

  /** No node is asked for two different ids at one endpoint. */
  ghost predicate OneIdPerEndpoint(events: seq<(nat, Event)>) {
    forall i, j, n, at ::
      0 <= i < |events| && 0 <= j < |events| && FindsAt(events[i], n, at) && FindsAt(events[j], n, at)
      ==> events[i].1.peer.id == events[j].1.peer.id
  }

  type Directory = (nat, Endpoint) -> NodeId

  /** Every request agrees with a directory of who is where. */
  ghost predicate Follows(events: seq<(nat, Event)>, who: Directory) {
    forall i :: 0 <= i < |events| && events[i].1.Find? ==> events[i].1.peer.id == who(events[i].0, events[i].1.peer.at)
  }

  ghost function IdAt(events: seq<(nat, Event)>, n: nat, at: Endpoint): NodeId {
    if exists i :: 0 <= i < |events| && FindsAt(events[i], n, at) then
      var i :| 0 <= i < |events| && FindsAt(events[i], n, at);
      events[i].1.peer.id
    else []
  }

  lemma {:induction false} DirectoryExists(events: seq<(nat, Event)>) returns (who: Directory)
    requires OneIdPerEndpoint(events)
    ensures Follows(events, who)
  {
    who := (n, at) => IdAt(events, n, at);
    forall i | 0 <= i < |events| && events[i].1.Find?
      ensures events[i].1.peer.id == who(events[i].0, events[i].1.peer.at)
    {
      assert FindsAt(events[i], events[i].0, events[i].1.peer.at);
    }
  }

  /** Pending requests are for whom the directory names, so handshakes are built from requests for their addressee. */
  ghost predicate Consistent(sys: System, who: Directory) {
    && (forall n, at :: 0 <= n < |sys.nodes| && at in sys.nodes[n].state.pending
          ==> sys.nodes[n].state.pending[at].peer.id == who(n, at))
    && (forall k :: 0 <= k < |sys.built| ==> sys.built[k].pending.peer.id == sys.built[k].peer.id)
  }

  lemma {:induction false} PendingKeepsPeer(c: Suite, me: Identity, s: State, data: bytes, from: Endpoint)
    ensures var t := Handle(c, me, s, data, from).0;
            forall at :: at in t.pending ==> at in s.pending && t.pending[at].peer == s.pending[at].peer
  {
    hide DecodePacket, Proposal, FindnodeTask;
  }

  lemma {:induction false} FindKeepsPeers(c: Suite, me: Identity, s: State, peer: Peer, rnd: Random)
    ensures var t := FindNode(c, me, s, peer, rnd).0;
            forall at :: at in t.pending ==>
              (at == peer.at && t.pending[at].peer == peer)
                  || (at in s.pending && t.pending[at].peer == s.pending[at].peer)
  {
    hide BuildHandshake, BuildMessage, EncodePacket;
  }

  lemma {:induction false} StepKeepsConsistent(
    c: Suite, ids: seq<Identity>, sys: System, at: nat, e: Event, who: Directory)
    requires Consistent(sys, who) && |sys.nodes| == |ids| && at < |ids|
    requires e.Find? ==> e.peer.id == who(at, e.peer.at)
    ensures Consistent(Step(c, ids, sys, at, e), who)
  {
    hide Handle, FindNode, Accepts, BuildHandshake, HeaderOf, EncodePacket;
    var s := sys.nodes[at].state;
    match e {
      case Deliver(data, from) => PendingKeepsPeer(c, ids[at], s, data, from);
      case Find(peer, rnd) => FindKeepsPeers(c, ids[at], s, peer, rnd);
      case Challenge(_, _, _, _, _) =>
    }
  }

  lemma StepKeepsSize(c: Suite, ids: seq<Identity>, sys: System, at: nat, e: Event)
    requires |sys.nodes| == |ids| && at < |ids|
    ensures |Step(c, ids, sys, at, e).nodes| == |ids|
  {}

  lemma {:induction false} RunKeepsConsistent(
    c: Suite, ids: seq<Identity>, sys: System, events: seq<(nat, Event)>, who: Directory)
    requires Consistent(sys, who) && |sys.nodes| == |ids| && InRange(ids, events) && Follows(events, who)
    ensures Consistent(Run(c, ids, sys, events), who)
    decreases |events|
  {
    hide Consistent, Step;
    if events != [] {
      StepKeepsConsistent(c, ids, sys, events[0].0, events[0].1, who);
      StepKeepsSize(c, ids, sys, events[0].0, events[0].1);
      RunKeepsConsistent(c, ids, Step(c, ids, sys, events[0].0, events[0].1), events[1..], who);
    }
  }

  /** With one id per endpoint every handshake is built from a request for the node it is addressed to. */
  lemma {:induction false} BuiltForAddressee(c: Suite, ids: seq<Identity>, events: seq<(nat, Event)>)
    requires InRange(ids, events) && OneIdPerEndpoint(events)
    ensures var sys := Run(c, ids, Start(ids), events);
            forall k :: 0 <= k < |sys.built| ==> sys.built[k].pending.peer.id == sys.built[k].peer.id
  {
    hide Run, OneIdPerEndpoint, Follows;
    var who := DirectoryExists(events);
    RunKeepsConsistent(c, ids, Start(ids), events, who);
  }

  /**
   Key agreement: in every run that asks for one id per endpoint, with drops, repeats, reordering and forgery, a
   node that accepts a handshake addressed to it installs the mirror of the builder's session.
   */
  lemma {:induction false} KeyAgreement(
    c: Suite, ids: seq<Identity>, events: seq<(nat, Event)>, at: nat, k: nat, from: Endpoint)
    requires Lawful(c) && InRange(ids, events) && OneIdPerEndpoint(events) && AcceptedAfter(c, ids, events, at, k, from)
    requires Owns(c, ids[at]) && forall i :: 0 <= i < |ids| ==> SmallRecord(ids[i])
    ensures var sys := Run(c, ids, Start(ids), events);
            var b := sys.built[k];
            var t := Step(c, ids, sys, at, Deliver(b.handshake.packet, from)).nodes[at].state;
            && from in t.sessions && b.builder < |ids|
            && Mirror(c, ids[b.builder], b.handshake.session, ids[at], t.sessions[from])
  {
    hide Run, Step, Accepts, Mirror, Lawful, OneIdPerEndpoint;
    KeyAgreementIff(c, ids, events, at, k, from);
    BuiltForAddressee(c, ids, events);
  }
}
