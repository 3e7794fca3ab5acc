/** What happens when a node is asked for two different ids at one endpoint. */
module Discv5TwoIds {
  import opened Bytes
  import opened RlpxCrypto
  import opened Discv5Packets
  import opened Discv5Node
  import opened Discv5Agreement
  import opened Discv5Exchange
  import opened Discv5Runs

  /** The request for the first peer, as it stands after the challenge. */
  function Challenged(first: Peer, nonce: nonce12, iv: block, idNonce: block): Pending {
    Pending(first, RequestId(first), nonce, Some(HeaderOf(iv, FLAG_WHOAREYOU, nonce, ChallengeAuth(idNonce))), 0)
  }

  /** Asked for one peer, challenged from its endpoint, then asked for another peer there. */
  function TwoRequests(
    c: Suite, me: Identity, first: Peer, second: Peer, r1: Random, r2: Random, iv: block, idNonce: block)
    : seq<(nat, Event)>
  {
    var whoareyou := EncodePacket(
      c.mask, iv, FLAG_WHOAREYOU, r1.nonce, ChallengeAuth(idNonce), [], c.address(me.id));
    [(0, Find(first, r1)), (0, Deliver(whoareyou, first.at)), (0, Find(second, r2))]
  }

  lemma {:induction false} RunOfThree(c: Suite, me: Identity, sys: System, events: seq<(nat, Event)>)
    requires |events| == 3 && |sys.nodes| == 1 && InRange([me], events)
    ensures var sys1 := Step(c, [me], sys, events[0].0, events[0].1);
            var sys2 := Step(c, [me], sys1, events[1].0, events[1].1);
            Run(c, [me], sys, events) == Step(c, [me], sys2, events[2].0, events[2].1)
  {
    hide Step;
    StepKeepsSize(c, [me], sys, events[0].0, events[0].1);
    var sys1 := Step(c, [me], sys, events[0].0, events[0].1);
    StepKeepsSize(c, [me], sys1, events[1].0, events[1].1);
    var sys2 := Step(c, [me], sys1, events[1].0, events[1].1);
    StepKeepsSize(c, [me], sys2, events[2].0, events[2].1);
    var two, one := events[1..], events[2..];
    assert two[1..] == one && one[1..] == [];
    assert Run(c, [me], sys, events) == Run(c, [me], sys1, two) == Run(c, [me], sys2, one);
  }

  lemma {:induction false} DifferentIds(events: seq<(nat, Event)>)
    requires |events| == 3 && events[0].0 == events[2].0 && events[0].1.Find? && events[2].1.Find?
    requires events[0].1.peer.at == events[2].1.peer.at && events[0].1.peer.id != events[2].1.peer.id
    ensures !OneIdPerEndpoint(events)
  {
    var n, at := events[0].0, events[0].1.peer.at;
    assert FindsAt(events[0], n, at) && FindsAt(events[2], n, at);
  }

  /** A challenge is never taken for a handshake. */
  lemma {:induction false} NotAHandshake(
    c: Suite, me: Identity, s: State, iv: block, nonce: nonce12, auth: bytes, from: Endpoint)
    requires |auth| < 0x1_0000
    ensures !Accepts(c, me, s, EncodePacket(c.mask, iv, FLAG_WHOAREYOU, nonce, auth, [], c.address(me.id)), from)
  {
    hide DecodePacket, EncodePacket, HeaderOf, Proposal;
    DecodeInvertsEncode(c.mask, iv, FLAG_WHOAREYOU, nonce, auth, [], c.address(me.id));
  }

  /**
   The handshake of this run is addressed to the second peer with the id and the keys of the first, and the session
   installed with it mirrors no session of the second peer.
   */
  lemma {:induction false} HandshakeMixesPeers(
    c: Suite, me: Identity, first: Peer, second: Peer, r1: Random, r2: Random, iv: block, idNonce: block)
    requires first.at == second.at && first.id != second.id
    requires BuildHandshake(c, me, Challenged(first, r1.nonce, iv, idNonce), c.address(second.id), r2).Ok?
    ensures var events := TwoRequests(c, me, first, second, r1, r2, iv, idNonce);
            && !OneIdPerEndpoint(events)
            && var sys := Run(c, [me], Start([me]), events);
               && |sys.built| == 1 && second.at in sys.nodes[0].state.sessions
               && var session := sys.nodes[0].state.sessions[second.at];
                  && session == sys.built[0].handshake.session
                  && session.remoteAddr == c.address(second.id) && session.remoteId == first.id
                  && forall b: Identity, t: Session :: b.id == second.id ==> !Mirror(c, me, session, b, t)
  {
    hide Handle, BuildHandshake, HeaderOf, EncodePacket, OneIdPerEndpoint;
    var events := TwoRequests(c, me, first, second, r1, r2, iv, idNonce);
    DifferentIds(events);
    var start := Start([me]);
    var s1 := FindNode(c, me, start.nodes[0].state, first, r1).0;
    ChallengeIsHeard(c, me, s1, s1, first.at, first.at, r1.nonce, iv, idNonce);
    NotAHandshake(c, me, s1, iv, r1.nonce, ChallengeAuth(idNonce), first.at);
    var sys1 := Step(c, [me], start, 0, events[0].1);
    var sys2 := Step(c, [me], sys1, 0, events[1].1);
    assert sys2.nodes[0].state.pending[first.at] == Challenged(first, r1.nonce, iv, idNonce);
    AnswerIsGenuine(c, [me], 0, sys2.nodes[0].state, second, r2);
    var sys3 := Step(c, [me], sys2, 0, events[2].1);
    RunOfThree(c, me, start, events);
  }
}
