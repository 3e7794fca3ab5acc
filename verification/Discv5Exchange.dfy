/** The exchange from a first request to a session at both ends. */
module Discv5Exchange {
  import opened Bytes
  import opened RlpxCrypto
  import opened Discv5Packets
  import opened Discv5Node
  import opened Discv5Agreement

  /** Own signatures verify, and what was sealed opens. */
  ghost predicate Correct(c: Suite) {
    && Opens(c)
    && forall secret, input ::
         c.sign(secret, input).Some? ==> c.verify(c.publicOf(secret), c.sign(secret, input).value, input)
  }

  /** A's record names A. */
  predicate Published(c: Suite, a: Identity) {
    a.record.Some? && a.record.value != [] && c.recordNode(a.record.value) == Some(a.id)
  }

  lemma {:induction false} AnsweredIsProposed(
    c: Suite, a: Identity, p: Pending, rnd: Random, h: Handshake, auth: HandshakeAuth, b: Identity,
    challenge: Challenge)
    requires Lawful(c) && Correct(c) && Owns(c, a) && Owns(c, b) && Published(c, a)
    requires p.challenge.Some? && p.recordSeq < INITIAL_SEQ && p.peer.id == b.id
    requires Carries(c, a, p, c.address(b.id), rnd, h, auth) && |auth.signature| == SIGNATURE
             && |auth.ephemeral| == COMPRESSED_KEY
    requires challenge == Discv5Node.Challenge(c.address(a.id), p.challenge.value)
    ensures ProposedSession(c, b, challenge, auth).Some?
  {
    hide IdInput, SessionKeys;
    assert c.sign(a.secret, IdInput(p.challenge.value, auth.ephemeral, c.address(b.id))).Some?;
    assert c.sharedPlain(c.publicOf(b.secret), rnd.ephemeral).Some?;
  }

  /** A handshake is accepted by the node it was built for when that node still holds the challenge it answers. */
  lemma {:induction false} AnsweredIsAccepted(
    c: Suite, a: Identity, p: Pending, rnd: Random, b: Identity, s: State, from: Endpoint)
    requires Lawful(c) && Correct(c) && Owns(c, a) && Owns(c, b) && Published(c, a) && SmallRecord(a)
    requires p.challenge.Some? && p.recordSeq < INITIAL_SEQ && p.peer.id == b.id
    requires BuildHandshake(c, a, p, c.address(b.id), rnd).Ok?
    requires from in s.challenges && s.challenges[from] == Discv5Node.Challenge(c.address(a.id), p.challenge.value)
    ensures Accepts(c, b, s, BuildHandshake(c, a, p, c.address(b.id), rnd).value.packet, from)
  {
    hide BuildHandshake, ProposedSession, DecodePacket, EncodePacket, HandshakeAuthData, ParseHandshakeAuth, Lawful,
        SessionKeys;
    var h := BuildHandshake(c, a, p, c.address(b.id), rnd).value;
    LawsOf(c);
    var auth, text, sealed := BuiltCarries(c, a, p, c.address(b.id), rnd);
    HandshakeReads(c, rnd, auth, sealed, c.address(b.id));
    AnsweredIsProposed(c, a, p, rnd, h, auth, b, s.challenges[from]);
    ProposalMirrors(c, a, p, rnd, h, auth, b, s.challenges[from]);
  }

  /** The random choices of the three packets. */
  datatype Choices = Choices(request: Random, iv: block, idNonce: block, answer: Random)

  /** The first request is met with the intent to challenge its sender. */
  lemma {:induction false} RequestIsChallenged(
    c: Suite, a: Identity, sa: State, b: Identity, sb: State, peer: Peer, fromA: Endpoint, rnd: Random)
    requires peer.id == b.id && peer.at !in sa.sessions && peer.at !in sa.pending && fromA !in sb.sessions
    ensures var (ta, sent) := FindNode(c, a, sa, peer, rnd);
            && sent.Ok?
            && ta == sa.(pending := sa.pending[peer.at := Pending(peer, RequestId(peer), rnd.nonce, None, 0)])
            && Handle(c, b, sb, sent.value, fromA) == (sb, Some(SendChallenge(fromA, c.address(a.id), rnd.nonce)))
  {
    hide DecodePacket, EncodePacket, HeaderOf;
    DecodeInvertsEncode(c.mask, rnd.iv, FLAG_MESSAGE, rnd.nonce, c.address(a.id), rnd.filler, c.address(b.id));
  }

  lemma {:induction false} ZerosAreZero(s: bytes)
    requires forall i :: 0 <= i < |s| ==> s[i] == 0
    ensures FromBig(s) == 0
  {
    if s != [] { ZerosAreZero(s[..|s| - 1]); }
  }

  lemma {:induction false} EightZeros()
    ensures FromBig([0, 0, 0, 0, 0, 0, 0, 0]) == 0
  {
    ZerosAreZero([0, 0, 0, 0, 0, 0, 0, 0]);
  }

  /** The challenge reaches the pending request it was issued for, with the very bytes the challenger keeps. */
  lemma {:induction false} ChallengeIsHeard(
    c: Suite, a: Identity, sa: State, sb: State, at: Endpoint, fromA: Endpoint, nonce: nonce12, iv: block,
    idNonce: block)
    requires at in sa.pending && sa.pending[at].nonce == nonce
    ensures var (tb, packet) := SendWhoareyou(c, sb, fromA, c.address(a.id), nonce, iv, idNonce);
            var kept := tb.challenges[fromA];
            var heard := sa.pending[at].(challenge := Some(kept.data), recordSeq := 0);
            && kept.remoteAddr == c.address(a.id)
            && Handle(c, a, sa, packet, at)
               == (sa.(pending := sa.pending[at := heard], whoareyouPackets := sa.whoareyouPackets + 1),
                   Some(AnswerChallenge(heard.peer)))
  {
    hide DecodePacket, EncodePacket, HeaderOf;
    var auth := ChallengeAuth(idNonce);
    assert auth[ID_NONCE..] == [0, 0, 0, 0, 0, 0, 0, 0];
    EightZeros();
    DecodeInvertsEncode(c.mask, iv, FLAG_WHOAREYOU, nonce, auth, [], c.address(a.id));
  }

  /**
   A request, the challenge it meets and the answer to it, undisturbed: the answer is accepted and the two
   sessions mirror each other.
   */
  lemma {:induction false} ExchangeCompletes(
    c: Suite, a: Identity, sa: State, b: Identity, sb: State, peer: Peer, fromA: Endpoint, ch: Choices)
    requires Lawful(c) && Correct(c) && Owns(c, a) && Owns(c, b) && Published(c, a) && SmallRecord(a)
    requires peer.id == b.id && peer.at !in sa.sessions && peer.at !in sa.pending && fromA !in sb.sessions
    ensures var sa1 := FindNode(c, a, sa, peer, ch.request).0;
            var (sb1, whoareyou) := SendWhoareyou(c, sb, fromA, c.address(a.id), ch.request.nonce, ch.iv, ch.idNonce);
            var sa2 := Handle(c, a, sa1, whoareyou, peer.at).0;
            var (sa3, answer) := FindNode(c, a, sa2, peer, ch.answer);
            answer.Ok? ==>
              var sb2 := Handle(c, b, sb1, answer.value, fromA).0;
              && Accepts(c, b, sb1, answer.value, fromA)
              && peer.at in sa3.sessions && fromA in sb2.sessions
              && Mirror(c, a, sa3.sessions[peer.at], b, sb2.sessions[fromA])
  {
    hide Handle, Accepts, BuildHandshake, Mirror, Lawful, Correct, HeaderOf, EncodePacket;
    RequestIsChallenged(c, a, sa, b, sb, peer, fromA, ch.request);
    var sa1 := FindNode(c, a, sa, peer, ch.request).0;
    var (sb1, whoareyou) := SendWhoareyou(c, sb, fromA, c.address(a.id), ch.request.nonce, ch.iv, ch.idNonce);
    ChallengeIsHeard(c, a, sa1, sb, peer.at, fromA, ch.request.nonce, ch.iv, ch.idNonce);
    var sa2 := Handle(c, a, sa1, whoareyou, peer.at).0;
    var p := sa2.pending[peer.at];
    var (sa3, answer) := FindNode(c, a, sa2, peer, ch.answer);
    if answer.Ok? {
      AnsweredIsAccepted(c, a, p, ch.answer, b, sb1, fromA);
      AcceptedMirrors(c, a, p, ch.answer, b, sb1, fromA);
      AcceptsExactly(c, b, sb1, answer.value, fromA);
    }
  }
}
