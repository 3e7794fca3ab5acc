/** Key agreement: what a node installs when it accepts a handshake is the mirror of what its peer installed. */
module Discv5Agreement {
  import opened Bytes
  import opened RlpxCrypto
  import opened Discv5Packets
  import opened Discv5Texts
  import opened Discv5Node

  // What the primitives are relied on for.

  /** A signature verifies for nothing but the input that was signed. */
  ghost predicate SignatureBinds(c: Suite) {
    forall secret, input, node, other ::
      c.sign(secret, input).Some? && c.verify(node, c.sign(secret, input).value, other) ==> other == input
  }

  /** The two ways to a shared secret agree: from a node id and from a compressed ephemeral key. */
  ghost predicate EcdhCommutes(c: Suite) {
    forall secret, ephemeral ::
      var plain := c.sharedPlain(c.publicOf(secret), ephemeral);
      var key := c.compress(c.publicOf(ephemeral));
      plain.Some? && key.Some? ==> c.sharedCompressed(key.value, secret) == plain
  }

  ghost predicate FixedSizes(c: Suite) {
    && (forall id :: c.compress(id).Some? ==> |c.compress(id).value| == COMPRESSED_KEY)
    && (forall secret, input :: c.sign(secret, input).Some? ==> |c.sign(secret, input).value| == SIGNATURE)
  }

  ghost predicate Lawful(c: Suite) {
    SignatureBinds(c) && EcdhCommutes(c) && FixedSizes(c)
  }

  predicate Owns(c: Suite, me: Identity) {
    me.id == c.publicOf(me.secret)
  }

  /** One end writes what the other reads, and each has the other's address. */
  predicate Mirror(c: Suite, a: Identity, atA: Session, b: Identity, atB: Session) {
    && atA.writeKey == atB.readKey && atA.readKey == atB.writeKey
    && atA.remoteAddr == c.address(b.id) && atB.remoteAddr == c.address(a.id)
    && atA.remoteId == b.id && c.address(atB.remoteId) == c.address(a.id)
  }

  /** The parts of a handshake addressed to `remote`, as its destination will see them. */
  ghost predicate Carries(
    c: Suite, me: Identity, p: Pending, remote: digest, rnd: Random, h: Handshake, auth: HandshakeAuth)
    requires p.challenge.Some?
  {
    var local := c.address(me.id);
    var signed := c.sign(me.secret, IdInput(p.challenge.value, auth.ephemeral, remote));
    var shared := c.sharedPlain(p.peer.id, rnd.ephemeral);
    && auth.source == local && c.compress(c.publicOf(rnd.ephemeral)) == Some(auth.ephemeral)
    && signed == Some(auth.signature)
    && auth.record == (if p.recordSeq < INITIAL_SEQ && me.record.Some? then me.record.value else [])
    && shared.Some? && h.session.remoteAddr == remote && h.session.remoteId == p.peer.id
    && (h.session.writeKey, h.session.readKey) == SessionKeys(c, shared.value, p.challenge.value, local, remote)
  }

  /** The message is not masked, so it can be appended to an encoded header. */
  lemma {:induction false} AppendMessage(c: Suite, rnd: Random, flag: byte, auth: bytes, message: bytes, remote: digest)
    ensures EncodePacket(c.mask, rnd.iv, flag, rnd.nonce, auth, [], remote) + message
         == EncodePacket(c.mask, rnd.iv, flag, rnd.nonce, auth, message, remote)
  {}

  lemma {:induction false} BuiltCarries(c: Suite, me: Identity, p: Pending, remote: digest, rnd: Random)
    returns (auth: HandshakeAuth, text: bytes, sealed: bytes)
    requires p.challenge.Some? && BuildHandshake(c, me, p, remote, rnd).Ok? && FixedSizes(c)
    ensures var h := BuildHandshake(c, me, p, remote, rnd).value;
            var data := HandshakeAuthData(auth);
            var header := HeaderOf(rnd.iv, FLAG_HANDSHAKE, rnd.nonce, data);
            && Carries(c, me, p, remote, rnd, h, auth)
            && |auth.signature| == SIGNATURE && |auth.ephemeral| == COMPRESSED_KEY
            && h.packet == EncodePacket(c.mask, rnd.iv, FLAG_HANDSHAKE, rnd.nonce, data, sealed, remote)
            && FindnodeText(p.request) == Some(text)
            && c.seal(h.session.writeKey, rnd.nonce, text, header) == Some(sealed)
  {
    hide SessionKeys, HandshakeAuthData, IdInput;
    var eph := c.compress(c.publicOf(rnd.ephemeral)).value;
    var signature := c.sign(me.secret, IdInput(p.challenge.value, eph, remote)).value;
    auth := HandshakeAuth(c.address(me.id), signature, eph, if p.recordSeq < INITIAL_SEQ then me.record.value else []);
    text := FindnodeText(p.request).value;
    var h := BuildHandshake(c, me, p, remote, rnd).value;
    var data := HandshakeAuthData(auth);
    var header := HeaderOf(rnd.iv, FLAG_HANDSHAKE, rnd.nonce, data);
    sealed := c.seal(h.session.writeKey, rnd.nonce, text, header).value;
    AppendMessage(c, rnd, FLAG_HANDSHAKE, data, sealed, remote);
  }

  /** Equal inputs to the identity proof come from equal challenges. */
  lemma {:induction false} SameChallenge(x: bytes, y: bytes, ephemeral: bytes, destination: digest)
    requires IdInput(x, ephemeral, destination) == IdInput(y, ephemeral, destination)
    ensures x == y
  {
    var s := ephemeral + destination;
    assert IdInput(x, ephemeral, destination) == ID_PREFIX + (x + s)
        && IdInput(y, ephemeral, destination) == ID_PREFIX + (y + s);
    assert (ID_PREFIX + (x + s))[|ID_PREFIX|..] == x + s && (ID_PREFIX + (y + s))[|ID_PREFIX|..] == y + s;
    assert (x + s)[..|x|] == x && (y + s)[..|y|] == y;
  }

  /** The checks on the auth data of a handshake addressed to this node pin down what it answers and who sent it. */
  lemma {:induction false} ProposalAnswers(
    c: Suite, a: Identity, p: Pending, rnd: Random, h: Handshake, auth: HandshakeAuth, b: Identity,
    challenge: Challenge)
    requires Lawful(c) && p.challenge.Some?
    requires Carries(c, a, p, c.address(b.id), rnd, h, auth) && ProposedSession(c, b, challenge, auth).Some?
    ensures challenge.data == p.challenge.value
    ensures var proposed := ProposedSession(c, b, challenge, auth).value;
            proposed.remoteAddr == c.address(a.id) && c.address(proposed.remoteId) == c.address(a.id)
  {
    hide IdInput, SessionKeys;
    var local := c.address(b.id);
    var node := c.recordNode(auth.record).value;
    assert c.address(node) == c.address(a.id);
    assert c.verify(node, auth.signature, IdInput(challenge.data, auth.ephemeral, local));
    SameChallenge(challenge.data, p.challenge.value, auth.ephemeral, local);
  }

  /** The proposed session is the mirror exactly when the pending request was for this node. */
  lemma {:induction false} ProposalMirrors(
    c: Suite, a: Identity, p: Pending, rnd: Random, h: Handshake, auth: HandshakeAuth, b: Identity,
    challenge: Challenge)
    requires Lawful(c) && Owns(c, b) && p.challenge.Some?
    requires Carries(c, a, p, c.address(b.id), rnd, h, auth) && ProposedSession(c, b, challenge, auth).Some?
    ensures Mirror(c, a, h.session, b, ProposedSession(c, b, challenge, auth).value) <==> p.peer.id == b.id
  {
    hide IdInput, SessionKeys;
    ProposalAnswers(c, a, p, rnd, h, auth, b, challenge);
    if p.peer.id == b.id {
      assert c.sharedPlain(c.publicOf(b.secret), rnd.ephemeral).Some?;
    }
  }

  /** What B installs when it accepts the handshake packet that A addressed to B. */
  function Installed(c: Suite, b: Identity, s: State, packet: bytes, from: Endpoint): Session
    requires Accepts(c, b, s, packet, from)
  {
    AcceptsExactly(c, b, s, packet, from);
    Handle(c, b, s, packet, from).0.sessions[from]
  }

  const MAX_RECORD: nat := 0xFF7C

  lemma {:induction false} HandshakeReads(c: Suite, rnd: Random, auth: HandshakeAuth, sealed: bytes, remote: digest)
    requires |auth.signature| == SIGNATURE && |auth.ephemeral| == COMPRESSED_KEY && |auth.record| <= MAX_RECORD
    ensures var data := HandshakeAuthData(auth);
            && DecodePacket(c.mask, EncodePacket(c.mask, rnd.iv, FLAG_HANDSHAKE, rnd.nonce, data, sealed, remote),
               remote)
               == Ok(Packet(FLAG_HANDSHAKE, rnd.nonce, HeaderOf(rnd.iv, FLAG_HANDSHAKE, rnd.nonce, data), data, sealed))
            && ParseHandshakeAuth(data) == Ok(auth)
  {
    hide DecodePacket, EncodePacket, ParseHandshakeAuth, HeaderOf;
    var data := HandshakeAuthData(auth);
    ParseInvertsAuthData(auth);
    DecodeInvertsEncode(c.mask, rnd.iv, FLAG_HANDSHAKE, rnd.nonce, data, sealed, remote);
  }

  /** The installed session is the proposed one, up to the request it remembers, and it opened the message. */
  lemma {:induction false} InstalledIsProposed(
    c: Suite, b: Identity, s: State, rnd: Random, auth: HandshakeAuth, sealed: bytes, from: Endpoint)
    requires |auth.signature| == SIGNATURE && |auth.ephemeral| == COMPRESSED_KEY && |auth.record| <= MAX_RECORD
    requires var packet := EncodePacket(
               c.mask, rnd.iv, FLAG_HANDSHAKE, rnd.nonce, HandshakeAuthData(auth), sealed, c.address(b.id));
             Accepts(c, b, s, packet, from)
    ensures from in s.challenges && ProposedSession(c, b, s.challenges[from], auth).Some?
    ensures var data := HandshakeAuthData(auth);
            var packet := EncodePacket(c.mask, rnd.iv, FLAG_HANDSHAKE, rnd.nonce, data, sealed, c.address(b.id));
            var proposed := ProposedSession(c, b, s.challenges[from], auth).value;
            && Installed(c, b, s, packet, from)
               == proposed.(lastRequest := Installed(c, b, s, packet, from).lastRequest)
            && c.unseal(proposed.readKey, rnd.nonce, sealed, HeaderOf(rnd.iv, FLAG_HANDSHAKE, rnd.nonce, data)).Some?
  {
    hide ProposedSession, DecodePacket, EncodePacket, HandshakeAuthData, ParseHandshakeAuth, FindnodeTask, OnMessage;
    HandshakeReads(c, rnd, auth, sealed, c.address(b.id));
  }

  lemma LawsOf(c: Suite)
    requires Lawful(c)
    ensures FixedSizes(c)
  {}

  /** The auth data of a handshake, 131 bytes and the node record, fits its two-byte size. */
  predicate SmallRecord(a: Identity) {
    a.record.Some? ==> |a.record.value| <= MAX_RECORD
  }

  /**
   In whatever state B accepts a handshake packet that A addressed to B, B uses up the challenge that A answered
   and knows A's address; and the two sessions mirror each other exactly when A's pending request was for B.
   */
  lemma {:induction false} AcceptedMirrors(
    c: Suite, a: Identity, p: Pending, rnd: Random, b: Identity, s: State, from: Endpoint)
    requires Lawful(c) && Owns(c, b) && SmallRecord(a) && p.challenge.Some?
    requires BuildHandshake(c, a, p, c.address(b.id), rnd).Ok?
    requires Accepts(c, b, s, BuildHandshake(c, a, p, c.address(b.id), rnd).value.packet, from)
    ensures var h := BuildHandshake(c, a, p, c.address(b.id), rnd).value;
            var t := Installed(c, b, s, h.packet, from);
            && from in s.challenges && s.challenges[from].data == p.challenge.value
            && t.remoteAddr == c.address(a.id)
            && (Mirror(c, a, h.session, b, t) <==> p.peer.id == b.id)
  {
    hide BuildHandshake, ProposedSession, EncodePacket, HandshakeAuthData, HeaderOf, Accepts, Installed, Lawful;
    var h := BuildHandshake(c, a, p, c.address(b.id), rnd).value;
    LawsOf(c);
    var auth, text, sealed := BuiltCarries(c, a, p, c.address(b.id), rnd);
    InstalledIsProposed(c, b, s, rnd, auth, sealed, from);
    ProposalAnswers(c, a, p, rnd, h, auth, b, s.challenges[from]);
    ProposalMirrors(c, a, p, rnd, h, auth, b, s.challenges[from]);
  }

  /** What was sealed opens under its key. */
  ghost predicate Opens(c: Suite) {
    forall key, nonce, text, header ::
      c.seal(key, nonce, text, header).Some? ==>
        c.unseal(key, nonce, c.seal(key, nonce, text, header).value, header) == Some(text)
  }

  /** A sealed message opens under no key but its own. */
  ghost predicate SealBinds(c: Suite) {
    forall key, nonce, text, header, other ::
      && c.seal(key, nonce, text, header).Some?
      && c.unseal(other, nonce, c.seal(key, nonce, text, header).value, header).Some?
      ==> other == key
  }

  /** Whomever A's pending request was for: B reads with the key that A writes with. */
  lemma {:induction false} AcceptedReads(
    c: Suite, a: Identity, p: Pending, rnd: Random, b: Identity, s: State, from: Endpoint)
    requires FixedSizes(c) && SealBinds(c) && SmallRecord(a) && p.challenge.Some?
    requires BuildHandshake(c, a, p, c.address(b.id), rnd).Ok?
    requires Accepts(c, b, s, BuildHandshake(c, a, p, c.address(b.id), rnd).value.packet, from)
    ensures var h := BuildHandshake(c, a, p, c.address(b.id), rnd).value;
            h.session.writeKey == Installed(c, b, s, h.packet, from).readKey
  {
    hide BuildHandshake, ProposedSession, EncodePacket, HandshakeAuthData, HeaderOf, Accepts, Installed;
    var auth, text, sealed := BuiltCarries(c, a, p, c.address(b.id), rnd);
    InstalledIsProposed(c, b, s, rnd, auth, sealed, from);
  }
}
