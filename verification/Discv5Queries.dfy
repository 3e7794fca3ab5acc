/** Messages under an established session: requests, replies and what is sealed under another key. */
module Discv5Queries {
  import opened Bytes
  import opened RlpxCrypto
  import opened Discv5Packets
  import opened Discv5Texts
  import opened Discv5Node
  import opened Discv5Agreement

  /** A sealed message as its destination sees it. */
  lemma {:induction false} MessageReads(
    c: Suite, me: Identity, key: block, text: bytes, remote: digest, rnd: Random) returns (sealed: bytes)
    requires SealMessage(c, me, key, text, remote, rnd).Ok?
    ensures var auth := c.address(me.id);
            var header := HeaderOf(rnd.iv, FLAG_MESSAGE, rnd.nonce, auth);
            && c.seal(key, rnd.nonce, text, header) == Some(sealed)
            && DecodePacket(c.mask, SealMessage(c, me, key, text, remote, rnd).value, remote)
               == Ok(Packet(FLAG_MESSAGE, rnd.nonce, header, auth, sealed))
  {
    hide DecodePacket, EncodePacket, HeaderOf;
    var auth := c.address(me.id);
    sealed := c.seal(key, rnd.nonce, text, HeaderOf(rnd.iv, FLAG_MESSAGE, rnd.nonce, auth)).value;
    AppendMessage(c, rnd, FLAG_MESSAGE, auth, sealed, remote);
    DecodeInvertsEncode(c.mask, rnd.iv, FLAG_MESSAGE, rnd.nonce, auth, sealed, remote);
  }

  /** B has a session with A at this endpoint and reads it with this key. */
  predicate Hears(c: Suite, b: State, from: Endpoint, a: Identity, key: block) {
    from in b.sessions && b.sessions[from].readKey == key && b.sessions[from].remoteAddr == c.address(a.id)
  }

  /** A message under the session's key is handled by its text. */
  lemma {:induction false} MessageOpens(
    c: Suite, a: Identity, key: block, text: bytes, rnd: Random, b: Identity, s: State, from: Endpoint)
    requires Opens(c) && Hears(c, s, from, a, key) && SealMessage(c, a, key, text, c.address(b.id), rnd).Ok?
    ensures Handle(c, b, s, SealMessage(c, a, key, text, c.address(b.id), rnd).value, from) ==
            if text != [] && text[0] == MSG_NODES then OnNodes(c, s, s.sessions[from], text[1..])
            else (s, FindnodeTask(c, text, from))
  {
    hide DecodePacket, SealMessage, OnNodes, FindnodeTask, HeaderOf;
    var sealed := MessageReads(c, a, key, text, c.address(b.id), rnd);
  }

  /** A message under any other key is met with a challenge, and so is one where there is no session with its sender. */
  lemma {:induction false} OtherKeyIsChallenged(
    c: Suite, a: Identity, key: block, text: bytes, rnd: Random, b: Identity, s: State, from: Endpoint)
    requires SealBinds(c) && !Hears(c, s, from, a, key) && SealMessage(c, a, key, text, c.address(b.id), rnd).Ok?
    ensures Handle(c, b, s, SealMessage(c, a, key, text, c.address(b.id), rnd).value, from) ==
            (s, Some(SendChallenge(from, c.address(a.id), rnd.nonce)))
  {
    hide DecodePacket, SealMessage, OnNodes, FindnodeTask, HeaderOf;
    var sealed := MessageReads(c, a, key, text, c.address(b.id), rnd);
  }

  /** A request sent under a session leads its receiver to answer that very request. */
  lemma {:induction false} RequestIsAnswered(
    c: Suite, a: Identity, sa: State, peer: Peer, rnd: Random, b: Identity, sb: State, from: Endpoint)
    requires Opens(c) && peer.id == b.id && peer.at in sa.sessions
    requires Hears(c, sb, from, a, sa.sessions[peer.at].writeKey) && FindNode(c, a, sa, peer, rnd).1.Ok?
    ensures var (ta, sent) := FindNode(c, a, sa, peer, rnd);
            && ta == sa.(sessions := sa.sessions[peer.at := sa.sessions[peer.at].(lastRequest := RequestId(peer))])
            && Handle(c, b, sb, sent.value, from) == (sb, Some(AnswerFindnode(RequestId(peer), from)))
  {
    hide Handle, SealMessage, FindnodeText, FindnodeRequest, Opens, Hears, RequestId;
    var request := RequestId(peer);
    var text := FindnodeText(request).value;
    FindnodeNamesRequest(request);
    MessageOpens(c, a, sa.sessions[peer.at].writeKey, text, rnd, b, sb, from);
  }

  /** A NODES reply from the peer is counted and handed on exactly when it names the request remembered, if any. */
  lemma {:induction false} ReplyIsTakenIff(
    c: Suite, b: Identity, key: block, request: bytes, record: bytes, rnd: Random, a: Identity, s: State,
    from: Endpoint)
    requires Opens(c) && Hears(c, s, from, b, key) && NodesText(request, record).Some?
    requires SealMessage(c, b, key, NodesText(request, record).value, c.address(a.id), rnd).Ok?
    ensures var packet := SealMessage(c, b, key, NodesText(request, record).value, c.address(a.id), rnd).value;
            var session := s.sessions[from];
            Handle(c, a, s, packet, from) ==
            if session.lastRequest == [] || session.lastRequest == request then
              (s.(nodesPackets := s.nodesPackets + 1),
               Some(TakeNodes(session.remoteId, PeersOf(c.recordPeer, record, 0))))
            else (s, None)
  {
    hide Handle, SealMessage, NodesText, ReadNodes, Opens, PeersOf;
    NodesNameRequest(c.recordPeer, request, record);
    MessageOpens(c, b, key, NodesText(request, record).value, rnd, a, s, from);
  }

  /** Sealing never fails. */
  ghost predicate Seals(c: Suite) {
    forall key, nonce, text, header :: c.seal(key, nonce, text, header).Some?
  }

  /** While sealing works, a request under a session is sent, and it is answered by a node that has a record. */
  lemma {:induction false} QueryIsSent(
    c: Suite, a: Identity, sa: State, peer: Peer, b: Identity, sb: State, request: bytes, to: Endpoint, rnd: Random)
    requires Seals(c)
    ensures peer.at in sa.sessions ==> FindNode(c, a, sa, peer, rnd).1.Ok?
    ensures SendNodes(c, b, sb, request, to, rnd).Ok? <==>
              to in sb.sessions && b.record.Some? && NodesText(request, b.record.value).Some?
  {
    hide FindnodeText, NodesText, HeaderOf, EncodePacket;
    RequestTextExists(RequestId(peer));
  }

  /**
   A query under mirrored sessions: A asks, B answers that request with its record, and A counts the reply and takes
   the peer that the record names.
   */
  lemma {:induction false} QueryCompletes(
    c: Suite, a: Identity, sa: State, peer: Peer, b: Identity, sb: State, from: Endpoint, ask: Random, tell: Random)
    requires Opens(c) && peer.id == b.id && peer.at in sa.sessions && from in sb.sessions
    requires Mirror(c, a, sa.sessions[peer.at], b, sb.sessions[from])
    ensures var (ta, asked) := FindNode(c, a, sa, peer, ask);
            var told := SendNodes(c, b, sb, RequestId(peer), from, tell);
            asked.Ok? && told.Ok? ==>
              && Handle(c, b, sb, asked.value, from) == (sb, Some(AnswerFindnode(RequestId(peer), from)))
              && Handle(c, a, ta, told.value, peer.at) ==
                 (ta.(nodesPackets := ta.nodesPackets + 1),
                  Some(TakeNodes(b.id, PeersOf(c.recordPeer, b.record.value, 0))))
  {
    hide Handle, SealMessage, NodesText, FindnodeText, Opens, PeersOf, RequestId;
    var (ta, asked) := FindNode(c, a, sa, peer, ask);
    var told := SendNodes(c, b, sb, RequestId(peer), from, tell);
    if asked.Ok? && told.Ok? {
      RequestIsAnswered(c, a, sa, peer, ask, b, sb, from);
      ReplyIsTakenIff(c, b, sb.sessions[from].writeKey, RequestId(peer), b.record.value, tell, a, ta, peer.at);
    }
  }
}
