/** The session handshake of Node Discovery v5.1 as one node sees it. */
module Discv5Node {
  import opened Bytes
  import opened RlpxCrypto
  import opened Discv5Packets
  import opened Discv5Texts

  type NodeId = bytes

  datatype Endpoint = Endpoint(ip: string, port: nat)
  datatype Peer = Peer(id: NodeId, at: Endpoint, tcp: nat)
  datatype Identity = Identity(id: NodeId, secret: bytes, record: Option<bytes>)

  /** The foreign primitives, as parameters; a `None` is a failed call. */
  datatype Suite = Suite(
    mask: Masking,
    address: NodeId -> digest,
    hmac: (bytes, bytes) -> digest,
    publicOf: bytes -> NodeId,
    compress: NodeId -> Option<bytes>,
    sharedPlain: (NodeId, bytes) -> Option<bytes>,
    sharedCompressed: (bytes, bytes) -> Option<bytes>,
    sign: (bytes, bytes) -> Option<bytes>,
    verify: (NodeId, bytes, bytes) -> bool,
    seal: (block, nonce12, bytes, bytes) -> Option<bytes>,
    unseal: (block, nonce12, bytes, bytes) -> Option<bytes>,
    recordNode: bytes -> Option<NodeId>,
    recordPeer: bytes -> Option<Peer>)

  const COMPRESSED_KEY: nat := 33
  const SIGNATURE: nat := 64
  const ID_NONCE: nat := 16
  const WHOAREYOU_AUTH: nat := 24
  const MESSAGE_AUTH: nat := 32
  const INITIAL_SEQ: nat := 1

  // "discovery v5 identity proof" and "discovery v5 key agreement"
  const ID_PREFIX: bytes :=
    [0x64, 0x69, 0x73, 0x63, 0x6f, 0x76, 0x65, 0x72, 0x79, 0x20, 0x76, 0x35, 0x20, 0x69, 0x64, 0x65, 0x6e, 0x74,
     0x69, 0x74, 0x79, 0x20, 0x70, 0x72, 0x6f, 0x6f, 0x66]
  const KEY_PREFIX: bytes :=
    [0x64, 0x69, 0x73, 0x63, 0x6f, 0x76, 0x65, 0x72, 0x79, 0x20, 0x76, 0x35, 0x20, 0x6b, 0x65, 0x79, 0x20, 0x61,
     0x67, 0x72, 0x65, 0x65, 0x6d, 0x65, 0x6e, 0x74]

  datatype Session = Session(writeKey: block, readKey: block, remoteAddr: digest, remoteId: NodeId, lastRequest: bytes)
  datatype Pending = Pending(peer: Peer, request: bytes, nonce: nonce12, challenge: Option<bytes>, recordSeq: nat)
  datatype Challenge = Challenge(remoteAddr: digest, data: bytes)

  datatype State = State(
    sessions: map<Endpoint, Session>, pending: map<Endpoint, Pending>, challenges: map<Endpoint, Challenge>,
    whoareyouPackets: nat, handshakePackets: nat, nodesPackets: nat)

  /** What a handler spawns, to be run as a later step, or hands to the crawler. */
  datatype Task =
    | AnswerChallenge(peer: Peer)
    | SendChallenge(to: Endpoint, addr: digest, nonce: nonce12)
    | AnswerFindnode(request: bytes, to: Endpoint)
    | TakeNodes(source: NodeId, peers: seq<Peer>)

  /** The random bytes that one send uses. */
  datatype Random = Random(iv: block, nonce: nonce12, ephemeral: bytes, filler: bytes)

  // ---------------------------------------------------------------------------------------------
  // Keys and proofs
  // ---------------------------------------------------------------------------------------------

  function IdInput(challenge: bytes, ephemeral: bytes, destination: digest): bytes {
    ID_PREFIX + challenge + ephemeral + destination
  }

  /** The two prefixes as the specification spells them. */
  lemma {:induction false} PrefixTexts()
    ensures var proof, agreement := "discovery v5 identity proof", "discovery v5 key agreement";
            && |ID_PREFIX| == |proof| && (forall i :: 0 <= i < |proof| ==> ID_PREFIX[i] as int == proof[i] as int)
            && |KEY_PREFIX| == |agreement|
            && forall i :: 0 <= i < |agreement| ==> KEY_PREFIX[i] as int == agreement[i] as int
  {}

  /** What is signed: the prefix, the challenge, the ephemeral key, the destination. */
  lemma {:induction false} IdInputParts(challenge: bytes, ephemeral: bytes, destination: digest)
    ensures var s := IdInput(challenge, ephemeral, destination);
            var i, j := |ID_PREFIX| + |challenge|, |ID_PREFIX| + |challenge| + |ephemeral|;
            && |s| == j + 32 && s[..|ID_PREFIX|] == ID_PREFIX && s[|ID_PREFIX|..i] == challenge
            && s[i..j] == ephemeral && s[j..] == destination
  {}

  /** `verify_id_signature`. */
  predicate VerifyId(
    c: Suite, node: NodeId, signature: bytes, challenge: bytes, ephemeral: bytes, destination: digest) {
    |signature| == SIGNATURE && c.verify(node, signature, IdInput(challenge, ephemeral, destination))
  }

  /** `hkdf_expand_32` and `derive_session_keys`: the first key writes from the first node to the second. */
  function SessionKeys(c: Suite, shared: bytes, challenge: bytes, first: digest, second: digest): (block, block) {
    var okm := c.hmac(c.hmac(challenge, shared), KEY_PREFIX + first + second + [1]);
    (okm[..16], okm[16..])
  }

  function RequestId(peer: Peer): bytes {
    U16(peer.at.port) + U16(peer.tcp)
  }

  // ---------------------------------------------------------------------------------------------
  // Sending
  // ---------------------------------------------------------------------------------------------

  datatype Handshake = Handshake(packet: bytes, session: Session)

  /** The handshake branch of `send_findnode`: the answer to a challenge. */
  function BuildHandshake(
    c: Suite, me: Identity, p: Pending, remote: digest, rnd: Random): Result<Handshake, Discv5Error>
    requires p.challenge.Some?
  {
    var challenge := p.challenge.value;
    var local := c.address(me.id);
    match c.compress(c.publicOf(rnd.ephemeral))
    case None => Err(CryptoFailed)
    case Some(eph) =>
      match c.sign(me.secret, IdInput(challenge, eph, remote))
      case None => Err(CryptoFailed)
      case Some(signature) =>
        if p.recordSeq < INITIAL_SEQ && me.record.None? then Err(SendFailed)
        else
          var record := if p.recordSeq < INITIAL_SEQ then me.record.value else [];
          match c.sharedPlain(p.peer.id, rnd.ephemeral)
          case None => Err(CryptoFailed)
          case Some(shared) =>
            var (write, read) := SessionKeys(c, shared, challenge, local, remote);
            var auth := HandshakeAuthData(HandshakeAuth(local, signature, eph, record));
            match FindnodeText(p.request)
            case None => Err(SendFailed)
            case Some(text) =>
              match c.seal(write, rnd.nonce, text, HeaderOf(rnd.iv, FLAG_HANDSHAKE, rnd.nonce, auth))
              case None => Err(CryptoFailed)
              case Some(sealed) =>
                Ok(Handshake(
                  EncodePacket(c.mask, rnd.iv, FLAG_HANDSHAKE, rnd.nonce, auth, [], remote) + sealed,
                  Session(write, read, remote, p.peer.id, p.request)))
  }

  /** A message packet with this text under this key. */
  function SealMessage(c: Suite, me: Identity, key: block, text: bytes, remote: digest, rnd: Random)
    : Result<bytes, Discv5Error>
  {
    var auth := c.address(me.id);
    match c.seal(key, rnd.nonce, text, HeaderOf(rnd.iv, FLAG_MESSAGE, rnd.nonce, auth))
    case None => Err(CryptoFailed)
    case Some(sealed) => Ok(EncodePacket(c.mask, rnd.iv, FLAG_MESSAGE, rnd.nonce, auth, [], remote) + sealed)
  }

  /** The session branch: an ordinary encrypted request. */
  function BuildMessage(
    c: Suite, me: Identity, s: Session, remote: digest, request: bytes, rnd: Random): Result<bytes, Discv5Error> {
    match FindnodeText(request)
    case None => Err(SendFailed)
    case Some(text) => SealMessage(c, me, s.writeKey, text, remote, rnd)
  }

  /** `handle_findnode_request`: the own record, under the session with the asker. */
  function SendNodes(c: Suite, me: Identity, s: State, request: bytes, to: Endpoint, rnd: Random)
    : Result<bytes, Discv5Error>
  {
    if to !in s.sessions || me.record.None? then Err(SendFailed)
    else
      match NodesText(request, me.record.value)
      case None => Err(SendFailed)
      case Some(text) => SealMessage(c, me, s.sessions[to].writeKey, text, s.sessions[to].remoteAddr, rnd)
  }

  /** A pending request that was never challenged is given up. */
  function Forget(s: State, at: Endpoint): State {
    if at in s.pending && s.pending[at].challenge.None? then s.(pending := s.pending - {at}) else s
  }

  /** `send_findnode`. */
  function FindNode(c: Suite, me: Identity, s: State, peer: Peer, rnd: Random): (State, Result<bytes, Discv5Error>) {
    var remote, request := c.address(peer.id), RequestId(peer);
    if peer.at in s.sessions then
      var r := BuildMessage(c, me, s.sessions[peer.at], remote, request, rnd);
      (if r.Ok? then s.(sessions := s.sessions[peer.at := s.sessions[peer.at].(lastRequest := request)]) else s, r)
    else
      var t := Forget(s, peer.at);
      if peer.at !in t.pending then
        (t.(pending := t.pending[peer.at := Pending(peer, request, rnd.nonce, None, 0)]),
         Ok(EncodePacket(c.mask, rnd.iv, FLAG_MESSAGE, rnd.nonce, c.address(me.id), rnd.filler, remote)))
      else
        match BuildHandshake(c, me, t.pending[peer.at], remote, rnd)
        case Err(e) => (t, Err(e))
        case Ok(h) => (t.(sessions := t.sessions[peer.at := h.session], pending := t.pending - {peer.at}), Ok(h.packet))
  }

  /** The WHOAREYOU auth data: a random id nonce and record sequence 0. */
  function ChallengeAuth(idNonce: block): bytes {
    idNonce + [0, 0, 0, 0, 0, 0, 0, 0]
  }

  /** `send_whoareyou`. */
  function SendWhoareyou(
    c: Suite, s: State, to: Endpoint, addr: digest, nonce: nonce12, iv: block, idNonce: block): (State, bytes) {
    var auth := ChallengeAuth(idNonce);
    (s.(challenges := s.challenges[to := Challenge(addr, HeaderOf(iv, FLAG_WHOAREYOU, nonce, auth))]),
     EncodePacket(c.mask, iv, FLAG_WHOAREYOU, nonce, auth, [], addr))
  }

  // ---------------------------------------------------------------------------------------------
  // Receiving
  // ---------------------------------------------------------------------------------------------

  function OnWhoareyou(s: State, p: Packet, from: Endpoint): (State, Option<Task>) {
    if |p.auth| != WHOAREYOU_AUTH || from !in s.pending || s.pending[from].nonce != p.nonce then (s, None)
    else
      var answered := s.pending[from].(challenge := Some(p.header), recordSeq := FromBig(p.auth[ID_NONCE..]));
      (s.(pending := s.pending[from := answered], whoareyouPackets := s.whoareyouPackets + 1),
          Some(AnswerChallenge(answered.peer)))
  }

  /** A NODES reply counts unless a request is remembered and the reply names another. */
  function OnNodes(c: Suite, s: State, session: Session, body: bytes): (State, Option<Task>) {
    match ReadNodes(c.recordPeer, body)
    case None => (s, None)
    case Some((request, peers)) =>
      if session.lastRequest != [] && request != session.lastRequest then (s, None)
      else (s.(nodesPackets := s.nodesPackets + 1), Some(TakeNodes(session.remoteId, peers)))
  }

  function FindnodeTask(c: Suite, text: bytes, from: Endpoint): Option<Task> {
    if text == [] || text[0] != MSG_FINDNODE then None
    else
      match FindnodeRequest(text[1..])
      case None => None
      case Some(request) => Some(AnswerFindnode(request, from))
  }

  function OnMessage(c: Suite, s: State, p: Packet, from: Endpoint): (State, Option<Task>) {
    if |p.auth| != MESSAGE_AUTH then (s, None)
    else if from !in s.sessions || s.sessions[from].remoteAddr != p.auth then
      (s, Some(SendChallenge(from, p.auth, p.nonce)))
    else
      match c.unseal(s.sessions[from].readKey, p.nonce, p.message, p.header)
      case None => (s, Some(SendChallenge(from, p.auth, p.nonce)))
      case Some(text) =>
        if text != [] && text[0] == MSG_NODES then OnNodes(c, s, s.sessions[from], text[1..])
        else (s, FindnodeTask(c, text, from))
  }

  /** The checks before a session is installed: the session, or nothing. */
  function ProposedSession(c: Suite, me: Identity, challenge: Challenge, a: HandshakeAuth): Option<Session> {
    var local := c.address(me.id);
    if a.source != challenge.remoteAddr || a.record == [] then None
    else
      match c.recordNode(a.record)
      case None => None
      case Some(node) =>
        if c.address(node) != a.source then None
        else if !VerifyId(c, node, a.signature, challenge.data, a.ephemeral, local) then None
        else if |a.ephemeral| != COMPRESSED_KEY then None
        else
          match c.sharedCompressed(a.ephemeral, me.secret)
          case None => None
          case Some(shared) =>
            var (first, second) := SessionKeys(c, shared, challenge.data, a.source, local);
            Some(Session(second, first, a.source, node, []))
  }

  /** The session a handshake packet proposes, if every check passes. */
  function Proposal(c: Suite, me: Identity, s: State, p: Packet, from: Endpoint): Option<Session> {
    match ParseHandshakeAuth(p.auth)
    case Err(_) => None
    case Ok(a) => if from in s.challenges then ProposedSession(c, me, s.challenges[from], a) else None
  }

  function OnHandshake(c: Suite, me: Identity, s: State, p: Packet, from: Endpoint): (State, Option<Task>) {
    match Proposal(c, me, s, p, from)
    case None => (s, None)
    case Some(session) =>
      match c.unseal(session.readKey, p.nonce, p.message, p.header)
      case None => (s.(sessions := s.sessions - {from}), None)
      case Some(text) =>
        var task := FindnodeTask(c, text, from);
        var installed := if task.None? then session else session.(lastRequest := task.value.request);
        (s.(sessions := s.sessions[from := installed], challenges := s.challenges - {from},
            handshakePackets := s.handshakePackets + 1), task)
  }

  /** `handle_packet`. */
  function Handle(c: Suite, me: Identity, s: State, data: bytes, from: Endpoint): (State, Option<Task>) {
    match DecodePacket(c.mask, data, c.address(me.id))
    case Err(_) => (s, None)
    case Ok(p) =>
      if p.flag == FLAG_WHOAREYOU then OnWhoareyou(s, p, from)
      else if p.flag == FLAG_MESSAGE then OnMessage(c, s, p, from)
      else if p.flag == FLAG_HANDSHAKE then OnHandshake(c, me, s, p, from)
      else (s, None)
  }

  /** A handshake packet is accepted: every check passes and the message opens under the new key. */
  predicate Accepts(c: Suite, me: Identity, s: State, data: bytes, from: Endpoint) {
    match DecodePacket(c.mask, data, c.address(me.id))
    case Err(_) => false
    case Ok(p) =>
      && p.flag == FLAG_HANDSHAKE
      && var proposal := Proposal(c, me, s, p, from);
         proposal.Some? && c.unseal(proposal.value.readKey, p.nonce, p.message, p.header).Some?
  }

  /** What a step may do to the sessions and challenges of node state s when it hears from one endpoint. */
  ghost predicate OnlyAccepts(s: State, t: State, from: Endpoint, accepted: bool) {
    && t.handshakePackets == s.handshakePackets + (if accepted then 1 else 0)
    && t.challenges == (if accepted then s.challenges - {from} else s.challenges)
    && (accepted ==> from in s.challenges && from in t.sessions)
    && (forall e :: e in t.sessions && (e != from || !accepted) ==> e in s.sessions && t.sessions[e] == s.sessions[e])
    && (forall e :: e in s.sessions && e != from ==> e in t.sessions)
  }

  /** A handshake that passes every check but does not open ends the session there was, and changes nothing else. */
  lemma UnopenedEndsSession(c: Suite, me: Identity, s: State, data: bytes, from: Endpoint, p: Packet)
    requires DecodePacket(c.mask, data, c.address(me.id)) == Ok(p) && p.flag == FLAG_HANDSHAKE
    requires Proposal(c, me, s, p, from).Some? && !Accepts(c, me, s, data, from)
    ensures Handle(c, me, s, data, from) == (s.(sessions := s.sessions - {from}), None)
  {
    hide DecodePacket, Proposal;
  }

  /** Acceptance is counted, uses the challenge up and is the only way a handler installs a session. */
  lemma AcceptsExactly(c: Suite, me: Identity, s: State, data: bytes, from: Endpoint)
    ensures OnlyAccepts(s, Handle(c, me, s, data, from).0, from, Accepts(c, me, s, data, from))
  {
    hide DecodePacket, ProposedSession, ParseHandshakeAuth, FindnodeTask;
  }
}
