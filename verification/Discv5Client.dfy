/** The discv5 client: three maps that its handlers and senders update in place. */
module Discv5Client {
  import Arith
  import opened Bytes
  import opened RlpxCrypto
  import opened Discv5Packets
  import opened Discv5Texts
  import opened Discv5Node

  /** The n low bytes of a number, most significant first. */
  function FixedBig(v: nat, n: nat): bytes {
    if n == 0 then [] else FixedBig(v / 256, n - 1) + [v % 256]
  }

  lemma {:induction false} EightZeroBytes()
    ensures FixedBig(0, 8) == [0, 0, 0, 0, 0, 0, 0, 0]
  {
    assert FixedBig(0, 2) == [0, 0];
    assert FixedBig(0, 4) == [0, 0, 0, 0];
    assert FixedBig(0, 6) == [0, 0, 0, 0, 0, 0];
  }

  /** `read_u64_be`: the bytes are shifted in one by one. */
  method ReadU64(s: bytes) returns (v: nat)
    requires |s| == 8
    ensures v == FromBig(s)
  {
    hide Pow256;
    v := 0;
    for i := 0 to 8
      invariant v == FromBig(s[..i])
    {
      assert s[..i + 1][..i] == s[..i];
      FromBigBound(s[..i + 1]);
      Pow256Values();
      Pow256Mono(i + 1, 8);
      v := (v * 256 + s[i]) % 0x1_0000_0000_0000_0000;
    }
    assert s[..8] == s;
  }

  lemma {:induction false} PowZeroIsOne()
    ensures Pow256(0) == 1
  {}

  lemma {:induction false} ShiftOut(v: nat, shift: nat)
    requires shift > 0
    ensures v / Pow256(shift - 1) >= 0 && v / Pow256(shift) == v / Pow256(shift - 1) / 256
  {
    Arith.DivTwice(v, Pow256(shift - 1), 256);
  }

  lemma {:induction false} FixedBigValue(v: nat, n: nat)
    requires v < Pow256(n)
    ensures FromBig(FixedBig(v, n)) == v
  {
    if n > 0 {
      FixedBigValue(v / 256, n - 1);
      var s := FixedBig(v, n);
      assert s[..|s| - 1] == FixedBig(v / 256, n - 1);
    }
  }

  /** `append_u64_be`: from the highest byte down. */
  method AppendU64(s: bytes, v: nat) returns (out: bytes)
    requires v < Pow256(8)
    ensures out == s + FixedBig(v, 8) && FromBig(FixedBig(v, 8)) == v
  {
    hide Pow256;
    out := s;
    var shift := 8;
    assert s + [] == s;
    while shift > 0
      invariant 0 <= shift <= 8
      invariant out == s + FixedBig(v / Pow256(shift), 8 - shift)
    {
      ShiftOut(v, shift);
      out := out + [v / Pow256(shift - 1) % 256];
      shift := shift - 1;
    }
    PowZeroIsOne();
    FixedBigValue(v, 8);
  }

  class Discv5Client {
    const c: Suite
    const me: Identity
    var sessions: map<Endpoint, Session>
    var pending: map<Endpoint, Pending>
    var challenges: map<Endpoint, Challenge>
    var whoareyouPackets: nat
    var handshakePackets: nat
    var nodesPackets: nat

    function Now(): State
      reads this
    {
      State(sessions, pending, challenges, whoareyouPackets, handshakePackets, nodesPackets)
    }

    constructor (c: Suite, me: Identity)
      ensures this.c == c && this.me == me && Now() == State(map[], map[], map[], 0, 0, 0)
    {
      this.c, this.me := c, me;
      sessions, pending, challenges := map[], map[], map[];
      whoareyouPackets, handshakePackets, nodesPackets := 0, 0, 0;
    }

    method HandlePacket(data: bytes, from: Endpoint) returns (task: Option<Task>)
      modifies this
      ensures (Now(), task) == Handle(c, me, old(Now()), data, from)
    {
      hide OnWhoareyou, OnMessage, OnHandshake;
      var decoded := DecodePacket(c.mask, data, c.address(me.id));
      if decoded.Err? { return None; }
      var p := decoded.value;
      if p.flag == FLAG_WHOAREYOU {
        task := HandleWhoareyou(p, from);
      } else if p.flag == FLAG_MESSAGE {
        task := HandleMessage(p, from);
      } else if p.flag == FLAG_HANDSHAKE {
        task := HandleHandshake(p, from);
      } else {
        task := None;
      }
    }

    method HandleWhoareyou(p: Packet, from: Endpoint) returns (task: Option<Task>)
      modifies this
      ensures (Now(), task) == OnWhoareyou(old(Now()), p, from)
    {
      if |p.auth| != WHOAREYOU_AUTH { return None; }
      if from !in pending || pending[from].nonce != p.nonce { return None; }
      var entry := pending[from];
      var seqNo := ReadU64(p.auth[ID_NONCE..]);
      entry := entry.(recordSeq := seqNo);
      entry := entry.(challenge := Some(p.header));
      pending := pending[from := entry];
      whoareyouPackets := whoareyouPackets + 1;
      task := Some(AnswerChallenge(entry.peer));
    }

    method HandleMessage(p: Packet, from: Endpoint) returns (task: Option<Task>)
      modifies this
      ensures (Now(), task) == OnMessage(c, old(Now()), p, from)
    {
      hide ReadNodes, FindnodeRequest;
      if |p.auth| != MESSAGE_AUTH { return None; }
      if from !in sessions || sessions[from].remoteAddr != p.auth { return Some(SendChallenge(from, p.auth, p.nonce)); }
      var text := c.unseal(sessions[from].readKey, p.nonce, p.message, p.header);
      if text.None? { return Some(SendChallenge(from, p.auth, p.nonce)); }
      if text.value == [] { return None; }
      if text.value[0] == MSG_NODES {
        var nodes := ParseNodes(c.recordPeer, text.value[1..]);
        if nodes.None? { return None; }
        if sessions[from].lastRequest != [] && nodes.value.0 != sessions[from].lastRequest { return None; }
        nodesPackets := nodesPackets + 1;
        return Some(TakeNodes(sessions[from].remoteId, nodes.value.1));
      }
      task := FindnodeTask(c, text.value, from);
    }

    method HandleHandshake(p: Packet, from: Endpoint) returns (task: Option<Task>)
      modifies this
      ensures (Now(), task) == OnHandshake(c, me, old(Now()), p, from)
    {
      hide ProposedSession, ParseHandshakeAuth;
      var auth := ParseHandshakeAuth(p.auth);
      if auth.Err? || from !in challenges { return None; }
      var session := CheckedSession(challenges[from], auth.value);
      if session.None? { return None; }
      sessions := sessions[from := session.value];
      var text := c.unseal(sessions[from].readKey, p.nonce, p.message, p.header);
      if text.None? {
        sessions := sessions - {from};
        assert sessions == old(sessions) - {from};
        return None;
      }
      handshakePackets := handshakePackets + 1;
      challenges := challenges - {from};
      task := FindnodeTask(c, text.value, from);
      if task.Some? {
        sessions := sessions[from := sessions[from].(lastRequest := task.value.request)];
        assert sessions == old(sessions)[from := session.value.(lastRequest := task.value.request)];
      }
    }

    method CheckedSession(challenge: Challenge, a: HandshakeAuth) returns (r: Option<Session>)
      ensures r == ProposedSession(c, me, challenge, a)
    {
      var local := c.address(me.id);
      if a.source != challenge.remoteAddr || a.record == [] { return None; }
      var node := c.recordNode(a.record);
      if node.None? || c.address(node.value) != a.source { return None; }
      if !VerifyId(c, node.value, a.signature, challenge.data, a.ephemeral, local) { return None; }
      if |a.ephemeral| != COMPRESSED_KEY { return None; }
      var shared := c.sharedCompressed(a.ephemeral, me.secret);
      if shared.None? { return None; }
      var keys := SessionKeys(c, shared.value, challenge.data, a.source, local);
      r := Some(Session(keys.1, keys.0, a.source, node.value, []));
    }

    method SendFindnode(peer: Peer, rnd: Random) returns (r: Result<bytes, Discv5Error>)
      modifies this
      ensures (Now(), r) == FindNode(c, me, old(Now()), peer, rnd)
    {
      hide BuildMessage, BuildHandshake;
      var remote, request := c.address(peer.id), RequestId(peer);
      if peer.at in sessions {
        r := BuildMessage(c, me, sessions[peer.at], remote, request, rnd);
        if r.Ok? { sessions := sessions[peer.at := sessions[peer.at].(lastRequest := request)]; }
        return r;
      }
      if peer.at in pending && pending[peer.at].challenge.None? {
        pending := pending - {peer.at};
      }
      if peer.at !in pending {
        pending := pending[peer.at := Pending(peer, request, rnd.nonce, None, 0)];
        return Ok(EncodePacket(c.mask, rnd.iv, FLAG_MESSAGE, rnd.nonce, c.address(me.id), rnd.filler, remote));
      }
      var built := BuildHandshake(c, me, pending[peer.at], remote, rnd);
      if built.Err? { return Err(built.error); }
      sessions := sessions[peer.at := built.value.session];
      pending := pending - {peer.at};
      r := Ok(built.value.packet);
    }

    /** `handle_findnode_request`. */
    method AnswerFindnodeRequest(request: bytes, to: Endpoint, rnd: Random) returns (r: Result<bytes, Discv5Error>)
      ensures r == SendNodes(c, me, Now(), request, to, rnd)
    {
      hide NodesText;
      if to !in sessions { return Err(SendFailed); }
      var record := me.record;
      if record.None? { return Err(SendFailed); }
      var text := MakeNodes(request, record.value);
      if text.None? { return Err(SendFailed); }
      var auth := c.address(me.id);
      var sealed :=
          c.seal(sessions[to].writeKey, rnd.nonce, text.value, HeaderOf(rnd.iv, FLAG_MESSAGE, rnd.nonce, auth));
      if sealed.None? { return Err(CryptoFailed); }
      r := Ok(EncodePacket(c.mask, rnd.iv, FLAG_MESSAGE, rnd.nonce, auth, [], sessions[to].remoteAddr) + sealed.value);
    }

    method SendChallengeTo(
      to: Endpoint, addr: digest, nonce: nonce12, iv: block, idNonce: block) returns (packet: bytes)
      modifies this
      ensures (Now(), packet) == SendWhoareyou(c, old(Now()), to, addr, nonce, iv, idNonce)
    {
      var auth := AppendU64(idNonce, 0);
      EightZeroBytes();
      packet := EncodePacket(c.mask, iv, FLAG_WHOAREYOU, nonce, auth, [], addr);
      challenges := challenges[to := Challenge(addr, HeaderOf(iv, FLAG_WHOAREYOU, nonce, auth))];
    }
  }
}
