/** The frame cipher and the message stream as the objects that carry the connection's state. */
module FrameCipher {
  import opened Bytes
  import opened RlpxCrypto
  import opened Framing
  import opened RlpFormat
  import opened RlpEncoder
  import opened RlpDecoder

  /** A MAC hash that remembers everything written to it. */
  class HashMac {
    const p: Primitives
    const macKey: digest
    var written: bytes

    constructor (p: Primitives, macKey: digest, seed: bytes)
      ensures this.p == p && this.macKey == macKey && written == seed
    {
      this.p, this.macKey, written := p, macKey, seed;
    }

    method Compute(sum: digest, seed: block) returns (mac: block)
      modifies this
      ensures written == Absorb(p, macKey, old(written), sum, seed) && mac == Mac(p, written)
    {
      var encrypted := p.aes(macKey, sum[..16]);
      var buffer := new byte[16](i requires 0 <= i < 16 => encrypted[i]);
      ghost var before := written;
      for i := 0 to 16
        invariant fresh(buffer) && written == before
        invariant forall j :: 0 <= j < 16 ==>
                  buffer[j] == if j < i then XorByte(encrypted[j], seed[j]) else encrypted[j]
      {
        buffer[i] := XorByte(buffer[i], seed[i]);
      }
      assert buffer[..] == Xor(encrypted, seed);
      written := written + buffer[..];
      mac := p.keccak(written)[..16];
    }

    method ComputeHeader(header: block) returns (mac: block)
      modifies this
      ensures written == AfterHeader(p, macKey, old(written), header) && mac == Mac(p, written)
    {
      mac := Compute(p.keccak(written), header);
    }

    method ComputeFrame(frame: bytes) returns (mac: block)
      modifies this
      ensures written == AfterFrame(p, macKey, old(written), frame) && mac == Mac(p, written)
    {
      written := written + frame;
      var seed := p.keccak(written);
      mac := Compute(seed, seed[..16]);
    }
  }

  /** A counter-mode cipher that remembers how much keystream it has used. */
  class CtrState {
    const p: Primitives
    const key: digest
    var pos: nat

    constructor (p: Primitives, key: digest)
      ensures this.p == p && this.key == key && pos == 0
    {
      this.p, this.key, pos := p, key, 0;
    }

    method Process(data: bytes) returns (out: bytes)
      modifies this
      ensures out == Ctr(p, key, old(pos), data) && pos == old(pos) + |data|
    {
      out := Ctr(p, key, pos, data);
      pos := pos + |data|;
    }
  }

  class FrameCipher {
    const p: Primitives
    const secrets: FrameSecrets
    const enc: CtrState
    const dec: CtrState
    const egress: HashMac
    const ingress: HashMac

    ghost predicate Valid() {
      && enc != dec && egress != ingress
      && enc.p == dec.p == egress.p == ingress.p == p
      && enc.key == dec.key == secrets.aesSecret && egress.macKey == ingress.macKey == secrets.macSecret
    }

    function FrameKeys(): Keys {
      Keys(secrets.aesSecret, secrets.macSecret)
    }

    function Outgoing(): Half
      reads enc, egress
    {
      Half(enc.pos, egress.written)
    }

    function Incoming(): Half
      reads dec, ingress
    {
      Half(dec.pos, ingress.written)
    }

    constructor (p: Primitives, secrets: FrameSecrets)
      ensures Valid() && fresh(enc) && fresh(dec) && fresh(egress) && fresh(ingress)
      ensures this.p == p && this.secrets == secrets
      ensures Outgoing() == Half(0, secrets.egressSeed) && Incoming() == Half(0, secrets.ingressSeed)
    {
      this.p, this.secrets := p, secrets;
      enc := new CtrState(p, secrets.aesSecret);
      dec := new CtrState(p, secrets.aesSecret);
      egress := new HashMac(p, secrets.macSecret, secrets.egressSeed);
      ingress := new HashMac(p, secrets.macSecret, secrets.ingressSeed);
    }

    method EncryptFrame(data: bytes) returns (r: Result<bytes, FramingError>)
      requires Valid()
      modifies enc, egress
      ensures r.Ok? <==> 1 <= |data| <= MAX_FRAME
      ensures r.Err? ==> r == Err(InvalidFrameSize) && Outgoing() == old(Outgoing())
      ensures r.Ok? ==> var s := Seal(p, FrameKeys(), old(Outgoing()), data); r == Ok(s.Wire()) && Outgoing() == s.after
    {
      hide Ctr, AfterHeader, AfterFrame, FrameHeader;
      if data == [] || |data| > MAX_FRAME { return Err(InvalidFrameSize); }
      var headerCt := enc.Process(FrameHeader(|data|));
      var headerMac := egress.ComputeHeader(headerCt);
      var frameCt := enc.Process(data + Zeros(PaddingOf(|data|)));
      var frameMac := egress.ComputeFrame(frameCt);
      r := Ok(headerCt + headerMac + frameCt + frameMac);
    }

    method DecryptHeader(headerCt: block, headerMac: block) returns (r: Result<nat, FramingError>)
      requires Valid()
      modifies dec, ingress
      ensures (r, Incoming()) == OpenHeader(p, FrameKeys(), old(Incoming()), headerCt, headerMac)
    {
      hide Ctr, AfterHeader;
      var expected := ingress.ComputeHeader(headerCt);
      if headerMac != expected { return Err(MacMismatch); }
      var header := dec.Process(headerCt);
      var size := HeaderSize(header);
      if size == 0 || size > MAX_FRAME { return Err(InvalidFrameSize); }
      r := Ok(size);
    }

    method DecryptFrameBody(size: nat, frameCt: bytes, frameMac: bytes) returns (r: Result<bytes, FramingError>)
      requires Valid()
      modifies dec, ingress
      ensures (r, Incoming()) == OpenBody(p, FrameKeys(), old(Incoming()), size, frameCt, frameMac)
    {
      hide Ctr, AfterFrame;
      if |frameCt| < size || |frameMac| < 16 { return Err(InvalidFrameSize); }
      var expected := ingress.ComputeFrame(frameCt);
      if frameMac[..16] != expected { return Err(MacMismatch); }
      var frame := dec.Process(frameCt);
      r := Ok(frame[..size]);
    }

    method DecryptFrame(
      headerCt: bytes, headerMac: bytes, frameCt: bytes, frameMac: bytes) returns (r: Result<bytes, FramingError>)
      requires Valid()
      modifies dec, ingress
      ensures (r, Incoming()) == OpenFrame(p, FrameKeys(), old(Incoming()), headerCt, headerMac, frameCt, frameMac)
    {
      hide OpenHeader, OpenBody;
      if |headerCt| < 16 || |headerMac| < 16 || |frameMac| < 16 { return Err(InvalidFrameSize); }
      var size := DecryptHeader(headerCt[..16], headerMac[..16]);
      if size.Err? { return Err(size.error); }
      r := DecryptFrameBody(size.value, frameCt, frameMac);
    }
  }

  // ---------------------------------------------------------------------------------------------
  // Messages
  // ---------------------------------------------------------------------------------------------

  datatype Message = Message(id: byte, payload: bytes)

  datatype SessionError = InvalidMessage | EncryptionError | ConnectionFailed

  /** The frame data of a message: its id as an RLP integer, then the payload, compressed or not. */
  function MessageData(p: Primitives, compressed: bool, m: Message): bytes {
    EncStr(ToBigCompact(m.id))
        + (if m.payload == [] then [] else if compressed then p.compress(m.payload) else m.payload)
  }

  function ParseMessage(p: Primitives, compressed: bool, data: bytes): Result<Message, SessionError> {
    if data == [] then Err(InvalidMessage)
    else
      match ReadUint(data, 8)
      case Err(_) => Err(InvalidMessage)
      case Ok((id, rest)) =>
        if compressed && rest != [] then
          match p.uncompress(rest)
          case None => Err(InvalidMessage)
          case Some(payload) => Ok(Message(id % 256, payload))
        else Ok(Message(id % 256, rest))
  }

  ghost predicate SnappyInverts(p: Primitives) {
    forall x: bytes :: p.uncompress(p.compress(x)) == Some(x) && (x != [] ==> p.compress(x) != [])
  }

  lemma {:induction false} IdEncodes(id: byte)
    ensures EncStr(ToBigCompact(id)) != []
  {}

  lemma {:induction false} ParseInvertsData(p: Primitives, compressed: bool, m: Message)
    requires SnappyInverts(p)
    ensures MessageData(p, compressed, m) != []
    ensures ParseMessage(p, compressed, MessageData(p, compressed, m)) == Ok(m)
  {
    hide ReadUint, EncStr, ToBigCompact, Pow256;
    var rest := if m.payload == [] then [] else if compressed then p.compress(m.payload) else m.payload;
    var data := MessageData(p, compressed, m);
    Pow256Values();
    IdEncodes(m.id);
    ReadUintExact(data, 8, m.id, rest);
  }

  /** What lies behind the id on the wire: the payload, or its compressed form. */
  lemma {:induction false} PayloadOnWire(p: Primitives, compressed: bool, m: Message)
    ensures ParseMessage(p, false, MessageData(p, compressed, m)) ==
            Ok(Message(m.id, if compressed && m.payload != [] then p.compress(m.payload) else m.payload))
  {
    hide ReadUint, EncStr, ToBigCompact, Pow256;
    var rest := if m.payload == [] then [] else if compressed then p.compress(m.payload) else m.payload;
    Pow256Values();
    IdEncodes(m.id);
    ReadUintExact(MessageData(p, compressed, m), 8, m.id, rest);
  }

  /** `send_message` up to the transport: the frame data is at most 2^24 bytes. */
  function SendStep(p: Primitives, k: Keys, compressed: bool, h: Half, m: Message): Result<Sealed, SessionError> {
    var data := MessageData(p, compressed, m);
    if |data| > MAX_FRAME then Err(InvalidMessage) else Ok(Seal(p, k, h, data))
  }

  /** `receive_message`. */
  function ReceiveStep(
    p: Primitives, k: Keys, compressed: bool, h: Half, inbox: bytes): Received<Result<Message, SessionError>> {
    var f := ReceiveFrame(p, k, h, inbox);
    Received(ParseMessage(p, compressed, f.result), f.after, f.inbox)
  }

  /** The stream over a transport: what it has written and what is waiting to be read. */
  class MessageStream {
    const cipher: FrameCipher
    var compression: bool
    var outbox: bytes
    var inbox: bytes

    constructor (cipher: FrameCipher)
      ensures this.cipher == cipher && !compression && outbox == [] && inbox == []
    {
      this.cipher, compression, outbox, inbox := cipher, false, [], [];
    }

    /** `writes` is whether the transport accepts the frame; the cipher has moved on either way. */
    method SendMessage(m: Message, writes: bool) returns (r: Result<(), SessionError>)
      requires cipher.Valid()
      modifies this`outbox, cipher.enc, cipher.egress
      ensures match SendStep(cipher.p, cipher.FrameKeys(), compression, old(cipher.Outgoing()), m)
              case Err(e) => r == Err(e) && outbox == old(outbox) && cipher.Outgoing() == old(cipher.Outgoing())
              case Ok(s) =>
                && cipher.Outgoing() == s.after
                && r == (if writes then Ok(()) else Err(ConnectionFailed))
                && outbox == if writes then old(outbox) + s.Wire() else old(outbox)
    {
      hide Seal, EncStr, ToBigCompact, Pow256;
      Pow256Values();
      var encoder := new RlpEncoder();
      encoder.AddUint(m.id, 1);
      var id := encoder.GetBytes();
      assert id == Ok(EncStr(ToBigCompact(m.id))) by {
        assert [] + EncStr(ToBigCompact(m.id)) == EncStr(ToBigCompact(m.id));
      }
      var payload := if m.payload == [] then [] else if compression then cipher.p.compress(m.payload) else m.payload;
      var data := id.value + payload;
      if |data| > MAX_FRAME { return Err(InvalidMessage); }
      IdEncodes(m.id);
      var frame := cipher.EncryptFrame(data);
      assert frame.Ok?;
      if !writes { return Err(ConnectionFailed); }
      outbox := outbox + frame.value;
      r := Ok(());
    }

    /** `read_exact`, which fails when the peer has sent too little. */
    method ReadExact(n: nat) returns (r: Option<bytes>)
      modifies this`inbox
      ensures r == if n <= |old(inbox)| then Some(old(inbox)[..n]) else None
      ensures inbox == if n <= |old(inbox)| then old(inbox)[n..] else old(inbox)
    {
      if |inbox| < n { return None; }
      r := Some(inbox[..n]);
      inbox := inbox[n..];
    }

    method ReceiveFrameData() returns (data: bytes)
      requires cipher.Valid()
      modifies this`inbox, cipher.dec, cipher.ingress
      ensures ReceiveFrame(cipher.p, cipher.FrameKeys(), old(cipher.Incoming()), old(inbox))
              == Received(data, cipher.Incoming(), inbox)
    {
      hide OpenHeader, OpenBody;
      var header := ReadExact(32);
      if header.None? { return []; }
      assert header.value[..16] == old(inbox)[..16] && header.value[16..] == old(inbox)[16..32];
      var size := cipher.DecryptHeader(header.value[..16], header.value[16..]);
      if size.Err? { return []; }
      var padded := size.value + PaddingOf(size.value);
      ghost var rest := inbox;
      var body := ReadExact(padded + 16);
      if body.None? { return []; }
      assert body.value[..padded] == rest[..padded] && body.value[padded..] == rest[padded..padded + 16];
      var out := cipher.DecryptFrameBody(size.value, body.value[..padded], body.value[padded..]);
      data := if out.Ok? then out.value else [];
    }

    method ReceiveMessage() returns (r: Result<Message, SessionError>)
      requires cipher.Valid()
      modifies this`inbox, cipher.dec, cipher.ingress
      ensures ReceiveStep(cipher.p, cipher.FrameKeys(), compression, old(cipher.Incoming()), old(inbox))
              == Received(r, cipher.Incoming(), inbox)
    {
      hide ReceiveFrame, ReadUint;
      var data := ReceiveFrameData();
      if data == [] { return Err(InvalidMessage); }
      var decoder := new RlpDecoder(data);
      var id := decoder.ReadIntegral(8);
      if id.Err? { return Err(InvalidMessage); }
      var rest := decoder.view;
      if compression && rest != [] {
        var payload := cipher.p.uncompress(rest);
        if payload.None? { return Err(InvalidMessage); }
        return Ok(Message(id.value % 256, payload.value));
      }
      r := Ok(Message(id.value % 256, rest));
    }
  }
}
