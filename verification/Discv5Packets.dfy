/** The packet codec of Node Discovery v5.1: a masked header in front of an encrypted message. */
module Discv5Packets {
  import opened Bytes
  import opened RlpxCrypto

  /** The key stream of a masking key and an IV. */
  type Masking = (block, block) -> (nat -> byte)

  type nonce12 = s: bytes | |s| == 12 witness [0, 0, 0, 0, 0, 0, 0, 0, 0, 0, 0, 0]

  const PROTOCOL_ID: bytes := [0x64, 0x69, 0x73, 0x63, 0x76, 0x35]
  const VERSION: nat := 1
  const IV_SIZE: nat := 16
  const STATIC_HEADER: nat := 23
  const STATIC_PACKET: nat := 39

  const FLAG_MESSAGE: byte := 0
  const FLAG_WHOAREYOU: byte := 1
  const FLAG_HANDSHAKE: byte := 2

  datatype Discv5Error = ReceiveFailed | SendFailed | CryptoFailed

  datatype Packet = Packet(flag: byte, nonce: nonce12, header: bytes, auth: bytes, message: bytes)

  function U16(n: nat): bytes {
    [n / 256 % 256, n % 256]
  }

  function ReadU16(s: bytes, at: nat): nat
    requires at + 2 <= |s|
  {
    (s[at] as int) * 256 + s[at + 1]
  }

  /** Identifier, version, flag, nonce and the size of the auth data, truncated to two bytes. */
  function StaticHeader(flag: byte, nonce: nonce12, authSize: nat): (h: bytes)
    ensures |h| == STATIC_HEADER
  {
    PROTOCOL_ID + U16(VERSION) + [flag] + nonce + U16(authSize)
  }

  /** The unmasked header, which is also what a challenge consists of. */
  function HeaderOf(iv: block, flag: byte, nonce: nonce12, auth: bytes): bytes {
    iv + StaticHeader(flag, nonce, |auth|) + auth
  }

  /** `encode_packet`: everything between the IV and the message is masked for the destination. */
  function EncodePacket(
    mask: Masking, iv: block, flag: byte, nonce: nonce12, auth: bytes, message: bytes, destination: digest): bytes {
    iv + XorStream(mask(destination[..16], iv), 0, StaticHeader(flag, nonce, |auth|) + auth) + message
  }

  /** `decode_packet`. */
  function DecodePacket(mask: Masking, data: bytes, local: digest): Result<Packet, Discv5Error> {
    if |data| < STATIC_PACKET then Err(ReceiveFailed)
    else
      var iv := data[..IV_SIZE];
      var stream := mask(local[..16], iv);
      var header := XorStream(stream, 0, data[IV_SIZE..STATIC_PACKET]);
      if header[..6] != PROTOCOL_ID || ReadU16(header, 6) < VERSION then Err(ReceiveFailed)
      else
        var end := STATIC_PACKET + ReadU16(header, 21);
        if end > |data| then Err(ReceiveFailed)
        else
          var auth := XorStream(stream, STATIC_HEADER, data[STATIC_PACKET..end]);
          Ok(Packet(header[8], header[9..21], iv + header + auth, auth, data[end..]))
  }

  lemma {:induction false} StaticHeaderParts(flag: byte, nonce: nonce12, authSize: nat)
    ensures var h := StaticHeader(flag, nonce, authSize);
            && h[..6] == PROTOCOL_ID && ReadU16(h, 6) == VERSION && h[8] == flag && h[9..21] == nonce
            && ReadU16(h, 21) == authSize % 0x1_0000
  {
    var h := StaticHeader(flag, nonce, authSize);
    assert h[6] == 0 && h[7] == 1;
    assert h[21] == authSize / 256 % 256 && h[22] == authSize % 256;
  }

  /** Where the parts of an encoded packet lie, and what unmasking the first n bytes of auth data gives. */
  lemma {:induction false} EncodedParts(
    mask: Masking, iv: block, flag: byte, nonce: nonce12, auth: bytes, message: bytes, destination: digest, n: nat)
    requires n <= |auth|
    ensures var data := EncodePacket(mask, iv, flag, nonce, auth, message, destination);
            var stream := mask(destination[..16], iv);
            && |data| == STATIC_PACKET + |auth| + |message| && data[..IV_SIZE] == iv
            && XorStream(stream, 0, data[IV_SIZE..STATIC_PACKET]) == StaticHeader(flag, nonce, |auth|)
            && XorStream(stream, STATIC_HEADER, data[STATIC_PACKET..STATIC_PACKET + n]) == auth[..n]
            && (n == |auth| ==> data[STATIC_PACKET + n..] == message)
  {
    hide XorStream, StaticHeader;
    var stream := mask(destination[..16], iv);
    var h := StaticHeader(flag, nonce, |auth|);
    var front, back := auth[..n], auth[n..];
    assert h + auth == h + front + back by { assert front + back == auth; }
    XorStreamConcat(stream, 0, h + front, back);
    XorStreamConcat(stream, 0, h, front);
    var x, y, z := XorStream(stream, 0, h), XorStream(stream, STATIC_HEADER, front),
        XorStream(stream, STATIC_HEADER + n, back);
    var data := EncodePacket(mask, iv, flag, nonce, auth, message, destination);
    assert data == iv + x + y + z + message;
    assert data[IV_SIZE..STATIC_PACKET] == x && data[STATIC_PACKET..STATIC_PACKET + n] == y;
    XorStreamInverse(stream, 0, h);
    XorStreamInverse(stream, STATIC_HEADER, front);
  }

  /** Decoding inverts encoding exactly when the size of the auth data fits its two bytes. */
  lemma {:induction false} DecodeInvertsEncode(
    mask: Masking, iv: block, flag: byte, nonce: nonce12, auth: bytes, message: bytes, destination: digest)
    ensures DecodePacket(mask, EncodePacket(mask, iv, flag, nonce, auth, message, destination), destination)
         == Ok(Packet(flag, nonce, HeaderOf(iv, flag, nonce, auth), auth, message))
       <==> |auth| < 0x1_0000
  {
    hide XorStream, StaticHeader, EncodePacket;
    StaticHeaderParts(flag, nonce, |auth|);
    var n := |auth| % 0x1_0000;
    EncodedParts(mask, iv, flag, nonce, auth, message, destination, n);
    assert n == |auth| ==> auth[..n] == auth;
  }

  // ---------------------------------------------------------------------------------------------
  // The auth data of a handshake packet
  // ---------------------------------------------------------------------------------------------

  const HANDSHAKE_FIXED: nat := 34

  datatype HandshakeAuth = HandshakeAuth(source: digest, signature: bytes, ephemeral: bytes, record: bytes)

  function HandshakeAuthData(a: HandshakeAuth): bytes {
    a.source + [|a.signature| % 256, |a.ephemeral| % 256] + a.signature + a.ephemeral + a.record
  }

  /** `parse_handshake_auth`. */
  function ParseHandshakeAuth(auth: bytes): Result<HandshakeAuth, Discv5Error> {
    if |auth| < HANDSHAKE_FIXED then Err(ReceiveFailed)
    else
      var keyAt := HANDSHAKE_FIXED + auth[32] as int;
      var recordAt := keyAt + auth[33];
      if recordAt > |auth| then Err(ReceiveFailed)
      else Ok(HandshakeAuth(auth[..32], auth[HANDSHAKE_FIXED..keyAt], auth[keyAt..recordAt], auth[recordAt..]))
  }

  /** Source address, the two sizes, signature, ephemeral key, and the record to the end. */
  lemma {:induction false} AuthDataParts(a: HandshakeAuth)
    ensures var auth, i := HandshakeAuthData(a), 34 + |a.signature|;
            && |auth| == i + |a.ephemeral| + |a.record|
            && auth[..32] == a.source && auth[32] == |a.signature| % 256 && auth[33] == |a.ephemeral| % 256
            && auth[34..i] == a.signature && auth[i..i + |a.ephemeral|] == a.ephemeral
            && auth[i + |a.ephemeral|..] == a.record
  {
    var auth := HandshakeAuthData(a);
    var sizes: bytes := [|a.signature| % 256, |a.ephemeral| % 256];
    var tail := a.signature + (a.ephemeral + a.record);
    assert auth == a.source + (sizes + tail);
    assert auth[34..] == tail;
    var i, j := |a.signature|, |a.signature| + |a.ephemeral|;
    assert tail[..i] == a.signature && tail[i..j] == a.ephemeral && tail[j..] == a.record;
    assert auth[34..34 + i] == tail[..i] && auth[34 + i..34 + j] == tail[i..j] && auth[34 + j..] == tail[j..];
  }

  /** The two one-byte sizes are enough for what a handshake carries. */
  lemma {:induction false} ParseInvertsAuthData(a: HandshakeAuth)
    ensures ParseHandshakeAuth(HandshakeAuthData(a)) == Ok(a) <==> |a.signature| < 256 && |a.ephemeral| < 256
  {
    hide HandshakeAuthData;
    AuthDataParts(a);
  }
}
