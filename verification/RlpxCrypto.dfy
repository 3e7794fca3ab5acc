/** The foreign primitives that RLPx rests on, as parameters, and the byte-wise exclusive or. */
module RlpxCrypto {
  import opened Arith
  import opened Bytes

  type block = s: bytes | |s| == 16 witness [0, 0, 0, 0, 0, 0, 0, 0, 0, 0, 0, 0, 0, 0, 0, 0]
  type digest = s: bytes | |s| == 32
    witness [0, 0, 0, 0, 0, 0, 0, 0, 0, 0, 0, 0, 0, 0, 0, 0, 0, 0, 0, 0, 0, 0, 0, 0, 0, 0, 0, 0, 0, 0, 0, 0]

  /**
   Keccak-256, one AES-256 block, the AES-256-CTR keystream byte at a position, Snappy both ways and the
   shared secret of a public and a private key.
   */
  datatype Primitives = Primitives(
    keccak: bytes -> digest,
    aes: (digest, block) -> block,
    keystream: digest -> (nat -> byte),
    compress: bytes -> bytes,
    uncompress: bytes -> Option<bytes>,
    ecdh: (bytes, bytes) -> Option<bytes>)

  /** Exclusive or of the low n bits. */
  function XorBits(a: nat, b: nat, n: nat): nat {
    if n == 0 then 0 else 2 * XorBits(a / 2, b / 2, n - 1) + (a + b) % 2
  }

  lemma LowBit(a: nat, b: nat, q: nat)
    ensures var x := 2 * q + (a + b) % 2; x / 2 == q && (x + b) % 2 == a % 2
  {
    var x := 2 * q + (a + b) % 2;
    assert (x + b) % 2 == ((a + b) % 2 + b) % 2;
    assert a == a / 2 * 2 + a % 2 && b == b / 2 * 2 + b % 2;
  }

  lemma {:induction false} XorBitsInverse(a: nat, b: nat, n: nat)
    requires a < Pow2(n)
    ensures XorBits(a, b, n) < Pow2(n) && XorBits(XorBits(a, b, n), b, n) == a
  {
    if n > 0 {
      XorBitsInverse(a / 2, b / 2, n - 1);
      LowBit(a, b, XorBits(a / 2, b / 2, n - 1));
    }
  }

  function XorByte(a: byte, b: byte): byte {
    Pow2At64();
    XorBitsInverse(a, b, 8);
    XorBits(a, b, 8)
  }

  lemma {:induction false} XorByteInverse(a: byte, b: byte)
    ensures XorByte(XorByte(a, b), b) == a
  {
    Pow2At64();
    XorBitsInverse(a, b, 8);
  }

  function Xor(a: bytes, b: bytes): (r: bytes)
    requires |a| == |b|
    ensures |r| == |a|
  {
    seq(|a|, i requires 0 <= i < |a| => XorByte(a[i], b[i]))
  }

  lemma {:induction false} XorBitsCommutes(a: nat, b: nat, n: nat)
    ensures XorBits(a, b, n) == XorBits(b, a, n)
  {
    if n > 0 { XorBitsCommutes(a / 2, b / 2, n - 1); }
  }

  /** A mask taken off leaves what was masked. */
  lemma {:induction false} XorUnmasks(mask: bytes, s: bytes)
    requires |mask| == |s|
    ensures Xor(Xor(mask, s), mask) == s
  {
    hide XorBits;
    forall i | 0 <= i < |s| ensures XorByte(XorByte(mask[i], s[i]), mask[i]) == s[i] {
      XorBitsCommutes(mask[i], s[i], 8);
      XorByteInverse(s[i], mask[i]);
    }
  }

  /** Data against a key stream from position `pos` on. */
  function XorStream(stream: nat -> byte, pos: nat, data: bytes): (r: bytes)
    ensures |r| == |data|
  {
    seq(|data|, i requires 0 <= i < |data| => XorByte(data[i], stream(pos + i)))
  }

  /** A key stream undoes itself at the same position. */
  lemma {:induction false} XorStreamInverse(stream: nat -> byte, pos: nat, data: bytes)
    ensures XorStream(stream, pos, XorStream(stream, pos, data)) == data
  {
    hide XorByte;
    var back := XorStream(stream, pos, XorStream(stream, pos, data));
    forall i | 0 <= i < |data| ensures back[i] == data[i] {
      XorByteInverse(data[i], stream(pos + i));
    }
  }

  /** A stream can be applied piece by piece. */
  lemma {:induction false} XorStreamConcat(stream: nat -> byte, pos: nat, a: bytes, b: bytes)
    ensures XorStream(stream, pos, a + b) == XorStream(stream, pos, a) + XorStream(stream, pos + |a|, b)
  {
    hide XorByte;
    var whole, x, y := XorStream(stream, pos, a + b), XorStream(stream, pos, a), XorStream(stream, pos + |a|, b);
    forall i | 0 <= i < |a + b| ensures whole[i] == (x + y)[i] {
      assert i >= |a| ==> pos + i == pos + |a| + (i - |a|);
    }
  }

  /** Counter mode from position `pos` of the keystream. */
  function Ctr(p: Primitives, key: digest, pos: nat, data: bytes): (r: bytes)
    ensures |r| == |data|
  {
    XorStream(p.keystream(key), pos, data)
  }

  // ---------------------------------------------------------------------------------------------
  // Secrets
  // ---------------------------------------------------------------------------------------------

  datatype KeyMaterial = KeyMaterial(
    peerEphemeralPublic: bytes, localEphemeralPrivate: bytes,
    initiatorNonce: digest, recipientNonce: digest,
    authMessage: bytes, ackMessage: bytes)

  datatype FrameSecrets = FrameSecrets(aesSecret: digest, macSecret: digest, egressSeed: bytes, ingressSeed: bytes)

  const ZEROS: digest :=
      [0, 0, 0, 0, 0, 0, 0, 0, 0, 0, 0, 0, 0, 0, 0, 0, 0, 0, 0, 0, 0, 0, 0, 0, 0, 0, 0, 0, 0, 0, 0, 0]

  /** `derive_frame_secrets`; a failed key agreement leaves the secrets blank. */
  function DeriveFrameSecrets(p: Primitives, keys: KeyMaterial, initiator: bool): FrameSecrets {
    match p.ecdh(keys.peerEphemeralPublic, keys.localEphemeralPrivate)
    case None => FrameSecrets(ZEROS, ZEROS, [], [])
    case Some(ecdhe) =>
      var nonceHash := p.keccak(keys.recipientNonce + keys.initiatorNonce);
      var shared := p.keccak(ecdhe + nonceHash);
      var aes := p.keccak(ecdhe + shared);
      var mac := p.keccak(ecdhe + aes);
      var fromInitiator := Xor(mac, keys.recipientNonce) + keys.authMessage;
      var fromRecipient := Xor(mac, keys.initiatorNonce) + keys.ackMessage;
      if initiator then FrameSecrets(aes, mac, fromInitiator, fromRecipient)
      else FrameSecrets(aes, mac, fromRecipient, fromInitiator)
  }

  /**
   What a seed begins with, unmasked by the MAC secret, is the other side's nonce, and what follows is the message
   that the seed's direction was opened with.
   */
  lemma {:induction false} SeedsHoldNonces(p: Primitives, keys: KeyMaterial, initiator: bool)
    requires p.ecdh(keys.peerEphemeralPublic, keys.localEphemeralPrivate).Some?
    ensures var s := DeriveFrameSecrets(p, keys, initiator);
            var (fromInitiator, fromRecipient) :=
              if initiator then (s.egressSeed, s.ingressSeed) else (s.ingressSeed, s.egressSeed);
            && |fromInitiator| >= 32 && |fromRecipient| >= 32
            && Xor(fromInitiator[..32], s.macSecret) == keys.recipientNonce
            && fromInitiator[32..] == keys.authMessage
            && Xor(fromRecipient[..32], s.macSecret) == keys.initiatorNonce
            && fromRecipient[32..] == keys.ackMessage
  {
    var s := DeriveFrameSecrets(p, keys, initiator);
    XorUnmasks(s.macSecret, keys.recipientNonce);
    XorUnmasks(s.macSecret, keys.initiatorNonce);
    var x, y := Xor(s.macSecret, keys.recipientNonce), Xor(s.macSecret, keys.initiatorNonce);
    assert (x + keys.authMessage)[..32] == x && (y + keys.ackMessage)[..32] == y;
  }

  /** The two keys in terms of the shared secret, the nonces and the hash alone. */
  lemma {:induction false} KeyFormula(p: Primitives, keys: KeyMaterial, initiator: bool)
    requires p.ecdh(keys.peerEphemeralPublic, keys.localEphemeralPrivate).Some?
    ensures var s := DeriveFrameSecrets(p, keys, initiator);
            var secret := p.ecdh(keys.peerEphemeralPublic, keys.localEphemeralPrivate).value;
            && s.aesSecret == p.keccak(secret + p.keccak(secret + p.keccak(keys.recipientNonce + keys.initiatorNonce)))
            && s.macSecret == p.keccak(secret + s.aesSecret)
  {}

  /** One end's egress is the other end's ingress, under the same keys. */
  predicate Mirrored(a: FrameSecrets, b: FrameSecrets) {
    && a.aesSecret == b.aesSecret && a.macSecret == b.macSecret
    && a.egressSeed == b.ingressSeed && a.ingressSeed == b.egressSeed
  }

  /** Both ends of a handshake hold the same nonces and wire messages, and key agreement commutes. */
  predicate SameHandshake(p: Primitives, a: KeyMaterial, b: KeyMaterial) {
    && a.initiatorNonce == b.initiatorNonce && a.recipientNonce == b.recipientNonce
    && a.authMessage == b.authMessage && a.ackMessage == b.ackMessage
    && p.ecdh(a.peerEphemeralPublic, a.localEphemeralPrivate) == p.ecdh(b.peerEphemeralPublic, b.localEphemeralPrivate)
  }

  lemma HandshakeMirrors(p: Primitives, a: KeyMaterial, b: KeyMaterial)
    requires SameHandshake(p, a, b)
    ensures Mirrored(DeriveFrameSecrets(p, a, true), DeriveFrameSecrets(p, b, false))
  {}
}
