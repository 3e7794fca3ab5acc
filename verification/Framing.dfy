/** What one direction of an RLPx connection does, as functions of its key stream position and MAC transcript. */
module Framing {
  import opened Bytes
  import opened RlpFormat
  import opened RlpxCrypto

  const MAX_FRAME: nat := 0x100_0000
  const LENGTH_LIMIT: nat := 0x100_0000

  datatype FramingError = InvalidFrameSize | MacMismatch

  datatype Keys = Keys(aes: digest, mac: digest)

  /** One direction as either end sees it: how much keystream is used and what the MAC hash has absorbed. */
  datatype Half = Half(pos: nat, written: bytes)

  /** `HashMAC::compute`: absorb a block, and the MAC is the front of the hash. */
  function Absorb(p: Primitives, key: digest, written: bytes, sum: digest, seed: block): bytes {
    written + Xor(p.aes(key, sum[..16]), seed)
  }

  function Mac(p: Primitives, written: bytes): block {
    p.keccak(written)[..16]
  }

  /** The transcript after `compute_header` and after `compute_frame`. */
  function AfterHeader(p: Primitives, key: digest, written: bytes, header: block): bytes {
    Absorb(p, key, written, p.keccak(written), header)
  }

  function AfterFrame(p: Primitives, key: digest, written: bytes, frame: bytes): bytes {
    var sum := p.keccak(written + frame);
    Absorb(p, key, written + frame, sum, sum[..16])
  }

  function PaddingOf(size: nat): nat {
    if size % 16 != 0 then 16 - size % 16 else 0
  }

  /** Padded data fills whole blocks, and no fewer blocks would hold it. */
  lemma {:induction false} PaddedIsLeast(size: nat, whole: nat)
    ensures (size + PaddingOf(size)) % 16 == 0
    ensures size <= whole && whole % 16 == 0 ==> size + PaddingOf(size) <= whole
  {
    if size <= whole && whole % 16 == 0 && size % 16 != 0 {
      assert size / 16 < whole / 16;
    }
  }

  function Zeros(n: nat): (z: bytes)
    ensures |z| == n
  {
    seq(n, i => 0)
  }

  /** Three length bytes, the fixed header data, zeros. The length field holds the size modulo 2^24. */
  function FrameHeader(size: nat): block {
    [size / 0x1_0000 % 256, size / 0x100 % 256, size % 256, 0xC2, 0x80, 0x80, 0, 0, 0, 0, 0, 0, 0, 0, 0, 0]
  }

  function HeaderSize(header: block): nat {
    (header[0] as int) * 0x1_0000 + (header[1] as int) * 0x100 + header[2]
  }

  lemma {:induction false} BigOfThree(s: bytes)
    requires |s| == 3
    ensures FromBig(s) == (s[0] as int) * 0x1_0000 + (s[1] as int) * 0x100 + s[2]
  {
    var two, one := s[..2], s[..1];
    assert two[..1] == one && one[..0] == [];
    assert FromBig(one) == FromBig([]) * 256 + s[0];
    assert FromBig(two) == FromBig(one) * 256 + s[1];
  }

  lemma {:induction false} ThreeBytes(size: nat)
    ensures size / 0x1_0000 % 256 * 0x1_0000 + size / 0x100 % 256 * 0x100 + size % 256 == size % LENGTH_LIMIT
  {
    var low, middle := size % 256, size / 0x100;
    assert size / 0x1_0000 == middle / 0x100;
    assert middle == middle / 0x100 * 0x100 + middle % 0x100;
  }

  lemma {:induction false} EmptyPair()
    ensures Enc(List([Str([]), Str([])])) == [0xC2, 0x80, 0x80]
  {
    var empty := Str([]);
    assert Enc(empty) == [0x80];
    EncAllCons(empty, [empty]);
    EncAllOne(empty);
    assert [empty] + [empty] == [empty, empty];
    assert EncAll([empty, empty]) == [0x80, 0x80];
  }

  /** The size in big-endian order, an RLP list of two empty strings, and zeros to the end of the block. */
  lemma {:induction false} FrameHeaderLayout(size: nat)
    ensures var header := FrameHeader(size);
            && FromBig(header[..3]) == size % LENGTH_LIMIT
            && header[3..6] == Enc(List([Str([]), Str([])]))
            && forall i :: 6 <= i < 16 ==> header[i] == 0
  {
    hide FromBig, Enc;
    var header := FrameHeader(size);
    BigOfThree(header[..3]);
    ThreeBytes(size);
    EmptyPair();
    assert header[3..6] == [0xC2, 0x80, 0x80];
  }

  lemma HeaderSizeRoundTrip(size: nat)
    requires size <= MAX_FRAME
    ensures HeaderSize(FrameHeader(size)) == if size == MAX_FRAME then 0 else size
  {}

  // ---------------------------------------------------------------------------------------------
  // Sealing
  // ---------------------------------------------------------------------------------------------

  /** A frame on the wire and the sender's state after it. */
  datatype Sealed = Sealed(headerCt: block, headerMac: block, frameCt: bytes, frameMac: block, after: Half) {
    function Wire(): bytes {
      headerCt + headerMac + frameCt + frameMac
    }
  }

  /** `encrypt_frame` for data of an accepted size. */
  function Seal(p: Primitives, k: Keys, h: Half, data: bytes): Sealed {
    var rsize := |data| + PaddingOf(|data|);
    var headerCt := Ctr(p, k.aes, h.pos, FrameHeader(|data|));
    var w1 := AfterHeader(p, k.mac, h.written, headerCt);
    var frameCt := Ctr(p, k.aes, h.pos + 16, data + Zeros(PaddingOf(|data|)));
    var w2 := AfterFrame(p, k.mac, w1, frameCt);
    Sealed(headerCt, Mac(p, w1), frameCt, Mac(p, w2), Half(h.pos + 16 + rsize, w2))
  }

  // ---------------------------------------------------------------------------------------------
  // Opening
  // ---------------------------------------------------------------------------------------------

  /** `decrypt_header`: the transcript moves on even when the MAC is wrong. */
  function OpenHeader(
    p: Primitives, k: Keys, h: Half, headerCt: block, headerMac: block): (Result<nat, FramingError>, Half) {
    var w := AfterHeader(p, k.mac, h.written, headerCt);
    if headerMac != Mac(p, w) then (Err(MacMismatch), Half(h.pos, w))
    else
      var size := HeaderSize(Ctr(p, k.aes, h.pos, headerCt));
      (if size == 0 || size > MAX_FRAME then Err(InvalidFrameSize) else Ok(size), Half(h.pos + 16, w))
  }

  /** `decrypt_frame_body`. */
  function OpenBody(
    p: Primitives, k: Keys, h: Half, size: nat, frameCt: bytes, frameMac: bytes): (Result<bytes, FramingError>, Half) {
    if |frameCt| < size || |frameMac| < 16 then (Err(InvalidFrameSize), h)
    else
      var w := AfterFrame(p, k.mac, h.written, frameCt);
      if frameMac[..16] != Mac(p, w) then (Err(MacMismatch), Half(h.pos, w))
      else (Ok(Ctr(p, k.aes, h.pos, frameCt)[..size]), Half(h.pos + |frameCt|, w))
  }

  /** `decrypt_frame`: header and body in one call. */
  function OpenFrame(
    p: Primitives, k: Keys, h: Half, headerCt: bytes, headerMac: bytes, frameCt: bytes, frameMac: bytes)
    : (Result<bytes, FramingError>, Half)
  {
    if |headerCt| < 16 || |headerMac| < 16 || |frameMac| < 16 then (Err(InvalidFrameSize), h)
    else
      var (size, h1) := OpenHeader(p, k, h, headerCt[..16], headerMac[..16]);
      if size.Err? then (Err(size.error), h1) else OpenBody(p, k, h1, size.value, frameCt, frameMac)
  }

  /** The receiver's header step on a sealed frame, from the sender's state. */
  lemma {:induction false} HeaderOpens(p: Primitives, k: Keys, h: Half, data: bytes)
    requires 1 <= |data| <= MAX_FRAME
    ensures var s := Seal(p, k, h, data);
            OpenHeader(p, k, h, s.headerCt, s.headerMac) ==
            (if |data| < LENGTH_LIMIT then Ok(|data|) else Err(InvalidFrameSize),
             Half(h.pos + 16, AfterHeader(p, k.mac, h.written, s.headerCt)))
  {
    hide FrameHeader, XorStream;
    XorStreamInverse(p.keystream(k.aes), h.pos, FrameHeader(|data|));
    HeaderSizeRoundTrip(|data|);
  }

  lemma {:induction false} BodyOpens(p: Primitives, k: Keys, h: Half, data: bytes)
    requires 1 <= |data| <= MAX_FRAME
    ensures var s := Seal(p, k, h, data);
            OpenBody(p, k, Half(h.pos + 16, AfterHeader(p, k.mac, h.written, s.headerCt)), |data|, s.frameCt,
                s.frameMac) == (Ok(data), s.after)
  {
    var padded := data + Zeros(PaddingOf(|data|));
    XorStreamInverse(p.keystream(k.aes), h.pos + 16, padded);
    assert padded[..|data|] == data;
  }

  /** A sealed header with any other MAC is refused. */
  lemma {:induction false} HeaderMacRefused(p: Primitives, k: Keys, h: Half, data: bytes, mac: block)
    requires mac != Seal(p, k, h, data).headerMac
    ensures OpenHeader(p, k, h, Seal(p, k, h, data).headerCt, mac).0 == Err(MacMismatch)
  {}

  /** A sealed body with any other MAC is refused, whatever size it is opened for. */
  lemma {:induction false} FrameMacRefused(p: Primitives, k: Keys, h: Half, data: bytes, size: nat, mac: block)
    requires mac != Seal(p, k, h, data).frameMac && size <= |Seal(p, k, h, data).frameCt|
    ensures var s := Seal(p, k, h, data);
            OpenBody(p, k, Half(h.pos + 16, AfterHeader(p, k.mac, h.written, s.headerCt)), size, s.frameCt, mac).0
            == Err(MacMismatch)
  {
    hide AfterFrame, AfterHeader, Ctr, FrameHeader;
    assert mac[..16] == mac;
  }

  /** Whatever opens comes with the front of the hash of a transcript that ends in its own ciphertext and one block. */
  lemma {:induction false} OpenedIsHashed(
    p: Primitives, k: Keys, h: Half, size: nat, frameCt: bytes, frameMac: bytes) returns (last: block)
    requires OpenBody(p, k, h, size, frameCt, frameMac).0.Ok?
    ensures |frameMac| >= 16 && frameMac[..16] == p.keccak(h.written + frameCt + last)[..16]
  {
    var sum := p.keccak(h.written + frameCt);
    last := Xor(p.aes(k.mac, sum[..16]), sum[..16]);
  }

  /**
   The two MACs in terms of the primitives alone: the header's ciphertext is mixed with an encrypted hash of the
   transcript, the body's ciphertext is hashed into it first and mixed with the hash itself.
   */
  lemma {:induction false} MacFormula(p: Primitives, k: Keys, h: Half, data: bytes)
    ensures var s := Seal(p, k, h, data);
            var w1 := h.written + Xor(p.aes(k.mac, p.keccak(h.written)[..16]), s.headerCt);
            var seed := p.keccak(w1 + s.frameCt)[..16];
            var w2 := w1 + s.frameCt + Xor(p.aes(k.mac, seed), seed);
            && s.headerMac == p.keccak(w1)[..16] && s.frameMac == p.keccak(w2)[..16] && s.after.written == w2
  {}

  lemma {:induction false} SealMoves(p: Primitives, k: Keys, h: Half, data: bytes)
    requires 1 <= |data|
    ensures var s := Seal(p, k, h, data);
            && s.after.pos == h.pos + 16 + |data| + PaddingOf(|data|)
            && |s.frameCt| == |data| + PaddingOf(|data|)
            && |s.Wire()| == 48 + |data| + PaddingOf(|data|)
  {}

  /**
   Opening what was sealed from the same state gives the data back and leaves both ends in the same state,
   exactly when the length fits its three bytes; a frame of 2^24 bytes is sealed but never opened.
   */
  lemma {:induction false} OpenInvertsSeal(p: Primitives, k: Keys, h: Half, data: bytes)
    requires 1 <= |data| <= MAX_FRAME
    ensures var s := Seal(p, k, h, data);
            var opening := OpenFrame(p, k, h, s.headerCt, s.headerMac, s.frameCt, s.frameMac);
            && (opening.0 == Ok(data) <==> |data| < LENGTH_LIMIT)
            && (|data| < LENGTH_LIMIT ==> opening.1 == s.after)
            && (|data| == LENGTH_LIMIT ==> opening.0 == Err(InvalidFrameSize) && opening.1 != s.after)
  {
    hide Seal, OpenHeader, OpenBody;
    var s := Seal(p, k, h, data);
    assert s.headerCt[..16] == s.headerCt && s.headerMac[..16] == s.headerMac;
    HeaderOpens(p, k, h, data);
    BodyOpens(p, k, h, data);
    SealMoves(p, k, h, data);
  }

  // ---------------------------------------------------------------------------------------------
  // A frame from a byte stream
  // ---------------------------------------------------------------------------------------------

  datatype Received<T> = Received(result: T, after: Half, inbox: bytes)

  /** `receive_frame`: every failure, a short read included, comes out as an empty frame. */
  function ReceiveFrame(p: Primitives, k: Keys, h: Half, inbox: bytes): Received<bytes> {
    if |inbox| < 32 then Received([], h, inbox)
    else
      var (size, h1) := OpenHeader(p, k, h, inbox[..16], inbox[16..32]);
      var rest := inbox[32..];
      if size.Err? then Received([], h1, rest)
      else
        var padded := size.value + PaddingOf(size.value);
        if |rest| < padded + 16 then Received([], h1, rest)
        else
          var (data, h2) := OpenBody(p, k, h1, size.value, rest[..padded], rest[padded..padded + 16]);
          Received(if data.Ok? then data.value else [], h2, rest[padded + 16..])
  }

  lemma {:induction false} WireParts(s: Sealed, rest: bytes)
    ensures var w := s.Wire() + rest;
            var n := |s.frameCt|;
            && |w| == 48 + n + |rest|
            && w[..16] == s.headerCt && w[16..32] == s.headerMac
            && w[32..][..n] == s.frameCt && w[32..][n..n + 16] == s.frameMac && w[32..][n + 16..] == rest
  {
    var w := s.Wire() + rest;
    var tail := s.frameCt + s.frameMac + rest;
    assert w == s.headerCt + s.headerMac + tail;
    assert w[32..] == tail;
  }

  /** A sealed frame at the front of the stream is received whole, and nothing behind it is touched. */
  lemma {:induction false} ReceiveInvertsSeal(p: Primitives, k: Keys, h: Half, data: bytes, rest: bytes)
    requires 1 <= |data| < LENGTH_LIMIT
    ensures ReceiveFrame(p, k, h, Seal(p, k, h, data).Wire() + rest) == Received(data, Seal(p, k, h, data).after, rest)
  {
    hide Seal, OpenHeader, OpenBody;
    var s := Seal(p, k, h, data);
    HeaderOpens(p, k, h, data);
    BodyOpens(p, k, h, data);
    SealMoves(p, k, h, data);
    WireParts(s, rest);
  }
}
