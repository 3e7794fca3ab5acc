/** What a receiver accepts when somebody else decides which bytes arrive. */
module FramingForgery {
  import opened Bytes
  import opened RlpxCrypto
  import opened Framing
  import opened FrameCipher
  import opened FramingRuns

  function DataOf(p: Primitives, m: Sent): bytes {
    MessageData(p, m.compressed, m.message)
  }

  /** The transcripts that the sender made MACs of. */
  function Maced(p: Primitives, k: Keys, h: Half, ms: seq<Sent>): set<bytes>
    decreases |ms|
  {
    if ms == [] then {}
    else
      var s := Seal(p, k, h, DataOf(p, ms[0]));
      {AfterHeader(p, k.mac, h.written, s.headerCt), s.after.written} + Maced(p, k, s.after, ms[1..])
  }

  predicate ForgedBody(p: Primitives, k: Keys, maced: set<bytes>, w: bytes, body: bytes, n: nat) {
    && n + 16 <= |body|
    && body[n..n + 16] == Mac(p, AfterFrame(p, k.mac, w, body[..n]))
    && AfterFrame(p, k.mac, w, body[..n]) !in maced
  }

  /** The bytes that arrived carry the MAC of a header or a frame on a transcript the sender never made one of. */
  ghost predicate Forged(p: Primitives, k: Keys, maced: set<bytes>, h: Half, inbox: bytes) {
    && |inbox| >= 32
    && var w := AfterHeader(p, k.mac, h.written, inbox[..16]);
       || (inbox[16..32] == Mac(p, w) && w !in maced)
       || exists n: nat :: ForgedBody(p, k, maced, w, inbox[32..], n)
  }

  lemma {:induction false} TranscriptGrows(p: Primitives, k: Keys, h: Half, data: bytes)
    ensures var s := Seal(p, k, h, data);
            && |AfterHeader(p, k.mac, h.written, s.headerCt)| == |h.written| + 16
            && |s.after.written| == |h.written| + 32 + |s.frameCt|
  {}

  /** Every later transcript is longer than the one sealing starts from. */
  lemma {:induction false} MacedLonger(p: Primitives, k: Keys, h: Half, ms: seq<Sent>)
    ensures forall t :: t in Maced(p, k, h, ms) ==> |t| >= |h.written| + 16
    decreases |ms|
  {
    hide Seal, AfterHeader, DataOf;
    if ms != [] {
      var s := Seal(p, k, h, DataOf(p, ms[0]));
      TranscriptGrows(p, k, h, DataOf(p, ms[0]));
      MacedLonger(p, k, s.after, ms[1..]);
    }
  }

  /** Which of the transcripts a length belongs to. */
  lemma {:induction false} MacedByLength(p: Primitives, k: Keys, h: Half, ms: seq<Sent>, t: bytes)
    requires t in Maced(p, k, h, ms)
    ensures ms != []
    ensures var s := Seal(p, k, h, DataOf(p, ms[0]));
            && (|t| < |h.written| + 32 ==> t == AfterHeader(p, k.mac, h.written, s.headerCt))
            && (|t| == |h.written| + 32 + |s.frameCt| ==> t == s.after.written)
  {
    hide Seal, AfterHeader, DataOf;
    var s := Seal(p, k, h, DataOf(p, ms[0]));
    TranscriptGrows(p, k, h, DataOf(p, ms[0]));
    MacedLonger(p, k, s.after, ms[1..]);
  }

  lemma {:induction false} SealAllGrows(p: Primitives, k: Keys, h: Half, ms: seq<Sent>)
    ensures |SealAll(p, k, h, ms).1.written| >= |h.written|
    decreases |ms|
  {
    hide Seal, MessageData;
    if ms != [] {
      var s := Seal(p, k, h, DataOf(p, ms[0]));
      TranscriptGrows(p, k, h, DataOf(p, ms[0]));
      SealAllGrows(p, k, s.after, ms[1..]);
    }
  }

  /** Transcripts of messages received before are no longer than the receiver's own. */
  lemma {:induction false} MacedSplits(p: Primitives, k: Keys, h: Half, ms: seq<Sent>, i: nat, t: bytes)
    requires i <= |ms| && t in Maced(p, k, h, ms)
    ensures var now := SealAll(p, k, h, ms[..i]).1; |t| > |now.written| ==> t in Maced(p, k, now, ms[i..])
    ensures |SealAll(p, k, h, ms[..i]).1.written| >= |h.written|
    decreases i
  {
    hide Seal, AfterHeader, MessageData;
    if i == 0 {
      assert ms[..0] == [] && ms[0..] == ms;
    } else {
      var s := Seal(p, k, h, DataOf(p, ms[0]));
      TranscriptGrows(p, k, h, DataOf(p, ms[0]));
      assert ms[..i][1..] == ms[1..][..i - 1] && ms[1..][i - 1..] == ms[i..] && ms[..i][0] == ms[0];
      var now := SealAll(p, k, h, ms[..i]).1;
      assert now == SealAll(p, k, s.after, ms[1..][..i - 1]).1;
      if t in Maced(p, k, s.after, ms[1..]) {
        MacedSplits(p, k, s.after, ms[1..], i - 1, t);
      } else {
        SealAllGrows(p, k, s.after, ms[1..][..i - 1]);
      }
    }
  }

  /** A transcript fixes the header it absorbed. */
  lemma {:induction false} HeaderDetermined(p: Primitives, key: digest, w: bytes, x: block, y: block)
    requires AfterHeader(p, key, w, x) == AfterHeader(p, key, w, y)
    ensures x == y
  {
    hide Xor;
    var mask := p.aes(key, p.keccak(w)[..16]);
    var a, b := AfterHeader(p, key, w, x), AfterHeader(p, key, w, y);
    assert a[|w|..] == Xor(mask, x) && b[|w|..] == Xor(mask, y);
    XorUnmasks(mask, x);
    XorUnmasks(mask, y);
  }

  /** And the ciphertext it absorbed. */
  lemma {:induction false} BodyDetermined(p: Primitives, key: digest, w: bytes, x: bytes, y: bytes)
    requires |x| == |y| && AfterFrame(p, key, w, x) == AfterFrame(p, key, w, y)
    ensures x == y
  {
    hide Xor;
    var a, b := AfterFrame(p, key, w, x), AfterFrame(p, key, w, y);
    assert a[|w|..|w| + |x|] == x && b[|w|..|w| + |y|] == y;
  }

  lemma {:induction false} AfterHeaderSize(p: Primitives, key: digest, w: bytes, x: block)
    ensures |AfterHeader(p, key, w, x)| == |w| + 16
  {}

  lemma {:induction false} AfterFrameSize(p: Primitives, key: digest, w: bytes, x: bytes)
    ensures |AfterFrame(p, key, w, x)| == |w| + |x| + 16
  {}

  lemma {:induction false} SealIsMaced(p: Primitives, k: Keys, h: Half, data: bytes)
    ensures var s := Seal(p, k, h, data);
            var w := AfterHeader(p, k.mac, h.written, s.headerCt);
            && s.headerMac == Mac(p, w) && s.frameMac == Mac(p, s.after.written)
            && s.after.written == AfterFrame(p, k.mac, w, s.frameCt)
  {}

  lemma {:induction false} WireAgain(s: Sealed, inbox: bytes, n: nat)
    requires n == |s.frameCt| && 48 + n <= |inbox| && inbox[..16] == s.headerCt && inbox[16..32] == s.headerMac
    requires inbox[32..][..n] == s.frameCt && inbox[32..][n..n + 16] == s.frameMac
    ensures inbox == s.Wire() + inbox[32..][n + 16..]
  {
    var body := inbox[32..];
    assert inbox == inbox[..16] + inbox[16..32] + body;
    assert body == body[..n] + body[n..n + 16] + body[n + 16..];
  }

  /** Whatever is accepted for a frame carries both MACs, unless one of them is forged on transcripts of the sender. */
  lemma {:induction false} AcceptedIsMaced(p: Primitives, k: Keys, maced: set<bytes>, h: Half, inbox: bytes)
    requires ReceiveFrame(p, k, h, inbox).result != [] && !Forged(p, k, maced, h, inbox)
    ensures |inbox| >= 48 && inbox[16..32] == Mac(p, AfterHeader(p, k.mac, h.written, inbox[..16]))
    ensures var w := AfterHeader(p, k.mac, h.written, inbox[..16]);
            var size := OpenHeader(p, k, h, inbox[..16], inbox[16..32]).0;
            && w in maced && size.Ok?
            && var n := size.value + PaddingOf(size.value);
               && 48 + n <= |inbox|
               && inbox[32..][n..n + 16] == Mac(p, AfterFrame(p, k.mac, w, inbox[32..][..n]))
               && AfterFrame(p, k.mac, w, inbox[32..][..n]) in maced
  {
    hide AfterHeader, AfterFrame, Ctr, HeaderSize;
    var w := AfterHeader(p, k.mac, h.written, inbox[..16]);
    var body := inbox[32..];
    var size := OpenHeader(p, k, h, inbox[..16], inbox[16..32]).0;
    var n := size.value + PaddingOf(size.value);
    assert body[n..n + 16][..16] == body[n..n + 16];
    assert !ForgedBody(p, k, maced, w, body, n);
  }

  /** From the sender's own state, what is accepted without forgery is the sender's next frame. */
  lemma {:induction false} NextFrameOnly(
    p: Primitives, k: Keys, maced: set<bytes>, h: Half, ms: seq<Sent>, inbox: bytes)
    requires ms != [] ==> 1 <= |DataOf(p, ms[0])| < LENGTH_LIMIT
    requires forall t :: t in maced && |t| > |h.written| ==> t in Maced(p, k, h, ms)
    requires ReceiveFrame(p, k, h, inbox).result != [] && !Forged(p, k, maced, h, inbox)
    ensures ms != []
    ensures var r, s := ReceiveFrame(p, k, h, inbox), Seal(p, k, h, DataOf(p, ms[0]));
            r.result == DataOf(p, ms[0]) && r.after == s.after && inbox == s.Wire() + r.inbox
  {
    hide Seal, AfterHeader, AfterFrame, OpenHeader, ReceiveFrame, Forged, Maced, DataOf;
    AcceptedIsMaced(p, k, maced, h, inbox);
    var w := AfterHeader(p, k.mac, h.written, inbox[..16]);
    AfterHeaderSize(p, k.mac, h.written, inbox[..16]);
    MacedByLength(p, k, h, ms, w);
    var data := DataOf(p, ms[0]);
    var s := Seal(p, k, h, data);
    HeaderDetermined(p, k.mac, h.written, inbox[..16], s.headerCt);
    SealIsMaced(p, k, h, data);
    HeaderOpens(p, k, h, data);
    var n := |data| + PaddingOf(|data|);
    SealMoves(p, k, h, data);
    var body := inbox[32..];
    AfterFrameSize(p, k.mac, w, body[..n]);
    MacedByLength(p, k, h, ms, AfterFrame(p, k.mac, w, body[..n]));
    BodyDetermined(p, k.mac, w, body[..n], s.frameCt);
    WireAgain(s, inbox, n);
    ReceiveInvertsSeal(p, k, h, data, body[n + 16..]);
  }

  // ---------------------------------------------------------------------------------------------
  // Whole runs
  // ---------------------------------------------------------------------------------------------

  /** What is received, up to the first failure, when these bytes are waiting at each receive. */
  function Taken(p: Primitives, k: Keys, h: Half, arrivals: seq<bytes>): seq<bytes>
    decreases |arrivals|
  {
    if arrivals == [] then []
    else
      var r := ReceiveFrame(p, k, h, arrivals[0]);
      if r.result == [] then [] else [r.result] + Taken(p, k, r.after, arrivals[1..])
  }

  ghost predicate EverForged(p: Primitives, k: Keys, maced: set<bytes>, h: Half, arrivals: seq<bytes>)
    decreases |arrivals|
  {
    && arrivals != []
    && var r := ReceiveFrame(p, k, h, arrivals[0]);
       || Forged(p, k, maced, h, arrivals[0])
       || (r.result != [] && EverForged(p, k, maced, r.after, arrivals[1..]))
  }

  lemma {:induction false} LaterTranscripts(p: Primitives, k: Keys, start: Half, ms: seq<Sent>, i: nat)
    requires i <= |ms|
    ensures var h := SealAll(p, k, start, ms[..i]).1;
            forall t :: t in Maced(p, k, start, ms) && |t| > |h.written| ==> t in Maced(p, k, h, ms[i..])
  {
    hide Maced, SealAll;
    forall t | t in Maced(p, k, start, ms) && |t| > |SealAll(p, k, start, ms[..i]).1.written|
      ensures t in Maced(p, k, SealAll(p, k, start, ms[..i]).1, ms[i..])
    {
      MacedSplits(p, k, start, ms, i, t);
    }
  }

  lemma {:induction false} SealOneMore(p: Primitives, k: Keys, start: Half, ms: seq<Sent>, i: nat)
    requires i < |ms|
    ensures SealAll(p, k, start, ms[..i + 1]).1 == Seal(p, k, SealAll(p, k, start, ms[..i]).1, DataOf(p, ms[i])).after
  {
    hide SealAll, Seal, MessageData;
    SealAllPush(p, k, start, ms[..i], ms[i]);
    assert ms[..i] + [ms[i]] == ms[..i + 1];
  }

  /**
   Whatever bytes arrive: unless one of them is a MAC of a transcript the sender made none of, the frames that are
   taken are the ones that were sent, in order and from the place the receiver is at.
   */
  lemma {:induction false} OnlyWhatWasSent(
    p: Primitives, k: Keys, start: Half, ms: seq<Sent>, i: nat, arrivals: seq<bytes>)
    requires i <= |ms| && forall j :: 0 <= j < |ms| ==> 1 <= |DataOf(p, ms[j])| < LENGTH_LIMIT
    requires !EverForged(p, k, Maced(p, k, start, ms), SealAll(p, k, start, ms[..i]).1, arrivals)
    ensures var frames := Taken(p, k, SealAll(p, k, start, ms[..i]).1, arrivals);
            i + |frames| <= |ms| && forall j :: 0 <= j < |frames| ==> frames[j] == DataOf(p, ms[i + j])
    decreases |arrivals|
  {
    hide Maced, SealAll, ReceiveFrame, Forged, DataOf;
    var h := SealAll(p, k, start, ms[..i]).1;
    if arrivals != [] && ReceiveFrame(p, k, h, arrivals[0]).result != [] {
      LaterTranscripts(p, k, start, ms, i);
      assert i < |ms| ==> ms[i..][0] == ms[i];
      NextFrameOnly(p, k, Maced(p, k, start, ms), h, ms[i..], arrivals[0]);
      SealOneMore(p, k, start, ms, i);
      OnlyWhatWasSent(p, k, start, ms, i + 1, arrivals[1..]);
    }
  }
}
