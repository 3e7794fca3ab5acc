/**
 The RLP format of Appendix B of the Ethereum Yellow Paper: items, their recursive encoding, and the
 header codec that the encoder and the decoder classes share.
 */
module RlpFormat {
  import opened Bytes

  const SHORT_STRING: nat := 0x80
  const LONG_STRING: nat := 0xB7
  const SHORT_LIST: nat := 0xC0
  const LONG_LIST: nat := 0xF7
  const MAX_SHORT: nat := 55
  const SIZE_LIMIT: nat := 0x1_0000_0000_0000_0000

  datatype Item = Str(content: bytes) | List(items: seq<Item>)

  datatype EncodingError = PayloadTooLarge | EmptyInput | UnclosedList | UnmatchedEndList

  /** `encode_header_bytes`. */
  function EncodeHeader(list: bool, size: nat): (r: Result<bytes, EncodingError>)
    ensures r.Ok? <==> size < SIZE_LIMIT
  {
    if size <= MAX_SHORT then
      Ok([(if list then SHORT_LIST else SHORT_STRING) + size])
    else
      var be := ToBigCompact(size);
      Pow256Values();
      CompactLength(size, 8);
      if |be| > 8 then Err(PayloadTooLarge)
      else Ok([(if list then LONG_LIST else LONG_STRING) + |be|] + be)
  }

  /** The header of a payload that fits; payloads of 2^64 bytes and more have none. */
  function HeaderBytes(list: bool, size: nat): bytes {
    match EncodeHeader(list, size)
    case Ok(h) => h
    case Err(_) => []
  }

  predicate IsSingleByte(content: bytes) {
    |content| == 1 && content[0] < SHORT_STRING
  }

  function EncStr(content: bytes): bytes {
    if IsSingleByte(content) then content else HeaderBytes(false, |content|) + content
  }

  /** The recursive encoding of an item tree. */
  function Enc(t: Item): bytes
    decreases t, 1
  {
    match t
    case Str(content) => EncStr(content)
    case List(items) => HeaderBytes(true, |EncAll(items)|) + EncAll(items)
  }

  function EncAll(ts: seq<Item>): bytes
    decreases ts, 0
  {
    if ts == [] then [] else Enc(ts[0]) + EncAll(ts[1..])
  }

  /** Every payload in the tree is below the 64-bit size limit. */
  predicate Encodable(t: Item)
    decreases t, 1
  {
    match t
    case Str(content) => |content| < SIZE_LIMIT
    case List(items) => |EncAll(items)| < SIZE_LIMIT && EncodableAll(items)
  }

  predicate EncodableAll(ts: seq<Item>)
    decreases ts, 0
  {
    ts == [] || (Encodable(ts[0]) && EncodableAll(ts[1..]))
  }

  lemma {:induction false} EncAllConcat(a: seq<Item>, b: seq<Item>)
    ensures EncAll(a + b) == EncAll(a) + EncAll(b)
  {
    if a == [] {
      assert a + b == b;
    } else {
      assert (a + b)[1..] == a[1..] + b;
      EncAllConcat(a[1..], b);
    }
  }

  lemma {:induction false} EncAllCons(t: Item, ts: seq<Item>)
    ensures EncAll([t] + ts) == Enc(t) + EncAll(ts)
  {
    assert ([t] + ts)[1..] == ts;
  }

  lemma {:induction false} EncAllOne(t: Item)
    ensures EncAll([t]) == Enc(t)
  {
    assert EncAll([t]) == Enc(t) + EncAll([t][1..]);
  }

  lemma {:induction false} EncodableAllConcat(a: seq<Item>, b: seq<Item>)
    ensures EncodableAll(a + b) <==> EncodableAll(a) && EncodableAll(b)
  {
    if a == [] {
      assert a + b == b;
    } else {
      assert (a + b)[1..] == a[1..] + b;
      EncodableAllConcat(a[1..], b);
    }
  }

  // ---------------------------------------------------------------------------------------------
  // Headers
  // ---------------------------------------------------------------------------------------------

  datatype Header = Header(list: bool, payload: nat, size: nat)

  /** The long form of a header: the number of length bytes is in the prefix. */
  function DecodeLong(v: bytes, list: bool, lengthBytes: nat): Result<Header, DecodingError>
    requires 1 <= lengthBytes <= 8
  {
    var size := 1 + lengthBytes;
    if |v| < size then Err(InputTooShort)
    else
      match FromBigCompact(v[1..size], 8)
      case Err(e) => Err(e)
      case Ok(len) => if len <= MAX_SHORT then Err(NonCanonicalSize) else Ok(Header(list, len, size))
  }

  function DecodePrefix(v: bytes): Result<Header, DecodingError>
    requires v != []
  {
    var b := v[0];
    if b < SHORT_STRING then Ok(Header(false, 1, 0))
    else if b <= SHORT_STRING + MAX_SHORT then
      if b == SHORT_STRING + 1 && |v| < 2 then Err(InputTooShort)
      else if b == SHORT_STRING + 1 && v[1] < SHORT_STRING then Err(NonCanonicalSize)
      else Ok(Header(false, b - SHORT_STRING, 1))
    else if b < SHORT_LIST then DecodeLong(v, false, b - LONG_STRING)
    else if b <= SHORT_LIST + MAX_SHORT then Ok(Header(true, b - SHORT_LIST, 1))
    else DecodeLong(v, true, b - LONG_LIST)
  }

  /** `decode_header_impl`: the header at the front of v, rejecting every non-canonical form. */
  function DecodeHeader(v: bytes): (r: Result<Header, DecodingError>)
    ensures r.Ok? ==> r.value.size + r.value.payload <= |v| && 0 < r.value.size + r.value.payload
    ensures r.Ok? && r.value.list ==> 0 < r.value.size
  {
    if v == [] then Err(InputTooShort)
    else if |v| == 1 && v[0] >= 0xf9 then Err(MalformedHeader)
    else
      match DecodePrefix(v)
      case Err(e) => Err(e)
      case Ok(h) => if |v| < h.size + h.payload then Err(InputTooShort) else Ok(h)
  }

  /** `skip_header_internal` works out the header length again, from the prefix alone. */
  function HeaderLength(b: byte): nat {
    if b < SHORT_STRING then 0
    else if b <= SHORT_STRING + MAX_SHORT then 1
    else if b < SHORT_LIST then 1 + (b - LONG_STRING)
    else if b <= SHORT_LIST + MAX_SHORT then 1
    else 1 + (b - LONG_LIST)
  }

  lemma {:induction false} HeaderLengthAgrees(v: bytes)
    requires DecodeHeader(v).Ok?
    ensures HeaderLength(v[0]) == DecodeHeader(v).value.size
  {}

  lemma {:induction false} LongHeaderRoundTrip(list: bool, size: nat, tail: bytes)
    requires MAX_SHORT < size < SIZE_LIMIT && size <= |tail|
    ensures var h := HeaderBytes(list, size); DecodeHeader(h + tail) == Ok(Header(list, size, |h|))
  {
    var be := ToBigCompact(size);
    var h := HeaderBytes(list, size);
    Pow256Values();
    CompactLength(size, 8);
    CompactHasNoLeadingZero(size);
    var v := h + tail;
    assert v[1..1 + |be|] == be;
    FromBigCompactExact(be, 8, size);
    assert v[0] == (if list then LONG_LIST else LONG_STRING) + |be|;
  }

  /** Reading a header that was written, whatever follows the payload. */
  lemma {:induction false} HeaderRoundTrip(list: bool, payload: bytes, rest: bytes)
    requires |payload| < SIZE_LIMIT && (!list ==> !IsSingleByte(payload))
    ensures DecodeHeader(HeaderBytes(list, |payload|) + payload + rest)
         == Ok(Header(list, |payload|, |HeaderBytes(list, |payload|)|))
  {
    var h := HeaderBytes(list, |payload|);
    var v := h + payload + rest;
    if |payload| <= MAX_SHORT {
      assert v[0] == h[0];
      assert |payload| == 1 ==> v[1] == payload[0];
    } else {
      LongHeaderRoundTrip(list, |payload|, payload + rest);
      assert v == h + (payload + rest);
    }
  }

  /** An accepted header is the one the encoder writes for that payload size. */
  lemma {:induction false} HeaderIsCanonical(v: bytes)
    requires DecodeHeader(v).Ok?
    ensures var h := DecodeHeader(v).value;
            && (h.size == 0 ==> !h.list && h.payload == 1 && v[0] < SHORT_STRING)
            && (h.size > 0 ==> h.payload < SIZE_LIMIT && v[..h.size] == HeaderBytes(h.list, h.payload))
            && (h.size > 0 && !h.list ==> !IsSingleByte(v[h.size..h.size + h.payload]))
  {
    var h := DecodeHeader(v).value;
    var b := v[0];
    if h.size == 1 {
      assert v[..1] == [b];
    } else if h.size > 1 {
      var be := v[1..h.size];
      FromBigCompactExact(be, 8, h.payload);
      Pow256Values();
      assert be == ToBigCompact(h.payload);
      assert v[..h.size] == [b] + be;
    }
  }
}
