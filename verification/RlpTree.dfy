/** Decoding whole item trees: decoding inverts encoding, and accepted bytes are canonical. */
module RlpTree {
  import opened Bytes
  import opened RlpFormat

  type ItemAndRest = (Item, bytes)

  /** One complete item from the front of v, and what is left. */
  function DecodeItem(v: bytes): (r: Result<ItemAndRest, DecodingError>)
    ensures r.Ok? ==> |r.value.1| < |v|
    decreases |v|, 0
  {
    match DecodeHeader(v)
    case Err(e) => Err(e)
    case Ok(h) =>
      var payload, rest := v[h.size..h.size + h.payload], v[h.size + h.payload..];
      if !h.list then Ok((Str(payload), rest))
      else
        match DecodeAll(payload)
        case Err(e) => Err(e)
        case Ok(items) => Ok((List(items), rest))
  }

  /** A byte string that is nothing but complete items. */
  function DecodeAll(v: bytes): Result<seq<Item>, DecodingError>
    decreases |v|, 1
  {
    if v == [] then Ok([])
    else
      match DecodeItem(v)
      case Err(e) => Err(e)
      case Ok((t, rest)) =>
        match DecodeAll(rest)
        case Err(e) => Err(e)
        case Ok(ts) => Ok([t] + ts)
  }

  lemma {:induction false} PayloadAndRest(list: bool, payload: bytes, rest: bytes)
    requires |payload| < SIZE_LIMIT && (!list ==> !IsSingleByte(payload))
    ensures var h := HeaderBytes(list, |payload|);
            var v := h + payload + rest;
            && DecodeHeader(v) == Ok(Header(list, |payload|, |h|))
            && v[|h|..|h| + |payload|] == payload && v[|h| + |payload|..] == rest
  {
    HeaderRoundTrip(list, payload, rest);
  }

  /** Decoding an encoding returns the item and leaves exactly what followed it. */
  lemma {:induction false} DecodeInvertsEncode(t: Item, rest: bytes)
    requires Encodable(t)
    ensures DecodeItem(Enc(t) + rest) == Ok((t, rest))
    decreases t, 1
  {
    match t {
      case Str(content) =>
        var v := Enc(t) + rest;
        if IsSingleByte(content) {
          assert v[0..1] == content && v[1..] == rest;
        } else {
          PayloadAndRest(false, content, rest);
        }
      case List(items) =>
        var payload := EncAll(items);
        PayloadAndRest(true, payload, rest);
        DecodeAllInvertsEncode(items);
    }
  }

  lemma {:induction false} EncNonempty(t: Item)
    requires Encodable(t)
    ensures Enc(t) != []
  {}

  lemma {:induction false} DecodeAllInvertsEncode(ts: seq<Item>)
    requires EncodableAll(ts)
    ensures DecodeAll(EncAll(ts)) == Ok(ts)
    decreases ts, 0
  {
    if ts != [] {
      EncNonempty(ts[0]);
      DecodeInvertsEncode(ts[0], EncAll(ts[1..]));
      DecodeAllInvertsEncode(ts[1..]);
      assert ts == [ts[0]] + ts[1..];
    }
  }

  /** Whatever is accepted re-encodes to the bytes that were consumed. */
  lemma {:induction false} EncodeInvertsDecode(v: bytes)
    requires DecodeItem(v).Ok?
    ensures var (t, rest) := DecodeItem(v).value; Encodable(t) && v == Enc(t) + rest
    decreases |v|, 0
  {
    hide DecodeHeader, HeaderBytes;
    var h := DecodeHeader(v).value;
    HeaderIsCanonical(v);
    var payload, rest := v[h.size..h.size + h.payload], v[h.size + h.payload..];
    assert v == v[..h.size] + payload + rest;
    if h.list {
      EncodeAllInvertsDecode(payload);
    }
  }

  lemma {:induction false} EncodeAllInvertsDecode(v: bytes)
    requires DecodeAll(v).Ok?
    ensures EncodableAll(DecodeAll(v).value) && v == EncAll(DecodeAll(v).value)
    decreases |v|, 1
  {
    if v != [] {
      EncodeInvertsDecode(v);
      var (t, rest) := DecodeItem(v).value;
      EncodeAllInvertsDecode(rest);
      var ts := DecodeAll(rest).value;
      assert ([t] + ts)[1..] == ts;
    }
  }

  /** No encoding is a proper prefix of another, and no byte string encodes two items. */
  lemma {:induction false} EncodingsPrefixFree(a: Item, b: Item, restA: bytes, restB: bytes)
    requires Encodable(a) && Encodable(b) && Enc(a) + restA == Enc(b) + restB
    ensures a == b && restA == restB
  {
    DecodeInvertsEncode(a, restA);
    DecodeInvertsEncode(b, restB);
  }

  /** The accepted complete inputs are exactly the encodings. */
  lemma {:induction false} AcceptedIffEncoding(v: bytes, t: Item)
    ensures DecodeItem(v) == Ok((t, [])) <==> Encodable(t) && v == Enc(t)
  {
    if DecodeItem(v) == Ok((t, [])) {
      EncodeInvertsDecode(v);
      assert Enc(t) + [] == Enc(t);
    }
    if Encodable(t) && v == Enc(t) {
      DecodeInvertsEncode(t, []);
      assert Enc(t) + [] == Enc(t);
    }
  }
}
