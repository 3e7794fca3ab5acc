/** The decoder: a view that shrinks from the front, one item at a time. */
module RlpDecoder {
  import opened Arith
  import opened Bytes
  import opened RlpFormat
  import opened RlpEncoder
  import opened RlpTree

  // What each read returns and leaves, as functions of the view.

  /** `read(Bytes&)`: the payload of a string item. */
  function ReadStr(v: bytes): Result<(bytes, bytes), DecodingError> {
    var h :- DecodeHeader(v);
    if h.list then Err(UnexpectedList) else Ok((v[h.size..h.size + h.payload], v[h.size + h.payload..]))
  }

  /** `ReadListHeaderBytes`: the payload length; the view is left at the first item of the list. */
  function ListHeader(v: bytes): Result<(nat, bytes), DecodingError> {
    var h :- DecodeHeader(v);
    if !h.list then Err(UnexpectedString) else Ok((h.payload, v[h.size..]))
  }

  lemma {:induction false} ListHeaderFits(v: bytes)
    ensures ListHeader(v).Ok? ==> ListHeader(v).value.0 <= |ListHeader(v).value.1| < |v|
  {}

  /** `SkipItem`. */
  function Skip(v: bytes): Result<bytes, DecodingError> {
    var h :- DecodeHeader(v);
    Ok(v[h.size + h.payload..])
  }

  /** `read_integral` for an unsigned type of `width` bytes. */
  function ReadUint(v: bytes, width: nat): Result<(nat, bytes), DecodingError> {
    var h :- DecodeHeader(v);
    var payload := v[h.size..h.size + h.payload];
    if h.list then Err(UnexpectedList)
    else if h.payload > 1 && payload[0] == 0 then Err(LeadingZero)
    else if h.payload > width then Err(Overflow)
    else if h.payload == 1 && h.size > 0 && payload[0] < SHORT_STRING then Err(NonCanonicalSize)
    else
      var n :- FromBigCompact(payload, width);
      Ok((n, v[h.size + h.payload..]))
  }

  /** `read_bool`. */
  function ReadBool(v: bytes): Result<(bool, bytes), DecodingError> {
    var h :- DecodeHeader(v);
    var payload, rest := v[h.size..h.size + h.payload], v[h.size + h.payload..];
    if h.list then Err(UnexpectedList)
    else if h.payload == 1 then
      if payload[0] == 1 then Ok((true, rest)) else if payload[0] == 0 then Ok((false, rest)) else Err(Overflow)
    else if h.payload == 0 && h.size == 1 && v[0] == SHORT_STRING then Ok((false, rest))
    else Err(Overflow)
  }

  /** `read` into a fixed-size array of n bytes. */
  function ReadFixed(v: bytes, n: nat): Result<(bytes, bytes), DecodingError> {
    var h :- DecodeHeader(v);
    if h.list then Err(UnexpectedList)
    else if h.payload != n then Err(UnexpectedLength)
    else Ok((v[h.size..h.size + n], v[h.size + n..]))
  }

  lemma {:induction false} OneByteValue(s: bytes)
    ensures |s| == 1 ==> FromBig(s) == s[0]
  {
    if |s| == 1 { assert s[..0] == []; }
  }

  class RlpDecoder {
    var view: bytes

    constructor (data: bytes)
      ensures view == data
    {
      view := data;
    }

    /** `skip_header_internal`. */
    method SkipHeader() returns (r: Result<(), DecodingError>)
      modifies this
      ensures r.Ok? <==> old(view) != [] && HeaderLength(old(view)[0]) <= |old(view)|
      ensures view == if r.Ok? then old(view)[HeaderLength(old(view)[0])..] else old(view)
    {
      if view == [] { return Err(InputTooShort); }
      var length := HeaderLength(view[0]);
      if |view| < length { return Err(InputTooShort); }
      view := view[length..];
      r := Ok(());
    }

    method Read() returns (r: Result<bytes, DecodingError>)
      modifies this
      ensures match ReadStr(old(view))
              case Ok((s, rest)) => r == Ok(s) && view == rest
              case Err(e) => r == Err(e) && view == old(view)
    {
      var h :- DecodeHeader(view);
      if h.list { return Err(UnexpectedList); }
      HeaderLengthAgrees(view);
      var skipped := SkipHeader();
      assert skipped.Ok?;
      var out := view[..h.payload];
      assert out == old(view)[h.size..h.size + h.payload];
      view := view[h.payload..];
      assert view == old(view)[h.size + h.payload..];
      r := Ok(out);
    }

    method ReadListHeader() returns (r: Result<nat, DecodingError>)
      modifies this
      ensures match ListHeader(old(view))
              case Ok((n, tail)) => r == Ok(n) && view == tail
              case Err(e) => r == Err(e) && view == old(view)
    {
      var h :- DecodeHeader(view);
      if !h.list { return Err(UnexpectedString); }
      HeaderLengthAgrees(view);
      var skipped := SkipHeader();
      assert skipped.Ok?;
      r := Ok(h.payload);
    }

    method SkipItem() returns (r: Result<(), DecodingError>)
      modifies this
      ensures match Skip(old(view))
              case Ok(rest) => r == Ok(()) && view == rest
              case Err(e) => r == Err(e) && view == old(view)
    {
      var h :- DecodeHeader(view);
      HeaderLengthAgrees(view);
      var skipped := SkipHeader();
      assert skipped.Ok?;
      view := view[h.payload..];
      r := Ok(());
    }

    method ReadIntegral(width: nat) returns (r: Result<nat, DecodingError>)
      requires 1 <= width <= 8
      modifies this
      ensures match ReadUint(old(view), width)
              case Ok((n, rest)) => r == Ok(n) && view == rest
              case Err(e) => r == Err(e) && view == old(view)
    {
      var h :- DecodeHeader(view);
      if h.list { return Err(UnexpectedList); }
      var payload := view[h.size..h.size + h.payload];
      if h.payload > 1 {
        if payload[0] == 0 { return Err(LeadingZero); }
      }
      if h.payload > width { return Err(Overflow); }
      if h.payload == 1 && h.size > 0 {
        if payload[0] < SHORT_STRING { return Err(NonCanonicalSize); }
      }
      var n :- FromBigCompact(payload, width);
      view := view[h.size + h.payload..];
      r := Ok(n);
    }

    /** `read_uint256`: the same language as the integral reads, with the canonical check made on the decoded value. */
    method ReadUint256() returns (r: Result<nat, DecodingError>)
      modifies this
      ensures match ReadUint(old(view), 32)
              case Ok((n, rest)) => r == Ok(n) && view == rest
              case Err(e) => r == Err(e) && view == old(view)
    {
      var h :- DecodeHeader(view);
      if h.list { return Err(UnexpectedList); }
      var payload := view[h.size..h.size + h.payload];
      if h.payload > 1 && payload[0] == 0 { return Err(LeadingZero); }
      if h.payload > 32 { return Err(Overflow); }
      var n :- FromBigCompact(payload, 32);
      OneByteValue(payload);
      if h.payload == 1 && n < SHORT_STRING {
        if h.size > 0 { return Err(NonCanonicalSize); }
      }
      view := view[h.size + h.payload..];
      r := Ok(n);
    }

    method ReadBoolean() returns (r: Result<bool, DecodingError>)
      modifies this
      ensures match ReadBool(old(view))
              case Ok((b, rest)) => r == Ok(b) && view == rest
              case Err(e) => r == Err(e) && view == old(view)
    {
      var h :- DecodeHeader(view);
      if h.list { return Err(UnexpectedList); }
      var out;
      if h.payload == 1 {
        var payload := view[h.size..h.size + h.payload];
        if payload[0] == 1 { out := true; }
        else if payload[0] == 0 { out := false; }
        else { return Err(Overflow); }
      } else if h.payload == 0 && h.size == 1 && view[0] == SHORT_STRING {
        out := false;
      } else {
        return Err(Overflow);
      }
      view := view[h.size + h.payload..];
      r := Ok(out);
    }

    /** Reads into a fixed-size array; a single-byte literal counts as a payload of length one. */
    method ReadArray(n: nat) returns (r: Result<bytes, DecodingError>)
      requires n >= 1
      modifies this
      ensures match ReadFixed(old(view), n)
              case Ok((s, rest)) => r == Ok(s) && view == rest
              case Err(e) => r == Err(e) && view == old(view)
    {
      var h :- DecodeHeader(view);
      if h.list { return Err(UnexpectedList); }
      var literal := h.payload == 1 && h.size == 0;
      if h.payload != n {
        if !(n == 1 && literal) { return Err(UnexpectedLength); }
      }
      HeaderLengthAgrees(view);
      var skipped := SkipHeader();
      assert skipped.Ok?;
      if |view| < n { return Err(InputTooShort); }
      var out := view[..n];
      assert out == old(view)[h.size..h.size + n];
      view := view[n..];
      assert view == old(view)[h.size + n..];
      r := Ok(out);
    }
  }

  // ---------------------------------------------------------------------------------------------
  // Which bytes each read accepts
  // ---------------------------------------------------------------------------------------------

  lemma {:induction false} WrittenStrReads(s: bytes, rest: bytes)
    requires |s| < SIZE_LIMIT
    ensures ReadStr(EncStr(s) + rest) == Ok((s, rest))
  {
    var v := EncStr(s) + rest;
    if IsSingleByte(s) {
      assert v[0..1] == s && v[1..] == rest;
    } else {
      PayloadAndRest(false, s, rest);
    }
  }

  lemma {:induction false} StrReadIsCanonical(v: bytes)
    requires ReadStr(v).Ok?
    ensures var (s, rest) := ReadStr(v).value; |s| < SIZE_LIMIT && v == EncStr(s) + rest
  {
    hide DecodeHeader, HeaderBytes;
    var h := DecodeHeader(v).value;
    var (s, rest) := ReadStr(v).value;
    HeaderIsCanonical(v);
    assert v == v[..h.size] + s + rest;
    if h.size == 0 {
      assert v == s + rest by { assert v[..0] == []; }
    }
  }

  /** Strings: exactly the canonical encoding in front of anything. */
  lemma {:induction false} ReadStrExact(v: bytes, s: bytes, rest: bytes)
    ensures ReadStr(v) == Ok((s, rest)) <==> |s| < SIZE_LIMIT && v == EncStr(s) + rest
  {
    if |s| < SIZE_LIMIT && v == EncStr(s) + rest { WrittenStrReads(s, rest); }
    if ReadStr(v) == Ok((s, rest)) { StrReadIsCanonical(v); }
  }

  /** List headers: exactly the canonical header in front of at least that many bytes. */
  lemma {:induction false} ListHeaderExact(v: bytes, n: nat, tail: bytes)
    ensures ListHeader(v) == Ok((n, tail)) <==> n < SIZE_LIMIT && n <= |tail| && v == HeaderBytes(true, n) + tail
  {
    hide DecodeHeader, HeaderBytes;
    if n < SIZE_LIMIT && n <= |tail| && v == HeaderBytes(true, n) + tail {
      PayloadAndRest(true, tail[..n], tail[n..]);
      assert v == HeaderBytes(true, n) + tail[..n] + tail[n..];
    }
    if ListHeader(v) == Ok((n, tail)) {
      HeaderIsCanonical(v);
      assert v == v[..DecodeHeader(v).value.size] + tail;
    }
  }

  lemma {:induction false} UintReadIsCanonical(v: bytes, width: nat)
    requires 1 <= width <= 32 && ReadUint(v, width).Ok?
    ensures var (n, rest) := ReadUint(v, width).value;
            n < Pow256(width) && (v == EncStr(ToBigCompact(n)) + rest || (n == 0 && v == [0] + rest))
  {
    var (n, rest) := ReadUint(v, width).value;
    var h := DecodeHeader(v).value;
    var s := v[h.size..h.size + h.payload];
    ReadStrExact(v, s, rest);
    FromBigCompactExact(s, width, n);
    if s == [0] { assert IsSingleByte(s); }
  }

  lemma {:induction false} CompactFitsWidth(n: nat, width: nat)
    requires width <= 32 && n < Pow256(width)
    ensures |ToBigCompact(n)| <= width
  {
    CompactLength(n, width);
  }

  lemma {:induction false} WrittenUintReads(n: nat, width: nat, rest: bytes)
    requires 1 <= width <= 32 && n < Pow256(width)
    ensures ReadUint(EncStr(ToBigCompact(n)) + rest, width) == Ok((n, rest))
  {
    hide ToBigCompact, Pow256;
    var s := ToBigCompact(n);
    var v := EncStr(s) + rest;
    CompactFitsWidth(n, width);
    ReadStrExact(v, s, rest);
    FromBigCompactExact(s, width, n);
    ZeroIsCompact();
    if n > 0 { CompactHasNoLeadingZero(n); }
    HeaderIsCanonical(v);
  }

  /** Integers: the canonical string of the compact form, and a literal zero byte for zero. */
  lemma {:induction false} ReadUintExact(v: bytes, width: nat, n: nat, rest: bytes)
    requires 1 <= width <= 32
    ensures ReadUint(v, width) == Ok((n, rest))
       <==> n < Pow256(width) && (v == EncStr(ToBigCompact(n)) + rest || (n == 0 && v == [0] + rest))
  {
    if ReadUint(v, width) == Ok((n, rest)) {
      UintReadIsCanonical(v, width);
    }
    if n < Pow256(width) && v == EncStr(ToBigCompact(n)) + rest {
      WrittenUintReads(n, width, rest);
    }
    if n == 0 && v == [0] + rest {
      ReadStrExact(v, [0], rest);
      FromBigCompactExact([0], width, 0);
    }
  }

  /** Booleans: `01` is true; `80` and `00` are false. */
  lemma {:induction false} ReadBoolExact(v: bytes, b: bool, rest: bytes)
    ensures ReadBool(v) == Ok((b, rest))
            <==> if b then v == [1] + rest else v == [SHORT_STRING] + rest || v == [0] + rest
  {
    EmptyIsString();
    ReadStrExact(v, [1], rest);
    ReadStrExact(v, [0], rest);
    ReadStrExact(v, [], rest);
    if ReadBool(v).Ok? {
      var h := DecodeHeader(v).value;
      HeaderIsCanonical(v);
      assert h.payload == 1 ==> v[h.size..h.size + 1] == [v[h.size]];
    }
  }

  lemma {:induction false} FixedIsStr(v: bytes, n: nat)
    ensures match ReadFixed(v, n)
            case Ok(x) => ReadStr(v) == Ok(x) && |x.0| == n
            case Err(_) => ReadStr(v).Ok? ==> |ReadStr(v).value.0| != n
  {}

  /** Fixed-size arrays: exactly the canonical encoding of a string of that length. */
  lemma {:induction false} ReadFixedExact(v: bytes, n: nat, s: bytes, rest: bytes)
    requires n < SIZE_LIMIT
    ensures ReadFixed(v, n) == Ok((s, rest)) <==> |s| == n && v == EncStr(s) + rest
  {
    hide *;
    FixedIsStr(v, n);
    ReadStrExact(v, s, rest);
  }
}
