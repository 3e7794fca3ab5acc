/**
 Reading typed values from a view, and the bytes they are written as. A writer is given what follows, so a
 written value in front of its rest is one term and reading is peeling terms off.
 */
module RlpFields {
  import opened Bytes
  import opened RlpFormat
  import opened RlpTree
  import opened RlpDecoder

  type Reader<!T> = bytes -> Result<(T, bytes), DecodingError>
  type Writer<!T> = (T, bytes) -> bytes

  type u64 = x: nat | x < Pow256(8)
  type u256 = x: nat | x < Pow256(32)

  /** A failed read is reported as another error. */
  function Otherwise<T>(r: Result<T, DecodingError>, e: DecodingError): Result<T, DecodingError> {
    if r.Ok? then r else Err(e)
  }

  // Single fields.

  function PutStr(s: bytes, rest: bytes): bytes {
    EncStr(s) + rest
  }

  function PutUint(n: nat, rest: bytes): bytes {
    EncStr(ToBigCompact(n)) + rest
  }

  function GetFixed(v: bytes, n: nat): Result<(bytes, bytes), DecodingError> {
    Otherwise(ReadFixed(v, n), UnexpectedLength)
  }

  function GetStr(v: bytes): Result<(bytes, bytes), DecodingError> {
    Otherwise(ReadStr(v), UnexpectedString)
  }

  lemma {:induction false} ReadUintBelow(v: bytes, width: nat)
    requires 1 <= width <= 32 && ReadUint(v, width).Ok?
    ensures ReadUint(v, width).value.0 < Pow256(width)
  {
    UintReadIsCanonical(v, width);
  }

  function GetU64(v: bytes): Result<(u64, bytes), DecodingError> {
    if ReadUint(v, 8).Ok? then ReadUintBelow(v, 8); Ok(ReadUint(v, 8).value) else Err(UnexpectedString)
  }

  function GetU256(v: bytes): Result<(u256, bytes), DecodingError> {
    if ReadUint(v, 32).Ok? then ReadUintBelow(v, 32); Ok(ReadUint(v, 32).value) else Err(UnexpectedString)
  }

  lemma {:induction false} FixedField(s: bytes, rest: bytes)
    requires |s| < SIZE_LIMIT
    ensures GetFixed(PutStr(s, rest), |s|) == Ok((s, rest))
  {
    hide ReadFixed, EncStr;
    ReadFixedExact(PutStr(s, rest), |s|, s, rest);
  }

  lemma {:induction false} StrField(s: bytes, rest: bytes)
    requires |s| < SIZE_LIMIT
    ensures GetStr(PutStr(s, rest)) == Ok((s, rest))
  {
    hide ReadStr, EncStr;
    ReadStrExact(PutStr(s, rest), s, rest);
  }

  lemma {:induction false} U64Field(n: u64, rest: bytes)
    ensures GetU64(PutUint(n, rest)) == Ok((n, rest))
  {
    hide ReadUint, EncStr, ToBigCompact;
    ReadUintExact(PutUint(n, rest), 8, n, rest);
  }

  lemma {:induction false} U256Field(n: u256, rest: bytes)
    ensures GetU256(PutUint(n, rest)) == Ok((n, rest))
  {
    hide ReadUint, EncStr, ToBigCompact;
    ReadUintExact(PutUint(n, rest), 32, n, rest);
  }

  /** Appending behind a written field is writing the field in front of more. */
  lemma {:induction false} PutStrAppend(s: bytes, a: bytes, b: bytes)
    ensures PutStr(s, a) + b == PutStr(s, a + b)
  {
    assert EncStr(s) + a + b == EncStr(s) + (a + b);
  }

  lemma {:induction false} PutGrows(s: bytes, rest: bytes)
    requires |s| < SIZE_LIMIT
    ensures |PutStr(s, rest)| > |rest|
  {}

  // ---------------------------------------------------------------------------------------------
  // Lists
  // ---------------------------------------------------------------------------------------------

  /** A list header for a payload of `size` bytes, in front of the payload and what follows. */
  function PutHeader(size: nat, rest: bytes): bytes {
    HeaderBytes(true, size) + rest
  }

  /** The loop that reads elements until only `target` bytes are left, and the length check behind it. */
  function ReadUntil<T>(read: Reader<T>, v: bytes, target: nat): Result<(seq<T>, bytes), DecodingError>
    decreases |v|
  {
    if |v| <= target then (if |v| == target then Ok(([], v)) else Err(ListLengthMismatch))
    else
      match read(v)
      case Err(e) => Err(e)
      case Ok((x, rest)) =>
        if |rest| >= |v| then Err(InputTooShort)
        else
          match ReadUntil(read, rest, target)
          case Err(e) => Err(e)
          case Ok((more, end)) => Ok(([x] + more, end))
  }

  /** A list of elements, which must fill the list exactly. */
  function ReadListOf<T>(read: Reader<T>, v: bytes): Result<(seq<T>, bytes), DecodingError> {
    match ListHeader(v)
    case Err(e) => Err(e)
    case Ok((n, tail)) => if n > |tail| then Err(InputTooShort) else ReadUntil(read, tail, |tail| - n)
  }

  function PutAll<T>(write: Writer<T>, xs: seq<T>, rest: bytes): bytes {
    if xs == [] then rest else write(xs[0], PutAll(write, xs[1..], rest))
  }

  function PutListOf<T>(write: Writer<T>, xs: seq<T>, rest: bytes): bytes {
    PutHeader(|PutAll(write, xs, [])|, PutAll(write, xs, rest))
  }

  /** A value is read back from what is written for it, whatever follows. */
  ghost predicate ReadsBack<T(!new)>(read: Reader<T>, write: Writer<T>, x: T) {
    forall rest: bytes :: read(write(x, rest)) == Ok((x, rest)) && |write(x, rest)| == |write(x, [])| + |rest|
        && write(x, rest) != rest
  }

  lemma {:induction false} ReadAllBack<T(!new)>(read: Reader<T>, write: Writer<T>, xs: seq<T>, rest: bytes)
    requires forall i :: 0 <= i < |xs| ==> ReadsBack(read, write, xs[i])
    ensures |PutAll(write, xs, rest)| == |PutAll(write, xs, [])| + |rest|
    ensures ReadUntil(read, PutAll(write, xs, rest), |rest|) == Ok((xs, rest))
  {
    if xs != [] {
      ReadAllBack(read, write, xs[1..], rest);
      ReadAllBack(read, write, xs[1..], []);
      assert ReadsBack(read, write, xs[0]);
      var tail := PutAll(write, xs[1..], rest);
      var v := write(xs[0], tail);
      assert |v| == |write(xs[0], [])| + |tail|;
      assert |write(xs[0], [])| > 0;
      assert |PutAll(write, xs, [])| == |write(xs[0], [])| + |PutAll(write, xs[1..], [])|;
      assert [xs[0]] + xs[1..] == xs;
    }
  }

  /** A header in front of at least its payload. */
  lemma {:induction false} HeaderField(size: nat, rest: bytes)
    requires size < SIZE_LIMIT && size <= |rest|
    ensures ListHeader(PutHeader(size, rest)) == Ok((size, rest))
  {
    hide ListHeader, HeaderBytes;
    ListHeaderExact(PutHeader(size, rest), size, rest);
  }

  lemma {:induction false} HeaderNonempty(size: nat)
    requires size < SIZE_LIMIT
    ensures HeaderBytes(true, size) != []
  {}

  lemma {:induction false} ReadListBack<T(!new)>(read: Reader<T>, write: Writer<T>, xs: seq<T>, rest: bytes)
    requires forall i :: 0 <= i < |xs| ==> ReadsBack(read, write, xs[i])
    requires |PutAll(write, xs, [])| < SIZE_LIMIT
    ensures ReadListOf(read, PutListOf(write, xs, rest)) == Ok((xs, rest))
    ensures |PutListOf(write, xs, rest)| == |PutListOf(write, xs, [])| + |rest| && PutListOf(write, xs, rest) != rest
  {
    hide ListHeader, HeaderBytes, PutAll, ReadUntil;
    ReadAllBack(read, write, xs, rest);
    HeaderField(|PutAll(write, xs, [])|, PutAll(write, xs, rest));
    HeaderNonempty(|PutAll(write, xs, [])|);
  }

  // ---------------------------------------------------------------------------------------------
  // One complete item as bytes
  // ---------------------------------------------------------------------------------------------

  /** `consume_next_item`: the bytes of the next item, and what follows. */
  function NextItem(v: bytes): Result<(bytes, bytes), DecodingError> {
    if v == [] then Err(InputTooShort)
    else
      match Skip(v)
      case Err(e) => Err(e)
      case Ok(rest) => if |rest| > |v| then Err(InputTooShort) else Ok((v[..|v| - |rest|], rest))
  }

  /** A list item is cut out whole. */
  lemma {:induction false} ListIsNextItem(payload: bytes, rest: bytes)
    requires |payload| < SIZE_LIMIT
    ensures NextItem(PutHeader(|payload|, payload) + rest) == Ok((PutHeader(|payload|, payload), rest))
  {
    hide DecodeHeader, HeaderBytes;
    PayloadAndRest(true, payload, rest);
    HeaderNonempty(|payload|);
    var v := PutHeader(|payload|, payload) + rest;
    assert v[..|v| - |rest|] == PutHeader(|payload|, payload);
  }
}
