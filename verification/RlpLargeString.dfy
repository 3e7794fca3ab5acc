/**
 One large string, streamed: the encoder reserves room for the largest header, appends the payload, then
 writes the real header and closes the gap; the decoder hands the payload out in pieces.
 */
module RlpLargeString {
  import opened Bytes
  import opened Pieces
  import opened RlpFormat
  import opened RlpEncoder
  import opened RlpTree
  import opened RlpDecoder

  const RESERVED: nat := 9

  datatype StreamingError = NotFinalized | AlreadyFinalized | HeaderSizeExceeded | InvalidChunkSize

  function Reserve(): bytes {
    [0, 0, 0, 0, 0, 0, 0, 0, 0]
  }

  /** The buffer ends in the reserve. */
  predicate Reserved(buffer: bytes) {
    |buffer| >= RESERVED && buffer[|buffer| - RESERVED..] == Reserve()
  }

  /** `memcpy` and `memmove` into a buffer. */
  function Overwrite(buffer: bytes, at: nat, part: bytes): bytes
    requires at + |part| <= |buffer|
  {
    buffer[..at] + part + buffer[at + |part|..]
  }

  /** What streaming writes for a payload: always with a header, even for one small byte. */
  function Streamed(payload: bytes): bytes {
    HeaderBytes(false, |payload|) + payload
  }

  /** Writing to the buffer that `GetBytes` gives out: no list is open. */
  method SetBuffer(e: RlpEncoder, buffer: bytes)
    requires e.Valid() && e.starts == []
    modifies e
    ensures e.Valid() && e.starts == [] && e.buffer == buffer && e.levels == [buffer]
  {
    FlatPush([], buffer);
    assert [] + [buffer] == [buffer] && [] + buffer == buffer;
    e.buffer, e.levels := buffer, [buffer];
  }

  lemma {:induction false} HeaderFitsReserve(size: nat)
    requires size < SIZE_LIMIT
    ensures 1 <= |HeaderBytes(false, size)| <= RESERVED
  {}

  lemma {:induction false} Patched(base: bytes, reserve: bytes, payload: bytes, header: bytes)
    requires |header| <= |reserve|
    ensures Overwrite(base + reserve + payload, |base|, header) == base + header + reserve[|header|..] + payload
  {
    var buffer := base + reserve + payload;
    assert buffer[..|base|] == base;
    assert buffer[|base| + |header|..] == reserve[|header|..] + payload;
  }

  /** Moving the payload over the gap and cutting off the end drops the gap. */
  lemma {:induction false} Moved(front: bytes, gap: bytes, payload: bytes)
    ensures var buffer := front + gap + payload;
            var moved := Overwrite(buffer, |front|, buffer[|front + gap|..|front + gap| + |payload|]);
            |moved| == |buffer| && moved[..|moved| - |gap|] == front + payload
  {
    var buffer := front + gap + payload;
    assert buffer[|front + gap|..|front + gap| + |payload|] == payload;
    assert buffer[..|front|] == front;
    var moved := Overwrite(buffer, |front|, payload);
    assert moved == front + payload + buffer[|front| + |payload|..];
    assert moved[..|front| + |payload|] == front + payload;
  }

  /** Copying the header over the reserve and moving the payload left leaves no gap. */
  lemma {:induction false} GapCloses(base: bytes, reserve: bytes, payload: bytes, header: bytes)
    requires |reserve| == RESERVED && |header| <= RESERVED
    ensures var n, shift, start := |payload|, RESERVED - |header|, |base|;
            var patched := Overwrite(base + reserve + payload, start, header);
            && |patched| == start + RESERVED + n
            && (shift == 0 ==> patched == base + (header + payload))
            && var moved := Overwrite(patched, start + |header|, patched[start + RESERVED..start + RESERVED + n]);
               |moved| == |patched| && moved[..|moved| - shift] == base + (header + payload)
  {
    var gap := reserve[|header|..];
    Patched(base, reserve, payload, header);
    Moved(base + header, gap, payload);
    assert base + header + payload == base + (header + payload);
    if gap == [] { assert base + header + gap + payload == base + header + payload; }
  }

  class LargeStringEncoder {
    const encoder: RlpEncoder
    const headerStart: nat
    const payloadStart: nat
    var payloadSize: nat
    var finished: bool
    ghost const base: bytes
    ghost var payload: bytes

    /** The buffer is what was there before, the reserve, and the payload so far. */
    ghost predicate Open()
      reads this, encoder
    {
      && encoder.Valid() && encoder.levels == [encoder.buffer] && !finished
      && encoder.buffer == base + Reserve() + payload
      && headerStart == |base| && payloadStart == |base| + RESERVED && payloadSize == |payload|
    }

    /** The reserve is already at the end of the buffer. */
    constructor (e: RlpEncoder)
      requires e.Valid() && e.levels == [e.buffer] && Reserved(e.buffer)
      ensures Open() && encoder == e && base == e.buffer[..|e.buffer| - RESERVED] && payload == []
    {
      encoder := e;
      headerStart, payloadStart := |e.buffer| - RESERVED, |e.buffer|;
      payloadSize, finished := 0, false;
      base, payload := e.buffer[..|e.buffer| - RESERVED], [];
    }

    method AddChunk(chunk: bytes) returns (r: Result<(), StreamingError>)
      requires encoder.Valid() && (encoder.starts == [] && !finished ==> Open())
      modifies this`payloadSize, this`payload, encoder
      ensures encoder.Valid()
      ensures r == if finished then Err(AlreadyFinalized)
                   else if old(encoder.starts) != [] then Err(NotFinalized)
                   else Ok(())
      ensures r.Err? ==>
              payload == old(payload) && encoder.buffer == old(encoder.buffer) && encoder.levels == old(encoder.levels)
      ensures r.Ok? ==> Open() && payload == old(payload) + chunk
    {
      if finished { return Err(AlreadyFinalized); }
      if encoder.starts != [] { return Err(NotFinalized); }
      SetBuffer(encoder, encoder.buffer + chunk);
      payloadSize := payloadSize + |chunk|;
      payload := payload + chunk;
      r := Ok(());
    }

    /** The reserve gives way to the header that the payload needs. */
    method Finish() returns (r: Result<(), StreamingError>)
      requires encoder.Valid() && (encoder.starts == [] && !finished ==> Open())
      modifies this`finished, encoder
      ensures encoder.Valid() && finished
      ensures r == if old(finished) then Err(AlreadyFinalized)
                   else if payloadSize >= SIZE_LIMIT then Err(HeaderSizeExceeded)
                   else if old(encoder.starts) != [] then Err(NotFinalized)
                   else Ok(())
      ensures r.Err? ==> encoder.buffer == old(encoder.buffer) && encoder.levels == old(encoder.levels)
      ensures r.Ok? ==> encoder.buffer == base + Streamed(payload) && encoder.levels == [encoder.buffer]
    {
      if finished { return Err(AlreadyFinalized); }
      finished := true;
      var header := EncodeHeader(false, payloadSize);
      if header.Err? { return Err(HeaderSizeExceeded); }
      if encoder.starts != [] { return Err(NotFinalized); }
      var actual := header.value;
      HeaderFitsReserve(payloadSize);
      var shift := RESERVED - |actual|;
      var buffer := encoder.buffer;
      GapCloses(base, Reserve(), payload, actual);
      buffer := Overwrite(buffer, headerStart, actual);
      if shift > 0 {
        buffer := Overwrite(buffer, headerStart + |actual|, buffer[payloadStart..payloadStart + payloadSize]);
        buffer := buffer[..|buffer| - shift];
      }
      SetBuffer(encoder, buffer);
      r := Ok(());
    }
  }

  /** `create`, or the error when a list is open. */
  method Create(e: RlpEncoder) returns (r: Result<LargeStringEncoder, StreamingError>)
    requires e.Valid()
    modifies e
    ensures e.Valid()
    ensures old(e.starts) != [] ==> r == Err(NotFinalized) && e.buffer == old(e.buffer) && e.levels == old(e.levels)
    ensures old(e.starts) == [] ==>
              r.Ok? && fresh(r.value) && r.value.encoder == e && r.value.Open() && r.value.base == old(e.buffer)
              && r.value.payload == []
  {
    if e.starts != [] { return Err(NotFinalized); }
    SetBuffer(e, e.buffer + Reserve());
    assert e.buffer[..|e.buffer| - RESERVED] == old(e.buffer);
    var stream := new LargeStringEncoder(e);
    r := Ok(stream);
  }

  /** `encodeLargeString` for a generator that hands over these chunks; the destructor finishes. */
  method EncodeLargeString(e: RlpEncoder, chunks: seq<bytes>) returns (r: Result<(), StreamingError>)
    requires e.Valid()
    modifies e
    ensures e.Valid()
    ensures r == if old(e.starts) == [] then Ok(()) else Err(NotFinalized)
    ensures r.Ok? && |Concat(chunks)| < SIZE_LIMIT ==> e.buffer == old(e.buffer) + Streamed(Concat(chunks))
    ensures r.Err? ==> e.buffer == old(e.buffer) && e.levels == old(e.levels)
  {
    var created := Create(e);
    if created.Err? { return Err(created.error); }
    var stream := created.value;
    for i := 0 to |chunks|
      invariant stream.encoder == e && fresh(stream) && stream.base == old(e.buffer)
      invariant stream.Open() && stream.payload == Concat(chunks[..i])
    {
      ghost var sent := chunks[..i];
      var added := stream.AddChunk(chunks[i]);
      ConcatPush(sent, chunks[i]);
      assert chunks[..i + 1] == sent + [chunks[i]];
    }
    assert chunks[..|chunks|] == chunks;
    var done := stream.Finish();
    r := Ok(());
  }

  /** Streaming agrees with `add` on every payload but a lone byte below 0x80; there it is not even readable. */
  lemma {:induction false} StreamedIsAdd(payload: bytes, rest: bytes)
    requires |payload| < SIZE_LIMIT
    ensures Streamed(payload) == EncStr(payload) <==> !IsSingleByte(payload)
    ensures IsSingleByte(payload) ==>
            Streamed(payload) == [0x81, payload[0]] && DecodeItem(Streamed(payload) + rest) == Err(NonCanonicalSize)
    ensures !IsSingleByte(payload) ==> DecodeItem(Streamed(payload) + rest) == Ok((Str(payload), rest))
  {
    if IsSingleByte(payload) {
      var v := Streamed(payload) + rest;
      assert payload == [payload[0]] && v[0] == 0x81 && v[1] == payload[0];
    } else {
      DecodeInvertsEncode(Str(payload), rest);
    }
  }

  // ---------------------------------------------------------------------------------------------
  // Decoding
  // ---------------------------------------------------------------------------------------------

  class LargeStringDecoder {
    var view: bytes
    var payloadSize: nat
    var bytesRead: nat
    var initialized: bool

    ghost predicate Valid()
      reads this
    {
      if initialized then bytesRead <= payloadSize <= bytesRead + |view| else bytesRead == 0
    }

    /** The payload still to come and what follows it. */
    ghost function Pending(): Result<(bytes, bytes), DecodingError>
      requires Valid()
      reads this
    {
      if initialized then Ok((view[..payloadSize - bytesRead], view[payloadSize - bytesRead..])) else ReadStr(view)
    }

    constructor (data: bytes)
      ensures Valid() && Pending() == ReadStr(data)
    {
      view, payloadSize, bytesRead, initialized := data, 0, 0, false;
    }

    method PeekPayloadSize() returns (r: Result<nat, DecodingError>)
      ensures match ReadStr(view) case Ok((s, rest)) => r == Ok(|s|) case Err(e) => r == Err(e)
    {
      var h :- DecodeHeader(view);
      if h.list { return Err(UnexpectedList); }
      if |view| < h.size + h.payload { return Err(InputTooShort); }
      r := Ok(h.payload);
    }

    method Initialize() returns (r: Result<(), DecodingError>)
      requires Valid() && !initialized
      modifies this
      ensures Valid() && Pending() == old(Pending()) && initialized == r.Ok?
      ensures match old(Pending()) case Ok(both) => r == Ok(()) case Err(e) => r == Err(e)
    {
      var h :- DecodeHeader(view);
      if h.list { return Err(UnexpectedList); }
      if |view| < h.size + h.payload { return Err(InputTooShort); }
      payloadSize := h.payload;
      view := view[h.size..];
      initialized := true;
      assert view[..h.payload] == old(view)[h.size..h.size + h.payload]
          && view[h.payload..] == old(view)[h.size + h.payload..];
      r := Ok(());
    }

    /** The next piece of at most `limit` bytes; an empty piece says that nothing is left (or that limit is 0). */
    method ReadChunk(limit: nat) returns (r: Result<bytes, DecodingError>)
      requires Valid()
      modifies this
      ensures Valid()
      ensures match old(Pending())
              case Err(e) => r == Err(e) && Pending() == Err(e)
              case Ok((p, tail)) =>
                var n := if |p| < limit then |p| else limit;
                r == Ok(p[..n]) && Pending() == Ok((p[n..], tail))
    {
      hide ReadStr;
      if !initialized {
        var done :- Initialize();
      }
      if bytesRead >= payloadSize {
        return Ok([]);
      }
      ghost var v, k := view, payloadSize - bytesRead;
      var remaining := payloadSize - bytesRead;
      var n := if remaining < limit then remaining else limit;
      var chunk := view[..n];
      view := view[n..];
      bytesRead := bytesRead + n;
      assert v[..k][..n] == chunk && v[..k][n..] == view[..k - n] && v[k..] == view[k - n..];
      r := Ok(chunk);
    }
  }

  lemma {:induction false} NothingLeft(pieces: seq<bytes>, n: nat)
    ensures n > 0 ==> pieces + Cut([], n) == pieces
  {}

  /** The first k bytes, where k is the limit or all there is, are the next piece. */
  lemma {:induction false} PieceTaken(left: bytes, k: nat, limit: nat, pieces: seq<bytes>)
    requires 0 < k <= |left| && k <= limit && (k < |left| ==> k == limit)
    ensures pieces + Cut(left, limit) == pieces + [left[..k]] + Cut(left[k..], limit)
  {
    hide Cut;
    assert left == left[..k] + left[k..];
    CutFirst(left[..k], left[k..], limit);
  }

  /**
   `decodeLargeString`: the pieces handed to the callback. Of the decoder it is given it takes the remaining view
   and moves nothing.
   */
  method DecodeLargeString(remaining: bytes, limit: nat) returns (r: Result<seq<bytes>, DecodingError>)
    ensures ReadStr(remaining).Err? ==> r == Err(ReadStr(remaining).error)
    ensures ReadStr(remaining).Ok? ==> r == Ok(if limit == 0 then [] else Cut(ReadStr(remaining).value.0, limit))
  {
    hide ReadStr, Cut;
    var stream := new LargeStringDecoder(remaining);
    var pieces := [];
    ghost var whole := ReadStr(remaining);
    ghost var left := if whole.Ok? then whole.value.0 else [];
    var finished := false;
    while !finished
      invariant stream.Valid() && fresh(stream) && (limit == 0 ==> pieces == [])
      invariant stream.Pending() == if whole.Ok? then Ok((left, whole.value.1)) else whole
      invariant whole.Ok? && limit > 0 ==> Cut(whole.value.0, limit) == pieces + Cut(left, limit)
      invariant finished ==> whole.Ok? && (limit > 0 ==> left == [])
      decreases !finished, |left|
    {
      var chunk := stream.ReadChunk(limit);
      if chunk.Err? { return Err(chunk.error); }
      if chunk.value == [] {
        finished := true;
      } else {
        PieceTaken(left, |chunk.value|, limit, pieces);
        pieces, left := pieces + [chunk.value], left[|chunk.value|..];
      }
    }
    NothingLeft(pieces, limit);
    r := Ok(pieces);
  }

  /** A streamed payload comes back whole for any way of cutting it on either side. */
  lemma {:induction false} LargeStringRoundTrip(chunks: seq<bytes>, rest: bytes, limit: nat)
    requires |Concat(chunks)| < SIZE_LIMIT && !IsSingleByte(Concat(chunks)) && limit > 0
    ensures var v := Streamed(Concat(chunks)) + rest;
            ReadStr(v).Ok? && Concat(Cut(ReadStr(v).value.0, limit)) == Concat(chunks)
  {
    ReadStrExact(Streamed(Concat(chunks)) + rest, Concat(chunks), rest);
    CutConcat(Concat(chunks), limit);
  }
}
