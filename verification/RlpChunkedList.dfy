/** Data sent as a list of strings of a fixed size, and its reassembly. */
module RlpChunkedList {
  import opened Bytes
  import opened Pieces
  import opened RlpFormat
  import opened RlpEncoder
  import opened RlpTree
  import opened RlpDecoder
  import opened RlpLargeString

  function Strs(parts: seq<bytes>): seq<Item> {
    if parts == [] then [] else [Str(parts[0])] + Strs(parts[1..])
  }

  lemma {:induction false} EncStrsPush(parts: seq<bytes>, part: bytes)
    ensures EncAll(Strs(parts + [part])) == EncAll(Strs(parts)) + EncStr(part)
  {
    if parts == [] {
      assert parts + [part] == [part] && [part][1..] == [];
      EncAllOne(Str(part));
      assert Strs([part]) == [Str(part)];
    } else {
      assert (parts + [part])[1..] == parts[1..] + [part];
      assert Strs(parts)[1..] == Strs(parts[1..]) && Strs(parts + [part])[1..] == Strs(parts[1..] + [part]);
      EncStrsPush(parts[1..], part);
    }
  }

  lemma {:induction false} SliceStep(before: bytes, data: bytes, i: nat, n: nat)
    requires i + n <= |data|
    ensures before + data[..i] + data[i..i + n] == before + data[..i + n]
  {}

  lemma {:induction false} SliceEnds(before: bytes, data: bytes)
    ensures before + data[..0] == before && before + data[..|data|] == before + data
  {}

  /** The flushed chunks and what is left in the buffer are the data cut at the chunk size. */
  lemma {:induction false} LastPiece(flushed: seq<bytes>, buffer: bytes, n: nat)
    requires n > 0 && AllFull(flushed, n) && |buffer| < n
    ensures Cut(Concat(flushed) + buffer, n) == if buffer == [] then flushed else flushed + [buffer]
  {
    if buffer == [] {
      assert Concat(flushed) + buffer == Concat(flushed);
      CutFull(flushed, n);
    } else {
      CutAfterFull(flushed, buffer, n);
    }
  }

  class ChunkedListEncoder {
    const encoder: RlpEncoder
    const chunkSize: nat
    var buffer: bytes
    var chunkCount: nat
    var totalBytes: nat
    var finished: bool
    var listStarted: bool
    ghost const outer: seq<bytes>
    ghost var flushed: seq<bytes>

    /** All the data added so far. */
    ghost function Data(): bytes
      reads this
    {
      Concat(flushed) + buffer
    }

    /** The list under construction holds the flushed chunks; the rest waits in the buffer. */
    ghost predicate Building()
      reads this, encoder
    {
      && encoder.Valid() && outer != [] && chunkCount == |flushed| && totalBytes == |Data()|
      && encoder.levels == (if listStarted then outer + [EncAll(Strs(flushed))] else outer)
      && (!listStarted ==> flushed == [] && buffer == [])
    }

    /** Between calls every flushed chunk is full and the buffer is not. */
    ghost predicate Open()
      reads this, encoder
    {
      Building() && 0 < chunkSize < SIZE_LIMIT && !finished && AllFull(flushed, chunkSize) && |buffer| < chunkSize
    }

    constructor (e: RlpEncoder, size: nat)
      requires e.Valid() && 0 < size < SIZE_LIMIT
      ensures Open() && encoder == e && chunkSize == size && outer == e.levels && Data() == []
    {
      encoder, chunkSize, buffer := e, size, [];
      chunkCount, totalBytes, finished, listStarted := 0, 0, false, false;
      outer, flushed := e.levels, [];
    }

    method FlushBuffer()
      requires Building() && listStarted && |buffer| < SIZE_LIMIT
      modifies this`buffer, this`chunkCount, this`flushed, encoder
      ensures Building() && Data() == old(Data()) && buffer == []
      ensures flushed == if old(buffer) == [] then old(flushed) else old(flushed) + [old(buffer)]
    {
      hide Concat, EncAll, Strs, Flat;
      if buffer == [] { return; }
      ghost var before := flushed;
      EncStrsPush(flushed, buffer);
      ConcatPush(flushed, buffer);
      var added := encoder.Add(buffer);
      assert (outer + [EncAll(Strs(before))])[..|outer|] == outer;
      chunkCount := chunkCount + 1;
      flushed := flushed + [buffer];
      buffer := [];
      assert Concat(flushed) + [] == Concat(flushed);
    }

    method StartList()
      requires Building() && !listStarted
      modifies this`listStarted, encoder
      ensures Building() && listStarted
    {
      encoder.BeginList();
      listStarted := true;
    }

    /** `addChunk`: any amount of data, in any number of calls. */
    method AddChunk(data: bytes) returns (r: Result<(), StreamingError>)
      requires !finished ==> Open()
      modifies this, encoder
      ensures r == if old(finished) then Err(AlreadyFinalized) else Ok(())
      ensures r.Err? ==>
              finished && flushed == old(flushed) && buffer == old(buffer) && encoder.buffer == old(encoder.buffer)
      ensures r.Ok? ==> Open() && listStarted && Data() == old(Data()) + data
    {
      hide EncAll, Strs, Concat;
      if finished { return Err(AlreadyFinalized); }
      if !listStarted { StartList(); }
      CopyIn(data);
      r := Ok(());
    }

    method CopyIn(data: bytes)
      requires Open() && listStarted
      modifies this`buffer, this`totalBytes, this`chunkCount, this`flushed, encoder
      ensures Open() && Data() == old(Data()) + data
    {
      hide EncAll, Strs, Concat, AllFull, Flat;
      var offset := 0;
      ghost var before := Data();
      SliceEnds(before, data);
      while offset < |data|
        invariant 0 <= offset <= |data| && Open() && Data() == before + data[..offset]
        decreases |data| - offset
      {
        var space := chunkSize - |buffer|;
        var n := if space < |data| - offset then space else |data| - offset;
        Fill(data[offset..offset + n]);
        SliceStep(before, data, offset, n);
        offset := offset + n;
      }
    }

    /** One turn of the copying loop: as much as fits, then a flush when the buffer is full. */
    method Fill(part: bytes)
      requires Open() && listStarted && |buffer| + |part| <= chunkSize
      modifies this`buffer, this`totalBytes, this`chunkCount, this`flushed, encoder
      ensures Open() && Data() == old(Data()) + part
    {
      assert Concat(flushed) + (buffer + part) == Concat(flushed) + buffer + part;
      buffer := buffer + part;
      totalBytes := totalBytes + |part|;
      if |buffer| >= chunkSize {
        FlushBuffer();
      }
    }

    /** `finish`: one list of the data cut into chunks, in the level where the encoder stood. */
    method Finish() returns (r: Result<(), StreamingError>)
      requires !finished ==> Open()
      modifies this, encoder
      ensures finished
      ensures old(finished) ==> r == Err(AlreadyFinalized) && encoder.buffer == old(encoder.buffer)
      ensures !old(finished) ==>
                var chunks := Cut(old(Data()), chunkSize);
                && encoder.Valid() && Data() == old(Data())
                && chunkCount == |chunks| && totalBytes == |Data()|
                && r == (if |EncAll(Strs(chunks))| < SIZE_LIMIT then Ok(()) else Err(NotFinalized))
                && encoder.levels == Extend(outer, Enc(List(Strs(chunks))))
    {
      hide EncAll, Strs, Concat, Cut;
      if finished { return Err(AlreadyFinalized); }
      finished := true;
      LastPiece(flushed, buffer, chunkSize);
      if buffer != [] { FlushBuffer(); }
      if !listStarted { StartList(); }
      assert (outer + [EncAll(Strs(flushed))])[..|outer|] == outer;
      var ended := encoder.EndList();
      if ended.Err? { return Err(NotFinalized); }
      r := Ok(());
    }
  }

  /** `encodeChunkedList` for a generator that hands over these pieces of data. */
  method EncodeChunkedList(e: RlpEncoder, parts: seq<bytes>, size: nat) returns (r: Result<(), StreamingError>)
    requires e.Valid() && size < SIZE_LIMIT
    modifies e
    ensures e.Valid()
    ensures r == if size == 0 then Err(InvalidChunkSize) else Ok(())
    ensures r.Err? ==> e.levels == old(e.levels)
    ensures r.Ok? ==> e.levels == Extend(old(e.levels), Enc(List(Strs(Cut(Concat(parts), size)))))
  {
    if size == 0 { return Err(InvalidChunkSize); }
    var stream := new ChunkedListEncoder(e, size);
    for i := 0 to |parts|
      invariant fresh(stream) && stream.encoder == e && stream.chunkSize == size && stream.outer == old(e.levels)
      invariant stream.Open() && stream.Data() == Concat(parts[..i])
    {
      ghost var sent := parts[..i];
      var added := stream.AddChunk(parts[i]);
      ConcatPush(sent, parts[i]);
      assert parts[..i + 1] == sent + [parts[i]];
    }
    assert parts[..|parts|] == parts;
    var done := stream.Finish();
    r := Ok(());
  }

  // ---------------------------------------------------------------------------------------------
  // Reassembly
  // ---------------------------------------------------------------------------------------------

  lemma {:induction false} ReadStrShrinks(v: bytes)
    requires ReadStr(v).Ok?
    ensures |ReadStr(v).value.1| < |v|
  {}

  /** The payloads of a list payload made of strings only. */
  function Strings(v: bytes): Result<seq<bytes>, DecodingError>
    decreases |v|
  {
    if v == [] then Ok([])
    else
      match ReadStr(v)
      case Err(e) => Err(e)
      case Ok((s, rest)) =>
        ReadStrShrinks(v);
        match Strings(rest)
        case Err(e) => Err(e)
        case Ok(more) => Ok([s] + more)
  }

  /** The chunks of the list at the front of v. */
  function ChunksOf(v: bytes): Result<seq<bytes>, DecodingError> {
    match ListHeader(v)
    case Err(e) => Err(e)
    case Ok((n, tail)) =>
      ListHeaderFits(v);
      Strings(tail[..n])
  }

  lemma {:induction false} ScanStep(v: bytes)
    requires DecodeHeader(v).Ok? && !DecodeHeader(v).value.list
    ensures var h := DecodeHeader(v).value;
            match Strings(v[h.size + h.payload..])
            case Err(e) => Strings(v) == Err(e)
            case Ok(more) =>
              && Strings(v).Ok? && |Strings(v).value| == 1 + |more|
              && |Concat(Strings(v).value)| == h.payload + |Concat(more)|
  {
    hide DecodeHeader;
    var h := DecodeHeader(v).value;
    var rest := v[h.size + h.payload..];
    if Strings(rest).Ok? {
      var s, more := v[h.size..h.size + h.payload], Strings(rest).value;
      assert ([s] + more)[1..] == more;
    }
  }

  /** The scan of a list payload: the number of strings and their total size. */
  method Scan(payload: bytes) returns (r: Result<(nat, nat), DecodingError>)
    ensures match Strings(payload) case Ok(parts) => r == Ok((|parts|, |Concat(parts)|)) case Err(e) => r == Err(e)
  {
    var view, count, total := payload, 0, 0;
    while view != []
      invariant match Strings(view)
                case Err(e) => Strings(payload) == Err(e)
                case Ok(more) =>
                  && Strings(payload).Ok?
                  && |Strings(payload).value| == count + |more|
                  && |Concat(Strings(payload).value)| == total + |Concat(more)|
      decreases |view|
    {
      var h :- DecodeHeader(view);
      if h.list { return Err(UnexpectedList); }
      ScanStep(view);
      count, total := count + 1, total + h.payload;
      if |view| < h.size + h.payload { return Err(InputTooShort); }
      view := view[h.size + h.payload..];
    }
    r := Ok((count, total));
  }

  class ChunkedListDecoder {
    var view: bytes
    var listPayload: bytes
    var totalSize: nat
    var totalChunks: nat
    var chunkIndex: nat
    var initialized: bool

    /** A chunk count is that of the list ahead, or counts what was read and what is left. */
    ghost predicate Valid()
      reads this
    {
      if initialized then
        Strings(listPayload).Ok? && totalChunks == chunkIndex + |Strings(listPayload).value|
      else
        chunkIndex == 0 && (totalChunks > 0 ==> ChunksOf(view).Ok? && totalChunks == |ChunksOf(view).value|)
    }

    /** The chunks still to come. */
    ghost function Pending(): Result<seq<bytes>, DecodingError>
      reads this
    {
      if initialized then Strings(listPayload) else ChunksOf(view)
    }

    constructor (data: bytes)
      ensures Valid() && !initialized && Pending() == ChunksOf(data)
    {
      view, listPayload := data, [];
      totalSize, totalChunks, chunkIndex, initialized := 0, 0, 0, false;
    }

    /**
     `peekTotalSize` and `peekChunkCount`: before reading, what the reads will then deliver; afterwards what was
     counted before, or else a scan of the view, which by then begins at the first chunk.
     */
    method PeekTotalSize() returns (r: Result<nat, DecodingError>)
      requires Valid()
      modifies this`totalSize, this`totalChunks
      ensures old(initialized && totalSize > 0) ==> r == Ok(old(totalSize))
      ensures !old(initialized && totalSize > 0) ==>
                match ChunksOf(view)
                case Err(e) => r == Err(e)
                case Ok(parts) => r == Ok(|Concat(parts)|) && totalSize == |Concat(parts)| && totalChunks == |parts|
      ensures r.Err? || old(initialized && totalSize > 0) ==>
              totalSize == old(totalSize) && totalChunks == old(totalChunks)
      ensures !initialized ==> Valid() && Pending() == ChunksOf(view)
    {
      if initialized && totalSize > 0 { return Ok(totalSize); }
      var h :- DecodeHeader(view);
      if !h.list { return Err(UnexpectedString); }
      if |view| < h.size + h.payload { return Err(InputTooShort); }
      assert view[h.size..][..h.payload] == view[h.size..h.size + h.payload];
      var scanned := Scan(view[h.size..h.size + h.payload]);
      if scanned.Err? { return Err(scanned.error); }
      totalChunks, totalSize := scanned.value.0, scanned.value.1;
      r := Ok(totalSize);
    }

    method PeekChunkCount() returns (r: Result<nat, DecodingError>)
      requires Valid()
      modifies this`totalSize, this`totalChunks
      ensures old(initialized && totalChunks > 0) ==> r == Ok(old(totalChunks)) && totalChunks == old(totalChunks)
      ensures !old(initialized && totalChunks > 0) && !old(initialized && totalSize > 0) ==>
                match ChunksOf(view) case Err(e) => r == Err(e) case Ok(parts) => r == Ok(|parts|)
      ensures old(initialized && totalChunks == 0 && totalSize > 0) ==> r == Ok(0)
      ensures !initialized ==> Valid() && Pending() == ChunksOf(view)
    {
      if initialized && totalChunks > 0 { return Ok(totalChunks); }
      var total :- PeekTotalSize();
      r := Ok(totalChunks);
    }

    method Initialize() returns (r: Result<(), DecodingError>)
      requires Valid() && !initialized
      modifies this
      ensures match old(Pending())
              case Err(e) => r == Err(e)
              case Ok(parts) => r == Ok(()) && initialized && Valid() && Pending() == Ok(parts)
    {
      var h :- DecodeHeader(view);
      if !h.list { return Err(UnexpectedString); }
      if |view| < h.size + h.payload { return Err(InputTooShort); }
      view := view[h.size..];
      listPayload := view[..h.payload];
      assert Strings(listPayload) == old(Pending());
      if totalChunks == 0 {
        var scanned := Scan(listPayload);
        if scanned.Err? { return Err(scanned.error); }
        totalChunks := scanned.value.0;
      }
      initialized := true;
      r := Ok(());
    }

    /** `readChunk`: the chunks in order, then empty views. */
    method ReadChunk() returns (r: Result<bytes, DecodingError>)
      requires Valid()
      modifies this
      ensures match old(Pending())
              case Err(e) => r == Err(e)
              case Ok(parts) =>
                && Valid() && initialized
                && (parts == [] ==> r == Ok([]) && Pending() == Ok([]))
                && (parts != [] ==> r == Ok(parts[0]) && Pending() == Ok(parts[1..]))
    {
      hide DecodeHeader, ChunksOf;
      if !initialized {
        var done :- Initialize();
      }
      if chunkIndex >= totalChunks || listPayload == [] {
        assert listPayload == [];
        return Ok([]);
      }
      ghost var parts := Strings(listPayload).value;
      var h := DecodeHeader(listPayload);
      assert h.Ok? && !h.value.list;
      var end := h.value.size + h.value.payload;
      var chunk := listPayload[h.value.size..end];
      listPayload := listPayload[end..];
      chunkIndex := chunkIndex + 1;
      assert parts == [chunk] + Strings(listPayload).value;
      r := Ok(chunk);
    }
  }

  /** The chunks before the first empty one. */
  function UntilEmpty(parts: seq<bytes>): seq<bytes> {
    if parts == [] || parts[0] == [] then [] else [parts[0]] + UntilEmpty(parts[1..])
  }

  lemma {:induction false} StopsLater(parts: seq<bytes>)
    requires parts != [] && parts[0] != []
    ensures Concat(UntilEmpty(parts)) == parts[0] + Concat(UntilEmpty(parts[1..]))
  {
    assert UntilEmpty(parts)[1..] == UntilEmpty(parts[1..]);
  }

  /**
   `decodeChunkedListFull`: reads until an empty chunk. Of the decoder it is given it takes the remaining view and
   moves nothing.
   */
  method DecodeChunkedListFull(remaining: bytes) returns (r: Result<bytes, DecodingError>)
    ensures r == match ChunksOf(remaining) case Err(e) => Err(e) case Ok(parts) => Ok(Concat(UntilEmpty(parts)))
  {
    hide ChunksOf, Strings;
    var stream := new ChunkedListDecoder(remaining);
    var out := [];
    ghost var whole := ChunksOf(remaining);
    ghost var left := if whole.Ok? then whole.value else [];
    var finished := false;
    while !finished
      invariant stream.Valid() && fresh(stream)
      invariant stream.Pending() == (if whole.Ok? then Ok(left) else whole) || (finished && whole.Ok?)
      invariant whole.Ok? ==> Concat(UntilEmpty(whole.value)) == out + Concat(UntilEmpty(left))
      invariant finished ==> whole.Ok? && UntilEmpty(left) == []
      decreases !finished, |left|
    {
      var chunk := stream.ReadChunk();
      if chunk.Err? { return Err(chunk.error); }
      if chunk.value == [] {
        finished := true;
      } else {
        StopsLater(left);
        assert out + (chunk.value + Concat(UntilEmpty(left[1..]))) == out + chunk.value + Concat(UntilEmpty(left[1..]));
        out, left := out + chunk.value, left[1..];
      }
    }
    assert out + [] == out;
    r := Ok(out);
  }

  /** Nothing but empty chunks follows an empty chunk. */
  ghost predicate EmptiesLast(parts: seq<bytes>) {
    forall i, j :: 0 <= i < j < |parts| && parts[i] == [] ==> parts[j] == []
  }

  lemma {:induction false} EmptiesLastTail(parts: seq<bytes>)
    requires parts != [] && parts[0] != []
    ensures EmptiesLast(parts) <==> EmptiesLast(parts[1..])
  {
    var tail := parts[1..];
    assert forall i :: 0 <= i < |tail| ==> tail[i] == parts[i + 1];
    if EmptiesLast(tail) {
      forall i, j | 0 <= i < j < |parts| && parts[i] == [] ensures parts[j] == [] {
        assert tail[i - 1] == [] ==> tail[j - 1] == [];
      }
    }
  }

  lemma {:induction false} EmptiesLastAll(parts: seq<bytes>)
    requires parts != [] && parts[0] == []
    ensures EmptiesLast(parts) <==> forall i :: 0 <= i < |parts| ==> parts[i] == []
  {
    if EmptiesLast(parts) {
      forall j | 0 <= j < |parts| ensures parts[j] == [] { assert j > 0 ==> parts[0] == []; }
    }
  }

  lemma {:induction false} EmptiesLastNone()
    ensures EmptiesLast([])
  {}

  lemma {:induction false} Cancel(a: bytes, b: bytes, c: bytes)
    ensures a + b == a + c <==> b == c
  {
    assert (a + b)[|a|..] == b && (a + c)[|a|..] == c;
  }

  lemma {:induction false} EmptyConcat(parts: seq<bytes>)
    ensures Concat(parts) == [] <==> forall i :: 0 <= i < |parts| ==> parts[i] == []
  {
    if parts != [] {
      EmptyConcat(parts[1..]);
      assert forall i :: 1 <= i < |parts| ==> parts[i] == parts[1..][i - 1];
    }
  }

  /** Reassembly is complete exactly when nothing but empty chunks follows an empty chunk. */
  lemma {:induction false} ReassemblyComplete(parts: seq<bytes>)
    ensures Concat(UntilEmpty(parts)) == Concat(parts)
       <==> EmptiesLast(parts)
  {
    hide EmptiesLast;
    if parts == [] {
      EmptiesLastNone();
    } else if parts[0] == [] {
      EmptyConcat(parts);
      EmptiesLastAll(parts);
    } else {
      StopsLater(parts);
      ReassemblyComplete(parts[1..]);
      EmptiesLastTail(parts);
      Cancel(parts[0], Concat(UntilEmpty(parts[1..])), Concat(parts[1..]));
    }
  }

  /** Strings that were written are the ones found. */
  lemma {:induction false} StringsWritten(parts: seq<bytes>)
    requires forall i :: 0 <= i < |parts| ==> |parts[i]| < SIZE_LIMIT
    ensures Strings(EncAll(Strs(parts))) == Ok(parts)
  {
    hide ReadStr, EncStr;
    if parts != [] {
      var tail := parts[1..];
      StringsWritten(tail);
      assert Strs(parts)[1..] == Strs(tail);
      var v := EncStr(parts[0]) + EncAll(Strs(tail));
      assert EncAll(Strs(parts)) == v;
      ReadStrExact(v, parts[0], EncAll(Strs(tail)));
      ReadStrShrinks(v);
      assert [parts[0]] + tail == parts;
    }
  }

  /** Whatever is sent in chunks of any positive size is reassembled, whatever follows the list. */
  lemma {:induction false} ChunkedRoundTrip(data: bytes, size: nat, rest: bytes)
    requires 0 < size < SIZE_LIMIT && |EncAll(Strs(Cut(data, size)))| < SIZE_LIMIT
    ensures var chunks := Cut(data, size);
            && ChunksOf(Enc(List(Strs(chunks))) + rest) == Ok(chunks)
            && Concat(UntilEmpty(chunks)) == data
            && (|chunks| - 1) * size < |data| <= |chunks| * size
  {
    var chunks := Cut(data, size);
    var payload := EncAll(Strs(chunks));
    CutConcat(data, size);
    CutCount(data, size);
    StringsWritten(chunks);
    ReassemblyComplete(chunks);
    var v := Enc(List(Strs(chunks))) + rest;
    assert v == HeaderBytes(true, |payload|) + (payload + rest);
    ListHeaderExact(v, |payload|, payload + rest);
    assert (payload + rest)[..|payload|] == payload;
  }
}
