/** Reading nested lists and vectors with the decoder, and writing vectors with the encoder. */
module RlpReading {
  import opened Bytes
  import opened RlpFormat
  import opened RlpEncoder
  import opened RlpTree
  import opened RlpDecoder

  /** Items in front of what the rest of a payload decodes to. */
  function Prepend(ts: seq<Item>, r: Result<seq<Item>, DecodingError>): Result<seq<Item>, DecodingError> {
    match r
    case Ok(more) => Ok(ts + more)
    case Err(e) => Err(e)
  }

  /** The prefix byte alone tells strings from lists. */
  lemma {:induction false} StringItem(v: bytes)
    requires v != [] && v[0] < SHORT_LIST
    ensures DecodeItem(v) == match ReadStr(v) case Ok((s, rest)) => Ok((Str(s), rest)) case Err(e) => Err(e)
  {}

  lemma {:induction false} ListItem(v: bytes)
    requires v != [] && v[0] >= SHORT_LIST
    ensures match ListHeader(v)
            case Err(e) => DecodeItem(v) == Err(e)
            case Ok((n, tail)) =>
              && n <= |tail| < |v|
              && DecodeItem(v)
                 == match DecodeAll(tail[..n]) case Ok(ts) => Ok((List(ts), tail[n..])) case Err(e) => Err(e)
  {
    if DecodeHeader(v).Ok? {
      var h := DecodeHeader(v).value;
      var tail := v[h.size..];
      assert v[h.size..h.size + h.payload] == tail[..h.payload] && v[h.size + h.payload..] == tail[h.payload..];
    }
  }

  /** Reads one complete item through the decoder's own operations, lists through a decoder over their payload. */
  method ReadItem(d: RlpDecoder) returns (r: Result<Item, DecodingError>)
    modifies d
    ensures match DecodeItem(old(d.view))
            case Ok((t, rest)) => r == Ok(t) && d.view == rest
            case Err(e) => r == Err(e)
    decreases |d.view|, 1
  {
    if d.view == [] { return Err(InputTooShort); }
    ghost var v := d.view;
    if d.view[0] < SHORT_LIST {
      StringItem(v);
      hide *;
      var s := d.Read();
      if s.Err? { return Err(s.error); }
      return Ok(Str(s.value));
    }
    ListItem(v);
    var n :- d.ReadListHeader();
    var inner := new RlpDecoder(d.view[..n]);
    var items := ReadItems(inner);
    d.view := d.view[n..];
    if items.Err? { return Err(items.error); }
    r := Ok(List(items.value));
  }

  method ReadItems(d: RlpDecoder) returns (r: Result<seq<Item>, DecodingError>)
    modifies d
    ensures r == DecodeAll(old(d.view))
    decreases |d.view|, 2
  {
    var items := [];
    ghost var payload := d.view;
    assert forall more: seq<Item> :: [] + more == more;
    while d.view != []
      invariant |d.view| <= |payload|
      invariant DecodeAll(payload) == Prepend(items, DecodeAll(d.view))
      decreases |d.view|
    {
      ghost var v := d.view;
      var t := ReadItem(d);
      if t.Err? { return Err(t.error); }
      assert DecodeAll(v) == Prepend([t.value], DecodeAll(d.view));
      assert forall more: seq<Item> :: items + ([t.value] + more) == items + [t.value] + more;
      items := items + [t.value];
    }
    assert items + [] == items;
    r := Ok(items);
  }

  // ---------------------------------------------------------------------------------------------
  // Vectors of unsigned integers
  // ---------------------------------------------------------------------------------------------

  function UintItems(ns: seq<nat>): seq<Item> {
    if ns == [] then [] else [Str(ToBigCompact(ns[0]))] + UintItems(ns[1..])
  }

  lemma {:induction false} UintItemsPush(ns: seq<nat>, n: nat)
    ensures UintItems(ns + [n]) == UintItems(ns) + [Str(ToBigCompact(n))]
  {
    if ns == [] {
      assert ns + [n] == [n] && [n][1..] == [];
    } else {
      assert (ns + [n])[1..] == ns[1..] + [n];
      UintItemsPush(ns[1..], n);
    }
  }

  ghost predicate AllBelow(ns: seq<nat>, limit: nat) {
    forall i :: 0 <= i < |ns| ==> ns[i] < limit
  }

  /** `add(std::vector<T>)` for unsigned elements. */
  method AddUintVector(e: RlpEncoder, ns: seq<nat>, width: nat) returns (r: Result<(), EncodingError>)
    requires e.Valid() && width in {1, 2, 4, 8} && AllBelow(ns, Pow256(width))
    modifies e
    ensures e.Valid()
    ensures r.Ok? <==> |EncAll(UintItems(ns))| < SIZE_LIMIT
    ensures r.Ok? ==> e.levels == Extend(old(e.levels), Enc(List(UintItems(ns))))
  {
    e.BeginList();
    ghost var outer := old(e.levels);
    for i := 0 to |ns|
      invariant e.Valid() && e.levels == outer + [EncAll(UintItems(ns[..i]))]
      invariant |e.starts| == |old(e.starts)| + 1
    {
      e.AddUint(ns[i], width);
      UintItemsPush(ns[..i], ns[i]);
      assert ns[..i + 1] == ns[..i] + [ns[i]];
      EncAllConcat(UintItems(ns[..i]), [Str(ToBigCompact(ns[i]))]);
      EncAllOne(Str(ToBigCompact(ns[i])));
      assert (outer + [EncAll(UintItems(ns[..i]))])[..|outer|] == outer;
    }
    assert ns[..|ns|] == ns;
    assert (outer + [EncAll(UintItems(ns))])[..|outer|] == outer;
    r := e.EndList();
  }

  /** All elements of a list payload. */
  function ReadUints(v: bytes, width: nat): Result<seq<nat>, DecodingError>
    decreases |v|
  {
    if v == [] then Ok([])
    else
      var (n, rest) :- ReadUint(v, width);
      if |rest| >= |v| then Err(InputTooShort)
      else
        var more :- ReadUints(rest, width);
        Ok([n] + more)
  }

  lemma {:induction false} ShorterAfterUint(v: bytes, width: nat)
    requires ReadUint(v, width).Ok?
    ensures |ReadUint(v, width).value.1| < |v|
  {}

  method ReadElements(payload: bytes, width: nat) returns (r: Result<seq<nat>, DecodingError>)
    ensures r == ReadUints(payload, width)
  {
    hide ReadUint;
    assert forall more: seq<nat> :: [] + more == more;
    var view, out := payload, [];
    while view != []
      invariant match ReadUints(view, width)
                case Ok(more) => ReadUints(payload, width) == Ok(out + more)
                case Err(e) => ReadUints(payload, width) == Err(e)
      decreases |view|
    {
      var element := ReadUint(view, width);
      if element.Err? { return Err(element.error); }
      ShorterAfterUint(view, width);
      assert forall more: seq<nat> :: out + ([element.value.0] + more) == out + [element.value.0] + more;
      out, view := out + [element.value.0], element.value.1;
    }
    assert out + [] == out;
    r := Ok(out);
  }

  /** `read_vector`: the elements are read from a view of the payload alone. */
  method ReadUintVector(d: RlpDecoder, width: nat) returns (r: Result<seq<nat>, DecodingError>)
    requires 1 <= width <= 8
    modifies d
    ensures match ListHeader(old(d.view))
            case Err(e) => r == Err(e) && d.view == old(d.view)
            case Ok((n, tail)) =>
              n <= |tail| && r == ReadUints(tail[..n], width) && (r.Ok? ==> d.view == tail[n..])
  {
    ListHeaderFits(d.view);
    var n := d.ReadListHeader();
    if n.Err? { return Err(n.error); }
    var out := ReadElements(d.view[..n.value], width);
    if out.Err? { return out; }
    d.view := d.view[n.value..];
    r := out;
  }

  /** A written vector reads back element by element. */
  lemma {:induction false} VectorRoundTrip(ns: seq<nat>, width: nat)
    requires 1 <= width <= 8 && AllBelow(ns, Pow256(width))
    ensures ReadUints(EncAll(UintItems(ns)), width) == Ok(ns)
  {
    if ns != [] {
      var tail := EncAll(UintItems(ns[1..]));
      VectorRoundTrip(ns[1..], width);
      var v := EncStr(ToBigCompact(ns[0])) + tail;
      assert UintItems(ns)[1..] == UintItems(ns[1..]);
      assert EncAll(UintItems(ns)) == v;
      ReadUintExact(v, width, ns[0], tail);
      ShorterAfterUint(v, width);
      assert [ns[0]] + ns[1..] == ns;
    }
  }
}
