/** The plaintexts of FINDNODE and NODES messages: a type byte and an RLP list. */
module Discv5Texts {
  import opened Bytes
  import opened RlpFormat
  import opened RlpEncoder
  import opened RlpDecoder

  const MSG_FINDNODE: byte := 3
  const MSG_NODES: byte := 4
  const ALL_DISTANCES: nat := 256

  // ---------------------------------------------------------------------------------------------
  // FINDNODE
  // ---------------------------------------------------------------------------------------------

  /** The request id and the list of the one distance asked for. */
  function FindnodeItem(request: bytes): Item {
    List([Str(request), List([Str(ToBigCompact(ALL_DISTANCES))])])
  }

  function FindnodeText(request: bytes): Option<bytes> {
    if Encodable(FindnodeItem(request)) then Some([MSG_FINDNODE] + Enc(FindnodeItem(request))) else None
  }

  /** `parse_findnode_req_id`: what follows the request id is not looked at. */
  function FindnodeRequest(body: bytes): Option<bytes> {
    match ListHeader(body)
    case Err(_) => None
    case Ok((_, v)) =>
      match ReadStr(v)
      case Err(_) => None
      case Ok((request, _)) => Some(request)
  }

  lemma {:induction false} DistanceSize()
    ensures |EncStr(ToBigCompact(ALL_DISTANCES))| < SIZE_LIMIT
  {
    hide ToBigCompact;
    Pow256Values();
    CompactLength(ALL_DISTANCES, 2);
  }

  lemma {:induction false} DistanceItem()
    ensures var d := EncStr(ToBigCompact(ALL_DISTANCES));
            Enc(List([Str(ToBigCompact(ALL_DISTANCES))])) == HeaderBytes(true, |d|) + d
  {
    hide ToBigCompact, EncStr, HeaderBytes;
    EncAllOne(Str(ToBigCompact(ALL_DISTANCES)));
  }

  lemma {:induction false} DistanceFits()
    ensures Encodable(List([Str(ToBigCompact(ALL_DISTANCES))]))
  {
    hide ToBigCompact, EncStr;
    Pow256Values();
    CompactLength(ALL_DISTANCES, 2);
    DistanceSize();
    var d := Str(ToBigCompact(ALL_DISTANCES));
    EncAllOne(d);
    assert [d][1..] == [];
    assert Encodable(d) && EncodableAll([d][1..]);
    assert EncodableAll([d]);
  }

  lemma {:induction false} FindnodeParts(request: bytes)
    ensures EncAll(FindnodeItem(request).items) == EncStr(request) + Enc(List([Str(ToBigCompact(ALL_DISTANCES))]))
    ensures Encodable(FindnodeItem(request)) <==>
              |request| < SIZE_LIMIT && |EncAll(FindnodeItem(request).items)| < SIZE_LIMIT
  {
    hide ToBigCompact, EncStr, HeaderBytes;
    var distances := List([Str(ToBigCompact(ALL_DISTANCES))]);
    var items := FindnodeItem(request).items;
    assert items == [Str(request)] + [distances];
    EncAllConcat([Str(request)], [distances]);
    EncAllOne(Str(request));
    EncAllOne(distances);
    EncodableAllConcat([Str(request)], [distances]);
    DistanceFits();
    assert [Str(request)][1..] == [] && [distances][1..] == [];
  }

  lemma {:induction false} FindnodeSize(request: bytes)
    requires |request| < 1000
    ensures |EncAll(FindnodeItem(request).items)| < SIZE_LIMIT
  {
    hide ToBigCompact;
    FindnodeParts(request);
    DistanceItem();
    Pow256Values();
    CompactLength(ALL_DISTANCES, 2);
    CompactLength(|request|, 2);
    CompactLength(|EncStr(ToBigCompact(ALL_DISTANCES))|, 2);
  }

  lemma {:induction false} RequestTextExists(request: bytes)
    requires |request| < 1000
    ensures FindnodeText(request).Some?
  {
    hide Encodable, EncAll;
    FindnodeParts(request);
    FindnodeSize(request);
  }

  /** A FINDNODE text names the request it was made for. */
  lemma {:induction false} FindnodeNamesRequest(request: bytes)
    requires FindnodeText(request).Some?
    ensures var text := FindnodeText(request).value;
            text != [] && text[0] == MSG_FINDNODE && FindnodeRequest(text[1..]) == Some(request)
  {
    hide ListHeader, ReadStr, EncStr, HeaderBytes, Encodable;
    FindnodeParts(request);
    var payload := EncAll(FindnodeItem(request).items);
    ListHeaderExact(Enc(FindnodeItem(request)), |payload|, payload);
    ReadStrExact(payload, request, Enc(List([Str(ToBigCompact(ALL_DISTANCES))])));
    assert FindnodeText(request).value[1..] == Enc(FindnodeItem(request));
  }

  // ---------------------------------------------------------------------------------------------
  // NODES
  // ---------------------------------------------------------------------------------------------

  /** The request id, the number of replies, which is one, and a list of the record as it is. */
  function NodesBody(request: bytes, record: bytes): bytes {
    EncStr(request) + EncStr(ToBigCompact(1)) + (HeaderBytes(true, |record|) + record)
  }

  function NodesText(request: bytes, record: bytes): Option<bytes> {
    var body := NodesBody(request, record);
    if |request| < SIZE_LIMIT && 0 < |record| < SIZE_LIMIT && |body| < SIZE_LIMIT then
      Some([MSG_NODES] + HeaderBytes(true, |body|) + body)
    else None
  }

  lemma {:induction false} OneIsCompact()
    ensures ToBigCompact(1) == [1]
  {
    SmallIsCompact(1);
  }

  /** The layout as an item: with a record that is one item, the text is the type byte and the list of the three. */
  lemma {:induction false} NodesLayout(request: bytes, record: Item)
    requires NodesText(request, Enc(record)).Some?
    ensures NodesText(request, Enc(record)).value == [MSG_NODES] + Enc(List([Str(request), Str([1]), List([record])]))
  {
    hide EncStr, HeaderBytes, ToBigCompact;
    var items := [Str(request), Str([1]), List([record])];
    OneIsCompact();
    EncAllOne(record);
    EncAllOne(List([record]));
    var last := Enc(List([record]));
    EncAllCons(Str([1]), [List([record])]);
    EncAllCons(Str(request), [Str([1])] + [List([record])]);
    assert items == [Str(request)] + ([Str([1])] + [List([record])]);
    assert EncAll(items) == EncStr(request) + (EncStr([1]) + last);
    assert EncAll(items) == NodesBody(request, Enc(record));
    var header := HeaderBytes(true, |EncAll(items)|);
    assert [MSG_NODES] + header + EncAll(items) == [MSG_NODES] + (header + EncAll(items));
  }

  /** The records of a reply that parse, up to the end of their list or the first item that is none. */
  function PeersOf<T>(peerOf: bytes -> Option<T>, v: bytes, target: nat): seq<T>
    decreases |v|
  {
    if v == [] || |v| <= target then []
    else
      match DecodeHeader(v)
      case Err(_) => []
      case Ok(h) =>
        var more := PeersOf(peerOf, v[h.size + h.payload..], target);
        match peerOf(v[..h.size + h.payload])
        case None => more
        case Some(peer) => [peer] + more
  }

  /** `parse_nodes_message`. */
  function ReadNodes<T>(peerOf: bytes -> Option<T>, body: bytes): Option<(bytes, seq<T>)> {
    match ListHeader(body)
    case Err(_) => None
    case Ok((_, v0)) =>
      match ReadStr(v0)
      case Err(_) => None
      case Ok((request, v1)) =>
        match ReadUint(v1, 1)
        case Err(_) => None
        case Ok((_, v2)) =>
          match ListHeader(v2)
          case Err(_) => None
          case Ok((n, v3)) =>
            ListHeaderFits(v2);
            Some((request, PeersOf(peerOf, v3, |v3| - n)))
  }

  /** A NODES text gives back the request id and every record in it that parses. */
  lemma {:induction false} NodesNameRequest<T>(peerOf: bytes -> Option<T>, request: bytes, record: bytes)
    requires NodesText(request, record).Some?
    ensures var text := NodesText(request, record).value;
            && text != [] && text[0] == MSG_NODES
            && ReadNodes(peerOf, text[1..]) == Some((request, PeersOf(peerOf, record, 0)))
  {
    hide ListHeader, ReadStr, ReadUint, EncStr, HeaderBytes, ToBigCompact, Pow256, PeersOf;
    var body := NodesBody(request, record);
    var v2 := HeaderBytes(true, |record|) + record;
    var v1 := EncStr(ToBigCompact(1)) + v2;
    var text := NodesText(request, record).value;
    assert text[1..] == HeaderBytes(true, |body|) + body;
    ListHeaderExact(HeaderBytes(true, |body|) + body, |body|, body);
    assert body == EncStr(request) + v1;
    ReadStrExact(body, request, v1);
    Pow256Values();
    ReadUintExact(v1, 1, 1, v2);
    ListHeaderExact(v2, |record|, record);
  }

  /** One record that is one item gives one peer, if it parses. */
  lemma {:induction false} OneRecord<T>(peerOf: bytes -> Option<T>, record: bytes)
    requires record != [] && DecodeHeader(record).Ok?
    requires DecodeHeader(record).value.size + DecodeHeader(record).value.payload == |record|
    ensures PeersOf(peerOf, record, 0) == if peerOf(record).Some? then [peerOf(record).value] else []
  {
    hide DecodeHeader;
    assert record[..|record|] == record && record[|record|..] == [];
    assert PeersOf(peerOf, [], 0) == [];
  }

  // ---------------------------------------------------------------------------------------------
  // The same with the encoder and the decoder
  // ---------------------------------------------------------------------------------------------

  lemma OuterItem(request: bytes)
    ensures var payload := EncAll(FindnodeItem(request).items);
            Enc(FindnodeItem(request)) == HeaderBytes(true, |payload|) + payload
  {}

  /** What is first added to a level just opened is that level. */
  lemma {:induction false} OpenedLevel(levels: seq<bytes>, s: bytes)
    ensures Extend(levels + [[]], s) == levels + [s] && Below(levels + [s]) == levels && Top(levels + [s]) == s
  {
    assert [] + s == s;
  }

  method AddDistances(e: RlpEncoder)
    requires e.Valid()
    modifies e
    ensures e.Valid() && e.starts == old(e.starts)
    ensures e.levels == Extend(old(e.levels), Enc(List([Str(ToBigCompact(ALL_DISTANCES))])))
  {
    hide EncStr, HeaderBytes, ToBigCompact, Pow256, Enc, EncAll, Flat;
    Pow256Values();
    DistanceSize();
    DistanceItem();
    ghost var outer, distance := e.levels, EncStr(ToBigCompact(ALL_DISTANCES));
    e.BeginList();
    e.AddUint(ALL_DISTANCES, 4);
    OpenedLevel(outer, distance);
    var ended := e.EndList();
    assert ended.Ok?;
  }

  /** `make_findnode_plaintext`. */
  method MakeFindnode(request: bytes) returns (r: Option<bytes>)
    ensures r == FindnodeText(request)
  {
    hide EncStr, HeaderBytes, Encodable, ToBigCompact, Enc, EncAll;
    FindnodeParts(request);
    OuterItem(request);
    var e := new RlpEncoder();
    e.BeginList();
    var added := e.Add(request);
    if added.Err? { return None; }
    OpenedLevel([[]], EncStr(request));
    AddDistances(e);
    ghost var payload := EncAll(FindnodeItem(request).items);
    assert e.levels == [[]] + [payload];
    var ended := e.EndList();
    if ended.Err? { return None; }
    assert e.levels == [[] + Enc(FindnodeItem(request))];
    assert [] + Enc(FindnodeItem(request)) == Enc(FindnodeItem(request));
    var bytes := e.GetBytes();
    assert bytes.Ok?;
    r := Some([MSG_FINDNODE] + bytes.value);
  }

  method AddRecord(e: RlpEncoder, record: bytes) returns (added: bool)
    requires e.Valid()
    modifies e
    ensures e.Valid() && (added <==> 0 < |record| < SIZE_LIMIT)
    ensures added ==>
            e.starts == old(e.starts) && e.levels == Extend(old(e.levels), HeaderBytes(true, |record|) + record)
  {
    hide HeaderBytes, Flat;
    ghost var outer := e.levels;
    e.BeginList();
    var raw := e.AddRaw(record);
    if raw.Err? { return false; }
    OpenedLevel(outer, record);
    var ended := e.EndList();
    added := ended.Ok?;
  }

  /** `make_nodes_plaintext`. */
  method MakeNodes(request: bytes, record: bytes) returns (r: Option<bytes>)
    ensures r == NodesText(request, record)
  {
    hide EncStr, HeaderBytes, ToBigCompact, Pow256, Flat;
    Pow256Values();
    var e := new RlpEncoder();
    e.BeginList();
    var added := e.Add(request);
    if added.Err? { return None; }
    OpenedLevel([[]], EncStr(request));
    e.AddUint(1, 1);
    ghost var front := EncStr(request) + EncStr(ToBigCompact(1));
    assert e.levels == [[]] + [front];
    var recorded := AddRecord(e, record);
    if !recorded { return None; }
    ghost var body := NodesBody(request, record);
    assert e.levels == [[]] + [body];
    var ended := e.EndList();
    if ended.Err? { return None; }
    ghost var whole := HeaderBytes(true, |body|) + body;
    assert e.levels == [[] + whole] && [] + whole == whole;
    var bytes := e.GetBytes();
    assert bytes.Ok?;
    r := Some([MSG_NODES] + bytes.value);
    assert [MSG_NODES] + whole == [MSG_NODES] + HeaderBytes(true, |body|) + body;
  }

  lemma {:induction false} PeersStop<T>(peerOf: bytes -> Option<T>, v: bytes, target: nat)
    requires v == [] || |v| <= target || DecodeHeader(v).Err?
    ensures PeersOf(peerOf, v, target) == []
  {}

  lemma {:induction false} PeersStep<T>(peerOf: bytes -> Option<T>, v: bytes, target: nat, h: Header, peers: seq<T>)
    requires |v| > target && DecodeHeader(v) == Ok(h)
    ensures var n := h.size + h.payload;
            var peer := peerOf(v[..n]);
            peers + PeersOf(peerOf, v, target) ==
            (if peer.Some? then peers + [peer.value] else peers) + PeersOf(peerOf, v[n..], target)
  {
    hide DecodeHeader;
    var more := PeersOf(peerOf, v[h.size + h.payload..], target);
    assert forall x: T :: peers + ([x] + more) == peers + [x] + more;
  }

  method ParsePeers<T>(peerOf: bytes -> Option<T>, d: RlpDecoder, length: nat) returns (peers: seq<T>)
    requires length <= |d.view|
    modifies d
    ensures peers == PeersOf(peerOf, old(d.view), |old(d.view)| - length)
  {
    hide DecodeHeader, PeersOf;
    ghost var target := |d.view| - length;
    var start := |d.view|;
    var stopped := false;
    peers := [];
    while d.view != [] && !stopped
      invariant PeersOf(peerOf, old(d.view), target)
                == peers + (if stopped then [] else PeersOf(peerOf, d.view, target))
      decreases |d.view|, !stopped
    {
      var h := DecodeHeader(d.view);
      if start - |d.view| >= length || h.Err? {
        PeersStop(peerOf, d.view, target);
        stopped := true;
      } else {
        PeersStep(peerOf, d.view, target, h.value, peers);
        var raw := d.view[..h.value.size + h.value.payload];
        var skipped := d.SkipItem();
        assert skipped.Ok?;
        var peer := peerOf(raw);
        if peer.Some? { peers := peers + [peer.value]; }
      }
    }
    if !stopped { PeersStop(peerOf, d.view, target); }
  }

  /** `parse_nodes_message`, with the loop over the records. */
  method ParseNodes<T>(peerOf: bytes -> Option<T>, body: bytes) returns (r: Option<(bytes, seq<T>)>)
    ensures r == ReadNodes(peerOf, body)
  {
    hide ListHeader, ReadStr, ReadUint, PeersOf, DecodeHeader;
    var d := new RlpDecoder(body);
    var outer := d.ReadListHeader();
    if outer.Err? { return None; }
    var request := d.Read();
    if request.Err? { return None; }
    var count := d.ReadIntegral(1);
    if count.Err? { return None; }
    ListHeaderFits(d.view);
    var length := d.ReadListHeader();
    if length.Err? { return None; }
    var peers := ParsePeers(peerOf, d, length.value);
    r := Some((request.value, peers));
  }
}
