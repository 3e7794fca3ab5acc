/** The list-valued eth messages, block bodies and new blocks. */
module EthMessages {
  import opened Bytes
  import opened RlpFormat
  import opened RlpEncoder
  import opened RlpTree
  import opened RlpDecoder
  import opened RlpFields
  import opened EthObjects
  import opened EthBlocks

  // ---------------------------------------------------------------------------------------------
  // Elements that are cut out as whole items and decoded on their own
  // ---------------------------------------------------------------------------------------------

  function PutBlockHeader(h: BlockHeader, rest: bytes): bytes {
    EncodeBlockHeader(h) + rest
  }

  function ReadBlockHeader(v: bytes): Result<(BlockHeader, bytes), DecodingError> {
    var (item, rest) :- NextItem(v);
    var h :- DecodeBlockHeader(item);
    Ok((h, rest))
  }

  lemma {:induction false} BlockHeaderBack(h: BlockHeader)
    requires HeaderFits(h)
    ensures ReadsBack(ReadBlockHeader, PutBlockHeader, h)
  {
    hide NextItem, DecodeBlockHeader, HeaderFields, HeaderBytes;
    BlockHeaderRoundTrip(h);
    HeaderNonempty(|HeaderFields(h)|);
    assert forall x: bytes :: x + [] == x;
    forall rest: bytes
      ensures ReadBlockHeader(PutBlockHeader(h, rest)) == Ok((h, rest))
      ensures |PutBlockHeader(h, rest)| == |PutBlockHeader(h, [])| + |rest| && PutBlockHeader(h, rest) != rest
    {
      ListIsNextItem(HeaderFields(h), rest);
    }
  }

  /** A receipt in a list; one without an outcome cannot be written. */
  function PutReceipt(r: Receipt, rest: bytes): bytes {
    if EncodeReceipt(r).Ok? then EncodeReceipt(r).value + rest else rest
  }

  function ReadReceipt(v: bytes): Result<(Receipt, bytes), DecodingError> {
    var (item, rest) :- NextItem(v);
    var r :- DecodeReceipt(item);
    Ok((r, rest))
  }

  ghost predicate ReceiptNormal(r: Receipt) {
    ReceiptFits(r) && r.stateRoot.Some? != r.status.Some?
  }

  lemma {:induction false} ReceiptBack(r: Receipt)
    requires ReceiptNormal(r)
    ensures ReadsBack(ReadReceipt, PutReceipt, r)
  {
    hide NextItem, DecodeReceipt, ReceiptFields, HeaderBytes;
    ReceiptRoundTrip(r);
    var fields := ReceiptFields(OutcomeOf(r).value, r, []);
    HeaderNonempty(|fields|);
    forall rest: bytes
      ensures ReadReceipt(PutReceipt(r, rest)) == Ok((r, rest))
      ensures |PutReceipt(r, rest)| == |PutReceipt(r, [])| + |rest| && PutReceipt(r, rest) != rest
    {
      ListIsNextItem(fields, rest);
    }
  }

  /** A transaction in a list: a legacy one as it is, a typed one wrapped in a string. */
  function PutTransaction(tx: Transaction, rest: bytes): bytes {
    if tx.kind == Legacy then EncodeTransaction(tx) + rest else PutStr(EncodeTransaction(tx), rest)
  }

  function ReadTransaction(v: bytes): Result<(Transaction, bytes), DecodingError> {
    var h :- DecodeHeader(v);
    if !h.list && h.payload > 0 then
      var (raw, rest) :- GetStr(v);
      var tx :- DecodeTransaction(raw);
      Ok((tx, rest))
    else
      var (item, rest) :- NextItem(v);
      var tx :- DecodeTransaction(item);
      Ok((tx, rest))
  }

  ghost predicate TxNormal(tx: Transaction) {
    TxFits(tx) && NormalForm(tx) && |EncodeTransaction(tx)| < SIZE_LIMIT
  }

  lemma {:induction false} LegacyItem(tx: Transaction, rest: bytes)
    requires TxNormal(tx) && tx.kind == Legacy
    ensures ReadTransaction(PutTransaction(tx, rest)) == Ok((tx, rest))
  {
    hide DecodeHeader, NextItem, GetStr, DecodeTransaction, LegacyFields, HeaderBytes, NormalForm;
    TransactionRoundTrip(tx);
    var fields := LegacyFields(tx, []);
    ListIsNextItem(fields, rest);
    HeaderRoundTrip(true, fields, rest);
  }

  lemma {:induction false} TypedItem(tx: Transaction, rest: bytes)
    requires TxNormal(tx) && tx.kind != Legacy
    ensures ReadTransaction(PutTransaction(tx, rest)) == Ok((tx, rest))
  {
    hide DecodeHeader, NextItem, GetStr, DecodeTransaction, TypedFields, HeaderBytes, NormalForm;
    TransactionRoundTrip(tx);
    var raw := EncodeTransaction(tx);
    StrField(raw, rest);
    HeaderNonempty(|TypedFields(tx, [])|);
    assert |raw| > 1;
    HeaderRoundTrip(false, raw, rest);
    assert HeaderBytes(false, |raw|) + raw + rest == PutStr(raw, rest);
  }

  lemma {:induction false} TxNonempty(tx: Transaction)
    requires TxFits(tx)
    ensures EncodeTransaction(tx) != []
  {
    hide LegacyFields, TypedFields, HeaderBytes;
    if tx.kind == Legacy { HeaderNonempty(|LegacyFields(tx, [])|); }
  }

  lemma {:induction false} TransactionBack(tx: Transaction)
    requires TxNormal(tx)
    ensures ReadsBack(ReadTransaction, PutTransaction, tx)
  {
    hide ReadTransaction, EncodeTransaction, NormalForm;
    TxNonempty(tx);
    forall rest: bytes
      ensures ReadTransaction(PutTransaction(tx, rest)) == Ok((tx, rest))
      ensures |PutTransaction(tx, rest)| == |PutTransaction(tx, [])| + |rest| && PutTransaction(tx, rest) != rest
    {
      if tx.kind == Legacy { LegacyItem(tx, rest); } else { TypedItem(tx, rest); }
      PutGrows(EncodeTransaction(tx), rest);
    }
  }

  // ---------------------------------------------------------------------------------------------
  // Block bodies
  // ---------------------------------------------------------------------------------------------

  datatype BlockBody = BlockBody(transactions: seq<Transaction>, ommers: seq<BlockHeader>)

  function BodyFields(b: BlockBody, rest: bytes): bytes {
    PutListOf(PutTransaction, b.transactions, PutListOf(PutBlockHeader, b.ommers, rest))
  }

  /** `encode_block_body`. */
  function PutBody(b: BlockBody, rest: bytes): bytes {
    PutHeader(|BodyFields(b, [])|, BodyFields(b, rest))
  }

  /** `decode_block_body`: both lists must fill the body exactly. */
  function ReadBody(v: bytes): Result<(BlockBody, bytes), DecodingError> {
    var (n, start) :- ListHeader(v);
    var (transactions, v1) :- ReadListOf(ReadTransaction, start);
    var (ommers, v2) :- ReadListOf(ReadBlockHeader, v1);
    if |v2| != |start| - n then Err(ListLengthMismatch) else Ok((BlockBody(transactions, ommers), v2))
  }

  ghost predicate TxsNormal(txs: seq<Transaction>) {
    |PutAll(PutTransaction, txs, [])| < SIZE_LIMIT && forall i :: 0 <= i < |txs| ==> TxNormal(txs[i])
  }

  ghost predicate HeadersFit(hs: seq<BlockHeader>) {
    |PutAll(PutBlockHeader, hs, [])| < SIZE_LIMIT && forall i :: 0 <= i < |hs| ==> HeaderFits(hs[i])
  }

  ghost predicate BodyNormal(b: BlockBody) {
    |BodyFields(b, [])| < SIZE_LIMIT && TxsNormal(b.transactions) && HeadersFit(b.ommers)
  }

  lemma {:induction false} TransactionsRead(txs: seq<Transaction>, rest: bytes)
    requires TxsNormal(txs)
    ensures ReadListOf(ReadTransaction, PutListOf(PutTransaction, txs, rest)) == Ok((txs, rest))
    ensures |PutListOf(PutTransaction, txs, rest)| == |PutListOf(PutTransaction, txs, [])| + |rest|
  {
    hide ReadTransaction, PutTransaction, ReadListOf, PutListOf, TxNormal;
    forall i | 0 <= i < |txs| ensures ReadsBack(ReadTransaction, PutTransaction, txs[i]) { TransactionBack(txs[i]); }
    ReadListBack(ReadTransaction, PutTransaction, txs, rest);
  }

  lemma {:induction false} HeadersRead(hs: seq<BlockHeader>, rest: bytes)
    requires HeadersFit(hs)
    ensures ReadListOf(ReadBlockHeader, PutListOf(PutBlockHeader, hs, rest)) == Ok((hs, rest))
    ensures |PutListOf(PutBlockHeader, hs, rest)| == |PutListOf(PutBlockHeader, hs, [])| + |rest|
  {
    hide ReadBlockHeader, PutBlockHeader, ReadListOf, PutListOf, HeaderFits;
    forall i | 0 <= i < |hs| ensures ReadsBack(ReadBlockHeader, PutBlockHeader, hs[i]) { BlockHeaderBack(hs[i]); }
    ReadListBack(ReadBlockHeader, PutBlockHeader, hs, rest);
  }

  lemma {:induction false} BodySize(b: BlockBody, rest: bytes)
    requires BodyNormal(b)
    ensures |BodyFields(b, rest)| == |BodyFields(b, [])| + |rest|
  {
    hide PutListOf, TxsNormal, HeadersFit;
    TransactionsRead(b.transactions, PutListOf(PutBlockHeader, b.ommers, rest));
    TransactionsRead(b.transactions, PutListOf(PutBlockHeader, b.ommers, []));
    HeadersRead(b.ommers, rest);
  }

  lemma {:induction false} BodyBack(b: BlockBody)
    requires BodyNormal(b)
    ensures ReadsBack(ReadBody, PutBody, b)
  {
    hide ListHeader, ReadListOf, PutListOf, HeaderBytes, TxsNormal, HeadersFit, ReadTransaction, ReadBlockHeader;
    HeaderNonempty(|BodyFields(b, [])|);
    forall rest: bytes
      ensures ReadBody(PutBody(b, rest)) == Ok((b, rest))
      ensures |PutBody(b, rest)| == |PutBody(b, [])| + |rest| && PutBody(b, rest) != rest
    {
      BodySize(b, rest);
      HeaderField(|BodyFields(b, [])|, BodyFields(b, rest));
      TransactionsRead(b.transactions, PutListOf(PutBlockHeader, b.ommers, rest));
      HeadersRead(b.ommers, rest);
    }
  }

  // ---------------------------------------------------------------------------------------------
  // Messages with a request id
  // ---------------------------------------------------------------------------------------------

  datatype Reply<T> = Reply(id: Option<u64>, items: seq<T>)

  function ReplyFields<T>(id: u64, write: Writer<T>, items: seq<T>): bytes {
    PutUint(id, PutListOf(write, items, []))
  }

  /** What every list-valued message writes: the id and the list in a list, or just the list. */
  function EncodeReply<T>(write: Writer<T>, m: Reply<T>): bytes {
    match m.id
    case None => PutListOf(write, m.items, [])
    case Some(id) => PutHeader(|ReplyFields(id, write, m.items)|, ReplyFields(id, write, m.items))
  }

  /** `consume_eth66_request_id`: an integer counts as an id only in front of a list. */
  function TakeId(v: bytes): (Option<u64>, bytes) {
    match GetU64(v)
    case Err(_) => (None, v)
    case Ok((id, rest)) =>
      var h := DecodeHeader(rest);
      if h.Ok? && h.value.list then (Some(id), rest) else (None, v)
  }

  /** What every list-valued message reads. */
  function DecodeReply<T>(read: Reader<T>, v: bytes): Result<Reply<T>, DecodingError> {
    var (_, start) :- ListHeader(v);
    var (id, v1) := TakeId(start);
    var (items, v2) :- ReadListOf(read, v1);
    if v2 != [] then Err(InputTooLong) else Ok(Reply(id, items))
  }

  ghost predicate ReplyFits<T>(write: Writer<T>, m: Reply<T>) {
    && |PutAll(write, m.items, [])| < SIZE_LIMIT
    && (m.id.Some? ==> |ReplyFields(m.id.value, write, m.items)| < SIZE_LIMIT)
  }

  lemma {:induction false} IdIsTaken(id: u64, size: nat, rest: bytes)
    requires size < SIZE_LIMIT && size == |rest|
    ensures TakeId(PutUint(id, PutHeader(size, rest))) == (Some(id), PutHeader(size, rest))
  {
    hide GetU64, DecodeHeader, HeaderBytes, EncStr, ToBigCompact;
    U64Field(id, PutHeader(size, rest));
    HeaderRoundTrip(true, rest, []);
    assert HeaderBytes(true, size) + rest + [] == PutHeader(size, rest);
  }

  /** With a request id, every message comes back whose elements do. */
  lemma {:induction false} ReplyWithId<T(!new)>(read: Reader<T>, write: Writer<T>, m: Reply<T>)
    requires ReplyFits(write, m) && m.id.Some? && forall i :: 0 <= i < |m.items| ==> ReadsBack(read, write, m.items[i])
    ensures DecodeReply(read, EncodeReply(write, m)) == Ok(m)
  {
    hide ListHeader, TakeId, ReadListOf, HeaderBytes, PutAll, PutUint;
    var fields := ReplyFields(m.id.value, write, m.items);
    HeaderField(|fields|, fields);
    IdIsTaken(m.id.value, |PutAll(write, m.items, [])|, PutAll(write, m.items, []));
    ReadListBack(read, write, m.items, []);
  }

  lemma {:induction false} EmptyIsNoId()
    ensures GetU64([]).Err? && ListHeader([]).Err?
  {}

  /** Without one, the decoder takes the first element for the list, so that element would have to hold them all. */
  lemma {:induction false} ReplyWithoutId<T>(read: Reader<T>, write: Writer<T>, m: Reply<T>)
    requires ReplyFits(write, m) && m.id.None? && DecodeReply(read, EncodeReply(write, m)) == Ok(m)
    ensures m.items != [] && ReadListOf(read, PutAll(write, m.items, [])) == Ok((m.items, []))
  {
    hide ListHeader, HeaderBytes, GetU64, ReadUntil;
    var payload := PutAll(write, m.items, []);
    HeaderField(|payload|, payload);
    EmptyIsNoId();
    assert ReadListOf(read, payload).value.1 == [];
  }

  lemma {:induction false} StringStartsLow(s: bytes, rest: bytes)
    requires |s| < SIZE_LIMIT
    ensures PutStr(s, rest) != [] && PutStr(s, rest)[0] < SHORT_LIST
  {}

  /** A string is not a list, alone or in front of something. */
  lemma {:induction false} StringIsNoList(s: bytes, rest: bytes)
    requires |s| < SIZE_LIMIT
    ensures ListHeader(PutStr(s, rest)).Err?
    ensures NextItem(PutStr(s, rest)).Ok? ==> ListHeader(NextItem(PutStr(s, rest)).value.0).Err?
  {
    hide HeaderBytes;
    var v := PutStr(s, rest);
    StringStartsLow(s, rest);
    if NextItem(v).Ok? && NextItem(v).value.0 != [] {
      assert NextItem(v).value.0[0] == v[0];
    }
  }

  lemma {:induction false} StartsWithString(h: BlockHeader, rest: bytes)
    ensures HeaderFields(h) != [] && ReadBlockHeader(HeaderFields(h) + rest).Err?
  {
    hide NextItem, ListHeader, PutNumbers, PutSeal, ReadRoots, ReadNumbers, ReadSeal, EncStr;
    var x := h.roots;
    var more := PutStr(x.ommersHash, PutStr(x.beneficiary, PutStr(x.stateRoot, PutStr(x.transactionsRoot,
      PutStr(x.receiptsRoot, PutStr(x.logsBloom, PutNumbers(h.numbers, PutSeal(h.seal,
        if h.baseFee.Some? then PutUint(h.baseFee.value, []) else []))))))));
    assert HeaderFields(h) == PutStr(x.parentHash, more);
    PutStrAppend(x.parentHash, more, rest);
    StringIsNoList(x.parentHash, more + rest);
    PutGrows(x.parentHash, more);
  }

  /** Nothing is read as a block header where a header's own fields begin. */
  lemma {:induction false} HeaderHoldsNone(h: BlockHeader, rest: bytes)
    requires HeaderFits(h)
    ensures ReadListOf(ReadBlockHeader, PutBlockHeader(h, rest)).Err?
  {
    hide NextItem, ListHeader, HeaderBytes, PutStr, PutNumbers, PutSeal, ReadRoots, ReadNumbers, ReadSeal;
    var fields := HeaderFields(h);
    assert PutBlockHeader(h, rest) == PutHeader(|fields|, fields + rest);
    HeaderField(|fields|, fields + rest);
    StartsWithString(h, rest);
  }

  /** The headers message comes back exactly when it carries a request id. */
  lemma {:induction false} BlockHeadersRoundTripIff(m: Reply<BlockHeader>)
    requires ReplyFits(PutBlockHeader, m) && forall i :: 0 <= i < |m.items| ==> HeaderFits(m.items[i])
    ensures DecodeReply(ReadBlockHeader, EncodeReply(PutBlockHeader, m)) == Ok(m) <==> m.id.Some?
  {
    hide DecodeReply, EncodeReply, ReplyFits, ReadBlockHeader, PutBlockHeader, HeaderFits, ReadListOf;
    if m.id.Some? {
      forall i | 0 <= i < |m.items| ensures ReadsBack(ReadBlockHeader, PutBlockHeader, m.items[i]) {
        BlockHeaderBack(m.items[i]);
      }
      ReplyWithId(ReadBlockHeader, PutBlockHeader, m);
    } else if DecodeReply(ReadBlockHeader, EncodeReply(PutBlockHeader, m)) == Ok(m) {
      ReplyWithoutId(ReadBlockHeader, PutBlockHeader, m);
      HeaderHoldsNone(m.items[0], PutAll(PutBlockHeader, m.items[1..], []));
    }
  }

  /** The loop ends where it should, and has read something if there was something to read. */
  lemma {:induction false} ReadUntilEnds<T>(read: Reader<T>, v: bytes, target: nat)
    requires ReadUntil(read, v, target).Ok?
    ensures |ReadUntil(read, v, target).value.1| == target
    ensures ReadUntil(read, v, target).value.0 == [] <==> |v| == target
    decreases |v|
  {
    if |v| > target { ReadUntilEnds(read, read(v).value.1, target); }
  }

  /** A body read where a body's own lists begin leaves the list of ommers behind. */
  lemma {:induction false} BodyInBody(b: BlockBody, rest: bytes)
    requires BodyNormal(b)
    ensures |BodyFields(b, rest)| > |rest|
    ensures ReadBody(BodyFields(b, rest)).Ok? ==> |ReadBody(BodyFields(b, rest)).value.1| > |rest|
  {
    hide ListHeader, ReadListOf, HeaderBytes, PutAll, ReadTransaction, ReadBlockHeader, TxNormal, HeaderFits;
    var ommers := PutListOf(PutBlockHeader, b.ommers, rest);
    HeadersRead(b.ommers, rest);
    HeaderNonempty(|PutAll(PutBlockHeader, b.ommers, [])|);
    TransactionsRead(b.transactions, ommers);
    HeaderField(|PutAll(PutTransaction, b.transactions, [])|, PutAll(PutTransaction, b.transactions, ommers));
  }

  lemma BodyIsSmall(b: BlockBody)
    requires BodyNormal(b)
    ensures |BodyFields(b, [])| < SIZE_LIMIT
  {}

  lemma {:induction false} BodyHoldsNotJustItself(b: BlockBody, rest: bytes, bs: seq<BlockBody>)
    requires BodyNormal(b) && ReadListOf(ReadBody, PutBody(b, rest)) == Ok((bs, []))
    ensures rest == [] && |bs| > 1
  {
    hide ListHeader, HeaderBytes, BodyFields, BodyNormal, ReadBody;
    var v := BodyFields(b, rest);
    BodySize(b, rest);
    BodyInBody(b, rest);
    assert |BodyFields(b, [])| < SIZE_LIMIT by { BodyIsSmall(b); }
    HeaderField(|BodyFields(b, [])|, v);
    ReadUntilEnds(ReadBody, v, |rest|);
    ReadUntilEnds(ReadBody, ReadBody(v).value.1, |rest|);
  }

  lemma {:induction false} BodiesNonempty(bs: seq<BlockBody>)
    requires bs != [] && BodyNormal(bs[0])
    ensures PutAll(PutBody, bs, []) != []
  {
    hide ReadBody, PutBody, BodyNormal;
    BodyBack(bs[0]);
    var rest := PutAll(PutBody, bs[1..], []);
    assert |PutBody(bs[0], rest)| == |PutBody(bs[0], [])| + |rest| && PutBody(bs[0], rest) != rest;
  }

  /** The bodies message comes back exactly when it carries a request id. */
  lemma {:induction false} BlockBodiesRoundTripIff(m: Reply<BlockBody>)
    requires ReplyFits(PutBody, m) && forall i :: 0 <= i < |m.items| ==> BodyNormal(m.items[i])
    ensures DecodeReply(ReadBody, EncodeReply(PutBody, m)) == Ok(m) <==> m.id.Some?
  {
    hide DecodeReply, EncodeReply, ReplyFits, ReadBody, PutBody, BodyNormal, ReadListOf;
    if m.id.Some? {
      forall i | 0 <= i < |m.items| ensures ReadsBack(ReadBody, PutBody, m.items[i]) { BodyBack(m.items[i]); }
      ReplyWithId(ReadBody, PutBody, m);
    } else if DecodeReply(ReadBody, EncodeReply(PutBody, m)) == Ok(m) {
      ReplyWithoutId(ReadBody, PutBody, m);
      BodyHoldsNotJustItself(m.items[0], PutAll(PutBody, m.items[1..], []), m.items);
      BodiesNonempty(m.items[1..]);
    }
  }

  /** The receipts of one block, as an element of a receipts message. */
  function PutBlockReceipts(rs: seq<Receipt>, rest: bytes): bytes {
    PutListOf(PutReceipt, rs, rest)
  }

  function ReadBlockReceipts(v: bytes): Result<(seq<Receipt>, bytes), DecodingError> {
    ReadListOf(ReadReceipt, v)
  }

  ghost predicate ReceiptsNormal(rs: seq<Receipt>) {
    |PutAll(PutReceipt, rs, [])| < SIZE_LIMIT && forall i :: 0 <= i < |rs| ==> ReceiptNormal(rs[i])
  }

  lemma {:induction false} BlockReceiptsBack(rs: seq<Receipt>)
    requires ReceiptsNormal(rs)
    ensures ReadsBack(ReadBlockReceipts, PutBlockReceipts, rs)
  {
    hide ReadReceipt, PutReceipt, ReadListOf, PutListOf, ReceiptNormal;
    forall i | 0 <= i < |rs| ensures ReadsBack(ReadReceipt, PutReceipt, rs[i]) { ReceiptBack(rs[i]); }
    forall rest: bytes
      ensures ReadBlockReceipts(PutBlockReceipts(rs, rest)) == Ok((rs, rest))
      ensures |PutBlockReceipts(rs, rest)| == |PutBlockReceipts(rs, [])| + |rest| && PutBlockReceipts(rs, rest) != rest
    {
      ReadListBack(ReadReceipt, PutReceipt, rs, rest);
    }
  }

  lemma {:induction false} OutcomeBytes(o: Outcome, rest: bytes) returns (s: bytes)
    ensures |s| < SIZE_LIMIT && PutOutcome(o, rest) == PutStr(s, rest)
  {
    match o {
      case Root(root) => s := root;
      case Status(ok) =>
        s := ToBigCompact(if ok then 1 else 0);
        assert s == if ok then [1] else [];
    }
  }

  /** Nothing is read as a receipt where a receipt's own fields begin. */
  lemma {:induction false} ReceiptHoldsNone(r: Receipt, rest: bytes)
    requires ReceiptNormal(r)
    ensures ReadListOf(ReadReceipt, PutReceipt(r, rest)).Err?
  {
    hide NextItem, ListHeader, HeaderBytes, PutOutcome, ReadOutcome, PutStr, PutUint, PutListOf, LogFits;
    var o := OutcomeOf(r).value;
    var more := PutUint(r.gasUsed, PutStr(r.bloom, PutListOf(PutLog, r.logs, [])));
    var fields := ReceiptFields(o, r, []);
    assert PutReceipt(r, rest) == PutHeader(|fields|, fields + rest);
    HeaderField(|fields|, fields + rest);
    var s := OutcomeBytes(o, more);
    PutStrAppend(s, more, rest);
    StringIsNoList(s, more + rest);
    PutGrows(s, more);
  }

  lemma {:induction false} BlockReceiptsHoldNoMore(rs: seq<Receipt>, rest: bytes)
    requires ReceiptsNormal(rs)
    ensures var r := ReadListOf(ReadBlockReceipts, PutBlockReceipts(rs, rest)); r.Ok? ==> r.value.0 == []
  {
    hide ListHeader, HeaderBytes, ReadReceipt, PutReceipt, ReceiptNormal;
    var own, view := PutAll(PutReceipt, rs, []), PutAll(PutReceipt, rs, rest);
    forall i | 0 <= i < |rs| ensures ReadsBack(ReadReceipt, PutReceipt, rs[i]) { ReceiptBack(rs[i]); }
    ReadAllBack(ReadReceipt, PutReceipt, rs, rest);
    HeaderField(|own|, view);
    if rs != [] { ReceiptHoldsNone(rs[0], PutAll(PutReceipt, rs[1..], rest)); }
  }

  /** The receipts message comes back exactly when it carries a request id. */
  lemma {:induction false} ReceiptsRoundTripIff(m: Reply<seq<Receipt>>)
    requires ReplyFits(PutBlockReceipts, m) && forall i :: 0 <= i < |m.items| ==> ReceiptsNormal(m.items[i])
    ensures DecodeReply(ReadBlockReceipts, EncodeReply(PutBlockReceipts, m)) == Ok(m) <==> m.id.Some?
  {
    hide DecodeReply, EncodeReply, ReplyFits, ReadBlockReceipts, PutBlockReceipts, ReceiptsNormal, ReadListOf;
    if m.id.Some? {
      forall i | 0 <= i < |m.items| ensures ReadsBack(ReadBlockReceipts, PutBlockReceipts, m.items[i]) {
        BlockReceiptsBack(m.items[i]);
      }
      ReplyWithId(ReadBlockReceipts, PutBlockReceipts, m);
    } else if DecodeReply(ReadBlockReceipts, EncodeReply(PutBlockReceipts, m)) == Ok(m) {
      ReplyWithoutId(ReadBlockReceipts, PutBlockReceipts, m);
      BlockReceiptsHoldNoMore(m.items[0], PutAll(PutBlockReceipts, m.items[1..], []));
    }
  }

  /** A block without receipts and no id: the message is taken for one without any block. */
  lemma {:induction false} ReceiptsOfOneBlockLost()
    ensures var m: Reply<seq<Receipt>> := Reply(None, [[]]);
            && EncodeReply(PutBlockReceipts, m) == [0xc1, 0xc0]
            && DecodeReply(ReadBlockReceipts, EncodeReply(PutBlockReceipts, m)) == Ok(Reply(None, []))
  {
    var v: bytes := [0xc1, 0xc0];
    assert HeaderBytes(true, 0) == [0xc0] && HeaderBytes(true, 1) == [0xc1];
    var none: seq<Receipt> := [];
    assert PutBlockReceipts(none, []) == [0xc0];
    assert [none][1..] == [] && PutAll(PutBlockReceipts, [none], []) == PutBlockReceipts(none, []);
    assert v == [0xc1] + [0xc0] && v[1..] == [0xc0] && v[1..][1..] == [];
    assert GetU64([0xc0]).Err?;
  }

  /** A string in front is no request id unless it is short. */
  lemma {:induction false} HashIsNoId(h: hash, rest: bytes)
    ensures GetU64(PutHash(h, rest)).Err? && ListHeader(PutHash(h, rest)) == Err(UnexpectedString)
  {
    hide HeaderBytes, FromBigCompact;
    HeaderRoundTrip(false, h, rest);
    assert HeaderBytes(false, |h|) + h + rest == PutHash(h, rest);
  }

  /** Hash lists come back exactly when they carry a request id. */
  lemma {:induction false} HashListRoundTripIff(m: Reply<hash>)
    requires ReplyFits(PutHash, m)
    ensures DecodeReply(GetHash, EncodeReply(PutHash, m)) == Ok(m) <==> m.id.Some?
  {
    hide ListHeader, GetU64, ReadUntil, HeaderBytes, PutStr, GetHash;
    if m.id.Some? {
      forall i | 0 <= i < |m.items| ensures ReadsBack(GetHash, PutHash, m.items[i]) { HashBack(m.items[i]); }
      ReplyWithId(GetHash, PutHash, m);
    } else {
      var payload := PutAll(PutHash, m.items, []);
      HeaderField(|payload|, payload);
      EmptyIsNoId();
      if m.items != [] {
        HashIsNoId(m.items[0], PutAll(PutHash, m.items[1..], []));
      }
    }
  }

  // ---------------------------------------------------------------------------------------------
  // Pooled transactions are passed on as they are
  // ---------------------------------------------------------------------------------------------

  function PutRaw(x: bytes, rest: bytes): bytes {
    x + rest
  }

  /** One RLP item and nothing else. */
  predicate IsItem(x: bytes) {
    NextItem(x) == Ok((x, []))
  }

  lemma {:induction false} SameItem(x: bytes, a: bytes, b: bytes)
    requires NextItem(x + a) == Ok((x, a))
    ensures NextItem(x + b) == Ok((x, b))
  {
    hide HeaderBytes;
    var v := x + a;
    HeaderIsCanonical(v);
    var h := DecodeHeader(v).value;
    assert |x| == h.size + h.payload && v[..|x|] == x;
    var payload := x[h.size..];
    assert payload == v[h.size..h.size + h.payload];
    if h.size == 0 {
      assert (x + b)[0] == x[0] == v[0];
      assert (x + b)[..1] == x && (x + b)[1..] == b;
    } else {
      assert x == HeaderBytes(h.list, h.payload) + payload;
      HeaderRoundTrip(h.list, payload, b);
      assert x + b == HeaderBytes(h.list, |payload|) + payload + b;
      assert (x + b)[..|x|] == x && (x + b)[|x|..] == b;
    }
  }

  /** An item is the same item whatever follows it, and what is cut out is an item. */
  lemma {:induction false} ItemAlone(x: bytes, rest: bytes)
    ensures IsItem(x) ==> NextItem(x + rest) == Ok((x, rest))
    ensures NextItem(x + rest) == Ok((x, rest)) ==> IsItem(x)
  {
    hide DecodeHeader, HeaderBytes;
    assert x + [] == x;
    if IsItem(x) { SameItem(x, [], rest); }
    if NextItem(x + rest) == Ok((x, rest)) { SameItem(x, rest, []); }
  }

  lemma {:induction false} ItemBack(x: bytes)
    requires IsItem(x)
    ensures ReadsBack(NextItem, PutRaw, x)
  {
    hide Skip;
    forall rest: bytes
      ensures NextItem(PutRaw(x, rest)) == Ok((x, rest)) && |PutRaw(x, rest)| == |PutRaw(x, [])| + |rest|
              && PutRaw(x, rest) != rest
    {
      ItemAlone(x, rest);
    }
  }

  lemma {:induction false} NextItemSplits(v: bytes)
    requires NextItem(v).Ok?
    ensures v == NextItem(v).value.0 + NextItem(v).value.1
  {}

  lemma {:induction false} CutOutAreItems(v: bytes, target: nat)
    requires ReadUntil(NextItem, v, target).Ok?
    ensures forall i :: 0 <= i < |ReadUntil(NextItem, v, target).value.0| ==>
            IsItem(ReadUntil(NextItem, v, target).value.0[i])
    decreases |v|
  {
    hide IsItem, Skip;
    if |v| > target {
      var (x, rest) := NextItem(v).value;
      assert v == x + rest by { NextItemSplits(v); }
      ItemAlone(x, rest);
      CutOutAreItems(rest, target);
      var xs := ReadUntil(NextItem, v, target).value.0;
      assert xs[1..] == ReadUntil(NextItem, rest, target).value.0;
      assert forall i :: 1 <= i < |xs| ==> xs[i] == xs[1..][i - 1];
    }
  }

  /** An item cannot hold itself. */
  lemma {:induction false} ItemHoldsLess(x: bytes, rest: bytes, xs: seq<bytes>)
    requires IsItem(x) && ReadListOf(NextItem, x + rest) == Ok((xs, []))
    ensures xs == [] || xs[0] != x
  {
    hide HeaderBytes, DecodeHeader;
    var v := x + rest;
    var (n, tail) := ListHeader(v).value;
    ReadUntilEnds(NextItem, tail, |tail| - n);
    ItemAlone(x, rest);
    assert Skip(v) == Ok([]);
    ListHeaderFits(v);
    if xs != [] { NextItemSplits(tail); }
  }

  lemma {:induction false} PooledAreItems(v: bytes)
    requires DecodeReply(NextItem, v).Ok?
    ensures forall i :: 0 <= i < |DecodeReply(NextItem, v).value.items| ==>
            IsItem(DecodeReply(NextItem, v).value.items[i])
  {
    hide NextItem, IsItem, ListHeader, TakeId;
    var list := TakeId(ListHeader(v).value.1).1;
    var (n, tail) := ListHeader(list).value;
    CutOutAreItems(tail, |tail| - n);
  }

  /** Pooled transactions come back exactly when there is a request id and each is a single RLP item. */
  lemma {:induction false} PooledRoundTripIff(m: Reply<bytes>)
    requires ReplyFits(PutRaw, m)
    ensures DecodeReply(NextItem, EncodeReply(PutRaw, m)) == Ok(m)
       <==> m.id.Some? && forall i :: 0 <= i < |m.items| ==> IsItem(m.items[i])
  {
    hide NextItem, IsItem, ReadListOf, DecodeReply, EncodeReply, ReplyFits;
    if m.id.Some? && forall i :: 0 <= i < |m.items| ==> IsItem(m.items[i]) {
      forall i | 0 <= i < |m.items| ensures ReadsBack(NextItem, PutRaw, m.items[i]) { ItemBack(m.items[i]); }
      ReplyWithId(NextItem, PutRaw, m);
    }
    if DecodeReply(NextItem, EncodeReply(PutRaw, m)) == Ok(m) {
      PooledAreItems(EncodeReply(PutRaw, m));
      if m.id.None? {
        ReplyWithoutId(NextItem, PutRaw, m);
        ItemHoldsLess(m.items[0], PutAll(PutRaw, m.items[1..], []), m.items);
      }
    }
  }

  lemma {:induction false} FiveIsItem()
    ensures IsItem([5]) && GetU64([5] + [0xc0]) == Ok((5, [0xc0]))
  {
    hide GetU64, ToBigCompact, HeaderBytes;
    var five: bytes := [5];
    assert five[..1] == five && five[1..] == [];
    SmallIsCompact(5);
    U64Field(5, [0xc0]);
  }

  lemma {:induction false} EmptyIsItem()
    ensures IsItem([0xc0])
  {
    hide HeaderBytes;
    var empty: bytes := [0xc0];
    assert empty[..1] == empty && empty[1..] == [];
  }

  lemma {:induction false} EmptyListReads<T>(read: Reader<T>)
    ensures DecodeHeader([0xc0]).Ok? && DecodeHeader([0xc0]).value.list && ReadListOf(read, [0xc0]) == Ok(([], []))
  {
    var empty: bytes := [0xc0];
    assert empty[1..] == [];
  }

  /** A number and an empty list without an id: the number is taken for the id and the list for the whole. */
  lemma {:induction false} PooledTakenForId()
    ensures var m: Reply<bytes> := Reply(None, [[5], [0xc0]]);
            && IsItem(m.items[0]) && IsItem(m.items[1]) && EncodeReply(PutRaw, m) == [0xc2, 5, 0xc0]
            && DecodeReply(NextItem, EncodeReply(PutRaw, m)) == Ok(Reply(Some(5), []))
  {
    hide NextItem, GetU64, DecodeHeader, ReadUntil;
    var five: bytes := [5];
    var empty: bytes := [0xc0];
    FiveIsItem();
    EmptyIsItem();
    assert HeaderBytes(true, 2) == [0xc2];
    assert [five, empty][1..] == [empty] && [empty][1..] == [];
    assert PutAll(PutRaw, [five, empty], []) == five + empty == [5, 0xc0];
    HeaderField(2, five + empty);
    EmptyListReads(NextItem);
  }

  /** A typed transaction is two items, its type byte and its list, so it does not come back. */
  lemma {:induction false} TypedIsNoItem(tx: Transaction)
    requires tx.kind != Legacy && TxFits(tx)
    ensures !IsItem(EncodeTransaction(tx))
  {
    hide TypedFields;
    var x := EncodeTransaction(tx);
    assert x[0] < SHORT_STRING;
    HeaderNonempty(|TypedFields(tx, [])|);
    assert |x| > 1;
  }

  // ---------------------------------------------------------------------------------------------
  // New blocks
  // ---------------------------------------------------------------------------------------------

  datatype NewBlock = NewBlock(
    header: BlockHeader, transactions: seq<Transaction>, ommers: seq<BlockHeader>, totalDifficulty: u256)

  function InnerBlock(b: NewBlock, rest: bytes): bytes {
    PutBlockHeader(b.header, PutListOf(PutTransaction, b.transactions, PutListOf(PutBlockHeader, b.ommers, rest)))
  }

  function NewBlockFields(b: NewBlock): bytes {
    PutHeader(|InnerBlock(b, [])|, InnerBlock(b, PutUint(b.totalDifficulty, [])))
  }

  /** `encode_new_block`. */
  function EncodeNewBlock(b: NewBlock): bytes {
    PutHeader(|NewBlockFields(b)|, NewBlockFields(b))
  }

  /** `decode_new_block`: header and both lists must fill the inner list exactly. */
  function DecodeNewBlock(v: bytes): Result<NewBlock, DecodingError> {
    var (_, v0) :- ListHeader(v);
    var (n, start) :- ListHeader(v0);
    var (header, v1) :- ReadBlockHeader(start);
    var (transactions, v2) :- ReadListOf(ReadTransaction, v1);
    var (ommers, v3) :- ReadListOf(ReadBlockHeader, v2);
    if |v3| != |start| - n then Err(ListLengthMismatch)
    else
      var (difficulty, _) :- GetU256(v3);
      Ok(NewBlock(header, transactions, ommers, difficulty))
  }

  ghost predicate NewBlockNormal(b: NewBlock) {
    && |NewBlockFields(b)| < SIZE_LIMIT && |InnerBlock(b, [])| < SIZE_LIMIT
    && HeaderFits(b.header) && TxsNormal(b.transactions) && HeadersFit(b.ommers)
  }

  lemma {:induction false} InnerSize(b: NewBlock, rest: bytes)
    requires NewBlockNormal(b)
    ensures |InnerBlock(b, rest)| == |InnerBlock(b, [])| + |rest|
  {
    hide PutListOf, TxsNormal, HeadersFit, HeaderFits, NewBlockFields, PutBlockHeader, PutTransaction;
    var ommers, none := PutListOf(PutBlockHeader, b.ommers, rest), PutListOf(PutBlockHeader, b.ommers, []);
    HeadersRead(b.ommers, rest);
    TransactionsRead(b.transactions, ommers);
    TransactionsRead(b.transactions, none);
    BlockHeaderBack(b.header);
    var x, y := PutListOf(PutTransaction, b.transactions, ommers), PutListOf(PutTransaction, b.transactions, none);
    assert |PutBlockHeader(b.header, x)| == |PutBlockHeader(b.header, [])| + |x|;
    assert |PutBlockHeader(b.header, y)| == |PutBlockHeader(b.header, [])| + |y|;
  }

  lemma {:induction false} NewBlockRoundTrip(b: NewBlock)
    requires NewBlockNormal(b)
    ensures DecodeNewBlock(EncodeNewBlock(b)) == Ok(b)
  {
    hide ListHeader, GetU256, ReadListOf, PutListOf, PutHeader, PutUint, TxsNormal, HeadersFit, HeaderFits,
        PutBlockHeader, PutTransaction, ReadBlockHeader, ReadTransaction;
    var v3 := PutUint(b.totalDifficulty, []);
    var v2 := PutListOf(PutBlockHeader, b.ommers, v3);
    var v1 := PutListOf(PutTransaction, b.transactions, v2);
    InnerSize(b, v3);
    HeaderField(|NewBlockFields(b)|, NewBlockFields(b));
    HeaderField(|InnerBlock(b, [])|, InnerBlock(b, v3));
    BlockHeaderBack(b.header);
    assert ReadBlockHeader(PutBlockHeader(b.header, v1)) == Ok((b.header, v1));
    TransactionsRead(b.transactions, v2);
    HeadersRead(b.ommers, v3);
    U256Field(b.totalDifficulty, []);
  }
}
