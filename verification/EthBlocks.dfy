/** Receipts and block headers. */
module EthBlocks {
  import opened Bytes
  import opened RlpFormat
  import opened RlpDecoder
  import opened RlpFields
  import opened EthObjects

  // ---------------------------------------------------------------------------------------------
  // Receipts
  // ---------------------------------------------------------------------------------------------

  /** The outcome is a state root in old receipts and a status since; the record has room for both. */
  datatype Receipt = Receipt(
    stateRoot: Option<hash>, status: Option<bool>, gasUsed: u256, bloom: bloom, logs: seq<LogEntry>)

  datatype Outcome = Root(root: hash) | Status(ok: bool)

  /** A state root takes precedence; without either there is nothing to write. */
  function OutcomeOf(r: Receipt): Option<Outcome> {
    if r.stateRoot.Some? then Some(Root(r.stateRoot.value))
    else if r.status.Some? then Some(Status(r.status.value))
    else None
  }

  function PutOutcome(o: Outcome, rest: bytes): bytes {
    match o
    case Root(root) => PutStr(root, rest)
    case Status(ok) => PutUint(if ok then 1 else 0, rest)
  }

  /** `decode_status_or_state_root`. */
  function ReadOutcome(v: bytes): Result<(Outcome, bytes), DecodingError> {
    var h :- DecodeHeader(v);
    if h.list then Err(UnexpectedList)
    else if h.payload == 32 then
      var (root, rest) :- ReadFixed(v, 32);
      Ok((Root(root), rest))
    else
      var (s, rest) :- ReadStr(v);
      if s == [] then Ok((Status(false), rest))
      else if |s| == 1 then Ok((Status(s[0] != 0), rest))
      else Err(UnexpectedLength)
  }

  lemma {:induction false} RootReads(root: hash, rest: bytes)
    ensures ReadOutcome(PutOutcome(Root(root), rest)) == Ok((Root(root), rest))
  {
    hide DecodeHeader, ReadFixed, ReadStr, HeaderBytes;
    HeaderRoundTrip(false, root, rest);
    assert HeaderBytes(false, |root|) + root + rest == PutStr(root, rest);
    ReadFixedExact(PutStr(root, rest), 32, root, rest);
  }

  lemma {:induction false} StatusReads(ok: bool, rest: bytes)
    ensures ReadOutcome(PutOutcome(Status(ok), rest)) == Ok((Status(ok), rest))
  {
    hide ReadFixed, ReadStr;
    var s: bytes := ToBigCompact(if ok then 1 else 0);
    assert s == if ok then [1] else [];
    ReadStrExact(PutStr(s, rest), s, rest);
    var v := PutStr(s, rest);
    assert v[0] == if ok then 1 else SHORT_STRING;
  }

  lemma {:induction false} OutcomeReads(o: Outcome, rest: bytes)
    ensures ReadOutcome(PutOutcome(o, rest)) == Ok((o, rest)) && |PutOutcome(o, rest)| == |PutOutcome(o, [])| + |rest|
  {
    hide ReadOutcome;
    match o {
      case Root(root) => RootReads(root, rest);
      case Status(ok) => StatusReads(ok, rest);
    }
  }

  function ReceiptFields(o: Outcome, r: Receipt, rest: bytes): bytes {
    PutOutcome(o, PutUint(r.gasUsed, PutStr(r.bloom, PutListOf(PutLog, r.logs, rest))))
  }

  /** `encode_receipt`. */
  function EncodeReceipt(r: Receipt): Result<bytes, EncodingError> {
    match OutcomeOf(r)
    case None => Err(EmptyInput)
    case Some(o) => Ok(PutHeader(|ReceiptFields(o, r, [])|, ReceiptFields(o, r, [])))
  }

  /** `decode_receipt`. */
  function DecodeReceipt(v: bytes): Result<Receipt, DecodingError> {
    var (_, v0) :- ListHeader(v);
    var (o, v1) :- ReadOutcome(v0);
    var (gasUsed, v2) :- GetU256(v1);
    var (bits, v3) :- GetBloom(v2);
    var (logs, _) :- ReadListOf(ReadLog, v3);
    Ok(Receipt(if o.Root? then Some(o.root) else None, if o.Status? then Some(o.ok) else None, gasUsed, bits, logs))
  }

  ghost predicate ReceiptFits(r: Receipt) {
    && OutcomeOf(r).Some? && |ReceiptFields(OutcomeOf(r).value, r, [])| < SIZE_LIMIT
    && |PutAll(PutLog, r.logs, [])| < SIZE_LIMIT && forall i :: 0 <= i < |r.logs| ==> LogFits(r.logs[i])
  }

  lemma {:induction false} LogsRead(ls: seq<LogEntry>, rest: bytes)
    requires |PutAll(PutLog, ls, [])| < SIZE_LIMIT && forall i :: 0 <= i < |ls| ==> LogFits(ls[i])
    ensures ReadListOf(ReadLog, PutListOf(PutLog, ls, rest)) == Ok((ls, rest))
  {
    hide ReadLog, PutLog, ReadListOf, PutListOf, LogFits;
    forall i | 0 <= i < |ls| ensures ReadsBack(ReadLog, PutLog, ls[i]) { LogBack(ls[i]); }
    ReadListBack(ReadLog, PutLog, ls, rest);
  }

  /** A receipt keeps a state root and drops a status beside it; it comes back exactly if it has one of them. */
  lemma {:induction false} ReceiptRoundTrip(r: Receipt)
    requires ReceiptFits(r)
    ensures DecodeReceipt(EncodeReceipt(r).value) == Ok(if r.stateRoot.Some? then r.(status := None) else r)
    ensures DecodeReceipt(EncodeReceipt(r).value) == Ok(r) <==> r.stateRoot.Some? != r.status.Some?
  {
    hide ListHeader, ReadOutcome, PutOutcome, GetU256, GetFixed, ReadListOf, PutListOf, PutHeader, EncStr,
        ToBigCompact, LogFits;
    var o := OutcomeOf(r).value;
    var v3 := PutListOf(PutLog, r.logs, []);
    var v2 := PutStr(r.bloom, v3);
    var v1 := PutUint(r.gasUsed, v2);
    HeaderField(|ReceiptFields(o, r, [])|, ReceiptFields(o, r, []));
    OutcomeReads(o, v1);
    U256Field(r.gasUsed, v2);
    FixedField(r.bloom, v3);
    LogsRead(r.logs, []);
  }

  // ---------------------------------------------------------------------------------------------
  // Block headers
  // ---------------------------------------------------------------------------------------------

  datatype Roots = Roots(
    parentHash: hash, ommersHash: hash, beneficiary: address, stateRoot: hash, transactionsRoot: hash,
    receiptsRoot: hash, logsBloom: bloom)
  datatype Numbers = Numbers(difficulty: u256, number: u64, gasLimit: u64, gasUsed: u64, timestamp: u64)
  datatype Seal = Seal(extraData: bytes, mixHash: hash, nonce: nonce8)

  /** The fifteen fields in their order, in three groups, and the base fee of later blocks. */
  datatype BlockHeader = BlockHeader(roots: Roots, numbers: Numbers, seal: Seal, baseFee: Option<u256>)

  function PutRoots(x: Roots, rest: bytes): bytes {
    PutStr(x.parentHash, PutStr(x.ommersHash, PutStr(x.beneficiary, PutStr(x.stateRoot,
      PutStr(x.transactionsRoot, PutStr(x.receiptsRoot, PutStr(x.logsBloom, rest)))))))
  }

  function ReadRoots(v: bytes): Result<(Roots, bytes), DecodingError> {
    var (parentHash, v1) :- GetHash(v);
    var (ommersHash, v2) :- GetHash(v1);
    var (beneficiary, v3) :- GetAddress(v2);
    var (stateRoot, v4) :- GetHash(v3);
    var (transactionsRoot, v5) :- GetHash(v4);
    var (receiptsRoot, v6) :- GetHash(v5);
    var (logsBloom, v7) :- GetBloom(v6);
    Ok((Roots(parentHash, ommersHash, beneficiary, stateRoot, transactionsRoot, receiptsRoot, logsBloom), v7))
  }

  lemma {:induction false} RootsRead(x: Roots, rest: bytes)
    ensures ReadRoots(PutRoots(x, rest)) == Ok((x, rest))
  {
    hide GetFixed, PutStr;
    var v6 := PutStr(x.logsBloom, rest);
    var v5 := PutStr(x.receiptsRoot, v6);
    var v4 := PutStr(x.transactionsRoot, v5);
    var v3 := PutStr(x.stateRoot, v4);
    var v2 := PutStr(x.beneficiary, v3);
    var v1 := PutStr(x.ommersHash, v2);
    FixedField(x.parentHash, v1);
    FixedField(x.ommersHash, v2);
    FixedField(x.beneficiary, v3);
    FixedField(x.stateRoot, v4);
    FixedField(x.transactionsRoot, v5);
    FixedField(x.receiptsRoot, v6);
    FixedField(x.logsBloom, rest);
  }

  function PutNumbers(x: Numbers, rest: bytes): bytes {
    PutUint(x.difficulty, PutUint(x.number, PutUint(x.gasLimit, PutUint(x.gasUsed, PutUint(x.timestamp, rest)))))
  }

  function ReadNumbers(v: bytes): Result<(Numbers, bytes), DecodingError> {
    var (difficulty, v1) :- GetU256(v);
    var (number, v2) :- GetU64(v1);
    var (gasLimit, v3) :- GetU64(v2);
    var (gasUsed, v4) :- GetU64(v3);
    var (timestamp, v5) :- GetU64(v4);
    Ok((Numbers(difficulty, number, gasLimit, gasUsed, timestamp), v5))
  }

  lemma {:induction false} NumbersRead(x: Numbers, rest: bytes)
    ensures ReadNumbers(PutNumbers(x, rest)) == Ok((x, rest))
  {
    hide GetU64, GetU256, PutUint;
    var v4 := PutUint(x.timestamp, rest);
    var v3 := PutUint(x.gasUsed, v4);
    var v2 := PutUint(x.gasLimit, v3);
    var v1 := PutUint(x.number, v2);
    U256Field(x.difficulty, v1);
    U64Field(x.number, v2);
    U64Field(x.gasLimit, v3);
    U64Field(x.gasUsed, v4);
    U64Field(x.timestamp, rest);
  }

  function PutSeal(x: Seal, rest: bytes): bytes {
    PutStr(x.extraData, PutStr(x.mixHash, PutStr(x.nonce, rest)))
  }

  function ReadSeal(v: bytes): Result<(Seal, bytes), DecodingError> {
    var (extraData, v1) :- GetStr(v);
    var (mixHash, v2) :- GetHash(v1);
    match GetFixed(v2, 8)
    case Err(e) => Err(e)
    case Ok((nonce, v3)) => Ok((Seal(extraData, mixHash, nonce), v3))
  }

  lemma {:induction false} SealRead(x: Seal, rest: bytes)
    requires |x.extraData| < SIZE_LIMIT
    ensures ReadSeal(PutSeal(x, rest)) == Ok((x, rest))
  {
    hide GetFixed, GetStr, PutStr;
    var v2 := PutStr(x.nonce, rest);
    StrField(x.extraData, PutStr(x.mixHash, v2));
    FixedField(x.mixHash, v2);
    FixedField(x.nonce, rest);
  }

  function HeaderFields(h: BlockHeader): bytes {
    var fee := if h.baseFee.Some? then PutUint(h.baseFee.value, []) else [];
    PutRoots(h.roots, PutNumbers(h.numbers, PutSeal(h.seal, fee)))
  }

  /** `encode_block_header`. */
  function EncodeBlockHeader(h: BlockHeader): bytes {
    PutHeader(|HeaderFields(h)|, HeaderFields(h))
  }

  /** `decode_block_header`: whatever follows the fifteenth field is taken for a base fee. */
  function DecodeBlockHeader(v: bytes): Result<BlockHeader, DecodingError> {
    var (_, v0) :- ListHeader(v);
    var (roots, v1) :- ReadRoots(v0);
    var (numbers, v2) :- ReadNumbers(v1);
    var (seal, v3) :- ReadSeal(v2);
    if v3 == [] then Ok(BlockHeader(roots, numbers, seal, None))
    else
      var (fee, _) :- GetU256(v3);
      Ok(BlockHeader(roots, numbers, seal, Some(fee)))
  }

  ghost predicate HeaderFits(h: BlockHeader) {
    |HeaderFields(h)| < SIZE_LIMIT && |h.seal.extraData| < SIZE_LIMIT
  }

  lemma {:induction false} UintNonempty(n: u256)
    ensures PutUint(n, []) != []
  {
    hide ToBigCompact, Pow256;
    CompactLength(n, 32);
    PutGrows(ToBigCompact(n), []);
  }

  lemma {:induction false} BlockHeaderRoundTrip(h: BlockHeader)
    requires HeaderFits(h)
    ensures DecodeBlockHeader(EncodeBlockHeader(h)) == Ok(h)
  {
    hide ListHeader, ReadRoots, ReadNumbers, ReadSeal, GetU256, PutRoots, PutNumbers, PutSeal, PutHeader, EncStr,
        ToBigCompact;
    var v3: bytes := if h.baseFee.Some? then PutUint(h.baseFee.value, []) else [];
    var v2 := PutSeal(h.seal, v3);
    var v1 := PutNumbers(h.numbers, v2);
    HeaderField(|HeaderFields(h)|, HeaderFields(h));
    RootsRead(h.roots, v1);
    NumbersRead(h.numbers, v2);
    SealRead(h.seal, v3);
    if h.baseFee.Some? {
      U256Field(h.baseFee.value, []);
      UintNonempty(h.baseFee.value);
    }
  }
}
