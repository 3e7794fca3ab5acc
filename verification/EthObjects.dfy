/** Logs, access lists and transactions: what is written for them and how it is read. */
module EthObjects {
  import opened Bytes
  import opened RlpFormat
  import opened RlpTree
  import opened RlpDecoder
  import opened RlpFields

  type hash = s: bytes | |s| == 32 witness seq(32, i => 0)
  type address = s: bytes | |s| == 20 witness seq(20, i => 0)
  type bloom = s: bytes | |s| == 256 witness seq(256, i => 0)
  type nonce8 = s: bytes | |s| == 8 witness seq(8, i => 0)

  function GetHash(v: bytes): Result<(hash, bytes), DecodingError> {
    match GetFixed(v, 32) case Ok((s, rest)) => Ok((s, rest)) case Err(e) => Err(e)
  }

  function GetAddress(v: bytes): Result<(address, bytes), DecodingError> {
    match GetFixed(v, 20) case Ok((s, rest)) => Ok((s, rest)) case Err(e) => Err(e)
  }

  function GetBloom(v: bytes): Result<(bloom, bytes), DecodingError> {
    match GetFixed(v, 256) case Ok((s, rest)) => Ok((s, rest)) case Err(e) => Err(e)
  }

  function PutHash(h: hash, rest: bytes): bytes {
    PutStr(h, rest)
  }

  lemma {:induction false} HashBack(h: hash)
    ensures ReadsBack(GetHash, PutHash, h)
  {
    hide GetFixed, EncStr;
    forall rest: bytes
      ensures GetHash(PutHash(h, rest)) == Ok((h, rest)) && |PutHash(h, rest)| == |PutHash(h, [])| + |rest|
              && PutHash(h, rest) != rest
    {
      FixedField(h, rest);
      PutGrows(h, rest);
    }
  }

  // ---------------------------------------------------------------------------------------------
  // Logs
  // ---------------------------------------------------------------------------------------------

  datatype LogEntry = LogEntry(address: address, topics: seq<hash>, data: bytes)

  function LogFields(l: LogEntry, rest: bytes): bytes {
    PutStr(l.address, PutListOf(PutHash, l.topics, PutStr(l.data, rest)))
  }

  /** `encode_log_entry`. */
  function PutLog(l: LogEntry, rest: bytes): bytes {
    PutHeader(|LogFields(l, [])|, LogFields(l, rest))
  }

  /** `decode_log_entry_from_decoder`. */
  function ReadLog(v: bytes): Result<(LogEntry, bytes), DecodingError> {
    var (n, start) :- ListHeader(v);
    var (address, v1) :- GetAddress(start);
    var (topics, v2) :- ReadListOf(GetHash, v1);
    var (data, v3) :- GetStr(v2);
    if |v3| != |start| - n then Err(ListLengthMismatch) else Ok((LogEntry(address, topics, data), v3))
  }

  ghost predicate LogFits(l: LogEntry) {
    |LogFields(l, [])| < SIZE_LIMIT
  }

  lemma {:induction false} StrHolds(s: bytes)
    ensures |EncStr(s)| >= |s|
  {}

  lemma {:induction false} HashesRead(hs: seq<hash>, rest: bytes)
    ensures |PutAll(PutHash, hs, rest)| == |PutAll(PutHash, hs, [])| + |rest|
    ensures |PutAll(PutHash, hs, [])| < SIZE_LIMIT ==>
              && ReadListOf(GetHash, PutListOf(PutHash, hs, rest)) == Ok((hs, rest))
              && |PutListOf(PutHash, hs, rest)| == |PutListOf(PutHash, hs, [])| + |rest|
              && PutListOf(PutHash, hs, rest) != rest
  {
    hide GetHash, PutHash, ReadListOf, PutListOf;
    forall i | 0 <= i < |hs| ensures ReadsBack(GetHash, PutHash, hs[i]) { HashBack(hs[i]); }
    ReadAllBack(GetHash, PutHash, hs, rest);
    if |PutAll(PutHash, hs, [])| < SIZE_LIMIT { ReadListBack(GetHash, PutHash, hs, rest); }
  }

  /** Sizes of the parts of a log follow from the size of the whole. */
  lemma {:induction false} LogSizes(l: LogEntry, rest: bytes)
    requires LogFits(l)
    ensures |l.data| < SIZE_LIMIT && |PutAll(PutHash, l.topics, [])| < SIZE_LIMIT
    ensures |LogFields(l, rest)| == |LogFields(l, [])| + |rest|
  {
    hide EncStr, HeaderBytes, PutAll;
    StrHolds(l.data);
    HashesRead(l.topics, PutStr(l.data, rest));
    HashesRead(l.topics, PutStr(l.data, []));
  }

  lemma {:induction false} LogReads(l: LogEntry, rest: bytes)
    requires LogFits(l)
    ensures ReadLog(PutLog(l, rest)) == Ok((l, rest)) && |PutLog(l, rest)| == |PutLog(l, [])| + |rest|
            && PutLog(l, rest) != rest
  {
    hide ListHeader, GetFixed, GetStr, ReadListOf, PutListOf, EncStr, HeaderBytes, PutStr;
    LogSizes(l, rest);
    LogSizes(l, []);
    HeaderField(|LogFields(l, [])|, LogFields(l, rest));
    HeaderNonempty(|LogFields(l, [])|);
    FixedField(l.address, PutListOf(PutHash, l.topics, PutStr(l.data, rest)));
    HashesRead(l.topics, PutStr(l.data, rest));
    StrField(l.data, rest);
  }

  lemma {:induction false} LogBack(l: LogEntry)
    requires LogFits(l)
    ensures ReadsBack(ReadLog, PutLog, l)
  {
    hide ReadLog, PutLog;
    forall rest: bytes
      ensures ReadLog(PutLog(l, rest)) == Ok((l, rest)) && |PutLog(l, rest)| == |PutLog(l, [])| + |rest|
              && PutLog(l, rest) != rest
    {
      LogReads(l, rest);
    }
  }

  // ---------------------------------------------------------------------------------------------
  // Access lists
  // ---------------------------------------------------------------------------------------------

  datatype AccessEntry = AccessEntry(address: address, keys: seq<hash>)

  function AccessFields(a: AccessEntry, rest: bytes): bytes {
    PutStr(a.address, PutListOf(PutHash, a.keys, rest))
  }

  /** `encode_access_list_entry_to_encoder`. */
  function PutAccess(a: AccessEntry, rest: bytes): bytes {
    PutHeader(|AccessFields(a, [])|, AccessFields(a, rest))
  }

  /** `decode_access_list_entry_from_decoder`. */
  function ReadAccess(v: bytes): Result<(AccessEntry, bytes), DecodingError> {
    var (n, start) :- ListHeader(v);
    var (address, v1) :- GetAddress(start);
    var (keys, v2) :- ReadListOf(GetHash, v1);
    if |v2| != |start| - n then Err(ListLengthMismatch) else Ok((AccessEntry(address, keys), v2))
  }

  ghost predicate AccessFits(a: AccessEntry) {
    |AccessFields(a, [])| < SIZE_LIMIT
  }

  lemma {:induction false} AccessReads(a: AccessEntry, rest: bytes)
    requires AccessFits(a)
    ensures ReadAccess(PutAccess(a, rest)) == Ok((a, rest)) && |PutAccess(a, rest)| == |PutAccess(a, [])| + |rest|
            && PutAccess(a, rest) != rest
  {
    hide ListHeader, GetFixed, ReadListOf, EncStr, HeaderBytes, PutAll;
    HashesRead(a.keys, rest);
    HashesRead(a.keys, []);
    HeaderField(|AccessFields(a, [])|, AccessFields(a, rest));
    HeaderNonempty(|AccessFields(a, [])|);
    FixedField(a.address, PutListOf(PutHash, a.keys, rest));
  }

  lemma {:induction false} AccessBack(a: AccessEntry)
    requires AccessFits(a)
    ensures ReadsBack(ReadAccess, PutAccess, a)
  {
    hide ReadAccess, PutAccess;
    forall rest: bytes
      ensures ReadAccess(PutAccess(a, rest)) == Ok((a, rest)) && |PutAccess(a, rest)| == |PutAccess(a, [])| + |rest|
              && PutAccess(a, rest) != rest
    {
      AccessReads(a, rest);
    }
  }

  ghost predicate AccessListFits(al: seq<AccessEntry>) {
    |PutAll(PutAccess, al, [])| < SIZE_LIMIT && forall i :: 0 <= i < |al| ==> AccessFits(al[i])
  }

  lemma {:induction false} AccessListReads(al: seq<AccessEntry>, rest: bytes)
    requires AccessListFits(al)
    ensures ReadListOf(ReadAccess, PutListOf(PutAccess, al, rest)) == Ok((al, rest))
    ensures |PutListOf(PutAccess, al, rest)| == |PutListOf(PutAccess, al, [])| + |rest|
  {
    hide ReadAccess, PutAccess, ReadListOf, PutListOf, AccessFits;
    forall i | 0 <= i < |al| ensures ReadsBack(ReadAccess, PutAccess, al[i]) { AccessBack(al[i]); }
    ReadListBack(ReadAccess, PutAccess, al, rest);
  }

  // ---------------------------------------------------------------------------------------------
  // Transactions
  // ---------------------------------------------------------------------------------------------

  datatype TxType = Legacy | AccessListTx | DynamicFee

  datatype Transaction = Transaction(
    kind: TxType, nonce: u64, gasLimit: u64, to: Option<address>, value: u256, data: bytes,
    gasPrice: Option<u256>, maxPriorityFee: Option<u256>, maxFee: Option<u256>,
    accessList: seq<AccessEntry>, chainId: Option<u64>, v: u256, r: u256, s: u256)

  function OrElse<T>(x: Option<T>, y: T): T {
    if x.Some? then x.value else y
  }

  const ZERO: u256 := 0
  const DEFAULT_CHAIN: u64 := 1

  /** The recipient; contract creation is written as an empty string. */
  function PutTo(to: Option<address>, rest: bytes): bytes {
    PutStr(if to.Some? then to.value else [], rest)
  }

  function ReadTo(v: bytes): Result<(Option<address>, bytes), DecodingError> {
    var h :- DecodeHeader(v);
    if h.payload == 0 then
      var (_, rest) :- GetStr(v);
      Ok((None, rest))
    else
      var (a, rest) :- GetAddress(v);
      Ok((Some(a), rest))
  }

  lemma {:induction false} ToReads(to: Option<address>, rest: bytes)
    ensures ReadTo(PutTo(to, rest)) == Ok((to, rest)) && |PutTo(to, rest)| == |PutTo(to, [])| + |rest|
  {
    hide DecodeHeader, ReadFixed, HeaderBytes;
    var s: bytes := if to.Some? then to.value else [];
    HeaderRoundTrip(false, s, rest);
    assert HeaderBytes(false, |s|) + s + rest == PutStr(s, rest);
    if to.Some? { FixedField(to.value, rest); } else { StrField(s, rest); }
  }

  /** What all kinds carry between the fees and the signature. */
  datatype Core = Core(gasLimit: u64, to: Option<address>, value: u256, data: bytes)

  function CoreOf(tx: Transaction): Core {
    Core(tx.gasLimit, tx.to, tx.value, tx.data)
  }

  function PutCore(c: Core, rest: bytes): bytes {
    PutUint(c.gasLimit, PutTo(c.to, PutUint(c.value, PutStr(c.data, rest))))
  }

  function ReadCore(v: bytes): Result<(Core, bytes), DecodingError> {
    var (gasLimit, v1) :- GetU64(v);
    var (to, v2) :- ReadTo(v1);
    var (value, v3) :- GetU256(v2);
    var (data, v4) :- GetStr(v3);
    Ok((Core(gasLimit, to, value, data), v4))
  }

  lemma {:induction false} CoreReads(c: Core, rest: bytes)
    requires |c.data| < SIZE_LIMIT
    ensures ReadCore(PutCore(c, rest)) == Ok((c, rest)) && |PutCore(c, rest)| == |PutCore(c, [])| + |rest|
  {
    hide GetU64, GetU256, GetStr, ReadTo, EncStr, ToBigCompact;
    var v3 := PutStr(c.data, rest);
    var v2 := PutUint(c.value, v3);
    U64Field(c.gasLimit, PutTo(c.to, v2));
    ToReads(c.to, v2);
    U256Field(c.value, v3);
    StrField(c.data, rest);
  }

  datatype Signature = Signature(v: u256, r: u256, s: u256)

  function SignatureOf(tx: Transaction): Signature {
    Signature(tx.v, tx.r, tx.s)
  }

  function PutSignature(x: Signature, rest: bytes): bytes {
    PutUint(x.v, PutUint(x.r, PutUint(x.s, rest)))
  }

  function ReadSignature(v: bytes): Result<(Signature, bytes), DecodingError> {
    var (y, v1) :- GetU256(v);
    var (r, v2) :- GetU256(v1);
    var (s, v3) :- GetU256(v2);
    Ok((Signature(y, r, s), v3))
  }

  lemma {:induction false} SignatureReads(x: Signature, rest: bytes)
    ensures ReadSignature(PutSignature(x, rest)) == Ok((x, rest))
            && |PutSignature(x, rest)| == |PutSignature(x, [])| + |rest|
  {
    hide GetU256, EncStr, ToBigCompact;
    U256Field(x.v, PutUint(x.r, PutUint(x.s, rest)));
    U256Field(x.r, PutUint(x.s, rest));
    U256Field(x.s, rest);
  }

  /** The fee fields of the typed kinds: one price, or two caps. */
  datatype Fees = OnePrice(price: u256) | TwoCaps(priority: u256, total: u256)

  function FeesOf(tx: Transaction): Fees {
    if tx.kind == DynamicFee then TwoCaps(OrElse(tx.maxPriorityFee, ZERO), OrElse(tx.maxFee, ZERO))
    else OnePrice(OrElse(tx.gasPrice, ZERO))
  }

  function PutFees(f: Fees, rest: bytes): bytes {
    match f
    case OnePrice(p) => PutUint(p, rest)
    case TwoCaps(p, t) => PutUint(p, PutUint(t, rest))
  }

  function ReadFees(two: bool, v: bytes): Result<(Fees, bytes), DecodingError> {
    var (p, v1) :- GetU256(v);
    if !two then Ok((OnePrice(p), v1))
    else
      var (t, v2) :- GetU256(v1);
      Ok((TwoCaps(p, t), v2))
  }

  lemma {:induction false} FeesRead(f: Fees, rest: bytes)
    ensures ReadFees(f.TwoCaps?, PutFees(f, rest)) == Ok((f, rest)) && |PutFees(f, rest)| == |PutFees(f, [])| + |rest|
  {
    hide GetU256, EncStr, ToBigCompact;
    match f {
      case OnePrice(p) => U256Field(p, rest);
      case TwoCaps(p, t) =>
        U256Field(p, PutUint(t, rest));
        U256Field(t, rest);
    }
  }

  function LegacyFields(tx: Transaction, rest: bytes): bytes {
    PutUint(tx.nonce, PutFees(FeesOf(tx), PutCore(CoreOf(tx), PutSignature(SignatureOf(tx), rest))))
  }

  function TypedFields(tx: Transaction, rest: bytes): bytes {
    PutUint(OrElse(tx.chainId, DEFAULT_CHAIN), PutUint(tx.nonce, PutFees(FeesOf(tx), PutCore(CoreOf(tx),
      PutListOf(PutAccess, tx.accessList, PutSignature(SignatureOf(tx), rest))))))
  }

  function TypeByte(t: TxType): byte {
    if t == Legacy then 0 else if t == AccessListTx then 1 else 2
  }

  /** `encode_transaction`. */
  function EncodeTransaction(tx: Transaction): bytes {
    if tx.kind == Legacy then PutHeader(|LegacyFields(tx, [])|, LegacyFields(tx, []))
    else [TypeByte(tx.kind)] + PutHeader(|TypedFields(tx, [])|, TypedFields(tx, []))
  }

  /** A transaction with the optional fields that its kind carries. */
  function Assemble(
    kind: TxType, chainId: Option<u64>, nonce: u64, f: Fees, c: Core, al: seq<AccessEntry>, x: Signature): Transaction {
    Transaction(kind, nonce, c.gasLimit, c.to, c.value, c.data,
                if f.OnePrice? then Some(f.price) else None,
                if f.TwoCaps? then Some(f.priority) else None, if f.TwoCaps? then Some(f.total) else None,
                al, chainId, x.v, x.r, x.s)
  }

  function DecodeTyped(kind: TxType, v: bytes): Result<Transaction, DecodingError> {
    var (_, v0) :- ListHeader(v);
    var (chainId, v1) :- GetU64(v0);
    var (nonce, v2) :- GetU64(v1);
    var (fees, v3) :- ReadFees(kind == DynamicFee, v2);
    var (core, v4) :- ReadCore(v3);
    var (al, v5) :- ReadListOf(ReadAccess, v4);
    var (x, _) :- ReadSignature(v5);
    Ok(Assemble(kind, Some(chainId), nonce, fees, core, al, x))
  }

  function DecodeLegacy(v: bytes): Result<Transaction, DecodingError> {
    var (_, v0) :- ListHeader(v);
    var (nonce, v1) :- GetU64(v0);
    var (fees, v2) :- ReadFees(false, v1);
    var (core, v3) :- ReadCore(v2);
    var (x, _) :- ReadSignature(v3);
    Ok(Assemble(Legacy, None, nonce, fees, core, [], x))
  }

  /** `decode_transaction`: a first byte below 0xc0 is a type; bytes behind the last field are ignored. */
  function DecodeTransaction(raw: bytes): Result<Transaction, DecodingError> {
    if raw == [] then Err(InputTooShort)
    else if raw[0] >= SHORT_LIST then DecodeLegacy(raw)
    else if raw[0] == 1 then DecodeTyped(AccessListTx, raw[1..])
    else if raw[0] == 2 then DecodeTyped(DynamicFee, raw[1..])
    else Err(UnexpectedString)
  }

  ghost predicate TxFits(tx: Transaction) {
    if tx.kind == Legacy then |LegacyFields(tx, [])| < SIZE_LIMIT
    else |TypedFields(tx, [])| < SIZE_LIMIT && AccessListFits(tx.accessList)
  }

  /** The form a transaction has after a round trip: exactly the optional fields of its kind, with their defaults. */
  function Normalized(tx: Transaction): Transaction {
    Assemble(tx.kind, if tx.kind == Legacy then None else Some(OrElse(tx.chainId, DEFAULT_CHAIN)), tx.nonce,
             FeesOf(tx), CoreOf(tx),
             if tx.kind == Legacy then [] else tx.accessList, SignatureOf(tx))
  }

  /** Which optional fields a kind has. */
  predicate NormalForm(tx: Transaction) {
    && tx.gasPrice.Some? == (tx.kind != DynamicFee)
    && tx.maxPriorityFee.Some? == tx.maxFee.Some? == (tx.kind == DynamicFee)
    && tx.chainId.Some? == (tx.kind != Legacy)
    && (tx.kind == Legacy ==> tx.accessList == [])
  }

  lemma {:induction false} ListStartsHigh(size: nat, rest: bytes)
    requires size < SIZE_LIMIT
    ensures PutHeader(size, rest) != [] && PutHeader(size, rest)[0] >= SHORT_LIST
  {}

  lemma {:induction false} DataFits(c: Core, rest: bytes)
    ensures |PutCore(c, rest)| >= |c.data|
  {
    hide ToBigCompact;
    StrHolds(c.data);
  }

  lemma {:induction false} LegacyReads(tx: Transaction)
    requires TxFits(tx) && tx.kind == Legacy
    ensures DecodeTransaction(EncodeTransaction(tx)) == Ok(Normalized(tx))
  {
    hide ListHeader, GetU64, ReadFees, ReadCore, ReadSignature, PutHeader, PutCore, PutFees, PutSignature, EncStr,
        ToBigCompact;
    var v3 := PutSignature(SignatureOf(tx), []);
    var v2 := PutCore(CoreOf(tx), v3);
    var v1 := PutFees(FeesOf(tx), v2);
    DataFits(CoreOf(tx), v3);
    FeesRead(FeesOf(tx), v2);
    CoreReads(CoreOf(tx), v3);
    ListStartsHigh(|LegacyFields(tx, [])|, LegacyFields(tx, []));
    HeaderField(|LegacyFields(tx, [])|, LegacyFields(tx, []));
    U64Field(tx.nonce, v1);
    SignatureReads(SignatureOf(tx), []);
  }

  lemma {:induction false} TypedReads(tx: Transaction)
    requires TxFits(tx) && tx.kind != Legacy
    ensures DecodeTransaction(EncodeTransaction(tx)) == Ok(Normalized(tx))
  {
    hide ListHeader, GetU64, ReadFees, ReadCore, ReadSignature, ReadListOf, PutHeader, PutCore, PutFees, PutSignature,
        PutListOf, EncStr, ToBigCompact, AccessListFits;
    var v5 := PutSignature(SignatureOf(tx), []);
    var v4 := PutListOf(PutAccess, tx.accessList, v5);
    var v3 := PutCore(CoreOf(tx), v4);
    var v2 := PutFees(FeesOf(tx), v3);
    var v1 := PutUint(tx.nonce, v2);
    var chain := OrElse(tx.chainId, DEFAULT_CHAIN);
    var fields := TypedFields(tx, []);
    assert fields == PutUint(chain, v1);
    DataFits(CoreOf(tx), v4);
    FeesRead(FeesOf(tx), v3);
    assert EncodeTransaction(tx)[1..] == PutHeader(|fields|, fields);
    HeaderField(|fields|, fields);
    U64Field(chain, v1);
    U64Field(tx.nonce, v2);
    CoreReads(CoreOf(tx), v4);
    AccessListReads(tx.accessList, v5);
    SignatureReads(SignatureOf(tx), []);
  }

  /** Every transaction decodes to its normal form, so it comes back unchanged exactly when it is in normal form. */
  lemma {:induction false} TransactionRoundTrip(tx: Transaction)
    requires TxFits(tx)
    ensures DecodeTransaction(EncodeTransaction(tx)) == Ok(Normalized(tx))
    ensures DecodeTransaction(EncodeTransaction(tx)) == Ok(tx) <==> NormalForm(tx)
  {
    hide DecodeTransaction, EncodeTransaction, TxFits;
    if tx.kind == Legacy { LegacyReads(tx); } else { TypedReads(tx); }
  }
}
