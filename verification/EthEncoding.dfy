/** The encoders of eth objects as they drive the RLP encoder, field by field. */
module EthEncoding {
  import opened Bytes
  import opened RlpFormat
  import opened RlpEncoder
  import opened RlpDecoder
  import opened RlpFields
  import opened EthObjects
  import opened EthBlocks

  /** Of the bytes that the innermost open list is to hold, all but the last `rest` are written. */
  ghost predicate Writing(e: RlpEncoder, outer: seq<bytes>, whole: bytes, rest: bytes)
    reads e
  {
    && e.Valid() && outer != [] && |rest| <= |whole| && whole[|whole| - |rest|..] == rest
    && e.levels == outer + [whole[..|whole| - |rest|]]
  }

  /** Appending the next piece leaves the rest behind it to be written. */
  lemma {:induction false} Advance(outer: seq<bytes>, whole: bytes, piece: bytes, rest: bytes)
    requires outer != [] && |piece + rest| <= |whole| && whole[|whole| - |piece + rest|..] == piece + rest
    ensures whole[|whole| - |rest|..] == rest
    ensures Extend(outer + [whole[..|whole| - |piece + rest|]], piece) == outer + [whole[..|whole| - |rest|]]
  {
    var i, j := |whole| - |piece + rest|, |whole| - |rest|;
    assert whole[i..][..|piece|] == piece && whole[i..][|piece|..] == rest;
    assert whole[..j] == whole[..i] + piece;
    assert (outer + [whole[..i]])[..|outer|] == outer;
  }

  method WriteStr(e: RlpEncoder, s: bytes, ghost outer: seq<bytes>, ghost whole: bytes, ghost rest: bytes)
    requires |s| < SIZE_LIMIT && Writing(e, outer, whole, PutStr(s, rest))
    modifies e
    ensures Writing(e, outer, whole, rest)
  {
    hide EncStr;
    Advance(outer, whole, EncStr(s), rest);
    var added := e.Add(s);
  }

  method WriteU64(e: RlpEncoder, n: u64, ghost outer: seq<bytes>, ghost whole: bytes, ghost rest: bytes)
    requires Writing(e, outer, whole, PutUint(n, rest))
    modifies e
    ensures Writing(e, outer, whole, rest)
  {
    hide EncStr, ToBigCompact, Pow256;
    Advance(outer, whole, EncStr(ToBigCompact(n)), rest);
    e.AddUint(n, 8);
  }

  method WriteU256(e: RlpEncoder, n: u256, ghost outer: seq<bytes>, ghost whole: bytes, ghost rest: bytes)
    requires Writing(e, outer, whole, PutUint(n, rest))
    modifies e
    ensures Writing(e, outer, whole, rest)
  {
    hide EncStr, ToBigCompact, Pow256;
    Advance(outer, whole, EncStr(ToBigCompact(n)), rest);
    e.AddUint256(n);
  }

  /** Opens a list inside the one being written. */
  method Open(e: RlpEncoder, ghost outer: seq<bytes>, ghost whole: bytes, ghost rest: bytes, ghost inner: bytes)
    requires Writing(e, outer, whole, rest)
    modifies e
    ensures Writing(e, outer + [whole[..|whole| - |rest|]], inner, inner)
  {
    e.BeginList();
    assert inner[..0] == [] && inner[0..] == inner;
  }

  /** Closes a list that is complete: it becomes the next piece of the list around it. */
  method Close(e: RlpEncoder, ghost outer: seq<bytes>, ghost whole: bytes, ghost inner: bytes, ghost rest: bytes)
    requires |inner| < SIZE_LIMIT && outer != []
    requires var piece := PutHeader(|inner|, inner);
             && |piece + rest| <= |whole| && whole[|whole| - |piece + rest|..] == piece + rest
             && Writing(e, outer + [whole[..|whole| - |piece + rest|]], inner, [])
    modifies e
    ensures Writing(e, outer, whole, rest)
  {
    hide HeaderBytes;
    ghost var piece := PutHeader(|inner|, inner);
    ghost var open := outer + [whole[..|whole| - |piece + rest|]];
    assert inner[..|inner|] == inner;
    assert (open + [inner])[..|open|] == open;
    Advance(outer, whole, piece, rest);
    var ended := e.EndList();
  }

  // ---------------------------------------------------------------------------------------------
  // Writers and what follows them
  // ---------------------------------------------------------------------------------------------

  /** What is written for a value does not depend on what follows. */
  ghost predicate Appends<T(!new)>(write: Writer<T>, x: T) {
    forall a: bytes, b: bytes :: write(x, a) + b == write(x, a + b)
  }

  lemma {:induction false} PutAllAppends<T(!new)>(write: Writer<T>, xs: seq<T>, a: bytes, b: bytes)
    requires forall i :: 0 <= i < |xs| ==> Appends(write, xs[i])
    ensures PutAll(write, xs, a) + b == PutAll(write, xs, a + b)
  {
    if xs != [] {
      PutAllAppends(write, xs[1..], a, b);
      assert Appends(write, xs[0]);
    }
  }

  lemma {:induction false} PutListAppends<T(!new)>(write: Writer<T>, xs: seq<T>, a: bytes, b: bytes)
    requires forall i :: 0 <= i < |xs| ==> Appends(write, xs[i])
    ensures PutListOf(write, xs, a) + b == PutListOf(write, xs, a + b)
  {
    hide HeaderBytes, PutAll, Appends;
    PutAllAppends(write, xs, a, b);
    var h := HeaderBytes(true, |PutAll(write, xs, [])|);
    assert h + PutAll(write, xs, a) + b == h + (PutAll(write, xs, a) + b);
  }

  /** A list is its own bytes in front of the rest. */
  lemma {:induction false} ListPiece<T(!new)>(write: Writer<T>, xs: seq<T>, rest: bytes)
    requires forall i :: 0 <= i < |xs| ==> Appends(write, xs[i])
    ensures var inner := PutAll(write, xs, []); PutListOf(write, xs, rest) == PutHeader(|inner|, inner) + rest
  {
    hide HeaderBytes, PutAll, Appends;
    PutListAppends(write, xs, [], rest);
    assert [] + rest == rest;
  }

  lemma {:induction false} HashAppends(h: hash)
    ensures Appends(PutHash, h)
  {
    hide EncStr;
    forall a: bytes, b: bytes ensures PutHash(h, a) + b == PutHash(h, a + b) { PutStrAppend(h, a, b); }
  }

  lemma {:induction false} AccessAppends(x: AccessEntry)
    ensures Appends(PutAccess, x)
  {
    hide HeaderBytes, PutStr, PutListOf;
    forall i | 0 <= i < |x.keys| ensures Appends(PutHash, x.keys[i]) { HashAppends(x.keys[i]); }
    var h := HeaderBytes(true, |AccessFields(x, [])|);
    forall a: bytes, b: bytes ensures PutAccess(x, a) + b == PutAccess(x, a + b) {
      PutListAppends(PutHash, x.keys, a, b);
      PutStrAppend(x.address, PutListOf(PutHash, x.keys, a), b);
      assert h + AccessFields(x, a) + b == h + (AccessFields(x, a) + b);
    }
  }

  lemma {:induction false} LogAppends(x: LogEntry)
    ensures Appends(PutLog, x)
  {
    hide HeaderBytes, PutStr, PutListOf;
    forall i | 0 <= i < |x.topics| ensures Appends(PutHash, x.topics[i]) { HashAppends(x.topics[i]); }
    var h := HeaderBytes(true, |LogFields(x, [])|);
    forall a: bytes, b: bytes ensures PutLog(x, a) + b == PutLog(x, a + b) {
      PutStrAppend(x.data, a, b);
      PutListAppends(PutHash, x.topics, PutStr(x.data, a), b);
      PutStrAppend(x.address, PutListOf(PutHash, x.topics, PutStr(x.data, a)), b);
      assert h + LogFields(x, a) + b == h + (LogFields(x, a) + b);
    }
  }

  // ---------------------------------------------------------------------------------------------
  // Lists
  // ---------------------------------------------------------------------------------------------

  /** `encode_hash_list`, and the loops over topics and storage keys. */
  method WriteHashes(e: RlpEncoder, hs: seq<hash>, ghost outer: seq<bytes>, ghost whole: bytes, ghost rest: bytes)
    requires |PutAll(PutHash, hs, [])| < SIZE_LIMIT && Writing(e, outer, whole, PutListOf(PutHash, hs, rest))
    modifies e
    ensures Writing(e, outer, whole, rest)
  {
    hide HeaderBytes, EncStr, PutListOf;
    ghost var inner := PutAll(PutHash, hs, []);
    forall i | 0 <= i < |hs| ensures Appends(PutHash, hs[i]) { HashAppends(hs[i]); }
    ListPiece(PutHash, hs, rest);
    ghost var list := PutListOf(PutHash, hs, rest);
    Open(e, outer, whole, list, inner);
    assert hs[0..] == hs;
    for i := 0 to |hs|
      invariant Writing(e, outer + [whole[..|whole| - |list|]], inner, PutAll(PutHash, hs[i..], []))
    {
      assert hs[i..][0] == hs[i] && hs[i..][1..] == hs[i + 1..];
      WriteStr(e, hs[i], outer + [whole[..|whole| - |list|]], inner, PutAll(PutHash, hs[i + 1..], []));
    }
    Close(e, outer, whole, inner, rest);
  }

  lemma {:induction false} LogPiece(l: LogEntry)
    ensures PutLog(l, []) == PutHeader(|LogFields(l, [])|, LogFields(l, []))
  {}

  method WriteLogFields(e: RlpEncoder, l: LogEntry, ghost outer: seq<bytes>)
    requires LogFits(l) && Writing(e, outer, LogFields(l, []), LogFields(l, []))
    modifies e
    ensures Writing(e, outer, LogFields(l, []), [])
  {
    hide PutStr, PutListOf, PutAll;
    LogSizes(l, []);
    ghost var inner := LogFields(l, []);
    WriteStr(e, l.address, outer, inner, PutListOf(PutHash, l.topics, PutStr(l.data, [])));
    WriteHashes(e, l.topics, outer, inner, PutStr(l.data, []));
    WriteStr(e, l.data, outer, inner, []);
  }

  method WriteLog(e: RlpEncoder, l: LogEntry, ghost outer: seq<bytes>, ghost whole: bytes, ghost rest: bytes)
    requires LogFits(l) && Writing(e, outer, whole, PutLog(l, rest))
    modifies e
    ensures Writing(e, outer, whole, rest)
  {
    hide HeaderBytes, PutListOf, PutStr, PutAll, LogFields, PutHeader;
    ghost var inner, list := LogFields(l, []), PutLog(l, rest);
    LogAppends(l);
    assert PutLog(l, []) + rest == PutLog(l, [] + rest) == PutLog(l, rest) by { assert [] + rest == rest; }
    LogSizes(l, []);
    Open(e, outer, whole, list, inner);
    WriteLogFields(e, l, outer + [whole[..|whole| - |list|]]);
    LogPiece(l);
    Close(e, outer, whole, inner, rest);
  }

  /** The loop over logs in `encode_receipt`. */
  method WriteLogs(e: RlpEncoder, ls: seq<LogEntry>, ghost outer: seq<bytes>, ghost whole: bytes, ghost rest: bytes)
    requires |PutAll(PutLog, ls, [])| < SIZE_LIMIT && (forall i :: 0 <= i < |ls| ==> LogFits(ls[i]))
    requires Writing(e, outer, whole, PutListOf(PutLog, ls, rest))
    modifies e
    ensures Writing(e, outer, whole, rest)
  {
    hide HeaderBytes, PutListOf, PutLog, LogFits;
    ghost var inner := PutAll(PutLog, ls, []);
    forall i | 0 <= i < |ls| ensures Appends(PutLog, ls[i]) { LogAppends(ls[i]); }
    ListPiece(PutLog, ls, rest);
    ghost var list := PutListOf(PutLog, ls, rest);
    Open(e, outer, whole, list, inner);
    assert ls[0..] == ls;
    for i := 0 to |ls|
      invariant Writing(e, outer + [whole[..|whole| - |list|]], inner, PutAll(PutLog, ls[i..], []))
    {
      assert ls[i..][0] == ls[i] && ls[i..][1..] == ls[i + 1..];
      WriteLog(e, ls[i], outer + [whole[..|whole| - |list|]], inner, PutAll(PutLog, ls[i + 1..], []));
    }
    Close(e, outer, whole, inner, rest);
  }

  lemma {:induction false} KeysFit(x: AccessEntry)
    requires AccessFits(x)
    ensures |PutAll(PutHash, x.keys, [])| < SIZE_LIMIT
  {}

  /** `encode_access_list_entry_to_encoder`. */
  method WriteAccess(e: RlpEncoder, x: AccessEntry, ghost outer: seq<bytes>, ghost whole: bytes, ghost rest: bytes)
    requires AccessFits(x) && Writing(e, outer, whole, PutAccess(x, rest))
    modifies e
    ensures Writing(e, outer, whole, rest)
  {
    hide HeaderBytes, PutListOf, PutStr, PutAll, PutHeader;
    ghost var inner, list := AccessFields(x, []), PutAccess(x, rest);
    ghost var open := outer + [whole[..|whole| - |list|]];
    AccessAppends(x);
    assert PutAccess(x, []) + rest == PutAccess(x, [] + rest) == PutAccess(x, rest) by { assert [] + rest == rest; }
    KeysFit(x);
    Open(e, outer, whole, list, inner);
    WriteStr(e, x.address, open, inner, PutListOf(PutHash, x.keys, []));
    WriteHashes(e, x.keys, open, inner, []);
    Close(e, outer, whole, inner, rest);
  }

  /** `encode_access_list`. */
  method WriteAccessList(
    e: RlpEncoder, al: seq<AccessEntry>, ghost outer: seq<bytes>, ghost whole: bytes, ghost rest: bytes)
    requires AccessListFits(al) && Writing(e, outer, whole, PutListOf(PutAccess, al, rest))
    modifies e
    ensures Writing(e, outer, whole, rest)
  {
    hide HeaderBytes, PutListOf, PutAccess, AccessFits;
    ghost var inner := PutAll(PutAccess, al, []);
    forall i | 0 <= i < |al| ensures Appends(PutAccess, al[i]) { AccessAppends(al[i]); }
    ListPiece(PutAccess, al, rest);
    ghost var list := PutListOf(PutAccess, al, rest);
    Open(e, outer, whole, list, inner);
    assert al[0..] == al;
    for i := 0 to |al|
      invariant Writing(e, outer + [whole[..|whole| - |list|]], inner, PutAll(PutAccess, al[i..], []))
    {
      assert al[i..][0] == al[i] && al[i..][1..] == al[i + 1..];
      WriteAccess(e, al[i], outer + [whole[..|whole| - |list|]], inner, PutAll(PutAccess, al[i + 1..], []));
    }
    Close(e, outer, whole, inner, rest);
  }

  // ---------------------------------------------------------------------------------------------
  // Transactions
  // ---------------------------------------------------------------------------------------------

  method WriteCore(e: RlpEncoder, c: Core, ghost outer: seq<bytes>, ghost whole: bytes, ghost rest: bytes)
    requires |c.data| < SIZE_LIMIT && Writing(e, outer, whole, PutCore(c, rest))
    modifies e
    ensures Writing(e, outer, whole, rest)
  {
    hide PutStr, PutUint;
    ghost var v3 := PutStr(c.data, rest);
    ghost var v2 := PutUint(c.value, v3);
    WriteU64(e, c.gasLimit, outer, whole, PutTo(c.to, v2));
    WriteStr(e, if c.to.Some? then c.to.value else [], outer, whole, v2);
    WriteU256(e, c.value, outer, whole, v3);
    WriteStr(e, c.data, outer, whole, rest);
  }

  method WriteSignature(e: RlpEncoder, x: Signature, ghost outer: seq<bytes>, ghost whole: bytes, ghost rest: bytes)
    requires Writing(e, outer, whole, PutSignature(x, rest))
    modifies e
    ensures Writing(e, outer, whole, rest)
  {
    hide PutUint;
    WriteU256(e, x.v, outer, whole, PutUint(x.r, PutUint(x.s, rest)));
    WriteU256(e, x.r, outer, whole, PutUint(x.s, rest));
    WriteU256(e, x.s, outer, whole, rest);
  }

  method WriteFees(e: RlpEncoder, f: Fees, ghost outer: seq<bytes>, ghost whole: bytes, ghost rest: bytes)
    requires Writing(e, outer, whole, PutFees(f, rest))
    modifies e
    ensures Writing(e, outer, whole, rest)
  {
    hide PutUint;
    match f {
      case OnePrice(p) => WriteU256(e, p, outer, whole, rest);
      case TwoCaps(p, t) =>
        WriteU256(e, p, outer, whole, PutUint(t, rest));
        WriteU256(e, t, outer, whole, rest);
    }
  }

  /** A fresh encoder with one list open, about to hold `whole`. */
  method Begin(ghost whole: bytes) returns (e: RlpEncoder)
    ensures fresh(e) && Writing(e, [[]], whole, whole)
  {
    e := new RlpEncoder();
    e.BeginList();
    assert whole[..0] == [] && whole[0..] == whole;
  }

  /** Closes the outermost list and takes the bytes. */
  method Finish(e: RlpEncoder, ghost whole: bytes) returns (r: bytes)
    requires |whole| < SIZE_LIMIT && Writing(e, [[]], whole, [])
    modifies e
    ensures r == PutHeader(|whole|, whole)
  {
    hide HeaderBytes;
    assert whole[..|whole|] == whole;
    ghost var list := HeaderBytes(true, |whole|) + whole;
    assert [] + list == list && Extend([[]], list) == [list];
    assert ([[]] + [whole])[..1] == [[]];
    var ended := e.EndList();
    var taken := e.GetBytes();
    r := taken.value;
  }

  lemma {:induction false} LegacyDataFits(tx: Transaction)
    requires TxFits(tx) && tx.kind == Legacy
    ensures |tx.data| < SIZE_LIMIT
  {
    hide EncStr, ToBigCompact, PutCore;
    DataFits(CoreOf(tx), PutSignature(SignatureOf(tx), []));
  }

  method BuildLegacy(tx: Transaction) returns (r: bytes)
    requires TxFits(tx) && tx.kind == Legacy
    ensures r == PutHeader(|LegacyFields(tx, [])|, LegacyFields(tx, []))
  {
    hide PutUint, PutFees, PutCore, PutSignature, PutHeader;
    ghost var whole := LegacyFields(tx, []);
    ghost var v2 := PutSignature(SignatureOf(tx), []);
    ghost var v1 := PutCore(CoreOf(tx), v2);
    LegacyDataFits(tx);
    var e := Begin(whole);
    WriteU64(e, tx.nonce, [[]], whole, PutFees(FeesOf(tx), v1));
    WriteFees(e, FeesOf(tx), [[]], whole, v1);
    WriteCore(e, CoreOf(tx), [[]], whole, v2);
    WriteSignature(e, SignatureOf(tx), [[]], whole, []);
    r := Finish(e, whole);
  }

  lemma {:induction false} TypedDataFits(tx: Transaction)
    requires TxFits(tx) && tx.kind != Legacy
    ensures |tx.data| < SIZE_LIMIT
  {
    hide EncStr, ToBigCompact, PutCore, PutListOf, AccessListFits;
    DataFits(CoreOf(tx), PutListOf(PutAccess, tx.accessList, PutSignature(SignatureOf(tx), [])));
  }

  method BuildTyped(tx: Transaction) returns (r: bytes)
    requires TxFits(tx) && tx.kind != Legacy
    ensures r == PutHeader(|TypedFields(tx, [])|, TypedFields(tx, []))
  {
    hide PutUint, PutFees, PutCore, PutSignature, PutListOf, PutHeader, AccessListFits;
    ghost var whole := TypedFields(tx, []);
    ghost var v4 := PutSignature(SignatureOf(tx), []);
    ghost var v3 := PutListOf(PutAccess, tx.accessList, v4);
    ghost var v2 := PutCore(CoreOf(tx), v3);
    ghost var v1 := PutFees(FeesOf(tx), v2);
    TypedDataFits(tx);
    var e := Begin(whole);
    WriteU64(e, OrElse(tx.chainId, DEFAULT_CHAIN), [[]], whole, PutUint(tx.nonce, v1));
    WriteU64(e, tx.nonce, [[]], whole, v1);
    WriteFees(e, FeesOf(tx), [[]], whole, v2);
    WriteCore(e, CoreOf(tx), [[]], whole, v3);
    WriteAccessList(e, tx.accessList, [[]], whole, v4);
    WriteSignature(e, SignatureOf(tx), [[]], whole, []);
    r := Finish(e, whole);
  }

  /** `encode_transaction`. */
  method BuildTransaction(tx: Transaction) returns (r: bytes)
    requires TxFits(tx)
    ensures r == EncodeTransaction(tx)
  {
    hide LegacyFields, TypedFields, PutHeader;
    if tx.kind == Legacy {
      r := BuildLegacy(tx);
    } else {
      var list := BuildTyped(tx);
      r := [TypeByte(tx.kind)] + list;
    }
  }

  // ---------------------------------------------------------------------------------------------
  // Receipts and block headers
  // ---------------------------------------------------------------------------------------------

  method WriteOutcome(e: RlpEncoder, o: Outcome, ghost outer: seq<bytes>, ghost whole: bytes, ghost rest: bytes)
    requires Writing(e, outer, whole, PutOutcome(o, rest))
    modifies e
    ensures Writing(e, outer, whole, rest)
  {
    hide EncStr, ToBigCompact;
    match o {
      case Root(root) => WriteStr(e, root, outer, whole, rest);
      case Status(ok) =>
        Pow256Values();
        Advance(outer, whole, EncStr(ToBigCompact(if ok then 1 else 0)), rest);
        e.AddUint(if ok then 1 else 0, 1);
    }
  }

  /** `encode_receipt`; a receipt with neither a state root nor a status is refused. */
  method BuildReceipt(x: Receipt) returns (r: Result<bytes, EncodingError>)
    requires OutcomeOf(x).Some? ==> ReceiptFits(x)
    ensures r == EncodeReceipt(x)
  {
    hide PutOutcome, PutUint, PutStr, PutListOf, PutHeader, PutAll, LogFits;
    var o := OutcomeOf(x);
    if o.None? { return Err(EmptyInput); }
    ghost var whole := ReceiptFields(o.value, x, []);
    ghost var v3 := PutListOf(PutLog, x.logs, []);
    ghost var v2 := PutStr(x.bloom, v3);
    var e := Begin(whole);
    WriteOutcome(e, o.value, [[]], whole, PutUint(x.gasUsed, v2));
    WriteU256(e, x.gasUsed, [[]], whole, v2);
    WriteStr(e, x.bloom, [[]], whole, v3);
    WriteLogs(e, x.logs, [[]], whole, []);
    var out := Finish(e, whole);
    r := Ok(out);
  }

  method WriteRoots(e: RlpEncoder, x: Roots, ghost outer: seq<bytes>, ghost whole: bytes, ghost rest: bytes)
    requires Writing(e, outer, whole, PutRoots(x, rest))
    modifies e
    ensures Writing(e, outer, whole, rest)
  {
    hide PutStr;
    ghost var v6 := PutStr(x.logsBloom, rest);
    ghost var v5 := PutStr(x.receiptsRoot, v6);
    ghost var v4 := PutStr(x.transactionsRoot, v5);
    ghost var v3 := PutStr(x.stateRoot, v4);
    ghost var v2 := PutStr(x.beneficiary, v3);
    WriteStr(e, x.parentHash, outer, whole, PutStr(x.ommersHash, v2));
    WriteStr(e, x.ommersHash, outer, whole, v2);
    WriteStr(e, x.beneficiary, outer, whole, v3);
    WriteStr(e, x.stateRoot, outer, whole, v4);
    WriteStr(e, x.transactionsRoot, outer, whole, v5);
    WriteStr(e, x.receiptsRoot, outer, whole, v6);
    WriteStr(e, x.logsBloom, outer, whole, rest);
  }

  method WriteNumbers(e: RlpEncoder, x: Numbers, ghost outer: seq<bytes>, ghost whole: bytes, ghost rest: bytes)
    requires Writing(e, outer, whole, PutNumbers(x, rest))
    modifies e
    ensures Writing(e, outer, whole, rest)
  {
    hide PutUint;
    ghost var v4 := PutUint(x.timestamp, rest);
    ghost var v3 := PutUint(x.gasUsed, v4);
    ghost var v2 := PutUint(x.gasLimit, v3);
    WriteU256(e, x.difficulty, outer, whole, PutUint(x.number, v2));
    WriteU64(e, x.number, outer, whole, v2);
    WriteU64(e, x.gasLimit, outer, whole, v3);
    WriteU64(e, x.gasUsed, outer, whole, v4);
    WriteU64(e, x.timestamp, outer, whole, rest);
  }

  /** `encode_block_header`. */
  method BuildBlockHeader(h: BlockHeader) returns (r: bytes)
    requires HeaderFits(h)
    ensures r == EncodeBlockHeader(h)
  {
    hide PutRoots, PutNumbers, PutStr, PutUint, PutHeader;
    ghost var whole := HeaderFields(h);
    ghost var v3: bytes := if h.baseFee.Some? then PutUint(h.baseFee.value, []) else [];
    ghost var v2 := PutSeal(h.seal, v3);
    var e := Begin(whole);
    WriteRoots(e, h.roots, [[]], whole, PutNumbers(h.numbers, v2));
    WriteNumbers(e, h.numbers, [[]], whole, v2);
    WriteStr(e, h.seal.extraData, [[]], whole, PutStr(h.seal.mixHash, PutStr(h.seal.nonce, v3)));
    WriteStr(e, h.seal.mixHash, [[]], whole, PutStr(h.seal.nonce, v3));
    WriteStr(e, h.seal.nonce, [[]], whole, v3);
    if h.baseFee.Some? {
      WriteU256(e, h.baseFee.value, [[]], whole, []);
    }
    r := Finish(e, whole);
  }
}
