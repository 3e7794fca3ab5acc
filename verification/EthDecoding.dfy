/** The decoders of eth objects as they drive the RLP decoder, step by step. */
module EthDecoding {
  import opened Bytes
  import opened RlpFormat
  import opened RlpDecoder
  import opened RlpFields
  import opened EthObjects
  import opened EthBlocks

  /** A read delivered what its specification says and left the view behind it; after an error the view is spent. */
  ghost predicate Took<T>(spec: Result<(T, bytes), DecodingError>, r: Result<T, DecodingError>, view: bytes) {
    match spec
    case Ok((x, rest)) => r == Ok(x) && view == rest
    case Err(e) => r == Err(e)
  }

  /** What the rest of a loop delivers, behind what it delivered already. */
  function Prepend<T>(xs: seq<T>, r: Result<(seq<T>, bytes), DecodingError>): Result<(seq<T>, bytes), DecodingError> {
    match r
    case Ok((more, rest)) => Ok((xs + more, rest))
    case Err(e) => Err(e)
  }

  /** One turn of a reading loop. */
  lemma {:induction false} LoopStep<T(!new)>(read: Reader<T>, v: bytes, target: nat, xs: seq<T>)
    requires |v| > target
    ensures match read(v)
            case Err(e) => Prepend(xs, ReadUntil(read, v, target)) == Err(e)
            case Ok((x, rest)) =>
              |rest| < |v| ==>
                  Prepend(xs, ReadUntil(read, v, target)) == Prepend(xs + [x], ReadUntil(read, rest, target))
  {
    if read(v).Ok? {
      var (x, rest) := read(v).value;
      if |rest| < |v| && ReadUntil(read, rest, target).Ok? {
        var more := ReadUntil(read, rest, target).value.0;
        assert xs + ([x] + more) == xs + [x] + more;
      }
    }
  }

  lemma {:induction false} LoopEnd<T(!new)>(read: Reader<T>, v: bytes, target: nat, xs: seq<T>)
    requires |v| <= target
    ensures Prepend(xs, ReadUntil(read, v, target)) == if |v| == target then Ok((xs, v)) else Err(ListLengthMismatch)
  {
    assert xs + [] == xs;
  }

  lemma {:induction false} LoopStart<T(!new)>(read: Reader<T>, v: bytes, target: nat)
    ensures Prepend([], ReadUntil(read, v, target)) == ReadUntil(read, v, target)
  {
    if ReadUntil(read, v, target).Ok? {
      var xs := ReadUntil(read, v, target).value.0;
      assert [] + xs == xs;
    }
  }

  lemma {:induction false} HashShrinks(v: bytes)
    ensures GetHash(v).Ok? ==> |GetHash(v).value.1| < |v|
  {}

  lemma {:induction false} HashError(v: bytes)
    ensures GetHash(v).Err? ==> GetHash(v).error == UnexpectedLength
  {}

  // ---------------------------------------------------------------------------------------------
  // Fields
  // ---------------------------------------------------------------------------------------------

  method TakeFixed(d: RlpDecoder, n: nat) returns (r: Result<bytes, DecodingError>)
    requires n >= 1
    modifies d
    ensures Took(GetFixed(old(d.view), n), r, d.view)
  {
    hide ReadFixed;
    var s := d.ReadArray(n);
    if s.Err? { return Err(UnexpectedLength); }
    r := s;
  }

  method TakeHash(d: RlpDecoder) returns (r: Result<hash, DecodingError>)
    modifies d
    ensures Took(GetHash(old(d.view)), r, d.view)
  {
    hide GetFixed;
    ghost var typed := GetHash(d.view);
    var s := TakeFixed(d, 32);
    if s.Err? { return Err(s.error); }
    r := Ok(s.value);
  }

  method TakeAddress(d: RlpDecoder) returns (r: Result<address, DecodingError>)
    modifies d
    ensures Took(GetAddress(old(d.view)), r, d.view)
  {
    hide GetFixed;
    ghost var typed := GetAddress(d.view);
    var s := TakeFixed(d, 20);
    if s.Err? { return Err(s.error); }
    r := Ok(s.value);
  }

  method TakeStr(d: RlpDecoder) returns (r: Result<bytes, DecodingError>)
    modifies d
    ensures Took(GetStr(old(d.view)), r, d.view)
  {
    hide ReadStr;
    var s := d.Read();
    if s.Err? { return Err(UnexpectedString); }
    r := s;
  }

  method TakeU64(d: RlpDecoder) returns (r: Result<u64, DecodingError>)
    modifies d
    ensures Took(GetU64(old(d.view)), r, d.view)
  {
    hide ReadUint;
    ghost var typed := GetU64(d.view);
    var n := d.ReadIntegral(8);
    if n.Err? { return Err(UnexpectedString); }
    r := Ok(n.value);
  }

  method TakeU256(d: RlpDecoder) returns (r: Result<u256, DecodingError>)
    modifies d
    ensures Took(GetU256(old(d.view)), r, d.view)
  {
    hide ReadUint;
    ghost var typed := GetU256(d.view);
    var n := d.ReadUint256();
    if n.Err? { return Err(UnexpectedString); }
    r := Ok(n.value);
  }

  // ---------------------------------------------------------------------------------------------
  // Lists
  // ---------------------------------------------------------------------------------------------

  /** `decode_hash_list`, and the loops over topics and storage keys. */
  method TakeHashes(d: RlpDecoder) returns (r: Result<seq<hash>, DecodingError>)
    modifies d
    ensures Took(ReadListOf(GetHash, old(d.view)), r, d.view)
  {
    hide ListHeader, GetHash, ReadUntil;
    ListHeaderFits(d.view);
    var n := d.ReadListHeader();
    if n.Err? { return Err(n.error); }
    var target := |d.view| - n.value;
    ghost var start := d.view;
    var hashes := [];
    LoopStart(GetHash, start, target);
    while |d.view| > target
      invariant ReadUntil(GetHash, start, target) == Prepend(hashes, ReadUntil(GetHash, d.view, target))
      decreases |d.view|
    {
      LoopStep(GetHash, d.view, target, hashes);
      HashShrinks(d.view);
      HashError(d.view);
      var h := TakeHash(d);
      if h.Err? { return Err(UnexpectedLength); }
      hashes := hashes + [h.value];
    }
    LoopEnd(GetHash, d.view, target, hashes);
    if |d.view| != target { return Err(ListLengthMismatch); }
    r := Ok(hashes);
  }

  /** `decode_log_entry_from_decoder`. */
  method TakeLog(d: RlpDecoder) returns (r: Result<LogEntry, DecodingError>)
    modifies d
    ensures Took(ReadLog(old(d.view)), r, d.view)
  {
    hide ListHeader, GetAddress, GetStr, ReadListOf;
    ListHeaderFits(d.view);
    var n := d.ReadListHeader();
    if n.Err? { return Err(n.error); }
    var target := |d.view| - n.value;
    var address := TakeAddress(d);
    if address.Err? { return Err(address.error); }
    var topics := TakeHashes(d);
    if topics.Err? { return Err(topics.error); }
    var data := TakeStr(d);
    if data.Err? { return Err(data.error); }
    if |d.view| != target { return Err(ListLengthMismatch); }
    r := Ok(LogEntry(address.value, topics.value, data.value));
  }

  lemma {:induction false} LogShrinks(v: bytes)
    ensures ReadLog(v).Ok? ==> |ReadLog(v).value.1| < |v|
  {
    hide ListHeader, GetAddress, GetStr, ReadListOf;
    ListHeaderFits(v);
  }

  /** The loop over logs in `decode_receipt`. */
  method TakeLogs(d: RlpDecoder) returns (r: Result<seq<LogEntry>, DecodingError>)
    modifies d
    ensures Took(ReadListOf(ReadLog, old(d.view)), r, d.view)
  {
    hide ListHeader, ReadLog, ReadUntil;
    ListHeaderFits(d.view);
    var n := d.ReadListHeader();
    if n.Err? { return Err(n.error); }
    var target := |d.view| - n.value;
    ghost var start := d.view;
    var logs := [];
    LoopStart(ReadLog, start, target);
    while |d.view| > target
      invariant ReadUntil(ReadLog, start, target) == Prepend(logs, ReadUntil(ReadLog, d.view, target))
      decreases |d.view|
    {
      LoopStep(ReadLog, d.view, target, logs);
      LogShrinks(d.view);
      var l := TakeLog(d);
      if l.Err? { return Err(l.error); }
      logs := logs + [l.value];
    }
    LoopEnd(ReadLog, d.view, target, logs);
    if |d.view| != target { return Err(ListLengthMismatch); }
    r := Ok(logs);
  }

  /** `decode_access_list_entry_from_decoder`. */
  method TakeAccess(d: RlpDecoder) returns (r: Result<AccessEntry, DecodingError>)
    modifies d
    ensures Took(ReadAccess(old(d.view)), r, d.view)
  {
    hide ListHeader, GetAddress, ReadListOf;
    ListHeaderFits(d.view);
    var n := d.ReadListHeader();
    if n.Err? { return Err(n.error); }
    var target := |d.view| - n.value;
    var address := TakeAddress(d);
    if address.Err? { return Err(address.error); }
    var keys := TakeHashes(d);
    if keys.Err? { return Err(keys.error); }
    if |d.view| != target { return Err(ListLengthMismatch); }
    r := Ok(AccessEntry(address.value, keys.value));
  }

  lemma {:induction false} AccessShrinks(v: bytes)
    ensures ReadAccess(v).Ok? ==> |ReadAccess(v).value.1| < |v|
  {
    hide ListHeader, GetAddress, ReadListOf;
    ListHeaderFits(v);
  }

  /** `decode_access_list`. */
  method TakeAccessList(d: RlpDecoder) returns (r: Result<seq<AccessEntry>, DecodingError>)
    modifies d
    ensures Took(ReadListOf(ReadAccess, old(d.view)), r, d.view)
  {
    hide ListHeader, ReadAccess, ReadUntil;
    ListHeaderFits(d.view);
    var n := d.ReadListHeader();
    if n.Err? { return Err(n.error); }
    var target := |d.view| - n.value;
    ghost var start := d.view;
    var entries := [];
    LoopStart(ReadAccess, start, target);
    while |d.view| > target
      invariant ReadUntil(ReadAccess, start, target) == Prepend(entries, ReadUntil(ReadAccess, d.view, target))
      decreases |d.view|
    {
      LoopStep(ReadAccess, d.view, target, entries);
      AccessShrinks(d.view);
      var a := TakeAccess(d);
      if a.Err? { return Err(a.error); }
      entries := entries + [a.value];
    }
    LoopEnd(ReadAccess, d.view, target, entries);
    if |d.view| != target { return Err(ListLengthMismatch); }
    r := Ok(entries);
  }

  // ---------------------------------------------------------------------------------------------
  // Transactions
  // ---------------------------------------------------------------------------------------------

  method TakeTo(d: RlpDecoder) returns (r: Result<Option<address>, DecodingError>)
    modifies d
    ensures Took(ReadTo(old(d.view)), r, d.view)
  {
    hide DecodeHeader, GetStr, GetAddress;
    var h := DecodeHeader(d.view);
    if h.Err? { return Err(h.error); }
    if h.value.payload == 0 {
      var empty := TakeStr(d);
      if empty.Err? { return Err(empty.error); }
      return Ok(None);
    }
    var a := TakeAddress(d);
    if a.Err? { return Err(a.error); }
    r := Ok(Some(a.value));
  }

  method TakeCore(d: RlpDecoder) returns (r: Result<Core, DecodingError>)
    modifies d
    ensures Took(ReadCore(old(d.view)), r, d.view)
  {
    hide GetU64, GetU256, GetStr, ReadTo;
    var gasLimit := TakeU64(d);
    if gasLimit.Err? { return Err(gasLimit.error); }
    var to := TakeTo(d);
    if to.Err? { return Err(to.error); }
    var value := TakeU256(d);
    if value.Err? { return Err(value.error); }
    var data := TakeStr(d);
    if data.Err? { return Err(data.error); }
    r := Ok(Core(gasLimit.value, to.value, value.value, data.value));
  }

  method TakeSignature(d: RlpDecoder) returns (r: Result<Signature, DecodingError>)
    modifies d
    ensures Took(ReadSignature(old(d.view)), r, d.view)
  {
    hide GetU256;
    var v := TakeU256(d);
    if v.Err? { return Err(v.error); }
    var x := TakeU256(d);
    if x.Err? { return Err(x.error); }
    var s := TakeU256(d);
    if s.Err? { return Err(s.error); }
    r := Ok(Signature(v.value, x.value, s.value));
  }

  method TakeFees(d: RlpDecoder, two: bool) returns (r: Result<Fees, DecodingError>)
    modifies d
    ensures Took(ReadFees(two, old(d.view)), r, d.view)
  {
    hide GetU256;
    var p := TakeU256(d);
    if p.Err? { return Err(p.error); }
    if !two { return Ok(OnePrice(p.value)); }
    var t := TakeU256(d);
    if t.Err? { return Err(t.error); }
    r := Ok(TwoCaps(p.value, t.value));
  }

  method ParseTyped(kind: TxType, raw: bytes) returns (r: Result<Transaction, DecodingError>)
    ensures r == DecodeTyped(kind, raw)
  {
    hide ListHeader, GetU64, ReadFees, ReadCore, ReadListOf, ReadSignature, Assemble;
    var d := new RlpDecoder(raw);
    var n := d.ReadListHeader();
    if n.Err? { return Err(n.error); }
    var chainId := TakeU64(d);
    if chainId.Err? { return Err(chainId.error); }
    var nonce := TakeU64(d);
    if nonce.Err? { return Err(nonce.error); }
    var fees := TakeFees(d, kind == DynamicFee);
    if fees.Err? { return Err(fees.error); }
    var core := TakeCore(d);
    if core.Err? { return Err(core.error); }
    var al := TakeAccessList(d);
    if al.Err? { return Err(al.error); }
    var x := TakeSignature(d);
    if x.Err? { return Err(x.error); }
    r := Ok(Assemble(kind, Some(chainId.value), nonce.value, fees.value, core.value, al.value, x.value));
  }

  method ParseLegacy(raw: bytes) returns (r: Result<Transaction, DecodingError>)
    ensures r == DecodeLegacy(raw)
  {
    hide ListHeader, GetU64, ReadFees, ReadCore, ReadSignature, Assemble;
    var d := new RlpDecoder(raw);
    var n := d.ReadListHeader();
    if n.Err? { return Err(n.error); }
    var nonce := TakeU64(d);
    if nonce.Err? { return Err(nonce.error); }
    var fees := TakeFees(d, false);
    if fees.Err? { return Err(fees.error); }
    var core := TakeCore(d);
    if core.Err? { return Err(core.error); }
    var x := TakeSignature(d);
    if x.Err? { return Err(x.error); }
    r := Ok(Assemble(Legacy, None, nonce.value, fees.value, core.value, [], x.value));
  }

  /** `decode_transaction`. */
  method ParseTransaction(raw: bytes) returns (r: Result<Transaction, DecodingError>)
    ensures r == DecodeTransaction(raw)
  {
    hide DecodeTyped, DecodeLegacy;
    if raw == [] { return Err(InputTooShort); }
    if raw[0] >= SHORT_LIST {
      r := ParseLegacy(raw);
    } else if raw[0] == 1 {
      r := ParseTyped(AccessListTx, raw[1..]);
    } else if raw[0] == 2 {
      r := ParseTyped(DynamicFee, raw[1..]);
    } else {
      r := Err(UnexpectedString);
    }
  }

  // ---------------------------------------------------------------------------------------------
  // Receipts
  // ---------------------------------------------------------------------------------------------

  method TakeOutcome(d: RlpDecoder) returns (r: Result<Outcome, DecodingError>)
    modifies d
    ensures Took(ReadOutcome(old(d.view)), r, d.view)
  {
    hide DecodeHeader, ReadStr;
    ghost var typed := ReadOutcome(d.view);
    var h := DecodeHeader(d.view);
    if h.Err? { return Err(h.error); }
    if h.value.list { return Err(UnexpectedList); }
    if h.value.payload == 32 {
      var root := d.ReadArray(32);
      assert root.Ok?;
      return Ok(Root(root.value));
    }
    var s := d.Read();
    if s.Err? { return Err(s.error); }
    if s.value == [] { return Ok(Status(false)); }
    if |s.value| == 1 { return Ok(Status(s.value[0] != 0)); }
    r := Err(UnexpectedLength);
  }

  /** `decode_receipt`. */
  method ParseReceipt(raw: bytes) returns (r: Result<Receipt, DecodingError>)
    ensures r == DecodeReceipt(raw)
  {
    hide ListHeader, ReadOutcome, GetU256, GetFixed, ReadListOf;
    var d := new RlpDecoder(raw);
    var n := d.ReadListHeader();
    if n.Err? { return Err(n.error); }
    var o := TakeOutcome(d);
    if o.Err? { return Err(o.error); }
    var gasUsed := TakeU256(d);
    if gasUsed.Err? { return Err(gasUsed.error); }
    ghost var typed := GetBloom(d.view);
    var bits := TakeFixed(d, 256);
    if bits.Err? { return Err(bits.error); }
    var logs := TakeLogs(d);
    if logs.Err? { return Err(logs.error); }
    r := Ok(Receipt(if o.value.Root? then Some(o.value.root) else None,
                    if o.value.Status? then Some(o.value.ok) else None,
                    gasUsed.value, bits.value, logs.value));
  }

  // ---------------------------------------------------------------------------------------------
  // Block headers
  // ---------------------------------------------------------------------------------------------

  method TakeRoots(d: RlpDecoder) returns (r: Result<Roots, DecodingError>)
    modifies d
    ensures Took(ReadRoots(old(d.view)), r, d.view)
  {
    hide GetHash, GetAddress, GetFixed;
    var parentHash := TakeHash(d);
    if parentHash.Err? { return Err(parentHash.error); }
    var ommersHash := TakeHash(d);
    if ommersHash.Err? { return Err(ommersHash.error); }
    var beneficiary := TakeAddress(d);
    if beneficiary.Err? { return Err(beneficiary.error); }
    var stateRoot := TakeHash(d);
    if stateRoot.Err? { return Err(stateRoot.error); }
    var transactionsRoot := TakeHash(d);
    if transactionsRoot.Err? { return Err(transactionsRoot.error); }
    var receiptsRoot := TakeHash(d);
    if receiptsRoot.Err? { return Err(receiptsRoot.error); }
    ghost var typed := GetBloom(d.view);
    var logsBloom := TakeFixed(d, 256);
    if logsBloom.Err? { return Err(logsBloom.error); }
    r := Ok(Roots(parentHash.value, ommersHash.value, beneficiary.value, stateRoot.value,
                  transactionsRoot.value, receiptsRoot.value, logsBloom.value));
  }

  method TakeNumbers(d: RlpDecoder) returns (r: Result<Numbers, DecodingError>)
    modifies d
    ensures Took(ReadNumbers(old(d.view)), r, d.view)
  {
    hide GetU64, GetU256;
    var difficulty := TakeU256(d);
    if difficulty.Err? { return Err(difficulty.error); }
    var number := TakeU64(d);
    if number.Err? { return Err(number.error); }
    var gasLimit := TakeU64(d);
    if gasLimit.Err? { return Err(gasLimit.error); }
    var gasUsed := TakeU64(d);
    if gasUsed.Err? { return Err(gasUsed.error); }
    var timestamp := TakeU64(d);
    if timestamp.Err? { return Err(timestamp.error); }
    r := Ok(Numbers(difficulty.value, number.value, gasLimit.value, gasUsed.value, timestamp.value));
  }

  method TakeSeal(d: RlpDecoder) returns (r: Result<Seal, DecodingError>)
    modifies d
    ensures Took(ReadSeal(old(d.view)), r, d.view)
  {
    hide GetStr, GetHash, GetFixed;
    ghost var typed := ReadSeal(d.view);
    var extraData := TakeStr(d);
    if extraData.Err? { return Err(extraData.error); }
    var mixHash := TakeHash(d);
    if mixHash.Err? { return Err(mixHash.error); }
    var nonce := TakeFixed(d, 8);
    if nonce.Err? { return Err(nonce.error); }
    r := Ok(Seal(extraData.value, mixHash.value, nonce.value));
  }

  /** `decode_block_header`. */
  method ParseBlockHeader(raw: bytes) returns (r: Result<BlockHeader, DecodingError>)
    ensures r == DecodeBlockHeader(raw)
  {
    hide ListHeader, ReadRoots, ReadNumbers, ReadSeal, GetU256;
    var d := new RlpDecoder(raw);
    var n := d.ReadListHeader();
    if n.Err? { return Err(n.error); }
    var roots := TakeRoots(d);
    if roots.Err? { return Err(roots.error); }
    var numbers := TakeNumbers(d);
    if numbers.Err? { return Err(numbers.error); }
    var seal := TakeSeal(d);
    if seal.Err? { return Err(seal.error); }
    if d.view == [] { return Ok(BlockHeader(roots.value, numbers.value, seal.value, None)); }
    var fee := TakeU256(d);
    if fee.Err? { return Err(fee.error); }
    r := Ok(BlockHeader(roots.value, numbers.value, seal.value, Some(fee.value)));
  }
}
