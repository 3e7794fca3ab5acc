/** Which field stands where: the bytes of every eth object are the recursive encoding of a list of its fields. */
module EthLayouts {
  import opened Bytes
  import opened RlpFormat
  import opened RlpFields
  import opened EthObjects
  import opened EthBlocks
  import opened EthMessages

  function Uint(n: nat): Item {
    Str(ToBigCompact(n))
  }

  function ItemsOf<T>(item: T -> Item, xs: seq<T>): (items: seq<Item>)
    ensures |items| == |xs| && forall i :: 0 <= i < |xs| ==> items[i] == item(xs[i])
  {
    seq(|xs|, i requires 0 <= i < |xs| => item(xs[i]))
  }

  /** A field in front of encoded items is one more of them. */
  lemma {:induction false} Field(s: bytes, ts: seq<Item>)
    ensures PutStr(s, EncAll(ts)) == EncAll([Str(s)] + ts)
  {
    hide EncStr;
    EncAllCons(Str(s), ts);
  }

  lemma {:induction false} UintField(n: nat, ts: seq<Item>)
    ensures PutUint(n, EncAll(ts)) == EncAll([Uint(n)] + ts)
  {
    hide ToBigCompact;
    Field(ToBigCompact(n), ts);
  }

  lemma {:induction false} WholeList(items: seq<Item>)
    ensures PutHeader(|EncAll(items)|, EncAll(items)) == Enc(List(items))
  {}

  lemma {:induction false} ListField(items: seq<Item>, ts: seq<Item>)
    ensures PutHeader(|EncAll(items)|, EncAll(items + ts)) == EncAll([List(items)] + ts)
  {
    hide HeaderBytes, EncAll, Enc;
    EncAllConcat(items, ts);
    EncAllCons(List(items), ts);
    WholeList(items);
    var header := HeaderBytes(true, |EncAll(items)|);
    assert header + (EncAll(items) + EncAll(ts)) == header + EncAll(items) + EncAll(ts);
  }

  /** What is written for x is its item, whatever items follow. */
  ghost predicate Lays<T(!new)>(write: Writer<T>, item: T -> Item, x: T) {
    forall ts: seq<Item> :: write(x, EncAll(ts)) == EncAll([item(x)] + ts)
  }

  lemma {:induction false} AllLaid<T(!new)>(write: Writer<T>, item: T -> Item, xs: seq<T>, ts: seq<Item>)
    requires forall i :: 0 <= i < |xs| ==> Lays(write, item, xs[i])
    ensures PutAll(write, xs, EncAll(ts)) == EncAll(ItemsOf(item, xs) + ts)
  {
    hide EncAll;
    if xs == [] {
      assert ItemsOf(item, xs) + ts == ts;
    } else {
      AllLaid(write, item, xs[1..], ts);
      assert Lays(write, item, xs[0]);
      var more := ItemsOf(item, xs[1..]) + ts;
      assert ItemsOf(item, xs) == [item(xs[0])] + ItemsOf(item, xs[1..]);
      assert [item(xs[0])] + more == ItemsOf(item, xs) + ts;
    }
  }

  lemma EmptyItems()
    ensures EncAll([]) == []
  {}

  /** A list of laid-out elements is the list of their items. */
  lemma {:induction false} ListLaid<T(!new)>(write: Writer<T>, item: T -> Item, xs: seq<T>, ts: seq<Item>)
    requires forall i :: 0 <= i < |xs| ==> Lays(write, item, xs[i])
    ensures PutListOf(write, xs, EncAll(ts)) == EncAll([List(ItemsOf(item, xs))] + ts)
  {
    hide HeaderBytes, PutAll, EncAll, Lays;
    EmptyItems();
    AllLaid(write, item, xs, ts);
    AllLaid(write, item, xs, []);
    assert ItemsOf(item, xs) + [] == ItemsOf(item, xs);
    ListField(ItemsOf(item, xs), ts);
  }

  // ---------------------------------------------------------------------------------------------
  // Logs and access lists
  // ---------------------------------------------------------------------------------------------

  function HashItem(h: hash): Item {
    Str(h)
  }

  lemma {:induction false} HashesLaid(hs: seq<hash>, ts: seq<Item>)
    ensures PutListOf(PutHash, hs, EncAll(ts)) == EncAll([List(ItemsOf(HashItem, hs))] + ts)
  {
    hide PutStr, EncAll, PutListOf;
    forall i, us | 0 <= i < |hs| ensures PutHash(hs[i], EncAll(us)) == EncAll([HashItem(hs[i])] + us) {
      Field(hs[i], us);
    }
    ListLaid(PutHash, HashItem, hs, ts);
  }

  function LogItem(l: LogEntry): Item {
    List([Str(l.address), List(ItemsOf(HashItem, l.topics)), Str(l.data)])
  }

  lemma {:induction false} LogFieldsLaid(l: LogEntry, ts: seq<Item>)
    ensures LogFields(l, EncAll(ts)) == EncAll(LogItem(l).items + ts)
  {
    hide PutStr, EncAll, PutListOf;
    var t1 := [Str(l.data)] + ts;
    var t2 := [List(ItemsOf(HashItem, l.topics))] + t1;
    Field(l.data, ts);
    HashesLaid(l.topics, t1);
    Field(l.address, t2);
    assert LogItem(l).items + ts == [Str(l.address)] + t2;
  }

  /** Address, topics, data. */
  lemma {:induction false} LogLayout(l: LogEntry, ts: seq<Item>)
    ensures PutLog(l, EncAll(ts)) == EncAll([LogItem(l)] + ts)
  {
    hide PutStr, EncAll, PutListOf, HeaderBytes;
    LogFieldsLaid(l, ts);
    LogFieldsLaid(l, []);
    EmptyItems();
    assert LogItem(l).items + [] == LogItem(l).items;
    ListField(LogItem(l).items, ts);
  }

  function AccessItem(a: AccessEntry): Item {
    List([Str(a.address), List(ItemsOf(HashItem, a.keys))])
  }

  lemma {:induction false} AccessFieldsLaid(a: AccessEntry, ts: seq<Item>)
    ensures AccessFields(a, EncAll(ts)) == EncAll(AccessItem(a).items + ts)
  {
    hide PutStr, EncAll, PutListOf;
    var t1 := [List(ItemsOf(HashItem, a.keys))] + ts;
    HashesLaid(a.keys, ts);
    Field(a.address, t1);
    assert AccessItem(a).items + ts == [Str(a.address)] + t1;
  }

  /** Address, storage keys. */
  lemma {:induction false} AccessLayout(a: AccessEntry, ts: seq<Item>)
    ensures PutAccess(a, EncAll(ts)) == EncAll([AccessItem(a)] + ts)
  {
    hide PutStr, EncAll, PutListOf, HeaderBytes;
    AccessFieldsLaid(a, ts);
    AccessFieldsLaid(a, []);
    EmptyItems();
    assert AccessItem(a).items + [] == AccessItem(a).items;
    ListField(AccessItem(a).items, ts);
  }

  lemma {:induction false} AccessListLaid(al: seq<AccessEntry>, ts: seq<Item>)
    ensures PutListOf(PutAccess, al, EncAll(ts)) == EncAll([List(ItemsOf(AccessItem, al))] + ts)
  {
    hide PutAccess, EncAll, PutListOf, AccessItem;
    forall i, us | 0 <= i < |al| ensures PutAccess(al[i], EncAll(us)) == EncAll([AccessItem(al[i])] + us) {
      AccessLayout(al[i], us);
    }
    ListLaid(PutAccess, AccessItem, al, ts);
  }

  // ---------------------------------------------------------------------------------------------
  // Transactions
  // ---------------------------------------------------------------------------------------------

  function ToItem(to: Option<address>): Item {
    Str(if to.Some? then to.value else [])
  }

  function AmountOf(x: Option<u256>): nat {
    if x.Some? then x.value else 0
  }

  function ChainOf(tx: Transaction): nat {
    if tx.chainId.Some? then tx.chainId.value else 1
  }

  /** The nine fields of a legacy transaction. */
  function LegacyItems(tx: Transaction): seq<Item> {
    [Uint(tx.nonce), Uint(AmountOf(tx.gasPrice)), Uint(tx.gasLimit), ToItem(tx.to), Uint(tx.value), Str(tx.data),
     Uint(tx.v), Uint(tx.r), Uint(tx.s)]
  }

  /** The eleven fields of EIP-2930. */
  function AccessListTxItems(tx: Transaction): seq<Item> {
    [Uint(ChainOf(tx)), Uint(tx.nonce), Uint(AmountOf(tx.gasPrice)), Uint(tx.gasLimit), ToItem(tx.to), Uint(tx.value),
     Str(tx.data), List(ItemsOf(AccessItem, tx.accessList)), Uint(tx.v), Uint(tx.r), Uint(tx.s)]
  }

  /** The twelve fields of EIP-1559. */
  function DynamicFeeItems(tx: Transaction): seq<Item> {
    [Uint(ChainOf(tx)), Uint(tx.nonce), Uint(AmountOf(tx.maxPriorityFee)), Uint(AmountOf(tx.maxFee)),
     Uint(tx.gasLimit), ToItem(tx.to), Uint(tx.value), Str(tx.data), List(ItemsOf(AccessItem, tx.accessList)),
     Uint(tx.v), Uint(tx.r), Uint(tx.s)]
  }

  lemma {:induction false} SignatureLaid(tx: Transaction, ts: seq<Item>)
    ensures PutSignature(SignatureOf(tx), EncAll(ts)) == EncAll([Uint(tx.v), Uint(tx.r), Uint(tx.s)] + ts)
  {
    hide PutUint, EncAll;
    var t1 := [Uint(tx.s)] + ts;
    var t2 := [Uint(tx.r)] + t1;
    UintField(tx.s, ts);
    UintField(tx.r, t1);
    UintField(tx.v, t2);
    assert [Uint(tx.v), Uint(tx.r), Uint(tx.s)] + ts == [Uint(tx.v)] + t2;
  }

  lemma {:induction false} CoreLaid(tx: Transaction, ts: seq<Item>)
    ensures PutCore(CoreOf(tx), EncAll(ts))
         == EncAll([Uint(tx.gasLimit), ToItem(tx.to), Uint(tx.value), Str(tx.data)] + ts)
  {
    hide PutUint, PutStr, EncAll;
    var t1 := [Str(tx.data)] + ts;
    var t2 := [Uint(tx.value)] + t1;
    var t3 := [ToItem(tx.to)] + t2;
    Field(tx.data, ts);
    UintField(tx.value, t1);
    Field(if tx.to.Some? then tx.to.value else [], t2);
    UintField(tx.gasLimit, t3);
    assert [Uint(tx.gasLimit), ToItem(tx.to), Uint(tx.value), Str(tx.data)] + ts == [Uint(tx.gasLimit)] + t3;
  }

  function FeeItems(tx: Transaction): seq<Item> {
    if tx.kind == DynamicFee then [Uint(AmountOf(tx.maxPriorityFee)), Uint(AmountOf(tx.maxFee))]
    else [Uint(AmountOf(tx.gasPrice))]
  }

  lemma {:induction false} FeesLaid(tx: Transaction, ts: seq<Item>)
    ensures PutFees(FeesOf(tx), EncAll(ts)) == EncAll(FeeItems(tx) + ts)
  {
    hide PutUint, EncAll;
    if tx.kind == DynamicFee {
      var t1 := [Uint(AmountOf(tx.maxFee))] + ts;
      UintField(AmountOf(tx.maxFee), ts);
      UintField(AmountOf(tx.maxPriorityFee), t1);
      assert FeeItems(tx) + ts == [Uint(AmountOf(tx.maxPriorityFee))] + t1;
    } else {
      UintField(AmountOf(tx.gasPrice), ts);
    }
  }

  lemma {:induction false} LegacyLaid(tx: Transaction)
    requires tx.kind == Legacy
    ensures LegacyFields(tx, []) == EncAll(LegacyItems(tx))
  {
    hide PutUint, PutSignature, PutCore, PutFees, EncAll;
    var t1 := [Uint(tx.v), Uint(tx.r), Uint(tx.s)];
    var t2 := [Uint(tx.gasLimit), ToItem(tx.to), Uint(tx.value), Str(tx.data)] + t1;
    var t3 := FeeItems(tx) + t2;
    EmptyItems();
    SignatureLaid(tx, []);
    assert t1 + [] == t1;
    CoreLaid(tx, t1);
    FeesLaid(tx, t2);
    UintField(tx.nonce, t3);
    assert [Uint(tx.nonce)] + t3 == LegacyItems(tx);
  }

  /** The typed kinds differ in their fees only. */
  function TypedItems(tx: Transaction): seq<Item> {
    [Uint(ChainOf(tx))] + ([Uint(tx.nonce)] + (FeeItems(tx)
      + ([Uint(tx.gasLimit), ToItem(tx.to), Uint(tx.value), Str(tx.data)]
         + ([List(ItemsOf(AccessItem, tx.accessList))] + [Uint(tx.v), Uint(tx.r), Uint(tx.s)]))))
  }

  lemma {:induction false} TypedLaid(tx: Transaction)
    ensures TypedFields(tx, []) == EncAll(TypedItems(tx))
  {
    hide PutUint, PutSignature, PutCore, PutFees, EncAll, PutListOf, AccessItem, FeeItems, Uint, ToItem;
    var t1 := [Uint(tx.v), Uint(tx.r), Uint(tx.s)];
    var t2 := [List(ItemsOf(AccessItem, tx.accessList))] + t1;
    var t3 := [Uint(tx.gasLimit), ToItem(tx.to), Uint(tx.value), Str(tx.data)] + t2;
    var t4 := FeeItems(tx) + t3;
    EmptyItems();
    SignatureLaid(tx, []);
    assert t1 + [] == t1;
    AccessListLaid(tx.accessList, t1);
    CoreLaid(tx, t2);
    FeesLaid(tx, t3);
    UintField(tx.nonce, t4);
    UintField(ChainOf(tx), [Uint(tx.nonce)] + t4);
  }

  lemma {:induction false} TypedOrder(tx: Transaction)
    ensures tx.kind == AccessListTx ==> TypedItems(tx) == AccessListTxItems(tx)
    ensures tx.kind == DynamicFee ==> TypedItems(tx) == DynamicFeeItems(tx)
  {
    hide Uint, ToItem, AccessItem, ItemsOf;
  }

  /** A legacy transaction is the list of its fields; a typed one is its type, 1 or 2, and that kind's list. */
  lemma {:induction false} TransactionLayout(tx: Transaction)
    ensures EncodeTransaction(tx) ==
            match tx.kind
            case Legacy => Enc(List(LegacyItems(tx)))
            case AccessListTx => [1] + Enc(List(AccessListTxItems(tx)))
            case DynamicFee => [2] + Enc(List(DynamicFeeItems(tx)))
  {
    hide LegacyFields, TypedFields, EncAll, HeaderBytes, LegacyItems, AccessListTxItems, DynamicFeeItems, TypedItems;
    if tx.kind == Legacy {
      LegacyLaid(tx);
      WholeList(LegacyItems(tx));
    } else {
      TypedLaid(tx);
      TypedOrder(tx);
      WholeList(TypedItems(tx));
    }
  }

  /** In a list a legacy transaction is its own item, and a typed one a string. */
  function TransactionItem(tx: Transaction): Item {
    if tx.kind == Legacy then List(LegacyItems(tx)) else Str(EncodeTransaction(tx))
  }

  lemma {:induction false} TransactionLaid(tx: Transaction, ts: seq<Item>)
    ensures PutTransaction(tx, EncAll(ts)) == EncAll([TransactionItem(tx)] + ts)
  {
    hide EncodeTransaction, EncAll, LegacyItems, PutStr;
    TransactionLayout(tx);
    EncAllCons(TransactionItem(tx), ts);
    Field(EncodeTransaction(tx), ts);
  }

  lemma {:induction false} TransactionsLaid(txs: seq<Transaction>, ts: seq<Item>)
    ensures PutListOf(PutTransaction, txs, EncAll(ts)) == EncAll([List(ItemsOf(TransactionItem, txs))] + ts)
  {
    hide PutTransaction, EncAll, PutListOf, TransactionItem;
    forall i, us | 0 <= i < |txs| ensures PutTransaction(txs[i], EncAll(us)) == EncAll([TransactionItem(txs[i])] + us) {
      TransactionLaid(txs[i], us);
    }
    ListLaid(PutTransaction, TransactionItem, txs, ts);
  }

  // ---------------------------------------------------------------------------------------------
  // Receipts and block headers
  // ---------------------------------------------------------------------------------------------

  /** Status or state root, gas used, bloom, logs. */
  function ReceiptItem(r: Receipt): Item {
    var outcome := if r.stateRoot.Some? then Str(r.stateRoot.value)
                   else if r.status == Some(true) then Uint(1) else Uint(0);
    List([outcome, Uint(r.gasUsed), Str(r.bloom), List(ItemsOf(LogItem, r.logs))])
  }

  lemma {:induction false} LogsLaid(ls: seq<LogEntry>, ts: seq<Item>)
    ensures PutListOf(PutLog, ls, EncAll(ts)) == EncAll([List(ItemsOf(LogItem, ls))] + ts)
  {
    hide PutLog, EncAll, PutListOf, LogItem;
    forall i, us | 0 <= i < |ls| ensures PutLog(ls[i], EncAll(us)) == EncAll([LogItem(ls[i])] + us) {
      LogLayout(ls[i], us);
    }
    ListLaid(PutLog, LogItem, ls, ts);
  }

  lemma {:induction false} ReceiptFieldsLaid(r: Receipt)
    requires OutcomeOf(r).Some?
    ensures ReceiptFields(OutcomeOf(r).value, r, []) == EncAll(ReceiptItem(r).items)
  {
    hide PutStr, PutUint, EncAll, PutListOf, Uint, LogItem;
    var t1 := [List(ItemsOf(LogItem, r.logs))];
    var t2 := [Str(r.bloom)] + t1;
    var t3 := [Uint(r.gasUsed)] + t2;
    EmptyItems();
    LogsLaid(r.logs, []);
    assert t1 + [] == t1;
    Field(r.bloom, t1);
    UintField(r.gasUsed, t2);
    if r.stateRoot.Some? {
      Field(r.stateRoot.value, t3);
    } else {
      UintField(if r.status.value then 1 else 0, t3);
    }
    assert ReceiptItem(r).items == [ReceiptItem(r).items[0]] + t3;
  }

  lemma {:induction false} ReceiptLayout(r: Receipt)
    requires OutcomeOf(r).Some?
    ensures EncodeReceipt(r) == Ok(Enc(ReceiptItem(r)))
  {
    hide ReceiptFields, EncAll, HeaderBytes;
    ReceiptFieldsLaid(r);
    WholeList(ReceiptItem(r).items);
  }

  /** The fifteen fields in their order, and the base fee of later blocks (EIP-1559). */
  function BlockHeaderItem(h: BlockHeader): Item {
    var x, n, s := h.roots, h.numbers, h.seal;
    List([Str(x.parentHash), Str(x.ommersHash), Str(x.beneficiary), Str(x.stateRoot), Str(x.transactionsRoot),
          Str(x.receiptsRoot), Str(x.logsBloom), Uint(n.difficulty), Uint(n.number), Uint(n.gasLimit), Uint(n.gasUsed),
          Uint(n.timestamp), Str(s.extraData), Str(s.mixHash), Str(s.nonce)]
         + if h.baseFee.Some? then [Uint(h.baseFee.value)] else [])
  }

  function RootsItems(x: Roots): seq<Item> {
    [Str(x.parentHash), Str(x.ommersHash), Str(x.beneficiary), Str(x.stateRoot), Str(x.transactionsRoot),
     Str(x.receiptsRoot), Str(x.logsBloom)]
  }

  lemma {:induction false} RootsLaid(x: Roots, ts: seq<Item>)
    ensures PutRoots(x, EncAll(ts)) == EncAll(RootsItems(x) + ts)
  {
    hide PutStr, EncAll;
    var t1 := [Str(x.logsBloom)] + ts;
    var t2 := [Str(x.receiptsRoot)] + t1;
    var t3 := [Str(x.transactionsRoot)] + t2;
    var t4 := [Str(x.stateRoot)] + t3;
    var t5 := [Str(x.beneficiary)] + t4;
    var t6 := [Str(x.ommersHash)] + t5;
    Field(x.logsBloom, ts);
    Field(x.receiptsRoot, t1);
    Field(x.transactionsRoot, t2);
    Field(x.stateRoot, t3);
    Field(x.beneficiary, t4);
    Field(x.ommersHash, t5);
    Field(x.parentHash, t6);
    assert RootsItems(x) + ts == [Str(x.parentHash)] + t6;
  }

  function NumbersItems(n: Numbers): seq<Item> {
    [Uint(n.difficulty), Uint(n.number), Uint(n.gasLimit), Uint(n.gasUsed), Uint(n.timestamp)]
  }

  lemma {:induction false} NumbersLaid(n: Numbers, ts: seq<Item>)
    ensures PutNumbers(n, EncAll(ts)) == EncAll(NumbersItems(n) + ts)
  {
    hide PutUint, EncAll, Uint;
    var t1 := [Uint(n.timestamp)] + ts;
    var t2 := [Uint(n.gasUsed)] + t1;
    var t3 := [Uint(n.gasLimit)] + t2;
    var t4 := [Uint(n.number)] + t3;
    UintField(n.timestamp, ts);
    UintField(n.gasUsed, t1);
    UintField(n.gasLimit, t2);
    UintField(n.number, t3);
    UintField(n.difficulty, t4);
    assert NumbersItems(n) + ts == [Uint(n.difficulty)] + t4;
  }

  lemma {:induction false} SealLaid(s: Seal, ts: seq<Item>)
    ensures PutSeal(s, EncAll(ts)) == EncAll([Str(s.extraData), Str(s.mixHash), Str(s.nonce)] + ts)
  {
    hide PutStr, EncAll;
    var t1 := [Str(s.nonce)] + ts;
    var t2 := [Str(s.mixHash)] + t1;
    Field(s.nonce, ts);
    Field(s.mixHash, t1);
    Field(s.extraData, t2);
    assert [Str(s.extraData), Str(s.mixHash), Str(s.nonce)] + ts == [Str(s.extraData)] + t2;
  }

  lemma {:induction false} HeaderFieldsLaid(h: BlockHeader)
    ensures HeaderFields(h) == EncAll(BlockHeaderItem(h).items)
  {
    hide PutRoots, PutNumbers, PutSeal, PutUint, EncAll, Uint;
    var t1 := if h.baseFee.Some? then [Uint(h.baseFee.value)] else [];
    var t2 := [Str(h.seal.extraData), Str(h.seal.mixHash), Str(h.seal.nonce)] + t1;
    var t3 := NumbersItems(h.numbers) + t2;
    EmptyItems();
    if h.baseFee.Some? {
      UintField(h.baseFee.value, []);
      assert t1 + [] == t1;
    }
    SealLaid(h.seal, t1);
    NumbersLaid(h.numbers, t2);
    RootsLaid(h.roots, t3);
    assert BlockHeaderItem(h).items == RootsItems(h.roots) + t3;
  }

  lemma {:induction false} BlockHeaderLayout(h: BlockHeader)
    ensures EncodeBlockHeader(h) == Enc(BlockHeaderItem(h))
  {
    hide HeaderFields, EncAll, HeaderBytes;
    HeaderFieldsLaid(h);
    WholeList(BlockHeaderItem(h).items);
  }

  // ---------------------------------------------------------------------------------------------
  // Bodies, new blocks and messages
  // ---------------------------------------------------------------------------------------------

  lemma {:induction false} HeaderLaid(h: BlockHeader, ts: seq<Item>)
    ensures PutBlockHeader(h, EncAll(ts)) == EncAll([BlockHeaderItem(h)] + ts)
  {
    hide EncodeBlockHeader, EncAll, BlockHeaderItem;
    BlockHeaderLayout(h);
    EncAllCons(BlockHeaderItem(h), ts);
  }

  lemma {:induction false} HeadersLaid(hs: seq<BlockHeader>, ts: seq<Item>)
    ensures PutListOf(PutBlockHeader, hs, EncAll(ts)) == EncAll([List(ItemsOf(BlockHeaderItem, hs))] + ts)
  {
    hide PutBlockHeader, EncAll, PutListOf, BlockHeaderItem;
    forall i, us | 0 <= i < |hs| ensures PutBlockHeader(hs[i], EncAll(us)) == EncAll([BlockHeaderItem(hs[i])] + us) {
      HeaderLaid(hs[i], us);
    }
    ListLaid(PutBlockHeader, BlockHeaderItem, hs, ts);
  }

  /** Transactions, ommers. */
  function BodyItem(b: BlockBody): Item {
    List([List(ItemsOf(TransactionItem, b.transactions)), List(ItemsOf(BlockHeaderItem, b.ommers))])
  }

  lemma {:induction false} BodyFieldsLaid(b: BlockBody, ts: seq<Item>)
    ensures BodyFields(b, EncAll(ts)) == EncAll(BodyItem(b).items + ts)
  {
    hide EncAll, PutListOf, TransactionItem, BlockHeaderItem;
    var t1 := [List(ItemsOf(BlockHeaderItem, b.ommers))] + ts;
    HeadersLaid(b.ommers, ts);
    TransactionsLaid(b.transactions, t1);
    assert BodyItem(b).items + ts == [List(ItemsOf(TransactionItem, b.transactions))] + t1;
  }

  lemma {:induction false} BodyLayout(b: BlockBody, ts: seq<Item>)
    ensures PutBody(b, EncAll(ts)) == EncAll([BodyItem(b)] + ts)
  {
    hide BodyFields, EncAll, HeaderBytes, TransactionItem, BlockHeaderItem;
    BodyFieldsLaid(b, ts);
    BodyFieldsLaid(b, []);
    EmptyItems();
    assert BodyItem(b).items + [] == BodyItem(b).items;
    ListField(BodyItem(b).items, ts);
  }

  /** Header, transactions and ommers in a list of their own, then the total difficulty. */
  function NewBlockItem(b: NewBlock): Item {
    List([List([BlockHeaderItem(b.header), List(ItemsOf(TransactionItem, b.transactions)),
                List(ItemsOf(BlockHeaderItem, b.ommers))]),
          Uint(b.totalDifficulty)])
  }

  lemma {:induction false} InnerBlockLaid(b: NewBlock, ts: seq<Item>)
    ensures InnerBlock(b, EncAll(ts)) == EncAll(NewBlockItem(b).items[0].items + ts)
  {
    hide EncAll, PutListOf, PutBlockHeader, TransactionItem, BlockHeaderItem;
    var t1 := [List(ItemsOf(BlockHeaderItem, b.ommers))] + ts;
    var t2 := [List(ItemsOf(TransactionItem, b.transactions))] + t1;
    HeadersLaid(b.ommers, ts);
    TransactionsLaid(b.transactions, t1);
    HeaderLaid(b.header, t2);
    assert NewBlockItem(b).items[0].items + ts == [BlockHeaderItem(b.header)] + t2;
  }

  lemma {:induction false} NewBlockLayout(b: NewBlock)
    ensures EncodeNewBlock(b) == Enc(NewBlockItem(b))
  {
    hide InnerBlock, EncAll, HeaderBytes, PutUint, Uint, TransactionItem, BlockHeaderItem;
    var t1 := [Uint(b.totalDifficulty)];
    var inner := NewBlockItem(b).items[0].items;
    EmptyItems();
    UintField(b.totalDifficulty, []);
    assert t1 + [] == t1;
    InnerBlockLaid(b, t1);
    InnerBlockLaid(b, []);
    assert inner + [] == inner;
    ListField(inner, t1);
    assert NewBlockItem(b).items == [List(inner)] + t1;
    WholeList(NewBlockItem(b).items);
  }

  /** A message with an id is the id and the list of its elements. */
  lemma {:induction false} ReplyLayout<T(!new)>(write: Writer<T>, item: T -> Item, id: u64, xs: seq<T>)
    requires forall i :: 0 <= i < |xs| ==> Lays(write, item, xs[i])
    ensures EncodeReply(write, Reply(Some(id), xs)) == Enc(List([Uint(id), List(ItemsOf(item, xs))]))
    ensures EncodeReply(write, Reply(None, xs)) == Enc(List(ItemsOf(item, xs)))
  {
    hide EncAll, HeaderBytes, PutUint, Uint, PutListOf, Lays;
    var elements := ItemsOf(item, xs);
    EmptyItems();
    ListLaid(write, item, xs, []);
    assert [List(elements)] + [] == [List(elements)];
    EncAllOne(List(elements));
    UintField(id, [List(elements)]);
    assert [Uint(id)] + [List(elements)] == [Uint(id), List(elements)];
    WholeList([Uint(id), List(elements)]);
  }

  lemma {:induction false} BlockHeadersLayout(id: u64, hs: seq<BlockHeader>)
    ensures EncodeReply(PutBlockHeader, Reply(Some(id), hs))
         == Enc(List([Uint(id), List(ItemsOf(BlockHeaderItem, hs))]))
  {
    hide EncodeReply, PutBlockHeader, BlockHeaderItem, EncAll, Uint;
    forall i, ts | 0 <= i < |hs| ensures PutBlockHeader(hs[i], EncAll(ts)) == EncAll([BlockHeaderItem(hs[i])] + ts) {
      HeaderLaid(hs[i], ts);
    }
    ReplyLayout(PutBlockHeader, BlockHeaderItem, id, hs);
  }

  lemma {:induction false} BlockBodiesLayout(id: u64, bs: seq<BlockBody>)
    ensures EncodeReply(PutBody, Reply(Some(id), bs)) == Enc(List([Uint(id), List(ItemsOf(BodyItem, bs))]))
  {
    hide EncodeReply, PutBody, BodyItem, EncAll, Uint;
    forall i, ts | 0 <= i < |bs| ensures PutBody(bs[i], EncAll(ts)) == EncAll([BodyItem(bs[i])] + ts) {
      BodyLayout(bs[i], ts);
    }
    ReplyLayout(PutBody, BodyItem, id, bs);
  }

  lemma {:induction false} HashListLayout(id: u64, hs: seq<hash>)
    ensures EncodeReply(PutHash, Reply(Some(id), hs)) == Enc(List([Uint(id), List(ItemsOf(HashItem, hs))]))
  {
    hide EncodeReply, PutStr, EncAll, Uint;
    forall i, ts | 0 <= i < |hs| ensures PutHash(hs[i], EncAll(ts)) == EncAll([HashItem(hs[i])] + ts) {
      Field(hs[i], ts);
    }
    ReplyLayout(PutHash, HashItem, id, hs);
  }

  function BlockReceiptsItem(rs: seq<Receipt>): Item {
    List(ItemsOf(ReceiptItem, rs))
  }

  lemma {:induction false} BlockReceiptsLaid(rs: seq<Receipt>, ts: seq<Item>)
    requires forall i :: 0 <= i < |rs| ==> OutcomeOf(rs[i]).Some?
    ensures PutBlockReceipts(rs, EncAll(ts)) == EncAll([BlockReceiptsItem(rs)] + ts)
  {
    hide EncodeReceipt, ReceiptItem, EncAll, PutListOf, OutcomeOf;
    forall i, us | 0 <= i < |rs| ensures PutReceipt(rs[i], EncAll(us)) == EncAll([ReceiptItem(rs[i])] + us) {
      ReceiptLayout(rs[i]);
      EncAllCons(ReceiptItem(rs[i]), us);
    }
    ListLaid(PutReceipt, ReceiptItem, rs, ts);
  }

  /** The receipts message is a list of lists of receipts. */
  lemma {:induction false} ReceiptsLayout(id: u64, blocks: seq<seq<Receipt>>)
    requires forall i, j :: 0 <= i < |blocks| && 0 <= j < |blocks[i]| ==> OutcomeOf(blocks[i][j]).Some?
    ensures EncodeReply(PutBlockReceipts, Reply(Some(id), blocks))
         == Enc(List([Uint(id), List(ItemsOf(BlockReceiptsItem, blocks))]))
  {
    hide EncodeReply, PutBlockReceipts, BlockReceiptsItem, EncAll, Uint, OutcomeOf;
    forall i, ts | 0 <= i < |blocks|
      ensures PutBlockReceipts(blocks[i], EncAll(ts)) == EncAll([BlockReceiptsItem(blocks[i])] + ts)
    {
      BlockReceiptsLaid(blocks[i], ts);
    }
    ReplyLayout(PutBlockReceipts, BlockReceiptsItem, id, blocks);
  }

  function Encoded(ts: seq<Item>): (xs: seq<bytes>)
    ensures |xs| == |ts| && forall i :: 0 <= i < |ts| ==> xs[i] == Enc(ts[i])
  {
    seq(|ts|, i requires 0 <= i < |ts| => Enc(ts[i]))
  }

  lemma {:induction false} RawLaid(ts: seq<Item>)
    ensures PutAll(PutRaw, Encoded(ts), []) == EncAll(ts)
  {
    hide Enc;
    if ts != [] {
      assert Encoded(ts)[1..] == Encoded(ts[1..]);
      RawLaid(ts[1..]);
    }
  }

  /** Pooled transactions that are items are passed on as the items they are. */
  lemma {:induction false} PooledLayout(id: u64, ts: seq<Item>)
    ensures EncodeReply(PutRaw, Reply(Some(id), Encoded(ts))) == Enc(List([Uint(id), List(ts)]))
  {
    hide EncAll, HeaderBytes, PutUint, Uint, PutAll, Enc;
    RawLaid(ts);
    WholeList(ts);
    EncAllOne(List(ts));
    UintField(id, [List(ts)]);
    assert [Uint(id)] + [List(ts)] == [Uint(id), List(ts)];
    WholeList([Uint(id), List(ts)]);
  }
}
