/**
 Turning an ingested block into the node's block (`to_reth_block`) and back into a servable one
 (`from_db`). System transactions arrive unsigned, get a fabricated signature whose `s` encodes the
 sender, and lead the merged block.

 A result of `None` stands for a conversion that panics or never returns. A bloom filter is
 represented by the logs it is computed from, and a Keccak hash by the header it is taken of.
 */
module BlockConversion {
  import opened Common
  import opened SenderCodec
  import opened SpotFetch

  // Transactions --------------------------------------------------------------------------------

  datatype TxKind = Create | Call(to: Address)

  datatype TxLegacy = TxLegacy(
    chainId: Option<nat>, nonce: nat, gasPrice: nat, gasLimit: nat, kind: TxKind, value: nat, input: Bytes)

  datatype TxEip2930 = TxEip2930(gasPrice: nat, gasLimit: nat, rest: nat)

  /** The three types with a fee cap, which have no `gas_price`. */
  datatype TxFeeCap = TxFeeCap(gasLimit: nat, rest: nat)

  datatype Signature = Signature(r: U256, s: U256, odd: bool)

  /** The ingested form: signature and transaction side by side. */
  datatype Transaction =
    | Legacy(legacy: TxLegacy)
    | Eip2930(eip2930: TxEip2930)
    | Eip1559(eip1559: TxFeeCap)
    | Eip4844(eip4844: TxFeeCap)
    | Eip7702(eip7702: TxFeeCap)

  datatype CompatTx = CompatTx(signature: Signature, transaction: Transaction)

  /** The node's form: one signed envelope per type. */
  datatype NodeTx =
    | SignedLegacy(legacy: TxLegacy, signature: Signature)
    | Signed2930(eip2930: TxEip2930, signature: Signature)
    | Signed1559(eip1559: TxFeeCap, signature: Signature)
    | Signed4844(eip4844: TxFeeCap, signature: Signature)
    | Signed7702(eip7702: TxFeeCap, signature: Signature)
  {
    function GasPrice(): Option<nat>
    {
      match this
      case SignedLegacy(tx, _) => Some(tx.gasPrice)
      case Signed2930(tx, _) => Some(tx.gasPrice)
      case _ => None
    }

    function GasLimit(): nat
    {
      match this
      case SignedLegacy(tx, _) => tx.gasLimit
      case Signed2930(tx, _) => tx.gasLimit
      case Signed1559(tx, _) => tx.gasLimit
      case Signed4844(tx, _) => tx.gasLimit
      case Signed7702(tx, _) => tx.gasLimit
    }

    predicate IsSystem() { GasPrice() == Some(0) }
  }

  /** Signature recovery, which the model leaves open. */
  type Ecdsa = NodeTx -> Option<Address>

  function RecoverSigner(ecdsa: Ecdsa, tx: NodeTx): Option<Address>
  {
    if tx.IsSystem() then Some(SToAddress(tx.signature.s)) else ecdsa(tx)
  }

  /** The free legacy and EIP-2930 transactions, and no others, are from whom their `s` says. */
  lemma SignerIs(ecdsa: Ecdsa, tx: NodeTx)
    ensures RecoverSigner(ecdsa, tx) ==
            if (tx.SignedLegacy? && tx.legacy.gasPrice == 0) || (tx.Signed2930? && tx.eip2930.gasPrice == 0)
            then Some(SToAddress(tx.signature.s)) else ecdsa(tx)
  {
  }

  function FromNodeTx(tx: NodeTx): CompatTx
  {
    match tx
    case SignedLegacy(t, sig) => CompatTx(sig, Legacy(t))
    case Signed2930(t, sig) => CompatTx(sig, Eip2930(t))
    case Signed1559(t, sig) => CompatTx(sig, Eip1559(t))
    case Signed4844(t, sig) => CompatTx(sig, Eip4844(t))
    case Signed7702(t, sig) => CompatTx(sig, Eip7702(t))
  }

  function ExtractTransaction(tx: NodeTx): Transaction
  {
    match tx
    case SignedLegacy(t, _) => Legacy(t)
    case Signed2930(t, _) => Eip2930(t)
    case Signed1559(t, _) => Eip1559(t)
    case Signed4844(t, _) => Eip4844(t)
    case Signed7702(t, _) => Eip7702(t)
  }

  function ToRethTransaction(tx: CompatTx): (r: NodeTx)
    ensures FromNodeTx(r) == tx
  {
    match tx.transaction
    case Legacy(t) => SignedLegacy(t, tx.signature)
    case Eip2930(t) => Signed2930(t, tx.signature)
    case Eip1559(t) => Signed1559(t, tx.signature)
    case Eip4844(t) => Signed4844(t, tx.signature)
    case Eip7702(t) => Signed7702(t, tx.signature)
  }

  /** The type byte of EIP-2718. */
  function TypeByte(tx: Transaction): nat
  {
    match tx
    case Legacy(_) => 0
    case Eip2930(_) => 1
    case Eip1559(_) => 2
    case Eip4844(_) => 3
    case Eip7702(_) => 4
  }

  function EnvelopeTypeByte(tx: NodeTx): nat
  {
    match tx
    case SignedLegacy(_, _) => 0
    case Signed2930(_, _) => 1
    case Signed1559(_, _) => 2
    case Signed4844(_, _) => 3
    case Signed7702(_, _) => 4
  }

  /** No conversion changes a transaction's type or signature, and leaving the signature out changes nothing else. */
  lemma TypesAreKept(tx: NodeTx, compat: CompatTx)
    ensures TypeByte(FromNodeTx(tx).transaction) == EnvelopeTypeByte(tx)
    ensures FromNodeTx(tx).signature == tx.signature && ExtractTransaction(tx) == FromNodeTx(tx).transaction
    ensures EnvelopeTypeByte(ToRethTransaction(compat)) == TypeByte(compat.transaction)
  {
  }

  // Receipts ------------------------------------------------------------------------------------

  datatype Log = Log(address: Address, topics: seq<U256>, data: Bytes)

  datatype LegacyTxType = LegacyType0 | LegacyType1 | LegacyType2 | LegacyType3 | LegacyType4

  datatype TxType = TypeLegacy | Type2930 | Type1559 | Type4844 | Type7702

  datatype LegacyReceipt = LegacyReceipt(txType: LegacyTxType, success: bool, cumulativeGasUsed: nat, logs: seq<Log>)

  datatype EthereumReceipt = EthereumReceipt(txType: TxType, success: bool, cumulativeGasUsed: nat, logs: seq<Log>)

  function ToEthereum(r: LegacyReceipt): (e: EthereumReceipt)
    ensures ToLegacy(e) == r
  {
    var txType :=
      match r.txType
      case LegacyType0 => TypeLegacy
      case LegacyType1 => Type2930
      case LegacyType2 => Type1559
      case LegacyType3 => Type4844
      case LegacyType4 => Type7702;
    EthereumReceipt(txType, r.success, r.cumulativeGasUsed, r.logs)
  }

  function ToLegacy(r: EthereumReceipt): LegacyReceipt
  {
    var txType :=
      match r.txType
      case TypeLegacy => LegacyType0
      case Type2930 => LegacyType1
      case Type1559 => LegacyType2
      case Type4844 => LegacyType3
      case Type7702 => LegacyType4;
    LegacyReceipt(txType, r.success, r.cumulativeGasUsed, r.logs)
  }

  /** The type byte of EIP-2718, in both forms. */
  function LegacyReceiptTypeByte(t: LegacyTxType): nat
  {
    match t
    case LegacyType0 => 0
    case LegacyType1 => 1
    case LegacyType2 => 2
    case LegacyType3 => 3
    case LegacyType4 => 4
  }

  function ReceiptTypeByte(t: TxType): nat
  {
    match t
    case TypeLegacy => 0
    case Type2930 => 1
    case Type1559 => 2
    case Type4844 => 3
    case Type7702 => 4
  }

  lemma ReceiptTypesAreKept(r: LegacyReceipt)
    ensures
      var e := ToEthereum(r);
      && ReceiptTypeByte(e.txType) == LegacyReceiptTypeByte(r.txType)
      && e.success == r.success && e.cumulativeGasUsed == r.cumulativeGasUsed && e.logs == r.logs
  {
  }

  // Blocks --------------------------------------------------------------------------------------

  datatype SystemTx = SystemTx(tx: Transaction, receipt: Option<LegacyReceipt>, from: Option<Address>)

  datatype Header = Header(number: nat, rest: nat)

  datatype BlockHash = Keccak(header: Header) | Claimed(hash: U256)

  datatype BlockAndReceipts = BlockAndReceipts(
    hash: BlockHash, header: Header, transactions: seq<CompatTx>, withdrawals: Option<nat>,
    receipts: seq<LegacyReceipt>, systemTxs: seq<SystemTx>,
    readPrecompileCalls: seq<nat>, highestPrecompileAddress: Option<Address>)

  datatype HlHeader = HlHeader(inner: Header, logsBloomWithSystemTxs: seq<Log>, systemTxCount: nat)

  datatype HlBlock = HlBlock(
    header: HlHeader, transactions: seq<NodeTx>, withdrawals: Option<nat>,
    readPrecompileCalls: Option<seq<nat>>, highestPrecompileAddress: Option<Address>)

  /** A converting node: its chain, its spot map, and what the metadata API would answer. */
  datatype Node = Node(chainId: nat, spots: SpotMap, api: SpotMap)

  // Sender recovery -----------------------------------------------------------------------------

  const TESTNET_CHAIN_ID: nat := 998
  const SENDER_RECOVERY_TOKEN: Address := 0x2b3370ee501b4a559b57d449569354196457d8ab
  const SENDER_RECOVERY_FROM: nat := 55231857
  const SENDER_RECOVERY_UNTIL: nat := 55432000
  const ERC20_TRANSFER_TOPIC: U256 := 0xddf252ad1be2c89b69c2b068fc378daa952ba7f163c4a11628f55a4df523b3ef

  /** The `from` topic of the first `Transfer` the token emitted. */
  function TransferSender(token: Address, logs: seq<Log>): Option<Address>
  {
    if logs == [] then None
    else
      var log := logs[0];
      if log.address == token && |log.topics| >= 2 && log.topics[0] == ERC20_TRANSFER_TOPIC
      then Some(log.topics[1] % TWO_160)
      else TransferSender(token, logs[1..])
  }

  function RecoverTestnetSender(
    chainId: nat, number: nat, token: Address, receipt: Option<LegacyReceipt>): Option<Address>
  {
    if chainId != TESTNET_CHAIN_ID || !(SENDER_RECOVERY_FROM <= number < SENDER_RECOVERY_UNTIL) ||
       token != SENDER_RECOVERY_TOKEN || receipt.None?
    then None
    else
      match TransferSender(token, receipt.value.logs)
      case Some(sender) => if sender == 1 then None else Some(sender)
      case None => None
  }

  /** The spot lookup as one thread sees it: a miss replaces the map by the API's answer and looks again. */
  function LookUpSpot(node: Node, token: Address): Option<U256>
  {
    if token in node.spots then Some(SpotS(node.spots[token]))
    else if token in node.api then Some(SpotS(node.api[token]))
    else None
  }

  /** A thread that looks up a token with nobody else around gets this, and leaves the map it met or the API's. */
  lemma LookUpIsARun(node: Node, token: Address) returns (schedule: seq<nat>)
    requires token in node.spots || token in node.api
    ensures LookUpSpot(node, token).Some? && IsRun(node.api, Start(node.spots, [token]), schedule)
    ensures
      var end := Final(node.api, Start(node.spots, [token]), schedule);
      && end.threads == [Done(token, LookUpSpot(node, token).value)]
      && end.spots == if token in node.spots then node.spots else node.api
  {
    var start := Start(node.spots, [token]);
    if token in node.spots {
      schedule := [0];
      assert IsRun(node.api, Apply(node.api, start, 0), []);
    } else {
      OneTurn(node.api, start, 0);
      var fetched := Final(node.api, start, Turn(0));
      assert IsRun(node.api, Apply(node.api, fetched, 0), []) && IsRun(node.api, fetched, [0]);
      RunsCompose(node.api, start, Turn(0), [0]);
      schedule := Turn(0) + [0];
    }
  }

  /** Only a sender that nothing in the transaction tells is looked up. */
  predicate NeedsSpot(node: Node, number: nat, tx: SystemTx)
  {
    && tx.tx.Legacy? && tx.tx.legacy.kind.Call? && tx.from.None? && tx.tx.legacy.input != []
    && RecoverTestnetSender(node.chainId, number, tx.tx.legacy.kind.to, tx.receipt).None?
  }

  /** The node once it has converted the transaction: a miss has replaced its spot map for good. */
  function Learned(node: Node, number: nat, tx: SystemTx): Node
  {
    if NeedsSpot(node, number, tx) && tx.tx.legacy.kind.to !in node.spots then node.(spots := node.api) else node
  }

  /** The node when it comes to transaction `i`. */
  function NodeAt(node: Node, number: nat, txs: seq<SystemTx>, i: nat): Node
    requires i <= |txs|
    decreases i
  {
    if i == 0 then node else Learned(NodeAt(node, number, txs, i - 1), number, txs[i - 1])
  }

  function SenderS(node: Node, number: nat, tx: SystemTx): Option<U256>
  {
    if !tx.tx.Legacy? || tx.tx.legacy.kind.Create? then None
    else
      var to := tx.tx.legacy.kind.to;
      var recovered := RecoverTestnetSender(node.chainId, number, to, tx.receipt);
      if tx.from.Some? then Some(AddressToS(tx.from.value))
      else if recovered.Some? then Some(AddressToS(recovered.value))
      else if tx.tx.legacy.input == [] then Some(1)
      else LookUpSpot(node, to)
  }

  /** `system_tx_to_reth_transaction` */
  function SystemTxToReth(node: Node, number: nat, tx: SystemTx): Option<NodeTx>
  {
    match SenderS(node, number, tx)
    case None => None
    case Some(s) => Some(SignedLegacy(tx.tx.legacy, Signature(1, s, true)))
  }

  /** All of them one after the other, or `None` if one of them does not convert. */
  function SystemTxsToReth(node: Node, number: nat, txs: seq<SystemTx>): (r: Option<seq<NodeTx>>)
    ensures r.Some? ==> |r.value| == |txs|
  {
    if txs == [] then Some([])
    else
      var n := |txs| - 1;
      match (SystemTxsToReth(node, number, txs[..n]), SystemTxToReth(NodeAt(node, number, txs, n), number, txs[n]))
      case (Some(front), Some(tx)) => Some(front + [tx])
      case _ => None
  }

  /** Which node converts a transaction depends on what precedes it only. */
  lemma {:induction false} NodeAtPrefix(node: Node, number: nat, txs: seq<SystemTx>, n: nat, i: nat)
    requires i <= n <= |txs|
    ensures NodeAt(node, number, txs[..n], i) == NodeAt(node, number, txs, i)
    decreases i
  {
    if i > 0 {
      NodeAtPrefix(node, number, txs, n, i - 1);
    }
  }

  /** The list converts to `out` exactly if each transaction converts to its own, at its turn. */
  lemma {:induction false} ConvertedIff(node: Node, number: nat, txs: seq<SystemTx>, out: seq<NodeTx>)
    ensures SystemTxsToReth(node, number, txs) == Some(out)
       <==> |out| == |txs| && forall i :: 0 <= i < |txs| ==> ConvertsTo(node, number, txs, i, out)
  {
    if txs != [] && |out| == |txs| {
      var n := |txs| - 1;
      ConvertedIff(node, number, txs[..n], out[..n]);
      InitAndLast(out);
      forall i | 0 <= i < n
        ensures ConvertsTo(node, number, txs[..n], i, out[..n]) <==> ConvertsTo(node, number, txs, i, out)
      {
        NodeAtPrefix(node, number, txs, n, i);
      }
      assert ConvertsTo(node, number, txs, n, out) <==>
             SystemTxToReth(NodeAt(node, number, txs, n), number, txs[n]) == Some(out[n]);
    }
  }

  predicate ConvertsTo(node: Node, number: nat, txs: seq<SystemTx>, i: nat, out: seq<NodeTx>)
  {
    i < |txs| && i < |out| && SystemTxToReth(NodeAt(node, number, txs, i), number, txs[i]) == Some(out[i])
  }

  lemma ConvertedOne(node: Node, number: nat, txs: seq<SystemTx>, i: nat)
    requires SystemTxsToReth(node, number, txs).Some? && i < |txs|
    ensures SystemTxToReth(NodeAt(node, number, txs, i), number, txs[i]) ==
            Some(SystemTxsToReth(node, number, txs).value[i])
  {
    var out := SystemTxsToReth(node, number, txs).value;
    ConvertedIff(node, number, txs, out);
    assert ConvertsTo(node, number, txs, i, out);
  }

  function Retained(txs: seq<SystemTx>): (r: seq<SystemTx>)
    ensures forall tx <- r :: tx.receipt.Some?
  {
    if txs == [] then [] else (if txs[0].receipt.Some? then [txs[0]] else []) + Retained(txs[1..])
  }

  function Map<A, B>(f: A -> B, s: seq<A>): (r: seq<B>)
    ensures |r| == |s|
    ensures forall i :: 0 <= i < |s| ==> r[i] == f(s[i])
  {
    if s == [] then [] else [f(s[0])] + Map(f, s[1..])
  }

  function SystemReceipts(txs: seq<SystemTx>): (r: seq<EthereumReceipt>)
    requires forall tx <- txs :: tx.receipt.Some?
    ensures |r| == |txs|
    ensures forall i :: 0 <= i < |txs| ==> r[i] == ToEthereum(txs[i].receipt.value)
  {
    if txs == [] then [] else [ToEthereum(txs[0].receipt.value)] + SystemReceipts(txs[1..])
  }

  function AllLogs(receipts: seq<EthereumReceipt>): seq<Log>
  {
    if receipts == [] then [] else receipts[0].logs + AllLogs(receipts[1..])
  }

  /** The receipts stored next to the converted block. */
  function MergedReceipts(b: BlockAndReceipts): seq<EthereumReceipt>
  {
    SystemReceipts(Retained(b.systemTxs)) + Map(ToEthereum, b.receipts)
  }

  function ToRethBlock(node: Node, b: BlockAndReceipts): Option<HlBlock>
  {
    var systemTxs := Retained(b.systemTxs);
    match SystemTxsToReth(node, b.header.number, systemTxs)
    case None => None
    case Some(converted) =>
      Some(HlBlock(
             HlHeader(b.header, AllLogs(MergedReceipts(b)), |systemTxs|),
             converted + Map(ToRethTransaction, b.transactions),
             b.withdrawals, Some(b.readPrecompileCalls), b.highestPrecompileAddress))
  }

  /** `from_db`, with the two splits as the source guards them. */
  function FromDb(ecdsa: Ecdsa, block: HlBlock, receipts: seq<EthereumReceipt>): BlockAndReceipts
  {
    var count := block.header.systemTxCount;
    var txs := block.transactions;
    var splitTxs := if 0 < count <= |txs| then count else 0;
    var splitReceipts := if 0 < count <= |receipts| then count else 0;
    BlockAndReceipts(
      Keccak(block.header.inner), block.header.inner,
      Map(FromNodeTx, txs[splitTxs..]), block.withdrawals,
      Map(ToLegacy, receipts[splitReceipts..]),
      Resystem(ecdsa, txs[..splitTxs], receipts[..splitReceipts]),
      if block.readPrecompileCalls.Some? then block.readPrecompileCalls.value else [],
      block.highestPrecompileAddress)
  }

  /** Zip system transactions with their receipts and recover each sender. */
  function Resystem(ecdsa: Ecdsa, txs: seq<NodeTx>, receipts: seq<EthereumReceipt>): (r: seq<SystemTx>)
    ensures |r| == Min(|txs|, |receipts|)
    ensures forall i :: 0 <= i < |r| ==>
      r[i] == SystemTx(ExtractTransaction(txs[i]), Some(ToLegacy(receipts[i])), RecoverSigner(ecdsa, txs[i]))
  {
    if txs == [] || receipts == [] then []
    else
      [SystemTx(ExtractTransaction(txs[0]), Some(ToLegacy(receipts[0])), RecoverSigner(ecdsa, txs[0]))]
      + Resystem(ecdsa, txs[1..], receipts[1..])
  }

  // Lossless re-serving -------------------------------------------------------------------------

  ghost predicate ZeroPriced(b: BlockAndReceipts)
  {
    forall tx <- Retained(b.systemTxs) :: tx.tx.Legacy? ==> tx.tx.legacy.gasPrice == 0
  }

  /** A second node, syncing from the first one's database, ends up with the same block. */
  ghost predicate Lossless(ecdsa: Ecdsa, first: Node, second: Node, b: BlockAndReceipts)
    requires ToRethBlock(first, b).Some?
  {
    var stored := ToRethBlock(first, b).value;
    ToRethBlock(second, FromDb(ecdsa, stored, MergedReceipts(b))) == Some(stored)
  }

  lemma SenderIsCanonical(node: Node, number: nat, tx: SystemTx)
    requires SenderS(node, number, tx).Some?
    ensures Canonical(SenderS(node, number, tx).value)
  {
    if tx.from.Some? {
      EncodedIsCanonical(tx.from.value);
    } else {
      var recovered := RecoverTestnetSender(node.chainId, number, tx.tx.legacy.kind.to, tx.receipt);
      if recovered.Some? {
        EncodedIsCanonical(recovered.value);
      }
    }
  }

  lemma ReceiptRoundTrip(r: EthereumReceipt)
    ensures ToEthereum(ToLegacy(r)) == r
  {
  }

  /** A stored system transaction as `from_db` hands it on. */
  function Resystemed(ecdsa: Ecdsa, c: NodeTx, receipt: LegacyReceipt): SystemTx
  {
    SystemTx(ExtractTransaction(c), Some(receipt), RecoverSigner(ecdsa, c))
  }

  /**
   The sender survives: the transaction is free, or the signer recovered from it encodes to its `s`,
   or none is recovered and the second node works out the same `s` by itself.
   */
  predicate SenderKept(ecdsa: Ecdsa, second: Node, number: nat, c: NodeTx, receipt: LegacyReceipt)
  {
    c.IsSystem() ||
    match RecoverSigner(ecdsa, c)
    case Some(signer) => AddressToS(signer) == c.signature.s
    case None => SenderS(second, number, SystemTx(ExtractTransaction(c), Some(receipt), None)) == Some(c.signature.s)
  }

  /** Converting a system transaction again gives the stored one exactly if its sender survives. */
  lemma ResystemOneIff(ecdsa: Ecdsa, first: Node, second: Node, number: nat, tx: SystemTx)
    requires SystemTxToReth(first, number, tx).Some? && tx.receipt.Some?
    ensures
      var c := SystemTxToReth(first, number, tx).value;
      SystemTxToReth(second, number, Resystemed(ecdsa, c, tx.receipt.value)) == Some(c)
      <==> SenderKept(ecdsa, second, number, c, tx.receipt.value)
  {
    SenderIsCanonical(first, number, tx);
    SRoundTrip(SenderS(first, number, tx).value);
  }

  /** The system transactions `from_db` restores for a block. */
  function Restored(ecdsa: Ecdsa, node: Node, b: BlockAndReceipts): seq<SystemTx>
    requires ToRethBlock(node, b).Some?
  {
    var systemTxs := Retained(b.systemTxs);
    Resystem(ecdsa, SystemTxsToReth(node, b.header.number, systemTxs).value, SystemReceipts(systemTxs))
  }

  lemma RestoredOne(ecdsa: Ecdsa, node: Node, b: BlockAndReceipts, i: nat)
    requires ToRethBlock(node, b).Some? && i < |Retained(b.systemTxs)|
    ensures
      var systemTxs := Retained(b.systemTxs);
      && |Restored(ecdsa, node, b)| == |systemTxs|
      && Restored(ecdsa, node, b)[i] ==
           Resystemed(ecdsa, SystemTxsToReth(node, b.header.number, systemTxs).value[i], systemTxs[i].receipt.value)
  {
  }

  /** Whether system transaction `i` of a block survives being re-served under one signature recovery. */
  ghost predicate Survives(ecdsa: Ecdsa, first: Node, second: Node, b: BlockAndReceipts, i: nat)
    requires ToRethBlock(first, b).Some? && i < |Retained(b.systemTxs)|
  {
    var number, systemTxs := b.header.number, Retained(b.systemTxs);
    |Restored(ecdsa, first, b)| == |systemTxs| &&
    SenderKept(ecdsa, NodeAt(second, number, Restored(ecdsa, first, b), i), number,
               SystemTxsToReth(first, number, systemTxs).value[i], systemTxs[i].receipt.value)
  }

  lemma SurvivesIff(ecdsa: Ecdsa, first: Node, second: Node, b: BlockAndReceipts, i: nat)
    requires ToRethBlock(first, b).Some? && i < |Retained(b.systemTxs)|
    ensures
      var converted := SystemTxsToReth(first, b.header.number, Retained(b.systemTxs)).value;
      Survives(ecdsa, first, second, b, i)
      <==> ConvertsTo(second, b.header.number, Restored(ecdsa, first, b), i, converted)
  {
    var number, systemTxs := b.header.number, Retained(b.systemTxs);
    ConvertedOne(first, number, systemTxs, i);
    RestoredOne(ecdsa, first, b, i);
    ResystemOneIff(ecdsa, NodeAt(first, number, systemTxs, i),
                   NodeAt(second, number, Restored(ecdsa, first, b), i), number, systemTxs[i]);
  }

  lemma SameFront(a: seq<NodeTx>, b: seq<NodeTx>, rest: seq<NodeTx>)
    requires |a| == |b|
    ensures a + rest == b + rest <==> a == b
  {
    assert (a + rest)[..|a|] == a && (b + rest)[..|b|] == b;
  }

  lemma {:induction false} AllRetained(txs: seq<SystemTx>)
    requires forall tx <- txs :: tx.receipt.Some?
    ensures Retained(txs) == txs
  {
    if txs != [] {
      AllRetained(txs[1..]);
    }
  }

  /** What `from_db` reads back is the block that was stored, split where it was merged. */
  lemma SplitUndoesMerge(ecdsa: Ecdsa, node: Node, b: BlockAndReceipts)
    requires ToRethBlock(node, b).Some?
    ensures var systemTxs := Retained(b.systemTxs);
            var converted := SystemTxsToReth(node, b.header.number, systemTxs).value;
            FromDb(ecdsa, ToRethBlock(node, b).value, MergedReceipts(b))
            == b.(hash := Keccak(b.header), systemTxs := Resystem(ecdsa, converted, SystemReceipts(systemTxs)))
  {
    var systemTxs := Retained(b.systemTxs);
    var converted := SystemTxsToReth(node, b.header.number, systemTxs).value;
    var count := |systemTxs|;
    var stored := ToRethBlock(node, b).value;
    var restored := FromDb(ecdsa, stored, MergedReceipts(b));
    var regular, receipts := Map(ToRethTransaction, b.transactions), Map(ToEthereum, b.receipts);
    assert stored.transactions[..count] == converted && stored.transactions[count..] == regular;
    assert MergedReceipts(b)[..count] == SystemReceipts(systemTxs) && MergedReceipts(b)[count..] == receipts;
    assert Map(FromNodeTx, regular) == b.transactions;
    assert Map(ToLegacy, receipts) == b.receipts;
  }

  lemma ResystemedReceipts(ecdsa: Ecdsa, txs: seq<NodeTx>, receipts: seq<EthereumReceipt>)
    requires |txs| == |receipts|
    ensures SystemReceipts(Resystem(ecdsa, txs, receipts)) == receipts
  {
    var again := SystemReceipts(Resystem(ecdsa, txs, receipts));
    forall i | 0 <= i < |receipts| ensures again[i] == receipts[i] {
      ReceiptRoundTrip(receipts[i]);
    }
  }

  /** Converting a restored block differs from the stored one at most in the system transactions. */
  lemma Reconverted(ecdsa: Ecdsa, first: Node, second: Node, b: BlockAndReceipts)
    requires ToRethBlock(first, b).Some?
    ensures var systemTxs := Retained(b.systemTxs);
            var converted := SystemTxsToReth(first, b.header.number, systemTxs).value;
            var again := Resystem(ecdsa, converted, SystemReceipts(systemTxs));
            var stored := ToRethBlock(first, b).value;
            ToRethBlock(second, FromDb(ecdsa, stored, MergedReceipts(b))) ==
            match SystemTxsToReth(second, b.header.number, again)
            case None => None
            case Some(reconverted) =>
              Some(stored.(transactions := reconverted + Map(ToRethTransaction, b.transactions)))
  {
    var systemTxs := Retained(b.systemTxs);
    var converted := SystemTxsToReth(first, b.header.number, systemTxs).value;
    SplitUndoesMerge(ecdsa, first, b);
    AllRetained(Resystem(ecdsa, converted, SystemReceipts(systemTxs)));
    ResystemedReceipts(ecdsa, converted, SystemReceipts(systemTxs));
  }

  /** Under a given signature recovery, re-serving is lossless exactly if every system transaction survives. */
  lemma LosslessUnderIff(ecdsa: Ecdsa, first: Node, second: Node, b: BlockAndReceipts)
    requires ToRethBlock(first, b).Some?
    ensures Lossless(ecdsa, first, second, b)
       <==> forall i: nat :: i < |Retained(b.systemTxs)| ==> Survives(ecdsa, first, second, b, i)
  {
    var number, systemTxs := b.header.number, Retained(b.systemTxs);
    var converted, again := SystemTxsToReth(first, number, systemTxs).value, Restored(ecdsa, first, b);
    ReservedIff(ecdsa, first, second, b);
    ConvertedIff(second, number, again, converted);
    forall i: nat | i < |systemTxs|
      ensures Survives(ecdsa, first, second, b, i) <==> ConvertsTo(second, number, again, i, converted)
    {
      SurvivesIff(ecdsa, first, second, b, i);
    }
  }

  /** The rest of the block is restored in any case. */
  lemma ReservedIff(ecdsa: Ecdsa, first: Node, second: Node, b: BlockAndReceipts)
    requires ToRethBlock(first, b).Some?
    ensures
      var converted := SystemTxsToReth(first, b.header.number, Retained(b.systemTxs)).value;
      Lossless(ecdsa, first, second, b)
      <==> SystemTxsToReth(second, b.header.number, Restored(ecdsa, first, b)) == Some(converted)
  {
    var converted := SystemTxsToReth(first, b.header.number, Retained(b.systemTxs)).value;
    var reconverted := SystemTxsToReth(second, b.header.number, Restored(ecdsa, first, b));
    Reconverted(ecdsa, first, second, b);
    if reconverted.Some? {
      SameFront(reconverted.value, converted, Map(ToRethTransaction, b.transactions));
    }
  }

  /**
   Re-serving is lossless: with zero-price system transactions, converting what `from_db` restores
   gives back the stored block, whatever chain id, spot map, API and ECDSA the second node has.
   */
  lemma ReservingIsLossless(ecdsa: Ecdsa, first: Node, second: Node, b: BlockAndReceipts)
    requires ToRethBlock(first, b).Some? && ZeroPriced(b)
    ensures Lossless(ecdsa, first, second, b)
  {
    LosslessUnderIff(ecdsa, first, second, b);
    forall i: nat | i < |Retained(b.systemTxs)|
      ensures Survives(ecdsa, first, second, b, i)
    {
      FreeSurvives(ecdsa, first, second, b, i);
    }
  }

  lemma FreeSurvives(ecdsa: Ecdsa, first: Node, second: Node, b: BlockAndReceipts, i: nat)
    requires ToRethBlock(first, b).Some? && ZeroPriced(b) && i < |Retained(b.systemTxs)|
    ensures Survives(ecdsa, first, second, b, i)
  {
    assert Retained(b.systemTxs)[i] in Retained(b.systemTxs);
    ConvertedOne(first, b.header.number, Retained(b.systemTxs), i);
    RestoredOne(ecdsa, first, b, i);
  }

  /** Re-serving fails once the signer recovered for one priced system transaction is not the one encoded. */
  lemma LossyUnder(ecdsa: Ecdsa, first: Node, second: Node, b: BlockAndReceipts, i: nat, wrong: Address)
    requires ToRethBlock(first, b).Some? && i < |Retained(b.systemTxs)|
    requires
      var converted := SystemTxsToReth(first, b.header.number, Retained(b.systemTxs)).value;
      RecoverSigner(ecdsa, converted[i]) == Some(wrong) && converted[i].signature.s != AddressToS(wrong)
    ensures !Lossless(ecdsa, first, second, b)
  {
    var tx := Retained(b.systemTxs)[i];
    ConvertedOne(first, b.header.number, Retained(b.systemTxs), i);
    SenderIsCanonical(NodeAt(first, b.header.number, Retained(b.systemTxs), i), b.header.number, tx);
    SRoundTrip(SystemTxsToReth(first, b.header.number, Retained(b.systemTxs)).value[i].signature.s);
    LosslessUnderIff(ecdsa, first, second, b);
    assert !Survives(ecdsa, first, second, b, i);
  }

  /** A system transaction with a price is at the mercy of ECDSA: some recovery result loses it. */
  lemma PricedIsLossy(first: Node, second: Node, b: BlockAndReceipts, i: nat) returns (ecdsa: Ecdsa)
    requires ToRethBlock(first, b).Some?
    requires i < |Retained(b.systemTxs)|
    requires var tx := Retained(b.systemTxs)[i].tx; tx.Legacy? && tx.legacy.gasPrice != 0
    ensures !Lossless(ecdsa, first, second, b)
  {
    var converted := SystemTxsToReth(first, b.header.number, Retained(b.systemTxs)).value;
    ConvertedOne(first, b.header.number, Retained(b.systemTxs), i);
    var wrong: Address := if converted[i].signature.s == 2 then 3 else 2;
    PlainSender(wrong);
    ecdsa := (tx: NodeTx) => Some(wrong);
    LossyUnder(ecdsa, first, second, b, i, wrong);
  }

  /** Re-serving is lossless under every ECDSA exactly when all system transactions are free. */
  lemma LosslessIffZeroPriced(first: Node, second: Node, b: BlockAndReceipts)
    requires ToRethBlock(first, b).Some?
    ensures (forall ecdsa: Ecdsa :: Lossless(ecdsa, first, second, b)) <==> ZeroPriced(b)
  {
    if ZeroPriced(b) {
      forall ecdsa: Ecdsa ensures Lossless(ecdsa, first, second, b) {
        ReservingIsLossless(ecdsa, first, second, b);
      }
    } else {
      var tx :| tx in Retained(b.systemTxs) && tx.tx.Legacy? && tx.tx.legacy.gasPrice != 0;
      var i :| 0 <= i < |Retained(b.systemTxs)| && Retained(b.systemTxs)[i] == tx;
      var ecdsa := PricedIsLossy(first, second, b, i);
    }
  }

  /** A block with one system transaction, sent by address 5 at a gas price of 1. */
  const PRICED: BlockAndReceipts := BlockAndReceipts(
    Claimed(0), Header(1, 0), [], None, [],
    [SystemTx(Legacy(TxLegacy(None, 0, 1, 21000, Call(7), 0, [])),
              Some(LegacyReceipt(LegacyType0, true, 0, [])), Some(5))],
    [], None)

  /** Where the signature is taken for a real one, whoever it seems to be from becomes the sender. */
  lemma PricedBlockIsLost(node: Node)
    ensures ToRethBlock(node, PRICED).Some? && !Lossless((tx: NodeTx) => Some(9), node, node, PRICED)
  {
    var tx := PRICED.systemTxs[0];
    assert Retained(PRICED.systemTxs[1..]) == [];
    assert Retained(PRICED.systemTxs) == [tx];
    var c := SignedLegacy(tx.tx.legacy, Signature(1, AddressToS(5), true));
    assert [tx][..0] == [] && SystemTxsToReth(node, 1, []) == Some([]);
    assert SystemTxToReth(node, 1, tx) == Some(c);
    var none: seq<NodeTx> := [];
    assert SystemTxsToReth(node, 1, [tx]) == Some(none + [c]) && none + [c] == [c];
    PlainSender(5);
    PlainSender(9);
    LossyUnder((tx: NodeTx) => Some(9), node, node, PRICED, 0, 9);
  }

  // Senders -------------------------------------------------------------------------------------

  /** Log `i` is the first `Transfer` of the token, and names this sender. */
  ghost predicate TransferAt(token: Address, logs: seq<Log>, i: nat, sender: Address)
  {
    && i < |logs| && IsTransfer(token, logs[i]) && sender == logs[i].topics[1] % TWO_160
    && forall j :: 0 <= j < i ==> !IsTransfer(token, logs[j])
  }

  predicate IsTransfer(token: Address, log: Log)
  {
    log.address == token && |log.topics| >= 2 && log.topics[0] == ERC20_TRANSFER_TOPIC
  }

  lemma {:induction false} TransferSenderIs(token: Address, logs: seq<Log>, sender: Address)
    ensures TransferSender(token, logs) == Some(sender) <==> exists i: nat :: TransferAt(token, logs, i, sender)
  {
    if logs != [] {
      if IsTransfer(token, logs[0]) {
        assert TransferAt(token, logs, 0, logs[0].topics[1] % TWO_160);
      } else {
        TransferSenderIs(token, logs[1..], sender);
        if i: nat :| TransferAt(token, logs[1..], i, sender) {
          TransferLater(token, logs, i + 1, sender);
          assert TransferAt(token, logs, i + 1, sender);
        }
        if i: nat :| TransferAt(token, logs, i, sender) {
          TransferLater(token, logs, i, sender);
          assert TransferAt(token, logs[1..], i - 1, sender);
        }
      }
    }
  }

  lemma TransferLater(token: Address, logs: seq<Log>, i: nat, sender: Address)
    requires logs != [] && !IsTransfer(token, logs[0]) && i > 0
    ensures TransferAt(token, logs, i, sender) <==> TransferAt(token, logs[1..], i - 1, sender)
  {
    var rest := logs[1..];
    assert forall j :: 1 <= j < |logs| ==> logs[j] == rest[j - 1];
    if TransferAt(token, rest, i - 1, sender) {
      forall j | 0 <= j < i
        ensures !IsTransfer(token, logs[j])
      {
        if j > 0 {
          assert !IsTransfer(token, rest[j - 1]);
        }
      }
    }
  }

  /** On the testnet, for one token and a range of blocks, the receipt tells the sender. */
  ghost predicate ReceiptTells(
    chainId: nat, number: nat, token: Address, receipt: Option<LegacyReceipt>, sender: Address)
  {
    && chainId == 998 && 55231857 <= number < 55432000
    && token == 0x2b3370ee501b4a559b57d449569354196457d8ab
    && receipt.Some? && sender != 1 && exists i: nat :: TransferAt(token, receipt.value.logs, i, sender)
  }

  lemma RecoveredIs(chainId: nat, number: nat, token: Address, receipt: Option<LegacyReceipt>, sender: Address)
    ensures RecoverTestnetSender(chainId, number, token, receipt) == Some(sender)
       <==> ReceiptTells(chainId, number, token, receipt, sender)
  {
    if receipt.Some? {
      TransferSenderIs(token, receipt.value.logs, sender);
    }
  }

  /**
   Who sent a system transaction: whom it names; else whom its receipt tells; else the HYPE address if
   nothing is called; else the address of the token's spot index, by the map in force or by the API.
   */
  ghost predicate SentBy(node: Node, number: nat, tx: SystemTx, sender: Address)
  {
    && tx.tx.Legacy? && tx.tx.legacy.kind.Call?
    && var token := tx.tx.legacy.kind.to;
       if tx.from.Some? then sender == tx.from.value
       else if exists a: Address :: ReceiptTells(node.chainId, number, token, tx.receipt, a)
       then ReceiptTells(node.chainId, number, token, tx.receipt, sender)
       else if tx.tx.legacy.input == [] then sender == HYPE_SYSTEM_ADDRESS
       else if token in node.spots then sender == SPOT_PREFIX + node.spots[token]
       else token in node.api && sender == SPOT_PREFIX + node.api[token]
  }

  lemma ToldSender(node: Node, number: nat, tx: SystemTx)
    requires tx.tx.Legacy? && tx.tx.legacy.kind.Call?
    ensures
      var token := tx.tx.legacy.kind.to;
      match RecoverTestnetSender(node.chainId, number, token, tx.receipt)
      case None => forall a: Address :: !ReceiptTells(node.chainId, number, token, tx.receipt, a)
      case Some(told) =>
        forall a: Address :: ReceiptTells(node.chainId, number, token, tx.receipt, a) <==> a == told
  {
    var token := tx.tx.legacy.kind.to;
    forall a: Address
      ensures ReceiptTells(node.chainId, number, token, tx.receipt, a)
         <==> RecoverTestnetSender(node.chainId, number, token, tx.receipt) == Some(a)
    {
      RecoveredIs(node.chainId, number, token, tx.receipt, a);
    }
  }

  /** A transaction converts exactly if it has a sender, and its `s` then decodes to that sender. */
  lemma SenderIsEncoded(node: Node, number: nat, tx: SystemTx, sender: Address)
    ensures SenderS(node, number, tx).Some? && SToAddress(SenderS(node, number, tx).value) == sender
       <==> SentBy(node, number, tx, sender)
  {
    if tx.tx.Legacy? && tx.tx.legacy.kind.Call? {
      var token := tx.tx.legacy.kind.to;
      ToldSender(node, number, tx);
      var recovered := RecoverTestnetSender(node.chainId, number, token, tx.receipt);
      if tx.from.Some? {
        SenderRoundTrip(tx.from.value);
      } else if recovered.Some? {
        SenderRoundTrip(recovered.value);
        assert ReceiptTells(node.chainId, number, token, tx.receipt, recovered.value);
      } else if token in node.spots {
        PlainSender(SPOT_PREFIX + node.spots[token]);
      } else if token in node.api {
        PlainSender(SPOT_PREFIX + node.api[token]);
      }
    }
  }

  /** The signer recovered from a converted zero-price system transaction is its true sender. */
  lemma SignerIsTrueSender(ecdsa: Ecdsa, node: Node, number: nat, tx: SystemTx)
    requires tx.tx.Legacy? && tx.tx.legacy.kind.Call? && tx.tx.legacy.gasPrice == 0
    ensures match SystemTxToReth(node, number, tx)
            case Some(c) =>
              RecoverSigner(ecdsa, c).Some? && SentBy(node, number, tx, RecoverSigner(ecdsa, c).value)
            case None => forall a: Address :: !SentBy(node, number, tx, a)
  {
    if SystemTxToReth(node, number, tx).Some? {
      SenderIsEncoded(node, number, tx, SToAddress(SenderS(node, number, tx).value));
    } else {
      forall a: Address ensures !SentBy(node, number, tx, a) {
        SenderIsEncoded(node, number, tx, a);
      }
    }
  }

  // What a converted block is -------------------------------------------------------------------

  /** The node's form of a system transaction: the same, with `r` = 1, odd parity and its sender in `s`. */
  ghost predicate IsIngested(c: NodeTx, node: Node, number: nat, tx: SystemTx)
  {
    var compat := FromNodeTx(c);
    && compat.transaction == tx.tx && compat.signature.r == 1 && compat.signature.odd
    && SentBy(node, number, tx, SToAddress(compat.signature.s))
  }

  lemma ConvertedIsIngested(node: Node, number: nat, tx: SystemTx)
    requires SystemTxToReth(node, number, tx).Some?
    ensures IsIngested(SystemTxToReth(node, number, tx).value, node, number, tx)
  {
    SenderIsEncoded(node, number, tx, SToAddress(SenderS(node, number, tx).value));
  }

  function WithReceipt(txs: seq<SystemTx>): set<nat>
  {
    set i | 0 <= i < |txs| && txs[i].receipt.Some?
  }

  lemma {:induction false} RetainedParts(a: seq<SystemTx>, b: seq<SystemTx>)
    ensures Retained(a + b) == Retained(a) + Retained(b)
  {
    if a == [] {
      assert a + b == b;
    } else {
      assert (a + b)[1..] == a[1..] + b;
      RetainedParts(a[1..], b);
      Associates(if a[0].receipt.Some? then [a[0]] else [], Retained(a[1..]), Retained(b));
    }
  }

  lemma RetainedLast(txs: seq<SystemTx>)
    requires txs != []
    ensures
      var n := |txs| - 1;
      Retained(txs) == Retained(txs[..n]) + if txs[n].receipt.Some? then [txs[n]] else []
  {
    var n := |txs| - 1;
    InitAndLast(txs);
    RetainedParts(txs[..n], [txs[n]]);
    assert [txs[n]][1..] == [];
  }

  /** `at` are the positions of the transactions that have a receipt, and these are kept, and no others. */
  ghost predicate KeptAt(txs: seq<SystemTx>, at: seq<nat>)
  {
    Enumerates(at, WithReceipt(txs)) && PicksAt(Retained(txs), txs, at)
  }

  lemma {:induction false} RetainedAt(txs: seq<SystemTx>) returns (at: seq<nat>)
    ensures KeptAt(txs, at)
  {
    if txs == [] {
      at := [];
    } else {
      var n := |txs| - 1;
      at := RetainedAt(txs[..n]);
      RetainedLast(txs);
      PicksMore(Retained(txs[..n]), txs, at);
      if txs[n].receipt.Some? {
        assert WithReceipt(txs) == WithReceipt(txs[..n]) + {n};
        EnumeratesMore(at, WithReceipt(txs[..n]), n);
        at := at + [n];
      } else {
        assert WithReceipt(txs) == WithReceipt(txs[..n]);
      }
    }
  }

  /** Without any spot map the transaction has no sender, and the first map does not have its token. */
  ghost predicate Misses(node: Node, number: nat, tx: SystemTx)
  {
    && tx.tx.Legacy? && tx.tx.legacy.kind.Call? && tx.tx.legacy.kind.to !in node.spots
    && forall a: Address :: !SentBy(Node(node.chainId, map[], map[]), number, tx, a)
  }

  lemma MissesIff(node: Node, number: nat, tx: SystemTx)
    ensures Misses(node, number, tx) <==> NeedsSpot(node, number, tx) && tx.tx.legacy.kind.to !in node.spots
  {
    var bare := Node(node.chainId, map[], map[]);
    if tx.tx.Legacy? && tx.tx.legacy.kind.Call? {
      if SenderS(bare, number, tx).Some? {
        SenderIsEncoded(bare, number, tx, SToAddress(SenderS(bare, number, tx).value));
      } else {
        forall a: Address ensures !SentBy(bare, number, tx, a) {
          SenderIsEncoded(bare, number, tx, a);
        }
      }
    }
  }

  /** The spot map in force is the API's as soon as one transaction was not in the first. */
  lemma {:induction false} SpotsInForce(node: Node, number: nat, txs: seq<SystemTx>, i: nat)
    requires i <= |txs|
    ensures
      var missed := exists j :: 0 <= j < i && Misses(node, number, txs[j]);
      NodeAt(node, number, txs, i) == if missed then node.(spots := node.api) else node
    decreases i
  {
    if i > 0 {
      SpotsInForce(node, number, txs, i - 1);
      MissesIff(node, number, txs[i - 1]);
      if exists j :: 0 <= j < i - 1 && Misses(node, number, txs[j]) {
        var j :| 0 <= j < i - 1 && Misses(node, number, txs[j]);
        assert 0 <= j < i && Misses(node, number, txs[j]);
      } else if Misses(node, number, txs[i - 1]) {
        assert 0 <= i - 1 < i && Misses(node, number, txs[i - 1]);
      }
    }
  }

  /** Part `i` lies between `at[i]` and `at[i + 1]`. */
  ghost predicate PartAt(whole: seq<Log>, at: seq<nat>, i: nat, part: seq<Log>)
  {
    i + 1 < |at| && at[i] + |part| == at[i + 1] <= |whole| && whole[at[i]..at[i + 1]] == part
  }

  /** The logs are those of the receipts, one receipt behind the other. */
  ghost predicate LaidOut(logs: seq<Log>, receipts: seq<EthereumReceipt>, at: seq<nat>)
  {
    && |at| == |receipts| + 1 && at[0] == 0 && at[|receipts|] == |logs|
    && forall i :: 0 <= i < |receipts| ==> PartAt(logs, at, i, receipts[i].logs)
  }

  lemma {:induction false} LogsOfParts(a: seq<EthereumReceipt>, b: seq<EthereumReceipt>)
    ensures AllLogs(a + b) == AllLogs(a) + AllLogs(b)
  {
    if a == [] {
      assert a + b == b;
    } else {
      assert (a + b)[1..] == a[1..] + b;
      LogsOfParts(a[1..], b);
    }
  }

  lemma LogsOfOne(receipt: EthereumReceipt)
    ensures AllLogs([receipt]) == receipt.logs
  {
    assert [receipt][1..] == [];
  }

  lemma {:induction false} LogsAreLaidOut(receipts: seq<EthereumReceipt>) returns (at: seq<nat>)
    ensures LaidOut(AllLogs(receipts), receipts, at)
  {
    if receipts == [] {
      at := [0];
    } else {
      var n := |receipts| - 1;
      var front := LogsAreLaidOut(receipts[..n]);
      InitAndLast(receipts);
      LogsOfParts(receipts[..n], [receipts[n]]);
      LogsOfOne(receipts[n]);
      at := front + [|AllLogs(receipts)|];
      forall i | 0 <= i < |receipts|
        ensures PartAt(AllLogs(receipts), at, i, receipts[i].logs)
      {
        if i < n {
          assert PartAt(AllLogs(receipts[..n]), front, i, receipts[..n][i].logs);
          PartOfPrefix(AllLogs(receipts[..n]), receipts[n].logs, front, |AllLogs(receipts)|, i, receipts[i].logs);
        }
      }
    }
  }

  lemma PartOfPrefix(whole: seq<Log>, more: seq<Log>, at: seq<nat>, end: nat, i: nat, part: seq<Log>)
    requires PartAt(whole, at, i, part)
    ensures PartAt(whole + more, at + [end], i, part)
  {
    assert (whole + more)[at[i]..at[i + 1]] == whole[at[i]..at[i + 1]];
  }

  /** The list begins with the system transactions at these positions, each with its sender in its signature. */
  ghost predicate HoldsSystemTxs(txs: seq<SystemTx>, number: nat, at: seq<nat>, now: seq<Node>, out: seq<NodeTx>)
  {
    && |now| == |at| <= |out| && Enumerates(at, WithReceipt(txs))
    && forall i :: 0 <= i < |at| ==> IsIngested(out[i], now[i], number, txs[at[i]])
  }

  /** Behind the first `count` the list has these transactions, as they were signed. */
  ghost predicate HoldsOthers(txs: seq<CompatTx>, count: nat, out: seq<NodeTx>)
  {
    |out| == count + |txs| && forall i :: 0 <= i < |txs| ==> FromNodeTx(out[count + i]) == txs[i]
  }

  /**
   The stored block holds the ingested transactions: first the system transactions that have a receipt,
   in order, then the others as they were signed. `now[i]` is the node when it comes to system
   transaction `i`.
   */
  ghost predicate HoldsIngested(b: BlockAndReceipts, at: seq<nat>, now: seq<Node>, block: HlBlock)
  {
    && |at| == block.header.systemTxCount
    && HoldsSystemTxs(b.systemTxs, b.header.number, at, now, block.transactions)
    && HoldsOthers(b.transactions, |at|, block.transactions)
    && block.header.inner == b.header && block.withdrawals == b.withdrawals
    && block.readPrecompileCalls == Some(b.readPrecompileCalls)
    && block.highestPrecompileAddress == b.highestPrecompileAddress
  }

  /** So do the stored receipts, and the header's bloom is that of all their logs. */
  ghost predicate HoldsReceipts(b: BlockAndReceipts, at: seq<nat>, receipts: seq<EthereumReceipt>, block: HlBlock)
  {
    && Enumerates(at, WithReceipt(b.systemTxs)) && |receipts| == |at| + |b.receipts|
    && (forall i :: 0 <= i < |at| ==> ToLegacy(receipts[i]) == b.systemTxs[at[i]].receipt.value)
    && (forall i :: 0 <= i < |b.receipts| ==> ToLegacy(receipts[|at| + i]) == b.receipts[i])
    && exists logsAt: seq<nat> :: LaidOut(block.header.logsBloomWithSystemTxs, receipts, logsAt)
  }

  lemma ReceiptsHold(b: BlockAndReceipts, at: seq<nat>, block: HlBlock)
    requires KeptAt(b.systemTxs, at) && block.header.logsBloomWithSystemTxs == AllLogs(MergedReceipts(b))
    ensures HoldsReceipts(b, at, MergedReceipts(b), block)
  {
    var logsAt := LogsAreLaidOut(MergedReceipts(b));
  }

  lemma OthersHold(front: seq<NodeTx>, txs: seq<CompatTx>)
    ensures HoldsOthers(txs, |front|, front + Map(ToRethTransaction, txs))
  {
    var rest := Map(ToRethTransaction, txs);
    forall i | 0 <= i < |txs|
      ensures FromNodeTx((front + rest)[|front| + i]) == txs[i]
    {
      assert (front + rest)[|front| + i] == rest[i] == ToRethTransaction(txs[i]);
    }
  }

  /** The node as it comes to each system transaction. */
  function Nodes(node: Node, number: nat, txs: seq<SystemTx>): (r: seq<Node>)
    ensures |r| == |txs| && forall i :: 0 <= i < |txs| ==> r[i] == NodeAt(node, number, txs, i)
  {
    seq(|txs|, i requires 0 <= i < |txs| => NodeAt(node, number, txs, i))
  }

  lemma SystemTxsHold(node: Node, number: nat, txs: seq<SystemTx>, at: seq<nat>, out: seq<NodeTx>, rest: seq<NodeTx>)
    requires SystemTxsToReth(node, number, Retained(txs)) == Some(out) && KeptAt(txs, at)
    ensures HoldsSystemTxs(txs, number, at, Nodes(node, number, Retained(txs)), out + rest)
  {
    var kept := Retained(txs);
    forall i | 0 <= i < |at|
      ensures IsIngested((out + rest)[i], NodeAt(node, number, kept, i), number, txs[at[i]])
    {
      ConvertedOne(node, number, kept, i);
      ConvertedIsIngested(NodeAt(node, number, kept, i), number, kept[i]);
    }
  }

  lemma TransactionsHold(node: Node, b: BlockAndReceipts, at: seq<nat>)
    requires ToRethBlock(node, b).Some? && KeptAt(b.systemTxs, at)
    ensures HoldsIngested(b, at, Nodes(node, b.header.number, Retained(b.systemTxs)), ToRethBlock(node, b).value)
  {
    var converted := SystemTxsToReth(node, b.header.number, Retained(b.systemTxs)).value;
    SystemTxsHold(node, b.header.number, b.systemTxs, at, converted, Map(ToRethTransaction, b.transactions));
    OthersHold(converted, b.transactions);
  }

  /** Conversion loses and invents nothing. */
  lemma ConvertedBlockHoldsIngested(node: Node, b: BlockAndReceipts) returns (at: seq<nat>)
    requires ToRethBlock(node, b).Some?
    ensures HoldsIngested(b, at, Nodes(node, b.header.number, Retained(b.systemTxs)), ToRethBlock(node, b).value)
    ensures HoldsReceipts(b, at, MergedReceipts(b), ToRethBlock(node, b).value)
  {
    at := RetainedAt(b.systemTxs);
    TransactionsHold(node, b, at);
    ReceiptsHold(b, at, ToRethBlock(node, b).value);
  }

  ghost predicate HasSenderAt(node: Node, number: nat, txs: seq<SystemTx>, i: nat)
  {
    i < |txs| && HasSender(NodeAt(node, number, txs, i), number, txs[i])
  }

  ghost predicate AllHaveSenders(node: Node, number: nat, txs: seq<SystemTx>)
  {
    forall i: nat :: i < |txs| ==> HasSenderAt(node, number, txs, i)
  }

  lemma SendersConvert(node: Node, number: nat, txs: seq<SystemTx>)
    ensures SystemTxsToReth(node, number, txs).Some? <==> AllHaveSenders(node, number, txs)
  {
    forall i: nat | i < |txs|
      ensures HasSenderAt(node, number, txs, i)
         <==> SystemTxToReth(NodeAt(node, number, txs, i), number, txs[i]).Some?
    {
      HasSenderIff(NodeAt(node, number, txs, i), number, txs[i]);
    }
    if SystemTxsToReth(node, number, txs).Some? {
      forall i: nat | i < |txs|
        ensures HasSenderAt(node, number, txs, i)
      {
        ConvertedOne(node, number, txs, i);
      }
    } else if AllHaveSenders(node, number, txs) {
      EachConverts(node, number, txs);
    }
  }

  lemma EachConverts(node: Node, number: nat, txs: seq<SystemTx>)
    requires forall i: nat :: i < |txs| ==> SystemTxToReth(NodeAt(node, number, txs, i), number, txs[i]).Some?
    ensures SystemTxsToReth(node, number, txs).Some?
  {
    var out := seq(|txs|, i requires 0 <= i < |txs| =>
      SystemTxToReth(NodeAt(node, number, txs, i), number, txs[i]).value);
    assert forall i :: 0 <= i < |txs| ==> ConvertsTo(node, number, txs, i, out);
    ConvertedIff(node, number, txs, out);
  }

  /** A block converts exactly if each of those system transactions has a sender at its turn. */
  lemma ConvertsIff(node: Node, b: BlockAndReceipts)
    ensures ToRethBlock(node, b).Some? <==> AllHaveSenders(node, b.header.number, Retained(b.systemTxs))
  {
    SendersConvert(node, b.header.number, Retained(b.systemTxs));
  }

  ghost predicate HasSender(node: Node, number: nat, tx: SystemTx)
  {
    exists a: Address :: SentBy(node, number, tx, a)
  }

  lemma HasSenderIff(node: Node, number: nat, tx: SystemTx)
    ensures HasSender(node, number, tx) <==> SystemTxToReth(node, number, tx).Some?
  {
    if SystemTxToReth(node, number, tx).Some? {
      SenderIsEncoded(node, number, tx, SToAddress(SenderS(node, number, tx).value));
    }
    if a: Address :| SentBy(node, number, tx, a) {
      SenderIsEncoded(node, number, tx, a);
    }
  }

  // As the source builds it ---------------------------------------------------------------------

  /** `SealedBlock::to_reth_block`: retain, convert one after the other, then extend the merged lists. */
  method MergeBlock(node: Node, b: BlockAndReceipts) returns (r: Option<HlBlock>)
    ensures r == ToRethBlock(node, b)
    ensures r.Some? ==> exists at: seq<nat>, now: seq<Node> :: HoldsIngested(b, at, now, r.value)
  {
    if ToRethBlock(node, b).Some? {
      var at := ConvertedBlockHoldsIngested(node, b);
    }
    var number, systemTxs := b.header.number, Retained(b.systemTxs);
    var mergedTxs: seq<NodeTx> := [];
    var now := node;
    for i := 0 to |systemTxs|
      invariant SystemTxsToReth(node, number, systemTxs[..i]) == Some(mergedTxs)
      invariant now == NodeAt(node, number, systemTxs, i)
    {
      ConvertNext(node, number, systemTxs, i);
      var tx := SystemTxToReth(now, number, systemTxs[i]);
      if tx.None? {
        ConvertPrefix(node, number, systemTxs, i + 1);
        return None;
      }
      mergedTxs := mergedTxs + [tx.value];
      now := Learned(now, number, systemTxs[i]);
    }
    assert systemTxs[..|systemTxs|] == systemTxs;
    mergedTxs := mergedTxs + Map(ToRethTransaction, b.transactions);

    var mergedReceipts := SystemReceipts(systemTxs);
    mergedReceipts := mergedReceipts + Map(ToEthereum, b.receipts);

    var header := HlHeader(b.header, AllLogs(mergedReceipts), |systemTxs|);
    return Some(HlBlock(header, mergedTxs, b.withdrawals, Some(b.readPrecompileCalls), b.highestPrecompileAddress));
  }

  lemma ConvertNext(node: Node, number: nat, txs: seq<SystemTx>, i: nat)
    requires i < |txs|
    ensures SystemTxsToReth(node, number, txs[..i + 1]) ==
            match (SystemTxsToReth(node, number, txs[..i]),
                   SystemTxToReth(NodeAt(node, number, txs, i), number, txs[i]))
            case (Some(front), Some(tx)) => Some(front + [tx])
            case _ => None
  {
    PrefixGrows(txs, i);
    InitOfAppended(txs[..i], txs[i]);
    NodeAtPrefix(node, number, txs, i + 1, i);
  }

  lemma {:induction false} ConvertPrefix(node: Node, number: nat, txs: seq<SystemTx>, n: nat)
    requires n <= |txs| && SystemTxsToReth(node, number, txs[..n]).None?
    ensures SystemTxsToReth(node, number, txs).None?
    decreases |txs| - n
  {
    if n < |txs| {
      ConvertNext(node, number, txs, n);
      ConvertPrefix(node, number, txs, n + 1);
    } else {
      assert txs[..n] == txs;
    }
  }
}
