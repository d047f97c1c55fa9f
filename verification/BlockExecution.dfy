/**
 Gas accounting while a block is executed: which transactions add gas, what the receipts say, and
 how the three ways of telling a system transaction (price, header count, zero cumulative gas) line
 up. What the EVM does to a transaction is an input.
 */
module BlockExecution {
  import opened Common
  import opened BlockConversion

  /** What the EVM made of one transaction. */
  datatype Outcome = Outcome(success: bool, gasUsed: nat, logs: seq<Log>)

  datatype Work = Work(tx: NodeTx, outcome: Outcome)

  datatype Progress = Progress(gasUsed: nat, receipts: seq<EthereumReceipt>)

  function TypeOf(tx: NodeTx): TxType
  {
    match tx
    case SignedLegacy(_, _) => TypeLegacy
    case Signed2930(_, _) => Type2930
    case Signed1559(_, _) => Type1559
    case Signed4844(_, _) => Type4844
    case Signed7702(_, _) => Type7702
  }

  /** A receipt carries the type byte of its transaction. */
  lemma TypeOfIs(tx: NodeTx)
    ensures ReceiptTypeByte(TypeOf(tx)) == EnvelopeTypeByte(tx)
  {
  }

  /** The block still has room for the transaction's own limit. */
  predicate Fits(gasLimit: nat, p: Progress, tx: NodeTx)
    requires gasLimit < U64 && p.gasUsed < U64
  {
    tx.GasLimit() <= WrapSub(gasLimit, p.gasUsed)
  }

  function Commit(p: Progress, w: Work): (p': Progress)
    ensures p'.gasUsed < U64 || w.tx.IsSystem()
  {
    var gasUsed := if w.tx.IsSystem() then p.gasUsed else (p.gasUsed + w.outcome.gasUsed) % U64;
    Progress(gasUsed,
             p.receipts + [EthereumReceipt(TypeOf(w.tx), w.outcome.success, gasUsed, w.outcome.logs)])
  }

  class HlBlockExecutor {
    const gasLimit: nat
    var gasUsed: nat
    var receipts: seq<EthereumReceipt>

    ghost predicate Valid() reads this { gasLimit < U64 && gasUsed < U64 }

    ghost function View(): Progress reads this { Progress(gasUsed, receipts) }

    constructor (gasLimit: nat)
      requires gasLimit < U64
      ensures Valid() && this.gasLimit == gasLimit && View() == Progress(0, [])
    {
      this.gasLimit, gasUsed, receipts := gasLimit, 0, [];
    }

    /**
     `execute_transaction_without_commit`, up to the call into the EVM: a transaction may run if the block
     could still pay for its whole limit. Had the block already used more than it has, what is left
     would have wrapped around.
     */
    method CheckTransaction(tx: NodeTx) returns (accepted: bool)
      requires Valid()
      ensures gasUsed <= gasLimit ==> (accepted <==> gasUsed + tx.GasLimit() <= gasLimit)
      ensures gasUsed > gasLimit ==> (accepted <==> gasUsed + tx.GasLimit() <= gasLimit + U64)
    {
      var available := WrapSub(gasLimit, gasUsed);
      accepted := !(tx.GasLimit() > available);
    }

    method CommitTransaction(w: Work)
      requires Valid()
      modifies this
      ensures Valid() && View() == Commit(old(View()), w)
    {
      if !w.tx.IsSystem() {
        gasUsed := (gasUsed + w.outcome.gasUsed) % U64;
      }
      receipts := receipts + [EthereumReceipt(TypeOf(w.tx), w.outcome.success, gasUsed, w.outcome.logs)];
    }
  }

  /** Execute transactions in order; `None` once one of them is rejected for want of block gas. */
  function Execute(gasLimit: nat, p: Progress, work: seq<Work>): Option<Progress>
    requires gasLimit < U64 && p.gasUsed < U64
    decreases |work|
  {
    if work == [] then Some(p)
    else if !Fits(gasLimit, p, work[0].tx) then None
    else Execute(gasLimit, Commit(p, work[0]), work[1..])
  }

  lemma ExecuteStep(gasLimit: nat, p: Progress, work: seq<Work>, i: nat)
    requires gasLimit < U64 && p.gasUsed < U64 && i < |work|
    ensures Execute(gasLimit, p, work[i..]) ==
            if Fits(gasLimit, p, work[i].tx) then Execute(gasLimit, Commit(p, work[i]), work[i + 1..]) else None
  {
    assert work[i..][1..] == work[i + 1..];
  }

  /** A block as `execute_block` drives the executor: check, run, commit; the first rejection ends it. */
  method ExecuteBlock(gasLimit: nat, work: seq<Work>) returns (r: Option<Progress>)
    requires gasLimit < U64
    ensures r == Execute(gasLimit, Progress(0, []), work)
  {
    var executor := new HlBlockExecutor(gasLimit);
    assert work[0..] == work;
    for i := 0 to |work|
      invariant fresh(executor) && executor.Valid() && executor.gasLimit == gasLimit
      invariant Execute(gasLimit, executor.View(), work[i..]) == Execute(gasLimit, Progress(0, []), work)
    {
      ExecuteStep(gasLimit, executor.View(), work, i);
      var accepted := executor.CheckTransaction(work[i].tx);
      if !accepted {
        return None;
      }
      executor.CommitTransaction(work[i]);
    }
    return Some(Progress(executor.gasUsed, executor.receipts));
  }

  /** No ordinary transaction uses more than its own limit. */
  ghost predicate Bounded(work: seq<Work>)
  {
    forall w <- work :: !w.tx.IsSystem() ==> w.outcome.gasUsed <= w.tx.GasLimit()
  }

  /** Every ordinary transaction uses some gas. */
  ghost predicate Charged(work: seq<Work>)
  {
    forall w <- work :: !w.tx.IsSystem() ==> w.outcome.gasUsed >= 1
  }

  // Cumulative gas ------------------------------------------------------------------------------

  /** Gas of the ordinary transactions. */
  function OrdinaryGas(work: seq<Work>): nat
  {
    if work == [] then 0
    else OrdinaryGas(work[..|work| - 1])
         + (var w := work[|work| - 1]; if w.tx.IsSystem() then 0 else w.outcome.gasUsed)
  }

  /** The receipts a block's execution leaves behind, described without the running counter. */
  ghost predicate Accounts(work: seq<Work>, p: Progress)
  {
    && p.gasUsed == OrdinaryGas(work)
    && |p.receipts| == |work|
    && forall i :: 0 <= i < |work| ==>
         p.receipts[i] == EthereumReceipt(TypeOf(work[i].tx), work[i].outcome.success,
                                          OrdinaryGas(work[..i + 1]), work[i].outcome.logs)
  }

  lemma CommitAccounts(gasLimit: nat, done: seq<Work>, p: Progress, w: Work)
    requires gasLimit < U64 && p.gasUsed <= gasLimit && Fits(gasLimit, p, w.tx) && Bounded([w])
    requires Accounts(done, p)
    ensures Commit(p, w).gasUsed <= gasLimit && Accounts(done + [w], Commit(p, w))
  {
    assert w in [w];
    var p1, done1 := Commit(p, w), done + [w];
    assert done1[..|done1| - 1] == done;
    forall i | 0 <= i < |done1|
      ensures p1.receipts[i] == EthereumReceipt(TypeOf(done1[i].tx), done1[i].outcome.success,
                                                OrdinaryGas(done1[..i + 1]), done1[i].outcome.logs)
    {
      if i < |done| {
        assert done1[..i + 1] == done[..i + 1];
      } else {
        assert done1[..i + 1] == done1;
      }
    }
  }

  lemma {:induction false} ExecuteAccounts(gasLimit: nat, done: seq<Work>, p: Progress, work: seq<Work>)
    requires gasLimit < U64 && p.gasUsed <= gasLimit && Bounded(work)
    requires Accounts(done, p)
    requires Execute(gasLimit, p, work).Some?
    ensures var p' := Execute(gasLimit, p, work).value; p'.gasUsed <= gasLimit && Accounts(done + work, p')
    decreases |work|
  {
    if work == [] {
      assert done + work == done;
    } else {
      assert work == [work[0]] + work[1..] && work[0] in work;
      CommitAccounts(gasLimit, done, p, work[0]);
      ExecuteAccounts(gasLimit, done + [work[0]], Commit(p, work[0]), work[1..]);
      Associates(done, [work[0]], work[1..]);
    }
  }

  /** A whole block, from an empty executor. */
  lemma BlockAccounts(gasLimit: nat, work: seq<Work>)
    requires gasLimit < U64 && Bounded(work) && Execute(gasLimit, Progress(0, []), work).Some?
    ensures var p := Execute(gasLimit, Progress(0, []), work).value; p.gasUsed <= gasLimit && Accounts(work, p)
  {
    ExecuteAccounts(gasLimit, [], Progress(0, []), work);
    assert [] + work == work;
  }

  lemma {:induction false} OrdinaryGasGrows(work: seq<Work>, i: nat, j: nat)
    requires i <= j <= |work|
    ensures OrdinaryGas(work[..i]) <= OrdinaryGas(work[..j])
    decreases j
  {
    if i < j {
      assert work[..j][..j - 1] == work[..j - 1];
      OrdinaryGasGrows(work, i, j - 1);
    }
  }

  /** The run of a whole block that is not rejected. */
  function Receipts(gasLimit: nat, work: seq<Work>): seq<EthereumReceipt>
    requires gasLimit < U64 && Execute(gasLimit, Progress(0, []), work).Some?
  {
    Execute(gasLimit, Progress(0, []), work).value.receipts
  }

  /**
   Section 6.2 of the Ethereum Yellow Paper over a whole block: however the EVM uses the gas
   granted, the block never exceeds its limit, cumulative gas never decreases, and it ends at the
   gas the ordinary transactions used.
   */
  lemma GasStaysWithinLimit(gasLimit: nat, work: seq<Work>)
    requires gasLimit < U64 && Bounded(work)
    requires Execute(gasLimit, Progress(0, []), work).Some?
    ensures var p := Execute(gasLimit, Progress(0, []), work).value;
            && p.gasUsed == OrdinaryGas(work) <= gasLimit
            && |p.receipts| == |work|
            && (forall i, j :: 0 <= i <= j < |work| ==>
                  p.receipts[i].cumulativeGasUsed <= p.receipts[j].cumulativeGasUsed <= p.gasUsed)
            && (work != [] ==> p.receipts[|work| - 1].cumulativeGasUsed == p.gasUsed)
  {
    BlockAccounts(gasLimit, work);
    var p := Execute(gasLimit, Progress(0, []), work).value;
    forall i, j | 0 <= i <= j < |work|
      ensures p.receipts[i].cumulativeGasUsed <= p.receipts[j].cumulativeGasUsed <= p.gasUsed
    {
      OrdinaryGasGrows(work, i + 1, j + 1);
      OrdinaryGasGrows(work, j + 1, |work|);
      assert work[..|work|] == work;
    }
    assert work != [] ==> work[..|work| - 1 + 1] == work;
  }

  // Telling system transactions apart -----------------------------------------------------------

  /** System transactions come first. */
  ghost predicate SystemFirst(work: seq<Work>)
  {
    forall i, j :: 0 <= i < j < |work| && work[j].tx.IsSystem() ==> work[i].tx.IsSystem()
  }

  ghost predicate AllSystem(work: seq<Work>)
  {
    forall i :: 0 <= i < |work| ==> work[i].tx.IsSystem()
  }

  lemma {:induction false} NoGasIffAllSystem(work: seq<Work>)
    requires Charged(work)
    ensures OrdinaryGas(work) == 0 <==> AllSystem(work)
  {
    if work != [] {
      NoGasIffAllSystem(work[..|work| - 1]);
    }
  }

  /** A receipt shows no cumulative gas just as long as only system transactions have run. */
  lemma ZeroGasMeansAllSystem(gasLimit: nat, work: seq<Work>, i: nat)
    requires gasLimit < U64 && Bounded(work) && Charged(work)
    requires Execute(gasLimit, Progress(0, []), work).Some? && i < |work|
    ensures |Receipts(gasLimit, work)| == |work|
    ensures Receipts(gasLimit, work)[i].cumulativeGasUsed == 0 <==> AllSystem(work[..i + 1])
  {
    BlockAccounts(gasLimit, work);
    NoGasIffAllSystem(work[..i + 1]);
  }

  /** Receipt `i` shows no cumulative gas exactly if transaction `i` is free. */
  ghost predicate Marked(receipts: seq<EthereumReceipt>, work: seq<Work>, i: nat)
    requires i < |receipts| == |work|
  {
    receipts[i].cumulativeGasUsed == 0 <==> work[i].tx.IsSystem()
  }

  /**
   Zero cumulative gas marks exactly the zero-price transactions if and only if those come first in
   the block.
   */
  lemma ZeroGasMarksSystem(gasLimit: nat, work: seq<Work>)
    requires gasLimit < U64 && Bounded(work) && Charged(work)
    requires Execute(gasLimit, Progress(0, []), work).Some?
    ensures |Receipts(gasLimit, work)| == |work|
    ensures (forall i: nat :: i < |work| ==> Marked(Receipts(gasLimit, work), work, i)) <==> SystemFirst(work)
  {
    BlockAccounts(gasLimit, work);
    var receipts := Receipts(gasLimit, work);
    forall i: nat | i < |work| && SystemFirst(work) ensures Marked(receipts, work, i) {
      ZeroGasMeansAllSystem(gasLimit, work, i);
      assert work[..i + 1][i] == work[i];
    }
    forall i: nat, j: nat |
      (forall n: nat :: n < |work| ==> Marked(receipts, work, n)) && i < j < |work| && work[j].tx.IsSystem()
      ensures work[i].tx.IsSystem()
    {
      assert Marked(receipts, work, j);
      ZeroGasMeansAllSystem(gasLimit, work, j);
      assert work[..j + 1][i] == work[i];
    }
  }

  /** How many receipts carry no cumulative gas: the recount of `to_hl_header`. */
  function Recount(receipts: seq<EthereumReceipt>): nat
  {
    if receipts == [] then 0
    else (if receipts[0].cumulativeGasUsed == 0 then 1 else 0) + Recount(receipts[1..])
  }

  function PriceCount(txs: seq<NodeTx>): nat
  {
    if txs == [] then 0 else (if txs[0].IsSystem() then 1 else 0) + PriceCount(txs[1..])
  }

  lemma {:induction false} CountPrefix(receipts: seq<EthereumReceipt>, k: nat)
    requires k <= |receipts|
    requires forall i :: 0 <= i < |receipts| ==> (receipts[i].cumulativeGasUsed == 0 <==> i < k)
    ensures Recount(receipts) == k
  {
    if receipts != [] {
      CountPrefix(receipts[1..], if k == 0 then 0 else k - 1);
    }
  }

  lemma {:induction false} PriceCountPrefix(txs: seq<NodeTx>, k: nat)
    requires k <= |txs|
    requires forall i :: 0 <= i < |txs| ==> (txs[i].IsSystem() <==> i < k)
    ensures PriceCount(txs) == k
  {
    if txs != [] {
      PriceCountPrefix(txs[1..], if k == 0 then 0 else k - 1);
    }
  }

  /** A block and its receipts as every reader of them expects: the system part leads, for free. */
  ghost predicate WellFormed(block: HlBlock, receipts: seq<EthereumReceipt>)
  {
    && |receipts| == |block.transactions| < U64
    && block.header.systemTxCount <= |receipts|
    && (forall i :: 0 <= i < |receipts| ==> receipts[i].cumulativeGasUsed < U64)
    && (forall i :: 0 <= i < |receipts| ==>
          (receipts[i].cumulativeGasUsed == 0 <==> i < block.header.systemTxCount))
    && (forall i :: 0 <= i < |receipts| ==>
          (block.transactions[i].IsSystem() <==> i < block.header.systemTxCount))
    && (forall i, j :: 0 <= i <= j < |receipts| ==>
          receipts[i].cumulativeGasUsed <= receipts[j].cumulativeGasUsed)
  }

  lemma {:induction false} ConvertedPrice(node: Node, number: nat, txs: seq<SystemTx>, i: nat)
    requires SystemTxsToReth(node, number, txs).Some? && i < |txs|
    requires forall tx <- txs :: tx.tx.Legacy? ==> tx.tx.legacy.gasPrice == 0
    ensures SystemTxsToReth(node, number, txs).value[i].IsSystem()
  {
    ConvertedOne(node, number, txs, i);
  }

  /** The system transactions a conversion puts first are exactly the free ones. */
  lemma ConvertedPrefix(node: Node, b: BlockAndReceipts, i: nat)
    requires ToRethBlock(node, b).Some? && ZeroPriced(b)
    requires forall tx <- b.transactions :: !ToRethTransaction(tx).IsSystem()
    requires i < |ToRethBlock(node, b).value.transactions|
    ensures var block := ToRethBlock(node, b).value;
            block.transactions[i].IsSystem() <==> i < block.header.systemTxCount
  {
    var block := ToRethBlock(node, b).value;
    var k := block.header.systemTxCount;
    var converted := SystemTxsToReth(node, b.header.number, Retained(b.systemTxs)).value;
    if i < k {
      assert block.transactions[i] == converted[i];
      ConvertedPrice(node, b.header.number, Retained(b.systemTxs), i);
    } else {
      var tx := b.transactions[i - k];
      assert tx in b.transactions && block.transactions[i] == ToRethTransaction(tx);
    }
  }

  /** Executing transactions whose free ones are the first `systemTxCount` gives a well-formed block. */
  lemma ExecutionIsWellFormed(block: HlBlock, gasLimit: nat, work: seq<Work>)
    requires gasLimit < U64 && |work| < U64 && Bounded(work) && Charged(work)
    requires |work| == |block.transactions| && block.header.systemTxCount <= |work|
    requires forall i :: 0 <= i < |work| ==> work[i].tx == block.transactions[i]
    requires forall i: nat :: i < |work| ==> (block.transactions[i].IsSystem() <==> i < block.header.systemTxCount)
    requires Execute(gasLimit, Progress(0, []), work).Some?
    ensures WellFormed(block, Receipts(gasLimit, work))
  {
    GasStaysWithinLimit(gasLimit, work);
    ZeroGasMarksSystem(gasLimit, work);
    var receipts := Receipts(gasLimit, work);
    forall i | 0 <= i < |receipts|
      ensures receipts[i].cumulativeGasUsed == 0 <==> i < block.header.systemTxCount
    {
      assert Marked(receipts, work, i);
    }
  }

  lemma CountsAgree(block: HlBlock, receipts: seq<EthereumReceipt>)
    requires WellFormed(block, receipts)
    ensures Recount(receipts) == PriceCount(block.transactions) == block.header.systemTxCount
  {
    CountPrefix(receipts, block.header.systemTxCount);
    PriceCountPrefix(block.transactions, block.header.systemTxCount);
  }

  /**
   From ingestion to the database: convert a block whose system transactions, and only those, are
   free; execute it. Then price test, header count and cumulative gas agree on every transaction,
   and so does the recount a migration makes from the receipts.
   */
  lemma ExecutedBlockIsWellFormed(node: Node, b: BlockAndReceipts, gasLimit: nat, work: seq<Work>)
    requires ToRethBlock(node, b).Some? && ZeroPriced(b)
    requires forall tx <- b.transactions :: !ToRethTransaction(tx).IsSystem()
    requires gasLimit < U64 && |work| < U64 && Bounded(work) && Charged(work)
    requires |work| == |ToRethBlock(node, b).value.transactions|
    requires forall i :: 0 <= i < |work| ==> work[i].tx == ToRethBlock(node, b).value.transactions[i]
    requires Execute(gasLimit, Progress(0, []), work).Some?
    ensures var block := ToRethBlock(node, b).value;
            var receipts := Receipts(gasLimit, work);
            && WellFormed(block, receipts)
            && Recount(receipts) == PriceCount(block.transactions) == block.header.systemTxCount
  {
    var block := ToRethBlock(node, b).value;
    forall i: nat | i < |work|
      ensures block.transactions[i].IsSystem() <==> i < block.header.systemTxCount
    {
      ConvertedPrefix(node, b, i);
    }
    ExecutionIsWellFormed(block, gasLimit, work);
    CountsAgree(block, Receipts(gasLimit, work));
  }
}
