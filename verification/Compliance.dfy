/**
 hl-node compliant answers: every RPC path hides the system transactions at the head of a block and
 renumbers what is left, each path in its own way. The methods follow the paths; `Section` is the
 numbering they have to agree on.
 */
module Compliance {
  import opened Common
  import opened BlockConversion
  import opened BlockExecution

  datatype RpcLog = RpcLog(transactionIndex: Option<nat>, logIndex: Option<nat>, log: Log)

  datatype RpcReceipt = RpcReceipt(
    tx: NodeTx, index: nat, receipt: EthereumReceipt, gasUsed: nat, logs: seq<RpcLog>)

  datatype RpcTransaction = RpcTransaction(tx: NodeTx, transactionIndex: Option<nat>)

  type Receipts = receipts: seq<EthereumReceipt> | forall r <- receipts :: r.cumulativeGasUsed < U64

  /** `convert_receipts` for one input: logs are numbered from `nextLogIndex`. */
  function Convert(tx: NodeTx, index: nat, receipt: EthereumReceipt, gasUsed: nat, nextLogIndex: nat): RpcReceipt
  {
    RpcReceipt(tx, index, receipt, gasUsed,
               seq(|receipt.logs|, j requires 0 <= j < |receipt.logs| =>
                     RpcLog(Some(index), Some(nextLogIndex + j), receipt.logs[j])))
  }

  /** Logs of the receipts `from`, ..., `until - 1`. */
  function LogCount(receipts: seq<EthereumReceipt>, from: nat, until: nat): nat
    requires from <= until <= |receipts|
    decreases until
  {
    if from == until then 0 else LogCount(receipts, from, until - 1) + |receipts[until - 1].logs|
  }

  /** Cumulative gas before receipt `i`, counting from receipt `from`. */
  function GasBefore(receipts: Receipts, from: nat, i: nat): (gas: nat)
    requires from <= i <= |receipts|
    ensures gas < U64
  {
    if i == from then 0 else receipts[i - 1].cumulativeGasUsed
  }

  /** Transaction `i` in a block that starts at transaction `from`. */
  function Entry(txs: seq<NodeTx>, receipts: Receipts, from: nat, i: nat): RpcReceipt
    requires from <= i < |txs| && i < |receipts|
  {
    Convert(txs[i], i - from, receipts[i],
            WrapSub(receipts[i].cumulativeGasUsed, GasBefore(receipts, from, i)), LogCount(receipts, from, i))
  }

  /** Transactions `from`, ..., `until - 1` presented as a block of their own. */
  function Section(txs: seq<NodeTx>, receipts: Receipts, from: nat, until: nat): (r: seq<RpcReceipt>)
    requires from <= until <= |txs| && until <= |receipts|
    ensures |r| == until - from
    ensures forall m :: 0 <= m < |r| ==> r[m] == Entry(txs, receipts, from, from + m)
  {
    seq(until - from, m requires 0 <= m < until - from => Entry(txs, receipts, from, from + m))
  }

  lemma SectionSnoc(txs: seq<NodeTx>, receipts: Receipts, from: nat, i: nat)
    requires from <= i < |txs| && i < |receipts|
    ensures Section(txs, receipts, from, i + 1) == Section(txs, receipts, from, i) + [Entry(txs, receipts, from, i)]
  {
  }

  // What a list of receipts has to show ---------------------------------------------------------

  /** The logs of all receipts, one behind the other. */
  function RpcLogs(receipts: seq<RpcReceipt>): seq<RpcLog>
  {
    if receipts == [] then [] else RpcLogs(receipts[..|receipts| - 1]) + receipts[|receipts| - 1].logs
  }

  /** These logs, numbered from `first` on without a gap. */
  ghost predicate Numbered(logs: seq<RpcLog>, first: nat, plain: seq<Log>)
  {
    && |logs| == |plain|
    && forall t :: 0 <= t < |logs| ==> logs[t].logIndex == Some(first + t) && logs[t].log == plain[t]
  }

  /** One receipt: its transaction, its index, its logs and its share of the gas, modulo 2^64. */
  ghost predicate Presents(e: RpcReceipt, index: nat, tx: NodeTx, receipt: EthereumReceipt, gasBefore: nat)
  {
    && e.tx == tx && e.index == index && e.receipt == receipt
    && e.gasUsed < U64 && (e.gasUsed + gasBefore) % U64 == receipt.cumulativeGasUsed
    && |e.logs| == |receipt.logs|
    && forall j :: 0 <= j < |e.logs| ==> e.logs[j].transactionIndex == Some(index) && e.logs[j].log == receipt.logs[j]
  }

  /** The transactions `from`, ..., `until - 1` as a block of their own, its logs numbered without a gap. */
  ghost predicate PresentsBlock(r: seq<RpcReceipt>, txs: seq<NodeTx>, receipts: Receipts, from: nat, until: nat)
    requires from <= until <= |txs| && until <= |receipts|
  {
    && |r| == until - from
    && (forall m :: 0 <= m < |r| ==>
          Presents(r[m], m, txs[from + m], receipts[from + m],
                   if m == 0 then 0 else receipts[from + m - 1].cumulativeGasUsed))
    && Numbered(RpcLogs(r), 0, AllLogs(receipts[from..until]))
  }

  lemma LogsGrow(receipts: seq<EthereumReceipt>, from: nat, i: nat)
    requires from <= i < |receipts|
    ensures AllLogs(receipts[from..i + 1]) == AllLogs(receipts[from..i]) + receipts[i].logs
  {
    assert receipts[from..i + 1] == receipts[from..i] + [receipts[i]];
    LogsOfParts(receipts[from..i], [receipts[i]]);
    LogsOfOne(receipts[i]);
  }

  lemma {:induction false} LogCountIs(receipts: seq<EthereumReceipt>, from: nat, until: nat)
    requires from <= until <= |receipts|
    ensures LogCount(receipts, from, until) == |AllLogs(receipts[from..until])|
    decreases until
  {
    if from < until {
      LogCountIs(receipts, from, until - 1);
      LogsGrow(receipts, from, until - 1);
    }
  }

  lemma RpcLogsGrow(r: seq<RpcReceipt>, e: RpcReceipt)
    ensures RpcLogs(r + [e]) == RpcLogs(r) + e.logs
  {
    InitOfAppended(r, e);
  }

  lemma NumberedParts(a: seq<RpcLog>, b: seq<RpcLog>, first: nat, p: seq<Log>, q: seq<Log>)
    requires Numbered(a, first, p) && Numbered(b, first + |p|, q)
    ensures Numbered(a + b, first, p + q)
  {
    forall t | 0 <= t < |a + b|
      ensures (a + b)[t].logIndex == Some(first + t) && (a + b)[t].log == (p + q)[t]
    {
      if t >= |a| {
        assert (a + b)[t] == b[t - |a|] && (p + q)[t] == q[t - |p|];
      }
    }
  }

  lemma EntryIsNumbered(txs: seq<NodeTx>, receipts: Receipts, from: nat, i: nat)
    requires from <= i < |txs| && i < |receipts|
    ensures Numbered(Entry(txs, receipts, from, i).logs, |AllLogs(receipts[from..i])|, receipts[i].logs)
  {
    LogCountIs(receipts, from, i);
  }

  lemma {:induction false} SectionIsNumbered(txs: seq<NodeTx>, receipts: Receipts, from: nat, until: nat)
    requires from <= until <= |txs| && until <= |receipts|
    ensures Numbered(RpcLogs(Section(txs, receipts, from, until)), 0, AllLogs(receipts[from..until]))
    decreases until
  {
    if from < until {
      var i := until - 1;
      var front, e := Section(txs, receipts, from, i), Entry(txs, receipts, from, i);
      SectionIsNumbered(txs, receipts, from, i);
      EntryIsNumbered(txs, receipts, from, i);
      NumberedParts(RpcLogs(front), e.logs, 0, AllLogs(receipts[from..i]), receipts[i].logs);
      SectionSnoc(txs, receipts, from, i);
      RpcLogsGrow(front, e);
      LogsGrow(receipts, from, i);
    } else {
      assert receipts[from..until] == [];
    }
  }

  lemma SectionPresents(txs: seq<NodeTx>, receipts: Receipts, from: nat, until: nat)
    requires from <= until <= |txs| && until <= |receipts|
    ensures PresentsBlock(Section(txs, receipts, from, until), txs, receipts, from, until)
  {
    SectionIsNumbered(txs, receipts, from, until);
    var r := Section(txs, receipts, from, until);
    forall m | 0 <= m < |r|
      ensures Presents(r[m], m, txs[from + m], receipts[from + m],
                       if m == 0 then 0 else receipts[from + m - 1].cumulativeGasUsed)
    {
      WrapSubUndoes(receipts[from + m].cumulativeGasUsed, GasBefore(receipts, from, from + m));
    }
  }

  lemma WrapSubUndoes(a: nat, b: nat)
    requires a < U64 && b < U64
    ensures (WrapSub(a, b) + b) % U64 == a
  {
  }

  // The paths -----------------------------------------------------------------------------------

  /** How many transactions and logs have zero cumulative gas, as `adjust_log` counts them. */
  function ZeroGasLogs(receipts: seq<EthereumReceipt>): nat
  {
    if receipts == [] then 0
    else (if receipts[0].cumulativeGasUsed == 0 then |receipts[0].logs| else 0) + ZeroGasLogs(receipts[1..])
  }

  lemma {:induction false} CountSnoc(receipts: seq<EthereumReceipt>, r: EthereumReceipt)
    ensures Recount(receipts + [r]) == Recount(receipts) + if r.cumulativeGasUsed == 0 then 1 else 0
    ensures ZeroGasLogs(receipts + [r]) == ZeroGasLogs(receipts) + if r.cumulativeGasUsed == 0 then |r.logs| else 0
  {
    if receipts == [] {
      assert receipts + [r] == [r];
    } else {
      assert (receipts + [r])[1..] == receipts[1..] + [r];
      CountSnoc(receipts[1..], r);
    }
  }

  /** `adjust_log`; `receipts` is `None` where they cannot be loaded. */
  method AdjustLog(log: RpcLog, receipts: Option<seq<EthereumReceipt>>) returns (r: Option<RpcLog>)
    requires log.logIndex.Some? ==> log.logIndex.value < U64
    requires receipts.Some? ==> ZeroGasLogs(receipts.value) < U64
    ensures r == AdjustedLog(log, receipts)
  {
    if log.transactionIndex.None? || log.logIndex.None? || receipts.None? {
      return None;
    }
    var sysTxCount, sysLogCount := 0, 0;
    for i := 0 to |receipts.value|
      invariant sysTxCount == Recount(receipts.value[..i])
      invariant sysLogCount == ZeroGasLogs(receipts.value[..i])
    {
      assert receipts.value[..i + 1] == receipts.value[..i] + [receipts.value[i]];
      CountSnoc(receipts.value[..i], receipts.value[i]);
      if receipts.value[i].cumulativeGasUsed == 0 {
        sysTxCount := sysTxCount + 1;
        sysLogCount := sysLogCount + |receipts.value[i].logs|;
      }
    }
    assert receipts.value[..|receipts.value|] == receipts.value;
    if sysTxCount > log.transactionIndex.value {
      return None;
    }
    return Some(RpcLog(Some(log.transactionIndex.value - sysTxCount),
                       Some(WrapSub(log.logIndex.value, sysLogCount)), log.log));
  }

  function AdjustedLog(log: RpcLog, receipts: Option<seq<EthereumReceipt>>): Option<RpcLog>
    requires log.logIndex.Some? ==> log.logIndex.value < U64
    requires receipts.Some? ==> ZeroGasLogs(receipts.value) < U64
  {
    if log.transactionIndex.None? || log.logIndex.None? || receipts.None? ||
       Recount(receipts.value) > log.transactionIndex.value
    then None
    else Some(RpcLog(Some(log.transactionIndex.value - Recount(receipts.value)),
                     Some(WrapSub(log.logIndex.value, ZeroGasLogs(receipts.value))), log.log))
  }

  /** `adjust_block_receipts` */
  method AdjustBlockReceipts(block: HlBlock, receipts: Receipts) returns (r: seq<RpcReceipt>)
    ensures var n := Min(|block.transactions|, |receipts|);
            && r == Section(block.transactions, receipts, Min(block.header.systemTxCount, n), n)
            && PresentsBlock(r, block.transactions, receipts, Min(block.header.systemTxCount, n), n)
  {
    var gasUsed, nextLogIndex := 0, 0;
    var n := Min(|block.transactions|, |receipts|);
    ghost var k := Min(block.header.systemTxCount, n);
    r := [];
    for i := 0 to n
      invariant i <= k ==> r == [] && gasUsed == 0 && nextLogIndex == 0
      invariant k <= i ==>
        && r == Section(block.transactions, receipts, k, i)
        && gasUsed == GasBefore(receipts, k, i) && nextLogIndex == LogCount(receipts, k, i)
    {
      if i < block.header.systemTxCount {
        continue;
      }
      SectionSnoc(block.transactions, receipts, k, i);
      var receipt := receipts[i];
      r := r + [Convert(block.transactions[i], i - block.header.systemTxCount, receipt,
                        WrapSub(receipt.cumulativeGasUsed, gasUsed), nextLogIndex)];
      gasUsed := receipt.cumulativeGasUsed;
      nextLogIndex := nextLogIndex + |receipt.logs|;
    }
    SectionPresents(block.transactions, receipts, k, n);
  }

  /** `block_receipts_with_system_txs` */
  method BlockReceiptsWithSystemTxs(block: HlBlock, receipts: Receipts)
    returns (regular: seq<RpcReceipt>, system: seq<RpcReceipt>)
    ensures var n := Min(|block.transactions|, |receipts|);
            var k := Min(block.header.systemTxCount, n);
            && regular == Section(block.transactions, receipts, k, n)
            && system == Section(block.transactions, receipts, 0, k)
            && PresentsBlock(regular, block.transactions, receipts, k, n)
            && PresentsBlock(system, block.transactions, receipts, 0, k)
  {
    var regularGasUsed, regularNextLogIndex := 0, 0;
    var systemGasUsed, systemNextLogIndex := 0, 0;
    var n := Min(|block.transactions|, |receipts|);
    ghost var k := Min(block.header.systemTxCount, n);
    regular, system := [], [];
    for i := 0 to n
      invariant var m := Min(i, k);
        && system == Section(block.transactions, receipts, 0, m)
        && systemGasUsed == GasBefore(receipts, 0, m) && systemNextLogIndex == LogCount(receipts, 0, m)
      invariant i <= k ==> regular == [] && regularGasUsed == 0 && regularNextLogIndex == 0
      invariant k <= i ==>
        && regular == Section(block.transactions, receipts, k, i)
        && regularGasUsed == GasBefore(receipts, k, i) && regularNextLogIndex == LogCount(receipts, k, i)
    {
      var tx, receipt := block.transactions[i], receipts[i];
      if i < block.header.systemTxCount {
        SectionSnoc(block.transactions, receipts, 0, i);
        var gasUsed := WrapSub(receipt.cumulativeGasUsed, systemGasUsed);
        system := system + [Convert(tx, i, receipt, gasUsed, systemNextLogIndex)];
        systemGasUsed := receipt.cumulativeGasUsed;
        systemNextLogIndex := systemNextLogIndex + |receipt.logs|;
        continue;
      }
      SectionSnoc(block.transactions, receipts, k, i);
      regular := regular + [Convert(tx, i - block.header.systemTxCount, receipt,
                                    WrapSub(receipt.cumulativeGasUsed, regularGasUsed), regularNextLogIndex)];
      regularGasUsed := receipt.cumulativeGasUsed;
      regularNextLogIndex := regularNextLogIndex + |receipt.logs|;
    }
    SectionPresents(block.transactions, receipts, k, n);
    SectionPresents(block.transactions, receipts, 0, k);
  }

  /** `get_system_txs_receipts_by_block_id`, which stops at the first receipt with gas. */
  method SystemTxsReceipts(block: HlBlock, receipts: Receipts) returns (r: seq<RpcReceipt>)
    ensures |r| <= Min(|block.transactions|, |receipts|)
    ensures r == Section(block.transactions, receipts, 0, |r|)
    ensures PresentsBlock(r, block.transactions, receipts, 0, |r|)
    ensures forall i :: 0 <= i < |r| ==> receipts[i].cumulativeGasUsed == 0
    ensures |r| < Min(|block.transactions|, |receipts|) ==> receipts[|r|].cumulativeGasUsed != 0
  {
    var gasUsed, nextLogIndex := 0, 0;
    r := [];
    for i := 0 to Min(|block.transactions|, |receipts|)
      invariant |r| == i && r == Section(block.transactions, receipts, 0, i)
      invariant gasUsed == GasBefore(receipts, 0, i) && nextLogIndex == LogCount(receipts, 0, i)
      invariant forall j :: 0 <= j < i ==> receipts[j].cumulativeGasUsed == 0
    {
      var receipt := receipts[i];
      if receipt.cumulativeGasUsed != 0 {
        break;
      }
      SectionSnoc(block.transactions, receipts, 0, i);
      r := r + [Convert(block.transactions[i], i, receipt, WrapSub(receipt.cumulativeGasUsed, gasUsed), nextLogIndex)];
      gasUsed := receipt.cumulativeGasUsed;
      nextLogIndex := nextLogIndex + |receipt.logs|;
    }
    SectionPresents(block.transactions, receipts, 0, |r|);
  }

  /** `get_system_txs_by_block_id`, which goes by price. */
  function SystemTxs(txs: seq<NodeTx>, from: nat): seq<RpcTransaction>
    requires from <= |txs|
    decreases |txs| - from
  {
    if from == |txs| then []
    else (if txs[from].IsSystem() then [RpcTransaction(txs[from], Some(from))] else []) + SystemTxs(txs, from + 1)
  }

  /** `adjust_transaction_receipt` for the transaction at `index`. */
  function TransactionReceipt(systemTxCount: nat, blockReceipts: seq<RpcReceipt>, index: nat): Option<RpcReceipt>
  {
    if index < systemTxCount || index - systemTxCount >= |blockReceipts| then None
    else Some(blockReceipts[index - systemTxCount])
  }

  /** `adjust_block` on full transactions; draining past the end panics, shown as `None`. */
  function AdjustBlock(systemTxCount: nat, txs: seq<RpcTransaction>): Option<seq<RpcTransaction>>
    requires systemTxCount < U64
    requires forall tx <- txs :: tx.transactionIndex.Some? ==> tx.transactionIndex.value < U64
  {
    if systemTxCount > |txs| then None
    else
      var rest := txs[systemTxCount..];
      Some(seq(|rest|, i requires 0 <= i < |rest| =>
                 if rest[i].transactionIndex.None? then rest[i]
                 else rest[i].(transactionIndex := Some(WrapSub(rest[i].transactionIndex.value, systemTxCount)))))
  }

  // What is served unfiltered -------------------------------------------------------------------

  function ServedTxs(txs: seq<NodeTx>): seq<RpcTransaction>
  {
    seq(|txs|, i requires 0 <= i < |txs| => RpcTransaction(txs[i], Some(i)))
  }

  /** Log `j` of transaction `i`, numbered over the whole block. */
  function ServedLog(receipts: seq<EthereumReceipt>, i: nat, j: nat): RpcLog
    requires i < |receipts| && j < |receipts[i].logs|
  {
    RpcLog(Some(i), Some(LogCount(receipts, 0, i) + j), receipts[i].logs[j])
  }

  /** Its number is its position among all logs of the block. */
  lemma ServedByPosition(receipts: seq<EthereumReceipt>, i: nat, j: nat)
    requires i < |receipts| && j < |receipts[i].logs|
    ensures
      var log, before := ServedLog(receipts, i, j), |AllLogs(receipts[..i])|;
      && log.transactionIndex == Some(i) && log.logIndex == Some(before + j)
      && before + j < |AllLogs(receipts)| && AllLogs(receipts)[before + j] == log.log == receipts[i].logs[j]
  {
    LogCountIs(receipts, 0, i);
    assert receipts[0..i] == receipts[..i];
    assert receipts == receipts[..i] + ([receipts[i]] + receipts[i + 1..]);
    LogsOfParts(receipts[..i], [receipts[i]] + receipts[i + 1..]);
    LogsOfParts([receipts[i]], receipts[i + 1..]);
    LogsOfOne(receipts[i]);
  }

  // Agreement -----------------------------------------------------------------------------------

  lemma {:induction false} LogCountSplits(receipts: seq<EthereumReceipt>, from: nat, mid: nat, until: nat)
    requires from <= mid <= until <= |receipts|
    ensures LogCount(receipts, from, until) == LogCount(receipts, from, mid) + LogCount(receipts, mid, until)
    decreases until
  {
    if mid < until {
      LogCountSplits(receipts, from, mid, until - 1);
    }
  }

  lemma {:induction false} ZeroGasLogsArePrefix(receipts: seq<EthereumReceipt>, k: nat, n: nat)
    requires n <= |receipts|
    requires forall i :: 0 <= i < n ==> (receipts[i].cumulativeGasUsed == 0 <==> i < k)
    ensures ZeroGasLogs(receipts[..n]) == LogCount(receipts, 0, Min(k, n))
  {
    if n > 0 {
      ZeroGasLogsArePrefix(receipts, k, n - 1);
      assert receipts[..n] == receipts[..n - 1] + [receipts[n - 1]];
      CountSnoc(receipts[..n - 1], receipts[n - 1]);
    }
  }

  /** The numbers `adjust_log` takes off are those of the system prefix. */
  lemma SystemCounts(block: HlBlock, receipts: seq<EthereumReceipt>)
    requires WellFormed(block, receipts)
    ensures Recount(receipts) == block.header.systemTxCount
    ensures ZeroGasLogs(receipts) == LogCount(receipts, 0, block.header.systemTxCount)
  {
    CountsAgree(block, receipts);
    ZeroGasLogsArePrefix(receipts, block.header.systemTxCount, |receipts|);
    assert receipts[..|receipts|] == receipts;
  }

  /** Receipt `m` of a list shows `log` as its log number `j`. */
  predicate Shows(receipts: seq<RpcReceipt>, m: nat, j: nat, log: RpcLog)
  {
    m < |receipts| && j < |receipts[m].logs| && receipts[m].logs[j] == log
  }

  lemma EntryLog(txs: seq<NodeTx>, receipts: Receipts, k: nat, i: nat, j: nat)
    requires k <= i < |receipts| == |txs| && j < |receipts[i].logs|
    ensures var e := Entry(txs, receipts, k, i);
            && |e.logs| == |receipts[i].logs|
            && e.logs[j] == RpcLog(Some(i - k), Some(LogCount(receipts, k, i) + j), receipts[i].logs[j])
  {
  }

  lemma VisibleLog(txs: seq<NodeTx>, receipts: Receipts, k: nat, i: nat, j: nat)
    requires k <= i < |receipts| == |txs| && j < |receipts[i].logs|
    ensures Shows(Section(txs, receipts, k, |receipts|), i - k, j,
                  RpcLog(Some(i - k), Some(LogCount(receipts, k, i) + j), receipts[i].logs[j]))
  {
    EntryLog(txs, receipts, k, i, j);
    var r := Section(txs, receipts, k, |receipts|);
    assert k + (i - k) == i;
    assert r[i - k] == Entry(txs, receipts, k, i);
  }

  lemma LogIndexFits(receipts: seq<EthereumReceipt>, i: nat, j: nat)
    requires i < |receipts| && j < |receipts[i].logs|
    ensures LogCount(receipts, 0, i) + j < LogCount(receipts, 0, |receipts|)
  {
    LogCountSplits(receipts, 0, i + 1, |receipts|);
  }

  lemma LogIndexDrops(receipts: seq<EthereumReceipt>, k: nat, i: nat, j: nat)
    requires k <= i < |receipts| && LogCount(receipts, 0, i) + j < U64 && LogCount(receipts, 0, k) < U64
    ensures WrapSub(LogCount(receipts, 0, i) + j, LogCount(receipts, 0, k)) == LogCount(receipts, k, i) + j
  {
    LogCountSplits(receipts, 0, k, i);
    SubtractPart(LogCount(receipts, 0, i), LogCount(receipts, 0, k), LogCount(receipts, k, i), j);
  }

  lemma SubtractPart(whole: nat, first: nat, second: nat, j: nat)
    requires whole == first + second && whole + j < U64
    ensures WrapSub(whole + j, first) == second + j
  {
  }

  lemma AdjustedAt(receipts: seq<EthereumReceipt>, k: nat, i: nat, j: nat)
    requires i < |receipts| && j < |receipts[i].logs| && k <= |receipts|
    requires Recount(receipts) == k && ZeroGasLogs(receipts) == LogCount(receipts, 0, k)
    requires LogCount(receipts, 0, |receipts|) < U64
    ensures ServedLog(receipts, i, j).logIndex.value < U64 && ZeroGasLogs(receipts) < U64
    ensures AdjustedLog(ServedLog(receipts, i, j), Some(receipts)) ==
            if i < k then None
            else Some(RpcLog(Some(i - k), Some(LogCount(receipts, k, i) + j), receipts[i].logs[j]))
  {
    LogIndexFits(receipts, i, j);
    LogCountSplits(receipts, 0, k, |receipts|);
    if i >= k {
      LogIndexDrops(receipts, k, i, j);
    }
  }

  /** A filtered log is one of the visible ones, and carries its position among them. */
  ghost predicate ShownOrHidden(
    adjusted: Option<RpcLog>, visible: seq<RpcReceipt>, receipts: seq<EthereumReceipt>, k: nat, i: nat, j: nat)
    requires i < |receipts| && j < |receipts[i].logs|
  {
    match adjusted
    case None => i < k
    case Some(log) =>
      && k <= i && log == RpcLog(Some(i - k), Some(|AllLogs(receipts[k..i])| + j), receipts[i].logs[j])
      && Shows(visible, i - k, j, log)
  }

  lemma AdjustedShows(txs: seq<NodeTx>, receipts: Receipts, k: nat, i: nat, j: nat)
    requires i < |receipts| == |txs| && j < |receipts[i].logs| && k <= |receipts|
    requires Recount(receipts) == k && ZeroGasLogs(receipts) == LogCount(receipts, 0, k)
    requires LogCount(receipts, 0, |receipts|) < U64
    ensures ServedLog(receipts, i, j).logIndex.value < U64 && ZeroGasLogs(receipts) < U64
    ensures ShownOrHidden(AdjustedLog(ServedLog(receipts, i, j), Some(receipts)),
                          Section(txs, receipts, k, |receipts|), receipts, k, i, j)
  {
    AdjustedAt(receipts, k, i, j);
    if i >= k {
      VisibleLog(txs, receipts, k, i, j);
      LogCountIs(receipts, k, i);
    }
  }

  /**
   Filtered logs and block receipts agree: a log of a system transaction is dropped, and any other
   log comes out exactly as it stands in its transaction's compliant receipt, numbered by its position
   among the logs of the visible transactions.
   */
  lemma LogsMatchReceipts(block: HlBlock, receipts: Receipts, i: nat, j: nat)
    requires WellFormed(block, receipts) && |AllLogs(receipts)| < U64
    requires i < |receipts| && j < |receipts[i].logs|
    ensures ServedLog(receipts, i, j).logIndex.value < U64 && ZeroGasLogs(receipts) < U64
    ensures var k := block.header.systemTxCount;
            ShownOrHidden(AdjustedLog(ServedLog(receipts, i, j), Some(receipts)),
                          Section(block.transactions, receipts, k, |receipts|), receipts, k, i, j)
  {
    SystemCounts(block, receipts);
    LogCountIs(receipts, 0, |receipts|);
    assert receipts[0..|receipts|] == receipts;
    AdjustedShows(block.transactions, receipts, block.header.systemTxCount, i, j);
  }

  /**
   Block bodies, transaction counts and receipts agree: the bodies lose exactly the system prefix,
   and transaction `i` gets index `i - k` in the body, in the block's receipts and in its own.
   */
  lemma BodiesMatchReceipts(block: HlBlock, receipts: Receipts, i: nat)
    requires WellFormed(block, receipts) && i < |receipts|
    ensures var k := block.header.systemTxCount;
            var visible := Section(block.transactions, receipts, k, |receipts|);
            var body := AdjustBlock(k, ServedTxs(block.transactions));
            && body.Some? && |body.value| == |visible| == WrapSub(|block.transactions|, k)
            && if i < k then TransactionReceipt(k, visible, i) == None
               else && body.value[i - k] == RpcTransaction(block.transactions[i], Some(i - k))
                    && TransactionReceipt(k, visible, i) == Some(visible[i - k])
                    && visible[i - k].tx == block.transactions[i] && visible[i - k].index == i - k
  {
    var k := block.header.systemTxCount;
  }

  function GasSum(receipts: seq<RpcReceipt>): nat
  {
    if receipts == [] then 0 else GasSum(receipts[..|receipts| - 1]) + receipts[|receipts| - 1].gasUsed
  }

  /** Receipt `i`'s share of the gas, exactly: cumulative gas does not fall, so nothing wraps. */
  lemma VisibleGas(block: HlBlock, receipts: Receipts, i: nat)
    requires WellFormed(block, receipts) && block.header.systemTxCount <= i < |receipts|
    ensures var k := block.header.systemTxCount;
            Section(block.transactions, receipts, k, i + 1)[i - k].gasUsed ==
            receipts[i].cumulativeGasUsed - (if i == 0 then 0 else receipts[i - 1].cumulativeGasUsed)
  {
    assert i > 0 ==> receipts[i - 1].cumulativeGasUsed <= receipts[i].cumulativeGasUsed;
  }

  /** Gas per receipt telescopes: the first receipts together used their cumulative gas. */
  lemma {:induction false} GasTelescopes(block: HlBlock, receipts: Receipts, until: nat)
    requires WellFormed(block, receipts) && block.header.systemTxCount <= until <= |receipts|
    ensures GasSum(Section(block.transactions, receipts, block.header.systemTxCount, until)) ==
            if until == 0 then 0 else receipts[until - 1].cumulativeGasUsed
    decreases until
  {
    var k := block.header.systemTxCount;
    if until > k {
      GasTelescopes(block, receipts, until - 1);
      VisibleGas(block, receipts, until - 1);
      var visible := Section(block.transactions, receipts, k, until);
      assert visible[..|visible| - 1] == Section(block.transactions, receipts, k, until - 1);
    }
  }

  /** The system half agrees as well: by price, by zero gas and by header count it is one list. */
  lemma SystemPathsMatch(block: HlBlock, receipts: Receipts, r: seq<RpcReceipt>)
    requires WellFormed(block, receipts)
    requires |r| <= |receipts| && r == Section(block.transactions, receipts, 0, |r|)
    requires forall i :: 0 <= i < |r| ==> receipts[i].cumulativeGasUsed == 0
    requires |r| < |receipts| ==> receipts[|r|].cumulativeGasUsed != 0
    ensures r == Section(block.transactions, receipts, 0, block.header.systemTxCount)
    ensures SystemTxs(block.transactions, 0) == ServedTxs(block.transactions)[..block.header.systemTxCount]
  {
    assert |r| == block.header.systemTxCount by {
      assert |r| > 0 ==> receipts[|r| - 1].cumulativeGasUsed == 0;
    }
    SystemTxsFrom(block, receipts, 0);
  }

  lemma {:induction false} SystemTxsFrom(block: HlBlock, receipts: Receipts, from: nat)
    requires WellFormed(block, receipts) && from <= |block.transactions|
    ensures var k := block.header.systemTxCount;
            SystemTxs(block.transactions, from) ==
            if from <= k then ServedTxs(block.transactions)[from..k] else []
    decreases |block.transactions| - from
  {
    if from < |block.transactions| {
      SystemTxsFrom(block, receipts, from + 1);
    }
  }

  /**
   Why the three tests have to agree: the log path and the receipt path give a visible log the same
   transaction index exactly when the zero-gas receipts are as many as the header says.
   */
  lemma IndexAgreesIffCountsAgree(k: nat, receipts: seq<EthereumReceipt>, i: nat, j: nat)
    requires k <= i < |receipts| && j < |receipts[i].logs|
    requires ServedLog(receipts, i, j).logIndex.value < U64 && ZeroGasLogs(receipts) < U64
    ensures var adjusted := AdjustedLog(ServedLog(receipts, i, j), Some(receipts));
            adjusted.Some? && adjusted.value.transactionIndex == Some(i - k) <==> Recount(receipts) == k
  {
  }
}
