/** How `eth_simulateV1` splits the block gas limit over calls that name no limit of their own. */
module Simulation {
  import opened Common
  import opened BlockConversion
  import opened BlockExecution

  /** The gas limits the calls of one simulated block ask for, if any. */
  type Calls = seq<Option<nat>>

  function Specified(calls: Calls): nat
  {
    if calls == [] then 0 else (if calls[0].Some? then calls[0].value else 0) + Specified(calls[1..])
  }

  function Missing(calls: Calls): nat
  {
    if calls == [] then 0 else (if calls[0].None? then 1 else 0) + Missing(calls[1..])
  }

  /** The default limit; `None` reports "block gas limit exceeded". The sum is a wrapping `u64` sum. */
  function DefaultGasLimit(blockGasLimit: nat, calls: Calls): Option<nat>
    requires blockGasLimit < U64
  {
    var total := Specified(calls) % U64;
    if total > blockGasLimit then None
    else if Missing(calls) > 0 then Some((blockGasLimit - total) / Missing(calls))
    else Some(0)
  }

  function Granted(call: Option<nat>, default: nat): nat
  {
    if call.Some? then call.value else default
  }

  function TotalGranted(calls: Calls, default: nat): nat
  {
    if calls == [] then 0 else Granted(calls[0], default) + TotalGranted(calls[1..], default)
  }

  lemma {:induction false} TotalGrantedValue(calls: Calls, default: nat)
    ensures TotalGranted(calls, default) == Specified(calls) + Missing(calls) * default
  {
    if calls != [] {
      TotalGrantedValue(calls[1..], default);
      assert (1 + Missing(calls[1..])) * default == default + Missing(calls[1..]) * default;
    }
  }

  lemma ShareFits(room: nat, n: nat)
    requires n > 0
    ensures n * (room / n) <= room
  {
  }

  /** An accepted split grants at most the block limit in total, unless the `u64` sum overflowed. */
  lemma SplitFits(blockGasLimit: nat, calls: Calls)
    requires blockGasLimit < U64 && DefaultGasLimit(blockGasLimit, calls).Some?
    ensures TotalGranted(calls, DefaultGasLimit(blockGasLimit, calls).value) <= blockGasLimit
       <==> Specified(calls) < U64
  {
    var default := DefaultGasLimit(blockGasLimit, calls).value;
    TotalGrantedValue(calls, default);
    if Specified(calls) < U64 {
      if Missing(calls) > 0 {
        ShareFits(blockGasLimit - Specified(calls), Missing(calls));
      }
    }
  }

  /** The guard refuses exactly if the limits asked for, summed modulo 2^64, exceed that of the block. */
  lemma RefusedIff(blockGasLimit: nat, calls: Calls)
    requires blockGasLimit < U64
    ensures DefaultGasLimit(blockGasLimit, calls).None? <==> TotalGranted(calls, 0) % U64 > blockGasLimit
  {
    TotalGrantedValue(calls, 0);
  }

  lemma {:induction false} NothingMissing(calls: Calls)
    ensures Missing(calls) == 0 <==> forall i :: 0 <= i < |calls| ==> calls[i].Some?
  {
    if calls != [] {
      NothingMissing(calls[1..]);
      assert forall i :: 1 <= i < |calls| ==> calls[i] == calls[1..][i - 1];
    }
  }

  /** The share is the largest that fits: one unit more for each call without a limit would be too much. */
  lemma ShareIsMaximal(blockGasLimit: nat, calls: Calls, i: nat)
    requires blockGasLimit < U64 && DefaultGasLimit(blockGasLimit, calls).Some?
    requires i < |calls| && calls[i].None?
    ensures TotalGranted(calls, DefaultGasLimit(blockGasLimit, calls).value + 1) > blockGasLimit
  {
    var default, n := DefaultGasLimit(blockGasLimit, calls).value, Missing(calls);
    NothingMissing(calls);
    TotalGrantedValue(calls, default + 1);
    MoreIsTooMuch(blockGasLimit - Specified(calls) % U64, n);
  }

  lemma MoreIsTooMuch(room: nat, n: nat)
    requires n > 0
    ensures n * (room / n + 1) > room
  {
  }

  /** `work` executes `calls` with the granted limits. */
  ghost predicate Simulates(work: seq<Work>, calls: Calls, default: nat)
  {
    && |work| == |calls|
    && forall i :: 0 <= i < |work| ==> work[i].tx.GasLimit() == Granted(calls[i], default)
  }

  lemma {:induction false} EnoughGas(gasLimit: nat, p: Progress, work: seq<Work>, calls: Calls, default: nat)
    requires gasLimit < U64 && p.gasUsed <= gasLimit && Bounded(work) && Simulates(work, calls, default)
    requires p.gasUsed + TotalGranted(calls, default) <= gasLimit
    ensures Execute(gasLimit, p, work).Some?
    decreases |work|
  {
    if work != [] {
      assert work[0] in work;
      EnoughGas(gasLimit, Commit(p, work[0]), work[1..], calls[1..], default);
    }
  }

  /** Ordinary calls that burn all they are granted. */
  function Greedy(calls: Calls, default: nat): (work: seq<Work>)
    ensures Simulates(work, calls, default) && Bounded(work)
  {
    if calls == [] then []
    else
      var limit := Granted(calls[0], default);
      [Work(Signed1559(TxFeeCap(limit, 0), Signature(0, 0, false)), Outcome(true, limit, []))]
      + Greedy(calls[1..], default)
  }

  lemma GreedyStep(calls: Calls, default: nat)
    requires calls != []
    ensures
      var work, limit := Greedy(calls, default), Granted(calls[0], default);
      && work[1..] == Greedy(calls[1..], default)
      && work[0] == Work(Signed1559(TxFeeCap(limit, 0), Signature(0, 0, false)), Outcome(true, limit, []))
  {
  }

  /** A transaction that fits and burns its whole limit leaves the block within its own. */
  lemma ChargedInFull(gasLimit: nat, p: Progress, w: Work)
    requires gasLimit < U64 && p.gasUsed <= gasLimit && Fits(gasLimit, p, w.tx)
    requires !w.tx.IsSystem() && w.outcome.gasUsed == w.tx.GasLimit()
    ensures Commit(p, w).gasUsed == p.gasUsed + w.tx.GasLimit() <= gasLimit
  {
  }

  lemma {:induction false} GreedyUsesAll(gasLimit: nat, p: Progress, calls: Calls, default: nat)
    requires gasLimit < U64 && p.gasUsed <= gasLimit
    requires Execute(gasLimit, p, Greedy(calls, default)).Some?
    ensures p.gasUsed + TotalGranted(calls, default) <= gasLimit
    decreases |calls|
  {
    if calls != [] {
      var w := Greedy(calls, default)[0];
      GreedyStep(calls, default);
      ChargedInFull(gasLimit, p, w);
      GreedyUsesAll(gasLimit, Commit(p, w), calls[1..], default);
    }
  }

  /** Whatever the EVM does within the granted limits, every call gets to run. */
  ghost predicate NeverRejected(gasLimit: nat, calls: Calls, default: nat)
    requires gasLimit < U64
  {
    forall work: seq<Work> :: Simulates(work, calls, default) && Bounded(work) ==>
      Execute(gasLimit, Progress(0, []), work).Some?
  }

  /**
   No simulated call is ever turned away for want of block gas, whatever the EVM does with it, if
   and only if the specified limits do not overflow 64 bits when summed.
   */
  lemma NoCallIsRejected(blockGasLimit: nat, calls: Calls)
    requires blockGasLimit < U64 && DefaultGasLimit(blockGasLimit, calls).Some?
    ensures var default := DefaultGasLimit(blockGasLimit, calls).value;
            NeverRejected(blockGasLimit, calls, default) <==> Specified(calls) < U64
  {
    var default := DefaultGasLimit(blockGasLimit, calls).value;
    SplitFits(blockGasLimit, calls);
    if Specified(calls) < U64 {
      forall work: seq<Work> | Simulates(work, calls, default) && Bounded(work)
        ensures Execute(blockGasLimit, Progress(0, []), work).Some?
      {
        EnoughGas(blockGasLimit, Progress(0, []), work, calls, default);
      }
    } else {
      var work := Greedy(calls, default);
      assert Simulates(work, calls, default) && Bounded(work);
      if Execute(blockGasLimit, Progress(0, []), work).Some? {
        GreedyUsesAll(blockGasLimit, Progress(0, []), calls, default);
        assert false;
      }
    }
  }

  /**
   Two calls of 2^63 gas each wrap to a total of zero and pass the guard of any block. The block then
   rejects the first of them if its limit is below 2^63, and the second otherwise.
   */
  lemma OverflowSlipsThrough(blockGasLimit: nat)
    requires 0 < blockGasLimit < U64
    ensures
      var calls: Calls := [Some(0x8000_0000_0000_0000), Some(0x8000_0000_0000_0000)];
      var work := Greedy(calls, 0);
      && DefaultGasLimit(blockGasLimit, calls) == Some(0)
      && Execute(blockGasLimit, Progress(0, []), work).None?
      && (Fits(blockGasLimit, Progress(0, []), work[0].tx) <==> blockGasLimit >= 0x8000_0000_0000_0000)
  {
    var calls: Calls := [Some(0x8000_0000_0000_0000), Some(0x8000_0000_0000_0000)];
    assert Specified(calls) == U64 && Missing(calls) == 0;
    TotalGrantedValue(calls, 0);
    if Execute(blockGasLimit, Progress(0, []), Greedy(calls, 0)).Some? {
      GreedyUsesAll(blockGasLimit, Progress(0, []), calls, 0);
      assert false;
    }
  }
}
