/**
 `eth_estimateGas`: run once at the top, guess, then bisect. The EVM is a function from gas limit to
 outcome, since estimation commits nothing. The error ratio is taken as the exact rational 15/1000.
 */
module GasEstimate {
  import opened Common

  const MIN_TRANSACTION_GAS: nat := 21_000
  const CALL_STIPEND_GAS: nat := 2_300
  const ERROR_RATIO_PER_MILLE: nat := 15

  /** What a run at some gas limit comes to. The last three are not executions. */
  datatype Run =
    | Success(gasUsed: nat, gasRefunded: nat)
    | Revert(gasUsed: nat)
    | OutOfGas(gasUsed: nat)
    | OtherHalt(gasUsed: nat)
    | GasTooHigh
    | GasTooLow
    | Failed

  type Evm = nat -> Run

  predicate Succeeds(evm: Evm, limit: nat) { evm(limit).Success? }

  datatype EstimateError =
    | GasRequiredExceedsAllowance(limit: nat)
    | RetriedAtMaximum         // `map_out_of_gas_err`, which always reports an error
    | Reverted
    | Halted(limit: nat)
    | EvmError

  datatype Estimate = Gas(limit: nat) | Err(error: EstimateError)

  /** Everything about the request that decides the bounds. */
  datatype Request = Request(
    gasLimit: Option<nat>,   // `gas` of the request
    priced: bool,            // `gasPrice` of the request is set
    txGasLimit: nat,         // limit of the transaction built from it
    blockGasLimit: nat,
    txGasLimitCap: Option<nat>,
    allowance: Option<nat>,  // what the caller can pay for, if the price is not zero
    basicTransfer: bool)

  function MaxGasLimit(q: Request): nat
  {
    if q.txGasLimitCap.Some? then Min(q.txGasLimitCap.value, q.blockGasLimit) else q.blockGasLimit
  }

  /** A limit the request, the transaction, the block, the chain and the caller's balance all allow. */
  ghost predicate WithinCaps(q: Request, g: nat)
  {
    && g <= q.blockGasLimit && g <= q.txGasLimit
    && (q.gasLimit.Some? ==> g <= q.gasLimit.value)
    && (q.txGasLimitCap.Some? ==> g <= q.txGasLimitCap.value)
    && (q.allowance.Some? ==> g <= q.allowance.value)
  }

  /** The limit of the first run: the highest that is allowed. */
  function Top(q: Request): (top: nat)
    ensures WithinCaps(q, top) && forall g: nat :: WithinCaps(q, g) ==> g <= top
  {
    var highest := if q.gasLimit.Some? then Min(q.gasLimit.value, MaxGasLimit(q)) else MaxGasLimit(q);
    var capped := if q.allowance.Some? then Min(highest, q.allowance.value) else highest;
    Min(q.txGasLimit, capped)
  }

  /** How a first run that does not succeed is reported. */
  function FirstError(q: Request, run: Run): EstimateError
    requires !run.Success?
  {
    var asked := q.gasLimit.Some? || q.priced;
    match run
    case GasTooHigh => if asked then RetriedAtMaximum else EvmError
    case GasTooLow => GasRequiredExceedsAllowance(Top(q))
    case Failed => EvmError
    case OutOfGas(_) => Halted(Top(q))
    case OtherHalt(_) => Halted(Top(q))
    case Revert(_) => if asked then RetriedAtMaximum else Reverted
  }

  /** Which first run is reported as what. */
  lemma FirstErrorIs(q: Request, run: Run)
    requires !run.Success?
    ensures
      var error, asked := FirstError(q, run), q.gasLimit.Some? || q.priced;
      && (error.RetriedAtMaximum? <==> asked && (run.GasTooHigh? || run.Revert?))
      && (error.Reverted? <==> !asked && run.Revert?)
      && (error.EvmError? <==> run.Failed? || (!asked && run.GasTooHigh?))
      && (error.GasRequiredExceedsAllowance? <==> run.GasTooLow?)
      && (error.Halted? <==> run.OutOfGas? || run.OtherHalt?)
      && (error.GasRequiredExceedsAllowance? || error.Halted? ==>
            WithinCaps(q, error.limit) && !WithinCaps(q, error.limit + 1))
  {
  }

  function Optimistic(run: Run): nat
    requires run.Success?
  {
    ((run.gasUsed + run.gasRefunded + CALL_STIPEND_GAS) * 64) % U64 / 63
  }

  /**
   The guess is what the call used and got refunded, and the stipend, scaled so that 63 parts in 64 of it
   are that much; the product is a `u64` and may wrap around.
   */
  lemma OptimisticIs(run: Run)
    requires run.Success?
    ensures
      var needed, guess := run.gasUsed + run.gasRefunded + 2_300, Optimistic(run);
      && 63 * guess < U64
      && (64 * needed < U64 ==> 63 * guess <= 64 * needed < 63 * (guess + 1))
  {
  }

  /** The plain-transfer shortcut applies. */
  ghost predicate Shortcut(q: Request, evm: Evm)
  {
    q.basicTransfer && Succeeds(evm, MIN_TRANSACTION_GAS)
  }

  // What the search relies on -------------------------------------------------------------------

  /** More gas never turns success into failure. */
  ghost predicate Monotone(evm: Evm)
  {
    forall a: nat, b: nat :: a <= b && Succeeds(evm, a) && !evm(b).GasTooHigh? ==> Succeeds(evm, b)
  }

  /** No limit below what the first run used, and no limit of zero, is enough. */
  ghost predicate NeedsWhatItUses(evm: Evm, top: nat)
  {
    evm(top).Success? ==> forall g: nat :: Succeeds(evm, g) ==> g >= Max(1, evm(top).gasUsed)
  }

  ghost predicate TooHighIsUpwardClosed(evm: Evm)
  {
    forall a: nat, b: nat :: a <= b && evm(a).GasTooHigh? ==> evm(b).GasTooHigh?
  }

  ghost predicate Regular(evm: Evm, top: nat)
  {
    Monotone(evm) && NeedsWhatItUses(evm, top) && TooHighIsUpwardClosed(evm)
  }

  /** Every limit up to `top` gets an execution or a "too low", and the guess an execution. */
  ghost predicate Conclusive(evm: Evm, top: nat)
  {
    && (forall g: nat :: g <= top ==> !evm(g).OtherHalt? && !evm(g).Failed?)
    && (evm(top).Success? ==> !evm(Optimistic(evm(top))).GasTooLow?)
  }

  /** `limit` is the least that succeeds, or some failing limit is within the error ratio of it. */
  ghost predicate Tight(evm: Evm, limit: nat)
  {
    exists low: nat :: low < limit && !Succeeds(evm, low) &&
      (low + 1 == limit || 1000 * (limit - low) < ERROR_RATIO_PER_MILLE * limit)
  }

  /** The bounds the search keeps: a limit that fails below one that succeeds. */
  ghost predicate Bracket(evm: Evm, low: nat, high: nat)
  {
    low < high && !Succeeds(evm, low) && Succeeds(evm, high)
  }

  function Below(gasUsed: nat): nat { if gasUsed == 0 then 0 else gasUsed - 1 }

  lemma FirstBracket(evm: Evm, top: nat)
    requires Regular(evm, top) && Succeeds(evm, top)
    ensures Bracket(evm, Below(evm(top).gasUsed), top)
    ensures Below(evm(top).gasUsed) + 1 == Max(1, evm(top).gasUsed)
  {
  }

  /** Any limit below the upper bound narrows a bracket to another one, even from outside of it. */
  lemma Narrow(evm: Evm, top: nat, low: nat, high: nat, g: nat)
    requires Regular(evm, top) && Bracket(evm, low, high) && g < high
    ensures !evm(g).GasTooHigh?
    ensures if Succeeds(evm, g) then Bracket(evm, low, g) else Bracket(evm, g, high)
  {
    assert !evm(high).GasTooHigh? && !evm(g).GasTooHigh? && !evm(low).GasTooHigh?;
  }

  /** After a first run that succeeded, a probe at `g` ends the search with this error. */
  ghost predicate Explains(evm: Evm, top: nat, g: nat, error: EstimateError)
  {
    match evm(g)
    case OtherHalt(_) => error == Halted(g)
    case Failed => error == EvmError
    case GasTooHigh => error == EvmError && evm(top).Success? && g == Optimistic(evm(top))
    case GasTooLow => error == EvmError && evm(top).Success? && g == Optimistic(evm(top))
    case _ => false
  }

  ghost predicate Explained(evm: Evm, top: nat, error: EstimateError)
  {
    exists g: nat :: g < top && Explains(evm, top, g, error)
  }

  // The search ----------------------------------------------------------------------------------

  method EstimateGas(q: Request, evm: Evm) returns (r: Estimate)
    ensures Shortcut(q, evm) ==> r == Gas(MIN_TRANSACTION_GAS)
    ensures !Shortcut(q, evm) && !Succeeds(evm, Top(q)) ==> r == Err(FirstError(q, evm(Top(q))))
    ensures !Shortcut(q, evm) && r.Gas? ==>
      && r.limit <= Top(q)
      && Succeeds(evm, Top(q))
      && (TooHighIsUpwardClosed(evm) ==> Succeeds(evm, r.limit))
      && (Regular(evm, Top(q)) ==> Tight(evm, r.limit))
      && (Optimistic(evm(Top(q))) < Top(q) && Succeeds(evm, Optimistic(evm(Top(q)))) ==>
            r.limit <= Optimistic(evm(Top(q))))
    ensures !Shortcut(q, evm) && Regular(evm, Top(q)) && Conclusive(evm, Top(q)) ==>
      (r.Gas? <==> !evm(Top(q)).GasTooHigh? && exists g: nat :: WithinCaps(q, g) && Succeeds(evm, g))
    ensures !Shortcut(q, evm) && Succeeds(evm, Top(q)) && r.Err? ==>
      Explained(evm, Top(q), r.error)
  {
    var top := Top(q);
    if q.basicTransfer {
      var min := evm(MIN_TRANSACTION_GAS);
      if min.Success? {
        return Gas(MIN_TRANSACTION_GAS);
      }
    }

    var run := evm(top);
    if !run.Success? {
      return Err(FirstError(q, run));
    }

    var highest: nat := top;
    var gasUsed := run.gasUsed;
    var lowest: nat := Below(gasUsed);
    ghost var regular := Regular(evm, top);
    if regular {
      FirstBracket(evm, top);
    }

    var optimistic := Optimistic(run);
    if optimistic < highest {
      if regular {
        Narrow(evm, top, lowest, highest, optimistic);
      }
      run := evm(optimistic);
      if run.GasTooHigh? || run.GasTooLow? || run.Failed? {
        assert Explains(evm, top, optimistic, EvmError);
        return Err(EvmError);
      }
      gasUsed := run.gasUsed;
      match run
      case Success(_, _) => highest := optimistic;
      case Revert(_) => lowest := optimistic;
      case OutOfGas(_) => lowest := optimistic;
      case OtherHalt(_) =>
        assert Explains(evm, top, optimistic, Halted(optimistic));
        return Err(Halted(optimistic));
    }

    r := Bisect(evm, top, lowest, highest, Min(gasUsed * 3 % U64, (highest + lowest) / 2));
  }

  /** The loop of the binary search, with its first probe at `start`. */
  method Bisect(evm: Evm, top: nat, low: nat, high: nat, start: nat) returns (r: Estimate)
    requires high <= top && start <= (high + low) / 2
    requires Regular(evm, top) ==> Bracket(evm, low, high)
    requires TooHighIsUpwardClosed(evm) ==> Succeeds(evm, high)
    ensures r.Gas? ==>
      && r.limit <= high
      && (TooHighIsUpwardClosed(evm) ==> Succeeds(evm, r.limit))
      && (Regular(evm, top) ==> Tight(evm, r.limit))
    ensures r.Err? ==> Explained(evm, top, r.error) && !Conclusive(evm, top)
  {
    var lowest: nat, highest: nat, mid: nat := low, high, start;
    ghost var first := true;
    while lowest + 1 < highest
      invariant highest <= high
      invariant TooHighIsUpwardClosed(evm) ==> Succeeds(evm, highest)
      invariant Regular(evm, top) ==> Bracket(evm, lowest, highest)
      invariant if first then mid <= (highest + lowest) / 2 else mid == (highest + lowest) / 2
      decreases first, highest - lowest
    {
      if 1000 * (highest - lowest) < ERROR_RATIO_PER_MILLE * highest {
        break;
      }
      if Regular(evm, top) {
        Narrow(evm, top, lowest, highest, mid);
      }
      var run := evm(mid);
      match run {
        case GasTooHigh => highest := mid;
        case GasTooLow => lowest := mid;
        case Success(_, _) => highest := mid;
        case Revert(_) => lowest := mid;
        case OutOfGas(_) => lowest := mid;
        case OtherHalt(_) =>
          assert Explains(evm, top, mid, Halted(mid));
          return Err(Halted(mid));
        case Failed =>
          assert Explains(evm, top, mid, EvmError);
          return Err(EvmError);
      }
      mid := (highest + lowest) / 2;
      first := false;
    }
    return Gas(highest);
  }

  /** Where the two bounds met, the estimate is the least successful limit of all. */
  lemma MeetingBoundsAreMinimal(evm: Evm, limit: nat, g: nat)
    requires Monotone(evm) && TooHighIsUpwardClosed(evm)
    requires limit > 0 && Succeeds(evm, limit) && !Succeeds(evm, limit - 1)
    requires Succeeds(evm, g)
    ensures limit <= g
  {
  }

  /** A tight limit is less than 1.6 percent above the least successful one. */
  lemma TightIsNearMinimal(evm: Evm, limit: nat, least: nat)
    requires Monotone(evm) && TooHighIsUpwardClosed(evm)
    requires Succeeds(evm, limit) && Tight(evm, limit)
    requires Succeeds(evm, least) && forall g: nat :: Succeeds(evm, g) ==> least <= g
    ensures least <= limit
    ensures limit == least || 1000 * (limit - least) < ERROR_RATIO_PER_MILLE * limit
  {
    var low: nat :| low < limit && !Succeeds(evm, low) &&
      (low + 1 == limit || 1000 * (limit - low) < ERROR_RATIO_PER_MILLE * limit);
    assert low < least;
  }
}
