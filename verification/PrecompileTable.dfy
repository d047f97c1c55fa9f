/**
 Installing the read precompiles of a block into an EVM. A precompile is represented by what its
 closure captures; `Run` is calling it.
 */
module PrecompileTable {
  import opened Common
  import opened SenderCodec

  const WARM_PRECOMPILES_BLOCK_NUMBER: nat := 8_197_684
  const LOWEST_ADDRESS: Address := 0x800
  const HIGHEST_READ_ADDRESS: Address := 0x8ff
  const DEFAULT_HIGHEST_ADDRESS: Address := 0x80D

  datatype Input = Input(data: Bytes, gasLimit: nat)

  datatype Result = Ok(gasUsed: nat, bytes: Bytes) | OutOfGas | Error | UnexpectedError

  /** One `(address, calls)` element of a block's recorded calls. */
  datatype Recording = Recording(address: Address, calls: seq<(Input, Result)>)

  /** A forwarder together with the head hash it is scoped to. */
  type Forwarder = Option<U256>

  datatype Extras = Extras(recorded: seq<Recording>, highest: Option<Address>)

  datatype Precompile =
    | Recorded(calls: map<Input, Result>, address: Address, forwarder: Forwarder, block: nat)
    | Unrecorded(address: Address, forwarder: Forwarder, block: nat)
    | Other(id: nat)

  datatype Answer =
    | Output(gasUsed: nat, bytes: Bytes)
    | BurnsGas
    | Panic
    | Forward(head: U256, address: Address, data: Bytes, gasLimit: nat, block: nat)
    | Elsewhere(id: nat)

  /** `run_precompile` on a recorded result. */
  function Replay(result: Result): Answer
  {
    match result
    case Ok(gasUsed, bytes) => Output(gasUsed, bytes)
    case OutOfGas => BurnsGas
    case Error => BurnsGas
    case UnexpectedError => Panic
  }

  /** `run_unrecorded_precompile` */
  function RunUnrecorded(forwarder: Forwarder, address: Address, data: Bytes, gas: nat, block: nat): Answer
  {
    match forwarder
    case Some(head) => Forward(head, address, data, gas, block)
    case None => BurnsGas
  }

  function Run(p: Precompile, data: Bytes, gas: nat): Answer
  {
    match p
    case Recorded(calls, address, forwarder, block) =>
      if Input(data, gas) in calls then Replay(calls[Input(data, gas)])
      else RunUnrecorded(forwarder, address, data, gas, block)
    case Unrecorded(address, forwarder, block) => RunUnrecorded(forwarder, address, data, gas, block)
    case Other(id) => Elsewhere(id)
  }

  type Table = map<Address, Precompile>

  function Get(table: Table, address: Address): Option<Precompile>
  {
    if address in table then Some(table[address]) else None
  }

  // The cleared range ---------------------------------------------------------------------------

  /** The source's test: eighteen zero bytes, then a byte 8. */
  predicate IsReadAddress(address: Address)
  {
    var bytes := BeBytes(address, 20);
    bytes[..18] == seq(18, _ => 0 as byte) && bytes[18] == 8
  }

  lemma {:induction false} ZeroValueMeansZeros(bytes: Bytes)
    requires BeValue(bytes) == 0
    ensures forall i :: 0 <= i < |bytes| ==> bytes[i] == 0
  {
    if bytes != [] {
      ZeroValueMeansZeros(bytes[..|bytes| - 1]);
    }
  }

  lemma TwoBytes(a: byte, b: byte)
    ensures BeValue([a, b]) == a as nat * 256 + b as nat
  {
    assert [a, b][..1] == [a] && [a][..0] == [];
    assert BeValue([a]) == a as nat;
  }

  lemma LastTwoBytes(bytes: Bytes)
    requires |bytes| == 20
    ensures BeValue(bytes) == BeValue(bytes[..18]) * 65536 + bytes[18] as nat * 256 + bytes[19] as nat
  {
    assert bytes == bytes[..18] + [bytes[18], bytes[19]];
    BeConcat(bytes[..18], [bytes[18], bytes[19]]);
    TwoBytes(bytes[18], bytes[19]);
    assert Pow256(2) == 65536;
  }

  /** The test picks out the addresses 0x800 to 0x8ff. */
  lemma ReadRange(address: Address)
    ensures IsReadAddress(address) <==> LOWEST_ADDRESS <= address <= HIGHEST_READ_ADDRESS
  {
    var bytes := BeBytes(address, 20);
    AddressBytes(address);
    LastTwoBytes(bytes);
    ZerosValue(18);
    if BeValue(bytes[..18]) == 0 {
      ZeroValueMeansZeros(bytes[..18]);
      assert bytes[..18] == seq(18, _ => 0 as byte);
    }
  }

  // Specification -------------------------------------------------------------------------------

  /** Collecting a list of calls into a hash map: the last entry for an input wins. */
  function Collect(calls: seq<(Input, Result)>): map<Input, Result>
  {
    if calls == [] then map[]
    else var last := calls[|calls| - 1]; Collect(calls[..|calls| - 1])[last.0 := last.1]
  }

  /** The last list recorded for an address. */
  function LastList(recorded: seq<Recording>, address: Address): Option<seq<(Input, Result)>>
  {
    if recorded == [] then None
    else
      var last := recorded[|recorded| - 1];
      if last.address == address then Some(last.calls) else LastList(recorded[..|recorded| - 1], address)
  }

  function Highest(extras: Extras): Address
  {
    if extras.highest.Some? then extras.highest.value else DEFAULT_HIGHEST_ADDRESS
  }

  /** The table without its read range. */
  function Outside(table: Table, address: Address): Option<Precompile>
  {
    if LOWEST_ADDRESS <= address <= HIGHEST_READ_ADDRESS then None else Get(table, address)
  }

  /** What an address holds after installation into `table`. */
  function Expected(
    table: Table, extras: Extras, forwarder: Forwarder, block: nat, address: Address): Option<Precompile>
  {
    var kept := Outside(table, address);
    match LastList(extras.recorded, address)
    case Some(calls) => Some(Recorded(Collect(calls), address, forwarder, block))
    case None =>
      if kept.Some? then kept
      else if block >= WARM_PRECOMPILES_BLOCK_NUMBER && LOWEST_ADDRESS <= address <= Highest(extras)
      then Some(Unrecorded(address, forwarder, block))
      else None
  }

  ghost predicate Installed(table: Table, extras: Extras, forwarder: Forwarder, block: nat, result: Table)
  {
    forall a: Address :: Get(result, a) == Expected(table, extras, forwarder, block, a)
  }

  // Installation --------------------------------------------------------------------------------

  class Evm {
    const blockNumber: nat
    var precompiles: Table

    constructor (blockNumber: nat, precompiles: Table)
      ensures this.blockNumber == blockNumber && this.precompiles == precompiles
    {
      this.blockNumber, this.precompiles := blockNumber, precompiles;
    }

    /** Drop everything in the read range, visiting the installed addresses in any order. */
    method ClearReadRange()
      modifies this
      ensures forall a: Address ::
                Get(precompiles, a) == Outside(old(precompiles), a)
    {
      var addresses := precompiles.Keys;
      while addresses != {}
        invariant addresses <= old(precompiles).Keys
        invariant forall a: Address ::
                    Get(precompiles, a) ==
                    if a in addresses then Get(old(precompiles), a) else Outside(old(precompiles), a)
        decreases addresses
      {
        var address :| address in addresses;
        addresses := addresses - {address};
        ReadRange(address);
        if IsReadAddress(address) {
          precompiles := precompiles - {address};
        }
      }
    }

    /** `fill_all_precompiles`; false stands for the panic on an address beyond 64 bits. */
    method FillAll(extras: Extras, forwarder: Forwarder) returns (ok: bool)
      modifies this
      ensures ok <==> Highest(extras) < U64
      ensures ok ==> forall a: Address ::
                       Get(precompiles, a) ==
                       if Get(old(precompiles), a).None? && LOWEST_ADDRESS <= a <= Highest(extras)
                       then Some(Unrecorded(a, forwarder, blockNumber)) else Get(old(precompiles), a)
    {
      var highest := Highest(extras);
      if highest >= U64 {
        return false;
      }
      var address: nat := LOWEST_ADDRESS;
      while address <= highest
        invariant LOWEST_ADDRESS <= address
        invariant forall a: Address ::
                    Get(precompiles, a) ==
                    if Get(old(precompiles), a).None? && LOWEST_ADDRESS <= a < address && a <= highest
                    then Some(Unrecorded(a, forwarder, blockNumber)) else Get(old(precompiles), a)
      {
        if address !in precompiles {
          precompiles := precompiles[address := Unrecorded(address, forwarder, blockNumber)];
        }
        address := address + 1;
      }
      return true;
    }

    /** `apply_precompiles_with_forwarder` */
    method ApplyPrecompiles(extras: Extras, forwarder: Forwarder) returns (ok: bool)
      modifies this
      ensures ok <==> blockNumber < WARM_PRECOMPILES_BLOCK_NUMBER || Highest(extras) < U64
      ensures ok ==> Installed(old(precompiles), extras, forwarder, blockNumber, precompiles)
    {
      ClearReadRange();
      ghost var cleared := precompiles;
      for i := 0 to |extras.recorded|
        invariant forall a: Address ::
                    Get(precompiles, a) ==
                    match LastList(extras.recorded[..i], a)
                    case Some(calls) => Some(Recorded(Collect(calls), a, forwarder, blockNumber))
                    case None => Get(cleared, a)
      {
        assert extras.recorded[..i + 1][..i] == extras.recorded[..i];
        var recording := extras.recorded[i];
        precompiles := precompiles[recording.address :=
          Recorded(Collect(recording.calls), recording.address, forwarder, blockNumber)];
      }
      assert extras.recorded[..|extras.recorded|] == extras.recorded;
      ok := true;
      if blockNumber >= WARM_PRECOMPILES_BLOCK_NUMBER {
        ok := FillAll(extras, forwarder);
      }
    }
  }

  // Properties ----------------------------------------------------------------------------------

  /** The constructor and the pre-execution hook both install; the second time changes nothing. */
  lemma InstallingTwice(table: Table, once: Table, twice: Table, extras: Extras, forwarder: Forwarder, block: nat)
    requires Installed(table, extras, forwarder, block, once)
    requires Installed(once, extras, forwarder, block, twice)
    ensures twice == once
  {
    forall a: Address ensures Get(twice, a) == Get(once, a) {
      assert Get(twice, a) == Expected(once, extras, forwarder, block, a);
      assert Get(once, a) == Expected(table, extras, forwarder, block, a);
    }
    forall a: Address ensures a in twice <==> a in once {
      assert Get(twice, a) == Get(once, a);
    }
    forall a: Address | a in once ensures twice[a] == once[a] {
      assert Get(twice, a) == Get(once, a);
    }
  }

  /** The last recorded result for an address and input, looking through all recordings. */
  function LastRecorded(recorded: seq<Recording>, address: Address, input: Input): Option<Result>
  {
    if recorded == [] then None
    else
      var last := recorded[|recorded| - 1];
      if last.address == address && input in Collect(last.calls) then Some(Collect(last.calls)[input])
      else LastRecorded(recorded[..|recorded| - 1], address, input)
  }

  /** The last entry of a list for an input, without going through a map. */
  function LastEntry(calls: seq<(Input, Result)>, input: Input): Option<Result>
  {
    if calls == [] then None
    else if calls[|calls| - 1].0 == input then Some(calls[|calls| - 1].1)
    else LastEntry(calls[..|calls| - 1], input)
  }

  lemma {:induction false} CollectKeepsLast(calls: seq<(Input, Result)>, input: Input)
    ensures LastEntry(calls, input) == if input in Collect(calls) then Some(Collect(calls)[input]) else None
  {
    if calls != [] {
      CollectKeepsLast(calls[..|calls| - 1], input);
    }
  }

  /** What a call into the read range answers: the block's record, or the fallback, or no precompile. */
  function ReadAnswer(
    extras: Extras, forwarder: Forwarder, block: nat, a: Address, data: Bytes, gas: nat): Option<Answer>
  {
    match LastList(extras.recorded, a)
    case Some(calls) =>
      (match LastEntry(calls, Input(data, gas))
       case Some(result) => Some(Replay(result))
       case None => Some(RunUnrecorded(forwarder, a, data, gas, block)))
    case None =>
      if block >= WARM_PRECOMPILES_BLOCK_NUMBER && a <= Highest(extras)
      then Some(RunUnrecorded(forwarder, a, data, gas, block))
      else None
  }

  /** After installation every call into the read range is answered by `ReadAnswer`, whatever was installed before. */
  lemma ReadRangeAnswers(
    table: Table, result: Table, extras: Extras, forwarder: Forwarder, block: nat, a: Address, data: Bytes, gas: nat)
    requires Installed(table, extras, forwarder, block, result)
    requires LOWEST_ADDRESS <= a <= HIGHEST_READ_ADDRESS
    ensures ReadAnswer(extras, forwarder, block, a, data, gas) ==
            match Get(result, a) case None => None case Some(p) => Some(Run(p, data, gas))
  {
    assert Get(result, a) == Expected(table, extras, forwarder, block, a);
    match LastList(extras.recorded, a)
    case Some(calls) => CollectKeepsLast(calls, Input(data, gas));
    case None =>
  }

  /** Recording `i` is the last list for the address, and its entry `j` the last one for the input. */
  ghost predicate LastFor(recorded: seq<Recording>, a: Address, input: Input, i: nat, j: nat)
  {
    && i < |recorded| && recorded[i].address == a
    && (forall k :: i < k < |recorded| ==> recorded[k].address != a)
    && j < |recorded[i].calls| && recorded[i].calls[j].0 == input
    && (forall k :: j < k < |recorded[i].calls| ==> recorded[i].calls[k].0 != input)
  }

  lemma {:induction false} LastListAt(recorded: seq<Recording>, a: Address, i: nat)
    requires i < |recorded| && recorded[i].address == a
    requires forall k :: i < k < |recorded| ==> recorded[k].address != a
    ensures LastList(recorded, a) == Some(recorded[i].calls)
  {
    if i < |recorded| - 1 {
      LastListAt(recorded[..|recorded| - 1], a, i);
    }
  }

  lemma {:induction false} NoList(recorded: seq<Recording>, a: Address)
    requires forall k :: 0 <= k < |recorded| ==> recorded[k].address != a
    ensures LastList(recorded, a).None?
  {
    if recorded != [] {
      NoList(recorded[..|recorded| - 1], a);
    }
  }

  lemma {:induction false} LastEntryAt(calls: seq<(Input, Result)>, input: Input, j: nat)
    requires j < |calls| && calls[j].0 == input
    requires forall k :: j < k < |calls| ==> calls[k].0 != input
    ensures LastEntry(calls, input) == Some(calls[j].1)
  {
    if j < |calls| - 1 {
      LastEntryAt(calls[..|calls| - 1], input, j);
    }
  }

  lemma {:induction false} NoEntry(calls: seq<(Input, Result)>, input: Input)
    requires forall k :: 0 <= k < |calls| ==> calls[k].0 != input
    ensures LastEntry(calls, input).None?
  {
    if calls != [] {
      NoEntry(calls[..|calls| - 1], input);
    }
  }

  lemma {:induction false} LastListIsAt(recorded: seq<Recording>, a: Address) returns (i: nat)
    requires LastList(recorded, a).Some?
    ensures i < |recorded| && recorded[i].address == a && LastList(recorded, a) == Some(recorded[i].calls)
    ensures forall k :: i < k < |recorded| ==> recorded[k].address != a
  {
    if recorded[|recorded| - 1].address == a {
      i := |recorded| - 1;
    } else {
      i := LastListIsAt(recorded[..|recorded| - 1], a);
    }
  }

  lemma {:induction false} LastEntryIsAt(calls: seq<(Input, Result)>, input: Input) returns (j: nat)
    requires LastEntry(calls, input).Some?
    ensures j < |calls| && calls[j].0 == input
    ensures forall k :: j < k < |calls| ==> calls[k].0 != input
  {
    if calls[|calls| - 1].0 == input {
      j := |calls| - 1;
    } else {
      j := LastEntryIsAt(calls[..|calls| - 1], input);
    }
  }

  /** Every call that the last list for its address records has a last entry there. */
  lemma InstalledHasLast(recorded: seq<Recording>, a: Address, input: Input) returns (i: nat, j: nat)
    requires Installs(recorded, a, input)
    ensures LastFor(recorded, a, input, i, j)
  {
    i := LastListIsAt(recorded, a);
    j := LastEntryIsAt(recorded[i].calls, input);
  }

  /** A recorded call, at any address, is answered with what the last entry of the last list says. */
  lemma RecordedCallIsReplayed(table: Table, result: Table, extras: Extras, forwarder: Forwarder, block: nat,
                               a: Address, data: Bytes, gas: nat, i: nat, j: nat)
    requires Installed(table, extras, forwarder, block, result)
    requires LastFor(extras.recorded, a, Input(data, gas), i, j)
    ensures Get(result, a).Some?
    ensures
      var answer := Run(Get(result, a).value, data, gas);
      match extras.recorded[i].calls[j].1
      case Ok(used, bytes) => answer == Output(used, bytes)
      case OutOfGas => answer == BurnsGas
      case Error => answer == BurnsGas
      case UnexpectedError => answer == Panic
  {
    var calls := extras.recorded[i].calls;
    assert Get(result, a) == Expected(table, extras, forwarder, block, a);
    LastListAt(extras.recorded, a, i);
    LastEntryAt(calls, Input(data, gas), j);
    CollectKeepsLast(calls, Input(data, gas));
  }

  /** An address the block records calls for answers any other call by asking upstream, or burns the gas. */
  lemma OtherCallIsForwarded(table: Table, result: Table, extras: Extras, forwarder: Forwarder, block: nat,
                             a: Address, data: Bytes, gas: nat, i: nat)
    requires Installed(table, extras, forwarder, block, result)
    requires i < |extras.recorded| && extras.recorded[i].address == a
    requires forall k :: i < k < |extras.recorded| ==> extras.recorded[k].address != a
    requires forall k :: 0 <= k < |extras.recorded[i].calls| ==> extras.recorded[i].calls[k].0 != Input(data, gas)
    ensures Get(result, a).Some?
    ensures
      var answer := Run(Get(result, a).value, data, gas);
      answer == if forwarder.Some? then Forward(forwarder.value, a, data, gas, block) else BurnsGas
  {
    var calls := extras.recorded[i].calls;
    assert Get(result, a) == Expected(table, extras, forwarder, block, a);
    LastListAt(extras.recorded, a, i);
    NoEntry(calls, Input(data, gas));
    CollectKeepsLast(calls, Input(data, gas));
  }

  /**
   In the read range an address without recorded calls does the same, if it is not above the highest
   one and the block is late enough; otherwise there is no precompile, whatever was there before.
   */
  lemma UnrecordedAddress(table: Table, result: Table, extras: Extras, forwarder: Forwarder, block: nat,
                          a: Address, data: Bytes, gas: nat)
    requires Installed(table, extras, forwarder, block, result)
    requires 0x800 <= a <= 0x8ff
    requires forall k :: 0 <= k < |extras.recorded| ==> extras.recorded[k].address != a
    ensures
      var highest := if extras.highest.Some? then extras.highest.value else 0x80D;
      Get(result, a).Some? <==> block >= 8_197_684 && a <= highest
    ensures
      Get(result, a).Some? ==>
        var answer := Run(Get(result, a).value, data, gas);
        answer == if forwarder.Some? then Forward(forwarder.value, a, data, gas, block) else BurnsGas
  {
    assert Get(result, a) == Expected(table, extras, forwarder, block, a);
    NoList(extras.recorded, a);
  }

  /** Away from the read range, what was there stays, unless the block records calls for the address. */
  lemma OthersStay(table: Table, result: Table, extras: Extras, forwarder: Forwarder, block: nat, a: Address)
    requires Installed(table, extras, forwarder, block, result)
    requires !(0x800 <= a <= 0x8ff) && a in table
    requires forall k :: 0 <= k < |extras.recorded| ==> extras.recorded[k].address != a
    ensures a in result && result[a] == table[a]
  {
    assert Get(result, a) == Expected(table, extras, forwarder, block, a);
    NoList(extras.recorded, a);
  }

  /** The list installed for an address has an entry for an input. */
  predicate Installs(recorded: seq<Recording>, address: Address, input: Input)
  {
    LastList(recorded, address).Some? && LastEntry(LastList(recorded, address).value, input).Some?
  }

  /** Every input any list records for the address is also in the last list for it. */
  predicate NothingShadowed(recorded: seq<Recording>, address: Address)
  {
    forall i, j :: 0 <= i < |recorded| && 0 <= j < |recorded[i].calls| && recorded[i].address == address ==>
      Installs(recorded, address, recorded[i].calls[j].0)
  }

  lemma {:induction false} EntryIsFound(calls: seq<(Input, Result)>, j: nat)
    requires j < |calls|
    ensures LastEntry(calls, calls[j].0).Some?
  {
    if j < |calls| - 1 {
      EntryIsFound(calls[..|calls| - 1], j);
    }
  }

  lemma {:induction false} RecordedIsSeen(recorded: seq<Recording>, i: nat, j: nat)
    requires i < |recorded| && j < |recorded[i].calls|
    ensures LastRecorded(recorded, recorded[i].address, recorded[i].calls[j].0).Some?
  {
    if i < |recorded| - 1 {
      RecordedIsSeen(recorded[..|recorded| - 1], i, j);
    } else {
      EntryIsFound(recorded[i].calls, j);
      CollectKeepsLast(recorded[i].calls, recorded[i].calls[j].0);
    }
  }

  lemma {:induction false} SeenIsRecorded(recorded: seq<Recording>, address: Address, input: Input)
    returns (i: nat, j: nat)
    requires LastRecorded(recorded, address, input).Some?
    ensures i < |recorded| && j < |recorded[i].calls|
    ensures recorded[i].address == address && recorded[i].calls[j].0 == input
  {
    var last := recorded[|recorded| - 1];
    if last.address == address && input in Collect(last.calls) {
      CollectKeepsLast(last.calls, input);
      i := |recorded| - 1;
      j := LastEntryIsAt(last.calls, input);
    } else {
      i, j := SeenIsRecorded(recorded[..|recorded| - 1], address, input);
    }
  }

  lemma {:induction false} LastListIsSeenFirst(recorded: seq<Recording>, address: Address, input: Input)
    requires Installs(recorded, address, input)
    ensures LastRecorded(recorded, address, input) == LastEntry(LastList(recorded, address).value, input)
  {
    var last := recorded[|recorded| - 1];
    if last.address == address {
      CollectKeepsLast(last.calls, input);
    } else {
      LastListIsSeenFirst(recorded[..|recorded| - 1], address, input);
    }
  }

  /** The recorded result a call at `address` is answered with, if any. */
  function Replayed(recorded: seq<Recording>, address: Address, input: Input): Option<Result>
  {
    match LastList(recorded, address) case Some(calls) => LastEntry(calls, input) case None => None
  }

  /**
   Calls are answered with the last result recorded for their address, input and gas, whatever they
   are, if and only if no list for the address is shadowed by a later one that lacks an input.
   */
  lemma LastRecordedWinsIffNothingShadowed(recorded: seq<Recording>, address: Address)
    ensures NothingShadowed(recorded, address)
       <==> forall input: Input :: LastRecorded(recorded, address, input) == Replayed(recorded, address, input)
  {
    forall input: Input | NothingShadowed(recorded, address)
      ensures LastRecorded(recorded, address, input) == Replayed(recorded, address, input)
    {
      if Installs(recorded, address, input) {
        LastListIsSeenFirst(recorded, address, input);
      } else if LastRecorded(recorded, address, input).Some? {
        var i, j := SeenIsRecorded(recorded, address, input);
        assert false;
      }
    }
    forall i, j |
      && (forall input: Input :: LastRecorded(recorded, address, input) == Replayed(recorded, address, input))
      && 0 <= i < |recorded| && 0 <= j < |recorded[i].calls| && recorded[i].address == address
      ensures Installs(recorded, address, recorded[i].calls[j].0)
    {
      RecordedIsSeen(recorded, i, j);
      var input := recorded[i].calls[j].0;
      assert LastRecorded(recorded, address, input) == Replayed(recorded, address, input);
    }
  }

  /** Two lists for one address: what only the first one records is answered as if unrecorded. */
  lemma ShadowedCallIsLost(a: Address, x: Input, y: Input, r: Result)
    requires x != y
    ensures var recorded := [Recording(a, [(x, r)]), Recording(a, [(y, r)])];
            LastRecorded(recorded, a, x) == Some(r) && Replayed(recorded, a, x) == None
  {
    var recorded := [Recording(a, [(x, r)]), Recording(a, [(y, r)])];
    assert recorded[..1] == [Recording(a, [(x, r)])];
    assert [(y, r)][..0] == [] && [(x, r)][..0] == [];
    CollectKeepsLast([(y, r)], x);
    CollectKeepsLast([(x, r)], x);
  }
}
