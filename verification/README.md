# A Dafny model of nanoreth

nanoreth is an archive node for HyperEVM, built on reth. This project models the parts of it that
carry real logic and proves what they promise, for all inputs, all runs and all thread
interleavings. `dafny verify dfyconfig.toml` verifies everything.

| file | component |
|---|---|
| `ReadPrecompileForwarder.dfy`, `RateLimiter.dfy` | the single-flight cache in front of an upstream hl-node, as a step system over arbitrarily many threads, and its request rate limiter |
| `SenderCodec.dfy`, `SpotFetch.dfy`, `BlockConversion.dfy` | system transactions: the sender hidden in a signature's `s`, the shared spot-metadata fetch, `to_reth_block` and `from_db` |
| `BlockExecution.dfy`, `Compliance.dfy`, `Simulation.dfy` | gas accounting of the executor, the RPC views that hide system transactions, the gas split of `eth_simulateV1` |
| `PrecompileTable.dfy`, `GasEstimate.dfy` | installing read precompiles, and the binary search of `eth_estimateGas` |
| `Utf8.dfy`, `Tailing.dfy`, `Scanner.dfy`, `LastLine.dfy`, `Lru.dfy`, `LocalBlocks.dfy`, `LocalIngest.dfy` | tailing hl-node's hourly files: line stream, range scanner, backward reader, local block cache, and everything that feeds it as a step system |
| `LruIndex.dfy`, `BlockStore.dfy`, `StoreTasks.dfy`, `Batching.dfy`, `BlockPaths.dfy` | the block store, the tasks that share it, its hash index, its batched sources and the naming of blocks in S3 |
| `Common.dfy` | optional values, bytes, 64-bit arithmetic |

## How the model is built

- Code that changes things step by step is a class or a method with a loop, proved against a function
  of its inputs or its old state; code made of expressions is functions. What threads do under locks
  is a `Step` of a state machine, and theorems quantify over every list of enabled steps.
- Integers are unbounded in Dafny. Where 64 bits matter the model says so: the release profile
  (`Cargo.toml`) has no overflow checks, so `u64` subtraction wraps (`Common.WrapSub`) and sums are
  taken modulo 2^64.
- What the node calls but does not contain is a parameter or a stated contract: the upstream may
  answer a request with anything; the EVM is a function from gas limit to outcome; ECDSA recovery,
  the JSON line parser, the metadata API, the block source and the database are functions. The LRU
  maps of reth are a list of entries, oldest first. A bloom filter is represented by the logs it is
  computed from, and a Keccak hash by what it is taken of. Clocks are readings passed in, the error
  ratio of the gas estimate is an exact rational, and codecs are the identity.

## Where the obvious property is false

Each of these has a lemma or method with a concrete input, and one that says exactly when the property
holds.

- An unfinished line that is not UTF-8 is consumed as a blank line, so the rest of it is later read
  as a line of its own (`Tailing.FaultFreeTailingIsExactIff`, `Tailing.HalfCharacterIsReadTwice`).
- An I/O error leaves the cursor within a line, and the rest of it is read as a line of its own
  (`Tailing.TailingIsExactIff`, `Tailing.ErrorTearsLine`).
- Such a rest can be taken for a block, and its height is then recorded for a file that does not hold it
  (`LocalIngest.RunIsSafeIff`, `LocalIngest.TornLineIsRecorded`).
- A conversion can fetch spot metadata for ever, not only for a token nobody lists but also for one
  that another thread's fetch has dropped from the map (`SpotFetch.EveryRunEndsIff`,
  `SpotFetch.FetchDropsKnownToken`).
- `LineStream::next` means to strip `\r\n`, but it looks for `\r` while the line still ends in `\n`; so
  it never finds one, and `\r` stays in the line (`Tailing.EndingIsStrippedIff`,
  `Tailing.CarriageReturnStays`).
- A scan that meets only blocks below its start height moves the next expected height on by one
  (`Scanner.NextExpectedIsRightIff`, `Scanner.OldBlockSkipsHeight`).
- Behind an unfinished last line, the backward reader tries one candidate per chunk and so can miss a
  complete line (`LastLine.AnswerIsIdealIff`, `LastLine.UnfinishedLineHidesOthers`).
- The sum of simulated gas limits can wrap around and pass the guard (`Simulation.NoCallIsRejected`,
  `Simulation.OverflowSlipsThrough`).
- If one address has two lists of recorded precompile calls, the later list hides the earlier one
  (`PrecompileTable.LastRecordedWinsIffNothingShadowed`, `PrecompileTable.ShadowedCallIsLost`).
- `get_by_numbers` fails on a list with duplicates (`BlockStore.BlockStore.GetByNumbers`,
  `BlockStore.DuplicateIsRefused`).
- Rebinding a key of the bidirectional map leaves a stale reverse entry
  (`LruIndex.PointsBackAfterInsertIff`, `LruIndex.RebindingLeavesStaleEntry`).
- A system transaction with a gas price need not survive re-serving
  (`BlockConversion.LosslessIffZeroPriced`, `BlockConversion.PricedBlockIsLost`).
- Height 0 wraps around in `rmp_path` and misleads the search for the latest block
  (`BlockPaths.DescentFindsHighestIff`, `BlockPaths.BlockZeroMisleads`).

## Model

| member | source | states |
|---|---|---|
| `ReadPrecompileForwarder.SingleFlight` | src/node/evm/read_precompile_forwarder.rs:182-234 | in every interleaving at most one call per key is asking upstream, in-flight and cached keys are disjoint, the cache has at most 16,384 entries, none newer than the newest block, and each is a response upstream gave for that address and input |
| `ReadPrecompileForwarder.NoLostWakeUp` | src/node/evm/read_precompile_forwarder.rs:191-233 | while a follower sleeps, its slot's leader asks for the same key and has its `notify_all` still ahead |
| `ReadPrecompileForwarder.RepliesAreGenuine` | src/node/evm/read_precompile_forwarder.rs:182-234 | every reply returned was given by upstream for the caller's own address and input; a follower returns its own leader's reply; a cache hit is never a failure |
| `ReadPrecompileForwarder.FailureIsNotCached` | src/node/evm/read_precompile_forwarder.rs:213-233 | after a failed request the key is in neither map and the next caller with it leads |
| `ReadPrecompileForwarder.CachedAnswersAreStable` | src/node/evm/read_precompile_forwarder.rs:182-234 | no step of any run changes the value of an entry that stays cached |
| `ReadPrecompileForwarder.EveryCallReturns` | src/node/evm/read_precompile_forwarder.rs:182-234 | from any reachable state on, whatever arrives and whoever moves, a call takes at most six steps of its own and one more per spurious wake-up; where no call can move all have returned |
| `ReadPrecompileForwarder.StepKeepsInv` | src/node/evm/read_precompile_forwarder.rs:182-234 | every atomic step of every call keeps the protocol's invariant |
| `ReadPrecompileForwarder.PruneSparesHead` | src/node/evm/read_precompile_forwarder.rs:216-228 | pruning keeps all entries of the newest block exactly if they are fewer than the limit |
| `ReadPrecompileForwarder.PruneBounds` | src/node/evm/read_precompile_forwarder.rs:216-228 | retain, then clear, always leaves room, and invents or alters no entry; what it leaves is `ReadPrecompileForwarder.StoreReplacesIff` |
| `ReadPrecompileForwarder.CompleteKeepsCache` | src/node/evm/read_precompile_forwarder.rs:213-230 | completing a request keeps the cache bounded and genuine and removes exactly its own key from the in-flight map |
| `ReadPrecompileForwarder.Cache.EnterLocked` | src/node/evm/read_precompile_forwarder.rs:191-204 | the first critical section: hit, join or lead, and what it leaves in the maps |
| `ReadPrecompileForwarder.Cache.CompleteLocked` | src/node/evm/read_precompile_forwarder.rs:213-230 | the second critical section: the in-flight entry goes; a failure changes nothing else; an answer raises the newest block to the larger of the two and is added to a cache that is not full; in a full one exactly the entries of at least that block stay beside it, or none if those alone fill it |
| `ReadPrecompileForwarder.StoreReplacesIff` | src/node/evm/read_precompile_forwarder.rs:213-230 | the same as a step of a run, entry by entry: what stays cached, with its value, exactly if the cache was not full, or the chain has not moved past it and few enough such entries are left |
| `ReadPrecompileForwarder.RemovedOnlyWhenFull` | src/node/evm/read_precompile_forwarder.rs:216-228 | in every run an entry leaves the cache only with a step that stores an answer and finds the cache full |
| `ReadPrecompileForwarder.ReadsAgree` | src/node/evm/read_precompile_forwarder.rs:191-230 | once a key has been answered, every later call for it returns that answer without asking upstream again, until an answer is stored into a full cache |
| `ReadPrecompileForwarder.OneRequestServesTwo` | src/node/evm/read_precompile_forwarder.rs:182-234 | a run in which two calls for one key make one request and both return its reply |
| `ReadPrecompileForwarder.Resolve` | src/node/evm/read_precompile_forwarder.rs:182-234 | a call nobody interferes with gives the cached answer or upstream's, caches answers, and leaves no trace of a failure |
| `ReadPrecompileForwarder.PriceMonotone` | src/node/evm/read_precompile_forwarder.rs:159-180 | a priced call that succeeds does so identically at any higher gas limit and never uses more than its limit |
| `ReadPrecompileForwarder.PriceIs` | src/node/evm/read_precompile_forwarder.rs:159-180 | a call succeeds exactly if upstream gave an output and the limit covers 1000 gas and 33 per byte in or out, with that output at that price; it is fatal exactly if the request failed, with its message, and out of gas otherwise |
| `RateLimiter.RequestRateLimiter.Wait` | src/node/evm/read_precompile_forwarder.rs:109-119 | a caller gets the later of the next free slot and now, reserves one period, and does not proceed before its slot |
| `RateLimiter.WaitAll` | src/node/evm/read_precompile_forwarder.rs:109-119 | callers in locking order get exactly the specified slots |
| `RateLimiter.SlotsAreSpaced` | src/node/evm/read_precompile_forwarder.rs:103-119 | for any clock readings slots i and j are at least j - i periods apart |
| `RateLimiter.FirstSlot` | src/node/evm/read_precompile_forwarder.rs:103-119 | no slot lies before its caller's own clock reading |
| `RateLimiter.SlotIsEarliest` | src/node/evm/read_precompile_forwarder.rs:103-119 | nobody waits for nothing: a slot is whole periods after the first free one or after some caller's own reading, as many as there are callers in between |
| `RateLimiter.WindowIsLimited` | src/node/evm/read_precompile_forwarder.rs:103-119 | any window of length L holds at most L / period + 1 requests |
| `SpotFetch.AtMostOneFetch` | src/node/types/reth_compat.rs:208-229 | if the API lists every token met, or the initial map has every one, any interleaving fetches at most once, at most one thread is past the lock, and every fabricated `s` is a map entry of its own token |
| `SpotFetch.EveryThreadFinishes` | src/node/types/reth_compat.rs:208-229 | under the same condition every schedule is bounded, and where no thread can move all have finished |
| `SpotFetch.EveryRunEndsIff` | src/node/types/reth_compat.rs:208-229 | the runs from a start are bounded exactly if the API lists every token or the initial map has every one, and exactly then every run fetches at most once |
| `SpotFetch.FetchDropsKnownToken` | src/node/types/reth_compat.rs:208-229 | one thread's fetch replaces the map and with it the token another thread would have found, which then fetches without end |
| `SpotFetch.UnlistedNeverFinishes` | src/node/types/reth_compat.rs:208-229 | a thread whose token neither the API nor the map in force has is not done in any run from there |
| `SenderCodec.SenderRoundTrip` | src/node/primitives/transaction.rs:54-73 | decoding inverts encoding on all 2^160 addresses |
| `SenderCodec.SRoundTrip` | src/node/primitives/transaction.rs:54-73 | encoding inverts decoding on `s` exactly if `s` is canonical |
| `SenderCodec.EncodedIsCanonical` | src/node/primitives/transaction.rs:65-73 | every encoded address is canonical |
| `SenderCodec.PlainSender` | src/node/primitives/transaction.rs:54-73 | away from the HYPE address and address one the codec is the identity |
| `SenderCodec.DecodedIs` | src/node/primitives/transaction.rs:54-63 | `s` = 1 stands for the HYPE address and any other `s` for its low 160 bits |
| `SenderCodec.AddressBytes` | src/node/primitives/transaction.rs:54-73 | the twenty bytes of an address denote it again |
| `SenderCodec.SpotS` | src/node/spot_meta/mod.rs:95-107 | every spot index gives a canonical `s` |
| `SenderCodec.SpotIdToS` | src/node/spot_meta/mod.rs:101-106 | writing byte 12 and bytes 24 to 31 of a buffer gives 0x20 followed by the index |
| `BlockConversion.ToRethTransaction` | src/node/types/reth_compat.rs:93-111 | converting back gives the ingested transaction, for all five types |
| `BlockConversion.TypesAreKept` | src/node/types/reth_compat.rs:50-112 | no conversion changes a transaction's type or signature, and leaving out the signature changes nothing else |
| `BlockConversion.SignerIs` | src/node/primitives/transaction.rs:80-104 | the free legacy and EIP-2930 transactions, and no others, are from whom their `s` says |
| `BlockConversion.ToEthereum` | src/node/types/mod.rs:186-201 | converting a receipt back gives the legacy receipt |
| `BlockConversion.ReceiptRoundTrip` | src/node/types/mod.rs:186-218 | and the other way round |
| `BlockConversion.ReceiptTypesAreKept` | src/node/types/mod.rs:186-201 | type, status, gas and logs of a receipt are kept |
| `BlockConversion.MergeBlock` | src/node/types/reth_compat.rs:235-277 | the loops compute the conversion, and the result holds the ingested transactions: first the system transactions that have a receipt, in order, each as ingested with r = 1, odd parity and its sender in `s`, then the others as signed, under the ingested header, withdrawals and precompile calls |
| `BlockConversion.ConvertedBlockHoldsIngested` | src/node/types/reth_compat.rs:235-277 | for every block that converts, the same, and the stored receipts are the ingested ones in that order, and the header's bloom is that of their logs, one receipt behind the other |
| `BlockConversion.ConvertsIff` | src/node/types/reth_compat.rs:235-277 | a block converts exactly if each system transaction with a receipt has a sender at its turn |
| `BlockConversion.ConvertedIsIngested` | src/node/types/reth_compat.rs:183-232 | one converted system transaction is the ingested one with r = 1, odd parity and its sender in `s` |
| `BlockConversion.RetainedAt` | src/node/types/reth_compat.rs:243-244 | exactly the system transactions that have a receipt are kept, in order |
| `BlockConversion.SpotsInForce` | src/node/types/reth_compat.rs:208-229 | the spot map a transaction meets is the API's exactly if an earlier one of the block needed a token the first map lacked |
| `BlockConversion.LookUpIsARun` | src/node/types/reth_compat.rs:208-229 | the lookup is what a thread of the step system does that nobody disturbs |
| `BlockConversion.LogsAreLaidOut` | src/node/primitives/header.rs:48-58 | the logs of a list of receipts are theirs, one receipt behind the other |
| `BlockConversion.ConvertedIff` | src/node/types/reth_compat.rs:183-257 | a list of system transactions converts to a given list exactly if each converts to its own with the spot map it finds at its turn |
| `BlockConversion.SplitUndoesMerge` | src/node/types/mod.rs:82-155 | `from_db` splits transactions and receipts exactly where `to_reth_block` joined them and restores every other field |
| `BlockConversion.ReservingIsLossless` | src/node/types/mod.rs:66-155 | for free system transactions, converting what `from_db` restores gives the stored block again, whatever chain id, spot map and API the second node has |
| `BlockConversion.LosslessUnderIff` | src/node/types/mod.rs:66-155 | under a given signature recovery re-serving is lossless exactly if each system transaction is free, or its recovered signer encodes to its `s`, or none is recovered and the second node works out the same `s` |
| `BlockConversion.PricedIsLossy` | src/node/types/mod.rs:82-155 | one system transaction with a price is enough: some signature recovery changes the block |
| `BlockConversion.LossyUnder` | src/node/types/mod.rs:82-155 | any signature recovery that names another sender for one system transaction changes the block |
| `BlockConversion.LosslessIffZeroPriced` | src/node/types/mod.rs:66-155 | re-serving is lossless under every signature recovery exactly if all retained system transactions are free |
| `BlockConversion.PricedBlockIsLost` | src/node/types/mod.rs:82-155 | a block with one priced system transaction that re-serving changes |
| `BlockConversion.SignerIsTrueSender` | src/node/types/reth_compat.rs:183-232 | the signer recovered from a converted free system transaction is its sender: the named one, else the one its receipt tells, else the HYPE address, else that of the token's spot index; one without any does not convert |
| `BlockConversion.SenderIsEncoded` | src/node/types/reth_compat.rs:196-230 | for any price, a transaction has an `s` that decodes to an address exactly if that is its sender |
| `BlockConversion.RecoveredIs` | src/node/types/patch.rs:30-54 | the receipt tells a sender exactly on chain 998, in blocks 55231857 to 55431999, for one token, if its first `Transfer` names one other than address one |
| `BlockConversion.SenderIsCanonical` | src/node/types/reth_compat.rs:183-232 | every fabricated `s` is canonical |
| `BlockExecution.HlBlockExecutor.CheckTransaction` | src/node/evm/executor.rs:192-213 | a transaction is let through exactly if the gas used so far and its own limit together stay within the block limit; had the block already used more, the bound would be 2^64 higher |
| `BlockExecution.HlBlockExecutor.CommitTransaction` | src/node/evm/executor.rs:215-250 | ordinary transactions add their gas, system ones do not, and each leaves one receipt with the running total |
| `BlockExecution.TypeOfIs` | src/node/evm/executor.rs:215-250 | a receipt carries the type byte of its transaction |
| `BlockExecution.ExecuteBlock` | src/node/evm/executor.rs:192-261 | checking and committing transaction after transaction gives the execution the theorems are about |
| `BlockExecution.GasStaysWithinLimit` | src/node/evm/executor.rs:192-261 | over every execution the block stays within its limit, cumulative gas never falls, and the last receipt shows the block's gas |
| `BlockExecution.ZeroGasMarksSystem` | src/node/evm/executor.rs:192-261 | receipts without cumulative gas are exactly those of free transactions if and only if the free ones come first |
| `BlockExecution.CountsAgree` | src/node/migrate.rs:375-378 | on a well-formed block the recount from receipts, the price test and the header count are one number |
| `BlockExecution.ExecutedBlockIsWellFormed` | src/node/evm/executor.rs:192-261 | converting and executing a block whose system transactions, and only those, are free gives a well-formed block and receipts |
| `BlockExecution.ConvertedPrefix` | src/node/types/reth_compat.rs:244-277 | a converted block's free transactions are exactly the first `system_tx_count` |
| `Compliance.AdjustLog` | src/addons/hl_node_compliance/rpc.rs:420-438 | the loop over receipts hides or renumbers a log as specified |
| `Compliance.AdjustBlockReceipts` | src/addons/hl_node_compliance/rpc.rs:523-583 | the transactions behind the system prefix, each with its own receipt and logs, indices from 0 on, its share of the gas modulo 2^64, and all logs together numbered 0, 1, 2 and so on without a gap |
| `Compliance.BlockReceiptsWithSystemTxs` | src/addons/hl_node_compliance/rpc.rs:585-661 | the same for the transactions behind the system prefix and, with a numbering of its own, for the system prefix |
| `Compliance.SystemTxsReceipts` | src/addons/hl_node_compliance/rpc.rs:123-178 | exactly the receipts before the first one with gas |
| `Compliance.LogsMatchReceipts` | src/addons/hl_node_compliance/rpc.rs:420-438 | on a well-formed block a log is dropped exactly if its transaction is a system one, and otherwise equals the log in its compliant receipt |
| `Compliance.ServedByPosition` | src/addons/hl_node_compliance/rpc.rs:418-438 | the number of an unfiltered log is its position among all logs of the block |
| `Compliance.BodiesMatchReceipts` | src/addons/hl_node_compliance/rpc.rs:493-521 | bodies, counts, block receipts and single receipts hide exactly the system prefix and give every visible transaction the same index |
| `Compliance.VisibleGas` | src/addons/hl_node_compliance/rpc.rs:523-583 | no gas subtraction wraps around |
| `Compliance.GasTelescopes` | src/addons/hl_node_compliance/rpc.rs:523-583 | gas per receipt adds up to the block's gas used |
| `Compliance.SystemPathsMatch` | src/addons/hl_node_compliance/rpc.rs:85-178 | system transactions by price and system receipts by zero gas are the header's prefix |
| `Compliance.IndexAgreesIffCountsAgree` | src/addons/hl_node_compliance/rpc.rs:420-438 | log path and receipt path give a visible log the same transaction index exactly if the zero-gas receipts are as many as the header says |
| `Simulation.SplitFits` | src/node/rpc/simulate.rs:134-154 | an accepted split grants at most the block limit in total exactly if the specified limits do not overflow 64 bits |
| `Simulation.RefusedIff` | src/node/rpc/simulate.rs:137-147 | a block is refused exactly if the limits asked for, summed modulo 2^64, exceed its own |
| `Simulation.ShareIsMaximal` | src/node/rpc/simulate.rs:149-153 | one unit more for each call without a limit would exceed the block limit |
| `Simulation.NoCallIsRejected` | src/node/rpc/simulate.rs:134-154 | no simulated call can be rejected for want of block gas, whatever the EVM uses, exactly if the specified limits do not overflow |
| `Simulation.EnoughGas` | src/node/evm/executor.rs:196-227 | calls whose limits together fit the block are all accepted by the executor's accounting |
| `Simulation.OverflowSlipsThrough` | src/node/rpc/simulate.rs:134-154 | two limits of 2^63 pass the guard of every block, which then rejects the first call if its limit is below 2^63 and the second otherwise |
| `PrecompileTable.ReadRange` | src/node/evm/executor.rs:287-331 | the byte test picks out exactly 0x800 to 0x8ff |
| `PrecompileTable.Evm.ClearReadRange` | src/node/evm/executor.rs:287-331 | only the read range is emptied |
| `PrecompileTable.Evm.FillAll` | src/node/evm/executor.rs:332-363 | exactly the missing addresses up to the highest are filled, and it fails exactly if the highest does not fit 64 bits |
| `PrecompileTable.Evm.ApplyPrecompiles` | src/node/evm/executor.rs:287-331 | what is installed afterwards at every address, given what was before |
| `PrecompileTable.InstallingTwice` | src/node/evm/executor.rs:126-190 | installing in the constructor and again before execution equals installing once |
| `PrecompileTable.ReadRangeAnswers` | src/node/evm/executor.rs:68-106 | every call into the read range is answered as specified (recorded, else forwarded, else out of gas, else absent), whatever was installed before |
| `PrecompileTable.RecordedCallIsReplayed` | src/node/evm/executor.rs:68-88 | a call is answered with the last entry for its input and gas of the last list for its address: an Ok with its gas and bytes, OutOfGas and Error by burning the gas, UnexpectedError by a panic |
| `PrecompileTable.InstalledHasLast` | src/node/evm/executor.rs:287-331 | every call that the last list for its address records has such an entry |
| `PrecompileTable.OtherCallIsForwarded` | src/node/evm/executor.rs:68-112 | any other call to such an address goes to the forwarder, scoped to head and block, or burns the gas if there is none |
| `PrecompileTable.UnrecordedAddress` | src/node/evm/executor.rs:90-112 | so does every call to another address of the read range up to the highest one, from block 8,197,684 on; elsewhere in the range there is no precompile |
| `PrecompileTable.OthersStay` | src/node/evm/executor.rs:287-331 | away from the read range everything else stays |
| `PrecompileTable.LastRecordedWinsIffNothingShadowed` | src/node/evm/executor.rs:287-331 | every call gets the last result recorded for address, input and gas exactly if no list is shadowed by a later one for the same address |
| `PrecompileTable.ShadowedCallIsLost` | src/node/evm/executor.rs:287-331 | two lists for one address lose what only the first records |
| `GasEstimate.Top` | src/node/rpc/estimate.rs:57-97 | the first run's limit is the greatest one that request, transaction, block, chain and balance allow |
| `GasEstimate.EstimateGas` | src/node/rpc/estimate.rs:55-212 | the search ends; outside the transfer shortcut, on a well-behaved EVM, it returns gas exactly if some limit within all caps succeeds and the highest of them is not too high; the answer is within the caps, a limit at which the call succeeds, not above a guess that succeeds, and minimal or within the error ratio of a failing limit; errors are those of the first run or name the probe that ended the search |
| `GasEstimate.FirstErrorIs` | src/node/rpc/estimate.rs:118-147 | which outcome of the first run is reported as which error, with the highest allowed limit where one is named |
| `GasEstimate.OptimisticIs` | src/node/rpc/estimate.rs:155-155 | the guess is what 63 parts in 64 of cover gas used, refund and stipend |
| `GasEstimate.Narrow` | src/node/rpc/estimate.rs:151-212 | any probe below the upper bound, even one below the lower bound, leaves a valid bracket |
| `GasEstimate.FirstBracket` | src/node/rpc/estimate.rs:105-150 | the gas measured by the first run gives a valid bracket |
| `GasEstimate.MeetingBoundsAreMinimal` | src/node/rpc/estimate.rs:151-212 | where the bounds meet the answer is the least successful limit |
| `GasEstimate.TightIsNearMinimal` | src/node/rpc/estimate.rs:151-212 | otherwise it is less than 1.5 percent of itself above the least one |
| `Tailing.LineStream.Next` | src/pseudo_peer/sources/hl_node/scan.rs:49-76 | the line and the new cursor, for complete, unfinished and undecodable lines |
| `Tailing.LineStream.FailedNext` | src/pseudo_peer/sources/hl_node/scan.rs:49-54 | an I/O error yields no line and leaves the cursor behind what was consumed; if the line was complete, the `next` after that delivers the rest of it as a line |
| `Tailing.FaultTearsLine` | src/pseudo_peer/sources/hl_node/scan.rs:49-54 | behind such an error the rest of the line is delivered as a line of its own |
| `Tailing.ConsumedIff` | src/pseudo_peer/sources/hl_node/scan.rs:49-54 | an error can strike after any bytes that hold no newline, and after no others |
| `Tailing.EndingIsStrippedIff` | src/pseudo_peer/sources/hl_node/scan.rs:62-69 | a decodable line comes without its newline and nothing else, as the test for `\r` never succeeds; so without its line ending exactly if that is not `\r\n` |
| `Tailing.CarriageReturnStays` | src/pseudo_peer/sources/hl_node/scan.rs:62-69 | the line "a" ending in `\r\n` comes with the `\r` |
| `Tailing.ScanGetsCompleteLines` | src/pseudo_peer/sources/hl_node/scan.rs:49-76 | a scan from any position gets the complete lines after it and stops before an unfinished one, which it swallows if it is not UTF-8 |
| `Tailing.TailingIsExactIff` | src/pseudo_peer/sources/hl_node/mod.rs:234-266 | for every order of writes, single `next` calls and I/O errors after any number of bytes: the lines read are the complete lines up to the cursor, once each and in order, exactly if every `next` read what was left of a complete line like the whole of it, and met no undecodable rest of an unfinished one; whenever a scan ends these are all complete lines of the file |
| `Tailing.Replay` | src/pseudo_peer/sources/hl_node/scan.rs:42-76 | the stream's own methods, driven by any such events, go through exactly these states, and deliver the complete lines under exactly that condition |
| `Tailing.GoodIffWhole` | src/pseudo_peer/sources/hl_node/scan.rs:49-76 | a complete UTF-8 line is read right exactly if it is read from its start |
| `Tailing.FaultFreeTailingIsExactIff` | src/pseudo_peer/sources/hl_node/mod.rs:234-266 | without I/O errors that is exactly if no `next` was called in front of an undecodable unfinished line |
| `Tailing.ErrorTearsLine` | src/pseudo_peer/sources/hl_node/scan.rs:49-54 | an error behind the first byte of "ab" makes the line come out as "b" |
| `Tailing.HalfCharacterIsReadTwice` | src/pseudo_peer/sources/hl_node/scan.rs:56-60 | a two-byte character written in two halves is read as two blank lines |
| `Tailing.ScanIsRepeatedNext` | src/pseudo_peer/sources/hl_node/scan.rs:95-124 | a scan no write interrupts is a series of `next` |
| `Tailing.ScanEndsIff` | src/pseudo_peer/sources/hl_node/scan.rs:95-124 | a scan that has got something ends exactly with a `next` that yields nothing or fails |
| `Tailing.WholeScanAgrees` | src/pseudo_peer/sources/hl_node/mod.rs:234-266 | where the scans of an exact run have ended, one scan of the whole file gets the same lines if it can decode the unfinished line at the end; without I/O errors it can, and ends at the same place |
| `Tailing.NothingIsReadTooEarly` | src/pseudo_peer/sources/hl_node/mod.rs:234-266 | at any time of such a run the lines read are a prefix of the complete lines |
| `Tailing.AsciiRunsAreClean` | src/pseudo_peer/sources/hl_node/scan.rs:49-76 | every run that writes ASCII and meets no I/O error is exact |
| `Tailing.LinesOnlyGrow` | src/pseudo_peer/sources/hl_node/scan.rs:49-76 | appending leaves the complete lines as they are |
| `Utf8.ValidByLine` | src/pseudo_peer/sources/hl_node/scan.rs:56-60 | a text is UTF-8 exactly if what is before and after any newline is |
| `Utf8.ValidIff` | src/pseudo_peer/sources/hl_node/scan.rs:56-60 | bytes are accepted exactly if they are the UTF-8 encoding of some sequence of Unicode scalar values |
| `Scanner.ScanHourFile` | src/pseudo_peer/sources/hl_node/scan.rs:89-131 | the loop reads on to where the stream stops and reports blocks, ranges and next height of the lines it got |
| `Scanner.BlocksAt` | src/pseudo_peer/sources/hl_node/scan.rs:96-103 | the blocks of a scan are those of the lines that parse, in order |
| `Scanner.NewBlocksAt` | src/pseudo_peer/sources/hl_node/scan.rs:98-105 | exactly the parsed blocks at or above the start are reported, in order, and none if only ranges are loaded |
| `Scanner.RangesSpellHeights` | src/pseudo_peer/sources/hl_node/scan.rs:107-123 | the ranges, spelled out in order, are the parsed heights, and no two adjacent ranges can be joined |
| `Scanner.RangesAreUnique` | src/pseudo_peer/sources/hl_node/scan.rs:107-123 | no other list of such ranges spells these heights |
| `Scanner.RangesCoverHeights` | src/pseudo_peer/sources/hl_node/scan.rs:107-123 | a height is in some range exactly if it was parsed |
| `Scanner.NextExpectedIsRightIff` | src/pseudo_peer/sources/hl_node/scan.rs:98-128 | the next height is the least one above start and all blocks seen exactly if nothing was parsed or something at or above the start was; else it is one too high |
| `Scanner.OldBlockSkipsHeight` | src/pseudo_peer/sources/hl_node/scan.rs:98-128 | one late block makes the scan skip a height |
| `Scanner.TailingRecordsTheSameHeights` | src/pseudo_peer/sources/hl_node/mod.rs:234-266 | scans of a growing file, ended by writes or errors or not, record exactly the heights on its complete lines if every `next` did no harm; one scan of the final file records the same if it can decode the tail |
| `LastLine.ReadLastCompleteLine` | src/pseudo_peer/sources/hl_node/file_ops.rs:37-66 | on UTF-8 it does not panic; what it finds is the file's last parseable line; if the final line parses it is the answer, wherever chunk boundaries fall; it answers with the first candidate that parses, and misses nothing exactly if no line parses or some candidate does |
| `LastLine.ReadBackwards` | src/pseudo_peer/sources/hl_node/file_ops.rs:37-66 | the loop computes the search over the file's chunks |
| `LastLine.FoundIsLastParseable` | src/pseudo_peer/sources/hl_node/file_ops.rs:37-66 | for any cut into chunks, what is found is the last parseable line |
| `LastLine.FinalLineIsTriedFirst` | src/pseudo_peer/sources/hl_node/file_ops.rs:37-66 | for any cut into chunks of at least two bytes, the final line is tried first |
| `LastLine.ValidFilesNeverPanic` | src/pseudo_peer/sources/hl_node/file_ops.rs:37-66 | for any cut into chunks, a UTF-8 file yields only UTF-8 candidates |
| `LastLine.SearchTriesCandidates` | src/pseudo_peer/sources/hl_node/file_ops.rs:37-66 | for any cut into chunks the lines tried are one per chunk that completes one, then all that is left, whatever the parser says |
| `LastLine.CandidatesSpellFile` | src/pseudo_peer/sources/hl_node/file_ops.rs:37-66 | for any cut into chunks: from its end the file is made of these candidates, without a gap but for at most one newline per chunk, and all but the last are single lines |
| `LastLine.AnswerIsIdealIff` | src/pseudo_peer/sources/hl_node/file_ops.rs:37-66 | for a file of any size, the answer is its last parseable line exactly if there is none or one of those candidates parses |
| `LastLine.OneChunkIsIdealIff` | src/pseudo_peer/sources/hl_node/file_ops.rs:37-66 | a one-chunk file gives its last parseable line exactly if there is none, or the final line parses, or at most one line precedes the final one |
| `LastLine.UnfinishedLineHidesOthers` | src/pseudo_peer/sources/hl_node/file_ops.rs:37-66 | a three-line file whose second line is missed |
| `Lru.FindInserted` | src/pseudo_peer/sources/hl_node/cache.rs:19-31 | an inserted entry is found, and other answers stay or are forgotten but never change |
| `Lru.InsertedIsNewest` | src/pseudo_peer/sources/hl_node/cache.rs:19-31 | an insertion puts its entry last, behind as many of the newest others as there is room for |
| `Lru.TouchedIsNewest` | src/pseudo_peer/sources/hl_node/cache.rs:19-31 | a hit puts its entry last and leaves the others in their order |
| `Lru.WithoutAt` | src/pseudo_peer/sources/hl_node/cache.rs:19-31 | taking a key out leaves exactly the other entries, in their order |
| `Lru.BatchIsFound` | src/pseudo_peer/sources/hl_node/cache.rs:19-31 | a batch no larger than the capacity can be found in full afterwards, however full the list was |
| `Lru.NewestOfBatchStays` | src/pseudo_peer/sources/hl_node/cache.rs:19-31 | of a batch of any size exactly its newest entries stay, behind older ones if there is room |
| `Lru.FoundIffNewest` | src/pseudo_peer/sources/hl_node/cache.rs:19-31 | a key not there before is found exactly if it is among the newest entries of the batch |
| `LocalBlocks.LocalBlocksCache.LoadScanResult` | src/pseudo_peer/sources/hl_node/cache.rs:19-27 | blocks go into the LRU under their own heights, and every height of every range to the file |
| `LocalBlocks.LocalBlocksCache.GetBlock` | src/pseudo_peer/sources/hl_node/cache.rs:29-31 | finds what is cached and makes it the most recent |
| `LocalBlocks.RecordedHeights` | src/pseudo_peer/sources/hl_node/cache.rs:24-35 | the range map then knows a height exactly if it did before or a range covers it, and the new file wins |
| `LocalBlocks.TryCollectLocalBlock` | src/pseudo_peer/sources/hl_node/mod.rs:173-192 | only a block of the requested height is returned: the cached one, else what the recorded file gives; recorded heights stay on their files |
| `LocalBlocks.RecordedHeightIsFoundIff` | src/pseudo_peer/sources/hl_node/mod.rs:173-192 | a recorded height on a readable file is found, with the last block the file has for it, exactly if it is among the file's 8000 newest heights; with at most 8000 blocks it always is |
| `LocalBlocks.RecordingKeepsBacked` | src/pseudo_peer/sources/hl_node/cache.rs:19-27 | recording a file's own ranges keeps every recorded height on its file |
| `LocalBlocks.WritingKeepsBacked` | src/pseudo_peer/sources/hl_node/mod.rs:173-192 | so does appending to a file |
| `LocalIngest.IngestedHeightIsFoundIff` | src/pseudo_peer/sources/hl_node/mod.rs:173-266 | after any interleaving of writes to any files with ingest, backfill and lookup streams reading line by line and loading, in which no read fails or meets an undecodable unfinished line: every recorded height is on its file, and a lookup finds it exactly if it is cached or among the 8000 newest heights of a readable file, and with the height asked for |
| `LocalIngest.UntornIngestIsFound` | src/pseudo_peer/sources/hl_node/mod.rs:173-266 | the same after runs with reads that fail anywhere and any tails, if blank lines do not parse and no read starts within a line and reaches its newline |
| `LocalIngest.CleanIngestIsFound` | src/pseudo_peer/sources/hl_node/mod.rs:173-266 | the same after any run in which no read named a height its file did not hold |
| `LocalIngest.RunIsSafeIff` | src/pseudo_peer/sources/hl_node/mod.rs:173-266 | for every run, errors included: at every moment, whichever stream then loads, all recorded heights are on their files exactly if no read named a height its file did not hold |
| `LocalIngest.QuietRunsAreClean` | src/pseudo_peer/sources/hl_node/mod.rs:173-266 | runs in which no read fails or meets an undecodable unfinished line are such, whatever the parser does |
| `LocalIngest.AsciiRunsAreQuiet` | src/pseudo_peer/sources/hl_node/scan.rs:49-76 | runs that write ASCII and in which no read fails meet no such line |
| `LocalIngest.ReadIsBackedIff` | src/pseudo_peer/sources/hl_node/mod.rs:234-266 | in any store that satisfies the invariant a stream reads once more: what it would then record is on the file exactly if that read did not name a height the file does not hold |
| `LocalIngest.GoodIsHarmless` | src/pseudo_peer/sources/hl_node/scan.rs:49-76 | no read that is right does |
| `LocalIngest.OnlyTornLinesHarm` | src/pseudo_peer/sources/hl_node/scan.rs:49-76 | where blank lines do not parse, only a read that starts within a line and reaches its newline can; a stream dropped at an undecodable tail cannot |
| `LocalIngest.FailureLeavesStream` | src/pseudo_peer/sources/hl_node/scan.rs:49-54 | a write, an opening and an I/O error leave a stream anywhere within the first line, and runs go on from there |
| `LocalIngest.TornLineIsRecorded` | src/pseudo_peer/sources/hl_node/scan.rs:49-54 | a concrete run of five actions from an empty store that records a height for a file without a block |
| `LocalIngest.ActKeepsInv` | src/pseudo_peer/sources/hl_node/mod.rs:173-266 | every write, harmless read, failed read, load and lookup keeps recorded heights and those that readers hold on their files, and blocks under their heights |
| `LocalIngest.LoadKeepsBacked` | src/pseudo_peer/sources/hl_node/cache.rs:19-27 | loading what a resumed scan has read records heights of its file only |
| `LocalIngest.ReadFileIsLoaded` | src/pseudo_peer/sources/hl_node/mod.rs:173-266 | a stream that is opened, read to the end and loaded puts exactly the heights of the file's complete lines into the range map, for that file, and the blocks from the start height on into the cache |
| `LocalIngest.ReadHeightIsFound` | src/pseudo_peer/sources/hl_node/mod.rs:173-266 | so each height of the file is recorded for it, and its last block is found in the cache if the file has at most 8000 blocks |
| `LocalIngest.LookupIsNewest` | src/pseudo_peer/sources/hl_node/cache.rs:29-31 | a lookup that hits makes its block the newest and changes no answer |
| `LruIndex.LruBiMap.Insert` | src/pseudo_peer/utils.rs:22-28 | both directions and the key order after an insertion, with the oldest key evicted from a full map |
| `LruIndex.LruBiMap.Evict` | src/pseudo_peer/utils.rs:38-42 | the key and its value's reverse entry go |
| `LruIndex.TrackedAfterInsert` | src/pseudo_peer/utils.rs:22-28 | the map stays within its limit and remembers exactly its live keys |
| `LruIndex.MinusAt` | src/pseudo_peer/utils.rs:22-28 | promoting a key leaves the others in their order |
| `LruIndex.PointsBackAfterInsertIff` | src/pseudo_peer/utils.rs:22-42 | reverse entries keep pointing to live entries that map back exactly if the insertion does not rebind a key that its value points to |
| `LruIndex.RebindingLeavesStaleEntry` | src/pseudo_peer/utils.rs:22-42 | an insertion after which a reverse entry is stale |
| `LruIndex.LookupAfterInsert` | src/pseudo_peer/utils.rs:22-36 | the new pair is found both ways, and only the oldest key of a full map can be lost |
| `LruIndex.PromotionKeepsEnd` | src/pseudo_peer/utils.rs:22-28 | the newest keys survive insertions as long as they are fewer than the limit |
| `StoreTasks.EveryRunRefinesTheView` | src/pseudo_peer/block_store.rs:73-164 | however the locked sections of concurrent gets and lists of gets interleave with fetches, indexings and evictions: every finished get returned "gap block, else source", every finished list what one get after the other gives or an error if it repeats a height; the cache agrees with that view, and hash lookups are true, bounded and mutual |
| `StoreTasks.StepKeepsInv` | src/pseudo_peer/block_store.rs:73-164 | every section of every task keeps the invariant |
| `StoreTasks.EveryGetEnds` | src/pseudo_peer/block_store.rs:88-147 | whatever the others do, a get takes at most four sections, can always take its next one, and keeps answering what it was asked |
| `StoreTasks.GetLeavesTraces` | src/pseudo_peer/block_store.rs:88-102 | in every run a cached block is returned at once and nothing is fetched for it; a fetched one is in the cache after the second section, and found by its hash, and its parent by its own, after the third |
| `StoreTasks.ListLeavesTraces` | src/pseudo_peer/block_store.rs:105-141 | in every run the fetched blocks of a list are in the cache after its second section and all its blocks found by hash after the third, within the limits of both |
| `BlockStore.SweepFinds` | src/pseudo_peer/block_store.rs:111-123 | the first section of a list of gets finds blocks of the view and misses only what is not a gap block |
| `BlockStore.MissingAt` | src/pseudo_peer/block_store.rs:111-123 | while no gap block has to be put into the cache, exactly the heights it does not hold are missing, in order |
| `BlockStore.ListIsCached` | src/pseudo_peer/block_store.rs:109-133 | after a list of gets no longer than the cache every block asked for is in it, whatever was there before |
| `BlockStore.WalkedAreFindable` | src/pseudo_peer/block_store.rs:135-141 | in whatever order the gathered blocks are walked, all their hashes are in the index, if they are at most half its limit |
| `BlockStore.HandedIs` | src/pseudo_peer/block_store.rs:143-146 | removing blocks while answering gives the requested blocks in order, or fails, exactly on a repeated or missing height |
| `BlockStore.BlockStore.GetByNumber` | src/pseudo_peer/block_store.rs:88-102 | returns the gap block, else what the source has, from any cache state, and leaves it in the cache; a hit only becomes most recent, anything else is cached and indexed, and can then be found by its hash |
| `BlockStore.BlockStore.GetByNumbers` | src/pseudo_peer/block_store.rs:105-147 | on a list without duplicates the blocks one get after the other would give, in order, or an error if one is missing; on any other list an error; and the blocks are then in the cache and can be found by hash, within the limits of both |
| `BlockStore.BlockStore.Partition` | src/pseudo_peer/block_store.rs:109-123 | the first section computes the sweep the step system uses |
| `BlockStore.BlockStore.Fetch` | src/pseudo_peer/block_store.rs:125-133 | fetching and the second section add exactly what the source has for the missing heights, or nothing |
| `BlockStore.DuplicateIsRefused` | src/pseudo_peer/block_store.rs:143-146 | block 0 asked for once is answered, asked for twice in one list it is not |
| `BlockStore.BlockStore.IndexBlock` | src/pseudo_peer/block_store.rs:73-85 | indexes a block's own and its parent's hash and keeps the store valid |
| `BlockStore.IndexedIsFound` | src/pseudo_peer/block_store.rs:79-85 | a block just indexed is found by its hash, and its parent by its own |
| `BlockStore.BlockStore.HashToNumber` | src/pseudo_peer/block_store.rs:151-164 | the index first, then the database; with a truthful database the true number |
| `BlockStore.BlockStore.IndexAll` | src/pseudo_peer/block_store.rs:135-141 | indexing a batch in any order leaves all its hashes findable if it is at most half the limit |
| `BlockStore.HandOut` | src/pseudo_peer/block_store.rs:143-146 | removing blocks while answering gives the requested order and fails exactly on duplicates |
| `Batching.CollectBlocks` | src/pseudo_peer/sources/rpc.rs:72-106 | batches of 500 against a server capped at 500 give every requested height in order, or an error if one fails |
| `Batching.OneRequestIsCompleteIff` | src/addons/sync_server.rs:110-129 | one request is answered in full exactly if it has at most 500 heights or fails within the first 500 |
| `Batching.CollectBlocksS3` | src/pseudo_peer/sources/s3.rs:111-138 | batches of spawned tasks give the same |
| `Batching.CollectedIff` | src/pseudo_peer/sources/rpc.rs:72-106 | a collection succeeds exactly if every height can be read |
| `BlockPaths.NameWithLargestNumber` | src/pseudo_peer/sources/utils.rs:4-19 | the last entry of the stably sorted list is the last of those with the largest number |
| `BlockPaths.LargestNameIsPicked` | src/pseudo_peer/sources/utils.rs:4-19 | it is one of the names, and no name has a larger number |
| `BlockPaths.NumberOfIs` | src/pseudo_peer/sources/utils.rs:5-14 | a name has a number exactly if its last part, a final slash aside, is that number below 2^64 in decimal, with a sign and leading zeros allowed, and the suffix of a block unless it is a directory |
| `BlockPaths.NumberOfPath` | src/pseudo_peer/sources/utils.rs:21-26 | the height can be read off a block's path |
| `BlockPaths.PathsAreInjective` | src/pseudo_peer/sources/utils.rs:21-26 | different heights have different paths |
| `BlockPaths.FewBlocksPerDirectory` | src/pseudo_peer/sources/utils.rs:21-26 | no second-level directory holds more than 1000 blocks |
| `BlockPaths.FewDirectoriesPerDirectory` | src/pseudo_peer/sources/utils.rs:21-26 | no first-level directory holds more than 1000 directories |
| `BlockPaths.FindLatestBlockNumber` | src/pseudo_peer/sources/s3.rs:91-104 | computes the three-level descent |
| `BlockPaths.DescentFindsHighestIff` | src/pseudo_peer/sources/s3.rs:91-104 | for any set of stored heights, listed in any order, the descent gives the highest exactly if height 0 is not stored or shares its directory with the highest |
| `BlockPaths.EmptyBucketHasNoLatest` | src/pseudo_peer/sources/s3.rs:91-104 | an empty bucket has no latest block |
| `BlockPaths.BlockZeroMisleads` | src/pseudo_peer/sources/s3.rs:91-104 | with heights 0 and 5 stored the answer is 0 |

## Left out

- Network, HTTP, S3, IPC, restart, command-line, metrics and logging code: plumbing around libraries.
- RLP, bincode, msgpack, lz4 and compact codecs, Merkle roots, blooms and Keccak: external or derived.
- EVM semantics, hardforks, genesis data, the table of testnet gap blocks and the other patch tables: inputs or constants of the model.
- Fork choice, the import service, the transaction pool and static-file migration: they depend on an engine and on cursors that are not in the repository, or add easy members only.
- Assembling and overriding the spot-metadata map, and where it is stored: the map is an input of the conversion.
- The fallback throttling of `collect_block`, `update_last_fetch`, and the hour rollover of the ingest loop: one comparison each; a rollover opens another file, to which the theorems about one file apply.
- A leader thread that panics inside `resolve`: the model's requests always return, if only with a failure.
- Heights of 2^64 - 1: `end + 1` and `last_height + 1` are unbounded in the scanner's model.
- The page limit of an S3 listing for the root directory: listings are complete in the model. Below the root a page is always enough, as the two directory bounds show.
- LocalBlocks.TryCollectLocalBlock: the file's content is fixed while it is read, and a range map keeps one path per height rather than coalesced intervals, which lookups cannot tell apart.
- BlockStore.BlockStore.GetByNumber: is one call nobody interferes with; what concurrent calls return is `StoreTasks.EveryRunRefinesTheView`, over the same sections.
- BlockStore.BlockStore.GetByNumbers: likewise.
- ReadPrecompileForwarder.Resolve: is one call nobody interferes with; what concurrent calls do is `ReadPrecompileForwarder.SingleFlight`, `ReadPrecompileForwarder.RepliesAreGenuine` and `ReadPrecompileForwarder.EveryCallReturns`, over the same locked sections.
- LocalIngest.IngestedHeightIsFoundIff: is about runs without errors; those with errors are `LocalIngest.UntornIngestIsFound`, and `LocalIngest.RunIsSafeIff` says which runs go wrong. The final lookup reads a file that no longer grows.
- ReadPrecompileForwarder.PriceMonotone: leaves open what upstream answers; `request` and its error classification are the `Reply` of a step.
