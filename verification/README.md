# Ledger core: a verified model

A Dafny model of the parts of the ledger that move money, and of the algorithms it relies on:

- the account whose balance and available balance are two separate atomics (`src/domain/account.rs`), as a sequential object and as a state machine in which every load, compare-exchange and `fetch_sub` of any number of threads is its own step;
- the double-entry journal and ledger service, sagas, and the event choreography between services;
- the hash chain that audits the journal: commitment, redaction and chunked verification;
- the deadlock detector and the recursive event bus;
- the ring buffer, the latency histogram, the token bucket, the bounded deduplication cache and the chart-of-accounts forest.

Each imperative component has two parts: a specification module of pure functions on its state (the names ending in `Spec`, or the functions at the head of the module), about which the lemmas are stated, and a class whose methods follow the source step by step and are proved to compute those functions. `dafny verify dfyconfig.toml` checks everything.

## How the parts fit

| files | subject |
|---|---|
| `Wrappers.dfy`, `Integers.dfy`, `Sums.dfy` | optional values and results; extrema; sums over sequences and maps |
| `Account.dfy` | the sequential account: functions on `Funds`, and the class |
| `ConcurrentAccount.dfy` | the interleaved account: one event per atomic access, with ghost history |
| `AccountSafety.dfy`, `AccountLinearization.dfy`, `AccountProgress.dfy` | its balance equation, linearization and retry bound |
| `AccountAnswers.dfy` | what its callers are told: the status check, the balances returned, the reasons for errors |
| `AccountSchedules.dfy`, `AccountRaces.dfy`, `AccountRefusals.dfy` | stretches of two-thread schedules; releases that pass the guard without a hold, or are refused with one; exactly when a release is refused |
| `DeadlockDetector.dfy`, `EventBus.dfy` | cycle detection and recursive publishing |
| `Encoding.dfy`, `EncodingRoundTrip.dfy`, `HashChain.dfy`, `ChunkedVerification.dfy` | hash preimages (RFC 3339 timestamps) and reading them back, the chain, its chunked check |
| `Journal.dfy`, `Ledger.dfy`, `LedgerAnswers.dfy` | entries, reversal, posting, replay; exactly what is recorded and committed |
| `Saga.dfy`, `SagaAnswers.dfy` | rollback over accounts; how a started saga proceeds from report to report |
| `Choreography.dfy`, `ChoreographyAnswers.dfy` | transfers under lost, repeated and reordered events; which deliveries move money |
| `PowersOfTwo.dfy`, `RingBuffer.dfy`, `RingBufferGap.dfy`, `LatencyHistogram.dfy` | masks and bit lengths, the queue, its push between claim and write, percentiles |
| `TokenBucket.dfy`, `ChartOfAccounts.dfy` | rate limiting, the account forest |
| `Idempotency.dfy`, `Eviction.dfy` | deduplication, and exactly when evicting by time stamp keeps the most recent ids |

## Where the code does not do what is expected of it

The model follows the code. In these places the expected property fails on some inputs, and the exact condition under which it holds is proved:

- `release_hold` reads the two atomics at different instants, so its guard can let a release through that gives back a hold nobody placed. From any covered account at rest, with room below the i64 limit, this can happen to every release of more than is held (`AccountRaces.AnyOverReleaseCanPass`), and `available <= balance` holds at rest exactly while releases do not exceed holds (`AccountRaces.CoverageIsExact`). The safety and linearization results therefore assume that callers release only what they hold.
- Callers that keep to this can still have a release refused: by a debit between the two loads that together with the release exceeds what is held, so for a release of everything held by any debit (`AccountRaces.OvertakenReleaseIsRefused`, `DisciplinedReleaseCanBeRefused`). The hold then stays in place. The exact condition for a refusal is `AccountRefusals.RefusalIsExact`; it needs another call that took from the available balance between the two loads (`AccountRefusals.RefusedReleaseWasOvertaken`).
- `batch_verify_parallel` does not check `previous_hash` inside a chunk. When it does not fall back to sequential verification (as it does for fewer than two chunks or fewer than two blocks a chunk) and does not panic, a single forged link in a valid chain is accepted exactly when it is not at a chunk start (`ChunkedVerification.ForgedLinkIsMissed`). Acceptance means validity exactly when all links are right as well (`BatchVerdictIsExact`). It panics for some chunk counts, for example eleven blocks in five chunks; the exact condition is `Panics`, and the automatic chunk count never meets it.
- A hash chain commits to its history for chains of equal length. For different lengths there is a third possibility beside equality and a collision: a block whose SHA-256 is the all-zero string that a genesis block names as its predecessor (`HashChain.HeadCommitsToHistory`). Such a block does fork the history without any collision (`HashChain.ZeroDigestForksHistory`), and some function to digests has one (`HashChain.ZeroDigestIsPossible`).
- The refund for a missing destination account is not deduplicated, so a repeated event creates money (`ChoreographySpec.SecondRefundCreatesMoney`); money is conserved exactly when no transfer to a missing account has its debited event delivered twice (`ConservationIsExact`).
- A recorded entry cannot always be reversed. It can exactly when every leg can: a credited account must not have been overdrawn, and a debited account must have room, counting the later legs (`LedgerSpec.EntryReversibility`; `TransferReversibility` for the two legs of a transfer). Both conditions can fail (`OverdrawnDestinationBlocksReversal`, `SelfTransferWithoutRoomBlocksReversal`).
- A posting that fails is not undone: the entry stays in the journal with the legs before the failing one posted. For a transfer, the sender has then paid exactly when only the receiver's side is wrong (`LedgerAnswers.TransferIsExact`, `RecordIsExact`).
- Re-registering a saga definition while an instance of it is running can leave that instance without a step to run (`SagaSpec.HandleKeepsValid` gives the exact condition). If the definition has become shorter than what has been completed, and only then, `step_failed` panics (`SagaSpec.PanicIsExact`, `StepFailedCanPanic`).
- The deduplication cache evicts by time stamp. Its tracked ids stay the most recently marked ones, whichever of the oldest entries is taken, exactly when the call need not evict or every stamp before the cut is later than every stamp after it (`Eviction.EvictionIsExact`, `MarkIsExact`; for a clock that does not go back, only the two stamps at the cut matter). With equal readings the later mark can go first (`Eviction.TiesCanEvictTheLater`).
- A push of the ring buffer claims its sequence number before it writes the slot, and a pop in between reads an uninitialised slot (`RingBufferGap.GapCanBeRead`). Pops read exactly the published values in order if and only if none of them reaches a claimed and unpublished number (`RingBufferGap.ReadsAreSafeExactly`).
- A rejected entry still consumes its sequence number, so the entries are numbered without gaps exactly when nothing was rejected (`LedgerSpec.NumbersAreEntriesOrRejections`).

Two things the code does on every input, although its comments or its callers suggest otherwise:

- The comment in `publish` says that a handler is put back after it runs. It is not, and the list that `publish` returns is always empty (`EventBusSpec.EveryHandlerRunsAtMostOnce`, `EventBus.EventBus.Publish`).
- `reverse_entry` leaves the transaction that it opens pending, whether or not it succeeds (`LedgerSpec.ReversalStaysPending`).

## Model

| member | source | states |
|---|---|---|
| AccountSpec.ApplyOutcome | src/domain/account.rs:225-392 | each operation succeeds exactly under its guards (open, positive amount, funds, no overflow, no more than is held), a success moves exactly the two amounts it should, a failure changes nothing, and available <= balance within the i64 range is kept |
| AccountSpec.ApplyAnswers | src/domain/account.rs:225-392 | a debit or a credit returns the new balance, and a refused operation names the first guard that failed with the amounts compared |
| AccountSpec.StatusTransitions | src/domain/account.rs:182-196 | a change of status succeeds exactly from an account that is not closed to another status, touches no amount, and has its own error from a closed account |
| AccountSpec.ClosedIsFinal | src/domain/account.rs:182-196 | over any requests for a status, the account ends up closed exactly if it was closed or one of them asked for it |
| AccountSpec.InverseUndoes | src/domain/account.rs:225-392 | after a success the inverse operation succeeds (for a credit or a release exactly when the earlier available balance was not negative), and restores the account exactly |
| AccountSpec.WrapI64 | src/domain/account.rs:250 | two's-complement wrap-around of `fetch_sub`: congruent modulo 2^64, in range, and the identity on values in range |
| Account.Account.Debit | src/domain/account.rs:225-257 | the two writes in the order of the source compute the specified debit, with its errors |
| Account.Account.Credit | src/domain/account.rs:270-311 | balance first, available second; the specified credit, with its overflow error |
| Account.Account.PlaceHold | src/domain/account.rs:320-354 | lowers only the available balance, as specified |
| Account.Account.ReleaseHold | src/domain/account.rs:361-392 | raises only the available balance, and refuses to exceed the balance |
| Account.Account.SetStatus | src/domain/account.rs:182-196 | follows the allowed status transitions and refuses the others |
| AccountSafety.AdvanceIsBalanced | src/domain/account.rs:238-309 | one atomic step of any thread changes balance, available, holds and the thread's share between its two writes by amounts that cancel, and stays above min(initial, 0) and within i64 |
| AccountSafety.ExecuteKeepsEquation | src/domain/account.rs:225-392 | every event of every thread keeps balance = available + holds + debits and credits between their two writes |
| AccountSafety.ExecuteKeepsClaimed | src/domain/account.rs:361-392 | the amounts that running releases claim stay within the outstanding holds, if callers release only what they hold |
| AccountSafety.DisciplinedRunIsCovered | src/domain/account.rs:225-392 | the equation and the coverage of holds in every reachable state of any number of threads |
| AccountSafety.DisciplinedRunIsSafe | src/domain/account.rs:238-309 | in every reachable state min(initial, 0) <= available <= balance, `fetch_sub` does not wrap, and the overflow return inside credit's second loop is unreachable |
| AccountLinearization.AdvanceSimulates | src/domain/account.rs:238-392 | a step is either invisible to the sequential account or is exactly one sequential operation with the same verdict, at the successful compare-exchange on the available balance or at the load that finds too little |
| AccountLinearization.ExecuteKeepsExplained | src/domain/account.rs:225-392 | after every event the log replays legally on the sequential account, to the current available balance and the settled balance |
| AccountLinearization.ExecuteKeepsRecorded | src/domain/account.rs:225-392 | every finished call that is part of the specification has exactly its own place in the log, taken between invocation and return |
| AccountLinearization.DisciplinedRunIsLinearized | src/domain/account.rs:225-392 | every run refines the atomic sequential account on its amounts, whatever the interleaving, so that a value changing and changing back is never visible; the status check and the answers are `AccountAnswers` |
| AccountLinearization.RealTimeOrder | src/domain/account.rs:225-392 | a call that returned before another was invoked comes first in the log |
| AccountLinearization.ReplaySums | src/domain/account.rs:225-392 | a legal log yields initial + credits - debits, and available is that less the net holds |
| AccountLinearization.QuiescentTotals | src/domain/account.rs:225-392 | when no call is running, balance = initial + accepted credits - accepted debits and available = balance - holds |
| AccountAnswers.CheckIsExact | src/domain/account.rs:226-235 | a call goes past its first check exactly if its amount is positive and the account is open at that step; otherwise it returns the error of the failed guard and changes neither atomic, hold nor log |
| AccountAnswers.LoggedCallsWereFoundOpen | src/domain/account.rs:231-250 | over every run, every call that took effect or was refused for lack of funds has an earlier step of its own that found the account open |
| AccountAnswers.UnopenedAccountIsUntouched | src/domain/account.rs:225-392 | over every run from rest during which the account is never open, both atomics, the holds and the log stay as they were |
| AccountAnswers.SoloCallIsSequential | src/domain/account.rs:225-392 | any call run without interruption from any state, other calls being under way or not, ends within five steps with exactly the sequential account's answer and effect, returned balances and errors included |
| AccountAnswers.ReturnedBalancesWereWritten | src/domain/account.rs:250-309 | over every run, the balance that a debit or credit returns is the one its own write of the balance left, namely the balance of that moment less or plus its amount |
| AccountAnswers.StepFailsForReason | src/domain/account.rs:225-392 | a step ends its call with an error exactly when an error holds in the state it reads (bad amount, not open, too little available, overflow, more than held), returns that error with the amounts read, and writes neither atomic |
| AccountAnswers.FailuresAreJustified | src/domain/account.rs:225-392 | over every run, disciplined or not, each failed call has a step of its own at which its error held |
| AccountProgress.RunIsCounted | src/domain/account.rs:238-256 | in every reachable state each failed compare-exchange is charged to a write by another call since the load, and each call writes each atomic at most once |
| AccountProgress.RetriesAreBounded | src/domain/account.rs:281-310 | a run of n calls has at most 2n(n-1) failed compare-exchanges and at most 5n + 6n(n-1) atomic steps, so every schedule terminates |
| AccountRaces.EquationHoldsUpToOverRelease | src/domain/account.rs:361-392 | without any discipline the equation still holds as long as coverage has held so far |
| AccountRaces.CoverageIsExact | src/domain/account.rs:371-391 | then available is covered by the balance if and only if releases have not exceeded holds |
| AccountRaces.AnyOverReleaseCanPass | src/domain/account.rs:371-391 | the discipline is necessary: from any covered account at rest, every release of more than is held, with room below the i64 limit, has a schedule with one concurrent credit in which both succeed and available ends above the balance by the excess |
| AccountRaces.GuardCanBePassedWithoutAHold | src/domain/account.rs:371-378 | in particular, on a new account with no hold at all |
| AccountRaces.OvertakenReleaseIsRefused | src/domain/account.rs:371-384 | from any covered account at rest, a release within what is held and overtaken by a debit between its two loads is refused if and only if the two together exceed what is held; the hold and both amounts are otherwise as the debit left them |
| AccountRaces.DisciplinedReleaseCanBeRefused | src/domain/account.rs:371-384 | a disciplined run from a new account in which a hold's own release is refused, with the hold still in place and no call left running |
| AccountRefusals.RefusalIsExact | src/domain/account.rs:371-384 | in every state of a disciplined run, a release at its guard is refused if and only if what was taken from the available balance since its first load exceeds the other holds plus the calls between their two writes; in particular not if nothing was taken; a refusal changes neither atomic nor the holds and reports the amounts compared |
| AccountRefusals.RefusedReleaseWasOvertaken | src/domain/account.rs:371-384 | in every disciplined run a refused release was overtaken: between its two loads another thread's debit or hold took its amount from the available balance |
| DeadlockDetector.DeadlockDetector.Acquire | src/service/advanced.rs:31-37 | records the resource as held and its owner |
| DeadlockDetector.DeadlockDetector.WaitFor | src/service/advanced.rs:40-45 | adds exactly the wait-for edges from the thread to the resource's owner |
| DeadlockDetector.DeadlockDetector.BuildGraph | src/service/advanced.rs:61-70 | the graph has an edge exactly where one thread waits for a resource that another owns |
| DeadlockDetector.DfsCycle | src/service/advanced.rs:89-120 | terminates; a result is a closed walk, and otherwise the stack and path are restored, the node is finished, and all successors of finished nodes were finished before them |
| DeadlockDetector.DeadlockDetector.DetectCycle | src/service/advanced.rs:60-87 | exact: a reported cycle is a deadlock, none reported means there is none, with the finish order of the search as the ranking of all waiting threads |
| DeadlockDetector.RankingImpliesAcyclic | src/service/advanced.rs:60-120 | a finish order in which every edge goes to an earlier node leaves no closed walk |
| DeadlockDetector.FinishNode | src/service/advanced.rs:117-119 | leaving a node whose successors are all finished keeps the search invariant |
| EventBusSpec.PublishEffect | src/service/advanced.rs:337-383 | one publish drains the handlers of its type, appends its event first, moves each handler that it removes into the list of those run, grows history plus remaining handlers by exactly one, and leaves or empties every other type |
| EventBusSpec.DrainEffect | src/service/advanced.rs:352-380 | the loop over the handlers of a type, nested publishes included, adds one event for each handler run |
| EventBusSpec.EveryHandlerRunsAtMostOnce | src/service/advanced.rs:337-383 | over any series of publishes every subscribed handler is either still subscribed or has run exactly once |
| EventBusSpec.EveryHandlerAnswers | src/service/advanced.rs:337-383 | a publication records its own event and then one event for each handler it sets off, nested ones included, in the order in which they run: the handler's success or failure (type suffix, payload, service), made from an earlier event of the type it subscribed to |
| EventBus.EventBus.Subscribe | src/service/advanced.rs:325-333 | appends the handler to those of its type |
| EventBus.EventBus.Publish | src/service/advanced.rs:337-383 | the recursive method terminates, with the number of remaining handlers as its measure, computes the specified bus, and returns an empty list |
| Encoding.Rfc3339Injective | src/log/hash_chain.rs:64-78 | different timestamps (years 0 to 9999) have different RFC 3339 texts, with their 0, 3, 6 or 9 fraction digits |
| Encoding.Rfc3339 | src/log/hash_chain.rs:64-78 | the text is at least 25 bytes long and holds a single 'T', at offset 10 |
| Encoding.PreimageInjective | src/log/hash_chain.rs:64-78 | the undelimited preimage (index, previous hash, data, timestamp, nonce) determines every field, once the previous hashes have the same length |
| EncodingRoundTrip.Rfc3339Decodes | src/log/hash_chain.rs:64-78 | the columns of the text are the digits of year, month, day, hour, minute and second, and the fraction is the nanoseconds |
| EncodingRoundTrip.PreimageDecodes | src/log/hash_chain.rs:64-78 | every field is read back from the hashed bytes: previous hash, eight little-endian bytes of index, data up to ten characters before the last 'T', timestamp, eight little-endian bytes of nonce |
| HashChain.AppendKeepsValid | src/log/hash_chain.rs:187-195 | appending to a valid chain gives a valid chain |
| HashChain.NewBlocksAreExact | src/log/hash_chain.rs:31-61 | the genesis and the next block are the only ones that hold the given data and time, nonce 0 and their own hash, link to the zeros or to the previous hash, and have index 0 or one more than the previous index (modulo 2^64) |
| HashChain.AppendsAreKept | src/log/hash_chain.rs:178-195 | after any appends to a new chain, its blocks hold exactly the appended data and times in order, are numbered 0, 1, 2, ... modulo 2^64, and verify |
| HashChain.HashCommitsToBlock | src/log/hash_chain.rs:81-90 | two self-verifying blocks with the same hash are equal, or their fields collide |
| HashChain.HeadCommitsToHistory | src/log/hash_chain.rs:201-226 | two valid chains with the same head hash are identical block by block, or a SHA-256 collision is computed from them, or their lengths differ and a block's SHA-256 is the all-zero string |
| HashChain.ZeroDigestForksHistory | src/log/hash_chain.rs:201-226 | such a block does fork the history: two valid chains of different lengths with the same head, and no collision to read off them |
| HashChain.ZeroDigestIsPossible | src/log/hash_chain.rs:31-44 | for any two different genesis blocks some function to digests makes them such chains |
| HashChain.VerifyChain | src/log/hash_chain.rs:201-226 | returns true exactly for valid chains, and the reported indices are exactly those of the faulty blocks, with 0 for a bad genesis link |
| HashChain.RehashEffect | src/log/hash_chain.rs:302-323 | the loop of `redact` relinks and rehashes every block from j on and keeps the content of each |
| HashChain.RedactionKeeps | src/log/hash_chain.rs:291-326 | blocks before i, every index, timestamp and nonce, and the data of every block but i are unchanged |
| HashChain.RedactionIsExact | src/log/hash_chain.rs:291-326 | after redacting i the whole chain verifies if and only if the blocks before i verified and block i named its predecessor, whatever the state of the later blocks |
| HashChain.RedactionChangesHead | src/log/hash_chain.rs:291-326 | redacting a block of a valid chain changes the head hash, or a SHA-256 collision is computed |
| HashChain.HashChain.Append | src/log/hash_chain.rs:187-195 | keeps the earlier blocks, adds and returns a block with the given data and time, nonce 0, the next index and the link to the old head, and keeps validity |
| HashChain.HashChain.Redact | src/log/hash_chain.rs:291-326 | refuses the genesis block and indices out of range, and otherwise computes the redacted chain |
| ChunkedVerification.VerifyChunk | src/log/hash_chain.rs:383-408 | the findings of one slice |
| ChunkedVerification.VerifyChunks | src/log/hash_chain.rs:377-416 | panics exactly when the last start lies beyond the chain; otherwise the slices partition it and the findings in order are those of one unchunked pass |
| ChunkedVerification.CheckBoundaries | src/log/hash_chain.rs:418-429 | checks the link at each chunk start and reports exactly the broken ones |
| ChunkedVerification.BatchVerify | src/log/hash_chain.rs:367-433 | its verdict, exactly when it panics, that small chains get the sequential check, and otherwise the findings of one pass plus those at the boundaries |
| ChunkedVerification.FindingsAreFaults | src/log/hash_chain.rs:393-406 | an index is reported by the chunks exactly if a block with it has a hash that does not follow from its content and the actual hash before it |
| ChunkedVerification.BoundaryFindingsAreFaults | src/log/hash_chain.rs:418-429 | and at the boundaries exactly if a block with it stands at a chunk start and names a wrong predecessor |
| ChunkedVerification.ChunkedVerificationIsExact | src/log/hash_chain.rs:383-432 | a chain is valid if and only if the checks of the chunks and their boundaries accept it and every link is right, for every chunk count |
| ChunkedVerification.BatchVerdictIsExact | src/log/hash_chain.rs:367-433 | unless it panics, the verdict together with right links is equivalent to validity, the sequential fallback included |
| ChunkedVerification.ForgedLinkIsMissed | src/log/hash_chain.rs:394-429 | a single forged link in a valid chain is accepted if and only if the chunks are used (no fallback), do not panic, and the link is not at a chunk start; the chain is then not valid |
| ChunkedVerification.AutoChunksNeverPanic | src/log/hash_chain.rs:441-444 | the chunk count chosen from the length keeps all slices in bounds |
| ChunkedVerification.AutoChunksIsExact | src/log/hash_chain.rs:441-444 | one chunk for every full 256 blocks, at least one and at most 16, so that the chain is split exactly from 512 blocks on |
| ChunkedVerification.ParallelVerifyChain | src/log/hash_chain.rs:441-444 | accepts every valid chain, and accepts only valid chains among those with right links |
| ChunkedVerification.ElevenBlocksInFiveChunksPanic | src/log/hash_chain.rs:377-385 | a chunk count for which slicing panics |
| Journal.TrialBalance | src/domain/journal.rs:286-298 | over any accounts that include those of the legs, the net positions add up to total credits less total debits, so those of a balanced entry cancel |
| Journal.NetOfConcat | src/domain/journal.rs:286-298 | net positions add over concatenated legs |
| Journal.ReversalNegates | src/domain/journal.rs:152-175 | reversed legs negate every account's net position and swap the two totals |
| Journal.AcceptedEntries | src/domain/journal.rs:99-193 | an accepted entry passes `verify_balance` exactly when its total is positive, can always be reversed, and reversing its legs twice gives them back |
| Journal.NewEntryIsExact | src/domain/journal.rs:99-147 | for any number of legs: accepted exactly with at least two legs and equal totals that are not zero, with every field of the entry; each error exactly under its own condition, with the totals, or the largest 64-bit amount for one that does not fit |
| Journal.EntryWithoutNegativesIsExact | src/domain/journal.rs:49-141 | for legs as the constructors make them, a list is accepted exactly when its sides balance and some debit is positive |
| Journal.ReverseIsExact | src/domain/journal.rs:152-175 | an entry can be reversed exactly when it has two legs and balances, not at zero; the reversal swaps each leg's side and names the entry it reverses |
| LedgerSpec.ApplyLegsPostsPrefix | src/service/ledger_service.rs:113-147 | the loop over the legs posts exactly a prefix, which is all of them if and only if there is no error: every balance moves by its net position over that prefix |
| LedgerSpec.ApplyLegsMovesTotal | src/service/ledger_service.rs:113-147 | posting legs moves the total over all accounts by their signed sum |
| LedgerSpec.ServeKeeps | src/service/ledger_service.rs:62-208 | each request appends at most one entry, balanced and with a larger sequence number, posts exactly a prefix of its legs (all if it succeeds), and keeps the total if it succeeds |
| LedgerSpec.BalancesReplayThePostings | src/service/ledger_service.rs:62-208 | after any run, failures included, each balance = initial + net position over the posted legs, and sequence numbers strictly increase |
| LedgerSpec.JournalReplayGivesBalances | src/service/ledger_service.rs:62-208 | after a run of successes the posted legs are the journal's, so its replay gives every balance, and the total over all accounts is unchanged |
| LedgerSpec.RecordThenReverseRestores | src/service/ledger_service.rs:97-208 | recording an entry and then reversing it restores every account exactly, whenever the reversal succeeds |
| LedgerSpec.EntryReversibility | src/service/ledger_service.rs:97-208 | for every recorded entry the reversal succeeds if and only if, on the accounts before it was posted and counting the legs after each one, no credited account was overdrawn and every debited account has room |
| LedgerSpec.TransferReversibility | src/service/ledger_service.rs:71-208 | the reversal of a recorded transfer succeeds if and only if the destination was not overdrawn, or the self-transfer does not overflow |
| LedgerSpec.OverdrawnDestinationBlocksReversal | src/service/ledger_service.rs:159-208 | a transfer to an overdrawn account is recorded and cannot be reversed, for all amounts |
| LedgerSpec.SelfTransferWithoutRoomBlocksReversal | src/service/ledger_service.rs:159-208 | a transfer of an account to itself near the i64 limit is recorded and cannot be reversed |
| LedgerSpec.NumbersAreEntriesOrRejections | src/service/ledger_service.rs:29-41 | over any run every sequence number belongs to an entry or a rejection, so entries are numbered without gaps exactly when nothing was rejected |
| LedgerSpec.ReversalStaysPending | src/service/ledger_service.rs:159-208 | a reversal of a known entry opens one transaction and leaves it pending, whatever its outcome |
| LedgerSpec.ServeKeepsIdsBelow | src/service/ledger_service.rs:62-208 | every request keeps all ids given out so far below the next one, so that each is fresh |
| LedgerAnswers.FittingLegsArePosted | src/service/ledger_service.rs:113-147 | on the accounts before the call: the loop stops at the first leg whose account is missing or not open, whose amount is not positive, or that is not covered or has no room after the legs before it, with that leg's error |
| LedgerAnswers.RecordIsExact | src/service/ledger_service.rs:97-155 | for any legs, an entry is recorded if and only if the legs balance and every leg fits the accounts before the call; what the journal, the accounts and the transaction are in each outcome, with its error |
| LedgerAnswers.ReversalIsExact | src/service/ledger_service.rs:159-208 | the same for a reversal, with every leg the other way round; an unknown entry is refused and changes nothing |
| LedgerAnswers.TransferIsExact | src/service/ledger_service.rs:71-155 | a transfer succeeds if and only if the sender is open and has the money and the receiver is there, open and has room; it moves exactly the amount, and a sender whose receiver fails has paid all the same |
| LedgerAnswers.CommittedTransactionsAreRecorded | src/service/ledger_service.rs:62-155 | over any run, a transaction is committed exactly if a later request recorded an entry for it, and pending otherwise |
| LedgerService.LedgerService.BeginTransaction | src/service/ledger_service.rs:62-67 | opens a pending transaction under an id that no transaction had |
| LedgerService.LedgerService.RecordTransfer | src/service/ledger_service.rs:71-85 | makes one debit and one credit leg of the amount and records them; succeeds exactly when the sender can pay and the receiver can take the amount |
| LedgerService.LedgerService.RecordEntry | src/service/ledger_service.rs:97-155 | sequence number, validation, append, then the legs one by one, with every early error return; succeeds if and only if the legs balance and each fits, and then commits the transaction |
| LedgerService.LedgerService.ReverseEntry | src/service/ledger_service.rs:159-208 | finds the entry, opens a transaction and posts the reversal |
| SagaSpec.HandleKeepsValid | src/service/saga.rs:144-242 | an orchestrator event keeps `completed_steps` = [0..current_step), and a step to run for every running saga, if and only if it is not a registration under a name in use with too few steps for some active saga of that name |
| SagaSpec.PanicIsExact | src/service/saga.rs:212-235 | collecting the compensations panics if and only if the definition has become shorter than what the saga has completed |
| SagaSpec.StepFailedCanPanic | src/service/saga.rs:144-235 | a run that gets there: two steps, one completed, no steps registered under the same name |
| SagaSpec.RunKeepsValid | src/service/saga.rs:144-242 | so does every run of such events |
| SagaSpec.ExecuteKeepsFunded | src/domain/account.rs:225-392 | an action on open accounts that are not overdrawn keeps them so, a failure changes nothing, and a success followed by its compensation succeeds and restores every account |
| SagaSpec.RollbackIsExact | src/service/saga.rs:212-235 | after k successful actions, the compensations in reverse order all succeed and restore every balance and available amount |
| SagaSpec.FailedStepRollsBack | src/service/saga.rs:212-242 | a failing step returns exactly the list whose execution restores the accounts, and the saga ends failed |
| SagaSpec.SucceededStepIsUnderway | src/service/saga.rs:188-209 | a successful step leaves the accounts with exactly one more action applied |
| SagaSpec.SagaIsAllOrNothing | src/service/saga.rs:149-242 | driven to its end, a saga either applies every action and completes, or leaves every account as it was |
| SagaAnswers.StartIsExact | src/service/saga.rs:85-163 | a saga starts if and only if its name is known and has steps: under a fresh id, pending, nothing completed, its first action next, and everything else unchanged; each error has its condition |
| SagaAnswers.StartIsUnderway | src/service/saga.rs:149-185 | a saga of compensating steps started on funded accounts satisfies the hypothesis of atomicity, with no action applied |
| SagaAnswers.StartedSagaIsAllOrNothing | src/service/saga.rs:149-242 | started and driven to its end, a saga applies every action in order and completes, or leaves every account as it was |
| SagaAnswers.ActiveFollowsReports | src/service/saga.rs:188-242 | over any run of calls, an active saga stands as many steps further as successes were reported for it, in the status of the last report and with the last error |
| SagaAnswers.NextActionFollowsReports | src/service/saga.rs:167-185 | over any run after its start, an active saga is handed the action of the step numbered by its reported successes exactly when the last report, if any, was a success, and is refused with its status otherwise |
| SagaAnswers.SuccessesCompleteSaga | src/service/saga.rs:188-209 | while its definition is not replaced, a saga is active exactly until as many successes as steps were reported, and completed with all its steps from then on |
| Saga.SagaOrchestrator.Register | src/service/saga.rs:144-146 | stores the definition under its name, and keeps the invariant exactly when that is admissible |
| Saga.SagaOrchestrator.Start | src/service/saga.rs:149-163 | succeeds exactly for a known definition with steps; the instance is pending under a fresh id with its first action next; keeps the invariant |
| Saga.SagaOrchestrator.NextAction | src/service/saga.rs:167-185 | hands out the action at the number of completed steps exactly for active sagas that are pending or in progress |
| Saga.SagaOrchestrator.StepSucceeded | src/service/saga.rs:188-209 | records the step and reports whether the saga is complete, and keeps the invariant |
| Saga.SagaOrchestrator.StepFailed | src/service/saga.rs:212-235 | records the failure and collects the compensations of the completed steps, last first; panics exactly when one of those steps is gone from the definition; keeps the invariant |
| Saga.SagaOrchestrator.CompensationComplete | src/service/saga.rs:238-242 | marks an active saga failed, in any state, and keeps the invariant |
| ChoreographySpec.EveryRunIsAccounted | src/service/choreography.rs:221-313 | under any loss, repetition and reordering of events each account is its seed less one debit for each debited id, plus one credit for each credited id and its refunds; a credit only follows a debit; and balances plus transfers in flight are the seeded total plus what repeated refunds have created |
| ChoreographySpec.ConservationIsExact | src/service/choreography.rs:271-313 | money is conserved if and only if no transfer to a missing account had its debited event delivered twice after its debit; each such delivery is one refund; and money is always conserved if every destination exists |
| ChoreographySpec.BalancesStayNonNegative | src/service/choreography.rs:221-268 | non-negative seeds and amounts keep every balance non-negative |
| ChoreographySpec.SecondRefundCreatesMoney | src/service/choreography.rs:299-312 | a repeated event for a missing destination doubles the sender's money |
| ChoreographyAnswers.DebitsAreDeliveries | src/service/choreography.rs:221-268 | over every run, a transfer has been debited if and only if it was delivered at a moment when the sender existed and had the money |
| ChoreographyAnswers.CreditsAreDeliveries | src/service/choreography.rs:271-299 | and credited if and only if its destination exists and its debited event was delivered at least once after the debit |
| ChoreographyAnswers.BalancesAreDeliveries | src/service/choreography.rs:221-313 | so each account is its seed less its debited transfers, plus each delivered transfer to it once, plus each of its transfers to a missing account once for every delivery; in flight is exactly what was debited and not delivered |
| ChoreographyAnswers.SettledRunsArePaid | src/service/choreography.rs:221-313 | once every debited event has been delivered, nothing is in flight, every debited transfer to an existing account is credited, and the seeded total is back if all destinations exist |
| Choreography.ChoreographyAccountService.Seed | src/service/choreography.rs:216-218 | sets one balance and no other |
| Choreography.ChoreographyAccountService.HandleTransferInitiated | src/service/choreography.rs:221-268 | succeeds exactly for an id already debited or a sender with the money, debits the latter once, and otherwise changes nothing and says which failed |
| Choreography.ChoreographyAccountService.HandleAccountDebited | src/service/choreography.rs:271-313 | succeeds exactly for an id already credited or an existing destination, credits the latter once, and otherwise refunds the sender, if there is one |
| PowersOfTwo.NextPowerOfTwo | src/log/ring_buffer.rs:144-158 | the least power of two that is at least the request |
| PowersOfTwo.MaskIsRemainder | src/log/ring_buffer.rs:161-163 | masking with capacity - 1 is the remainder by the capacity |
| RingBuffer.RingBuffer.Slot | src/log/ring_buffer.rs:161-163 | the slot of a sequence number is its remainder by the capacity |
| RingBuffer.RingBuffer.TryPush | src/log/ring_buffer.rs:168-199 | succeeds exactly when the queue is not full, and appends without overwriting a live slot |
| RingBuffer.RingBuffer.TryPop | src/log/ring_buffer.rs:204-217 | takes the oldest value, never an uninitialised slot |
| RingBuffer.RingBuffer.BatchConsume | src/log/ring_buffer.rs:308-317 | takes the longest available prefix up to its limit, in order |
| RingBufferGap.ExecuteKeepsOk | src/log/ring_buffer.rs:168-217 | with claim, slot write, slot read and cursor advance as separate steps, a step that does not read the gap keeps every published value in its slot until it is read |
| RingBufferGap.ReadsAreSafeExactly | src/log/ring_buffer.rs:168-217 | in every such run of one producer and one consumer, pops read exactly the published values in order if and only if no pop reaches a claimed and unpublished sequence number |
| RingBufferGap.GapCanBeRead | src/log/ring_buffer.rs:179-211 | a pop between the claim and the write of the first push reads an uninitialised slot |
| RingBuffer.RingBuffer.Drop | src/log/ring_buffer.rs:249-261 | drops exactly the values still queued, so that every pushed value is popped once or dropped once |
| LatencyHistogram.BoundIsTight | src/log/ring_buffer.rs:391-399 | a bucket's upper bound is at most twice any sample in it (from bucket 1 on) and above every sample in it (except the last bucket) |
| LatencyHistogram.BucketsBracketSample | src/log/ring_buffer.rs:391-399 | the cumulative counts up to and before a sample's bucket bracket its rank |
| LatencyHistogram.ReachesBucketOfKth | src/log/ring_buffer.rs:430-452 | the first bucket whose cumulative count reaches k is the bucket of the k-th smallest sample |
| LatencyHistogram.ReachedBoundApproximates | src/log/ring_buffer.rs:430-452 | its upper bound R satisfies R <= 2x and x < R for the exact k-th smallest sample x, clamped buckets aside |
| LatencyHistogram.PercentileIsASample | src/log/ring_buffer.rs:430-452 | for every percentile above 0 the exact order statistic exists and is unique |
| LatencyHistogram.RankRange | src/log/ring_buffer.rs:438 | the rank ceil(pct/100 * total) lies between 0 and total, and is 0 only for percentile 0 |
| LatencyHistogram.RankIsCeiling | src/log/ring_buffer.rs:438 | the rank is the percentage of the total rounded up: pct * total <= 100 * rank < pct * total + 100 |
| LatencyHistogram.LatencyHistogram.Record | src/log/ring_buffer.rs:358-363 | counts the sample in its bucket, so that the buckets keep counting all samples recorded |
| LatencyHistogram.LatencyHistogram.Percentile | src/log/ring_buffer.rs:430-452 | none exactly for a percentage out of range or no samples; otherwise the bound of the bucket of the exact percentile, a factor-two approximation; the exact percentile exists for every percentage above 0 |
| TokenBucketSpec.TryConsumeInRange | src/service/resilience.rs:291-304 | the token count is within [0, capacity] after every call, for any clock and rate |
| TokenBucketSpec.TryConsumeBudget | src/service/resilience.rs:291-304 | a call creates no more tokens than the elapsed time earns |
| TokenBucketSpec.RunBudget | src/service/resilience.rs:291-304 | grants plus remaining tokens never exceed the tokens at the start plus what was earned |
| TokenBucketSpec.WindowBound | src/service/resilience.rs:291-304 | in any run over a monotone clock, calls i to j are granted at most capacity + max(rate, 0) * (t_j - t_i) |
| TokenBucketSpec.GrantIsExact | src/service/resilience.rs:291-304 | a call is granted exactly when a whole token is there after the refill and the capacity is not zero, and leaves exactly the clamped rest |
| TokenBucketSpec.RunConserves | src/service/resilience.rs:291-304 | over any run, grants plus remaining tokens plus what spilled over the capacity equal the tokens at the start plus what was earned |
| TokenBucketSpec.DeniedRunsGrantedTheRest | src/service/resilience.rs:291-304 | the lower bound: a run that ends in a denial has granted more than all tokens there and earned and not spilled, less one |
| TokenBucketSpec.PacedCallsAreGranted | src/service/resilience.rs:291-304 | calls at least one token's time apart are all granted |
| TokenBucketSpec.BurstsAreGranted | src/service/resilience.rs:291-304 | a burst of no more calls than there are tokens is granted |
| TokenBucketSpec.BulkIsSingleCalls | src/service/resilience.rs:307-317 | a bulk request is ordinary calls up to the first denial, and succeeds exactly when all are granted |
| TokenBucket.TokenBucket.TryConsume | src/service/resilience.rs:291-304 | refill, clamp and take, as specified |
| TokenBucket.TokenBucket.TryConsumeN | src/service/resilience.rs:307-317 | the loop computes the specified bulk request |
| IdempotencySpec.TrackedIsARecentPrefix | src/service/idempotency.rs:45-73 | after any marks the tracked ids are a most-recently-marked prefix of the distinct ids, at most the capacity of them (one for capacity zero), and at least min(distinct, window), the window being max - max(max/10, 1) or 1 |
| IdempotencySpec.BatchIsATenth | src/service/idempotency.rs:62-63 | one eviction removes a tenth of the capacity, rounded down, or one entry below a capacity of ten, and the window is the rest |
| IdempotencySpec.PlaceIsDistinctSince | src/service/idempotency.rs:45-51 | an id's place in the recency order is the number of distinct ids marked since its last mark |
| IdempotencySpec.MarkedIdsStayTracked | src/service/idempotency.rs:45-73 | an id stays tracked while fewer than the window of distinct ids follow, and is evicted once as many as the capacity do |
| IdempotencySpec.HandlerMarksOnlyUntracked | src/service/idempotency.rs:108-118 | over any run of the handler no id is marked while it is tracked |
| IdempotencySpec.SucceededIsNotRunAgain | src/service/idempotency.rs:108-118 | after an id succeeded, the handler is not run for it again within its window |
| Eviction.EvictionIsExact | src/service/idempotency.rs:62-73 | for any stamps: every eviction keeps exactly the most recently marked ids if and only if all of their stamps are later than all the others |
| Eviction.CutUnderMonotoneClock | src/service/idempotency.rs:62-73 | for a clock that does not go back this is decided by the two stamps at the cut |
| Eviction.MarkIsExact | src/service/idempotency.rs:45-51 | for any clock reading: one call leaves exactly the tracked ids of all marks so far, whichever of the oldest entries it evicts, if and only if it need not evict or has a clean cut to make |
| Eviction.TiesCanEvictTheLater | src/service/idempotency.rs:45-73 | the smallest instance: a full cache of two entries stamped alike can lose the later mark |
| IdempotencySpec.MarkKeepsRepresentation | src/service/idempotency.rs:45-51 | so over a run: the stamps keep the order of the marks always while the clock advances, and over clean cuts while it does not go back |
| Idempotency.IdempotencyService.EvictOldestBatch | src/service/idempotency.rs:62-73 | collect, sort by time and remove: exactly max(max/10, 1) entries go, none of them newer than one kept |
| Idempotency.IdempotencyService.MarkProcessed | src/service/idempotency.rs:45-51 | for any clock reading, room is made if the map is full, the id is stamped, and the capacity holds; while the readings increase, and over clean cuts while they do not go back, the map represents the tracked ids of all marks so far; while they increase it reaches the window |
| Idempotency.IdempotencyService.IsProcessed | src/service/idempotency.rs:31-33 | answers exactly whether the id has an entry, that is, whether it is among the tracked ids |
| Idempotency.IdempotentHandler.Process | src/service/idempotency.rs:108-118 | for any clock reading, runs the handler exactly for an id without an entry and marks only its success; while the readings increase this is the specified run |
| ChartOfAccounts.ValidationIsExact | src/domain/coa.rs:151-164 | a fresh account is accepted if and only if the chart stays acyclic with it, whether or not its parent exists |
| ChartOfAccounts.AcyclicWalksEnd | src/domain/coa.rs:151-164 | in an acyclic chart every parent walk ends |
| ChartOfAccounts.BuiltChartIsAForest | src/domain/coa.rs:102-164 | any chart built from fresh accounts that were each validated is acyclic and all its walks end, in whatever order parents and children came |
| ChartOfAccounts.FindAppended | src/domain/coa.rs:119-121 | finding by id in the chart with a fresh account added |
| ChartOfAccounts.ChartOfAccounts.ValidateNoCircularRef | src/domain/coa.rs:151-164 | the loop terminates on every chart, and accepts exactly the accounts whose parent walk ends without meeting them |
| ChartOfAccounts.ChartOfAccounts.AddAccount | src/domain/coa.rs:102-111 | appends the account; a debug build refuses exactly what does not validate, and so keeps the chart well built |

## Left out

- DisciplinedRunIsLinearized: the balance returned by a call is whatever its own write left at that moment (`AccountAnswers.ReturnedBalancesWereWritten`) and is not part of the linearized specification; neither are the status check made before the loops (`AccountAnswers.LoggedCallsWereFoundOpen`), an overflow at the first write of a credit, or the refusal of a release, which the source decides from two separate loads (`AccountAnswers.FailuresAreJustified`).
- DisciplinedRunIsSafe: assumes that each caller releases no more than it holds, which the source leaves to its callers; `AccountRaces` says what happens otherwise.
- IdempotencySpec.MarkKeepsRepresentation: for a clock that goes back, the stamps no longer stand for the order of the marks over a run; what one call then does is exactly `Eviction.MarkIsExact`.
- Idempotency.IdempotencyService.MarkProcessed: `check_and_mark` and `evict_older_than` are not modelled; the former inserts without the capacity check.
- Journal.ReverseIsExact: a reversal is described as "REVERSAL" here; the source adds the identifier of the entry. Time stamps of entries are left out.
- SagaSpec.SagaIsAllOrNothing: supposes that external calls and event actions of a saga succeed; only account actions can fail. Definitions are not replaced while the saga runs.
- Saga.SagaOrchestrator.StepSucceeded: requires that the name of an active saga is known, as every call guarantees, because definitions are replaced but never removed.
- ChunkedVerification.VerifyChunk: the chunks are checked one after another, not on several threads.
- HashChain.HeadCommitsToHistory: years beyond 9999, whose RFC 3339 text has another shape, are left out; so is SHA-256 itself, which is an arbitrary function to 64 bytes.
- RingBuffer.RingBuffer.TryPush: one atomic call here, in two steps in `RingBufferGap`; the wrap-around of the 64-bit cursors is left out, and so are several producers or consumers, which the source does not support.
- LatencyHistogram.LatencyHistogram.Percentile: real arithmetic in place of f64, and no overflow of the 64-bit bound, which needs more than 54 buckets; minimum, maximum and mean are left out.
- TokenBucketSpec.WindowBound: real arithmetic in place of f64; each call's two clock readings are parameters.
- ChoreographySpec.ConservationIsExact: handlers are atomic, amounts are unbounded integers rather than decimals, each correlation id names one fixed transfer, and accounts are seeded before the run.
- LedgerSpec.JournalReplayGivesBalances: the ledger runs on accounts as values in a map, one request at a time; locks, aliasing and concurrent access to the map are left out.
- ChartOfAccounts.ChartOfAccounts.AddAccount: names, versions and statuses of accounts, and listing by code or category.
- Memory orderings weaker than sequential consistency; the account code uses only the latter.
- i64 amounts are integers, with the checked and wrapping additions of the source written out; error enumerations are merged where they carry no more than their name.
- Generation of UUIDs (fresh numbers stand for them), wall clocks, logging, and the mutex around an account's status.
- Queries that only read: balances, block lookup, position proofs, saga status, event history.
- `DeadlockDetector::release` and the sample-based latency statistics beside it.
- Saga outbox, timeouts and graph output; the transaction and notification services of the choreography, which keep no money.
- HTTP handlers, persistence, signing and HMAC, the file-backed event log, roles and identities, money formatting, bulkheads, circuit breakers, chaos testing and benchmarks: they call external crates (axum, tokio, surrealdb, rust_decimal, sha2, ed25519-dalek), or would add only small map updates.
