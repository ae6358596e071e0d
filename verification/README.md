# Signer Sidekick: a Dafny model of its protocols

Signer Sidekick reads several unreliable views of one chain (a local node, an indexed API, observer callbacks) and
turns them into durable operator state. This project models the protocols that do so and proves what they promise,
over every interleaving of awaits, crashes, reorganizations and faulty answers the code allows for.

Each file is one component:

| file | component |
|---|---|
| `EventSync.dfy` | resumable copy of the newest-first manager log, early stop and reorg repair |
| `ActivityPaging.dfy` | keyset pagination of the activity history under two nested limits |
| `BurnBlocks.dfy` | the 200-block display window and the 30-block refresh spliced onto it |
| `BlockTree.dfy`, `Canonicality.dfy` | a growing block tree with a moving tip; observer verdicts, anchor proofs, operator snapshots, inclusion proofs |
| `Reconciliation.dfy` | the coalescing retry scheduler of four domains |
| `InboxDrain.dfy` | the drain loop over the durable observer inbox |
| `Mempool.dfy` | double bounded enumeration of the mempool |
| `GasWallet.dfy`, `SweepPlan.dfy`, `CanonicalJson.dfy` | the sweep lifecycle, its sealed plan and the text that seals it |
| `NakamotoBlock.dfy`, `Wire.dfy` | the block walk (SIP-021 header layout) and its byte format |
| `Anchors.dfy` | chain anchors and the half-cycle a reward calculation targets |
| `HealthCounters.dfy`, `HealthHistogram.dfy` | restart-tolerant counters, the response gap and the windowed 95th percentile |
| `ContractReads.dfy` | the slot-passing read limit and its per-tip cache |
| `BundleReachability.dfy` | the build check on eager wallet code |
| `Text.dfy`, `Sequences.dfy`, `Wrappers.dfy` | strings in code-unit order, stable sorting, option and result types |

How the parts of the source appear here:

- Code that changes state step by step is a class or a method with a loop, specified by functions whose properties are
  then proved; expressions and recursion are functions and lemmas.
- An `await` is a point where the rest of the system may act. Loops and handlers are cut there, and a driver method
  (`RunPasses`, `FollowChain`, `RunEvents`, `Drain`) runs any sequence of such steps.
- Servers are functions from the request's number and arguments to an answer, so they may change or lie between any
  two requests; honesty, where a property needs it, is a named predicate (`HonestOrDown`, `Served`).
- State that only the proof needs (ledgers of requests, submissions, logs of what the drain did) is ghost. In
  `Reconciliation` each request has one place: waiting, running, served by a run, or dropped by a stop.
- Instants are integers in milliseconds. Hashes and digests are injective. Addresses, dates, transaction building and
  transaction decoding are parameters.

## What the proofs found

Where a promise fails, the code is modelled as it is, and the member named says when it fails.

- A reorganization that re-inserts an event below known events is hidden by the early stop:
  `EventSync.EarlyStopHidesAReinsertedEvent` stores a whole log, puts one event back into it and lets the next
  incremental pass meet a wholly known first page. `EventSync.EarlyStopIsCompleteExactlyWhen` says for any log and store
  when the stop is right: when the store held everything below that page already. `Sync` states it of every finished
  incremental pass, with no assumption on earlier passes.
- A stored height that no longer agrees with the log costs an event of the log its canonical flag
  (`EventSync.StaleHeightIsMarkedMissing`, exact condition in `EventSync.RepairSparesTheLogExactlyWhen`).
- A clock that goes back behind the other vocabulary's checkpoint leaves that one trusted.
  `EventSync.ClockGoingBackKeepsAStaleClaim` commits two pages that leave a trusted null cursor above a hole.
  `EventSync.WriteVoidsTheOtherExactlyWhen` compares the clocks for every pair of checkpoints, and `PutPage` says when
  the claim left standing is still right: when nothing between its cursor and the page was missing. `Sync` and
  `RunPasses` hold under any clock and say what is lost when it goes back.
- A scheduler request with a malformed height or callback time throws after it has set `pending` and before it arms a
  timer. `Reconciliation.Domain.Request` states exactly when work is then left without a timer, and
  `Reconciliation.MalformedRequestStrandsWork` shows it. The next well-formed request repairs it.
- A delivery whose finish is committed but whose payload pruning then fails is never announced. Within one process that
  is the only way: `InboxDrain.ObserverInboxProcessor.Conclude` and `TryOne` name the lost delivery if and only if it
  happened, a whole `Drain` loses at most the one of its last attempt, and `InboxDrain.PruningFaultSilencesADelivery`
  shows one. (A process that exits between the commit and the follow-up call loses it too.)
- A drain also gives up, however well the store works, when somebody else quarantines or recovers the delivery it is
  verifying; `InboxDrain.ObserverInboxProcessor.TryOne` states exactly when.
- Before a broadcast the ended status of a sweep is not frozen: a stale account read or a signing failure overwrites
  `cancelled` (`GasWallet.CancelledSweepMayTurnFailed`; `AccountRead` and `SignDone` state exactly when). It is still
  never submitted.

## Model

| member | source | states |
|---|---|---|
| EventSync.GrowthKeepsHoleFree | apps/sidekick/src/manager-event-sync.ts:222-233 | appends between two requests never open a hole in what is stored |
| EventSync.CommitKeepsHoleFree | apps/sidekick/src/manager-event-sync.ts:331-342 | one committed page extends the hole-free stretch down to its oldest event |
| EventSync.OverlapClosesTheGap | apps/sidekick/src/manager-event-sync.ts:244-277 | one known event below a scan plus an earlier closed store make everything down to the oldest event present, which is why a known page may end the pass |
| EventSync.WriteVoidsTheOtherExactlyWhen | apps/sidekick/src/manager-event-sync.ts:100-120 | a write voids the other vocabulary's checkpoint if and only if its clock is not behind it, and is itself trusted if and only if its clock is ahead |
| EventSync.LatestStreamDecides | apps/sidekick/src/manager-event-sync.ts:100-120 | under any clock the backfill invariant after a write is exactly the claim of the strictly later checkpoint, and nothing on a tie |
| EventSync.ClaimSurvivesExactlyWhen | apps/sidekick/src/manager-event-sync.ts:331-342 | a page stored above the cursor of an earlier claim keeps it true if and only if nothing between the claim's cursor and the page was missing |
| EventSync.EarlyStopIsCompleteExactlyWhen | apps/sidekick/src/manager-event-sync.ts:244-277 | for any log and store the early stop leaves everything up to the scan's head stored if and only if everything below the known page was stored before |
| EventSync.PutPageSize | apps/sidekick/src/manager-event-sync.ts:297-305 | storing a page adds exactly as many rows as it has unknown events |
| EventSync.BoundaryFollowsThePages | apps/sidekick/src/manager-event-sync.ts:343-354 | on a height-ordered log the tracked boundary is the height of the oldest event scanned |
| EventSync.RepairIsExact | apps/sidekick/src/manager-event-sync.ts:369-379 | marking spares every event of the log and hits exactly the canonical rows above the boundary that left it |
| EventSync.RepairSparesTheLogExactlyWhen | apps/sidekick/src/storage/store.ts:2838-2885 | the repair spares the log if and only if no unscanned event of the log is stored above the boundary |
| EventSync.EarlyStopHidesAReinsertedEvent | apps/sidekick/src/manager-event-sync.ts:244-277 | a run: a complete store, a reorganization that puts one event back, and an incremental pass that ends at a known page with a trusted null cursor and without that event |
| EventSync.StaleHeightIsMarkedMissing | apps/sidekick/src/manager-event-sync.ts:261-266 | a concrete stale stored height under which an event of the log loses its canonical flag |
| EventSync.ClockGoingBackKeepsAStaleClaim | apps/sidekick/src/manager-event-sync.ts:117-119 | a run: the whole log committed under one vocabulary, the log grows, a page committed under the other with a clock that went back; the old null cursor stays trusted above a hole |
| EventSync.ManagerEventSync.PutPage | apps/sidekick/src/storage/store.ts:1888-1900 | rows and cursor change in one step that keeps the backfill invariant unless its clock is behind the other checkpoint; that one is then rightly trusted exactly when nothing between its cursor and the page was missing |
| EventSync.ManagerEventSync.StopAtOverlap | apps/sidekick/src/manager-event-sync.ts:244-277 | the early stop writes a null cursor only; the store is then complete exactly when it held everything below the known page, which an earlier closed store guarantees |
| EventSync.ManagerEventSync.Sync | apps/sidekick/src/manager-event-sync.ts:191-393 | from any state and under any clock: a pass cut off anywhere keeps the closure invariant unless its clock was behind; a finished full one stored everything from its scan's head down, an incremental one exactly when all below where it stopped was stored; repair is exact above the boundary and the event counts are conserved |
| EventSync.ManagerEventSync.RunPasses | apps/sidekick/src/manager-event-sync.ts:191-393 | after any passes, interruptions and appends, a trusted null cursor means that a stored event implies every older one is stored, unless a pass had a clock behind the other checkpoint, which passes in time order never have |
| ActivityPaging.ReadPage | apps/sidekick/src/activity-projection.ts:1272-1321 | one request answers the page its remaining keys determine, with at most 200 hydrations, early exit or not |
| ActivityPaging.ProjectOfScan | apps/sidekick/src/activity-projection.ts:415-452 | filtering, sorting and cursor cutting leave an ordered scan of matching records as it is, cut at the limit |
| ActivityPaging.ScanDecidesThePage | apps/sidekick/src/activity-projection.ts:1297-1307 | stopping one match past the limit shows the same items and cursor as scanning all 200 keys |
| ActivityPaging.EligibleContinues | apps/sidekick/src/storage/activity-read-repository.ts:28-115 | the index after the i-th eligible key is exactly the keys behind it |
| ActivityPaging.PrefilterHidesNothing | apps/sidekick/src/activity-projection.ts:1279-1295 | the index's type and time bounds never hide a record the full filter shows |
| ActivityPaging.PageAdvances | apps/sidekick/src/activity-projection.ts:1308-1321 | a page takes a prefix of the remaining matches, its cursor stands for exactly the rest, and the rest is strictly smaller |
| ActivityPaging.WalkVisitsHistoryExactlyOnce | apps/sidekick/src/activity-projection.ts:1272-1321 | following the cursor to its end yields the matching history, each record once, for any limit and however often the hydration bound cut a page |
| ActivityPaging.MatchingHistoryIsExact | apps/sidekick/src/activity-projection.ts:389-413 | that history holds exactly the matching records in strict history order |
| BurnBlocks.GetBurnBlocks | apps/sidekick/src/chain-clients.ts:1113-1153 | against any server: at most seven requests, accepted rows gap-free, distinct, of one total and each at the place the server gave it; an honest server is read exactly |
| BurnBlocks.SubsetBySize | apps/sidekick/src/burn-block-history.ts:50-56 | the counting argument: a list with as many distinct rows as one it is drawn from holds them all |
| BurnBlocks.CountingOverlap | apps/sidekick/src/burn-block-history.ts:40-56 | recent rows that agree with the cache in the expected number contain every cached row from their oldest height up |
| BurnBlocks.SpliceKeepsTheWindow | apps/sidekick/src/burn-block-history.ts:53-70 | for any server an accepted splice is strictly descending, min(200, total) long, starts no lower and keeps every cached row not pushed out |
| BurnBlocks.SpliceIsFullRead | apps/sidekick/src/burn-block-history.ts:36-71 | on a history that only gained higher blocks the splice equals the full read |
| BurnBlocks.SpliceAcceptedExactlyWhen | apps/sidekick/src/burn-block-history.ts:53-67 | there the short refresh is refused if and only if 30 or more rows arrived |
| BurnBlocks.BurnBlockHistory.Refresh | apps/sidekick/src/burn-block-history.ts:25-78 | failures change nothing, successes are at most an hour from a full read, keep the window invariant and equal the full read of an honest history |
| BurnBlocks.FollowChain | apps/sidekick/src/burn-block-history.ts:25-78 | over whole runs with failed fetches and clock jumps every answer is the full read of its moment |
| BlockTree.AncestorIsReachable | apps/sidekick/src/chain-clients.ts:949-959 | the block at a height under a tip is that block exactly when parent links lead to it |
| BlockTree.AncestryIsStable | apps/sidekick/src/chain-clients.ts:949-959 | a tip-pinned read is a function of the tree: later blocks never change it |
| Canonicality.BytesAgreeExactlyWhenCanonical | apps/sidekick/src/observer-inbox.ts:100-133 | a block read by id equals the block read at a height under a tip exactly when it is that tip's ancestor there |
| Canonicality.VerdictIsAboutTheBranch | apps/sidekick/src/observer-inbox.ts:54-139 | node-verified and mismatch verdicts are right about the tip reported before and after, whatever happened between; with everything served and the tip stable ancestry alone decides |
| Canonicality.OnlyCanonicalBlocksVerify | apps/sidekick/src/observer-inbox.ts:164-180 | only a Stacks block that is an ancestor of the reported tip, at its claimed height, is ever verified |
| Canonicality.BytesEqual | apps/sidekick/src/node-chain-anchor-proof.ts:9-15 | the byte loop accepts exactly equal, non-empty strings |
| Canonicality.AnchorProofIsAncestry | apps/sidekick/src/node-chain-anchor-proof.ts:33-52 | canonical and non-canonical are answered by ancestry, and no answer only when a needed read was not served |
| Canonicality.CanonicalBytesAreOnTheBranch | apps/sidekick/src/canonical-node-block.ts:36-58 | bytes come back only for the block on the captured tip's branch, reorged only for one off it |
| Canonicality.CheckTransaction | apps/sidekick/src/canonical-node-block.ts:70-85 | the check answers as its specification over the canonical bytes and the whole decoded block |
| Canonicality.TransactionProofIsRight | apps/sidekick/src/canonical-node-block.ts:70-85 | over any history included, absent and reorged are each claimed only when true, and one is claimed whenever the reads are served |
| Canonicality.RetryAnchor | apps/sidekick/src/operator-anchor-snapshot.ts:121-141 | at most three attempts, repeated only after retryable errors; the result is the first that is none, or the third |
| Canonicality.CapturedAnchorIsATip | apps/sidekick/src/chain-clients.ts:1686-1698 | a captured anchor is the node's tip, with its height, at the moment its tenure was read |
| Canonicality.SnapshotIsAnchored | apps/sidekick/src/operator-anchor-snapshot.ts:51-119 | a returned snapshot is anchored at an ancestor of, or the same block as, the later anchor, in the same half-cycle and phase; its manager, registration and readiness, read at three moments, are all facts of that block; with reads served these are the only conditions |
| Anchors.AnchorIsTheUniqueSplit | apps/sidekick/src/chain-clients.ts:1545-1614 | cycle and position are the one Euclidean split of the burn height even when the API lags a cycle; the exact conditions for an anchor; the position guard never fires |
| Anchors.CreateNodeChainAnchor | apps/sidekick/src/chain-clients.ts:1616-1649 | a node anchor satisfies the schema and names the tenure's tip, height and cycle |
| Anchors.CurrentHalfIs | apps/sidekick/src/chain-anchor.ts:32-53 | the anchor's cycle and checkpoint are the half-cycle its burn height lies in |
| Anchors.TargetClosedForm | apps/sidekick/src/chain-anchor.ts:84-144 | a ready target is the half-cycle before the current one, held at the first active one, and the expected height is its last block |
| Anchors.TargetExactlyWhen | apps/sidekick/src/chain-anchor.ts:84-144 | the exact conditions for a target |
| Anchors.TargetsAreMonotone | apps/sidekick/src/chain-anchor.ts:84-144 | along one chain target and expected height never move back |
| Reconciliation.EarliestCallbackIsLeast | apps/sidekick/src/observer-reconciliation.ts:347-354 | the kept callback time is that of some request and no other is earlier |
| Reconciliation.RecordingSummarises | apps/sidekick/src/observer-reconciliation.ts:244-256 | the latency statistics summarise exactly the latencies recorded |
| Reconciliation.BucketsAreCumulative | apps/sidekick/src/observer-reconciliation.ts:250-255 | the latency buckets are cumulative and within the sample count |
| Reconciliation.BackoffIsBoundedAndMonotone | apps/sidekick/src/observer-reconciliation.ts:534-541 | retry delays stay positive and within the configured maximum and honour a rate limit's own delay from a second up; backoff alone never shortens; the exact condition for a shorter delay when the later or the earlier failure names one |
| Reconciliation.Domain.Schedule | apps/sidekick/src/observer-reconciliation.ts:457-468 | a timer is armed only when started, idle and without one |
| Reconciliation.Domain.Request | apps/sidekick/src/observer-reconciliation.ts:334-358 | the request waits with its heights and callback; a malformed one throws, and due work is then unarmed exactly when nothing ran or was timed |
| Reconciliation.Domain.Fire | apps/sidekick/src/observer-reconciliation.ts:457-486 | a run takes everything waiting with the heights and earliest callback so far, or is put off |
| Reconciliation.Domain.Settle | apps/sidekick/src/observer-reconciliation.ts:487-561 | success serves the run's requests and records the latency of their earliest callback; failure puts them back with it and arms the retry |
| Reconciliation.Domain.Halt | apps/sidekick/src/observer-reconciliation.ts:426-443 | stop drops exactly what waits and aborts the run |
| Reconciliation.Domain.RestMeansServed | apps/sidekick/src/observer-reconciliation.ts:334-561 | at rest every request was served by a run that began after it and reached its heights, or dropped by a stop |
| Reconciliation.ObserverReconciliationScheduler.Start | apps/sidekick/src/observer-reconciliation.ts:321-332 | start requests three domains, arms an earlier roster request and leaves all due work armed |
| Reconciliation.ObserverReconciliationScheduler.RequestCatchUp | apps/sidekick/src/observer-reconciliation.ts:360-366 | catch-up asks every domain once and leaves all due work armed |
| Reconciliation.ObserverReconciliationScheduler.NotifyProcessed | apps/sidekick/src/observer-reconciliation.ts:368-411 | which domains a finished delivery asks, and with which anchor |
| Reconciliation.ObserverReconciliationScheduler.BackfillFires | apps/sidekick/src/observer-reconciliation.ts:445-455 | the periodic timer asks two domains and stays set while started |
| Reconciliation.ObserverReconciliationScheduler.Stop | apps/sidekick/src/observer-reconciliation.ts:426-443 | stop clears all timers and pending work of all four domains |
| Reconciliation.ObserverReconciliationScheduler.Step | apps/sidekick/src/observer-reconciliation.ts:321-561 | any event keeps the invariants of all four domains; a request is served only by a successful settlement, by the run that settled; only a malformed request can leave due work unarmed; without a stop only what a run cut off by an earlier stop had taken can be dropped |
| Reconciliation.ObserverReconciliationScheduler.RunEvents | apps/sidekick/src/observer-reconciliation.ts:321-561 | over any run every request served meanwhile was served by a run that one of the events settled successfully; due work is armed unless a request was malformed; without a stop nothing is dropped but what a run cut off earlier had taken |
| Reconciliation.ObserverReconciliationScheduler.FollowDelivery | apps/sidekick/src/observer-reconciliation.ts:368-411 | from any reachable state a verified delivery's manager request stays waiting, or in a run that cannot drop it, until a later run that asked for its height serves it, and one of the events is the success of that run |
| Reconciliation.MalformedRequestStrandsWork | apps/sidekick/src/observer-reconciliation.ts:342-357 | a concrete malformed height: the request throws and leaves pending work with no run and no timer |
| InboxDrain.NextClaim | apps/sidekick/src/storage/observer-inbox-repository.ts:493-536 | a claim takes an eligible row that no eligible row goes before, and none only when none is eligible |
| InboxDrain.ClaimableAfterUpdate | apps/sidekick/src/storage/observer-inbox-repository.ts:493-536 | the number of claimable rows after one row changes, the measure by which the drain ends |
| InboxDrain.ObserverInboxProcessor.ReturnToQueue | apps/sidekick/src/observer-inbox.ts:350-367 | the targeted retry, else the recovery of every claim, else exactly one stranded claim |
| InboxDrain.ObserverInboxProcessor.Finish | apps/sidekick/src/storage/observer-inbox-repository.ts:538-559 | a finish needs a processing row, and may throw after it is durable |
| InboxDrain.ObserverInboxProcessor.Conclude | apps/sidekick/src/observer-inbox.ts:284-333 | the row stays in processing if and only if it still was, nothing was committed and both its retry and the recovery failed; it is final but never announced if and only if its finish committed and pruning then failed; the exact condition for giving up |
| InboxDrain.ObserverInboxProcessor.TryOne | apps/sidekick/src/observer-inbox.ts:281-334 | no row is newly left in processing but the claimed one, after a failed retry and a failed recovery of this very attempt; the exact conditions for that, for a lost announcement and for giving up; with a frozen clock fewer rows are claimable after it |
| InboxDrain.ObserverInboxProcessor.Batch | apps/sidekick/src/observer-inbox.ts:280-334 | a batch makes at most its size of attempts, counts exactly the announced deliveries, and leaves a row in processing or unannounced only as its last attempt's mishap |
| InboxDrain.ObserverInboxProcessor.Drain | apps/sidekick/src/observer-inbox.ts:275-343 | terminates against any eventually quiet environment; final rows stay final; at most the row of the last attempt is left in processing, by its own double fault, or unannounced; it ends for one of six reasons, each with its condition, and with smooth attempts nobody hinders only when nothing was due at the clock of the last claim |
| InboxDrain.ObserverInboxProcessor.Start | apps/sidekick/src/observer-inbox.ts:234-242 | starting frees every claim left over |
| InboxDrain.PruningFaultSilencesADelivery | apps/sidekick/src/observer-inbox.ts:284-333 | a concrete attempt whose delivery ends final and never announced |
| InboxDrain.ObserverInboxProcessor.FinishedOnceThenAnnounced | apps/sidekick/src/observer-inbox.ts:305-318 | each delivery is finished at most once and announced at most once, right after its finish |
| Mempool.PageVerdictMeans | apps/sidekick/src/chain-clients.ts:1419-1429 | each early rejection names a fact about the page |
| Mempool.ScanVerdictMeans | apps/sidekick/src/chain-clients.ts:1439-1456 | complete means a full cursor chain; each other outcome names a fact; otherwise the scan's invariant goes on |
| Mempool.Enumerate | apps/sidekick/src/chain-clients.ts:1363-1459 | at most maxPages requests against any server; complete if and only if the cursors lead in order to a null next through exactly the reported number of distinct rows within bounds |
| Mempool.SnapshotsCompareFacts | apps/sidekick/src/chain-clients.ts:564-583 | snapshots agree exactly when the same facts were seen, whatever the row order |
| Mempool.ActivitiesAreExact | apps/sidekick/src/chain-clients.ts:1312-1347 | one activity for each role the principal plays in each row, and no other |
| Mempool.EnumerateGasPayer | apps/sidekick/src/chain-clients.ts:1279-1361 | complete means that two full chains saw the same facts, snapshot-changed that they did not; and two full chains that are served give complete if and only if their facts agree |
| GasWallet.GasWalletService.Update | apps/sidekick/src/storage/gas-wallet-sweep-repository.ts:185-228 | a row and its authorization change together, along the allowed evolution only |
| GasWallet.GasWalletService.Insert | apps/sidekick/src/storage/gas-wallet-sweep-repository.ts:119-168 | a sweep is planned if and only if its wallet is free |
| GasWallet.GasWalletService.BeginPrepare | apps/sidekick/src/gas-wallet.ts:933-950 | preparing is refused while a sweep is active or a run executes |
| GasWallet.GasWalletService.BeginApprove | apps/sidekick/src/gas-wallet.ts:513-554 | approval starts exactly for a planned, unexpired sweep, once at a time |
| GasWallet.GasWalletService.AccountRead | apps/sidekick/src/gas-wallet.ts:554-591 | a changed account expires the sweep, and only so is a cancelled one overwritten; otherwise signing starts only if it is still planned and unexpired |
| GasWallet.GasWalletService.SignDone | apps/sidekick/src/gas-wallet.ts:591-615 | the transaction id is recorded as broadcast only for a sweep still planned and unexpired; a cancelled one is overwritten if and only if signing failed |
| GasWallet.GasWalletService.Submit | apps/sidekick/src/gas-wallet.ts:603-621 | what is submitted is the recorded transaction of a row that was neither cancelled nor expired |
| GasWallet.GasWalletService.Response | apps/sidekick/src/gas-wallet.ts:619-660 | the broadcast's answer changes a row only while it is broadcast without a conflict |
| GasWallet.GasWalletService.Cancel | apps/sidekick/src/gas-wallet.ts:662-672 | only a planned sweep is cancelled |
| GasWallet.GasWalletService.ExpirePlanned | apps/sidekick/src/gas-wallet.ts:912-917 | listing expires the active sweep only when planned and elapsed |
| GasWallet.GasWalletService.BeginRefresh | apps/sidekick/src/gas-wallet.ts:675-717 | a refresh expires an elapsed plan or reads a broadcast sweep, once at a time |
| GasWallet.GasWalletService.Refreshed | apps/sidekick/src/gas-wallet.ts:710-788 | an outcome settles or flags a row only while it is broadcast |
| GasWallet.GasWalletService.SubmittedAtMostOnce | apps/sidekick/src/gas-wallet.ts:591-660 | each sweep is submitted at most once, with the transaction recorded beforehand |
| GasWallet.GasWalletService.NeverSubmittedWhenEnded | apps/sidekick/src/gas-wallet.ts:662-672 | a planned, cancelled or expired sweep was never submitted |
| GasWallet.GasWalletService.OneActiveSweepPerWallet | apps/sidekick/src/storage/gas-wallet-sweep-repository.ts:119-168 | at most one sweep of a wallet is active, and it holds the wallet's authorization; with one wallet, at most one sweep is active at all |
| GasWallet.GasWalletService.Step | apps/sidekick/src/gas-wallet.ts:513-788 | any event keeps all invariants; only a submission submits |
| GasWallet.GasWalletService.RunEvents | apps/sidekick/src/gas-wallet.ts:427-950 | over any interleaving, crashes included, a broadcast sweep moves only to confirmed or failed and stays, and one that ended before is never submitted |
| GasWallet.CancelledSweepMayTurnFailed | apps/sidekick/src/gas-wallet.ts:591-600 | a concrete run in which a sweep that reads as cancelled later reads as failed, with no submission |
| CanonicalJson.PieceUnique | apps/sidekick/src/gas-wallet-sweep.ts:88-99 | an escaped piece of a string is recognised where it stands, lone surrogates included (section 7 of RFC 8259) |
| CanonicalJson.EscapeUnique | apps/sidekick/src/gas-wallet-sweep.ts:88-99 | a quoted string has one reading and ends where it ends |
| CanonicalJson.PlainUnique | apps/sidekick/src/gas-wallet-sweep.ts:88-99 | a value's text has one reading |
| CanonicalJson.CanonicalIsPlainOrdered | apps/sidekick/src/gas-wallet-sweep.ts:95-98 | the canonical text is the plain text of the value with every object's members in key order |
| CanonicalJson.EquivalentExactlyWhenOrderedEqual | apps/sidekick/src/gas-wallet-sweep.ts:95-98 | ordering keys decides equality up to key order, at every depth |
| CanonicalJson.CanonicalTextDecides | apps/sidekick/src/gas-wallet-sweep.ts:88-99 | equal canonical text if and only if equal up to object key order |
| SweepPlan.TrimIsIdempotent | apps/sidekick/src/gas-wallet-sweep.ts:115-141 | a trimmed recipient passes the same check again unchanged |
| SweepPlan.BuiltPlansRevalidate | apps/sidekick/src/gas-wallet-sweep.ts:195-254 | a built plan has positive amount and fee that add up to the balance, a recipient other than the wallet, and is accepted unchanged |
| SweepPlan.SealedValueDecides | apps/sidekick/src/gas-wallet-sweep.ts:209-222 | different material has a different sealed value |
| SweepPlan.DigestSealsThePlan | apps/sidekick/src/gas-wallet-sweep.ts:232-254 | two accepted plans with one digest are the same plan, transaction included |
| SweepPlan.ChangedMaterialIsRejected | apps/sidekick/src/gas-wallet-sweep.ts:232-254 | any change to an accepted plan's material has it rejected |
| Wire.ReadsBack | apps/sidekick/src/nakamoto-block.ts:36-45 | a written 32-bit count reads back wherever it stands |
| NakamotoBlock.TransactionArrayOffset | apps/sidekick/src/nakamoto-block.ts:29-58 | the header walk finds the end its fields determine, reads nothing out of range and fails otherwise |
| NakamotoBlock.HeaderWalkEnds | apps/sidekick/src/nakamoto-block.ts:29-58 | for any header, shadow bit or not, the walk ends where the serialization does |
| NakamotoBlock.WalkedIsSerialized | apps/sidekick/src/nakamoto-block.ts:29-58 | any header the walk accepts is the serialization of the header it read |
| NakamotoBlock.ReadTransactions | apps/sidekick/src/nakamoto-block.ts:73-98 | the loop yields the transactions of a block consumed to its last byte, or the error of its specification |
| NakamotoBlock.FindTransaction | apps/sidekick/src/nakamoto-block.ts:100-110 | the last match of a wholly consumed block |
| NakamotoBlock.FoundExactlyWhenContained | apps/sidekick/src/nakamoto-block.ts:100-116 | a transaction is found if and only if the list contains its id |
| NakamotoBlock.BlockRoundTrip | apps/sidekick/src/nakamoto-block.ts:29-98 | reading a serialized block gives exactly its transactions, for any version, signatures, bit vector, markers and list |
| NakamotoBlock.AcceptedIsSerialized | apps/sidekick/src/nakamoto-block.ts:73-92 | an accepted byte string is to its last byte the serialization of what was read |
| HealthCounters.CounterIncrease | apps/sidekick/src/health-monitoring-state.ts:97-114 | the loop adds the restart-tolerant steps between present samples |
| HealthCounters.NeverOverCounts | apps/sidekick/src/health-monitoring-state.ts:97-114 | sampled at any moments through any restarts the increase is at most the true number of steps |
| HealthCounters.DroppingSamplesLowers | apps/sidekick/src/health-monitoring-state.ts:97-114 | dropping samples can only lower the increase |
| HealthCounters.SettledNeverExceedAll | apps/sidekick/src/health-monitoring-presentation.ts:222-226 | settled proposals never exceed all proposals |
| HealthCounters.IncreaseTelescopes | apps/sidekick/src/health-monitoring-state.ts:97-114 | without restarts and gaps the increase is last minus first |
| HealthCounters.PromptSignerHasNoGap | apps/sidekick/src/health-monitoring-presentation.ts:186-239 | a signer that answers each proposal within the settle window has response gap null or 0 |
| HealthHistogram.ReadSnapshot | apps/sidekick/src/health-monitoring-state.ts:137-160 | a usable snapshot has one count per bound, cumulative and within its total |
| HealthHistogram.SumsStayCumulative | apps/sidekick/src/health-monitoring-state.ts:162-193 | through any restarts, malformed scrapes and bad intervals the sums stay non-decreasing and within the total |
| HealthHistogram.SumsTelescope | apps/sidekick/src/health-monitoring-state.ts:166-194 | without interruption the sums are the last scrape less the first |
| HealthHistogram.AccumulateInPlace | apps/sidekick/src/health-monitoring-state.ts:166-194 | the in-place loop computes the accumulated sums |
| HealthHistogram.Interpolate | apps/sidekick/src/health-monitoring-state.ts:196-215 | the result lies inside the first bucket that reaches 95 percent or is the last bound; the zero-span branch is unreachable |
| HealthHistogram.HistogramStats | apps/sidekick/src/health-monitoring-state.ts:116-216 | exactly when a percentile is given, and what it means |
| ContractReads.BackgroundContractReads.At | apps/sidekick/src/background-contract-reads.ts:27-40 | a generation is reused exactly for the same node and tip within five minutes of a clock that did not go back |
| ContractReads.BackgroundContractReads.ReadThrough | apps/sidekick/src/background-contract-reads.ts:41-61 | a cached read was issued for its wrapper's node, tip and key, even after the wrapper's generation was replaced; other tips bypass the cache |
| ContractReads.BackgroundContractReads.Enqueue | apps/sidekick/src/background-contract-reads.ts:76-79 | a free slot is taken at once, otherwise the read queues last |
| ContractReads.BackgroundContractReads.Resume | apps/sidekick/src/background-contract-reads.ts:78-82 | a cancelled waiter gives its slot on unused |
| ContractReads.BackgroundContractReads.Finish | apps/sidekick/src/background-contract-reads.ts:83-88 | a settled read hands its slot to the longest-waiting one or gives it back |
| ContractReads.BackgroundContractReads.Evict | apps/sidekick/src/background-contract-reads.ts:56-58 | a failed read leaves the cache only if it is still the one there |
| ContractReads.BackgroundContractReads.NoSlotLeaks | apps/sidekick/src/background-contract-reads.ts:76-89 | once every read has settled no slot is taken and nobody waits |
| ContractReads.BackgroundContractReads.RunEvents | apps/sidekick/src/background-contract-reads.ts:27-89 | over any interleaving at most eight slots, waiters only when all are taken, and while a read waits no later one has or has had a slot; maps within 512 entries, targets unchanged |
| BundleReachability.ClosedHoldsPaths | apps/dashboard/vite.config.ts:24-30 | a set closed under imports holds every path from its members |
| BundleReachability.BundleCheck.Visit | apps/dashboard/vite.config.ts:25-30 | terminates on any finite graph; what it adds is reachable and fully followed |
| BundleReachability.BundleCheck.VisitRoots | apps/dashboard/vite.config.ts:31-36 | the visited set is exactly what static imports reach from entry and connect chunks |
| BundleReachability.BundleCheck.Check | apps/dashboard/vite.config.ts:8-41 | passes if and only if no such path reaches a boundary chunk, and otherwise names exactly those reached |

## Left out

- HTTP, retries inside one fetch, SQLite, timers' real-time behaviour, routes, command line and pages: I/O and presentation.
- Field validation by schemas, Clarity decoding, address checks, signing and SHA-256: foreign code, taken as parameters.
- EventSync: transaction evidence, payload decoding and decode-failure counts; the branches that refuse a repeated cursor are unreachable for an honest log and are proved so, not modelled for a dishonest one.
- EventSync.ManagerEventSync.Await: while a pass runs the log only grows; what it was before the pass is arbitrary.
- EventSync.ManagerEventSync.Sync: repair exactness is stated for an unchanging, height-ordered log whose stored heights agree, because the members under "What the proofs found" show it fails otherwise.
- ActivityPaging: the order of active records on a page and how a record is assembled; one spelling per instant is assumed, since the source breaks ties by comparing spellings.
- BurnBlocks.BurnBlockHistory.Refresh: concurrent callers join one pending read in the source, so one refresh is modelled at a time.
- BlockTree: a node that serves wrong bytes; every read may fail, but what is served is the node's own tree.
- Canonicality.SnapshotIsAnchored: what manager, registration and readiness say is a function of the block they are read at; how it is computed from contract calls is not modelled.
- Anchors: JavaScript's floating-point division is exact for the safe integers the schemas admit and is modelled as integer division.
- Reconciliation: the timestamps of the last request, start, success and failure, and the last error text.
- Reconciliation.RecordingSummarises: latencies are whole milliseconds, where the source divides by 1000.
- InboxDrain: that a drain asked for while one is running is asked for again afterwards.
- Mempool: cursors and principals are compared for equality only; the JSON text of a snapshot is taken as faithful to its ordered rows.
- GasWallet: the refusal checks, the tenure read and the account read are one await; the status cache, cadence and fee estimate are not modelled.
- CanonicalJson: numbers are integers, as in the sealed material.
- SweepPlan: lower-casing a public key is modelled for ASCII letters, the only ones its pattern admits.
- NakamotoBlock.AcceptedIsSerialized: needs a decoder that accepts nothing but encoded transactions; the round trip needs only that it inverts the encoder.
- HealthCounters.PromptSignerHasNoGap: every sample must carry all three counters; a counter that first appears mid-window has no zero-gap promise.
- HealthHistogram: arithmetic is over reals, so floating-point rounding is not captured; text keys of buckets are taken as already parsed.
- ContractReads: a read not pinned to the wrapper's tip goes straight to the node and is outside the limit, as in the source.
- BundleReachability: the regular expressions that recognise boundary and connect modules.
- Sort comparators for display, state-to-label switches, connection checks and configuration: they would only add easy members.
