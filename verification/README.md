# Repair and backfill tools: a verified model

The backend keeps an index of on-chain events (permissions, plugin setups, delegations) beside a document store of
plugins, settings, locks and slugs. The programs under `tools/` repair that store after the fact. Each reads an ordered
log and the documents, rebuilds with a fast in-memory index what the documents should have said, and writes the
difference. Any of them may stop half-way and be started again. This project models eight of those programs, together
with the handlers they call, the crawl one of them starts from, and the split of a gauge reward, and proves what a run
leaves behind: as closed forms, over any log and any store, after interrupted and repeated runs.

`dafny verify dfyconfig.toml` checks everything.

## How it is built

| file | content |
|---|---|
| `Keys.dfy` | the concatenated strings used as Map and Set keys, and why they are unambiguous |
| `Chronology.dfy` | chain positions; "newest" by ascending sort, descending sort and last write |
| `Counting.dfy` | tallies, sums and lists without repetition |
| `Plugins.dfy` | the plugin document |
| `PermissionLog.dfy` | the EXECUTE events and the three lookups of the newest one |
| `ConditionRecovery.dfy`, `CrossChainBackfill.dfy`, `CrossChainReport.dfy`, `ControllerDetection.dfy` | the cross-chain backfill: the closed form of the recovery, the loop over a collection written in place, the report after it, and the detection before it |
| `PluginUpdates.dfy`, `PluginFinish.dfy`, `PluginReruns.dfy` | the plugin row repair for one plugin: the repair, the two steps after it, and its turns over several runs |
| `PluginUpdateRuns.dfy`, `PluginUpdateTool.dfy` | whole and repeated runs of it, and the tool itself |
| `DelegationReplay.dfy`, `DelegationTool.dfy` | the delegation replay |
| `LogCrawl.dfy` | the crawl it replays |
| `SafeRegistration.dfy` | the registration of Safes that hold EXECUTE |
| `SettingRepair.dfy` | the swap of SPP settings |
| `Slugs.dfy`, `MissingSlugs.dfy` | slug generation and the repair of plugins without a slug |
| `ObjectionFlags.dfy` | the objection flag |
| `TaskCleanup.dfy` | the batch deletion |
| `GaugeRewards.dfy` | the split of an epoch's reward over the gauges |

Every loop that changes documents is a method on a class that holds the collection. Its postcondition equates the
new collection with a function of the old one, and the lemmas are about that function. Behaviour the model does not
compute (a bytecode probe, a chain read, whether a write takes effect, where a run stops) is a parameter of the run it
happens in, so the theorems about several runs hold also when it differs between them.

What an operation leaves is also said in the fields of the documents alone, by predicates no operation is computed
with. The lemmas named `...Exactly` tie the operations to them.

The backfill looks up the newest grant without looking at the contract the permission is on, the Safe registration
looks at it too, and a comment in the code says so. `LookupsAgree` says when the two give the same answer,
`LookupsDisagree` has an input on which they do not.

## What turned out differently from what the code says of itself

- **Recovery and several rows.** The recovery finds its plugin whatever its status
  (`tools/backfillCrossChain.ts:400-404`), but the write it delegates to only sees installed rows
  (`src/handlers/pluginHandler.ts:880-885`). With one installed row per plugin all its promises hold. A plugin whose
  only row is not installed is counted as attached by every run. With several rows a stored condition can be replaced
  although the comment at line 378 says it never is, and an SPP can stay recoverable for ever. `OverwrittenExactly`,
  `StillRecoverable` and `SecondRun` say exactly when; `SeveralRowsPitfalls` has the three inputs.
- **Dry run of the whole backfill.** The recovery step alone counts the same in both modes. The step before it,
  executed, sets the condition of every controller from its newest grant, replacing one that disagrees
  (`src/handlers/pluginHandler.ts:961-973`), so the counters of the two modes differ by exactly the plugins it relinks
  (`DryRunPredictsExecuteExactly`; an input in `DryRunPitfall`).
- **Rerun of the row repair.** The comment at `tools/fixUpdatedPluginRows.ts:112-116` says that a rerun finishes what a
  failed run left. Four inputs show when it does not.
  - A replay writes the new row from what it reads on the chain. A read that fails is swallowed and the row written as
    `unknown`, or without its time (`src/helpers/pluginDetector.ts:83-130`, `src/helpers/web3.ts:97-110`). The turn
    counts as done, and no later run reads again (`MisreadPitfall`).
  - The new row is written first. Then the old one is deprecated in a second transaction
    (`src/handlers/pluginHandler.ts:507-553`). Stopped in between, the replay leaves two installed rows, and every
    later run skips such a plugin (`CutShortPitfall`).
  - When the query for the old row finds none, the condition is recovered instead (lines 525-531). A run that stops
    before that is the last one to try (`UnlinkedPitfall`).
  - A replay whose row could not be created swallows the error, and the run goes on to write the latest metadata to the
    row still installed. A later replay passes it on to the new row, and it stays on the old one (`OutdatedPitfall`).

  A plugin is *stranded* by one of the first three, if what they leave out would change anything, and *outdated* by the
  last. `RerunFinishesExactly` says for whole runs, of any number and failing anywhere: the rows are those of one clean
  run, in every modelled field, if and only if no plugin is stranded and none outdated, and in every field but
  metadata, process key and proposal condition if and only if none is stranded. The swap branch is always safe, and
  whatever failed in the two steps after a repair is made up for.
- **Setting swap.** A promoted setting with more stages than the active one makes the run throw and end there
  (`RunCompletesExactly`; an input in `ThrowsPitfall`). The two updates are separate and a failed one is only logged.
  The proposals get the merged stages all the same, and are found by the setting's transaction rather than by plugin:
  with two plugins set up in one transaction, a proposal of the first gets the stages of the second
  (`OwnStagesExactly`; an input in `OwnStagesPitfall`).
- **Unsupported slugs.** A plugin whose process key, in lower case, has no ASCII letter or digit is reported as one no
  slug can be generated for (`tools/missingSlugs.ts:99-102`), yet `generateSlug` would answer the default of its type
  as long as one of its 300 candidates is free (`UnsupportedThoughNameableExactly`; an input in `UnsupportedPitfall`).
- **Objection flag.** A detected plugin is looked up again by address, which prefers a supported row. When that is
  another row, the candidate is counted but stays unflagged (`CountedButUnflaggedExactly`; an input in
  `UnflaggedPitfall`).
- **Delegation reset.** The reset comes before three early returns. A run that returns there leaves every lock of the
  adapter without a receiver.
- **Crawl to the latest block.** The loop admits the latest block (`src/modules/crawlers/blockchainLogCrawler.ts:490`)
  but leaves as soon as it stands before it (line 259). A crawl hands on the logs of every block once and in order, up
  to the latest or up to the one before, the latter if and only if one of its ranges ends one block before the latest
  (`MissesLatestExactly`; an input in `MissesLatestPitfall`).

## Assumptions

- No two permission events of a network share a position (block, transaction index, log index).
- An address contains none of the separators `:`, `-`, `|`. A network name may contain any of them.
- Plugin rows are unique per network, address and transaction.
- Nothing else writes to the documents a tool changes, during a run or between the runs a theorem compares, and logging
  does not throw.
- Between those runs the logs do not change, nor the last metadata stored for a plugin. What is read from the chain may.
- `findOne` yields the first matching row in an order that is the same for every filter (in the recovery, with and
  without the status) and in every run. Rows with equal sort keys may come in any order.
- No two applied updates of a plugin share a position, and a prepared setup is applied once.
- Voting power and rewards are not negative.
- One row per plugin is required only where a lemma says `OneRowPerPlugin`; the other statements cover several.

## Model

| member | source | states |
|---|---|---|
| Keys.JoinInjective | tools/missingSlugs.ts:17 | a key joined by a separator names its parts as soon as the last part lacks the separator, although network names contain dashes |
| Keys.GrantKeyInjective | tools/backfillCrossChain.ts:390 | two events share an index key only if network, DAO and grantee are equal |
| Keys.SlugKeyInjective | tools/missingSlugs.ts:17 | two plugins share a slug key only if they are the same plugin of the same DAO |
| Chronology.FirstOfDescending | tools/backfillCrossChain.ts:268-273 | sorting newest first and taking the first finds the newest matching entry, whatever the order of ties elsewhere |
| Chronology.NewestIsHighest | tools/backfillCrossChain.ts:268-273 | no matching entry has a later block, in its block a later transaction, or in its transaction a later log than the newest one |
| Chronology.LastOfAscending | tools/fixUpdatedPluginRows.ts:25-31 | the last of the updates sorted oldest first is the newest |
| PermissionLog.LastWriteWins | tools/backfillCrossChain.ts:388-391 | an index entry is the last event about its grantee, and a grantee is absent only if no event is about it |
| PermissionLog.FoldFindsNewest | tools/backfillCrossChain.ts:383-391 | the one-pass fold holds, for every plugin in scope, its newest EXECUTE event or nothing |
| PermissionLog.FoldAgreesWithLookup | tools/backfillCrossChain.ts:261-273 | the fold and the per-plugin lookup of the report give the same event for every plugin in scope, as the comment on the lookup promises |
| PermissionLog.NewestExecuteExactly | tools/backfillCrossChain.ts:261-273 | an event is the newest of a plugin if and only if it is an EXECUTE event of the plugin's network and DAO on its address and none of these is higher on the chain |
| PermissionLog.LatestConditionExactly | src/handlers/pluginHandler.ts:974-986 | a plugin is given a condition if and only if that event is a grant with this condition |
| PermissionLog.LookupsAgree | tools/registerSafeProcesses.ts:24-35 | the lookup without and the one with the contract agree on a grantee if and only if its newest EXECUTE event is on the DAO itself |
| PermissionLog.LookupsDisagree | tools/registerSafeProcesses.ts:24-35 | an EXECUTE event on another contract of the DAO is the newest for the one lookup and no event for the other |
| ConditionRecovery.VerdictUnaffected | tools/backfillCrossChain.ts:398-455 | writes made for other plugins during the loop never change a plugin's verdict, so the order of the map does not matter |
| ConditionRecovery.RecoverOne | tools/backfillCrossChain.ts:433-454 | one iteration's write, on whatever the iterations before it left, extends the order-free closed form by exactly its plugin |
| ConditionRecovery.ClassifyExactly | tools/backfillCrossChain.ts:398-432 | a grant with a condition is counted as missing if no row has its network, DAO and address, else by the first such row: already linked if that stores the same condition, attached if none, mismatched if another |
| ConditionRecovery.RecoveredExactly | tools/backfillCrossChain.ts:382-458 | a row receives the condition of the last event about its plugin if and only if that grants one, the plugin's first row has none, and the row is its first installed one; nothing else of any row changes |
| ConditionRecovery.VerdictAfterRun | tools/backfillCrossChain.ts:398-455 | after a run an attached plugin reads as linked if and only if the row that is read is the row that is written; no other verdict changes |
| ConditionRecovery.CountersAddUp | tools/backfillCrossChain.ts:393-457 | the four counters add up to the plugins whose newest event is a grant with a condition |
| ConditionRecovery.SecondRun | tools/backfillCrossChain.ts:382-458 | a second run moves exactly the linked plugins from attached to already linked and leaves the other two counters alone |
| ConditionRecovery.InterruptedRunConverges | tools/backfillCrossChain.ts:398-455 | a run stopped after any set of plugins, then a complete one, leaves what one complete run leaves |
| ConditionRecovery.OverwrittenExactly | tools/backfillCrossChain.ts:378-380 | a stored condition is replaced if and only if the newest grant disagrees, the plugin's first row has none, and the row is its first installed one |
| ConditionRecovery.NeverOverwrites | tools/backfillCrossChain.ts:378-380 | with one row per plugin no stored condition is ever replaced |
| ConditionRecovery.StillRecoverable | tools/backfillCrossChain.ts:280 | an installed row is recoverable after a run if and only if it was before and the write missed it |
| ConditionRecovery.OnlyRowIsReached | src/handlers/pluginHandler.ts:880-885 | with one row per plugin the write reaches every installed row without a condition |
| ConditionRecovery.SeveralRowsPitfalls | tools/backfillCrossChain.ts:400-404 | three stores with a row that is not installed, on which a condition is replaced, an installed row stays without, and a plugin is attached for ever |
| CrossChainBackfill.PluginCollection.UpdateConditionAddress | src/handlers/pluginHandler.ts:874-921 | writes the condition to the first installed row of the plugin and to no other row |
| CrossChainBackfill.IndexGrants | tools/backfillCrossChain.ts:388-391 | the string-keyed map yields every entry of the newest-event index exactly once |
| CrossChainBackfill.RecoverGrant | tools/backfillCrossChain.ts:399-454 | every way through an iteration raises the one counter its plugin's first row calls for, and only an attached plugin is written, only in execute mode |
| CrossChainBackfill.RecoverConditionAddresses | tools/backfillCrossChain.ts:382-458 | a dry run and an applied run report the same four counters, each the number of plugins whose last event grants a condition and whose first row in the untouched store is missing, stores the same condition, none, or another one; the applied run leaves the closed form |
| CrossChainBackfill.CountersExactly | tools/backfillCrossChain.ts:393-457 | the sizes of the four sets of verdicts are these numbers |
| CrossChainBackfill.Advance | tools/backfillCrossChain.ts:398-455 | one iteration, classified on the collection as written so far, advances counters and rows of the closed form together |
| CrossChainReport.ControllerDaos | tools/backfillCrossChain.ts:294-300 | the DAOs of the controllers, each once, none missing |
| CrossChainReport.CollectSpps | tools/backfillCrossChain.ts:284-316 | each installed SPP on a controller's DAO exactly once and nothing else, however many controllers share a DAO |
| CrossChainReport.ReportConditions | tools/backfillCrossChain.ts:323-367 | each counter is the number of rows with its property, and every SPP is with or without a condition |
| CrossChainReport.RecoverAndReport | tools/backfillCrossChain.ts:487-498 | the SPPs are the installed ones on the DAOs of the installed controllers of the scope, each once; after an applied run those reported recoverable are exactly those that lacked their condition and whose row is not their plugin's first installed one, or whose plugin's first row has a condition; the other counts are numbers of rows with their property |
| CrossChainReport.ReportExactly | tools/backfillCrossChain.ts:323-367 | the tallies of the report are these numbers |
| CrossChainReport.AfterRecovery | tools/backfillCrossChain.ts:494-498 | on the rows the recovery left, the report's lookups count exactly the missed SPPs |
| CrossChainReport.NothingLeftExactly | tools/backfillCrossChain.ts:494-498 | no SPP is left recoverable if and only if the write of every recoverable one reaches its row |
| CrossChainReport.NothingLeft | tools/backfillCrossChain.ts:494-498 | with one row per plugin an applied run leaves no SPP recoverable, for any log and store |
| ControllerDetection.DetectControllers | tools/backfillCrossChain.ts:65-115 | the three counts do not depend on the mode and are numbers of rows found; an applied run promotes exactly the rows of unknown or no type whose bytecode shows a controller, relinks the first installed row of every controller's plugin to its newest grant, and generates the slugs of the controllers in turn, whichever writes fail |
| ControllerDetection.DetectedExactly | tools/backfillCrossChain.ts:81-111 | a promoted row has the controller type, no role, and the implementation found or else its own; the condition goes to the plugin's first installed row; nothing else of any row changes |
| ControllerDetection.DetectionCountsExactly | tools/backfillCrossChain.ts:65-90 | scanned, promoted and repaired are the numbers of candidate rows, of detected ones among those of no controller type, and of controllers' |
| ControllerDetection.ServedExactly | tools/backfillCrossChain.ts:78-111 | exactly the controllers and the promoted rows, as they then are, are given a slug |
| ControllerDetection.LinkController | tools/backfillCrossChain.ts:78-79 | a controller gets a slug if its plugin has none, and its newest grant's condition |
| ControllerDetection.DetectOne | tools/backfillCrossChain.ts:75-112 | one candidate, handled on the rows as written so far, extends the closed form |
| ControllerDetection.VerdictAfterDetection | src/handlers/pluginHandler.ts:961-986 | the detection changes the recovery's verdict of exactly the relinked plugins, to already linked |
| ControllerDetection.DryRunPredictsExecuteExactly | tools/backfillCrossChain.ts:485-495 | over both steps the counters of a dry run and of an applied run are equal if and only if the detection relinks no plugin, and already linked differs by their number |
| ControllerDetection.DryRunPitfall | tools/backfillCrossChain.ts:76-83 | an installed controller without a condition whose grant has one is attached in a dry run and already linked in an applied one |
| PluginUpdates.PreparationExactly | src/handlers/pluginHandler.ts:492-505 | an update is replayed from the only preparation of its plugin, DAO and prepared setup, and not at all if there is none or a second one |
| PluginUpdates.NewRow | src/handlers/pluginHandler.ts:275-342 | the row written for an applied update is installed at the update's transaction and block, on the DAO and repository of the preparation, with what the chain showed, the roles of its type, the longer permission list and its proposal condition, the preparation's token or else the update's; unsupported, and without anything an update takes over |
| PluginUpdates.ProposalConditionIsLast | src/handlers/pluginHandler.ts:988-997 | the proposal condition is that of the last permission granting proposals to anyone, and the zero address without one or when it is unconditional |
| PluginUpdates.FixedInstalledIds | tools/fixUpdatedPluginRows.ts:22-101 | a repair, failed or not, changes nothing, or leaves the last update's row as the only installed one, or leaves it beside the old one in the named case |
| PluginUpdates.KeepsOneInstalledExactly | tools/fixUpdatedPluginRows.ts:22-101 | "at most one installed row" survives a repair if and only if it is no replay that stops half-way or finds no row to deprecate |
| PluginUpdates.PlanExactly | tools/fixUpdatedPluginRows.ts:22-41 | a plugin is skipped with several installed rows, and repaired if its only installed one is not the last update's: by a swap if that row is stored, else by a replay |
| PluginUpdates.SwapResult | tools/fixUpdatedPluginRows.ts:60-100 | after a swap the last update's row is the only installed one; roles, support, parent, stage, escrow, condition, metadata with process key, token, lock manager, sub-plugins with stages and proposal condition are each the old row's or its own as the source decides, all other fields its own; the old row is deprecated by the update and changes in nothing else; all other rows stay |
| PluginUpdates.ReplaySucceedsExactly | tools/fixUpdatedPluginRows.ts:43-58 | an undisturbed replay leaves the last update's row alone installed, supported as before, if and only if the update has one preparation and the installed row is an earlier one of the preparation's DAO and repository |
| PluginUpdates.ReplayResult | src/handlers/pluginHandler.ts:539-567 | a replay that finds its previous row adds one row, the only installed one, at the update's place, which takes over from the row it deprecates every field a swap would |
| PluginUpdates.UnmatchedReplayResult | src/handlers/pluginHandler.ts:525-531 | one that finds none adds the new row beside the installed one and writes the condition of the new row's newest grant to the one of them of the new row's DAO met first |
| PluginUpdates.StaysPut | tools/fixUpdatedPluginRows.ts:33-39 | a plugin with several installed rows, none, or the last update's is left alone by every repair, failing or not |
| PluginUpdates.ChangesOnce | tools/fixUpdatedPluginRows.ts:22-101 | after a repair that changed anything, failed or not, there is neither a row to swap nor one to replay |
| PluginFinish.FinishKeepsCore | tools/fixUpdatedPluginRows.ts:135-138 | the two steps after a repair change no field but metadata, process key and proposal condition, however far they get |
| PluginFinish.CoreExactly | tools/fixUpdatedPluginRows.ts:135-138 | two rows are compared as equal apart from the two steps if and only if they differ in metadata, process key and proposal condition at most |
| PluginFinish.RefreshExactly | src/handlers/metadataHandler.ts:118-134 | the metadata fetched last goes to one row, the plugin's first supported one that is no Safe's or else its first other one, and nothing else changes |
| PluginFinish.NewestConditionExactly | src/migrations/20261001225826-fixUpdatedPluginProposalCondition.ts:25-44 | the proposal condition is that of the first preparation of the update highest on the chain among those whose preparation lets anyone propose, and the initial one without any |
| PluginFinish.AllPreparedExactly | src/migrations/20261001225826-fixUpdatedPluginProposalCondition.ts:27-38 | the step goes on if and only if every applied update of the plugin has a preparation in the log |
| PluginFinish.StepsAreIndependent | tools/fixUpdatedPluginRows.ts:135-138 | each step that takes effect writes what it would write beside the other, one that does not writes nothing |
| PluginFinish.PlacesDependOnCore | src/migrations/20261001225826-fixUpdatedPluginProposalCondition.ts:10-23 | which rows the two steps write does not depend on the fields they write |
| PluginFinish.StepsCommute | tools/fixUpdatedPluginRows.ts:135-138 | the two steps may be taken in either order |
| PluginFinish.FinishAbsorbs | tools/fixUpdatedPluginRows.ts:112-116 | taking both steps makes up for every way an earlier run got through them, and leaves nothing to a later one |
| PluginFinish.EndsWithCondition | src/migrations/20261001225826-fixUpdatedPluginProposalCondition.ts:9-52 | a plugin whose last update's row is its only installed one ends with the proposal condition of its newest update that grants proposals to anyone, or else of its oldest row, when every update has a preparation |
| PluginReruns.RepairRespectsCore | tools/fixUpdatedPluginRows.ts:22-101 | what a repair leaves outside metadata, process key and proposal condition does not depend on those fields |
| PluginReruns.ReplayRefreshes | src/handlers/pluginHandler.ts:569-571 | a replay that goes through writes the latest metadata itself, to the row then found by address, whatever becomes of the steps after it |
| PluginReruns.DonePhase | tools/fixUpdatedPluginRows.ts:112-116 | once a plugin has nothing left to repair, a clean run ends the same whatever the runs before it did or failed to do |
| PluginReruns.StrandedCore | src/handlers/pluginHandler.ts:507-575 | a stranded replay leaves another row outside metadata, process key and proposal condition than a clean one, so every case called stranded is a real loss |
| PluginReruns.SticksExactly | tools/fixUpdatedPluginRows.ts:132-142 | metadata written before a replay makes a difference after the replay and both steps if and only if the row it went to is passed on by the replay or is not the row found by address afterwards, and did not have it yet |
| PluginReruns.RerunConvergesExactly | tools/fixUpdatedPluginRows.ts:112-116 | for one plugin, any turns with their own failures and chain readings, then a clean one, leave the whole rows of one clean turn if and only if it was neither stranded nor outdated, and all but metadata, process key and proposal condition if and only if it was not stranded |
| PluginReruns.CleanStepIsFinal | tools/fixUpdatedPluginRows.ts:112-116 | after a clean turn no later turn changes anything, whatever fails or is misread in it |
| PluginReruns.MisreadPitfall | src/helpers/pluginDetector.ts:83-130 | a missing update of an older installed row whose code could not be read: nothing is reported, every later clean run leaves the row `unknown`, and one clean run would not |
| PluginReruns.CutShortPitfall | src/handlers/pluginHandler.ts:507-553 | an older installed row and a missing update: stopped before the second transaction, every later run leaves two installed rows |
| PluginReruns.UnlinkedPitfall | src/handlers/pluginHandler.ts:525-531 | an installed row not older than the missing update, without the condition its grant has: stopped before the condition, every later run leaves it without, which one clean run does not |
| PluginReruns.OutdatedPitfall | tools/fixUpdatedPluginRows.ts:132-142 | an older installed row without the latest metadata and a missing update: a creation that fails in a run that then writes the metadata, and a clean run, leave other metadata than one clean run, and nothing else |
| PluginUpdateRuns.RepairIsLocal | tools/fixUpdatedPluginRows.ts:22-101 | a repair is decided by the plugin's own rows and changes no other plugin's |
| PluginUpdateRuns.StepIsLocal | tools/fixUpdatedPluginRows.ts:132-142 | so is a whole turn with the two steps after it |
| PluginUpdateRuns.LastUpdateExactly | tools/fixUpdatedPluginRows.ts:25-31 | the update a plugin is repaired for is the applied one of its network and address that none is higher on the chain than |
| PluginUpdateRuns.RunIsPointwise | tools/fixUpdatedPluginRows.ts:132-142 | a run treats each plugin as if it were alone: neither the order nor another plugin's failure matters |
| PluginUpdateRuns.RunsArePointwise | tools/fixUpdatedPluginRows.ts:132-142 | the same over any sequence of runs, each with its own failures and readings |
| PluginUpdateRuns.RerunFinishesExactly | tools/fixUpdatedPluginRows.ts:112-142 | any runs followed by a clean one leave the whole rows of one clean run if and only if no plugin was stranded and none outdated, and all but metadata, process key and proposal condition if and only if none was stranded |
| PluginUpdateRuns.FinishedStaysFinished | tools/fixUpdatedPluginRows.ts:112-142 | after a whole clean run further runs leave whole rows alone, whatever fails or is misread in them |
| PluginUpdateRuns.EndsWithConditions | tools/fixUpdatedPluginRows.ts:132-142 | after a clean run every plugin left with its last update's row alone has the proposal condition of its newest update that grants proposals to anyone, or else of its oldest row, when every update has a preparation |
| PluginUpdateTool.PluginTable.Swap | tools/fixUpdatedPluginRows.ts:66-100 | both rows are written in one transaction: a failure inside leaves neither, one after it leaves both |
| PluginUpdateTool.PluginTable.Update | src/handlers/pluginHandler.ts:492-575 | the new row is written first, the old one deprecated in a second transaction and the latest metadata written after it; without a previous row the installed row found gets a slug if its plugin has none, and the recovered condition; errors are swallowed |
| PluginUpdateTool.PluginTable.GiveSlugAndCondition | src/handlers/pluginHandler.ts:582-593 | slug and condition go to the installed row of the new row's address and DAO that the lookup meets first, which may be the old one |
| PluginUpdateTool.PluginTable.FixPlugin | tools/fixUpdatedPluginRows.ts:22-101 | from the sorted query of a plugin's updates, the rows and slugs the repair leaves and how it ends, for each plan, mode and failure |
| PluginUpdateTool.PluginTable.ApplyLatestMetadata | src/handlers/metadataHandler.ts:118-134 | the latest metadata of a plugin, if it was fetched, goes to its first supported row, else its first other one, never a Safe's |
| PluginUpdateTool.FoldConditions | src/migrations/20261001225826-fixUpdatedPluginProposalCondition.ts:25-44 | the loop over the sorted updates yields the condition of the newest one that grants proposals, the initial one without any, and gives up if and only if an update has no preparation |
| PluginUpdateTool.LastConditionIsNewest | src/migrations/20261001225826-fixUpdatedPluginProposalCondition.ts:25-44 | the last assignment of the loop is by the newest granting update |
| PluginUpdateTool.PluginTable.FixProposalCondition | src/migrations/20261001225826-fixUpdatedPluginProposalCondition.ts:9-52 | that condition is written to the installed row if it is the last update's, and nothing else is |
| PluginUpdateTool.PluginTable.TakeTurn | tools/fixUpdatedPluginRows.ts:132-142 | one iteration of the driver: repair, metadata, proposal condition, each skipped when an error came before it, and how the turn ends |
| PluginUpdateTool.QuietExactly | tools/fixUpdatedPluginRows.ts:33-58 | a turn reports nothing if and only if nothing failed early or late and no row but the last update's is left installed |
| PluginUpdateTool.ReportIsAccurate | tools/fixUpdatedPluginRows.ts:132-144 | what an applied run reports of a plugin still holds of the rows at the end of the run |
| PluginUpdateTool.ReplayChecked | tools/fixUpdatedPluginRows.ts:49-56 | the check after a replay passes if and only if the replay reached its second transaction |
| PluginUpdateTool.UpdatedContracts | tools/fixUpdatedPluginRows.ts:127-130 | every plugin with an applied update, once |
| PluginUpdateTool.FixUpdatedPlugins | tools/fixUpdatedPluginRows.ts:124-145 | the driver takes every updated plugin once, whatever fails, and leaves the rows of the modelled run; a dry run leaves rows and slugs untouched; a plugin that goes unreported in an applied run is finished at its end; no slug is lost or doubled |
| DelegationReplay.ReplayGivesLastReceiver | tools/backfillTokenDelegation.ts:44-188 | after reset and replay every lock of the adapter has the receiver of the last log about its token, whatever it held, and no other lock changes |
| DelegationReplay.LastReceiverIsLast | tools/backfillTokenDelegation.ts:171-188 | that receiver is the delegatee of the log no later one overrides, and none if it is an undelegation |
| DelegationReplay.ReplayedExactly | tools/backfillTokenDelegation.ts:44-188 | field by field: a lock of the adapter on the network ends with the delegatee of the last taken log that names its token if that delegates, with none if it undelegates or there is no such log; nothing else of any lock changes |
| DelegationReplay.NoReceiverWithoutLog | tools/backfillTokenDelegation.ts:45-48 | a token no log is about ends without a receiver |
| DelegationReplay.SameReceiverExactly | src/governance/veGovernance.ts:134-189 | lost updates leave a token its receiver if and only if its last log took effect, or the last one that did gives the same receiver, none if none did |
| DelegationReplay.RightExactly | src/governance/veGovernance.ts:134-189 | a run with lost lock updates is right for every lock if and only if that holds of every locked token, by position in the log |
| DelegationReplay.PartialRunLeavesNoTrace | tools/backfillTokenDelegation.ts:44-188 | a run stopped anywhere, then a complete one, leaves the locks of the complete run alone |
| DelegationReplay.StaysUnique | tools/backfillTokenDelegation.ts:119-166 | however many replays have run, no log position is stored twice |
| DelegationReplay.StoresEvery | tools/backfillTokenDelegation.ts:119-166 | after a replay a position is stored if and only if it was before or is one of the replayed logs' |
| DelegationReplay.StoredExactly | tools/backfillTokenDelegation.ts:119-166 | each added record carries every field of a log of its collection, each such log has a record of its position, the old records stay in front and no position gets a second one |
| DelegationReplay.PrefixFirst | tools/backfillTokenDelegation.ts:115-195 | an interrupted replay then a complete one store what the complete one stores |
| DelegationTool.Collections.StoreRecord | tools/backfillTokenDelegation.ts:119-166 | stores the record of a log in its own collection unless its position is stored already |
| DelegationTool.Collections.UpdateLocks | src/governance/veGovernance.ts:147-157 | sets or clears the receiver of the log's tokens at the adapter and of no other lock |
| DelegationTool.Backfill | tools/backfillTokenDelegation.ts:44-198 | resets first, then replays in order up to where the run ends; the locks have the delegatee of the last taken log about their token, and the records are those of the logs; a run that does not resolve its addresses leaves every receiver cleared |
| LogCrawl.Crawl | src/modules/crawlers/blockchainLogCrawler.ts:139-265 | whatever the sizes of the ranges and the errors between them, the logs handed on are those of every block from the first up to where the crawl gets, each once and in order; one that starts at the latest block or past it hands on nothing |
| LogCrawl.BetweenJoins | src/modules/crawlers/blockchainLogCrawler.ts:245 | two ranges, the second starting behind the end of the first, have the logs of one |
| LogCrawl.BetweenOne | src/modules/crawlers/blockchainLogCrawler.ts:245 | a range of one block has the logs of that block |
| LogCrawl.MissesLatestExactly | src/modules/crawlers/blockchainLogCrawler.ts:259 | a crawl that ends has handed on the latest block if and only if none of its ranges ends one block before it, and every earlier block in any case |
| LogCrawl.MissesLatestPitfall | src/modules/crawlers/blockchainLogCrawler.ts:259 | two ranges of two blocks over five leave out the fifth |
| LogCrawl.RetriesDoNotMatter | src/modules/crawlers/blockchainLogCrawler.ts:260-264 | errors that are retried change nothing of where a crawl gets, wherever they come |
| LogCrawl.GivesUpOnlyIfTold | src/modules/crawlers/blockchainLogCrawler.ts:260-264 | a crawl gives up only at an error of unknown kind, and one still running has met none |
| SafeRegistration.FindHeldExecuteGrants | tools/registerSafeProcesses.ts:24-35 | exactly the grants of the scope on the DAO itself that no EXECUTE event there about the same grantee is higher on the chain than, one per grantee |
| SafeRegistration.IndexNonSafe | tools/registerSafeProcesses.ts:62-76 | a key is in the set if and only if the grantee has a plugin row on the run's networks that is no Safe's |
| SafeRegistration.ScanGrants | tools/registerSafeProcesses.ts:84-152 | registered, skipped and failed are the numbers of grants whose outcomes call for them and add up to all grants, for every mix of answers and throws; the candidates are the DAOs of the grants past the filter, at the grants' places, in their order |
| SafeRegistration.CandidatesExactly | tools/registerSafeProcesses.ts:97-102 | as many candidates come before that of a grant as grants past the filter before the grant, and each names the contract the permission is on |
| SafeRegistration.ScannedExactly | tools/registerSafeProcesses.ts:104-143 | a grant past the filter is registered when the installation answers a plugin and the condition is written, skipped when it is no Safe's, and fails otherwise |
| SafeRegistration.CountOutcome | tools/registerSafeProcesses.ts:113-143 | each way out of the calls for a grant raises exactly one of the three counters, and owners are counted even when a later call throws |
| SafeRegistration.ReferencesExactly | tools/registerSafeProcesses.ts:158-182 | the DAO of every grant past the filter and of every association has one reference, from its block or a later one, and every reference has network, DAO, block and transaction of one of them |
| SafeRegistration.FailureExactly | tools/registerSafeProcesses.ts:199-204 | the exit reports failure if and only if a grant past the filter threw, was not installed, lost its condition or an owner, or a reconciliation failed |
| SafeRegistration.CollectDaoRefs | tools/registerSafeProcesses.ts:176-182 | one reference per DAO of the candidates, the earliest one with the highest block |
| SafeRegistration.BestByKeyNext | tools/registerSafeProcesses.ts:176-182 | one more candidate keeps the map the best reference of every DAO so far |
| SafeRegistration.BestRefUnique | tools/registerSafeProcesses.ts:176-182 | a DAO has only one such reference |
| SafeRegistration.AppendAssociations | tools/registerSafeProcesses.ts:162-174 | the candidates of the settings and Safe rows with a DAO, network by network, unless a read throws |
| SafeRegistration.ReconcileDaos | tools/registerSafeProcesses.ts:184-198 | the DAOs are reconciled in turn up to the first that throws, and the totals are those of the reconciled ones |
| SafeRegistration.RegisterSafeProcesses | tools/registerSafeProcesses.ts:84-204 | a throw while the associations are read ends the run with no DAO reconciled; otherwise the references are those of the DAOs of the grants past the filter and of the associations, the earliest highest of each; a finished run has reconciled all of them, and its exit follows the outcomes |
| SettingRepair.FirstWithIsNewest | tools/fixBrokenPluginSetting.ts:71-75 | the first setting of a status in the sorted list is a newest one of that status |
| SettingRepair.ToSwapIsNewest | tools/fixBrokenPluginSetting.ts:71-77 | the swap takes the newest setting of each status, and there is none to make if and only if the group is in order |
| SettingRepair.ActiveAfterSwap | tools/fixBrokenPluginSetting.ts:93-107 | the number of active settings is kept by both updates together and moves by one when one of them is lost |
| SettingRepair.InOrderAfterSwap | tools/fixBrokenPluginSetting.ts:77-99 | after a promotion no inactive setting is newer than the newest active one |
| SettingRepair.SwapTouches | tools/fixBrokenPluginSetting.ts:78-107 | a swap changes two statuses and the stage names of the promoted setting; stage count and every other stage field survive |
| SettingRepair.RepairResult | tools/fixBrokenPluginSetting.ts:68-107 | a group in order is left alone, another is put in order when its promotion takes effect, and the number of active settings follows the updates |
| SettingRepair.RepairIsLocal | tools/fixBrokenPluginSetting.ts:68-107 | a repair reads and writes the settings of its own plugin only |
| SettingRepair.RunIsPerGroup | tools/fixBrokenPluginSetting.ts:68-120 | a run leaves each plugin's settings as repairing that plugin alone would |
| SettingRepair.RunCompletesExactly | tools/fixBrokenPluginSetting.ts:78-81 | a run gets to the end if and only if no setting to promote has more stages than the active one |
| SettingRepair.RunResult | tools/fixBrokenPluginSetting.ts:68-120 | after a complete run every group is repaired according to its updates, and a second run changes and promotes nothing if all promotions took effect |
| SettingRepair.RunOrdersEveryPlugin | tools/fixBrokenPluginSetting.ts:20-120 | after a complete run over the aggregated plugins whose promotions took effect, no inactive SPP setting is of a later block than all active ones of its plugin, unless the plugin has none |
| SettingRepair.ThrowsPitfall | tools/fixBrokenPluginSetting.ts:78-81 | an active setting without stages below a newer inactive one with a stage ends the run |
| SettingRepair.InOrderStays | tools/fixBrokenPluginSetting.ts:77 | groups in order are never changed, even with two active settings or none |
| SettingRepair.RunTouches | tools/fixBrokenPluginSetting.ts:78-107 | a whole run changes nothing of any setting but status and stage names |
| SettingRepair.OutsideStays | tools/fixBrokenPluginSetting.ts:20-66 | settings of no repaired plugin stay as they are |
| SettingRepair.FixedExactly | tools/fixBrokenPluginSetting.ts:109-134 | a proposal ends with the stages of the last promoted setting whose transaction it names and whose block is below its own; without one it stays as it is, and nothing else of it changes |
| SettingRepair.PromotionsExactly | tools/fixBrokenPluginSetting.ts:68-114 | the promotions are one per plugin out of order, in the order of the plugins, each with address, transaction, block and terms of a newest inactive setting and the stage names of a newest active one |
| SettingRepair.OwnStagesExactly | tools/fixBrokenPluginSetting.ts:109-118 | a proposal ends with the stages of its own plugin's setting if and only if the last promotion from the same transaction has no other ones |
| SettingRepair.OwnStagesPitfall | tools/fixBrokenPluginSetting.ts:109-118 | two plugins whose newer settings come from one transaction: the run offers both promotions, and a proposal of the first plugin ends with the stages of the second |
| SettingRepair.ProposalsMatchSettingExactly | tools/fixBrokenPluginSetting.ts:93-118 | the stages given to proposals are those the promoted setting ends with if and only if its update took effect or changed no name |
| SettingRepair.SettingCollection.FixGroup | tools/fixBrokenPluginSetting.ts:69-118 | one plugin on stored settings and proposals, decided on what the run read at its start; when it throws nothing was written |
| SettingRepair.SettingCollection.FixSettings | tools/fixBrokenPluginSetting.ts:17-123 | the run takes exactly the plugins with several SPP settings, repairs those before the first that throws, in this order, and fixes the proposals once per promotion offered, by transaction and block; settings that are no SPP's stay; run to the end with its promotions in effect, it leaves every plugin in order |
| Slugs.SanitizeJoins | src/helpers/utils.ts:39 | a key is sanitized character by character, in order |
| Slugs.SanitizeOne | src/helpers/utils.ts:39 | small letters and digits stay, capitals become small, the two foreign characters with an ASCII lower case become that, all others go |
| Slugs.SanitizeKeepsSlugs | src/helpers/utils.ts:39 | sanitizing what is sanitized changes nothing |
| Slugs.DecimalReadsBack | src/helpers/pluginSlug.ts:98-102 | a suffix reads back as its number and has no leading zero |
| Slugs.CandidatesDiffer | src/helpers/pluginSlug.ts:70-102 | no two of the candidates of a base are the same |
| Slugs.UnnameableNeedsMany | src/helpers/pluginSlug.ts:70-122 | a plugin with a base slug is refused one only by a DAO that uses three hundred |
| Slugs.GeneratedExactly | src/helpers/pluginSlug.ts:70-217 | a plugin with a slug is answered its first one and nothing is written; else one row of its network, DAO and address is added with the first candidate of its sanitized key, or of its default without one, that the DAO does not use; else nothing is |
| Slugs.GenerateResult | src/helpers/pluginSlug.ts:186-217 | a generation keeps every slug and their uniqueness per DAO, answers a slug the plugin then has, and fails if and only if the plugin has none and no candidate is free |
| Slugs.StaysUnnameable | src/helpers/pluginSlug.ts:70-122 | a plugin no candidate was free for stays so however many slugs are added |
| Slugs.SlugCollection.GenerateSlug | src/helpers/pluginSlug.ts:70-217 | an existing slug is answered unchanged, otherwise the first candidate the unique index accepts, among 300, is stored |
| Slugs.GenerateAllKeeps | tools/missingSlugs.ts:136-144 | a run loses no slug and doubles none within a DAO |
| Slugs.GenerateAllServes | tools/missingSlugs.ts:136-144 | a run gives no slug to a plugin that was not planned, and takes none away |
| Slugs.LeftWithoutSlug | tools/missingSlugs.ts:136-144 | a planned plugin is left without a slug only when its DAO uses every candidate, and the count then falls short of the plan |
| Slugs.GenerateSlugs | tools/missingSlugs.ts:136-144 | the loop stores the slugs of the plan in turn and counts those that were answered |
| Slugs.CreatedExactly | tools/missingSlugs.ts:136-144 | the count is the number of planned rows whose plugin has a slug right after its turn |
| MissingSlugs.FindAffected | tools/missingSlugs.ts:26-43 | the set of concatenated keys gives, in order, exactly the installed plugins of the scope with no slug row of their network, DAO and address |
| MissingSlugs.RecoverProcessKeys | tools/missingSlugs.ts:50-73 | an affected plugin without a process key gets that of a newest row of the same plugin that has one, and none if no row has |
| MissingSlugs.SiblingIsRead | tools/missingSlugs.ts:56-65 | narrowing the query to the affected addresses loses no row that could answer |
| MissingSlugs.LastIsNewestKey | tools/missingSlugs.ts:67-70 | the row left in the map by the ascending pass has the highest block of its plugin |
| MissingSlugs.Plan | tools/missingSlugs.ts:92-118 | every affected plugin is planned or unsupported, in order, and never both; planned if its own process key, or else the recovered one, has a letter or digit, or if it has neither and its type a default |
| MissingSlugs.DefaultIsTypeName | src/types/plugin.ts:41-74 | the default is the name of the type in small letters, but for stages and controllers, and for capital distributors, which keep their capital; unknown and missing types have none |
| MissingSlugs.UnsupportedThoughNameableExactly | tools/missingSlugs.ts:95-118 | an affected plugin is in the unsupported list while `generateSlug` would answer it a slug, if and only if its process key in lower case has no ASCII letter or digit, its type has a default, and one of the 300 candidates of that default is free |
| MissingSlugs.UnsupportedPitfall | tools/missingSlugs.ts:95-102 | an installed SPP with the process key "-" on a DAO without slugs is unsupported, and would be given "core" |
| MissingSlugs.SecondScan | tools/missingSlugs.ts:84-147 | a second scan finds only unsupported plugins and those without a free candidate; when all were created, exactly the unsupported rows of plugins not planned through another row |
| MissingSlugs.FixMissingSlugs | tools/missingSlugs.ts:84-147 | the plan covers the affected plugins, with recovered keys that answer for them; a dry run writes nothing, an applied one the planned slugs |
| MissingSlugs.KindKeyInjective | tools/missingSlugs.ts:77 | a tally key names network and type |
| MissingSlugs.TallyByKind | tools/missingSlugs.ts:75-80 | every entry is the number of plugins of its kind, and the entries add up to all of them |
| ObjectionFlags.FindCandidates | tools/backfillObjectionFlag.ts:58-75 | the one query by addresses plus the key set gives exactly the unflagged token voting plugins after block 11327111 with no setting of their own network and address |
| ObjectionFlags.WithSettingIsExact | tools/backfillObjectionFlag.ts:67-74 | a setting of another network at the same address does not hide a plugin |
| ObjectionFlags.FlagCandidates | tools/backfillObjectionFlag.ts:77-106 | the flagged rows are those the lookups of the detected candidates find in the untouched store, and the count is that of the detected candidates, both less those whose update fails and both up to the first candidate whose settings sync throws, which ends the run flagged but not counted |
| ObjectionFlags.FlaggedExactly | tools/backfillObjectionFlag.ts:77-106 | a row ends flagged if and only if it was, or is the one found by the address of a detected candidate whose update succeeds: the first supported row that is no Safe's, else the first; nothing else of any row changes |
| ObjectionFlags.CountedButUnflaggedExactly | src/models/schema/plugin.ts:279-290 | a counted candidate stays unflagged if and only if the lookup by address finds another row |
| ObjectionFlags.UnflaggedPitfall | src/models/schema/plugin.ts:279-290 | an unsupported and a supported row of one detected plugin are both counted, and only the supported one is flagged |
| GaugeRewards.RoundedTimesTotal | src/modules/gaugeRewardDistribution.ts:102-108 | rounding down takes less than one unit from every gauge |
| GaugeRewards.DustIsSmall | src/modules/gaugeRewardDistribution.ts:110-113 | the rounded amounts never exceed the reward and leave less than one unit per gauge |
| GaugeRewards.SplitIsFair | src/modules/gaugeRewardDistribution.ts:104-117 | more voting power never earns less, and none earns nothing |
| GaugeRewards.FindLargest | src/modules/gaugeRewardDistribution.ts:114 | the first gauge no other one exceeds |
| GaugeRewards.Distribute | src/modules/gaugeRewardDistribution.ts:91-127 | with positive total voting power the amounts add up to the reward exactly, every gauge gets its share rounded down, and the first largest one alone also gets the dust; without it nobody gets anything |
| TaskCleanup.WithoutOld | tools/cleanUpTasks.ts:31-37 | a batch deletes no recent run, keeps their order, and lowers the number of old ones by what it deletes |
| TaskCleanup.WithoutShrinks | tools/cleanUpTasks.ts:29-37 | a batch that names a stored run makes the collection smaller |
| TaskCleanup.TaskRuns.CleanUp | tools/cleanUpTasks.ts:14-45 | for any batch size of at least one the loop ends, exactly the runs created before the cutoff are gone, the rest keeps its order, and the total is their number |

## Left out

- RPC, MongoDB, RabbitMQ, IPFS and explorer calls, timestamps and logging; a queue message has no effect on a run.
- Failing writes, where no parameter stands for them: in the recovery a failing write ends the run, which
  `InterruptedRunConverges` covers; a failing proposal update is not modelled, nor an error while a run reads what it
  works on, except where a method says so.
- The fields `conditionInterfaceType`, `sender`, `release`, `build` and `subdomain` of a plugin, which nothing here
  reads, and of its metadata those that are only copied.
- PluginReruns.RerunConvergesExactly: does not compare `conditionInterfaceType`, which is read from the chain when a
  condition is recovered, nor the slugs, nor the registry entry of the DAO's version that a replay writes.
- PluginUpdates.Preparation: assumes one applied log per preparation, so that the aggregation of `_queryGetPlugin` is
  decided by the number of preparations.
- PluginUpdates.NewRow: assumes the chain reads for a row answer or are swallowed; one that throws is an error in the
  creation.
- PluginUpdates.Inherit: a missing and a null `parentPlugin` or `stageIndex` are one value, the former kept from the
  new row.
- DelegationReplay.StoresEvery: a record is identified by the four values of its id, not by the string made of them;
  base members, and the block number
  and time of a record, are not modelled.
- LogCrawl.Crawl: the requests of a strategy and the order inside a range, the choice of strategy and range size, the
  offset to the latest block, saving progress, a shutdown from outside, and an error after some logs of a range were
  already handed on.
- SafeRegistration.RegisterSafeProcesses: the dry run, which only counts grants; an error while the grants or plugin
  rows are read, which ends the run before anything is written; and the insides of the installation, the owner
  reconciliation, the condition writes and the DAO reconciliation, which are outcomes.
- Slugs.SlugCollection.GenerateSlug: a write conflict with another process (code 112) and other database errors.
- ObjectionFlags.FlagCandidates: what the sync of the settings after a flag writes; the healing of proposals that
  follows is not part of this model.
- TaskCleanup.TaskRuns.CleanUp: batches are taken in stored order, and the delay between them is dropped.
- SettingRepair.SettingCollection.FixSettings: settings are grouped by plugin address only, as in the source; an
  address shared by two networks is one group.
- ControllerDetection.DetectControllers: an error thrown by the slug generation, the probe or a write ends the run
  there and is not modelled; a probe that could not be read is one that shows no controller.
- The setting and selector resyncs, the decoding refresh and the proposal actions that follow the report in the
  cross-chain backfill.
- GaugeRewards.Distribute: how the voting power per gauge is read, and the checks of the epoch window before the
  split.
- Runners, the other migrations, the other reward computations and one-off resync tools.
