/** The row repair as the tool runs it: over collections its steps update in place. */
module PluginUpdateTool {
  import opened Chronology
  import opened Counting
  import opened Plugins
  import opened PluginUpdates
  import opened PluginFinish
  import opened PluginReruns
  import opened PluginUpdateRuns
  import opened Slugs
  import PermissionLog

  /** How a turn ends: nothing to report, an error logged, or an exception for the driver to catch. */
  datatype Ending = Quiet | Logged | Threw

  /** How `fixPlugin` ends. */
  ghost function FixEnding(rows: Rows, applied: SetupEvent, world: World, execute: bool, fault: Fault): Ending {
    if fault.BeforeWrite? then Threw
    else
      match PlanFor(rows, applied)
      case Settled => Quiet
      case Ambiguous => Logged
      case Swap(_, _) => if execute && fault.MidWrite? then Threw else Quiet
      case Replay(_) =>
        if execute && !Refreshes(rows, applied, world, fault) then Logged else Quiet
  }

  /** An exception ends the turn in one of the two steps after the repair. */
  predicate Stops(rest: Rest) {
    rest.Nothing? || rest.MetadataOnly?
  }

  /** How a whole turn ends; the two steps after the repair are taken in execute mode only. */
  ghost function EndingOf(rows: Rows, applied: SetupEvent, world: World, execute: bool, trial: Trial): Ending {
    var ending := FixEnding(rows, applied, world, execute, trial.fault);
    if ending.Quiet? && execute && Stops(trial.rest) then Threw else ending
  }

  /** A turn that reports nothing leaves no row installed but the last update's, and one that stops early or leaves
      another does not go unreported. */
  lemma QuietExactly(rows: Rows, applied: SetupEvent, world: World, trial: Trial)
    ensures EndingOf(rows, applied, world, true, trial).Quiet? <==>
            && !trial.fault.BeforeWrite? && trial.rest in {ConditionOnly, Everything}
            && InstalledIds(Step(rows, applied, world, trial), applied.contract)
               <= {RowId(applied.contract, applied.transactionHash)}
  {
    var repaired := Repair(rows, applied, world, trial.fault, trial.reading);
    RefreshKeepsCore(repaired, applied.contract, world);
    FinishKeepsCore(FixPlugin(rows, applied, world, trial), applied, world, trial.rest);
    assert Core(Step(rows, applied, world, trial)) == Core(repaired);
    InstalledDependsOnCore(repaired, Step(rows, applied, world, trial), applied.contract);
    hide Step, Core;
    QuietRepair(rows, applied, world, trial.fault, trial.reading);
  }

  lemma QuietRepair(rows: Rows, applied: SetupEvent, world: World, fault: Fault, reading: Reading)
    ensures FixEnding(rows, applied, world, true, fault).Quiet? <==>
            && !fault.BeforeWrite?
            && InstalledIds(Repair(rows, applied, world, fault, reading), applied.contract)
               <= {RowId(applied.contract, applied.transactionHash)}
  {
    var plan, next := PlanFor(rows, applied), RowId(applied.contract, applied.transactionHash);
    var ids := InstalledIds(rows, applied.contract);
    FixedInstalledIds(rows, applied, world, fault, reading);
    match plan
    case Settled =>
      if ids != {} {
        OnlyOne(ids, Sole(ids));
      }
    case Ambiguous =>
      OnlyOne(ids, Sole(ids));
    case Swap(from, _) =>
      assert from in ids && from != next;
      if !fault.BeforeWrite? && !fault.MidWrite? {
        SwapWrites(rows, applied, world, fault, reading);
      }
    case Replay(from) =>
      assert from in ids && from != next && next !in rows;
      if NeedsReplay(rows, applied, world) && IsWriting(fault) {
        ReplayWrites(rows, applied, world, fault, reading);
      }
      hide NewRow, Swapped, Linked, Precedes;
  }

  /** The slugs after a turn: only a replay without a previous row generates one, for the installed row it finds. */
  ghost function SlugsAfter(
    rows: Rows, slugs: seq<SlugRow>, applied: SetupEvent, world: World, execute: bool, trial: Trial): seq<SlugRow>
  {
    if !execute || !NeedsReplay(rows, applied, world) || !IsWriting(trial.fault) || trial.fault.MidWrite? then slugs
    else
      SlugsAfterReplay(rows, slugs, PlanFor(rows, applied).from,
                       NewRow(applied, Preparation(world.log, applied).value, trial.reading), world)
  }

  ghost function SlugsAfterReplay(
    rows: Rows, slugs: seq<SlugRow>, from: RowId, row: Plugin, world: World): seq<SlugRow>
    requires from in rows
  {
    if Precedes(rows[from], row) then slugs
    else
      var created := rows[IdOf(row) := row];
      var found := created[FoundInstalled(created, from, IdOf(row), world)];
      AfterGenerate(slugs, found, found.processKey)
  }

  /** No two rows are met at once. */
  ghost predicate IsStrict(rank: RowId -> int) {
    forall a, b | rank(a) == rank(b) :: a == b
  }

  /** `findOne` among the rows that match. */
  method FindFirst(ids: set<RowId>, rank: RowId -> int) returns (first: RowId)
    requires ids != {} && IsStrict(rank)
    ensures first == First(ids, rank)
  {
    first :| first in ids;
    var rest := ids - {first};
    while rest != {}
      invariant first in ids && rest <= ids
      invariant forall id | id in ids && id !in rest :: rank(first) <= rank(id)
      decreases |rest|
    {
      var id :| id in rest;
      rest := rest - {id};
      if rank(id) < rank(first) {
        first := id;
      }
    }
    assert rank(First(ids, rank)) == rank(first);
  }

  class PluginTable {
    var rows: Rows
    const slugs: SlugCollection

    constructor (rows: Rows, slugs: SlugCollection)
      ensures this.rows == rows && this.slugs == slugs
    {
      this.rows, this.slugs := rows, slugs;
    }

    /** Deprecates one row and installs another in one transaction, which a fault in between rolls back. */
    method Swap(from: RowId, next: RowId, fault: Fault) returns (ending: Ending)
      requires from in rows && next in rows && from != next && !fault.BeforeWrite?
      modifies this
      ensures rows == if fault.MidWrite? then old(rows) else Swapped(old(rows), from, next)
      ensures ending == if fault.MidWrite? then Threw else Quiet
    {
      var installed := Install(Inherit(rows[from], rows[next]));
      var session := rows[from := Deprecate(rows[from], rows[next])];
      if fault.MidWrite? {
        return Threw;
      }
      rows := session[next := installed];
      return Quiet;
    }

    /** `updatePlugin`: writes the new row, then deprecates the row it replaces in a second transaction and writes the
        latest metadata. When the query for the old row finds none, the plugin gets a slug if it has none, and its
        condition is recovered. */
    method Update(applied: SetupEvent, world: World, from: RowId, trial: Trial)
      requires PlanFor(rows, applied) == Replay(from) && !trial.fault.BeforeWrite? && IsStrict(world.rank)
      modifies this, slugs
      ensures rows == PluginReruns.FixPlugin(old(rows), applied, world, trial)
      ensures slugs.rows == SlugsAfter(old(rows), old(slugs.rows), applied, world, true, trial)
    {
      hide AfterGenerate, Generate, Refresh, Swapped, PlanFor;
      PlanIsThere(rows, applied);
      var prepared := Preparation(world.log, applied);
      if prepared.None? || trial.fault.CreateFailed? {
        return;
      }
      var next, row := RowId(applied.contract, applied.transactionHash), NewRow(applied, prepared.value, trial.reading);
      hide NewRow;
      rows := rows[next := row];
      if trial.fault.MidWrite? {
        return;
      }
      if Precedes(rows[from], rows[next]) {
        var _ := Swap(from, next, NoFault);
        if trial.refreshes {
          ApplyLatestMetadata(applied.contract, world);
        }
        return;
      }
      GiveSlugAndCondition(from, next, world, trial.fault);
    }

    /** An installed row of the new row's address and DAO. */
    method FindInstalled(from: RowId, next: RowId, world: World) returns (found: RowId)
      requires from in rows && next in rows && IsStrict(world.rank)
      ensures found == FoundInstalled(rows, from, next, world)
    {
      found := next;
      if rows[from].daoAddress == rows[next].daoAddress {
        found := FindFirst({from, next}, world.rank);
      }
    }

    /** `_ensureSlug` and `recoverConditionAddress`: both look for an installed row of the new row's address and DAO. */
    method GiveSlugAndCondition(from: RowId, next: RowId, world: World, fault: Fault)
      requires from in rows && next in rows && IsStrict(world.rank)
      modifies this, slugs
      ensures rows == if fault.BeforeCondition? then old(rows) else Linked(old(rows), from, next, world)
      ensures var found := old(rows)[FoundInstalled(old(rows), from, next, world)];
              slugs.rows == AfterGenerate(old(slugs.rows), found, found.processKey)
    {
      hide AfterGenerate, Generate, IsGenerated, FoundInstalled, PermissionLog.LatestCondition;
      var found := FindInstalled(from, next, world);
      var _ := slugs.GenerateSlug(rows[found], rows[found].processKey);
      if fault.BeforeCondition? {
        return;
      }
      var condition := PermissionLog.LatestCondition(world.permissions, InstallationOf(rows[next]));
      if condition.Some? && rows[found].conditionAddress != condition {
        rows := rows[found := rows[found].(conditionAddress := condition)];
      }
    }

    /** `fixPlugin`. `updates` are the applied updates of the plugin in chain order. */
    method FixPlugin(c: Contract, updates: seq<SetupEvent>, world: World, execute: bool, trial: Trial)
      returns (ending: Ending)
      requires updates != [] && PositionsDistinct(world.log) && IsStrict(world.rank)
      requires Ascending(updates, Select(world.log, AppliedTo(c)), SetupAt)
      modifies this, slugs
      ensures LastUpdate(world, c) == Some(updates[|updates| - 1])
      ensures var applied := updates[|updates| - 1];
              && rows == (if execute then PluginReruns.FixPlugin(old(rows), applied, world, trial) else old(rows))
              && slugs.rows == SlugsAfter(old(rows), old(slugs.rows), applied, world, execute, trial)
              && ending == FixEnding(old(rows), applied, world, execute, trial.fault)
    {
      LastOfAscending(updates, world.log, AppliedTo(c), SetupAt);
      ending := FixUpdate(updates[|updates| - 1], world, execute, trial);
    }

    method FixUpdate(applied: SetupEvent, world: World, execute: bool, trial: Trial) returns (ending: Ending)
      requires IsStrict(world.rank)
      modifies this, slugs
      ensures rows == if execute then PluginReruns.FixPlugin(old(rows), applied, world, trial) else old(rows)
      ensures slugs.rows == SlugsAfter(old(rows), old(slugs.rows), applied, world, execute, trial)
      ensures ending == FixEnding(old(rows), applied, world, execute, trial.fault)
    {
      hide NewRow, Precedes, Preparation, Linked, SlugsAfterReplay, Inherit, Refresh;
      if trial.fault.BeforeWrite? {
        return Threw;
      }
      var ids := InstalledIds(rows, applied.contract);
      if |ids| > 1 {
        return Logged;
      }
      var next := RowId(applied.contract, applied.transactionHash);
      if ids == {} || next in ids {
        NothingToDo(rows, applied);
        return Quiet;
      }
      var from :| from in ids;
      OnlyOne(ids, from);
      if !execute {
        return Quiet;
      }
      if next in rows {
        ending := Swap(from, next, trial.fault);
        return;
      }
      ghost var before := rows;
      var wasSupported := rows[from].isSupported;
      Update(applied, world, from, trial);
      ReplayChecked(before, applied, world, trial);
      hide *;
      var installed := InstalledIds(rows, applied.contract);
      if installed != {next} || rows[next].isSupported != wasSupported {
        return Logged;
      }
      return Quiet;
    }

    /** `applyLatestMetadata`. */
    method ApplyLatestMetadata(c: Contract, world: World)
      requires IsStrict(world.rank)
      modifies this
      ensures rows == Refresh(old(rows), c, world)
    {
      var supported, unsupported := Lookup(rows, c, true), Lookup(rows, c, false);
      var latest := world.metadata(c);
      if latest.None? || (supported == {} && unsupported == {}) {
        return;
      }
      var found := FindFirst(if supported != {} then supported else unsupported, world.rank);
      rows := rows[found := Refreshed(rows[found], latest.value)];
    }

    /** `fixProposalCondition`: starts from the oldest row's condition and lets every update that grants proposals, in
        chain order, replace it. */
    method FixProposalCondition(c: Contract, updates: seq<SetupEvent>, world: World)
      requires updates != [] && PositionsDistinct(world.log) && IsStrict(world.rank)
      requires Ascending(updates, Select(world.log, AppliedTo(c)), SetupAt)
      modifies this
      ensures rows == Reconditioned(old(rows), updates[|updates| - 1], world)
    {
      var installed := InstalledIds(rows, c);
      var applied := updates[|updates| - 1];
      LastOfAscending(updates, world.log, AppliedTo(c), SetupAt);
      LastUpdateIsOfContract(world, c);
      if installed == {} {
        return;
      }
      var row := FindFirst(installed, world.rank);
      if row.transactionHash != applied.transactionHash {
        return;
      }
      assert row in Blocks(rows, c);
      LowestExists(Blocks(rows, c));
      var oldest := FindFirst(Lowest(Blocks(rows, c)), world.rank);
      var condition := FoldConditions(c, updates, world, ProposalCondition(rows[oldest].permissions, c.address));
      if condition.Some? {
        rows := rows[row := rows[row].(proposalCreationConditionAddress := condition.value)];
      }
    }

    /** One iteration of the driver: the repair of a plugin, then the two steps after it. */
    method TakeTurn(c: Contract, updates: seq<SetupEvent>, world: World, execute: bool, trial: Trial)
      returns (ending: Ending)
      requires PositionsDistinct(world.log) && IsStrict(world.rank) && WasUpdated(world.log, c)
      requires Ascending(updates, Select(world.log, AppliedTo(c)), SetupAt)
      modifies this, slugs
      ensures rows == if execute then StepContract(old(rows), c, world, trial) else old(rows)
      ensures LastUpdate(world, c).Some?
      ensures ending == EndingOf(old(rows), LastUpdate(world, c).value, world, execute, trial)
      ensures OnlyAdded(old(slugs.rows), slugs.rows, execute)
    {
      hide PluginReruns.FixPlugin, Refresh, Reconditioned, OnlyAdded, SlugsAfter, Ascending, PositionsDistinct;
      UpdatesAreThere(world, c, updates);
      LastUpdateIsOfContract(world, c);
      SlugsOnlyAdded(rows, slugs.rows, updates[|updates| - 1], world, execute, trial);
      ending := FixPlugin(c, updates, world, execute, trial);
      if ending.Threw? || !execute || trial.rest.Nothing? {
        return if ending.Quiet? && execute then Threw else ending;
      }
      if !trial.rest.ConditionOnly? {
        ApplyLatestMetadata(c, world);
      }
      if trial.rest.MetadataOnly? {
        return if ending.Quiet? then Threw else ending;
      }
      FixProposalCondition(c, updates, world);
    }
  }

  /** The conditions of the updates that grant proposals, each replacing the one before; nothing when an update has no
      preparation. */
  method FoldConditions(c: Contract, updates: seq<SetupEvent>, world: World, initial: string)
    returns (condition: Option<string>)
    requires PositionsDistinct(world.log)
    requires Ascending(updates, Select(world.log, AppliedTo(c)), SetupAt)
    ensures condition == if AllPrepared(world.log, c) then Some(NewestCondition(world.log, c, initial)) else None
  {
    hide GrantsProposals, ProposalCondition, Ascending, PositionsDistinct, AllPrepared, NewestCondition;
    hide FirstPreparation, IsLastCondition;
    var current := initial;
    NoCondition(world.log, c, updates, initial);
    for n := 0 to |updates|
      invariant forall m | 0 <= m < n :: FirstPreparation(world.log, updates[m]).Some?
      invariant IsLastCondition(world.log, c, updates, n, initial, current)
    {
      var prepared := FirstPreparation(world.log, updates[n]);
      UpdateIsApplied(world.log, c, updates, n);
      if prepared.None? {
        NotAllPrepared(world.log, c, updates, n);
        return None;
      }
      LastConditionNext(world.log, c, updates, n, initial, current);
      if GrantsProposals(prepared.value.permissions, c.address) {
        current := ProposalCondition(prepared.value.permissions, c.address);
      }
    }
    LastConditionIsNewest(world.log, c, updates, initial, current);
    return Some(current);
  }

  lemma NoCondition(log: seq<SetupEvent>, c: Contract, updates: seq<SetupEvent>, initial: string)
    ensures IsLastCondition(log, c, updates, 0, initial, initial)
  {
  }

  lemma LastConditionNext(
    log: seq<SetupEvent>, c: Contract, updates: seq<SetupEvent>, n: nat, initial: string, current: string)
    requires n < |updates| && IsLastCondition(log, c, updates, n, initial, current)
    ensures IsLastCondition(log, c, updates, n + 1, initial,
                            if GrantingTo(log, c)(updates[n]) then PreparedCondition(log, updates[n], c) else current)
  {
    if GrantingTo(log, c)(updates[n]) {
      assert IsLastGrant(log, c, updates, n + 1, n);
    } else if k :| IsLastGrant(log, c, updates, n, k) && current == PreparedCondition(log, updates[k], c) {
      assert IsLastGrant(log, c, updates, n + 1, k);
    }
    hide FirstPreparation, GrantsProposals, ProposalCondition;
  }

  /** Position `k` is the last below `n` whose update grants proposals. */
  ghost predicate IsLastGrant(log: seq<SetupEvent>, c: Contract, updates: seq<SetupEvent>, n: int, k: int) {
    && 0 <= k < n <= |updates| && GrantingTo(log, c)(updates[k])
    && forall m | k < m < n :: !GrantingTo(log, c)(updates[m])
  }

  ghost predicate IsLastCondition(
    log: seq<SetupEvent>, c: Contract, updates: seq<SetupEvent>, n: int, initial: string, current: string)
  {
    && 0 <= n <= |updates|
    && (|| (current == initial && forall m | 0 <= m < n :: !GrantingTo(log, c)(updates[m]))
        || exists k :: IsLastGrant(log, c, updates, n, k) && current == PreparedCondition(log, updates[k], c))
  }

  lemma UpdateIsApplied(log: seq<SetupEvent>, c: Contract, updates: seq<SetupEvent>, n: nat)
    requires Ascending(updates, Select(log, AppliedTo(c)), SetupAt) && n < |updates|
    ensures updates[n] in log && AppliedTo(c)(updates[n])
  {
    SameMembers(updates, Select(log, AppliedTo(c)));
    assert updates[n] in updates;
  }

  lemma NotAllPrepared(log: seq<SetupEvent>, c: Contract, updates: seq<SetupEvent>, n: nat)
    requires Ascending(updates, Select(log, AppliedTo(c)), SetupAt) && n < |updates|
    requires FirstPreparation(log, updates[n]).None?
    ensures !AllPrepared(log, c)
  {
    UpdateIsApplied(log, c, updates, n);
  }

  lemma LastConditionIsNewest(
    log: seq<SetupEvent>, c: Contract, updates: seq<SetupEvent>, initial: string, current: string)
    requires PositionsDistinct(log) && Ascending(updates, Select(log, AppliedTo(c)), SetupAt)
    requires forall m | 0 <= m < |updates| :: FirstPreparation(log, updates[m]).Some?
    requires IsLastCondition(log, c, updates, |updates|, initial, current)
    ensures AllPrepared(log, c) && current == NewestCondition(log, c, initial)
  {
    hide FirstPreparation, GrantsProposals, ProposalCondition;
    SameMembers(updates, Select(log, AppliedTo(c)));
    forall e | e in log && AppliedTo(c)(e) ensures exists m :: 0 <= m < |updates| && updates[m] == e {
      assert e in updates;
    }
    NewestIsNewest(log, GrantingTo(log, c), SetupAt);
    if k :| IsLastGrant(log, c, updates, |updates|, k) && current == PreparedCondition(log, updates[k], c) {
      assert updates[k] in updates;
      assert Distinct(log, AppliedTo(c), SetupAt);
      forall o | o in log && GrantingTo(log, c)(o) ensures !Before(SetupAt(updates[k]), SetupAt(o)) {
        var m :| 0 <= m < |updates| && updates[m] == o;
        assert m <= k;
      }
      NewestUnique(log, GrantingTo(log, c), SetupAt, updates[k]);
    }
  }

  /** Two applied updates of one plugin never share a position. */
  ghost predicate PositionsDistinct(log: seq<SetupEvent>) {
    forall c :: Distinct(log, AppliedTo(c), SetupAt)
  }

  lemma NothingToDo(rows: Rows, applied: SetupEvent)
    requires |InstalledIds(rows, applied.contract)| <= 1
    requires InstalledIds(rows, applied.contract) == {}
             || RowId(applied.contract, applied.transactionHash) in InstalledIds(rows, applied.contract)
    ensures PlanFor(rows, applied).Settled?
  {
    var ids := InstalledIds(rows, applied.contract);
    if ids != {} {
      OnlyOne(ids, RowId(applied.contract, applied.transactionHash));
    }
  }

  /** The check after a replay passes exactly when the replay went through to its second transaction. */
  lemma ReplayChecked(rows: Rows, applied: SetupEvent, world: World, trial: Trial)
    requires PlanFor(rows, applied).Replay?
    ensures var after := PluginReruns.FixPlugin(rows, applied, world, trial);
            var from, next := PlanFor(rows, applied).from, RowId(applied.contract, applied.transactionHash);
            (InstalledIds(after, applied.contract) == {next} && after[next].isSupported == rows[from].isSupported)
            <==> Refreshes(rows, applied, world, trial.fault)
  {
    var repaired := Repair(rows, applied, world, trial.fault, trial.reading);
    var after := PluginReruns.FixPlugin(rows, applied, world, trial);
    var from, next := PlanFor(rows, applied).from, RowId(applied.contract, applied.transactionHash);
    assert from in InstalledIds(rows, applied.contract) && from != next;
    FixedInstalledIds(rows, applied, world, trial.fault, trial.reading);
    if NeedsReplay(rows, applied, world) && IsWriting(trial.fault) {
      ReplayWrites(rows, applied, world, trial.fault, trial.reading);
    }
    RefreshKeepsCore(repaired, applied.contract, world);
    InstalledDependsOnCore(repaired, after, applied.contract);
    if Refreshes(rows, applied, world, trial.fault) {
      assert repaired[next].isSupported == rows[from].isSupported;
      SameCoreRow(repaired, after, next);
      assert CoreOf(repaired[next]).isSupported == repaired[next].isSupported;
      assert CoreOf(after[next]).isSupported == after[next].isSupported;
    }
    hide NewRow, Linked, Refresh, Core;
  }

  ghost predicate WasUpdated(log: seq<SetupEvent>, c: Contract) {
    exists e :: e in log && e.kind.UpdateApplied? && e.contract == c
  }

  /** The plugins with an applied update, each once. */
  method UpdatedContracts(log: seq<SetupEvent>) returns (contracts: seq<Contract>)
    ensures NoRepeats(contracts)
    ensures forall c :: c in contracts <==> WasUpdated(log, c)
  {
    contracts := [];
    for n := 0 to |log|
      invariant NoRepeats(contracts)
      invariant forall c :: c in contracts <==> WasUpdated(log[..n], c)
    {
      forall c ensures WasUpdated(log[..n + 1], c) <==> WasUpdated(log[..n], c) || AppliedTo(c)(log[n]) {
        assert log[..n + 1] == log[..n] + [log[n]];
        if AppliedTo(c)(log[n]) {
          assert log[n] in log[..n + 1];
        }
      }
      if log[n].kind.UpdateApplied? && log[n].contract !in contracts {
        contracts := contracts + [log[n].contract];
      }
    }
    assert log[..|log|] == log;
  }

  // ---- reports ----

  lemma EndingIsLocal(rows: Rows, applied: SetupEvent, world: World, execute: bool, trial: Trial)
    ensures EndingOf(Of(rows, applied.contract), applied, world, execute, trial)
            == EndingOf(rows, applied, world, execute, trial)
  {
    SamePlan(rows, applied, world);
    hide Of, PlanFor, Replayable;
  }

  /** How the run over the first plugins ended for the next one. */
  ghost predicate Reports(
    rows: Rows, contracts: seq<Contract>, world: World, trials: Trials, n: nat, ending: Ending)
    requires n < |contracts|
  {
    var c, now := contracts[n], Run(rows, contracts[..n], world, trials);
    var last := LastUpdate(world, c);
    last.Some? && ending == EndingOf(now, last.value, world, true, trials(c))
  }

  /** The plugin goes unreported exactly when nothing failed early or late for it and no row of it is left installed but
      the last update's. */
  ghost predicate IsAccurate(after: Rows, c: Contract, world: World, trials: Trials, ending: Ending) {
    var last := LastUpdate(world, c);
    last.Some? && (ending.Quiet? <==>
      && !trials(c).fault.BeforeWrite? && trials(c).rest in {ConditionOnly, Everything}
      && InstalledIds(after, c) <= {RowId(c, last.value.transactionHash)})
  }

  /** What an applied run reports of a plugin is accurate at the end of the run, not only after its own turn. */
  lemma ReportIsAccurate(
    rows: Rows, contracts: seq<Contract>, world: World, trials: Trials, n: nat, ending: Ending)
    requires NoRepeats(contracts) && n < |contracts| && Reports(rows, contracts, world, trials, n, ending)
    ensures IsAccurate(Run(rows, contracts, world, trials), contracts[n], world, trials, ending)
  {
    hide EndingOf, Step, Run;
    var c := contracts[n];
    var last := LastUpdate(world, c).value;
    LastUpdateIsOfContract(world, c);
    RunIsPointwise(rows, contracts[..n], world, trials, c);
    RunIsPointwise(rows, contracts, world, trials, c);
    EndingIsLocal(Run(rows, contracts[..n], world, trials), last, world, true, trials(c));
    EndingIsLocal(rows, last, world, true, trials(c));
    QuietExactly(Of(rows, c), last, world, trials(c));
    var after := Run(rows, contracts, world, trials);
    assert InstalledIds(Of(after, c), c) == InstalledIds(after, c);
  }

  // ---- the driver ----

  /** No slug is lost or doubled, and a dry run adds none. */
  ghost predicate OnlyAdded(slugs: seq<SlugRow>, after: seq<SlugRow>, execute: bool) {
    slugs <= after && (SlugsUnique(slugs) ==> SlugsUnique(after)) && (!execute ==> after == slugs)
  }

  /** `start`: one turn per plugin, an exception ends that plugin only. `updates` is the sorted query of a plugin. */
  method FixUpdatedPlugins(
    table: PluginTable, world: World, updates: Contract -> seq<SetupEvent>, execute: bool, trials: Trials)
    returns (contracts: seq<Contract>, ghost endings: seq<Ending>)
    requires PositionsDistinct(world.log) && IsStrict(world.rank)
    requires forall c :: Ascending(updates(c), Select(world.log, AppliedTo(c)), SetupAt)
    modifies table, table.slugs
    ensures NoRepeats(contracts)
    ensures forall c :: c in contracts <==> WasUpdated(world.log, c)
    ensures table.rows == if execute then Run(old(table.rows), contracts, world, trials) else old(table.rows)
    ensures |endings| == |contracts|
    ensures execute ==>
              forall n | 0 <= n < |contracts| :: IsAccurate(table.rows, contracts[n], world, trials, endings[n])
    ensures OnlyAdded(old(table.slugs.rows), table.slugs.rows, execute)
  {
    contracts := UpdatedContracts(world.log);
    endings := [];
    ghost var rows := table.rows;
    assert Run(rows, contracts[..0], world, trials) == rows;
    NothingReported(rows, contracts, world, trials);
    hide EndingOf, StepContract, Run, SlugsUnique, IsAccurate, WasUpdated, Ascending, PositionsDistinct, AllReport;
    for n := 0 to |contracts|
      invariant |endings| == n && (execute ==> AllReport(rows, contracts, world, trials, endings))
      invariant table.rows == if execute then Run(rows, contracts[..n], world, trials) else rows
      invariant OnlyAdded(old(table.slugs.rows), table.slugs.rows, execute)
    {
      var c := contracts[n];
      RunNext(rows, contracts, world, trials, n);
      var ending := table.TakeTurn(c, updates(c), world, execute, trials(c));
      if execute {
        ReportNext(rows, contracts, world, trials, endings, ending);
      }
      endings := endings + [ending];
    }
    assert contracts[..|contracts|] == contracts;
    if execute {
      AllAccurate(rows, contracts, world, trials, endings);
    }
  }

  /** The endings are how the run ended for the first plugins. */
  ghost predicate AllReport(
    rows: Rows, contracts: seq<Contract>, world: World, trials: Trials, endings: seq<Ending>)
  {
    && |endings| <= |contracts|
    && forall n | 0 <= n < |endings| :: Reports(rows, contracts, world, trials, n, endings[n])
  }

  lemma NothingReported(rows: Rows, contracts: seq<Contract>, world: World, trials: Trials)
    ensures AllReport(rows, contracts, world, trials, [])
  {
  }

  lemma ReportNext(
    rows: Rows, contracts: seq<Contract>, world: World, trials: Trials, endings: seq<Ending>, ending: Ending)
    requires |endings| < |contracts| && AllReport(rows, contracts, world, trials, endings)
    requires Reports(rows, contracts, world, trials, |endings|, ending)
    ensures AllReport(rows, contracts, world, trials, endings + [ending])
  {
    hide Reports;
  }

  lemma AllAccurate(
    rows: Rows, contracts: seq<Contract>, world: World, trials: Trials, endings: seq<Ending>)
    requires NoRepeats(contracts)
    requires |endings| == |contracts| && AllReport(rows, contracts, world, trials, endings)
    ensures forall n | 0 <= n < |contracts| ::
              IsAccurate(Run(rows, contracts, world, trials), contracts[n], world, trials, endings[n])
  {
    forall n | 0 <= n < |contracts|
      ensures IsAccurate(Run(rows, contracts, world, trials), contracts[n], world, trials, endings[n])
    {
      ReportIsAccurate(rows, contracts, world, trials, n, endings[n]);
    }
  }

  lemma RunNext(rows: Rows, contracts: seq<Contract>, world: World, trials: Trials, n: nat)
    requires n < |contracts|
    ensures Run(rows, contracts[..n + 1], world, trials) ==
            StepContract(Run(rows, contracts[..n], world, trials), contracts[n], world, trials(contracts[n]))
  {
    assert contracts[..n + 1][..n] == contracts[..n];
  }

  lemma UpdatesAreThere(world: World, c: Contract, updates: seq<SetupEvent>)
    requires WasUpdated(world.log, c) && Ascending(updates, Select(world.log, AppliedTo(c)), SetupAt)
    ensures updates != [] && LastUpdate(world, c).Some?
  {
    NewestIsNewest(world.log, AppliedTo(c), SetupAt);
    SameMembers(updates, Select(world.log, AppliedTo(c)));
    var e :| e in world.log && AppliedTo(c)(e);
    assert e in updates;
  }

  lemma SlugsOnlyAdded(
    rows: Rows, slugs: seq<SlugRow>, applied: SetupEvent, world: World, execute: bool, trial: Trial)
    ensures OnlyAdded(slugs, SlugsAfter(rows, slugs, applied, world, execute, trial), execute)
  {
    hide NewRow, Precedes, AfterGenerate, SlugsUnique, HasSlug, IsUnnameable, Generate, FoundInstalled;
    if NeedsReplay(rows, applied, world) {
      var row := NewRow(applied, Preparation(world.log, applied).value, trial.reading);
      var created := rows[IdOf(row) := row];
      var found := created[FoundInstalled(created, PlanFor(rows, applied).from, IdOf(row), world)];
      GenerateResult(slugs, found, found.processKey);
    }
  }
}
