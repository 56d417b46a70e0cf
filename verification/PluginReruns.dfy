/** One plugin over several runs: when failed runs followed by a clean one leave what one clean run leaves. */
module PluginReruns {
  import opened Keys
  import opened Chronology
  import opened Plugins
  import opened PluginUpdates
  import opened PluginFinish
  import PermissionLog

  /** The replay got through its second transaction, after which it writes the latest metadata. */
  ghost predicate Refreshes(rows: Rows, applied: SetupEvent, world: World, fault: Fault) {
    Replayable(rows, applied, world) && IsWriting(fault) && !fault.MidWrite?
  }

  /** `fixPlugin`: the repair, and the metadata a replay writes at its end unless that write fails. */
  ghost function FixPlugin(rows: Rows, applied: SetupEvent, world: World, trial: Trial): Rows {
    var repaired := Repair(rows, applied, world, trial.fault, trial.reading);
    if trial.refreshes && Refreshes(rows, applied, world, trial.fault)
    then Refresh(repaired, applied.contract, world) else repaired
  }

  /** A replay that goes through writes the latest metadata itself, before the steps that follow it: to the row then
      found by address, and nothing else. */
  lemma ReplayRefreshes(rows: Rows, applied: SetupEvent, world: World, reading: Reading, rest: Rest)
    requires Replayable(rows, applied, world) && world.metadata(applied.contract).Some?
    requires reading.interfaceType != Some(Safe)
    ensures var repaired := Repair(rows, applied, world, NoFault, reading);
            var latest := world.metadata(applied.contract).value;
            exists id :: IsFoundByAddress(repaired, applied.contract, world, id)
                         && FixPlugin(rows, applied, world, Trial(NoFault, reading, true, rest)) ==
                            repaired[id := repaired[id].(metadata := Some(latest.metadata),
                                                         processKey := latest.processKey)]
  {
    var c, next := applied.contract, RowId(applied.contract, applied.transactionHash);
    var repaired := Repair(rows, applied, world, NoFault, reading);
    ReplayResult(rows, applied, world, reading);
    assert IsNoSafes(repaired, c, next);
    RefreshExactly(repaired, c, world);
    hide Repair, Refresh, NewRow;
  }

  /** `fixPlugin` throws, which skips the steps after it; a replay swallows its own errors. */
  ghost predicate Throws(rows: Rows, applied: SetupEvent, fault: Fault) {
    fault.BeforeWrite? || (PlanFor(rows, applied).Swap? && fault.MidWrite?)
  }

  /** One plugin's turn in a run. */
  ghost function Step(rows: Rows, applied: SetupEvent, world: World, trial: Trial): Rows {
    var fixed := FixPlugin(rows, applied, world, trial);
    if Throws(rows, applied, trial.fault) then fixed else Finish(fixed, applied, world, trial.rest)
  }

  function Clean(reading: Reading): Trial {
    Trial(NoFault, reading, true, Everything)
  }

  ghost function StepRepeatedly(rows: Rows, applied: SetupEvent, world: World, trials: seq<Trial>): Rows
    decreases |trials|
  {
    if trials == [] then rows
    else StepRepeatedly(Step(rows, applied, world, trials[0]), applied, world, trials[1..])
  }

  // ---- when reruns go wrong ----

  /** The first run in which a replay wrote its row. */
  function FirstWriting(trials: seq<Trial>): Option<Trial> {
    if trials == [] then None
    else if IsWriting(trials[0].fault) then Some(trials[0])
    else FirstWriting(trials[1..])
  }

  /** The recovered condition of a replay without a previous row would change the row it goes to. */
  ghost predicate LinkChanges(rows: Rows, applied: SetupEvent, world: World, reading: Reading) {
    && NeedsReplay(rows, applied, world)
    && var row := NewRow(applied, Preparation(world.log, applied).value, reading);
       var created := rows[IdOf(row) := row];
       var condition := PermissionLog.LatestCondition(world.permissions, InstallationOf(row));
       var found := FoundInstalled(created, PlanFor(rows, applied).from, IdOf(row), world);
       condition.Some? && created[found].conditionAddress != condition
  }

  /** A replay wrote its row from another reading of the chain than a clean run's, or it stopped between its two writes
      and the second one would have deprecated the old row or changed a condition. */
  ghost predicate StrandedBy(rows: Rows, applied: SetupEvent, world: World, trial: Trial, reading: Reading) {
    && NeedsReplay(rows, applied, world)
    && (|| trial.reading != reading
        || if Replayable(rows, applied, world) then trial.fault.MidWrite?
           else (trial.fault.MidWrite? || trial.fault.BeforeCondition?) && LinkChanges(rows, applied, world, reading))
  }

  ghost predicate Stranded(rows: Rows, applied: SetupEvent, world: World, trials: seq<Trial>, reading: Reading) {
    FirstWriting(trials).Some? && StrandedBy(rows, applied, world, FirstWriting(trials).value, reading)
  }

  /** Before a replay wrote its row, its creation failed in a run that went on to write the latest metadata. */
  predicate RefreshedEarly(trials: seq<Trial>) {
    && trials != [] && !IsWriting(trials[0].fault)
    && (WritesMetadata(trials[0]) || RefreshedEarly(trials[1..]))
  }

  predicate WritesMetadata(trial: Trial) {
    trial.fault.CreateFailed? && (trial.rest.MetadataOnly? || trial.rest.Everything?)
  }

  /** Metadata written before the replay would stay on a row a clean run does not write it to: on another row than the
      one found after the replay, or on the replaced row, which passes it on. */
  ghost predicate Sticks(rows: Rows, applied: SetupEvent, world: World, reading: Reading) {
    var c := applied.contract;
    var found, latest := FindByAddress(rows, c, world), world.metadata(c);
    && NeedsReplay(rows, applied, world)
    && found.Some? && latest.Some?
    && Refreshed(rows[found.value], latest.value) != rows[found.value]
    && (|| FindByAddress(Repair(rows, applied, world, NoFault, reading), c, world) != found
        || (Replayable(rows, applied, world) && found.value == PlanFor(rows, applied).from))
  }

  // ---- what a step leaves of the core depends on the core ----

  lemma CorePlan(rows: Rows, rows': Rows, applied: SetupEvent, world: World)
    requires Core(rows) == Core(rows')
    ensures PlanFor(rows, applied) == PlanFor(rows', applied)
    ensures NeedsReplay(rows, applied, world) <==> NeedsReplay(rows', applied, world)
    ensures Replayable(rows, applied, world) <==> Replayable(rows', applied, world)
  {
    var next := RowId(applied.contract, applied.transactionHash);
    InstalledDependsOnCore(rows, rows', applied.contract);
    SameCoreRow(rows, rows', next);
    hide Core, InstalledIds, Blocks;
    var plan := PlanFor(rows, applied);
    assert plan == PlanFor(rows', applied);
    if plan.Replay? {
      SameCoreRow(rows, rows', plan.from);
      SameCoreFields(rows[plan.from], rows'[plan.from]);
    }
  }

  lemma SameCoreFields(p: Plugin, q: Plugin)
    requires CoreOf(p) == CoreOf(q)
    ensures InstallationOf(p) == InstallationOf(q) && p.daoAddress == q.daoAddress
    ensures p.pluginSetupRepoAddress == q.pluginSetupRepoAddress && p.blockNumber == q.blockNumber
    ensures p.conditionAddress == q.conditionAddress
  {
    assert InstallationOf(CoreOf(p)) == InstallationOf(p) && InstallationOf(CoreOf(q)) == InstallationOf(q);
    assert CoreOf(p).pluginSetupRepoAddress == p.pluginSetupRepoAddress;
    assert CoreOf(p).blockNumber == p.blockNumber && CoreOf(p).conditionAddress == p.conditionAddress;
  }

  lemma CoreInherits(previous: Plugin, next: Plugin)
    ensures CoreOf(Install(Inherit(previous, next))) == CoreOf(Install(Inherit(CoreOf(previous), CoreOf(next))))
    ensures CoreOf(Deprecate(previous, next)) == CoreOf(Deprecate(CoreOf(previous), CoreOf(next)))
  {
  }

  lemma SwapRespectsCore(rows: Rows, rows': Rows, from: RowId, next: RowId)
    requires Core(rows) == Core(rows') && from in rows && next in rows
    ensures from in rows' && next in rows'
    ensures Core(Swapped(rows, from, next)) == Core(Swapped(rows', from, next))
  {
    SameCoreRow(rows, rows', from);
    SameCoreRow(rows, rows', next);
    CoreInherits(rows[from], rows[next]);
    CoreInherits(rows'[from], rows'[next]);
    hide Core, CoreOf, Inherit, Install, Deprecate;
    CoreUpdate(rows, from, Deprecate(rows[from], rows[next]));
    CoreUpdate(rows', from, Deprecate(rows'[from], rows'[next]));
    CoreUpdate(rows[from := Deprecate(rows[from], rows[next])], next, Install(Inherit(rows[from], rows[next])));
    CoreUpdate(rows'[from := Deprecate(rows'[from], rows'[next])], next, Install(Inherit(rows'[from], rows'[next])));
  }

  lemma LinkRespectsCore(rows: Rows, rows': Rows, from: RowId, next: RowId, world: World)
    requires Core(rows) == Core(rows') && from in rows && next in rows
    ensures from in rows' && next in rows'
    ensures FoundInstalled(rows, from, next, world) == FoundInstalled(rows', from, next, world)
    ensures Core(Linked(rows, from, next, world)) == Core(Linked(rows', from, next, world))
  {
    SameCoreRow(rows, rows', from);
    SameCoreRow(rows, rows', next);
    SameCoreFields(rows[from], rows'[from]);
    SameCoreFields(rows[next], rows'[next]);
    var found := FoundInstalled(rows, from, next, world);
    var condition := PermissionLog.LatestCondition(world.permissions, InstallationOf(rows[next]));
    SameCoreCondition(rows[found], rows'[found], condition);
    hide Core, CoreOf, PermissionLog.LatestCondition;
    CoreUpdate(rows, found, rows[found].(conditionAddress := condition));
    CoreUpdate(rows', found, rows'[found].(conditionAddress := condition));
  }

  lemma SameCoreCondition(p: Plugin, q: Plugin, condition: Option<Address>)
    requires CoreOf(p) == CoreOf(q)
    ensures CoreOf(p.(conditionAddress := condition)) == CoreOf(q.(conditionAddress := condition))
  {
    assert CoreOf(p.(conditionAddress := condition)) == CoreOf(p).(conditionAddress := condition);
    assert CoreOf(q.(conditionAddress := condition)) == CoreOf(q).(conditionAddress := condition);
  }

  lemma CreateRespectsCore(rows: Rows, rows': Rows, from: RowId, row: Plugin)
    requires Core(rows) == Core(rows') && from in rows
    ensures var next := IdOf(row); Core(rows[next := row]) == Core(rows'[next := row])
    ensures from in rows' && (Precedes(rows[from], row) <==> Precedes(rows'[from], row))
  {
    SameCoreRow(rows, rows', from);
    SameCoreFields(rows[from], rows'[from]);
    CoreUpdate(rows, IdOf(row), row);
    CoreUpdate(rows', IdOf(row), row);
  }

  lemma ReplayRespectsCore(rows: Rows, rows': Rows, from: RowId, row: Plugin, world: World, fault: Fault)
    requires Core(rows) == Core(rows') && from in rows && from != IdOf(row)
    ensures from in rows'
    ensures Core(Replayed(rows, from, IdOf(row), row, world, fault))
            == Core(Replayed(rows', from, IdOf(row), row, world, fault))
  {
    var next := IdOf(row);
    CreateRespectsCore(rows, rows', from, row);
    SwapRespectsCore(rows[next := row], rows'[next := row], from, next);
    LinkRespectsCore(rows[next := row], rows'[next := row], from, next, world);
    hide Core, Swapped, Linked, Precedes;
  }

  /** What a repair writes, by its plan. */
  lemma RepairByPlan(rows: Rows, applied: SetupEvent, world: World, fault: Fault, reading: Reading)
    ensures var plan, prepared := PlanFor(rows, applied), Preparation(world.log, applied);
            var next := RowId(applied.contract, applied.transactionHash);
            var after := Repair(rows, applied, world, fault, reading);
            && (plan.Swap? ==> plan.from in rows && next in rows)
            && (plan.Replay? ==> plan.from in rows && plan.from != next)
            && (if plan.Swap? && !fault.BeforeWrite? && !fault.MidWrite?
                then after == Swapped(rows, plan.from, next)
                else if plan.Replay? && prepared.Some?
                then after == Replayed(rows, plan.from, next, NewRow(applied, prepared.value, reading), world, fault)
                else after == rows)
  {
    PlanIsThere(rows, applied);
    hide NewRow, Swapped, Replayed, PlanFor;
  }

  /** The core a repair leaves depends on the core it finds. */
  lemma RepairRespectsCore(
    rows: Rows, rows': Rows, applied: SetupEvent, world: World, fault: Fault, reading: Reading)
    requires Core(rows) == Core(rows')
    ensures Core(Repair(rows, applied, world, fault, reading)) == Core(Repair(rows', applied, world, fault, reading))
  {
    CorePlan(rows, rows', applied, world);
    RepairByPlan(rows, applied, world, fault, reading);
    RepairByPlan(rows', applied, world, fault, reading);
    var plan, prepared := PlanFor(rows, applied), Preparation(world.log, applied);
    hide *;
    if plan.Swap? {
      SwapRespectsCore(rows, rows', plan.from, RowId(applied.contract, applied.transactionHash));
    } else if plan.Replay? && prepared.Some? {
      var row := NewRow(applied, prepared.value, reading);
      assert IdOf(row) == RowId(applied.contract, applied.transactionHash);
      ReplayRespectsCore(rows, rows', plan.from, row, world, fault);
    }
  }

  lemma LinkChangesDependsOnCore(rows: Rows, rows': Rows, applied: SetupEvent, world: World, reading: Reading)
    requires Core(rows) == Core(rows')
    ensures LinkChanges(rows, applied, world, reading) <==> LinkChanges(rows', applied, world, reading)
  {
    CorePlan(rows, rows', applied, world);
    if NeedsReplay(rows, applied, world) {
      var from := PlanFor(rows, applied).from;
      var row := NewRow(applied, Preparation(world.log, applied).value, reading);
      var created, created' := rows[IdOf(row) := row], rows'[IdOf(row) := row];
      CreateRespectsCore(rows, rows', from, row);
      LinkRespectsCore(created, created', from, IdOf(row), world);
      var found := FoundInstalled(created, from, IdOf(row), world);
      SameCoreRow(created, created', found);
      SameCoreFields(created[found], created'[found]);
      hide Core, NewRow, FoundInstalled, PlanFor;
    }
  }

  // ---- a plugin with nothing left to repair ----

  ghost predicate IsDone(rows: Rows, applied: SetupEvent, world: World) {
    !PlanFor(rows, applied).Swap? && !NeedsReplay(rows, applied, world)
  }

  lemma DoneStays(rows: Rows, applied: SetupEvent, world: World, trial: Trial)
    requires IsDone(rows, applied, world)
    ensures FixPlugin(rows, applied, world, trial) == rows
    ensures Repair(rows, applied, world, trial.fault, trial.reading) == rows
  {
  }

  /** Rows a complete pass over the two steps makes the same. */
  ghost predicate SameOnceFinished(rows: Rows, rows': Rows, applied: SetupEvent, world: World) {
    && Core(rows) == Core(rows')
    && Finish(rows, applied, world, Everything) == Finish(rows', applied, world, Everything)
  }

  lemma FinishStaysSame(rows: Rows, rows': Rows, applied: SetupEvent, world: World, rest: Rest)
    requires SameOnceFinished(rows, rows', applied, world)
    ensures SameOnceFinished(rows, Finish(rows', applied, world, rest), applied, world)
  {
    FinishKeepsCore(rows', applied, world, rest);
    FinishAbsorbs(rows', applied, world, rest);
    hide Finish, Core;
  }

  /** Once there is nothing left to repair, a clean run ends the same whatever the runs before it did. */
  lemma {:induction false} DonePhase(
    rows: Rows, now: Rows, applied: SetupEvent, world: World, trials: seq<Trial>, reading: Reading)
    requires IsDone(rows, applied, world) && SameOnceFinished(rows, now, applied, world)
    ensures Step(StepRepeatedly(now, applied, world, trials), applied, world, Clean(reading))
            == Finish(rows, applied, world, Everything)
    decreases |trials|
  {
    CorePlan(rows, now, applied, world);
    if trials == [] {
      DoneStays(now, applied, world, Clean(reading));
      hide FixPlugin, Finish, Core;
    } else {
      DoneStays(now, applied, world, trials[0]);
      FinishStaysSame(rows, now, applied, world, trials[0].rest);
      hide FixPlugin, Finish, Core, SameOnceFinished;
      DonePhase(rows, Step(now, applied, world, trials[0]), applied, world, trials[1..], reading);
    }
  }

  /** A turn that repaired something ends, up to the two steps, with the repaired rows. */
  lemma RepairingStep(rows: Rows, applied: SetupEvent, world: World, trial: Trial)
    requires var repaired := Repair(rows, applied, world, trial.fault, trial.reading); repaired != rows
    ensures var repaired := Repair(rows, applied, world, trial.fault, trial.reading);
            && IsDone(repaired, applied, world)
            && SameOnceFinished(repaired, Step(rows, applied, world, trial), applied, world)
  {
    var repaired := Repair(rows, applied, world, trial.fault, trial.reading);
    ChangesOnce(rows, applied, world, trial.fault, trial.reading);
    assert !Throws(rows, applied, trial.fault);
    FinishStaysSame(repaired, repaired, applied, world, MetadataOnly);
    var fixed := FixPlugin(rows, applied, world, trial);
    assert fixed == repaired || fixed == Finish(repaired, applied, world, MetadataOnly);
    hide Repair, FixPlugin, Finish, Core, SameOnceFinished;
    FinishStaysSame(repaired, fixed, applied, world, trial.rest);
  }

  /** A clean run repairs, then takes both steps. */
  lemma CleanStep(rows: Rows, applied: SetupEvent, world: World, reading: Reading)
    ensures Step(rows, applied, world, Clean(reading))
            == Finish(Repair(rows, applied, world, NoFault, reading), applied, world, Everything)
  {
    var repaired := Repair(rows, applied, world, NoFault, reading);
    FinishAbsorbs(repaired, applied, world, MetadataOnly);
    hide Repair, Refreshes;
    assert FixPlugin(rows, applied, world, Clean(reading))
        in {repaired, Finish(repaired, applied, world, MetadataOnly)};
    assert !Throws(rows, applied, NoFault);
  }

  // ---- a replay, misread or cut short ----

  lemma RefreshedRepairs(rows: Rows, applied: SetupEvent, world: World)
    requires NeedsReplay(rows, applied, world)
    ensures Reconditioned(rows, applied, world) == rows
    ensures var refreshed := Refresh(rows, applied.contract, world);
            NeedsReplay(refreshed, applied, world) && Reconditioned(refreshed, applied, world) == refreshed
  {
    var refreshed := Refresh(rows, applied.contract, world);
    var from := PlanFor(rows, applied).from;
    assert InstalledIds(rows, applied.contract) == {from} && from.transactionHash != applied.transactionHash by {
      assert from in InstalledIds(rows, applied.contract);
      assert from != RowId(applied.contract, applied.transactionHash);
    }
    RefreshKeepsCore(rows, applied.contract, world);
    CorePlan(rows, refreshed, applied, world);
    PlacesDependOnCore(rows, refreshed, applied, world);
    assert ConditionRow(rows, applied, world).None?;
    hide Refresh, Core;
  }

  /** A turn before the replay writes leaves the rows, or the rows with the latest metadata. */
  lemma EarlyStep(rows: Rows, applied: SetupEvent, world: World, trial: Trial)
    requires NeedsReplay(rows, applied, world) && !IsWriting(trial.fault)
    ensures Step(rows, applied, world, trial)
            == if WritesMetadata(trial) then Refresh(rows, applied.contract, world) else rows
  {
    RefreshedRepairs(rows, applied, world);
    assert Repair(rows, applied, world, trial.fault, trial.reading) == rows;
    hide Refresh, Reconditioned, Repair;
  }

  lemma StrandedByDependsOnCore(
    rows: Rows, rows': Rows, applied: SetupEvent, world: World, trial: Trial, reading: Reading)
    requires Core(rows) == Core(rows')
    ensures StrandedBy(rows, applied, world, trial, reading) <==> StrandedBy(rows', applied, world, trial, reading)
  {
    CorePlan(rows, rows', applied, world);
    LinkChangesDependsOnCore(rows, rows', applied, world, reading);
    hide LinkChanges, Replayable, NeedsReplay, Core;
  }

  /** Not stranded, a replay writes what a clean one writes. */
  lemma NotStrandedRepairs(rows: Rows, applied: SetupEvent, world: World, trial: Trial, reading: Reading)
    requires NeedsReplay(rows, applied, world) && IsWriting(trial.fault)
    requires !StrandedBy(rows, applied, world, trial, reading)
    ensures Repair(rows, applied, world, trial.fault, trial.reading) == Repair(rows, applied, world, NoFault, reading)
  {
    hide NewRow, Swapped, PermissionLog.LatestCondition, FoundInstalled;
  }

  /** Stranded, it leaves another core. */
  lemma StrandedCore(rows: Rows, applied: SetupEvent, world: World, trial: Trial, reading: Reading)
    requires StrandedBy(rows, applied, world, trial, reading) && IsWriting(trial.fault)
    ensures Core(Repair(rows, applied, world, trial.fault, trial.reading))
            != Core(Repair(rows, applied, world, NoFault, reading))
  {
    if trial.reading != reading {
      MisreadCore(rows, applied, world, trial, reading);
    } else if Replayable(rows, applied, world) {
      CutShortCore(rows, applied, world, reading);
    } else {
      UnlinkedCore(rows, applied, world, trial.fault, reading);
    }
  }

  lemma ReadingStays(rows: Rows, applied: SetupEvent, world: World, fault: Fault, reading: Reading)
    requires NeedsReplay(rows, applied, world) && IsWriting(fault)
    ensures var next := RowId(applied.contract, applied.transactionHash);
            var after := Repair(rows, applied, world, fault, reading);
            next in after && ReadingOf(CoreOf(after[next])) == reading
  {
    hide NewRow, Deprecate, PermissionLog.LatestCondition, FoundInstalled;
  }

  lemma MisreadCore(rows: Rows, applied: SetupEvent, world: World, trial: Trial, reading: Reading)
    requires NeedsReplay(rows, applied, world) && IsWriting(trial.fault) && trial.reading != reading
    ensures Core(Repair(rows, applied, world, trial.fault, trial.reading))
            != Core(Repair(rows, applied, world, NoFault, reading))
  {
    var next := RowId(applied.contract, applied.transactionHash);
    var after := Repair(rows, applied, world, trial.fault, trial.reading);
    var once := Repair(rows, applied, world, NoFault, reading);
    ReadingStays(rows, applied, world, trial.fault, trial.reading);
    ReadingStays(rows, applied, world, NoFault, reading);
    hide Repair, NeedsReplay, CoreOf;
    assert Core(after)[next] != Core(once)[next];
  }

  lemma CutShortCore(rows: Rows, applied: SetupEvent, world: World, reading: Reading)
    requires Replayable(rows, applied, world)
    ensures Core(Repair(rows, applied, world, MidWrite, reading))
            != Core(Repair(rows, applied, world, NoFault, reading))
  {
    var after, once := Repair(rows, applied, world, MidWrite, reading), Repair(rows, applied, world, NoFault, reading);
    var from := PlanFor(rows, applied).from;
    FixedInstalledIds(rows, applied, world, MidWrite, reading);
    FixedInstalledIds(rows, applied, world, NoFault, reading);
    ReplayWrites(rows, applied, world, MidWrite, reading);
    ReplayWrites(rows, applied, world, NoFault, reading);
    assert from in InstalledIds(rows, applied.contract);
    assert from != RowId(applied.contract, applied.transactionHash);
    hide Repair, Core;
    if Core(after) == Core(once) {
      InstalledDependsOnCore(after, once, applied.contract);
    }
  }

  lemma UnlinkedCore(rows: Rows, applied: SetupEvent, world: World, fault: Fault, reading: Reading)
    requires !Replayable(rows, applied, world) && LinkChanges(rows, applied, world, reading)
    requires fault.MidWrite? || fault.BeforeCondition?
    ensures Core(Repair(rows, applied, world, fault, reading)) != Core(Repair(rows, applied, world, NoFault, reading))
  {
    var after, once := Repair(rows, applied, world, fault, reading), Repair(rows, applied, world, NoFault, reading);
    var row := NewRow(applied, Preparation(world.log, applied).value, reading);
    var found := FoundInstalled(rows[IdOf(row) := row], PlanFor(rows, applied).from, IdOf(row), world);
    assert CoreOf(after[found]).conditionAddress != CoreOf(once[found]).conditionAddress;
    assert Core(after)[found] != Core(once)[found];
  }

  // ---- metadata written too early ----

  function MetadataOf(p: Plugin): (Option<Metadata>, Option<string>) {
    (p.metadata, p.processKey)
  }

  lemma FinishedMetadata(rows: Rows, applied: SetupEvent, world: World, id: RowId)
    requires id in rows
    ensures var after, latest := Finish(rows, applied, world, Everything), world.metadata(applied.contract);
            && id in after
            && MetadataOf(after[id]) ==
               if latest.Some? && FindByAddress(rows, applied.contract, world) == Some(id)
               then (Some(latest.value.metadata), latest.value.processKey) else MetadataOf(rows[id])
  {
    hide FindByAddress, ConditionRow, NewestCondition;
  }

  /** `q` with the metadata of `p`. */
  function WithMetadataOf(q: Plugin, p: Plugin): Plugin {
    q.(metadata := p.metadata, processKey := p.processKey)
  }

  lemma MetadataIsNotCore(q: Plugin, p: Plugin, latest: LatestMetadata)
    ensures CoreOf(WithMetadataOf(q, p)) == CoreOf(q)
    ensures Refreshed(WithMetadataOf(q, p), latest) == Refreshed(q, latest)
  {
  }

  lemma SameCoreUpdate(rows: Rows, id: RowId, p: Plugin)
    requires id in rows && CoreOf(p) == CoreOf(rows[id])
    ensures Core(rows[id := p]) == Core(rows)
  {
    CoreUpdate(rows, id, p);
    assert Core(rows)[id := CoreOf(rows[id])] == Core(rows);
  }

  /** Finishing overwrites the row it finds by address, so rows that differ only there, and only in metadata, agree. */
  lemma FinishOverwrites(rows: Rows, id: RowId, p: Plugin, applied: SetupEvent, world: World)
    requires id in rows && p == WithMetadataOf(rows[id], p)
    requires FindByAddress(rows, applied.contract, world) == Some(id) && world.metadata(applied.contract).Some?
    ensures Finish(rows[id := p], applied, world, Everything) == Finish(rows, applied, world, Everything)
  {
    var c := applied.contract;
    MetadataIsNotCore(rows[id], p, world.metadata(c).value);
    SameCoreUpdate(rows, id, p);
    RefreshRow(rows, rows, applied, world);
    RefreshRow(rows, rows[id := p], applied, world);
    hide Core, FindByAddress, Reconditioned, Refresh, Refreshed, WithMetadataOf;
    assert SetMetadata(rows[id := p], Some(id), world.metadata(c)) == SetMetadata(rows, Some(id), world.metadata(c));
  }

  /** What an undisturbed replay writes. */
  lemma CleanReplay(rows: Rows, applied: SetupEvent, world: World, reading: Reading)
    requires NeedsReplay(rows, applied, world)
    ensures var from := PlanFor(rows, applied).from;
            var row := NewRow(applied, Preparation(world.log, applied).value, reading);
            var next := RowId(applied.contract, applied.transactionHash);
            && IdOf(row) == next && next !in rows && from in rows && from != next
            && Repair(rows, applied, world, NoFault, reading) ==
               if Replayable(rows, applied, world) then Swapped(rows[next := row], from, next)
               else Linked(rows[next := row], from, next, world)
  {
    assert PlanFor(rows, applied).from in InstalledIds(rows, applied.contract);
  }

  lemma LinkOfRefreshed(rows: Rows, from: RowId, next: RowId, world: World, id: RowId, p: Plugin)
    requires from in rows && next in rows && id in rows && id != next && p == WithMetadataOf(rows[id], p)
    ensures var once, early := Linked(rows, from, next, world), Linked(rows[id := p], from, next, world);
            && id in once && MetadataOf(once[id]) == MetadataOf(rows[id])
            && early == once[id := WithMetadataOf(once[id], p)]
  {
    hide PermissionLog.LatestCondition;
    assert p.daoAddress == rows[id].daoAddress;
    assert FoundInstalled(rows[id := p], from, next, world) == FoundInstalled(rows, from, next, world);
    hide FoundInstalled;
  }

  lemma SwapOfRefreshed(rows: Rows, from: RowId, next: RowId, id: RowId, p: Plugin)
    requires from in rows && next in rows && id in rows && id != next && id != from
    ensures Swapped(rows[id := p], from, next) == Swapped(rows, from, next)[id := p]
    ensures Swapped(rows, from, next)[id] == rows[id]
  {
    hide Inherit, Install, Deprecate;
  }

  /** The repair after the metadata was written to a row the repair does not pass on. */
  lemma RepairOfRefreshed(rows: Rows, applied: SetupEvent, world: World, reading: Reading, id: RowId, p: Plugin)
    requires NeedsReplay(rows, applied, world) && id in rows && p == WithMetadataOf(rows[id], p)
    requires Replayable(rows, applied, world) ==> id != PlanFor(rows, applied).from
    ensures var once, early := Repair(rows, applied, world, NoFault, reading),
                               Repair(rows[id := p], applied, world, NoFault, reading);
            && id in once && MetadataOf(once[id]) == MetadataOf(rows[id])
            && early == once[id := WithMetadataOf(once[id], p)]
  {
    var next := RowId(applied.contract, applied.transactionHash);
    var from, row := PlanFor(rows, applied).from, NewRow(applied, Preparation(world.log, applied).value, reading);
    assert CoreOf(p) == CoreOf(rows[id]);
    SameCoreUpdate(rows, id, p);
    CorePlan(rows, rows[id := p], applied, world);
    CleanReplay(rows, applied, world, reading);
    CleanReplay(rows[id := p], applied, world, reading);
    hide Core, PlanFor, NewRow, Repair, Replayable, NeedsReplay, Swapped, Linked;
    assert rows[id := p][next := row] == rows[next := row][id := p];
    if Replayable(rows, applied, world) {
      SwapOfRefreshed(rows[next := row], from, next, id, p);
    } else {
      LinkOfRefreshed(rows[next := row], from, next, world, id, p);
    }
  }

  lemma InheritedMetadata(previous: Plugin, row: Plugin)
    requires row.metadata.None? && row.processKey.None?
    ensures MetadataOf(Install(Inherit(previous, row))) ==
            if previous.metadata.Some? then MetadataOf(previous) else (None, None)
    ensures MetadataOf(Deprecate(previous, row)) == MetadataOf(previous)
  {
  }

  /** The repair after the metadata was written to the row it replaces: both rows end with it. */
  lemma RepairOfRefreshedFrom(rows: Rows, applied: SetupEvent, world: World, reading: Reading, p: Plugin)
    requires Replayable(rows, applied, world)
    requires var from := PlanFor(rows, applied).from;
             from in rows && p == WithMetadataOf(rows[from], p) && p.metadata.Some? && p != rows[from]
    ensures var from, next := PlanFor(rows, applied).from, RowId(applied.contract, applied.transactionHash);
            var once, early := Repair(rows, applied, world, NoFault, reading),
                               Repair(rows[from := p], applied, world, NoFault, reading);
            && from != next && from in once && next in once && from in early && next in early
            && MetadataOf(early[from]) != MetadataOf(once[from])
            && MetadataOf(early[next]) != MetadataOf(once[next])
  {
    var from, row := PlanFor(rows, applied).from, NewRow(applied, Preparation(world.log, applied).value, reading);
    assert CoreOf(p) == CoreOf(rows[from]);
    SameCoreUpdate(rows, from, p);
    CorePlan(rows, rows[from := p], applied, world);
    CleanReplay(rows, applied, world, reading);
    CleanReplay(rows[from := p], applied, world, reading);
    hide Core, PlanFor, NewRow, Repair, Replayable, NeedsReplay, Swapped;
    assert rows[from := p][IdOf(row) := row] == rows[IdOf(row) := row][from := p];
    SwapOfRefreshedFrom(rows[IdOf(row) := row], from, IdOf(row), p);
  }

  lemma SwapOfRefreshedFrom(rows: Rows, from: RowId, next: RowId, p: Plugin)
    requires from in rows && next in rows && from != next
    requires p == WithMetadataOf(rows[from], p) && p.metadata.Some? && p != rows[from]
    requires rows[next].metadata.None? && rows[next].processKey.None?
    ensures var once, early := Swapped(rows, from, next), Swapped(rows[from := p], from, next);
            MetadataOf(early[from]) != MetadataOf(once[from]) && MetadataOf(early[next]) != MetadataOf(once[next])
  {
    InheritedMetadata(rows[from], rows[next]);
    InheritedMetadata(p, rows[next]);
    assert MetadataOf(p) != MetadataOf(rows[from]);
    hide Inherit, Install, Deprecate;
  }

  /** Latest metadata written before the replay makes a difference after it exactly when it sticks. */
  lemma SticksExactly(rows: Rows, applied: SetupEvent, world: World, reading: Reading)
    requires NeedsReplay(rows, applied, world)
    ensures var refreshed := Refresh(rows, applied.contract, world);
            Finish(Repair(refreshed, applied, world, NoFault, reading), applied, world, Everything)
            == Finish(Repair(rows, applied, world, NoFault, reading), applied, world, Everything)
            <==> !Sticks(rows, applied, world, reading)
  {
    var c := applied.contract;
    var found, latest := FindByAddress(rows, c, world), world.metadata(c);
    var from := PlanFor(rows, applied).from;
    hide Repair, Finish, PlanFor, NeedsReplay, Replayable, FindByAddress, Refreshed, MetadataOf, WithMetadataOf;
    if found.Some? && latest.Some? {
      var id, p := found.value, Refreshed(rows[found.value], latest.value);
      RefreshedIsMetadata(rows[id], latest.value);
      if p == rows[id] {
        assert rows[id := p] == rows;
      } else if Replayable(rows, applied, world) && id == from {
        PassedOnSticks(rows, applied, world, reading, p);
      } else {
        LeftAloneSticks(rows, applied, world, reading, id, p);
      }
    }
  }

  lemma RefreshedIsMetadata(q: Plugin, latest: LatestMetadata)
    ensures var p := Refreshed(q, latest);
            p == WithMetadataOf(q, p) && p.metadata.Some? && (p != q ==> MetadataOf(p) != MetadataOf(q))
  {
  }

  lemma SamePlaceAfterRepair(
    rows: Rows, applied: SetupEvent, world: World, reading: Reading, id: RowId, p: Plugin)
    requires id in rows && p == WithMetadataOf(rows[id], p)
    ensures FindByAddress(Repair(rows, applied, world, NoFault, reading), applied.contract, world)
            == FindByAddress(Repair(rows[id := p], applied, world, NoFault, reading), applied.contract, world)
  {
    assert CoreOf(p) == CoreOf(rows[id]);
    SameCoreUpdate(rows, id, p);
    RepairRespectsCore(rows, rows[id := p], applied, world, NoFault, reading);
    hide Repair, Core, FindByAddress;
    PlacesDependOnCore(
      Repair(rows, applied, world, NoFault, reading), Repair(rows[id := p], applied, world, NoFault, reading), applied,
      world);
  }

  lemma PassedOnSticks(rows: Rows, applied: SetupEvent, world: World, reading: Reading, p: Plugin)
    requires Replayable(rows, applied, world)
    requires var from := PlanFor(rows, applied).from;
             from in rows && p == WithMetadataOf(rows[from], p) && p.metadata.Some? && p != rows[from]
    ensures Finish(Repair(rows[PlanFor(rows, applied).from := p], applied, world, NoFault, reading), applied, world,
                   Everything)
            != Finish(Repair(rows, applied, world, NoFault, reading), applied, world, Everything)
  {
    var id, next := PlanFor(rows, applied).from, RowId(applied.contract, applied.transactionHash);
    var once := Repair(rows, applied, world, NoFault, reading);
    var early := Repair(rows[id := p], applied, world, NoFault, reading);
    RepairOfRefreshedFrom(rows, applied, world, reading, p);
    SamePlaceAfterRepair(rows, applied, world, reading, id, p);
    hide Repair, Finish, FindByAddress, PlanFor, Replayable, MetadataOf;
    var differs := if FindByAddress(once, applied.contract, world) == Some(id) then next else id;
    FinishedMetadata(once, applied, world, differs);
    FinishedMetadata(early, applied, world, differs);
  }

  lemma LeftAloneSticks(rows: Rows, applied: SetupEvent, world: World, reading: Reading, id: RowId, p: Plugin)
    requires NeedsReplay(rows, applied, world) && id in rows && p == WithMetadataOf(rows[id], p)
    requires MetadataOf(p) != MetadataOf(rows[id]) && world.metadata(applied.contract).Some?
    requires Replayable(rows, applied, world) ==> id != PlanFor(rows, applied).from
    ensures Finish(Repair(rows[id := p], applied, world, NoFault, reading), applied, world, Everything)
            == Finish(Repair(rows, applied, world, NoFault, reading), applied, world, Everything)
            <==> FindByAddress(Repair(rows, applied, world, NoFault, reading), applied.contract, world) == Some(id)
  {
    var once := Repair(rows, applied, world, NoFault, reading);
    var early := Repair(rows[id := p], applied, world, NoFault, reading);
    RepairOfRefreshed(rows, applied, world, reading, id, p);
    SamePlaceAfterRepair(rows, applied, world, reading, id, p);
    assert MetadataOf(early[id]) == MetadataOf(p) && early[id] == WithMetadataOf(once[id], early[id]);
    hide Repair, Finish, FindByAddress, PlanFor, Replayable, NeedsReplay, MetadataOf, WithMetadataOf;
    if FindByAddress(once, applied.contract, world) == Some(id) {
      FinishOverwrites(once, id, early[id], applied, world);
    } else {
      FinishedMetadata(once, applied, world, id);
      FinishedMetadata(early, applied, world, id);
    }
  }

  // ---- the rerun guarantee ----

  /** The latest metadata reached a row early that it sticks to. */
  ghost predicate Outdated(rows: Rows, applied: SetupEvent, world: World, trials: seq<Trial>, reading: Reading) {
    RefreshedEarly(trials) && Sticks(rows, applied, world, reading)
  }

  /** What a rerun comes to against one clean run, on whole rows and on their core. */
  ghost predicate Converges(
    rerun: Rows, once: Rows, stranded: bool, outdated: bool)
  {
    && (rerun == once <==> !stranded && !outdated)
    && (Core(rerun) == Core(once) <==> !stranded)
  }

  /** A replay, from the rows as found or with the latest metadata written early. */
  lemma {:induction false} ReplayConverges(
    rows: Rows, early: bool, applied: SetupEvent, world: World, trials: seq<Trial>, reading: Reading)
    requires NeedsReplay(rows, applied, world)
    ensures var now := if early then Refresh(rows, applied.contract, world) else rows;
            Converges(
              Step(StepRepeatedly(now, applied, world, trials), applied, world, Clean(reading)),
              Step(rows, applied, world, Clean(reading)),
              Stranded(rows, applied, world, trials, reading),
              (early || RefreshedEarly(trials)) && Sticks(rows, applied, world, reading))
    decreases |trials|
  {
    var now := if early then Refresh(rows, applied.contract, world) else rows;
    RefreshKeepsCore(rows, applied.contract, world);
    RefreshedRepairs(rows, applied, world);
    if trials == [] {
      CleanReplayConverges(rows, early, applied, world, reading);
    } else if !IsWriting(trials[0].fault) {
      EarlyStep(now, applied, world, trials[0]);
      RefreshTwice(rows, applied, world);
      hide Step, Refresh, Sticks, Stranded, Core, NeedsReplay, Converges;
      ReplayConverges(rows, early || WritesMetadata(trials[0]), applied, world, trials[1..], reading);
      StrandedLater(rows, applied, world, trials, reading);
    } else {
      WritingReplayConverges(rows, early, applied, world, trials, reading);
    }
  }

  lemma StrandedLater(rows: Rows, applied: SetupEvent, world: World, trials: seq<Trial>, reading: Reading)
    requires trials != [] && !IsWriting(trials[0].fault)
    ensures Stranded(rows, applied, world, trials, reading) <==> Stranded(rows, applied, world, trials[1..], reading)
  {
  }

  lemma CleanReplayConverges(rows: Rows, early: bool, applied: SetupEvent, world: World, reading: Reading)
    requires NeedsReplay(rows, applied, world)
    ensures var now := if early then Refresh(rows, applied.contract, world) else rows;
            Converges(Step(now, applied, world, Clean(reading)), Step(rows, applied, world, Clean(reading)),
                      false, early && Sticks(rows, applied, world, reading))
  {
    var now := if early then Refresh(rows, applied.contract, world) else rows;
    RefreshKeepsCore(rows, applied.contract, world);
    CleanStep(now, applied, world, reading);
    CleanStep(rows, applied, world, reading);
    SticksExactly(rows, applied, world, reading);
    RepairRespectsCore(rows, now, applied, world, NoFault, reading);
    FinishKeepsCore(Repair(now, applied, world, NoFault, reading), applied, world, Everything);
    FinishKeepsCore(Repair(rows, applied, world, NoFault, reading), applied, world, Everything);
    hide Step, Refresh, Repair, Finish, Sticks, Core;
  }

  /** The run in which the replay wrote decides. */
  lemma WritingReplayConverges(
    rows: Rows, early: bool, applied: SetupEvent, world: World, trials: seq<Trial>, reading: Reading)
    requires NeedsReplay(rows, applied, world) && trials != [] && IsWriting(trials[0].fault)
    ensures var now := if early then Refresh(rows, applied.contract, world) else rows;
            Converges(
              Step(StepRepeatedly(now, applied, world, trials), applied, world, Clean(reading)),
              Step(rows, applied, world, Clean(reading)),
              StrandedBy(rows, applied, world, trials[0], reading),
              early && Sticks(rows, applied, world, reading))
  {
    var now := if early then Refresh(rows, applied.contract, world) else rows;
    var trial := trials[0];
    RefreshKeepsCore(rows, applied.contract, world);
    RefreshedRepairs(rows, applied, world);
    StrandedByDependsOnCore(rows, now, applied, world, trial, reading);
    hide Refresh, NeedsReplay, Core, Sticks;
    ReplayWrites(now, applied, world, trial.fault, trial.reading);
    RepairingStep(now, applied, world, trial);
    var repaired := Repair(now, applied, world, trial.fault, trial.reading);
    DonePhase(repaired, Step(now, applied, world, trial), applied, world, trials[1..], reading);
    FinishKeepsCore(repaired, applied, world, Everything);
    CleanReplayConverges(rows, early, applied, world, reading);
    CleanStep(now, applied, world, reading);
    FinishKeepsCore(Repair(now, applied, world, NoFault, reading), applied, world, Everything);
    hide Step, Repair, Finish, StrandedBy;
    if StrandedBy(now, applied, world, trial, reading) {
      StrandedCore(now, applied, world, trial, reading);
    } else {
      NotStrandedRepairs(now, applied, world, trial, reading);
    }
  }

  /** Without a replay nothing can go wrong for good: a failed swap is rolled back. */
  lemma {:induction false} OtherwiseConverges(
    rows: Rows, applied: SetupEvent, world: World, trials: seq<Trial>, reading: Reading)
    requires !NeedsReplay(rows, applied, world)
    ensures Step(StepRepeatedly(rows, applied, world, trials), applied, world, Clean(reading))
            == Step(rows, applied, world, Clean(reading))
    decreases |trials|
  {
    CleanStep(rows, applied, world, reading);
    if IsDone(rows, applied, world) {
      DoneStays(rows, applied, world, Clean(reading));
      DonePhase(rows, rows, applied, world, trials, reading);
    } else if trials != [] {
      var trial := trials[0];
      if Throws(rows, applied, trial.fault) {
        assert Step(rows, applied, world, trial) == rows;
        OtherwiseConverges(rows, applied, world, trials[1..], reading);
      } else {
        SwapWrites(rows, applied, world, trial.fault, trial.reading);
        RepairingStep(rows, applied, world, trial);
        var swapped := Repair(rows, applied, world, trial.fault, trial.reading);
        assert swapped == Repair(rows, applied, world, NoFault, reading);
        DonePhase(swapped, Step(rows, applied, world, trial), applied, world, trials[1..], reading);
      }
    }
  }

  /** The rerun guarantee for one plugin: any runs followed by a clean one leave the whole rows one clean run leaves,
      unless a replay was stranded or its plugin's metadata outdated; and outdated metadata is all that ever differs
      when none was stranded. */
  lemma RerunConvergesExactly(
    rows: Rows, applied: SetupEvent, world: World, trials: seq<Trial>, reading: Reading)
    ensures Converges(
              Step(StepRepeatedly(rows, applied, world, trials), applied, world, Clean(reading)),
              Step(rows, applied, world, Clean(reading)),
              Stranded(rows, applied, world, trials, reading),
              Outdated(rows, applied, world, trials, reading))
  {
    if NeedsReplay(rows, applied, world) {
      ReplayConverges(rows, false, applied, world, trials, reading);
    } else {
      OtherwiseConverges(rows, applied, world, trials, reading);
    }
    hide Step, Core;
  }

  /** After a clean run, no later run changes anything, whatever fails or is misread in it. */
  lemma CleanStepIsFinal(rows: Rows, applied: SetupEvent, world: World, reading: Reading, later: Trial)
    ensures var once := Step(rows, applied, world, Clean(reading));
            Step(once, applied, world, later) == once
  {
    var repaired := Repair(rows, applied, world, NoFault, reading);
    var once := Finish(repaired, applied, world, Everything);
    CleanStep(rows, applied, world, reading);
    if repaired == rows {
      NothingRepaired(rows, applied, world, reading);
    } else {
      ChangesOnce(rows, applied, world, NoFault, reading);
    }
    FinishKeepsCore(repaired, applied, world, Everything);
    CorePlan(repaired, once, applied, world);
    DoneStays(once, applied, world, later);
    FinishAbsorbs(repaired, applied, world, later.rest);
    hide Repair, FixPlugin, Finish, Core, NeedsReplay;
  }

  lemma NothingRepaired(rows: Rows, applied: SetupEvent, world: World, reading: Reading)
    requires Repair(rows, applied, world, NoFault, reading) == rows
    ensures IsDone(rows, applied, world)
  {
    if PlanFor(rows, applied).Swap? {
      SwapWrites(rows, applied, world, NoFault, reading);
    } else if NeedsReplay(rows, applied, world) {
      ReplayWrites(rows, applied, world, NoFault, reading);
    }
  }

  // ---- inputs on which a rerun does not converge ----

  /** The last update of the plugin of `p` is `applied`, prepared by `prepared` and not written yet. */
  ghost predicate IsMissing(p: Plugin, prepared: SetupEvent, applied: SetupEvent, world: World) {
    && p.status.Installed? && IdOf(p).contract == applied.contract && p.transactionHash != applied.transactionHash
    && applied.kind.UpdateApplied? && PreparationOf(applied)(prepared)
    && world.log == [prepared, applied]
  }

  /** And the replay deprecates `p`. */
  ghost predicate IsOlder(p: Plugin, prepared: SetupEvent, applied: SetupEvent) {
    && p.daoAddress == prepared.daoAddress && p.pluginSetupRepoAddress == prepared.pluginSetupRepo
    && p.blockNumber < applied.position.blockNumber
  }

  lemma MissingNeedsReplay(p: Plugin, prepared: SetupEvent, applied: SetupEvent, world: World)
    requires IsMissing(p, prepared, applied, world)
    ensures PlanFor(map[IdOf(p) := p], applied) == Replay(IdOf(p))
    ensures NeedsReplay(map[IdOf(p) := p], applied, world) && Preparation(world.log, applied) == Some(prepared)
    ensures Replayable(map[IdOf(p) := p], applied, world) <==> IsOlder(p, prepared, applied)
  {
    var rows := map[IdOf(p) := p];
    assert InstalledIds(rows, applied.contract) == {IdOf(p)};
    OnlyOne(InstalledIds(rows, applied.contract), IdOf(p));
    assert Select([prepared, applied][1..], PreparationOf(applied)) == [];
  }

  /** The code of the contract could not be read when the replay wrote its row, and nothing else went wrong: no later
      run reads it again. */
  lemma MisreadPitfall(
    p: Plugin, prepared: SetupEvent, applied: SetupEvent, world: World, reading: Reading, misread: Reading)
    requires IsMissing(p, prepared, applied, world) && IsOlder(p, prepared, applied)
    requires reading.interfaceType == Some(TokenVoting) && misread == reading.(interfaceType := Some(Unknown))
    ensures var rows, next := map[IdOf(p) := p], RowId(applied.contract, applied.transactionHash);
            var after := Step(rows, applied, world, Clean(misread));
            && Stranded(rows, applied, world, [Clean(misread)], reading)
            && Step(after, applied, world, Clean(reading)) == after
            && InstalledIds(after, applied.contract) == {next}
            && Core(after) != Core(Step(rows, applied, world, Clean(reading)))
  {
    var rows := map[IdOf(p) := p];
    MissingNeedsReplay(p, prepared, applied, world);
    RerunConvergesExactly(rows, applied, world, [Clean(misread)], reading);
    CleanStepIsFinal(rows, applied, world, misread, Clean(reading));
    CleanStep(rows, applied, world, misread);
    FixedInstalledIds(rows, applied, world, NoFault, misread);
    ReplayWrites(rows, applied, world, NoFault, misread);
    var repaired := Repair(rows, applied, world, NoFault, misread);
    FinishKeepsCore(repaired, applied, world, Everything);
    InstalledDependsOnCore(repaired, Step(rows, applied, world, Clean(misread)), applied.contract);
    assert StepRepeatedly(rows, applied, world, [Clean(misread)]) == Step(rows, applied, world, Clean(misread));
    hide Repair, Step, Core, NewRow;
  }

  /** The replay stopped between its two transactions: every later run leaves two installed rows. */
  lemma CutShortPitfall(
    p: Plugin, prepared: SetupEvent, applied: SetupEvent, world: World, trial: Trial, later: Trial)
    requires IsMissing(p, prepared, applied, world) && IsOlder(p, prepared, applied) && trial.fault.MidWrite?
    ensures var rows, next := map[IdOf(p) := p], RowId(applied.contract, applied.transactionHash);
            var half := Step(Step(rows, applied, world, trial), applied, world, later);
            && Stranded(rows, applied, world, [trial], trial.reading)
            && InstalledIds(half, applied.contract) == {IdOf(p), next}
  {
    var rows := map[IdOf(p) := p];
    MissingNeedsReplay(p, prepared, applied, world);
    StrandedForGood(rows, applied, world, trial, later);
  }

  lemma StrandedForGood(rows: Rows, applied: SetupEvent, world: World, trial: Trial, later: Trial)
    requires NeedsReplay(rows, applied, world) && AddsSecondInstalled(rows, applied, world, trial.fault)
    ensures var half := Step(Step(rows, applied, world, trial), applied, world, later);
            && Core(half) == Core(Repair(rows, applied, world, trial.fault, trial.reading))
            && InstalledIds(half, applied.contract) ==
               InstalledIds(rows, applied.contract) + {RowId(applied.contract, applied.transactionHash)}
  {
    var repaired := Repair(rows, applied, world, trial.fault, trial.reading);
    ReplayWrites(rows, applied, world, trial.fault, trial.reading);
    FixedInstalledIds(rows, applied, world, trial.fault, trial.reading);
    RepairingStep(rows, applied, world, trial);
    var once := Step(rows, applied, world, trial);
    hide Repair, Core, NeedsReplay, AddsSecondInstalled;
    CorePlan(repaired, once, applied, world);
    DoneStays(once, applied, world, later);
    FinishKeepsCore(once, applied, world, later.rest);
    InstalledDependsOnCore(repaired, Step(once, applied, world, later), applied.contract);
  }

  /** The installed row is not older than the update and lacks the condition its newest EXECUTE event grants. A run that
      stops before writing it is the last one to try. */
  lemma UnlinkedPitfall(
    p: Plugin, prepared: SetupEvent, applied: SetupEvent, world: World, trial: Trial, later: Trial)
    requires IsMissing(p, prepared, applied, world) && trial.fault.BeforeCondition?
    requires p.daoAddress == prepared.daoAddress && p.blockNumber >= applied.position.blockNumber
    requires p.conditionAddress.None?
    requires PermissionLog.LatestCondition(world.permissions, InstallationOf(p)).Some?
    requires world.rank(IdOf(p)) < world.rank(RowId(applied.contract, applied.transactionHash))
    ensures var rows, id := map[IdOf(p) := p], IdOf(p);
            var half := Step(Step(rows, applied, world, trial), applied, world, later);
            var once := Step(rows, applied, world, Clean(trial.reading));
            && Stranded(rows, applied, world, [trial], trial.reading)
            && id in half && half[id].conditionAddress.None?
            && id in once && once[id].conditionAddress.Some?
  {
    var rows, id := map[IdOf(p) := p], IdOf(p);
    MissingNeedsReplay(p, prepared, applied, world);
    UnlinkedRepairs(p, prepared, applied, world, trial);
    StrandedForGood(rows, applied, world, trial, later);
    var half := Step(Step(rows, applied, world, trial), applied, world, later);
    var repaired := Repair(rows, applied, world, trial.fault, trial.reading);
    var clean := Repair(rows, applied, world, NoFault, trial.reading);
    CleanStep(rows, applied, world, trial.reading);
    FinishKeepsCore(clean, applied, world, Everything);
    var once := Step(rows, applied, world, Clean(trial.reading));
    hide Repair, Step, NewRow, LinkChanges, Core, Finish;
    SameCoreRow(repaired, half, id);
    SameCoreFields(repaired[id], half[id]);
    SameCoreRow(clean, once, id);
    SameCoreFields(clean[id], once[id]);
  }

  /** What the repair writes with and without the condition. */
  lemma UnlinkedRepairs(p: Plugin, prepared: SetupEvent, applied: SetupEvent, world: World, trial: Trial)
    requires IsMissing(p, prepared, applied, world) && trial.fault.BeforeCondition?
    requires p.daoAddress == prepared.daoAddress && p.blockNumber >= applied.position.blockNumber
    requires p.conditionAddress.None?
    requires PermissionLog.LatestCondition(world.permissions, InstallationOf(p)).Some?
    requires world.rank(IdOf(p)) < world.rank(RowId(applied.contract, applied.transactionHash))
    ensures var rows, id := map[IdOf(p) := p], IdOf(p);
            var repaired := Repair(rows, applied, world, trial.fault, trial.reading);
            var clean := Repair(rows, applied, world, NoFault, trial.reading);
            && LinkChanges(rows, applied, world, trial.reading)
            && id in repaired && repaired[id].conditionAddress.None?
            && id in clean && clean[id].conditionAddress.Some?
  {
    var rows, id := map[IdOf(p) := p], IdOf(p);
    var next := RowId(applied.contract, applied.transactionHash);
    MissingNeedsReplay(p, prepared, applied, world);
    var row := NewRow(applied, prepared, trial.reading);
    assert InstallationOf(row) == InstallationOf(p);
    assert First({id, next}, world.rank) == id;
    assert FoundInstalled(rows[next := row], id, next, world) == id;
    hide NewRow, FoundInstalled, PermissionLog.LatestCondition, Swapped;
  }

  /** The creation of the replay's row failed in a run that then wrote the latest metadata to the row it is about to
      replace: after a clean run that row has them, which one clean run does not give it. */
  lemma OutdatedPitfall(p: Plugin, prepared: SetupEvent, applied: SetupEvent, world: World, trial: Trial)
    requires IsMissing(p, prepared, applied, world) && IsOlder(p, prepared, applied)
    requires p.interfaceType != Some(Safe) && WritesMetadata(trial)
    requires var latest := world.metadata(applied.contract); latest.Some? && Refreshed(p, latest.value) != p
    ensures var rows := map[IdOf(p) := p];
            var rerun := Step(Step(rows, applied, world, trial), applied, world, Clean(trial.reading));
            var once := Step(rows, applied, world, Clean(trial.reading));
            Outdated(rows, applied, world, [trial], trial.reading) && rerun != once && Core(rerun) == Core(once)
  {
    var rows := map[IdOf(p) := p];
    MissingNeedsReplay(p, prepared, applied, world);
    LoneRowIsFound(p, world);
    LoneRowSticks(rows, applied, world, trial.reading);
    hide *;
    assert StepRepeatedly(rows, applied, world, [trial]) == Step(rows, applied, world, trial) by {
      OneStep(rows, applied, world, trial);
    }
    OnlyEarly(rows, applied, world, trial);
    RerunConvergesExactly(rows, applied, world, [trial], trial.reading);
    ConvergesMeans(
      Step(Step(rows, applied, world, trial), applied, world, Clean(trial.reading)),
      Step(rows, applied, world, Clean(trial.reading)));
  }

  lemma OneStep(rows: Rows, applied: SetupEvent, world: World, trial: Trial)
    ensures StepRepeatedly(rows, applied, world, [trial]) == Step(rows, applied, world, trial)
  {
    hide Step;
  }

  lemma OnlyEarly(rows: Rows, applied: SetupEvent, world: World, trial: Trial)
    requires WritesMetadata(trial)
    ensures !Stranded(rows, applied, world, [trial], trial.reading)
    ensures Outdated(rows, applied, world, [trial], trial.reading) <==> Sticks(rows, applied, world, trial.reading)
  {
    var trials := [trial];
    assert trials[1..] == [] && !IsWriting(trials[0].fault);
    assert FirstWriting(trials) == FirstWriting(trials[1..]) == None;
    hide Sticks, StrandedBy;
  }

  lemma ConvergesMeans(rerun: Rows, once: Rows)
    requires Converges(rerun, once, false, true)
    ensures rerun != once && Core(rerun) == Core(once)
  {
  }

  lemma LoneRowSticks(rows: Rows, applied: SetupEvent, world: World, reading: Reading)
    requires Replayable(rows, applied, world)
    requires var from, latest := PlanFor(rows, applied).from, world.metadata(applied.contract);
             && FindByAddress(rows, applied.contract, world) == Some(from)
             && latest.Some? && Refreshed(rows[from], latest.value) != rows[from]
    ensures Sticks(rows, applied, world, reading)
  {
    hide FindByAddress, Repair, Refreshed;
  }

  lemma LoneRowIsFound(p: Plugin, world: World)
    requires p.interfaceType != Some(Safe)
    ensures FindByAddress(map[IdOf(p) := p], IdOf(p).contract, world) == Some(IdOf(p))
  {
    var rows := map[IdOf(p) := p];
    assert Lookup(rows, IdOf(p).contract, p.isSupported) == {IdOf(p)};
    assert Lookup(rows, IdOf(p).contract, !p.isSupported) == {};
  }
}
