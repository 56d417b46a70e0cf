/** Whole runs of the row repair: every updated plugin in turn, each with its own failures. */
module PluginUpdateRuns {
  import opened Chronology
  import opened Counting
  import opened Plugins
  import opened PluginUpdates
  import opened PluginFinish
  import opened PluginReruns
  import PermissionLog

  /** The rows of one plugin. */
  function Of(rows: Rows, c: Contract): Rows {
    map id | id in rows && id.contract == c :: rows[id]
  }

  // ---- a plugin's turn is decided by its own rows and changes no other plugin's ----

  lemma OfUpdate(rows: Rows, id: RowId, p: Plugin, c: Contract)
    ensures Of(rows[id := p], c) == if id.contract == c then Of(rows, c)[id := p] else Of(rows, c)
  {
  }

  lemma SamePlan(rows: Rows, applied: SetupEvent, world: World)
    ensures var own := Of(rows, applied.contract);
            && InstalledIds(own, applied.contract) == InstalledIds(rows, applied.contract)
            && PlanFor(own, applied) == PlanFor(rows, applied)
            && (NeedsReplay(own, applied, world) <==> NeedsReplay(rows, applied, world))
            && (Replayable(own, applied, world) <==> Replayable(rows, applied, world))
  {
    var own := Of(rows, applied.contract);
    assert InstalledIds(own, applied.contract) == InstalledIds(rows, applied.contract);
    var plan := PlanFor(rows, applied);
    assert plan == PlanFor(own, applied);
    if plan.Replay? {
      assert plan.from in InstalledIds(rows, applied.contract);
      assert own[plan.from] == rows[plan.from];
    }
    hide PlanFor;
  }

  lemma SwappedIsLocal(rows: Rows, from: RowId, next: RowId, c: Contract)
    requires from in rows && next in rows && from.contract == next.contract
    ensures Of(Swapped(rows, from, next), c) ==
            if c == from.contract then Swapped(Of(rows, c), from, next) else Of(rows, c)
  {
    hide Install, Inherit, Deprecate;
    OfUpdate(rows, from, Deprecate(rows[from], rows[next]), c);
    OfUpdate(rows[from := Deprecate(rows[from], rows[next])], next, Install(Inherit(rows[from], rows[next])), c);
  }

  lemma LinkedIsLocal(rows: Rows, from: RowId, next: RowId, world: World, c: Contract)
    requires from in rows && next in rows && from.contract == next.contract
    ensures Of(Linked(rows, from, next, world), c) ==
            if c == from.contract then Linked(Of(rows, c), from, next, world) else Of(rows, c)
  {
    hide PermissionLog.LatestCondition;
    var condition := PermissionLog.LatestCondition(world.permissions, InstallationOf(rows[next]));
    var found := FoundInstalled(rows, from, next, world);
    OfUpdate(rows, found, rows[found].(conditionAddress := condition), c);
  }

  lemma ReplayedIsLocal(
    rows: Rows, from: RowId, next: RowId, row: Plugin, world: World, fault: Fault, c: Contract)
    requires from in rows && from != next && from.contract == next.contract
    ensures Of(Replayed(rows, from, next, row, world, fault), c) ==
            if c == from.contract then Replayed(Of(rows, c), from, next, row, world, fault) else Of(rows, c)
  {
    OfUpdate(rows, next, row, c);
    SwappedIsLocal(rows[next := row], from, next, c);
    LinkedIsLocal(rows[next := row], from, next, world, c);
    hide Swapped, Linked;
  }

  lemma RepairIsLocal(
    rows: Rows, applied: SetupEvent, world: World, fault: Fault, reading: Reading, c: Contract)
    ensures Of(Repair(rows, applied, world, fault, reading), c) ==
            if c == applied.contract then Repair(Of(rows, c), applied, world, fault, reading) else Of(rows, c)
  {
    SamePlan(rows, applied, world);
    var plan, prepared := PlanFor(rows, applied), Preparation(world.log, applied);
    var next := RowId(applied.contract, applied.transactionHash);
    PlanIsThere(rows, applied);
    hide Swapped, Replayed, Of, PlanFor, NewRow;
    if plan.Swap? {
      SwappedIsLocal(rows, plan.from, next, c);
    } else if plan.Replay? && prepared.Some? {
      ReplayedIsLocal(rows, plan.from, next, NewRow(applied, prepared.value, reading), world, fault, c);
    }
  }

  lemma RefreshIsLocal(rows: Rows, applied: SetupEvent, world: World, c: Contract)
    ensures var d := applied.contract;
            Of(Refresh(rows, d, world), c) == if c == d then Refresh(Of(rows, c), c, world) else Of(rows, c)
  {
    var d := applied.contract;
    assert Lookup(Of(rows, d), d, true) == Lookup(rows, d, true);
    assert Lookup(Of(rows, d), d, false) == Lookup(rows, d, false);
    var found, latest := FindByAddress(rows, d, world), world.metadata(d);
    assert FindByAddress(Of(rows, d), d, world) == found;
    hide FindByAddress, Lookup;
    if found.Some? && latest.Some? {
      OfUpdate(rows, found.value, Refreshed(rows[found.value], latest.value), c);
    }
  }

  lemma ReconditionedIsLocal(rows: Rows, applied: SetupEvent, world: World, c: Contract)
    ensures Of(Reconditioned(rows, applied, world), c) ==
            if c == applied.contract then Reconditioned(Of(rows, c), applied, world) else Of(rows, c)
  {
    var d := applied.contract;
    assert InstalledIds(Of(rows, d), d) == InstalledIds(rows, d);
    assert Blocks(Of(rows, d), d) == Blocks(rows, d);
    assert ConditionRow(Of(rows, d), applied, world) == ConditionRow(rows, applied, world);
    hide ConditionRow, NewestCondition;
    var found := ConditionRow(rows, applied, world);
    if found.Some? {
      var after := Reconditioned(rows, applied, world);
      assert Of(rows, d)[Oldest(Blocks(rows, d), world)] == rows[Oldest(Blocks(rows, d), world)];
      OfUpdate(rows, found.value, after[found.value], c);
      assert after == rows[found.value := after[found.value]];
    }
  }

  lemma FinishIsLocal(rows: Rows, applied: SetupEvent, world: World, rest: Rest, c: Contract)
    ensures Of(Finish(rows, applied, world, rest), c) ==
            if c == applied.contract then Finish(Of(rows, c), applied, world, rest) else Of(rows, c)
  {
    RefreshIsLocal(rows, applied, world, c);
    ReconditionedIsLocal(rows, applied, world, c);
    ReconditionedIsLocal(Refresh(rows, applied.contract, world), applied, world, c);
    hide Of, Refresh, Reconditioned;
  }

  lemma StepIsLocal(rows: Rows, applied: SetupEvent, world: World, trial: Trial, c: Contract)
    ensures Of(Step(rows, applied, world, trial), c) ==
            if c == applied.contract then Step(Of(rows, c), applied, world, trial) else Of(rows, c)
  {
    var repaired := Repair(rows, applied, world, trial.fault, trial.reading);
    SamePlan(rows, applied, world);
    RepairIsLocal(rows, applied, world, trial.fault, trial.reading, c);
    RefreshIsLocal(repaired, applied, world, c);
    FinishIsLocal(FixPlugin(rows, applied, world, trial), applied, world, trial.rest, c);
    hide Of, Repair, Refresh, Finish, Replayable, PlanFor;
  }

  // ---- runs ----

  /** The last update applied to a plugin, by chain position. */
  function LastUpdate(world: World, c: Contract): Option<SetupEvent> {
    Newest(world.log, AppliedTo(c), SetupAt)
  }

  /** That update in the fields of the log. */
  lemma LastUpdateExactly(world: World, c: Contract, e: SetupEvent)
    requires Distinct(world.log, AppliedTo(c), SetupAt)
    ensures LastUpdate(world, c) == Some(e) <==>
            && e in world.log && e.kind.UpdateApplied? && e.contract == c
            && forall o | o in world.log && o.kind.UpdateApplied? && o.contract == c :: AtMost(o.position, e.position)
  {
    NewestIsNewest(world.log, AppliedTo(c), SetupAt);
    NewestIsHighest(world.log, AppliedTo(c), SetupAt);
    if e in world.log && AppliedTo(c)(e)
       && forall o | o in world.log && o.kind.UpdateApplied? && o.contract == c :: AtMost(o.position, e.position) {
      NewestUnique(world.log, AppliedTo(c), SetupAt, e);
    }
  }

  ghost function StepContract(rows: Rows, c: Contract, world: World, trial: Trial): Rows {
    var last := LastUpdate(world, c);
    if last.None? then rows else Step(rows, last.value, world, trial)
  }

  lemma LastUpdateIsOfContract(world: World, c: Contract)
    ensures LastUpdate(world, c).Some? ==> LastUpdate(world, c).value.contract == c
  {
    NewestIsNewest(world.log, AppliedTo(c), SetupAt);
  }

  lemma StepContractIsLocal(rows: Rows, c: Contract, world: World, trial: Trial, d: Contract)
    ensures Of(StepContract(rows, c, world, trial), d) ==
            if d == c then StepContract(Of(rows, c), c, world, trial) else Of(rows, d)
  {
    LastUpdateIsOfContract(world, c);
    if LastUpdate(world, c).Some? {
      StepIsLocal(rows, LastUpdate(world, c).value, world, trial, d);
    }
    hide Step;
  }

  /** What becomes of every plugin's turn in one run. */
  type Trials = Contract -> Trial

  /** One run over the plugins in this order. */
  ghost function Run(rows: Rows, contracts: seq<Contract>, world: World, trials: Trials): Rows {
    if contracts == [] then rows
    else
      var init, c := contracts[..|contracts| - 1], contracts[|contracts| - 1];
      StepContract(Run(rows, init, world, trials), c, world, trials(c))
  }

  /** A run treats every plugin as if it were alone, whatever the order. */
  lemma {:induction false} RunIsPointwise(
    rows: Rows, contracts: seq<Contract>, world: World, trials: Trials, d: Contract)
    requires NoRepeats(contracts)
    ensures Of(Run(rows, contracts, world, trials), d) ==
            if d in contracts then StepContract(Of(rows, d), d, world, trials(d)) else Of(rows, d)
  {
    if contracts != [] {
      var init, c := contracts[..|contracts| - 1], contracts[|contracts| - 1];
      RunIsPointwise(rows, init, world, trials, d);
      hide Of, StepContract;
      StepContractIsLocal(Run(rows, init, world, trials), c, world, trials(c), d);
      assert d in contracts <==> d in init || d == c;
      assert c !in init;
    }
  }

  /** Consecutive runs. */
  ghost function Runs(rows: Rows, contracts: seq<Contract>, world: World, runs: seq<Trials>): Rows
    decreases |runs|
  {
    if runs == [] then rows else Runs(Run(rows, contracts, world, runs[0]), contracts, world, runs[1..])
  }

  function TrialsOf(runs: seq<Trials>, c: Contract): seq<Trial> {
    seq(|runs|, n requires 0 <= n < |runs| => runs[n](c))
  }

  lemma {:induction false} RunsArePointwise(
    rows: Rows, contracts: seq<Contract>, world: World, runs: seq<Trials>, d: Contract)
    requires NoRepeats(contracts)
    ensures Of(Runs(rows, contracts, world, runs), d) ==
            if d in contracts && LastUpdate(world, d).Some?
            then StepRepeatedly(Of(rows, d), LastUpdate(world, d).value, world, TrialsOf(runs, d)) else Of(rows, d)
    decreases |runs|
  {
    if runs != [] {
      RunIsPointwise(rows, contracts, world, runs[0], d);
      RunsArePointwise(Run(rows, contracts, world, runs[0]), contracts, world, runs[1..], d);
      assert TrialsOf(runs, d)[1..] == TrialsOf(runs[1..], d);
      hide Of, Step, Run;
    }
  }

  // ---- the rerun guarantee ----

  type Readings = Contract -> Reading

  /** A run in which nothing fails. */
  function CleanRun(readings: Readings): Trials {
    (c: Contract) => Clean(readings(c))
  }

  /** The plugin was stranded in one of the runs, against a clean run with this reading. */
  ghost predicate StrandedIn(rows: Rows, c: Contract, world: World, runs: seq<Trials>, readings: Readings) {
    var last := LastUpdate(world, c);
    last.Some? && Stranded(Of(rows, c), last.value, world, TrialsOf(runs, c), readings(c))
  }

  /** Its metadata was outdated in one. */
  ghost predicate OutdatedIn(rows: Rows, c: Contract, world: World, runs: seq<Trials>, readings: Readings) {
    var last := LastUpdate(world, c);
    last.Some? && Outdated(Of(rows, c), last.value, world, TrialsOf(runs, c), readings(c))
  }

  lemma CoreIsPerPlugin(rows: Rows, c: Contract)
    ensures Core(Of(rows, c)) == Of(Core(rows), c)
  {
  }

  lemma PluginConverges(
    rows: Rows, contracts: seq<Contract>, world: World, runs: seq<Trials>, readings: Readings, d: Contract)
    requires NoRepeats(contracts)
    ensures var rerun := Run(Runs(rows, contracts, world, runs), contracts, world, CleanRun(readings));
            var once := Run(rows, contracts, world, CleanRun(readings));
            Converges(Of(rerun, d), Of(once, d), d in contracts && StrandedIn(rows, d, world, runs, readings),
                      d in contracts && OutdatedIn(rows, d, world, runs, readings))
  {
    RunIsPointwise(rows, contracts, world, CleanRun(readings), d);
    RunIsPointwise(Runs(rows, contracts, world, runs), contracts, world, CleanRun(readings), d);
    RunsArePointwise(rows, contracts, world, runs, d);
    hide Of, Core, Step, Stranded, Outdated, Run, Runs;
    if LastUpdate(world, d).Some? {
      RerunConvergesExactly(Of(rows, d), LastUpdate(world, d).value, world, TrialsOf(runs, d), readings(d));
    }
  }

  lemma SameWhenPluginsSame(rows: Rows, rows': Rows)
    ensures rows == rows' <==> forall c :: Of(rows, c) == Of(rows', c)
  {
    if forall c :: Of(rows, c) == Of(rows', c) {
      forall id ensures id in rows <==> id in rows'
                ensures id in rows ==> rows[id] == rows'[id]
      {
        assert id in Of(rows, id.contract) <==> id in Of(rows', id.contract);
      }
    }
  }

  /** "A rerun finishes what a failed run left": any runs followed by a clean one leave the whole rows of one clean run,
      exactly when no plugin was stranded and no plugin's metadata outdated; and everything but metadata and proposal
      conditions exactly when none was stranded. */
  lemma RerunFinishesExactly(
    rows: Rows, contracts: seq<Contract>, world: World, runs: seq<Trials>, readings: Readings)
    requires NoRepeats(contracts)
    ensures Converges(
              Run(Runs(rows, contracts, world, runs), contracts, world, CleanRun(readings)),
              Run(rows, contracts, world, CleanRun(readings)),
              exists c :: c in contracts && StrandedIn(rows, c, world, runs, readings),
              exists c :: c in contracts && OutdatedIn(rows, c, world, runs, readings))
  {
    var rerun := Run(Runs(rows, contracts, world, runs), contracts, world, CleanRun(readings));
    var once := Run(rows, contracts, world, CleanRun(readings));
    forall c
      ensures Of(rerun, c) == Of(once, c) <==>
              !(c in contracts
                && (StrandedIn(rows, c, world, runs, readings) || OutdatedIn(rows, c, world, runs, readings)))
      ensures Of(Core(rerun), c) == Of(Core(once), c) <==>
              !(c in contracts && StrandedIn(rows, c, world, runs, readings))
    {
      PluginConverges(rows, contracts, world, runs, readings, c);
      CoreIsPerPlugin(rerun, c);
      CoreIsPerPlugin(once, c);
      hide Of, Core, Run, Runs;
    }
    SameWhenPluginsSame(rerun, once);
    SameWhenPluginsSame(Core(rerun), Core(once));
    hide Of, Core, Run, Runs, StrandedIn, OutdatedIn;
  }

  /** After a clean run further runs leave the whole rows alone, whatever fails or is misread in them. */
  lemma FinishedStaysFinished(
    rows: Rows, contracts: seq<Contract>, world: World, readings: Readings, later: Trials)
    requires NoRepeats(contracts)
    ensures var once := Run(rows, contracts, world, CleanRun(readings));
            Run(once, contracts, world, later) == once
  {
    var once := Run(rows, contracts, world, CleanRun(readings));
    forall c ensures Of(Run(once, contracts, world, later), c) == Of(once, c) {
      RunIsPointwise(rows, contracts, world, CleanRun(readings), c);
      RunIsPointwise(once, contracts, world, later, c);
      hide Of, Step, Run;
      if LastUpdate(world, c).Some? {
        CleanStepIsFinal(Of(rows, c), LastUpdate(world, c).value, world, readings(c), later(c));
      }
    }
    SameWhenPluginsSame(Run(once, contracts, world, later), once);
  }

  /** The proposal conditions after a clean run: a plugin left with the last update's row alone has the condition of its
      newest update that grants proposals to anyone, and of its oldest row when none does, provided every update has a
      preparation. */
  lemma EndsWithConditions(rows: Rows, contracts: seq<Contract>, world: World, readings: Readings, c: Contract)
    requires NoRepeats(contracts) && c in contracts && LastUpdate(world, c).Some? && AllPrepared(world.log, c)
    requires var next := RowId(c, LastUpdate(world, c).value.transactionHash);
             InstalledIds(Run(rows, contracts, world, CleanRun(readings)), c) == {next}
    ensures var next := RowId(c, LastUpdate(world, c).value.transactionHash);
            var after := Run(rows, contracts, world, CleanRun(readings));
            && next in after && Blocks(after, c) != map[]
            && var oldest := Oldest(Blocks(after, c), world);
            && IsOldest(after, c, oldest)
            && after[next].proposalCreationConditionAddress ==
               NewestCondition(world.log, c, ProposalCondition(after[oldest].permissions, c.address))
  {
    var last := LastUpdate(world, c).value;
    var after, own := Run(rows, contracts, world, CleanRun(readings)), Of(rows, c);
    LastUpdateIsOfContract(world, c);
    RunIsPointwise(rows, contracts, world, CleanRun(readings), c);
    CleanStep(own, last, world, readings(c));
    SamePlan(after, last, world);
    assert Blocks(Of(after, c), c) == Blocks(after, c);
    OldestExactly(after, c, world);
    hide Repair, Finish, Run, Core, NewestCondition, Oldest, Step;
    FinishedCondition(Repair(own, last, world, NoFault, readings(c)), last, world);
  }

  lemma FinishedCondition(repaired: Rows, last: SetupEvent, world: World)
    requires var c, after := last.contract, Finish(repaired, last, world, Everything);
             InstalledIds(after, c) == {RowId(c, last.transactionHash)} && AllPrepared(world.log, c)
    ensures var c, after := last.contract, Finish(repaired, last, world, Everything);
            var next := RowId(c, last.transactionHash);
            && next in after && Blocks(after, c) != map[]
            && var oldest := Oldest(Blocks(after, c), world);
            && IsOldest(after, c, oldest)
            && after[next].proposalCreationConditionAddress ==
               NewestCondition(world.log, c, ProposalCondition(after[oldest].permissions, c.address))
  {
    var c, after := last.contract, Finish(repaired, last, world, Everything);
    FinishKeepsCore(repaired, last, world, Everything);
    InstalledDependsOnCore(repaired, after, c);
    PlacesDependOnCore(repaired, after, last, world);
    assert RowId(c, last.transactionHash) in InstalledIds(after, c);
    OldestExactly(after, c, world);
    hide Finish, Core, NewestCondition;
    EndsWithCondition(repaired, last, world);
  }
}
