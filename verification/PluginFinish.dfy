/** The two steps every run takes after the repair of a plugin, the latest metadata and the proposal condition: what
    they write, and that a later run makes up for whatever an earlier one left out of them. */
module PluginFinish {
  import opened Chronology
  import opened Plugins
  import opened PluginUpdates

  // ---- the core of a row ----

  /** Everything but the fields the two steps write. */
  function CoreOf(p: Plugin): Plugin {
    p.(metadata := None, processKey := None, proposalCreationConditionAddress := "")
  }

  /** Rows have the same core exactly when they differ in these three fields at most. */
  lemma CoreExactly(p: Plugin, q: Plugin)
    ensures CoreOf(p) == CoreOf(q) <==>
            q == p.(metadata := q.metadata, processKey := q.processKey,
                    proposalCreationConditionAddress := q.proposalCreationConditionAddress)
  {
    if CoreOf(p) == CoreOf(q) {
      assert q == CoreOf(q).(metadata := q.metadata, processKey := q.processKey,
                             proposalCreationConditionAddress := q.proposalCreationConditionAddress);
    }
  }

  function Core(rows: Rows): Rows {
    map id | id in rows :: CoreOf(rows[id])
  }

  lemma CoreUpdate(rows: Rows, id: RowId, p: Plugin)
    ensures Core(rows[id := p]) == Core(rows)[id := CoreOf(p)]
  {
  }

  lemma SameCoreRow(rows: Rows, rows': Rows, id: RowId)
    requires Core(rows) == Core(rows')
    ensures id in rows <==> id in rows'
    ensures id in rows ==> CoreOf(rows[id]) == CoreOf(rows'[id])
  {
    assert id in rows <==> id in Core(rows);
    assert id in rows' <==> id in Core(rows');
  }

  // ---- the latest metadata ----

  /** The rows a lookup by address sees. */
  function Lookup(rows: Rows, c: Contract, supported: bool): set<RowId> {
    set id | id in rows && id.contract == c && rows[id].isSupported == supported && rows[id].interfaceType != Some(Safe)
  }

  /** `findByAddress`: a supported row first, never a Safe's. */
  ghost function FindByAddress(rows: Rows, c: Contract, world: World): (found: Option<RowId>)
    ensures found.Some? ==> found.value in rows && found.value.contract == c
  {
    if Lookup(rows, c, true) != {} then Some(First(Lookup(rows, c, true), world.rank))
    else if Lookup(rows, c, false) != {} then Some(First(Lookup(rows, c, false), world.rank))
    else None
  }

  function Refreshed(p: Plugin, latest: LatestMetadata): Plugin {
    p.(metadata := Some(latest.metadata), processKey := latest.processKey)
  }

  /** `_updatePluginMetadata` with the latest metadata of the plugin, when it was fetched. */
  ghost function Refresh(rows: Rows, c: Contract, world: World): Rows {
    var found, latest := FindByAddress(rows, c, world), world.metadata(c);
    if found.None? || latest.None? then rows else rows[found.value := Refreshed(rows[found.value], latest.value)]
  }

  /** A row of the plugin that is no Safe's, supported unless no such row is, that `findOne` meets first. */
  ghost predicate IsFoundByAddress(rows: Rows, c: Contract, world: World, id: RowId) {
    && IsNoSafes(rows, c, id)
    && (rows[id].isSupported || forall o | IsNoSafes(rows, c, o) :: !rows[o].isSupported)
    && forall o | IsNoSafes(rows, c, o) && rows[o].isSupported == rows[id].isSupported ::
         world.rank(id) <= world.rank(o)
  }

  ghost predicate IsNoSafes(rows: Rows, c: Contract, id: RowId) {
    id in rows && id.contract.network == c.network && id.contract.address == c.address
    && rows[id].interfaceType != Some(Safe)
  }

  /** The metadata that was fetched last goes to the row found by address, and nothing else changes. */
  lemma RefreshExactly(rows: Rows, c: Contract, world: World)
    ensures var after, latest := Refresh(rows, c, world), world.metadata(c);
            && (latest.None? || (forall id :: !IsNoSafes(rows, c, id)) ==> after == rows)
            && (latest.Some? && (exists id :: IsNoSafes(rows, c, id)) ==>
                  exists id :: IsFoundByAddress(rows, c, world, id) && id in rows
                               && after == rows[id := rows[id].(metadata := Some(latest.value.metadata),
                                                                processKey := latest.value.processKey)])
  {
    var found := FindByAddress(rows, c, world);
    assert forall id, supported :: id in Lookup(rows, c, supported) <==>
                                   IsNoSafes(rows, c, id) && rows[id].isSupported == supported;
    hide Lookup, IsNoSafes;
    if id :| IsNoSafes(rows, c, id) {
      assert id in Lookup(rows, c, rows[id].isSupported);
    }
    if found.Some? {
      assert IsFoundByAddress(rows, c, world, found.value);
    }
  }

  // ---- the proposal condition ----

  /** The preparation `findOne` yields for an applied update. */
  function FirstPreparation(log: seq<SetupEvent>, applied: SetupEvent): Option<SetupEvent> {
    var prepared := Select(log, PreparationOf(applied));
    if prepared == [] then None else Some(prepared[0])
  }

  ghost predicate AllPrepared(log: seq<SetupEvent>, c: Contract) {
    forall e | e in log && AppliedTo(c)(e) :: FirstPreparation(log, e).Some?
  }

  /** Every applied update of the plugin has a preparation in the log. */
  lemma AllPreparedExactly(log: seq<SetupEvent>, c: Contract)
    ensures AllPrepared(log, c) <==>
            forall e | e in log && e.kind.UpdateApplied? && e.contract == c :: exists p :: p in log && Prepares(p, e)
  {
    forall e ensures FirstPreparation(log, e).Some? <==> exists p :: p in log && Prepares(p, e) {
      var prepared := Select(log, PreparationOf(e));
      assert prepared != [] ==> prepared[0] in prepared;
      assert forall p :: Prepares(p, e) <==> PreparationOf(e)(p);
    }
    hide FirstPreparation;
  }

  /** Applied updates whose preparation grants proposals to anyone. */
  function GrantingTo(log: seq<SetupEvent>, c: Contract): SetupEvent -> bool {
    (e: SetupEvent) =>
      && AppliedTo(c)(e)
      && FirstPreparation(log, e).Some?
      && GrantsProposals(FirstPreparation(log, e).value.permissions, c.address)
  }

  function PreparedCondition(log: seq<SetupEvent>, e: SetupEvent, c: Contract): string {
    if FirstPreparation(log, e).None? then ZERO_ADDRESS
    else ProposalCondition(FirstPreparation(log, e).value.permissions, c.address)
  }

  /** The condition of the newest update that grants proposals, the initial one when none does. */
  function NewestCondition(log: seq<SetupEvent>, c: Contract, initial: string): string {
    var newest := Newest(log, GrantingTo(log, c), SetupAt);
    if newest.None? then initial else PreparedCondition(log, newest.value, c)
  }

  /** An applied update of the plugin whose first preparation in the log lets anyone propose. */
  ghost predicate LetsPropose(log: seq<SetupEvent>, c: Contract, e: SetupEvent, n: int) {
    && e in log && e.kind.UpdateApplied? && e.contract == c
    && IsFirstPreparation(log, e, n) && exists p :: p in log[n].permissions && LetsAnyonePropose(p, c.address)
  }

  ghost predicate IsFirstPreparation(log: seq<SetupEvent>, e: SetupEvent, n: int) {
    0 <= n < |log| && Prepares(log[n], e) && forall m | 0 <= m < n :: !Prepares(log[m], e)
  }

  lemma {:induction false} FirstPreparationExactly(log: seq<SetupEvent>, e: SetupEvent)
    ensures forall n | IsFirstPreparation(log, e, n) :: FirstPreparation(log, e) == Some(log[n])
    ensures FirstPreparation(log, e).Some? ==> exists n :: IsFirstPreparation(log, e, n)
  {
    if log != [] {
      assert PreparationOf(e)(log[0]) <==> Prepares(log[0], e);
      FirstPreparationExactly(log[1..], e);
      if Prepares(log[0], e) {
        assert IsFirstPreparation(log, e, 0);
      } else {
        forall n | IsFirstPreparation(log, e, n) ensures FirstPreparation(log, e) == Some(log[n]) {
          assert forall m | 0 <= m < n - 1 :: log[1..][m] == log[m + 1];
          assert IsFirstPreparation(log[1..], e, n - 1);
        }
        if FirstPreparation(log, e).Some? {
          var m :| IsFirstPreparation(log[1..], e, m);
          assert forall l | 0 < l <= m :: log[l] == log[1..][l - 1];
          assert IsFirstPreparation(log, e, m + 1);
        }
      }
      hide Prepares;
    }
  }

  /** The condition comes from the update that lets anyone propose and is highest on the chain. */
  lemma NewestConditionExactly(log: seq<SetupEvent>, c: Contract, initial: string)
    requires Distinct(log, AppliedTo(c), SetupAt)
    ensures forall e, n | LetsPropose(log, c, e, n)
                          && forall o, m | LetsPropose(log, c, o, m) :: AtMost(o.position, e.position) ::
              NewestCondition(log, c, initial) == ProposalCondition(log[n].permissions, c.address)
    ensures (forall e, n :: !LetsPropose(log, c, e, n)) ==> NewestCondition(log, c, initial) == initial
  {
    hide FirstPreparation, IsFirstPreparation, ProposalCondition, LetsPropose, GrantsProposals;
    var newest := Newest(log, GrantingTo(log, c), SetupAt);
    NewestIsNewest(log, GrantingTo(log, c), SetupAt);
    NewestIsHighest(log, GrantingTo(log, c), SetupAt);
    forall e ensures e in log && GrantingTo(log, c)(e) <==> exists n :: LetsPropose(log, c, e, n) {
      GrantingExactly(log, c, e);
    }
    forall e, n | LetsPropose(log, c, e, n)
      ensures 0 <= n < |log| && FirstPreparation(log, e) == Some(log[n]) && AppliedTo(c)(e)
    {
      LetsProposeMeans(log, c, e, n);
    }
    forall e, n | LetsPropose(log, c, e, n) && forall o, m | LetsPropose(log, c, o, m) :: AtMost(o.position, e.position)
      ensures newest == Some(e)
    {
      assert GrantingTo(log, c)(e) && newest.Some?;
      var m :| LetsPropose(log, c, newest.value, m);
      assert SetupAt(newest.value) == SetupAt(e);
    }
  }

  lemma LetsProposeMeans(log: seq<SetupEvent>, c: Contract, e: SetupEvent, n: int)
    requires LetsPropose(log, c, e, n)
    ensures 0 <= n < |log| && FirstPreparation(log, e) == Some(log[n]) && AppliedTo(c)(e)
  {
    FirstPreparationExactly(log, e);
    hide FirstPreparation;
  }

  lemma GrantingExactly(log: seq<SetupEvent>, c: Contract, e: SetupEvent)
    ensures e in log && GrantingTo(log, c)(e) <==> exists n :: LetsPropose(log, c, e, n)
  {
    FirstPreparationExactly(log, e);
    hide FirstPreparation, Prepares;
    forall n | IsFirstPreparation(log, e, n)
      ensures e in log && GrantingTo(log, c)(e) <==> LetsPropose(log, c, e, n)
    {
      assert FirstPreparation(log, e) == Some(log[n]);
      GrantsExactly(log[n].permissions, c.address);
      assert AppliedTo(c)(e) <==> e.kind.UpdateApplied? && e.contract == c;
      hide GrantsProposals, LetsAnyonePropose;
      assert GrantingTo(log, c)(e) <==> AppliedTo(c)(e) && GrantsProposals(log[n].permissions, c.address);
    }
  }

  /** A row of the plugin with the lowest block. */
  ghost predicate IsOldest(rows: Rows, c: Contract, id: RowId) {
    && id in rows && id.contract == c
    && forall o | o in rows && o.contract == c :: rows[id].blockNumber <= rows[o].blockNumber
  }

  lemma OldestExactly(rows: Rows, c: Contract, world: World)
    ensures Blocks(rows, c) != map[] ==> IsOldest(rows, c, Oldest(Blocks(rows, c), world))
  {
    forall o | o in rows && o.contract == c ensures o in Blocks(rows, c) {
    }
  }

  function Blocks(rows: Rows, c: Contract): map<RowId, nat> {
    map id | id in rows && id.contract == c :: rows[id].blockNumber
  }

  function Lowest(blocks: map<RowId, nat>): set<RowId> {
    set id | id in blocks && forall o | o in blocks :: blocks[id] <= blocks[o]
  }

  lemma LowestExists(blocks: map<RowId, nat>)
    requires blocks != map[]
    ensures Lowest(blocks) != {}
  {
    FirstExists(blocks.Keys, id => if id in blocks then blocks[id] else 0);
    var first :| first in blocks.Keys && forall id | id in blocks.Keys :: blocks[first] <= blocks[id];
    assert first in Lowest(blocks);
  }

  /** The plugin's row with the lowest block. */
  ghost function Oldest(blocks: map<RowId, nat>, world: World): (oldest: RowId)
    requires blocks != map[]
    ensures oldest in blocks && forall id | id in blocks :: blocks[oldest] <= blocks[id]
  {
    LowestExists(blocks);
    First(Lowest(blocks), world.rank)
  }

  /** The row `fixProposalCondition` writes: the installed one, when it is the last update's and every update has a
      preparation. */
  ghost function ConditionRow(rows: Rows, applied: SetupEvent, world: World): (found: Option<RowId>)
    ensures found.Some? ==>
              found.value in InstalledIds(rows, applied.contract) && Blocks(rows, applied.contract) != map[]
  {
    var installed := InstalledIds(rows, applied.contract);
    if installed == {} then None
    else
      var id := First(installed, world.rank);
      assert id in Blocks(rows, applied.contract);
      if id.transactionHash == applied.transactionHash && AllPrepared(world.log, applied.contract) then Some(id)
      else None
  }

  /** `fixProposalCondition` for a plugin whose last applied update is `applied`. */
  ghost function Reconditioned(rows: Rows, applied: SetupEvent, world: World): Rows {
    var c, found := applied.contract, ConditionRow(rows, applied, world);
    if found.None? then rows
    else
      var initial := ProposalCondition(rows[Oldest(Blocks(rows, c), world)].permissions, c.address);
      rows[found.value := rows[found.value].(
             proposalCreationConditionAddress := NewestCondition(world.log, c, initial))]
  }

  /** The steps that take effect. */
  ghost function Finish(rows: Rows, applied: SetupEvent, world: World, rest: Rest): Rows {
    match rest
    case Nothing => rows
    case MetadataOnly => Refresh(rows, applied.contract, world)
    case ConditionOnly => Reconditioned(rows, applied, world)
    case Everything => Reconditioned(Refresh(rows, applied.contract, world), applied, world)
  }

  /** The proposal condition an installed plugin ends with: that of the newest update granting proposals, else that of
      its oldest row. */
  lemma EndsWithCondition(rows: Rows, applied: SetupEvent, world: World)
    requires InstalledIds(rows, applied.contract) == {RowId(applied.contract, applied.transactionHash)}
    requires AllPrepared(world.log, applied.contract)
    ensures var c, next := applied.contract, RowId(applied.contract, applied.transactionHash);
            && Blocks(rows, c) != map[]
            && var oldest := Oldest(Blocks(rows, c), world);
            && IsOldest(rows, c, oldest)
            && Finish(rows, applied, world, Everything)[next].proposalCreationConditionAddress ==
               NewestCondition(world.log, c, ProposalCondition(rows[oldest].permissions, c.address))
  {
    OldestExactly(rows, applied.contract, world);
    var c, next := applied.contract, RowId(applied.contract, applied.transactionHash);
    assert next in InstalledIds(rows, c) && next in Blocks(rows, c);
    RefreshKeepsCore(rows, c, world);
    PlacesDependOnCore(rows, Refresh(rows, c, world), applied, world);
    hide Refresh, Core;
  }

  // ---- the steps never touch the core ----

  lemma RefreshKeepsCore(rows: Rows, c: Contract, world: World)
    ensures Core(Refresh(rows, c, world)) == Core(rows)
  {
    var found, latest := FindByAddress(rows, c, world), world.metadata(c);
    if found.Some? && latest.Some? {
      CoreUpdate(rows, found.value, Refreshed(rows[found.value], latest.value));
    }
  }

  lemma ReconditionedKeepsCore(rows: Rows, applied: SetupEvent, world: World)
    ensures Core(Reconditioned(rows, applied, world)) == Core(rows)
  {
    hide ConditionRow;
    var found := ConditionRow(rows, applied, world);
    if found.Some? {
      var after := Reconditioned(rows, applied, world);
      CoreUpdate(rows, found.value, after[found.value]);
      assert after == rows[found.value := after[found.value]];
    }
  }

  lemma FinishKeepsCore(rows: Rows, applied: SetupEvent, world: World, rest: Rest)
    ensures Core(Finish(rows, applied, world, rest)) == Core(rows)
  {
    hide Core, Refresh, Reconditioned;
    RefreshKeepsCore(rows, applied.contract, world);
    ReconditionedKeepsCore(rows, applied, world);
    ReconditionedKeepsCore(Refresh(rows, applied.contract, world), applied, world);
  }

  // ---- and where they write depends on the core only ----

  lemma LookupDependsOnCore(rows: Rows, rows': Rows, c: Contract, supported: bool)
    requires Core(rows) == Core(rows')
    ensures Lookup(rows, c, supported) == Lookup(rows', c, supported)
  {
    forall id ensures id in Lookup(rows, c, supported) <==> id in Lookup(rows', c, supported) {
      SameCoreRow(rows, rows', id);
      hide Core;
      if id in rows {
        assert CoreOf(rows[id]).isSupported == rows[id].isSupported == rows'[id].isSupported;
        assert CoreOf(rows[id]).interfaceType == rows[id].interfaceType == rows'[id].interfaceType;
      }
    }
  }

  lemma InstalledDependsOnCore(rows: Rows, rows': Rows, c: Contract)
    requires Core(rows) == Core(rows')
    ensures InstalledIds(rows, c) == InstalledIds(rows', c)
    ensures Blocks(rows, c) == Blocks(rows', c)
  {
    forall id: RowId
      ensures id in rows <==> id in rows'
      ensures id in rows ==> rows[id].status == rows'[id].status && rows[id].blockNumber == rows'[id].blockNumber
    {
      SameCoreRow(rows, rows', id);
      hide Core;
      if id in rows {
        assert CoreOf(rows[id]).status == rows[id].status == rows'[id].status;
        assert CoreOf(rows[id]).blockNumber == rows[id].blockNumber == rows'[id].blockNumber;
      }
    }
  }

  lemma PlacesDependOnCore(rows: Rows, rows': Rows, applied: SetupEvent, world: World)
    requires Core(rows) == Core(rows')
    ensures FindByAddress(rows, applied.contract, world) == FindByAddress(rows', applied.contract, world)
    ensures ConditionRow(rows, applied, world) == ConditionRow(rows', applied, world)
    ensures var c := applied.contract;
            && Blocks(rows, c) == Blocks(rows', c)
            && (Blocks(rows, c) != map[] ==>
                  var oldest := Oldest(Blocks(rows, c), world);
                  oldest in rows && oldest in rows' && rows[oldest].permissions == rows'[oldest].permissions)
  {
    var c := applied.contract;
    LookupDependsOnCore(rows, rows', c, true);
    LookupDependsOnCore(rows, rows', c, false);
    InstalledDependsOnCore(rows, rows', c);
    hide Lookup, InstalledIds, AllPrepared;
    if Blocks(rows, c) != map[] {
      var oldest := Oldest(Blocks(rows, c), world);
      SameCoreRow(rows, rows', oldest);
      assert CoreOf(rows[oldest]).permissions == rows[oldest].permissions == rows'[oldest].permissions;
    }
    hide Core, Blocks;
  }

  // ---- so a later run makes up for an earlier one ----

  /** What the second step writes, on any rows with this core. */
  ghost function ConditionFor(rows: Rows, applied: SetupEvent, world: World): string {
    var c := applied.contract;
    if Blocks(rows, c) == map[] then ""
    else NewestCondition(world.log, c, ProposalCondition(rows[Oldest(Blocks(rows, c), world)].permissions, c.address))
  }

  function SetCondition(rows: Rows, at: Option<RowId>, condition: string): Rows {
    if at.None? || at.value !in rows then rows
    else rows[at.value := rows[at.value].(proposalCreationConditionAddress := condition)]
  }

  function SetMetadata(rows: Rows, at: Option<RowId>, latest: Option<LatestMetadata>): Rows {
    if at.None? || at.value !in rows || latest.None? then rows
    else rows[at.value := Refreshed(rows[at.value], latest.value)]
  }

  lemma SetsCommute(rows: Rows, i: Option<RowId>, condition: string, t: Option<RowId>, latest: Option<LatestMetadata>)
    ensures SetMetadata(SetCondition(rows, i, condition), t, latest)
            == SetCondition(SetMetadata(rows, t, latest), i, condition)
  {
  }

  lemma ReconditionedRow(rows: Rows, rows': Rows, applied: SetupEvent, world: World)
    requires Core(rows) == Core(rows')
    ensures Reconditioned(rows', applied, world)
            == SetCondition(rows', ConditionRow(rows, applied, world), ConditionFor(rows, applied, world))
  {
    PlacesDependOnCore(rows, rows', applied, world);
    hide Core, ConditionRow, NewestCondition;
  }

  lemma RefreshRow(rows: Rows, rows': Rows, applied: SetupEvent, world: World)
    requires Core(rows) == Core(rows')
    ensures var c := applied.contract;
            Refresh(rows', c, world) == SetMetadata(rows', FindByAddress(rows, c, world), world.metadata(c))
  {
    PlacesDependOnCore(rows, rows', applied, world);
    hide Core, FindByAddress;
  }

  lemma RefreshTwice(rows: Rows, applied: SetupEvent, world: World)
    ensures var once := Refresh(rows, applied.contract, world);
            Refresh(once, applied.contract, world) == once
  {
    RefreshKeepsCore(rows, applied.contract, world);
    RefreshRow(rows, Refresh(rows, applied.contract, world), applied, world);
    hide Core, FindByAddress;
  }

  lemma ReconditionedTwice(rows: Rows, applied: SetupEvent, world: World)
    ensures var once := Reconditioned(rows, applied, world);
            Reconditioned(once, applied, world) == once
  {
    ReconditionedKeepsCore(rows, applied, world);
    ReconditionedRow(rows, rows, applied, world);
    ReconditionedRow(rows, Reconditioned(rows, applied, world), applied, world);
    hide Core, ConditionRow, ConditionFor, Reconditioned;
  }

  lemma StepsCommute(rows: Rows, applied: SetupEvent, world: World)
    ensures Refresh(Reconditioned(rows, applied, world), applied.contract, world)
            == Reconditioned(Refresh(rows, applied.contract, world), applied, world)
  {
    var refreshed, reconditioned := Refresh(rows, applied.contract, world), Reconditioned(rows, applied, world);
    RefreshKeepsCore(rows, applied.contract, world);
    ReconditionedKeepsCore(rows, applied, world);
    RefreshRow(rows, rows, applied, world);
    RefreshRow(rows, reconditioned, applied, world);
    ReconditionedRow(rows, rows, applied, world);
    ReconditionedRow(rows, refreshed, applied, world);
    hide Core, ConditionRow, ConditionFor, Reconditioned, Refresh, FindByAddress, SetCondition, SetMetadata;
    SetsCommute(
      rows, ConditionRow(rows, applied, world), ConditionFor(rows, applied, world),
      FindByAddress(rows, applied.contract, world), world.metadata(applied.contract));
  }

  /** Each step that takes effect writes what it would write beside the other, and one that does not writes nothing. */
  lemma StepsAreIndependent(rows: Rows, applied: SetupEvent, world: World, rest: Rest, id: RowId)
    requires id in rows
    ensures var after, all := Finish(rows, applied, world, rest), Finish(rows, applied, world, Everything);
            && after.Keys == rows.Keys && all.Keys == rows.Keys
            && (after[id].metadata, after[id].processKey) ==
               (if rest in {MetadataOnly, Everything} then (all[id].metadata, all[id].processKey)
                else (rows[id].metadata, rows[id].processKey))
            && after[id].proposalCreationConditionAddress ==
               if rest in {ConditionOnly, Everything} then all[id].proposalCreationConditionAddress
               else rows[id].proposalCreationConditionAddress
  {
    var refreshed := Refresh(rows, applied.contract, world);
    RefreshKeepsCore(rows, applied.contract, world);
    RefreshRow(rows, rows, applied, world);
    ReconditionedRow(rows, rows, applied, world);
    ReconditionedRow(rows, refreshed, applied, world);
    hide Core, CoreOf, ConditionRow, ConditionFor, Reconditioned, Refresh, FindByAddress, SetCondition, SetMetadata;
    var t, latest := FindByAddress(rows, applied.contract, world), world.metadata(applied.contract);
    SetFields(rows, ConditionRow(rows, applied, world), ConditionFor(rows, applied, world), t, latest, id);
    SetFields(refreshed, ConditionRow(rows, applied, world), ConditionFor(rows, applied, world), t, latest, id);
  }

  /** The two writes touch different fields. */
  lemma SetFields(
    rows: Rows, i: Option<RowId>, condition: string, t: Option<RowId>, latest: Option<LatestMetadata>, id: RowId)
    requires id in rows
    ensures var after := SetCondition(rows, i, condition);
            && after.Keys == rows.Keys
            && after[id].metadata == rows[id].metadata && after[id].processKey == rows[id].processKey
            && after[id].proposalCreationConditionAddress ==
               if i == Some(id) then condition else rows[id].proposalCreationConditionAddress
    ensures var after := SetMetadata(rows, t, latest);
            && after.Keys == rows.Keys
            && after[id].proposalCreationConditionAddress == rows[id].proposalCreationConditionAddress
  {
  }

  /** Taking both steps makes up for every way an earlier run got through them, and leaves nothing to a later one. */
  lemma FinishAbsorbs(rows: Rows, applied: SetupEvent, world: World, rest: Rest)
    ensures var finished := Finish(rows, applied, world, Everything);
            && Finish(Finish(rows, applied, world, rest), applied, world, Everything) == finished
            && Finish(finished, applied, world, rest) == finished
  {
    var refreshed := Refresh(rows, applied.contract, world);
    RefreshTwice(rows, applied, world);
    ReconditionedTwice(rows, applied, world);
    ReconditionedTwice(refreshed, applied, world);
    StepsCommute(rows, applied, world);
    StepsCommute(refreshed, applied, world);
    StepsCommute(Reconditioned(rows, applied, world), applied, world);
    StepsCommute(Reconditioned(refreshed, applied, world), applied, world);
    RefreshTwice(Reconditioned(rows, applied, world), applied, world);
    RefreshTwice(Reconditioned(refreshed, applied, world), applied, world);
    hide Refresh, Reconditioned;
  }
}
