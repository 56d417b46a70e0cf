/** The repair of plugins whose installed row is not the row of their last applied update, as a function on the rows
    of one plugin: what `fixPlugin` and the replay it starts write, but for the metadata. */
module PluginUpdates {
  import opened Keys
  import opened Chronology
  import opened Counting
  import opened Plugins
  import PermissionLog

  /** A plugin contract; its rows differ by the transaction that wrote them. */
  datatype Contract = Contract(network: Network, address: Address)

  /** A row's entity id is built from these, and they are unique. */
  datatype RowId = RowId(contract: Contract, transactionHash: string)

  function IdOf(p: Plugin): RowId {
    RowId(Contract(p.network, p.address), p.transactionHash)
  }

  ghost predicate WellKeyed(rows: Rows) {
    forall id | id in rows :: IdOf(rows[id]) == id
  }

  /** The plugin collection by entity id. */
  type Rows = map<RowId, Plugin>

  datatype SetupKind = UpdatePrepared | UpdateApplied | OtherSetup

  datatype SetupEvent = SetupEvent(
    kind: SetupKind,
    contract: Contract,
    daoAddress: Address,
    preparedSetupId: string,
    pluginSetupRepo: Option<Address>,
    permissions: seq<Permission>,
    tokenAddress: Option<Address>,
    position: Position,
    transactionHash: string)

  function SetupAt(e: SetupEvent): Position { e.position }

  function AppliedTo(c: Contract): SetupEvent -> bool {
    (e: SetupEvent) => e.kind.UpdateApplied? && e.contract == c
  }

  function PreparationOf(applied: SetupEvent): SetupEvent -> bool {
    (e: SetupEvent) =>
      && e.kind.UpdatePrepared? && e.contract == applied.contract
      && e.daoAddress == applied.daoAddress && e.preparedSetupId == applied.preparedSetupId
  }

  /** `_queryGetPlugin` for an applied update: it answers only when there is exactly one preparation. */
  function Preparation(log: seq<SetupEvent>, applied: SetupEvent): Option<SetupEvent> {
    var prepared := Select(log, PreparationOf(applied));
    if |prepared| == 1 then Some(prepared[0]) else None
  }

  /** The preparation of an applied update: of the same plugin, DAO and prepared setup. */
  ghost predicate Prepares(e: SetupEvent, applied: SetupEvent) {
    && e.kind.UpdatePrepared? && e.contract.network == applied.contract.network
    && e.contract.address == applied.contract.address && e.daoAddress == applied.daoAddress
    && e.preparedSetupId == applied.preparedSetupId
  }

  ghost predicate IsOnlyPreparation(log: seq<SetupEvent>, applied: SetupEvent, n: int) {
    && 0 <= n < |log| && Prepares(log[n], applied)
    && forall m | 0 <= m < |log| && m != n :: !Prepares(log[m], applied)
  }

  /** It is found exactly when the log has one and no second one. */
  lemma PreparationExactly(log: seq<SetupEvent>, applied: SetupEvent)
    ensures forall n | IsOnlyPreparation(log, applied, n) :: Preparation(log, applied) == Some(log[n])
    ensures Preparation(log, applied).Some? ==> exists n :: IsOnlyPreparation(log, applied, n)
  {
    var positions := set n: nat | n < |log| && Prepares(log[n], applied);
    PreparationCount(log, applied, positions);
    if Preparation(log, applied).Some? {
      PositionIsOnly(log, applied, positions);
    }
    forall n | IsOnlyPreparation(log, applied, n) ensures Preparation(log, applied) == Some(log[n]) {
      assert positions == {n};
      OnlyPreparationIsFound(log, applied, n);
    }
  }

  lemma PositionIsOnly(log: seq<SetupEvent>, applied: SetupEvent, positions: set<nat>)
    requires |positions| == 1 && forall n: nat :: n in positions <==> n < |log| && Prepares(log[n], applied)
    ensures exists n :: IsOnlyPreparation(log, applied, n)
  {
    hide Prepares;
    var n :| n in positions;
    OnlyOne(positions, n);
    assert IsOnlyPreparation(log, applied, n);
  }

  lemma OnlyPreparationIsFound(log: seq<SetupEvent>, applied: SetupEvent, n: nat)
    requires IsOnlyPreparation(log, applied, n) && |Select(log, PreparationOf(applied))| == 1
    ensures Preparation(log, applied) == Some(log[n])
  {
    var prepared := Select(log, PreparationOf(applied));
    assert prepared[0] in prepared;
    var m :| 0 <= m < |log| && log[m] == prepared[0];
    assert Prepares(log[m], applied);
  }

  lemma PreparationCount(log: seq<SetupEvent>, applied: SetupEvent, positions: set<nat>)
    requires forall n: nat :: n in positions <==> n < |log| && Prepares(log[n], applied)
    ensures |Select(log, PreparationOf(applied))| == |positions|
  {
    var wanted := PreparationOf(applied);
    assert forall e :: wanted(e) <==> Prepares(e, applied);
    SelectCount(log, wanted);
    hide Select, Tally, Prepares;
    TallyIsSize(log, wanted, positions);
  }

  /** What a run reads from the chain for the row of an update: what the contract's code shows, and the time of the
      block. A read that fails is swallowed; its answer is then the one for nothing found. */
  datatype Reading = Reading(
    interfaceType: Option<InterfaceType>,
    isObjection: bool,
    implementationAddress: Option<Address>,
    timestamp: Option<nat>)

  const ZERO_ADDRESS := "0x0000000000000000000000000000000000000000"
  const ANY_ADDRESS := "0xFFfFfFffFFfffFFfFFfFFFFFffFFFffffFfFFFfF"
  const CREATE_PROPOSAL_PERMISSION := "CREATE_PROPOSAL_PERMISSION"

  predicate IsProposalGrant(p: Permission, plugin: Address) {
    p.permissionId == CREATE_PROPOSAL_PERMISSION && p.where == plugin && p.who == ANY_ADDRESS
  }

  predicate GrantsProposals(permissions: seq<Permission>, plugin: Address) {
    exists p :: p in permissions && IsProposalGrant(p, plugin)
  }

  /** The condition of the last matching permission, the zero address when that is no conditional grant. */
  function ProposalCondition(permissions: seq<Permission>, plugin: Address): string {
    if permissions == [] then ZERO_ADDRESS
    else
      var last := permissions[|permissions| - 1];
      if !IsProposalGrant(last, plugin) then ProposalCondition(permissions[..|permissions| - 1], plugin)
      else if last.operation.GrantWithCondition? then last.condition
      else ZERO_ADDRESS
  }

  /** The permission to create proposals of the plugin, for anyone. */
  ghost predicate LetsAnyonePropose(p: Permission, plugin: Address) {
    p.permissionId == CREATE_PROPOSAL_PERMISSION && p.where == plugin && p.who == ANY_ADDRESS
  }

  lemma GrantsExactly(permissions: seq<Permission>, plugin: Address)
    ensures GrantsProposals(permissions, plugin) <==> exists p :: p in permissions && LetsAnyonePropose(p, plugin)
  {
    assert forall p :: IsProposalGrant(p, plugin) <==> LetsAnyonePropose(p, plugin);
  }

  /** The last permission that grants proposals to anyone decides, and none leaves the zero address. */
  lemma {:induction false} ProposalConditionIsLast(permissions: seq<Permission>, plugin: Address, n: nat)
    requires forall m | n < m < |permissions| :: !LetsAnyonePropose(permissions[m], plugin)
    ensures n < |permissions| && LetsAnyonePropose(permissions[n], plugin) ==>
              ProposalCondition(permissions, plugin) ==
              if permissions[n].operation.GrantWithCondition? then permissions[n].condition else ZERO_ADDRESS
    ensures (forall p | p in permissions :: !LetsAnyonePropose(p, plugin)) ==>
              ProposalCondition(permissions, plugin) == ZERO_ADDRESS
  {
    if permissions != [] {
      var init := permissions[..|permissions| - 1];
      assert permissions[|permissions| - 1] in permissions && forall p | p in init :: p in permissions;
      ProposalConditionIsLast(init, plugin, n);
    }
  }

  /** The permissions of the merged events: the preparation's unless the applied event lists at least as many. */
  function MergedPermissions(applied: SetupEvent, prepared: SetupEvent): seq<Permission> {
    if |prepared.permissions| > |applied.permissions| || applied.permissions == [] then prepared.permissions
    else applied.permissions
  }

  /** The row `_createPlugin` writes for an applied update: identity and place are the update's, DAO and repository the
      preparation's, the longer of both permission lists is kept, what the chain read is stored, and there is no link,
      metadata or support to lose yet. */
  function NewRow(applied: SetupEvent, prepared: SetupEvent, reading: Reading): (row: Plugin)
    ensures row.status.Installed? && IdOf(row) == RowId(applied.contract, applied.transactionHash)
    ensures row.blockNumber == applied.position.blockNumber && row.uninstalled == NOT_UNINSTALLED
    ensures row.daoAddress == prepared.daoAddress && row.pluginSetupRepoAddress == prepared.pluginSetupRepo
    ensures row.conditionAddress.None? && row.metadata.None? && row.processKey.None? && !row.isSupported
    ensures ReadingOf(row) == reading
    ensures |prepared.permissions| > |applied.permissions| ==> row.permissions == prepared.permissions
    ensures |prepared.permissions| <= |applied.permissions| ==> row.permissions == applied.permissions
    ensures row.proposalCreationConditionAddress == ProposalCondition(row.permissions, row.address)
    ensures prepared.tokenAddress.Some? ==> row.tokenAddress == prepared.tokenAddress
    ensures prepared.tokenAddress.None? ==> row.tokenAddress == applied.tokenAddress
    ensures row.isProcess <==>
            forall t | t in {CapitalDistributor, Gauge, CrossChainController} :: row.interfaceType != Some(t)
    ensures row.isBody <==> row.isProcess && row.interfaceType != Some(Spp)
    ensures !row.isSubPlugin && row.parentPlugin.None? && row.stageIndex.None? && row.subPlugins == []
    ensures row.totalStages.None? && row.votingEscrow.None? && row.lockManagerAddress.None?
  {
    var c := applied.contract;
    var t := reading.interfaceType;
    var noBody := t in {Some(Spp), Some(CapitalDistributor), Some(Gauge), Some(CrossChainController)};
    var block := applied.position.blockNumber;
    var permissions := MergedPermissions(applied, prepared);
    Plugin(
      network := c.network, address := c.address, daoAddress := prepared.daoAddress,
      transactionHash := applied.transactionHash, blockNumber := block,
      blockTimestamp := reading.timestamp,
      interfaceType := t, implementationAddress := reading.implementationAddress, status := Installed,
      isSupported := false, uninstalled := NOT_UNINSTALLED,
      conditionAddress := None,
      proposalCreationConditionAddress := ProposalCondition(permissions, c.address),
      pluginSetupRepoAddress := prepared.pluginSetupRepo,
      permissions := permissions,
      tokenAddress := if prepared.tokenAddress.Some? then prepared.tokenAddress else applied.tokenAddress,
      votingEscrow := None, lockManagerAddress := None,
      isProcess := t == Some(Spp) || !noBody, isBody := !noBody, isSubPlugin := false,
      isObjection := reading.isObjection, parentPlugin := None, stageIndex := None, subPlugins := [],
      totalStages := None, metadata := None, processKey := None)
  }

  /** What of a row was read from the chain. */
  function ReadingOf(p: Plugin): Reading {
    Reading(p.interfaceType, p.isObjection, p.implementationAddress, p.blockTimestamp)
  }

  /** Which values an update row ends with, in the fields of the row it replaces and of its own: roles, support, and
      whatever of parent, stage, escrow, condition the old row has; metadata, token, lock manager, sub-plugins and
      stages of the old row where the types and its own values call for it; the old proposal condition unless its own
      permissions let anyone propose. */
  ghost predicate TakesOver(row: Plugin, was: Plugin, own: Plugin) {
    && row.isBody == was.isBody && row.isProcess == was.isProcess && row.isSubPlugin == was.isSubPlugin
    && row.isSupported == was.isSupported
    && row.parentPlugin == (if was.parentPlugin.Some? then was.parentPlugin else own.parentPlugin)
    && row.stageIndex == (if was.stageIndex.Some? then was.stageIndex else own.stageIndex)
    && row.votingEscrow == (if was.votingEscrow.Some? then was.votingEscrow else own.votingEscrow)
    && row.conditionAddress == (if was.conditionAddress.Some? then was.conditionAddress else own.conditionAddress)
    && (if own.metadata.None? && was.metadata.Some?
        then row.metadata == was.metadata && row.processKey == was.processKey
        else row.metadata == own.metadata && row.processKey == own.processKey)
    && (if own.interfaceType == was.interfaceType == Some(Spp) && own.subPlugins == [] && was.subPlugins != []
        then row.subPlugins == was.subPlugins && row.totalStages == was.totalStages
        else row.subPlugins == own.subPlugins && row.totalStages == own.totalStages)
    && (if own.interfaceType == was.interfaceType == Some(LockToVote)
           && own.lockManagerAddress.None? && was.lockManagerAddress.Some?
        then row.lockManagerAddress == was.lockManagerAddress && row.tokenAddress == was.tokenAddress
        else
          && row.lockManagerAddress == own.lockManagerAddress
          && if own.interfaceType == was.interfaceType == Some(TokenVoting)
                && own.tokenAddress.None? && was.tokenAddress.Some?
             then row.tokenAddress == was.tokenAddress else row.tokenAddress == own.tokenAddress)
    && row.proposalCreationConditionAddress ==
       (if exists p :: p in own.permissions && LetsAnyonePropose(p, own.address)
        then own.proposalCreationConditionAddress else was.proposalCreationConditionAddress)
    && row.status.Installed? && row.uninstalled == Uninstallation(false, None, None, None)
  }

  /** The fields no update takes over. */
  ghost predicate SamePlace(row: Plugin, own: Plugin) {
    && row.network == own.network && row.address == own.address && row.daoAddress == own.daoAddress
    && row.transactionHash == own.transactionHash && row.blockNumber == own.blockNumber
    && row.blockTimestamp == own.blockTimestamp && row.interfaceType == own.interfaceType
    && row.implementationAddress == own.implementationAddress && row.isObjection == own.isObjection
    && row.pluginSetupRepoAddress == own.pluginSetupRepoAddress && row.permissions == own.permissions
  }

  lemma InheritExactly(was: Plugin, own: Plugin)
    ensures var row := Install(Inherit(was, own)); TakesOver(row, was, own) && SamePlace(row, own)
  {
  }

  /** What becomes of a replaced row: it is deprecated by the update and loses its support, nothing else. */
  ghost predicate IsReplacedBy(replaced: Plugin, was: Plugin, update: Plugin) {
    && replaced == was.(status := replaced.status, isSupported := replaced.isSupported,
                        uninstalled := replaced.uninstalled)
    && replaced.status.Deprecated? && !replaced.isSupported
    && replaced.uninstalled.status && replaced.uninstalled.transactionHash == Some(update.transactionHash)
    && replaced.uninstalled.blockNumber == Some(update.blockNumber)
    && replaced.uninstalled.blockTimestamp == update.blockTimestamp
  }

  function OrElse<T>(preferred: Option<T>, other: Option<T>): Option<T> {
    if preferred.Some? then preferred else other
  }

  /** `{ ..._getInheritedProperties(previous, next) }` applied to `next`. */
  function Inherit(previous: Plugin, next: Plugin): Plugin {
    var both := (t: InterfaceType) => next.interfaceType == Some(t) && previous.interfaceType == Some(t);
    var keepsMetadata := next.metadata.None? && previous.metadata.Some?;
    var keepsToken := both(TokenVoting) && next.tokenAddress.None? && previous.tokenAddress.Some?;
    var keepsStages := both(Spp) && next.subPlugins == [] && previous.subPlugins != [];
    var keepsLock := both(LockToVote) && next.lockManagerAddress.None? && previous.lockManagerAddress.Some?;
    next.(
      isBody := previous.isBody,
      isProcess := previous.isProcess,
      isSubPlugin := previous.isSubPlugin,
      parentPlugin := OrElse(previous.parentPlugin, next.parentPlugin),
      isSupported := previous.isSupported,
      stageIndex := OrElse(previous.stageIndex, next.stageIndex),
      metadata := if keepsMetadata then previous.metadata else next.metadata,
      processKey := if keepsMetadata then previous.processKey else next.processKey,
      tokenAddress := if keepsToken || keepsLock then previous.tokenAddress else next.tokenAddress,
      votingEscrow := OrElse(previous.votingEscrow, next.votingEscrow),
      subPlugins := if keepsStages then previous.subPlugins else next.subPlugins,
      totalStages := if keepsStages then previous.totalStages else next.totalStages,
      lockManagerAddress := if keepsLock then previous.lockManagerAddress else next.lockManagerAddress,
      proposalCreationConditionAddress :=
        if GrantsProposals(next.permissions, next.address) then next.proposalCreationConditionAddress
        else previous.proposalCreationConditionAddress,
      conditionAddress := OrElse(previous.conditionAddress, next.conditionAddress))
  }

  /** What stops the repair of one plugin: nothing; an error before anything is written; an error in the creation of a
      replay's row, which the replay swallows; an error after the first write (inside the swap's transaction, or right
      after a replay wrote the new row); one in a replay without a previous row after the slug and before the
      condition. */
  datatype Fault = NoFault | BeforeWrite | CreateFailed | MidWrite | BeforeCondition

  /** Which of the two steps after a repair take effect. The metadata write is only logged when it fails; any other
      error ends the plugin's turn. */
  datatype Rest = Nothing | MetadataOnly | ConditionOnly | Everything

  /** One plugin's turn in a run: what stops its repair, what is read from the chain, whether a replay gets as far as
      writing the latest metadata, and what becomes of the two steps after it. */
  datatype Trial = Trial(fault: Fault, reading: Reading, refreshes: bool, rest: Rest)

  datatype LatestMetadata = LatestMetadata(metadata: Metadata, processKey: Option<string>)

  /** What does not change between runs: the logs, the last fetched metadata of each plugin, and the order in which
      `findOne` meets the rows. */
  datatype World = World(
    log: seq<SetupEvent>,
    permissions: seq<PermissionLog.PermissionEvent>,
    metadata: Contract -> Option<LatestMetadata>,
    rank: RowId -> int)

  /** The row `findOne` yields among those that match. */
  ghost function First(ids: set<RowId>, rank: RowId -> int): (first: RowId)
    requires ids != {}
    ensures first in ids && forall id | id in ids :: rank(first) <= rank(id)
  {
    FirstExists(ids, rank);
    var first :| first in ids && forall id | id in ids :: rank(first) <= rank(id);
    first
  }

  lemma {:induction false} FirstExists(ids: set<RowId>, rank: RowId -> int)
    requires ids != {}
    ensures exists first :: first in ids && forall id | id in ids :: rank(first) <= rank(id)
    decreases |ids|
  {
    var id :| id in ids;
    if ids == {id} {
      assert rank(id) <= rank(id);
    } else {
      FirstExists(ids - {id}, rank);
      var first :| first in ids - {id} && forall o | o in ids - {id} :: rank(first) <= rank(o);
      var least := if rank(id) <= rank(first) then id else first;
      assert least in ids && forall o | o in ids :: rank(least) <= rank(o);
    }
  }

  function InstalledIds(rows: Rows, c: Contract): set<RowId> {
    set id | id in rows && id.contract == c && rows[id].status.Installed?
  }

  ghost function Sole(ids: set<RowId>): (id: RowId)
    requires ids != {}
    ensures id in ids
  {
    var id :| id in ids; id
  }

  datatype Plan = Settled | Ambiguous | Replay(from: RowId) | Swap(from: RowId, next: RowId)

  ghost function PlanFor(rows: Rows, applied: SetupEvent): (plan: Plan)
    ensures plan.Replay? || plan.Swap? ==> InstalledIds(rows, applied.contract) == {plan.from}
  {
    var ids := InstalledIds(rows, applied.contract);
    var next := RowId(applied.contract, applied.transactionHash);
    if |ids| > 1 then Ambiguous
    else if ids == {} then Settled
    else
      var from := Sole(ids);
      OnlyOne(ids, from);
      if from == next then Settled
      else if next in rows then Swap(from, next)
      else Replay(from)
  }

  /** The rows a plan names. */
  lemma PlanIsThere(rows: Rows, applied: SetupEvent)
    ensures var plan, next := PlanFor(rows, applied), RowId(applied.contract, applied.transactionHash);
            && (plan.Swap? || plan.Replay? ==>
                  plan.from in rows && plan.from.contract == applied.contract && plan.from != next)
            && (plan.Swap? ==> plan.next == next && next in rows)
            && (plan.Replay? ==> next !in rows)
  {
    var plan := PlanFor(rows, applied);
    assert plan.Swap? || plan.Replay? ==> plan.from in InstalledIds(rows, applied.contract);
  }

  lemma OnlyOne<T>(s: set<T>, x: T)
    requires x in s
    ensures |s| == 1 <==> s == {x}
    ensures |s| > 1 <==> s != {x}
  {
    assert |s - {x}| == |s| - 1;
    if s != {x} {
      var y :| y in s && y != x;
      assert y in s - {x};
    }
  }

  /** The row is installed, and no other row of its plugin is. */
  ghost predicate IsOnlyInstalled(rows: Rows, id: RowId) {
    && id in rows && rows[id].status.Installed?
    && forall o | o in rows && o != id && o.contract == id.contract :: !rows[o].status.Installed?
  }

  lemma OnlyInstalledExactly(rows: Rows, id: RowId)
    ensures InstalledIds(rows, id.contract) == {id} <==> IsOnlyInstalled(rows, id)
  {
    var ids := InstalledIds(rows, id.contract);
    if ids == {id} {
      assert id in ids;
      forall o | o in rows && o != id && o.contract == id.contract ensures !rows[o].status.Installed? {
        assert o !in ids;
      }
    }
    if IsOnlyInstalled(rows, id) {
      assert id in ids && forall o | o in ids :: o == id;
    }
  }

  function Deprecate(p: Plugin, successor: Plugin): Plugin {
    p.(status := Deprecated, isSupported := false,
       uninstalled := Uninstallation(
         true, Some(successor.blockNumber), successor.blockTimestamp, Some(successor.transactionHash)))
  }

  function Install(p: Plugin): Plugin {
    p.(status := Installed, uninstalled := NOT_UNINSTALLED)
  }

  function Swapped(rows: Rows, from: RowId, next: RowId): Rows
    requires from in rows && next in rows
  {
    rows[from := Deprecate(rows[from], rows[next])][next := Install(Inherit(rows[from], rows[next]))]
  }

  /** The query `updatePlugin` finds the row to deprecate with, on the only installed row. */
  predicate Precedes(previous: Plugin, next: Plugin) {
    && previous.daoAddress == next.daoAddress
    && previous.pluginSetupRepoAddress == next.pluginSetupRepoAddress
    && previous.blockNumber < next.blockNumber
  }

  /** The installed row of the new row's address and DAO that `findOne` yields after a replay without a previous row. */
  ghost function FoundInstalled(rows: Rows, from: RowId, next: RowId, world: World): (found: RowId)
    requires from in rows && next in rows
    ensures found in {from, next}
  {
    if rows[from].daoAddress == rows[next].daoAddress then First({from, next}, world.rank) else next
  }

  /** The condition `recoverConditionAddress` reads for the new row, if any, goes to the row found. */
  ghost function Linked(rows: Rows, from: RowId, next: RowId, world: World): Rows
    requires from in rows && next in rows
  {
    var condition := PermissionLog.LatestCondition(world.permissions, InstallationOf(rows[next]));
    var found := FoundInstalled(rows, from, next, world);
    if condition.None? then rows else rows[found := rows[found].(conditionAddress := condition)]
  }

  /** `updatePlugin`: the new row is written first. The old one is deprecated in a later transaction, or, when the query
      for it finds none, the condition is recovered. */
  ghost function Replayed(rows: Rows, from: RowId, next: RowId, row: Plugin, world: World, fault: Fault): Rows
    requires from in rows && from != next
  {
    if fault.BeforeWrite? || fault.CreateFailed? then rows
    else
      var created := rows[next := row];
      if fault.MidWrite? then created
      else if Precedes(rows[from], row) then Swapped(created, from, next)
      else if fault.BeforeCondition? then created
      else Linked(created, from, next, world)
  }

  /** `fixPlugin` in execute mode for the last applied update of a plugin. */
  ghost function Repair(rows: Rows, applied: SetupEvent, world: World, fault: Fault, reading: Reading): Rows {
    var next := RowId(applied.contract, applied.transactionHash);
    match PlanFor(rows, applied)
    case Settled => rows
    case Ambiguous => rows
    case Swap(from, _) => if fault.BeforeWrite? || fault.MidWrite? then rows else Swapped(rows, from, next)
    case Replay(from) =>
      var prepared := Preparation(world.log, applied);
      if prepared.None? then rows
      else Replayed(rows, from, next, NewRow(applied, prepared.value, reading), world, fault)
  }

  /** The plugin needs a replay, and the update can be replayed. */
  ghost predicate NeedsReplay(rows: Rows, applied: SetupEvent, world: World) {
    PlanFor(rows, applied).Replay? && Preparation(world.log, applied).Some?
  }

  /** And the replay would deprecate its installed row. */
  ghost predicate Replayable(rows: Rows, applied: SetupEvent, world: World) {
    && NeedsReplay(rows, applied, world)
    && var from, prepared := rows[PlanFor(rows, applied).from], Preparation(world.log, applied).value;
       && from.daoAddress == prepared.daoAddress
       && from.pluginSetupRepoAddress == prepared.pluginSetupRepo
       && from.blockNumber < applied.position.blockNumber
  }

  predicate IsWriting(fault: Fault) {
    !fault.BeforeWrite? && !fault.CreateFailed?
  }

  /** A replay writes the new row without deprecating the installed one. */
  ghost predicate AddsSecondInstalled(rows: Rows, applied: SetupEvent, world: World, fault: Fault) {
    && NeedsReplay(rows, applied, world)
    && IsWriting(fault)
    && (fault.MidWrite? || !Replayable(rows, applied, world))
  }

  lemma SwappedInstalledIds(rows: Rows, c: Contract, from: RowId, next: RowId)
    requires from in rows && next in rows && from != next && next.contract == c
    requires InstalledIds(rows, c) <= {from, next}
    ensures InstalledIds(Swapped(rows, from, next), c) == {next}
  {
    forall id ensures id in InstalledIds(Swapped(rows, from, next), c) <==> id == next {
      assert id in InstalledIds(rows, c) ==> id in {from, next};
    }
  }

  /** Everything one step can lead to: nothing changed, the last update's row as the only installed one, or that row
      beside the one installed before. */
  lemma FixedInstalledIds(rows: Rows, applied: SetupEvent, world: World, fault: Fault, reading: Reading)
    ensures var after, c := Repair(rows, applied, world, fault, reading), applied.contract;
            var next := RowId(c, applied.transactionHash);
            if after == rows then true
            else if AddsSecondInstalled(rows, applied, world, fault)
            then InstalledIds(after, c) == InstalledIds(rows, c) + {next} && next !in InstalledIds(rows, c)
            else InstalledIds(after, c) == {next}
  {
    hide NewRow, Inherit, Deprecate, Preparation, FoundInstalled, Linked;
    var plan, prepared := PlanFor(rows, applied), Preparation(world.log, applied);
    var next := RowId(applied.contract, applied.transactionHash);
    if plan.Swap? {
      SwappedInstalledIds(rows, applied.contract, plan.from, next);
    } else if plan.Replay? && prepared.Some? && IsWriting(fault) {
      hide Swapped, Replayed;
      var row := NewRow(applied, prepared.value, reading);
      ReplayedInstalledIds(rows, applied.contract, plan.from, next, row, world, fault);
    }
  }

  lemma ReplayedInstalledIds(
    rows: Rows, c: Contract, from: RowId, next: RowId, row: Plugin, world: World, fault: Fault)
    requires InstalledIds(rows, c) == {from} && next !in rows && next.contract == c
    requires row.status.Installed? && IsWriting(fault)
    requires from in rows && from != next
    ensures InstalledIds(Replayed(rows, from, next, row, world, fault), c) ==
            if !fault.MidWrite? && Precedes(rows[from], row) then {next} else {from, next}
  {
    hide Swapped, Linked, Precedes;
    var created := rows[next := row];
    assert InstalledIds(created, c) == {from, next};
    SwappedInstalledIds(created, c, from, next);
    LinkedInstalledIds(created, c, from, next, world);
  }

  lemma LinkedInstalledIds(rows: Rows, c: Contract, from: RowId, next: RowId, world: World)
    requires from in rows && next in rows
    ensures InstalledIds(Linked(rows, from, next, world), c) == InstalledIds(rows, c)
  {
  }

  /** "At most one installed row" survives a step exactly when the step is no replay that stops half-way or finds no
      row to deprecate. */
  lemma KeepsOneInstalledExactly(rows: Rows, applied: SetupEvent, world: World, fault: Fault, reading: Reading)
    requires |InstalledIds(rows, applied.contract)| <= 1
    ensures |InstalledIds(Repair(rows, applied, world, fault, reading), applied.contract)| <= 1 <==>
            !AddsSecondInstalled(rows, applied, world, fault)
  {
    FixedInstalledIds(rows, applied, world, fault, reading);
  }

  lemma SwappedExactly(rows: Rows, from: RowId, next: RowId)
    requires from in rows && next in rows && from != next
    ensures var after := Swapped(rows, from, next);
            && after.Keys == rows.Keys
            && (forall id | id in rows && id != from && id != next :: after[id] == rows[id])
            && TakesOver(after[next], rows[from], rows[next]) && SamePlace(after[next], rows[next])
            && IsReplacedBy(after[from], rows[from], rows[next])
  {
    InheritExactly(rows[from], rows[next]);
    hide TakesOver, SamePlace, Inherit, Install;
  }

  lemma SamePlaceId(row: Plugin, own: Plugin)
    requires SamePlace(row, own)
    ensures IdOf(row) == IdOf(own)
  {
  }

  /** What a swap leaves: the last update's row is the only installed one and takes over what the row it replaces had,
      that row is deprecated by the update, and no other row changes. */
  lemma SwapResult(rows: Rows, applied: SetupEvent, world: World, reading: Reading)
    requires PlanFor(rows, applied).Swap? && WellKeyed(rows)
    ensures var after, plan := Repair(rows, applied, world, NoFault, reading), PlanFor(rows, applied);
            var was, own := rows[plan.from], rows[plan.next];
            && after.Keys == rows.Keys && WellKeyed(after)
            && (forall id | id in rows && id != plan.from && id != plan.next :: after[id] == rows[id])
            && InstalledIds(after, applied.contract) == {plan.next}
            && plan.next.transactionHash == applied.transactionHash == own.transactionHash
            && TakesOver(after[plan.next], was, own) && SamePlace(after[plan.next], own)
            && IsReplacedBy(after[plan.from], was, own)
  {
    FixedInstalledIds(rows, applied, world, NoFault, reading);
    PlanIsThere(rows, applied);
    var plan, after := PlanFor(rows, applied), Repair(rows, applied, world, NoFault, reading);
    assert IdOf(rows[plan.next]) == plan.next;
    hide TakesOver, SamePlace, Swapped, PlanFor, InstalledIds;
    SwappedExactly(rows, plan.from, plan.next);
    SamePlaceId(after[plan.next], rows[plan.next]);
    forall id | id in after ensures IdOf(after[id]) == id {
      assert id != plan.from && id != plan.next ==> after[id] == rows[id];
    }
  }

  /** A replay that nothing interrupts ends with the last update's row as the only installed one, supported as the
      replaced row was, exactly when the update has one preparation and the installed row is an earlier one of the
      same DAO and setup repository. Otherwise the installed row stays, beside the new one if that was written. */
  lemma ReplaySucceedsExactly(rows: Rows, applied: SetupEvent, world: World, reading: Reading)
    requires PlanFor(rows, applied).Replay?
    ensures var after, plan := Repair(rows, applied, world, NoFault, reading), PlanFor(rows, applied);
            var next := RowId(applied.contract, applied.transactionHash);
            var prepared := Preparation(world.log, applied);
            && (prepared.None? ==> after == rows)
            && (IsOnlyInstalled(after, next) <==>
                  && prepared.Some? && rows[plan.from].daoAddress == prepared.value.daoAddress
                  && rows[plan.from].pluginSetupRepoAddress == prepared.value.pluginSetupRepo
                  && rows[plan.from].blockNumber < applied.position.blockNumber)
            && (IsOnlyInstalled(after, next) ==> after[next].isSupported == rows[plan.from].isSupported)
            && (!IsOnlyInstalled(after, next) ==> plan.from in after && after[plan.from].status.Installed?)
  {
    FixedInstalledIds(rows, applied, world, NoFault, reading);
    PlanIsThere(rows, applied);
    var after, from := Repair(rows, applied, world, NoFault, reading), PlanFor(rows, applied).from;
    var next := RowId(applied.contract, applied.transactionHash);
    OnlyInstalledExactly(after, next);
    assert from in InstalledIds(rows, applied.contract);
    assert from in InstalledIds(after, applied.contract) <==> from in after && after[from].status.Installed?;
    hide NewRow, Inherit;
  }

  /** What a replay that finds its previous row leaves: one more row, the only installed one, at the update's place,
      which takes over what the replaced row had; that row is deprecated by the update. */
  lemma ReplayResult(rows: Rows, applied: SetupEvent, world: World, reading: Reading)
    requires Replayable(rows, applied, world)
    ensures var after, from := Repair(rows, applied, world, NoFault, reading), PlanFor(rows, applied).from;
            var next := RowId(applied.contract, applied.transactionHash);
            var own := NewRow(applied, Preparation(world.log, applied).value, reading);
            && after.Keys == rows.Keys + {next} && next !in rows
            && (forall id | id in rows && id != from :: after[id] == rows[id])
            && InstalledIds(after, applied.contract) == {next}
            && IdOf(after[next]) == next
            && TakesOver(after[next], rows[from], own) && SamePlace(after[next], own)
            && IsReplacedBy(after[from], rows[from], own)
  {
    FixedInstalledIds(rows, applied, world, NoFault, reading);
    PlanIsThere(rows, applied);
    var own, from := NewRow(applied, Preparation(world.log, applied).value, reading), PlanFor(rows, applied).from;
    hide NewRow, TakesOver, SamePlace, IsReplacedBy, Swapped, PlanFor, InstalledIds;
    SwappedExactly(rows[IdOf(own) := own], from, IdOf(own));
    SamePlaceId(Repair(rows, applied, world, NoFault, reading)[IdOf(own)], own);
  }

  /** What a replay that finds no previous row leaves: the row installed before and the new one, both installed, and the
      condition the new row's newest EXECUTE event grants on the one of them `findOne` meets first, if the old one is of
      the same DAO. */
  lemma UnmatchedReplayResult(rows: Rows, applied: SetupEvent, world: World, reading: Reading)
    requires NeedsReplay(rows, applied, world) && !Replayable(rows, applied, world)
    requires world.rank(PlanFor(rows, applied).from) != world.rank(RowId(applied.contract, applied.transactionHash))
    ensures var after, from := Repair(rows, applied, world, NoFault, reading), PlanFor(rows, applied).from;
            var next := RowId(applied.contract, applied.transactionHash);
            var own := NewRow(applied, Preparation(world.log, applied).value, reading);
            var found := if rows[from].daoAddress == own.daoAddress && world.rank(from) < world.rank(next)
                         then from else next;
            var granted := PermissionLog.LatestCondition(
                             world.permissions, Installation(own.network, own.daoAddress, own.address));
            var created := rows[next := own];
            after == if granted.None? then created
                     else created[found := created[found].(conditionAddress := granted)]
  {
    PlanIsThere(rows, applied);
    var own := NewRow(applied, Preparation(world.log, applied).value, reading);
    assert InstallationOf(own) == Installation(own.network, own.daoAddress, own.address);
    hide NewRow, PlanFor, Swapped, PermissionLog.LatestCondition;
  }

  /** The plan in the fields of the rows. */
  lemma PlanExactly(rows: Rows, applied: SetupEvent)
    ensures var plan, c := PlanFor(rows, applied), applied.contract;
            var next := RowId(c, applied.transactionHash);
            && (plan.Ambiguous? <==>
                  exists a, b :: a in rows && b in rows && a != b && a.contract == b.contract == c
                                 && rows[a].status.Installed? && rows[b].status.Installed?)
            && (plan.Swap? || plan.Replay? <==>
                  exists from :: from in rows && from.contract == c && from != next && IsOnlyInstalled(rows, from))
            && (plan.Swap? ==> IsOnlyInstalled(rows, plan.from) && plan.next == next && next in rows)
            && (plan.Replay? ==> IsOnlyInstalled(rows, plan.from) && next !in rows)
  {
    var c, ids := applied.contract, InstalledIds(rows, applied.contract);
    forall id: RowId | id.contract == c ensures ids == {id} <==> IsOnlyInstalled(rows, id) {
      OnlyInstalledExactly(rows, id);
    }
    if ids != {} {
      var sole := Sole(ids);
      OnlyOne(ids, sole);
      assert ids != {sole} ==> exists other :: other in ids && other != sole;
    }
    hide IsOnlyInstalled;
  }

  /** A plugin with nothing to do, or with several installed rows, is left alone by every repair. */
  lemma StaysPut(rows: Rows, applied: SetupEvent, world: World, fault: Fault, reading: Reading)
    requires |InstalledIds(rows, applied.contract)| != 1
             || RowId(applied.contract, applied.transactionHash) in InstalledIds(rows, applied.contract)
    ensures !PlanFor(rows, applied).Replay? && !PlanFor(rows, applied).Swap?
    ensures Repair(rows, applied, world, fault, reading) == rows
  {
    var ids := InstalledIds(rows, applied.contract);
    if ids != {} {
      OnlyOne(ids, Sole(ids));
    }
  }

  /** After a repair that changed something there is nothing left to repair. */
  lemma ChangesOnce(rows: Rows, applied: SetupEvent, world: World, fault: Fault, reading: Reading)
    requires Repair(rows, applied, world, fault, reading) != rows
    ensures var after := Repair(rows, applied, world, fault, reading);
            !PlanFor(after, applied).Replay? && !PlanFor(after, applied).Swap?
  {
    FixedInstalledIds(rows, applied, world, fault, reading);
    StaysPut(Repair(rows, applied, world, fault, reading), applied, world, fault, reading);
  }

  lemma ReplayWrites(rows: Rows, applied: SetupEvent, world: World, fault: Fault, reading: Reading)
    requires NeedsReplay(rows, applied, world) && IsWriting(fault)
    ensures Repair(rows, applied, world, fault, reading) != rows
  {
    var next := RowId(applied.contract, applied.transactionHash);
    assert next !in rows && next in Repair(rows, applied, world, fault, reading);
  }

  lemma SwapWrites(rows: Rows, applied: SetupEvent, world: World, fault: Fault, reading: Reading)
    requires PlanFor(rows, applied).Swap? && !fault.BeforeWrite? && !fault.MidWrite?
    ensures Repair(rows, applied, world, fault, reading) != rows
  {
    var from := PlanFor(rows, applied).from;
    assert from in InstalledIds(rows, applied.contract);
    assert Repair(rows, applied, world, fault, reading)[from].status.Deprecated?;
  }
}
