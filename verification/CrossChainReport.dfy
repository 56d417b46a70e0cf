/** The report of the cross-chain backfill: which SPPs stand on the controller DAOs, and what the recovery left them. */
module CrossChainReport {
  import opened Keys
  import opened Chronology
  import opened Plugins
  import opened PermissionLog
  import opened ConditionRecovery
  import opened CrossChainBackfill
  import opened Counting

  predicate IsInstalled(p: Plugin, t: InterfaceType) {
    p.status.Installed? && p.interfaceType == Some(t)
  }

  predicate SharesDao(p: Plugin, q: Plugin) {
    p.network == q.network && p.daoAddress == q.daoAddress
  }

  /** An installed SPP on a DAO that hosts one of the controllers. */
  ghost predicate IsControlledSpp(p: Plugin, controllers: seq<Plugin>) {
    IsInstalled(p, Spp) && OnOneOf(controllers, p)
  }

  /** The positions of the matching documents, in stored order. */
  method FindPositions(rows: seq<Plugin>, wanted: Plugin -> bool) returns (found: seq<nat>)
    ensures NoRepeats(found)
    ensures forall n :: n in found <==> 0 <= n < |rows| && wanted(rows[n])
  {
    found := [];
    for n := 0 to |rows|
      invariant NoRepeats(found)
      invariant forall m :: m in found <==> 0 <= m < n && wanted(rows[m])
    {
      if wanted(rows[n]) {
        found := found + [n];
      }
    }
  }

  /** The distinct DAOs of the controllers, through a map keyed by `network:dao`. */
  method ControllerDaos(controllers: seq<Plugin>) returns (daos: seq<Plugin>)
    ensures forall d | d in daos :: d in controllers
    ensures forall c | c in controllers :: exists d :: d in daos && SharesDao(d, c)
    ensures forall a, b | 0 <= a < b < |daos| :: !SharesDao(daos[a], daos[b])
  {
    hide DaoKeyOf;
    var byKey: map<string, Plugin>, order: seq<string> := map[], [];
    for n := 0 to |controllers|
      invariant forall k :: k in order <==> k in byKey
      invariant NoRepeats(order)
      invariant forall k | k in byKey :: byKey[k] in controllers && DaoKeyOf(byKey[k]) == k
      invariant forall m | 0 <= m < n :: DaoKeyOf(controllers[m]) in byKey
    {
      var k := DaoKeyOf(controllers[n]);
      order := if k in byKey then order else order + [k];
      byKey := byKey[k := controllers[n]];
    }
    daos := seq(|order|, n requires 0 <= n < |order| && order[n] in byKey => byKey[order[n]]);
    DaosByKey(controllers, byKey, order, daos);
  }

  lemma DaosByKey(controllers: seq<Plugin>, byKey: map<string, Plugin>, order: seq<string>, daos: seq<Plugin>)
    requires NoRepeats(order) && forall k :: k in order <==> k in byKey
    requires forall k | k in byKey :: DaoKeyOf(byKey[k]) == k
    requires forall m | 0 <= m < |controllers| :: DaoKeyOf(controllers[m]) in byKey
    requires |daos| == |order| && forall n | 0 <= n < |order| :: daos[n] == byKey[order[n]]
    ensures forall c | c in controllers :: exists d :: d in daos && SharesDao(d, c)
    ensures forall a, b | 0 <= a < b < |daos| :: !SharesDao(daos[a], daos[b])
  {
    forall c | c in controllers ensures exists d :: d in daos && SharesDao(d, c) {
      var n :| 0 <= n < |order| && order[n] == DaoKeyOf(c);
      DaoKeyNames(daos[n], c);
    }
    forall a, b | 0 <= a < b < |daos| ensures !SharesDao(daos[a], daos[b]) {
      DaoKeyNames(daos[a], daos[b]);
    }
  }

  function DaoKeyOf(p: Plugin): string {
    DaoKey(p.network, p.daoAddress)
  }

  lemma DaoKeyNames(p: Plugin, q: Plugin)
    ensures DaoKeyOf(p) == DaoKeyOf(q) <==> SharesDao(p, q)
  {
    if DaoKeyOf(p) == DaoKeyOf(q) {
      JoinInjective(p.network, p.daoAddress, q.network, q.daoAddress, ':');
    }
  }

  ghost predicate OnOneOf(daos: seq<Plugin>, p: Plugin) {
    exists d :: d in daos && SharesDao(d, p)
  }

  lemma ControllerDaosCover(controllers: seq<Plugin>, daos: seq<Plugin>, p: Plugin)
    requires forall d | d in daos :: d in controllers
    requires forall c | c in controllers :: exists d :: d in daos && SharesDao(d, c)
    ensures OnOneOf(controllers, p) <==> OnOneOf(daos, p)
  {
    if c :| c in controllers && SharesDao(c, p) {
      var d :| d in daos && SharesDao(d, c);
      assert SharesDao(d, p);
    }
  }

  /** Each installed SPP on a controller DAO exactly once and nothing else, however many controllers share a DAO. */
  method CollectSpps(rows: seq<Plugin>, controllers: seq<Plugin>) returns (spps: seq<nat>)
    ensures NoRepeats(spps)
    ensures forall n :: n in spps <==> 0 <= n < |rows| && IsControlledSpp(rows[n], controllers)
  {
    var daos := ControllerDaos(controllers);
    spps := [];
    for n := 0 to |daos|
      invariant NoRepeats(spps)
      invariant forall m :: m in spps <==> 0 <= m < |rows| && IsInstalled(rows[m], Spp) && OnOneOf(daos[..n], rows[m])
    {
      var found := FindPositions(rows, (p: Plugin) => IsInstalled(p, Spp) && SharesDao(daos[n], p));
      forall p: Plugin
        ensures OnOneOf(daos[..n + 1], p) <==> OnOneOf(daos[..n], p) || SharesDao(daos[n], p)
        ensures !(OnOneOf(daos[..n], p) && SharesDao(daos[n], p))
      {
        OneMoreDao(daos, n, p);
      }
      Appended(spps, found);
      spps := spps + found;
    }
    assert daos[..|daos|] == daos;
    forall p: Plugin ensures OnOneOf(controllers, p) <==> OnOneOf(daos, p) {
      ControllerDaosCover(controllers, daos, p);
    }
  }

  lemma OneMoreDao(daos: seq<Plugin>, n: nat, p: Plugin)
    requires n < |daos| && forall a, b | 0 <= a < b < |daos| :: !SharesDao(daos[a], daos[b])
    ensures OnOneOf(daos[..n + 1], p) <==> OnOneOf(daos[..n], p) || SharesDao(daos[n], p)
    ensures !(OnOneOf(daos[..n], p) && SharesDao(daos[n], p))
  {
    assert daos[..n + 1] == daos[..n] + [daos[n]];
    if SharesDao(daos[n], p) {
      assert daos[n] in daos[..n + 1];
    }
  }

  datatype Report = Report(
    controllersRecoverable: nat, sppsWithCondition: nat, sppsWithoutCondition: nat, sppsRecoverable: nat)

  function IsRecoverable(log: seq<PermissionEvent>): Plugin -> bool {
    (p: Plugin) => Recoverable(log, p)
  }

  function RecoverableAt(log: seq<PermissionEvent>, rows: seq<Plugin>): nat -> bool {
    (n: nat) => n < |rows| && Recoverable(log, rows[n])
  }

  function LinkedAt(rows: seq<Plugin>): nat -> bool {
    (n: nat) => n < |rows| && rows[n].conditionAddress.Some?
  }

  function UnlinkedAt(rows: seq<Plugin>): nat -> bool {
    (n: nat) => n < |rows| && rows[n].conditionAddress.None?
  }

  /** The controllers are the documents as they were read, the SPPs are positions in the collection. */
  method ReportConditions(
    log: seq<PermissionEvent>, controllers: seq<Plugin>, rows: seq<Plugin>, spps: seq<nat>) returns (report: Report)
    requires forall n | n in spps :: n < |rows|
    ensures report.controllersRecoverable == Tally(controllers, IsRecoverable(log))
    ensures report.sppsRecoverable == Tally(spps, RecoverableAt(log, rows))
    ensures report.sppsWithCondition == Tally(spps, LinkedAt(rows))
    ensures report.sppsWithoutCondition == Tally(spps, UnlinkedAt(rows))
    ensures report.sppsWithCondition + report.sppsWithoutCondition == |spps|
  {
    report := Report(0, 0, 0, 0);
    for n := 0 to |controllers|
      invariant report == Report(Tally(controllers[..n], IsRecoverable(log)), 0, 0, 0)
    {
      if Recoverable(log, controllers[n]) {
        report := report.(controllersRecoverable := report.controllersRecoverable + 1);
      }
      assert controllers[..n + 1][..n] == controllers[..n];
    }
    assert controllers[..|controllers|] == controllers;
    report := ReportSpps(log, rows, spps, report.controllersRecoverable);
  }

  method ReportSpps(log: seq<PermissionEvent>, rows: seq<Plugin>, spps: seq<nat>, controllers: nat)
    returns (report: Report)
    requires forall n | n in spps :: n < |rows|
    ensures report.controllersRecoverable == controllers
    ensures report.sppsRecoverable == Tally(spps, RecoverableAt(log, rows))
    ensures report.sppsWithCondition == Tally(spps, LinkedAt(rows))
    ensures report.sppsWithoutCondition == Tally(spps, UnlinkedAt(rows))
    ensures report.sppsWithCondition + report.sppsWithoutCondition == |spps|
  {
    report := Report(controllers, 0, 0, 0);
    for n := 0 to |spps|
      invariant report.controllersRecoverable == controllers
      invariant report.sppsRecoverable == Tally(spps[..n], RecoverableAt(log, rows))
      invariant report.sppsWithCondition == Tally(spps[..n], LinkedAt(rows))
      invariant report.sppsWithoutCondition == Tally(spps[..n], UnlinkedAt(rows))
      invariant report.sppsWithCondition + report.sppsWithoutCondition == n
    {
      var spp := spps[n];
      assert spp in spps;
      if rows[spp].conditionAddress.Some? {
        report := report.(sppsWithCondition := report.sppsWithCondition + 1);
      } else {
        report := report.(sppsWithoutCondition := report.sppsWithoutCondition + 1);
      }
      if Recoverable(log, rows[spp]) {
        report := report.(sppsRecoverable := report.sppsRecoverable + 1);
      }
      assert spps[..n + 1][..n] == spps[..n];
    }
    assert spps[..|spps|] == spps;
  }

  /** The rows a write of the recovery can still have missed. */
  function MissedAt(log: seq<PermissionEvent>, rows: seq<Plugin>): nat -> bool {
    (n: nat) => n < |rows| && Recoverable(log, rows[n]) && !LinkReaches(rows, n)
  }

  function IsControllerIn(scope: Option<Network>): Plugin -> bool {
    (p: Plugin) => IsInstalled(p, CrossChainController) && InScope(scope, p.network)
  }

  // ---- the same in the fields of the documents ----

  ghost predicate IsControllerRow(p: Plugin, scope: Option<Network>) {
    && p.status.Installed? && p.interfaceType == Some(CrossChainController)
    && (scope.None? || scope == Some(p.network))
  }

  /** An installed SPP, on the DAO of an installed controller of the scope. */
  ghost predicate IsReportedSpp(p: Plugin, rows: seq<Plugin>, scope: Option<Network>) {
    && p.status.Installed? && p.interfaceType == Some(Spp)
    && exists c :: c in rows && IsControllerRow(c, scope) && c.network == p.network && c.daoAddress == p.daoAddress
  }

  /** The row has no condition, and the newest EXECUTE event on its plugin grants one. */
  ghost predicate LacksItsCondition(log: seq<PermissionEvent>, p: Plugin) {
    && p.conditionAddress.None?
    && exists e :: IsNewestAbout(log, Installation(p.network, p.daoAddress, p.address), e)
                   && e.granted && e.conditionAddress.Some?
  }

  /** The row is its plugin's first installed one, and the plugin's first row has no condition. */
  ghost predicate IsReached(rows: seq<Plugin>, n: int) {
    && 0 <= n < |rows|
    && var i := Installation(rows[n].network, rows[n].daoAddress, rows[n].address);
       IsFirstRow(rows, i, n, true) && FirstStores(rows, i, None)
  }

  lemma RecoverableExactly(log: seq<PermissionEvent>, p: Plugin)
    requires PositionsUnique(log)
    ensures Recoverable(log, p) <==> LacksItsCondition(log, p)
  {
    var i := Installation(p.network, p.daoAddress, p.address);
    if Recoverable(log, p) {
      NewestExecuteExactly(log, i, NewestExecute(log, i).value);
    }
    if e :| IsNewestAbout(log, i, e) && e.granted && e.conditionAddress.Some? {
      NewestExecuteExactly(log, i, e);
    }
  }

  lemma LinkReachesExactly(rows: seq<Plugin>, n: nat)
    requires n < |rows|
    ensures LinkReaches(rows, n) <==> IsReached(rows, n)
  {
    var i := InstallationOf(rows[n]);
    FindRowExactly(rows, i, true);
    FindRowExactly(rows, i, false);
    hide FindRow, IsFirstRow;
  }

  /** What the report counts: its SPPs, those of them that lack their condition (`missed` when the recovery was
      applied: those it did not reach), those that have one, and the controllers that lack theirs. */
  ghost predicate IsReport(
    report: Report, spps: seq<nat>, rows: seq<Plugin>, after: seq<Plugin>, log: seq<PermissionEvent>,
    scope: Option<Network>, execute: bool)
    requires |after| == |rows|
  {
    && NoRepeats(spps)
    && (forall n :: n in spps <==> 0 <= n < |rows| && IsReportedSpp(rows[n], rows, scope))
    && report.sppsRecoverable ==
       |set n | n in spps && n < |rows| && LacksItsCondition(log, rows[n]) && !(execute && IsReached(rows, n))|
    && report.sppsWithCondition == |set n | n in spps && n < |after| && after[n].conditionAddress.Some?|
    && report.sppsWithoutCondition == |set n | n in spps && n < |after| && after[n].conditionAddress.None?|
    && report.controllersRecoverable ==
       |set n: nat | n < |rows| && IsControllerRow(rows[n], scope) && LacksItsCondition(log, rows[n])|
  }

  /** Reads the controllers, recovers the conditions, then reports on the rows as they are afterwards. The SPPs it
      still calls recoverable after an applied run are exactly those that were recoverable and whose plugin the
      recovery's write missed. */
  method RecoverAndReport(
    plugins: PluginCollection, log: seq<PermissionEvent>, ascending: seq<PermissionEvent>,
    scope: Option<Network>, execute: bool)
    returns (counters: Counters, report: Report, spps: seq<nat>)
    requires PositionsUnique(log) && Ascending(ascending, Select(log, Execute(scope)), At)
    modifies plugins
    ensures counters == CountersOf(Verdicts(old(plugins.rows), LastWrites(ascending)))
    ensures plugins.rows == if execute then Recovered(old(plugins.rows), LastWrites(ascending)) else old(plugins.rows)
    ensures NoRepeats(spps)
    ensures forall n :: n in spps <==>
              0 <= n < |old(plugins.rows)|
              && IsControlledSpp(old(plugins.rows)[n], Select(old(plugins.rows), IsControllerIn(scope)))
    ensures report.sppsRecoverable ==
            Tally(spps, if execute then MissedAt(log, old(plugins.rows)) else RecoverableAt(log, old(plugins.rows)))
    ensures report.sppsWithCondition == Tally(spps, LinkedAt(plugins.rows))
    ensures report.sppsWithCondition + report.sppsWithoutCondition == |spps|
    ensures report.controllersRecoverable ==
            Tally(Select(old(plugins.rows), IsControllerIn(scope)), IsRecoverable(log))
    ensures AreTheCounts(counters, old(plugins.rows), ascending)
    ensures |plugins.rows| == |old(plugins.rows)|
            && IsReport(report, spps, old(plugins.rows), plugins.rows, log, scope, execute)
  {
    var controllers := Select(plugins.rows, IsControllerIn(scope));
    var _, recovery := RecoverConditionAddresses(plugins, ascending, execute);
    counters := recovery;
    spps := CollectSpps(plugins.rows, controllers);
    report := ReportConditions(log, controllers, plugins.rows, spps);
    if execute {
      AfterRecovery(old(plugins.rows), log, ascending, scope, controllers, spps);
    }
    ReportExactly(report, spps, old(plugins.rows), plugins.rows, log, scope, execute);
  }

  lemma ReportExactly(
    report: Report, spps: seq<nat>, rows: seq<Plugin>, after: seq<Plugin>, log: seq<PermissionEvent>,
    scope: Option<Network>, execute: bool)
    requires PositionsUnique(log) && NoRepeats(spps) && |after| == |rows|
    requires forall n :: n in spps <==>
               0 <= n < |rows| && IsControlledSpp(rows[n], Select(rows, IsControllerIn(scope)))
    requires report.sppsRecoverable == Tally(spps, if execute then MissedAt(log, rows) else RecoverableAt(log, rows))
    requires report.sppsWithCondition == Tally(spps, LinkedAt(after))
    requires report.sppsWithoutCondition == Tally(spps, UnlinkedAt(after))
    requires report.controllersRecoverable == Tally(Select(rows, IsControllerIn(scope)), IsRecoverable(log))
    ensures IsReport(report, spps, rows, after, log, scope, execute)
  {
    forall n | 0 <= n < |rows|
      ensures IsControlledSpp(rows[n], Select(rows, IsControllerIn(scope))) <==> IsReportedSpp(rows[n], rows, scope)
    {
      ControlledExactly(rows[n], rows, scope);
    }
    RecoverableCount(spps, rows, log, execute);
    ConditionCounts(spps, after);
    ControllersCount(rows, log, scope);
    hide Tally, LacksItsCondition, IsReached, IsControlledSpp, IsReportedSpp, IsControllerRow, Select;
  }

  lemma RecoverableCount(spps: seq<nat>, rows: seq<Plugin>, log: seq<PermissionEvent>, execute: bool)
    requires PositionsUnique(log) && NoRepeats(spps)
    ensures Tally(spps, if execute then MissedAt(log, rows) else RecoverableAt(log, rows)) ==
            |set n | n in spps && n < |rows| && LacksItsCondition(log, rows[n]) && !(execute && IsReached(rows, n))|
  {
    var counted := if execute then MissedAt(log, rows) else RecoverableAt(log, rows);
    forall n: nat
      ensures counted(n) <==> n < |rows| && LacksItsCondition(log, rows[n]) && !(execute && IsReached(rows, n))
    {
      if n < |rows| {
        RecoverableExactly(log, rows[n]);
        LinkReachesExactly(rows, n);
      }
    }
    hide LacksItsCondition, IsReached, Tally;
    TallyOfDistinct<nat>(
      spps, counted,
      set n | n in spps && n < |rows| && LacksItsCondition(log, rows[n]) && !(execute && IsReached(rows, n)));
  }

  lemma ConditionCounts(spps: seq<nat>, after: seq<Plugin>)
    requires NoRepeats(spps)
    ensures Tally(spps, LinkedAt(after)) == |set n | n in spps && n < |after| && after[n].conditionAddress.Some?|
    ensures Tally(spps, UnlinkedAt(after)) == |set n | n in spps && n < |after| && after[n].conditionAddress.None?|
  {
    hide Tally;
    TallyOfDistinct<nat>(spps, LinkedAt(after), set n | n in spps && n < |after| && after[n].conditionAddress.Some?);
    TallyOfDistinct<nat>(spps, UnlinkedAt(after), set n | n in spps && n < |after| && after[n].conditionAddress.None?);
  }

  lemma ControlledExactly(p: Plugin, rows: seq<Plugin>, scope: Option<Network>)
    ensures IsControlledSpp(p, Select(rows, IsControllerIn(scope))) <==> IsReportedSpp(p, rows, scope)
  {
    var controllers := Select(rows, IsControllerIn(scope));
    if c :| c in rows && IsControllerRow(c, scope) && c.network == p.network && c.daoAddress == p.daoAddress {
      assert c in controllers && SharesDao(c, p);
    }
  }

  function IsOpenController(log: seq<PermissionEvent>, scope: Option<Network>): Plugin -> bool {
    (p: Plugin) => IsInstalled(p, CrossChainController) && InScope(scope, p.network) && Recoverable(log, p)
  }

  lemma OpenControllerExactly(log: seq<PermissionEvent>, scope: Option<Network>, p: Plugin)
    requires PositionsUnique(log)
    ensures IsOpenController(log, scope)(p) <==> IsControllerRow(p, scope) && LacksItsCondition(log, p)
  {
    RecoverableExactly(log, p);
  }

  lemma OpenControllersCount(rows: seq<Plugin>, log: seq<PermissionEvent>, scope: Option<Network>)
    requires PositionsUnique(log)
    ensures Tally(rows, IsOpenController(log, scope)) ==
            |set n: nat | n < |rows| && IsControllerRow(rows[n], scope) && LacksItsCondition(log, rows[n])|
  {
    hide *;
    var positions := set n: nat | n < |rows| && IsControllerRow(rows[n], scope) && LacksItsCondition(log, rows[n]);
    forall n: nat ensures n in positions <==> n < |rows| && IsOpenController(log, scope)(rows[n]) {
      if n < |rows| {
        OpenControllerExactly(log, scope, rows[n]);
      }
    }
    TallyIsSize(rows, IsOpenController(log, scope), positions);
  }

  lemma ControllersCount(rows: seq<Plugin>, log: seq<PermissionEvent>, scope: Option<Network>)
    requires PositionsUnique(log)
    ensures Tally(Select(rows, IsControllerIn(scope)), IsRecoverable(log)) ==
            |set n: nat | n < |rows| && IsControllerRow(rows[n], scope) && LacksItsCondition(log, rows[n])|
  {
    OpenControllersCount(rows, log, scope);
    hide Tally, Select, Recoverable, IsControllerRow, LacksItsCondition, PositionsUnique;
    TallyOfSelected(rows, IsControllerIn(scope), IsRecoverable(log), IsOpenController(log, scope));
  }

  lemma {:induction false} TallyOfSelected<T(!new)>(
    rows: seq<T>, wanted: T -> bool, counted: T -> bool, both: T -> bool)
    requires forall r | r in rows :: both(r) <==> wanted(r) && counted(r)
    ensures Tally(Select(rows, wanted), counted) == Tally(rows, both)
  {
    if rows != [] {
      var last := |rows| - 1;
      var init := Select(rows[..last], wanted);
      assert rows[..last + 1] == rows && init + [] == init && forall r | r in rows[..last] :: r in rows;
      SelectNext(rows, last, wanted);
      TallyOfSelected(rows[..last], wanted, counted, both);
      var selected := Select(rows, wanted);
      hide Select;
      if wanted(rows[last]) {
        assert selected == init + [rows[last]];
        assert selected[..|selected| - 1] == init;
      }
    }
  }

  lemma AfterRecovery(
    rows: seq<Plugin>, log: seq<PermissionEvent>, ascending: seq<PermissionEvent>, scope: Option<Network>,
    controllers: seq<Plugin>, spps: seq<nat>)
    requires PositionsUnique(log) && Ascending(ascending, Select(log, Execute(scope)), At)
    requires forall c | c in controllers :: InScope(scope, c.network)
    requires var after := Recovered(rows, LastWrites(ascending));
             forall n :: n in spps <==> 0 <= n < |after| && IsControlledSpp(after[n], controllers)
    ensures forall n :: n in spps <==> 0 <= n < |rows| && IsControlledSpp(rows[n], controllers)
    ensures Tally(spps, RecoverableAt(log, Recovered(rows, LastWrites(ascending)))) == Tally(spps, MissedAt(log, rows))
  {
    var newest := LastWrites(ascending);
    var after := Recovered(rows, newest);
    forall i: Installation | InScope(scope, i.network)
      ensures NewestExecute(log, i) == if i in newest then Some(newest[i]) else None
    {
      FoldFindsNewest(log, scope, ascending, i);
    }
    forall n | 0 <= n < |rows|
      ensures IsControlledSpp(after[n], controllers) <==> IsControlledSpp(rows[n], controllers)
    {
      SameDao(rows[n], after[n], controllers);
    }
    forall n | n in spps ensures RecoverableAt(log, after)(n) == MissedAt(log, rows)(n) {
      StillRecoverable(rows, newest, log, scope, n);
    }
    TallyAgrees(spps, RecoverableAt(log, after), MissedAt(log, rows));
  }

  lemma SameDao(p: Plugin, q: Plugin, controllers: seq<Plugin>)
    requires p.network == q.network && p.daoAddress == q.daoAddress
    requires p.status == q.status && p.interfaceType == q.interfaceType
    ensures IsControlledSpp(p, controllers) <==> IsControlledSpp(q, controllers)
  {
    if c :| c in controllers && SharesDao(c, p) {
      assert SharesDao(c, q);
    }
    if c :| c in controllers && SharesDao(c, q) {
      assert SharesDao(c, p);
    }
  }

  /** No SPP is left recoverable exactly when the write of every recoverable one reaches its row. */
  lemma NothingLeftExactly(log: seq<PermissionEvent>, rows: seq<Plugin>, spps: seq<nat>)
    requires forall n | n in spps :: n < |rows|
    ensures Tally(spps, MissedAt(log, rows)) == 0 <==>
            forall n | n in spps && Recoverable(log, rows[n]) :: LinkReaches(rows, n)
  {
    TallyZero(spps, MissedAt(log, rows));
  }

  /** One row per plugin is enough. */
  lemma NothingLeft(log: seq<PermissionEvent>, rows: seq<Plugin>, spps: seq<nat>)
    requires OneRowPerPlugin(rows)
    requires forall n | n in spps :: n < |rows| && rows[n].status.Installed?
    ensures Tally(spps, MissedAt(log, rows)) == 0
  {
    NothingLeftExactly(log, rows, spps);
    forall n | n in spps && Recoverable(log, rows[n]) ensures LinkReaches(rows, n) {
      OnlyRowIsReached(rows, n);
    }
  }
}
