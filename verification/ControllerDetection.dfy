/** The step before the recovery: plugins found to be cross-chain controllers are promoted, and every controller's
    condition is set from its newest EXECUTE grant. */
module ControllerDetection {
  import opened Keys
  import opened Chronology
  import opened Plugins
  import opened PermissionLog
  import opened ConditionRecovery
  import opened CrossChainBackfill
  import opened Counting
  import opened Slugs

  predicate IsCandidate(scope: Option<Network>, p: Plugin) {
    && InScope(scope, p.network)
    && p.status.Installed?
    && (p.interfaceType.None? || p.interfaceType.value in {Unknown, CrossChainController})
  }

  function Promote(p: Plugin, implementation: Option<Address>): Plugin {
    p.(interfaceType := Some(CrossChainController),
       implementationAddress := if implementation.Some? then implementation else p.implementationAddress,
       isProcess := false, isBody := false, isSubPlugin := false)
  }

  /** What the calls for the candidates come to: whose bytecode shows a controller and behind which implementation,
      whose promotion takes effect, and whose condition write does; a lost promotion skips its candidate, a lost
      condition write is only logged. */
  datatype Probe = Probe(
    detected: set<nat>, implementation: nat -> Option<Address>, updated: set<nat>, linked: set<nat>)

  /** Row `n`, below `bound`, is promoted. */
  predicate IsPromoted(rows: seq<Plugin>, scope: Option<Network>, probe: Probe, bound: nat, n: nat) {
    n < bound && IsDetected(rows, scope, probe, n) && n in probe.updated
  }

  predicate IsDetected(rows: seq<Plugin>, scope: Option<Network>, probe: Probe, n: nat) {
    && n < |rows|
    && IsCandidate(scope, rows[n])
    && rows[n].interfaceType != Some(CrossChainController)
    && n in probe.detected
  }

  /** The condition of row `n`, below `bound`, is written: it is a controller's, or promoted. */
  predicate IsRepaired(rows: seq<Plugin>, scope: Option<Network>, probe: Probe, bound: nat, n: nat) {
    && n < |rows| && n < bound && n in probe.linked
    && IsCandidate(scope, rows[n])
    && (rows[n].interfaceType == Some(CrossChainController) || IsPromoted(rows, scope, probe, bound, n))
  }

  ghost predicate IsRepairedPlugin(
    rows: seq<Plugin>, scope: Option<Network>, probe: Probe, bound: nat, i: Installation)
  {
    exists m: nat :: IsRepaired(rows, scope, probe, bound, m) && InstallationOf(rows[m]) == i
  }

  function Typed(p: Plugin, promoted: bool, implementation: Option<Address>): Plugin {
    if promoted then Promote(p, implementation) else p
  }

  /** The plugins of the candidates below `bound` that are given a slug, as they are then. */
  function Served(rows: seq<Plugin>, scope: Option<Network>, probe: Probe, bound: nat): seq<Plugin>
    requires bound <= |rows|
  {
    if bound == 0 then []
    else
      var n := bound - 1;
      var promoted := IsPromoted(rows, scope, probe, bound, n);
      Served(rows, scope, probe, n)
      + if promoted || (IsCandidate(scope, rows[n]) && rows[n].interfaceType == Some(CrossChainController))
        then [Typed(rows[n], promoted, probe.implementation(n))] else []
  }

  function OwnKey(p: Plugin): Option<string> { p.processKey }

  function Conditioned(p: Plugin, repaired: bool, condition: Option<Address>): Plugin {
    if repaired && condition.Some? then p.(conditionAddress := condition) else p
  }

  /** Row `n` after the candidates below `bound`. */
  ghost function DetectedRow(
    rows: seq<Plugin>, log: seq<PermissionEvent>, scope: Option<Network>, probe: Probe, bound: nat, n: nat): Plugin
    requires n < |rows|
  {
    var i := InstallationOf(rows[n]);
    Conditioned(
      Typed(rows[n], IsPromoted(rows, scope, probe, bound, n), probe.implementation(n)),
      IsRepairedPlugin(rows, scope, probe, bound, i) && FindRow(rows, i, true) == Some(n),
      LatestCondition(log, i))
  }

  /** The closed form of the step, for the candidates below `bound`. */
  ghost function Detected(
    rows: seq<Plugin>, log: seq<PermissionEvent>, scope: Option<Network>, probe: Probe, bound: nat)
    : (after: seq<Plugin>)
    ensures |after| == |rows|
    ensures forall n | 0 <= n < |rows| :: after[n] == DetectedRow(rows, log, scope, probe, bound, n)
  {
    seq(|rows|, n requires 0 <= n < |rows| => DetectedRow(rows, log, scope, probe, bound, n))
  }

  lemma NothingDetected(rows: seq<Plugin>, log: seq<PermissionEvent>, scope: Option<Network>, probe: Probe)
    ensures Detected(rows, log, scope, probe, 0) == rows
  {
  }

  /** The step changes no plugin's identity or status. */
  lemma DetectedSameRows(
    rows: seq<Plugin>, log: seq<PermissionEvent>, scope: Option<Network>, probe: Probe, bound: nat)
    ensures SameRows(rows, Detected(rows, log, scope, probe, bound))
  {
  }

  // ---- the same in the fields of the documents ----

  /** An installed row of the scope that is a controller's, or of no known type. */
  ghost predicate IsProbed(p: Plugin, scope: Option<Network>) {
    && p.status.Installed? && (scope.None? || scope == Some(p.network))
    && (p.interfaceType == None || p.interfaceType == Some(Unknown) || p.interfaceType == Some(CrossChainController))
  }

  /** A row of no known type whose bytecode shows a controller, when its update takes effect. */
  ghost predicate BecomesController(rows: seq<Plugin>, scope: Option<Network>, probe: Probe, n: int) {
    && 0 <= n < |rows| && IsProbed(rows[n], scope) && rows[n].interfaceType != Some(CrossChainController)
    && n in probe.detected && n in probe.updated
  }

  /** Some row of the plugin is or becomes a controller's, and the write of its condition takes effect. */
  ghost predicate IsLinkedAgain(rows: seq<Plugin>, scope: Option<Network>, probe: Probe, i: Installation) {
    exists m: nat :: m < |rows| && IsRowOf(rows[m], i) && m in probe.linked
                     && ((IsProbed(rows[m], scope) && rows[m].interfaceType == Some(CrossChainController))
                         || BecomesController(rows, scope, probe, m))
  }

  /** A promoted row: a controller's, with no role, behind the implementation found if there was one. */
  ghost predicate IsPromotedTo(p: Plugin, was: Plugin, implementation: Option<Address>) {
    && p.interfaceType == Some(CrossChainController) && !p.isProcess && !p.isBody && !p.isSubPlugin
    && p.implementationAddress == (if implementation.Some? then implementation else was.implementationAddress)
  }

  /** What an applied run leaves: the rows that become controllers are promoted, the first installed row of a plugin
      linked again has the condition its newest EXECUTE event grants, and nothing else of any row changes. */
  ghost predicate AreDetected(
    rows: seq<Plugin>, after: seq<Plugin>, log: seq<PermissionEvent>, scope: Option<Network>, probe: Probe)
  {
    |after| == |rows| && forall n | 0 <= n < |rows| :: IsDetectedRow(after[n], rows, log, scope, probe, n)
  }

  ghost predicate IsDetectedRow(
    q: Plugin, rows: seq<Plugin>, log: seq<PermissionEvent>, scope: Option<Network>, probe: Probe, n: nat)
    requires n < |rows|
  {
    var p, i := rows[n], Installation(rows[n].network, rows[n].daoAddress, rows[n].address);
    && (if BecomesController(rows, scope, probe, n)
        then
          && IsPromotedTo(q, p, probe.implementation(n))
          && q == p.(interfaceType := q.interfaceType, implementationAddress := q.implementationAddress,
                     isProcess := q.isProcess, isBody := q.isBody, isSubPlugin := q.isSubPlugin,
                     conditionAddress := q.conditionAddress)
        else q == p.(conditionAddress := q.conditionAddress))
    && q.conditionAddress ==
       if IsLinkedAgain(rows, scope, probe, i) && IsFirstRow(rows, i, n, true) && LatestCondition(log, i).Some?
       then LatestCondition(log, i) else p.conditionAddress
  }

  lemma DetectedExactly(rows: seq<Plugin>, log: seq<PermissionEvent>, scope: Option<Network>, probe: Probe)
    ensures AreDetected(rows, Detected(rows, log, scope, probe, |rows|), log, scope, probe)
  {
    hide IsDetectedRow, DetectedRow;
    forall n | 0 <= n < |rows|
      ensures IsDetectedRow(DetectedRow(rows, log, scope, probe, |rows|, n), rows, log, scope, probe, n)
    {
      DetectedRowExactly(rows, log, scope, probe, n);
    }
  }

  lemma DetectedRowExactly(
    rows: seq<Plugin>, log: seq<PermissionEvent>, scope: Option<Network>, probe: Probe, n: nat)
    requires n < |rows|
    ensures IsDetectedRow(DetectedRow(rows, log, scope, probe, |rows|, n), rows, log, scope, probe, n)
  {
    var i := InstallationOf(rows[n]);
    LinkedAgainExactly(rows, scope, probe, i);
    FindRowExactly(rows, i, true);
    assert IsPromoted(rows, scope, probe, |rows|, n) <==> BecomesController(rows, scope, probe, n);
    hide IsLinkedAgain, IsRepairedPlugin, LatestCondition, FindRow, IsFirstRow, IsPromoted, BecomesController;
  }

  lemma LinkedAgainExactly(rows: seq<Plugin>, scope: Option<Network>, probe: Probe, i: Installation)
    ensures IsLinkedAgain(rows, scope, probe, i) <==> IsRepairedPlugin(rows, scope, probe, |rows|, i)
  {
    forall m: nat | m < |rows|
      ensures IsRepaired(rows, scope, probe, |rows|, m) <==>
              && m in probe.linked
              && ((IsProbed(rows[m], scope) && rows[m].interfaceType == Some(CrossChainController))
                  || BecomesController(rows, scope, probe, m))
      ensures IsRowOf(rows[m], i) <==> InstallationOf(rows[m]) == i
    {
    }
    hide IsRepaired, IsProbed, BecomesController, IsRowOf;
    if m: nat :| IsRepaired(rows, scope, probe, |rows|, m) && InstallationOf(rows[m]) == i {
      assert IsRowOf(rows[m], i);
    }
  }

  /** The plugins given a slug: the controllers and the promoted rows, each as it then is. */
  lemma {:induction false} ServedExactly(
    rows: seq<Plugin>, scope: Option<Network>, probe: Probe, bound: nat, p: Plugin)
    requires bound <= |rows|
    ensures p in Served(rows, scope, probe, bound) <==>
            exists n: nat :: n < bound && IsServedAs(rows, scope, probe, n, p)
  {
    hide IsServedAs, IsPromoted, IsCandidate, Typed;
    if bound > 0 {
      ServedExactly(rows, scope, probe, bound - 1, p);
      ServedAsExactly(rows, scope, probe, bound - 1, p);
    }
  }

  lemma ServedAsExactly(rows: seq<Plugin>, scope: Option<Network>, probe: Probe, n: nat, p: Plugin)
    requires n < |rows|
    ensures var promoted := IsPromoted(rows, scope, probe, n + 1, n);
            IsServedAs(rows, scope, probe, n, p) <==>
            && (promoted || (IsCandidate(scope, rows[n]) && rows[n].interfaceType == Some(CrossChainController)))
            && p == Typed(rows[n], promoted, probe.implementation(n))
  {
    assert IsPromoted(rows, scope, probe, n + 1, n) <==> BecomesController(rows, scope, probe, n);
  }

  ghost predicate IsServedAs(rows: seq<Plugin>, scope: Option<Network>, probe: Probe, n: nat, p: Plugin) {
    && n < |rows| && InstallationOf(p) == InstallationOf(rows[n]) && p.processKey == rows[n].processKey
    && if BecomesController(rows, scope, probe, n)
       then IsPromotedTo(p, rows[n], probe.implementation(n))
            && p == rows[n].(interfaceType := p.interfaceType, implementationAddress := p.implementationAddress,
                             isProcess := p.isProcess, isBody := p.isBody, isSubPlugin := p.isSubPlugin)
       else IsProbed(p, scope) && p.interfaceType == Some(CrossChainController) && p == rows[n]
  }

  datatype Detection = Detection(scanned: nat, promoted: nat, repaired: nat)

  /** The three counts. */
  ghost predicate AreDetectionCounts(d: Detection, rows: seq<Plugin>, scope: Option<Network>, probe: Probe) {
    && d.scanned == |set n | 0 <= n < |rows| && IsProbed(rows[n], scope)|
    && d.repaired ==
       |set n | 0 <= n < |rows| && IsProbed(rows[n], scope) && rows[n].interfaceType == Some(CrossChainController)|
    && d.promoted ==
       |set n | 0 <= n < |rows| && IsProbed(rows[n], scope) && rows[n].interfaceType != Some(CrossChainController)
                && n in probe.detected|
  }

  lemma DetectionCountsExactly(d: Detection, rows: seq<Plugin>, scope: Option<Network>, probe: Probe)
    requires d == Counted(rows, scope, probe, |rows|)
    ensures AreDetectionCounts(d, rows, scope, probe)
  {
    AllCounted(rows, scope, probe);
    assert forall p: Plugin :: IsCandidate(scope, p) <==> IsProbed(p, scope);
    TallyIsSize(rows, CandidateIn(scope), set n | 0 <= n < |rows| && IsProbed(rows[n], scope));
    TallyIsSize(
      rows, ControllerIn(scope),
      set n | 0 <= n < |rows| && IsProbed(rows[n], scope) && rows[n].interfaceType == Some(CrossChainController));
    hide Tally, IsCandidate, IsProbed;
    assert DetectedBelow(rows, scope, probe, |rows|)
        == set n | 0 <= n < |rows| && IsProbed(rows[n], scope) && rows[n].interfaceType != Some(CrossChainController)
                   && n in probe.detected;
  }

  method DetectControllers(
    plugins: PluginCollection, slugs: SlugCollection, log: seq<PermissionEvent>, scope: Option<Network>, probe: Probe,
    execute: bool)
    returns (detection: Detection)
    modifies plugins, slugs
    ensures plugins.rows ==
            if execute then Detected(old(plugins.rows), log, scope, probe, |old(plugins.rows)|) else old(plugins.rows)
    ensures slugs.rows ==
            if execute
            then GenerateAll(old(slugs.rows), Served(old(plugins.rows), scope, probe, |old(plugins.rows)|), OwnKey)
            else old(slugs.rows)
    ensures detection.scanned == Tally(old(plugins.rows), CandidateIn(scope))
    ensures detection.repaired == Tally(old(plugins.rows), ControllerIn(scope))
    ensures detection.promoted == |DetectedBelow(old(plugins.rows), scope, probe, |old(plugins.rows)|)|
    ensures AreDetectionCounts(detection, old(plugins.rows), scope, probe)
    ensures execute ==> AreDetected(old(plugins.rows), plugins.rows, log, scope, probe)
  {
    DetectedExactly(plugins.rows, log, scope, probe);
    var rows := plugins.rows;
    detection := Detection(0, 0, 0);
    NothingDetected(rows, log, scope, probe);
    NothingGenerated(slugs.rows);
    NothingServed(rows, scope, probe);
    NothingCounted(rows, scope, probe);
    hide *;
    for n := 0 to |rows|
      invariant plugins.rows == if execute then Detected(rows, log, scope, probe, n) else rows
      invariant slugs.rows ==
                if execute then GenerateAll(old(slugs.rows), Served(rows, scope, probe, n), OwnKey)
                else old(slugs.rows)
      invariant detection == Counted(rows, scope, probe, n)
    {
      DetectNext(rows, log, scope, probe, n);
      CountedNext(rows, scope, probe, n);
      GenerateNext(old(slugs.rows), rows, scope, probe, n);
      detection := DetectCandidate(plugins, slugs, log, scope, probe, n, rows[n], execute, detection);
    }
    AllCounted(rows, scope, probe);
    DetectionCountsExactly(detection, rows, scope, probe);
  }

  /** The counters after the candidates below `bound`. */
  function Counted(rows: seq<Plugin>, scope: Option<Network>, probe: Probe, bound: nat): Detection
    requires bound <= |rows|
  {
    Detection(Tally(rows[..bound], CandidateIn(scope)), |DetectedBelow(rows, scope, probe, bound)|,
              Tally(rows[..bound], ControllerIn(scope)))
  }

  lemma CountedNext(rows: seq<Plugin>, scope: Option<Network>, probe: Probe, n: nat)
    requires n < |rows|
    ensures var p, before, after := rows[n], Counted(rows, scope, probe, n), Counted(rows, scope, probe, n + 1);
            after ==
            if !IsCandidate(scope, p) then before
            else Detection(before.scanned + 1, before.promoted + (if IsNew(probe, n, p) then 1 else 0),
                           before.repaired + if p.interfaceType == Some(CrossChainController) then 1 else 0)
  {
    DetectedNext(rows, scope, probe, n);
    assert rows[..n + 1][..n] == rows[..n];
    hide DetectedBelow;
  }

  lemma AllCounted(rows: seq<Plugin>, scope: Option<Network>, probe: Probe)
    ensures Counted(rows, scope, probe, |rows|)
            == Detection(Tally(rows, CandidateIn(scope)), |DetectedBelow(rows, scope, probe, |rows|)|,
                         Tally(rows, ControllerIn(scope)))
  {
    assert rows[..|rows|] == rows;
  }

  lemma DetectNext(rows: seq<Plugin>, log: seq<PermissionEvent>, scope: Option<Network>, probe: Probe, n: nat)
    requires n < |rows|
    ensures var p, now := rows[n], Detected(rows, log, scope, probe, n);
            Detected(rows, log, scope, probe, n + 1) ==
            if IsCandidate(scope, p) && IsController(probe, n, p)
            then DetectStep(now, n, IsNew(probe, n, p), probe.implementation(n), n in probe.linked,
                            InstallationOf(p), LatestCondition(log, InstallationOf(p)))
            else now
  {
    DetectOne(rows, log, scope, probe, n);
    hide Detected, LatestCondition;
  }

  /** A candidate detected as a controller that is none yet. */
  predicate IsNew(probe: Probe, n: nat, p: Plugin) {
    p.interfaceType != Some(CrossChainController) && n in probe.detected
  }

  /** A candidate that is a controller, before or after its promotion. */
  predicate IsController(probe: Probe, n: nat, p: Plugin) {
    p.interfaceType == Some(CrossChainController) || (IsNew(probe, n, p) && n in probe.updated)
  }

  /** One iteration, for the candidate `p` read at position `n`. */
  method DetectCandidate(
    plugins: PluginCollection, slugs: SlugCollection, log: seq<PermissionEvent>, scope: Option<Network>, probe: Probe,
    n: nat, p: Plugin, execute: bool, before: Detection)
    returns (detection: Detection)
    requires n < |plugins.rows|
    modifies plugins, slugs
    ensures detection ==
            if !IsCandidate(scope, p) then before
            else Detection(before.scanned + 1, before.promoted + (if IsNew(probe, n, p) then 1 else 0),
                           before.repaired + if p.interfaceType == Some(CrossChainController) then 1 else 0)
    ensures plugins.rows ==
            if execute && IsCandidate(scope, p) && IsController(probe, n, p)
            then DetectStep(old(plugins.rows), n, IsNew(probe, n, p), probe.implementation(n), n in probe.linked,
                            InstallationOf(p), LatestCondition(log, InstallationOf(p)))
            else old(plugins.rows)
    ensures slugs.rows ==
            if execute && IsCandidate(scope, p) && IsController(probe, n, p)
            then AfterGenerate(old(slugs.rows), Typed(p, IsNew(probe, n, p), probe.implementation(n)), p.processKey)
            else old(slugs.rows)
  {
    hide LatestCondition, AfterGenerate;
    detection := before;
    if !IsCandidate(scope, p) {
      return;
    }
    detection := detection.(scanned := detection.scanned + 1);
    if p.interfaceType == Some(CrossChainController) {
      detection := detection.(repaired := detection.repaired + 1);
      if execute {
        LinkController(plugins, slugs, p, log, n in probe.linked);
      }
      return;
    }
    if n !in probe.detected {
      return;
    }
    detection := detection.(promoted := detection.promoted + 1);
    if !execute || n !in probe.updated {
      return;
    }
    plugins.rows := plugins.rows[n := Promote(plugins.rows[n], probe.implementation(n))];
    LinkController(plugins, slugs, Promote(p, probe.implementation(n)), log, n in probe.linked);
  }

  /** The slug and the condition of a controller. */
  method LinkController(
    plugins: PluginCollection, slugs: SlugCollection, plugin: Plugin, log: seq<PermissionEvent>, linked: bool)
    modifies plugins, slugs
    ensures slugs.rows == AfterGenerate(old(slugs.rows), plugin, plugin.processKey)
    ensures var i, condition := InstallationOf(plugin), LatestCondition(log, InstallationOf(plugin));
            plugins.rows == if linked && condition.Some? then UpdateCondition(old(plugins.rows), i, condition)
                            else old(plugins.rows)
  {
    var _ := slugs.GenerateSlug(plugin, plugin.processKey);
    var condition := LatestCondition(log, InstallationOf(plugin));
    if linked && condition.Some? {
      plugins.UpdateConditionAddress(InstallationOf(plugin), condition.value);
    }
  }

  lemma NothingCounted(rows: seq<Plugin>, scope: Option<Network>, probe: Probe)
    ensures Counted(rows, scope, probe, 0) == Detection(0, 0, 0)
  {
    assert DetectedBelow(rows, scope, probe, 0) == {};
  }

  lemma NothingServed(rows: seq<Plugin>, scope: Option<Network>, probe: Probe)
    ensures Served(rows, scope, probe, 0) == []
  {
  }

  /** Position `n` adds its plugin to those given a slug when it is a controller. */
  lemma GenerateNext(slugs: seq<SlugRow>, rows: seq<Plugin>, scope: Option<Network>, probe: Probe, n: nat)
    requires n < |rows|
    ensures var p := rows[n];
            var before := GenerateAll(slugs, Served(rows, scope, probe, n), OwnKey);
            GenerateAll(slugs, Served(rows, scope, probe, n + 1), OwnKey) ==
            if IsCandidate(scope, p) && IsController(probe, n, p)
            then AfterGenerate(before, Typed(p, IsNew(probe, n, p), probe.implementation(n)), p.processKey)
            else before
  {
    hide AfterGenerate, GenerateAll;
    var p := rows[n];
    var before, after := Served(rows, scope, probe, n), Served(rows, scope, probe, n + 1);
    assert IsPromoted(rows, scope, probe, n + 1, n) <==>
           IsCandidate(scope, p) && IsNew(probe, n, p) && n in probe.updated;
    assert after == if IsCandidate(scope, p) && IsController(probe, n, p)
                    then before + [Typed(p, IsNew(probe, n, p), probe.implementation(n))] else before;
    GeneratedNext(slugs, Served(rows, scope, probe, n), Typed(p, IsNew(probe, n, p), probe.implementation(n)));
  }

  lemma NothingGenerated(slugs: seq<SlugRow>)
    ensures GenerateAll(slugs, [], OwnKey) == slugs
  {
  }

  lemma GeneratedNext(slugs: seq<SlugRow>, served: seq<Plugin>, p: Plugin)
    ensures GenerateAll(slugs, served + [p], OwnKey)
            == AfterGenerate(GenerateAll(slugs, served, OwnKey), p, p.processKey)
  {
    assert (served + [p])[..|served|] == served;
    hide AfterGenerate;
  }

  function CandidateIn(scope: Option<Network>): Plugin -> bool {
    (p: Plugin) => IsCandidate(scope, p)
  }

  function ControllerIn(scope: Option<Network>): Plugin -> bool {
    (p: Plugin) => IsCandidate(scope, p) && p.interfaceType == Some(CrossChainController)
  }

  function DetectedBelow(rows: seq<Plugin>, scope: Option<Network>, probe: Probe, bound: nat): set<nat> {
    set n | 0 <= n < bound && IsDetected(rows, scope, probe, n)
  }

  lemma DetectedNext(rows: seq<Plugin>, scope: Option<Network>, probe: Probe, n: nat)
    ensures |DetectedBelow(rows, scope, probe, n + 1)| ==
            |DetectedBelow(rows, scope, probe, n)| + if IsDetected(rows, scope, probe, n) then 1 else 0
  {
    var was, next := DetectedBelow(rows, scope, probe, n), DetectedBelow(rows, scope, probe, n + 1);
    hide IsDetected;
    assert n !in was;
    forall m ensures m in next <==> m in was || (m == n && IsDetected(rows, scope, probe, n)) {
    }
    assert next == if IsDetected(rows, scope, probe, n) then was + {n} else was;
  }

  /** What candidate `n` adds to the closed form. */
  ghost function DetectStep(
    now: seq<Plugin>, n: nat, promoted: bool, implementation: Option<Address>, repaired: bool, i: Installation,
    condition: Option<Address>): seq<Plugin>
    requires n < |now|
  {
    var typed := if promoted then now[n := Promote(now[n], implementation)] else now;
    if repaired && condition.Some? then UpdateCondition(typed, i, condition) else typed
  }

  lemma DetectOne(
    rows: seq<Plugin>, log: seq<PermissionEvent>, scope: Option<Network>, probe: Probe, n: nat)
    requires n < |rows|
    ensures var i := InstallationOf(rows[n]);
            Detected(rows, log, scope, probe, n + 1) ==
            DetectStep(
              Detected(rows, log, scope, probe, n), n, IsPromoted(rows, scope, probe, n + 1, n),
              probe.implementation(n), IsRepaired(rows, scope, probe, n + 1, n), i, LatestCondition(log, i))
  {
    var now, next := Detected(rows, log, scope, probe, n), Detected(rows, log, scope, probe, n + 1);
    var i := InstallationOf(rows[n]);
    DetectedSameRows(rows, log, scope, probe, n);
    SameRowsFind(rows, now, i, true);
    hide IsPromoted, IsRepaired, DetectedRow, LatestCondition, FindRow, DetectStep, SameRows;
    var promoted, repaired := IsPromoted(rows, scope, probe, n + 1, n), IsRepaired(rows, scope, probe, n + 1, n);
    var step := DetectStep(now, n, promoted, probe.implementation(n), repaired, i, LatestCondition(log, i));
    DetectStepRows(now, n, promoted, probe.implementation(n), repaired, i, LatestCondition(log, i));
    forall m | 0 <= m < |rows| ensures next[m] == step[m] {
      DetectOneRow(rows, log, scope, probe, n, m);
    }
  }

  lemma DetectStepRows(
    now: seq<Plugin>, n: nat, promoted: bool, implementation: Option<Address>, repaired: bool, i: Installation,
    condition: Option<Address>)
    requires n < |now|
    ensures var step := DetectStep(now, n, promoted, implementation, repaired, i, condition);
            |step| == |now| && forall m | 0 <= m < |now| ::
              step[m] == Conditioned(
                           Typed(now[m], m == n && promoted, implementation),
                           repaired && FindRow(now, i, true) == Some(m), condition)
  {
    var typed := if promoted then now[n := Promote(now[n], implementation)] else now;
    SameRowsFind(now, typed, i, true);
    hide FindRow;
  }

  lemma DetectOneRow(
    rows: seq<Plugin>, log: seq<PermissionEvent>, scope: Option<Network>, probe: Probe, n: nat, m: nat)
    requires n < |rows| && m < |rows|
    ensures var i := InstallationOf(rows[n]);
            DetectedRow(rows, log, scope, probe, n + 1, m) ==
            Conditioned(
              Typed(DetectedRow(rows, log, scope, probe, n, m), m == n && IsPromoted(rows, scope, probe, n + 1, n),
                    probe.implementation(n)),
              IsRepaired(rows, scope, probe, n + 1, n) && FindRow(rows, i, true) == Some(m),
              LatestCondition(log, i))
  {
    hide LatestCondition;
    RepairedNext(rows, scope, probe, n, InstallationOf(rows[m]));
  }

  lemma RepairedNext(rows: seq<Plugin>, scope: Option<Network>, probe: Probe, n: nat, i: Installation)
    requires n < |rows|
    ensures IsRepairedPlugin(rows, scope, probe, n + 1, i) <==>
            || IsRepairedPlugin(rows, scope, probe, n, i)
            || (IsRepaired(rows, scope, probe, n + 1, n) && InstallationOf(rows[n]) == i)
  {
    if m: nat :| IsRepaired(rows, scope, probe, n + 1, m) && InstallationOf(rows[m]) == i {
      assert m == n || IsRepaired(rows, scope, probe, n, m);
    }
    if m: nat :| IsRepaired(rows, scope, probe, n, m) && InstallationOf(rows[m]) == i {
      assert IsRepaired(rows, scope, probe, n + 1, m);
    }
  }

  /** The plugins whose verdict the step changes: repaired ones whose newest grant carries another condition than the
      row the recovery reads, when that is also the row the step writes. */
  ghost predicate IsRelinked(
    rows: seq<Plugin>, log: seq<PermissionEvent>, scope: Option<Network>, probe: Probe, i: Installation)
  {
    && IsRepairedPlugin(rows, scope, probe, |rows|, i)
    && LatestCondition(log, i).Some?
    && ReadsWhatItWrites(rows, i)
    && rows[FindRow(rows, i, true).value].conditionAddress != LatestCondition(log, i)
  }

  ghost function Relinked(
    rows: seq<Plugin>, log: seq<PermissionEvent>, scope: Option<Network>, probe: Probe, newest: Index)
    : set<Installation>
  {
    set i | i in newest && IsRelinked(rows, log, scope, probe, i)
  }

  lemma VerdictAfterDetection(
    rows: seq<Plugin>, log: seq<PermissionEvent>, scope: Option<Network>, probe: Probe, newest: Index,
    i: Installation)
    requires Indexes(newest, log, scope) && i in newest && InScope(scope, i.network)
    ensures Classify(Detected(rows, log, scope, probe, |rows|), newest[i]) ==
            if IsRelinked(rows, log, scope, probe, i) then AlreadyLinked else Classify(rows, newest[i])
  {
    var after := Detected(rows, log, scope, probe, |rows|);
    DetectedSameRows(rows, log, scope, probe, |rows|);
    SameRowsFind(rows, after, i, false);
    assert NewestExecute(log, i) == Some(newest[i]);
    var first := FindRow(rows, i, false);
    if first.Some? {
      assert after[first.value] == DetectedRow(rows, log, scope, probe, |rows|, first.value);
    }
  }

  lemma RelinkedWasNotLinked(
    rows: seq<Plugin>, log: seq<PermissionEvent>, scope: Option<Network>, probe: Probe, newest: Index,
    i: Installation)
    requires Indexes(newest, log, scope) && i in newest && InScope(scope, i.network)
    requires IsRelinked(rows, log, scope, probe, i)
    ensures Classify(rows, newest[i]) != AlreadyLinked
  {
    assert NewestExecute(log, i) == Some(newest[i]);
  }

  /** An applied backfill repairs the controllers before the recovery counts them, a dry run does not: the two runs
      report the same counters exactly when the detection relinks no plugin, and differ by the relinked ones. */
  lemma DryRunPredictsExecuteExactly(
    rows: seq<Plugin>, log: seq<PermissionEvent>, scope: Option<Network>, probe: Probe, newest: Index)
    requires Indexes(newest, log, scope)
    requires forall i | i in newest :: InScope(scope, i.network)
    ensures var dry := Verdicts(rows, newest);
            var applied := Verdicts(Detected(rows, log, scope, probe, |rows|), newest);
            var relinked := Relinked(rows, log, scope, probe, newest);
            && CountersOf(applied).alreadyLinked == CountersOf(dry).alreadyLinked + |relinked|
            && (CountersOf(applied) == CountersOf(dry) <==> relinked == {})
  {
    var dry := Verdicts(rows, newest);
    var applied := Verdicts(Detected(rows, log, scope, probe, |rows|), newest);
    var relinked := Relinked(rows, log, scope, probe, newest);
    forall i | i in newest
      ensures applied[i] == if i in relinked then AlreadyLinked else dry[i]
      ensures i in relinked ==> dry[i] != AlreadyLinked
    {
      hide Detected, Classify, IsRelinked, Indexes;
      VerdictAfterDetection(rows, log, scope, probe, newest, i);
      if i in relinked {
        RelinkedWasNotLinked(rows, log, scope, probe, newest, i);
      }
    }
    hide Detected, Verdicts, Relinked, Indexes;
    CountersMove(dry, applied, relinked);
    CountersDiffer(dry, applied, relinked);
  }

  lemma CountersDiffer(v: map<Installation, Verdict>, v': map<Installation, Verdict>, moved: set<Installation>)
    requires |With(v', AlreadyLinked)| == |With(v, AlreadyLinked)| + |moved|
    requires With(v', Attached) == With(v, Attached) - moved
    requires With(v', Mismatched) == With(v, Mismatched) - moved
    requires With(v', PluginMissing) == With(v, PluginMissing) - moved
    ensures CountersOf(v') == CountersOf(v) <==> moved == {}
  {
    if moved == {} {
      assert With(v', Attached) == With(v, Attached);
      assert With(v', Mismatched) == With(v, Mismatched);
      assert With(v', PluginMissing) == With(v, PluginMissing);
    }
  }

  /** An installed controller without a condition whose newest grant has one: a dry run counts it as attached, an
      applied run as already linked. */
  lemma DryRunPitfall(p: Plugin, grant: PermissionEvent, scope: Option<Network>)
    requires p.status.Installed? && p.interfaceType == Some(CrossChainController) && p.conditionAddress.None?
    requires InScope(scope, p.network)
    requires Attachable(grant) && Grantee(grant) == InstallationOf(p) && grant.permissionId == EXECUTE_PERMISSION
    ensures var rows, log, newest := [p], [grant], map[Grantee(grant) := grant];
            var probe := Probe({}, (n: nat) => None, {}, {0});
            && Relinked(rows, log, scope, probe, newest) == {Grantee(grant)}
            && Classify(rows, grant) == Attached
            && Classify(Detected(rows, log, scope, probe, 1), grant) == AlreadyLinked
  {
    var rows, log, probe, i := [p], [grant], Probe({}, (n: nat) => None, {}, {0}), InstallationOf(p);
    assert IsRepaired(rows, scope, probe, 1, 0);
    assert Newest(log[1..], ExecuteOf(i), At) == None;
    assert FindRow(rows, i, true) == Some(0) && FindRow(rows, i, false) == Some(0);
    var after := Detected(rows, log, scope, probe, 1);
    assert after[0].conditionAddress == grant.conditionAddress;
    DetectedSameRows(rows, log, scope, probe, 1);
    SameRowsFind(rows, after, i, false);
  }
}
