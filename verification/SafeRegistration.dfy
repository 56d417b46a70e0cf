/** The registration of Safes that hold EXECUTE on a DAO: which grants still stand, how the scan counts them, and which
    DAOs are reconciled from which transaction. */
module SafeRegistration {
  import opened Keys
  import opened Chronology
  import opened Counting
  import opened Plugins
  import opened PermissionLog

  // ---- grants that still stand ----

  /** EXECUTE events on the emitting DAO itself. */
  function OnDao(scope: Option<Network>): PermissionEvent -> bool {
    (e: PermissionEvent) =>
      e.permissionId == EXECUTE_PERMISSION && e.whereAddress == e.daoAddress && InScope(scope, e.network)
  }

  /** The grant is on the DAO itself, and no event there about the same grantee is higher on the chain. */
  ghost predicate IsHeld(log: seq<PermissionEvent>, g: PermissionEvent) {
    && g in log && g.granted && g.permissionId == EXECUTE_PERMISSION && g.whereAddress == g.daoAddress
    && forall o | o in log && o.permissionId == EXECUTE_PERMISSION && o.whereAddress == o.daoAddress
                  && o.network == g.network && o.daoAddress == g.daoAddress && o.whoAddress == g.whoAddress ::
         AtMost(o.position, g.position)
  }

  lemma HeldExactly(log: seq<PermissionEvent>, g: PermissionEvent)
    requires PositionsUnique(log)
    ensures g.granted && Newest(log, ExecuteOnDao(Grantee(g)), At) == Some(g) <==> IsHeld(log, g)
  {
    NewestIsNewest(log, ExecuteOnDao(Grantee(g)), At);
    NewestIsHighest(log, ExecuteOnDao(Grantee(g)), At);
    if IsHeld(log, g) {
      NewestUnique(log, ExecuteOnDao(Grantee(g)), At, g);
    }
  }

  /** `$sort` newest first, `$group` by grantee taking the first, then the grants among them. */
  method FindHeldExecuteGrants(log: seq<PermissionEvent>, scope: Option<Network>, descending: seq<PermissionEvent>)
    returns (grants: seq<PermissionEvent>)
    requires PositionsUnique(log) && Descending(descending, Select(log, OnDao(scope)), At)
    ensures forall a, b | 0 <= a < b < |grants| :: Grantee(grants[a]) != Grantee(grants[b])
    ensures forall g :: g in grants <==>
              g.granted && InScope(scope, g.network) && Newest(log, ExecuteOnDao(Grantee(g)), At) == Some(g)
    ensures forall g :: g in grants <==> IsHeld(log, g) && (scope.None? || scope == Some(g.network))
  {
    forall g: PermissionEvent
      ensures g.granted && Newest(log, ExecuteOnDao(Grantee(g)), At) == Some(g) <==> IsHeld(log, g)
    {
      HeldExactly(log, g);
    }
    hide IsHeld;
    var latest: seq<PermissionEvent> := [];
    for n := 0 to |descending|
      invariant IsFirstOfEach(latest, descending[..n])
    {
      FirstOfEachNext(latest, descending, n);
      if !Knows(latest, Grantee(descending[n])) {
        latest := latest + [descending[n]];
      }
    }
    assert descending[..|descending|] == descending;
    forall g ensures g in latest <==> InScope(scope, g.network)
                                      && Newest(log, ExecuteOnDao(Grantee(g)), At) == Some(g)
    {
      FirstIsNewest(log, scope, descending, latest, g);
    }
    grants := Granted(latest);
  }

  predicate Knows(events: seq<PermissionEvent>, i: Installation) {
    exists e :: e in events && Grantee(e) == i
  }

  /** The first event of every grantee, each once. */
  ghost predicate IsFirstOfEach(latest: seq<PermissionEvent>, view: seq<PermissionEvent>) {
    && (forall a, b | 0 <= a < b < |latest| :: Grantee(latest[a]) != Grantee(latest[b]))
    && (forall e | e in latest :: Leads(view, e))
    && (forall e | e in view :: Knows(latest, Grantee(e)))
  }

  ghost predicate IsFirst(view: seq<PermissionEvent>, n: int, e: PermissionEvent) {
    0 <= n < |view| && view[n] == e && forall m | 0 <= m < n :: Grantee(view[m]) != Grantee(e)
  }

  ghost predicate Leads(view: seq<PermissionEvent>, e: PermissionEvent) {
    exists n :: IsFirst(view, n, e)
  }

  lemma FirstOfEachNext(latest: seq<PermissionEvent>, view: seq<PermissionEvent>, n: nat)
    requires n < |view| && IsFirstOfEach(latest, view[..n])
    ensures IsFirstOfEach(
              if Knows(latest, Grantee(view[n])) then latest else latest + [view[n]], view[..n + 1])
  {
    var next := if Knows(latest, Grantee(view[n])) then latest else latest + [view[n]];
    forall e | e in next ensures Leads(view[..n + 1], e) {
      if e in latest {
        var m :| IsFirst(view[..n], m, e);
        assert IsFirst(view[..n + 1], m, e);
      } else {
        assert IsFirst(view[..n + 1], n, e);
      }
    }
    forall e | e in view[..n + 1] ensures Knows(next, Grantee(e)) {
      if e in view[..n] {
        var o :| o in latest && Grantee(o) == Grantee(e);
        assert o in next;
      } else {
        assert e == view[n];
        if !Knows(latest, Grantee(e)) {
          assert e in next;
        }
      }
    }
  }

  lemma FirstIsNewest(
    log: seq<PermissionEvent>, scope: Option<Network>, descending: seq<PermissionEvent>,
    latest: seq<PermissionEvent>, g: PermissionEvent)
    requires PositionsUnique(log) && Descending(descending, Select(log, OnDao(scope)), At)
    requires IsFirstOfEach(latest, descending)
    ensures g in latest <==>
            InScope(scope, g.network) && Newest(log, ExecuteOnDao(Grantee(g)), At) == Some(g)
  {
    var i := Grantee(g);
    SameMembers(descending, Select(log, OnDao(scope)));
    NewestIsNewest(log, ExecuteOnDao(i), At);
    if Newest(log, ExecuteOnDao(i), At) == Some(g) && InScope(scope, g.network) {
      assert OnDao(scope)(g) && g in descending;
      var o :| o in latest && Grantee(o) == i;
      IsNewestFirst(log, scope, descending, o, i);
    }
    if g in latest {
      IsNewestFirst(log, scope, descending, g, i);
    }
  }

  lemma IsNewestFirst(
    log: seq<PermissionEvent>, scope: Option<Network>, descending: seq<PermissionEvent>, e: PermissionEvent,
    i: Installation)
    requires PositionsUnique(log) && Descending(descending, Select(log, OnDao(scope)), At)
    requires Grantee(e) == i && Leads(descending, e)
    ensures Newest(log, ExecuteOnDao(i), At) == Some(e) && InScope(scope, e.network)
  {
    SameMembers(descending, Select(log, OnDao(scope)));
    var n :| IsFirst(descending, n, e);
    assert e in descending && OnDao(scope)(e);
    forall o | o in log && ExecuteOnDao(i)(o) ensures !Before(At(e), At(o)) {
      assert OnDao(scope)(o) && o in descending;
      var m :| 0 <= m < |descending| && descending[m] == o;
      assert n <= m;
    }
    NewestUnique(log, ExecuteOnDao(i), At, e);
  }

  function Granted(events: seq<PermissionEvent>): (grants: seq<PermissionEvent>)
    ensures forall g :: g in grants <==> g in events && g.granted
    ensures (forall a, b | 0 <= a < b < |events| :: Grantee(events[a]) != Grantee(events[b]))
            ==> forall a, b | 0 <= a < b < |grants| :: Grantee(grants[a]) != Grantee(grants[b])
  {
    if events == [] then []
    else
      var rest := Granted(events[1..]);
      assert forall g | g in rest :: g in events[1..];
      if events[0].granted then [events[0]] + rest else rest
  }

  // ---- the grant scan ----

  /** A plugin row that is not a Safe's, on one of the networks of the run. */
  predicate IsNonSafe(p: Plugin, networks: seq<Network>) {
    p.network in networks && p.interfaceType != Some(Safe)
  }

  predicate HasNonSafeRow(plugins: seq<Plugin>, networks: seq<Network>, g: PermissionEvent) {
    exists p :: p in plugins && IsNonSafe(p, networks) && p.network == g.network && p.address == g.whoAddress
  }

  /** Some plugin row at the grantee's address, on its network and one of the run's, is not a Safe's. */
  ghost predicate IsFiltered(g: PermissionEvent, plugins: seq<Plugin>, networks: seq<Network>) {
    exists p :: p in plugins && p.network == g.network && p.address == g.whoAddress
                && p.network in networks && p.interfaceType != Some(Safe)
  }

  lemma FilteredExactly(g: PermissionEvent, plugins: seq<Plugin>, networks: seq<Network>)
    ensures HasNonSafeRow(plugins, networks, g) <==> IsFiltered(g, plugins, networks)
  {
    if p :| p in plugins && p.network == g.network && p.address == g.whoAddress
            && p.network in networks && p.interfaceType != Some(Safe) {
      assert IsNonSafe(p, networks);
    }
  }

  method IndexNonSafe(plugins: seq<Plugin>, networks: seq<Network>) returns (keys: set<string>)
    ensures forall g: PermissionEvent ::
              RefKey(g.network, g.whoAddress) in keys <==> HasNonSafeRow(plugins, networks, g)
  {
    keys := {};
    for n := 0 to |plugins|
      invariant keys == set m | 0 <= m < n && IsNonSafe(plugins[m], networks)
                              :: RefKey(plugins[m].network, plugins[m].address)
    {
      if IsNonSafe(plugins[n], networks) {
        keys := keys + {RefKey(plugins[n].network, plugins[n].address)};
      }
    }
    forall g: PermissionEvent
      ensures RefKey(g.network, g.whoAddress) in keys <==> HasNonSafeRow(plugins, networks, g)
    {
      if RefKey(g.network, g.whoAddress) in keys {
        var m :| 0 <= m < |plugins| && IsNonSafe(plugins[m], networks)
                 && RefKey(plugins[m].network, plugins[m].address) == RefKey(g.network, g.whoAddress);
        JoinInjective(plugins[m].network, plugins[m].address, g.network, g.whoAddress, '-');
        assert plugins[m] in plugins;
      }
    }
  }

  /** What the calls for one grant come to. `install` answers false, nothing, or the plugin; anything after it, and
      the install itself, may throw. */
  datatype Outcome =
    | InstallFailed
    | NotASafe
    | Installed(ownersAdded: nat, ownersFailed: nat, conditionThrew: bool)
    | Threw

  datatype DaoRef = DaoRef(network: Network, daoAddress: Address, blockNumber: nat, transactionHash: string)

  function RefOf(g: PermissionEvent): DaoRef {
    DaoRef(g.network, g.whereAddress, g.position.blockNumber, g.transactionHash)
  }

  datatype Scan = Scan(registered: nat, skipped: nat, failed: nat, ownersAdded: nat, ownersFailed: nat)

  datatype Step = Filtered | Tried(outcome: Outcome)

  /** What becomes of each grant: filtered by a row that is no Safe's, or tried with this outcome. */
  function StepsOf(
    grants: seq<PermissionEvent>, plugins: seq<Plugin>, networks: seq<Network>, outcomes: seq<Outcome>)
    : (steps: seq<Step>)
    requires |outcomes| == |grants|
    ensures |steps| == |grants|
  {
    seq(|grants|, n requires 0 <= n < |grants| =>
      if HasNonSafeRow(plugins, networks, grants[n]) then Filtered else Tried(outcomes[n]))
  }

  predicate IsRegistered(s: Step) { s.Tried? && s.outcome.Installed? && !s.outcome.conditionThrew }
  predicate IsSkipped(s: Step) { s.Filtered? || s.outcome.NotASafe? }
  predicate IsFailed(s: Step) { !IsRegistered(s) && !IsSkipped(s) }

  function OwnersAddedBy(s: Step): nat {
    if s.Tried? && s.outcome.Installed? then s.outcome.ownersAdded else 0
  }

  function OwnersFailedBy(s: Step): nat {
    if s.Tried? && s.outcome.Installed? then s.outcome.ownersFailed else 0
  }

  /** The candidates of the grants that were not filtered, in order. */
  function Candidates(grants: seq<PermissionEvent>, steps: seq<Step>): seq<DaoRef>
    requires |grants| == |steps|
  {
    if grants == [] then []
    else
      var last := |grants| - 1;
      Candidates(grants[..last], steps[..last]) + if steps[last].Filtered? then [] else [RefOf(grants[last])]
  }

  /** The counters account for these grants: each is in exactly one of the first three. */
  ghost predicate Accounts(scan: Scan, steps: seq<Step>) {
    && scan.registered + scan.skipped + scan.failed == |steps|
    && scan.registered == Tally(steps, IsRegistered)
    && scan.skipped == Tally(steps, IsSkipped)
    && scan.failed == Tally(steps, IsFailed)
    && scan.ownersAdded == Sum(steps, OwnersAddedBy)
    && scan.ownersFailed == Sum(steps, OwnersFailedBy)
  }

  /** One more grant counted. */
  predicate Counted(before: Scan, step: Step, scan: Scan) {
    && scan.registered == before.registered + (if IsRegistered(step) then 1 else 0)
    && scan.skipped == before.skipped + (if IsSkipped(step) then 1 else 0)
    && scan.failed == before.failed + (if IsFailed(step) then 1 else 0)
    && scan.ownersAdded == before.ownersAdded + OwnersAddedBy(step)
    && scan.ownersFailed == before.ownersFailed + OwnersFailedBy(step)
  }

  lemma AccountsNext(before: Scan, steps: seq<Step>, n: nat, scan: Scan)
    requires n < |steps| && Accounts(before, steps[..n]) && Counted(before, steps[n], scan)
    ensures Accounts(scan, steps[..n + 1])
  {
    assert steps[..n + 1][..n] == steps[..n];
  }

  lemma NoCandidates(grants: seq<PermissionEvent>, steps: seq<Step>)
    requires |grants| == |steps|
    ensures Candidates(grants[..0], steps[..0]) == []
  {
  }

  lemma CandidatesNext(grants: seq<PermissionEvent>, steps: seq<Step>, n: nat)
    requires |grants| == |steps| && n < |grants|
    ensures Candidates(grants[..n + 1], steps[..n + 1]) ==
            Candidates(grants[..n], steps[..n]) + if steps[n].Filtered? then [] else [RefOf(grants[n])]
  {
    assert steps[..n + 1][..n] == steps[..n] && grants[..n + 1][..n] == grants[..n];
  }

  // ---- the scan in the fields of the grants ----

  ghost predicate IsTried(grants: seq<PermissionEvent>, plugins: seq<Plugin>, networks: seq<Network>, n: nat) {
    n < |grants| && !IsFiltered(grants[n], plugins, networks)
  }

  ghost function TriedBelow(
    grants: seq<PermissionEvent>, plugins: seq<Plugin>, networks: seq<Network>, bound: nat): set<nat>
  {
    set n | 0 <= n < bound && IsTried(grants, plugins, networks, n)
  }

  /** The candidates are those of the grants past the filter, in their order. */
  ghost predicate AreCandidates(
    candidates: seq<DaoRef>, grants: seq<PermissionEvent>, plugins: seq<Plugin>, networks: seq<Network>)
  {
    && |candidates| == |TriedBelow(grants, plugins, networks, |grants|)|
    && forall n | 0 <= n < |grants| && IsTried(grants, plugins, networks, n) ::
         HasItsPlace(candidates, grants, plugins, networks, n)
  }

  /** As many candidates come before that of the grant as grants past the filter come before the grant. */
  ghost predicate HasItsPlace(
    candidates: seq<DaoRef>, grants: seq<PermissionEvent>, plugins: seq<Plugin>, networks: seq<Network>, n: nat)
    requires n < |grants|
  {
    var k := |TriedBelow(grants, plugins, networks, n)|;
    k < |candidates| && Names(candidates[k], grants[n])
  }

  /** The reference is to the contract the permission is on, at the grant's place. */
  ghost predicate Names(r: DaoRef, g: PermissionEvent) {
    && r.network == g.network && r.daoAddress == g.whereAddress
    && r.blockNumber == g.position.blockNumber && r.transactionHash == g.transactionHash
  }

  /** The counters by the outcomes: a grant past the filter is registered when the installation answers a plugin and the
      condition is written, skipped when it is no Safe's, and fails otherwise. */
  ghost predicate AreScanned(
    scan: Scan, grants: seq<PermissionEvent>, plugins: seq<Plugin>, networks: seq<Network>, outcomes: seq<Outcome>)
    requires |outcomes| == |grants|
  {
    && scan.registered ==
       |set n | 0 <= n < |grants| && IsTried(grants, plugins, networks, n)
                && outcomes[n].Installed? && !outcomes[n].conditionThrew|
    && scan.skipped ==
       |set n | 0 <= n < |grants| && (IsTried(grants, plugins, networks, n) ==> outcomes[n].NotASafe?)|
    && scan.failed ==
       |set n | 0 <= n < |grants| && IsTried(grants, plugins, networks, n)
                && (outcomes[n].InstallFailed? || outcomes[n].Threw?
                    || (outcomes[n].Installed? && outcomes[n].conditionThrew))|
  }

  lemma ScannedExactly(
    scan: Scan, grants: seq<PermissionEvent>, plugins: seq<Plugin>, networks: seq<Network>, outcomes: seq<Outcome>)
    requires |outcomes| == |grants| && Accounts(scan, StepsOf(grants, plugins, networks, outcomes))
    ensures AreScanned(scan, grants, plugins, networks, outcomes)
  {
    var steps := StepsOf(grants, plugins, networks, outcomes);
    StepsAreTried(grants, plugins, networks, outcomes);
    hide IsTried, HasNonSafeRow, Tally, Sum;
    TallyIsSize(
      steps, IsRegistered,
      set n | 0 <= n < |grants| && IsTried(grants, plugins, networks, n)
              && outcomes[n].Installed? && !outcomes[n].conditionThrew);
    TallyIsSize(
      steps, IsSkipped,
      set n | 0 <= n < |grants| && (IsTried(grants, plugins, networks, n) ==> outcomes[n].NotASafe?));
    TallyIsSize(
      steps, IsFailed,
      set n | 0 <= n < |grants| && IsTried(grants, plugins, networks, n)
              && (outcomes[n].InstallFailed? || outcomes[n].Threw?
                  || (outcomes[n].Installed? && outcomes[n].conditionThrew)));
  }

  /** No owner was added exactly when no installation added one. */
  lemma OwnersExactly(
    scan: Scan, grants: seq<PermissionEvent>, plugins: seq<Plugin>, networks: seq<Network>, outcomes: seq<Outcome>)
    requires |outcomes| == |grants| && Accounts(scan, StepsOf(grants, plugins, networks, outcomes))
    ensures scan.ownersAdded == 0 <==>
            forall n | 0 <= n < |grants| && IsTried(grants, plugins, networks, n) && outcomes[n].Installed? ::
              outcomes[n].ownersAdded == 0
  {
    var steps := StepsOf(grants, plugins, networks, outcomes);
    forall n | 0 <= n < |grants|
      ensures steps[n] in steps && (steps[n].Tried? <==> IsTried(grants, plugins, networks, n))
    {
      FilteredExactly(grants[n], plugins, networks);
    }
    SumZero(steps, OwnersAddedBy);
    hide IsTried, HasNonSafeRow, Tally, Sum, IsRegistered, IsSkipped, IsFailed;
  }

  lemma TriedNext(grants: seq<PermissionEvent>, plugins: seq<Plugin>, networks: seq<Network>, n: nat)
    ensures |TriedBelow(grants, plugins, networks, n + 1)| ==
            |TriedBelow(grants, plugins, networks, n)| + if IsTried(grants, plugins, networks, n) then 1 else 0
  {
    var before := TriedBelow(grants, plugins, networks, n);
    hide IsTried;
    assert TriedBelow(grants, plugins, networks, n + 1)
        == if IsTried(grants, plugins, networks, n) then before + {n} else before;
  }

  lemma CandidatesExactly(
    grants: seq<PermissionEvent>, plugins: seq<Plugin>, networks: seq<Network>, outcomes: seq<Outcome>)
    requires |outcomes| == |grants|
    ensures AreCandidates(Candidates(grants, StepsOf(grants, plugins, networks, outcomes)), grants, plugins, networks)
  {
    var steps := StepsOf(grants, plugins, networks, outcomes);
    assert grants[..|grants|] == grants && steps[..|grants|] == steps;
    StepsAreTried(grants, plugins, networks, outcomes);
    hide Candidates, StepsOf, TriedBelow, IsTried, HasItsPlace;
    CandidateCount(grants, steps, plugins, networks, |grants|);
    forall n | 0 <= n < |grants| && IsTried(grants, plugins, networks, n)
      ensures HasItsPlace(Candidates(grants, steps), grants, plugins, networks, n)
    {
      CandidateAt(grants, steps, plugins, networks, |grants|, n);
    }
  }

  lemma StepsAreTried(
    grants: seq<PermissionEvent>, plugins: seq<Plugin>, networks: seq<Network>, outcomes: seq<Outcome>)
    requires |outcomes| == |grants|
    ensures AreTried(StepsOf(grants, plugins, networks, outcomes), grants, plugins, networks)
  {
    forall n | 0 <= n < |grants|
      ensures StepsOf(grants, plugins, networks, outcomes)[n].Tried? <==> IsTried(grants, plugins, networks, n)
    {
      FilteredExactly(grants[n], plugins, networks);
    }
  }

  ghost predicate AreTried(
    steps: seq<Step>, grants: seq<PermissionEvent>, plugins: seq<Plugin>, networks: seq<Network>)
  {
    && |steps| == |grants|
    && forall n | 0 <= n < |grants| :: steps[n].Tried? <==> IsTried(grants, plugins, networks, n)
  }

  lemma {:induction false} CandidateCount(
    grants: seq<PermissionEvent>, steps: seq<Step>, plugins: seq<Plugin>, networks: seq<Network>, bound: nat)
    requires AreTried(steps, grants, plugins, networks) && bound <= |grants|
    ensures |Candidates(grants[..bound], steps[..bound])| == |TriedBelow(grants, plugins, networks, bound)|
  {
    hide IsTried;
    if bound == 0 {
      assert TriedBelow(grants, plugins, networks, 0) == {};
    } else {
      hide Candidates, TriedBelow;
      CandidateCount(grants, steps, plugins, networks, bound - 1);
      CandidatesNext(grants, steps, bound - 1);
      TriedNext(grants, plugins, networks, bound - 1);
    }
  }

  lemma {:induction false} CandidateAt(
    grants: seq<PermissionEvent>, steps: seq<Step>, plugins: seq<Plugin>, networks: seq<Network>, bound: nat, n: nat)
    requires AreTried(steps, grants, plugins, networks)
    requires n < bound <= |grants| && IsTried(grants, plugins, networks, n)
    ensures HasItsPlace(Candidates(grants[..bound], steps[..bound]), grants, plugins, networks, n)
  {
    hide Candidates, TriedBelow, IsTried;
    assert Names(RefOf(grants[n]), grants[n]);
    hide Names, RefOf;
    CandidatesNext(grants, steps, bound - 1);
    if n < bound - 1 {
      CandidateAt(grants, steps, plugins, networks, bound - 1, n);
    } else {
      CandidateCount(grants, steps, plugins, networks, n);
    }
  }

  /** Every way out of an iteration counts its grant exactly once, and every grant past the filter is a candidate
      whatever becomes of it. */
  method ScanGrants(
    grants: seq<PermissionEvent>, plugins: seq<Plugin>, networks: seq<Network>, outcomes: seq<Outcome>)
    returns (scan: Scan, candidates: seq<DaoRef>)
    requires |outcomes| == |grants|
    ensures Accounts(scan, StepsOf(grants, plugins, networks, outcomes))
    ensures candidates == Candidates(grants, StepsOf(grants, plugins, networks, outcomes))
    ensures AreScanned(scan, grants, plugins, networks, outcomes)
    ensures scan.ownersAdded == 0 <==>
            forall n | 0 <= n < |grants| && IsTried(grants, plugins, networks, n) && outcomes[n].Installed? ::
              outcomes[n].ownersAdded == 0
    ensures AreCandidates(candidates, grants, plugins, networks)
  {
    hide HasNonSafeRow, RefKey, Candidates, AreScanned, AreCandidates;
    var nonSafe := IndexNonSafe(plugins, networks);
    ghost var steps := StepsOf(grants, plugins, networks, outcomes);
    scan, candidates := Scan(0, 0, 0, 0, 0), [];
    NoCandidates(grants, steps);
    for n := 0 to |grants|
      invariant Accounts(scan, steps[..n])
      invariant candidates == Candidates(grants[..n], steps[..n])
    {
      ghost var before := scan;
      CandidatesNext(grants, steps, n);
      var grant := grants[n];
      if RefKey(grant.network, grant.whoAddress) in nonSafe {
        scan := scan.(skipped := scan.skipped + 1);
      } else {
        candidates := candidates + [RefOf(grant)];
        scan := CountOutcome(scan, outcomes[n]);
      }
      AccountsNext(before, steps, n, scan);
    }
    assert steps[..|grants|] == steps && grants[..|grants|] == grants;
    ScannedExactly(scan, grants, plugins, networks, outcomes);
    OwnersExactly(scan, grants, plugins, networks, outcomes);
    CandidatesExactly(grants, plugins, networks, outcomes);
  }

  method CountOutcome(before: Scan, outcome: Outcome) returns (scan: Scan)
    ensures Counted(before, Tried(outcome), scan)
  {
    scan := before;
    match outcome {
      case InstallFailed => scan := scan.(failed := scan.failed + 1);
      case NotASafe => scan := scan.(skipped := scan.skipped + 1);
      case Installed(added, failed, conditionThrew) =>
        scan := scan.(ownersAdded := scan.ownersAdded + added, ownersFailed := scan.ownersFailed + failed);
        if conditionThrew {
          scan := scan.(failed := scan.failed + 1);
        } else {
          scan := scan.(registered := scan.registered + 1);
        }
      case Threw => scan := scan.(failed := scan.failed + 1);
    }
  }

  // ---- the DAOs to reconcile ----

  predicate SameDao(r: DaoRef, s: DaoRef) {
    r.network == s.network && r.daoAddress == s.daoAddress
  }

  /** The earliest candidate of its DAO with the highest block. */
  ghost predicate IsBest(candidates: seq<DaoRef>, r: DaoRef, i: int) {
    && 0 <= i < |candidates| && candidates[i] == r
    && forall j | 0 <= j < |candidates| && SameDao(candidates[j], r) ::
         candidates[j].blockNumber < r.blockNumber || (candidates[j].blockNumber == r.blockNumber && i <= j)
  }

  ghost predicate IsBestRef(candidates: seq<DaoRef>, r: DaoRef) {
    exists i :: IsBest(candidates, r, i)
  }

  /** One reference per DAO of the candidates, the best one. */
  ghost predicate AreBestRefs(candidates: seq<DaoRef>, refs: seq<DaoRef>) {
    && (forall r | r in refs :: IsBestRef(candidates, r))
    && (forall c | c in candidates :: exists r :: r in refs && SameDao(r, c))
    && forall a, b | 0 <= a < b < |refs| :: !SameDao(refs[a], refs[b])
  }

  function KeyOfRef(r: DaoRef): string {
    RefKey(r.network, r.daoAddress)
  }

  lemma RefKeyNames(r: DaoRef, s: DaoRef)
    ensures KeyOfRef(r) == KeyOfRef(s) <==> SameDao(r, s)
  {
    if KeyOfRef(r) == KeyOfRef(s) {
      JoinInjective(r.network, r.daoAddress, s.network, s.daoAddress, '-');
    }
  }

  ghost predicate AreBestByKey(candidates: seq<DaoRef>, byKey: map<string, DaoRef>) {
    && (forall k | k in byKey :: KeyOfRef(byKey[k]) == k && IsBestRef(candidates, byKey[k]))
    && forall c | c in candidates :: KeyOfRef(c) in byKey
  }

  lemma BestByKeyNext(candidates: seq<DaoRef>, byKey: map<string, DaoRef>, n: nat)
    requires n < |candidates| && AreBestByKey(candidates[..n], byKey)
    ensures var c, k := candidates[n], KeyOfRef(candidates[n]);
            AreBestByKey(candidates[..n + 1],
                         if k !in byKey || c.blockNumber > byKey[k].blockNumber then byKey[k := c] else byKey)
  {
    var c, key, upTo, next := candidates[n], KeyOfRef(candidates[n]), candidates[..n], candidates[..n + 1];
    assert next == upTo + [c];
    forall r: DaoRef ensures KeyOfRef(r) == key <==> SameDao(r, c) {
      RefKeyNames(r, c);
    }
    if key !in byKey || c.blockNumber > byKey[key].blockNumber {
      forall j | 0 <= j < n && SameDao(next[j], c) ensures next[j].blockNumber < c.blockNumber {
        assert next[j] in upTo && KeyOfRef(next[j]) in byKey;
        var i :| IsBest(upTo, byKey[key], i);
        assert SameDao(upTo[j], byKey[key]);
      }
      assert IsBest(next, c, n);
    }
    forall k | k in byKey && (k != key || c.blockNumber <= byKey[k].blockNumber) ensures IsBestRef(next, byKey[k]) {
      var i :| IsBest(upTo, byKey[k], i);
      assert IsBest(next, byKey[k], i);
    }
  }

  method CollectDaoRefs(candidates: seq<DaoRef>) returns (refs: seq<DaoRef>)
    ensures AreBestRefs(candidates, refs)
  {
    var byKey: map<string, DaoRef>, order: seq<string> := map[], [];
    for n := 0 to |candidates|
      invariant AreBestByKey(candidates[..n], byKey)
      invariant NoRepeats(order) && forall k :: k in order <==> k in byKey
    {
      var candidate := candidates[n];
      var key := KeyOfRef(candidate);
      BestByKeyNext(candidates, byKey, n);
      if key !in byKey || candidate.blockNumber > byKey[key].blockNumber {
        order := if key in byKey then order else order + [key];
        byKey := byKey[key := candidate];
      }
    }
    assert candidates[..|candidates|] == candidates;
    refs := seq(|order|, n requires 0 <= n < |order| && order[n] in byKey => byKey[order[n]]);
    BestRefsByKey(candidates, byKey, order, refs);
  }

  lemma BestRefsByKey(candidates: seq<DaoRef>, byKey: map<string, DaoRef>, order: seq<string>, refs: seq<DaoRef>)
    requires AreBestByKey(candidates, byKey)
    requires NoRepeats(order) && forall k :: k in order <==> k in byKey
    requires |refs| == |order| && forall n | 0 <= n < |order| :: refs[n] == byKey[order[n]]
    ensures AreBestRefs(candidates, refs)
  {
    forall c | c in candidates ensures exists r :: r in refs && SameDao(r, c) {
      var n :| 0 <= n < |order| && order[n] == KeyOfRef(c);
      RefKeyNames(refs[n], c);
      assert refs[n] in refs;
    }
    forall a, b | 0 <= a < b < |refs| ensures !SameDao(refs[a], refs[b]) {
      RefKeyNames(refs[a], refs[b]);
    }
  }

  /** A DAO a candidate names has one best reference only. */
  lemma BestRefUnique(candidates: seq<DaoRef>, r: DaoRef, s: DaoRef)
    requires IsBestRef(candidates, r) && IsBestRef(candidates, s) && SameDao(r, s)
    ensures r == s
  {
    var i :| IsBest(candidates, r, i);
    var j :| IsBest(candidates, s, j);
    assert SameDao(candidates[j], r) && SameDao(candidates[i], s);
  }

  // ---- the whole run ----

  /** A Safe-bearing setting or Safe row; its DAO may be missing. */
  datatype Association = Association(
    network: Network, daoAddress: Option<Address>, blockNumber: nat, transactionHash: string)

  function AssociationRef(doc: Association): seq<DaoRef> {
    if doc.daoAddress.None? then []
    else [DaoRef(doc.network, doc.daoAddress.value, doc.blockNumber, doc.transactionHash)]
  }

  function AssociationRefs(associations: seq<Association>): seq<DaoRef> {
    if associations == [] then []
    else
      var last := |associations| - 1;
      AssociationRefs(associations[..last]) + AssociationRef(associations[last])
  }

  /** What reading the settings and Safe rows of one network comes to. */
  type Read = Option<seq<Association>>

  /** The settings and Safe rows read network by network; nothing when a read throws. */
  function AllAssociations(found: seq<Read>): Option<seq<Association>> {
    if found == [] then Some([])
    else
      var init, last := AllAssociations(found[..|found| - 1]), found[|found| - 1];
      if init.None? || last.None? then None else Some(init.value + last.value)
  }

  lemma {:induction false} AssociationRefsAppend(init: seq<Association>, last: seq<Association>)
    ensures AssociationRefs(init + last) == AssociationRefs(init) + AssociationRefs(last)
  {
    hide AssociationRef;
    if last == [] {
      assert init + last == init;
    } else {
      var rest, doc := last[..|last| - 1], last[|last| - 1];
      AssociationRefsAppend(init, rest);
      assert (init + last)[..|init + last| - 1] == init + rest && (init + last)[|init + last| - 1] == doc;
      hide AssociationRefs;
      assert AssociationRefs(init) + AssociationRefs(rest) + AssociationRef(doc)
          == AssociationRefs(init) + (AssociationRefs(rest) + AssociationRef(doc));
    }
  }

  lemma {:induction false} ReadsThrowExactly(found: seq<Read>)
    ensures AllAssociations(found).None? <==> None in found
  {
    if found != [] {
      ReadsThrowExactly(found[..|found| - 1]);
      assert forall r :: r in found <==> r in found[..|found| - 1] || r == found[|found| - 1];
    }
  }

  datatype Reconciled = Reconciled(changed: nat, failed: nat)

  function ChangedBy(reconcile: DaoRef -> Option<Reconciled>): DaoRef -> nat {
    (r: DaoRef) => if reconcile(r).Some? then reconcile(r).value.changed else 0
  }

  function FailedBy(reconcile: DaoRef -> Option<Reconciled>): DaoRef -> nat {
    (r: DaoRef) => if reconcile(r).Some? then reconcile(r).value.failed else 0
  }

  /** How a run ends: an exception, or the exit it chooses. */
  datatype Ending = Aborted | Finished(changed: nat, exitsWithFailure: bool)

  method AppendRefs(candidates: seq<DaoRef>, docs: seq<Association>) returns (appended: seq<DaoRef>)
    ensures appended == candidates + AssociationRefs(docs)
  {
    appended := candidates;
    for m := 0 to |docs|
      invariant appended == candidates + AssociationRefs(docs[..m])
    {
      assert docs[..m + 1][..m] == docs[..m];
      if docs[m].daoAddress.Some? {
        appended := appended + [DaoRef(docs[m].network, docs[m].daoAddress.value, docs[m].blockNumber,
                                       docs[m].transactionHash)];
      }
    }
    assert docs[..|docs|] == docs;
  }

  /** The candidates of the associations are appended network by network; a read that throws ends the run. */
  method AppendAssociations(candidates: seq<DaoRef>, found: seq<Read>) returns (all: Option<seq<DaoRef>>)
    ensures all.None? <==> None in found
    ensures all.Some? ==>
              AllAssociations(found).Some?
              && all.value == candidates + AssociationRefs(AllAssociations(found).value)
  {
    var appended := candidates;
    assert AssociationRefs([]) == [];
    hide AssociationRefs;
    for n := 0 to |found|
      invariant AllAssociations(found[..n]).Some?
      invariant appended == candidates + AssociationRefs(AllAssociations(found[..n]).value)
    {
      assert found[..n + 1][..n] == found[..n];
      if found[n].None? {
        return None;
      }
      AssociationRefsAppend(AllAssociations(found[..n]).value, found[n].value);
      appended := AppendRefs(appended, found[n].value);
    }
    assert found[..|found|] == found;
    ReadsThrowExactly(found);
    return Some(appended);
  }

  /** Reconciles DAO by DAO up to the first that throws. */
  method ReconcileDaos(refs: seq<DaoRef>, reconcile: DaoRef -> Option<Reconciled>)
    returns (reconciled: nat, changed: nat, failed: nat)
    ensures reconciled <= |refs| && forall n | 0 <= n < reconciled :: reconcile(refs[n]).Some?
    ensures reconciled < |refs| ==> reconcile(refs[reconciled]).None?
    ensures changed == Sum(refs[..reconciled], ChangedBy(reconcile))
    ensures failed == Sum(refs[..reconciled], FailedBy(reconcile))
  {
    reconciled, changed, failed := 0, 0, 0;
    while reconciled < |refs|
      invariant reconciled <= |refs| && forall n | 0 <= n < reconciled :: reconcile(refs[n]).Some?
      invariant changed == Sum(refs[..reconciled], ChangedBy(reconcile))
      invariant failed == Sum(refs[..reconciled], FailedBy(reconcile))
    {
      assert refs[..reconciled + 1][..reconciled] == refs[..reconciled];
      var result := reconcile(refs[reconciled]);
      if result.None? {
        return;
      }
      changed := changed + result.value.changed;
      failed := failed + result.value.failed;
      reconciled := reconciled + 1;
    }
  }

  // ---- the references in the fields of the documents ----

  ghost predicate IsRead(found: seq<Read>, doc: Association) {
    exists n :: 0 <= n < |found| && found[n].Some? && doc in found[n].value
  }

  ghost predicate NamesDoc(r: DaoRef, doc: Association) {
    && r.network == doc.network && Some(r.daoAddress) == doc.daoAddress
    && r.blockNumber == doc.blockNumber && r.transactionHash == doc.transactionHash
  }

  /** Some reference is to this DAO, from this block or a later one. */
  ghost predicate Covers(refs: seq<DaoRef>, network: Network, dao: Address, blockNumber: nat) {
    exists r :: r in refs && r.network == network && r.daoAddress == dao && r.blockNumber >= blockNumber
  }

  /** The DAO of every grant past the filter and of every association is covered, once, from a place one of them
      names. */
  ghost predicate AreReferences(
    refs: seq<DaoRef>, grants: seq<PermissionEvent>, plugins: seq<Plugin>, networks: seq<Network>, found: seq<Read>)
  {
    && (forall n | 0 <= n < |grants| && IsTried(grants, plugins, networks, n) ::
          Covers(refs, grants[n].network, grants[n].whereAddress, grants[n].position.blockNumber))
    && (forall doc | IsRead(found, doc) && doc.daoAddress.Some? ::
          Covers(refs, doc.network, doc.daoAddress.value, doc.blockNumber))
    && (forall r | r in refs ::
          || (exists n :: 0 <= n < |grants| && IsTried(grants, plugins, networks, n) && Names(r, grants[n]))
          || exists doc :: IsRead(found, doc) && NamesDoc(r, doc))
    && forall a, b | 0 <= a < b < |refs| ::
         refs[a].network != refs[b].network || refs[a].daoAddress != refs[b].daoAddress
  }

  /** What the candidates come from. */
  lemma {:induction false} CandidateSources(grants: seq<PermissionEvent>, steps: seq<Step>, r: DaoRef)
    requires |grants| == |steps|
    ensures r in Candidates(grants, steps) <==>
            exists n :: 0 <= n < |grants| && steps[n].Tried? && Names(r, grants[n])
  {
    if grants != [] {
      var last := |grants| - 1;
      CandidateSources(grants[..last], steps[..last], r);
      assert Names(r, grants[last]) <==> r == RefOf(grants[last]);
      hide Names;
      forall n | 0 <= n < last ensures grants[..last][n] == grants[n] && steps[..last][n] == steps[n] {
      }
    }
  }

  lemma {:induction false} AssociationSources(docs: seq<Association>, r: DaoRef)
    ensures r in AssociationRefs(docs) <==> exists doc :: doc in docs && NamesDoc(r, doc)
  {
    if docs != [] {
      var init, last := docs[..|docs| - 1], docs[|docs| - 1];
      AssociationSources(init, r);
      assert forall doc :: doc in docs <==> doc in init || doc == last;
      assert r in AssociationRef(last) <==> NamesDoc(r, last);
      hide NamesDoc, AssociationRef;
    }
  }

  lemma {:induction false} ReadSources(found: seq<Read>, doc: Association)
    requires AllAssociations(found).Some?
    ensures doc in AllAssociations(found).value <==> IsRead(found, doc)
  {
    if found != [] {
      var last := |found| - 1;
      ReadSources(found[..last], doc);
      if doc in found[last].value {
        assert IsRead(found, doc);
      }
      if n :| 0 <= n < |found[..last]| && found[..last][n].Some? && doc in found[..last][n].value {
        assert found[n].Some? && doc in found[n].value;
      }
      if n :| 0 <= n < |found| && found[n].Some? && doc in found[n].value {
        assert n < last ==> found[..last][n] == found[n];
      }
    }
  }

  lemma BestCovers(candidates: seq<DaoRef>, refs: seq<DaoRef>, c: DaoRef)
    requires AreBestRefs(candidates, refs) && c in candidates
    ensures Covers(refs, c.network, c.daoAddress, c.blockNumber)
  {
    var r :| r in refs && SameDao(r, c);
    var i :| IsBest(candidates, r, i);
    var j :| 0 <= j < |candidates| && candidates[j] == c;
    assert SameDao(candidates[j], r);
  }

  lemma ReferencesExactly(
    refs: seq<DaoRef>, grants: seq<PermissionEvent>, plugins: seq<Plugin>, networks: seq<Network>,
    outcomes: seq<Outcome>, found: seq<Read>)
    requires |outcomes| == |grants| && AllAssociations(found).Some?
    requires AreBestRefs(Candidates(grants, StepsOf(grants, plugins, networks, outcomes))
                         + AssociationRefs(AllAssociations(found).value), refs)
    ensures AreReferences(refs, grants, plugins, networks, found)
  {
    var steps := StepsOf(grants, plugins, networks, outcomes);
    var scanned, associated := Candidates(grants, steps), AssociationRefs(AllAssociations(found).value);
    forall n | 0 <= n < |grants| ensures steps[n].Tried? <==> IsTried(grants, plugins, networks, n) {
      FilteredExactly(grants[n], plugins, networks);
    }
    hide HasNonSafeRow, IsTried, Candidates, AssociationRefs, AllAssociations, StepsOf;
    forall n | 0 <= n < |grants| && IsTried(grants, plugins, networks, n)
      ensures Covers(refs, grants[n].network, grants[n].whereAddress, grants[n].position.blockNumber)
    {
      var g := grants[n];
      var r := DaoRef(g.network, g.whereAddress, g.position.blockNumber, g.transactionHash);
      CandidateSources(grants, steps, r);
      assert Names(r, g) && r in scanned + associated;
      BestCovers(scanned + associated, refs, r);
    }
    forall doc | IsRead(found, doc) && doc.daoAddress.Some?
      ensures Covers(refs, doc.network, doc.daoAddress.value, doc.blockNumber)
    {
      var r := DaoRef(doc.network, doc.daoAddress.value, doc.blockNumber, doc.transactionHash);
      ReadSources(found, doc);
      AssociationSources(AllAssociations(found).value, r);
      assert NamesDoc(r, doc) && r in scanned + associated;
      BestCovers(scanned + associated, refs, r);
    }
    forall r | r in refs
      ensures (exists n :: 0 <= n < |grants| && IsTried(grants, plugins, networks, n) && Names(r, grants[n]))
              || exists doc :: IsRead(found, doc) && NamesDoc(r, doc)
    {
      assert r in scanned + associated;
      CandidateSources(grants, steps, r);
      AssociationSources(AllAssociations(found).value, r);
      if doc :| doc in AllAssociations(found).value && NamesDoc(r, doc) {
        ReadSources(found, doc);
      }
      hide Names, NamesDoc, IsRead;
    }
  }

  /** What makes a finished run exit with failure, by the outcomes of its calls. */
  ghost predicate SomethingFailed(
    refs: seq<DaoRef>, grants: seq<PermissionEvent>, plugins: seq<Plugin>, networks: seq<Network>,
    outcomes: seq<Outcome>, reconcile: DaoRef -> Option<Reconciled>)
    requires |outcomes| == |grants|
  {
    || (exists n :: 0 <= n < |grants| && IsTried(grants, plugins, networks, n)
                    && match outcomes[n]
                       case NotASafe => false
                       case Installed(_, ownersFailed, conditionThrew) => conditionThrew || ownersFailed > 0
                       case _ => true)
    || exists r :: r in refs && reconcile(r).Some? && reconcile(r).value.failed > 0
  }

  lemma FailureExactly(
    refs: seq<DaoRef>, grants: seq<PermissionEvent>, plugins: seq<Plugin>, networks: seq<Network>,
    outcomes: seq<Outcome>, reconcile: DaoRef -> Option<Reconciled>)
    requires |outcomes| == |grants|
    ensures || (exists s :: s in StepsOf(grants, plugins, networks, outcomes) && (IsFailed(s) || OwnersFailedBy(s) > 0))
            || (exists r :: r in refs && FailedBy(reconcile)(r) > 0)
            <==> SomethingFailed(refs, grants, plugins, networks, outcomes, reconcile)
  {
    var steps := StepsOf(grants, plugins, networks, outcomes);
    StepsAreTried(grants, plugins, networks, outcomes);
    hide HasNonSafeRow, IsTried;
    if n :| 0 <= n < |grants| && IsTried(grants, plugins, networks, n)
            && match outcomes[n]
               case NotASafe => false
               case Installed(_, ownersFailed, conditionThrew) => conditionThrew || ownersFailed > 0
               case _ => true {
      assert steps[n] in steps && (IsFailed(steps[n]) || OwnersFailedBy(steps[n]) > 0);
    }
    if r :| r in refs && reconcile(r).Some? && reconcile(r).value.failed > 0 {
      assert FailedBy(reconcile)(r) > 0;
    }
  }

  /** The run after the grants are read. If a read of the associations throws, no DAO is reconciled. Otherwise the DAO
      of every grant past the filter has its best reference, and the DAOs are reconciled in turn up to one that throws.
      A finished run exits with failure exactly when a grant failed, an owner was not written, or a DAO was not
      reconciled. */
  method RegisterSafeProcesses(
    grants: seq<PermissionEvent>, plugins: seq<Plugin>, networks: seq<Network>, outcomes: seq<Outcome>,
    found: seq<Read>, reconcile: DaoRef -> Option<Reconciled>)
    returns (refs: seq<DaoRef>, reconciled: nat, ending: Ending)
    requires |outcomes| == |grants|
    ensures None in found ==> ending.Aborted? && refs == [] && reconciled == 0
    ensures None !in found ==>
              && AllAssociations(found).Some?
              && AreBestRefs(Candidates(grants, StepsOf(grants, plugins, networks, outcomes))
                             + AssociationRefs(AllAssociations(found).value), refs)
              && AreReferences(refs, grants, plugins, networks, found)
    ensures reconciled <= |refs| && forall n | 0 <= n < reconciled :: reconcile(refs[n]).Some?
    ensures None !in found ==> (ending.Aborted? <==> reconciled < |refs|)
    ensures reconciled < |refs| ==> reconcile(refs[reconciled]).None?
    ensures ending.Finished? ==>
              && ending.changed == Sum(refs, ChangedBy(reconcile))
              && (ending.changed == 0 <==>
                    forall r | r in refs && reconcile(r).Some? :: reconcile(r).value.changed == 0)
              && (ending.exitsWithFailure <==>
                    SomethingFailed(refs, grants, plugins, networks, outcomes, reconcile))
  {
    ghost var steps := StepsOf(grants, plugins, networks, outcomes);
    var scan, scanned := ScanGrants(grants, plugins, networks, outcomes);
    var candidates := AppendAssociations(scanned, found);
    if candidates.None? {
      return [], 0, Aborted;
    }
    refs := CollectDaoRefs(candidates.value);
    ReferencesExactly(refs, grants, plugins, networks, outcomes, found);
    FailureExactly(refs, grants, plugins, networks, outcomes, reconcile);
    hide AreReferences, SomethingFailed;
    var changed, failed;
    reconciled, changed, failed := ReconcileDaos(refs, reconcile);
    if reconciled < |refs| {
      return refs, reconciled, Aborted;
    }
    assert refs[..|refs|] == refs;
    ending := Finished(changed, scan.failed + failed > 0 || scan.ownersFailed > 0);
    TallyZero(steps, IsFailed);
    SumZero(steps, OwnersFailedBy);
    SumZero(refs, FailedBy(reconcile));
    SumZero(refs, ChangedBy(reconcile));
    hide AreBestRefs, HasNonSafeRow, Candidates, AllAssociations, AssociationRefs, StepsOf;
  }
}
