/** The backfill of the objection flag: token voting plugins without any setting are probed, and the row a lookup by
    address finds for a detected one is flagged. */
module ObjectionFlags {
  import opened Keys
  import opened Chronology
  import opened Plugins
  import opened PluginUpdates
  import opened CrossChainBackfill

  const MIN_BLOCK_NUMBER := 11327111

  predicate IsScanned(p: Plugin) {
    p.interfaceType == Some(TokenVoting) && !p.isObjection && p.blockNumber > MIN_BLOCK_NUMBER
  }

  function ContractOf(p: Plugin): Contract {
    Contract(p.network, p.address)
  }

  function KeyOf(c: Contract): string {
    PluginKey(c.network, c.address)
  }

  /** A scanned plugin that no setting row names, looked up by network and address. */
  predicate IsCandidate(settings: seq<Contract>, p: Plugin) {
    IsScanned(p) && ContractOf(p) !in settings
  }

  /** A token voting plugin written after block 11327111, not flagged yet, without a setting of its network and
      address. */
  ghost predicate MayObject(p: Plugin, settings: seq<Contract>) {
    && p.interfaceType == Some(TokenVoting) && !p.isObjection && p.blockNumber > 11327111
    && forall s | s in settings :: s.network != p.network || s.address != p.address
  }

  lemma CandidateExactly(p: Plugin, settings: seq<Contract>)
    ensures IsCandidate(settings, p) <==> MayObject(p, settings)
  {
  }

  /** One query on the addresses of the scanned plugins, then a set of `network:address` keys, gives the same answer as
      one lookup per plugin: settings of other networks at the same address do not hide a plugin. */
  method FindCandidates(rows: seq<Plugin>, settings: seq<Contract>) returns (candidates: seq<nat>)
    ensures forall a, b | 0 <= a < b < |candidates| :: candidates[a] < candidates[b]
    ensures forall n :: n in candidates <==> 0 <= n < |rows| && IsCandidate(settings, rows[n])
    ensures forall n :: n in candidates <==> 0 <= n < |rows| && MayObject(rows[n], settings)
  {
    forall p ensures IsCandidate(settings, p) <==> MayObject(p, settings) {
      CandidateExactly(p, settings);
    }
    hide MayObject;
    var addresses := set p | p in rows && IsScanned(p) :: p.address;
    var withSetting := set c | c in settings && c.address in addresses :: KeyOf(c);
    candidates := [];
    for n := 0 to |rows|
      invariant forall a, b | 0 <= a < b < |candidates| :: candidates[a] < candidates[b]
      invariant forall a | 0 <= a < |candidates| :: candidates[a] < n
      invariant forall m :: m in candidates <==> 0 <= m < n && IsCandidate(settings, rows[m])
    {
      if IsScanned(rows[n]) {
        assert rows[n] in rows && rows[n].address in addresses;
        WithSettingIsExact(settings, addresses, ContractOf(rows[n]));
        if KeyOf(ContractOf(rows[n])) !in withSetting {
          candidates := candidates + [n];
        }
      }
    }
  }

  lemma WithSettingIsExact(settings: seq<Contract>, addresses: set<Address>, c: Contract)
    requires c.address in addresses
    ensures KeyOf(c) in (set d | d in settings && d.address in addresses :: KeyOf(d)) <==> c in settings
  {
    if d :| d in settings && d.address in addresses && KeyOf(d) == KeyOf(c) {
      JoinInjective(d.network, d.address, c.network, c.address, ':');
    }
  }

  predicate IsRowOf(p: Plugin, c: Contract, supported: bool) {
    ContractOf(p) == c && p.isSupported == supported && p.interfaceType != Some(Safe)
  }

  function FindFirst(rows: seq<Plugin>, c: Contract, supported: bool, from: nat := 0): (found: Option<nat>)
    requires from <= |rows|
    ensures found.Some? ==> from <= found.value < |rows| && IsRowOf(rows[found.value], c, supported)
    ensures found.None? ==> forall n | from <= n < |rows| :: !IsRowOf(rows[n], c, supported)
    decreases |rows| - from
  {
    if from == |rows| then None
    else if IsRowOf(rows[from], c, supported) then Some(from)
    else FindFirst(rows, c, supported, from + 1)
  }

  /** `findByAddress`: a supported row of the address first, never a Safe's. */
  function FindByAddress(rows: seq<Plugin>, c: Contract): (found: Option<nat>)
    ensures found.Some? ==> found.value < |rows| && ContractOf(rows[found.value]) == c
  {
    var supported := FindFirst(rows, c, true);
    if supported.Some? then supported else FindFirst(rows, c, false)
  }

  /** The rows of the flagged positions, flagged. */
  function Flagged(rows: seq<Plugin>, positions: set<nat>): seq<Plugin> {
    seq(|rows|, n requires 0 <= n < |rows| => if n in positions then rows[n].(isObjection := true) else rows[n])
  }

  lemma FlagIsNotRead(rows: seq<Plugin>, positions: set<nat>, c: Contract, supported: bool, n: nat)
    requires n < |rows|
    ensures |Flagged(rows, positions)| == |rows|
    ensures IsRowOf(Flagged(rows, positions)[n], c, supported) <==> IsRowOf(rows[n], c, supported)
  {
  }

  /** The lookup does not read the flag. */
  lemma {:induction false} FlagsDoNotMatter(
    rows: seq<Plugin>, positions: set<nat>, c: Contract, supported: bool, from: nat)
    requires from <= |rows|
    ensures FindFirst(Flagged(rows, positions), c, supported, from) == FindFirst(rows, c, supported, from)
    decreases |rows| - from
  {
    if from < |rows| {
      FlagsDoNotMatter(rows, positions, c, supported, from + 1);
      FlagIsNotRead(rows, positions, c, supported, from);
      hide IsRowOf, Flagged;
    }
  }

  /** What the calls for the candidates come to: whose bytecode shows an objection plugin, for which positions the
      update of the row found fails, and after which the sync of the settings throws. */
  datatype Probe = Probe(detected: Contract -> bool, lost: set<nat>, aborts: set<nat>)

  /** The candidate is counted. */
  function IsFlagged(rows: seq<Plugin>, probe: Probe): nat -> bool {
    (n: nat) => n < |rows| && probe.detected(ContractOf(rows[n])) && n !in probe.lost
  }

  /** What the lookups for the counted candidates find. */
  function Found(rows: seq<Plugin>, candidates: seq<nat>, probe: Probe): set<nat> {
    set n | n in candidates && IsFlagged(rows, probe)(n) && FindByAddress(rows, ContractOf(rows[n])).Some?
          :: FindByAddress(rows, ContractOf(rows[n])).value
  }

  // ---- the same in the fields of the documents ----

  ghost predicate IsNoSafesAt(p: Plugin, network: Network, address: Address) {
    p.network == network && p.address == address && p.interfaceType != Some(Safe)
  }

  /** The row a lookup by the plugin's address yields: the first supported one that is no Safe's, else the first. */
  ghost predicate IsFoundFor(rows: seq<Plugin>, p: Plugin, n: int) {
    && 0 <= n < |rows| && IsNoSafesAt(rows[n], p.network, p.address)
    && (rows[n].isSupported ||
        forall m | 0 <= m < |rows| && IsNoSafesAt(rows[m], p.network, p.address) :: !rows[m].isSupported)
    && forall m | 0 <= m < n && IsNoSafesAt(rows[m], p.network, p.address) :: rows[m].isSupported != rows[n].isSupported
  }

  /** What a run leaves: the rows found for the detected candidates whose update succeeds are flagged, and nothing else
      of any row changes. */
  ghost predicate AreFlagged(rows: seq<Plugin>, after: seq<Plugin>, candidates: seq<nat>, probe: Probe) {
    |after| == |rows| && forall n | 0 <= n < |rows| :: IsFlaggedRow(after[n], rows, candidates, probe, n)
  }

  ghost predicate IsFlaggedRow(q: Plugin, rows: seq<Plugin>, candidates: seq<nat>, probe: Probe, n: nat)
    requires n < |rows|
  {
    && q == rows[n].(isObjection := q.isObjection)
    && (q.isObjection <==> rows[n].isObjection || exists m :: Flags(rows, candidates, probe, m, n))
  }

  /** Candidate `m` is detected, its update succeeds, and its row is the one found for it. */
  ghost predicate Flags(rows: seq<Plugin>, candidates: seq<nat>, probe: Probe, m: nat, n: nat) {
    && m in candidates && m < |rows| && m !in probe.lost
    && probe.detected(Contract(rows[m].network, rows[m].address)) && IsFoundFor(rows, rows[m], n)
  }

  lemma {:induction false} FirstExactly(rows: seq<Plugin>, c: Contract, supported: bool, from: nat)
    requires from <= |rows|
    ensures FindFirst(rows, c, supported, from).Some? ==>
              forall m | from <= m < FindFirst(rows, c, supported, from).value :: !IsRowOf(rows[m], c, supported)
    decreases |rows| - from
  {
    if from < |rows| && !IsRowOf(rows[from], c, supported) {
      FirstExactly(rows, c, supported, from + 1);
    }
  }

  lemma FoundExactly(rows: seq<Plugin>, p: Plugin, n: nat)
    ensures FindByAddress(rows, ContractOf(p)) == Some(n) <==> IsFoundFor(rows, p, n)
  {
    FirstExactly(rows, ContractOf(p), true, 0);
    FirstExactly(rows, ContractOf(p), false, 0);
    forall m: nat | m < |rows|
      ensures IsRowOf(rows[m], ContractOf(p), true) <==>
              IsNoSafesAt(rows[m], p.network, p.address) && rows[m].isSupported
      ensures IsRowOf(rows[m], ContractOf(p), false) <==>
              IsNoSafesAt(rows[m], p.network, p.address) && !rows[m].isSupported
    {
    }
    hide FindFirst, IsRowOf, IsNoSafesAt;
  }

  lemma FoundSetExactly(rows: seq<Plugin>, candidates: seq<nat>, probe: Probe, n: nat)
    ensures n in Found(rows, candidates, probe) <==> exists m :: Flags(rows, candidates, probe, m, n)
  {
    hide FindByAddress, IsFoundFor;
    if m: nat :| Flags(rows, candidates, probe, m, n) {
      FoundExactly(rows, rows[m], n);
      assert IsFlagged(rows, probe)(m);
    }
    if m :| m in candidates && IsFlagged(rows, probe)(m) && FindByAddress(rows, ContractOf(rows[m])) == Some(n) {
      FoundExactly(rows, rows[m], n);
      assert Flags(rows, candidates, probe, m, n);
    }
  }

  lemma FlaggedExactly(rows: seq<Plugin>, candidates: seq<nat>, probe: Probe)
    ensures AreFlagged(rows, Flagged(rows, Found(rows, candidates, probe)), candidates, probe)
  {
    hide Found, Flags, IsFlaggedRow;
    var after := Flagged(rows, Found(rows, candidates, probe));
    forall n | 0 <= n < |rows| ensures IsFlaggedRow(after[n], rows, candidates, probe, n) {
      FlaggedRowExactly(rows, candidates, probe, n);
    }
  }

  lemma FlaggedRowExactly(rows: seq<Plugin>, candidates: seq<nat>, probe: Probe, n: nat)
    requires n < |rows|
    ensures IsFlaggedRow(Flagged(rows, Found(rows, candidates, probe))[n], rows, candidates, probe, n)
  {
    FoundSetExactly(rows, candidates, probe, n);
    hide Found, Flags;
  }

  ghost predicate AreScanned(rows: seq<Plugin>, candidates: seq<nat>) {
    forall a | 0 <= a < |candidates| :: candidates[a] < |rows| && IsScanned(rows[candidates[a]])
  }

  /** The row of the candidate is flagged, and the run ends there. */
  function Aborts(rows: seq<Plugin>, probe: Probe): nat -> bool {
    (n: nat) => IsFlagged(rows, probe)(n) && n in probe.aborts
  }

  /** Flags the rows the lookups find, whatever the order, up to the first candidate whose sync throws; every detected
      candidate before it whose update succeeds is counted. */
  method FlagCandidates(plugins: PluginCollection, candidates: seq<nat>, probe: Probe)
    returns (flagged: nat, visited: nat, aborted: bool)
    requires AreScanned(plugins.rows, candidates)
    modifies plugins
    ensures visited <= |candidates| && (!aborted ==> visited == |candidates|)
    ensures aborted ==> visited > 0 && Aborts(old(plugins.rows), probe)(candidates[visited - 1])
    ensures forall n | 0 <= n < (if aborted then visited - 1 else visited) ::
              !Aborts(old(plugins.rows), probe)(candidates[n])
    ensures plugins.rows == Flagged(old(plugins.rows), Found(old(plugins.rows), candidates[..visited], probe))
    ensures flagged + (if aborted then 1 else 0) == |Select(candidates[..visited], IsFlagged(old(plugins.rows), probe))|
    ensures AreFlagged(old(plugins.rows), plugins.rows, candidates[..visited], probe)
  {
    hide AreFlagged;
    hide Found, FindByAddress, Flagged, IsScanned;
    var rows := plugins.rows;
    flagged, visited, aborted := 0, 0, false;
    NothingFlagged(rows, probe);
    while visited < |candidates|
      invariant visited <= |candidates| && !aborted
      invariant forall n | 0 <= n < visited :: !Aborts(rows, probe)(candidates[n])
      invariant plugins.rows == Flagged(rows, Found(rows, candidates[..visited], probe))
      invariant flagged == |Select(candidates[..visited], IsFlagged(rows, probe))|
    {
      var candidate := candidates[visited];
      FlaggedNext(candidates, visited, rows, probe);
      FoundNext(rows, candidates, visited, probe);
      var c := ContractOf(rows[candidate]);
      if probe.detected(c) && candidate !in probe.lost {
        SameLookup(rows, Found(rows, candidates[..visited], probe), c);
        CandidateIsFound(rows, candidate);
        var row := FindByAddress(plugins.rows, c);
        plugins.rows := plugins.rows[row.value := plugins.rows[row.value].(isObjection := true)];
        if candidate in probe.aborts {
          visited, aborted := visited + 1, true;
          FlaggedExactly(rows, candidates[..visited], probe);
          return;
        }
        flagged := flagged + 1;
      }
      visited := visited + 1;
    }
    FlaggedExactly(rows, candidates[..visited], probe);
  }

  lemma NothingFlagged(rows: seq<Plugin>, probe: Probe)
    ensures Flagged(rows, Found(rows, [], probe)) == rows
  {
  }

  lemma SameLookup(rows: seq<Plugin>, positions: set<nat>, c: Contract)
    ensures FindByAddress(Flagged(rows, positions), c) == FindByAddress(rows, c)
  {
    FlagsDoNotMatter(rows, positions, c, true, 0);
    FlagsDoNotMatter(rows, positions, c, false, 0);
  }

  /** One more candidate adds the row its lookup finds, if it is counted. */
  lemma FoundNext(rows: seq<Plugin>, candidates: seq<nat>, n: nat, probe: Probe)
    requires n < |candidates| && AreScanned(rows, candidates)
    ensures var c := ContractOf(rows[candidates[n]]);
            var was, found := Found(rows, candidates[..n], probe), FindByAddress(rows, c);
            && found.Some?
            && Found(rows, candidates[..n + 1], probe) ==
               (if IsFlagged(rows, probe)(candidates[n]) then was + {found.value} else was)
            && Flagged(rows, was + {found.value}) ==
               Flagged(rows, was)[found.value := Flagged(rows, was)[found.value].(isObjection := true)]
  {
    assert candidates[n] in candidates;
    CandidateIsFound(rows, candidates[n]);
    assert candidates[..n + 1] == candidates[..n] + [candidates[n]];
    assert forall m :: m in candidates[..n + 1] <==> m in candidates[..n] || m == candidates[n];
    hide FindByAddress;
  }

  lemma {:induction false} FlaggedNext(candidates: seq<nat>, n: nat, rows: seq<Plugin>, probe: Probe)
    requires n < |candidates|
    ensures |Select(candidates[..n + 1], IsFlagged(rows, probe))| ==
            |Select(candidates[..n], IsFlagged(rows, probe))| + if IsFlagged(rows, probe)(candidates[n]) then 1 else 0
  {
    if n > 0 {
      FlaggedNext(candidates[1..], n - 1, rows, probe);
      assert candidates[..n + 1][1..] == candidates[1..][..n] && candidates[..n][1..] == candidates[1..][..n - 1];
    }
  }

  lemma CandidateIsFound(rows: seq<Plugin>, n: nat)
    requires n < |rows| && IsScanned(rows[n])
    ensures FindByAddress(rows, ContractOf(rows[n])).Some?
  {
    assert IsRowOf(rows[n], ContractOf(rows[n]), rows[n].isSupported);
  }

  /** A counted candidate stays unflagged exactly when the lookup by address finds another row of its address. */
  lemma CountedButUnflaggedExactly(rows: seq<Plugin>, candidates: seq<nat>, probe: Probe, n: nat)
    requires n < |rows| && IsScanned(rows[n])
    requires n in candidates && IsFlagged(rows, probe)(n)
    ensures !Flagged(rows, Found(rows, candidates, probe))[n].isObjection <==>
            FindByAddress(rows, ContractOf(rows[n])) != Some(n)
  {
    CandidateIsFound(rows, n);
    if n in Found(rows, candidates, probe) {
      var m :| m in candidates && IsFlagged(rows, probe)(m) && FindByAddress(rows, ContractOf(rows[m])) == Some(n);
      assert ContractOf(rows[FindByAddress(rows, ContractOf(rows[m])).value]) == ContractOf(rows[m]);
    }
  }

  /** An old unsupported row of a detected plugin beside its supported one: counted twice, flagged once. */
  lemma UnflaggedPitfall(p: Plugin)
    requires IsScanned(p)
    ensures var rows, candidates: seq<nat> := [p.(isSupported := false), p.(isSupported := true)], [0, 1];
            var after := Flagged(rows, Found(rows, candidates, Probe(c => true, {}, {})));
            && |Select(candidates, IsFlagged(rows, Probe(c => true, {}, {})))| == 2
            && !after[0].isObjection && after[1].isObjection
  {
    var rows, probe := [p.(isSupported := false), p.(isSupported := true)], Probe(c => true, {}, {});
    var c := ContractOf(p);
    assert !IsRowOf(rows[0], c, true) && IsRowOf(rows[1], c, true);
    assert FindFirst(rows, c, true, 1) == Some(1);
    var candidates: seq<nat>, second: seq<nat> := [0, 1], [1];
    CountedButUnflaggedExactly(rows, candidates, probe, 0);
    CountedButUnflaggedExactly(rows, candidates, probe, 1);
    assert candidates[1..] == second;
    assert Select(second, IsFlagged(rows, probe)) == [1];
  }
}
