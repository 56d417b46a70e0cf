/** The repair of installed plugins no slug row points at. */
module MissingSlugs {
  import opened Keys
  import opened Chronology
  import opened Counting
  import opened Plugins
  import opened Slugs

  function KeyOf(i: Installation): string {
    SlugKey(i.network, i.daoAddress, i.address)
  }

  lemma KeyNames(i: Installation, j: Installation)
    ensures KeyOf(i) == KeyOf(j) <==> i == j
  {
    if KeyOf(i) == KeyOf(j) {
      SlugKeyInjective(i.network, i.daoAddress, i.address, j.network, j.daoAddress, j.address);
    }
  }

  /** An installed plugin of the scope without a slug, the reference the key index is measured against. */
  function IsAffected(slugs: seq<SlugRow>, scope: Option<Network>): Plugin -> bool {
    (p: Plugin) => p.status.Installed? && InScope(scope, p.network) && !HasSlug(slugs, InstallationOf(p))
  }

  /** An installed plugin of the scope, with no slug of its network, DAO and address. */
  ghost predicate LacksSlug(p: Plugin, slugs: seq<SlugRow>, scope: Option<Network>) {
    && p.status.Installed? && (scope.None? || scope == Some(p.network))
    && forall r | r in slugs :: !OwnedBy(r, p)
  }

  lemma AffectedExactly(p: Plugin, slugs: seq<SlugRow>, scope: Option<Network>)
    ensures IsAffected(slugs, scope)(p) <==> LacksSlug(p, slugs, scope)
  {
    assert forall r: SlugRow :: OwnedBy(r, p) <==> r.owner == InstallationOf(p);
  }

  /** The set of concatenated keys gives the per-plugin answer, in order. */
  method FindAffected(plugins: seq<Plugin>, slugs: seq<SlugRow>, scope: Option<Network>) returns (affected: seq<Plugin>)
    ensures affected == Select(plugins, IsAffected(slugs, scope))
    ensures forall p :: p in affected <==> p in plugins && LacksSlug(p, slugs, scope)
  {
    forall p: Plugin ensures IsAffected(slugs, scope)(p) <==> LacksSlug(p, slugs, scope) {
      AffectedExactly(p, slugs, scope);
    }
    hide LacksSlug;
    var taken := set r | r in slugs && InScope(scope, r.owner.network) :: KeyOf(r.owner);
    forall p: Plugin | InScope(scope, p.network)
      ensures KeyOf(InstallationOf(p)) in taken <==> HasSlug(slugs, InstallationOf(p))
    {
      if KeyOf(InstallationOf(p)) in taken {
        var r :| r in slugs && InScope(scope, r.owner.network) && KeyOf(r.owner) == KeyOf(InstallationOf(p));
        KeyNames(r.owner, InstallationOf(p));
      }
    }
    var untaken := (p: Plugin) =>
      p.status.Installed? && InScope(scope, p.network) && KeyOf(InstallationOf(p)) !in taken;
    affected := Select(plugins, untaken);
    SelectAgrees(plugins, untaken, IsAffected(slugs, scope));
  }

  // ---- process keys ----

  /** The rows the query for some addresses reads. */
  function CarriesKeyAt(addresses: set<Address>): Plugin -> bool {
    (p: Plugin) => p.processKey.Some? && p.address in addresses
  }

  ghost predicate AscendingBlocks(view: seq<Plugin>, rows: seq<Plugin>) {
    multiset(view) == multiset(rows) && forall a, b | 0 <= a < b < |view| :: view[a].blockNumber <= view[b].blockNumber
  }

  /** The key of a row of the plugin with the highest block among those that carry one. */
  ghost predicate IsNewestKey(plugins: seq<Plugin>, i: Installation, key: string) {
    exists p :: p in plugins && IsSibling(p, i) && p.processKey == Some(key)
                && forall q | q in plugins && IsSibling(q, i) :: q.blockNumber <= p.blockNumber
  }

  /** A row of the plugin with a process key. */
  ghost predicate IsSibling(p: Plugin, i: Installation) {
    p.network == i.network && p.daoAddress == i.daoAddress && p.address == i.address && p.processKey.Some?
  }

  function Addresses(affected: seq<Plugin>): set<Address> {
    set p | p in affected && !IsUsable(p.processKey) :: p.address
  }

  /** Whatever the order the database gives rows of one block, an affected plugin without a process key gets the key
      of one of its newest rows that carry one, and none when no row does: reading the rows of the affected addresses
      only loses no answer. */
  method RecoverProcessKeys(plugins: seq<Plugin>, affected: seq<Plugin>, ascending: seq<Plugin>)
    returns (recovered: map<string, string>)
    requires AscendingBlocks(ascending, Select(plugins, CarriesKeyAt(Addresses(affected))))
    ensures forall p | p in affected && !IsUsable(p.processKey) ::
              Answers(plugins, InstallationOf(p), KeyOf(InstallationOf(p)), recovered)
  {
    recovered := map[];
    for n := 0 to |ascending|
      invariant HoldsLasts(ascending, n, recovered)
    {
      SameMembers(ascending, Select(plugins, CarriesKeyAt(Addresses(affected))));
      assert ascending[n] in ascending;
      HoldsLastsNext(ascending, n, recovered);
      var sibling := ascending[n];
      recovered := recovered[KeyOf(InstallationOf(sibling)) := sibling.processKey.value];
    }
    forall p | p in affected && !IsUsable(p.processKey)
      ensures Answers(plugins, InstallationOf(p), KeyOf(InstallationOf(p)), recovered)
    {
      assert p.address in Addresses(affected);
      RecoveredIsNewest(plugins, Addresses(affected), ascending, recovered, InstallationOf(p));
    }
  }

  /** The map holds, for every key among the first `n` rows, the process key of the last of them with it. */
  ghost predicate HoldsLasts(view: seq<Plugin>, n: nat, recovered: map<string, string>)
    requires n <= |view|
  {
    && (forall m | 0 <= m < n :: KeyOf(InstallationOf(view[m])) in recovered)
    && forall k | k in recovered :: HasLast(view, n, k, recovered[k])
  }

  lemma HoldsLastsNext(view: seq<Plugin>, n: nat, recovered: map<string, string>)
    requires n < |view| && HoldsLasts(view, n, recovered) && view[n].processKey.Some?
    ensures HoldsLasts(view, n + 1, recovered[KeyOf(InstallationOf(view[n])) := view[n].processKey.value])
  {
    var key := KeyOf(InstallationOf(view[n]));
    forall k | k in recovered && k != key ensures HasLast(view, n + 1, k, recovered[k]) {
      var m :| IsLastWith(view, n, k, recovered[k], m);
      assert IsLastWith(view, n + 1, k, recovered[k], m);
    }
    assert IsLastWith(view, n + 1, key, view[n].processKey.value, n);
  }

  ghost predicate Answers(plugins: seq<Plugin>, i: Installation, k: string, recovered: map<string, string>) {
    && (k in recovered <==> exists q :: q in plugins && IsSibling(q, i))
    && (k in recovered ==> IsNewestKey(plugins, i, recovered[k]))
  }

  /** Position `m` is the last below `n` with key `k`, and carries this process key. */
  ghost predicate IsLastWith(view: seq<Plugin>, n: int, k: string, processKey: string, m: int) {
    && 0 <= m < n <= |view|
    && KeyOf(InstallationOf(view[m])) == k && view[m].processKey == Some(processKey)
    && forall l | m < l < n :: KeyOf(InstallationOf(view[l])) != k
  }

  ghost predicate HasLast(view: seq<Plugin>, n: int, k: string, processKey: string) {
    exists m :: IsLastWith(view, n, k, processKey, m)
  }

  /** Reading the rows of some addresses only loses no row of a plugin at one of them. */
  lemma SiblingIsRead(plugins: seq<Plugin>, addresses: set<Address>, ascending: seq<Plugin>, i: Installation, q: Plugin)
    requires i.address in addresses && InstallationOf(q) == i
    requires AscendingBlocks(ascending, Select(plugins, CarriesKeyAt(addresses)))
    ensures q in plugins && IsSibling(q, i) <==> q in ascending
  {
    var read := Select(plugins, CarriesKeyAt(addresses));
    assert q in ascending <==> q in multiset(ascending);
    assert q in multiset(read) <==> q in read;
  }

  lemma LastIsNewestKey(
    plugins: seq<Plugin>, addresses: set<Address>, ascending: seq<Plugin>, i: Installation, key: string, m: int)
    requires i.address in addresses
    requires AscendingBlocks(ascending, Select(plugins, CarriesKeyAt(addresses)))
    requires IsLastWith(ascending, |ascending|, KeyOf(i), key, m)
    ensures IsNewestKey(plugins, i, key)
  {
    var p := ascending[m];
    KeyNames(InstallationOf(p), i);
    assert p in ascending;
    SiblingIsRead(plugins, addresses, ascending, i, p);
    assert IsSibling(p, i);
    forall q | q in plugins && IsSibling(q, i) ensures q.blockNumber <= p.blockNumber {
      SiblingIsRead(plugins, addresses, ascending, i, q);
      var l :| 0 <= l < |ascending| && ascending[l] == q;
      assert l <= m;
    }
  }

  lemma RecoveredIsNewest(
    plugins: seq<Plugin>, addresses: set<Address>, ascending: seq<Plugin>, recovered: map<string, string>,
    i: Installation)
    requires i.address in addresses
    requires AscendingBlocks(ascending, Select(plugins, CarriesKeyAt(addresses)))
    requires HoldsLasts(ascending, |ascending|, recovered)
    ensures Answers(plugins, i, KeyOf(i), recovered)
  {
    if q :| q in plugins && IsSibling(q, i) {
      SiblingIsRead(plugins, addresses, ascending, i, q);
      var l :| 0 <= l < |ascending| && ascending[l] == q;
      assert KeyOf(InstallationOf(ascending[l])) in recovered;
    }
    if KeyOf(i) in recovered {
      var m :| IsLastWith(ascending, |ascending|, KeyOf(i), recovered[KeyOf(i)], m);
      LastIsNewestKey(plugins, addresses, ascending, i, recovered[KeyOf(i)], m);
    }
  }

  // ---- planning and generating ----

  /** `plugin.processKey ?? recovered.get(...)`. */
  function KeyFor(p: Plugin, recovered: map<string, string>): Option<string> {
    var k := KeyOf(InstallationOf(p));
    if p.processKey.Some? then p.processKey else if k in recovered then Some(recovered[k]) else None
  }

  /** A slug is planned from the plugin's own process key if it has one, else from the recovered one, as far as that has
      letters and digits; without a key from the default of its type. */
  ghost predicate CanBePlanned(p: Plugin, recovered: map<string, string>) {
    var k := SlugKey(p.network, p.daoAddress, p.address);
    var key := if p.processKey.Some? then p.processKey.value else if k in recovered then recovered[k] else "";
    if key == "" then DefaultSlug(p.interfaceType).Some? else Sanitize(key) != ""
  }

  lemma PlannableExactly(p: Plugin, recovered: map<string, string>)
    ensures IsPlannable(recovered)(p) <==> CanBePlanned(p, recovered)
  {
    DefaultIsNotEmpty(p.interfaceType);
    hide Sanitize, DefaultSlug;
  }

  function IsPlannable(recovered: map<string, string>): Plugin -> bool {
    (p: Plugin) => IsUsable(ParseProcessKey(p.interfaceType, KeyFor(p, recovered)))
  }

  function Not<T>(wanted: T -> bool): T -> bool {
    (x: T) => !wanted(x)
  }

  /** The two lists are the plannable and the other plugins, in order. */
  ghost predicate IsPlan(
    affected: seq<Plugin>, recovered: map<string, string>, planned: seq<Plugin>, unsupported: seq<Plugin>)
  {
    && planned == Select(affected, IsPlannable(recovered))
    && unsupported == Select(affected, Not(IsPlannable(recovered)))
    && |planned| + |unsupported| == |affected|
  }

  lemma PlanNext(
    affected: seq<Plugin>, n: nat, recovered: map<string, string>, planned: seq<Plugin>, unsupported: seq<Plugin>)
    requires n < |affected| && IsPlan(affected[..n], recovered, planned, unsupported)
    ensures var p := [affected[n]];
            if IsPlannable(recovered)(affected[n]) then IsPlan(affected[..n + 1], recovered, planned + p, unsupported)
            else IsPlan(affected[..n + 1], recovered, planned, unsupported + p)
  {
    SelectNext(affected, n, IsPlannable(recovered));
    SelectNext(affected, n, Not(IsPlannable(recovered)));
  }

  /** Every affected plugin is planned or unsupported, in order, and never both. */
  method Plan(affected: seq<Plugin>, recovered: map<string, string>)
    returns (planned: seq<Plugin>, unsupported: seq<Plugin>)
    ensures IsPlan(affected, recovered, planned, unsupported)
    ensures forall p :: p in planned <==> p in affected && CanBePlanned(p, recovered)
    ensures forall p :: p in unsupported <==> p in affected && !CanBePlanned(p, recovered)
  {
    forall p ensures IsPlannable(recovered)(p) <==> CanBePlanned(p, recovered) {
      PlannableExactly(p, recovered);
    }
    hide CanBePlanned;
    planned, unsupported := [], [];
    for n := 0 to |affected|
      invariant IsPlan(affected[..n], recovered, planned, unsupported)
    {
      hide IsPlan, KeyFor, ParseProcessKey, IsUsable;
      PlanNext(affected, n, recovered, planned, unsupported);
      var slug := ParseProcessKey(affected[n].interfaceType, KeyFor(affected[n], recovered));
      if IsUsable(slug) {
        planned := planned + [affected[n]];
      } else {
        unsupported := unsupported + [affected[n]];
      }
    }
    assert affected[..|affected|] == affected;
  }

  lemma DefaultIsNotEmpty(t: Option<InterfaceType>)
    ensures DefaultSlug(t).Some? ==> IsUsable(DefaultSlug(t))
  {
  }

  /** The defaults are the names of the types, in small letters but for one; stages and controllers have a name of their
      own, and a plugin of unknown or missing type has none. */
  lemma DefaultIsTypeName(t: Option<InterfaceType>)
    ensures DefaultSlug(t).None? <==> t == None || t == Some(Unknown)
    ensures DefaultSlug(t).Some? && t != Some(Spp) && t != Some(CrossChainController) ==>
              && |DefaultSlug(t).value| == |TypeName(t)|
              && forall n | 0 <= n < |TypeName(t)| ::
                   DefaultSlug(t).value[n] ==
                   if t == Some(CapitalDistributor) then TypeName(t)[n] else LowerCase(TypeName(t)[n])
    ensures DefaultSlug(Some(Spp)) == Some("core") && DefaultSlug(Some(CrossChainController)) == Some("crosschain")
  {
    match t
    case None =>
    case Some(TokenVoting) =>
      assert DefaultSlug(t).value == "tokenvoting";
    case Some(_) =>
  }

  /** The key is there, but none of its characters survives. */
  predicate IsLostKey(key: Option<string>) {
    IsUsable(key) && forall c | c in key.value :: !IsSlugChar(LowerCase(c))
  }

  /** A plugin reported as one no slug can be generated for would be given one all the same, exactly when it has a
      process key without letters and digits, its type has a default, and its DAO does not use every candidate of the
      default. */
  lemma UnsupportedThoughNameableExactly(
    plugins: seq<Plugin>, slugs: seq<SlugRow>, scope: Option<Network>, recovered: map<string, string>, p: Plugin)
    requires p in Select(plugins, IsAffected(slugs, scope))
    ensures var key, slug := KeyFor(p, recovered), DefaultSlug(p.interfaceType);
            var unsupported := Select(Select(plugins, IsAffected(slugs, scope)), Not(IsPlannable(recovered)));
            p in unsupported && Generate(slugs, p, key).Some? <==>
              && IsLostKey(key)
              && slug.Some?
              && exists s :: 0 <= s < MAX_RETRIES
                             && !IsTaken(slugs, p.network, p.daoAddress, Candidate(slug.value, s))
  {
    var key := KeyFor(p, recovered);
    assert !HasSlug(slugs, InstallationOf(p));
    DefaultIsNotEmpty(p.interfaceType);
    GenerateResult(slugs, p, key);
    hide HasSlug, IsTaken, Candidate, DefaultSlug, Sanitize, KeyFor, Generate;
    if IsUsable(key) && Sanitize(key.value) == "" {
      assert BaseSlug(p, key) == DefaultSlug(p.interfaceType);
    }
  }

  /** An installed SPP whose process key is a dash, on a DAO without slugs: unsupported, but its slug would be
      "core". */
  lemma UnsupportedPitfall(p: Plugin)
    requires p.status.Installed? && p.interfaceType == Some(Spp) && p.processKey == Some("-")
    ensures Select(Select([p], IsAffected([], None)), Not(IsPlannable(map[]))) == [p]
    ensures Generate([], p, KeyFor(p, map[])) == Some("core")
  {
    assert Sanitize("-") == "";
    assert FreeSuffix([], p, "core") == Some(0);
  }

  /** The process key each planned plugin is given. */
  function KeysFrom(recovered: map<string, string>): Plugin -> Option<string> {
    (p: Plugin) => KeyFor(p, recovered)
  }

  /** What a second scan finds after an applied run: an affected row, and only when the plugin is unsupported or its DAO
      uses every candidate. When the count says every planned slug was created, it finds exactly the unsupported rows
      of the plugins none of whose rows was planned. */
  lemma SecondScan(
    plugins: seq<Plugin>, slugs: seq<SlugRow>, scope: Option<Network>, recovered: map<string, string>, p: Plugin)
    ensures var affected := Select(plugins, IsAffected(slugs, scope));
            var planned := Select(affected, IsPlannable(recovered));
            var unsupported := Select(affected, Not(IsPlannable(recovered)));
            var after := GenerateAll(slugs, planned, KeysFrom(recovered));
            var found := p in Select(plugins, IsAffected(after, scope));
            && (found ==> p in affected && (p in unsupported || IsUnnameable(after, p, KeyFor(p, recovered))))
            && (CreatedBy(slugs, planned, KeysFrom(recovered)) == |planned| ==>
                  (found <==> p in unsupported && !PlansFor(planned, InstallationOf(p))))
  {
    hide HasSlug, IsUnnameable, IsPlannable, KeyFor, GenerateAll;
    var affected := Select(plugins, IsAffected(slugs, scope));
    var planned := Select(affected, IsPlannable(recovered));
    GenerateAllServes(slugs, planned, KeysFrom(recovered), InstallationOf(p));
    if p in affected && IsPlannable(recovered)(p) {
      LeftWithoutSlug(slugs, planned, KeysFrom(recovered), p);
    }
    if q :| q in planned && InstallationOf(q) == InstallationOf(p) {
      LeftWithoutSlug(slugs, planned, KeysFrom(recovered), q);
    }
  }

  /** The whole run; a dry run writes nothing. `ascending` is what the query for the rows with a process key yields. */
  method FixMissingSlugs(
    plugins: seq<Plugin>, slugs: SlugCollection, scope: Option<Network>, ascending: seq<Plugin>, execute: bool)
    returns (planned: seq<Plugin>, unsupported: seq<Plugin>, created: nat, ghost recovered: map<string, string>)
    requires var affected := Select(plugins, IsAffected(slugs.rows, scope));
             AscendingBlocks(ascending, Select(plugins, CarriesKeyAt(Addresses(affected))))
    modifies slugs
    ensures IsPlan(Select(plugins, IsAffected(old(slugs.rows), scope)), recovered, planned, unsupported)
    ensures forall p | p in plugins && IsAffected(old(slugs.rows), scope)(p) && !IsUsable(p.processKey) ::
              Answers(plugins, InstallationOf(p), KeyOf(InstallationOf(p)), recovered)
    ensures slugs.rows ==
            if execute then GenerateAll(old(slugs.rows), planned, KeysFrom(recovered)) else old(slugs.rows)
    ensures created == if execute then CreatedBy(old(slugs.rows), planned, KeysFrom(recovered)) else 0
  {
    var affected := FindAffected(plugins, slugs.rows, scope);
    var keys := RecoverProcessKeys(plugins, affected, ascending);
    recovered := keys;
    planned, unsupported := Plan(affected, keys);
    created := 0;
    if execute {
      created := GenerateSlugs(slugs, planned, KeysFrom(keys));
    }
  }

  // ---- the tally of the unsupported plugins ----

  function TypeName(t: Option<InterfaceType>): string {
    match t
    case None => "null"
    case Some(TokenVoting) => "tokenVoting"
    case Some(Multisig) => "multisig"
    case Some(Admin) => "admin"
    case Some(Spp) => "spp"
    case Some(Gauge) => "gauge"
    case Some(Unknown) => "unknown"
    case Some(LockToVote) => "lockToVote"
    case Some(CapitalDistributor) => "capitalDistributor"
    case Some(Router) => "router"
    case Some(Claimer) => "claimer"
    case Some(CrossChainController) => "crossChainController"
    case Some(Safe) => "safe"
  }

  datatype Kind = Kind(network: Network, interfaceType: Option<InterfaceType>)

  function KindOf(p: Plugin): Kind {
    Kind(p.network, p.interfaceType)
  }

  function KindKey(k: Kind): string {
    Join(k.network, '|', TypeName(k.interfaceType))
  }

  function IsKind(k: Kind): Plugin -> bool {
    (p: Plugin) => KindOf(p) == k
  }

  /** Length and first letter tell the names apart. */
  function NameCode(t: Option<InterfaceType>): (nat, char) {
    match t
    case None => (4, 'n')
    case Some(TokenVoting) => (11, 't')
    case Some(Multisig) => (8, 'm')
    case Some(Admin) => (5, 'a')
    case Some(Spp) => (3, 's')
    case Some(Gauge) => (5, 'g')
    case Some(Unknown) => (7, 'u')
    case Some(LockToVote) => (10, 'l')
    case Some(CapitalDistributor) => (18, 'c')
    case Some(Router) => (6, 'r')
    case Some(Claimer) => (7, 'c')
    case Some(CrossChainController) => (20, 'c')
    case Some(Safe) => (4, 's')
  }

  lemma NameHasCode(t: Option<InterfaceType>)
    ensures |TypeName(t)| == NameCode(t).0 && TypeName(t)[0] == NameCode(t).1
  {
  }

  lemma LongNameLacksBar(t: Option<InterfaceType>)
    requires NameCode(t).0 > 8
    ensures Lacks('|', TypeName(t))
  {
  }

  lemma NameLacksBar(t: Option<InterfaceType>)
    ensures Lacks('|', TypeName(t))
  {
    if NameCode(t).0 > 8 {
      LongNameLacksBar(t);
    }
  }

  lemma KindKeyInjective(k: Kind, l: Kind)
    ensures KindKey(k) == KindKey(l) <==> k == l
  {
    NameHasCode(k.interfaceType);
    NameHasCode(l.interfaceType);
    NameLacksBar(k.interfaceType);
    NameLacksBar(l.interfaceType);
    hide TypeName;
    if KindKey(k) == KindKey(l) {
      JoinInjective(k.network, TypeName(k.interfaceType), l.network, TypeName(l.interfaceType), '|');
    }
  }

  /** Counts the plugins by `network|interfaceType`: the entry of a kind is the number of its plugins, and the entries
      add up to all of them. */
  method TallyByKind(rows: seq<Plugin>) returns (counts: map<string, nat>)
    ensures Total(counts) == |rows|
    ensures forall k: Kind :: Tally(rows, IsKind(k)) == if KindKey(k) in counts then counts[KindKey(k)] else 0
    ensures forall k: Kind ::
              |set n | 0 <= n < |rows| && rows[n].network == k.network && rows[n].interfaceType == k.interfaceType|
              == if KindKey(k) in counts then counts[KindKey(k)] else 0
  {
    counts := map[];
    for n := 0 to |rows|
      invariant Total(counts) == n
      invariant forall k: Kind :: Tally(rows[..n], IsKind(k)) == if KindKey(k) in counts then counts[KindKey(k)] else 0
    {
      var key := KindKey(KindOf(rows[n]));
      TotalNext(counts, key);
      counts := counts[key := (if key in counts then counts[key] else 0) + 1];
      forall k: Kind
        ensures Tally(rows[..n + 1], IsKind(k)) == if KindKey(k) in counts then counts[KindKey(k)] else 0
      {
        assert rows[..n + 1][..n] == rows[..n];
        KindKeyInjective(k, KindOf(rows[n]));
      }
    }
    assert rows[..|rows|] == rows;
    forall k: Kind
      ensures |set n | 0 <= n < |rows| && rows[n].network == k.network && rows[n].interfaceType == k.interfaceType|
              == Tally(rows, IsKind(k))
    {
      KindCount(rows, k);
    }
  }

  lemma KindCount(rows: seq<Plugin>, k: Kind)
    ensures Tally(rows, IsKind(k)) ==
            |set n | 0 <= n < |rows| && rows[n].network == k.network && rows[n].interfaceType == k.interfaceType|
  {
    TallyIsSize(
      rows, IsKind(k),
      set n | 0 <= n < |rows| && rows[n].network == k.network && rows[n].interfaceType == k.interfaceType);
  }
}
