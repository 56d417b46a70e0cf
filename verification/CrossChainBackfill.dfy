/** The cross-chain backfill over a plugin collection that its steps update in place. A document is named by its
    position in the collection. */
module CrossChainBackfill {
  import opened Keys
  import opened Chronology
  import opened Plugins
  import opened PermissionLog
  import opened ConditionRecovery

  datatype Counters = Counters(attached: nat, alreadyLinked: nat, mismatched: nat, pluginMissing: nat)

  function CountersOf(verdicts: map<Installation, Verdict>): Counters {
    Counters(|With(verdicts, Attached)|, |With(verdicts, AlreadyLinked)|,
             |With(verdicts, Mismatched)|, |With(verdicts, PluginMissing)|)
  }

  function CountersAfter(verdicts: map<Installation, Verdict>, done: set<Installation>): Counters {
    Counters(|With(verdicts, Attached) * done|, |With(verdicts, AlreadyLinked) * done|,
             |With(verdicts, Mismatched) * done|, |With(verdicts, PluginMissing) * done|)
  }

  function Count(c: Counters, v: Verdict): Counters {
    match v
    case Attached => c.(attached := c.attached + 1)
    case AlreadyLinked => c.(alreadyLinked := c.alreadyLinked + 1)
    case Mismatched => c.(mismatched := c.mismatched + 1)
    case PluginMissing => c.(pluginMissing := c.pluginMissing + 1)
    case Ignored => c
  }

  lemma CountOne(verdicts: map<Installation, Verdict>, done: set<Installation>, i: Installation)
    requires i in verdicts && i !in done
    ensures CountersAfter(verdicts, done + {i}) == Count(CountersAfter(verdicts, done), verdicts[i])
  {
    WithOne(verdicts, done, i, Attached);
    WithOne(verdicts, done, i, AlreadyLinked);
    WithOne(verdicts, done, i, Mismatched);
    WithOne(verdicts, done, i, PluginMissing);
  }

  lemma WithOne(verdicts: map<Installation, Verdict>, done: set<Installation>, i: Installation, v: Verdict)
    requires i in verdicts && i !in done
    ensures |With(verdicts, v) * (done + {i})| == |With(verdicts, v) * done| + if verdicts[i] == v then 1 else 0
  {
    if verdicts[i] == v {
      assert With(verdicts, v) * (done + {i}) == With(verdicts, v) * done + {i};
    } else {
      assert With(verdicts, v) * (done + {i}) == With(verdicts, v) * done;
    }
  }

  /** The counters in the fields of the documents: among the plugins whose last event of the sorted query grants with a
      condition, those without a row, and those whose first row stores the same condition, none, or another one. */
  ghost predicate AreTheCounts(c: Counters, rows: seq<Plugin>, view: seq<PermissionEvent>) {
    && c.pluginMissing == |set i | i in LastWrites(view) && IsGranted(view, i) && HasNoRow(rows, i)|
    && c.alreadyLinked == |set i | i in LastWrites(view) && StoresTheSame(rows, view, i)|
    && c.attached == |set i | i in LastWrites(view) && IsGranted(view, i) && FirstStores(rows, i, None)|
    && c.mismatched == |set i | i in LastWrites(view) && StoresAnother(rows, view, i)|
  }

  lemma CountersExactly(rows: seq<Plugin>, view: seq<PermissionEvent>)
    ensures AreTheCounts(CountersOf(Verdicts(rows, LastWrites(view))), rows, view)
  {
    var newest, v := LastWrites(view), Verdicts(rows, LastWrites(view));
    forall i | i in newest
      ensures v[i] == PluginMissing <==> IsGranted(view, i) && HasNoRow(rows, i)
      ensures v[i] == AlreadyLinked <==> StoresTheSame(rows, view, i)
      ensures v[i] == Attached <==> IsGranted(view, i) && FirstStores(rows, i, None)
      ensures v[i] == Mismatched <==> StoresAnother(rows, view, i)
    {
      VerdictExactly(rows, view, i);
    }
    hide Classify, IsGranted, HasNoRow, StoresTheSame, StoresAnother, FirstStores, With;
    WithIs(v, PluginMissing, set i | i in newest && IsGranted(view, i) && HasNoRow(rows, i));
    WithIs(v, AlreadyLinked, set i | i in newest && StoresTheSame(rows, view, i));
    WithIs(v, Attached, set i | i in newest && IsGranted(view, i) && FirstStores(rows, i, None));
    WithIs(v, Mismatched, set i | i in newest && StoresAnother(rows, view, i));
  }

  lemma WithIs(verdicts: map<Installation, Verdict>, v: Verdict, plugins: set<Installation>)
    requires forall i :: i in plugins <==> i in verdicts && verdicts[i] == v
    ensures With(verdicts, v) == plugins
  {
  }

  class PluginCollection {
    var rows: seq<Plugin>

    constructor (rows: seq<Plugin>)
      ensures this.rows == rows
    {
      this.rows := rows;
    }

    method UpdateConditionAddress(i: Installation, condition: Address)
      modifies this
      ensures rows == UpdateCondition(old(rows), i, Some(condition))
    {
      var row := FindRow(rows, i, true);
      if row.None? || rows[row.value].conditionAddress == Some(condition) {
        return;
      }
      rows := rows[row.value := rows[row.value].(conditionAddress := Some(condition))];
    }
  }

  /** Folds the ascending EXECUTE events into a map from `network:dao:who` to the newest one. `grants` are its values
      in the order of first insertion of their keys, in which a Map is iterated. */
  method IndexGrants(ascending: seq<PermissionEvent>) returns (grants: seq<PermissionEvent>)
    ensures ValuesOf(grants, LastWrites(ascending))
  {
    var newest: map<string, PermissionEvent>, order: seq<string> := map[], [];
    for n := 0 to |ascending|
      invariant Represents(newest, LastWrites(ascending[..n]))
      invariant forall k :: k in order <==> k in newest
      invariant forall a, b | 0 <= a < b < |order| :: order[a] != order[b]
    {
      var k := KeyOf(ascending[n]);
      RepresentsNext(newest, ascending, n);
      order := if k in newest then order else order + [k];
      newest := newest[k := ascending[n]];
    }
    assert ascending[..|ascending|] == ascending;
    grants := seq(|order|, n requires 0 <= n < |order| && order[n] in newest => newest[order[n]]);
    ValuesRepresent(newest, order, grants, LastWrites(ascending));
  }

  /** The string-keyed map holds the entries of the index. */
  ghost predicate Represents(byKey: map<string, PermissionEvent>, newest: Index) {
    && (forall k | k in byKey :: KeyOf(byKey[k]) == k && Grantee(byKey[k]) in newest
                                 && newest[Grantee(byKey[k])] == byKey[k])
    && forall i | i in newest :: KeyOf(newest[i]) in byKey
  }

  lemma RepresentsNext(byKey: map<string, PermissionEvent>, ascending: seq<PermissionEvent>, n: nat)
    requires n < |ascending| && Represents(byKey, LastWrites(ascending[..n]))
    ensures Represents(byKey[KeyOf(ascending[n]) := ascending[n]], LastWrites(ascending[..n + 1]))
  {
    assert ascending[..n + 1][..n] == ascending[..n];
    var e := ascending[n];
    forall o: PermissionEvent | KeyOf(o) == KeyOf(e) ensures Grantee(o) == Grantee(e) {
      KeyNamesGrantee(o, e);
    }
  }

  /** The values of the index, each once. */
  ghost predicate ValuesOf(grants: seq<PermissionEvent>, newest: Index) {
    && (forall g | g in grants :: Grantee(g) in newest && newest[Grantee(g)] == g)
    && (forall i | i in newest :: newest[i] in grants)
    && forall a, b | 0 <= a < b < |grants| :: Grantee(grants[a]) != Grantee(grants[b])
  }

  lemma ValuesRepresent(
    byKey: map<string, PermissionEvent>, order: seq<string>, grants: seq<PermissionEvent>, newest: Index)
    requires Represents(byKey, newest)
    requires forall k :: k in order <==> k in byKey
    requires forall a, b | 0 <= a < b < |order| :: order[a] != order[b]
    requires |grants| == |order| && forall n | 0 <= n < |order| :: grants[n] == byKey[order[n]]
    ensures ValuesOf(grants, newest)
  {
    forall i | i in newest ensures newest[i] in grants {
      var n :| 0 <= n < |order| && order[n] == KeyOf(newest[i]);
      KeyNamesGrantee(grants[n], newest[i]);
    }
    forall a, b | 0 <= a < b < |grants| ensures Grantee(grants[a]) != Grantee(grants[b]) {
      assert KeyOf(grants[a]) == order[a] && KeyOf(grants[b]) == order[b];
    }
  }

  /** One iteration of the recovery. */
  method RecoverGrant(plugins: PluginCollection, grant: PermissionEvent, execute: bool, before: Counters)
    returns (counters: Counters)
    modifies plugins
    ensures counters == Count(before, Classify(old(plugins.rows), grant))
    ensures var i := Installation(grant.network, grant.daoAddress, grant.whoAddress);
            if !grant.granted || grant.conditionAddress.None? then counters == before
            else if HasNoRow(old(plugins.rows), i) then
              counters == before.(pluginMissing := before.pluginMissing + 1)
            else if FirstStores(old(plugins.rows), i, grant.conditionAddress) then
              counters == before.(alreadyLinked := before.alreadyLinked + 1)
            else if FirstStores(old(plugins.rows), i, None) then
              counters == before.(attached := before.attached + 1)
            else counters == before.(mismatched := before.mismatched + 1)
    ensures plugins.rows ==
            if execute && Classify(old(plugins.rows), grant) == Attached
            then UpdateCondition(old(plugins.rows), Grantee(grant), grant.conditionAddress)
            else old(plugins.rows)
  {
    counters := before;
    ClassifyExactly(plugins.rows, grant);
    hide HasNoRow, FirstStores;
    if !Attachable(grant) {
      return;
    }
    var row := FindRow(plugins.rows, Grantee(grant), false);
    if row.None? {
      counters := counters.(pluginMissing := counters.pluginMissing + 1);
      return;
    }
    var condition := plugins.rows[row.value].conditionAddress;
    if condition == grant.conditionAddress {
      counters := counters.(alreadyLinked := counters.alreadyLinked + 1);
      return;
    }
    if condition.Some? {
      counters := counters.(mismatched := counters.mismatched + 1);
      return;
    }
    counters := counters.(attached := counters.attached + 1);
    if !execute {
      return;
    }
    plugins.UpdateConditionAddress(Grantee(grant), grant.conditionAddress.value);
  }

  method RecoverConditionAddresses(plugins: PluginCollection, ascending: seq<PermissionEvent>, execute: bool)
    returns (grants: nat, counters: Counters)
    modifies plugins
    ensures grants == |LastWrites(ascending)|
    ensures counters == CountersOf(Verdicts(old(plugins.rows), LastWrites(ascending)))
    ensures AreTheCounts(counters, old(plugins.rows), ascending)
    ensures plugins.rows == if execute then Recovered(old(plugins.rows), LastWrites(ascending)) else old(plugins.rows)
    ensures execute ==> IsRecovered(old(plugins.rows), plugins.rows, ascending)
  {
    CountersExactly(plugins.rows, ascending);
    RecoveredExactly(plugins.rows, ascending);
    hide AreTheCounts, IsRecovered;
    hide Progress, CountersAfter, Visited, ValuesOf;
    ghost var newest := LastWrites(ascending);
    var events := IndexGrants(ascending);
    grants := |events|;
    counters := Counters(0, 0, 0, 0);
    NothingDone(plugins.rows, newest, events, execute);
    for n := 0 to |events|
      invariant counters == CountersAfter(Verdicts(old(plugins.rows), newest), Visited(events, n))
      invariant plugins.rows == Progress(old(plugins.rows), newest, Visited(events, n), execute)
    {
      VisitOne(events, newest, n);
      Advance(old(plugins.rows), newest, Visited(events, n), events[n], execute);
      counters := RecoverGrant(plugins, events[n], execute, counters);
    }
    AllVisited(events, newest);
    AllDone(old(plugins.rows), newest, execute);
  }

  ghost function Visited(grants: seq<PermissionEvent>, n: nat): set<Installation>
    requires n <= |grants|
  {
    set m | 0 <= m < n :: Grantee(grants[m])
  }

  lemma VisitOne(grants: seq<PermissionEvent>, newest: Index, n: nat)
    requires n < |grants| && ValuesOf(grants, newest)
    ensures var i := Grantee(grants[n]);
            i !in Visited(grants, n) && i in newest && newest[i] == grants[n]
    ensures Visited(grants, n + 1) == Visited(grants, n) + {Grantee(grants[n])}
  {
    assert grants[n] in grants;
  }

  lemma {:induction false} VisitedSize(grants: seq<PermissionEvent>, n: nat)
    requires n <= |grants|
    requires forall a, b | 0 <= a < b < |grants| :: Grantee(grants[a]) != Grantee(grants[b])
    ensures |Visited(grants, n)| == n
  {
    if n == 0 {
      assert Visited(grants, n) == {};
    } else {
      VisitedSize(grants, n - 1);
      assert Visited(grants, n) == Visited(grants, n - 1) + {Grantee(grants[n - 1])};
      assert Grantee(grants[n - 1]) !in Visited(grants, n - 1);
    }
  }

  lemma AllVisited(grants: seq<PermissionEvent>, newest: Index)
    requires ValuesOf(grants, newest)
    ensures Visited(grants, |grants|) == newest.Keys && |grants| == |newest|
  {
    VisitedSize(grants, |grants|);
    forall i | i in newest ensures i in Visited(grants, |grants|) {
      var n :| 0 <= n < |grants| && grants[n] == newest[i];
    }
  }

  /** The collection after the plugins in `done`. */
  ghost function Progress(rows: seq<Plugin>, newest: Index, done: set<Installation>, execute: bool): seq<Plugin> {
    if execute then Recovered(rows, Part(newest, done)) else rows
  }

  lemma NothingDone(rows: seq<Plugin>, newest: Index, grants: seq<PermissionEvent>, execute: bool)
    ensures Visited(grants, 0) == {}
    ensures Progress(rows, newest, Visited(grants, 0), execute) == rows
    ensures CountersAfter(Verdicts(rows, newest), Visited(grants, 0)) == Counters(0, 0, 0, 0)
  {
    assert Visited(grants, 0) == {};
  }

  lemma Advance(rows: seq<Plugin>, newest: Index, done: set<Installation>, grant: PermissionEvent, execute: bool)
    requires var i := Grantee(grant); i in newest && newest[i] == grant && i !in done
    ensures var i, now := Grantee(grant), Progress(rows, newest, done, execute);
            var verdict := Classify(now, grant);
            && CountersAfter(Verdicts(rows, newest), done + {i})
               == Count(CountersAfter(Verdicts(rows, newest), done), verdict)
            && Progress(rows, newest, done + {i}, execute)
               == if execute && verdict == Attached then UpdateCondition(now, i, grant.conditionAddress) else now
  {
    VerdictUnaffected(rows, newest, done, Grantee(grant));
    RecoverOne(rows, newest, done, Grantee(grant));
    CountOne(Verdicts(rows, newest), done, Grantee(grant));
  }

  lemma AllDone(rows: seq<Plugin>, newest: Index, execute: bool)
    ensures Progress(rows, newest, newest.Keys, execute) == if execute then Recovered(rows, newest) else rows
    ensures CountersAfter(Verdicts(rows, newest), newest.Keys) == CountersOf(Verdicts(rows, newest))
  {
    assert Part(newest, newest.Keys) == newest;
    AllCounted(Verdicts(rows, newest), newest.Keys);
  }

  lemma AllCounted(verdicts: map<Installation, Verdict>, done: set<Installation>)
    requires done == verdicts.Keys
    ensures CountersAfter(verdicts, done) == CountersOf(verdicts)
  {
    assert With(verdicts, Attached) * done == With(verdicts, Attached);
    assert With(verdicts, AlreadyLinked) * done == With(verdicts, AlreadyLinked);
    assert With(verdicts, Mismatched) * done == With(verdicts, Mismatched);
    assert With(verdicts, PluginMissing) * done == With(verdicts, PluginMissing);
  }
}
