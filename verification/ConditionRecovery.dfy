/** What the condition recovery does to the plugin collection, as a closed form over the collection it found:
    no trace of the order in which the index is walked and of the writes made on the way. */
module ConditionRecovery {
  import opened Keys
  import opened Chronology
  import opened Counting
  import opened Plugins
  import opened PermissionLog

  /** `findOne` on address, dao and network, among the installed rows only when `live`: the first row the
      collection yields. */
  function FindRow(rows: seq<Plugin>, i: Installation, live: bool, from: nat := 0): (found: Option<nat>)
    requires from <= |rows|
    ensures found.Some? ==> from <= found.value < |rows| && Fits(rows[found.value], i, live)
    decreases |rows| - from
  {
    if from == |rows| then None
    else if Fits(rows[from], i, live) then Some(from)
    else FindRow(rows, i, live, from + 1)
  }

  /** No row before the found one fits, and none at all when nothing is found. */
  lemma {:induction false} FindRowFirst(rows: seq<Plugin>, i: Installation, live: bool, from: nat := 0)
    requires from <= |rows|
    ensures var found := FindRow(rows, i, live, from);
            forall n | from <= n < (if found.Some? then found.value else |rows|) :: !Fits(rows[n], i, live)
    decreases |rows| - from
  {
    if from < |rows| && !Fits(rows[from], i, live) {
      FindRowFirst(rows, i, live, from + 1);
    }
  }

  predicate Fits(p: Plugin, i: Installation, live: bool) {
    InstallationOf(p) == i && (live ==> p.status.Installed?)
  }

  datatype Verdict = Ignored | PluginMissing | AlreadyLinked | Mismatched | Attached

  predicate Attachable(e: PermissionEvent) {
    e.granted && e.conditionAddress.Some?
  }

  function Classify(rows: seq<Plugin>, grant: PermissionEvent): Verdict {
    if !Attachable(grant) then Ignored
    else
      var row := FindRow(rows, Grantee(grant), false);
      if row.None? then PluginMissing
      else if rows[row.value].conditionAddress == grant.conditionAddress then AlreadyLinked
      else if rows[row.value].conditionAddress.Some? then Mismatched
      else Attached
  }

  function Verdicts(rows: seq<Plugin>, newest: Index): map<Installation, Verdict> {
    map i | i in newest :: Classify(rows, newest[i])
  }

  /** The plugins with one verdict; a counter is the size of this set. */
  function With(verdicts: map<Installation, Verdict>, v: Verdict): set<Installation> {
    set i | i in verdicts && verdicts[i] == v
  }

  /** `updateConditionAddress`: unlike the recovery's own lookup it only sees installed rows. */
  function UpdateCondition(rows: seq<Plugin>, i: Installation, condition: Option<Address>): seq<Plugin> {
    var row := FindRow(rows, i, true);
    if row.None? then rows else rows[row.value := rows[row.value].(conditionAddress := condition)]
  }

  /** The recovery's write for this row's plugin lands on this row. */
  predicate Written(rows: seq<Plugin>, newest: Index, n: nat)
    requires n < |rows|
  {
    var i := InstallationOf(rows[n]);
    i in newest && Classify(rows, newest[i]) == Attached && FindRow(rows, i, true) == Some(n)
  }

  function Recovered(rows: seq<Plugin>, newest: Index): (after: seq<Plugin>)
    ensures |after| == |rows|
    ensures forall n | 0 <= n < |rows| ::
              after[n] == if Written(rows, newest, n) then
                rows[n].(conditionAddress := newest[InstallationOf(rows[n])].conditionAddress) else rows[n]
  {
    seq(|rows|, n requires 0 <= n < |rows| =>
      if Written(rows, newest, n) then
        rows[n].(conditionAddress := newest[InstallationOf(rows[n])].conditionAddress)
      else rows[n])
  }

  function Part(newest: Index, plugins: set<Installation>): (part: Index)
    ensures part.Keys == newest.Keys * plugins
    ensures forall i | i in part :: part[i] == newest[i]
  {
    map i | i in newest && i in plugins :: newest[i]
  }

  /** Same plugins with the same status, row by row. */
  ghost predicate SameRows(rows: seq<Plugin>, rows': seq<Plugin>) {
    && |rows| == |rows'|
    && forall n | 0 <= n < |rows| ::
         InstallationOf(rows[n]) == InstallationOf(rows'[n]) && rows[n].status == rows'[n].status
  }

  lemma SameRowsFind(rows: seq<Plugin>, rows': seq<Plugin>, i: Installation, live: bool)
    requires SameRows(rows, rows')
    ensures FindRow(rows, i, live) == FindRow(rows', i, live)
  {
    var row, row' := FindRow(rows, i, live), FindRow(rows', i, live);
    FindRowFirst(rows, i, live);
    FindRowFirst(rows', i, live);
    assert forall n | 0 <= n < |rows| :: Fits(rows[n], i, live) == Fits(rows'[n], i, live);
    if row.Some? {
      assert Fits(rows'[row.value], i, live);
    }
    if row'.Some? {
      assert Fits(rows[row'.value], i, live);
    }
  }

  /** One iteration after those for `done`: the verdict is the one the untouched collection gives. */
  lemma VerdictUnaffected(rows: seq<Plugin>, newest: Index, done: set<Installation>, i: Installation)
    requires i in newest && i !in done
    ensures Classify(Recovered(rows, Part(newest, done)), newest[i]) == Classify(rows, newest[i])
  {
    SameRowsFind(rows, Recovered(rows, Part(newest, done)), i, false);
  }

  /** The write of one iteration extends the closed form by its plugin. */
  lemma RecoverOne(rows: seq<Plugin>, newest: Index, done: set<Installation>, i: Installation)
    requires i in newest && i !in done
    ensures var now := Recovered(rows, Part(newest, done));
            Recovered(rows, Part(newest, done + {i})) ==
            if Classify(rows, newest[i]) == Attached then UpdateCondition(now, i, newest[i].conditionAddress) else now
  {
    var now, next := Recovered(rows, Part(newest, done)), Recovered(rows, Part(newest, done + {i}));
    var updated := UpdateCondition(now, i, newest[i].conditionAddress);
    SameRowsFind(rows, now, i, true);
    forall n | 0 <= n < |rows|
      ensures next[n] == if Classify(rows, newest[i]) == Attached then updated[n] else now[n]
    {
      RecoverOneRow(rows, newest, done, i, n);
    }
  }

  lemma RecoverOneRow(rows: seq<Plugin>, newest: Index, done: set<Installation>, i: Installation, n: nat)
    requires i in newest && i !in done && n < |rows|
    ensures var was, next := Recovered(rows, Part(newest, done))[n], Recovered(rows, Part(newest, done + {i}))[n];
            next == if Classify(rows, newest[i]) == Attached && FindRow(rows, i, true) == Some(n)
                    then was.(conditionAddress := newest[i].conditionAddress) else was
  {
    var part, part' := Part(newest, done), Part(newest, done + {i});
    if InstallationOf(rows[n]) == i {
      assert i !in part && part'[i] == newest[i];
    } else {
      assert FindRow(rows, i, true) != Some(n);
      assert InstallationOf(rows[n]) in part <==> InstallationOf(rows[n]) in part';
    }
  }

  /** The first row of the plugin is its first installed row. */
  predicate ReadsWhatItWrites(rows: seq<Plugin>, i: Installation) {
    FindRow(rows, i, false).Some? && FindRow(rows, i, false) == FindRow(rows, i, true)
  }

  /** A plugin that was attached reads as linked afterwards exactly when the row read is the row written. */
  lemma VerdictAfterRun(rows: seq<Plugin>, newest: Index, i: Installation)
    requires i in newest
    ensures Classify(Recovered(rows, newest), newest[i]) ==
            if Classify(rows, newest[i]) == Attached && ReadsWhatItWrites(rows, i) then AlreadyLinked
            else Classify(rows, newest[i])
  {
    SameRowsFind(rows, Recovered(rows, newest), i, false);
  }

  lemma VerdictsPartition(verdicts: map<Installation, Verdict>)
    ensures |With(verdicts, Attached)| + |With(verdicts, AlreadyLinked)| + |With(verdicts, Mismatched)|
            + |With(verdicts, PluginMissing)| + |With(verdicts, Ignored)| == |verdicts|
  {
    FiveParts(
      verdicts.Keys, With(verdicts, Attached), With(verdicts, AlreadyLinked), With(verdicts, Mismatched),
      With(verdicts, PluginMissing), With(verdicts, Ignored));
  }

  /** The four counters add up to the plugins whose newest event is a grant with a condition. */
  lemma CountersAddUp(rows: seq<Plugin>, newest: Index)
    ensures var v := Verdicts(rows, newest);
            |With(v, Attached)| + |With(v, AlreadyLinked)| + |With(v, Mismatched)| + |With(v, PluginMissing)|
            == |set i | i in newest && Attachable(newest[i])|
  {
    var v := Verdicts(rows, newest);
    assert forall i | i in newest :: v[i] == Ignored <==> !Attachable(newest[i]);
    hide Classify, Attachable;
    VerdictsPartition(v);
    TwoParts(v.Keys, With(v, Ignored), set i | i in newest && Attachable(newest[i]));
  }

  /** When some plugins become linked and no other verdict changes, the counters move by their number. */
  lemma CountersMove(v: map<Installation, Verdict>, v': map<Installation, Verdict>, moved: set<Installation>)
    requires v.Keys == v'.Keys
    requires forall i | i in moved :: i in v && v[i] != AlreadyLinked
    requires forall i | i in v :: v'[i] == if i in moved then AlreadyLinked else v[i]
    ensures |With(v', AlreadyLinked)| == |With(v, AlreadyLinked)| + |moved|
    ensures With(v', Attached) == With(v, Attached) - moved
    ensures With(v', Mismatched) == With(v, Mismatched) - moved
    ensures With(v', PluginMissing) == With(v, PluginMissing) - moved
  {
    assert With(v', AlreadyLinked) == With(v, AlreadyLinked) + moved;
    assert With(v, AlreadyLinked) !! moved;
  }

  /** The attached plugins whose write lands on the row the recovery reads. */
  function Linked(rows: seq<Plugin>, newest: Index): set<Installation> {
    set i | i in newest && Classify(rows, newest[i]) == Attached && ReadsWhatItWrites(rows, i)
  }

  /** What a second run of the same index reports: it attaches again exactly the plugins whose first row is not the
      first installed one, because those writes land on a row the recovery does not read. */
  lemma SecondRun(rows: seq<Plugin>, newest: Index)
    ensures var v, v' := Verdicts(rows, newest), Verdicts(Recovered(rows, newest), newest);
            && With(v', Attached) == With(v, Attached) - Linked(rows, newest)
            && |With(v', AlreadyLinked)| == |With(v, AlreadyLinked)| + |Linked(rows, newest)|
            && With(v', Mismatched) == With(v, Mismatched)
            && With(v', PluginMissing) == With(v, PluginMissing)
  {
    var v, v' := Verdicts(rows, newest), Verdicts(Recovered(rows, newest), newest);
    forall i | i in v ensures v'[i] == if i in Linked(rows, newest) then AlreadyLinked else v[i] {
      VerdictAfterRun(rows, newest, i);
    }
    CountersMove(v, v', Linked(rows, newest));
  }

  /** A run cut short after any set of plugins, then a complete one, leaves what one complete run leaves. */
  lemma InterruptedRunConverges(rows: seq<Plugin>, newest: Index, done: set<Installation>)
    ensures Recovered(Recovered(rows, Part(newest, done)), newest) == Recovered(rows, newest)
  {
    var half := Recovered(rows, Part(newest, done));
    forall n | 0 <= n < |rows| ensures Recovered(half, newest)[n] == Recovered(rows, newest)[n] {
      RowConverges(rows, newest, done, n);
    }
  }

  lemma RowConverges(rows: seq<Plugin>, newest: Index, done: set<Installation>, n: nat)
    requires n < |rows|
    ensures Recovered(Recovered(rows, Part(newest, done)), newest)[n] == Recovered(rows, newest)[n]
  {
    var i := InstallationOf(rows[n]);
    SameRowsFind(rows, Recovered(rows, Part(newest, done)), i, true);
    if i in newest {
      if i in done {
        VerdictAfterRun(rows, Part(newest, done), i);
      } else {
        VerdictUnaffected(rows, newest, done, i);
      }
    }
  }

  /** The recovery's write for this row's plugin, if it makes one, reaches this row. */
  predicate LinkReaches(rows: seq<Plugin>, n: nat)
    requires n < |rows|
  {
    var i := InstallationOf(rows[n]);
    var first := FindRow(rows, i, false);
    first.Some? && rows[first.value].conditionAddress.None? && FindRow(rows, i, true) == Some(n)
  }

  /** A stored condition is replaced exactly when the newest grant disagrees with it, the plugin's first row carries
      none, and the row is the plugin's first installed one. */
  lemma OverwrittenExactly(rows: seq<Plugin>, newest: Index, n: nat)
    requires n < |rows| && rows[n].conditionAddress.Some?
    ensures var i := InstallationOf(rows[n]);
            Recovered(rows, newest)[n] != rows[n] <==>
              && i in newest
              && Attachable(newest[i])
              && newest[i].conditionAddress != rows[n].conditionAddress
              && LinkReaches(rows, n)
  {
    if InstallationOf(rows[n]) !in newest {
      assert Recovered(rows, newest)[n] == rows[n];
    }
  }

  ghost predicate OneRowPerPlugin(rows: seq<Plugin>) {
    forall m, n | 0 <= m < n < |rows| :: InstallationOf(rows[m]) != InstallationOf(rows[n])
  }

  lemma OnlyRowIsFound(rows: seq<Plugin>, n: nat, live: bool)
    requires OneRowPerPlugin(rows) && n < |rows| && (live ==> rows[n].status.Installed?)
    ensures FindRow(rows, InstallationOf(rows[n]), live) == Some(n)
  {
    FindRowFirst(rows, InstallationOf(rows[n]), live);
    assert Fits(rows[n], InstallationOf(rows[n]), live);
  }

  /** With one row per plugin no stored condition is ever replaced. */
  lemma NeverOverwrites(rows: seq<Plugin>, newest: Index)
    requires OneRowPerPlugin(rows)
    ensures forall n | 0 <= n < |rows| && rows[n].conditionAddress.Some? :: Recovered(rows, newest)[n] == rows[n]
  {
    forall n | 0 <= n < |rows| && rows[n].conditionAddress.Some?
      ensures Recovered(rows, newest)[n] == rows[n]
    {
      OverwrittenExactly(rows, newest, n);
      OnlyRowIsFound(rows, n, false);
    }
  }

  /** `readExecuteGrant(plugin).recoverable`. */
  predicate Recoverable(log: seq<PermissionEvent>, p: Plugin) {
    var grant := NewestExecute(log, InstallationOf(p));
    grant.Some? && Attachable(grant.value) && p.conditionAddress.None?
  }

  /** The index agrees with the per-plugin lookup on every plugin of the scope. */
  ghost predicate Indexes(newest: Index, log: seq<PermissionEvent>, scope: Option<Network>) {
    forall i: Installation | InScope(scope, i.network) ::
      NewestExecute(log, i) == if i in newest then Some(newest[i]) else None
  }

  /** An installed row is still recoverable after the run exactly when it was before and the write missed it. */
  lemma StillRecoverable(rows: seq<Plugin>, newest: Index, log: seq<PermissionEvent>, scope: Option<Network>, n: nat)
    requires n < |rows| && rows[n].status.Installed? && InScope(scope, rows[n].network)
    requires Indexes(newest, log, scope)
    ensures Recoverable(log, Recovered(rows, newest)[n]) <==> Recoverable(log, rows[n]) && !LinkReaches(rows, n)
  {
    var i := InstallationOf(rows[n]);
    FindRowFirst(rows, i, false);
    assert Fits(rows[n], i, false);
    assert InScope(scope, i.network);
  }

  /** With one row per plugin the write reaches every installed row without a condition. */
  lemma OnlyRowIsReached(rows: seq<Plugin>, n: nat)
    requires OneRowPerPlugin(rows) && n < |rows|
    requires rows[n].status.Installed? && rows[n].conditionAddress.None?
    ensures LinkReaches(rows, n)
  {
    OnlyRowIsFound(rows, n, false);
    OnlyRowIsFound(rows, n, true);
  }

  // ---- the same in the fields of the documents ----

  ghost predicate IsRowOf(p: Plugin, i: Installation) {
    p.network == i.network && p.daoAddress == i.daoAddress && p.address == i.address
  }

  /** Position `n` is the first row of the plugin, among the installed ones only when `live`. */
  ghost predicate IsFirstRow(rows: seq<Plugin>, i: Installation, n: int, live: bool) {
    && 0 <= n < |rows| && IsRowOf(rows[n], i) && (live ==> rows[n].status.Installed?)
    && forall m | 0 <= m < n :: IsRowOf(rows[m], i) ==> live && !rows[m].status.Installed?
  }

  /** The first row of the plugin stores this as its condition. */
  ghost predicate FirstStores(rows: seq<Plugin>, i: Installation, condition: Option<Address>) {
    exists n :: IsFirstRow(rows, i, n, false) && rows[n].conditionAddress == condition
  }

  ghost predicate HasNoRow(rows: seq<Plugin>, i: Installation) {
    forall p | p in rows :: !IsRowOf(p, i)
  }

  lemma FindRowExactly(rows: seq<Plugin>, i: Installation, live: bool)
    ensures forall n: nat :: FindRow(rows, i, live) == Some(n) <==> IsFirstRow(rows, i, n, live)
    ensures FindRow(rows, i, false).None? <==> HasNoRow(rows, i)
  {
    FindRowFirst(rows, i, live);
    FindRowFirst(rows, i, false);
    var found := FindRow(rows, i, false);
    assert found.Some? ==> rows[found.value] in rows;
  }

  /** The four ways a standing grant is counted, by the first row of its plugin. */
  lemma ClassifyExactly(rows: seq<Plugin>, grant: PermissionEvent)
    ensures var i, v := Installation(grant.network, grant.daoAddress, grant.whoAddress), Classify(rows, grant);
            && (v == Ignored <==> !grant.granted || grant.conditionAddress.None?)
            && (grant.granted && grant.conditionAddress.Some? ==>
                  && (v == PluginMissing <==> HasNoRow(rows, i))
                  && (v == AlreadyLinked <==> FirstStores(rows, i, grant.conditionAddress))
                  && (v == Attached <==> FirstStores(rows, i, None))
                  && (v == Mismatched <==>
                        exists other :: Some(other) != grant.conditionAddress && FirstStores(rows, i, Some(other))))
  {
    var i := Installation(grant.network, grant.daoAddress, grant.whoAddress);
    FindRowExactly(rows, i, false);
    var row := FindRow(rows, i, false);
    assert forall n :: IsFirstRow(rows, i, n, false) ==> row == Some(n);
    if row.Some? {
      assert FirstStores(rows, i, rows[row.value].conditionAddress);
    }
    hide FindRow, HasNoRow;
  }

  /** Event `k` of the sorted query is the last about its network, DAO and grantee, and grants with a condition. */
  ghost predicate Stands(view: seq<PermissionEvent>, k: int, i: Installation) {
    && 0 <= k < |view| && Concerns(view[k], i) && view[k].granted && view[k].conditionAddress.Some?
    && forall m | k < m < |view| :: !Concerns(view[m], i)
  }

  ghost predicate IsGranted(view: seq<PermissionEvent>, i: Installation) {
    exists k :: Stands(view, k, i)
  }

  ghost predicate StoresTheSame(rows: seq<Plugin>, view: seq<PermissionEvent>, i: Installation) {
    exists k :: Stands(view, k, i) && FirstStores(rows, i, view[k].conditionAddress)
  }

  ghost predicate StoresAnother(rows: seq<Plugin>, view: seq<PermissionEvent>, i: Installation) {
    exists k, other ::
      Stands(view, k, i) && Some(other) != view[k].conditionAddress && FirstStores(rows, i, Some(other))
  }

  lemma VerdictExactly(rows: seq<Plugin>, view: seq<PermissionEvent>, i: Installation)
    requires i in LastWrites(view)
    ensures var v := Classify(rows, LastWrites(view)[i]);
            && (v == PluginMissing <==> IsGranted(view, i) && HasNoRow(rows, i))
            && (v == AlreadyLinked <==> StoresTheSame(rows, view, i))
            && (v == Attached <==> IsGranted(view, i) && FirstStores(rows, i, None))
            && (v == Mismatched <==> StoresAnother(rows, view, i))
  {
    var e := LastWrites(view)[i];
    ClassifyExactly(rows, e);
    StandsExactly(view, 0, i);
    forall k | Stands(view, k, i) ensures view[k] == e {
      StandsExactly(view, k, i);
    }
    hide Classify, HasNoRow, FirstStores;
  }

  /** Row `n` is its plugin's first installed one, the plugin's first row has no condition, and event `k` grants it
      one. */
  ghost predicate Receives(rows: seq<Plugin>, view: seq<PermissionEvent>, k: int, i: Installation, n: int) {
    Stands(view, k, i) && FirstStores(rows, i, None) && IsFirstRow(rows, i, n, true)
  }

  /** What a run leaves: the rows that receive a condition have it, nothing else of any row changes. */
  ghost predicate IsRecovered(rows: seq<Plugin>, after: seq<Plugin>, view: seq<PermissionEvent>) {
    && |after| == |rows|
    && forall n | 0 <= n < |rows| ::
         && (forall k, i | Receives(rows, view, k, i, n) ::
               after[n] == rows[n].(conditionAddress := view[k].conditionAddress))
         && ((forall k, i :: !Receives(rows, view, k, i, n)) ==> after[n] == rows[n])
  }

  lemma StandsExactly(view: seq<PermissionEvent>, k: int, i: Installation)
    ensures Stands(view, k, i) ==> i in LastWrites(view) && LastWrites(view)[i] == view[k]
    ensures i in LastWrites(view) && Attachable(LastWrites(view)[i]) <==> exists k :: Stands(view, k, i)
  {
    LastWriteWins(view, i);
    if i in LastWrites(view) {
      var n :| IsLastWrite(view, i, n) && view[n] == LastWrites(view)[i];
      assert forall m :: Stands(view, m, i) ==> m == n;
      assert Attachable(view[n]) ==> Stands(view, n, i);
    }
    if k :| Stands(view, k, i) {
      assert view[k] in view;
    }
  }

  lemma RecoveredExactly(rows: seq<Plugin>, view: seq<PermissionEvent>)
    ensures IsRecovered(rows, Recovered(rows, LastWrites(view)), view)
  {
    var newest, after := LastWrites(view), Recovered(rows, LastWrites(view));
    forall n | 0 <= n < |rows|
      ensures forall k, i | Receives(rows, view, k, i, n) ::
                after[n] == rows[n].(conditionAddress := view[k].conditionAddress)
      ensures (forall k, i :: !Receives(rows, view, k, i, n)) ==> after[n] == rows[n]
    {
      ReceivesExactly(rows, view, n);
    }
  }

  lemma ReceivesExactly(rows: seq<Plugin>, view: seq<PermissionEvent>, n: nat)
    requires n < |rows|
    ensures forall k, i | Receives(rows, view, k, i, n) ::
              Written(rows, LastWrites(view), n) && InstallationOf(rows[n]) == i && LastWrites(view)[i] == view[k]
    ensures Written(rows, LastWrites(view), n) ==> exists k, i :: Receives(rows, view, k, i, n)
  {
    var i, newest := InstallationOf(rows[n]), LastWrites(view);
    FindRowExactly(rows, i, true);
    forall k | Stands(view, k, i) ensures i in newest && newest[i] == view[k] {
      StandsExactly(view, k, i);
    }
    if i in newest {
      ClassifyExactly(rows, newest[i]);
      StandsExactly(view, 0, i);
    }
    hide FindRow, Classify, FirstStores, Stands;
    if Written(rows, newest, n) {
      var k :| Stands(view, k, i);
      assert Receives(rows, view, k, i, n);
    }
  }

  /** What goes wrong with several rows, or a row that is not installed: an old row without a condition makes the
      recovery replace the installed row's one, an old row with the condition keeps the installed row from ever
      getting it, and a plugin that is not installed is attached by every run. */
  lemma SeveralRowsPitfalls(p: Plugin, grant: PermissionEvent, stored: Address)
    requires Attachable(grant) && Grantee(grant) == InstallationOf(p)
    ensures var rows := [p.(status := Deprecated, conditionAddress := None),
                         p.(status := Installed, conditionAddress := Some(stored))];
            Recovered(rows, map[Grantee(grant) := grant])[1].conditionAddress == grant.conditionAddress
    ensures var rows := [p.(status := Deprecated, conditionAddress := grant.conditionAddress),
                         p.(status := Installed, conditionAddress := None)];
            Recovered(rows, map[Grantee(grant) := grant]) == rows
    ensures var rows := [p.(status := Uninstalled, conditionAddress := None)];
            Recovered(rows, map[Grantee(grant) := grant]) == rows && Classify(rows, grant) == Attached
  {
    var i := Grantee(grant);
    var overwritten := [p.(status := Deprecated, conditionAddress := None),
                        p.(status := Installed, conditionAddress := Some(stored))];
    assert FindRow(overwritten, i, true, 1) == Some(1);
    var missed := [p.(status := Deprecated, conditionAddress := grant.conditionAddress),
                   p.(status := Installed, conditionAddress := None)];
    assert Classify(missed, grant) == AlreadyLinked;
    var gone := [p.(status := Uninstalled, conditionAddress := None)];
    assert FindRow(gone, i, true, 1) == None;
  }
}
