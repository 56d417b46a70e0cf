/** The DaoPermission collection: which EXECUTE event on a plugin is the newest, as the index of the backfill,
    the per-plugin lookup and the aggregation behind the Safe registration each answer it. */
module PermissionLog {
  import opened Keys
  import opened Chronology
  import opened Plugins

  /** Stands for the hash of the permission's name. */
  const EXECUTE_PERMISSION := "EXECUTE_PERMISSION"

  datatype PermissionEvent = PermissionEvent(
    network: Network,
    daoAddress: Address,
    whoAddress: Address,
    whereAddress: Address,
    permissionId: string,
    granted: bool,
    conditionAddress: Option<Address>,
    position: Position,
    transactionHash: string)

  function At(e: PermissionEvent): Position { e.position }

  function Grantee(e: PermissionEvent): Installation {
    Installation(e.network, e.daoAddress, e.whoAddress)
  }

  /** A plugin of the event's network and DAO, at the address that is granted something. */
  ghost predicate Concerns(e: PermissionEvent, i: Installation) {
    e.network == i.network && e.daoAddress == i.daoAddress && e.whoAddress == i.address
  }

  /** No EXECUTE event on the plugin is higher on the chain. */
  ghost predicate IsNewestAbout(log: seq<PermissionEvent>, i: Installation, e: PermissionEvent) {
    && e in log && e.permissionId == EXECUTE_PERMISSION && Concerns(e, i)
    && forall o | o in log && o.permissionId == EXECUTE_PERMISSION && Concerns(o, i) :: AtMost(o.position, e.position)
  }

  function KeyOf(e: PermissionEvent): string {
    GrantKey(e.network, e.daoAddress, e.whoAddress)
  }

  /** EXECUTE events, of one network when the run is limited to it. */
  function Execute(scope: Option<Network>): PermissionEvent -> bool {
    (e: PermissionEvent) => e.permissionId == EXECUTE_PERMISSION && InScope(scope, e.network)
  }

  /** EXECUTE events a DAO emitted about one grantee, whatever contract the permission is on. */
  function ExecuteOf(i: Installation): PermissionEvent -> bool {
    (e: PermissionEvent) => e.permissionId == EXECUTE_PERMISSION && Grantee(e) == i
  }

  /** EXECUTE events a DAO emitted about one grantee on the DAO itself. */
  function ExecuteOnDao(i: Installation): PermissionEvent -> bool {
    (e: PermissionEvent) =>
      e.permissionId == EXECUTE_PERMISSION && Grantee(e) == i && e.whereAddress == e.daoAddress
  }

  /** Two events of one network never share a position. */
  ghost predicate PositionsUnique(log: seq<PermissionEvent>) {
    forall e, o | e in log && o in log && e.network == o.network && At(e) == At(o) :: e == o
  }

  function NewestExecute(log: seq<PermissionEvent>, i: Installation): Option<PermissionEvent> {
    Newest(log, ExecuteOf(i), At)
  }

  /** `latestExecuteCondition`: the condition of a plugin's newest EXECUTE event, when that is a grant with one. */
  function LatestCondition(log: seq<PermissionEvent>, i: Installation): Option<Address> {
    var newest := NewestExecute(log, i);
    if newest.Some? && newest.value.granted then newest.value.conditionAddress else None
  }

  /** The lookup in the fields of the events. */
  lemma NewestExecuteExactly(log: seq<PermissionEvent>, i: Installation, e: PermissionEvent)
    requires PositionsUnique(log)
    ensures NewestExecute(log, i) == Some(e) <==> IsNewestAbout(log, i, e)
  {
    UniqueWithin(log, i);
    NewestIsNewest(log, ExecuteOf(i), At);
    NewestIsHighest(log, ExecuteOf(i), At);
    if IsNewestAbout(log, i, e) {
      assert ExecuteOf(i)(e);
      NewestUnique(log, ExecuteOf(i), At, e);
    }
  }

  /** A plugin is given the condition of its newest EXECUTE event exactly when that is a grant. */
  lemma LatestConditionExactly(log: seq<PermissionEvent>, i: Installation, condition: Address)
    requires PositionsUnique(log)
    ensures LatestCondition(log, i) == Some(condition) <==>
            exists e :: IsNewestAbout(log, i, e) && e.granted && e.conditionAddress == Some(condition)
  {
    var newest := NewestExecute(log, i);
    if newest.Some? {
      NewestExecuteExactly(log, i, newest.value);
    }
    if e :| IsNewestAbout(log, i, e) {
      NewestExecuteExactly(log, i, e);
    }
  }

  lemma KeyNamesGrantee(e: PermissionEvent, o: PermissionEvent)
    ensures KeyOf(e) == KeyOf(o) <==> Grantee(e) == Grantee(o)
  {
    if KeyOf(e) == KeyOf(o) {
      GrantKeyInjective(e.network, e.daoAddress, e.whoAddress, o.network, o.daoAddress, o.whoAddress);
    }
  }

  /** Every key of the index is the grantee of its entry. */
  predicate Keyed(newest: map<Installation, PermissionEvent>) {
    forall i | i in newest :: Grantee(newest[i]) == i
  }

  type Index = newest: map<Installation, PermissionEvent> | Keyed(newest) witness map[]

  /** The index the backfill builds: every event overwrites the entry of its grantee. */
  function LastWrites(view: seq<PermissionEvent>): (newest: Index) {
    if view == [] then map[]
    else
      var last := view[|view| - 1];
      LastWrites(view[..|view| - 1])[Grantee(last) := last]
  }

  /** Event `n` is the last of the view on this grantee. */
  ghost predicate IsLastWrite(view: seq<PermissionEvent>, i: Installation, n: int) {
    0 <= n < |view| && Concerns(view[n], i) && forall m | n < m < |view| :: !Concerns(view[m], i)
  }

  /** An entry is the last event of the view on its grantee; a grantee is absent only when no event is about it. */
  lemma {:induction false} LastWriteWins(view: seq<PermissionEvent>, i: Installation)
    ensures i !in LastWrites(view) ==> forall e | e in view :: !Concerns(e, i)
    ensures i in LastWrites(view) ==> exists n :: IsLastWrite(view, i, n) && view[n] == LastWrites(view)[i]
  {
    if view != [] {
      var init, last := view[..|view| - 1], view[|view| - 1];
      LastWriteWins(init, i);
      if Grantee(last) == i {
        assert IsLastWrite(view, i, |view| - 1);
      } else if i in LastWrites(init) {
        var n :| IsLastWrite(init, i, n) && init[n] == LastWrites(init)[i];
        assert IsLastWrite(view, i, n);
      }
    }
  }

  lemma UniqueWithin(log: seq<PermissionEvent>, i: Installation)
    requires PositionsUnique(log)
    ensures Distinct(log, ExecuteOf(i), At)
  {
  }

  /** The one-pass ascending fold answers what the per-plugin descending lookup answers, for every plugin in scope
      and whatever order the database gives to events of different networks at equal positions. */
  lemma FoldAgreesWithLookup(
    log: seq<PermissionEvent>, scope: Option<Network>, ascending: seq<PermissionEvent>,
    i: Installation, descending: seq<PermissionEvent>)
    requires PositionsUnique(log)
    requires Ascending(ascending, Select(log, Execute(scope)), At)
    requires Descending(descending, Select(log, ExecuteOf(i)), At)
    requires InScope(scope, i.network)
    ensures i in LastWrites(ascending) <==> descending != []
    ensures descending != [] ==> LastWrites(ascending)[i] == descending[0]
  {
    FoldFindsNewest(log, scope, ascending, i);
    FirstOfDescending(descending, log, ExecuteOf(i), At);
  }

  lemma FoldFindsNewest(
    log: seq<PermissionEvent>, scope: Option<Network>, ascending: seq<PermissionEvent>, i: Installation)
    requires PositionsUnique(log)
    requires Ascending(ascending, Select(log, Execute(scope)), At)
    requires InScope(scope, i.network)
    ensures NewestExecute(log, i) ==
            if i in LastWrites(ascending) then Some(LastWrites(ascending)[i]) else None
  {
    UniqueWithin(log, i);
    LastWriteWins(ascending, i);
    NewestIsNewest(log, ExecuteOf(i), At);
    if i in LastWrites(ascending) {
      var n :| IsLastWrite(ascending, i, n) && ascending[n] == LastWrites(ascending)[i];
      LastIsNewest(log, scope, ascending, i, n);
      NewestUnique(log, ExecuteOf(i), At, ascending[n]);
    } else {
      SameMembers(ascending, Select(log, Execute(scope)));
      assert forall o | o in log && ExecuteOf(i)(o) :: o in ascending;
    }
  }

  lemma LastIsNewest(
    log: seq<PermissionEvent>, scope: Option<Network>, ascending: seq<PermissionEvent>, i: Installation, n: nat)
    requires Ascending(ascending, Select(log, Execute(scope)), At) && InScope(scope, i.network)
    requires IsLastWrite(ascending, i, n)
    ensures IsNewest(log, ExecuteOf(i), At, ascending[n])
  {
    SameMembers(ascending, Select(log, Execute(scope)));
    assert ascending[n] in ascending;
    forall o | o in log && ExecuteOf(i)(o) ensures !Before(At(ascending[n]), At(o)) {
      assert o in ascending;
      var m :| 0 <= m < |ascending| && ascending[m] == o;
      assert m <= n;
    }
  }

  /** The backfill's lookup ignores which contract a permission is on, the Safe registration's does not. They agree
      on a grantee exactly when its newest EXECUTE event, if it has one, is on the DAO itself. */
  lemma LookupsAgree(log: seq<PermissionEvent>, i: Installation)
    requires PositionsUnique(log)
    ensures NewestExecute(log, i) == Newest(log, ExecuteOnDao(i), At) <==>
            (NewestExecute(log, i).Some? ==> NewestExecute(log, i).value.whereAddress == i.daoAddress)
  {
    NewestIsNewest(log, ExecuteOf(i), At);
    NewestIsNewest(log, ExecuteOnDao(i), At);
    var newest := NewestExecute(log, i);
    if newest.Some? && newest.value.whereAddress == i.daoAddress {
      NewestUnique(log, ExecuteOnDao(i), At, newest.value);
    }
  }

  /** A grant on another contract of the DAO is the newest for one lookup and none for the other. */
  lemma LookupsDisagree(e: PermissionEvent)
    requires e.permissionId == EXECUTE_PERMISSION && e.whereAddress != e.daoAddress
    ensures NewestExecute([e], Grantee(e)) == Some(e) && Newest([e], ExecuteOnDao(Grantee(e)), At).None?
  {
    assert Newest([e][1..], ExecuteOf(Grantee(e)), At).None?;
    assert Newest([e][1..], ExecuteOnDao(Grantee(e)), At).None?;
  }
}
