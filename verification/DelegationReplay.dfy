/** The delegation backfill: every lock of the adapter is reset, then the delegation logs are replayed in chain order
    to rebuild the delegate of each token and to store the records that are missing. */
module DelegationReplay {
  import opened Keys
  import opened Chronology

  datatype LogId = LogId(network: Network, transactionHash: string, transactionIndex: nat, logIndex: nat)

  datatype Log =
    | DelegateChanged(id: LogId, contract: Address, delegator: Address, fromDelegate: Address, toDelegate: Address)
    | TokensDelegated(id: LogId, contract: Address, sender: Address, delegatee: Address, tokenIds: seq<string>)
    | TokensUndelegated(id: LogId, contract: Address, sender: Address, delegatee: Address, tokenIds: seq<string>)

  datatype Lock = Lock(
    network: Network, tokenAddress: Address, tokenId: string, memberAddress: Address, delegateReceiver: Option<Address>)

  datatype Action = Delegate | Undelegate

  datatype Record =
    | ChangeRecord(id: LogId, tokenAddress: Address, delegator: Address, fromDelegate: Address, toDelegate: Address)
    | DelegationRecord(
        id: LogId, contractAddress: Address, delegator: Address, delegate: Address, tokenIds: seq<string>,
        action: Action)

  /** The locks one run is about. */
  datatype Scope = Scope(network: Network, adapter: Address)

  predicate InScope(l: Lock, s: Scope) {
    l.network == s.network && l.tokenAddress == s.adapter
  }

  // ---- locks ----

  function Reset(locks: seq<Lock>, s: Scope): seq<Lock> {
    seq(|locks|, n requires 0 <= n < |locks| =>
      if InScope(locks[n], s) then locks[n].(delegateReceiver := None) else locks[n])
  }

  /** `updateMany` on the locks of some tokens. */
  function Assign(locks: seq<Lock>, s: Scope, tokenIds: seq<string>, receiver: Option<Address>): seq<Lock> {
    seq(|locks|, n requires 0 <= n < |locks| =>
      if InScope(locks[n], s) && locks[n].tokenId in tokenIds then locks[n].(delegateReceiver := receiver)
      else locks[n])
  }

  /** What one log does to the locks; the update swallows its errors, so it may be lost. */
  function ReplayLog(locks: seq<Lock>, s: Scope, log: Log, taken: bool): seq<Lock> {
    if log.DelegateChanged? || !taken then locks
    else Assign(locks, s, log.tokenIds, ReceiverOf(log))
  }

  function ReceiverOf(log: Log): Option<Address> {
    if log.TokensDelegated? then Some(log.delegatee) else None
  }

  function ReplayLocks(locks: seq<Lock>, s: Scope, logs: seq<Log>, taken: seq<bool>): seq<Lock>
    requires |logs| == |taken|
  {
    if logs == [] then locks
    else
      var last := |logs| - 1;
      ReplayLog(ReplayLocks(locks, s, logs[..last], taken[..last]), s, logs[last], taken[last])
  }

  predicate Mentions(log: Log, tokenId: string) {
    !log.DelegateChanged? && tokenId in log.tokenIds
  }

  /** The receiver the last taken log about a token gives it, none when there is no such log. */
  function LastReceiver(logs: seq<Log>, taken: seq<bool>, tokenId: string): Option<Address>
    requires |logs| == |taken|
  {
    if logs == [] then None
    else
      var last := |logs| - 1;
      if taken[last] && Mentions(logs[last], tokenId) then ReceiverOf(logs[last])
      else LastReceiver(logs[..last], taken[..last], tokenId)
  }

  /** Reset and replay: every lock of the scope has the receiver of the last log about its token, whatever it held,
      and no other lock changes. */
  lemma {:induction false} ReplayGivesLastReceiver(locks: seq<Lock>, s: Scope, logs: seq<Log>, taken: seq<bool>)
    requires |logs| == |taken|
    ensures var after := ReplayLocks(Reset(locks, s), s, logs, taken);
            |after| == |locks| && forall n | 0 <= n < |locks| ::
              after[n] == if InScope(locks[n], s)
                          then locks[n].(delegateReceiver := LastReceiver(logs, taken, locks[n].tokenId)) else locks[n]
  {
    if logs != [] {
      var last := |logs| - 1;
      ReplayGivesLastReceiver(locks, s, logs[..last], taken[..last]);
    }
  }

  /** The receiver by position: no log after the deciding one is about the token. */
  lemma {:induction false} LastReceiverIsLast(logs: seq<Log>, taken: seq<bool>, tokenId: string, n: nat)
    requires |logs| == |taken| && n < |logs|
    requires taken[n] && Mentions(logs[n], tokenId)
    requires forall m | n < m < |logs| && taken[m] :: !Mentions(logs[m], tokenId)
    ensures LastReceiver(logs, taken, tokenId) == if logs[n].TokensDelegated? then Some(logs[n].delegatee) else None
  {
    if n < |logs| - 1 {
      LastReceiverIsLast(logs[..|logs| - 1], taken[..|logs| - 1], tokenId, n);
    }
  }

  lemma {:induction false} NoReceiverWithoutLog(logs: seq<Log>, taken: seq<bool>, tokenId: string)
    requires |logs| == |taken|
    requires forall m | 0 <= m < |logs| && taken[m] :: !Mentions(logs[m], tokenId)
    ensures LastReceiver(logs, taken, tokenId).None?
  {
    if logs != [] {
      NoReceiverWithoutLog(logs[..|logs| - 1], taken[..|logs| - 1], tokenId);
    }
  }

  /** Log `n` is the last about the token among those whose update took effect, field by field. */
  ghost predicate Decides(logs: seq<Log>, taken: seq<bool>, tokenId: string, n: int)
    requires |logs| == |taken|
  {
    && 0 <= n < |logs| && taken[n] && !logs[n].DelegateChanged? && tokenId in logs[n].tokenIds
    && forall m | n < m < |logs| && taken[m] :: logs[m].DelegateChanged? || tokenId !in logs[m].tokenIds
  }

  /** What a run leaves of a lock: nothing changes but the receiver, and that only for the adapter's locks on the
      network. It is the delegatee when the deciding log delegates, and none when that undelegates or there is none. */
  ghost predicate IsReplayedLock(after: Lock, lock: Lock, s: Scope, logs: seq<Log>, taken: seq<bool>)
    requires |logs| == |taken|
  {
    && after == lock.(delegateReceiver := after.delegateReceiver)
    && (lock.network != s.network || lock.tokenAddress != s.adapter ==> after == lock)
    && (lock.network == s.network && lock.tokenAddress == s.adapter ==>
          && (forall n | Decides(logs, taken, lock.tokenId, n) && logs[n].TokensDelegated? ::
                after.delegateReceiver == Some(logs[n].delegatee))
          && (forall n | Decides(logs, taken, lock.tokenId, n) && logs[n].TokensUndelegated? ::
                after.delegateReceiver == None)
          && ((forall n :: !Decides(logs, taken, lock.tokenId, n)) ==> after.delegateReceiver == None))
  }

  ghost predicate IsReplayed(locks: seq<Lock>, after: seq<Lock>, s: Scope, logs: seq<Log>, taken: seq<bool>)
    requires |logs| == |taken|
  {
    |after| == |locks| && forall l | 0 <= l < |locks| :: IsReplayedLock(after[l], locks[l], s, logs, taken)
  }

  lemma ReplayedExactly(locks: seq<Lock>, s: Scope, logs: seq<Log>, taken: seq<bool>)
    requires |logs| == |taken|
    ensures IsReplayed(locks, ReplayLocks(Reset(locks, s), s, logs, taken), s, logs, taken)
  {
    var after := ReplayLocks(Reset(locks, s), s, logs, taken);
    ReplayGivesLastReceiver(locks, s, logs, taken);
    hide ReplayLocks, Reset, LastReceiver, IsReplayedLock;
    forall l | 0 <= l < |locks| ensures IsReplayedLock(after[l], locks[l], s, logs, taken) {
      ReplayedLockExactly(after[l], locks[l], s, logs, taken);
    }
  }

  lemma ReplayedLockExactly(after: Lock, lock: Lock, s: Scope, logs: seq<Log>, taken: seq<bool>)
    requires |logs| == |taken|
    requires after ==
             if InScope(lock, s) then lock.(delegateReceiver := LastReceiver(logs, taken, lock.tokenId)) else lock
    ensures IsReplayedLock(after, lock, s, logs, taken)
  {
    ReceiverExactly(logs, taken, lock.tokenId);
    hide LastReceiver, Decides;
  }

  lemma ReceiverExactly(logs: seq<Log>, taken: seq<bool>, tokenId: string)
    requires |logs| == |taken|
    ensures forall n | Decides(logs, taken, tokenId, n) ::
              LastReceiver(logs, taken, tokenId) == if logs[n].TokensDelegated? then Some(logs[n].delegatee) else None
    ensures (forall n :: !Decides(logs, taken, tokenId, n)) ==> LastReceiver(logs, taken, tokenId) == None
  {
    forall n | Decides(logs, taken, tokenId, n)
      ensures LastReceiver(logs, taken, tokenId)
              == if logs[n].TokensDelegated? then Some(logs[n].delegatee) else None
    {
      LastReceiverIsLast(logs, taken, tokenId, n);
    }
    var n := DecidingLog(logs, taken, tokenId);
    assert n >= 0 ==> Decides(logs, taken, tokenId, n);
  }

  function AllTaken(count: nat): seq<bool> {
    seq(count, n => true)
  }

  /** The last log about a token, among those whose update took effect. */
  predicate IsLastAbout(logs: seq<Log>, taken: seq<bool>, tokenId: string, n: int)
    requires |logs| == |taken|
  {
    && 0 <= n < |logs| && taken[n] && Mentions(logs[n], tokenId)
    && forall m | n < m < |logs| && taken[m] :: !Mentions(logs[m], tokenId)
  }

  /** The last log about a token took effect, or the last one that did gives the token the same receiver, which is none
      when none took effect. */
  ghost predicate IsServed(logs: seq<Log>, taken: seq<bool>, tokenId: string)
    requires |logs| == |taken|
  {
    forall n | IsLastAbout(logs, AllTaken(|logs|), tokenId, n) ::
      || taken[n]
      || (exists m :: IsLastAbout(logs, taken, tokenId, m) && ReceiverOf(logs[m]) == ReceiverOf(logs[n]))
      || (ReceiverOf(logs[n]).None? && forall m | 0 <= m < |logs| && taken[m] :: !Mentions(logs[m], tokenId))
  }

  /** The position that decides a token's receiver, when a log about it took effect. */
  lemma {:induction false} DecidingLog(logs: seq<Log>, taken: seq<bool>, tokenId: string)
    returns (n: int)
    requires |logs| == |taken|
    ensures n >= 0 ==> IsLastAbout(logs, taken, tokenId, n) && LastReceiver(logs, taken, tokenId) == ReceiverOf(logs[n])
    ensures n < 0 ==> forall m | 0 <= m < |logs| && taken[m] :: !Mentions(logs[m], tokenId)
    ensures n < 0 ==> LastReceiver(logs, taken, tokenId).None?
  {
    if logs == [] {
      n := -1;
    } else {
      var last := |logs| - 1;
      n := last;
      if !(taken[last] && Mentions(logs[last], tokenId)) {
        n := DecidingLog(logs[..last], taken[..last], tokenId);
      }
    }
  }

  lemma SameReceiverExactly(logs: seq<Log>, taken: seq<bool>, tokenId: string)
    requires |logs| == |taken|
    ensures LastReceiver(logs, taken, tokenId) == LastReceiver(logs, AllTaken(|logs|), tokenId)
            <==> IsServed(logs, taken, tokenId)
  {
    var all := AllTaken(|logs|);
    var m := DecidingLog(logs, taken, tokenId);
    var n := DecidingLog(logs, all, tokenId);
    assert forall l, k | IsLastAbout(logs, all, tokenId, l) && IsLastAbout(logs, all, tokenId, k) :: l == k;
    assert forall l, k | IsLastAbout(logs, taken, tokenId, l) && IsLastAbout(logs, taken, tokenId, k) :: l == k;
    if n >= 0 && taken[n] {
      assert IsLastAbout(logs, taken, tokenId, n);
    }
  }

  /** A run in which some lock updates are lost is right for every lock exactly when every locked token is served. */
  lemma RightExactly(locks: seq<Lock>, s: Scope, logs: seq<Log>, taken: seq<bool>)
    requires |logs| == |taken|
    ensures ReplayLocks(Reset(locks, s), s, logs, taken) == ReplayLocks(Reset(locks, s), s, logs, AllTaken(|logs|))
            <==> forall l | l in locks && InScope(l, s) :: IsServed(logs, taken, l.tokenId)
  {
    ReplayGivesLastReceiver(locks, s, logs, taken);
    ReplayGivesLastReceiver(locks, s, logs, AllTaken(|logs|));
    forall l | l in locks
      ensures LastReceiver(logs, taken, l.tokenId) == LastReceiver(logs, AllTaken(|logs|), l.tokenId)
              <==> IsServed(logs, taken, l.tokenId)
    {
      SameReceiverExactly(logs, taken, l.tokenId);
    }
    hide IsServed, LastReceiver, ReplayLocks, Reset;
    var actual, ideal :=
      ReplayLocks(Reset(locks, s), s, logs, taken), ReplayLocks(Reset(locks, s), s, logs, AllTaken(|logs|));
    if actual == ideal {
      forall l | l in locks && InScope(l, s) ensures IsServed(logs, taken, l.tokenId) {
        var n :| 0 <= n < |locks| && locks[n] == l;
        assert actual[n] == ideal[n];
      }
    } else {
      var n :| 0 <= n < |locks| && actual[n] != ideal[n];
      assert locks[n] in locks;
    }
  }

  /** The same locks but for the receivers in scope. */
  ghost predicate SameLocks(locks: seq<Lock>, locks': seq<Lock>, s: Scope) {
    && |locks| == |locks'|
    && forall n | 0 <= n < |locks| ::
         locks'[n] == if InScope(locks[n], s) then locks[n].(delegateReceiver := locks'[n].delegateReceiver)
                      else locks[n]
  }

  lemma ResetForgetsReceivers(locks: seq<Lock>, locks': seq<Lock>, s: Scope)
    requires SameLocks(locks, locks', s)
    ensures Reset(locks', s) == Reset(locks, s)
  {
    forall n | 0 <= n < |locks| ensures Reset(locks', s)[n] == Reset(locks, s)[n] {
      assert InScope(locks'[n], s) == InScope(locks[n], s);
    }
  }

  /** A run cut short anywhere, then a complete one, leaves what the complete run alone leaves. */
  lemma PartialRunLeavesNoTrace(
    locks: seq<Lock>, s: Scope, partial: seq<Log>, partialTaken: seq<bool>, logs: seq<Log>, taken: seq<bool>)
    requires |partial| == |partialTaken| && |logs| == |taken|
    ensures ReplayLocks(Reset(ReplayLocks(Reset(locks, s), s, partial, partialTaken), s), s, logs, taken)
            == ReplayLocks(Reset(locks, s), s, logs, taken)
  {
    var half := ReplayLocks(Reset(locks, s), s, partial, partialTaken);
    assert SameLocks(locks, half, s) by {
      ReplayGivesLastReceiver(locks, s, partial, partialTaken);
    }
    ResetForgetsReceivers(locks, half, s);
  }

  // ---- records ----

  function RecordOf(log: Log): Record {
    match log
    case DelegateChanged(id, contract, delegator, fromDelegate, toDelegate) =>
      ChangeRecord(id, contract, delegator, fromDelegate, toDelegate)
    case TokensDelegated(id, contract, sender, delegatee, tokenIds) =>
      DelegationRecord(id, contract, sender, delegatee, tokenIds, Delegate)
    case TokensUndelegated(id, contract, sender, delegatee, tokenIds) =>
      DelegationRecord(id, contract, sender, delegatee, tokenIds, Undelegate)
  }

  predicate Holds(records: seq<Record>, id: LogId) {
    exists r :: r in records && r.id == id
  }

  /** `findExistingLog` then `create`. */
  function Store(records: seq<Record>, r: Record): seq<Record> {
    if Holds(records, r.id) then records else records + [r]
  }

  /** The logs one of the two collections stores. */
  predicate Stores(changes: bool, log: Log) {
    log.DelegateChanged? == changes
  }

  /** One of the two collections after replaying some logs. */
  function StoreAll(records: seq<Record>, logs: seq<Log>, changes: bool): (after: seq<Record>)
    ensures records <= after
  {
    if logs == [] then records
    else
      var rest := StoreAll(records, logs[..|logs| - 1], changes);
      var log := logs[|logs| - 1];
      if Stores(changes, log) then Store(rest, RecordOf(log)) else rest
  }

  ghost predicate UniqueIds(records: seq<Record>) {
    forall a, b | 0 <= a < b < |records| :: records[a].id != records[b].id
  }

  /** However many complete or interrupted replays have run, no log position is stored twice. */
  lemma {:induction false} StaysUnique(records: seq<Record>, logs: seq<Log>, changes: bool)
    requires UniqueIds(records)
    ensures UniqueIds(StoreAll(records, logs, changes))
  {
    if logs != [] {
      StaysUnique(records, logs[..|logs| - 1], changes);
      var rest := StoreAll(records, logs[..|logs| - 1], changes);
      forall r | r in rest && !Holds(rest, RecordOf(logs[|logs| - 1]).id)
        ensures r.id != RecordOf(logs[|logs| - 1]).id
      {
      }
    }
  }

  /** After a replay every log position is stored, and every position stored was stored before or is a log's. */
  lemma {:induction false} StoresEvery(records: seq<Record>, logs: seq<Log>, changes: bool, id: LogId)
    ensures Holds(StoreAll(records, logs, changes), id) <==>
            Holds(records, id) || exists l :: l in logs && Stores(changes, l) && l.id == id
  {
    if logs != [] {
      var init, log := logs[..|logs| - 1], logs[|logs| - 1];
      var rest := StoreAll(records, init, changes);
      StoresEvery(records, init, changes, id);
      assert forall l :: l in logs <==> l in init || l == log;
      assert forall r :: r in Store(rest, RecordOf(log)) ==> r in rest || r == RecordOf(log);
      if Stores(changes, log) && log.id == id && !Holds(rest, id) {
        assert RecordOf(log) in Store(rest, RecordOf(log));
      }
      if r :| r in rest && r.id == id {
        assert r in Store(rest, RecordOf(log));
      }
    }
  }

  /** The record carries what the log says. */
  ghost predicate Carries(r: Record, log: Log) {
    && r.id == log.id
    && (log.DelegateChanged? ==>
          && r.ChangeRecord? && r.tokenAddress == log.contract
          && r.delegator == log.delegator && r.fromDelegate == log.fromDelegate && r.toDelegate == log.toDelegate)
    && (!log.DelegateChanged? ==>
          && r.DelegationRecord? && r.contractAddress == log.contract && r.tokenIds == log.tokenIds
          && r.delegator == log.sender && r.delegate == log.delegatee
          && (r.action.Delegate? <==> log.TokensDelegated?))
  }

  ghost predicate HasSource(r: Record, logs: seq<Log>, changes: bool) {
    exists l :: l in logs && l.DelegateChanged? == changes && Carries(r, l)
  }

  /** What a run stores: the old records stay in front, each added one carries a log of the collection, every log of it
      has a record of its position, and no position gets a second one. */
  ghost predicate IsStored(records: seq<Record>, after: seq<Record>, logs: seq<Log>, changes: bool) {
    && records <= after
    && (forall n | |records| <= n < |after| :: HasSource(after[n], logs, changes))
    && (forall l | l in logs && l.DelegateChanged? == changes :: exists r :: r in after && r.id == l.id)
    && forall m, n | 0 <= m < n < |after| && |records| <= n :: after[m].id != after[n].id
  }

  lemma {:induction false} AddedHaveSource(records: seq<Record>, logs: seq<Log>, changes: bool, n: nat)
    requires |records| <= n < |StoreAll(records, logs, changes)|
    ensures HasSource(StoreAll(records, logs, changes)[n], logs, changes)
  {
    if logs != [] {
      var init, log := logs[..|logs| - 1], logs[|logs| - 1];
      var before, r := StoreAll(records, init, changes), StoreAll(records, logs, changes)[n];
      if n < |before| {
        AddedHaveSource(records, init, changes, n);
        var l :| l in init && l.DelegateChanged? == changes && Carries(r, l);
        assert l in logs;
      } else {
        assert log in logs && Carries(r, log);
      }
    }
  }

  lemma {:induction false} AddedIsNew(records: seq<Record>, logs: seq<Log>, changes: bool, m: nat, n: nat)
    requires m < n && |records| <= n < |StoreAll(records, logs, changes)|
    ensures StoreAll(records, logs, changes)[m].id != StoreAll(records, logs, changes)[n].id
  {
    if logs != [] {
      var init, log := logs[..|logs| - 1], logs[|logs| - 1];
      var before := StoreAll(records, init, changes);
      if n < |before| {
        AddedIsNew(records, init, changes, m, n);
      } else {
        assert before[m] in before && !Holds(before, RecordOf(log).id);
      }
    }
  }

  lemma StoredExactly(records: seq<Record>, logs: seq<Log>, changes: bool)
    ensures IsStored(records, StoreAll(records, logs, changes), logs, changes)
  {
    var after := StoreAll(records, logs, changes);
    hide StoreAll, HasSource;
    forall n | |records| <= n < |after| ensures HasSource(after[n], logs, changes) {
      AddedHaveSource(records, logs, changes, n);
    }
    forall m, n | 0 <= m < n < |after| && |records| <= n ensures after[m].id != after[n].id {
      AddedIsNew(records, logs, changes, m, n);
    }
    forall l | l in logs && l.DelegateChanged? == changes ensures Holds(after, l.id) {
      StoresEvery(records, logs, changes, l.id);
    }
  }

  lemma {:induction false} NothingToStore(records: seq<Record>, logs: seq<Log>, changes: bool)
    requires forall l | l in logs && Stores(changes, l) :: Holds(records, l.id)
    ensures StoreAll(records, logs, changes) == records
  {
    if logs != [] {
      NothingToStore(records, logs[..|logs| - 1], changes);
    }
  }

  /** Replaying a prefix, then everything, stores what replaying everything stores. */
  lemma {:induction false} PrefixFirst(records: seq<Record>, logs: seq<Log>, stop: nat, changes: bool)
    requires stop <= |logs|
    ensures StoreAll(StoreAll(records, logs[..stop], changes), logs, changes) == StoreAll(records, logs, changes)
    decreases |logs|
  {
    var half := StoreAll(records, logs[..stop], changes);
    if stop == |logs| {
      assert logs[..stop] == logs;
      forall l | l in logs && Stores(changes, l) ensures Holds(half, l.id) {
        StoresEvery(records, logs, changes, l.id);
      }
      NothingToStore(half, logs, changes);
    } else {
      assert logs[..|logs| - 1][..stop] == logs[..stop];
      PrefixFirst(records, logs[..|logs| - 1], stop, changes);
    }
  }
}
