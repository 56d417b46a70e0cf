/** The delegation backfill over the collections it updates in place. */
module DelegationTool {
  import opened Chronology
  import opened DelegationReplay

  class Collections {
    var locks: seq<Lock>
    var changes: seq<Record>
    var delegations: seq<Record>

    constructor (locks: seq<Lock>, changes: seq<Record>, delegations: seq<Record>)
      ensures this.locks == locks && this.changes == changes && this.delegations == delegations
    {
      this.locks, this.changes, this.delegations := locks, changes, delegations;
    }

    method StoreRecord(log: Log)
      modifies this`changes, this`delegations
      ensures changes == if Stores(true, log) then Store(old(changes), RecordOf(log)) else old(changes)
      ensures delegations == if Stores(false, log) then Store(old(delegations), RecordOf(log)) else old(delegations)
    {
      if log.DelegateChanged? {
        if !Holds(changes, log.id) {
          changes := changes + [RecordOf(log)];
        }
      } else {
        if !Holds(delegations, log.id) {
          delegations := delegations + [RecordOf(log)];
        }
      }
    }

    method UpdateLocks(s: Scope, log: Log, taken: bool)
      modifies this`locks
      ensures locks == ReplayLog(old(locks), s, log, taken)
      ensures |locks| == |old(locks)| && forall n | 0 <= n < |locks| ::
                var lock := old(locks)[n];
                locks[n] ==
                if taken && !log.DelegateChanged? && lock.tokenId in log.tokenIds
                   && lock.network == s.network && lock.tokenAddress == s.adapter
                then lock.(delegateReceiver := if log.TokensDelegated? then Some(log.delegatee) else None) else lock
    {
      if taken {
        if log.TokensDelegated? {
          locks := Assign(locks, s, log.tokenIds, Some(log.delegatee));
        } else if log.TokensUndelegated? {
          locks := Assign(locks, s, log.tokenIds, None);
        }
      }
    }
  }

  /** `resolved` says whether escrow, plugin and creation block of the adapter were found, `taken` which lock updates
      took effect, and `stop` how many logs were replayed before the run ended. The reset comes first: a run that does
      not resolve leaves every lock of the adapter without a receiver. */
  method Backfill(store: Collections, s: Scope, resolved: bool, logs: seq<Log>, taken: seq<bool>, stop: nat)
    returns (processed: nat)
    requires |logs| == |taken| && stop <= |logs|
    modifies store
    ensures processed == if resolved then stop else 0
    ensures store.locks == ReplayLocks(Reset(old(store.locks), s), s, logs[..processed], taken[..processed])
    ensures store.changes == StoreAll(old(store.changes), logs[..processed], true)
    ensures store.delegations == StoreAll(old(store.delegations), logs[..processed], false)
    ensures IsReplayed(old(store.locks), store.locks, s, logs[..processed], taken[..processed])
    ensures IsStored(old(store.changes), store.changes, logs[..processed], true)
    ensures IsStored(old(store.delegations), store.delegations, logs[..processed], false)
  {
    hide IsReplayed, IsStored;
    ReplayedExactly(store.locks, s, logs[..0], taken[..0]);
    StoredExactly(store.changes, logs[..0], true);
    StoredExactly(store.delegations, logs[..0], false);
    store.locks := Reset(store.locks, s);
    processed := 0;
    if !resolved {
      return;
    }
    while processed < stop
      invariant processed <= stop
      invariant store.locks == ReplayLocks(Reset(old(store.locks), s), s, logs[..processed], taken[..processed])
      invariant store.changes == StoreAll(old(store.changes), logs[..processed], true)
      invariant store.delegations == StoreAll(old(store.delegations), logs[..processed], false)
    {
      assert logs[..processed + 1][..processed] == logs[..processed];
      assert taken[..processed + 1][..processed] == taken[..processed];
      store.StoreRecord(logs[processed]);
      store.UpdateLocks(s, logs[processed], taken[processed]);
      processed := processed + 1;
    }
    ReplayedExactly(old(store.locks), s, logs[..processed], taken[..processed]);
    StoredExactly(old(store.changes), logs[..processed], true);
    StoredExactly(old(store.delegations), logs[..processed], false);
  }
}
