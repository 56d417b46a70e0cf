/** Positions of log entries on a chain, and the three ways the tools read "the newest one" out of a collection:
    the last of an ascending sort, the first of a descending sort, and the last write of an ascending fold. */
module Chronology {
  datatype Option<+T> = None | Some(value: T)

  datatype Position = Position(blockNumber: nat, transactionIndex: nat, logIndex: nat)

  predicate Before(p: Position, q: Position) {
    || p.blockNumber < q.blockNumber
    || (p.blockNumber == q.blockNumber && p.transactionIndex < q.transactionIndex)
    || (p.blockNumber == q.blockNumber && p.transactionIndex == q.transactionIndex && p.logIndex < q.logIndex)
  }

  /** The order of the chain told field by field: the block decides, then the transaction, then the log. */
  ghost predicate AtMost(p: Position, q: Position) {
    && p.blockNumber <= q.blockNumber
    && (p.blockNumber == q.blockNumber ==> p.transactionIndex <= q.transactionIndex)
    && (p.blockNumber == q.blockNumber && p.transactionIndex == q.transactionIndex ==> p.logIndex <= q.logIndex)
  }

  /** The rows a query matches, in stored order. */
  function Select<T(!new)>(rows: seq<T>, wanted: T -> bool): (selected: seq<T>)
    ensures forall r :: r in selected <==> r in rows && wanted(r)
  {
    if rows == [] then []
    else (if wanted(rows[0]) then [rows[0]] else []) + Select(rows[1..], wanted)
  }

  lemma {:induction false} SelectAgrees<T(!new)>(rows: seq<T>, wanted: T -> bool, wanted': T -> bool)
    requires forall r | r in rows :: wanted(r) == wanted'(r)
    ensures Select(rows, wanted) == Select(rows, wanted')
  {
    if rows != [] {
      assert forall r | r in rows[1..] :: r in rows;
      assert rows[0] in rows;
      SelectAgrees(rows[1..], wanted, wanted');
    }
  }

  lemma {:induction false} SelectNext<T(!new)>(rows: seq<T>, n: nat, wanted: T -> bool)
    requires n < |rows|
    ensures Select(rows[..n + 1], wanted) == Select(rows[..n], wanted) + if wanted(rows[n]) then [rows[n]] else []
  {
    if n > 0 {
      SelectNext(rows[1..], n - 1, wanted);
      assert rows[..n + 1][1..] == rows[1..][..n] && rows[..n][1..] == rows[1..][..n - 1];
    }
  }

  /** The newest wanted entry, the reference the sorted queries are measured against. */
  function Newest<T>(log: seq<T>, wanted: T -> bool, at: T -> Position): Option<T> {
    if log == [] then None
    else
      var rest := Newest(log[1..], wanted, at);
      if wanted(log[0]) && (rest.None? || Before(at(rest.value), at(log[0]))) then Some(log[0]) else rest
  }

  ghost predicate IsNewest<T(!new)>(log: seq<T>, wanted: T -> bool, at: T -> Position, e: T) {
    e in log && wanted(e) && forall o | o in log && wanted(o) :: !Before(at(e), at(o))
  }

  /** Wanted entries at the same position are the same entry. */
  ghost predicate Distinct<T(!new)>(log: seq<T>, wanted: T -> bool, at: T -> Position) {
    forall e, o | e in log && o in log && wanted(e) && wanted(o) && at(e) == at(o) :: e == o
  }

  lemma {:induction false} NewestIsNewest<T(!new)>(log: seq<T>, wanted: T -> bool, at: T -> Position)
    ensures Newest(log, wanted, at).None? ==> forall o | o in log :: !wanted(o)
    ensures Newest(log, wanted, at).Some? ==> IsNewest(log, wanted, at, Newest(log, wanted, at).value)
  {
    if log != [] {
      NewestIsNewest(log[1..], wanted, at);
      assert forall o | o in log :: o == log[0] || o in log[1..];
    }
  }

  /** No wanted entry is higher on the chain than the newest one. */
  lemma NewestIsHighest<T(!new)>(log: seq<T>, wanted: T -> bool, at: T -> Position)
    ensures var newest := Newest(log, wanted, at);
            newest.Some? ==> forall o | o in log && wanted(o) :: AtMost(at(o), at(newest.value))
  {
    NewestIsNewest(log, wanted, at);
  }

  lemma NewestUnique<T(!new)>(log: seq<T>, wanted: T -> bool, at: T -> Position, e: T)
    requires Distinct(log, wanted, at) && IsNewest(log, wanted, at, e)
    ensures Newest(log, wanted, at) == Some(e)
  {
    NewestIsNewest(log, wanted, at);
  }

  /** A result of `find(...).sort({ blockNumber: 1, transactionIndex: 1, logIndex: 1 })`: any ascending
      arrangement of the matching rows. */
  ghost predicate Ascending<T(!new)>(view: seq<T>, rows: seq<T>, at: T -> Position) {
    && multiset(view) == multiset(rows)
    && forall i, j | 0 <= i < j < |view| :: !Before(at(view[j]), at(view[i]))
  }

  /** The same for a descending sort. */
  ghost predicate Descending<T(!new)>(view: seq<T>, rows: seq<T>, at: T -> Position) {
    && multiset(view) == multiset(rows)
    && forall i, j | 0 <= i < j < |view| :: !Before(at(view[i]), at(view[j]))
  }

  lemma SameMembers<T(!new)>(view: seq<T>, rows: seq<T>)
    requires multiset(view) == multiset(rows)
    ensures forall r :: r in view <==> r in rows
  {
    forall r ensures r in view <==> r in rows {
      assert r in view <==> r in multiset(view);
      assert r in rows <==> r in multiset(rows);
    }
  }

  /** Descending sort and take the first, the shape of every `findOne(...).sort(-1)`. */
  lemma FirstOfDescending<T(!new)>(view: seq<T>, log: seq<T>, wanted: T -> bool, at: T -> Position)
    requires Distinct(log, wanted, at)
    requires Descending(view, Select(log, wanted), at)
    ensures Newest(log, wanted, at) == if view == [] then None else Some(view[0])
  {
    SameMembers(view, Select(log, wanted));
    NewestIsNewest(log, wanted, at);
    if view != [] {
      forall o | o in log && wanted(o) ensures !Before(at(view[0]), at(o)) {
        assert o in view;
      }
      NewestUnique(log, wanted, at, view[0]);
    }
  }

  /** Ascending sort and take the last, as the row repair does with the applied updates. */
  lemma LastOfAscending<T(!new)>(view: seq<T>, log: seq<T>, wanted: T -> bool, at: T -> Position)
    requires Distinct(log, wanted, at)
    requires Ascending(view, Select(log, wanted), at)
    ensures Newest(log, wanted, at) == if view == [] then None else Some(view[|view| - 1])
  {
    SameMembers(view, Select(log, wanted));
    NewestIsNewest(log, wanted, at);
    if view != [] {
      var last := view[|view| - 1];
      forall o | o in log && wanted(o) ensures !Before(at(last), at(o)) {
        assert o in view;
      }
      NewestUnique(log, wanted, at, last);
    }
  }
}
