/** Counting and summing over a list or a map, and lists without repetition. */
module Counting {
  import opened Chronology

  function Tally<T>(s: seq<T>, counted: T -> bool): nat {
    if s == [] then 0 else Tally(s[..|s| - 1], counted) + if counted(s[|s| - 1]) then 1 else 0
  }

  lemma {:induction false} TallyAgrees<T>(s: seq<T>, counted: T -> bool, counted': T -> bool)
    requires forall x | x in s :: counted(x) == counted'(x)
    ensures Tally(s, counted) == Tally(s, counted')
  {
    if s != [] {
      TallyAgrees(s[..|s| - 1], counted, counted');
    }
  }

  lemma {:induction false} TallyZero<T>(s: seq<T>, counted: T -> bool)
    ensures Tally(s, counted) == 0 <==> forall x | x in s :: !counted(x)
  {
    if s != [] {
      TallyZero(s[..|s| - 1], counted);
      assert forall x :: x in s <==> x in s[..|s| - 1] || x == s[|s| - 1];
    }
  }

  /** The number of positions counted. */
  lemma {:induction false} TallyIsSize<T>(s: seq<T>, counted: T -> bool, positions: set<nat>)
    requires forall n: nat :: n in positions <==> n < |s| && counted(s[n])
    ensures Tally(s, counted) == |positions|
  {
    if s == [] {
      assert positions == {};
    } else {
      var last := |s| - 1;
      TallyIsSize(s[..last], counted, positions - {last});
      if counted(s[last]) {
        assert positions == positions - {last} + {last};
      } else {
        assert positions == positions - {last};
      }
    }
  }

  /** As many rows are selected as are counted. */
  lemma {:induction false} SelectCount<T(!new)>(rows: seq<T>, wanted: T -> bool)
    ensures |Select(rows, wanted)| == Tally(rows, wanted)
  {
    if rows != [] {
      var last := |rows| - 1;
      assert rows[..last + 1] == rows;
      SelectNext(rows, last, wanted);
      SelectCount(rows[..last], wanted);
      hide Select;
    }
  }

  /** In a list without repetition, the number of elements counted. */
  lemma {:induction false} TallyOfDistinct<T>(s: seq<T>, counted: T -> bool, members: set<T>)
    requires NoRepeats(s) && forall x :: x in members <==> x in s && counted(x)
    ensures Tally(s, counted) == |members|
  {
    if s == [] {
      assert members == {};
    } else {
      var init, last := s[..|s| - 1], s[|s| - 1];
      assert forall x :: x in s <==> x in init || x == last;
      TallyOfDistinct(init, counted, members - {last});
      if counted(last) {
        assert members == members - {last} + {last};
      } else {
        assert members == members - {last};
      }
    }
  }

  function Sum<T>(s: seq<T>, amount: T -> nat): nat {
    if s == [] then 0 else Sum(s[..|s| - 1], amount) + amount(s[|s| - 1])
  }

  lemma {:induction false} SumZero<T>(s: seq<T>, amount: T -> nat)
    ensures Sum(s, amount) == 0 <==> forall x | x in s :: amount(x) == 0
  {
    if s != [] {
      SumZero(s[..|s| - 1], amount);
      assert forall x :: x in s <==> x in s[..|s| - 1] || x == s[|s| - 1];
    }
  }

  lemma {:induction false} SumOfUpdate<T>(s: seq<T>, n: nat, x: T, amount: T -> nat)
    requires n < |s|
    ensures Sum(s[n := x], amount) + amount(s[n]) == Sum(s, amount) + amount(x)
  {
    var last := |s| - 1;
    if n == last {
      assert s[n := x][..last] == s[..last];
    } else {
      SumOfUpdate(s[..last], n, x, amount);
      assert s[n := x][..last] == s[..last][n := x];
    }
  }

  /** The sum of the values of a map. */
  ghost function Total<K>(counts: map<K, nat>): nat {
    if counts == map[] then 0
    else
      var k :| k in counts;
      counts[k] + Total(counts - {k})
  }

  lemma {:induction false} TotalWithout<K>(counts: map<K, nat>, k: K)
    requires k in counts
    ensures Total(counts) == counts[k] + Total(counts - {k})
    decreases |counts|
  {
    var l :| l in counts && Total(counts) == counts[l] + Total(counts - {l});
    if l != k {
      TotalWithout(counts - {l}, k);
      TotalWithout(counts - {k}, l);
      assert counts - {l} - {k} == counts - {k} - {l};
    }
  }

  /** Counting one more under a key adds one to the total. */
  lemma TotalNext<K>(counts: map<K, nat>, k: K)
    ensures Total(counts[k := (if k in counts then counts[k] else 0) + 1]) == Total(counts) + 1
  {
    var next := counts[k := (if k in counts then counts[k] else 0) + 1];
    TotalWithout(next, k);
    assert next - {k} == counts - {k};
    if k in counts {
      TotalWithout(counts, k);
    } else {
      assert counts - {k} == counts;
    }
  }

  lemma SizeOfUnion<T>(s: set<T>, t: set<T>)
    requires s !! t
    ensures |s + t| == |s| + |t|
  {
  }

  lemma TwoParts<T>(all: set<T>, a: set<T>, b: set<T>)
    requires a !! b && forall x :: x in all <==> x in a || x in b
    ensures |a| + |b| == |all|
  {
    assert all == a + b;
    SizeOfUnion(a, b);
  }

  lemma FiveParts<T>(all: set<T>, a: set<T>, b: set<T>, c: set<T>, d: set<T>, e: set<T>)
    requires a !! b !! c !! d !! e && forall x :: x in all <==> x in a || x in b || x in c || x in d || x in e
    ensures |a| + |b| + |c| + |d| + |e| == |all|
  {
    assert all == a + b + c + d + e;
    SizeOfUnion(a + b + c + d, e);
    SizeOfUnion(a + b + c, d);
    SizeOfUnion(a + b, c);
    SizeOfUnion(a, b);
  }

  ghost predicate NoRepeats<T>(s: seq<T>) {
    forall a, b | 0 <= a < b < |s| :: s[a] != s[b]
  }

  lemma Appended<T>(s: seq<T>, t: seq<T>)
    requires NoRepeats(s) && NoRepeats(t) && forall x | x in t :: x !in s
    ensures NoRepeats(s + t)
  {
    var u := s + t;
    forall a, b | 0 <= a < b < |u| ensures u[a] != u[b] {
      if a < |s| <= b {
        assert u[b] in t;
      }
    }
  }
}
