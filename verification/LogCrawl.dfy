/** The crawl that fetches the logs a backfill replays: block range after block range up to the latest block. */
module LogCrawl {
  /** What one round of the loop comes to: a range fetched, as many blocks past the current one as the batch allows; an
      error that is retried; or one that makes the crawl give up. */
  datatype Answer = Fetched(size: nat) | Failed | GaveUp

  /** Whether the crawl got to its own end, gave up, or has no more answers yet. */
  datatype Outcome = Ended | Aborted | Running

  /** The logs of the blocks from `lo` up to, not including, `hi`, in chain order. */
  function Between<T>(chain: nat -> seq<T>, lo: nat, hi: nat): seq<T> {
    if hi <= lo then [] else Between(chain, lo, hi - 1) + chain(hi - 1)
  }

  lemma {:induction false} BetweenJoins<T>(chain: nat -> seq<T>, lo: nat, mid: nat, hi: nat)
    requires lo <= mid <= hi
    ensures Between(chain, lo, mid) + Between(chain, mid, hi) == Between(chain, lo, hi)
    decreases hi
  {
    if mid == hi {
      assert Between(chain, lo, mid) + [] == Between(chain, lo, mid);
    } else {
      BetweenJoins(chain, lo, mid, hi - 1);
      assert Between(chain, lo, mid) + (Between(chain, mid, hi - 1) + chain(hi - 1))
          == (Between(chain, lo, mid) + Between(chain, mid, hi - 1)) + chain(hi - 1);
    }
  }

  /** A range of one block has the logs of that block. */
  lemma BetweenOne<T>(chain: nat -> seq<T>, n: nat)
    ensures Between(chain, n, n + 1) == chain(n)
  {
    assert Between(chain, n, n) + chain(n) == chain(n);
  }

  function ToBlock(current: nat, latest: nat, size: nat): (to: nat)
    requires current <= latest
    ensures current <= to <= latest
  {
    if current + size < latest then current + size else latest
  }

  /** Where a crawl gets: the first block it has not handed on, how it came to that, and the last blocks of its
      ranges. */
  datatype Progress = Progress(next: nat, outcome: Outcome, ends: seq<nat>)

  function Progressed(current: nat, latest: nat, answers: seq<Answer>): Progress
    requires current < latest
    decreases |answers|
  {
    if answers == [] then Progress(current, Running, [])
    else
      match answers[0]
      case Failed => Progressed(current, latest, answers[1..])
      case GaveUp => Progress(current, Aborted, [])
      case Fetched(size) =>
        var to := ToBlock(current, latest, size);
        if to + 1 >= latest then Progress(to + 1, Ended, [to])
        else
          var rest := Progressed(to + 1, latest, answers[1..]);
          rest.(ends := [to] + rest.ends)
  }

  /** A crawl that ends hands on every block up to the latest exactly when none of its ranges ends one block before it;
      otherwise it leaves the latest block out, and nothing else. */
  lemma {:induction false} MissesLatestExactly(current: nat, latest: nat, answers: seq<Answer>)
    requires current < latest
    ensures var p := Progressed(current, latest, answers);
            && current <= p.next <= latest + 1
            && (p.outcome.Ended? ==> p.next == if latest - 1 in p.ends then latest else latest + 1)
            && (!p.outcome.Ended? ==> p.next < latest && latest - 1 !in p.ends)
            && forall to | to in p.ends :: current <= to < p.next
    decreases |answers|
  {
    if answers != [] {
      match answers[0]
      case Failed =>
        MissesLatestExactly(current, latest, answers[1..]);
      case GaveUp =>
      case Fetched(size) =>
        var to := ToBlock(current, latest, size);
        if to + 1 < latest {
          MissesLatestExactly(to + 1, latest, answers[1..]);
        }
    }
  }

  /** Errors that are retried make no difference, wherever they come. */
  lemma {:induction false} RetriesDoNotMatter(current: nat, latest: nat, answers: seq<Answer>)
    requires current < latest
    ensures Progressed(current, latest, answers) == Progressed(current, latest, WithoutRetries(answers))
    decreases |answers|
  {
    if answers != [] {
      var rest := answers[1..];
      assert [] + WithoutRetries(rest) == WithoutRetries(rest);
      assert ([answers[0]] + WithoutRetries(rest))[1..] == WithoutRetries(rest);
      match answers[0]
      case Failed =>
        RetriesDoNotMatter(current, latest, rest);
      case GaveUp =>
      case Fetched(size) =>
        var to := ToBlock(current, latest, size);
        if to + 1 < latest {
          RetriesDoNotMatter(to + 1, latest, rest);
        }
    }
  }

  ghost function WithoutRetries(answers: seq<Answer>): seq<Answer> {
    if answers == [] then []
    else (if answers[0] == Failed then [] else [answers[0]]) + WithoutRetries(answers[1..])
  }

  /** A crawl that gives up has met an error that makes it, and one with answers left has not. */
  lemma {:induction false} GivesUpOnlyIfTold(current: nat, latest: nat, answers: seq<Answer>)
    requires current < latest
    ensures Progressed(current, latest, answers).outcome.Aborted? ==> GaveUp in answers
    ensures Progressed(current, latest, answers).outcome.Running? ==> GaveUp !in answers
    decreases |answers|
  {
    if answers != [] {
      match answers[0]
      case Failed =>
        GivesUpOnlyIfTold(current, latest, answers[1..]);
      case GaveUp =>
      case Fetched(size) =>
        var to := ToBlock(current, latest, size);
        if to + 1 < latest {
          GivesUpOnlyIfTold(to + 1, latest, answers[1..]);
        }
    }
  }

  /** Two ranges of two blocks over five: the fifth is left out. */
  lemma MissesLatestPitfall(from: nat)
    ensures Progressed(from, from + 4, [Fetched(1), Fetched(1)]) == Progress(from + 4, Ended, [from + 1, from + 3])
  {
    assert [Fetched(1), Fetched(1)][1..] == [Fetched(1)];
    assert Progressed(from + 2, from + 4, [Fetched(1)]) == Progress(from + 4, Ended, [from + 3]);
  }

  /** Hands on the logs of every block from the first up to where it gets, each once and in order. A crawl that starts
      at the latest block, or past it, hands on nothing. `latest` is -1 when it could not be read. */
  method Crawl<T>(chain: nat -> seq<T>, from: nat, latest: int, answers: seq<Answer>)
    returns (logs: seq<T>, next: nat, outcome: Outcome, ghost ends: seq<nat>)
    ensures logs == Between(chain, from, next)
    ensures from < latest ==> Progress(next, outcome, ends) == Progressed(from, latest, answers)
    ensures from >= latest ==> next == from && outcome.Ended? && logs == []
  {
    logs, next, outcome, ends := [], from, Ended, [];
    if from >= latest {
      return;
    }
    outcome := Running;
    var n := 0;
    while n < |answers| && next <= latest
      invariant n <= |answers| && from <= next < latest && outcome.Running?
      invariant logs == Between(chain, from, next)
      invariant var rest := Progressed(next, latest, answers[n..]);
                rest.(ends := ends + rest.ends) == Progressed(from, latest, answers)
    {
      var answer := answers[n];
      n := n + 1;
      assert answers[n - 1..][1..] == answers[n..];
      if answer.GaveUp? {
        outcome := Aborted;
        return;
      }
      if answer.Fetched? {
        var to := ToBlock(next, latest, answer.size);
        BetweenJoins(chain, from, next, to + 1);
        logs := logs + Between(chain, next, to + 1);
        ends := ends + [to];
        next := to + 1;
        if next >= latest {
          outcome := Ended;
          return;
        }
      }
    }
  }
}
