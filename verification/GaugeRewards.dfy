/** The split of an epoch's reward over the gauges by voting power: rounded down, with the dust for the first largest
    gauge. */
module GaugeRewards {
  import opened Counting

  /** A gauge with the voting power it ended the epoch with, in the order the votes are read. */
  datatype GaugeVotes = GaugeVotes(gauge: string, votingPower: nat)

  datatype GaugeReward = GaugeReward(gauge: string, votingPower: nat, rewardAmount: nat)

  function PowerOf(v: GaugeVotes): nat { v.votingPower }

  function AmountOf(r: GaugeReward): nat { r.rewardAmount }

  /** A gauge's share, rounded down. */
  function Share(power: nat, total: nat, reward: nat): nat
    requires total > 0
  {
    ShareNotNegative(power, total, reward);
    power * reward / total
  }

  lemma ShareNotNegative(power: nat, total: nat, reward: nat)
    requires total > 0
    ensures power * reward >= 0 && power * reward / total >= 0
  {
  }

  /** The rewards before the dust is given out. */
  function Rounded(votes: seq<GaugeVotes>, total: nat, reward: nat): (rewards: seq<GaugeReward>)
    ensures |rewards| == |votes|
  {
    seq(|votes|, n requires 0 <= n < |votes| =>
      GaugeReward(votes[n].gauge, votes[n].votingPower,
                  if total > 0 then Share(votes[n].votingPower, total, reward) else 0))
  }

  /** The first gauge no other one has more voting power than. */
  ghost predicate IsFirstLargest(votes: seq<GaugeVotes>, n: int) {
    && 0 <= n < |votes|
    && (forall m | 0 <= m < |votes| :: votes[m].votingPower <= votes[n].votingPower)
    && forall m | 0 <= m < n :: votes[m].votingPower < votes[n].votingPower
  }

  lemma ShareTimesTotal(power: nat, total: nat, reward: nat)
    requires total > 0
    ensures total * Share(power, total, reward) <= power * reward
    ensures power * reward <= total * Share(power, total, reward) + (total - 1)
  {
    var product := power * reward;
    assert product == total * (product / total) + product % total;
  }

  /** Rounding down takes less than one unit from every gauge. */
  lemma {:induction false} RoundedTimesTotal(votes: seq<GaugeVotes>, total: nat, reward: nat)
    requires total > 0
    ensures var rounded, powers := Sum(Rounded(votes, total, reward), AmountOf), Sum(votes, PowerOf);
            total * rounded <= powers * reward <= total * rounded + (total - 1) * |votes|
  {
    if votes == [] {
      assert Sum(Rounded(votes, total, reward), AmountOf) == 0;
    } else {
      var last := |votes| - 1;
      var init := votes[..last];
      RoundedTimesTotal(init, total, reward);
      ShareTimesTotal(votes[last].votingPower, total, reward);
      assert Rounded(votes, total, reward)[..last] == Rounded(init, total, reward);
      AddStep(total, reward, Sum(Rounded(init, total, reward), AmountOf), Sum(init, PowerOf), last,
              Share(votes[last].votingPower, total, reward), votes[last].votingPower);
    }
  }

  lemma AddStep(total: nat, reward: nat, rounded: nat, powers: nat, count: nat, share: nat, power: nat)
    requires total > 0
    requires total * rounded <= powers * reward <= total * rounded + (total - 1) * count
    requires total * share <= power * reward <= total * share + (total - 1)
    ensures total * (rounded + share) <= (powers + power) * reward
    ensures (powers + power) * reward <= total * (rounded + share) + (total - 1) * (count + 1)
  {
    assert total * (rounded + share) == total * rounded + total * share;
    assert (powers + power) * reward == powers * reward + power * reward;
    assert (total - 1) * (count + 1) == (total - 1) * count + (total - 1);
  }

  lemma DivideBounds(total: int, rounded: int, reward: int, count: int)
    requires total > 0 && count > 0
    requires total * rounded <= total * reward <= total * rounded + (total - 1) * count
    ensures rounded <= reward < rounded + count
  {
    assert total * (rounded + count) == total * rounded + (total - 1) * count + count;
    Cancel(total, rounded, reward);
    Cancel(total, rounded + count, reward);
  }

  /** The rounded amounts never exceed the reward, and leave less than one unit per gauge. */
  lemma {:induction false} DustIsSmall(votes: seq<GaugeVotes>, reward: nat)
    requires Sum(votes, PowerOf) > 0
    ensures var rounded := Sum(Rounded(votes, Sum(votes, PowerOf), reward), AmountOf);
            rounded <= reward < rounded + |votes|
  {
    RoundedTimesTotal(votes, Sum(votes, PowerOf), reward);
    DivideBounds(
      Sum(votes, PowerOf), Sum(Rounded(votes, Sum(votes, PowerOf), reward), AmountOf), reward, |votes|);
  }

  lemma Cancel(factor: int, x: int, y: int)
    requires factor > 0
    ensures factor * x <= factor * y <==> x <= y
  {
    assert factor * y - factor * x == factor * (y - x);
    KeepsSign(factor, y - x);
  }

  lemma KeepsSign(factor: int, x: int)
    requires factor > 0
    ensures 0 <= factor * x <==> 0 <= x
  {
  }

  lemma {:induction false} ShareGrows(power: nat, power': nat, total: nat, reward: nat)
    requires total > 0 && power <= power'
    ensures Share(power, total, reward) <= Share(power', total, reward)
  {
    ShareTimesTotal(power, total, reward);
    ShareTimesTotal(power', total, reward);
    assert power' * reward == power * reward + (power' - power) * reward;
    var lost := Share(power, total, reward) - Share(power', total, reward);
    assert total * lost == total * Share(power, total, reward) - total * Share(power', total, reward);
    if lost > 0 {
      Cancel(total, 1, lost);
    }
  }

  /** Every gauge has its share, except that the first largest one may have more. */
  ghost predicate IsSplit(votes: seq<GaugeVotes>, reward: nat, rewards: seq<GaugeReward>, largest: int)
    requires Sum(votes, PowerOf) > 0 && |rewards| == |votes|
  {
    IsFirstLargest(votes, largest) && forall n | 0 <= n < |votes| ::
      var share := Share(votes[n].votingPower, Sum(votes, PowerOf), reward);
      if n == largest then share <= rewards[n].rewardAmount < share + |votes| else rewards[n].rewardAmount == share
  }

  /** More voting power never earns less, and none earns nothing. */
  lemma {:induction false} SplitIsFair(
    votes: seq<GaugeVotes>, reward: nat, rewards: seq<GaugeReward>, largest: int, m: nat, n: nat)
    requires Sum(votes, PowerOf) > 0 && |rewards| == |votes| && IsSplit(votes, reward, rewards, largest)
    requires m < |votes| && n < |votes|
    ensures votes[m].votingPower < votes[n].votingPower ==> rewards[m].rewardAmount <= rewards[n].rewardAmount
    ensures votes[m].votingPower == 0 ==> rewards[m].rewardAmount == 0
  {
    if votes[m].votingPower < votes[n].votingPower {
      ShareGrows(votes[m].votingPower, votes[n].votingPower, Sum(votes, PowerOf), reward);
    }
    if votes[m].votingPower == 0 && m == largest {
      SumZero(votes, PowerOf);
    }
  }

  method FindLargest(rewards: seq<GaugeReward>) returns (largest: nat)
    requires rewards != []
    ensures largest < |rewards|
    ensures forall m | 0 <= m < |rewards| :: rewards[m].votingPower <= rewards[largest].votingPower
    ensures forall m | 0 <= m < largest :: rewards[m].votingPower < rewards[largest].votingPower
  {
    largest := 0;
    for n := 1 to |rewards|
      invariant largest < n
      invariant forall m | 0 <= m < n :: rewards[m].votingPower <= rewards[largest].votingPower
      invariant forall m | 0 <= m < largest :: rewards[m].votingPower < rewards[largest].votingPower
    {
      if rewards[n].votingPower > rewards[largest].votingPower {
        largest := n;
      }
    }
  }

  /** Without voting power nobody gets anything. With it the amounts add up to the reward exactly: every gauge gets its
      share rounded down, and the first largest one also gets what that leaves, less than one unit per gauge. */
  method Distribute(votes: seq<GaugeVotes>, reward: nat) returns (rewards: seq<GaugeReward>)
    ensures |rewards| == |votes|
    ensures forall n | 0 <= n < |votes| ::
              rewards[n].gauge == votes[n].gauge && rewards[n].votingPower == votes[n].votingPower
    ensures Sum(votes, PowerOf) == 0 ==> forall r | r in rewards :: r.rewardAmount == 0
    ensures Sum(votes, PowerOf) > 0 ==> Sum(rewards, AmountOf) == reward
    ensures Sum(votes, PowerOf) > 0 ==>
              exists largest :: IsSplit(votes, reward, rewards, largest)
  {
    var total := Sum(votes, PowerOf);
    rewards := Rounded(votes, total, reward);
    if |rewards| == 0 || total == 0 {
      return;
    }
    var distributed := Sum(rewards, AmountOf);
    DustIsSmall(votes, reward);
    var dust := reward - distributed;
    var largest := FindLargest(rewards);
    assert forall n | 0 <= n < |votes| :: rewards[n].votingPower == votes[n].votingPower;
    assert IsFirstLargest(votes, largest);
    if dust > 0 {
      var amount := rewards[largest].rewardAmount;
      SumOfUpdate(rewards, largest, rewards[largest].(rewardAmount := amount + dust), AmountOf);
      rewards := rewards[largest := rewards[largest].(rewardAmount := amount + dust)];
    }
    assert IsSplit(votes, reward, rewards, largest);
  }
}
