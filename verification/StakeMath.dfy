/** The integer arithmetic of slashing and rewards, 64-bit wrap-around included. */
module StakeMath {

  const WORD := 0x1_0000_0000_0000_0000
  const BASE_REWARD := 1000000

  /** What a 64-bit multiplication keeps. */
  function Wrap(x: nat): nat {
    x % WORD
  }

  function TotalReward(epoch: nat): (r: nat)
    ensures r <= BASE_REWARD
  {
    if epoch <= 1 then 100 else BASE_REWARD / (1 + epoch / 100)
  }

  /** 100 up to epoch 1; from then on a million shared by one more than the hundreds of epochs. */
  lemma TotalRewardIs(epoch: nat)
    ensures epoch <= 1 ==> TotalReward(epoch) == 100
    ensures epoch > 1 ==>
              TotalReward(epoch) * (1 + epoch / 100) <= 1000000 < (TotalReward(epoch) + 1) * (1 + epoch / 100)
  {
    if epoch > 1 {
      QuotientFits(1000000, 1 + epoch / 100);
    }
  }

  /** From epoch 2 on the total never rises again. */
  lemma TotalRewardFalls(epoch: nat, later: nat)
    requires 2 <= epoch <= later
    ensures TotalReward(later) <= TotalReward(epoch)
  {
    SmallerDivisor(1000000, 1 + epoch / 100, 1 + later / 100);
  }

  /** The penalty before it is capped by the stake. */
  function Penalty(stake: nat, misbehavior: nat): nat {
    Wrap(stake / 100 * misbehavior)
  }

  function CappedPenalty(stake: nat, misbehavior: nat): (p: nat)
    ensures p <= stake
  {
    var p := Penalty(stake, misbehavior);
    if p > stake then stake else p
  }

  /** A penalty is what its formula says, capped by the stake, exactly when the product fits
      64 bits or wraps to something that the cap hides. */
  lemma PenaltyIsExact(stake: nat, misbehavior: nat)
    ensures var full := stake / 100 * misbehavior;
            CappedPenalty(stake, misbehavior) == (if full > stake then stake else full)
            <==> full < WORD || full % WORD >= stake
  {
  }

  /** More misbehavior can cost less: a count that makes the product wrap to nothing. */
  lemma PenaltyCanVanish() returns (stake: nat, count: nat)
    ensures stake < WORD && count < WORD && stake > 0
    ensures CappedPenalty(stake, 1) > 0 && CappedPenalty(stake, count) == 0
  {
    stake, count := 25600, 0x100_0000_0000_0000;
    assert stake / 100 == 256;
    assert 256 * count == WORD;
  }

  // ------------------------------------------------------------------ rewards

  function Sum(s: seq<nat>): nat {
    if s == [] then 0 else s[0] + Sum(s[1..])
  }

  /** One reward: the share of the total, product and quotient cut to words. */
  function RewardOf(total: nat, stake: nat, active: nat): nat
    requires active > 0
  {
    Wrap(total * stake) / active
  }

  /** While the product fits, the truncated share of the total. */
  lemma RewardIsShare(total: nat, stake: nat, active: nat)
    requires active > 0 && total * stake < 0x1_0000_0000_0000_0000
    ensures RewardOf(total, stake, active) * active <= total * stake < (RewardOf(total, stake, active) + 1) * active
  {
    QuotientFits(total * stake, active);
  }

  /** The rewards handed out in list order: each is added to the divisor before the next. */
  function Rewards(total: nat, stakes: seq<nat>, active: nat): (r: seq<nat>)
    requires active > 0
    ensures |r| == |stakes|
    decreases |stakes|
  {
    if stakes == [] then []
    else
      var reward := RewardOf(total, stakes[0], active);
      [reward] + Rewards(total, stakes[1..], active + reward)
  }

  /** Each reward by itself: the divisor has grown by all the rewards before it. */
  lemma {:induction false} RewardAt(total: nat, stakes: seq<nat>, active: nat, k: nat)
    requires active > 0 && k < |stakes|
    ensures var r := Rewards(total, stakes, active);
            r[k] == total * stakes[k] % 0x1_0000_0000_0000_0000 / (active + Sum(r[..k]))
    decreases k
  {
    var r := Rewards(total, stakes, active);
    if k > 0 {
      var reward := RewardOf(total, stakes[0], active);
      RewardAt(total, stakes[1..], active + reward, k - 1);
      assert r[..k][1..] == Rewards(total, stakes[1..], active + reward)[..k - 1];
    }
  }

  /** One step of the reward loop at position `i`. */
  lemma RewardsStep(total: nat, stakes: seq<nat>, i: nat, active: nat, rewards: seq<nat>)
    requires active > 0 && i < |stakes| == |rewards|
    requires Rewards(total, stakes[i..], active) == rewards[i..]
    ensures rewards[i] == RewardOf(total, stakes[i], active)
    ensures Rewards(total, stakes[i + 1..], active + rewards[i]) == rewards[i + 1..]
    ensures Sum(rewards[i..]) == rewards[i] + Sum(rewards[i + 1..])
  {
    assert stakes[i..][1..] == stakes[i + 1..] && rewards[i..][1..] == rewards[i + 1..];
  }

  lemma {:induction false} DivBelow(a: nat, b: nat, k: nat)
    requires k > 0 && a <= b
    ensures a / k * k <= b
  {
    assert a == a / k * k + a % k;
  }

  lemma MulMonotone(a: nat, b: nat, k: nat)
    requires a <= b
    ensures a * k <= b * k
  {
  }

  lemma AddShares(r: nat, rs: nat, k: nat, s: nat, ss: nat, total: nat)
    requires r * k <= total * s && rs * k <= total * ss
    ensures (r + rs) * k <= total * (s + ss)
  {
    assert (r + rs) * k == r * k + rs * k;
    assert total * (s + ss) == total * s + total * ss;
  }

  /** One reward times a divisor no larger than its own stays below the exact product. */
  lemma RewardBelowShare(total: nat, stake: nat, active: nat, start: nat)
    requires 0 < start <= active
    ensures Wrap(total * stake) / active * start <= total * stake
  {
    var product := total * stake;
    var reward := Wrap(product) / active;
    DivBelow(Wrap(product), product, active);
    MulMonotone(start, active, reward);
  }

  /** All rewards times the divisor at the start stay below the exact products. */
  lemma {:induction false} RewardsStayBelowShares(total: nat, stakes: seq<nat>, active: nat, start: nat)
    requires 0 < start <= active
    ensures Sum(Rewards(total, stakes, active)) * start <= total * Sum(stakes)
    decreases |stakes|
  {
    if stakes != [] {
      var reward := RewardsUnfold(total, stakes, active);
      hide Rewards, Sum, Wrap;
      var rest := Rewards(total, stakes[1..], active + reward);
      RewardBelowShare(total, stakes[0], active, start);
      RewardsStayBelowShares(total, stakes[1..], active + reward, start);
      AddShares(reward, Sum(rest), start, stakes[0], Sum(stakes[1..]), total);
    }
  }

  lemma RewardsUnfold(total: nat, stakes: seq<nat>, active: nat) returns (reward: nat)
    requires stakes != [] && active > 0
    ensures reward == Wrap(total * stakes[0]) / active && Sum(stakes) == stakes[0] + Sum(stakes[1..])
    ensures Sum(Rewards(total, stakes, active)) == reward + Sum(Rewards(total, stakes[1..], active + reward))
  {
    hide Wrap;
    reward := Wrap(total * stakes[0]) / active;
    assert Rewards(total, stakes, active)[1..] == Rewards(total, stakes[1..], active + reward);
  }

  /** One epoch hands out at most its total reward, although the divisor grows on the way and
      whether or not products wrap. */
  lemma RewardsWithinBudget(total: nat, stakes: seq<nat>, active: nat)
    requires active > 0 && Sum(stakes) <= active
    ensures Sum(Rewards(total, stakes, active)) <= total
  {
    hide Rewards, Sum;
    RewardsStayBelowShares(total, stakes, active, active);
    var given := Sum(Rewards(total, stakes, active));
    MulMonotone(Sum(stakes), active, total);
    CancelFactor(given, total, active);
  }

  lemma CancelFactor(a: nat, b: nat, k: nat)
    requires k > 0 && a * k <= b * k
    ensures a <= b
  {
    if a > b {
      MulMonotone(b + 1, a, k);
    }
  }

  /** No product wraps, in any epoch, while stakes stay below a millionth of the word. */
  lemma RewardProductsFit(epoch: nat, stake: nat)
    requires stake <= (WORD - 1) / BASE_REWARD
    ensures Wrap(TotalReward(epoch) * stake) == TotalReward(epoch) * stake
  {
    LargestProduct(stake);
    ProductFits(TotalReward(epoch), stake, BASE_REWARD * stake);
  }

  lemma ProductFits(reward: nat, stake: nat, largest: nat)
    requires reward <= BASE_REWARD && largest == BASE_REWARD * stake < WORD
    ensures Wrap(reward * stake) == reward * stake
  {
    hide Wrap;
    MulMonotone(reward, BASE_REWARD, stake);
    WrapFits(reward * stake);
  }

  lemma LargestProduct(stake: nat)
    requires stake <= (WORD - 1) / BASE_REWARD
    ensures BASE_REWARD * stake < WORD
  {
  }

  lemma WrapFits(x: nat)
    requires x < WORD
    ensures Wrap(x) == x
  {
  }

  /** Of two equal stakes the one later in the list never gets more. */
  lemma {:induction false} LaterNeverGetsMore(total: nat, stakes: seq<nat>, active: nat, i: nat, j: nat)
    requires active > 0 && i < j < |stakes| && stakes[i] == stakes[j]
    ensures Rewards(total, stakes, active)[j] <= Rewards(total, stakes, active)[i]
    decreases |stakes|
  {
    var reward := Wrap(total * stakes[0]) / active;
    if i > 0 {
      LaterNeverGetsMore(total, stakes[1..], active + reward, i - 1, j - 1);
    } else {
      RewardAtMost(total, stakes[1..], active + reward, j - 1, active);
    }
  }

  lemma {:induction false} RewardAtMost(total: nat, stakes: seq<nat>, active: nat, j: nat, less: nat)
    requires 0 < less <= active && j < |stakes|
    ensures Rewards(total, stakes, active)[j] <= Wrap(total * stakes[j]) / less
    decreases |stakes|
  {
    var reward := Wrap(total * stakes[0]) / active;
    if j == 0 {
      SmallerDivisor(Wrap(total * stakes[0]), less, active);
    } else {
      RewardAtMost(total, stakes[1..], active + reward, j - 1, less);
    }
  }

  lemma SmallerDivisor(x: nat, a: nat, b: nat)
    requires 0 < a <= b
    ensures x / b <= x / a
  {
    var q := x / b;
    QuotientFits(x, b);
    MulMonotone(a, b, q);
    LargestQuotient(x, a, q);
  }

  lemma QuotientFits(x: nat, k: nat)
    requires k > 0
    ensures k * (x / k) <= x < k * (x / k + 1)
  {
  }

  lemma LargestQuotient(x: nat, k: nat, q: nat)
    requires k > 0 && k * q <= x
    ensures q <= x / k
  {
    QuotientFits(x, k);
    Below(q, x / k + 1, k);
  }

  lemma Below(a: nat, b: nat, k: nat)
    requires k * a < k * b
    ensures a < b
  {
  }
}
