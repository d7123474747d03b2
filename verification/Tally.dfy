/** The arithmetic of a governance vote: every active validator's vote weighs the same truncated
    share of the total stake (consensus/governance/governance.go,
    consensus/diamantepos/diamantepos.go). */
module Tally {
  import opened Lists

  type Id = nat

  datatype Status = Pending | Active | Passed | Rejected | Executed

  /** Votes, active validators and total stake at the moment of decision. */
  datatype Ballot = Ballot(votes: map<Id, bool>, active: set<Id>, total: nat)

  /** What one active validator's vote weighs. */
  function Share(total: nat, n: nat): nat {
    if n == 0 then 0 else total / n
  }

  function Voters(votes: map<Id, bool>, vote: bool): set<Id> {
    set id | id in votes && votes[id] == vote
  }

  /** The stake counted for one side. */
  function Counted(b: Ballot, vote: bool): nat {
    |Voters(b.votes, vote) * b.active| * Share(b.total, |b.active|)
  }

  /** At least 66% of the total stake, in whole numbers. */
  function Outcome(b: Ballot): Status {
    if 100 * Counted(b, true) >= 66 * b.total then Passed else Rejected
  }

  /** With a share that is the truncated quotient, the decision compares the votes counted. */
  lemma OutcomeIs(b: Ballot, share: nat)
    requires b.active != {} && |b.active| * share <= b.total < |b.active| * (share + 1)
    ensures Outcome(b) == Passed <==> 100 * (|Voters(b.votes, true) * b.active| * share) >= 66 * b.total
    ensures Outcome(b) == Passed || Outcome(b) == Rejected
  {
    QuotientAtLeast(b.total, |b.active|, share);
    QuotientBelow(b.total, |b.active|, share + 1);
    assert Share(b.total, |b.active|) == share;
  }

  lemma QuotientBelow(total: nat, n: nat, k: nat)
    requires n > 0 && total < k * n
    ensures total / n < k
  {
    var q := total / n;
    assert total == n * q + total % n;
    if k <= q {
      Times(k, q, n);
    }
  }

  lemma ShareFits(total: nat, n: nat)
    ensures n * Share(total, n) <= total
    ensures n > 0 ==> total < n * (Share(total, n) + 1)
  {
  }

  lemma Times(a: nat, b: nat, k: nat)
    requires a <= b
    ensures a * k <= b * k
  {
  }

  /** The two sides never count more than there is; so sums in 64 bits cannot wrap. */
  lemma SidesWithinTotal(b: Ballot)
    ensures Counted(b, true) + Counted(b, false) <= b.total
  {
    var yes, no := Voters(b.votes, true) * b.active, Voters(b.votes, false) * b.active;
    var n, share := |b.active|, Share(b.total, |b.active|);
    assert yes + no <= b.active && yes !! no;
    SubsetSize(yes + no, b.active);
    assert |yes + no| == |yes| + |no|;
    Times(|yes| + |no|, n, share);
    Distribute(|yes|, |no|, share);
    ShareFits(b.total, n);
  }

  lemma Distribute(a: nat, b: nat, k: nat)
    ensures (a + b) * k == a * k + b * k
  {
  }

  /** With stake in the system, nothing passes on the votes of fewer than 66% of the active
      validators. */
  lemma PassingNeedsMajority(b: Ballot)
    requires b.total > 0 && Outcome(b) == Passed
    ensures |b.active| > 0 && 100 * |Voters(b.votes, true) * b.active| >= 66 * |b.active|
  {
    var y, n, share := |Voters(b.votes, true) * b.active|, |b.active|, Share(b.total, |b.active|);
    ShareFits(b.total, n);
    Weighed(y, n, share);
  }

  lemma Weighed(y: nat, n: nat, share: nat)
    ensures 100 * y < 66 * n && share > 0 ==> 100 * (y * share) < 66 * (n * share)
    ensures share == 0 ==> y * share == 0
  {
    assert 100 * (y * share) == (100 * y) * share && 66 * (n * share) == (66 * n) * share;
    if 100 * y < 66 * n && share > 0 {
      Times(100 * y + 1, 66 * n, share);
    }
  }

  /** Without stake everything passes, even what nobody voted for. */
  lemma NoStakePassesAll(votes: map<Id, bool>, active: set<Id>)
    ensures Outcome(Ballot(votes, active, 0)) == Passed
  {
  }

  /** When all active validators vote yes the proposal passes exactly if the truncation leaves
      enough: the remainder of total over count is small against the quotient. */
  lemma UnanimityPasses(b: Ballot)
    requires b.active <= Voters(b.votes, true) && b.active != {}
    ensures Outcome(b) == Passed <==> 33 * (b.total % |b.active|) <= 17 * |b.active| * (b.total / |b.active|)
  {
    var n := |b.active|;
    assert Voters(b.votes, true) * b.active == b.active;
    assert b.total == n * (b.total / n) + b.total % n;
    assert 17 * n * (b.total / n) == 17 * (n * (b.total / n));
  }

  /** Two units of stake per active validator are enough for unanimity to carry. */
  lemma TwoUnitsEachCarry(b: Ballot)
    requires b.active <= Voters(b.votes, true) && b.active != {} && b.total >= 2 * |b.active|
    ensures Outcome(b) == Passed
  {
    var n := |b.active|;
    var q := b.total / n;
    QuotientAtLeast(b.total, n, 2);
    Times(2, q, n);
    assert 17 * n * q == 17 * (q * n);
    UnanimityPasses(b);
  }

  lemma QuotientAtLeast(total: nat, n: nat, k: nat)
    requires n > 0 && total >= k * n
    ensures total / n >= k
  {
    var q := total / n;
    assert total == n * q + total % n;
    if q + 1 <= k {
      Times(q + 1, k, n);
    }
  }

  /** Three validators with five units of stake, all voting yes: rejected. */
  lemma UnanimityCanFail() returns (b: Ballot)
    ensures b.active <= Voters(b.votes, true) && b.active != {} && Outcome(b) == Rejected
  {
    b := Ballot(map[1 := true, 2 := true, 3 := true], {1, 2, 3}, 5);
    assert Voters(b.votes, true) * b.active == {1, 2, 3};
  }
}
