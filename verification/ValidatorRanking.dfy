/** The validator manager's active list and its hand-written exchange sort
    (consensus/validator_manager.go). */
module ValidatorRanking {
  import opened Lists

  datatype Status = Active | Inactive | Slashed | Jailed

  class ValidatorInfo {
    const id: nat
    var stake: nat
    var performance: real
    var status: Status

    constructor (id: nat, stake: nat, performance: real, status: Status)
      ensures this.id == id && this.stake == stake && this.performance == performance && this.status == status
    {
      this.id, this.stake, this.performance, this.status := id, stake, performance, status;
    }
  }

  function MembersOf(s: seq<ValidatorInfo>): set<ValidatorInfo> {
    set v | v in s
  }

  /** The score of each validator: the rounded product of stake and performance. */
  function Ranks(all: set<ValidatorInfo>, score: (nat, real) -> real): map<ValidatorInfo, real>
    reads all
  {
    map v | v in all :: score(v.stake, v.performance)
  }

  ghost function StakeOf(s: seq<ValidatorInfo>): nat
    reads s
  {
    if s == [] then 0 else StakeOf(s[..|s| - 1]) + s[|s| - 1].stake
  }

  // ------------------------------------------------------------------ the sort

  /** The first `n` scores are in order and none after them is larger. */
  ghost predicate Settled(s: seq<ValidatorInfo>, rank: map<ValidatorInfo, real>, n: nat) {
    && (forall v :: v in s ==> v in rank)
    && forall x, y :: 0 <= x < n && x < y < |s| ==> rank[s[x]] >= rank[s[y]]
  }

  /** Position `i` scores at least as high as those after it up to `j`. */
  ghost predicate Leads(s: seq<ValidatorInfo>, rank: map<ValidatorInfo, real>, i: nat, j: nat)
    requires i < |s| && j <= |s| && forall v :: v in s ==> v in rank
  {
    forall k :: i < k < j ==> rank[s[i]] >= rank[s[k]]
  }

  lemma SwapKeeps(s: seq<ValidatorInfo>, rank: map<ValidatorInfo, real>, i: nat, j: nat)
    requires i < j < |s| && Settled(s, rank, i) && Leads(s, rank, i, j) && rank[s[j]] > rank[s[i]]
    ensures var t := s[i := s[j]][j := s[i]];
            Settled(t, rank, i) && Leads(t, rank, i, j + 1) && multiset(t) == multiset(s)
  {
    var t := s[i := s[j]][j := s[i]];
    forall x, y | 0 <= x < i && x < y < |t| ensures rank[t[x]] >= rank[t[y]] {
      var z := if y == i then j else if y == j then i else y;
      assert t[x] == s[x] && t[y] == s[z];
    }
  }

  /** Exchange sort in place: the result is a descending permutation. */
  method SortValidatorsByScore(a: array<ValidatorInfo>, score: (nat, real) -> real)
    modifies a
    ensures Descending(a[..], Ranks(MembersOf(a[..]), score))
    ensures multiset(a[..]) == multiset(old(a[..]))
    ensures forall i, j :: 0 <= i < j < a.Length ==>
              score(a[i].stake, a[i].performance) >= score(a[j].stake, a[j].performance)
  {
    ghost var all := MembersOf(a[..]);
    ghost var rank := Ranks(all, score);
    for i := 0 to a.Length
      invariant Settled(a[..], rank, i)
      invariant multiset(a[..]) == multiset(old(a[..]))
    {
      BringUpLargest(a, i, score, rank);
    }
    forall v ensures v in a[..] <==> v in all {
      assert v in a[..] <==> v in multiset(a[..]);
      assert v in old(a[..]) <==> v in multiset(old(a[..]));
    }
    assert MembersOf(a[..]) == all;
    assert forall i :: 0 <= i < a.Length ==> a[..][i] == a[i] && a[i] in all;
  }

  /** The inner loop: exchanging in passing, it leaves a largest of the rest at `i`. */
  method BringUpLargest(a: array<ValidatorInfo>, i: nat, score: (nat, real) -> real,
    ghost rank: map<ValidatorInfo, real>)
    requires i < a.Length && Settled(a[..], rank, i)
    requires forall v :: v in rank ==> rank[v] == score(v.stake, v.performance)
    modifies a
    ensures Settled(a[..], rank, i + 1)
    ensures multiset(a[..]) == multiset(old(a[..]))
  {
    for j := i + 1 to a.Length
      invariant Settled(a[..], rank, i) && Leads(a[..], rank, i, j)
      invariant multiset(a[..]) == multiset(old(a[..]))
    {
      ghost var s := a[..];
      assert a[i] in s && a[j] in s;
      if score(a[j].stake, a[j].performance) > score(a[i].stake, a[i].performance) {
        a[i], a[j] := a[j], a[i];
        assert a[..] == s[i := s[j]][j := s[i]];
        SwapKeeps(s, rank, i, j);
      }
    }
  }

  /** The sort applied to the array behind a freshly built list. */
  method SortedByScore(list: seq<ValidatorInfo>, score: (nat, real) -> real) returns (sorted: seq<ValidatorInfo>)
    requires Distinct(list)
    ensures Descending(sorted, Ranks(MembersOf(list), score))
    ensures |sorted| == |list| && StakeOf(sorted) == StakeOf(list) && Distinct(sorted)
    ensures MembersOf(sorted) == MembersOf(list)
  {
    var a := new ValidatorInfo[|list|](i requires 0 <= i < |list| => list[i]);
    assert a[..] == list;
    SortValidatorsByScore(a, score);
    sorted := a[..];
    PermutationKeeps(list, sorted);
    assert MembersOf(sorted) == MembersOf(list);
  }

  class ValidatorManager {
    const score: (nat, real) -> real
    var validators: map<nat, ValidatorInfo>
    var activeValidators: seq<ValidatorInfo>
    var activeTotalStake: nat

    ghost predicate Keyed()
      reads this
    {
      forall id :: id in validators ==> validators[id].id == id
    }

    ghost function Candidates(): set<ValidatorInfo>
      reads this, validators.Values
    {
      set v | v in validators.Values && v.status == Active
    }

    constructor (score: (nat, real) -> real)
      ensures this.score == score
      ensures Keyed() && validators == map[] && activeValidators == []
    {
      this.score := score;
      validators, activeValidators, activeTotalStake := map[], [], 0;
    }

    /** The active-status validators, each once, in an arbitrary order, and their stake. */
    method CollectActive() returns (list: seq<ValidatorInfo>, total: nat)
      requires Keyed()
      ensures MembersOf(list) == Candidates() && Distinct(list)
      ensures total == StakeOf(list)
    {
      hide StakeOf, Distinct;
      list, total := [], 0;
      var rest := validators.Keys;
      NothingCollected();
      while rest != {}
        invariant rest <= validators.Keys
        invariant Collected(list, rest)
        invariant total == StakeOf(list)
      {
        var id :| id in rest;
        var v := validators[id];
        CollectsNext(list, rest, id);
        if v.status == Active {
          StakeAppend(list, v);
          list := list + [v];
          total := total + v.stake;
        }
        rest := rest - {id};
      }
      assert MembersOf(list) == Candidates();
    }

    /** `list` holds the candidates outside `rest`, each once. */
    ghost predicate Collected(list: seq<ValidatorInfo>, rest: set<nat>)
      reads this, validators.Values
    {
      && Distinct(list)
      && (forall v :: v in list ==> v in Candidates() && v.id !in rest)
      && (forall v :: v in Candidates() && v.id !in rest ==> v in list)
    }

    lemma NothingCollected()
      requires Keyed()
      ensures Collected([], validators.Keys) && StakeOf([]) == 0
    {
    }

    lemma CollectsNext(list: seq<ValidatorInfo>, rest: set<nat>, id: nat)
      requires Keyed() && Collected(list, rest) && id in rest && rest <= validators.Keys
      ensures var v := validators[id];
              Collected(if v.status == Active then list + [v] else list, rest - {id})
    {
      var v := validators[id];
      assert v !in list;
    }

    /** The list becomes the best-scoring candidates, at most `maxSetSize` of them. */
    method UpdateActiveValidators(maxSetSize: nat)
      requires Keyed()
      modifies this`activeValidators, this`activeTotalStake
      ensures BestOf(activeValidators, maxSetSize, Ranks(Candidates(), score))
      ensures activeTotalStake == StakeOf(activeValidators)
      ensures forall v :: v in activeValidators ==> v in validators.Values && v.status == Active
      ensures forall i, j :: 0 <= i < j < |activeValidators| ==>
                activeValidators[i] != activeValidators[j]
                && score(activeValidators[i].stake, activeValidators[i].performance)
                   >= score(activeValidators[j].stake, activeValidators[j].performance)
      ensures forall v, u ::
                v in activeValidators && u in validators.Values && u !in activeValidators && u.status == Active ==>
                  score(v.stake, v.performance) >= score(u.stake, u.performance)
      ensures (forall u :: u in validators.Values && u.status == Active ==> u in activeValidators)
              || |activeValidators| == maxSetSize
      ensures |activeValidators| <= maxSetSize
    {
      var sorted, total := SortedCandidates(maxSetSize);
      hide BestOf;
      SetPrefix(sorted, total, maxSetSize);
      RanksStay();
      ListMeans(maxSetSize);
    }

    /** What it means to be the best list. */
    lemma ListMeans(maxSetSize: nat)
      requires BestOf(activeValidators, maxSetSize, Ranks(Candidates(), score))
      ensures forall v :: v in activeValidators ==> v in validators.Values && v.status == Active
      ensures forall i, j :: 0 <= i < j < |activeValidators| ==>
                activeValidators[i] != activeValidators[j]
                && score(activeValidators[i].stake, activeValidators[i].performance)
                   >= score(activeValidators[j].stake, activeValidators[j].performance)
      ensures forall v, u ::
                v in activeValidators && u in validators.Values && u !in activeValidators && u.status == Active ==>
                  score(v.stake, v.performance) >= score(u.stake, u.performance)
      ensures (forall u :: u in validators.Values && u.status == Active ==> u in activeValidators)
              || |activeValidators| == maxSetSize
      ensures |activeValidators| <= maxSetSize
    {
      var rank := Ranks(Candidates(), score);
      assert rank.Keys == Candidates();
      if |activeValidators| != maxSetSize {
        DistinctSize(activeValidators, MembersOf(activeValidators));
        assert MembersOf(activeValidators) <= Candidates();
        if u :| u in Candidates() && u !in activeValidators {
          SubsetSize(MembersOf(activeValidators) + {u}, Candidates());
        }
      }
    }

    twostate lemma RanksStay()
      requires validators == old(validators) && forall id :: id in validators ==> unchanged(validators[id])
      ensures Ranks(Candidates(), score) == old(Ranks(Candidates(), score))
    {
      assert Candidates() == old(Candidates());
    }

    /** The candidates sorted, and their total stake. */
    method SortedCandidates(ghost maxSetSize: nat) returns (sorted: seq<ValidatorInfo>, total: nat)
      requires Keyed()
      ensures total == StakeOf(sorted)
      ensures BestOf(sorted[..Min(|sorted|, maxSetSize)], maxSetSize, Ranks(Candidates(), score))
    {
      hide StakeOf, Descending;
      var list;
      list, total := CollectActive();
      sorted := SortedByScore(list, score);
      PrefixIsBest(sorted, maxSetSize, Ranks(Candidates(), score));
    }

    /** The truncation: only a cut list is summed up again. */
    method SetPrefix(sorted: seq<ValidatorInfo>, total: nat, maxSetSize: nat)
      requires total == StakeOf(sorted)
      modifies this`activeValidators, this`activeTotalStake
      ensures activeValidators == sorted[..Min(|sorted|, maxSetSize)]
      ensures activeTotalStake == StakeOf(activeValidators)
    {
      hide StakeOf;
      activeValidators, activeTotalStake := sorted, total;
      assert sorted[..|sorted|] == sorted;
      if |sorted| > maxSetSize {
        ghost var sums := PrefixSums(sorted, maxSetSize);
        activeValidators := sorted[..maxSetSize];
        activeTotalStake := 0;
        for i := 0 to maxSetSize
          invariant activeValidators == sorted[..maxSetSize]
          invariant activeTotalStake == sums[i]
        {
          assert sums[i + 1] == sums[i] + sorted[i].stake;
          activeTotalStake := activeTotalStake + activeValidators[i].stake;
        }
      }
      assert StakeOf(activeValidators) == old(StakeOf(sorted[..Min(|sorted|, maxSetSize)]));
    }
  }

  lemma StakeAppend(s: seq<ValidatorInfo>, v: ValidatorInfo)
    ensures StakeOf(s + [v]) == StakeOf(s) + v.stake
  {
    assert (s + [v])[..|s|] == s;
  }

  lemma {:induction false} PrefixSums(s: seq<ValidatorInfo>, n: nat) returns (sums: seq<nat>)
    requires n <= |s|
    ensures |sums| == n + 1 && sums[0] == 0 && sums[n] == StakeOf(s[..n])
    ensures forall i :: 0 <= i < n ==> sums[i + 1] == sums[i] + s[i].stake
  {
    if n == 0 {
      sums := [0];
    } else {
      sums := PrefixSums(s, n - 1);
      assert s[..n] == s[..n - 1] + [s[n - 1]];
      StakeAppend(s[..n - 1], s[n - 1]);
      sums := sums + [StakeOf(s[..n])];
    }
  }

  lemma PermutationKeeps(s: seq<ValidatorInfo>, t: seq<ValidatorInfo>)
    requires multiset(s) == multiset(t)
    requires Distinct(s)
    ensures |s| == |t| && StakeOf(s) == StakeOf(t) && Distinct(t)
    ensures forall v :: v in s <==> v in t
  {
    PermutationDistinct(s, t);
    PermutationStake(s, t);
    forall v ensures v in s <==> v in t {
      assert v in s <==> v in multiset(s);
      assert v in t <==> v in multiset(t);
    }
  }

  lemma {:induction false} StakeOfAt(s: seq<ValidatorInfo>, k: nat)
    requires k < |s|
    ensures StakeOf(s) == StakeOf(s[..k] + s[k + 1..]) + s[k].stake
  {
    var n := |s| - 1;
    if k == n {
      assert s[..k] + s[k + 1..] == s[..n];
    } else {
      StakeOfAt(s[..n], k);
      var rest := s[..k] + s[k + 1..];
      assert rest[..|rest| - 1] == s[..n][..k] + s[..n][k + 1..];
    }
  }

  lemma Without<T>(s: seq<T>, k: nat)
    requires k < |s|
    ensures multiset(s[..k] + s[k + 1..]) == multiset(s) - multiset{s[k]}
  {
    assert s == s[..k] + [s[k]] + s[k + 1..];
  }

  /** A permutation has the same total stake. */
  lemma {:induction false} PermutationStake(s: seq<ValidatorInfo>, t: seq<ValidatorInfo>)
    requires multiset(s) == multiset(t)
    ensures StakeOf(s) == StakeOf(t)
    decreases |s|
  {
    assert |multiset(s)| == |s| && |multiset(t)| == |t|;
    if s != [] {
      hide StakeOf;
      var n := |s| - 1;
      assert s[n] in multiset(s);
      var k :| 0 <= k < |t| && t[k] == s[n];
      Without(s, n);
      Without(t, k);
      assert s[..n] + s[n + 1..] == s[..n];
      StakeOfAt(s, n);
      StakeOfAt(t, k);
      PermutationStake(s[..n], t[..k] + t[k + 1..]);
    }
  }
}
