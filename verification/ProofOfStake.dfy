/** Delegated proof of stake: shared validator objects, cached sums, slashing, rewards and the
    choice of the active set (consensus/diamantepos/diamantepos.go). */
module ProofOfStake {
  import opened Lists
  import opened Sums
  import opened StakeMath

  type Id = nat

  const MIN_PERFORMANCE := 0.1

  class Validator {
    const id: Id
    var stake: nat
    var performance: real
    var lastUpdateTime: int
    var blocksProduced: nat
    var misbehaviorCount: nat
    var isActive: bool

    constructor (id: Id, stake: nat, performance: real, lastUpdateTime: int, blocksProduced: nat, misbehaviorCount: nat)
      ensures this.id == id && this.stake == stake && this.performance == performance
      ensures this.lastUpdateTime == lastUpdateTime && this.blocksProduced == blocksProduced
      ensures this.misbehaviorCount == misbehaviorCount && !isActive
    {
      this.id, this.stake, this.performance := id, stake, performance;
      this.lastUpdateTime, this.blocksProduced := lastUpdateTime, blocksProduced;
      this.misbehaviorCount := misbehaviorCount;
      isActive := false;
    }
  }

  datatype SlashEvent = SlashEvent(validator: Id, amount: nat, timestamp: int)

  function Slashed(log: seq<SlashEvent>): nat {
    if log == [] then 0 else Slashed(log[..|log| - 1]) + log[|log| - 1].amount
  }

  lemma SlashedAppends(log: seq<SlashEvent>, event: SlashEvent)
    ensures Slashed(log + [event]) == Slashed(log) + event.amount
  {
    assert (log + [event])[..|log|] == log;
  }

  /** Stands for the library sort; its users rely on the contract alone, so what they are
      proved to do holds for any sort that meets it. */
  method SortSlice(vs: seq<Validator>, score: map<Validator, real>) returns (sorted: seq<Validator>)
    requires forall v :: v in vs ==> v in score
    ensures Descending(sorted, score) && multiset(sorted) == multiset(vs)
  {
    hide Inserted;
    sorted := [];
    for i := 0 to |vs|
      invariant Descending(sorted, score) && multiset(sorted) == multiset(vs[..i])
    {
      var k := 0;
      while k < |sorted| && score[sorted[k]] >= score[vs[i]]
        invariant 0 <= k <= |sorted|
        invariant forall j :: 0 <= j < k ==> score[sorted[j]] >= score[vs[i]]
      {
        k := k + 1;
      }
      assert vs[..i + 1] == vs[..i] + [vs[i]];
      InsertKeeps(sorted, k, vs[i], score);
      InsertedMultiset(sorted, k, vs[i]);
      sorted := Inserted(sorted, k, vs[i]);
    }
    assert vs[..|vs|] == vs;
  }

  // ------------------------------------------------------------------ sums over lists

  ghost function IdsOf(vs: seq<Validator>): set<Id> {
    IdSet(IdSeq(vs))
  }

  ghost predicate DistinctIds(vs: seq<Validator>) {
    Distinct(IdSeq(vs))
  }

  function IdSeq(vs: seq<Validator>): (ids: seq<Id>)
    ensures |ids| == |vs| && forall i :: 0 <= i < |vs| ==> ids[i] == vs[i].id
  {
    seq(|vs|, i requires 0 <= i < |vs| => vs[i].id)
  }

  lemma IdsAre(vs: seq<Validator>, id: Id)
    ensures id in IdsOf(vs) <==> exists v :: v in vs && v.id == id
  {
    if id in IdsOf(vs) {
      var i :| 0 <= i < |vs| && IdSeq(vs)[i] == id;
      assert vs[i] in vs;
    }
    if v :| v in vs && v.id == id {
      var i :| 0 <= i < |vs| && vs[i] == v;
      assert IdSeq(vs)[i] == id;
    }
  }

  function Weights(ids: seq<Id>, weight: map<Id, nat>): (s: seq<nat>)
    requires forall id :: id in ids ==> id in weight
    ensures |s| == |ids| && forall i :: 0 <= i < |ids| ==> s[i] == weight[ids[i]]
  {
    seq(|ids|, i requires 0 <= i < |ids| => weight[ids[i]])
  }

  ghost function IdSet(ids: seq<Id>): set<Id> {
    set id | id in ids
  }

  /** Adding up a list of distinct IDs is adding up their set. */
  lemma {:induction false} ListTotal(ids: seq<Id>, weight: map<Id, nat>)
    requires Distinct(ids) && IdSet(ids) <= weight.Keys
    ensures Sum(Weights(ids, weight)) == Total(IdSet(ids), weight)
    decreases |ids|
  {
    if ids != [] {
      SplitIds(ids);
      ListTotal(ids[1..], weight);
      assert Weights(ids, weight)[1..] == Weights(ids[1..], weight);
      TotalPick(IdSet(ids), weight, ids[0]);
    }
  }

  lemma SplitIds(ids: seq<Id>)
    requires Distinct(ids) && ids != []
    ensures Distinct(ids[1..]) && ids[0] in IdSet(ids) && IdSet(ids) - {ids[0]} == IdSet(ids[1..])
  {
    assert ids == [ids[0]] + ids[1..];
  }

  /** The stakes after the listed validators received their rewards. */
  ghost function PaidOut(stakes: map<Id, nat>, ids: seq<Id>, rewards: seq<nat>): map<Id, nat>
    requires |ids| == |rewards| && forall id :: id in ids ==> id in stakes
  {
    if ids == [] then stakes
    else
      var k := |ids| - 1;
      PaidOut(stakes, ids[..k], rewards[..k])[ids[k] := stakes[ids[k]] + rewards[k]]
  }

  lemma PaidOutNothing(stakes: map<Id, nat>)
    ensures PaidOut(stakes, [], []) == stakes
  {
  }

  /** Rewards of others leave a validator's stake alone until its own turn. */
  lemma {:induction false} PaidOutKeeps(stakes: map<Id, nat>, ids: seq<Id>, rewards: seq<nat>, id: Id)
    requires |ids| == |rewards| && forall id :: id in ids ==> id in stakes
    requires id in stakes
    ensures id in PaidOut(stakes, ids, rewards) && PaidOut(stakes, ids, rewards).Keys == stakes.Keys
    ensures id !in ids ==> PaidOut(stakes, ids, rewards)[id] == stakes[id]
  {
    if ids != [] {
      var k := |ids| - 1;
      PaidOutKeeps(stakes, ids[..k], rewards[..k], id);
    }
  }

  lemma PaidOutStep(stakes: map<Id, nat>, ids: seq<Id>, rewards: seq<nat>, i: nat)
    requires |ids| == |rewards| && i < |ids| && Distinct(ids) && forall id :: id in ids ==> id in stakes
    ensures ids[i] in PaidOut(stakes, ids[..i], rewards[..i])
    ensures PaidOut(stakes, ids[..i], rewards[..i])[ids[i]] == stakes[ids[i]]
    ensures PaidOut(stakes, ids[..i + 1], rewards[..i + 1]) ==
            PaidOut(stakes, ids[..i], rewards[..i])[ids[i] := stakes[ids[i]] + rewards[i]]
  {
    assert ids[..i + 1][..i] == ids[..i] && rewards[..i + 1][..i] == rewards[..i];
    PaidOutKeeps(stakes, ids[..i], rewards[..i], ids[i]);
  }

  /** Everybody gets exactly what the list order gives: the listed their reward, others nothing. */
  lemma {:induction false} PaidOutMeans(stakes: map<Id, nat>, ids: seq<Id>, rewards: seq<nat>, i: nat)
    requires |ids| == |rewards| && i < |ids| && Distinct(ids) && forall id :: id in ids ==> id in stakes
    ensures ids[i] in PaidOut(stakes, ids, rewards)
    ensures PaidOut(stakes, ids, rewards)[ids[i]] == stakes[ids[i]] + rewards[i]
  {
    var k := |ids| - 1;
    if i < k {
      PaidOutMeans(stakes, ids[..k], rewards[..k], i);
    }
  }

  // ------------------------------------------------------------------ the engine

  class DPoS {
    /** The rounded product of stake and performance; nothing here depends on the rounding. */
    const score: (nat, real) -> real

    var validators: map<Id, Validator>
    var activeValidators: seq<Validator>
    var totalStake: int
    var activeTotalStake: int
    var lastBlockHeight: nat
    var epochDuration: nat
    var currentEpoch: nat
    var maxSetSize: nat
    var slashLog: seq<SlashEvent>

    /** Where stake came from: registration (or a restore), edits, rewards. */
    ghost var registered: int
    ghost var edits: int
    ghost var rewarded: nat

    ghost function All(): set<Validator>
      reads this`validators
    {
      validators.Values
    }

    ghost function Stakes(): map<Id, nat>
      reads this`validators, All()`stake
    {
      map id | id in validators :: validators[id].stake
    }

    ghost function Misbehavior(): map<Id, nat>
      reads this`validators, All()`misbehaviorCount
    {
      map id | id in validators :: validators[id].misbehaviorCount
    }

    /** The score of every validator. */
    function Scores(): map<Validator, real>
      reads this`validators, validators.Values`stake, validators.Values`performance
    {
      map v | v in validators.Values :: score(v.stake, v.performance)
    }

    ghost predicate Keyed()
      reads this`validators
    {
      forall id :: id in validators ==> validators[id].id == id
    }

    /** The books balance: the total is the sum over all validators, and it is what came in
        less what was slashed. */
    ghost predicate Balanced()
      reads this`validators, this`totalStake, this`slashLog, this`registered, this`edits, this`rewarded, All()`stake
    {
      && Keyed()
      && totalStake == Whole(Stakes())
      && totalStake + Slashed(slashLog) == registered + edits + rewarded
    }

    /** The active list: distinct known validators, exactly those flagged, and their sum. */
    ghost predicate Listed()
      reads this`validators, this`activeValidators, this`activeTotalStake, All()`stake, All()`isActive
    {
      && DistinctIds(activeValidators)
      && (forall v :: v in activeValidators ==> v.id in validators && validators[v.id] == v)
      && (forall id :: id in validators ==> (validators[id].isActive <==> validators[id] in activeValidators))
      && activeTotalStake == Total(IdsOf(activeValidators), Stakes())
    }

    ghost predicate Valid()
      reads this`validators, this`activeValidators, this`totalStake, this`activeTotalStake, this`slashLog,
            this`registered, this`edits, this`rewarded, All()`stake, All()`isActive
    {
      Balanced() && Listed()
    }

    constructor (maxSetSize: nat, epochDuration: nat, score: (nat, real) -> real)
      ensures this.score == score
      ensures Valid() && validators == map[] && slashLog == []
      ensures this.maxSetSize == maxSetSize && this.epochDuration == epochDuration && currentEpoch == 0
    {
      validators, activeValidators, slashLog := map[], [], [];
      totalStake, activeTotalStake, lastBlockHeight, currentEpoch := 0, 0, 0, 0;
      this.maxSetSize, this.epochDuration, this.score := maxSetSize, epochDuration, score;
      registered, edits, rewarded := 0, 0, 0;
    }

    method AddValidator(id: Id, stake: nat, now: int)
      requires Valid()
      modifies this`validators, this`activeValidators, this`totalStake, this`activeTotalStake, this`registered,
               All()`isActive
      ensures Valid() && BestOf(activeValidators, maxSetSize, Scores())
      ensures Stakes() == if id in old(validators) then old(Stakes()) else old(Stakes())[id := stake]
      ensures registered == old(registered) + (if id in old(validators) then 0 else stake)
      ensures Performances() == if id in old(validators) then old(Performances()) else old(Performances())[id := 1.0]
      ensures validators.Keys == old(validators.Keys) + {id}
      ensures forall other :: other in old(validators) ==> validators[other] == old(validators[other])
      ensures id !in old(validators) ==>
                validators[id].stake == stake && validators[id].performance == 1.0
                && validators[id].lastUpdateTime == now
                && validators[id].blocksProduced == 0 && validators[id].misbehaviorCount == 0
    {
      hide Balanced, Listed, BestOf, Scores, Stakes, Performances, TopScored;
      BalancedIsKeyed();
      if id !in validators {
        Register(id, stake, now);
      }
      UpdateActiveValidators();
    }

    method Register(id: Id, stake: nat, now: int)
      requires Balanced() && id !in validators
      modifies this`validators, this`totalStake, this`registered
      ensures Balanced() && fresh(validators.Values - old(validators.Values))
      ensures Stakes() == old(Stakes())[id := stake] && Performances() == old(Performances())[id := 1.0]
      ensures registered == old(registered) + stake
      ensures validators.Keys == old(validators.Keys) + {id}
      ensures forall other :: other in old(validators) ==> validators[other] == old(validators[other])
      ensures validators[id].stake == stake && validators[id].performance == 1.0
              && validators[id].lastUpdateTime == now
              && validators[id].blocksProduced == 0 && validators[id].misbehaviorCount == 0
    {
      hide Total, Whole, Slashed;
      ghost var before, performances := Stakes(), Performances();
      WholeUpdate(before, id, stake);
      totalStake := totalStake + stake;
      registered := registered + stake;
      var v := new Validator(id, stake, 1.0, now, 0, 0);
      validators := validators[id := v];
      assert Stakes() == before[id := stake] && Performances() == performances[id := 1.0];
    }

    method UpdateStake(id: Id, newStake: nat)
      requires Valid()
      modifies this`activeValidators, this`totalStake, this`activeTotalStake, this`edits, All()`stake, All()`isActive
      ensures Valid()
      ensures id in validators ==> BestOf(activeValidators, maxSetSize, Scores())
      ensures Stakes() == if id in validators then old(Stakes())[id := newStake] else old(Stakes())
      ensures edits == old(edits) + (if id in validators then newStake - old(validators[id].stake) else 0)
    {
      hide Total, Whole, Slashed, Listed, BestOf, Scores, TopScored;
      if id in validators {
        var v := validators[id];
        ghost var before := Stakes();
        WholeUpdate(before, id, newStake);
        totalStake := totalStake - v.stake;
        totalStake := totalStake + newStake;
        edits := edits + newStake - v.stake;
        SetStake(v, newStake);
        UpdateActiveValidators();
      }
    }

    /** All validators, each once, in an arbitrary order. */
    method AllValidators() returns (list: seq<Validator>)
      requires Keyed()
      ensures (set v | v in list) == validators.Values && Distinct(list)
    {
      list := [];
      var rest := validators.Keys;
      while rest != {}
        invariant rest <= validators.Keys && Distinct(list)
        invariant forall v :: v in list <==> v in validators.Values && v.id !in rest
      {
        var id :| id in rest;
        list := list + [validators[id]];
        rest := rest - {id};
      }
    }

    /** The list holds as many as there are or the set size allows, best score first, and nothing
        left out scores above anything in it. */
    ghost predicate TopScored()
      reads this`validators, this`activeValidators, this`maxSetSize, All()`stake, All()`performance
      reads Members()`stake, Members()`performance
    {
      && |activeValidators| == (if |validators| < maxSetSize then |validators| else maxSetSize)
      && (forall i, j :: 0 <= i < j < |activeValidators| ==>
            score(activeValidators[i].stake, activeValidators[i].performance)
            >= score(activeValidators[j].stake, activeValidators[j].performance))
      && (forall v, u :: v in activeValidators && u in validators.Values && u !in activeValidators ==>
            score(v.stake, v.performance) >= score(u.stake, u.performance))
    }

    /** Rebuilds the active list from the best scores and sets the flags and the sum. */
    method UpdateActiveValidators()
      requires Balanced()
      modifies this`activeValidators, this`activeTotalStake, All()`isActive
      ensures Valid() && BestOf(activeValidators, maxSetSize, Scores())
      ensures TopScored()
    {
      hide BestOf, Scores, Total, Whole, Slashed;
      var list := TopValidators();
      BestAreKnown(list);
      Activate(list);
      ActiveAreBest();
    }

    lemma BestAreKnown(list: seq<Validator>)
      requires BestOf(list, maxSetSize, Scores())
      ensures Distinct(list) && forall v :: v in list ==> v in validators.Values
    {
    }

    lemma ActiveAreBest()
      requires Keyed() && BestOf(activeValidators, maxSetSize, Scores())
      ensures TopScored()
    {
      assert Scores().Keys == validators.Values;
      ValuesSize(validators);
    }

    /** The best-scoring validators, at most `maxSetSize` of them. */
    method TopValidators() returns (top: seq<Validator>)
      requires Keyed()
      ensures BestOf(top, maxSetSize, Scores())
    {
      var list := AllValidators();
      var scores := Scores();
      var sorted := SortSlice(list, scores);
      SortedIsAll(list, sorted, scores, maxSetSize);
      top := sorted[..Min(|sorted|, maxSetSize)];
    }

    /** Makes `list` the active list: all flags off, then on for its members. */
    method Activate(list: seq<Validator>)
      requires Keyed() && Distinct(list) && forall v :: v in list ==> v in validators.Values
      modifies this`activeValidators, this`activeTotalStake, All()`isActive
      ensures Listed() && activeValidators == list
    {
      hide Distinct, IdSet, Total;
      activeValidators := list;
      activeTotalStake := 0;
      ResetFlags();
      KnownIds(list, validators);
      ghost var ids, stakes := IdSeq(list), Stakes();
      NoneYet(ids, stakes);
      for i := 0 to |list|
        invariant activeValidators == list
        invariant forall id :: id in validators ==> (validators[id].isActive <==> validators[id] in list[..i])
        invariant IdSet(ids[..i]) <= stakes.Keys && activeTotalStake == Total(IdSet(ids[..i]), stakes)
      {
        var v := list[i];
        OneMore(ids, i, stakes);
        v.isActive := true;
        activeTotalStake := activeTotalStake + v.stake;
      }
      assert list[..|list|] == list && ids[..|ids|] == ids;
    }

    method ResetFlags()
      modifies All()`isActive
      ensures forall id :: id in validators ==> !validators[id].isActive
    {
      var rest := validators.Keys;
      while rest != {}
        invariant rest <= validators.Keys
        invariant forall id :: id in validators && id !in rest ==> !validators[id].isActive
      {
        var id :| id in rest;
        validators[id].isActive := false;
        rest := rest - {id};
      }
    }

    // ---------------------------------------------------------------- rewards

    method SetStake(v: Validator, stake: nat)
      requires Keyed() && v.id in validators && validators[v.id] == v
      modifies v`stake
      ensures v.stake == stake && Stakes() == old(Stakes())[v.id := stake]
    {
      v.stake := stake;
    }

    /** Sets one stake and moves the totals along; the caller says where the change goes. */
    method Restake(v: Validator, newStake: nat)
      requires Keyed() && v.id in validators && validators[v.id] == v
      requires totalStake == Whole(Stakes()) && Listed()
      modifies v`stake, this`totalStake, this`activeTotalStake
      ensures Listed() && totalStake == Whole(Stakes())
      ensures v.stake == newStake && Stakes() == old(Stakes())[v.id := newStake]
      ensures totalStake == old(totalStake) + newStake - old(v.stake)
      ensures activeTotalStake == old(activeTotalStake) + (if v.isActive then newStake - old(v.stake) else 0)
    {
      ghost var before, ids := Stakes(), IdsOf(activeValidators);
      hide Total, Whole;
      WholeUpdate(before, v.id, newStake);
      if v.isActive {
        TotalUpdate(ids, before, v.id, newStake);
        activeTotalStake := activeTotalStake + newStake - v.stake;
      } else {
        TotalAgree(ids, before, before[v.id := newStake]);
      }
      totalStake := totalStake + newStake - v.stake;
      SetStake(v, newStake);
    }

    /** One turn of the reward loop. */
    method RewardOne(v: Validator, reward: nat)
      requires Valid() && v in activeValidators
      modifies v`stake, this`totalStake, this`activeTotalStake, this`rewarded
      ensures Valid()
      ensures Stakes() == old(Stakes())[v.id := old(v.stake) + reward]
      ensures activeTotalStake == old(activeTotalStake) + reward
      ensures rewarded == old(rewarded) + reward
    {
      rewarded := rewarded + reward;
      assert Stakes() == old(Stakes());
      Restake(v, v.stake + reward);
    }

    ghost function Members(): set<Validator>
      reads this`activeValidators
    {
      set v | v in activeValidators
    }

    /** Walks the active list in order; each reward enlarges the divisor of the next.  Together
        the rewards never exceed the epoch's total. */
    method DistributeRewards()
      requires Valid()
      modifies Members()`stake, this`totalStake, this`activeTotalStake, this`rewarded
      ensures Valid()
      ensures rewarded <= old(rewarded) + TotalReward(currentEpoch)
      ensures var ids := IdSeq(activeValidators);
              Stakes() == if old(activeTotalStake) == 0 then old(Stakes())
                          else PaidOut(old(Stakes()), ids,
                            Rewards(TotalReward(currentEpoch), Weights(ids, old(Stakes())), old(activeTotalStake)))
    {
      hide Rewards, RewardOf, TotalReward, PaidOut, Weights, Total, Whole, Slashed;
      var totalReward := TotalReward(currentEpoch);
      if activeTotalStake == 0 {
        return;
      }
      ghost var before, start, ids := Stakes(), activeTotalStake, IdSeq(activeValidators);
      ghost var stakes := Weights(ids, before);
      ghost var rewards := Rewards(totalReward, stakes, start);
      assert Distinct(ids) && forall v :: v in activeValidators ==> v.id in validators && validators[v.id] == v;
      ListTotal(ids, before);
      assert Sum(stakes) == start;
      hide Balanced, Listed, Valid, IdsOf, DistinctIds, Stakes;
      RewardsWithinBudget(totalReward, stakes, start);
      PaidOutNothing(before);
      assert ids[..0] == [] && rewards[..0] == [] && stakes[0..] == stakes && rewards[0..] == rewards;
      for i := 0 to |activeValidators|
        invariant Valid() && activeTotalStake >= start
        invariant Rewards(totalReward, stakes[i..], activeTotalStake) == rewards[i..]
        invariant rewarded + Sum(rewards[i..]) == old(rewarded) + Sum(rewards)
        invariant Stakes() == PaidOut(before, ids[..i], rewards[..i])
      {
        PayOne(i, totalReward, before, ids, stakes, rewards);
      }
      assert ids[..|ids|] == ids && rewards[..|rewards|] == rewards;
    }

    /** The body of the reward loop, for the validator at position `i`. */
    method PayOne(i: nat, totalReward: nat, ghost before: map<Id, nat>, ghost ids: seq<Id>,
                  ghost stakes: seq<nat>, ghost rewards: seq<nat>)
      requires Valid() && i < |activeValidators| && activeTotalStake > 0
      requires ids == IdSeq(activeValidators) && |rewards| == |ids| && (forall id :: id in ids ==> id in before)
      requires stakes == Weights(ids, before)
      requires Rewards(totalReward, stakes[i..], activeTotalStake) == rewards[i..]
      requires Stakes() == PaidOut(before, ids[..i], rewards[..i])
      modifies Members()`stake, this`totalStake, this`activeTotalStake, this`rewarded
      ensures Valid() && activeTotalStake >= old(activeTotalStake)
      ensures Rewards(totalReward, stakes[i + 1..], activeTotalStake) == rewards[i + 1..]
      ensures rewarded + Sum(rewards[i + 1..]) == old(rewarded) + Sum(rewards[i..])
      ensures Stakes() == PaidOut(before, ids[..i + 1], rewards[..i + 1])
    {
      hide Rewards, RewardOf, PaidOut, Weights, Sum, Total, Whole, Slashed;
      var v := activeValidators[i];
      assert v in activeValidators && Distinct(ids) && v.id in validators && validators[v.id] == v;
      PaidOutStep(before, ids, rewards, i);
      assert v.stake == Stakes()[ids[i]];
      hide Valid, Balanced, Listed, Stakes;
      RewardsStep(totalReward, stakes, i, activeTotalStake, rewards);
      var reward := RewardOf(totalReward, v.stake, activeTotalStake);
      RewardOne(v, reward);
    }

    // ---------------------------------------------------------------- slashing

    /** Takes a penalty off a stake and logs it. */
    method Charge(v: Validator, penalty: nat, now: int)
      requires Valid() && v.id in validators && validators[v.id] == v && penalty <= v.stake
      modifies v`stake, this`totalStake, this`activeTotalStake, this`slashLog
      ensures Valid()
      ensures Stakes() == old(Stakes())[v.id := old(v.stake) - penalty] && Misbehavior() == old(Misbehavior())
      ensures slashLog == old(slashLog) + [SlashEvent(v.id, penalty, now)]
    {
      hide Total, Whole, Slashed, Listed, Stakes;
      SlashedAppends(slashLog, SlashEvent(v.id, penalty, now));
      Restake(v, v.stake - penalty);
      slashLog := slashLog + [SlashEvent(v.id, penalty, now)];
    }

    lemma ValidIsKeyed()
      requires Valid()
      ensures Keyed()
    {
    }

    /** One turn of the slashing loop. */
    method SlashOne(v: Validator, now: int) returns (penalty: nat)
      requires Valid() && v.id in validators && validators[v.id] == v && v.misbehaviorCount > 0
      modifies v`stake, v`misbehaviorCount, this`totalStake, this`activeTotalStake, this`slashLog
      ensures Valid()
      ensures penalty == CappedPenalty(old(v.stake), old(v.misbehaviorCount))
      ensures Stakes() == old(Stakes())[v.id := old(v.stake) - penalty]
      ensures Misbehavior() == old(Misbehavior())[v.id := 0]
      ensures slashLog == old(slashLog) + [SlashEvent(v.id, penalty, now)]
    {
      hide Valid, Balanced, Listed, Penalty, Stakes, Misbehavior;
      ValidIsKeyed();
      penalty := Penalty(v.stake, v.misbehaviorCount);
      if penalty > v.stake {
        penalty := v.stake;
      }
      SetMisbehavior(v, 0);
      Charge(v, penalty, now);
    }

    method SetMisbehavior(v: Validator, count: nat)
      requires Keyed() && v.id in validators && validators[v.id] == v
      modifies v`misbehaviorCount
      ensures Misbehavior() == old(Misbehavior())[v.id := count]
      ensures Stakes() == old(Stakes()) && (old(Valid()) ==> Valid())
    {
      v.misbehaviorCount := count;
    }

    /** Every validator has lost the capped hundredth of its stake for each count, and its count. */
    twostate predicate EachPaid()
      requires validators == old(validators)
      reads this`validators, All()`stake, All()`misbehaviorCount
    {
      forall id :: id in validators ==>
              var stake, due := old(validators[id].stake),
                old(validators[id].stake) / 100 * old(validators[id].misbehaviorCount) % 0x1_0000_0000_0000_0000;
              validators[id].stake == (if due > stake then 0 else stake - due) && validators[id].misbehaviorCount == 0
    }

    /** Each new entry of the log names one of them, with the amount and the time. */
    twostate predicate EachLogged(new now: int)
      requires validators == old(validators)
      reads this`validators, this`slashLog
    {
      forall i :: |old(slashLog)| <= i < |slashLog| ==>
              var e := slashLog[i];
              e.timestamp == now && e.validator in validators && old(validators[e.validator].misbehaviorCount) > 0
              && var due := old(validators[e.validator].stake) / 100 * old(validators[e.validator].misbehaviorCount)
                            % 0x1_0000_0000_0000_0000;
                 e.amount == if due > old(validators[e.validator].stake) then old(validators[e.validator].stake)
                             else due
    }

    /** Every validator with misbehavior is slashed once and logged, whatever the order. */
    method HandleSlashing(now: int) returns (slashedAny: bool)
      requires Valid()
      modifies All()`stake, All()`misbehaviorCount, this`totalStake, this`activeTotalStake, this`slashLog
      ensures Valid()
      ensures Misbehavior() == Cleared(old(Misbehavior()), {})
      ensures Stakes() == AfterSlashing(old(Stakes()), old(Misbehavior()), {})
      ensures slashedAny <==> Stakes() != old(Stakes())
      ensures LogTells(slashLog, old(slashLog), old(Stakes()), old(Misbehavior()), {}, now)
      ensures EachPaid()
      ensures EachLogged(now)
    {
      assert Keyed();
      hide Valid, Balanced, Listed, Penalty, CappedPenalty, AfterSlashing, Cleared, LogTells, EntryFor;
      slashedAny := false;
      var rest := validators.Keys;
      ghost var stakes, misbehavior := Stakes(), Misbehavior();
      AfterSlashingNobody(stakes, misbehavior);
      LogTellsNothing(slashLog, stakes, misbehavior, now);
      assert stakes.Keys == rest == misbehavior.Keys;
      hide Stakes, Misbehavior;
      while rest != {}
        invariant rest <= validators.Keys && Valid()
        invariant Stakes() == AfterSlashing(stakes, misbehavior, rest) && Misbehavior() == Cleared(misbehavior, rest)
        invariant slashedAny <==> AfterSlashing(stakes, misbehavior, rest) != stakes
        invariant LogTells(slashLog, old(slashLog), stakes, misbehavior, rest, now)
      {
        var id :| id in rest;
        LogTellsMore(slashLog, old(slashLog), stakes, misbehavior, rest, id, now);
        var penalty := SettleOne(stakes, misbehavior, rest, id, now);
        if penalty > 0 {
          slashedAny := true;
        }
        rest := rest - {id};
      }
      SlashingMeans();
      LogMeans(now);
    }

    /** What slashing does to each validator. */
    twostate lemma SlashingMeans()
      requires validators == old(validators)
      requires Stakes() == AfterSlashing(old(Stakes()), old(Misbehavior()), {})
      requires Misbehavior() == Cleared(old(Misbehavior()), {})
      ensures EachPaid()
    {
      Penalized(old(Stakes()), old(Misbehavior()));
      forall id | id in validators
        ensures var stake, due := old(validators[id].stake),
                  old(validators[id].stake) / 100 * old(validators[id].misbehaviorCount) % 0x1_0000_0000_0000_0000;
                validators[id].stake == (if due > stake then 0 else stake - due) && validators[id].misbehaviorCount == 0
      {
        assert old(Stakes())[id] == old(validators[id].stake) && Stakes()[id] == validators[id].stake;
        assert old(Misbehavior())[id] == old(validators[id].misbehaviorCount);
        assert Misbehavior()[id] == validators[id].misbehaviorCount;
      }
    }

    /** ... and to the log. */
    twostate lemma LogMeans(new now: int)
      requires validators == old(validators)
      requires LogTells(slashLog, old(slashLog), old(Stakes()), old(Misbehavior()), {}, now)
      ensures EachLogged(now)
    {
      EntriesMean(slashLog, old(slashLog), old(Stakes()), old(Misbehavior()), now);
    }

    /** The body of the loop, for one validator. */
    method SettleOne(ghost stakes: map<Id, nat>, ghost misbehavior: map<Id, nat>, ghost rest: set<Id>, id: Id, now: int)
      returns (penalty: nat)
      requires Valid() && id in rest && id in validators && id in stakes && stakes.Keys == misbehavior.Keys
      requires Stakes() == AfterSlashing(stakes, misbehavior, rest) && Misbehavior() == Cleared(misbehavior, rest)
      modifies All()`stake, All()`misbehaviorCount, this`totalStake, this`activeTotalStake, this`slashLog
      ensures Valid()
      ensures slashLog == old(slashLog) + EntryFor(id, stakes, misbehavior, now)
      ensures Stakes() == AfterSlashing(stakes, misbehavior, rest - {id})
      ensures Misbehavior() == Cleared(misbehavior, rest - {id})
      ensures AfterSlashing(stakes, misbehavior, rest - {id}) != stakes <==>
              AfterSlashing(stakes, misbehavior, rest) != stakes || penalty > 0
    {
      hide Penalty, CappedPenalty, Valid, Balanced, Listed, AfterSlashing, Cleared, Stakes, Misbehavior;
      var v := validators[id];
      Recorded(id);
      AfterSlashingStep(stakes, misbehavior, rest, id);
      penalty := 0;
      if v.misbehaviorCount > 0 {
        penalty := SlashOne(v, now);
      }
    }

    lemma Recorded(id: Id)
      requires Valid() && id in validators
      ensures Keyed() && id in Stakes() && id in Misbehavior()
      ensures Stakes()[id] == validators[id].stake && Misbehavior()[id] == validators[id].misbehaviorCount
    {
    }

    // ---------------------------------------------------------------- the epoch

    ghost function Performances(): map<Id, real>
      reads this`validators, All()`performance
    {
      map id | id in validators :: validators[id].performance
    }

    ghost function Updated(): map<Id, int>
      reads this`validators, All()`lastUpdateTime
    {
      map id | id in validators :: validators[id].lastUpdateTime
    }

    /** The scores that given stakes and performances make. */
    ghost function ScoresFrom(stakes: map<Id, nat>, performance: map<Id, real>): map<Validator, real>
      requires Keyed() && stakes.Keys == performance.Keys == validators.Keys
      reads this`validators
    {
      map v | v in validators.Values && v.id in stakes :: score(stakes[v.id], performance[v.id])
    }

    /** Ages every performance by the hours since its last update; `pow(h)` stands for the decay
        factor of `h` hours. */
    method UpdatePerformance(now: int, pow: real -> real)
      requires Keyed()
      modifies All()`performance, All()`lastUpdateTime
      ensures Performances() == Decayed(old(Performances()), old(Updated()), now, pow)
      ensures forall id :: id in validators ==>
                validators[id].lastUpdateTime == Later(old(validators[id].lastUpdateTime), now)
    {
      hide DecayedPerformance;
      var rest := validators.Keys;
      ghost var before, updated := Performances(), Updated();
      while rest != {}
        invariant rest <= validators.Keys
        invariant forall id :: id in validators ==>
          validators[id].performance == if id in rest then before[id]
                                        else DecayedPerformance(before[id], updated[id], now, pow)
        invariant forall id :: id in validators ==>
          validators[id].lastUpdateTime == if id in rest then updated[id] else Later(updated[id], now)
      {
        var id :| id in rest;
        rest := rest - {id};
        Age(validators[id], now, pow);
      }
    }

    method Age(v: Validator, now: int, pow: real -> real)
      modifies v`performance, v`lastUpdateTime
      ensures v.performance == DecayedPerformance(old(v.performance), old(v.lastUpdateTime), now, pow)
      ensures v.lastUpdateTime == Later(old(v.lastUpdateTime), now)
    {
      var hours := (now - v.lastUpdateTime) as real / 3600.0;
      if hours > 0.0 {
        v.performance := v.performance * pow(hours);
        v.performance := Larger(MIN_PERFORMANCE, Smaller(v.performance, 1.0));
        v.lastUpdateTime := now;
      }
    }

    method TransitionToNextEpoch()
      requires Keyed()
      modifies All()`blocksProduced
      ensures forall id :: id in validators ==> validators[id].blocksProduced == 0
    {
      var rest := validators.Keys;
      while rest != {}
        invariant rest <= validators.Keys
        invariant forall id :: id in validators && id !in rest ==> validators[id].blocksProduced == 0
      {
        var id :| id in rest;
        rest := rest - {id};
        validators[id].blocksProduced := 0;
      }
    }

    /** One block's epoch work: nothing off the boundary; on it slashing, a new active list by the
        slashed stakes, rewards only when nobody was slashed, decay, and counters reset. */
    method ProcessEpoch(blockNumber: nat, now: int, pow: real -> real) returns (result: EpochResult)
      requires Valid()
      modifies this`currentEpoch, this`activeValidators, this`totalStake, this`activeTotalStake, this`slashLog,
               this`rewarded, All()`stake, All()`isActive, All()`misbehaviorCount, All()`performance,
               All()`lastUpdateTime, All()`blocksProduced
      ensures Valid()
      ensures result == ZeroDuration <==> epochDuration == 0
      ensures result == Processed <==> epochDuration != 0 && blockNumber % epochDuration == 0
      ensures result != Processed ==>
                Stakes() == old(Stakes()) && activeValidators == old(activeValidators) && slashLog == old(slashLog)
                && currentEpoch == old(currentEpoch) && rewarded == old(rewarded)
                && Performances() == old(Performances())
      ensures result == Processed ==> currentEpoch == old(currentEpoch) + 1
      ensures result == Processed ==>
                var slashed := AfterSlashing(old(Stakes()), old(Misbehavior()), {});
                && BestOf(activeValidators, maxSetSize, ScoresFrom(slashed, old(Performances())))
                && Stakes() == (if slashed != old(Stakes()) then slashed
                                else AfterRewards(slashed, IdSeq(activeValidators), currentEpoch))
                && rewarded <= old(rewarded) + (if slashed != old(Stakes()) then 0 else TotalReward(currentEpoch))
                && Performances() == Decayed(old(Performances()), old(Updated()), now, pow)
      ensures result == Processed ==> Misbehavior() == Cleared(old(Misbehavior()), {})
      ensures result == Processed ==>
                LogTells(slashLog, old(slashLog), old(Stakes()), old(Misbehavior()), {}, now)
      ensures result == Processed ==> forall id :: id in validators ==>
                validators[id].blocksProduced == 0 && validators[id].misbehaviorCount == 0
      ensures result == Processed ==> forall id :: id in validators ==>
                validators[id].performance == DecayedPerformance(old(validators[id].performance),
                                                                 old(validators[id].lastUpdateTime), now, pow)
      ensures result == Processed ==> forall id :: id in validators ==>
                validators[id].lastUpdateTime == if now > old(validators[id].lastUpdateTime) then now
                                                 else old(validators[id].lastUpdateTime)
      ensures result == Processed && !SomebodyPays(old(Stakes()), old(Misbehavior())) && |activeValidators| == 1 ==>
                var id := activeValidators[0].id;
                var stake := old(validators[id].stake);
                var paid := validators[id].stake - stake;
                0 < stake && 1000000 * stake < 0x1_0000_0000_0000_0000 ==>
                  && (currentEpoch <= 1 ==> paid == 100)
                  && (currentEpoch > 1 ==>
                        paid * (1 + currentEpoch / 100) <= 1000000 < (paid + 1) * (1 + currentEpoch / 100))
    {
      hide Valid, Balanced, Listed, LogTells, AfterSlashing, AfterRewards, BestOf, Decayed, Cleared, Stakes,
           Misbehavior, Performances, Updated, ScoresFrom, IdSeq, SomebodyPays, DecayedPerformance;
      result := RunEpoch(blockNumber, now, pow);
      if result == Processed {
        BalancedIsKeyed();
        EpochCleans();
        EpochAges(now, pow);
        EpochPays();
      }
    }

    /** The work itself. */
    method RunEpoch(blockNumber: nat, now: int, pow: real -> real) returns (result: EpochResult)
      requires Valid()
      modifies this`currentEpoch, this`activeValidators, this`totalStake, this`activeTotalStake, this`slashLog,
               this`rewarded, All()`stake, All()`isActive, All()`misbehaviorCount, All()`performance,
               All()`lastUpdateTime, All()`blocksProduced
      ensures Valid()
      ensures result == ZeroDuration <==> epochDuration == 0
      ensures result == Processed <==> epochDuration != 0 && blockNumber % epochDuration == 0
      ensures result != Processed ==>
                Stakes() == old(Stakes()) && activeValidators == old(activeValidators) && slashLog == old(slashLog)
                && currentEpoch == old(currentEpoch) && rewarded == old(rewarded)
                && Performances() == old(Performances())
      ensures result == Processed ==> currentEpoch == old(currentEpoch) + 1
      ensures result == Processed ==>
                var slashed := AfterSlashing(old(Stakes()), old(Misbehavior()), {});
                && BestOf(activeValidators, maxSetSize, ScoresFrom(slashed, old(Performances())))
                && Stakes() == (if slashed != old(Stakes()) then slashed
                                else AfterRewards(slashed, IdSeq(activeValidators), currentEpoch))
                && rewarded <= old(rewarded) + (if slashed != old(Stakes()) then 0 else TotalReward(currentEpoch))
                && Performances() == Decayed(old(Performances()), old(Updated()), now, pow)
      ensures result == Processed ==> Misbehavior() == Cleared(old(Misbehavior()), {})
      ensures result == Processed ==>
                LogTells(slashLog, old(slashLog), old(Stakes()), old(Misbehavior()), {}, now)
      ensures result == Processed ==> forall id :: id in validators ==>
                validators[id].blocksProduced == 0
                && validators[id].lastUpdateTime == Later(old(validators[id].lastUpdateTime), now)
    {
      hide Valid, Balanced, Listed, LogTells, AfterSlashing, AfterRewards, BestOf, Decayed, Cleared, Stakes,
           Misbehavior, Performances, Updated, ScoresFrom, IdSeq;
      BalancedIsKeyed();
      if epochDuration == 0 {
        return ZeroDuration;
      }
      if blockNumber % epochDuration != 0 {
        return OffBoundary;
      }
      currentEpoch := currentEpoch + 1;
      SettleEpoch(now);
      UpdatePerformance(now, pow);
      TransitionToNextEpoch();
      result := Processed;
    }

    twostate lemma EpochCleans()
      requires validators == old(validators) && Misbehavior() == Cleared(old(Misbehavior()), {})
      ensures forall id :: id in validators ==> validators[id].misbehaviorCount == 0
    {
      forall id | id in validators ensures validators[id].misbehaviorCount == 0 {
        assert Misbehavior()[id] == validators[id].misbehaviorCount;
        assert old(Misbehavior())[id] == old(validators[id].misbehaviorCount);
      }
    }

    twostate lemma EpochAges(new now: int, new pow: real -> real)
      requires validators == old(validators)
      requires Performances() == Decayed(old(Performances()), old(Updated()), now, pow)
      ensures forall id :: id in validators ==>
                validators[id].performance == DecayedPerformance(old(validators[id].performance),
                                                                 old(validators[id].lastUpdateTime), now, pow)
    {
      forall id | id in validators
        ensures validators[id].performance == DecayedPerformance(old(validators[id].performance),
                                                                 old(validators[id].lastUpdateTime), now, pow)
      {
        assert old(Performances())[id] == old(validators[id].performance);
        assert old(Updated())[id] == old(validators[id].lastUpdateTime);
        assert Performances()[id] == validators[id].performance;
      }
    }

    twostate lemma EpochPays()
      requires Listed() && validators == old(validators)
      requires var slashed := AfterSlashing(old(Stakes()), old(Misbehavior()), {});
               slashed == old(Stakes()) ==> Stakes() == AfterRewards(slashed, IdSeq(activeValidators), currentEpoch)
      ensures !SomebodyPays(old(Stakes()), old(Misbehavior())) && |activeValidators| == 1 ==>
                var id := activeValidators[0].id;
                var stake := old(validators[id].stake);
                var paid := validators[id].stake - stake;
                0 < stake && 1000000 * stake < 0x1_0000_0000_0000_0000 ==>
                  && (currentEpoch <= 1 ==> paid == 100)
                  && (currentEpoch > 1 ==>
                        paid * (1 + currentEpoch / 100) <= 1000000 < (paid + 1) * (1 + currentEpoch / 100))
    {
      Penalized(old(Stakes()), old(Misbehavior()));
      if !SomebodyPays(old(Stakes()), old(Misbehavior())) && |activeValidators| == 1 {
        var id := activeValidators[0].id;
        assert activeValidators[0] in activeValidators;
        assert IdSeq(activeValidators) == [id];
        assert old(Stakes())[id] == old(validators[id].stake) && Stakes()[id] == validators[id].stake;
        if 0 < old(validators[id].stake) && 1000000 * old(validators[id].stake) < 0x1_0000_0000_0000_0000 {
          SoleReward(old(Stakes()), id, currentEpoch);
          TotalRewardIs(currentEpoch);
        }
      }
    }

    /** The stake-moving part of an epoch. */
    method SettleEpoch(now: int)
      requires Valid()
      modifies this`activeValidators, this`totalStake, this`activeTotalStake, this`slashLog, this`rewarded,
               All()`stake, All()`isActive, All()`misbehaviorCount
      ensures Valid()
      ensures var slashed := AfterSlashing(old(Stakes()), old(Misbehavior()), {});
              && BestOf(activeValidators, maxSetSize, ScoresFrom(slashed, Performances()))
              && Stakes() == (if slashed != old(Stakes()) then slashed
                              else AfterRewards(slashed, IdSeq(activeValidators), currentEpoch))
              && rewarded <= old(rewarded) + (if slashed != old(Stakes()) then 0 else TotalReward(currentEpoch))
      ensures Misbehavior() == Cleared(old(Misbehavior()), {})
      ensures LogTells(slashLog, old(slashLog), old(Stakes()), old(Misbehavior()), {}, now)
    {
      hide LogTells, AfterSlashing, Cleared, PaidOut, Rewards, Weights, BestOf, Balanced, Listed, Stakes, Misbehavior,
           Scores, ScoresFrom, Sum, TopScored, EachPaid, EachLogged;
      var slashedAny := HandleSlashing(now);
      BalancedIsKeyed();
      UpdateActiveValidators();
      ScoresAreCurrent();
      if !slashedAny {
        ListedTotal();
        DistributeRewards();
      }
    }

    lemma BalancedIsKeyed()
      requires Valid()
      ensures Balanced() && Listed() && Keyed()
    {
    }

    lemma ScoresAreCurrent()
      requires Keyed()
      ensures Scores() == ScoresFrom(Stakes(), Performances())
    {
    }

    /** The cached sum is the sum over the list. */
    lemma ListedTotal()
      requires Valid()
      ensures Members() <= All() && forall id :: id in IdSeq(activeValidators) ==> id in Stakes()
      ensures activeTotalStake == Sum(Weights(IdSeq(activeValidators), Stakes()))
    {
      ListTotal(IdSeq(activeValidators), Stakes());
    }

    // ---------------------------------------------------------------- settings and queries

    method SetSetSize(size: nat)
      requires Valid()
      modifies this`maxSetSize, this`activeValidators, this`activeTotalStake, All()`isActive
      ensures Valid() && maxSetSize == size && BestOf(activeValidators, size, Scores())
      ensures Stakes() == old(Stakes())
    {
      hide Balanced, Listed, BestOf, Scores, TopScored;
      maxSetSize := size;
      BalancedIsKeyed();
      UpdateActiveValidators();
    }

    method SetEpochDuration(duration: nat)
      requires Valid()
      modifies this`epochDuration
      ensures Valid() && Stakes() == old(Stakes())
      ensures epochDuration == if duration == 0 then old(epochDuration) else duration
    {
      if duration == 0 {
        return;
      }
      epochDuration := duration;
    }

    method InjectMisbehaviorCount(id: Id, count: nat)
      requires Valid()
      modifies All()`misbehaviorCount
      ensures Valid() && Misbehavior() == if id in validators then old(Misbehavior())[id := count]
                                          else old(Misbehavior())
    {
      if id in validators {
        SetMisbehavior(validators[id], count);
      }
    }

    method RewardValidator(id: Id, now: int)
      requires Valid()
      modifies All()`performance, All()`lastUpdateTime
      ensures Valid()
      ensures Performances() == if id in validators
                                then old(Performances())[id := Smaller(old(validators[id].performance) * 1.01, 1.0)]
                                else old(Performances())
      ensures Updated() == if id in validators then old(Updated())[id := now] else old(Updated())
    {
      if id in validators {
        var v := validators[id];
        v.performance := Smaller(v.performance * 1.01, 1.0);
        v.lastUpdateTime := now;
      }
    }

    /** The stake the governance tally reads: for every active validator the same share of the
        total of all validators, not the validator's own stake. */
    method GetValidatorStake(id: Id) returns (stake: int)
      requires Valid()
      ensures Valid()
      ensures stake == if id in IdsOf(activeValidators) then totalStake / |activeValidators| else 0
      ensures id in IdsOf(activeValidators) ==>
                0 <= stake && |activeValidators| * stake <= totalStake < |activeValidators| * (stake + 1)
    {
      hide Valid, IdsOf;
      if id !in validators {
        NoIdHasPosition(id);
        return 0;
      }
      if !validators[id].isActive {
        NoIdHasPosition(id);
        return 0;
      }
      var activeCount := |activeValidators|;
      ActiveHasPosition(id);
      if activeCount == 0 {
        return 0;
      }
      stake := totalStake / activeCount;
      ShareBounds(totalStake, activeCount);
    }

    method IsActiveValidator(id: Id) returns (active: bool)
      requires Valid()
      ensures Valid() && (active <==> id in IdsOf(activeValidators))
    {
      hide Valid, IdsOf;
      active := id in validators && validators[id].isActive;
      if active {
        ActiveHasPosition(id);
      } else {
        NoIdHasPosition(id);
      }
    }

    /** What others do to other objects leaves the engine valid. */
    twostate lemma StaysValid()
      requires old(Valid()) && unchanged(this)
      requires forall id :: id in validators ==> unchanged(validators[id])
      ensures Valid() && Stakes() == old(Stakes()) && Snapshot() == old(Snapshot())
    {
      assert Stakes() == old(Stakes());
    }

    /** The active IDs, as many as there are active validators. */
    lemma ActiveCount()
      requires Valid()
      ensures |IdsOf(activeValidators)| == |activeValidators| && totalStake >= 0
    {
      DistinctSize(IdSeq(activeValidators), IdsOf(activeValidators));
    }

    lemma ActiveHasPosition(id: Id)
      requires Valid() && id in validators && validators[id].isActive
      ensures |activeValidators| > 0 && id in IdsOf(activeValidators) && totalStake >= 0
    {
      assert validators[id] in activeValidators;
      var i :| 0 <= i < |activeValidators| && activeValidators[i] == validators[id];
      assert IdSeq(activeValidators)[i] == id;
    }

    lemma NoIdHasPosition(id: Id)
      requires Valid() && (id !in validators || !validators[id].isActive)
      ensures id !in IdsOf(activeValidators)
    {
      forall i | 0 <= i < |activeValidators| ensures IdSeq(activeValidators)[i] != id {
        assert activeValidators[i] in activeValidators;
      }
    }

    // ---------------------------------------------------------------- snapshots

    ghost function Snapshot(): DposSnapshot
      reads this`validators, this`activeValidators, this`lastBlockHeight, this`epochDuration, this`currentEpoch,
            this`maxSetSize, All()
    {
      DposSnapshot(Records(), IdSeq(activeValidators), lastBlockHeight, epochDuration, currentEpoch, maxSetSize)
    }

    ghost function Records(): map<Id, ValidatorRecord>
      reads this`validators, All()
    {
      map id | id in validators :: RecordOf(validators[id])
    }

    lemma RecordsAre(records: map<Id, ValidatorRecord>)
      requires validators.Keys == records.Keys
      requires forall id :: id in validators ==>
                 validators[id].id == id && RecordOf(validators[id]) == records[id].(id := id)
      ensures Keyed() && Records() == Rekeyed(records) && Stakes() == RecordedStakes(records)
    {
    }

    /** The engine's fields are those of a saved state; the flags follow the list. */
    ghost predicate Mirrors(state: DposSnapshot)
      reads this`validators, this`activeValidators, this`lastBlockHeight, this`epochDuration, this`currentEpoch,
            this`maxSetSize, All()
    {
      && validators.Keys == state.validators.Keys
      && (forall id :: id in validators ==>
            var v, r := validators[id], state.validators[id];
            && v.stake == r.stake && v.performance == r.performance && v.lastUpdateTime == r.lastUpdateTime
            && v.blocksProduced == r.blocksProduced && v.misbehaviorCount == r.misbehaviorCount)
      && |activeValidators| == |state.active|
      && (forall i :: 0 <= i < |state.active| ==> activeValidators[i].id == state.active[i])
      && lastBlockHeight == state.lastBlockHeight && epochDuration == state.epochDuration
      && currentEpoch == state.currentEpoch && maxSetSize == state.maxSetSize
    }

    lemma SnapshotMeans(state: DposSnapshot)
      requires Keyed() && Snapshot() == state
      ensures Mirrors(state)
    {
      assert forall id :: id in validators ==> state.validators[id] == RecordOf(validators[id]);
    }

    twostate lemma MirrorStays(new state: DposSnapshot)
      requires unchanged(this) && forall id :: id in validators ==> unchanged(validators[id])
      ensures old(Mirrors(state)) ==> Mirrors(state)
    {
    }

    /** The same validators as before, and every field of each. */
    twostate predicate SameFields()
      reads this`validators, All()
    {
      && validators.Keys == old(validators.Keys)
      && (forall id :: id in validators ==>
            && validators[id].stake == old(validators[id].stake)
            && validators[id].performance == old(validators[id].performance)
            && validators[id].lastUpdateTime == old(validators[id].lastUpdateTime)
            && validators[id].blocksProduced == old(validators[id].blocksProduced)
            && validators[id].misbehaviorCount == old(validators[id].misbehaviorCount))
    }

    twostate lemma SnapshotStays()
      requires unchanged(this) && forall id :: id in validators ==> unchanged(validators[id])
      ensures Snapshot() == old(Snapshot())
    {
    }

    twostate lemma NothingDiffers()
      requires unchanged(this) && forall id :: id in validators ==> unchanged(validators[id])
      ensures SameFields()
    {
    }

    /** The same state twice means the same fields twice. */
    twostate lemma SameStateMeans()
      requires old(Keyed()) && Keyed() && Snapshot() == old(Snapshot())
      ensures SameFields()
    {
      forall id | id in validators
        ensures id in old(validators) && RecordOf(validators[id]) == old(RecordOf(validators[id]))
      {
        assert Snapshot().validators[id] == RecordOf(validators[id]);
        assert old(Snapshot()).validators[id] == old(RecordOf(validators[id]));
      }
      assert Snapshot().validators.Keys == validators.Keys;
      assert old(Snapshot()).validators.Keys == old(validators.Keys);
    }

    lemma RecordsMean(records: map<Id, ValidatorRecord>)
      requires validators.Keys == records.Keys
      requires forall id :: id in validators ==> RecordOf(validators[id]) == records[id].(id := id)
      ensures forall id :: id in validators ==>
                var v, r := validators[id], records[id];
                v.stake == r.stake && v.performance == r.performance && v.lastUpdateTime == r.lastUpdateTime
                && v.blocksProduced == r.blocksProduced && v.misbehaviorCount == r.misbehaviorCount
    {
    }

    method GetState() returns (state: DposSnapshot)
      requires Valid()
      ensures Valid() && state == Snapshot() && Restorable(state)
      ensures state.validators.Keys == validators.Keys
      ensures forall id :: id in validators ==>
                var v, r := validators[id], state.validators[id];
                r.id == id && r.stake == v.stake && r.performance == v.performance
                && r.lastUpdateTime == v.lastUpdateTime
                && r.blocksProduced == v.blocksProduced && r.misbehaviorCount == v.misbehaviorCount
      ensures |state.active| == |activeValidators|
      ensures forall i :: 0 <= i < |activeValidators| ==> state.active[i] == activeValidators[i].id
      ensures state.lastBlockHeight == lastBlockHeight && state.epochDuration == epochDuration
      ensures state.currentEpoch == currentEpoch && state.maxSetSize == maxSetSize
      ensures Mirrors(state)
    {
      state := DposSnapshot(map id | id in validators :: RecordOf(validators[id]), IdSeq(activeValidators),
                            lastBlockHeight, epochDuration, currentEpoch, maxSetSize);
    }

    /** Replaces the whole state.  The validators are replaced before the active list is checked,
        so a failure leaves new validators beside the old list and sums.  The slash log stays. */
    method RestoreState(state: DposSnapshot) returns (ok: bool)
      modifies this`validators, this`activeValidators, this`totalStake, this`activeTotalStake, this`lastBlockHeight,
               this`epochDuration, this`currentEpoch, this`maxSetSize, this`registered
      ensures ok <==> forall id :: id in state.active ==> id in state.validators
      ensures Keyed() && fresh(All()) && Snapshot().validators == Rekeyed(state.validators)
      ensures Snapshot() == state.(validators := Rekeyed(state.validators),
                                   active := if ok then state.active else old(IdSeq(activeValidators)))
      ensures !ok ==>
                activeValidators == old(activeValidators) && totalStake == old(totalStake)
                && activeTotalStake == old(activeTotalStake)
      ensures ok && Distinct(state.active) ==> Valid()
      ensures validators.Keys == state.validators.Keys
      ensures forall id :: id in validators ==>
                var v, r := validators[id], state.validators[id];
                v.stake == r.stake && v.performance == r.performance && v.lastUpdateTime == r.lastUpdateTime
                && v.blocksProduced == r.blocksProduced && v.misbehaviorCount == r.misbehaviorCount
      ensures ok ==> forall id :: id in validators ==> (validators[id].isActive <==> id in state.active)
      ensures ok ==> Mirrors(state)
      ensures ok ==> |activeValidators| == |state.active|
                     && forall i :: 0 <= i < |state.active| ==> activeValidators[i] == validators[state.active[i]]
      ensures lastBlockHeight == state.lastBlockHeight && epochDuration == state.epochDuration
      ensures currentEpoch == state.currentEpoch && maxSetSize == state.maxSetSize
    {
      hide Total, Whole, Slashed, Valid, Balanced, Listed, RecordOf, Rekeyed, RecordedStakes, Records, Stakes, IdSeq,
           Distinct;
      var newValidators, total := Build(state.validators);
      validators := newValidators;
      lastBlockHeight, epochDuration := state.lastBlockHeight, state.epochDuration;
      currentEpoch, maxSetSize := state.currentEpoch, state.maxSetSize;
      RecordsAre(state.validators);
      var known, actives, activeTotal := FindActives(state.active);
      RecordsAre(state.validators);
      RecordsMean(state.validators);
      if !known {
        return false;
      }
      Adopt(state.active, actives, total, activeTotal);
      ok := true;
    }

    /** Takes over the rebuilt list and sums. */
    method Adopt(ghost ids: seq<Id>, actives: seq<Validator>, total: nat, activeTotal: nat)
      requires Keyed() && total == Whole(Stakes())
      requires |actives| == |ids| && forall k :: 0 <= k < |ids| ==>
                                       ids[k] in validators && actives[k] == validators[ids[k]]
      requires forall id :: id in validators ==> (validators[id].isActive <==> id in ids)
      requires Distinct(ids) ==> IdSet(ids) <= Stakes().Keys && activeTotal == Total(IdSet(ids), Stakes())
      modifies this`activeValidators, this`totalStake, this`activeTotalStake, this`registered
      ensures activeValidators == actives && IdSeq(activeValidators) == ids && (Distinct(ids) ==> Valid())
    {
      hide Total, Whole, Slashed;
      activeValidators := actives;
      totalStake := total;
      activeTotalStake := activeTotal;
      registered := total + Slashed(slashLog) - edits - rewarded;
      assert IdSeq(actives) == ids;
    }

    /** Looks the listed IDs up and flags them, up to the first unknown one. */
    method FindActives(ids: seq<Id>) returns (ok: bool, actives: seq<Validator>, activeTotal: nat)
      requires Keyed() && forall id :: id in validators ==> !validators[id].isActive
      modifies All()`isActive
      ensures ok <==> forall id :: id in ids ==> id in validators
      ensures ok ==> |actives| == |ids| && forall k :: 0 <= k < |ids| ==> actives[k] == validators[ids[k]]
      ensures ok ==> forall id :: id in validators ==> (validators[id].isActive <==> id in ids)
      ensures ok && Distinct(ids) ==> IdSet(ids) <= Stakes().Keys && activeTotal == Total(IdSet(ids), Stakes())
    {
      hide Distinct, IdSet, Total;
      actives, activeTotal := [], 0;
      ghost var stakes := Stakes();
      NoneYet(ids, stakes);
      for i := 0 to |ids|
        invariant forall k :: 0 <= k < i ==> ids[k] in validators
        invariant |actives| == i && forall k :: 0 <= k < i ==> actives[k] == validators[ids[k]]
        invariant forall id :: id in validators ==> (validators[id].isActive <==> id in ids[..i])
        invariant Distinct(ids) ==> IdSet(ids[..i]) <= stakes.Keys && activeTotal == Total(IdSet(ids[..i]), stakes)
      {
        if ids[i] !in validators {
          return false, actives, activeTotal;
        }
        var v := validators[ids[i]];
        if Distinct(ids) {
          OneMore(ids, i, stakes);
        }
        assert ids[..i + 1] == ids[..i] + [ids[i]];
        v.isActive := true;
        actives := actives + [v];
        activeTotal := activeTotal + v.stake;
      }
      assert ids[..|ids|] == ids;
      ok := true;
    }

    method Build(records: map<Id, ValidatorRecord>) returns (made: map<Id, Validator>, total: nat)
      ensures made.Keys == records.Keys && fresh(made.Values)
      ensures forall id :: id in made ==>
                made[id].id == id && RecordOf(made[id]) == records[id].(id := id) && !made[id].isActive
      ensures total == Whole(RecordedStakes(records))
    {
      made, total := map[], 0;
      var rest := records.Keys;
      ghost var stakes := RecordedStakes(records);
      while rest != {}
        invariant rest + made.Keys == records.Keys && rest !! made.Keys
        invariant forall id :: id in made ==> fresh(made[id])
        invariant forall id :: id in made ==>
                    made[id].id == id && RecordOf(made[id]) == records[id].(id := id) && !made[id].isActive
        invariant total == Total(made.Keys, stakes)
      {
        var id :| id in rest;
        rest := rest - {id};
        var r := records[id];
        var v := new Validator(id, r.stake, r.performance, r.lastUpdateTime, r.blocksProduced, r.misbehaviorCount);
        TotalPick(made.Keys + {id}, stakes, id);
        assert made.Keys + {id} - {id} == made.Keys && made[id := v].Keys == made.Keys + {id};
        made := made[id := v];
        total := total + r.stake;
      }
      assert made.Keys == stakes.Keys;
    }
  }

  datatype EpochResult = ZeroDuration | OffBoundary | Processed

  datatype ValidatorRecord = ValidatorRecord(
    id: Id, stake: nat, performance: real, lastUpdateTime: int, blocksProduced: nat, misbehaviorCount: nat)

  datatype DposSnapshot = DposSnapshot(
    validators: map<Id, ValidatorRecord>, active: seq<Id>,
    lastBlockHeight: nat, epochDuration: nat, currentEpoch: nat, maxSetSize: nat)

  function RecordOf(v: Validator): ValidatorRecord
    reads v`stake, v`performance, v`lastUpdateTime, v`blocksProduced, v`misbehaviorCount
  {
    ValidatorRecord(v.id, v.stake, v.performance, v.lastUpdateTime, v.blocksProduced, v.misbehaviorCount)
  }

  ghost function RecordedStakes(records: map<Id, ValidatorRecord>): map<Id, nat> {
    map id | id in records :: records[id].stake
  }

  /** Restoring goes by the key, whatever the record says. */
  ghost function Rekeyed(records: map<Id, ValidatorRecord>): map<Id, ValidatorRecord> {
    map id | id in records :: records[id].(id := id)
  }

  /** A snapshot that restores to itself. */
  ghost predicate Restorable(state: DposSnapshot) {
    && Rekeyed(state.validators) == state.validators
    && Distinct(state.active) && forall id :: id in state.active ==> id in state.validators
  }

  function Larger(a: real, b: real): real {
    if a > b then a else b
  }

  function Smaller(a: real, b: real): real {
    if a < b then a else b
  }

  function Later(a: int, b: int): int {
    if a < b then b else a
  }

  function DecayedPerformance(performance: real, updated: int, now: int, pow: real -> real): (p: real)
    ensures now > updated ==> MIN_PERFORMANCE <= p <= 1.0
  {
    if now > updated
    then Larger(MIN_PERFORMANCE, Smaller(performance * pow((now - updated) as real / 3600.0), 1.0))
    else performance
  }

  /** The product with the factor of the hours passed, kept between 0.1 and 1. */
  lemma DecayClamps(performance: real, updated: int, now: int, pow: real -> real, hours: real, aged: real)
    requires hours == (now - updated) as real / 3600.0 && aged == performance * pow(hours)
    ensures var p := DecayedPerformance(performance, updated, now, pow);
            && (now <= updated ==> p == performance)
            && (now > updated && aged < 0.1 ==> p == 0.1)
            && (now > updated && 0.1 <= aged <= 1.0 ==> p == aged)
            && (now > updated && aged > 1.0 ==> p == 1.0)
  {
  }

  ghost function Decayed(performance: map<Id, real>, updated: map<Id, int>, now: int, pow: real -> real): map<Id, real>
    requires performance.Keys == updated.Keys
  {
    map id | id in performance :: DecayedPerformance(performance[id], updated[id], now, pow)
  }

  lemma {:induction false} ValuesSize(m: map<Id, Validator>)
    requires forall id :: id in m ==> m[id].id == id
    ensures |m.Values| == |m|
    decreases |m|
  {
    if m != map[] {
      var id :| id in m;
      var rest := m - {id};
      ValuesSize(rest);
      assert m.Values == rest.Values + {m[id]} && m.Keys == rest.Keys + {id};
      assert |m| == |m.Keys| && |rest| == |rest.Keys|;
    }
  }

  /** Some penalty is not nothing. */
  ghost predicate SomebodyPays(stakes: map<Id, nat>, misbehavior: map<Id, nat>)
    requires stakes.Keys == misbehavior.Keys
  {
    exists id :: id in stakes && stakes[id] > 0 && stakes[id] / 100 * misbehavior[id] % 0x1_0000_0000_0000_0000 > 0
  }

  /** The stakes after one epoch's rewards to the listed validators. */
  ghost function AfterRewards(stakes: map<Id, nat>, ids: seq<Id>, epoch: nat): map<Id, nat>
    requires forall id :: id in ids ==> id in stakes
  {
    var listed := Weights(ids, stakes);
    if Sum(listed) == 0 then stakes else PaidOut(stakes, ids, Rewards(TotalReward(epoch), listed, Sum(listed)))
  }

  /** A sole listed validator gets the epoch's whole total. */
  lemma SoleReward(stakes: map<Id, nat>, id: Id, epoch: nat)
    requires id in stakes && 0 < stakes[id] && 1000000 * stakes[id] < 0x1_0000_0000_0000_0000
    ensures AfterRewards(stakes, [id], epoch) == stakes[id := stakes[id] + TotalReward(epoch)]
  {
    hide TotalReward;
    var stake, total := stakes[id], TotalReward(epoch);
    assert Weights([id], stakes) == [stake] && Sum([stake]) == stake + Sum([stake][1..]);
    MulMonotone(total, 1000000, stake);
    WholeShare(total, stake);
    assert Rewards(total, [stake], stake) == [total] + Rewards(total, [stake][1..], stake + total);
    assert PaidOut(stakes, [id][..0], [total][..0]) == stakes;
  }

  lemma WholeShare(total: nat, stake: nat)
    requires stake > 0 && total * stake < 0x1_0000_0000_0000_0000
    ensures RewardOf(total, stake, stake) == total
  {
    RewardIsShare(total, stake, stake);
    var r := RewardOf(total, stake, stake);
    CancelFactor(r, total, stake);
    if r < total {
      MulMonotone(r + 1, total, stake);
    }
  }

  /** What slashing everybody leaves, and when it changes anything. */
  lemma Penalized(stakes: map<Id, nat>, misbehavior: map<Id, nat>)
    requires stakes.Keys == misbehavior.Keys
    ensures forall id :: id in stakes ==>
              var due := stakes[id] / 100 * misbehavior[id] % 0x1_0000_0000_0000_0000;
              AfterSlashing(stakes, misbehavior, {})[id] == if due > stakes[id] then 0 else stakes[id] - due
    ensures AfterSlashing(stakes, misbehavior, {}) != stakes <==> SomebodyPays(stakes, misbehavior)
  {
    var slashed := AfterSlashing(stakes, misbehavior, {});
    if slashed != stakes {
      assert slashed.Keys == stakes.Keys;
      var id :| id in stakes && slashed[id] != stakes[id];
    }
  }

  lemma EntriesMean(log: seq<SlashEvent>, before: seq<SlashEvent>, stakes: map<Id, nat>, misbehavior: map<Id, nat>,
                    now: int)
    requires stakes.Keys == misbehavior.Keys && LogTells(log, before, stakes, misbehavior, {}, now)
    ensures forall i :: |before| <= i < |log| ==>
              var e := log[i];
              && e.timestamp == now && e.validator in stakes && misbehavior[e.validator] > 0
              && var due := stakes[e.validator] / 100 * misbehavior[e.validator] % 0x1_0000_0000_0000_0000;
                 e.amount == if due > stakes[e.validator] then stakes[e.validator] else due
  {
    forall i | |before| <= i < |log|
      ensures var id := log[i].validator;
              id in stakes && [log[i]] == EntryFor(id, stakes, misbehavior, now)
    {
      assert log[|before|..][i - |before|] == log[i];
    }
  }

  lemma NoneYet(ids: seq<Id>, weight: map<Id, nat>)
    ensures IdSet(ids[..0]) <= weight.Keys && Total(IdSet(ids[..0]), weight) == 0
  {
    assert ids[..0] == [];
  }

  lemma OneMore(ids: seq<Id>, i: nat, weight: map<Id, nat>)
    requires i < |ids| && Distinct(ids) && IdSet(ids[..i]) <= weight.Keys && ids[i] in weight
    ensures IdSet(ids[..i + 1]) <= weight.Keys
    ensures Total(IdSet(ids[..i + 1]), weight) == Total(IdSet(ids[..i]), weight) + weight[ids[i]]
  {
    assert ids[..i + 1] == ids[..i] + [ids[i]];
    assert IdSet(ids[..i + 1]) - {ids[i]} == IdSet(ids[..i]);
    TotalPick(IdSet(ids[..i + 1]), weight, ids[i]);
  }

  lemma ShareBounds(total: int, n: int)
    requires n > 0 && total >= 0
    ensures n * (total / n) <= total < n * (total / n + 1)
  {
  }

  /** The stakes once every validator outside `rest` paid its capped penalty. */
  ghost function AfterSlashing(stakes: map<Id, nat>, misbehavior: map<Id, nat>, rest: set<Id>): map<Id, nat>
    requires stakes.Keys == misbehavior.Keys
  {
    map id | id in stakes :: if id in rest then stakes[id] else stakes[id] - CappedPenalty(stakes[id], misbehavior[id])
  }

  /** The misbehavior still counted. */
  ghost function Cleared(misbehavior: map<Id, nat>, rest: set<Id>): map<Id, nat> {
    map id | id in misbehavior :: if id in rest then misbehavior[id] else 0
  }

  /** The log entry of one validator, if it misbehaved. */
  function EntryFor(id: Id, stakes: map<Id, nat>, misbehavior: map<Id, nat>, now: int): seq<SlashEvent>
    requires id in stakes && id in misbehavior
  {
    if misbehavior[id] > 0 then [SlashEvent(id, CappedPenalty(stakes[id], misbehavior[id]), now)] else []
  }

  /** One entry for every misbehaving validator outside `rest`, with its capped penalty. */
  ghost predicate Logged(entries: seq<SlashEvent>, stakes: map<Id, nat>, misbehavior: map<Id, nat>, rest: set<Id>,
                         now: int)
    requires stakes.Keys == misbehavior.Keys
  {
    && (forall i, j :: 0 <= i < j < |entries| ==> entries[i].validator != entries[j].validator)
    && (forall i :: 0 <= i < |entries| ==>
          var id := entries[i].validator;
          id in stakes && id !in rest && [entries[i]] == EntryFor(id, stakes, misbehavior, now))
    && (forall id :: id in stakes && id !in rest && misbehavior[id] > 0 ==>
          exists i :: 0 <= i < |entries| && entries[i].validator == id)
  }

  /** The log grew by exactly such entries. */
  ghost predicate LogTells(log: seq<SlashEvent>, before: seq<SlashEvent>, stakes: map<Id, nat>,
                           misbehavior: map<Id, nat>, rest: set<Id>, now: int)
    requires stakes.Keys == misbehavior.Keys
  {
    before <= log && Logged(log[|before|..], stakes, misbehavior, rest, now)
  }

  lemma LogTellsNothing(log: seq<SlashEvent>, stakes: map<Id, nat>, misbehavior: map<Id, nat>, now: int)
    requires stakes.Keys == misbehavior.Keys
    ensures LogTells(log, log, stakes, misbehavior, stakes.Keys, now)
  {
  }

  lemma LogTellsMore(log: seq<SlashEvent>, before: seq<SlashEvent>, stakes: map<Id, nat>, misbehavior: map<Id, nat>,
                     rest: set<Id>, id: Id, now: int)
    requires stakes.Keys == misbehavior.Keys && LogTells(log, before, stakes, misbehavior, rest, now)
    requires id in rest && id in stakes
    ensures LogTells(log + EntryFor(id, stakes, misbehavior, now), before, stakes, misbehavior, rest - {id}, now)
  {
    var entry := EntryFor(id, stakes, misbehavior, now);
    LoggedMore(log[|before|..], stakes, misbehavior, rest, id, now);
    assert (log + entry)[|before|..] == log[|before|..] + entry;
  }

  lemma LoggedMore(entries: seq<SlashEvent>, stakes: map<Id, nat>, misbehavior: map<Id, nat>, rest: set<Id>, id: Id,
                   now: int)
    requires stakes.Keys == misbehavior.Keys && Logged(entries, stakes, misbehavior, rest, now)
    requires id in rest && id in stakes
    ensures Logged(entries + EntryFor(id, stakes, misbehavior, now), stakes, misbehavior, rest - {id}, now)
  {
    var all := entries + EntryFor(id, stakes, misbehavior, now);
    forall other | other in stakes && other !in rest - {id} && misbehavior[other] > 0
      ensures exists i :: 0 <= i < |all| && all[i].validator == other
    {
      if other == id {
        assert all[|entries|].validator == id;
      } else {
        var i :| 0 <= i < |entries| && entries[i].validator == other;
        assert all[i].validator == other;
      }
    }
  }

  lemma AfterSlashingNobody(stakes: map<Id, nat>, misbehavior: map<Id, nat>)
    requires stakes.Keys == misbehavior.Keys
    ensures AfterSlashing(stakes, misbehavior, stakes.Keys) == stakes
    ensures Cleared(misbehavior, stakes.Keys) == misbehavior
  {
  }

  lemma AfterSlashingStep(stakes: map<Id, nat>, misbehavior: map<Id, nat>, rest: set<Id>, id: Id)
    requires stakes.Keys == misbehavior.Keys && id in rest && id in stakes
    ensures var s, m := AfterSlashing(stakes, misbehavior, rest), Cleared(misbehavior, rest);
            var t := AfterSlashing(stakes, misbehavior, rest - {id});
            var penalty := CappedPenalty(stakes[id], misbehavior[id]);
            && id in s && s[id] == stakes[id] && t == s[id := stakes[id] - penalty]
            && id in m && m[id] == misbehavior[id] && Cleared(misbehavior, rest - {id}) == m[id := 0]
            && (misbehavior[id] == 0 ==> t == s && Cleared(misbehavior, rest - {id}) == m)
            && (t != stakes <==> s != stakes || penalty > 0)
  {
    var s, t := AfterSlashing(stakes, misbehavior, rest), AfterSlashing(stakes, misbehavior, rest - {id});
    assert misbehavior[id] == 0 ==> CappedPenalty(stakes[id], misbehavior[id]) == 0;
    if s != stakes {
      var k :| k in stakes && s[k] != stakes[k];
      assert t[k] != stakes[k];
    }
    if CappedPenalty(stakes[id], misbehavior[id]) > 0 {
      assert t[id] != stakes[id];
    }
  }

  lemma SortedIsAll(list: seq<Validator>, sorted: seq<Validator>, score: map<Validator, real>, limit: nat)
    requires Distinct(list) && (set v | v in list) == score.Keys
    requires Descending(sorted, score) && multiset(sorted) == multiset(list)
    ensures BestOf(sorted[..Min(|sorted|, limit)], limit, score)
  {
    PermutationDistinct(list, sorted);
    assert forall v :: v in sorted <==> v in multiset(sorted);
    assert forall v :: v in list <==> v in multiset(list);
    PrefixIsBest(sorted, limit, score);
  }

  lemma KnownIds(vs: seq<Validator>, validators: map<Id, Validator>)
    requires Distinct(vs) && forall v :: v in vs ==> v in validators.Values
    requires forall id :: id in validators ==> validators[id].id == id
    ensures DistinctIds(vs)
    ensures forall v :: v in vs ==> v.id in validators && validators[v.id] == v
  {
    forall i, j | 0 <= i < j < |vs| ensures IdSeq(vs)[i] != IdSeq(vs)[j] {
      assert vs[i] in vs && vs[j] in vs;
      var a :| a in validators && validators[a] == vs[i];
      var b :| b in validators && validators[b] == vs[j];
    }
  }
}
