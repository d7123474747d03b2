/** Recovery from a checkpoint across the three engines (consensus/diamantehybrid.go). */
module Recovery {
  import ProofOfHistory
  import ProofOfStake
  import Finality
  import Voting
  import ValidatorRanking
  import EventGraph
  import Lists

  datatype SystemState = SystemState(
    lachesis: Finality.LachesisSnapshot, dpos: ProofOfStake.DposSnapshot, pohState: ProofOfHistory.Digest,
    pohCount: nat)

  datatype Checkpoint = Checkpoint(blockNumber: nat, state: SystemState)

  datatype Outcome = NoCheckpoint | RolledBack | Inconsistent | Recovered | Waiting

  datatype Saving = Refused | Saved | Waits

  /** What all three engines take over without complaint, the PoH engine standing at `pohCount`.
      PoH refuses to go back: a checkpoint with fewer steps than now is never accepted. */
  ghost predicate Acceptable(s: SystemState, pohCount: nat) {
    && Voting.LegalThreshold(s.lachesis.threshold) && Finality.NamesKnownEvents(s.lachesis)
    && (forall id :: id in s.dpos.active ==> id in s.dpos.validators)
    && s.pohCount >= pohCount
  }

  /** What Lachesis alone takes over without complaint. */
  ghost predicate LachesisAccepts(s: SystemState) {
    Voting.LegalThreshold(s.lachesis.threshold) && Finality.NamesKnownEvents(s.lachesis)
  }

  /** What comes back as it was saved. */
  ghost predicate Restorable(s: SystemState) {
    Finality.Restorable(s.lachesis) && ProofOfStake.Restorable(s.dpos)
  }

  /** What is saved of three engines in order. */
  ghost predicate Orderly(s: SystemState) {
    Finality.OrderlySnapshot(s.lachesis) && ProofOfStake.Restorable(s.dpos)
  }

  class HybridConsensus {
    const lachesis: Finality.Lachesis
    const dpos: ProofOfStake.DPoS
    const poh: ProofOfHistory.PoH
    const validatorManager: ValidatorRanking.ValidatorManager
    const checkpointInterval: nat

    var checkpoints: map<nat, Checkpoint>
    var lastCheckpoint: nat
    // The lock of the checkpoints, left held by a call that waits for ever.
    var locked: bool
    var lastBlockHeight: nat
    var lastFinalizedHeight: nat

    constructor (lachesis: Finality.Lachesis, dpos: ProofOfStake.DPoS, poh: ProofOfHistory.PoH,
                 validatorManager: ValidatorRanking.ValidatorManager, checkpointInterval: nat)
      ensures this.lachesis == lachesis && this.dpos == dpos && this.poh == poh
      ensures this.validatorManager == validatorManager && this.checkpointInterval == checkpointInterval
      ensures checkpoints == map[] && lastCheckpoint == lastBlockHeight == lastFinalizedHeight == 0 && !locked
      ensures Early()
    {
      this.lachesis, this.dpos, this.poh := lachesis, dpos, poh;
      this.validatorManager, this.checkpointInterval := validatorManager, checkpointInterval;
      checkpoints, lastCheckpoint, lastBlockHeight, lastFinalizedHeight := map[], 0, 0, 0;
      locked := false;
    }

    ghost function LachesisState(): Finality.LachesisSnapshot
      reads lachesis, lachesis.dag, lachesis.dag.nodes.Values, lachesis.dag.events.Values
      reads lachesis.voting, lachesis.finalizer, lachesis.finalizer.checkpoints.Values
    {
      lachesis.Snapshot()
    }

    ghost function DposState(): ProofOfStake.DposSnapshot
      reads dpos, dpos.All()
    {
      dpos.Snapshot()
    }

    /** The state of all three engines. */
    ghost function Current(): SystemState
      reads lachesis, lachesis.dag, lachesis.dag.nodes.Values, lachesis.dag.events.Values
      reads lachesis.voting, lachesis.finalizer, lachesis.finalizer.checkpoints.Values
      reads dpos, dpos.All(), poh
    {
      SystemState(LachesisState(), DposState(), poh.state, poh.count)
    }

    /** A backup of the three states, which leaves them as they are. */
    method Backup() returns (s: SystemState)
      requires dpos.Valid()
      ensures dpos.Valid() && s == old(Current()) == Current() && ProofOfStake.Restorable(s.dpos)
      ensures lachesis.Mirrors(s.lachesis) && dpos.Mirrors(s.dpos)
      ensures old(lachesis.Orderly()) ==> lachesis.Orderly() && Finality.OrderlySnapshot(s.lachesis)
    {
      hide ProofOfStake.DPoS.Valid, ProofOfStake.DPoS.Snapshot, Finality.Lachesis.Snapshot;
      hide Finality.Lachesis.Orderly, Finality.OrderlySnapshot, Finality.Lachesis.Mirrors, ProofOfStake.DPoS.Mirrors;
      if lachesis.Orderly() {
        lachesis.SnapshotInOrder();
      }
      var l := lachesis.GetState();
      dpos.StaysValid();
      lachesis.SnapshotStays();
      label Between:
      var d := dpos.GetState();
      dpos.StaysValid@Between();
      lachesis.SnapshotStays@Between();
      lachesis.OrderStays();
      s := SystemState(l, d, poh.state, poh.count);
      MirrorsMean(s);
    }

    /** Engines in a saved state mirror it. */
    lemma MirrorsMean(s: SystemState)
      requires dpos.Valid()
      ensures LachesisState() == s.lachesis ==> lachesis.Mirrors(s.lachesis)
      ensures DposState() == s.dpos ==> dpos.Mirrors(s.dpos)
    {
      if LachesisState() == s.lachesis {
        lachesis.SnapshotMeans(s.lachesis);
      }
      if DposState() == s.dpos {
        dpos.SnapshotMeans(s.dpos);
      }
    }

    /** Restores one engine after the other, until one refuses; those behind it stay as they are. */
    method RestoreAll(s: SystemState, now: int) returns (ok: bool)
      requires lachesis.Wired() && dpos.Valid()
      modifies lachesis, lachesis.dag, lachesis.voting, lachesis.finalizer, poh,
               dpos`validators, dpos`activeValidators, dpos`totalStake, dpos`activeTotalStake, dpos`lastBlockHeight,
               dpos`epochDuration, dpos`currentEpoch, dpos`maxSetSize, dpos`registered
      ensures lachesis.Wired()
      ensures ok <==> Acceptable(s, old(poh.count))
      ensures ok <==>
                && 0.0 < s.lachesis.threshold <= 1.0 && s.pohCount >= old(poh.count)
                && (forall h, id :: h in s.lachesis.finalizedEvents && id in s.lachesis.finalizedEvents[h] ==>
                      id in s.lachesis.dag.events)
                && (forall id :: id in s.dpos.active ==> id in s.dpos.validators)
      ensures ok ==> lachesis.Mirrors(s.lachesis) && dpos.Mirrors(s.dpos)
                     && poh.state == s.pohState && poh.count == s.pohCount
      ensures ok && Restorable(s) ==> Current() == s && dpos.Valid()
      ensures ok && Orderly(s) ==> lachesis.Orderly()
      ensures !ok ==> poh.state == old(poh.state) && poh.count == old(poh.count)
      ensures !LachesisAccepts(s) ==> DposState() == old(DposState()) && dpos.Valid()
      ensures LachesisAccepts(s) ==>
                (Finality.Restorable(s.lachesis) ==> LachesisState() == s.lachesis)
                && DposState() == s.dpos.(validators := ProofOfStake.Rekeyed(s.dpos.validators),
                                          active := if forall id :: id in s.dpos.active ==> id in s.dpos.validators
                                                    then s.dpos.active else old(DposState()).active)
    {
      hide ProofOfStake.DPoS.Valid, Finality.Lachesis.Snapshot, Finality.Lachesis.Orderly;
      hide Finality.OrderlySnapshot, Finality.Restorable, Finality.NamesKnownEvents, ProofOfStake.Rekeyed;
      hide Finality.Lachesis.Mirrors, ProofOfStake.DPoS.Mirrors;
      ok := lachesis.RestoreState(s.lachesis);
      dpos.StaysValid();
      if !ok {
        return;
      }
      ok := RestoreBehind(s, now);
    }

    /** The engines behind Lachesis, which stays as it is. */
    method RestoreBehind(s: SystemState, now: int) returns (ok: bool)
      requires lachesis.Wired()
      modifies poh, dpos`validators, dpos`activeValidators, dpos`totalStake, dpos`activeTotalStake,
               dpos`lastBlockHeight, dpos`epochDuration, dpos`currentEpoch, dpos`maxSetSize, dpos`registered
      ensures ok <==> (forall id :: id in s.dpos.active ==> id in s.dpos.validators) && s.pohCount >= old(poh.count)
      ensures LachesisState() == old(LachesisState()) && (old(lachesis.Orderly()) ==> lachesis.Orderly())
      ensures DposState() == s.dpos.(validators := ProofOfStake.Rekeyed(s.dpos.validators),
                                     active := if forall id :: id in s.dpos.active ==> id in s.dpos.validators
                                               then s.dpos.active else old(DposState()).active)
      ensures ok && ProofOfStake.Restorable(s.dpos) ==> DposState() == s.dpos && dpos.Valid()
      ensures if ok then poh.state == s.pohState && poh.count == s.pohCount
              else poh.state == old(poh.state) && poh.count == old(poh.count)
      ensures ok ==> dpos.Mirrors(s.dpos)
      ensures old(lachesis.Mirrors(s.lachesis)) ==> lachesis.Mirrors(s.lachesis)
    {
      hide ProofOfStake.DPoS.Valid, Finality.Lachesis.Snapshot, Finality.Lachesis.Orderly, ProofOfStake.Rekeyed;
      hide Finality.Lachesis.Mirrors, ProofOfStake.DPoS.Mirrors;
      ok := dpos.RestoreState(s.dpos);
      lachesis.SnapshotStays();
      lachesis.OrderStays();
      lachesis.MirrorStays(s.lachesis);
      if !ok {
        return;
      }
      label Dpos:
      var synchronized := poh.Synchronize(s.pohState, s.pohCount, now);
      ok := synchronized.Ok?;
      lachesis.SnapshotStays@Dpos();
      lachesis.OrderStays@Dpos();
      lachesis.MirrorStays@Dpos(s.lachesis);
      dpos.MirrorStays@Dpos(s.dpos);
    }

    /** Restores a backup; the PoH engine has not moved past it.  DPoS and PoH come back in any
        case, Lachesis if its state was restorable. */
    method Rollback(backup: SystemState, now: int)
      requires lachesis.Wired() && poh.count == backup.pohCount && ProofOfStake.Restorable(backup.dpos)
      modifies lachesis, lachesis.dag, lachesis.voting, lachesis.finalizer, poh,
               dpos`validators, dpos`activeValidators, dpos`totalStake, dpos`activeTotalStake, dpos`lastBlockHeight,
               dpos`epochDuration, dpos`currentEpoch, dpos`maxSetSize, dpos`registered
      ensures lachesis.Wired() && dpos.Valid() && DposState() == backup.dpos
      ensures poh.state == backup.pohState && poh.count == backup.pohCount && dpos.Mirrors(backup.dpos)
      ensures Finality.Restorable(backup.lachesis) ==> Current() == backup
      ensures Voting.LegalThreshold(backup.lachesis.threshold) ==>
                (Current() == backup <==> Finality.Restorable(backup.lachesis))
      ensures Finality.OrderlySnapshot(backup.lachesis) ==> lachesis.Orderly()
    {
      hide ProofOfStake.DPoS.Valid, ProofOfStake.DPoS.Snapshot, Finality.Lachesis.Snapshot, Finality.Lachesis.Orderly;
      hide Finality.OrderlySnapshot, Finality.Restorable, Finality.NamesKnownEvents;
      var _ := lachesis.RestoreState(backup.lachesis);
      label Lachesis:
      var _ := dpos.RestoreState(backup.dpos);
      lachesis.SnapshotStays@Lachesis();
      lachesis.OrderStays@Lachesis();
      label Dpos:
      var _ := poh.Synchronize(backup.pohState, backup.pohCount, now);
      dpos.StaysValid@Dpos();
      lachesis.SnapshotStays@Dpos();
      lachesis.OrderStays@Dpos();
      MirrorsMean(backup);
    }

    ghost predicate Consistent(activeNodes: nat)
      reads this, poh, validatorManager
    {
      && poh.count >= lastBlockHeight
      && -1 <= |validatorManager.activeValidators| - activeNodes <= 1
      && (lastBlockHeight > 0 ==> lastFinalizedHeight != 0)
    }

    ghost function ActiveNodes(): set<EventGraph.NodeId>
      reads lachesis.dag, lachesis.dag.nodes.Values
    {
      set v | v in lachesis.dag.nodes && lachesis.dag.nodes[v].active
    }

    lemma ConsistentMeans()
      ensures Consistent(|EventGraph.ActiveStakes(lachesis.dag.Table())|) <==>
                && poh.count >= lastBlockHeight && (lastBlockHeight > 0 ==> lastFinalizedHeight > 0)
                && |ActiveNodes()| - 1 <= |validatorManager.activeValidators| <= |ActiveNodes()| + 1
    {
      var stakes := EventGraph.ActiveStakes(lachesis.dag.Table());
      assert stakes.Keys == ActiveNodes();
      assert |stakes| == |stakes.Keys|;
    }

    method VerifySystemConsistency() returns (ok: bool)
      ensures ok <==> Consistent(|EventGraph.ActiveStakes(lachesis.dag.Table())|)
      ensures ok <==>
                && poh.count >= lastBlockHeight && (lastBlockHeight > 0 ==> lastFinalizedHeight > 0)
                && |ActiveNodes()| - 1 <= |validatorManager.activeValidators| <= |ActiveNodes()| + 1
    {
      ghost var table := lachesis.dag.Table();
      ConsistentMeans();
      if poh.count < lastBlockHeight {
        return false;
      }
      var nodes := lachesis.dag.GetActiveNodes();
      Lists.DistinctSize(nodes, EventGraph.ActiveStakes(table).Keys);
      var difference := |validatorManager.activeValidators| - |nodes|;
      if difference > 1 || difference < -1 {
        return false;
      }
      if lastBlockHeight > 0 && lastFinalizedHeight == 0 {
        return false;
      }
      ok := true;
    }

    // ---------------------------------------------------------------- checkpoints

    /** All engines are in order, and so was every state that was saved. */
    ghost predicate Valid()
      reads this`checkpoints, lachesis`finalizedEvents, lachesis.dag`nodes, lachesis.dag`events
      reads lachesis.dag.events.Values`finalized, lachesis.voting, lachesis.finalizer
      reads Finality.EntrySet(lachesis.finalizedEvents)`finalized
      reads dpos`validators, dpos`activeValidators, dpos`totalStake, dpos`activeTotalStake, dpos`slashLog
      reads dpos`registered, dpos`edits, dpos`rewarded, dpos.All()`stake, dpos.All()`isActive
    {
      && lachesis.Orderly() && dpos.Valid()
      && forall bn :: bn in checkpoints ==> Orderly(checkpoints[bn].state)
    }

    /** No checkpoint is past two intervals, unless it is the one whose saving never returned. */
    ghost predicate Early()
      reads this`checkpoints, this`lastCheckpoint, this`locked
    {
      forall bn :: bn in checkpoints ==> bn <= checkpointInterval * 2 || (locked && bn == lastCheckpoint)
    }

    /** Drops the checkpoints that lie more than two intervals back.  If there can be any, it
        needs the lock, and never returns when that is taken. */
    method CleanOldCheckpoints(currentBlockNumber: nat) returns (done: bool)
      modifies this`checkpoints
      ensures done <==> !locked || currentBlockNumber <= checkpointInterval * 2
      ensures checkpoints == if done then Pruned(old(checkpoints), currentBlockNumber, checkpointInterval)
                             else old(checkpoints)
      ensures done ==> forall bn :: bn in checkpoints <==>
                bn in old(checkpoints)
                && (currentBlockNumber <= 2 * checkpointInterval || bn + 2 * checkpointInterval >= currentBlockNumber)
      ensures forall bn :: bn in checkpoints ==> checkpoints[bn] == old(checkpoints)[bn]
    {
      if currentBlockNumber <= checkpointInterval * 2 {
        return true;
      }
      if locked {
        return false;
      }
      var all, rest := checkpoints, checkpoints.Keys;
      while rest != {}
        invariant rest <= all.Keys
        invariant forall bn :: bn in checkpoints <==>
                    bn in all && (bn in rest || bn >= currentBlockNumber - checkpointInterval * 2)
        invariant forall bn :: bn in checkpoints ==> checkpoints[bn] == all[bn]
      {
        var bn :| bn in rest;
        rest := rest - {bn};
        if bn < currentBlockNumber - checkpointInterval * 2 {
          checkpoints := checkpoints - {bn};
        }
      }
      done := true;
    }

    /** Saves the three states under a block number that the interval divides.  What is saved of
        engines in order is restorable.  Cleaning up takes the lock that is held already: past
        two intervals the call waits for ever, and so does whoever needs the lock after it. */
    method CreateCheckpoint(blockNumber: nat) returns (result: Saving)
      requires checkpointInterval > 0 && dpos.Valid()
      modifies this`checkpoints, this`lastCheckpoint, this`locked
      ensures result == Refused <==> blockNumber % checkpointInterval != 0
      ensures result == Saved <==>
                blockNumber % checkpointInterval == 0 && !old(locked) && blockNumber <= checkpointInterval * 2
      ensures locked <==> old(locked) || result == Waits
      ensures var stored := result != Refused && !old(locked);
              && checkpoints == (if stored then old(checkpoints)[blockNumber := Checkpoint(blockNumber, old(Current()))]
                                 else old(checkpoints))
              && lastCheckpoint == if stored then blockNumber else old(lastCheckpoint)
      ensures result != Refused && !old(locked) ==>
                && blockNumber in checkpoints
                && var s := checkpoints[blockNumber].state;
                   lachesis.Mirrors(s.lachesis) && dpos.Mirrors(s.dpos)
                   && poh.state == s.pohState && poh.count == s.pohCount
      ensures result == Saved ==> checkpoints == Pruned(checkpoints, blockNumber, checkpointInterval)
      ensures old(Early()) ==> Early()
      ensures dpos.Valid() && Current() == old(Current()) && (old(Valid()) ==> Valid())
    {
      hide ProofOfStake.DPoS.Valid, ProofOfStake.DPoS.Snapshot, Finality.Lachesis.Snapshot;
      hide Finality.Lachesis.Orderly, Finality.OrderlySnapshot, Finality.Lachesis.Mirrors, ProofOfStake.DPoS.Mirrors;
      if blockNumber % checkpointInterval != 0 {
        return Refused;
      }
      var s := Backup();
      if locked {
        return Waits;
      }
      label BackedUp:
      locked := true;
      checkpoints := checkpoints[blockNumber := Checkpoint(blockNumber, s)];
      lastCheckpoint := blockNumber;
      var done := CleanOldCheckpoints(blockNumber);
      if done {
        locked := false;
      }
      dpos.StaysValid@BackedUp();
      lachesis.SnapshotStays@BackedUp();
      lachesis.OrderStays@BackedUp();
      lachesis.MirrorStays@BackedUp(s.lachesis);
      dpos.MirrorStays@BackedUp(s.dpos);
      result := if done then Saved else Waits;
    }

    // ---------------------------------------------------------------- recovery

    /** Goes to the last checkpoint or stays where it is: the three engines end all at the
        checkpoint or all as before, even when a restore fails half way.  DPoS and PoH never
        mix; Lachesis does not either if its state was restorable, as it is in an engine in
        order. */
    method RecoverFromError(now: int) returns (outcome: Outcome)
      requires lachesis.Wired() && dpos.Valid()
      modifies this`lastBlockHeight, lachesis, lachesis.dag, lachesis.voting, lachesis.finalizer, poh,
               dpos`validators, dpos`activeValidators, dpos`totalStake, dpos`activeTotalStake, dpos`lastBlockHeight,
               dpos`epochDuration, dpos`currentEpoch, dpos`maxSetSize, dpos`registered
      ensures outcome == Waiting <==> locked
      ensures outcome == NoCheckpoint <==> !locked && lastCheckpoint !in checkpoints
      ensures outcome == RolledBack <==>
                !locked && lastCheckpoint in checkpoints
                && !Acceptable(checkpoints[lastCheckpoint].state, old(poh.count))
      ensures outcome !in {Recovered, Inconsistent} ==>
                dpos.Valid() && DposState() == old(DposState())
                && poh.state == old(poh.state) && poh.count == old(poh.count)
      ensures outcome in {NoCheckpoint, Waiting} ==> Current() == old(Current())
      ensures outcome == RolledBack && Finality.Restorable(old(LachesisState())) ==> Current() == old(Current())
      ensures outcome == RolledBack && Voting.LegalThreshold(old(LachesisState()).threshold) ==>
                (Current() == old(Current()) <==> Finality.Restorable(old(LachesisState())))
      ensures outcome in {Recovered, Inconsistent} && Restorable(checkpoints[lastCheckpoint].state) ==>
                Current() == checkpoints[lastCheckpoint].state && dpos.Valid()
      ensures outcome in {Recovered, Inconsistent} ==>
                && var s := checkpoints[lastCheckpoint].state;
                   lachesis.Mirrors(s.lachesis) && dpos.Mirrors(s.dpos)
                   && poh.state == s.pohState && poh.count == s.pohCount
      ensures outcome !in {Recovered, Inconsistent} ==> dpos.SameFields()
      ensures lastBlockHeight == if outcome in {Recovered, Inconsistent}
                                 then checkpoints[lastCheckpoint].blockNumber
                                 else old(lastBlockHeight)
      ensures outcome == Recovered ==> Consistent(|EventGraph.ActiveStakes(lachesis.dag.Table())|)
      ensures outcome == Inconsistent ==> !Consistent(|EventGraph.ActiveStakes(lachesis.dag.Table())|)
      ensures old(Valid()) ==>
                && Valid()
                && Current() == if outcome in {Recovered, Inconsistent} then checkpoints[lastCheckpoint].state
                                else old(Current())
    {
      hide ProofOfStake.DPoS.Valid, ProofOfStake.DPoS.Snapshot, Finality.Lachesis.Snapshot;
      hide Finality.Lachesis.Orderly, Finality.OrderlySnapshot, Finality.Restorable, Finality.NamesKnownEvents;
      hide Finality.Lachesis.Mirrors, ProofOfStake.DPoS.Mirrors, ProofOfStake.DPoS.SameFields;
      dpos.NothingDiffers();
      if locked {
        return Waiting;
      }
      if lastCheckpoint !in checkpoints {
        return NoCheckpoint;
      }
      dpos.BalancedIsKeyed();
      var ck := checkpoints[lastCheckpoint];
      var backup := Backup();
      OrderlyIsRestorable(backup);
      OrderlyIsRestorable(ck.state);
      var restored := RestoreAll(ck.state, now);
      if !restored {
        Rollback(backup, now);
        dpos.BalancedIsKeyed();
        dpos.SameStateMeans();
        return RolledBack;
      }
      var consistent := Settle(ck);
      outcome := if consistent then Recovered else Inconsistent;
    }

    /** The end of a recovery: the height goes back, and the consistency is checked. */
    method Settle(ck: Checkpoint) returns (consistent: bool)
      modifies this`lastBlockHeight
      ensures lastBlockHeight == ck.blockNumber
      ensures consistent <==> Consistent(|EventGraph.ActiveStakes(lachesis.dag.Table())|)
      ensures LachesisState() == old(LachesisState()) && DposState() == old(DposState())
      ensures poh.state == old(poh.state) && poh.count == old(poh.count)
      ensures (old(lachesis.Orderly()) ==> lachesis.Orderly()) && (old(dpos.Valid()) ==> dpos.Valid())
      ensures old(lachesis.Mirrors(ck.state.lachesis)) ==> lachesis.Mirrors(ck.state.lachesis)
      ensures old(dpos.Mirrors(ck.state.dpos)) ==> dpos.Mirrors(ck.state.dpos)
    {
      hide ProofOfStake.DPoS.Valid, ProofOfStake.DPoS.Snapshot, Finality.Lachesis.Snapshot;
      hide Finality.Lachesis.Orderly, Finality.Lachesis.Mirrors, ProofOfStake.DPoS.Mirrors;
      lastBlockHeight := ck.blockNumber;
      consistent := VerifySystemConsistency();
      lachesis.SnapshotStays();
      lachesis.OrderStays();
      lachesis.MirrorStays(ck.state.lachesis);
      dpos.MirrorStays(ck.state.dpos);
      dpos.SnapshotStays();
      if old(dpos.Valid()) {
        dpos.StaysValid();
      }
    }
  }

  lemma OrderlyIsRestorable(s: SystemState)
    ensures Orderly(s) ==> Restorable(s)
    ensures Finality.OrderlySnapshot(s.lachesis) ==> Finality.Restorable(s.lachesis)
  {
  }

  /** The checkpoints that lie at most two intervals back. */
  function Pruned(all: map<nat, Checkpoint>, current: nat, interval: nat): map<nat, Checkpoint> {
    map bn | bn in all && (current <= interval * 2 || bn >= current - interval * 2) :: all[bn]
  }
}
