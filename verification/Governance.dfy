/** Proposals from creation to execution (consensus/governance/governance.go). */
module Governance {
  import opened Tally
  import opened Lists
  import ProofOfStake
  import opened Wrappers
  import Finality

  const SECOND := 1_000_000_000
  const MINUTE := 60 * SECOND
  const BACKDATING := 10_000_000

  datatype Kind = ConsensusChange | ParameterChange | UpgradeProposal

  /** The preimage of the hashed ID.  Description and data stand side by side, so they count
      only joined. */
  datatype ProposalId = ProposalId(startTime: int, text: string, creator: Id)

  /** Why an operation refused. */
  datatype Answer = Done | NotFound | WrongState | Ended | NotActive | NotAuthorized | Failed

  /** The decoded payloads. */
  datatype ConsensusData = ConsensusData(gossipDelay: int, votingThreshold: real, maxSetSize: int)
  datatype ParameterData = ParameterData(epochDuration: nat, minStake: nat)
  datatype UpgradeData = UpgradeData(version: string, height: nat)

  // ------------------------------------------------------------------ the transition table

  predicate Allowed(from: Status, to: Status) {
    match from
    case Pending => to == Active
    case Active => to == Passed || to == Rejected
    case Passed => to == Executed
    case Rejected => false
    case Executed => false
  }

  function StatusName(s: Status): string {
    match s
    case Pending => "pending"
    case Active => "active"
    case Passed => "passed"
    case Rejected => "rejected"
    case Executed => "executed"
  }

  function IsValidStateTransition(current: string, next: string): bool {
    var transitions: map<string, seq<string>> := map[
      "pending" := ["active"],
      "active" := ["passed", "rejected"],
      "passed" := ["executed"],
      "rejected" := [],
      "executed" := []];
    current in transitions && next in transitions[current]
  }

  /** Status changes follow the table that the finality engine checks proposal states with. */
  lemma TableIsAllowed(from: Status, to: Status)
    ensures IsValidStateTransition(StatusName(from), StatusName(to)) <==> Allowed(from, to)
  {
    assert |"pending"| == |"expired"|;
    assert "pending"[0] == 'p' && "active"[0] == 'a' && "passed"[1] == 'a' && "pending"[1] == 'e';
    assert "rejected"[0] == 'r' && "executed"[0] == 'e' && "passed"[0] == 'p';
  }

  /** A proposal's past: from pending, each status allowed after the one before. */
  ghost predicate IsHistory(path: seq<Status>) {
    && path != [] && path[0] == Pending
    && forall i :: 0 < i < |path| ==> Allowed(path[i - 1], path[i])
  }

  /** Nothing comes back: a status occurs at most once in a history. */
  lemma {:induction false} HistoryNeverReturns(path: seq<Status>, i: nat, j: nat)
    requires IsHistory(path) && i < j < |path|
    ensures Rank(path[i]) < Rank(path[j]) && path[i] != path[j]
    decreases j
  {
    assert Allowed(path[j - 1], path[j]);
    if i < j - 1 {
      HistoryNeverReturns(path, i, j - 1);
    }
  }

  function Rank(s: Status): nat {
    match s
    case Pending => 0
    case Active => 1
    case Passed => 2
    case Rejected => 2
    case Executed => 3
  }

  lemma PendingIsFirst(path: seq<Status>, i: nat)
    requires IsHistory(path) && i < |path| && path[i] == Pending
    ensures i == 0
  {
    if i > 0 {
      HistoryNeverReturns(path, 0, i);
    }
  }

  /** Executed is only ever reached over passed. */
  lemma ExecutedHasPassed(path: seq<Status>)
    requires IsHistory(path) && path[|path| - 1] == Executed
    ensures path == [Pending, Active, Passed, Executed]
  {
    var n := |path|;
    assert Allowed(path[n - 2], path[n - 1]);
    assert Allowed(path[n - 3], path[n - 2]);
    assert Allowed(path[n - 4], path[n - 3]);
    PendingIsFirst(path, n - 4);
  }

  // ------------------------------------------------------------------ proposals

  class Proposal {
    const id: ProposalId
    const kind: Kind
    const startTime: int
    const endTime: int
    const data: string
    const creator: Id
    var status: Status
    var votes: map<Id, bool>

    /** Every status so far, the ballot it was decided on, and how often it was carried out. */
    ghost var history: seq<Status>
    ghost var ballot: Option<Ballot>
    ghost var executions: nat

    constructor (id: ProposalId, kind: Kind, startTime: int, endTime: int, data: string, creator: Id)
      ensures this.id == id && this.kind == kind && this.startTime == startTime && this.endTime == endTime
      ensures this.data == data && this.creator == creator
      ensures Sane() && status == Pending && votes == map[] && history == [Pending] && executions == 0
    {
      this.id, this.kind, this.startTime, this.endTime := id, kind, startTime, endTime;
      this.data, this.creator := data, creator;
      status, votes := Pending, map[];
      history, ballot, executions := [Pending], None, 0;
    }

    /** A proposal took the allowed way to where it is and was decided by the ballot it holds. */
    ghost predicate Orderly()
      reads this`status, this`votes, this`history, this`ballot
    {
      && IsHistory(history) && history[|history| - 1] == status
      && (status == Pending ==> votes == map[])
      && (Rank(status) < 2 <==> ballot == None)
      && (ballot.Some? ==>
            ballot.value.votes == votes && Outcome(ballot.value) == (if status == Rejected then Rejected else Passed))
    }

    /** ... and it was carried out at most once, when it was executed. */
    ghost predicate Sane()
      reads this`status, this`votes, this`history, this`ballot, this`executions
    {
      Orderly() && executions <= if status == Executed then 1 else 0
    }

    method Move(next: Status)
      requires Sane() && Allowed(status, next) && Rank(next) < 2
      modifies this`status, this`history
      ensures Sane() && status == next && history == old(history) + [next]
    {
      status := next;
      history := history + [next];
    }

    method Decide(next: Status, ghost decided: Ballot)
      requires Sane() && status == Active && decided.votes == votes && next == Outcome(decided)
      modifies this`status, this`history, this`ballot
      ensures Sane() && status == next && history == old(history) + [next] && ballot == Some(decided)
    {
      status := next;
      history := history + [next];
      ballot := Some(decided);
    }

    method Cast(validator: Id, vote: bool)
      requires Sane() && status == Active
      modifies this`votes
      ensures Sane() && votes == old(votes)[validator := vote]
    {
      votes := votes[validator := vote];
    }

    /** Whether it was carried out just before does not matter here; twice would. */
    method MarkExecuted()
      requires Orderly() && executions <= 1 && status == Passed
      modifies this`status, this`history
      ensures Sane() && status == Executed && history == old(history) + [Executed]
    {
      status := Executed;
      history := history + [Executed];
    }
  }

  /** Whatever passed or was executed had, at its decision, at least 66% of the active
      validators behind it, unless there was no stake at all. */
  lemma PassedHadMajority(p: Proposal)
    requires p.Sane() && (p.status == Passed || p.status == Executed)
    ensures p.ballot.Some? && p.ballot.value.votes == p.votes
    ensures var b := p.ballot.value;
            b.total > 0 ==> 100 * |Voters(p.votes, true) * b.active| >= 66 * |b.active|
  {
    var b := p.ballot.value;
    if b.total > 0 {
      PassingNeedsMajority(b);
    }
  }

  /** Where one round of processing leaves a proposal. */
  ghost function AfterRound(status: Status, startTime: int, endTime: int, now: int, b: Ballot): Status {
    if status == Pending && now > startTime then Active
    else if status == Active && now > endTime then Outcome(b)
    else status
  }

  /** Whether carrying a proposal out succeeds. */
  predicate Executable(p: Proposal, height: nat, decode: Decoders) {
    match p.kind
    case ConsensusChange => p.data == "" || decode.consensus(p.data).Some?
    case ParameterChange => decode.parameters(p.data).Some?
    case UpgradeProposal =>
      match decode.upgrade(p.data)
      case None => false
      case Some(u) => u.version != "" && u.height > height && decode.schedules(u.version, u.height)
  }

  /** The payload decoders and the upgrade scheduler, which are not part of this model. */
  datatype Decoders = Decoders(
    consensus: string -> Option<ConsensusData>,
    parameters: string -> Option<ParameterData>,
    upgrade: string -> Option<UpgradeData>,
    schedules: (string, nat) -> bool)

  // ------------------------------------------------------------------ the registry

  class Governance {
    const dpos: ProofOfStake.DPoS
    const lachesis: Finality.Lachesis
    const decode: Decoders

    var proposals: map<ProposalId, Proposal>
    var votingDuration: int
    var superValidators: set<Id>

    ghost function All(): set<Proposal>
      reads this`proposals
    {
      proposals.Values
    }

    ghost predicate Valid()
      reads this`proposals, All()`status, All()`votes, All()`history, All()`ballot, All()`executions
    {
      forall id :: id in proposals ==> proposals[id].id == id && proposals[id].Sane()
    }

    /** The ballot that votes would be decided on now. */
    ghost function BallotOf(votes: map<Id, bool>): Ballot
      reads dpos`activeValidators, dpos`totalStake
    {
      Ballot(votes, ProofOfStake.IdsOf(dpos.activeValidators), StakeNow())
    }

    /** The total stake, which is never negative while the DPoS books balance. */
    ghost function StakeNow(): nat
      reads dpos`totalStake
    {
      if dpos.totalStake >= 0 then dpos.totalStake else 0
    }

    /** Where all proposals stand. */
    ghost function Standings(): map<ProposalId, Standing>
      reads this`proposals, All()`status, All()`history, All()`executions
    {
      map id | id in proposals :: Standing(proposals[id].status, proposals[id].history, proposals[id].executions)
    }

    constructor (dpos: ProofOfStake.DPoS, lachesis: Finality.Lachesis, votingDuration: int, decode: Decoders)
      ensures this.dpos == dpos && this.lachesis == lachesis && this.decode == decode
      ensures Valid() && proposals == map[] && superValidators == {} && this.votingDuration == votingDuration
    {
      this.dpos, this.lachesis, this.decode := dpos, lachesis, decode;
      proposals, superValidators, this.votingDuration := map[], {}, votingDuration;
    }

    /** A new pending proposal takes its ID over: one with the same ID would be dropped. */
    method CreateProposal(kind: Kind, description: string, data: string, creator: Id, now: int) returns (id: ProposalId)
      requires Valid()
      modifies this`proposals
      ensures Valid() && id == ProposalId(now - 10_000_000, description + data, creator)
      ensures id in proposals && fresh(proposals[id]) && proposals == old(proposals)[id := proposals[id]]
      ensures var p := proposals[id];
              p.status == Pending && p.history == [Pending] && p.kind == kind && p.data == data && p.creator == creator
              && p.startTime == now - 10_000_000 && p.endTime == p.startTime + votingDuration
              && p.id == id && p.votes == map[] && p.executions == 0
    {
      var startTime := now - BACKDATING;
      var endTime := startTime + votingDuration;
      id := ProposalId(startTime, description + data, creator);
      var p := new Proposal(id, kind, startTime, endTime, data, creator);
      proposals := proposals[id := p];
    }

    /** Only the creator or a super validator can withdraw, and only before the decision. */
    method CancelProposal(id: ProposalId, canceler: Id) returns (answer: Answer)
      requires Valid()
      modifies this`proposals
      ensures Valid()
      ensures answer == NotFound <==> id !in old(proposals)
      ensures answer == WrongState <==> id in old(proposals) && old(proposals)[id].status !in {Pending, Active}
      ensures answer == Done <==> id in old(proposals) && old(proposals)[id].status in {Pending, Active}
                                  && (old(proposals)[id].creator == canceler || canceler in superValidators)
      ensures proposals == if answer == Done then old(proposals) - {id} else old(proposals)
    {
      if id !in proposals {
        return NotFound;
      }
      var p := proposals[id];
      if p.status != Pending && p.status != Active {
        return WrongState;
      }
      if p.creator != canceler {
        if canceler !in superValidators {
          return NotAuthorized;
        }
      }
      proposals := proposals - {id};
      answer := Done;
    }

    /** Records or replaces one active validator's vote on an active proposal. */
    method Vote(id: ProposalId, validator: Id, vote: bool, now: int) returns (answer: Answer)
      requires Valid() && dpos.Valid()
      modifies All()`votes
      ensures Valid() && dpos.Valid()
      ensures answer == NotFound <==> id !in proposals
      ensures answer == Done <==> id in proposals && proposals[id].status == Active && now <= proposals[id].endTime
                                  && validator in ProofOfStake.IdsOf(dpos.activeValidators)
      ensures answer == Done <==> id in proposals && proposals[id].status == Active && now <= proposals[id].endTime
                                  && exists v :: v in dpos.activeValidators && v.id == validator
      ensures forall other :: other in proposals ==>
                proposals[other].votes == if answer == Done && other == id
                                          then old(proposals[id].votes)[validator := vote]
                                          else old(proposals[other].votes)
    {
      hide ProofOfStake.DPoS.Valid, Proposal.Sane, Proposal.Orderly;
      if id !in proposals {
        return NotFound;
      }
      var p := proposals[id];
      if p.status != Active {
        return WrongState;
      }
      if now > p.endTime {
        return Ended;
      }
      var active := dpos.IsActiveValidator(validator);
      ProofOfStake.IdsAre(dpos.activeValidators, validator);
      if !active {
        return NotActive;
      }
      OthersApart(id);
      p.Cast(validator, vote);
      dpos.StaysValid();
      answer := Done;
    }

    // ---------------------------------------------------------------- deciding

    /** Adds the stakes of both sides up, voter by voter in any order, and decides. */
    method FinalizeProposal(p: Proposal)
      requires dpos.Valid() && p.Sane() && p.status == Active
      modifies p`status, p`history, p`ballot
      ensures p.Sane() && p.status == Outcome(BallotOf(p.votes)) && p.ballot == Some(BallotOf(p.votes))
      ensures dpos.Valid() && p.history == old(p.history) + [p.status]
    {
      hide ProofOfStake.DPoS.Valid, Outcome;
      var yesStake, noStake := CountVotes(p.votes);
      var totalStake := dpos.totalStake;
      var passed := 100 * yesStake >= 66 * totalStake;
      ByTotals(BallotOf(p.votes), yesStake, passed);
      label Counted:
      p.Decide(if passed then Passed else Rejected, BallotOf(p.votes));
      dpos.StaysValid@Counted();
    }

    /** The stakes of the two sides; the governance query reports the same numbers. */
    method CountVotes(votes: map<Id, bool>) returns (yesStake: int, noStake: int)
      requires dpos.Valid()
      ensures yesStake == Counted(BallotOf(votes), true) && noStake == Counted(BallotOf(votes), false)
      ensures dpos.Valid() && yesStake + noStake <= dpos.totalStake == BallotOf(votes).total
    {
      hide Voters, Share, Counted, SideOf, ProofOfStake.DPoS.Valid;
      dpos.ActiveCount();
      ghost var b := BallotOf(votes);
      NobodyYet(b);
      ghost var share, seen: set<Id> := Share(b.total, |b.active|), {};
      yesStake, noStake := 0, 0;
      var rest := votes.Keys;
      while rest != {}
        invariant rest + seen == votes.Keys && rest !! seen && dpos.Valid() && b == BallotOf(votes)
        invariant yesStake == SideOf(votes, b.active, seen, share, true)
        invariant noStake == SideOf(votes, b.active, seen, share, false)
      {
        var v :| v in rest;
        rest := rest - {v};
        var stake := Weigh(v, b);
        OneVoter(votes, b.active, seen, v, share);
        if votes[v] {
          yesStake := yesStake + stake;
        } else {
          noStake := noStake + stake;
        }
        seen := seen + {v};
      }
      AllVoters(b, seen);
      SidesWithinTotal(b);
    }

    method Weigh(v: Id, ghost b: Ballot) returns (stake: int)
      requires dpos.Valid() && b == BallotOf(b.votes)
      ensures dpos.Valid() && b == BallotOf(b.votes)
      ensures stake == if v in b.active then Share(b.total, |b.active|) else 0
    {
      dpos.ActiveCount();
      stake := dpos.GetValidatorStake(v);
    }

    /** Opens what is due and decides what has ended. */
    method ProcessProposals(now: int)
      requires Valid() && dpos.Valid()
      modifies All()`status, All()`history, All()`ballot
      ensures Valid() && dpos.Valid() && Standings() == old(Rounded(now))
      ensures forall id :: id in proposals ==>
                var p := proposals[id];
                var ballot := Ballot(p.votes, ProofOfStake.IdsOf(dpos.activeValidators), StakeNow());
                && (old(p.status) == Pending ==> p.status == if now > p.startTime then Active else Pending)
                && (old(p.status) == Active ==> p.status == if now > p.endTime then Outcome(ballot) else Active)
                && (old(p.status) !in {Pending, Active} ==> p.status == old(p.status))
    {
      hide ProofOfStake.DPoS.Valid, Valid, Standings, Rounded;
      Round(now);
      RoundMeans(now);
    }

    /** The loop. */
    method Round(now: int)
      requires Valid() && dpos.Valid()
      modifies All()`status, All()`history, All()`ballot
      ensures Valid() && dpos.Valid() && Standings() == old(Rounded(now))
    {
      hide Proposal.Sane, IsHistory, AfterRound, BallotOf, ProofOfStake.DPoS.Valid, Moved, Valid, Standings, Partly;
      ghost var before, rounded := Standings(), Rounded(now);
      var rest := proposals.Keys;
      AllStand();
      PartlyNothing(before, rounded);
      while rest != {}
        invariant rest <= proposals.Keys && Valid() && dpos.Valid() && Standings() == Partly(before, rounded, rest)
      {
        var id :| id in rest;
        PartlyOne(before, rounded, rest, id);
        ProcessAt(id, now);
        rest := rest - {id};
      }
      PartlyAll(before, rounded);
    }

    /** What one round does to each proposal. */
    twostate lemma RoundMeans(new now: int)
      requires proposals == old(proposals) && Standings() == old(Rounded(now))
      requires dpos.activeValidators == old(dpos.activeValidators) && dpos.totalStake == old(dpos.totalStake)
      requires forall id :: id in proposals ==> proposals[id].votes == old(proposals[id].votes)
      ensures forall id :: id in proposals ==>
                var p := proposals[id];
                var ballot := Ballot(p.votes, ProofOfStake.IdsOf(dpos.activeValidators), StakeNow());
                && (old(p.status) == Pending ==> p.status == if now > p.startTime then Active else Pending)
                && (old(p.status) == Active ==> p.status == if now > p.endTime then Outcome(ballot) else Active)
                && (old(p.status) !in {Pending, Active} ==> p.status == old(p.status))
    {
      forall id | id in proposals
        ensures proposals[id].status ==
                  AfterRound(old(proposals[id].status), proposals[id].startTime, proposals[id].endTime, now,
                             Ballot(proposals[id].votes, ProofOfStake.IdsOf(dpos.activeValidators), StakeNow()))
      {
        assert Standings()[id].status == proposals[id].status;
        assert old(Rounded(now))[id] == Standings()[id];
      }
    }

    /** The body of the loop. */
    method ProcessAt(id: ProposalId, now: int)
      requires Valid() && dpos.Valid() && id in proposals
      modifies All()`status, All()`history, All()`ballot
      ensures Valid() && dpos.Valid()
      ensures var p := proposals[id];
              Standings() == old(Standings())[id := Moved(old(Standings()[id]),
                AfterRound(old(Standings()[id]).status, p.startTime, p.endTime, now, BallotOf(p.votes)))]
    {
      hide Proposal.Sane, IsHistory, AfterRound, BallotOf, ProofOfStake.DPoS.Valid, Moved;
      ProcessOne(proposals[id], now);
    }

    method ProcessOne(p: Proposal, now: int)
      requires dpos.Valid() && p.Sane()
      modifies p`status, p`history, p`ballot
      ensures dpos.Valid() && p.Sane()
      ensures Standing(p.status, p.history, p.executions) ==
              Moved(old(Standing(p.status, p.history, p.executions)),
                    AfterRound(old(p.status), p.startTime, p.endTime, now, BallotOf(p.votes)))
    {
      match p.status {
        case Pending =>
          if now > p.startTime {
            p.Move(Active);
            dpos.StaysValid();
          }
        case Active =>
          if now > p.endTime {
            FinalizeProposal(p);
          }
        case _ =>
      }
    }

    /** Where all proposals stand after one round of processing. */
    ghost function Rounded(now: int): map<ProposalId, Standing>
      reads this`proposals, All()`status, All()`history, All()`executions, All()`votes
      reads dpos`activeValidators, dpos`totalStake
    {
      map id | id in proposals ::
        Moved(Standing(proposals[id].status, proposals[id].history, proposals[id].executions),
              AfterRound(proposals[id].status, proposals[id].startTime, proposals[id].endTime, now,
                         BallotOf(proposals[id].votes)))
    }

    lemma AllStand()
      ensures Standings().Keys == proposals.Keys
      ensures forall id :: id in proposals ==>
                Standings()[id] == Standing(proposals[id].status, proposals[id].history, proposals[id].executions)
    {
    }

    // ---------------------------------------------------------------- executing

    /** The settings that proposals can change. */
    ghost function Current(): Settings
      reads lachesis`votingThreshold, lachesis`gossip, dpos`maxSetSize, dpos`epochDuration
    {
      Settings(lachesis.gossip.baseDelay, lachesis.votingThreshold, dpos.maxSetSize, dpos.epochDuration)
    }

    /** What carrying a proposal out does, kind by kind. */
    twostate predicate Carried(new p: Proposal, height: nat, ok: bool)
      reads lachesis`votingThreshold, lachesis`gossip, dpos`maxSetSize, dpos`epochDuration
    {
      && (p.kind == ConsensusChange ==>
            var change := decode.consensus(p.data);
            && (ok <==> p.data == "" || change.Some?)
            && (p.data == "" || change == None ==> Current() == old(Current()))
            && (p.data != "" && change.Some? ==>
                  && lachesis.gossip.baseDelay == (if change.value.gossipDelay > 0 then change.value.gossipDelay
                                                   else old(lachesis.gossip.baseDelay))
                  && lachesis.votingThreshold == (if 0.0 < change.value.votingThreshold <= 1.0
                                                  then change.value.votingThreshold
                                                  else old(lachesis.votingThreshold))
                  && dpos.maxSetSize == (if change.value.maxSetSize > 0 then change.value.maxSetSize
                                         else old(dpos.maxSetSize))
                  && dpos.epochDuration == old(dpos.epochDuration)))
      && (p.kind == ParameterChange ==>
            var change := decode.parameters(p.data);
            && (ok <==> change.Some?)
            && dpos.epochDuration == (if change.Some? && change.value.epochDuration > 0
                                      then change.value.epochDuration else old(dpos.epochDuration))
            && lachesis.gossip.baseDelay == old(lachesis.gossip.baseDelay)
            && lachesis.votingThreshold == old(lachesis.votingThreshold) && dpos.maxSetSize == old(dpos.maxSetSize))
      && (p.kind == UpgradeProposal ==>
            var upgrade := decode.upgrade(p.data);
            && (ok <==> upgrade.Some? && upgrade.value.version != "" && upgrade.value.height > height
                        && decode.schedules(upgrade.value.version, upgrade.value.height))
            && Current() == old(Current()))
    }

    /** Carries a proposal out, without looking at its status, and counts that when it succeeds. */
    method Perform(p: Proposal, height: nat) returns (ok: bool)
      requires dpos.Valid()
      modifies p`executions, lachesis`votingThreshold, lachesis`gossip, lachesis.voting`threshold, dpos`epochDuration,
               dpos`maxSetSize, dpos`activeValidators, dpos`activeTotalStake, dpos.All()`isActive
      ensures dpos.Valid() && dpos.Stakes() == old(dpos.Stakes())
      ensures ok <==> Executable(p, height, decode)
      ensures Current() == if ok then Changed(p, decode, old(Current())) else old(Current())
      ensures p.executions == old(p.executions) + if ok then 1 else 0
      ensures Carried(p, height, ok)
    {
      ok := Dispatch(p, height);
      if ok {
        label Dispatched:
        p.executions := p.executions + 1;
        dpos.StaysValid@Dispatched();
      }
    }

    /** Chooses by the kind of the proposal what to do. */
    method Dispatch(p: Proposal, height: nat) returns (ok: bool)
      requires dpos.Valid()
      modifies lachesis`votingThreshold, lachesis`gossip, lachesis.voting`threshold, dpos`epochDuration,
               dpos`maxSetSize, dpos`activeValidators, dpos`activeTotalStake, dpos.All()`isActive
      ensures dpos.Valid() && dpos.Stakes() == old(dpos.Stakes())
      ensures ok <==> Executable(p, height, decode)
      ensures Current() == if ok then Changed(p, decode, old(Current())) else old(Current())
    {
      hide ProofOfStake.DPoS.Valid, ProofOfStake.DPoS.Stakes, BestOf;
      match p.kind {
        case ConsensusChange =>
          if |p.data| == 0 {
            return true;
          }
          ok := PerformConsensusChange(decode.consensus(p.data));
        case ParameterChange =>
          var change := decode.parameters(p.data);
          if change == None {
            return false;
          }
          dpos.SetEpochDuration(change.value.epochDuration);
          ok := true;
        case UpgradeProposal =>
          var upgrade := decode.upgrade(p.data);
          if upgrade == None {
            return false;
          }
          if upgrade.value.version == "" {
            return false;
          }
          if upgrade.value.height <= height {
            return false;
          }
          ok := decode.schedules(upgrade.value.version, upgrade.value.height);
      }
    }

    method PerformConsensusChange(change: Option<ConsensusData>) returns (ok: bool)
      requires dpos.Valid()
      modifies lachesis`votingThreshold, lachesis`gossip, lachesis.voting`threshold,
               dpos`maxSetSize, dpos`activeValidators, dpos`activeTotalStake, dpos.All()`isActive
      ensures dpos.Valid() && dpos.Stakes() == old(dpos.Stakes())
      ensures ok <==> change.Some?
      ensures Current() == if ok then WithConsensus(change.value, old(Current())) else old(Current())
    {
      hide ProofOfStake.DPoS.Valid, ProofOfStake.DPoS.Stakes, BestOf;
      if change == None {
        return false;
      }
      var c := change.value;
      if c.gossipDelay > 0 {
        lachesis.SetGossipDelay(c.gossipDelay);
      }
      if c.votingThreshold > 0.0 && c.votingThreshold <= 1.0 {
        lachesis.SetVotingThreshold(c.votingThreshold);
      }
      dpos.StaysValid();
      if c.maxSetSize > 0 {
        dpos.SetSetSize(c.maxSetSize);
      }
      ok := true;
    }

    /** Carries the proposal out and marks it when that succeeded. */
    method Attempt(id: ProposalId, height: nat) returns (ok: bool)
      requires Valid() && dpos.Valid() && id in proposals && proposals[id].status == Passed
      modifies All()`status, All()`history, All()`executions,
               lachesis`votingThreshold, lachesis`gossip, lachesis.voting`threshold, dpos`epochDuration,
               dpos`maxSetSize, dpos`activeValidators, dpos`activeTotalStake, dpos.All()`isActive
      ensures Valid() && dpos.Valid()
      ensures ok <==> Executable(proposals[id], height, decode)
      ensures Standings() == if ok then old(Standings())[id := CarriedOut(old(Standings())[id], true)]
                             else old(Standings())
      ensures Current() == if ok then Changed(proposals[id], decode, old(Current())) else old(Current())
    {
      hide ProofOfStake.DPoS.Valid, ProofOfStake.DPoS.Stakes, Changed, Executable, Proposal.Orderly, Current, Carried;
      hide Valid, ValidBut, Standings, Proposal.Sane;
      OthersApart(id);
      ok := Perform(proposals[id], height);
      PerformedOnly(id, ok);
      if ok {
        label Performed:
        Mark(proposals[id]);
        dpos.StaysValid@Performed();
        SameSettings@Performed();
      }
    }

    lemma OthersApart(id: ProposalId)
      requires Valid() && id in proposals
      ensures forall x :: x in proposals && x != id ==> proposals[x] != proposals[id]
    {
    }

    /** Carrying a passed proposal out touches nothing of the proposals but its own count. */
    twostate lemma PerformedOnly(new id: ProposalId, ok: bool)
      requires old(Valid()) && proposals == old(proposals) && id in proposals && proposals[id].status == Passed
      requires forall x :: x in proposals ==> proposals[x].status == old(proposals[x].status)
      requires forall x :: x in proposals ==> proposals[x].votes == old(proposals[x].votes)
      requires forall x :: x in proposals ==> proposals[x].history == old(proposals[x].history)
      requires forall x :: x in proposals ==> proposals[x].ballot == old(proposals[x].ballot)
      requires forall x :: x in proposals && x != id ==> proposals[x].executions == old(proposals[x].executions)
      requires proposals[id].executions == old(proposals[id].executions) + if ok then 1 else 0
      ensures ValidBut(proposals[id]) && proposals[id].Orderly() && proposals[id].executions <= 1
      ensures id in Standings() && id in old(Standings()) && proposals[id].id == id
      ensures Standings() == old(Standings())[id := old(Standings())[id].(executions := Standings()[id].executions)]
      ensures Standings()[id].executions == old(Standings())[id].executions + if ok then 1 else 0
      ensures !ok ==> Valid() && Standings() == old(Standings())
    {
      hide Proposal.Orderly;
    }

    twostate lemma SameSettings()
      requires unchanged(dpos) && unchanged(lachesis)
      ensures Current() == old(Current())
    {
    }

    /** All proposals are sane but for one. */
    ghost predicate ValidBut(p: Proposal)
      reads this`proposals, All()`status, All()`votes, All()`history, All()`ballot, All()`executions
    {
      forall id :: id in proposals ==> proposals[id].id == id && (proposals[id] != p ==> proposals[id].Sane())
    }

    method Mark(p: Proposal)
      requires ValidBut(p) && p.id in proposals && proposals[p.id] == p
      requires p.Orderly() && p.executions <= 1 && p.status == Passed
      modifies p`status, p`history
      ensures Valid()
      ensures p.id in old(Standings())
              && Standings() == old(Standings())[p.id := CarriedOut(old(Standings())[p.id], false)]
    {
      hide IsHistory, Outcome, Proposal.Orderly;
      p.MarkExecuted();
    }

    method ExecuteProposal(id: ProposalId, height: nat) returns (answer: Answer)
      requires Valid() && dpos.Valid()
      modifies All()`status, All()`history, All()`executions,
               lachesis`votingThreshold, lachesis`gossip, lachesis.voting`threshold, dpos`epochDuration,
               dpos`maxSetSize, dpos`activeValidators, dpos`activeTotalStake, dpos.All()`isActive
      ensures Valid() && dpos.Valid()
      ensures answer == NotFound <==> id !in proposals
      ensures answer == WrongState <==> id in proposals && old(proposals[id].status) != Passed
      ensures answer == Done <==>
                id in proposals && old(proposals[id].status) == Passed && Executable(proposals[id], height, decode)
      ensures Standings() == if answer == Done then old(Standings())[id := CarriedOut(old(Standings())[id], true)]
                             else old(Standings())
      ensures Current() == if answer == Done then Changed(proposals[id], decode, old(Current())) else old(Current())
      ensures forall other :: other in proposals ==>
                var p := proposals[other];
                var done := answer == Done && other == id;
                && p.status == (if done then Executed else old(p.status))
                && p.executions == old(p.executions) + (if done then 1 else 0)
                && p.history == old(p.history) + (if done then [Executed] else [])
    {
      hide ProofOfStake.DPoS.Valid, Valid, Standings, Changed, Executable, Current;
      if id !in proposals {
        return NotFound;
      }
      if proposals[id].status != Passed {
        return WrongState;
      }
      var ok := Attempt(id, height);
      answer := if ok then Done else Failed;
      StandingsMean();
    }

    /** Where the proposals stand is what their fields say. */
    twostate lemma StandingsMean()
      requires proposals == old(proposals)
      ensures Standings().Keys == old(Standings()).Keys == proposals.Keys
      ensures forall id :: id in proposals ==>
                && Standings()[id] == Standing(proposals[id].status, proposals[id].history, proposals[id].executions)
                && old(Standings())[id] == Standing(old(proposals[id].status), old(proposals[id].history),
                                                    old(proposals[id].executions))
    {
    }

    /** Executes whatever has passed, in any order; failures stay passed and are counted.  The
        settings change in the order of execution. */
    method ExecutePassedProposals(height: nat) returns (errors: nat, ghost order: seq<ProposalId>)
      requires Valid() && dpos.Valid()
      modifies All()`status, All()`history, All()`executions,
               lachesis`votingThreshold, lachesis`gossip, lachesis.voting`threshold, dpos`epochDuration,
               dpos`maxSetSize, dpos`activeValidators, dpos`activeTotalStake, dpos.All()`isActive
      ensures Valid() && dpos.Valid()
      ensures var able := Passing(old(Standings()), proposals, height, decode, true);
              && Standings() == AfterExecuting(old(Standings()), able, able)
              && Lists.Distinct(order) && Elements(order) == able
              && Current() == InOrder(order, proposals, decode, old(Current()))
      ensures errors == |Passing(old(Standings()), proposals, height, decode, false)|
      ensures forall other :: other in proposals ==>
                var p := proposals[other];
                var done := old(p.status) == Passed && Executable(p, height, decode);
                && p.status == (if done then Executed else old(p.status))
                && p.executions == old(p.executions) + (if done then 1 else 0)
                && p.history == old(p.history) + (if done then [Executed] else [])
    {
      hide ProofOfStake.DPoS.Valid, Valid, Standings, Current, Progress, Passing, Executable, InOrder, AfterExecuting;
      hide Failures;
      ghost var start := Start(Standings(), Current(), proposals, decode, height);
      AllStand();
      ProgressStarts(start);
      errors, order := ExecuteAll(start, height);
      ProgressEnds(start, Able(start), Standings(), Current(), order);
      FailuresEnd(start, errors);
      StandingsMean();
      ExecutedAre(start.standings, proposals, height, decode);
    }

    /** The loop. */
    method ExecuteAll(ghost start: Start, height: nat) returns (errors: nat, ghost order: seq<ProposalId>)
      requires Valid() && dpos.Valid() && StartedHere(start, height)
      requires Progress(start, {}, Standings(), Current(), [])
      modifies All()`status, All()`history, All()`executions,
               lachesis`votingThreshold, lachesis`gossip, lachesis.voting`threshold, dpos`epochDuration,
               dpos`maxSetSize, dpos`activeValidators, dpos`activeTotalStake, dpos.All()`isActive
      ensures Valid() && dpos.Valid()
      ensures Progress(start, Able(start), Standings(), Current(), order) && Failures(start, {}, errors)
    {
      hide ProofOfStake.DPoS.Valid, Valid, Standings, Current, Progress, Passing, Failures, Able, Stuck;
      ghost var able := Able(start);
      errors, order := 0, [];
      var rest := proposals.Keys;
      AbleAreListed(start);
      FailuresStart(start, rest);
      assert able - rest == {};
      while rest != {}
        invariant rest <= proposals.Keys && Valid() && dpos.Valid()
        invariant Progress(start, able - rest, Standings(), Current(), order) && Failures(start, rest, errors)
      {
        var id :| id in rest;
        errors, order := ExecuteNext(start, rest, id, height, errors, order);
        rest := rest - {id};
      }
      assert able - rest == able;
    }

    /** The body of the loop. */
    method ExecuteNext(ghost start: Start, ghost rest: set<ProposalId>, id: ProposalId, height: nat,
                       errors: nat, ghost order: seq<ProposalId>)
      returns (more: nat, ghost next: seq<ProposalId>)
      requires Valid() && dpos.Valid() && id in rest && id in proposals && StartedHere(start, height)
      requires Progress(start, Able(start) - rest, Standings(), Current(), order)
      requires Failures(start, rest, errors)
      modifies All()`status, All()`history, All()`executions,
               lachesis`votingThreshold, lachesis`gossip, lachesis.voting`threshold, dpos`epochDuration,
               dpos`maxSetSize, dpos`activeValidators, dpos`activeTotalStake, dpos.All()`isActive
      ensures Valid() && dpos.Valid()
      ensures Progress(start, Able(start) - (rest - {id}), Standings(), Current(), next)
      ensures Failures(start, rest - {id}, more)
    {
      hide ProofOfStake.DPoS.Valid, Valid, Standings, Current, Progress, Passing, Executable, Changed, CarriedOut,
           Failures;
      FewerLeft(Able(start), rest, id);
      FailuresMore(start, rest, errors, id);
      ProgressMore(start, Able(start) - rest, Standings(), Current(), order, id);
      AbleMeans(start, id);
      AllStand();
      more, next := errors, order;
      if proposals[id].status == Passed {
        var ok := Attempt(id, height);
        if ok {
          next := order + [id];
        } else {
          more := errors + 1;
        }
      }
    }

    ghost predicate StartedHere(start: Start, height: nat)
      reads this`proposals
    {
      start.proposals == proposals && start.decode == decode && start.height == height
        && start.standings.Keys == proposals.Keys
    }

    // ---------------------------------------------------------------- the test-mode round

    /** Decides active proposals that have votes without waiting for their end. */
    method ForceFinalize() returns (forced: bool)
      requires Valid() && dpos.Valid()
      modifies All()`status, All()`history, All()`ballot
      ensures Valid() && dpos.Valid() && Standings() == old(ForcedFrom(Standings()))
      ensures forced <==> old(AnyToForce(Standings()))
      ensures ForcedNow(forced)
    {
      hide Proposal.Sane, IsHistory, Forced, BallotOf, ProofOfStake.DPoS.Valid, Moved, Valid, Standings, Partly;
      ghost var before, after := Standings(), ForcedFrom(Standings());
      var rest := proposals.Keys;
      AllStand();
      PartlyNothing(before, after);
      forced := false;
      while rest != {}
        invariant rest <= proposals.Keys && Valid() && dpos.Valid() && Standings() == Partly(before, after, rest)
        invariant forced <==> exists id :: id in before && id !in rest && ToForce(before[id], proposals[id])
      {
        var id :| id in rest;
        PartlyOne(before, after, rest, id);
        var decided := ForceAt(id);
        rest := rest - {id};
        forced := forced || decided;
      }
      PartlyAll(before, after);
      ForcingMeans();
    }

    /** Exactly the active proposals with votes are decided; `forced` says whether there is one. */
    twostate predicate ForcedNow(new forced: bool)
      requires proposals == old(proposals)
      reads this`proposals, All()`status, All()`votes, dpos`activeValidators, dpos`totalStake
    {
      && (forced <==>
            exists id :: id in proposals && old(proposals[id].status) == Active && old(proposals[id].votes) != map[])
      && (forall id :: id in proposals ==>
            var p := proposals[id];
            p.status == if old(p.status) == Active && p.votes != map[]
                        then Outcome(Ballot(p.votes, ProofOfStake.IdsOf(dpos.activeValidators), StakeNow()))
                        else old(p.status))
    }

    twostate lemma ForcingMeans()
      requires proposals == old(proposals) && Standings() == old(ForcedFrom(Standings()))
      requires dpos.activeValidators == old(dpos.activeValidators) && dpos.totalStake == old(dpos.totalStake)
      requires forall id :: id in proposals ==> proposals[id].votes == old(proposals[id].votes)
      ensures ForcedNow(old(AnyToForce(Standings())))
    {
      forall id | id in proposals
        ensures proposals[id].status ==
                  Forced(old(proposals[id].status),
                         Ballot(proposals[id].votes, ProofOfStake.IdsOf(dpos.activeValidators), StakeNow()))
      {
        assert Standings()[id].status == proposals[id].status;
        assert old(Standings())[id].status == old(proposals[id].status);
        assert old(ForcedFrom(Standings()))[id] == Standings()[id];
      }
    }

    /** The body of the loop. */
    method ForceAt(id: ProposalId) returns (decided: bool)
      requires Valid() && dpos.Valid() && id in proposals
      modifies All()`status, All()`history, All()`ballot
      ensures Valid() && dpos.Valid()
      ensures Standings() == old(Standings())[id := Moved(old(Standings()[id]),
                               Forced(old(Standings()[id]).status, BallotOf(proposals[id].votes)))]
      ensures decided <==> ToForce(old(Standings()[id]), proposals[id])
    {
      hide Proposal.Sane, IsHistory, Counted, ProofOfStake.DPoS.Valid;
      var p := proposals[id];
      decided := p.status == Active && |p.votes| > 0;
      if decided {
        FinalizeProposal(p);
      }
      assert Standings() == old(Standings())[id := Standing(p.status, p.history, p.executions)];
    }

    /** Whether some proposal would be decided early. */
    ghost predicate AnyToForce(standings: map<ProposalId, Standing>)
      reads this`proposals, All()`votes
    {
      exists id :: id in standings && id in proposals && ToForce(standings[id], proposals[id])
    }

    /** Where all proposals stand after deciding early what is active and has votes. */
    ghost function ForcedFrom(standings: map<ProposalId, Standing>): map<ProposalId, Standing>
      reads this`proposals, All()`votes, dpos`activeValidators, dpos`totalStake
    {
      map id | id in proposals && id in standings ::
        Moved(standings[id], Forced(standings[id].status, BallotOf(proposals[id].votes)))
    }

    /** Carries out whatever has passed and marks it executed even when that failed. */
    method ExecuteForced(height: nat) returns (ghost order: seq<ProposalId>)
      requires Valid() && dpos.Valid()
      modifies All()`status, All()`history, All()`executions,
               lachesis`votingThreshold, lachesis`gossip, lachesis.voting`threshold, dpos`epochDuration,
               dpos`maxSetSize, dpos`activeValidators, dpos`activeTotalStake, dpos.All()`isActive
      ensures Valid() && dpos.Valid()
      ensures var able := Passing(old(Standings()), proposals, height, decode, true);
              && Standings() == AfterExecuting(old(Standings()), HavePassed(old(Standings())), able)
              && Lists.Distinct(order) && Elements(order) == able
              && Current() == InOrder(order, proposals, decode, old(Current()))
    {
      hide ProofOfStake.DPoS.Valid, Valid, Standings, Current, Progress, Passing, Executable, InOrder, AfterExecuting;
      hide HavePassed;
      ghost var start := Start(Standings(), Current(), proposals, decode, height);
      ghost var passed := HavePassed(start.standings);
      order := [];
      var rest := proposals.Keys;
      AllStand();
      ProgressStarts(start);
      AbleAreListed(start);
      assert passed - rest == {};
      while rest != {}
        invariant rest <= proposals.Keys && Valid() && dpos.Valid()
        invariant Progress(start, passed - rest, Standings(), Current(), order)
      {
        var id :| id in rest;
        order := ForceNext(start, rest, id, height, order);
        rest := rest - {id};
      }
      assert passed - rest == passed;
      ProgressEnds(start, passed, Standings(), Current(), order);
    }

    /** The body of the loop. */
    method ForceNext(ghost start: Start, ghost rest: set<ProposalId>, id: ProposalId, height: nat,
                     ghost order: seq<ProposalId>)
      returns (ghost next: seq<ProposalId>)
      requires Valid() && dpos.Valid() && id in rest && id in proposals && StartedHere(start, height)
      requires Progress(start, HavePassed(start.standings) - rest, Standings(), Current(), order)
      modifies All()`status, All()`history, All()`executions,
               lachesis`votingThreshold, lachesis`gossip, lachesis.voting`threshold, dpos`epochDuration,
               dpos`maxSetSize, dpos`activeValidators, dpos`activeTotalStake, dpos.All()`isActive
      ensures Valid() && dpos.Valid()
      ensures Progress(start, HavePassed(start.standings) - (rest - {id}), Standings(), Current(), next)
    {
      hide ProofOfStake.DPoS.Valid, Valid, Standings, Current, Progress, Passing, Executable, Changed, CarriedOut,
           HavePassed;
      FewerLeft(HavePassed(start.standings), rest, id);
      ProgressMore(start, HavePassed(start.standings) - rest, Standings(), Current(), order, id);
      AbleMeans(start, id);
      AllStand();
      next := order;
      if proposals[id].status == Passed {
        var ok := AttemptAnyway(id, height);
        if ok {
          next := order + [id];
        }
      }
    }

    /** Carries the proposal out and marks it in any case. */
    method AttemptAnyway(id: ProposalId, height: nat) returns (ok: bool)
      requires Valid() && dpos.Valid() && id in proposals && proposals[id].status == Passed
      modifies All()`status, All()`history, All()`executions,
               lachesis`votingThreshold, lachesis`gossip, lachesis.voting`threshold, dpos`epochDuration,
               dpos`maxSetSize, dpos`activeValidators, dpos`activeTotalStake, dpos.All()`isActive
      ensures Valid() && dpos.Valid()
      ensures ok <==> Executable(proposals[id], height, decode)
      ensures Standings() == old(Standings())[id := CarriedOut(old(Standings())[id], ok)]
      ensures Current() == if ok then Changed(proposals[id], decode, old(Current())) else old(Current())
    {
      hide ProofOfStake.DPoS.Valid, ProofOfStake.DPoS.Stakes, Changed, Executable, Proposal.Orderly, Current, Carried;
      hide Valid, ValidBut, Standings, Proposal.Sane;
      OthersApart(id);
      ok := Perform(proposals[id], height);
      PerformedOnly(id, ok);
      label Performed:
      Mark(proposals[id]);
      dpos.StaysValid@Performed();
      SameSettings@Performed();
    }

    /** One tick of the periodic run in test mode. */
    method TestTick(now: int, height: nat) returns (ghost order: seq<ProposalId>)
      requires Valid() && dpos.Valid()
      modifies All()`status, All()`history, All()`ballot, All()`executions,
               lachesis`votingThreshold, lachesis`gossip, lachesis.voting`threshold, dpos`epochDuration,
               dpos`maxSetSize, dpos`activeValidators, dpos`activeTotalStake, dpos.All()`isActive
      ensures Valid() && dpos.Valid()
      ensures !old(AnyToForce(Rounded(now))) ==>
                Standings() == old(Rounded(now)) && Current() == old(Current()) && order == []
      ensures old(AnyToForce(Rounded(now))) ==>
                var decided := old(ForcedFrom(Rounded(now)));
                var able := Passing(decided, proposals, height, decode, true);
                && Standings() == AfterExecuting(decided, HavePassed(decided), able)
                && Lists.Distinct(order) && Elements(order) == able
                && Current() == InOrder(order, proposals, decode, old(Current()))
    {
      hide ProofOfStake.DPoS.Valid, Valid, Standings, Current, Rounded, ForcedFrom, AnyToForce, ForcedNow, Passing;
      hide HavePassed;
      hide Executable, InOrder, AfterExecuting;
      ghost var rounded := Rounded(now);
      RoundedKeys(now);
      Round(now);
      NothingForced(rounded);
      var forced := ForceFinalize();
      order := [];
      if forced {
        order := ExecuteForced(height);
      }
    }

    lemma RoundedKeys(now: int)
      ensures Rounded(now).Keys == proposals.Keys
    {
    }

    lemma NothingForced(standings: map<ProposalId, Standing>)
      requires standings.Keys == proposals.Keys
      ensures !AnyToForce(standings) ==> ForcedFrom(standings) == standings
    {
    }

    /** Forgets decided proposals whose voting ended at least a minute ago; the age asked for
        only switches the cleaning on. */
    method CleanupOldProposals(age: int, now: int) returns (removed: nat)
      requires Valid()
      modifies this`proposals
      ensures Valid()
      ensures proposals == if age < 60_000_000_000 then old(proposals) else old(proposals) - old(Outdated(now))
      ensures removed == if age < 60_000_000_000 then 0 else |old(Outdated(now))|
      ensures forall id :: id in old(proposals) ==>
                var p := old(proposals)[id];
                (id !in proposals <==> age >= 60_000_000_000 && p.status in {Rejected, Executed}
                                       && now >= p.endTime + 60_000_000_000)
    {
      hide Valid, Outdated;
      removed := 0;
      if age < MINUTE {
        return;
      }
      OutdatedMeans(now);
      ghost var outdated := Outdated(now);
      var all, rest := proposals, proposals.Keys;
      assert outdated - rest == {} && all - {} == all;
      while rest != {}
        invariant rest <= all.Keys && proposals == all - (outdated - rest) && removed == |outdated - rest|
      {
        var id :| id in rest;
        CleansNext(all, outdated, rest, id);
        rest := rest - {id};
        var p := all[id];
        if (p.status == Rejected || p.status == Executed) && now - p.endTime >= MINUTE {
          proposals := proposals - {id};
          removed := removed + 1;
        }
      }
      assert outdated - rest == outdated;
      FewerStayValid();
      CleanedMeans(now);
    }

    twostate lemma CleanedMeans(new now: int)
      requires proposals == old(proposals) - old(Outdated(now))
      requires forall id :: id in old(proposals) ==> old(proposals)[id].status == old(proposals[id].status)
      ensures forall id :: id in old(proposals) ==>
                var p := old(proposals)[id];
                (id !in proposals <==> p.status in {Rejected, Executed} && now >= p.endTime + 60_000_000_000)
    {
    }

    lemma OutdatedMeans(now: int)
      ensures Outdated(now) <= proposals.Keys
      ensures forall id :: id in proposals ==> (id in Outdated(now) <==>
                (proposals[id].status == Rejected || proposals[id].status == Executed)
                && now - proposals[id].endTime >= MINUTE)
    {
    }

    twostate lemma FewerStayValid()
      requires old(Valid())
      requires forall id :: id in proposals ==> id in old(proposals) && proposals[id] == old(proposals)[id]
      requires forall id :: id in proposals ==> unchanged(proposals[id])
      ensures Valid()
    {
    }

    ghost function Outdated(now: int): set<ProposalId>
      reads this`proposals, All()`status
    {
      set id | id in proposals
               && (proposals[id].status == Rejected || proposals[id].status == Executed)
               && now - proposals[id].endTime >= MINUTE
    }

    method ChangeVotingDuration(duration: int) returns (ok: bool)
      modifies this`votingDuration
      ensures ok <==> 1_800_000_000_000 <= duration < 604_800_000_000_000
      ensures votingDuration == if ok then duration else old(votingDuration)
    {
      if duration < 30 * MINUTE || duration >= 7 * 24 * 60 * MINUTE {
        return false;
      }
      votingDuration := duration;
      ok := true;
    }
  }

  /** Where a proposal stands: its status, the way there, and how often it was carried out. */
  datatype Standing = Standing(status: Status, history: seq<Status>, executions: nat)

  function Moved(st: Standing, next: Status): Standing {
    if next == st.status then st else Standing(next, st.history + [next], st.executions)
  }

  function CarriedOut(st: Standing, success: bool): Standing {
    Standing(Executed, st.history + [Executed], st.executions + if success then 1 else 0)
  }

  /** Where forced deciding leaves a proposal. */
  ghost function Forced(status: Status, b: Ballot): Status {
    if status == Active && b.votes != map[] then Outcome(b) else status
  }

  ghost predicate ToForce(st: Standing, p: Proposal)
    reads p`votes
  {
    st.status == Active && p.votes != map[]
  }

  // ------------------------------------------------------------------ loops over all proposals

  /** Some are still as before, the others as after. */
  ghost function Partly(before: map<ProposalId, Standing>, after: map<ProposalId, Standing>, rest: set<ProposalId>)
    : map<ProposalId, Standing>
    requires before.Keys == after.Keys
  {
    map id | id in before :: if id in rest then before[id] else after[id]
  }

  lemma PartlyNothing(before: map<ProposalId, Standing>, after: map<ProposalId, Standing>)
    requires before.Keys == after.Keys
    ensures Partly(before, after, before.Keys) == before
  {
  }

  lemma PartlyOne(before: map<ProposalId, Standing>, after: map<ProposalId, Standing>, rest: set<ProposalId>,
                  id: ProposalId)
    requires before.Keys == after.Keys && id in rest && id in before
    ensures id in Partly(before, after, rest) && Partly(before, after, rest)[id] == before[id]
    ensures Partly(before, after, rest - {id}) == Partly(before, after, rest)[id := after[id]]
  {
  }

  lemma PartlyAll(before: map<ProposalId, Standing>, after: map<ProposalId, Standing>)
    requires before.Keys == after.Keys
    ensures Partly(before, after, {}) == after
  {
  }

  /** What has passed. */
  ghost function HavePassed(standings: map<ProposalId, Standing>): set<ProposalId> {
    set id | id in standings && standings[id].status == Passed
  }

  /** What has passed and can, or cannot, be carried out. */
  ghost function Passing(standings: map<ProposalId, Standing>, proposals: map<ProposalId, Proposal>, height: nat,
                         decode: Decoders, can: bool): set<ProposalId>
  {
    set id | id in standings && id in proposals && standings[id].status == Passed
             && Executable(proposals[id], height, decode) == can
  }

  ghost function AfterExecuting(standings: map<ProposalId, Standing>, ids: set<ProposalId>, able: set<ProposalId>)
    : map<ProposalId, Standing>
  {
    map id | id in standings :: if id in ids then CarriedOut(standings[id], id in able) else standings[id]
  }

  /** What executing all that can be carried out does to each. */
  lemma ExecutedAre(standings: map<ProposalId, Standing>, proposals: map<ProposalId, Proposal>, height: nat,
                    decode: Decoders)
    requires standings.Keys == proposals.Keys
    ensures var able := Passing(standings, proposals, height, decode, true);
            var after := AfterExecuting(standings, able, able);
            forall id :: id in proposals ==>
              after[id] == if standings[id].status == Passed && Executable(proposals[id], height, decode)
                           then Standing(Executed, standings[id].history + [Executed], standings[id].executions + 1)
                           else standings[id]
    ensures var able := Passing(standings, proposals, height, decode, true);
            var after := AfterExecuting(standings, HavePassed(standings), able);
            forall id :: id in proposals ==>
              after[id] == if standings[id].status != Passed then standings[id]
                           else Standing(Executed, standings[id].history + [Executed], standings[id].executions
                                         + if Executable(proposals[id], height, decode) then 1 else 0)
  {
  }

  /** Carrying out one more changes the settings once more, by that proposal alone. */
  lemma InOrderNext(order: seq<ProposalId>, proposals: map<ProposalId, Proposal>, decode: Decoders, s: Settings,
                    id: ProposalId)
    requires id in proposals
    ensures InOrder([], proposals, decode, s) == s
    ensures InOrder(order + [id], proposals, decode, s) ==
              Changed(proposals[id], decode, InOrder(order, proposals, decode, s))
  {
    assert (order + [id])[..|order|] == order;
  }

  /** The settings after carrying proposals out one after the other. */
  ghost function InOrder(order: seq<ProposalId>, proposals: map<ProposalId, Proposal>, decode: Decoders, s: Settings)
    : Settings
  {
    if order == [] then s
    else
      var last, before := order[|order| - 1], InOrder(order[..|order| - 1], proposals, decode, s);
      if last in proposals then Changed(proposals[last], decode, before) else before
  }

  /** What a run over all proposals starts from. */
  datatype Start = Start(standings: map<ProposalId, Standing>, settings: Settings,
                         proposals: map<ProposalId, Proposal>, decode: Decoders, height: nat)

  ghost function Able(start: Start): set<ProposalId> {
    Passing(start.standings, start.proposals, start.height, start.decode, true)
  }

  ghost function Stuck(start: Start): set<ProposalId> {
    Passing(start.standings, start.proposals, start.height, start.decode, false)
  }

  lemma AbleAreListed(start: Start)
    ensures Able(start) <= start.standings.Keys && Stuck(start) <= start.standings.Keys
    ensures HavePassed(start.standings) <= start.standings.Keys
    ensures Able(start) <= HavePassed(start.standings)
  {
  }

  lemma AbleMeans(start: Start, id: ProposalId)
    requires id in start.standings && id in start.proposals
    ensures id in HavePassed(start.standings) <==> start.standings[id].status == Passed
    ensures id in Able(start) <==>
              start.standings[id].status == Passed && Executable(start.proposals[id], start.height, start.decode)
    ensures id in Stuck(start) <==>
              start.standings[id].status == Passed && !Executable(start.proposals[id], start.height, start.decode)
  {
  }

  /** Where the run stands when `done` have been marked: those of them that could be carried out
      have been, once each, and the settings follow their order. */
  ghost predicate Progress(start: Start, done: set<ProposalId>, standings: map<ProposalId, Standing>,
                           settings: Settings, order: seq<ProposalId>)
  {
    && standings == AfterExecuting(start.standings, done, Able(start))
    && Lists.Distinct(order) && Elements(order) == done * Able(start)
    && settings == InOrder(order, start.proposals, start.decode, start.settings)
  }

  lemma ProgressStarts(start: Start)
    ensures Progress(start, {}, start.standings, start.settings, [])
  {
  }

  lemma ProgressMore(start: Start, done: set<ProposalId>, standings: map<ProposalId, Standing>, settings: Settings,
                     order: seq<ProposalId>, id: ProposalId)
    requires Progress(start, done, standings, settings, order)
    requires id !in done && id in start.standings && id in start.proposals
    ensures id in standings && standings[id] == start.standings[id]
    ensures var able := id in Able(start);
            Progress(start, done + {id}, standings[id := CarriedOut(standings[id], able)],
                     if able then Changed(start.proposals[id], start.decode, settings) else settings,
                     if able then order + [id] else order)
  {
    if id in Able(start) {
      assert (order + [id])[..|order|] == order;
      assert id !in Elements(order) && Elements(order + [id]) == Elements(order) + {id};
    }
  }

  lemma ProgressEnds(start: Start, done: set<ProposalId>, standings: map<ProposalId, Standing>, settings: Settings,
                     order: seq<ProposalId>)
    requires Progress(start, done, standings, settings, order) && Able(start) <= done
    ensures standings == AfterExecuting(start.standings, done, Able(start))
    ensures Lists.Distinct(order) && Elements(order) == Able(start)
    ensures settings == InOrder(order, start.proposals, start.decode, start.settings)
  {
    assert done * Able(start) == Able(start);
  }

  /** The failures so far, with `rest` still to come. */
  ghost predicate Failures(start: Start, rest: set<ProposalId>, errors: nat) {
    errors == |Stuck(start) - rest|
  }

  lemma FailuresStart(start: Start, rest: set<ProposalId>)
    requires rest == start.standings.Keys
    ensures Failures(start, rest, 0)
  {
    assert Stuck(start) - rest == {};
  }

  lemma FailuresMore(start: Start, rest: set<ProposalId>, errors: nat, id: ProposalId)
    requires Failures(start, rest, errors) && id in rest
    ensures Failures(start, rest - {id}, errors + if id in Stuck(start) then 1 else 0)
  {
    FewerLeft(Stuck(start), rest, id);
  }

  lemma FailuresEnd(start: Start, errors: nat)
    requires Failures(start, {}, errors)
    ensures errors == |Stuck(start)|
  {
    assert Stuck(start) - {} == Stuck(start);
  }

  lemma FewerLeft<T>(some: set<T>, rest: set<T>, x: T)
    requires x in rest
    ensures some - (rest - {x}) == if x in some then some - rest + {x} else some - rest
    ensures |some - (rest - {x})| == |some - rest| + if x in some then 1 else 0
  {
    assert some - (rest - {x}) == if x in some then some - rest + {x} else some - rest;
  }

  lemma CleansNext<K, V>(all: map<K, V>, some: set<K>, rest: set<K>, x: K)
    requires x in rest
    ensures |some - (rest - {x})| == |some - rest| + if x in some then 1 else 0
    ensures all - (some - (rest - {x})) == if x in some then all - (some - rest) - {x} else all - (some - rest)
  {
    FewerLeft(some, rest, x);
  }

  datatype Settings = Settings(gossipDelay: int, votingThreshold: real, maxSetSize: nat, epochDuration: nat)

  /** Each value that is given and legal replaces the current one. */
  function WithConsensus(c: ConsensusData, s: Settings): Settings {
    Settings(if c.gossipDelay > 0 then c.gossipDelay else s.gossipDelay,
             if 0.0 < c.votingThreshold <= 1.0 then c.votingThreshold else s.votingThreshold,
             if c.maxSetSize > 0 then c.maxSetSize else s.maxSetSize,
             s.epochDuration)
  }

  /** What carrying a proposal out makes of the settings. */
  function Changed(p: Proposal, decode: Decoders, s: Settings): Settings {
    match p.kind
    case ConsensusChange => if p.data == "" || decode.consensus(p.data) == None then s
                            else WithConsensus(decode.consensus(p.data).value, s)
    case ParameterChange =>
      if decode.parameters(p.data) == None || decode.parameters(p.data).value.epochDuration == 0 then s
      else s.(epochDuration := decode.parameters(p.data).value.epochDuration)
    case UpgradeProposal => s
  }

  lemma ByTotals(b: Ballot, yesStake: int, passed: bool)
    requires yesStake == Counted(b, true) && (passed <==> 100 * yesStake >= 66 * b.total)
    ensures Outcome(b) == if passed then Passed else Rejected
  {
  }

  /** What the votes seen so far count for one side. */
  ghost function SideOf(votes: map<Id, bool>, active: set<Id>, seen: set<Id>, share: nat, vote: bool): nat {
    |Voters(votes, vote) * active * seen| * share
  }

  lemma NobodyYet(b: Ballot)
    ensures forall share, vote :: SideOf(b.votes, b.active, {}, share, vote) == 0
  {
  }

  lemma OneVoter(votes: map<Id, bool>, active: set<Id>, seen: set<Id>, v: Id, share: nat)
    requires v in votes && v !in seen
    ensures forall vote ::
              SideOf(votes, active, seen + {v}, share, vote) ==
              SideOf(votes, active, seen, share, vote) + (if votes[v] == vote && v in active then share else 0)
  {
    forall vote
      ensures SideOf(votes, active, seen + {v}, share, vote) ==
              SideOf(votes, active, seen, share, vote) + (if votes[v] == vote && v in active then share else 0)
    {
      var before := Voters(votes, vote) * active * seen;
      if votes[v] == vote && v in active {
        assert Voters(votes, vote) * active * (seen + {v}) == before + {v};
        Distribute(|before|, 1, share);
      } else {
        assert Voters(votes, vote) * active * (seen + {v}) == before;
      }
    }
  }

  lemma AllVoters(b: Ballot, seen: set<Id>)
    requires seen == b.votes.Keys
    ensures forall vote :: SideOf(b.votes, b.active, seen, Share(b.total, |b.active|), vote) == Counted(b, vote)
  {
    forall vote ensures SideOf(b.votes, b.active, seen, Share(b.total, |b.active|), vote) == Counted(b, vote) {
      assert Voters(b.votes, vote) * b.active * seen == Voters(b.votes, vote) * b.active;
    }
  }
}
