/** The finalizer and the Lachesis engine: what becomes final, what is recorded, and the
    snapshot they are restored from (consensus/diamantefinality/finalize.go, lachesis.go). */
module Finality {
  import opened Bytes
  import opened Sums
  import opened EventGraph
  import opened DagRuns
  import opened DagStore
  import opened Lists
  import opened Voting
  import opened FinalityRuns

  function InfoSeq(s: seq<Event>): (r: seq<EventInfo>)
    ensures |r| == |s| && forall i :: 0 <= i < |s| ==> r[i] == s[i].info
  {
    seq(|s|, i requires 0 <= i < |s| => s[i].info)
  }

  function InfoMap(m: map<nat, Event>): map<nat, EventInfo> {
    map h | h in m :: m[h].info
  }

  function RecordInfos(m: map<nat, seq<Event>>): Record {
    map h | h in m :: InfoSeq(m[h])
  }

  function EntriesAt(m: map<nat, seq<Event>>, h: nat): seq<Event> {
    if h in m then m[h] else []
  }

  function AddEntry(m: map<nat, seq<Event>>, e: Event): map<nat, seq<Event>> {
    m[e.info.height := EntriesAt(m, e.info.height) + [e]]
  }

  function AddEntries(m: map<nat, seq<Event>>, added: seq<Event>): map<nat, seq<Event>> {
    if added == [] then m
    else
      var k := |added| - 1;
      AddEntry(AddEntries(m, added[..k]), added[k])
  }

  lemma AddEntriesNone(m: map<nat, seq<Event>>)
    ensures AddEntries(m, []) == m
  {
  }

  lemma AddEntriesNext(m: map<nat, seq<Event>>, added: seq<Event>, e: Event)
    ensures AddEntries(m, added + [e]) == AddEntry(AddEntries(m, added), e)
  {
    assert (added + [e])[..|added|] == added;
  }

  function AddCheckpoint(m: map<nat, Event>, e: Event): map<nat, Event> {
    if e.info.height % CHECKPOINT_INTERVAL == 0 then m[e.info.height := e] else m
  }

  /** Only multiples of 1000 get a checkpoint. */
  lemma AddCheckpointIs(m: map<nat, Event>, e: Event)
    ensures AddCheckpoint(m, e) == if e.info.height % 1000 == 0 then m[e.info.height := e] else m
  {
  }

  /** An event is appended to the list of its height. */
  lemma AddEntryIs(m: map<nat, seq<Event>>, e: Event)
    ensures var h, m' := e.info.height, AddEntry(m, e);
            h in m' && m'[h] == (if h in m then m[h] else []) + [e] && m' - {h} == m - {h}
  {
  }

  lemma CheckpointInfos(m: map<nat, Event>, e: Event)
    ensures InfoMap(AddCheckpoint(m, e)) == WithCheckpoint(InfoMap(m), e.info)
  {
  }

  lemma EntryInfos(m: map<nat, seq<Event>>, e: Event)
    ensures RecordInfos(AddEntry(m, e)) == AppendEvent(RecordInfos(m), e.info)
  {
    var h := e.info.height;
    assert InfoSeq(EntriesAt(m, h) + [e]) == At(RecordInfos(m), h) + [e.info];
  }

  /** Appending due events one after the other is a scan. */
  lemma {:induction false} ScanRecords(s: FinalityState, m: map<nat, seq<Event>>, added: seq<Event>)
    requires s.record == RecordInfos(m)
    requires forall e :: e in added ==> e.info in s.graph.Values && Due(s, e.info)
    ensures ScanRecord(s, RecordInfos(AddEntries(m, added)))
  {
    if added != [] {
      var k := |added| - 1;
      ScanRecords(s, m, added[..k]);
      EntryInfos(AddEntries(m, added[..k]), added[k]);
      ScanAppends(s, RecordInfos(AddEntries(m, added[..k])), added[k].info);
    }
  }

  datatype FinalizerSnapshot = FinalizerSnapshot(
    finalized: map<EventId, bool>, checkpoints: map<nat, EventRecord>)

  datatype GossipState = GossipState(peers: set<NodeId>, baseDelay: int, currentDelay: int, networkLoad: real)

  datatype LachesisSnapshot = LachesisSnapshot(
    dag: DagSnapshot,
    gossip: GossipState,
    threshold: real,
    finalizer: FinalizerSnapshot,
    finalizedEvents: map<nat, seq<EventId>>)

  function IdSeq(s: seq<Event>): (r: seq<EventId>)
    ensures |r| == |s| && forall i :: 0 <= i < |s| ==> r[i] == s[i].info.id
  {
    seq(|s|, i requires 0 <= i < |s| => s[i].info.id)
  }

  function RecordIds(m: map<nat, seq<Event>>): map<nat, seq<EventId>> {
    map h | h in m :: IdSeq(m[h])
  }

  /** Every listed ID names an event of the snapshot's DAG. */
  ghost predicate NamesKnownEvents(s: LachesisSnapshot) {
    forall h, id :: h in s.finalizedEvents && id in s.finalizedEvents[h] ==> id in s.dag.events
  }

  function Lookup(ids: seq<EventId>, events: map<EventId, Event>): seq<Event>
    requires forall id :: id in ids ==> id in events
  {
    seq(|ids|, i requires 0 <= i < |ids| => events[ids[i]])
  }

  /** The record rebuilt for all heights outside `rest`; an empty list leaves no trace. */
  function LookedUp(ids: map<nat, seq<EventId>>, rest: set<nat>, events: map<EventId, Event>): map<nat, seq<Event>>
    requires forall h, id :: h in ids && h !in rest && id in ids[h] ==> id in events
  {
    map h | h in ids && h !in rest && ids[h] != [] :: Lookup(ids[h], events)
  }

  lemma LookedUpMeans(ids: map<nat, seq<EventId>>, events: map<EventId, Event>)
    requires forall h, id :: h in ids && id in ids[h] ==> id in events
    ensures var m := LookedUp(ids, {}, events);
            && (forall h :: h in m <==> h in ids && ids[h] != [])
            && forall h :: h in m ==>
                 |m[h]| == |ids[h]|
                 && forall i :: 0 <= i < |m[h]| ==> ids[h][i] in events && m[h][i] == events[ids[h][i]]
  {
  }

  lemma RecordComesBack(ids: map<nat, seq<EventId>>, events: map<EventId, Event>)
    requires forall h :: h in ids ==> ids[h] != []
    requires forall h, id :: h in ids && id in ids[h] ==> id in events && events[id].info.id == id
    ensures RecordIds(LookedUp(ids, {}, events)) == ids
  {
    var m := LookedUp(ids, {}, events);
    forall h | h in ids ensures h in m && IdSeq(m[h]) == ids[h] {
      assert m[h] == Lookup(ids[h], events);
    }
  }

  /** A snapshot that comes back as it is: legal threshold, no empty list, and every listed
      ID names an event kept under its own ID. */
  ghost predicate Restorable(s: LachesisSnapshot) {
    && LegalThreshold(s.threshold)
    && (forall h :: h in s.finalizedEvents ==> s.finalizedEvents[h] != [])
    && forall h, id :: h in s.finalizedEvents && id in s.finalizedEvents[h] ==>
         id in s.dag.events && s.dag.events[id].info.id == id
  }

  /** With the snapshot's DAG back in place, its record comes back exactly if it is restorable. */
  lemma RestorableExactly(s: LachesisSnapshot, events: map<EventId, Event>)
    requires forall id :: id in events <==> id in s.dag.events
    requires forall id :: id in events ==> events[id].info == s.dag.events[id].info
    ensures Restorable(s) <==> LegalThreshold(s.threshold) && NamesKnownEvents(s)
                               && RecordIds(LookedUp(s.finalizedEvents, {}, events)) == s.finalizedEvents
  {
    var ids := s.finalizedEvents;
    if Restorable(s) {
      RecordComesBack(ids, events);
    }
    if NamesKnownEvents(s) && RecordIds(LookedUp(ids, {}, events)) == ids {
      var m := LookedUp(ids, {}, events);
      forall h, id | h in ids && id in ids[h] ensures ids[h] != [] && s.dag.events[id].info.id == id {
        var i :| 0 <= i < |ids[h]| && ids[h][i] == id;
        assert h in RecordIds(m) && IdSeq(m[h]) == ids[h];
        assert m[h] == Lookup(ids[h], events) && m[h][i] == events[id];
      }
      assert forall h :: h in ids ==> h in RecordIds(m);
    }
  }

  /** Some snapshots come back changed although nothing is refused: an empty list is lost. */
  lemma EmptyListIsLost() returns (s: LachesisSnapshot)
    ensures LegalThreshold(s.threshold) && NamesKnownEvents(s) && !Restorable(s)
  {
    s := LachesisSnapshot(DagSnapshot(map[], map[], 0), GossipState({}, 0, 0, 0.0), 0.66,
                          FinalizerSnapshot(map[], map[]), map[1 := []]);
    assert 1 in s.finalizedEvents;
  }

  /** What the snapshot of an orderly engine looks like. */
  ghost predicate OrderlySnapshot(s: LachesisSnapshot) {
    && Restorable(s)
    && (forall id :: id in s.dag.events ==> s.dag.events[id].info.id == id && id.count <= |s.dag.events|)
    && (forall h, id :: h in s.finalizedEvents && id in s.finalizedEvents[h] ==> s.dag.events[id].finalized)
    && (forall id :: id in s.finalizer.finalized && s.finalizer.finalized[id] ==>
          id in s.dag.events && s.dag.events[id].finalized)
  }

  /** If the lists come back in full, all IDs were known. */
  lemma PartlyIsAll(m: map<nat, seq<Event>>, s: LachesisSnapshot, events: map<EventId, Event>)
    requires PartlyLookedUp(m, s.finalizedEvents, events) && forall id :: id in events ==> id in s.dag.events
    ensures RecordIds(m) == s.finalizedEvents ==> NamesKnownEvents(s)
  {
    var ids := s.finalizedEvents;
    if RecordIds(m) == ids {
      forall h, id | h in ids && id in ids[h] ensures id in s.dag.events {
        assert h in RecordIds(m) && IdSeq(m[h]) == ids[h];
        var i :| 0 <= i < |ids[h]| && ids[h][i] == id;
        assert i < |m[h]|;
      }
    }
  }

  lemma OrderlyIsRestorable(s: LachesisSnapshot)
    ensures OrderlySnapshot(s) ==> Restorable(s)
  {
  }

  /** What a restore that stops half way has looked up so far. */
  ghost predicate PartlyLookedUp(m: map<nat, seq<Event>>, ids: map<nat, seq<EventId>>, events: map<EventId, Event>) {
    forall h :: h in m ==>
      && h in ids && |m[h]| <= |ids[h]|
      && forall i :: 0 <= i < |m[h]| ==> ids[h][i] in events && m[h][i] == events[ids[h][i]]
  }

  // ------------------------------------------------------------------ what a record should be

  /** The entries are the DAG's own objects, and no height is listed in vain. */
  ghost predicate OwnEntries(m: map<nat, seq<Event>>, events: map<EventId, Event>) {
    && (forall h :: h in m ==> m[h] != [])
    && forall h, e :: h in m && e in m[h] ==> e.info.id in events && events[e.info.id] == e
  }

  ghost predicate NoRepeats(m: map<nat, seq<Event>>) {
    forall h :: h in m ==> Distinct(m[h])
  }

  /** A record without repetitions stays so exactly when the new entry was not there. */
  lemma RepeatsExactly(m: map<nat, seq<Event>>, e: Event)
    requires NoRepeats(m)
    ensures NoRepeats(AddEntry(m, e)) <==> e !in EntriesAt(m, e.info.height)
  {
    var h, old', new' := e.info.height, EntriesAt(m, e.info.height), EntriesAt(m, e.info.height) + [e];
    assert AddEntry(m, e)[h] == new';
    if e in old' {
      var i :| 0 <= i < |old'| && old'[i] == e;
      assert new'[i] == new'[|old'|];
    }
  }

  /** All entries, whatever their height. */
  ghost function EntrySet(m: map<nat, seq<Event>>): set<Event> {
    set h, i | h in m && 0 <= i < |m[h]| :: m[h][i]
  }

  lemma EntrySetGrows(m: map<nat, seq<Event>>, e: Event)
    ensures EntrySet(AddEntry(m, e)) == EntrySet(m) + {e}
  {
    var h, m' := e.info.height, AddEntry(m, e);
    assert m'[h][|EntriesAt(m, h)|] == e;
    forall x | x in EntrySet(m) ensures x in EntrySet(m') {
      var k, i :| k in m && 0 <= i < |m[k]| && m[k][i] == x;
      assert m'[k][i] == x;
    }
  }

  lemma {:induction false} EntrySetGrowsByAll(m: map<nat, seq<Event>>, added: seq<Event>)
    ensures EntrySet(AddEntries(m, added)) == EntrySet(m) + (set e | e in added)
  {
    if added != [] {
      var k := |added| - 1;
      EntrySetGrowsByAll(m, added[..k]);
      EntrySetGrows(AddEntries(m, added[..k]), added[k]);
      assert added == added[..k] + [added[k]];
    }
  }

  lemma EntriesByParts(m: map<nat, seq<Event>>, added: seq<Event>)
    ensures forall h, e :: h in AddEntries(m, added) && e in AddEntries(m, added)[h] ==>
              e in added || exists k :: k in m && e in m[k]
  {
    EntrySetGrowsByAll(m, added);
    forall h, e | h in AddEntries(m, added) && e in AddEntries(m, added)[h]
      ensures e in added || exists k :: k in m && e in m[k]
    {
      EntrySetMeans(AddEntries(m, added), e);
      EntrySetMeans(m, e);
    }
  }

  /** A record within the given IDs stays so exactly when the added entries are. */
  lemma EntriesFinalByParts(m: map<nat, seq<Event>>, added: seq<Event>, ids: set<EventId>)
    requires forall h, e :: h in m && e in m[h] ==> e.info.id in ids
    ensures (forall h, e :: h in AddEntries(m, added) && e in AddEntries(m, added)[h] ==> e.info.id in ids)
            <==> forall e :: e in added ==> e.info.id in ids
  {
    EntriesByParts(m, added);
    EntrySetGrowsByAll(m, added);
    forall e | e in added ensures exists h :: h in AddEntries(m, added) && e in AddEntries(m, added)[h] {
      EntrySetMeans(AddEntries(m, added), e);
    }
  }

  lemma EntrySetMeans(m: map<nat, seq<Event>>, e: Event)
    ensures e in EntrySet(m) <==> exists h :: h in m && e in m[h]
  {
  }

  lemma {:induction false} AddEntriesKeeps(m: map<nat, seq<Event>>, added: seq<Event>, events: map<EventId, Event>)
    requires OwnEntries(m, events)
    requires forall e :: e in added ==> e.info.id in events && events[e.info.id] == e
    ensures OwnEntries(AddEntries(m, added), events)
  {
    if added != [] {
      AddEntriesKeeps(m, added[..|added| - 1], events);
    }
  }

  /** Entries that are new and differ from each other bring no repetition. */
  lemma {:induction false} NewEntriesDoNotRepeat(m: map<nat, seq<Event>>, added: seq<Event>)
    requires NoRepeats(m) && Distinct(added) && forall e :: e in added ==> e !in EntrySet(m)
    ensures NoRepeats(AddEntries(m, added))
  {
    if added != [] {
      var k := |added| - 1;
      var m' := AddEntries(m, added[..k]);
      NewEntriesDoNotRepeat(m, added[..k]);
      EntrySetGrowsByAll(m, added[..k]);
      RepeatsExactly(m', added[k]);
      assert added[k] !in EntrySet(m');
      EntrySetMeans(m', added[k]);
    }
  }

  // ------------------------------------------------------------------ the finalizer

  class Finalizer {
    const voting: VirtualVoting
    var finalized: map<EventId, bool>
    var checkpoints: map<nat, Event>

    constructor (voting: VirtualVoting)
      ensures this.voting == voting && finalized == map[] && checkpoints == map[]
    {
      this.voting := voting;
      finalized, checkpoints := map[], map[];
    }

    ghost function FinalIds(): set<EventId>
      reads this
    {
      set id | id in finalized && finalized[id]
    }

    predicate IsFinalized(id: EventId)
      reads this
    {
      id in finalized && finalized[id]
    }

    /** An event already final is accepted without a vote; otherwise the vote decides, and a
        pass flags the event, marks its ID and, at a multiple of 1000, stores a checkpoint. */
    method Finalize(event: Event) returns (ok: bool)
      modifies this`finalized, this`checkpoints, event`finalized
      ensures ok ==> event.info.id in old(FinalIds()) || old(voting.Approves(event.info))
      ensures old(OwnIds(voting.dag.Graph())) ==>
                (ok <==> event.info.id in old(FinalIds()) || old(voting.Admits(event.info)))
      ensures old(voting.Knows(event.info)) ==>
                (ok <==> event.info.id in old(FinalIds()) || old(voting.Approves(event.info)))
      ensures FinalIds() == if ok then old(FinalIds()) + {event.info.id} else old(FinalIds())
      ensures checkpoints == if ok && event.info.id !in old(FinalIds()) then AddCheckpoint(old(checkpoints), event)
                             else old(checkpoints)
      ensures event.finalized == (old(event.finalized) || (ok && event.info.id !in old(FinalIds())))
      ensures checkpoints == if ok && event.info.id !in old(FinalIds()) && event.info.height % 1000 == 0
                             then old(checkpoints)[event.info.height := event] else old(checkpoints)
      ensures ok ==> event.info.id in finalized && finalized[event.info.id]
      ensures forall id :: id != event.info.id ==>
                (id in finalized <==> id in old(finalized)) && (id in finalized ==> finalized[id] == old(finalized)[id])
    {
      hide VirtualVoting.Approves, VirtualVoting.Admits, VirtualVoting.Knows, OwnIds;
      if IsFinalized(event.info.id) {
        return true;
      }
      var passed := voting.Vote(event);
      if passed {
        event.finalized := true;
        finalized := finalized[event.info.id := true];
        if event.info.height % CHECKPOINT_INTERVAL == 0 {
          checkpoints := checkpoints[event.info.height := event];
        }
        return true;
      }
      return false;
    }

    /** The checkpoint of the largest positive height; height 0 is never reported. */
    method GetLatestCheckpoint() returns (latest: Event?)
      ensures latest == null <==> forall h :: h in checkpoints ==> h == 0
      ensures latest != null ==>
                exists h :: h in checkpoints && h > 0 && checkpoints[h] == latest
                            && forall k :: k in checkpoints ==> k <= h
    {
      latest := null;
      var latestHeight := 0;
      var rest := checkpoints.Keys;
      while rest != {}
        invariant rest <= checkpoints.Keys
        invariant forall h :: h in checkpoints && h !in rest ==> h <= latestHeight
        invariant latest == null <==> latestHeight == 0
        invariant latest != null ==> latestHeight in checkpoints && checkpoints[latestHeight] == latest
      {
        var h :| h in rest;
        if h > latestHeight {
          latestHeight, latest := h, checkpoints[h];
        }
        rest := rest - {h};
      }
    }

    ghost function Snapshot(): FinalizerSnapshot
      reads this, checkpoints.Values
    {
      FinalizerSnapshot(finalized, CheckpointRecords(checkpoints))
    }

    /** What others do to other objects does not show in a snapshot. */
    twostate lemma SnapshotStays()
      requires unchanged(this) && forall h :: h in checkpoints ==> unchanged(checkpoints[h])
      ensures Snapshot() == old(Snapshot())
    {
    }

    /** A snapshot holds the marks and, height by height, event and flag of the checkpoints. */
    lemma SnapshotMeans(s: FinalizerSnapshot)
      requires Snapshot() == s
      ensures s.finalized == finalized && s.checkpoints.Keys == checkpoints.Keys
      ensures forall h :: h in checkpoints ==>
                s.checkpoints[h].info == checkpoints[h].info && s.checkpoints[h].finalized == checkpoints[h].finalized
    {
    }

    method GetState() returns (s: FinalizerSnapshot)
      ensures s == Snapshot()
    {
      s := FinalizerSnapshot(finalized, CheckpointRecords(checkpoints));
    }

    /** Checkpoints come back as copies, no longer shared with the DAG. */
    method RestoreState(s: FinalizerSnapshot)
      modifies this`finalized, this`checkpoints
      ensures Snapshot() == s
    {
      var newCheckpoints: map<nat, Event> := map[];
      var rest := s.checkpoints.Keys;
      while rest != {}
        invariant rest <= s.checkpoints.Keys && newCheckpoints.Keys == s.checkpoints.Keys - rest
        invariant forall h :: h in newCheckpoints ==>
                    fresh(newCheckpoints[h]) && Rec(newCheckpoints[h]) == s.checkpoints[h]
      {
        var h :| h in rest;
        var e := new Event(s.checkpoints[h].info, s.checkpoints[h].finalized);
        newCheckpoints := newCheckpoints[h := e];
        rest := rest - {h};
      }
      finalized, checkpoints := s.finalized, newCheckpoints;
    }
  }

  function CheckpointRecords(m: map<nat, Event>): map<nat, EventRecord>
    reads m.Values
  {
    map h | h in m :: Rec(m[h])
  }

  // ------------------------------------------------------------------ the engine

  class Lachesis {
    const dag: DAG
    const voting: VirtualVoting
    const finalizer: Finalizer
    var votingThreshold: real
    var pendingEvents: seq<Event>
    var finalizedEvents: map<nat, seq<Event>>
    var gossip: GossipState

    ghost predicate Wired() {
      voting.dag == dag && finalizer.voting == voting
    }

    constructor (gossipDelay: int)
      ensures Wired() && dag.Valid()
      ensures fresh(dag) && fresh(voting) && fresh(finalizer)
      ensures dag.State() == EMPTY && dag.nodes == map[] && dag.events == map[]
      ensures votingThreshold == voting.threshold == 0.66
      ensures Run([State()]) && finalizedEvents == map[] && Orderly()
    {
      var d := new DAG();
      var v := new VirtualVoting(d);
      var f := new Finalizer(v);
      dag, voting, finalizer := d, v, f;
      votingThreshold := 0.66;
      pendingEvents, finalizedEvents := [], map[];
      gossip := GossipState({}, gossipDelay, gossipDelay, 0.0);
    }

    ghost function State(): FinalityState
      reads this, dag, dag.nodes.Values, voting, finalizer
    {
      FinalityState(dag.Graph(), dag.Table(), voting.threshold, votingThreshold,
                    RecordInfos(finalizedEvents), finalizer.FinalIds(), InfoMap(finalizer.checkpoints))
    }

    // ---------------------------------------------------------------- what the engine keeps

    /** Every recorded entry is flagged final. */
    ghost predicate RecordFlagged()
      reads this`finalizedEvents, EntrySet(finalizedEvents)`finalized
    {
      forall h, e :: h in finalizedEvents && e in finalizedEvents[h] ==> e.finalized
    }

    /** Every recorded entry is final with the finalizer too. */
    ghost predicate RecordFinal()
      reads this`finalizedEvents, finalizer
    {
      forall h, e :: h in finalizedEvents && e in finalizedEvents[h] ==> e.info.id in finalizer.FinalIds()
    }

    /** The finalizer's IDs are those of flagged events of the DAG. */
    ghost predicate FinalFlagged()
      reads finalizer, dag`events, dag.events.Values`finalized
    {
      forall id :: id in finalizer.FinalIds() ==> id in dag.events && dag.events[id].finalized
    }

    /** An event is the object the DAG keeps under its ID. */
    ghost predicate Own(event: Event)
      reads dag`events
    {
      event.info.id in dag.events && dag.events[event.info.id] == event
    }

    /** What every operation keeps as long as the events given to it are the DAG's own. */
    ghost predicate Orderly()
      reads this`finalizedEvents, dag`nodes, dag`events, dag.events.Values`finalized, voting, finalizer
      reads EntrySet(finalizedEvents)`finalized
    {
      && Wired() && dag.Valid() && LegalThreshold(voting.threshold)
      && OwnIds(dag.Graph()) && CountsBounded(dag.Graph())
      && OwnEntries(finalizedEvents, dag.events)
      && RecordFlagged() && FinalFlagged()
    }

    /** The engine keeps whatever it is given; the voting module ignores an illegal value, so
        the two thresholds part company exactly then. */
    method SetVotingThreshold(threshold: real)
      modifies this`votingThreshold, voting`threshold
      ensures votingThreshold == threshold
      ensures voting.threshold == if 0.0 < threshold <= 1.0 then threshold else old(voting.threshold)
      ensures OutsideStep(old(State()), State()) && (old(Orderly()) ==> Orderly())
    {
      votingThreshold := threshold;
      voting.SetThreshold(threshold);
    }

    /** The new base delay, stretched by the current load. */
    method SetGossipDelay(delay: int)
      modifies this`gossip
      ensures gossip == old(gossip).(baseDelay := delay,
                                    currentDelay := (delay as real * (1.0 + old(gossip.networkLoad))).Floor)
    {
      gossip := gossip.(baseDelay := delay, currentDelay := (delay as real * (1.0 + gossip.networkLoad)).Floor);
    }

    /** Adds the node to the DAG and to the gossip peers. */
    method AddNode(nodeId: NodeId, stake: nat)
      requires dag.Valid()
      modifies this`gossip, dag`nodes, dag.nodes.Values
      ensures fresh(dag.nodes.Values - old(dag.nodes.Values))
      ensures dag.Valid() && dag.State() == Apply(old(dag.State()), DagOp.AddNode(nodeId, stake))
      ensures gossip == old(gossip).(peers := old(gossip.peers) + {nodeId})
      ensures OutsideStep(old(State()), State()) && (old(Orderly()) ==> Orderly())
    {
      hide Orderly, Apply, CountsBounded;
      dag.AddNode(nodeId, stake);
      gossip := gossip.(peers := gossip.peers + {nodeId});
      if old(Orderly()) {
        FlagsKeepOrder();
      }
    }

    method UpdateNodeStake(nodeId: NodeId, newStake: nat)
      requires dag.Valid()
      modifies dag.nodes.Values
      ensures dag.Valid() && dag.State() == Apply(old(dag.State()), DagOp.UpdateNodeStake(nodeId, newStake))
      ensures OutsideStep(old(State()), State()) && (old(Orderly()) ==> Orderly())
    {
      var _ := dag.UpdateNodeStake(nodeId, newStake);
    }

    method CreateEvent(creator: NodeId, parentIds: seq<EventId>, data: seq<Byte>, now: int) returns (event: Event?)
      requires dag.Valid()
      modifies this`pendingEvents, dag`events, dag`maxHeight, dag.nodes.Values
      ensures dag.Valid()
      ensures dag.State() == Apply(old(dag.State()), DagOp.NewEvent(creator, parentIds, data, now))
      ensures event != null <==> old(creator in dag.nodes && dag.nodes[creator].active)
      ensures event == null ==> pendingEvents == old(pendingEvents)
      ensures event != null ==> fresh(event) && pendingEvents == old(pendingEvents) + [event]
                                && event.info == BuiltEvent(old(dag.Graph()), creator, parentIds, data, now)
                                && !event.finalized && dag.events == old(dag.events)[event.info.id := event]
      ensures event != null ==>
                event.info.creator == creator && event.info.parents == parentIds && event.info.data == data
                && event.info.timestamp == now
      ensures OutsideStep(old(State()), State()) && (old(Orderly()) ==> Orderly())
    {
      hide Orderly, Apply, CountsBounded;
      var r := dag.NewEvent(creator, parentIds, data, now);
      if r.Err? {
        if old(Orderly()) {
          FlagsKeepOrder();
        }
        return null;
      }
      pendingEvents := pendingEvents + [r.value];
      if old(Orderly()) {
        CreatedKeepsOrder(r.value);
      }
      return r.value;
    }

    /** A new event under an unused ID disturbs nothing. */
    twostate lemma CreatedKeepsOrder(new event: Event)
      requires old(Orderly()) && finalizedEvents == old(finalizedEvents) && unchanged(voting) && unchanged(finalizer)
      requires dag.Valid() && dag.events == old(dag.events)[event.info.id := event]
      requires event.info.id.count == |old(dag.Graph())| + 1
      requires forall id :: id in old(dag.events) ==> old(dag.events)[id].finalized == old(dag.events[id].finalized)
      ensures Orderly()
    {
      NewIdIsFresh(old(dag.Graph()), event.info.id, event.info);
      assert dag.Graph() == old(dag.Graph())[event.info.id := event.info];
      OwnEntriesStayFlagged();
    }

    /** Same events and entries, and no flag taken back. */
    twostate lemma FlagsKeepOrder()
      requires old(Orderly()) && finalizedEvents == old(finalizedEvents) && unchanged(voting) && unchanged(finalizer)
      requires dag.Valid() && dag.events == old(dag.events)
      requires forall id :: id in old(dag.events) ==> old(dag.events[id].finalized) ==> dag.events[id].finalized
      ensures Orderly()
    {
      assert dag.Graph() == old(dag.Graph());
      OwnEntriesStayFlagged();
    }

    /** Entries that are the DAG's own objects stay flagged when no flag is taken back. */
    twostate lemma OwnEntriesStayFlagged()
      requires old(RecordFlagged()) && OwnEntries(finalizedEvents, old(dag.events))
               && finalizedEvents == old(finalizedEvents)
      requires forall id :: id in old(dag.events) ==> old(dag.events[id].finalized) ==> old(dag.events)[id].finalized
      ensures RecordFlagged()
    {
      forall h, e | h in finalizedEvents && e in finalizedEvents[h] ensures e.finalized {
        assert old(dag.events)[e.info.id] == e;
      }
    }

    /** What an accepted event does to the flags of the record. */
    twostate lemma ProcessedKeepsFlags(new event: Event, ok: bool)
      requires finalizedEvents == if ok then AddEntry(old(finalizedEvents), event) else old(finalizedEvents)
      requires forall h, e :: h in old(finalizedEvents) && e in old(finalizedEvents)[h] && old(e.finalized) ==>
                 e.finalized
      ensures old(RecordFlagged()) ==> (RecordFlagged() <==> (ok ==> event.finalized))
    {
      if ok {
        assert event in finalizedEvents[event.info.height];
      }
    }

    /** An accepted event is final with the finalizer. */
    twostate lemma ProcessedKeepsFinal(new event: Event, ok: bool)
      requires finalizedEvents == if ok then AddEntry(old(finalizedEvents), event) else old(finalizedEvents)
      requires finalizer.FinalIds() == if ok then old(finalizer.FinalIds()) + {event.info.id}
                                       else old(finalizer.FinalIds())
      ensures old(RecordFinal()) ==> RecordFinal()
    {
    }

    /** An accepted event is a step of the engine's run. */
    twostate lemma ProcessedIsStep(new event: Event)
      requires dag.Graph() == old(dag.Graph()) && dag.Table() == old(dag.Table())
      requires voting.threshold == old(voting.threshold) && votingThreshold == old(votingThreshold)
      requires var info := event.info;
               old(ActiveCreator(dag.Table(), info) && voting.Approves(info)) && Wired()
      requires finalizedEvents == AddEntry(old(finalizedEvents), event)
      requires finalizer.FinalIds() == old(finalizer.FinalIds()) + {event.info.id}
      requires finalizer.checkpoints == if event.info.id in old(finalizer.FinalIds()) then old(finalizer.checkpoints)
                                        else AddCheckpoint(old(finalizer.checkpoints), event)
      ensures ProcessStep(old(State()), State(), event.info)
    {
      hide Passes, ActiveCreator;
      CheckpointInfos(old(finalizer.checkpoints), event);
      EntryInfos(old(finalizedEvents), event);
    }

    /** Accepts an event with an active creator that passes the vote, and records it under its
        height, once more if it was final already.  The flag ends up set unless the ID was
        final through a different object. */
    method ProcessEvent(event: Event) returns (ok: bool)
      requires Wired()
      modifies this`finalizedEvents, finalizer`finalized, finalizer`checkpoints, event`finalized
      ensures ok ==> ProcessStep(old(State()), State(), event.info)
      ensures !ok ==> State() == old(State())
      ensures old(OwnIds(dag.Graph())) ==>
                (ok <==> old(ActiveCreator(dag.Table(), event.info) && voting.Admits(event.info)))
      ensures old(voting.Knows(event.info)) ==>
                (ok <==> old(ActiveCreator(dag.Table(), event.info) && voting.Approves(event.info)))
      ensures finalizedEvents == if ok then AddEntry(old(finalizedEvents), event) else old(finalizedEvents)
      ensures ok ==> var h := event.info.height;
                h in finalizedEvents
                && finalizedEvents[h] == (if h in old(finalizedEvents) then old(finalizedEvents)[h] else []) + [event]
                && finalizedEvents - {h} == old(finalizedEvents) - {h}
      ensures finalizer.checkpoints == if ok && event.info.id !in old(finalizer.FinalIds())
                                          && event.info.height % 1000 == 0
                                       then old(finalizer.checkpoints)[event.info.height := event]
                                       else old(finalizer.checkpoints)
      ensures finalizer.FinalIds() == if ok then old(finalizer.FinalIds()) + {event.info.id}
                                      else old(finalizer.FinalIds())
      ensures event.finalized <==> old(event.finalized) || (ok && event.info.id !in old(finalizer.FinalIds()))
      ensures old(RecordFlagged()) ==> (RecordFlagged() <==> (ok ==> event.finalized))
      ensures old(RecordFinal()) ==> RecordFinal()
      ensures old(NoRepeats(finalizedEvents)) ==>
                (NoRepeats(finalizedEvents) <==> !ok || event !in EntriesAt(old(finalizedEvents), event.info.height))
      ensures old(Orderly()) && old(Own(event)) ==> Orderly()
    {
      hide VirtualVoting.Approves, VirtualVoting.Admits, VirtualVoting.Knows, OwnIds, ActiveCreator, Passes;
      hide ProcessStep, Orderly, RecordFlagged, RecordFinal, NoRepeats, AddEntry, AddCheckpoint, State;
      AddEntryIs(finalizedEvents, event);
      AddCheckpointIs(finalizer.checkpoints, event);
      ok := Process(event);
    }

    /** The work itself. */
    method Process(event: Event) returns (ok: bool)
      requires Wired()
      modifies this`finalizedEvents, finalizer`finalized, finalizer`checkpoints, event`finalized
      ensures ok ==> ProcessStep(old(State()), State(), event.info)
      ensures !ok ==> State() == old(State())
      ensures old(OwnIds(dag.Graph())) ==>
                (ok <==> old(ActiveCreator(dag.Table(), event.info) && voting.Admits(event.info)))
      ensures old(voting.Knows(event.info)) ==>
                (ok <==> old(ActiveCreator(dag.Table(), event.info) && voting.Approves(event.info)))
      ensures finalizedEvents == if ok then AddEntry(old(finalizedEvents), event) else old(finalizedEvents)
      ensures finalizer.checkpoints == if ok && event.info.id !in old(finalizer.FinalIds())
                                       then AddCheckpoint(old(finalizer.checkpoints), event)
                                       else old(finalizer.checkpoints)
      ensures finalizer.FinalIds() == if ok then old(finalizer.FinalIds()) + {event.info.id}
                                      else old(finalizer.FinalIds())
      ensures event.finalized <==> old(event.finalized) || (ok && event.info.id !in old(finalizer.FinalIds()))
      ensures old(RecordFlagged()) ==> (RecordFlagged() <==> (ok ==> event.finalized))
      ensures old(RecordFinal()) ==> RecordFinal()
      ensures old(NoRepeats(finalizedEvents)) ==>
                (NoRepeats(finalizedEvents) <==> !ok || event !in EntriesAt(old(finalizedEvents), event.info.height))
      ensures old(Orderly()) && old(Own(event)) ==> Orderly()
    {
      hide VirtualVoting.Approves, VirtualVoting.Admits, VirtualVoting.Knows, OwnIds, ActiveCreator, Passes;
      hide ProcessStep, Orderly, RecordFlagged, RecordFinal, NoRepeats, AddEntry, AddCheckpoint;
      ok := Decide(event);
      if ok {
        finalizedEvents := AddEntry(finalizedEvents, event);
        ProcessedIsStep(event);
      }
      ProcessedKeepsFlags(event, ok);
      ProcessedKeepsFinal(event, ok);
      if old(NoRepeats(finalizedEvents)) {
        RepeatsExactly(old(finalizedEvents), event);
      }
      if old(Orderly()) && old(Own(event)) {
        ProcessedKeepsOrder(event.info.id, ok);
      }
    }

    /** An accepted event of the DAG's own leaves the engine in order. */
    twostate lemma ProcessedKeepsOrder(new id: EventId, ok: bool)
      requires old(Orderly()) && unchanged(dag) && unchanged(voting) && id in dag.events
      requires finalizedEvents == if ok then AddEntry(old(finalizedEvents), dag.events[id]) else old(finalizedEvents)
      requires finalizer.FinalIds() == if ok then old(finalizer.FinalIds()) + {id} else old(finalizer.FinalIds())
      requires ok && id !in old(finalizer.FinalIds()) ==> dag.events[id].finalized
      requires forall x :: x in dag.events && old(dag.events[x].finalized) ==> dag.events[x].finalized
      ensures Orderly()
    {
      assert dag.Graph() == old(dag.Graph());
      var event, m := dag.events[id], old(finalizedEvents);
      forall h, e | h in finalizedEvents && e in finalizedEvents[h] ensures Own(e) && e.finalized {
        if e != event || !ok {
          assert h in m && e in m[h];
          assert old(dag.events)[e.info.id] == e;
        }
      }
    }

    /** The checks of `ProcessEvent`: active creator, vote, finalizer. */
    method Decide(event: Event) returns (ok: bool)
      requires Wired()
      modifies finalizer`finalized, finalizer`checkpoints, event`finalized
      ensures ok ==> old(ActiveCreator(dag.Table(), event.info) && voting.Approves(event.info))
      ensures old(OwnIds(dag.Graph())) ==>
                (ok <==> old(ActiveCreator(dag.Table(), event.info) && voting.Admits(event.info)))
      ensures old(voting.Knows(event.info)) ==>
                (ok <==> old(ActiveCreator(dag.Table(), event.info) && voting.Approves(event.info)))
      ensures var isNew := ok && event.info.id !in old(finalizer.FinalIds());
              && finalizer.checkpoints == (if isNew then AddCheckpoint(old(finalizer.checkpoints), event)
                                           else old(finalizer.checkpoints))
              && event.finalized == (old(event.finalized) || isNew)
      ensures finalizer.FinalIds() == if ok then old(finalizer.FinalIds()) + {event.info.id}
                                      else old(finalizer.FinalIds())
    {
      if event.info.creator !in dag.nodes || !dag.nodes[event.info.creator].active {
        return false;
      }
      var passed := voting.Vote(event);
      if !passed {
        return false;
      }
      ok := finalizer.Finalize(event);
    }

    ghost predicate Detects(e: EventInfo)
      reads this`votingThreshold, dag, dag.nodes.Values
    {
      Detected(dag.Graph(), dag.Table(), votingThreshold, e)
    }

    /** The periodic check: stops early in either direction, and still answers the plain
        comparison of what the search finds. */
    method DetectFinality(event: Event) returns (final: bool)
      requires Wired()
      ensures final ==> Detects(event.info)
      ensures OwnIds(dag.Graph()) ==>
                (final <==> Detected(dag.Graph() - {event.info.id}, dag.Table(), votingThreshold, event.info))
      ensures voting.Knows(event.info) ==> (final <==> Detects(event.info))
    {
      hide Detected, Enough, Searched, OwnIds, Identified;
      var activeNodes := dag.GetActiveNodes();
      var totalStake := dag.GetTotalStake();
      var requiredWeight := totalStake as real * votingThreshold;
      ghost var g, table := dag.Graph(), dag.Table();
      DecisionSearched(g, table, votingThreshold, event.info);
      assert totalStake == TotalStake(table);
      EnoughDetects(Searched(g, event.info), table, votingThreshold, event.info, requiredWeight);
      final := Tally(event, activeNodes, totalStake, requiredWeight, ActiveStakes(table));
      assert dag.Graph() == g && dag.Table() == table;
    }

    method Tally(event: Event, activeNodes: seq<NodeId>, totalStake: nat, requiredWeight: real,
                 ghost w: map<NodeId, nat>)
      returns (final: bool)
      requires Wired()
      requires forall i, j :: 0 <= i < j < |activeNodes| ==> activeNodes[i] != activeNodes[j]
      requires forall v :: v in activeNodes <==> v in w
      requires w == ActiveStakes(dag.Table()) && totalStake == Total(w.Keys, w)
      ensures var enough := Enough(Searched(dag.Graph(), event.info), w, event.info, requiredWeight);
              && (final ==> enough) && (OwnIds(dag.Graph()) ==> (final <==> enough))
    {
      ghost var e := event.info;
      ghost var g := Searched(dag.Graph(), e);
      ghost var votes: set<NodeId> := {};
      var totalWeight: nat, remainingStake: int := 0, totalStake;
      for i := 0 to |activeNodes|
        invariant Tallied(g, w, e, activeNodes[..i], votes, totalWeight, remainingStake)
        invariant votes != {} ==> (totalWeight as real) < requiredWeight
        invariant forall v :: v in w ==> v in dag.nodes && dag.nodes[v].stake == w[v]
      {
        var v := activeNodes[i];
        assert v in activeNodes;
        var stake := dag.nodes[v].stake;
        remainingStake := remainingStake - stake;
        var hasSeen := voting.HasSeen(v, event);
        votes := TallyStep(g, w, e, activeNodes, i, votes, totalWeight, remainingStake + stake, hasSeen,
                           requiredWeight);
        if hasSeen {
          totalWeight := totalWeight + stake;
          if totalWeight as real >= requiredWeight {
            return true;
          }
        }
        if ((totalWeight + remainingStake) as real) < requiredWeight {
          return false;
        }
      }
      assert activeNodes[..|activeNodes|] == activeNodes;
      AllAsked(g, w, e, activeNodes, votes, totalWeight, remainingStake);
      return false;
    }

    /** One tick of the consensus loop.  `events` are the unflagged events of the DAG in the
        order the map gives them; those detected (`added`, see ScannedMeans) are recorded under
        their heights and flagged; the finalizer is not told.  So the record stays within what
        the finalizer knows exactly if nothing unflagged is due. */
    method ProcessEvents() returns (ghost events: seq<Event>, ghost added: seq<Event>)
      requires Wired()
      modifies this`finalizedEvents, dag.events.Values`finalized
      ensures forall e :: e in events <==> e in dag.events.Values && !old(e.finalized)
      ensures DistinctValues(dag.events) ==> Distinct(events)
      ensures Scanned(old(State()), events, added)
      ensures finalizedEvents == AddEntries(old(finalizedEvents), added)
      ensures forall e :: e in dag.events.Values ==> (e.finalized <==> old(e.finalized) || e in added)
      ensures ScanStep(old(State()), State())
      ensures old(RecordFlagged()) ==> RecordFlagged()
      ensures old(RecordFinal()) ==> (RecordFinal() <==> forall e :: e in added ==> e.info.id in finalizer.FinalIds())
      ensures old(Orderly()) ==> Orderly()
      ensures old(Orderly()) && old(NoRepeats(finalizedEvents)) ==> NoRepeats(finalizedEvents)
      ensures old(Orderly()) && old(RecordFinal()) ==>
                (RecordFinal() <==> forall id :: id in dag.events && !old(dag.events[id].finalized) ==>
                                      !old(Detects(dag.events[id].info)))
    {
      hide Orderly, RecordFlagged, RecordFinal, NoRepeats, Scanned, ScanStep, Due, Certain, AddEntries, Detects,
           Distinct;
      ghost var s := State();
      events, added := Sweep(s);
      ScannedMeans(s, events, added);
      SweptRecord(s, old(finalizedEvents), added);
      if old(RecordFinal()) {
        SweptStaysFinal(added);
      }
      SweptFlags(added);
      if old(Orderly()) {
        SweptInOrder(s, events, added);
      }
    }

    /** What the scan does to an orderly engine. */
    twostate lemma SweptInOrder(s: FinalityState, new events: seq<Event>, new added: seq<Event>)
      requires old(Orderly()) && unchanged(dag) && unchanged(finalizer) && unchanged(voting)
      requires s.graph == old(dag.Graph()) && s.nodes == old(dag.Table()) && s.scanThreshold == old(votingThreshold)
      requires finalizedEvents == AddEntries(old(finalizedEvents), added)
      requires DistinctValues(dag.events) ==> Distinct(events)
      requires old(RecordFlagged()) ==> RecordFlagged()
      requires old(RecordFinal()) ==> (RecordFinal() <==> forall e :: e in added ==> e.info.id in finalizer.FinalIds())
      requires forall e :: e in events ==> e in dag.events.Values
      requires forall id :: id in dag.events ==> (dag.events[id] in events <==> !old(dag.events[id].finalized))
      requires forall id :: id in dag.events && old(dag.events[id].finalized) ==> dag.events[id].finalized
      requires multiset(added) <= multiset(events)
      requires forall e :: e in added ==> e in events && Due(s, e.info)
      requires forall e :: e in events && Certain(s, e.info) ==> e in added
      ensures Orderly() && (old(NoRepeats(finalizedEvents)) ==> NoRepeats(finalizedEvents))
      ensures old(RecordFinal()) ==>
                (RecordFinal() <==> forall id :: id in dag.events && !old(dag.events[id].finalized) ==>
                                      !old(Detects(dag.events[id].info)))
    {
      hide Orderly, RecordFlagged, RecordFinal, NoRepeats, Due, Certain, AddEntries, Detects, Distinct;
      SweptKeepsOrder(added);
      SweptNoRepeats(events, added);
      SweptFinal(s, events, added);
    }

    /** The scan itself. */
    method Sweep(ghost s: FinalityState) returns (ghost events: seq<Event>, ghost added: seq<Event>)
      requires Wired() && s == State()
      modifies this`finalizedEvents, dag.events.Values`finalized
      ensures forall e :: e in events <==> e in dag.events.Values && !old(e.finalized)
      ensures DistinctValues(dag.events) ==> Distinct(events)
      ensures forall e :: e in events ==> e.info in s.graph.Values
      ensures Scanned(s, events, added)
      ensures State() == s.(record := RecordInfos(finalizedEvents))
      ensures finalizedEvents == AddEntries(old(finalizedEvents), added)
      ensures forall e :: e in dag.events.Values ==> (e.finalized <==> old(e.finalized) || e in added)
      ensures forall h, e :: h in old(finalizedEvents) && e in old(finalizedEvents)[h] && old(e.finalized) ==>
                e.finalized
    {
      hide Scanned, Due, Certain;
      var unfinalized := dag.GetUnfinalizedEvents();
      events := unfinalized;
      added := Scan(s, unfinalized);
      ScannedMeans(s, events, added);
    }

    lemma SweptRecord(s: FinalityState, m: map<nat, seq<Event>>, added: seq<Event>)
      requires s.record == RecordInfos(m) && finalizedEvents == AddEntries(m, added)
      requires State() == s.(record := RecordInfos(finalizedEvents))
      requires forall e :: e in added ==> e.info in s.graph.Values && Due(s, e.info)
      ensures ScanStep(s, State())
    {
      ScanRecords(s, m, added);
    }

    twostate lemma SweptStaysFinal(new added: seq<Event>)
      requires old(RecordFinal()) && unchanged(finalizer)
      requires finalizedEvents == AddEntries(old(finalizedEvents), added)
      ensures RecordFinal() <==> forall e :: e in added ==> e.info.id in finalizer.FinalIds()
    {
      EntriesFinalByParts(old(finalizedEvents), added, finalizer.FinalIds());
    }

    twostate lemma SweptFlags(new added: seq<Event>)
      requires finalizedEvents == AddEntries(old(finalizedEvents), added)
      requires forall e :: e in added ==> e.finalized
      requires forall h, e :: h in old(finalizedEvents) && e in old(finalizedEvents)[h] && old(e.finalized) ==>
                 e.finalized
      ensures old(RecordFlagged()) ==> RecordFlagged()
    {
      EntriesByParts(old(finalizedEvents), added);
    }

    twostate lemma SweptKeepsOrder(new added: seq<Event>)
      requires old(Orderly()) && unchanged(dag) && unchanged(voting) && unchanged(finalizer)
      requires old(RecordFlagged()) ==> RecordFlagged()
      requires finalizedEvents == AddEntries(old(finalizedEvents), added)
      requires forall e :: e in added ==> e in dag.events.Values
      requires forall id :: id in dag.events && old(dag.events[id].finalized) ==> dag.events[id].finalized
      ensures Orderly()
    {
      assert dag.Graph() == old(dag.Graph());
      forall e | e in added ensures e.info.id in dag.events && dag.events[e.info.id] == e {
        var id :| id in dag.events && dag.events[id] == e;
        assert dag.Graph()[id] == e.info;
      }
      AddEntriesKeeps(old(finalizedEvents), added, dag.events);
    }

    twostate lemma SweptNoRepeats(new events: seq<Event>, new added: seq<Event>)
      requires old(Orderly()) && unchanged(dag) && multiset(added) <= multiset(events)
      requires DistinctValues(dag.events) ==> Distinct(events)
      requires finalizedEvents == AddEntries(old(finalizedEvents), added)
      requires forall e :: e in added ==> e in dag.events.Values
      requires forall id :: id in dag.events && dag.events[id] in added ==> !old(dag.events[id].finalized)
      ensures old(NoRepeats(finalizedEvents)) ==> NoRepeats(finalizedEvents)
    {
      hide CountsBounded, NoRepeats;
      var m := old(finalizedEvents);
      assert forall id :: id in dag.events ==> old(dag.Graph())[id] == dag.events[id].info;
      SubDistinct(added, events);
      assert forall h: nat, x: Event :: h in m && x in m[h] ==>
               x.info.id in dag.events && old(dag.events[x.info.id].finalized);
      forall e | e in added ensures e !in EntrySet(m) {
        EntrySetMeans(m, e);
        var id :| id in dag.events && dag.events[id] == e;
        assert e.info.id == id;
      }
      if old(NoRepeats(finalizedEvents)) {
        NewEntriesDoNotRepeat(m, added);
      }
    }

    /** In an orderly engine the scan adds nothing exactly when nothing unflagged is due, and
        whatever it adds is new to the finalizer. */
    twostate lemma SweptFinal(s: FinalityState, new events: seq<Event>, new added: seq<Event>)
      requires old(Orderly()) && unchanged(dag) && unchanged(finalizer)
      requires s.graph == old(dag.Graph()) && s.nodes == old(dag.Table()) && s.scanThreshold == old(votingThreshold)
      requires forall id :: id in dag.events ==> (dag.events[id] in events <==> !old(dag.events[id].finalized))
      requires forall e :: e in added ==> e in events && e in dag.events.Values && Due(s, e.info)
      requires forall e :: e in events && Certain(s, e.info) ==> e in added
      ensures (forall e :: e in added ==> e.info.id in finalizer.FinalIds())
              <==> forall id :: id in dag.events && !old(dag.events[id].finalized) ==>
                     !old(Detects(dag.events[id].info))
    {
      hide CountsBounded, Detected, OwnEntries, RecordFlagged, LegalThreshold;
      assert forall id :: id in dag.events ==> s.graph[id] == dag.events[id].info && dag.events[id].info.id == id;
      assert forall id :: id in dag.events ==> (old(Detects(dag.events[id].info)) <==> Due(s, dag.events[id].info));
      assert forall id :: id in dag.events && dag.events[id] in added ==> id !in finalizer.FinalIds();
    }

    /** The loop of the scan. */
    method Scan(ghost s: FinalityState, events: seq<Event>) returns (ghost added: seq<Event>)
      requires Wired() && InWorld(s)
      requires forall e :: e in events ==> e in dag.events.Values && !e.finalized
      modifies this`finalizedEvents, events`finalized
      ensures State() == old(State()).(record := RecordInfos(finalizedEvents))
      ensures finalizedEvents == AddEntries(old(finalizedEvents), added)
      ensures Scanned(s, events, added)
      ensures forall e :: e in events ==> (e.finalized <==> e in added)
    {
      hide Due, Certain, Scanned, AddEntry, AddEntries;
      added := [];
      ScannedNone(s);
      AddEntriesNone(finalizedEvents);
      ghost var m := finalizedEvents;
      for i := 0 to |events|
        invariant InWorld(s)
        invariant finalizedEvents == AddEntries(m, added)
        invariant Scanned(s, events[..i], added) && forall e :: e in added ==> e in events[..i]
        invariant forall e :: e in events ==> (e.finalized <==> e in added)
      {
        var final := Consider(s, events[i]);
        assert events[..i + 1] == events[..i] + [events[i]];
        ScannedStep(s, events[..i], added, events[i], final);
        if final {
          AddEntriesNext(m, added, events[i]);
          added := added + [events[i]];
        }
      }
      assert events[..|events|] == events;
    }

    /** The graph, the nodes and the engine's threshold are those of `s`. */
    ghost predicate InWorld(s: FinalityState)
      reads this`votingThreshold, dag, dag.nodes.Values
    {
      s.graph == dag.Graph() && s.nodes == dag.Table() && s.scanThreshold == votingThreshold
    }

    /** The body of the scan, for one event. */
    method Consider(ghost s: FinalityState, e: Event) returns (final: bool)
      requires Wired() && InWorld(s)
      modifies this`finalizedEvents, e`finalized
      ensures finalizedEvents == if final then AddEntry(old(finalizedEvents), e) else old(finalizedEvents)
      ensures (final ==> Due(s, e.info)) && (Certain(s, e.info) ==> final)
      ensures e.finalized <==> old(e.finalized) || final
    {
      hide Detected, Identified, OwnIds, AddEntry;
      assert Due(s, e.info) <==> Detects(e.info);
      final := DetectFinality(e);
      if final {
        finalizedEvents := AddEntry(finalizedEvents, e);
        e.finalized := true;
      }
    }

    ghost function Snapshot(): LachesisSnapshot
      reads this, dag, dag.nodes.Values, dag.events.Values
      reads voting, finalizer, finalizer.checkpoints.Values
    {
      LachesisSnapshot(dag.Snapshot(), gossip, voting.threshold, finalizer.Snapshot(), RecordIds(finalizedEvents))
    }

    /** What others do to other objects does not show in a snapshot. */
    twostate lemma SnapshotStays()
      requires unchanged(this) && unchanged(dag) && unchanged(voting) && unchanged(finalizer)
      requires forall n :: n in dag.nodes.Values ==> unchanged(n)
      requires forall e :: e in dag.events.Values ==> unchanged(e)
      requires forall e :: e in finalizer.checkpoints.Values ==> unchanged(e)
      ensures Snapshot() == old(Snapshot())
    {
    }

    /** ... nor disturb the order. */
    twostate lemma OrderStays()
      requires unchanged(this) && unchanged(dag) && unchanged(voting) && unchanged(finalizer)
      requires forall id :: id in dag.events ==> unchanged(dag.events[id])
      ensures old(Orderly()) ==> Orderly()
    {
      if old(Orderly()) {
        FlagsKeepOrder();
      }
    }

    /** The engine's own threshold is not part of the state. */
    method GetState() returns (s: LachesisSnapshot)
      ensures s == Snapshot()
      ensures s.gossip == gossip && s.threshold == voting.threshold && Mirrors(s)
      ensures dag.nodes.Keys == s.dag.nodes.Keys && dag.events.Keys == s.dag.events.Keys
      ensures dag.maxHeight == s.dag.maxHeight
      ensures forall id :: id in dag.nodes ==>
                dag.nodes[id].stake == s.dag.nodes[id].stake && dag.nodes[id].active == s.dag.nodes[id].active
                && dag.nodes[id].history == s.dag.nodes[id].history
      ensures forall id :: id in dag.events ==>
                dag.events[id].info == s.dag.events[id].info && dag.events[id].finalized == s.dag.events[id].finalized
      ensures s.finalizer.finalized == finalizer.finalized
      ensures s.finalizer.checkpoints.Keys == finalizer.checkpoints.Keys
      ensures forall h :: h in finalizer.checkpoints ==>
                s.finalizer.checkpoints[h].info == finalizer.checkpoints[h].info
                && s.finalizer.checkpoints[h].finalized == finalizer.checkpoints[h].finalized
      ensures s.finalizedEvents.Keys == finalizedEvents.Keys
      ensures forall h :: h in finalizedEvents ==>
                |s.finalizedEvents[h]| == |finalizedEvents[h]|
                && forall i :: 0 <= i < |finalizedEvents[h]| ==>
                     s.finalizedEvents[h][i] == finalizedEvents[h][i].info.id
    {
      var d := dag.GetState();
      var v := voting.GetState();
      var f := finalizer.GetState();
      assert d == dag.Snapshot() && f == finalizer.Snapshot();
      s := LachesisSnapshot(d, gossip, v, f, RecordIds(finalizedEvents));
      dag.SnapshotMeans(d);
      finalizer.SnapshotMeans(f);
      SnapshotMeans(s);
    }

    /** The engine's fields are those of a saved state. */
    ghost predicate Mirrors(s: LachesisSnapshot)
      reads this`gossip, this`finalizedEvents, dag, dag.nodes.Values, dag.events.Values, voting, finalizer
      reads finalizer.checkpoints.Values
    {
      && dag.nodes.Keys == s.dag.nodes.Keys && dag.events.Keys == s.dag.events.Keys && dag.maxHeight == s.dag.maxHeight
      && (forall id :: id in dag.nodes ==>
            && dag.nodes[id].stake == s.dag.nodes[id].stake && dag.nodes[id].active == s.dag.nodes[id].active
            && dag.nodes[id].history == s.dag.nodes[id].history)
      && (forall id :: id in dag.events ==>
            && dag.events[id].info == s.dag.events[id].info && dag.events[id].finalized == s.dag.events[id].finalized)
      && gossip == s.gossip && voting.threshold == s.threshold && finalizer.finalized == s.finalizer.finalized
      && finalizer.checkpoints.Keys == s.finalizer.checkpoints.Keys
      && (forall h :: h in finalizer.checkpoints ==>
            && finalizer.checkpoints[h].info == s.finalizer.checkpoints[h].info
            && finalizer.checkpoints[h].finalized == s.finalizer.checkpoints[h].finalized)
    }

    twostate lemma MirrorStays(new s: LachesisSnapshot)
      requires unchanged(this) && unchanged(dag) && unchanged(voting) && unchanged(finalizer)
      requires forall n :: n in dag.nodes.Values ==> unchanged(n)
      requires forall e :: e in dag.events.Values ==> unchanged(e)
      requires forall e :: e in finalizer.checkpoints.Values ==> unchanged(e)
      ensures old(Mirrors(s)) ==> Mirrors(s)
    {
    }

    lemma SnapshotMeans(s: LachesisSnapshot)
      requires dag.Snapshot() == s.dag && finalizer.Snapshot() == s.finalizer
      requires gossip == s.gossip && voting.threshold == s.threshold
      ensures Mirrors(s)
    {
      dag.SnapshotMeans(s.dag);
      finalizer.SnapshotMeans(s.finalizer);
    }

    /** Restores part after part; a failure leaves the parts done so far in place.  The snapshot
        comes back as it is exactly if it is restorable, and an orderly one leaves an orderly
        engine. */
    method RestoreState(s: LachesisSnapshot) returns (ok: bool)
      requires Wired()
      modifies this`gossip, this`finalizedEvents, dag`nodes, dag`events, dag`maxHeight,
               voting`threshold, finalizer`finalized, finalizer`checkpoints
      ensures dag.Valid() && dag.Snapshot() == s.dag && gossip == s.gossip
      ensures ok <==> LegalThreshold(s.threshold) && NamesKnownEvents(s)
      ensures voting.threshold == if LegalThreshold(s.threshold) then s.threshold else old(voting.threshold)
      ensures finalizer.Snapshot() == if LegalThreshold(s.threshold) then s.finalizer else old(finalizer.Snapshot())
      ensures if LegalThreshold(s.threshold) then PartlyLookedUp(finalizedEvents, s.finalizedEvents, dag.events)
              else finalizedEvents == old(finalizedEvents)
      ensures Restorable(s) <==> ok && Snapshot() == s
      ensures LegalThreshold(s.threshold) ==> (Restorable(s) <==> Snapshot() == s)
      ensures OrderlySnapshot(s) ==> Orderly()
      ensures ok <==>
                && 0.0 < s.threshold <= 1.0
                && forall h, id :: h in s.finalizedEvents && id in s.finalizedEvents[h] ==> id in s.dag.events
      ensures dag.nodes.Keys == s.dag.nodes.Keys && dag.events.Keys == s.dag.events.Keys
      ensures dag.maxHeight == s.dag.maxHeight
      ensures forall id :: id in dag.nodes ==>
                dag.nodes[id].stake == s.dag.nodes[id].stake && dag.nodes[id].active == s.dag.nodes[id].active
                && dag.nodes[id].history == s.dag.nodes[id].history
      ensures forall id :: id in dag.events ==>
                dag.events[id].info == s.dag.events[id].info && dag.events[id].finalized == s.dag.events[id].finalized
      ensures ok ==> Mirrors(s)
      ensures ok ==> voting.threshold == s.threshold && finalizer.finalized == s.finalizer.finalized
                     && finalizer.checkpoints.Keys == s.finalizer.checkpoints.Keys
      ensures ok ==> forall h :: h in finalizer.checkpoints ==>
                finalizer.checkpoints[h].info == s.finalizer.checkpoints[h].info
                && finalizer.checkpoints[h].finalized == s.finalizer.checkpoints[h].finalized
      ensures ok ==> forall h :: h in finalizedEvents <==> h in s.finalizedEvents && s.finalizedEvents[h] != []
      ensures ok ==> forall h :: h in finalizedEvents ==>
                |finalizedEvents[h]| == |s.finalizedEvents[h]|
                && forall i :: 0 <= i < |finalizedEvents[h]| ==>
                     s.finalizedEvents[h][i] in dag.events
                     && finalizedEvents[h][i] == dag.events[s.finalizedEvents[h][i]]
    {
      hide Restorable, NamesKnownEvents, RecordIds, LookedUp, LegalThreshold, Orderly, OrderlySnapshot, PartlyLookedUp;
      dag.RestoreState(s.dag);
      finalizer.SnapshotStays();
      ok := RestoreRest(s);
      AcceptedMeans(s);
      dag.SnapshotMeans(s.dag);
      if ok {
        finalizer.SnapshotMeans(s.finalizer);
        LookedUpMeans(s.finalizedEvents, dag.events);
        SnapshotMeans(s);
      }
    }

    lemma AcceptedMeans(s: LachesisSnapshot)
      ensures LegalThreshold(s.threshold) <==> 0.0 < s.threshold <= 1.0
      ensures NamesKnownEvents(s) <==>
                forall h, id :: h in s.finalizedEvents && id in s.finalizedEvents[h] ==> id in s.dag.events
    {
    }

    /** Everything but the DAG, which is in place. */
    method RestoreRest(s: LachesisSnapshot) returns (ok: bool)
      requires Wired() && dag.Valid() && dag.Snapshot() == s.dag
      modifies this`gossip, this`finalizedEvents, voting`threshold, finalizer`finalized, finalizer`checkpoints
      ensures dag.Valid() && dag.Snapshot() == s.dag && gossip == s.gossip
      ensures ok <==> LegalThreshold(s.threshold) && NamesKnownEvents(s)
      ensures voting.threshold == if LegalThreshold(s.threshold) then s.threshold else old(voting.threshold)
      ensures finalizer.Snapshot() == if LegalThreshold(s.threshold) then s.finalizer else old(finalizer.Snapshot())
      ensures if LegalThreshold(s.threshold) then PartlyLookedUp(finalizedEvents, s.finalizedEvents, dag.events)
              else finalizedEvents == old(finalizedEvents)
      ensures Restorable(s) <==> ok && Snapshot() == s
      ensures LegalThreshold(s.threshold) ==> (Restorable(s) <==> Snapshot() == s)
      ensures OrderlySnapshot(s) ==> Orderly()
      ensures ok ==> (forall h, id :: h in s.finalizedEvents && id in s.finalizedEvents[h] ==> id in dag.events)
                     && finalizedEvents == LookedUp(s.finalizedEvents, {}, dag.events)
    {
      hide Restorable, RecordIds, LookedUp, LegalThreshold, Orderly, OrderlySnapshot, PartlyLookedUp;
      RestorableExactly(s, dag.events);
      OrderlyIsRestorable(s);
      var legal := RestoreParts(s);
      if !legal {
        return false;
      }
      label Parts:
      ok := RestoreRecord(s.finalizedEvents);
      PartlyIsAll(finalizedEvents, s, dag.events);
      dag.SnapshotStays@Parts();
      finalizer.SnapshotStays@Parts();
      if OrderlySnapshot(s) {
        RestoredInOrder(s);
      }
    }

    /** The gossip, voting and finalizer parts of the restore. */
    method RestoreParts(s: LachesisSnapshot) returns (legal: bool)
      requires Wired() && dag.Valid()
      modifies this`gossip, voting`threshold, finalizer`finalized, finalizer`checkpoints
      ensures dag.Valid() && dag.Snapshot() == old(dag.Snapshot()) && gossip == s.gossip
      ensures legal <==> LegalThreshold(s.threshold)
      ensures voting.threshold == if legal then s.threshold else old(voting.threshold)
      ensures finalizer.Snapshot() == if legal then s.finalizer else old(finalizer.Snapshot())
    {
      gossip := s.gossip;
      legal := voting.RestoreState(s.threshold);
      if legal {
        finalizer.RestoreState(s.finalizer);
      } else {
        finalizer.SnapshotStays();
      }
      dag.SnapshotStays();
    }

    /** With all parts of an orderly snapshot in place the engine is in order. */
    lemma RestoredInOrder(s: LachesisSnapshot)
      requires Wired() && dag.Valid() && OrderlySnapshot(s)
      requires dag.Snapshot() == s.dag && voting.threshold == s.threshold && finalizer.Snapshot() == s.finalizer
      requires NamesKnownEvents(s) && (forall id :: id in s.dag.events ==> id in dag.events)
      requires finalizedEvents == LookedUp(s.finalizedEvents, {}, dag.events)
      ensures Orderly()
    {
      RestoredIds(s);
      RestoredFlags(s);
      RestoredEntries(s.finalizedEvents);
    }

    lemma RestoredIds(s: LachesisSnapshot)
      requires dag.Valid() && OrderlySnapshot(s) && dag.Snapshot() == s.dag
      ensures OwnIds(dag.Graph()) && CountsBounded(dag.Graph())
    {
      var records := s.dag.events;
      assert forall id :: id in dag.events ==> Rec(dag.events[id]) == records[id];
      MapSize(dag.Graph(), records);
    }

    lemma RestoredFlags(s: LachesisSnapshot)
      requires OrderlySnapshot(s) && dag.Snapshot() == s.dag && NamesKnownEvents(s)
      requires forall id :: id in s.dag.events ==> id in dag.events
      ensures forall h, id :: h in s.finalizedEvents && id in s.finalizedEvents[h] ==>
                id in dag.events && dag.events[id].finalized && dag.events[id].info.id == id
    {
      assert forall id :: id in dag.events ==> Rec(dag.events[id]) == s.dag.events[id];
    }

    lemma RestoredEntries(ids: map<nat, seq<EventId>>)
      requires forall h, id :: h in ids && id in ids[h] ==>
                 id in dag.events && dag.events[id].finalized && dag.events[id].info.id == id
      requires finalizedEvents == LookedUp(ids, {}, dag.events)
      ensures OwnEntries(finalizedEvents, dag.events) && RecordFlagged()
    {
      forall h, e | h in finalizedEvents && e in finalizedEvents[h] ensures Own(e) && e.finalized {
        var i :| 0 <= i < |finalizedEvents[h]| && finalizedEvents[h][i] == e;
        assert ids[h][i] in ids[h] && e == dag.events[ids[h][i]];
      }
    }

    /** The snapshot of an orderly engine is an orderly one, and so it is restorable. */
    lemma SnapshotInOrder()
      requires Orderly()
      ensures OrderlySnapshot(Snapshot()) && Restorable(Snapshot())
    {
      var s := Snapshot();
      hide CountsBounded, OwnIds;
      SnapshotIds();
      SnapshotEntries();
      assert forall id :: id in dag.events ==> s.dag.events[id] == Rec(dag.events[id]);
      assert forall h :: h in s.finalizedEvents ==> finalizedEvents[h] != [];
    }

    lemma SnapshotIds()
      requires OwnIds(dag.Graph()) && CountsBounded(dag.Graph())
      ensures var s := Snapshot();
              forall id :: id in s.dag.events ==> s.dag.events[id].info.id == id && id.count <= |s.dag.events|
    {
      var s := Snapshot();
      assert forall id :: id in dag.events ==> s.dag.events[id] == Rec(dag.events[id]);
      assert forall id :: id in dag.events ==> dag.Graph()[id] == dag.events[id].info;
      MapSize(dag.Graph(), s.dag.events);
    }

    lemma SnapshotEntries()
      requires Orderly()
      ensures var s := Snapshot();
              forall h, id :: h in s.finalizedEvents && id in s.finalizedEvents[h] ==>
                id in s.dag.events && s.dag.events[id].info.id == id && s.dag.events[id].finalized
    {
      var s := Snapshot();
      forall h, id | h in s.finalizedEvents && id in s.finalizedEvents[h]
        ensures id in s.dag.events && s.dag.events[id].info.id == id && s.dag.events[id].finalized
      {
        var i :| 0 <= i < |s.finalizedEvents[h]| && s.finalizedEvents[h][i] == id;
        var e := finalizedEvents[h][i];
        assert e in finalizedEvents[h] && e.info.id == id;
        assert s.dag.events[id] == Rec(e);
      }
    }

    /** Looks every listed ID up in the DAG again. */
    method RestoreRecord(ids: map<nat, seq<EventId>>) returns (ok: bool)
      modifies this`finalizedEvents
      ensures ok <==> forall h, id :: h in ids && id in ids[h] ==> id in dag.events
      ensures ok ==> finalizedEvents == LookedUp(ids, {}, dag.events)
      ensures PartlyLookedUp(finalizedEvents, ids, dag.events)
    {
      finalizedEvents := map[];
      var rest := ids.Keys;
      while rest != {}
        invariant rest <= ids.Keys
        invariant forall h, id :: h in ids && h !in rest && id in ids[h] ==> id in dag.events
        invariant finalizedEvents == LookedUp(ids, rest, dag.events)
      {
        var h :| h in rest;
        var found := RestoreHeight(h, ids[h]);
        if !found {
          return false;
        }
        rest := rest - {h};
      }
      return true;
    }

    method RestoreHeight(h: nat, ids: seq<EventId>) returns (ok: bool)
      requires h !in finalizedEvents
      modifies this`finalizedEvents
      ensures ok <==> forall id :: id in ids ==> id in dag.events
      ensures ok ==> finalizedEvents == if ids == [] then old(finalizedEvents)
                                        else old(finalizedEvents)[h := Lookup(ids, dag.events)]
      ensures forall k :: k in finalizedEvents && k != h ==>
                k in old(finalizedEvents) && finalizedEvents[k] == old(finalizedEvents)[k]
      ensures h in finalizedEvents ==>
                |finalizedEvents[h]| <= |ids|
                && forall i :: 0 <= i < |finalizedEvents[h]| ==>
                     ids[i] in dag.events && finalizedEvents[h][i] == dag.events[ids[i]]
    {
      for i := 0 to |ids|
        invariant forall k :: 0 <= k < i ==> ids[k] in dag.events
        invariant finalizedEvents == if i == 0 then old(finalizedEvents)
                                     else old(finalizedEvents)[h := Lookup(ids[..i], dag.events)]
      {
        if ids[i] !in dag.events {
          return false;
        }
        assert Lookup(ids[..i + 1], dag.events) == Lookup(ids[..i], dag.events) + [dag.events[ids[i]]];
        finalizedEvents := finalizedEvents[h := EntriesAt(finalizedEvents, h) + [dag.events[ids[i]]]];
      }
      assert ids[..|ids|] == ids;
      return true;
    }

    /** The record from one height to another, in order.  The counter has 64 bits and wraps, so
        the loop need not end; `rounds` is how many of its rounds the caller waits for. */
    method GetFinalizedEvents(fromHeight: Height, toHeight: Height, rounds: nat) returns (result: Fetched)
      ensures result.Ended? <==> exists n: nat :: n <= rounds && CounterAfter(fromHeight, n) > toHeight
      ensures result.Ended? <==> toHeight < MAX_HEIGHT && fromHeight + rounds > toHeight
      ensures result.Ended? ==> result.events == Range(finalizedEvents, fromHeight, toHeight)
    {
      hide Range;
      var events := [];
      var h: Height := fromHeight;
      var n := 0;
      while h <= toHeight
        invariant n <= rounds && h == CounterAfter(fromHeight, n)
        invariant forall k :: 0 <= k < n ==> CounterAfter(fromHeight, k) <= toHeight
        invariant toHeight < MAX_HEIGHT ==>
                    && h == fromHeight + n && (n == 0 || h <= toHeight + 1)
                    && events + Range(finalizedEvents, h, toHeight) == Range(finalizedEvents, fromHeight, toHeight)
        decreases rounds - n
      {
        if n == rounds {
          assert forall k: nat :: k <= rounds ==> CounterAfter(fromHeight, k) <= toHeight;
          return Running;
        }
        RangeStep(finalizedEvents, h, toHeight);
        if h in finalizedEvents {
          events := events + finalizedEvents[h];
        }
        h := if h == MAX_HEIGHT then 0 else h + 1;
        n := n + 1;
      }
      RangeStep(finalizedEvents, h, toHeight);
      result := Ended(events);
    }
  }

  const MAX_HEIGHT := 0xFFFF_FFFF_FFFF_FFFF

  type Height = h: nat | h <= MAX_HEIGHT

  /** What a loop over heights gives, if it ends. */
  datatype Fetched = Ended(events: seq<Event>) | Running

  /** The 64-bit counter after `n` rounds. */
  function CounterAfter(fromHeight: Height, n: nat): Height {
    (fromHeight + n) % (MAX_HEIGHT + 1)
  }

  /** The counter passes the last height some time exactly when that is not the largest one. */
  lemma LoopEndsExactly(fromHeight: Height, toHeight: Height)
    ensures (exists n: nat :: CounterAfter(fromHeight, n) > toHeight) <==> toHeight < MAX_HEIGHT
  {
    if toHeight < MAX_HEIGHT {
      assert CounterAfter(fromHeight, MAX_HEIGHT - fromHeight) == MAX_HEIGHT;
    }
  }

  function Range(m: map<nat, seq<Event>>, fromHeight: nat, toHeight: nat): seq<Event>
    decreases toHeight + 1 - fromHeight
  {
    if fromHeight > toHeight then [] else EntriesAt(m, fromHeight) + Range(m, fromHeight + 1, toHeight)
  }

  lemma RangeStep(m: map<nat, seq<Event>>, fromHeight: nat, toHeight: nat)
    ensures Range(m, fromHeight, toHeight) ==
            if fromHeight > toHeight then [] else EntriesAt(m, fromHeight) + Range(m, fromHeight + 1, toHeight)
  {
  }

  /** A range holds exactly the entries of its heights. */
  lemma {:induction false} RangeHolds(m: map<nat, seq<Event>>, fromHeight: nat, toHeight: nat, e: Event)
    ensures e in Range(m, fromHeight, toHeight) <==>
              exists h: nat :: fromHeight <= h <= toHeight && e in EntriesAt(m, h)
    decreases toHeight + 1 - fromHeight
  {
    if fromHeight <= toHeight {
      RangeHolds(m, fromHeight + 1, toHeight, e);
    }
  }

  /** The scan detects `e` and cannot miss it, events being identified by their IDs. */
  ghost predicate Certain(s: FinalityState, e: EventInfo) {
    Identified(s.graph, e) && Due(s, e)
  }

  /** `added` is what is left of `scanned` when only due events are kept, and none of those
      that cannot be missed is dropped. */
  ghost predicate Scanned(s: FinalityState, scanned: seq<Event>, added: seq<Event>)
    decreases |scanned|
  {
    if scanned == [] then added == []
    else
      var k, n := |scanned| - 1, |added| - 1;
      || (n >= 0 && added[n] == scanned[k] && Due(s, scanned[k].info) && Scanned(s, scanned[..k], added[..n]))
      || (!Certain(s, scanned[k].info) && Scanned(s, scanned[..k], added))
  }

  lemma ScannedNone(s: FinalityState)
    ensures Scanned(s, [], [])
  {
  }

  lemma ScannedStep(s: FinalityState, scanned: seq<Event>, added: seq<Event>, e: Event, final: bool)
    requires Scanned(s, scanned, added) && (Certain(s, e.info) ==> final) && (final ==> Due(s, e.info))
    ensures Scanned(s, scanned + [e], if final then added + [e] else added)
  {
    assert (scanned + [e])[..|scanned|] == scanned && (added + [e])[..|added|] == added;
  }

  lemma {:induction false} ScannedMeans(s: FinalityState, scanned: seq<Event>, added: seq<Event>)
    requires Scanned(s, scanned, added)
    ensures multiset(added) <= multiset(scanned)
    ensures forall e :: e in added ==> e in scanned && Due(s, e.info)
    ensures forall e :: e in scanned && Certain(s, e.info) ==> e in added
    decreases |scanned|
  {
    if scanned != [] {
      var k, n := |scanned| - 1, |added| - 1;
      assert scanned == scanned[..k] + [scanned[k]];
      if n >= 0 && added[n] == scanned[k] && Due(s, scanned[k].info) && Scanned(s, scanned[..k], added[..n]) {
        assert added == added[..n] + [added[n]];
        ScannedMeans(s, scanned[..k], added[..n]);
      } else {
        ScannedMeans(s, scanned[..k], added);
      }
    }
  }

  // ------------------------------------------------------------------ the tally, on values

  ghost function Asked(prefix: seq<NodeId>): set<NodeId> {
    set v | v in prefix
  }

  /** Where the tally stands after asking the nodes of `prefix`. */
  ghost predicate Tallied(g: Graph, w: map<NodeId, nat>, e: EventInfo, prefix: seq<NodeId>, votes: set<NodeId>,
                          weight: nat, remaining: int)
  {
    && Counted(g, w, e, {}, prefix, votes)
    && Asked(prefix) <= w.Keys
    && weight == Total(votes, w)
    && remaining == Total(w.Keys, w) - Total(Asked(prefix), w)
  }

  /** One node asked.  An early accept or reject at this point is right. */
  lemma TallyStep(g: Graph, w: map<NodeId, nat>, e: EventInfo, nodes: seq<NodeId>, i: nat, votes: set<NodeId>,
                  weight: nat, remaining: int, hasSeen: bool, required: real)
    returns (votes': set<NodeId>)
    requires i < |nodes| && nodes[i] in w && nodes[i] !in nodes[..i]
    requires Tallied(g, w, e, nodes[..i], votes, weight, remaining)
    requires hasSeen ==> Sees(g, nodes[i], e)
    requires OwnIds(g) ==> (hasSeen <==> Sees(g, nodes[i], e))
    ensures votes' == if hasSeen then votes + {nodes[i]} else votes
    ensures var v, weight' := nodes[i], if hasSeen then weight + w[nodes[i]] else weight;
            && Tallied(g, w, e, nodes[..i + 1], votes', weight', remaining - w[v])
            && (hasSeen && weight' as real >= required ==> Enough(g, w, e, required))
            && (((weight' + remaining - w[v]) as real) < required && OwnIds(g) ==> !Enough(g, w, e, required))
  {
    var v := nodes[i];
    votes' := if hasSeen then votes + {v} else votes;
    var asked := Asked(nodes[..i]);
    assert nodes[..i + 1] == nodes[..i] + [v];
    assert Asked(nodes[..i + 1]) == asked + {v};
    TotalPick(asked + {v}, w, v);
    assert asked + {v} - {v} == asked;
    CountedStep(g, w, e, {}, nodes, i, votes, hasSeen);
    var weight' := if hasSeen then weight + w[v] else weight;
    if hasSeen && weight' as real >= required {
      EnoughSeen(g, w, e, votes', required);
    }
    CannotExceed(g, w, e, nodes[..i + 1], votes', weight', remaining - w[v]);
  }

  /** Somebody active has seen `e`, and together they hold the required stake. */
  ghost predicate Enough(g: Graph, w: map<NodeId, nat>, e: EventInfo, required: real) {
    SeenBy(g, w.Keys, e) != {} && Total(SeenBy(g, w.Keys, e), w) as real >= required
  }

  lemma EnoughDetects(g: Graph, nodes: NodeTable, threshold: real, e: EventInfo, required: real)
    requires required == TotalStake(nodes) as real * threshold
    ensures Enough(g, ActiveStakes(nodes), e, required) <==> Detected(g, nodes, threshold, e)
  {
  }

  /** The early accept is right. */
  lemma EnoughSeen(g: Graph, w: map<NodeId, nat>, e: EventInfo, votes: set<NodeId>, required: real)
    requires votes != {} && votes <= SeenBy(g, w.Keys, e) && Total(votes, w) as real >= required
    ensures Enough(g, w, e, required)
  {
    TotalMonotone(votes, SeenBy(g, w.Keys, e), w);
  }

  /** The early reject is right: votes plus all stake not yet asked bound what was seen. */
  lemma CannotExceed(g: Graph, w: map<NodeId, nat>, e: EventInfo, prefix: seq<NodeId>, votes: set<NodeId>,
                     weight: nat, remaining: int)
    requires Tallied(g, w, e, prefix, votes, weight, remaining)
    ensures OwnIds(g) ==> Total(SeenBy(g, w.Keys, e), w) <= weight + remaining
  {
    if OwnIds(g) {
      var asked := Asked(prefix);
      var unasked := w.Keys - asked;
      TotalUnion(asked, unasked, w);
      assert asked + unasked == w.Keys;
      TotalUnion(votes, unasked, w);
      TotalMonotone(SeenBy(g, w.Keys, e), votes + unasked, w);
    }
  }

  lemma AllAsked(g: Graph, w: map<NodeId, nat>, e: EventInfo, nodes: seq<NodeId>, votes: set<NodeId>,
                 weight: nat, remaining: int)
    requires forall v :: v in nodes <==> v in w
    requires Tallied(g, w, e, nodes, votes, weight, remaining)
    ensures OwnIds(g) ==> votes == SeenBy(g, w.Keys, e)
  {
  }
}
