/** Short runs of the engine that show what its promises leave out. */
module FinalityCases {
  import opened EventGraph
  import opened DagStore
  import Voting
  import opened Finality
  import opened FinalityRuns
  import opened Lists

  /** An engine with one node that holds all the stake. */
  method SoleNode() returns (l: Lachesis)
    ensures fresh(l) && fresh(l.dag) && fresh(l.voting) && fresh(l.finalizer) && fresh(l.dag.nodes.Values)
    ensures l.Orderly() && l.Wired() && l.dag.Valid() && l.dag.events == map[]
            && l.dag.Table() == map[1 := NodeRec(1, true)]
    ensures l.voting.threshold == l.votingThreshold == 0.66
    ensures l.finalizedEvents == map[] && l.finalizer.FinalIds() == {}
  {
    hide Lachesis.Orderly, Run;
    l := new Lachesis(0);
    assert l.finalizer.FinalIds() == {};
    l.AddNode(1, 1);
  }

  /** ... and one event of that node, not yet looked at. */
  method SoleEvent() returns (l: Lachesis, e: Event)
    ensures fresh(l) && fresh(l.dag) && fresh(l.voting) && fresh(l.finalizer) && fresh(e)
    ensures l.Orderly() && l.dag.events == map[e.info.id := e] && l.dag.Table() == map[1 := NodeRec(1, true)]
    ensures e.info.creator == 1 && e.info.height == 1 && !e.finalized
    ensures l.voting.threshold == l.votingThreshold == 0.66
    ensures l.finalizedEvents == map[] && l.finalizer.FinalIds() == {}
  {
    hide Lachesis.Orderly;
    l := SoleNode();
    SoleNodeIsActive(l.dag);
    var created := l.CreateEvent(1, [], [], 0);
    e := created;
  }

  lemma SoleNodeIsActive(dag: DAG)
    requires dag.Table() == map[1 := NodeRec(1, true)]
    ensures 1 in dag.nodes && dag.nodes[1].active
  {
    assert 1 in dag.Table();
  }

  /** What the sole node creates passes and is detected. */
  lemma SoleEventDecides(l: Lachesis, info: EventInfo)
    requires l.Wired() && l.dag.Table() == map[1 := NodeRec(1, true)] && info.creator == 1
    requires l.voting.threshold == l.votingThreshold == 0.66
    ensures ActiveCreator(l.dag.Table(), info) && l.voting.Approves(info) && l.Detects(info)
    ensures Due(l.State(), info)
  {
    SoleNodeDecides(l.dag.Graph(), l.dag.Table(), 1, 1, 0.66, info);
  }

  /** A recorded event that the finalizer does not know: the scan has found it. */
  method RecordedNotFinal() returns (l: Lachesis, e: Event)
    ensures fresh(l) && fresh(l.dag) && fresh(l.voting) && fresh(l.finalizer) && fresh(e)
    ensures l.Orderly() && !l.RecordFinal()
    ensures l.dag.events == map[e.info.id := e] && l.dag.Table() == map[1 := NodeRec(1, true)] && e.info.creator == 1
    ensures l.voting.threshold == l.votingThreshold == 0.66
    ensures e.info.height == 1 && l.finalizedEvents == map[1 := [e]] && l.finalizer.FinalIds() == {}
  {
    hide Lachesis.Orderly, Scanned, Lachesis.RecordFlagged, AddEntries, NoRepeats, ScanStep, ActiveCreator,
         Voting.VirtualVoting.Approves, DAG.Table;
    l, e := SoleEvent();
    SoleInOrder(l, e);
    SoleEventDecides(l, e.info);
    ghost var s := l.State();
    ghost var events, added := l.ProcessEvents();
    ScannedMeans(s, events, added);
    OnlyOne(events, added, e);
    SingleEntry(e);
    assert e in l.finalizedEvents[1];
  }

  lemma SingleEntry(e: Event)
    ensures AddEntries(map[], [e]) == map[e.info.height := [e]]
  {
    assert [e][..0] == [] && AddEntries(map[], []) == map[];
    assert EntriesAt(map[], e.info.height) + [e] == [e];
  }

  lemma SoleInOrder(l: Lachesis, e: Event)
    requires l.Orderly() && l.dag.events == map[e.info.id := e]
    ensures l.Wired() && DistinctValues(l.dag.events) && Identified(l.dag.Graph(), e.info) && e in l.dag.events.Values
    ensures OwnIds(l.dag.Graph())
    ensures forall x :: x in l.dag.events.Values ==> x == e
  {
    assert l.dag.events[e.info.id] == e;
  }

  lemma OnlyOne(events: seq<Event>, added: seq<Event>, e: Event)
    requires Distinct(events) && (forall x :: x in events ==> x == e) && e in added
    requires multiset(added) <= multiset(events)
    ensures added == [e]
  {
    SubDistinct(added, events);
    assert forall x :: x in events <==> x in multiset(events);
    forall x | x in added ensures x == e {
      assert x in multiset(added) && multiset(events)[x] >= multiset(added)[x];
      assert x in multiset(events);
    }
    DistinctSize(added, {e});
  }

  /** ... and recorded once more when it is then processed. */
  method RecordedTwice() returns (l: Lachesis, e: Event)
    ensures l.finalizedEvents == map[1 := [e, e]] && !NoRepeats(l.finalizedEvents)
  {
    hide Lachesis.Orderly, Lachesis.RecordFlagged, Lachesis.RecordFinal, ProcessStep, NoRepeats, Lachesis.State,
         ActiveCreator, Due, Lachesis.Detects, Voting.VirtualVoting.Approves, Identified;
    l, e := RecordedNotFinal();
    SoleInOrder(l, e);
    SoleEventDecides(l, e.info);
    var _ := l.ProcessEvent(e);
    assert [e] + [e] == [e, e];
    Repeats(l.finalizedEvents, e);
  }

  lemma Repeats(m: map<nat, seq<Event>>, e: Event)
    requires m == map[1 := [e, e]]
    ensures !NoRepeats(m)
  {
    assert m[1][0] == m[1][1];
  }

  /** The sole event, final with the finalizer. */
  method FinalEvent() returns (l: Lachesis, e: Event)
    ensures fresh(l) && fresh(l.dag) && fresh(l.voting) && fresh(l.finalizer) && fresh(e)
    ensures l.Wired() && l.dag.events == map[e.info.id := e] && l.dag.Table() == map[1 := NodeRec(1, true)]
    ensures e.info.creator == 1 && e.info.height == 1 && OwnIds(l.dag.Graph())
    ensures l.voting.threshold == l.votingThreshold == 0.66 && e.info.id in l.finalizer.FinalIds()
  {
    hide Lachesis.Orderly, Lachesis.RecordFinal, ProcessStep, NoRepeats, Lachesis.State, Lachesis.RecordFlagged,
         OwnIds, ActiveCreator, Due, Lachesis.Detects, Voting.VirtualVoting.Approves, AddEntry, Identified;
    l, e := SoleEvent();
    SoleInOrder(l, e);
    SoleEventDecides(l, e.info);
    var _ := l.ProcessEvent(e);
  }

  /** A second object under an ID that is final already is recorded without its flag. */
  method SecondObjectStaysUnflagged() returns (l: Lachesis, twin: Event)
    ensures twin in EntriesAt(l.finalizedEvents, 1) && !twin.finalized && !l.RecordFlagged()
  {
    hide Lachesis.Orderly, Lachesis.RecordFinal, ProcessStep, NoRepeats, Lachesis.State;
    var e;
    l, e := FinalEvent();
    twin := new Event(e.info, false);
    SoleEventDecides(l, twin.info);
    assert l.dag.Graph()[e.info.id] == twin.info;
    var _ := l.ProcessEvent(twin);
    assert twin in l.finalizedEvents[1];
  }

  /** An event that is not in the DAG passes, and then the state names an ID it cannot restore. */
  method ForeignEventBreaksTheSnapshot() returns (l: Lachesis)
    ensures l.Wired() && !NamesKnownEvents(l.Snapshot()) && !Restorable(l.Snapshot())
  {
    hide Lachesis.Orderly;
    l := SoleNode();
    var id := EventId(0, 1, 1, []);
    var foreign := new Event(EventInfo(id, 1, [], [], 0, 1), false);
    SoleEventDecides(l, foreign.info);
    var _ := l.ProcessEvent(foreign);
    assert foreign in l.finalizedEvents[1];
    ForeignEntry(l, foreign);
  }

  lemma ForeignEntry(l: Lachesis, e: Event)
    requires 1 in l.finalizedEvents && e in l.finalizedEvents[1] && e.info.id !in l.dag.events
    ensures !NamesKnownEvents(l.Snapshot()) && !Restorable(l.Snapshot())
  {
    var i :| 0 <= i < |l.finalizedEvents[1]| && l.finalizedEvents[1][i] == e;
    var s := l.Snapshot();
    assert s.finalizedEvents[1][i] == e.info.id && e.info.id !in s.dag.events;
  }
}
