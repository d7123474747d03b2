/** The event DAG as the program keeps it: two mutable maps of shared objects and a running
    maximum height (consensus/diamantefinality/dag.go). */
module DagStore {
  import opened Bytes
  import opened Sums
  import opened EventGraph
  import opened DagRuns
  import opened GraphRepair
  import opened Wrappers

  /** An event object.  Its flag is set through whatever pointer reaches it. */
  class Event {
    const info: EventInfo
    var finalized: bool

    constructor (info: EventInfo, finalized: bool)
      ensures this.info == info && this.finalized == finalized
    {
      this.info := info;
      this.finalized := finalized;
    }
  }

  class Node {
    var stake: nat
    var active: bool
    var history: seq<EventInfo>

    constructor (stake: nat, active: bool, history: seq<EventInfo>)
      ensures this.stake == stake && this.active == active && this.history == history
    {
      this.stake := stake;
      this.active := active;
      this.history := history;
    }
  }

  datatype DagError =
    | NoSuchNode
    | InactiveNode
    | EventNotFound

  datatype Inconsistency =
    | UnknownCreator(id: EventId)
    | MissingParent(id: EventId, parent: EventId)
    | ZeroHeight(id: EventId)
    | LowHeight(id: EventId, parentHeight: nat)
    | WrongMaxHeight(actual: nat)

  datatype Verdict = Sane | Broken(what: Inconsistency)

  /** What an inconsistency report says about the graph. */
  ghost predicate Holds(what: Inconsistency, g: Graph, known: set<NodeId>, maxHeight: nat) {
    match what
    case UnknownCreator(id) => id in g && g[id].creator !in known
    case MissingParent(id, pid) => id in g && pid in g[id].parents && pid !in g
    case ZeroHeight(id) => id in g && g[id].height == 0
    case LowHeight(id, h) =>
      id in g && g[id].height <= h && exists pid :: pid in g[id].parents && pid in g && g[pid].height == h
    case WrongMaxHeight(h) => IsMaxHeight(g, h) && maxHeight != h
  }

  // ------------------------------------------------------------------ snapshots

  datatype EventRecord = EventRecord(info: EventInfo, finalized: bool)

  datatype NodeRecord = NodeRecord(stake: nat, active: bool, history: seq<EventInfo>)

  datatype DagSnapshot = DagSnapshot(
    nodes: map<NodeId, NodeRecord>, events: map<EventId, EventRecord>, maxHeight: nat)

  function Rec(e: Event): EventRecord
    reads e
  {
    EventRecord(e.info, e.finalized)
  }

  function EventRecords(m: map<EventId, Event>): map<EventId, EventRecord>
    reads m.Values
  {
    map id | id in m :: Rec(m[id])
  }

  function NodeRecords(m: map<NodeId, Node>): map<NodeId, NodeRecord>
    reads m.Values
  {
    map id | id in m :: NodeRecord(m[id].stake, m[id].active, m[id].history)
  }

  ghost predicate DistinctValues<K(!new), V>(m: map<K, V>) {
    forall a, b :: a in m && b in m && a != b ==> m[a] != m[b]
  }

  method RestoreEvents(records: map<EventId, EventRecord>) returns (m: map<EventId, Event>)
    ensures fresh(m.Values) && DistinctValues(m)
    ensures EventRecords(m) == records
  {
    m := map[];
    var rest := records.Keys;
    while rest != {}
      invariant rest <= records.Keys && m.Keys == records.Keys - rest
      invariant forall id :: id in m ==> fresh(m[id]) && Rec(m[id]) == records[id]
      invariant DistinctValues(m)
    {
      var id :| id in rest;
      var e := new Event(records[id].info, records[id].finalized);
      m := m[id := e];
      rest := rest - {id};
    }
    assert EventRecords(m) == records;
  }

  method RestoreNodes(records: map<NodeId, NodeRecord>) returns (m: map<NodeId, Node>)
    ensures fresh(m.Values) && DistinctValues(m)
    ensures NodeRecords(m) == records
  {
    m := map[];
    var rest := records.Keys;
    while rest != {}
      invariant rest <= records.Keys && m.Keys == records.Keys - rest
      invariant forall id :: id in m ==>
                  fresh(m[id]) && NodeRecord(m[id].stake, m[id].active, m[id].history) == records[id]
      invariant DistinctValues(m)
    {
      var id :| id in rest;
      var node := new Node(records[id].stake, records[id].active, records[id].history);
      m := m[id := node];
      rest := rest - {id};
    }
    assert NodeRecords(m) == records;
  }

  // ------------------------------------------------------------------ the DAG

  class DAG {
    var nodes: map<NodeId, Node>
    var events: map<EventId, Event>
    var maxHeight: nat

    /** Different node IDs have different node objects. */
    ghost predicate Valid()
      reads this`nodes
    {
      DistinctValues(nodes)
    }

    ghost function Graph(): Graph
      reads this`events
    {
      map id | id in events :: events[id].info
    }

    ghost function Table(): NodeTable
      reads this`nodes, nodes.Values
    {
      map id | id in nodes :: NodeRec(nodes[id].stake, nodes[id].active)
    }

    ghost function State(): DagState
      reads this, nodes.Values
    {
      DagState(Table(), Graph(), maxHeight)
    }

    constructor ()
      ensures Valid() && nodes == map[] && events == map[]
      ensures State() == EMPTY
    {
      nodes, events, maxHeight := map[], map[], 0;
    }

    method AddNode(nodeId: NodeId, stake: nat)
      requires Valid()
      modifies this`nodes, nodes.Values
      ensures Valid() && fresh(nodes.Values - old(nodes.Values))
      ensures State() == Apply(old(State()), DagOp.AddNode(nodeId, stake))
      ensures nodes.Keys == old(nodes.Keys) + {nodeId}
      ensures forall id :: id in old(nodes) ==>
                nodes[id] == old(nodes[id]) && nodes[id].history == old(nodes[id].history)
      ensures nodes[nodeId].stake == stake && nodes[nodeId].active
      ensures nodeId !in old(nodes) ==> nodes[nodeId].history == []
      ensures forall id :: id in old(nodes) && id != nodeId ==>
                nodes[id].stake == old(nodes[id].stake) && nodes[id].active == old(nodes[id].active)
    {
      if nodeId in nodes {
        var node := nodes[nodeId];
        node.stake := stake;
        node.active := true;
      } else {
        var node := new Node(stake, true, []);
        nodes := nodes[nodeId := node];
      }
      assert Table() == old(Table())[nodeId := NodeRec(stake, true)];
    }

    method UpdateNodeStake(nodeId: NodeId, newStake: nat) returns (r: Result<(), DagError>)
      requires Valid()
      modifies nodes.Values
      ensures Valid()
      ensures r == if nodeId in nodes then Ok(()) else Err(NoSuchNode)
      ensures State() == Apply(old(State()), DagOp.UpdateNodeStake(nodeId, newStake))
      ensures forall id :: id in nodes ==>
                nodes[id].history == old(nodes[id].history) && nodes[id].active == old(nodes[id].active)
                && nodes[id].stake == if id == nodeId then newStake else old(nodes[id].stake)
    {
      if nodeId !in nodes {
        return Err(NoSuchNode);
      }
      var node := nodes[nodeId];
      node.stake := newStake;
      return Ok(());
    }

    method RemoveNode(nodeId: NodeId) returns (r: Result<(), DagError>)
      requires Valid()
      modifies nodes.Values
      ensures Valid()
      ensures r == if nodeId in nodes then Ok(()) else Err(NoSuchNode)
      ensures State() == Apply(old(State()), DagOp.RemoveNode(nodeId))
      ensures forall id :: id in nodes ==>
                nodes[id].history == old(nodes[id].history) && nodes[id].stake == old(nodes[id].stake)
                && (nodes[id].active <==> old(nodes[id].active) && id != nodeId)
    {
      if nodeId !in nodes {
        return Err(NoSuchNode);
      }
      var node := nodes[nodeId];
      node.active := false;
      return Ok(());
    }

    /** The height a new event gets: one more than its highest present parent, counting a
        missing one as height 1. */
    method HeightAbove(parentIds: seq<EventId>) returns (height: nat)
      ensures height == NextHeight(Graph(), parentIds)
    {
      height := 1;
      if |parentIds| > 0 {
        for i := 0 to |parentIds|
          invariant height == ParentHeight(Graph(), parentIds[..i])
        {
          assert parentIds[..i + 1][..i] == parentIds[..i];
          if parentIds[i] in events && events[parentIds[i]].info.height >= height {
            height := events[parentIds[i]].info.height;
          }
        }
        assert parentIds[..|parentIds|] == parentIds;
        height := height + 1;
      }
    }

    /** `now` is the clock reading.  On success the built event is stored under its ID, listed
        with its creator and counted in the maximum height. */
    method NewEvent(creator: NodeId, parentIds: seq<EventId>, data: seq<Byte>, now: int)
      returns (r: Result<Event, DagError>)
      requires Valid()
      modifies this`events, this`maxHeight, nodes.Values
      ensures Valid() && Table() == old(Table())
      ensures State() == Apply(old(State()), DagOp.NewEvent(creator, parentIds, data, now))
      ensures r.Ok? <==> creator in nodes && old(nodes[creator].active)
      ensures r.Err? ==> r.error == (if creator in nodes then InactiveNode else NoSuchNode)
      ensures r.Err? ==> events == old(events)
      ensures r.Ok? ==> fresh(r.value) && !r.value.finalized
      ensures r.Ok? ==> r.value.info == BuiltEvent(old(Graph()), creator, parentIds, data, now)
      ensures r.Ok? ==>
                var e := r.value.info;
                && e.creator == creator && e.parents == parentIds && e.data == data && e.timestamp == now
                && e.id.timestamp == now && e.id.creator == creator && e.id.data == data
                && e.id.count == |old(events)| + 1
                && (parentIds == [] ==> e.height == 1) && (parentIds != [] ==> e.height >= 2)
                && (forall pid :: pid in parentIds && pid in old(events) ==> old(events)[pid].info.height < e.height)
                && (parentIds == [] || e.height == 2
                    || exists pid :: pid in parentIds && pid in old(events)
                                     && old(events)[pid].info.height + 1 == e.height)
                && maxHeight == if e.height > old(maxHeight) then e.height else old(maxHeight)
      ensures r.Ok? ==> events == old(events)[r.value.info.id := r.value]
      ensures r.Ok? ==> nodes[creator].history == old(nodes[creator].history) + [r.value.info]
      ensures forall id :: id in nodes && (id != creator || r.Err?) ==> nodes[id].history == old(nodes[id].history)
    {
      if creator !in nodes {
        return Err(NoSuchNode);
      }
      if !nodes[creator].active {
        return Err(InactiveNode);
      }
      var height := HeightAbove(parentIds);
      MapSize(events, Graph());
      var currentCount := |events| + 1;
      var id := EventId(now, creator, currentCount, data);
      var event := new Event(EventInfo(id, creator, parentIds, data, now, height), false);
      BuiltEventIs(Graph(), creator, parentIds, data, now);
      Commit(nodes[creator], event);
      return Ok(event);
    }

    /** The tail of `NewEvent`: store the event, list it with its creator, raise the height. */
    method Commit(creatorNode: Node, event: Event)
      modifies this`events, this`maxHeight, creatorNode`history
      ensures events == old(events)[event.info.id := event]
      ensures Graph() == old(Graph())[event.info.id := event.info]
      ensures maxHeight == RaisedHeight(old(maxHeight), event.info)
      ensures creatorNode.history == old(creatorNode.history) + [event.info]
    {
      events := events[event.info.id := event];
      creatorNode.history := creatorNode.history + [event.info];
      if event.info.height > maxHeight {
        maxHeight := event.info.height;
      }
    }

    method GetEvent(id: EventId) returns (r: Result<Event, DagError>)
      ensures r == if id in events then Ok(events[id]) else Err(EventNotFound)
    {
      if id !in events {
        return Err(EventNotFound);
      }
      return Ok(events[id]);
    }

    /** The active node IDs, each once, in an arbitrary order. */
    method GetActiveNodes() returns (active: seq<NodeId>)
      ensures forall i, j :: 0 <= i < j < |active| ==> active[i] != active[j]
      ensures forall v :: v in active <==> v in ActiveStakes(Table())
      ensures forall v :: v in active <==> v in nodes && nodes[v].active
    {
      active := [];
      var rest := nodes.Keys;
      while rest != {}
        invariant rest <= nodes.Keys
        invariant forall i, j :: 0 <= i < j < |active| ==> active[i] != active[j]
        invariant forall v :: v in active <==> v in nodes && v !in rest && nodes[v].active
      {
        var v :| v in rest;
        if nodes[v].active {
          active := active + [v];
        }
        rest := rest - {v};
      }
    }

    method GetTotalStake() returns (total: nat)
      ensures total == TotalStake(Table())
    {
      total := 0;
      var rest := nodes.Keys;
      ghost var w := ActiveStakes(Table());
      ghost var counted: set<NodeId> := {};
      while rest != {}
        invariant rest <= nodes.Keys
        invariant counted == set v | v in w && v !in rest
        invariant total == Total(counted, w)
        decreases rest
      {
        var v :| v in rest;
        rest := rest - {v};
        if nodes[v].active {
          counted := counted + {v};
          TotalPick(counted, w, v);
          assert counted - {v} == set u | u in w && u !in rest + {v};
          total := total + nodes[v].stake;
        }
      }
      assert counted == w.Keys;
    }

    /** Collects the events not yet flagged, each once, in an arbitrary order. */
    method GetUnfinalizedEvents() returns (results: seq<Event>)
      ensures forall e :: e in results <==> e in events.Values && !e.finalized
      ensures forall e :: e in results ==> e.info in Graph().Values
      ensures DistinctValues(events) ==> forall i, j :: 0 <= i < j < |results| ==> results[i] != results[j]
    {
      results := [];
      var rest := events.Keys;
      while rest != {}
        invariant rest <= events.Keys
        invariant forall e :: e in results ==>
                    exists id :: id in events && id !in rest && events[id] == e && !e.finalized
        invariant forall id :: id in events && id !in rest && !events[id].finalized ==> events[id] in results
        invariant DistinctValues(events) ==> forall i, j :: 0 <= i < j < |results| ==> results[i] != results[j]
      {
        var id :| id in rest;
        if !events[id].finalized {
          results := results + [events[id]];
        }
        rest := rest - {id};
      }
      forall e | e in results ensures e.info in Graph().Values {
        var id :| id in events && events[id] == e;
        assert Graph()[id] == e.info;
      }
    }

    method VerifyConsistency() returns (verdict: Verdict)
      ensures verdict.Sane? <==> Consistent(Graph(), nodes.Keys, maxHeight)
      ensures verdict.Broken? ==> Holds(verdict.what, Graph(), nodes.Keys, maxHeight)
      ensures verdict.Sane? <==>
                && (forall id :: id in events ==>
                      && events[id].info.creator in nodes && 0 < events[id].info.height <= maxHeight
                      && forall pid :: pid in events[id].info.parents ==>
                           pid in events && events[pid].info.height < events[id].info.height)
                && (maxHeight == 0 || exists id :: id in events && events[id].info.height == maxHeight)
    {
      ConsistentMeans();
      verdict := CheckCreators();
      if verdict.Broken? { return; }
      verdict := CheckParents();
      if verdict.Broken? { return; }
      verdict := CheckHeights();
      if verdict.Broken? { return; }
      var actual := ActualMaxHeight();
      if maxHeight != actual {
        if IsMaxHeight(Graph(), maxHeight) {
          MaxHeightUnique(Graph(), maxHeight, actual);
        }
        return Broken(WrongMaxHeight(actual));
      }
    }

    lemma ConsistentMeans()
      ensures Consistent(Graph(), nodes.Keys, maxHeight) <==>
                && (forall id :: id in events ==>
                      && events[id].info.creator in nodes && 0 < events[id].info.height <= maxHeight
                      && forall pid :: pid in events[id].info.parents ==>
                           pid in events && events[pid].info.height < events[id].info.height)
                && (maxHeight == 0 || exists id :: id in events && events[id].info.height == maxHeight)
    {
      assert forall id :: id in events ==> Graph()[id] == events[id].info;
      if Consistent(Graph(), nodes.Keys, maxHeight) {
        forall id | id in events
          ensures 0 < events[id].info.height
          ensures forall pid :: pid in events[id].info.parents ==>
                    pid in events && events[pid].info.height < events[id].info.height
        {
          assert RisesAt(Graph(), id);
        }
      }
    }

    /** Check 1 of `VerifyConsistency`. */
    method CheckCreators() returns (verdict: Verdict)
      ensures verdict.Sane? <==> KnownCreators(Graph(), nodes.Keys)
      ensures verdict.Broken? ==> Holds(verdict.what, Graph(), nodes.Keys, maxHeight)
    {
      var rest := events.Keys;
      while rest != {}
        invariant rest <= events.Keys
        invariant forall id :: id in events && id !in rest ==> events[id].info.creator in nodes
      {
        var id :| id in rest;
        if events[id].info.creator !in nodes {
          assert id in Graph();
          return Broken(UnknownCreator(id));
        }
        rest := rest - {id};
      }
      return Sane;
    }

    /** Check 2. */
    method CheckParents() returns (verdict: Verdict)
      ensures verdict.Sane? <==> ParentClosed(Graph())
      ensures verdict.Broken? ==> Holds(verdict.what, Graph(), nodes.Keys, maxHeight)
    {
      var rest := events.Keys;
      while rest != {}
        invariant rest <= events.Keys
        invariant forall id, pid :: id in events && id !in rest && pid in events[id].info.parents ==> pid in events
      {
        var id :| id in rest;
        var parents := events[id].info.parents;
        for i := 0 to |parents|
          invariant forall k :: 0 <= k < i ==> parents[k] in events
        {
          if parents[i] !in events {
            assert id in Graph() && parents[i] in Graph()[id].parents && parents[i] !in Graph();
            return Broken(MissingParent(id, parents[i]));
          }
        }
        rest := rest - {id};
      }
      return Sane;
    }

    /** Check 3; it runs only on a parent-closed graph. */
    method CheckHeights() returns (verdict: Verdict)
      requires ParentClosed(Graph())
      ensures verdict.Sane? <==> HeightsRise(Graph())
      ensures verdict.Broken? ==> Holds(verdict.what, Graph(), nodes.Keys, maxHeight)
    {
      var rest := events.Keys;
      while rest != {}
        invariant rest <= events.Keys
        invariant forall id :: id in events && id !in rest ==> RisesAt(Graph(), id)
      {
        var id :| id in rest;
        var info := events[id].info;
        assert Graph()[id] == info && forall pid :: pid in info.parents ==> pid in Graph();
        if info.height == 0 {
          assert !RisesAt(Graph(), id);
          return Broken(ZeroHeight(id));
        }
        if |info.parents| > 0 {
          var maxParentHeight := MaxParentHeight(info.parents);
          if info.height <= maxParentHeight {
            assert !RisesAt(Graph(), id);
            return Broken(LowHeight(id, maxParentHeight));
          }
        }
        rest := rest - {id};
      }
      return Sane;
    }

    method MaxParentHeight(parents: seq<EventId>) returns (h: nat)
      requires forall pid :: pid in parents ==> pid in Graph()
      ensures forall pid :: pid in parents ==> Graph()[pid].height <= h
      ensures h == 0 || exists pid :: pid in parents && Graph()[pid].height == h
    {
      h := 0;
      for i := 0 to |parents|
        invariant forall k :: 0 <= k < i ==> Graph()[parents[k]].height <= h
        invariant h == 0 || exists pid :: pid in parents && Graph()[pid].height == h
      {
        assert parents[i] in Graph();
        if events[parents[i]].info.height > h {
          h := events[parents[i]].info.height;
        }
      }
    }

    method ActualMaxHeight() returns (actual: nat)
      ensures IsMaxHeight(Graph(), actual)
    {
      actual := 0;
      var rest := events.Keys;
      while rest != {}
        invariant rest <= events.Keys
        invariant forall id :: id in events && id !in rest ==> events[id].info.height <= actual
        invariant actual == 0 || exists id :: id in events && events[id].info.height == actual
      {
        var id :| id in rest;
        if events[id].info.height > actual {
          actual := events[id].info.height;
        }
        rest := rest - {id};
      }
      if actual != 0 {
        var id :| id in events && events[id].info.height == actual;
        assert id in Graph() && Graph()[id].height == actual;
      }
    }

    /** One repair pass; it reports a change exactly when the graph or the height changed. */
    method RepairConsistency() returns (madeChanges: bool)
      modifies this`events, this`maxHeight
      ensures RepairStep(nodes.Keys, old(RepairState(Graph(), maxHeight)), RepairState(Graph(), maxHeight))
      ensures madeChanges <==> Graph() != old(Graph()) || maxHeight != old(maxHeight)
      ensures forall id :: id in events ==> id in old(events) && events[id] == old(events[id])
      ensures forall id :: id in events <==>
                && id in old(events) && old(events)[id].info.creator in nodes
                && forall pid :: pid in old(events)[id].info.parents ==>
                     pid in old(events) && old(events)[pid].info.creator in nodes
      ensures forall id :: id in events ==> events[id].info.height <= maxHeight
      ensures maxHeight == 0 || exists id :: id in events && events[id].info.height == maxHeight
    {
      hide DropUnknownCreators, DropOrphans;
      madeChanges := RemoveUnknownCreators();
      label Known:
      var orphans := RemoveOrphans();
      assert Graph().Keys <= old@Known(Graph()).Keys <= old(Graph()).Keys;
      madeChanges := madeChanges || orphans;
      var actual := ActualMaxHeight();
      if maxHeight != actual {
        maxHeight := actual;
        madeChanges := true;
      }
      RepairMeans();
    }

    /** What one pass leaves. */
    twostate lemma RepairMeans()
      requires nodes == old(nodes)
      requires RepairStep(nodes.Keys, old(RepairState(Graph(), maxHeight)), RepairState(Graph(), maxHeight))
      ensures forall id :: id in events <==>
                && id in old(events) && old(events)[id].info.creator in nodes
                && forall pid :: pid in old(events)[id].info.parents ==>
                     pid in old(events) && old(events)[pid].info.creator in nodes
      ensures forall id :: id in events ==> events[id].info.height <= maxHeight
      ensures maxHeight == 0 || exists id :: id in events && events[id].info.height == maxHeight
    {
      PassIs(old(Graph()), nodes.Keys);
      hide DropUnknownCreators, DropOrphans, Pass;
      assert forall id :: id in old(events) ==> old(Graph())[id] == old(events)[id].info;
      assert forall id :: id in events <==> id in Graph();
      assert forall id :: id in events ==> Graph()[id] == events[id].info;
    }

    /** Step 1: collect the events whose creator is unknown, then delete them. */
    method RemoveUnknownCreators() returns (removed: bool)
      modifies this`events
      ensures Graph() == DropUnknownCreators(old(Graph()), nodes.Keys)
      ensures removed <==> Graph() != old(Graph())
      ensures forall id :: id in events ==> id in old(events) && events[id] == old(events[id])
    {
      var toRemove: set<EventId> := {};
      var rest := events.Keys;
      while rest != {}
        invariant rest <= events.Keys
        invariant toRemove == set id | id in events && id !in rest && events[id].info.creator !in nodes
      {
        var id :| id in rest;
        if events[id].info.creator !in nodes {
          toRemove := toRemove + {id};
        }
        rest := rest - {id};
      }
      removed := toRemove != {};
      events := events - toRemove;
      if removed {
        var id :| id in toRemove;
        assert id in old(Graph()) && id !in Graph();
      }
    }

    /** Step 2: collect the events with a missing parent, then delete them. */
    method RemoveOrphans() returns (removed: bool)
      modifies this`events
      ensures Graph() == DropOrphans(old(Graph()))
      ensures removed <==> Graph() != old(Graph())
      ensures forall id :: id in events ==> id in old(events) && events[id] == old(events[id])
    {
      var toRemove: set<EventId> := {};
      var rest := events.Keys;
      while rest != {}
        invariant rest <= events.Keys && events == old(events)
        invariant toRemove == set id | id in events && id !in rest
                                && exists pid :: pid in events[id].info.parents && pid !in events
      {
        var id :| id in rest;
        var orphan := HasMissingParent(events[id].info.parents);
        if orphan {
          toRemove := toRemove + {id};
        }
        rest := rest - {id};
      }
      removed := toRemove != {};
      events := events - toRemove;
      if removed {
        var id :| id in toRemove;
        assert id in old(Graph()) && id !in Graph();
      }
    }

    ghost function Snapshot(): DagSnapshot
      reads this, nodes.Values, events.Values
    {
      DagSnapshot(NodeRecords(nodes), EventRecords(events), maxHeight)
    }

    /** What others do to other objects does not show in a snapshot. */
    twostate lemma SnapshotStays()
      requires unchanged(this)
      requires forall v :: v in nodes ==> unchanged(nodes[v])
      requires forall id :: id in events ==> unchanged(events[id])
      ensures Snapshot() == old(Snapshot())
    {
    }

    method GetState() returns (s: DagSnapshot)
      ensures s == Snapshot()
      ensures s.nodes.Keys == nodes.Keys && s.events.Keys == events.Keys && s.maxHeight == maxHeight
      ensures forall id :: id in nodes ==>
                s.nodes[id].stake == nodes[id].stake && s.nodes[id].active == nodes[id].active
                && s.nodes[id].history == nodes[id].history
      ensures forall id :: id in events ==>
                s.events[id].info == events[id].info && s.events[id].finalized == events[id].finalized
    {
      s := DagSnapshot(NodeRecords(nodes), EventRecords(events), maxHeight);
      SnapshotMeans(s);
    }

    method Install(newNodes: map<NodeId, Node>, newEvents: map<EventId, Event>, height: nat)
      modifies this`nodes, this`events, this`maxHeight
      ensures nodes == newNodes && events == newEvents && maxHeight == height
      ensures NodeRecords(newNodes) == old(NodeRecords(newNodes))
      ensures EventRecords(newEvents) == old(EventRecords(newEvents))
    {
      nodes, events, maxHeight := newNodes, newEvents, height;
    }

    /** Rebuilds the maps from fresh objects. */
    method RestoreState(s: DagSnapshot)
      modifies this`nodes, this`events, this`maxHeight
      ensures Valid() && fresh(nodes.Values) && fresh(events.Values)
      ensures Snapshot() == s
      ensures nodes.Keys == s.nodes.Keys && events.Keys == s.events.Keys && maxHeight == s.maxHeight
      ensures forall id :: id in nodes ==>
                nodes[id].stake == s.nodes[id].stake && nodes[id].active == s.nodes[id].active
                && nodes[id].history == s.nodes[id].history
      ensures forall id :: id in events ==>
                events[id].info == s.events[id].info && events[id].finalized == s.events[id].finalized
    {
      var newNodes := RestoreNodes(s.nodes);
      label Nodes:
      var newEvents := RestoreEvents(s.events);
      assert NodeRecords(newNodes) == old@Nodes(NodeRecords(newNodes));
      Install(newNodes, newEvents, s.maxHeight);
      SnapshotMeans(s);
    }

    /** A snapshot holds the fields of every node and event. */
    lemma SnapshotMeans(s: DagSnapshot)
      requires Snapshot() == s
      ensures nodes.Keys == s.nodes.Keys && events.Keys == s.events.Keys && maxHeight == s.maxHeight
      ensures forall id :: id in nodes ==>
                nodes[id].stake == s.nodes[id].stake && nodes[id].active == s.nodes[id].active
                && nodes[id].history == s.nodes[id].history
      ensures forall id :: id in events ==>
                events[id].info == s.events[id].info && events[id].finalized == s.events[id].finalized
    {
      assert forall id :: id in nodes ==>
               s.nodes[id] == NodeRecord(nodes[id].stake, nodes[id].active, nodes[id].history);
      assert forall id :: id in events ==> s.events[id] == Rec(events[id]);
    }

    method HasMissingParent(parents: seq<EventId>) returns (missing: bool)
      ensures missing <==> exists pid :: pid in parents && pid !in events
    {
      for i := 0 to |parents|
        invariant forall k :: 0 <= k < i ==> parents[k] in events
      {
        if parents[i] !in events {
          return true;
        }
      }
      return false;
    }
  }

  lemma {:induction false} MapSize<K, V, W>(a: map<K, V>, b: map<K, W>)
    requires a.Keys == b.Keys
    ensures |a| == |b|
  {
    assert |a| == |a.Keys| && |b| == |b.Keys|;
  }
}
