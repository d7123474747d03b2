/** What holds over every run of the operations that build a DAG. */
module DagRuns {
  import opened Bytes
  import opened Sums
  import opened EventGraph

  datatype DagState = DagState(nodes: NodeTable, graph: Graph, maxHeight: nat)

  datatype DagOp =
    | AddNode(node: NodeId, stake: nat)
    | UpdateNodeStake(node: NodeId, stake: nat)
    | RemoveNode(node: NodeId)
    | NewEvent(creator: NodeId, parents: seq<EventId>, data: seq<Byte>, now: int)

  /** The state a DAG operation leads to; a refused operation changes nothing. */
  function Apply(s: DagState, op: DagOp): DagState {
    match op
    case AddNode(v, stake) => s.(nodes := s.nodes[v := NodeRec(stake, true)])
    case UpdateNodeStake(v, stake) =>
      if v in s.nodes then s.(nodes := s.nodes[v := NodeRec(stake, s.nodes[v].active)]) else s
    case RemoveNode(v) =>
      if v in s.nodes then s.(nodes := s.nodes[v := NodeRec(s.nodes[v].stake, false)]) else s
    case NewEvent(creator, parents, data, now) =>
      if creator in s.nodes && s.nodes[creator].active then
        var e := BuiltEvent(s.graph, creator, parents, data, now);
        DagState(s.nodes, s.graph[e.id := e], RaisedHeight(s.maxHeight, e))
      else s
  }

  function ApplyAll(s: DagState, ops: seq<DagOp>): DagState
    decreases |ops|
  {
    if ops == [] then s else ApplyAll(Apply(s, ops[0]), ops[1..])
  }

  ghost predicate KnownParents(s: DagState, op: DagOp) {
    op.NewEvent? ==> forall pid :: pid in op.parents ==> pid in s.graph
  }

  ghost predicate AllKnownParents(s: DagState, ops: seq<DagOp>)
    decreases |ops|
  {
    ops != [] ==> KnownParents(s, ops[0]) && AllKnownParents(Apply(s, ops[0]), ops[1..])
  }

  const EMPTY := DagState(map[], map[], 0)

  lemma StepStaysGrown(s: DagState, op: DagOp)
    requires Grown(s.graph, s.nodes.Keys, s.maxHeight) && KnownParents(s, op)
    ensures var s' := Apply(s, op);
            Grown(s'.graph, s'.nodes.Keys, s'.maxHeight) && s.graph.Keys <= s'.graph.Keys
  {
    if op.NewEvent? && op.creator in s.nodes {
      NewEventGrows(s.graph, s.nodes.Keys, s.maxHeight, op.creator, op.parents, op.data, op.now);
    }
  }

  lemma {:induction false} RunStaysGrown(s: DagState, ops: seq<DagOp>)
    requires Grown(s.graph, s.nodes.Keys, s.maxHeight) && AllKnownParents(s, ops)
    ensures var t := ApplyAll(s, ops); Grown(t.graph, t.nodes.Keys, t.maxHeight)
    decreases |ops|
  {
    if ops != [] {
      StepStaysGrown(s, ops[0]);
      RunStaysGrown(Apply(s, ops[0]), ops[1..]);
    }
  }

  /** Own IDs need no known parents: the running count alone keeps every ID unused. */
  lemma {:induction false} RunKeepsOwnIds(s: DagState, ops: seq<DagOp>)
    requires OwnIds(s.graph) && CountsBounded(s.graph)
    ensures OwnIds(ApplyAll(s, ops).graph) && CountsBounded(ApplyAll(s, ops).graph)
    decreases |ops|
  {
    if ops != [] {
      StepKeepsOwnIds(s, ops[0]);
      RunKeepsOwnIds(Apply(s, ops[0]), ops[1..]);
    }
  }

  lemma StepKeepsOwnIds(s: DagState, op: DagOp)
    requires OwnIds(s.graph) && CountsBounded(s.graph)
    ensures OwnIds(Apply(s, op).graph) && CountsBounded(Apply(s, op).graph)
    ensures forall id :: id in s.graph ==> id in Apply(s, op).graph && Apply(s, op).graph[id] == s.graph[id]
  {
    if op.NewEvent? {
      var e := BuiltEvent(s.graph, op.creator, op.parents, op.data, op.now);
      NewIdIsFresh(s.graph, e.id, e);
    }
  }

  lemma {:induction false} RunKeepsSees(s: DagState, ops: seq<DagOp>, e: EventInfo, v: NodeId)
    requires Grown(s.graph, s.nodes.Keys, s.maxHeight) && AllKnownParents(s, ops)
    requires forall pid :: pid in e.parents ==> pid in s.graph
    ensures Sees(ApplyAll(s, ops).graph, v, e) <==> Sees(s.graph, v, e)
    decreases |ops|
  {
    if ops != [] {
      hide Sees, Apply, Grown, KnownParents;
      StepStaysGrown(s, ops[0]);
      StepKeepsSees(s, ops[0], e, v);
      RunKeepsSees(Apply(s, ops[0]), ops[1..], e, v);
    }
  }

  lemma StepKeepsSees(s: DagState, op: DagOp, e: EventInfo, v: NodeId)
    requires Grown(s.graph, s.nodes.Keys, s.maxHeight) && forall pid :: pid in e.parents ==> pid in s.graph
    ensures Sees(Apply(s, op).graph, v, e) <==> Sees(s.graph, v, e)
  {
    hide Sees;
    if op.NewEvent? {
      var added := BuiltEvent(s.graph, op.creator, op.parents, op.data, op.now);
      NewIdIsFresh(s.graph, added.id, added);
      GrowthKeepsSees(s.graph, added, e, v);
    }
  }

  /** However a DAG grows on, the votes and detections under one stake table stay the same for
      every event whose parents were present. */
  lemma RunKeepsDecisions(s: DagState, ops: seq<DagOp>, nodes: NodeTable, threshold: real, e: EventInfo)
    requires Grown(s.graph, s.nodes.Keys, s.maxHeight) && AllKnownParents(s, ops)
    requires forall pid :: pid in e.parents ==> pid in s.graph
    ensures Passes(ApplyAll(s, ops).graph, nodes, threshold, e) <==> Passes(s.graph, nodes, threshold, e)
    ensures Detected(ApplyAll(s, ops).graph, nodes, threshold, e) <==> Detected(s.graph, nodes, threshold, e)
  {
    var w := ActiveStakes(nodes);
    forall v ensures Sees(ApplyAll(s, ops).graph, v, e) <==> Sees(s.graph, v, e) {
      RunKeepsSees(s, ops, e, v);
    }
    assert SeenBy(ApplyAll(s, ops).graph, w.Keys, e) == SeenBy(s.graph, w.Keys, e);
  }

  /** ... and whatever comes to descend from a passing event, in whatever run, passes too. */
  lemma LaterDescendantsPass(s: DagState, ops: seq<DagOp>, nodes: NodeTable, threshold: real,
                             e: EventInfo, descendant: EventInfo)
    requires Grown(s.graph, s.nodes.Keys, s.maxHeight) && AllKnownParents(s, ops)
    requires forall pid :: pid in e.parents ==> pid in s.graph
    requires ActiveCreator(nodes, e) && Passes(s.graph, nodes, threshold, e)
    requires Reaches(ApplyAll(s, ops).graph, descendant, e)
    ensures Passes(ApplyAll(s, ops).graph, nodes, threshold, descendant)
  {
    RunKeepsDecisions(s, ops, nodes, threshold, e);
    DescendantPasses(ApplyAll(s, ops).graph, nodes, threshold, descendant, e);
  }

  /** An event outside the DAG under an ID that the DAG, built from nothing, holds already: its
      vote does not see what only the stored entry shows, and fails where the comparison holds. */
  lemma ForeignEventIsRefused() returns (ops: seq<DagOp>, e: EventInfo)
    ensures var t := ApplyAll(EMPTY, ops);
            && OwnIds(t.graph) && AllKnownParents(EMPTY, ops) && !Identified(t.graph, e)
            && (forall pid :: pid in e.parents ==> pid in t.graph) && ActiveCreator(t.nodes, e)
            && Passes(t.graph, t.nodes, 0.66, e) && !Passes(t.graph - {e.id}, t.nodes, 0.66, e)
  {
    var x := BuiltEvent(map[], 2, [], [], 0);
    var y := BuiltEvent(map[x.id := x], 3, [x.id], [], 1);
    ops := [AddNode(1, 1), AddNode(2, 10), AddNode(3, 1), NewEvent(2, [], [], 0), NewEvent(3, [x.id], [], 1)];
    e := EventInfo(x.id, 1, [y.id], [], 0, 1);
    var t := DagState(map[1 := NodeRec(1, true), 2 := NodeRec(10, true), 3 := NodeRec(1, true)],
                      map[x.id := x, y.id := y], 2);
    ForeignRun(x, y);
    ForeignVotes(t, x, y, e);
  }

  lemma RunUnfolds(s: DagState, op: DagOp, rest: seq<DagOp>)
    ensures ApplyAll(s, [op] + rest) == ApplyAll(Apply(s, op), rest)
    ensures AllKnownParents(s, [op] + rest) <==> KnownParents(s, op) && AllKnownParents(Apply(s, op), rest)
  {
    assert ([op] + rest)[0] == op && ([op] + rest)[1..] == rest;
  }

  lemma ForeignRun(x: EventInfo, y: EventInfo)
    requires x == BuiltEvent(map[], 2, [], [], 0) && y == BuiltEvent(map[x.id := x], 3, [x.id], [], 1)
    ensures var ops := [AddNode(1, 1), AddNode(2, 10), AddNode(3, 1), NewEvent(2, [], [], 0),
                        NewEvent(3, [x.id], [], 1)];
            && AllKnownParents(EMPTY, ops)
            && ApplyAll(EMPTY, ops) ==
                 DagState(map[1 := NodeRec(1, true), 2 := NodeRec(10, true), 3 := NodeRec(1, true)],
                          map[x.id := x, y.id := y], 2)
  {
    hide ApplyAll, AllKnownParents;
    var first, second := NewEvent(2, [], [], 0), NewEvent(3, [x.id], [], 1);
    var nodes := map[1 := NodeRec(1, true), 2 := NodeRec(10, true), 3 := NodeRec(1, true)];
    var none, one := DagState(nodes, map[], 0), DagState(nodes, map[x.id := x], 1);
    RunOver(DagState(nodes, map[x.id := x, y.id := y], 2));
    RunUnfolds(one, second, []);
    RunUnfolds(none, first, [second]);
    assert [first] + [second] == [first, second] && [second] + [] == [second];
    assert Apply(none, first) == one;
    Joining([first, second]);
    assert [AddNode(1, 1), AddNode(2, 10), AddNode(3, 1)] + [first, second] ==
           [AddNode(1, 1), AddNode(2, 10), AddNode(3, 1), first, second];
  }

  lemma RunOver(s: DagState)
    ensures ApplyAll(s, []) == s && AllKnownParents(s, [])
  {
  }

  lemma Joining(rest: seq<DagOp>)
    ensures var ops := [AddNode(1, 1), AddNode(2, 10), AddNode(3, 1)] + rest;
            var joined := DagState(map[1 := NodeRec(1, true), 2 := NodeRec(10, true), 3 := NodeRec(1, true)], map[], 0);
            && ApplyAll(EMPTY, ops) == ApplyAll(joined, rest)
            && (AllKnownParents(EMPTY, ops) <==> AllKnownParents(joined, rest))
  {
    hide ApplyAll, AllKnownParents;
    var a, b, c := AddNode(1, 1), AddNode(2, 10), AddNode(3, 1);
    RunUnfolds(EMPTY, a, [b] + ([c] + rest));
    RunUnfolds(Apply(EMPTY, a), b, [c] + rest);
    RunUnfolds(Apply(Apply(EMPTY, a), b), c, rest);
    assert [a, b, c] + rest == [a] + ([b] + ([c] + rest));
  }

  lemma ForeignVotes(t: DagState, x: EventInfo, y: EventInfo, e: EventInfo)
    requires t.nodes == map[1 := NodeRec(1, true), 2 := NodeRec(10, true), 3 := NodeRec(1, true)]
    requires t.graph == map[x.id := x, y.id := y] && x.id != y.id
    requires x.creator == 2 && y.creator == 3 && y.parents == [x.id] && e == EventInfo(x.id, 1, [y.id], [], 0, 1)
    ensures Passes(t.graph, t.nodes, 0.66, e) && !Passes(t.graph - {e.id}, t.nodes, 0.66, e)
  {
    hide Sees;
    var g, cut, w := t.graph, t.graph - {e.id}, ActiveStakes(t.nodes);
    assert w == map[1 := 1, 2 := 10, 3 := 1];
    ForeignStakes(w);
    ForeignSight(g, x, y, e);
    assert 2 in SeenBy(g, w.Keys, e);
    TotalPick(SeenBy(g, w.Keys, e), w, 2);
    TotalMonotone(SeenBy(cut, w.Keys, e), w.Keys - {2}, w);
  }

  lemma ForeignStakes(w: map<NodeId, nat>)
    requires w == map[1 := 1, 2 := 10, 3 := 1]
    ensures Total(w.Keys - {2}, w) == 2 && Total(w.Keys, w) == 12
  {
    assert w.Keys == {1, 2, 3} && w.Keys - {2} == {1, 3} && {1, 3} - {1} == {3} && {3} - {3} == {};
    TotalPick({1, 2, 3}, w, 2);
    TotalPick({1, 3}, w, 1);
    TotalPick({3}, w, 3);
  }

  lemma ForeignSight(g: Graph, x: EventInfo, y: EventInfo, e: EventInfo)
    requires g == map[x.id := x, y.id := y] && x.id != y.id && e.id == x.id && e.parents == [y.id]
    requires x.creator == 2 && y.creator == 3 && y.parents == [x.id] && e.creator == 1
    ensures Sees(g, 2, e) && !Sees(g - {e.id}, 2, e)
  {
    var cut := g - {e.id};
    assert g[y.id] in Parents(g, e) && g[x.id] in Parents(g, y);
    ParentReached(g, e, y);
    ReachesExtend(g, e, y, x);
    assert Parents(cut, e) == {y} && Parents(cut, y) == {};
    ClosedSetDecides(cut, 2, e, {e, y});
  }

  /** Payload, clock reading and creator of every event of a DAG built from nothing are those in
      its ID, whose count lies between 1 and the number of events. */
  lemma BuiltEventsMatchTheirIds(ops: seq<DagOp>, id: EventId)
    ensures var g := ApplyAll(EMPTY, ops).graph;
            id in g ==>
              && g[id].id == id && g[id].data == id.data && g[id].timestamp == id.timestamp
              && g[id].creator == id.creator && 1 <= id.count <= |g|
  {
    RunKeepsMatch(EMPTY, ops);
    RunKeepsOwnIds(EMPTY, ops);
  }

  ghost predicate MatchesId(e: EventInfo) {
    e.data == e.id.data && e.timestamp == e.id.timestamp && e.creator == e.id.creator && 1 <= e.id.count
  }

  lemma {:induction false} RunKeepsMatch(s: DagState, ops: seq<DagOp>)
    requires forall id :: id in s.graph ==> MatchesId(s.graph[id])
    ensures forall id :: id in ApplyAll(s, ops).graph ==> MatchesId(ApplyAll(s, ops).graph[id])
    decreases |ops|
  {
    if ops != [] {
      var op := ops[0];
      if op.NewEvent? {
        BuiltEventIs(s.graph, op.creator, op.parents, op.data, op.now);
      }
      RunKeepsMatch(Apply(s, op), ops[1..]);
    }
  }

  // ------------------------------------------------------------------ new IDs

  /** Every event that the run adds gets an ID not in use. */
  ghost predicate AllFresh(s: DagState, ops: seq<DagOp>)
    decreases |ops|
  {
    ops != [] ==> FreshAt(s, ops[0]) && AllFresh(Apply(s, ops[0]), ops[1..])
  }

  ghost predicate FreshAt(s: DagState, op: DagOp) {
    op.NewEvent? && op.creator in s.nodes && s.nodes[op.creator].active ==>
      BuiltEvent(s.graph, op.creator, op.parents, op.data, op.now).id !in s.graph
  }

  /** The next ID is new for certain exactly if no event carries the next count. */
  lemma NextIdFreeExactly(g: Graph)
    ensures (forall creator, parents, data, now :: BuiltEvent(g, creator, parents, data, now).id !in g) <==>
              forall id :: id in g ==> id.count != |g| + 1
  {
    forall id | id in g && id.count == |g| + 1
      ensures BuiltEvent(g, id.creator, [], id.data, id.timestamp).id in g
    {
      assert BuiltEvent(g, id.creator, [], id.data, id.timestamp).id == id;
    }
  }

  lemma {:induction false} BoundedRunsAreFresh(s: DagState, ops: seq<DagOp>)
    requires CountsBounded(s.graph)
    ensures AllFresh(s, ops)
    decreases |ops|
  {
    if ops != [] {
      var op := ops[0];
      if op.NewEvent? {
        var e := BuiltEvent(s.graph, op.creator, op.parents, op.data, op.now);
        NewIdIsFresh(s.graph, e.id, e);
      }
      BoundedRunsAreFresh(Apply(s, op), ops[1..]);
    }
  }

  lemma FreshUnfolds(s: DagState, op: DagOp, rest: seq<DagOp>)
    ensures AllFresh(s, [op] + rest) <==> FreshAt(s, op) && AllFresh(Apply(s, op), rest)
  {
    assert ([op] + rest)[0] == op && ([op] + rest)[1..] == rest;
  }

  lemma AddedIsActive(s: DagState, v: NodeId)
    ensures var s' := Apply(s, AddNode(v, 0)); s'.graph == s.graph && v in s'.nodes && s'.nodes[v].active
  {
  }

  lemma FreshGrows(s: DagState, op: DagOp)
    requires op.NewEvent? && op.creator in s.nodes && s.nodes[op.creator].active && FreshAt(s, op)
    ensures |Apply(s, op).graph| == |s.graph| + 1 && s.graph.Keys <= Apply(s, op).graph.Keys
  {
    var e := BuiltEvent(s.graph, op.creator, op.parents, op.data, op.now);
    assert s.graph[e.id := e].Keys == s.graph.Keys + {e.id};
  }

  /** Where a count lies above the number of events, some run comes to use its ID again. */
  lemma {:induction false} RunThatRepeats(s: DagState, id: EventId) returns (ops: seq<DagOp>)
    requires id in s.graph && id.count > |s.graph|
    ensures !AllFresh(s, ops)
    decreases id.count - |s.graph|
  {
    hide AllFresh, Apply;
    var add, last := AddNode(id.creator, 0), id.count == |s.graph| + 1;
    var op := if last then NewEvent(id.creator, [], id.data, id.timestamp) else NewEvent(id.creator, [], [], 0);
    var active := Apply(s, add);
    AddedIsActive(s, id.creator);
    var rest := [];
    if FreshAt(active, op) {
      FreshGrows(active, op);
      rest := RunThatRepeats(Apply(active, op), id);
    }
    FreshUnfolds(active, op, rest);
    FreshUnfolds(s, add, [op] + rest);
    ops := [add] + ([op] + rest);
  }

  /** Exactly when all IDs to come are new, whatever is done: no count lies above the number of
      events. */
  lemma IdsStayNewExactly(s: DagState)
    ensures (forall ops :: AllFresh(s, ops)) <==> CountsBounded(s.graph)
  {
    if CountsBounded(s.graph) {
      forall ops ensures AllFresh(s, ops) {
        BoundedRunsAreFresh(s, ops);
      }
    } else {
      var id :| id in s.graph && id.count > |s.graph|;
      var ops := RunThatRepeats(s, id);
    }
  }

  // ------------------------------------------------------------------ what is built

  /** Whatever operations built a DAG, its events are identified by their IDs, which is what
      makes the search and the votes exact. */
  lemma BuiltDagsAreIdentified(ops: seq<DagOp>, id: EventId)
    ensures var g := ApplyAll(EMPTY, ops).graph; id in g ==> Identified(g, g[id])
  {
    RunKeepsOwnIds(EMPTY, ops);
  }

  /** Every DAG built from nothing with known parents passes the consistency check, has no
      cycle, and keeps its events under their own IDs. */
  lemma BuiltDagsAreSound(ops: seq<DagOp>, id: EventId, n: nat)
    requires AllKnownParents(EMPTY, ops)
    ensures var t := ApplyAll(EMPTY, ops);
            && Consistent(t.graph, t.nodes.Keys, t.maxHeight)
            && (id in t.graph ==> Identified(t.graph, t.graph[id]))
            && (id in t.graph && ReachesIn(t.graph, t.graph[id], t.graph[id], n) ==> n == 0)
  {
    RunStaysGrown(EMPTY, ops);
    var t := ApplyAll(EMPTY, ops);
    if id in t.graph {
      ConsistentIsAcyclic(t.graph, t.nodes.Keys, t.maxHeight, t.graph[id], n);
    }
  }
}
