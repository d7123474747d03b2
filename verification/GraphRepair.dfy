/** What repeated calls of `RepairConsistency` converge to. */
module GraphRepair {
  import opened Bytes
  import opened EventGraph
  import opened DagRuns
  import opened Lists

  datatype RepairState = RepairState(graph: Graph, maxHeight: nat)

  ghost function DropUnknownCreators(g: Graph, known: set<NodeId>): Graph {
    map id | id in g && g[id].creator in known :: g[id]
  }

  ghost function DropOrphans(g: Graph): Graph {
    map id | id in g && (forall pid :: pid in g[id].parents ==> pid in g) :: g[id]
  }

  /** The events one call leaves.  Orphans are collected before any of them is deleted, so
      a call does not cascade. */
  ghost function Pass(g: Graph, known: set<NodeId>): Graph {
    DropOrphans(DropUnknownCreators(g, known))
  }

  /** What one call leaves, in terms of the graph before. */
  lemma PassIs(g: Graph, known: set<NodeId>)
    ensures forall id :: id in Pass(g, known) <==>
              && id in g && g[id].creator in known
              && forall pid :: pid in g[id].parents ==> pid in g && g[pid].creator in known
  {
  }

  ghost predicate RepairStep(known: set<NodeId>, s: RepairState, s': RepairState) {
    s'.graph == Pass(s.graph, known) && IsMaxHeight(s'.graph, s'.maxHeight)
  }

  /** Successive states under repeated calls. */
  ghost predicate RepairRun(known: set<NodeId>, run: seq<RepairState>) {
    && |run| > 0
    && forall i :: 0 <= i < |run| - 1 ==> RepairStep(known, run[i], run[i + 1])
  }

  /** A set of events fit to stay: creators known and all parents in the set. */
  ghost predicate Sound(g: Graph, known: set<NodeId>, ids: set<EventId>) {
    && ids <= g.Keys
    && forall id :: id in ids ==> g[id].creator in known && forall pid :: pid in g[id].parents ==> pid in ids
  }

  ghost predicate SubGraph(small: Graph, big: Graph) {
    small.Keys <= big.Keys && forall id :: id in small ==> small[id] == big[id]
  }

  lemma PassKeepsSound(g: Graph, known: set<NodeId>, ids: set<EventId>)
    requires Sound(g, known, ids)
    ensures Sound(Pass(g, known), known, ids) && SubGraph(Pass(g, known), g)
  {
    assert ids <= DropUnknownCreators(g, known).Keys;
  }

  /** Nothing fit to stay is ever removed, however often the repair is called. */
  lemma {:induction false} RunKeepsSound(known: set<NodeId>, run: seq<RepairState>, ids: set<EventId>)
    requires RepairRun(known, run) && Sound(run[0].graph, known, ids)
    ensures Sound(run[|run| - 1].graph, known, ids) && SubGraph(run[|run| - 1].graph, run[0].graph)
    decreases |run|
  {
    if |run| > 1 {
      assert RepairStep(known, run[0], run[1]);
      PassKeepsSound(run[0].graph, known, ids);
      RunKeepsSound(known, run[1..], ids);
    }
  }

  /** When a call changes nothing, what is left is the largest sound set of the events the
      first call saw, unaltered, with the maximum height corrected. */
  lemma RepairReachesLargest(known: set<NodeId>, run: seq<RepairState>, ids: set<EventId>)
    requires RepairRun(known, run) && |run| >= 2 && run[|run| - 1] == run[|run| - 2]
    ensures var last := run[|run| - 1];
            && SubGraph(last.graph, run[0].graph)
            && Sound(run[0].graph, known, last.graph.Keys)
            && (Sound(run[0].graph, known, ids) ==> ids <= last.graph.Keys)
            && IsMaxHeight(last.graph, last.maxHeight)
  {
    var last := run[|run| - 1];
    RunKeepsSound(known, run, {});
    if Sound(run[0].graph, known, ids) {
      RunKeepsSound(known, run, ids);
    }
    assert RepairStep(known, run[|run| - 2], run[|run| - 1]);
    assert last.graph == Pass(last.graph, known);
    forall id | id in last.graph
      ensures last.graph[id].creator in known
      ensures forall pid :: pid in last.graph[id].parents ==> pid in last.graph
    {
      assert id in Pass(last.graph, known);
    }
  }

  lemma PassShrinks(g: Graph, known: set<NodeId>)
    ensures |Pass(g, known)| <= |g|
    ensures Pass(g, known) != g ==> |Pass(g, known)| < |g|
  {
    var p := Pass(g, known);
    assert p.Keys <= g.Keys;
    SubsetSize(p.Keys, g.Keys);
    if p.Keys == g.Keys {
      assert p == g;
    }
  }

  lemma MaxHeightUnique(g: Graph, h: nat, k: nat)
    requires IsMaxHeight(g, h) && IsMaxHeight(g, k)
    ensures h == k
  {
  }

  /** Some call among the first |events| + 2 changes nothing. */
  lemma {:induction false} RepairTerminates(known: set<NodeId>, run: seq<RepairState>) returns (k: nat)
    requires RepairRun(known, run) && |run| >= |run[0].graph| + 3
    ensures k <= |run[0].graph| + 1 && run[k] == run[k + 1]
    decreases |run|
  {
    assert RepairStep(known, run[0], run[1]);
    PassShrinks(run[0].graph, known);
    if run[0] == run[1] {
      k := 0;
    } else if run[0].graph == run[1].graph {
      assert RepairStep(known, run[1], run[2]);
      MaxHeightUnique(run[1].graph, run[1].maxHeight, run[2].maxHeight);
      k := 1;
    } else {
      k := RepairTerminates(known, run[1..]);
      k := k + 1;
    }
  }

  /** One call need not be enough: a chain with a missing root loses one event a call. */
  lemma OnePassDoesNotCascade() returns (g: Graph, known: set<NodeId>)
    ensures KnownCreators(g, known) && !ParentClosed(Pass(g, known))
  {
    var root, a, b := EventId(0, 7, 1, []), EventId(0, 7, 2, []), EventId(0, 7, 3, []);
    g := map[a := EventInfo(a, 7, [root], [], 0, 2), b := EventInfo(b, 7, [a], [], 0, 3)];
    known := {7};
    var p := Pass(g, known);
    assert DropUnknownCreators(g, known) == g;
    assert root in g[a].parents && root !in g;
    assert b in p && a in p[b].parents && a !in p;
  }

  /** An event with a known creator that lacks a parent, or has one whose creator is unknown. */
  ghost predicate Orphan(g: Graph, known: set<NodeId>, id: EventId) {
    && id in g && g[id].creator in known
    && exists pid :: pid in g[id].parents && (pid !in g || g[pid].creator !in known)
  }

  /** Exactly when a single call is enough: every child of an orphan is an orphan too. */
  lemma OnePassSuffices(g: Graph, known: set<NodeId>)
    ensures Sound(g, known, Pass(g, known).Keys) <==>
            forall id, pid :: id in g && g[id].creator in known && pid in g[id].parents && Orphan(g, known, pid)
              ==> Orphan(g, known, id)
  {
    forall id ensures id in Pass(g, known) <==> id in g && g[id].creator in known && !Orphan(g, known, id) {}
  }

  // ------------------------------------------------------------------ repair and new IDs

  /** A consistent DAG is left alone, so among the operations that keep it consistent the
      repair never sets the running count back. */
  lemma RepairLeavesConsistentAlone(g: Graph, known: set<NodeId>, maxHeight: nat, s: RepairState)
    requires Consistent(g, known, maxHeight) && RepairStep(known, RepairState(g, maxHeight), s)
    ensures s == RepairState(g, maxHeight)
  {
    assert DropUnknownCreators(g, known) == g;
    assert Pass(g, known) == g;
    MaxHeightUnique(g, maxHeight, s.maxHeight);
  }

  /** Elsewhere a repair can set it back so far that an ID comes again; exactly when it does
      not, whatever is done afterwards. */
  lemma NewIdsAfterRepair(s: DagState)
    ensures var left := Pass(s.graph, s.nodes.Keys);
            (forall ops :: AllFresh(s.(graph := left), ops)) <==> forall id :: id in left ==> id.count <= |left|
  {
    IdsStayNewExactly(s.(graph := Pass(s.graph, s.nodes.Keys)));
  }

  /** An orphan, which the DAG accepts, is enough: after its removal the very next ID is taken. */
  lemma RepairCanRepeatAnId() returns (ops: seq<DagOp>, creator: NodeId, data: seq<Byte>, now: int)
    ensures var s := ApplyAll(EMPTY, ops);
            var left := Pass(s.graph, s.nodes.Keys);
            creator in s.nodes && s.nodes[creator].active && BuiltEvent(left, creator, [], data, now).id in left
  {
    creator, data, now := 7, [], 0;
    var missing := EventId(0, 0, 0, []);
    var a := BuiltEvent(map[], creator, [missing], data, now);
    var b := BuiltEvent(map[a.id := a], creator, [], data, now);
    var first, second := NewEvent(creator, [missing], data, now), NewEvent(creator, [], data, now);
    ops := [AddNode(creator, 1)] + ([first] + [second]);
    var nodes := map[creator := NodeRec(1, true)];
    var g := map[a.id := a, b.id := b];
    OrphanRun(a, b);
    OrphanGoes(g, nodes.Keys, a, b, missing);
  }

  lemma OrphanGoes(g: Graph, known: set<NodeId>, a: EventInfo, b: EventInfo, missing: EventId)
    requires g == map[a.id := a, b.id := b] && a.id != b.id && missing !in g && known == {7}
    requires a.creator == 7 && b.creator == 7 && a.parents == [missing] && b.parents == []
    ensures Pass(g, known) == map[b.id := b]
  {
    assert DropUnknownCreators(g, known) == g;
    assert missing in g[a.id].parents;
    assert Pass(g, known).Keys == {b.id};
  }

  lemma OrphanRun(a: EventInfo, b: EventInfo)
    requires a == BuiltEvent(map[], 7, [EventId(0, 0, 0, [])], [], 0) && b == BuiltEvent(map[a.id := a], 7, [], [], 0)
    ensures var s := ApplyAll(EMPTY, [AddNode(7, 1)] + ([NewEvent(7, [EventId(0, 0, 0, [])], [], 0)]
                                                        + [NewEvent(7, [], [], 0)]));
            s.nodes == map[7 := NodeRec(1, true)] && s.graph == map[a.id := a, b.id := b]
  {
    hide ApplyAll, AllKnownParents;
    var nodes := map[7 := NodeRec(1, true)];
    var first, second := NewEvent(7, [EventId(0, 0, 0, [])], [], 0), NewEvent(7, [], [], 0);
    var none, one := DagState(nodes, map[], 0), Apply(DagState(nodes, map[], 0), first);
    RunUnfolds(EMPTY, AddNode(7, 1), [first] + [second]);
    RunUnfolds(none, first, [second]);
    RunUnfolds(one, second, []);
    assert [second] + [] == [second];
    RunOver(Apply(one, second));
    assert one.graph == map[a.id := a];
  }

  /** The clock can help, too: once it is past every stored event, the next ID is new. */
  lemma LaterClockMakesFresh(g: Graph, creator: NodeId, parents: seq<EventId>, data: seq<Byte>, now: int)
    requires forall id :: id in g ==> id.timestamp < now
    ensures BuiltEvent(g, creator, parents, data, now).id !in g
  {
  }
}
