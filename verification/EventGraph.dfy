/** Events and the graph they form through their parent IDs, as values.  The classes in
    DagStore, Voting and Finality are proved against the notions defined here. */
module EventGraph {
  import opened Bytes
  import opened Sums

  /** A 32-byte identifier of a validator, read as a number. */
  type NodeId = nat

  /** The preimage of an event ID: clock reading, creator, running event count, payload.
      SHA-256 is taken to be a free constructor over it. */
  datatype EventId = EventId(timestamp: int, creator: NodeId, count: nat, data: seq<Byte>)

  /** The part of an event that never changes after it is created. */
  datatype EventInfo = EventInfo(
    id: EventId, creator: NodeId, parents: seq<EventId>, data: seq<Byte>, timestamp: int, height: nat)

  type Graph = map<EventId, EventInfo>

  // ------------------------------------------------------------------ ancestry

  /** The parents of `e` that are present; a missing parent is skipped. */
  ghost function Parents(g: Graph, e: EventInfo): set<EventInfo> {
    set pid | pid in e.parents && pid in g :: g[pid]
  }

  /** `f` is reached from `e` by exactly `n` steps to a present parent. */
  ghost predicate ReachesIn(g: Graph, e: EventInfo, f: EventInfo, n: nat)
    decreases n
  {
    if n == 0 then e == f
    else exists p :: p in Parents(g, e) && ReachesIn(g, p, f, n - 1)
  }

  ghost predicate Reaches(g: Graph, e: EventInfo, f: EventInfo) {
    exists n: nat :: ReachesIn(g, e, f, n)
  }

  /** Some event reached from `e`, or `e` itself, was created by `v`. */
  ghost predicate Sees(g: Graph, v: NodeId, e: EventInfo) {
    exists f :: Reaches(g, e, f) && f.creator == v
  }

  ghost function SeenBy(g: Graph, candidates: set<NodeId>, e: EventInfo): set<NodeId> {
    set v | v in candidates && Sees(g, v, e)
  }

  /** Every stored event sits under its own ID. */
  ghost predicate OwnIds(g: Graph) {
    forall id :: id in g ==> g[id].id == id
  }

  /** ... and so does `e` if its ID is taken. */
  ghost predicate Identified(g: Graph, e: EventInfo) {
    OwnIds(g) && (e.id in g ==> g[e.id] == e)
  }

  /** What a search that marks events by their IDs can find at best: an event created by `v`
      that does not carry the ID of the event it started from, unless it is that event. */
  ghost predicate SeesApart(g: Graph, v: NodeId, e: EventInfo) {
    e.creator == v || exists f :: Reaches(g, e, f) && f.creator == v && f.id != e.id
  }

  /** Where an event does not sit under its own ID, an ancestor can be hidden. */
  lemma HiddenAncestor() returns (g: Graph, v: NodeId, e: EventInfo)
    ensures Sees(g, v, e) && !SeesApart(g, v, e) && !Identified(g, e)
  {
    var id, key := EventId(0, 1, 1, []), EventId(0, 2, 2, []);
    v, e := 2, EventInfo(id, 1, [key], [], 0, 2);
    var hidden := EventInfo(id, v, [], [], 0, 1);
    g := map[key := hidden];
    assert g[key] in Parents(g, e);
    assert ReachesIn(g, hidden, hidden, 0);
    assert ReachesIn(g, e, hidden, 1);
    assert Reaches(g, e, hidden);
    forall f | Reaches(g, e, f) ensures f in {e, hidden} {
      var n: nat :| ReachesIn(g, e, f, n);
      assert Parents(g, hidden) == {} && Parents(g, e) <= {e, hidden};
      ReachesInStaysIn(g, e, f, n, {e, hidden});
    }
  }

  lemma SeesCreator(g: Graph, e: EventInfo)
    ensures Sees(g, e.creator, e)
  {
    assert ReachesIn(g, e, e, 0);
    assert Reaches(g, e, e);
  }

  lemma CreatorSeenApart(g: Graph, e: EventInfo)
    ensures SeesApart(g, e.creator, e)
  {
  }

  lemma {:induction false} ReachesInExtend(g: Graph, e: EventInfo, f: EventInfo, p: EventInfo, n: nat)
    requires ReachesIn(g, e, f, n) && p in Parents(g, f)
    ensures ReachesIn(g, e, p, n + 1)
    decreases n
  {
    if n == 0 {
      assert ReachesIn(g, p, p, 0);
    } else {
      var q :| q in Parents(g, e) && ReachesIn(g, q, f, n - 1);
      ReachesInExtend(g, q, f, p, n - 1);
    }
  }

  lemma ReachesExtend(g: Graph, e: EventInfo, f: EventInfo, p: EventInfo)
    requires Reaches(g, e, f) && p in Parents(g, f)
    ensures Reaches(g, e, p)
  {
    var n: nat :| ReachesIn(g, e, f, n);
    ReachesInExtend(g, e, f, p, n);
  }

  lemma {:induction false} ReachesInChain(g: Graph, e: EventInfo, f: EventInfo, h: EventInfo, m: nat, n: nat)
    requires ReachesIn(g, e, f, m) && ReachesIn(g, f, h, n)
    ensures ReachesIn(g, e, h, m + n)
    decreases m
  {
    if m > 0 {
      var p :| p in Parents(g, e) && ReachesIn(g, p, f, m - 1);
      ReachesInChain(g, p, f, h, m - 1, n);
    }
  }

  lemma ReachesChain(g: Graph, e: EventInfo, f: EventInfo, h: EventInfo)
    requires Reaches(g, e, f) && Reaches(g, f, h)
    ensures Reaches(g, e, h)
  {
    var m: nat :| ReachesIn(g, e, f, m);
    var n: nat :| ReachesIn(g, f, h, n);
    ReachesInChain(g, e, f, h, m, n);
  }

  lemma ParentReached(g: Graph, e: EventInfo, p: EventInfo)
    requires p in Parents(g, e)
    ensures Reaches(g, e, p)
  {
    assert ReachesIn(g, p, p, 0);
    assert ReachesIn(g, e, p, 1);
  }

  lemma ReachesItself(g: Graph, e: EventInfo)
    ensures Reaches(g, e, e)
  {
    assert ReachesIn(g, e, e, 0);
  }

  // ------------------------------------------------------------------ ancestry without one entry

  /** Something reached from `e` lists `id` among its parents. */
  ghost predicate Names(g: Graph, e: EventInfo, id: EventId) {
    exists q :: Reaches(g, e, q) && id in q.parents
  }

  lemma {:induction false} ReachesInFewer(g: Graph, id: EventId, e: EventInfo, f: EventInfo, n: nat)
    requires ReachesIn(g - {id}, e, f, n)
    ensures ReachesIn(g, e, f, n)
    decreases n
  {
    if n > 0 {
      var p :| p in Parents(g - {id}, e) && ReachesIn(g - {id}, p, f, n - 1);
      assert p in Parents(g, e);
      ReachesInFewer(g, id, p, f, n - 1);
    }
  }

  lemma ReachesFewer(g: Graph, id: EventId, e: EventInfo, f: EventInfo)
    requires Reaches(g - {id}, e, f)
    ensures Reaches(g, e, f)
  {
    var n: nat :| ReachesIn(g - {id}, e, f, n);
    ReachesInFewer(g, id, e, f, n);
  }

  /** A path either avoids the entry under `id`, or splits where it was last taken. */
  lemma {:induction false} PathSplits(g: Graph, id: EventId, e: EventInfo, f: EventInfo, n: nat)
    requires ReachesIn(g, e, f, n)
    ensures var cut := g - {id};
            Reaches(cut, e, f) || (id in g && Names(cut, e, id) && Reaches(cut, g[id], f))
    decreases n
  {
    var cut := g - {id};
    ReachesItself(cut, e);
    if n > 0 {
      var pid :| pid in e.parents && pid in g && ReachesIn(g, g[pid], f, n - 1);
      var p := g[pid];
      PathSplits(g, id, p, f, n - 1);
      if pid != id {
        assert p in Parents(cut, e);
        ParentReached(cut, e, p);
        if Reaches(cut, p, f) {
          ReachesChain(cut, e, p, f);
        } else {
          var q :| Reaches(cut, p, q) && id in q.parents;
          ReachesChain(cut, e, p, q);
        }
      }
    }
  }

  /** What is seen only through the entry under `id`, exactly. */
  lemma SeesThrough(g: Graph, id: EventId, v: NodeId, e: EventInfo)
    ensures var cut := g - {id};
            Sees(g, v, e) <==> Sees(cut, v, e) || (id in g && Names(cut, e, id) && Sees(cut, v, g[id]))
  {
    var cut := g - {id};
    if Sees(g, v, e) {
      var f :| Reaches(g, e, f) && f.creator == v;
      var n: nat :| ReachesIn(g, e, f, n);
      PathSplits(g, id, e, f, n);
    }
    if Sees(cut, v, e) {
      var f :| Reaches(cut, e, f) && f.creator == v;
      ReachesFewer(g, id, e, f);
    }
    if id in g && Names(cut, e, id) && Sees(cut, v, g[id]) {
      var q :| Reaches(cut, e, q) && id in q.parents;
      var f :| Reaches(cut, g[id], f) && f.creator == v;
      ReachesFewer(g, id, e, q);
      ReachesFewer(g, id, g[id], f);
      assert g[id] in Parents(g, q);
      ReachesExtend(g, e, q, g[id]);
      ReachesChain(g, e, g[id], f);
    }
  }

  /** The graph a search from `e` explores where every event lies under its own ID: `e` has
      its ID marked from the start, so the entry under that ID is never expanded. */
  ghost function Searched(g: Graph, e: EventInfo): Graph {
    if OwnIds(g) then g - {e.id} else g
  }

  /** What the search explores shows nothing that is not there, and everything if `e` is
      stored or its ID is free. */
  lemma SearchedSees(g: Graph, v: NodeId, e: EventInfo)
    ensures Sees(Searched(g, e), v, e) ==> Sees(g, v, e)
    ensures Identified(g, e) ==> (Sees(Searched(g, e), v, e) <==> Sees(g, v, e))
    ensures OwnIds(g) ==> Searched(g, e) == g - {e.id}
    ensures Identified(g, e) ==> OwnIds(g)
  {
    SeesThrough(g, e.id, v, e);
  }

  /** A set that holds `e` and the parents of its members holds all that `e` reaches. */
  lemma {:induction false} ReachesInStaysIn(g: Graph, e: EventInfo, f: EventInfo, n: nat, closed: set<EventInfo>)
    requires ReachesIn(g, e, f, n) && e in closed
    requires forall c :: c in closed ==> Parents(g, c) <= closed
    ensures f in closed
    decreases n
  {
    if n > 0 {
      var p :| p in Parents(g, e) && ReachesIn(g, p, f, n - 1);
      assert Parents(g, e) <= closed;
      ReachesInStaysIn(g, p, f, n - 1, closed);
    }
  }

  lemma ClosedSetDecides(g: Graph, v: NodeId, e: EventInfo, closed: set<EventInfo>)
    requires e in closed
    requires forall c :: c in closed ==> Parents(g, c) <= closed
    requires forall c :: c in closed ==> c.creator != v
    ensures !Sees(g, v, e)
  {
    if Sees(g, v, e) {
      var f :| Reaches(g, e, f) && f.creator == v;
      var n: nat :| ReachesIn(g, e, f, n);
      ReachesInStaysIn(g, e, f, n, closed);
    }
  }

  /** Whatever a present parent has been seen by, its child has been seen by. */
  lemma SeenByGrowsToChild(g: Graph, candidates: set<NodeId>, child: EventInfo, parent: EventInfo)
    requires parent in Parents(g, child)
    ensures SeenBy(g, candidates, parent) <= SeenBy(g, candidates, child)
  {
    forall v | v in SeenBy(g, candidates, parent)
      ensures v in SeenBy(g, candidates, child)
    {
      var f :| Reaches(g, parent, f) && f.creator == v;
      var n: nat :| ReachesIn(g, parent, f, n);
      assert ReachesIn(g, child, f, n + 1);
      assert Reaches(g, child, f);
    }
  }

  // ------------------------------------------------------------------ stakes

  /** What the stake counts read of a node. */
  datatype NodeRec = NodeRec(stake: nat, active: bool)

  type NodeTable = map<NodeId, NodeRec>

  ghost function ActiveStakes(nodes: NodeTable): map<NodeId, nat> {
    map v | v in nodes && nodes[v].active :: nodes[v].stake
  }

  ghost function TotalStake(nodes: NodeTable): nat {
    Total(ActiveStakes(nodes).Keys, ActiveStakes(nodes))
  }

  /** Stake of the active nodes that have seen `e`. */
  ghost function SeenStake(g: Graph, nodes: NodeTable, e: EventInfo): nat {
    Total(SeenBy(g, ActiveStakes(nodes).Keys, e), ActiveStakes(nodes))
  }

  /** `Vote` counts the creator's stake even when the creator has been deactivated. */
  ghost function InactiveCreatorStake(nodes: NodeTable, creator: NodeId): nat {
    if creator in nodes && !nodes[creator].active then nodes[creator].stake else 0
  }

  /** The decision `VirtualVoting.Vote` makes. */
  ghost predicate Passes(g: Graph, nodes: NodeTable, threshold: real, e: EventInfo) {
    && TotalStake(nodes) > 0
    && (threshold <= 0.0 ||
        (SeenStake(g, nodes, e) + InactiveCreatorStake(nodes, e.creator)) as real
        >= TotalStake(nodes) as real * threshold)
  }

  /** The decision `Lachesis.detectFinality` makes. */
  ghost predicate Detected(g: Graph, nodes: NodeTable, threshold: real, e: EventInfo) {
    && SeenBy(g, ActiveStakes(nodes).Keys, e) != {}
    && SeenStake(g, nodes, e) as real >= TotalStake(nodes) as real * threshold
  }

  /** The decisions that the search leads to are the plain ones if `e` is stored or its ID is
      free, and never accept more. */
  lemma DecisionSearched(g: Graph, nodes: NodeTable, threshold: real, e: EventInfo)
    ensures Passes(Searched(g, e), nodes, threshold, e) ==> Passes(g, nodes, threshold, e)
    ensures Detected(Searched(g, e), nodes, threshold, e) ==> Detected(g, nodes, threshold, e)
    ensures Identified(g, e) ==> (Passes(Searched(g, e), nodes, threshold, e) <==> Passes(g, nodes, threshold, e))
    ensures Identified(g, e) ==> (Detected(Searched(g, e), nodes, threshold, e) <==> Detected(g, nodes, threshold, e))
    ensures OwnIds(g) ==> Searched(g, e) == g - {e.id}
    ensures Identified(g, e) ==> OwnIds(g)
  {
    var w := ActiveStakes(nodes);
    forall v ensures Sees(Searched(g, e), v, e) ==> Sees(g, v, e)
      ensures Identified(g, e) ==> (Sees(Searched(g, e), v, e) <==> Sees(g, v, e))
    {
      SearchedSees(g, v, e);
    }
    assert SeenBy(Searched(g, e), w.Keys, e) <= SeenBy(g, w.Keys, e);
    if Identified(g, e) {
      assert SeenBy(Searched(g, e), w.Keys, e) == SeenBy(g, w.Keys, e);
    }
    TotalMonotone(SeenBy(Searched(g, e), w.Keys, e), SeenBy(g, w.Keys, e), w);
  }

  ghost predicate ActiveCreator(nodes: NodeTable, e: EventInfo) {
    e.creator in nodes && nodes[e.creator].active
  }

  lemma SeenStakeBounded(g: Graph, nodes: NodeTable, e: EventInfo)
    ensures SeenStake(g, nodes, e) <= TotalStake(nodes)
  {
    var w := ActiveStakes(nodes);
    TotalMonotone(SeenBy(g, w.Keys, e), w.Keys, w);
  }

  /** With an active creator, positive stake and a positive threshold, both counts are the
      plain comparison of seen stake with the required share, so they agree. */
  lemma VoteIsDetection(g: Graph, nodes: NodeTable, threshold: real, e: EventInfo)
    requires ActiveCreator(nodes, e) && TotalStake(nodes) > 0 && threshold > 0.0
    ensures Passes(g, nodes, threshold, e) <==> Detected(g, nodes, threshold, e)
    ensures Passes(g, nodes, threshold, e) <==>
            SeenStake(g, nodes, e) as real >= TotalStake(nodes) as real * threshold
  {
    SeesCreator(g, e);
    assert e.creator in SeenBy(g, ActiveStakes(nodes).Keys, e);
  }

  /** Exactly when the two counts differ under one positive threshold: the stake of a
      deactivated creator tips the vote, or there is no stake at all. */
  lemma VoteAndDetectionDiffer(g: Graph, nodes: NodeTable, threshold: real, e: EventInfo)
    requires threshold > 0.0
    ensures (Passes(g, nodes, threshold, e) && !Detected(g, nodes, threshold, e)) <==>
            && TotalStake(nodes) > 0
            && SeenStake(g, nodes, e) as real < TotalStake(nodes) as real * threshold
            && TotalStake(nodes) as real * threshold <=
                 (SeenStake(g, nodes, e) + InactiveCreatorStake(nodes, e.creator)) as real
    ensures (Detected(g, nodes, threshold, e) && !Passes(g, nodes, threshold, e)) <==>
            && TotalStake(nodes) == 0
            && SeenBy(g, ActiveStakes(nodes).Keys, e) != {}
  {
    SeenStakeBounded(g, nodes, e);
    if TotalStake(nodes) > 0 {
      assert TotalStake(nodes) as real * threshold > 0.0;
      if SeenBy(g, ActiveStakes(nodes).Keys, e) == {} {
        assert SeenStake(g, nodes, e) == 0;
      }
    } else {
      assert TotalStake(nodes) as real * threshold == 0.0;
    }
  }

  /** A vote without detection: the creator has been deactivated, and its stake alone reaches
      two thirds of what the one active node holds. */
  lemma DeactivatedCreatorTips() returns (g: Graph, nodes: NodeTable, e: EventInfo)
    ensures Passes(g, nodes, 0.66, e) && !Detected(g, nodes, 0.66, e)
  {
    var id := EventId(0, 1, 1, []);
    e := EventInfo(id, 1, [], [], 0, 1);
    g, nodes := map[id := e], map[1 := NodeRec(10, false), 2 := NodeRec(10, true)];
    assert ActiveStakes(nodes) == map[2 := 10];
    SingleTotal(2, 10);
    assert Parents(g, e) == {};
    ClosedSetDecides(g, 2, e, {e});
    assert SeenBy(g, {2}, e) == {};
  }

  /** Detection without a vote: nobody holds any stake. */
  lemma NoStakeDetects() returns (g: Graph, nodes: NodeTable, e: EventInfo)
    ensures Detected(g, nodes, 0.66, e) && !Passes(g, nodes, 0.66, e)
  {
    var id := EventId(0, 1, 1, []);
    e := EventInfo(id, 1, [], [], 0, 1);
    g, nodes := map[id := e], map[1 := NodeRec(0, true)];
    assert ActiveStakes(nodes) == map[1 := 0];
    SingleTotal(1, 0);
    SeesCreator(g, e);
    assert 1 in SeenBy(g, {1}, e);
  }

  lemma SingleTotal(v: NodeId, stake: nat)
    ensures Total({v}, map[v := stake]) == stake
  {
    TotalPick({v}, map[v := stake], v);
  }

  /** Where one node holds all the stake, its own events pass and are detected. */
  lemma SoleNodeDecides(g: Graph, nodes: NodeTable, v: NodeId, stake: nat, threshold: real, e: EventInfo)
    requires nodes == map[v := NodeRec(stake, true)] && stake > 0 && 0.0 < threshold <= 1.0 && e.creator == v
    ensures Passes(g, nodes, threshold, e) && Detected(g, nodes, threshold, e)
  {
    hide Passes, Detected;
    var w := ActiveStakes(nodes);
    assert w == map[v := stake] && w.Keys == {v};
    SingleTotal(v, stake);
    SeesCreator(g, e);
    assert SeenBy(g, w.Keys, e) == {v};
    SeenByAll(g, nodes, threshold, e);
  }

  lemma SeenByAll(g: Graph, nodes: NodeTable, threshold: real, e: EventInfo)
    requires SeenBy(g, ActiveStakes(nodes).Keys, e) == ActiveStakes(nodes).Keys
    requires TotalStake(nodes) > 0 && threshold <= 1.0
    ensures Passes(g, nodes, threshold, e) && Detected(g, nodes, threshold, e)
  {
    hide Passes, Detected;
    assert SeenStake(g, nodes, e) == TotalStake(nodes);
    var required := Share(TotalStake(nodes), threshold);
    SomebodyActive(nodes);
    Decided(g, nodes, threshold, e, required);
  }

  lemma Share(total: nat, threshold: real) returns (required: real)
    requires threshold <= 1.0
    ensures required == total as real * threshold && required <= total as real
  {
    required := total as real * threshold;
  }

  lemma SomebodyActive(nodes: NodeTable)
    ensures TotalStake(nodes) > 0 ==> ActiveStakes(nodes).Keys != {}
  {
  }

  /** Both decisions, with the required stake worked out. */
  lemma Decided(g: Graph, nodes: NodeTable, threshold: real, e: EventInfo, required: real)
    requires required == TotalStake(nodes) as real * threshold
    ensures Passes(g, nodes, threshold, e) <==>
              && TotalStake(nodes) > 0
              && (threshold <= 0.0
                  || (SeenStake(g, nodes, e) + InactiveCreatorStake(nodes, e.creator)) as real >= required)
    ensures Detected(g, nodes, threshold, e) <==>
              SeenBy(g, ActiveStakes(nodes).Keys, e) != {} && SeenStake(g, nodes, e) as real >= required
  {
  }

  /** What has been seen of an event under a taken ID: what the search finds without the stored
      entry, and through that entry if an ancestor names it. */
  lemma SeenByThrough(g: Graph, candidates: set<NodeId>, e: EventInfo)
    ensures var cut := g - {e.id};
            SeenBy(g, candidates, e) == SeenBy(cut, candidates, e)
                                        + (if e.id in g && Names(cut, e, e.id) then SeenBy(cut, candidates, g[e.id])
                                           else {})
  {
    forall v ensures var cut := g - {e.id};
                     Sees(g, v, e) <==> Sees(cut, v, e) || (e.id in g && Names(cut, e, e.id) && Sees(cut, v, g[e.id]))
    {
      SeesThrough(g, e.id, v, e);
    }
  }

  /** Exactly when the vote refuses what the plain comparison accepts: some ancestor names the
      event's own ID, and what only the entry stored under it shows tips the balance. */
  lemma VoteMissesExactly(g: Graph, nodes: NodeTable, threshold: real, e: EventInfo)
    requires threshold > 0.0
    ensures var cut, w, required := g - {e.id}, ActiveStakes(nodes), TotalStake(nodes) as real * threshold;
            && (Passes(cut, nodes, threshold, e) ==> Passes(g, nodes, threshold, e))
            && (Passes(g, nodes, threshold, e) && !Passes(cut, nodes, threshold, e) <==>
                  && TotalStake(nodes) > 0 && e.id in g && Names(cut, e, e.id)
                  && (SeenStake(cut, nodes, e) + InactiveCreatorStake(nodes, e.creator)) as real < required
                  && (Total(SeenBy(cut, w.Keys, e) + SeenBy(cut, w.Keys, g[e.id]), w)
                      + InactiveCreatorStake(nodes, e.creator)) as real >= required)
  {
    var cut, w := g - {e.id}, ActiveStakes(nodes);
    SeenByThrough(g, w.Keys, e);
    TotalMonotone(SeenBy(cut, w.Keys, e), SeenBy(g, w.Keys, e), w);
    if !(e.id in g && Names(cut, e, e.id)) {
      assert SeenBy(g, w.Keys, e) == SeenBy(cut, w.Keys, e);
    }
  }

  /** ... and so does the detection. */
  lemma DetectionMissesExactly(g: Graph, nodes: NodeTable, threshold: real, e: EventInfo)
    requires threshold > 0.0 && TotalStake(nodes) > 0
    ensures var cut, w, required := g - {e.id}, ActiveStakes(nodes), TotalStake(nodes) as real * threshold;
            && (Detected(cut, nodes, threshold, e) ==> Detected(g, nodes, threshold, e))
            && (Detected(g, nodes, threshold, e) && !Detected(cut, nodes, threshold, e) <==>
                  && e.id in g && Names(cut, e, e.id) && SeenStake(cut, nodes, e) as real < required
                  && Total(SeenBy(cut, w.Keys, e) + SeenBy(cut, w.Keys, g[e.id]), w) as real >= required)
  {
    var cut, w := g - {e.id}, ActiveStakes(nodes);
    SeenByThrough(g, w.Keys, e);
    TotalMonotone(SeenBy(cut, w.Keys, e), SeenBy(g, w.Keys, e), w);
    assert TotalStake(nodes) as real * threshold > 0.0;
    if !(e.id in g && Names(cut, e, e.id)) {
      assert SeenBy(g, w.Keys, e) == SeenBy(cut, w.Keys, e);
    }
    assert Total({}, w) == 0;
  }

  /** Any two passing events with active creators were seen in common by validators that
      hold at least (2 * threshold - 1) of the total stake. */
  lemma QuorumIntersection(g: Graph, nodes: NodeTable, threshold: real, e: EventInfo, f: EventInfo)
    requires threshold > 0.0
    requires ActiveCreator(nodes, e) && ActiveCreator(nodes, f)
    requires Passes(g, nodes, threshold, e) && Passes(g, nodes, threshold, f)
    ensures var w := ActiveStakes(nodes);
            Total(SeenBy(g, w.Keys, e) * SeenBy(g, w.Keys, f), w) as real
            >= (2.0 * threshold - 1.0) * TotalStake(nodes) as real
  {
    var w := ActiveStakes(nodes);
    TotalOverlap(SeenBy(g, w.Keys, e), SeenBy(g, w.Keys, f), w.Keys, w);
  }

  /** A child of a passing event passes under the same stakes. */
  lemma ChildPasses(g: Graph, nodes: NodeTable, threshold: real, child: EventInfo, parent: EventInfo)
    requires parent in Parents(g, child)
    requires ActiveCreator(nodes, parent)
    requires Passes(g, nodes, threshold, parent)
    ensures Passes(g, nodes, threshold, child)
  {
    var w := ActiveStakes(nodes);
    SeenByGrowsToChild(g, w.Keys, child, parent);
    TotalMonotone(SeenBy(g, w.Keys, parent), SeenBy(g, w.Keys, child), w);
  }

  /** ... and so does everything that descends from it. */
  lemma DescendantPasses(g: Graph, nodes: NodeTable, threshold: real, descendant: EventInfo, e: EventInfo)
    requires Reaches(g, descendant, e)
    requires ActiveCreator(nodes, e) && Passes(g, nodes, threshold, e)
    ensures Passes(g, nodes, threshold, descendant)
  {
    var w := ActiveStakes(nodes);
    forall v | v in SeenBy(g, w.Keys, e) ensures v in SeenBy(g, w.Keys, descendant) {
      var f :| Reaches(g, e, f) && f.creator == v;
      ReachesChain(g, descendant, e, f);
    }
    TotalMonotone(SeenBy(g, w.Keys, e), SeenBy(g, w.Keys, descendant), w);
  }

  // ------------------------------------------------------------------ growing the graph

  ghost predicate ParentClosed(g: Graph) {
    forall id, pid :: id in g && pid in g[id].parents ==> pid in g
  }

  /** Every ID's count is at most the number of events: the next count is unused. */
  ghost predicate CountsBounded(g: Graph) {
    forall id :: id in g ==> id.count <= |g|
  }

  lemma {:induction false} ReachesInOldGraph(g: Graph, added: EventInfo, e: EventInfo, f: EventInfo, n: nat)
    requires ParentClosed(g) && added.id !in g
    requires forall pid :: pid in e.parents ==> pid in g
    ensures ReachesIn(g[added.id := added], e, f, n) <==> ReachesIn(g, e, f, n)
    decreases n
  {
    if n > 0 {
      var g' := g[added.id := added];
      assert Parents(g', e) == Parents(g, e) by {
        forall x ensures x in Parents(g', e) <==> x in Parents(g, e) {}
      }
      forall p | p in Parents(g, e)
        ensures ReachesIn(g', p, f, n - 1) <==> ReachesIn(g, p, f, n - 1)
      {
        ReachesInOldGraph(g, added, p, f, n - 1);
      }
    }
  }

  /** A new event changes nothing about who has seen an event already there. */
  lemma GrowthKeepsSees(g: Graph, added: EventInfo, e: EventInfo, v: NodeId)
    requires ParentClosed(g) && added.id !in g
    requires forall pid :: pid in e.parents ==> pid in g
    ensures Sees(g[added.id := added], v, e) <==> Sees(g, v, e)
  {
    var g' := g[added.id := added];
    forall f
      ensures Reaches(g', e, f) <==> Reaches(g, e, f)
    {
      forall n: nat ensures ReachesIn(g', e, f, n) <==> ReachesIn(g, e, f, n) {
        ReachesInOldGraph(g, added, e, f, n);
      }
    }
  }

  /** ... and so nothing about its vote or its detection. */
  lemma GrowthKeepsDecisions(g: Graph, nodes: NodeTable, threshold: real, added: EventInfo, e: EventInfo)
    requires ParentClosed(g) && added.id !in g
    requires forall pid :: pid in e.parents ==> pid in g
    ensures Passes(g[added.id := added], nodes, threshold, e) <==> Passes(g, nodes, threshold, e)
    ensures Detected(g[added.id := added], nodes, threshold, e) <==> Detected(g, nodes, threshold, e)
  {
    var w := ActiveStakes(nodes);
    forall v ensures Sees(g[added.id := added], v, e) <==> Sees(g, v, e) {
      GrowthKeepsSees(g, added, e, v);
    }
    assert SeenBy(g[added.id := added], w.Keys, e) == SeenBy(g, w.Keys, e);
  }

  // ------------------------------------------------------------------ heights

  /** The largest height among the listed parents that are present, but at least 1. */
  function ParentHeight(g: Graph, parents: seq<EventId>): (h: nat)
    ensures h >= 1
    ensures forall pid :: pid in parents && pid in g ==> g[pid].height <= h
    ensures h == 1 || exists pid :: pid in parents && pid in g && g[pid].height == h
  {
    if parents == [] then 1
    else
      var k := |parents| - 1;
      var h := ParentHeight(g, parents[..k]);
      assert forall pid :: pid in parents <==> pid in parents[..k] || pid == parents[k];
      if parents[k] in g && g[parents[k]].height >= h then g[parents[k]].height else h
  }

  /** The height `NewEvent` assigns. */
  function NextHeight(g: Graph, parents: seq<EventId>): nat {
    if parents == [] then 1 else ParentHeight(g, parents) + 1
  }

  /** What `VerifyConsistency` demands. */
  ghost predicate HeightsRise(g: Graph) {
    forall id :: id in g ==> RisesAt(g, id)
  }

  ghost predicate RisesAt(g: Graph, id: EventId)
    requires id in g
  {
    && g[id].height > 0
    && forall pid :: pid in g[id].parents && pid in g ==> g[pid].height < g[id].height
  }

  ghost predicate IsMaxHeight(g: Graph, h: nat) {
    && (forall id :: id in g ==> g[id].height <= h)
    && (h == 0 || exists id :: id in g && g[id].height == h)
  }

  ghost predicate KnownCreators(g: Graph, known: set<NodeId>) {
    forall id :: id in g ==> g[id].creator in known
  }

  ghost predicate Consistent(g: Graph, known: set<NodeId>, maxHeight: nat) {
    KnownCreators(g, known) && ParentClosed(g) && HeightsRise(g) && IsMaxHeight(g, maxHeight)
  }

  lemma {:induction false} HeightFallsAlongPath(g: Graph, e: EventInfo, f: EventInfo, n: nat)
    requires HeightsRise(g) && e in g.Values && ReachesIn(g, e, f, n)
    ensures f.height + n <= e.height
    decreases n
  {
    if n > 0 {
      var p :| p in Parents(g, e) && ReachesIn(g, p, f, n - 1);
      HeightFallsAlongPath(g, p, f, n - 1);
    }
  }

  /** A graph that passes the check has no cycle. */
  lemma ConsistentIsAcyclic(g: Graph, known: set<NodeId>, maxHeight: nat, e: EventInfo, n: nat)
    requires Consistent(g, known, maxHeight) && e in g.Values
    ensures ReachesIn(g, e, e, n) ==> n == 0
  {
    if ReachesIn(g, e, e, n) {
      HeightFallsAlongPath(g, e, e, n);
    }
  }

  /** The event `NewEvent` builds from the clock reading `now`. */
  function BuiltEvent(g: Graph, creator: NodeId, parents: seq<EventId>, data: seq<Byte>, now: int): EventInfo {
    EventInfo(EventId(now, creator, |g| + 1, data), creator, parents, data, now, NextHeight(g, parents))
  }

  /** What `NewEvent` makes of its arguments. */
  lemma BuiltEventIs(g: Graph, creator: NodeId, parents: seq<EventId>, data: seq<Byte>, now: int)
    ensures var e := BuiltEvent(g, creator, parents, data, now);
            && e.creator == creator && e.parents == parents && e.data == data && e.timestamp == now
            && e.id.timestamp == now && e.id.creator == creator && e.id.data == data && e.id.count == |g| + 1
            && (parents == [] ==> e.height == 1) && (parents != [] ==> e.height >= 2)
            && (forall pid :: pid in parents && pid in g ==> g[pid].height < e.height)
            && (parents == [] || e.height == 2
                || exists pid :: pid in parents && pid in g && g[pid].height + 1 == e.height)
  {
  }

  function RaisedHeight(maxHeight: nat, e: EventInfo): nat {
    if e.height > maxHeight then e.height else maxHeight
  }

  /** Adding the event that `NewEvent` builds keeps a consistent graph consistent exactly
      when all listed parents were present before. */
  lemma NewEventConsistent(g: Graph, known: set<NodeId>, maxHeight: nat, e: EventInfo)
    requires Consistent(g, known, maxHeight)
    requires e.creator in known && e.id !in g && e.height == NextHeight(g, e.parents)
    ensures Consistent(g[e.id := e], known, RaisedHeight(maxHeight, e)) <==> forall pid :: pid in e.parents ==> pid in g
  {
    var g' := g[e.id := e];
    var maxHeight' := RaisedHeight(maxHeight, e);
    assert g'[e.id] == e;
    if forall pid :: pid in e.parents ==> pid in g {
      assert IsMaxHeight(g', maxHeight') by {
        if maxHeight' == maxHeight && maxHeight != 0 {
          var id :| id in g && g[id].height == maxHeight;
          assert id in g' && g'[id].height == maxHeight';
        }
      }
      forall id | id in g'
        ensures RisesAt(g', id)
      {
        if id != e.id {
          assert forall pid :: pid in g[id].parents ==> pid in g;
        }
      }
      assert ParentClosed(g');
    }
    if Consistent(g', known, maxHeight') {
      forall pid | pid in e.parents ensures pid in g {
        assert pid in g'[e.id].parents && pid in g';
        assert RisesAt(g', e.id);
      }
    }
  }

  /** The ID `NewEvent` builds is unused, and stays the largest count afterwards. */
  lemma NewIdIsFresh(g: Graph, id: EventId, e: EventInfo)
    requires CountsBounded(g) && id.count == |g| + 1
    ensures id !in g
    ensures CountsBounded(g[id := e]) && |g[id := e]| == |g| + 1
  {
    assert g[id := e].Keys == g.Keys + {id};
  }

  /** What the DAG operations keep when every listed parent is known. */
  ghost predicate Grown(g: Graph, known: set<NodeId>, maxHeight: nat) {
    Consistent(g, known, maxHeight) && CountsBounded(g) && OwnIds(g)
  }

  /** `NewEvent` gives an unused ID, and keeps the DAG consistent exactly when every listed
      parent was present. */
  lemma NewEventGrows(g: Graph, known: set<NodeId>, maxHeight: nat,
                      creator: NodeId, parents: seq<EventId>, data: seq<Byte>, now: int)
    requires Grown(g, known, maxHeight) && creator in known
    ensures var e := BuiltEvent(g, creator, parents, data, now);
            && e.id !in g
            && (Grown(g[e.id := e], known, RaisedHeight(maxHeight, e)) <==> forall pid :: pid in parents ==> pid in g)
  {
    var e := BuiltEvent(g, creator, parents, data, now);
    NewIdIsFresh(g, e.id, e);
    NewEventConsistent(g, known, maxHeight, e);
  }
}
