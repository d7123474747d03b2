/** Virtual voting: a breadth-first search for ancestry and a stake count that stops early
    (consensus/diamantefinality/voting.go). */
module Voting {
  import opened Sums
  import opened EventGraph
  import opened DagStore

  predicate LegalThreshold(t: real) {
    0.0 < t <= 1.0
  }

  // ------------------------------------------------------------------ the search, on values

  /** The events a search from `e` can meet. */
  ghost function Universe(g: Graph, e: EventInfo): set<EventInfo> {
    g.Values + {e}
  }

  /** Where a search for `v` from `e` stands: `done` was expanded, `pending` is queued. */
  ghost predicate Searching(g: Graph, v: NodeId, e: EventInfo, visited: set<EventId>,
                            done: set<EventInfo>, pending: set<EventInfo>)
  {
    && done + pending <= Universe(g, e)
    && visited == (set d | d in done :: d.id)
    && (forall d :: d in done ==> d.creator != v)
    && (forall q :: q in pending ==> Reaches(g, e, q))
    && (OwnIds(g) ==> SearchingApart(g - {e.id}, e, done, pending))
  }

  /** ... and where it stands in the graph without the entry under the ID it started from,
      events lying under their own IDs. */
  ghost predicate SearchingApart(g: Graph, e: EventInfo, done: set<EventInfo>, pending: set<EventInfo>) {
    && e in done + pending
    && (forall d :: d in done ==> Parents(g, d) <= done + pending)
    && (forall d :: d in done ==> d == e || d.id != e.id)
    && (forall q :: q in pending ==> q.id == e.id || Reaches(g, e, q))
  }

  lemma SearchSkips(g: Graph, v: NodeId, e: EventInfo, visited: set<EventId>,
                    done: set<EventInfo>, pending: set<EventInfo>, x: EventInfo, rest: set<EventInfo>)
    requires Searching(g, v, e, visited, done, pending)
    requires x in pending && pending == rest + {x} && x.id in visited
    ensures Searching(g, v, e, visited, done, rest)
  {
    var d :| d in done && d.id == x.id;
    if OwnIds(g) && x.id != e.id {
      assert g[d.id] == d && g[x.id] == x;
    }
  }

  lemma SearchExpands(g: Graph, v: NodeId, e: EventInfo, visited: set<EventId>,
                      done: set<EventInfo>, pending: set<EventInfo>, x: EventInfo, rest: set<EventInfo>)
    requires Searching(g, v, e, visited, done, pending)
    requires x in pending && pending == rest + {x} && x.creator != v && (x == e || x.id != e.id)
    ensures Searching(g, v, e, visited + {x.id}, done + {x}, rest + Parents(g, x)) && x in Universe(g, e)
  {
    hide SearchingApart;
    forall p | p in Parents(g, x) ensures Reaches(g, e, p) {
      ReachesExtend(g, e, x, p);
    }
    if OwnIds(g) {
      ExpandsApart(g, e, done, pending, x, rest);
    }
  }

  lemma ExpandsApart(g: Graph, e: EventInfo, done: set<EventInfo>, pending: set<EventInfo>,
                     x: EventInfo, rest: set<EventInfo>)
    requires SearchingApart(g - {e.id}, e, done, pending) && OwnIds(g)
    requires x in pending && pending == rest + {x} && (x == e || x.id != e.id)
    ensures SearchingApart(g - {e.id}, e, done + {x}, rest + Parents(g, x))
  {
    var cut := g - {e.id};
    ReachesItself(cut, e);
    assert Parents(cut, x) <= Parents(g, x);
    forall p | p in Parents(g, x) && p.id != e.id ensures Reaches(cut, e, p) {
      assert p in Parents(cut, x);
      ReachesExtend(cut, e, x, p);
    }
  }

  lemma SearchStarts(g: Graph, v: NodeId, e: EventInfo)
    ensures Searching(g, v, e, {}, {}, {e})
  {
    ReachesItself(g, e);
    ReachesItself(g - {e.id}, e);
  }

  /** Meeting an event of `v` for the first time answers the search. */
  lemma SearchHits(g: Graph, v: NodeId, e: EventInfo, visited: set<EventId>,
                   done: set<EventInfo>, pending: set<EventInfo>, x: EventInfo)
    requires Searching(g, v, e, visited, done, pending)
    requires x in pending && x.creator == v && (x == e || x.id != e.id)
    ensures Sees(g, v, e) && SeesApart(g, v, e) && (OwnIds(g) ==> Sees(g - {e.id}, v, e))
  {
    ReachesItself(g - {e.id}, e);
  }

  /** ... and so does running out of events. */
  lemma SearchEnds(g: Graph, v: NodeId, e: EventInfo, visited: set<EventId>, done: set<EventInfo>)
    requires Searching(g, v, e, visited, done, {}) && OwnIds(g)
    ensures !Sees(g - {e.id}, v, e)
  {
    ClosedSetDecides(g - {e.id}, v, e, done);
  }

  lemma FewerUnvisited(ids: set<EventId>, visited: set<EventId>, id: EventId)
    requires id in ids && id !in visited
    ensures |ids - (visited + {id})| < |ids - visited|
  {
    assert ids - visited == (ids - (visited + {id})) + {id};
  }

  // ------------------------------------------------------------------ the class

  class VirtualVoting {
    const dag: DAG
    var threshold: real

    constructor (dag: DAG)
      ensures this.dag == dag && threshold == 0.66 && LegalThreshold(threshold)
    {
      this.dag := dag;
      threshold := 0.66;
    }

    ghost predicate Approves(e: EventInfo)
      reads this, dag, dag.nodes.Values
    {
      Passes(dag.Graph(), dag.Table(), threshold, e)
    }

    /** ... and so it does without the entry under the event's own ID. */
    ghost predicate Admits(e: EventInfo)
      reads this, dag, dag.nodes.Values
    {
      Passes(dag.Graph() - {e.id}, dag.Table(), threshold, e)
    }

    ghost predicate Knows(e: EventInfo)
      reads dag
    {
      Identified(dag.Graph(), e)
    }

    /** An illegal threshold is ignored, so a legal one stays legal. */
    method SetThreshold(t: real)
      modifies this`threshold
      ensures threshold == if 0.0 < t <= 1.0 then t else old(threshold)
    {
      if t <= 0.0 || t > 1.0 {
        return;
      }
      threshold := t;
    }

    /** The parents of an event that the DAG holds; missing ones are skipped. */
    method PresentParents(e: Event) returns (parents: seq<Event>)
      ensures Infos(parents) == Parents(dag.Graph(), e.info)
    {
      parents := [];
      ghost var g := dag.Graph();
      for i := 0 to |e.info.parents|
        invariant forall p :: p in parents ==> p.info in Parents(g, e.info)
        invariant forall k :: 0 <= k < i && e.info.parents[k] in dag.events ==> dag.events[e.info.parents[k]] in parents
      {
        var parent := dag.GetEvent(e.info.parents[i]);
        if parent.Ok? {
          assert g[e.info.parents[i]] == parent.value.info;
          parents := parents + [parent.value];
        }
      }
    }

    /** Breadth-first search towards the parents.  A positive answer is always right.  When
        stored events sit under their own IDs, it finds exactly what can be reached without the
        entry under the ID of the event it starts from; that is all there is if the event is
        stored or its ID is free.  Any finite graph is searched to the end, cyclic ones too. */
    method HasSeen(validator: NodeId, event: Event) returns (seen: bool)
      ensures seen ==> Sees(dag.Graph(), validator, event.info) && SeesApart(dag.Graph(), validator, event.info)
      ensures OwnIds(dag.Graph()) ==>
                (seen <==> Sees(dag.Graph() - {event.info.id}, validator, event.info))
      ensures Identified(dag.Graph(), event.info) ==> (seen <==> Sees(dag.Graph(), validator, event.info))
    {
      hide Searching, Sees, SeesApart, OwnIds, Identified;
      ghost var g, e0 := dag.Graph(), event.info;
      SeesCreator(g, e0);
      SeesCreator(g - {e0.id}, e0);
      SearchedSees(g, validator, e0);
      CreatorSeenApart(g, e0);
      if event.info.creator == validator {
        return true;
      }
      var visited: set<EventId> := {};
      var queue: seq<Event> := [event];
      ghost var done: set<EventInfo> := {};
      ghost var ids := set x | x in Universe(g, e0) :: x.id;
      SearchStarts(g, validator, e0);
      assert Infos(queue) == {e0};
      while |queue| > 0
        invariant Searching(g, validator, e0, visited, done, Infos(queue))
        invariant if visited == {} then Infos(queue) == {e0} else e0.id in visited
        decreases |ids - visited|, |queue|
      {
        var e := queue[0];
        InfosSplit(queue);
        ghost var pending := Infos(queue);
        queue := queue[1..];
        if e.info.id in visited {
          SearchSkips(g, validator, e0, visited, done, pending, e.info, Infos(queue));
          continue;
        }
        if e.info.creator == validator {
          SearchHits(g, validator, e0, visited, done, pending, e.info);
          return true;
        }
        SearchExpands(g, validator, e0, visited, done, pending, e.info, Infos(queue));
        FewerUnvisited(ids, visited, e.info.id);
        visited := visited + {e.info.id};
        done := done + {e.info};
        var parents := PresentParents(e);
        InfosAppend(queue, parents);
        queue := queue + parents;
      }
      assert Infos(queue) == {};
      if OwnIds(g) {
        SearchEnds(g, validator, e0, visited, done);
      }
      return false;
    }

    /** The creator's own stake is counted first, then every active node that has seen the
        event, stopping as soon as the required stake is reached.  Whatever the order, the
        answer is the plain comparison of what the search finds. */
    method Vote(event: Event) returns (passed: bool)
      ensures passed ==> Approves(event.info)
      ensures OwnIds(dag.Graph()) ==> (passed <==> Admits(event.info))
      ensures Knows(event.info) ==> (passed <==> Approves(event.info))
    {
      hide Passes, OwnIds, Identified, Searched;
      DecisionSearched(dag.Graph(), dag.Table(), threshold, event.info);
      passed := Weigh(event);
    }

    method Weigh(event: Event) returns (passed: bool)
      ensures var decision := Passes(Searched(dag.Graph(), event.info), dag.Table(), threshold, event.info);
              && (passed ==> decision) && (OwnIds(dag.Graph()) ==> (passed <==> decision))
    {
      hide Passes, OwnIds, Identified, Searched;
      EdgeDecisions(Searched(dag.Graph(), event.info), dag.Table(), threshold, event.info);
      var totalStake := dag.GetTotalStake();
      if totalStake == 0 {
        return false;
      }
      var requiredStake := totalStake as real * threshold;
      if threshold <= 0.0 {
        return true;
      }
      var activeNodes := dag.GetActiveNodes();
      if |activeNodes| == 0 {
        return false;
      }
      var creator := event.info.creator;
      var accumulated := 0;
      ghost var w := ActiveStakes(dag.Table());
      if creator in dag.nodes {
        accumulated := dag.nodes[creator].stake;
      }
      VoteDecides(Searched(dag.Graph(), event.info), dag.Table(), threshold, event.info, accumulated, requiredStake);
      if creator in dag.nodes && accumulated as real >= requiredStake {
        return true;
      }
      passed := CountSeen(event, activeNodes, accumulated, requiredStake, w);
    }

    /** The loop of `Vote` over the active nodes, from the creator's stake on. */
    method CountSeen(event: Event, activeNodes: seq<NodeId>, start: nat, requiredStake: real, ghost w: map<NodeId, nat>)
      returns (reached: bool)
      requires forall i, j :: 0 <= i < j < |activeNodes| ==> activeNodes[i] != activeNodes[j]
      requires forall v :: v in activeNodes <==> v in w
      requires w == ActiveStakes(dag.Table())
      requires (start as real) < requiredStake
      ensures var counted := CountedStake(Searched(dag.Graph(), event.info), w, event.info, start) as real;
              && (reached ==> counted >= requiredStake)
              && (OwnIds(dag.Graph()) ==> (reached <==> counted >= requiredStake))
    {
      ghost var e := event.info;
      ghost var g := Searched(dag.Graph(), e);
      ghost var votes: set<NodeId> := {};
      var accumulated := start;
      for i := 0 to |activeNodes|
        invariant Counted(g, w, e, {e.creator}, activeNodes[..i], votes)
        invariant accumulated == start + Total(votes, w)
        invariant accumulated as real < requiredStake
        invariant forall v :: v in w ==> v in dag.nodes && dag.nodes[v].stake == w[v]
      {
        var v := activeNodes[i];
        assert v in activeNodes;
        if v == event.info.creator {
          CountedStep(g, w, e, {e.creator}, activeNodes, i, votes, false);
          continue;
        }
        var hasSeen := HasSeen(v, event);
        CountedStep(g, w, e, {e.creator}, activeNodes, i, votes, hasSeen);
        if hasSeen {
          accumulated := accumulated + dag.nodes[v].stake;
          votes := votes + {v};
          if accumulated as real >= requiredStake {
            return true;
          }
        }
      }
      assert activeNodes[..|activeNodes|] == activeNodes;
      if OwnIds(g) {
        assert votes == SeenBy(g, w.Keys, e) - {e.creator};
      }
      return false;
    }

    /** The events of one height that pass the vote, each found whatever the order. */
    method GetConsensusEvents(height: nat) returns (consensus: seq<Event>)
      ensures forall e :: e in consensus ==> e in dag.events.Values && e.info.height == height && Approves(e.info)
      ensures forall e :: e in dag.events.Values && e.info.height == height && Knows(e.info) ==>
                (e in consensus <==> Approves(e.info))
    {
      hide Approves, Knows, Passes;
      consensus := [];
      var rest := dag.events.Keys;
      while rest != {}
        invariant rest <= dag.events.Keys
        invariant forall e :: e in consensus ==> e in dag.events.Values && e.info.height == height && Approves(e.info)
        invariant forall id :: id in dag.events && id !in rest && dag.events[id].info.height == height ==>
                    (Knows(dag.events[id].info) && Approves(dag.events[id].info) ==> dag.events[id] in consensus)
      {
        var id :| id in rest;
        var e := dag.events[id];
        if e.info.height == height {
          var passed := Vote(e);
          if passed {
            consensus := consensus + [e];
          }
        }
        rest := rest - {id};
      }
    }

    method GetState() returns (t: real)
      ensures t == threshold
    {
      t := threshold;
    }

    method RestoreState(t: real) returns (ok: bool)
      modifies this`threshold
      ensures ok <==> 0.0 < t <= 1.0
      ensures threshold == if ok then t else old(threshold)
    {
      if t <= 0.0 || t > 1.0 {
        return false;
      }
      threshold := t;
      return true;
    }
  }

  /** `start` and the stake of the active nodes, other than the creator, that have seen `e`. */
  ghost function CountedStake(g: Graph, w: map<NodeId, nat>, e: EventInfo, start: nat): nat {
    start + Total(SeenBy(g, w.Keys, e) - {e.creator}, w)
  }

  /** `votes` are the active nodes of the prefix, outside `skip`, found to have seen `e`; all
      that have seen it when events are identified by their IDs. */
  ghost predicate Counted(g: Graph, w: map<NodeId, nat>, e: EventInfo, skip: set<NodeId>,
                          prefix: seq<NodeId>, votes: set<NodeId>)
  {
    && votes <= SeenBy(g, w.Keys, e) - skip
    && (forall v :: v in votes ==> v in prefix)
    && (OwnIds(g) ==> forall v :: v in prefix && v in SeenBy(g, w.Keys, e) && v !in skip ==> v in votes)
  }

  lemma CountedStep(g: Graph, w: map<NodeId, nat>, e: EventInfo, skip: set<NodeId>, nodes: seq<NodeId>, i: nat,
                    votes: set<NodeId>, hasSeen: bool)
    requires i < |nodes| && nodes[i] in w && nodes[i] !in nodes[..i]
    requires Counted(g, w, e, skip, nodes[..i], votes)
    requires nodes[i] in skip ==> !hasSeen
    requires hasSeen ==> Sees(g, nodes[i], e)
    requires OwnIds(g) && nodes[i] !in skip ==> (hasSeen <==> Sees(g, nodes[i], e))
    ensures var votes' := if hasSeen then votes + {nodes[i]} else votes;
            && Counted(g, w, e, skip, nodes[..i + 1], votes')
            && Total(votes', w) == Total(votes, w) + (if hasSeen then w[nodes[i]] else 0)
            && Total(votes', w) <= Total(SeenBy(g, w.Keys, e) - skip, w)
  {
    var v := nodes[i];
    assert nodes[..i + 1] == nodes[..i] + [v];
    var votes' := if hasSeen then votes + {v} else votes;
    if hasSeen {
      TotalPick(votes', w, v);
      assert votes' - {v} == votes;
    }
    TotalMonotone(votes', SeenBy(g, w.Keys, e) - skip, w);
  }

  lemma EdgeDecisions(g: Graph, nodes: NodeTable, threshold: real, e: EventInfo)
    ensures TotalStake(nodes) == 0 ==> !Passes(g, nodes, threshold, e)
    ensures TotalStake(nodes) > 0 && threshold <= 0.0 ==> Passes(g, nodes, threshold, e)
  {
  }

  /** What `Vote` adds up is what its decision compares. */
  lemma VoteDecides(g: Graph, nodes: NodeTable, threshold: real, e: EventInfo, start: nat, required: real)
    requires TotalStake(nodes) > 0 && threshold > 0.0
    requires start == if e.creator in nodes then nodes[e.creator].stake else 0
    requires required == TotalStake(nodes) as real * threshold
    ensures required > 0.0
    ensures Passes(g, nodes, threshold, e) <==> CountedStake(g, ActiveStakes(nodes), e, start) as real >= required
  {
    var w := ActiveStakes(nodes);
    var seenBy := SeenBy(g, w.Keys, e);
    SeesCreator(g, e);
    if e.creator in w {
      TotalPick(seenBy, w, e.creator);
    } else {
      assert seenBy - {e.creator} == seenBy;
    }
  }

  ghost function Infos(queue: seq<Event>): set<EventInfo> {
    set q | q in queue :: q.info
  }

  lemma InfosSplit(queue: seq<Event>)
    requires |queue| > 0
    ensures Infos(queue) == Infos(queue[1..]) + {queue[0].info}
  {
    assert queue == [queue[0]] + queue[1..];
  }

  lemma InfosAppend(a: seq<Event>, b: seq<Event>)
    ensures Infos(a + b) == Infos(a) + Infos(b)
  {
    forall x ensures x in Infos(a + b) <==> x in Infos(a) + Infos(b) {
      if x in Infos(a) { var q :| q in a && q.info == x; assert q in a + b; }
      if x in Infos(b) { var q :| q in b && q.info == x; assert q in a + b; }
    }
  }
}
