/** Finality over whole runs, on values: what was ever recorded as final stays recorded, and
    met its threshold in the step that recorded it. */
module FinalityRuns {
  import opened EventGraph

  const CHECKPOINT_INTERVAL := 1000

  /** Finalized events by height, oldest first. */
  type Record = map<nat, seq<EventInfo>>

  datatype FinalityState = FinalityState(
    graph: Graph,
    nodes: NodeTable,
    voteThreshold: real,
    scanThreshold: real,
    record: Record,
    final: set<EventId>,
    checkpoints: map<nat, EventInfo>)

  function At(r: Record, h: nat): seq<EventInfo> {
    if h in r then r[h] else []
  }

  function AppendEvent(r: Record, e: EventInfo): Record {
    r[e.height := At(r, e.height) + [e]]
  }

  function WithCheckpoint(checkpoints: map<nat, EventInfo>, e: EventInfo): map<nat, EventInfo> {
    if e.height % CHECKPOINT_INTERVAL == 0 then checkpoints[e.height := e] else checkpoints
  }

  ghost predicate SameWorld(s: FinalityState, t: FinalityState) {
    && s.graph == t.graph && s.nodes == t.nodes
    && s.voteThreshold == t.voteThreshold && s.scanThreshold == t.scanThreshold
  }

  /** Anything that leaves the finality data alone: new events, stake edits, new thresholds. */
  ghost predicate OutsideStep(s: FinalityState, t: FinalityState) {
    s.record == t.record && s.final == t.final && s.checkpoints == t.checkpoints
  }

  /** `ProcessEvent` accepted `e`; an event already final is appended once more. */
  ghost predicate ProcessStep(s: FinalityState, t: FinalityState, e: EventInfo) {
    && SameWorld(s, t)
    && ActiveCreator(s.nodes, e) && Passes(s.graph, s.nodes, s.voteThreshold, e)
    && t.record == AppendEvent(s.record, e)
    && t.final == s.final + {e.id}
    && t.checkpoints == if e.id in s.final then s.checkpoints else WithCheckpoint(s.checkpoints, e)
  }

  /** The scan would detect `e` in state `s`. */
  ghost predicate Due(s: FinalityState, e: EventInfo) {
    Detected(s.graph, s.nodes, s.scanThreshold, e)
  }

  /** `r` extends the record by events due in `s`, each under its height. */
  ghost predicate ScanRecord(s: FinalityState, r: Record) {
    forall h: nat ::
      && At(s.record, h) <= At(r, h)
      && forall i :: |At(s.record, h)| <= i < |At(r, h)| ==>
           At(r, h)[i].height == h && At(r, h)[i] in s.graph.Values && Due(s, At(r, h)[i])
  }

  /** `processEvents` appended the events it detected. */
  ghost predicate ScanStep(s: FinalityState, t: FinalityState) {
    SameWorld(s, t) && s.final == t.final && s.checkpoints == t.checkpoints && ScanRecord(s, t.record)
  }

  lemma ScanAppends(s: FinalityState, r: Record, e: EventInfo)
    requires ScanRecord(s, r) && e in s.graph.Values && Due(s, e)
    ensures ScanRecord(s, AppendEvent(r, e))
  {
    var r' := AppendEvent(r, e);
    forall h: nat
      ensures At(s.record, h) <= At(r', h)
      ensures forall i :: |At(s.record, h)| <= i < |At(r', h)| ==>
                At(r', h)[i].height == h && At(r', h)[i] in s.graph.Values && Due(s, At(r', h)[i])
    {
      assert At(s.record, h) <= At(r, h);
      assert At(r', h) == if h == e.height then At(r, h) + [e] else At(r, h);
    }
  }

  ghost predicate Step(s: FinalityState, t: FinalityState) {
    OutsideStep(s, t) || ScanStep(s, t) || exists e :: ProcessStep(s, t, e)
  }

  ghost predicate Run(run: seq<FinalityState>) {
    && |run| > 0
    && run[0].record == map[] && run[0].final == {} && run[0].checkpoints == map[]
    && forall i :: 0 <= i < |run| - 1 ==> Step(run[i], run[i + 1])
  }

  /** The event met the threshold of the step taken from `s`. */
  ghost predicate MetThreshold(s: FinalityState, e: EventInfo) {
    || Passes(s.graph, s.nodes, s.voteThreshold, e)
    || Detected(s.graph, s.nodes, s.scanThreshold, e)
  }

  lemma StepExtends(s: FinalityState, t: FinalityState, h: nat)
    requires Step(s, t)
    ensures At(s.record, h) <= At(t.record, h) && s.final <= t.final
    ensures forall i :: |At(s.record, h)| <= i < |At(t.record, h)| ==>
              At(t.record, h)[i].height == h && MetThreshold(s, At(t.record, h)[i])
  {
  }

  /** Finality is never withdrawn. */
  lemma {:induction false} FinalityOnlyGrows(run: seq<FinalityState>, i: nat, j: nat, h: nat)
    requires Run(run) && i <= j < |run|
    ensures At(run[i].record, h) <= At(run[j].record, h) && run[i].final <= run[j].final
    decreases j - i
  {
    if i < j {
      StepExtends(run[i], run[i + 1], h);
      FinalityOnlyGrows(run, i + 1, j, h);
    }
  }

  /** Every recorded entry lies at its own height and was added by a step whose threshold it
      met; `k` is the index of that step. */
  lemma {:induction false} EveryEntryMetItsThreshold(run: seq<FinalityState>, n: nat, h: nat, i: nat) returns (k: nat)
    requires Run(run) && n < |run| && i < |At(run[n].record, h)|
    ensures k < n && |At(run[k].record, h)| <= i < |At(run[k + 1].record, h)|
    ensures At(run[k + 1].record, h)[i] == At(run[n].record, h)[i]
    ensures At(run[n].record, h)[i].height == h && MetThreshold(run[k], At(run[n].record, h)[i])
    decreases n
  {
    StepExtends(run[n - 1], run[n], h);
    if i < |At(run[n - 1].record, h)| {
      k := EveryEntryMetItsThreshold(run, n - 1, h, i);
    } else {
      k := n - 1;
    }
  }

  ghost predicate CheckpointsInPlace(s: FinalityState) {
    forall h :: h in s.checkpoints ==>
      h % 1000 == 0 && s.checkpoints[h].height == h && s.checkpoints[h].id in s.final
  }

  /** Every checkpoint sits at its own height, a multiple of 1000, and is final. */
  lemma {:induction false} CheckpointsStayInPlace(run: seq<FinalityState>, n: nat)
    requires Run(run) && n < |run|
    ensures CheckpointsInPlace(run[n])
  {
    if n > 0 {
      CheckpointsStayInPlace(run, n - 1);
      assert Step(run[n - 1], run[n]);
    }
  }

  /** A height that has a checkpoint keeps one. */
  lemma {:induction false} CheckpointsRemain(run: seq<FinalityState>, i: nat, j: nat, h: nat)
    requires Run(run) && i <= j < |run| && h in run[i].checkpoints
    ensures h in run[j].checkpoints
    decreases j - i
  {
    if i < j {
      assert Step(run[i], run[i + 1]);
      CheckpointsRemain(run, i + 1, j, h);
    }
  }

  /** Whatever is final became so in one step that processed it, and if it lies at a multiple
      of 1000 that step stored it as the checkpoint of its height, which has one ever since. */
  lemma {:induction false} FinalHasCheckpoint(run: seq<FinalityState>, n: nat, id: EventId)
    returns (k: nat, e: EventInfo)
    requires Run(run) && n < |run| && id in run[n].final
    ensures k < n && e.id == id && id !in run[k].final && ProcessStep(run[k], run[k + 1], e)
    ensures e.height % 1000 == 0 ==>
              && run[k + 1].checkpoints == run[k].checkpoints[e.height := e]
              && forall j :: k < j < |run| ==> e.height in run[j].checkpoints
    ensures e.height % 1000 != 0 ==> run[k + 1].checkpoints == run[k].checkpoints
  {
    if id in run[n - 1].final {
      k, e := FinalHasCheckpoint(run, n - 1, id);
    } else {
      k := n - 1;
      assert Step(run[k], run[n]);
      e :| ProcessStep(run[k], run[n], e);
      if e.height % 1000 == 0 {
        forall j | k < j < |run| ensures e.height in run[j].checkpoints {
          CheckpointsRemain(run, n, j, e.height);
        }
      }
    }
  }

  ghost predicate FinalIsRecorded(s: FinalityState) {
    forall id :: id in s.final ==> RecordedId(s, id)
  }

  ghost predicate RecordedId(s: FinalityState, id: EventId) {
    exists h, i :: 0 <= i < |At(s.record, h)| && At(s.record, h)[i].id == id
  }

  lemma RecordedStays(s: FinalityState, t: FinalityState, id: EventId)
    requires Step(s, t) && RecordedId(s, id)
    ensures RecordedId(t, id)
  {
    var h, i :| 0 <= i < |At(s.record, h)| && At(s.record, h)[i].id == id;
    StepExtends(s, t, h);
    assert At(t.record, h)[i].id == id;
  }

  lemma FinalArrives(s: FinalityState, t: FinalityState, id: EventId)
    requires Step(s, t) && id in t.final && id !in s.final
    ensures RecordedId(t, id)
  {
    hide Passes, Due, ScanRecord;
    var e :| ProcessStep(s, t, e);
    var i := |At(s.record, e.height)|;
    assert At(t.record, e.height)[i] == e;
  }

  /** Whatever the finalizer holds final is also in the record. */
  lemma {:induction false} FinalStaysRecorded(run: seq<FinalityState>, n: nat)
    requires Run(run) && n < |run|
    ensures FinalIsRecorded(run[n])
  {
    if n > 0 {
      var s, t := run[n - 1], run[n];
      FinalStaysRecorded(run, n - 1);
      assert Step(s, t);
      hide Step, RecordedId;
      forall id | id in t.final ensures RecordedId(t, id) {
        if id in s.final {
          RecordedStays(s, t, id);
        } else {
          FinalArrives(s, t, id);
        }
      }
    }
  }
}
