/** The hash chain that proves the passing of time (consensus/diamantepoh/diamantepoh.go). */
module ProofOfHistory {
  import opened Bytes
  import opened Wrappers

  /** SHA-256 as a free constructor over what is hashed: a 32-byte state followed by bytes. */
  datatype Digest =
    | Raw(bytes: seq<Byte>)
    | Seeded(text: string)
    | Hash(prev: Digest, payload: seq<Byte>)

  const ZERO := Raw(LittleEndian(0, 32))
  const MAX_ITERATIONS := 1000000
  const MAX_BATCH_SIZE := 500
  const MAX_DATA_SIZE := 1024 * 1024
  const MAX_COUNT_AHEAD := 10000

  datatype PohError =
    | TooManyIterations
    | Canceled
    | TimedOut(iterations: nat)
    | CountInPast
    | CountInFuture

  // ------------------------------------------------------------------ the chain, on values

  /** `n` steps of the chain from state `s` at count `c`. */
  function Chain(s: Digest, c: nat, n: nat): Digest
    decreases n
  {
    if n == 0 then s else Chain(Hash(s, Le8(c + 1)), c + 1, n - 1)
  }

  /** The states passed on the way. */
  function Trace(s: Digest, c: nat, n: nat): (t: seq<Digest>)
    ensures |t| == n
    decreases n
  {
    if n == 0 then []
    else
      var h := Hash(s, Le8(c + 1));
      [h] + Trace(h, c + 1, n - 1)
  }

  lemma TraceStarts(s: Digest, c: nat, n: nat)
    ensures Trace(s, c, n) == if n == 0 then [] else [Hash(s, Le8(c + 1))] + Trace(Hash(s, Le8(c + 1)), c + 1, n - 1)
  {
  }

  lemma TraceGoesOn(hashes: seq<Digest>, trace: seq<Digest>, i: nat, s: Digest, c: nat)
    requires i < |hashes| && hashes[..i] + Trace(s, c, |hashes| - i) == trace
    ensures trace[i] == Hash(s, Le8(c + 1))
    ensures hashes[i] == trace[i] ==> hashes[..i + 1] + Trace(hashes[i], c + 1, |hashes| - i - 1) == trace
  {
    hide Trace;
    TraceStarts(s, c, |hashes| - i);
    assert hashes[..i + 1] == hashes[..i] + [hashes[i]];
  }

  function ProofOf(s: Digest, c: nat, n: nat, data: seq<Byte>): Digest {
    Hash(Chain(s, c, n), data)
  }

  lemma {:induction false} ChainSplits(s: Digest, c: nat, m: nat, n: nat)
    ensures Chain(s, c, m + n) == Chain(Chain(s, c, m), c + m, n)
    decreases m
  {
    if m > 0 {
      ChainSplits(Hash(s, Le8(c + 1)), c + 1, m - 1, n);
    }
  }

  /** The last step of the chain hashes the little-endian counter reached onto the state before. */
  lemma ChainGoesOn(s: Digest, c: nat, n: nat)
    ensures Chain(s, c, n + 1) == Hash(Chain(s, c, n), Le8(c + n + 1))
  {
    ChainSplits(s, c, n, 1);
    assert Chain(Chain(s, c, n), c + n, 1) == Chain(Hash(Chain(s, c, n), Le8(c + n + 1)), c + n + 1, 0);
  }

  /** A trace can be cut anywhere and resumed from the state reached there. */
  lemma {:induction false} TraceSplits(s: Digest, c: nat, m: nat, n: nat)
    ensures Trace(s, c, m + n) == Trace(s, c, m) + Trace(Chain(s, c, m), c + m, n)
    decreases m
  {
    if m > 0 {
      var h := Hash(s, Le8(c + 1));
      TraceSplits(h, c + 1, m - 1, n);
      assert Trace(s, c, m + n) == [h] + (Trace(h, c + 1, m - 1) + Trace(Chain(h, c + 1, m - 1), c + m, n));
    }
  }

  lemma {:induction false} TraceIsChain(s: Digest, c: nat, n: nat, i: nat)
    requires i < n
    ensures Trace(s, c, n)[i] == Chain(s, c, i + 1)
    decreases n
  {
    var h := Hash(s, Le8(c + 1));
    if i > 0 {
      TraceIsChain(h, c + 1, n - 1, i - 1);
    } else {
      assert Chain(s, c, 1) == Chain(h, c + 1, 0);
    }
  }

  ghost function Depth(d: Digest): nat {
    if d.Hash? then Depth(d.prev) + 1 else 0
  }

  lemma {:induction false} ChainDepth(s: Digest, c: nat, n: nat)
    ensures Depth(Chain(s, c, n)) == Depth(s) + n
    decreases n
  {
    if n > 0 {
      ChainDepth(Hash(s, Le8(c + 1)), c + 1, n - 1);
    }
  }

  /** From one start, a proof belongs to at most one pair of data and iterations, even when
      the data spells an encoded counter. */
  lemma ProofIsUnique(s: Digest, c: nat, n: nat, data: seq<Byte>, n': nat, data': seq<Byte>)
    requires ProofOf(s, c, n, data) == ProofOf(s, c, n', data')
    ensures n == n' && data == data'
  {
    ChainDepth(s, c, n);
    ChainDepth(s, c, n');
  }

  /** `VerifyHashRange` accepts a range exactly when it accepts its two halves. */
  lemma RangeSplits(s: Digest, c: nat, a: seq<Digest>, b: seq<Digest>)
    ensures a + b == Trace(s, c, |a + b|) <==>
            a == Trace(s, c, |a|) && b == Trace(if a == [] then s else a[|a| - 1], c + |a|, |b|)
  {
    TraceSplits(s, c, |a|, |b|);
    if a + b == Trace(s, c, |a + b|) {
      assert a == (a + b)[..|a|] == Trace(s, c, |a|);
      assert b == (a + b)[|a|..];
    }
    if a != [] && a == Trace(s, c, |a|) {
      TraceIsChain(s, c, |a|, |a| - 1);
    }
  }

  // ------------------------------------------------------------------ recording, on values

  datatype PohState = PohState(state: Digest, count: nat, lastTick: int, tickDelay: int)

  function Tick(st: PohState, now: int): PohState {
    if now - st.lastTick >= st.tickDelay
    then st.(state := Chain(st.state, st.count, 1), count := st.count + 1, lastTick := now)
    else st
  }

  function RecordStep(st: PohState, data: seq<Byte>, now: int): PohState {
    var t := Tick(st, now);
    t.(state := Hash(t.state, data), count := t.count + 1)
  }

  /** Recording one item after the other, each at its own clock reading. */
  function RecordAll(st: PohState, items: seq<seq<Byte>>, clock: seq<int>): PohState
    requires |items| == |clock|
  {
    if items == [] then st
    else
      var k := |items| - 1;
      RecordStep(RecordAll(st, items[..k], clock[..k]), items[k], clock[k])
  }

  /** `after` hashes the data onto `before`, perhaps with a counter in between. */
  ghost predicate Recorded(before: Digest, data: seq<Byte>, after: Digest) {
    after == Hash(before, data) || exists c: nat :: after == Hash(Hash(before, Le8(c)), data)
  }

  lemma RecordsNext(st: PohState, items: seq<seq<Byte>>, clock: seq<int>, i: nat)
    requires i < |items| && i < |clock|
    ensures RecordAll(st, items[..i + 1], clock[..i + 1]) ==
              RecordStep(RecordAll(st, items[..i], clock[..i]), items[i], clock[i])
  {
    assert items[..i + 1][..i] == items[..i] && clock[..i + 1][..i] == clock[..i];
  }

  lemma RecordsNone(st: PohState, items: seq<seq<Byte>>, clock: seq<int>)
    ensures RecordAll(st, items[..0], clock[..0]) == st
  {
  }

  /** What one more item of a batch does: the data is hashed onto the state before, with a tick of
      the chain in between exactly if the delay has passed since the last one. */
  lemma RecordedItem(st: PohState, items: seq<seq<Byte>>, clock: seq<int>, i: nat)
    requires i < |items| && i < |clock|
    ensures var before, after :=
              RecordAll(st, items[..i], clock[..i]), RecordAll(st, items[..i + 1], clock[..i + 1]);
            if clock[i] - before.lastTick >= before.tickDelay
            then after == PohState(Hash(Hash(before.state, Le8(before.count + 1)), items[i]),
                                   before.count + 2, clock[i], before.tickDelay)
            else after == PohState(Hash(before.state, items[i]), before.count + 1, before.lastTick, before.tickDelay)
  {
    RecordsNext(st, items, clock, i);
    var before := RecordAll(st, items[..i], clock[..i]);
    ChainGoesOn(before.state, before.count, 0);
  }

  lemma BatchFollows(st: PohState, items: seq<seq<Byte>>, clock: seq<int>, hashes: seq<Digest>)
    requires |hashes| == |clock| <= |items|
    requires forall i :: 0 <= i < |hashes| ==> hashes[i] == RecordAll(st, items[..i + 1], clock[..i + 1]).state
    ensures hashes != [] ==> Recorded(st.state, items[0], hashes[0])
    ensures forall i :: 0 < i < |hashes| ==> Recorded(hashes[i - 1], items[i], hashes[i])
  {
    RecordsNone(st, items, clock);
    if hashes != [] {
      RecordedItem(st, items, clock, 0);
    }
    forall i | 0 < i < |hashes| ensures Recorded(hashes[i - 1], items[i], hashes[i]) {
      RecordedItem(st, items, clock, i);
    }
  }

  /** While every reading is within the delay of the last tick, the count grows by one an item. */
  lemma {:induction false} NoTickInTime(st: PohState, items: seq<seq<Byte>>, clock: seq<int>)
    requires |items| == |clock| && forall i :: 0 <= i < |clock| ==> clock[i] - st.lastTick < st.tickDelay
    ensures var t := RecordAll(st, items, clock);
            t.count == st.count + |items| && t.lastTick == st.lastTick && t.tickDelay == st.tickDelay
    decreases |items|
  {
    if items != [] {
      NoTickInTime(st, items[..|items| - 1], clock[..|items| - 1]);
    }
  }

  /** ... and by two where each reading is the delay after the one before. */
  lemma {:induction false} TickEveryTime(st: PohState, items: seq<seq<Byte>>, clock: seq<int>)
    requires |items| == |clock|
    requires clock != [] ==> clock[0] - st.lastTick >= st.tickDelay
    requires forall i :: 0 < i < |clock| ==> clock[i] - clock[i - 1] >= st.tickDelay
    ensures var t := RecordAll(st, items, clock);
            && t.count == st.count + 2 * |items| && t.tickDelay == st.tickDelay
            && t.lastTick == if items == [] then st.lastTick else clock[|clock| - 1]
    decreases |items|
  {
    if items != [] {
      TickEveryTime(st, items[..|items| - 1], clock[..|items| - 1]);
    }
  }

  /** Two batches in a row are one batch. */
  lemma {:induction false} BatchesCompose(st: PohState, a: seq<seq<Byte>>, ca: seq<int>, b: seq<seq<Byte>>,
                                       cb: seq<int>)
    requires |a| == |ca| && |b| == |cb|
    ensures RecordAll(st, a + b, ca + cb) == RecordAll(RecordAll(st, a, ca), b, cb)
    decreases |b|
  {
    if b == [] {
      assert a + b == a && ca + cb == ca;
    } else {
      var k := |b| - 1;
      BatchesCompose(st, a, ca, b[..k], cb[..k]);
      assert (a + b)[..|a| + k] == a + b[..k] && (ca + cb)[..|a| + k] == ca + cb[..k];
    }
  }

  /** Every recorded item adds one or two links; the count and the depth of the state move
      together. */
  lemma {:induction false} CountTracksDepth(st: PohState, items: seq<seq<Byte>>, clock: seq<int>)
    requires |items| == |clock|
    ensures var t := RecordAll(st, items, clock);
            && t.count - st.count == Depth(t.state) - Depth(st.state)
            && st.count + |items| <= t.count <= st.count + 2 * |items|
  {
    if items != [] {
      var k := |items| - 1;
      CountTracksDepth(st, items[..k], clock[..k]);
      var u := RecordAll(st, items[..k], clock[..k]);
      ChainDepth(u.state, u.count, 1);
    }
  }

  /** What `Verify` accepts. */
  predicate Verifies(currentCount: nat, prev: Digest, data: seq<Byte>, proof: Digest, count: nat) {
    && |data| <= MAX_DATA_SIZE && count <= currentCount + MAX_COUNT_AHEAD
    && prev != ZERO && (data == [] ==> proof == ZERO)
    && Hash(prev, data) == proof
  }

  /** A proof just recorded verifies against the state it was hashed from exactly when the
      data is neither empty nor too large; that state is never zero if the start was not. */
  lemma RecordedVerifies(st: PohState, data: seq<Byte>, now: int)
    requires st.state != ZERO
    ensures var t := RecordStep(st, data, now);
            Verifies(t.count, Tick(st, now).state, data, t.state, t.count) <==> 0 < |data| <= MAX_DATA_SIZE
  {
    assert Chain(st.state, st.count, 1) == Chain(Hash(st.state, Le8(st.count + 1)), st.count + 1, 0);
  }

  // ------------------------------------------------------------------ the class

  class PoH {
    var state: Digest
    var count: nat
    var lastTick: int
    var tickDelay: int

    ghost function View(): PohState
      reads this
    {
      PohState(state, count, lastTick, tickDelay)
    }

    constructor (initialState: Digest, tickDelay: int, now: int)
      ensures state == (if initialState == ZERO then Seeded("Diamante Default Seed") else initialState)
      ensures state != ZERO && count == 0 && lastTick == now && this.tickDelay == tickDelay
    {
      state := if initialState == ZERO then Seeded("Diamante Default Seed") else initialState;
      count, lastTick, this.tickDelay := 0, now, tickDelay;
    }

    method AdvanceState(iterations: nat)
      modifies this`state, this`count
      ensures state == Chain(old(state), old(count), iterations) && count == old(count) + iterations
    {
      for i := 0 to iterations
        invariant count == old(count) + i
        invariant Chain(state, count, iterations - i) == Chain(old(state), old(count), iterations)
      {
        count := count + 1;
        state := Hash(state, Le8(count));
      }
    }

    method TickLocked(now: int)
      modifies this
      ensures View() == Tick(old(View()), now)
      ensures var due := now - old(lastTick) >= old(tickDelay);
              && state == (if due then Hash(old(state), Le8(old(count) + 1)) else old(state))
              && count == old(count) + (if due then 1 else 0)
              && lastTick == (if due then now else old(lastTick)) && tickDelay == old(tickDelay)
    {
      ChainGoesOn(state, count, 0);
      if now - lastTick >= tickDelay {
        AdvanceState(1);
        lastTick := now;
      }
    }

    method Record(data: seq<Byte>, now: int) returns (proof: Digest)
      modifies this
      ensures View() == RecordStep(old(View()), data, now)
      ensures var due := now - old(lastTick) >= old(tickDelay);
              && proof == state == Hash(if due then Hash(old(state), Le8(old(count) + 1)) else old(state), data)
              && count == old(count) + (if due then 2 else 1)
              && lastTick == (if due then now else old(lastTick)) && tickDelay == old(tickDelay)
    {
      TickLocked(now);
      proof := Hash(state, data);
      state := proof;
      count := count + 1;
    }

    /** Records the first 500 items; `clock` holds one reading per item recorded. */
    method BatchRecord(dataList: seq<seq<Byte>>, clock: seq<int>) returns (hashes: seq<Digest>)
      requires |clock| == if |dataList| > 500 then 500 else |dataList|
      modifies this
      ensures View() == RecordAll(old(View()), dataList[..|clock|], clock)
      ensures |hashes| == |clock|
      ensures forall i :: 0 <= i < |hashes| ==>
                hashes[i] == RecordAll(old(View()), dataList[..i + 1], clock[..i + 1]).state
      ensures hashes != [] ==> Recorded(old(state), dataList[0], hashes[0])
      ensures forall i :: 0 < i < |hashes| ==> Recorded(hashes[i - 1], dataList[i], hashes[i])
    {
      var items := if |dataList| > MAX_BATCH_SIZE then dataList[..MAX_BATCH_SIZE] else dataList;
      hide RecordAll, Recorded;
      ghost var start := View();
      hashes := [];
      RecordsNone(View(), items, clock);
      for i := 0 to |items|
        invariant View() == RecordAll(old(View()), items[..i], clock[..i])
        invariant |hashes| == i
        invariant forall k :: 0 <= k < i ==> hashes[k] == RecordAll(old(View()), items[..k + 1], clock[..k + 1]).state
      {
        TickLocked(clock[i]);
        var hash := Hash(state, items[i]);
        state := hash;
        count := count + 1;
        hashes := hashes + [hash];
        RecordsNext(old(View()), items, clock, i);
      }
      assert clock[..|items|] == clock && items[..|items|] == dataList[..|clock|];
      forall k | 0 <= k < |hashes|
        ensures hashes[k] == RecordAll(old(View()), dataList[..k + 1], clock[..k + 1]).state
      {
        assert items[..k + 1] == dataList[..k + 1];
      }
      BatchFollows(start, dataList, clock, hashes);
    }

    method Verify(prevState: Digest, data: seq<Byte>, proof: Digest, proofCount: nat) returns (ok: bool)
      ensures ok <==> Verifies(count, prevState, data, proof, proofCount)
      ensures ok <==> 0 < |data| <= 1048576 && proofCount <= count + 10000
                      && prevState != Raw(seq(32, i => 0)) && proof == Hash(prevState, data)
    {
      ZeroBytes(32);
      if |data| > MAX_DATA_SIZE {
        return false;
      }
      if proofCount > count + MAX_COUNT_AHEAD {
        return false;
      }
      if prevState == ZERO {
        return false;
      }
      if |data| == 0 && proof != ZERO {
        return false;
      }
      return Hash(prevState, data) == proof;
    }

    method GenerateProof(data: seq<Byte>, iterations: nat) returns (r: Result<(Digest, Digest, nat), PohError>)
      modifies this`state, this`count
      ensures r.Err? <==> iterations > 1000000
      ensures r.Err? ==> r.error == TooManyIterations && state == old(state) && count == old(count)
      ensures r.Ok? ==> r.value == (ProofOf(old(state), old(count), iterations, data), old(state), old(count))
      ensures r.Ok? ==> state == Chain(old(state), old(count), iterations) && count == old(count) + iterations
    {
      if iterations > MAX_ITERATIONS {
        return Err(TooManyIterations);
      }
      var startState, startCount := state, count;
      for i := 0 to iterations
        invariant count == startCount + i
        invariant Chain(state, count, iterations - i) == Chain(startState, startCount, iterations)
      {
        count := count + 1;
        state := Hash(state, Le8(count));
      }
      return Ok((Hash(state, data), startState, startCount));
    }

    /** Replays the chain.  `canceled(i)` and `late(i)` say whether the context was canceled
        before, or the time was up after, iteration i.  Uninterrupted, the verdict is exact. */
    method VerifyProof(startState: Digest, data: seq<Byte>, proof: Digest, startCount: nat, iterations: nat,
                       canceled: nat -> bool, late: nat -> bool) returns (r: Result<bool, PohError>)
      ensures iterations > 1000000 ==> r == Err(TooManyIterations)
      ensures iterations <= 1000000 ==>
                (r.Ok? <==> forall i :: 0 <= i < iterations ==> !canceled(i) && !late(i))
      ensures r.Ok? ==> (r.value <==> proof == ProofOf(startState, startCount, iterations, data))
    {
      if iterations > MAX_ITERATIONS {
        return Err(TooManyIterations);
      }
      var replayed, c := startState, startCount;
      for i := 0 to iterations
        invariant c == startCount + i
        invariant Chain(replayed, c, iterations - i) == Chain(startState, startCount, iterations)
        invariant forall k :: 0 <= k < i ==> !canceled(k) && !late(k)
      {
        if canceled(i) {
          return Err(Canceled);
        }
        c := c + 1;
        replayed := Hash(replayed, Le8(c));
        if late(i) {
          return Err(TimedOut(i + 1));
        }
      }
      return Ok(Hash(replayed, data) == proof);
    }

    /** Accepts exactly the trace of the chain from the given start. */
    method VerifyHashRange(startState: Digest, startCount: nat, hashes: seq<Digest>) returns (ok: bool)
      ensures ok <==> hashes == Trace(startState, startCount, |hashes|)
    {
      hide Trace;
      var at, c := startState, startCount;
      ghost var trace := Trace(startState, startCount, |hashes|);
      for i := 0 to |hashes|
        invariant c == startCount + i
        invariant hashes[..i] + Trace(at, c, |hashes| - i) == trace
      {
        TraceGoesOn(hashes, trace, i, at, c);
        c := c + 1;
        var expected := Hash(at, Le8(c));
        if expected != hashes[i] {
          return false;
        }
        at := hashes[i];
      }
      TraceStarts(at, c, 0);
      assert hashes[..|hashes|] == hashes;
      return true;
    }

    /** Jumps to the target; only the past is refused. */
    method Synchronize(targetState: Digest, targetCount: nat, now: int) returns (r: Result<(), PohError>)
      modifies this
      ensures r == if targetCount < old(count) then Err(CountInPast) else Ok(())
      ensures View() == if r.Ok? then PohState(targetState, targetCount, now, old(tickDelay)) else old(View())
      ensures r.Ok? ==> state == targetState && count == targetCount && lastTick == now && tickDelay == old(tickDelay)
    {
      if targetCount < count {
        return Err(CountInPast);
      }
      state, count, lastTick := targetState, targetCount, now;
      return Ok(());
    }

    /** Goes back to a snapshot; only the future is refused. */
    method RestoreSnapshot(snapshot: Digest, snapshotCount: nat, now: int) returns (r: Result<(), PohError>)
      modifies this
      ensures r == if snapshotCount > old(count) then Err(CountInFuture) else Ok(())
      ensures View() == if r.Ok? then PohState(snapshot, snapshotCount, now, old(tickDelay)) else old(View())
      ensures r.Ok? ==> state == snapshot && count == snapshotCount && lastTick == now && tickDelay == old(tickDelay)
    {
      if snapshotCount > count {
        return Err(CountInFuture);
      }
      state, count, lastTick := snapshot, snapshotCount, now;
      return Ok(());
    }
  }
}
