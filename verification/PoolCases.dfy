/** A short run of the pool that shows which end of the queue eviction takes. */
module PoolCases {
  import opened Lists
  import opened Transactions
  import opened TransactionPool
  import opened TxHeap

  /** The `nonce`-th transaction of one sender. */
  function Sample(id: string, nonce: int): Transaction {
    Transaction(id, "sender", "receiver", 1.0, 1.0, 0, 0, "", nonce)
  }

  /** Every signature checks out and the clock stands at 0. */
  function Anytime(): Env {
    Env(0, (tx: Transaction) => true)
  }

  /** A pool for two that holds a transaction of low priority and one of high priority. */
  method FullPool() returns (p: Pool)
    ensures fresh(p) && fresh(p.pq) && fresh(p.pq.Objects()) && p.Valid()
    ensures p.maxPoolSize == 2 && p.minFee == 0.0 && p.maxFee == 1.0 && p.expirationDuration == 10
    ensures |p.pq.items| == 2 && p.txMap.Keys == {"low", "high"} && p.accountNonces == map["sender" := 2]
    ensures p.txMap["low"].priority == 1 && p.txMap["high"].priority == 90
  {
    hide Pool.Valid, Entered, Elements, Txs, HigherLeft;
    p := new Pool(2, 0.0, 1.0, 10, false);
    NothingThere(p);
    var first := p.AddTransaction(Sample("low", 1), Anytime(), 50, 1);
    LiveKeys(p);
    var second := p.AddTransaction(Sample("high", 2), Anytime(), 50, 90);
    LiveKeys(p);
  }

  lemma NothingThere(p: Pool)
    requires p.pq.items == [] && p.txMap == map[]
    ensures p.pq.Objects() == {} && p.LiveTxs() == map[]
  {
  }

  lemma LiveKeys(p: Pool)
    ensures p.LiveTxs().Keys == p.txMap.Keys
  {
  }

  /** The next transaction makes room, and what has to go is the one of high priority. */
  method HighestIsEvicted() returns (p: Pool)
    ensures p.Valid() && "high" !in p.txMap && "low" in p.txMap && "next" in p.txMap
  {
    hide Entered, Txs;
    p := FullPool();
    ghost var low, high, items := p.txMap["low"], p.txMap["high"], p.pq.items;
    BothThere(p);
    assert AdjustedFee(0.0, 1.0, 50) == 0.0;
    var _ := p.AddTransaction(Sample("next", 3), Anytime(), 50, 50);
    OneGone(p, items, low, high);
  }

  lemma BothThere(p: Pool)
    requires p.Valid() && p.txMap.Keys == {"low", "high"}
    ensures p.txMap["low"] in p.pq.items && p.txMap["high"] in p.pq.items && p.txMap["low"] != p.txMap["high"]
  {
    assert p.txMap["low"] in p.txMap.Values && p.txMap["high"] in p.txMap.Values;
    assert p.txMap["low"].tx.id == "low" && p.txMap["high"].tx.id == "high";
    assert |"low"| == 3 && |"high"| == 4;
  }

  /** Two items of which one must have left for a third: the higher one has. */
  lemma OneGone(p: Pool, items: seq<TransactionItem>, low: TransactionItem, high: TransactionItem)
    requires p.Valid() && HigherLeft(items, p.pq.Objects()) && |p.pq.items| == 2
    requires low in items && high in items && low.priority < high.priority && low.tx.id == "low" && high.tx.id == "high"
    requires "next" in p.txMap && p.txMap.Keys <= {"low", "high", "next"}
    requires "low" in p.txMap ==> p.txMap["low"] == low
    requires "high" in p.txMap ==> p.txMap["high"] == high
    ensures "high" !in p.txMap && "low" in p.txMap
  {
    hide Complete, NoncesRise, AllAccepted, Ordered;
    p.DistinctBefore();
    var next := p.txMap["next"];
    assert |"low"| == 3 && |"high"| == |"next"| == 4 && "high"[0] == 'h' && "next"[0] == 'n';
    assert forall x :: x in p.pq.items ==> x in p.pq.Objects() && x in p.txMap.Values && p.txMap[x.tx.id] == x;
    assert next in p.txMap.Values && next in p.pq.items;
    assert "high" in p.txMap ==> high in p.txMap.Values;
    OfThree(p.pq.items, low, high, next);
  }

  lemma OfThree(s: seq<TransactionItem>, low: TransactionItem, high: TransactionItem, next: TransactionItem)
    requires |s| == 2 && Distinct(s) && next in s && forall x :: x in s ==> x == low || x == high || x == next
    requires high in s ==> low in s
    requires low != high && low != next && high != next
    ensures low in s && high !in s
  {
    assert s == [s[0], s[1]];
    assert s[0] in s && s[1] in s;
  }
}
