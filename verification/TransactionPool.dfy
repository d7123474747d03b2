/** The transaction pool: a heap, a map by ID, an account index and a nonce watermark that must
    agree (transaction/transaction_pool.go). */
module TransactionPool {
  import opened Transactions
  import opened TxHeap
  import opened Wrappers
  import opened Lists

  type Live = map<string, Transaction>

  type AccountIndex = map<string, set<string>>

  // ------------------------------------------------------------------ the account index

  predicate Listed(index: AccountIndex, account: string, id: string) {
    account in index && id in index[account]
  }

  function Enter(index: AccountIndex, account: string, id: string): AccountIndex {
    index[account := (if account in index then index[account] else {}) + {id}]
  }

  /** A transaction is entered under its sender and, if it has one, its contract. */
  function Entered(index: AccountIndex, tx: Transaction): AccountIndex {
    var entered := Enter(index, tx.sender, tx.id);
    if tx.contractId != "" then Enter(entered, tx.contractId, tx.id) else entered
  }

  /** Takes an ID off an account's list and drops the list once it is empty. */
  function Strike(index: AccountIndex, account: string, id: string): AccountIndex {
    if account !in index then index
    else if index[account] - {id} == {} then index - {account}
    else index[account := index[account] - {id}]
  }

  /** Every live transaction is listed under its sender and its contract. */
  ghost predicate Complete(index: AccountIndex, live: Live) {
    forall id :: id in live ==>
      && Listed(index, live[id].sender, id)
      && (live[id].contractId != "" ==> Listed(index, live[id].contractId, id))
  }

  lemma EnterKeepsComplete(index: AccountIndex, live: Live, tx: Transaction)
    requires Complete(index, live)
    ensures Complete(Entered(index, tx), live[tx.id := tx])
  {
  }

  lemma StrikeMeans(index: AccountIndex, account: string, id: string)
    ensures forall a, other :: Listed(Strike(index, account, id), a, other) <==>
              Listed(index, a, other) && !(a == account && other == id)
  {
    forall a, other
      ensures Listed(Strike(index, account, id), a, other) <==>
                Listed(index, a, other) && !(a == account && other == id)
    {
      if a == account && a in index && other in index[a] && other != id {
        assert other in index[a] - {id};
      }
    }
  }

  lemma StrikeKeepsComplete(index: AccountIndex, live: Live, account: string, id: string)
    requires Complete(index, live - {id})
    ensures Complete(Strike(index, account, id), live - {id})
  {
    StrikeMeans(index, account, id);
  }

  lemma FewerStayComplete(index: AccountIndex, live: Live, id: string)
    requires Complete(index, live)
    ensures Complete(index, live - {id})
  {
  }

  // ------------------------------------------------------------------ nonces

  /** `accepted` lists every transaction ever taken in, oldest first: the watermark bounds each
      sender's nonces, and they strictly increase. */
  ghost predicate NoncesRise(nonces: map<string, int>, accepted: seq<Transaction>) {
    && (forall i :: 0 <= i < |accepted| ==>
          accepted[i].sender in nonces && accepted[i].nonce <= nonces[accepted[i].sender])
    && forall i, j :: 0 <= i < j < |accepted| && accepted[i].sender == accepted[j].sender ==>
         accepted[i].nonce < accepted[j].nonce
  }

  ghost predicate AllAccepted(live: Live, accepted: seq<Transaction>) {
    forall id :: id in live ==> live[id].id == id && live[id] in accepted
  }

  lemma AcceptKeepsRise(nonces: map<string, int>, accepted: seq<Transaction>, tx: Transaction)
    requires NoncesRise(nonces, accepted)
    requires tx.sender in nonces ==> tx.nonce > nonces[tx.sender]
    ensures NoncesRise(nonces[tx.sender := tx.nonce], accepted + [tx])
  {
  }

  /** No two live transactions share sender and nonce. */
  lemma LiveNoncesDiffer(nonces: map<string, int>, accepted: seq<Transaction>, live: Live, a: string, b: string)
    requires NoncesRise(nonces, accepted) && AllAccepted(live, accepted)
    requires a in live && b in live
    requires live[a].sender == live[b].sender && live[a].nonce == live[b].nonce
    ensures a == b
  {
    var i :| 0 <= i < |accepted| && accepted[i] == live[a];
    var j :| 0 <= j < |accepted| && accepted[j] == live[b];
    assert i == j;
  }

  // ------------------------------------------------------------------ validation

  /** What the pool asks of the rest of the node: the clock in seconds and the signature check
      (true when there is no key manager or no signature). */
  datatype Env = Env(now: int, signed: Transaction -> bool)

  /** Everything validation demands besides the nonce. */
  predicate Sound(tx: Transaction, env: Env, minFee: real, expirationDuration: int) {
    && tx.amount > 0.0 && tx.fee >= 0.0 && tx.sender != "" && tx.receiver != ""
    && tx.fee >= minFee
    && !(tx.expiryTime > 0 && tx.expiryTime <= env.now)
    && env.now - tx.timestamp <= expirationDuration
    && env.signed(tx)
  }

  predicate NextNonce(tx: Transaction, nonces: map<string, int>) {
    tx.sender in nonces ==> tx.nonce > nonces[tx.sender]
  }

  /** What acceptance means: nothing short of this, and nothing more. */
  lemma SoundIs(tx: Transaction, env: Env, minFee: real, expirationDuration: int)
    ensures Sound(tx, env, minFee, expirationDuration) <==>
              && env.signed(tx) && tx.amount > 0.0 && tx.fee >= 0.0 && tx.fee >= minFee
              && tx.sender != "" && tx.receiver != ""
              && (tx.expiryTime <= 0 || tx.expiryTime > env.now) && tx.timestamp + expirationDuration >= env.now
  {
  }

  /** Each of the accepted transactions was signed, well formed and in time when it came. */
  ghost predicate CameSound(accepted: seq<Transaction>, arrivals: seq<Env>, expirationDuration: int) {
    && |accepted| == |arrivals|
    && forall i :: 0 <= i < |accepted| ==>
         var tx, env := accepted[i], arrivals[i];
         && env.signed(tx) && tx.amount > 0.0 && tx.fee >= 0.0 && tx.sender != "" && tx.receiver != ""
         && (tx.expiryTime <= 0 || tx.expiryTime > env.now) && tx.timestamp + expirationDuration >= env.now
  }

  lemma OneMoreCameSound(accepted: seq<Transaction>, arrivals: seq<Env>, tx: Transaction, env: Env, minFee: real,
                         expirationDuration: int)
    requires CameSound(accepted, arrivals, expirationDuration) && Sound(tx, env, minFee, expirationDuration)
    ensures CameSound(accepted + [tx], arrivals + [env], expirationDuration)
  {
    SoundIs(tx, env, minFee, expirationDuration);
  }

  predicate Expired(tx: Transaction, now: int, maxAge: int) {
    (tx.expiryTime > 0 && now > tx.expiryTime) || tx.timestamp < now - maxAge
  }

  /** The minimum fee after an adjustment to the network load. */
  function AdjustedFee(minFee: real, maxFee: real, load: int): real {
    var factor := load as real / 100.0;
    var raw := if load > 75 then minFee * (1.0 + factor)
               else if load < 25 then minFee * (0.8 + 0.2 * factor)
               else minFee * (0.9 + 0.2 * factor);
    var floored := if raw < minFee * 0.5 then minFee * 0.5 else raw;
    if floored > maxFee then maxFee else floored
  }

  /** In thousandths of the fee before, unless the maximum is less. */
  lemma AdjustedFeeIs(minFee: real, maxFee: real, load: int)
    requires minFee >= 0.0 && 0 <= load
    ensures var thousandths := if load < 25 then 800 + 2 * load
                               else if load <= 75 then 900 + 2 * load else 1000 + 10 * load;
            var fee := minFee * (thousandths as real) / 1000.0;
            AdjustedFee(minFee, maxFee, load) == if fee > maxFee then maxFee else fee
  {
    var factor := load as real / 100.0;
    var thousandths := if load < 25 then 800 + 2 * load
                       else if load <= 75 then 900 + 2 * load else 1000 + 10 * load;
    var share := if load > 75 then 1.0 + factor else if load < 25 then 0.8 + 0.2 * factor else 0.9 + 0.2 * factor;
    assert share * 1000.0 == thousandths as real;
    assert share >= 0.5;
    FeeAtLeast(minFee, share);
    assert minFee * share == minFee * (thousandths as real) / 1000.0;
  }

  lemma FeeAtLeast(minFee: real, share: real)
    requires minFee >= 0.0 && share >= 0.5
    ensures minFee * share >= minFee * 0.5
  {
  }

  /** The fee rises above a load of 50, stays at it, and falls below. */
  lemma FeeMovesWithLoad(minFee: real, maxFee: real, load: int)
    requires 0.0 < minFee < maxFee && 0 <= load
    ensures AdjustedFee(minFee, maxFee, load) > minFee <==> load > 50
    ensures AdjustedFee(minFee, maxFee, load) == minFee <==> load == 50
  {
    hide AdjustedFee;
    AdjustedFeeIs(minFee, maxFee, load);
    var thousandths := if load < 25 then 800 + 2 * load
                       else if load <= 75 then 900 + 2 * load else 1000 + 10 * load;
    FeeCompares(minFee, thousandths);
    var fee := minFee * (thousandths as real) / 1000.0;
    assert AdjustedFee(minFee, maxFee, load) == if fee > maxFee then maxFee else fee;
    assert thousandths > 1000 <==> load > 50;
  }

  lemma FeeCompares(fee: real, thousandths: int)
    requires fee > 0.0
    ensures fee * (thousandths as real) / 1000.0 > fee <==> thousandths > 1000
    ensures fee * (thousandths as real) / 1000.0 == fee <==> thousandths == 1000
  {
    var more := thousandths as real - 1000.0;
    Product(fee, more);
    assert fee * (thousandths as real) == fee * 1000.0 + fee * more;
  }

  lemma Product(fee: real, more: real)
    requires fee > 0.0
    ensures fee * more > 0.0 <==> more > 0.0
    ensures fee * more == 0.0 <==> more == 0.0
  {
  }

  // ------------------------------------------------------------------ conflicts

  type Key = (string, int)

  function KeyOf(tx: Transaction): Key {
    (tx.sender, tx.nonce)
  }

  /** The live transactions of one sender and nonce. */
  ghost function Group(live: Live, key: Key): set<string> {
    set id | id in live && KeyOf(live[id]) == key
  }

  ghost function AllKeys(live: Live): set<Key> {
    set id | id in live :: KeyOf(live[id])
  }

  /** The one ID a conflict set may keep: a highest positive fee, or, when no fee is positive,
      the empty string, which as a rule names nothing. */
  ghost predicate Keeps(live: Live, group: set<string>, keep: string)
    requires group <= live.Keys
  {
    || (keep in group && live[keep].fee > 0.0 && forall id :: id in group ==> live[id].fee <= live[keep].fee)
    || (keep == "" && forall id :: id in group ==> live[id].fee <= 0.0)
  }

  /** How one group ends: alone it stays, otherwise at most the kept one stays. */
  ghost predicate Settled(live: Live, key: Key, doomed: set<string>) {
    var group := Group(live, key);
    if |group| <= 1 then group !! doomed
    else exists keep :: Keeps(live, group, keep) && group - doomed == group * {keep}
  }

  /** The groups of `keys` are settled and nothing else is doomed. */
  ghost predicate Dooms(live: Live, keys: set<Key>, doomed: set<string>) {
    && (forall id :: id in doomed ==> id in live && KeyOf(live[id]) in keys)
    && (forall key :: key in keys ==> Settled(live, key, doomed))
  }

  lemma DoomsMore(live: Live, keys: set<Key>, doomed: set<string>, key: Key, more: set<string>)
    requires Dooms(live, keys, doomed) && key !in keys && more <= Group(live, key)
    requires Settled(live, key, more)
    ensures Dooms(live, keys + {key}, doomed + more) && doomed !! more
  {
    forall k | k in keys ensures Settled(live, k, doomed + more) {
      assert Group(live, k) - (doomed + more) == Group(live, k) - doomed;
      assert Group(live, k) !! more;
    }
    var group := Group(live, key);
    assert group - (doomed + more) == group - more && group !! doomed;
    assert Settled(live, key, doomed + more);
  }

  /** Of transactions that share sender and nonce at most one stays, and why it does; whatever
      goes shared them with another. */
  lemma DoomsMean(live: Live, doomed: set<string>)
    requires Dooms(live, AllKeys(live), doomed)
    ensures forall a, b :: a in live && a !in doomed && b in live && a != b && KeyOf(live[a]) == KeyOf(live[b]) ==>
              b in doomed
              && ((live[a].fee > 0.0 && live[b].fee <= live[a].fee) || (a == "" && live[b].fee <= 0.0))
    ensures forall b :: b in doomed ==> exists c :: c in live && c != b && KeyOf(live[c]) == KeyOf(live[b])
  {
    forall a, b | a in live && a !in doomed && b in live && a != b && KeyOf(live[a]) == KeyOf(live[b])
      ensures b in doomed
      ensures (live[a].fee > 0.0 && live[b].fee <= live[a].fee) || (a == "" && live[b].fee <= 0.0)
    {
      var group := Group(live, KeyOf(live[a]));
      TwoInSet(group, a, b);
      assert Settled(live, KeyOf(live[a]), doomed);
      var keep :| Keeps(live, group, keep) && group - doomed == group * {keep};
      assert a in group - doomed;
      assert b !in group * {keep};
    }
    forall b | b in doomed ensures exists c :: c in live && c != b && KeyOf(live[c]) == KeyOf(live[b]) {
      var group := Group(live, KeyOf(live[b]));
      assert b in group && Settled(live, KeyOf(live[b]), doomed);
      assert |group - {b}| == |group| - 1;
      assert group - {b} != {};
      var c :| c in group && c != b;
    }
  }

  lemma TwoInSet<T>(s: set<T>, a: T, b: T)
    requires a in s && b in s && a != b
    ensures |s| > 1
  {
    SubsetSize({a, b}, s);
  }

  /** ... in terms of the pool's map before and after. */
  lemma ConflictsMean(before: map<string, TransactionItem>, after: map<string, TransactionItem>, doomed: set<string>)
    requires Dooms(Txs(before), AllKeys(Txs(before)), doomed) && after == before - doomed
    ensures forall id :: id in after ==> id in before && after[id] == before[id]
    ensures forall a, b :: a in after && b in before && a != b ==>
              var s, t := after[a].tx, before[b].tx;
              s.sender == t.sender && s.nonce == t.nonce ==>
                b !in after && ((s.fee > 0.0 && t.fee <= s.fee) || (a == "" && t.fee <= 0.0))
    ensures forall b :: b in before && b !in after ==> exists c ::
              c in before && c != b
              && before[c].tx.sender == before[b].tx.sender && before[c].tx.nonce == before[b].tx.nonce
  {
    var live := Txs(before);
    DoomsMean(live, doomed);
    assert live.Keys == before.Keys && forall id :: id in before ==> live[id] == before[id].tx;
    forall b | b in before && b !in after
      ensures exists c :: c in before && c != b
                          && before[c].tx.sender == before[b].tx.sender && before[c].tx.nonce == before[b].tx.nonce
    {
      var c :| c in live && c != b && KeyOf(live[c]) == KeyOf(live[b]);
      assert c in before;
    }
  }

  /** Nothing is doomed where no two live transactions share sender and nonce. */
  lemma NoConflictNoDoom(live: Live, keys: set<Key>, doomed: set<string>)
    requires Dooms(live, keys, doomed)
    requires forall a, b :: a in live && b in live && KeyOf(live[a]) == KeyOf(live[b]) ==> a == b
    ensures doomed == {}
  {
    forall id | id in live ensures Group(live, KeyOf(live[id])) == {id} {
    }
  }

  // ------------------------------------------------------------------ the pool

  datatype AddResult = Added | Duplicate | PoolFull | Rejected

  /** Exactly the entries of the `gone` under their senders are off the index. */
  ghost predicate Struck(before: AccountIndex, after: AccountIndex, live: Live, gone: set<string>) {
    forall account, id :: Listed(after, account, id) <==>
      Listed(before, account, id) && !(id in gone && id in live && live[id].sender == account)
  }

  lemma StruckMore(before: AccountIndex, after: AccountIndex, live: Live, gone: set<string>, id: string)
    requires Struck(before, after, live, gone) && id in live
    ensures Struck(before, Strike(after, live[id].sender, id), live, gone + {id})
  {
    StrikeMeans(after, live[id].sender, id);
  }

  /** Eviction and expiry strike the sender's entry only: a contract's entry goes stale, exactly
      unless the contract is the sender. */
  lemma ContractEntryGoesStale(before: AccountIndex, after: AccountIndex, live: Live, gone: set<string>, id: string)
    requires Complete(before, live) && Struck(before, after, live, gone)
    requires id in live && id in gone && live[id].contractId != ""
    ensures Listed(after, live[id].contractId, id) <==> live[id].contractId != live[id].sender
  {
  }

  /** The list holds the transactions of the IDs, one each. */
  ghost predicate Named(list: seq<Transaction>, ids: set<string>, live: Live) {
    && ids <= live.Keys && |list| == |ids|
    && forall tx :: tx in list <==> exists id :: id in ids && live[id] == tx
  }

  lemma NamedNone(ids: set<string>, live: Live)
    ensures Named([], (ids - ids) * live.Keys, live)
  {
  }

  lemma NamedStep(list: seq<Transaction>, ids: set<string>, rest: set<string>, id: string, live: Live)
    requires id in rest && rest <= ids && Named(list, (ids - rest) * live.Keys, live)
    ensures Named(if id in live then list + [live[id]] else list, (ids - (rest - {id})) * live.Keys, live)
  {
    var named := (ids - rest) * live.Keys;
    assert (ids - (rest - {id})) * live.Keys == if id in live then named + {id} else named;
  }

  function Txs(m: map<string, TransactionItem>): Live {
    map id | id in m :: m[id].tx
  }

  ghost predicate Keyed(m: map<string, TransactionItem>) {
    forall id :: id in m ==> m[id].tx.id == id
  }

  lemma DropItem(m: map<string, TransactionItem>, id: string)
    requires Keyed(m) && id in m
    ensures Keyed(m - {id}) && (m - {id}).Values == m.Values - {m[id]}
    ensures Txs(m - {id}) == Txs(m) - {id}
  {
    forall x | x in m.Values - {m[id]} ensures x in (m - {id}).Values {
      var k :| k in m && m[k] == x;
      assert (m - {id})[k] == x;
    }
  }

  lemma AddItem(m: map<string, TransactionItem>, item: TransactionItem)
    requires Keyed(m) && item.tx.id !in m
    ensures Keyed(m[item.tx.id := item]) && m[item.tx.id := item].Values == m.Values + {item}
    ensures Txs(m[item.tx.id := item]) == Txs(m)[item.tx.id := item.tx]
  {
    var n := m[item.tx.id := item];
    forall x | x in m.Values ensures x in n.Values {
      var k :| k in m && m[k] == x;
      assert n[k] == x;
    }
    assert n[item.tx.id] == item;
  }

  lemma AcceptKeepsAccepted(live: Live, accepted: seq<Transaction>, tx: Transaction)
    requires AllAccepted(live, accepted)
    ensures AllAccepted(live[tx.id := tx], accepted + [tx])
  {
  }

  /** 80% of the capacity. */
  function Target(maxPoolSize: nat): nat {
    4 * maxPoolSize / 5
  }

  lemma TargetIs(maxPoolSize: nat)
    ensures 5 * Target(maxPoolSize) <= 4 * maxPoolSize < 5 * (Target(maxPoolSize) + 1)
  {
  }

  /** Whatever left had at least the priority of everything that stayed. */
  ghost predicate HigherLeft(before: seq<TransactionItem>, after: set<TransactionItem>)
    reads before`priority
  {
    forall x, y :: x in before && x !in after && y in before && y in after ==> x.priority >= y.priority
  }

  /** What the eviction claims: whatever left had at most the priority of everything that stayed. */
  ghost predicate LowestLeft(before: seq<TransactionItem>, after: set<TransactionItem>)
    reads before`priority
  {
    forall x, y :: x in before && x !in after && y in before && y in after ==> x.priority <= y.priority
  }

  ghost predicate SamePriority(items: seq<TransactionItem>)
    reads items`priority
  {
    forall x, y :: x in items && y in items ==> x.priority == y.priority
  }

  /** Where the highest leave, the lowest leave exactly if nothing or everything leaves or there
      is no difference. */
  lemma LowestLeftExactly(before: seq<TransactionItem>, after: seq<TransactionItem>, target: nat)
    requires HigherLeft(before, Elements(after)) && Elements(after) <= Elements(before)
    requires Distinct(before) && Distinct(after) && |after| == if |before| <= target then |before| else target
    ensures LowestLeft(before, Elements(after)) <==> |before| <= target || target == 0 || SamePriority(before)
  {
    DistinctSize(before, Elements(before));
    DistinctSize(after, Elements(after));
    if |before| <= target {
      EqualSize(Elements(after), Elements(before));
    } else if target > 0 {
      var stayed := after[0];
      assert stayed in Elements(after);
      SubsetSize(Elements(after), Elements(before));
      assert exists x :: x in Elements(before) && x !in Elements(after) by {
        assert Elements(after) != Elements(before);
      }
      var left :| left in Elements(before) && left !in Elements(after);
      if LowestLeft(before, Elements(after)) {
        forall x | x in before ensures x.priority == stayed.priority {
          if x in Elements(after) {
            assert left.priority == x.priority && left.priority == stayed.priority;
          }
        }
      }
    } else {
      assert after == [];
    }
  }

  /** What is left is as it was, and more leaves as if all left together. */
  lemma SameLive(all: map<string, TransactionItem>, gone: set<string>)
    ensures forall id :: id in all - gone ==> id in Txs(all) && Txs(all - gone)[id] == Txs(all)[id]
    ensures forall id :: (all - gone) - {id} == all - (gone + {id})
  {
  }

  lemma EqualSize<T>(a: set<T>, b: set<T>)
    requires a <= b && |a| == |b|
    ensures a == b
  {
    SubsetSize(a, b);
  }

  lemma NothingLeft(index: AccountIndex, live: Live, all: seq<TransactionItem>)
    ensures HigherLeft(all, Elements(all)) && Struck(index, index, live, {})
  {
  }

  lemma HigherLeftMore(before: seq<TransactionItem>, objects: set<TransactionItem>, top: TransactionItem)
    requires HigherLeft(before, objects) && objects <= Elements(before) && top in objects
    requires forall y :: y in objects - {top} ==> y.priority <= top.priority
    ensures HigherLeft(before, objects - {top})
  {
  }

  lemma HigherLeftNew(before: seq<TransactionItem>, after: set<TransactionItem>, item: TransactionItem)
    requires HigherLeft(before, after) && item !in before
    ensures HigherLeft(before, after + {item})
  {
  }

  lemma LosersSettle(live: Live, key: Key, losers: seq<string>)
    requires if |Group(live, key)| > 1
             then exists keep :: Keeps(live, Group(live, key), keep) && Elements(losers) == Group(live, key) - {keep}
             else losers == []
    ensures Elements(losers) <= Group(live, key) && Settled(live, key, Elements(losers))
  {
    var group := Group(live, key);
    if |group| > 1 {
      var keep :| Keeps(live, group, keep) && Elements(losers) == group - {keep};
      assert group - Elements(losers) == group * {keep};
    }
  }

  lemma BooksHaveNoConflict(nonces: map<string, int>, accepted: seq<Transaction>, live: Live)
    requires NoncesRise(nonces, accepted) && AllAccepted(live, accepted)
    ensures forall a, b :: a in live && b in live && KeyOf(live[a]) == KeyOf(live[b]) ==> a == b
  {
    forall a, b | a in live && b in live && KeyOf(live[a]) == KeyOf(live[b]) ensures a == b {
      LiveNoncesDiffer(nonces, accepted, live, a, b);
    }
  }

  lemma ElementsAppend<T>(s: seq<T>, x: T)
    ensures Elements(s + [x]) == Elements(s) + {x}
    ensures Distinct(s) && x !in Elements(s) ==> Distinct(s + [x])
  {
  }

  lemma NoElements<T>(s: seq<T>)
    ensures Elements(s) == {} ==> s == []
  {
    if s != [] {
      assert s[0] in Elements(s);
    }
  }

  lemma ElementsConcat<T>(s: seq<T>, t: seq<T>)
    ensures Elements(s + t) == Elements(s) + Elements(t)
    ensures Distinct(s) && Distinct(t) && Elements(s) !! Elements(t) ==> Distinct(s + t)
  {
    if Distinct(s) && Distinct(t) && Elements(s) !! Elements(t) {
      forall i, j | 0 <= i < j < |s + t| ensures (s + t)[i] != (s + t)[j] {
        assert (s + t)[i] in (if i < |s| then Elements(s) else Elements(t));
        assert (s + t)[j] in (if j < |s| then Elements(s) else Elements(t));
      }
    }
  }

  lemma NextRemoval(list: seq<string>, i: nat)
    requires Distinct(list) && i < |list|
    ensures list[i] !in Elements(list[..i])
    ensures Elements(list[..i + 1]) == Elements(list[..i]) + {list[i]}
  {
    assert list[..i + 1] == list[..i] + [list[i]];
  }

  lemma LeavingKeepsBooks(index: AccountIndex, live: Live, accepted: seq<Transaction>, account: string, id: string)
    requires Complete(index, live) && AllAccepted(live, accepted)
    ensures Complete(Strike(index, account, id), live - {id}) && AllAccepted(live - {id}, accepted)
  {
    FewerStayComplete(index, live, id);
    StrikeKeepsComplete(index, live, account, id);
  }

  lemma NotThere(m: map<string, TransactionItem>, id: string)
    requires id !in m
    ensures m - {id} == m && Txs(m) - {id} == Txs(m)
  {
  }

  ghost function ExpiredIds(live: Live, now: int, maxAge: int): set<string> {
    set id | id in live && Expired(live[id], now, maxAge)
  }

  lemma ExpiredMeans(live: Live, now: int, maxAge: int)
    ensures forall id :: id in live ==>
              (id !in ExpiredIds(live, now, maxAge) <==>
                (live[id].expiryTime <= 0 || now <= live[id].expiryTime) && live[id].timestamp + maxAge >= now)
  {
  }

  lemma NextNonceIs(tx: Transaction, nonces: map<string, int>)
    ensures NextNonce(tx, nonces) <==> (tx.sender in nonces ==> tx.nonce > nonces[tx.sender])
  {
  }

  class Pool {
    const pq: PriorityQueue
    const maxPoolSize: nat
    const maxFee: real
    const expirationDuration: int
    const conflictResolutionEnabled: bool

    var txMap: map<string, TransactionItem>
    var accountTxs: AccountIndex
    var accountNonces: map<string, int>
    var minFee: real
    var totalAdded: nat
    var totalRemoved: nat
    var totalExpired: nat
    var totalEvicted: nat

    /** Everything ever accepted, oldest first. */
    ghost var accepted: seq<Transaction>

    /** ... and what the rest of the node answered when each of them came. */
    ghost var arrivals: seq<Env>

    function LiveTxs(): Live
      reads this`txMap
    {
      Txs(txMap)
    }

    /** The heap and the map hold the same items. */
    ghost predicate Agree()
      reads this`txMap, pq
    {
      txMap.Values == pq.Objects() && Keyed(txMap)
    }

    /** The heap is a heap, its items know their places, and it agrees with the map. */
    ghost predicate Core()
      reads this`txMap, pq, pq.items
    {
      pq.Valid() && Agree()
    }

    /** What the pool remembers beside the heap. */
    ghost predicate Books()
      reads this`txMap, this`accountTxs, this`accountNonces, this`accepted
    {
      && Complete(accountTxs, LiveTxs())
      && NoncesRise(accountNonces, accepted) && AllAccepted(LiveTxs(), accepted)
    }

    ghost predicate Valid()
      reads this, pq, pq.items
    {
      && Core() && Books() && CameSound(accepted, arrivals, expirationDuration)
      && |pq.items| <= maxPoolSize
      && totalAdded == |pq.items| + totalRemoved + totalExpired + totalEvicted
    }

    constructor (maxPoolSize: nat, minFee: real, maxFee: real, expirationDuration: int, conflictResolutionEnabled: bool)
      ensures Valid() && fresh(pq) && pq.items == [] && txMap == map[] && accountNonces == map[] && accepted == []
      ensures this.maxPoolSize == maxPoolSize && this.minFee == minFee && this.maxFee == maxFee
      ensures this.expirationDuration == expirationDuration
      ensures this.conflictResolutionEnabled == conflictResolutionEnabled
    {
      var q := new PriorityQueue();
      pq, txMap, accountTxs, accountNonces := q, map[], map[], map[];
      this.maxPoolSize, this.minFee, this.maxFee := maxPoolSize, minFee, maxFee;
      this.expirationDuration, this.conflictResolutionEnabled := expirationDuration, conflictResolutionEnabled;
      totalAdded, totalRemoved, totalExpired, totalEvicted := 0, 0, 0, 0;
      accepted, arrivals := [], [];
    }

    // ---------------------------------------------------------------- heap and map together

    /** Takes one transaction out of the heap, by its index, and out of the map. */
    method TakeOut(id: string) returns (item: TransactionItem)
      requires Core() && id in txMap
      modifies this`txMap, pq, pq.Objects()`index
      ensures Core() && item == old(txMap[id]) && txMap == old(txMap) - {id}
      ensures |pq.items| == |old(pq.items)| - 1 && pq.Objects() == old(pq.Objects()) - {item}
      ensures LiveTxs() == old(LiveTxs()) - {id} && item.tx == old(LiveTxs())[id]
    {
      hide Ordered, Keyed;
      DropItem(txMap, id);
      item := txMap[id];
      assert item in txMap.Values;
      var i := item.index;
      var _ := pq.HeapRemove(i);
      SomeElements(old(pq.items), pq.items, item);
      txMap := txMap - {id};
    }

    /** Takes the first item of the heap out of the heap and the map. */
    method TakeTop() returns (item: TransactionItem)
      requires Core() && |pq.items| > 0
      modifies this`txMap, pq, pq.Objects()`index
      ensures Core() && item.tx.id in old(txMap) && item == old(txMap)[item.tx.id]
      ensures txMap == old(txMap) - {item.tx.id} && LiveTxs() == old(LiveTxs()) - {item.tx.id}
      ensures item.tx == old(LiveTxs())[item.tx.id]
      ensures |pq.items| == |old(pq.items)| - 1 && pq.Objects() == old(pq.Objects()) - {item}
      ensures item in old(pq.Objects()) && forall x :: x in pq.Objects() ==> x.priority <= item.priority
    {
      hide Ordered;
      assert pq.items[0] in pq.Objects();
      DropItem(txMap, pq.items[0].tx.id);
      item := pq.HeapPop();
      SomeElements(old(pq.items), pq.items, item);
      txMap := txMap - {item.tx.id};
    }

    /** Puts a new transaction into the heap and the map. */
    method PutIn(tx: Transaction, priority: int)
      requires Core() && tx.id !in txMap
      modifies this`txMap, pq, pq.Objects()`index
      ensures Core() && |pq.items| == |old(pq.items)| + 1
      ensures txMap.Keys == old(txMap.Keys) + {tx.id} && txMap[tx.id].tx == tx && txMap[tx.id].priority == priority
      ensures fresh(txMap[tx.id]) && pq.Objects() == old(pq.Objects()) + {txMap[tx.id]}
      ensures forall id :: id in old(txMap) ==> txMap[id] == old(txMap)[id]
      ensures LiveTxs() == old(LiveTxs())[tx.id := tx]
    {
      hide Ordered, Txs, Keyed;
      var item := new TransactionItem(tx, priority);
      pq.HeapPush(item);
      PushedElements(old(pq.items), pq.items, item);
      AddItem(txMap, item);
      txMap := txMap[tx.id := item];
    }

    // ---------------------------------------------------------------- adding

    /** Adds a transaction unless it is known, the pool stays full, or it is not acceptable.
        `load` is the network load and `priority` the number computed for the transaction.
        Making room runs before validation and is not undone when that fails. */
    method AddTransaction(tx: Transaction, env: Env, load: int, priority: int) returns (result: AddResult)
      requires Valid()
      modifies this`txMap, this`accountTxs, this`accountNonces, this`minFee, this`totalAdded, this`totalEvicted,
               this`accepted, this`arrivals, pq, pq.Objects()`index
      ensures Valid()
      ensures result == Duplicate <==> tx.id in old(txMap)
      ensures result == PoolFull <==> tx.id !in old(txMap) && maxPoolSize == 0
      ensures result == Added <==>
                tx.id !in old(txMap) && maxPoolSize > 0
                && Sound(tx, env, minFee, expirationDuration) && NextNonce(tx, old(accountNonces))
      ensures result == Added <==>
                && tx.id !in old(txMap) && maxPoolSize > 0 && env.signed(tx)
                && (tx.sender in old(accountNonces) ==> tx.nonce > old(accountNonces)[tx.sender])
                && tx.amount > 0.0 && tx.fee >= 0.0 && tx.fee >= minFee && tx.sender != "" && tx.receiver != ""
                && (tx.expiryTime <= 0 || tx.expiryTime > env.now) && tx.timestamp + expirationDuration >= env.now
      ensures old(|pq.items|) < maxPoolSize || result == Duplicate ==>
                minFee == old(minFee) && totalEvicted == old(totalEvicted)
      ensures old(|pq.items|) < maxPoolSize || result == Duplicate ==>
                LiveTxs() == (if result == Added then old(LiveTxs())[tx.id := tx] else old(LiveTxs()))
                && accountTxs == if result == Added then Entered(old(accountTxs), tx) else old(accountTxs)
      ensures old(|pq.items|) == maxPoolSize && result != Duplicate && result != PoolFull ==>
                minFee == AdjustedFee(old(minFee), maxFee, load)
                && totalEvicted == old(totalEvicted) + maxPoolSize - Target(maxPoolSize)
      ensures forall id :: id in txMap && id in old(txMap) ==> txMap[id] == old(txMap)[id]
      ensures txMap.Keys <= old(txMap.Keys) + (if result == Added then {tx.id} else {})
      ensures |pq.items| == (if old(|pq.items|) < maxPoolSize || result == Duplicate || result == PoolFull
                              then old(|pq.items|)
                              else Target(maxPoolSize)) + (if result == Added then 1 else 0)
      ensures HigherLeft(old(pq.items), pq.Objects())
      ensures result == Added ==> tx.id in txMap && txMap[tx.id].tx == tx && txMap[tx.id].priority == priority
      ensures result == Added ==> fresh(txMap[tx.id]) && txMap[tx.id] in pq.Objects()
      ensures pq.Objects() <= old(pq.Objects()) + (if result == Added then {txMap[tx.id]} else {})
      ensures accepted == old(accepted) + (if result == Added then [tx] else [])
      ensures arrivals == old(arrivals) + (if result == Added then [env] else [])
      ensures accountNonces == if result == Added then old(accountNonces)[tx.sender := tx.nonce] else old(accountNonces)
    {
      hide CameSound, HigherLeft, Struck, Txs, Keyed, Complete, NoncesRise, AllAccepted, Ordered, Core, Books, Elements,
           Sound, NextNonce, AdjustedFee, LowestLeft, SamePriority, Entered;
      NothingLeft(accountTxs, map[], pq.items);
      NextNonceIs(tx, accountNonces);
      if tx.id in txMap {
        return Duplicate;
      }
      if |pq.items| >= maxPoolSize {
        OptimizePool(load);
        if |pq.items| >= maxPoolSize {
          return PoolFull;
        }
      }
      SoundIs(tx, env, minFee, expirationDuration);
      if !Sound(tx, env, minFee, expirationDuration) || !NextNonce(tx, accountNonces) {
        return Rejected;
      }
      ghost var kept := pq.Objects();
      Insert(tx, priority, env);
      HigherLeftNew(old(pq.items), kept, txMap[tx.id]);
      result := Added;
    }

    method Insert(tx: Transaction, priority: int, ghost env: Env)
      requires Valid() && tx.id !in txMap && |pq.items| < maxPoolSize && NextNonce(tx, accountNonces)
      requires Sound(tx, env, minFee, expirationDuration)
      modifies this`txMap, this`accountTxs, this`accountNonces, this`totalAdded, this`accepted, this`arrivals,
               pq, pq.Objects()`index
      ensures Valid()
      ensures LiveTxs() == old(LiveTxs())[tx.id := tx]
      ensures txMap.Keys == old(txMap.Keys) + {tx.id} && txMap[tx.id].tx == tx && txMap[tx.id].priority == priority
      ensures fresh(txMap[tx.id]) && pq.Objects() == old(pq.Objects()) + {txMap[tx.id]}
      ensures forall id :: id in old(txMap) ==> txMap[id] == old(txMap)[id]
      ensures |pq.items| == old(|pq.items|) + 1 && accountTxs == Entered(old(accountTxs), tx)
      ensures accountNonces == old(accountNonces)[tx.sender := tx.nonce]
      ensures accepted == old(accepted) + [tx] && arrivals == old(arrivals) + [env]
    {
      hide CameSound, Sound, Txs, Keyed, Complete, NoncesRise, AllAccepted, Enter, Core, Agree, Elements;
      ghost var live := LiveTxs();
      AcceptKeepsRise(accountNonces, accepted, tx);
      AcceptKeepsAccepted(live, accepted, tx);
      EnterKeepsComplete(accountTxs, live, tx);
      OneMoreCameSound(accepted, arrivals, tx, env, minFee, expirationDuration);
      PutIn(tx, priority);
      Book(tx, env);
    }

    /** Whatever is live was signed, well formed and in time when it came. */
    lemma LiveCameSound(id: string) returns (env: Env)
      requires Valid() && id in txMap
      ensures env in arrivals && env.signed(txMap[id].tx) && txMap[id].tx.amount > 0.0
      ensures var tx := txMap[id].tx;
              (tx.expiryTime <= 0 || tx.expiryTime > env.now) && tx.timestamp + expirationDuration >= env.now
    {
      assert LiveTxs()[id] in accepted;
      var i :| 0 <= i < |accepted| && accepted[i] == LiveTxs()[id];
      env := arrivals[i];
    }

    /** The index, the watermark and the counter. */
    method Book(tx: Transaction, ghost env: Env)
      requires NextNonce(tx, accountNonces)
      modifies this`accountTxs, this`accountNonces, this`totalAdded, this`accepted, this`arrivals
      ensures accountTxs == Entered(old(accountTxs), tx) && totalAdded == old(totalAdded) + 1
      ensures accountNonces == old(accountNonces)[tx.sender := tx.nonce] && accepted == old(accepted) + [tx]
      ensures arrivals == old(arrivals) + [env]
    {
      if tx.sender !in accountNonces || tx.nonce > accountNonces[tx.sender] {
        accountNonces := accountNonces[tx.sender := tx.nonce];
      }
      accountTxs := Enter(accountTxs, tx.sender, tx.id);
      if tx.contractId != "" {
        accountTxs := Enter(accountTxs, tx.contractId, tx.id);
      }
      totalAdded := totalAdded + 1;
      accepted, arrivals := accepted + [tx], arrivals + [env];
    }

    // ---------------------------------------------------------------- eviction

    /** Shrinks the pool to 80% of its capacity.  The heap is a max-heap, so what goes is what
        has the highest priority; only the sender's entry leaves the index. */
    method OptimizePool(load: int)
      requires Valid()
      modifies this`txMap, this`accountTxs, this`minFee, this`totalEvicted, pq, pq.Objects()`index
      ensures Valid()
      ensures |pq.items| == if old(|pq.items|) <= Target(maxPoolSize) then old(|pq.items|) else Target(maxPoolSize)
      ensures minFee == if old(|pq.items|) <= Target(maxPoolSize) then old(minFee)
                        else AdjustedFee(old(minFee), maxFee, load)
      ensures totalEvicted + |pq.items| == old(totalEvicted) + old(|pq.items|)
      ensures txMap.Keys <= old(txMap.Keys) && forall id :: id in txMap ==> txMap[id] == old(txMap)[id]
      ensures HigherLeft(old(pq.items), pq.Objects()) && pq.Objects() <= old(pq.Objects())
      ensures |pq.items| == old(|pq.items|) || 5 * |pq.items| <= 4 * maxPoolSize < 5 * (|pq.items| + 1)
      ensures 5 * |pq.items| <= 4 * maxPoolSize
      ensures LowestLeft(old(pq.items), pq.Objects()) <==>
                old(|pq.items|) <= Target(maxPoolSize) || Target(maxPoolSize) == 0 || SamePriority(old(pq.items))
      ensures Struck(old(accountTxs), accountTxs, old(LiveTxs()), old(txMap.Keys) - txMap.Keys)
    {
      DistinctBefore();
      Shrink(load);
      DistinctBefore();
      LowestLeftExactly(old(pq.items), pq.items, Target(maxPoolSize));
      TargetIs(maxPoolSize);
    }

    /** A valid heap holds every item once. */
    lemma DistinctBefore()
      requires Valid()
      ensures Distinct(pq.items)
    {
    }

    method Shrink(load: int)
      requires Valid()
      modifies this`txMap, this`accountTxs, this`minFee, this`totalEvicted, pq, pq.Objects()`index
      ensures Valid()
      ensures |pq.items| == if old(|pq.items|) <= Target(maxPoolSize) then old(|pq.items|) else Target(maxPoolSize)
      ensures minFee == if old(|pq.items|) <= Target(maxPoolSize) then old(minFee)
                        else AdjustedFee(old(minFee), maxFee, load)
      ensures totalEvicted + |pq.items| == old(totalEvicted) + old(|pq.items|)
      ensures txMap.Keys <= old(txMap.Keys) && forall id :: id in txMap ==> txMap[id] == old(txMap)[id]
      ensures HigherLeft(old(pq.items), pq.Objects()) && pq.Objects() <= old(pq.Objects())
      ensures Struck(old(accountTxs), accountTxs, old(LiveTxs()), old(txMap.Keys) - txMap.Keys)
    {
      hide Struck, HigherLeft, Complete, NoncesRise, AllAccepted, CameSound, Ordered, Strike, Core, Books, Elements,
           AdjustedFee;
      NothingLeft(accountTxs, LiveTxs(), pq.items);
      assert txMap.Keys - txMap.Keys == {} && LiveTxs().Keys == txMap.Keys;
      var target := Target(maxPoolSize);
      if |pq.items| <= target {
        return;
      }
      minFee := AdjustedFee(minFee, maxFee, load);
      var toEvict := |pq.items| - target;
      ghost var live, gone := LiveTxs(), {};
      for i := 0 to toEvict
        invariant Valid() && |pq.items| == old(|pq.items|) - i
        invariant totalEvicted == old(totalEvicted) + i && minFee == AdjustedFee(old(minFee), maxFee, load)
        invariant gone <= old(txMap.Keys) && txMap == old(txMap) - gone
        invariant HigherLeft(old(pq.items), pq.Objects()) && pq.Objects() <= old(pq.Objects())
        invariant Struck(old(accountTxs), accountTxs, live, gone)
      {
        ghost var objects, index := pq.Objects(), accountTxs;
        SameLive(old(txMap), gone);
        var item := EvictTop();
        HigherLeftMore(old(pq.items), objects, item);
        StruckMore(old(accountTxs), index, live, gone, item.tx.id);
        gone := gone + {item.tx.id};
      }
      assert old(txMap.Keys) - txMap.Keys == gone;
    }

    /** One turn of the eviction loop. */
    method EvictTop() returns (item: TransactionItem)
      requires Valid() && |pq.items| > 0
      modifies this`txMap, this`accountTxs, this`totalEvicted, pq, pq.Objects()`index
      ensures Valid() && item.tx.id in old(txMap) && item == old(txMap)[item.tx.id]
      ensures txMap == old(txMap) - {item.tx.id} && pq.Objects() == old(pq.Objects()) - {item}
      ensures |pq.items| == old(|pq.items|) - 1 && totalEvicted == old(totalEvicted) + 1
      ensures item in old(pq.Objects()) && forall x :: x in pq.Objects() ==> x.priority <= item.priority
      ensures item.tx == old(LiveTxs())[item.tx.id]
      ensures accountTxs == Strike(old(accountTxs), item.tx.sender, item.tx.id)
    {
      hide CameSound, Txs, Keyed, Complete, NoncesRise, AllAccepted, Ordered, Strike;
      ghost var live := LiveTxs();
      item := TakeTop();
      LeavingKeepsBooks(accountTxs, live, accepted, item.tx.sender, item.tx.id);
      accountTxs := Strike(accountTxs, item.tx.sender, item.tx.id);
      totalEvicted := totalEvicted + 1;
    }

    // ---------------------------------------------------------------- removal and expiry

    /** Takes a transaction out everywhere, sender's and contract's entry included. */
    method RemoveTransaction(id: string) returns (found: bool)
      requires Valid()
      modifies this`txMap, this`accountTxs, this`totalRemoved, pq, pq.Objects()`index
      ensures Valid()
      ensures found <==> id in old(txMap)
      ensures txMap == old(txMap) - {id} && LiveTxs() == old(LiveTxs()) - {id}
      ensures totalRemoved == old(totalRemoved) + (if found then 1 else 0)
      ensures !found ==> accountTxs == old(accountTxs) && pq.items == old(pq.items)
      ensures found ==> forall account, other :: Listed(accountTxs, account, other) <==>
                Listed(old(accountTxs), account, other)
                && !(other == id && (account == old(LiveTxs())[id].sender
                                     || (account == old(LiveTxs())[id].contractId && account != "")))
    {
      hide CameSound, Txs, Keyed, Complete, NoncesRise, AllAccepted, Ordered, Strike, Listed;
      ghost var live := LiveTxs();
      if id !in txMap {
        NotThere(txMap, id);
        return false;
      }
      var item := TakeOut(id);
      LeavingKeepsBooks(accountTxs, live, accepted, item.tx.sender, id);
      StrikeEntries(item.tx.sender, item.tx.contractId, id, live);
      totalRemoved := totalRemoved + 1;
      found := true;
    }

    /** Takes an ID out of the entries of its sender and its contract. */
    method StrikeEntries(sender: string, contractId: string, id: string, ghost live: Live)
      requires Complete(accountTxs, live)
      modifies this`accountTxs
      ensures Complete(accountTxs, live - {id})
      ensures forall account, other :: Listed(accountTxs, account, other) <==>
                Listed(old(accountTxs), account, other)
                && !(other == id && (account == sender || (account == contractId && account != "")))
    {
      hide Complete, Strike, Listed;
      StrikeMeans(accountTxs, sender, id);
      FewerStayComplete(accountTxs, live, id);
      StrikeKeepsComplete(accountTxs, live, sender, id);
      accountTxs := Strike(accountTxs, sender, id);
      if contractId != "" {
        StrikeMeans(accountTxs, contractId, id);
        StrikeKeepsComplete(accountTxs, live, contractId, id);
        accountTxs := Strike(accountTxs, contractId, id);
      }
    }

    /** Removes exactly the expired transactions; only the sender's entry leaves the index. */
    method RemoveExpiredTransactions(maxAge: int, now: int) returns (count: nat)
      requires Valid()
      modifies this`txMap, this`accountTxs, this`totalExpired, pq, pq.Objects()`index
      ensures Valid()
      ensures txMap == old(txMap) - ExpiredIds(old(LiveTxs()), now, maxAge)
      ensures count == |ExpiredIds(old(LiveTxs()), now, maxAge)| && totalExpired == old(totalExpired) + count
      ensures Struck(old(accountTxs), accountTxs, old(LiveTxs()), ExpiredIds(old(LiveTxs()), now, maxAge))
      ensures forall id :: id in old(txMap) ==>
                var tx := old(txMap)[id].tx;
                (id in txMap <==> (tx.expiryTime <= 0 || now <= tx.expiryTime) && tx.timestamp + maxAge >= now)
    {
      hide CameSound, Struck, Complete, NoncesRise, AllAccepted, Ordered, Strike, Core, Books, Expired;
      ghost var live := LiveTxs();
      NothingLeft(accountTxs, live, []);
      var toRemove := FindExpired(maxAge, now);
      assert forall i :: 0 <= i < |toRemove| ==> toRemove[i] in ExpiredIds(live, now, maxAge);
      assert live.Keys == txMap.Keys;
      ghost var gone: set<string> := {};
      for i := 0 to |toRemove|
        invariant Core() && Books() && |pq.items| == old(|pq.items|) - i && totalExpired == old(totalExpired)
        invariant pq.Objects() <= old(pq.Objects())
        invariant gone == Elements(toRemove[..i]) && txMap == old(txMap) - gone
        invariant Struck(old(accountTxs), accountTxs, live, gone)
      {
        NextRemoval(toRemove, i);
        StruckMore(old(accountTxs), accountTxs, live, gone, toRemove[i]);
        ExpireOne(toRemove[i]);
        gone := gone + {toRemove[i]};
      }
      assert toRemove[..|toRemove|] == toRemove;
      DistinctSize(toRemove, gone);
      count := |toRemove|;
      totalExpired := totalExpired + count;
      ExpiredMeans(live, now, maxAge);
    }

    method FindExpired(maxAge: int, now: int) returns (found: seq<string>)
      ensures Distinct(found) && Elements(found) == ExpiredIds(LiveTxs(), now, maxAge)
    {
      found := [];
      var rest := txMap.Keys;
      while rest != {}
        invariant rest <= txMap.Keys && Distinct(found)
        invariant forall id :: id in found <==> id in txMap && id !in rest && Expired(txMap[id].tx, now, maxAge)
      {
        var id :| id in rest;
        rest := rest - {id};
        if Expired(txMap[id].tx, now, maxAge) {
          found := found + [id];
        }
      }
    }

    /** One turn of the expiry loop. */
    method ExpireOne(id: string)
      requires Core() && Books() && id in txMap
      modifies this`txMap, this`accountTxs, pq, pq.Objects()`index
      ensures Core() && Books() && |pq.items| == old(|pq.items|) - 1
      ensures txMap == old(txMap) - {id} && pq.Objects() <= old(pq.Objects())
      ensures accountTxs == Strike(old(accountTxs), old(LiveTxs())[id].sender, id)
    {
      hide CameSound, Txs, Keyed, Complete, NoncesRise, AllAccepted, Ordered, Strike;
      ghost var live := LiveTxs();
      var item := TakeOut(id);
      LeavingKeepsBooks(accountTxs, live, accepted, item.tx.sender, id);
      accountTxs := Strike(accountTxs, item.tx.sender, id);
    }

    // ---------------------------------------------------------------- conflicts

    /** Keeps one transaction of every sender and nonce.  The account index is left as it is.
        A pool that went through the operations above never holds a conflict: nothing changes. */
    method HandleConflicts()
      requires Core()
      modifies this`txMap, pq, pq.Objects()`index
      ensures Core()
      ensures conflictResolutionEnabled ==> exists doomed ::
                Dooms(old(LiveTxs()), AllKeys(old(LiveTxs())), doomed) && txMap == old(txMap) - doomed
      ensures !conflictResolutionEnabled || old(Books()) ==> txMap == old(txMap) && pq.items == old(pq.items)
      ensures forall id :: id in txMap ==> id in old(txMap) && txMap[id] == old(txMap)[id]
      ensures conflictResolutionEnabled ==> forall a, b :: a in txMap && b in old(txMap) && a != b ==>
                var s, t := txMap[a].tx, old(txMap)[b].tx;
                s.sender == t.sender && s.nonce == t.nonce ==>
                  b !in txMap && ((s.fee > 0.0 && t.fee <= s.fee) || (a == "" && t.fee <= 0.0))
      ensures forall b :: b in old(txMap) && b !in txMap ==> exists c ::
                c in old(txMap) && c != b
                && old(txMap)[c].tx.sender == old(txMap)[b].tx.sender
                && old(txMap)[c].tx.nonce == old(txMap)[b].tx.nonce
    {
      hide Core, Settled, Txs, Complete;
      if !conflictResolutionEnabled {
        return;
      }
      ghost var live := LiveTxs();
      var toRemove := MarkLosers();
      ghost var doomed := Elements(toRemove);
      if Books() {
        BooksHaveNoConflict(accountNonces, accepted, live);
        NoConflictNoDoom(live, AllKeys(live), doomed);
        NoElements(toRemove);
      }
      hide Books, Dooms, AllKeys;
      ghost var gone: set<string> := {};
      for i := 0 to |toRemove|
        invariant Core() && pq.Objects() <= old(pq.Objects()) && (i == 0 ==> pq.items == old(pq.items))
        invariant gone == Elements(toRemove[..i]) && txMap == old(txMap) - gone
      {
        NextRemoval(toRemove, i);
        if toRemove[i] in txMap {
          var _ := TakeOut(toRemove[i]);
        }
        gone := gone + {toRemove[i]};
      }
      assert toRemove[..|toRemove|] == toRemove;
      ConflictsMean(old(txMap), txMap, doomed);
    }

    /** The losers of all conflict sets. */
    method MarkLosers() returns (toRemove: seq<string>)
      ensures Distinct(toRemove) && Dooms(LiveTxs(), AllKeys(LiveTxs()), Elements(toRemove))
    {
      ghost var live := LiveTxs();
      var conflicts := FindConflicts();
      toRemove := [];
      var rest := conflicts.Keys;
      ghost var settled: set<Key> := {};
      while rest != {}
        invariant rest + settled == conflicts.Keys && rest !! settled
        invariant Distinct(toRemove) && Dooms(live, settled, Elements(toRemove))
      {
        var key :| key in rest;
        rest := rest - {key};
        var losers := [];
        if |conflicts[key]| > 1 {
          losers := Losers(conflicts[key]);
        }
        LosersSettle(live, key, losers);
        DoomsMore(live, settled, Elements(toRemove), key, Elements(losers));
        ElementsConcat(toRemove, losers);
        toRemove := toRemove + losers;
        settled := settled + {key};
      }
    }

    /** The live IDs grouped by sender and nonce. */
    method FindConflicts() returns (conflicts: map<Key, set<string>>)
      ensures conflicts.Keys == AllKeys(LiveTxs())
      ensures forall key :: key in conflicts ==> conflicts[key] == Group(LiveTxs(), key)
    {
      conflicts := map[];
      var rest := txMap.Keys;
      ghost var seen: set<string>, live := {}, LiveTxs();
      while rest != {}
        invariant rest + seen == txMap.Keys
        invariant forall key :: key in conflicts <==> exists id :: id in seen && id in live && KeyOf(live[id]) == key
        invariant forall key :: key in conflicts ==> conflicts[key] == Group(live, key) * seen
      {
        var id :| id in rest;
        var key := KeyOf(txMap[id].tx);
        conflicts := conflicts[key := (if key in conflicts then conflicts[key] else {}) + {id}];
        rest := rest - {id};
        seen := seen + {id};
      }
    }

    /** All of a conflict set but a highest positive fee. */
    method Losers(group: set<string>) returns (losers: seq<string>)
      requires group <= LiveTxs().Keys
      ensures Distinct(losers) && exists keep :: Keeps(LiveTxs(), group, keep) && Elements(losers) == group - {keep}
    {
      var highestFee, highestFeeId := 0.0, "";
      var rest := group;
      while rest != {}
        invariant rest <= group && highestFee >= 0.0
        invariant forall id :: id in group - rest ==> txMap[id].tx.fee <= highestFee
        invariant if highestFee > 0.0 then highestFeeId in group && txMap[highestFeeId].tx.fee == highestFee
                  else highestFeeId == ""
      {
        var id :| id in rest;
        rest := rest - {id};
        if txMap[id].tx.fee > highestFee {
          highestFee, highestFeeId := txMap[id].tx.fee, id;
        }
      }
      assert Keeps(LiveTxs(), group, highestFeeId);
      losers := [];
      rest := group;
      while rest != {}
        invariant rest <= group && Distinct(losers)
        invariant Elements(losers) == group - rest - {highestFeeId}
      {
        var id :| id in rest;
        rest := rest - {id};
        if id != highestFeeId {
          ElementsAppend(losers, id);
          losers := losers + [id];
        }
      }
    }

    /** The live transactions listed under an account, in an arbitrary order. */
    method GetAccountTransactions(account: string) returns (result: Option<seq<Transaction>>)
      ensures result == None <==> account == ""
      ensures result.Some? ==> |result.value| == |ListedIds(account)|
      ensures result.Some? ==> forall tx :: tx in result.value <==>
                                 exists id :: id in ListedIds(account) && LiveTxs()[id] == tx
      ensures result.Some? && account !in accountTxs ==> result.value == []
      ensures result.Some? && account in accountTxs ==>
                forall tx :: tx in result.value <==>
                  exists id :: id in accountTxs[account] && id in txMap && txMap[id].tx == tx
    {
      if account == "" {
        return None;
      }
      if account !in accountTxs {
        assert ListedIds(account) == {};
        return Some([]);
      }
      var list := Collect(accountTxs[account]);
      assert accountTxs[account] * LiveTxs().Keys == ListedIds(account);
      assert forall id :: id in txMap ==> LiveTxs()[id] == txMap[id].tx;
      result := Some(list);
    }

    /** The transactions of those of the given IDs that are live. */
    method Collect(ids: set<string>) returns (list: seq<Transaction>)
      ensures Named(list, ids * LiveTxs().Keys, LiveTxs())
    {
      hide Named;
      ghost var live := LiveTxs();
      list := [];
      var rest := ids;
      NamedNone(ids, live);
      while rest != {}
        invariant rest <= ids && Named(list, (ids - rest) * live.Keys, live)
      {
        var id :| id in rest;
        NamedStep(list, ids, rest, id, live);
        rest := rest - {id};
        if id in txMap {
          list := list + [txMap[id].tx];
        }
      }
      assert ids - rest == ids;
    }

    /** Nothing live that the account sent, or whose contract it is, is missing from its list. */
    lemma ListIsComplete(account: string, id: string)
      requires Valid() && account != "" && id in LiveTxs()
      requires LiveTxs()[id].sender == account || LiveTxs()[id].contractId == account
      ensures id in ListedIds(account)
    {
    }

    /** The IDs listed under an account that are live. */
    ghost function ListedIds(account: string): set<string>
      reads this`accountTxs, this`txMap
    {
      set id | id in txMap && Listed(accountTxs, account, id)
    }
  }
}
