/** How the manager drives the pool and the nonce tracker (transaction/transaction_manager.go). */
module TransactionManager {
  import opened Transactions
  import Nonces
  import TransactionPool

  datatype CreateResult = Created | Refused | NotPooled(reason: TransactionPool.AddResult)

  datatype ProcessResult = Processed | Unknown | Replayed

  /** What the manager asks of the rest of the node: the pool's surroundings, balances, and
      whether a signature can be made. */
  datatype Env = Env(pool: TransactionPool.Env, solvent: (string, real) -> bool, signable: Transaction -> bool)

  ghost predicate Passed(live: TransactionPool.Live, nonces: Nonces.NonceMap) {
    forall id :: id in live ==> live[id].sender in nonces && live[id].nonce <= nonces[live[id].sender]
  }

  /** Fewer transactions stay passed. */
  lemma FewerStayPassed(live: TransactionPool.Live, fewer: TransactionPool.Live, nonces: Nonces.NonceMap)
    requires Passed(live, nonces) && forall id :: id in fewer ==> id in live && fewer[id] == live[id]
    ensures Passed(fewer, nonces)
  {
  }

  /** One more whose nonce the tracker takes over leaves all passed. */
  lemma NextStaysPassed(live: TransactionPool.Live, nonces: Nonces.NonceMap, tx: Transaction)
    requires Passed(live, nonces) && tx.nonce == Nonces.Expected(nonces, tx.sender)
    ensures Passed(live[tx.id := tx], nonces[tx.sender := tx.nonce])
  {
  }

  class Manager {
    const pool: TransactionPool.Pool
    const tracker: Nonces.NonceTracker

    const minFeeThreshold: real
    const maxTxSize: int
    const maxTxAge: int
    const maxFutureNonce: int

    constructor (pool: TransactionPool.Pool, minFeeThreshold: real, maxTxSize: int, maxTxAge: int, maxFutureNonce: int)
      ensures this.pool == pool && fresh(tracker) && tracker.nonces == map[]
      ensures this.minFeeThreshold == minFeeThreshold && this.maxTxSize == maxTxSize
      ensures this.maxTxAge == maxTxAge && this.maxFutureNonce == maxFutureNonce
    {
      this.pool, this.minFeeThreshold, this.maxTxSize := pool, minFeeThreshold, maxTxSize;
      this.maxTxAge, this.maxFutureNonce := maxTxAge, maxFutureNonce;
      tracker := new Nonces.NonceTracker();
    }

    /** The manager's own rules. */
    predicate Acceptable(tx: Transaction, dataSize: nat, env: Env)
      reads tracker
    {
      && tx.amount > 0.0 && tx.fee >= minFeeThreshold && tx.sender != "" && tx.receiver != "" && tx.nonce > 0
      && dataSize <= maxTxSize
      && -300 <= env.pool.now - tx.timestamp <= maxTxAge
      && env.solvent(tx.sender, tx.amount + tx.fee)
      && 0 <= tx.nonce - Nonces.Expected(tracker.nonces, tx.sender) < maxFutureNonce
      && (tx.contractId != "" ==> dataSize > 0)
    }

    method ValidateTransaction(tx: Transaction, dataSize: nat, env: Env) returns (ok: bool)
      ensures ok <==> Acceptable(tx, dataSize, env)
      ensures var current := if tx.sender in tracker.nonces then tracker.nonces[tx.sender] else 0;
              ok <==>
                && tx.amount > 0.0 && tx.fee >= minFeeThreshold && tx.sender != "" && tx.receiver != ""
                && tx.nonce > 0 && current < tx.nonce <= current + maxFutureNonce
                && dataSize <= maxTxSize && (tx.contractId == "" || dataSize > 0)
                && tx.timestamp <= env.pool.now + 300 && tx.timestamp + maxTxAge >= env.pool.now
                && env.solvent(tx.sender, tx.amount + tx.fee)
    {
      if tx.amount <= 0.0 || tx.fee < minFeeThreshold || tx.sender == "" || tx.receiver == "" || tx.nonce <= 0 {
        return false;
      }
      if dataSize > maxTxSize {
        return false;
      }
      var now := env.pool.now;
      if tx.timestamp > now + 300 || now - tx.timestamp > maxTxAge {
        return false;
      }
      if !env.solvent(tx.sender, tx.amount + tx.fee) {
        return false;
      }
      var currentNonce := tracker.GetNonce(tx.sender);
      if tx.nonce <= currentNonce || tx.nonce > currentNonce + maxFutureNonce {
        return false;
      }
      ok := tx.contractId == "" || dataSize > 0;
    }

    /** Every pooled transaction's nonce has been passed by the tracker. */
    ghost predicate Spent()
      reads pool`txMap, tracker
    {
      Passed(pool.LiveTxs(), tracker.nonces)
    }

    /** The sender's next transaction. */
    function Next(id: string, sender: string, receiver: string, amount: real, fee: real, now: int): Transaction
      reads tracker
    {
      Transaction(id, sender, receiver, amount, fee, now, 0, "", Nonces.Expected(tracker.nonces, sender))
    }

    /** Builds the sender's next transaction, validates, signs and pools it.  The tracker moves
        on at once.  `id` is the generated ID. */
    method CreateTransaction(id: string, sender: string, receiver: string, amount: real, fee: real, dataSize: nat,
                             env: Env, load: int, priority: int)
      returns (result: CreateResult)
      requires pool.Valid()
      modifies pool`txMap, pool`accountTxs, pool`accountNonces, pool`minFee, pool`totalAdded, pool`totalEvicted,
               pool`accepted, pool`arrivals, pool.pq, pool.pq.Objects()`index, tracker
      ensures pool.Valid()
      ensures var tx := old(Next(id, sender, receiver, amount, fee, env.pool.now));
              && (result == Refused <==> !(old(Acceptable(tx, dataSize, env)) && env.signable(tx)))
              && (result == Created <==>
                    old(Acceptable(tx, dataSize, env)) && env.signable(tx)
                    && id !in old(pool.txMap) && pool.maxPoolSize > 0
                    && TransactionPool.Sound(tx, env.pool, pool.minFee, pool.expirationDuration)
                    && TransactionPool.NextNonce(tx, old(pool.accountNonces)))
              && (result == Created ==> id in pool.LiveTxs() && pool.LiveTxs()[id] == tx)
              && tracker.nonces == if result == Created then old(tracker.nonces)[sender := tx.nonce]
                                   else old(tracker.nonces)
      ensures result == Created ==>
                && id in pool.txMap
                && var tx := pool.txMap[id].tx;
                   && tx.id == id && tx.sender == sender && tx.receiver == receiver
                   && tx.amount == amount && tx.fee == fee && tx.timestamp == env.pool.now && tx.expiryTime == 0
                   && tx.contractId == ""
                   && tx.nonce == (if sender in old(tracker.nonces) then old(tracker.nonces)[sender] + 1 else 1)
                   && tracker.nonces == old(tracker.nonces)[sender := tx.nonce]
      ensures result == Created ==> env.pool.signed(pool.txMap[id].tx) && env.signable(pool.txMap[id].tx)
      ensures old(Spent()) ==> Spent()
    {
      hide Passed, TransactionPool.Pool.Valid, TransactionPool.HigherLeft, TransactionPool.Sound,
           TransactionPool.NextNonce;
      if sender == "" || receiver == "" || amount <= 0.0 || fee < minFeeThreshold {
        return Refused;
      }
      var currentNonce := tracker.GetNonce(sender);
      var tx := Transaction(id, sender, receiver, amount, fee, env.pool.now, 0, "", currentNonce + 1);
      var valid := ValidateTransaction(tx, dataSize, env);
      if !valid || !env.signable(tx) {
        return Refused;
      }
      TransactionPool.SoundIs(tx, env.pool, pool.minFee, pool.expirationDuration);
      result := Submit(tx, env.pool, load, priority);
      TransactionPool.SoundIs(tx, env.pool, pool.minFee, pool.expirationDuration);
    }

    /** The end of creation: a sound transaction goes to the pool, and the tracker to its nonce. */
    method Submit(tx: Transaction, env: TransactionPool.Env, load: int, priority: int) returns (result: CreateResult)
      requires pool.Valid() && tx.nonce == Nonces.Expected(tracker.nonces, tx.sender)
      modifies pool`txMap, pool`accountTxs, pool`accountNonces, pool`minFee, pool`totalAdded, pool`totalEvicted,
               pool`accepted, pool`arrivals, pool.pq, pool.pq.Objects()`index, tracker
      ensures pool.Valid() && result != Refused
      ensures result == Created <==>
                && tx.id !in old(pool.txMap) && pool.maxPoolSize > 0
                && TransactionPool.Sound(tx, env, pool.minFee, pool.expirationDuration)
                && TransactionPool.NextNonce(tx, old(pool.accountNonces))
      ensures result == Created ==> tx.id in pool.LiveTxs() && pool.LiveTxs()[tx.id] == tx
      ensures tracker.nonces == if result == Created then old(tracker.nonces)[tx.sender := tx.nonce]
                                else old(tracker.nonces)
      ensures old(Spent()) ==> Spent()
    {
      hide Spent, TransactionPool.Pool.Valid, TransactionPool.HigherLeft, TransactionPool.Sound,
           TransactionPool.NextNonce;
      var added := pool.AddTransaction(tx, env, load, priority);
      result := if added == TransactionPool.Added then Created else NotPooled(added);
      if result == Created {
        tracker.SetNonce(tx.sender, tx.nonce);
      }
      StillSpent(tx, result == Created);
    }

    /** What creation does to the pool and the tracker leaves everything pooled passed. */
    twostate lemma StillSpent(new tx: Transaction, created: bool)
      requires forall id :: id in pool.txMap && id in old(pool.txMap) ==> pool.txMap[id] == old(pool.txMap)[id]
      requires pool.txMap.Keys <= old(pool.txMap.Keys) + (if created then {tx.id} else {})
      requires tx.nonce == Nonces.Expected(old(tracker.nonces), tx.sender)
      requires created ==> tx.id !in old(pool.txMap) && tx.id in pool.txMap && pool.txMap[tx.id].tx == tx
      requires tracker.nonces == if created then old(tracker.nonces)[tx.sender := tx.nonce] else old(tracker.nonces)
      ensures old(Spent()) ==> Spent()
    {
      if old(Spent()) {
        hide Passed;
        var live, kept := old(pool.LiveTxs()), pool.LiveTxs() - {tx.id};
        FewerStayPassed(live, if created then kept else pool.LiveTxs(), old(tracker.nonces));
        if created {
          NextStaysPassed(kept, old(tracker.nonces), tx);
          assert pool.LiveTxs() == kept[tx.id := tx];
        }
      }
    }

    /** Takes a finalized transaction out of the pool unless replay protection refuses it, which
        it does with everything whose nonce the tracker has passed. */
    method ProcessTransaction(id: string) returns (result: ProcessResult)
      requires pool.Valid()
      modifies pool`txMap, pool`accountTxs, pool`totalRemoved, pool.pq, pool.pq.Objects()`index, tracker
      ensures pool.Valid()
      ensures result == Unknown <==> id !in old(pool.LiveTxs())
      ensures result == Processed <==>
                id in old(pool.LiveTxs())
                && old(pool.LiveTxs()[id].nonce) == Nonces.Expected(old(tracker.nonces), old(pool.LiveTxs()[id].sender))
      ensures pool.LiveTxs() == if result == Processed then old(pool.LiveTxs()) - {id} else old(pool.LiveTxs())
      ensures old(Spent()) ==> result != Processed && Spent()
    {
      if id !in pool.txMap {
        return Unknown;
      }
      var tx := pool.txMap[id].tx;
      var accepted := Nonces.ReplayProtection(tx, tracker);
      if !accepted {
        return Replayed;
      }
      var _ := pool.RemoveTransaction(id);
      result := Processed;
    }
  }
}
