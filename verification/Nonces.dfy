/** Nonce tracking, replay protection and batch validation (transaction/transaction_utils.go). */
module Nonces {
  import opened Transactions

  datatype Code =
    | InvalidAmount
    | InvalidFee
    | InvalidSender
    | InsufficientFunds
    | InvalidNonce
    | Expired
    | InvalidSignature

  datatype Verdict = Valid | Invalid(code: Code)

  datatype NonceVerdict = Next | Reused | SequenceViolation

  /** How a signature fares; a transaction without one is fine. */
  datatype Signature = Fine | KeyMissing | Wrong

  /** What validation asks of the rest of the node: the fee floor, the clock, balances, and
      signatures. */
  datatype Env = Env(minFee: real, now: int, solvent: Transaction -> bool, signature: Transaction -> Signature)

  type NonceMap = map<string, int>

  /** The one nonce that comes next for an account; an unknown account starts at 1. */
  function Expected(nonces: NonceMap, account: string): int {
    if account in nonces then nonces[account] + 1 else 1
  }

  // ------------------------------------------------------------------ the tracker

  class NonceTracker {
    var nonces: NonceMap

    constructor ()
      ensures nonces == map[]
    {
      nonces := map[];
    }

    method GetNonce(account: string) returns (nonce: int)
      ensures nonce == Expected(nonces, account) - 1
      ensures nonce == if account in nonces then nonces[account] else 0
    {
      nonce := if account in nonces then nonces[account] else 0;
    }

    method SetNonce(account: string, nonce: int)
      modifies this
      ensures nonces == old(nonces)[account := nonce]
    {
      nonces := nonces[account := nonce];
    }

    /** Only the expected nonce is accepted; a known account tells reuse from a gap. */
    method ValidateNonce(account: string, nonce: int) returns (v: NonceVerdict)
      ensures v == Next <==> nonce == Expected(nonces, account)
      ensures v == Next <==> nonce == if account in nonces then nonces[account] + 1 else 1
      ensures v == Reused <==> account in nonces && nonce < Expected(nonces, account)
    {
      if account !in nonces {
        return if nonce != 1 then SequenceViolation else Next;
      }
      var currentNonce := nonces[account];
      if nonce <= currentNonce {
        return Reused;
      }
      if nonce > currentNonce + 1 {
        return SequenceViolation;
      }
      return Next;
    }

    method Reset(account: string)
      modifies this
      ensures nonces == old(nonces) - {account}
    {
      nonces := nonces - {account};
    }
  }

  /** Accepts a transaction with the expected nonce and moves the tracker on. */
  method ReplayProtection(tx: Transaction, tracker: NonceTracker) returns (ok: bool)
    modifies tracker
    ensures ok <==> tx.nonce == Expected(old(tracker.nonces), tx.sender)
    ensures ok <==> tx.nonce == if tx.sender in old(tracker.nonces) then old(tracker.nonces)[tx.sender] + 1 else 1
    ensures tracker.nonces == if ok then old(tracker.nonces)[tx.sender := tx.nonce] else old(tracker.nonces)
  {
    var currentNonce := tracker.GetNonce(tx.sender);
    if tx.nonce != currentNonce + 1 {
      return false;
    }
    tracker.SetNonce(tx.sender, tx.nonce);
    return true;
  }

  // ------------------------------------------------------------------ validation

  /** Everything validation checks besides the nonce. */
  predicate Sound(tx: Transaction, env: Env) {
    && tx.amount > 0.0 && tx.fee >= env.minFee
    && tx.sender != "" && tx.receiver != ""
    && env.solvent(tx)
    && !(tx.expiryTime > 0 && tx.expiryTime < env.now)
    && env.signature(tx) == Fine
  }

  /** What validation answers: the first fault there is, in this order. */
  function Judged(nonces: NonceMap, tx: Transaction, env: Env): Verdict {
    if tx.amount <= 0.0 then Invalid(InvalidAmount)
    else if tx.fee < env.minFee then Invalid(InvalidFee)
    else if tx.sender == "" || tx.receiver == "" then Invalid(InvalidSender)
    else if !env.solvent(tx) then Invalid(InsufficientFunds)
    else if tx.nonce != Expected(nonces, tx.sender) then Invalid(InvalidNonce)
    else if tx.expiryTime > 0 && tx.expiryTime < env.now then Invalid(Expired)
    else if env.signature(tx) == KeyMissing then Invalid(InvalidSender)
    else if env.signature(tx) == Wrong then Invalid(InvalidSignature)
    else Valid
  }

  /** Each answer, by itself. */
  lemma JudgedIs(nonces: NonceMap, tx: Transaction, env: Env)
    ensures var v := Judged(nonces, tx, env);
            var follows := tx.nonce == if tx.sender in nonces then nonces[tx.sender] + 1 else 1;
            var late := tx.expiryTime > 0 && env.now > tx.expiryTime;
            var payable := tx.amount > 0.0 && tx.fee >= env.minFee && tx.sender != "" && tx.receiver != "";
            && (v == Valid <==> payable && env.solvent(tx) && follows && !late && env.signature(tx) == Fine)
            && (v == Invalid(InvalidAmount) <==> tx.amount <= 0.0)
            && (v == Invalid(InvalidFee) <==> tx.amount > 0.0 && tx.fee < env.minFee)
            && (v == Invalid(InvalidSender) <==>
                  || (tx.amount > 0.0 && tx.fee >= env.minFee && (tx.sender == "" || tx.receiver == ""))
                  || (payable && env.solvent(tx) && follows && !late && env.signature(tx) == KeyMissing))
            && (v == Invalid(InsufficientFunds) <==> payable && !env.solvent(tx))
            && (v == Invalid(InvalidNonce) <==> payable && env.solvent(tx) && !follows)
            && (v == Invalid(Expired) <==> payable && env.solvent(tx) && follows && late)
            && (v == Invalid(InvalidSignature) <==>
                  payable && env.solvent(tx) && follows && !late && env.signature(tx) == Wrong)
  {
  }

  method ValidateTransaction(tx: Transaction, env: Env, tracker: NonceTracker) returns (v: Verdict)
    ensures v == Judged(tracker.nonces, tx, env)
    ensures v == Valid <==>
              && tx.amount > 0.0 && tx.fee >= env.minFee && tx.sender != "" && tx.receiver != ""
              && env.solvent(tx) && !(tx.expiryTime > 0 && env.now > tx.expiryTime)
              && env.signature(tx) == Fine
              && tx.nonce == if tx.sender in tracker.nonces then tracker.nonces[tx.sender] + 1 else 1
    ensures v == Valid <==> Sound(tx, env) && tx.nonce == Expected(tracker.nonces, tx.sender)
    ensures v == Invalid(InvalidNonce) ==> tx.nonce != Expected(tracker.nonces, tx.sender)
    ensures v.Invalid? && v.code != InvalidNonce ==> !Sound(tx, env)
  {
    if tx.amount <= 0.0 {
      return Invalid(InvalidAmount);
    }
    if tx.fee < env.minFee {
      return Invalid(InvalidFee);
    }
    if tx.sender == "" || tx.receiver == "" {
      return Invalid(InvalidSender);
    }
    if !env.solvent(tx) {
      return Invalid(InsufficientFunds);
    }
    var nonceVerdict := tracker.ValidateNonce(tx.sender, tx.nonce);
    if nonceVerdict != Next {
      return Invalid(InvalidNonce);
    }
    if tx.expiryTime > 0 && tx.expiryTime < env.now {
      return Invalid(Expired);
    }
    match env.signature(tx) {
      case KeyMissing => return Invalid(InvalidSender);
      case Wrong => return Invalid(InvalidSignature);
      case Fine => return Valid;
    }
  }

  // ------------------------------------------------------------------ batches, on values

  predicate Accepts(nonces: NonceMap, tx: Transaction, env: Env) {
    Sound(tx, env) && tx.nonce == Expected(nonces, tx.sender)
  }

  /** The transactions a batch keeps, taken in order. */
  function Kept(nonces: NonceMap, txs: seq<Transaction>, env: Env): seq<Transaction>
    decreases |txs|
  {
    if txs == [] then []
    else if Accepts(nonces, txs[0], env)
    then [txs[0]] + Kept(nonces[txs[0].sender := txs[0].nonce], txs[1..], env)
    else Kept(nonces, txs[1..], env)
  }

  /** The IDs of the transactions a batch does not keep. */
  function RejectedIds(nonces: NonceMap, txs: seq<Transaction>, env: Env): set<string>
    decreases |txs|
  {
    if txs == [] then {}
    else if Accepts(nonces, txs[0], env)
    then RejectedIds(nonces[txs[0].sender := txs[0].nonce], txs[1..], env)
    else {txs[0].id} + RejectedIds(nonces, txs[1..], env)
  }

  /** The errors a batch reports: under each ID the code of the last transaction of that ID that
      was not kept. */
  function Codes(nonces: NonceMap, txs: seq<Transaction>, env: Env): map<string, Code>
    decreases |txs|
  {
    if txs == [] then map[]
    else
      var k := |txs| - 1;
      var verdict := VerdictAt(nonces, txs, env, k);
      if verdict.Invalid? then Codes(nonces, txs[..k], env)[txs[k].id := verdict.code]
      else Codes(nonces, txs[..k], env)
  }

  /** The batch's own tracker after the transactions. */
  function TrackedAfter(nonces: NonceMap, txs: seq<Transaction>, env: Env): NonceMap {
    var replayed := Replay(nonces, Kept(nonces, txs, env));
    if replayed.Passed? then replayed.nonces else nonces
  }

  /** The verdict on one transaction at its place in the batch. */
  function VerdictAt(nonces: NonceMap, txs: seq<Transaction>, env: Env, i: nat): Verdict
    requires i < |txs|
  {
    Judged(TrackedAfter(nonces, txs[..i], env), txs[i], env)
  }

  lemma VerdictsStay(nonces: NonceMap, txs: seq<Transaction>, env: Env, k: nat, i: nat)
    requires i < k <= |txs|
    ensures VerdictAt(nonces, txs[..k], env, i) == VerdictAt(nonces, txs, env, i)
  {
    assert txs[..k][..i] == txs[..i];
  }

  lemma CodesUnfold(nonces: NonceMap, txs: seq<Transaction>, env: Env)
    requires txs != []
    ensures var k := |txs| - 1;
            var verdict, before := VerdictAt(nonces, txs, env, k), Codes(nonces, txs[..k], env);
            Codes(nonces, txs, env) == if verdict.Invalid? then before[txs[k].id := verdict.code] else before
  {
  }

  /** A reported code is the verdict on a transaction of that ID at its place in the batch, and
      no later one of that ID was faulty. */
  lemma {:induction false} CodesMean(nonces: NonceMap, txs: seq<Transaction>, env: Env, id: string) returns (i: nat)
    requires id in Codes(nonces, txs, env)
    ensures Decides(nonces, txs, env, id, i)
    ensures VerdictAt(nonces, txs, env, i) == Invalid(Codes(nonces, txs, env)[id])
    decreases |txs|
  {
    hide VerdictAt;
    var k := |txs| - 1;
    CodesUnfold(nonces, txs, env);
    hide Codes;
    if txs[k].id == id && VerdictAt(nonces, txs, env, k).Invalid? {
      i := k;
    } else {
      i := CodesMean(nonces, txs[..k], env, id);
      VerdictsStay(nonces, txs, env, k, i);
      forall j | i < j < |txs| && txs[j].id == id ensures VerdictAt(nonces, txs, env, j) == Valid {
        if j < k {
          assert txs[..k][j] == txs[j];
          VerdictsStay(nonces, txs, env, k, j);
        }
      }
    }
  }

  /** An ID without a code has no faulty transaction. */
  lemma {:induction false} NoCodeNoFault(nonces: NonceMap, txs: seq<Transaction>, env: Env, i: nat)
    requires i < |txs| && txs[i].id !in Codes(nonces, txs, env)
    ensures VerdictAt(nonces, txs, env, i) == Valid
    decreases |txs|
  {
    hide VerdictAt;
    var k := |txs| - 1;
    CodesUnfold(nonces, txs, env);
    hide Codes;
    if i < k {
      NoCodeNoFault(nonces, txs[..k], env, i);
      VerdictsStay(nonces, txs, env, k, i);
    }
  }

  /** The last faulty transaction of an ID. */
  ghost predicate Decides(nonces: NonceMap, txs: seq<Transaction>, env: Env, id: string, i: nat) {
    && i < |txs| && txs[i].id == id && VerdictAt(nonces, txs, env, i).Invalid?
    && forall j :: i < j < |txs| && txs[j].id == id ==> VerdictAt(nonces, txs, env, j) == Valid
  }

  /** The tracker after the replay middleware has taken the transactions one by one, if it
      takes them all. */
  datatype Replayed = Passed(nonces: NonceMap) | Refused

  function Replay(nonces: NonceMap, txs: seq<Transaction>): Replayed
    decreases |txs|
  {
    if txs == [] then Passed(nonces)
    else if txs[0].nonce == Expected(nonces, txs[0].sender)
    then Replay(nonces[txs[0].sender := txs[0].nonce], txs[1..])
    else Refused
  }

  function FromSender(txs: seq<Transaction>, sender: string): seq<Transaction> {
    if txs == [] then []
    else if txs[0].sender == sender then [txs[0]] + FromSender(txs[1..], sender)
    else FromSender(txs[1..], sender)
  }

  /** What a batch keeps passes the replay middleware one by one from the caller's tracker. */
  lemma {:induction false} KeptReplays(nonces: NonceMap, txs: seq<Transaction>, env: Env)
    ensures Replay(nonces, Kept(nonces, txs, env)).Passed?
    ensures forall tx :: tx in Kept(nonces, txs, env) ==> tx in txs && Sound(tx, env)
    decreases |txs|
  {
    if txs != [] {
      var tx := txs[0];
      assert forall t :: t in txs[1..] ==> t in txs;
      if Accepts(nonces, tx, env) {
        var nonces' := nonces[tx.sender := tx.nonce];
        KeptReplays(nonces', txs[1..], env);
        assert Kept(nonces, txs, env)[1..] == Kept(nonces', txs[1..], env);
      } else {
        KeptReplays(nonces, txs[1..], env);
      }
    }
  }

  /** Whatever passes the middleware is gap-free: a sender's nonces count up one by one from
      the tracker, which ends at the last of them. */
  lemma {:induction false} ReplayedIsGapFree(nonces: NonceMap, txs: seq<Transaction>, sender: string)
    requires Replay(nonces, txs).Passed?
    ensures var own := FromSender(txs, sender);
            && (forall i :: 0 <= i < |own| ==> own[i].nonce == Expected(nonces, sender) + i)
            && Expected(Replay(nonces, txs).nonces, sender) == Expected(nonces, sender) + |own|
    decreases |txs|
  {
    if txs != [] {
      ReplayedIsGapFree(nonces[txs[0].sender := txs[0].nonce], txs[1..], sender);
    }
  }

  /** ... and conversely, gap-free senders pass. */
  lemma {:induction false} GapFreeReplays(nonces: NonceMap, txs: seq<Transaction>)
    requires forall s, i :: 0 <= i < |FromSender(txs, s)| ==> FromSender(txs, s)[i].nonce == Expected(nonces, s) + i
    ensures Replay(nonces, txs).Passed?
    decreases |txs|
  {
    if txs != [] {
      var tx := txs[0];
      assert FromSender(txs, tx.sender)[0] == tx;
      var nonces' := nonces[tx.sender := tx.nonce];
      forall s, i | 0 <= i < |FromSender(txs[1..], s)|
        ensures FromSender(txs[1..], s)[i].nonce == Expected(nonces', s) + i
      {
        var own := FromSender(txs, s);
        if s == tx.sender {
          assert own[i + 1] == FromSender(txs[1..], s)[i];
        } else {
          assert own[i] == FromSender(txs[1..], s)[i];
        }
      }
      GapFreeReplays(nonces', txs[1..]);
    }
  }

  /** The next transaction of a batch is kept exactly when it is sound and its nonce follows
      the sender's kept ones without a gap. */
  lemma {:induction false} KeptNext(nonces: NonceMap, txs: seq<Transaction>, env: Env, tx: Transaction)
    ensures var kept := Kept(nonces, txs, env);
            Kept(nonces, txs + [tx], env) ==
            if Sound(tx, env) && tx.nonce == Expected(nonces, tx.sender) + |FromSender(kept, tx.sender)|
            then kept + [tx] else kept
    ensures RejectedIds(nonces, txs + [tx], env) ==
            RejectedIds(nonces, txs, env) + (if Kept(nonces, txs + [tx], env) == Kept(nonces, txs, env) then {tx.id}
                                             else {})
    decreases |txs|
  {
    if txs == [] {
      assert txs + [tx] == [tx] && [tx][1..] == [];
      assert Kept(nonces[tx.sender := tx.nonce], [tx][1..], env) == [];
      assert RejectedIds(nonces[tx.sender := tx.nonce], [tx][1..], env) == {};
    } else {
      assert (txs + [tx])[0] == txs[0] && (txs + [tx])[1..] == txs[1..] + [tx];
      if Accepts(nonces, txs[0], env) {
        var nonces' := nonces[txs[0].sender := txs[0].nonce];
        KeptNext(nonces', txs[1..], env, tx);
        assert Kept(nonces, txs, env)[1..] == Kept(nonces', txs[1..], env);
      } else {
        KeptNext(nonces, txs[1..], env, tx);
      }
    }
  }

  lemma {:induction false} ReplayAppends(nonces: NonceMap, txs: seq<Transaction>, tx: Transaction)
    requires Replay(nonces, txs).Passed?
    requires tx.nonce == Expected(Replay(nonces, txs).nonces, tx.sender)
    ensures Replay(nonces, txs + [tx]) == Passed(Replay(nonces, txs).nonces[tx.sender := tx.nonce])
    decreases |txs|
  {
    if txs == [] {
      assert txs + [tx] == [tx];
      assert Replay(nonces[tx.sender := tx.nonce], [tx][1..]) == Passed(nonces[tx.sender := tx.nonce]);
    } else {
      assert (txs + [tx])[1..] == txs[1..] + [tx];
      ReplayAppends(nonces[txs[0].sender := txs[0].nonce], txs[1..], tx);
    }
  }

  /** Validating against the running tracker decides what the batch keeps. */
  lemma BatchStep(nonces: NonceMap, txs: seq<Transaction>, env: Env, tx: Transaction, current: NonceMap)
    requires Replay(nonces, Kept(nonces, txs, env)) == Passed(current)
    ensures var kept := Kept(nonces, txs, env);
            if Accepts(current, tx, env)
            then Kept(nonces, txs + [tx], env) == kept + [tx]
                 && RejectedIds(nonces, txs + [tx], env) == RejectedIds(nonces, txs, env)
                 && Replay(nonces, kept + [tx]) == Passed(current[tx.sender := tx.nonce])
            else Kept(nonces, txs + [tx], env) == kept
                 && RejectedIds(nonces, txs + [tx], env) == RejectedIds(nonces, txs, env) + {tx.id}
  {
    KeptNext(nonces, txs, env, tx);
    ReplayedIsGapFree(nonces, Kept(nonces, txs, env), tx.sender);
    if Accepts(current, tx, env) {
      ReplayAppends(nonces, Kept(nonces, txs, env), tx);
    }
  }

  /** Validates the transactions in order on a copy of the nonces.  The caller's tracker is not
      touched; every ID with an error belongs to a transaction that was not kept at its turn. */
  method ValidateTransactionBatch(txs: seq<Transaction>, env: Env, tracker: NonceTracker)
    returns (results: map<string, Code>, validTxs: seq<Transaction>)
    ensures validTxs == Kept(tracker.nonces, txs, env)
    ensures results.Keys == RejectedIds(tracker.nonces, txs, env) && results == Codes(tracker.nonces, txs, env)
  {
    results, validTxs := map[], [];
    if |txs| == 0 {
      return;
    }
    ghost var start := tracker.nonces;
    var temp := new NonceTracker();
    temp.nonces := tracker.nonces;
    for i := 0 to |txs|
      invariant tracker.nonces == start && temp != tracker
      invariant validTxs == Kept(start, txs[..i], env)
      invariant Replay(start, validTxs) == Passed(temp.nonces)
      invariant results.Keys == RejectedIds(start, txs[..i], env) && results == Codes(start, txs[..i], env)
    {
      var tx := txs[i];
      var verdict := ValidateTransaction(tx, env, temp);
      assert txs[..i + 1] == txs[..i] + [tx] && txs[..i + 1][..i] == txs[..i];
      BatchStep(start, txs[..i], env, tx, temp.nonces);
      if verdict.Invalid? {
        results := results[tx.id := verdict.code];
      } else {
        temp.SetNonce(tx.sender, tx.nonce);
        validTxs := validTxs + [tx];
      }
    }
    assert txs[..|txs|] == txs;
  }
}
