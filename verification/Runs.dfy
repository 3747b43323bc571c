/** Whole runs of transactions: block production stops at the first error, replay does not. */
module Runs {
  import opened Options
  import opened Uint64
  import opened Accounts
  import opened Transactions
  import opened Ledger
  import opened TotalSupply

  datatype Run = Run(ledger: imap<string, AccountData>, touched: set<string>, error: Option<Error>)

  /** Strict execution of a fresh block; `clock(i)` is the time at which transaction `i` runs. */
  ghost function RunStrict(env: Env, l: Ledger, txs: seq<Transaction>, clock: nat -> int): (r: Run)
    ensures IsLedger(r.ledger)
  {
    if txs == [] then Run(l, {}, None)
    else
      var i := |txs| - 1;
      var r := RunStrict(env, l, txs[..i], clock);
      if r.error.Some? then r
      else
        var o := Exec(env, r.ledger, txs[i], false, clock(i));
        Run(After(r.ledger, o), r.touched + Touched(o), if o.Failed? then Some(o.error) else None)
  }

  /** Replay of a stored block: no clock check, failed transactions are skipped. */
  ghost function RunLenient(env: Env, l: Ledger, txs: seq<Transaction>): (r: Run)
    ensures IsLedger(r.ledger) && r.error.None?
  {
    if txs == [] then Run(l, {}, None)
    else
      var i := |txs| - 1;
      var r := RunLenient(env, l, txs[..i]);
      var o := Exec(env, r.ledger, txs[i], true, 0);
      Run(After(r.ledger, o), r.touched + Touched(o), None)
  }

  /** A block received from a peer: no clock check, and the first error ends it. */
  ghost function RunSynced(env: Env, l: Ledger, txs: seq<Transaction>): (r: Run)
    ensures IsLedger(r.ledger)
  {
    if txs == [] then Run(l, {}, None)
    else
      var i := |txs| - 1;
      var r := RunSynced(env, l, txs[..i]);
      if r.error.Some? then r
      else
        var o := Exec(env, r.ledger, txs[i], true, 0);
        Run(After(r.ledger, o), r.touched + Touched(o), if o.Failed? then Some(o.error) else None)
  }

  /** Without an error, receiving a block does what replaying it does. */
  lemma {:induction false} SyncedIsLenient(env: Env, l: Ledger, txs: seq<Transaction>)
    requires RunSynced(env, l, txs).error.None?
    ensures RunLenient(env, l, txs) == RunSynced(env, l, txs)
  {
    hide Exec;
    if txs != [] {
      SyncedIsLenient(env, l, txs[..|txs| - 1]);
    }
  }

  /** Replaying a block that was produced without error does exactly what producing it did. */
  lemma {:induction false} ReplayRepeatsProduction(env: Env, l: Ledger, txs: seq<Transaction>, clock: nat -> int)
    requires RunStrict(env, l, txs, clock).error.None?
    ensures RunLenient(env, l, txs) == RunStrict(env, l, txs, clock)
  {
    if txs != [] {
      var i := |txs| - 1;
      ReplayRepeatsProduction(env, l, txs[..i], clock);
      ExecIgnoresClock(env, RunStrict(env, l, txs[..i], clock).ledger, txs[i], clock(i), 0);
    }
  }

  /** A run changes only accounts it marked for writing. */
  lemma {:induction false} RunFrame(env: Env, l: Ledger, txs: seq<Transaction>, clock: nat -> int, a: string)
    ensures a !in RunStrict(env, l, txs, clock).touched ==> RunStrict(env, l, txs, clock).ledger[a] == l[a]
    ensures a !in RunLenient(env, l, txs).touched ==> RunLenient(env, l, txs).ledger[a] == l[a]
  {
    if txs != [] {
      var i := |txs| - 1;
      RunFrame(env, l, txs[..i], clock, a);
      var strict := RunStrict(env, l, txs[..i], clock);
      if a !in Touched(Exec(env, strict.ledger, txs[i], false, clock(i))) {
        ExecFrame(env, strict.ledger, txs[i], false, clock(i), a);
      }
      var lenient := RunLenient(env, l, txs[..i]).ledger;
      if a !in Touched(Exec(env, lenient, txs[i], true, 0)) {
        ExecFrame(env, lenient, txs[i], true, 0, a);
      }
    }
  }

  /** Every transfer of a block produced without error is positive, pays a fee within bounds, and is timely. */
  lemma {:induction false} ProducedTransfers(env: Env, l: Ledger, txs: seq<Transaction>, clock: nat -> int, i: nat)
    requires RunStrict(env, l, txs, clock).error.None? && i < |txs| && txs[i].kind.Transfer?
    ensures txs[i].amount > 0 && env.minGasFee <= txs[i].gasFee <= env.maxGasFee
    ensures -env.maxTimestampDrift <= txs[i].timestamp - clock(i) <= env.maxTimestampDrift
  {
    hide Exec;
    var n := |txs| - 1;
    if i == n {
      AdmittedIff(env, RunStrict(env, l, txs[..n], clock).ledger, txs[n], false, clock(n));
    } else {
      ProducedTransfers(env, l, txs[..n], clock, i);
    }
  }

  /** The same for replay and received blocks, for every transfer that executes. */
  lemma ExecutedTransfer(env: Env, l: Ledger, tx: Transaction)
    requires tx.kind.Transfer? && Executes(env, l, tx)
    ensures tx.amount > 0 && env.minGasFee <= tx.gasFee <= env.maxGasFee
  {
    hide Exec;
    AdmittedIff(env, l, tx, true, 0);
  }

  // ---- supply over runs ----

  /** `keys` holds every account the list can reach. */
  ghost predicate Within(env: Env, keys: set<string>, txs: seq<Transaction>) {
    forall tx :: tx in txs ==> Reach(env, tx) <= keys
  }

  /** Costs fit in 64 bits and nothing is minted. */
  ghost predicate Ordinary(env: Env, keys: set<string>, txs: seq<Transaction>) {
    Within(env, keys, txs) && forall tx :: tx in txs ==> tx.amount + tx.gasFee < TWO_64 && !Mints(tx)
  }

  ghost predicate Executes(env: Env, l: Ledger, tx: Transaction) {
    Exec(env, l, tx, true, 0).Done?
  }

  /** Fees of the executed transfers to genesis. */
  ghost function Burned(env: Env, l: Ledger, txs: seq<Transaction>): nat {
    if txs == [] then 0
    else
      var i := |txs| - 1;
      Burned(env, l, txs[..i]) +
      if BurnsFee(env, txs[i]) && Executes(env, RunLenient(env, l, txs[..i]).ledger, txs[i]) then txs[i].gasFee else 0
  }

  /** Amounts of the system transactions without sender, which never fail. */
  ghost function Minted(txs: seq<Transaction>): nat {
    if txs == [] then 0
    else var i := |txs| - 1; Minted(txs[..i]) + if Mints(txs[i]) then txs[i].amount else 0
  }

  /** Executed transfers whose cost wrapped around. */
  ghost function WrappedCosts(env: Env, l: Ledger, txs: seq<Transaction>): nat {
    if txs == [] then 0
    else
      var i := |txs| - 1;
      WrappedCosts(env, l, txs[..i]) +
      if Executes(env, RunLenient(env, l, txs[..i]).ledger, txs[i]) then CostWraps(env, txs[i]) else 0
  }

  /** Credits of executed transactions that wrapped around. */
  ghost function WrappedCredits(env: Env, l: Ledger, txs: seq<Transaction>): nat {
    if txs == [] then 0
    else
      var i := |txs| - 1;
      var m := RunLenient(env, l, txs[..i]).ledger;
      WrappedCredits(env, l, txs[..i]) + if Executes(env, m, txs[i]) then CreditWraps(env, m, txs[i]) else 0
  }

  lemma MintsExecute(env: Env, l: Ledger, tx: Transaction)
    ensures Mints(tx) ==> Executes(env, l, tx)
  {
  }

  /** The total of one step, written with the summands that the run functions add up. */
  lemma StepSupply(env: Env, keys: set<string>, l: Ledger, tx: Transaction)
    requires Reach(env, tx) <= keys
    ensures
      var done := Executes(env, l, tx);
      Supply(keys, After(l, Exec(env, l, tx, true, 0))) == Supply(keys, l)
        - (if BurnsFee(env, tx) && done then tx.gasFee else 0) + (if Mints(tx) then tx.amount else 0)
        + TWO_64 * ((if done then CostWraps(env, tx) else 0) - (if done then CreditWraps(env, l, tx) else 0))
  {
    hide Exec, CostWraps, CreditWraps;
    MintsExecute(env, l, tx);
    if Executes(env, l, tx) {
      ExecSupply(env, keys, l, tx, true, 0);
    }
  }

  /** Over a whole run of any transactions, everything that changes the total is accounted for. */
  lemma {:induction false} RunSupply(env: Env, keys: set<string>, l: Ledger, txs: seq<Transaction>)
    requires Within(env, keys, txs)
    ensures Supply(keys, RunLenient(env, l, txs).ledger) == Supply(keys, l) - Burned(env, l, txs) + Minted(txs)
            + TWO_64 * (WrappedCosts(env, l, txs) - WrappedCredits(env, l, txs))
  {
    hide Exec, Executes, CostWraps, CreditWraps, Mints, BurnsFee, Supply, Reach;
    if txs != [] {
      var i := |txs| - 1;
      assert txs[i] in txs;
      RunSupply(env, keys, l, txs[..i]);
      StepSupply(env, keys, RunLenient(env, l, txs[..i]).ledger, txs[i]);
    }
  }

  /** In a run of ordinary transactions within the supply nothing wraps around. */
  lemma {:induction false} OrdinaryRun(env: Env, keys: set<string>, l: Ledger, txs: seq<Transaction>)
    requires Supply(keys, l) <= TOTAL_SUPPLY && Ordinary(env, keys, txs)
    ensures Supply(keys, RunLenient(env, l, txs).ledger) == Supply(keys, l) - Burned(env, l, txs)
    ensures WrappedCosts(env, l, txs) == 0 == WrappedCredits(env, l, txs) && Minted(txs) == 0
  {
    hide Exec, CostWraps, CreditWraps, Mints, BurnsFee, Supply, Reach;
    RunSupply(env, keys, l, txs);
    if txs != [] {
      var i := |txs| - 1;
      var m := RunLenient(env, l, txs[..i]).ledger;
      assert txs[i] in txs;
      OrdinaryRun(env, keys, l, txs[..i]);
      if Executes(env, m, txs[i]) {
        ExecSupply(env, keys, m, txs[i], true, 0);
      }
    }
  }

  /** The test made by the P0 gate: the sum of all balances modulo 2^64. */
  ghost predicate P0(keys: set<string>, l: Ledger) {
    Supply(keys, l) % TWO_64 == TOTAL_SUPPLY
  }

  lemma ShiftMod(x: int, k: int)
    ensures (x + TWO_64 * k) % TWO_64 == x % TWO_64
  {
  }

  /** The gate sees the gap between two sums only modulo 2^64. */
  lemma GapMod(before: int, gap: int, k: int)
    requires before % TWO_64 == TOTAL_SUPPLY
    ensures (before - gap + TWO_64 * k) % TWO_64 == TOTAL_SUPPLY <==> gap % TWO_64 == 0
  {
    ShiftMod(before - gap, k);
    ShiftMod(TOTAL_SUPPLY - gap % TWO_64, before / TWO_64 - gap / TWO_64);
  }

  /**
   After any block on a ledger that passes the P0 gate, the gate is passed again if and only if burned
   fees and minted amounts agree modulo 2^64. The gate does not see wrapped costs and credits: from an
   exact supply, the block keeps the supply exact if and only if those cancel against the difference.
   A block of ordinary transactions passes if and only if it burns nothing, and is then exact.
   */
  lemma BlockPassesP0Iff(env: Env, keys: set<string>, l: Ledger, txs: seq<Transaction>)
    requires P0(keys, l) && Within(env, keys, txs)
    ensures
      var after, gap := RunLenient(env, l, txs).ledger, Burned(env, l, txs) - Minted(txs);
      && (P0(keys, after) <==> gap % TWO_64 == 0)
      && (Supply(keys, l) == TOTAL_SUPPLY ==>
            (Supply(keys, after) == TOTAL_SUPPLY <==>
             gap == TWO_64 * (WrappedCosts(env, l, txs) - WrappedCredits(env, l, txs))))
      && (Supply(keys, l) == TOTAL_SUPPLY && Ordinary(env, keys, txs) ==>
            && (P0(keys, after) <==> Burned(env, l, txs) == 0)
            && (P0(keys, after) ==> Supply(keys, after) == TOTAL_SUPPLY))
  {
    hide RunLenient, Burned, Minted, WrappedCosts, WrappedCredits, Within, Supply;
    RunSupply(env, keys, l, txs);
    var gap, wraps := Burned(env, l, txs) - Minted(txs), WrappedCosts(env, l, txs) - WrappedCredits(env, l, txs);
    GapMod(Supply(keys, l), gap, wraps);
    if Supply(keys, l) == TOTAL_SUPPLY && Ordinary(env, keys, txs) {
      OrdinaryRun(env, keys, l, txs);
    }
  }

  // ---- the same for blocks that run without error, read off the list of transactions ----

  /** Fees of all authentic transfers to genesis. */
  ghost function FeesToGenesis(env: Env, txs: seq<Transaction>): nat {
    if txs == [] then 0
    else var i := |txs| - 1; FeesToGenesis(env, txs[..i]) + if BurnsFee(env, txs[i]) then txs[i].gasFee else 0
  }

  lemma {:induction false} ErrorFreeBurns(env: Env, l: Ledger, txs: seq<Transaction>, clock: nat -> int)
    requires RunStrict(env, l, txs, clock).error.None?
    ensures Burned(env, l, txs) == FeesToGenesis(env, txs)
  {
    hide Exec, BurnsFee;
    if txs != [] {
      var i := |txs| - 1;
      ErrorFreeBurns(env, l, txs[..i], clock);
      ReplayRepeatsProduction(env, l, txs[..i], clock);
      ExecIgnoresClock(env, RunStrict(env, l, txs[..i], clock).ledger, txs[i], clock(i), 0);
    }
  }

  lemma {:induction false} NoFeesIff(env: Env, txs: seq<Transaction>)
    ensures FeesToGenesis(env, txs) == 0 <==> forall tx :: tx in txs && BurnsFee(env, tx) ==> tx.gasFee == 0
  {
    hide BurnsFee;
    if txs != [] {
      var i := |txs| - 1;
      NoFeesIff(env, txs[..i]);
      assert txs == txs[..i] + [txs[i]];
    }
  }

  /**
   A block that was produced without error passes P0 if and only if the fees of its transfers to
   genesis and its minted amounts agree modulo 2^64; an ordinary one on an exact supply, if and only
   if it holds no authentic transfer to genesis with a positive fee.
   */
  lemma ProducedBlockPassesP0Iff(env: Env, keys: set<string>, l: Ledger, txs: seq<Transaction>, clock: nat -> int)
    requires P0(keys, l) && Within(env, keys, txs) && RunStrict(env, l, txs, clock).error.None?
    ensures
      var after := RunStrict(env, l, txs, clock).ledger;
      && (P0(keys, after) <==> (FeesToGenesis(env, txs) - Minted(txs)) % TWO_64 == 0)
      && (Supply(keys, l) == TOTAL_SUPPLY && Ordinary(env, keys, txs) ==>
            (P0(keys, after) <==> forall tx :: tx in txs && BurnsFee(env, tx) ==> tx.gasFee == 0))
  {
    hide RunStrict, RunLenient, Burned, Minted, WrappedCosts, WrappedCredits, Within, Supply, BurnsFee, FeesToGenesis;
    ReplayRepeatsProduction(env, l, txs, clock);
    ErrorFreeBurns(env, l, txs, clock);
    NoFeesIff(env, txs);
    BlockPassesP0Iff(env, keys, l, txs);
  }

  /** A transfer of 9 with fee 1 from genesis to itself runs without error and makes the block fail P0. */
  lemma BurnedFeeFailsP0() returns (env: Env, tx: Transaction, clock: nat -> int)
    ensures
      var r, keys := RunStrict(env, GenesisLedger(), [tx], clock), Reach(env, tx);
      r.error.None? && Supply(keys, r.ledger) == TOTAL_SUPPLY - 1 && !P0(keys, r.ledger)
  {
    hide TransferLedger, Supply;
    env := Env(1, 1000, 0, 0, 0, _ => true, _ => GENESIS);
    tx := Transaction(TxType.Transfer, GENESIS, GENESIS, 9, 1, 0, 0, [], [1], [1]);
    clock := _ => 0;
    assert |GENESIS| > 1 && WellFormed(env, tx, false, 0) && [tx][..0] == [];
    var keys := Reach(env, tx);
    GenesisSupply(keys);
    assert Exec(env, GenesisLedger(), tx, false, 0).Done?;
    ExecSupply(env, keys, GenesisLedger(), tx, false, 0);
  }

  /**
   The gate does not protect the exact total: any executed transfer with a wrapped cost and no
   overflowing credit, on an exact ledger, creates 2^64 units and still passes P0.
   */
  lemma WrappedTransferPassesP0(env: Env, keys: set<string>, l: Ledger, tx: Transaction)
    requires Reach(env, tx) <= keys && Supply(keys, l) == TOTAL_SUPPLY
    requires tx.kind.Transfer? && Authentic(env, tx) && tx.to != GENESIS && Executes(env, l, tx)
    requires tx.amount + tx.gasFee >= TWO_64 && !CreditOverflows(l, tx)
    ensures var after := Exec(env, l, tx, true, 0).ledger;
            Supply(keys, after) == TOTAL_SUPPLY + TWO_64 && P0(keys, after)
  {
    hide Supply, Reach;
    ExecSupply(env, keys, l, tx, true, 0);
    WrapsIff(l, tx);
  }

  /** Such a transfer exists: amount 2^64-1 and fee 1 between accounts that hold nothing. */
  lemma WrappedTransferExample() returns (env: Env, keys: set<string>, l: Ledger, tx: Transaction)
    ensures Reach(env, tx) <= keys && Supply(keys, l) == TOTAL_SUPPLY && Executes(env, l, tx)
    ensures var after := Exec(env, l, tx, true, 0).ledger;
            Supply(keys, after) == TOTAL_SUPPLY + TWO_64 && P0(keys, after)
  {
    hide TransferLedger, Supply;
    env := Env(1, 1000, 0, 0, 0, _ => true, _ => "a");
    tx := Transaction(TxType.Transfer, "a", "b", TWO_64 - 1, 1, 0, 0, [], [1], [1]);
    l, keys := GenesisLedger(), Reach(env, tx);
    GenesisSupply(keys);
    assert |GENESIS| > 1 && WellFormed(env, tx, true, 0);
    hide WellFormed, Reach;
    WrappedTransferPassesP0(env, keys, l, tx);
  }

  // ---- nonces over runs ----

  /** The transaction is executed on behalf of account `a`, rather than refused or punished. */
  ghost predicate SpendsNonce(env: Env, l: Ledger, tx: Transaction, a: string) {
    !IsSystem(tx.kind) && Authentic(env, tx) && tx.from == a && Exec(env, l, tx, true, 0).Done?
  }

  ghost function Spent(env: Env, l: Ledger, txs: seq<Transaction>, a: string): nat {
    if txs == [] then 0
    else
      var i := |txs| - 1;
      Spent(env, l, txs[..i], a) + if SpendsNonce(env, RunLenient(env, l, txs[..i]).ledger, txs[i], a) then 1 else 0
  }

  lemma ExecNonce(env: Env, l: Ledger, tx: Transaction, a: string)
    ensures After(l, Exec(env, l, tx, true, 0))[a].nonce ==
            AddIf(SpendsNonce(env, l, tx, a), l[a].nonce, 1)
  {
  }

  lemma ExecNonceFrom(env: Env, l: Ledger, tx: Transaction, a: string, start: nat)
    requires l[a].nonce == start % TWO_64
    ensures After(l, Exec(env, l, tx, true, 0))[a].nonce ==
            (start + if SpendsNonce(env, l, tx, a) then 1 else 0) % TWO_64
  {
    var spends := SpendsNonce(env, l, tx, a);
    ExecNonce(env, l, tx, a);
    AddIfWraps(spends, start, 1);
  }

  /** A nonce counts the executed transfers, stakes and unstakes of its account, and nothing else. */
  lemma {:induction false} NonceCountsExecutions(env: Env, l: Ledger, txs: seq<Transaction>, a: string)
    ensures RunLenient(env, l, txs).ledger[a].nonce == (l[a].nonce + Spent(env, l, txs, a)) % TWO_64
  {
    if txs == [] {
    } else {
      var i := |txs| - 1;
      var m: Ledger := RunLenient(env, l, txs[..i]).ledger;
      NonceCountsExecutions(env, l, txs[..i], a);
      var k := if SpendsNonce(env, m, txs[i], a) then 1 else 0;
      assert Spent(env, l, txs, a) == Spent(env, l, txs[..i], a) + k;
      ExecNonceFrom(env, m, txs[i], a, l[a].nonce + Spent(env, l, txs[..i], a));
      assert RunLenient(env, l, txs).ledger == After(m, Exec(env, m, txs[i], true, 0));
    }
  }
}
