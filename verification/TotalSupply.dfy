/** Total supply of a ledger and how each transaction changes it (the "P0" rule). */
module TotalSupply {
  import opened Uint64
  import opened Accounts
  import opened Transactions
  import opened Ledger

  /** 1.4 billion FAN in the smallest unit. */
  const TOTAL_SUPPLY: uint64 := 1400000000000000

  /** The mathematical sum of all balances over a finite set of addresses. */
  ghost function Supply(keys: set<string>, l: Ledger): nat {
    if keys == {} then 0
    else var a :| a in keys; Balance(l[a]) + Supply(keys - {a}, l)
  }

  lemma {:induction false} SupplySplit(keys: set<string>, l: Ledger, a: string)
    requires a in keys
    ensures Supply(keys, l) == Balance(l[a]) + Supply(keys - {a}, l)
    decreases keys
  {
    var b :| b in keys && Supply(keys, l) == Balance(l[b]) + Supply(keys - {b}, l);
    if a != b {
      SupplySplit(keys - {b}, l, a);
      SupplySplit(keys - {a}, l, b);
      assert keys - {b} - {a} == keys - {a} - {b};
    }
  }

  /** Only the accounts in `keys` matter. */
  lemma {:induction false} SupplyFrame(keys: set<string>, l: Ledger, m: Ledger)
    requires forall a :: a in keys ==> Balance(l[a]) == Balance(m[a])
    ensures Supply(keys, l) == Supply(keys, m)
    decreases keys
  {
    if keys != {} {
      var a :| a in keys;
      SupplySplit(keys, l, a);
      SupplySplit(keys, m, a);
      SupplyFrame(keys - {a}, l, m);
    }
  }

  /** Accounts that hold nothing may be left out of the sum. */
  lemma {:induction false} SupplyIgnoresEmpty(small: set<string>, keys: set<string>, l: Ledger)
    requires small <= keys
    requires forall a :: a in keys && a !in small ==> Balance(l[a]) == 0
    ensures Supply(small, l) == Supply(keys, l)
    decreases keys
  {
    if small == keys {
    } else {
      var a :| a in keys && a !in small;
      SupplySplit(keys, l, a);
      SupplyIgnoresEmpty(small, keys - {a}, l);
    }
  }

  /** Writing one account moves the sum by the difference of its balances. */
  lemma SupplyWrite(keys: set<string>, l: Ledger, a: string, d: AccountData)
    requires a in keys && d.address == a
    ensures Supply(keys, l[a := d]) == Supply(keys, l) - Balance(l[a]) + Balance(d)
  {
    SupplySplit(keys, l, a);
    SupplySplit(keys, l[a := d], a);
    SupplyFrame(keys - {a}, l, l[a := d]);
  }

  lemma SupplyCredit(keys: set<string>, l: Ledger, a: string, amount: uint64)
    requires a in keys
    ensures Supply(keys, Credit(l, a, amount)) ==
            Supply(keys, l) + amount - TWO_64 * Carry(l[a].available, amount)
  {
    SupplyWrite(keys, l, a, l[a].(available := Add(l[a].available, amount)));
  }

  lemma SupplyDebit(keys: set<string>, l: Ledger, a: string, amount: uint64)
    requires a in keys && amount <= l[a].available
    ensures Supply(keys, Debit(l, a, amount)) == Supply(keys, l) - amount
  {
    SupplyWrite(keys, l, a, l[a].(available := l[a].available - amount));
  }

  lemma SupplyBump(keys: set<string>, l: Ledger, a: string)
    ensures Supply(keys, BumpNonce(l, a)) == Supply(keys, l)
  {
    SupplyFrame(keys, l, BumpNonce(l, a));
  }

  /** No single account, and no two different ones, hold more than the total. */
  lemma BalanceBound(keys: set<string>, l: Ledger, a: string, b: string)
    requires a in keys && b in keys
    ensures Balance(l[a]) <= Supply(keys, l)
    ensures a != b ==> Balance(l[a]) + Balance(l[b]) <= Supply(keys, l)
  {
    SupplySplit(keys, l, a);
    if a != b {
      SupplySplit(keys - {a}, l, b);
    }
  }

  /** The ledger at the beginning: genesis holds everything. */
  ghost function GenesisLedger(): Ledger {
    EmptyLedger()[GENESIS := NewAccount(GENESIS).(available := TOTAL_SUPPLY)]
  }

  lemma GenesisSupply(keys: set<string>)
    requires GENESIS in keys
    ensures Supply(keys, GenesisLedger()) == TOTAL_SUPPLY
  {
    SupplySplit(keys, GenesisLedger(), GENESIS);
    SupplyIgnoresEmpty({}, keys - {GENESIS}, GenesisLedger());
  }

  // ---- what each transaction may legitimately do to the total ----

  /** The transaction runs as a transfer to genesis, whose fee is credited to nobody. */
  ghost predicate BurnsFee(env: Env, tx: Transaction) {
    tx.kind.Transfer? && Authentic(env, tx) && tx.to == GENESIS
  }

  /** A system transaction without sender creates its amount. */
  ghost predicate Mints(tx: Transaction) {
    IsSystem(tx.kind) && tx.from == ""
  }

  /** The exact change of the total made by an executed transaction. */
  ghost function Delta(env: Env, tx: Transaction): int {
    if Mints(tx) then tx.amount
    else if BurnsFee(env, tx) then -(tx.gasFee as int)
    else 0
  }

  /** All accounts a transaction can reach. */
  ghost function Reach(env: Env, tx: Transaction): set<string> {
    {tx.from, tx.to, GENESIS, env.signer(tx.publicKey)}
  }

  /** How often the credits of a transfer wrap around. */
  ghost function TransferWraps(l: Ledger, tx: Transaction): nat
    requires Add(tx.amount, tx.gasFee) <= l[tx.from].available
  {
    var paid := BumpNonce(Debit(l, tx.from, Add(tx.amount, tx.gasFee)), tx.from);
    Carry(paid[tx.to].available, tx.amount)
    + if tx.to != GENESIS then Carry(Credit(paid, tx.to, tx.amount)[GENESIS].available, tx.gasFee) else 0
  }

  /** How often the additions of a confiscation wrap around. */
  ghost function SeizureWraps(l: Ledger, attacker: string): nat {
    var total := Add(l[attacker].available, l[attacker].staked);
    if attacker == GENESIS || total == 0 then 0
    else Carry(l[attacker].available, l[attacker].staked) + Carry(l[GENESIS].available, total)
  }

  ghost function SystemWraps(l: Ledger, tx: Transaction): nat
    requires IsSystem(tx.kind)
  {
    var payer, payee := if tx.kind.Reward? then GENESIS else tx.from, if tx.kind.Reward? then tx.to else GENESIS;
    if tx.from == GENESIS && tx.to == GENESIS then 0
    else if tx.from == "" then Carry(l[tx.to].available, tx.amount)
    else if l[payer].available < tx.amount then 0
    else Carry(Debit(l, payer, tx.amount)[payee].available, tx.amount)
  }

  /** The additions to balances that wrap around when the transaction is executed. */
  ghost function CreditWraps(env: Env, l: Ledger, tx: Transaction): nat {
    if IsSystem(tx.kind) then SystemWraps(l, tx)
    else if !env.verifies(tx) then SeizureWraps(l, tx.from)
    else if env.signer(tx.publicKey) != tx.from then SeizureWraps(l, env.signer(tx.publicKey))
    else if !Covered(l, tx) then 0
    else match tx.kind
      case Transfer => TransferWraps(l, tx)
      case Stake => Carry(l[tx.from].staked, tx.amount)
      case Unstake => Carry(l[tx.from].available, tx.amount)
      case _ => 0
  }

  /** 1 for a transfer whose amount and fee together exceed 64 bits, so that it costs 2^64 too little. */
  ghost function CostWraps(env: Env, tx: Transaction): nat {
    if tx.kind.Transfer? && Authentic(env, tx) then Carry(tx.amount, tx.gasFee) else 0
  }

  /** The total after a transfer, with every wrap-around accounted for. */
  lemma TransferSupply(keys: set<string>, l: Ledger, tx: Transaction)
    requires {tx.from, tx.to, GENESIS} <= keys
    requires Add(tx.amount, tx.gasFee) <= l[tx.from].available
    ensures Supply(keys, TransferLedger(l, tx)) ==
            Supply(keys, l) - (if tx.to == GENESIS then tx.gasFee else 0)
            + TWO_64 * (Carry(tx.amount, tx.gasFee) - TransferWraps(l, tx))
  {
    var cost := Add(tx.amount, tx.gasFee);
    var paid := BumpNonce(Debit(l, tx.from, cost), tx.from);
    SupplyDebit(keys, l, tx.from, cost);
    SupplyBump(keys, Debit(l, tx.from, cost), tx.from);
    SupplyCredit(keys, paid, tx.to, tx.amount);
    if tx.to != GENESIS {
      SupplyCredit(keys, Credit(paid, tx.to, tx.amount), GENESIS, tx.gasFee);
    }
  }

  /** What an account has available once the sender has paid. */
  ghost function Remaining(l: Ledger, tx: Transaction, a: string): int {
    l[a].available - if a == tx.from then Add(tx.amount, tx.gasFee) else 0
  }

  /** The credit of the receiver or the fee credit of genesis exceeds 64 bits. */
  ghost predicate CreditOverflows(l: Ledger, tx: Transaction) {
    || Remaining(l, tx, tx.to) + tx.amount >= TWO_64
    || (tx.to != GENESIS && Remaining(l, tx, GENESIS) + tx.gasFee >= TWO_64)
  }

  lemma WrapsIff(l: Ledger, tx: Transaction)
    requires Add(tx.amount, tx.gasFee) <= l[tx.from].available
    ensures 0 <= TransferWraps(l, tx) && (TransferWraps(l, tx) > 0 <==> CreditOverflows(l, tx))
  {
  }

  /**
   An executed transfer keeps the exact total (less the fee when genesis is the receiver) if and
   only if the cost fits in 64 bits or some credit overflows as well.
   */
  lemma TransferExactIff(keys: set<string>, l: Ledger, tx: Transaction)
    requires {tx.from, tx.to, GENESIS} <= keys
    requires Add(tx.amount, tx.gasFee) <= l[tx.from].available
    requires Supply(keys, l) <= TOTAL_SUPPLY
    ensures Supply(keys, TransferLedger(l, tx)) ==
            Supply(keys, l) - (if tx.to == GENESIS then tx.gasFee else 0)
            <==> tx.amount + tx.gasFee < TWO_64 || CreditOverflows(l, tx)
  {
    TransferSupply(keys, l, tx);
    WrapsIff(l, tx);
  }

  /** When the cost fits and the total is within the supply, no credit of a transfer wraps. */
  lemma TransferNoOverflow(keys: set<string>, l: Ledger, tx: Transaction)
    requires {tx.from, tx.to, GENESIS} <= keys
    requires Add(tx.amount, tx.gasFee) <= l[tx.from].available
    requires Supply(keys, l) <= TOTAL_SUPPLY
    requires tx.amount + tx.gasFee < TWO_64
    ensures !CreditOverflows(l, tx) && TransferWraps(l, tx) == 0
  {
    TransferSupply(keys, l, tx);
    WrapsIff(l, tx);
  }

  lemma ConfiscateSupply(keys: set<string>, l: Ledger, attacker: string)
    requires {attacker, GENESIS} <= keys && attacker != GENESIS
    ensures Supply(keys, Confiscate(l, attacker).ledger) == Supply(keys, l) - TWO_64 * SeizureWraps(l, attacker)
    ensures Supply(keys, l) <= TOTAL_SUPPLY ==> SeizureWraps(l, attacker) == 0
  {
    BalanceBound(keys, l, attacker, GENESIS);
    var total := Add(l[attacker].available, l[attacker].staked);
    if total != 0 {
      var paid := Credit(l, GENESIS, total);
      SupplyCredit(keys, l, GENESIS, total);
      SupplyWrite(keys, paid, attacker, Stripped(l[attacker]));
    }
  }

  lemma StakeSupply(keys: set<string>, l: Ledger, tx: Transaction)
    requires tx.from in keys && tx.amount <= l[tx.from].available
    ensures Supply(keys, StakeLedger(l, tx)) == Supply(keys, l) - TWO_64 * Carry(l[tx.from].staked, tx.amount)
    ensures Supply(keys, l) <= TOTAL_SUPPLY ==> Carry(l[tx.from].staked, tx.amount) == 0
  {
    BalanceBound(keys, l, tx.from, tx.from);
    var staked := l[tx.from := Staked(l[tx.from], tx.amount)];
    SupplyWrite(keys, l, tx.from, Staked(l[tx.from], tx.amount));
    SupplyBump(keys, staked, tx.from);
  }

  lemma UnstakeSupply(keys: set<string>, l: Ledger, tx: Transaction)
    requires tx.from in keys && tx.amount <= l[tx.from].staked
    ensures Supply(keys, UnstakeLedger(l, tx)) == Supply(keys, l) - TWO_64 * Carry(l[tx.from].available, tx.amount)
    ensures Supply(keys, l) <= TOTAL_SUPPLY ==> Carry(l[tx.from].available, tx.amount) == 0
  {
    BalanceBound(keys, l, tx.from, tx.from);
    var unstaked := l[tx.from := Unstaked(l[tx.from], tx.amount)];
    SupplyWrite(keys, l, tx.from, Unstaked(l[tx.from], tx.amount));
    SupplyBump(keys, unstaked, tx.from);
  }

  lemma SystemSupply(keys: set<string>, l: Ledger, tx: Transaction)
    requires IsSystem(tx.kind) && {tx.from, tx.to, GENESIS} <= keys && ExecSystem(l, tx).Done?
    ensures Supply(keys, ExecSystem(l, tx).ledger) ==
            Supply(keys, l) + (if Mints(tx) then tx.amount else 0) - TWO_64 * SystemWraps(l, tx)
    ensures Supply(keys, l) <= TOTAL_SUPPLY && !Mints(tx) ==> SystemWraps(l, tx) == 0
  {
    if tx.from == GENESIS && tx.to == GENESIS {
    } else if tx.from == "" {
      SupplyCredit(keys, l, tx.to, tx.amount);
    } else {
      var payer, payee := if tx.kind.Reward? then GENESIS else tx.from, if tx.kind.Reward? then tx.to else GENESIS;
      SupplyDebit(keys, l, payer, tx.amount);
      SupplyCredit(keys, Debit(l, payer, tx.amount), payee, tx.amount);
      BalanceBound(keys, Debit(l, payer, tx.amount), payee, payee);
    }
  }

  /**
   Exact supply change of every executed transaction, with no bound on sizes. Forged signatures, forged
   senders, transfers, stakes, unstakes, rewards and slashes keep the total, with the two exceptions
   that `Delta` names, up to 2^64 for every cost and every credit that wraps around. Any of the
   accounts involved may coincide.
   */
  lemma ExecSupply(env: Env, keys: set<string>, l: Ledger, tx: Transaction, skipTimestamp: bool, now: int)
    requires Reach(env, tx) <= keys && Exec(env, l, tx, skipTimestamp, now).Done?
    ensures Supply(keys, Exec(env, l, tx, skipTimestamp, now).ledger) ==
            Supply(keys, l) + Delta(env, tx) + TWO_64 * (CostWraps(env, tx) - CreditWraps(env, l, tx))
    ensures Supply(keys, l) <= TOTAL_SUPPLY && tx.amount + tx.gasFee < TWO_64 && !Mints(tx) ==>
              CostWraps(env, tx) == 0 == CreditWraps(env, l, tx)
  {
    hide TransferLedger, StakeLedger, UnstakeLedger, Confiscate, ExecSystem, TransferWraps, SeizureWraps, SystemWraps;
    if IsSystem(tx.kind) {
      SystemSupply(keys, l, tx);
    } else if !env.verifies(tx) {
      SeizedDone(l, tx.from);
      ConfiscateSupply(keys, l, tx.from);
    } else if env.signer(tx.publicKey) != tx.from {
      SeizedDone(l, env.signer(tx.publicKey));
      ConfiscateSupply(keys, l, env.signer(tx.publicKey));
    } else if tx.kind.Transfer? {
      TransferSupply(keys, l, tx);
      if Supply(keys, l) <= TOTAL_SUPPLY && tx.amount + tx.gasFee < TWO_64 {
        TransferNoOverflow(keys, l, tx);
      }
    } else if tx.kind.Stake? {
      StakeSupply(keys, l, tx);
    } else {
      UnstakeSupply(keys, l, tx);
    }
  }

  lemma SeizedDone(l: Ledger, attacker: string)
    ensures Confiscate(l, attacker).Done? <==> attacker != GENESIS
  {
  }
}
