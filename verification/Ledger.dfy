/**
 The ledger as one plain, total map from addresses to accounts, and what a transaction does to it.
 This is the specification that the caching StateManager is proved to implement.
 */
module Ledger {
  import opened Uint64
  import opened Accounts
  import opened Transactions

  /** Every address has an account; the ones never written hold a default account. */
  ghost predicate IsLedger(l: imap<string, AccountData>) {
    forall a: string :: a in l && l[a].address == a
  }

  ghost function EmptyLedger(): (l: imap<string, AccountData>)
    ensures IsLedger(l)
  {
    imap a: string :: NewAccount(a)
  }

  type Ledger = l: imap<string, AccountData> | IsLedger(l) ghost witness EmptyLedger()

  datatype Error =
    | Malformed | GenesisExempt | ShortOfStake | ShortOfBalance | WrongNonce | UnknownKind
    | GenesisShort | SlashedShort

  /** The notification sent to the consensus layer. */
  datatype Event = NoEvent | Joined(address: string, stake: uint64) | Left(address: string)

  /** Result of one transaction; `touched` are the accounts marked for writing. */
  datatype Outcome =
    | Failed(error: Error)
    | Done(ledger: imap<string, AccountData>, touched: set<string>, event: Event)

  ghost function Credit(l: Ledger, a: string, amount: uint64): Ledger {
    l[a := l[a].(available := Add(l[a].available, amount))]
  }

  ghost function Debit(l: Ledger, a: string, amount: uint64): Ledger
    requires amount <= l[a].available
  {
    l[a := l[a].(available := l[a].available - amount)]
  }

  ghost function BumpNonce(l: Ledger, a: string): Ledger {
    l[a := l[a].(nonce := Add(l[a].nonce, 1))]
  }

  /** StateManager.confiscateAllFunds. */
  ghost function Confiscate(l: Ledger, attacker: string): (r: Outcome)
    ensures r.Done? ==> IsLedger(r.ledger)
  {
    var total := Add(l[attacker].available, l[attacker].staked);
    if attacker == GENESIS then Failed(GenesisExempt)
    else if total == 0 then Done(l, {}, NoEvent)
    else
      Done(Credit(l, GENESIS, total)[attacker := Stripped(l[attacker])], {attacker, GENESIS}, NoEvent)
  }

  /** StateManager.executeTransfer; the fee goes to genesis unless genesis is the receiver. */
  ghost function TransferLedger(l: Ledger, tx: Transaction): Ledger
    requires Add(tx.amount, tx.gasFee) <= l[tx.from].available
  {
    Delivered(BumpNonce(Debit(l, tx.from, Add(tx.amount, tx.gasFee)), tx.from), tx)
  }

  /** The credits of a transfer, once the sender has paid. */
  ghost function Delivered(paid: Ledger, tx: Transaction): Ledger {
    var received := Credit(paid, tx.to, tx.amount);
    if tx.to != GENESIS then Credit(received, GENESIS, tx.gasFee) else received
  }

  ghost function TransferTouched(tx: Transaction): set<string> {
    if tx.to != GENESIS then {tx.from, tx.to, GENESIS} else {tx.from, tx.to}
  }

  ghost function StakeLedger(l: Ledger, tx: Transaction): Ledger
    requires tx.amount <= l[tx.from].available
  {
    BumpNonce(l[tx.from := Staked(l[tx.from], tx.amount)], tx.from)
  }

  ghost function UnstakeLedger(l: Ledger, tx: Transaction): Ledger
    requires tx.amount <= l[tx.from].staked
  {
    BumpNonce(l[tx.from := Unstaked(l[tx.from], tx.amount)], tx.from)
  }

  ghost function StakeEvent(env: Env, l: Ledger, l': Ledger, a: string): Event {
    if !IsValidator(l[a], env.stakeRequired) && IsValidator(l'[a], env.stakeRequired)
    then Joined(a, l'[a].staked) else NoEvent
  }

  ghost function UnstakeEvent(env: Env, l: Ledger, l': Ledger, a: string): Event {
    if IsValidator(l[a], env.stakeRequired) && !IsValidator(l'[a], env.stakeRequired)
    then Left(a) else NoEvent
  }

  /** StateManager.executeSystemTx. */
  ghost function ExecSystem(l: Ledger, tx: Transaction): (r: Outcome)
    requires IsSystem(tx.kind)
    ensures r.Done? ==> IsLedger(r.ledger)
  {
    if tx.from == GENESIS && tx.to == GENESIS then Done(l, {}, NoEvent)
    else if tx.from == "" then Done(Credit(l, tx.to, tx.amount), {tx.to}, NoEvent)
    else if tx.kind.Reward? then
      if l[GENESIS].available < tx.amount then Failed(GenesisShort)
      else Done(Credit(Debit(l, GENESIS, tx.amount), tx.to, tx.amount), {GENESIS, tx.to}, NoEvent)
    else
      if l[tx.from].available < tx.amount then Failed(SlashedShort)
      else Done(Credit(Debit(l, tx.from, tx.amount), GENESIS, tx.amount), {tx.from, GENESIS}, NoEvent)
  }

  /** The balance check made before any user transaction runs. */
  ghost predicate Covered(l: Ledger, tx: Transaction) {
    match tx.kind
    case Unstake => tx.amount <= l[tx.from].staked
    case Transfer => Add(tx.amount, tx.gasFee) <= l[tx.from].available
    case _ => tx.amount <= l[tx.from].available
  }

  /** A user transaction that is well formed and authentic. */
  ghost function ExecUser(env: Env, l: Ledger, tx: Transaction): (r: Outcome)
    ensures r.Done? ==> IsLedger(r.ledger)
  {
    if !Covered(l, tx) then Failed(if tx.kind.Unstake? then ShortOfStake else ShortOfBalance)
    else if tx.nonce != l[tx.from].nonce then Failed(WrongNonce)
    else match tx.kind
      case Transfer => Done(TransferLedger(l, tx), TransferTouched(tx), NoEvent)
      case Stake =>
        var l' := StakeLedger(l, tx);
        Done(l', {tx.from}, StakeEvent(env, l, l', tx.from))
      case Unstake =>
        var l' := UnstakeLedger(l, tx);
        Done(l', {tx.from}, UnstakeEvent(env, l, l', tx.from))
      case _ => Failed(UnknownKind)
  }

  /** StateManager.ExecuteTransaction. */
  ghost function Exec(env: Env, l: Ledger, tx: Transaction, skipTimestamp: bool, now: int): (r: Outcome)
    ensures r.Done? ==> IsLedger(r.ledger)
  {
    if IsSystem(tx.kind) then ExecSystem(l, tx)
    else if !WellFormed(env, tx, skipTimestamp, now) then Failed(Malformed)
    else if !env.verifies(tx) then Confiscate(l, tx.from)
    else if env.signer(tx.publicKey) != tx.from then Confiscate(l, env.signer(tx.publicKey))
    else ExecUser(env, l, tx)
  }

  /** The ledger a failed transaction leaves is the one it found. */
  ghost function After(l: Ledger, r: Outcome): Ledger
    requires r.Done? ==> IsLedger(r.ledger)
  {
    if r.Done? then r.ledger else l
  }

  ghost function Touched(r: Outcome): set<string> {
    if r.Done? then r.touched else {}
  }

  /** Which user transactions pass the stateless checks. */
  lemma AdmittedIff(env: Env, l: Ledger, tx: Transaction, skipTimestamp: bool, now: int)
    requires !tx.kind.Reward? && !tx.kind.Slash?
    ensures Exec(env, l, tx, skipTimestamp, now) != Failed(Malformed) <==>
            && |tx.from| > 0 && |tx.to| > 0
            && (tx.from == tx.to ==> tx.from == GENESIS || tx.kind.Stake? || tx.kind.Unstake?)
            && (tx.kind.Transfer? ==> tx.amount > 0 && env.minGasFee <= tx.gasFee && tx.gasFee <= env.maxGasFee)
            && (!tx.kind.Transfer? ==> tx.gasFee == 0)
            && |tx.data| <= env.maxDataSize && |tx.signature| > 0 && |tx.publicKey| > 0
            && (skipTimestamp || -env.maxTimestampDrift <= tx.timestamp - now <= env.maxTimestampDrift)
  {
    hide ExecUser, Confiscate;
    UserNeverMalformed(env, l, tx);
  }

  lemma UserNeverMalformed(env: Env, l: Ledger, tx: Transaction)
    ensures ExecUser(env, l, tx) != Failed(Malformed)
    ensures forall a :: Confiscate(l, a) != Failed(Malformed)
  {
  }

  /** The payer of an admitted, authentic transaction has too little. */
  ghost predicate Short(l: Ledger, tx: Transaction) {
    if tx.kind.Unstake? then l[tx.from].staked < tx.amount
    else if tx.kind.Transfer? then l[tx.from].available < (tx.amount + tx.gasFee) % TWO_64
    else l[tx.from].available < tx.amount
  }

  /**
   How an admitted user transaction ends: a forgery is punished unless it would hit genesis; else funds
   are checked first, then the nonce, then the kind.
   */
  lemma UserOutcome(env: Env, l: Ledger, tx: Transaction, skipTimestamp: bool, now: int)
    requires !tx.kind.Reward? && !tx.kind.Slash? && Exec(env, l, tx, skipTimestamp, now) != Failed(Malformed)
    ensures
      var o := Exec(env, l, tx, skipTimestamp, now);
      if !env.verifies(tx) || env.signer(tx.publicKey) != tx.from then
        var attacker := if !env.verifies(tx) then tx.from else env.signer(tx.publicKey);
        if attacker == GENESIS then o == Failed(GenesisExempt) else o.Done?
      else if Short(l, tx) then o == Failed(if tx.kind.Unstake? then ShortOfStake else ShortOfBalance)
      else if tx.nonce != l[tx.from].nonce then o == Failed(WrongNonce)
      else if tx.kind.Unknown? then o == Failed(UnknownKind)
      else o.Done?
  {
    hide WellFormed, TransferLedger, StakeLedger, UnstakeLedger;
    AddWraps(tx.amount, tx.gasFee);
  }

  /** How a system transaction ends: rewards are paid by genesis, slashes by the sender. */
  lemma SystemOutcome(env: Env, l: Ledger, tx: Transaction, skipTimestamp: bool, now: int)
    requires tx.kind.Reward? || tx.kind.Slash?
    ensures
      var o := Exec(env, l, tx, skipTimestamp, now);
      var free := |tx.from| == 0 || (tx.from == GENESIS && tx.to == GENESIS);
      if !free && tx.kind.Reward? && l[GENESIS].available < tx.amount then o == Failed(GenesisShort)
      else if !free && tx.kind.Slash? && l[tx.from].available < tx.amount then o == Failed(SlashedShort)
      else o.Done?
  {
    assert |GENESIS| > 0;
  }

  /** A transaction changes no account outside the ones it marks for writing. */
  lemma ExecFrame(env: Env, l: Ledger, tx: Transaction, skipTimestamp: bool, now: int, a: string)
    requires a !in Touched(Exec(env, l, tx, skipTimestamp, now))
    ensures After(l, Exec(env, l, tx, skipTimestamp, now))[a] == l[a]
  {
  }

  /** Dropping the clock check never changes the effect of a transaction that passed it. */
  lemma ExecIgnoresClock(env: Env, l: Ledger, tx: Transaction, now: int, now': int)
    requires Exec(env, l, tx, false, now).Done?
    ensures Exec(env, l, tx, true, now') == Exec(env, l, tx, false, now)
  {
  }

  /**
   What an executed transfer posts to each account, whatever accounts coincide: the sender's debit,
   the receiver's credit and the fee credited to genesis add up modulo 2^64.
   */
  ghost function Posting(tx: Transaction, a: string): int {
    (if a == tx.from then -(Add(tx.amount, tx.gasFee) as int) else 0)
    + (if a == tx.to then tx.amount else 0)
    + (if a == GENESIS && tx.to != GENESIS then tx.gasFee else 0)
  }

  ghost function AddIf(c: bool, x: uint64, b: uint64): uint64 {
    if c then Add(x, b) else x
  }

  lemma TransferSteps(l: Ledger, tx: Transaction, a: string)
    requires Add(tx.amount, tx.gasFee) <= l[tx.from].available
    ensures
      var x := l[a].available - (if a == tx.from then Add(tx.amount, tx.gasFee) else 0);
      TransferLedger(l, tx)[a] ==
      l[a].(available := AddIf(a == GENESIS && tx.to != GENESIS, AddIf(a == tx.to, x, tx.amount), tx.gasFee),
      nonce := AddIf(a == tx.from, l[a].nonce, 1))
  {
  }

  lemma AddIfWraps(c: bool, x: int, b: uint64)
    ensures AddIf(c, x % TWO_64, b) == (x + if c then b else 0) % TWO_64
  {
    AddWraps(x, b);
  }

  lemma AddIfsWrap(x: uint64, to: bool, amount: uint64, genesis: bool, fee: uint64)
    ensures AddIf(genesis, AddIf(to, x, amount), fee) ==
            (x + (if to then amount else 0) + (if genesis then fee else 0)) % TWO_64
  {
    hide AddIf;
    AddIfWraps(to, x, amount);
    AddIfWraps(genesis, x + if to then amount else 0, fee);
  }

  lemma TransferPostings(l: Ledger, tx: Transaction, a: string)
    requires Add(tx.amount, tx.gasFee) <= l[tx.from].available
    ensures TransferLedger(l, tx)[a].available == (l[a].available + Posting(tx, a)) % TWO_64
    ensures TransferLedger(l, tx)[a] == l[a].(available := TransferLedger(l, tx)[a].available,
                                        nonce := AddIf(a == tx.from, l[a].nonce, 1))
  {
    hide TransferLedger, Add, AddIf;
    TransferSteps(l, tx, a);
    AddIfsWrap(l[a].available - (if a == tx.from then Add(tx.amount, tx.gasFee) else 0),
               a == tx.to, tx.amount, a == GENESIS && tx.to != GENESIS, tx.gasFee);
  }
}
