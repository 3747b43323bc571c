/** The filter on pending transactions before a block is built (transaction.go). */
module NoncePipeline {
  import opened Options
  import opened Uint64
  import opened Accounts
  import opened Transactions
  import opened Ledger
  import opened TotalSupply
  import opened Runs

  /** The pending transfers, stakes and unstakes sent by `a`, in order. */
  function SentBy(txs: seq<Transaction>, a: string): seq<Transaction> {
    if txs == [] then []
    else
      var i := |txs| - 1;
      SentBy(txs[..i], a) + if !IsSystem(txs[i].kind) && txs[i].from == a then [txs[i]] else []
  }

  function SystemOf(txs: seq<Transaction>): seq<Transaction> {
    if txs == [] then []
    else var i := |txs| - 1; SystemOf(txs[..i]) + if IsSystem(txs[i].kind) then [txs[i]] else []
  }

  /** The balance test, made against the state before the block. */
  predicate Affordable(d: AccountData, tx: Transaction) {
    match tx.kind
    case Transfer => Add(tx.amount, tx.gasFee) <= d.available
    case Stake => tx.amount <= d.available
    case Unstake => tx.amount <= d.staked
    case _ => true
  }

  predicate Continues(d: AccountData, kept: seq<Transaction>, tx: Transaction) {
    tx.nonce == (d.nonce + |kept|) % TWO_64 && Affordable(d, tx)
  }

  /** One account's share: greedily, whatever continues its nonce and is affordable. */
  function Accepted(d: AccountData, txs: seq<Transaction>): (kept: seq<Transaction>) {
    if txs == [] then []
    else
      var n := |txs| - 1;
      var kept := Accepted(d, txs[..n]);
      if Continues(d, kept, txs[n]) then kept + [txs[n]] else kept
  }

  ghost predicate Consecutive(start: uint64, txs: seq<Transaction>) {
    forall i :: 0 <= i < |txs| ==> txs[i].nonce == (start + i) % TWO_64
  }

  /** What is kept was pending, is affordable, and carries consecutive nonces from the stored one. */
  lemma {:induction false} AcceptedConsecutive(d: AccountData, txs: seq<Transaction>)
    ensures |Accepted(d, txs)| <= |txs| && Consecutive(d.nonce, Accepted(d, txs))
    ensures forall tx :: tx in Accepted(d, txs) ==> tx in txs && Affordable(d, tx)
  {
    if txs != [] {
      hide Affordable;
      AcceptedConsecutive(d, txs[..|txs| - 1]);
    }
  }

  function NoncesOf(txs: seq<Transaction>): set<uint64> {
    set tx | tx in txs :: tx.nonce
  }

  /** The loop over one account's transactions; a Go slice is far shorter than 2^64. */
  method FilterAccount(d: AccountData, txs: seq<Transaction>) returns (kept: seq<Transaction>)
    requires |txs| < TWO_64
    ensures kept == Accepted(d, txs)
  {
    hide Affordable, Add, NoncesOf, Consecutive, Accepted;
    kept := [];
    var currentNonce := d.nonce;
    var seenNonces: set<uint64> := {};
    AcceptedNothing(d);
    for i := 0 to |txs|
      invariant kept == Accepted(d, txs[..i])
      invariant currentNonce == (d.nonce + |kept|) % TWO_64 && seenNonces == NoncesOf(kept)
    {
      var tx := txs[i];
      AcceptedNext(d, txs, i);
      AcceptedConsecutive(d, txs[..i]);
      if tx.nonce in seenNonces {
        SeenIsPast(d.nonce, kept, tx.nonce);
      } else if tx.nonce == currentNonce && Affordable(d, tx) {
        AddWraps(d.nonce + |kept|, 1);
        NoncesPush(kept, tx);
        seenNonces := seenNonces + {tx.nonce};
        kept := kept + [tx];
        currentNonce := Add(currentNonce, 1);
      }
    }
    assert txs[..|txs|] == txs;
  }

  lemma AcceptedNothing(d: AccountData)
    ensures Accepted(d, []) == [] && NoncesOf([]) == {}
  {
  }

  lemma AcceptedNext(d: AccountData, txs: seq<Transaction>, i: nat)
    requires i < |txs|
    ensures var kept := Accepted(d, txs[..i]);
            Accepted(d, txs[..i + 1]) == if Continues(d, kept, txs[i]) then kept + [txs[i]] else kept
  {
    hide Continues;
    assert txs[..i + 1][..i] == txs[..i];
  }

  lemma NoncesPush(txs: seq<Transaction>, tx: Transaction)
    ensures NoncesOf(txs + [tx]) == NoncesOf(txs) + {tx.nonce}
  {
    forall n | n in NoncesOf(txs) + {tx.nonce} ensures n in NoncesOf(txs + [tx]) {
      if n == tx.nonce {
        assert tx in txs + [tx];
      } else {
        var t :| t in txs && t.nonce == n;
        assert t in txs + [tx];
      }
    }
  }

  /** The duplicate test never decides: a nonce already accepted is not the current one. */
  lemma SeenIsPast(start: uint64, kept: seq<Transaction>, nonce: uint64)
    requires |kept| < TWO_64 && Consecutive(start, kept)
    requires nonce in NoncesOf(kept)
    ensures nonce != (start + |kept|) % TWO_64
  {
    var tx :| tx in kept && tx.nonce == nonce;
    var i :| 0 <= i < |kept| && kept[i] == tx;
    NoncesDiffer(start, i, |kept|);
  }

  lemma NoncesDiffer(start: int, i: int, k: int)
    requires 0 < k - i < TWO_64
    ensures (start + i) % TWO_64 != (start + k) % TWO_64
  {
    var d := (start + k) / TWO_64 - (start + i) / TWO_64;
    assert (start + k) % TWO_64 == (start + i) % TWO_64 ==> k - i == TWO_64 * d;
  }

  lemma SentByNext(txs: seq<Transaction>, i: nat)
    requires i < |txs|
    ensures forall a :: SentBy(txs[..i + 1], a) ==
                        if !IsSystem(txs[i].kind) && txs[i].from == a then SentBy(txs[..i], a) + [txs[i]]
                        else SentBy(txs[..i], a)
  {
    assert txs[..i + 1][..i] == txs[..i];
  }

  method GroupBySender(txs: seq<Transaction>) returns (byAccount: map<string, seq<Transaction>>)
    ensures forall a :: SentBy(txs, a) == if a in byAccount then byAccount[a] else []
    ensures forall a :: a in byAccount ==> |byAccount[a]| <= |txs|
  {
    hide SentBy;
    NothingSent();
    byAccount := map[];
    for i := 0 to |txs|
      invariant forall a :: SentBy(txs[..i], a) == if a in byAccount then byAccount[a] else []
      invariant forall a :: a in byAccount ==> |byAccount[a]| <= i
    {
      SentByNext(txs, i);
      var tx := txs[i];
      if !IsSystem(tx.kind) {
        byAccount := byAccount[tx.from := (if tx.from in byAccount then byAccount[tx.from] else []) + [tx]];
      }
    }
    assert txs[..|txs|] == txs;
  }

  /** validateAndDeduplicateTransactions; accounts are visited in an arbitrary order. */
  method ValidateAndDeduplicate(txs: seq<Transaction>, account: string -> AccountData) returns (valid: seq<Transaction>)
    requires |txs| < TWO_64
    ensures forall a :: SentBy(valid, a) == Accepted(account(a), SentBy(txs, a))
    ensures SystemOf(valid) == SystemOf(txs)
    ensures |SystemOf(txs)| <= |valid| && valid[|valid| - |SystemOf(txs)|..] == SystemOf(txs)
  {
    hide SentBy, SystemOf, Accepted;
    if |txs| == 0 {
      NothingSent();
      forall a ensures SentBy(txs, a) == Accepted(account(a), SentBy(txs, a)) {
        AcceptedNothing(account(a));
      }
      return txs;
    }
    var byAccount := GroupBySender(txs);
    var users := FilterAccounts(txs, byAccount, account);
    AppendSystem(users, txs);
    valid := AddSystemTxs(users, txs);
  }

  /** The last loop: system transactions follow in their order. */
  method AddSystemTxs(users: seq<Transaction>, txs: seq<Transaction>) returns (valid: seq<Transaction>)
    ensures valid == users + SystemOf(txs)
  {
    valid := users;
    for i := 0 to |txs|
      invariant valid == users + SystemOf(txs[..i])
    {
      assert txs[..i + 1][..i] == txs[..i];
      if IsSystem(txs[i].kind) {
        valid := valid + [txs[i]];
      }
    }
    assert txs[..|txs|] == txs;
  }

  /** The loop over the grouped accounts, in an arbitrary order. */
  method FilterAccounts(
    ghost txs: seq<Transaction>, byAccount: map<string, seq<Transaction>>, account: string -> AccountData)
    returns (users: seq<Transaction>)
    requires forall a :: SentBy(txs, a) == if a in byAccount then byAccount[a] else []
    requires forall a :: a in byAccount ==> |byAccount[a]| < TWO_64
    ensures SystemOf(users) == []
    ensures forall a :: SentBy(users, a) == Accepted(account(a), SentBy(txs, a))
  {
    hide SentBy, SystemOf, Accepted, AllSentBy, Consecutive, Affordable;
    NothingSent();
    users := [];
    var todo := byAccount.Keys;
    while todo != {}
      invariant todo <= byAccount.Keys && SystemOf(users) == []
      invariant forall a :: SentBy(users, a) ==
                            if a in byAccount && a !in todo then Accepted(account(a), byAccount[a]) else []
    {
      var a :| a in todo;
      SentByMembers(txs, a);
      var kept := FilterAccount(account(a), byAccount[a]);
      AcceptedConsecutive(account(a), byAccount[a]);
      AppendKept(users, kept, byAccount[a], a);
      users := users + kept;
      todo := todo - {a};
    }
    forall a ensures SentBy(users, a) == Accepted(account(a), SentBy(txs, a)) {
      AcceptedNothing(account(a));
    }
  }

  predicate AllSentBy(txs: seq<Transaction>, a: string) {
    forall tx :: tx in txs ==> !IsSystem(tx.kind) && tx.from == a
  }

  lemma {:induction false} SentByMembers(txs: seq<Transaction>, a: string)
    ensures AllSentBy(SentBy(txs, a), a)
    ensures forall tx :: tx in SentBy(txs, a) ==> tx in txs
  {
    if txs != [] {
      SentByMembers(txs[..|txs| - 1], a);
    }
  }

  lemma {:induction false} SentByConcat(s: seq<Transaction>, t: seq<Transaction>, a: string)
    ensures SentBy(s + t, a) == SentBy(s, a) + SentBy(t, a)
    ensures SystemOf(s + t) == SystemOf(s) + SystemOf(t)
  {
    if t == [] {
      assert s + t == s;
    } else {
      assert (s + t)[..|s + t| - 1] == s + t[..|t| - 1];
      SentByConcat(s, t[..|t| - 1], a);
    }
  }

  lemma {:induction false} SentByOne(txs: seq<Transaction>, a: string, b: string)
    requires AllSentBy(txs, a)
    ensures SentBy(txs, b) == if a == b then txs else []
    ensures SystemOf(txs) == []
  {
    if txs != [] {
      var i := |txs| - 1;
      assert txs[i] in txs && AllSentBy(txs[..i], a);
      SentByOne(txs[..i], a, b);
      assert txs == txs[..i] + [txs[i]];
    }
  }

  lemma AppendKept(valid: seq<Transaction>, kept: seq<Transaction>, sent: seq<Transaction>, a: string)
    requires SystemOf(valid) == [] && SentBy(valid, a) == [] && AllSentBy(sent, a)
    requires forall tx :: tx in kept ==> tx in sent
    ensures SystemOf(valid + kept) == []
    ensures forall b :: SentBy(valid + kept, b) == if a == b then kept else SentBy(valid, b)
  {
    forall b ensures SentBy(valid + kept, b) == if a == b then kept else SentBy(valid, b) {
      SentByConcat(valid, kept, b);
      SentByOne(kept, a, b);
    }
    SentByConcat(valid, kept, a);
    SentByOne(kept, a, a);
  }

  lemma NothingSent()
    ensures forall a :: SentBy([], a) == []
    ensures SystemOf([]) == []
  {
  }

  lemma OneSystem(tx: Transaction, a: string)
    requires IsSystem(tx.kind)
    ensures SentBy([tx], a) == [] && SystemOf([tx]) == [tx]
  {
    assert [tx][..0] == [];
  }

  lemma {:induction false} SystemOnly(txs: seq<Transaction>, a: string)
    ensures SentBy(SystemOf(txs), a) == [] && SystemOf(SystemOf(txs)) == SystemOf(txs)
  {
    if txs == [] {
      assert SystemOf([]) == [];
    } else {
      var i := |txs| - 1;
      hide SentBy;
      SystemOnly(txs[..i], a);
      if IsSystem(txs[i].kind) {
        assert SystemOf(txs) == SystemOf(txs[..i]) + [txs[i]];
        hide SystemOf;
        SentByConcat(SystemOf(txs[..i]), [txs[i]], a);
        OneSystem(txs[i], a);
      } else {
        assert SystemOf(txs) == SystemOf(txs[..i]);
      }
    }
  }

  lemma AppendSystem(users: seq<Transaction>, txs: seq<Transaction>)
    requires SystemOf(users) == []
    ensures SystemOf(users + SystemOf(txs)) == SystemOf(txs)
    ensures forall a :: SentBy(users + SystemOf(txs), a) == SentBy(users, a)
  {
    hide SentBy, SystemOf;
    SentByConcat(users, SystemOf(txs), "");
    SystemOnly(txs, "");
    forall a ensures SentBy(users + SystemOf(txs), a) == SentBy(users, a) {
      SentByConcat(users, SystemOf(txs), a);
      SystemOnly(txs, a);
    }
  }

  // ---- executing the filtered list ----

  /** Every user transaction carries its sender's nonce advanced by the sender's earlier ones. */
  ghost predicate Pipelined(l: Ledger, txs: seq<Transaction>) {
    forall i :: 0 <= i < |txs| && !IsSystem(txs[i].kind) ==>
                  txs[i].nonce == (l[txs[i].from].nonce + |SentBy(txs[..i], txs[i].from)|) % TWO_64
  }

  /** A user transaction sits among its sender's transactions right after the sender's earlier ones. */
  lemma PlaceAmongSent(txs: seq<Transaction>, i: nat)
    requires i < |txs| && !IsSystem(txs[i].kind)
    ensures var sent, k := SentBy(txs, txs[i].from), |SentBy(txs[..i], txs[i].from)|;
            k < |sent| && sent[k] == txs[i]
  {
    var a := txs[i].from;
    assert txs[..i + 1][..i] == txs[..i];
    assert SentBy(txs[..i + 1], a) == SentBy(txs[..i], a) + [txs[i]];
    hide SentBy;
    assert txs == txs[..i + 1] + txs[i + 1..];
    SentByConcat(txs[..i + 1], txs[i + 1..], a);
  }

  /** Consecutive nonces per account make the whole list a pipeline, however accounts interleave. */
  lemma FilteredIsPipelined(l: Ledger, txs: seq<Transaction>, valid: seq<Transaction>)
    requires forall a :: SentBy(valid, a) == Accepted(l[a], SentBy(txs, a))
    ensures Pipelined(l, valid)
  {
    hide SentBy, Accepted, Affordable;
    forall i | 0 <= i < |valid| && !IsSystem(valid[i].kind)
      ensures valid[i].nonce == (l[valid[i].from].nonce + |SentBy(valid[..i], valid[i].from)|) % TWO_64
    {
      PlaceAmongSent(valid, i);
      AcceptedConsecutive(l[valid[i].from], SentBy(txs, valid[i].from));
    }
  }

  /** In a run without error every authentic user transaction has spent a nonce. */
  lemma {:induction false} AllSpend(env: Env, l: Ledger, txs: seq<Transaction>, clock: nat -> int, a: string)
    requires RunStrict(env, l, txs, clock).error.None?
    requires forall tx :: tx in txs && !IsSystem(tx.kind) ==> Authentic(env, tx)
    ensures Spent(env, l, txs, a) == |SentBy(txs, a)|
  {
    if txs != [] {
      hide Exec;
      var i := |txs| - 1;
      var m := RunStrict(env, l, txs[..i], clock).ledger;
      assert txs[i] in txs && forall tx :: tx in txs[..i] ==> tx in txs;
      AllSpend(env, l, txs[..i], clock, a);
      ReplayRepeatsProduction(env, l, txs[..i], clock);
      ExecIgnoresClock(env, m, txs[i], clock(i), 0);
    }
  }

  lemma RightNonce(env: Env, l: Ledger, tx: Transaction, now: int)
    requires !IsSystem(tx.kind) ==> Authentic(env, tx) && tx.nonce == l[tx.from].nonce
    ensures Exec(env, l, tx, false, now) != Failed(WrongNonce)
  {
  }

  /** After an error-free run, a nonce has advanced by the number of transactions sent. */
  lemma NonceAfterRun(env: Env, l: Ledger, txs: seq<Transaction>, clock: nat -> int, a: string)
    requires RunStrict(env, l, txs, clock).error.None?
    requires forall tx :: tx in txs && !IsSystem(tx.kind) ==> Authentic(env, tx)
    ensures RunStrict(env, l, txs, clock).ledger[a].nonce == (l[a].nonce + |SentBy(txs, a)|) % TWO_64
  {
    hide Authentic, Spent, SentBy, RunStrict, RunLenient;
    AllSpend(env, l, txs, clock, a);
    ReplayRepeatsProduction(env, l, txs, clock);
    NonceCountsExecutions(env, l, txs, a);
  }

  lemma {:induction false} PipelineRuns(env: Env, l: Ledger, txs: seq<Transaction>, clock: nat -> int)
    requires Pipelined(l, txs)
    requires forall tx :: tx in txs && !IsSystem(tx.kind) ==> Authentic(env, tx)
    ensures RunStrict(env, l, txs, clock).error != Some(WrongNonce)
  {
    hide Exec, SentBy, Authentic, Pipelined;
    if txs != [] {
      var i := |txs| - 1;
      var r := RunStrict(env, l, txs[..i], clock);
      assert txs[i] in txs && forall tx :: tx in txs[..i] ==> tx in txs;
      PipelinedPrefix(l, txs);
      PipelineRuns(env, l, txs[..i], clock);
      if r.error.None? {
        NonceAfterRun(env, l, txs[..i], clock, txs[i].from);
        RightNonce(env, r.ledger, txs[i], clock(i));
      }
    }
  }

  lemma PipelinedPrefix(l: Ledger, txs: seq<Transaction>)
    requires txs != [] && Pipelined(l, txs)
    ensures var i := |txs| - 1;
            Pipelined(l, txs[..i])
            && (IsSystem(txs[i].kind)
                || txs[i].nonce == (l[txs[i].from].nonce + |SentBy(txs[..i], txs[i].from)|) % TWO_64)
  {
    hide SentBy;
    assert forall j :: 0 <= j < |txs| - 1 ==> txs[..|txs| - 1][..j] == txs[..j];
  }

  /** Whatever the filter keeps, executing it in order never meets a wrong nonce. */
  lemma FilteredNeverMissesNonce(env: Env, l: Ledger, txs: seq<Transaction>, valid: seq<Transaction>, clock: nat -> int)
    requires forall a :: SentBy(valid, a) == Accepted(l[a], SentBy(txs, a))
    requires forall tx :: tx in valid && !IsSystem(tx.kind) ==> Authentic(env, tx)
    ensures RunStrict(env, l, valid, clock).error != Some(WrongNonce)
  {
    FilteredIsPipelined(l, txs, valid);
    PipelineRuns(env, l, valid, clock);
  }

  // ---- what the balance test means ----

  /** The test keeps a transfer, stake or unstake exactly when executing it alone would not end short. */
  lemma AffordableIff(env: Env, l: Ledger, tx: Transaction, now: int)
    requires tx.kind.Transfer? || tx.kind.Stake? || tx.kind.Unstake?
    requires Authentic(env, tx) && WellFormed(env, tx, false, now)
    ensures Affordable(l[tx.from], tx) <==>
            Exec(env, l, tx, false, now) !in {Failed(ShortOfBalance), Failed(ShortOfStake)}
    ensures tx.nonce == l[tx.from].nonce ==> (Affordable(l[tx.from], tx) <==> Exec(env, l, tx, false, now).Done?)
  {
    hide WellFormed, TransferLedger, StakeLedger, UnstakeLedger;
  }

  /** A transaction of such a kind is kept exactly when it continues the nonce and would not end short. */
  lemma KeptIff(env: Env, l: Ledger, a: string, txs: seq<Transaction>, i: nat, now: int)
    requires i < |txs| && txs[i].from == a && (txs[i].kind.Transfer? || txs[i].kind.Stake? || txs[i].kind.Unstake?)
    requires Authentic(env, txs[i]) && WellFormed(env, txs[i], false, now)
    ensures
      var kept := Accepted(l[a], txs[..i]);
      Accepted(l[a], txs[..i + 1]) ==
      if txs[i].nonce == (l[a].nonce + |kept|) % TWO_64
         && Exec(env, l, txs[i], false, now) !in {Failed(ShortOfBalance), Failed(ShortOfStake)}
      then kept + [txs[i]] else kept
  {
    hide Exec, WellFormed, Authentic, Accepted, Affordable;
    AcceptedNext(l[a], txs, i);
    AffordableIff(env, l, txs[i], now);
  }

  // ---- when the filtered list runs without error ----

  /** What an executed transaction adds to the available balance of `a`. */
  ghost function Net(tx: Transaction, a: string): int {
    match tx.kind
    case Transfer =>
      (if a == tx.from then 0 - tx.amount - tx.gasFee else 0) + (if a == tx.to then tx.amount else 0)
      + (if a == GENESIS && tx.to != GENESIS then tx.gasFee else 0)
    case Stake => if a == tx.from then 0 - tx.amount else 0
    case Unstake => if a == tx.from then tx.amount else 0
    case Reward =>
      (if a == GENESIS && !Mints(tx) then 0 - tx.amount else 0) + (if a == tx.to then tx.amount else 0)
    case Slash =>
      if Mints(tx) then if a == tx.to then tx.amount else 0
      else (if a == tx.from then 0 - tx.amount else 0) + (if a == GENESIS then tx.amount else 0)
    case Unknown(_) => 0
  }

  /** What an executed transaction adds to the stake of `a`. */
  ghost function NetStake(tx: Transaction, a: string): int {
    if a != tx.from then 0 else if tx.kind.Stake? then tx.amount else if tx.kind.Unstake? then 0 - tx.amount else 0
  }

  ghost function Flow(txs: seq<Transaction>, a: string): int {
    if txs == [] then 0 else var i := |txs| - 1; Flow(txs[..i], a) + Net(txs[i], a)
  }

  ghost function StakeFlow(txs: seq<Transaction>, a: string): int {
    if txs == [] then 0 else var i := |txs| - 1; StakeFlow(txs[..i], a) + NetStake(txs[i], a)
  }

  /** The payer has enough, given the sender's available balance and stake and what genesis has. */
  ghost predicate Funded(tx: Transaction, available: int, staked: int, genesis: int) {
    match tx.kind
    case Transfer => Add(tx.amount, tx.gasFee) <= available
    case Stake => tx.amount <= available
    case Unstake => tx.amount <= staked
    case Reward => Mints(tx) || (tx.from == GENESIS && tx.to == GENESIS) || tx.amount <= genesis
    case Slash => Mints(tx) || (tx.from == GENESIS && tx.to == GENESIS) || tx.amount <= available
    case Unknown(_) => false
  }

  /** Every transaction is funded by the balances before the block plus what the earlier ones add, modulo 2^64. */
  ghost predicate Solvent(l: Ledger, txs: seq<Transaction>) {
    forall i :: 0 <= i < |txs| ==> FundedAfter(l, txs[..i], txs[i])
  }

  ghost predicate FundedAfter(l: Ledger, before: seq<Transaction>, tx: Transaction) {
    Funded(tx, (l[tx.from].available + Flow(before, tx.from)) % TWO_64,
           (l[tx.from].staked + StakeFlow(before, tx.from)) % TWO_64,
           (l[GENESIS].available + Flow(before, GENESIS)) % TWO_64)
  }

  /** Signatures, addresses and stateless checks are in order; `now` is the time of execution. */
  ghost predicate Presentable(env: Env, tx: Transaction, now: int) {
    IsSystem(tx.kind) || (Authentic(env, tx) && WellFormed(env, tx, false, now))
  }

  ghost predicate RightNonceFor(l: Ledger, tx: Transaction) {
    IsSystem(tx.kind) || tx.nonce == l[tx.from].nonce
  }

  /** A presentable transaction with the right nonce runs exactly when it is funded. */
  lemma RunsIffFunded(env: Env, l: Ledger, tx: Transaction, now: int)
    requires Presentable(env, tx, now) && RightNonceFor(l, tx)
    ensures Exec(env, l, tx, false, now).Done? <==>
            Funded(tx, l[tx.from].available, l[tx.from].staked, l[GENESIS].available)
  {
    hide TransferLedger, StakeLedger, UnstakeLedger;
  }

  lemma TransferNet(l: Ledger, tx: Transaction, a: string)
    requires tx.kind.Transfer? && Add(tx.amount, tx.gasFee) <= l[tx.from].available
    ensures TransferLedger(l, tx)[a].available == (l[a].available + Net(tx, a)) % TWO_64
    ensures TransferLedger(l, tx)[a].staked == l[a].staked
  {
    hide TransferLedger;
    TransferPostings(l, tx, a);
    ShiftMod(l[a].available + Net(tx, a), if a == tx.from then Carry(tx.amount, tx.gasFee) else 0);
  }

  lemma SystemNet(l: Ledger, tx: Transaction, a: string)
    requires IsSystem(tx.kind) && ExecSystem(l, tx).Done?
    ensures ExecSystem(l, tx).ledger[a].available == (l[a].available + Net(tx, a)) % TWO_64
    ensures ExecSystem(l, tx).ledger[a].staked == l[a].staked
  {
    hide Credit, Debit;
    assert |GENESIS| > 0;
    if tx.from == GENESIS && tx.to == GENESIS {
    } else if tx.from == "" {
      CreditNet(l, tx.to, tx.amount, a);
    } else if tx.kind.Reward? {
      MoveNet(l, GENESIS, tx.to, tx.amount, a);
    } else {
      MoveNet(l, tx.from, GENESIS, tx.amount, a);
    }
  }

  lemma CreditNet(l: Ledger, payee: string, amount: uint64, a: string)
    ensures Credit(l, payee, amount)[a].available == (l[a].available + if a == payee then amount else 0) % TWO_64
    ensures Credit(l, payee, amount)[a].staked == l[a].staked
  {
  }

  lemma MoveNet(l: Ledger, payer: string, payee: string, amount: uint64, a: string)
    requires amount <= l[payer].available
    ensures
      var moved := Credit(Debit(l, payer, amount), payee, amount)[a];
      && moved.staked == l[a].staked
      && moved.available ==
         (l[a].available - (if a == payer then amount else 0) + (if a == payee then amount else 0)) % TWO_64
  {
    hide Credit;
    CreditNet(Debit(l, payer, amount), payee, amount, a);
  }

  /** Balances after an executed transaction, modulo 2^64. */
  lemma ExecNet(env: Env, l: Ledger, tx: Transaction, now: int, a: string)
    requires Presentable(env, tx, now) && Exec(env, l, tx, false, now).Done?
    ensures Exec(env, l, tx, false, now).ledger[a].available == (l[a].available + Net(tx, a)) % TWO_64
    ensures Exec(env, l, tx, false, now).ledger[a].staked == (l[a].staked + NetStake(tx, a)) % TWO_64
  {
    hide TransferLedger, ExecSystem, WellFormed;
    if IsSystem(tx.kind) {
      SystemNet(l, tx, a);
    } else if tx.kind.Transfer? {
      TransferNet(l, tx, a);
    }
  }

  ghost predicate AllPresentable(env: Env, txs: seq<Transaction>, clock: nat -> int) {
    forall i :: 0 <= i < |txs| ==> Presentable(env, txs[i], clock(i))
  }

  lemma ModAdd(x: int, y: int)
    ensures (x % TWO_64 + y) % TWO_64 == (x + y) % TWO_64
  {
    ShiftMod(x % TWO_64 + y, x / TWO_64);
  }

  /** After an error-free run the balances are those before plus the flows of the list, modulo 2^64. */
  lemma {:induction false} FlowsAfterRun(env: Env, l: Ledger, txs: seq<Transaction>, clock: nat -> int, a: string)
    requires AllPresentable(env, txs, clock) && RunStrict(env, l, txs, clock).error.None?
    ensures RunStrict(env, l, txs, clock).ledger[a].available == (l[a].available + Flow(txs, a)) % TWO_64
    ensures RunStrict(env, l, txs, clock).ledger[a].staked == (l[a].staked + StakeFlow(txs, a)) % TWO_64
  {
    hide Exec, Net, NetStake, Presentable;
    if txs != [] {
      var i := |txs| - 1;
      FlowsAfterRun(env, l, txs[..i], clock, a);
      ExecNet(env, RunStrict(env, l, txs[..i], clock).ledger, txs[i], clock(i), a);
      ModAdd(l[a].available + Flow(txs[..i], a), Net(txs[i], a));
      ModAdd(l[a].staked + StakeFlow(txs[..i], a), NetStake(txs[i], a));
    }
  }

  /** The next transaction of an error-free run executes exactly when it is funded. */
  lemma NextRunsIff(env: Env, l: Ledger, before: seq<Transaction>, tx: Transaction, clock: nat -> int, now: int)
    requires AllPresentable(env, before, clock) && RunStrict(env, l, before, clock).error.None?
    requires Presentable(env, tx, now) && RightNonceFor(RunStrict(env, l, before, clock).ledger, tx)
    ensures Exec(env, RunStrict(env, l, before, clock).ledger, tx, false, now).Done? <==> FundedAfter(l, before, tx)
  {
    hide Exec, RunStrict, AllPresentable, Presentable, RightNonceFor, Mints, Flow, StakeFlow;
    RunsIffFunded(env, RunStrict(env, l, before, clock).ledger, tx, now);
    FlowsAfterRun(env, l, before, clock, tx.from);
    FlowsAfterRun(env, l, before, clock, GENESIS);
  }

  /**
   A pipeline of presentable transactions runs without any error if and only if every one of them is
   funded by the balances before the block and the flows of those before it.
   */
  lemma {:induction false} PipelineRunsIff(env: Env, l: Ledger, txs: seq<Transaction>, clock: nat -> int)
    requires AllPresentable(env, txs, clock) && Pipelined(l, txs)
    ensures RunStrict(env, l, txs, clock).error.None? <==> Solvent(l, txs)
  {
    hide Exec, Pipelined, Presentable, FundedAfter, SentBy;
    if txs != [] {
      var i := |txs| - 1;
      PipelinedPrefix(l, txs);
      PipelineRunsIff(env, l, txs[..i], clock);
      SolventPrefix(l, txs);
      if RunStrict(env, l, txs[..i], clock).error.None? {
        NonceNext(env, l, txs, clock);
        NextRunsIff(env, l, txs[..i], txs[i], clock, clock(i));
      }
    }
  }

  lemma SolventPrefix(l: Ledger, txs: seq<Transaction>)
    requires txs != []
    ensures Solvent(l, txs) <==> Solvent(l, txs[..|txs| - 1]) && FundedAfter(l, txs[..|txs| - 1], txs[|txs| - 1])
  {
    hide FundedAfter;
    var n := |txs| - 1;
    assert forall i :: 0 <= i < n ==> txs[..n][..i] == txs[..i] && txs[..n][i] == txs[i];
  }

  lemma NonceNext(env: Env, l: Ledger, txs: seq<Transaction>, clock: nat -> int)
    requires txs != [] && Pipelined(l, txs) && AllPresentable(env, txs, clock)
    requires RunStrict(env, l, txs[..|txs| - 1], clock).error.None?
    ensures RightNonceFor(RunStrict(env, l, txs[..|txs| - 1], clock).ledger, txs[|txs| - 1])
  {
    hide RunStrict, Pipelined, SentBy, WellFormed, Authentic;
    var i := |txs| - 1;
    PipelinedPrefix(l, txs);
    forall tx | tx in txs[..i] && !IsSystem(tx.kind) ensures Authentic(env, tx) {
      var j :| 0 <= j < i && txs[j] == tx;
      assert Presentable(env, txs[j], clock(j));
    }
    NonceAfterRun(env, l, txs[..i], clock, txs[i].from);
  }

  /** What the filter keeps runs without error if and only if it is solvent. */
  lemma FilteredRunsIff(
    env: Env, l: Ledger, txs: seq<Transaction>, valid: seq<Transaction>, clock: nat -> int)
    requires forall a :: SentBy(valid, a) == Accepted(l[a], SentBy(txs, a))
    requires AllPresentable(env, valid, clock)
    ensures RunStrict(env, l, valid, clock).error.None? <==> Solvent(l, valid)
  {
    hide AllPresentable, RunStrict, Solvent, Accepted, SentBy, Pipelined;
    FilteredIsPipelined(l, txs, valid);
    PipelineRunsIff(env, l, valid, clock);
  }

  // ---- within the supply the flows are plain sums ----

  /** A balance within the supply that is a sum modulo 2^64, one small step from another, is the plain sum. */
  lemma PlainStep(env: Env, keys: set<string>, l: Ledger, tx: Transaction, now: int, a: string)
    requires Presentable(env, tx, now) && tx.amount + tx.gasFee < TWO_64 && !Mints(tx)
    requires Reach(env, tx) <= keys && Supply(keys, l) <= TOTAL_SUPPLY && Exec(env, l, tx, false, now).Done?
    ensures Exec(env, l, tx, false, now).ledger[a].available == l[a].available + Net(tx, a)
    ensures Exec(env, l, tx, false, now).ledger[a].staked == l[a].staked + NetStake(tx, a)
  {
    hide Exec, Supply, Presentable;
    ExecNet(env, l, tx, now, a);
    BalanceBound(keys, l, tx.from, tx.from);
    BalanceBound(keys, l, GENESIS, GENESIS);
    if a in keys {
      BalanceBound(keys, l, a, a);
    }
    PaidFrom(env, l, tx, now);
  }

  /** An executed transaction that mints nothing is paid out of a balance. */
  lemma PaidFrom(env: Env, l: Ledger, tx: Transaction, now: int)
    requires Presentable(env, tx, now) && tx.amount + tx.gasFee < TWO_64 && !Mints(tx)
    requires Exec(env, l, tx, false, now).Done?
    ensures match tx.kind
            case Transfer => tx.amount + tx.gasFee <= l[tx.from].available
            case Stake => tx.amount <= l[tx.from].available
            case Unstake => tx.amount <= l[tx.from].staked
            case Reward => (tx.from == GENESIS && tx.to == GENESIS) || tx.amount <= l[GENESIS].available
            case Slash => (tx.from == GENESIS && tx.to == GENESIS) || tx.amount <= l[tx.from].available
            case Unknown(_) => false
  {
    hide TransferLedger, WellFormed;
  }

  /** In an error-free run of ordinary transactions within the supply nothing wraps. */
  lemma {:induction false} PlainFlows(
    env: Env, keys: set<string>, l: Ledger, txs: seq<Transaction>, clock: nat -> int, a: string)
    requires Supply(keys, l) <= TOTAL_SUPPLY && Ordinary(env, keys, txs) && AllPresentable(env, txs, clock)
    requires RunStrict(env, l, txs, clock).error.None?
    ensures RunStrict(env, l, txs, clock).ledger[a].available == l[a].available + Flow(txs, a)
    ensures RunStrict(env, l, txs, clock).ledger[a].staked == l[a].staked + StakeFlow(txs, a)
  {
    hide Exec, Net, NetStake, Presentable, Reach, Mints, Supply;
    if txs != [] {
      var i := |txs| - 1;
      assert txs[i] in txs && forall tx :: tx in txs[..i] ==> tx in txs;
      PlainFlows(env, keys, l, txs[..i], clock, a);
      WithinSupply(env, keys, l, txs[..i], clock);
      PlainStep(env, keys, RunStrict(env, l, txs[..i], clock).ledger, txs[i], clock(i), a);
    }
  }

  lemma WithinSupply(env: Env, keys: set<string>, l: Ledger, txs: seq<Transaction>, clock: nat -> int)
    requires Supply(keys, l) <= TOTAL_SUPPLY && Ordinary(env, keys, txs)
    requires RunStrict(env, l, txs, clock).error.None?
    ensures Supply(keys, RunStrict(env, l, txs, clock).ledger) <= TOTAL_SUPPLY
  {
    hide RunStrict, RunLenient, Supply, Ordinary;
    ReplayRepeatsProduction(env, l, txs, clock);
    OrdinaryRun(env, keys, l, txs);
  }

  /**
   The filter tests each transaction against the balance before the block, so it may keep two that
   cannot both be paid: two transfers of 9 with fee 1 from a balance of 10 pass the filter, and
   executing them ends with an error, so that no block is produced.
   */
  lemma FilterKeepsUnpayable(l: Ledger, from: string, to: string)
    returns (env: Env, txs: seq<Transaction>, clock: nat -> int)
    requires l[from].available == 10 && l[from].nonce == 0 && from != to && from != GENESIS && from != "" && to != ""
    ensures AllPresentable(env, txs, clock) && SentBy(txs, from) == txs && Accepted(l[from], txs) == txs
    ensures !Solvent(l, txs) && RunStrict(env, l, txs, clock).error == Some(ShortOfBalance)
  {
    hide Exec, RunStrict, TransferLedger, Accepted, SentBy, Solvent;
    env, clock := Env(1, 1000, 0, 0, 0, _ => true, _ => from), _ => 0;
    var tx := Transaction(TxType.Transfer, from, to, 9, 1, 0, 0, [], [1], [1]);
    txs := [tx, tx.(nonce := 1)];
    BothKept(l[from], tx);
    FirstPaid(env, l, tx);
    SecondUnpaid(env, TransferLedger(l, tx), txs[1]);
    RunOfTwo(env, l, tx, txs[1], clock);
    NotSolvent(l, tx);
  }

  lemma SecondUnpaid(env: Env, l: Ledger, tx: Transaction)
    requires Presentable(env, tx, 0) && tx.kind.Transfer? && tx.amount == 9 && tx.gasFee == 1
    requires l[tx.from].available == 0
    ensures Exec(env, l, tx, false, 0) == Failed(ShortOfBalance)
  {
  }

  lemma RunOfTwo(env: Env, l: Ledger, first: Transaction, second: Transaction, clock: nat -> int)
    requires Exec(env, l, first, false, clock(0)).Done?
    ensures
      var o := Exec(env, Exec(env, l, first, false, clock(0)).ledger, second, false, clock(1));
      RunStrict(env, l, [first, second], clock).error == if o.Failed? then Some(o.error) else None
  {
    hide Exec;
    assert [first, second][..1] == [first] && [first][..0] == [];
    assert RunStrict(env, l, [], clock) == Run(l, {}, None);
  }

  lemma NotSolvent(l: Ledger, tx: Transaction)
    requires tx.kind.Transfer? && tx.amount == 9 && tx.gasFee == 1 && l[tx.from].available == 10
    requires tx.from != tx.to && tx.from != GENESIS
    ensures !Solvent(l, [tx, tx.(nonce := 1)])
  {
    var txs := [tx, tx.(nonce := 1)];
    assert txs[..1] == [tx] && [tx][..0] == [];
    assert Flow([], tx.from) == 0 && Flow([tx], tx.from) == -10;
    assert !FundedAfter(l, txs[..1], txs[1]);
  }

  lemma BothKept(d: AccountData, tx: Transaction)
    requires d.available == 10 && d.nonce == 0 == tx.nonce && tx.kind.Transfer? && tx.amount == 9 && tx.gasFee == 1
    ensures var txs := [tx, tx.(nonce := 1)]; Accepted(d, txs) == txs && SentBy(txs, tx.from) == txs
  {
    var txs := [tx, tx.(nonce := 1)];
    assert txs[..1] == [tx] && [tx][..0] == [];
    assert Accepted(d, []) == [] == SentBy([], tx.from);
    assert Continues(d, [], tx);
    assert Accepted(d, [tx]) == [] + [tx] == [tx];
    assert SentBy([tx], tx.from) == [] + [tx] == [tx];
  }

  lemma FirstPaid(env: Env, l: Ledger, tx: Transaction)
    requires Presentable(env, tx, 0) && tx.kind.Transfer? && tx.amount == 9 && tx.gasFee == 1
    requires l[tx.from].available == 10 && l[tx.from].nonce == tx.nonce && tx.from != tx.to && tx.from != GENESIS
    ensures Exec(env, l, tx, false, 0) == Done(TransferLedger(l, tx), TransferTouched(tx), NoEvent)
    ensures TransferLedger(l, tx)[tx.from].available == 0
  {
    hide TransferLedger;
    TransferSteps(l, tx, tx.from);
  }
}
