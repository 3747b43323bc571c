/**
 The write-back account cache (state/state.go). Accounts are heap objects shared between the cache
 and running transactions; sender, receiver and genesis may be the same object. The manager is
 proved to behave as one plain ledger, `View()`.
 */
module StateManager {
  import opened Options
  import opened Uint64
  import opened Accounts
  import opened Transactions
  import opened Ledger
  import opened TotalSupply
  import opened Runs
  import opened ShardedStore

  /** A deep copy of cache and dirty marks (StateSnapshot). */
  datatype Snapshot = Snapshot(cache: map<string, AccountData>, dirty: set<string>)

  datatype TxResult = Success(event: Event) | Failure(error: Error)

  /** The stored map after writing the accounts in `dirty` from ledger `l`. */
  ghost function Flush(m: map<string, AccountData>, l: Ledger, dirty: set<string>): (r: map<string, AccountData>)
    requires Keyed(m)
    ensures Keyed(r)
  {
    m + Picked(l, dirty)
  }

  lemma TouchedSplit(dirty: set<string>, tx: Transaction)
    ensures dirty + (if tx.to != GENESIS then {GENESIS} else {}) + {tx.from, tx.to} == dirty + TransferTouched(tx)
  {
  }

  class Manager {
    const env: Env
    const db: Store
    var accountCache: map<string, Account>
    var dirtyAccounts: set<string>
    ghost var view: Ledger          // the ledger that readers of the manager see
    ghost var objects: set<object>  // the cached account objects

    /**
     Accounts sit under their own address, so different cache entries are different objects. A cached
     account hides the stored one in the ledger, whether it is dirty or not.
     */
    ghost predicate Shape()
      reads this, db, objects
    {
      && db.Valid()
      && dirtyAccounts <= accountCache.Keys
      && this !in objects && db !in objects
      && (forall a :: a in accountCache ==>
                        && accountCache[a] in objects && accountCache[a].address == a
                        && accountCache[a].Value() == view[a])
      && (forall a :: a !in accountCache ==> view[a] == StoredLedger(db.Contents())[a])
    }

    /** Cached accounts that are not marked dirty agree with the store. */
    ghost predicate Valid()
      reads this, db, objects
    {
      Shape() && forall a :: a !in dirtyAccounts ==> view[a] == StoredLedger(db.Contents())[a]
    }

    constructor (env: Env, db: Store)
      requires db.Valid()
      ensures this.env == env && this.db == db && accountCache == map[] && dirtyAccounts == {} && objects == {}
      ensures Valid() && view == StoredLedger(db.Contents())
    {
      this.env, this.db := env, db;
      accountCache, dirtyAccounts, objects := map[], {}, {};
      view := StoredLedger(db.Contents());
    }

    /** Cached objects stay cached, and new ones are freshly allocated. */
    twostate predicate Grown()
      reads this
    {
      && (forall a :: a in old(accountCache) ==> a in accountCache && accountCache[a] == old(accountCache[a]))
      && old(objects) <= objects && fresh(objects - old(objects))
    }

    /** `acc` is the cached object of its address. */
    ghost predicate Cached(acc: Account)
      reads this
    {
      acc.address in accountCache && accountCache[acc.address] == acc
    }

    method GetAccount(address: string) returns (acc: Account)
      requires Shape()
      modifies this`accountCache, this`objects
      ensures Shape() && acc.address == address && Cached(acc)
      ensures Grown() && accountCache.Keys == old(accountCache.Keys) + {address}
    {
      if address in accountCache {
        return accountCache[address];
      }
      var d := db.GetAccount(address);
      acc := Remember(d);
    }

    /** Caches an account read from the store. */
    method Remember(d: AccountData) returns (acc: Account)
      requires Shape() && d.address !in accountCache && d == view[d.address]
      modifies this`accountCache, this`objects
      ensures Shape() && accountCache == old(accountCache)[d.address := acc] && acc.address == d.address
      ensures fresh(acc) && objects == old(objects) + {acc}
    {
      acc := new Account(d);
      accountCache, objects := accountCache[d.address := acc], objects + {acc};
    }

    method UpdateAccount(account: Account)
      requires Shape() && Cached(account)
      modifies this`accountCache, this`dirtyAccounts
      ensures Shape() && accountCache == old(accountCache)
      ensures dirtyAccounts == old(dirtyAccounts) + {account.address}
    {
      accountCache := accountCache[account.address := account];
      dirtyAccounts := dirtyAccounts + {account.address};
    }

    // The next methods mutate a cached object in place, as AddBalance, SubBalance, Stake,
    // Unstake and Nonce++ do, and say what that does to the ledger.

    method AddBalanceTo(acc: Account, amount: uint64)
      requires Shape() && Cached(acc)
      modifies acc, this`view
      ensures Shape() && view == Credit(old(view), acc.address, amount)
    {
      acc.AddBalance(amount);
      view := Credit(view, acc.address, amount);
    }

    method SubBalanceOf(acc: Account, amount: uint64) returns (ok: bool)
      requires Shape() && Cached(acc)
      modifies acc, this`view
      ensures Shape() && (ok <==> amount <= old(view)[acc.address].available)
      ensures view == if ok then Debit(old(view), acc.address, amount) else old(view)
    {
      ok := acc.SubBalance(amount);
      if ok {
        view := Debit(view, acc.address, amount);
      }
    }

    method StakeOf(acc: Account, amount: uint64) returns (ok: bool)
      requires Shape() && Cached(acc)
      modifies acc, this`view
      ensures Shape() && (ok <==> amount <= old(view)[acc.address].available)
      ensures view == if ok then old(view)[acc.address := Staked(old(view)[acc.address], amount)] else old(view)
    {
      ok := acc.Stake(amount);
      if ok {
        view := view[acc.address := Staked(view[acc.address], amount)];
      }
    }

    method UnstakeOf(acc: Account, amount: uint64) returns (ok: bool)
      requires Shape() && Cached(acc)
      modifies acc, this`view
      ensures Shape() && (ok <==> amount <= old(view)[acc.address].staked)
      ensures view == if ok then old(view)[acc.address := Unstaked(old(view)[acc.address], amount)] else old(view)
    {
      ok := acc.Unstake(amount);
      if ok {
        view := view[acc.address := Unstaked(view[acc.address], amount)];
      }
    }

    /** Empties an account and demotes it. */
    method Strip(acc: Account)
      requires Shape() && Cached(acc)
      modifies acc, this`view
      ensures Shape() && view == old(view)[acc.address := Stripped(old(view)[acc.address])]
    {
      acc.Strip();
      view := view[acc.address := Stripped(view[acc.address])];
    }

    method IncrementNonce(acc: Account)
      requires Shape() && Cached(acc)
      modifies acc, this`view
      ensures Shape() && view == BumpNonce(old(view), acc.address)
    {
      acc.nonce := Add(acc.nonce, 1);
      view := BumpNonce(view, acc.address);
    }

    method BumpAndMark(acc: Account)
      requires Shape() && Cached(acc)
      modifies acc, this`view, this`accountCache, this`dirtyAccounts
      ensures Shape() && accountCache == old(accountCache) && view == BumpNonce(old(view), acc.address)
      ensures dirtyAccounts == old(dirtyAccounts) + {acc.address}
    {
      IncrementNonce(acc);
      UpdateAccount(acc);
    }

    /** GetAccount, AddBalance, UpdateAccount. */
    method CreditAndMark(address: string, amount: uint64)
      requires Shape()
      modifies this, objects
      ensures Shape() && Grown()
      ensures view == Credit(old(view), address, amount)
      ensures dirtyAccounts == old(dirtyAccounts) + {address}
    {
      var acc := GetAccount(address);
      AddBalanceTo(acc, amount);
      UpdateAccount(acc);
    }

    /** The accounts of sender and receiver, which are one object when the addresses coincide. */
    method GetParties(from: string, to: string) returns (sender: Account, receiver: Account)
      requires Shape()
      modifies this`accountCache, this`objects
      ensures Shape() && Grown()
      ensures sender.address == from && Cached(sender) && receiver.address == to && Cached(receiver)
    {
      sender := GetAccount(from);
      receiver := GetAccount(to);
    }

    method ExecuteTransfer(tx: Transaction) returns (ok: bool)
      requires Shape()
      modifies this, objects
      ensures Shape() && Grown()
      ensures ok <==> Add(tx.amount, tx.gasFee) <= old(view)[tx.from].available
      ensures ok ==> view == TransferLedger(old(view), tx)
      ensures dirtyAccounts == old(dirtyAccounts) + if ok then TransferTouched(tx) else {}
      ensures !ok ==> view == old(view)
    {
      var sender, receiver := GetParties(tx.from, tx.to);
      ok := SubBalanceOf(sender, Add(tx.amount, tx.gasFee));
      if !ok {
        return;
      }
      Deliver(sender, receiver, tx);
    }

    /** executeTransfer after the sender has been debited. */
    method Deliver(sender: Account, receiver: Account, tx: Transaction)
      requires Shape() && Cached(sender) && Cached(receiver)
      requires sender.address == tx.from && receiver.address == tx.to
      modifies this, objects
      ensures Shape() && Grown()
      ensures view == Delivered(BumpNonce(old(view), tx.from), tx)
      ensures dirtyAccounts == old(dirtyAccounts) + TransferTouched(tx)
    {
      PayReceiver(sender, receiver, tx.amount);
      PayFee(tx);
      UpdateParties(sender, receiver);
      TouchedSplit(old(dirtyAccounts), tx);
    }

    method PayReceiver(sender: Account, receiver: Account, amount: uint64)
      requires Shape() && Cached(sender) && Cached(receiver)
      modifies sender, receiver, this`view
      ensures Shape() && view == Credit(BumpNonce(old(view), sender.address), receiver.address, amount)
    {
      IncrementNonce(sender);
      AddBalanceTo(receiver, amount);
    }

    method UpdateParties(sender: Account, receiver: Account)
      requires Shape() && Cached(sender) && Cached(receiver)
      modifies this`accountCache, this`dirtyAccounts
      ensures Shape() && accountCache == old(accountCache)
      ensures dirtyAccounts == old(dirtyAccounts) + {sender.address, receiver.address}
    {
      UpdateAccount(sender);
      UpdateAccount(receiver);
    }

    /** The fee step of executeTransfer: skipped when the receiver is genesis itself. */
    method PayFee(tx: Transaction)
      requires Shape()
      modifies this, objects
      ensures Shape() && Grown()
      ensures view == if tx.to != GENESIS then Credit(old(view), GENESIS, tx.gasFee) else old(view)
      ensures dirtyAccounts == old(dirtyAccounts) + if tx.to != GENESIS then {GENESIS} else {}
    {
      if tx.to != GENESIS {
        CreditAndMark(GENESIS, tx.gasFee);
      }
    }

    method ExecuteStake(tx: Transaction) returns (ok: bool, event: Event)
      requires Shape()
      modifies this, objects
      ensures Shape() && Grown()
      ensures ok <==> tx.amount <= old(view)[tx.from].available
      ensures ok ==> view == StakeLedger(old(view), tx) && event == StakeEvent(env, old(view), view, tx.from)
      ensures ok ==> dirtyAccounts == old(dirtyAccounts) + {tx.from}
      ensures !ok ==> view == old(view) && dirtyAccounts == old(dirtyAccounts)
    {
      var account := GetAccount(tx.from);
      var wasValidator := IsValidator(account.Value(), env.stakeRequired);
      event := NoEvent;
      ok := StakeOf(account, tx.amount);
      if ok {
        BumpAndMark(account);
        if !wasValidator && IsValidator(account.Value(), env.stakeRequired) {
          event := Joined(tx.from, account.stakedBalance);
        }
      }
    }

    method ExecuteUnstake(tx: Transaction) returns (ok: bool, event: Event)
      requires Shape()
      modifies this, objects
      ensures Shape() && Grown()
      ensures ok <==> tx.amount <= old(view)[tx.from].staked
      ensures ok ==> view == UnstakeLedger(old(view), tx) && event == UnstakeEvent(env, old(view), view, tx.from)
      ensures ok ==> dirtyAccounts == old(dirtyAccounts) + {tx.from}
      ensures !ok ==> view == old(view) && dirtyAccounts == old(dirtyAccounts)
    {
      var account := GetAccount(tx.from);
      var wasValidator := IsValidator(account.Value(), env.stakeRequired);
      event := NoEvent;
      ok := UnstakeOf(account, tx.amount);
      if ok {
        BumpAndMark(account);
        if wasValidator && !IsValidator(account.Value(), env.stakeRequired) {
          event := Left(tx.from);
        }
      }
    }

    /** GetAccount, SubBalance, UpdateAccount. */
    method DebitAndMark(address: string, amount: uint64) returns (ok: bool)
      requires Shape()
      modifies this, objects
      ensures Shape() && Grown()
      ensures ok <==> amount <= old(view)[address].available
      ensures view == if ok then Debit(old(view), address, amount) else old(view)
      ensures dirtyAccounts == old(dirtyAccounts) + if ok then {address} else {}
    {
      var acc := GetAccount(address);
      ok := SubBalanceOf(acc, amount);
      if ok {
        UpdateAccount(acc);
      }
    }

    /** Debits one account and credits another, possibly the same one, in that order. */
    method Move(payer: string, payee: string, amount: uint64) returns (ok: bool)
      requires Shape()
      modifies this, objects
      ensures Shape() && Grown()
      ensures ok <==> amount <= old(view)[payer].available
      ensures view == if ok then Credit(Debit(old(view), payer, amount), payee, amount) else old(view)
      ensures dirtyAccounts == old(dirtyAccounts) + if ok then {payer, payee} else {}
    {
      ok := DebitAndMark(payer, amount);
      if ok {
        CreditAndMark(payee, amount);
      }
    }

    method ExecuteSystemTx(tx: Transaction) returns (r: TxResult)
      requires Shape() && IsSystem(tx.kind)
      modifies this, objects
      ensures Shape() && Grown()
      ensures Matches(r, old(view), old(dirtyAccounts), ExecSystem(old(view), tx))
    {
      if tx.from == GENESIS && tx.to == GENESIS {
        return Success(NoEvent);
      }
      if tx.from == "" {
        CreditAndMark(tx.to, tx.amount);
        return Success(NoEvent);
      }
      if tx.kind.Reward? {
        var ok := Move(GENESIS, tx.to, tx.amount);
        return if ok then Success(NoEvent) else Failure(GenesisShort);
      }
      var ok := Move(tx.from, GENESIS, tx.amount);
      return if ok then Success(NoEvent) else Failure(SlashedShort);
    }

    method ConfiscateAllFunds(attackerAddr: string) returns (r: TxResult)
      requires Shape()
      modifies this, objects
      ensures Shape() && Grown()
      ensures Matches(r, old(view), old(dirtyAccounts), Confiscate(old(view), attackerAddr))
    {
      if attackerAddr == GENESIS {
        return Failure(GenesisExempt);
      }
      var attacker := GetAccount(attackerAddr);
      var totalFunds := Add(attacker.availableBalance, attacker.stakedBalance);
      if totalFunds == 0 {
        return Success(NoEvent);
      }
      Seize(attacker, totalFunds);
      r := Success(NoEvent);
    }

    /** Moves everything an account holds to genesis. */
    method Seize(attacker: Account, totalFunds: uint64)
      requires Shape() && Cached(attacker) && attacker.address != GENESIS
      modifies this, objects
      ensures Shape() && Grown()
      ensures
        view == Credit(old(view), GENESIS, totalFunds)[attacker.address := Stripped(old(view)[attacker.address])]
      ensures dirtyAccounts == old(dirtyAccounts) + {attacker.address, GENESIS}
    {
      var genesis := GetAccount(GENESIS);
      AddBalanceTo(genesis, totalFunds);
      StripAndMark(attacker, genesis);
    }

    method StripAndMark(attacker: Account, genesis: Account)
      requires Shape() && Cached(attacker) && Cached(genesis)
      modifies attacker, this`view, this`accountCache, this`dirtyAccounts
      ensures Shape() && accountCache == old(accountCache)
      ensures view == old(view)[attacker.address := Stripped(old(view)[attacker.address])]
      ensures dirtyAccounts == old(dirtyAccounts) + {attacker.address, genesis.address}
    {
      Strip(attacker);
      UpdateParties(attacker, genesis);
    }

    /** The manager's state and answer are those that outcome `o` prescribes. */
    ghost predicate Matches(r: TxResult, before: Ledger, dirty: set<string>, o: Outcome)
      requires o.Done? ==> IsLedger(o.ledger)
      reads this
    {
      && view == After(before, o)
      && dirtyAccounts == dirty + Touched(o)
      && r == if o.Failed? then Failure(o.error) else Success(o.event)
    }

    method ExecuteUserTx(tx: Transaction) returns (r: TxResult)
      requires Shape()
      modifies this, objects
      ensures Shape() && Grown()
      ensures Matches(r, old(view), old(dirtyAccounts), ExecUser(env, old(view), tx))
    {
      var refusal := CheckFunds(tx);
      if refusal.Some? {
        return Failure(refusal.value);
      }
      r := Dispatch(tx);
    }

    /** Steps 3 and 4 of ExecuteTransaction: funds, then nonce. */
    method CheckFunds(tx: Transaction) returns (refusal: Option<Error>)
      requires Shape()
      modifies this`accountCache, this`objects
      ensures Shape() && Grown()
      ensures refusal == if !Covered(view, tx) then Some(if tx.kind.Unstake? then ShortOfStake else ShortOfBalance)
                         else if tx.nonce != view[tx.from].nonce then Some(WrongNonce) else None
    {
      var sender := GetAccount(tx.from);
      if tx.kind.Unstake? {
        if sender.stakedBalance < tx.amount {
          return Some(ShortOfStake);
        }
      } else {
        var required := if tx.kind.Transfer? then Add(tx.amount, tx.gasFee) else tx.amount;
        if sender.availableBalance < required {
          return Some(ShortOfBalance);
        }
      }
      return if tx.nonce != sender.nonce then Some(WrongNonce) else None;
    }

    /** Step 5 of ExecuteTransaction. */
    method Dispatch(tx: Transaction) returns (r: TxResult)
      requires Shape() && Covered(view, tx) && tx.nonce == view[tx.from].nonce
      modifies this, objects
      ensures Shape() && Grown()
      ensures Matches(r, old(view), old(dirtyAccounts), ExecUser(env, old(view), tx))
    {
      match tx.kind
      case Transfer =>
        var ok := ExecuteTransfer(tx);
        r := Success(NoEvent);
      case Stake =>
        var ok, event := ExecuteStake(tx);
        r := Success(event);
      case Unstake =>
        var ok, event := ExecuteUnstake(tx);
        r := Success(event);
      case _ =>
        r := Failure(UnknownKind);
    }

    /**
     ExecuteTransaction does to the cached accounts exactly what `Exec` does to the plain ledger; a
     transaction that fails leaves the ledger and the dirty marks alone.
     */
    method ExecuteTransaction(tx: Transaction, skipTimestamp: bool, now: int) returns (r: TxResult)
      requires Valid()
      modifies this, objects
      ensures Valid() && Grown()
      ensures Matches(r, old(view), old(dirtyAccounts), Exec(env, old(view), tx, skipTimestamp, now))
    {
      if IsSystem(tx.kind) {
        r := ExecuteSystemTx(tx);
      } else if !WellFormed(env, tx, skipTimestamp, now) {
        r := Failure(Malformed);
      } else if !env.verifies(tx) {
        r := ConfiscateAllFunds(tx.from);
      } else if env.signer(tx.publicKey) != tx.from {
        r := ConfiscateAllFunds(env.signer(tx.publicKey));
      } else {
        r := ExecuteUserTx(tx);
      }
      forall a | a !in dirtyAccounts ensures view[a] == old(view)[a] {
        ExecFrame(env, old(view), tx, skipTimestamp, now, a);
      }
    }

    /** Stored accounts overlaid by cached ones. */
    ghost function Merged(): (m: map<string, AccountData>)
      reads this, db, objects
      requires Shape()
      ensures Keyed(m) && StoredLedger(m) == view
    {
      db.Contents() + Picked(view, accountCache.Keys)
    }

    /** GetAllAccountsMerged, also the first half of P0 check, state root and checkpoint snapshot. */
    method MergeAccounts() returns (m: map<string, AccountData>)
      requires Shape()
      ensures m == Merged()
    {
      var stored := db.GetAllAccounts();
      m := map[];
      for i := 0 to |stored|
        invariant m == MapOf(stored[..i])
      {
        MapOfPush(stored[..i], stored[i]);
        assert stored[..i] + [stored[i]] == stored[..i + 1];
        m := m[stored[i].address := stored[i]];
      }
      assert stored[..|stored|] == stored;
      m := OverlayCache(m);
    }

    method OverlayCache(base: map<string, AccountData>) returns (m: map<string, AccountData>)
      requires Shape()
      ensures m == base + Picked(view, accountCache.Keys)
    {
      m := base;
      var pending := accountCache.Keys;
      while pending != {}
        invariant pending <= accountCache.Keys
        invariant m == base + Picked(view, accountCache.Keys - pending)
        decreases pending
      {
        var a :| a in pending;
        PickedStep(view, accountCache.Keys, pending, a);
        PlusAssociates(base, Picked(view, accountCache.Keys - pending), map[a := view[a]]);
        m := m + map[a := accountCache[a].Value()];
        pending := pending - {a};
      }
      assert accountCache.Keys - {} == accountCache.Keys;
    }

    /** The accounts that a commit writes. */
    method CollectDirty() returns (accounts: seq<AccountData>)
      requires Shape()
      ensures MapOf(accounts) == Picked(view, dirtyAccounts)
    {
      accounts := [];
      var pending := dirtyAccounts;
      while pending != {}
        invariant pending <= dirtyAccounts
        invariant MapOf(accounts) == Picked(view, dirtyAccounts - pending)
        decreases pending
      {
        var a :| a in pending;
        PickedStep(view, dirtyAccounts, pending, a);
        MapOfPush(accounts, accountCache[a].Value());
        accounts := accounts + [accountCache[a].Value()];
        pending := pending - {a};
      }
      assert dirtyAccounts - {} == dirtyAccounts;
    }

    method Commit()
      requires Valid()
      modifies this`dirtyAccounts, db
      ensures Valid() && dirtyAccounts == {} && db.stateHeight == old(db.stateHeight)
      ensures db.Contents() == Flush(old(db.Contents()), view, old(dirtyAccounts))
      ensures StoredLedger(db.Contents()) == view
    {
      if dirtyAccounts == {} {
        FlushNothing(db.Contents(), view);
        return;
      }
      WriteDirty(None);
    }

    /**
     The P0 gate sums the merged accounts but writes only the dirty ones. It nevertheless decides on
     the accounts that will be stored: they sum to the total supply modulo 2^64 if and only if the
     commit succeeds, and a refused commit leaves the store alone. When the sum itself is exact is the
     subject of `Node.CommittedBlockExactIff`.
     */
    method CommitWithP0Verify(height: nat) returns (ok: bool)
      requires Valid()
      modifies this`dirtyAccounts, db
      ensures Valid()
      ensures ok <==> Committable(old(db.Contents()), view, old(dirtyAccounts))
      ensures ok ==> db.Contents() == Flush(old(db.Contents()), view, old(dirtyAccounts)) && db.stateHeight == height
      ensures ok ==> P0(db.Contents().Keys, StoredLedger(db.Contents()))
      ensures ok ==> dirtyAccounts == {} && StoredLedger(db.Contents()) == view
      ensures !ok ==> unchanged(db) && dirtyAccounts == old(dirtyAccounts)
    {
      var _, correct := VerifyTotalSupply();
      ok := correct;
      GateDecidesOnStored(db.Contents(), accountCache.Keys, view, dirtyAccounts);
      if ok {
        WriteDirty(Some(height));
      }
    }

    /** VerifyTotalSupply: the wrapping sum over stored and cached accounts. */
    method VerifyTotalSupply() returns (totalSupply: uint64, isCorrect: bool)
      requires Shape()
      ensures totalSupply == Supply(db.Contents().Keys + accountCache.Keys, view) % TWO_64
      ensures isCorrect <==> P0(db.Contents().Keys + accountCache.Keys, view)
    {
      var accountMap := MergeAccounts();
      totalSupply := SumBalances(accountMap);
      assert accountMap.Keys == db.Contents().Keys + accountCache.Keys;
      isCorrect := totalSupply == TOTAL_SUPPLY;
    }

    /** Writes the dirty accounts and then the height, if one is given, and clears the marks. */
    method WriteDirty(height: Option<nat>)
      requires Valid()
      modifies this`dirtyAccounts, db
      ensures Valid() && dirtyAccounts == {}
      ensures db.stateHeight == if height.Some? then height.value else old(db.stateHeight)
      ensures db.Contents() == Flush(old(db.Contents()), view, old(dirtyAccounts))
      ensures StoredLedger(db.Contents()) == view
    {
      FlushIsView(db.Contents(), view, dirtyAccounts);
      var accounts := CollectDirty();
      match height {
        case Some(h) => db.SaveAccountsBatchWithHeight(accounts, h);
        case None => db.SaveAccountsBatch(accounts);
      }
      dirtyAccounts := {};
    }

    method CreateSnapshot() returns (s: Snapshot)
      requires Valid()
      ensures s.dirty == dirtyAccounts && s.cache == Picked(view, accountCache.Keys)
      ensures Fits(s, db.Contents()) && StoredLedger(db.Contents() + s.cache) == view
    {
      var cache := OverlayCache(map[]);
      assert map[] + Picked(view, accountCache.Keys) == Picked(view, accountCache.Keys);
      s := Snapshot(cache, dirtyAccounts);
      assert Merged() == db.Contents() + s.cache;
    }

    /**
     RestoreSnapshot refills the cache with new objects. The result agrees with the store where it is
     not dirty if and only if the snapshot still fits the store.
     */
    method RestoreSnapshot(s: Snapshot)
      requires db.Valid() && Keyed(s.cache) && s.dirty <= s.cache.Keys
      modifies this
      ensures Shape() && dirtyAccounts == s.dirty && accountCache.Keys == s.cache.Keys
      ensures view == StoredLedger(db.Contents() + s.cache)
      ensures fresh(objects)
      ensures Valid() <==> Fits(s, db.Contents())
    {
      Refill(s.cache);
      dirtyAccounts := s.dirty;
      FitsIff(s, db.Contents());
    }

    method Refill(cache: map<string, AccountData>)
      requires db.Valid() && Keyed(cache)
      modifies this
      ensures Shape() && dirtyAccounts == {} && accountCache.Keys == cache.Keys && fresh(objects)
      ensures view == StoredLedger(db.Contents() + cache)
    {
      ClearCache();
      var pending := cache.Keys;
      RefillEnds(db.Contents(), cache);
      while pending != {}
        invariant Refilled(cache, pending) && fresh(objects)
        decreases pending
      {
        var a :| a in pending;
        InsertNext(cache, pending, a);
        pending := pending - {a};
      }
    }

    /** The cache holds copies of all accounts of `cache` but the pending ones, and nothing else. */
    ghost predicate Refilled(cache: map<string, AccountData>, pending: set<string>)
      reads this, db, objects
    {
      && Shape() && Keyed(cache) && dirtyAccounts == {}
      && pending <= cache.Keys && accountCache.Keys == cache.Keys - pending
      && view == StoredLedger(db.Contents() + (cache - pending))
    }

    method InsertNext(cache: map<string, AccountData>, ghost pending: set<string>, a: string)
      requires Refilled(cache, pending) && a in pending
      modifies this`accountCache, this`objects, this`view
      ensures Refilled(cache, pending - {a}) && fresh(objects - old(objects))
    {
      RefillStep(db.Contents(), cache, pending, a);
      Insert(cache[a]);
    }

    /** CreateCheckpointSnapshot: the merged accounts, each once, in no particular order. */
    method CreateCheckpointSnapshot() returns (accounts: seq<AccountData>)
      requires Shape()
      ensures MapOf(accounts) == Merged() && Distinct(accounts)
    {
      var m := MergeAccounts();
      accounts := ListOf(m);
    }

    /**
     ApplyCheckpointSnapshot: replaces store and cache, unless the sum of the listed accounts is wrong.
     The stored accounts pass P0 if and only if the entries that later ones overwrite sum to 0.
     */
    method ApplyCheckpointSnapshot(accounts: seq<AccountData>) returns (ok: bool)
      requires Shape()
      modifies this, db
      ensures Shape() && (ok <==> SumOf(accounts) % TWO_64 == TOTAL_SUPPLY)
      ensures ok ==> Valid() && dirtyAccounts == {} && Merged() == MapOf(accounts)
      ensures ok ==> db.Contents() == MapOf(accounts) && view == StoredLedger(MapOf(accounts))
      ensures ok ==> (P0(db.Contents().Keys, view) <==> Overwritten(accounts) % TWO_64 == 0)
      ensures !ok ==> unchanged(this) && unchanged(db)
      ensures db.stateHeight == old(db.stateHeight)
    {
      var totalSupply := SumList(accounts);
      ok := totalSupply == TOTAL_SUPPLY;
      if ok {
        SnapshotPassesP0Iff(accounts);
        ReplaceStored(accounts);
        ClearCache();
      }
    }

    /** ClearAllAccounts, then one SaveAccount per entry. */
    method ReplaceStored(accounts: seq<AccountData>)
      requires db.Valid()
      modifies db
      ensures db.Valid() && db.Contents() == MapOf(accounts) && db.stateHeight == old(db.stateHeight)
    {
      db.ClearAllAccounts();
      for i := 0 to |accounts|
        invariant db.Valid() && db.Contents() == MapOf(accounts[..i]) && db.stateHeight == old(db.stateHeight)
      {
        MapOfPush(accounts[..i], accounts[i]);
        assert accounts[..i] + [accounts[i]] == accounts[..i + 1];
        db.SaveAccount(accounts[i]);
      }
      assert accounts[..|accounts|] == accounts;
    }

    /** ClearCache: afterwards the ledger is what the store holds. */
    method ClearCache()
      requires db.Valid()
      modifies this
      ensures Valid() && accountCache == map[] && dirtyAccounts == {} && objects == {}
      ensures view == StoredLedger(db.Contents()) && Merged() == db.Contents()
    {
      accountCache, dirtyAccounts, objects := map[], {}, {};
      view := StoredLedger(db.Contents());
      PickNothing(db.Contents(), view);
    }

    /** Caches a copy of an account value in a new object. */
    method Insert(d: AccountData)
      requires Shape()
      modifies this`accountCache, this`objects, this`view
      ensures Shape() && view == old(view)[d.address := d]
      ensures accountCache.Keys == old(accountCache.Keys) + {d.address}
      ensures fresh(objects - old(objects))
    {
      var acc := new Account(d);
      accountCache, objects := accountCache[d.address := acc], objects + {acc};
      view := view[d.address := d];
    }
  }

  lemma FitsIff(s: Snapshot, stored: map<string, AccountData>)
    requires Keyed(s.cache) && s.dirty <= s.cache.Keys && Keyed(stored)
    ensures Fits(s, stored) <==>
            forall a :: a !in s.dirty ==> StoredLedger(stored + s.cache)[a] == StoredLedger(stored)[a]
  {
    forall a | a in s.cache && a !in s.dirty
      ensures s.cache[a] == StoredLedger(stored + s.cache)[a]
    {
    }
  }

  /** The snapshot's clean accounts agree with the store. */
  ghost predicate Fits(s: Snapshot, stored: map<string, AccountData>) {
    && Keyed(s.cache) && s.dirty <= s.cache.Keys && Keyed(stored)
    && forall a :: a in s.cache && a !in s.dirty ==> s.cache[a] == StoredLedger(stored)[a]
  }

  lemma RefillStep(
    stored: map<string, AccountData>, cache: map<string, AccountData>, pending: set<string>, a: string)
    requires Keyed(stored) && Keyed(cache) && a in pending && pending <= cache.Keys
    ensures StoredLedger(stored + (cache - (pending - {a}))) == StoredLedger(stored + (cache - pending))[a := cache[a]]
    ensures cache.Keys - (pending - {a}) == cache.Keys - pending + {a}
  {
    RestStep(cache, pending, a);
    LedgerOfPut(stored, cache - pending, cache[a]);
  }

  lemma RefillEnds(stored: map<string, AccountData>, cache: map<string, AccountData>)
    ensures stored + (cache - cache.Keys) == stored && cache - {} == cache
  {
  }

  lemma LedgerOfPut(stored: map<string, AccountData>, m: map<string, AccountData>, d: AccountData)
    requires Keyed(stored) && Keyed(m)
    ensures StoredLedger(stored + (m + map[d.address := d])) == StoredLedger(stored + m)[d.address := d]
  {
  }

  /** The accounts of `l` at the given addresses, as a map. */
  ghost function Picked(l: Ledger, keys: set<string>): (m: map<string, AccountData>)
    ensures Keyed(m)
  {
    map a | a in keys :: l[a]
  }

  lemma PickNothing(m: map<string, AccountData>, l: Ledger)
    ensures m + Picked(l, {}) == m
  {
  }

  lemma PickedStep(l: Ledger, keys: set<string>, pending: set<string>, a: string)
    requires a in pending && pending <= keys
    ensures Picked(l, keys - (pending - {a})) == Picked(l, keys - pending) + map[a := l[a]]
  {
  }

  /** Available and staked balances of all accounts, added up with wrap-around in an arbitrary order. */
  method SumBalances(m: map<string, AccountData>) returns (total: uint64)
    requires Keyed(m)
    ensures total == Supply(m.Keys, StoredLedger(m)) % TWO_64
  {
    total := 0;
    var pending := m.Keys;
    ghost var l := StoredLedger(m);
    while pending != {}
      invariant pending <= m.Keys
      invariant total == Supply(m.Keys - pending, l) % TWO_64
      decreases pending
    {
      var a :| a in pending;
      ghost var done := m.Keys - (pending - {a});
      SupplySplit(done, l, a);
      assert done - {a} == m.Keys - pending;
      SumStep(total, Supply(m.Keys - pending, l), m[a]);
      total := Add(total, Add(m[a].available, m[a].staked));
      pending := pending - {a};
    }
    assert m.Keys - {} == m.Keys;
  }

  lemma SumStep(total: uint64, sum: nat, d: AccountData)
    requires total == sum % TWO_64
    ensures Add(total, Add(d.available, d.staked)) == (sum + Balance(d)) % TWO_64
  {
  }

  /** The accounts of a map as a slice. */
  method ListOf(m: map<string, AccountData>) returns (accounts: seq<AccountData>)
    requires Keyed(m)
    ensures MapOf(accounts) == m && Distinct(accounts)
  {
    accounts := AppendAll([], m);
    assert MapOf([]) + m == m;
  }

  ghost function SumOf(accounts: seq<AccountData>): nat {
    if accounts == [] then 0
    else var i := |accounts| - 1; SumOf(accounts[..i]) + Balance(accounts[i])
  }

  method SumList(accounts: seq<AccountData>) returns (total: uint64)
    ensures total == SumOf(accounts) % TWO_64
  {
    total := 0;
    for i := 0 to |accounts|
      invariant total == SumOf(accounts[..i]) % TWO_64
    {
      SumStep(total, SumOf(accounts[..i]), accounts[i]);
      assert accounts[..i + 1][..i] == accounts[..i];
      total := Add(total, Add(accounts[i].available, accounts[i].staked));
    }
    assert accounts[..|accounts|] == accounts;
  }

  /** The balances of listed entries that a later entry of the same address replaces. */
  ghost function Overwritten(accounts: seq<AccountData>): nat {
    if accounts == [] then 0
    else
      var i := |accounts| - 1;
      var m := MapOf(accounts[..i]);
      Overwritten(accounts[..i]) + if accounts[i].address in m then Balance(m[accounts[i].address]) else 0
  }

  /** A list sums to the supply of the map it denotes plus what is overwritten on the way. */
  lemma {:induction false} ListSupply(accounts: seq<AccountData>)
    ensures SumOf(accounts) == Supply(MapOf(accounts).Keys, StoredLedger(MapOf(accounts))) + Overwritten(accounts)
  {
    if accounts != [] {
      var i := |accounts| - 1;
      ListSupply(accounts[..i]);
      assert accounts[..i] + [accounts[i]] == accounts;
      MapOfPush(accounts[..i], accounts[i]);
      PutSupply(MapOf(accounts[..i]), accounts[i]);
    }
  }

  lemma PutSupply(m: map<string, AccountData>, d: AccountData)
    requires Keyed(m)
    ensures
      var m' := m[d.address := d];
      Keyed(m') && Supply(m'.Keys, StoredLedger(m')) ==
      Supply(m.Keys, StoredLedger(m)) + Balance(d) - if d.address in m then Balance(m[d.address]) else 0
  {
    var m' := m[d.address := d];
    var a := d.address;
    SupplySplit(m'.Keys, StoredLedger(m'), a);
    SupplyFrame(m.Keys - {a}, StoredLedger(m), StoredLedger(m'));
    assert m'.Keys - {a} == m.Keys - {a};
    if a in m {
      SupplySplit(m.Keys, StoredLedger(m), a);
    } else {
      assert m.Keys - {a} == m.Keys;
    }
  }

  /** Without repeated addresses the sum of a list is the supply of the map it denotes. */
  lemma SumOfDistinct(accounts: seq<AccountData>)
    requires Distinct(accounts)
    ensures SumOf(accounts) == Supply(MapOf(accounts).Keys, StoredLedger(MapOf(accounts)))
  {
    hide SumOf, MapOf, Supply, Overwritten;
    ListSupply(accounts);
    NothingOverwritten(accounts);
  }

  lemma {:induction false} NothingOverwritten(accounts: seq<AccountData>)
    requires Distinct(accounts)
    ensures Overwritten(accounts) == 0
  {
    if accounts != [] {
      var i := |accounts| - 1;
      NothingOverwritten(accounts[..i]);
      assert accounts[i].address !in MapOf(accounts[..i]);
    }
  }

  /** A snapshot with the right sum stores accounts that pass P0 exactly when nothing net is overwritten. */
  lemma SnapshotPassesP0Iff(accounts: seq<AccountData>)
    requires SumOf(accounts) % TWO_64 == TOTAL_SUPPLY
    ensures P0(MapOf(accounts).Keys, StoredLedger(MapOf(accounts))) <==> Overwritten(accounts) % TWO_64 == 0
  {
    hide SumOf, MapOf, Supply, Overwritten;
    ListSupply(accounts);
    GapMod(SumOf(accounts), Overwritten(accounts), 0);
  }

  /** A snapshot may list an address twice: then its sum can be right and the stored supply 1. */
  lemma RepeatedAddressBreaksP0() returns (accounts: seq<AccountData>)
    ensures
      var m := MapOf(accounts);
      SumOf(accounts) == TOTAL_SUPPLY && Supply(m.Keys, StoredLedger(m)) == 1 && !P0(m.Keys, StoredLedger(m))
  {
    var first, second := NewAccount("a").(available := TOTAL_SUPPLY - 1), NewAccount("a").(available := 1);
    accounts := [first, second];
    assert accounts[..1] == [first] && [first][..0] == [];
    assert SumOf([first]) == TOTAL_SUPPLY - 1 && MapOf([first]) == map["a" := first] && Overwritten([first]) == 0;
    assert Overwritten(accounts) == TOTAL_SUPPLY - 1;
    ListSupply(accounts);
  }

  /**
   Snapshot transfer: a node that passes P0 hands its merged accounts to any other node, which then
   holds exactly that map, whatever it held or cached before.
   */
  method TransferSnapshot(sender: Manager, receiver: Manager) returns (ok: bool)
    requires sender.Shape() && receiver.Shape()
    requires sender.db != receiver.db && sender != receiver
    requires receiver !in sender.objects && receiver.db !in sender.objects
    modifies receiver, receiver.db
    ensures sender.Shape() && sender.Merged() == old(sender.Merged())
    ensures ok <==> P0(sender.Merged().Keys, sender.view)
    ensures ok ==> receiver.Valid() && receiver.Merged() == sender.Merged() && receiver.view == sender.view
    ensures !ok ==> unchanged(receiver) && unchanged(receiver.db)
  {
    hide StoredLedger, MapOf, SumOf, Supply;
    var accounts := sender.CreateCheckpointSnapshot();
    SumOfDistinct(accounts);
    ok := receiver.ApplyCheckpointSnapshot(accounts);
  }

  /** A commit may go ahead: the accounts stored afterwards pass P0. */
  ghost predicate Committable(m: map<string, AccountData>, l: Ledger, dirty: set<string>)
    requires Keyed(m)
  {
    P0(Flush(m, l, dirty).Keys, l)
  }

  /** Once the dirty accounts are written, the store alone is the ledger. */
  lemma FlushIsView(m: map<string, AccountData>, l: Ledger, dirty: set<string>)
    requires Keyed(m) && forall a :: a !in dirty ==> l[a] == StoredLedger(m)[a]
    ensures StoredLedger(Flush(m, l, dirty)) == l
  {
  }

  lemma FlushNothing(m: map<string, AccountData>, l: Ledger)
    requires Keyed(m) && forall a :: a !in {} ==> l[a] == StoredLedger(m)[a]
    ensures Flush(m, l, {}) == m && StoredLedger(m) == l
  {
  }

  /** Clean cached accounts that are not stored hold nothing, so the gate may count them or not. */
  lemma GateDecidesOnStored(m: map<string, AccountData>, cached: set<string>, l: Ledger, dirty: set<string>)
    requires Keyed(m) && dirty <= cached && forall a :: a !in dirty ==> l[a] == StoredLedger(m)[a]
    ensures P0(m.Keys + cached, l) <==> Committable(m, l, dirty)
  {
    SupplyIgnoresEmpty(Flush(m, l, dirty).Keys, m.Keys + cached, l);
  }
}
