/**
 Block production and crash recovery (block_producer.go, node.go): a block is executed, saved,
 committed, and replayed at start-up when the process died between saving and committing.
 */
module Node {
  import opened Options
  import opened Uint64
  import opened Accounts
  import opened Transactions
  import opened Ledger
  import opened TotalSupply
  import opened Runs
  import opened ShardedStore
  import opened StateManager

  datatype Block = Block(height: nat, txs: seq<Transaction>)

  /** How far SaveBlock gets before an I/O error, if there is one. */
  datatype SaveFault = NoFault | BeforeBlock | AfterBlock | AfterHeight

  datatype Produced = Added | Invalid | TxFailed(error: Error) | SaveFailed | Rejected | NotAdded

  /** What the validation of a received block says, where it is made. */
  datatype Check = Passed | WrongHeight | Faulty

  datatype Received = Ignored | NotValid | TxRefused(error: Error) | P0Refused | NotLinked | NotSaved | Accepted

  /** What survives a crash. */
  datatype Disk = Disk(
    accounts: map<string, AccountData>,
    stateHeight: nat,
    blocks: map<nat, Block>,
    blockHeight: nat)

  ghost predicate DiskOk(d: Disk) {
    Keyed(d.accounts)
  }

  /** The disk after saving a block completely. */
  ghost function Saved(d: Disk, b: Block): Disk {
    d.(blocks := d.blocks[b.height := b], blockHeight := b.height)
  }

  /** The disk after saving a block as far as the fault allows. */
  ghost function SavedUntil(d: Disk, b: Block, fault: SaveFault): Disk {
    match fault
    case BeforeBlock => d
    case AfterBlock => d.(blocks := d.blocks[b.height := b])
    case AfterHeight => d.(blocks := d.blocks[b.height := b], blockHeight := b.height)
    case NoFault => Saved(d, b)
  }

  /** Commits ledger `l` at height `h` by writing its dirty accounts, or nothing when P0 refuses. */
  ghost function Committed(d: Disk, h: nat, l: Ledger, dirty: set<string>): (r: Option<Disk>)
    requires DiskOk(d)
    ensures r.Some? ==> DiskOk(r.value)
  {
    if Committable(d.accounts, l, dirty)
    then Some(d.(accounts := Flush(d.accounts, l, dirty), stateHeight := h))
    else None
  }

  /** The commit of a replayed block. */
  ghost function ReplayOne(env: Env, d: Disk, h: nat): (r: Option<Disk>)
    requires DiskOk(d) && h in d.blocks
    ensures r.Some? ==> DiskOk(r.value)
    ensures r.Some? ==> r.value == d.(accounts := r.value.accounts, stateHeight := h)
  {
    var run := RunLenient(env, StoredLedger(d.accounts), d.blocks[h].txs);
    Committed(d, h, run.ledger, run.touched)
  }

  datatype Replayed = Recovered(disk: Disk) | MissingBlock(disk: Disk) | RejectedAt(disk: Disk)

  /** The replay loop: heights stateHeight+1 .. blockHeight, one commit per block. */
  ghost function Replay(env: Env, d: Disk): (r: Replayed)
    requires DiskOk(d)
    ensures DiskOk(r.disk)
    decreases d.blockHeight - d.stateHeight
  {
    var h := d.stateHeight + 1;
    if d.blockHeight < h then Recovered(d)
    else if h !in d.blocks then MissingBlock(d)
    else
      match ReplayOne(env, d, h)
      case None => RejectedAt(d)
      case Some(d') => Replay(env, d')
  }

  /** RecoverStateIfNeeded. */
  ghost function Recover(env: Env, d: Disk): (r: Replayed)
    requires DiskOk(d)
    ensures DiskOk(r.disk)
  {
    if d.stateHeight == 0 && d.blockHeight > 0 then Recovered(d.(stateHeight := d.blockHeight))
    else if d.blockHeight < d.stateHeight then Recovered(d.(stateHeight := d.blockHeight))
    else Replay(env, d)
  }

  // ---- what the gate lets through ----

  /** All accounts that a list of transactions can reach. */
  ghost function Reached(env: Env, txs: seq<Transaction>): set<string> {
    if txs == [] then {} else var i := |txs| - 1; Reached(env, txs[..i]) + Reach(env, txs[i])
  }

  lemma {:induction false} ReachedWithin(env: Env, keys: set<string>, txs: seq<Transaction>)
    requires Reached(env, txs) <= keys
    ensures Within(env, keys, txs)
  {
    hide Reach;
    if txs != [] {
      var i := |txs| - 1;
      ReachedWithin(env, keys, txs[..i]);
      assert txs == txs[..i] + [txs[i]];
    }
  }

  lemma {:induction false} TouchedReached(env: Env, l: Ledger, txs: seq<Transaction>)
    ensures RunLenient(env, l, txs).touched <= Reached(env, txs)
  {
    hide Exec, Reach;
    if txs != [] {
      var i := |txs| - 1;
      TouchedReached(env, l, txs[..i]);
      ExecTouches(env, RunLenient(env, l, txs[..i]).ledger, txs[i]);
    }
  }

  lemma ExecTouches(env: Env, l: Ledger, tx: Transaction)
    ensures Touched(Exec(env, l, tx, true, 0)) <= Reach(env, tx)
  {
  }

  /** Accounts that are neither stored nor touched hold nothing, before and after a run. */
  lemma StoredSupply(env: Env, m: map<string, AccountData>, txs: seq<Transaction>, keys: set<string>)
    requires Keyed(m) && keys == m.Keys + Reached(env, txs)
    ensures
      var l := StoredLedger(m);
      var r := RunLenient(env, l, txs);
      && Supply(keys, l) == Supply(m.Keys, l)
      && Supply(keys, r.ledger) == Supply(Flush(m, r.ledger, r.touched).Keys, r.ledger)
  {
    hide RunLenient, Reached, Supply;
    var l := StoredLedger(m);
    var r := RunLenient(env, l, txs);
    SupplyIgnoresEmpty(m.Keys, keys, l);
    TouchedReached(env, l, txs);
    forall a | a in keys && a !in m && a !in r.touched ensures Balance(r.ledger[a]) == 0 {
      RunFrame(env, l, txs, _ => 0, a);
    }
    assert Flush(m, r.ledger, r.touched).Keys == m.Keys + r.touched;
    SupplyIgnoresEmpty(m.Keys + r.touched, keys, r.ledger);
  }

  /**
   On a store that passes P0, the commit of any block goes ahead if and only if burned fees and minted
   amounts agree modulo 2^64. On a store with the exact supply, the stored accounts keep the exact
   supply if and only if wrapped costs and wrapped credits cancel against that difference.
   */
  lemma CommittedBlockExactIff(env: Env, m: map<string, AccountData>, txs: seq<Transaction>)
    requires Keyed(m) && P0(m.Keys, StoredLedger(m))
    ensures
      var l := StoredLedger(m);
      var r := RunLenient(env, l, txs);
      var stored, gap := Flush(m, r.ledger, r.touched), Burned(env, l, txs) - Minted(txs);
      && (Committable(m, r.ledger, r.touched) <==> gap % TWO_64 == 0)
      && (Supply(m.Keys, l) == TOTAL_SUPPLY ==>
            (Supply(stored.Keys, StoredLedger(stored)) == TOTAL_SUPPLY <==>
             gap == TWO_64 * (WrappedCosts(env, l, txs) - WrappedCredits(env, l, txs))))
  {
    hide RunLenient, Reached, Supply, Burned, Minted, WrappedCosts, WrappedCredits, Flush;
    var l, keys := StoredLedger(m), m.Keys + Reached(env, txs);
    StoredSupply(env, m, txs, keys);
    ReachedWithin(env, keys, txs);
    BlockPassesP0Iff(env, keys, l, txs);
    RunFlushes(env, m, txs);
  }

  // ---- crash and recovery ----

  /** Recovery after the crash ends where the commit would have ended, or both are refused. */
  ghost predicate Equivalent(env: Env, d: Disk, b: Block, r: Run)
    requires DiskOk(d) && IsLedger(r.ledger)
  {
    match Committed(Saved(d, b), b.height, r.ledger, r.touched)
    case Some(d') => Recover(env, Saved(d, b)) == Recovered(d')
    case None => Recover(env, Saved(d, b)) == RejectedAt(Saved(d, b))
  }

  /**
   Crash equivalence. On a node without leftover dirty marks, the block after the committed state was
   executed without error and saved, possibly over a rejected block of the same height, and the process
   dies before any account is written. Recovery ends with the very disk that the uncrashed commit
   leaves, or both are refused by P0, if and only if some block had been committed before, or the
   commit goes ahead and changes no stored account.
   */
  lemma CrashEquivalence(env: Env, d: Disk, b: Block, clock: nat -> int)
    requires DiskOk(d) && b.height == d.stateHeight + 1
    requires RunStrict(env, StoredLedger(d.accounts), b.txs, clock).error.None?
    ensures
      var r := RunStrict(env, StoredLedger(d.accounts), b.txs, clock);
      Equivalent(env, d, b, r) <==>
      || d.stateHeight >= 1
      || (Committable(d.accounts, r.ledger, r.touched) && Flush(d.accounts, r.ledger, r.touched) == d.accounts)
  {
    hide RunStrict, RunLenient, Committable, Flush;
    ReplayRepeatsProduction(env, StoredLedger(d.accounts), b.txs, clock);
    if d.stateHeight >= 1 {
      ReplayLast(env, Saved(d, b));
    }
  }

  /** When only the last block is missing, replay is one commit. */
  lemma ReplayLast(env: Env, d: Disk)
    requires DiskOk(d) && d.blockHeight == d.stateHeight + 1 && d.blockHeight in d.blocks
    ensures Replay(env, d) ==
            match ReplayOne(env, d, d.blockHeight)
            case None => RejectedAt(d)
            case Some(d') => Recovered(d')
  {
    hide ReplayOne;
  }

  /**
   The first block after genesis can be lost: with one reward in it, the commit goes ahead and stores
   the receiver, while recovery only moves the state height and never pays the reward.
   */
  lemma FirstBlockLost(env: Env) returns (d: Disk, b: Block, clock: nat -> int)
    ensures DiskOk(d) && d.stateHeight == 0 && b.height == 1
    ensures
      var r := RunStrict(env, StoredLedger(d.accounts), b.txs, clock);
      && r.error.None? && Committable(d.accounts, r.ledger, r.touched)
      && "a" in Flush(d.accounts, r.ledger, r.touched)
      && Recover(env, Saved(d, b)) == Recovered(Saved(d, b).(stateHeight := 1)) && "a" !in d.accounts
      && !Equivalent(env, d, b, r)
  {
    hide RunStrict, Flush, Committable, GenesisLedger, StoredLedger;
    var tx := Transaction(TxType.Reward, GENESIS, "a", 1, 0, 0, 0, [], [], []);
    var m := map[GENESIS := GenesisLedger()[GENESIS]];
    d, b, clock := Disk(m, 0, map[], 0), Block(1, [tx]), _ => 0;
    assert |GENESIS| > 1;
    OneReward(env, tx, clock);
    RewardCommits(env, m, tx, clock);
    var r := RunStrict(env, GenesisLedger(), [tx], clock);
    FlushTouched(m, r.ledger, r.touched, "a");
    CrashEquivalence(env, d, b, clock);
  }

  lemma RewardCommits(env: Env, m: map<string, AccountData>, tx: Transaction, clock: nat -> int)
    requires m == map[GENESIS := GenesisLedger()[GENESIS]]
    requires tx.kind.Reward? && tx.from == GENESIS && RunStrict(env, GenesisLedger(), [tx], clock).error.None?
    ensures Keyed(m) && StoredLedger(m) == GenesisLedger()
    ensures var r := RunStrict(env, GenesisLedger(), [tx], clock); Committable(m, r.ledger, r.touched)
  {
    hide RunStrict, RunLenient, Committable, Flush, GenesisLedger, Supply, StoredLedger;
    GenesisStored(m);
    GenesisSupply({GENESIS});
    assert m.Keys == {GENESIS} && |GENESIS| > 1 && [tx][..0] == [];
    ReplayRepeatsProduction(env, StoredLedger(m), [tx], clock);
    CommittedBlockExactIff(env, m, [tx]);
    ErrorFreeBurns(env, StoredLedger(m), [tx], clock);
    assert FeesToGenesis(env, [tx]) == 0 == Minted([tx]);
  }

  lemma FlushTouched(m: map<string, AccountData>, l: Ledger, dirty: set<string>, a: string)
    requires Keyed(m) && a in dirty
    ensures a in Flush(m, l, dirty)
  {
  }

  lemma GenesisStored(m: map<string, AccountData>)
    requires m == map[GENESIS := GenesisLedger()[GENESIS]]
    ensures Keyed(m) && StoredLedger(m) == GenesisLedger()
  {
  }

  lemma OneReward(env: Env, tx: Transaction, clock: nat -> int)
    requires tx.kind.Reward? && tx.from == GENESIS && tx.to == "a" && tx.amount == 1
    ensures var r := RunStrict(env, GenesisLedger(), [tx], clock); r.error.None? && "a" in r.touched
  {
    assert |GENESIS| > 1;
    assert [tx][..0] == [];
  }

  /**
   The premise matters. A received block that fails at its second transaction leaves the first one in
   the cache. The commit of the next block, here an empty one, stores it; recovery of the same disk
   after a crash does not.
   */
  lemma LeftoversBreakEquivalence(env: Env) returns (refused: seq<Transaction>, d: Disk, b: Block)
    ensures DiskOk(d) && d.stateHeight == 1 && b == Block(2, []) && "a" !in d.accounts
    ensures
      var left := RunSynced(env, StoredLedger(d.accounts), refused);
      && left.error.Some?
      && var c := Committed(Saved(d, b), 2, left.ledger, left.touched);
      && c.Some? && "a" in c.value.accounts
      && Recover(env, Saved(d, b)) == Recovered(Saved(d, b).(stateHeight := 2))
  {
    hide RunStrict, RunSynced, Flush, Committable, GenesisLedger, StoredLedger, Recover, Committed;
    var pay := Transaction(TxType.Reward, GENESIS, "a", 1, 0, 0, 0, [], [], []);
    var m := map[GENESIS := GenesisLedger()[GENESIS]];
    refused, d, b := [pay, pay.(amount := TOTAL_SUPPLY)], Disk(m, 1, map[], 1), Block(2, []);
    GenesisStored(m);
    SecondRewardFails(env, pay);
    OneReward(env, pay, _ => 0);
    RewardCommits(env, m, pay, _ => 0);
    assert |GENESIS| > 1;
    CommitsLeftover(env, d, b, RunSynced(env, GenesisLedger(), refused));
    EmptyBlockRecovers(env, d, b);
  }

  lemma SecondRewardFails(env: Env, pay: Transaction)
    requires pay.kind.Reward? && pay.from == GENESIS && pay.to == "a" && pay.amount == 1
    ensures
      var left, one := RunSynced(env, GenesisLedger(), [pay, pay.(amount := TOTAL_SUPPLY)]),
                       RunStrict(env, GenesisLedger(), [pay], _ => 0);
      left.error.Some? && left.ledger == one.ledger && left.touched == one.touched
  {
    hide RunSynced, RunStrict, Exec, GenesisLedger;
    var l, txs := GenesisLedger(), [pay, pay.(amount := TOTAL_SUPPLY)];
    assert |GENESIS| > 1 && txs[..1] == [pay] && txs[..2] == txs;
    GenesisHolds();
    PayEffect(env, l, pay);
    RunOfOne(env, l, pay);
    StrictOfOne(env, l, pay);
    SyncedStep(env, l, txs, 1, 0);
    SystemOutcome(env, RunSynced(env, l, [pay]).ledger, txs[1], true, 0);
  }

  lemma StrictOfOne(env: Env, l: Ledger, tx: Transaction)
    requires IsSystem(tx.kind)
    ensures
      var r, o := RunStrict(env, l, [tx], _ => 0), Exec(env, l, tx, true, 0);
      r == Run(After(l, o), Touched(o), if o.Failed? then Some(o.error) else None)
  {
    hide ExecSystem;
    assert [tx][..0] == [] && RunStrict(env, l, [], _ => 0) == Run(l, {}, None);
  }

  lemma CommitsLeftover(env: Env, d: Disk, b: Block, left: Run)
    requires DiskOk(d) && IsLedger(left.ledger) && "a" in left.touched
    requires Committable(d.accounts, left.ledger, left.touched)
    ensures var c := Committed(Saved(d, b), 2, left.ledger, left.touched); c.Some? && "a" in c.value.accounts
  {
    hide Committable, Flush;
    FlushTouched(d.accounts, left.ledger, left.touched, "a");
  }

  /** Replaying an empty block on a store that passes P0 changes no account. */
  lemma EmptyBlockRecovers(env: Env, d: Disk, b: Block)
    requires DiskOk(d) && d.stateHeight == 1 && b == Block(2, [])
    requires d.accounts == map[GENESIS := GenesisLedger()[GENESIS]]
    ensures Recover(env, Saved(d, b)) == Recovered(Saved(d, b).(stateHeight := 2))
  {
    hide Flush, Committable, GenesisLedger, StoredLedger;
    ReplayLast(env, Saved(d, b));
    GenesisStored(d.accounts);
    GenesisSupply({GENESIS});
    assert d.accounts.Keys == {GENESIS};
    CommittedBlockExactIff(env, d.accounts, []);
    FlushNothing(d.accounts, StoredLedger(d.accounts));
  }

  /**
   A received block is committed before it is saved. If the process dies in between, recovery puts the
   state height back but not the accounts: it restores the disk before the block if and only if the
   block changed no stored account.
   */
  lemma ReceivedCrashIff(env: Env, d: Disk, h: nat, r: Run)
    requires DiskOk(d) && IsLedger(r.ledger) && d.stateHeight == d.blockHeight && h == d.blockHeight + 1
    requires Committable(d.accounts, r.ledger, r.touched)
    ensures
      var committed := Committed(d, h, r.ledger, r.touched).value;
      Recover(env, committed) == Recovered(d) <==> Flush(d.accounts, r.ledger, r.touched) == d.accounts
  {
    hide Committable, Flush;
  }

  /** The block is then received and executed again: its reward is paid twice, and P0 does not mind. */
  lemma RewardPaidTwice(env: Env) returns (d: Disk, b: Block)
    ensures DiskOk(d) && d.stateHeight == d.blockHeight == 1 && b.height == 2
    ensures
      var once := RunSynced(env, StoredLedger(d.accounts), b.txs);
      && once.error.None? && Committable(d.accounts, once.ledger, once.touched)
      && var recovered := Recover(env, Committed(d, 2, once.ledger, once.touched).value).disk;
      var twice := RunSynced(env, StoredLedger(recovered.accounts), b.txs);
      && recovered.stateHeight == recovered.blockHeight == 1 && once.ledger["a"].available == 1
      && twice.error.None? && twice.ledger["a"].available == 2
      && Committable(recovered.accounts, twice.ledger, twice.touched)
  {
    hide RunSynced, Flush, Committable, GenesisLedger, StoredLedger, Committed, Recover;
    var pay := Transaction(TxType.Reward, GENESIS, "a", 1, 0, 0, 0, [], [], []);
    var m := map[GENESIS := GenesisLedger()[GENESIS]];
    d, b := Disk(m, 1, map[], 1), Block(2, [pay]);
    assert |GENESIS| > 1;
    GenesisStored(m);
    GenesisSupply({GENESIS});
    assert m.Keys == {GENESIS};
    GenesisHolds();
    PaysOne(env, m, pay);
    var once := RunSynced(env, StoredLedger(m), [pay]);
    RecoveredAfterCommit(env, d, once);
    var n := Flush(m, once.ledger, once.touched);
    PaysOne(env, n, pay);
  }

  lemma GenesisHolds()
    ensures GenesisLedger()[GENESIS].available == TOTAL_SUPPLY && GenesisLedger()["a"].available == 0
  {
    assert |GENESIS| > 1;
  }

  lemma RecoveredAfterCommit(env: Env, d: Disk, r: Run)
    requires DiskOk(d) && d.stateHeight == d.blockHeight == 1 && IsLedger(r.ledger)
    requires Committable(d.accounts, r.ledger, r.touched)
    ensures
      Recover(env, Committed(d, 2, r.ledger, r.touched).value).disk ==
      Disk(Flush(d.accounts, r.ledger, r.touched), 1, d.blocks, 1)
  {
    hide Committable, Flush;
  }

  /** Paying 1 out of a full enough genesis runs, passes the gate, and stores what it computes. */
  lemma PaysOne(env: Env, m: map<string, AccountData>, pay: Transaction)
    requires Keyed(m) && P0(m.Keys, StoredLedger(m))
    requires pay.kind.Reward? && pay.from == GENESIS && pay.to == "a" && pay.amount == 1
    requires StoredLedger(m)[GENESIS].available >= 1 && StoredLedger(m)["a"].available < TOTAL_SUPPLY
    ensures
      var l := StoredLedger(m);
      var r := RunSynced(env, l, [pay]);
      && r.error.None? && Committable(m, r.ledger, r.touched)
      && r.ledger["a"].available == l["a"].available + 1 && r.ledger[GENESIS].available == l[GENESIS].available - 1
      && var n := Flush(m, r.ledger, r.touched); StoredLedger(n) == r.ledger && P0(n.Keys, StoredLedger(n))
  {
    hide Committable, Flush, StoredLedger, Exec, P0, RunLenient;
    var l := StoredLedger(m);
    RunOfOne(env, l, pay);
    PayEffect(env, l, pay);
    SyncedIsLenient(env, l, [pay]);
    CommittedBlockExactIff(env, m, [pay]);
    NothingBurned(env, l, pay);
    RunFlushes(env, m, [pay]);
    CommittedPasses(m, RunSynced(env, l, [pay]));
  }

  lemma CommittedPasses(m: map<string, AccountData>, r: Run)
    requires Keyed(m) && IsLedger(r.ledger) && Committable(m, r.ledger, r.touched)
    requires StoredLedger(Flush(m, r.ledger, r.touched)) == r.ledger
    ensures var n := Flush(m, r.ledger, r.touched); P0(n.Keys, StoredLedger(n))
  {
    hide Flush, StoredLedger, P0;
  }

  lemma RunOfOne(env: Env, l: Ledger, tx: Transaction)
    ensures
      var r, o := RunSynced(env, l, [tx]), Exec(env, l, tx, true, 0);
      r == Run(After(l, o), Touched(o), if o.Failed? then Some(o.error) else None)
  {
    hide Exec;
    assert [tx][..0] == [] && RunSynced(env, l, []) == Run(l, {}, None);
  }

  lemma PayEffect(env: Env, l: Ledger, pay: Transaction)
    requires pay.kind.Reward? && pay.from == GENESIS && pay.to == "a" && pay.amount == 1
    requires l[GENESIS].available >= 1 && l["a"].available < TOTAL_SUPPLY
    ensures
      var o := Exec(env, l, pay, true, 0);
      && o.Done? && o.ledger["a"].available == l["a"].available + 1
      && o.ledger[GENESIS].available == l[GENESIS].available - 1
  {
    assert |GENESIS| > 1;
  }

  lemma NothingBurned(env: Env, l: Ledger, pay: Transaction)
    requires pay.kind.Reward? && pay.from == GENESIS
    ensures Burned(env, l, [pay]) == 0 == Minted([pay])
  {
    hide Exec, RunLenient;
    assert |GENESIS| > 1 && [pay][..0] == [];
    assert Burned(env, l, []) == 0 == Minted([]);
  }

  // ---- what a failed production leaves to recovery ----

  ghost function WithBlock(r: Replayed, b: Block): Replayed {
    var d := r.disk.(blocks := r.disk.blocks[b.height := b]);
    match r
    case Recovered(_) => Recovered(d)
    case MissingBlock(_) => MissingBlock(d)
    case RejectedAt(_) => RejectedAt(d)
  }

  /** Replay does not look at blocks above the recorded height. */
  lemma {:induction false} ReplayIgnoresHigher(env: Env, d: Disk, b: Block)
    requires DiskOk(d) && d.blockHeight < b.height
    ensures Replay(env, d.(blocks := d.blocks[b.height := b])) == WithBlock(Replay(env, d), b)
    decreases d.blockHeight - d.stateHeight
  {
    hide ReplayOne;
    var h, e := d.stateHeight + 1, d.(blocks := d.blocks[b.height := b]);
    if h <= d.blockHeight && h in d.blocks {
      ReplaysAlike(env, d, e, h);
      var c := ReplayOne(env, d, h);
      if c.Some? {
        ReplayIgnoresHigher(env, c.value, b);
        assert ReplayOne(env, e, h).value == c.value.(blocks := c.value.blocks[b.height := b]);
      }
    }
  }

  lemma ReplaysAlike(env: Env, d: Disk, e: Disk, h: nat)
    requires DiskOk(d) && h in d.blocks && h in e.blocks && d.blocks[h] == e.blocks[h] && d.accounts == e.accounts
    ensures ReplayOne(env, d, h).Some? <==> ReplayOne(env, e, h).Some?
    ensures ReplayOne(env, d, h).Some? ==>
              ReplayOne(env, e, h).value == e.(accounts := ReplayOne(env, d, h).value.accounts, stateHeight := h)
    ensures ReplayOne(env, d, h).Some? ==> ReplayOne(env, d, h).value.blocks == d.blocks
  {
    hide Committable, Flush, RunLenient;
  }

  /**
   Recovery after a production that failed to save its block, whose height is above the recorded one.
   Unless the height had already been recorded, recovery ends as it would have without the attempt, the
   unrecorded block apart. Otherwise it ends as after a crash with the block saved: the block is
   committed after all, although its production was reported as failed.
   */
  lemma RecoveryAfterSaveFault(env: Env, d: Disk, b: Block, fault: SaveFault)
    requires DiskOk(d) && d.blockHeight < b.height
    ensures
      Recover(env, SavedUntil(d, b, fault)) ==
      match fault
      case BeforeBlock => Recover(env, d)
      case AfterBlock => WithBlock(Recover(env, d), b)
      case _ => Recover(env, Saved(d, b))
  {
    hide Replay;
    if fault.AfterBlock? {
      ReplayIgnoresHigher(env, d, b);
    }
  }

  /** A completed replay brings the state height to the block height and touches no block. */
  lemma {:induction false} ReplayCompletes(env: Env, d: Disk)
    requires DiskOk(d) && d.stateHeight <= d.blockHeight
    ensures Replay(env, d).Recovered? ==> Replay(env, d).disk.stateHeight == d.blockHeight
    ensures Replay(env, d).disk.blocks == d.blocks && Replay(env, d).disk.blockHeight == d.blockHeight
    decreases d.blockHeight - d.stateHeight
  {
    hide ReplayOne;
    var h := d.stateHeight + 1;
    if h <= d.blockHeight && h in d.blocks {
      var c := ReplayOne(env, d, h);
      if c.Some? {
        ReplayCompletes(env, c.value);
      }
    }
  }

  /** Recovering twice changes nothing more. */
  lemma RecoverIsIdempotent(env: Env, d: Disk)
    requires DiskOk(d) && Recover(env, d).Recovered?
    ensures Recover(env, Recover(env, d).disk) == Recover(env, d)
  {
    if d.stateHeight <= d.blockHeight {
      ReplayCompletes(env, d);
    }
  }

  /** Every commit made during replay leaves accounts whose sum passes P0. */
  lemma {:induction false} ReplayKeepsP0(env: Env, d: Disk)
    requires DiskOk(d) && P0(d.accounts.Keys, StoredLedger(d.accounts))
    ensures var a := Replay(env, d).disk.accounts; P0(a.Keys, StoredLedger(a))
    decreases d.blockHeight - d.stateHeight
  {
    hide ReplayOne, P0, StoredLedger;
    var h := d.stateHeight + 1;
    if h <= d.blockHeight && h in d.blocks {
      var c := ReplayOne(env, d, h);
      if c.Some? {
        ReplayOneP0(env, d, h);
        ReplayKeepsP0(env, c.value);
      }
    }
  }

  lemma ReplayOneP0(env: Env, d: Disk, h: nat)
    requires DiskOk(d) && h in d.blocks && ReplayOne(env, d, h).Some?
    ensures var a := ReplayOne(env, d, h).value.accounts; P0(a.Keys, StoredLedger(a))
  {
    RunFlushes(env, d.accounts, d.blocks[h].txs);
  }

  /** Writing the accounts that a run touched stores the whole ledger the run ends with. */
  lemma RunFlushes(env: Env, m: map<string, AccountData>, txs: seq<Transaction>)
    requires Keyed(m)
    ensures var r := RunLenient(env, StoredLedger(m), txs); StoredLedger(Flush(m, r.ledger, r.touched)) == r.ledger
  {
    var r := RunLenient(env, StoredLedger(m), txs);
    forall a | a !in r.touched ensures r.ledger[a] == StoredLedger(m)[a] {
      RunFrame(env, StoredLedger(m), txs, _ => 0, a);
    }
    FlushIsView(m, r.ledger, r.touched);
  }

  class FullNode {
    const state: Manager
    var blocks: map<nat, Block>
    var latestHeight: nat      // meta:latest_height
    var chainHeight: nat       // head of the in-memory chain

    constructor (state: Manager)
      ensures this.state == state && blocks == map[] && latestHeight == 0 && chainHeight == 0
    {
      this.state, blocks, latestHeight, chainHeight := state, map[], 0, 0;
    }

    ghost predicate Valid()
      reads this, state, state.db, state.objects
    {
      state.Valid() && this !in state.objects && state.db !in state.objects
    }

    ghost function OnDisk(): (d: Disk)
      reads this, state, state.db, state.objects
      requires Valid()
      ensures DiskOk(d)
    {
      Disk(state.db.Contents(), state.db.stateHeight, blocks, latestHeight)
    }

    method SaveBlock(b: Block, fault: SaveFault) returns (ok: bool)
      modifies this`blocks, this`latestHeight
      ensures ok <==> fault.NoFault?
      ensures blocks == if fault.BeforeBlock? then old(blocks) else old(blocks)[b.height := b]
      ensures latestHeight == if fault.BeforeBlock? || fault.AfterBlock? then old(latestHeight) else b.height
    {
      if fault.BeforeBlock? {
        return false;
      }
      blocks := blocks[b.height := b];
      if fault.AfterBlock? {
        return false;
      }
      latestHeight := b.height;
      ok := fault.NoFault?;
    }

    /** The transaction loop of produceBlock: stops at the first error. */
    method ExecuteAll(txs: seq<Transaction>, clock: nat -> int) returns (error: Option<Error>)
      requires Valid()
      modifies state, state.objects
      ensures Valid() && fresh(state.objects - old(state.objects))
      ensures Follows(RunStrict(state.env, old(state.view), txs, clock), old(state.dirtyAccounts))
      ensures error == RunStrict(state.env, old(state.view), txs, clock).error
    {
      error := None;
      var i := 0;
      while i < |txs| && error.None?
        invariant 0 <= i <= |txs| && Valid() && fresh(state.objects - old(state.objects))
        invariant Follows(RunStrict(state.env, old(state.view), txs[..i], clock), old(state.dirtyAccounts))
        invariant error == RunStrict(state.env, old(state.view), txs[..i], clock).error
      {
        StrictStep(state.env, old(state.view), txs, i, clock);
        var r := state.ExecuteTransaction(txs[i], false, clock(i));
        error := if r.Failure? then Some(r.error) else None;
        i := i + 1;
      }
      assert i == |txs| ==> txs[..i] == txs;
      if error.Some? {
        StrictStops(state.env, old(state.view), txs, i, clock);
      }
    }

    /** The manager holds the ledger that run `r` ends with and has marked what it touched. */
    ghost predicate Follows(r: Run, dirty: set<string>)
      reads state
    {
      state.view == r.ledger && state.dirtyAccounts == dirty + r.touched
    }

    /**
     produceBlock from the point where the block is assembled. Whatever fails before the commit, the
     ledger, the dirty marks and the stored accounts are as before; after a successful commit the disk
     is the one that `Committed` describes.
     */
    method ProduceBlock(b: Block, clock: nat -> int, validates: bool, fault: SaveFault, linked: bool)
      returns (out: Produced)
      requires Valid()
      modifies this, state, state.objects, state.db
      ensures Valid() && fresh(state.objects - old(state.objects))
      ensures out.Invalid? <==> !validates
      ensures validates ==>
                var r := RunStrict(state.env, old(state.view), b.txs, clock);
                && (out.TxFailed? <==> r.error.Some?)
                && (out.TxFailed? ==> out.error == r.error.value)
                && (out.SaveFailed? <==> r.error.None? && !fault.NoFault?)
                && (r.error.None? && fault.NoFault? ==>
                      match Committed(Saved(old(OnDisk()), b), b.height, r.ledger, old(state.dirtyAccounts) + r.touched)
                      case None => out.Rejected? && OnDisk() == Saved(old(OnDisk()), b)
                      case Some(d) => (out.Added? || out.NotAdded?) && OnDisk() == d && state.view == r.ledger)
      ensures out.Invalid? || out.TxFailed? ==> OnDisk() == old(OnDisk())
      ensures out.SaveFailed? ==> OnDisk() == SavedUntil(old(OnDisk()), b, fault)
      ensures out.Added? || out.NotAdded? ==> state.dirtyAccounts == {}
      ensures !out.Added? && !out.NotAdded? ==>
                unchanged(state.db) && state.view == old(state.view) && state.dirtyAccounts == old(state.dirtyAccounts)
      ensures chainHeight == if out.Added? then b.height else old(chainHeight)
    {
      hide RunStrict, Committable;
      if !validates {
        return Invalid;
      }
      var error, snapshot := ExecuteBlock(b.txs, clock);
      if error.Some? {
        return TxFailed(error.value);
      }
      out := SaveAndCommit(b, snapshot, fault);
      if out.Added? {
        if !linked {
          return NotAdded;
        }
        chainHeight := b.height;
      }
    }

    /** Snapshot, then execute; the snapshot is restored when a transaction fails. */
    method ExecuteBlock(txs: seq<Transaction>, clock: nat -> int) returns (error: Option<Error>, snapshot: Snapshot)
      requires Valid()
      modifies state, state.objects
      ensures Valid() && fresh(state.objects - old(state.objects))
      ensures error == RunStrict(state.env, old(state.view), txs, clock).error
      ensures error.None? ==> Follows(RunStrict(state.env, old(state.view), txs, clock), old(state.dirtyAccounts))
      ensures error.Some? ==> state.view == old(state.view) && state.dirtyAccounts == old(state.dirtyAccounts)
      ensures Fits(snapshot, state.db.Contents()) && snapshot.dirty == old(state.dirtyAccounts)
      ensures StoredLedger(state.db.Contents() + snapshot.cache) == old(state.view)
    {
      hide RunStrict, StoredLedger, Fits;
      snapshot := state.CreateSnapshot();
      error := ExecuteAll(txs, clock);
      if error.Some? {
        state.RestoreSnapshot(snapshot);
      }
    }

    /** produceBlock after the transactions have run: block first, state second. */
    method SaveAndCommit(b: Block, snapshot: Snapshot, fault: SaveFault) returns (out: Produced)
      requires Valid() && Fits(snapshot, state.db.Contents())
      modifies this`blocks, this`latestHeight, state, state.db
      ensures Valid() && fresh(state.objects - old(state.objects))
      ensures out.SaveFailed? <==> !fault.NoFault?
      ensures out.SaveFailed? ==> OnDisk() == SavedUntil(old(OnDisk()), b, fault)
      ensures fault.NoFault? ==>
                match Committed(Saved(old(OnDisk()), b), b.height, old(state.view), old(state.dirtyAccounts))
                case None => out.Rejected? && OnDisk() == Saved(old(OnDisk()), b)
                case Some(d) =>
                  out.Added? && OnDisk() == d && state.view == old(state.view) && state.dirtyAccounts == {}
      ensures !out.Added? ==>
                && unchanged(state.db) && state.dirtyAccounts == snapshot.dirty
                && state.view == StoredLedger(state.db.Contents() + snapshot.cache)
    {
      hide Committable;
      var saved := SaveBlock(b, fault);
      if !saved {
        state.RestoreSnapshot(snapshot);
        return SaveFailed;
      }
      var ok := state.CommitWithP0Verify(b.height);
      if !ok {
        state.RestoreSnapshot(snapshot);
        return Rejected;
      }
      out := Added;
    }

    /** The transaction loop for a received block: no clock check, stops at the first error. */
    method ExecuteSynced(txs: seq<Transaction>, now: int) returns (error: Option<Error>)
      requires Valid()
      modifies state, state.objects
      ensures Valid() && fresh(state.objects - old(state.objects))
      ensures Follows(RunSynced(state.env, old(state.view), txs), old(state.dirtyAccounts))
      ensures error == RunSynced(state.env, old(state.view), txs).error
    {
      error := None;
      var i := 0;
      while i < |txs| && error.None?
        invariant 0 <= i <= |txs| && Valid() && fresh(state.objects - old(state.objects))
        invariant Follows(RunSynced(state.env, old(state.view), txs[..i]), old(state.dirtyAccounts))
        invariant error == RunSynced(state.env, old(state.view), txs[..i]).error
      {
        SyncedStep(state.env, old(state.view), txs, i, now);
        var r := state.ExecuteTransaction(txs[i], true, now);
        error := if r.Failure? then Some(r.error) else None;
        i := i + 1;
      }
      assert i == |txs| ==> txs[..i] == txs;
      if error.Some? {
        SyncedStops(state.env, old(state.view), txs, i);
      }
    }

    /**
     The callbacks for received blocks: execute, commit, link, save, in that order and without a
     snapshot. A block that is refused at a transaction or by P0 leaves the stored accounts alone, but
     its executed part stays in the ledger and in the dirty marks.
     */
    method ReceiveBlock(b: Block, check: Check, now: int, linked: bool, fault: SaveFault) returns (out: Received)
      requires Valid()
      modifies this, state, state.objects, state.db
      ensures Valid() && fresh(state.objects - old(state.objects))
      ensures out.Ignored? <==> b.height == 0
      ensures b.height != 0 ==> (out.NotValid? <==> !check.Passed?)
      ensures chainHeight == if out.Accepted? || out.NotSaved? then b.height else old(chainHeight)
      ensures out.Ignored? || (out.NotValid? && check.Faulty?) ==> OnDisk() == old(OnDisk())
      ensures out.NotValid? && check.WrongHeight? ==> OnDisk() == SavedUntil(old(OnDisk()), b, fault)
      ensures out.Ignored? || out.NotValid? ==>
                unchanged(state.db) && state.view == old(state.view) && state.dirtyAccounts == old(state.dirtyAccounts)
      ensures b.height != 0 && check.Passed? ==>
                var r := RunSynced(state.env, old(state.view), b.txs);
                && (out.TxRefused? <==> r.error.Some?) && (out.TxRefused? ==> out.error == r.error.value)
                && state.view == r.ledger
                && (r.error.None? ==>
                      match Committed(old(OnDisk()), b.height, r.ledger, old(state.dirtyAccounts) + r.touched)
                      case None => out.P0Refused?
                      case Some(d) =>
                        && (out.NotLinked? <==> !linked) && state.dirtyAccounts == {}
                        && (out.Accepted? <==> linked && fault.NoFault?)
                        && OnDisk() == if linked then SavedUntil(d, b, fault) else d)
                && (out.TxRefused? || out.P0Refused? ==>
                      && OnDisk() == old(OnDisk()) && chainHeight == old(chainHeight)
                      && state.dirtyAccounts == old(state.dirtyAccounts) + r.touched)
    {
      hide RunSynced, Committable, StoredLedger, Flush;
      if b.height == 0 {
        return Ignored;
      }
      match check {
        case WrongHeight =>
          var _ := SaveBlock(b, fault);
          return NotValid;
        case Faulty => return NotValid;
        case Passed =>
      }
      var error := ExecuteSynced(b.txs, now);
      if error.Some? {
        return TxRefused(error.value);
      }
      var ok := state.CommitWithP0Verify(b.height);
      if !ok {
        return P0Refused;
      }
      if !linked {
        return NotLinked;
      }
      chainHeight := b.height;
      var saved := SaveBlock(b, fault);
      out := if saved then Accepted else NotSaved;
    }

    /** RecoverStateIfNeeded, run at start-up before anything is cached or dirty. */
    method RecoverStateIfNeeded(now: int) returns (ok: bool)
      requires Valid() && state.dirtyAccounts == {}
      modifies state, state.objects, state.db
      ensures Valid()
      ensures OnDisk() == Recover(state.env, old(OnDisk())).disk
      ensures ok <==> Recover(state.env, old(OnDisk())).Recovered?
    {
      var blockHeight, stateHeight := latestHeight, state.db.stateHeight;
      if (stateHeight == 0 && blockHeight > 0) || blockHeight < stateHeight {
        state.db.stateHeight := blockHeight;
        return true;
      }
      ok := ReplayBlocks(now);
    }

    method ReplayBlocks(now: int) returns (ok: bool)
      requires Valid() && state.dirtyAccounts == {} && state.db.stateHeight <= latestHeight
      modifies state, state.objects, state.db
      ensures Valid()
      ensures OnDisk() == Replay(state.env, old(OnDisk())).disk
      ensures ok <==> Replay(state.env, old(OnDisk())).Recovered?
    {
      hide ReplayOne;
      var height := state.db.stateHeight + 1;
      while height <= latestHeight
        invariant Valid() && state.dirtyAccounts == {} && height == state.db.stateHeight + 1 <= latestHeight + 1
        invariant fresh(state.objects - old(state.objects))
        invariant Replay(state.env, OnDisk()) == Replay(state.env, old(OnDisk()))
      {
        if height !in blocks {
          return false;
        }
        var committed := ReplayBlock(height, now);
        if !committed {
          return false;
        }
        height := height + 1;
      }
      ok := true;
    }

    /** One turn of the replay loop. */
    method ReplayBlock(height: nat, now: int) returns (ok: bool)
      requires Valid() && state.dirtyAccounts == {} && height in blocks
      modifies state, state.objects, state.db
      ensures Valid() && fresh(state.objects - old(state.objects))
      ensures
        match ReplayOne(state.env, old(OnDisk()), height)
        case None => !ok && OnDisk() == old(OnDisk())
        case Some(d) => ok && OnDisk() == d && state.dirtyAccounts == {}
    {
      assert state.view == StoredLedger(state.db.Contents());
      ReplayAll(blocks[height].txs, now);
      assert {} + RunLenient(state.env, old(state.view), blocks[height].txs).touched
          == RunLenient(state.env, old(state.view), blocks[height].txs).touched;
      ok := state.CommitWithP0Verify(height);
    }

    /** The transaction loop of a replayed block: errors are logged and ignored. */
    method ReplayAll(txs: seq<Transaction>, now: int)
      requires Valid()
      modifies state, state.objects
      ensures Valid() && fresh(state.objects - old(state.objects))
      ensures Follows(RunLenient(state.env, old(state.view), txs), old(state.dirtyAccounts))
    {
      for i := 0 to |txs|
        invariant Valid() && fresh(state.objects - old(state.objects))
        invariant Follows(RunLenient(state.env, old(state.view), txs[..i]), old(state.dirtyAccounts))
      {
        LenientStep(state.env, old(state.view), txs, i, now);
        var r := state.ExecuteTransaction(txs[i], true, now);
      }
      assert txs[..|txs|] == txs;
    }
  }

  lemma StrictStep(env: Env, l: Ledger, txs: seq<Transaction>, i: nat, clock: nat -> int)
    requires i < |txs| && RunStrict(env, l, txs[..i], clock).error.None?
    ensures
      var r := RunStrict(env, l, txs[..i], clock);
      var o := Exec(env, r.ledger, txs[i], false, clock(i));
      RunStrict(env, l, txs[..i + 1], clock) ==
      Run(After(r.ledger, o), r.touched + Touched(o), if o.Failed? then Some(o.error) else None)
  {
    assert txs[..i + 1][..i] == txs[..i];
  }

  /** Once a transaction has failed, the rest of the block is not executed. */
  lemma {:induction false} StrictStops(env: Env, l: Ledger, txs: seq<Transaction>, i: nat, clock: nat -> int)
    requires i <= |txs| && RunStrict(env, l, txs[..i], clock).error.Some?
    ensures RunStrict(env, l, txs, clock) == RunStrict(env, l, txs[..i], clock)
  {
    if i == |txs| {
      assert txs[..i] == txs;
    } else {
      assert txs[..|txs| - 1][..i] == txs[..i];
      StrictStops(env, l, txs[..|txs| - 1], i, clock);
    }
  }

  lemma LenientStep(env: Env, l: Ledger, txs: seq<Transaction>, i: nat, now: int)
    requires i < |txs|
    ensures
      var r := RunLenient(env, l, txs[..i]);
      var o := Exec(env, r.ledger, txs[i], true, now);
      RunLenient(env, l, txs[..i + 1]) == Run(After(r.ledger, o), r.touched + Touched(o), None)
  {
    assert txs[..i + 1][..i] == txs[..i];
  }

  lemma SyncedStep(env: Env, l: Ledger, txs: seq<Transaction>, i: nat, now: int)
    requires i < |txs| && RunSynced(env, l, txs[..i]).error.None?
    ensures
      var r := RunSynced(env, l, txs[..i]);
      var o := Exec(env, r.ledger, txs[i], true, now);
      RunSynced(env, l, txs[..i + 1]) ==
      Run(After(r.ledger, o), r.touched + Touched(o), if o.Failed? then Some(o.error) else None)
  {
    assert txs[..i + 1][..i] == txs[..i];
  }

  lemma {:induction false} SyncedStops(env: Env, l: Ledger, txs: seq<Transaction>, i: nat)
    requires i <= |txs| && RunSynced(env, l, txs[..i]).error.Some?
    ensures RunSynced(env, l, txs) == RunSynced(env, l, txs[..i])
  {
    hide Exec;
    if i == |txs| {
      assert txs[..i] == txs;
    } else {
      assert txs[..|txs| - 1][..i] == txs[..i];
      SyncedStops(env, l, txs[..|txs| - 1], i);
    }
  }
}
