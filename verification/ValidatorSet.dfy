/** The validator set (consensus/validator.go) and its upkeep by stake events (node.go). */
module ValidatorSet {
  import opened Uint64
  import opened Accounts
  import opened Transactions
  import opened Ledger
  import opened TotalSupply
  import opened Runs
  import opened ShardedStore
  import opened Ordering
  import opened Proposers

  predicate HasAddress(vs: seq<Validator>, a: string) {
    exists i :: 0 <= i < |vs| && vs[i].address == a
  }

  /** AddValidator: updates the recorded stake of a known address, else appends. */
  function Added(vs: seq<Validator>, v: Validator): seq<Validator> {
    if vs == [] then [v]
    else if vs[0].address == v.address then [vs[0].(stake := v.stake)] + vs[1..]
    else [vs[0]] + Added(vs[1..], v)
  }

  function Removed(vs: seq<Validator>, a: string): seq<Validator> {
    if vs == [] then [] else (if vs[0].address != a then [vs[0]] else []) + Removed(vs[1..], a)
  }

  predicate Eligible(v: Validator, stakeRequired: uint64) {
    v.active && v.stake >= stakeRequired
  }

  function EligibleOf(vs: seq<Validator>, stakeRequired: uint64): seq<Validator> {
    if vs == [] then []
    else
      var i := |vs| - 1;
      EligibleOf(vs[..i], stakeRequired) + if Eligible(vs[i], stakeRequired) then [vs[i]] else []
  }

  /** More stake first; at equal stake the smaller address. */
  predicate Outranks(a: Validator, b: Validator) {
    if a.stake != b.stake then a.stake > b.stake else StrLess(a.address, b.address)
  }

  function Top(vs: seq<Validator>, size: nat): seq<Validator> {
    var s := SortBy(Outranks, vs);
    if |s| > size then s[..size] else s
  }

  class Validators {
    const stakeRequired: uint64
    const activeSize: nat
    var validators: seq<Validator>
    var activeValidators: seq<Validator>

    constructor (stakeRequired: uint64, activeSize: nat)
      ensures this.stakeRequired == stakeRequired && this.activeSize == activeSize
      ensures validators == [] && activeValidators == []
    {
      this.stakeRequired, this.activeSize := stakeRequired, activeSize;
      validators, activeValidators := [], [];
    }

    method UpdateActiveSet()
      modifies this`activeValidators
      ensures activeValidators == Top(EligibleOf(validators, stakeRequired), activeSize)
    {
      var active: seq<Validator> := [];
      for i := 0 to |validators|
        invariant active == EligibleOf(validators[..i], stakeRequired)
      {
        EligiblePush(validators[..i], validators[i], stakeRequired);
        assert validators[..i] + [validators[i]] == validators[..i + 1];
        if Eligible(validators[i], stakeRequired) {
          active := active + [validators[i]];
        }
      }
      assert validators[..|validators|] == validators;
      activeValidators := Top(active, activeSize);
    }

    method AddValidator(v: Validator)
      modifies this
      ensures validators == Added(old(validators), v)
      ensures activeValidators == Top(EligibleOf(validators, stakeRequired), activeSize)
    {
      for i := 0 to |validators|
        invariant forall j :: 0 <= j < i ==> validators[j].address != v.address
      {
        if validators[i].address == v.address {
          AddedAt(validators, v, i);
          validators := validators[i := validators[i].(stake := v.stake)];
          UpdateActiveSet();
          return;
        }
      }
      AddedAt(validators, v, |validators|);
      validators := validators + [v];
      UpdateActiveSet();
    }

    method RemoveValidator(address: string)
      modifies this
      ensures validators == Removed(old(validators), address)
      ensures activeValidators == Top(EligibleOf(validators, stakeRequired), activeSize)
    {
      var kept: seq<Validator> := [];
      for i := 0 to |validators|
        invariant validators == old(validators) && kept == Removed(validators[..i], address)
      {
        RemovedPush(validators[..i], validators[i], address);
        assert validators[..i] + [validators[i]] == validators[..i + 1];
        if validators[i].address != address {
          kept := kept + [validators[i]];
        }
      }
      assert validators[..|validators|] == validators;
      validators := kept;
      UpdateActiveSet();
    }

    /** LoadFromState: the stored accounts that are validators. */
    method LoadFromState(accounts: seq<AccountData>)
      requires Distinct(accounts)
      modifies this`validators
      ensures Tracks(stakeRequired, StoredLedger(MapOf(accounts)), validators)
      ensures Recorded(StoredLedger(MapOf(accounts)), validators)
    {
      hide Tracks, MapOf, StoredLedger, Distinct, Recorded;
      validators := [];
      LoadNothing(stakeRequired);
      for i := 0 to |accounts|
        invariant Tracks(stakeRequired, StoredLedger(MapOf(accounts[..i])), validators)
        invariant Recorded(StoredLedger(MapOf(accounts[..i])), validators)
      {
        LoadNext(stakeRequired, accounts, i, validators);
        if IsValidator(accounts[i], stakeRequired) {
          validators := validators + [Validator(accounts[i].address, accounts[i].staked, true)];
        }
      }
      assert accounts[..|accounts|] == accounts;
    }

    /** The callbacks installed by NewNode. */
    method OnEvent(e: Event)
      modifies this
      ensures validators == Noted(old(validators), e)
      ensures !e.NoEvent? ==> activeValidators == Top(EligibleOf(validators, stakeRequired), activeSize)
    {
      match e {
        case NoEvent =>
        case Joined(a, stake) => AddValidator(Validator(a, stake, true));
        case Left(a) => RemoveValidator(a);
      }
    }
  }

  function Noted(vs: seq<Validator>, e: Event): seq<Validator> {
    match e
    case NoEvent => vs
    case Joined(a, stake) => Added(vs, Validator(a, stake, true))
    case Left(a) => Removed(vs, a)
  }

  lemma EligiblePush(vs: seq<Validator>, v: Validator, r: uint64)
    ensures EligibleOf(vs + [v], r) == EligibleOf(vs, r) + if Eligible(v, r) then [v] else []
  {
    hide Eligible;
    assert (vs + [v])[..|vs|] == vs;
  }

  lemma RemovedHead(vs: seq<Validator>, a: string)
    requires vs != []
    ensures Removed(vs, a) == (if vs[0].address != a then [vs[0]] else []) + Removed(vs[1..], a)
    ensures Removed([], a) == []
  {
  }

  lemma {:induction false} RemovedPush(vs: seq<Validator>, v: Validator, a: string)
    ensures Removed(vs + [v], a) == Removed(vs, a) + if v.address != a then [v] else []
  {
    hide Removed;
    if vs == [] {
      RemovedHead([v], a);
      assert [] + [v] == [v] && [v][1..] == [];
    } else {
      assert (vs + [v])[1..] == vs[1..] + [v];
      RemovedHead(vs, a);
      RemovedHead(vs + [v], a);
      RemovedPush(vs[1..], v, a);
    }
  }

  /** Adding at the first entry of that address, or at the end when there is none. */
  lemma {:induction false} AddedAt(vs: seq<Validator>, v: Validator, i: nat)
    requires i <= |vs| && forall j :: 0 <= j < i ==> vs[j].address != v.address
    requires i < |vs| ==> vs[i].address == v.address
    ensures Added(vs, v) == if i < |vs| then vs[i := vs[i].(stake := v.stake)] else vs + [v]
  {
    if i > 0 {
      AddedAt(vs[1..], v, i - 1);
      assert vs == [vs[0]] + vs[1..];
    }
  }

  // ---- the active set ----

  lemma OutranksRanks()
    ensures Ranks(Outranks)
  {
    StrLessRanks();
  }

  /** The eligible validators that did not make it into the active set. */
  function Bench(vs: seq<Validator>, size: nat): seq<Validator> {
    SortBy(Outranks, vs)[|Top(vs, size)|..]
  }

  /**
   The active set and the bench are together the eligible validators; the active set is sorted, is
   as long as the configuration allows, and nobody on the bench outranks a member.
   */
  lemma ActiveIsTop(vs: seq<Validator>, size: nat)
    ensures |Top(vs, size)| == if |vs| > size then size else |vs|
    ensures multiset(Top(vs, size)) + multiset(Bench(vs, size)) == multiset(vs)
    ensures SortedBy(Outranks, Top(vs, size))
    ensures forall i, j :: 0 <= i < |Top(vs, size)| && 0 <= j < |Bench(vs, size)| ==>
                             !Outranks(Bench(vs, size)[j], Top(vs, size)[i])
  {
    hide SortBy, Outranks;
    var s := SortBy(Outranks, vs);
    OutranksRanks();
    SortPermutes(Outranks, vs);
    SortSorts(Outranks, vs);
    var n := |Top(vs, size)|;
    assert s == s[..n] + s[n..] && Top(vs, size) == s[..n];
  }

  lemma {:induction false} EligibleMembers(vs: seq<Validator>, r: uint64, v: Validator)
    ensures v in EligibleOf(vs, r) <==> v in vs && v.active && v.stake >= r
  {
    if vs != [] {
      var i := |vs| - 1;
      EligibleMembers(vs[..i], r, v);
      assert vs == vs[..i] + [vs[i]];
    }
  }

  /**
   What the active set means in stakes and addresses. Its members are active and have the required
   stake; everybody like that is a member or on the bench. Nobody on the bench has more stake than a
   member, or the same stake and a smaller address. Within the set stakes never rise, and at equal
   stake addresses do. The bench is empty unless the set is full.
   */
  lemma ActiveMeansMostStake(vs: seq<Validator>, r: uint64, size: nat)
    ensures
      var active, bench := Top(EligibleOf(vs, r), size), Bench(EligibleOf(vs, r), size);
      && |active| <= size && (bench != [] ==> |active| == size)
      && (forall v :: v in active || v in bench <==> v in vs && v.active && v.stake >= r)
      && (forall i, j :: 0 <= i < |active| && 0 <= j < |bench| ==>
                           && bench[j].stake <= active[i].stake
                           && (bench[j].stake == active[i].stake ==> !StrLess(bench[j].address, active[i].address)))
      && (forall i, j :: 0 <= i < j < |active| ==>
                           && active[j].stake <= active[i].stake
                           && (active[j].stake == active[i].stake ==>
                                 || active[i].address == active[j].address
                                 || StrLess(active[i].address, active[j].address)))
  {
    hide SortBy, EligibleOf, StrLess, Top, Bench;
    var es := EligibleOf(vs, r);
    ActiveIsTop(es, size);
    var active, bench := Top(es, size), Bench(es, size);
    assert |multiset(active)| + |multiset(bench)| == |multiset(es)|;
    forall v ensures v in active || v in bench <==> v in vs && v.active && v.stake >= r {
      EligibleMembers(vs, r, v);
      assert v in multiset(active) + multiset(bench) <==> v in multiset(es);
    }
    forall i, j | 0 <= i < j < |active|
      ensures !Outranks(active[j], active[i]) && (active[i].address == active[j].address
              || StrLess(active[i].address, active[j].address) || StrLess(active[j].address, active[i].address))
    {
      StrLessTotal(active[i].address, active[j].address);
    }
  }

  // ---- the set follows the ledger ----

  /** The addresses are distinct and are exactly the accounts that satisfy IsValidator. */
  ghost predicate Tracks(stakeRequired: uint64, l: Ledger, vs: seq<Validator>) {
    DistinctAddresses(vs) && forall a :: HasAddress(vs, a) <==> IsValidator(l[a], stakeRequired)
  }

  /** Every entry records the stake that its account has in the ledger. */
  ghost predicate Recorded(l: Ledger, vs: seq<Validator>) {
    forall i :: 0 <= i < |vs| ==> RightEntry(l, vs[i])
  }

  ghost predicate RightEntry(l: Ledger, v: Validator) {
    v.stake == l[v.address].staked && v.active
  }

  lemma {:induction false} AddedMembers(vs: seq<Validator>, v: Validator, a: string)
    ensures HasAddress(Added(vs, v), a) <==> HasAddress(vs, a) || a == v.address
  {
    if vs == [] {
      assert Added(vs, v)[0].address == v.address;
    } else {
      HeadOrTail(vs, a);
      HeadOrTail(Added(vs, v), a);
      if vs[0].address == v.address {
        assert Added(vs, v)[1..] == vs[1..];
      } else {
        assert Added(vs, v)[1..] == Added(vs[1..], v);
        AddedMembers(vs[1..], v, a);
      }
    }
  }

  lemma HeadOrTail(vs: seq<Validator>, a: string)
    requires vs != []
    ensures HasAddress(vs, a) <==> vs[0].address == a || HasAddress(vs[1..], a)
  {
    if HasAddress(vs, a) && vs[0].address != a {
      var i :| 0 <= i < |vs| && vs[i].address == a;
      assert vs[1..][i - 1].address == a;
    }
    if HasAddress(vs[1..], a) {
      var i :| 0 <= i < |vs[1..]| && vs[1..][i].address == a;
      assert vs[i + 1].address == a;
    }
  }

  lemma {:induction false} AddedDistinct(vs: seq<Validator>, v: Validator)
    requires DistinctAddresses(vs)
    ensures DistinctAddresses(Added(vs, v))
  {
    if vs != [] && vs[0].address != v.address {
      AddedDistinct(vs[1..], v);
      var r := Added(vs[1..], v);
      forall i | 0 <= i < |r| ensures r[i].address != vs[0].address {
        AddedMembers(vs[1..], v, r[i].address);
        assert HasAddress(r, r[i].address);
      }
    }
  }

  lemma {:induction false} RemovedMembers(vs: seq<Validator>, a: string, b: string)
    ensures HasAddress(Removed(vs, a), b) <==> HasAddress(vs, b) && a != b
  {
    if vs != [] {
      HeadOrTail(vs, b);
      RemovedMembers(vs[1..], a, b);
      if vs[0].address != a {
        HeadOrTail(Removed(vs, a), b);
        assert Removed(vs, a)[1..] == Removed(vs[1..], a);
      } else {
        assert Removed(vs, a) == Removed(vs[1..], a);
      }
    }
  }

  lemma {:induction false} RemovedDistinct(vs: seq<Validator>, a: string)
    requires DistinctAddresses(vs)
    ensures DistinctAddresses(Removed(vs, a))
  {
    if vs != [] {
      RemovedDistinct(vs[1..], a);
      var r := Removed(vs[1..], a);
      forall i | 0 <= i < |r| ensures r[i].address != vs[0].address {
        RemovedMembers(vs[1..], a, r[i].address);
        assert HasAddress(r, r[i].address);
      }
    }
  }

  lemma LoadNothing(r: uint64)
    ensures Tracks(r, StoredLedger(MapOf([])), []) && Recorded(StoredLedger(MapOf([])), [])
  {
  }

  lemma LoadNext(r: uint64, accounts: seq<AccountData>, i: nat, vs: seq<Validator>)
    requires i < |accounts| && Distinct(accounts)
    requires Tracks(r, StoredLedger(MapOf(accounts[..i])), vs) && Recorded(StoredLedger(MapOf(accounts[..i])), vs)
    ensures
      var l, loaded := StoredLedger(MapOf(accounts[..i + 1])), Loaded(r, accounts[i], vs);
      Tracks(r, l, loaded) && Recorded(l, loaded)
  {
    hide Tracks, MapOf, StoredLedger, Recorded;
    assert accounts[..i] + [accounts[i]] == accounts[..i + 1];
    LoadStep(r, accounts[..i], accounts[i], vs);
  }

  /** The list after one more stored account. */
  function Loaded(r: uint64, d: AccountData, vs: seq<Validator>): seq<Validator> {
    if IsValidator(d, r) then vs + [Validator(d.address, d.staked, true)] else vs
  }

  lemma LoadStep(r: uint64, accounts: seq<AccountData>, d: AccountData, vs: seq<Validator>)
    requires Tracks(r, StoredLedger(MapOf(accounts)), vs) && Recorded(StoredLedger(MapOf(accounts)), vs)
    requires Distinct(accounts + [d])
    ensures
      var l := StoredLedger(MapOf(accounts + [d]));
      Tracks(r, l, Loaded(r, d, vs)) && Recorded(l, Loaded(r, d, vs))
  {
    hide Tracks, Recorded, Loaded, Distinct;
    var l := StoredLedger(MapOf(accounts));
    NewInLedger(r, accounts, d);
    hide StoredLedger, MapOf, IsValidator;
    LoadTracks(r, l, d, vs);
    LoadRecords(r, l, d, vs);
  }

  lemma NewInLedger(r: uint64, accounts: seq<AccountData>, d: AccountData)
    requires Distinct(accounts + [d])
    ensures
      var l := StoredLedger(MapOf(accounts));
      StoredLedger(MapOf(accounts + [d])) == l[d.address := d] && !IsValidator(l[d.address], r)
  {
    hide MapOf, Distinct;
    MapOfPush(accounts, d);
    NewAddress(accounts, d);
  }

  lemma LoadTracks(r: uint64, l: Ledger, d: AccountData, vs: seq<Validator>)
    requires Tracks(r, l, vs) && !IsValidator(l[d.address], r)
    ensures Tracks(r, l[d.address := d], Loaded(r, d, vs))
  {
    if IsValidator(d, r) {
      PushTracks(r, l, d, vs);
    }
  }

  /** Nobody in the list has the new address, so the stakes recorded so far stay right. */
  lemma LoadRecords(r: uint64, l: Ledger, d: AccountData, vs: seq<Validator>)
    requires Tracks(r, l, vs) && Recorded(l, vs) && !IsValidator(l[d.address], r)
    ensures Recorded(l[d.address := d], Loaded(r, d, vs))
  {
    forall i | 0 <= i < |vs| ensures vs[i].address != d.address {
      assert HasAddress(vs, vs[i].address);
    }
  }

  lemma PushTracks(r: uint64, l: Ledger, d: AccountData, vs: seq<Validator>)
    requires Tracks(r, l, vs) && !IsValidator(l[d.address], r) && IsValidator(d, r)
    ensures Tracks(r, l[d.address := d], vs + [Validator(d.address, d.staked, true)])
  {
    hide DistinctAddresses;
    var v := Validator(d.address, d.staked, true);
    assert !HasAddress(vs, d.address);
    AddedAt(vs, v, |vs|);
    AddedDistinct(vs, v);
    hide Added, HasAddress;
    forall a ensures HasAddress(vs + [v], a) <==> HasAddress(vs, a) || a == d.address {
      AddedMembers(vs, v, a);
    }
  }

  lemma NewAddress(accounts: seq<AccountData>, d: AccountData)
    requires Distinct(accounts + [d])
    ensures d.address !in MapOf(accounts)
  {
    forall i | 0 <= i < |accounts| ensures accounts[i].address != d.address {
      assert (accounts + [d])[i].address != (accounts + [d])[|accounts|].address;
    }
  }

  /** No forged signature or sender, hence no confiscation. */
  ghost predicate Honest(env: Env, tx: Transaction) {
    IsSystem(tx.kind) || Authentic(env, tx)
  }

  /** A validator's stake wraps around to less than a validator needs; staking sends no leaving event. */
  ghost predicate WrapsOut(env: Env, l: Ledger, tx: Transaction) {
    && Honest(env, tx) && Executes(env, l, tx) && tx.kind.Stake? && IsValidator(l[tx.from], env.stakeRequired)
    && TWO_64 <= l[tx.from].staked + tx.amount < TWO_64 + env.stakeRequired
  }

  /** `a` is a validator afterwards, if only the event of the transaction changes that. */
  ghost predicate ByEvent(env: Env, l: Ledger, event: Event, a: string) {
    && (IsValidator(l[a], env.stakeRequired) || (event.Joined? && event.address == a))
    && !(event.Left? && event.address == a)
  }

  /** Only its own event changes the status of any account, except where a stake wraps around. */
  lemma ExecStatus(env: Env, l: Ledger, tx: Transaction, a: string)
    requires Honest(env, tx) && Executes(env, l, tx)
    ensures
      var o := Exec(env, l, tx, true, 0);
      (IsValidator(o.ledger[a], env.stakeRequired) <==> ByEvent(env, l, o.event, a)) <==>
      !(WrapsOut(env, l, tx) && a == tx.from)
  {
    hide TransferLedger, WellFormed;
    if tx.kind.Transfer? {
      TransferPostings(l, tx, a);
    }
  }

  lemma NotedDistinct(vs: seq<Validator>, e: Event)
    requires DistinctAddresses(vs)
    ensures DistinctAddresses(Noted(vs, e))
  {
    hide DistinctAddresses, Added, Removed;
    if e.Joined? {
      AddedDistinct(vs, Validator(e.address, e.stake, true));
    } else if e.Left? {
      RemovedDistinct(vs, e.address);
    }
  }

  lemma NotedMembers(env: Env, l: Ledger, vs: seq<Validator>, e: Event, a: string)
    requires HasAddress(vs, a) <==> IsValidator(l[a], env.stakeRequired)
    ensures HasAddress(Noted(vs, e), a) <==> ByEvent(env, l, e, a)
  {
    hide HasAddress, Added, Removed, IsValidator;
    if e.Joined? {
      AddedMembers(vs, Validator(e.address, e.stake, true), a);
    } else if e.Left? {
      RemovedMembers(vs, e.address, a);
    }
  }

  /** An honest transaction keeps the list right exactly when no stake wraps out. */
  lemma HonestTracksIff(env: Env, l: Ledger, tx: Transaction, vs: seq<Validator>)
    requires Honest(env, tx) && Executes(env, l, tx) && Tracks(env.stakeRequired, l, vs)
    ensures
      var o := Exec(env, l, tx, true, 0);
      Tracks(env.stakeRequired, o.ledger, Noted(vs, o.event)) <==> !WrapsOut(env, l, tx)
  {
    hide Exec, Noted, HasAddress, IsValidator, ByEvent, WrapsOut, DistinctAddresses, Honest, Executes;
    ExecDone(env, l, tx);
    var o := Exec(env, l, tx, true, 0);
    NotedDistinct(vs, o.event);
    forall a
      ensures (HasAddress(Noted(vs, o.event), a) <==> IsValidator(o.ledger[a], env.stakeRequired)) <==>
              !(WrapsOut(env, l, tx) && a == tx.from)
    {
      ExecStatus(env, l, tx, a);
      NotedMembers(env, l, vs, o.event, a);
    }
    assert WrapsOut(env, l, tx) ==>
        !(HasAddress(Noted(vs, o.event), tx.from) <==> IsValidator(o.ledger[tx.from], env.stakeRequired));
  }

  lemma ExecDone(env: Env, l: Ledger, tx: Transaction)
    ensures Executes(env, l, tx) <==> Exec(env, l, tx, true, 0).Done?
  {
  }

  ghost function EventOf(r: Outcome): Event {
    if r.Done? then r.event else NoEvent
  }

  /** The validator list after the events of a run. */
  ghost function NotedRun(env: Env, l: Ledger, txs: seq<Transaction>, vs: seq<Validator>): seq<Validator> {
    if txs == [] then vs
    else
      var i := |txs| - 1;
      Noted(NotedRun(env, l, txs[..i], vs), EventOf(Exec(env, RunLenient(env, l, txs[..i]).ledger, txs[i], true, 0)))
  }

  lemma NotedNothing(vs: seq<Validator>)
    ensures Noted(vs, NoEvent) == vs
  {
  }

  /**
   A confiscation sends no event: afterwards the list is still right if and only if the confiscated
   account was no validator or held nothing by the wrapping total.
   */
  lemma ConfiscationTracksIff(r: uint64, l: Ledger, attacker: string, vs: seq<Validator>)
    requires Tracks(r, l, vs) && attacker != GENESIS
    ensures Confiscate(l, attacker).event.NoEvent?
    ensures Tracks(r, Confiscate(l, attacker).ledger, vs) <==>
            !IsValidator(l[attacker], r) || Add(l[attacker].available, l[attacker].staked) == 0
  {
    hide DistinctAddresses, HasAddress;
    var m := Confiscate(l, attacker).ledger;
    assert forall a :: a != attacker ==> (IsValidator(m[a], r) <==> IsValidator(l[a], r));
  }

  /** The account that an executed forgery has its funds taken from. */
  ghost function Attacker(env: Env, tx: Transaction): string {
    if !env.verifies(tx) then tx.from else env.signer(tx.publicKey)
  }

  /** An executed forgery takes the funds of a validator that holds something. */
  ghost predicate Strikes(env: Env, l: Ledger, tx: Transaction) {
    var a := Attacker(env, tx);
    && !Honest(env, tx) && Executes(env, l, tx)
    && IsValidator(l[a], env.stakeRequired) && Add(l[a].available, l[a].staked) != 0
  }

  /** The list goes wrong: a confiscation strikes a validator, or a validator's stake wraps out. */
  ghost predicate LosesTrack(env: Env, l: Ledger, tx: Transaction) {
    Strikes(env, l, tx) || WrapsOut(env, l, tx)
  }

  /** Any executed transaction keeps the list right if and only if it does not lose track. */
  lemma ExecTracksIff(env: Env, l: Ledger, tx: Transaction, vs: seq<Validator>)
    requires Executes(env, l, tx) && Tracks(env.stakeRequired, l, vs)
    ensures
      var o := Exec(env, l, tx, true, 0);
      Tracks(env.stakeRequired, o.ledger, Noted(vs, o.event)) <==> !LosesTrack(env, l, tx)
  {
    hide Tracks, IsValidator, Confiscate, ExecUser, ExecSystem, WellFormed;
    if Honest(env, tx) {
      HonestTracksIff(env, l, tx, vs);
    } else {
      var a := Attacker(env, tx);
      assert Exec(env, l, tx, true, 0) == Confiscate(l, a);
      SeizedDone(l, a);
      ConfiscationTracksIff(env.stakeRequired, l, a, vs);
    }
  }

  /** The list is right after the first `i` transactions of a run. */
  ghost predicate TracksAt(env: Env, l: Ledger, txs: seq<Transaction>, vs: seq<Validator>, i: nat)
    requires i <= |txs|
  {
    Tracks(env.stakeRequired, RunLenient(env, l, txs[..i]).ledger, NotedRun(env, l, txs[..i], vs))
  }

  ghost predicate LosesTrackAt(env: Env, l: Ledger, txs: seq<Transaction>, i: nat)
    requires i < |txs|
  {
    LosesTrack(env, RunLenient(env, l, txs[..i]).ledger, txs[i])
  }

  /** Ledger and list after one more transaction of a run. */
  lemma RunNext(env: Env, l: Ledger, txs: seq<Transaction>, vs: seq<Validator>, i: nat)
    requires i < |txs|
    ensures
      var m := RunLenient(env, l, txs[..i]).ledger;
      var o := Exec(env, m, txs[i], true, 0);
      && RunLenient(env, l, txs[..i + 1]).ledger == After(m, o)
      && NotedRun(env, l, txs[..i + 1], vs) == Noted(NotedRun(env, l, txs[..i], vs), EventOf(o))
  {
    hide Exec, Noted;
    assert txs[..i + 1][..i] == txs[..i];
  }

  lemma IdleLosesNothing(env: Env, l: Ledger, tx: Transaction)
    requires !Executes(env, l, tx)
    ensures !LosesTrack(env, l, tx)
  {
    hide Exec;
  }

  lemma TracksNext(env: Env, l: Ledger, txs: seq<Transaction>, vs: seq<Validator>, i: nat)
    requires i < |txs| && TracksAt(env, l, txs, vs, i)
    ensures TracksAt(env, l, txs, vs, i + 1) <==> !LosesTrackAt(env, l, txs, i)
  {
    hide Exec, Executes, Tracks, Noted, RunLenient, NotedRun, LosesTrack;
    var m, ws := RunLenient(env, l, txs[..i]).ledger, NotedRun(env, l, txs[..i], vs);
    RunNext(env, l, txs, vs, i);
    ExecDone(env, m, txs[i]);
    if Executes(env, m, txs[i]) {
      ExecTracksIff(env, m, txs[i], ws);
    } else {
      IdleLosesNothing(env, m, txs[i]);
      NotedNothing(ws);
    }
  }

  lemma {:induction false} NeverLost(env: Env, l: Ledger, txs: seq<Transaction>, vs: seq<Validator>, i: nat)
    requires i <= |txs| && Tracks(env.stakeRequired, l, vs)
    requires forall j :: 0 <= j < |txs| ==> !LosesTrackAt(env, l, txs, j)
    ensures TracksAt(env, l, txs, vs, i)
  {
    hide Tracks, LosesTrackAt, TracksAt;
    if i == 0 {
      TracksStart(env, l, txs, vs);
    } else {
      NeverLost(env, l, txs, vs, i - 1);
      TracksNext(env, l, txs, vs, i - 1);
    }
  }

  lemma TracksStart(env: Env, l: Ledger, txs: seq<Transaction>, vs: seq<Validator>)
    requires Tracks(env.stakeRequired, l, vs)
    ensures TracksAt(env, l, txs, vs, 0)
  {
    hide Tracks;
    assert txs[..0] == [];
  }

  /**
   Over any run whatever, the validator list is right all the way (distinct addresses, exactly the
   accounts that satisfy IsValidator) if and only if no executed confiscation hits a validator that
   holds something and no validator's stake wraps around below the required one.
   */
  lemma RunTracksIff(env: Env, l: Ledger, txs: seq<Transaction>, vs: seq<Validator>)
    requires Tracks(env.stakeRequired, l, vs)
    ensures (forall i :: 0 <= i <= |txs| ==> TracksAt(env, l, txs, vs, i)) <==>
            forall i :: 0 <= i < |txs| ==> !LosesTrackAt(env, l, txs, i)
  {
    hide Tracks, LosesTrackAt, TracksAt;
    if forall i :: 0 <= i < |txs| ==> !LosesTrackAt(env, l, txs, i) {
      forall i | 0 <= i <= |txs| ensures TracksAt(env, l, txs, vs, i) {
        NeverLost(env, l, txs, vs, i);
      }
    }
    if forall i :: 0 <= i <= |txs| ==> TracksAt(env, l, txs, vs, i) {
      forall i | 0 <= i < |txs| ensures !LosesTrackAt(env, l, txs, i) {
        assert TracksAt(env, l, txs, vs, i) && TracksAt(env, l, txs, vs, i + 1);
        TracksNext(env, l, txs, vs, i);
      }
    }
  }

  /** Within the supply, transactions that are ordinary and not forged never lose track. */
  lemma OrdinaryRunTracks(env: Env, keys: set<string>, l: Ledger, txs: seq<Transaction>, vs: seq<Validator>)
    requires Supply(keys, l) <= TOTAL_SUPPLY && Ordinary(env, keys, txs) && Tracks(env.stakeRequired, l, vs)
    requires forall tx :: tx in txs ==> Honest(env, tx)
    ensures forall i :: 0 <= i <= |txs| ==> TracksAt(env, l, txs, vs, i)
  {
    hide Tracks, TracksAt, LosesTrack, Supply, Honest, Reach, Mints, RunLenient;
    forall i | 0 <= i < |txs| ensures !LosesTrackAt(env, l, txs, i) {
      assert txs[i] in txs && forall tx :: tx in txs[..i] ==> tx in txs;
      OrdinaryRun(env, keys, l, txs[..i]);
      NoWrapOut(env, keys, RunLenient(env, l, txs[..i]).ledger, txs[i]);
    }
    RunTracksIff(env, l, txs, vs);
  }

  lemma NoWrapOut(env: Env, keys: set<string>, l: Ledger, tx: Transaction)
    requires Honest(env, tx) && Reach(env, tx) <= keys && Supply(keys, l) <= TOTAL_SUPPLY
    ensures !LosesTrack(env, l, tx)
  {
    hide Supply, WellFormed, TransferLedger;
    BalanceBound(keys, l, tx.from, tx.from);
  }

  // ---- a run in which a stake wraps out ----

  /** A transfer of 2^64-1 with fee 1 costs nothing and fills an empty account. */
  lemma SendMax(env: Env, l: Ledger, tx: Transaction)
    requires tx.kind.Transfer? && Authentic(env, tx) && WellFormed(env, tx, true, 0)
    requires tx.amount == TWO_64 - 1 && tx.gasFee == 1 && tx.nonce == l[tx.from].nonce
    requires l[tx.to].available == 0 && tx.to != GENESIS && tx.to != tx.from
    ensures Executes(env, l, tx) && Exec(env, l, tx, true, 0).event == NoEvent
    ensures Exec(env, l, tx, true, 0).ledger[tx.to] == l[tx.to].(available := TWO_64 - 1)
    ensures forall a :: a !in {tx.from, tx.to, GENESIS} ==> Exec(env, l, tx, true, 0).ledger[a] == l[a]
  {
    hide WellFormed;
  }

  lemma StakeSome(env: Env, l: Ledger, tx: Transaction)
    requires tx.kind.Stake? && Authentic(env, tx) && WellFormed(env, tx, true, 0)
    requires tx.amount <= l[tx.from].available && tx.nonce == l[tx.from].nonce
    ensures Executes(env, l, tx) && Exec(env, l, tx, true, 0).ledger == StakeLedger(l, tx)
    ensures Exec(env, l, tx, true, 0).event == StakeEvent(env, l, StakeLedger(l, tx), tx.from)
  {
    hide WellFormed;
  }

  function WrapEnv(): Env {
    Env(1, 1000, 0, 0, 1, _ => true, key => if key == [1] then "a" else if key == [2] then "b" else "c")
  }

  function WrapTxs(): seq<Transaction> {
    [ Transaction(TxType.Transfer, "a", "b", TWO_64 - 1, 1, 0, 0, [], [1], [1]),
      Transaction(TxType.Stake, "b", "b", TWO_64 - 1, 0, 0, 0, [], [1], [2]),
      Transaction(TxType.Transfer, "c", "b", TWO_64 - 1, 1, 0, 0, [], [1], [3]),
      Transaction(TxType.Stake, "b", "b", 1, 0, 1, 0, [], [1], [2]) ]
  }

  lemma WrapTxsFit()
    ensures forall i :: 0 <= i < 4 ==>
                          Authentic(WrapEnv(), WrapTxs()[i]) && WellFormed(WrapEnv(), WrapTxs()[i], true, 0)
  {
    assert |GENESIS| > 1;
  }

  /** The ledgers of the run as far as "b" goes. */
  lemma WrapStates(i: nat)
    requires i <= 4
    ensures
      var m := RunLenient(WrapEnv(), GenesisLedger(), WrapTxs()[..i]).ledger;
      var b := m["b"];
      && b.available == (if i == 1 || i == 3 then TWO_64 - 1 else if i == 4 then TWO_64 - 2 else 0)
      && b.staked == (if i == 2 || i == 3 then TWO_64 - 1 else 0)
      && b.nonce == (if i < 2 then 0 else if i < 4 then 1 else 2)
      && b.nodeType == (if i < 2 then NODE_REGULAR else NODE_VALIDATOR)
      && (i == 0 ==> m["a"].nonce == 0) && (i <= 2 ==> m["c"].nonce == 0)
  {
    hide RunLenient, Exec, WrapEnv, WellFormed, Authentic, Executes;
    assert |GENESIS| > 1;
    if i == 0 {
      WrapStart();
    } else {
      WrapStates(i - 1);
      WrapStep(i - 1);
    }
  }

  lemma WrapStart()
    ensures RunLenient(WrapEnv(), GenesisLedger(), WrapTxs()[..0]).ledger == GenesisLedger()
  {
    assert WrapTxs()[..0] == [];
  }

  lemma WrapStep(i: nat)
    requires i < 4
    requires
      var m := RunLenient(WrapEnv(), GenesisLedger(), WrapTxs()[..i]).ledger;
      var b := m["b"];
      && b.available == (if i == 1 || i == 3 then TWO_64 - 1 else 0)
      && b.nonce == (if i < 2 then 0 else 1) && (i == 0 ==> m["a"].nonce == 0) && (i <= 2 ==> m["c"].nonce == 0)
    ensures
      var m, m' := RunLenient(WrapEnv(), GenesisLedger(), WrapTxs()[..i]).ledger,
                   RunLenient(WrapEnv(), GenesisLedger(), WrapTxs()[..i + 1]).ledger;
      && Executes(WrapEnv(), m, WrapTxs()[i])
      && m'["b"] == (if i % 2 == 0 then m["b"].(available := TWO_64 - 1)
                     else Staked(m["b"], WrapTxs()[i].amount).(nonce := m["b"].nonce + 1))
      && (i <= 1 ==> m'["c"] == m["c"])
  {
    hide RunLenient, Exec, WellFormed, Authentic, Executes;
    var env, txs := WrapEnv(), WrapTxs();
    var m := RunLenient(env, GenesisLedger(), txs[..i]).ledger;
    assert |GENESIS| > 1;
    WrapTxsFit();
    RunNext(env, GenesisLedger(), txs, [], i);
    ExecDone(env, m, txs[i]);
    if i % 2 == 0 {
      SendMax(env, m, txs[i]);
    } else {
      StakeSome(env, m, txs[i]);
    }
  }

  /**
   A stake can wrap out: "a" and "c", who hold nothing, each send 2^64-1 with fee 1 to "b", who stakes
   it all, is a validator, and stakes 1 more. Then "b" has no stake left and stays in the list.
   */
  lemma WrappedStakeLosesTrack()
    ensures
      var env, l, txs := WrapEnv(), GenesisLedger(), WrapTxs();
      && |txs| == 4 && (forall tx :: tx in txs ==> Honest(env, tx)) && Tracks(env.stakeRequired, l, [])
      && IsValidator(RunLenient(env, l, txs[..2]).ledger["b"], env.stakeRequired)
      && !IsValidator(RunLenient(env, l, txs).ledger["b"], env.stakeRequired)
      && LosesTrackAt(env, l, txs, 3) && !(forall i :: 0 <= i <= |txs| ==> TracksAt(env, l, txs, [], i))
  {
    hide RunLenient, Exec, WellFormed, Authentic, Executes, TracksAt, Strikes;
    var env, l, txs := WrapEnv(), GenesisLedger(), WrapTxs();
    WrapTxsFit();
    WrapStates(2);
    WrapStates(3);
    WrapStates(4);
    WrapStep(3);
    assert txs[..4] == txs;
    NobodyTracked(env);
    RunTracksIff(env, l, txs, []);
  }

  lemma NobodyTracked(env: Env)
    ensures Tracks(env.stakeRequired, GenesisLedger(), [])
  {
    assert forall a :: GenesisLedger()[a].nodeType == NODE_REGULAR;
  }

  // ---- recorded stakes ----

  /** Taking `amount` out of a stake leaves some stake, and enough of it. */
  ghost predicate StaysValidator(env: Env, staked: uint64, amount: uint64) {
    amount < staked && env.stakeRequired <= staked - amount
  }

  /** A validator stakes more, or unstakes and stays a validator: no event is sent. */
  ghost predicate Restakes(env: Env, l: Ledger, tx: Transaction) {
    && tx.amount > 0 && IsValidator(l[tx.from], env.stakeRequired)
    && (tx.kind.Stake? || (tx.kind.Unstake? && StaysValidator(env, l[tx.from].staked, tx.amount)))
  }

  /** The stakes and the event that an executed transaction leaves. */
  lemma ExecStakes(env: Env, l: Ledger, tx: Transaction, a: string)
    requires Honest(env, tx) && Exec(env, l, tx, true, 0).Done?
    ensures
      var o := Exec(env, l, tx, true, 0);
      && (o.ledger[a].staked != l[a].staked <==>
            a == tx.from && tx.amount > 0 && (tx.kind.Stake? || tx.kind.Unstake?))
      && (Restakes(env, l, tx) ==> o.event.NoEvent?)
      && (o.event.Joined? ==> o.event.address == tx.from && !IsValidator(l[tx.from], env.stakeRequired)
                              && o.event.stake == o.ledger[tx.from].staked)
      && (o.event.Left? ==> o.event.address == tx.from)
      && (o.event.NoEvent? && (tx.kind.Stake? || tx.kind.Unstake?) && IsValidator(l[tx.from], env.stakeRequired) ==>
            tx.amount == 0 || Restakes(env, l, tx))
  {
    hide TransferLedger, WellFormed;
    if tx.kind.Transfer? {
      TransferPostings(l, tx, a);
    }
  }

  lemma {:induction false} RemovedEntries(vs: seq<Validator>, a: string, v: Validator)
    requires v in Removed(vs, a)
    ensures v in vs && v.address != a
  {
    if vs[0].address == a || v != vs[0] {
      RemovedEntries(vs[1..], a, v);
    }
  }

  /** A transaction that is not forged keeps the recorded stakes right if and only if it does not restake. */
  lemma ExecRecordsIff(env: Env, l: Ledger, tx: Transaction, vs: seq<Validator>)
    requires Honest(env, tx) && Exec(env, l, tx, true, 0).Done?
    requires Tracks(env.stakeRequired, l, vs) && Recorded(l, vs)
    ensures
      var o := Exec(env, l, tx, true, 0);
      Recorded(o.ledger, Noted(vs, o.event)) <==> !Restakes(env, l, tx)
  {
    hide Exec, Honest, Restakes, IsValidator, DistinctAddresses;
    var o := Exec(env, l, tx, true, 0);
    ExecStakes(env, l, tx, tx.from);
    if Restakes(env, l, tx) {
      RestakeIsStale(env, l, tx, vs);
    } else {
      forall v | v in Noted(vs, o.event) ensures RightEntry(o.ledger, v) {
        EntryStaysRight(env, l, tx, vs, v);
      }
    }
  }

  lemma RestakeIsStale(env: Env, l: Ledger, tx: Transaction, vs: seq<Validator>)
    requires Honest(env, tx) && Exec(env, l, tx, true, 0).Done?
    requires Tracks(env.stakeRequired, l, vs) && Recorded(l, vs) && Restakes(env, l, tx)
    ensures var o := Exec(env, l, tx, true, 0); !Recorded(o.ledger, Noted(vs, o.event))
  {
    hide Exec, Honest;
    ExecStakes(env, l, tx, tx.from);
    assert HasAddress(vs, tx.from);
    var i :| 0 <= i < |vs| && vs[i].address == tx.from;
    assert !RightEntry(Exec(env, l, tx, true, 0).ledger, vs[i]) && RightEntry(l, vs[i]);
  }

  lemma EntryStaysRight(env: Env, l: Ledger, tx: Transaction, vs: seq<Validator>, v: Validator)
    requires Honest(env, tx) && Exec(env, l, tx, true, 0).Done?
    requires Tracks(env.stakeRequired, l, vs) && Recorded(l, vs)
    requires !Restakes(env, l, tx) && v in Noted(vs, Exec(env, l, tx, true, 0).event)
    ensures RightEntry(Exec(env, l, tx, true, 0).ledger, v)
  {
    hide Exec, Honest, Restakes;
    var o := Exec(env, l, tx, true, 0);
    ExecStakes(env, l, tx, v.address);
    if o.event.Joined? {
      var joined := Validator(o.event.address, o.event.stake, true);
      assert !HasAddress(vs, tx.from);
      AddedAt(vs, joined, |vs|);
    } else if o.event.Left? {
      RemovedEntries(vs, o.event.address, v);
    }
    if v in vs {
      var i :| 0 <= i < |vs| && vs[i] == v;
      assert HasAddress(vs, v.address) && RightEntry(l, vs[i]);
    }
  }

  /** A stake that wraps out is a restake as well. */
  lemma WrapsOutRestakes(env: Env, l: Ledger, tx: Transaction)
    requires WrapsOut(env, l, tx)
    ensures Restakes(env, l, tx)
  {
    hide Exec;
  }

  /** A confiscation that strikes no validator leaves all recorded stakes right. */
  lemma ConfiscationRecords(r: uint64, l: Ledger, attacker: string, vs: seq<Validator>)
    requires Tracks(r, l, vs) && Recorded(l, vs) && attacker != GENESIS
    requires !IsValidator(l[attacker], r) || Add(l[attacker].available, l[attacker].staked) == 0
    ensures Recorded(Confiscate(l, attacker).ledger, vs)
  {
    hide DistinctAddresses;
    forall i | 0 <= i < |vs| ensures RightEntry(Confiscate(l, attacker).ledger, vs[i]) {
      assert HasAddress(vs, vs[i].address) && RightEntry(l, vs[i]);
    }
  }

  /** The list is right and so are the stakes it records. */
  ghost predicate Accurate(env: Env, l: Ledger, vs: seq<Validator>) {
    Tracks(env.stakeRequired, l, vs) && Recorded(l, vs)
  }

  /** A stake changes behind the back of the list, or a confiscation strikes a validator. */
  ghost predicate GoesStale(env: Env, l: Ledger, tx: Transaction) {
    Strikes(env, l, tx) || (Honest(env, tx) && Executes(env, l, tx) && Restakes(env, l, tx))
  }

  lemma ExecAccurateIff(env: Env, l: Ledger, tx: Transaction, vs: seq<Validator>)
    requires Executes(env, l, tx) && Accurate(env, l, vs)
    ensures
      var o := Exec(env, l, tx, true, 0);
      Accurate(env, o.ledger, Noted(vs, o.event)) <==> !GoesStale(env, l, tx)
  {
    hide Tracks, Recorded, IsValidator, Confiscate, ExecUser, ExecSystem, WellFormed, Restakes;
    ExecTracksIff(env, l, tx, vs);
    if Honest(env, tx) {
      ExecRecordsIff(env, l, tx, vs);
      if WrapsOut(env, l, tx) {
        WrapsOutRestakes(env, l, tx);
      }
    } else if !Strikes(env, l, tx) {
      var a := Attacker(env, tx);
      assert Exec(env, l, tx, true, 0) == Confiscate(l, a);
      SeizedDone(l, a);
      ConfiscationTracksIff(env.stakeRequired, l, a, vs);
      ConfiscationRecords(env.stakeRequired, l, a, vs);
    }
  }

  /** List and recorded stakes are right after the first `i` transactions of a run. */
  ghost predicate AccurateAt(env: Env, l: Ledger, txs: seq<Transaction>, vs: seq<Validator>, i: nat)
    requires i <= |txs|
  {
    Accurate(env, RunLenient(env, l, txs[..i]).ledger, NotedRun(env, l, txs[..i], vs))
  }

  ghost predicate GoesStaleAt(env: Env, l: Ledger, txs: seq<Transaction>, i: nat)
    requires i < |txs|
  {
    GoesStale(env, RunLenient(env, l, txs[..i]).ledger, txs[i])
  }

  lemma AccurateNext(env: Env, l: Ledger, txs: seq<Transaction>, vs: seq<Validator>, i: nat)
    requires i < |txs| && AccurateAt(env, l, txs, vs, i)
    ensures AccurateAt(env, l, txs, vs, i + 1) <==> !GoesStaleAt(env, l, txs, i)
  {
    hide Exec, Executes, Accurate, Noted, RunLenient, NotedRun, Restakes, Honest, Attacker, IsValidator;
    var m, ws := RunLenient(env, l, txs[..i]).ledger, NotedRun(env, l, txs[..i], vs);
    RunNext(env, l, txs, vs, i);
    ExecDone(env, m, txs[i]);
    if Executes(env, m, txs[i]) {
      ExecAccurateIff(env, m, txs[i], ws);
    } else {
      NotedNothing(ws);
    }
  }

  lemma {:induction false} NeverStale(env: Env, l: Ledger, txs: seq<Transaction>, vs: seq<Validator>, i: nat)
    requires i <= |txs| && Accurate(env, l, vs)
    requires forall j :: 0 <= j < |txs| ==> !GoesStaleAt(env, l, txs, j)
    ensures AccurateAt(env, l, txs, vs, i)
  {
    hide Accurate, GoesStaleAt, AccurateAt;
    if i == 0 {
      AccurateStart(env, l, txs, vs);
    } else {
      NeverStale(env, l, txs, vs, i - 1);
      AccurateNext(env, l, txs, vs, i - 1);
    }
  }

  lemma AccurateStart(env: Env, l: Ledger, txs: seq<Transaction>, vs: seq<Validator>)
    requires Accurate(env, l, vs)
    ensures AccurateAt(env, l, txs, vs, 0)
  {
    hide Accurate;
    assert txs[..0] == [];
  }

  /**
   Over any run whatever, the list and the recorded stakes, by which the active set is ranked, are right
   all the way if and only if no validator changes its stake without leaving and no executed
   confiscation hits a validator that holds something.
   */
  lemma RunRecordsIff(env: Env, l: Ledger, txs: seq<Transaction>, vs: seq<Validator>)
    requires Accurate(env, l, vs)
    ensures (forall i :: 0 <= i <= |txs| ==> AccurateAt(env, l, txs, vs, i)) <==>
            forall i :: 0 <= i < |txs| ==> !GoesStaleAt(env, l, txs, i)
  {
    hide Accurate, GoesStaleAt, AccurateAt;
    if forall i :: 0 <= i < |txs| ==> !GoesStaleAt(env, l, txs, i) {
      forall i | 0 <= i <= |txs| ensures AccurateAt(env, l, txs, vs, i) {
        NeverStale(env, l, txs, vs, i);
      }
    }
    if forall i :: 0 <= i <= |txs| ==> AccurateAt(env, l, txs, vs, i) {
      forall i | 0 <= i < |txs| ensures !GoesStaleAt(env, l, txs, i) {
        assert AccurateAt(env, l, txs, vs, i) && AccurateAt(env, l, txs, vs, i + 1);
        AccurateNext(env, l, txs, vs, i);
      }
    }
  }
}
