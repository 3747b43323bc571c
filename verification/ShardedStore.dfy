/**
 The 36-shard account store (storage/sharded_state.go). The shards together hold one map from
 addresses to accounts; `Contents` is that map.
 */
module ShardedStore {
  import opened Accounts
  import opened Ledger

  /** The 36 shard names 0-9 and a-z. */
  predicate IsShardName(c: char) {
    '0' <= c <= '9' || 'a' <= c <= 'z'
  }

  /** getShardKey: the second character of the address, or '0' when there is no usable one. */
  function ShardKey(address: string): (c: char)
    ensures IsShardName(c)
  {
    if |address| >= 2 && IsShardName(address[1]) then address[1] else '0'
  }

  /** Two addresses share a shard exactly when their second characters agree, unusable ones counting as '0'. */
  lemma SameShardIff(a: string, b: string)
    ensures ShardKey(a) == ShardKey(b) <==> SecondChar(a) == SecondChar(b)
    ensures |a| >= 2 && ('0' <= a[1] <= '9' || 'a' <= a[1] <= 'z') ==> ShardKey(a) == a[1]
    ensures |a| < 2 || !('0' <= a[1] <= '9' || 'a' <= a[1] <= 'z') ==> ShardKey(a) == '0'
  {
  }

  ghost function SecondChar(a: string): char {
    if |a| >= 2 && (('0' <= a[1] && a[1] <= '9') || ('a' <= a[1] && a[1] <= 'z')) then a[1] else '0'
  }

  /** A map that stores every account under its own address. */
  ghost predicate Keyed(m: map<string, AccountData>) {
    forall a :: a in m ==> m[a].address == a
  }

  /** The ledger that a stored map stands for: absent accounts are default accounts. */
  ghost function StoredLedger(m: map<string, AccountData>): Ledger
    requires Keyed(m)
  {
    imap a: string :: if a in m then m[a] else NewAccount(a)
  }

  /** The map that holds the given accounts, later entries winning. */
  function MapOf(accounts: seq<AccountData>): (m: map<string, AccountData>)
    ensures Keyed(m)
    ensures forall a :: a in m <==> exists i :: 0 <= i < |accounts| && accounts[i].address == a
  {
    if accounts == [] then map[]
    else
      var i := |accounts| - 1;
      MapOf(accounts[..i])[accounts[i].address := accounts[i]]
  }

  lemma MapOfPush(accounts: seq<AccountData>, account: AccountData)
    ensures MapOf(accounts + [account]) == MapOf(accounts) + map[account.address := account]
  {
    assert (accounts + [account])[..|accounts|] == accounts;
  }

  lemma RestStep<K, V>(m: map<K, V>, pending: set<K>, k: K)
    requires k in pending && pending <= m.Keys
    ensures m - (pending - {k}) == (m - pending) + map[k := m[k]]
  {
  }

  lemma PlusAssociates<V>(x: map<string, V>, y: map<string, V>, z: map<string, V>)
    ensures (x + y) + z == x + (y + z)
  {
  }

  ghost predicate Distinct(accounts: seq<AccountData>) {
    forall i, j :: 0 <= i < j < |accounts| ==> accounts[i].address != accounts[j].address
  }

  lemma DistinctPush(accounts: seq<AccountData>, account: AccountData)
    requires Distinct(accounts) && account.address !in MapOf(accounts)
    ensures Distinct(accounts + [account])
  {
    forall i | 0 <= i < |accounts| ensures accounts[i].address != account.address {
      assert accounts[i].address in MapOf(accounts);
    }
  }

  /** One pass over a shard: appends its accounts to those collected so far. */
  method AppendAll(accounts: seq<AccountData>, shard: map<string, AccountData>) returns (all: seq<AccountData>)
    requires Keyed(shard) && Distinct(accounts) && MapOf(accounts).Keys !! shard.Keys
    ensures Distinct(all) && MapOf(all) == MapOf(accounts) + shard
  {
    all := accounts;
    var pending := shard.Keys;
    while pending != {}
      invariant pending <= shard.Keys
      invariant Distinct(all) && MapOf(all) == MapOf(accounts) + (shard - pending)
      decreases pending
    {
      var a :| a in pending;
      MapOfPush(all, shard[a]);
      DistinctPush(all, shard[a]);
      RestStep(shard, pending, a);
      PlusAssociates(MapOf(accounts), shard - pending, map[a := shard[a]]);
      all := all + [shard[a]];
      pending := pending - {a};
    }
    assert shard - {} == shard;
  }

  type Shards = map<char, map<string, AccountData>>

  /** Every account of the map belongs to shard `c`. */
  ghost predicate InShard<V>(c: char, m: map<string, V>) {
    forall a :: a in m ==> ShardKey(a) == c
  }

  function Shard<V>(s: map<char, map<string, V>>, c: char): map<string, V> {
    if c in s then s[c] else map[]
  }

  /** The shards together hold exactly the map `m`, every account in its own shard. */
  ghost predicate Holds<V>(s: map<char, map<string, V>>, m: map<string, V>) {
    && (forall c :: c in s ==> s[c].Keys <= m.Keys && InShard(c, s[c]))
    && (forall a :: a in m ==> a in Shard(s, ShardKey(a)) && Shard(s, ShardKey(a))[a] == m[a])
  }

  /** Adding accounts to their shard adds them to the whole. */
  lemma HoldsPut<V>(s: map<char, map<string, V>>, m: map<string, V>, c: char, part: map<string, V>)
    requires Holds(s, m) && InShard(c, part)
    ensures Holds(s[c := Shard(s, c) + part], m + part)
  {
    var s' := s[c := Shard(s, c) + part];
    forall a | a in m + part
      ensures a in Shard(s', ShardKey(a)) && Shard(s', ShardKey(a))[a] == (m + part)[a]
    {
      assert a in part ==> ShardKey(a) == c;
    }
  }

  /** The shards determine the map they hold. */
  lemma HoldsUnique<V>(s: map<char, map<string, V>>, m: map<string, V>, n: map<string, V>)
    requires Holds(s, m) && Holds(s, n)
    ensures m == n
  {
    forall a ensures a in m <==> a in n && (a in m ==> m[a] == n[a]) {
      assert ShardKey(a) in s || ShardKey(a) !in s;
    }
  }

  /** Accounts of a shard that is not there yet are new to the whole. */
  lemma HoldsApart<V>(s: map<char, map<string, V>>, m: map<string, V>, c: char, part: map<string, V>)
    requires Holds(s, m) && InShard(c, part) && c !in s
    ensures m.Keys !! part.Keys
  {
    forall a | a in part ensures a !in m {
      assert ShardKey(a) == c;
    }
  }

  lemma KeyedPart(s: Shards, m: map<string, AccountData>, c: char)
    requires Holds(s, m) && Keyed(m) && c in s
    ensures InShard(c, s[c]) && Keyed(s[c])
  {
    forall a | a in s[c] ensures s[c][a].address == a {
      assert ShardKey(a) == c && a in m;
    }
  }

  /** One more shard taken over from `s`, of which the `pending` ones are still missing. */
  lemma HoldsNext<V>(s: map<char, map<string, V>>, pending: set<char>, m: map<string, V>, c: char)
    requires c in pending && pending <= s.Keys && Holds(s - pending, m) && InShard(c, s[c])
    ensures Holds(s - (pending - {c}), m + s[c])
    ensures m.Keys !! s[c].Keys
  {
    HoldsApart(s - pending, m, c, s[c]);
    HoldsPut(s - pending, m, c, s[c]);
    RestStep(s, pending, c);
    assert Shard(s - pending, c) + s[c] == s[c];
    assert (s - pending)[c := s[c]] == (s - pending) + map[c := s[c]];
  }

  /** Collects the accounts to write into one batch per shard. */
  method GroupByShard(accounts: seq<AccountData>) returns (batches: Shards)
    ensures Holds(batches, MapOf(accounts))
    ensures forall c :: c in batches ==> IsShardName(c)
  {
    batches := map[];
    for i := 0 to |accounts|
      invariant Holds(batches, MapOf(accounts[..i]))
      invariant forall c :: c in batches ==> IsShardName(c)
    {
      var account := accounts[i];
      var key := ShardKey(account.address);
      HoldsPut(batches, MapOf(accounts[..i]), key, map[account.address := account]);
      batches := batches[key := Shard(batches, key) + map[account.address := account]];
      MapOfPush(accounts[..i], account);
      assert accounts[..i] + [account] == accounts[..i + 1];
    }
    assert accounts[..|accounts|] == accounts;
  }

  class Store {
    var shards: Shards
    var stateHeight: nat
    ghost var contents: map<string, AccountData>

    ghost predicate Valid()
      reads this
    {
      Keyed(contents) && Holds(shards, contents) && forall c :: c in shards <==> IsShardName(c)
    }

    ghost function Contents(): (m: map<string, AccountData>)
      reads this
      requires Valid()
      ensures Keyed(m)
    {
      contents
    }

    constructor ()
      ensures Valid() && Contents() == map[] && stateHeight == 0
    {
      shards := map c: char | IsShardName(c) :: map[];
      stateHeight, contents := 0, map[];
    }

    method SaveAccount(account: AccountData)
      requires Valid()
      modifies this
      ensures Valid() && stateHeight == old(stateHeight)
      ensures Contents() == old(Contents())[account.address := account]
    {
      PutInShard(ShardKey(account.address), map[account.address := account]);
    }

    /** One atomic write of a batch to one shard. */
    method PutInShard(c: char, batch: map<string, AccountData>)
      requires Valid() && IsShardName(c) && InShard(c, batch) && Keyed(batch)
      modifies this
      ensures Valid() && stateHeight == old(stateHeight)
      ensures Contents() == old(Contents()) + batch
    {
      HoldsPut(shards, contents, c, batch);
      shards := shards[c := shards[c] + batch];
      contents := contents + batch;
    }

    /** SaveAccountsBatch: accounts are grouped by shard first, then each shard is written once. */
    method SaveAccountsBatch(accounts: seq<AccountData>)
      requires Valid()
      modifies this
      ensures Valid() && stateHeight == old(stateHeight)
      ensures Contents() == old(Contents()) + MapOf(accounts)
    {
      var batches := GroupByShard(accounts);
      WriteBatches(batches, MapOf(accounts));
    }

    /** Commits the collected batches shard by shard. */
    method WriteBatches(batches: Shards, ghost all: map<string, AccountData>)
      requires Valid() && Holds(batches, all) && Keyed(all) && forall c :: c in batches ==> IsShardName(c)
      modifies this
      ensures Valid() && stateHeight == old(stateHeight)
      ensures Contents() == old(Contents()) + all
    {
      var pending := batches.Keys;
      ghost var written: map<string, AccountData> := map[];
      while pending != {}
        invariant pending <= batches.Keys && Holds(batches - pending, written) && Keyed(written)
        invariant Valid() && stateHeight == old(stateHeight)
        invariant Contents() == old(Contents()) + written
        decreases pending
      {
        var c :| c in pending;
        KeyedPart(batches, all, c);
        HoldsNext(batches, pending, written, c);
        PlusAssociates(old(Contents()), written, batches[c]);
        PutInShard(c, batches[c]);
        written, pending := written + batches[c], pending - {c};
      }
      assert batches - {} == batches;
      HoldsUnique(batches, written, all);
    }

    /** SaveAccountsBatchWithHeight: the height is written last and also when nothing changed. */
    method SaveAccountsBatchWithHeight(accounts: seq<AccountData>, height: nat)
      requires Valid()
      modifies this
      ensures Valid() && stateHeight == height
      ensures Contents() == old(Contents()) + MapOf(accounts)
    {
      if |accounts| == 0 {
        stateHeight := height;
        return;
      }
      SaveAccountsBatch(accounts);
      stateHeight := height;
    }

    method GetAccount(address: string) returns (account: AccountData)
      requires Valid()
      ensures account == StoredLedger(Contents())[address]
    {
      var shard := shards[ShardKey(address)];
      account := if address in shard then shard[address] else NewAccount(address);
    }

    /** GetAllAccounts: every stored account exactly once, in no particular order. */
    method GetAllAccounts() returns (accounts: seq<AccountData>)
      requires Valid()
      ensures MapOf(accounts) == Contents()
      ensures Distinct(accounts)
    {
      accounts := [];
      var pending := shards.Keys;
      while pending != {}
        invariant pending <= shards.Keys
        invariant Distinct(accounts) && Holds(shards - pending, MapOf(accounts))
        decreases pending
      {
        var c :| c in pending;
        KeyedPart(shards, contents, c);
        HoldsNext(shards, pending, MapOf(accounts), c);
        accounts := AppendAll(accounts, shards[c]);
        pending := pending - {c};
      }
      assert shards - {} == shards;
      HoldsUnique(shards, MapOf(accounts), contents);
    }

    method ClearAllAccounts()
      requires Valid()
      modifies this
      ensures Valid() && Contents() == map[] && stateHeight == old(stateHeight)
    {
      shards := map c | c in shards :: map[];
      contents := map[];
    }
  }
}
