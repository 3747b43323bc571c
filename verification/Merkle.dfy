/**
 The state root (state/merkle.go): accounts are sorted by address, hashed, and folded into a Merkle
 tree that duplicates the last node of an odd level. SHA-256 is taken to be collision-free, so a
 digest is the term that was hashed: a text, or a pair of digests; the all-zero digest is neither.
 */
module Merkle {
  import opened Accounts
  import opened Ordering
  import opened ShardedStore
  import opened StateManager

  datatype Digest = Zero | OfText(text: string) | OfPair(left: Digest, right: Digest)

  // ---- the tree ----

  /** One level up; the last node of an odd level is paired with itself. */
  function Parents(nodes: seq<Digest>): (ps: seq<Digest>)
    ensures |ps| == (|nodes| + 1) / 2
  {
    seq((|nodes| + 1) / 2, i requires 0 <= i < (|nodes| + 1) / 2 =>
      OfPair(nodes[2 * i], if 2 * i + 1 < |nodes| then nodes[2 * i + 1] else nodes[2 * i]))
  }

  function Root(nodes: seq<Digest>): Digest
    decreases |nodes|
  {
    if nodes == [] then Zero
    else if |nodes| == 1 then nodes[0]
    else Root(Parents(nodes))
  }

  /** buildMerkleTree: pads an odd level, fills the parents in a loop, and recurses. */
  method BuildMerkleTree(leaves: seq<Digest>) returns (root: Digest)
    ensures root == Root(leaves)
    decreases |leaves|
  {
    if |leaves| == 0 {
      return Zero;
    }
    if |leaves| == 1 {
      return leaves[0];
    }
    var level := if |leaves| % 2 != 0 then leaves + [leaves[|leaves| - 1]] else leaves;
    var parents: seq<Digest> := [];
    var i := 0;
    while i < |level|
      invariant 0 <= i <= |level| && i % 2 == 0 && |parents| == i / 2
      invariant parents == Parents(leaves)[..i / 2]
    {
      parents := parents + [OfPair(level[i], level[i + 1])];
      i := i + 2;
    }
    assert parents == Parents(leaves);
    root := BuildMerkleTree(parents);
  }

  ghost predicate AllDistinct<T>(s: seq<T>) {
    forall i, j :: 0 <= i < j < |s| ==> s[i] != s[j]
  }

  ghost function Depth(d: Digest): nat {
    if d.OfPair? then 1 + Depth(d.left) else 0
  }

  ghost predicate AllAtDepth(nodes: seq<Digest>, n: nat) {
    forall i :: 0 <= i < |nodes| ==> Depth(nodes[i]) == n
  }

  lemma ParentsDistinct(nodes: seq<Digest>, n: nat)
    requires AllDistinct(nodes) && AllAtDepth(nodes, n)
    ensures AllDistinct(Parents(nodes)) && AllAtDepth(Parents(nodes), n + 1)
  {
  }

  /** Distinct nodes can be read off their parents, the duplicated last one included. */
  lemma ParentsInjective(a: seq<Digest>, b: seq<Digest>)
    requires AllDistinct(a) && AllDistinct(b) && Parents(a) == Parents(b)
    ensures a == b
  {
    assert |a| == |b| by {
      var k := |Parents(a)| - 1;
      if k >= 0 {
        assert Parents(a)[k] == Parents(b)[k];
      }
    }
    forall i | 0 <= i < |a| ensures a[i] == b[i] {
      assert Parents(a)[i / 2] == Parents(b)[i / 2];
    }
  }

  lemma {:induction false} RootDepth(nodes: seq<Digest>, n: nat)
    requires nodes != [] && AllAtDepth(nodes, n)
    ensures Depth(Root(nodes)) >= n && (|nodes| > 1 ==> Depth(Root(nodes)) > n)
    decreases |nodes|
  {
    if |nodes| > 1 {
      assert AllAtDepth(Parents(nodes), n + 1);
      RootDepth(Parents(nodes), n + 1);
    }
  }

  /** The root determines the list of nodes, also among lists of different lengths. */
  lemma {:induction false} RootInjective(a: seq<Digest>, b: seq<Digest>, n: nat)
    requires a != [] && b != [] && Root(a) == Root(b)
    requires AllDistinct(a) && AllDistinct(b) && AllAtDepth(a, n) && AllAtDepth(b, n)
    ensures a == b
    decreases |a|
  {
    RootDepth(a, n);
    RootDepth(b, n);
    if |a| > 1 && |b| > 1 {
      ParentsDistinct(a, n);
      ParentsDistinct(b, n);
      RootInjective(Parents(a), Parents(b), n + 1);
      ParentsInjective(a, b);
    }
  }

  /** Distinctness is needed: a repeated last leaf cannot be told from the padding. */
  lemma DuplicateLeafCollides(x: Digest, y: Digest, z: Digest)
    ensures Root([x, y, z]) == Root([x, y, z, z])
  {
    assert Parents([x, y, z]) == Parents([x, y, z, z]);
  }

  // ---- where a leaf sits ----

  /** The number of levels above `n` leaves. */
  ghost function Levels(n: nat): nat {
    if n <= 1 then 0 else 1 + Levels((n + 1) / 2)
  }

  /**
   The node at position `i` of level `k` below a digest: the left child of position `i / 2` one level up
   for even `i`, the right child for odd `i`.
   */
  ghost function Walk(d: Digest, k: nat, i: nat): Digest {
    if k == 0 then d
    else
      var parent := Walk(d, k - 1, i / 2);
      if !parent.OfPair? then parent else if i % 2 == 0 then parent.left else parent.right
  }

  /** Walking down from the root by the bits of `i`, left for 0 and right for 1, reaches leaf `i`. */
  lemma {:induction false} LeafAt(leaves: seq<Digest>, i: nat)
    requires i < |leaves|
    ensures Walk(Root(leaves), Levels(|leaves|), i) == leaves[i]
    decreases |leaves|
  {
    if |leaves| > 1 {
      LeafAt(Parents(leaves), i / 2);
    }
  }

  // ---- the leaves ----

  /** `%d` */
  function Decimal(n: nat): (s: string)
    ensures s != []
    ensures forall i :: 0 <= i < |s| ==> '0' <= s[i] <= '9'
  {
    if n < 10 then ['0' + n as char] else Decimal(n / 10) + ['0' + (n % 10) as char]
  }

  lemma {:induction false} DecimalInjective(m: nat, n: nat)
    requires Decimal(m) == Decimal(n)
    ensures m == n
  {
    var s := Decimal(m);
    if m >= 10 && n >= 10 {
      assert Decimal(m / 10) == s[..|s| - 1] == Decimal(n / 10);
      DecimalInjective(m / 10, n / 10);
      assert s[|s| - 1] == '0' + (m % 10) as char == '0' + (n % 10) as char;
    }
  }

  /** "%s:%d:%d:%d:%d" */
  function AccountText(d: AccountData): string {
    d.address + ":" + Decimal(d.available) + ":" + Decimal(d.staked) + ":" + Decimal(d.nonce) + ":"
    + Decimal(d.nodeType)
  }

  /** The number a string of digits stands for. */
  function Parse(s: string): nat
    requires forall i :: 0 <= i < |s| ==> '0' <= s[i] <= '9'
  {
    if s == [] then 0 else Parse(s[..|s| - 1]) * 10 + (s[|s| - 1] - '0') as nat
  }

  lemma {:induction false} DecimalParses(n: nat)
    ensures Parse(Decimal(n)) == n && (Decimal(n)[0] == '0' ==> n == 0)
  {
    if n >= 10 {
      DecimalParses(n / 10);
      assert Decimal(n)[..|Decimal(n)| - 1] == Decimal(n / 10);
    } else {
      assert Decimal(n)[..0] == [];
    }
  }

  /** A text cut at its last colon. */
  function CutLast(s: string): (string, string) {
    if s == [] then ("", "")
    else
      var n := |s| - 1;
      if s[n] == ':' then (s[..n], "") else var (p, q) := CutLast(s[..n]); (p, q + [s[n]])
  }

  lemma {:induction false} CutsBeforeLast(a: string, x: string)
    requires NoColon(x)
    ensures CutLast(a + ":" + x) == (a, x)
  {
    var s := a + ":" + x;
    if x == [] {
      assert s[..|s| - 1] == a;
    } else {
      var n := |x| - 1;
      assert s[..|s| - 1] == a + ":" + x[..n];
      CutsBeforeLast(a, x[..n]);
      assert x[..n] + [x[n]] == x;
    }
  }

  /**
   Cutting the hashed text at its last four colons gives the address, the available balance, the stake,
   the nonce and the node type, in that order and in decimal.
   */
  lemma AccountTextReads(d: AccountData)
    ensures
      var (t3, nodeType) := CutLast(AccountText(d));
      var (t2, nonce) := CutLast(t3);
      var (t1, staked) := CutLast(t2);
      var (address, available) := CutLast(t1);
      && address == d.address && available == Decimal(d.available) && staked == Decimal(d.staked)
      && nonce == Decimal(d.nonce) && nodeType == Decimal(d.nodeType)
      && Parse(available) == d.available && Parse(staked) == d.staked && Parse(nonce) == d.nonce
      && Parse(nodeType) == d.nodeType
  {
    hide Decimal, CutLast, Parse;
    var t1 := d.address + ":" + Decimal(d.available);
    var t2 := t1 + ":" + Decimal(d.staked);
    var t3 := t2 + ":" + Decimal(d.nonce);
    assert AccountText(d) == t3 + ":" + Decimal(d.nodeType);
    CutsBeforeLast(t3, Decimal(d.nodeType));
    CutsBeforeLast(t2, Decimal(d.nonce));
    CutsBeforeLast(t1, Decimal(d.staked));
    CutsBeforeLast(d.address, Decimal(d.available));
    DecimalParses(d.available);
    DecimalParses(d.staked);
    DecimalParses(d.nonce);
    DecimalParses(d.nodeType);
  }

  /** hashAccount. */
  function HashAccount(d: AccountData): Digest {
    OfText(AccountText(d))
  }

  ghost predicate NoColon(s: string) {
    forall i :: 0 <= i < |s| ==> s[i] != ':'
  }

  /** A text splits uniquely at its last colon. */
  lemma SplitLast(a: string, x: string, b: string, y: string)
    requires NoColon(x) && NoColon(y) && a + ":" + x == b + ":" + y
    ensures a == b && x == y
  {
    var s, t := a + ":" + x, b + ":" + y;
    assert s[|a|] == ':' && t[|b|] == ':';
    assert forall i :: |a| < i < |s| ==> s[i] != ':';
    assert forall i :: |b| < i < |t| ==> t[i] != ':';
    assert a == s[..|a|] == t[..|b|] == b;
    assert x == s[|a| + 1..] == t[|b| + 1..] == y;
  }

  /** The account fields that enter the hash; node status and stake lock do not. */
  ghost predicate SameHashed(d: AccountData, e: AccountData) {
    d.address == e.address && d.available == e.available && d.staked == e.staked && d.nonce == e.nonce &&
    d.nodeType == e.nodeType
  }

  /** The hashed text determines every hashed field, whatever characters the address contains. */
  lemma AccountTextInjective(d: AccountData, e: AccountData)
    ensures AccountText(d) == AccountText(e) <==> SameHashed(d, e)
  {
    if AccountText(d) == AccountText(e) {
      var d1, e1 := d.address + ":" + Decimal(d.available), e.address + ":" + Decimal(e.available);
      var d2, e2 := d1 + ":" + Decimal(d.staked), e1 + ":" + Decimal(e.staked);
      var d3, e3 := d2 + ":" + Decimal(d.nonce), e2 + ":" + Decimal(e.nonce);
      SplitLast(d3, Decimal(d.nodeType), e3, Decimal(e.nodeType));
      SplitLast(d2, Decimal(d.nonce), e2, Decimal(e.nonce));
      SplitLast(d1, Decimal(d.staked), e1, Decimal(e.staked));
      SplitLast(d.address, Decimal(d.available), e.address, Decimal(e.available));
      DecimalInjective(d.nodeType, e.nodeType);
      DecimalInjective(d.nonce, e.nonce);
      DecimalInjective(d.staked, e.staked);
      DecimalInjective(d.available, e.available);
    }
  }

  // ---- the state root ----

  predicate AddressLess(d: AccountData, e: AccountData) {
    StrLess(d.address, e.address)
  }

  /** The Merkle root of a list of accounts, given in any order. */
  function RootOf(accounts: seq<AccountData>): Digest {
    Root(HashAll(SortBy(AddressLess, accounts)))
  }

  function HashAll(accounts: seq<AccountData>): (ds: seq<Digest>)
    ensures |ds| == |accounts|
  {
    seq(|accounts|, i requires 0 <= i < |accounts| => HashAccount(accounts[i]))
  }

  ghost function Addresses(accounts: seq<AccountData>): (s: seq<string>)
    ensures |s| == |accounts|
  {
    seq(|accounts|, i requires 0 <= i < |accounts| => accounts[i].address)
  }

  lemma AddressLessRanks()
    ensures Ranks(AddressLess)
  {
    StrLessRanks();
  }

  /** Sorting a list without repeated addresses keeps its map and makes the addresses increase. */
  lemma SortedAccounts(accounts: seq<AccountData>)
    requires Distinct(accounts)
    ensures
      var s := SortBy(AddressLess, accounts);
      && (forall d :: d in s <==> d in accounts)
      && Increasing(StrLess, Addresses(s))
  {
    var s := SortBy(AddressLess, accounts);
    AddressLessRanks();
    SortSorts(AddressLess, accounts);
    SortKeepsMembers(AddressLess, accounts);
    SortPermutes(AddressLess, accounts);
    var key := (d: AccountData) => d.address;
    PermutedKeys(key, accounts, s);
    forall i, j | 0 <= i < j < |s| ensures StrLess(s[i].address, s[j].address) {
      assert !AddressLess(s[j], s[i]) && key(s[i]) != key(s[j]);
      StrLessTotal(s[i].address, s[j].address);
    }
  }

  /** Position `i` of the tree holds the text of the account with the `i`-th smallest address. */
  lemma AccountAt(x: seq<AccountData>, s: seq<AccountData>, i: nat)
    requires Distinct(x) && multiset(s) == multiset(x) && i < |s|
    requires forall j, k :: 0 <= j < k < |s| ==> StrLess(s[j].address, s[k].address)
    ensures Walk(RootOf(x), Levels(|x|), i) == OfText(AccountText(s[i]))
  {
    hide Walk, Levels, AccountText;
    assert |multiset(s)| == |multiset(x)|;
    AddressLessRanks();
    SortPermutes(AddressLess, x);
    SortedAccounts(x);
    var t := SortBy(AddressLess, x);
    forall j, k | 0 <= j < k < |t| ensures AddressLess(t[j], t[k]) {
      assert StrLess(Addresses(t)[j], Addresses(t)[k]);
    }
    forall d ensures d in s <==> d in t {
      assert d in s <==> d in multiset(s);
      assert d in t <==> d in multiset(t);
    }
    IncreasingUnique(AddressLess, s, t);
    LeafAt(HashAll(t), i);
  }

  /** The two maps have the same accounts as far as the hash goes. */
  ghost predicate SameHashedMap(m: map<string, AccountData>, n: map<string, AccountData>) {
    m.Keys == n.Keys && forall a :: a in m ==> SameHashed(m[a], n[a])
  }

  lemma MapOfMember(accounts: seq<AccountData>, d: AccountData)
    requires Distinct(accounts)
    ensures d in accounts <==> d.address in MapOf(accounts) && MapOf(accounts)[d.address] == d
  {
    if accounts != [] {
      var i := |accounts| - 1;
      MapOfMember(accounts[..i], d);
      assert accounts == accounts[..i] + [accounts[i]];
      if d in accounts[..i] {
        assert d.address != accounts[i].address;
      }
    }
  }

  /**
   State roots agree exactly when the merged accounts agree on every hashed field. In particular the
   order in which the accounts are listed does not matter.
   */
  lemma StateRootDecides(x: seq<AccountData>, y: seq<AccountData>)
    requires Distinct(x) && Distinct(y)
    ensures RootOf(x) == RootOf(y) <==> SameHashedMap(MapOf(x), MapOf(y))
  {
    var s, t := SortBy(AddressLess, x), SortBy(AddressLess, y);
    SortedAccounts(x);
    SortedAccounts(y);
    if RootOf(x) == RootOf(y) {
      LeavesOf(s);
      LeavesOf(t);
      EmptyRoot(HashAll(s));
      EmptyRoot(HashAll(t));
      if s != [] && t != [] {
        RootInjective(HashAll(s), HashAll(t), 0);
      }
      assert HashAll(s) == HashAll(t);
      SameLeavesSameMap(x, y, s, t);
    }
    if SameHashedMap(MapOf(x), MapOf(y)) {
      SameMapSameLeaves(x, y, s, t);
    }
  }

  lemma EmptyRoot(nodes: seq<Digest>)
    requires AllAtDepth(nodes, 0) && forall i :: 0 <= i < |nodes| ==> nodes[i].OfText?
    ensures Root(nodes) == Zero <==> nodes == []
  {
    if |nodes| > 1 {
      RootDepth(nodes, 0);
    }
  }

  /** Sorted accounts have pairwise different leaves. */
  lemma LeavesOf(s: seq<AccountData>)
    requires Increasing(StrLess, Addresses(s))
    ensures AllDistinct(HashAll(s)) && AllAtDepth(HashAll(s), 0)
  {
    forall i, j | 0 <= i < j < |s| ensures HashAll(s)[i] != HashAll(s)[j] {
      assert StrLess(Addresses(s)[i], Addresses(s)[j]);
      StrLessAsym(s[i].address, s[j].address);
      AccountTextInjective(s[i], s[j]);
    }
  }

  lemma SameLeavesSameMap(x: seq<AccountData>, y: seq<AccountData>, s: seq<AccountData>, t: seq<AccountData>)
    requires Distinct(x) && Distinct(y) && HashAll(s) == HashAll(t)
    requires (forall d :: d in s <==> d in x) && (forall d :: d in t <==> d in y)
    ensures SameHashedMap(MapOf(x), MapOf(y))
  {
    HashedSubset(x, y, s, t);
    HashedSubset(y, x, t, s);
  }

  lemma HashedSubset(x: seq<AccountData>, y: seq<AccountData>, s: seq<AccountData>, t: seq<AccountData>)
    requires Distinct(x) && Distinct(y) && HashAll(s) == HashAll(t)
    requires (forall d :: d in s <==> d in x) && (forall d :: d in t <==> d in y)
    ensures forall a :: a in MapOf(x) ==> a in MapOf(y) && SameHashed(MapOf(x)[a], MapOf(y)[a])
  {
    forall a | a in MapOf(x) ensures a in MapOf(y) && SameHashed(MapOf(x)[a], MapOf(y)[a]) {
      MapOfMember(x, MapOf(x)[a]);
      var i :| 0 <= i < |s| && s[i] == MapOf(x)[a];
      assert HashAll(s)[i] == HashAll(t)[i];
      AccountTextInjective(s[i], t[i]);
      assert t[i] in y;
      MapOfMember(y, t[i]);
    }
  }

  lemma SameMapSameLeaves(x: seq<AccountData>, y: seq<AccountData>, s: seq<AccountData>, t: seq<AccountData>)
    requires Distinct(x) && Distinct(y) && SameHashedMap(MapOf(x), MapOf(y))
    requires (forall d :: d in s <==> d in x) && (forall d :: d in t <==> d in y)
    requires Increasing(StrLess, Addresses(s)) && Increasing(StrLess, Addresses(t))
    ensures HashAll(s) == HashAll(t)
  {
    forall a ensures a in Addresses(s) <==> a in Addresses(t) {
      AddressesAreKeys(x, s, a);
      AddressesAreKeys(y, t, a);
    }
    StrLessRanks();
    IncreasingUnique(StrLess, Addresses(s), Addresses(t));
    forall i | 0 <= i < |s| ensures HashAll(s)[i] == HashAll(t)[i] {
      assert Addresses(s)[i] == Addresses(t)[i];
      assert s[i] in x && t[i] in y;
      MapOfMember(x, s[i]);
      MapOfMember(y, t[i]);
      AccountTextInjective(s[i], t[i]);
    }
  }

  lemma AddressesAreKeys(x: seq<AccountData>, s: seq<AccountData>, a: string)
    requires Distinct(x) && forall d :: d in s <==> d in x
    ensures a in Addresses(s) <==> a in MapOf(x)
  {
    if a in Addresses(s) {
      var i :| 0 <= i < |s| && Addresses(s)[i] == a;
      assert s[i] in x;
      MapOfMember(x, s[i]);
    }
    if a in MapOf(x) {
      MapOfMember(x, MapOf(x)[a]);
      var i :| 0 <= i < |s| && s[i] == MapOf(x)[a];
      assert Addresses(s)[i] == a;
    }
  }

  /** CalculateStateRoot, of the stored accounts overlaid by the cached ones, default ones included. */
  method CalculateStateRoot(sm: Manager) returns (root: Digest, ghost hashed: seq<AccountData>)
    requires sm.Shape()
    ensures Distinct(hashed) && MapOf(hashed) == sm.Merged() && root == RootOf(hashed)
    ensures forall x :: Distinct(x) && MapOf(x) == sm.Merged() ==> root == RootOf(x)
  {
    var m := sm.MergeAccounts();
    var accounts := ListOf(m);
    hashed := accounts;
    if |accounts| == 0 {
      root := Zero;
    } else {
      root := BuildMerkleTree(HashAll(SortBy(AddressLess, accounts)));
    }
    forall x | Distinct(x) && MapOf(x) == sm.Merged() ensures root == RootOf(x) {
      StateRootDecides(x, accounts);
    }
  }

  /** After a snapshot transfer both nodes compute the same state root. */
  method RootsAfterTransfer(sender: Manager, receiver: Manager) returns (ok: bool, mine: Digest, theirs: Digest)
    requires sender.Shape() && receiver.Shape()
    requires sender.db != receiver.db && sender != receiver
    requires receiver !in sender.objects && receiver.db !in sender.objects
    modifies receiver, receiver.db
    ensures ok ==> mine == theirs
  {
    ok := TransferSnapshot(sender, receiver);
    ghost var x, y;
    mine, x := CalculateStateRoot(sender);
    theirs, y := CalculateStateRoot(receiver);
  }
}
