/** Proposer selection (consensus/validator.go). */
module Proposers {
  import opened Options
  import opened Uint64
  import opened Ordering

  datatype Validator = Validator(address: string, stake: uint64, active: bool)

  /**
   The value drawn from SHA3 of seed hash, cycle start and offset in the cycle. The hash stays an
   arbitrary function.
   */
  type Lottery = (string, nat, nat) -> uint64

  predicate ByAddress(a: Validator, b: Validator) {
    StrLess(a.address, b.address)
  }

  lemma ByAddressRanks()
    ensures Ranks(ByAddress)
  {
    StrLessRanks();
  }

  /** A configured interval of 0 means 5. */
  function Interval(configured: nat): (r: nat)
    ensures r >= 1
  {
    if configured == 0 then 5 else configured
  }

  function CycleOffset(height: nat, interval: nat): nat
    requires interval >= 1
  {
    if height == 0 then 0 else (height - 1) % interval
  }

  function CycleStart(height: nat, interval: nat): nat
    requires interval >= 1
  {
    height - CycleOffset(height, interval)
  }

  function Draw(active: seq<Validator>, value: uint64): string
    requires active != []
  {
    SortPermutes(ByAddress, active);
    SortBy(ByAddress, active)[value % |active|].address
  }

  lemma DrawIs(active: seq<Validator>, value: uint64)
    requires active != []
    ensures var sorted := SortBy(ByAddress, active);
            |sorted| == |active| && Draw(active, value) == sorted[value % |sorted|].address
  {
    SortPermutes(ByAddress, active);
  }

  /** SelectProposer; `None` when there is no active validator. */
  function SelectProposer(draw: Lottery, active: seq<Validator>, configured: nat, height: nat, hash: string)
    : Option<string>
  {
    var interval := Interval(configured);
    if active == [] then None
    else Some(Draw(active, draw(hash, CycleStart(height, interval), CycleOffset(height, interval))))
  }

  /** GetCycleProposers: the proposers of a whole cycle, computed in one loop. */
  method GetCycleProposers(draw: Lottery, active: seq<Validator>, configured: nat, start: nat, hash: string)
    returns (r: Option<seq<string>>)
    ensures r.None? <==> active == []
    ensures r.Some? ==> |r.value| == if configured == 0 then 5 else configured
    ensures r.Some? ==> forall i :: 0 <= i < |r.value| ==> r.value[i] == Draw(active, draw(hash, start, i))
  {
    hide SortBy, Draw;
    if active == [] {
      return None;
    }
    var interval := Interval(configured);
    var sorted := SortBy(ByAddress, active);
    SortPermutes(ByAddress, active);
    var proposers: seq<string> := [];
    for i := 0 to interval
      invariant |proposers| == i
      invariant forall j :: 0 <= j < i ==> proposers[j] == Draw(active, draw(hash, start, j))
    {
      DrawIs(active, draw(hash, start, i));
      proposers := proposers + [sorted[draw(hash, start, i) % |sorted|].address];
    }
    r := Some(proposers);
  }

  /** The active validators whose addresses come before `a`. */
  ghost function Smaller(active: seq<Validator>, a: string): set<Validator> {
    set v | v in active && StrLess(v.address, a)
  }

  lemma {:induction false} PrefixSize<T>(s: seq<T>, k: nat)
    requires k <= |s| && forall i, j :: 0 <= i < j < |s| ==> s[i] != s[j]
    ensures |SetOf(s[..k])| == k
  {
    if k > 0 {
      PrefixSize(s, k - 1);
      assert SetOf(s[..k]) == SetOf(s[..k - 1]) + {s[k - 1]};
    }
  }

  ghost function SetOf<T>(s: seq<T>): set<T> {
    set x | x in s
  }

  /** The drawn address is the one with exactly `value % n` smaller addresses among the `n` active ones. */
  lemma DrawHasRank(active: seq<Validator>, value: uint64)
    requires active != [] && DistinctAddresses(active)
    ensures |Smaller(active, Draw(active, value))| == value % |active|
    ensures exists v :: v in active && v.address == Draw(active, value)
  {
    var s, k := SortBy(ByAddress, active), value % |active|;
    ByAddressRanks();
    SortPermutes(ByAddress, active);
    SortSorts(ByAddress, active);
    SortKeepsMembers(ByAddress, active);
    SortedIncreases(active, s);
    assert Draw(active, value) == s[k].address && s[k] in active;
    hide SortBy, Draw;
    IncreasingStrs(s);
    PrefixSize(s, k);
    forall v ensures v in Smaller(active, s[k].address) <==> v in s[..k] {
      if v in s && v !in s[..k] {
        var j :| 0 <= j < |s| && s[j] == v;
        assert j >= k;
      }
    }
    assert Smaller(active, s[k].address) == SetOf(s[..k]);
  }

  lemma IncreasingStrs(s: seq<Validator>)
    requires Increasing(ByAddress, s)
    ensures forall i, j :: 0 <= i < j < |s| ==> StrLess(s[i].address, s[j].address) && s[i] != s[j]
    ensures forall i, j :: 0 <= i <= j < |s| ==> !StrLess(s[j].address, s[i].address)
  {
    forall i, j | 0 <= i <= j < |s|
      ensures !StrLess(s[j].address, s[i].address) && (i < j ==> StrLess(s[i].address, s[j].address) && s[i] != s[j])
    {
      StrLessAsym(s[i].address, s[j].address);
      assert i < j ==> ByAddress(s[i], s[j]);
    }
  }

  /** For a cycle start, the precomputed order is what every height of the cycle selects on its own. */
  lemma CycleAgreement(draw: Lottery, active: seq<Validator>, configured: nat, start: nat, hash: string, i: nat)
    requires active != [] && start >= 1 && (start - 1) % Interval(configured) == 0 && i < Interval(configured)
    ensures SelectProposer(draw, active, configured, start + i, hash) == Some(Draw(active, draw(hash, start, i)))
  {
    hide Draw;
    CycleTickets(start, Interval(configured));
    assert TicketOf(start, i, Interval(configured));
  }

  /** Height `start + i` draws the ticket of position `i` in the cycle that begins at `start`. */
  ghost predicate TicketOf(start: nat, i: nat, interval: nat)
    requires interval >= 1
  {
    CycleOffset(start + i, interval) == i && CycleStart(start + i, interval) == start
  }

  /**
   The position in the cycle and the start of the cycle agree with a cycle that begins at `start`, for
   all its heights, exactly when `start` is the beginning of a cycle.
   */
  lemma CycleTickets(start: nat, interval: nat)
    requires start >= 1 && interval >= 1
    ensures (start - 1) % interval == 0 <==>
            forall i :: 0 <= i < interval ==> TicketOf(start, i, interval)
  {
    if (start - 1) % interval == 0 {
      forall i | 0 <= i < interval ensures TicketOf(start, i, interval) {
        ModOfMultiple((start - 1) / interval, i, interval);
      }
    } else {
      assert !TicketOf(start, 0, interval);
    }
  }

  lemma ModOfMultiple(q: nat, i: nat, n: nat)
    requires i < n
    ensures (q * n + i) % n == i
  {
    var m := q * n + i;
    var d := m / n - q;
    assert d * n == i - m % n;
    assert d >= 1 ==> d * n >= n;
    assert d <= -1 ==> d * n + n <= 0;
  }

  ghost predicate DistinctAddresses(vs: seq<Validator>) {
    forall i, j :: 0 <= i < j < |vs| ==> vs[i].address != vs[j].address
  }

  /** Nodes with the same active validators, in whatever order, select the same proposer. */
  lemma ProposerAgreement(
    draw: Lottery, a: seq<Validator>, b: seq<Validator>, configured: nat, height: nat, hash: string)
    requires DistinctAddresses(a) && multiset(a) == multiset(b)
    ensures SelectProposer(draw, a, configured, height, hash) == SelectProposer(draw, b, configured, height, hash)
  {
    assert |a| == |multiset(a)| == |multiset(b)| == |b|;
    SortCanonical(a, b);
  }

  lemma SortCanonical(a: seq<Validator>, b: seq<Validator>)
    requires DistinctAddresses(a) && multiset(a) == multiset(b)
    ensures SortBy(ByAddress, a) == SortBy(ByAddress, b)
  {
    ByAddressRanks();
    var s, t := SortBy(ByAddress, a), SortBy(ByAddress, b);
    SortPermutes(ByAddress, a);
    SortPermutes(ByAddress, b);
    SortSorts(ByAddress, a);
    SortSorts(ByAddress, b);
    SortedIncreases(a, s);
    SortedIncreases(a, t);
    forall x ensures x in s <==> x in t {
      assert x in s <==> x in multiset(s);
      assert x in t <==> x in multiset(t);
    }
    IncreasingUnique(ByAddress, s, t);
  }

  lemma SortedIncreases(a: seq<Validator>, s: seq<Validator>)
    requires DistinctAddresses(a) && multiset(s) == multiset(a) && SortedBy(ByAddress, s)
    ensures Increasing(ByAddress, s)
  {
    var key := (v: Validator) => v.address;
    PermutedKeys(key, a, s);
    forall i, j | 0 <= i < j < |s| ensures ByAddress(s[i], s[j]) {
      assert key(s[i]) != key(s[j]) && !ByAddress(s[j], s[i]);
      StrLessTotal(s[i].address, s[j].address);
    }
  }
}
