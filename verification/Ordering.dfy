/** String order, and sorting as done by Go's sort.Slice. */
module Ordering {

  /** `s < t` on strings. */
  predicate StrLess(s: string, t: string) {
    t != [] && (s == [] || s[0] < t[0] || (s[0] == t[0] && StrLess(s[1..], t[1..])))
  }

  lemma {:induction false} StrLessAsym(s: string, t: string)
    ensures !(StrLess(s, t) && StrLess(t, s))
  {
    if s != [] && t != [] {
      StrLessAsym(s[1..], t[1..]);
    }
  }

  lemma {:induction false} StrLessTotal(s: string, t: string)
    ensures s == t || StrLess(s, t) || StrLess(t, s)
  {
    if s != [] && t != [] {
      StrLessTotal(s[1..], t[1..]);
      assert s == [s[0]] + s[1..] && t == [t[0]] + t[1..];
    }
  }

  lemma {:induction false} StrLessTrans(s: string, t: string, u: string)
    requires StrLess(s, t) && StrLess(t, u)
    ensures StrLess(s, u)
  {
    if s != [] && s[0] == t[0] == u[0] {
      StrLessTrans(s[1..], t[1..], u[1..]);
    }
  }

  /** The order is that of the first difference; a proper prefix comes first. */
  lemma {:induction false} StrLessIff(s: string, t: string)
    ensures StrLess(s, t) <==> exists k: nat :: FirstDifference(s, t, k)
  {
    if s != [] && t != [] && s[0] == t[0] {
      StrLessIff(s[1..], t[1..]);
      assert s == [s[0]] + s[1..] && t == [t[0]] + t[1..];
      if StrLess(s, t) {
        var k: nat :| FirstDifference(s[1..], t[1..], k);
        assert s[..k + 1] == [s[0]] + s[1..][..k] && t[..k + 1] == [t[0]] + t[1..][..k];
        assert FirstDifference(s, t, k + 1);
      }
      if k: nat :| FirstDifference(s, t, k) {
        assert k > 0;
        assert s[1..][..k - 1] == s[..k][1..] && t[1..][..k - 1] == t[..k][1..];
        assert FirstDifference(s[1..], t[1..], k - 1);
      }
    } else if StrLess(s, t) {
      assert FirstDifference(s, t, 0);
    } else {
      forall k: nat | 0 < k <= |s| && k < |t| && s[..k] == t[..k] ensures s[0] == t[0] {
        SharedHead(s, t, k);
      }
    }
  }

  lemma SharedHead(s: string, t: string, k: nat)
    requires 0 < k <= |s| && k < |t| && s[..k] == t[..k]
    ensures s[0] == t[0]
  {
    assert s[..k][0] == s[0] && t[..k][0] == t[0];
  }

  ghost predicate FirstDifference(s: string, t: string, k: nat) {
    k <= |s| && k < |t| && s[..k] == t[..k] && (k == |s| || s[k] < t[k])
  }

  /** A strict weak order, which is what sort.Slice asks of its comparison. */
  ghost predicate Ranks<T(!new)>(lt: (T, T) -> bool) {
    && (forall x, y :: lt(x, y) ==> !lt(y, x))
    && (forall x, y, z :: !lt(y, x) && !lt(z, y) ==> !lt(z, x))
  }

  ghost predicate SortedBy<T>(lt: (T, T) -> bool, s: seq<T>) {
    forall i, j :: 0 <= i < j < |s| ==> !lt(s[j], s[i])
  }

  function InsertBy<T>(lt: (T, T) -> bool, x: T, s: seq<T>): seq<T> {
    if s == [] then [x]
    else if lt(s[0], x) then [s[0]] + InsertBy(lt, x, s[1..])
    else [x] + s
  }

  function SortBy<T>(lt: (T, T) -> bool, s: seq<T>): seq<T> {
    if s == [] then [] else InsertBy(lt, s[0], SortBy(lt, s[1..]))
  }

  lemma {:induction false} InsertPermutes<T>(lt: (T, T) -> bool, x: T, s: seq<T>)
    ensures multiset(InsertBy(lt, x, s)) == multiset(s) + multiset{x}
  {
    if s != [] {
      InsertPermutes(lt, x, s[1..]);
      assert s == [s[0]] + s[1..];
    }
  }

  lemma {:induction false} SortPermutes<T>(lt: (T, T) -> bool, s: seq<T>)
    ensures multiset(SortBy(lt, s)) == multiset(s) && |SortBy(lt, s)| == |s|
  {
    if s != [] {
      SortPermutes(lt, s[1..]);
      InsertPermutes(lt, s[0], SortBy(lt, s[1..]));
      assert s == [s[0]] + s[1..];
    }
    assert |multiset(SortBy(lt, s))| == |multiset(s)|;
  }

  lemma SortKeepsMembers<T>(lt: (T, T) -> bool, s: seq<T>)
    ensures forall x :: x in SortBy(lt, s) <==> x in s
  {
    SortPermutes(lt, s);
    assert forall x :: x in SortBy(lt, s) <==> x in multiset(SortBy(lt, s));
    assert forall x :: x in s <==> x in multiset(s);
  }

  lemma {:induction false} InsertSorted<T(!new)>(lt: (T, T) -> bool, x: T, s: seq<T>)
    requires Ranks(lt) && SortedBy(lt, s)
    ensures SortedBy(lt, InsertBy(lt, x, s))
  {
    if s != [] && lt(s[0], x) {
      InsertSorted(lt, x, s[1..]);
      InsertPermutes(lt, x, s[1..]);
      var r := InsertBy(lt, x, s[1..]);
      forall y | y in r ensures !lt(y, s[0]) {
        assert y in multiset(r);
        assert y == x || y in s[1..];
      }
    } else if s != [] {
      forall y | y in s ensures !lt(y, x) {
        assert y == s[0] || y in s[1..];
      }
    }
  }

  lemma {:induction false} SortSorts<T(!new)>(lt: (T, T) -> bool, s: seq<T>)
    requires Ranks(lt)
    ensures SortedBy(lt, SortBy(lt, s))
  {
    if s != [] {
      SortSorts(lt, s[1..]);
      InsertSorted(lt, s[0], SortBy(lt, s[1..]));
    }
  }

  /** Strictly increasing under `lt`. */
  ghost predicate Increasing<T>(lt: (T, T) -> bool, s: seq<T>) {
    forall i, j :: 0 <= i < j < |s| ==> lt(s[i], s[j])
  }

  lemma HeadIsMember<T>(s: seq<T>)
    ensures s != [] ==> s[0] in s
  {
  }

  /** A strictly increasing sequence is determined by its members. */
  lemma {:induction false} IncreasingUnique<T(!new)>(lt: (T, T) -> bool, a: seq<T>, b: seq<T>)
    requires Ranks(lt) && Increasing(lt, a) && Increasing(lt, b)
    requires forall x :: x in a <==> x in b
    ensures a == b
  {
    HeadIsMember(b);
    if a != [] {
      assert a[0] in b && b[0] in a;
      var i :| 0 <= i < |b| && b[i] == a[0];
      var j :| 0 <= j < |a| && a[j] == b[0];
      assert i == 0 || j == 0;
      forall x ensures x in a[1..] <==> x in b[1..] {
        assert x in a[1..] ==> lt(a[0], x);
        assert x in b[1..] ==> lt(b[0], x);
        assert x in a <==> x == a[0] || x in a[1..];
        assert x in b <==> x == b[0] || x in b[1..];
      }
      IncreasingUnique(lt, a[1..], b[1..]);
      assert a == [a[0]] + a[1..] && b == [b[0]] + b[1..];
    }
  }

  /** StrLess ranks strings. */
  lemma StrLessRanks()
    ensures Ranks(StrLess)
  {
    forall s, t ensures StrLess(s, t) ==> !StrLess(t, s) {
      StrLessAsym(s, t);
    }
    forall s, t, u | !StrLess(t, s) && !StrLess(u, t) ensures !StrLess(u, s) {
      if StrLess(u, s) {
        StrLessTotal(s, t);
        StrLessTotal(t, u);
        if s != t && t != u {
          StrLessTrans(s, t, u);
        }
        StrLessAsym(u, s);
      }
    }
  }

  // ---- permutations of lists with distinct keys ----

  ghost predicate DistinctKeys<T>(key: T -> string, s: seq<T>) {
    forall i, j :: 0 <= i < j < |s| ==> key(s[i]) != key(s[j])
  }

  /** A permutation of a list with distinct keys has distinct keys. */
  lemma PermutedKeys<T>(key: T -> string, a: seq<T>, s: seq<T>)
    requires DistinctKeys(key, a) && multiset(s) == multiset(a)
    ensures DistinctKeys(key, s)
  {
    forall i, j | 0 <= i < j < |s| ensures key(s[i]) != key(s[j]) {
      assert s[i] in multiset(s) && s[j] in multiset(s);
      assert s[i] in a && s[j] in a;
      OccursOnce(key, a, s[i]);
      if s[i] == s[j] {
        OccursTwice(s, i, j);
      }
    }
  }

  lemma {:induction false} OccursOnce<T>(key: T -> string, a: seq<T>, x: T)
    requires DistinctKeys(key, a)
    ensures multiset(a)[x] <= 1
  {
    if a != [] {
      var i := |a| - 1;
      assert a == a[..i] + [a[i]];
      OccursOnce(key, a[..i], x);
      assert x == a[i] ==> x !in a[..i];
      assert x in multiset(a[..i]) <==> x in a[..i];
    }
  }

  lemma OccursTwice<T>(s: seq<T>, i: nat, j: nat)
    requires i < j < |s| && s[i] == s[j]
    ensures multiset(s)[s[i]] >= 2
  {
    assert s == s[..i + 1] + s[i + 1..];
    assert multiset(s) == multiset(s[..i + 1]) + multiset(s[i + 1..]);
    assert s[i] == s[..i + 1][i] && s[j] == s[i + 1..][j - i - 1];
    assert s[i] in multiset(s[..i + 1]) && s[i] in multiset(s[i + 1..]);
  }
}
