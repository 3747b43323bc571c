/** Positional numerals, most significant digit first, in any base. */
module Numerals {

  type Base = b: int | 2 <= b witness 2

  ghost function Pow(b: Base, k: nat): (p: nat)
    ensures p >= 1
  {
    if k == 0 then 1 else
      var p := Pow(b, k - 1);
      assert b * p >= p;
      b * p
  }

  predicate Digits(ds: seq<nat>, b: Base) {
    forall i :: 0 <= i < |ds| ==> ds[i] < b
  }

  function Value(ds: seq<nat>, b: Base): nat {
    if ds == [] then 0 else Value(ds[..|ds| - 1], b) * b + ds[|ds| - 1]
  }

  /** The `k` lowest digits of `n`. */
  function Fixed(n: nat, b: Base, k: nat): (ds: seq<nat>)
    ensures |ds| == k && Digits(ds, b)
  {
    if k == 0 then [] else Fixed(n / b, b, k - 1) + [n % b]
  }

  /** The digits of `n` without leading zeros; none for 0. */
  ghost function Minimal(n: nat, b: Base): (ds: seq<nat>)
    ensures Digits(ds, b)
  {
    if n == 0 then [] else
      DivLess(n, b);
      Minimal(n / b, b) + [n % b]
  }

  function Zeros(k: nat): (ds: seq<nat>)
    ensures |ds| == k
  {
    seq(k, _ => 0)
  }

  lemma DivLess(n: nat, b: Base)
    requires n > 0
    ensures n / b < n
  {
  }

  lemma DivMod(n: nat, b: Base)
    ensures n / b * b + n % b == n && n % b < b
  {
  }

  lemma DivModUnique(q: nat, r: nat, b: Base)
    requires r < b
    ensures (q * b + r) / b == q && (q * b + r) % b == r
  {
    var n := q * b + r;
    DivMod(n, b);
    var d := n / b - q;
    assert d * b == r - n % b;
    MulAtLeast(d, b);
  }

  lemma MulAtLeast(d: int, b: Base)
    ensures d >= 1 ==> d * b >= b
    ensures d <= -1 ==> d * b + b <= 0
  {
  }

  /** Dropping the last digit of a number below `b * p` leaves a number below `p`, and back. */
  lemma DivBound(n: nat, b: Base, p: nat)
    ensures n / b < p <==> n < b * p
  {
    DivMod(n, b);
    if n / b < p {
      assert (n / b + 1) * b <= p * b;
    } else {
      assert n / b * b >= p * b;
    }
  }

  lemma {:induction false} ValueBound(ds: seq<nat>, b: Base)
    requires Digits(ds, b)
    ensures Value(ds, b) < Pow(b, |ds|)
  {
    if ds != [] {
      var k := |ds| - 1;
      ValueBound(ds[..k], b);
      DivModUnique(Value(ds[..k], b), ds[k], b);
      DivBound(Value(ds, b), b, Pow(b, k));
    }
  }

  lemma {:induction false} FixedOfValue(ds: seq<nat>, b: Base)
    requires Digits(ds, b)
    ensures Fixed(Value(ds, b), b, |ds|) == ds
  {
    if ds != [] {
      var k := |ds| - 1;
      FixedOfValue(ds[..k], b);
      DivModUnique(Value(ds[..k], b), ds[k], b);
    }
  }

  lemma ValuePush(ds: seq<nat>, d: nat, b: Base)
    ensures Value(ds + [d], b) == Value(ds, b) * b + d
  {
    assert (ds + [d])[..|ds|] == ds;
  }

  lemma DropDigit(n: nat, b: Base, k: nat)
    requires k > 0
    ensures n / b < Pow(b, k - 1) <==> n < Pow(b, k)
  {
    DivBound(n, b, Pow(b, k - 1));
  }

  lemma ValueStep(n: nat, b: Base, k: nat)
    requires k > 0 && Value(Fixed(n / b, b, k - 1), b) == n / b
    ensures Value(Fixed(n, b, k), b) == n
  {
    var q, r := n / b, n % b;
    var high := Fixed(q, b, k - 1);
    assert Fixed(n, b, k) == high + [r];
    ValuePush(high, r, b);
    DivMod(n, b);
  }

  lemma {:induction false} ValueOfFixed(n: nat, b: Base, k: nat)
    requires n < Pow(b, k)
    ensures Value(Fixed(n, b, k), b) == n
    decreases k
  {
    if k > 0 {
      DropDigit(n, b, k);
      ValueOfFixed(n / b, b, k - 1);
      ValueStep(n, b, k);
    }
  }

  lemma MinimalStep(n: nat, b: Base)
    requires n > 0
    ensures n / b < n && Minimal(n, b) == Minimal(n / b, b) + [n % b]
  {
    DivLess(n, b);
  }

  /** Padding the minimal digits with zeros gives the fixed-width digits. */
  lemma {:induction false} PaddedMinimal(n: nat, b: Base, k: nat)
    requires n < Pow(b, k)
    ensures |Minimal(n, b)| <= k && Zeros(k - |Minimal(n, b)|) + Minimal(n, b) == Fixed(n, b, k)
    decreases k
  {
    if n == 0 {
      FixedZero(b, k);
    } else {
      DropDigit(n, b, k);
      DivLess(n, b);
      PaddedMinimal(n / b, b, k - 1);
    }
  }

  lemma {:induction false} FixedZero(b: Base, k: nat)
    ensures Fixed(0, b, k) == Zeros(k)
  {
    if k > 0 {
      FixedZero(b, k - 1);
    }
  }

  /** A number has more than `k` minimal digits exactly when it does not fit in `k` digits. */
  lemma {:induction false} MinimalTooLong(n: nat, b: Base, k: nat)
    requires n >= Pow(b, k)
    ensures |Minimal(n, b)| > k
    decreases k
  {
    if k > 0 {
      DropDigit(n, b, k);
      DivLess(n, b);
      MinimalTooLong(n / b, b, k - 1);
    }
  }

  lemma {:induction false} PowSplit(b: Base, j: nat, k: nat)
    ensures Pow(b, j + k) == Pow(b, j) * Pow(b, k)
    decreases k
  {
    hide Pow;
    if k == 0 {
      PowZero(b);
    } else {
      PowSplit(b, j, k - 1);
      PowStep(b, k);
      PowStep(b, j + k);
      Rotate(b, Pow(b, j), Pow(b, k - 1));
    }
  }

  lemma PowZero(b: Base)
    ensures Pow(b, 0) == 1
  {
  }

  lemma PowStep(b: Base, k: nat)
    requires k > 0
    ensures Pow(b, k) == b * Pow(b, k - 1)
  {
  }

  lemma Rotate(x: int, y: int, z: int)
    ensures x * (y * z) == y * (x * z)
  {
  }
}
