/** Double hashing over a table of prime size: the probes of a key visit every slot. */
module Probing {

  ghost predicate Prime(p: nat)
  {
    p >= 2 && forall d :: 2 <= d < p ==> !Divides(d, p)
  }

  /** One step down, wrapping at the bottom. */
  function Down(a: nat, d: nat, p: nat): (r: nat)
    requires a < p && 1 <= d < p
    ensures r < p
  {
    if a < d then a + p - d else a - d
  }

  /** The slot of the `k`th probe. */
  function Probe(start: nat, d: nat, p: nat, k: nat): (r: nat)
    requires start < p && 1 <= d < p
    ensures r < p
  {
    if k == 0 then start else Down(Probe(start, d, p, k - 1), d, p)
  }

  // ----- divisibility

  lemma MulAtLeast(p: nat, k: int)
    requires k >= 1
    ensures p * k >= p
  {
    assert p * k == p + p * (k - 1);
    MulNonNegative(p, k - 1);
  }

  lemma MulNonNegative(a: nat, b: nat)
    ensures a * b >= 0
  {
  }

  ghost predicate Divides(p: nat, x: nat)
  {
    exists q: nat :: x == p * q
  }

  lemma DividesAtLeast(p: nat, x: nat)
    requires x >= 1 && Divides(p, x)
    ensures x >= p
  {
    var q: nat :| x == p * q;
    ZeroTimes(p, q);
    MulAtLeast(p, q);
  }

  lemma ZeroTimes(p: nat, q: nat)
    ensures q == 0 ==> p * q == 0
  {
  }

  lemma {:induction false} MulMono(p: nat, a: nat, b: nat)
    requires a <= b
    ensures p * a <= p * b && p * b - p * a == p * (b - a)
  {
    MulNonNegative(p, b - a);
    assert p * b == p * a + p * (b - a);
  }

  lemma Gap(p: nat, a: nat, b: nat, x: nat)
    requires p * b == p * a + x && x >= 1
    ensures Divides(p, x)
  {
    if b <= a {
      MulMono(p, b, a);
      assert false;
    }
    MulMono(p, a, b);
  }

  lemma {:induction false} Quotient(n: nat, m: nat) returns (q: nat, r: nat)
    requires m >= 1
    ensures n == m * q + r && r < m
  {
    if n < m {
      q, r := 0, n;
    } else {
      q, r := Quotient(n - m, m);
      assert m * (q + 1) == m * q + m;
      q := q + 1;
    }
  }

  /** `m` is the least positive number whose multiple by `d` is a multiple of `p`. */
  ghost predicate Least(p: nat, d: nat, m: nat)
  {
    m >= 1 && Divides(p, m * d) && forall k :: 1 <= k < m ==> !Divides(p, k * d)
  }

  lemma {:induction false} FindLeast(p: nat, d: nat, k: nat) returns (m: nat)
    requires p >= 1 && 1 <= k <= p && forall i :: 1 <= i < k ==> !Divides(p, i * d)
    ensures m <= p && Least(p, d, m)
    decreases p - k
  {
    assert Divides(p, p * d);
    if Divides(p, k * d) {
      m := k;
    } else {
      m := FindLeast(p, d, k + 1);
    }
  }

  lemma DividesDifference(p: nat, x: nat, y: nat)
    requires Divides(p, x) && Divides(p, y) && y <= x
    ensures Divides(p, x - y)
  {
    var a: nat :| x == p * a;
    var b: nat :| y == p * b;
    if a >= b {
      MulMono(p, b, a);
    } else {
      MulMono(p, a, b);
      assert x - y == p * 0;
    }
  }

  /** The least such number divides every other one. */
  lemma LeastDivides(p: nat, d: nat, m: nat, n: nat)
    requires Least(p, d, m) && Divides(p, n * d)
    ensures Divides(m, n)
  {
    var q, r := Quotient(n, m);
    Remainder(p, d, m, n, q, r);
    assert r == 0;
    assert n == m * q;
  }

  lemma Remainder(p: nat, d: nat, m: nat, n: nat, q: nat, r: nat)
    requires Divides(p, m * d) && Divides(p, n * d) && n == m * q + r
    ensures Divides(p, r * d)
  {
    Distribute(m, q, r, d);
    MulNonNegative(r, d);
    MultipleOf(p, m * d, q);
    DividesDifference(p, n * d, q * (m * d));
  }

  lemma Distribute(m: nat, q: nat, r: nat, d: nat)
    ensures (m * q + r) * d == q * (m * d) + r * d
  {
    assert (m * q + r) * d == m * q * d + r * d;
    assert m * q * d == q * (m * d);
  }

  lemma MultipleOf(p: nat, x: nat, q: nat)
    requires Divides(p, x)
    ensures Divides(p, q * x)
  {
    var a: nat :| x == p * a;
    MulNonNegative(q, a);
    assert q * x == p * (q * a);
  }

  /** A prime divides no product of two smaller positive numbers. */
  lemma PrimeProduct(p: nat, d: nat, k: nat)
    requires Prime(p) && 1 <= d < p && 1 <= k < p
    ensures !Divides(p, k * d)
  {
    var m := FindLeast(p, d, 1);
    assert Divides(p, p * d);
    LeastDivides(p, d, m, p);
    MulAtLeast(d, m);
    DividesAtLeast(p, m * d);
    assert m == 1 ==> m * d == d;
    assert m == p;
  }

  // ----- the probes

  /** Each probe is the start less a multiple of the decrement, up to a multiple of the size. */
  lemma {:induction false} ProbeIs(start: nat, d: nat, p: nat, k: nat) returns (q: nat)
    requires start < p && 1 <= d < p
    ensures Probe(start, d, p, k) + k * d == start + p * q
    decreases k
  {
    if k == 0 {
      q := 0;
    } else {
      q := ProbeIs(start, d, p, k - 1);
      assert k * d == (k - 1) * d + d;
      if Probe(start, d, p, k - 1) < d {
        assert p * (q + 1) == p * q + p;
        q := q + 1;
      }
    }
  }

  /** Two equal probes are a multiple of the size apart. */
  lemma SameProbe(start: nat, d: nat, p: nat, i: nat, j: nat)
    requires start < p && 1 <= d < p && i < j && Probe(start, d, p, i) == Probe(start, d, p, j)
    ensures Divides(p, (j - i) * d)
  {
    var a := ProbeIs(start, d, p, i);
    var b := ProbeIs(start, d, p, j);
    MulMono(d, i, j);
    MulAtLeast(d, j - i);
    Gap(p, a, b, (j - i) * d);
  }

  lemma ProbesDiffer(start: nat, d: nat, p: nat, i: nat, j: nat)
    requires Prime(p) && start < p && 1 <= d < p && i < j < p
    ensures Probe(start, d, p, i) != Probe(start, d, p, j)
  {
    PrimeProduct(p, d, j - i);
    if Probe(start, d, p, i) == Probe(start, d, p, j) {
      SameProbe(start, d, p, i, j);
    }
  }

  /** The slots of the first `k` probes. */
  ghost function Visited(start: nat, d: nat, p: nat, k: nat): (r: set<nat>)
    requires start < p && 1 <= d < p
  {
    if k == 0 then {} else Visited(start, d, p, k - 1) + {Probe(start, d, p, k - 1)}
  }

  lemma {:induction false} VisitedAt(start: nat, d: nat, p: nat, k: nat, s: nat) returns (i: nat)
    requires start < p && 1 <= d < p && s in Visited(start, d, p, k)
    ensures i < k && Probe(start, d, p, i) == s
  {
    if s in Visited(start, d, p, k - 1) {
      i := VisitedAt(start, d, p, k - 1, s);
    } else {
      i := k - 1;
    }
  }

  lemma {:induction false} VisitedCount(start: nat, d: nat, p: nat, k: nat)
    requires Prime(p) && start < p && 1 <= d < p && k <= p
    ensures |Visited(start, d, p, k)| == k && forall s :: s in Visited(start, d, p, k) ==> s < p
  {
    if k > 0 {
      VisitedCount(start, d, p, k - 1);
      var s := Probe(start, d, p, k - 1);
      if s in Visited(start, d, p, k - 1) {
        var i := VisitedAt(start, d, p, k - 1, s);
        ProbesDiffer(start, d, p, i, k - 1);
      }
    }
  }

  function Below(p: nat): (r: set<nat>)
    ensures |r| == p && forall s: nat :: s in r <==> s < p
  {
    if p == 0 then {} else Below(p - 1) + {p - 1}
  }

  lemma {:induction false} SubsetFull(a: set<nat>, b: set<nat>)
    requires a <= b && |a| == |b|
    ensures a == b
  {
    if a != b {
      var x :| x in b && x !in a;
      assert a <= b - {x};
      SubsetSmaller(a, b - {x});
    }
  }

  lemma {:induction false} SubsetSmaller(a: set<nat>, b: set<nat>)
    requires a <= b
    ensures |a| <= |b|
  {
    if a != {} {
      var x :| x in a;
      SubsetSmaller(a - {x}, b - {x});
    }
  }

  /** Every slot is probed within the first `p` probes. */
  lemma ProbesReach(start: nat, d: nat, p: nat, s: nat) returns (k: nat)
    requires Prime(p) && start < p && 1 <= d < p && s < p
    ensures k < p && Probe(start, d, p, k) == s
  {
    VisitedCount(start, d, p, p);
    SubsetFull(Visited(start, d, p, p), Below(p));
    k := VisitedAt(start, d, p, p, s);
  }

  // ----- the sizes that dpkg.c uses

  function Rem(p: nat, d: nat): nat
    requires d >= 1
  {
    p % d
  }

  /** No number from `lo` to `hi - 1` divides `p`. */
  ghost predicate Clear(p: nat, lo: nat, hi: nat)
    requires lo >= 1
  {
    forall d :: lo <= d < hi ==> Rem(p, d) != 0
  }

  lemma Ten(p: nat, d: nat)
    requires d >= 1 && Rem(p, d) != 0 && Rem(p, d + 1) != 0 && Rem(p, d + 2) != 0 && Rem(p, d + 3) != 0
    requires Rem(p, d + 4) != 0
    requires Rem(p, d + 5) != 0 && Rem(p, d + 6) != 0 && Rem(p, d + 7) != 0 && Rem(p, d + 8) != 0 && Rem(p, d + 9) != 0
    ensures Clear(p, d, d + 10)
  {
    hide Rem;
  }

  lemma NoRemainder(d: nat, p: nat)
    requires d >= 1 && Divides(d, p)
    ensures Rem(p, d) == 0
  {
    var q: nat :| p == d * q;
    var k, r := p / d, p % d;
    assert p == d * k + r;
    if r >= 1 {
      Gap(d, k, q, r);
      DividesAtLeast(d, r);
      assert false;
    }
  }

  /** Trial division up to the square root is enough. */
  lemma PrimeByTrial(p: nat, last: nat)
    requires p >= 2 && Clear(p, 2, last + 1) && (last + 1) * (last + 1) > p && last < p
    ensures Prime(p)
  {
    hide Rem;
    forall d | 2 <= d < p
      ensures !Divides(d, p)
    {
      if Divides(d, p) {
        var q: nat :| p == d * q;
        Cofactor(p, d, q, last);
        var e := if d <= last then d else q;
        assert Divides(e, p) by { assert p == q * d; }
        NoRemainder(e, p);
        assert false;
      }
    }
  }

  lemma Cofactor(p: nat, d: nat, q: nat, last: nat)
    requires 2 <= d < p && p == d * q && (last + 1) * (last + 1) > p
    ensures q >= 2 && (d <= last || q <= last)
  {
    ZeroTimes(d, q);
    assert q == 1 ==> d * q == d;
    if d > last && q > last {
      SquareBelow(last + 1, d, q);
      assert false;
    }
  }

  lemma SquareBelow(n: nat, d: nat, q: nat)
    requires n <= d && n <= q
    ensures n * n <= d * q
  {
    MulMono(n, n, q);
    MulMono(q, n, d);
    assert n * q == q * n && q * d == d * q;
  }

  lemma NamePrime()
    ensures Prime(16381)
  {
    NameClearLow();
    NameClearMiddle();
    NameClearHigh();
    PrimeByTrial(16381, 131);
  }

  lemma NameClearLow()
    ensures Clear(16381, 2, 52)
  {
    Ten(16381, 2);
    Ten(16381, 12);
    Ten(16381, 22);
    Ten(16381, 32);
    Ten(16381, 42);
  }

  lemma NameClearMiddle()
    ensures Clear(16381, 52, 102)
  {
    Ten(16381, 52);
    Ten(16381, 62);
    Ten(16381, 72);
    Ten(16381, 82);
    Ten(16381, 92);
  }

  lemma NameClearHigh()
    ensures Clear(16381, 102, 132)
  {
    Ten(16381, 102);
    Ten(16381, 112);
    Ten(16381, 122);
  }

  lemma PackagePrime()
    ensures Prime(10007)
  {
    PackageClearLow();
    PackageClearHigh();
    PrimeByTrial(10007, 101);
  }

  lemma PackageClearLow()
    ensures Clear(10007, 2, 52)
  {
    Ten(10007, 2);
    Ten(10007, 12);
    Ten(10007, 22);
    Ten(10007, 32);
    Ten(10007, 42);
  }

  lemma PackageClearHigh()
    ensures Clear(10007, 52, 102)
  {
    Ten(10007, 52);
    Ten(10007, 62);
    Ten(10007, 72);
    Ten(10007, 82);
    Ten(10007, 92);
  }

  lemma StatusPrime()
    ensures Prime(8191)
  {
    StatusClearLow();
    StatusClearHigh();
    PrimeByTrial(8191, 91);
  }

  lemma StatusClearLow()
    ensures Clear(8191, 2, 52)
  {
    Ten(8191, 2);
    Ten(8191, 12);
    Ten(8191, 22);
    Ten(8191, 32);
    Ten(8191, 42);
  }

  lemma StatusClearHigh()
    ensures Clear(8191, 52, 92)
  {
    Ten(8191, 52);
    Ten(8191, 62);
    Ten(8191, 72);
    Ten(8191, 82);
  }
}
