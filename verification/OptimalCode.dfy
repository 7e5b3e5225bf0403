/** Why the merged tree is optimal: no code of Kraft sum at most 1 costs less. */
module OptimalCode {
  import opened Bits
  import opened CanonicalCode
  import opened BitLengths
  import opened HuffmanTree
  import opened Huffman

  /** The terms of the members of `A`, and 0 elsewhere. */
  ghost function Terms(A: set<nat>, n: nat, g: nat -> int): (r: seq<int>)
    ensures |r| == n && forall x :: 0 <= x < n ==> r[x] == if x in A then g(x) else 0
  {
    seq(n, x requires 0 <= x < n => if x in A then g(x) else 0)
  }

  /** The length of a node; 0 outside the vector. */
  function At(l: seq<nat>, x: nat): nat
  {
    if x < |l| then l[x] else 0
  }

  function Share(l: seq<nat>): nat -> int
  {
    (x: nat) => if At(l, x) <= MAX_BITS then Pow2(MAX_BITS - At(l, x)) else 0
  }

  function Bill(f: seq<nat>, l: seq<nat>): nat -> int
  {
    (x: nat) => At(f, x) * At(l, x)
  }

  /** The Kraft sum of the members, in units of 2^-15, and their total cost. */
  ghost function KraftOf(A: set<nat>, l: seq<nat>): int
  {
    Sum(Terms(A, |l|, Share(l)))
  }

  ghost function CostOf(A: set<nat>, f: seq<nat>, l: seq<nat>): int
  {
    Sum(Terms(A, |l|, Bill(f, l)))
  }

  /** A code for the members: every length at most 15, Kraft sum at most 1. */
  ghost predicate Code(A: set<nat>, l: seq<nat>)
  {
    (forall x :: x in A ==> x < |l| && l[x] <= MAX_BITS) && KraftOf(A, l) <= Pow2(MAX_BITS)
  }

  // ----- changing one length

  lemma ChangeOne(A: set<nat>, f: seq<nat>, l: seq<nat>, x: nat, v: nat)
    requires x in A && x < |l| && x < |f| && l[x] <= MAX_BITS && v <= MAX_BITS
    ensures KraftOf(A, l[x := v]) == KraftOf(A, l) - Pow2(MAX_BITS - l[x]) + Pow2(MAX_BITS - v)
    ensures CostOf(A, f, l[x := v]) == CostOf(A, f, l) - f[x] * l[x] + f[x] * v
  {
    hide Sum, Pow2;
    var l' := l[x := v];
    var s, b := Terms(A, |l|, Share(l)), Terms(A, |l|, Bill(f, l));
    SumUpdate(s, x, Pow2(MAX_BITS - v));
    assert Terms(A, |l|, Share(l')) == s[x := Pow2(MAX_BITS - v)];
    SumUpdate(b, x, f[x] * v);
    assert Terms(A, |l|, Bill(f, l')) == b[x := f[x] * v];
  }

  /** Giving the longer of two lengths to the lighter node costs no more. */
  lemma Exchange(A: set<nat>, f: seq<nat>, l: seq<nat>, x: nat, y: nat) returns (l': seq<nat>)
    requires Code(A, l) && x in A && y in A && |f| == |l| && f[x] <= f[y] && l[x] <= l[y]
    ensures |l'| == |l| && l' == l[x := l[y]][y := l[x]]
    ensures Code(A, l') && CostOf(A, f, l') <= CostOf(A, f, l) && KraftOf(A, l') == KraftOf(A, l)
  {
    hide KraftOf, CostOf, Pow2;
    l' := l[x := l[y]][y := l[x]];
    ChangeOne(A, f, l, x, l[y]);
    ChangeOne(A, f, l[x := l[y]], y, l[x]);
    if x != y {
      Lighter(f[x], f[y], l[x], l[y]);
    }
  }

  lemma Lighter(a: nat, b: nat, p: nat, q: nat)
    requires a <= b && p <= q
    ensures a * q + b * p <= a * p + b * q
  {
    assert (b - a) * (q - p) >= 0;
  }

  // ----- the longest code has a brother

  ghost predicate Multiple(v: int, c: nat)
  {
    exists q: nat :: v == c * q
  }

  /** A sum of multiples is a multiple. */
  lemma {:induction false} MultipleSum(s: seq<int>, c: nat) returns (a: nat)
    requires c > 0 && forall i :: 0 <= i < |s| ==> Multiple(s[i], c)
    ensures Sum(s) == c * a
  {
    if s == [] {
      a := 0;
    } else {
      var k := |s| - 1;
      var b := MultipleSum(s[..k], c);
      var q: nat :| s[k] == c * q;
      a := b + q;
      SumSplit(s);
      assert c * a == c * b + c * q;
    }
  }

  lemma SumSplit(s: seq<int>)
    requires s != []
    ensures Sum(s) == Sum(s[..|s| - 1]) + s[|s| - 1]
  {
    var k := |s| - 1;
    SumAppend(s[..k], [s[k]]);
    assert s == s[..k] + [s[k]];
    assert Sum([s[k]]) == s[k];
  }

  /** If only `n` has the longest length, it can be shortened. */
  lemma Shorten(A: set<nat>, f: seq<nat>, l: seq<nat>, n: nat)
    requires Code(A, l) && n in A && |f| == |l| && l[n] >= 1
    requires forall x :: x in A && x != n ==> l[x] < l[n]
    ensures Code(A, l[n := l[n] - 1]) && CostOf(A, f, l[n := l[n] - 1]) <= CostOf(A, f, l)
    ensures KraftOf(A, l[n := l[n] - 1]) > KraftOf(A, l)
  {
    hide KraftOf, CostOf, Pow2;
    var L, u := l[n], Pow2(MAX_BITS - l[n]);
    ChangeOne(A, f, l, n, L - 1);
    Doubled(MAX_BITS - L);
    var a := OthersEven(A, l, n);
    Pow2Add(MAX_BITS - (L - 1), L - 1);
    RoomForTwo(u, 2 * u, a, Pow2(L - 1));
    MulMono(f[n], L - 1, L);
  }

  lemma MulMono(c: nat, a: nat, b: nat)
    requires a <= b
    ensures c * a <= c * b
  {
    assert c * b == c * a + c * (b - a);
  }

  lemma RoomForTwo(u: nat, c: nat, a: nat, b: nat)
    requires u >= 1 && c == 2 * u && c * a + u <= c * b
    ensures c * a + c <= c * b
  {
    if b <= a {
      MulMono(c, b, a);
      assert false;
    }
    MulMono(c, a + 1, b);
    assert c * (a + 1) == c * a + c;
  }

  lemma OthersEven(A: set<nat>, l: seq<nat>, n: nat) returns (a: nat)
    requires Code(A, l) && n in A && l[n] >= 1 && forall x :: x in A && x != n ==> l[x] < l[n]
    ensures KraftOf(A, l) == 2 * Pow2(MAX_BITS - l[n]) * a + Pow2(MAX_BITS - l[n])
  {
    hide Sum, Pow2;
    var s, u := Terms(A, |l|, Share(l)), Pow2(MAX_BITS - l[n]);
    var rest := s[n := 0];
    SumUpdate(s, n, 0);
    assert Pow2(MAX_BITS - (l[n] - 1)) == 2 * u by { Doubled(MAX_BITS - l[n]); }
    forall i | 0 <= i < |rest|
      ensures Multiple(rest[i], 2 * u)
    {
      if i in A && i != n {
        Pow2Add(MAX_BITS - (l[n] - 1), l[n] - 1 - l[i]);
        assert rest[i] == 2 * u * Pow2(l[n] - 1 - l[i]);
      } else {
        assert rest[i] == 2 * u * 0;
      }
    }
    a := MultipleSum(rest, 2 * u);
  }

  lemma Doubled(n: nat)
    ensures Pow2(n + 1) == 2 * Pow2(n)
  {
  }

  lemma {:induction false} Longest(A: set<nat>, l: seq<nat>) returns (x: nat)
    requires A != {} && forall y :: y in A ==> y < |l|
    ensures x in A && forall y :: y in A ==> l[y] <= l[x]
  {
    x :| x in A;
    if A != {x} {
      var z := Longest(A - {x}, l);
      if l[z] > l[x] {
        x := z;
      }
    }
  }

  /** Two members share the code space, so neither takes all of it. */
  lemma NotAlone(A: set<nat>, l: seq<nat>, n: nat, m: nat)
    requires Code(A, l) && n in A && m in A && n != m
    ensures l[n] >= 1
  {
    hide Sum, Pow2;
    var s := Terms(A, |l|, Share(l));
    SumUpdate(s, n, 0);
    SumMember(s[n := 0], m);
    assert s[n] == Pow2(MAX_BITS - l[n]) && s[m] >= 1;
  }

  /** At no more cost, the two lightest members can be brothers of longest length. */
  lemma {:induction false} Brothers(A: set<nat>, f: seq<nat>, l: seq<nat>, n: nat, m: nat) returns (l': seq<nat>)
    requires Code(A, l) && n in A && m in A && n != m && |f| == |l|
    requires forall x :: x in A ==> f[n] <= f[x]
    requires forall x :: x in A && x != n ==> f[m] <= f[x]
    ensures |l'| == |l| && Code(A, l') && l'[n] == l'[m] >= 1 && CostOf(A, f, l') <= CostOf(A, f, l)
    decreases Pow2(MAX_BITS) - KraftOf(A, l)
  {
    hide KraftOf, CostOf, Pow2;
    var x := Longest(A, l);
    l' := Exchange(A, f, l, n, x);
    if y :| y in A && y != n && l'[y] == l'[n] {
      l' := Exchange(A, f, l', m, y);
      NotAlone(A, l', n, m);
    } else {
      Shorten(A, f, l', n);
      l' := Brothers(A, f, l'[n := l'[n] - 1], n, m);
    }
  }

  // ----- merging

  /** Replacing two brothers by their father shortens the code by the father's weight. */
  lemma MergeBrothers(A: set<nat>, f: seq<nat>, l: seq<nat>, n: nat, m: nat, father: nat)
    requires Code(A, l) && n in A && m in A && n != m && |f| == |l| && l[n] == l[m] >= 1
    requires father !in A && father < |f| && f[father] == f[n] + f[m]
    ensures var B, l' := A - {n, m} + {father}, l[father := l[n] - 1];
      Code(B, l') && CostOf(B, f, l') == CostOf(A, f, l) - f[father]
  {
    hide Sum, Pow2, KraftOf, CostOf;
    MergeKraft(A, l, n, m, father);
    MergeCost(A, f, l, n, m, father);
  }

  lemma Substitute(s: seq<int>, n: nat, m: nat, x: nat, v: int)
    requires n < |s| && m < |s| && x < |s| && n != m && n != x && m != x
    ensures Sum(s[n := 0][m := 0][x := v]) == Sum(s) - s[n] - s[m] - s[x] + v
  {
    SumUpdate(s, n, 0);
    SumUpdate(s[n := 0], m, 0);
    SumUpdate(s[n := 0][m := 0], x, v);
  }

  lemma MergeKraft(A: set<nat>, l: seq<nat>, n: nat, m: nat, father: nat)
    requires n in A && m in A && n != m && father !in A && n < |l| && m < |l| && father < |l|
    requires 1 <= l[n] == l[m] <= MAX_BITS
    ensures KraftOf(A - {n, m} + {father}, l[father := l[n] - 1]) == KraftOf(A, l)
  {
    hide Sum, Pow2;
    var B, l', u := A - {n, m} + {father}, l[father := l[n] - 1], Pow2(MAX_BITS - l[n]);
    var s := Terms(A, |l|, Share(l));
    Doubled(MAX_BITS - l[n]);
    Substitute(s, n, m, father, 2 * u);
    assert Terms(B, |l|, Share(l')) == s[n := 0][m := 0][father := 2 * u];
  }

  lemma MergeCost(A: set<nat>, f: seq<nat>, l: seq<nat>, n: nat, m: nat, father: nat)
    requires n in A && m in A && n != m && father !in A && n < |l| && m < |l| && father < |l| == |f|
    requires 1 <= l[n] == l[m] && f[father] == f[n] + f[m]
    ensures CostOf(A - {n, m} + {father}, f, l[father := l[n] - 1]) == CostOf(A, f, l) - f[father]
  {
    hide Sum;
    var B, l', L := A - {n, m} + {father}, l[father := l[n] - 1], l[n];
    var b := Terms(A, |l|, Bill(f, l));
    Substitute(b, n, m, father, f[father] * (L - 1));
    assert Terms(B, |l|, Bill(f, l')) == b[n := 0][m := 0][father := f[father] * (L - 1)];
    assert f[father] * (L - 1) == f[n] * L + f[m] * L - f[father];
  }

  // ----- the whole tree

  /** The nodes queued after `t` merges. */
  ghost function Queue(rem: seq<nat>, leaf: seq<nat>, t: nat): set<nat>
    requires 2 * t <= |rem|
  {
    AllNodes(leaf, t) - set i | 0 <= i < 2 * t :: rem[i]
  }

  /** The weight of the fathers still to come. */
  ghost function Ahead(f: seq<nat>, e: nat, t: nat, k: nat): int
    requires t < k && e + k - 1 <= |f|
    decreases k - t
  {
    if t == k - 1 then 0 else f[e + t] + Ahead(f, e, t + 1, k)
  }

  /** Merge `t` takes the two lightest queued nodes and queues their father. */
  lemma QueueStep(rem: seq<nat>, leaf: seq<nat>, f: seq<nat>, dad: seq<nat>, k: nat, t: nat)
    requires FullTree(rem, leaf, f, dad, k) && t < k - 1
    ensures var A, n, m, father := Queue(rem, leaf, t), rem[2 * t], rem[2 * t + 1], |leaf| + t;
      && n in A && m in A && n != m && father !in A && father < |f| && f[father] == f[n] + f[m]
      && (forall x :: x in A ==> x < |f| && f[n] <= f[x] && (x != n ==> f[m] <= f[x]))
      && Queue(rem, leaf, t + 1) == A - {n, m} + {father}
  {
    var A, n, m, e := Queue(rem, leaf, t), rem[2 * t], rem[2 * t + 1], |leaf|;
    var all := AllNodes(leaf, k - 1);
    NoDuplicates(rem, all);
    forall x | x in A
      ensures x < |f| && f[n] <= f[x] && (x != n ==> f[m] <= f[x])
    {
      var p := Position(rem, all, x);
      assert p >= 2 * t;
    }
    assert n in A && m in A;
    assert Queue(rem, leaf, t + 1) == A - {n, m} + {e + t};
  }

  /** No code for the queued nodes costs less than the weight of the fathers still to come. */
  lemma {:induction false} LowerBound(rem: seq<nat>, leaf: seq<nat>, f: seq<nat>, dad: seq<nat>, k: nat, t: nat,
                                      l: seq<nat>)
    requires FullTree(rem, leaf, f, dad, k) && t < k && |l| == |f| && Code(Queue(rem, leaf, t), l)
    ensures CostOf(Queue(rem, leaf, t), f, l) >= Ahead(f, |leaf|, t, k)
    decreases k - t
  {
    hide FullTree, Code, CostOf, Queue;
    FullBounds(rem, leaf, f, dad, k);
    var A := Queue(rem, leaf, t);
    if t == k - 1 {
      CostNonNegative(A, f, l);
    } else {
      var n, m, father := rem[2 * t], rem[2 * t + 1], |leaf| + t;
      QueueStep(rem, leaf, f, dad, k, t);
      var l1 := Brothers(A, f, l, n, m);
      CodeBounds(A, l1);
      MergeBrothers(A, f, l1, n, m, father);
      LowerBound(rem, leaf, f, dad, k, t + 1, l1[father := l1[n] - 1]);
    }
  }

  lemma CodeBounds(A: set<nat>, l: seq<nat>)
    requires Code(A, l)
    ensures forall x :: x in A ==> x < |l| && l[x] <= MAX_BITS
  {
  }

  lemma FullBounds(rem: seq<nat>, leaf: seq<nat>, f: seq<nat>, dad: seq<nat>, k: nat)
    requires FullTree(rem, leaf, f, dad, k)
    ensures k >= 2 && |rem| == 2 * k - 1 && |leaf| + k - 1 <= |f| && |leaf| + k - 1 <= |dad|
  {
  }

  lemma CostNonNegative(A: set<nat>, f: seq<nat>, l: seq<nat>)
    ensures CostOf(A, f, l) >= 0
  {
    var b := Terms(A, |l|, Bill(f, l));
    forall j | 0 <= j < |b|
      ensures b[j] >= 0
    {
      assert At(f, j) * At(l, j) >= 0;
    }
    SumNonneg(b);
  }

  /** Every node is one deeper than its father, and the root at depth 0. */
  ghost predicate Depths(rem: seq<nat>, e: nat, k: nat, len: seq<nat>)
  {
    && k >= 2 && |rem| == 2 * k - 1 && rem[2 * k - 2] < |len| && len[rem[2 * k - 2]] == 0 && e + k - 1 <= |len|
    && forall j :: 0 <= j < 2 * k - 2 ==> rem[j] < |len| && len[rem[j]] == len[e + j / 2] + 1
  }

  /** With lengths equal to the depths, the queued nodes cost exactly the fathers still to come. */
  lemma {:induction false} TreeCost(rem: seq<nat>, leaf: seq<nat>, f: seq<nat>, dad: seq<nat>, k: nat, t: nat,
                                    len: seq<nat>)
    requires FullTree(rem, leaf, f, dad, k) && t < k && |len| == |f| && Depths(rem, |leaf|, k, len)
    ensures CostOf(Queue(rem, leaf, t), f, len) == Ahead(f, |leaf|, t, k)
    decreases k - t
  {
    hide FullTree, CostOf, Queue;
    FullBounds(rem, leaf, f, dad, k);
    var A := Queue(rem, leaf, t);
    if t == k - 1 {
      RootOnly(rem, leaf, f, dad, k, len);
    } else {
      var n, m, father := rem[2 * t], rem[2 * t + 1], |leaf| + t;
      QueueStep(rem, leaf, f, dad, k, t);
      assert (2 * t) / 2 == t && (2 * t + 1) / 2 == t;
      MergeCost(A, f, len, n, m, father);
      assert len[father := len[n] - 1] == len;
      TreeCost(rem, leaf, f, dad, k, t + 1, len);
    }
  }

  lemma RootOnly(rem: seq<nat>, leaf: seq<nat>, f: seq<nat>, dad: seq<nat>, k: nat, len: seq<nat>)
    requires FullTree(rem, leaf, f, dad, k) && |len| == |f| && Depths(rem, |leaf|, k, len)
    ensures CostOf(Queue(rem, leaf, k - 1), f, len) == 0
  {
    var A, root := Queue(rem, leaf, k - 1), rem[2 * k - 2];
    forall x | x in A
      ensures x == root
    {
      var p := Position(rem, AllNodes(leaf, k - 1), x);
    }
    SumZero(Terms(A, |len|, Bill(f, len)));
  }

  // ----- lengths of symbols

  /** No code that has a word for every symbol that occurs costs less. */
  ghost predicate Optimal(freq: seq<nat>, len: seq<nat>, extra: seq<nat>)
  {
    && |len| == |freq| == |extra|
    && forall other: seq<nat> :: |other| == |freq| && KraftOk(other) && Serves(freq, other) ==>
         Cost(freq, len, extra) <= Cost(freq, other, extra)
  }

  ghost predicate Serves(freq: seq<nat>, len: seq<nat>)
  {
    |len| == |freq| && forall n :: 0 <= n < |freq| && freq[n] > 0 ==> len[n] > 0
  }

  /** The share of the code space that each symbol takes. */
  function Shares(lens: seq<nat>): (r: seq<int>)
    ensures |r| == |lens|
  {
    seq(|lens|, n requires 0 <= n < |lens| => if 1 <= lens[n] <= MAX_BITS then Pow2(MAX_BITS - lens[n]) else 0)
  }

  lemma {:induction false} SharesSum(lens: seq<nat>)
    requires forall n :: 0 <= n < |lens| ==> lens[n] <= MAX_BITS
    ensures Sum(Shares(lens)) == Kraft(Counts(lens), MAX_BITS)
  {
    hide Kraft, Sum, Pow2;
    if lens == [] {
      NoCounts();
    } else {
      var k := |lens| - 1;
      var init, b := lens[..k], lens[k];
      SharesSum(init);
      SumSplit(Shares(lens));
      assert Shares(lens)[..k] == Shares(init);
      CountsNext(lens);
      if b > 0 {
        KraftInc(Counts(init), b, MAX_BITS);
      }
    }
  }

  lemma NoCounts()
    ensures Sum(Shares([])) == 0 == Kraft(Counts([]), MAX_BITS)
  {
    hide Kraft;
    NothingWeighs(Counts([]), MAX_BITS);
  }

  lemma {:induction false} NothingWeighs(cnt: seq<nat>, b: nat)
    requires |cnt| == MAX_BITS + 1 && b <= MAX_BITS && forall i :: 0 <= i <= MAX_BITS ==> cnt[i] == 0
    ensures Kraft(cnt, b) == 0
  {
    if b > 0 {
      NothingWeighs(cnt, b - 1);
      ShlIsMul(0, MAX_BITS - b);
    }
  }

  lemma CountsNext(lens: seq<nat>)
    requires lens != []
    ensures var k := |lens| - 1;
      var c := Counts(lens[..k]);
      Counts(lens) == if 1 <= lens[k] <= MAX_BITS then c[lens[k] := c[lens[k]] + 1] else c
  {
    var k := |lens| - 1;
    forall b | 1 <= b <= MAX_BITS
      ensures Count(lens, b) == Count(lens[..k], b) + (if lens[k] == b then 1 else 0)
    {
      CountStep(lens, k, b);
      assert lens[..k + 1] == lens;
    }
  }

  /** What the symbols that occur take of the code space is at most what all take. */
  lemma SymbolsFit(leaf: seq<nat>, other: seq<nat>, l: seq<nat>, n: nat)
    requires |other| == |leaf| <= |l| == n && l[..|leaf|] == other && KraftOk(other) && Serves(leaf, other)
    ensures Code(Leaves(leaf, |leaf|), l)
  {
    hide Sum, Pow2, Kraft;
    var A, e := Leaves(leaf, |leaf|), |leaf|;
    SharesSum(other);
    var s := Terms(A, n, Share(l));
    assert forall x :: 0 <= x < e ==> l[x] == other[x];
    SumSplitAt(s, e);
    SumZero(s[e..]);
    SumBelow(s[..e], Shares(other));
  }

  lemma SumSplitAt(s: seq<int>, e: nat)
    requires e <= |s|
    ensures Sum(s) == Sum(s[..e]) + Sum(s[e..])
  {
    SumAppend(s[..e], s[e..]);
    assert s == s[..e] + s[e..];
  }

  lemma {:induction false} SumBelow(a: seq<int>, b: seq<int>)
    requires |a| == |b| && forall i :: 0 <= i < |a| ==> a[i] <= b[i]
    ensures Sum(a) <= Sum(b)
  {
    if a != [] {
      SumBelow(a[1..], b[1..]);
    }
  }

  lemma {:induction false} SumAdd(a: seq<int>, b: seq<int>, c: seq<int>)
    requires |a| == |b| == |c| && forall i :: 0 <= i < |a| ==> c[i] == a[i] + b[i]
    ensures Sum(c) == Sum(a) + Sum(b)
  {
    if a != [] {
      SumAdd(a[1..], b[1..], c[1..]);
    }
  }

  /** The cost of a code is that of its words and that of the extra bits. */
  lemma CostSplit(leaf: seq<nat>, len: seq<nat>, extra: seq<nat>, f: seq<nat>, l: seq<nat>)
    requires |leaf| == |len| == |extra| <= |l| == |f| && l[..|leaf|] == len && f[..|leaf|] == leaf
    ensures Cost(leaf, len, extra) == CostOf(Leaves(leaf, |leaf|), f, l) + Cost(leaf, seq(|leaf|, _ => 0), extra)
  {
    hide Sum;
    var e, A := |leaf|, Leaves(leaf, |leaf|);
    var zero: seq<nat> := seq(e, _ => 0);
    var s := Terms(A, |l|, Bill(f, l));
    SumSplitAt(s, e);
    SumZero(s[e..]);
    assert forall x :: 0 <= x < e ==> l[x] == len[x] && f[x] == leaf[x];
    var a, b, c := s[..e], CostTerms(leaf, zero, extra), CostTerms(leaf, len, extra);
    forall x | 0 <= x < e
      ensures c[x] == a[x] + b[x]
    {
      assert leaf[x] * (len[x] + extra[x]) == leaf[x] * len[x] + leaf[x] * extra[x];
    }
    SumAdd(a, b, c);
  }

  lemma FirstQueue(rem: seq<nat>, leaf: seq<nat>)
    ensures Queue(rem, leaf, 0) == Leaves(leaf, |leaf|)
  {
    assert AllNodes(leaf, 0) == Leaves(leaf, |leaf|);
  }

  /** Lengths equal to the depths of the merged tree are optimal. */
  lemma TreeOptimal(rem: seq<nat>, leaf: seq<nat>, f: seq<nat>, dad: seq<nat>, k: nat, len: seq<nat>, extra: seq<nat>)
    requires FullTree(rem, leaf, f, dad, k) && |len| == |f| && Depths(rem, |leaf|, k, len) && |extra| == |leaf|
    ensures |leaf| <= |len| && Optimal(leaf, len[..|leaf|], extra)
  {
    hide CostOf, Cost, Queue, Code, Depths, KraftOk;
    FullBounds(rem, leaf, f, dad, k);
    FirstQueue(rem, leaf);
    assert f[..|leaf|] == leaf;
    TreeCost(rem, leaf, f, dad, k, 0, len);
    CostSplit(leaf, len[..|leaf|], extra, f, len);
    forall other: seq<nat> | |other| == |leaf| && KraftOk(other) && Serves(leaf, other)
      ensures Cost(leaf, len[..|leaf|], extra) <= Cost(leaf, other, extra)
    {
      var l: seq<nat> := other + seq(|f| - |leaf|, _ => 0);
      assert l[..|leaf|] == other;
      SymbolsFit(leaf, other, l, |f|);
      LowerBound(rem, leaf, f, dad, k, 0, l);
      CostSplit(leaf, other, extra, f, l);
    }
  }

  /** The depths fill the code space exactly. */
  lemma {:induction false} TreeKraft(rem: seq<nat>, leaf: seq<nat>, f: seq<nat>, dad: seq<nat>, k: nat, t: nat,
                                     len: seq<nat>)
    requires FullTree(rem, leaf, f, dad, k) && t < k && |len| == |f| && Depths(rem, |leaf|, k, len)
    requires forall j :: 0 <= j < |rem| ==> len[rem[j]] <= MAX_BITS
    ensures KraftOf(Queue(rem, leaf, t), len) == Pow2(MAX_BITS)
    decreases k - t
  {
    hide FullTree, KraftOf, Queue;
    FullBounds(rem, leaf, f, dad, k);
    if t == k - 1 {
      RootKraft(rem, leaf, f, dad, k, len);
    } else {
      var n, m, father := rem[2 * t], rem[2 * t + 1], |leaf| + t;
      QueueStep(rem, leaf, f, dad, k, t);
      assert (2 * t) / 2 == t && (2 * t + 1) / 2 == t;
      MergeKraft(Queue(rem, leaf, t), len, n, m, father);
      assert len[father := len[n] - 1] == len;
      TreeKraft(rem, leaf, f, dad, k, t + 1, len);
    }
  }

  lemma RootKraft(rem: seq<nat>, leaf: seq<nat>, f: seq<nat>, dad: seq<nat>, k: nat, len: seq<nat>)
    requires FullTree(rem, leaf, f, dad, k) && |len| == |f| && Depths(rem, |leaf|, k, len)
    ensures KraftOf(Queue(rem, leaf, k - 1), len) == Pow2(MAX_BITS)
  {
    hide Pow2, Sum;
    var A, root := Queue(rem, leaf, k - 1), rem[2 * k - 2];
    forall x | x in A
      ensures x == root
    {
      var p := Position(rem, AllNodes(leaf, k - 1), x);
    }
    NoDuplicates(rem, AllNodes(leaf, k - 1));
    assert root in A;
    var s := Terms(A, |len|, Share(len));
    SumUpdate(s, root, 0);
    SumZero(s[root := 0]);
  }

  /** The Kraft sum of the symbols, when exactly those that occur have a length. */
  lemma LeavesKraft(leaf: seq<nat>, len: seq<nat>)
    requires |leaf| <= |len| && forall n :: 0 <= n < |leaf| ==> len[n] <= MAX_BITS && (leaf[n] > 0 <==> len[n] > 0)
    ensures KraftOf(Leaves(leaf, |leaf|), len) == Kraft(Counts(len[..|leaf|]), MAX_BITS)
  {
    hide Sum, Pow2, Kraft;
    var e, s := |leaf|, Terms(Leaves(leaf, |leaf|), |len|, Share(len));
    SharesSum(len[..e]);
    SumSplitAt(s, e);
    SumZero(s[e..]);
    assert s[..e] == Shares(len[..e]);
  }
}
