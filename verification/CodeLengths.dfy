/** `gen_bitlen` of gzip.c: code lengths from the finished tree. */
module CodeLengths {
  import opened Bits
  import opened CanonicalCode
  import opened HuffmanTree
  import opened Huffman
  import opened OptimalCode
  import opened BitLengths

  // ----- the first pass

  /** `x` for each son of internal node `q` that the first pass has still to visit when `i` nodes are left. */
  function Charge(q: nat, i: nat, x: nat): nat
  {
    if 2 * q + 1 < i then 2 * x else if 2 * q < i then x else 0
  }

  function Clamp(bits: nat, max: nat): nat
  {
    if bits > max then max else bits
  }

  /**
   * The nodes `rem[i..]` have their length, one more than their father's but at most `max`; the
   * others still have their father.
   */
  ghost predicate Visited(rem: seq<nat>, e: nat, k: nat, max: nat, i: nat, len: seq<nat>)
  {
    && k >= 2 && |rem| == 2 * k - 1 && i <= 2 * k - 2
    && (forall j :: 0 <= j < |rem| ==> rem[j] < |len|) && e + k - 1 <= |len|
    && (forall j :: 0 <= j < i ==> len[rem[j]] == e + j / 2)
    && len[rem[2 * k - 2]] == 0
    && (forall j {:trigger rem[j]} :: i <= j < 2 * k - 2 ==> len[rem[j]] == Clamp(len[e + j / 2] + 1, max))
  }

  /**
   * What the pass has accumulated: `cur` the lengths given to symbols and `seen` their frequencies.
   */
  ghost predicate Accounted(rem: seq<nat>, leaf: seq<nat>, i: nat, len: seq<nat>, cur: seq<nat>, seen: seq<nat>)
  {
    && |cur| == |seen| == |leaf| <= |len| && i <= |rem|
    && (forall j :: i <= j < |rem| && rem[j] < |leaf| ==> cur[rem[j]] == len[rem[j]] && seen[rem[j]] == leaf[rem[j]])
    && (forall j :: 0 <= j < i && rem[j] < |leaf| ==> cur[rem[j]] == 0 && seen[rem[j]] == 0)
    && (forall n :: 0 <= n < |leaf| && leaf[n] == 0 ==> cur[n] == 0 && seen[n] == 0)
  }

  ghost predicate Counted(bl: seq<nat>, cur: seq<nat>)
  {
    |bl| == MAX_BITS + 1 && bl[0] == 0 && forall b :: 1 <= b <= MAX_BITS ==> bl[b] == Count(cur, b)
  }

  /** The weight of the unvisited sons, charged to their visited fathers, half a father each. */
  ghost predicate Open(rem: seq<nat>, e: nat, k: nat, i: nat, len: seq<nat>, w: nat -> nat, open: seq<int>)
  {
    && k >= 2 && |rem| == 2 * k - 1 && |open| == k - 1
    && (forall j :: 0 <= j < |rem| ==> rem[j] < |len| && rem[j] < e + k - 1)
    && (forall j :: 0 <= j < i && j < |rem| && rem[j] >= e ==> open[rem[j] - e] == 0)
    && (forall j :: i <= j < |rem| && rem[j] >= e ==>
          open[rem[j] - e] == Charge(rem[j] - e, i, w(len[rem[j]])))
  }

  function KraftWeight(): nat -> nat
  {
    (b: nat) => if b <= MAX_BITS then Weight(b) else 0
  }

  function MaxWeight(max: nat): nat -> nat
  {
    (b: nat) => if b == max then 1 else 0
  }

  /** The new charges after visiting `rem[i - 1]`, which gets length `bits`. */
  ghost function OpenNext(rem: seq<nat>, e: nat, i: nat, len: seq<nat>, w: nat -> nat, open: seq<int>,
                          bits: nat): seq<int>
    requires 1 <= i <= |rem| && (i - 1) / 2 < |open| && e + (i - 1) / 2 < |len| && rem[i - 1] < e + |open|
  {
    var q := (i - 1) / 2;
    var less := open[q := open[q] - w(len[e + q])];
    if rem[i - 1] < e then less else less[rem[i - 1] - e := 2 * w(bits)]
  }

  lemma OpenStep(rem: seq<nat>, leaf: seq<nat>, freq: seq<nat>, dad: seq<nat>, k: nat,
                 i: nat, len: seq<nat>, w: nat -> nat, open: seq<int>, bits: nat)
    requires FullTree(rem, leaf, freq, dad, k) && 1 <= i <= 2 * k - 2
    requires Open(rem, |leaf|, k, i, len, w, open)
    ensures var open' := OpenNext(rem, |leaf|, i, len, w, open, bits);
      && Open(rem, |leaf|, k, i - 1, len[rem[i - 1] := bits], w, open')
      && Sum(open') == Sum(open) - w(len[|leaf| + (i - 1) / 2]) + (if rem[i - 1] < |leaf| then 0 else 2 * w(bits))
  {
    hide Sum;
    var e, j, q, n := |leaf|, i - 1, (i - 1) / 2, rem[i - 1];
    var p := FatherLater(rem, leaf, freq, dad, k, j);
    NoDuplicates(rem, AllNodes(leaf, k - 1));
    SumUpdate(open, q, open[q] - w(len[e + q]));
    if n >= e {
      SumUpdate(open[q := open[q] - w(len[e + q])], n - e, 2 * w(bits));
    }
    OpenMoves(rem, e, k, i, len, w, open, bits, p);
  }

  lemma OpenMoves(rem: seq<nat>, e: nat, k: nat, i: nat, len: seq<nat>, w: nat -> nat, open: seq<int>, bits: nat,
                  p: nat)
    requires Open(rem, e, k, i, len, w, open) && 1 <= i <= p < |rem| && rem[p] == e + (i - 1) / 2
    requires forall x, y :: 0 <= x < y < |rem| ==> rem[x] != rem[y]
    requires rem[i - 1] < e || rem[i - 1] < e + (i - 1) / 2
    ensures Open(rem, e, k, i - 1, len[rem[i - 1] := bits], w, OpenNext(rem, e, i, len, w, open, bits))
  {
    var j, q, n := i - 1, (i - 1) / 2, rem[i - 1];
    var open' := OpenNext(rem, e, i, len, w, open, bits);
    var len' := len[n := bits];
    forall x | j <= x < |rem| && rem[x] >= e
      ensures open'[rem[x] - e] == Charge(rem[x] - e, j, w(len'[rem[x]]))
    {
      if x != j {
        assert rem[x] != n;
      }
    }
    forall x | 0 <= x < j && rem[x] >= e
      ensures open'[rem[x] - e] == 0
    {
      assert rem[x] != n && rem[x] != rem[p];
    }
  }

  lemma OpenStart(rem: seq<nat>, leaf: seq<nat>, freq: seq<nat>, dad: seq<nat>, k: nat, len: seq<nat>, w: nat -> nat)
    returns (open: seq<int>)
    requires FullTree(rem, leaf, freq, dad, k) && len == dad[rem[2 * k - 2] := 0]
    ensures Open(rem, |leaf|, k, 2 * k - 2, len, w, open) && Sum(open) == 2 * w(0)
  {
    var zero := seq(k - 1, _ => 0);
    SumZero(zero);
    SumUpdate(zero, k - 2, 2 * w(0));
    open := zero[k - 2 := 2 * w(0)];
    NoDuplicates(rem, AllNodes(leaf, k - 1));
    forall j | 0 <= j < 2 * k - 2 && rem[j] >= |leaf|
      ensures open[rem[j] - |leaf|] == 0
    {
      assert rem[j] != rem[2 * k - 2];
    }
  }

  lemma OpenEnd(rem: seq<nat>, leaf: seq<nat>, freq: seq<nat>, dad: seq<nat>, k: nat, len: seq<nat>, w: nat -> nat,
                open: seq<int>)
    requires FullTree(rem, leaf, freq, dad, k) && Open(rem, |leaf|, k, 0, len, w, open)
    ensures Sum(open) == 0
  {
    forall q | 0 <= q < |open|
      ensures open[q] == 0
    {
      var p := Position(rem, AllNodes(leaf, k - 1), |leaf| + q);
      assert rem[p] - |leaf| == q;
    }
    SumZero(open);
  }

  lemma VisitStep(rem: seq<nat>, leaf: seq<nat>, freq: seq<nat>, dad: seq<nat>, k: nat, max: nat, i: nat, len: seq<nat>)
    requires FullTree(rem, leaf, freq, dad, k) && 1 <= i
    requires Visited(rem, |leaf|, k, max, i, len)
    ensures len[rem[i - 1]] == |leaf| + (i - 1) / 2 < |len|
    ensures Visited(rem, |leaf|, k, max, i - 1, len[rem[i - 1] := Clamp(len[|leaf| + (i - 1) / 2] + 1, max)])
  {
    hide FullTree, Clamp;
    var e, j := |leaf|, i - 1;
    TreeDistinct(rem, leaf, freq, dad, k);
    var p0 := FatherLater(rem, leaf, freq, dad, k, j);
    var len' := len[rem[j] := Clamp(len[e + j / 2] + 1, max)];
    assert rem[j] != rem[2 * k - 2];
    forall x {:trigger rem[x]} | j <= x < 2 * k - 2
      ensures len'[rem[x]] == Clamp(len'[e + x / 2] + 1, max)
    {
      VisitedStill(rem, leaf, freq, dad, k, max, i, len, x);
    }
  }

  /** A node visited earlier keeps its length, and so does its father. */
  lemma VisitedStill(rem: seq<nat>, leaf: seq<nat>, freq: seq<nat>, dad: seq<nat>, k: nat, max: nat, i: nat,
                     len: seq<nat>, x: nat)
    requires FullTree(rem, leaf, freq, dad, k) && 1 <= i && Visited(rem, |leaf|, k, max, i, len)
    requires i - 1 <= x < 2 * k - 2
    ensures var len' := len[rem[i - 1] := Clamp(len[|leaf| + (i - 1) / 2] + 1, max)];
      len'[rem[x]] == Clamp(len'[|leaf| + x / 2] + 1, max)
  {
    hide FullTree, Clamp;
    TreeDistinct(rem, leaf, freq, dad, k);
    var p := FatherLater(rem, leaf, freq, dad, k, x);
    assert rem[p] != rem[i - 1];
    if x != i - 1 {
      assert rem[x] != rem[i - 1];
    }
  }

  /** Lengths of visited nodes stay within the limit. */
  lemma VisitedBound(rem: seq<nat>, e: nat, k: nat, max: nat, i: nat, len: seq<nat>, j: nat)
    requires Visited(rem, e, k, max, i, len) && i <= j < |rem|
    ensures len[rem[j]] <= max
  {
  }

  lemma AccountStep(rem: seq<nat>, leaf: seq<nat>, freq: seq<nat>, dad: seq<nat>, k: nat, i: nat, len: seq<nat>,
                    cur: seq<nat>, seen: seq<nat>, bits: nat)
    requires FullTree(rem, leaf, freq, dad, k) && 1 <= i <= |rem| && rem[i - 1] < |len|
    requires Accounted(rem, leaf, i, len, cur, seen)
    ensures var n := rem[i - 1];
      if n < |leaf| then
        && cur[n] == 0 && seen[n] == 0
        && Accounted(rem, leaf, i - 1, len[n := bits], cur[n := bits], seen[n := leaf[n]])
      else Accounted(rem, leaf, i - 1, len[n := bits], cur, seen)
  {
    NoDuplicates(rem, AllNodes(leaf, k - 1));
  }

  /** Leaves among `rem[i..]`. */
  function LeavesFrom(rem: seq<nat>, e: nat, i: nat): nat
    decreases |rem| - i
  {
    if i >= |rem| then 0 else (if rem[i] < e then 1 else 0) + LeavesFrom(rem, e, i + 1)
  }

  /** Proof state of the first pass. */
  datatype Acc = Acc(cur: seq<nat>, seen: seq<nat>, weights: seq<int>, longest: seq<int>)

  /** The weights given and still owed make up the whole code space and the excess of the clamped nodes. */
  ghost predicate Balance(bl: seq<nat>, max: nat, overflow: nat, a: Acc)
    requires |bl| == MAX_BITS + 1 && 1 <= max <= MAX_BITS
  {
    && Sum(a.weights) + 2 * Kraft(bl, MAX_BITS) == Pow2(16) + Shl(overflow, MAX_BITS - max)
    && Sum(a.longest) + 2 * bl[max] >= overflow
  }

  ghost predicate PassState(rem: seq<nat>, leaf: seq<nat>, k: nat, max: nat, i: nat, len: seq<nat>,
                            bl: seq<nat>, overflow: nat, a: Acc)
  {
    && 1 <= max <= MAX_BITS
    && Visited(rem, |leaf|, k, max, i, len)
    && Accounted(rem, leaf, i, len, a.cur, a.seen)
    && Counted(bl, a.cur)
    && Total(bl, MAX_BITS) == LeavesFrom(rem, |leaf|, i)
    && Open(rem, |leaf|, k, i, len, KraftWeight(), a.weights)
    && Open(rem, |leaf|, k, i, len, MaxWeight(max), a.longest)
    && Balance(bl, max, overflow, a)
    && (forall n :: 0 <= n < |leaf| ==> a.cur[n] <= max)
  }

  ghost function NextAcc(rem: seq<nat>, leaf: seq<nat>, max: nat, i: nat, len: seq<nat>, a: Acc, bits: nat): Acc
    requires 1 <= i <= |rem| && |leaf| + (i - 1) / 2 < |len| && |a.cur| == |a.seen| == |leaf|
    requires (i - 1) / 2 < |a.weights| == |a.longest| && rem[i - 1] < |leaf| + |a.weights|
  {
    var n := rem[i - 1];
    Acc(if n < |leaf| then a.cur[n := bits] else a.cur,
        if n < |leaf| then a.seen[n := leaf[n]] else a.seen,
        OpenNext(rem, |leaf|, i, len, KraftWeight(), a.weights, bits),
        OpenNext(rem, |leaf|, i, len, MaxWeight(max), a.longest, bits))
  }

  lemma CountedStep(bl: seq<nat>, cur: seq<nat>, n: nat, bits: nat)
    requires Counted(bl, cur) && n < |cur| && cur[n] == 0 && 1 <= bits <= MAX_BITS
    ensures Counted(bl[bits := bl[bits] + 1], cur[n := bits])
  {
    var bl' := bl[bits := bl[bits] + 1];
    forall b | 1 <= b <= MAX_BITS
      ensures bl'[b] == Count(cur[n := bits], b)
    {
      CountUpdate(cur, n, bits, b);
    }
  }

  /** Visiting one node keeps the balance: a clamped one adds half a longest code. */
  lemma BalanceStep(bl: seq<nat>, max: nat, overflow: nat, a: Acc, a': Acc, father: nat, isLeaf: bool)
    requires |bl| == MAX_BITS + 1 && 1 <= max <= MAX_BITS && father <= max && Balance(bl, max, overflow, a)
    requires var bits := Clamp(father + 1, max);
      && Sum(a'.weights) == Sum(a.weights) - KraftWeight()(father) + (if isLeaf then 0 else 2 * KraftWeight()(bits))
      && Sum(a'.longest) == Sum(a.longest) - MaxWeight(max)(father) + (if isLeaf then 0 else 2 * MaxWeight(max)(bits))
    ensures var bits := Clamp(father + 1, max);
      Balance(if isLeaf then bl[bits := bl[bits] + 1] else bl, max,
              if father + 1 > max then overflow + 1 else overflow, a')
  {
    hide Kraft, Shl, Sum, Pow2;
    var bits := Clamp(father + 1, max);
    KraftInc(bl, bits, MAX_BITS);
    if father + 1 > max {
      ShlAdd(overflow, 1, MAX_BITS - max);
      ShlPow2(0, MAX_BITS - max);
      ZeroShift(MAX_BITS - max);
    } else {
      WeightHalf(father);
    }
  }

  lemma ZeroShift(n: nat)
    ensures Pow2(0) == 1 && Pow2(0 + n) == Pow2(n)
  {
  }

  lemma PassStep(rem: seq<nat>, leaf: seq<nat>, freq: seq<nat>, dad: seq<nat>, k: nat, max: nat, i: nat,
                 len: seq<nat>, bl: seq<nat>, overflow: nat, a: Acc) returns (a': Acc)
    requires FullTree(rem, leaf, freq, dad, k) && 1 <= i
    requires PassState(rem, leaf, k, max, i, len, bl, overflow, a)
    ensures rem[i - 1] < |len| && len[rem[i - 1]] == |leaf| + (i - 1) / 2 < |len|
    ensures var n := rem[i - 1];
      var father := len[len[n]];
      var bits := Clamp(father + 1, max);
      && 1 <= bits <= MAX_BITS
      && PassState(rem, leaf, k, max, i - 1, len[n := bits],
                   if n < |leaf| then bl[bits := bl[bits] + 1] else bl,
                   if father + 1 > max then overflow + 1 else overflow, a')
      && |a'.cur| == |a.cur| == |a'.seen| == |a.seen| == |leaf|
      && (n < |leaf| ==> a.seen[n] == 0 && a'.cur == a.cur[n := bits] && a'.seen == a.seen[n := leaf[n]])
      && (n >= |leaf| ==> a'.cur == a.cur && a'.seen == a.seen)
  {
    hide FullTree, Visited, Accounted, Open, Kraft, Total, Sum, Shl, Pow2, Counted;
    TreeBounds(rem, leaf, freq, dad, k, max, i, len, a, bl);
    var e, n := |leaf|, rem[i - 1];
    VisitStep(rem, leaf, freq, dad, k, max, i, len);
    var father := len[e + (i - 1) / 2];
    var bits := Clamp(father + 1, max);
    a' := NextAcc(rem, leaf, max, i, len, a, bits);
    AccountStep(rem, leaf, freq, dad, k, i, len, a.cur, a.seen, bits);
    OpenStep(rem, leaf, freq, dad, k, i, len, KraftWeight(), a.weights, bits);
    OpenStep(rem, leaf, freq, dad, k, i, len, MaxWeight(max), a.longest, bits);
    BalanceStep(bl, max, overflow, a, a', father, n < e);
    LeavesStepBack(rem, e, i);
    if n < e {
      CountedStep(bl, a.cur, n, bits);
      TotalInc(bl, bits, MAX_BITS);
    }
  }

  lemma LeavesStepBack(rem: seq<nat>, e: nat, i: nat)
    requires 1 <= i <= |rem|
    ensures LeavesFrom(rem, e, i - 1) == (if rem[i - 1] < e then 1 else 0) + LeavesFrom(rem, e, i)
  {
  }

  lemma TreeBounds(rem: seq<nat>, leaf: seq<nat>, freq: seq<nat>, dad: seq<nat>, k: nat, max: nat, i: nat,
                   len: seq<nat>, a: Acc, bl: seq<nat>)
    requires FullTree(rem, leaf, freq, dad, k) && 1 <= i && Visited(rem, |leaf|, k, max, i, len)
    requires Accounted(rem, leaf, i, len, a.cur, a.seen) && Counted(bl, a.cur)
    requires Open(rem, |leaf|, k, i, len, KraftWeight(), a.weights)
    requires Open(rem, |leaf|, k, i, len, MaxWeight(max), a.longest)
    ensures k >= 2 && |rem| == 2 * k - 1 && i <= 2 * k - 2 && |bl| == MAX_BITS + 1
    ensures |a.cur| == |a.seen| == |leaf| && |a.weights| == |a.longest| == k - 1
    ensures rem[i - 1] < |len| && rem[i - 1] < |leaf| + k - 1 <= |len|
    ensures len[|leaf| + (i - 1) / 2] <= max
  {
    hide FullTree, KraftWeight, MaxWeight, Count;
    TreeShape(rem, leaf, freq, dad, k);
    var p := FatherLater(rem, leaf, freq, dad, k, i - 1);
    VisitedBound(rem, |leaf|, k, max, i, len, p);
  }

  lemma PassStart(rem: seq<nat>, leaf: seq<nat>, freq: seq<nat>, dad: seq<nat>, k: nat, max: nat, len: seq<nat>,
                  bl: seq<nat>)
    returns (a: Acc)
    requires FullTree(rem, leaf, freq, dad, k) && 1 <= max <= MAX_BITS
    requires len == dad[rem[2 * k - 2] := 0]
    requires |bl| == MAX_BITS + 1 && forall b :: 0 <= b <= MAX_BITS ==> bl[b] == 0
    ensures PassState(rem, leaf, k, max, 2 * k - 2, len, bl, 0, a)
    ensures |a.cur| == |a.seen| == |leaf| && forall n :: 0 <= n < |leaf| ==> a.seen[n] == 0
  {
    hide FullTree, Visited, Accounted, Counted, Open, Balance, Sum, KraftWeight, MaxWeight, Total, LeavesFrom;
    TreeShape(rem, leaf, freq, dad, k);
    var zero := seq(|leaf|, _ => 0);
    var weights := OpenStart(rem, leaf, freq, dad, k, len, KraftWeight());
    var longest := OpenStart(rem, leaf, freq, dad, k, len, MaxWeight(max));
    a := Acc(zero, zero, weights, longest);
    StartVisited(rem, leaf, freq, dad, k, max, len);
    StartAccounted(rem, leaf, freq, dad, k, len, zero);
    StartCounted(zero, bl);
    StartBalance(bl, max, a);
  }

  /** At the start only the root is visited, and no symbol has a length. */
  lemma StartVisited(rem: seq<nat>, leaf: seq<nat>, freq: seq<nat>, dad: seq<nat>, k: nat, max: nat, len: seq<nat>)
    requires FullTree(rem, leaf, freq, dad, k) && len == dad[rem[2 * k - 2] := 0]
    ensures Visited(rem, |leaf|, k, max, 2 * k - 2, len)
  {
    NoDuplicates(rem, AllNodes(leaf, k - 1));
  }

  lemma StartAccounted(rem: seq<nat>, leaf: seq<nat>, freq: seq<nat>, dad: seq<nat>, k: nat, len: seq<nat>,
                       zero: seq<nat>)
    requires FullTree(rem, leaf, freq, dad, k) && |len| == |dad|
    requires |zero| == |leaf| && forall n :: 0 <= n < |zero| ==> zero[n] == 0
    ensures Accounted(rem, leaf, 2 * k - 2, len, zero, zero) && LeavesFrom(rem, |leaf|, 2 * k - 2) == 0
  {
    assert LeavesFrom(rem, |leaf|, 2 * k - 1) == 0;
  }

  lemma StartCounted(zero: seq<nat>, bl: seq<nat>)
    requires |bl| == MAX_BITS + 1 && forall b :: 0 <= b <= MAX_BITS ==> bl[b] == 0
    requires forall n :: 0 <= n < |zero| ==> zero[n] == 0
    ensures Counted(bl, zero) && Total(bl, MAX_BITS) == 0
  {
    hide Count, Total;
    forall b | 1 <= b <= MAX_BITS
      ensures Count(zero, b) == 0
    {
      CountZeros(zero, b);
    }
    TotalOfNothing(bl, MAX_BITS);
  }

  lemma StartBalance(bl: seq<nat>, max: nat, a: Acc)
    requires |bl| == MAX_BITS + 1 && (forall b :: 0 <= b <= MAX_BITS ==> bl[b] == 0) && 1 <= max <= MAX_BITS
    requires Sum(a.weights) == 2 * KraftWeight()(0) && Sum(a.longest) == 2 * MaxWeight(max)(0)
    ensures Balance(bl, max, 0, a)
  {
    hide Kraft, Sum, Shl;
    KraftOfNothing(bl, MAX_BITS);
    ShlIsMul(0, MAX_BITS - max);
    assert 2 * Pow2(15) == Pow2(16);
  }

  lemma {:induction false} KraftOfNothing(bl: seq<nat>, m: nat)
    requires |bl| == MAX_BITS + 1 && m <= MAX_BITS && forall b :: 0 <= b <= MAX_BITS ==> bl[b] == 0
    ensures Kraft(bl, m) == 0
  {
    if m > 0 {
      KraftOfNothing(bl, m - 1);
      ShlIsMul(0, MAX_BITS - m);
    }
  }

  /** At the end of the pass the excess is exactly that of the clamped nodes. */
  lemma PassEnd(rem: seq<nat>, leaf: seq<nat>, freq: seq<nat>, dad: seq<nat>, k: nat, max: nat,
                len: seq<nat>, bl: seq<nat>, overflow: nat, a: Acc)
    requires FullTree(rem, leaf, freq, dad, k)
    requires PassState(rem, leaf, k, max, 0, len, bl, overflow, a)
    requires forall n :: 0 <= n < |leaf| && leaf[n] == 0 ==> len[n] == 0
    ensures |leaf| <= |len| && a.cur == len[..|leaf|] && a.seen == leaf
    ensures Excess(bl, max, overflow)
    ensures Counted(bl, a.cur) && forall n :: 0 <= n < |leaf| ==> a.cur[n] <= max
    ensures Total(bl, MAX_BITS) == LeavesFrom(rem, |leaf|, 0)
  {
    hide Sum, Shl, Kraft, Total;
    OpenEnd(rem, leaf, freq, dad, k, len, KraftWeight(), a.weights);
    OpenEnd(rem, leaf, freq, dad, k, len, MaxWeight(max), a.longest);
    forall n | 0 <= n < |leaf|
      ensures a.cur[n] == len[n] && a.seen[n] == leaf[n]
    {
      if leaf[n] > 0 {
        var p := Position(rem, AllNodes(leaf, k - 1), n);
      }
    }
    forall b | max < b <= MAX_BITS
      ensures bl[b] == 0
    {
      CountNone(a.cur, b);
    }
  }

  lemma {:induction false} CountNone(s: seq<nat>, b: nat)
    requires forall i :: 0 <= i < |s| ==> s[i] != b
    ensures Count(s, b) == 0
  {
    if s != [] {
      CountNone(s[..|s| - 1], b);
    }
  }

  /** Giving a symbol that was not yet counted its frequency and length. */
  lemma CostGive(seen: seq<nat>, len: seq<nat>, extra: seq<nat>, n: nat, f: nat, bits: nat)
    requires |seen| == |len| == |extra| && n < |seen| && seen[n] == 0
    ensures Cost(seen[n := f], len[n := bits], extra) == Cost(seen, len, extra) + f * (bits + extra[n])
  {
    var terms := CostTerms(seen, len, extra);
    SumUpdate(terms, n, f * (bits + extra[n]));
    assert CostTerms(seen[n := f], len[n := bits], extra) == terms[n := f * (bits + extra[n])];
  }

  lemma CostOfNothing(seen: seq<nat>, len: seq<nat>, extra: seq<nat>)
    requires |seen| == |len| == |extra| && forall n :: 0 <= n < |seen| ==> seen[n] == 0
    ensures Cost(seen, len, extra) == 0
  {
    SumZero(CostTerms(seen, len, extra));
  }

  lemma StaticCostGive(t: Tree, seen: seq<nat>, n: nat, f: nat)
    requires t.Valid() && |seen| == t.elems && n < t.elems && seen[n] == 0
    ensures StaticCost(t, seen[n := f]) == StaticCost(t, seen) + if t.stree == [] then 0
      else f * (t.stree[n] + t.Extra(n))
  {
    if t.stree != [] {
      var sl := t.stree[..t.elems];
      CostGive(seen, sl, Extras(t), n, f, sl[n]);
      assert sl[n := sl[n]] == sl;
    }
  }

  /** One turn of the first loop of `gen_bitlen`, on node `n`. */
  method VisitNode(b: Builder, t: Tree, n: nat, ghost leaf: seq<nat>, ghost a: Acc, ghost a': Acc) returns (over: nat)
    requires b.Fits(t) && n < t.dl.Length && t.dl[n] < t.dl.Length
    requires n < t.elems ==> n <= t.maxCode < t.elems
    requires n >= t.elems ==> t.maxCode < t.elems
    requires Clamp(t.dl[t.dl[n]] + 1, t.maxLength) <= MAX_BITS
    requires |leaf| == |a.cur| == |a.seen| == |a'.cur| == |a'.seen| == t.elems
    requires n < t.elems ==> t.fc[n] == leaf[n] && a.seen[n] == 0
    requires var bits := Clamp(t.dl[t.dl[n]] + 1, t.maxLength);
      && (n < t.elems ==> a'.cur == a.cur[n := bits] && a'.seen == a.seen[n := leaf[n]])
      && (n >= t.elems ==> a'.cur == a.cur && a'.seen == a.seen)
    modifies b.blCount, b`optLen, b`staticLen, t.dl
    ensures var bits := Clamp(old(t.dl[t.dl[n]]) + 1, t.maxLength);
      && over == (if old(t.dl[t.dl[n]]) + 1 > t.maxLength then 1 else 0)
      && t.dl[..] == old(t.dl[..])[n := bits]
      && b.blCount[..]
           == (if n < t.elems then old(b.blCount[..])[bits := old(b.blCount[..])[bits] + 1] else old(b.blCount[..]))
    ensures b.optLen == old(b.optLen) + Cost(a'.seen, a'.cur, Extras(t)) - Cost(a.seen, a.cur, Extras(t))
    ensures b.staticLen == old(b.staticLen) + StaticCost(t, a'.seen) - StaticCost(t, a.seen)
  {
    hide Cost;
    over := 0;
    var bits: nat := t.dl[t.dl[n]] + 1;
    if bits > t.maxLength {
      bits := t.maxLength;
      over := 1;
    }
    t.dl[n] := bits;
    if n > t.maxCode {
      return;
    }
    b.blCount[bits] := b.blCount[bits] + 1;
    var xbits := t.Extra(n);
    var f := t.fc[n];
    CostGive(a.seen, a.cur, Extras(t), n, f, bits);
    StaticCostGive(t, a.seen, n, f);
    b.optLen := b.optLen + f * (bits + xbits);
    if t.stree != [] {
      b.staticLen := b.staticLen + f * (t.stree[n] + xbits);
    }
  }

  /** The state that `build_tree` hands to `gen_bitlen`. */
  ghost predicate Ready(b: Builder, t: Tree, leaf: seq<nat>, k: nat, rem: seq<nat>, weight: seq<nat>)
    reads b, b.heap, t, t.fc, t.dl
  {
    && b.Fits(t) && t.fc[..t.elems] == leaf && |weight| == t.dl.Length
    && FullTree(rem, leaf, weight, t.dl[..], k)
    && b.heapMax == HEAP_SIZE - |rem| && Stored(b.heap[..], rem)
    && (forall n :: 0 <= n < t.elems && leaf[n] == 0 ==> t.dl[n] == 0)
    && 1 <= t.maxCode < t.elems && (forall n :: t.maxCode < n < t.elems ==> leaf[n] == 0)
  }

  /** Clear the counts and give the root length 0. */
  method StartPass(b: Builder, t: Tree, ghost leaf: seq<nat>, ghost k: nat, ghost rem: seq<nat>,
                   ghost weight: seq<nat>) returns (ghost a: Acc)
    requires Ready(b, t, leaf, k, rem, weight)
    modifies b.blCount, t.dl
    ensures k >= 2 && |rem| == 2 * k - 1
    ensures forall n :: 0 <= n < t.elems && leaf[n] == 0 ==> t.dl[n] == 0
    ensures PassState(rem, leaf, k, t.maxLength, 2 * k - 2, t.dl[..], b.blCount[..], 0, a)
    ensures |a.cur| == |a.seen| == t.elems && Cost(a.seen, a.cur, Extras(t)) == 0 && StaticCost(t, a.seen) == 0
  {
    hide FullTree, Cost, PassState, StaticCost;
    ghost var freq, dad := weight, t.dl[..];
    var bits := 0;
    while bits <= MAX_BITS
      invariant 0 <= bits <= MAX_BITS + 1
      invariant forall i :: 0 <= i < bits ==> b.blCount[i] == 0
      modifies b.blCount
    {
      b.blCount[bits] := 0;
      bits := bits + 1;
    }
    TreeShape(rem, leaf, freq, dad, k);
    RootStored(b.heap[..], rem);
    t.dl[b.heap[b.heapMax]] := 0;
    assert t.dl[..] == dad[rem[2 * k - 2] := 0];
    a := PassStart(rem, leaf, freq, dad, k, t.maxLength, t.dl[..], b.blCount[..]);
    CostOfNothing(a.seen, a.cur, Extras(t));
    StaticOfNothing(t, a.seen);
  }

  /** The first pass: lengths by depth, clamped, and the count of clamped nodes. */
  method FirstPass(b: Builder, t: Tree, ghost leaf: seq<nat>, ghost k: nat, ghost rem: seq<nat>,
                   ghost weight: seq<nat>) returns (overflow: nat)
    requires Ready(b, t, leaf, k, rem, weight)
    modifies b.blCount, b`optLen, b`staticLen, t.dl
    ensures Visited(rem, t.elems, k, t.maxLength, 0, t.dl[..])
    ensures Excess(b.blCount[..], t.maxLength, overflow)
    ensures Counted(b.blCount[..], t.dl[..t.elems])
    ensures Total(b.blCount[..], MAX_BITS) == LeavesFrom(rem, t.elems, 0)
    ensures forall n :: 0 <= n < t.elems ==> t.dl[n] <= t.maxLength && (leaf[n] == 0 ==> t.dl[n] == 0)
    ensures b.optLen == old(b.optLen) + Cost(leaf, t.dl[..t.elems], Extras(t))
    ensures b.staticLen == old(b.staticLen) + StaticCost(t, leaf)
  {
    hide FullTree, Visited, Cost, PassState, Excess, Counted, Total, LeavesFrom, StaticCost;
    ghost var freq, dad := weight, t.dl[..];
    overflow := 0;
    ghost var a := StartPass(b, t, leaf, k, rem, weight);
    var h := b.heapMax + 1;
    while h < HEAP_SIZE
      invariant b.heapMax < h <= HEAP_SIZE
      invariant t.fc[..t.elems] == leaf && |a.cur| == |a.seen| == t.elems
      invariant forall n :: 0 <= n < t.elems && leaf[n] == 0 ==> t.dl[n] == 0
      invariant PassState(rem, leaf, k, t.maxLength, HEAP_SIZE - h, t.dl[..], b.blCount[..], overflow, a)
      invariant b.optLen == old(b.optLen) + Cost(a.seen, a.cur, Extras(t))
      invariant b.staticLen == old(b.staticLen) + StaticCost(t, a.seen)
    {
      var n := b.heap[h];
      assert n == rem[HEAP_SIZE - h - 1];
      ghost var a' := PassStep(rem, leaf, freq, dad, k, t.maxLength, HEAP_SIZE - h,
        t.dl[..], b.blCount[..], overflow, a);
      NodeShape(rem, leaf, freq, dad, k, HEAP_SIZE - h - 1);
      assert n < t.elems ==> t.fc[n] == leaf[n] by { TreeShape(rem, leaf, freq, dad, k); }
      var over := VisitNode(b, t, n, leaf, a, a');
      overflow := overflow + over;
      a := a';
      h := h + 1;
    }
    PassEnd(rem, leaf, freq, dad, k, t.maxLength, t.dl[..], b.blCount[..], overflow, a);
    PassVisited(rem, leaf, k, t.maxLength, 0, t.dl[..], b.blCount[..], overflow, a);
    assert t.dl[..][..t.elems] == t.dl[..t.elems];
  }

  lemma PassVisited(rem: seq<nat>, leaf: seq<nat>, k: nat, max: nat, i: nat, len: seq<nat>, bl: seq<nat>,
                    overflow: nat, a: Acc)
    requires PassState(rem, leaf, k, max, i, len, bl, overflow, a)
    ensures Visited(rem, |leaf|, k, max, i, len)
  {
  }

  lemma TreeShape(rem: seq<nat>, leaf: seq<nat>, freq: seq<nat>, dad: seq<nat>, k: nat)
    requires FullTree(rem, leaf, freq, dad, k)
    ensures k >= 2 && |rem| == 2 * k - 1 && rem[2 * k - 2] < |dad| && rem[2 * k - 2] >= |leaf| && |leaf| <= |freq|
    ensures freq[..|leaf|] == leaf
  {
  }

  lemma TreeDistinct(rem: seq<nat>, leaf: seq<nat>, freq: seq<nat>, dad: seq<nat>, k: nat)
    requires FullTree(rem, leaf, freq, dad, k)
    ensures k >= 2 && |rem| == 2 * k - 1 && forall i, j :: 0 <= i < j < |rem| ==> rem[i] != rem[j]
  {
    hide Merged;
    NoDuplicates(rem, AllNodes(leaf, k - 1));
  }

  lemma NodeShape(rem: seq<nat>, leaf: seq<nat>, freq: seq<nat>, dad: seq<nat>, k: nat, j: nat)
    requires FullTree(rem, leaf, freq, dad, k) && j < |rem|
    ensures rem[j] < |freq| && (rem[j] < |leaf| ==> leaf[rem[j]] > 0)
  {
    NoDuplicates(rem, AllNodes(leaf, k - 1));
  }

  lemma RootStored(heap: seq<nat>, rem: seq<nat>)
    requires Stored(heap, rem) && |rem| > 0
    ensures heap[|heap| - |rem|] == rem[|rem| - 1]
  {
  }

  lemma StaticOfNothing(t: Tree, seen: seq<nat>)
    requires t.Valid() && |seen| == t.elems && forall n :: 0 <= n < t.elems ==> seen[n] == 0
    ensures StaticCost(t, seen) == 0
  {
    if t.stree != [] {
      CostOfNothing(seen, t.stree[..t.elems], Extras(t));
    }
  }

  // ----- the second pass

  /** The leaves among `rem[..j]` have their final length, at least `bits`, and none is shorter than a later one. */
  ghost predicate Given(rem: seq<nat>, leaf: seq<nat>, j: nat, len: seq<nat>, given: seq<nat>, bits: nat)
  {
    && |given| == |leaf| <= |len| && j <= |rem|
    && (forall x :: 0 <= x < j && rem[x] < |leaf| ==>
         given[rem[x]] == len[rem[x]] >= bits && 1 <= len[rem[x]] <= MAX_BITS)
    && (forall x :: j <= x < |rem| && rem[x] < |leaf| ==> given[rem[x]] == 0)
    && (forall n :: 0 <= n < |leaf| && leaf[n] == 0 ==> given[n] == 0 && len[n] == 0)
    && (forall x, y :: 0 <= x < y < j && rem[x] < |leaf| && rem[y] < |leaf| ==> len[rem[x]] >= len[rem[y]])
  }

  /** `n` codes of length `bits`, and all shorter ones, are still to be given. */
  ghost predicate ToGive(bl: seq<nat>, given: seq<nat>, bits: nat, n: nat)
  {
    && |bl| == MAX_BITS + 1 && bits <= MAX_BITS && n <= bl[bits]
    && forall b :: 1 <= b <= MAX_BITS ==>
         Count(given, b) == if b > bits then bl[b] else if b == bits then bl[b] - n else 0
  }

  lemma GiveStep(rem: seq<nat>, leaf: seq<nat>, freq: seq<nat>, dad: seq<nat>, k: nat,
                 j: nat, len: seq<nat>, given: seq<nat>,
                 bl: seq<nat>, bits: nat, n: nat)
    requires FullTree(rem, leaf, freq, dad, k) && j < |rem| && 1 <= bits <= MAX_BITS
    requires Given(rem, leaf, j, len, given, bits) && ToGive(bl, given, bits, n) && n > 0
    requires forall x :: 0 <= x < j && rem[x] < |leaf| ==> len[rem[x]] >= bits
    ensures rem[j] < |leaf| ==>
      && Given(rem, leaf, j + 1, len[rem[j] := bits], given[rem[j] := bits], bits)
      && ToGive(bl, given[rem[j] := bits], bits, n - 1)
    ensures rem[j] >= |leaf| ==> Given(rem, leaf, j + 1, len, given, bits)
  {
    hide FullTree;
    NoDuplicatesInTree(rem, leaf, freq, dad, k);
    NodeShape(rem, leaf, freq, dad, k, j);
    if rem[j] < |leaf| {
      var m := rem[j];
      var given' := given[m := bits];
      forall b | 1 <= b <= MAX_BITS
        ensures Count(given', b) == if b > bits then bl[b] else if b == bits then bl[b] - (n - 1) else 0
      {
        CountUpdate(given, m, bits, b);
      }
    }
  }

  lemma NoDuplicatesInTree(rem: seq<nat>, leaf: seq<nat>, freq: seq<nat>, dad: seq<nat>, k: nat)
    requires FullTree(rem, leaf, freq, dad, k)
    ensures forall i, j :: 0 <= i < j < |rem| ==> rem[i] != rem[j]
  {
    NoDuplicates(rem, AllNodes(leaf, k - 1));
  }

  /** Changing one length changes the cost by its frequency for each bit. */
  lemma CostChange(freq: seq<nat>, len: seq<nat>, extra: seq<nat>, m: nat, bits: nat)
    requires |freq| == |len| == |extra| && m < |freq|
    ensures Cost(freq, len[m := bits], extra) == Cost(freq, len, extra) + (bits - len[m]) * freq[m]
  {
    var terms := CostTerms(freq, len, extra);
    SumUpdate(terms, m, freq[m] * (bits + extra[m]));
    assert CostTerms(freq, len[m := bits], extra) == terms[m := freq[m] * (bits + extra[m])];
    assert freq[m] * (bits + extra[m]) - freq[m] * (len[m] + extra[m]) == (bits - len[m]) * freq[m];
  }

  /** The inner loop of the second pass: give length `bits` to the next `count` leaves. */
  method GiveLength(b: Builder, t: Tree, bits: nat, h0: nat, ghost leaf: seq<nat>, ghost k: nat, ghost rem: seq<nat>,
                    ghost weight: seq<nat>, ghost dad: seq<nat>, ghost given0: seq<nat>)
    returns (h: nat, ghost given: seq<nat>)
    requires b.Fits(t) && |leaf| == t.elems && Stored(b.heap[..], rem)
    requires t.fc[..t.elems] == leaf && FullTree(rem, leaf, weight, dad, k) && |rem| <= HEAP_SIZE
    requires 1 <= t.maxCode < t.elems && forall n :: t.maxCode < n < t.elems ==> leaf[n] == 0
    requires 1 <= bits <= MAX_BITS && h0 <= HEAP_SIZE
    requires Given(rem, leaf, HEAP_SIZE - h0, t.dl[..], given0, bits)
    requires ToGive(b.blCount[..], given0, bits, b.blCount[bits])
    requires Total(b.blCount[..], bits) == LeavesFrom(rem, t.elems, HEAP_SIZE - h0)
    modifies b`optLen, t.dl
    ensures h <= HEAP_SIZE
    ensures Given(rem, leaf, HEAP_SIZE - h, t.dl[..], given, bits)
    ensures ToGive(b.blCount[..], given, bits, 0)
    ensures Total(b.blCount[..], bits - 1) == LeavesFrom(rem, t.elems, HEAP_SIZE - h)
    ensures b.optLen - Cost(leaf, t.dl[..t.elems], Extras(t)) == old(b.optLen - Cost(leaf, t.dl[..t.elems], Extras(t)))
  {
    hide FullTree, Given, ToGive, Cost;
    ghost var base := b.optLen - Cost(leaf, t.dl[..t.elems], Extras(t));
    ghost var bl, freq := b.blCount[..], weight;
    h, given := h0, given0;
    var n := b.blCount[bits];
    while n != 0
      invariant 0 <= n && h <= HEAP_SIZE && t.fc[..t.elems] == leaf && b.blCount[..] == bl
      invariant Given(rem, leaf, HEAP_SIZE - h, t.dl[..], given, bits)
      invariant ToGive(bl, given, bits, n)
      invariant n + Total(bl, bits - 1) == LeavesFrom(rem, t.elems, HEAP_SIZE - h)
      invariant b.optLen - Cost(leaf, t.dl[..t.elems], Extras(t)) == base
      decreases h
    {
      ghost var len := t.dl[..];
      h := h - 1;
      var m := b.heap[h];
      ghost var j := HEAP_SIZE - h - 1;
      assert m == rem[j];
      NodeShape(rem, leaf, freq, dad, k, j);
      TreeShape(rem, leaf, freq, dad, k);
      GivenAtLeast(rem, leaf, j, len, given, bits);
      GiveStep(rem, leaf, freq, dad, k, j, len, given, bl, bits, n);
      if m > t.maxCode {
        continue;
      }
      assert len[..t.elems][m := bits] == len[m := bits][..t.elems];
      CostChange(leaf, len[..t.elems], Extras(t), m, bits);
      if t.dl[m] != bits {
        b.optLen := b.optLen + (bits - t.dl[m]) * t.fc[m];
        t.dl[m] := bits;
      }
      assert t.dl[..] == len[m := bits];
      given := given[m := bits];
      n := n - 1;
    }
  }

  lemma GivenAtLeast(rem: seq<nat>, leaf: seq<nat>, j: nat, len: seq<nat>, given: seq<nat>, bits: nat)
    requires Given(rem, leaf, j, len, given, bits)
    ensures |given| == |leaf| <= |len| && j <= |rem|
    ensures forall x :: 0 <= x < j && rem[x] < |leaf| ==> len[rem[x]] >= bits
  {
  }

  /** The second pass: hand the repaired counts out, longest first, in order of increasing frequency. */
  method Reassign(b: Builder, t: Tree, ghost leaf: seq<nat>, ghost k: nat, ghost rem: seq<nat>,
                  ghost weight: seq<nat>, ghost dad: seq<nat>)
    requires b.Fits(t) && |leaf| == t.elems && Stored(b.heap[..], rem)
    requires t.fc[..t.elems] == leaf && FullTree(rem, leaf, weight, dad, k) && |rem| <= HEAP_SIZE
    requires 1 <= t.maxCode < t.elems && forall n :: t.maxCode < n < t.elems ==> leaf[n] == 0
    requires forall n :: 0 <= n < t.elems && leaf[n] == 0 ==> t.dl[n] == 0
    requires b.blCount[0] == 0 && forall i :: t.maxLength < i <= MAX_BITS ==> b.blCount[i] == 0
    requires Total(b.blCount[..], MAX_BITS) == LeavesFrom(rem, t.elems, 0)
    modifies b`optLen, t.dl
    ensures Counted(b.blCount[..], t.dl[..t.elems])
    ensures forall n :: 0 <= n < t.elems ==> t.dl[n] <= MAX_BITS && (leaf[n] > 0 <==> t.dl[n] > 0)
    ensures Rarer(leaf, t.dl[..t.elems])
    ensures b.optLen - Cost(leaf, t.dl[..t.elems], Extras(t)) == old(b.optLen - Cost(leaf, t.dl[..t.elems], Extras(t)))
  {
    hide FullTree, Given, ToGive, Cost, Counted, Rarer, Total, LeavesFrom;
    ghost var bl, freq := b.blCount[..], weight;
    ghost var given := seq(t.elems, _ => 0);
    var h: nat, bits := HEAP_SIZE, t.maxLength;
    GiveStart(rem, leaf, t.dl[..], given, bl, bits);
    while bits != 0
      invariant 0 <= bits <= t.maxLength && h <= HEAP_SIZE && t.fc[..t.elems] == leaf && b.blCount[..] == bl
      invariant Given(rem, leaf, HEAP_SIZE - h, t.dl[..], given, bits)
      invariant ToGive(bl, given, bits, bl[bits])
      invariant Total(bl, bits) == LeavesFrom(rem, t.elems, HEAP_SIZE - h)
      invariant b.optLen - Cost(leaf, t.dl[..t.elems], Extras(t))
        == old(b.optLen - Cost(leaf, t.dl[..t.elems], Extras(t)))
    {
      h, given := GiveLength(b, t, bits, h, leaf, k, rem, weight, dad, given);
      GiveNext(rem, leaf, HEAP_SIZE - h, t.dl[..], given, bl, bits);
      bits := bits - 1;
    }
    GiveEnd(rem, leaf, freq, dad, k, HEAP_SIZE - h, t.dl[..], given, bl);
    assert t.dl[..][..t.elems] == t.dl[..t.elems];
  }

  lemma GiveStart(rem: seq<nat>, leaf: seq<nat>, len: seq<nat>, given: seq<nat>, bl: seq<nat>, max: nat)
    requires |leaf| <= |len| && given == seq(|leaf|, _ => 0) && |bl| == MAX_BITS + 1 && max <= MAX_BITS
    requires forall n :: 0 <= n < |leaf| && leaf[n] == 0 ==> len[n] == 0
    requires forall i :: max < i <= MAX_BITS ==> bl[i] == 0
    ensures Given(rem, leaf, 0, len, given, max) && ToGive(bl, given, max, bl[max])
    ensures Total(bl, MAX_BITS) == Total(bl, max)
  {
    TotalSame(bl, max);
    forall b | 1 <= b <= MAX_BITS
      ensures Count(given, b) == 0
    {
      CountZeros(given, b);
    }
  }

  lemma GiveNext(rem: seq<nat>, leaf: seq<nat>, j: nat, len: seq<nat>, given: seq<nat>, bl: seq<nat>, bits: nat)
    requires Given(rem, leaf, j, len, given, bits) && 1 <= bits && ToGive(bl, given, bits, 0)
    ensures Given(rem, leaf, j, len, given, bits - 1) && ToGive(bl, given, bits - 1, bl[bits - 1])
  {
  }

  /** A strictly rarer symbol does not get a shorter code. */
  ghost predicate Rarer(leaf: seq<nat>, len: seq<nat>)
  {
    |len| == |leaf| && forall m, n :: 0 <= m < |leaf| && 0 <= n < |leaf| && 0 < leaf[m] < leaf[n] ==> len[m] >= len[n]
  }

  lemma GiveEnd(rem: seq<nat>, leaf: seq<nat>, freq: seq<nat>, dad: seq<nat>, k: nat, j: nat, len: seq<nat>,
                given: seq<nat>, bl: seq<nat>)
    requires FullTree(rem, leaf, freq, dad, k) && Given(rem, leaf, j, len, given, 0)
    requires |bl| == MAX_BITS + 1 && bl[0] == 0 && ToGive(bl, given, 0, bl[0])
    requires Total(bl, 0) == LeavesFrom(rem, |leaf|, j)
    ensures Counted(bl, len[..|leaf|]) && Rarer(leaf, len[..|leaf|])
    ensures forall n :: 0 <= n < |leaf| ==> len[n] <= MAX_BITS && (leaf[n] > 0 <==> len[n] > 0)
  {
    hide LeavesFrom, FullTree, Given;
    GivenSizes(rem, leaf, j, len, given);
    forall n | 0 <= n < |leaf|
      ensures given[n] == len[n] <= MAX_BITS && (leaf[n] > 0 <==> len[n] > 0)
    {
      LeafGiven(rem, leaf, freq, dad, k, j, len, given, n);
    }
    assert given == len[..|leaf|];
    forall m, n | 0 <= m < |leaf| && 0 <= n < |leaf| && 0 < leaf[m] < leaf[n]
      ensures len[m] >= len[n]
    {
      PairGiven(rem, leaf, freq, dad, k, j, len, given, m, n);
    }
  }

  lemma GivenSizes(rem: seq<nat>, leaf: seq<nat>, j: nat, len: seq<nat>, given: seq<nat>)
    requires Given(rem, leaf, j, len, given, 0)
    ensures |given| == |leaf| <= |len|
  {
  }

  lemma LeafGiven(rem: seq<nat>, leaf: seq<nat>, freq: seq<nat>, dad: seq<nat>, k: nat, j: nat, len: seq<nat>,
                  given: seq<nat>, n: nat)
    requires FullTree(rem, leaf, freq, dad, k) && Given(rem, leaf, j, len, given, 0)
    requires LeavesFrom(rem, |leaf|, j) == 0 && n < |leaf|
    ensures given[n] == len[n] <= MAX_BITS && (leaf[n] > 0 <==> len[n] > 0)
  {
    hide FullTree, LeavesFrom;
    if leaf[n] > 0 {
      var p := LeafAt(rem, leaf, freq, dad, k, n);
      NoLeafFrom(rem, |leaf|, j, p);
    }
  }

  lemma PairGiven(rem: seq<nat>, leaf: seq<nat>, freq: seq<nat>, dad: seq<nat>, k: nat, j: nat, len: seq<nat>,
                  given: seq<nat>, m: nat, n: nat)
    requires FullTree(rem, leaf, freq, dad, k) && Given(rem, leaf, j, len, given, 0)
    requires LeavesFrom(rem, |leaf|, j) == 0 && m < |leaf| && n < |leaf| && 0 < leaf[m] < leaf[n]
    ensures len[m] >= len[n]
  {
    hide FullTree, LeavesFrom;
    var p := LeafAt(rem, leaf, freq, dad, k, m);
    var q := LeafAt(rem, leaf, freq, dad, k, n);
    NoLeafFrom(rem, |leaf|, j, p);
    NoLeafFrom(rem, |leaf|, j, q);
    LeavesInOrder(rem, leaf, freq, dad, k, p, q);
  }

  lemma {:induction false} NoLeafFrom(rem: seq<nat>, e: nat, j: nat, p: nat)
    requires LeavesFrom(rem, e, j) == 0 && p < |rem| && rem[p] < e
    ensures p < j
    decreases |rem| - j
  {
    if j <= p {
      NoLeafFrom(rem, e, j + 1, p);
    }
  }

  // ----- gen_bitlen

  /** What `gen_bitlen` promises of the lengths. */
  ghost predicate Lengths(leaf: seq<nat>, len: seq<nat>, bl: seq<nat>, max: nat)
  {
    && |len| == |leaf|
    && (forall n :: 0 <= n < |leaf| ==> len[n] <= max && (leaf[n] > 0 <==> len[n] > 0))
    && Counted(bl, len)
    && Kraft(bl, MAX_BITS) == Pow2(MAX_BITS)
    && Rarer(leaf, len)
  }

  /** No node of the tree lies deeper than the limit. */
  ghost predicate Shallow(rem: seq<nat>, e: nat, k: nat, size: nat, max: nat)
  {
    exists depth: seq<nat> ::
      |depth| == size && Depths(rem, e, k, depth) && forall j :: 0 <= j < |rem| ==> depth[rem[j]] <= max
  }

  /** Clamping does not touch depths within the limit. */
  lemma {:induction false} LengthIsDepth(rem: seq<nat>, leaf: seq<nat>, freq: seq<nat>, dad: seq<nat>, k: nat,
                                         len: seq<nat>, depth: seq<nat>, max: nat, j: nat)
    requires FullTree(rem, leaf, freq, dad, k) && Visited(rem, |leaf|, k, max, 0, len)
    requires |depth| == |len| && Depths(rem, |leaf|, k, depth) && forall i :: 0 <= i < |rem| ==> depth[rem[i]] <= max
    requires j < |rem|
    ensures len[rem[j]] == depth[rem[j]]
    decreases |rem| - j
  {
    hide FullTree;
    if j < 2 * k - 2 {
      var p := FatherLater(rem, leaf, freq, dad, k, j);
      LengthIsDepth(rem, leaf, freq, dad, k, len, depth, max, p);
    }
  }

  /** In a tree within the limit nothing is clamped, and the lengths are the best there are. */
  lemma ShallowIsOptimal(rem: seq<nat>, leaf: seq<nat>, freq: seq<nat>, dad: seq<nat>, k: nat,
                         len: seq<nat>, bl: seq<nat>, max: nat, overflow: nat, extra: seq<nat>)
    requires FullTree(rem, leaf, freq, dad, k) && Visited(rem, |leaf|, k, max, 0, len) && |len| == |freq|
    requires |extra| == |leaf|
    requires Excess(bl, max, overflow) && Counted(bl, len[..|leaf|])
    requires forall n :: 0 <= n < |leaf| ==> len[n] <= max && (leaf[n] == 0 ==> len[n] == 0)
    ensures Shallow(rem, |leaf|, k, |len|, max) ==> overflow == 0 && Optimal(leaf, len[..|leaf|], extra)
  {
    hide FullTree, Optimal, Excess, Counted, Queue, KraftOf, Pow2;
    if Shallow(rem, |leaf|, k, |len|, max) {
      var depth: seq<nat> :|
        |depth| == |len| && Depths(rem, |leaf|, k, depth) && forall j :: 0 <= j < |rem| ==> depth[rem[j]] <= max;
      VisitedIsDepths(rem, leaf, freq, dad, k, len, depth, max);
      TreeOptimal(rem, leaf, freq, dad, k, len, extra);
      ExcessBounds(bl, max, overflow);
      VisitedBelow(rem, |leaf|, k, max, len);
      TreeKraft(rem, leaf, freq, dad, k, 0, len);
      FirstQueue(rem, leaf);
      CodedIfOccurs(rem, leaf, freq, dad, k, len);
      LeavesKraft(leaf, len);
      CountsAre(bl, len[..|leaf|]);
      NoOverflow(bl, max, overflow);
    }
  }

  lemma VisitedIsDepths(rem: seq<nat>, leaf: seq<nat>, freq: seq<nat>, dad: seq<nat>, k: nat, len: seq<nat>,
                        depth: seq<nat>, max: nat)
    requires FullTree(rem, leaf, freq, dad, k) && Visited(rem, |leaf|, k, max, 0, len)
    requires |depth| == |len| && Depths(rem, |leaf|, k, depth) && forall i :: 0 <= i < |rem| ==> depth[rem[i]] <= max
    ensures Depths(rem, |leaf|, k, len)
  {
    hide FullTree;
    forall j | 0 <= j < 2 * k - 2
      ensures len[rem[j]] == len[|leaf| + j / 2] + 1
    {
      LengthIsDepth(rem, leaf, freq, dad, k, len, depth, max, j);
      var p := FatherLater(rem, leaf, freq, dad, k, j);
      LengthIsDepth(rem, leaf, freq, dad, k, len, depth, max, p);
    }
  }

  lemma ExcessBounds(bl: seq<nat>, max: nat, overflow: nat)
    requires Excess(bl, max, overflow)
    ensures max <= MAX_BITS && |bl| == MAX_BITS + 1
  {
  }

  lemma VisitedBelow(rem: seq<nat>, e: nat, k: nat, max: nat, len: seq<nat>)
    requires Visited(rem, e, k, max, 0, len)
    ensures forall j :: 0 <= j < |rem| ==> rem[j] < |len| && len[rem[j]] <= max
  {
    forall j | 0 <= j < |rem|
      ensures rem[j] < |len| && len[rem[j]] <= max
    {
      VisitedBound(rem, e, k, max, 0, len, j);
    }
  }

  lemma CodedIfOccurs(rem: seq<nat>, leaf: seq<nat>, freq: seq<nat>, dad: seq<nat>, k: nat, len: seq<nat>)
    requires FullTree(rem, leaf, freq, dad, k) && Depths(rem, |leaf|, k, len) && |leaf| <= |len|
    ensures forall n :: 0 <= n < |leaf| && leaf[n] > 0 ==> len[n] > 0
  {
    forall n | 0 <= n < |leaf| && leaf[n] > 0
      ensures len[n] > 0
    {
      var p := Position(rem, AllNodes(leaf, k - 1), n);
    }
  }

  lemma CountsAre(bl: seq<nat>, len: seq<nat>)
    requires Counted(bl, len)
    ensures bl == Counts(len)
  {
  }

  lemma NoOverflow(bl: seq<nat>, max: nat, overflow: nat)
    requires Excess(bl, max, overflow) && Kraft(bl, MAX_BITS) == Pow2(MAX_BITS)
    ensures overflow == 0
  {
    hide Kraft;
    Pow2Double(MAX_BITS);
    ShlOrder(overflow, overflow, MAX_BITS - max);
  }

  method GenBitlen(b: Builder, t: Tree, ghost leaf: seq<nat>, ghost k: nat, ghost rem: seq<nat>, ghost weight: seq<nat>)
    requires Ready(b, t, leaf, k, rem, weight) && 2 <= t.maxLength
    modifies b.blCount, b`optLen, b`staticLen, t.dl
    ensures Lengths(leaf, t.dl[..t.elems], b.blCount[..], t.maxLength)
    ensures b.optLen == old(b.optLen) + Cost(leaf, t.dl[..t.elems], Extras(t))
    ensures b.staticLen == old(b.staticLen) + StaticCost(t, leaf)
    ensures k == 2 ==> forall n :: 0 <= n < t.elems && leaf[n] > 0 ==> t.dl[n] == 1
    ensures Shallow(rem, t.elems, k, t.dl.Length, t.maxLength) ==> Optimal(leaf, t.dl[..t.elems], Extras(t))
  {
    hide FullTree, Visited, Cost, Excess, Counted, Total, LeavesFrom, Rarer, StaticCost, Shallow, Optimal;
    ghost var freq, dad := weight, t.dl[..];
    TreeShape(rem, leaf, freq, dad, k);
    var overflow := FirstPass(b, t, leaf, k, rem, weight);
    TwoLeaves(rem, leaf, freq, dad, k, t.dl[..], b.blCount[..], t.maxLength, overflow);
    assert t.dl[..][..t.elems] == t.dl[..t.elems];
    ShallowIsOptimal(rem, leaf, freq, dad, k, t.dl[..], b.blCount[..], t.maxLength, overflow, Extras(t));
    if overflow == 0 {
      FitsAtOnce(rem, leaf, freq, dad, k, t.dl[..], b.blCount[..], t.maxLength);
      return;
    }
    NotTooMany(t.dl[..t.elems], b.blCount[..], t.maxLength);
    Repair(b.blCount, t.maxLength, overflow);
    NoExcess(b.blCount[..], t.maxLength);
    Reassign(b, t, leaf, k, rem, weight, dad);
    FromCounts(leaf, t.dl[..t.elems], b.blCount[..], t.maxLength);
  }

  /** Two symbols get one bit each. */
  lemma TwoLeaves(rem: seq<nat>, leaf: seq<nat>, freq: seq<nat>, dad: seq<nat>, k: nat, len: seq<nat>, bl: seq<nat>,
                  max: nat, overflow: nat)
    requires FullTree(rem, leaf, freq, dad, k) && Visited(rem, |leaf|, k, max, 0, len) && |leaf| <= |len|
    requires Excess(bl, max, overflow) && Counted(bl, len[..|leaf|])
    requires Total(bl, MAX_BITS) == LeavesFrom(rem, |leaf|, 0)
    requires forall n :: 0 <= n < |leaf| && leaf[n] == 0 ==> len[n] == 0
    ensures k == 2 ==> overflow == 0 && forall n :: 0 <= n < |leaf| && leaf[n] > 0 ==> len[n] == 1
  {
    hide FullTree, Visited, LeavesFrom, Total, Counted, Kraft, Shl;
    if k == 2 {
      forall n | 0 <= n < |leaf| && leaf[n] > 0
        ensures len[n] == 1
      {
        SonOfRoot(rem, leaf, freq, dad, len, max, n);
      }
      AtMostTwo(rem, leaf, freq, dad);
      OneBit(len[..|leaf|], bl, max, overflow);
    }
  }

  lemma SonOfRoot(rem: seq<nat>, leaf: seq<nat>, freq: seq<nat>, dad: seq<nat>, len: seq<nat>, max: nat, n: nat)
    requires FullTree(rem, leaf, freq, dad, 2) && Visited(rem, |leaf|, 2, max, 0, len) && max >= 1
    requires n < |leaf| <= |len| && leaf[n] > 0
    ensures len[n] == 1
  {
    hide Merged;
    var p := LeafAt(rem, leaf, freq, dad, 2, n);
    assert rem[2] == |leaf| && len[rem[p]] == Clamp(len[|leaf| + p / 2] + 1, max);
  }

  lemma AtMostTwo(rem: seq<nat>, leaf: seq<nat>, freq: seq<nat>, dad: seq<nat>)
    requires FullTree(rem, leaf, freq, dad, 2)
    ensures LeavesFrom(rem, |leaf|, 0) <= 2
  {
    hide Merged;
    var e := |leaf|;
    assert LeavesFrom(rem, e, 3) == 0;
    assert LeavesFrom(rem, e, 2) == 0;
    assert LeavesFrom(rem, e, 1) <= 1;
  }

  /** Two codes of one bit leave no excess. */
  lemma OneBit(len: seq<nat>, bl: seq<nat>, max: nat, overflow: nat)
    requires Excess(bl, max, overflow) && Counted(bl, len) && Total(bl, MAX_BITS) <= 2
    requires forall n :: 0 <= n < |len| ==> len[n] <= 1
    ensures overflow == 0
  {
    hide Kraft, Total, Shl;
    forall b | 2 <= b <= MAX_BITS
      ensures bl[b] == 0
    {
      CountNone(len, b);
    }
    KraftOnlyMax(bl, 1, MAX_BITS);
    TotalOnlyMax(bl, 1, MAX_BITS);
    ShlOrder(bl[1], 2, 14);
    ShlPow2(1, 14);
    ShlOrder(overflow, overflow, MAX_BITS - max);
    assert Pow2(16) == 2 * Pow2(15) && Pow2(1) == 2;
  }

  /** Without overflow the depths are the lengths. */
  lemma FitsAtOnce(rem: seq<nat>, leaf: seq<nat>, freq: seq<nat>, dad: seq<nat>, k: nat, len: seq<nat>,
                   bl: seq<nat>, max: nat)
    requires FullTree(rem, leaf, freq, dad, k) && Visited(rem, |leaf|, k, max, 0, len) && |leaf| <= |len|
    requires Excess(bl, max, 0) && Counted(bl, len[..|leaf|])
    requires forall n :: 0 <= n < |leaf| ==> len[n] <= max && (leaf[n] == 0 ==> len[n] == 0)
    ensures Lengths(leaf, len[..|leaf|], bl, max)
  {
    hide Kraft, FullTree, Visited, Excess, Counted;
    NoExcess(bl, max);
    forall n | 0 <= n < |leaf| && leaf[n] > 0
      ensures len[n] > 0
    {
      LeafHasLength(rem, leaf, freq, dad, k, len, bl, max, n);
    }
    forall m, n | 0 <= m < |leaf| && 0 <= n < |leaf| && 0 < leaf[m] < leaf[n]
      ensures len[m] >= len[n]
    {
      var p := LeafAt(rem, leaf, freq, dad, k, m);
      var q := LeafAt(rem, leaf, freq, dad, k, n);
      VisitedIsClamped(rem, |leaf|, k, max, len);
      RarerIsDeeper(rem, leaf, freq, dad, k, len, max, p, q);
    }
  }

  lemma VisitedIsClamped(rem: seq<nat>, e: nat, k: nat, max: nat, len: seq<nat>)
    requires Visited(rem, e, k, max, 0, len)
    ensures ClampedDepth(rem, e, len, max)
  {
  }

  lemma LeafHasLength(rem: seq<nat>, leaf: seq<nat>, freq: seq<nat>, dad: seq<nat>, k: nat, len: seq<nat>,
                      bl: seq<nat>, max: nat, n: nat)
    requires FullTree(rem, leaf, freq, dad, k) && Visited(rem, |leaf|, k, max, 0, len) && Excess(bl, max, 0)
    requires n < |leaf| <= |len| && leaf[n] > 0
    ensures len[n] > 0
  {
    hide FullTree, Kraft, Shl;
    var p := LeafAt(rem, leaf, freq, dad, k, n);
    assert len[rem[p]] == Clamp(len[|leaf| + p / 2] + 1, max);
  }

  lemma NotTooMany(len: seq<nat>, bl: seq<nat>, max: nat)
    requires Counted(bl, len) && |len| <= Pow2(max)
    ensures Total(bl, MAX_BITS) <= Pow2(max)
  {
    TotalAtMost(len, bl, MAX_BITS);
  }

  lemma NoExcess(bl: seq<nat>, max: nat)
    requires Excess(bl, max, 0)
    ensures |bl| == MAX_BITS + 1 && Kraft(bl, MAX_BITS) == Pow2(MAX_BITS)
    ensures bl[0] == 0 && forall b :: max < b <= MAX_BITS ==> bl[b] == 0
  {
    ShlIsMul(0, MAX_BITS - max);
    assert Pow2(16) == 2 * Pow2(15);
  }

  lemma FromCounts(leaf: seq<nat>, len: seq<nat>, bl: seq<nat>, max: nat)
    requires Counted(bl, len) && Rarer(leaf, len) && Kraft(bl, MAX_BITS) == Pow2(MAX_BITS)
    requires forall b :: max < b <= MAX_BITS ==> bl[b] == 0
    requires forall n :: 0 <= n < |leaf| ==> len[n] <= MAX_BITS && (leaf[n] > 0 <==> len[n] > 0)
    ensures Lengths(leaf, len, bl, max)
  {
    forall n | 0 <= n < |leaf|
      ensures len[n] <= max
    {
      CountPrefix(len, n, len[n]);
    }
  }
}
