/** The arithmetic behind `gen_bitlen`: Kraft sums of the lengths, and the excess that clamping causes. */
module BitLengths {
  import opened Bits
  import opened CanonicalCode

  /** The weight of a code of length `b`, in units of 2^-15. */
  function Weight(b: nat): nat
    requires b <= MAX_BITS
  {
    Pow2(MAX_BITS - b)
  }

  lemma WeightHalf(b: nat)
    requires b < MAX_BITS
    ensures Weight(b) == 2 * Weight(b + 1)
  {
  }

  // ----- counts

  lemma {:induction false} CountUpdate(s: seq<nat>, i: nat, v: nat, b: nat)
    requires i < |s|
    ensures Count(s[i := v], b) == Count(s, b) - (if s[i] == b then 1 else 0) + (if v == b then 1 else 0)
  {
    var k := |s| - 1;
    if i == k {
      assert s[i := v][..k] == s[..k];
    } else {
      CountUpdate(s[..k], i, v, b);
      assert s[i := v][..k] == s[..k][i := v];
    }
  }

  lemma {:induction false} CountZeros(s: seq<nat>, b: nat)
    requires b > 0 && forall i :: 0 <= i < |s| ==> s[i] == 0
    ensures Count(s, b) == 0
  {
    if s != [] {
      CountZeros(s[..|s| - 1], b);
    }
  }

  lemma {:induction false} KraftFrame(cnt: seq<nat>, cnt': seq<nat>, b: nat)
    requires |cnt| == |cnt'| == MAX_BITS + 1 && b <= MAX_BITS
    requires forall i :: 1 <= i <= b ==> cnt[i] == cnt'[i]
    ensures Kraft(cnt, b) == Kraft(cnt', b)
  {
    if b > 0 {
      KraftFrame(cnt, cnt', b - 1);
    }
  }

  /** One more code of length `b` adds its weight. */
  lemma {:induction false} KraftInc(cnt: seq<nat>, b: nat, m: nat)
    requires |cnt| == MAX_BITS + 1 && 1 <= b <= m <= MAX_BITS
    ensures Kraft(cnt[b := cnt[b] + 1], m) == Kraft(cnt, m) + Weight(b)
    decreases m
  {
    var cnt' := cnt[b := cnt[b] + 1];
    if b == m {
      KraftFrame(cnt, cnt', b - 1);
      ShlAdd(cnt[b], 1, MAX_BITS - b);
      ShlPow2(0, MAX_BITS - b);
    } else {
      KraftInc(cnt, b, m - 1);
    }
  }

  /** Number of codes of length at most `b`. */
  function Total(cnt: seq<nat>, b: nat): nat
    requires |cnt| == MAX_BITS + 1 && b <= MAX_BITS
  {
    if b == 0 then 0 else Total(cnt, b - 1) + cnt[b]
  }

  lemma {:induction false} TotalInc(cnt: seq<nat>, b: nat, m: nat)
    requires |cnt| == MAX_BITS + 1 && 1 <= b <= MAX_BITS && m <= MAX_BITS
    ensures Total(cnt[b := cnt[b] + 1], m) == Total(cnt, m) + (if b <= m then 1 else 0)
    decreases m
  {
    if m > 0 {
      TotalInc(cnt, b, m - 1);
    }
  }

  lemma {:induction false} TotalSame(cnt: seq<nat>, b: nat)
    requires |cnt| == MAX_BITS + 1 && b <= MAX_BITS && forall i :: b < i <= MAX_BITS ==> cnt[i] == 0
    ensures Total(cnt, MAX_BITS) == Total(cnt, b)
  {
    var m := b;
    while m < MAX_BITS
      invariant b <= m <= MAX_BITS && Total(cnt, m) == Total(cnt, b)
    {
      m := m + 1;
    }
  }

  /** There are no more codes than symbols. */
  lemma {:induction false} TotalAtMost(lens: seq<nat>, cnt: seq<nat>, m: nat)
    requires |cnt| == MAX_BITS + 1 && m <= MAX_BITS
    requires forall b :: 1 <= b <= MAX_BITS ==> cnt[b] == Count(lens, b)
    ensures Total(cnt, m) <= |lens|
  {
    if lens == [] {
      assert Total(cnt, m) == 0 by { TotalOfNothing(cnt, m); }
    } else {
      var k := |lens| - 1;
      var less := Counts(lens[..k]);
      TotalAtMost(lens[..k], less, m);
      if 1 <= lens[k] <= MAX_BITS {
        var x := lens[k];
        TotalInc(less, x, m);
        assert forall b :: 1 <= b <= MAX_BITS ==> cnt[b] == less[x := less[x] + 1][b];
        TotalFrame(cnt, less[x := less[x] + 1], m);
      } else {
        TotalFrame(cnt, less, m);
      }
    }
  }

  lemma {:induction false} TotalOfNothing(cnt: seq<nat>, m: nat)
    requires |cnt| == MAX_BITS + 1 && m <= MAX_BITS && forall b :: 1 <= b <= MAX_BITS ==> cnt[b] == 0
    ensures Total(cnt, m) == 0
  {
    if m > 0 {
      TotalOfNothing(cnt, m - 1);
    }
  }

  lemma {:induction false} TotalFrame(cnt: seq<nat>, cnt': seq<nat>, m: nat)
    requires |cnt| == |cnt'| == MAX_BITS + 1 && m <= MAX_BITS
    requires forall b :: 1 <= b <= MAX_BITS ==> cnt[b] == cnt'[b]
    ensures Total(cnt, m) == Total(cnt', m)
  {
    if m > 0 {
      TotalFrame(cnt, cnt', m - 1);
    }
  }

  // ----- the overflow repair

  /**
   * The lengths are clamped to `max`, and `overflow` nodes were: the Kraft sum exceeds 1 by half a
   * code of length `max` for each.
   */
  ghost predicate Excess(cnt: seq<nat>, max: nat, overflow: nat)
  {
    && |cnt| == MAX_BITS + 1 && 1 <= max <= MAX_BITS
    && cnt[0] == 0 && (forall b :: max < b <= MAX_BITS ==> cnt[b] == 0)
    && 2 * Kraft(cnt, MAX_BITS) == Pow2(16) + Shl(overflow, MAX_BITS - max)
    && 2 * cnt[max] >= overflow
  }

  /** The Kraft sum when only the longest length is used. */
  lemma {:induction false} KraftOnlyMax(cnt: seq<nat>, max: nat, m: nat)
    requires |cnt| == MAX_BITS + 1 && 1 <= max <= MAX_BITS && m <= MAX_BITS
    requires forall b :: 1 <= b <= MAX_BITS && b != max ==> cnt[b] == 0
    ensures Kraft(cnt, m) == (if m < max then 0 else Shl(cnt[max], MAX_BITS - max))
  {
    if m > 0 {
      KraftOnlyMax(cnt, max, m - 1);
      ShlIsMul(0, MAX_BITS - m);
    }
  }

  lemma {:induction false} ShlOrder(x: nat, y: nat, n: nat)
    requires x <= y
    ensures Shl(x, n) <= Shl(y, n) && x <= Shl(x, n)
  {
    if n > 0 {
      ShlOrder(x, y, n - 1);
    }
  }

  /** While there is an excess, some shorter length is in use. */
  lemma ShorterExists(cnt: seq<nat>, max: nat, overflow: nat)
    requires Excess(cnt, max, overflow) && overflow > 0
    requires Total(cnt, MAX_BITS) <= Pow2(max)
    ensures exists b :: 1 <= b < max && cnt[b] > 0
  {
    hide Kraft, Total, Shl;
    if forall b :: 1 <= b < max ==> cnt[b] == 0 {
      KraftOnlyMax(cnt, max, MAX_BITS);
      TotalOnlyMax(cnt, max, MAX_BITS);
      ShlOrder(cnt[max], Pow2(max), MAX_BITS - max);
      ShlPow2(max, MAX_BITS - max);
      ShlOrder(overflow, overflow, MAX_BITS - max);
      assert false;
    }
  }

  lemma {:induction false} TotalOnlyMax(cnt: seq<nat>, max: nat, m: nat)
    requires |cnt| == MAX_BITS + 1 && 1 <= max <= MAX_BITS && m <= MAX_BITS
    requires forall b :: 1 <= b <= MAX_BITS && b != max ==> cnt[b] == 0
    ensures Total(cnt, m) == (if m < max then 0 else cnt[max])
  {
    if m > 0 {
      TotalOnlyMax(cnt, max, m - 1);
    }
  }

  lemma ShlStep(x: nat, n: nat)
    ensures Shl(x, n + 1) == 2 * Shl(x, n)
  {
  }

  lemma {:induction false} ShlShl(x: nat, a: nat, b: nat)
    ensures Shl(Shl(x, a), b) == Shl(x, a + b)
  {
    if b > 0 {
      ShlShl(x, a, b - 1);
    }
  }

  /** Every Kraft sum of lengths up to `max` is a multiple of the weight of `max`. */
  lemma {:induction false} KraftMultiple(cnt: seq<nat>, max: nat, m: nat) returns (h: nat)
    requires |cnt| == MAX_BITS + 1 && 1 <= max <= MAX_BITS && m <= MAX_BITS
    requires forall b :: max < b <= MAX_BITS ==> cnt[b] == 0
    ensures Kraft(cnt, m) == Shl(h, MAX_BITS - max)
  {
    if m == 0 {
      h := 0;
      ShlIsMul(0, MAX_BITS - max);
    } else {
      h := KraftMultiple(cnt, max, m - 1);
      if m <= max {
        ShlShl(cnt[m], max - m, MAX_BITS - max);
        ShlAdd(h, Shl(cnt[m], max - m), MAX_BITS - max);
        h := h + Shl(cnt[m], max - m);
      } else {
        ShlIsMul(0, MAX_BITS - m);
      }
    }
  }

  /** One turn of the repair: a leaf of length `b` moves down, an overflowing item becomes its brother. */
  function Repaired(cnt: seq<nat>, max: nat, b: nat): seq<nat>
    requires |cnt| == MAX_BITS + 1 && 1 <= b < max <= MAX_BITS && cnt[b] > 0 && cnt[max] > 0
  {
    var down := cnt[b := cnt[b] - 1];
    var pair := down[b + 1 := down[b + 1] + 2];
    pair[max := pair[max] - 1]
  }

  /** One code less, or two more, of a length. */
  lemma OneLess(cnt: seq<nat>, b: nat)
    requires |cnt| == MAX_BITS + 1 && 1 <= b <= MAX_BITS && cnt[b] > 0
    ensures Kraft(cnt[b := cnt[b] - 1], MAX_BITS) + Weight(b) == Kraft(cnt, MAX_BITS)
    ensures Total(cnt[b := cnt[b] - 1], MAX_BITS) + 1 == Total(cnt, MAX_BITS)
  {
    hide Kraft, Total, Weight;
    var down: seq<nat> := cnt[b := cnt[b] - 1];
    assert down[b := down[b] + 1] == cnt;
    KraftInc(down, b, MAX_BITS);
    TotalInc(down, b, MAX_BITS);
  }

  lemma TwoMore(cnt: seq<nat>, b: nat)
    requires |cnt| == MAX_BITS + 1 && 1 <= b <= MAX_BITS
    ensures Kraft(cnt[b := cnt[b] + 2], MAX_BITS) == Kraft(cnt, MAX_BITS) + 2 * Weight(b)
    ensures Total(cnt[b := cnt[b] + 2], MAX_BITS) == Total(cnt, MAX_BITS) + 2
  {
    hide Kraft, Total, Weight;
    var one: seq<nat> := cnt[b := cnt[b] + 1];
    assert one[b := one[b] + 1] == cnt[b := cnt[b] + 2];
    KraftInc(cnt, b, MAX_BITS);
    KraftInc(one, b, MAX_BITS);
    TotalInc(cnt, b, MAX_BITS);
    TotalInc(one, b, MAX_BITS);
  }

  lemma RepairSums(cnt: seq<nat>, max: nat, b: nat)
    requires |cnt| == MAX_BITS + 1 && 1 <= b < max <= MAX_BITS && cnt[b] > 0 && cnt[max] > 0
    ensures Kraft(Repaired(cnt, max, b), MAX_BITS) + Weight(max) == Kraft(cnt, MAX_BITS)
    ensures Total(Repaired(cnt, max, b), MAX_BITS) == Total(cnt, MAX_BITS)
  {
    hide Kraft, Total, Weight;
    var down: seq<nat> := cnt[b := cnt[b] - 1];
    var pair: seq<nat> := down[b + 1 := down[b + 1] + 2];
    OneLess(cnt, b);
    TwoMore(down, b + 1);
    OneLess(pair, max);
    WeightHalf(b);
  }

  /** Two items of the excess are one code of the longest length. */
  lemma TwoOver(overflow: nat, max: nat)
    requires overflow >= 2 && 1 <= max <= MAX_BITS
    ensures Shl(overflow, MAX_BITS - max) == Shl(overflow - 2, MAX_BITS - max) + 2 * Weight(max)
  {
    hide Shl, Pow2;
    ShlAdd(overflow - 2, 2, MAX_BITS - max);
    ShlPow2(1, MAX_BITS - max);
    Pow2Double(MAX_BITS - max);
  }

  lemma RepairStep(cnt: seq<nat>, max: nat, overflow: nat, b: nat)
    requires Excess(cnt, max, overflow) && overflow >= 2
    requires 1 <= b < max && cnt[b] > 0 && cnt[max] > 0
    ensures Excess(Repaired(cnt, max, b), max, overflow - 2)
    ensures Total(Repaired(cnt, max, b), MAX_BITS) == Total(cnt, MAX_BITS)
  {
    hide Kraft, Total, Pow2, Shl, Weight;
    RepairSums(cnt, max, b);
    TwoOver(overflow, max);
  }

  /** The repair loop of `gen_bitlen`. */
  method Repair(cnt: array<nat>, max: nat, over: nat)
    requires Excess(cnt[..], max, over) && over > 0 && 2 <= max
    requires Total(cnt[..], MAX_BITS) <= Pow2(max)
    modifies cnt
    ensures Excess(cnt[..], max, 0)
    ensures Total(cnt[..], MAX_BITS) == old(Total(cnt[..], MAX_BITS))
  {
    hide Kraft, Total, Pow2;
    var overflow: int := over;
    OverflowEven(cnt[..], max, over);
    while true
      invariant 0 < overflow && overflow % 2 == 0
      invariant Excess(cnt[..], max, overflow)
      invariant Total(cnt[..], MAX_BITS) == old(Total(cnt[..], MAX_BITS))
      decreases overflow
    {
      ghost var s: seq<nat> := cnt[..];
      ShorterExists(s, max, overflow);
      var bits := max - 1;
      while cnt[bits] == 0
        invariant 1 <= bits < max && cnt[..] == s
        invariant exists b :: 1 <= b <= bits && s[b] > 0
        decreases bits
      {
        bits := bits - 1;
      }
      RepairStep(s, max, overflow, bits);
      cnt[bits] := cnt[bits] - 1;
      cnt[bits + 1] := cnt[bits + 1] + 2;
      cnt[max] := cnt[max] - 1;
      assert cnt[..] == Repaired(s, max, bits);
      overflow := overflow - 2;
      if overflow <= 0 {
        break;
      }
    }
  }

  /** The excess is a whole number of longest codes. */
  lemma OverflowEven(cnt: seq<nat>, max: nat, overflow: nat)
    requires Excess(cnt, max, overflow)
    ensures overflow % 2 == 0
  {
    hide Kraft, Shl, Pow2;
    var h := KraftMultiple(cnt, max, MAX_BITS);
    ShlTwice(h, MAX_BITS - max);
    ShlStep(h, MAX_BITS - max);
    ShlPow2(max + 1, MAX_BITS - max);
    ShlAdd(Pow2(max + 1), overflow, MAX_BITS - max);
    assert Shl(2 * h, MAX_BITS - max) == Shl(Pow2(max + 1) + overflow, MAX_BITS - max);
    ShlMono(2 * h, Pow2(max + 1) + overflow, MAX_BITS - max);
    ShlMono(Pow2(max + 1) + overflow, 2 * h, MAX_BITS - max);
    Pow2Double(max);
  }
}
