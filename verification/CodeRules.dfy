/** What RFC 1951 says of its tables and of its codes, in closed form. */
module CodeRules {
  import opened Bits
  import opened CanonicalCode
  import opened Inflate

  // ----- the tables of sections 3.2.5 and 3.2.7

  /** Eight lengths have codes of their own; then four codes share each number of extra bits; 258 stands alone. */
  lemma LengthTable(c: nat)
    requires c < 29
    ensures c < 8 ==> LengthExtra(c) == 0 && LengthBase(c) == 3 + c
    ensures 8 <= c < 28 ==> LengthExtra(c) == c / 4 - 1 && LengthBase(c) == 3 + (4 + c % 4) * Pow2(c / 4 - 1)
    ensures c == 28 ==> LengthExtra(c) == 0 && LengthBase(c) == 258
  {
    hide Pow2;
    Pow2Small();
  }

  /** Four distances have codes of their own; then two codes share each number of extra bits. */
  lemma DistanceTable(c: nat)
    requires c < 30
    ensures c < 4 ==> DistExtra(c) == 0 && DistBase(c) == 1 + c
    ensures c >= 4 ==> DistExtra(c) == c / 2 - 1 && DistBase(c) == 1 + (2 + c % 2) * Pow2(c / 2 - 1)
  {
    hide Pow2;
    Pow2Small();
  }

  /** The repeats and 0 first, then the lengths from the middle outwards: 8, 7, 9, 6, ... , 1, 15. */
  lemma OrderTable(i: nat)
    requires i < 19
    ensures i < 3 ==> OrderOf(i) == 16 + i
    ensures i == 3 ==> OrderOf(i) == 0
    ensures i >= 4 && i % 2 == 0 ==> OrderOf(i) == 6 + i / 2
    ensures i >= 4 && i % 2 == 1 ==> OrderOf(i) == 9 - i / 2
  {
  }

  // ----- the two rules of section 3.2.2

  /** Codes of one length count up in the order of their symbols. */
  lemma SuccessiveCodes(lens: seq<nat>, m: nat, n: nat)
    requires m < n < |lens| && 1 <= lens[m] == lens[n] <= MAX_BITS
    requires forall i :: m < i < n ==> lens[i] != lens[m]
    ensures CodeOf(lens, n) == CodeOf(lens, m) + 1
  {
    hide NextCode, Counts;
    CountStep(lens, m, lens[m]);
    NoneBetween(lens, m + 1, n, lens[m]);
  }

  lemma {:induction false} NoneBetween(lens: seq<nat>, m: nat, n: nat, b: nat)
    requires m <= n <= |lens| && forall i :: m <= i < n ==> lens[i] != b
    ensures Count(lens[..n], b) == Count(lens[..m], b)
    decreases n
  {
    if m < n {
      NoneBetween(lens, m, n - 1, b);
      CountStep(lens, n - 1, b);
    }
  }

  /** A shorter code, padded with ones, is before a longer one, so shorter codes come first lexicographically. */
  lemma ShorterFirst(lens: seq<nat>, m: nat, n: nat)
    requires KraftOk(lens) && m < |lens| && n < |lens| && 1 <= lens[m] < lens[n]
    ensures Shl(CodeOf(lens, m) + 1, lens[n] - lens[m]) <= CodeOf(lens, n)
  {
    hide Kraft, NextCode, Counts, Count;
    var cnt, a, b := Counts(lens), lens[m], lens[n];
    CodeFits(lens, m);
    NextCodeAfter(cnt, a, b);
    var x, y := CodeOf(lens, m) + 1, NextCode(cnt, a) + cnt[a];
    ShlAdd(x, y - x, b - a);
  }

  /** The first code of the shortest length is all zeros. */
  lemma FirstIsZero(lens: seq<nat>, n: nat)
    requires n < |lens| && 1 <= lens[n] <= MAX_BITS
    requires forall i :: 0 <= i < |lens| ==> lens[i] == 0 || lens[i] >= lens[n]
    requires forall i :: 0 <= i < n ==> lens[i] != lens[n]
    ensures CodeOf(lens, n) == 0
  {
    hide Count;
    NoneBetween(lens, 0, n, lens[n]);
    NoShorter(lens, lens[n]);
    assert Count(lens[..0], lens[n]) == 0 by { EmptyCount(lens[..0], lens[n]); }
  }

  lemma EmptyCount(s: seq<nat>, b: nat)
    requires s == []
    ensures Count(s, b) == 0
  {
  }

  lemma {:induction false} NoShorter(lens: seq<nat>, b: nat)
    requires b <= MAX_BITS && forall i :: 0 <= i < |lens| ==> lens[i] == 0 || lens[i] >= b
    ensures NextCode(Counts(lens), b) == 0
    decreases b
  {
    hide Count;
    if b > 0 {
      NoShorter(lens, b - 1);
      if b > 1 {
        NoneBetween(lens, 0, |lens|, b - 1);
        EmptyCount(lens[..0], b - 1);
        assert lens[..|lens|] == lens;
      }
    }
  }

  /** The first code of a length is the successor of the last code of the length before, filled up with zeros. */
  lemma NextLength(lens: seq<nat>, m: nat, n: nat)
    requires m < |lens| && n < |lens| && 1 <= lens[m] < lens[n] <= MAX_BITS
    requires forall i :: 0 <= i < |lens| ==> lens[i] <= lens[m] || lens[i] >= lens[n]
    requires (forall i :: m < i < |lens| ==> lens[i] != lens[m]) && forall i :: 0 <= i < n ==> lens[i] != lens[n]
    ensures CodeOf(lens, n) == Shl(CodeOf(lens, m) + 1, lens[n] - lens[m])
  {
    hide NextCode, Count, Shl;
    NoneBetween(lens, 0, n, lens[n]);
    EmptyCount(lens[..0], lens[n]);
    LastOfLength(lens, m);
    NoLengthBetween(lens, lens[m], lens[n]);
  }

  lemma LastOfLength(lens: seq<nat>, m: nat)
    requires m < |lens| && 1 <= lens[m] <= MAX_BITS && forall i :: m < i < |lens| ==> lens[i] != lens[m]
    ensures CodeOf(lens, m) + 1 == NextCode(Counts(lens), lens[m]) + Counts(lens)[lens[m]]
  {
    hide NextCode, Count;
    CountStep(lens, m, lens[m]);
    NoneBetween(lens, m + 1, |lens|, lens[m]);
    assert lens[..|lens|] == lens;
  }

  lemma {:induction false} NoLengthBetween(lens: seq<nat>, a: nat, b: nat)
    requires 1 <= a < b <= MAX_BITS && forall i :: 0 <= i < |lens| ==> lens[i] <= a || lens[i] >= b
    ensures NextCode(Counts(lens), b) == Shl(NextCode(Counts(lens), a) + Counts(lens)[a], b - a)
    decreases b
  {
    hide Count;
    if a + 1 < b {
      NoLengthBetween(lens, a, b - 1);
      NoneBetween(lens, 0, |lens|, b - 1);
      EmptyCount(lens[..0], b - 1);
      assert lens[..|lens|] == lens;
    } else {
      assert Shl(NextCode(Counts(lens), a) + Counts(lens)[a], 1)
        == 2 * Shl(NextCode(Counts(lens), a) + Counts(lens)[a], 0);
    }
  }

  /** The codes fit if the last code of the greatest length does. */
  lemma FitsByLast(lens: seq<nat>, m: nat)
    requires m < |lens| && 1 <= lens[m] <= MAX_BITS
    requires (forall i :: 0 <= i < |lens| ==> lens[i] <= lens[m]) && forall i :: m < i < |lens| ==> lens[i] != lens[m]
    requires CodeOf(lens, m) < Pow2(lens[m])
    ensures KraftOk(lens)
  {
    hide NextCode, Count, Shl, Kraft, Pow2;
    var b, cnt := lens[m], Counts(lens);
    LastOfLength(lens, m);
    NextCodeIsKraft(cnt, b);
    ShlPow2(b, MAX_BITS - b);
    ShlAdd(CodeOf(lens, m) + 1, Pow2(b) - CodeOf(lens, m) - 1, MAX_BITS - b);
    NothingAbove(lens, b, MAX_BITS);
  }

  lemma {:induction false} NothingAbove(lens: seq<nat>, b: nat, c: nat)
    requires 1 <= b <= c <= MAX_BITS && forall i :: 0 <= i < |lens| ==> lens[i] <= b
    ensures Kraft(Counts(lens), c) == Kraft(Counts(lens), b)
    decreases c
  {
    hide Count, Shl;
    if b < c {
      NothingAbove(lens, b, c - 1);
      NoneBetween(lens, 0, |lens|, c);
      EmptyCount(lens[..0], c);
      assert lens[..|lens|] == lens;
      ShlIsMul(0, MAX_BITS - c);
    }
  }

  /** The alphabet A to H of section 3.2.2, with the lengths 3, 3, 3, 3, 3, 2, 4, 4. */
  lemma EightCodes()
    ensures var lens := [3, 3, 3, 3, 3, 2, 4, 4];
      && CodeOf(lens, 0) == 2 && CodeOf(lens, 1) == 3 && CodeOf(lens, 2) == 4 && CodeOf(lens, 3) == 5
      && CodeOf(lens, 4) == 6 && CodeOf(lens, 5) == 0 && CodeOf(lens, 6) == 14 && CodeOf(lens, 7) == 15
  {
    hide Count, NextCode, Counts, Shl, CodeOf;
    var lens := [3, 3, 3, 3, 3, 2, 4, 4];
    FirstIsZero(lens, 5);
    NextLength(lens, 5, 0);
    Twice(1);
    SuccessiveCodes(lens, 0, 1);
    SuccessiveCodes(lens, 1, 2);
    SuccessiveCodes(lens, 2, 3);
    SuccessiveCodes(lens, 3, 4);
    NextLength(lens, 4, 6);
    Twice(7);
    SuccessiveCodes(lens, 6, 7);
  }

  lemma Twice(v: nat)
    ensures Shl(v, 1) == 2 * v
  {
    assert Shl(v, 1) == 2 * Shl(v, 0);
  }

  lemma {:induction false} AllBetween(lens: seq<nat>, m: nat, n: nat, b: nat)
    requires m <= n <= |lens| && forall i :: m <= i < n ==> lens[i] == b
    ensures Count(lens[..n], b) == Count(lens[..m], b) + n - m
    decreases n
  {
    if m < n {
      AllBetween(lens, m, n - 1, b);
      CountStep(lens, n - 1, b);
    }
  }

  // ----- the fixed codes of section 3.2.6

  /** 00110000 to 10111111, 110010000 to 111111111, 0000000 to 0010111, 11000000 to 11000111. */
  lemma FixedCodes(n: nat)
    requires n < 288
    ensures n < 144 ==> FixedLiteral()[n] == 8 && CodeOf(FixedLiteral(), n) == 0x30 + n
    ensures 144 <= n < 256 ==> FixedLiteral()[n] == 9 && CodeOf(FixedLiteral(), n) == 0x190 + n - 144
    ensures 256 <= n < 280 ==> FixedLiteral()[n] == 7 && CodeOf(FixedLiteral(), n) == n - 256
    ensures 280 <= n ==> FixedLiteral()[n] == 8 && CodeOf(FixedLiteral(), n) == 0xC0 + n - 280
  {
    hide Count, NextCode, Counts;
    FixedFirst();
    FixedRanks(n);
  }

  lemma FixedRanks(n: nat)
    requires n < 288
    ensures var f := FixedLiteral();
      && (n < 144 ==> Count(f[..n], 8) == n)
      && (144 <= n < 256 ==> Count(f[..n], 9) == n - 144)
      && (256 <= n < 280 ==> Count(f[..n], 7) == n - 256)
      && (280 <= n ==> Count(f[..n], 8) == 144 + n - 280)
  {
    hide Count;
    var f := FixedLiteral();
    EmptyCount(f[..0], f[n]);
    if n < 144 {
      AllBetween(f, 0, n, 8);
    } else if n < 256 {
      NoneBetween(f, 0, 144, 9);
      AllBetween(f, 144, n, 9);
    } else if n < 280 {
      NoneBetween(f, 0, 256, 7);
      AllBetween(f, 256, n, 7);
    } else {
      AllBetween(f, 0, 144, 8);
      NoneBetween(f, 144, 280, 8);
      AllBetween(f, 280, n, 8);
    }
  }

  /** The first codes of lengths 7, 8 and 9. */
  lemma FixedFirst()
    ensures var c := Counts(FixedLiteral()); NextCode(c, 7) == 0 && NextCode(c, 8) == 0x30 && NextCode(c, 9) == 0x190
  {
    hide Count;
    var f := FixedLiteral();
    var c := Counts(f);
    NoShorter(f, 7);
    FixedTotals();
    NextAfter(c, 8);
    NextAfter(c, 9);
  }

  lemma NextAfter(cnt: seq<nat>, b: nat)
    requires |cnt| == MAX_BITS + 1 && 1 <= b <= MAX_BITS
    ensures NextCode(cnt, b) == 2 * (NextCode(cnt, b - 1) + cnt[b - 1])
  {
  }

  lemma FixedTotals()
    ensures Counts(FixedLiteral())[7] == 24 && Counts(FixedLiteral())[8] == 152
  {
    hide Count;
    var f := FixedLiteral();
    EmptyCount(f[..0], 7);
    EmptyCount(f[..0], 8);
    NoneBetween(f, 0, 256, 7);
    AllBetween(f, 256, 280, 7);
    NoneBetween(f, 280, 288, 7);
    FixedRanks(280);
    AllBetween(f, 280, 288, 8);
    assert f[..288] == f;
  }

  lemma FixedFits()
    ensures KraftOk(FixedLiteral())
  {
    hide Count, NextCode, Counts, Kraft, Pow2;
    Pow2Small();
    FixedFirst();
    FixedRanks(255);
    FitsByLast(FixedLiteral(), 255);
  }

  /** Distance code `n` is `n` in five bits. */
  lemma {:induction false} FixedDistances(n: nat)
    requires n < 30
    ensures FixedDistance()[n] == 5 && CodeOf(FixedDistance(), n) == n
  {
    hide CodeOf;
    if n == 0 {
      FirstIsZero(FixedDistance(), 0);
    } else {
      FixedDistances(n - 1);
      SuccessiveCodes(FixedDistance(), n - 1, n);
    }
  }

  lemma FixedDistanceFits()
    ensures KraftOk(FixedDistance())
  {
    hide CodeOf, KraftOk, Pow2;
    Pow2Small();
    FixedDistances(29);
    FitsByLast(FixedDistance(), 29);
  }
}
