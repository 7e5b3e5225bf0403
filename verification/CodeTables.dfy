/** The tables that `ct_init` of gzip.c computes. */
module CodeTables {
  import opened Bits
  import opened CanonicalCode
  import opened Inflate
  import opened CodeLengths
  import opened Huffman
  import opened TreeBuild

  const LENGTH_CODES := 29
  const D_CODES := 30
  const BL_CODES := 19
  const LITERALS := 256

  const EXTRA_LBITS: seq<nat> :=
    [0, 0, 0, 0, 0, 0, 0, 0, 1, 1, 1, 1, 2, 2, 2, 2, 3, 3, 3, 3, 4, 4, 4, 4, 5, 5, 5, 5, 0]
  const EXTRA_DBITS: seq<nat> :=
    [0, 0, 0, 0, 1, 1, 2, 2, 3, 3, 4, 4, 5, 5, 6, 6, 7, 7, 8, 8, 9, 9, 10, 10, 11, 11, 12, 12, 13, 13]
  const EXTRA_BLBITS: seq<nat> := [0, 0, 0, 0, 0, 0, 0, 0, 0, 0, 0, 0, 0, 0, 0, 0, 2, 3, 7]
  const BL_ORDER: seq<nat> := [16, 17, 18, 0, 8, 7, 9, 6, 10, 5, 11, 4, 12, 3, 13, 2, 14, 1, 15]

  function ExtraLength(c: nat): nat
    requires c < LENGTH_CODES
  {
    EXTRA_LBITS[c]
  }

  function ExtraDist(c: nat): nat
    requires c < D_CODES
  {
    EXTRA_DBITS[c]
  }

  /** `c` is the code of RFC 1951 for match length `lc + 3`. */
  ghost predicate LengthCodeOf(lc: nat, c: nat)
  {
    c < LENGTH_CODES && LengthBase(c) <= lc + 3 < LengthBase(c) + Pow2(LengthExtra(c))
  }

  /** `c` is the code of RFC 1951 for distance `d + 1`. */
  ghost predicate DistCodeOf(d: nat, c: nat)
  {
    c < D_CODES && DistBase(c) <= d + 1 < DistBase(c) + Pow2(DistExtra(c))
  }

  ghost predicate LengthTables(lengthCode: seq<nat>, baseLength: seq<nat>)
  {
    && |lengthCode| == 256 && |baseLength| == LENGTH_CODES
    && (forall lc :: 0 <= lc < 256 ==> LengthCodeOf(lc, lengthCode[lc]))
    && (forall c :: 0 <= c < LENGTH_CODES - 1 ==> baseLength[c] == LengthBase(c) - 3)
  }

  /** `D_CODE`. */
  function DCode(distCode: seq<nat>, d: nat): nat
    requires |distCode| == 512 && d < 32768
  {
    if d < 256 then distCode[d] else distCode[256 + d / 128]
  }

  ghost predicate DistTables(distCode: seq<nat>, baseDist: seq<nat>)
  {
    && |distCode| == 512 && |baseDist| == D_CODES
    && (forall d :: 0 <= d < 32768 ==> DistCodeOf(d, DCode(distCode, d)))
    && (forall c :: 0 <= c < D_CODES ==> baseDist[c] == DistBase(c) - 1)
  }

  /** The first `lc` of each length code that `ct_init` lays out in turn. */
  function LengthStart(c: nat): (r: nat)
    requires c < LENGTH_CODES
    ensures r <= 256 && (c == 0 ==> r == 0) && (c == 28 ==> r == 256)
  {
    if c < LENGTH_CODES - 1 then LengthBase(c) - 3 else 256
  }

  /** Consecutive length codes cover consecutive lengths. */
  lemma LengthChain(c: nat)
    requires c < LENGTH_CODES - 1
    ensures ExtraLength(c) == LengthExtra(c)
    ensures LengthStart(c + 1) == LengthStart(c) + Pow2(ExtraLength(c))
  {
    hide Pow2;
    Pow2Small();
  }

  function DistStart(c: nat): (r: nat)
    requires c <= D_CODES
    ensures r <= 32768 && (c == 0 ==> r == 0) && (c <= 16 ==> r <= 256) && (c == 16 ==> r == 256)
    ensures (c == 30 ==> r == 32768)
  {
    if c < D_CODES then DistBase(c) - 1 else 32768
  }

  /** Consecutive distance codes cover consecutive distances, in multiples of 128 from code 16 on. */
  lemma DistChain(c: nat)
    requires c < D_CODES
    ensures ExtraDist(c) == DistExtra(c) && (c >= 16 ==> ExtraDist(c) >= 7)
    ensures DistStart(c + 1) == DistStart(c) + Pow2(ExtraDist(c))
    ensures c >= 16 ==> Pow2(ExtraDist(c)) == 128 * Pow2(ExtraDist(c) - 7)
  {
    hide Pow2;
    Pow2Small();
  }

  ghost predicate LengthCovered(lc: nat, c: nat)
  {
    c < LENGTH_CODES - 1 && LengthStart(c) <= lc < LengthStart(c + 1)
  }

  ghost predicate DistCovered(d: nat, c: nat)
  {
    c < D_CODES && DistStart(c) <= d < DistStart(c + 1)
  }

  lemma LengthCoveredIsCode(lc: nat, c: nat)
    requires LengthCovered(lc, c)
    ensures LengthCodeOf(lc, c)
  {
    LengthChain(c);
  }

  lemma DistCoveredIsCode(d: nat, c: nat)
    requires DistCovered(d, c)
    ensures DistCodeOf(d, c)
  {
    DistChain(c);
  }

  /** The loops over length codes. */
  method InitLengthCodes() returns (lengthCode: seq<nat>, baseLength: seq<nat>)
    ensures LengthTables(lengthCode, baseLength)
    ensures lengthCode[255] == 28
  {
    hide LengthStart, LengthCodeOf, LengthBase, ExtraLength, Pow2;
    var codes := new nat[256](_ => 0);
    var bases := new nat[LENGTH_CODES](_ => 0);
    var length, code := 0, 0;
    while code < LENGTH_CODES - 1
      invariant 0 <= code <= LENGTH_CODES - 1 && length == LengthStart(code)
      invariant forall lc :: 0 <= lc < length ==> LengthCovered(lc, codes[lc])
      invariant forall c :: 0 <= c < code ==> bases[c] == LengthStart(c)
    {
      LengthChain(code);
      bases[code] := length;
      var n := 0;
      while n < Pow2(ExtraLength(code))
        invariant 0 <= n <= Pow2(ExtraLength(code)) && length == LengthStart(code) + n
        invariant forall lc :: 0 <= lc < length ==> LengthCovered(lc, codes[lc])
        invariant forall c :: 0 <= c < code + 1 ==> bases[c] == LengthStart(c)
      {
        codes[length] := code;
        length := length + 1;
        n := n + 1;
      }
      code := code + 1;
    }
    forall lc | 0 <= lc < 256
      ensures LengthCodeOf(lc, codes[lc])
    {
      LengthCoveredIsCode(lc, codes[lc]);
    }
    LastLength();
    codes[length - 1] := code;
    lengthCode, baseLength := codes[..], bases[..];
    BasesAre(baseLength);
  }

  /** Length 258 has a code of its own. */
  lemma LastLength()
    ensures LengthCodeOf(255, 28) && LengthStart(28) == 256
  {
  }

  lemma BasesAre(base: seq<nat>)
    requires |base| == LENGTH_CODES && forall c :: 0 <= c < LENGTH_CODES - 1 ==> base[c] == LengthStart(c)
    ensures forall c :: 0 <= c < LENGTH_CODES - 1 ==> base[c] == LengthBase(c) - 3
  {
    forall c | 0 <= c < LENGTH_CODES - 1
      ensures base[c] == LengthBase(c) - 3
    {
      assert base[c] == LengthStart(c);
    }
  }

  lemma DistBasesAre(base: seq<nat>)
    requires |base| == D_CODES && forall c :: 0 <= c < D_CODES ==> base[c] == DistStart(c)
    ensures forall c :: 0 <= c < D_CODES ==> base[c] == DistBase(c) - 1
  {
    forall c | 0 <= c < D_CODES
      ensures base[c] == DistBase(c) - 1
    {
      assert base[c] == DistStart(c);
    }
  }

  /** Entry `256 + g` of the distance table is the code of the 128 distances in group `g`. */
  ghost predicate GroupCovered(g: nat, c: nat)
  {
    16 <= c < D_CODES && DistStart(c) <= 128 * g && 128 * g + 128 <= DistStart(c + 1)
  }

  /** The loops over distance codes: single distances below 256, then groups of 128. */
  method InitDistCodes() returns (distCode: seq<nat>, baseDist: seq<nat>)
    ensures DistTables(distCode, baseDist)
  {
    hide DistCodeOf, DistStart, DistBase, ExtraDist, Pow2;
    var codes := new nat[512](_ => 0);
    var bases := new nat[D_CODES](_ => 0);
    NearCodes(codes, bases);
    var dist, code := 2, 16;
    while code < D_CODES
      invariant 16 <= code <= D_CODES && 2 <= dist && 128 * dist == DistStart(code)
      invariant forall d :: 0 <= d < 256 ==> DistCovered(d, codes[d])
      invariant forall p :: 258 <= p < 256 + dist ==> GroupCovered(p - 256, codes[p])
      invariant forall c :: 0 <= c < code ==> bases[c] == DistStart(c)
    {
      DistChain(code);
      bases[code] := dist * 128;
      var n := 0;
      while n < Pow2(ExtraDist(code) - 7)
        invariant 0 <= n <= Pow2(ExtraDist(code) - 7) && 128 * dist == DistStart(code) + 128 * n && 2 <= dist
        invariant forall d :: 0 <= d < 256 ==> DistCovered(d, codes[d])
        invariant forall p :: 258 <= p < 256 + dist ==> GroupCovered(p - 256, codes[p])
        invariant forall c :: 0 <= c < code + 1 ==> bases[c] == DistStart(c)
      {
        codes[256 + dist] := code;
        dist := dist + 1;
        n := n + 1;
      }
      code := code + 1;
    }
    distCode, baseDist := codes[..], bases[..];
    DistBasesAre(baseDist);
    forall d | 0 <= d < 32768
      ensures DistCodeOf(d, DCode(distCode, d))
    {
      if d >= 256 {
        assert GroupCovered(d / 128, distCode[256 + d / 128]);
      }
      DistCoveredIsCode(d, DCode(distCode, d));
    }
  }

  method NearCodes(codes: array<nat>, bases: array<nat>)
    requires codes.Length == 512 && bases.Length == D_CODES && codes != bases
    modifies codes, bases
    ensures forall d :: 0 <= d < 256 ==> DistCovered(d, codes[d])
    ensures forall c :: 0 <= c < 16 ==> bases[c] == DistStart(c)
  {
    hide DistStart, ExtraDist, Pow2;
    var dist, code := 0, 0;
    while code < 16
      invariant 0 <= code <= 16 && dist == DistStart(code)
      invariant forall d :: 0 <= d < dist ==> DistCovered(d, codes[d])
      invariant forall c :: 0 <= c < code ==> bases[c] == DistStart(c)
    {
      DistChain(code);
      bases[code] := dist;
      var n := 0;
      while n < Pow2(ExtraDist(code))
        invariant 0 <= n <= Pow2(ExtraDist(code)) && dist == DistStart(code) + n
        invariant forall d :: 0 <= d < dist ==> DistCovered(d, codes[d])
        invariant forall c :: 0 <= c < code + 1 ==> bases[c] == DistStart(c)
      {
        codes[dist] := code;
        dist := dist + 1;
        n := n + 1;
      }
      code := code + 1;
    }
  }

  /** Codes and lengths of the static trees: those of section 3.2.6. */
  ghost predicate StaticTrees(lcode: seq<nat>, llen: seq<nat>, dcode: seq<nat>, dlen: seq<nat>)
  {
    && llen == FixedLiteral() && |lcode| == 288 && KraftOk(llen) && AllCoded(lcode, llen, 288)
    && dlen == FixedDistance() && |dcode| == 30 && KraftOk(dlen) && AllCoded(dcode, dlen, 30)
  }

  /** Fill `n0 <= n < n1` with length `len`, counting. */
  method StaticRun(dl: array<nat>, blCount: array<nat>, n0: nat, n1: nat, len: nat)
    requires dl != blCount && n0 <= n1 <= dl.Length && blCount.Length == MAX_BITS + 1 && 1 <= len <= MAX_BITS
    modifies dl, blCount
    ensures forall i :: 0 <= i < n0 ==> dl[i] == old(dl[i])
    ensures forall i :: n0 <= i < n1 ==> dl[i] == len
    ensures blCount[..] == old(blCount[..])[len := old(blCount[len]) + n1 - n0]
    ensures Counted(old(blCount[..]), old(dl[..n0])) ==> Counted(blCount[..], dl[..n1])
  {
    hide Count;
    ghost var c0, d0 := blCount[..], dl[..n0];
    var n := n0;
    while n < n1
      invariant n0 <= n <= n1
      invariant forall i :: 0 <= i < n0 ==> dl[i] == old(dl[i])
      invariant forall i :: n0 <= i < n ==> dl[i] == len
      invariant blCount[..] == c0[len := c0[len] + n - n0]
      invariant Counted(c0, d0) ==> Counted(blCount[..], dl[..n])
    {
      ghost var c, d := blCount[..], dl[..n];
      dl[n] := len;
      assert dl[..n + 1] == d + [len];
      CountedPush(c, d, len);
      blCount[len] := blCount[len] + 1;
      assert blCount[..] == c[len := c[len] + 1];
      n := n + 1;
    }
  }

  lemma CountedPush(bl: seq<nat>, lens: seq<nat>, len: nat)
    requires |bl| == MAX_BITS + 1 && 1 <= len <= MAX_BITS
    ensures Counted(bl, lens) ==> Counted(bl[len := bl[len] + 1], lens + [len])
  {
    assert (lens + [len])[..|lens|] == lens;
  }

  /** Build the static trees; the counts must be zero on entry. */
  method InitStatic(b: Builder) returns (fc: array<nat>, dl: array<nat>, dfc: array<nat>, ddl: array<nat>)
    requires b.Valid() && forall i :: 0 <= i < 16 ==> b.blCount[i] == 0
    modifies b.blCount
    ensures fresh(fc) && fresh(dl) && fresh(dfc) && fresh(ddl)
    ensures fc != dl && fc != dfc && fc != ddl && dl != dfc && dl != ddl && dfc != ddl
    ensures StaticTrees(fc[..], dl[..], dfc[..], ddl[..])
  {
    hide KraftOk, AllCoded, Kraft, Counts, Counted;
    fc := new nat[288](_ => 0);
    dl := new nat[288](_ => 0);
    ghost var zero := b.blCount[..];
    CountedNothing(zero, dl[..0]);
    StaticRun(dl, b.blCount, 0, 144, 8);
    StaticRun(dl, b.blCount, 144, 256, 9);
    StaticRun(dl, b.blCount, 256, 280, 7);
    StaticRun(dl, b.blCount, 280, 288, 8);
    assert dl[..288] == FixedLiteral();
    FixedKraft(b.blCount[..], dl[..288], zero);
    GenCodes(fc, dl, 287, b.blCount);
    assert dl[..] == dl[..288];
    dfc, ddl := StaticDistances();
  }

  lemma CountedNothing(bl: seq<nat>, lens: seq<nat>)
    requires |bl| == MAX_BITS + 1 && lens == [] && forall i :: 0 <= i < 16 ==> bl[i] == 0
    ensures Counted(bl, lens)
  {
  }

  /** The fixed literal code fills the code space exactly. */
  lemma FixedKraft(bl: seq<nat>, lens: seq<nat>, zero: seq<nat>)
    requires |zero| == MAX_BITS + 1 && forall i :: 0 <= i < 16 ==> zero[i] == 0
    requires bl == zero[8 := 152][9 := 112][7 := 24] && Counted(bl, lens) && lens == FixedLiteral()
    ensures KraftOk(lens) && bl == Counts(lens)
  {
    assert bl == Counts(lens);
    KraftFew(bl);
    assert forall i :: 0 <= i < |lens| ==> lens[i] <= MAX_BITS;
  }

  lemma KraftFew(bl: seq<nat>)
    requires |bl| == MAX_BITS + 1 && bl[7] == 24 && bl[8] == 152 && bl[9] == 112
    requires forall i :: 0 <= i < 16 && i != 7 && i != 8 && i != 9 ==> bl[i] == 0
    ensures Kraft(bl, MAX_BITS) == Pow2(MAX_BITS)
  {
    KraftZeroFrom(bl, 0, 6);
    ShlIsMul(24, 8);
    ShlIsMul(152, 7);
    ShlIsMul(112, 6);
    Pow2Small();
    assert Kraft(bl, 7) == 24 * 256;
    assert Kraft(bl, 8) == 24 * 256 + 152 * 128;
    assert Kraft(bl, 9) == 24 * 256 + 152 * 128 + 112 * 64;
    KraftZeroFrom(bl, 9, 15);
  }

  lemma {:induction false} KraftZeroFrom(bl: seq<nat>, a: nat, b: nat)
    requires |bl| == MAX_BITS + 1 && a <= b <= MAX_BITS && forall i :: a < i <= b ==> bl[i] == 0
    ensures Kraft(bl, b) == Kraft(bl, a)
    decreases b
  {
    if a < b {
      KraftZeroFrom(bl, a, b - 1);
      ShlIsMul(0, MAX_BITS - b);
    }
  }

  /** The static distance tree: every code is its own number, in five bits. */
  method StaticDistances() returns (fc: array<nat>, dl: array<nat>)
    ensures fresh(fc) && fresh(dl) && fc != dl
    ensures dl[..] == FixedDistance() && fc.Length == 30 && KraftOk(dl[..]) && AllCoded(fc[..], dl[..], 30)
  {
    hide KraftOk, AllCoded, Coded, CodeOf, Pow2, Lsb, Msb;
    fc := new nat[30](_ => 0);
    dl := new nat[30](_ => 0);
    ghost var fixed := FixedDistance();
    FixedDistanceCode();
    NothingCoded(fc[..], fixed);
    var n: nat := 0;
    while n < D_CODES
      invariant 0 <= n <= D_CODES
      invariant forall i :: 0 <= i < n ==> dl[i] == 5
      invariant AllCoded(fc[..], fixed, n)
    {
      dl[n] := 5;
      ghost var was := fc[..];
      var rev := BiReverse(n, 5);
      fc[n] := rev;
      assert fc[..] == was[n := rev];
      FixedDistanceIs(n);
      CodeGiven(was, fixed, n, rev);
      n := n + 1;
    }
    assert dl[..] == fixed;
  }

  lemma {:induction false} CountFives(n: nat, b: nat)
    ensures Count(seq(n, _ => 5), b) == if b == 5 then n else 0
    decreases n
  {
    if n > 0 {
      CountFives(n - 1, b);
      assert seq(n, _ => 5)[..n - 1] == seq(n - 1, _ => 5);
    }
  }

  lemma FixedDistanceCode()
    ensures KraftOk(FixedDistance())
    ensures Counts(FixedDistance())[5] == 30 && forall b :: 0 <= b <= 15 && b != 5 ==> Counts(FixedDistance())[b] == 0
  {
    var cnt := Counts(FixedDistance());
    forall b | 1 <= b <= 15
      ensures cnt[b] == if b == 5 then 30 else 0
    {
      CountFives(30, b);
    }
    KraftZeroFrom(cnt, 0, 4);
    ShlIsMul(30, 10);
    Pow2Small();
    KraftZeroFrom(cnt, 5, 15);
  }

  lemma FixedDistanceIs(n: nat)
    requires n < 30
    ensures CodeOf(FixedDistance(), n) == n
  {
    FixedDistanceCode();
    var cnt := Counts(FixedDistance());
    assert NextCode(cnt, 1) == 0;
    assert NextCode(cnt, 3) == 0;
    assert NextCode(cnt, 5) == 0;
    CountFives(n, 5);
    assert FixedDistance()[..n] == seq(n, _ => 5);
  }
}
