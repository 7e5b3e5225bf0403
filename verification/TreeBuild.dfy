/** `gen_codes`, `bi_reverse` and the whole of `build_tree`. */
module TreeBuild {
  import opened Bits
  import opened CanonicalCode
  import opened HuffmanTree
  import opened Huffman
  import opened CodeLengths

  /** The top bit of an `n + 1`-bit code comes first on the wire. */
  lemma {:induction false} MsbFront(v: nat, n: nat)
    ensures Msb(v, n + 1) == [Shr(v, n) % 2 == 1] + Msb(v, n)
    decreases n
  {
    if n == 0 {
      assert Msb(v, 1) == Msb(v / 2, 0) + [v % 2 == 1];
    } else {
      MsbFront(v / 2, n - 1);
      Assoc([Shr(v, n) % 2 == 1], Msb(v / 2, n - 1), [v % 2 == 1]);
    }
  }

  lemma {:induction false} ShrStep(v: nat, n: nat)
    ensures Shr(v, n) / 2 == Shr(v, n + 1)
    decreases n
  {
    if n > 0 {
      ShrStep(v / 2, n - 1);
    }
  }

  lemma OrLowBit(r: nat, b: nat)
    requires r % 2 == 0 && b < 2
    ensures Or(r, b) == r + b
  {
    if r > 0 && b > 0 {
      assert Or(r / 2, 0) == r / 2;
    }
  }

  /** `bi_reverse`: sent low bit first, the result is the code sent high bit first. */
  method BiReverse(code0: nat, len0: nat) returns (res: nat)
    requires 1 <= len0 <= 15
    ensures res < Pow2(len0) && Lsb(res, len0) == Msb(code0, len0)
  {
    hide Lsb, Msb, Or;
    res := 0;
    var code, len := code0, len0;
    ghost var k := 0;
    EmptyCode(code0);
    while true
      invariant 1 <= len <= len0 && k == len0 - len
      invariant code == Shr(code0, k)
      invariant res % 2 == 0 && res / 2 < Pow2(k) && Lsb(res / 2, k) == Msb(code0, k)
      decreases len
    {
      ghost var r := res / 2;
      OrLowBit(res, code % 2);
      res := Or(res, code % 2);
      PushBit(r, code % 2, k);
      MsbFront(code0, k);
      len := len - 1;
      if len <= 0 {
        return;
      }
      ShrStep(code0, k);
      code := code / 2;
      res := 2 * res;
      k := k + 1;
    }
  }

  lemma EmptyCode(v: nat)
    ensures Lsb(0, 0) == Msb(v, 0)
  {
  }

  lemma PushBit(r: nat, bit: nat, k: nat)
    requires bit < 2 && r < Pow2(k)
    ensures 2 * r + bit < Pow2(k + 1)
    ensures Lsb(2 * r + bit, k + 1) == [bit == 1] + Lsb(r, k)
  {
    assert (2 * r + bit) % 2 == bit && (2 * r + bit) / 2 == r;
  }

  /** `code[n]`, sent low bit first, is symbol `n`'s canonical code. */
  ghost predicate Coded(code: seq<nat>, lens: seq<nat>, n: nat)
  {
    && n < |lens| <= |code| && 1 <= lens[n] <= MAX_BITS
    && code[n] < Pow2(lens[n])
    && Lsb(code[n], lens[n]) == Codeword(lens, n)
  }

  ghost predicate AllCoded(code: seq<nat>, lens: seq<nat>, n: nat)
  {
    forall i :: 0 <= i < n && i < |lens| && lens[i] > 0 ==> Coded(code, lens, i)
  }

  /** `gen_codes`: canonical codes from the lengths and their counts. */
  method GenCodes(fc: array<nat>, dl: array<nat>, maxCode: nat, blCount: array<nat>)
    requires fc != dl && blCount != fc && maxCode < dl.Length <= fc.Length
    requires KraftOk(dl[..maxCode + 1]) && blCount[..] == Counts(dl[..maxCode + 1])
    modifies fc
    ensures AllCoded(fc[..], dl[..maxCode + 1], maxCode + 1)
    ensures forall n :: 0 <= n < fc.Length && (n > maxCode || dl[n] == 0) ==> fc[n] == old(fc[n])
  {
    hide Coded, KraftOk, AllCoded, Count, NextCode, Lsb, Msb, Pow2;
    ghost var lens, cnt := dl[..maxCode + 1], blCount[..];
    var nextCode := FirstCodes(blCount, lens);
    NothingCoded(fc[..], lens);
    var n := 0;
    while n <= maxCode
      invariant 0 <= n <= maxCode + 1
      invariant dl[..maxCode + 1] == lens
      invariant forall b :: 1 <= b <= MAX_BITS ==> nextCode[b] == NextCode(cnt, b) + Count(lens[..n], b)
      invariant AllCoded(fc[..], lens, n)
      invariant forall i :: 0 <= i < fc.Length && (i >= n || lens[i] == 0) ==> fc[i] == old(fc[i])
    {
      var len := dl[n];
      assert len == lens[n];
      if len != 0 {
        CodeInRange(lens, n);
        ghost var was := fc[..];
        var rev := BiReverse(nextCode[len], len);
        fc[n] := rev;
        assert fc[..] == was[n := rev];
        CodeGiven(was, lens, n, rev);
        nextCode[len] := (nextCode[len] + 1) % 65536;
      } else {
        SkipUncoded(fc[..], lens, n);
      }
      CountsStep(lens, n);
      n := n + 1;
    }
  }

  lemma NothingCoded(code: seq<nat>, lens: seq<nat>)
    ensures AllCoded(code, lens, 0)
    ensures forall b :: 1 <= b <= MAX_BITS ==> Count(lens[..0], b) == 0
  {
  }

  lemma SkipUncoded(code: seq<nat>, lens: seq<nat>, n: nat)
    requires n < |lens| && lens[n] == 0 && AllCoded(code, lens, n)
    ensures AllCoded(code, lens, n + 1)
  {
  }

  method FirstCodes(blCount: array<nat>, ghost lens: seq<nat>) returns (nextCode: array<nat>)
    requires KraftOk(lens) && blCount[..] == Counts(lens)
    ensures fresh(nextCode) && nextCode.Length == MAX_BITS + 1
    ensures forall b :: 1 <= b <= MAX_BITS ==> nextCode[b] == NextCode(Counts(lens), b)
  {
    hide KraftOk, NextCode;
    nextCode := new nat[MAX_BITS + 1](_ => 0);
    ghost var cnt := Counts(lens);
    var code: nat, bits := 0, 1;
    NoCodeYet(cnt);
    while bits <= MAX_BITS
      invariant 1 <= bits <= MAX_BITS + 1
      invariant code == NextCode(cnt, bits - 1)
      invariant forall b :: 1 <= b < bits ==> nextCode[b] == NextCode(cnt, b)
    {
      NextCodeStep(lens, bits);
      assert blCount[bits - 1] == cnt[bits - 1];
      code := ((code + blCount[bits - 1]) * 2) % 65536;
      nextCode[bits] := code;
      bits := bits + 1;
    }
  }

  lemma NoCodeYet(cnt: seq<nat>)
    requires |cnt| == MAX_BITS + 1
    ensures NextCode(cnt, 0) == 0
  {
  }

  lemma NextCodeStep(lens: seq<nat>, b: nat)
    requires KraftOk(lens) && 1 <= b <= MAX_BITS
    ensures NextCode(Counts(lens), b) == (NextCode(Counts(lens), b - 1) + Counts(lens)[b - 1]) * 2 < 65536
  {
    hide Kraft, Pow2, Counts;
    CodesFit(Counts(lens), b);
    Pow2Mono(b, 15);
    Pow2Small();
  }

  lemma CodeInRange(lens: seq<nat>, n: nat)
    requires KraftOk(lens) && n < |lens| && lens[n] > 0
    ensures lens[n] <= MAX_BITS
    ensures CodeOf(lens, n) < Pow2(lens[n]) <= 32768
  {
    CodeFits(lens, n);
    Pow2Mono(lens[n], 15);
    Pow2Small();
  }

  lemma CodeGiven(code: seq<nat>, lens: seq<nat>, n: nat, rev: nat)
    requires n < |lens| <= |code| && 1 <= lens[n] <= MAX_BITS && AllCoded(code, lens, n)
    requires rev < Pow2(lens[n]) && Lsb(rev, lens[n]) == Msb(CodeOf(lens, n), lens[n])
    ensures AllCoded(code[n := rev], lens, n + 1)
  {
    hide Lsb, Msb, CodeOf;
    forall i | 0 <= i < n + 1 && i < |lens| && lens[i] > 0
      ensures Coded(code[n := rev], lens, i)
    {
      if i < n {
        assert Coded(code, lens, i);
      }
    }
  }

  lemma CountsStep(lens: seq<nat>, n: nat)
    requires n < |lens|
    ensures forall b :: 1 <= b <= MAX_BITS ==>
      Count(lens[..n + 1], b) == Count(lens[..n], b) + (if lens[n] == b then 1 else 0)
  {
    forall b | 1 <= b <= MAX_BITS
      ensures Count(lens[..n + 1], b) == Count(lens[..n], b) + (if lens[n] == b then 1 else 0)
    {
      CountStep(lens, n, b);
    }
  }

  // ----- build_tree

  /** Trailing symbols without a code do not change the counts. */
  lemma {:induction false} CountTail(lens: seq<nat>, m: nat, b: nat)
    requires m <= |lens| && b > 0 && forall i :: m <= i < |lens| ==> lens[i] == 0
    ensures Count(lens, b) == Count(lens[..m], b)
  {
    if m < |lens| {
      var k := |lens| - 1;
      CountTail(lens[..k], m, b);
      assert lens[..k][..m] == lens[..m];
    } else {
      assert lens[..m] == lens;
    }
  }

  lemma CountedPrefix(bl: seq<nat>, len: seq<nat>, m: nat)
    requires Counted(bl, len) && m <= |len| && forall i :: m <= i < |len| ==> len[i] == 0
    ensures bl == Counts(len[..m])
  {
    forall b | 1 <= b <= MAX_BITS
      ensures bl[b] == Count(len[..m], b)
    {
      CountTail(len, m, b);
    }
  }

  lemma CostSame(freq: seq<nat>, len: seq<nat>, len': seq<nat>, extra: seq<nat>)
    requires |freq| == |len| == |len'| == |extra| && forall n :: 0 <= n < |freq| && freq[n] > 0 ==> len[n] == len'[n]
    ensures Cost(freq, len, extra) == Cost(freq, len', extra)
  {
    assert CostTerms(freq, len, extra) == CostTerms(freq, len', extra) by {
      forall n | 0 <= n < |freq|
        ensures CostTerms(freq, len, extra)[n] == CostTerms(freq, len', extra)[n]
      {
      }
    }
  }

  /** What `build_tree` makes of the frequencies `freq`: a complete code for the symbols that occur. */
  ghost predicate Built(freq: seq<nat>, code: seq<nat>, len: seq<nat>, maxCode: int, maxLength: nat)
  {
    && 1 <= maxCode < |freq| <= |len| && |freq| <= |code|
    && (forall n :: 0 <= n < |freq| ==> len[n] <= maxLength <= MAX_BITS)
    && (forall n :: 0 <= n < |freq| && freq[n] > 0 ==> n <= maxCode && len[n] > 0)
    && (forall n :: maxCode < n < |freq| ==> len[n] == 0)
    && (maxCode <= 2 || freq[maxCode] > 0)
    && KraftOk(len[..maxCode + 1])
    && Kraft(Counts(len[..maxCode + 1]), MAX_BITS) == Pow2(MAX_BITS)
    && AllCoded(code, len[..maxCode + 1], maxCode + 1)
    && Rarer(freq, len[..|freq|])
  }

  /** The accounting of the forced codes cancels. */
  lemma ForcedCost(freq: seq<nat>, leaf: seq<nat>, len: seq<nat>, extra: seq<nat>, k: nat)
    requires |freq| == |leaf| == |len| == |extra| && OnlyAdds(freq, leaf, |freq|) && (k == 2 || leaf == freq)
    requires k == 2 ==> forall n :: 0 <= n < |leaf| && leaf[n] > 0 ==> len[n] == 1
    ensures Cost(leaf, len, extra) - Cost(leaf, Ones(|leaf|), extra)
      == Cost(freq, len, extra) - Cost(freq, Ones(|leaf|), extra)
  {
    if k == 2 {
      CostSame(leaf, len, Ones(|leaf|), extra);
      CostSame(freq, len, Ones(|leaf|), extra);
    }
  }

  lemma RarerBefore(freq: seq<nat>, leaf: seq<nat>, len: seq<nat>)
    requires |freq| == |leaf| && OnlyAdds(freq, leaf, |freq|) && Rarer(leaf, len)
    ensures Rarer(freq, len)
  {
  }

  method BuildTree(b: Builder, t: Tree)
    requires b.Fits(t) && Sum(t.fc[..t.elems]) < 65536 && 2 <= t.maxLength
    modifies b, b.heap, b.depth, b.blCount, t, t.fc, t.dl
    ensures Built(old(t.fc[..t.elems]), t.fc[..], t.dl[..], t.maxCode, t.maxLength)
    ensures b.optLen == old(b.optLen) + Cost(old(t.fc[..t.elems]), t.dl[..t.elems], Extras(t))
    ensures b.staticLen == old(b.staticLen) + StaticCost(t, old(t.fc[..t.elems]))
  {
    hide FullTree, Cost, StaticCost, AllCoded, Coded, OnlyAdds, Kraft, Counts, Counted, Rarer, Built, Pow2, Forced,
         InOrder, Sum, Stored;
    ghost var freq: seq<nat> := t.fc[..t.elems];
    ghost var leaf, k, rem, weight := b.MakeTree(t);
    GenBitlen(b, t, leaf, k, rem, weight);
    ForcedCost(freq, leaf, t.dl[..t.elems], Extras(t), k);
    RarerBefore(freq, leaf, t.dl[..t.elems]);
    ghost var m := t.maxCode + 1;
    assert t.dl[..t.elems][..m] == t.dl[..m];
    CountedPrefix(b.blCount[..], t.dl[..t.elems], m);
    GenCodes(t.fc, t.dl, t.maxCode, b.blCount);
    MakeBuilt(freq, leaf, t.fc[..], t.dl[..], t.maxCode, t.maxLength);
  }

  lemma MakeBuilt(freq: seq<nat>, leaf: seq<nat>, code: seq<nat>, len: seq<nat>, maxCode: int, maxLength: nat)
    requires |freq| == |leaf| <= |len| && |freq| <= |code| && 1 <= maxCode < |freq| && maxLength <= MAX_BITS
    requires forall n :: 0 <= n < |freq| ==> len[..|freq|][n] <= maxLength && (leaf[n] > 0 <==> len[..|freq|][n] > 0)
    requires OnlyAdds(freq, leaf, |freq|) && (forall n :: maxCode < n < |leaf| ==> leaf[n] == 0)
    requires maxCode <= 2 || freq[maxCode] > 0
    requires KraftOk(len[..maxCode + 1]) && Kraft(Counts(len[..maxCode + 1]), MAX_BITS) == Pow2(MAX_BITS)
    requires AllCoded(code, len[..maxCode + 1], maxCode + 1) && Rarer(freq, len[..|freq|])
    ensures Built(freq, code, len, maxCode, maxLength)
  {
    hide KraftOk, AllCoded, Rarer;
    assert forall n :: 0 <= n < |freq| ==> len[..|freq|][n] == len[n];
  }
}
