/** Canonical Huffman codes as section 3.2.2 of RFC 1951 defines them, and a decoder for them. */
module CanonicalCode {
  import opened Bits

  const MAX_BITS := 15

  datatype Option<+T> = None | Some(value: T)

  /** How many of `lens` equal `b`. */
  function Count(lens: seq<nat>, b: nat): (c: nat)
    ensures c <= |lens|
  {
    if lens == [] then 0
    else Count(lens[..|lens| - 1], b) + (if lens[|lens| - 1] == b then 1 else 0)
  }

  /** `bl_count` of RFC 1951: the number of codes of each length, with entry 0 forced to 0. */
  function Counts(lens: seq<nat>): (c: seq<nat>)
    ensures |c| == MAX_BITS + 1 && c[0] == 0
    ensures forall b :: 1 <= b <= MAX_BITS ==> c[b] == Count(lens, b)
  {
    seq(MAX_BITS + 1, b requires 0 <= b <= MAX_BITS => if b == 0 then 0 else Count(lens, b))
  }

  /** `next_code` of RFC 1951: the smallest code of length `b`. */
  function NextCode(cnt: seq<nat>, b: nat): nat
    requires |cnt| == MAX_BITS + 1 && b <= MAX_BITS
  {
    if b == 0 then 0 else 2 * (NextCode(cnt, b - 1) + cnt[b - 1])
  }

  /** The Kraft sum of the lengths up to `b`, in units of 2^-15. */
  function Kraft(cnt: seq<nat>, b: nat): nat
    requires |cnt| == MAX_BITS + 1 && b <= MAX_BITS
  {
    if b == 0 then 0 else Kraft(cnt, b - 1) + Shl(cnt[b], MAX_BITS - b)
  }

  ghost predicate KraftOk(lens: seq<nat>)
  {
    && (forall i :: 0 <= i < |lens| ==> lens[i] <= MAX_BITS)
    && Kraft(Counts(lens), MAX_BITS) <= Pow2(MAX_BITS)
  }

  /** The integer value of symbol `n`'s code. */
  function CodeOf(lens: seq<nat>, n: nat): nat
    requires n < |lens| && 1 <= lens[n] <= MAX_BITS
  {
    NextCode(Counts(lens), lens[n]) + Count(lens[..n], lens[n])
  }

  /** Symbol `n`'s code on the wire: most significant bit first. */
  function Codeword(lens: seq<nat>, n: nat): BitString
    requires n < |lens| && 1 <= lens[n] <= MAX_BITS
  {
    Msb(CodeOf(lens, n), lens[n])
  }

  // ----- the codes of one length are below those of the next

  lemma {:induction false} ShlAdd(x: nat, y: nat, n: nat)
    ensures Shl(x + y, n) == Shl(x, n) + Shl(y, n)
  {
    if n > 0 {
      ShlAdd(x, y, n - 1);
    }
  }

  lemma {:induction false} ShlTwice(x: nat, n: nat)
    ensures Shl(2 * x, n) == Shl(x, n + 1)
  {
    if n > 0 {
      ShlTwice(x, n - 1);
    }
  }

  /** The codes of length below `b` fill the bottom of the code space up to the first code of length `b`. */
  lemma {:induction false} NextCodeIsKraft(cnt: seq<nat>, b: nat)
    requires |cnt| == MAX_BITS + 1 && cnt[0] == 0 && 1 <= b <= MAX_BITS
    ensures Shl(NextCode(cnt, b), MAX_BITS - b) == Kraft(cnt, b - 1)
    ensures Shl(NextCode(cnt, b) + cnt[b], MAX_BITS - b) == Kraft(cnt, b)
  {
    if b == 1 {
      assert NextCode(cnt, 1) == 2 * (NextCode(cnt, 0) + cnt[0]) == 0;
      ShlIsMul(0, MAX_BITS - b);
    } else {
      NextCodeIsKraft(cnt, b - 1);
      ShlTwice(NextCode(cnt, b - 1) + cnt[b - 1], MAX_BITS - b);
    }
    ShlAdd(NextCode(cnt, b), cnt[b], MAX_BITS - b);
  }

  lemma {:induction false} KraftMono(cnt: seq<nat>, a: nat, b: nat)
    requires |cnt| == MAX_BITS + 1 && a <= b <= MAX_BITS
    ensures Kraft(cnt, a) <= Kraft(cnt, b)
    decreases b
  {
    if a < b {
      KraftMono(cnt, a, b - 1);
    }
  }

  lemma {:induction false} ShlMono(x: nat, y: nat, n: nat)
    ensures Shl(x, n) <= Shl(y, n) ==> x <= y
  {
    if n > 0 {
      ShlMono(x, y, n - 1);
    }
  }

  lemma {:induction false} ShlPow2(a: nat, b: nat)
    ensures Shl(Pow2(a), b) == Pow2(a + b)
  {
    if b > 0 {
      ShlPow2(a, b - 1);
    }
  }

  /** All codes of length `b` fit in `b` bits. */
  lemma CodesFit(cnt: seq<nat>, b: nat)
    requires |cnt| == MAX_BITS + 1 && cnt[0] == 0 && 1 <= b <= MAX_BITS
    requires Kraft(cnt, MAX_BITS) <= Pow2(MAX_BITS)
    ensures NextCode(cnt, b) + cnt[b] <= Pow2(b)
  {
    hide Shl, Kraft, NextCode, Pow2;
    NextCodeIsKraft(cnt, b);
    KraftMono(cnt, b, MAX_BITS);
    ShlPow2(b, MAX_BITS - b);
    assert b + (MAX_BITS - b) == MAX_BITS;
    ShlMono(NextCode(cnt, b) + cnt[b], Pow2(b), MAX_BITS - b);
  }

  /** A code one bit longer starts after every code of the shorter length. */
  lemma {:induction false} NextCodeAfter(cnt: seq<nat>, a: nat, b: nat)
    requires |cnt| == MAX_BITS + 1 && 1 <= a < b <= MAX_BITS
    ensures Shl(NextCode(cnt, a) + cnt[a], b - a) <= NextCode(cnt, b)
    decreases b
  {
    var x := NextCode(cnt, a) + cnt[a];
    if a + 1 == b {
      assert Shl(x, 1) == 2 * Shl(x, 0);
    } else {
      NextCodeAfter(cnt, a, b - 1);
      assert Shl(x, b - a) == 2 * Shl(x, b - 1 - a);
    }
  }

  // ----- ranks

  lemma {:induction false} CountPrefix(lens: seq<nat>, n: nat, b: nat)
    requires n < |lens|
    ensures Count(lens[..n], b) + (if lens[n] == b then 1 else 0) <= Count(lens, b)
  {
    var k := |lens| - 1;
    if n < k {
      CountPrefix(lens[..k], n, b);
      assert lens[..k][..n] == lens[..n];
    } else {
      assert lens[..n] == lens[..k];
    }
  }

  lemma CountStep(lens: seq<nat>, n: nat, b: nat)
    requires n < |lens|
    ensures Count(lens[..n + 1], b) == Count(lens[..n], b) + (if lens[n] == b then 1 else 0)
  {
    assert lens[..n + 1][..n] == lens[..n];
  }

  lemma {:induction false} CountMono(lens: seq<nat>, m: nat, n: nat, b: nat)
    requires m < n <= |lens|
    ensures Count(lens[..m], b) + (if lens[m] == b then 1 else 0) <= Count(lens[..n], b)
  {
    CountPrefix(lens[..n], m, b);
    assert lens[..n][..m] == lens[..m];
  }

  /** Every code is a number of its own length. */
  lemma CodeFits(lens: seq<nat>, n: nat)
    requires KraftOk(lens) && n < |lens| && lens[n] >= 1
    ensures CodeOf(lens, n) < Pow2(lens[n])
    ensures CodeOf(lens, n) < NextCode(Counts(lens), lens[n]) + Counts(lens)[lens[n]]
  {
    CodesFit(Counts(lens), lens[n]);
    CountPrefix(lens, n, lens[n]);
  }

  // ----- prefix-freeness and decoding

  /** No code on the wire is a prefix of another's. */
  lemma PrefixFree(lens: seq<nat>, m: nat, n: nat)
    requires KraftOk(lens) && m < |lens| && n < |lens| && m != n
    requires lens[m] >= 1 && lens[n] >= 1
    ensures !(Codeword(lens, m) <= Codeword(lens, n))
  {
    hide Codeword, Kraft, CodeOf;
    if Codeword(lens, m) <= Codeword(lens, n) {
      WordLength(lens, m);
      WordLength(lens, n);
      if lens[m] == lens[n] {
        SameLength(lens, m, n);
      } else {
        Longer(lens, m, n);
      }
      assert false;
    }
  }

  lemma WordLength(lens: seq<nat>, n: nat)
    requires n < |lens| && KraftOk(lens) && lens[n] >= 1
    ensures |Codeword(lens, n)| == lens[n] <= MAX_BITS && Codeword(lens, n) == Msb(CodeOf(lens, n), lens[n])
  {
    hide Kraft, CodeOf;
  }

  /** Codes of one length differ by rank. */
  lemma SameLength(lens: seq<nat>, m: nat, n: nat)
    requires KraftOk(lens) && m < |lens| && n < |lens| && m != n && lens[m] == lens[n] >= 1
    ensures Codeword(lens, m) != Codeword(lens, n)
  {
    hide Kraft, NextCode, Msb, Counts, Codeword;
    WordLength(lens, m);
    WordLength(lens, n);
    var a := lens[m];
    if Codeword(lens, m) == Codeword(lens, n) {
      CodeFits(lens, m);
      CodeFits(lens, n);
      MsbInjective(CodeOf(lens, m), CodeOf(lens, n), a);
      if m < n { CountMono(lens, m, n, a); } else { CountMono(lens, n, m, a); }
      assert false;
    }
  }

  /** A longer code starts with bits that no shorter code has. */
  lemma Longer(lens: seq<nat>, m: nat, n: nat)
    requires KraftOk(lens) && m < |lens| && n < |lens| && 1 <= lens[m] < lens[n] <= MAX_BITS
    ensures !(Codeword(lens, m) <= Codeword(lens, n))
  {
    hide Kraft, NextCode, Msb, Counts, Codeword, Shl, Shr, Pow2, Count;
    WordLength(lens, m);
    WordLength(lens, n);
    var a, b, cm, cn, cnt := lens[m], lens[n], CodeOf(lens, m), CodeOf(lens, n), Counts(lens);
    CodeFits(lens, m);
    CodeFits(lens, n);
    CodesFit(cnt, a);
    NextCodeAfter(cnt, a, b);
    ShlPow2(a, b - a);
    ShrBounds(cn, b - a, NextCode(cnt, a) + cnt[a], Pow2(a));
    MsbPrefix(cn, a, b - a);
    if Codeword(lens, m) <= Codeword(lens, n) {
      assert Msb(cn, b)[..a] == Msb(cm, a);
      MsbInjective(Shr(cn, b - a), cm, a);
      assert false;
    }
  }

  /** The first symbol from `n` on whose code the bits begin with. */
  function FindSymbol(lens: seq<nat>, bits: BitString, n: nat): Option<nat>
    requires n <= |lens|
    decreases |lens| - n
  {
    if n == |lens| then None
    else if 1 <= lens[n] <= MAX_BITS && Codeword(lens, n) <= bits then Some(n)
    else FindSymbol(lens, bits, n + 1)
  }

  /** Read one symbol; yields it and the bits after it. */
  function ReadSymbol(lens: seq<nat>, bits: BitString): Option<(nat, BitString)>
  {
    match FindSymbol(lens, bits, 0)
    case None => None
    case Some(n) => 
      FoundSymbol(lens, bits, 0);
      Some((n, bits[lens[n]..]))
  }

  lemma {:induction false} FoundSymbol(lens: seq<nat>, bits: BitString, n: nat)
    requires n <= |lens|
    ensures var f := FindSymbol(lens, bits, n);
      f.Some? ==> n <= f.value < |lens| && 1 <= lens[f.value] <= MAX_BITS && lens[f.value] <= |bits|
    decreases |lens| - n
  {
    if n < |lens| && !(1 <= lens[n] <= MAX_BITS && Codeword(lens, n) <= bits) {
      FoundSymbol(lens, bits, n + 1);
    }
  }

  lemma {:induction false} FindCodeword(lens: seq<nat>, n: nat, t: BitString, from: nat)
    requires KraftOk(lens) && from <= n < |lens| && lens[n] >= 1
    ensures FindSymbol(lens, Codeword(lens, n) + t, from) == Some(n)
    decreases n - from
  {
    var bits := Codeword(lens, n) + t;
    if from < n {
      if lens[from] >= 1 && Codeword(lens, from) <= bits {
        var x, y := Codeword(lens, from), Codeword(lens, n);
        if lens[from] <= lens[n] {
          assert x <= y;
          PrefixFree(lens, from, n);
        } else {
          assert y <= x;
          PrefixFree(lens, n, from);
        }
        assert false;
      }
      FindCodeword(lens, n, t, from + 1);
    }
  }

  /** Reading a code gives back its symbol and leaves what follows. */
  lemma ReadCodeword(lens: seq<nat>, n: nat, t: BitString)
    requires KraftOk(lens) && n < |lens| && lens[n] >= 1
    ensures ReadSymbol(lens, Codeword(lens, n) + t) == Some((n, t))
  {
    FindCodeword(lens, n, t, 0);
    assert (Codeword(lens, n) + t)[lens[n]..] == t;
  }
}
