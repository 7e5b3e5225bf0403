/** Bit strings as they appear on the wire, powers of two, and sums over vectors. */
module Bits {

  type byte = x: int | 0 <= x < 256

  type Bit = bool
  type BitString = seq<Bit>

  function Pow2(n: nat): (r: nat)
    ensures r >= 1
  {
    if n == 0 then 1 else 2 * Pow2(n - 1)
  }

  lemma {:induction false} Pow2Add(a: nat, b: nat)
    ensures Pow2(a + b) == Pow2(a) * Pow2(b)
  {
    if a > 0 {
      Pow2Add(a - 1, b);
      assert Pow2(a + b) == 2 * Pow2(a - 1 + b);
    }
  }

  lemma {:induction false} Pow2Mono(a: nat, b: nat)
    requires a <= b
    ensures Pow2(a) <= Pow2(b)
    decreases b
  {
    if a < b {
      Pow2Mono(a, b - 1);
    }
  }

  /** The first powers, where the sources' constants need them. */
  lemma Pow2Small()
    ensures Pow2(0) == 1 && Pow2(1) == 2 && Pow2(2) == 4 && Pow2(3) == 8 && Pow2(4) == 16
    ensures Pow2(5) == 32 && Pow2(6) == 64 && Pow2(7) == 128 && Pow2(8) == 256
    ensures Pow2(9) == 512 && Pow2(10) == 1024 && Pow2(11) == 2048 && Pow2(12) == 4096
    ensures Pow2(13) == 8192 && Pow2(14) == 16384 && Pow2(15) == 32768 && Pow2(16) == 65536
  {
    assert Pow2(4) == 16;
    assert Pow2(8) == 256;
    assert Pow2(12) == 4096;
  }

  lemma Pow2Double(n: nat)
    ensures Pow2(1 + n) == 2 * Pow2(n) && Pow2(1) == 2
  {
  }

  /** C's shifts and truncations on unsigned values. */
  function Shl(v: nat, n: nat): nat
  {
    if n == 0 then v else 2 * Shl(v, n - 1)
  }

  function Shr(v: nat, n: nat): nat
  {
    if n == 0 then v else Shr(v / 2, n - 1)
  }

  function Low(v: nat, n: nat): nat
  {
    if n == 0 then 0 else v % 2 + 2 * Low(v / 2, n - 1)
  }

  lemma {:induction false} ShlIsMul(v: nat, n: nat)
    ensures Shl(v, n) == Pow2(n) * v
  {
    if n > 0 {
      ShlIsMul(v, n - 1);
    }
  }

  /** A value is its low bits plus the rest, shifted back. */
  lemma {:induction false} SplitValue(v: nat, n: nat, m: nat)
    requires v < Pow2(n + m)
    ensures v == Low(v, n) + Shl(Shr(v, n), n)
    ensures Low(v, n) < Pow2(n) && Shr(v, n) < Pow2(m)
    decreases n
  {
    if n > 0 {
      SplitValue(v / 2, n - 1, m);
    }
  }

  lemma {:induction false} LowSmall(v: nat, n: nat)
    requires v < Pow2(n)
    ensures Low(v, n) == v
    decreases n
  {
    if n > 0 {
      LowSmall(v / 2, n - 1);
    }
  }

  /** Truncating a shifted value keeps its low bits, shifted. */
  lemma {:induction false} LowShl(v: nat, n: nat, m: nat)
    ensures Low(Shl(v, n), n + m) == Shl(Low(v, m), n)
    decreases n
  {
    if n > 0 {
      LowShl(v, n - 1, m);
      var x := Shl(v, n - 1);
      assert (2 * x) % 2 == 0 && (2 * x) / 2 == x;
      assert n + m - 1 == n - 1 + m;
    }
  }

  /** Shifting out of the top: what is left of a value below a bound. */
  lemma {:induction false} ShrBounds(v: nat, n: nat, lo: nat, hi: nat)
    requires Shl(lo, n) <= v < Shl(hi, n)
    ensures lo <= Shr(v, n) < hi
    decreases n
  {
    if n > 0 {
      ShrBounds(v / 2, n - 1, lo, hi);
    }
  }

  /** Two adjacent fields fit the sum of their widths. */
  lemma {:induction false} FieldFits(v: nat, n: nat, w: nat, k: nat)
    requires v < Pow2(n) && w < Pow2(k)
    ensures v + Shl(w, n) < Pow2(n + k)
    decreases n
  {
    if n > 0 {
      FieldFits(v / 2, n - 1, w, k);
      assert n + k - 1 == n - 1 + k;
    }
  }

  /** The low `n` bits of `v`, least significant first (section 3.1.1 of RFC 1951: data elements). */
  function Lsb(v: nat, n: nat): (r: BitString)
    ensures |r| == n
    decreases n, v
  {
    if n == 0 then [] else [v % 2 == 1] + Lsb(v / 2, n - 1)
  }

  /** The low `n` bits of `v`, most significant first (section 3.1.1 of RFC 1951: Huffman codes). */
  function Msb(v: nat, n: nat): (r: BitString)
    ensures |r| == n
    decreases n, v
  {
    if n == 0 then [] else Msb(v / 2, n - 1) + [v % 2 == 1]
  }

  /** The number that a least-significant-first bit string denotes. */
  function Value(b: BitString): (v: nat)
    ensures v < Pow2(|b|)
  {
    if b == [] then 0 else (if b[0] then 1 else 0) + 2 * Value(b[1..])
  }

  lemma {:induction false} ValueLsb(v: nat, n: nat)
    requires v < Pow2(n)
    ensures Value(Lsb(v, n)) == v
    decreases n
  {
    if n > 0 {
      ValueLsb(v / 2, n - 1);
      assert Lsb(v, n)[1..] == Lsb(v / 2, n - 1);
    }
  }

  lemma Cons<T>(x: T, s: seq<T>, t: seq<T>)
    ensures [x] + (s + t) == ([x] + s) + t
  {
  }

  lemma Assoc<T>(r: seq<T>, s: seq<T>, t: seq<T>)
    ensures r + (s + t) == (r + s) + t
  {
  }

  /** The sum of two disjoint bit fields, seen as bits. */
  lemma {:induction false} LsbConcat(v: nat, a: nat, w: nat, b: nat)
    requires v < Pow2(a)
    ensures Lsb(v + Shl(w, a), a + b) == Lsb(v, a) + Lsb(w, b)
    decreases a
  {
    if a > 0 {
      LsbConcat(v / 2, a - 1, w, b);
      var x, p := v + Shl(w, a), Shl(w, a - 1);
      assert x % 2 == v % 2 && x / 2 == v / 2 + p;
      assert a + b - 1 == a - 1 + b;
      Cons(v % 2 == 1, Lsb(v / 2, a - 1), Lsb(w, b));
    }
  }

  /** The first `a` bits of a most-significant-first string are those of the shifted value. */
  lemma {:induction false} MsbPrefix(v: nat, a: nat, b: nat)
    ensures Msb(v, a + b)[..a] == Msb(Shr(v, b), a)
    decreases b
  {
    if b > 0 {
      MsbPrefix(v / 2, a, b - 1);
      assert Msb(v, a + b) == Msb(v / 2, a + (b - 1)) + [v % 2 == 1];
    }
  }

  lemma {:induction false} MsbInjective(v: nat, w: nat, n: nat)
    requires v < Pow2(n) && w < Pow2(n)
    requires Msb(v, n) == Msb(w, n)
    ensures v == w
    decreases n
  {
    if n > 0 {
      var x, y := Msb(v, n), Msb(w, n);
      assert x[..n - 1] == Msb(v / 2, n - 1) && y[..n - 1] == Msb(w / 2, n - 1);
      assert x[n - 1] == (v % 2 == 1) && y[n - 1] == (w % 2 == 1);
      MsbInjective(v / 2, w / 2, n - 1);
    }
  }

  /** Bytes on the wire, low bit first. */
  function ByteBits(s: seq<byte>): (r: BitString)
    ensures |r| == 8 * |s|
  {
    if s == [] then [] else Lsb(s[0], 8) + ByteBits(s[1..])
  }

  lemma {:induction false} ByteBitsAppend(s: seq<byte>, t: seq<byte>)
    ensures ByteBits(s + t) == ByteBits(s) + ByteBits(t)
  {
    if s == [] {
      assert s + t == t;
    } else {
      ByteBitsAppend(s[1..], t);
      assert (s + t)[1..] == s[1..] + t;
      Assoc(Lsb(s[0], 8), ByteBits(s[1..]), ByteBits(t));
    }
  }

  /** A 16-bit word as two bytes, low byte first. */
  lemma WordBits(w: nat)
    requires w < 65536
    ensures ByteBits([w % 256, w / 256]) == Lsb(w, 16)
  {
    Pow2Small();
    LsbConcat(w % 256, 8, w / 256, 8);
    ShlIsMul(w / 256, 8);
    assert w % 256 + 256 * (w / 256) == w;
    assert [w % 256, w / 256][1..] == [w / 256];
    assert ByteBits([w / 256]) == Lsb(w / 256, 8) + ByteBits([]);
  }

  /** Bitwise or of two naturals, as C's `|` computes it. */
  function Or(a: nat, b: nat): (r: nat)
    decreases a + b
  {
    if a == 0 then b
    else if b == 0 then a
    else (if a % 2 == 1 || b % 2 == 1 then 1 else 0) + 2 * Or(a / 2, b / 2)
  }

  /** Or-ing in a field above the bits already used is addition. */
  lemma {:induction false} OrDisjoint(a: nat, w: nat, n: nat)
    requires a < Pow2(n)
    ensures Or(a, Shl(w, n)) == a + Shl(w, n)
    decreases n
  {
    if n > 0 && a > 0 && Shl(w, n) > 0 {
      OrDisjoint(a / 2, w, n - 1);
      var p := Shl(w, n - 1);
      assert (2 * p) % 2 == 0 && (2 * p) / 2 == p;
    }
  }

  /** Sum of a vector. */
  function Sum(s: seq<int>): (r: int)
  {
    if s == [] then 0 else s[0] + Sum(s[1..])
  }

  lemma {:induction false} SumUpdate(s: seq<int>, i: nat, v: int)
    requires i < |s|
    ensures Sum(s[i := v]) == Sum(s) - s[i] + v
  {
    if i == 0 {
      assert s[i := v][1..] == s[1..];
    } else {
      SumUpdate(s[1..], i - 1, v);
      assert s[i := v][1..] == s[1..][i - 1 := v];
    }
  }

  lemma {:induction false} SumZero(s: seq<int>)
    requires forall i :: 0 <= i < |s| ==> s[i] == 0
    ensures Sum(s) == 0
  {
    if s != [] {
      SumZero(s[1..]);
    }
  }

  lemma {:induction false} SumMember(s: seq<int>, i: nat)
    requires i < |s| && forall j :: 0 <= j < |s| ==> s[j] >= 0
    ensures 0 <= s[i] <= Sum(s)
  {
    SumNonneg(s[1..]);
    if i > 0 {
      SumMember(s[1..], i - 1);
    }
  }

  lemma {:induction false} SumNonneg(s: seq<int>)
    requires forall j :: 0 <= j < |s| ==> s[j] >= 0
    ensures Sum(s) >= 0
  {
    if s != [] {
      SumNonneg(s[1..]);
    }
  }

  lemma {:induction false} SumAppend(s: seq<int>, t: seq<int>)
    ensures Sum(s + t) == Sum(s) + Sum(t)
  {
    if s == [] {
      assert s + t == t;
    } else {
      SumAppend(s[1..], t);
      assert (s + t)[1..] == s[1..] + t;
    }
  }
}
