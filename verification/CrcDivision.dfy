/** The same checksum as the standard defines it: the remainder of a division of polynomials over two elements. */
module CrcDivision {
  import opened Bits
  import opened Crc

  /** The exponents of the generator in section 8.1.1.6.2 of ITU-T V.42, to which section 8 of RFC 1952 refers. */
  const EXPONENTS: seq<nat> := [32, 26, 23, 22, 16, 12, 11, 10, 8, 7, 5, 4, 2, 1, 0]

  /** Polynomials are their coefficients, the highest power first: the generator taken off the front of `d`. */
  function Subtract(d: BitString): (r: BitString)
    ensures |r| == |d|
  {
    seq(|d|, i requires 0 <= i < |d| => d[i] != (i <= 32 && 32 - i in EXPONENTS))
  }

  /** Long division; what is left are the coefficients of the powers 31 to 0. */
  function Remainder(d: BitString): (r: BitString)
    requires |d| >= 32
    ensures |r| == 32
    decreases |d|
  {
    if |d| == 32 then d else Remainder((if d[0] then Subtract(d) else d)[1..])
  }

  /** The first 32 coefficients complemented. */
  function Flipped(d: BitString): (r: BitString)
    ensures |r| == |d|
  {
    seq(|d|, i requires 0 <= i < |d| => if i < 32 then !d[i] else d[i])
  }

  /** The message, low bit of each byte first, times the 32nd power, with both complements of the standard. */
  function CrcBits(s: seq<byte>): (r: BitString)
    ensures |r| == 32
  {
    Flipped(Remainder(Flipped(ByteBits(s) + Zeros(32))))
  }

  function Zeros(n: nat): BitString { seq(n, _ => false) }

  /** Coefficients as a word, the highest power lowest. */
  function Packed(d: BitString): bv32
  {
    if d == [] then 0 else (Packed(d[1..]) << 1) | (if d[0] then 1 else 0)
  }

  function CrcOf(s: seq<byte>): nat { Packed(CrcBits(s)) as int }

  // ----- the register as coefficients

  /** The low `n` bits of a register, lowest first. */
  function Coefficients(c: bv32, n: nat): (r: BitString)
    ensures |r| == n
    decreases n
  {
    if n == 0 then [] else [Odd(c)] + Coefficients(Half(c), n - 1)
  }

  function Xor(a: BitString, b: BitString): (r: BitString)
    requires |b| <= |a|
    ensures |r| == |a|
  {
    seq(|a|, i requires 0 <= i < |a| => if i < |b| then a[i] != b[i] else a[i])
  }

  lemma {:induction false} BitsMix(a: bv32, b: bv32, n: nat)
    ensures Coefficients(Mix(a, b), n) == Xor(Coefficients(a, n), Coefficients(b, n))
    decreases n
  {
    hide Odd, Half, Mix;
    if n > 0 {
      OddMix(a, b);
      HalfMix(a, b);
      BitsMix(Half(a), Half(b), n - 1);
    }
  }

  function Halves(c: bv32, n: nat): bv32
  {
    if n == 0 then c else Halves(Half(c), n - 1)
  }

  lemma {:induction false} BitsLast(c: bv32, n: nat)
    ensures Coefficients(c, n + 1) == Coefficients(c, n) + [Odd(Halves(c, n))]
    decreases n
  {
    hide Odd, Half;
    if n > 0 {
      BitsLast(Half(c), n - 1);
      assert Coefficients(c, n + 1) == [Odd(c)] + Coefficients(Half(c), n);
    }
  }

  lemma FourMoreHalves(c: bv32, n: nat)
    ensures Halves(c, n + 4) == Halves(Sixteenth(c), n)
  {
    hide Half, Sixteenth;
    FourHalves(c);
    assert Halves(c, n + 4) == Halves(Half(c), n + 3);
    assert Halves(Half(c), n + 3) == Halves(Half(Half(c)), n + 2);
    assert Halves(Half(Half(c)), n + 2) == Halves(Half(Half(Half(c))), n + 1);
  }

  function Page(c: bv32): bv32 { c >> 16 }

  lemma EightSixteenths(c: bv32)
    ensures Sixteenth(Sixteenth(Sixteenth(Sixteenth(Sixteenth(Sixteenth(Sixteenth(Sixteenth(c)))))))) == 0
  {
    hide Sixteenth, Page;
    FourSixteenths(c);
    FourSixteenths(Page(c));
    TwoPages(c);
  }

  lemma FourSixteenths(c: bv32)
    ensures Sixteenth(Sixteenth(Sixteenth(Sixteenth(c)))) == Page(c)
  {
  }

  lemma TwoPages(c: bv32)
    ensures Page(Page(c)) == 0
  {
  }

  lemma NoneAbove(c: bv32)
    ensures Halves(c, 32) == 0
  {
    hide Half, Sixteenth, Halves;
    var d := Sixteenth(Sixteenth(Sixteenth(Sixteenth(c))));
    FourMoreHalves(c, 28);
    FourMoreHalves(Sixteenth(c), 24);
    FourMoreHalves(Sixteenth(Sixteenth(c)), 20);
    FourMoreHalves(Sixteenth(Sixteenth(Sixteenth(c))), 16);
    FourMoreHalves(d, 12);
    FourMoreHalves(Sixteenth(d), 8);
    FourMoreHalves(Sixteenth(Sixteenth(d)), 4);
    FourMoreHalves(Sixteenth(Sixteenth(Sixteenth(d))), 0);
    EightSixteenths(c);
    NoHalves(0);
  }

  lemma NoHalves(c: bv32)
    ensures Halves(c, 0) == c
  {
  }

  lemma NothingLeft(c: bv32)
    ensures !Odd(Halves(c, 32))
  {
    hide Halves;
    NoneAbove(c);
  }

  lemma BitsHalf(c: bv32)
    ensures Coefficients(Half(c), 32) == Coefficients(c, 32)[1..] + [false]
  {
    hide Odd, Half, Halves, Coefficients;
    BitsLast(c, 32);
    NothingLeft(c);
    assert Coefficients(c, 33) == [Odd(c)] + Coefficients(Half(c), 32) by { FirstCoefficient(c, 32); }
    assert Coefficients(c, 33)[1..] == Coefficients(Half(c), 32);
  }

  lemma FirstCoefficient(c: bv32, n: nat)
    ensures Coefficients(c, n + 1) == [Odd(c)] + Coefficients(Half(c), n)
  {
  }

  // ----- the constant of the code is the generator

  /** The coefficients of the powers 31 to 0. */
  function Generator(): BitString { seq(32, i requires 0 <= i < 32 => 31 - i in EXPONENTS) }

  lemma FourBits(c: bv32, n: nat)
    ensures Coefficients(c, n + 4)
      == [Odd(c), Odd(Half(c)), Odd(Half(Half(c))), Odd(Half(Half(Half(c))))] + Coefficients(Sixteenth(c), n)
  {
    hide Odd, Half, Sixteenth, Coefficients;
    FourHalves(c);
    FirstCoefficient(c, n + 3);
    FirstCoefficient(Half(c), n + 2);
    FirstCoefficient(Half(Half(c)), n + 1);
    FirstCoefficient(Half(Half(Half(c))), n);
  }

  lemma LowHalf()
    ensures Coefficients(POLY, 32) ==
      [false, false, false, false] + ([false, true, false, false] + ([true, true, false, false]
      + ([false, false, false, true] + Coefficients(0xEDB8, 16))))
  {
    hide Coefficients;
    FourBits(POLY, 28);
    FourBits(0xEDB8832, 24);
    FourBits(0xEDB883, 20);
    FourBits(0xEDB88, 16);
  }

  lemma HighHalf()
    ensures Coefficients(0xEDB8, 16) ==
      [false, false, false, true]
      + ([true, true, false, true] + ([true, false, true, true] + [false, true, true, true]))
  {
    hide Coefficients;
    FourBits(0xEDB8, 12);
    FourBits(0xEDB, 8);
    FourBits(0xED, 4);
    FourBits(0xE, 0);
    assert Coefficients(0, 0) == [] by { NoBits(); }
    assert [false, true, true, true] + [] == [false, true, true, true];
  }

  lemma NoBits()
    ensures Coefficients(0, 0) == []
  {
  }

  lemma PolyIsGenerator()
    ensures Coefficients(POLY, 32) == Generator()
  {
    hide Coefficients;
    LowHalf();
    HighHalf();
  }

  // ----- a step of the register is a step of the division

  lemma FeedCoefficients(c: bv32, b: Bit)
    ensures Coefficients(Feed(c, b), 32)
      == var r := Coefficients(c, 32)[1..] + [false];
         if Odd(c) != b then Xor(r, Generator()) else r
  {
    hide Odd, Half, Mix, Coefficients;
    BitsHalf(c);
    BitsMix(Half(c), POLY, 32);
    PolyIsGenerator();
  }

  lemma DivisionStep(c: bv32, m: BitString)
    requires m != []
    ensures Remainder(Xor(m + Zeros(32), Coefficients(c, 32)))
      == Remainder(Xor(m[1..] + Zeros(32), Coefficients(Feed(c, m[0]), 32)))
  {
    hide Coefficients, Feed, Xor, Subtract, Odd;
    var r := Coefficients(c, 32);
    var d := Xor(m + Zeros(32), r);
    FirstCoefficient(c, 31);
    FeedCoefficients(c, m[0]);
    assert (m + Zeros(32))[1..] == m[1..] + Zeros(32);
    assert d[0] == (r[0] != m[0]) by { XorAt(m + Zeros(32), r, 0); }
    if d[0] {
      TakeOff(m + Zeros(32), r);
    } else {
      ShiftOut(m + Zeros(32), r);
    }
  }

  lemma XorAt(a: BitString, b: BitString, i: nat)
    requires i < |b| <= |a|
    ensures Xor(a, b)[i] == (a[i] != b[i])
  {
  }

  /** Nothing is taken off: the front is shifted by one. */
  lemma ShiftOut(a: BitString, r: BitString)
    requires |r| == 32 < |a|
    ensures Xor(a, r)[1..] == Xor(a[1..], r[1..] + [false])
  {
  }

  lemma TakeOff(a: BitString, r: BitString)
    requires |r| == 32 < |a|
    ensures Subtract(Xor(a, r))[1..] == Xor(a[1..], Xor(r[1..] + [false], Generator()))
  {
    var x, y, g := Subtract(Xor(a, r))[1..], Xor(a[1..], Xor(r[1..] + [false], Generator())), Generator();
    forall i | 0 <= i < |x|
      ensures x[i] == y[i]
    {
      assert x[i] == (Xor(a, r)[i + 1] != (i + 1 <= 32 && 32 - (i + 1) in EXPONENTS));
      assert i < 32 ==> g[i] == (31 - i in EXPONENTS);
    }
  }

  /** The register after a message is the remainder of its division, with the starting register on the front. */
  lemma {:induction false} FeedIsDivision(c: bv32, m: BitString)
    ensures Remainder(Xor(m + Zeros(32), Coefficients(c, 32))) == Coefficients(FeedAll(c, m), 32)
    decreases |m|
  {
    hide Coefficients, Feed;
    if m == [] {
      assert [] + Zeros(32) == Zeros(32);
      assert Xor(Zeros(32), Coefficients(c, 32)) == Coefficients(c, 32);
    } else {
      DivisionStep(c, m);
      FeedIsDivision(Feed(c, m[0]), m[1..]);
    }
  }

  lemma {:induction false} AllOnes(n: nat)
    requires n <= 32
    ensures forall i :: 0 <= i < n ==> Coefficients(0xFFFFFFFF, 32)[i]
  {
    hide Coefficients;
    FourBits(0xFFFFFFFF, 28);
    FourBits(0xFFFFFFF, 24);
    FourBits(0xFFFFFF, 20);
    FourBits(0xFFFFF, 16);
    FourBits(0xFFFF, 12);
    FourBits(0xFFF, 8);
    FourBits(0xFF, 4);
    FourBits(0xF, 0);
  }

  lemma ComplementFlips(c: bv32)
    ensures Coefficients(Complement(c), 32) == Flipped(Coefficients(c, 32))
  {
    hide Coefficients;
    AllOnes(32);
    assert Complement(c) == Mix(c, 0xFFFFFFFF);
    BitsMix(c, 0xFFFFFFFF, 32);
  }

  lemma LowBit(c: bv32)
    ensures (Half(c) << 1) | (if Odd(c) then 1 else 0) == c
  {
  }

  lemma {:induction false} PackedBack(c: bv32, n: nat)
    requires Halves(c, n) == 0
    ensures Packed(Coefficients(c, n)) == c
    decreases n
  {
    hide Odd, Half;
    if n > 0 {
      PackedBack(Half(c), n - 1);
      LowBit(c);
      assert Coefficients(c, n)[1..] == Coefficients(Half(c), n - 1);
    }
  }

  /** What the code computes, bit by bit or by table, is the checksum of the standard. */
  lemma ChecksumIsDivision(s: seq<byte>)
    ensures Checksum(s) as int == CrcOf(s)
  {
    hide Coefficients, ByteBits, FeedAll, Complement, Packed, Remainder;
    var m := ByteBits(s);
    FeedIsDivision(0xFFFFFFFF, m);
    AllOnes(32);
    assert Xor(m + Zeros(32), Coefficients(0xFFFFFFFF, 32)) == Flipped(m + Zeros(32));
    ComplementFlips(FeedAll(0xFFFFFFFF, m));
    NoneAbove(Checksum(s));
    PackedBack(Checksum(s), 32);
  }

  // ----- the published check value

  lemma OctetAt(c: bv32, d: seq<byte>, i: nat)
    requires i < |d|
    ensures FeedAll(c, ByteBits(d[i..])) == FeedAll(FeedAll(c, Lsb(d[i], 8)), ByteBits(d[i + 1..]))
  {
    hide FeedAll, Lsb;
    assert d[i..][1..] == d[i + 1..];
    FeedAppend(c, Lsb(d[i], 8), ByteBits(d[i + 1..]));
  }

  lemma EightFeeds(c: bv32, a: Bit, b: Bit, d: Bit, e: Bit, f: Bit, g: Bit, h: Bit, i: Bit)
    ensures FeedAll(c, [a, b, d, e] + ([f, g, h, i] + []))
      == Feed(Feed(Feed(Feed(Feed(Feed(Feed(Feed(c, a), b), d), e), f), g), h), i)
  {
    hide Feed, FeedAll;
    FourFeeds(c, a, b, d, e, [f, g, h, i] + []);
    FourFeeds(Feed(Feed(Feed(Feed(c, a), b), d), e), f, g, h, i, []);
    NoFeed(Feed(Feed(Feed(Feed(Feed(Feed(Feed(Feed(c, a), b), d), e), f), g), h), i));
  }

  lemma FourFeeds(c: bv32, a: Bit, b: Bit, d: Bit, e: Bit, t: BitString)
    ensures FeedAll(c, [a, b, d, e] + t) == FeedAll(Feed(Feed(Feed(Feed(c, a), b), d), e), t)
  {
    hide Feed, FeedAll;
    assert [a, b, d, e] + t == [a] + ([b] + ([d] + ([e] + t)));
    OneFeed(c, a, [b] + ([d] + ([e] + t)));
    OneFeed(Feed(c, a), b, [d] + ([e] + t));
    OneFeed(Feed(Feed(c, a), b), d, [e] + t);
    OneFeed(Feed(Feed(Feed(c, a), b), d), e, t);
  }

  lemma OneFeed(c: bv32, a: Bit, t: BitString)
    ensures FeedAll(c, [a] + t) == FeedAll(Feed(c, a), t)
  {
    assert ([a] + t)[1..] == t;
  }

  lemma NoFeed(c: bv32)
    ensures FeedAll(c, []) == c
  {
  }

  lemma FourOfByte(v: nat, n: nat)
    ensures Lsb(v, n + 4) == [v % 2 == 1, v / 2 % 2 == 1, v / 4 % 2 == 1, v / 8 % 2 == 1] + Lsb(v / 16, n)
  {
    assert v / 2 / 2 == v / 4 && v / 4 / 2 == v / 8 && v / 8 / 2 == v / 16;
    assert Lsb(v, n + 4) == [v % 2 == 1] + Lsb(v / 2, n + 3);
    assert Lsb(v / 2, n + 3) == [v / 2 % 2 == 1] + Lsb(v / 4, n + 2);
    assert Lsb(v / 4, n + 2) == [v / 4 % 2 == 1] + Lsb(v / 8, n + 1);
    assert Lsb(v / 8, n + 1) == [v / 8 % 2 == 1] + Lsb(v / 16, n);
  }

  /** A byte fed to the register, bit by bit. */
  lemma FeedOctet(c: bv32, v: nat)
    ensures FeedAll(c, Lsb(v, 8))
      == Feed(Feed(Feed(Feed(Feed(Feed(Feed(Feed(c, v % 2 == 1), v / 2 % 2 == 1), v / 4 % 2 == 1), v / 8 % 2 == 1),
              v / 16 % 2 == 1), v / 16 / 2 % 2 == 1), v / 16 / 4 % 2 == 1), v / 16 / 8 % 2 == 1)
  {
    hide Feed, FeedAll, Lsb;
    FourOfByte(v, 4);
    FourOfByte(v / 16, 0);
    EightFeeds(c, v % 2 == 1, v / 2 % 2 == 1, v / 4 % 2 == 1, v / 8 % 2 == 1,
               v / 16 % 2 == 1, v / 16 / 2 % 2 == 1, v / 16 / 4 % 2 == 1, v / 16 / 8 % 2 == 1);
    assert Lsb(v / 16 / 16, 0) == [];
  }

  lemma DigitOne()
    ensures FeedAll(0xFFFFFFFF, Lsb(49, 8)) == 0x7C231048
  {
    hide FeedAll, Lsb;
    FeedOctet(0xFFFFFFFF, 49);
  }

  lemma DigitTwo()
    ensures FeedAll(0x7C231048, Lsb(50, 8)) == 0xB0ACBB32
  {
    hide FeedAll, Lsb;
    FeedOctet(0x7C231048, 50);
  }

  lemma DigitThree()
    ensures FeedAll(0xB0ACBB32, Lsb(51, 8)) == 0x77B79C2D
  {
    hide FeedAll, Lsb;
    FeedOctet(0xB0ACBB32, 51);
  }

  lemma DigitFour()
    ensures FeedAll(0x77B79C2D, Lsb(52, 8)) == 0x641C1F5C
  {
    hide FeedAll, Lsb;
    FeedOctet(0x77B79C2D, 52);
  }

  lemma DigitFive()
    ensures FeedAll(0x641C1F5C, Lsb(53, 8)) == 0x340AC5E3
  {
    hide FeedAll, Lsb;
    FeedOctet(0x641C1F5C, 53);
  }

  lemma DigitSix()
    ensures FeedAll(0x340AC5E3, Lsb(54, 8)) == 0xF68D2C9E
  {
    hide FeedAll, Lsb;
    FeedOctet(0x340AC5E3, 54);
  }

  lemma DigitSeven()
    ensures FeedAll(0xF68D2C9E, Lsb(55, 8)) == 0xAFFC9660
  {
    hide FeedAll, Lsb;
    FeedOctet(0xF68D2C9E, 55);
  }

  lemma DigitEight()
    ensures FeedAll(0xAFFC9660, Lsb(56, 8)) == 0x651F2550
  {
    hide FeedAll, Lsb;
    FeedOctet(0xAFFC9660, 56);
  }

  lemma DigitNine()
    ensures FeedAll(0x651F2550, Lsb(57, 8)) == 0x340BC6D9
  {
    hide FeedAll, Lsb;
    FeedOctet(0x651F2550, 57);
  }

  /** The bytes "123456789" have the checksum 0xCBF43926. */
  lemma CheckValue()
    ensures CrcOf([49, 50, 51, 52, 53, 54, 55, 56, 57]) == 0xCBF43926
  {
    hide FeedAll, Lsb, ByteBits, CrcOf;
    var d: seq<byte> := [49, 50, 51, 52, 53, 54, 55, 56, 57];
    assert d[0..] == d && d[9..] == [];
    DigitOne();
    OctetAt(0xFFFFFFFF, d, 0);
    DigitTwo();
    OctetAt(0x7C231048, d, 1);
    DigitThree();
    OctetAt(0xB0ACBB32, d, 2);
    DigitFour();
    OctetAt(0x77B79C2D, d, 3);
    DigitFive();
    OctetAt(0x641C1F5C, d, 4);
    DigitSix();
    OctetAt(0x340AC5E3, d, 5);
    DigitSeven();
    OctetAt(0xF68D2C9E, d, 6);
    DigitEight();
    OctetAt(0xAFFC9660, d, 7);
    DigitNine();
    OctetAt(0x651F2550, d, 8);
    NoOctets(0x340BC6D9);
    ChecksumIsDivision(d);
  }

  lemma NoOctets(c: bv32)
    ensures FeedAll(c, ByteBits([])) == c
  {
  }
}
