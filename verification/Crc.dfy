/** `crc32` of nvram.c, the bit-serial CRC it implements, and the alterations that CRC always detects. */
module Crc {
  import opened Bits

  const POLY: bv32 := 0xEDB88320

  // ----- the bit-serial definition (section 8 of RFC 1952)

  function Odd(c: bv32): bool
  {
    c & 1 == 1
  }

  function Half(c: bv32): bv32
  {
    c >> 1
  }

  function Mix(c: bv32, w: bv32): bv32
  {
    c ^ w
  }

  /** Feed one message bit to the register. */
  function Feed(c: bv32, b: Bit): bv32
  {
    if Odd(c) != b then Mix(Half(c), POLY) else Half(c)
  }

  function FeedAll(c: bv32, bits: BitString): bv32
    decreases |bits|
  {
    if bits == [] then c else FeedAll(Feed(c, bits[0]), bits[1..])
  }

  /** All ones at the start, the complement at the end. */
  function Checksum(s: seq<byte>): bv32
  {
    Complement(FeedAll(0xFFFFFFFF, ByteBits(s)))
  }

  function Complement(c: bv32): bv32
  {
    c ^ 0xFFFFFFFF
  }

  lemma {:induction false} FeedAppend(c: bv32, a: BitString, b: BitString)
    ensures FeedAll(c, a + b) == FeedAll(FeedAll(c, a), b)
    decreases |a|
  {
    hide Feed;
    if a == [] {
      assert a + b == b;
    } else {
      assert (a + b)[0] == a[0] && (a + b)[1..] == a[1..] + b;
      FeedAppend(Feed(c, a[0]), a[1..], b);
    }
  }

  // ----- shifting a word of message bits at once

  /** One round of the loop that fills the table. */
  function Shift(c: bv32): bv32
  {
    if Odd(c) then Mix(Half(c), POLY) else Half(c)
  }

  function Shifts(c: bv32, n: nat): bv32
    decreases n
  {
    if n == 0 then c else Shifts(Shift(c), n - 1)
  }

  function BitOf(b: Bit): bv32
  {
    if b then 1 else 0
  }

  function Up(w: bv32): bv32
  {
    w << 1
  }

  function Both(v: bv32, w: bv32): bv32
  {
    v | w
  }

  /** A word with one more bit below. */
  function Join(w: bv32, b: Bit): bv32
  {
    Both(Up(w), BitOf(b))
  }

  /** All bits of `w` are bits of `m`. */
  predicate Inside(w: bv32, m: bv32)
  {
    w & !m == 0
  }

  /** The message bits as a word, the first one lowest. */
  function Word(bits: BitString): bv32
  {
    if bits == [] then 0 else Join(Word(bits[1..]), bits[0])
  }

  /** `n` ones. */
  function Ones(n: nat): bv32
  {
    if n == 0 then 0 else Join(Ones(n - 1), true)
  }

  lemma {:induction false} WordFits(bits: BitString)
    ensures Inside(Word(bits), Ones(|bits|))
  {
    hide Inside, Join;
    if bits == [] {
      InsideItself(0);
    } else {
      WordFits(bits[1..]);
      InsideStep(Word(bits[1..]), Ones(|bits| - 1), bits[0]);
    }
  }

  lemma InsideStep(w: bv32, m: bv32, b: Bit)
    requires Inside(w, m)
    ensures Inside(Join(w, b), Join(m, true))
  {
    hide Inside, BitOf, Up, Both;
    InsideShift(w, m);
    InsideOne(b);
    InsideOr(Up(w), Up(m), BitOf(b), BitOf(true));
  }

  lemma InsideOne(b: Bit)
    ensures Inside(BitOf(b), BitOf(true))
  {
  }

  lemma InsideShift(w: bv32, m: bv32)
    requires Inside(w, m)
    ensures Inside(Up(w), Up(m))
  {
  }

  lemma InsideOr(w: bv32, m: bv32, x: bv32, y: bv32)
    requires Inside(w, m) && Inside(x, y)
    ensures Inside(Both(w, x), Both(m, y))
  {
  }

  lemma InsideItself(a: bv32)
    ensures Inside(a, a)
  {
  }

  lemma ZeroInside(a: bv32)
    ensures Inside(0, a)
  {
  }

  lemma InsideTrans(a: bv32, b: bv32, c: bv32)
    requires Inside(a, b) && Inside(b, c)
    ensures Inside(a, c)
  {
  }

  lemma {:induction false} OnesGrow(n: nat)
    ensures Inside(Ones(n), Ones(n + 1))
  {
    hide Inside, Join;
    if n == 0 {
      ZeroInside(Ones(1));
    } else {
      OnesGrow(n - 1);
      InsideStep(Ones(n - 1), Ones(n), true);
    }
  }

  lemma {:induction false} OnesBelow(n: nat, k: nat)
    requires n <= k
    ensures Inside(Ones(n), Ones(k))
    decreases k - n
  {
    hide Inside, Ones;
    if n == k {
      InsideItself(Ones(n));
    } else {
      OnesGrow(n);
      OnesBelow(n + 1, k);
      InsideTrans(Ones(n), Ones(n + 1), Ones(k));
    }
  }

  /** Eight more ones. */
  lemma OctetOfOnes(n: nat)
    ensures Ones(n + 8) ==
      Join(Join(Join(Join(Join(Join(Join(Join(Ones(n), true), true), true), true), true), true), true), true)
  {
    hide Join;
    assert Ones(n + 2) == Join(Join(Ones(n), true), true);
    assert Ones(n + 4) == Join(Join(Ones(n + 2), true), true);
    assert Ones(n + 6) == Join(Join(Ones(n + 4), true), true);
  }

  lemma ThirtyOneOnes()
    ensures Ones(31) == 0x7FFFFFFF
  {
    SevenOnes();
    OctetOfOnes(7);
    OctetOfOnes(15);
    OctetOfOnes(23);
  }

  lemma SevenOnes()
    ensures Ones(7) == 0x7F
  {
    assert Ones(3) == 7;
    assert Ones(6) == 63;
  }

  lemma TopClear(w: bv32)
    requires Inside(w, 0x7FFFFFFF)
    ensures w & 0x80000000 == 0
  {
  }

  /** A word of at most 31 bits loses nothing when shifted up. */
  lemma RoomToShift(bits: BitString)
    requires |bits| <= 31
    ensures Word(bits) & 0x80000000 == 0
  {
    hide Inside, Ones, Word;
    WordFits(bits);
    OnesBelow(|bits|, 31);
    ThirtyOneOnes();
    InsideTrans(Word(bits), Ones(|bits|), Ones(31));
    TopClear(Word(bits));
  }

  /** Feeding a bit, with the later message bits already mixed in. */
  lemma FeedIsShift(c: bv32, w: bv32, b: Bit)
    requires w & 0x80000000 == 0
    ensures Shift(Mix(c, Join(w, b))) == Mix(Feed(c, b), w)
  {
    hide Join, Mix, Half, Odd;
    var x := Join(w, b);
    JoinParts(w, b);
    OddMix(c, x);
    HalfMix(c, x);
    MixSwap(Half(c), w, POLY);
  }

  lemma JoinParts(w: bv32, b: Bit)
    requires w & 0x80000000 == 0
    ensures Half(Join(w, b)) == w && (Odd(Join(w, b)) <==> b)
  {
  }

  lemma OddMix(c: bv32, x: bv32)
    ensures Odd(Mix(c, x)) <==> Odd(c) != Odd(x)
  {
  }

  lemma HalfMix(c: bv32, x: bv32)
    ensures Half(Mix(c, x)) == Mix(Half(c), Half(x))
  {
  }

  lemma MixSwap(a: bv32, b: bv32, c: bv32)
    ensures Mix(Mix(a, b), c) == Mix(Mix(a, c), b)
  {
    hide Mix;
    MixAssoc(a, b, c);
    MixComm(b, c);
    MixAssoc(a, c, b);
  }

  lemma MixAssoc(a: bv32, b: bv32, c: bv32)
    ensures Mix(Mix(a, b), c) == Mix(a, Mix(b, c))
  {
  }

  lemma MixComm(a: bv32, b: bv32)
    ensures Mix(a, b) == Mix(b, a)
  {
  }

  /** Up to 32 bits can be mixed into the register first and shifted through afterwards. */
  lemma {:induction false} FeedWord(c: bv32, bits: BitString)
    requires |bits| <= 32
    ensures FeedAll(c, bits) == Shifts(Mix(c, Word(bits)), |bits|)
    decreases |bits|
  {
    hide Feed, Shift, Mix, Join;
    if bits == [] {
      MixZero(c);
    } else {
      var rest := bits[1..];
      RoomToShift(rest);
      FeedIsShift(c, Word(rest), bits[0]);
      FeedWord(Feed(c, bits[0]), rest);
    }
  }

  lemma MixZero(c: bv32)
    ensures Mix(c, 0) == c
  {
  }

  // ----- what the CRC detects

  /** The top bit of the polynomial tells which way a shift went. */
  lemma ShiftInjective(a: bv32, b: bv32)
    requires Shift(a) == Shift(b)
    ensures a == b
  {
  }

  lemma FeedInjective(a: bv32, b: bv32, x: Bit)
    requires Feed(a, x) == Feed(b, x)
    ensures a == b
  {
  }

  lemma {:induction false} ShiftsInjective(a: bv32, b: bv32, n: nat)
    requires Shifts(a, n) == Shifts(b, n)
    ensures a == b
    decreases n
  {
    hide Shift;
    if n > 0 {
      ShiftsInjective(Shift(a), Shift(b), n - 1);
      ShiftInjective(a, b);
    }
  }

  lemma {:induction false} FeedAllInjective(a: bv32, b: bv32, bits: BitString)
    requires FeedAll(a, bits) == FeedAll(b, bits)
    ensures a == b
    decreases |bits|
  {
    hide Feed;
    if bits != [] {
      FeedAllInjective(Feed(a, bits[0]), Feed(b, bits[0]), bits[1..]);
      FeedInjective(a, b, bits[0]);
    }
  }

  lemma {:induction false} WordInjective(a: BitString, b: BitString)
    requires |a| == |b| <= 32 && Word(a) == Word(b)
    ensures a == b
  {
    hide Join;
    if a != [] {
      RoomToShift(a[1..]);
      RoomToShift(b[1..]);
      LowAndHigh(Word(a[1..]), Word(b[1..]), a[0], b[0]);
      WordInjective(a[1..], b[1..]);
      assert a == [a[0]] + a[1..] && b == [b[0]] + b[1..];
    }
  }

  lemma LowAndHigh(v: bv32, w: bv32, a: Bit, b: Bit)
    requires v & 0x80000000 == 0 && w & 0x80000000 == 0 && Join(v, a) == Join(w, b)
    ensures v == w && a == b
  {
  }

  lemma MixInjective(c: bv32, v: bv32, w: bv32)
    requires Mix(c, v) == Mix(c, w)
    ensures v == w
  {
  }

  /** Bit strings that differ only inside 32 consecutive bits leave different registers. */
  lemma BurstDetected(c: bv32, p: BitString, a: BitString, b: BitString, q: BitString)
    requires |a| == |b| <= 32 && a != b
    ensures FeedAll(c, p + a + q) != FeedAll(c, p + b + q)
  {
    hide FeedAll, Word, Shifts, Mix;
    FeedAppend(c, p + a, q);
    FeedAppend(c, p + b, q);
    FeedAppend(c, p, a);
    FeedAppend(c, p, b);
    var d := FeedAll(c, p);
    if FeedAll(FeedAll(d, a), q) == FeedAll(FeedAll(d, b), q) {
      FeedAllInjective(FeedAll(d, a), FeedAll(d, b), q);
      FeedWord(d, a);
      FeedWord(d, b);
      ShiftsInjective(Mix(d, Word(a)), Mix(d, Word(b)), |a|);
      MixInjective(d, Word(a), Word(b));
      WordInjective(a, b);
    }
  }

  lemma {:induction false} ByteBitsInjective(a: seq<byte>, b: seq<byte>)
    requires |a| == |b| && ByteBits(a) == ByteBits(b)
    ensures a == b
  {
    hide Lsb;
    if a != [] {
      assert Pow2(8) == 256;
      var x, y := ByteBits(a), ByteBits(b);
      assert x[..8] == Lsb(a[0], 8) && y[..8] == Lsb(b[0], 8);
      assert x[8..] == ByteBits(a[1..]) && y[8..] == ByteBits(b[1..]);
      ValueLsb(a[0], 8);
      ValueLsb(b[0], 8);
      ByteBitsInjective(a[1..], b[1..]);
      assert a == [a[0]] + a[1..] && b == [b[0]] + b[1..];
    }
  }

  lemma {:induction false} ByteBitsLength(a: seq<byte>)
    ensures |ByteBits(a)| == 8 * |a|
  {
    if a != [] {
      ByteBitsLength(a[1..]);
    }
  }

  /** Strings that differ only inside four consecutive bytes have different checksums. */
  lemma ChecksumDetects(p: seq<byte>, a: seq<byte>, b: seq<byte>, q: seq<byte>)
    requires |a| == |b| <= 4 && a != b
    ensures Checksum(p + a + q) != Checksum(p + b + q)
  {
    hide FeedAll, ByteBits, Complement;
    ByteBitsAppend(p + a, q);
    ByteBitsAppend(p, a);
    ByteBitsAppend(p + b, q);
    ByteBitsAppend(p, b);
    ByteBitsLength(a);
    ByteBitsLength(b);
    if ByteBits(a) == ByteBits(b) {
      ByteBitsInjective(a, b);
    }
    BurstDetected(0xFFFFFFFF, ByteBits(p), ByteBits(a), ByteBits(b), ByteBits(q));
    var x, y := FeedAll(0xFFFFFFFF, ByteBits(p + a + q)), FeedAll(0xFFFFFFFF, ByteBits(p + b + q));
    if Complement(x) == Complement(y) {
      ComplementInjective(x, y);
    }
  }

  lemma ComplementInjective(a: bv32, b: bv32)
    requires Complement(a) == Complement(b)
    ensures a == b
  {
    MixInjective(0xFFFFFFFF, a, b);
  }

  // ----- the table

  lemma ShiftMix(a: bv32, b: bv32)
    ensures Shift(Mix(a, b)) == Mix(Shift(a), Shift(b))
  {
    hide Mix, Half, Odd;
    OddMix(a, b);
    HalfMix(a, b);
    var x, y := Half(a), Half(b);
    MixAssoc(x, y, POLY);
    MixSwap(x, y, POLY);
    MixTwice(x, y, POLY);
  }

  lemma MixTwice(a: bv32, b: bv32, c: bv32)
    ensures Mix(Mix(a, c), Mix(b, c)) == Mix(a, b)
  {
    hide Mix;
    MixComm(b, c);
    MixAssoc(a, c, Mix(c, b));
    MixAssoc(c, c, b);
    MixSelf(c, b);
  }

  lemma MixSelf(c: bv32, b: bv32)
    ensures Mix(Mix(c, c), b) == b
  {
  }

  lemma {:induction false} ShiftsMix(a: bv32, b: bv32, n: nat)
    ensures Shifts(Mix(a, b), n) == Mix(Shifts(a, n), Shifts(b, n))
    decreases n
  {
    hide Shift, Mix;
    if n > 0 {
      ShiftMix(a, b);
      ShiftsMix(Shift(a), Shift(b), n - 1);
    }
  }

  function LowByte(x: bv32): bv32
  {
    x & 0xFF
  }

  function HighBytes(x: bv32): bv32
  {
    (x >> 8) & 0x00FFFFFF
  }

  function ClearLow(x: bv32): bv32
  {
    x & 0xFFFFFF00
  }

  lemma SplitWord(x: bv32)
    ensures Mix(ClearLow(x), LowByte(x)) == x
  {
  }

  /** The low bits `m` and one more are clear. */
  predicate Clear(a: bv32, m: bv32)
  {
    a & m == 0
  }

  lemma EvenStep(a: bv32, m: bv32)
    requires Clear(a, (m << 1) | 1)
    ensures !Odd(a)
    ensures m & 0x80000000 == 0 ==> Clear(Half(a), m)
  {
  }

  lemma Cleared(x: bv32)
    ensures Clear(ClearLow(x), 0xFF)
  {
  }

  lemma Evens(x: bv32) returns (b: bv32, c: bv32, d: bv32, e: bv32, f: bv32, g: bv32, h: bv32)
    ensures !Odd(ClearLow(x)) && !Odd(b) && !Odd(c) && !Odd(d) && !Odd(e) && !Odd(f) && !Odd(g) && !Odd(h)
    ensures b == Half(ClearLow(x)) && c == Half(b) && d == Half(c) && e == Half(d) && f == Half(e) && g == Half(f)
    ensures h == Half(g)
    ensures HighBytes(x) == Half(h)
  {
    hide Odd, Half, Clear, ClearLow, HighBytes;
    var a := ClearLow(x);
    Cleared(x);
    EvenStep(a, 0x7F);
    b := Half(a);
    EvenStep(b, 0x3F);
    c := Half(b);
    EvenStep(c, 0x1F);
    d := Half(c);
    EvenStep(d, 0x0F);
    e := Half(d);
    EvenStep(e, 7);
    f := Half(e);
    EvenStep(f, 3);
    g := Half(f);
    EvenStep(g, 1);
    h := Half(g);
    EvenStep(h, 0);
    EightHalves(x);
  }

  lemma EightHalves(x: bv32)
    ensures Half(Half(Half(Half(Half(Half(Half(Half(ClearLow(x))))))))) == HighBytes(x)
  {
    hide Half, ClearLow, HighBytes;
    var a := ClearLow(x);
    FourHalves(a);
    FourHalves(Half(Half(Half(Half(a)))));
    TwoSixteenths(x);
  }

  function Sixteenth(a: bv32): bv32
  {
    a >> 4
  }

  lemma FourHalves(a: bv32)
    ensures Half(Half(Half(Half(a)))) == Sixteenth(a)
  {
  }

  lemma TwoSixteenths(x: bv32)
    ensures Sixteenth(Sixteenth(ClearLow(x))) == HighBytes(x)
  {
  }

  /** Eight shifts of zeros lose nothing. */
  lemma ShiftHigh(x: bv32)
    ensures Shifts(ClearLow(x), 8) == HighBytes(x)
  {
    hide Odd, Half, HighBytes, Shifts, ClearLow;
    var b, c, d, e, f, g, h := Evens(x);
    FourShifts(ClearLow(x), b, c, d, e, 8);
    FourShifts(e, f, g, h, HighBytes(x), 4);
    NoShifts(HighBytes(x));
  }

  lemma FourShifts(a: bv32, b: bv32, c: bv32, d: bv32, e: bv32, n: nat)
    requires !Odd(a) && !Odd(b) && !Odd(c) && !Odd(d) && n >= 4
    requires b == Half(a) && c == Half(b) && d == Half(c) && e == Half(d)
    ensures Shifts(a, n) == Shifts(e, n - 4)
  {
    hide Odd, Half, Mix;
    assert Shifts(a, n) == Shifts(b, n - 1);
    assert Shifts(b, n - 1) == Shifts(c, n - 2);
    assert Shifts(c, n - 2) == Shifts(d, n - 3);
    assert Shifts(d, n - 3) == Shifts(e, n - 4);
  }

  lemma NoShifts(a: bv32)
    ensures Shifts(a, 0) == a
  {
  }

  /** Eight shifts are one table lookup. */
  lemma EightShifts(x: bv32)
    ensures Shifts(x, 8) == Mix(HighBytes(x), Shifts(LowByte(x), 8))
  {
    hide Mix, Shifts, HighBytes, LowByte, ClearLow;
    SplitWord(x);
    ShiftsMix(ClearLow(x), LowByte(x), 8);
    ShiftHigh(x);
  }

  /** A byte as a word. */
  function Octet(b: byte): bv32
  {
    Word(Lsb(b, 8))
  }

  lemma OctetSmall(b: byte)
    ensures Inside(Octet(b), 0xFF)
  {
    hide Inside, Word, Lsb;
    WordFits(Lsb(b, 8));
    EightOnes();
  }

  lemma EightOnes()
    ensures Ones(8) == 0xFF
  {
    SevenOnes();
  }

  lemma HighKept(c: bv32, o: bv32)
    requires Inside(o, 0xFF)
    ensures HighBytes(Mix(c, o)) == HighBytes(c)
  {
  }

  /** One round of the loop over the data. */
  lemma FeedByte(c: bv32, b: byte)
    ensures FeedAll(c, Lsb(b, 8)) == Mix(HighBytes(c), Shifts(LowByte(Mix(c, Octet(b))), 8))
  {
    hide Mix, Shifts, HighBytes, LowByte, Word, Inside, FeedAll, Lsb;
    FeedWord(c, Lsb(b, 8));
    EightShifts(Mix(c, Octet(b)));
    OctetSmall(b);
    HighKept(c, Octet(b));
  }

  /** What `crcTable` holds at index `i`. */
  function Entry(i: int): bv32
    requires 0 <= i < 256
  {
    Shifts(i as bv32, 8)
  }

  lemma EntryOf(x: bv32)
    ensures 0 <= LowByte(x) as int < 256 && Entry(LowByte(x) as int) == Shifts(LowByte(x), 8)
  {
    hide Shifts;
    ByteIndex(x);
  }

  lemma ByteIndex(x: bv32)
    ensures 0 <= LowByte(x) as int < 256 && (LowByte(x) as int) as bv32 == LowByte(x)
  {
  }

  method FillTable() returns (table: seq<bv32>)
    ensures IsTable(table)
  {
    hide Odd, Half, Mix;
    var t := new bv32[256];
    var i := 0;
    while i < 256
      invariant 0 <= i <= 256 && forall k :: 0 <= k < i ==> t[k] == Entry(k)
    {
      var crc := i as bv32;
      var j := 8;
      while j > 0
        invariant 0 <= j <= 8 && Shifts(crc, j) == Entry(i)
      {
        crc := if Odd(crc) then Mix(Half(crc), POLY) else Half(crc);
        j := j - 1;
      }
      t[i] := crc;
      i := i + 1;
    }
    table := t[..];
  }

  /** The table that `crc32` fills, and `crc32_filltable` for gzip.c. */
  ghost predicate IsTable(t: seq<bv32>)
  {
    |t| == 256 && forall i :: 0 <= i < 256 ==> t[i] == Entry(i)
  }

  /** One table step; `updcrc` of gzip.c makes the same one. */
  method LookUp(t: seq<bv32>, crc: bv32, b: byte) returns (r: bv32)
    requires IsTable(t)
    ensures r == FeedAll(crc, Lsb(b, 8))
  {
    hide Mix, Shifts, HighBytes, LowByte, FeedAll, Octet, Entry, Lsb;
    var x := Mix(crc, Octet(b));
    EntryOf(x);
    FeedByte(crc, b);
    var i := LowByte(x) as int;
    r := Mix(HighBytes(crc), t[i]);
  }

  /** `crc32`: the table-driven loop computes the bit-serial checksum. */
  method Crc32(data: seq<byte>, length: int) returns (crc: bv32)
    requires length <= |data|
    ensures crc == Checksum(data[..if length > 0 then length else 0])
  {
    hide Mix, Shifts, HighBytes, LowByte, FeedAll, Octet, Complement, Entry;
    var t := FillTable();
    crc := 0xFFFFFFFF;
    var i := 0;
    EmptyFeed(crc);
    while i < length
      invariant 0 <= i <= (if length > 0 then length else 0)
      invariant crc == FeedAll(0xFFFFFFFF, ByteBits(data[..i]))
    {
      FeedNext(data, i, crc);
      crc := LookUp(t, crc, data[i]);
      i := i + 1;
    }
    crc := Complement(crc);
  }

  lemma EmptyFeed(c: bv32)
    ensures FeedAll(c, ByteBits([])) == c
  {
  }

  lemma FeedTwo(c: bv32, a: seq<byte>, b: seq<byte>)
    ensures FeedAll(c, ByteBits(a + b)) == FeedAll(FeedAll(c, ByteBits(a)), ByteBits(b))
  {
    hide FeedAll, ByteBits;
    ByteBitsAppend(a, b);
    FeedAppend(c, ByteBits(a), ByteBits(b));
  }

  lemma FeedMore(c: bv32, s: seq<byte>)
    requires s != []
    ensures FeedAll(c, ByteBits(s)) == FeedAll(FeedAll(c, ByteBits(s[..|s| - 1])), Lsb(s[|s| - 1], 8))
  {
    hide FeedAll, Lsb;
    var k := |s| - 1;
    assert s == s[..k] + [s[k]];
    FeedTwo(c, s[..k], [s[k]]);
    assert ByteBits([s[k]]) == Lsb(s[k], 8) + ByteBits([]) == Lsb(s[k], 8);
  }

  lemma FeedNext(data: seq<byte>, i: nat, c: bv32)
    requires i < |data| && c == FeedAll(0xFFFFFFFF, ByteBits(data[..i]))
    ensures FeedAll(0xFFFFFFFF, ByteBits(data[..i + 1])) == FeedAll(c, Lsb(data[i], 8))
  {
    hide FeedAll, Lsb, ByteBits;
    assert data[..i + 1][..i] == data[..i];
    FeedMore(0xFFFFFFFF, data[..i + 1]);
  }
}
