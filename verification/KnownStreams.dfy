/** Complete streams with their contents: one block of each kind, and a whole gzip file. */
module KnownStreams {
  import opened Bits
  import opened CanonicalCode
  import opened Inflate
  import opened CodeRules
  import opened Crc
  import opened CrcDivision
  import opened MemberReader

  // ----- reading at a place in a file

  /** Bit `k` of a file: the least significant bit of a byte is its first (section 3.1.1). */
  function BitAt(s: seq<byte>, k: nat): bool
    requires k < 8 * |s|
  {
    var b, i := s[k / 8], k % 8;
    (if i == 0 then b else if i == 1 then b / 2 else if i == 2 then b / 4 else if i == 3 then b / 8
     else if i == 4 then b / 16 else if i == 5 then b / 32 else if i == 6 then b / 64 else b / 128) % 2 == 1
  }

  lemma {:induction false} BitIs(s: seq<byte>, k: nat)
    requires k < 8 * |s|
    ensures ByteBits(s)[k] == BitAt(s, k)
  {
    hide BitAt, Lsb;
    if k < 8 {
      assert ByteBits(s)[k] == Lsb(s[0], 8)[k];
      BitOfFirst(s, k);
    } else {
      BitIs(s[1..], k - 8);
      assert ByteBits(s)[k] == ByteBits(s[1..])[k - 8];
      BitBehind(s, k);
    }
  }

  lemma BitOfFirst(s: seq<byte>, k: nat)
    requires k < 8 && s != []
    ensures BitAt(s, k) == Lsb(s[0], 8)[k]
  {
    EightBits(s[0]);
    assert k / 8 == 0 && k % 8 == k;
  }

  lemma BitBehind(s: seq<byte>, k: nat)
    requires 8 <= k < 8 * |s|
    ensures BitAt(s, k) == BitAt(s[1..], k - 8)
  {
    assert (k - 8) / 8 == k / 8 - 1 && (k - 8) % 8 == k % 8;
  }

  lemma EightBits(b: nat)
    ensures Lsb(b, 8) == [b % 2 == 1, b / 2 % 2 == 1, b / 4 % 2 == 1, b / 8 % 2 == 1,
                          b / 16 % 2 == 1, b / 32 % 2 == 1, b / 64 % 2 == 1, b / 128 % 2 == 1]
  {
    hide Lsb;
    FourOfByte(b, 4);
    FourOfByte(b / 16, 0);
    assert b / 16 / 2 == b / 32 && b / 16 / 4 == b / 64 && b / 16 / 8 == b / 128;
  }

  /** The bits of byte `j`. */
  lemma Octet(s: seq<byte>, j: nat, b: nat)
    requires j < |s| && s[j] == b
    ensures BitAt(s, 8 * j) == (b % 2 == 1) && BitAt(s, 8 * j + 1) == (b / 2 % 2 == 1)
    ensures BitAt(s, 8 * j + 2) == (b / 4 % 2 == 1) && BitAt(s, 8 * j + 3) == (b / 8 % 2 == 1)
    ensures BitAt(s, 8 * j + 4) == (b / 16 % 2 == 1) && BitAt(s, 8 * j + 5) == (b / 32 % 2 == 1)
    ensures BitAt(s, 8 * j + 6) == (b / 64 % 2 == 1) && BitAt(s, 8 * j + 7) == (b / 128 % 2 == 1)
  {
  }

  /** The bits from bit `k` on. */
  function From(s: seq<byte>, k: nat): (r: BitString)
    requires k <= 8 * |s|
    ensures |r| == 8 * |s| - k
  {
    ByteBits(s)[k..]
  }

  /** The `n`-bit number at bit `k`, low bit first. */
  function Field(s: seq<byte>, k: nat, n: nat): nat
    requires k + n <= 8 * |s|
    decreases n
  {
    if n == 0 then 0 else (if BitAt(s, k) then 1 else 0) + 2 * Field(s, k + 1, n - 1)
  }

  /** The `n`-bit number at bit `k`, high bit first. */
  function WordAt(s: seq<byte>, k: nat, n: nat): nat
    requires k + n <= 8 * |s|
  {
    if n == 0 then 0 else 2 * WordAt(s, k, n - 1) + (if BitAt(s, k + n - 1) then 1 else 0)
  }

  /** The last bits of a number. */
  lemma WordEnd(s: seq<byte>, k: nat, n: nat)
    requires k + n <= 8 * |s|
    ensures n >= 1 ==> WordAt(s, k, n) == 2 * WordAt(s, k, n - 1) + (if BitAt(s, k + n - 1) then 1 else 0)
    ensures n >= 2 ==> WordAt(s, k, n - 1) == 2 * WordAt(s, k, n - 2) + (if BitAt(s, k + n - 2) then 1 else 0)
    ensures n >= 3 ==> WordAt(s, k, n - 2) == 2 * WordAt(s, k, n - 3) + (if BitAt(s, k + n - 3) then 1 else 0)
    ensures n >= 4 ==> WordAt(s, k, n - 3) == 2 * WordAt(s, k, n - 4) + (if BitAt(s, k + n - 4) then 1 else 0)
    ensures WordAt(s, k, 0) == 0
  {
    hide BitAt;
  }

  /** The first bits of a number. */
  lemma FieldStart(s: seq<byte>, k: nat, n: nat)
    requires k + n <= 8 * |s|
    ensures n >= 1 ==> Field(s, k, n) == (if BitAt(s, k) then 1 else 0) + 2 * Field(s, k + 1, n - 1)
    ensures n >= 2 ==> Field(s, k + 1, n - 1) == (if BitAt(s, k + 1) then 1 else 0) + 2 * Field(s, k + 2, n - 2)
    ensures n >= 3 ==> Field(s, k + 2, n - 2) == (if BitAt(s, k + 2) then 1 else 0) + 2 * Field(s, k + 3, n - 3)
    ensures n >= 4 ==> Field(s, k + 3, n - 3) == (if BitAt(s, k + 3) then 1 else 0) + 2 * Field(s, k + 4, n - 4)
    ensures Field(s, k + n, 0) == 0
  {
    hide BitAt;
  }

  lemma {:induction false} FieldIs(s: seq<byte>, k: nat, n: nat)
    requires k + n <= 8 * |s|
    ensures Value(From(s, k)[..n]) == Field(s, k, n)
    decreases n
  {
    hide BitAt;
    if n > 0 {
      BitIs(s, k);
      assert From(s, k)[..n][1..] == From(s, k + 1)[..n - 1];
      FieldIs(s, k + 1, n - 1);
    }
  }

  lemma {:induction false} WordIs(s: seq<byte>, k: nat, n: nat)
    requires k + n <= 8 * |s|
    ensures From(s, k)[..n] == Msb(WordAt(s, k, n), n)
  {
    hide BitAt;
    if n > 0 {
      WordIs(s, k, n - 1);
      BitIs(s, k + n - 1);
      assert From(s, k)[..n] == From(s, k)[..n - 1] + [BitAt(s, k + n - 1)];
      var v := WordAt(s, k, n);
      assert v / 2 == WordAt(s, k, n - 1) && (v % 2 == 1) == BitAt(s, k + n - 1);
    }
  }

  lemma TakeAt(s: seq<byte>, k: nat, n: nat)
    requires k + n <= 8 * |s|
    ensures Take(From(s, k), n) == Some((Field(s, k, n), From(s, k + n)))
  {
    hide Field, ByteBits;
    FieldIs(s, k, n);
    assert From(s, k)[n..] == From(s, k + n);
  }

  lemma CodeAt(s: seq<byte>, k: nat, lens: seq<nat>, n: nat)
    requires KraftOk(lens) && n < |lens| && lens[n] >= 1 && k + lens[n] <= 8 * |s|
    requires WordAt(s, k, lens[n]) == CodeOf(lens, n)
    ensures ReadCode(lens, From(s, k)) == Some((n, From(s, k + lens[n])))
  {
    hide Kraft, CodeOf, WordAt, Msb, ByteBits, ReadCode;
    WordIs(s, k, lens[n]);
    ReadCoded(lens, n, From(s, k + lens[n]));
    assert From(s, k) == Codeword(lens, n) + From(s, k + lens[n]);
  }

  lemma EndAt(s: seq<byte>, k: nat, lits: seq<nat>, dists: seq<nat>)
    requires KraftOk(lits) && |lits| > 256 && lits[256] >= 1 && k + lits[256] <= 8 * |s|
    requires WordAt(s, k, lits[256]) == CodeOf(lits, 256)
    ensures ReadTokens(lits, dists, From(s, k)) == Some(([], From(s, k + lits[256])))
  {
    hide KraftOk, CodeOf, WordAt, From, ReadCode;
    CodeAt(s, k, lits, 256);
  }

  lemma LiteralAt(s: seq<byte>, k: nat, lits: seq<nat>, dists: seq<nat>, b: byte, ts: seq<Token>, rest: BitString)
    requires KraftOk(lits) && b < |lits| && lits[b] >= 1 && k + lits[b] <= 8 * |s|
    requires WordAt(s, k, lits[b]) == CodeOf(lits, b)
    requires ReadTokens(lits, dists, From(s, k + lits[b])) == Some((ts, rest))
    ensures ReadTokens(lits, dists, From(s, k)) == Some(([Literal(b)] + ts, rest))
  {
    hide KraftOk, CodeOf, WordAt, From, ReadCode;
    CodeAt(s, k, lits, b);
  }

  /** A match with length code `257 + c` and distance code `d` at bit `k`, up to bit `z`. */
  ghost predicate MatchCodes(s: seq<byte>, k: nat, lits: seq<nat>, dists: seq<nat>, c: nat, d: nat, z: nat)
  {
    && c < 29 && d < 30 && 257 + c < |lits| && d < |dists|
    && 1 <= lits[257 + c] <= MAX_BITS && 1 <= dists[d] <= MAX_BITS
    && z == k + lits[257 + c] + LengthExtra(c) + dists[d] + DistExtra(d) <= 8 * |s|
    && WordAt(s, k, lits[257 + c]) == CodeOf(lits, 257 + c)
    && WordAt(s, k + lits[257 + c] + LengthExtra(c), dists[d]) == CodeOf(dists, d)
  }

  lemma MatchAt(s: seq<byte>, k: nat, lits: seq<nat>, dists: seq<nat>, c: nat, d: nat, z: nat, ts: seq<Token>,
                rest: BitString)
    requires KraftOk(lits) && KraftOk(dists) && MatchCodes(s, k, lits, dists, c, d, z)
    requires ReadTokens(lits, dists, From(s, z)) == Some((ts, rest))
    ensures ReadTokens(lits, dists, From(s, k))
         == Some(([Match(LengthBase(c) + Field(s, k + lits[257 + c], LengthExtra(c)),
                         DistBase(d) + Field(s, z - DistExtra(d), DistExtra(d)))] + ts, rest))
  {
    hide KraftOk, CodeOf, WordAt, From, ReadCode, Field, LengthExtra, LengthBase, DistExtra, DistBase, Take;
    var l, e, w, x := lits[257 + c], LengthExtra(c), dists[d], DistExtra(d);
    CodeAt(s, k, lits, 257 + c);
    TakeAt(s, k + l, e);
    CodeAt(s, k + l + e, dists, d);
    TakeAt(s, k + l + e + w, x);
  }

  /** A stream of one final block with the fixed codes. */
  lemma FinalFixed(bits: BitString, body: BitString, ts: seq<Token>, rest: BitString, text: seq<byte>)
    requires Take(bits, 3) == Some((3, body)) && Expand([], ts) == Some(text)
    requires ReadTokens(FixedLiteral(), FixedDistance(), body) == Some((ts, rest))
    ensures InflateStream(bits) == Some((text, rest))
  {
    hide Take, Expand, ReadTokens, FixedLiteral, FixedDistance;
    assert ReadFixed(body) == Some((Compressed(ts), rest));
    assert ReadBlock(bits, 0) == Some((true, Compressed(ts), rest));
  }

  // ----- a block of each kind

  /** 4B 84 03 00: a final block of fixed codes, the literal "a" and a match of length 9 at distance 1. */
  lemma KnownFixed()
    ensures InflateStream(ByteBits([0x4B, 0x84, 0x03, 0x00]))
         == Some(([97, 97, 97, 97, 97, 97, 97, 97, 97, 97], [false, false]))
  {
    hide InflateStream, KraftOk, CodeOf, ReadTokens, From, Take, FixedLiteral, FixedDistance, Expand, Field, ByteBits;
    var s: seq<byte> := [0x4B, 0x84, 0x03, 0x00];
    KnownFixedTokens(s);
    TakeAt(s, 0, 3);
    KnownFixedEnds(s);
    RunOfBytes(97, 9);
    assert seq(10, _ => 97) == [97, 97, 97, 97, 97, 97, 97, 97, 97, 97];
    FinalFixed(ByteBits(s), From(s, 3), [Literal(97), Match(9, 1)], From(s, 30), seq(10, _ => 97));
  }

  /** A literal and a match at distance 1: a run of one byte. */
  lemma RunOfBytes(b: byte, n: nat)
    ensures Expand([], [Literal(b), Match(n, 1)]) == Some(seq(1 + n, _ => b))
  {
    hide Copy;
    var ts := [Literal(b), Match(n, 1)];
    var none: seq<byte> := [];
    assert ts[1..] == [Match(n, 1)] && ts[1..][1..] == [];
    assert none + [b] == seq(1, _ => b);
    assert Apply(none, ts[0]) == Some(seq(1, _ => b));
    Copies(b, 1, n);
    assert Expand(Copy(seq(1, _ => b), n, 1), ts[1..][1..]) == Some(Copy(seq(1, _ => b), n, 1));
    assert Expand(seq(1, _ => b), ts[1..]) == Some(Copy(seq(1, _ => b), n, 1));
  }

  /** A match at distance 1 goes on with the last byte. */
  lemma {:induction false} Copies(b: byte, n: nat, m: nat)
    requires n >= 1
    ensures Copy(seq(n, _ => b), m, 1) == seq(n + m, _ => b)
    decreases m
  {
    if m > 0 {
      assert seq(n, _ => b) + [b] == seq(n + 1, _ => b);
      Copies(b, n + 1, m - 1);
    }
  }

  lemma KnownFixedEnds(s: seq<byte>)
    requires s == [0x4B, 0x84, 0x03, 0x00]
    ensures Field(s, 0, 3) == 3 && From(s, 0) == ByteBits(s) && From(s, 30) == [false, false]
  {
    hide ByteBits, BitAt, Field;
    Octet(s, 0, 75);
    Octet(s, 3, 0);
    BitIs(s, 30);
    BitIs(s, 31);
    FieldStart(s, 0, 3);
  }

  lemma KnownFixedWords(s: seq<byte>)
    requires s == [0x4B, 0x84, 0x03, 0x00]
    ensures WordAt(s, 3, 8) == 145 && WordAt(s, 11, 7) == 7 && WordAt(s, 18, 5) == 0 && WordAt(s, 23, 7) == 0
  {
    hide WordAt, BitAt;
    Octet(s, 0, 75);
    Octet(s, 1, 132);
    Octet(s, 2, 3);
    WordEnd(s, 3, 4);
    WordEnd(s, 3, 8);
    WordEnd(s, 11, 4);
    WordEnd(s, 11, 7);
    KnownFixedLast(s);
  }

  lemma KnownFixedLast(s: seq<byte>)
    requires s == [0x4B, 0x84, 0x03, 0x00]
    ensures WordAt(s, 18, 5) == 0 && WordAt(s, 23, 7) == 0
  {
    hide WordAt, BitAt;
    Octet(s, 2, 3);
    Octet(s, 3, 0);
    WordEnd(s, 18, 4);
    WordEnd(s, 18, 5);
    WordEnd(s, 23, 4);
    WordEnd(s, 23, 7);
  }

  lemma KnownFixedTokens(s: seq<byte>)
    requires s == [0x4B, 0x84, 0x03, 0x00]
    ensures ReadTokens(FixedLiteral(), FixedDistance(), From(s, 3)) == Some(([Literal(97), Match(9, 1)], From(s, 30)))
  {
    hide KraftOk, CodeOf, ReadTokens, From, WordAt, FixedLiteral, FixedDistance, BitAt;
    var lits, dists := FixedLiteral(), FixedDistance();
    FixedFits();
    FixedDistanceFits();
    FixedDistances(0);
    FixedCodes(97);
    FixedCodes(263);
    FixedCodes(256);
    KnownFixedWords(s);
    EndAt(s, 23, lits, dists);
    assert MatchCodes(s, 11, lits, dists, 6, 0, 23);
    MatchAt(s, 11, lits, dists, 6, 0, 23, [], From(s, 30));
    assert [Match(9, 1)] + [] == [Match(9, 1)];
    LiteralAt(s, 3, lits, dists, 97, [Match(9, 1)], From(s, 30));
    assert [Literal(97)] + [Match(9, 1)] == [Literal(97), Match(9, 1)];
  }

  /** 01 05 00 FA FF and five bytes: a final stored block. */
  lemma KnownStored()
    ensures InflateStream(ByteBits([0x01, 0x05, 0x00, 0xFA, 0xFF, 104, 101, 108, 108, 111]))
         == Some(([104, 101, 108, 108, 111], []))
  {
    hide Pow2, From, Take, Field, ByteBits, ReadBytes;
    var s: seq<byte> := [0x01, 0x05, 0x00, 0xFA, 0xFF, 104, 101, 108, 108, 111];
    KnownStoredEnds(s);
    TakeAt(s, 0, 3);
    TakeAt(s, 3, 5);
    TakeAt(s, 8, 16);
    TakeAt(s, 24, 16);
    BytesAt(s, 5);
    assert s[5..] == [104, 101, 108, 108, 111];
    assert ReadStored(From(s, 3), 3) == Some((Stored([104, 101, 108, 108, 111]), []));
    assert ApplyBlock([], Stored(s[5..])) == Some([] + s[5..]);
    assert [] + s[5..] == s[5..];
  }

  lemma KnownStoredEnds(s: seq<byte>)
    requires s == [0x01, 0x05, 0x00, 0xFA, 0xFF, 104, 101, 108, 108, 111]
    ensures From(s, 0) == ByteBits(s) && Field(s, 0, 3) == 1 && Field(s, 8, 16) == 5 && Field(s, 24, 16) == 65530
  {
    hide ByteBits, Field, BitAt;
    Octet(s, 0, 1);
    FieldStart(s, 0, 3);
    PairField(s, 1, 5, 0);
    PairField(s, 3, 250, 255);
  }

  /** Two bytes are a number, the low one first. */
  lemma PairField(s: seq<byte>, j: nat, lo: nat, hi: nat)
    requires j + 2 <= |s| && s[j] == lo && s[j + 1] == hi
    ensures Field(s, 8 * j, 16) == lo + 256 * hi
  {
    hide Field, BitAt, Lsb, Pow2;
    ByteBitsAppend(s[..j], s[j..]);
    ByteBitsAppend([s[j], s[j + 1]], s[j + 2..]);
    assert s == s[..j] + s[j..] && s[j..] == [s[j], s[j + 1]] + s[j + 2..];
    var w := lo + 256 * hi;
    assert w % 256 == lo && w / 256 == hi;
    WordBits(w);
    assert From(s, 8 * j)[..16] == Lsb(w, 16);
    Pow2Small();
    ValueLsb(w, 16);
    FieldIs(s, 8 * j, 16);
  }

  /** The bytes from byte `j` on. */
  lemma BytesAt(s: seq<byte>, j: nat)
    requires j <= |s|
    ensures ReadBytes(From(s, 8 * j), |s| - j) == Some((s[j..], []))
  {
    hide ReadBytes;
    ByteBitsAppend(s[..j], s[j..]);
    assert s == s[..j] + s[j..];
    assert From(s, 8 * j) == ByteBits(s[j..]) + [];
    ReadWrittenBytes(s[j..], []);
  }

  // ----- a block of dynamic codes

  /** Some lengths of the code length alphabet, read in their order. */
  lemma {:induction false} OrderAt(s: seq<byte>, k: nat, i: nat, n: nat, cl: seq<nat>, now: seq<nat>)
    requires i <= n <= 19 && k + 3 * n <= 8 * |s| && |cl| == |now| == 19
    requires forall j :: 0 <= j < n ==> cl[OrderOf(j)] == Field(s, k + 3 * j, 3)
    requires forall j :: 0 <= j < i || n <= j < 19 ==> now[OrderOf(j)] == cl[OrderOf(j)]
    ensures ReadOrder(From(s, k + 3 * i), i, n, now) == Some((cl, From(s, k + 3 * n)))
    decreases n - i
  {
    hide OrderOf, From, Field, Take;
    if i == n {
      forall v | 0 <= v < 19
        ensures now[v] == cl[v]
      {
        PlaceOf(v);
      }
      assert now == cl;
    } else {
      TakeAt(s, k + 3 * i, 3);
      assert k + 3 * i + 3 == k + 3 * (i + 1);
      OrderAt(s, k, i + 1, n, cl, now[OrderOf(i) := Field(s, k + 3 * i, 3)]);
    }
  }

  /** Every length has its place in the order. */
  lemma PlaceOf(v: nat)
    requires v < 19
    ensures exists j :: 0 <= j < 19 && OrderOf(j) == v
  {
    var j := if v == 0 then 3 else if v >= 16 then v - 16 else if v >= 8 then 2 * v - 12 else 19 - 2 * v;
    assert OrderOf(j) == v;
  }

  /** A code length as it is. */
  lemma PlainAt(s: seq<byte>, k: nat, cl: seq<nat>, v: nat, known: seq<nat>, total: nat)
    requires KraftOk(cl) && |cl| == 19 && v <= 15 && cl[v] >= 1 && k + cl[v] <= 8 * |s|
    requires WordAt(s, k, cl[v]) == CodeOf(cl, v) && |known| < total
    ensures ReadLengths(cl, From(s, k), known, total) == ReadLengths(cl, From(s, k + cl[v]), known + [v], total)
  {
    hide KraftOk, CodeOf, WordAt, From, ReadCode;
    CodeAt(s, k, cl, v);
  }

  /** What a repeat code appends. */
  function RunOf(v: nat, x: nat, known: seq<nat>): seq<nat>
    requires 16 <= v <= 18 && (v == 16 ==> known != [])
  {
    if v == 16 then seq(3 + x, _ => known[|known| - 1]) else seq((if v == 17 then 3 else 11) + x, _ => 0)
  }

  function RunWidth(v: nat): nat
    requires 16 <= v <= 18
  {
    if v == 16 then 2 else if v == 17 then 3 else 7
  }

  /** A repeat of a code length. */
  lemma RunAt(s: seq<byte>, k: nat, cl: seq<nat>, v: nat, known: seq<nat>, total: nat, x: nat, z: nat)
    requires KraftOk(cl) && |cl| == 19 && 16 <= v <= 18 && cl[v] >= 1 && z == k + cl[v] + RunWidth(v) <= 8 * |s|
    requires WordAt(s, k, cl[v]) == CodeOf(cl, v) && Field(s, k + cl[v], RunWidth(v)) == x
    requires |known| < total && (v == 16 ==> known != [])
    ensures ReadLengths(cl, From(s, k), known, total) == ReadLengths(cl, From(s, z), known + RunOf(v, x, known), total)
  {
    hide KraftOk, CodeOf, WordAt, From, ReadCode, Take, Field;
    CodeAt(s, k, cl, v);
    TakeAt(s, k + cl[v], RunWidth(v));
    assert Repeat(0, 3 + x) == seq(3 + x, _ => 0) && Repeat(0, 11 + x) == seq(11 + x, _ => 0);
    if v == 16 {
      assert Repeat(known[|known| - 1], 3 + x) == seq(3 + x, _ => known[|known| - 1]);
    }
  }

  /** The example: lengths of the code length alphabet, of the literals and lengths, and of the distances. */
  function ExampleOrder(): (r: seq<nat>)
    ensures |r| == 19
  {
    seq(19, v => if v == 1 || v == 17 || v == 18 then 2 else if v == 2 || v == 16 then 3 else 0)
  }

  function ExampleLengths(): (r: seq<nat>)
    ensures |r| == 262
  {
    seq(262, n => if n == 97 then 1 else if n >= 256 then 2 else 0)
  }

  function ExampleLiterals(): (r: seq<nat>)
    ensures |r| == 258
  {
    seq(258, n => if n == 97 then 1 else if n >= 256 then 2 else 0)
  }

  function ExampleDistances(): (r: seq<nat>)
    ensures |r| == 4
  {
    seq(4, _ => 2)
  }

  lemma ExampleOrderCodes()
    ensures var cl := ExampleOrder();
      KraftOk(cl) && CodeOf(cl, 1) == 0 && CodeOf(cl, 17) == 1 && CodeOf(cl, 18) == 2 && CodeOf(cl, 2) == 6
      && CodeOf(cl, 16) == 7
  {
    hide CodeOf, KraftOk, Pow2, Shl;
    var cl := ExampleOrder();
    FirstIsZero(cl, 1);
    SuccessiveCodes(cl, 1, 17);
    SuccessiveCodes(cl, 17, 18);
    NextLength(cl, 18, 2);
    Twice(3);
    SuccessiveCodes(cl, 2, 16);
    Pow2Small();
    FitsByLast(cl, 16);
  }

  lemma ExampleLiteralCodes()
    ensures var lits := ExampleLiterals();
      KraftOk(lits) && CodeOf(lits, 97) == 0 && CodeOf(lits, 256) == 2 && CodeOf(lits, 257) == 3
  {
    hide CodeOf, KraftOk, Pow2, Shl;
    var lits := ExampleLiterals();
    FirstIsZero(lits, 97);
    NextLength(lits, 97, 256);
    Twice(1);
    SuccessiveCodes(lits, 256, 257);
    Pow2Small();
    FitsByLast(lits, 257);
  }

  lemma ExampleDistanceCodes()
    ensures KraftOk(ExampleDistances()) && CodeOf(ExampleDistances(), 0) == 0
  {
    hide CodeOf, KraftOk, Pow2, Shl;
    var d := ExampleDistances();
    FirstIsZero(d, 0);
    SuccessiveCodes(d, 0, 1);
    SuccessiveCodes(d, 1, 2);
    SuccessiveCodes(d, 2, 3);
    Pow2Small();
    FitsByLast(d, 3);
  }

  const EXAMPLE: seq<byte> := [13, 195, 39, 1, 0, 0, 0, 192, 160, 172, 244, 247, 126, 215, 4]

  lemma ExampleHeader()
    ensures Field(EXAMPLE, 0, 3) == 5 && Field(EXAMPLE, 3, 5) == 1 && Field(EXAMPLE, 8, 5) == 3
         && Field(EXAMPLE, 13, 4) == 14
  {
    hide Field, BitAt;
    var s := EXAMPLE;
    Octet(s, 0, 13);
    Octet(s, 1, 195);
    Octet(s, 2, 39);
    FieldStart(s, 0, 3);
    FieldStart(s, 3, 5);
    FieldStart(s, 7, 1);
    FieldStart(s, 8, 5);
    FieldStart(s, 12, 1);
    FieldStart(s, 13, 4);
  }

  lemma ExampleFirstFields()
    ensures var s := EXAMPLE;
      && Field(s, 17, 3) == 3 && Field(s, 20, 3) == 2 && Field(s, 23, 3) == 2 && Field(s, 26, 3) == 0
      && Field(s, 29, 3) == 0 && Field(s, 32, 3) == 0 && Field(s, 35, 3) == 0 && Field(s, 38, 3) == 0
      && Field(s, 41, 3) == 0
  {
    hide Field, BitAt;
    var s := EXAMPLE;
    Octet(s, 2, 39);
    Octet(s, 3, 1);
    Octet(s, 4, 0);
    Octet(s, 5, 0);
    FieldStart(s, 17, 3);
    FieldStart(s, 20, 3);
    FieldStart(s, 23, 3);
    FieldStart(s, 26, 3);
    FieldStart(s, 29, 3);
    FieldStart(s, 32, 3);
    FieldStart(s, 35, 3);
    FieldStart(s, 38, 3);
    FieldStart(s, 41, 3);
  }

  lemma ExampleLastFields()
    ensures var s := EXAMPLE;
      && Field(s, 44, 3) == 0 && Field(s, 47, 3) == 0 && Field(s, 50, 3) == 0 && Field(s, 53, 3) == 0
      && Field(s, 56, 3) == 0 && Field(s, 59, 3) == 0 && Field(s, 62, 3) == 3 && Field(s, 65, 3) == 0
      && Field(s, 68, 3) == 2
  {
    hide Field, BitAt;
    var s := EXAMPLE;
    Octet(s, 5, 0);
    Octet(s, 6, 0);
    Octet(s, 7, 192);
    Octet(s, 8, 160);
    FieldStart(s, 44, 3);
    FieldStart(s, 47, 3);
    FieldStart(s, 50, 3);
    FieldStart(s, 53, 3);
    FieldStart(s, 56, 3);
    FieldStart(s, 59, 3);
    FieldStart(s, 62, 3);
    FieldStart(s, 65, 3);
    FieldStart(s, 68, 3);
  }

  lemma ExampleWords()
    ensures var s := EXAMPLE;
      && WordAt(s, 71, 2) == 2 && WordAt(s, 80, 2) == 0 && WordAt(s, 82, 2) == 2 && WordAt(s, 91, 2) == 1
      && WordAt(s, 96, 2) == 1 && WordAt(s, 101, 3) == 6 && WordAt(s, 104, 3) == 7
  {
    hide WordAt, BitAt;
    var s := EXAMPLE;
    Octet(s, 8, 160);
    Octet(s, 9, 172);
    Octet(s, 10, 244);
    Octet(s, 11, 247);
    Octet(s, 12, 126);
    Octet(s, 13, 215);
    WordEnd(s, 71, 2);
    WordEnd(s, 80, 2);
    WordEnd(s, 82, 2);
    WordEnd(s, 91, 2);
    WordEnd(s, 96, 2);
    WordEnd(s, 101, 3);
    WordEnd(s, 104, 3);
  }

  lemma ExampleRuns()
    ensures var s := EXAMPLE;
      && Field(s, 73, 7) == 86 && Field(s, 84, 7) == 127 && Field(s, 93, 3) == 7 && Field(s, 98, 3) == 7
      && Field(s, 107, 2) == 2
  {
    hide Field, BitAt;
    var s := EXAMPLE;
    Octet(s, 9, 172);
    Octet(s, 10, 244);
    Octet(s, 11, 247);
    Octet(s, 12, 126);
    Octet(s, 13, 215);
    FieldStart(s, 73, 7);
    FieldStart(s, 77, 3);
    FieldStart(s, 84, 7);
    FieldStart(s, 88, 3);
    FieldStart(s, 93, 3);
    FieldStart(s, 98, 3);
    FieldStart(s, 107, 2);
  }

  lemma ExampleData()
    ensures var s := EXAMPLE;
      && WordAt(s, 109, 1) == 0 && WordAt(s, 110, 2) == 3 && WordAt(s, 112, 2) == 0 && WordAt(s, 114, 2) == 2
      && From(s, 116) == [false, false, false, false]
  {
    hide WordAt, BitAt, ByteBits;
    var s := EXAMPLE;
    Octet(s, 13, 215);
    Octet(s, 14, 4);
    WordEnd(s, 109, 1);
    WordEnd(s, 110, 2);
    WordEnd(s, 112, 2);
    WordEnd(s, 114, 2);
    BitIs(s, 116);
    BitIs(s, 117);
    BitIs(s, 118);
    BitIs(s, 119);
  }

  lemma ExampleReadOrder()
    ensures ReadOrder(From(EXAMPLE, 17), 0, 18, Repeat(0, 19)) == Some((ExampleOrder(), From(EXAMPLE, 71)))
  {
    hide Field, From, ReadOrder;
    ExampleFirstFields();
    ExampleLastFields();
    OrderAt(EXAMPLE, 17, 0, 18, ExampleOrder(), Repeat(0, 19));
  }

  /** The 262 lengths that the run-length operations of the example spell out. */
  lemma ExampleReadLengths()
    ensures ReadLengths(ExampleOrder(), From(EXAMPLE, 71), [], 262) == Some((ExampleLengths(), From(EXAMPLE, 109)))
  {
    hide CodeOf, KraftOk, WordAt, Field, From, ReadLengths, ReadLength;
    var s, cl, all := EXAMPLE, ExampleOrder(), ExampleLengths();
    ExampleOrderCodes();
    ExampleWords();
    ExampleRuns();
    RunAt(s, 71, cl, 18, [], 262, 86, 80);
    assert [] + RunOf(18, 86, []) == all[..97];
    PlainAt(s, 80, cl, 1, all[..97], 262);
    assert all[..97] + [1] == all[..98];
    RunAt(s, 82, cl, 18, all[..98], 262, 127, 91);
    assert all[..98] + RunOf(18, 127, all[..98]) == all[..236];
    RunAt(s, 91, cl, 17, all[..236], 262, 7, 96);
    assert all[..236] + RunOf(17, 7, all[..236]) == all[..246];
    RunAt(s, 96, cl, 17, all[..246], 262, 7, 101);
    assert all[..246] + RunOf(17, 7, all[..246]) == all[..256];
    ExampleLastLengths();
  }

  lemma ExampleLastLengths()
    ensures ReadLengths(ExampleOrder(), From(EXAMPLE, 101), ExampleLengths()[..256], 262)
         == Some((ExampleLengths(), From(EXAMPLE, 109)))
  {
    hide CodeOf, KraftOk, WordAt, Field, From, ReadLength;
    var s, cl, all := EXAMPLE, ExampleOrder(), ExampleLengths();
    ExampleOrderCodes();
    ExampleWords();
    ExampleRuns();
    PlainAt(s, 101, cl, 2, all[..256], 262);
    assert all[..256] + [2] == all[..257];
    RunAt(s, 104, cl, 16, all[..257], 262, 2, 109);
    assert all[..257] + RunOf(16, 2, all[..257]) == all;
  }

  lemma ExampleReadTokens()
    ensures ReadTokens(ExampleLiterals(), ExampleDistances(), From(EXAMPLE, 109))
         == Some(([Literal(97), Match(3, 1)], [false, false, false, false]))
  {
    hide CodeOf, KraftOk, WordAt, From, ReadTokens;
    var s, lits, dists := EXAMPLE, ExampleLiterals(), ExampleDistances();
    ExampleLiteralCodes();
    ExampleDistanceCodes();
    ExampleData();
    EndAt(s, 114, lits, dists);
    assert MatchCodes(s, 110, lits, dists, 0, 0, 114);
    MatchAt(s, 110, lits, dists, 0, 0, 114, [], From(s, 116));
    assert [Match(3, 1)] + [] == [Match(3, 1)];
    LiteralAt(s, 109, lits, dists, 97, [Match(3, 1)], From(s, 116));
    assert [Literal(97)] + [Match(3, 1)] == [Literal(97), Match(3, 1)];
  }

  /**
   * 0D C3 27 01 00 00 00 C0 A0 AC F4 F7 7E D7 04: a final block of dynamic codes with all three repeat codes, the
   * literal "a" and a match of length 3 at distance 1.
   */
  lemma KnownDynamic()
    ensures InflateStream(ByteBits([0x0D, 0xC3, 0x27, 0x01, 0x00, 0x00, 0x00, 0xC0, 0xA0, 0xAC, 0xF4, 0xF7, 0x7E, 0xD7,
                                    0x04]))
         == Some(([97, 97, 97, 97], [false, false, false, false]))
  {
    hide From, Take, Field, ReadTokens, ReadTrees, Expand, ByteBits;
    var s := EXAMPLE;
    assert s == [0x0D, 0xC3, 0x27, 0x01, 0x00, 0x00, 0x00, 0xC0, 0xA0, 0xAC, 0xF4, 0xF7, 0x7E, 0xD7, 0x04];
    ExampleHeader();
    FromStart(s);
    TakeAt(s, 0, 3);
    ExampleReadTrees();
    ExampleReadTokens();
    RunOfBytes(97, 3);
    assert seq(4, _ => 97) == [97, 97, 97, 97];
  }

  lemma FromStart(s: seq<byte>)
    ensures From(s, 0) == ByteBits(s)
  {
  }

  lemma ExampleReadTrees()
    ensures ReadTrees(From(EXAMPLE, 3)) == Some((ExampleLiterals(), ExampleDistances(), From(EXAMPLE, 109)))
  {
    hide From, Take, Field, ReadOrder, ReadLengths;
    var s := EXAMPLE;
    ExampleHeader();
    TakeAt(s, 3, 5);
    TakeAt(s, 8, 5);
    TakeAt(s, 13, 4);
    ExampleReadOrder();
    ExampleReadLengths();
    assert ExampleLengths()[..258] == ExampleLiterals() && ExampleLengths()[258..] == ExampleDistances();
  }

  // ----- a whole file

  const LETTER: seq<byte> :=
    [0x1F, 0x8B, 0x08, 0x00, 0x00, 0x00, 0x00, 0x00, 0x02, 0x03, 0x4B, 0x04, 0x00, 0x43, 0xBE, 0xB7, 0xE8,
     0x01, 0x00, 0x00, 0x00]

  lemma LetterChecksum()
    ensures CrcOf([97]) == 0xE8B7BE43
  {
    hide FeedAll, Lsb, ByteBits, CrcOf;
    var d: seq<byte> := [97];
    assert d[0..] == d && d[1..] == [];
    LetterFed();
    OctetAt(0xFFFFFFFF, d, 0);
    NoOctets(0x174841BC);
    ChecksumIsDivision(d);
  }

  lemma LetterFed()
    ensures FeedAll(0xFFFFFFFF, Lsb(97, 8)) == 0x174841BC
  {
    hide FeedAll, Lsb;
    FeedOctet(0xFFFFFFFF, 97);
  }

  lemma LetterBits(s: seq<byte>)
    requires |s| >= 3 && s[0] == 0x4B && s[1] == 0x04 && s[2] == 0x00
    ensures Field(s, 0, 3) == 3 && WordAt(s, 3, 8) == 145 && WordAt(s, 11, 7) == 0
  {
    hide Field, WordAt, BitAt;
    Octet(s, 0, 0x4B);
    Octet(s, 1, 0x04);
    Octet(s, 2, 0x00);
    FieldStart(s, 0, 3);
    WordEnd(s, 3, 4);
    WordEnd(s, 3, 8);
    WordEnd(s, 11, 4);
    WordEnd(s, 11, 7);
  }

  /** 4B 04 00, whatever follows: the literal "a" in 18 bits. */
  lemma KnownLetter(s: seq<byte>)
    requires |s| >= 3 && s[0] == 0x4B && s[1] == 0x04 && s[2] == 0x00
    ensures InflateStream(ByteBits(s)) == Some(([97], From(s, 18)))
  {
    hide InflateStream, From, Take, FixedLiteral, FixedDistance, Field, ByteBits, ReadTokens, Expand;
    LetterBits(s);
    FromStart(s);
    TakeAt(s, 0, 3);
    LetterTokens(s);
    OneLetter();
    FinalFixed(ByteBits(s), From(s, 3), [Literal(97)], From(s, 18), [97]);
  }

  lemma LetterTokens(s: seq<byte>)
    requires |s| >= 3 && s[0] == 0x4B && s[1] == 0x04 && s[2] == 0x00
    ensures ReadTokens(FixedLiteral(), FixedDistance(), From(s, 3)) == Some(([Literal(97)], From(s, 18)))
  {
    hide KraftOk, CodeOf, ReadTokens, From, FixedLiteral, FixedDistance, WordAt;
    var lits, dists := FixedLiteral(), FixedDistance();
    LetterBits(s);
    FixedFits();
    FixedCodes(97);
    FixedCodes(256);
    EndAt(s, 11, lits, dists);
    LiteralAt(s, 3, lits, dists, 97, [], From(s, 18));
    assert [Literal(97)] + [] == [Literal(97)];
  }

  lemma OneLetter()
    ensures Expand([], [Literal(97)]) == Some([97])
  {
    var none: seq<byte> := [];
    assert none + [97] == [97];
    assert [Literal(97)][1..] == [];
  }

  /** A file that ends behind its one member. */
  lemma OneMember(file: seq<byte>, text: seq<byte>, rest: BitString)
    requires |file| >= 18 && file[0] == 0x1F && file[1] == 0x8B && file[2] == 8 && file[3] == 0
    requires InflateStream(ByteBits(file[10..])) == Some((text, rest)) && |rest| / 8 == 8
    requires var tail := file[|file| - 8..]; Number(tail[..4]) == CrcOf(text) && Number(tail[4..8]) == |text|
    requires |text| < 0x1_0000_0000
    ensures ReadMember(file) == Some((Member(Number(file[4..8]), file[8], file[9], text), []))
  {
    hide InflateStream, CrcOf, ByteBits, Number;
    assert file[|file| - 8..][8..] == [];
  }

  /** The gzip file of the one byte "a". */
  lemma KnownMember()
    ensures ReadMember(LETTER) == Some((Member(0, 2, 3, [97]), []))
  {
    hide InflateStream, CrcOf, ByteBits, Number, ReadMember, From;
    var s := LETTER[10..];
    assert |s| == 11 && s[0] == 0x4B && s[1] == 0x04 && s[2] == 0x00;
    KnownLetter(s);
    LetterChecksum();
    LetterNumbers();
    assert |LETTER| - 8 == 13;
    OneMember(LETTER, [97], From(s, 18));
  }

  lemma LetterNumbers()
    ensures Number(LETTER[4..8]) == 0
    ensures Number(LETTER[13..][..4]) == 0xE8B7BE43 && Number(LETTER[13..][4..8]) == 1
  {
    FourBytes(LETTER[4..8]);
    FourBytes(LETTER[13..][..4]);
    FourBytes(LETTER[13..][4..8]);
  }
}
