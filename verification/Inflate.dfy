/** A reference decoder for RFC 1951, written from the standard and independent of the compressor. */
module Inflate {
  import opened Bits
  import opened CanonicalCode
  import opened BitWriter

  /** A literal byte, or a copy of `length` bytes from `dist` bytes back. */
  datatype Token = Literal(lit: byte) | Match(length: nat, dist: nat)

  /** What one block says: bytes stored as they are, or tokens. */
  datatype Block = Stored(bytes: seq<byte>) | Compressed(tokens: seq<Token>)

  const END_BLOCK := 256

  // ----- the tables of section 3.2.5

  const LENGTH_BASE: seq<nat> :=
    [3, 4, 5, 6, 7, 8, 9, 10, 11, 13, 15, 17, 19, 23, 27, 31, 35, 43, 51, 59, 67, 83, 99, 115, 131, 163, 195, 227, 258]
  const LENGTH_EXTRA: seq<nat> :=
    [0, 0, 0, 0, 0, 0, 0, 0, 1, 1, 1, 1, 2, 2, 2, 2, 3, 3, 3, 3, 4, 4, 4, 4, 5, 5, 5, 5, 0]
  const DIST_BASE: seq<nat> :=
    [1, 2, 3, 4, 5, 7, 9, 13, 17, 25, 33, 49, 65, 97, 129, 193, 257, 385, 513, 769, 1025, 1537, 2049, 3073,
     4097, 6145, 8193, 12289, 16385, 24577]
  const DIST_EXTRA: seq<nat> :=
    [0, 0, 0, 0, 1, 1, 2, 2, 3, 3, 4, 4, 5, 5, 6, 6, 7, 7, 8, 8, 9, 9, 10, 10, 11, 11, 12, 12, 13, 13]

  function LengthBase(c: nat): nat
    requires c < 29
  {
    LENGTH_BASE[c]
  }

  function LengthExtra(c: nat): nat
    requires c < 29
  {
    LENGTH_EXTRA[c]
  }

  function DistBase(c: nat): nat
    requires c < 30
  {
    DIST_BASE[c]
  }

  function DistExtra(c: nat): nat
    requires c < 30
  {
    DIST_EXTRA[c]
  }

  /** The order in which the code lengths of the code length alphabet are sent (section 3.2.7). */
  const CL_ORDER: seq<nat> := [16, 17, 18, 0, 8, 7, 9, 6, 10, 5, 11, 4, 12, 3, 13, 2, 14, 1, 15]

  function OrderOf(i: nat): (r: nat)
    requires i < 19
    ensures r < 19
  {
    CL_ORDER[i]
  }

  /** The fixed codes of section 3.2.6. */
  function FixedLiteral(): (r: seq<nat>)
    ensures |r| == 288
  {
    seq(288, n => if n < 144 then 8 else if n < 256 then 9 else if n < 280 then 7 else 8)
  }

  function FixedDistance(): (r: seq<nat>)
    ensures |r| == 30
  {
    seq(30, _ => 5)
  }

  // ----- tokens and what they stand for

  /** Copy byte by byte, so that the source may overlap what is being written. */
  function Copy(out: seq<byte>, length: nat, dist: nat): (r: seq<byte>)
    requires 1 <= dist <= |out|
    ensures |r| == |out| + length && out <= r
    decreases length
  {
    if length == 0 then out else Copy(out + [out[|out| - dist]], length - 1, dist)
  }

  function Apply(out: seq<byte>, t: Token): Option<seq<byte>>
  {
    match t
    case Literal(b) => Some(out + [b])
    case Match(length, dist) => if 1 <= dist <= |out| then Some(Copy(out, length, dist)) else None
  }

  function Expand(out: seq<byte>, ts: seq<Token>): Option<seq<byte>>
    decreases |ts|
  {
    if ts == [] then Some(out)
    else
      match Apply(out, ts[0])
      case None => None
      case Some(out') => Expand(out', ts[1..])
  }

  // ----- reading

  /** Read an `n`-bit number, low bit first. */
  function Take(bits: BitString, n: nat): (r: Option<(nat, BitString)>)
    ensures r.Some? ==> |r.value.1| == |bits| - n
  {
    if |bits| < n then None else Some((Value(bits[..n]), bits[n..]))
  }

  function ReadCode(lens: seq<nat>, bits: BitString): (r: Option<(nat, BitString)>)
    ensures r.Some? ==> |r.value.1| < |bits|
  {
    FoundSymbol(lens, bits, 0);
    ReadSymbol(lens, bits)
  }

  /** A distance code and its extra bits. */
  function ReadDistance(dists: seq<nat>, bits: BitString): (r: Option<(nat, BitString)>)
    ensures r.Some? ==> |r.value.1| < |bits|
  {
    match ReadCode(dists, bits)
    case None => None
    case Some((s, rest)) =>
      if s >= 30 then None
      else
        match Take(rest, DistExtra(s))
        case None => None
        case Some((x, rest')) => Some((DistBase(s) + x, rest'))
  }

  /** The rest of a match whose length code is `s`. */
  function ReadMatch(dists: seq<nat>, s: nat, bits: BitString): (r: Option<(Token, BitString)>)
    requires s < 29
    ensures r.Some? ==> |r.value.1| < |bits|
  {
    match Take(bits, LengthExtra(s))
    case None => None
    case Some((x, rest)) =>
      match ReadDistance(dists, rest)
      case None => None
      case Some((d, rest')) => Some((Match(LengthBase(s) + x, d), rest'))
  }

  /** Tokens up to and including the end-of-block code. */
  function ReadTokens(lits: seq<nat>, dists: seq<nat>, bits: BitString): (r: Option<(seq<Token>, BitString)>)
    ensures r.Some? ==> |r.value.1| < |bits|
    decreases |bits|
  {
    match ReadCode(lits, bits)
    case None => None
    case Some((s, rest)) =>
      if s == END_BLOCK then Some(([], rest))
      else if s < 256 then
        match ReadTokens(lits, dists, rest)
        case None => None
        case Some((ts, rest')) => Some(([Literal(s)] + ts, rest'))
      else if s > 285 then None
      else
        match ReadMatch(dists, s - 257, rest)
        case None => None
        case Some((t, rest1)) =>
          match ReadTokens(lits, dists, rest1)
          case None => None
          case Some((ts, rest2)) => Some(([t] + ts, rest2))
  }

  /** `n` whole bytes. */
  function ReadBytes(bits: BitString, n: nat): (r: Option<(seq<byte>, BitString)>)
    ensures r.Some? ==> |r.value.1| <= |bits|
    decreases n
  {
    if n == 0 then Some(([], bits))
    else if |bits| < 8 then None
    else
      ByteValue(bits[..8]);
      match ReadBytes(bits[8..], n - 1)
      case None => None
      case Some((s, rest)) => Some(([Value(bits[..8])] + s, rest))
  }

  lemma ByteValue(b: BitString)
    requires |b| == 8
    ensures Value(b) < 256
  {
    assert Pow2(8) == 256;
  }

  /** Section 3.2.4; the block header ended at bit `pos` of the stream. */
  function ReadStored(bits: BitString, pos: nat): (r: Option<(Block, BitString)>)
    ensures r.Some? ==> |r.value.1| <= |bits|
  {
    match Take(bits, Padding(pos))
    case None => None
    case Some((_, rest)) =>
      match Take(rest, 16)
      case None => None
      case Some((len, rest1)) =>
        match Take(rest1, 16)
        case None => None
        case Some((nlen, rest2)) =>
          if nlen != 65535 - len then None
          else
            match ReadBytes(rest2, len)
            case None => None
            case Some((s, rest3)) => Some((Stored(s), rest3))
  }

  function Repeat(v: nat, n: nat): (r: seq<nat>)
    ensures |r| == n
  {
    seq(n, _ => v)
  }

  /** One symbol of the code length alphabet: the lengths known after it. */
  function ReadLength(cl: seq<nat>, bits: BitString, known: seq<nat>): (r: Option<(seq<nat>, BitString)>)
    ensures r.Some? ==> |r.value.1| < |bits|
  {
    match ReadCode(cl, bits)
    case None => None
    case Some((s, rest)) =>
      if s <= 15 then Some((known + [s], rest))
      else if s > 18 || (s == 16 && known == []) then None
      else
        match Take(rest, if s == 16 then 2 else if s == 17 then 3 else 7)
        case None => None
        case Some((x, rest')) =>
          Some((known + (if s == 16 then Repeat(known[|known| - 1], 3 + x)
                         else if s == 17 then Repeat(0, 3 + x) else Repeat(0, 11 + x)), rest'))
  }

  /** Code lengths until there are `total` of them; a repeat must not overrun. */
  function ReadLengths(cl: seq<nat>, bits: BitString, known: seq<nat>, total: nat): (r: Option<(seq<nat>, BitString)>)
    ensures r.Some? ==> |r.value.1| <= |bits| && |r.value.0| == total
    decreases |bits|
  {
    if |known| == total then Some((known, bits))
    else if |known| > total then None
    else
      match ReadLength(cl, bits, known)
      case None => None
      case Some((known', rest)) => ReadLengths(cl, rest, known', total)
  }

  /** The 3-bit lengths of the code length alphabet, from the `i`th in `CL_ORDER` to the `n`th. */
  function ReadOrder(bits: BitString, i: nat, n: nat, cl: seq<nat>): (r: Option<(seq<nat>, BitString)>)
    requires i <= n <= 19 && |cl| == 19
    ensures r.Some? ==> |r.value.1| <= |bits| && |r.value.0| == 19
    decreases n - i
  {
    if i == n then Some((cl, bits))
    else
      match Take(bits, 3)
      case None => None
      case Some((v, rest)) => ReadOrder(rest, i + 1, n, cl[OrderOf(i) := v])
  }

  /** Section 3.2.7: the literal/length and distance code lengths of a dynamic block. */
  function ReadTrees(bits: BitString): (r: Option<(seq<nat>, seq<nat>, BitString)>)
    ensures r.Some? ==> |r.value.2| <= |bits|
  {
    match Take(bits, 5)
    case None => None
    case Some((hlit, rest)) =>
      match Take(rest, 5)
      case None => None
      case Some((hdist, rest1)) =>
        match Take(rest1, 4)
        case None => None
        case Some((hclen, rest2)) =>
          if hlit > 29 || hclen > 15 then None
          else
            match ReadOrder(rest2, 0, hclen + 4, Repeat(0, 19))
            case None => None
            case Some((cl, rest3)) =>
              match ReadLengths(cl, rest3, [], hlit + 257 + hdist + 1)
              case None => None
              case Some((lens, rest4)) => Some((lens[..hlit + 257], lens[hlit + 257..], rest4))
  }

  function ReadDynamic(bits: BitString): (r: Option<(Block, BitString)>)
    ensures r.Some? ==> |r.value.1| < |bits|
  {
    match ReadTrees(bits)
    case None => None
    case Some((lits, dists, rest)) =>
      match ReadTokens(lits, dists, rest)
      case None => None
      case Some((ts, rest')) => Some((Compressed(ts), rest'))
  }

  function ReadFixed(bits: BitString): (r: Option<(Block, BitString)>)
    ensures r.Some? ==> |r.value.1| < |bits|
  {
    match ReadTokens(FixedLiteral(), FixedDistance(), bits)
    case None => None
    case Some((ts, rest')) => Some((Compressed(ts), rest'))
  }

  /** Section 3.2.3: the block that starts at bit `pos`, and whether it is the last. */
  function ReadBlock(bits: BitString, pos: nat): (r: Option<(bool, Block, BitString)>)
    ensures r.Some? ==> |r.value.2| < |bits|
  {
    match Take(bits, 3)
    case None => None
    case Some((h, rest)) =>
      var body := if h / 2 == 0 then ReadStored(rest, pos + 3)
                  else if h / 2 == 1 then ReadFixed(rest)
                  else if h / 2 == 2 then ReadDynamic(rest)
                  else None;
      match body
      case None => None
      case Some((b, rest')) => Some((h % 2 == 1, b, rest'))
  }

  /** The output so far extended by a block. */
  function ApplyBlock(out: seq<byte>, b: Block): Option<seq<byte>>
  {
    match b
    case Stored(s) => Some(out + s)
    case Compressed(ts) => Expand(out, ts)
  }

  /** Blocks up to the last one: the output, and the bits after it. */
  function InflateFrom(bits: BitString, pos: nat, out: seq<byte>): Option<(seq<byte>, BitString)>
    decreases |bits|
  {
    match ReadBlock(bits, pos)
    case None => None
    case Some((final, b, rest)) =>
      match ApplyBlock(out, b)
      case None => None
      case Some(out') =>
        if final then Some((out', rest)) else InflateFrom(rest, pos + |bits| - |rest|, out')
  }

  function InflateStream(bits: BitString): Option<(seq<byte>, BitString)>
  {
    InflateFrom(bits, 0, [])
  }

  // ----- reading back what was written

  lemma TakeLsb(v: nat, n: nat, t: BitString)
    requires v < Pow2(n)
    ensures Take(Lsb(v, n) + t, n) == Some((v, t))
  {
    var b := Lsb(v, n) + t;
    assert b[..n] == Lsb(v, n) && b[n..] == t;
    ValueLsb(v, n);
  }

  lemma ReadCoded(lens: seq<nat>, n: nat, t: BitString)
    requires KraftOk(lens) && n < |lens| && lens[n] >= 1
    ensures ReadCode(lens, Codeword(lens, n) + t) == Some((n, t))
  {
    ReadCodeword(lens, n, t);
  }

  lemma {:induction false} ReadWrittenBytes(s: seq<byte>, t: BitString)
    ensures ReadBytes(ByteBits(s) + t, |s|) == Some((s, t))
  {
    if s == [] {
      assert ByteBits(s) + t == t;
    } else {
      var b := ByteBits(s) + t;
      assert Pow2(8) == 256;
      ValueLsb(s[0], 8);
      assert b[..8] == Lsb(s[0], 8);
      assert b[8..] == ByteBits(s[1..]) + t;
      ReadWrittenBytes(s[1..], t);
      assert [s[0]] + s[1..] == s;
    }
  }
}
