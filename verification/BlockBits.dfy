/** The three forms of a block on the wire, and that the reference decoder reads each of them back. */
module BlockBits {
  import opened Bits
  import opened BitWriter
  import opened CanonicalCode
  import opened Inflate
  import opened TreeHeader
  import opened TokenCode
  import opened BlockCoder

  const STORED_BLOCK := 0
  const STATIC_TREES := 1
  const DYN_TREES := 2

  /** Whatever follows, the decoder at bit `pos` reads exactly this block out of `bits`, and stops at its last bit. */
  ghost predicate Decodes(bits: BitString, pos: nat, eof: bool, blk: Block)
  {
    forall t: BitString :: ReadBlock(bits + t, pos) == Some((eof, blk, t))
  }

  /** The three bits that open a block. */
  function KindValue(kind: nat, eof: bool): nat
  {
    2 * kind + (if eof then 1 else 0)
  }

  lemma ReadKind(kind: nat, eof: bool, rest: BitString)
    requires kind <= 2
    ensures KindValue(kind, eof) < Pow2(3)
    ensures Take(Lsb(KindValue(kind, eof), 3) + rest, 3) == Some((KindValue(kind, eof), rest))
    ensures KindValue(kind, eof) / 2 == kind && (KindValue(kind, eof) % 2 == 1 <==> eof)
  {
    hide Lsb;
    assert Pow2(3) == 8;
    TakeLsb(KindValue(kind, eof), 3, rest);
  }

  lemma ReadLenBack(len: nat, body: BitString)
    requires len < 65536
    ensures Take(StoredHeader(len) + body, 16) == Some((len, Lsb(65535 - len, 16) + body))
    ensures Take(Lsb(65535 - len, 16) + body, 16) == Some((65535 - len, body))
  {
    hide Lsb, Take, Pow2;
    assert Pow2(16) == 65536 by { Pow2Small(); }
    Assoc(Lsb(len, 16), Lsb(65535 - len, 16), body);
    TakeLsb(len, 16, Lsb(65535 - len, 16) + body);
    TakeLsb(65535 - len, 16, body);
  }

  lemma ReadStoredBack(s: seq<byte>, pos: nat, t: BitString)
    requires |s| < 65536
    ensures ReadStored(Lsb(0, Padding(pos)) + (StoredHeader(|s|) + (ByteBits(s) + t)), pos) == Some((Stored(s), t))
  {
    hide Lsb, ByteBits, Padding, Take, ReadBytes, Pow2, StoredHeader;
    TakeLsb(0, Padding(pos), StoredHeader(|s|) + (ByteBits(s) + t));
    ReadLenBack(|s|, ByteBits(s) + t);
    ReadWrittenBytes(s, t);
  }

  /** A stored block: padding to a byte, LEN, NLEN, and the bytes. */
  lemma StoredDecodes(s: seq<byte>, pos: nat, eof: bool, bits: BitString)
    requires |s| < 65536
    requires bits == Lsb(KindValue(STORED_BLOCK, eof), 3)
      + (Lsb(0, Padding(pos + 3)) + (StoredHeader(|s|) + ByteBits(s)))
    ensures Decodes(bits, pos, eof, Stored(s))
  {
    hide Lsb, ByteBits, Padding, Take, ReadStored, StoredHeader, KindValue, ReadFixed, ReadDynamic;
    var k, p, h, b := Lsb(KindValue(STORED_BLOCK, eof), 3), Lsb(0, Padding(pos + 3)), StoredHeader(|s|), ByteBits(s);
    forall t
      ensures ReadBlock(bits + t, pos) == Some((eof, Stored(s), t))
    {
      assert bits + t == k + (p + (h + (b + t)));
      ReadKind(STORED_BLOCK, eof, p + (h + (b + t)));
      ReadStoredBack(s, pos + 3, t);
    }
  }

  lemma ReadDataBack(T: Tables, lits: seq<nat>, dists: seq<nat>, ts: seq<Token>, t: BitString)
    requires Usable(T, lits, dists, ts)
    ensures ReadTokens(lits, dists, DataBits(T, lits, dists, ts) + t) == Some((ts, t))
  {
    hide TokensBits, Codeword, ReadTokens, KraftOk, AllCodable;
    Assoc(TokensBits(T, lits, dists, ts), Codeword(lits, END_BLOCK), t);
    ReadTokensBack(T, lits, dists, ts, t);
  }

  /** A block coded with the fixed trees. */
  lemma StaticDecodes(T: Tables, ts: seq<Token>, pos: nat, eof: bool, bits: BitString)
    requires Usable(T, FixedLiteral(), FixedDistance(), ts)
    requires bits == Lsb(KindValue(STATIC_TREES, eof), 3) + DataBits(T, FixedLiteral(), FixedDistance(), ts)
    ensures Decodes(bits, pos, eof, Compressed(ts))
  {
    hide Lsb, Take, ReadStored, KindValue, ReadDynamic, ReadTokens, DataBits, Usable, FixedLiteral, FixedDistance;
    var k, d := Lsb(KindValue(STATIC_TREES, eof), 3), DataBits(T, FixedLiteral(), FixedDistance(), ts);
    forall t
      ensures ReadBlock(bits + t, pos) == Some((eof, Compressed(ts), t))
    {
      Assoc(k, d, t);
      ReadKind(STATIC_TREES, eof, d + t);
      ReadDataBack(T, FixedLiteral(), FixedDistance(), ts, t);
    }
  }

  /** A block that carries its own trees. */
  lemma DynamicDecodes(T: Tables, cl: seq<nat>, lits: seq<nat>, dists: seq<nat>, n: nat, ts: seq<Token>, pos: nat,
                       eof: bool, bits: BitString)
    requires Usable(T, lits, dists, ts) && Header(cl, lits, dists, n)
    requires bits == Lsb(KindValue(DYN_TREES, eof), 3) + (HeaderBits(cl, lits, dists, n) + DataBits(T, lits, dists, ts))
    ensures Decodes(bits, pos, eof, Compressed(ts))
  {
    hide Lsb, Take, ReadStored, KindValue, ReadFixed, ReadTokens, DataBits, Usable, Header, HeaderBits, ReadTrees;
    var k, h, d := Lsb(KindValue(DYN_TREES, eof), 3), HeaderBits(cl, lits, dists, n), DataBits(T, lits, dists, ts);
    forall t
      ensures ReadBlock(bits + t, pos) == Some((eof, Compressed(ts), t))
    {
      Assoc(k, h + d, t);
      Assoc(h, d, t);
      ReadKind(DYN_TREES, eof, h + (d + t));
      ReadHeaderBack(cl, lits, dists, n, d + t);
      ReadDataBack(T, lits, dists, ts, t);
    }
  }

  // ----- how long a block can be

  /** No token takes more than 31 bits with the fixed trees. */
  lemma StaticTokenBound(T: Tables, t: Token)
    requires TablesOk(T) && ValidToken(t) && Codable(T, FixedLiteral(), FixedDistance(), t)
    ensures |TokenBits(T, FixedLiteral(), FixedDistance(), t)| <= 31
  {
    hide TablesOk;
    TokenCost(T, FixedLiteral(), FixedDistance(), t);
    if t.Match? {
      CodesInRange(T, t);
      ExtraBounds(LengthCode(T, t), DistCode(T, t));
    }
  }

  lemma ExtraBounds(c: nat, d: nat)
    requires c < 29 && d < 30
    ensures LitExtras()[257 + c] <= 5 && DistExtras()[d] <= 13
  {
  }

  lemma {:induction false} StaticTokensBound(T: Tables, ts: seq<Token>)
    requires AllCodable(T, FixedLiteral(), FixedDistance(), ts)
    ensures |TokensBits(T, FixedLiteral(), FixedDistance(), ts)| <= 31 * |ts|
  {
    hide TokenBits, Codable, FixedLiteral, FixedDistance, TablesOk;
    if ts != [] {
      StaticTokenBound(T, ts[0]);
      StaticTokensBound(T, ts[1..]);
    }
  }

  lemma StaticBound(T: Tables, ts: seq<Token>)
    requires Usable(T, FixedLiteral(), FixedDistance(), ts)
    ensures |DataBits(T, FixedLiteral(), FixedDistance(), ts)| <= 31 * |ts| + 7
  {
    hide TokensBits, AllCodable, KraftOk;
    StaticTokensBound(T, ts);
    assert |Codeword(FixedLiteral(), END_BLOCK)| == FixedLiteral()[256] == 7;
  }
}
