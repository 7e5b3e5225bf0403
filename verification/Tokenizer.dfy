/** The coder seen from `deflate`: the text its tokens and blocks stand for. */
module Tokenizer {
  import opened Bits
  import opened BitWriter
  import opened CanonicalCode
  import opened Inflate
  import opened TokenCode
  import opened TokenBuffer
  import opened BlockCoder
  import opened BlockBits
  import opened BlockFlush
  import opened Expansion

  /** The compressed data so far. */
  ghost function Body(c: Coder): BitString
    requires Accounted(c)
    reads c, c.w, c.w.outbuf
  {
    c.w.Stream()[c.origin..]
  }

  /** The finished blocks decode to the first `from` bytes, and the pending tokens continue them up to byte `at`. */
  ghost predicate Covers(c: Coder, data: seq<byte>, from: nat, at: nat)
    reads c, c.w, c.w.outbuf, c.b, c.store, c.store.lbuf, c.store.dbuf, c.store.flagBuf
    reads c.ltree.fc, c.dtree.fc, c.bltree.fc, c.slFc, c.slDl, c.sdFc, c.sdDl
  {
    && c.Valid() && from <= at <= |data| && Text(c.store.tokens, data, from, at)
    && Accounted(c) && Resumes(Body(c), data[..from])
    && c.w.Stream()[..c.origin] == c.opening
  }

  /** The tokens of a block continue the text from byte `from` to byte `at`. */
  ghost predicate Text(ts: seq<Token>, data: seq<byte>, from: nat, at: nat)
  {
    from <= at <= |data| && Expand(data[..from], ts) == Some(data[..at])
  }

  lemma TextNext(ts: seq<Token>, data: seq<byte>, from: nat, at: nat, t: Token)
    requires Text(ts, data, from, at) && Continues(data, at, t)
    ensures at + Size(t) <= |data| && Text(ts + [t], data, from, at + Size(t))
  {
    ExpandContinues(data, data[..from], ts, at, t);
  }

  /** All tokens ever tallied: matches of legal length and distance that expand to the first `at` bytes. */
  ghost predicate Tallied(all: seq<Token>, data: seq<byte>, at: nat)
  {
    && at <= |data| && Expand([], all) == Some(data[..at])
    && forall i :: 0 <= i < |all| ==> Legal(all[i])
  }

  predicate Legal(t: Token)
  {
    t.Match? ==> 3 <= t.length <= 258 && 1 <= t.dist <= MAX_DIST
  }

  lemma TalliedNext(all: seq<Token>, data: seq<byte>, at: nat, t: Token)
    requires Tallied(all, data, at) && Continues(data, at, t) && Legal(t)
    ensures Tallied(all + [t], data, at + Size(t))
  {
    ExpandContinues(data, [], all, at, t);
  }

  /** `ct_tally` of a token that continues the text. */
  method TallyNext(c: Coder, dist: nat, lc: nat, inLength: int, ghost t: Token, ghost data: seq<byte>,
                   ghost from: nat, ghost at: nat)
    returns (flush: bool)
    requires Covers(c, data, from, at) && |c.store.tokens| < LIT_BUFSIZE - 1 && Continues(data, at, t) && Legal(t)
    requires ValidToken(t) && lc == LitByte(t) && dist == if t.Match? then t.dist else 0
    modifies c.store, c.store.lbuf, c.store.dbuf, c.store.flagBuf, c.ltree.fc, c.dtree.fc
    ensures Covers(c, data, from, at + Size(t)) && (!flush ==> |c.store.tokens| < LIT_BUFSIZE - 1)
    ensures c.store.tallied == old(c.store.tallied) + [t]
  {
    hide Coder.Valid, Accounted, Resumes, Text, Continues, Legal;
    TextNext(c.store.tokens, data, from, at, t);
    flush := c.CtTally(dist, lc, inLength, t);
  }

  /** Whichever way a block was sent, it stands for its stretch of the text. */
  lemma BlockText(blk: Block, ts: seq<Token>, buf: seq<byte>, start: int, data: seq<byte>, from: nat, at: nat)
    requires Text(ts, data, from, at) && Says(blk, ts, buf, start, at - from)
    requires start >= 0 ==> start + (at - from) <= |buf| && buf[start..start + (at - from)] == data[from..at]
    ensures ApplyBlock(data[..from], blk) == Some(data[..at])
  {
    assert data[..from] + data[from..at] == data[..at];
  }

  lemma TextStart(data: seq<byte>, at: nat)
    requires at <= |data|
    ensures Text([], data, at, at)
  {
  }

  /** `FLUSH_BLOCK(0)` */
  method FlushNext(c: Coder, buf: array<byte>, start: int, storedLen: nat, ghost data: seq<byte>, ghost from: nat,
                   ghost at: nat)
    requires Covers(c, data, from, at) && buf != c.w.outbuf && storedLen == at - from
    requires start >= 0 ==> start + storedLen <= buf.Length && buf[..][start..start + storedLen] == data[from..at]
    requires start < 0 ==> storedLen >= MAX_DIST
    modifies c`compressedLen, c.w, c.w.outbuf, c.b, c.b.heap, c.b.depth, c.b.blCount, c.store, c.store.flagBuf
    modifies c.ltree, c.ltree.fc, c.ltree.dl, c.dtree, c.dtree.fc, c.dtree.dl, c.bltree, c.bltree.fc, c.bltree.dl
    ensures Covers(c, data, at, at) && c.store.tokens == [] && c.store.tallied == old(c.store.tallied)
  {
    hide Cheapest, Coder.Valid, Resumes, Text, Decodes, Says, ByteBits, Lsb, ApplyBlock;
    ghost var body, origin, stream := Body(c), c.origin, c.w.Stream();
    ghost var ts := c.store.tokens;
    assert Resumes(body, data[..from]) && Text(ts, data, from, at);
    var _, bits, blk := FlushBlock(c, buf, start, storedLen, false);
    BlockText(blk, ts, buf[..], start, data, from, at);
    ResumesBlock(body, data[..from], bits, blk, data[..at]);
    ValidAccounted(c);
    TwoTails(stream, bits, [], origin);
    TextStart(data, at);
  }

  /** `FLUSH_BLOCK(1)`: the reference decoder turns the compressed data into the text. */
  method FlushLast(c: Coder, buf: array<byte>, start: int, storedLen: nat, ghost data: seq<byte>, ghost from: nat,
                   ghost at: nat)
    returns (bytes: nat, ghost pad: nat)
    requires Covers(c, data, from, at) && buf != c.w.outbuf && storedLen == at - from
    requires start >= 0 ==> start + storedLen <= buf.Length && buf[..][start..start + storedLen] == data[from..at]
    requires start < 0 ==> storedLen >= MAX_DIST
    modifies c`compressedLen, c.w, c.w.outbuf, c.b, c.b.heap, c.b.depth, c.b.blCount, c.store, c.store.flagBuf
    modifies c.ltree, c.ltree.fc, c.ltree.dl, c.dtree, c.dtree.fc, c.dtree.dl, c.bltree, c.bltree.fc, c.bltree.dl
    ensures c.w.Valid() && c.w.biValid == 0 && |c.w.Stream()| == c.origin + 8 * bytes
    ensures pad < 8 && Ends(c.w.Stream()[c.origin..], data[..at], pad)
    ensures c.w.Stream()[..c.origin] == c.opening && c.store.tallied == old(c.store.tallied)
  {
    hide Cheapest, Coder.Valid, Resumes, Text, Decodes, Says, ByteBits, Lsb, ApplyBlock, Ends, Padding;
    ghost var body, origin, stream := Body(c), c.origin, c.w.Stream();
    ghost var ts, bits, blk := c.store.tokens, [], Stored([]);
    assert Resumes(body, data[..from]) && Text(ts, data, from, at);
    bytes, bits, blk := FlushBlock(c, buf, start, storedLen, true);
    BlockText(blk, ts, buf[..], start, data, from, at);
    pad := Padding(|stream + bits|);
    EndsLast(body, data[..from], bits, blk, data[..at], pad);
    TwoTails(stream, bits, Lsb(0, pad), origin);
  }

  lemma TwoTails(a: BitString, b: BitString, d: BitString, n: nat)
    requires n <= |a|
    ensures (a + b + d)[n..] == a[n..] + b + d && (a + b + d)[..n] == a[..n]
    ensures (a + b)[n..] == a[n..] + b && (a + b)[..n] == a[..n]
  {
  }
}
