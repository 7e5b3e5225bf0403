/** `flush_block`: choose an encoding by its predicted length, send the block, start the next one. */
module BlockFlush {
  import opened Bits
  import opened BitWriter
  import opened CanonicalCode
  import opened Inflate
  import opened TreeBuild
  import opened CodeTables
  import opened TreeSend
  import opened TreeHeader
  import opened TokenCode
  import opened TokenBuffer
  import opened BlockCoder
  import opened BlockBits

  /** The disabled assertion of `flush_block`: the length that was computed is the length that was sent. */
  ghost predicate Accounted(c: Coder)
    reads c, c.w, c.w.outbuf
  {
    c.w.Valid() && c.origin % 8 == 0 && |c.w.Stream()| == c.origin + c.compressedLen
  }

  /** These bits were sent, and no others. */
  twostate predicate Sent(c: Coder, new bits: BitString)
    reads c.w, c.w.outbuf
  {
    old(c.w.Valid()) && c.w.Valid() && c.w.Stream() == old(c.w.Stream()) + bits
  }

  /** These bits were sent, and then zero bits up to a byte boundary. */
  twostate predicate SentAligned(c: Coder, new bits: BitString)
    reads c.w, c.w.outbuf
  {
    && old(c.w.Valid()) && c.w.Valid() && c.w.biValid == 0
    && c.w.Stream() == old(c.w.Stream()) + bits + Lsb(0, Padding(|old(c.w.Stream()) + bits|))
  }

  /** A block of `len` bits, with its header and rounded up, in bytes. */
  function LengthInBytes(len: nat): nat
  {
    (len + 3 + 7) / 8
  }

  /**
   * Which encoding: whenever a stored block is the shortest, all its bytes are still in the window (so that
   * the test of `buf` against NULL decides nothing) and LEN can hold their number.
   */
  method Choose(optLen: nat, staticLen: nat, start: int, storedLen: nat) returns (kind: nat)
    requires staticLen <= 31 * (LIT_BUFSIZE - 1) + 7 && (start < 0 ==> storedLen >= MAX_DIST)
    ensures kind <= DYN_TREES
    ensures kind == STORED_BLOCK <==> storedLen + 4 <= Min(LengthInBytes(optLen), LengthInBytes(staticLen))
    ensures kind == STORED_BLOCK ==> start >= 0 && storedLen < 65536
    ensures kind == STATIC_TREES ==> LengthInBytes(staticLen) <= LengthInBytes(optLen)
    ensures kind == DYN_TREES ==> LengthInBytes(optLen) < LengthInBytes(staticLen)
  {
    var optLenb, staticLenb := LengthInBytes(optLen), LengthInBytes(staticLen);
    if staticLenb <= optLenb {
      optLenb := staticLenb;
    }
    if storedLen + 4 <= optLenb && start >= 0 {
      kind := STORED_BLOCK;
    } else if staticLenb == optLenb {
      kind := STATIC_TREES;
    } else {
      kind := DYN_TREES;
    }
  }

  /** The cost of a dynamic block for these tokens. */
  ghost predicate DynamicCost(T: Tables, ts: seq<Token>, cl: seq<nat>, lits: seq<nat>, dists: seq<nat>, n: nat,
                              cost: nat)
  {
    && TablesOk(T) && Header(cl, lits, dists, n) && Usable(T, lits, dists, ts)
    && cost == |HeaderBits(cl, lits, dists, n)| + |DataBits(T, lits, dists, ts)|
  }

  ghost predicate StaticCost(T: Tables, ts: seq<Token>, cost: nat)
  {
    && TablesOk(T) && Usable(T, FixedLiteral(), FixedDistance(), ts)
    && cost == |DataBits(T, FixedLiteral(), FixedDistance(), ts)|
  }

  /**
   * The smallest of the three encodings in bytes, header included: stored bytes if they are still in the window and no
   * more than either code needs, else the better one of the two codes.
   */
  ghost predicate Smallest(fixed: nat, dynamic: nat, start: int, storedLen: nat, blk: Block, len: nat)
  {
    var a, b := (fixed + 3 + 7) / 8, (dynamic + 3 + 7) / 8;
    if blk.Stored? then start >= 0 && storedLen + 4 <= a && storedLen + 4 <= b
    else len == 3 + (if a <= b then fixed else dynamic) && (storedLen + 4 > a || storedLen + 4 > b)
  }

  /** The block is the smallest one, with the code lengths that were built. */
  ghost predicate Cheapest(T: Tables, ts: seq<Token>, start: int, storedLen: nat, blk: Block, len: nat)
  {
    exists cl, lits, dists, n: nat, fixed: nat, dynamic: nat ::
      StaticCost(T, ts, fixed) && DynamicCost(T, ts, cl, lits, dists, n, dynamic)
      && Smallest(fixed, dynamic, start, storedLen, blk, len)
  }

  method SendKind(w: Writer, kind: nat, eof: bool)
    requires w.Valid() && kind <= 2
    modifies w, w.outbuf
    ensures w.Valid() && w.Stream() == old(w.Stream()) + Lsb(KindValue(kind, eof), 3)
  {
    hide Lsb;
    ReadKind(kind, eof, []);
    w.SendBits(2 * kind + (if eof then 1 else 0), 3);
  }

  lemma PaddingFrom(origin: nat, n: nat)
    requires origin % 8 == 0
    ensures Padding(origin + n) == Padding(n) && n + Padding(n) == (n + 7) / 8 * 8
  {
  }

  lemma StoredLength(s: seq<byte>, pos: nat, eof: bool)
    ensures |Lsb(KindValue(STORED_BLOCK, eof), 3) + (Lsb(0, Padding(pos + 3)) + (StoredHeader(|s|) + ByteBits(s)))|
         == 3 + Padding(pos + 3) + 8 * (|s| + 4)
  {
    hide Padding, KindValue;
  }

  lemma FourParts(s: BitString, a: BitString, b: BitString, c: BitString, d: BitString)
    ensures s + a + b + c + d == s + (a + (b + (c + d)))
  {
  }

  method SendStored(c: Coder, buf: array<byte>, start: nat, len: nat, eof: bool) returns (ghost bits: BitString)
    requires Accounted(c) && buf != c.w.outbuf && start + len <= buf.Length && len < 65536
    modifies c`compressedLen, c.w, c.w.outbuf
    ensures Accounted(c) && Sent(c, bits)
    ensures c.compressedLen == (old(c.compressedLen) + 3 + 7) / 8 * 8 + 8 * (len + 4)
    ensures Decodes(bits, old(c.compressedLen), eof, Stored(buf[start..start + len]))
  {
    hide Lsb, ByteBits, Padding, StoredHeader, KindValue, Decodes;
    ghost var s0, pos, s := c.w.Stream(), c.compressedLen, buf[start..start + len];
    SendKind(c.w, STORED_BLOCK, eof);
    PaddingFrom(c.origin, pos + 3);
    c.compressedLen := (c.compressedLen + 3 + 7) / 8 * 8;
    c.compressedLen := c.compressedLen + 8 * (len + 4);
    c.w.CopyBlock(buf, start, len, true);
    bits := Lsb(KindValue(STORED_BLOCK, eof), 3) + (Lsb(0, Padding(pos + 3)) + (StoredHeader(|s|) + ByteBits(s)));
    FourParts(s0, Lsb(KindValue(STORED_BLOCK, eof), 3), Lsb(0, Padding(pos + 3)), StoredHeader(|s|), ByteBits(s));
    StoredLength(s, pos, eof);
    StoredDecodes(s, pos, eof, bits);
  }

  method SendStatic(c: Coder, eof: bool, ghost maxBlindex: int, ghost lits: seq<nat>, ghost dists: seq<nat>)
    returns (ghost bits: BitString)
    requires c.Shape() && c.Prepared(maxBlindex, lits, dists) && Accounted(c)
    requires StaticTrees(c.slFc[..], c.slDl[..], c.sdFc[..], c.sdDl[..])
    modifies c`compressedLen, c.w, c.w.outbuf
    ensures Accounted(c) && Sent(c, bits)
    ensures c.compressedLen == old(c.compressedLen) + 3 + c.b.staticLen
    ensures Decodes(bits, old(c.compressedLen), eof, Compressed(c.store.tokens))
  {
    hide Lsb, TablesOk, StaticTrees, FixedLiteral, FixedDistance, Holds, Flagged, Pending, Packed,
         DataBits, Header, HeaderBits, AllCoded, KindValue, Decodes, IsLTree, IsDTree,
         IsBlTree, Apart, Sends, Usable, ByteBits;
    ghost var s0, pos, ts, T := c.w.Stream(), c.compressedLen, c.store.tokens, c.T;
    ghost var k, d := Lsb(KindValue(STATIC_TREES, eof), 3), DataBits(T, FixedLiteral(), FixedDistance(), ts);
    SendKind(c.w, STATIC_TREES, eof);
    StaticSends(c.slFc, c.slDl, c.sdFc, c.sdDl);
    SendData(c, c.slFc, c.slDl, c.sdFc, c.sdDl, FixedLiteral(), FixedDistance());
    c.compressedLen := c.compressedLen + 3 + c.b.staticLen;
    bits := k + d;
    Assoc(s0, k, d);
    StaticDecodes(T, ts, pos, eof, bits);
  }

  /** The tokens of the block with the given trees. */
  method SendData(c: Coder, lfc: array<nat>, ldl: array<nat>, dfc: array<nat>, ddl: array<nat>,
                  ghost lits: seq<nat>, ghost dists: seq<nat>)
    requires c.w.Valid() && c.store.Valid()
    requires Packed(c.store.lbuf[..], c.store.dbuf[..], c.store.flagBuf[..], c.store.tokens)
    requires Usable(c.T, lits, dists, c.store.tokens) && Sends(lfc, ldl, lits) && Sends(dfc, ddl, dists)
    modifies c.w, c.w.outbuf
    ensures c.w.Valid() && c.w.Stream() == old(c.w.Stream()) + DataBits(c.T, lits, dists, c.store.tokens)
  {
    hide Holds, Flagged, Pending, Packed, AllCoded, AllCodable, KraftOk, Sends;
    CompressBlock(c.w, c.T, lfc, ldl, dfc, ddl, c.store.lbuf, c.store.dbuf, c.store.flagBuf, c.store.lastLit,
                  c.store.tokens, lits, dists);
  }

  lemma StaticSends(lfc: array<nat>, ldl: array<nat>, dfc: array<nat>, ddl: array<nat>)
    requires StaticTrees(lfc[..], ldl[..], dfc[..], ddl[..])
    ensures Sends(lfc, ldl, FixedLiteral()) && Sends(dfc, ddl, FixedDistance())
  {
    hide AllCoded, KraftOk, FixedLiteral, FixedDistance;
    assert lfc.Length == |lfc[..]| && ldl.Length == |ldl[..]| && dfc.Length == |dfc[..]| && ddl.Length == |ddl[..]|;
    assert ldl[..288] == ldl[..] && ddl[..30] == ddl[..];
  }

  method SendDynamic(c: Coder, eof: bool, maxBlindex: int, ghost lits: seq<nat>, ghost dists: seq<nat>)
    returns (ghost bits: BitString)
    requires c.Shape() && c.Prepared(maxBlindex, lits, dists) && Accounted(c)
    modifies c`compressedLen, c.w, c.w.outbuf
    ensures Accounted(c) && Sent(c, bits)
    ensures c.compressedLen == old(c.compressedLen) + 3 + c.b.optLen
    ensures Decodes(bits, old(c.compressedLen), eof, Compressed(c.store.tokens))
  {
    hide Lsb, TablesOk, StaticTrees, FixedLiteral, FixedDistance, Holds, Flagged, Pending, Packed, IsLTree, IsDTree,
         DataBits, HeaderBits, KindValue, Decodes, Apart, Usable, Header, Sends,
         ByteBits, Writer.Valid, Store.Valid, Writer.Stream;
    ghost var s0, pos, ts, T, cl := c.w.Stream(), c.compressedLen, c.store.tokens, c.T, c.bltree.dl[..19];
    ghost var n := maxBlindex + 1;
    ghost var k, h, d := Lsb(KindValue(DYN_TREES, eof), 3), HeaderBits(cl, lits, dists, n),
      DataBits(T, lits, dists, ts);
    SendKind(c.w, DYN_TREES, eof);
    SendTrees(c, maxBlindex, lits, dists);
    SendData(c, c.ltree.fc, c.ltree.dl, c.dtree.fc, c.dtree.dl, lits, dists);
    c.compressedLen := c.compressedLen + 3 + c.b.optLen;
    bits := k + (h + d);
    ThreeParts(s0, k, h, d);
    DynamicDecodes(T, cl, lits, dists, n, ts, pos, eof, bits);
  }

  /** The header of a dynamic block. */
  method SendTrees(c: Coder, maxBlindex: int, ghost lits: seq<nat>, ghost dists: seq<nat>)
    requires c.Shape() && c.TreesReady(maxBlindex, lits, dists) && c.w.Valid()
    modifies c.w, c.w.outbuf
    ensures c.w.Valid()
    ensures c.w.Stream() == old(c.w.Stream()) + HeaderBits(c.bltree.dl[..19], lits, dists, maxBlindex + 1)
  {
    hide TablesOk, FixedLiteral, FixedDistance, DataBits, HeaderBits, Apart, Usable, Header, Sends, Writer.Valid,
         Store.Shape, Writer.Stream;
    HeaderCounts(c.bltree.dl[..19], lits, dists, maxBlindex + 1);
    SendsLengths(c.ltree.fc, c.ltree.dl, lits);
    SendsLengths(c.dtree.fc, c.dtree.dl, dists);
    SendAllTrees(c.w, c.ltree, c.dtree, c.bltree, c.ltree.maxCode + 1, c.dtree.maxCode + 1, maxBlindex + 1,
                 c.bltree.dl[..19], lits, dists);
  }

  lemma HeaderCounts(cl: seq<nat>, lits: seq<nat>, dists: seq<nat>, n: nat)
    requires Header(cl, lits, dists, n)
    ensures |lits| <= 286 && |dists| <= 30
  {
  }

  lemma SendsLengths(fc: array<nat>, dl: array<nat>, cl: seq<nat>)
    requires Sends(fc, dl, cl)
    ensures |cl| <= dl.Length && dl[..|cl|] == cl
  {
  }

  lemma ThreeParts(s: BitString, a: BitString, b: BitString, c: BitString)
    ensures s + a + b + c == s + (a + (b + c))
  {
  }

  method Clear(a: array<nat>, n: nat)
    requires n <= a.Length
    modifies a
    ensures forall i :: 0 <= i < n ==> a[i] == 0
  {
    var i := 0;
    while i < n
      invariant 0 <= i <= n && forall j :: 0 <= j < i ==> a[j] == 0
    {
      a[i] := 0;
      i := i + 1;
    }
  }

  /** `init_block`. */
  method InitBlock(c: Coder)
    requires c.Shape() && StaticTrees(c.slFc[..], c.slDl[..], c.sdFc[..], c.sdDl[..])
    modifies c.b, c.store, c.ltree.fc, c.dtree.fc, c.bltree.fc
    ensures StaticTrees(c.slFc[..], c.slDl[..], c.sdFc[..], c.sdDl[..])
    ensures c.store.Valid() && c.store.tokens == [] && c.store.tallied == old(c.store.tallied) && c.Counts()
    ensures c.b.optLen == 0 && c.b.staticLen == 0
  {
    hide LitFreq, DistFreq, TablesOk, FixedLiteral, FixedDistance, Holds, Flagged, Pending, StaticTrees;
    Clear(c.ltree.fc, 286);
    Clear(c.dtree.fc, 30);
    Clear(c.bltree.fc, 19);
    c.ltree.fc[END_BLOCK] := 1;
    c.b.optLen, c.b.staticLen := 0, 0;
    c.store.Reset();
    EmptyBlock(c.T, c.ltree.fc[..286], c.dtree.fc[..30]);
  }

  /** What a flushed block may say: its tokens, or, if they are still in the window, its bytes. */
  ghost predicate Says(blk: Block, ts: seq<Token>, buf: seq<byte>, start: int, storedLen: nat)
  {
    || blk == Compressed(ts)
    || (0 <= start && start + storedLen <= |buf| && blk == Stored(buf[start..start + storedLen]))
  }

  /** The block itself, in the encoding chosen. */
  method Emit(c: Coder, buf: array<byte>, start: int, storedLen: nat, eof: bool)
    returns (ghost bits: BitString, ghost blk: Block)
    requires c.Valid() && buf != c.w.outbuf && (start >= 0 ==> start + storedLen <= buf.Length)
    requires start < 0 ==> storedLen >= MAX_DIST
    modifies c`compressedLen, c.w, c.w.outbuf, c.b, c.b.heap, c.b.depth, c.b.blCount, c.store.flagBuf
    modifies c.ltree, c.ltree.fc, c.ltree.dl, c.dtree, c.dtree.fc, c.dtree.dl, c.bltree, c.bltree.fc, c.bltree.dl
    ensures Accounted(c) && Sent(c, bits)
    ensures Decodes(bits, old(c.compressedLen), eof, blk)
    ensures Says(blk, old(c.store.tokens), buf[..], start, storedLen)
    ensures StaticTrees(c.slFc[..], c.slDl[..], c.sdFc[..], c.sdDl[..])
    ensures Cheapest(c.T, old(c.store.tokens), start, storedLen, blk, |bits|)
  {
    hide LitFreq, DistFreq, TablesOk, StaticTrees, FixedLiteral, FixedDistance, Holds, Flagged, Pending, Packed,
         Usable, DataBits, Header, HeaderBits, Decodes, IsLTree, IsDTree, IsBlTree, Apart, Sends, Lsb, ByteBits,
         Coder.Counts, Coder.Shape, Coder.Valid, Says, Accounted, StaticCost, DynamicCost, Cheapest, Coder.Prepared;
    Parts(c);
    ghost var ts := c.store.tokens;
    var maxBlindex, lits, dists := c.Prepare();
    ghost var cl := Costs(c, maxBlindex, lits, dists);
    ghost var fixed, dynamic := c.b.staticLen, c.b.optLen;
    var kind := Choose(c.b.optLen, c.b.staticLen, start, storedLen);
    bits, blk := Send(c, kind, buf, start, storedLen, eof, maxBlindex, lits, dists);
    IsCheapest(c.T, ts, cl, lits, dists, maxBlindex + 1, fixed, dynamic, start, storedLen, blk, |bits|);
  }

  lemma IsCheapest(T: Tables, ts: seq<Token>, cl: seq<nat>, lits: seq<nat>, dists: seq<nat>, n: nat, fixed: nat,
                   dynamic: nat, start: int, storedLen: nat, blk: Block, len: nat)
    requires StaticCost(T, ts, fixed) && DynamicCost(T, ts, cl, lits, dists, n, dynamic)
    requires Smallest(fixed, dynamic, start, storedLen, blk, len)
    ensures Cheapest(T, ts, start, storedLen, blk, len)
  {
    hide StaticCost, DynamicCost, Smallest;
  }

  lemma Costs(c: Coder, maxBlindex: int, lits: seq<nat>, dists: seq<nat>) returns (cl: seq<nat>)
    requires c.Shape() && c.Prepared(maxBlindex, lits, dists)
    ensures StaticCost(c.T, c.store.tokens, c.b.staticLen) && maxBlindex >= 0
    ensures DynamicCost(c.T, c.store.tokens, cl, lits, dists, maxBlindex + 1, c.b.optLen)
    ensures 0 <= c.b.staticLen <= 31 * (LIT_BUFSIZE - 1) + 7 && c.b.optLen >= 0
  {
    hide TablesOk, Usable, Header, HeaderBits, DataBits, FixedLiteral, FixedDistance, Packed, Sends, Store.Valid;
    cl := c.bltree.dl[..19];
    StaticBound(c.T, c.store.tokens);
    TokensFit(c.store);
  }

  method Send(c: Coder, kind: nat, buf: array<byte>, start: int, storedLen: nat, eof: bool, maxBlindex: int,
              ghost lits: seq<nat>, ghost dists: seq<nat>)
    returns (ghost bits: BitString, ghost blk: Block)
    requires c.Shape() && c.Prepared(maxBlindex, lits, dists) && Accounted(c)
    requires StaticTrees(c.slFc[..], c.slDl[..], c.sdFc[..], c.sdDl[..])
    requires buf != c.w.outbuf
    requires (kind == STORED_BLOCK ==> 0 <= start && start + storedLen <= buf.Length && storedLen < 65536)
    modifies c`compressedLen, c.w, c.w.outbuf
    ensures Accounted(c) && Sent(c, bits)
    ensures Decodes(bits, old(c.compressedLen), eof, blk)
    ensures Says(blk, c.store.tokens, buf[..], start, storedLen)
    ensures if kind == STORED_BLOCK then blk.Stored?
            else blk.Compressed? && |bits| == 3 + (if kind == STATIC_TREES then c.b.staticLen else c.b.optLen)
  {
    hide TablesOk, StaticTrees, FixedLiteral, FixedDistance, Holds, Flagged, Pending, Packed,
         Usable, DataBits, Header, HeaderBits, Decodes, IsLTree, IsDTree, IsBlTree, Apart, Sends, Lsb, ByteBits;
    blk := Compressed(c.store.tokens);
    if kind == STORED_BLOCK {
      blk := Stored(buf[start..start + storedLen]);
      bits := SendStored(c, buf, start, storedLen, eof);
      assert buf[..][start..start + storedLen] == buf[start..start + storedLen];
    } else if kind == STATIC_TREES {
      bits := SendStatic(c, eof, maxBlindex, lits, dists);
    } else {
      bits := SendDynamic(c, eof, maxBlindex, lits, dists);
    }
  }

  /** The end of the last block. */
  method Finish(c: Coder)
    requires Accounted(c)
    modifies c`compressedLen, c.w, c.w.outbuf
    ensures c.w.Valid() && c.w.biValid == 0
    ensures c.w.Stream() == old(c.w.Stream()) + Lsb(0, Padding(|old(c.w.Stream())|))
    ensures c.origin + c.compressedLen / 8 * 8 == |c.w.Stream()|
  {
    hide ByteBits, Lsb, Padding;
    PaddingFrom(c.origin, c.compressedLen);
    c.w.Windup();
    c.compressedLen := c.compressedLen + 7;
  }

  lemma Parts(c: Coder)
    requires c.Valid()
    ensures c.Shape() && Accounted(c)
  {
    hide StaticTrees, TablesOk, IsLTree, IsDTree, IsBlTree, Holds, Flagged, Pending;
  }

  lemma Assemble(c: Coder)
    requires c.Shape() && Accounted(c) && c.store.Valid() && c.Counts() && c.b.optLen == 0 && c.b.staticLen == 0
    requires StaticTrees(c.slFc[..], c.slDl[..], c.sdFc[..], c.sdDl[..])
    ensures c.Valid()
  {
    hide StaticTrees, TablesOk, IsLTree, IsDTree, IsBlTree, Holds, Flagged, Pending;
  }

  /** Send the block and start an empty one. */
  method EmitAndInit(c: Coder, buf: array<byte>, start: int, storedLen: nat, eof: bool)
    returns (ghost bits: BitString, ghost blk: Block)
    requires c.Valid() && buf != c.w.outbuf && (start >= 0 ==> start + storedLen <= buf.Length)
    requires start < 0 ==> storedLen >= MAX_DIST
    modifies c`compressedLen, c.w, c.w.outbuf, c.b, c.b.heap, c.b.depth, c.b.blCount, c.store, c.store.flagBuf
    modifies c.ltree, c.ltree.fc, c.ltree.dl, c.dtree, c.dtree.fc, c.dtree.dl, c.bltree, c.bltree.fc, c.bltree.dl
    ensures Decodes(bits, old(c.compressedLen), eof, blk)
    ensures Says(blk, old(c.store.tokens), buf[..], start, storedLen)
    ensures Cheapest(c.T, old(c.store.tokens), start, storedLen, blk, |bits|)
    ensures c.Valid() && c.store.tokens == [] && c.store.tallied == old(c.store.tallied) && Sent(c, bits)
  {
    hide LitFreq, DistFreq, TablesOk, StaticTrees, FixedLiteral, FixedDistance, Holds, Flagged, Pending, Packed,
         Decodes, Says, IsLTree, IsDTree, IsBlTree, Apart, ByteBits, Lsb, Padding,
         Sent, Accounted, Coder.Valid, Coder.Shape, Coder.Counts, Cheapest;
    Parts(c);
    bits, blk := Emit(c, buf, start, storedLen, eof);
    InitBlock(c);
    Assemble(c);
  }

  lemma ValidAccounted(c: Coder)
    requires c.Valid()
    ensures Accounted(c)
  {
    hide Coder.Shape, Coder.Counts;
  }

  /** `flush_block`: the result is the length of the compressed data so far, in bytes. */
  method FlushBlock(c: Coder, buf: array<byte>, start: int, storedLen: nat, eof: bool)
    returns (bytes: nat, ghost bits: BitString, ghost blk: Block)
    requires c.Valid() && buf != c.w.outbuf && (start >= 0 ==> start + storedLen <= buf.Length)
    requires start < 0 ==> storedLen >= MAX_DIST
    modifies c`compressedLen, c.w, c.w.outbuf, c.b, c.b.heap, c.b.depth, c.b.blCount, c.store, c.store.flagBuf
    modifies c.ltree, c.ltree.fc, c.ltree.dl, c.dtree, c.dtree.fc, c.dtree.dl, c.bltree, c.bltree.fc, c.bltree.dl
    ensures Decodes(bits, old(c.compressedLen), eof, blk)
    ensures Says(blk, old(c.store.tokens), buf[..], start, storedLen)
    ensures Cheapest(c.T, old(c.store.tokens), start, storedLen, blk, |bits|)
    ensures if eof then SentAligned(c, bits) && c.origin + 8 * bytes == |c.w.Stream()|
            else Sent(c, bits) && c.Valid() && c.store.tokens == []
    ensures c.store.tallied == old(c.store.tallied)
  {
    hide Decodes, Says, ByteBits, Lsb, Padding, Coder.Valid, Cheapest;
    bits, blk := EmitAndInit(c, buf, start, storedLen, eof);
    ValidAccounted(c);
    if eof {
      Finish(c);
    }
    bytes := c.compressedLen / 8;
  }
}
