/** `ct_init`, `ct_tally`, and the trees that `flush_block` builds for a block. */
module BlockCoder {
  import opened Bits
  import opened BitWriter
  import opened CanonicalCode
  import opened Inflate
  import opened Huffman
  import opened CodeLengths
  import opened TreeBuild
  import opened CodeTables
  import opened RunLength
  import opened TreeSend
  import opened TreeHeader
  import opened TokenCode
  import opened TokenBuffer

  ghost predicate IsLTree(t: Tree)
  {
    && t.Valid() && t.elems == 286 && t.maxLength == 15
    && t.extra == EXTRA_LBITS && t.extraBase == 257 && t.stree == FixedLiteral()
  }

  ghost predicate IsDTree(t: Tree)
  {
    && t.Valid() && t.elems == 30 && t.maxLength == 15
    && t.extra == EXTRA_DBITS && t.extraBase == 0 && t.stree == FixedDistance()
  }

  /** The three dynamic trees of `gzip_main`, all frequencies 0. */
  method MakeTrees(llen: seq<nat>, dlen: seq<nat>) returns (l: Tree, d: Tree, bl: Tree)
    requires llen == FixedLiteral() && dlen == FixedDistance()
    ensures IsLTree(l) && IsDTree(d) && IsBlTree(bl) && Apart(l, d, bl)
    ensures fresh(l) && fresh(l.fc) && fresh(l.dl) && fresh(d) && fresh(d.fc) && fresh(d.dl)
    ensures fresh(bl) && fresh(bl.fc) && fresh(bl.dl)
    ensures (forall n :: 0 <= n < l.fc.Length ==> l.fc[n] == 0) && (forall n :: 0 <= n < d.fc.Length ==> d.fc[n] == 0)
    ensures forall n :: 0 <= n < bl.fc.Length ==> bl.fc[n] == 0
  {
    assert 286 <= Pow2(15) && 30 <= Pow2(15) && 19 <= Pow2(7) by { Pow2Small(); }
    l := new Tree(286, 15, EXTRA_LBITS, 257, llen);
    d := new Tree(30, 15, EXTRA_DBITS, 0, dlen);
    bl := new Tree(19, 7, EXTRA_BLBITS, 0, []);
  }

  /** The bits of the distances of a block, five for each code and the extra bits behind it. */
  function DistanceBits(fc: seq<nat>, n: nat): nat
    requires n <= |fc| && n <= D_CODES
  {
    if n == 0 then 0 else DistanceBits(fc, n - 1) + fc[n - 1] * (5 + ExtraDist(n - 1))
  }

  /** Few matches so far, and with eight bits for a literal less than half the input. */
  predicate Pays(lits: nat, dists: nat, fc: seq<nat>, inLength: int)
    requires |fc| == D_CODES
  {
    dists < lits / 2 && (8 * lits + DistanceBits(fc, D_CODES)) / 8 < inLength / 2
  }

  /** Everything that codes tokens into the writer's stream. */
  class Coder {
    const w: Writer
    const b: Builder
    const ltree: Tree
    const dtree: Tree
    const bltree: Tree
    const T: Tables
    const slFc: array<nat>
    const slDl: array<nat>
    const sdFc: array<nat>
    const sdDl: array<nat>
    const store: Store
    var compressedLen: nat
    /** Where the compressed data starts in the writer's stream: on a byte boundary. */
    ghost var origin: nat
    /** What the stream holds before it. */
    ghost var opening: BitString

    /** What never changes: the shapes of the parts, and that they are different objects. */
    ghost predicate Shape()
    {
      && b.Fits(ltree) && b.Fits(dtree) && b.Fits(bltree) && Apart(ltree, dtree, bltree)
      && IsLTree(ltree) && IsDTree(dtree) && IsBlTree(bltree)
      && TablesOk(T) && store.Shape()
      && {b.heap, b.depth, b.blCount, ltree.fc, ltree.dl, dtree.fc, dtree.dl, bltree.fc, bltree.dl}
           !! {slFc, slDl, sdFc, sdDl} !! {store.lbuf, store.dbuf, store.flagBuf}
    }

    /** The frequencies are those of the tokens tallied since the last flush. */
    ghost predicate Counts()
      requires Shape()
      reads store, ltree.fc, dtree.fc, bltree.fc
    {
      && ValidTokens(store.tokens)
      && ltree.fc[..286] == LitFreq(T, store.tokens) && dtree.fc[..30] == DistFreq(T, store.tokens)
      && forall s :: 0 <= s < 19 ==> bltree.fc[s] == 0
    }

    ghost predicate Valid()
      reads this, w, w.outbuf, b, store, store.lbuf, store.dbuf, store.flagBuf
      reads ltree.fc, dtree.fc, bltree.fc, slFc, slDl, sdFc, sdDl
    {
      && Shape() && w.Valid() && store.Valid() && Counts()
      && StaticTrees(slFc[..], slDl[..], sdFc[..], sdDl[..])
      && b.optLen == 0 && b.staticLen == 0
      && origin % 8 == 0 && |w.Stream()| == origin + compressedLen
    }

    constructor (w: Writer, b: Builder, l: Tree, d: Tree, bl: Tree, T: Tables,
                 slFc: array<nat>, slDl: array<nat>, sdFc: array<nat>, sdDl: array<nat>, s: Store)
      ensures this.w == w && this.b == b && ltree == l && dtree == d && bltree == bl && this.T == T && store == s
      ensures this.slFc == slFc && this.slDl == slDl && this.sdFc == sdFc && this.sdDl == sdDl
      ensures compressedLen == 0 && (w.Valid() ==> origin == |w.Stream()| && opening == w.Stream())
    {
      this.w, this.b, ltree, dtree, bltree, this.T, store := w, b, l, d, bl, T, s;
      this.slFc, this.slDl, this.sdFc, this.sdDl := slFc, slDl, sdFc, sdDl;
      compressedLen := 0;
      opening := if w.Valid() then w.Stream() else [];
      origin := if w.Valid() then |w.Stream()| else 0;
    }

    /** `ct_tally`: count and store one token; says whether the block must be flushed. */
    method CtTally(dist: nat, lc: nat, inLength: int, ghost t: Token) returns (flush: bool)
      requires Valid() && |store.tokens| < LIT_BUFSIZE - 1 && ValidToken(t) && lc == LitByte(t)
      requires dist == if t.Match? then t.dist else 0
      modifies store, store.lbuf, store.dbuf, store.flagBuf, ltree.fc, dtree.fc
      ensures Valid() && store.tokens == old(store.tokens) + [t] && store.tallied == old(store.tallied) + [t]
      ensures !flush ==> |store.tokens| < LIT_BUFSIZE - 1
      ensures flush <==>
        || (|store.tokens| % 0x1000 == 0 && Pays(|store.tokens|, store.lastDist, dtree.fc[..D_CODES], inLength))
        || |store.tokens| == LIT_BUFSIZE - 1 || store.lastDist == DIST_BUFSIZE
    {
      hide Coder.Shape, Coder.Counts, StaticTrees, Writer.Valid, Writer.Stream, Store.Valid;
      Keep(dist, lc, t);
      TokensFit(store);
      flush := false;
      if store.lastLit % 0x1000 == 0 {
        flush := Guess(inLength);
      }
      flush := flush || store.lastLit == LIT_BUFSIZE - 1 || store.lastDist == DIST_BUFSIZE;
    }

    /** The token is counted and stored. */
    method Keep(dist: nat, lc: nat, ghost t: Token)
      requires Valid() && |store.tokens| < LIT_BUFSIZE - 1 && ValidToken(t) && lc == LitByte(t)
      requires dist == if t.Match? then t.dist else 0
      modifies store, store.lbuf, store.dbuf, store.flagBuf, ltree.fc, dtree.fc
      ensures Valid() && store.tokens == old(store.tokens) + [t] && store.tallied == old(store.tallied) + [t]
    {
      hide LitFreq, DistFreq, TablesOk, StaticTrees, DistCodeOf, LengthCodeOf, Inc,
           IsLTree, IsDTree, IsBlTree, Writer.Valid, Writer.Stream, Store.Valid;
      ghost var ts := store.tokens;
      FreqAppend(T, ts, t);
      TableSizes(T);
      Tally(dist, lc, t);
      store.Push(dist, lc, t);
    }

    /** The frequency counts of `ct_tally`. */
    method Tally(dist: nat, lc: nat, ghost t: Token)
      requires Shape() && ValidToken(t) && lc == LitByte(t) && dist == if t.Match? then t.dist else 0
      modifies ltree.fc, dtree.fc
      ensures ltree.fc[..286] == Inc(old(ltree.fc[..286]), LitSym(T, t), 1)
      ensures dtree.fc[..30] == if t.Match? then Inc(old(dtree.fc[..30]), DistCode(T, t), 1) else old(dtree.fc[..30])
    {
      hide TablesOk, FixedLiteral, FixedDistance, LengthCodeOf, DistCodeOf, DCode;
      TableSizes(T);
      if dist == 0 {
        Bump(ltree.fc, 286, lc);
      } else {
        var c, d := T.lengthCode[lc], DCode(T.distCode, dist - 1);
        CodesInRange(T, t);
        Bump(ltree.fc, 286, c + LITERALS + 1);
        Bump(dtree.fc, 30, d);
      }
    }

    /** The guess whether to stop the block early. */
    method Guess(inLength: int) returns (stop: bool)
      requires Shape()
      ensures stop <==> Pays(store.lastLit, store.lastDist, dtree.fc[..D_CODES], inLength)
    {
      var outLength, dcode := store.lastLit * 8, 0;
      while dcode < D_CODES
        invariant 0 <= dcode <= D_CODES && outLength == 8 * store.lastLit + DistanceBits(dtree.fc[..D_CODES], dcode)
      {
        outLength := outLength + dtree.fc[dcode] * (5 + ExtraDist(dcode));
        dcode := dcode + 1;
      }
      stop := store.lastDist < store.lastLit / 2 && outLength / 8 < inLength / 2;
    }

    /** All trees are built: both codings of the block are possible, and their exact lengths known. */
    ghost predicate TreesReady(maxBlindex: int, lits: seq<nat>, dists: seq<nat>)
      requires Shape()
      reads b, store, ltree, ltree.fc, ltree.dl, dtree, dtree.fc, dtree.dl, bltree.fc, bltree.dl
    {
      var ts, cl := store.tokens, bltree.dl[..19];
      && Usable(T, lits, dists, ts) && Usable(T, FixedLiteral(), FixedDistance(), ts)
      && Sends(ltree.fc, ltree.dl, lits) && Sends(dtree.fc, dtree.dl, dists) && Sends(bltree.fc, bltree.dl, cl)
      && 3 <= maxBlindex <= 18 && Header(cl, lits, dists, maxBlindex + 1)
      && |lits| == ltree.maxCode + 1 && ltree.dl[|lits|] == GUARD
      && |dists| == dtree.maxCode + 1 && dtree.dl[|dists|] == GUARD
      && b.optLen == |HeaderBits(cl, lits, dists, maxBlindex + 1)| + |DataBits(T, lits, dists, ts)|
      && b.staticLen == |DataBits(T, FixedLiteral(), FixedDistance(), ts)|
    }

    ghost predicate Prepared(maxBlindex: int, lits: seq<nat>, dists: seq<nat>)
      requires Shape()
      reads b, store, store.lbuf, store.dbuf, store.flagBuf
      reads ltree, ltree.fc, ltree.dl, dtree, dtree.fc, dtree.dl, bltree.fc, bltree.dl
    {
      && store.Valid() && Packed(store.lbuf[..], store.dbuf[..], store.flagBuf[..], store.tokens)
      && TreesReady(maxBlindex, lits, dists)
    }

    /** The first half of `flush_block`: complete the buffer and build the trees. */
    method Prepare() returns (maxBlindex: int, ghost lits: seq<nat>, ghost dists: seq<nat>)
      requires Valid()
      modifies b, b.heap, b.depth, b.blCount, ltree, ltree.fc, ltree.dl, dtree, dtree.fc, dtree.dl
      modifies bltree, bltree.fc, bltree.dl, store.flagBuf
      ensures Prepared(maxBlindex, lits, dists) && StaticTrees(slFc[..], slDl[..], sdFc[..], sdDl[..])
    {
      hide LitFreq, DistFreq, TablesOk, StaticTrees, FixedLiteral, FixedDistance, Holds, Flagged, Pending, Packed,
           Cost, Built, Sum, Coder.TreesReady, IsLTree, IsDTree, IsBlTree, Store.Valid, Writer.Valid,
           Writer.Stream;
      TokensFit(store);
      store.SaveFlags();
      BuildBoth();
      maxBlindex, lits, dists := HeaderTree();
    }

    /** The tree of the code lengths: with it the exact length of the dynamic block is known. */
    method HeaderTree() returns (maxBlindex: int, ghost lits: seq<nat>, ghost dists: seq<nat>)
      requires Shape() && ValidTokens(store.tokens) && StaticTrees(slFc[..], slDl[..], sdFc[..], sdDl[..])
      requires Built(LitFreq(T, store.tokens), ltree.fc[..], ltree.dl[..], ltree.maxCode, 15)
      requires Built(DistFreq(T, store.tokens), dtree.fc[..], dtree.dl[..], dtree.maxCode, 15)
      requires b.optLen == Cost(LitFreq(T, store.tokens), ltree.dl[..286], LitExtras())
                         + Cost(DistFreq(T, store.tokens), dtree.dl[..30], DistExtras())
      requires b.staticLen == Cost(LitFreq(T, store.tokens), FixedLiteral()[..286], LitExtras())
                            + Cost(DistFreq(T, store.tokens), FixedDistance()[..30], DistExtras())
      requires forall s :: 0 <= s < 19 ==> bltree.fc[s] == 0
      modifies b, b.heap, b.depth, b.blCount, ltree.dl, dtree.dl, bltree, bltree.fc, bltree.dl
      ensures TreesReady(maxBlindex, lits, dists)
    {
      hide LitFreq, DistFreq, TablesOk, StaticTrees, FixedLiteral, FixedDistance,
           Cost, Built, Usable, DataBits, Header, HeaderBits, AllCoded, Sum;
      lits, dists := BothUsable();
      maxBlindex := BuildBlTree(b, ltree, dtree, bltree);
    }

    /** The trees just built, and the static ones, are usable for the block's tokens at the predicted cost. */
    lemma BothUsable() returns (lits: seq<nat>, dists: seq<nat>)
      requires Shape() && ValidTokens(store.tokens) && StaticTrees(slFc[..], slDl[..], sdFc[..], sdDl[..])
      requires Built(LitFreq(T, store.tokens), ltree.fc[..], ltree.dl[..], ltree.maxCode, 15)
      requires Built(DistFreq(T, store.tokens), dtree.fc[..], dtree.dl[..], dtree.maxCode, 15)
      ensures 256 <= ltree.maxCode < 286 && 0 <= dtree.maxCode < 30
      ensures lits == ltree.dl[..ltree.maxCode + 1] && dists == dtree.dl[..dtree.maxCode + 1]
      ensures forall n :: 0 <= n <= ltree.maxCode ==> ltree.dl[n] <= 15
      ensures forall n :: 0 <= n <= dtree.maxCode ==> dtree.dl[n] <= 15
      ensures AllCoded(ltree.fc[..], lits, |lits|) && AllCoded(dtree.fc[..], dists, |dists|) && ltree.dl[256] > 0
      ensures Usable(T, lits, dists, store.tokens) && Usable(T, FixedLiteral(), FixedDistance(), store.tokens)
      ensures |DataBits(T, lits, dists, store.tokens)|
        == Cost(LitFreq(T, store.tokens), ltree.dl[..286], LitExtras())
          + Cost(DistFreq(T, store.tokens), dtree.dl[..30], DistExtras())
      ensures |DataBits(T, FixedLiteral(), FixedDistance(), store.tokens)|
        == Cost(LitFreq(T, store.tokens), FixedLiteral()[..286], LitExtras())
          + Cost(DistFreq(T, store.tokens), FixedDistance()[..30], DistExtras())
    {
      hide LitFreq, DistFreq, TablesOk, StaticTrees, FixedLiteral, FixedDistance, Cost, Built, Usable, DataBits,
           AllCoded, Sum;
      var ts := store.tokens;
      BuiltUsable(T, ts, ltree.fc[..], ltree.dl[..], ltree.maxCode, dtree.fc[..], dtree.dl[..], dtree.maxCode);
      BuiltShape(LitFreq(T, ts), ltree.fc[..], ltree.dl[..], ltree.maxCode);
      BuiltShape(DistFreq(T, ts), dtree.fc[..], dtree.dl[..], dtree.maxCode);
      lits, dists := ltree.dl[..ltree.maxCode + 1], dtree.dl[..dtree.maxCode + 1];
      StaticIsFixed(slFc[..], slDl[..], sdFc[..], sdDl[..]);
      StaticUsable(T, ts, slFc[..], sdFc[..]);
      UsableEnd(T, lits, dists, ts);
    }

    /** The literal and distance trees, with their share of the predicted lengths. */
    method BuildBoth()
      requires Shape() && Counts() && b.optLen == 0 && b.staticLen == 0 && |store.tokens| < LIT_BUFSIZE
      modifies b, b.heap, b.depth, b.blCount, ltree, ltree.fc, ltree.dl, dtree, dtree.fc, dtree.dl
      ensures ValidTokens(store.tokens)
      ensures Built(LitFreq(T, store.tokens), ltree.fc[..], ltree.dl[..], ltree.maxCode, 15)
      ensures Built(DistFreq(T, store.tokens), dtree.fc[..], dtree.dl[..], dtree.maxCode, 15)
      ensures b.optLen == Cost(LitFreq(T, store.tokens), ltree.dl[..286], LitExtras())
                        + Cost(DistFreq(T, store.tokens), dtree.dl[..30], DistExtras())
      ensures b.staticLen == Cost(LitFreq(T, store.tokens), FixedLiteral()[..286], LitExtras())
                           + Cost(DistFreq(T, store.tokens), FixedDistance()[..30], DistExtras())
    {
      hide LitFreq, DistFreq, TablesOk, FixedLiteral, FixedDistance, Cost, Built, Sum;
      FreqTotal(T, store.tokens);
      LExtras(ltree);
      DExtras(dtree);
      BuildTree(b, ltree);
      BuildTree(b, dtree);
    }
  }

  lemma TokensFit(s: Store)
    requires s.Valid()
    ensures |s.tokens| == s.lastLit < LIT_BUFSIZE
  {
  }

  method Bump(a: array<nat>, ghost n: nat, i: nat)
    requires i < n <= a.Length
    modifies a
    ensures a[..n] == Inc(old(a[..n]), i, 1)
  {
    a[i] := a[i] + 1;
  }

  lemma CodesInRange(T: Tables, t: Token)
    requires TablesOk(T) && ValidToken(t) && t.Match?
    ensures LengthCode(T, t) < 29 && DistCode(T, t) < 30
  {
    assert LengthCodeOf(t.length - 3, LengthCode(T, t)) && DistCodeOf(t.dist - 1, DistCode(T, t));
  }

  /** `ct_init`: the tables, the static trees and the first block. */
  method CtInit(w: Writer) returns (c: Coder)
    requires w.Valid() && |w.Stream()| % 8 == 0
    ensures c.Valid() && c.w == w && c.store.tokens == [] && c.store.tallied == [] && c.origin == |w.Stream()|
    ensures c.opening == w.Stream()
    ensures fresh(c) && fresh(c.slFc) && fresh(c.slDl) && fresh(c.sdFc) && fresh(c.sdDl) && fresh(c.b)
    ensures fresh(c.b.heap) && fresh(c.b.depth) && fresh(c.b.blCount)
    ensures fresh(c.ltree) && fresh(c.ltree.fc) && fresh(c.ltree.dl) && fresh(c.dtree) && fresh(c.dtree.fc)
    ensures fresh(c.dtree.dl)
    ensures fresh(c.bltree) && fresh(c.bltree.fc) && fresh(c.bltree.dl)
    ensures fresh(c.store) && fresh(c.store.lbuf) && fresh(c.store.dbuf) && fresh(c.store.flagBuf)
  {
    hide LitFreq, DistFreq, TablesOk, StaticTrees, FixedLiteral, FixedDistance, Holds, Flagged, Pending;
    var tables := InitTables();
    var b, fc, dl, dfc, ddl := FirstStatic();
    var l, d, bl, s := FirstBlock(tables, dl[..], ddl[..]);
    c := new Coder(w, b, l, d, bl, tables, fc, dl, dfc, ddl, s);
  }

  method InitTables() returns (T: Tables)
    ensures TablesOk(T)
  {
    hide LengthTables, DistTables;
    var lengthCode, baseLength := InitLengthCodes();
    var distCode, baseDist := InitDistCodes();
    T := Tables(lengthCode, baseLength, distCode, baseDist);
  }

  method FirstStatic() returns (b: Builder, fc: array<nat>, dl: array<nat>, dfc: array<nat>, ddl: array<nat>)
    ensures fresh(b) && b.Valid() && fresh(b.heap) && fresh(b.depth) && fresh(b.blCount) && b.optLen == 0
    ensures b.staticLen == 0
    ensures fresh(fc) && fresh(dl) && fresh(dfc) && fresh(ddl)
    ensures {b.heap, b.depth, b.blCount} !! {fc, dl, dfc, ddl}
    ensures StaticTrees(fc[..], dl[..], dfc[..], ddl[..]) && dl[..] == FixedLiteral() && ddl[..] == FixedDistance()
  {
    hide StaticTrees, FixedLiteral, FixedDistance;
    b := new Builder();
    fc, dl, dfc, ddl := InitStatic(b);
    StaticIsFixed(fc[..], dl[..], dfc[..], ddl[..]);
  }

  /** The trees and the buffer of an empty block. */
  method FirstBlock(T: Tables, llen: seq<nat>, dlen: seq<nat>) returns (l: Tree, d: Tree, bl: Tree, s: Store)
    requires TablesOk(T) && llen == FixedLiteral() && dlen == FixedDistance()
    ensures IsLTree(l) && IsDTree(d) && IsBlTree(bl) && Apart(l, d, bl)
    ensures fresh(l) && fresh(l.fc) && fresh(l.dl) && fresh(d) && fresh(d.fc) && fresh(d.dl)
    ensures fresh(bl) && fresh(bl.fc) && fresh(bl.dl)
    ensures fresh(s) && fresh(s.lbuf) && fresh(s.dbuf) && fresh(s.flagBuf) && s.Valid() && s.tokens == []
    ensures s.tallied == []
    ensures {l.fc, l.dl, d.fc, d.dl, bl.fc, bl.dl} !! {s.lbuf, s.dbuf, s.flagBuf}
    ensures ValidTokens([]) && l.fc[..286] == LitFreq(T, []) && d.fc[..30] == DistFreq(T, [])
    ensures forall n :: 0 <= n < 19 ==> bl.fc[n] == 0
  {
    hide LitFreq, DistFreq, TablesOk, FixedLiteral, FixedDistance, Holds, Flagged, Pending;
    l, d, bl := MakeTrees(llen, dlen);
    l.fc[END_BLOCK] := 1;
    EmptyBlock(T, l.fc[..286], d.fc[..30]);
    s := new Store();
  }

  lemma StaticIsFixed(lcode: seq<nat>, llen: seq<nat>, dcode: seq<nat>, dlen: seq<nat>)
    requires StaticTrees(lcode, llen, dcode, dlen)
    ensures llen == FixedLiteral() && dlen == FixedDistance()
  {
  }

  lemma EmptyBlock(T: Tables, lf: seq<nat>, df: seq<nat>)
    requires TablesOk(T) && |lf| == 286 && |df| == 30
    requires forall n :: 0 <= n < 286 ==> lf[n] == if n == END_BLOCK then 1 else 0
    requires forall n :: 0 <= n < 30 ==> df[n] == 0
    ensures ValidTokens([]) && lf == LitFreq(T, []) && df == DistFreq(T, [])
  {
    hide TablesOk;
  }

  lemma FreqAppend(T: Tables, ts: seq<Token>, t: Token)
    requires TablesOk(T) && ValidTokens(ts) && ValidToken(t)
    ensures ValidTokens(ts + [t])
    ensures LitFreq(T, ts + [t]) == Inc(LitFreq(T, ts), LitSym(T, t), 1)
    ensures DistFreq(T, ts + [t]) == if t.Match? then Inc(DistFreq(T, ts), DistCode(T, t), 1) else DistFreq(T, ts)
  {
    hide LitSym, DistCode, TablesOk;
    var us := ts + [t];
    assert us[..|us| - 1] == ts && us[|us| - 1] == t;
  }

  lemma LExtras(t: Tree)
    requires IsLTree(t)
    ensures Extras(t) == LitExtras()
  {
  }

  lemma DExtras(t: Tree)
    requires IsDTree(t)
    ensures Extras(t) == DistExtras()
  {
  }

  /** The lengths of both trees give every token of the block a decodable code. */
  ghost predicate Usable(T: Tables, lits: seq<nat>, dists: seq<nat>, ts: seq<Token>)
  {
    && AllCodable(T, lits, dists, ts) && KraftOk(lits) && KraftOk(dists)
    && END_BLOCK < |lits| && 1 <= lits[END_BLOCK] <= MAX_BITS
  }

  /** The data of a block: its tokens and the end-of-block code. */
  ghost function DataBits(T: Tables, lits: seq<nat>, dists: seq<nat>, ts: seq<Token>): BitString
    requires Usable(T, lits, dists, ts)
  {
    TokensBits(T, lits, dists, ts) + Codeword(lits, END_BLOCK)
  }

  /** The trees built from a block's own frequencies are usable for it, and cost what was predicted. */
  lemma BuiltUsable(T: Tables, ts: seq<Token>, lcode: seq<nat>, llen: seq<nat>, lmax: int, dcode: seq<nat>,
                    dlen: seq<nat>, dmax: int)
    requires TablesOk(T) && ValidTokens(ts)
    requires Built(LitFreq(T, ts), lcode, llen, lmax, 15) && Built(DistFreq(T, ts), dcode, dlen, dmax, 15)
    ensures Usable(T, llen[..lmax + 1], dlen[..dmax + 1], ts) && lmax >= 256
    ensures |DataBits(T, llen[..lmax + 1], dlen[..dmax + 1], ts)|
      == Cost(LitFreq(T, ts), llen[..286], LitExtras()) + Cost(DistFreq(T, ts), dlen[..30], DistExtras())
  {
    hide LitFreq, DistFreq, Cost, KraftOk, AllCoded, Rarer, TokensBits, Codeword, Kraft, TablesOk, LitSym, DistCode;
    var lits, dists := llen[..lmax + 1], dlen[..dmax + 1];
    FreqPositive(T, ts);
    forall i | 0 <= i < |ts|
      ensures Codable(T, lits, dists, ts[i])
    {
      assert LitFreq(T, ts)[LitSym(T, ts[i])] > 0;
    }
    TokensCost(T, lits, dists, ts);
    assert Padded(lits, 286) == llen[..286];
    assert Padded(dists, 30) == dlen[..30];
  }

  lemma StaticUsable(T: Tables, ts: seq<Token>, lcode: seq<nat>, dcode: seq<nat>)
    requires TablesOk(T) && ValidTokens(ts) && StaticTrees(lcode, FixedLiteral(), dcode, FixedDistance())
    ensures Usable(T, FixedLiteral(), FixedDistance(), ts)
    ensures |DataBits(T, FixedLiteral(), FixedDistance(), ts)|
      == Cost(LitFreq(T, ts), FixedLiteral()[..286], LitExtras())
        + Cost(DistFreq(T, ts), FixedDistance()[..30], DistExtras())
  {
    hide LitFreq, DistFreq, Cost, KraftOk, AllCoded, TokensBits, Codeword, Kraft, TablesOk, LitSym;
    var lits, dists := FixedLiteral(), FixedDistance();
    forall i | 0 <= i < |ts|
      ensures Codable(T, lits, dists, ts[i])
    {
      assert LitSym(T, ts[i]) < 286;
    }
    TokensCost(T, lits, dists, ts);
    assert Padded(lits, 286) == lits[..286];
    assert Padded(dists, 30) == dists[..30];
  }

  lemma BuiltShape(freq: seq<nat>, code: seq<nat>, len: seq<nat>, max: int)
    requires Built(freq, code, len, max, 15)
    ensures 1 <= max < |freq| <= |len| && max < |code|
    ensures AllCoded(code, len[..max + 1], max + 1)
    ensures forall n :: 0 <= n <= max ==> len[n] <= 15
  {
  }

  lemma UsableEnd(T: Tables, lits: seq<nat>, dists: seq<nat>, ts: seq<Token>)
    requires Usable(T, lits, dists, ts)
    ensures END_BLOCK < |lits| && lits[END_BLOCK] >= 1
  {
  }
}
