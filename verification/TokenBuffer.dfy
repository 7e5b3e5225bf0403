/** The packed token buffer of gzip.c, and `compress_block`, which sends it. */
module TokenBuffer {
  import opened Bits
  import opened BitWriter
  import opened CanonicalCode
  import opened Inflate
  import opened CodeTables
  import opened TreeSend
  import opened TokenCode

  // ----- the layout

  /** The byte that `l_buf` holds for a token. */
  function LitByte(t: Token): (r: int)
    requires ValidToken(t)
    ensures 0 <= r < 256
  {
    if t.Literal? then t.lit else t.length - 3
  }

  /** Which tokens are matches, as the bits of the flag bytes. */
  function Flags(ts: seq<Token>): (r: BitString)
    ensures |r| == |ts|
  {
    seq(|ts|, i requires 0 <= i < |ts| => ts[i].Match?)
  }

  /** How many of the first `n` tokens are matches: where the next distance is. */
  function Matches(ts: seq<Token>, n: nat): (r: nat)
    requires n <= |ts|
    ensures r <= n
  {
    if n == 0 then 0 else Matches(ts, n - 1) + (if ts[n - 1].Match? then 1 else 0)
  }

  lemma {:induction false} MatchesPrefix(ts: seq<Token>, t: Token, n: nat)
    requires n <= |ts|
    ensures Matches(ts + [t], n) == Matches(ts, n)
  {
    if n > 0 {
      MatchesPrefix(ts, t, n - 1);
    }
  }

  lemma {:induction false} MatchesMono(ts: seq<Token>, m: nat, n: nat)
    requires m < n <= |ts| && ts[m].Match?
    ensures Matches(ts, m) < Matches(ts, n)
  {
    if m + 1 < n {
      MatchesMono(ts, m, n - 1);
    }
  }

  function Min(a: int, b: int): int
  {
    if a <= b then a else b
  }

  /** `l_buf` and `d_buf` hold the tokens. */
  ghost predicate Holds(l: seq<nat>, d: seq<nat>, ts: seq<Token>)
  {
    && ValidTokens(ts) && |ts| <= |l| && |ts| <= |d|
    && (forall i :: 0 <= i < |ts| ==> l[i] == LitByte(ts[i]))
    && (forall i :: 0 <= i < |ts| && ts[i].Match? ==> d[Matches(ts, i)] == ts[i].dist - 1)
  }

  /** The first `n / 8` flag bytes are complete. */
  ghost predicate Flagged(fl: seq<nat>, ts: seq<Token>)
  {
    && |ts| / 8 <= |fl|
    && forall m {:trigger fl[m]} :: 0 <= m < |ts| / 8 ==> Lsb(fl[m], 8) == Flags(ts[8 * m..8 * m + 8])
  }

  /** `fl[m]` holds the flags of the tokens of its group, be it complete or not. */
  ghost predicate Packed(l: seq<nat>, d: seq<nat>, fl: seq<nat>, ts: seq<Token>)
  {
    && Holds(l, d, ts)
    && (|ts| + 7) / 8 <= |fl|
    && forall m {:trigger fl[m]} :: 0 <= m && 8 * m < |ts| ==>
         Lsb(fl[m], Min(8, |ts| - 8 * m)) == Flags(ts[8 * m..Min(8 * m + 8, |ts|)])
  }

  lemma HoldsAppend(l: seq<nat>, d: seq<nat>, ts: seq<Token>, t: Token, l': seq<nat>, d': seq<nat>)
    requires Holds(l, d, ts) && ValidToken(t) && |ts| < |l| && |ts| < |d|
    requires l' == l[|ts| := LitByte(t)]
    requires d' == if t.Match? then d[Matches(ts, |ts|) := t.dist - 1] else d
    ensures Holds(l', d', ts + [t]) && Matches(ts + [t], |ts| + 1) == Matches(ts, |ts|) + (if t.Match? then 1 else 0)
  {
    hide Matches;
    var us := ts + [t];
    MatchesPrefix(ts, t, |ts|);
    MatchesStep(us, |ts|);
    forall i | 0 <= i < |us| && us[i].Match?
      ensures d'[Matches(us, i)] == us[i].dist - 1
    {
      if i < |ts| {
        MatchesPrefix(ts, t, i);
        assert us[i] == ts[i];
        MatchesMono(ts, i, |ts|);
      }
    }
  }

  lemma MatchesStep(ts: seq<Token>, n: nat)
    requires n < |ts|
    ensures Matches(ts, n + 1) == Matches(ts, n) + (if ts[n].Match? then 1 else 0)
  {
  }

  lemma FlagsAppend(ts: seq<Token>, t: Token, lo: nat)
    requires lo <= |ts|
    ensures Flags((ts + [t])[lo..]) == Flags(ts[lo..]) + [t.Match?]
  {
    assert (ts + [t])[lo..] == ts[lo..] + [t];
  }

  lemma FlaggedAppend(fl: seq<nat>, ts: seq<Token>, t: Token, v: nat)
    requires Flagged(fl, ts) && (|ts| + 1) / 8 <= |fl|
    requires |ts| % 8 == 7 ==> Lsb(v, 8) == Flags((ts + [t])[|ts| - 7..])
    ensures if |ts| % 8 == 7 then Flagged(fl[|ts| / 8 := v], ts + [t]) else Flagged(fl, ts + [t])
  {
    hide Lsb, Flags;
    var us := ts + [t];
    assert forall m :: 0 <= m < |ts| / 8 ==> us[8 * m..8 * m + 8] == ts[8 * m..8 * m + 8];
    if |ts| % 8 == 7 {
      var q := |ts| / 8;
      assert |ts| - 7 == 8 * q;
      assert us[8 * q..8 * q + 8] == us[|ts| - 7..];
    }
  }

  /** Saving the flags of the last, incomplete group completes the buffer. */
  lemma PackedAtFlush(l: seq<nat>, d: seq<nat>, fl: seq<nat>, ts: seq<Token>, flags: nat)
    requires Holds(l, d, ts) && Flagged(fl, ts) && |ts| / 8 < |fl|
    requires Lsb(flags, |ts| % 8) == Flags(ts[8 * (|ts| / 8)..])
    ensures Packed(l, d, fl[|ts| / 8 := flags], ts)
  {
    hide Lsb, Flags;
    var q, fl' := |ts| / 8, fl[|ts| / 8 := flags];
    forall m {:trigger fl'[m]} | 0 <= m && 8 * m < |ts|
      ensures Lsb(fl'[m], Min(8, |ts| - 8 * m)) == Flags(ts[8 * m..Min(8 * m + 8, |ts|)])
    {
      if m == q {
        assert ts[8 * m..Min(8 * m + 8, |ts|)] == ts[8 * q..];
        assert |ts| - 8 * q == |ts| % 8;
      } else {
        assert m < q;
      }
    }
  }

  const LIT_BUFSIZE := 0x2000
  const DIST_BUFSIZE := 0x2000

  /** The flags of the incomplete group, and the bit of the next token in it. */
  ghost predicate Pending(flags: nat, flagBit: nat, ts: seq<Token>)
  {
    && flags < Pow2(|ts| % 8) && flagBit == Pow2(|ts| % 8)
    && Lsb(flags, |ts| % 8) == Flags(ts[8 * (|ts| / 8)..])
  }

  /** The flag of one more token joins the pending ones; the eighth completes the byte. */
  lemma PendingAppend(flags: nat, flagBit: nat, ts: seq<Token>, t: Token)
    requires Pending(flags, flagBit, ts)
    ensures var f := if t.Match? then Or(flags, flagBit) else flags;
      if |ts| % 8 == 7 then Lsb(f, 8) == Flags((ts + [t])[|ts| - 7..])
      else Pending(f, (2 * flagBit) % 256, ts + [t])
  {
    hide Or, Lsb, Shl, Flags, Pow2;
    var k, bit := |ts| % 8, if t.Match? then 1 else 0;
    var f := if t.Match? then Or(flags, flagBit) else flags;
    ShlOne(k);
    OrDisjoint(flags, bit, k);
    OrZero(flags);
    LsbConcat(flags, k, bit, 1);
    OneBit(bit);
    FieldFits(flags, k, bit, 1);
    FlagsAppend(ts, t, 8 * (|ts| / 8));
    assert f == flags + Shl(bit, k);
    Pow2Mono(k, 7);
    Pow2Small();
    Pow2Double(k);
  }

  lemma ShlOne(k: nat)
    ensures Shl(1, k) == Pow2(k) && Shl(0, k) == 0 && Pow2(k + 1) == 2 * Pow2(k)
  {
    ShlIsMul(1, k);
    ShlIsMul(0, k);
  }

  lemma OrZero(v: nat)
    ensures Or(v, 0) == v
  {
  }

  lemma OneBit(b: nat)
    requires b < 2
    ensures Lsb(b, 1) == [b == 1] && b < Pow2(1)
  {
    assert Lsb(b / 2, 0) == [];
  }

  ghost predicate EndsWith(all: seq<Token>, ts: seq<Token>)
  {
    |ts| <= |all| && all[|all| - |ts|..] == ts
  }

  lemma EndsWithNext(all: seq<Token>, ts: seq<Token>, t: Token)
    requires EndsWith(all, ts)
    ensures EndsWith(all + [t], ts + [t])
  {
  }

  /** `l_buf`, `d_buf` and `flag_buf` with their running indices. */
  class Store {
    const lbuf: array<nat>
    const dbuf: array<nat>
    const flagBuf: array<nat>
    var lastLit: nat
    var lastDist: nat
    var lastFlags: nat
    var flags: nat
    var flagBit: nat
    /** The tokens that the buffer stands for: those since the last flush. */
    ghost var tokens: seq<Token>
    /** All tokens ever tallied. */
    ghost var tallied: seq<Token>

    ghost predicate Shape()
    {
      && lbuf.Length == LIT_BUFSIZE && dbuf.Length == DIST_BUFSIZE && flagBuf.Length == LIT_BUFSIZE / 8
      && lbuf != dbuf && lbuf != flagBuf && dbuf != flagBuf
    }

    ghost predicate Valid()
      reads this, lbuf, dbuf, flagBuf
    {
      && Shape() && |tokens| < LIT_BUFSIZE && EndsWith(tallied, tokens)
      && Holds(lbuf[..], dbuf[..], tokens)
      && Flagged(flagBuf[..], tokens)
      && lastLit == |tokens| && lastDist == Matches(tokens, |tokens|) && lastFlags == |tokens| / 8
      && Pending(flags, flagBit, tokens)
    }

    constructor ()
      ensures Valid() && tokens == [] && tallied == [] && fresh(lbuf) && fresh(dbuf) && fresh(flagBuf)
    {
      lbuf := new nat[LIT_BUFSIZE](_ => 0);
      dbuf := new nat[DIST_BUFSIZE](_ => 0);
      flagBuf := new nat[LIT_BUFSIZE / 8](_ => 0);
      lastLit, lastDist, lastFlags, flags, flagBit := 0, 0, 0, 0, 1;
      tokens, tallied := [], [];
    }

    /** The storing part of `ct_tally`; `lc` is a literal when `dist` is 0, else the match length less 3. */
    method Push(dist: nat, lc: nat, ghost t: Token)
      requires Valid() && |tokens| < LIT_BUFSIZE - 1 && ValidToken(t) && lc == LitByte(t)
      requires dist == if t.Match? then t.dist else 0
      modifies this, lbuf, dbuf, flagBuf
      ensures Valid() && tokens == old(tokens) + [t] && tallied == old(tallied) + [t]
    {
      hide EndsWith, Holds, Flagged, Pending, Flags, Lsb, Matches, Or;
      PendingAppend(flags, flagBit, tokens, t);
      PutToken(dist, lc, t);
      PutFlag(t);
      EndsWithNext(tallied, tokens, t);
      tokens, tallied := tokens + [t], tallied + [t];
    }

    /** The token's bytes; a match sets the pending flag. */
    method PutToken(dist: nat, lc: nat, ghost t: Token)
      requires Shape() && Holds(lbuf[..], dbuf[..], tokens) && |tokens| < LIT_BUFSIZE - 1
      requires lastLit == |tokens| && lastDist == Matches(tokens, |tokens|) && ValidToken(t)
      requires lc == LitByte(t) && dist == if t.Match? then t.dist else 0
      modifies this`lastLit, this`lastDist, this`flags, lbuf, dbuf
      ensures Holds(lbuf[..], dbuf[..], tokens + [t])
      ensures lastLit == |tokens| + 1 && lastDist == Matches(tokens + [t], |tokens| + 1)
      ensures flags == if t.Match? then Or(old(flags), flagBit) else old(flags)
    {
      hide Holds, Matches, Or;
      ghost var l: seq<nat>, d: seq<nat> := lbuf[..], dbuf[..];
      lbuf[lastLit] := lc;
      lastLit := lastLit + 1;
      ghost var d' := d;
      if dist != 0 {
        dbuf[lastDist] := dist - 1;
        d' := d[lastDist := dist - 1];
        lastDist := lastDist + 1;
        flags := Or(flags, flagBit);
      }
      assert lbuf[..] == l[|tokens| := LitByte(t)] && dbuf[..] == d';
      HoldsAppend(l, d, tokens, t, lbuf[..], dbuf[..]);
    }

    /** The pending flags, saved when there are eight of them. */
    method PutFlag(ghost t: Token)
      requires Shape() && Flagged(flagBuf[..], tokens) && |tokens| < LIT_BUFSIZE - 1
      requires lastLit == |tokens| + 1 && lastFlags == |tokens| / 8
      requires if |tokens| % 8 == 7 then Lsb(flags, 8) == Flags((tokens + [t])[|tokens| - 7..])
               else Pending(flags, (2 * flagBit) % 256, tokens + [t])
      modifies this`lastFlags, this`flags, this`flagBit, flagBuf
      ensures Flagged(flagBuf[..], tokens + [t]) && Pending(flags, flagBit, tokens + [t])
      ensures lastFlags == (|tokens| + 1) / 8
    {
      hide Flagged, Pending, Flags, Lsb;
      ghost var fl: seq<nat>, full := flagBuf[..], flags;
      FlaggedAppend(fl, tokens, t, full);
      flagBit := (2 * flagBit) % 256;
      if lastLit % 8 == 0 {
        flagBuf[lastFlags] := flags;
        lastFlags := lastFlags + 1;
        flags := 0;
        flagBit := 1;
        assert flagBuf[..] == fl[|tokens| / 8 := full];
        FreshGroup(tokens + [t]);
      }
    }

    /** `flush_block` saves the flags of the last group. */
    method SaveFlags()
      requires Valid()
      modifies flagBuf
      ensures Valid() && Packed(lbuf[..], dbuf[..], flagBuf[..], tokens)
    {
      hide Holds, Pending, Flags, Lsb, Matches;
      ghost var fl: seq<nat> := flagBuf[..];
      PendingFlags(flags, flagBit, tokens);
      PackedAtFlush(lbuf[..], dbuf[..], fl, tokens, flags);
      flagBuf[lastFlags] := flags;
      assert flagBuf[..] == fl[|tokens| / 8 := flags];
    }

    /** The part of `init_block` that empties the buffer. */
    method Reset()
      requires Shape()
      modifies this
      ensures Valid() && tokens == [] && tallied == old(tallied)
    {
      lastLit, lastDist, lastFlags := 0, 0, 0;
      flags := 0;
      flagBit := 1;
      tokens := [];
    }
  }

  lemma FreshGroup(ts: seq<Token>)
    requires |ts| % 8 == 0
    ensures Pending(0, 1, ts)
  {
    assert ts[8 * (|ts| / 8)..] == [];
  }

  lemma PendingFlags(flags: nat, flagBit: nat, ts: seq<Token>)
    requires Pending(flags, flagBit, ts)
    ensures Lsb(flags, |ts| % 8) == Flags(ts[8 * (|ts| / 8)..])
  {
  }

  // ----- sending

  lemma MatchFields(T: Tables, t: Token)
    requires TablesOk(T) && ValidToken(t) && t.Match?
    ensures var c := LengthCode(T, t);
      && c < LENGTH_CODES && ExtraLength(c) == LengthExtra(c) <= 16 && t.length >= LengthBase(c)
      && t.length - LengthBase(c) < Pow2(LengthExtra(c))
      && (LengthExtra(c) != 0 ==> t.length - LengthBase(c) == t.length - 3 - T.baseLength[c])
    ensures var d := DistCode(T, t);
      && d < D_CODES && ExtraDist(d) == DistExtra(d) <= 16 && t.dist >= DistBase(d)
      && t.dist - DistBase(d) < Pow2(DistExtra(d))
      && t.dist - DistBase(d) == t.dist - 1 - T.baseDist[d]
  {
    ExtraIsExtra(LengthCode(T, t), DistCode(T, t));
    ExtraSmall(LengthCode(T, t), DistCode(T, t));
  }

  lemma ExtraSmall(c: nat, d: nat)
    requires c < 29 && d < 30
    ensures LengthExtra(c) <= 5 && DistExtra(d) <= 13 && (c == 28 ==> LengthExtra(c) == 0)
  {
  }

  /** The match branch of `compress_block`: `lc` is the length less 3, `dist` the distance less 1. */
  method SendMatch(w: Writer, T: Tables, lfc: array<nat>, ldl: array<nat>, dfc: array<nat>,
                   ddl: array<nat>, lc: nat, dist: nat,
                   ghost t: Token, ghost lits: seq<nat>, ghost dists: seq<nat>)
    requires w.Valid() && Sends(lfc, ldl, lits) && Sends(dfc, ddl, dists) && TablesOk(T)
    requires ValidToken(t) && t.Match? && Codable(T, lits, dists, t) && lc == t.length - 3 && dist == t.dist - 1
    modifies w, w.outbuf
    ensures w.Valid() && w.Stream() == old(w.Stream()) + MatchBits(T, lits, dists, t)
  {
    hide Codeword, Lsb, LengthBase, LengthExtra, DistBase, DistExtra, ExtraLength, ExtraDist, Pow2, LengthTables,
         DistTables, Sends, Writer.Valid, Writer.Stream;
    MatchFields(T, t);
    TableSizes(T);
    ghost var s0, c, d := w.Stream(), LengthCode(T, t), DistCode(T, t);
    var code := T.lengthCode[lc];
    SendSymbol(w, lfc, ldl, code + LITERALS + 1, lits);
    var extra := ExtraLength(code);
    if extra != 0 {
      w.SendBits(lc - T.baseLength[code], extra);
    } else {
      NoExtra(t.length - LengthBase(c));
    }
    assert w.Stream() == s0 + Codeword(lits, 257 + c) + Lsb(t.length - LengthBase(c), LengthExtra(c));
    ghost var s1 := w.Stream();
    SendDistance(w, T, dfc, ddl, dist, t, dists);
    MatchAssoc(s0, Codeword(lits, 257 + c), Lsb(t.length - LengthBase(c), LengthExtra(c)),
               Codeword(dists, d) + Lsb(t.dist - DistBase(d), DistExtra(d)));
  }

  lemma MatchAssoc(s: BitString, a: BitString, b: BitString, c: BitString)
    ensures s + a + b + c == s + (a + (b + c))
  {
  }

  lemma NoExtra(x: nat)
    ensures Lsb(x, 0) == []
  {
  }

  lemma TableSizes(T: Tables)
    requires TablesOk(T)
    ensures |T.lengthCode| == 256 && |T.baseLength| == LENGTH_CODES && |T.distCode| == 512 && |T.baseDist| == D_CODES
  {
  }

  method SendDistance(w: Writer, T: Tables, dfc: array<nat>, ddl: array<nat>, dist: nat, ghost t: Token,
                      ghost dists: seq<nat>)
    requires w.Valid() && Sends(dfc, ddl, dists) && TablesOk(T) && ValidToken(t) && t.Match? && dist == t.dist - 1
    requires DistCode(T, t) < |dists| && 1 <= dists[DistCode(T, t)] <= MAX_BITS
    modifies w, w.outbuf
    ensures w.Valid()
    ensures var d := DistCode(T, t);
      w.Stream() == old(w.Stream()) + (Codeword(dists, d) + Lsb(t.dist - DistBase(d), DistExtra(d)))
  {
    hide Codeword, Lsb, LengthBase, LengthExtra, DistBase, DistExtra, ExtraLength, ExtraDist, Pow2, LengthTables,
         DistTables;
    MatchFields(T, t);
    TableSizes(T);
    ghost var s0, d := w.Stream(), DistCode(T, t);
    var code := DCode(T.distCode, dist);
    SendSymbol(w, dfc, ddl, code, dists);
    Assoc(s0, Codeword(dists, d), Lsb(t.dist - DistBase(d), DistExtra(d)));
    var extra := ExtraDist(code);
    if extra != 0 {
      w.SendBits(dist - T.baseDist[code], extra);
    } else {
      NoExtra(t.dist - DistBase(d));
    }
  }

  /** The flags not yet consumed of the current flag byte. */
  ghost predicate Reading(fl: seq<nat>, ts: seq<Token>, lx: nat, fx: nat, flag: nat)
  {
    && lx <= |ts| && fx == (lx + 7) / 8
    && Lsb(flag, Min(8 * fx, |ts|) - Min(lx, |ts|)) == Flags(ts[lx..Min(8 * fx, |ts|)])
  }

  /** The flag of token `lx` decides its branch. */
  lemma NextFlag(l: seq<nat>, d: seq<nat>, fl: seq<nat>, ts: seq<Token>, lx: nat, fx: nat, flag: nat)
    requires Packed(l, d, fl, ts) && Reading(fl, ts, lx, fx, flag) && lx < |ts|
    ensures lx % 8 == 0 ==> fx < |fl|
    ensures var f := if lx % 8 == 0 then fl[fx] else flag;
      var fx' := if lx % 8 == 0 then fx + 1 else fx;
      (f % 2 == 1 <==> ts[lx].Match?) && Reading(fl, ts, lx + 1, fx', f / 2)
  {
    var f := if lx % 8 == 0 then fl[fx] else flag;
    var fx' := if lx % 8 == 0 then fx + 1 else fx;
    var hi := Min(8 * fx', |ts|);
    assert fx' == (lx + 8) / 8;
    assert Lsb(f, hi - lx) == Flags(ts[lx..hi]);
    FirstFlag(f, ts[lx..hi]);
    assert ts[lx..hi][1..] == ts[lx + 1..hi];
  }

  /** The low bit of a flag byte is the flag of the first token, the rest those of the others. */
  lemma FirstFlag(f: nat, ts: seq<Token>)
    requires ts != [] && Lsb(f, |ts|) == Flags(ts)
    ensures (f % 2 == 1 <==> ts[0].Match?) && Lsb(f / 2, |ts| - 1) == Flags(ts[1..])
  {
    var b := Lsb(f, |ts|);
    assert b[0] == (f % 2 == 1) && b[1..] == Lsb(f / 2, |ts| - 1);
    assert Flags(ts)[1..] == Flags(ts[1..]);
  }

  /** One token: the flag says which kind, and a match takes the next distance. */
  method SendToken(w: Writer, T: Tables, lfc: array<nat>, ldl: array<nat>, dfc: array<nat>,
                   ddl: array<nat>, dbuf: array<nat>, lc: nat, flag: nat, dx: nat,
                   ghost t: Token, ghost lits: seq<nat>, ghost dists: seq<nat>)
    returns (dx': nat)
    requires w.Valid() && Sends(lfc, ldl, lits) && Sends(dfc, ddl, dists) && TablesOk(T)
    requires ValidToken(t) && Codable(T, lits, dists, t) && lc == LitByte(t) && (flag % 2 == 1 <==> t.Match?)
    requires t.Match? ==> dx < dbuf.Length && dbuf[dx] == t.dist - 1
    modifies w, w.outbuf
    ensures w.Valid() && w.Stream() == old(w.Stream()) + TokenBits(T, lits, dists, t)
    ensures dx' == dx + (if t.Match? then 1 else 0)
  {
    hide Codeword, MatchBits, Sends, TablesOk;
    dx' := dx;
    if flag % 2 == 0 {
      SendSymbol(w, lfc, ldl, lc, lits);
    } else {
      SendMatch(w, T, lfc, ldl, dfc, ddl, lc, dbuf[dx], t, lits, dists);
      dx' := dx + 1;
    }
  }

  /** `compress_block`: exactly the tokens of the buffer, then the end-of-block code. */
  method CompressBlock(w: Writer, T: Tables, lfc: array<nat>, ldl: array<nat>, dfc: array<nat>, ddl: array<nat>,
                       lbuf: array<nat>, dbuf: array<nat>, flagBuf: array<nat>, lastLit: nat,
                       ghost ts: seq<Token>, ghost lits: seq<nat>, ghost dists: seq<nat>)
    requires w.Valid() && Sends(lfc, ldl, lits) && Sends(dfc, ddl, dists)
    requires Packed(lbuf[..], dbuf[..], flagBuf[..], ts) && lastLit == |ts|
    requires AllCodable(T, lits, dists, ts) && END_BLOCK < |lits| && 1 <= lits[END_BLOCK] <= MAX_BITS
    modifies w, w.outbuf
    ensures w.Valid()
    ensures w.Stream() == old(w.Stream()) + (TokensBits(T, lits, dists, ts) + Codeword(lits, END_BLOCK))
  {
    hide Packed, AllCodable, TokensBits, TokenBits, Codeword, Reading, Sends, Matches, TablesOk, Writer.Valid,
         Writer.Stream;
    ghost var goal, l, d, fl := w.Stream() + TokensBits(T, lits, dists, ts), lbuf[..], dbuf[..], flagBuf[..];
    var lx: nat, dx: nat, fx: nat, flag: nat := 0, 0, 0, 0;
    ReadingStart(fl, ts);
    assert ts[0..] == ts;
    while lx < lastLit
      invariant 0 <= lx <= lastLit && w.Valid() && Sends(lfc, ldl, lits) && Sends(dfc, ddl, dists)
      invariant lbuf[..] == l && dbuf[..] == d && flagBuf[..] == fl
      invariant dx == Matches(ts, lx) && Reading(fl, ts, lx, fx, flag)
      invariant AllCodable(T, lits, dists, ts[lx..])
      invariant w.Stream() + TokensBits(T, lits, dists, ts[lx..]) == goal
    {
      NextFlag(l, d, fl, ts, lx, fx, flag);
      NextToken(l, d, fl, T, lits, dists, ts, lx);
      if lx % 8 == 0 {
        flag := flagBuf[fx];
        fx := fx + 1;
      }
      var lc := lbuf[lx];
      Assoc(w.Stream(), TokenBits(T, lits, dists, ts[lx]), TokensBits(T, lits, dists, ts[lx + 1..]));
      dx := SendToken(w, T, lfc, ldl, dfc, ddl, dbuf, lc, flag, dx, ts[lx], lits, dists);
      lx := lx + 1;
      flag := flag / 2;
    }
    NoTokens(T, lits, dists, ts[lx..]);
    SendsLits(lfc, ldl, lits);
    SendSymbol(w, lfc, ldl, END_BLOCK, lits);
    Assoc(old(w.Stream()), TokensBits(T, lits, dists, ts), Codeword(lits, END_BLOCK));
  }

  lemma ReadingStart(fl: seq<nat>, ts: seq<Token>)
    ensures Reading(fl, ts, 0, 0, 0) && Matches(ts, 0) == 0
  {
  }

  lemma SendsLits(fc: array<nat>, dl: array<nat>, cl: seq<nat>)
    requires Sends(fc, dl, cl)
    ensures |cl| <= fc.Length && |cl| <= dl.Length
  {
  }

  lemma NoTokens(T: Tables, lits: seq<nat>, dists: seq<nat>, ts: seq<Token>)
    requires ts == [] && AllCodable(T, lits, dists, ts)
    ensures TokensBits(T, lits, dists, ts) == []
  {
  }

  lemma NextToken(l: seq<nat>, d: seq<nat>, fl: seq<nat>, T: Tables, lits: seq<nat>, dists: seq<nat>,
                  ts: seq<Token>, lx: nat)
    requires Packed(l, d, fl, ts) && lx < |ts| && AllCodable(T, lits, dists, ts[lx..])
    ensures TablesOk(T) && ValidToken(ts[lx]) && Codable(T, lits, dists, ts[lx])
    ensures |ts| <= |l| && l[lx] == LitByte(ts[lx])
    ensures ts[lx].Match? ==> Matches(ts, lx) < |d| && d[Matches(ts, lx)] == ts[lx].dist - 1
    ensures Matches(ts, lx + 1) == Matches(ts, lx) + (if ts[lx].Match? then 1 else 0)
    ensures AllCodable(T, lits, dists, ts[lx + 1..])
    ensures TokensBits(T, lits, dists, ts[lx..])
      == TokenBits(T, lits, dists, ts[lx]) + TokensBits(T, lits, dists, ts[lx + 1..])
  {
    var r := ts[lx..];
    assert r[0] == ts[lx] && r[1..] == ts[lx + 1..];
  }
}
