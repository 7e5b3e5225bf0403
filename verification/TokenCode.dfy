/** Tokens on the wire: what `compress_block` sends for each, what it costs, and that it reads back. */
module TokenCode {
  import opened Bits
  import opened CanonicalCode
  import opened Inflate
  import opened Huffman
  import opened CodeTables
  import opened TreeSend

  /** The largest distance the matcher uses: `WSIZE - MIN_LOOKAHEAD`. */
  const MAX_DIST := 32506

  datatype Tables = Tables(lengthCode: seq<nat>, baseLength: seq<nat>, distCode: seq<nat>, baseDist: seq<nat>)

  ghost predicate TablesOk(T: Tables)
  {
    LengthTables(T.lengthCode, T.baseLength) && DistTables(T.distCode, T.baseDist)
  }

  /** What the matcher hands to `ct_tally`. */
  predicate ValidToken(t: Token)
  {
    t.Match? ==> 3 <= t.length <= 258 && 1 <= t.dist <= 32768
  }

  ghost predicate ValidTokens(ts: seq<Token>)
  {
    forall i :: 0 <= i < |ts| ==> ValidToken(ts[i])
  }

  function LengthCode(T: Tables, t: Token): (c: nat)
    requires TablesOk(T) && ValidToken(t) && t.Match?
    ensures LengthCodeOf(t.length - 3, c)
  {
    T.lengthCode[t.length - 3]
  }

  function DistCode(T: Tables, t: Token): (c: nat)
    requires TablesOk(T) && ValidToken(t) && t.Match?
    ensures DistCodeOf(t.dist - 1, c)
  {
    DCode(T.distCode, t.dist - 1)
  }

  /** The symbol of the literal/length alphabet. */
  function LitSym(T: Tables, t: Token): (s: nat)
    requires TablesOk(T) && ValidToken(t)
    ensures s < L_CODES && s != END_BLOCK
  {
    if t.Literal? then t.lit else 257 + LengthCode(T, t)
  }

  /** Every symbol of the token has a code. */
  ghost predicate Codable(T: Tables, lits: seq<nat>, dists: seq<nat>, t: Token)
    requires TablesOk(T) && ValidToken(t)
  {
    && LitSym(T, t) < |lits| && 1 <= lits[LitSym(T, t)] <= MAX_BITS
    && (t.Match? ==> DistCode(T, t) < |dists| && 1 <= dists[DistCode(T, t)] <= MAX_BITS)
  }

  ghost function MatchBits(T: Tables, lits: seq<nat>, dists: seq<nat>, t: Token): BitString
    requires TablesOk(T) && ValidToken(t) && t.Match? && Codable(T, lits, dists, t)
  {
    var c, d := LengthCode(T, t), DistCode(T, t);
    Codeword(lits, 257 + c) + (Lsb(t.length - LengthBase(c), LengthExtra(c)) +
      (Codeword(dists, d) + Lsb(t.dist - DistBase(d), DistExtra(d))))
  }

  ghost function TokenBits(T: Tables, lits: seq<nat>, dists: seq<nat>, t: Token): BitString
    requires TablesOk(T) && ValidToken(t) && Codable(T, lits, dists, t)
  {
    if t.Literal? then Codeword(lits, t.lit) else MatchBits(T, lits, dists, t)
  }

  ghost predicate AllCodable(T: Tables, lits: seq<nat>, dists: seq<nat>, ts: seq<Token>)
  {
    TablesOk(T) && ValidTokens(ts) && forall i :: 0 <= i < |ts| ==> Codable(T, lits, dists, ts[i])
  }

  ghost function TokensBits(T: Tables, lits: seq<nat>, dists: seq<nat>, ts: seq<Token>): BitString
    requires AllCodable(T, lits, dists, ts)
  {
    if ts == [] then [] else TokenBits(T, lits, dists, ts[0]) + TokensBits(T, lits, dists, ts[1..])
  }

  // ----- reading back

  lemma ReadDistanceBack(T: Tables, dists: seq<nat>, t: Token, rest: BitString)
    requires TablesOk(T) && ValidToken(t) && t.Match? && KraftOk(dists)
    requires DistCode(T, t) < |dists| && dists[DistCode(T, t)] >= 1
    ensures var d := DistCode(T, t);
      ReadDistance(dists, Codeword(dists, d) + Lsb(t.dist - DistBase(d), DistExtra(d)) + rest) == Some((t.dist, rest))
  {
    hide Codeword, Lsb, DistBase, DistExtra, ReadCode, Take;
    var d := DistCode(T, t);
    var x, n := t.dist - DistBase(d), DistExtra(d);
    Assoc(Codeword(dists, d), Lsb(x, n), rest);
    ReadCoded(dists, d, Lsb(x, n) + rest);
    TakeLsb(x, n, rest);
  }

  lemma ReadMatchBack(T: Tables, lits: seq<nat>, dists: seq<nat>, t: Token, rest: BitString) returns (after: BitString)
    requires TablesOk(T) && ValidToken(t) && t.Match? && Codable(T, lits, dists, t)
    requires KraftOk(lits) && KraftOk(dists)
    ensures MatchBits(T, lits, dists, t) + rest == Codeword(lits, 257 + LengthCode(T, t)) + after
    ensures ReadMatch(dists, LengthCode(T, t), after) == Some((t, rest))
  {
    hide Codeword, Lsb, LengthBase, LengthExtra, DistBase, DistExtra, ReadCode, Take, ReadDistance;
    var c, d := LengthCode(T, t), DistCode(T, t);
    var x, n := t.length - LengthBase(c), LengthExtra(c);
    var tail := Codeword(dists, d) + Lsb(t.dist - DistBase(d), DistExtra(d));
    after := Lsb(x, n) + (tail + rest);
    Assoc(Lsb(x, n), tail, rest);
    Assoc(Codeword(lits, 257 + c), Lsb(x, n) + tail, rest);
    TakeLsb(x, n, tail + rest);
    ReadDistanceBack(T, dists, t, rest);
  }

  /** Any tokens, sent with their codes and closed with the end-of-block code, are read back as themselves. */
  lemma {:induction false} ReadTokensBack(T: Tables, lits: seq<nat>, dists: seq<nat>, ts: seq<Token>, rest: BitString)
    requires AllCodable(T, lits, dists, ts) && KraftOk(lits) && KraftOk(dists)
    requires END_BLOCK < |lits| && lits[END_BLOCK] >= 1
    ensures ReadTokens(lits, dists, TokensBits(T, lits, dists, ts) + (Codeword(lits, END_BLOCK) + rest))
      == Some((ts, rest))
  {
    hide Codeword, ReadTokens, Kraft, TokenBits, Codable;
    var tail := Codeword(lits, END_BLOCK) + rest;
    if ts == [] {
      assert TokensBits(T, lits, dists, ts) + tail == tail;
      ReadEnd(lits, dists, rest);
    } else {
      var t, more := ts[0], ts[1..];
      var after := TokensBits(T, lits, dists, more) + tail;
      ReadTokensBack(T, lits, dists, more, rest);
      ReadOneBack(T, lits, dists, t, after, more, rest);
      Assoc(TokenBits(T, lits, dists, t), TokensBits(T, lits, dists, more), tail);
      assert [t] + more == ts;
    }
  }

  lemma ReadEnd(lits: seq<nat>, dists: seq<nat>, rest: BitString)
    requires KraftOk(lits) && END_BLOCK < |lits| && lits[END_BLOCK] >= 1
    ensures ReadTokens(lits, dists, Codeword(lits, END_BLOCK) + rest) == Some(([], rest))
  {
    hide Codeword, ReadCode;
    ReadCoded(lits, END_BLOCK, rest);
  }

  lemma ReadOneBack(T: Tables, lits: seq<nat>, dists: seq<nat>, t: Token, after: BitString, more: seq<Token>,
                    rest: BitString)
    requires TablesOk(T) && ValidToken(t) && Codable(T, lits, dists, t) && KraftOk(lits) && KraftOk(dists)
    requires ReadTokens(lits, dists, after) == Some((more, rest))
    ensures ReadTokens(lits, dists, TokenBits(T, lits, dists, t) + after) == Some(([t] + more, rest))
  {
    hide Codeword, ReadCode, ReadMatch, KraftOk, MatchBits;
    if t.Literal? {
      ReadCoded(lits, t.lit, after);
    } else {
      var mid := ReadMatchBack(T, lits, dists, t, after);
      ReadCoded(lits, 257 + LengthCode(T, t), mid);
    }
  }

  // ----- what tokens cost

  /** The literal/length frequencies that `ct_tally` accumulates, with one end-of-block. */
  ghost function LitFreq(T: Tables, ts: seq<Token>): (f: seq<nat>)
    requires TablesOk(T) && ValidTokens(ts)
    ensures |f| == L_CODES
  {
    if ts == [] then seq(L_CODES, n => if n == END_BLOCK then 1 else 0)
    else Inc(LitFreq(T, ts[..|ts| - 1]), LitSym(T, ts[|ts| - 1]), 1)
  }

  ghost function DistFreq(T: Tables, ts: seq<Token>): (f: seq<nat>)
    requires TablesOk(T) && ValidTokens(ts)
    ensures |f| == D_CODES
  {
    if ts == [] then seq(D_CODES, _ => 0)
    else
      var f, t := DistFreq(T, ts[..|ts| - 1]), ts[|ts| - 1];
      if t.Match? then Inc(f, DistCode(T, t), 1) else f
  }

  /** Every symbol of a token counts, and so does the end-of-block. */
  lemma {:induction false} FreqPositive(T: Tables, ts: seq<Token>)
    requires TablesOk(T) && ValidTokens(ts)
    ensures LitFreq(T, ts)[END_BLOCK] == 1
    ensures forall i :: 0 <= i < |ts| ==> LitFreq(T, ts)[LitSym(T, ts[i])] > 0
    ensures forall i :: 0 <= i < |ts| && ts[i].Match? ==> DistFreq(T, ts)[DistCode(T, ts[i])] > 0
  {
    hide LitSym, DistCode;
    if ts != [] {
      FreqPositive(T, ts[..|ts| - 1]);
      assert forall i :: 0 <= i < |ts| - 1 ==> ts[i] == ts[..|ts| - 1][i];
    }
  }

  lemma {:induction false} FreqTotal(T: Tables, ts: seq<Token>)
    requires TablesOk(T) && ValidTokens(ts)
    ensures Sum(LitFreq(T, ts)) == |ts| + 1 && Sum(DistFreq(T, ts)) <= |ts|
  {
    hide LitSym, DistCode, Sum;
    if ts == [] {
      var zero := seq(L_CODES, _ => 0);
      SumZero(zero);
      SumUpdate(zero, END_BLOCK, 1);
      assert LitFreq(T, ts) == zero[END_BLOCK := 1];
      SumZero(DistFreq(T, ts));
    } else {
      var k, t := |ts| - 1, ts[|ts| - 1];
      FreqTotal(T, ts[..k]);
      var f := LitFreq(T, ts[..k]);
      SumUpdate(f, LitSym(T, t), f[LitSym(T, t)] + 1);
      if t.Match? {
        var g := DistFreq(T, ts[..k]);
        SumUpdate(g, DistCode(T, t), g[DistCode(T, t)] + 1);
      }
    }
  }

  lemma CostInc(freq: seq<nat>, len: seq<nat>, extra: seq<nat>, s: nat)
    requires |freq| == |len| == |extra| && s < |freq|
    ensures Cost(Inc(freq, s, 1), len, extra) == Cost(freq, len, extra) + len[s] + extra[s]
  {
    var a := CostTerms(freq, len, extra);
    var v := (freq[s] + 1) * (len[s] + extra[s]);
    SumUpdate(a, s, v);
    assert CostTerms(Inc(freq, s, 1), len, extra) == a[s := v];
  }

  /** Extra bits of the literal/length alphabet. */
  function LitExtras(): (x: seq<nat>)
    ensures |x| == L_CODES
  {
    seq(L_CODES, n requires 0 <= n < L_CODES => if n >= 257 then ExtraLength(n - 257) else 0)
  }

  function DistExtras(): (x: seq<nat>)
    ensures |x| == D_CODES
  {
    seq(D_CODES, n requires 0 <= n < D_CODES => ExtraDist(n))
  }

  /** The first `n` lengths, with zeros where there are none. */
  function Padded(lens: seq<nat>, n: nat): (r: seq<nat>)
    ensures |r| == n
  {
    seq(n, i requires 0 <= i < n => if i < |lens| then lens[i] else 0)
  }

  lemma TokenCost(T: Tables, lits: seq<nat>, dists: seq<nat>, t: Token)
    requires TablesOk(T) && ValidToken(t) && Codable(T, lits, dists, t)
    ensures |TokenBits(T, lits, dists, t)| == lits[LitSym(T, t)] + LitExtras()[LitSym(T, t)]
      + (if t.Match? then dists[DistCode(T, t)] + DistExtras()[DistCode(T, t)] else 0)
  {
    if t.Match? {
      ExtraIsExtra(LengthCode(T, t), DistCode(T, t));
    }
  }

  lemma ExtraIsExtra(c: nat, d: nat)
    requires c < 29 && d < 30
    ensures ExtraLength(c) == LengthExtra(c) && ExtraDist(d) == DistExtra(d)
  {
  }

  lemma {:induction false} TokensBitsAppend(T: Tables, lits: seq<nat>, dists: seq<nat>, a: seq<Token>, b: seq<Token>)
    requires AllCodable(T, lits, dists, a) && AllCodable(T, lits, dists, b)
    ensures AllCodable(T, lits, dists, a + b)
    ensures TokensBits(T, lits, dists, a + b) == TokensBits(T, lits, dists, a) + TokensBits(T, lits, dists, b)
  {
    hide TokenBits, Codable;
    if a == [] {
      assert a + b == b;
    } else {
      TokensBitsAppend(T, lits, dists, a[1..], b);
      assert (a + b)[1..] == a[1..] + b;
      Assoc(TokenBits(T, lits, dists, a[0]), TokensBits(T, lits, dists, a[1..]), TokensBits(T, lits, dists, b));
    }
  }

  /** The predicted length of the data of a block is its exact length. */
  lemma {:induction false} TokensCost(T: Tables, lits: seq<nat>, dists: seq<nat>, ts: seq<Token>)
    requires AllCodable(T, lits, dists, ts) && END_BLOCK < |lits| && 1 <= lits[END_BLOCK] <= MAX_BITS
    ensures |TokensBits(T, lits, dists, ts)| + |Codeword(lits, END_BLOCK)|
      == Cost(LitFreq(T, ts), Padded(lits, L_CODES), LitExtras())
        + Cost(DistFreq(T, ts), Padded(dists, D_CODES), DistExtras())
    decreases |ts|
  {
    hide TokenBits, Cost, LitSym, DistCode, LitExtras, DistExtras, Sum;
    var ll, dd := Padded(lits, L_CODES), Padded(dists, D_CODES);
    if ts == [] {
      EndCost(lits);
      NoDistCost(dd);
    } else {
      var k, t := |ts| - 1, ts[|ts| - 1];
      var init, last := ts[..k], [ts[k]];
      TokensCost(T, lits, dists, init);
      assert AllCodable(T, lits, dists, last);
      TokensBitsAppend(T, lits, dists, init, last);
      assert init + last == ts;
      assert last[1..] == [];
      assert TokensBits(T, lits, dists, last) == TokenBits(T, lits, dists, t) + TokensBits(T, lits, dists, []);
      TokenCost(T, lits, dists, t);
      CostInc(LitFreq(T, init), ll, LitExtras(), LitSym(T, t));
      if t.Match? {
        CostInc(DistFreq(T, init), dd, DistExtras(), DistCode(T, t));
      }
    }
  }

  lemma EndCost(lits: seq<nat>)
    requires END_BLOCK < |lits|
    ensures Cost(seq(L_CODES, n => if n == END_BLOCK then 1 else 0), Padded(lits, L_CODES), LitExtras())
      == lits[END_BLOCK]
  {
    var zero := seq(L_CODES, _ => 0);
    var one := seq(L_CODES, n => if n == END_BLOCK then 1 else 0);
    assert one == Inc(zero, END_BLOCK, 1);
    CostInc(zero, Padded(lits, L_CODES), LitExtras(), END_BLOCK);
    var terms := CostTerms(zero, Padded(lits, L_CODES), LitExtras());
    SumZero(terms);
  }

  lemma NoDistCost(dd: seq<nat>)
    requires |dd| == D_CODES
    ensures Cost(seq(D_CODES, _ => 0), dd, DistExtras()) == 0
  {
    SumZero(CostTerms(seq(D_CODES, _ => 0), dd, DistExtras()));
  }
}
