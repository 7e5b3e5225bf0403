/** The header of a dynamic block: `build_bl_tree` and `send_all_trees`. */
module TreeHeader {
  import opened Bits
  import opened BitWriter
  import opened CanonicalCode
  import opened Inflate
  import opened Huffman
  import opened CodeLengths
  import opened TreeBuild
  import opened CodeTables
  import opened RunLength
  import opened TreeSend
  import TokenCode

  // ----- codes of a tree whose last symbols are unused

  lemma SameCounts(lens: seq<nat>, m: nat)
    requires m <= |lens| && forall i :: m <= i < |lens| ==> lens[i] == 0
    ensures Counts(lens) == Counts(lens[..m])
  {
    forall b | 1 <= b <= MAX_BITS
      ensures Count(lens, b) == Count(lens[..m], b)
    {
      CountTail(lens, m, b);
    }
  }

  lemma PaddedCodes(code: seq<nat>, lens: seq<nat>, m: nat)
    requires m <= |lens| <= |code| && forall i :: m <= i < |lens| ==> lens[i] == 0
    requires KraftOk(lens[..m]) && AllCoded(code, lens[..m], m)
    ensures KraftOk(lens) && AllCoded(code, lens, |lens|)
  {
    hide Counts, Kraft, Lsb, Msb, NextCode;
    SameCounts(lens, m);
    forall i | 0 <= i < |lens| && lens[i] > 0
      ensures Coded(code, lens, i)
    {
      assert Coded(code, lens[..m], i);
      assert lens[..m][..i] == lens[..i];
    }
    forall i | 0 <= i < |lens|
      ensures lens[i] <= MAX_BITS
    {
      if i < m {
        assert lens[..m][i] == lens[i];
      }
    }
  }

  // ----- what scanning counts

  lemma {:induction false} TallyPositive(f: seq<nat>, ops: seq<Op>)
    requires |f| >= 19 && ValidOps(ops)
    ensures forall s :: 0 <= s < |f| ==> Tally(f, ops)[s] >= f[s] && (s >= 19 ==> Tally(f, ops)[s] == f[s])
    ensures forall i :: 0 <= i < |ops| ==> Tally(f, ops)[Sym(ops[i])] > 0
    decreases |ops|
  {
    if ops != [] {
      TallyPositive(Inc(f, Sym(ops[0]), 1), ops[1..]);
      assert forall i :: 1 <= i < |ops| ==> ops[i] == ops[1..][i - 1];
    }
  }

  lemma {:induction false} TallyPrefix(f: seq<nat>, ops: seq<Op>)
    requires |f| >= 19 && ValidOps(ops)
    ensures Tally(f, ops)[..19] == Tally(f[..19], ops)
    decreases |ops|
  {
    if ops != [] {
      var s := Sym(ops[0]);
      TallyPrefix(Inc(f, s, 1), ops[1..]);
      assert Inc(f, s, 1)[..19] == Inc(f[..19], s, 1);
    }
  }

  lemma {:induction false} TallySum(f: seq<nat>, ops: seq<Op>)
    requires |f| == 19 && ValidOps(ops)
    ensures Sum(Tally(f, ops)) == Sum(f) + |ops|
    decreases |ops|
  {
    hide Sum;
    if ops != [] {
      var s := Sym(ops[0]);
      SumUpdate(f, s, f[s] + 1);
      TallySum(Inc(f, s, 1), ops[1..]);
    }
  }

  lemma BlExtra(op: Op)
    requires ValidOp(op)
    ensures EXTRA_BLBITS[Sym(op)]
      == match op case Len(_) => 0 case Rep(_) => 2 case ZeroShort(_) => 3 case ZeroLong(_) => 7
  {
  }

  /** The cost of the counted symbols is the length of what is sent. */
  lemma {:induction false} TallyCost(f: seq<nat>, cl: seq<nat>, ops: seq<Op>)
    requires |f| == |cl| == 19 && Sendable(cl, ops)
    ensures Cost(Tally(f, ops), cl, EXTRA_BLBITS) == Cost(f, cl, EXTRA_BLBITS) + |OpsBits(cl, ops)|
    decreases |ops|
  {
    hide Cost, Codeword;
    if ops != [] {
      var s := Sym(ops[0]);
      TokenCode.CostInc(f, cl, EXTRA_BLBITS, s);
      BlExtra(ops[0]);
      assert |Codeword(cl, s)| == cl[s] by { CodewordLength(cl, s); }
      TallyCost(Inc(f, s, 1), cl, ops[1..]);
    }
  }

  lemma CodewordLength(cl: seq<nat>, s: nat)
    requires s < |cl| && 1 <= cl[s] <= MAX_BITS
    ensures |Codeword(cl, s)| == cl[s]
  {
  }

  lemma OpsShort(lens: seq<nat>)
    requires forall i :: 0 <= i < |lens| ==> lens[i] <= 15
    ensures ValidOps(Rle(lens)) && |Rle(lens)| <= |lens|
  {
    RleRoundTrip([], lens);
    RleGrows([], lens, 0, -1, 0);
    GrowsLonger([], Rle(lens));
  }

  // ----- the order of the code length code lengths

  lemma OrderIs(i: nat)
    requires i < 19
    ensures OrderOf(i) == BL_ORDER[i] < 19
  {
  }

  /** Every symbol of the code length alphabet has its place in the order. */
  lemma OrderCovers(s: nat) returns (i: nat)
    requires s < 19
    ensures i < 19 && OrderOf(i) == s
  {
    var inverse: seq<nat> := [3, 17, 15, 13, 11, 9, 7, 5, 4, 6, 8, 10, 12, 14, 16, 18, 0, 1, 2];
    i := inverse[s];
  }

  lemma OrderInjective(i: nat, j: nat)
    requires i < 19 && j < 19 && OrderOf(i) == OrderOf(j)
    ensures i == j
  {
  }

  function OrderBits(cl: seq<nat>, i: nat, n: nat): BitString
    requires i <= n <= 19 && |cl| == 19
    decreases n - i
  {
    if i == n then [] else Lsb(cl[OrderOf(i)], 3) + OrderBits(cl, i + 1, n)
  }

  lemma {:induction false} OrderLength(cl: seq<nat>, i: nat, n: nat)
    requires i <= n <= 19 && |cl| == 19
    ensures |OrderBits(cl, i, n)| == 3 * (n - i)
    decreases n - i
  {
    hide OrderOf;
    if i < n {
      OrderLength(cl, i + 1, n);
    }
  }

  lemma {:induction false} OrderBitsSnoc(cl: seq<nat>, i: nat, n: nat)
    requires i <= n < 19 && |cl| == 19
    ensures OrderBits(cl, i, n + 1) == OrderBits(cl, i, n) + Lsb(cl[OrderOf(n)], 3)
    decreases n - i
  {
    hide OrderOf, Lsb;
    if i < n {
      OrderBitsSnoc(cl, i + 1, n);
      Assoc(Lsb(cl[OrderOf(i)], 3), OrderBits(cl, i + 1, n), Lsb(cl[OrderOf(n)], 3));
    } else {
      assert OrderBits(cl, i + 1, n + 1) == [];
    }
  }

  /** The decoder rebuilds the lengths, filling in zero for those not sent. */
  lemma {:induction false} ReadOrderBack(cl: seq<nat>, i: nat, n: nat, acc: seq<nat>, t: BitString)
    requires i <= n <= 19 && |cl| == |acc| == 19 && forall s :: 0 <= s < 19 ==> cl[s] < 8
    requires forall j {:trigger OrderOf(j)} :: 0 <= j < 19 ==> acc[OrderOf(j)] == if j < i then cl[OrderOf(j)] else 0
    requires forall j {:trigger OrderOf(j)} :: n <= j < 19 ==> cl[OrderOf(j)] == 0
    ensures ReadOrder(OrderBits(cl, i, n) + t, i, n, acc) == Some((cl, t))
    decreases n - i
  {
    hide OrderOf, Lsb, Take;
    if i == n {
      assert OrderBits(cl, i, n) + t == t;
      forall s | 0 <= s < 19
        ensures acc[s] == cl[s]
      {
        var j := OrderCovers(s);
      }
      assert acc == cl;
    } else {
      var o := OrderOf(i);
      assert Pow2(3) == 8;
      Assoc(Lsb(cl[o], 3), OrderBits(cl, i + 1, n), t);
      TakeLsb(cl[o], 3, OrderBits(cl, i + 1, n) + t);
      var acc' := acc[o := cl[o]];
      forall j {:trigger OrderOf(j)} | 0 <= j < 19
        ensures acc'[OrderOf(j)] == if j < i + 1 then cl[OrderOf(j)] else 0
      {
        if OrderOf(j) == o {
          OrderInjective(i, j);
        }
      }
      ReadOrderBack(cl, i + 1, n, acc', t);
    }
  }

  // ----- the header

  /** Code lengths of the three trees that can be sent: they fit the fields of the header. */
  ghost predicate Header(cl: seq<nat>, lits: seq<nat>, dists: seq<nat>, n: nat)
  {
    && |cl| == 19 && KraftOk(cl) && (forall s :: 0 <= s < 19 ==> cl[s] < 8)
    && 257 <= |lits| <= 286 && 1 <= |dists| <= 30 && 4 <= n <= 19
    && (forall j {:trigger OrderOf(j)} :: n <= j < 19 ==> cl[OrderOf(j)] == 0)
    && (forall i :: 0 <= i < |lits| ==> lits[i] <= 15) && (forall i :: 0 <= i < |dists| ==> dists[i] <= 15)
    && Sendable(cl, Rle(lits)) && Sendable(cl, Rle(dists))
  }

  function HeaderBits(cl: seq<nat>, lits: seq<nat>, dists: seq<nat>, n: nat): BitString
    requires Header(cl, lits, dists, n)
  {
    Lsb(|lits| - 257, 5) + (Lsb(|dists| - 1, 5) + (Lsb(n - 4, 4) +
      (OrderBits(cl, 0, n) + (OpsBits(cl, Rle(lits)) + OpsBits(cl, Rle(dists))))))
  }

  /** The decoder of section 3.2.7 recovers both sets of code lengths from the header. */
  lemma ReadHeaderBack(cl: seq<nat>, lits: seq<nat>, dists: seq<nat>, n: nat, t: BitString)
    requires Header(cl, lits, dists, n)
    ensures ReadTrees(HeaderBits(cl, lits, dists, n) + t) == Some((lits, dists, t))
  {
    hide Lsb, Take, ReadOrder, ReadLengths, OrderBits, OpsBits, RleFrom, Sendable, KraftOk, OrderOf;
    assert Pow2(5) == 32 && Pow2(4) == 16;
    var ops := OpsBits(cl, Rle(lits)) + OpsBits(cl, Rle(dists));
    var d := OrderBits(cl, 0, n) + ops;
    var c := Lsb(n - 4, 4) + d;
    var b := Lsb(|dists| - 1, 5) + c;
    Assoc(Lsb(|lits| - 257, 5), b, t);
    TakeLsb(|lits| - 257, 5, b + t);
    Assoc(Lsb(|dists| - 1, 5), c, t);
    TakeLsb(|dists| - 1, 5, c + t);
    Assoc(Lsb(n - 4, 4), d, t);
    TakeLsb(n - 4, 4, d + t);
    Assoc(OrderBits(cl, 0, n), ops, t);
    ReadOrderBack(cl, 0, n, Repeat(0, 19), ops + t);
    Assoc(OpsBits(cl, Rle(lits)), OpsBits(cl, Rle(dists)), t);
    TwoTreesReadBack(cl, lits, dists, t);
    assert (lits + dists)[..|lits|] == lits && (lits + dists)[|lits|..] == dists;
  }

  lemma HeaderLength(cl: seq<nat>, lits: seq<nat>, dists: seq<nat>, n: nat)
    requires Header(cl, lits, dists, n)
    ensures |HeaderBits(cl, lits, dists, n)|
         == |OpsBits(cl, Rle(lits))| + |OpsBits(cl, Rle(dists))| + 3 * n + 5 + 5 + 4
  {
    OrderLength(cl, 0, n);
  }

  // ----- the methods

  /** The three trees use different storage. */
  ghost predicate Apart(lt: Tree, dt: Tree, bt: Tree)
  {
    && lt != dt && lt != bt && dt != bt
    && {lt.fc, lt.dl} !! {dt.fc, dt.dl} !! {bt.fc, bt.dl}
  }

  ghost predicate IsBlTree(t: Tree)
  {
    t.Valid() && t.elems == BL_CODES && t.maxLength == 7 && t.extra == EXTRA_BLBITS && t.extraBase == 0 && t.stree == []
  }

  lemma BlExtras(t: Tree)
    requires IsBlTree(t)
    ensures Extras(t) == EXTRA_BLBITS
  {
  }

  /** Scan both trees, leaving the guards behind and the frequencies of what will be sent. */
  method ScanTrees(lt: Tree, dt: Tree, bt: Tree)
    requires lt.Valid() && dt.Valid() && IsBlTree(bt) && Apart(lt, dt, bt)
    requires 0 <= lt.maxCode < lt.elems && 0 <= dt.maxCode < dt.elems
    requires forall i :: 0 <= i <= lt.maxCode ==> lt.dl[i] <= 15
    requires forall i :: 0 <= i <= dt.maxCode ==> dt.dl[i] <= 15
    modifies lt.dl, dt.dl, bt.fc
    ensures lt.dl[..] == old(lt.dl[..])[lt.maxCode + 1 := GUARD]
    ensures dt.dl[..] == old(dt.dl[..])[dt.maxCode + 1 := GUARD]
    ensures var lits, dists := old(lt.dl[..lt.maxCode + 1]), old(dt.dl[..dt.maxCode + 1]);
      && ValidOps(Rle(lits) + Rle(dists))
      && bt.fc[..] == Tally(old(bt.fc[..]), Rle(lits) + Rle(dists))
  {
    hide Tally, RleFrom;
    ghost var f: seq<nat> := bt.fc[..];
    ghost var lits: seq<nat>, dists: seq<nat> := lt.dl[..lt.maxCode + 1], dt.dl[..dt.maxCode + 1];
    ScanTree(lt.dl, lt.maxCode, bt.fc);
    assert dt.dl[..dt.maxCode + 1] == dists;
    ScanTree(dt.dl, dt.maxCode, bt.fc);
    TallyAppend(f, Rle(lits), Rle(dists));
  }

  /** Without a plain length, only zeros can be sent. */
  lemma {:induction false} OnlyZeros(known: seq<nat>, ops: seq<Op>)
    requires forall i :: 0 <= i < |known| ==> known[i] == 0
    requires forall i :: 0 <= i < |ops| ==> !ops[i].Len?
    ensures forall i :: 0 <= i < |ApplyOps(known, ops)| ==> ApplyOps(known, ops)[i] == 0
    decreases |ops|
  {
    if ops != [] {
      OnlyZeros(ApplyOp(known, ops[0]), ops[1..]);
    }
  }

  /** Some code length below 16 is always sent plainly, so its own length is not zero. */
  lemma SomeLength(cl: seq<nat>, lits: seq<nat>, n: nat) returns (j: nat)
    requires |cl| == 19 && Sendable(cl, Rle(lits)) && n < |lits| && lits[n] > 0
    requires forall i :: 0 <= i < |lits| ==> lits[i] <= 15
    ensures 3 <= j < 19 && cl[OrderOf(j)] > 0
  {
    hide Rle, ApplyOps, ValidOps;
    var ops := Rle(lits);
    RleRoundTrip([], lits);
    assert [] + lits == lits;
    if forall i :: 0 <= i < |ops| ==> !ops[i].Len? {
      OnlyZeros([], ops);
      assert false;
    }
    var i :| 0 <= i < |ops| && ops[i].Len?;
    j := OrderCovers(Sym(ops[i]));
  }

  /** The loop of `build_bl_tree` that drops trailing unused lengths; a used one at index 3 or later stops it. */
  method LastLength(bdl: array<nat>, ghost cl: seq<nat>, ghost used: nat) returns (max: int)
    requires bdl.Length >= 19 && cl == bdl[..19] && 3 <= used < 19 && cl[OrderOf(used)] > 0
    ensures 3 <= max <= 18 && cl[OrderOf(max)] > 0
    ensures forall j {:trigger OrderOf(j)} :: max < j < 19 ==> cl[OrderOf(j)] == 0
  {
    hide OrderOf;
    max := BL_CODES - 1;
    while max >= 3
      invariant 2 <= max <= 18 && used <= max
      invariant forall j {:trigger OrderOf(j)} :: max < j < 19 ==> cl[OrderOf(j)] == 0
    {
      OrderIs(max);
      if bdl[BL_ORDER[max]] != 0 {
        break;
      }
      max := max - 1;
    }
  }

  /** `build_bl_tree`: the code length code, how much of it to send, and the exact cost of the header. */
  method BuildBlTree(b: Builder, lt: Tree, dt: Tree, bt: Tree) returns (maxBlindex: int)
    requires b.Fits(lt) && b.Fits(dt) && b.Fits(bt) && IsBlTree(bt) && Apart(lt, dt, bt)
    requires 256 <= lt.maxCode < lt.elems <= 286 && 0 <= dt.maxCode < dt.elems <= 30
    requires forall i :: 0 <= i <= lt.maxCode ==> lt.dl[i] <= 15
    requires forall i :: 0 <= i <= dt.maxCode ==> dt.dl[i] <= 15
    requires lt.dl[256] > 0
    requires forall s :: 0 <= s < 19 ==> bt.fc[s] == 0
    modifies b, b.heap, b.depth, b.blCount, bt, bt.fc, bt.dl, lt.dl, dt.dl
    ensures lt.dl[..] == old(lt.dl[..])[lt.maxCode + 1 := GUARD]
    ensures dt.dl[..] == old(dt.dl[..])[dt.maxCode + 1 := GUARD]
    ensures b.staticLen == old(b.staticLen) && 3 <= maxBlindex <= 18
    ensures var lits, dists := old(lt.dl[..lt.maxCode + 1]), old(dt.dl[..dt.maxCode + 1]);
      && Header(bt.dl[..19], lits, dists, maxBlindex + 1)
      && AllCoded(bt.fc[..], bt.dl[..19], 19)
      && b.optLen == old(b.optLen) + |HeaderBits(bt.dl[..19], lits, dists, maxBlindex + 1)|
    ensures bt.dl[OrderOf(maxBlindex)] > 0
  {
    hide RleFrom, KraftOk, AllCoded, Sendable, OpsBits, OrderOf, HeaderBits;
    ghost var lits: seq<nat>, dists: seq<nat> := lt.dl[..lt.maxCode + 1], dt.dl[..dt.maxCode + 1];
    ScanAndBuild(b, lt, dt, bt);
    ghost var cl: seq<nat> := bt.dl[..19];
    ghost var used := SomeLength(cl, lits, 256);
    maxBlindex := LastLength(bt.dl, cl, used);
    assert Header(cl, lits, dists, maxBlindex + 1);
    HeaderLength(cl, lits, dists, maxBlindex + 1);
    b.optLen := b.optLen + 3 * (maxBlindex + 1) + 5 + 5 + 4;
  }

  /** Count what will be sent and build its code. */
  method ScanAndBuild(b: Builder, lt: Tree, dt: Tree, bt: Tree)
    requires b.Fits(lt) && b.Fits(dt) && b.Fits(bt) && IsBlTree(bt) && Apart(lt, dt, bt)
    requires 256 <= lt.maxCode < lt.elems <= 286 && 0 <= dt.maxCode < dt.elems <= 30
    requires forall i :: 0 <= i <= lt.maxCode ==> lt.dl[i] <= 15
    requires forall i :: 0 <= i <= dt.maxCode ==> dt.dl[i] <= 15
    requires forall s :: 0 <= s < 19 ==> bt.fc[s] == 0
    modifies b, b.heap, b.depth, b.blCount, bt, bt.fc, bt.dl, lt.dl, dt.dl
    ensures lt.dl[..] == old(lt.dl[..])[lt.maxCode + 1 := GUARD]
    ensures dt.dl[..] == old(dt.dl[..])[dt.maxCode + 1 := GUARD]
    ensures b.staticLen == old(b.staticLen)
    ensures var lits, dists, cl := old(lt.dl[..lt.maxCode + 1]), old(dt.dl[..dt.maxCode + 1]), bt.dl[..19];
      && KraftOk(cl) && AllCoded(bt.fc[..], cl, 19) && (forall s :: 0 <= s < 19 ==> cl[s] < 8)
      && Sendable(cl, Rle(lits)) && Sendable(cl, Rle(dists))
      && b.optLen == old(b.optLen) + |OpsBits(cl, Rle(lits))| + |OpsBits(cl, Rle(dists))|
  {
    hide Tally, RleFrom, Cost, Built, KraftOk, AllCoded, Sendable, OpsBits, ValidOps, Sum;
    ghost var lits: seq<nat>, dists: seq<nat>, f0: seq<nat> :=
      lt.dl[..lt.maxCode + 1], dt.dl[..dt.maxCode + 1], bt.fc[..];
    ScanTrees(lt, dt, bt);
    ghost var freq: seq<nat> := bt.fc[..19];
    BlTotal(f0, lits, dists, freq);
    BuildTree(b, bt);
    BlCodes(f0, lits, dists, freq, bt.fc[..], bt.dl[..], bt.maxCode);
    BlExtras(bt);
    BlCost(f0, bt.dl[..19], lits, dists, freq);
  }

  lemma BlTotal(f0: seq<nat>, lits: seq<nat>, dists: seq<nat>, freq: seq<nat>)
    requires |f0| >= 19 && (forall s :: 0 <= s < 19 ==> f0[s] == 0) && |lits| <= 286 && |dists| <= 30
    requires forall i :: 0 <= i < |lits| ==> lits[i] <= 15
    requires forall i :: 0 <= i < |dists| ==> dists[i] <= 15
    requires ValidOps(Rle(lits) + Rle(dists)) && freq == Tally(f0, Rle(lits) + Rle(dists))[..19]
    ensures Sum(freq) < 65536
  {
    hide RleFrom, Tally, Sum, ValidOps;
    OpsShort(lits);
    OpsShort(dists);
    TallyPrefix(f0, Rle(lits) + Rle(dists));
    TallySum(f0[..19], Rle(lits) + Rle(dists));
    SumZero(f0[..19]);
  }

  lemma BlCodes(f0: seq<nat>, lits: seq<nat>, dists: seq<nat>, freq: seq<nat>, code: seq<nat>, len: seq<nat>,
                maxCode: int)
    requires |f0| >= 19 && ValidOps(Rle(lits) + Rle(dists)) && freq == Tally(f0, Rle(lits) + Rle(dists))[..19]
    requires Built(freq, code, len, maxCode, 7)
    ensures KraftOk(len[..19]) && AllCoded(code, len[..19], 19) && forall s :: 0 <= s < 19 ==> len[..19][s] < 8
    ensures Sendable(len[..19], Rle(lits)) && Sendable(len[..19], Rle(dists))
  {
    hide RleFrom, KraftOk, AllCoded, Tally, Sendable, ValidOps;
    var cl, a, b := len[..19], Rle(lits), Rle(dists);
    assert cl[..maxCode + 1] == len[..maxCode + 1];
    PaddedCodes(code, cl, maxCode + 1);
    AllSendable(f0, a + b, cl, freq);
    SendableParts(cl, a, b);
  }

  lemma AllSendable(f0: seq<nat>, ops: seq<Op>, cl: seq<nat>, freq: seq<nat>)
    requires |f0| >= 19 && ValidOps(ops) && freq == Tally(f0, ops)[..19] && |cl| == 19
    requires forall s :: 0 <= s < 19 && freq[s] > 0 ==> 1 <= cl[s] <= MAX_BITS
    ensures Sendable(cl, ops)
  {
    TallyPositive(f0, ops);
  }

  lemma SendableParts(cl: seq<nat>, a: seq<Op>, b: seq<Op>)
    requires Sendable(cl, a + b)
    ensures Sendable(cl, a) && Sendable(cl, b)
  {
    assert forall i :: 0 <= i < |a| ==> a[i] == (a + b)[i];
    assert forall i :: 0 <= i < |b| ==> b[i] == (a + b)[|a| + i];
  }

  lemma BlCost(f0: seq<nat>, cl: seq<nat>, lits: seq<nat>, dists: seq<nat>, freq: seq<nat>)
    requires |f0| >= 19 && (forall s :: 0 <= s < 19 ==> f0[s] == 0) && |cl| == 19
    requires ValidOps(Rle(lits) + Rle(dists)) && freq == Tally(f0, Rle(lits) + Rle(dists))[..19]
    requires Sendable(cl, Rle(lits)) && Sendable(cl, Rle(dists))
    ensures Cost(freq, cl, EXTRA_BLBITS) == |OpsBits(cl, Rle(lits))| + |OpsBits(cl, Rle(dists))|
  {
    hide RleFrom, Tally, Cost, OpsBits, Sendable;
    var a, b := Rle(lits), Rle(dists);
    TallyPrefix(f0, a + b);
    OpsBitsAppend(cl, a, b);
    TallyCost(f0[..19], cl, a + b);
    CostOfNothing(f0[..19], cl, EXTRA_BLBITS);
  }

  /** `send_all_trees`. */
  method SendAllTrees(w: Writer, lt: Tree, dt: Tree, bt: Tree, lcodes: nat, dcodes: nat, blcodes: nat,
                      ghost cl: seq<nat>, ghost lits: seq<nat>, ghost dists: seq<nat>)
    requires w.Valid() && lt.Valid() && dt.Valid() && IsBlTree(bt) && Sends(bt.fc, bt.dl, cl)
    requires Header(cl, lits, dists, blcodes) && lcodes == |lits| && dcodes == |dists|
    requires lcodes <= lt.elems && lt.dl[..lcodes] == lits && lt.dl[lcodes] == GUARD
    requires dcodes <= dt.elems && dt.dl[..dcodes] == dists && dt.dl[dcodes] == GUARD
    modifies w, w.outbuf
    ensures w.Valid() && w.Stream() == old(w.Stream()) + HeaderBits(cl, lits, dists, blcodes)
  {
    hide Lsb, OrderBits, OpsBits, RleFrom, Sendable, KraftOk, AllCoded, OrderOf, Writer.Valid, Writer.Stream;
    ghost var s0 := w.Stream();
    SendCounts(w, lcodes, dcodes, blcodes);
    ghost var s1 := w.Stream();
    SendOrder(w, bt, blcodes, cl);
    SendTree(w, lt.dl, lcodes - 1, bt.fc, bt.dl, cl);
    SendTree(w, dt.dl, dcodes - 1, bt.fc, bt.dl, cl);
    assert w.Stream() == s1 + OrderBits(cl, 0, blcodes) + OpsBits(cl, Rle(lits)) + OpsBits(cl, Rle(dists));
    SixParts(s0, Lsb(lcodes - 257, 5), Lsb(dcodes - 1, 5), Lsb(blcodes - 4, 4), OrderBits(cl, 0, blcodes),
             OpsBits(cl, Rle(lits)), OpsBits(cl, Rle(dists)));
  }

  /** The three counts, each in its field. */
  method SendCounts(w: Writer, lcodes: nat, dcodes: nat, blcodes: nat)
    requires w.Valid() && 257 <= lcodes <= 286 && 1 <= dcodes <= 30 && 4 <= blcodes <= 19
    modifies w, w.outbuf
    ensures w.Valid()
    ensures w.Stream() == old(w.Stream()) + Lsb(lcodes - 257, 5) + Lsb(dcodes - 1, 5) + Lsb(blcodes - 4, 4)
  {
    hide Lsb;
    assert Pow2(5) == 32 && Pow2(4) == 16;
    w.SendBits(lcodes - 257, 5);
    w.SendBits(dcodes - 1, 5);
    w.SendBits(blcodes - 4, 4);
  }

  lemma SixParts(s: BitString, a: BitString, b: BitString, c: BitString, d: BitString, e: BitString, f: BitString)
    ensures s + a + b + c + d + e + f == s + (a + (b + (c + (d + (e + f)))))
  {
  }

  method SendOrder(w: Writer, bt: Tree, blcodes: nat, ghost cl: seq<nat>)
    requires w.Valid() && IsBlTree(bt) && Sends(bt.fc, bt.dl, cl) && |cl| == 19 && blcodes <= 19
    requires forall s :: 0 <= s < 19 ==> cl[s] < 8
    modifies w, w.outbuf
    ensures w.Valid() && w.Stream() == old(w.Stream()) + OrderBits(cl, 0, blcodes)
  {
    hide Lsb, OrderBits, AllCoded, OrderOf;
    assert Pow2(3) == 8;
    NoOrder(cl);
    var rank := 0;
    while rank < blcodes
      invariant 0 <= rank <= blcodes && w.Valid() && Sends(bt.fc, bt.dl, cl)
      invariant w.Stream() == old(w.Stream()) + OrderBits(cl, 0, rank)
    {
      OrderIs(rank);
      assert bt.dl[BL_ORDER[rank]] == cl[OrderOf(rank)] by { assert bt.dl[..19] == cl; }
      w.SendBits(bt.dl[BL_ORDER[rank]], 3);
      OrderBitsSnoc(cl, 0, rank);
      Assoc(old(w.Stream()), OrderBits(cl, 0, rank), Lsb(cl[OrderOf(rank)], 3));
      rank := rank + 1;
    }
  }

  lemma NoOrder(cl: seq<nat>)
    requires |cl| == 19
    ensures OrderBits(cl, 0, 0) == []
  {
  }
}
