/** The run-length code for code lengths: what `scan_tree` counts and `send_tree` sends. */
module RunLength {
  import opened Bits
  import opened CanonicalCode
  import opened Inflate

  const GUARD := 0xffff

  /** A length, a repeat of the previous length, or a run of zeros. */
  datatype Op = Len(l: nat) | Rep(n: nat) | ZeroShort(n: nat) | ZeroLong(n: nat)

  predicate ValidOp(op: Op)
  {
    match op
    case Len(l) => l <= 15
    case Rep(n) => 3 <= n <= 6
    case ZeroShort(n) => 3 <= n <= 10
    case ZeroLong(n) => 11 <= n <= 138
  }

  function Sym(op: Op): (s: nat)
    requires ValidOp(op)
    ensures s < 19
  {
    match op
    case Len(l) => l
    case Rep(_) => 16
    case ZeroShort(_) => 17
    case ZeroLong(_) => 18
  }

  /** What the code lengths so far become. */
  function ApplyOp(known: seq<nat>, op: Op): seq<nat>
  {
    match op
    case Len(l) => known + [l]
    case Rep(n) => if known == [] then [] else known + Repeat(known[|known| - 1], n)
    case ZeroShort(n) => known + Repeat(0, n)
    case ZeroLong(n) => known + Repeat(0, n)
  }

  function ApplyOps(known: seq<nat>, ops: seq<Op>): seq<nat>
    decreases |ops|
  {
    if ops == [] then known else ApplyOps(ApplyOp(known, ops[0]), ops[1..])
  }

  lemma {:induction false} ApplyAppend(known: seq<nat>, a: seq<Op>, b: seq<Op>)
    ensures ApplyOps(known, a + b) == ApplyOps(ApplyOps(known, a), b)
    decreases |a|
  {
    if a == [] {
      assert a + b == b;
    } else {
      assert (a + b)[1..] == a[1..] + b;
      ApplyAppend(ApplyOp(known, a[0]), a[1..], b);
    }
  }

  // ----- the encoder's choice of operations

  /** The longest run that is sent at once, after a run of `prev`. */
  function MaxCount(prev: int, cur: nat): nat
  {
    if cur == 0 then 138 else if prev == cur then 6 else 7
  }

  /** Shorter runs are sent length by length. */
  function MinCount(prev: int, cur: nat): nat
  {
    if cur == 0 then 3 else if prev == cur then 3 else 4
  }

  function Lens(cur: nat, count: nat): seq<Op>
  {
    if count == 0 then [] else [Len(cur)] + Lens(cur, count - 1)
  }

  function Emit(prev: int, cur: nat, count: nat): seq<Op>
  {
    if count < MinCount(prev, cur) then Lens(cur, count)
    else if cur != 0 then
      if cur != prev then [Len(cur), Rep(count - 1)] else [Rep(count)]
    else if count <= 10 then [ZeroShort(count)]
    else [ZeroLong(count)]
  }

  function LenAt(lens: seq<nat>, n: nat): nat
  {
    if n < |lens| then lens[n] else GUARD
  }

  /** The operations for `lens[n - count..]`, when `count` equal lengths before `n` are pending. */
  function RleFrom(lens: seq<nat>, n: nat, prev: int, count: nat): seq<Op>
    decreases |lens| - n
  {
    if n >= |lens| then []
    else if count + 1 < MaxCount(prev, lens[n]) && lens[n] == LenAt(lens, n + 1)
    then RleFrom(lens, n + 1, prev, count + 1)
    else Emit(prev, lens[n], count + 1) + RleFrom(lens, n + 1, lens[n], 0)
  }

  function Rle(lens: seq<nat>): seq<Op>
  {
    RleFrom(lens, 0, -1, 0)
  }

  // ----- which operations

  /** One run: up to three lengths are sent as they are, two for zeros; then one repeat stands for the rest. */
  lemma OneRun(v: nat, n: nat)
    requires v <= 15 && 1 <= n <= if v == 0 then 138 else 7
    ensures var ops := Rle(seq(n, _ => v));
      && (n <= (if v == 0 then 2 else 3) ==> |ops| == n && forall i :: 0 <= i < n ==> ops[i] == Len(v))
      && (v > 0 && n >= 4 ==> ops == [Len(v), Rep(n - 1)])
      && (v == 0 && 3 <= n <= 10 ==> ops == [ZeroShort(n)])
      && (v == 0 && n >= 11 ==> ops == [ZeroLong(n)])
  {
    hide RleFrom;
    RunGoesOn(v, n, 0);
    LensAre(v, n);
  }

  lemma {:induction false} RunGoesOn(v: nat, n: nat, k: nat)
    requires v <= 15 && k < n <= if v == 0 then 138 else 7
    ensures RleFrom(seq(n, _ => v), k, -1, k) == Emit(-1, v, n)
    decreases n - k
  {
    hide Emit;
    if k + 1 < n {
      RunGoesOn(v, n, k + 1);
    } else {
      assert Emit(-1, v, n) + [] == Emit(-1, v, n);
    }
  }

  lemma {:induction false} LensAre(v: nat, n: nat)
    ensures |Lens(v, n)| == n && forall i :: 0 <= i < n ==> Lens(v, n)[i] == Len(v)
  {
    if n > 0 {
      LensAre(v, n - 1);
    }
  }

  // ----- the operations stand for the lengths

  ghost predicate ValidOps(ops: seq<Op>)
  {
    forall i :: 0 <= i < |ops| ==> ValidOp(ops[i])
  }

  lemma {:induction false} LensApply(known: seq<nat>, cur: nat, count: nat)
    ensures ApplyOps(known, Lens(cur, count)) == known + Repeat(cur, count)
    ensures cur <= 15 ==> ValidOps(Lens(cur, count))
    decreases count
  {
    if count == 0 {
      assert known + Repeat(cur, 0) == known;
    } else {
      LensApply(known + [cur], cur, count - 1);
      assert Lens(cur, count)[1..] == Lens(cur, count - 1);
      assert known + [cur] + Repeat(cur, count - 1) == known + Repeat(cur, count);
    }
  }

  /** A run is sent as something that stands for it. */
  lemma EmitApply(known: seq<nat>, prev: int, cur: nat, count: nat)
    requires cur <= 15 && 1 <= count <= MaxCount(prev, cur)
    requires prev >= 0 ==> known != [] && known[|known| - 1] == prev
    ensures ApplyOps(known, Emit(prev, cur, count)) == known + Repeat(cur, count)
    ensures ValidOps(Emit(prev, cur, count))
  {
    if count < MinCount(prev, cur) {
      LensApply(known, cur, count);
    } else if cur != 0 && cur != prev {
      var e := Emit(prev, cur, count);
      assert e[1..] == [Rep(count - 1)];
      ApplyOne(known + [cur], Rep(count - 1));
      assert known + [cur] + Repeat(cur, count - 1) == known + Repeat(cur, count);
    } else {
      ApplyOne(known, Emit(prev, cur, count)[0]);
    }
  }

  lemma NoOps(known: seq<nat>)
    ensures ApplyOps(known, []) == known
  {
  }

  lemma ApplyOne(known: seq<nat>, op: Op)
    ensures ApplyOps(known, [op]) == ApplyOp(known, op)
  {
    assert [op][1..] == [];
  }

  /** The operations stand for exactly the lengths, whatever was sent before them. */
  lemma {:induction false} RleApplies(before: seq<nat>, lens: seq<nat>, n: nat, prev: int, count: nat)
    requires forall i :: 0 <= i < |lens| ==> lens[i] <= 15
    requires count <= n <= |lens| && (n == |lens| ==> count == 0)
    requires n < |lens| ==> count < MaxCount(prev, lens[n])
    requires n < |lens| ==> forall i :: n - count <= i < n ==> lens[i] == lens[n]
    requires prev >= 0 ==> n - count > 0 && lens[n - count - 1] == prev
    requires prev == -1 || prev >= 0
    ensures ApplyOps(before + lens[..n - count], RleFrom(lens, n, prev, count)) == before + lens
    ensures ValidOps(RleFrom(lens, n, prev, count))
    decreases |lens| - n
  {
    hide Emit, ApplyOps;
    if n == |lens| {
      assert lens[..n - count] == lens;
      NoOps(before + lens);
    } else {
      var cur := lens[n];
      if count + 1 < MaxCount(prev, cur) && cur == LenAt(lens, n + 1) {
        RleApplies(before, lens, n + 1, prev, count + 1);
      } else {
        var known := before + lens[..n - count];
        EmitApply(known, prev, cur, count + 1);
        RleApplies(before, lens, n + 1, cur, 0);
        ApplyAppend(known, Emit(prev, cur, count + 1), RleFrom(lens, n + 1, cur, 0));
        assert known + Repeat(cur, count + 1) == before + lens[..n + 1];
      }
    }
  }

  lemma RleRoundTrip(before: seq<nat>, lens: seq<nat>)
    requires forall i :: 0 <= i < |lens| ==> lens[i] <= 15
    ensures ApplyOps(before, Rle(lens)) == before + lens && ValidOps(Rle(lens))
  {
    RleApplies(before, lens, 0, -1, 0);
    assert before + lens[..0] == before;
  }

  // ----- on the wire

  function OpBits(cl: seq<nat>, op: Op): BitString
    requires ValidOp(op) && Sym(op) < |cl| && 1 <= cl[Sym(op)] <= MAX_BITS
  {
    Codeword(cl, Sym(op)) +
    match op
    case Len(_) => []
    case Rep(n) => Lsb(n - 3, 2)
    case ZeroShort(n) => Lsb(n - 3, 3)
    case ZeroLong(n) => Lsb(n - 11, 7)
  }

  /** Every operation has a code. */
  ghost predicate Sendable(cl: seq<nat>, ops: seq<Op>)
  {
    ValidOps(ops) && forall i :: 0 <= i < |ops| ==> Sym(ops[i]) < |cl| && 1 <= cl[Sym(ops[i])] <= MAX_BITS
  }

  function OpsBits(cl: seq<nat>, ops: seq<Op>): BitString
    requires Sendable(cl, ops)
  {
    if ops == [] then [] else OpBits(cl, ops[0]) + OpsBits(cl, ops[1..])
  }

  lemma SendableAppend(cl: seq<nat>, a: seq<Op>, b: seq<Op>)
    requires Sendable(cl, a) && Sendable(cl, b)
    ensures Sendable(cl, a + b) && (a != [] ==> Sendable(cl, a[1..]))
  {
  }

  lemma NoBits(cl: seq<nat>)
    ensures Sendable(cl, []) && OpsBits(cl, []) == []
  {
  }

  lemma OpsBitsCons(cl: seq<nat>, op: Op, ops: seq<Op>)
    requires Sendable(cl, [op] + ops) && Sendable(cl, ops) && Sendable(cl, [op])
    ensures ValidOp(op) && Sym(op) < |cl| && 1 <= cl[Sym(op)] <= MAX_BITS
    ensures OpsBits(cl, [op] + ops) == OpBits(cl, op) + OpsBits(cl, ops)
  {
    assert ValidOp([op][0]);
    assert ([op] + ops)[1..] == ops;
  }

  lemma {:induction false} OpsBitsAppend(cl: seq<nat>, a: seq<Op>, b: seq<Op>)
    requires Sendable(cl, a) && Sendable(cl, b)
    ensures Sendable(cl, a + b) && OpsBits(cl, a + b) == OpsBits(cl, a) + OpsBits(cl, b)
  {
    hide OpBits, OpsBits, Sendable;
    SendableAppend(cl, a, b);
    if a == [] {
      assert a + b == b;
      NoBits(cl);
    } else {
      var x, r := a[0], a[1..];
      assert a == [x] + r && a + b == [x] + (r + b);
      OpsBitsAppend(cl, r, b);
      SendableOne(cl, a);
      OpsBitsCons(cl, x, r);
      OpsBitsCons(cl, x, r + b);
      Assoc(OpBits(cl, x), OpsBits(cl, r), OpsBits(cl, b));
    }
  }

  lemma SendableOne(cl: seq<nat>, a: seq<Op>)
    requires Sendable(cl, a) && a != []
    ensures Sendable(cl, [a[0]])
  {
  }

  /** The decoder of section 3.2.7 reads an operation as what it stands for. */
  lemma ReadOp(cl: seq<nat>, op: Op, t: BitString, known: seq<nat>)
    requires KraftOk(cl) && ValidOp(op) && Sym(op) < |cl| && cl[Sym(op)] >= 1
    requires op.Rep? ==> known != []
    ensures ReadLength(cl, OpBits(cl, op) + t, known) == Some((ApplyOp(known, op), t))
  {
    hide ReadCode, Take, Lsb, Codeword;
    match op
    case Len(l) =>
      assert OpBits(cl, op) == Codeword(cl, l);
      ReadCoded(cl, l, t);
    case Rep(n) => ReadExtra(cl, 16, n - 3, 2, t);
    case ZeroShort(n) => ReadExtra(cl, 17, n - 3, 3, t);
    case ZeroLong(n) => ReadExtra(cl, 18, n - 11, 7, t);
  }

  lemma ReadExtra(cl: seq<nat>, s: nat, x: nat, n: nat, t: BitString)
    requires KraftOk(cl) && s < |cl| && cl[s] >= 1
    requires (n == 2 && x < 4) || (n == 3 && x < 8) || (n == 7 && x < 128)
    ensures ReadCode(cl, Codeword(cl, s) + Lsb(x, n) + t) == Some((s, Lsb(x, n) + t))
    ensures Take(Lsb(x, n) + t, n) == Some((x, t))
  {
    Assoc(Codeword(cl, s), Lsb(x, n), t);
    ReadCoded(cl, s, Lsb(x, n) + t);
    Pow2Small();
    TakeLsb(x, n, t);
  }

  /** No operation shrinks what is known, and none is a repeat of nothing. */
  ghost predicate Grows(known: seq<nat>, ops: seq<Op>)
    decreases |ops|
  {
    ops == [] || ((ops[0].Rep? ==> known != []) && Grows(ApplyOp(known, ops[0]), ops[1..]))
  }

  lemma {:induction false} GrowsLonger(known: seq<nat>, ops: seq<Op>)
    requires ValidOps(ops) && Grows(known, ops)
    ensures |ApplyOps(known, ops)| >= |known| + |ops|
    decreases |ops|
  {
    if ops != [] {
      GrowsLonger(ApplyOp(known, ops[0]), ops[1..]);
    }
  }

  lemma {:induction false} GrowsAppend(known: seq<nat>, a: seq<Op>, b: seq<Op>)
    requires Grows(known, a) && Grows(ApplyOps(known, a), b)
    ensures Grows(known, a + b)
    decreases |a|
  {
    if a == [] {
      assert a + b == b;
    } else {
      assert (a + b)[1..] == a[1..] + b;
      GrowsAppend(ApplyOp(known, a[0]), a[1..], b);
    }
  }

  /** A list that stands for something at least as long as its start cannot begin with a bare repeat. */
  lemma {:induction false} EmitGrows(known: seq<nat>, prev: int, cur: nat, count: nat)
    requires prev >= 0 ==> known != []
    requires 1 <= count
    ensures Grows(known, Emit(prev, cur, count))
  {
    var e := Emit(prev, cur, count);
    if count < MinCount(prev, cur) {
      LensGrows(known, cur, count);
    } else if cur != 0 && cur != prev {
      assert e[1..] == [Rep(count - 1)] && e[1..][1..] == [];
    } else {
      assert e[1..] == [];
    }
  }

  lemma {:induction false} LensGrows(known: seq<nat>, cur: nat, count: nat)
    ensures Grows(known, Lens(cur, count))
    decreases count
  {
    if count > 0 {
      LensGrows(known + [cur], cur, count - 1);
      assert Lens(cur, count)[1..] == Lens(cur, count - 1);
    }
  }

  lemma {:induction false} RleGrows(known: seq<nat>, lens: seq<nat>, n: nat, prev: int, count: nat)
    requires forall i :: 0 <= i < |lens| ==> lens[i] <= 15
    requires n < |lens| ==> count < MaxCount(prev, lens[n])
    requires prev >= 0 ==> known != [] && known[|known| - 1] == prev
    requires prev == -1 || prev >= 0
    ensures Grows(known, RleFrom(lens, n, prev, count))
    decreases |lens| - n
  {
    if n < |lens| {
      var cur := lens[n];
      if count + 1 < MaxCount(prev, cur) && cur == LenAt(lens, n + 1) {
        RleGrows(known, lens, n + 1, prev, count + 1);
      } else {
        EmitGrows(known, prev, cur, count + 1);
        EmitApply(known, prev, cur, count + 1);
        RleGrows(known + Repeat(cur, count + 1), lens, n + 1, cur, 0);
        GrowsAppend(known, Emit(prev, cur, count + 1), RleFrom(lens, n + 1, cur, 0));
      }
    }
  }

  /** The decoder reads a list of operations as what it stands for, and goes on behind it. */
  lemma {:induction false} ReadOps(cl: seq<nat>, ops: seq<Op>, t: BitString, known: seq<nat>, total: nat)
    requires KraftOk(cl) && Sendable(cl, ops) && Grows(known, ops)
    requires |ApplyOps(known, ops)| <= total
    ensures ReadLengths(cl, OpsBits(cl, ops) + t, known, total) == ReadLengths(cl, t, ApplyOps(known, ops), total)
    decreases |ops|
  {
    if ops == [] {
      assert OpsBits(cl, ops) + t == t;
    } else {
      var rest := ops[1..];
      GrowsLonger(known, ops);
      ReadOp(cl, ops[0], OpsBits(cl, rest) + t, known);
      Assoc(OpBits(cl, ops[0]), OpsBits(cl, rest), t);
      ReadOps(cl, rest, t, ApplyOp(known, ops[0]), total);
    }
  }

  /** Both trees back to back are read back, and reading stops behind them. */
  lemma TwoTreesReadBack(cl: seq<nat>, lits: seq<nat>, dists: seq<nat>, t: BitString)
    requires KraftOk(cl) && Sendable(cl, Rle(lits)) && Sendable(cl, Rle(dists))
    requires forall i :: 0 <= i < |lits| ==> lits[i] <= 15
    requires forall i :: 0 <= i < |dists| ==> dists[i] <= 15
    ensures ReadLengths(cl, OpsBits(cl, Rle(lits)) + (OpsBits(cl, Rle(dists)) + t), [], |lits| + |dists|)
         == Some((lits + dists, t))
  {
    hide Rle, OpsBits, ApplyOps, Sendable, Grows, KraftOk, ReadLengths, ValidOps;
    var total := |lits| + |dists|;
    RleRoundTrip([], lits);
    assert [] + lits == lits;
    RleGrowsAll([], lits);
    ReadOps(cl, Rle(lits), OpsBits(cl, Rle(dists)) + t, [], total);
    RleRoundTrip(lits, dists);
    RleGrowsAll(lits, dists);
    ReadOps(cl, Rle(dists), t, lits, total);
    ReadAll(cl, t, lits + dists);
  }

  lemma RleGrowsAll(known: seq<nat>, lens: seq<nat>)
    requires forall i :: 0 <= i < |lens| ==> lens[i] <= 15
    ensures Grows(known, Rle(lens))
  {
    RleGrows(known, lens, 0, -1, 0);
  }

  lemma ReadAll(cl: seq<nat>, t: BitString, known: seq<nat>)
    ensures ReadLengths(cl, t, known, |known|) == Some((known, t))
  {
  }
}
