/** `scan_tree` and `send_tree`: the run-length operations of a length vector, counted and sent. */
module TreeSend {
  import opened Bits
  import opened BitWriter
  import opened CanonicalCode
  import opened TreeBuild
  import opened RunLength

  // ----- counting

  function Inc(f: seq<nat>, s: nat, n: nat): (r: seq<nat>)
    requires s < |f|
    ensures |r| == |f|
  {
    f[s := f[s] + n]
  }

  /** Count each operation's symbol. */
  ghost function Tally(f: seq<nat>, ops: seq<Op>): (r: seq<nat>)
    requires |f| >= 19 && ValidOps(ops)
    ensures |r| == |f|
    decreases |ops|
  {
    if ops == [] then f else Tally(Inc(f, Sym(ops[0]), 1), ops[1..])
  }

  lemma {:induction false} TallyAppend(f: seq<nat>, a: seq<Op>, b: seq<Op>)
    requires |f| >= 19 && ValidOps(a) && ValidOps(b)
    ensures ValidOps(a + b) && Tally(f, a + b) == Tally(Tally(f, a), b)
    decreases |a|
  {
    if a == [] {
      assert a + b == b;
    } else {
      assert (a + b)[1..] == a[1..] + b;
      TallyAppend(Inc(f, Sym(a[0]), 1), a[1..], b);
    }
  }

  lemma {:induction false} TallyLens(f: seq<nat>, cur: nat, count: nat)
    requires |f| >= 19 && cur <= 15 && ValidOps(Lens(cur, count))
    ensures Tally(f, Lens(cur, count)) == Inc(f, cur, count)
    decreases count
  {
    if count > 0 {
      var rest := Lens(cur, count)[1..];
      assert rest == Lens(cur, count - 1);
      TallyLens(Inc(f, cur, 1), cur, count - 1);
    }
  }

  lemma TallyTwo(f: seq<nat>, a: Op, b: Op)
    requires |f| >= 19 && ValidOp(a) && ValidOp(b)
    ensures ValidOps([a, b]) && Tally(f, [a, b]) == Inc(Inc(f, Sym(a), 1), Sym(b), 1)
  {
    assert [a, b][1..] == [b] && [b][1..] == [];
    assert Tally(Inc(f, Sym(a), 1), [b]) == Tally(Inc(Inc(f, Sym(a), 1), Sym(b), 1), []);
  }

  lemma TallyOne(f: seq<nat>, a: Op)
    requires |f| >= 19 && ValidOp(a)
    ensures ValidOps([a]) && Tally(f, [a]) == Inc(f, Sym(a), 1)
  {
    assert [a][1..] == [];
  }

  /** The counting branch of `scan_tree` for one run. */
  method CountRun(freq: array<nat>, prevlen: int, curlen: nat, count: nat, minCount: nat)
    requires freq.Length >= 19 && curlen <= 15 && 1 <= count <= MaxCount(prevlen, curlen)
    requires minCount == MinCount(prevlen, curlen) && ValidOps(Emit(prevlen, curlen, count))
    modifies freq
    ensures freq[..] == Tally(old(freq[..]), Emit(prevlen, curlen, count))
  {
    hide Tally;
    ghost var f: seq<nat> := freq[..];
    if count < minCount {
      TallyLens(f, curlen, count);
      freq[curlen] := freq[curlen] + count;
      assert freq[..] == Inc(f, curlen, count);
    } else if curlen != 0 {
      if curlen != prevlen {
        TallyTwo(f, Len(curlen), Rep(count - 1));
        freq[curlen] := freq[curlen] + 1;
        assert freq[..] == Inc(f, curlen, 1);
      } else {
        TallyOne(f, Rep(count));
      }
      ghost var g: seq<nat> := freq[..];
      freq[16] := freq[16] + 1;
      assert freq[..] == Inc(g, 16, 1);
    } else if count <= 10 {
      TallyOne(f, ZeroShort(count));
      freq[17] := freq[17] + 1;
      assert freq[..] == Inc(f, 17, 1);
    } else {
      TallyOne(f, ZeroLong(count));
      freq[18] := freq[18] + 1;
      assert freq[..] == Inc(f, 18, 1);
    }
  }

  /** The state of the run loop that `scan_tree` and `send_tree` share. */
  ghost predicate InRun(lens: seq<nat>, n: nat, prevlen: int, nextlen: nat, count: nat, maxCount: nat, minCount: nat)
  {
    && n <= |lens| && nextlen == LenAt(lens, n) && prevlen >= -1
    && (forall i :: 0 <= i < |lens| ==> lens[i] <= 15)
    && (n < |lens| ==> count < maxCount == MaxCount(prevlen, lens[n]) && minCount == MinCount(prevlen, lens[n]))
  }

  /** The run goes on, or the next one starts with its own limits. */
  lemma NextRun(lens: seq<nat>, n: nat, prev: int, count: nat, maxCount: nat, minCount: nat)
    requires n < |lens| && InRun(lens, n, prev, lens[n], count, maxCount, minCount)
    ensures lens[n] <= 15 && count < maxCount == MaxCount(prev, lens[n]) && minCount == MinCount(prev, lens[n])
    ensures count + 1 < maxCount && lens[n] == LenAt(lens, n + 1)
      ==> InRun(lens, n + 1, prev, lens[n], count + 1, maxCount, minCount)
    ensures var next := LenAt(lens, n + 1);
      InRun(lens, n + 1, lens[n], next, 0, if next == 0 then 138 else if lens[n] == next then 6 else 7,
            if next == 0 then 3 else if lens[n] == next then 3 else 4)
  {
  }

  lemma FirstRun(lens: seq<nat>)
    requires lens != [] && forall i :: 0 <= i < |lens| ==> lens[i] <= 15
    ensures InRun(lens, 0, -1, lens[0], 0, if lens[0] == 0 then 138 else 7, if lens[0] == 0 then 3 else 4)
  {
  }

  lemma RunNext(lens: seq<nat>, n: nat, prev: int, next: nat, count: nat, maxCount: nat, minCount: nat)
    requires InRun(lens, n, prev, next, count, maxCount, minCount)
    ensures next == LenAt(lens, n) && prev >= -1 && n <= |lens|
  {
  }

  /** `scan_tree`: the frequencies of the code length alphabet, and the guard behind the last code. */
  method ScanTree(dl: array<nat>, maxCode: nat, freq: array<nat>)
    requires dl != freq && maxCode + 1 < dl.Length && freq.Length >= 19
    requires forall i :: 0 <= i <= maxCode ==> dl[i] <= 15
    modifies dl, freq
    ensures dl[..] == old(dl[..])[maxCode + 1 := GUARD]
    ensures ValidOps(Rle(old(dl[..maxCode + 1])))
    ensures freq[..] == Tally(old(freq[..]), Rle(old(dl[..maxCode + 1])))
  {
    hide Tally, RleFrom, Emit, InRun, ValidOps;
    ghost var lens: seq<nat>, f0: seq<nat> := dl[..maxCode + 1], freq[..];
    RleRoundTrip([], lens);
    var prevlen: int, nextlen, count, maxCount, minCount := -1, dl[0], 0, 7, 4;
    if nextlen == 0 {
      maxCount, minCount := 138, 3;
    }
    FirstRun(lens);
    dl[maxCode + 1] := GUARD;
    ghost var guarded := dl[..];
    var n := 0;
    while n <= maxCode
      invariant 0 <= n <= maxCode + 1 && dl[..] == guarded
      invariant InRun(lens, n, prevlen, nextlen, count, maxCount, minCount)
      invariant ValidOps(RleFrom(lens, n, prevlen, count))
      invariant Tally(f0, Rle(lens)) == Tally(freq[..], RleFrom(lens, n, prevlen, count))
    {
      var curlen := nextlen;
      RunNext(lens, n, prevlen, nextlen, count, maxCount, minCount);
      nextlen := dl[n + 1];
      assert nextlen == LenAt(lens, n + 1);
      count := count + 1;
      RleStep(lens, n, prevlen, count - 1);
      NextRun(lens, n, prevlen, count - 1, maxCount, minCount);
      if !(count < maxCount && curlen == nextlen) {
        TallyAppend(freq[..], Emit(prevlen, curlen, count), RleFrom(lens, n + 1, curlen, 0));
        CountRun(freq, prevlen, curlen, count, minCount);
        count := 0;
        prevlen := curlen;
        maxCount, minCount := 7, 4;
        if nextlen == 0 {
          maxCount, minCount := 138, 3;
        } else if curlen == nextlen {
          maxCount, minCount := 6, 3;
        }
      }
      n := n + 1;
    }
    RleDone(lens, prevlen, count);
    TallyNothing(freq[..]);
  }

  lemma TallyNothing(f: seq<nat>)
    requires |f| >= 19
    ensures Tally(f, []) == f
  {
  }

  lemma RleDone(lens: seq<nat>, prev: int, count: nat)
    ensures RleFrom(lens, |lens|, prev, count) == []
  {
  }

  lemma RleStep(lens: seq<nat>, n: nat, prev: int, count: nat)
    requires n < |lens| && ValidOps(RleFrom(lens, n, prev, count))
    ensures if count + 1 < MaxCount(prev, lens[n]) && lens[n] == LenAt(lens, n + 1)
            then RleFrom(lens, n, prev, count) == RleFrom(lens, n + 1, prev, count + 1)
            else && RleFrom(lens, n, prev, count) == Emit(prev, lens[n], count + 1) + RleFrom(lens, n + 1, lens[n], 0)
                 && ValidOps(Emit(prev, lens[n], count + 1)) && ValidOps(RleFrom(lens, n + 1, lens[n], 0))
  {
    if !(count + 1 < MaxCount(prev, lens[n]) && lens[n] == LenAt(lens, n + 1)) {
      var a, b := Emit(prev, lens[n], count + 1), RleFrom(lens, n + 1, lens[n], 0);
      assert forall i :: 0 <= i < |a| ==> a[i] == (a + b)[i];
      assert forall i :: 0 <= i < |b| ==> b[i] == (a + b)[|a| + i];
    }
  }

  // ----- sending

  /** `SEND_CODE`. */
  method SendCode(w: Writer, fc: array<nat>, dl: array<nat>, s: nat, ghost lens: seq<nat>)
    requires w.Valid() && s < fc.Length && s < dl.Length
    requires Coded(fc[..], lens, s) && dl[s] == lens[s]
    modifies w, w.outbuf
    ensures w.Valid() && w.Stream() == old(w.Stream()) + Codeword(lens, s)
  {
    hide Codeword, Lsb, Pow2;
    w.SendBits(fc[s], dl[s]);
  }

  /** The tree's vectors hold the codes of the lengths `cl`. */
  ghost predicate Sends(fc: array<nat>, dl: array<nat>, cl: seq<nat>)
    reads fc, dl
  {
    && |cl| <= fc.Length && |cl| <= dl.Length && dl[..|cl|] == cl
    && AllCoded(fc[..], cl, |cl|)
  }

  method SendSymbol(w: Writer, fc: array<nat>, dl: array<nat>, s: nat, ghost cl: seq<nat>)
    requires w.Valid() && Sends(fc, dl, cl) && s < |cl| && cl[s] > 0
    modifies w, w.outbuf
    ensures w.Valid() && 1 <= cl[s] <= MAX_BITS && w.Stream() == old(w.Stream()) + Codeword(cl, s)
  {
    hide Codeword;
    assert Coded(fc[..], cl, s);
    assert cl[s] == dl[..|cl|][s];
    SendCode(w, fc, dl, s, cl);
  }

  method SendRepeat(w: Writer, fc: array<nat>, dl: array<nat>, s: nat, x: nat, n: nat, ghost cl: seq<nat>)
    requires w.Valid() && Sends(fc, dl, cl) && s < |cl| && cl[s] > 0
    requires (n == 2 && x < 4) || (n == 3 && x < 8) || (n == 7 && x < 128)
    modifies w, w.outbuf
    ensures w.Valid() && 1 <= cl[s] <= MAX_BITS && w.Stream() == old(w.Stream()) + (Codeword(cl, s) + Lsb(x, n))
  {
    hide Codeword, Lsb;
    ghost var before := w.Stream();
    SendSymbol(w, fc, dl, s, cl);
    SmallFields(x, n);
    w.SendBits(x, n);
    Assoc(before, Codeword(cl, s), Lsb(x, n));
  }

  lemma SmallFields(x: nat, n: nat)
    requires (n == 2 && x < 4) || (n == 3 && x < 8) || (n == 7 && x < 128)
    ensures x < Pow2(n)
  {
    Pow2Small();
  }

  /** The sending branch of `send_tree` for one run. */
  method SendRun(w: Writer, fc: array<nat>, dl: array<nat>, prevlen: int, curlen: nat, count: nat, minCount: nat,
                 ghost cl: seq<nat>)
    requires w.Valid() && Sends(fc, dl, cl) && curlen <= 15 && 1 <= count <= MaxCount(prevlen, curlen)
    requires minCount == MinCount(prevlen, curlen) && Sendable(cl, Emit(prevlen, curlen, count))
    modifies w, w.outbuf
    ensures w.Valid() && w.Stream() == old(w.Stream()) + OpsBits(cl, Emit(prevlen, curlen, count))
  {
    hide OpsBits, Codeword, Lsb, Sendable, Sends, Writer.Valid, Writer.Stream;
    SendsSize(fc, dl, cl);
    if count < minCount {
      SendLens(w, fc, dl, curlen, count, cl);
    } else if curlen != 0 {
      if curlen != prevlen {
        ghost var before := w.Stream();
        TwoOps(cl, Len(curlen), Rep(count - 1));
        SendSymbol(w, fc, dl, curlen, cl);
        SendRepeat(w, fc, dl, 16, count - 1 - 3, 2, cl);
        Assoc(before, Codeword(cl, curlen), Codeword(cl, 16) + Lsb(count - 1 - 3, 2));
      } else {
        OneOp(cl, Rep(count));
        SendRepeat(w, fc, dl, 16, count - 3, 2, cl);
      }
    } else if count <= 10 {
      OneOp(cl, ZeroShort(count));
      SendRepeat(w, fc, dl, 17, count - 3, 3, cl);
    } else {
      OneOp(cl, ZeroLong(count));
      SendRepeat(w, fc, dl, 18, count - 11, 7, cl);
    }
  }

  lemma SendsSize(fc: array<nat>, dl: array<nat>, cl: seq<nat>)
    requires Sends(fc, dl, cl)
    ensures |cl| <= fc.Length && |cl| <= dl.Length
  {
  }

  lemma OneOp(cl: seq<nat>, a: Op)
    requires Sendable(cl, [a])
    ensures ValidOp(a) && Sym(a) < |cl| && 1 <= cl[Sym(a)] <= MAX_BITS
    ensures OpsBits(cl, [a]) == OpBits(cl, a)
  {
    assert ValidOp([a][0]);
    assert [a][1..] == [];
    assert OpsBits(cl, [a]) == OpBits(cl, a) + OpsBits(cl, [a][1..]);
  }

  lemma TwoOps(cl: seq<nat>, a: Op, b: Op)
    requires Sendable(cl, [a, b])
    ensures ValidOp(a) && Sym(a) < |cl| && 1 <= cl[Sym(a)] <= MAX_BITS
    ensures ValidOp(b) && Sym(b) < |cl| && 1 <= cl[Sym(b)] <= MAX_BITS
    ensures OpsBits(cl, [a, b]) == OpBits(cl, a) + OpBits(cl, b)
  {
    hide OpBits;
    assert ValidOp([a, b][0]) && ValidOp([a, b][1]);
    assert [a, b][1..] == [b];
    OneOp(cl, b);
    assert OpsBits(cl, [a, b]) == OpBits(cl, a) + OpsBits(cl, [b]);
  }

  lemma ConsOp(cl: seq<nat>, cur: nat, count: nat)
    requires count > 0 && Sendable(cl, Lens(cur, count))
    ensures Sendable(cl, Lens(cur, count - 1)) && cur <= 15 && cur < |cl| && 1 <= cl[cur] <= MAX_BITS
    ensures OpsBits(cl, Lens(cur, count)) == Codeword(cl, cur) + OpsBits(cl, Lens(cur, count - 1))
  {
    var ops := Lens(cur, count);
    assert ValidOp(ops[0]);
    assert ops[1..] == Lens(cur, count - 1);
    assert Codeword(cl, cur) + [] == Codeword(cl, cur);
  }

  method SendLens(w: Writer, fc: array<nat>, dl: array<nat>, curlen: nat, count0: nat, ghost cl: seq<nat>)
    requires w.Valid() && Sends(fc, dl, cl) && 1 <= count0 && Sendable(cl, Lens(curlen, count0))
    modifies w, w.outbuf
    ensures w.Valid() && w.Stream() == old(w.Stream()) + OpsBits(cl, Lens(curlen, count0))
  {
    hide OpsBits, Codeword, Sendable, Lens;
    var count := count0;
    ghost var sent := [];
    while true
      invariant 1 <= count <= count0 && w.Valid() && Sends(fc, dl, cl)
      invariant Sendable(cl, Lens(curlen, count)) && Sendable(cl, Lens(curlen, count0))
      invariant w.Stream() == old(w.Stream()) + sent
      invariant OpsBits(cl, Lens(curlen, count0)) == sent + OpsBits(cl, Lens(curlen, count))
      decreases count
    {
      ConsOp(cl, curlen, count);
      SendSymbol(w, fc, dl, curlen, cl);
      Assoc(sent, Codeword(cl, curlen), OpsBits(cl, Lens(curlen, count - 1)));
      Assoc(old(w.Stream()), sent, Codeword(cl, curlen));
      sent := sent + Codeword(cl, curlen);
      count := count - 1;
      if count == 0 {
        break;
      }
    }
    NoLens(curlen);
    NoBits(cl);
  }

  lemma NoLens(cur: nat)
    ensures Lens(cur, 0) == []
  {
  }

  /** `send_tree`: the guard behind the last code is already there. */
  method SendTree(w: Writer, dl: array<nat>, maxCode: nat, blFc: array<nat>, blDl: array<nat>, ghost cl: seq<nat>)
    requires w.Valid() && Sends(blFc, blDl, cl)
    requires maxCode + 1 < dl.Length && dl[maxCode + 1] == GUARD
    requires forall i :: 0 <= i <= maxCode ==> dl[i] <= 15
    requires Sendable(cl, Rle(dl[..maxCode + 1]))
    modifies w, w.outbuf
    ensures w.Valid() && w.Stream() == old(w.Stream()) + OpsBits(cl, Rle(dl[..maxCode + 1]))
  {
    hide OpsBits, RleFrom, Emit, Sendable, InRun;
    ghost var lens: seq<nat>, s0, sent := dl[..maxCode + 1], w.Stream(), [];
    var prevlen: int, nextlen, count, maxCount, minCount := -1, dl[0], 0, 7, 4;
    if nextlen == 0 {
      maxCount, minCount := 138, 3;
    }
    FirstRun(lens);
    var n := 0;
    while n <= maxCode
      invariant 0 <= n <= maxCode + 1 && w.Valid() && Sends(blFc, blDl, cl) && dl[..maxCode + 1] == lens
      invariant dl[maxCode + 1] == GUARD
      invariant InRun(lens, n, prevlen, nextlen, count, maxCount, minCount)
      invariant Sendable(cl, RleFrom(lens, n, prevlen, count))
      invariant w.Stream() == s0 + sent
      invariant OpsBits(cl, Rle(lens)) == sent + OpsBits(cl, RleFrom(lens, n, prevlen, count))
    {
      var curlen := nextlen;
      RunNext(lens, n, prevlen, nextlen, count, maxCount, minCount);
      nextlen := dl[n + 1];
      assert nextlen == LenAt(lens, n + 1);
      count := count + 1;
      SendStep(cl, lens, n, prevlen, count - 1);
      NextRun(lens, n, prevlen, count - 1, maxCount, minCount);
      if !(count < maxCount && curlen == nextlen) {
        SendRun(w, blFc, blDl, prevlen, curlen, count, minCount, cl);
        ghost var run := OpsBits(cl, Emit(prevlen, curlen, count));
        Assoc(s0, sent, run);
        Assoc(sent, run, OpsBits(cl, RleFrom(lens, n + 1, curlen, 0)));
        sent := sent + run;
        count := 0;
        prevlen := curlen;
        if nextlen == 0 {
          maxCount, minCount := 138, 3;
        } else if curlen == nextlen {
          maxCount, minCount := 6, 3;
        } else {
          maxCount, minCount := 7, 4;
        }
      }
      n := n + 1;
    }
    RleDone(lens, prevlen, count);
    NoBits(cl);
  }

  lemma SendStep(cl: seq<nat>, lens: seq<nat>, n: nat, prev: int, count: nat)
    requires n < |lens| && Sendable(cl, RleFrom(lens, n, prev, count))
    ensures if count + 1 < MaxCount(prev, lens[n]) && lens[n] == LenAt(lens, n + 1)
            then RleFrom(lens, n, prev, count) == RleFrom(lens, n + 1, prev, count + 1)
            else && Sendable(cl, Emit(prev, lens[n], count + 1)) && Sendable(cl, RleFrom(lens, n + 1, lens[n], 0))
                 && OpsBits(cl, RleFrom(lens, n, prev, count))
                    == OpsBits(cl, Emit(prev, lens[n], count + 1)) + OpsBits(cl, RleFrom(lens, n + 1, lens[n], 0))
  {
    hide Emit, OpsBits;
    RleStep(lens, n, prev, count);
    if !(count + 1 < MaxCount(prev, lens[n]) && lens[n] == LenAt(lens, n + 1)) {
      var a, b := Emit(prev, lens[n], count + 1), RleFrom(lens, n + 1, lens[n], 0);
      assert forall i :: 0 <= i < |a| ==> a[i] == (a + b)[i];
      assert forall i :: 0 <= i < |b| ==> b[i] == (a + b)[|a| + i];
      OpsBitsAppend(cl, a, b);
    }
  }
}
