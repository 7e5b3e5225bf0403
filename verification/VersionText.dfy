/** The order of versions, read off their text: no numbers are computed and nothing is cut into chunks. */
module VersionText {
  import opened Bits
  import opened CanonicalCode
  import opened Versions

  // ----- the order on text

  ghost predicate AreDigits(d: Text) { forall i :: 0 <= i < |d| ==> 48 <= d[i] <= 57 }

  predicate StartsPlain(v: Text) { v != [] && !(48 <= v[0] <= 57) }

  /** Without its leading zeros. */
  function Stripped(d: Text): Text
  {
    if d != [] && d[0] == 48 then Stripped(d[1..]) else d
  }

  /** Strings of one length by the first byte in which they differ. */
  function FirstDifference(a: Text, b: Text): int
    requires |a| == |b|
  {
    if a == [] then 0
    else if a[0] < b[0] then -1
    else if a[0] > b[0] then 1
    else FirstDifference(a[1..], b[1..])
  }

  /** Without leading zeros, the longer number is higher, and of two of one length the first different digit decides. */
  function NumberOrder(d: Text, e: Text): int
  {
    var x, y := Stripped(d), Stripped(e);
    if |x| < |y| then -1 else if |x| > |y| then 1 else FirstDifference(x, y)
  }

  function DigitRun(v: Text): (n: nat)
    ensures n <= |v| && AreDigits(v[..n]) && (n < |v| ==> !(48 <= v[n] <= 57))
  {
    if v == [] || StartsPlain(v) then 0
    else
      var n := DigitRun(v[1..]);
      assert v[..n + 1] == [v[0]] + v[1..][..n];
      n + 1
  }

  /** Byte by byte up to a number; whatever is no digit is above a digit and above the end; numbers by their order. */
  function TextOrder(a: Text, b: Text): int
    decreases |a| + |b|
  {
    if a == [] && b == [] then 0
    else if StartsPlain(a) && StartsPlain(b) then
      if a[0] < b[0] then -1 else if a[0] > b[0] then 1 else TextOrder(a[1..], b[1..])
    else if StartsPlain(a) then 1
    else if StartsPlain(b) then -1
    else
      var m, n := DigitRun(a), DigitRun(b);
      if NumberOrder(a[..m], b[..n]) != 0 then NumberOrder(a[..m], b[..n]) else TextOrder(a[m..], b[n..])
  }

  // ----- numbers

  function Pow10(n: nat): (r: nat)
    ensures r >= 1
  {
    if n == 0 then 1 else 10 * Pow10(n - 1)
  }

  lemma DigitsAre(d: Text)
    requires AreDigits(d)
    ensures forall i :: 0 <= i < |d| ==> IsDigit(d[i])
  {
  }

  lemma LastDigit(d: Text)
    requires AreDigits(d) && d != []
    ensures AreDigits(d[..|d| - 1]) && IsDigit(d[|d| - 1])
    ensures forall i :: 0 <= i < |d| ==> IsDigit(d[i])
    ensures Atoi(d) == 10 * Atoi(d[..|d| - 1]) + (d[|d| - 1] - 48)
  {
  }

  lemma {:induction false} AtoiBelow(d: Text)
    requires AreDigits(d)
    ensures (forall i :: 0 <= i < |d| ==> IsDigit(d[i])) && Atoi(d) < Pow10(|d|)
    decreases |d|
  {
    hide Atoi;
    DigitsAre(d);
    if d == [] {
      AtoiNothing();
    } else {
      LastDigit(d);
      AtoiBelow(d[..|d| - 1]);
    }
  }

  lemma AtoiNothing()
    ensures Atoi([]) == 0
  {
  }

  lemma {:induction false} AtoiAbove(d: Text)
    requires AreDigits(d) && d != [] && d[0] != 48
    ensures (forall i :: 0 <= i < |d| ==> IsDigit(d[i])) && Atoi(d) >= Pow10(|d| - 1)
    decreases |d|
  {
    hide Atoi;
    DigitsAre(d);
    LastDigit(d);
    if |d| == 1 {
      AtoiNothing();
      assert d[..0] == [];
    } else {
      assert d[..|d| - 1][0] == d[0];
      AtoiAbove(d[..|d| - 1]);
    }
  }

  lemma {:induction false} AtoiZero(d: Text)
    requires AreDigits(d)
    ensures AreDigits([48] + d) && (forall i :: 0 <= i < |d| ==> IsDigit(d[i]))
    ensures (forall i :: 0 <= i < |d| + 1 ==> IsDigit(([48] + d)[i])) && Atoi([48] + d) == Atoi(d)
    decreases |d|
  {
    hide Atoi;
    var z := [48] + d;
    DigitsAre(d);
    DigitsAre(z);
    LastDigit(z);
    if d == [] {
      AtoiNothing();
      assert z[..0] == [];
    } else {
      LastDigit(d);
      AtoiZero(d[..|d| - 1]);
      assert z[..|z| - 1] == [48] + d[..|d| - 1];
    }
  }

  lemma {:induction false} AtoiStripped(d: Text)
    requires AreDigits(d)
    ensures AreDigits(Stripped(d)) && (Stripped(d) != [] ==> Stripped(d)[0] != 48)
    ensures forall i :: 0 <= i < |d| ==> IsDigit(d[i])
    ensures forall i :: 0 <= i < |Stripped(d)| ==> IsDigit(Stripped(d)[i])
    ensures Atoi(Stripped(d)) == Atoi(d)
    decreases |d|
  {
    hide Atoi;
    DigitsAre(d);
    if d != [] && d[0] == 48 {
      AtoiStripped(d[1..]);
      AtoiZero(d[1..]);
      assert d == [48] + d[1..];
    }
  }

  /** The last bytes decide only if nothing before them does. */
  lemma {:induction false} DifferenceLast(a: Text, b: Text)
    requires |a| == |b| >= 1
    ensures var n := |a| - 1;
      var c := FirstDifference(a[..n], b[..n]);
      FirstDifference(a, b) == if c != 0 then c else if a[n] < b[n] then -1 else if a[n] > b[n] then 1 else 0
    decreases |a|
  {
    var n := |a| - 1;
    if n > 0 && a[0] == b[0] {
      DifferenceLast(a[1..], b[1..]);
      assert a[..n][1..] == a[1..][..n - 1] && b[..n][1..] == b[1..][..n - 1];
    }
  }

  lemma {:induction false} DifferenceIsNumeric(a: Text, b: Text)
    requires |a| == |b| && AreDigits(a) && AreDigits(b)
    ensures (forall i :: 0 <= i < |a| ==> IsDigit(a[i])) && forall i :: 0 <= i < |b| ==> IsDigit(b[i])
    ensures FirstDifference(a, b) == Compare(Atoi(a), Atoi(b))
    decreases |a|
  {
    hide Atoi, FirstDifference;
    DigitsAre(a);
    DigitsAre(b);
    if a == [] {
      AtoiNothing();
      NoDifference();
    } else {
      DifferenceLast(a, b);
      LastDigit(a);
      LastDigit(b);
      DifferenceIsNumeric(a[..|a| - 1], b[..|b| - 1]);
    }
  }

  lemma NoDifference()
    ensures FirstDifference([], []) == 0
  {
  }

  lemma {:induction false} Pow10Mono(a: nat, b: nat)
    requires a <= b
    ensures Pow10(a) <= Pow10(b)
    decreases b
  {
    if a < b {
      Pow10Mono(a, b - 1);
    }
  }

  lemma ShorterIsLower(x: Text, y: Text)
    requires AreDigits(x) && AreDigits(y) && |x| < |y| && y[0] != 48
    ensures (forall i :: 0 <= i < |x| ==> IsDigit(x[i])) && forall i :: 0 <= i < |y| ==> IsDigit(y[i])
    ensures Atoi(x) < Atoi(y)
  {
    hide Atoi, Pow10;
    AtoiBelow(x);
    AtoiAbove(y);
    Pow10Mono(|x|, |y| - 1);
  }

  /** The order of digit strings is that of their values. */
  lemma NumberOrderIs(d: Text, e: Text)
    requires AreDigits(d) && AreDigits(e)
    ensures (forall i :: 0 <= i < |d| ==> IsDigit(d[i])) && forall i :: 0 <= i < |e| ==> IsDigit(e[i])
    ensures NumberOrder(d, e) == Compare(Atoi(d), Atoi(e))
  {
    hide Atoi, Stripped, FirstDifference;
    AtoiStripped(d);
    AtoiStripped(e);
    var x, y := Stripped(d), Stripped(e);
    if |x| < |y| {
      ShorterIsLower(x, y);
    } else if |y| < |x| {
      ShorterIsLower(y, x);
    } else {
      DifferenceIsNumeric(x, y);
    }
  }

  // ----- the code's comparison is that order

  lemma {:induction false} RunIsSpan(v: Text)
    ensures Span(v, true) == DigitRun(v)
    decreases |v|
  {
    if v != [] && IsDigit(v[0]) {
      RunIsSpan(v[1..]);
    }
  }

  /** Two words, and behind each a digit or the end. */
  lemma {:induction false} WordsFirst(a: Text, b: Text, x: Text, y: Text)
    requires (forall i :: 0 <= i < |a| ==> !IsDigit(a[i])) && forall i :: 0 <= i < |b| ==> !IsDigit(b[i])
    requires !StartsPlain(x) && !StartsPlain(y)
    ensures TextOrder(a + x, b + y) == if StrCmp(a, b) != 0 then StrCmp(a, b) else TextOrder(x, y)
    decreases |a|
  {
    var v, w := a + x, b + y;
    if a == [] {
      assert v == x;
      if b == [] {
        assert w == y;
      }
    } else if b == [] {
      assert w == y;
    } else {
      assert v[1..] == a[1..] + x && w[1..] == b[1..] + y;
      WordsFirst(a[1..], b[1..], x, y);
    }
  }

  lemma WordAndRest(v: Text)
    ensures var n := Span(v, false);
      && v == v[..n] + v[n..] && !StartsPlain(v[n..]) && forall i :: 0 <= i < n ==> !IsDigit(v[..n][i])
  {
  }

  /** `version_compare_part` compares by the text order. */
  lemma {:induction false} PartsByText(a: Text, b: Text)
    ensures CompareParts(a, b) == TextOrder(a, b)
    decreases |a| + |b|
  {
    hide CompareParts, TextOrder, FirstChunk, ChunkEnd, Span, Atoi, StrCmp, NumberOrder, StartsPlain;
    if a == [] && b == [] {
      NoParts();
      NothingToOrder();
    } else {
      PartUnfold(a, b);
      ChunkParts(a);
      ChunkParts(b);
      WordAndRest(a);
      WordAndRest(b);
      var m, n := Span(a, false), Span(b, false);
      WordsFirst(a[..m], b[..n], a[m..], b[n..]);
      NumbersNext(a[m..], b[n..]);
      PartsByText(a[ChunkEnd(a)..], b[ChunkEnd(b)..]);
    }
  }

  lemma NothingToOrder()
    ensures TextOrder([], []) == 0
  {
  }

  lemma NumbersNext(x: Text, y: Text)
    requires !StartsPlain(x) && !StartsPlain(y)
    ensures var m, n := Span(x, true), Span(y, true);
      var c := Compare(Atoi(x[..m]), Atoi(y[..n]));
      TextOrder(x, y) == if c != 0 then c else TextOrder(x[m..], y[n..])
  {
    hide Atoi, NumberOrder, Span;
    RunIsSpan(x);
    RunIsSpan(y);
    NumberOrderIs(x[..DigitRun(x)], y[..DigitRun(y)]);
    if x == [] && y == [] {
      assert x[..0] == [] && y[..0] == [];
    }
  }

  // ----- what decides between two texts

  /** Common text up to a difference; a number that ends there would not be common. */
  lemma {:induction false} CommonStart(p: Text, x: Text, y: Text)
    requires p == [] || !(48 <= p[|p| - 1] <= 57)
    ensures TextOrder(p + x, p + y) == TextOrder(x, y)
    decreases |p|
  {
    hide NumberOrder;
    if p == [] {
      assert p + x == x && p + y == y;
    } else if StartsPlain(p) {
      assert (p + x)[1..] == p[1..] + x && (p + y)[1..] == p[1..] + y;
      CommonStart(p[1..], x, y);
    } else {
      var n := DigitRun(p);
      RunInside(p, x);
      RunInside(p, y);
      SameNumber(p[..n]);
      assert (p + x)[n..] == p[n..] + x && (p + y)[n..] == p[n..] + y;
      assert (p + x)[..n] == p[..n] && (p + y)[..n] == p[..n];
      CommonStart(p[n..], x, y);
    }
  }

  /** A number that ends inside `p` is not changed by what follows. */
  lemma {:induction false} RunInside(p: Text, x: Text)
    requires p != [] && !(48 <= p[|p| - 1] <= 57)
    ensures DigitRun(p) < |p| && DigitRun(p + x) == DigitRun(p) && (!StartsPlain(p) ==> DigitRun(p) >= 1)
    decreases |p|
  {
    if !StartsPlain(p) {
      assert (p + x)[1..] == p[1..] + x;
      RunInside(p[1..], x);
    }
  }

  lemma SameNumber(d: Text)
    ensures NumberOrder(d, d) == 0
  {
    Undecided(Stripped(d));
  }

  lemma {:induction false} Undecided(d: Text)
    ensures FirstDifference(d, d) == 0
  {
    if d != [] {
      Undecided(d[1..]);
    }
  }

  lemma {:induction false} RunIs(d: Text, s: Text)
    requires AreDigits(d) && (s == [] || StartsPlain(s))
    ensures DigitRun(d + s) == |d| && (d + s)[..|d|] == d && (d + s)[|d|..] == s
    decreases |d|
  {
    if d == [] {
      assert d + s == s;
    } else {
      assert (d + s)[1..] == d[1..] + s;
      RunIs(d[1..], s);
    }
  }

  lemma NumbersDecide(p: Text, d: Text, e: Text, s: Text, t: Text)
    requires p == [] || !(48 <= p[|p| - 1] <= 57)
    requires AreDigits(d) && AreDigits(e) && d != [] && e != []
    requires (s == [] || StartsPlain(s)) && (t == [] || StartsPlain(t))
    ensures var c := NumberOrder(d, e);
      TextOrder(p + (d + s), p + (e + t)) == if c != 0 then c else TextOrder(s, t)
  {
    hide NumberOrder;
    CommonStart(p, d + s, e + t);
    RunIs(d, s);
    RunIs(e, t);
  }

  // ----- whole versions

  /** `version_compare`, as a sign. */
  function Order(v: Text, w: Text): int { CompareVersions(Parse(v), Parse(w)) }

  /** What follows `p` does not change its epoch. */
  predicate EpochFixed(p: Text, x: Text)
  {
    && (p == [] ==> |x| < 2 || x[1] != COLON)
    && (|p| == 1 ==> x == [] || x[0] != COLON)
  }

  /** The text before the last dash, if any, is compared before the text behind it. */
  predicate SameSide(p: Text, s: Text, t: Text) { DASH in p ==> (DASH in s <==> DASH in t) }

  lemma {:induction false} LastIndexAppend(p: Text, x: Text, c: byte)
    ensures LastIndex(p + x, c)
      == if LastIndex(x, c).Some? then Some(|p| + LastIndex(x, c).value) else LastIndex(p, c)
    decreases |x|
  {
    var v := p + x;
    if x == [] {
      assert v == p;
    } else {
      assert v[..|v| - 1] == p + x[..|x| - 1];
      LastIndexAppend(p, x[..|x| - 1], c);
    }
  }

  /** The part of a text behind the epoch. */
  function Behind(p: Text): Text { if HasEpoch(p) then AfterEpoch(p) else p }

  lemma BehindEpoch(p: Text, x: Text)
    requires EpochFixed(p, x)
    ensures AfterEpoch(p + x) == Behind(p) + x && Epoch(p + x) == Epoch(p)
    ensures Behind(p) == [] || (p != [] && Behind(p)[|Behind(p)| - 1] == p[|p| - 1])
    ensures DASH in Behind(p) ==> DASH in p
  {
  }

  /** What of a text belongs to the same part as its start. */
  function UpToDash(x: Text): Text
  {
    var dash := LastIndex(x, DASH);
    if dash.Some? then x[..dash.value] else x
  }

  function BehindDash(x: Text): Text
  {
    var dash := LastIndex(x, DASH);
    if dash.Some? then x[dash.value + 1..] else []
  }

  /** Epoch, then the text up to the last dash, then the text behind it. */
  lemma OrderIs(v: Text, w: Text)
    requires Epoch(v) == Epoch(w)
    ensures var x, y := AfterEpoch(v), AfterEpoch(w);
      var c := TextOrder(UpToDash(x), UpToDash(y));
      Order(v, w) == if c != 0 then c else TextOrder(BehindDash(x), BehindDash(y))
  {
    hide CompareParts, TextOrder, AfterEpoch, Epoch, LastIndex;
    var a, b := Parse(v), Parse(w);
    PartsByText(a.upstream, b.upstream);
    PartsByText(a.revision, b.revision);
  }

  /** Where the last dash of `q + x` is. */
  lemma DashAppend(q: Text, x: Text)
    ensures DASH in x || DASH !in q ==> UpToDash(q + x) == q + UpToDash(x) && BehindDash(q + x) == BehindDash(x)
    ensures DASH !in x && DASH in q ==> UpToDash(q + x) == UpToDash(q) && BehindDash(q + x) == BehindDash(q) + x
  {
    hide UpToDash, BehindDash, LastIndex;
    if DASH in x {
      DashInSecond(q, x);
    } else if DASH in q {
      DashInFirst(q, x);
    } else {
      DashInNeither(q, x);
    }
  }

  lemma DashInSecond(q: Text, x: Text)
    requires DASH in x
    ensures UpToDash(q + x) == q + UpToDash(x) && BehindDash(q + x) == BehindDash(x)
  {
    hide LastIndex;
    LastIndexAppend(q, x, DASH);
    var v, k := q + x, LastIndex(x, DASH).value;
    assert v[..|q| + k] == q + x[..k];
    assert v[|q| + k + 1..] == x[k + 1..];
  }

  lemma DashInFirst(q: Text, x: Text)
    requires DASH in q && DASH !in x
    ensures UpToDash(q + x) == UpToDash(q) && BehindDash(q + x) == BehindDash(q) + x
  {
    hide LastIndex;
    LastIndexAppend(q, x, DASH);
    var v, k := q + x, LastIndex(q, DASH).value;
    assert v[..k] == q[..k];
    assert v[k + 1..] == q[k + 1..] + x;
  }

  lemma DashInNeither(q: Text, x: Text)
    requires DASH !in q && DASH !in x
    ensures UpToDash(q + x) == q + UpToDash(x) && BehindDash(q + x) == BehindDash(x)
  {
    hide LastIndex;
    LastIndexAppend(q, x, DASH);
  }

  lemma BehindDashEnd(q: Text)
    ensures var r := BehindDash(q); r == [] || (q != [] && r[|r| - 1] == q[|q| - 1])
  {
  }

  lemma SameText(x: Text)
    ensures TextOrder(x, x) == 0
  {
    hide CompareParts, TextOrder;
    PartOrder(x, x, x);
    PartsByText(x, x);
  }

  /** The upstream parts differ from the same place on, or they are equal and the revisions do. */
  lemma SamePart(p: Text, x: Text, y: Text) returns (q: Text)
    requires EpochFixed(p, x) && EpochFixed(p, y) && SameSide(p, x, y)
    ensures q == [] || (p != [] && q[|q| - 1] == p[|p| - 1])
    ensures var c := TextOrder(q + UpToDash(x), q + UpToDash(y));
      c != 0 ==> Order(p + x, p + y) == c
  {
    hide Order, TextOrder, AfterEpoch, Epoch, HasEpoch, Behind, UpToDash, BehindDash;
    BehindEpoch(p, x);
    BehindEpoch(p, y);
    OrderIs(p + x, p + y);
    q := Behind(p);
    DashAppend(q, x);
    DashAppend(q, y);
    if DASH in q && DASH !in x {
      SameText(UpToDash(q));
      BehindDashEnd(q);
      NoDash(x);
      NoDash(y);
      q := BehindDash(q);
    }
  }

  lemma NoDash(x: Text)
    ensures DASH !in x ==> UpToDash(x) == x && BehindDash(x) == []
  {
  }

  /** A digit run and what is behind it, up to the last dash. */
  lemma DigitsUpToDash(d: Text, s: Text)
    requires AreDigits(d) && (s == [] || StartsPlain(s))
    ensures UpToDash(d + s) == d + UpToDash(s) && (UpToDash(s) == [] || StartsPlain(UpToDash(s)))
    ensures DASH in d + s <==> DASH in s
  {
    hide LastIndex;
    assert DASH !in d;
    DashAppend(d, s);
  }

  // ----- the laws

  /**
   * Behind a common text, the higher number makes the later version, whatever else follows; `d` and `e` are whole
   * digit runs, not an epoch, and they belong to the same part of the two versions.
   */
  lemma HigherNumber(p: Text, d: Text, e: Text, s: Text, t: Text)
    requires p == [] || !(48 <= p[|p| - 1] <= 57)
    requires AreDigits(d) && AreDigits(e) && d != [] && e != []
    requires (s == [] || StartsPlain(s)) && (t == [] || StartsPlain(t))
    requires EpochFixed(p, d + s) && EpochFixed(p, e + t) && SameSide(p, s, t)
    ensures NumberOrder(d, e) != 0 ==> Order(p + (d + s), p + (e + t)) == NumberOrder(d, e)
  {
    hide Order, NumberOrder, TextOrder, UpToDash, StartsPlain, EpochFixed;
    DigitsUpToDash(d, s);
    DigitsUpToDash(e, t);
    var q := SamePart(p, d + s, e + t);
    NumbersDecide(q, d, e, UpToDash(s), UpToDash(t));
  }

  /** The number with more digits, leading zeros aside, makes the later version. */
  lemma LongerNumber(p: Text, d: Text, e: Text, s: Text, t: Text)
    requires p == [] || !(48 <= p[|p| - 1] <= 57)
    requires AreDigits(d) && AreDigits(e) && d != [] && e != [] && d[0] != 48 && e[0] != 48 && |d| < |e|
    requires (s == [] || StartsPlain(s)) && (t == [] || StartsPlain(t))
    requires EpochFixed(p, d + s) && EpochFixed(p, e + t) && SameSide(p, s, t)
    ensures Order(p + (d + s), p + (e + t)) == -1
  {
    hide Order, StartsPlain, EpochFixed;
    HigherNumber(p, d, e, s, t);
  }

  /** Of two numbers of one length the first different digit decides. */
  lemma HigherDigit(p: Text, c: Text, a: byte, x: Text, b: byte, y: Text, s: Text, t: Text)
    requires p == [] || !(48 <= p[|p| - 1] <= 57)
    requires AreDigits(c + [a] + x) && AreDigits(c + [b] + y) && |x| == |y| && a < b
    requires (c + [a] + x)[0] != 48 && (c + [b] + y)[0] != 48
    requires (s == [] || StartsPlain(s)) && (t == [] || StartsPlain(t))
    requires EpochFixed(p, c + [a] + x + s) && EpochFixed(p, c + [b] + y + t) && SameSide(p, s, t)
    ensures Order(p + (c + [a] + x + s), p + (c + [b] + y + t)) == -1
  {
    hide Order, StartsPlain, EpochFixed;
    var d, e := c + [a] + x, c + [b] + y;
    HigherNumber(p, d, e, s, t);
    FirstDifferent(c, [a] + x, [b] + y);
    assert d == c + ([a] + x) && e == c + ([b] + y);
  }

  lemma {:induction false} FirstDifferent(c: Text, x: Text, y: Text)
    requires |x| == |y| && x != [] && x[0] < y[0]
    ensures FirstDifference(c + x, c + y) == -1
    decreases |c|
  {
    if c == [] {
      assert c + x == x && c + y == y;
    } else {
      assert (c + x)[1..] == c[1..] + x && (c + y)[1..] == c[1..] + y;
      FirstDifferent(c[1..], x, y);
    }
  }

  /** Leading zeros do not matter. */
  lemma LeadingZero(p: Text, d: Text, s: Text)
    requires p == [] || !(48 <= p[|p| - 1] <= 57)
    requires AreDigits(d) && d != [] && (s == [] || StartsPlain(s))
    requires EpochFixed(p, d + s) && EpochFixed(p, [48] + d + s)
    ensures Order(p + (d + s), p + ([48] + d + s)) == 0
  {
    hide Order, NumberOrder, TextOrder, UpToDash, BehindDash, StartsPlain, EpochFixed, AfterEpoch, Epoch, Behind;
    var e := [48] + d;
    BehindEpoch(p, d + s);
    BehindEpoch(p, e + s);
    OrderIs(p + (d + s), p + (e + s));
    DigitsUpToDash(d, s);
    DigitsUpToDash(e, s);
    ZeroInFront(d);
    var q := Behind(p);
    DashAppend(q, d + s);
    DashAppend(q, e + s);
    NumbersDecide(q, d, e, UpToDash(s), UpToDash(s));
    SameText(UpToDash(s));
    if DASH in s {
      DashAppend(d, s);
      DashAppend(e, s);
      SameText(BehindDash(s));
    } else if DASH in q {
      SameText(UpToDash(q));
      BehindDashEnd(q);
      NumbersDecide(BehindDash(q), d, e, s, s);
      SameText(s);
    } else {
      NoDash(d + s);
      NoDash(e + s);
      SameText([]);
    }
  }

  lemma ZeroInFront(d: Text)
    ensures NumberOrder(d, [48] + d) == 0
  {
    assert ([48] + d)[1..] == d;
    SameNumber(d);
  }

  /** As `CommonStart`, also behind a number, if no digit follows. */
  lemma {:induction false} CommonBeforeWord(p: Text, x: Text, y: Text)
    requires StartsPlain(x) && StartsPlain(y)
    ensures TextOrder(p + x, p + y) == TextOrder(x, y)
    decreases |p|
  {
    hide NumberOrder;
    if p == [] {
      assert p + x == x && p + y == y;
    } else if StartsPlain(p) {
      assert (p + x)[1..] == p[1..] + x && (p + y)[1..] == p[1..] + y;
      CommonBeforeWord(p[1..], x, y);
    } else {
      var n := DigitRun(p);
      RunBeforeWord(p, x);
      RunBeforeWord(p, y);
      SameNumber(p[..n]);
      assert (p + x)[n..] == p[n..] + x && (p + y)[n..] == p[n..] + y;
      assert (p + x)[..n] == p[..n] && (p + y)[..n] == p[..n];
      CommonBeforeWord(p[n..], x, y);
    }
  }

  lemma {:induction false} RunBeforeWord(p: Text, x: Text)
    requires StartsPlain(x)
    ensures DigitRun(p + x) == DigitRun(p) && (p != [] && !StartsPlain(p) ==> DigitRun(p) >= 1)
    decreases |p|
  {
    if p == [] {
      assert p + x == x;
    } else if !StartsPlain(p) {
      assert (p + x)[1..] == p[1..] + x;
      RunBeforeWord(p[1..], x);
    }
  }

  lemma ByteUpToDash(a: byte, s: Text)
    requires a != DASH
    ensures UpToDash([a] + s) == [a] + UpToDash(s) && (DASH in [a] + s <==> DASH in s)
  {
    hide LastIndex;
    assert DASH !in [a];
    DashAppend([a], s);
  }

  /** Outside numbers the first different byte decides. */
  lemma HigherByte(p: Text, a: byte, b: byte, s: Text, t: Text)
    requires a < b && !(48 <= a <= 57) && !(48 <= b <= 57) && a != DASH && b != DASH
    requires EpochFixed(p, [a] + s) && EpochFixed(p, [b] + t) && SameSide(p, s, t)
    ensures Order(p + ([a] + s), p + ([b] + t)) == -1
  {
    hide Order, UpToDash, EpochFixed;
    ByteUpToDash(a, s);
    ByteUpToDash(b, t);
    var q := SamePart(p, [a] + s, [b] + t);
    CommonBeforeWord(q, [a] + UpToDash(s), [b] + UpToDash(t));
  }

  /** A byte that is no digit is above the end, and above a digit that starts a number. */
  lemma WordAboveEnd(p: Text, a: byte, s: Text, t: Text)
    requires !(48 <= a <= 57) && a != DASH && (t == [] || 48 <= t[0] <= 57)
    requires p == [] || !(48 <= p[|p| - 1] <= 57)
    requires EpochFixed(p, [a] + s) && EpochFixed(p, t) && SameSide(p, s, t)
    ensures Order(p + ([a] + s), p + t) == 1
  {
    hide Order, UpToDash, EpochFixed;
    ByteUpToDash(a, s);
    UpToDashStart(t);
    var q := SamePart(p, [a] + s, t);
    CommonStart(q, [a] + UpToDash(s), UpToDash(t));
  }

  lemma UpToDashStart(t: Text)
    requires t == [] || 48 <= t[0] <= 57
    ensures UpToDash(t) == [] || 48 <= UpToDash(t)[0] <= 57
  {
  }

  /** What an epoch, an upstream version and a revision are in the text. */
  lemma PartsOf(epoch: byte, upstream: Text, revision: Text)
    requires epoch != COLON && DASH !in revision
    ensures Parse([epoch, 58] + upstream + [45] + revision) == Version(epoch, upstream, revision)
    ensures DASH !in upstream ==> Parse([epoch, 58] + upstream) == Version(epoch, upstream, [])
  {
    hide LastIndex;
    var rest := upstream + ([45] + revision);
    assert ([epoch, 58] + upstream + [45] + revision)[2..] == rest;
    assert ([epoch, 58] + upstream)[2..] == upstream;
    LastIndexAppend(upstream, [45] + revision, DASH);
    LastIndexAppend([45], revision, DASH);
    OnlyDash();
    NoLast(revision);
    NoLast(upstream);
    assert rest[..|upstream|] == upstream && rest[|upstream| + 1..] == revision;
  }

  lemma OnlyDash()
    ensures LastIndex([45], DASH) == Some(0)
  {
  }

  lemma NoLast(r: Text)
    ensures DASH !in r ==> LastIndex(r, DASH) == None
  {
  }

  /** Without an epoch a version has the epoch 0. */
  lemma NoEpoch(v: Text)
    requires |v| < 2 || v[1] != 58
    ensures Parse([48, 58] + v) == Parse(v)
  {
    hide LastIndex;
    assert ([48, 58] + v)[2..] == v;
  }

  /** The epoch is compared before everything else. */
  lemma EpochFirst(e: byte, f: byte, s: Text, t: Text)
    requires e < f
    ensures Order([e, 58] + s, [f, 58] + t) == -1
  {
    hide CompareParts, AfterEpoch, LastIndex;
  }

  /** Versions with the same upstream text are compared by their revisions. */
  lemma RevisionLast(epoch: byte, upstream: Text, r: Text, q: Text)
    requires epoch != COLON && DASH !in r && DASH !in q
    ensures Order([epoch, 58] + upstream + [45] + r, [epoch, 58] + upstream + [45] + q) == TextOrder(r, q)
  {
    hide CompareParts, Parse, TextOrder;
    PartsOf(epoch, upstream, r);
    PartsOf(epoch, upstream, q);
    PartOrder(upstream, upstream, upstream);
    PartsByText(r, q);
  }

  /** What the operators say about two versions of which one has the higher number. */
  lemma OperatorsOnNumbers(p: Text, d: Text, e: Text, s: Text, t: Text)
    requires p == [] || !(48 <= p[|p| - 1] <= 57)
    requires AreDigits(d) && AreDigits(e) && d != [] && e != [] && NumberOrder(d, e) < 0
    requires (s == [] || StartsPlain(s)) && (t == [] || StartsPlain(t))
    requires EpochFixed(p, d + s) && EpochFixed(p, e + t) && SameSide(p, s, t)
    ensures var v, w := p + (d + s), p + (e + t);
      && Test(v, w, Less) && Test(v, w, LessEqual) && !Test(v, w, Equal) && !Test(v, w, MoreEqual) && !Test(v, w, More)
      && Test(w, v, More) && Test(w, v, MoreEqual) && !Test(w, v, Equal) && !Test(w, v, LessEqual) && !Test(w, v, Less)
  {
    hide CompareVersions, Parse, NumberOrder, StartsPlain, EpochFixed, SameSide;
    HigherNumber(p, d, e, s, t);
    NumberOrderIs(d, e);
    VersionOrder(Parse(p + (d + s)), Parse(p + (e + t)), Parse(p + (e + t)));
  }

  /** 1.9 comes before 1.10. */
  lemma NineBeforeTen()
    ensures Order([49, 46, 57], [49, 46, 49, 48]) == -1
  {
    hide Order;
    LongerNumber([49, 46], [57], [49, 48], [], []);
    assert [49, 46] + ([57] + []) == [49, 46, 57] && [49, 46] + ([49, 48] + []) == [49, 46, 49, 48];
  }
}
