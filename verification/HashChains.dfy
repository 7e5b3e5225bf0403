/** The hash of three bytes, and the chains of earlier strings with the same hash. */
module HashChains {
  import opened Bits

  const WSIZE := 0x8000
  const HASH_SIZE := 0x2000

  /** `UPDATE_HASH`: 13 bits, so that the third shift by 5 drops the oldest byte. */
  function UpdateHash(h: bv13, c: byte): bv13
  {
    Step(h, Word(c))
  }

  function Step(h: bv13, x: bv13): bv13
  {
    (h << 5) ^ x
  }

  lemma StepInjective(h: bv13, x: bv13, y: bv13)
    requires Step(h, x) == Step(h, y)
    ensures x == y
  {
  }

  /** After three steps the first word has left the key, whatever the key was. */
  lemma Oldest(h: bv13, g: bv13, b: bv13, c: bv13)
    requires Step(h, 0) == Step(Step(g, b), 0)
    ensures Step(h, c) == Step(Step(g, b), c)
    ensures Step(Step(h, c), 0) == Step(Step(Step(0, b), c), 0)
  {
  }

  /** A byte as a 13-bit word. */
  function Word(c: byte): bv13
  {
    var b := Lsb(c, 8);
    Pack(b[0], b[1], b[2], b[3], b[4], b[5], b[6], b[7])
  }

  function Pack(b0: bool, b1: bool, b2: bool, b3: bool, b4: bool, b5: bool, b6: bool, b7: bool): bv13
  {
    (if b0 then 1 else 0) | (if b1 then 2 else 0) | (if b2 then 4 else 0) | (if b3 then 8 else 0) |
    (if b4 then 16 else 0) | (if b5 then 32 else 0) | (if b6 then 64 else 0) | (if b7 then 128 else 0)
  }

  lemma PackInjective(a0: bool, a1: bool, a2: bool, a3: bool, a4: bool, a5: bool, a6: bool, a7: bool,
                      b0: bool, b1: bool, b2: bool, b3: bool, b4: bool, b5: bool, b6: bool, b7: bool)
    requires Pack(a0, a1, a2, a3, a4, a5, a6, a7) == Pack(b0, b1, b2, b3, b4, b5, b6, b7)
    ensures a0 == b0 && a1 == b1 && a2 == b2 && a3 == b3 && a4 == b4 && a5 == b5 && a6 == b6 && a7 == b7
  {
  }

  lemma WordInjective(c: byte, d: byte)
    requires Word(c) == Word(d)
    ensures c == d
  {
    hide Pack, Lsb;
    var a, b := Lsb(c, 8), Lsb(d, 8);
    PackInjective(a[0], a[1], a[2], a[3], a[4], a[5], a[6], a[7], b[0], b[1], b[2], b[3], b[4], b[5], b[6], b[7]);
    assert a == b;
    assert Pow2(8) == 256;
    ValueLsb(c, 8);
    ValueLsb(d, 8);
  }

  function Hash3(a: byte, b: byte, c: byte): bv13
  {
    UpdateHash(UpdateHash(UpdateHash(0, a), b), c)
  }

  /** The running key is good for a string that starts with `a` and `b`. */
  predicate Ready(h: bv13, a: byte, b: byte)
  {
    Step(h, 0) == Step(UpdateHash(UpdateHash(0, a), b), 0)
  }

  lemma ReadyFirst(a: byte, b: byte)
    ensures Ready(UpdateHash(UpdateHash(0, a), b), a, b)
  {
    hide Step;
  }

  lemma ReadyNext(h: bv13, a: byte, b: byte, c: byte)
    requires Ready(h, a, b)
    ensures UpdateHash(h, c) == Hash3(a, b, c) && Ready(UpdateHash(h, c), b, c)
  {
    hide Step, Word;
    Oldest(h, UpdateHash(0, a), Word(b), Word(c));
  }

  /** Why `longest_match` need not compare the third byte: the hash and the first two determine it. */
  lemma ThirdByte(a: byte, b: byte, c: byte, d: byte)
    requires Hash3(a, b, c) == Hash3(a, b, d)
    ensures c == d
  {
    hide UpdateHash;
    LastByte(UpdateHash(UpdateHash(0, a), b), c, d);
  }

  lemma LastByte(h: bv13, c: byte, d: byte)
    requires UpdateHash(h, c) == UpdateHash(h, d)
    ensures c == d
  {
    hide Step, Word;
    StepInjective(h, Word(c), Word(d));
    WordInjective(c, d);
  }

  function Flag(h: bv13, mask: bv13): bool
  {
    h & mask != 0
  }

  /** The bits of a hash, lowest first. */
  function Flags(h: bv13): (r: BitString)
    ensures |r| == 13
  {
    seq(13, i requires 0 <= i < 13 => Flag(h, Mask(i)))
  }

  function Mask(i: nat): bv13
  {
    match i
    case 0 => 1
    case 1 => 2
    case 2 => 4
    case 3 => 8
    case 4 => 16
    case 5 => 32
    case 6 => 64
    case 7 => 128
    case 8 => 256
    case 9 => 512
    case 10 => 1024
    case 11 => 2048
    case _ => 4096
  }

  /** A hash as an index of `head`. */
  function Key(h: bv13): (r: nat)
    ensures r < HASH_SIZE
  {
    Pow2Small();
    Value(Flags(h))
  }

  lemma FlagsInjective(x: bv13, y: bv13)
    requires Flag(x, 1) == Flag(y, 1) && Flag(x, 2) == Flag(y, 2) && Flag(x, 4) == Flag(y, 4)
    requires Flag(x, 8) == Flag(y, 8)
    requires Flag(x, 16) == Flag(y, 16) && Flag(x, 32) == Flag(y, 32) && Flag(x, 64) == Flag(y, 64)
    requires Flag(x, 128) == Flag(y, 128)
    requires Flag(x, 256) == Flag(y, 256) && Flag(x, 512) == Flag(y, 512) && Flag(x, 1024) == Flag(y, 1024)
    requires Flag(x, 2048) == Flag(y, 2048) && Flag(x, 4096) == Flag(y, 4096)
    ensures x == y
  {
  }

  lemma {:induction false} ValueInjective(a: BitString, b: BitString)
    requires |a| == |b| && Value(a) == Value(b)
    ensures a == b
    decreases |a|
  {
    if a != [] {
      ValueInjective(a[1..], b[1..]);
      assert a == [a[0]] + a[1..] && b == [b[0]] + b[1..];
    }
  }

  lemma KeyInjective(x: bv13, y: bv13)
    requires Key(x) == Key(y)
    ensures x == y
  {
    hide Flag, Flags, Value, Pow2;
    ValueInjective(Flags(x), Flags(y));
    forall i | 0 <= i < 13
      ensures Flag(x, Mask(i)) == Flag(y, Mask(i))
    {
      FlagAt(x, i);
      FlagAt(y, i);
    }
    assert Mask(0) == 1 && Mask(1) == 2 && Mask(2) == 4 && Mask(3) == 8
      && Mask(4) == 16 && Mask(5) == 32 && Mask(6) == 64;
    assert Mask(7) == 128 && Mask(8) == 256 && Mask(9) == 512 && Mask(10) == 1024
      && Mask(11) == 2048 && Mask(12) == 4096;
    FlagsInjective(x, y);
  }

  lemma FlagAt(x: bv13, i: nat)
    requires i < 13
    ensures Flags(x)[i] == Flag(x, Mask(i))
  {
  }

  /** The hash of the string at `p`. */
  function HashAt(w: seq<byte>, p: nat): (h: nat)
    requires p + 2 < |w|
    ensures h < HASH_SIZE
  {
    Key(Hash3(w[p], w[p + 1], w[p + 2]))
  }

  function Slot(p: nat): (r: nat)
    ensures r < WSIZE
  {
    p % WSIZE
  }

  /** `q` is the last string before `p` with the same hash, or 0 if there is none behind the first. */
  ghost predicate Linked(w: seq<byte>, q: nat, p: nat)
    requires p + 2 < |w|
  {
    (q != 0 ==> q < p && HashAt(w, q) == HashAt(w, p)) && NoneBetween(w, q, p)
  }

  ghost predicate NoneBetween(w: seq<byte>, q: nat, p: nat)
    requires p + 2 < |w|
  {
    forall r :: q < r < p ==> HashAt(w, r) != HashAt(w, p)
  }

  /** `head` and `prev` when the strings before `n` are inserted; `prev` remembers the last `WSIZE`. */
  ghost predicate Chains(w: seq<byte>, prev: seq<nat>, head: seq<nat>, n: nat)
  {
    && n + 1 < |w| && |prev| == WSIZE && |head| == HASH_SIZE
    && (forall h :: 0 <= h < HASH_SIZE && head[h] != 0 ==> head[h] < n && HashAt(w, head[h]) == h)
    && (forall p :: 0 <= p < n ==> head[HashAt(w, p)] >= p)
    && (forall p {:trigger Slot(p)} :: 0 <= p < n <= p + WSIZE ==> Linked(w, prev[Slot(p)], p))
  }

  lemma NoChains(w: seq<byte>, prev: seq<nat>, head: seq<nat>)
    requires |w| > 1 && |prev| == WSIZE && |head| == HASH_SIZE && forall h :: 0 <= h < HASH_SIZE ==> head[h] == 0
    ensures Chains(w, prev, head, 0)
  {
  }

  lemma HashIs(w: seq<byte>, p: nat)
    requires p + 2 < |w|
    ensures HashAt(w, p) == Key(Hash3(w[p], w[p + 1], w[p + 2]))
  {
  }

  /** The head of a chain is the latest string with its hash. */
  lemma HeadIsLatest(w: seq<byte>, prev: seq<nat>, head: seq<nat>, n: nat)
    requires Chains(w, prev, head, n) && n + 2 < |w|
    ensures |head| == HASH_SIZE && forall q :: 0 <= q < n && HashAt(w, q) == HashAt(w, n) ==> head[HashAt(w, n)] >= q
  {
    hide HashAt, Slot;
  }

  lemma Slots(p: nat, n: nat)
    requires p < n < p + WSIZE
    ensures Slot(p) != Slot(n)
  {
  }

  /** `INSERT_STRING` of string `n`. */
  lemma InsertKeeps(w: seq<byte>, prev: seq<nat>, head: seq<nat>, n: nat)
    requires Chains(w, prev, head, n) && n + 2 < |w|
    ensures var h := HashAt(w, n);
      Linked(w, head[h], n) && Chains(w, prev[Slot(n) := head[h]], head[h := n], n + 1)
  {
    hide HashAt, Slot;
    var h := HashAt(w, n);
    var prev' := prev[Slot(n) := head[h]];
    forall p {:trigger Slot(p)} | 0 <= p < n + 1 <= p + WSIZE
      ensures Linked(w, prev'[Slot(p)], p)
    {
      if p < n {
        Slots(p, n);
      }
    }
    assert NoneBetween(w, head[h], n);
  }

  /** Bytes after the last inserted string may change. */
  lemma ChainsFrame(w: seq<byte>, w': seq<byte>, prev: seq<nat>, head: seq<nat>, n: nat)
    requires Chains(w, prev, head, n) && |w'| == |w| && (n > 0 ==> w'[..n + 2] == w[..n + 2])
    ensures Chains(w', prev, head, n)
  {
    hide Slot;
    forall p | 0 <= p < n
      ensures HashAt(w', p) == HashAt(w, p)
    {
      assert w'[p] == w'[..n + 2][p] && w'[p + 1] == w'[..n + 2][p + 1] && w'[p + 2] == w'[..n + 2][p + 2];
    }
    forall p {:trigger Slot(p)} | 0 <= p < n <= p + WSIZE
      ensures Linked(w', prev[Slot(p)], p)
    {
      assert Linked(w, prev[Slot(p)], p);
    }
  }

  /** What the loops of `fill_window` store for a position when the window moves down. */
  function Moved(m: nat): nat
  {
    if m >= WSIZE then m - WSIZE else 0
  }

  /** Moving the upper half of the window down keeps the chains of what is still in it. */
  lemma SlideKeeps(w: seq<byte>, w': seq<byte>, prev: seq<nat>, prev': seq<nat>, head: seq<nat>, head': seq<nat>,
                   n: nat)
    requires Chains(w, prev, head, n) && WSIZE <= n && n + 2 <= 2 * WSIZE <= |w| == |w'|
    requires forall i :: 0 <= i < WSIZE ==> w'[i] == w[i + WSIZE]
    requires |prev'| == WSIZE && forall i :: 0 <= i < WSIZE ==> prev'[i] == Moved(prev[i])
    requires |head'| == HASH_SIZE && forall i :: 0 <= i < HASH_SIZE ==> head'[i] == Moved(head[i])
    ensures Chains(w', prev', head', n - WSIZE)
  {
    hide Slot, HashAt;
    forall p | 0 <= p < n - WSIZE
      ensures HashAt(w', p) == HashAt(w, p + WSIZE) && head'[HashAt(w', p)] >= p
    {
      SameHash(w, w', p);
    }
    forall h | 0 <= h < HASH_SIZE && head'[h] != 0
      ensures head'[h] < n - WSIZE && HashAt(w', head'[h]) == h
    {
      SameHash(w, w', head'[h]);
    }
    forall p {:trigger Slot(p)} | 0 <= p < n - WSIZE
      ensures Linked(w', prev'[Slot(p)], p)
    {
      SameSlot(p);
      assert Linked(w, prev[Slot(p + WSIZE)], p + WSIZE);
      LinkMoves(w, w', prev[Slot(p + WSIZE)], p);
    }
  }

  lemma LinkMoves(w: seq<byte>, w': seq<byte>, q: nat, p: nat)
    requires 2 * WSIZE <= |w| == |w'| && p + 2 < WSIZE && forall i :: 0 <= i < WSIZE ==> w'[i] == w[i + WSIZE]
    requires Linked(w, q, p + WSIZE)
    ensures Linked(w', Moved(q), p)
  {
    hide HashAt;
    SameHash(w, w', p);
    if Moved(q) != 0 {
      SameHash(w, w', Moved(q));
    }
    forall r | Moved(q) < r < p
      ensures HashAt(w', r) != HashAt(w', p)
    {
      SameHash(w, w', r);
      assert q < r + WSIZE < p + WSIZE;
    }
  }

  lemma SameHash(w: seq<byte>, w': seq<byte>, p: nat)
    requires 2 * WSIZE <= |w| == |w'| && p + 2 < WSIZE && forall i :: 0 <= i < WSIZE ==> w'[i] == w[i + WSIZE]
    ensures HashAt(w', p) == HashAt(w, p + WSIZE)
  {
    hide Hash3, Key;
  }

  lemma SameSlot(p: nat)
    ensures Slot(p + WSIZE) == Slot(p)
  {
  }

  // ----- how far along its chain a string is

  /** How many strings from `p` up to `s` have the hash of the one at `s`. */
  ghost function Rank(w: seq<byte>, p: nat, s: nat): nat
    requires p <= s && s + 2 < |w|
    decreases s - p
  {
    if p == s then 0 else Rank(w, p + 1, s) + (if HashAt(w, p) == HashAt(w, s) then 1 else 0)
  }

  lemma {:induction false} RankGrows(w: seq<byte>, p: nat, q: nat, s: nat)
    requires p <= q <= s && s + 2 < |w|
    ensures Rank(w, p, s) >= Rank(w, q, s)
    decreases q - p
  {
    hide HashAt;
    if p < q {
      RankGrows(w, p + 1, q, s);
    }
  }

  lemma {:induction false} RankSame(w: seq<byte>, p: nat, q: nat, s: nat)
    requires p <= q <= s && s + 2 < |w| && forall r :: p <= r < q ==> HashAt(w, r) != HashAt(w, s)
    ensures Rank(w, p, s) == Rank(w, q, s)
    decreases q - p
  {
    hide HashAt;
    if p < q {
      RankSame(w, p + 1, q, s);
    }
  }

  /** A link leads to the next string of the same hash. */
  lemma LinkRank(w: seq<byte>, q: nat, p: nat, s: nat)
    requires p <= s && s + 2 < |w| && Linked(w, q, p) && q != 0 && HashAt(w, p) == HashAt(w, s)
    ensures p < s ==> Rank(w, q, s) == Rank(w, p, s) + 1
    ensures p == s ==> Rank(w, q, s) == 1
  {
    hide HashAt;
    RankSame(w, q + 1, p, s);
  }
}
