/** The sliding window, its hash chains, and `longest_match`. */
module Matcher {
  import opened Bits
  import opened HashChains
  import opened Expansion
  import opened TokenCode
  import Crc

  const MIN_MATCH := 3
  const MAX_MATCH := 258
  const MIN_LOOKAHEAD := 262
  const WINDOW_SIZE := 65536
  const MAX_CHAIN := 4096
  const MAX_LAZY := 258
  const GOOD_MATCH := 32
  const NICE_MATCH := 258
  /** What the disabled assertion of `longest_match` allows `strstart` to be. */
  const FAR_LIMIT := WINDOW_SIZE - MIN_LOOKAHEAD

  /** A value stored in a 32-bit unsigned. */
  function U32(x: int): nat
  {
    x % 0x1_0000_0000
  }

  /** A position may wrap when the window moves; its place in the input does not change. */
  lemma Wraps(x: nat, base: nat, d: nat)
    ensures U32(U32(x - d) + (base + d)) == U32(x + base)
  {
  }

  /** Standard input: `plan` says how much each read delivers at most, 0 standing for a read that fails. */
  class Source {
    const data: seq<byte>
    const crcTable: seq<bv32>
    var pos: nat
    var plan: seq<nat>
    var crc: bv32
    ghost const reliable: bool

    /** The CRC register has been fed exactly the bytes delivered. */
    ghost predicate Valid()
      reads this
    {
      && pos <= |data| && (reliable ==> 0 !in plan) && Crc.IsTable(crcTable)
      && crc == Crc.FeedAll(0xFFFFFFFF, ByteBits(data[..pos]))
    }

    constructor (data: seq<byte>, plan: seq<nat>)
      ensures Valid() && this.data == data && pos == 0 && this.plan == plan && (reliable <==> 0 !in plan)
    {
      var table := Crc.FillTable();
      this.data, pos, this.plan, crcTable, crc := data, 0, plan, table, 0xFFFFFFFF;
      reliable := 0 !in plan;
      new;
      Crc.EmptyFeed(0xFFFFFFFF);
      assert this.data[..0] == [];
    }

    /** `safe_read`: any number of bytes up to `size`; 0 at the end, -1 on failure. */
    method Deliver(buf: array<byte>, start: nat, size: nat) returns (n: int)
      requires pos <= |data| && (reliable ==> 0 !in plan) && start + size <= buf.Length && size > 0
      modifies this`plan, buf
      ensures -1 <= n <= size && (n > 0 ==> pos + n <= |data|) && (reliable ==> 0 !in plan)
      ensures old(plan) == [] ==> plan == [] && n == if |data| - pos < size then |data| - pos else size
      ensures var k := if n > 0 then n else 0;
        pos + k <= |data| && buf[..] == old(buf[..])[..start] + data[pos..pos + k] + old(buf[..])[start + k..]
      ensures n <= 0 && reliable ==> pos == |data|
    {
      var limit := size;
      if plan != [] {
        limit := plan[0];
        plan := plan[1..];
        if limit == 0 {
          n := -1;
          return;
        }
      }
      n := if limit < size then limit else size;
      if |data| - pos < n {
        n := |data| - pos;
      }
      forall i | start <= i < start + n {
        buf[i] := data[pos + i - start];
      }
    }

    /** `updcrc`: run the bytes just read through the register. */
    method UpdCrc(buf: array<byte>, start: nat, n: nat)
      requires Crc.IsTable(crcTable) && start + n <= buf.Length
      modifies this`crc
      ensures crc == Crc.FeedAll(old(crc), ByteBits(buf[start..start + n]))
    {
      hide Crc.FeedAll, ByteBits, Crc.IsTable;
      var i := 0;
      ghost var c := crc;
      assert buf[start..start] == [];
      Crc.EmptyFeed(c);
      while i < n
        invariant 0 <= i <= n && crc == Crc.FeedAll(c, ByteBits(buf[start..start + i]))
      {
        Crc.FeedMore(c, buf[start..start + i + 1]);
        assert buf[start..start + i + 1][..i] == buf[start..start + i];
        crc := Crc.LookUp(crcTable, crc, buf[start + i]);
        i := i + 1;
      }
    }

    /** `file_read`: the next bytes of the input, through the CRC register. */
    method Read(buf: array<byte>, start: nat, size: nat) returns (n: int)
      requires Valid() && start + size <= buf.Length && size > 0
      modifies this`pos, this`plan, this`crc, buf
      ensures Valid() && -1 <= n <= size && pos <= |data|
      ensures pos == old(pos) + (if n > 0 then n else 0)
      ensures start + (pos - old(pos)) <= buf.Length
      ensures buf[..] == old(buf[..])[..start] + data[old(pos)..pos] + old(buf[..])[start + (pos - old(pos))..]
      ensures n <= 0 && reliable ==> pos == |data|
      ensures old(plan) == [] ==> plan == [] && n == if |data| - old(pos) < size then |data| - old(pos) else size
    {
      hide Crc.FeedAll, ByteBits, Crc.IsTable;
      n := Deliver(buf, start, size);
      if n == -1 || n == 0 {
        assert data[pos..pos] == [];
        return;
      }
      assert buf[start..start + n] == buf[..][start..start + n] == data[pos..pos + n];
      Crc.FeedTwo(0xFFFFFFFF, data[..pos], data[pos..pos + n]);
      assert data[..pos] + data[pos..pos + n] == data[..pos + n];
      UpdCrc(buf, start, n);
      pos := pos + n;
    }
  }

  /** The window starts with bytes `base` to `pos - 1` of the input. */
  ghost predicate Shows(w: seq<byte>, data: seq<byte>, base: nat, pos: nat)
  {
    base <= pos <= |data| && pos - base <= |w| && w[..pos - base] == data[base..pos]
  }

  /** An earlier string of the window that agrees with the one at `s`, near enough to be used. */
  ghost predicate Found(w: seq<byte>, m: nat, s: nat, len: nat)
  {
    Repeats(w, m, s, len) && s - m <= MAX_DIST
  }

  /** How many strings of a chain `longest_match` looks at. */
  function Tries(prevLength: nat): nat { if prevLength >= GOOD_MATCH then MAX_CHAIN / 4 else MAX_CHAIN }

  /** None of the `tries` nearest strings with the hash of the one at `s` agrees with it in more than `best` bytes. */
  ghost predicate Longest(w: seq<byte>, s: nat, tries: nat, best: nat)
    requires s + 2 < |w|
  {
    forall p: nat, k: nat ::
      1 <= p < s < p + MAX_DIST && Rank(w, p, s) <= tries && k <= MAX_MATCH && Repeats(w, p, s, k) && k >= MIN_MATCH ==>
        k <= best
  }

  /** The same for all strings behind `from`. */
  ghost predicate Beaten(w: seq<byte>, s: nat, from: nat, best: nat)
    requires s + 2 < |w|
  {
    forall p :: from < p < s && HashAt(w, p) == HashAt(w, s) ==> !Repeats(w, p, s, best + 1)
  }

  /** No string nearer than `m` agrees in `len` bytes. */
  ghost predicate Nearest(w: seq<byte>, m: nat, s: nat, len: nat)
  {
    forall p :: m < p < s ==> !Repeats(w, p, s, len)
  }

  lemma RepeatsLess(w: seq<byte>, p: nat, s: nat, k: nat, n: nat)
    requires Repeats(w, p, s, k) && n <= k
    ensures Repeats(w, p, s, n)
    ensures k >= MIN_MATCH ==> s + 2 < |w| && HashAt(w, p) == HashAt(w, s)
  {
    if k >= MIN_MATCH {
      hide Hash3;
      assert w[p] == w[p + s - p] && w[p + 1] == w[p + 1 + s - p] && w[p + 2] == w[p + 2 + s - p];
    }
  }

  /** The string at `cur` has been tried, and `q` is linked behind it. */
  lemma Tried(w: seq<byte>, s: nat, cur: nat, best: nat, len: nat, q: nat)
    requires s + 2 < |w| && cur < s && HashAt(w, cur) == HashAt(w, s) && Beaten(w, s, cur, best) && Linked(w, q, cur)
    requires best <= len && !Repeats(w, cur, s, len + 1)
    ensures Beaten(w, s, q, len)
  {
    hide HashAt, Repeats;
    forall p | q < p < s && HashAt(w, p) == HashAt(w, s)
      ensures !Repeats(w, p, s, len + 1)
    {
      if Repeats(w, p, s, len + 1) {
        RepeatsLess(w, p, s, len + 1, best + 1);
        assert false;
      }
    }
  }

  /** A string that agrees in more bytes than all nearer ones is the nearest that does. */
  lemma NewBest(w: seq<byte>, s: nat, cur: nat, best: nat, len: nat)
    requires s + 2 < |w| && Beaten(w, s, cur, best) && len > best && len >= MIN_MATCH
    ensures Nearest(w, cur, s, len)
  {
    hide HashAt, Repeats;
    forall p | cur < p < s
      ensures !Repeats(w, p, s, len)
    {
      if Repeats(w, p, s, len) {
        RepeatsLess(w, p, s, len, best + 1);
        assert false;
      }
    }
  }

  /** The search may end where the strings are too far away, too many, or cannot be beaten. */
  lemma SearchEnds(w: seq<byte>, s: nat, tries: nat, best: nat, q: nat)
    requires s + 2 < |w| && q < s && Beaten(w, s, q, best)
    requires q + MAX_DIST <= s || q == 0 || Rank(w, q, s) > tries
    ensures Longest(w, s, tries, best)
  {
    hide HashAt, Repeats;
    forall p: nat, k: nat |
      1 <= p < s < p + MAX_DIST && Rank(w, p, s) <= tries && k <= MAX_MATCH && Repeats(w, p, s, k) && k >= MIN_MATCH
      ensures k <= best
    {
      if k > best {
        RepeatsLess(w, p, s, k, best + 1);
        if p <= q {
          RankGrows(w, p, q, s);
        }
        assert false;
      }
    }
  }

  class Window {
    /** The window and, behind it, memory that `longest_match` may look at near the end of the input. */
    const window: array<byte>
    const prev: array<nat>
    const head: array<nat>
    const src: Source
    var insH: bv13
    var strstart: nat
    var lookahead: nat
    var matchStart: nat
    var prevLength: nat
    var blockStart: int
    var eofile: bool
    /** How far the window has moved: `window[i]` is byte `base + i` of the input. */
    ghost var base: nat
    /** `longest_match` has been called with `strstart` above `FAR_LIMIT`. */
    ghost var far: bool

    ghost predicate Shape()
    {
      && window.Length == WINDOW_SIZE + MAX_MATCH && prev.Length == WSIZE && head.Length == HASH_SIZE
      && prev != head
    }

    /** The window holds the input around `strstart`. */
    ghost predicate Loaded()
      reads this, window, src
    {
      && Shape() && src.Valid() && strstart + lookahead <= WINDOW_SIZE
      && src.pos == base + strstart + lookahead && Shows(window[..], src.data, base, src.pos)
      && (eofile ==> strstart + lookahead <= WINDOW_SIZE - 2)
      && (eofile && src.reliable ==> src.pos == |src.data|)
      && 0 <= base + blockStart && blockStart <= strstart
      && (base > 0 ==> strstart >= MAX_DIST) && base % WSIZE == 0
    }

    /** The strings before `n` are in the chains, and the running hash is ready for string `n`. */
    ghost predicate Hashed(n: nat)
      reads this, window, prev, head
    {
      && Shape() && n + 1 < window.Length
      && Chains(window[..], prev[..], head[..], n) && Ready(insH, window[n], window[n + 1])
    }

    constructor (src: Source)
      ensures this.src == src && Shape() && fresh(window) && fresh(prev) && fresh(head)
      ensures strstart == 0 && lookahead == 0 && blockStart == 0 && base == 0 && !eofile && !far
    {
      this.src := src;
      window := new byte[WINDOW_SIZE + MAX_MATCH];
      prev := new nat[WSIZE];
      head := new nat[HASH_SIZE];
      insH, strstart, lookahead, matchStart, prevLength, blockStart, eofile := 0, 0, 0, 0, 0, 0, false;
      base, far := 0, false;
    }

    /** `INSERT_STRING`. */
    method Insert(s: nat) returns (hashHead: nat)
      requires Hashed(s) && s + 2 < window.Length
      modifies this`insH, prev, head
      ensures Hashed(s + 1) && Linked(window[..], hashHead, s)
      ensures forall q :: 0 <= q < s && HashAt(window[..], q) == HashAt(window[..], s) ==> hashHead >= q
    {
      hide Chains, Ready, UpdateHash, HashAt, Key, Hash3, Linked;
      HeadIsLatest(window[..], prev[..], head[..], s);
      HashIs(window[..], s);
      ghost var w, p: seq<nat>, h: seq<nat> := window[..], prev[..], head[..];
      InsertKeeps(w, p, h, s);
      ReadyNext(insH, window[s], window[s + 1], window[s + 2]);
      insH := UpdateHash(insH, window[s + 2]);
      var key := Key(insH);
      hashHead := head[key];
      prev[Slot(s)] := hashHead;
      head[key] := s;
      assert prev[..] == p[Slot(s) := h[key]] && head[..] == h[key := s];
    }

    /** The comparison loop of `longest_match`; it looks for the end only after every eighth byte. */
    method Compare(match0: nat, ghost limit: nat) returns (len: nat)
      requires match0 < strstart && strstart + MAX_MATCH < limit <= window.Length
      requires forall i :: match0 <= i < match0 + 3 ==> window[i] == window[i + strstart - match0]
      ensures 3 <= len <= MAX_MATCH
      ensures forall i :: match0 <= i < match0 + len ==> window[i] == window[i + strstart - match0]
      ensures len < MAX_MATCH ==> window[match0 + len] != window[strstart + len]
    {
      var strend, scan, mtch, same := strstart + MAX_MATCH, strstart + 2, match0 + 2, true;
      ghost var k := 0;
      while same && scan < strend
        invariant scan - mtch == strstart - match0 && strstart + 2 <= scan <= strend
        invariant same ==> scan == strstart + 2 + 8 * k
        invariant !same ==> scan > strstart + 2
        invariant forall i :: match0 <= i < mtch ==> window[i] == window[i + strstart - match0]
        invariant window[mtch] == window[scan] <==> same
        decreases strend - scan
      {
        var n;
        n, same := Eight(scan, mtch, limit);
        scan, mtch, k := scan + n, mtch + n, k + 1;
      }
      len := MAX_MATCH - (strend - scan);
    }

    /** Eight comparisons, or fewer up to the first difference. */
    method Eight(scan: nat, mtch: nat, ghost limit: nat) returns (n: nat, same: bool)
      requires mtch < scan && scan + 8 < limit <= window.Length && window[mtch] == window[scan]
      ensures 1 <= n <= 8 && (same ==> n == 8) && (window[mtch + n] == window[scan + n] <==> same)
      ensures forall i :: mtch <= i < mtch + n ==> window[i] == window[i + scan - mtch]
    {
      n, same := 0, true;
      while same && n < 8
        invariant 0 <= n <= 8 && (n == 0 ==> same)
        invariant forall i :: mtch <= i < mtch + n ==> window[i] == window[i + scan - mtch]
        invariant window[mtch + n] == window[scan + n] <==> same
      {
        n := n + 1;
        assert scan + n < limit && mtch + n < limit;
        same := window[scan + n] == window[mtch + n];
      }
    }

    /** A read that is not cut short fills the window, or finds the end. */
    twostate predicate ReadAll()
      reads this, src
    {
      && src.plan == []
      && if old(src.pos) == |src.data| then eofile && lookahead == old(lookahead)
         else !eofile && lookahead > old(lookahead) && (strstart + lookahead == WINDOW_SIZE || src.pos == |src.data|)
    }

    /** Exactly when the window moves, and what is read, when no read is cut short. */
    twostate predicate OneFill()
      reads this, src
    {
      && base == old(base) + (if old(strstart) >= WSIZE + MAX_DIST then WSIZE else 0) && ReadAll()
    }

    twostate predicate Still()
      reads this, src
    {
      && base == old(base) && strstart == old(strstart) && lookahead == old(lookahead)
      && eofile == old(eofile) && src.pos == old(src.pos)
    }

    twostate predicate Refilled()
      reads this, src
    {
      if old(eofile || lookahead >= MIN_LOOKAHEAD) then Still() else OneFill()
    }

    /** The loop that keeps the lookahead large enough, except at the end of the input. */
    method Refill()
      requires Loaded() && Chains(window[..], prev[..], head[..], strstart)
      requires strstart > 0 ==> Ready(insH, window[strstart], window[strstart + 1]) && (!eofile ==> lookahead >= 2)
      modifies this`matchStart, this`strstart, this`blockStart, this`base, this`lookahead, this`eofile, window, prev
      modifies head, src
      ensures Loaded() && Chains(window[..], prev[..], head[..], strstart)
      ensures strstart > 0 ==> Ready(insH, window[strstart], window[strstart + 1])
      ensures base + strstart == old(base + strstart) && base + blockStart == old(base + blockStart)
      ensures U32(matchStart + base) == old(U32(matchStart + base))
      ensures lookahead >= old(lookahead) && (eofile || lookahead >= MIN_LOOKAHEAD)
      ensures (old(strstart) == 0 ==> strstart == 0)
      ensures old(eofile) ==> Still()
      ensures old(src.plan) == [] ==> src.plan == []
      ensures old(src.plan) == [] && old(eofile || lookahead >= MIN_LOOKAHEAD - 1) ==> Refilled()
      ensures old(src.plan == [] && (strstart + lookahead == WINDOW_SIZE || src.pos == |src.data|) && strstart == 0) ==>
        strstart + lookahead == WINDOW_SIZE || src.pos == |src.data|
    {
      hide Chains, Ready, U32;
      while lookahead < MIN_LOOKAHEAD && !eofile
        invariant Loaded() && Chains(window[..], prev[..], head[..], strstart)
        invariant strstart > 0 ==> Ready(insH, window[strstart], window[strstart + 1]) && (!eofile ==> lookahead >= 2)
        invariant base + strstart == old(base + strstart) && base + blockStart == old(base + blockStart)
        invariant U32(matchStart + base) == old(U32(matchStart + base))
        invariant lookahead >= old(lookahead) && (old(strstart) == 0 ==> strstart == 0)
        invariant old(eofile) ==> Still()
        invariant old(src.plan) == [] ==> src.plan == []
        invariant old(src.plan) == [] && old(eofile || lookahead >= MIN_LOOKAHEAD - 1) ==> Still() || Refilled()
        invariant
          old(src.plan == [] && (strstart + lookahead == WINDOW_SIZE || src.pos == |src.data|) && strstart == 0) ==>
          strstart + lookahead == WINDOW_SIZE || src.pos == |src.data|
        decreases |src.data| - src.pos, !eofile
      {
        FillWindow();
      }
    }

    /** `lm_init`: the first read, and the hash of the first two bytes. */
    method LmInit()
      requires Shape() && src.Valid() && src.pos == 0 && base == 0
      modifies this`matchStart, this`strstart, this`blockStart, this`base, this`lookahead, this`eofile, this`insH
      modifies window, prev, head, src
      ensures Loaded() && strstart == 0 && blockStart == 0 && base == 0
      ensures lookahead > 0 ==> Hashed(0)
      ensures eofile || lookahead >= MIN_LOOKAHEAD
      ensures old(src.plan) == [] ==> src.plan == [] && (lookahead == WINDOW_SIZE || src.pos == |src.data|)
    {
      hide Ready, UpdateHash, U32, Shows, Chains;
      FirstRead();
      if lookahead == 0 {
        return;
      }
      Refill();
      insH := UpdateHash(UpdateHash(0, window[0]), window[1]);
      ReadyFirst(window[0], window[1]);
    }

    /** An empty dictionary, and as much input as there is room for. */
    method FirstRead()
      requires Shape() && src.Valid() && src.pos == 0 && base == 0
      modifies this`strstart, this`blockStart, this`lookahead, this`eofile, window, head, src
      ensures Loaded() && Chains(window[..], prev[..], head[..], 0) && strstart == 0 && blockStart == 0
      ensures lookahead == 0 ==> eofile
      ensures old(src.plan) == [] ==> src.plan == [] && (lookahead == WINDOW_SIZE || src.pos == |src.data|)
    {
      hide Shows, Chains, Source.Valid;
      forall i | 0 <= i < HASH_SIZE {
        head[i] := 0;
      }
      strstart, blockStart, lookahead := 0, 0, 0;
      ghost var w := window[..];
      ShowsNothing(w, src.data);
      var n := src.Read(window, 0, 2 * WSIZE);
      Extended(w, window[..], src.data, 0, 0, 0, if n > 0 then n else 0);
      NoChains(window[..], prev[..], head[..]);
      if n == 0 || n == -1 {
        eofile, lookahead := true, 0;
      } else {
        eofile, lookahead := false, n;
      }
    }

    /** The pre-tests and the comparison: 0 if the string at `m` cannot beat `bestLen`, else how far it agrees. */
    method Try(m: nat, bestLen: nat, ghost limit: nat) returns (len: nat)
      requires 0 < m < strstart && strstart + MAX_MATCH < limit <= window.Length && 1 <= bestLen < MAX_MATCH
      requires HashAt(window[..], m) == HashAt(window[..], strstart)
      ensures len <= MAX_MATCH && (len > 0 ==> len >= 3 && Repeats(window[..], m, strstart, len))
      ensures len < MAX_MATCH ==> !Repeats(window[..], m, strstart, 1 + if len > bestLen then len else bestLen)
    {
      hide HashAt;
      ghost var w := window[..];
      if window[m + bestLen] != window[strstart + bestLen] || window[m + bestLen - 1] != window[strstart + bestLen - 1]
         || window[m] != window[strstart] || window[m + 1] != window[strstart + 1] {
        Differs(w, m, bestLen);
        return 0;
      }
      SameThird(window[..], m, strstart);
      len := Compare(m, limit);
      if len < MAX_MATCH {
        assert w[m + len] != w[strstart + len];
        Unlike(w, m, strstart, len, 1 + if len > bestLen then len else bestLen);
      }
    }

    /** What a failed pre-test says. */
    lemma Differs(w: seq<byte>, m: nat, bestLen: nat)
      requires w == window[..] && m < strstart && strstart + bestLen < |w| && bestLen >= 1
      requires w[m + bestLen] != w[strstart + bestLen] || w[m + bestLen - 1] != w[strstart + bestLen - 1]
            || w[m] != w[strstart] || w[m + 1] != w[strstart + 1]
      ensures !Repeats(w, m, strstart, 1 + bestLen)
    {
      if w[m + bestLen] != w[strstart + bestLen] {
        Unlike(w, m, strstart, bestLen, 1 + bestLen);
      } else if w[m + bestLen - 1] != w[strstart + bestLen - 1] {
        Unlike(w, m, strstart, bestLen - 1, 1 + bestLen);
      } else if w[m] != w[strstart] {
        Unlike(w, m, strstart, 0, 1 + bestLen);
      } else {
        Unlike(w, m, strstart, 1, 1 + bestLen);
      }
    }

    /**
     * `longest_match`: the longest match with one of the nearest strings of the chain, if it is longer than
     * `prevLength`, and then `matchStart` is the nearest string that gives it.
     */
    method LongestMatch(head0: nat) returns (bestLen: nat)
      requires Shape() && Chains(window[..], prev[..], head[..], strstart + 1) && strstart < WINDOW_SIZE
      requires 1 <= prevLength < MAX_LAZY && head0 != 0 && Linked(window[..], head0, strstart)
      requires strstart - head0 <= MAX_DIST
      requires eofile || strstart <= FAR_LIMIT
      modifies this`matchStart, this`far
      ensures far == (old(far) || strstart > FAR_LIMIT)
      ensures BestSoFar(bestLen, old(matchStart))
      ensures Longest(window[..], strstart, Tries(prevLength), bestLen)
    {
      hide HashAt, Chains, Repeats, Slot, Linked, Rank, Beaten, Nearest;
      // Up to FAR_LIMIT only the 64K of the window itself are read.
      ghost var limit0 := if strstart > FAR_LIMIT then window.Length else WINDOW_SIZE;
      far := far || strstart > FAR_LIMIT;
      var chainLength, cur := MAX_CHAIN, head0;
      bestLen := prevLength;
      var limit := if strstart > MAX_DIST then strstart - MAX_DIST else 0;
      if prevLength >= GOOD_MATCH {
        chainLength := chainLength / 4;
      }
      FirstOfChain(window[..], head0, strstart, bestLen);
      while true
        invariant 0 < cur < strstart && strstart - cur <= MAX_DIST
        invariant HashAt(window[..], cur) == HashAt(window[..], strstart)
        invariant bestLen < MAX_MATCH && chainLength > 0 && BestSoFar(bestLen, old(matchStart))
        invariant Rank(window[..], cur, strstart) + chainLength == Tries(prevLength) + 1
        invariant Beaten(window[..], strstart, cur, bestLen)
        modifies this`matchStart
        decreases chainLength
      {
        var was := bestLen;
        bestLen := Visit(cur, bestLen, limit0, old(matchStart));
        if bestLen > was && bestLen >= NICE_MATCH {
          break;
        }
        FollowLink(window[..], prev[..], head[..], strstart + 1, cur);
        NextOfChain(window[..], prev[Slot(cur)], cur, strstart, was, bestLen);
        cur := prev[Slot(cur)];
        if cur <= limit {
          SearchEnds(window[..], strstart, Tries(prevLength), bestLen, cur);
          break;
        }
        chainLength := chainLength - 1;
        if chainLength == 0 {
          SearchEnds(window[..], strstart, Tries(prevLength), bestLen, cur);
          break;
        }
      }
    }

    /** `bestLen` is `prevLength`, or the length of the match at `matchStart`, which no nearer string gives. */
    ghost predicate BestSoFar(bestLen: nat, start: nat)
      reads this, window
    {
      && prevLength <= bestLen <= MAX_MATCH
      && (bestLen > prevLength ==> bestLen >= MIN_MATCH && Found(window[..], matchStart, strstart, bestLen))
      && (bestLen > prevLength ==> Nearest(window[..], matchStart, strstart, bestLen))
      && (bestLen == prevLength ==> matchStart == start)
    }

    /** One string of the chain: a longer match is noted. */
    method Visit(cur: nat, bestLen: nat, ghost limit: nat, ghost start: nat) returns (best: nat)
      requires 0 < cur < strstart <= cur + MAX_DIST && strstart + MAX_MATCH < limit <= window.Length
      requires HashAt(window[..], cur) == HashAt(window[..], strstart) && Beaten(window[..], strstart, cur, bestLen)
      requires 1 <= bestLen < MAX_MATCH && BestSoFar(bestLen, start)
      modifies this`matchStart
      ensures bestLen <= best && BestSoFar(best, start)
      ensures best < MAX_MATCH ==> !Repeats(window[..], cur, strstart, best + 1)
    {
      hide HashAt, Repeats, Beaten, Nearest;
      var len := Try(cur, bestLen, limit);
      best := bestLen;
      if len > bestLen {
        NewBest(window[..], strstart, cur, bestLen, len);
        matchStart := cur;
        best := len;
      }
    }

    /** Move the upper half of the window down; every position keeps its place in the input. */
    method Slide()
      requires Loaded() && Chains(window[..], prev[..], head[..], strstart)
      requires Ready(insH, window[strstart], window[strstart + 1])
      requires strstart >= WSIZE + MAX_DIST && !eofile && lookahead >= 2
      modifies this`matchStart, this`strstart, this`blockStart, this`base, window, prev, head
      ensures Loaded() && Chains(window[..], prev[..], head[..], strstart)
      ensures Ready(insH, window[strstart], window[strstart + 1])
      ensures base == old(base) + WSIZE && strstart == old(strstart) - WSIZE
      ensures blockStart == old(blockStart) - WSIZE && U32(matchStart + base) == old(U32(matchStart + base))
    {
      hide Chains, Ready, Moved, U32, Shows;
      ghost var w, p: seq<nat>, h: seq<nat> := window[..], prev[..], head[..];
      forall i | 0 <= i < WSIZE {
        window[i] := window[i + WSIZE];
      }
      Wraps(matchStart, base, WSIZE);
      matchStart := U32(matchStart - WSIZE);
      strstart := strstart - WSIZE;
      blockStart := blockStart - WSIZE;
      base := base + WSIZE;
      MoveDown(head);
      MoveDown(prev);
      SlideKeeps(w, window[..], p, prev[..], h, head[..], strstart + WSIZE);
      ShowsMoved(w, window[..], src.data, base - WSIZE, src.pos);
    }

    /** `fill_window`. */
    method FillWindow()
      requires Loaded() && Chains(window[..], prev[..], head[..], strstart)
      requires strstart > 0 ==> lookahead >= 2 && Ready(insH, window[strstart], window[strstart + 1])
      requires lookahead < MIN_LOOKAHEAD && !eofile
      modifies this`matchStart, this`strstart, this`blockStart, this`base, this`lookahead, this`eofile, window, prev
      modifies head, src
      ensures Loaded() && Chains(window[..], prev[..], head[..], strstart)
      ensures strstart > 0 ==> lookahead >= 2 && Ready(insH, window[strstart], window[strstart + 1])
      ensures base >= old(base) && base + strstart == old(base + strstart)
      ensures base + blockStart == old(base + blockStart)
      ensures U32(matchStart + base) == old(U32(matchStart + base))
      ensures lookahead >= old(lookahead) && (eofile || src.pos > old(src.pos))
      ensures (old(strstart) == 0 ==> strstart == 0)
      ensures old(src.plan) == [] ==> OneFill()
    {
      hide Chains, Ready, U32;
      var more := WINDOW_SIZE - lookahead - strstart;
      if strstart >= WSIZE + MAX_DIST {
        Slide();
        more := more + WSIZE;
      }
      ReadMore(more);
    }

    method ReadInto(more: nat) returns (n: int)
      requires Loaded() && 0 < more <= WINDOW_SIZE - lookahead - strstart
      modifies window, src
      ensures src.Valid() && -1 <= n <= more && src.pos == old(src.pos) + (if n > 0 then n else 0)
      ensures n <= 0 && src.reliable ==> src.pos == |src.data|
      ensures Shows(window[..], src.data, base, src.pos)
      ensures lookahead >= 2 ==> window[..][..strstart + 2] == old(window[..])[..strstart + 2]
      ensures old(src.plan) == [] ==>
        src.plan == [] && n == if |src.data| - old(src.pos) < more then |src.data| - old(src.pos) else more
    {
      hide Shows, Crc.FeedAll, ByteBits, Crc.IsTable;
      ghost var w, used := window[..], strstart + lookahead;
      n := src.Read(window, strstart + lookahead, more);
      ghost var k := if n > 0 then n else 0;
      assert src.pos == base + used + k;
      Extended(w, window[..], src.data, base, strstart, used, k);
    }

    /** The read of `fill_window`: at least two bytes are asked for. */
    method ReadMore(more: nat)
      requires Loaded() && Chains(window[..], prev[..], head[..], strstart) && !eofile
      requires strstart > 0 ==> lookahead >= 2 && Ready(insH, window[strstart], window[strstart + 1])
      requires more == WINDOW_SIZE - lookahead - strstart && more >= 2
      modifies this`lookahead, this`eofile, window, src
      ensures Loaded() && Chains(window[..], prev[..], head[..], strstart)
      ensures strstart > 0 ==> lookahead >= 2 && Ready(insH, window[strstart], window[strstart + 1])
      ensures lookahead >= old(lookahead) && (eofile || src.pos > old(src.pos))
      ensures old(src.plan) == [] ==> ReadAll()
    {
      hide Chains, Ready, Shows;
      ghost var w := window[..];
      var n := ReadInto(more);
      if strstart > 0 {
        SamePrefix(w, window[..], strstart);
      }
      ChainsFrame(w, window[..], prev[..], head[..], strstart);
      if n == 0 || n == -1 {
        eofile := true;
      } else {
        lookahead := lookahead + n;
      }
    }
  }

  /** Bytes read behind the loaded part extend it, and leave it alone. */
  lemma Extended(w: seq<byte>, w': seq<byte>, data: seq<byte>, base: nat, s: nat, used: nat, k: nat)
    requires s <= used && used + k <= |w| && base + used + k <= |data| && Shows(w, data, base, base + used)
    requires w' == w[..used] + data[base + used..base + used + k] + w[used + k..]
    ensures |w'| == |w| && Shows(w', data, base, base + used + k)
    ensures s + 2 <= used ==> w'[..s + 2] == w[..s + 2]
  {
    assert data[base..base + used] + data[base + used..base + used + k] == data[base..base + used + k];
    assert w'[..used + k] == w[..used] + data[base + used..base + used + k];
    assert w'[..used] == w[..used];
    if s + 2 <= used {
      assert w'[..s + 2] == w'[..used][..s + 2];
    }
  }

  lemma ShowsNothing(w: seq<byte>, data: seq<byte>)
    ensures Shows(w, data, 0, 0)
  {
  }

  lemma ShowsMoved(w: seq<byte>, w': seq<byte>, data: seq<byte>, base: nat, pos: nat)
    requires Shows(w, data, base, pos) && base + WSIZE <= pos <= base + 2 * WSIZE && |w'| == |w| >= 2 * WSIZE
    requires forall i :: 0 <= i < WSIZE ==> w'[i] == w[i + WSIZE]
    ensures Shows(w', data, base + WSIZE, pos)
  {
    forall i | 0 <= i < pos - base - WSIZE
      ensures w'[i] == data[base + WSIZE + i]
    {
      assert w[i + WSIZE] == w[..pos - base][i + WSIZE];
    }
  }

  lemma SamePrefix(w: seq<byte>, w': seq<byte>, s: nat)
    requires s + 2 <= |w| == |w'| && w'[..s + 2] == w[..s + 2]
    ensures w'[s] == w[s] && w'[s + 1] == w[s + 1]
  {
    assert w'[s] == w'[..s + 2][s] && w'[s + 1] == w'[..s + 2][s + 1];
  }

  /** The loops of `fill_window` over `head` and `prev`. */
  method MoveDown(a: array<nat>)
    modifies a
    ensures forall i :: 0 <= i < a.Length ==> a[i] == Moved(old(a[i]))
  {
    var n := 0;
    while n < a.Length
      invariant 0 <= n <= a.Length
      invariant forall i :: 0 <= i < a.Length ==> a[i] == if i < n then Moved(old(a[i])) else old(a[i])
    {
      var m := a[n];
      a[n] := if m >= WSIZE then m - WSIZE else 0;
      n := n + 1;
    }
  }

  /** Strings that differ at a place do not agree beyond it. */
  lemma Unlike(w: seq<byte>, m: nat, s: nat, i: nat, n: nat)
    requires m < s && s + i < |w| && w[m + i] != w[s + i] && i < n
    ensures !Repeats(w, m, s, n)
  {
    assert m + i + s - m == s + i;
  }

  lemma FirstOfChain(w: seq<byte>, q: nat, s: nat, best: nat)
    requires s + 2 < |w| && q != 0 && Linked(w, q, s)
    ensures q < s && HashAt(w, q) == HashAt(w, s) && Rank(w, q, s) == 1 && Beaten(w, s, q, best)
  {
    hide HashAt, Rank;
    LinkRank(w, q, s, s);
  }

  /** The string at `p` has been tried; `q` is linked behind it. */
  lemma NextOfChain(w: seq<byte>, q: nat, p: nat, s: nat, was: nat, best: nat)
    requires p < s && s + 2 < |w| && Linked(w, q, p) && HashAt(w, p) == HashAt(w, s)
    requires Beaten(w, s, p, was) && was <= best && !Repeats(w, p, s, best + 1)
    ensures q < s && (q != 0 ==> q < p && HashAt(w, q) == HashAt(w, s) && Rank(w, q, s) == Rank(w, p, s) + 1)
    ensures Beaten(w, s, q, best)
  {
    hide HashAt, Rank, Beaten, Repeats;
    if q != 0 {
      LinkRank(w, q, p, s);
    }
    Tried(w, s, p, was, best, q);
  }

  lemma SameThird(w: seq<byte>, m: nat, s: nat)
    requires m < s && s + 2 < |w| && HashAt(w, m) == HashAt(w, s) && w[m] == w[s] && w[m + 1] == w[s + 1]
    ensures w[m + 2] == w[s + 2]
  {
    hide Hash3;
    KeyInjective(Hash3(w[m], w[m + 1], w[m + 2]), Hash3(w[s], w[s + 1], w[s + 2]));
    ThirdByte(w[m], w[m + 1], w[m + 2], w[s + 2]);
  }

  lemma FollowLink(w: seq<byte>, prev: seq<nat>, head: seq<nat>, n: nat, p: nat)
    requires Chains(w, prev, head, n) && p < n <= p + WSIZE
    ensures |prev| == WSIZE && p + 2 < |w| && Linked(w, prev[Slot(p)], p)
  {
    hide Slot, HashAt;
  }
}
