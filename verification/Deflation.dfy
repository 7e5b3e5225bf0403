/** `deflate`: lazy matching over the window, one token after the other. */
module Deflation {
  import opened Bits
  import opened Inflate
  import opened TokenCode
  import TokenBuffer
  import opened BlockCoder
  import Crc
  import opened HashChains
  import opened Expansion
  import opened Matcher
  import opened FarInput
  import opened Tokenizer

  const TOO_FAR := 4096

  /** The window and the coder use different storage. */
  ghost predicate Separate(m: Window, c: Coder)
  {
    && m.window != c.w.outbuf
    && {m.prev, m.head} !!
         {c.b.heap, c.b.depth, c.b.blCount, c.ltree.fc, c.ltree.dl, c.dtree.fc, c.dtree.dl, c.bltree.fc, c.bltree.dl,
          c.slFc, c.slDl, c.sdFc, c.sdDl, c.store.lbuf, c.store.dbuf, c.store.flagBuf}
  }

  /** There is room in the token buffer, and everything before byte `at` is coded. */
  ghost predicate Current(m: Window, c: Coder, at: int)
    reads m, m.src, c, c.w, c.w.outbuf, c.b, c.store, c.store.lbuf, c.store.dbuf, c.store.flagBuf
    reads c.ltree.fc, c.dtree.fc, c.bltree.fc, c.slFc, c.slDl, c.sdFc, c.sdDl
  {
    && at >= 0 && m.base + m.blockStart >= 0 && Covers(c, m.src.data, m.base + m.blockStart, at)
    && |c.store.tokens| < TokenBuffer.LIT_BUFSIZE - 1 && Tallied(c.store.tallied, m.src.data, at)
  }

  /** Byte `at` of the input starts a string of `len` bytes that also stands at `p`, near enough. */
  ghost predicate Near(data: seq<byte>, p: nat, at: nat, len: nat)
  {
    p < at <= p + MAX_DIST && Repeats(data, p, at, len)
  }

  lemma WindowText(m: Window, lo: nat, hi: nat)
    requires m.Loaded() && lo <= hi <= m.strstart + m.lookahead
    ensures m.base + hi <= |m.src.data| && m.window[..][lo..hi] == m.src.data[m.base + lo..m.base + hi]
  {
    var used := m.strstart + m.lookahead;
    SliceOf(m.window[..], 0, used, lo, hi);
    SliceOf(m.src.data, m.base, m.src.pos, lo, hi);
  }

  lemma SliceOf(s: seq<byte>, a: nat, b: nat, lo: nat, hi: nat)
    requires a <= b <= |s| && lo <= hi <= b - a
    ensures s[a..b][lo..hi] == s[a + lo..a + hi]
  {
    var t := s[a..b];
    assert forall i :: lo <= i < hi ==> t[i] == s[a + i];
  }

  /** A match found in the window, cut to the lookahead, is a repetition in the input. */
  lemma FoundInText(m: Window, q: nat, len: nat, cut: nat)
    requires m.Loaded() && Found(m.window[..], q, m.strstart, len) && cut <= len && cut <= m.lookahead
    ensures Near(m.src.data, m.base + q, m.base + m.strstart, cut)
  {
    var s, data, b := m.strstart, m.src.data, m.base;
    WindowText(m, 0, s + m.lookahead);
    forall i | b + q <= i < b + q + cut
      ensures data[i] == data[i + (b + s) - (b + q)]
    {
      var w := m.window[..];
      assert w[i - b] == w[i - b + s - q];
      assert w[0..s + m.lookahead][i - b] == data[b + 0..b + s + m.lookahead][i - b];
      assert w[0..s + m.lookahead][i - b + s - q] == data[b + 0..b + s + m.lookahead][i - b + s - q];
    }
  }

  /** The distance computed from a `match_start` that may have wrapped. */
  lemma Distance(s: nat, prevMatch: nat, base: nat, p: nat)
    requires U32(prevMatch + base) == U32(p) && p < base + s - 1 <= p + MAX_DIST
    ensures U32(s - 1 - prevMatch) == base + s - 1 - p
  {
  }

  /** The test before the call of `longest_match`. */
  predicate Searches(m: Window, hashHead: nat)
    reads m
  {
    hashHead != 0 && m.prevLength < MAX_LAZY && m.strstart - hashHead <= MAX_DIST
  }

  /** One of the nearest strings with the hash of the one at `s` agrees in more bytes than the matches found. */
  ghost predicate Missed(w: seq<byte>, s: nat, look: nat, prev: nat, len: nat, p: nat, k: nat)
  {
    && s + 2 < |w| && 1 <= p < s < p + MAX_DIST && Rank(w, p, s) <= Tries(prev)
    && MIN_MATCH <= k <= MAX_MATCH && k <= look && k > prev && k > len && Repeats(w, p, s, k)
  }

  /**
   * What the search at `s` finds, with `look` bytes ahead and a pending match of `prev` bytes: the longest match there
   * is, but for matches of three bytes that are `TOO_FAR` away or at the very end of the input.
   */
  ghost predicate NoBetter(w: seq<byte>, s: nat, look: nat, prev: nat, len: nat)
  {
    forall p: nat, k: nat :: Missed(w, s, look, prev, len, p, k) ==> k == MIN_MATCH && (s - p > TOO_FAR || look == k)
  }

  /** Without a search there is nothing to find. */
  lemma NoSearch(w: seq<byte>, s: nat, look: nat, prev: nat, len: nat, hashHead: nat)
    requires s + 2 < |w| && Linked(w, hashHead, s)
    requires hashHead == 0 || prev >= MAX_LAZY || s - hashHead > MAX_DIST
    ensures NoBetter(w, s, look, prev, len)
  {
    hide HashAt, Repeats, Rank;
    forall p: nat, k: nat
      ensures !Missed(w, s, look, prev, len, p, k)
    {
      if Missed(w, s, look, prev, len, p, k) {
        RepeatsLess(w, p, s, k, 3);
        assert false;
      }
    }
  }

  lemma NoWrap(s: nat, p: nat)
    ensures p <= s < 0x1_0000_0000 ==> U32(s - p) == s - p
  {
  }

  /** The longest match, cut to the lookahead and dropped if it is short and far away. */
  lemma CutMatch(w: seq<byte>, s: nat, look: nat, prev: nat, best: nat, start: nat, len: nat)
    requires s + 2 < |w| && Longest(w, s, Tries(prev), best) && prev <= best && look >= 1
    requires best > prev ==> start < s && Nearest(w, start, s, best)
    requires var cut := if best > look then look else best;
      len == cut || (len == cut - 1 && cut == MIN_MATCH && (best > prev ==> s - start > TOO_FAR))
    ensures NoBetter(w, s, look, prev, len)
  {
    hide Repeats, Rank;
    forall p: nat, k: nat | Missed(w, s, look, prev, len, p, k)
      ensures k == MIN_MATCH && (s - p > TOO_FAR || look == k)
    {
      assert k <= best;
    }
  }

  /** The search part of one step of `deflate`: a longer match than the pending one, or nothing of use. */
  method Search(m: Window, hashHead: nat) returns (len: nat)
    requires m.Loaded() && Chains(m.window[..], m.prev[..], m.head[..], m.strstart + 1) && m.lookahead >= 1
    requires Linked(m.window[..], hashHead, m.strstart) && 1 <= m.prevLength <= MAX_MATCH
    requires m.eofile || m.lookahead >= MIN_LOOKAHEAD
    modifies m`matchStart, m`far
    ensures 1 <= len <= MAX_MATCH
    ensures m.far <==> old(m.far) || (Searches(m, hashHead) && m.strstart > FAR_LIMIT)
    ensures len >= MIN_MATCH && len > m.prevLength ==>
      len <= m.lookahead && Near(m.src.data, m.base + m.matchStart, m.base + m.strstart, len)
    ensures NoBetter(m.window[..], m.strstart, m.lookahead, m.prevLength, len)
  {
    hide Chains, HashAt, U32, Repeats, Near, Source.Valid, NoBetter, Longest, Nearest, Linked;
    len := MIN_MATCH - 1;
    if Searches(m, hashHead) {
      len := m.LongestMatch(hashHead);
      ghost var best := len;
      if len > m.lookahead {
        len := m.lookahead;
      }
      if best > m.prevLength {
        FoundInText(m, m.matchStart, best, len);
      }
      if len == MIN_MATCH && U32(m.strstart - m.matchStart) > TOO_FAR {
        len := len - 1;
      }
      NoWrap(m.strstart, m.matchStart);
      CutMatch(m.window[..], m.strstart, m.lookahead, m.prevLength, best, m.matchStart, len);
    } else {
      NoSearch(m.window[..], m.strstart, m.lookahead, m.prevLength, len, hashHead);
    }
  }

  /** `FLUSH_BLOCK(0)` at the end of a token if `flush` asks for it, and the start of the next block. */
  method FlushIf(m: Window, c: Coder, flush: bool)
    requires m.Loaded() && Separate(m, c) && Covers(c, m.src.data, m.base + m.blockStart, m.base + m.strstart)
    requires Tallied(c.store.tallied, m.src.data, m.base + m.strstart)
    requires (!flush ==> |c.store.tokens| < TokenBuffer.LIT_BUFSIZE - 1)
    modifies m`blockStart, c`compressedLen, c.w, c.w.outbuf, c.b, c.b.heap, c.b.depth, c.b.blCount, c.store
    modifies c.store.flagBuf
    modifies c.ltree, c.ltree.fc, c.ltree.dl, c.dtree, c.dtree.fc, c.dtree.dl, c.bltree, c.bltree.fc, c.bltree.dl
    ensures m.Loaded() && Current(m, c, m.base + m.strstart)
    ensures c.store.tallied == old(c.store.tallied) && forall n: nat :: old(m.Hashed(n)) ==> m.Hashed(n)
  {
    hide Covers, Tallied, Chains, Ready, Source.Valid;
    if flush {
      FlushWindow(m, c);
      m.blockStart := m.strstart;
    }
  }

  method FlushWindow(m: Window, c: Coder)
    requires m.Loaded() && m.window != c.w.outbuf && Covers(c, m.src.data, m.base + m.blockStart, m.base + m.strstart)
    modifies c`compressedLen, c.w, c.w.outbuf, c.b, c.b.heap, c.b.depth, c.b.blCount, c.store, c.store.flagBuf
    modifies c.ltree, c.ltree.fc, c.ltree.dl, c.dtree, c.dtree.fc, c.dtree.dl, c.bltree, c.bltree.fc, c.bltree.dl
    ensures Covers(c, m.src.data, m.base + m.strstart, m.base + m.strstart) && c.store.tokens == []
    ensures c.store.tallied == old(c.store.tallied)
  {
    hide Covers, Source.Valid;
    if m.blockStart >= 0 {
      WindowText(m, m.blockStart, m.strstart);
    }
    FlushNext(c, m.window, m.blockStart, m.strstart - m.blockStart, m.src.data,
      m.base + m.blockStart, m.base + m.strstart);
  }

  /** The loop that inserts the rest of a match, from the third byte on. */
  method InsertRest(m: Window)
    requires m.Hashed(m.strstart + 1) && m.prevLength >= 1 && m.strstart + m.prevLength + 3 < m.window.Length
    modifies m`insH, m`strstart, m`prevLength, m.prev, m.head
    ensures m.Hashed(m.strstart) && m.strstart == old(m.strstart + m.prevLength + 1)
  {
    hide Chains, Ready, HashAt, Linked;
    ghost var s, n := m.strstart, m.prevLength;
    while m.prevLength != 0
      invariant m.strstart + m.prevLength == s + n && m.Hashed(m.strstart + 1)
      modifies m`insH, m`strstart, m`prevLength, m.prev, m.head
    {
      m.strstart := m.strstart + 1;
      var _ := m.Insert(m.strstart);
      m.prevLength := m.prevLength - 1;
    }
    m.strstart := m.strstart + 1;
  }

  /** Move past a match that started one byte back, inserting its strings. */
  method Advance(m: Window)
    requires m.Loaded() && m.Hashed(m.strstart + 1) && MIN_MATCH <= m.prevLength <= MAX_MATCH
    requires m.prevLength <= m.lookahead + 1
    modifies m`insH, m`strstart, m`prevLength, m`lookahead, m.prev, m.head
    ensures m.Loaded() && m.Hashed(m.strstart)
    ensures m.strstart == old(m.strstart + m.prevLength - 1) && m.lookahead == old(m.lookahead - (m.prevLength - 1))
  {
    hide Chains, Ready, Source.Valid;
    m.lookahead := m.lookahead - (m.prevLength - 1);
    m.prevLength := m.prevLength - 2;
    InsertRest(m);
  }

  /** The pending match is at least as good as the new one: it becomes a token. */
  method TakeMatch(m: Window, c: Coder, prevMatch: nat, ghost p: nat)
    requires m.Loaded() && Separate(m, c) && m.Hashed(m.strstart + 1) && m.strstart >= 1
    requires MIN_MATCH <= m.prevLength <= MAX_MATCH && m.prevLength <= m.lookahead + 1
    requires U32(prevMatch + m.base) == U32(p) && Near(m.src.data, p, m.base + m.strstart - 1, m.prevLength)
    requires Current(m, c, m.base + m.strstart - 1)
    modifies m`insH, m`strstart, m`prevLength, m`lookahead, m`blockStart, m.prev, m.head
    modifies c`compressedLen, c.w, c.w.outbuf, c.b, c.b.heap, c.b.depth, c.b.blCount, c.store, c.store.lbuf
    modifies c.store.dbuf, c.store.flagBuf
    modifies c.ltree, c.ltree.fc, c.ltree.dl, c.dtree, c.dtree.fc, c.dtree.dl, c.bltree, c.bltree.fc, c.bltree.dl
    ensures m.Loaded() && m.Hashed(m.strstart) && Current(m, c, m.base + m.strstart)
    ensures m.strstart == old(m.strstart + m.prevLength - 1) && m.lookahead == old(m.lookahead - (m.prevLength - 1))
    ensures c.store.tallied == old(c.store.tallied) + [Match(old(m.prevLength), old(m.base + m.strstart) - 1 - p)]
  {
    hide Covers, Tallied, Chains, Ready, U32, Near, Window.Hashed, Expand, Source.Valid;
    var flush := TallyMatch(m, c, prevMatch, p);
    Advance(m);
    FlushIf(m, c, flush);
  }

  method TallyMatch(m: Window, c: Coder, prevMatch: nat, ghost p: nat) returns (flush: bool)
    requires m.Loaded() && Separate(m, c) && m.strstart >= 1
    requires MIN_MATCH <= m.prevLength <= MAX_MATCH
    requires U32(prevMatch + m.base) == U32(p) && Near(m.src.data, p, m.base + m.strstart - 1, m.prevLength)
    requires Current(m, c, m.base + m.strstart - 1)
    modifies c.store, c.store.lbuf, c.store.dbuf, c.store.flagBuf, c.ltree.fc, c.dtree.fc
    ensures var at := m.base + m.strstart - 1;
      && Covers(c, m.src.data, m.base + m.blockStart, at + m.prevLength)
      && Tallied(c.store.tallied, m.src.data, at + m.prevLength)
      && c.store.tallied == old(c.store.tallied) + [Match(m.prevLength, at - p)]
    ensures !flush ==> |c.store.tokens| < TokenBuffer.LIT_BUFSIZE - 1
  {
    hide Covers, Tallied, U32, Repeats, Source.Valid;
    ghost var at := m.base + m.strstart - 1;
    ghost var t := Match(m.prevLength, at - p);
    Distance(m.strstart, prevMatch, m.base, p);
    TalliedNext(c.store.tallied, m.src.data, at, t);
    flush := TallyNext(c, U32(m.strstart - 1 - prevMatch), m.prevLength - MIN_MATCH, m.strstart - m.blockStart, t,
                       m.src.data, m.base + m.blockStart, at);
  }

  /** The byte before `strstart` becomes a literal. */
  method TakeLiteral(m: Window, c: Coder) returns (flush: bool)
    requires m.Loaded() && Separate(m, c) && m.strstart >= 1
    requires Current(m, c, m.base + m.strstart - 1)
    modifies c.store, c.store.lbuf, c.store.dbuf, c.store.flagBuf, c.ltree.fc, c.dtree.fc
    ensures Covers(c, m.src.data, m.base + m.blockStart, m.base + m.strstart)
    ensures Tallied(c.store.tallied, m.src.data, m.base + m.strstart)
    ensures c.store.tallied == old(c.store.tallied) + [Literal(m.window[m.strstart - 1])]
    ensures !flush ==> |c.store.tokens| < TokenBuffer.LIT_BUFSIZE - 1
  {
    hide Covers, Tallied, Source.Valid;
    ghost var at, t := m.base + m.strstart - 1, Literal(m.window[m.strstart - 1]);
    WindowText(m, m.strstart - 1, m.strstart);
    assert m.window[..][m.strstart - 1..m.strstart][0] == m.src.data[at..at + 1][0];
    TalliedNext(c.store.tallied, m.src.data, at, t);
    flush := TallyNext(c, 0, m.window[m.strstart - 1], m.strstart - m.blockStart, t,
      m.src.data, m.base + m.blockStart, at);
  }

  /** What holds between two steps: all but the last byte is coded, and a pending match starts at that byte. */
  ghost predicate Between(m: Window, c: Coder, avail: bool, len: nat, p: nat)
    reads m, m.window, m.src, c, c.w, c.w.outbuf, c.b, c.store, c.store.lbuf, c.store.dbuf, c.store.flagBuf
    reads c.ltree.fc, c.dtree.fc, c.bltree.fc, c.slFc, c.slDl, c.sdFc, c.sdDl
  {
    && m.Loaded() && Separate(m, c) && (avail ==> m.strstart >= 1)
    && Current(m, c, m.base + m.strstart - (if avail then 1 else 0))
    && 1 <= len <= MAX_MATCH && (len >= MIN_MATCH ==> avail && Held(m, len, p))
  }

  /** The match that may yet be given up for a longer one. */
  ghost predicate Held(m: Window, len: nat, p: nat)
    reads m, m.src
  {
    && m.strstart >= 1 && len <= m.lookahead + 1 && U32(m.matchStart + m.base) == U32(p)
    && Near(m.src.data, p, m.base + m.strstart - 1, len)
  }

  /**
   * What a step at `s` tallies: the pending match, if the new one is not longer; else the waiting byte, if there is
   * one.
   */
  ghost function Said(w: seq<byte>, s: nat, avail: bool, len: nat, dist: int, waits: bool): seq<Token>
  {
    if !waits then (if dist >= 0 then [Match(len, dist)] else [])
    else if avail && 1 <= s <= |w| then [Literal(w[s - 1])] else []
  }

  /** The step has moved past what it tallied, or past the byte that waits now. */
  twostate predicate Tells(m: Window, c: Coder, avail: bool, len: nat, p: nat, waits: bool)
    reads m, m.window, c, c.store
  {
    && m.strstart == old(m.strstart) + (if waits then 1 else len - 1)
    && c.store.tallied == old(c.store.tallied)
                          + old(Said(m.window[..], m.strstart, avail, len, m.base + m.strstart - 1 - p, waits))
  }

  /**
   * Lazy matching: a pending match of `len` bytes is taken exactly if the search at the byte behind its first finds
   * nothing longer.
   */
  twostate predicate Lazily(m: Window, c: Coder, avail: bool, len: nat, p: nat, waits: bool, len': nat)
    reads m, m.window, c, c.store
  {
    && Tells(m, c, avail, len, p, waits)
    && (if waits then len >= MIN_MATCH ==> len' > len else len >= MIN_MATCH && len' == 2)
    && NoBetter(m.window[..], old(m.strstart), old(m.lookahead), len, if waits then len' else len)
  }

  /** One step of the loop of `deflate`, up to the refill. */
  method Step(m: Window, c: Coder, avail: bool, len: nat, ghost p: nat)
    returns (avail': bool, len': nat, ghost p': nat)
    requires Between(m, c, avail, len, p) && m.Hashed(m.strstart) && m.lookahead >= 1
    requires m.eofile || m.lookahead >= MIN_LOOKAHEAD
    modifies m`insH, m`strstart, m`prevLength, m`lookahead, m`blockStart, m`matchStart, m`far, m.prev, m.head
    modifies c`compressedLen, c.w, c.w.outbuf, c.b, c.b.heap, c.b.depth, c.b.blCount, c.store, c.store.lbuf
    modifies c.store.dbuf, c.store.flagBuf
    modifies c.ltree, c.ltree.fc, c.ltree.dl, c.dtree, c.dtree.fc, c.dtree.dl, c.bltree, c.bltree.fc, c.bltree.dl
    ensures Between(m, c, avail', len', p') && m.Hashed(m.strstart)
    ensures m.strstart > old(m.strstart) && (m.eofile || m.lookahead >= 2)
    ensures FarStep(m, len, old(m.strstart), old(m.far)) && m.strstart + m.lookahead == old(m.strstart + m.lookahead)
    ensures NoRepeats(m.src.data) && len <= 2 ==>
      len' <= 2 && m.strstart == old(m.strstart) + 1 && m.lookahead == old(m.lookahead) - 1
    ensures Lazily(m, c, avail, len, p, avail', len')
  {
    hide Current, Separate, U32, Near, Window.Hashed, NoRepeats, Twin, Source.Valid, Shows, NoBetter, Said;
    ghost var w := m.window[..];
    var prevMatch := m.matchStart;
    var found := LookBehind(m, c, avail, len, p);
    assert m.window[..] == w;
    p' := m.base + m.matchStart;
    avail', len' := Decide(m, c, avail, found, prevMatch, p, p');
    assert m.window[..] == w;
  }

  lemma NearBefore(data: seq<byte>, p: nat, at: nat, len: nat)
    requires Near(data, p, at, len)
    ensures p < at
  {
  }

  /** What holds for a shorter match holds for a longer one. */
  lemma LongerLeft(w: seq<byte>, s: nat, look: nat, len: nat, len': nat)
    requires NoBetter(w, s, look, len, len')
    ensures len' <= len ==> NoBetter(w, s, look, len, len)
  {
    forall p: nat, k: nat | Missed(w, s, look, len, len, p, k)
      ensures len' <= len ==> k == MIN_MATCH && (s - p > TOO_FAR || look == k)
    {
      if len' <= len {
        assert Missed(w, s, look, len, len', p, k);
      }
    }
  }

  /** The search of a step, which leaves the pending match and what is coded as they were. */
  method LookBehind(m: Window, c: Coder, avail: bool, len: nat, ghost p: nat) returns (found: nat)
    requires Between(m, c, avail, len, p) && m.Hashed(m.strstart) && m.lookahead >= 1
    requires m.eofile || m.lookahead >= MIN_LOOKAHEAD
    modifies m`insH, m`prevLength, m`matchStart, m`far, m.prev, m.head
    ensures m.Loaded() && Separate(m, c) && m.Hashed(m.strstart + 1) && (avail ==> m.strstart >= 1)
    ensures Current(m, c, m.base + m.strstart - (if avail then 1 else 0)) && m.window != c.w.outbuf
    ensures m.prevLength == len && 1 <= found <= MAX_MATCH
    ensures len >= MIN_MATCH ==>
      && avail && len <= m.lookahead + 1 && U32(old(m.matchStart) + m.base) == U32(p)
      && Near(m.src.data, p, m.base + m.strstart - 1, len)
    ensures found >= MIN_MATCH && found > len ==>
      found <= m.lookahead && Near(m.src.data, m.base + m.matchStart, m.base + m.strstart, found)
    ensures FarStep(m, len, m.strstart, old(m.far)) && (NoRepeats(m.src.data) && len <= 2 ==> found <= 2)
    ensures NoBetter(m.window[..], m.strstart, m.lookahead, len, found)
    ensures found <= len ==> NoBetter(m.window[..], m.strstart, m.lookahead, len, len)
  {
    hide Covers, Tallied, U32, Near, Window.Hashed, NoRepeats, Twin, Source.Valid, Shows, NoBetter;
    found := Look(m, len);
    LongerLeft(m.window[..], m.strstart, m.lookahead, len, found);
  }

  /** Take the pending match if the new one is not longer; else go on with the new one. */
  method Decide(m: Window, c: Coder, avail: bool, len: nat, prevMatch: nat, ghost p: nat, ghost p': nat)
    returns (avail': bool, len': nat)
    requires m.Loaded() && Separate(m, c) && m.Hashed(m.strstart + 1) && m.lookahead >= 1 && (avail ==> m.strstart >= 1)
    requires Current(m, c, m.base + m.strstart - (if avail then 1 else 0))
    requires 1 <= m.prevLength <= MAX_MATCH && 1 <= len <= MAX_MATCH && p' == m.base + m.matchStart
    requires m.prevLength >= MIN_MATCH ==>
      && avail && m.prevLength <= m.lookahead + 1 && U32(prevMatch + m.base) == U32(p)
      && Near(m.src.data, p, m.base + m.strstart - 1, m.prevLength)
    requires len >= MIN_MATCH && len > m.prevLength ==>
      len <= m.lookahead && Near(m.src.data, p', m.base + m.strstart, len)
    requires m.eofile || m.lookahead >= MIN_LOOKAHEAD
    modifies m`insH, m`strstart, m`prevLength, m`lookahead, m`blockStart, m.prev, m.head
    modifies c`compressedLen, c.w, c.w.outbuf, c.b, c.b.heap, c.b.depth, c.b.blCount, c.store, c.store.lbuf
    modifies c.store.dbuf, c.store.flagBuf
    modifies c.ltree, c.ltree.fc, c.ltree.dl, c.dtree, c.dtree.fc, c.dtree.dl, c.bltree, c.bltree.fc, c.bltree.dl
    ensures Between(m, c, avail', len', p') && m.Hashed(m.strstart)
    ensures m.strstart > old(m.strstart) && (m.eofile || m.lookahead >= 2)
    ensures len <= 2 && old(m.prevLength) <= 2 ==>
      len' <= 2 && m.strstart == old(m.strstart) + 1 && m.lookahead == old(m.lookahead) - 1
    ensures avail' <==> old(m.prevLength) < MIN_MATCH || len > old(m.prevLength)
    ensures len' == (if avail' then len else 2)
    ensures len' == if avail' then len else 2
    ensures Tells(m, c, avail, old(m.prevLength), p, avail')
  {
    hide Current, Chains, Ready, U32, Near, Window.Hashed, Separate, Source.Valid, Shows;
    if m.prevLength >= MIN_MATCH && len <= m.prevLength {
      NearBefore(m.src.data, p, m.base + m.strstart - 1, m.prevLength);
      TakeMatch(m, c, prevMatch, p);
      avail', len' := false, MIN_MATCH - 1;
    } else {
      Wait(m, c, avail);
      avail', len' := true, len;
    }
  }

  /** An earlier string within reach has the hash of the one at `s`. */
  ghost predicate Twin(w: seq<byte>, s: nat)
  {
    s + 2 < |w| && exists q :: 1 <= q < s <= q + MAX_DIST && HashAt(w, q) == HashAt(w, s)
  }

  /**
   * When a step at `s` calls `longest_match` too far: only near the end of the input, and surely if a string with the
   * same hash is near.
   */
  ghost predicate FarStep(m: Window, len: nat, s: nat, far: bool)
    reads m, m.window
  {
    && (far ==> m.far) && (m.far ==> far || (m.eofile && s > FAR_LIMIT))
    && (s > FAR_LIMIT && len < MAX_LAZY && Twin(m.window[..], s) ==> m.far)
  }

  /** Insert the current string and search for an earlier one. */
  method Look(m: Window, len: nat) returns (len': nat)
    requires m.Loaded() && m.Hashed(m.strstart) && m.lookahead >= 1 && 1 <= len <= MAX_MATCH
    requires m.eofile || m.lookahead >= MIN_LOOKAHEAD
    modifies m`insH, m`prevLength, m`matchStart, m`far, m.prev, m.head
    ensures m.Loaded() && m.Hashed(m.strstart + 1) && m.prevLength == len && 1 <= len' <= MAX_MATCH
    ensures len' >= MIN_MATCH && len' > len ==>
      len' <= m.lookahead && Near(m.src.data, m.base + m.matchStart, m.base + m.strstart, len')
    ensures FarStep(m, len, m.strstart, old(m.far)) && (NoRepeats(m.src.data) && len <= 2 ==> len' <= 2)
    ensures NoBetter(m.window[..], m.strstart, m.lookahead, len, len')
  {
    hide Chains, Ready, Near, Linked, HashAt, NoRepeats, Source.Valid, NoBetter;
    var hashHead := m.Insert(m.strstart);
    m.prevLength := len;
    len' := Search(m, hashHead);
    if NoRepeats(m.src.data) && len <= 2 && len' >= 3 {
      NothingNear(m.src.data, m.base + m.matchStart, m.base + m.strstart, len');
      assert false;
    }
  }

  lemma NothingNear(data: seq<byte>, p: nat, at: nat, len: nat)
    requires NoRepeats(data) && len >= 3
    ensures !Near(data, p, at, len)
  {
    if Near(data, p, at, len) {
      assert Repeats(data, p, at, 3);
    }
  }

  /** No match to take: the waiting byte, if there is one, becomes a literal, and the next one waits. */
  method Wait(m: Window, c: Coder, avail: bool)
    requires m.Loaded() && Separate(m, c) && m.Hashed(m.strstart + 1) && m.lookahead >= 1 && (avail ==> m.strstart >= 1)
    requires Current(m, c, m.base + m.strstart - (if avail then 1 else 0))
    modifies m`strstart, m`lookahead, m`blockStart
    modifies c`compressedLen, c.w, c.w.outbuf, c.b, c.b.heap, c.b.depth, c.b.blCount, c.store, c.store.lbuf
    modifies c.store.dbuf, c.store.flagBuf
    modifies c.ltree, c.ltree.fc, c.ltree.dl, c.dtree, c.dtree.fc, c.dtree.dl, c.bltree, c.bltree.fc, c.bltree.dl
    ensures m.Loaded() && m.Hashed(m.strstart) && Current(m, c, m.base + m.strstart - 1)
    ensures m.strstart == old(m.strstart) + 1 && m.lookahead == old(m.lookahead) - 1
    ensures c.store.tallied == old(c.store.tallied) + (if avail then [Literal(old(m.window[m.strstart - 1]))] else [])
  {
    hide Covers, Tallied, Chains, Ready, Window.Hashed, Separate, Source.Valid;
    if avail {
      Emit(m, c);
    }
    MoveOn(m);
  }

  method MoveOn(m: Window)
    requires m.Loaded() && m.Hashed(m.strstart + 1) && m.lookahead >= 1
    modifies m`strstart, m`lookahead
    ensures m.Loaded() && m.Hashed(m.strstart) && m.strstart == old(m.strstart) + 1
    ensures m.lookahead == old(m.lookahead) - 1
  {
    hide Chains, Ready, Source.Valid;
    m.strstart := m.strstart + 1;
    m.lookahead := m.lookahead - 1;
  }

  /** A literal, and the end of the block if it fills it. */
  method Emit(m: Window, c: Coder)
    requires m.Loaded() && Separate(m, c) && m.strstart >= 1 && m.Hashed(m.strstart + 1)
    requires Current(m, c, m.base + m.strstart - 1)
    modifies m`blockStart, c`compressedLen, c.w, c.w.outbuf, c.b, c.b.heap, c.b.depth, c.b.blCount, c.store
    modifies c.store.lbuf, c.store.dbuf, c.store.flagBuf
    modifies c.ltree, c.ltree.fc, c.ltree.dl, c.dtree, c.dtree.fc, c.dtree.dl, c.bltree, c.bltree.fc, c.bltree.dl
    ensures m.Loaded() && Current(m, c, m.base + m.strstart) && m.Hashed(m.strstart + 1)
    ensures c.store.tallied == old(c.store.tallied) + [Literal(m.window[m.strstart - 1])]
  {
    hide Covers, Tallied, Chains, Ready, Window.Hashed, Source.Valid;
    var flush := TakeLiteral(m, c);
    FlushIf(m, c, flush);
  }

  /** The state of the coder before its first token. */
  ghost predicate AtStart(m: Window, c: Coder)
    reads m, m.window, m.prev, m.head, m.src, c, c.w, c.w.outbuf, c.b, c.store, c.store.lbuf, c.store.dbuf
    reads c.store.flagBuf
    reads c.ltree.fc, c.dtree.fc, c.bltree.fc, c.slFc, c.slDl, c.sdFc, c.sdDl
  {
    && m.Loaded() && Separate(m, c) && m.strstart == 0 && m.blockStart == 0 && m.base == 0
    && (m.lookahead > 0 ==> m.Hashed(0)) && (m.eofile || m.lookahead >= MIN_LOOKAHEAD)
    && Covers(c, m.src.data, 0, 0) && c.store.tokens == [] && c.store.tallied == [] && !m.far
  }

  /**
   * `deflate`: whatever the input and however the reads cut it up, the tokens tallied expand to exactly the
   * bytes read, and the reference decoder turns the compressed data into them.
   */
  method Deflate(m: Window, c: Coder) returns (bytes: nat, ghost pad: nat)
    requires AtStart(m, c)
    modifies m, m.window, m.prev, m.head, m.src
    modifies c`compressedLen, c.w, c.w.outbuf, c.b, c.b.heap, c.b.depth, c.b.blCount, c.store, c.store.lbuf
    modifies c.store.dbuf, c.store.flagBuf
    modifies c.ltree, c.ltree.fc, c.ltree.dl, c.dtree, c.dtree.fc, c.dtree.dl, c.bltree, c.bltree.fc, c.bltree.dl
    ensures m.src.Valid() && (m.src.reliable ==> m.src.pos == |m.src.data|)
    ensures Tallied(c.store.tallied, m.src.data, m.src.pos)
    ensures c.w.Valid() && c.w.biValid == 0 && |c.w.Stream()| == c.origin + 8 * bytes
    ensures c.w.Stream()[..c.origin] == c.opening
    ensures pad < 8 && Ends(c.w.Stream()[c.origin..], m.src.data[..m.src.pos], pad)
    ensures m.far ==> PastEnd(m.src.pos)
    ensures old(PlainRun(m, 2)) && PastEnd(|m.src.data|) && (|m.src.data| - (FAR_LIMIT + 2)) % WSIZE >= 2 ==> m.far
  {
    hide Covers, Chains, Ready, U32, Near, Expand, Ends, Lsb, Separate, PlainRun, Source.Valid;
    var avail, len: nat := false, MIN_MATCH - 1;
    ghost var p: nat := 0;
    NothingTallied(m.src.data);
    while m.lookahead != 0
      invariant Between(m, c, avail, len, p) && (m.lookahead > 0 ==> m.Hashed(m.strstart))
      invariant (m.eofile || m.lookahead >= MIN_LOOKAHEAD) && FarOk(m) && (old(PlainRun(m, 2)) ==> PlainRun(m, len))
      decreases |m.src.data| - (m.base + m.strstart)
    {
      avail, len, p := Turn(m, c, avail, len, p);
    }
    FarAtEnd(m, len);
    bytes, pad := LastBlock(m, c, avail);
  }

  lemma FarAtEnd(m: Window, len: nat)
    requires m.Loaded() && m.lookahead == 0 && m.eofile && FarOk(m)
    ensures m.far ==> PastEnd(m.src.pos)
    ensures PlainRun(m, len) && PastEnd(|m.src.data|) && (|m.src.data| - (FAR_LIMIT + 2)) % WSIZE >= 2 ==> m.far
  {
    if PlainRun(m, len) && PastEnd(|m.src.data|) && (|m.src.data| - (FAR_LIMIT + 2)) % WSIZE >= 2 {
      PlainEnd(|m.src.data|, m.base, m.strstart, m.far);
    }
  }

  lemma NothingTallied(data: seq<byte>)
    ensures Tallied([], data, 0)
  {
  }

  method Replenish(m: Window, c: Coder, avail: bool, len: nat, ghost p: nat)
    requires Between(m, c, avail, len, p) && m.Hashed(m.strstart) && m.strstart > 0 && (m.eofile || m.lookahead >= 2)
    modifies m`matchStart, m`strstart, m`blockStart, m`base, m`lookahead, m`eofile, m.window, m.prev, m.head, m.src
    ensures Between(m, c, avail, len, p) && m.Hashed(m.strstart) && (m.eofile || m.lookahead >= MIN_LOOKAHEAD)
    ensures m.base + m.strstart == old(m.base + m.strstart) && (old(m.eofile) ==> m.Still())
    ensures old(m.src.plan) == [] && old(m.eofile || m.lookahead >= MIN_LOOKAHEAD - 1) ==>
      m.src.plan == [] && m.Refilled()
  {
    hide Covers, Tallied, Near, Window.Refilled, Window.Still, Chains, Ready, Source.Valid, Shows, U32;
    m.Refill();
  }

  /** `longest_match` has been called too far only near the end of an input of a certain length. */
  ghost predicate FarOk(m: Window)
    reads m
  {
    m.far ==> m.eofile && m.strstart + m.lookahead >= FAR_LIMIT + 2
  }

  /** A run of literals over the counter text. */
  ghost predicate PlainRun(m: Window, len: nat)
    reads m, m.src
  {
    && m.src.plan == [] && m.src.data == CounterText(|m.src.data|) && len <= 2
    && Plain(|m.src.data|, m.base, m.strstart, m.lookahead, m.eofile, m.far)
  }

  /** One turn of the loop of `deflate`. */
  method Turn(m: Window, c: Coder, avail: bool, len: nat, ghost p: nat) returns (avail': bool, len': nat, ghost p': nat)
    requires Between(m, c, avail, len, p) && m.Hashed(m.strstart) && m.lookahead >= 1
    requires (m.eofile || m.lookahead >= MIN_LOOKAHEAD) && FarOk(m)
    modifies m, m.window, m.prev, m.head, m.src
    modifies c`compressedLen, c.w, c.w.outbuf, c.b, c.b.heap, c.b.depth, c.b.blCount, c.store, c.store.lbuf
    modifies c.store.dbuf, c.store.flagBuf
    modifies c.ltree, c.ltree.fc, c.ltree.dl, c.dtree, c.dtree.fc, c.dtree.dl, c.bltree, c.bltree.fc, c.bltree.dl
    ensures Between(m, c, avail', len', p') && m.Hashed(m.strstart) && (m.eofile || m.lookahead >= MIN_LOOKAHEAD)
    ensures m.base + m.strstart > old(m.base + m.strstart) && FarOk(m)
    ensures old(PlainRun(m, len)) ==> PlainRun(m, len')
  {
    hide Between, Window.Hashed, NoRepeats, CounterText, Plain, Twin, Lazily;
    ghost var n, b, s, l, eof, far := |m.src.data|, m.base, m.strstart, m.lookahead, m.eofile, m.far;
    ghost var plain := PlainRun(m, len);
    BetweenBounds(m, c, avail, len, p);
    if plain {
      CounterRepeatsNothing(n);
      PlainLookahead(n, b, s, l, eof, far);
      FarTwin(m, c, avail, len, p);
    }
    avail', len', p' := Step(m, c, avail, len, p);
    Replenish(m, c, avail', len', p');
    BetweenBounds(m, c, avail', len', p');
    if plain {
      PlainTurn(n, b, s, l, eof, far, m.base, m.strstart, m.lookahead, m.eofile, m.far);
    }
  }

  lemma BetweenBounds(m: Window, c: Coder, avail: bool, len: nat, p: nat)
    requires Between(m, c, avail, len, p)
    ensures m.strstart + m.lookahead <= WINDOW_SIZE && m.base + m.strstart + m.lookahead == m.src.pos <= |m.src.data|
    ensures m.window != c.w.outbuf
  {
    hide Covers, Tallied, Near, Crc.FeedAll, Crc.IsTable, ByteBits;
  }

  lemma FarTwin(m: Window, c: Coder, avail: bool, len: nat, p: nat)
    requires Between(m, c, avail, len, p) && m.src.data == CounterText(|m.src.data|)
    ensures m.strstart == FAR_LIMIT + 1 && m.lookahead >= 3 ==> Twin(m.window[..], m.strstart)
  {
    hide Current, Near, CounterText, HashAt, Shows, Crc.FeedAll, Crc.IsTable, ByteBits;
    if m.strstart == FAR_LIMIT + 1 && m.lookahead >= 3 {
      CounterCollides(|m.src.data|, m.window[..], m.base, m.src.pos);
    }
  }

  lemma PlainLookahead(n: nat, b: nat, s: nat, l: nat, eof: bool, far: bool)
    requires Plain(n, b, s, l, eof, far)
    ensures eof || l >= MIN_LOOKAHEAD
  {
  }

  /** The stream is closed on a byte boundary, and the decoder turns the compressed data into `text`. */
  ghost predicate Complete(c: Coder, text: seq<byte>, bytes: nat, pad: nat)
    reads c, c.w, c.w.outbuf
  {
    && c.w.Valid() && c.w.biValid == 0
    && |c.w.Stream()| == c.origin + 8 * bytes && c.w.Stream()[..c.origin] == c.opening
    && pad < 8 && Ends(c.w.Stream()[c.origin..], text, pad)
  }

  /** The literal that is still to be sent, if there is one. */
  ghost function LastByte(m: Window, avail: bool): seq<Token>
    requires m.Shape() && (avail ==> 1 <= m.strstart <= WINDOW_SIZE)
    reads m, m.window
  {
    if avail then [Literal(m.window[m.strstart - 1])] else []
  }

  /** The last literal and the last block. */
  method LastBlock(m: Window, c: Coder, avail: bool) returns (bytes: nat, ghost pad: nat)
    requires m.Loaded() && Separate(m, c) && m.lookahead == 0 && (avail ==> m.strstart >= 1)
    requires Current(m, c, m.base + m.strstart - (if avail then 1 else 0))
    modifies c`compressedLen, c.w, c.w.outbuf, c.b, c.b.heap, c.b.depth, c.b.blCount, c.store, c.store.lbuf
    modifies c.store.dbuf, c.store.flagBuf
    modifies c.ltree, c.ltree.fc, c.ltree.dl, c.dtree, c.dtree.fc, c.dtree.dl, c.bltree, c.bltree.fc, c.bltree.dl
    ensures Tallied(c.store.tallied, m.src.data, m.src.pos)
    ensures c.store.tallied == old(c.store.tallied + LastByte(m, avail))
    ensures m.src.pos <= |m.src.data| && Complete(c, m.src.data[..m.src.pos], bytes, pad)
  {
    hide Covers, Tallied, Ends, Lsb, Source.Valid, Shows;
    if avail {
      var _ := TakeLiteral(m, c);
    }
    bytes, pad := FlushRest(m, c);
  }

  /** `FLUSH_BLOCK(1)` */
  method FlushRest(m: Window, c: Coder) returns (bytes: nat, ghost pad: nat)
    requires m.Loaded() && m.window != c.w.outbuf && Covers(c, m.src.data, m.base + m.blockStart, m.base + m.strstart)
    modifies c`compressedLen, c.w, c.w.outbuf, c.b, c.b.heap, c.b.depth, c.b.blCount, c.store, c.store.flagBuf
    modifies c.ltree, c.ltree.fc, c.ltree.dl, c.dtree, c.dtree.fc, c.dtree.dl, c.bltree, c.bltree.fc, c.bltree.dl
    ensures m.base + m.strstart <= |m.src.data| && Complete(c, m.src.data[..m.base + m.strstart], bytes, pad)
    ensures c.store.tallied == old(c.store.tallied)
  {
    hide Covers, Ends, Lsb, Source.Valid;
    if m.blockStart >= 0 {
      WindowText(m, m.blockStart, m.strstart);
    }
    bytes, pad := FlushLast(c, m.window, m.blockStart, m.strstart - m.blockStart,
      m.src.data, m.base + m.blockStart, m.base + m.strstart);
  }
}
