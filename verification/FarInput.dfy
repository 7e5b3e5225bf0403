/**
 * An input on which the disabled assertion of `longest_match` fails: a 16-bit counter, two bytes at a time. No three
 * bytes repeat within reach, so every byte becomes a literal and the window fills up to its last positions.
 */
module FarInput {
  import opened Bits
  import opened HashChains
  import opened Expansion
  import opened TokenCode
  import opened Matcher

  /** The high and low byte of the counter; it runs through 32768 values. */
  function High(a: nat): (r: byte) { a % 32768 / 256 }
  function Low(a: nat): (r: byte) { a % 256 }

  function CounterByte(i: nat): byte
  {
    if i % 2 == 0 then High(i / 2) else Low(i / 2)
  }

  function CounterText(n: nat): (r: seq<byte>)
    ensures |r| == n
  {
    seq(n, i requires 0 <= i < n => CounterByte(i))
  }

  /** No string of three bytes has an earlier one within reach. */
  ghost predicate NoRepeats(data: seq<byte>)
  {
    forall p: nat, at: nat :: p < at <= p + MAX_DIST ==> !Repeats(data, p, at, 3)
  }

  lemma ModBig(q: nat, x: nat)
    requires x < 32768
    ensures (32768 * q + x) % 32768 == x
  {
  }

  lemma ModSmall(p: nat, l: nat)
    requires l < 256
    ensures (256 * p + l) % 256 == l && (256 * p + l) / 256 == p
  {
  }

  /** The bytes of a counter value. */
  lemma Parts(q: nat, h: nat, l: nat)
    requires h < 128 && l < 256
    ensures High(32768 * q + 256 * h + l) == h && Low(32768 * q + 256 * h + l) == l
  {
    ModBig(q, 256 * h + l);
    ModSmall(h, l);
    ModSmall(128 * q + h, l);
    assert 256 * (128 * q + h) + l == 32768 * q + 256 * h + l == 32768 * q + (256 * h + l);
  }

  /** Every number is a counter value. */
  lemma Counts(a: nat) returns (q: nat, h: nat, l: nat)
    ensures h < 128 && l < 256 && a == 32768 * q + 256 * h + l && a % 32768 == 256 * h + l
    ensures High(a) == h && Low(a) == l
  {
    q, h, l := a / 32768, a % 32768 / 256, a % 32768 % 256;
    Parts(q, h, l);
  }

  lemma HighNext(a: nat)
    ensures High(a) <= 127 && (Low(a) != 255 ==> High(a + 1) == High(a)) && Low(a + 1) == (Low(a) + 1) % 256
  {
    hide High;
    var q, h, l := Counts(a);
    if l < 255 {
      Parts(q, h, l + 1);
    } else {
      ModSmall(128 * q + h + 1, 0);
    }
  }

  lemma SameCounter(a: nat, b: nat)
    requires a < b < a + 32768
    ensures High(a) != High(b) || Low(a) != Low(b)
  {
    hide High, Low;
    CounterIs(a);
    CounterIs(b);
    assert a % 32768 != b % 32768;
  }

  lemma CounterIs(a: nat)
    ensures a % 32768 == 256 * High(a) + Low(a)
  {
    var _, _, _ := Counts(a);
  }

  /** The three bytes at a position of the counter. */
  lemma Bytes(a: nat)
    ensures CounterByte(2 * a) == High(a) && CounterByte(2 * a + 1) == Low(a)
    ensures CounterByte(2 * a + 2) == High(a + 1) && CounterByte(2 * a + 3) == Low(a + 1)
  {
    assert (2 * a) / 2 == a && (2 * a + 1) / 2 == a && (2 * a + 2) / 2 == a + 1 && (2 * a + 3) / 2 == a + 1;
  }

  lemma NoTriple(p: nat, q: nat)
    requires p < q <= p + MAX_DIST
    ensures CounterByte(p) != CounterByte(q) || CounterByte(p + 1) != CounterByte(q + 1)
      || CounterByte(p + 2) != CounterByte(q + 2)
  {
    hide CounterByte, High, Low;
    var a, b := p / 2, q / 2;
    Bytes(a);
    Bytes(b);
    HighNext(a);
    HighNext(b);
    if p % 2 == 0 && q % 2 == 0 {
      SameCounter(a, b);
    } else if p % 2 == 1 && q % 2 == 1 {
      SameCounter(a + 1, b + 1);
    } else if p % 2 == 0 {
      EvenOdd(a, b);
    } else {
      EvenOdd(b, a);
    }
  }

  lemma EvenOdd(a: nat, b: nat)
    ensures High(a) != Low(b) || Low(a) != High(b + 1) || High(a + 1) != Low(b + 1)
  {
    hide High, Low;
    HighNext(a);
    HighNext(b);
    HighNext(b + 1);
  }

  lemma CounterRepeatsNothing(n: nat)
    ensures NoRepeats(CounterText(n))
  {
    hide CounterByte;
    var data := CounterText(n);
    forall p: nat, at: nat | p < at <= p + MAX_DIST
      ensures !Repeats(data, p, at, 3)
    {
      if Repeats(data, p, at, 3) {
        SameTriple(n, p, at);
        NoTriple(p, at);
        assert false;
      }
    }
  }

  lemma SameTriple(n: nat, p: nat, at: nat)
    requires Repeats(CounterText(n), p, at, 3)
    ensures CounterByte(p) == CounterByte(at) && CounterByte(p + 1) == CounterByte(at + 1)
    ensures CounterByte(p + 2) == CounterByte(at + 2)
  {
    hide CounterByte;
    var data := CounterText(n);
    assert data[p] == data[p + at - p] && data[p + 1] == data[p + 1 + at - p] && data[p + 2] == data[p + 2 + at - p];
  }

  // ----- a string with the same hash

  lemma Words()
    ensures Word(125) == 125 && Word(126) == 126 && Word(127) == 127 && Word(93) == 93 && Word(94) == 94
    ensures Word(63) == 63 && Word(62) == 62
  {
    EightBits(125, true, false, true, true, true, true, true, false);
    EightBits(126, false, true, true, true, true, true, true, false);
    EightBits(127, true, true, true, true, true, true, true, false);
    EightBits(93, true, false, true, true, true, false, true, false);
    EightBits(94, false, true, true, true, true, false, true, false);
    EightBits(63, true, true, true, true, true, true, false, false);
    EightBits(62, false, true, true, true, true, true, false, false);
  }

  lemma EightBits(c: byte, b0: bool, b1: bool, b2: bool, b3: bool, b4: bool, b5: bool, b6: bool, b7: bool)
    requires c ==
      Num(b0) + 2 * (Num(b1) + 2 * (Num(b2) + 2 * (Num(b3)
      + 2 * (Num(b4) + 2 * (Num(b5) + 2 * (Num(b6) + 2 * Num(b7)))))))
    ensures Word(c) == Pack(b0, b1, b2, b3, b4, b5, b6, b7)
  {
    hide Pack, Lsb;
    var rest := Num(b4) + 2 * (Num(b5) + 2 * (Num(b6) + 2 * Num(b7)));
    FourBits(c, b0, b1, b2, b3, rest, 4);
    FourBits(rest, b4, b5, b6, b7, 0, 0);
    assert Lsb(c, 8)[4..] == Lsb(rest, 4);
  }

  lemma FourBits(c: nat, b0: bool, b1: bool, b2: bool, b3: bool, rest: nat, n: nat)
    requires c == Num(b0) + 2 * (Num(b1) + 2 * (Num(b2) + 2 * (Num(b3) + 2 * rest)))
    ensures var l := Lsb(c, n + 4);
      l[0] == b0 && l[1] == b1 && l[2] == b2 && l[3] == b3 && l[4..] == Lsb(rest, n)
  {
    hide Lsb;
    var c3 := Num(b3) + 2 * rest;
    var c2 := Num(b2) + 2 * c3;
    var c1 := Num(b1) + 2 * c2;
    LowFirst(c, b0, c1, n + 3);
    LowFirst(c1, b1, c2, n + 2);
    LowFirst(c2, b2, c3, n + 1);
    LowFirst(c3, b3, rest, n);
  }

  lemma LowFirst(c: nat, b: bool, rest: nat, n: nat)
    requires c == Num(b) + 2 * rest
    ensures Lsb(c, n + 1) == [b] + Lsb(rest, n)
  {
  }

  function Num(b: bool): nat { if b then 1 else 0 }

  lemma SameHashes()
    ensures Hash3(125, 127, 126) == Hash3(93, 126, 94) && Hash3(125, 63, 126) == Hash3(93, 62, 94)
  {
    hide Word;
    Words();
  }

  /** The three bytes at the far position, and 576 bytes before it. */
  lemma FarBytes(at: nat)
    requires at % WSIZE == 32507 && at >= 65275
    ensures CounterByte(at) == 125 && CounterByte(at + 2) == 126
    ensures CounterByte(at - 576) == 93 && CounterByte(at - 574) == 94
    ensures var h, h' := CounterByte(at + 1), CounterByte(at - 575);
      (h == 127 && h' == 126) || (h == 63 && h' == 62)
  {
    hide CounterByte, High, Low;
    var q := at / WSIZE;
    var r, c := q / 2, if q % 2 == 0 then 16253 else 32637;
    var a := 32768 * r + c;
    assert at == 2 * a + 1;
    Bytes(a);
    Bytes(a - 288);
    CounterAt(r, c);
    CounterAt(r, c + 1);
    CounterAt(r, c - 288);
    CounterAt(r, c - 287);
  }

  lemma CounterAt(r: nat, c: nat)
    requires c < 32768
    ensures High(32768 * r + c) == c / 256 && Low(32768 * r + c) == c % 256
  {
    Parts(r, c / 256, c % 256);
  }

  lemma CounterCollides(n: nat, w: seq<byte>, base: nat, pos: nat)
    requires base % WSIZE == 0 && Shows(w, CounterText(n), base, pos) && base + 65278 <= pos && |w| > 65278
    ensures HashAt(w, 64699) == HashAt(w, 65275)
  {
    hide CounterByte, Hash3, Key;
    FarBytes(base + 65275);
    SameHashes();
    var data := CounterText(n);
    ShownAt(w, data, base, pos, 65275);
    ShownAt(w, data, base, pos, 65276);
    ShownAt(w, data, base, pos, 65277);
    ShownAt(w, data, base, pos, 64699);
    ShownAt(w, data, base, pos, 64700);
    ShownAt(w, data, base, pos, 64701);
  }

  lemma ShownAt(w: seq<byte>, data: seq<byte>, base: nat, pos: nat, i: nat)
    requires Shows(w, data, base, pos) && base + i < pos
    ensures i < |w| && base + i < |data| && w[i] == data[base + i]
  {
    assert w[i] == w[..pos - base][i];
  }

  // ----- the positions of such a run

  /** The lengths at which the window can end with `strstart` above `FAR_LIMIT`. */
  predicate PastEnd(n: nat)
  {
    n >= FAR_LIMIT + 2 && (n - (FAR_LIMIT + 2)) % WSIZE <= 258
  }

  /** Where a run of literals on `n` bytes stands: `b` the window's base, `s` and `l` its `strstart` and lookahead. */
  predicate Plain(n: nat, b: nat, s: nat, l: nat, eof: bool, far: bool)
  {
    && b % WSIZE == 0 && s + l <= WINDOW_SIZE && (b > 0 ==> s + l >= WSIZE - 1)
    && (if eof then b + s + l == n && s + l <= WINDOW_SIZE - 2
        else l >= MIN_LOOKAHEAD && (s + l == WINDOW_SIZE || b + s + l == n))
    && (eof && s > FAR_LIMIT + 1 && s + l >= FAR_LIMIT + 4 ==> far)
  }

  /** One literal, and the refill after it. */
  lemma PlainTurn(n: nat, b: nat, s: nat, l: nat, eof: bool, far: bool, b': nat, s': nat, l': nat, eof': bool,
                  far': bool)
    requires Plain(n, b, s, l, eof, far) && l >= 1 && (far ==> far') && b + s + l <= n
    requires eof && s == FAR_LIMIT + 1 && l >= 3 ==> far'
    requires b' + s' == b + s + 1
    requires if eof || l - 1 >= MIN_LOOKAHEAD then b' == b && l' == l - 1 && eof' == eof
             else && b' == b + (if s + 1 >= WSIZE + MAX_DIST then WSIZE else 0)
                  && if b + s + l == n then eof' && l' == l - 1
                     else !eof' && l' > l - 1 && (s' + l' == WINDOW_SIZE || b' + s' + l' == n)
    requires s' + l' <= WINDOW_SIZE
    ensures Plain(n, b', s', l', eof', far')
  {
  }

  /** At the end of a run of literals on a length of the kind, the far position has been passed. */
  lemma PlainEnd(n: nat, b: nat, s: nat, far: bool)
    requires Plain(n, b, s, 0, true, far) && PastEnd(n) && (n - (FAR_LIMIT + 2)) % WSIZE >= 2
    ensures far
  {
  }
}
