/** The words of a status line of dpkg.c: `want flag state`. */
module StatusWords {
  import opened Bits
  import opened Versions

  const SPACE: byte := 32
  const NEWLINE: byte := 10

  /** `strspn` and `strcspn`: how many bytes at the front are, or are not, among `of`. */
  function RunOf(t: Text, of: Text): (n: nat)
    ensures n <= |t| && (forall i :: 0 <= i < n ==> t[i] in of) && (n < |t| ==> t[n] !in of)
  {
    if t == [] || t[0] !in of then 0 else 1 + RunOf(t[1..], of)
  }

  function Before(t: Text, of: Text): (n: nat)
    ensures n <= |t| && (forall i :: 0 <= i < n ==> t[i] !in of) && (n < |t| ==> t[n] in of)
  {
    if t == [] || t[0] in of then 0 else 1 + Before(t[1..], of)
  }

  /** Past one word and the spaces behind it. */
  function Past(t: Text): Text
  {
    var u := t[Before(t, [SPACE])..];
    u[RunOf(u, [SPACE])..]
  }

  function Skip(t: Text, n: nat): Text { if n == 0 then t else Skip(Past(t), n - 1) }

  function FirstWord(t: Text): Text { t[..Before(t, [SPACE, NEWLINE])] }

  /** What `get_status` extracts: word `num`, counted from 1. */
  function Word(t: Text, num: nat): Text
    requires num >= 1
  {
    FirstWord(Skip(t, num - 1))
  }

  lemma {:induction false} SkipNext(t: Text, n: nat)
    ensures Skip(t, n + 1) == Past(Skip(t, n))
    decreases n
  {
    hide Past;
    if n > 0 {
      SkipNext(Past(t), n - 1);
    }
  }

  /** The scan of `get_status`. */
  method GetWord(t: Text, num: nat) returns (w: Text)
    requires num >= 1
    ensures w == Word(t, num)
  {
    hide Past, FirstWord;
    var rest, k := t, 1;
    while k < num
      invariant 1 <= k <= num && rest == Skip(t, k - 1)
    {
      SkipNext(t, k - 1);
      rest := Past(rest);
      k := k + 1;
    }
    w := FirstWord(rest);
  }

  /** What `set_status` prints. */
  function Line(want: Text, flag: Text, state: Text): Text { want + [SPACE] + flag + [SPACE] + state }

  function NewLine(t: Text, value: Text, position: nat): Text
  {
    Line(if position == 1 then value else Word(t, 1), if position == 2 then value else Word(t, 2),
         if position == 3 then value else Word(t, 3))
  }

  predicate IsWord(w: Text) { SPACE !in w && NEWLINE !in w }

  /** The scans stop where the next delimiter is. */
  lemma BeforeIs(t: Text, of: Text, n: nat)
    requires n <= |t| && (forall i :: 0 <= i < n ==> t[i] !in of) && (n < |t| ==> t[n] in of)
    ensures Before(t, of) == n
  {
  }

  lemma RunIs(t: Text, of: Text, n: nat)
    requires n <= |t| && (forall i :: 0 <= i < n ==> t[i] in of) && (n < |t| ==> t[n] !in of)
    ensures RunOf(t, of) == n
  {
  }

  /** Words come apart at a space. */
  lemma WordSpace(w: Text, rest: Text)
    requires IsWord(w)
    ensures FirstWord(w + [SPACE] + rest) == w
    ensures rest != [] && rest[0] != SPACE ==> Past(w + [SPACE] + rest) == rest
    ensures rest != [] && rest[0] == SPACE && (|rest| > 1 ==> rest[1] != SPACE) ==>
      Past(w + [SPACE] + rest) == rest[1..]
  {
    var t, n := w + [SPACE] + rest, |w|;
    BeforeIs(t, [SPACE, NEWLINE], n);
    BeforeIs(t, [SPACE], n);
    assert t[..n] == w;
    var u := t[n..];
    assert u == [SPACE] + rest;
    if rest != [] && rest[0] != SPACE {
      RunIs(u, [SPACE], 1);
      assert u[1..] == rest;
    } else if rest != [] && (|rest| > 1 ==> rest[1] != SPACE) {
      RunIs(u, [SPACE], 2);
      assert u[2..] == rest[1..];
    }
  }

  lemma WordAlone(w: Text)
    requires IsWord(w)
    ensures FirstWord(w) == w && Past(w) == []
  {
    BeforeIs(w, [SPACE, NEWLINE], |w|);
    BeforeIs(w, [SPACE], |w|);
  }

  /** A printed line reads back as its words exactly when an empty flag is followed by nothing. */
  lemma LineWords(want: Text, flag: Text, state: Text)
    requires IsWord(want) && IsWord(flag) && IsWord(state)
    ensures var t := Line(want, flag, state);
      Word(t, 1) == want && (Word(t, 2) == flag && Word(t, 3) == state <==> flag != [] || state == [])
  {
    hide FirstWord, Past;
    var t, rest := Line(want, flag, state), flag + [SPACE] + state;
    assert t == want + [SPACE] + rest;
    WordSpace(want, rest);
    OneSkip(t);
    WordAlone(state);
    WordSpace(flag, state);
    if flag == [] {
      assert rest == [SPACE] + state && rest[1..] == state;
    } else if state == [] {
      assert rest == flag + [SPACE] + [];
      LastSpace(flag);
    }
  }

  lemma OneSkip(t: Text)
    ensures Word(t, 1) == FirstWord(t) && Word(t, 2) == FirstWord(Past(t)) && Word(t, 3) == FirstWord(Past(Past(t)))
  {
    hide FirstWord, Past;
    assert Skip(t, 1) == Skip(Past(t), 0);
    assert Skip(t, 2) == Skip(Past(t), 1);
    assert Skip(Past(t), 1) == Skip(Past(Past(t)), 0);
  }

  lemma LastSpace(w: Text)
    requires IsWord(w)
    ensures FirstWord(Past(w + [SPACE] + [])) == []
  {
    var t := w + [SPACE] + [];
    BeforeIs(t, [SPACE], |w|);
    assert t[|w|..] == [SPACE];
    RunIs([SPACE], [SPACE], 1);
  }

  /** The three words of a line with single spaces that ends at a newline, as a status file holds it. */
  lemma ThreeWords(a: Text, b: Text, c: Text, rest: Text)
    requires 32 !in a && 10 !in a && b != [] && 32 !in b && 10 !in b && c != [] && 32 !in c && 10 !in c
    ensures var t := a + [32] + b + [32] + c + [10] + rest;
      Word(t, 1) == a && Word(t, 2) == b && Word(t, 3) == c
  {
    hide FirstWord, Past;
    var behind := c + [10] + rest;
    var t, u := a + [32] + b + [32] + c + [10] + rest, b + [32] + behind;
    assert t == a + [SPACE] + u;
    WordSpace(a, u);
    WordSpace(b, behind);
    OneSkip(t);
    WordAtNewline(c, rest);
  }

  lemma WordAtNewline(w: Text, rest: Text)
    requires IsWord(w)
    ensures FirstWord(w + [NEWLINE] + rest) == w
  {
    BeforeIs(w + [NEWLINE] + rest, [SPACE, NEWLINE], |w|);
    assert (w + [NEWLINE] + rest)[..|w|] == w;
  }

  lemma {:induction false} WordIsWord(t: Text, num: nat)
    requires num >= 1
    ensures IsWord(Word(t, num))
  {
    var u := Skip(t, num - 1);
    var n := Before(u, [SPACE, NEWLINE]);
    forall i | 0 <= i < n
      ensures u[i] != SPACE && u[i] != NEWLINE
    {
      assert u[i] !in [SPACE, NEWLINE];
    }
  }

  /** A line of which the second word is missing has no third one. */
  lemma NoSecondNoThird(t: Text)
    requires NEWLINE !in t && Word(t, 2) == []
    ensures Word(t, 3) == []
  {
    OneSkip(t);
    var u := Past(t);
    var v := t[Before(t, [SPACE])..];
    assert u == v[RunOf(v, [SPACE])..];
    assert u == [];
  }

  /**
   * A set status word is read back, and the other two words with it, except when the third word is set on a line that
   * has no second one: the printed line then moves the new word to second place.
   */
  lemma SetThenGet(t: Text, value: Text, position: nat)
    requires NEWLINE !in t && IsWord(value) && value != [] && 1 <= position <= 3
    ensures (forall k :: 1 <= k <= 3 ==>
      Word(NewLine(t, value, position), k) == if k == position then value else Word(t, k))
      <==> !(position == 3 && Word(t, 2) == [])
  {
    hide Word, Line;
    WordIsWord(t, 1);
    WordIsWord(t, 2);
    WordIsWord(t, 3);
    var want := if position == 1 then value else Word(t, 1);
    var flag := if position == 2 then value else Word(t, 2);
    var state := if position == 3 then value else Word(t, 3);
    var r := NewLine(t, value, position);
    assert r == Line(want, flag, state);
    LineWords(want, flag, state);
    if Word(t, 2) == [] {
      NoSecondNoThird(t);
    }
    assert (forall k :: 1 <= k <= 3 ==> Word(r, k) == if k == position then value else Word(t, k))
      <==> Word(r, 1) == want && Word(r, 2) == flag && Word(r, 3) == state;
  }
}
