/** `nvram_get_func_unlock`, `nvram_set_func_unlock` and `nvram_unset_func_unlock`: cursors over the image of a file. */
module NvramFile {
  import opened Bits
  import opened CanonicalCode
  import opened NvramStore

  /** The test at the start of each record: `strncmp` against the name, then the equals sign. */
  predicate At(buf: Text, s: nat, name: Text)
  {
    s + |name| < |buf| && buf[s..s + |name|] == name && buf[s + |name|] == EQUALS
  }

  /** The records still to come stand at the cursor. */
  ghost predicate Ahead(buf: Text, s: nat, ls: seq<Text>)
  {
    s <= |buf| && AreLines(ls) && Encode(ls) <= buf[s..]
  }

  lemma AheadHere(buf: Text, s: nat, ls: seq<Text>)
    requires Ahead(buf, s, ls)
    ensures s < |buf| && (buf[s] == END_SYMBOL <==> ls == [])
  {
    EmptyImage(ls, buf[s..]);
  }

  /** The record at the cursor, byte by byte, and what is behind it. */
  lemma AheadLine(buf: Text, s: nat, ls: seq<Text>, name: Text)
    requires Ahead(buf, s, ls) && ls != [] && IsName(name)
    ensures var e := s + |ls[0]|;
      && s < e < |buf| && buf[s..e] == ls[0] && buf[e] == END_SYMBOL
      && (forall i :: s <= i < e ==> buf[i] != END_SYMBOL)
      && Ahead(buf, e + 1, ls[1..])
      && (At(buf, s, name) <==> Matches(ls[0], name))
  {
    var rest, k := buf[s..], |ls[0]|;
    FirstLine(ls, rest);
    assert rest[..k] == buf[s..s + k] && rest[k + 1..] == buf[s + k + 1..];
    assert forall i :: s <= i < s + k ==> buf[i] == buf[s..s + k][i - s];
    SameTest(buf, s, ls[0], name);
  }

  lemma SameTest(buf: Text, s: nat, l: Text, name: Text)
    requires s + |l| < |buf| && buf[s..s + |l|] == l && buf[s + |l|] == END_SYMBOL && IsLine(l) && IsName(name)
    ensures At(buf, s, name) <==> Matches(l, name)
  {
    assert forall i :: 0 <= i < |l| ==> l[i] == buf[s + i];
    if At(buf, s, name) {
      assert forall i :: 0 <= i < |name| ==> buf[s + i] == buf[s..s + |name|][i] == name[i];
      assert |name| < |l|;
    }
    if |name| < |l| {
      assert buf[s..s + |name|] == l[..|name|];
    }
  }

  /** `while (*(++s));` from inside a record: to its end. */
  method Skip(buf: Text, s: nat, ghost e: nat) returns (t: nat)
    requires s < e < |buf| && buf[e] == END_SYMBOL && forall i :: s <= i < e ==> buf[i] != END_SYMBOL
    ensures t == e
  {
    t := s + 1;
    while buf[t] != END_SYMBOL
      invariant s < t <= e
      decreases e - t
    {
      t := t + 1;
    }
  }

  /** `while (*s) *(sp++) = *(s++);` */
  method CopyLine(buf: Text, s: nat, sp: Text, ghost e: nat) returns (t: nat, sp': Text)
    requires s <= e < |buf| && buf[e] == END_SYMBOL && forall i :: s <= i < e ==> buf[i] != END_SYMBOL
    ensures t == e && sp' == sp + buf[s..e]
  {
    t, sp' := s, sp;
    while buf[t] != END_SYMBOL
      invariant s <= t <= e && sp' == sp + buf[s..t]
      decreases e - t
    {
      sp' := sp' + [buf[t]];
      t := t + 1;
    }
  }

  /** `nvram_get_func_unlock` on the contents of a file. */
  method GetText(buf: Text, name: Text, ghost ls: seq<Text>) returns (r: Option<Text>)
    requires Ahead(buf, 0, ls) && IsName(name)
    ensures r == Lookup(ls, name)
  {
    hide Ahead, Matches, At;
    var s := 0;
    ghost var more := ls;
    AheadHere(buf, s, more);
    while buf[s] != END_SYMBOL
      invariant Ahead(buf, s, more) && s < |buf| && (buf[s] == END_SYMBOL <==> more == [])
      invariant Lookup(ls, name) == Lookup(more, name)
      decreases |buf| - s
    {
      AheadLine(buf, s, more, name);
      ghost var e := s + |more[0]|;
      if At(buf, s, name) {
        var t := Skip(buf, s, e);
        AtLength(buf, s, name, more[0]);
        return Some(buf[s + |name| + 1..t]);
      }
      s := Skip(buf, s, e);
      s := s + 1;
      more := more[1..];
      AheadHere(buf, s, more);
    }
    return None;
  }

  lemma AtLength(buf: Text, s: nat, name: Text, l: Text)
    requires s + |l| < |buf| && buf[s..s + |l|] == l && Matches(l, name)
    ensures |name| < |l| && buf[s + |name| + 1..s + |l|] == l[|name| + 1..]
  {
    assert l[|name| + 1..] == buf[s..s + |l|][|name| + 1..];
    assert forall i :: 0 <= i < |l| ==> l[i] == buf[s + i];
  }

  /** The loop of `nvram_set_func_unlock`. */
  method SetLoop(buf: Text, name: Text, value: Text, ghost ls: seq<Text>) returns (sp: Text, found: bool)
    requires Ahead(buf, 0, ls) && IsName(name)
    ensures sp + [END_SYMBOL] == Encode(Replace(ls, name, value)) && found == Lookup(ls, name).Some?
  {
    hide Ahead, Matches, At, Record;
    sp, found := [], false;
    var s := 0;
    ghost var more := ls;
    AheadHere(buf, s, more);
    while buf[s] != END_SYMBOL
      invariant Ahead(buf, s, more) && s < |buf| && (buf[s] == END_SYMBOL <==> more == [])
      invariant Encode(Replace(ls, name, value)) == sp + Encode(Replace(more, name, value))
      invariant Lookup(ls, name).Some? == (found || Lookup(more, name).Some?)
      decreases |buf| - s
    {
      AheadLine(buf, s, more, name);
      ghost var e, sp0 := s + |more[0]|, sp;
      EncodeReplace(more, name, value, sp);
      if At(buf, s, name) {
        found := true;
        sp := sp + name + [EQUALS] + value;
        s := Skip(buf, s, e);
      }
      s, sp := CopyLine(buf, s, sp, e);
      sp := sp + [END_SYMBOL];
      assert buf[e..e] == [];
      WroteLine(sp0, name, value);
      s := s + 1;
      more := more[1..];
      AheadHere(buf, s, more);
    }
  }

  lemma EncodeReplace(ls: seq<Text>, name: Text, value: Text, sp: Text)
    requires ls != []
    ensures var l := if Matches(ls[0], name) then Record(name, value) else ls[0];
      sp + Encode(Replace(ls, name, value)) == (sp + l + [END_SYMBOL]) + Encode(Replace(ls[1..], name, value))
  {
    hide Matches, Record;
    var r := Replace(ls, name, value);
    assert r[1..] == Replace(ls[1..], name, value);
  }

  lemma WroteLine(sp: Text, name: Text, value: Text)
    ensures sp + name + [EQUALS] + value + [] + [END_SYMBOL] == sp + Record(name, value) + [END_SYMBOL]
    ensures sp + name + [EQUALS] + value + [END_SYMBOL] == sp + Record(name, value) + [END_SYMBOL]
  {
  }

  /** The loop of `nvram_unset_func_unlock`. */
  method UnsetLoop(buf: Text, name: Text, ghost ls: seq<Text>) returns (sp: Text, found: bool)
    requires Ahead(buf, 0, ls) && IsName(name)
    ensures sp + [END_SYMBOL] == Encode(Others(ls, name)) && found == Lookup(ls, name).Some?
  {
    hide Ahead, Matches, At;
    sp, found := [], false;
    var s := 0;
    ghost var more := ls;
    AheadHere(buf, s, more);
    while buf[s] != END_SYMBOL
      invariant Ahead(buf, s, more) && s < |buf| && (buf[s] == END_SYMBOL <==> more == [])
      invariant Encode(Others(ls, name)) == sp + Encode(Others(more, name))
      invariant Lookup(ls, name).Some? == (found || Lookup(more, name).Some?)
      decreases |buf| - s
    {
      AheadLine(buf, s, more, name);
      ghost var e := s + |more[0]|;
      EncodeOthers(more, name, sp);
      if At(buf, s, name) {
        found := true;
        s := Skip(buf, s, e);
      } else {
        s, sp := CopyLine(buf, s, sp, e);
        sp := sp + [END_SYMBOL];
      }
      s := s + 1;
      more := more[1..];
      AheadHere(buf, s, more);
    }
  }

  lemma EncodeOthers(ls: seq<Text>, name: Text, sp: Text)
    requires ls != []
    ensures sp + Encode(Others(ls, name)) ==
      (if Matches(ls[0], name) then sp else sp + ls[0] + [END_SYMBOL]) + Encode(Others(ls[1..], name))
  {
    hide Matches, Encode;
    var o := Others(ls[1..], name);
    if Matches(ls[0], name) {
      assert [] + o == o;
    } else {
      EncodeCons(ls[0], o);
      Assoc(sp, ls[0] + [END_SYMBOL], Encode(o));
      Assoc(sp, ls[0], [END_SYMBOL]);
    }
  }

  lemma EncodeCons(l: Text, ls: seq<Text>)
    ensures Encode([l] + ls) == l + [END_SYMBOL] + Encode(ls)
  {
    assert ([l] + ls)[1..] == ls;
  }

  lemma {:induction false} NothingToUnset(ls: seq<Text>, name: Text)
    requires Lookup(ls, name) == None
    ensures Others(ls, name) == ls
  {
    hide Matches;
    if ls != [] {
      NothingToUnset(ls[1..], name);
    }
  }

  /** The image without the empty record that closes it. */
  function Body(ls: seq<Text>): Text
  {
    if ls == [] then [] else ls[0] + [END_SYMBOL] + Body(ls[1..])
  }

  lemma {:induction false} EncodeBody(ls: seq<Text>)
    ensures Encode(ls) == Body(ls) + [END_SYMBOL]
  {
    if ls != [] {
      EncodeBody(ls[1..]);
      Assoc(ls[0] + [END_SYMBOL], Body(ls[1..]), [END_SYMBOL]);
    }
  }

  lemma {:induction false} BodyAppend(ls: seq<Text>, l: Text)
    ensures Body(ls + [l]) == Body(ls) + (l + [END_SYMBOL])
  {
    if ls == [] {
      assert (ls + [l])[1..] == [];
    } else {
      BodyAppend(ls[1..], l);
      assert (ls + [l])[0] == ls[0] && (ls + [l])[1..] == ls[1..] + [l];
      Assoc(ls[0] + [END_SYMBOL], Body(ls[1..]), l + [END_SYMBOL]);
    }
  }

  lemma EncodeLast(ls: seq<Text>, l: Text, sp: Text)
    requires Encode(ls) == sp + [END_SYMBOL]
    ensures Encode(ls + [l]) == sp + l + [END_SYMBOL] + [END_SYMBOL]
  {
    hide Encode, Body;
    EncodeBody(ls);
    EncodeBody(ls + [l]);
    BodyAppend(ls, l);
    var b := Body(ls);
    assert b == (b + [END_SYMBOL])[..|b|] && sp == (sp + [END_SYMBOL])[..|sp|];
  }

  /** A scan of these bytes meets an empty record. */
  ghost predicate Ends(buf: Text) { Encode(Decode(buf)) <= buf }

  lemma EndsAhead(buf: Text)
    requires Ends(buf)
    ensures Ahead(buf, 0, Decode(buf))
  {
    DecodeLines(buf);
    assert buf[0..] == buf;
  }

  lemma AheadLonger(buf: Text, more: Text, ls: seq<Text>)
    requires Ahead(buf, 0, ls)
    ensures Ahead(buf + more, 0, ls)
  {
    assert buf[0..] == buf && (buf + more)[0..] == buf + more;
  }

  /** So a file of zero bytes can answer anything: any value of any name may stand behind the buffer. */
  lemma EmptyFileAnswers(name: Text, value: Text)
    requires IsName(name) && IsValue(value)
    ensures var memory := Encode([Record(name, value)]);
      Ends(memory) && Lookup(Decode(memory), name) == Some(value)
  {
    var ls := [Record(name, value)];
    DecodeEncode(ls, Encode(ls));
  }

  /** A file of settings: absent, or its contents. */
  class File {
    var content: Option<Text>
    /** The records it holds. */
    ghost var lines: seq<Text>

    ghost predicate Valid()
      reads this
    {
      && AreLines(lines)
      && match content
         case None => lines == []
         case Some(buf) => if buf == [] then lines == [] else Ahead(buf, 0, lines)
    }

    /**
     * `nvram_get_func_unlock`. `memory` is what stands behind the buffer: a file of zero bytes is read past its end,
     * and then the answer is whatever stands there; of any other file nothing behind the last record is looked at.
     */
    method Get(name: Text, memory: Text) returns (r: Option<Text>)
      requires Valid() && IsName(name) && (content == Some([]) ==> Ends(memory))
      ensures content != Some([]) ==> r == Lookup(lines, name) == GetEffect(content, name)
      ensures content == Some([]) ==> r == Lookup(Decode(memory), name)
    {
      hide Decode, Ends, Ahead;
      LinesDecoded(content, lines);
      if content.None? {
        return None;
      }
      if content.value == [] {
        EndsAhead(memory);
        assert [] + memory == memory;
        r := GetText(content.value + memory, name, Decode(memory));
      } else {
        AheadLonger(content.value, memory, lines);
        r := GetText(content.value + memory, name, lines);
      }
    }

    /** `nvram_set_func_unlock` */
    method Set(name: Text, value: Text)
      requires Valid() && IsName(name) && IsValue(value)
      modifies this
      ensures Valid() && lines == SetLines(old(lines), name, value)
      ensures content == Some(Encode(lines)) == SetEffect(old(content), name, value)
    {
      LinesDecoded(content, lines);
      hide Record, Matches, Replace, Lookup, Ahead, Decode;
      var sp, found := [], false;
      NoLines(name, value);
      if content.Some? && |content.value| > 0 {
        sp, found := SetLoop(content.value, name, value, lines);
      }
      EncodeLast(Replace(lines, name, value), Record(name, value), sp);
      if !found {
        WroteLine(sp, name, value);
        sp := sp + name + [EQUALS] + value + [END_SYMBOL];
      }
      SetLinesAre(lines, name, value);
      lines := SetLines(lines, name, value);
      content := Some(sp + [END_SYMBOL]);
      ImageAhead(lines);
    }

    /** `nvram_unset_func_unlock`: a file without the name is not rewritten. */
    method Unset(name: Text)
      requires Valid() && IsName(name)
      modifies this
      ensures Valid() && lines == Others(old(lines), name)
      ensures content == if Lookup(old(lines), name).Some? then Some(Encode(lines)) else old(content)
      ensures content == UnsetEffect(old(content), name)
    {
      LinesDecoded(content, lines);
      hide Matches, Others, Lookup, Ahead, Decode;
      NoLines(name, []);
      if content.None? || |content.value| == 0 {
        return;
      }
      var sp, found := UnsetLoop(content.value, name, lines);
      if !found {
        NothingToUnset(lines, name);
        return;
      }
      OthersAreLines(lines, name);
      lines := Others(lines, name);
      content := Some(sp + [END_SYMBOL]);
      ImageAhead(lines);
    }
  }

  lemma LinesDecoded(c: Option<Text>, ls: seq<Text>)
    requires AreLines(ls) && (if c.None? || c.value == [] then ls == [] else Ahead(c.value, 0, ls))
    ensures Decode(Contents(c)) == ls
  {
    if c.Some? && c.value != [] {
      assert c.value[0..] == c.value;
      DecodeEncode(ls, c.value);
    }
  }

  lemma NoLines(name: Text, value: Text)
    ensures Replace([], name, value) == [] && Lookup([], name) == None && Others([], name) == []
    ensures Encode([]) == [] + [END_SYMBOL]
  {
  }

  lemma ImageAhead(ls: seq<Text>)
    requires AreLines(ls)
    ensures Ahead(Encode(ls), 0, ls) && Encode(ls) != []
  {
    assert Encode(ls)[0..] == Encode(ls);
  }

  lemma SetLinesAre(ls: seq<Text>, name: Text, value: Text)
    requires AreLines(ls) && IsName(name) && IsValue(value)
    ensures AreLines(SetLines(ls, name, value))
    ensures SetLines(ls, name, value) == if Lookup(ls, name).Some? then Replace(ls, name, value)
      else Replace(ls, name, value) + [Record(name, value)]
  {
    hide Record, Matches, Lookup, Replace, IsLine;
    forall i | 0 <= i < |ls|
      ensures IsLine(Replace(ls, name, value)[i])
    {
      ReplaceAt(ls, name, value, i);
    }
  }

  lemma {:induction false} OthersAreLines(ls: seq<Text>, name: Text)
    requires AreLines(ls)
    ensures AreLines(Others(ls, name))
  {
    hide Matches, IsLine;
    if ls != [] {
      OthersAreLines(ls[1..], name);
    }
  }

  /** Values that start with `*DEL*` mark deleted variables. */
  predicate Deleted(v: Text)
  {
    |v| >= 5 && v[..5] == [42, 68, 69, 76, 42]
  }

  /** Deleted are exactly the values that begin with the five bytes `*DEL*`, these alone included. */
  lemma DeletedIs(v: Text)
    ensures Deleted(v) <==> exists t: Text :: v == [42, 68, 69, 76, 42] + t
  {
    if Deleted(v) {
      assert v == [42, 68, 69, 76, 42] + v[5..];
    }
    if t: Text :| v == [42, 68, 69, 76, 42] + t {
      assert v[..5] == [42, 68, 69, 76, 42];
    }
  }

  lemma {:induction false} LookupIsValue(ls: seq<Text>, name: Text)
    requires AreLines(ls) && Lookup(ls, name).Some?
    ensures IsValue(Lookup(ls, name).value)
  {
    if !Matches(ls[0], name) {
      LookupIsValue(ls[1..], name);
    }
  }

  /** What a get answers, given the memory behind the buffer. */
  ghost function Found(f: File, name: Text, memory: Text): Option<Text>
    reads f
  {
    if f.content == Some([]) then Lookup(Decode(memory), name) else Lookup(f.lines, name)
  }

  lemma FoundIsValue(f: File, name: Text, memory: Text)
    requires f.Valid() && Found(f, name, memory).Some?
    ensures IsValue(Found(f, name, memory).value)
  {
    hide Lookup, Decode, Ahead;
    DecodeLines(memory);
    LookupIsValue(if f.content == Some([]) then Decode(memory) else f.lines, name);
  }

  /**
   * `nvram_get`, undisturbed by other processes: a default is copied on first use, a deleted variable is not found.
   * `mine` and `other` stand behind the buffers of the two files.
   */
  method NvramGet(f: File, d: File, name: Text, mine: Text, other: Text) returns (r: Option<Text>)
    requires f != d && f.Valid() && d.Valid() && IsName(name)
    requires f.content == Some([]) ==> Ends(mine)
    requires d.content == Some([]) && Found(f, name, mine).None? ==> Ends(other)
    modifies f
    ensures f.Valid()
    ensures var own, dflt := old(Found(f, name, mine)), Found(d, name, other);
      var v := if own.Some? then own else dflt;
      && r == (if v.Some? && Deleted(v.value) then None else v)
      && f.lines == (if own.None? && dflt.Some? then SetLines(old(f.lines), name, dflt.value) else old(f.lines))
      && f.content == if own.None? && dflt.Some? then Some(Encode(f.lines)) else old(f.content)
  {
    hide Lookup, SetLines, Ahead, Encode, Decode, Ends;
    r := f.Get(name, mine);
    if r.None? {
      r := d.Get(name, other);
      if r.None? {
        return;
      }
      FoundIsValue(d, name, other);
      f.Set(name, r.value);
    }
    if Deleted(r.value) {
      r := None;
    }
  }
}
