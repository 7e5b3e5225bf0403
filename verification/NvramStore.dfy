/** The NVRAM file: NUL-terminated `name=value` records, closed by an empty one. */
module NvramStore {
  import opened Bits
  import opened CanonicalCode

  const EQUALS: byte := 61
  const END_SYMBOL: byte := 0

  type Text = seq<byte>

  /** What a caller may use as a name or a value. */
  predicate IsName(n: Text) { END_SYMBOL !in n && EQUALS !in n }
  predicate IsValue(v: Text) { END_SYMBOL !in v }

  /** A record, whether or not it has the form `name=value`. */
  predicate IsLine(l: Text) { l != [] && END_SYMBOL !in l }
  ghost predicate AreLines(ls: seq<Text>) { forall i :: 0 <= i < |ls| ==> IsLine(ls[i]) }

  /** The image of a list of records. */
  function Encode(ls: seq<Text>): Text
  {
    if ls == [] then [END_SYMBOL] else ls[0] + [END_SYMBOL] + Encode(ls[1..])
  }

  predicate Matches(l: Text, name: Text)
  {
    |name| < |l| && l[..|name|] == name && l[|name|] == EQUALS
  }

  function Record(name: Text, value: Text): (r: Text)
    ensures Matches(r, name) && r[|name| + 1..] == value
    ensures IsName(name) && IsValue(value) ==> IsLine(r)
  {
    name + [EQUALS] + value
  }

  // ----- the operations on records

  function Lookup(ls: seq<Text>, name: Text): Option<Text>
  {
    if ls == [] then None
    else if Matches(ls[0], name) then Some(ls[0][|name| + 1..])
    else Lookup(ls[1..], name)
  }

  /** Every record of that name gets the value. */
  function Replace(ls: seq<Text>, name: Text, value: Text): (r: seq<Text>)
    ensures |r| == |ls|
  {
    if ls == [] then []
    else [if Matches(ls[0], name) then Record(name, value) else ls[0]] + Replace(ls[1..], name, value)
  }

  /** The records of other names, in order. */
  function Others(ls: seq<Text>, name: Text): seq<Text>
  {
    if ls == [] then []
    else (if Matches(ls[0], name) then [] else [ls[0]]) + Others(ls[1..], name)
  }

  function SetLines(ls: seq<Text>, name: Text, value: Text): seq<Text>
  {
    Replace(ls, name, value) + (if Lookup(ls, name).Some? then [] else [Record(name, value)])
  }

  // ----- what they mean

  /** A record has at most one name. */
  lemma OneName(l: Text, m: Text, n: Text)
    requires IsName(m) && IsName(n) && Matches(l, m) && Matches(l, n)
    ensures m == n
  {
    NameEnds(l, m);
    NameEnds(l, n);
  }

  /** The name ends at the first equals sign. */
  lemma NameEnds(l: Text, n: Text)
    requires IsName(n) && Matches(l, n)
    ensures forall i :: 0 <= i < |n| ==> l[i] != EQUALS
  {
    assert forall i :: 0 <= i < |n| ==> l[i] == l[..|n|][i] == n[i];
  }

  lemma RecordName(name: Text, value: Text, n: Text)
    requires IsName(name) && IsName(n) && n != name
    ensures !Matches(Record(name, value), n)
  {
    if Matches(Record(name, value), n) {
      OneName(Record(name, value), name, n);
    }
  }

  lemma {:induction false} LookupAppend(ls: seq<Text>, l: Text, n: Text)
    ensures Lookup(ls + [l], n) == if Lookup(ls, n).Some? then Lookup(ls, n)
      else if Matches(l, n) then Some(l[|n| + 1..]) else None
  {
    if ls == [] {
      assert (ls + [l])[0] == l && (ls + [l])[1..] == [];
    } else {
      assert (ls + [l])[0] == ls[0] && (ls + [l])[1..] == ls[1..] + [l];
      LookupAppend(ls[1..], l, n);
    }
  }

  lemma {:induction false} LookupReplace(ls: seq<Text>, name: Text, value: Text, n: Text)
    requires IsName(name) && IsName(n)
    ensures Lookup(Replace(ls, name, value), n) == if n == name && Lookup(ls, n).Some? then Some(value)
      else Lookup(ls, n)
  {
    hide Record, Matches;
    if ls != [] {
      var r := Replace(ls, name, value);
      assert r[1..] == Replace(ls[1..], name, value);
      LookupReplace(ls[1..], name, value, n);
      if Matches(ls[0], name) && Matches(ls[0], n) {
        OneName(ls[0], name, n);
      }
      if Matches(r[0], name) && Matches(r[0], n) {
        OneName(r[0], name, n);
      }
    }
  }

  /** Get after set: the new value for that name, the old one for every other. */
  lemma GetAfterSet(ls: seq<Text>, name: Text, value: Text, n: Text)
    requires IsName(name) && IsName(n)
    ensures Lookup(SetLines(ls, name, value), n) == if n == name then Some(value) else Lookup(ls, n)
  {
    hide Record, Matches, Lookup, Replace;
    var r := Replace(ls, name, value);
    LookupReplace(ls, name, value, n);
    LookupReplace(ls, name, value, name);
    if Lookup(ls, name).Some? {
      assert r + [] == r;
    } else {
      LookupAppend(r, Record(name, value), n);
      if Matches(Record(name, value), n) {
        OneName(Record(name, value), name, n);
      }
    }
  }

  /** Get after unset: nothing for that name, the old value for every other. */
  lemma {:induction false} GetAfterUnset(ls: seq<Text>, name: Text, n: Text)
    requires IsName(name) && IsName(n)
    ensures Lookup(Others(ls, name), n) == if n == name then None else Lookup(ls, n)
  {
    hide Matches;
    if ls != [] {
      GetAfterUnset(ls[1..], name, n);
      var o := Others(ls[1..], name);
      if Matches(ls[0], name) {
        assert [] + o == o;
        if Matches(ls[0], n) {
          OneName(ls[0], name, n);
        }
      } else {
        assert ([ls[0]] + o)[1..] == o;
      }
    }
  }

  lemma {:induction false} OthersAppend(a: seq<Text>, b: seq<Text>, name: Text)
    ensures Others(a + b, name) == Others(a, name) + Others(b, name)
  {
    hide Matches;
    if a == [] {
      assert a + b == b;
    } else {
      assert (a + b)[0] == a[0] && (a + b)[1..] == a[1..] + b;
      OthersAppend(a[1..], b, name);
    }
  }

  lemma {:induction false} OthersReplace(ls: seq<Text>, name: Text, value: Text)
    ensures Others(Replace(ls, name, value), name) == Others(ls, name)
  {
    hide Matches;
    if ls != [] {
      var r := Replace(ls, name, value);
      assert r[1..] == Replace(ls[1..], name, value);
      OthersReplace(ls[1..], name, value);
    }
  }

  /** Setting a name leaves every other record as it was, and in order. */
  lemma SetKeepsOthers(ls: seq<Text>, name: Text, value: Text)
    ensures Others(SetLines(ls, name, value), name) == Others(ls, name)
  {
    hide Replace, Lookup, Record, Matches;
    var r := Replace(ls, name, value);
    OthersReplace(ls, name, value);
    if Lookup(ls, name).Some? {
      assert r + [] == r;
    } else {
      var last := [Record(name, value)];
      OthersAppend(r, last, name);
      assert Others(last, name) == [] + Others(last[1..], name);
      assert last[1..] == [];
    }
  }

  /** No two records have the same name. */
  ghost predicate Unique(ls: seq<Text>)
  {
    forall i, j, n :: 0 <= i < j < |ls| && IsName(n) && Matches(ls[i], n) ==> !Matches(ls[j], n)
  }

  lemma {:induction false} ReplaceAt(ls: seq<Text>, name: Text, value: Text, i: nat)
    requires i < |ls|
    ensures Replace(ls, name, value)[i] == if Matches(ls[i], name) then Record(name, value) else ls[i]
  {
    hide Matches, Record;
    if i > 0 {
      ReplaceAt(ls[1..], name, value, i - 1);
    }
  }

  lemma {:induction false} LooksUp(ls: seq<Text>, name: Text, i: nat)
    requires i < |ls| && Matches(ls[i], name)
    ensures Lookup(ls, name).Some?
  {
    hide Matches;
    if i > 0 {
      LooksUp(ls[1..], name, i - 1);
    }
  }

  /** Setting a name keeps names unique and records well formed. */
  lemma SetKeepsUnique(ls: seq<Text>, name: Text, value: Text)
    requires AreLines(ls) && Unique(ls) && IsName(name) && IsValue(value)
    ensures AreLines(SetLines(ls, name, value)) && Unique(SetLines(ls, name, value))
  {
    hide Matches, Record, Lookup, Replace, IsLine;
    var r, l := SetLines(ls, name, value), Record(name, value);
    forall i | 0 <= i < |r|
      ensures i < |ls| ==> r[i] == if Matches(ls[i], name) then l else ls[i]
      ensures i >= |ls| ==> r[i] == l && Lookup(ls, name) == None
      ensures IsLine(r[i])
    {
      if i < |ls| {
        ReplaceAt(ls, name, value, i);
      }
    }
    forall i, j, n | 0 <= i < j < |r| && IsName(n) && Matches(r[i], n)
      ensures !Matches(r[j], n)
    {
      NameOnce(ls, name, value, r, i, j, n);
    }
  }

  lemma NameOnce(ls: seq<Text>, name: Text, value: Text, r: seq<Text>, i: nat, j: nat, n: Text)
    requires Unique(ls) && IsName(name) && IsName(n) && |ls| <= |r| && i < j < |r|
    requires forall k :: 0 <= k < |ls| ==> r[k] == if Matches(ls[k], name) then Record(name, value) else ls[k]
    requires forall k :: |ls| <= k < |r| ==> r[k] == Record(name, value) && Lookup(ls, name) == None && k == |ls|
    requires Matches(r[i], n)
    ensures !Matches(r[j], n)
  {
    hide Matches, Record, Lookup;
    if n == name {
      LooksUp(ls, name, i);
    } else {
      RecordName(name, value, n);
    }
  }

  lemma {:induction false} UnsetKeepsUnique(ls: seq<Text>, name: Text)
    requires AreLines(ls) && Unique(ls)
    ensures AreLines(Others(ls, name)) && Unique(Others(ls, name))
    ensures forall i :: 0 <= i < |Others(ls, name)| ==> Others(ls, name)[i] in ls
  {
    hide Matches, IsLine;
    if ls != [] {
      var t := ls[1..];
      assert forall i :: 0 <= i < |t| ==> t[i] == ls[i + 1];
      assert Unique(t);
      UnsetKeepsUnique(t, name);
      var o, r := Others(t, name), Others(ls, name);
      if !Matches(ls[0], name) {
        assert r == [ls[0]] + o;
        forall i, j, n | 0 <= i < j < |r| && IsName(n) && Matches(r[i], n)
          ensures !Matches(r[j], n)
        {
          assert r[j] == o[j - 1] && r[j] in t;
          if i > 0 {
            assert r[i] == o[i - 1];
          }
        }
      } else {
        assert r == o;
      }
    }
  }

  // ----- over every run

  datatype Change = Set(name: Text, value: Text) | Unset(name: Text)

  predicate IsChange(c: Change) { IsName(c.name) && (c.Set? ==> IsValue(c.value)) }

  function Apply(ls: seq<Text>, c: Change): seq<Text>
  {
    if c.Set? then SetLines(ls, c.name, c.value) else Others(ls, c.name)
  }

  function Run(ls: seq<Text>, cs: seq<Change>): seq<Text>
    decreases |cs|
  {
    if cs == [] then ls else Run(Apply(ls, cs[0]), cs[1..])
  }

  /** The finite map that an image stands for. */
  ghost function View(ls: seq<Text>): imap<Text, Text>
  {
    imap n: Text | IsName(n) && Lookup(ls, n).Some? :: Lookup(ls, n).value
  }

  ghost function Update(v: imap<Text, Text>, c: Change): imap<Text, Text>
  {
    if c.Set? then v[c.name := c.value] else v - {c.name}
  }

  ghost function Updates(v: imap<Text, Text>, cs: seq<Change>): imap<Text, Text>
    decreases |cs|
  {
    if cs == [] then v else Updates(Update(v, cs[0]), cs[1..])
  }

  lemma ApplyRefines(ls: seq<Text>, c: Change)
    requires AreLines(ls) && Unique(ls) && IsChange(c)
    ensures View(Apply(ls, c)) == Update(View(ls), c)
    ensures AreLines(Apply(ls, c)) && Unique(Apply(ls, c))
  {
    hide Lookup, SetLines, Others, Unique, AreLines;
    if c.Set? {
      SetKeepsUnique(ls, c.name, c.value);
    } else {
      UnsetKeepsUnique(ls, c.name);
    }
    forall n | IsName(n)
      ensures Lookup(Apply(ls, c), n) == if n != c.name then Lookup(ls, n) else if c.Set? then Some(c.value) else None
    {
      if c.Set? {
        GetAfterSet(ls, c.name, c.value, n);
      } else {
        GetAfterUnset(ls, c.name, n);
      }
    }
  }

  /** Over every sequence of operations the records refine a map, with unique names. */
  lemma {:induction false} RunRefines(ls: seq<Text>, cs: seq<Change>)
    requires AreLines(ls) && Unique(ls) && forall i :: 0 <= i < |cs| ==> IsChange(cs[i])
    ensures View(Run(ls, cs)) == Updates(View(ls), cs)
    ensures AreLines(Run(ls, cs)) && Unique(Run(ls, cs))
    decreases |cs|
  {
    hide Apply, Update, View, Unique, AreLines;
    if cs != [] {
      ApplyRefines(ls, cs[0]);
      RunRefines(Apply(ls, cs[0]), cs[1..]);
    }
  }

  /** An image determines its records. */
  lemma {:induction false} EncodeInjective(ls: seq<Text>, ms: seq<Text>, buf: Text)
    requires AreLines(ls) && AreLines(ms) && Encode(ls) <= buf && Encode(ms) <= buf
    ensures ls == ms
    decreases |ls|
  {
    EmptyImage(ls, buf);
    EmptyImage(ms, buf);
    if ls != [] {
      FirstLine(ls, buf);
      FirstLine(ms, buf);
      SameEnd(ls[0], ms[0], buf);
      EncodeInjective(ls[1..], ms[1..], buf[|ls[0]| + 1..]);
      assert ls == [ls[0]] + ls[1..] && ms == [ms[0]] + ms[1..];
    }
  }

  lemma EmptyImage(ls: seq<Text>, buf: Text)
    requires AreLines(ls) && Encode(ls) <= buf
    ensures buf != [] && (buf[0] == END_SYMBOL <==> ls == [])
  {
    assert buf[0] == Encode(ls)[0];
    assert ls != [] ==> Encode(ls)[0] == ls[0][0];
  }

  lemma SameEnd(a: Text, b: Text, buf: Text)
    requires END_SYMBOL !in a && END_SYMBOL !in b && |a| < |buf| && |b| < |buf|
    requires buf[..|a|] == a && buf[|a|] == 0 && buf[..|b|] == b && buf[|b|] == 0
    ensures a == b
  {
    assert forall i :: 0 <= i < |a| ==> buf[i] == buf[..|a|][i] == a[i];
    assert forall i :: 0 <= i < |b| ==> buf[i] == buf[..|b|][i] == b[i];
  }

  lemma FirstLine(ls: seq<Text>, buf: Text)
    requires ls != [] && Encode(ls) <= buf
    ensures |ls[0]| < |buf| && buf[..|ls[0]|] == ls[0] && buf[|ls[0]|] == 0 && Encode(ls[1..]) <= buf[|ls[0]| + 1..]
  {
    var e, k := Encode(ls), |ls[0]|;
    assert e[..k] == ls[0] && e[k] == 0 && e[k + 1..] == Encode(ls[1..]);
    assert buf[..k] == e[..k] && buf[k] == e[k];
    assert buf[k + 1..][..|e| - k - 1] == e[k + 1..];
  }

  // ----- from the bytes of a file

  function FirstZero(buf: Text): (k: nat)
    ensures k <= |buf| && (forall i :: 0 <= i < k ==> buf[i] != END_SYMBOL) && (k < |buf| ==> buf[k] == END_SYMBOL)
  {
    if buf == [] || buf[0] == END_SYMBOL then 0 else 1 + FirstZero(buf[1..])
  }

  /** The records up to the first empty one. */
  function Decode(buf: Text): seq<Text>
    decreases |buf|
  {
    var k := FirstZero(buf);
    if k == 0 then [] else [buf[..k]] + Decode(if k < |buf| then buf[k + 1..] else [])
  }

  /** Reading back an image gives its records. */
  lemma {:induction false} DecodeEncode(ls: seq<Text>, buf: Text)
    requires AreLines(ls) && Encode(ls) <= buf
    ensures Decode(buf) == ls
    decreases |ls|
  {
    hide Encode, Decode;
    EmptyImage(ls, buf);
    DecodeStep(buf);
    if ls != [] {
      FirstLine(ls, buf);
      var k := FirstZero(buf);
      assert forall i :: 0 <= i < |ls[0]| ==> buf[i] == buf[..|ls[0]|][i] == ls[0][i];
      assert k == |ls[0]|;
      DecodeEncode(ls[1..], buf[k + 1..]);
      assert ls == [ls[0]] + ls[1..];
    }
  }

  lemma DecodeStep(buf: Text)
    ensures var k := FirstZero(buf);
      Decode(buf) == if k == 0 then [] else [buf[..k]] + Decode(if k < |buf| then buf[k + 1..] else [])
  {
  }

  function Contents(c: Option<Text>): Text { if c.Some? then c.value else [] }

  /** What a get returns, and what a set and an unset leave in the file. */
  function GetEffect(c: Option<Text>, name: Text): Option<Text>
  {
    Lookup(Decode(Contents(c)), name)
  }

  function SetEffect(c: Option<Text>, name: Text, value: Text): Option<Text>
  {
    Some(Encode(SetLines(Decode(Contents(c)), name, value)))
  }

  function UnsetEffect(c: Option<Text>, name: Text): Option<Text>
  {
    var ls := Decode(Contents(c));
    if Lookup(ls, name).Some? then Some(Encode(Others(ls, name))) else c
  }

  // ----- over every run, on the bytes of the file

  function ChangeEffect(file: Option<Text>, c: Change): Option<Text>
  {
    if c.Set? then SetEffect(file, c.name, c.value) else UnsetEffect(file, c.name)
  }

  /** The file after a run of sets and unsets. */
  function FileRun(file: Option<Text>, cs: seq<Change>): Option<Text>
    decreases |cs|
  {
    if cs == [] then file else FileRun(ChangeEffect(file, cs[0]), cs[1..])
  }

  /** What a file holds, as a map. */
  ghost function FileView(file: Option<Text>): imap<Text, Text> { View(Decode(Contents(file))) }
  ghost predicate UniqueNames(file: Option<Text>) { Unique(Decode(Contents(file))) }

  /** Any bytes decode to records. */
  lemma {:induction false} DecodeLines(buf: Text)
    ensures AreLines(Decode(buf))
    decreases |buf|
  {
    var k := FirstZero(buf);
    if k > 0 {
      var rest := if k < |buf| then buf[k + 1..] else [];
      DecodeLines(rest);
      assert IsLine(buf[..k]);
    }
  }

  lemma {:induction false} OthersOfNone(ls: seq<Text>, name: Text)
    requires Lookup(ls, name).None?
    ensures Others(ls, name) == ls
  {
    hide Matches;
    if ls != [] {
      OthersOfNone(ls[1..], name);
    }
  }

  /** One operation on the bytes is that operation on the records. */
  lemma ChangeDecodes(file: Option<Text>, c: Change)
    requires UniqueNames(file) && IsChange(c)
    ensures Decode(Contents(ChangeEffect(file, c))) == Apply(Decode(Contents(file)), c)
    ensures UniqueNames(ChangeEffect(file, c))
    ensures FileView(ChangeEffect(file, c)) == Update(FileView(file), c)
  {
    hide Decode, Encode, Lookup, Others, SetLines, Unique, AreLines, View, Update, IsChange;
    var ls := Decode(Contents(file));
    DecodeLines(Contents(file));
    ApplyRefines(ls, c);
    if c.Set? || Lookup(ls, c.name).Some? {
      DecodeEncode(Apply(ls, c), Encode(Apply(ls, c)));
    } else {
      OthersOfNone(ls, c.name);
    }
  }

  /** Over every sequence of operations the file refines a map: names stay unique, and a get is a lookup in the map. */
  lemma {:induction false} FileRunRefines(file: Option<Text>, cs: seq<Change>)
    requires UniqueNames(file) && forall i :: 0 <= i < |cs| ==> IsChange(cs[i])
    ensures UniqueNames(FileRun(file, cs)) && FileView(FileRun(file, cs)) == Updates(FileView(file), cs)
    ensures Decode(Contents(FileRun(file, cs))) == Run(Decode(Contents(file)), cs)
    decreases |cs|
  {
    hide ChangeEffect, UniqueNames, FileView, Update, IsChange, Decode, Apply;
    if cs != [] {
      ChangeDecodes(file, cs[0]);
      FileRunRefines(ChangeEffect(file, cs[0]), cs[1..]);
    }
  }

  lemma GetIsLookup(file: Option<Text>, n: Text)
    requires IsName(n)
    ensures GetEffect(file, n) == if n in FileView(file) then Some(FileView(file)[n]) else None
  {
  }

  lemma {:induction false} FileRunNext(file: Option<Text>, cs: seq<Change>, c: Change)
    ensures FileRun(file, cs + [c]) == ChangeEffect(FileRun(file, cs), c)
    decreases |cs|
  {
    hide ChangeEffect;
    if cs == [] {
      assert (cs + [c])[0] == c && (cs + [c])[1..] == [];
    } else {
      assert (cs + [c])[0] == cs[0] && (cs + [c])[1..] == cs[1..] + [c];
      FileRunNext(ChangeEffect(file, cs[0]), cs[1..], c);
    }
  }

  // ----- the bytes

  /** One setting alone: its name, 61, its value, and two zero bytes. */
  lemma OneSetting(name: Text, value: Text)
    ensures Encode([Record(name, value)]) == name + [61] + value + [0, 0] && Encode([]) == [0]
  {
    var ls := [Record(name, value)];
    assert ls[1..] == [];
    assert name + [61] + value + [0] + [0] == name + [61] + value + [0, 0];
  }

  lemma {:induction false} LastByte(ls: seq<Text>)
    ensures Encode(ls) != [] && Encode(ls)[|Encode(ls)| - 1] == 0
    decreases |ls|
  {
    if ls != [] {
      LastByte(ls[1..]);
    }
  }

  lemma {:induction false} EncodeAppend(ls: seq<Text>, l: Text)
    ensures Encode(ls) != [] && Encode(ls + [l]) == Encode(ls)[..|Encode(ls)| - 1] + (l + [0, 0])
    decreases |ls|
  {
    hide Encode;
    LastByte(ls);
    if ls == [] {
      OneLine(l);
      assert [] + [l] == [l] && [] + (l + [0, 0]) == l + [0, 0];
    } else {
      var ms := ls + [l];
      assert ms != [] && ms[0] == ls[0] && ms[1..] == ls[1..] + [l];
      EncodeAppend(ls[1..], l);
      LastByte(ls[1..]);
      EncodeFirst(ls);
      EncodeFirst(ms);
      Longer(ls[0] + [0], Encode(ls[1..]), l + [0, 0]);
    }
  }

  lemma EncodeFirst(ls: seq<Text>)
    requires ls != []
    ensures Encode(ls) == ls[0] + [0] + Encode(ls[1..])
  {
  }

  lemma OneLine(l: Text)
    ensures Encode([l]) == l + [0, 0] && Encode([]) == [0]
  {
    assert [l][1..] == [];
    assert l + [0] + [0] == l + [0, 0];
  }

  lemma Longer(a: Text, b: Text, c: Text)
    requires b != []
    ensures (a + b)[..|a + b| - 1] + c == a + (b[..|b| - 1] + c)
  {
  }

  /** A new setting goes to the end of the file, in front of its last byte; one that is there changes in its place. */
  lemma SetInBytes(ls: seq<Text>, name: Text, value: Text)
    ensures Lookup(ls, name).None? ==>
      Encode(SetLines(ls, name, value)) == Encode(ls)[..|Encode(ls)| - 1] + name + [61] + value + [0, 0]
    ensures Lookup(ls, name).Some? ==> |SetLines(ls, name, value)| == |ls|
    ensures forall i :: 0 <= i < |ls| ==>
      SetLines(ls, name, value)[i] == if Matches(ls[i], name) then name + [61] + value else ls[i]
  {
    hide Encode, Matches, Lookup, Replace;
    EncodeAppend(ls, Record(name, value));
    LastByte(ls);
    NothingReplaced(ls, name, value);
    forall i | 0 <= i < |ls|
      ensures Replace(ls, name, value)[i] == if Matches(ls[i], name) then Record(name, value) else ls[i]
    {
      ReplaceAt(ls, name, value, i);
    }
    var e := Encode(ls)[..|Encode(ls)| - 1];
    assert e + Record(name, value) + [0, 0] == e + name + [61] + value + [0, 0];
  }

  lemma {:induction false} NothingReplaced(ls: seq<Text>, name: Text, value: Text)
    ensures Lookup(ls, name).None? ==> Replace(ls, name, value) == ls
    decreases |ls|
  {
    hide Matches, Record;
    if ls != [] {
      NothingReplaced(ls[1..], name, value);
    }
  }

  /** The first of several records of one name is the one that is found. */
  lemma FirstIsFound(ls: seq<Text>, name: Text, value: Text)
    ensures Lookup([name + [61] + value] + ls, name) == Some(value)
  {
    var l := name + [61] + value;
    assert l[..|name|] == name && l[|name| + 1..] == value;
  }
}
