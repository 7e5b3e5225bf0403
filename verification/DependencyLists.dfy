/** `add_split_dependencies`: from the text of a control file to the list that the dependency check reads. */
module DependencyLists {
  import opened Bits
  import opened CanonicalCode
  import opened Versions
  import opened StatusWords
  import opened DpkgTables
  import opened DependencyText
  import opened Dependencies

  function RootKind(kind: EdgeKind): EdgeKind { if kind == PreDepends then OrPreDepends else OrDepends }

  // ----- the groups of a list

  lemma {:induction false} AppendGroup(es: seq<Edge>, fs: seq<Edge>)
    requires WellFormed(es) && WellFormed(fs)
    ensures WellFormed(es + fs) && Groups(es + fs) == Groups(es) + Groups(fs)
    decreases |es|
  {
    hide WellFormed, Groups;
    var all := es + fs;
    if es == [] {
      NoGroups();
      assert all == fs && [] + Groups(fs) == Groups(fs);
    } else if IsRoot(es[0].kind) {
      RootGroup(es);
      var n := 1 + es[0].version;
      AppendGroup(es[n..], fs);
      assert all[n..] == es[n..] + fs && all[1..n] == es[1..n];
      AppendRoot(all, es, n);
      GroupAssoc([es[1..n]], Groups(es[n..]), Groups(fs));
    } else {
      PlainGroup(es);
      AppendGroup(es[1..], fs);
      assert all[0] == es[0] && all[1..] == es[1..] + fs;
      PlainGroup(all);
      GroupAssoc(if IsDependency(es[0].kind) then [[es[0]]] else [], Groups(es[1..]), Groups(fs));
    }
  }

  lemma NoGroups()
    ensures WellFormed([]) && Groups([]) == []
  {
  }

  lemma GroupAssoc(a: seq<seq<Edge>>, b: seq<seq<Edge>>, c: seq<seq<Edge>>)
    ensures a + b + c == a + (b + c)
  {
  }

  lemma PlainGroup(es: seq<Edge>)
    requires es != [] && !IsRoot(es[0].kind)
    ensures WellFormed(es) <==> WellFormed(es[1..])
    ensures WellFormed(es) ==> Groups(es) == (if IsDependency(es[0].kind) then [[es[0]]] else []) + Groups(es[1..])
  {
  }

  lemma AppendRoot(all: seq<Edge>, es: seq<Edge>, n: nat)
    requires WellFormed(es) && es != [] && IsRoot(es[0].kind) && n == 1 + es[0].version <= |all|
    requires all[0] == es[0] && all[1..n] == es[1..n] && WellFormed(all[n..])
    requires forall i :: 0 <= i < n ==> all[i] == es[i]
    ensures WellFormed(all) && Groups(all) == [es[1..n]] + Groups(all[n..])
  {
  }

  /** What is added for one dependency: its alternatives, behind a root that counts them if it is written with a bar. */
  function Added(alts: seq<Edge>, bar: bool, kind: EdgeKind, name: nat): seq<Edge>
  {
    if bar then [Edge(RootKind(kind), name, |alts|, NoOperator)] + alts else alts
  }

  lemma ClauseGroup(alts: seq<Edge>, bar: bool, kind: EdgeKind, name: nat)
    requires IsDependency(kind) && |alts| >= 1 && (|alts| > 1 ==> bar)
    requires forall i :: 0 <= i < |alts| ==> alts[i].kind == kind
    ensures WellFormed(Added(alts, bar, kind, name)) && Groups(Added(alts, bar, kind, name)) == [alts]
  {
    var es := Added(alts, bar, kind, name);
    if bar {
      var n := 1 + |alts|;
      assert es[n..] == [] && es[1..n] == alts;
      assert forall i :: 1 <= i < n ==> es[i] == alts[i - 1];
      assert WellFormed(es[n..]);
      assert Groups(es) == [es[1..n]] + Groups(es[n..]);
    } else {
      assert es == [alts[0]] && es[1..] == [];
      assert WellFormed(es[1..]);
    }
  }

  // ----- edges and the text they stand for

  /** The edge names the strings of the alternative; an operator that was not set is anything. */
  ghost predicate Stands(N: Names, e: Edge, a: Alternative, kind: EdgeKind)
  {
    && e.kind == kind && IsName(N, e.name) && NameAt(N, e.name) == a.name
    && IsName(N, e.version) && NameAt(N, e.version) == a.version
    && (a.operator.Some? ==> e.operator == a.operator.value)
  }

  ghost predicate StandFor(N: Names, es: seq<Edge>, alts: seq<Alternative>, kind: EdgeKind)
  {
    |es| == |alts| && forall i :: 0 <= i < |es| ==> Stands(N, es[i], alts[i], kind)
  }

  lemma StillStand(N: Names, N': Names, es: seq<Edge>, alts: seq<Alternative>, kind: EdgeKind)
    requires Grown(N, N') && StandFor(N, es, alts, kind)
    ensures StandFor(N', es, alts, kind)
  {
    hide NameAt;
    forall i | 0 <= i < |es|
      ensures Stands(N', es[i], alts[i], kind)
    {
      SameName(N, N', es[i].name);
      SameName(N, N', es[i].version);
    }
  }

  /** The strings that are looked up. */
  ghost function AlternativeTexts(ts: seq<Text>): set<Text>
  {
    if ts == [] then {}
    else
      (match ReadAlternative(ts[0]) case Read(a) => {a.name, a.version} case _ => {}) + AlternativeTexts(ts[1..])
  }

  predicate HasBar(f: Text, kind: EdgeKind)
  {
    IsDependency(kind) && NextToken(f, BAR).Some? && NextToken(f, BAR).value.0 != f
  }

  ghost function ClauseTexts(field: Text, kind: EdgeKind): set<Text>
  {
    var f := SkipOf(field, [SPACE]);
    (if HasBar(f, kind) then {f} else {}) + AlternativeTexts(Tokens(f, BAR))
  }

  ghost function FieldTexts(fields: seq<Text>, kind: EdgeKind): set<Text>
  {
    if fields == [] then {} else ClauseTexts(fields[0], kind) + FieldTexts(fields[1..], kind)
  }

  // ----- the loops

  /** One alternative: its strings are entered, the version first. */
  method AddAlternative(t: Tables, text: Text, kind: EdgeKind, memory: Text -> Operator, ghost all: set<Text>)
    returns (how: Reading<Edge>)
    requires t.Valid() && Room(t.names[..], all) && AlternativeTexts([text]) <= all
    modifies t.names
    ensures t.Valid() && Room(t.names[..], all) && Grown(old(t.names[..]), t.names[..])
    ensures match ReadAlternative(text)
      case Read(a) => how.Read? && Stands(t.names[..], how.value, a, kind)
      case _ => how == IllegalOperator
  {
    hide ReadAlternative, GoodNames, GoodPackages, GoodStatuses, Room;
    var r := ReadAlternative(text);
    assert [text][1..] == [];
    match r {
      case Read(a) =>
        RoomStops(t.names[..], all, a.version);
        var version := t.SearchName(a.version);
        RoomStops(t.names[..], all, a.name);
        var name := t.SearchName(a.name);
        how := Read(Edge(kind, name, version, if a.operator.Some? then a.operator.value else memory(text)));
      case _ =>
        how := IllegalOperator;
    }
  }

  /** The token just read is number `k`, and those behind it are still to come. */
  ghost predicate Scanning(tok: Option<(Text, Text)>, ts: seq<Text>, k: nat, d: byte)
  {
    match tok
    case None => k == |ts|
    case Some((t, rest)) => k < |ts| && ts[k] == t && Tokens(rest, d) == ts[k + 1..]
  }

  lemma FirstToken(s: Text, d: byte)
    ensures Scanning(NextToken(s, d), Tokens(s, d), 0, d)
  {
    var ts := Tokens(s, d);
    assert ts != [] ==> ts[1..] == Tokens(NextToken(s, d).value.1, d);
  }

  lemma FurtherToken(tok: Option<(Text, Text)>, ts: seq<Text>, k: nat, d: byte)
    requires Scanning(tok, ts, k, d) && tok.Some?
    ensures Scanning(NextToken(tok.value.1, d), ts, k + 1, d)
  {
    hide NextToken;
    var rest := tok.value.1;
    FirstToken(rest, d);
    var us := ts[k + 1..];
    assert us == [] ==> k + 1 == |ts|;
    assert us != [] ==> us[0] == ts[k + 1] && us[1..] == ts[k + 2..];
  }

  /** The alternatives read so far, and the rest. */
  lemma ReadFurther(ts: seq<Text>, k: nat, done: seq<Alternative>)
    requires k < |ts| && ReadAlternatives(ts) == Prepend(done, ReadAlternatives(ts[k..]))
    ensures match ReadAlternative(ts[k])
      case Read(a) => ReadAlternatives(ts) == Prepend(done + [a], ReadAlternatives(ts[k + 1..]))
      case _ => ReadAlternatives(ts) == IllegalOperator
  {
    hide ReadAlternative, ReadAlternatives, Prepend;
    var us := ts[k..];
    assert us[0] == ts[k] && us[1..] == ts[k + 1..];
    FirstAlternative(us);
    match ReadAlternative(ts[k]) {
      case Read(a) =>
        PrependTwice(done, [a], ReadAlternatives(ts[k + 1..]));
      case _ =>
        Failed(done);
    }
  }

  lemma FirstAlternative(us: seq<Text>)
    requires us != []
    ensures match ReadAlternative(us[0])
      case Read(a) => ReadAlternatives(us) == Prepend([a], ReadAlternatives(us[1..]))
      case _ => ReadAlternatives(us) == IllegalOperator
  {
    hide ReadAlternative;
  }

  lemma Failed<T>(done: seq<T>)
    ensures Prepend(done, NullPointer) == NullPointer && Prepend(done, IllegalOperator) == IllegalOperator
  {
  }

  lemma TextsFurther(ts: seq<Text>, k: nat)
    requires k < |ts|
    ensures AlternativeTexts(ts[k..]) == AlternativeTexts([ts[k]]) + AlternativeTexts(ts[k + 1..])
  {
    hide ReadAlternative;
    var one: seq<Text> := [ts[k]];
    assert ts[k..][1..] == ts[k + 1..] && one[1..] == [];
  }

  /** Another alternative is counted in the root and put behind the others. */
  lemma AddedNext(edges: seq<Edge>, alts: seq<Edge>, bar: bool, kind: EdgeKind, name: nat, e: Edge)
    ensures var es := edges + Added(alts, bar, kind, name);
      && (bar ==> |edges| < |es| && es[|edges|].version == |alts|)
      && (if bar then es[|edges| := es[|edges|].(version := |alts| + 1)] else es) + [e]
           == edges + Added(alts + [e], bar, kind, name)
  {
  }

  /** One dependency: all its alternatives, or the way the process ends. */
  method AddClause(t: Tables, edges: seq<Edge>, field: Text, kind: EdgeKind, memory: Text -> Operator,
                   ghost all: set<Text>)
    returns (how: Reading<seq<Edge>>, ghost alts: seq<Edge>, ghost name: nat)
    requires t.Valid() && Room(t.names[..], all) && ClauseTexts(field, kind) <= all
    modifies t.names
    ensures t.Valid() && Room(t.names[..], all) && Grown(old(t.names[..]), t.names[..])
    ensures match ReadClause(field)
      case Read(c) =>
        && StandFor(t.names[..], alts, c.alts, kind)
        && how == Read(edges + Added(alts, HasBar(c.text, kind), kind, name))
        && (HasBar(c.text, kind) ==> Named(t.names[..], name, c.text))
      case NullPointer => how == NullPointer
      case IllegalOperator => how == IllegalOperator
  {
    hide Tables.Valid, Room, ReadAlternative, ReadAlternatives, Tokens, NextToken, Scanning, StandFor, Added,
         AlternativeTexts, SkipOf;
    var f := SkipOf(field, [SPACE]);
    ghost var ts := Tokens(f, BAR);
    var tok := NextToken(f, BAR);
    FirstToken(f, BAR);
    alts, name := [], 0;
    NoTokensLeft(tok, ts, 0);
    if tok.None? {
      how := NullPointer;
      return;
    }
    var bar, es := IsDependency(kind) && tok.value.0 != f, edges;
    if bar {
      var i := Enter(t, f, all);
      es, name := es + [Edge(RootKind(kind), i, 0, NoOperator)], i;
    }
    ghost var k, done := 0, [];
    NothingAdded(edges, bar, kind, name);
    NothingRead(t.names[..], ts, kind);
    while tok.Some?
      invariant t.Valid() && Room(t.names[..], all) && Grown(old(t.names[..]), t.names[..])
      invariant k <= |ts| && Scanning(tok, ts, k, BAR) && AlternativeTexts(ts[k..]) <= all
      invariant es == edges + Added(alts, bar, kind, name) && StandFor(t.names[..], alts, done, kind)
      invariant bar ==> Named(t.names[..], name, f)
      invariant ReadAlternatives(ts) == Prepend(done, ReadAlternatives(ts[k..]))
      decreases |ts| - k
    {
      NoTokensLeft(tok, ts, k);
      TextsFurther(ts, k);
      ReadFurther(ts, k, done);
      ghost var N := t.names[..];
      var r := AddAlternative(t, tok.value.0, kind, memory, all);
      if !r.Read? {
        how := IllegalOperator;
        return;
      }
      StillStand(N, t.names[..], alts, done, kind);
      if bar {
        SameName(N, t.names[..], name);
      }
      ghost var a := ReadAlternative(ts[k]).value;
      StandNext(t.names[..], alts, done, kind, r.value, a);
      AddedNext(edges, alts, bar, kind, name, r.value);
      if bar {
        es := es[|edges| := es[|edges|].(version := es[|edges|].version + 1)];
      }
      es, alts, done := es + [r.value], alts + [r.value], done + [a];
      FurtherToken(tok, ts, k, BAR);
      tok, k := NextToken(tok.value.1, BAR), k + 1;
    }
    NoTokensLeft(tok, ts, k);
    ReadToEnd(ts, k, done);
    how := Read(es);
  }

  method Enter(t: Tables, key: Text, ghost all: set<Text>) returns (i: nat)
    requires t.Valid() && Room(t.names[..], all) && key in all
    modifies t.names
    ensures t.Valid() && Room(t.names[..], all) && Grown(old(t.names[..]), t.names[..])
    ensures Named(t.names[..], i, key)
  {
    hide GoodNames, GoodPackages, GoodStatuses, Room;
    RoomStops(t.names[..], all, key);
    i := t.SearchName(key);
  }

  /** The index stands for this string. */
  predicate Named(N: Names, i: nat, key: Text) { IsName(N, i) && NameAt(N, i) == key }

  /** A dependency has a root exactly when there is a bar in its text. */
  lemma RootIsBar(f: Text, kind: EdgeKind)
    requires NextToken(f, BAR).Some?
    ensures HasBar(f, kind) <==> IsDependency(kind) && 124 in f
  {
    var n := RunOf(f, [BAR]);
    var u := f[n..];
    var m := Before(u, [BAR]);
    if 124 in f {
      assert u[..m] != f;
    } else {
      RunIs(f, [BAR], 0);
      assert u == f;
      BeforeIs(f, [BAR], |f|);
    }
  }

  lemma NoTokensLeft(tok: Option<(Text, Text)>, ts: seq<Text>, k: nat)
    requires Scanning(tok, ts, k, BAR)
    ensures tok.None? <==> k == |ts|
    ensures tok.Some? ==> k < |ts| && ts[k] == tok.value.0
  {
  }

  lemma NothingAdded(edges: seq<Edge>, bar: bool, kind: EdgeKind, name: nat)
    ensures edges + Added([], bar, kind, name)
      == if bar then edges + [Edge(RootKind(kind), name, 0, NoOperator)] else edges
  {
  }

  lemma NothingRead(N: Names, ts: seq<Text>, kind: EdgeKind)
    ensures StandFor(N, [], [], kind) && ReadAlternatives(ts) == Prepend([], ReadAlternatives(ts[0..]))
    ensures AlternativeTexts(ts[0..]) == AlternativeTexts(ts)
  {
    hide ReadAlternative, ReadAlternatives, AlternativeTexts;
    assert ts[0..] == ts;
    PrependNothing(ReadAlternatives(ts));
  }

  lemma ReadToEnd(ts: seq<Text>, k: nat, done: seq<Alternative>)
    requires k == |ts| && ReadAlternatives(ts) == Prepend(done, ReadAlternatives(ts[k..]))
    ensures ReadAlternatives(ts) == Read(done)
  {
    assert ts[k..] == [] && done + [] == done;
  }

  lemma StandNext(N: Names, es: seq<Edge>, alts: seq<Alternative>, kind: EdgeKind, e: Edge, a: Alternative)
    requires StandFor(N, es, alts, kind) && Stands(N, e, a, kind)
    ensures StandFor(N, es + [e], alts + [a], kind)
  {
    hide Stands;
  }

  // ----- the whole line

  function AllAlternatives(cs: seq<Clause>): seq<Alternative>
  {
    if cs == [] then [] else AllAlternatives(cs[..|cs| - 1]) + cs[|cs| - 1].alts
  }

  /** The new groups stand for the clauses, in order. */
  ghost predicate GroupsStand(N: Names, gs: seq<seq<Edge>>, cs: seq<Clause>, kind: EdgeKind)
  {
    |gs| == |cs| && forall i :: 0 <= i < |gs| ==> StandFor(N, gs[i], cs[i].alts, kind)
  }

  /**
   * What a line adds to a list: for a dependency one group for each clause, and for other kinds only edges that the
   * dependency check skips.
   */
  ghost predicate Listed(N: Names, edges: seq<Edge>, es: seq<Edge>, cs: seq<Clause>, kind: EdgeKind)
    requires WellFormed(edges)
  {
    && WellFormed(es) && edges <= es
    && (IsDependency(kind) ==>
          Groups(edges) <= Groups(es) && GroupsStand(N, Groups(es)[|Groups(edges)|..], cs, kind))
    && (!IsDependency(kind) ==>
          Groups(es) == Groups(edges) && StandFor(N, es[|edges|..], AllAlternatives(cs), kind))
  }

  lemma StillListed(N: Names, N': Names, edges: seq<Edge>, es: seq<Edge>, cs: seq<Clause>, kind: EdgeKind)
    requires WellFormed(edges) && Grown(N, N') && Listed(N, edges, es, cs, kind)
    ensures Listed(N', edges, es, cs, kind)
  {
    hide WellFormed, Groups, StandFor, Grown, AllAlternatives;
    if IsDependency(kind) {
      var gs := Groups(es)[|Groups(edges)|..];
      forall i | 0 <= i < |gs|
        ensures StandFor(N', gs[i], cs[i].alts, kind)
      {
        StillStand(N, N', gs[i], cs[i].alts, kind);
      }
    } else {
      StillStand(N, N', es[|edges|..], AllAlternatives(cs), kind);
    }
  }

  lemma NothingListed(N: Names, edges: seq<Edge>, kind: EdgeKind)
    requires WellFormed(edges)
    ensures Listed(N, edges, edges, [], kind)
  {
    hide WellFormed, Groups;
    assert edges[|edges|..] == [] && Groups(edges)[|Groups(edges)|..] == [];
  }

  /** One more clause. */
  lemma ListedNext(N: Names, edges: seq<Edge>, es: seq<Edge>, cs: seq<Clause>, kind: EdgeKind, alts: seq<Edge>,
                   bar: bool, name: nat, c: Clause)
    requires WellFormed(edges) && Listed(N, edges, es, cs, kind) && !IsRoot(kind) && (bar ==> IsDependency(kind))
    requires StandFor(N, alts, c.alts, kind) && |alts| >= 1 && (IsDependency(kind) && |alts| > 1 ==> bar)
    ensures Listed(N, edges, es + Added(alts, bar, kind, name), cs + [c], kind)
  {
    hide WellFormed, Groups, Stands, Added, AllAlternatives;
    AltsKind(N, alts, c.alts, kind);
    var add := Added(alts, bar, kind, name);
    var all := es + add;
    if IsDependency(kind) {
      ClauseGroup(alts, bar, kind, name);
      AppendGroup(es, add);
      var n := |Groups(edges)|;
      assert Groups(all)[n..] == Groups(es)[n..] + [alts];
      assert Groups(all)[..n] == Groups(es)[..n];
    } else {
      PlainAdded(alts, kind, name);
      SkippedEdges(alts, kind);
      AppendGroup(es, add);
      assert Groups(es) + [] == Groups(es);
      AllNext(cs, c);
      assert all[|edges|..] == es[|edges|..] + alts;
    }
  }

  lemma AltsKind(N: Names, alts: seq<Edge>, cs: seq<Alternative>, kind: EdgeKind)
    requires StandFor(N, alts, cs, kind)
    ensures forall i :: 0 <= i < |alts| ==> alts[i].kind == kind
  {
    forall i | 0 <= i < |alts|
      ensures alts[i].kind == kind
    {
      assert Stands(N, alts[i], cs[i], kind);
    }
  }

  lemma PlainAdded(alts: seq<Edge>, kind: EdgeKind, name: nat)
    ensures Added(alts, false, kind, name) == alts
  {
  }

  lemma AllNext(cs: seq<Clause>, c: Clause)
    ensures AllAlternatives(cs + [c]) == AllAlternatives(cs) + c.alts
  {
    assert (cs + [c])[..|cs|] == cs;
  }

  lemma {:induction false} SkippedEdges(alts: seq<Edge>, kind: EdgeKind)
    requires !IsRoot(kind) && !IsDependency(kind) && forall i :: 0 <= i < |alts| ==> alts[i].kind == kind
    ensures WellFormed(alts) && Groups(alts) == []
    decreases |alts|
  {
    hide WellFormed, Groups;
    if alts == [] {
      NoGroups();
    } else {
      SkippedEdges(alts[1..], kind);
      PlainGroup(alts);
    }
  }

  lemma WholeToken(f: Text)
    requires NextToken(f, BAR).Some? && NextToken(f, BAR).value.0 == f
    ensures |Tokens(f, BAR)| == 1
  {
    var n := RunOf(f, [BAR]);
    assert |f| <= |f| - n;
    assert NextToken(f, BAR).value.1 == [];
    assert Tokens([], BAR) == [];
  }

  /** Two alternatives are written with a bar. */
  lemma SeveralNeedBar(f: Text)
    requires |Tokens(f, BAR)| > 1
    ensures NextToken(f, BAR).Some? && NextToken(f, BAR).value.0 != f
  {
    if NextToken(f, BAR).value.0 == f {
      WholeToken(f);
    }
  }

  lemma {:induction false} AlternativesCount(ts: seq<Text>)
    ensures ReadAlternatives(ts).Read? ==> |ReadAlternatives(ts).value| == |ts|
  {
    if ts != [] {
      AlternativesCount(ts[1..]);
    }
  }

  lemma ClauseShape(field: Text, kind: EdgeKind)
    requires ReadClause(field).Read?
    ensures var c := ReadClause(field).value;
      |c.alts| >= 1 && (IsDependency(kind) && |c.alts| > 1 ==> HasBar(c.text, kind))
  {
    hide Tokens, ReadAlternatives, NextToken;
    var f := SkipOf(field, [SPACE]);
    AlternativesCount(Tokens(f, BAR));
    if |Tokens(f, BAR)| > 1 {
      SeveralNeedBar(f);
    }
  }

  lemma ClausesFurther(fs: seq<Text>, k: nat, done: seq<Clause>)
    requires k < |fs| && ReadClauses(fs) == Prepend(done, ReadClauses(fs[k..]))
    ensures match ReadClause(fs[k])
      case Read(c) => ReadClauses(fs) == Prepend(done + [c], ReadClauses(fs[k + 1..]))
      case NullPointer => ReadClauses(fs) == NullPointer
      case IllegalOperator => ReadClauses(fs) == IllegalOperator
  {
    hide ReadClause, ReadClauses, Prepend;
    var us := fs[k..];
    assert us[0] == fs[k] && us[1..] == fs[k + 1..];
    FirstClause(us);
    Failed(done);
    if ReadClause(fs[k]).Read? {
      PrependTwice(done, [ReadClause(fs[k]).value], ReadClauses(fs[k + 1..]));
    }
  }

  lemma FirstClause(us: seq<Text>)
    requires us != []
    ensures match ReadClause(us[0])
      case Read(c) => ReadClauses(us) == Prepend([c], ReadClauses(us[1..]))
      case NullPointer => ReadClauses(us) == NullPointer
      case IllegalOperator => ReadClauses(us) == IllegalOperator
  {
    hide ReadClause;
  }

  lemma FieldsFurther(fs: seq<Text>, k: nat, kind: EdgeKind)
    requires k < |fs|
    ensures FieldTexts(fs[k..], kind) == ClauseTexts(fs[k], kind) + FieldTexts(fs[k + 1..], kind)
  {
    hide ClauseTexts;
    assert fs[k..][1..] == fs[k + 1..];
  }

  lemma NoFieldsLeft(tok: Option<(Text, Text)>, fs: seq<Text>, k: nat)
    requires Scanning(tok, fs, k, COMMA)
    ensures tok.None? <==> k == |fs|
    ensures tok.Some? ==> k < |fs| && fs[k] == tok.value.0
  {
  }

  lemma AllFields(fs: seq<Text>)
    ensures fs[0..] == fs && ReadClauses(fs) == Prepend([], ReadClauses(fs[0..]))
  {
    hide ReadClause, ReadClauses;
    assert fs[0..] == fs;
    PrependNothing(ReadClauses(fs));
  }

  lemma ClausesToEnd(fs: seq<Text>, k: nat, done: seq<Clause>)
    requires k == |fs| && ReadClauses(fs) == Prepend(done, ReadClauses(fs[k..]))
    ensures ReadClauses(fs) == Read(done)
  {
    hide ReadClause;
    assert fs[k..] == [] && done + [] == done;
  }

  /**
   * `add_split_dependencies`: for every line, either the list grows by exactly what the line says, or the process
   * ends as the reading of the text says. `memory` is what an operator field holds that was never set.
   */
  method AddSplit(t: Tables, edges: seq<Edge>, line: Text, kind: EdgeKind, memory: Text -> Operator)
    returns (how: Reading<seq<Edge>>)
    requires t.Valid() && WellFormed(edges) && !IsRoot(kind)
    requires Room(t.names[..], FieldTexts(Tokens(line, COMMA), kind))
    modifies t.names
    ensures t.Valid() && Grown(old(t.names[..]), t.names[..])
    ensures match ReadLine(line)
      case Read(cs) => how.Read? && Listed(t.names[..], edges, how.value, cs, kind)
      case NullPointer => how == NullPointer
      case IllegalOperator => how == IllegalOperator
  {
    hide Tables.Valid, Room, WellFormed, ReadClause, ReadClauses, Tokens, NextToken, Scanning, StandFor, Added, Listed,
         FieldTexts, HasBar, ClauseTexts;
    ghost var fs, all := Tokens(line, COMMA), FieldTexts(Tokens(line, COMMA), kind);
    var tok := NextToken(line, COMMA);
    FirstToken(line, COMMA);
    NoFieldsLeft(tok, fs, 0);
    if tok.None? {
      how := NullPointer;
      return;
    }
    var es := edges;
    ghost var k, done := 0, [];
    NothingListed(t.names[..], edges, kind);
    AllFields(fs);
    while tok.Some?
      invariant t.Valid() && Room(t.names[..], all) && Grown(old(t.names[..]), t.names[..])
      invariant k <= |fs| && Scanning(tok, fs, k, COMMA) && FieldTexts(fs[k..], kind) <= all
      invariant Listed(t.names[..], edges, es, done, kind)
      invariant ReadClauses(fs) == Prepend(done, ReadClauses(fs[k..]))
      decreases |fs| - k
    {
      NoFieldsLeft(tok, fs, k);
      FieldsFurther(fs, k, kind);
      ClausesFurther(fs, k, done);
      ghost var N := t.names[..];
      var r, alts, name := AddClause(t, es, tok.value.0, kind, memory, all);
      if !r.Read? {
        how := r;
        return;
      }
      StillListed(N, t.names[..], edges, es, done, kind);
      ghost var c := ReadClause(fs[k]).value;
      ClauseShape(fs[k], kind);
      BarIsDependency(c.text, kind);
      StandCount(t.names[..], alts, c.alts, kind);
      ListedNext(t.names[..], edges, es, done, kind, alts, HasBar(c.text, kind), name, c);
      es, done := r.value, done + [c];
      FurtherToken(tok, fs, k, COMMA);
      tok, k := NextToken(tok.value.1, COMMA), k + 1;
    }
    NoFieldsLeft(tok, fs, k);
    ClausesToEnd(fs, k, done);
    how := Read(es);
  }

  lemma BarIsDependency(f: Text, kind: EdgeKind)
    ensures HasBar(f, kind) ==> IsDependency(kind)
  {
  }

  lemma StandCount(N: Names, es: seq<Edge>, alts: seq<Alternative>, kind: EdgeKind)
    requires StandFor(N, es, alts, kind)
    ensures |es| == |alts|
  {
  }
}
