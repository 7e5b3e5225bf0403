/** The text of a dependency line, as `add_split_dependencies` of dpkg.c takes it apart. */
module DependencyText {
  import opened Bits
  import opened CanonicalCode
  import opened Versions
  import opened StatusWords

  const COMMA: byte := 44
  const BAR: byte := 124
  const OPEN: byte := 40
  const CLOSE: byte := 41
  const LESS: byte := 60
  const EQUAL: byte := 61
  const GREATER: byte := 62

  /** "ANY" */
  const ANY_VERSION: Text := [65, 78, 89]

  /** One alternative; an operator that the code leaves unset is `None`. */
  datatype Alternative = Alternative(name: Text, version: Text, operator: Option<Operator>)

  /** One dependency: its text, and its alternatives. */
  datatype Clause = Clause(text: Text, alts: seq<Alternative>)

  /** The process goes on, follows a null pointer, or gives up with "illegal operator". */
  datatype Reading<T> = Read(value: T) | NullPointer | IllegalOperator

  // ----- what is read

  /** `strtok_r`: the next token and what is behind it. */
  function NextToken(s: Text, d: byte): (r: Option<(Text, Text)>)
    ensures r.Some? ==> r.value.0 != [] && d !in r.value.0 && |r.value.1| < |s|
  {
    var u := s[RunOf(s, [d])..];
    var n := Before(u, [d]);
    if u == [] then None else Some((u[..n], if n < |u| then u[n + 1..] else []))
  }

  function Tokens(s: Text, d: byte): seq<Text>
    decreases |s|
  {
    match NextToken(s, d)
    case None => []
    case Some((t, rest)) => [t] + Tokens(rest, d)
  }

  /** `strncmp(s, literal, n) == 0` for `n` operator characters. */
  predicate SameStart(s: Text, literal: Text, n: nat)
  {
    n <= |literal| && n <= |s| && s[..n] == literal[..n]
  }

  /** The operator written with the first `n` characters; none of them leaves it unset. */
  function OperatorAt(s: Text, n: nat): Reading<Option<Operator>>
  {
    if n == 0 then Read(None)
    else if SameStart(s, [EQUAL], n) then Read(Some(Equal))
    else if SameStart(s, [LESS, LESS], n) then Read(Some(Less))
    else if SameStart(s, [LESS, EQUAL], n) then Read(Some(LessEqual))
    else if SameStart(s, [GREATER, GREATER], n) then Read(Some(More))
    else if SameStart(s, [GREATER, EQUAL], n) then Read(Some(MoreEqual))
    else IllegalOperator
  }

  function SkipOf(s: Text, of: Text): Text { s[RunOf(s, of)..] }
  function UpTo(s: Text, of: Text): Text { s[..Before(s, of)] }

  /** What stands behind the opening parenthesis. */
  function ReadCondition(name: Text, v: Text): Reading<Alternative>
  {
    var n := RunOf(v, [LESS, EQUAL, GREATER]);
    match OperatorAt(v, n)
    case Read(op) => Read(Alternative(name, UpTo(SkipOf(v[n..], [SPACE]), [SPACE, CLOSE]), op))
    case _ => IllegalOperator
  }

  function ReadTrimmed(f: Text): Reading<Alternative>
  {
    var name, k := UpTo(f, [SPACE, OPEN]), Before(f, [OPEN]);
    if k == |f| then Read(Alternative(name, ANY_VERSION, Some(Any)))
    else ReadCondition(name, SkipOf(f[k..], [SPACE, OPEN]))
  }

  function ReadAlternative(text: Text): Reading<Alternative> { ReadTrimmed(SkipOf(text, [SPACE])) }

  function Prepend<T>(done: seq<T>, r: Reading<seq<T>>): Reading<seq<T>>
  {
    match r
    case Read(more) => Read(done + more)
    case _ => r
  }

  lemma PrependTwice<T>(a: seq<T>, b: seq<T>, r: Reading<seq<T>>)
    ensures Prepend(a, Prepend(b, r)) == Prepend(a + b, r)
  {
    if r.Read? {
      assert a + (b + r.value) == a + b + r.value;
    }
  }

  lemma PrependNothing<T>(r: Reading<seq<T>>)
    ensures Prepend([], r) == r
  {
    if r.Read? {
      assert [] + r.value == r.value;
    }
  }

  function ReadAlternatives(ts: seq<Text>): Reading<seq<Alternative>>
  {
    if ts == [] then Read([])
    else
      match ReadAlternative(ts[0])
      case Read(a) => Prepend([a], ReadAlternatives(ts[1..]))
      case _ => IllegalOperator
  }

  /** A field without an alternative makes `strtok_r` return the null pointer that is then used. */
  function ReadClause(field: Text): Reading<Clause>
  {
    var f := SkipOf(field, [SPACE]);
    var ts := Tokens(f, BAR);
    if ts == [] then NullPointer
    else
      match ReadAlternatives(ts)
      case Read(alts) => Read(Clause(f, alts))
      case NullPointer => NullPointer
      case IllegalOperator => IllegalOperator
  }

  function ReadClauses(fields: seq<Text>): Reading<seq<Clause>>
  {
    if fields == [] then Read([])
    else
      match ReadClause(fields[0])
      case Read(c) => Prepend([c], ReadClauses(fields[1..]))
      case NullPointer => NullPointer
      case IllegalOperator => IllegalOperator
  }

  function ReadLine(line: Text): Reading<seq<Clause>>
  {
    var fields := Tokens(line, COMMA);
    if fields == [] then NullPointer else ReadClauses(fields)
  }

  // ----- when a field has no alternative

  lemma NoToken(s: Text, d: byte)
    ensures Tokens(s, d) == [] <==> AllAre(s, d)
  {
    var n := RunOf(s, [d]);
    assert n < |s| ==> s[n] != d;
    assert forall i :: 0 <= i < n ==> s[i] == d;
  }

  predicate AllAre(s: Text, d: byte) { forall i :: 0 <= i < |s| ==> s[i] == d }

  /** Spaces, and bars behind them. */
  predicate OnlyBars(field: Text, n: nat)
  {
    n <= |field| && forall i :: 0 <= i < |field| ==> field[i] == if i < n then SPACE else BAR
  }

  /** A field is lost on a null pointer exactly when it holds nothing but spaces, and bars behind them. */
  lemma ClauseCrashes(field: Text)
    ensures ReadClause(field) == NullPointer <==> exists n: nat :: OnlyBars(field, n)
  {
    hide Tokens, ReadAlternatives, SkipOf;
    var f := SkipOf(field, [SPACE]);
    NoToken(f, BAR);
    AlternativesNeverNull(Tokens(f, BAR));
    BarsBehind(field);
  }

  lemma BarsBehind(field: Text)
    ensures AllAre(SkipOf(field, [SPACE]), BAR) <==> exists n: nat :: OnlyBars(field, n)
  {
    var n := RunOf(field, [SPACE]);
    var f := SkipOf(field, [SPACE]);
    if AllAre(f, BAR) {
      forall i | 0 <= i < |field|
        ensures field[i] == if i < n then SPACE else BAR
      {
        if i < n {
          assert field[i] in [SPACE];
        } else {
          assert field[i] == f[i - n];
        }
      }
      assert OnlyBars(field, n);
    }
    if m: nat :| OnlyBars(field, m) {
      RunIs(field, [SPACE], m);
      forall i | 0 <= i < |f|
        ensures f[i] == BAR
      {
        assert f[i] == field[m + i];
      }
    }
  }

  lemma {:induction false} AlternativesNeverNull(ts: seq<Text>)
    ensures ReadAlternatives(ts) != NullPointer
  {
    if ts != [] {
      AlternativesNeverNull(ts[1..]);
    }
  }

  // ----- round trip

  function OperatorText(op: Operator): Text
  {
    match op
    case Equal => [EQUAL]
    case Less => [LESS, LESS]
    case LessEqual => [LESS, EQUAL]
    case More => [GREATER, GREATER]
    case MoreEqual => [GREATER, EQUAL]
    case Any => []
    case NoOperator => []
  }

  /** `name` or `name (op version)` */
  function PrintAlternative(a: Alternative): Text
  {
    if a.operator == Some(Any) || a.operator.None? then a.name
    else a.name + [SPACE, OPEN] + OperatorText(a.operator.value) + [SPACE] + a.version + [CLOSE]
  }

  predicate IsPart(t: Text) { SPACE !in t && COMMA !in t && BAR !in t && OPEN !in t && CLOSE !in t }

  /** What a control file may hold. */
  predicate IsAlternative(a: Alternative)
  {
    && a.name != [] && IsPart(a.name) && IsPart(a.version)
    && a.operator.Some? && a.operator.value != NoOperator && (a.operator.value == Any ==> a.version == ANY_VERSION)
  }

  function Join(ps: seq<Text>, d: byte): Text
  {
    if ps == [] then [] else if |ps| == 1 then ps[0] else ps[0] + [d] + Join(ps[1..], d)
  }

  function Gap(b: bool): Text { if b then [SPACE] else [] }

  /** Every part but the first with a space in front of it; and every part but the last with one behind it. */
  function Parts(alts: seq<Alternative>, first: bool): (r: seq<Text>)
    ensures |r| == |alts|
  {
    if alts == [] then []
    else [Gap(!first) + PrintAlternative(alts[0]) + Gap(|alts| > 1)] + Parts(alts[1..], false)
  }

  /** Alternatives with ` | ` between them, and dependencies with `, ` between them. */
  function PrintClause(alts: seq<Alternative>): Text { Join(Parts(alts, true), BAR) }

  function Fields(cs: seq<seq<Alternative>>, first: bool): (r: seq<Text>)
    ensures |r| == |cs|
  {
    if cs == [] then [] else [Gap(!first) + PrintClause(cs[0])] + Fields(cs[1..], false)
  }

  function PrintLine(cs: seq<seq<Alternative>>): Text { Join(Fields(cs, true), COMMA) }

  lemma {:induction false} TokensJoin(ps: seq<Text>, d: byte)
    requires forall i :: 0 <= i < |ps| ==> ps[i] != [] && d !in ps[i]
    ensures Tokens(Join(ps, d), d) == ps
  {
    hide NextToken;
    if ps == [] {
      TokenAtEnd([], d);
    } else if |ps| == 1 {
      TokenAtEnd(ps[0], d);
      TokenAtEnd([], d);
    } else {
      TokenBefore(ps[0], d, Join(ps[1..], d));
      TokensJoin(ps[1..], d);
    }
  }

  lemma TokenAtEnd(t: Text, d: byte)
    requires d !in t
    ensures NextToken(t, d) == if t == [] then None else Some((t, []))
  {
    RunIs(t, [d], 0);
    BeforeIs(t, [d], |t|);
    assert t[0..] == t && t[..|t|] == t;
  }

  lemma TokenBefore(t: Text, d: byte, rest: Text)
    requires t != [] && d !in t
    ensures NextToken(t + [d] + rest, d) == Some((t, rest))
  {
    var s := t + [d] + rest;
    RunIs(s, [d], 0);
    assert s[0..] == s;
    BeforeIs(s, [d], |t|);
    assert s[..|t|] == t && s[|t| + 1..] == rest;
  }

  /** Skipping nothing, skipping a run, and stopping at a delimiter. */
  lemma SkipRun(a: Text, s: Text, of: Text)
    requires (forall i :: 0 <= i < |a| ==> a[i] in of) && (s != [] ==> s[0] !in of)
    ensures SkipOf(a + s, of) == s
  {
    RunIs(a + s, of, |a|);
    assert (a + s)[|a|..] == s;
  }

  lemma StopAt(a: Text, s: Text, of: Text)
    requires (forall i :: 0 <= i < |a| ==> a[i] !in of) && (s != [] ==> s[0] in of)
    ensures UpTo(a + s, of) == a && Before(a + s, of) == |a|
  {
    BeforeIs(a + s, of, |a|);
    assert (a + s)[..|a|] == a;
  }

  /** An operator as it may be written. */
  ghost predicate AreSigns(o: Text) { o != [] && forall i :: 0 <= i < |o| ==> o[i] in [60, 61, 62] }

  /** What operator characters mean: also one `<` or `>` alone, and everything longer or mixed is illegal. */
  function SignsMean(o: Text): Reading<Option<Operator>>
  {
    if o == [61] then Read(Some(Equal))
    else if o == [60] || o == [60, 60] then Read(Some(Less))
    else if o == [60, 61] then Read(Some(LessEqual))
    else if o == [62] || o == [62, 62] then Read(Some(More))
    else if o == [62, 61] then Read(Some(MoreEqual))
    else IllegalOperator
  }

  lemma SignsRead(o: Text, rest: Text)
    requires AreSigns(o) && rest != [] && rest[0] == SPACE
    ensures var v := o + rest;
      && RunOf(v, [LESS, EQUAL, GREATER]) == |o| && v[|o|..] == rest && v[0] !in [SPACE, OPEN]
      && OperatorAt(v, |o|) == SignsMean(o)
  {
    var v := o + rest;
    assert forall i :: 0 <= i < |o| ==> o[i] in [LESS, EQUAL, GREATER];
    RunIs(v, [LESS, EQUAL, GREATER], |o|);
    assert v[..|o|] == o && v[|o|..] == rest;
    StartIs(o, [EQUAL]);
    StartIs(o, [LESS, LESS]);
    StartIs(o, [LESS, EQUAL]);
    StartIs(o, [GREATER, GREATER]);
    StartIs(o, [GREATER, EQUAL]);
  }

  /** A start of one or two characters. */
  lemma StartIs(o: Text, literal: Text)
    requires o != [] && 1 <= |literal| <= 2
    ensures |o| <= |literal| && o == literal[..|o|] <==> o == literal || o == [literal[0]]
  {
    assert literal[..1] == [literal[0]] && literal[..|literal|] == literal;
  }

  lemma PartOutside(t: Text, of: Text)
    requires IsPart(t) && forall b :: b in of ==> b == SPACE || b == OPEN || b == CLOSE
    ensures forall i :: 0 <= i < |t| ==> t[i] !in of
  {
    forall i | 0 <= i < |t|
      ensures t[i] !in of
    {
      assert t[i] in t;
    }
  }

  /** A printed alternative is read back, with or without spaces around it. */
  lemma AlternativeRead(a: Alternative, before: bool, behind: bool)
    requires IsAlternative(a)
    ensures ReadAlternative(Gap(before) + PrintAlternative(a) + Gap(behind)) == Read(a)
  {
    hide ReadTrimmed, SkipOf, IsPart, PrintAlternative, Gap;
    var f := PrintAlternative(a) + Gap(behind);
    assert Gap(before) + PrintAlternative(a) + Gap(behind) == Gap(before) + f;
    PrintedClean(a);
    Gaps(before);
    SkipRun(Gap(before), f, [SPACE]);
    if a.operator.value == Any {
      PlainRead(a, behind);
    } else {
      PrintedIs(a, Gap(behind));
      TrimmedRead(a.name, OperatorText(a.operator.value), a.version, behind);
    }
  }

  lemma Gaps(b: bool)
    ensures forall i :: 0 <= i < |Gap(b)| ==> Gap(b)[i] in [SPACE]
  {
  }

  lemma PlainRead(a: Alternative, behind: bool)
    requires IsAlternative(a) && a.operator.value == Any
    ensures ReadTrimmed(PrintAlternative(a) + Gap(behind)) == Read(a)
  {
    hide UpTo, IsPart;
    var f := a.name + Gap(behind);
    PartOutside(a.name, [SPACE, OPEN]);
    StopAt(a.name, Gap(behind), [SPACE, OPEN]);
    PartOutside(a.name, [OPEN]);
    BeforeIs(f, [OPEN], |f|);
  }

  /** The operator and the version, up to the closing parenthesis. */
  function ConditionText(o: Text, version: Text, tail: Text): Text
  {
    o + ([SPACE] + (version + ([CLOSE] + tail)))
  }

  /** The alternative with this condition, or the way the process ends. */
  function WithOperator(name: Text, version: Text, op: Reading<Option<Operator>>): Reading<Alternative>
  {
    match op
    case Read(o) => Read(Alternative(name, version, o))
    case _ => IllegalOperator
  }

  lemma TrimmedRead(name: Text, o: Text, version: Text, behind: bool)
    requires IsPart(name) && IsPart(version) && AreSigns(o)
    ensures ReadTrimmed(name + ([SPACE, OPEN] + ConditionText(o, version, Gap(behind))))
      == WithOperator(name, version, SignsMean(o))
  {
    hide ReadCondition, SkipOf, UpTo, IsPart, Gap, ConditionText, SignsMean;
    var v, head := ConditionText(o, version, Gap(behind)), name + [SPACE];
    var f := name + ([SPACE, OPEN] + v);
    PartOutside(name, [SPACE, OPEN]);
    StopAt(name, [SPACE, OPEN] + v, [SPACE, OPEN]);
    assert f == head + ([OPEN] + v);
    PartOutside(name, [OPEN]);
    StopAt(head, [OPEN] + v, [OPEN]);
    assert f[|head|..] == [OPEN] + v;
    ConditionRead(name, o, version, behind);
    SkipRun([OPEN], v, [SPACE, OPEN]);
  }

  lemma PrintedIs(a: Alternative, tail: Text)
    requires IsAlternative(a) && a.operator.value != Any
    ensures AreSigns(OperatorText(a.operator.value)) && SignsMean(OperatorText(a.operator.value)) == Read(a.operator)
    ensures PrintAlternative(a) + tail
      == a.name + ([SPACE, OPEN] + ConditionText(OperatorText(a.operator.value), a.version, tail))
  {
    hide IsPart;
    var o := OperatorText(a.operator.value);
    assert PrintAlternative(a) == a.name + [SPACE, OPEN] + o + [SPACE] + a.version + [CLOSE];
  }

  lemma ConditionRead(name: Text, o: Text, version: Text, behind: bool)
    requires IsPart(version) && AreSigns(o)
    ensures var v := ConditionText(o, version, Gap(behind));
      v != [] && v[0] !in [SPACE, OPEN] && ReadCondition(name, v) == WithOperator(name, version, SignsMean(o))
  {
    hide OperatorAt, SkipOf, UpTo, IsPart, SignsMean;
    var end := version + ([CLOSE] + Gap(behind));
    SignsRead(o, [SPACE] + end);
    PartOutside(version, [SPACE]);
    assert end[0] == if version == [] then CLOSE else version[0];
    SkipRun([SPACE], end, [SPACE]);
    PartOutside(version, [SPACE, CLOSE]);
    StopAt(version, [CLOSE] + Gap(behind), [SPACE, CLOSE]);
  }

  /**
   * `name (o version)` for every string `o` of operator characters: a single `<` or `>` means the strict comparison,
   * and whatever is none of the seven forms is illegal.
   */
  lemma ConditionMeans(name: Text, o: Text, version: Text)
    requires name != [] && IsPart(name) && IsPart(version) && o != []
    requires forall i :: 0 <= i < |o| ==> o[i] in [60, 61, 62]
    ensures var r := ReadAlternative(name + [32, 40] + o + [32] + version + [41]);
      && (o == [61] ==> r == Read(Alternative(name, version, Some(Equal))))
      && (o == [60] || o == [60, 60] ==> r == Read(Alternative(name, version, Some(Less))))
      && (o == [60, 61] ==> r == Read(Alternative(name, version, Some(LessEqual))))
      && (o == [62] || o == [62, 62] ==> r == Read(Alternative(name, version, Some(More))))
      && (o == [62, 61] ==> r == Read(Alternative(name, version, Some(MoreEqual))))
      && (o !in [[61], [60], [60, 60], [60, 61], [62], [62, 62], [62, 61]] ==> r == IllegalOperator)
  {
    hide ReadTrimmed, SkipOf, IsPart;
    var f := name + ([SPACE, OPEN] + ConditionText(o, version, Gap(false)));
    assert name + [32, 40] + o + [32] + version + [41] == f;
    TrimmedRead(name, o, version, false);
    PartOutside(name, [SPACE]);
    assert f[0] == name[0];
    SkipRun([], f, [SPACE]);
    assert [] + f == f;
  }

  ghost predicate AreAlternatives(alts: seq<Alternative>)
  {
    forall i :: 0 <= i < |alts| ==> IsAlternative(alts[i])
  }

  lemma {:induction false} PartsRead(alts: seq<Alternative>, first: bool)
    requires AreAlternatives(alts)
    ensures ReadAlternatives(Parts(alts, first)) == Read(alts)
    decreases |alts|
  {
    hide ReadAlternative, PrintAlternative, IsAlternative, Gap;
    if alts != [] {
      var ps := Parts(alts, first);
      AlternativeRead(alts[0], !first, |alts| > 1);
      assert ps[1..] == Parts(alts[1..], false);
      PartsRead(alts[1..], false);
      assert alts == [alts[0]] + alts[1..];
    }
  }

  lemma PrintedClean(a: Alternative)
    requires IsAlternative(a)
    ensures PrintAlternative(a) != [] && BAR !in PrintAlternative(a) && COMMA !in PrintAlternative(a)
    ensures PrintAlternative(a)[0] != SPACE
  {
    assert a.name[0] in a.name;
  }

  lemma {:induction false} PartsClean(alts: seq<Alternative>, first: bool)
    requires AreAlternatives(alts)
    ensures forall i :: 0 <= i < |alts| ==> var p := Parts(alts, first)[i]; p != [] && BAR !in p && COMMA !in p
    ensures first && alts != [] ==> Parts(alts, first)[0][0] != SPACE
    decreases |alts|
  {
    hide PrintAlternative, IsAlternative;
    if alts != [] {
      PrintedClean(alts[0]);
      PartsClean(alts[1..], false);
      var ps := Parts(alts, first);
      assert forall i :: 1 <= i < |ps| ==> ps[i] == Parts(alts[1..], false)[i - 1];
    }
  }

  lemma {:induction false} JoinClean(ps: seq<Text>, d: byte, b: byte)
    requires b != d && forall i :: 0 <= i < |ps| ==> ps[i] != [] && b !in ps[i]
    ensures b !in Join(ps, d) && (ps != [] ==> Join(ps, d) != [] && Join(ps, d)[0] == ps[0][0])
    decreases |ps|
  {
    if |ps| > 1 {
      JoinClean(ps[1..], d, b);
    }
  }

  /** A printed dependency is read back as its alternatives. */
  lemma ClauseRead(alts: seq<Alternative>, gap: bool)
    requires AreAlternatives(alts) && alts != []
    ensures ReadClause(Gap(gap) + PrintClause(alts)) == Read(Clause(PrintClause(alts), alts))
    ensures PrintClause(alts) != [] && COMMA !in PrintClause(alts)
  {
    hide Parts, Join, Tokens, ReadAlternatives, SkipOf, AreAlternatives;
    var ps := Parts(alts, true);
    PartsClean(alts, true);
    JoinClean(ps, BAR, COMMA);
    TokensJoin(ps, BAR);
    PartsRead(alts, true);
    SkipRun(Gap(gap), PrintClause(alts), [SPACE]);
  }

  function Clauses(cs: seq<seq<Alternative>>): seq<Clause>
  {
    if cs == [] then [] else [Clause(PrintClause(cs[0]), cs[0])] + Clauses(cs[1..])
  }

  ghost predicate AreClauses(cs: seq<seq<Alternative>>)
  {
    forall i :: 0 <= i < |cs| ==> cs[i] != [] && AreAlternatives(cs[i])
  }

  lemma {:induction false} FieldsRead(cs: seq<seq<Alternative>>, first: bool)
    requires AreClauses(cs)
    ensures ReadClauses(Fields(cs, first)) == Read(Clauses(cs))
    ensures forall i :: 0 <= i < |cs| ==> Fields(cs, first)[i] != [] && COMMA !in Fields(cs, first)[i]
    decreases |cs|
  {
    hide ReadClause, PrintClause, AreAlternatives;
    if cs != [] {
      var fs := Fields(cs, first);
      ClauseRead(cs[0], !first);
      assert fs[1..] == Fields(cs[1..], false);
      FieldsRead(cs[1..], false);
      assert forall i :: 1 <= i < |fs| ==> fs[i] == Fields(cs[1..], false)[i - 1];
    }
  }

  /** Whatever list of dependencies is printed, with spaces as control files have them, is read back. */
  lemma LineRead(cs: seq<seq<Alternative>>)
    requires AreClauses(cs) && cs != []
    ensures ReadLine(PrintLine(cs)) == Read(Clauses(cs))
  {
    hide Fields, Join, Tokens, ReadClauses, AreClauses;
    FieldsRead(cs, true);
    TokensJoin(Fields(cs, true), COMMA);
  }

  /** `a, b | c` is a dependency on `a` and one on `b` or `c`, each in any version. */
  lemma NamesMean(a: Text, b: Text, c: Text)
    requires a != [] && b != [] && c != [] && IsPart(a) && IsPart(b) && IsPart(c)
    ensures ReadLine(a + [44, 32] + b + [32, 124, 32] + c)
         == Read([Clause(a, [Alternative(a, [65, 78, 89], Some(Any))]),
                  Clause(b + [32, 124, 32] + c, [Alternative(b, [65, 78, 89], Some(Any)),
                                                 Alternative(c, [65, 78, 89], Some(Any))])])
  {
    hide Tokens, ReadClauses, IsPart;
    var one, two := [Anything(a)], [Anything(b), Anything(c)];
    AnyIsPart();
    assert AreClauses([one, two]);
    PrintOne(a);
    PrintTwo(b, c);
    LinePrinted(one, two);
    assert a + [COMMA] + ([SPACE] + (b + [32, 124, 32] + c)) == a + [44, 32] + b + [32, 124, 32] + c;
    LineRead([one, two]);
  }

  function Anything(name: Text): Alternative { Alternative(name, ANY_VERSION, Some(Any)) }

  lemma AnyIsPart()
    ensures IsPart(ANY_VERSION)
  {
  }

  lemma LinePrinted(one: seq<Alternative>, two: seq<Alternative>)
    ensures PrintLine([one, two]) == PrintClause(one) + [COMMA] + ([SPACE] + PrintClause(two))
    ensures Clauses([one, two]) == [Clause(PrintClause(one), one), Clause(PrintClause(two), two)]
  {
    hide PrintClause;
    var cs := [one, two];
    assert cs[1..] == [two] && [two][1..] == [];
    var p := [] + PrintClause(one);
    assert p == PrintClause(one);
    var fs := Fields(cs, true);
    assert fs[1..] == Fields([two], false);
    assert fs[0] == p && fs[1] == [SPACE] + PrintClause(two);
    JoinTwo(fs, COMMA);
    assert Clauses([two]) == [Clause(PrintClause(two), two)] + [];
  }

  lemma JoinTwo(ps: seq<Text>, d: byte)
    requires |ps| == 2
    ensures Join(ps, d) == ps[0] + [d] + ps[1]
  {
    assert Join(ps[1..], d) == ps[1];
  }

  lemma PrintOne(a: Text)
    ensures PrintClause([Anything(a)]) == a
  {
    assert Parts([Anything(a)], true)[0] == [] + a + [];
  }

  lemma PrintTwo(a: Text, b: Text)
    ensures PrintClause([Anything(a), Anything(b)]) == a + [32, 124, 32] + b
  {
    var alts := [Anything(a), Anything(b)];
    assert alts[1..] == [Anything(b)] && [Anything(b)][1..] == [];
    var ps := Parts(alts, true);
    assert ps[1..] == Parts([Anything(b)], false);
    assert ps[0] == [] + a + [SPACE] && ps[1] == [SPACE] + b + [];
    JoinTwo(ps, BAR);
    assert ps[0] + [BAR] + ps[1] == a + [32, 124, 32] + b;
  }
}
