/** What the dependency check means for the status lines of the packages. */
module DependencyLaws {
  import opened Versions
  import opened VersionText
  import opened DpkgTables
  import opened Dependencies

  /** The name under which the status of a package is kept. */
  function PackageName(w: World, p: nat): Text
  {
    if IsPackage(w.packages, p) then NameAt(w.names, w.packages[p].value.name) else []
  }

  /** A package that the edge may mean: it has the name and a version asked for, or provides the name. */
  ghost predicate Candidate(w: World, p: nat, e: Edge)
  {
    Fulfils(w, p, e) || Provider(w, p, e.name)
  }

  lemma {:induction false} GroupsHold(es: seq<Edge>)
    requires WellFormed(es)
    ensures forall g, a :: 0 <= g < |Groups(es)| && 0 <= a < |Groups(es)[g]| ==>
      Groups(es)[g][a] in es && IsDependency(Groups(es)[g][a].kind)
    decreases |es|
  {
    if es != [] {
      var n := if IsRoot(es[0].kind) then 1 + es[0].version else 1;
      GroupsHold(es[n..]);
      assert forall e :: e in es[n..] ==> e in es;
      if IsRoot(es[0].kind) {
        assert forall i :: 1 <= i < n ==> es[1..n][i - 1] == es[i];
      }
    }
  }

  /** Some status of the package's name has this word at place `num`. */
  ghost predicate Says(w: World, p: nat, num: nat, word: Text)
    requires num >= 1
  {
    IsPackage(w.packages, p) && HasWord(w, PackageName(w, p), num, word)
  }

  /** The package has this group of alternatives in its list. */
  ghost predicate DependsOn(w: World, i: nat, g: seq<Edge>)
    requires ListsOk(w)
  {
    IsPackage(w.packages, i) && g in Groups(w.packages[i].value.edges)
  }

  /** Some alternative may mean a package that says so. */
  ghost predicate SomeSays(w: World, g: seq<Edge>, num: nat, word: Text)
    requires num >= 1
  {
    exists a, p: nat :: 0 <= a < |g| && Candidate(w, p, g[a]) && Says(w, p, num, word)
  }

  /** A pre-dependency is met by "installed" as the third word, a dependency by "install" as the first. */
  lemma MetMeans(w: World, e: Edge, p: nat)
    requires Candidate(w, p, e)
    ensures e.kind == PreDepends && Says(w, p, 3, [105, 110, 115, 116, 97, 108, 108, 101, 100]) ==> Met(w, e)
    ensures e.kind == Depends && Says(w, p, 1, [105, 110, 115, 116, 97, 108, 108]) ==> Met(w, e)
  {
    hide HasWord, Fulfils, Provider;
    assert INSTALLED == [105, 110, 115, 116, 97, 108, 108, 101, 100];
  }

  lemma MetCandidate(w: World, e: Edge)
    requires Met(w, e)
    ensures exists p: nat :: Candidate(w, p, e) && Satisfies(w, p, e.kind)
  {
    hide Satisfies, Fulfils, Provider;
    if p: nat :| Fulfils(w, p, e) && Satisfies(w, p, e.kind) {
      assert Candidate(w, p, e);
    } else {
      var p: nat :| Provider(w, p, e.name) && Satisfies(w, p, e.kind);
      assert Candidate(w, p, e);
    }
  }

  lemma SatisfiesSays(w: World, p: nat, kind: EdgeKind)
    requires Satisfies(w, p, kind)
    ensures kind == PreDepends ==> Says(w, p, 3, [105, 110, 115, 116, 97, 108, 108, 101, 100])
    ensures kind == Depends ==> Says(w, p, 1, [105, 110, 115, 116, 97, 108, 108])
  {
    hide HasWord;
    assert INSTALLED == [105, 110, 115, 116, 97, 108, 108, 101, 100];
  }

  lemma MetBy(w: World, e: Edge) returns (p: nat)
    requires Met(w, e)
    ensures Candidate(w, p, e)
    ensures e.kind == PreDepends ==> Says(w, p, 3, [105, 110, 115, 116, 97, 108, 108, 101, 100])
    ensures e.kind == Depends ==> Says(w, p, 1, [105, 110, 115, 116, 97, 108, 108])
  {
    hide HasWord, Candidate, Satisfies, Says;
    MetCandidate(w, e);
    p :| Candidate(w, p, e) && Satisfies(w, p, e.kind);
    SatisfiesSays(w, p, e.kind);
  }

  /**
   * The check passes if each dependency of each package with the first word "install" has a candidate that says
   * "install" as its first word too, and each pre-dependency one that says "installed" as its third.
   */
  lemma Passes(w: World)
    requires ListsOk(w)
    requires forall i: nat, g :: DependsOn(w, i, g) && Says(w, i, 1, [105, 110, 115, 116, 97, 108, 108]) ==>
      Provided(w, g)
    ensures DependenciesMet(w)
  {
    hide HasWord, Candidate, Met, Groups, WellFormed;
    forall i: nat | ToInstall(w, i)
      ensures AllMet(w, Groups(w.packages[i].value.edges))
    {
      assert Says(w, i, 1, [105, 110, 115, 116, 97, 108, 108]);
      var gs := Groups(w.packages[i].value.edges);
      GroupsHold(w.packages[i].value.edges);
      forall g | 0 <= g < |gs|
        ensures AnyMet(w, gs[g])
      {
        assert DependsOn(w, i, gs[g]);
        ProvidedIsMet(w, gs[g]);
      }
    }
  }

  /** All alternatives are dependencies, or all are pre-dependencies, and one of them has such a candidate. */
  ghost predicate Provided(w: World, g: seq<Edge>)
  {
    || ((forall a :: 0 <= a < |g| ==> g[a].kind == Depends) && SomeSays(w, g, 1, [105, 110, 115, 116, 97, 108, 108]))
    || ((forall a :: 0 <= a < |g| ==> g[a].kind == PreDepends)
        && SomeSays(w, g, 3, [105, 110, 115, 116, 97, 108, 108, 101, 100]))
  }

  lemma ProvidedIsMet(w: World, g: seq<Edge>)
    requires Provided(w, g)
    ensures AnyMet(w, g)
  {
    hide Candidate, Met, HasWord, Says;
    var num, word: Text := 1, [105, 110, 115, 116, 97, 108, 108];
    if !SomeSays(w, g, 1, word) || g[0].kind != Depends {
      num, word := 3, [105, 110, 115, 116, 97, 108, 108, 101, 100];
    }
    var a, p: nat :| 0 <= a < |g| && Candidate(w, p, g[a]) && Says(w, p, num, word);
    MetMeans(w, g[a], p);
  }

  /** No list holds a pre-dependency, and the packages to be installed can be had from among themselves: it passes. */
  lemma PassesAmongWanted(w: World)
    requires ListsOk(w)
    requires forall i: nat, e :: IsPackage(w.packages, i) && e in w.packages[i].value.edges ==> e.kind != PreDepends
    requires forall i: nat, g :: DependsOn(w, i, g) && Says(w, i, 1, [105, 110, 115, 116, 97, 108, 108]) ==>
      SomeSays(w, g, 1, [105, 110, 115, 116, 97, 108, 108])
    ensures DependenciesMet(w)
  {
    hide HasWord, Candidate, DependenciesMet, Groups, WellFormed;
    forall i: nat, g | DependsOn(w, i, g) && Says(w, i, 1, [105, 110, 115, 116, 97, 108, 108])
      ensures Provided(w, g)
    {
      GroupsHold(w.packages[i].value.edges);
      var k :| 0 <= k < |Groups(w.packages[i].value.edges)| && Groups(w.packages[i].value.edges)[k] == g;
    }
    Passes(w);
  }

  /** A pre-dependency of a package to be installed with no candidate that is installed: the check fails. */
  lemma FailsWithoutInstalled(w: World, i: nat, g: seq<Edge>)
    requires ListsOk(w) && Says(w, i, 1, [105, 110, 115, 116, 97, 108, 108])
    requires DependsOn(w, i, g) && forall a :: 0 <= a < |g| ==> g[a].kind == PreDepends
    requires !SomeSays(w, g, 3, [105, 110, 115, 116, 97, 108, 108, 101, 100])
    ensures !DependenciesMet(w)
  {
    hide HasWord, Candidate, Met, Groups, WellFormed;
    if DependenciesMet(w) {
      var a := MetAlternative(w, i, g);
      var p := MetBy(w, g[a]);
    }
  }

  /** A dependency of a package to be installed with no candidate that is to be installed: the check fails. */
  lemma FailsWithoutWanted(w: World, i: nat, g: seq<Edge>)
    requires ListsOk(w) && Says(w, i, 1, [105, 110, 115, 116, 97, 108, 108])
    requires DependsOn(w, i, g) && forall a :: 0 <= a < |g| ==> g[a].kind == Depends
    requires !SomeSays(w, g, 1, [105, 110, 115, 116, 97, 108, 108])
    ensures !DependenciesMet(w)
  {
    hide HasWord, Candidate, Met, Groups, WellFormed;
    if DependenciesMet(w) {
      var a := MetAlternative(w, i, g);
      var p := MetBy(w, g[a]);
    }
  }

  lemma MetAlternative(w: World, i: nat, g: seq<Edge>) returns (a: nat)
    requires ListsOk(w) && DependenciesMet(w) && Says(w, i, 1, [105, 110, 115, 116, 97, 108, 108])
    requires DependsOn(w, i, g)
    ensures a < |g| && Met(w, g[a])
  {
    hide HasWord, Met, Groups, WellFormed;
    assert ToInstall(w, i);
    var gs := Groups(w.packages[i].value.edges);
    var k :| 0 <= k < |gs| && gs[k] == g;
    assert AnyMet(w, gs[k]);
    a :| 0 <= a < |g| && Met(w, g[a]);
  }

  /**
   * A package with a higher number behind a common start of the versions has what "at least" and "later" ask for, and
   * not what "at most" and "earlier" ask for; the other way round for a lower one.
   */
  lemma NewerFulfils(N: Names, n: Node, version: nat, p: Text, d: Text, e: Text, s: Text, t: Text)
    requires NameAt(N, n.version) == p + (d + s) && NameAt(N, version) == p + (e + t)
    requires p == [] || !(48 <= p[|p| - 1] <= 57)
    requires AreDigits(d) && AreDigits(e) && d != [] && e != []
    requires (s == [] || StartsPlain(s)) && (t == [] || StartsPlain(t))
    requires EpochFixed(p, d + s) && EpochFixed(p, e + t) && SameSide(p, s, t)
    ensures NumberOrder(d, e) > 0 ==>
      && Wanted(N, n.name, version, More)(n) && Wanted(N, n.name, version, MoreEqual)(n)
      && !Wanted(N, n.name, version, Less)(n) && !Wanted(N, n.name, version, LessEqual)(n)
    ensures NumberOrder(d, e) < 0 ==>
      && Wanted(N, n.name, version, Less)(n) && Wanted(N, n.name, version, LessEqual)(n)
      && !Wanted(N, n.name, version, More)(n) && !Wanted(N, n.name, version, MoreEqual)(n)
    ensures Wanted(N, n.name, version, Any)(n)
    ensures forall op, name :: name != n.name ==> !Wanted(N, name, version, op)(n)
  {
    hide Test, NumberOrder, StartsPlain, EpochFixed;
    NumberOrderIs(d, e);
    NumberOrderIs(e, d);
    if NumberOrder(d, e) < 0 {
      OperatorsOnNumbers(p, d, e, s, t);
    } else if NumberOrder(d, e) > 0 {
      OperatorsOnNumbers(p, e, d, t, s);
    }
  }
}
