/** `search_for_provides` and the dependency loop of `check_deps`. */
module Dependencies {
  import opened CanonicalCode
  import opened Versions
  import opened StatusWords
  import opened HashTables
  import opened DpkgTables

  predicate IsDependency(k: EdgeKind) { k == PreDepends || k == Depends }
  predicate IsRoot(k: EdgeKind) { k == OrPreDepends || k == OrDepends }

  /** The kind of the alternatives behind a root. */
  function AltKind(k: EdgeKind): EdgeKind { if k == OrPreDepends then PreDepends else Depends }

  /** A root is followed by as many alternatives of its kind as its `version` says. */
  ghost predicate WellFormed(es: seq<Edge>)
    decreases |es|
  {
    es != [] ==>
      if IsRoot(es[0].kind) then
        && 1 <= es[0].version < |es|
        && (forall i :: 1 <= i <= es[0].version ==> es[i].kind == AltKind(es[0].kind))
        && WellFormed(es[1 + es[0].version..])
      else WellFormed(es[1..])
  }

  /** The dependencies of a package, each a list of alternatives. */
  ghost function Groups(es: seq<Edge>): seq<seq<Edge>>
    requires WellFormed(es)
    decreases |es|
  {
    if es == [] then []
    else if IsRoot(es[0].kind) then [es[1..1 + es[0].version]] + Groups(es[1 + es[0].version..])
    else if IsDependency(es[0].kind) then [[es[0]]] + Groups(es[1..])
    else Groups(es[1..])
  }

  /** The three tables. */
  datatype World = World(names: Names, packages: Packages, statuses: Statuses)

  /** "install" and "installed". */
  const INSTALL: Text := [105, 110, 115, 116, 97, 108, 108]
  const INSTALLED: Text := INSTALL + [101, 100]

  predicate ProvidesName(n: Node, name: nat)
  {
    exists j :: 0 <= j < |n.edges| && n.edges[j].kind == Provides && n.edges[j].name == name
  }

  predicate Provider(w: World, p: nat, name: nat)
  {
    IsPackage(w.packages, p) && ProvidesName(w.packages[p].value, name)
  }

  function LineAt(w: World, a: nat): Text
  {
    if a < |w.statuses| && w.statuses[a].Some? then NameAt(w.names, w.statuses[a].value.status) else []
  }

  /** Some status of that package name has this word at place `num`. */
  ghost predicate HasWord(w: World, key: Text, num: nat, word: Text)
    requires num >= 1
  {
    exists s :: 0 <= s < STATUS_HASH_PRIME && s < |w.statuses| && w.statuses[s].Some?
      && StatusName(w.names, w.packages, w.statuses[s].value) == key && Word(LineAt(w, s), num) == word
  }

  /** An installed package satisfies a pre-dependency, one that is to be installed a dependency. */
  ghost predicate Satisfies(w: World, p: nat, kind: EdgeKind)
  {
    && IsPackage(w.packages, p)
    && var key := NameAt(w.names, w.packages[p].value.name);
       (kind == PreDepends && HasWord(w, key, 3, INSTALLED)) || (kind == Depends && HasWord(w, key, 1, INSTALL))
  }

  /** The package has the name and a version that the edge asks for. */
  ghost predicate Fulfils(w: World, p: nat, e: Edge)
  {
    IsPackage(w.packages, p) && Wanted(w.names, e.name, e.version, e.operator)(w.packages[p].value)
  }

  /** A package of the wanted name and version, or one that provides the name, satisfies the edge. */
  ghost predicate Met(w: World, e: Edge)
  {
    || (exists p: nat :: Fulfils(w, p, e) && Satisfies(w, p, e.kind))
    || exists p: nat :: Provider(w, p, e.name) && Satisfies(w, p, e.kind)
  }

  /** The package is to be installed. */
  ghost predicate ToInstall(w: World, p: nat)
  {
    IsPackage(w.packages, p) && HasWord(w, NameAt(w.names, w.packages[p].value.name), 1, INSTALL)
  }

  ghost predicate AnyMet(w: World, g: seq<Edge>)
  {
    exists i :: 0 <= i < |g| && Met(w, g[i])
  }

  ghost predicate AllMet(w: World, gs: seq<seq<Edge>>)
  {
    forall i :: 0 <= i < |gs| ==> AnyMet(w, gs[i])
  }

  /** An edge is made of strings in the table, and the search for it ends. */
  ghost predicate EdgeOk(w: World, e: Edge)
  {
    !IsRoot(e.kind) ==>
      && IsName(w.names, e.name) && (e.operator != Any ==> IsName(w.names, e.version))
      && Stops(w.packages, PACKAGE_HASH_PRIME, Wanted(w.names, e.name, e.version, e.operator))
  }

  ghost predicate EdgesOk(w: World, es: seq<Edge>) { forall j :: 0 <= j < |es| ==> EdgeOk(w, es[j]) }

  ghost predicate StatusOk(w: World)
  {
    && (forall s :: 0 <= s < STATUS_HASH_PRIME && s < |w.statuses| && w.statuses[s].Some? ==>
         IsName(w.names, w.statuses[s].value.status))
    && forall p: nat :: IsPackage(w.packages, p) ==>
         Stops(w.statuses, STATUS_HASH_PRIME, Of(w.names, w.packages, NameAt(w.names, w.packages[p].value.name)))
  }

  /** What the loop looks up ends, and leads to strings in the table. */
  ghost predicate WorldOk(w: World)
  {
    StatusOk(w) && forall p: nat :: IsPackage(w.packages, p) ==> EdgesOk(w, w.packages[p].value.edges)
  }

  /** The words that are looked up, and so entered in the name table. */
  ghost function Words(w: World): set<Text>
  {
    {INSTALL, INSTALLED}
    + (set s | 0 <= s < |w.statuses| :: Word(LineAt(w, s), 1))
    + (set s | 0 <= s < |w.statuses| :: Word(LineAt(w, s), 3))
  }

  /** The tables are as in `w`, but for the words entered since. */
  ghost predicate Holds(t: Tables, w: World)
    reads t.names, t.packages, t.statuses
  {
    && t.Valid() && t.packages[..] == w.packages && t.statuses[..] == w.statuses
    && GoodPackages(t.hash, w.names, w.packages) && OneStatus(w.names, w.packages, w.statuses)
    && GoodStatuses(t.hash, w.names, w.packages, w.statuses)
    && Grown(w.names, t.names[..]) && Room(t.names[..], Words(w))
  }

  // ----- the same strings, before and after words were entered

  lemma SameName(N: Names, N': Names, i: nat)
    requires Grown(N, N') && IsName(N, i)
    ensures NameAt(N', i) == NameAt(N, i) && IsName(N', i)
  {
  }

  lemma SameStatusName(hash: HashFunction, w: World, N': Names, s: nat)
    requires GoodPackages(hash, w.names, w.packages) && GoodStatuses(hash, w.names, w.packages, w.statuses)
    requires Grown(w.names, N')
    requires s < STATUS_HASH_PRIME && w.statuses[s].Some?
    ensures StatusName(N', w.packages, w.statuses[s].value) == StatusName(w.names, w.packages, w.statuses[s].value)
  {
    hide OnPath, Reachable, OneStatus;
    var p := w.statuses[s].value.package;
    assert IsPackage(w.packages, p);
    SameName(w.names, N', w.packages[p].value.name);
  }

  lemma SameWanted(hash: HashFunction, w: World, N': Names, e: Edge, p: nat)
    requires GoodPackages(hash, w.names, w.packages) && Grown(w.names, N') && IsPackage(w.packages, p)
    requires e.operator != Any ==> IsName(w.names, e.version)
    ensures Wanted(N', e.name, e.version, e.operator)(w.packages[p].value)
      == Wanted(w.names, e.name, e.version, e.operator)(w.packages[p].value)
  {
    hide OnPath, Reachable, Test;
    SameName(w.names, N', w.packages[p].value.version);
    if e.operator != Any {
      SameName(w.names, N', e.version);
    }
  }

  lemma StillStops(hash: HashFunction, w: World, N': Names, e: Edge)
    requires GoodPackages(hash, w.names, w.packages) && Grown(w.names, N') && EdgeOk(w, e) && !IsRoot(e.kind)
    ensures Stops(w.packages, PACKAGE_HASH_PRIME, Wanted(N', e.name, e.version, e.operator))
  {
    hide GoodPackages, Wanted;
    var accept := Wanted(w.names, e.name, e.version, e.operator);
    var s :| 0 <= s < PACKAGE_HASH_PRIME && (w.packages[s].Some? ==> accept(w.packages[s].value));
    if w.packages[s].Some? {
      SameWanted(hash, w, N', e, s);
    }
  }

  lemma StatusStops(hash: HashFunction, w: World, N': Names, key: Text)
    requires GoodPackages(hash, w.names, w.packages) && GoodStatuses(hash, w.names, w.packages, w.statuses)
    requires Grown(w.names, N')
    requires Stops(w.statuses, STATUS_HASH_PRIME, Of(w.names, w.packages, key))
    ensures Stops(w.statuses, STATUS_HASH_PRIME, Of(N', w.packages, key))
  {
    hide GoodPackages, GoodStatuses, StatusName;
    var accept := Of(w.names, w.packages, key);
    var s :| 0 <= s < STATUS_HASH_PRIME && (w.statuses[s].Some? ==> accept(w.statuses[s].value));
    if w.statuses[s].Some? {
      SameStatusName(hash, w, N', s);
      assert Of(N', w.packages, key)(w.statuses[s].value);
    }
  }

  // ----- the lookups

  /** `get_status(...) == search_name_hashtable(...)`: equal indices are equal words. */
  method IsWordAt(t: Tables, ghost w: World, a: nat, num: nat, word: Text) returns (b: bool)
    requires Holds(t, w) && StatusOk(w) && a < STATUS_HASH_PRIME && w.statuses[a].Some?
    requires (num == 1 || num == 3) && (word == INSTALL || word == INSTALLED)
    modifies t.names
    ensures Holds(t, w) && b == (Word(LineAt(w, a), num) == word)
  {
    hide GoodPackages, GoodStatuses, OneStatus, GoodNames, Room, Word, Stops;
    assert t.statuses[a] == t.statuses[..][a] == w.statuses[a];
    SameName(w.names, t.names[..], w.statuses[a].value.status);
    ghost var line := LineAt(w, a);
    WordsIn(w, a, num);
    RoomStops(t.names[..], Words(w), Word(line, num));
    var i := t.GetStatus(a, num);
    RoomStops(t.names[..], Words(w), word);
    ghost var N := t.names[..];
    var j := t.SearchName(word);
    b := i == j;
    SameIndex(t.hash, N, t.names[..], i, j, Word(line, num), word);
  }

  lemma WordsIn(w: World, a: nat, num: nat)
    requires a < |w.statuses| && (num == 1 || num == 3)
    ensures Word(LineAt(w, a), num) in Words(w) && INSTALL in Words(w) && INSTALLED in Words(w)
  {
  }

  /** Whether the status of a package name has a word; false if it has no status. */
  method StatusHas(t: Tables, ghost w: World, p: nat, num: nat, word: Text) returns (b: bool)
    requires Holds(t, w) && WorldOk(w) && IsPackage(w.packages, p)
    requires (num == 1 || num == 3) && (word == INSTALL || word == INSTALLED)
    modifies t.names
    ensures Holds(t, w) && b == HasWord(w, NameAt(w.names, w.packages[p].value.name), num, word)
  {
    hide GoodPackages, GoodStatuses, GoodNames, OneStatus, Room, Word, Stops, StatusName, Words, EdgesOk;
    assert t.packages[p] == t.packages[..][p] == w.packages[p];
    PackageNamed(t.hash, w, p);
    SameName(w.names, t.names[..], w.packages[p].value.name);
    var key := NameAt(t.names[..], t.packages[p].value.name);
    StatusStops(t.hash, w, t.names[..], key);
    var a := t.SearchStatus(key);
    assert t.statuses[a] == t.statuses[..][a] == w.statuses[a];
    b := false;
    TheStatus(t, w, key, a, num, word);
    if t.statuses[a].Some? {
      b := IsWordAt(t, w, a, num, word);
    }
  }

  lemma PackageNamed(hash: HashFunction, w: World, p: nat)
    requires GoodPackages(hash, w.names, w.packages) && IsPackage(w.packages, p)
    ensures IsName(w.names, w.packages[p].value.name)
  {
  }

  /** A name has one status, the one that the search finds. */
  lemma TheStatus(t: Tables, w: World, key: Text, a: nat, num: nat, word: Text)
    requires Holds(t, w) && a < STATUS_HASH_PRIME && num >= 1
    requires t.statuses[a].Some? <==>
      exists s :: 0 <= s < STATUS_HASH_PRIME && t.statuses[s].Some?
        && StatusName(t.names[..], t.packages[..], t.statuses[s].value) == key
    requires t.statuses[a].Some? ==> StatusName(t.names[..], t.packages[..], t.statuses[a].value) == key
    ensures HasWord(w, key, num, word) <==> t.statuses[a].Some? && Word(LineAt(w, a), num) == word
  {
    hide GoodPackages, GoodStatuses, GoodNames, Room, Word, StatusName, Words;
    forall s | 0 <= s < STATUS_HASH_PRIME && w.statuses[s].Some?
      ensures t.statuses[s] == w.statuses[s]
      ensures StatusName(t.names[..], t.packages[..], t.statuses[s].value)
        == StatusName(w.names, w.packages, w.statuses[s].value)
    {
      assert t.statuses[s] == t.statuses[..][s];
      SameStatusName(t.hash, w, t.names[..], s);
    }
    assert t.statuses[a] == t.statuses[..][a] == w.statuses[a];
  }

  /** `package_satisfies_dependency`. */
  method PackageSatisfies(t: Tables, ghost w: World, p: nat, kind: EdgeKind) returns (b: bool)
    requires Holds(t, w) && WorldOk(w) && IsPackage(w.packages, p)
    modifies t.names
    ensures Holds(t, w) && b == Satisfies(w, p, kind)
  {
    hide Holds, WorldOk, HasWord;
    if kind == PreDepends {
      b := StatusHas(t, w, p, 3, INSTALLED);
    } else if kind == Depends {
      b := StatusHas(t, w, p, 1, INSTALL);
    } else {
      b := false;
    }
  }

  /** How far a search has looked. */
  function SearchEnd(r: int): int { if r == -1 then PACKAGE_HASH_PRIME else r }

  /** `search_for_provides`: the first provider behind `startAt`, or -1. */
  method SearchForProvides(t: Tables, ghost w: World, needle: nat, startAt: int) returns (r: int)
    requires t.packages[..] == w.packages && t.packages.Length == PACKAGE_HASH_PRIME + 1
    requires -1 <= startAt < PACKAGE_HASH_PRIME
    ensures r == -1 || startAt < r < PACKAGE_HASH_PRIME
    ensures forall p: nat :: startAt < p < SearchEnd(r) ==> !Provider(w, p, needle)
    ensures r != -1 ==> Provider(w, r, needle)
    ensures r != -1 ==> t.packages[r].Some? && var es := t.packages[r].value.edges;
      exists j :: 0 <= j < |es| && es[j].kind == Provides && es[j].name == needle
    ensures forall p :: startAt < p < (if r == -1 then PACKAGE_HASH_PRIME else r) && t.packages[p].Some? ==>
      var es := t.packages[p].value.edges;
      forall j :: 0 <= j < |es| ==> es[j].kind != Provides || es[j].name != needle
  {
    var i := startAt + 1;
    ProvidersAre(w, needle);
    while i < PACKAGE_HASH_PRIME
      invariant startAt < i <= PACKAGE_HASH_PRIME
      invariant forall p: nat :: startAt < p < i ==> !Provider(w, p, needle)
    {
      assert t.packages[i] == w.packages[i];
      if t.packages[i].Some? {
        var found := HasProvides(t.packages[i].value, needle);
        if found {
          return i;
        }
      }
      i := i + 1;
    }
    return -1;
  }

  lemma ProvidersAre(w: World, needle: nat)
    ensures forall p: nat :: p < PACKAGE_HASH_PRIME && p < |w.packages| && w.packages[p].Some? ==>
      var es := w.packages[p].value.edges;
      Provider(w, p, needle) || forall j :: 0 <= j < |es| ==> es[j].kind != Provides || es[j].name != needle
  {
  }

  method HasProvides(n: Node, needle: nat) returns (b: bool)
    ensures b == ProvidesName(n, needle)
  {
    var j := 0;
    while j < |n.edges|
      invariant 0 <= j <= |n.edges|
      invariant forall i :: 0 <= i < j ==> !(n.edges[i].kind == Provides && n.edges[i].name == needle)
    {
      if n.edges[j].kind == Provides && n.edges[j].name == needle {
        return true;
      }
      j := j + 1;
    }
    return false;
  }

  /** The slot holds a package that the edge asks for, if there is one. */
  ghost predicate Found(w: World, e: Edge, a: nat)
  {
    && (IsPackage(w.packages, a) ==> Fulfils(w, a, e))
    && ((exists p: nat :: Fulfils(w, p, e)) ==> IsPackage(w.packages, a))
  }

  /** `search_package_hashtable` for an edge. */
  method Find(t: Tables, ghost w: World, e: Edge) returns (a: nat)
    requires Holds(t, w) && EdgeOk(w, e) && !IsRoot(e.kind)
    ensures a < PACKAGE_HASH_PRIME && t.packages[a] == w.packages[a] && Found(w, e, a)
  {
    hide GoodPackages, GoodStatuses, GoodNames, OneStatus, Room, Words, Wanted, Stops;
    StillStops(t.hash, w, t.names[..], e);
    a := t.SearchPackage(e.name, e.version, e.operator);
    assert t.packages[a] == t.packages[..][a] == w.packages[a];
    forall p: nat | IsPackage(w.packages, p)
      ensures t.packages[p] == w.packages[p]
      ensures Wanted(t.names[..], e.name, e.version, e.operator)(w.packages[p].value)
        == Wanted(w.names, e.name, e.version, e.operator)(w.packages[p].value)
    {
      assert t.packages[p] == t.packages[..][p];
      SameWanted(t.hash, w, t.names[..], e, p);
    }
  }

  /** Packages of one name satisfy the same dependencies, so it does not matter which of the wanted ones is found. */
  lemma FoundSatisfies(w: World, e: Edge, a: nat)
    requires Found(w, e, a)
    ensures (exists p: nat :: Fulfils(w, p, e) && Satisfies(w, p, e.kind)) <==>
      IsPackage(w.packages, a) && Satisfies(w, a, e.kind)
  {
    hide HasWord, Test;
  }

  /** Whether an edge is satisfied, by the package found for it or by a provider. */
  method Check(t: Tables, ghost w: World, e: Edge, num: nat) returns (met: bool)
    requires Holds(t, w) && WorldOk(w) && num < PACKAGE_HASH_PRIME && t.packages[num] == w.packages[num]
    requires Found(w, e, num)
    modifies t.names
    ensures Holds(t, w) && met == Met(w, e)
  {
    hide Holds, WorldOk, Provider, Satisfies, Found, Fulfils;
    PackagesHeld(t, w);
    FoundSatisfies(w, e, num);
    met := false;
    if t.packages[num].Some? {
      met := PackageSatisfies(t, w, num, e.kind);
    }
    if !met {
      met := ProviderSatisfies(t, w, e);
    }
  }

  method ProviderSatisfies(t: Tables, ghost w: World, e: Edge) returns (met: bool)
    requires Holds(t, w) && WorldOk(w)
    modifies t.names
    ensures Holds(t, w) && (met <==> exists p: nat :: Provider(w, p, e.name) && Satisfies(w, p, e.kind))
  {
    hide Holds, WorldOk, Provider, Satisfies;
    PackagesHeld(t, w);
    met := false;
    var provider := SearchForProvides(t, w, e.name, -1);
    while provider > -1
      invariant Holds(t, w) && t.packages[..] == w.packages && -1 <= provider < PACKAGE_HASH_PRIME && !met
      invariant provider != -1 ==> Provider(w, provider, e.name)
      invariant forall p: nat :: p < SearchEnd(provider) && Provider(w, p, e.name) ==> !Satisfies(w, p, e.kind)
      decreases if provider == -1 then 0 else PACKAGE_HASH_PRIME - provider
    {
      ProviderIs(w, provider, e.name);
      met := PackageSatisfies(t, w, provider, e.kind);
      if met {
        break;
      }
      provider := SearchForProvides(t, w, e.name, provider);
    }
    if !met {
      NoProvider(w, e);
    }
  }

  lemma PackagesHeld(t: Tables, w: World)
    requires Holds(t, w)
    ensures t.packages[..] == w.packages && t.packages.Length == PACKAGE_HASH_PRIME + 1 == |w.packages|
  {
  }

  lemma ProviderIs(w: World, p: nat, name: nat)
    requires Provider(w, p, name)
    ensures IsPackage(w.packages, p)
  {
  }

  lemma NoProvider(w: World, e: Edge)
    requires forall p: nat :: p < PACKAGE_HASH_PRIME && Provider(w, p, e.name) ==> !Satisfies(w, p, e.kind)
    ensures forall p: nat :: Provider(w, p, e.name) ==> !Satisfies(w, p, e.kind)
  {
    hide Satisfies;
  }

  datatype Outcome = Satisfied | Unsatisfied | Corrupt

  /** What is left to check: the rest of the current alternatives, then the other dependencies. */
  ghost predicate Left(w: World, es: seq<Edge>, j: nat, m: nat, root: Option<Edge>, goal: bool)
  {
    && j <= |es|
    && (root.Some? && m > 0 ==>
          && IsRoot(root.value.kind) && j + m <= |es|
          && (forall i :: j <= i < j + m ==> es[i].kind == AltKind(root.value.kind))
          && WellFormed(es[j + m..]) && goal == (AnyMet(w, es[j..j + m]) && AllMet(w, Groups(es[j + m..]))))
    && (root.None? || m == 0 ==> m <= 1 && WellFormed(es[j..]) && goal == AllMet(w, Groups(es[j..])))
  }

  /** The loop over the edges of one package. */
  method CheckEdges(t: Tables, ghost w: World, es: seq<Edge>) returns (r: Outcome)
    requires Holds(t, w) && WorldOk(w) && EdgesOk(w, es) && WellFormed(es)
    modifies t.names
    ensures Holds(t, w) && r == if AllMet(w, Groups(es)) then Satisfied else Unsatisfied
  {
    hide WellFormed, Groups, AllMet, AnyMet, Met, WorldOk, Left, Holds, EdgeOk, Wanted;
    ghost var goal := AllMet(w, Groups(es));
    var j, alternatives: nat, root := 0, 0, None;
    LeftStart(w, es);
    while j < |es|
      invariant 0 <= j && Holds(t, w) && Left(w, es, j, alternatives, root, goal)
      decreases |es| - j
    {
      var e := es[j];
      if IsRoot(e.kind) {
        LeftRoot(w, es, j, alternatives, root, goal);
        alternatives, root := e.version, Some(e);
      } else {
        ghost var m, rt := alternatives, root;
        if alternatives == 0 {
          alternatives, root := 1, None;
        }
        var num := Find(t, w, e);
        if IsDependency(e.kind) {
          LeftKind(w, es, j, m, rt, goal);
          if root.Some? && e.kind != AltKind(root.value.kind) {
            return Corrupt;
          }
          var met := Check(t, w, e, num);
          alternatives := alternatives - 1;
          LeftDependency(w, es, j, m, rt, goal, met);
          if !met && alternatives == 0 {
            return Unsatisfied;
          }
          if met && alternatives != 0 {
            j := j + alternatives;
            alternatives := 0;
          }
        } else {
          LeftOther(w, es, j, m, rt, goal);
        }
      }
      j := j + 1;
    }
    LeftEnd(w, es, j, alternatives, root, goal);
    return Satisfied;
  }

  lemma LeftStart(w: World, es: seq<Edge>)
    requires WellFormed(es)
    ensures Left(w, es, 0, 0, None, AllMet(w, Groups(es)))
  {
    hide Met;
    assert es[0..] == es;
  }

  lemma LeftEnd(w: World, es: seq<Edge>, j: nat, m: nat, root: Option<Edge>, goal: bool)
    requires Left(w, es, j, m, root, goal) && j >= |es|
    ensures goal
  {
    hide Met;
    assert es[j..] == [];
  }

  lemma Behind(es: seq<Edge>, j: nat)
    requires j < |es|
    ensures es[j..] != [] && es[j..][0] == es[j] && es[j..][1..] == es[j + 1..]
    ensures forall i :: 0 <= i < |es| - j ==> es[j..][i] == es[j + i]
  {
  }

  lemma AllMetSplit(w: World, g: seq<Edge>, gs: seq<seq<Edge>>)
    ensures AllMet(w, [g] + gs) <==> AnyMet(w, g) && AllMet(w, gs)
  {
    hide AnyMet;
    var all := [g] + gs;
    assert all[0] == g && all[1..] == gs;
    if AllMet(w, all) {
      forall i | 0 <= i < |gs|
        ensures AnyMet(w, gs[i])
      {
        assert gs[i] == all[i + 1];
      }
    }
  }

  /** A root starts its alternatives. */
  lemma LeftRoot(w: World, es: seq<Edge>, j: nat, m: nat, root: Option<Edge>, goal: bool)
    requires Left(w, es, j, m, root, goal) && j < |es| && IsRoot(es[j].kind)
    ensures es[j].version >= 1 && Left(w, es, j + 1, es[j].version, Some(es[j]), goal)
  {
    hide AnyMet, AllMet, WellFormed, Groups;
    Behind(es, j);
    var t, v := es[j..], es[j].version;
    assert root.Some? && m > 0 ==> es[j].kind == AltKind(root.value.kind);
    RootGroup(t);
    assert t[1..1 + v] == es[j + 1..j + 1 + v] && t[1 + v..] == es[j + 1 + v..];
    AllMetSplit(w, t[1..1 + v], Groups(t[1 + v..]));
    forall i | j + 1 <= i < j + 1 + v
      ensures es[i].kind == AltKind(es[j].kind)
    {
      assert t[i - j] == es[i];
    }
  }

  lemma RootGroup(es: seq<Edge>)
    requires WellFormed(es) && es != [] && IsRoot(es[0].kind)
    ensures var v := es[0].version;
      && 1 <= v < |es| && (forall i :: 1 <= i <= v ==> es[i].kind == AltKind(es[0].kind))
      && WellFormed(es[1 + v..]) && Groups(es) == [es[1..1 + v]] + Groups(es[1 + v..])
  {
  }

  lemma LeftKind(w: World, es: seq<Edge>, j: nat, m: nat, root: Option<Edge>, goal: bool)
    requires Left(w, es, j, m, root, goal) && j < |es|
    ensures m > 0 && root.Some? ==> es[j].kind == AltKind(root.value.kind)
  {
    hide AnyMet, AllMet;
  }

  /** An edge that is no dependency changes nothing; it can only come between dependencies. */
  lemma LeftOther(w: World, es: seq<Edge>, j: nat, m: nat, root: Option<Edge>, goal: bool)
    requires Left(w, es, j, m, root, goal) && j < |es| && !IsRoot(es[j].kind) && !IsDependency(es[j].kind)
    ensures (root.None? || m == 0) && m <= 1
    ensures Left(w, es, j + 1, 1, None, goal)
  {
    hide AnyMet, AllMet;
    Behind(es, j);
  }

  /** The verdict on one alternative. */
  lemma LeftDependency(w: World, es: seq<Edge>, j: nat, m: nat, root: Option<Edge>, goal: bool, met: bool)
    requires Left(w, es, j, m, root, goal) && j < |es| && IsDependency(es[j].kind) && met == Met(w, es[j])
    ensures var k := if m == 0 then 0 else m - 1;
      var rt := if m == 0 then None else root;
      && (!met && k == 0 ==> !goal)
      && (met && k != 0 ==> j + k < |es| && Left(w, es, j + k + 1, 0, rt, goal))
      && (!(!met && k == 0) && !(met && k != 0) ==> Left(w, es, j + 1, k, rt, goal))
  {
    hide AllMet, Met;
    if root.Some? && m > 0 {
      LastAlternative(w, es[j..j + m]);
      assert es[j..j + m][1..] == es[j + 1..j + m];
    } else {
      Behind(es, j);
      AllMetSplit(w, [es[j]], Groups(es[j + 1..]));
      LastAlternative(w, [es[j]]);
    }
  }

  lemma LastAlternative(w: World, g: seq<Edge>)
    requires g != []
    ensures AnyMet(w, g) <==> Met(w, g[0]) || AnyMet(w, g[1..])
    ensures |g| == 1 ==> !AnyMet(w, g[1..])
  {
    hide Met;
    if AnyMet(w, g) {
      var i :| 0 <= i < |g| && Met(w, g[i]);
      if i > 0 {
        assert g[i] == g[1..][i - 1];
      }
    }
    if AnyMet(w, g[1..]) {
      var i :| 0 <= i < |g| - 1 && Met(w, g[1..][i]);
      assert g[i + 1] == g[1..][i];
    }
  }

  /** Every package that is to be installed has all its dependencies met. */
  ghost predicate DependenciesMet(w: World)
  {
    forall i: nat :: ToInstall(w, i) ==>
      WellFormed(w.packages[i].value.edges) && AllMet(w, Groups(w.packages[i].value.edges))
  }

  ghost predicate ListsOk(w: World)
  {
    forall i: nat :: IsPackage(w.packages, i) ==> WellFormed(w.packages[i].value.edges)
  }

  /**
   * The dependency check of `check_deps` on the tables themselves: it fails exactly when a dependency of a package that
   * is to be installed has no alternative that is met. Only the words it looks up are entered, in the name table.
   */
  method CheckDeps(t: Tables) returns (r: Outcome)
    requires t.Valid() && var w := World(t.names[..], t.packages[..], t.statuses[..]);
      WorldOk(w) && ListsOk(w) && Room(w.names, Words(w))
    modifies t.names
    ensures t.Valid() && Grown(old(t.names[..]), t.names[..])
    ensures r == if old(DependenciesMet(World(t.names[..], t.packages[..], t.statuses[..]))) then Satisfied
      else Unsatisfied
  {
    hide WellFormed, Groups, AllMet, Holds, WorldOk, HasWord, Room, Words, GoodNames, GoodPackages, GoodStatuses;
    ghost var w := World(t.names[..], t.packages[..], t.statuses[..]);
    HoldsAtStart(t, w);
    PackagesHeld(t, w);
    var i := 0;
    while i < PACKAGE_HASH_PRIME
      invariant 0 <= i <= PACKAGE_HASH_PRIME && Holds(t, w)
      invariant forall k :: 0 <= k < i && ToInstall(w, k) ==> AllMet(w, Groups(w.packages[k].value.edges))
    {
      assert t.packages[i] == w.packages[i];
      if t.packages[i].Some? {
        var wanted := StatusHas(t, w, i, 1, INSTALL);
        if wanted {
          EdgesAt(w, i);
          r := CheckEdges(t, w, t.packages[i].value.edges);
          if r != Satisfied {
            HeldIsValid(t, w);
            return;
          }
        }
      }
      i := i + 1;
    }
    HeldIsValid(t, w);
    return Satisfied;
  }

  lemma HoldsAtStart(t: Tables, w: World)
    requires t.Valid() && w == World(t.names[..], t.packages[..], t.statuses[..]) && Room(w.names, Words(w))
    ensures Holds(t, w)
  {
    hide Room, Words, GoodNames, GoodPackages, OneStatus;
  }

  lemma HeldIsValid(t: Tables, w: World)
    requires Holds(t, w)
    ensures t.Valid() && Grown(w.names, t.names[..])
  {
  }

  lemma EdgesAt(w: World, i: nat)
    requires WorldOk(w) && IsPackage(w.packages, i)
    ensures EdgesOk(w, w.packages[i].value.edges)
  {
  }
}
