/** The name, package and status tables of dpkg.c. */
module DpkgTables {
  import opened CanonicalCode
  import opened Probing
  import opened HashTables
  import opened Versions
  import opened StatusWords

  const NAME_HASH_PRIME := 16381
  const PACKAGE_HASH_PRIME := 10007
  const STATUS_HASH_PRIME := 8191

  datatype EdgeKind = PreDepends | OrPreDepends | Depends | OrDepends | Provides | OtherEdge

  /** Names and versions are indices into the name table. */
  datatype Edge = Edge(kind: EdgeKind, name: nat, version: nat, operator: Operator)
  datatype Node = Node(name: nat, version: nat, edges: seq<Edge>)
  datatype StatusNode = StatusNode(package: nat, status: nat)

  /** `make_hash`, for a key and a table size. */
  type HashFunction = (Text, nat) -> Hash

  ghost predicate HashOk(hash: HashFunction)
  {
    forall k: Text, p: nat :: p >= 2 ==> Fits(hash(k, p), p)
  }

  type Names = seq<Option<Text>>
  type Packages = seq<Option<Node>>
  type Statuses = seq<Option<StatusNode>>

  function NameAt(N: Names, i: nat): Text
  {
    if i < |N| && N[i].Some? then N[i].value else []
  }

  /** The package name that a status belongs to. */
  function StatusName(N: Names, P: Packages, s: StatusNode): Text
  {
    if s.package < |P| && P[s.package].Some? then NameAt(N, P[s.package].value.name) else []
  }

  function NameKey(hash: HashFunction): Text -> Hash { (k: Text) => hash(k, NAME_HASH_PRIME) }
  function PackageKey(hash: HashFunction,
                      N: Names): Node -> Hash { (n: Node) => hash(NameAt(N, n.name), PACKAGE_HASH_PRIME) }
  function StatusKey(hash: HashFunction, N: Names, P: Packages): StatusNode -> Hash
  {
    (s: StatusNode) => hash(StatusName(N, P, s), STATUS_HASH_PRIME)
  }

  lemma KeysFit(hash: HashFunction, N: Names, P: Packages)
    requires HashOk(hash)
    ensures forall k: Text :: Fits(NameKey(hash)(k), NAME_HASH_PRIME)
    ensures forall n: Node :: Fits(PackageKey(hash, N)(n), PACKAGE_HASH_PRIME)
    ensures forall s: StatusNode :: Fits(StatusKey(hash, N, P)(s), STATUS_HASH_PRIME)
  {
    forall k: Text
      ensures Fits(NameKey(hash)(k), NAME_HASH_PRIME)
    {
      assert NameKey(hash)(k) == hash(k, NAME_HASH_PRIME);
    }
    forall n: Node
      ensures Fits(PackageKey(hash, N)(n), PACKAGE_HASH_PRIME)
    {
      assert PackageKey(hash, N)(n) == hash(NameAt(N, n.name), PACKAGE_HASH_PRIME);
    }
    forall s: StatusNode
      ensures Fits(StatusKey(hash, N, P)(s), STATUS_HASH_PRIME)
    {
      assert StatusKey(hash, N, P)(s) == hash(StatusName(N, P, s), STATUS_HASH_PRIME);
    }
  }

  /** Searching for a key; for the status of a package name. */
  function Is(key: Text): Text -> bool { (x: Text) => x == key }
  function Of(N: Names, P: Packages, key: Text): StatusNode -> bool { (s: StatusNode) => StatusName(N, P, s) == key }

  predicate IsName(N: Names, i: nat) { i < NAME_HASH_PRIME && i < |N| && N[i].Some? }

  /** No name has two indices. */
  ghost predicate Distinct(N: Names)
  {
    forall i, j :: 0 <= i < j < NAME_HASH_PRIME && j < |N| && N[i].Some? && N[j].Some? ==> N[i] != N[j]
  }

  ghost predicate GoodNames(hash: HashFunction, N: Names)
  {
    HashOk(hash) && |N| == NAME_HASH_PRIME + 1 && Reachable(N, NAME_HASH_PRIME, NameKey(hash)) && Distinct(N)
  }

  ghost predicate GoodPackages(hash: HashFunction, N: Names, P: Packages)
  {
    && |P| == PACKAGE_HASH_PRIME + 1 && Reachable(P, PACKAGE_HASH_PRIME, PackageKey(hash, N))
    && forall s :: 0 <= s < PACKAGE_HASH_PRIME && P[s].Some? ==>
         IsName(N, P[s].value.name) && IsName(N, P[s].value.version)
  }

  predicate IsPackage(P: Packages, i: nat) { i < PACKAGE_HASH_PRIME && i < |P| && P[i].Some? }

  /** No package name has two statuses. */
  ghost predicate OneStatus(N: Names, P: Packages, S: Statuses)
  {
    forall s, t :: 0 <= s < t < STATUS_HASH_PRIME && t < |S| && S[s].Some? && S[t].Some? ==>
      StatusName(N, P, S[s].value) != StatusName(N, P, S[t].value)
  }

  ghost predicate GoodStatuses(hash: HashFunction, N: Names, P: Packages, S: Statuses)
  {
    && |S| == STATUS_HASH_PRIME + 1 && Reachable(S, STATUS_HASH_PRIME, StatusKey(hash, N, P)) && OneStatus(N, P, S)
    && forall s :: 0 <= s < STATUS_HASH_PRIME && S[s].Some? ==> IsPackage(P, S[s].value.package)
  }

  // ----- what the stores keep

  /** Names once given keep their index and their meaning. */
  ghost predicate Grown(N: Names, N': Names)
  {
    |N| == |N'| && forall i :: 0 <= i < |N| && N[i].Some? ==> N'[i] == N[i]
  }

  lemma NameStored(hash: HashFunction, N: Names, a: nat, k: Text)
    requires GoodNames(hash, N) && Stopped(N, NAME_HASH_PRIME, hash(k, NAME_HASH_PRIME), Is(k), a) && N[a].None?
    ensures GoodNames(hash, N[a := Some(k)]) && Grown(N, N[a := Some(k)])
  {
    hide OnPath, Stopped;
    var h := hash(k, NAME_HASH_PRIME);
    StopsAt(N, NAME_HASH_PRIME, h, Is(k), a);
    StoppedOnPath(N, NAME_HASH_PRIME, h, Is(k), a);
    StoreKeeps(N, NAME_HASH_PRIME, NameKey(hash), a, k);
    forall s | 0 <= s < NAME_HASH_PRIME && N[s].Some?
      ensures N[s].value != k
    {
      if N[s].value == k {
        Complete(N, NAME_HASH_PRIME, NameKey(hash), h, Is(k), a, s);
        assert false;
      }
    }
  }

  lemma PackagesKept(hash: HashFunction, N: Names, N': Names, P: Packages)
    requires HashOk(hash) && GoodPackages(hash, N, P) && Grown(N, N')
    ensures GoodPackages(hash, N', P)
  {
    hide OnPath;
    KeysFit(hash, N', P);
    forall s | 0 <= s < PACKAGE_HASH_PRIME && P[s].Some?
      ensures PackageKey(hash, N')(P[s].value) == PackageKey(hash, N)(P[s].value)
    {
      var i := P[s].value.name;
      assert IsName(N, i) && N'[i] == N[i];
      assert NameAt(N', i) == NameAt(N, i);
    }
    SameKeys(P, PACKAGE_HASH_PRIME, PackageKey(hash, N), PackageKey(hash, N'));
  }

  /** The statuses keep their names when names are added, and when packages are replaced by others of the same name. */
  lemma StatusesKept(hash: HashFunction, N: Names, N': Names, P: Packages, P': Packages, S: Statuses)
    requires HashOk(hash) && GoodPackages(hash, N, P) && GoodStatuses(hash, N, P, S) && Grown(N, N') && |P'| == |P|
    requires forall s :: 0 <= s < |P| && P[s].Some? ==> P'[s].Some? && P'[s].value.name == P[s].value.name
    ensures GoodStatuses(hash, N', P', S)
  {
    hide OnPath;
    forall s | 0 <= s < STATUS_HASH_PRIME && S[s].Some?
      ensures StatusName(N', P', S[s].value) == StatusName(N, P, S[s].value)
    {
      assert IsPackage(P, S[s].value.package);
      assert IsName(N, P[S[s].value.package].value.name);
    }
    KeysFit(hash, N', P');
    SameKeys(S, STATUS_HASH_PRIME, StatusKey(hash, N, P), StatusKey(hash, N', P'));
  }

  /**
   * Two keys have the same index exactly when they are the same string, also if one was given long before the other.
   */
  lemma SameIndex(hash: HashFunction, N: Names, N': Names, i: nat, j: nat, a: Text, b: Text)
    requires GoodNames(hash, N') && Grown(N, N') && i < NAME_HASH_PRIME && j < NAME_HASH_PRIME && i < |N|
    requires N[i] == Some(a) && N'[j] == Some(b)
    ensures i == j <==> a == b
  {
    hide OnPath;
    assert N'[i] == Some(a);
    if i < j {
      assert N'[i] != N'[j];
    } else if j < i {
      assert N'[j] != N'[i];
    }
  }

  // ----- a run of lookups

  ghost predicate Known(N: Names, k: Text) { exists i :: 0 <= i < NAME_HASH_PRIME && i < |N| && N[i] == Some(k) }

  ghost function FreeSlots(N: Names): set<nat> { set i: nat | i < NAME_HASH_PRIME && i < |N| && N[i].None? }
  ghost function NewKeys(N: Names, keys: set<Text>): set<Text> { set k | k in keys && !Known(N, k) }

  /** There is a free slot for every string that is not in the table yet. */
  ghost predicate Room(N: Names, keys: set<Text>) { |NewKeys(N, keys)| <= |FreeSlots(N)| }

  lemma RoomStops(N: Names, keys: set<Text>, key: Text)
    requires Room(N, keys) && key in keys && |N| >= NAME_HASH_PRIME
    ensures Stops(N, NAME_HASH_PRIME, Is(key))
  {
    if Known(N, key) {
      var i :| 0 <= i < NAME_HASH_PRIME && i < |N| && N[i] == Some(key);
      assert Is(key)(N[i].value);
    } else {
      assert key in NewKeys(N, keys);
      assert FreeSlots(N) != {};
      var i :| i in FreeSlots(N);
    }
  }

  /** A lookup leaves room for the other strings. */
  lemma RoomLeft(N: Names, N': Names, keys: set<Text>, key: Text, i: nat)
    requires Room(N, keys) && key in keys && i < NAME_HASH_PRIME <= |N| == |N'| && Grown(N, N') && N'[i] == Some(key)
    requires Distinct(N') && forall j :: 0 <= j < |N| && j != i ==> N'[j] == N[j]
    ensures Room(N', keys)
  {
    assert Known(N', key);
    assert forall k :: Known(N, k) ==> Known(N', k);
    SmallerSet(NewKeys(N', keys), NewKeys(N, keys) - {key});
    SmallerSet(FreeSlots(N) - {i}, FreeSlots(N'));
    if N[i].Some? {
      assert FreeSlots(N) - {i} == FreeSlots(N);
    } else {
      assert !Known(N, key);
      assert key in NewKeys(N, keys) && i in FreeSlots(N);
    }
  }

  lemma {:induction false} SmallerSet<T>(a: set<T>, b: set<T>)
    requires a <= b
    ensures |a| <= |b|
  {
    assert b == a + (b - a);
  }

  /** What a package search accepts. */
  function Wanted(N: Names, name: nat, version: nat, op: Operator): Node -> bool
  {
    (n: Node) => n.name == name && (op == Any || Test(NameAt(N, n.version), NameAt(N, version), op))
  }

  /** The strings that `set_status` looks up. */
  ghost function StatusTexts(whole: Text, value: Text, position: nat): set<Text>
  {
    {value, Word(whole, 1), Word(whole, 2), Word(whole, 3), NewLine(whole, value, position)}
  }

  lemma TextsIn(whole: Text, value: Text, position: nat)
    ensures var all := StatusTexts(whole, value, position);
      && value in all && Word(whole, 1) in all && Word(whole, 2) in all && Word(whole, 3) in all
      && NewLine(whole, value, position) in all
  {
  }

  /** A status line is no part of the key. */
  lemma RenamedStatus(hash: HashFunction, N: Names, P: Packages, S: Statuses, a: nat, i: nat)
    requires GoodStatuses(hash, N, P, S) && a < STATUS_HASH_PRIME && S[a].Some?
    ensures GoodStatuses(hash, N, P, S[a := Some(S[a].value.(status := i))])
  {
    hide OnPath;
    var e := S[a].value.(status := i);
    assert StatusName(N, P, e) == StatusName(N, P, S[a].value);
    assert StatusKey(hash, N, P)(S[a].value) == hash(StatusName(N, P, S[a].value), STATUS_HASH_PRIME);
    assert StatusKey(hash, N, P)(e) == StatusKey(hash, N, P)(S[a].value);
    StoreKeeps(S, STATUS_HASH_PRIME, StatusKey(hash, N, P), a, e);
  }

  class Tables {
    const names: array<Option<Text>>
    const packages: array<Option<Node>>
    const statuses: array<Option<StatusNode>>
    const hash: HashFunction

    ghost predicate Valid()
      reads names, packages, statuses
    {
      && names.Length == NAME_HASH_PRIME + 1 && packages.Length == PACKAGE_HASH_PRIME + 1
      && statuses.Length == STATUS_HASH_PRIME + 1
      && GoodNames(hash, names[..]) && GoodPackages(hash, names[..], packages[..])
      && GoodStatuses(hash, names[..], packages[..], statuses[..])
    }

    constructor (hash: HashFunction)
      requires HashOk(hash)
      ensures Valid() && this.hash == hash && fresh(names) && fresh(packages) && fresh(statuses)
      ensures forall i :: 0 <= i < names.Length ==> names[i].None?
    {
      names := new Option<Text>[NAME_HASH_PRIME + 1](_ => None);
      packages := new Option<Node>[PACKAGE_HASH_PRIME + 1](_ => None);
      statuses := new Option<StatusNode>[STATUS_HASH_PRIME + 1](_ => None);
      this.hash := hash;
      new;
      KeysFit(hash, names[..], packages[..]);
    }

    /** `search_name_hashtable`: the index of a key, entered if it is new; the table must not be full of other keys. */
    method SearchName(key: Text) returns (i: nat)
      requires Valid() && Stops(names[..], NAME_HASH_PRIME, Is(key))
      modifies names
      ensures Valid() && i < NAME_HASH_PRIME && names[i] == Some(key)
      ensures Grown(old(names[..]), names[..])
      ensures forall j :: 0 <= j < names.Length && j != i ==> names[j] == old(names[j])
      ensures forall keys: set<Text> :: key in keys && Room(old(names[..]), keys) ==> Room(names[..], keys)
    {
      hide Stopped, Reachable, Distinct, Room;
      NamePrime();
      ghost var N := names[..];
      i := Search(names, NAME_HASH_PRIME, hash(key, NAME_HASH_PRIME), Is(key));
      StopsAt(N, NAME_HASH_PRIME, hash(key, NAME_HASH_PRIME), Is(key), i);
      if names[i].None? {
        NameStored(hash, N, i, key);
        names[i] := Some(key);
        assert names[..] == N[i := Some(key)];
        PackagesKept(hash, N, names[..], packages[..]);
        StatusesKept(hash, N, names[..], packages[..], packages[..], statuses[..]);
      }
      forall keys: set<Text> | key in keys && Room(N, keys)
        ensures Room(names[..], keys)
      {
        RoomLeft(N, names[..], keys, key, i);
      }
    }

    /**
     * A run of `search_name_hashtable`: two lookups give the same index exactly when their strings are equal,
     * and a string that was in the table keeps its index.
     */
    method SearchNames(keys: seq<Text>) returns (at: seq<nat>)
      requires Valid() && Room(names[..], set k | k in keys)
      modifies names
      ensures Valid() && Grown(old(names[..]), names[..]) && |at| == |keys|
      ensures forall i :: 0 <= i < |keys| ==> at[i] < NAME_HASH_PRIME && names[at[i]] == Some(keys[i])
      ensures forall i, j :: 0 <= i < |keys| && 0 <= j < |keys| ==> (at[i] == at[j] <==> keys[i] == keys[j])
      ensures forall i, j :: 0 <= i < |keys| && 0 <= j < NAME_HASH_PRIME && old(names[..])[j] == Some(keys[i]) ==>
        at[i] == j
    {
      NamesFit(hash, names[..]);
      hide Stops, Is, Room, GoodNames, GoodPackages, GoodStatuses;
      ghost var N: Names := names[..];
      ghost var all := set k | k in keys;
      at := [];
      while |at| < |keys|
        invariant |at| <= |keys| && Valid() && names.Length == NAME_HASH_PRIME + 1 && Grown(N, names[..])
        invariant Room(names[..], all)
        invariant forall i :: 0 <= i < |at| ==> at[i] < NAME_HASH_PRIME && names[at[i]] == Some(keys[i])
      {
        ghost var M, key := names[..], keys[|at|];
        RoomStops(M, all, key);
        var i := SearchName(keys[|at|]);
        at := at + [i];
      }
      NamesFit(hash, names[..]);
      forall i, j | 0 <= i < |keys| && 0 <= j < |keys|
        ensures at[i] == at[j] <==> keys[i] == keys[j]
      {
        SameIndex(hash, names[..], names[..], at[i], at[j], keys[i], keys[j]);
      }
      forall i, j | 0 <= i < |keys| && 0 <= j < NAME_HASH_PRIME && N[j] == Some(keys[i])
        ensures at[i] == j
      {
        SameIndex(hash, N, names[..], j, at[i], keys[i], keys[i]);
      }
    }

    /** `search_package_hashtable`: a package that is wanted, if there is one, and a free slot otherwise. */
    method SearchPackage(name: nat, version: nat, op: Operator) returns (a: nat)
      requires Valid() && Stops(packages[..], PACKAGE_HASH_PRIME, Wanted(names[..], name, version, op))
      ensures a < PACKAGE_HASH_PRIME
      ensures OnPath(packages[..], PACKAGE_HASH_PRIME, hash(NameAt(names[..], name), PACKAGE_HASH_PRIME), a)
      ensures packages[a].Some? <==>
        exists s :: 0 <= s < PACKAGE_HASH_PRIME && packages[s].Some?
          && Wanted(names[..], name, version, op)(packages[s].value)
      ensures packages[a].Some? ==> Wanted(names[..], name, version, op)(packages[a].value)
    {
      hide Stopped, Reachable, OnPath, Test;
      PackagePrime();
      ghost var N, P := names[..], packages[..];
      var accept, h := Wanted(names[..], name, version, op), hash(NameAt(names[..], name), PACKAGE_HASH_PRIME);
      a := Search(packages, PACKAGE_HASH_PRIME, h, accept);
      StopsAt(P, PACKAGE_HASH_PRIME, h, accept, a);
      StoppedOnPath(P, PACKAGE_HASH_PRIME, h, accept, a);
      forall s | 0 <= s < PACKAGE_HASH_PRIME && packages[s].Some? && accept(packages[s].value)
        ensures packages[a].Some?
      {
        Complete(P, PACKAGE_HASH_PRIME, PackageKey(hash, N), h, accept, a, s);
      }
    }

    /** The end of `fill_package_struct`: the node takes a free slot, or that of an equal version of the same name. */
    method AddPackage(node: Node) returns (a: nat)
      requires Valid()
      requires IsName(names[..], node.name) && IsName(names[..], node.version)
      requires Stops(packages[..], PACKAGE_HASH_PRIME, Wanted(names[..], node.name, node.version, Equal))
      modifies packages
      ensures Valid() && a < PACKAGE_HASH_PRIME && packages[..] == old(packages[..])[a := Some(node)]
      ensures old(packages[a]).Some? ==>
        && old(packages[a]).value.name == node.name
        && CompareVersions(Parse(NameAt(names[..], old(packages[a]).value.version)),
                           Parse(NameAt(names[..], node.version))) == 0
      ensures old(packages[a]).None? ==> forall s :: 0 <= s < PACKAGE_HASH_PRIME && old(packages[..])[s].Some? ==>
        || old(packages[..])[s].value.name != node.name
        || CompareVersions(Parse(NameAt(names[..], old(packages[..])[s].value.version)),
                           Parse(NameAt(names[..], node.version))) != 0
    {
      hide Reachable, OnPath, CompareVersions, Parse;
      ghost var N, P: Packages := names[..], packages[..];
      a := SearchPackage(node.name, node.version, Equal);
      StoreKeeps(P, PACKAGE_HASH_PRIME, PackageKey(hash, N), a, node);
      StatusesKept(hash, N, N, P, P[a := Some(node)], statuses[..]);
      packages[a] := Some(node);
      assert packages[..] == P[a := Some(node)];
    }

    /** `search_status_hashtable`: the status of a package name, or a free slot. */
    method SearchStatus(key: Text) returns (a: nat)
      requires Valid() && Stops(statuses[..], STATUS_HASH_PRIME, Of(names[..], packages[..], key))
      ensures a < STATUS_HASH_PRIME && OnPath(statuses[..], STATUS_HASH_PRIME, hash(key, STATUS_HASH_PRIME), a)
      ensures statuses[a].Some? <==>
        exists s :: 0 <= s < STATUS_HASH_PRIME && statuses[s].Some?
          && StatusName(names[..], packages[..], statuses[s].value) == key
      ensures statuses[a].Some? ==> StatusName(names[..], packages[..], statuses[a].value) == key
    {
      hide Stopped, Reachable, OnPath;
      StatusPrime();
      var N, P, S := names[..], packages[..], statuses[..];
      var accept, h := Of(N, P, key), hash(key, STATUS_HASH_PRIME);
      a := Search(statuses, STATUS_HASH_PRIME, h, accept);
      StopsAt(S, STATUS_HASH_PRIME, h, accept, a);
      StoppedOnPath(S, STATUS_HASH_PRIME, h, accept, a);
      forall s | 0 <= s < STATUS_HASH_PRIME && statuses[s].Some? && accept(statuses[s].value)
        ensures statuses[a].Some?
      {
        Complete(S, STATUS_HASH_PRIME, StatusKey(hash, N, P), h, accept, a, s);
      }
    }

    /** `get_status`: the index of a word of the status line. */
    method GetStatus(a: nat, num: nat) returns (i: nat)
      requires Valid() && a < STATUS_HASH_PRIME && statuses[a].Some? && num >= 1
      requires Stops(names[..], NAME_HASH_PRIME, Is(Word(NameAt(names[..], statuses[a].value.status), num)))
      modifies names
      ensures Valid() && i < NAME_HASH_PRIME
      ensures names[i] == Some(Word(NameAt(old(names[..]), statuses[a].value.status), num))
      ensures Grown(old(names[..]), names[..])
      ensures forall j :: 0 <= j < names.Length && j != i ==> names[j] == old(names[j])
      ensures forall keys: set<Text> :: names[i].value in keys && Room(old(names[..]), keys) ==> Room(names[..], keys)
    {
      hide GoodNames, GoodPackages, GoodStatuses, Stops, Word, Room;
      var word := GetWord(NameAt(names[..], statuses[a].value.status), num);
      i := SearchName(word);
    }

    /** `set_status`: a new status line with one word replaced. */
    method SetStatus(a: nat, value: Text, position: nat)
      requires Valid() && a < STATUS_HASH_PRIME && statuses[a].Some? && 1 <= position <= 3
      requires IsName(names[..], statuses[a].value.status)
      requires Room(names[..], StatusTexts(NameAt(names[..], statuses[a].value.status), value, position))
      modifies names, statuses
      ensures Valid() && Grown(old(names[..]), names[..])
      ensures statuses[a].Some?
      ensures statuses[..] == old(statuses[..])[a := Some(old(statuses[a]).value.(status := statuses[a].value.status))]
      ensures IsName(names[..], statuses[a].value.status)
      ensures NameAt(names[..], statuses[a].value.status)
        == NewLine(NameAt(old(names[..]), old(statuses[a]).value.status), value, position)
    {
      hide GoodNames, GoodPackages, GoodStatuses, Stops, Word, NewLine, Room, StatusTexts;
      ghost var S: Statuses, whole := statuses[..], NameAt(names[..], statuses[a].value.status);
      ghost var all := StatusTexts(whole, value, position);
      TextsIn(whole, value, position);
      var line := StatusLine(a, value, position);
      RoomStops(names[..], all, line);
      var i := SearchName(line);
      RenamedStatus(hash, names[..], packages[..], S, a, i);
      statuses[a] := Some(statuses[a].value.(status := i));
      assert statuses[..] == S[a := Some(S[a].value.(status := i))];
    }

    method StatusLine(a: nat, value: Text, position: nat) returns (line: Text)
      requires Valid() && a < STATUS_HASH_PRIME && statuses[a].Some? && 1 <= position <= 3
      requires IsName(names[..], statuses[a].value.status)
      requires Room(names[..], StatusTexts(NameAt(names[..], statuses[a].value.status), value, position))
      modifies names
      ensures Valid() && Grown(old(names[..]), names[..])
      ensures line == NewLine(NameAt(old(names[..]), statuses[a].value.status), value, position)
      ensures Room(names[..], StatusTexts(NameAt(old(names[..]), statuses[a].value.status), value, position))
    {
      hide GoodNames, GoodPackages, GoodStatuses, Stops, Word, Line, Room, StatusTexts;
      ghost var whole := NameAt(names[..], statuses[a].value.status);
      ghost var all := StatusTexts(whole, value, position);
      TextsIn(whole, value, position);
      RoomStops(names[..], all, value);
      var added := SearchName(value);
      RoomStops(names[..], all, Word(whole, 1));
      var want := GetStatus(a, 1);
      RoomStops(names[..], all, Word(whole, 2));
      var flag := GetStatus(a, 2);
      RoomStops(names[..], all, Word(whole, 3));
      var state := GetStatus(a, 3);
      if position == 1 {
        want := added;
      } else if position == 2 {
        flag := added;
      } else {
        state := added;
      }
      line := Line(NameAt(names[..], want), NameAt(names[..], flag), NameAt(names[..], state));
    }

    /** The end of `index_status_file`: the status takes a free slot, or that of the same package name. */
    method AddStatus(node: StatusNode) returns (a: nat)
      requires Valid() && IsPackage(packages[..], node.package)
      requires Stops(statuses[..], STATUS_HASH_PRIME,
                     Of(names[..], packages[..], StatusName(names[..], packages[..], node)))
      modifies statuses
      ensures Valid() && a < STATUS_HASH_PRIME && statuses[..] == old(statuses[..])[a := Some(node)]
      ensures old(statuses[a]).Some? ==>
        StatusName(names[..], packages[..], old(statuses[a]).value) == StatusName(names[..], packages[..], node)
      ensures old(statuses[a]).None? ==> forall s :: 0 <= s < STATUS_HASH_PRIME && old(statuses[..])[s].Some? ==>
        StatusName(names[..], packages[..], old(statuses[..])[s].value) != StatusName(names[..], packages[..], node)
    {
      hide Reachable, OnPath;
      ghost var S: Statuses := statuses[..];
      a := SearchStatus(StatusName(names[..], packages[..], node));
      StoreKeeps(S, STATUS_HASH_PRIME, StatusKey(hash, names[..], packages[..]), a, node);
      statuses[a] := Some(node);
      assert statuses[..] == S[a := Some(node)];
    }
  }

  lemma NamesFit(hash: HashFunction, N: Names)
    requires GoodNames(hash, N)
    ensures |N| == NAME_HASH_PRIME + 1 && Distinct(N)
  {
  }

  lemma StopsAt<E>(t: seq<Option<E>>, p: nat, h: Hash, accept: E -> bool, a: nat)
    requires Fits(h, p) && p <= |t| && Stopped(t, p, h, accept, a)
    ensures a < p && (t[a].Some? ==> accept(t[a].value))
  {
  }
}
