/** Open addressing with double hashing, as the three tables of dpkg.c share it. */
module HashTables {
  import opened CanonicalCode
  import opened Probing

  /** What `make_hash` computes: the first slot and the decrement. */
  datatype Hash = Hash(start: nat, dec: nat)

  predicate Fits(h: Hash, p: nat) { h.start < p && 1 <= h.dec < p }

  function Slot(h: Hash, p: nat, k: nat): (s: nat)
    requires Fits(h, p)
    ensures s < p
  {
    Probe(h.start, h.dec, p, k)
  }

  /** The first `k` probes of `h` hit occupied slots. */
  ghost predicate Busy<E>(t: seq<Option<E>>, p: nat, h: Hash, k: nat)
    requires Fits(h, p) && p <= |t|
  {
    forall i :: 0 <= i < k ==> t[Slot(h, p, i)].Some?
  }

  /** Slot `s` is reached by `h` over occupied slots only. */
  ghost predicate OnPath<E>(t: seq<Option<E>>, p: nat, h: Hash, s: nat)
    requires Fits(h, p) && p <= |t|
  {
    exists k :: 0 <= k < p && Slot(h, p, k) == s && Busy(t, p, h, k)
  }

  /** Every entry can be found from the hash of its key. */
  ghost predicate Reachable<E(!new)>(t: seq<Option<E>>, p: nat, key: E -> Hash)
  {
    && p <= |t| && (forall e: E :: Fits(key(e), p))
    && forall s :: 0 <= s < p && t[s].Some? ==> OnPath(t, p, key(t[s].value), s)
  }

  /** There is a slot at which the search must stop. */
  ghost predicate Stops<E>(t: seq<Option<E>>, p: nat, accept: E -> bool)
  {
    p <= |t| && exists s :: 0 <= s < p && (t[s].Some? ==> accept(t[s].value))
  }

  /** `a` is the first slot on the path of `h` that is free or holds what is looked for. */
  ghost predicate Stopped<E>(t: seq<Option<E>>, p: nat, h: Hash, accept: E -> bool, a: nat)
    requires Fits(h, p) && p <= |t|
  {
    && a < p && (t[a].Some? ==> accept(t[a].value))
    && exists k :: 0 <= k < p && Slot(h, p, k) == a
         && forall i :: 0 <= i < k ==> t[Slot(h, p, i)].Some? && !accept(t[Slot(h, p, i)].value)
  }

  /** The probe loop of the `search_..._hashtable` functions: it ends within `p` probes. */
  method Search<E>(t: array<Option<E>>, p: nat, h: Hash, accept: E -> bool) returns (a: nat)
    requires Prime(p) && Fits(h, p) && Stops(t[..], p, accept)
    ensures Stopped(t[..], p, h, accept, a)
  {
    hide Probe;
    a := h.start;
    ghost var k := 0;
    FirstProbe(h, p);
    ghost var s := StopIsProbed(t[..], p, h, accept);
    while t[a].Some?
      invariant k <= s < p && a == Slot(h, p, k)
      invariant forall i :: 0 <= i < k ==> t[Slot(h, p, i)].Some? && !accept(t[Slot(h, p, i)].value)
      decreases s - k
    {
      if accept(t[a].value) {
        break;
      }
      NextProbe(h, p, k);
      a := if a < h.dec then a + p - h.dec else a - h.dec;
      k := k + 1;
    }
  }

  lemma FirstProbe(h: Hash, p: nat)
    requires Fits(h, p)
    ensures Slot(h, p, 0) == h.start
  {
  }

  lemma NextProbe(h: Hash, p: nat, k: nat)
    requires Fits(h, p)
    ensures Slot(h, p, k + 1) == Down(Slot(h, p, k), h.dec, p)
  {
  }

  lemma StopIsProbed<E>(t: seq<Option<E>>, p: nat, h: Hash, accept: E -> bool) returns (k: nat)
    requires Prime(p) && Fits(h, p) && Stops(t, p, accept)
    ensures k < p && (t[Slot(h, p, k)].Some? ==> accept(t[Slot(h, p, k)].value))
  {
    hide Probe;
    var s :| 0 <= s < p && (t[s].Some? ==> accept(t[s].value));
    k := ProbesReach(h.start, h.dec, p, s);
  }

  /** Searches are complete: an entry that is wanted is not missed. */
  lemma Complete<E(!new)>(t: seq<Option<E>>, p: nat, key: E -> Hash, h: Hash, accept: E -> bool, a: nat, s: nat)
    requires Reachable(t, p, key) && Fits(h, p) && Stopped(t, p, h, accept, a)
    requires s < p && t[s].Some? && key(t[s].value) == h && accept(t[s].value)
    ensures t[a].Some?
  {
    hide Probe;
    var k :| 0 <= k < p && Slot(h, p, k) == a
      && forall i :: 0 <= i < k ==> t[Slot(h, p, i)].Some? && !accept(t[Slot(h, p, i)].value);
    assert OnPath(t, p, h, s);
    var m :| 0 <= m < p && Slot(h, p, m) == s && Busy(t, p, h, m);
  }

  /** Storing at a free slot on the path, or over an entry with the same hash, keeps every entry reachable. */
  lemma StoreKeeps<E(!new)>(t: seq<Option<E>>, p: nat, key: E -> Hash, a: nat, e: E)
    requires Reachable(t, p, key) && a < p && OnPath(t, p, key(e), a)
    ensures Reachable(t[a := Some(e)], p, key)
  {
    hide Probe;
    var u := t[a := Some(e)];
    forall s | 0 <= s < p && u[s].Some?
      ensures OnPath(u, p, key(u[s].value), s)
    {
      var h := key(u[s].value);
      assert OnPath(t, p, h, s);
      var k :| 0 <= k < p && Slot(h, p, k) == s && Busy(t, p, h, k);
      assert Busy(u, p, h, k);
    }
  }

  lemma StoppedOnPath<E>(t: seq<Option<E>>, p: nat, h: Hash, accept: E -> bool, a: nat)
    requires Fits(h, p) && p <= |t| && Stopped(t, p, h, accept, a)
    ensures OnPath(t, p, h, a)
  {
    hide Probe;
    var k :| 0 <= k < p && Slot(h, p, k) == a
      && forall i :: 0 <= i < k ==> t[Slot(h, p, i)].Some? && !accept(t[Slot(h, p, i)].value);
    assert Busy(t, p, h, k);
  }

  /** Only the keys of the entries matter. */
  lemma SameKeys<E(!new)>(t: seq<Option<E>>, p: nat, key: E -> Hash, key': E -> Hash)
    requires Reachable(t, p, key) && forall e: E :: Fits(key'(e), p)
    requires forall s :: 0 <= s < p && t[s].Some? ==> key'(t[s].value) == key(t[s].value)
    ensures Reachable(t, p, key')
  {
    hide OnPath;
  }
}
