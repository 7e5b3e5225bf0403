/** The priority queue of gzip.c: `SMALLER`, `pqdownheap` and `PQREMOVE`. */
module Heap {

  /** `SMALLER`: by frequency, then by subtree depth. */
  predicate Smaller(freq: seq<nat>, depth: seq<nat>, n: nat, m: nat)
    requires n < |freq| && m < |freq| && n < |depth| && m < |depth|
  {
    freq[n] < freq[m] || (freq[n] == freq[m] && depth[n] <= depth[m])
  }

  lemma SmallerTotal(freq: seq<nat>, depth: seq<nat>, n: nat, m: nat)
    requires n < |freq| && m < |freq| && n < |depth| && m < |depth|
    ensures Smaller(freq, depth, n, m) || Smaller(freq, depth, m, n)
  {
  }

  predicate SmallerIn(freq: array<nat>, depth: array<nat>, n: nat, m: nat)
    requires n < freq.Length && m < freq.Length && freq.Length <= depth.Length
    reads freq, depth
    ensures SmallerIn(freq, depth, n, m) == Smaller(freq[..], depth[..], n, m)
  {
    freq[n] < freq[m] || (freq[n] == freq[m] && depth[n] <= depth[m])
  }

  /** The first `len` entries, from 1, are nodes of the tree. */
  ghost predicate Nodes(heap: seq<nat>, len: nat, size: nat)
  {
    len < |heap| && forall i :: 1 <= i <= len ==> heap[i] < size
  }

  /** Every entry whose father is at `k` or beyond is not smaller than its father. */
  ghost predicate HeapFrom(heap: seq<nat>, len: nat, freq: seq<nat>, depth: seq<nat>, k: nat)
    requires Nodes(heap, len, |freq|) && |freq| <= |depth|
  {
    forall i {:trigger heap[i]} :: 2 <= i <= len && i / 2 >= k ==> Smaller(freq, depth, heap[i / 2], heap[i])
  }

  ghost function Content(heap: seq<nat>, len: nat): multiset<nat>
    requires len < |heap|
  {
    multiset(heap[1..len + 1])
  }

  /** Moving an entry into the hole at `k` and `v` into its place. */
  lemma ContentMove(s: seq<nat>, len: nat, k: nat, j: nat, v: nat)
    requires 1 <= k <= len < |s| && 1 <= j <= len && k != j
    ensures Content(s[k := s[j]][j := v], len) == Content(s[k := v], len)
  {
    var a := s[1..len + 1];
    assert s[k := v][1..len + 1] == a[k - 1 := v];
    assert s[k := s[j]][j := v][1..len + 1] == a[k - 1 := a[j - 1]][j - 1 := v];
    assert a[k - 1 := v][j - 1] == a[j - 1];
  }

  lemma ContentReplace(s: seq<nat>, len: nat, k: nat, v: nat)
    requires 1 <= k <= len < |s|
    ensures Content(s[k := v], len) == Content(s, len) - multiset{s[k]} + multiset{v}
  {
    var a := s[1..len + 1];
    assert a[k - 1] == s[k];
    assert s[k := v][1..len + 1] == a[k - 1 := v];
  }

  lemma ContentLast(s: seq<nat>, len: nat)
    requires 1 <= len < |s|
    ensures Content(s, len) == Content(s, len - 1) + multiset{s[len]}
  {
    assert s[1..len + 1] == s[1..len] + [s[len]];
  }

  lemma ContentRemoveTop(s: seq<nat>, len: nat)
    requires 2 <= len < |s|
    ensures Content(s[1 := s[len]], len - 1) == Content(s, len) - multiset{s[1]}
  {
    hide Content;
    ContentReplace(s, len, 1, s[len]);
    ContentLast(s[1 := s[len]], len);
    Cancel(Content(s[1 := s[len]], len - 1), Content(s, len) - multiset{s[1]}, multiset{s[len]});
  }

  lemma Cancel(a: multiset<nat>, b: multiset<nat>, c: multiset<nat>)
    requires a + c == b + c
    ensures a == b
  {
    assert a == a + c - c;
    assert b == b + c - c;
  }

  lemma ContentMember(s: seq<nat>, len: nat, x: nat)
    requires len < |s|
    ensures x in Content(s, len) <==> exists i :: 1 <= i <= len && s[i] == x
  {
    if x in Content(s, len) {
      assert x in s[1..len + 1];
      var j :| 0 <= j < len && s[1..len + 1][j] == x;
      assert s[j + 1] == x;
    }
    if i :| 1 <= i <= len && s[i] == x {
      assert s[1..len + 1][i - 1] == x;
    }
  }

  /** The root is a least element: the rarest, and of these one of least depth. */
  lemma {:induction false} RootLeast(heap: seq<nat>, len: nat, freq: seq<nat>, depth: seq<nat>, i: nat)
    requires Nodes(heap, len, |freq|) && |freq| <= |depth|
    requires HeapFrom(heap, len, freq, depth, 1)
    requires 1 <= i <= len
    ensures freq[heap[1]] < freq[heap[i]] || (freq[heap[1]] == freq[heap[i]] && depth[heap[1]] <= depth[heap[i]])
    decreases i
  {
    hide HeapFrom;
    if i > 1 {
      RootLeast(heap, len, freq, depth, i / 2);
      FatherSmaller(heap, len, freq, depth, i);
    }
  }

  lemma FatherSmaller(heap: seq<nat>, len: nat, freq: seq<nat>, depth: seq<nat>, i: nat)
    requires Nodes(heap, len, |freq|) && |freq| <= |depth|
    requires HeapFrom(heap, len, freq, depth, 1) && 2 <= i <= len
    ensures Smaller(freq, depth, heap[i / 2], heap[i])
  {
  }

  lemma SmallerSon(s: seq<nat>, len: nat, freq: seq<nat>, depth: seq<nat>, k: nat, j: nat)
    requires Nodes(s, len, |freq|) && |freq| <= |depth| && 1 <= k && (j == 2 * k || j == 2 * k + 1) && j <= len
    requires j == 2 * k && j < len ==> !Smaller(freq, depth, s[j + 1], s[j])
    requires j == 2 * k + 1 ==> Smaller(freq, depth, s[j], s[j - 1])
    ensures forall i :: 2 <= i <= len && i / 2 == k ==> Smaller(freq, depth, s[j], s[i])
  {
    forall i | 2 <= i <= len && i / 2 == k
      ensures Smaller(freq, depth, s[j], s[i])
    {
      assert i == 2 * k || i == 2 * k + 1;
    }
  }

  /** Moving the smaller son `j` of the hole `k` up keeps the order; the hole is now at `j`. */
  lemma MoveUp(s: seq<nat>, len: nat, freq: seq<nat>, depth: seq<nat>, k0: nat, k: nat, j: nat)
    requires Nodes(s, len, |freq|) && |freq| <= |depth|
    requires 1 <= k0 <= k && j / 2 == k && 2 <= j <= len
    requires if k == k0 then HeapFrom(s, len, freq, depth, k0 + 1) else HeapFrom(s, len, freq, depth, k0)
    requires forall i :: 2 <= i <= len && i / 2 == k ==> Smaller(freq, depth, s[j], s[i])
    ensures HeapFrom(s[k := s[j]], len, freq, depth, k0)
  {
    var t := s[k := s[j]];
    forall i {:trigger t[i]} | 2 <= i <= len && i / 2 >= k0
      ensures Smaller(freq, depth, t[i / 2], t[i])
    {
      if i == k {
        assert Smaller(freq, depth, s[k / 2], s[k]);
        assert Smaller(freq, depth, s[k], s[j]);
      } else if i / 2 != k {
        assert t[i] == s[i] && t[i / 2] == s[i / 2];
      }
    }
  }

  lemma SonsAbove(s: seq<nat>, len: nat, freq: seq<nat>, depth: seq<nat>, k: nat, j: nat, v: nat)
    requires Nodes(s, len, |freq|) && |freq| <= |depth| && v < |freq| && 1 <= j <= len && Smaller(freq, depth, v, s[j])
    requires forall i :: 2 <= i <= len && i / 2 == k ==> Smaller(freq, depth, s[j], s[i])
    ensures forall i :: 2 <= i <= len && i / 2 == k ==> Smaller(freq, depth, v, s[i])
  {
  }

  /** Putting `v` into the hole completes the order. */
  lemma FillHole(s: seq<nat>, len: nat, freq: seq<nat>, depth: seq<nat>, k0: nat, k: nat, v: nat)
    requires Nodes(s, len, |freq|) && |freq| <= |depth| && v < |freq|
    requires 1 <= k0 <= k <= len
    requires if k == k0 then HeapFrom(s, len, freq, depth, k0 + 1)
             else HeapFrom(s, len, freq, depth, k0) && k / 2 >= k0 && Smaller(freq, depth, s[k / 2], v)
    requires forall i :: 2 <= i <= len && i / 2 == k ==> Smaller(freq, depth, v, s[i])
    ensures HeapFrom(s[k := v], len, freq, depth, k0)
  {
    var t := s[k := v];
    forall i {:trigger t[i]} | 2 <= i <= len && i / 2 >= k0
      ensures Smaller(freq, depth, t[i / 2], t[i])
    {
      if i != k && i / 2 != k {
        assert t[i] == s[i] && t[i / 2] == s[i / 2];
      }
    }
  }

  /** `pqdownheap`: restore the order below `k0` by moving its entry down. */
  method PqDownHeap(heap: array<nat>, len: nat, freq: array<nat>, depth: array<nat>, k0: nat)
    requires heap != freq && heap != depth
    requires Nodes(heap[..], len, freq.Length) && freq.Length <= depth.Length
    requires 1 <= k0 <= len
    requires HeapFrom(heap[..], len, freq[..], depth[..], k0 + 1)
    modifies heap
    ensures Nodes(heap[..], len, freq.Length)
    ensures HeapFrom(heap[..], len, freq[..], depth[..], k0)
    ensures Content(heap[..], len) == old(Content(heap[..], len))
    ensures forall i :: len < i < heap.Length ==> heap[i] == old(heap[i])
  {
    hide Content, HeapFrom, Smaller;
    ghost var f, d, was := freq[..], depth[..], heap[..];
    assert heap[..][k0 := heap[k0]] == was;
    var k: nat, v: nat, j: nat := k0, heap[k0], 2 * k0;
    while j <= len
      invariant k0 <= k <= len && j == 2 * k
      invariant freq[..] == f && depth[..] == d && v < |f|
      invariant Nodes(heap[..], len, |f|)
      invariant Content(heap[..][k := v], len) == Content(was, len)
      invariant forall i :: len < i < heap.Length ==> heap[i] == was[i]
      invariant k == k0 ==> HeapFrom(heap[..], len, f, d, k0 + 1) && heap[k] == v
      invariant k != k0 ==> HeapFrom(heap[..], len, f, d, k0) && k / 2 >= k0 && Smaller(f, d, heap[k / 2], v)
      decreases len - k
    {
      ghost var s := heap[..];
      if j < len && SmallerIn(freq, depth, heap[j + 1], heap[j]) {
        j := j + 1;
      }
      SmallerSon(s, len, f, d, k, j);
      if SmallerIn(freq, depth, v, heap[j]) {
        SonsAbove(s, len, f, d, k, j, v);
        break;
      }
      SmallerTotal(f, d, v, s[j]);
      MoveUp(s, len, f, d, k0, k, j);
      ContentMove(s, len, k, j, v);
      heap[k] := heap[j];
      assert heap[..] == s[k := s[j]];
      k := j;
      j := 2 * j;
    }
    ghost var s := heap[..];
    FillHole(s, len, f, d, k0, k, v);
    heap[k] := v;
    assert heap[..] == s[k := v];
  }

  /** `PQREMOVE`: take a least element out; the queue shrinks by one. */
  method PqRemove(heap: array<nat>, len: nat, freq: array<nat>, depth: array<nat>) returns (top: nat)
    requires heap != freq && heap != depth
    requires Nodes(heap[..], len, freq.Length) && freq.Length <= depth.Length
    requires 2 <= len
    requires HeapFrom(heap[..], len, freq[..], depth[..], 1)
    modifies heap
    ensures top < freq.Length && top in old(Content(heap[..], len))
    ensures forall i :: 1 <= i <= len ==> freq[top] <= freq[old(heap[i])]
    ensures forall i :: 1 <= i <= len && freq[top] == freq[old(heap[i])] ==> depth[top] <= depth[old(heap[i])]
    ensures Nodes(heap[..], len - 1, freq.Length)
    ensures HeapFrom(heap[..], len - 1, freq[..], depth[..], 1)
    ensures Content(heap[..], len - 1) == old(Content(heap[..], len)) - multiset{top}
    ensures forall i :: len < i < heap.Length ==> heap[i] == old(heap[i])
  {
    hide Content;
    ghost var was := heap[..];
    top := heap[1];
    forall i | 1 <= i <= len
      ensures freq[top] <= freq[was[i]] && (freq[top] == freq[was[i]] ==> depth[top] <= depth[was[i]])
    {
      RootLeast(was, len, freq[..], depth[..], i);
    }
    ContentMember(was, len, top);
    ContentRemoveTop(was, len);
    heap[1] := heap[len];
    assert heap[..] == was[1 := was[len]];
    PqDownHeap(heap, len - 1, freq, depth, 1);
  }
}
