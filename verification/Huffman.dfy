/** `build_tree` of gzip.c up to the finished tree. */
module Huffman {
  import opened Bits
  import opened Heap
  import opened HuffmanTree

  const L_CODES := 286
  const HEAP_SIZE := 2 * L_CODES + 1

  /**
   * A `tree_desc` with its `ct_data` vector. The two unions of `ct_data` are two vectors: `fc` holds
   * a frequency and later a code, `dl` a father and later a length.
   */
  class Tree {
    const fc: array<nat>
    const dl: array<nat>
    const elems: nat
    const maxLength: nat
    const extra: seq<nat>
    const extraBase: nat
    /** The `Len` fields of the static tree; empty where the source has NULL. */
    const stree: seq<nat>
    var maxCode: int

    ghost predicate Valid()
    {
      && 3 <= elems <= L_CODES && 1 <= maxLength <= 15 && elems <= Pow2(maxLength)
      && fc.Length == 2 * elems + 1 && dl.Length == 2 * elems + 1 && fc != dl
      && extraBase + |extra| == elems
      && Extra(0) == Extra(1) == Extra(2) == 0
      && (stree != [] ==> |stree| >= elems)
    }

    function Extra(n: nat): nat
    {
      if extraBase <= n < extraBase + |extra| then extra[n - extraBase] else 0
    }

    constructor (elems: nat, maxLength: nat, extra: seq<nat>, extraBase: nat, stree: seq<nat>)
      requires 3 <= elems <= L_CODES && 1 <= maxLength <= 15 && elems <= Pow2(maxLength)
      requires extraBase + |extra| == elems
      requires forall i :: 0 <= i < |extra| && i + extraBase < 3 ==> extra[i] == 0
      requires stree != [] ==> |stree| >= elems
      ensures Valid() && fresh(fc) && fresh(dl)
      ensures this.elems == elems && this.maxLength == maxLength && this.extra == extra
      ensures this.extraBase == extraBase && this.stree == stree
      ensures forall n :: 0 <= n < fc.Length ==> fc[n] == 0
    {
      this.elems, this.maxLength, this.extra, this.extraBase := elems, maxLength, extra, extraBase;
      this.stree := stree;
      this.fc := new nat[2 * elems + 1](_ => 0);
      this.dl := new nat[2 * elems + 1](_ => 0);
      this.maxCode := 0;
    }
  }

  /** The working storage that all trees share. */
  class Builder {
    const heap: array<nat>
    const depth: array<nat>
    const blCount: array<nat>
    var heapLen: nat
    var heapMax: nat
    var optLen: int
    var staticLen: int

    ghost predicate Valid()
    {
      && heap.Length == HEAP_SIZE && depth.Length == HEAP_SIZE && blCount.Length == 16
      && heap != depth && heap != blCount && depth != blCount
    }

    /** The tree's vectors are not the working storage. */
    ghost predicate Fits(t: Tree)
    {
      && Valid() && t.Valid()
      && heap != t.fc && heap != t.dl && depth != t.fc && depth != t.dl
      && blCount != t.fc && blCount != t.dl
    }

    constructor ()
      ensures Valid() && fresh(heap) && fresh(depth) && fresh(blCount)
      ensures optLen == 0 && staticLen == 0
      ensures forall b :: 0 <= b < 16 ==> blCount[b] == 0
    {
      heap := new nat[HEAP_SIZE](_ => 0);
      depth := new nat[HEAP_SIZE](_ => 0);
      blCount := new nat[16](_ => 0);
      heapLen, heapMax, optLen, staticLen := 0, 0, 0, 0;
    }

    /** The first loop of `build_tree`: queue the symbols that occur, clear the lengths of the others. */
    method InitHeap(t: Tree) returns (maxCode: int)
      requires Fits(t)
      modifies this`heapLen, this`heapMax, heap, depth, t.dl
      ensures heapMax == HEAP_SIZE
      ensures Queued(heap[..], heapLen, t.fc[..], t.elems)
      ensures forall n :: 0 <= n < t.elems && t.fc[n] == 0 ==> t.dl[n] == 0
      ensures TopCode(t.fc[..], t.elems, heapLen, maxCode)
    {
      hide Scanned;
      maxCode := -1;
      heapLen, heapMax := 0, HEAP_SIZE;
      ghost var f := t.fc[..];
      ScanStart(heap[..], f, t.elems);
      var n: nat := 0;
      while n < t.elems
        invariant n <= t.elems && heapLen <= n && heapMax == HEAP_SIZE
        invariant Scanned(heap[..], heapLen, f, n, t.elems, maxCode)
        invariant forall i :: 0 <= i < n && f[i] == 0 ==> t.dl[i] == 0
      {
        ghost var s := heap[..];
        ScanStep(s, heapLen, f, n, t.elems, maxCode);
        if t.fc[n] != 0 {
          heapLen := heapLen + 1;
          heap[heapLen], maxCode := n, n;
          depth[n] := 0;
          assert heap[..] == s[heapLen := n];
        } else {
          t.dl[n] := 0;
        }
        n := n + 1;
      }
      ScanEnd(heap[..], heapLen, f, t.elems, maxCode);
    }

    /** One turn of the loop that makes sure there are two codes. */
    method ForceOne(t: Tree, max: int) returns (maxCode: int, added: nat)
      requires Fits(t) && heapLen < 2
      requires Queued(heap[..], heapLen, t.fc[..], t.elems)
      requires TopCode(t.fc[..], t.elems, heapLen, max)
      modifies this`heapLen, this`optLen, this`staticLen, heap, depth, t.fc
      ensures heapLen == old(heapLen) + 1
      ensures added == NewCode(max) && added <= maxCode && maxCode == (if max < 2 then max + 1 else max)
      ensures old(t.fc[added]) == 0 && t.fc[..] == old(t.fc[..])[added := 1]
      ensures Queued(heap[..], heapLen, t.fc[..], t.elems)
      ensures TopCode(t.fc[..], t.elems, heapLen, maxCode)
      ensures optLen == old(optLen) - 1
      ensures staticLen == if t.stree != [] then old(staticLen) - t.stree[added] else old(staticLen)
    {
      hide Content;
      ghost var s, f := heap[..], t.fc[..];
      if max < 2 {
        maxCode := max + 1;
        added := maxCode;
      } else {
        SoleLeaf(s, heapLen, f, t.elems, max);
        maxCode, added := max, 0;
      }
      heapLen := heapLen + 1;
      heap[heapLen] := added;
      ContentPush(s, heapLen, added);
      LeavesAdd(f, t.elems, added);
      assert heap[..] == s[heapLen := added];
      t.fc[added] := 1;
      assert t.fc[..] == f[added := 1];
      depth[added] := 0;
      optLen := optLen - 1;
      if t.stree != [] {
        staticLen := staticLen - t.stree[added];
      }
    }

    /** Make sure that there are two codes; the accounting charges nothing for the added ones. */
    method ForceTwo(t: Tree, max0: int) returns (maxCode: int)
      requires Fits(t)
      requires Queued(heap[..], heapLen, t.fc[..], t.elems)
      requires TopCode(t.fc[..], t.elems, heapLen, max0)
      modifies this`heapLen, this`optLen, this`staticLen, heap, depth, t.fc
      ensures 2 <= heapLen && (heapLen == 2 || t.fc[..] == old(t.fc[..]))
      ensures Queued(heap[..], heapLen, t.fc[..], t.elems)
      ensures TopCode(t.fc[..], t.elems, heapLen, maxCode)
      ensures 1 <= maxCode && max0 <= maxCode && (maxCode <= 2 || maxCode == max0)
      ensures t.fc[..t.elems] == Forced(old(t.fc[..t.elems]))
      ensures OnlyAdds(old(t.fc[..]), t.fc[..], t.elems)
      ensures optLen + Cost(t.fc[..t.elems], Ones(t.elems), Extras(t))
           == old(optLen + Cost(t.fc[..t.elems], Ones(t.elems), Extras(t)))
      ensures staticLen + StaticCost(t, t.fc[..t.elems]) == old(staticLen + StaticCost(t, t.fc[..t.elems]))
    {
      hide Content, Cost, Forced, ForcedFrom;
      maxCode := max0;
      ghost var f0, e, xs := t.fc[..], t.elems, Extras(t);
      ForcedIs(heap[..], heapLen, f0, e, max0);
      ghost var forced := Forced(f0[..e]);
      while heapLen < 2
        invariant Queued(heap[..], heapLen, t.fc[..], e)
        invariant TopCode(t.fc[..], e, heapLen, maxCode)
        invariant max0 <= maxCode && (maxCode == max0 || maxCode <= 2)
        invariant heapLen <= 2 || t.fc[..] == f0
        invariant ForcedFrom(t.fc[..e], heapLen, maxCode) == forced
        invariant OnlyAdds(f0, t.fc[..], e)
        invariant optLen + Cost(t.fc[..e], Ones(e), xs) == old(optLen) + Cost(f0[..e], Ones(e), xs)
        invariant staticLen + StaticCost(t, t.fc[..e]) == old(staticLen + StaticCost(t, t.fc[..e]))
      {
        ghost var f, sc := t.fc[..], StaticCost(t, t.fc[..e]);
        ForcedStep(t.fc[..e], heapLen, maxCode);
        var added;
        maxCode, added := ForceOne(t, maxCode);
        assert t.fc[..e] == f[..e][added := 1];
        CostAdd(f[..e], Ones(e), xs, added);
        StaticCostAdd(t, f[..e], added);
      }
      ForcedStep(t.fc[..e], heapLen, maxCode);
      TwoCodes(heap[..], heapLen, t.fc[..], e, maxCode);
    }

    /** Establish the heap order. */
    method Heapify(t: Tree)
      requires Fits(t) && Nodes(heap[..], heapLen, t.elems)
      modifies heap
      ensures Nodes(heap[..], heapLen, t.elems)
      ensures HeapFrom(heap[..], heapLen, t.fc[..], depth[..], 1)
      ensures Content(heap[..], heapLen) == old(Content(heap[..], heapLen))
    {
      hide Content;
      var n := heapLen / 2;
      while n >= 1
        invariant 0 <= n <= heapLen / 2
        invariant Nodes(heap[..], heapLen, t.elems)
        invariant HeapFrom(heap[..], heapLen, t.fc[..], depth[..], n + 1)
        invariant Content(heap[..], heapLen) == old(Content(heap[..], heapLen))
      {
        ghost var s := heap[..];
        PqDownHeap(heap, heapLen, t.fc, depth, n);
        ContentBound(s, heap[..], heapLen, t.elems);
        n := n - 1;
      }
    }

    /**
     * `build_tree` up to the call of `gen_bitlen`: from the frequencies to the finished tree. `weight` holds the
     * true sums; the 16-bit frequencies differ from them at most at the root, and are in order exactly when the
     * total fits.
     */
    method MakeTree(t: Tree) returns (ghost leaf: seq<nat>, ghost k: nat, ghost rem: seq<nat>, ghost weight: seq<nat>)
      requires Fits(t) && Sum(t.fc[..t.elems]) < 65536
      modifies this`heapLen, this`heapMax, this`optLen, this`staticLen, heap, depth, t.fc, t.dl, t`maxCode
      ensures leaf == Forced(old(t.fc[..t.elems])) && FullTree(rem, leaf, weight, t.dl[..], k)
      ensures |weight| == t.dl.Length
      ensures t.fc[..t.elems] == leaf
      ensures InOrder(rem, t.fc[..]) <==> Sum(leaf) < 65536
      ensures heapMax == HEAP_SIZE - |rem| && Stored(heap[..], rem)
      ensures forall n :: 0 <= n < t.elems && leaf[n] == 0 ==> t.dl[n] == 0
      ensures 1 <= t.maxCode < t.elems
      ensures forall n :: t.maxCode < n < t.elems ==> leaf[n] == 0
      ensures t.maxCode <= 2 || old(t.fc[..])[t.maxCode] > 0
      ensures k == 2 || leaf == old(t.fc[..t.elems])
      ensures OnlyAdds(old(t.fc[..t.elems]), leaf, t.elems)
      ensures optLen + Cost(leaf, Ones(t.elems), Extras(t))
           == old(optLen + Cost(t.fc[..t.elems], Ones(t.elems), Extras(t)))
      ensures staticLen + StaticCost(t, leaf) == old(staticLen + StaticCost(t, t.fc[..t.elems]))
    {
      hide Content, Cost, Leaves, Merged, HeapFrom, AllNodes, Active, MergeState, Forced, FullTree, Sum, OnlyAdds,
           InOrder, Stored;
      ghost var freq: seq<nat>, f0: seq<nat> := t.fc[..t.elems], t.fc[..];
      var max0 := InitHeap(t);
      var maxCode := ForceTwo(t, max0);
      t.maxCode := maxCode;
      leaf, k := t.fc[..t.elems], heapLen;
      OnlyAddsFront(f0, t.fc[..], t.elems);
      ForcedTotal(freq);
      Heapify(t);
      rem, weight := MergeAll(t, leaf, k);
      RootWraps(rem, leaf, weight, t.fc[..], t.dl[..], k);
    }

    method MergeAll(t: Tree, ghost leaf: seq<nat>, ghost k: nat) returns (ghost rem: seq<nat>, ghost weight: seq<nat>)
      requires Fits(t) && heapMax == HEAP_SIZE && 2 <= heapLen == k
      requires leaf == t.fc[..t.elems] && (Sum(leaf) < 65536 || k == 2)
      requires Queued(heap[..], heapLen, t.fc[..], t.elems)
      requires HeapFrom(heap[..], heapLen, t.fc[..], depth[..], 1)
      modifies this`heapLen, this`heapMax, heap, depth, t.fc, t.dl
      ensures FullTree(rem, leaf, weight, t.dl[..], k)
      ensures Wrapped(weight, t.fc[..], t.elems + k - 2) && weight[t.elems + k - 2] == Sum(leaf)
      ensures heapMax == HEAP_SIZE - |rem| && Stored(heap[..], rem)
      ensures forall n :: 0 <= n < t.elems && leaf[n] == 0 ==> t.dl[n] == old(t.dl[n])
    {
      hide Content, Leaves, Merged, HeapFrom, AllNodes, Active, MergeState, Sum, Queued, FullTree;
      rem, weight := [], t.fc[..];
      ghost var act := StartMerge(heap[..], heapLen, t.fc[..], t.dl[..], depth[..], leaf);
      var node := t.elems;
      while true
        invariant t.elems <= node && heapLen >= 1 && (node == t.elems ==> heapLen >= 2)
        invariant node - t.elems + heapLen == k && k <= t.elems && |weight| == t.fc.Length
        invariant MergeState(heap[..], heapLen, weight, t.dl[..], depth[..], leaf, k, node - t.elems, rem)
        invariant if heapLen >= 2 then t.fc[..] == weight else Wrapped(weight, t.fc[..], t.elems + k - 2)
        invariant heapMax == HEAP_SIZE - |rem|
        invariant Active(act, Content(heap[..], heapLen), weight) && Sum(act) == Sum(leaf)
        invariant forall n :: 0 <= n < t.elems && leaf[n] == 0 ==> t.dl[n] == old(t.dl[n])
        decreases heapLen
      {
        if heapLen < 2 {
          break;
        }
        rem, act, weight := MergeStep(t, node, leaf, k, rem, act);
        node := node + 1;
      }
      ghost var s: seq<nat> := heap[..];
      CloseMerge(s, weight, t.dl[..], depth[..], leaf, k, rem);
      RootTotal(s, weight, t.dl[..], depth[..], leaf, k, rem, act);
      rem := rem + [s[1]];
      heapMax := heapMax - 1;
      heap[heapMax] := heap[1];
      assert heap[..] == s[heapMax := s[1]];
      StoreLast(s, rem);
    }

    /** One turn of the merge loop: the two least nodes leave the queue, their father enters it. */
    method MergeStep(t: Tree, node: nat, ghost leaf: seq<nat>, ghost k: nat, ghost rem: seq<nat>, ghost act: seq<int>)
      returns (ghost rem': seq<nat>, ghost act': seq<int>, ghost weight: seq<nat>)
      requires Fits(t) && heapLen >= 2 && t.elems <= node < 2 * t.elems && |leaf| == t.elems
      requires MergeState(heap[..], heapLen, t.fc[..], t.dl[..], depth[..], leaf, k, node - t.elems, rem)
      requires heapMax == HEAP_SIZE - |rem|
      requires Active(act, Content(heap[..], heapLen), t.fc[..]) && (Sum(act) < 65536 || heapLen == 2)
      modifies this`heapLen, this`heapMax, heap, depth, t.fc, t.dl
      ensures heapLen == old(heapLen) - 1 && heapMax == HEAP_SIZE - |rem'| && |rem'| == |rem| + 2
      ensures MergeState(heap[..], heapLen, weight, t.dl[..], depth[..], leaf, k, node + 1 - t.elems, rem')
      ensures Wrapped(weight, t.fc[..], node) && (heapLen >= 2 ==> t.fc[..] == weight)
      ensures Active(act', Content(heap[..], heapLen), weight) && Sum(act') == Sum(act)
      ensures forall x :: 0 <= x < t.elems && leaf[x] == 0 ==> t.dl[x] == old(t.dl[x])
    {
      hide Content, Active, Sum, MergeState, Taken, Wrapped;
      ghost var s0: seq<nat>, f: seq<nat>, step := heap[..], t.fc[..], node - t.elems;
      var n: nat := TakeLeast(t, leaf, k, step, rem);
      var m: nat := heap[1];
      act' := MergePair(s0, heap[..], heapLen, f, t.dl[..], depth[..], leaf, k, step, rem, n, act);
      rem' := rem + [n, m];
      weight := PlaceFather(t, node, n, m, s0, leaf, k, step, rem);
    }

    /** `PQREMOVE` in the merge loop. */
    method TakeLeast(t: Tree, ghost leaf: seq<nat>, ghost k: nat, ghost step: nat, ghost rem: seq<nat>) returns (n: nat)
      requires Fits(t) && heapLen >= 2 && |leaf| == t.elems
      requires MergeState(heap[..], heapLen, t.fc[..], t.dl[..], depth[..], leaf, k, step, rem)
      modifies this`heapLen, heap
      ensures heapLen == old(heapLen) - 1
      ensures Taken(old(heap[..]), heap[..], heapLen, t.fc[..], t.dl[..], depth[..], leaf, k, step, rem, n)
    {
      hide Content, Merged, HeapFrom, AllNodes, Stored, Above;
      ghost var s0: seq<nat>, c := heap[..], Content(heap[..], heapLen);
      n := PqRemove(heap, heapLen, t.fc, depth);
      heapLen := heapLen - 1;
      TopTwo(s0, heap[..], heapLen, t.fc[..], depth[..], c, n, t.elems + step);
    }

    method PlaceFather(t: Tree, node: nat, n: nat, m: nat,
                       ghost s0: seq<nat>, ghost leaf: seq<nat>, ghost k: nat, ghost step: nat, ghost rem: seq<nat>)
      returns (ghost weight: seq<nat>)
      requires Fits(t) && |leaf| == t.elems && node == t.elems + step
      requires Taken(s0, heap[..], heapLen, t.fc[..], t.dl[..], depth[..], leaf, k, step, rem, n)
      requires n != m && m == heap[1] && n < node && m < node && (t.fc[n] + t.fc[m] < 65536 || heapLen == 1)
      requires heapMax == HEAP_SIZE - |rem|
      modifies this`heapMax, heap, depth, t.fc, t.dl
      ensures heapMax == old(heapMax) - 2
      ensures weight == old(t.fc[..])[node := old(t.fc[n] + t.fc[m])] && Wrapped(weight, t.fc[..], node)
      ensures heapLen >= 2 ==> t.fc[..] == weight
      ensures t.dl[..] == old(t.dl[..])[n := node][m := node]
      ensures Content(heap[..], heapLen) == old(Content(heap[..], heapLen)) - multiset{m} + multiset{node}
      ensures MergeState(heap[..], heapLen, weight, t.dl[..], depth[..], leaf, k, step + 1, rem + [n, m])
    {
      hide Content, HeapFrom, MergeState, Taken, Wrapped, Nodes, TwoStored;
      ghost var f: seq<nat>, d: seq<nat>, dp: seq<nat>, s1: seq<nat> := t.fc[..], t.dl[..], depth[..], heap[..];
      TakenBounds(s0, s1, heapLen, f, d, dp, leaf, k, step, rem, n);
      QueueFather(t, node, n, m);
      weight := f[node := f[n] + f[m]];
      Placed(s0, s1, heap[..], heapLen, f, d, dp, t.fc[..], depth[..], leaf, k, step, rem, n);
    }

    /** The stores of one merge and the queue's repair after them. */
    method QueueFather(t: Tree, node: nat, n: nat, m: nat)
      requires Fits(t) && node < t.fc.Length && n < node && m < node && n != m
      requires 1 <= heapLen && heapLen + 2 < heapMax <= HEAP_SIZE && m == heap[1]
      requires Nodes(heap[..], heapLen, node) && HeapFrom(heap[..], heapLen, t.fc[..], depth[..], 1)
      modifies this`heapMax, heap, depth, t.fc, t.dl
      ensures heapMax == old(heapMax) - 2
      ensures t.fc[..] == old(t.fc[..])[node := old(t.fc[n] + t.fc[m]) % 65536]
      ensures t.dl[..] == old(t.dl[..])[n := node][m := node]
      ensures Nodes(heap[..], heapLen, node + 1) && HeapFrom(heap[..], heapLen, t.fc[..], depth[..], 1)
      ensures Content(heap[..], heapLen) == old(Content(heap[..], heapLen)) - multiset{m} + multiset{node}
      ensures TwoStored(old(heap[..]), heap[..], old(heapMax), n, m)
    {
      hide Content, HeapFrom;
      ghost var f: seq<nat>, dp: seq<nat>, s1: seq<nat> := t.fc[..], depth[..], heap[..];
      Attach(t, node, n, m);
      ghost var s3: seq<nat> := heap[..];
      Insert(s1, s3, heapLen, f, dp, t.fc[..], depth[..], node);
      PqDownHeap(heap, heapLen, t.fc, depth, 1);
      ContentBound(s3, heap[..], heapLen, node + 1);
    }

    /** The stores of one merge: `n` and `m` go to the top of `heap`, their father `node` is set up and queued. */
    method Attach(t: Tree, node: nat, n: nat, m: nat)
      requires Fits(t) && node < t.fc.Length && n < node && m < node && n != m && 4 <= heapMax <= HEAP_SIZE
      modifies this`heapMax, heap, depth, t.fc, t.dl
      ensures heapMax == old(heapMax) - 2
      ensures heap[..] == old(heap[..])[old(heapMax) - 1 := n][old(heapMax) - 2 := m][1 := node]
      ensures t.fc[..] == old(t.fc[..])[node := old(t.fc[n] + t.fc[m]) % 65536]
      ensures t.dl[..] == old(t.dl[..])[n := node][m := node]
      ensures forall x :: 0 <= x < node ==> depth[x] == old(depth[x])
    {
      heapMax := heapMax - 1;
      heap[heapMax] := n;
      heapMax := heapMax - 1;
      heap[heapMax] := m;
      t.fc[node] := (t.fc[n] + t.fc[m]) % 65536;
      depth[node] := ((if depth[n] >= depth[m] then depth[n] else depth[m]) + 1) % 256;
      t.dl[n] := node;
      t.dl[m] := node;
      heap[1] := node;
    }
  }

  /** The queue holds exactly the symbols that occur. */
  ghost predicate Queued(heap: seq<nat>, len: nat, f: seq<nat>, e: nat)
  {
    && len <= e <= |f| && Nodes(heap, len, e)
    && Content(heap, len) == multiset(Leaves(f, e))
  }

  /** The first `n` symbols have been looked at. */
  ghost predicate Scanned(heap: seq<nat>, len: nat, f: seq<nat>, n: nat, e: nat, maxCode: int)
  {
    && len <= n <= e <= |f| && Nodes(heap, len, e)
    && Content(heap, len) == multiset(Leaves(f, n))
    && TopCode(f, n, len, maxCode)
  }

  lemma ScanStart(heap: seq<nat>, f: seq<nat>, e: nat)
    requires |heap| > 0 && e <= |f|
    ensures Scanned(heap, 0, f, 0, e, -1)
  {
    hide Content;
    EmptyContent(heap);
  }

  lemma ScanStep(heap: seq<nat>, len: nat, f: seq<nat>, n: nat, e: nat, maxCode: int)
    requires Scanned(heap, len, f, n, e, maxCode) && n < e && len + 1 < |heap|
    ensures f[n] != 0 ==> Scanned(heap[len + 1 := n], len + 1, f, n + 1, e, n)
    ensures f[n] == 0 ==> Scanned(heap, len, f, n + 1, e, maxCode)
  {
    hide Content, Leaves;
    LeavesStep(f, n);
    ContentPush(heap, len + 1, n);
  }

  lemma ScanEnd(heap: seq<nat>, len: nat, f: seq<nat>, e: nat, maxCode: int)
    requires Scanned(heap, len, f, e, e, maxCode)
    ensures Queued(heap, len, f, e) && TopCode(f, e, len, maxCode)
  {
    hide Content, Leaves;
  }

  /** `maxCode` is the largest symbol that occurs, or -1. */
  ghost predicate TopCode(f: seq<nat>, e: nat, len: nat, maxCode: int)
  {
    && e <= |f| && -1 <= maxCode < e
    && (forall n :: maxCode < n < e ==> f[n] == 0)
    && (len > 0 ==> maxCode >= 0 && f[maxCode] > 0)
    && (len == 0 ==> maxCode == -1)
  }

  /** Some symbols that did not occur now occur once. */
  ghost predicate OnlyAdds(f0: seq<nat>, f: seq<nat>, e: nat)
  {
    && e <= |f0| == |f|
    && (forall n :: 0 <= n < |f| && (n >= e || f0[n] > 0) ==> f[n] == f0[n])
    && (forall n :: 0 <= n < e && f0[n] == 0 ==> f[n] <= 1)
  }

  lemma OnlyAddsFront(f0: seq<nat>, f: seq<nat>, e: nat)
    requires OnlyAdds(f0, f, e)
    ensures OnlyAdds(f0[..e], f[..e], e) && forall n :: 0 <= n < |f| && f0[n] > 0 ==> f[n] == f0[n]
  {
  }

  /** The merge loop after `t` turns: `len` nodes queued, `rem` already out, and stored from the top of `heap` down. */
  ghost predicate MergeState(heap: seq<nat>, len: nat, f: seq<nat>, d: seq<nat>, dp: seq<nat>,
                             leaf: seq<nat>, k: nat, t: nat, rem: seq<nat>)
  {
    var e := |leaf|;
    && |heap| == HEAP_SIZE && e <= L_CODES && |f| == |d| == 2 * e + 1 && |dp| == HEAP_SIZE
    && 1 <= len && k == len + t <= e
    && Nodes(heap, len, e + t)
    && HeapFrom(heap, len, f, dp, 1)
    && |rem| == 2 * t && Stored(heap, rem)
    && Merged(rem, f, d, e, t)
    && Content(heap, len) + multiset(rem) == multiset(AllNodes(leaf, t))
    && f[..e] == leaf
    && Above(heap, len, f, rem)
    && (t > 0 ==> e + t - 1 in Content(heap, len))
  }

  lemma StartMerge(heap: seq<nat>, len: nat, f: seq<nat>, d: seq<nat>, dp: seq<nat>, leaf: seq<nat>)
    returns (act: seq<int>)
    requires |heap| == HEAP_SIZE && |leaf| <= L_CODES && |f| == |d| == 2 * |leaf| + 1 && |dp| == HEAP_SIZE
    requires 2 <= len && f[..|leaf|] == leaf && Queued(heap, len, f, |leaf|) && HeapFrom(heap, len, f, dp, 1)
    ensures MergeState(heap, len, f, d, dp, leaf, len, 0, [])
    ensures Active(act, Content(heap, len), f) && Sum(act) == Sum(leaf)
  {
    var e := |leaf|;
    assert Leaves(f, e) == Leaves(leaf, e);
    assert AllNodes(leaf, 0) == Leaves(leaf, e);
    act := seq(|f|, x requires 0 <= x < |f| => if x < e then f[x] else 0);
    ActiveStart(f, e, act);
  }

  lemma CloseMerge(heap: seq<nat>, f: seq<nat>, d: seq<nat>, dp: seq<nat>, leaf: seq<nat>, k: nat, rem: seq<nat>)
    requires k >= 2 && MergeState(heap, 1, f, d, dp, leaf, k, k - 1, rem)
    ensures FullTree(rem + [heap[1]], leaf, f, d, k) && |rem| == 2 * k - 2 && k <= |leaf| && Stored(heap, rem)
  {
    assert heap[1..2] == [heap[1]];
    assert Content(heap, 1) == multiset{heap[1]};
    RemBound(rem, f, d, |leaf|, k - 1);
    MergeCloses(rem, leaf, f, d, k, heap[1]);
  }

  lemma StoreLast(s: seq<nat>, rem: seq<nat>)
    requires 1 <= |rem| < |s| && Stored(s, rem[..|rem| - 1])
    ensures Stored(s[|s| - |rem| := rem[|rem| - 1]], rem)
  {
  }

  lemma StoreTwo(s0: seq<nat>, s4: seq<nat>, rem: seq<nat>, n: nat, m: nat)
    requires Stored(s0, rem) && |s4| == |s0| && |rem| + 2 <= |s0|
    requires forall p :: |s0| - |rem| <= p < |s0| ==> s4[p] == s0[p]
    requires s4[|s0| - 1 - |rem|] == n && s4[|s0| - 2 - |rem|] == m
    ensures Stored(s4, rem + [n, m])
  {
  }

  ghost predicate Stored(heap: seq<nat>, rem: seq<nat>)
  {
    |rem| <= |heap| && forall j :: 0 <= j < |rem| ==> heap[|heap| - 1 - j] == rem[j]
  }

  /** Whatever is queued is at least as frequent as whatever has left. */
  ghost predicate Above(heap: seq<nat>, len: nat, f: seq<nat>, rem: seq<nat>)
    requires Nodes(heap, len, |f|)
  {
    forall i, j :: 1 <= i <= len && 0 <= j < |rem| && rem[j] < |f| ==> f[rem[j]] <= f[heap[i]]
  }

  lemma TopTwo(s0: seq<nat>, s1: seq<nat>, len: nat, f: seq<nat>, dp: seq<nat>, c: multiset<nat>, n: nat, size: nat)
    requires 1 <= len && Nodes(s1, len, |f|) && |f| <= |dp| && HeapFrom(s1, len, f, dp, 1)
    requires size <= |f| && Nodes(s0, len + 1, size) && c == Content(s0, len + 1) && n in c
    requires Content(s1, len) == c - multiset{n}
    requires n < |f| && forall i :: 1 <= i <= len + 1 ==> f[n] <= f[s0[i]]
    ensures n < size && Nodes(s1, len, size)
    ensures s1[1] in c - multiset{n} && f[n] <= f[s1[1]]
    ensures forall i :: 1 <= i <= len ==> f[s1[1]] <= f[s1[i]]
  {
    hide Content, HeapFrom;
    ContentMember(s1, len, s1[1]);
    ContentMember(s0, len + 1, s1[1]);
    ContentMember(s0, len + 1, n);
    forall i | 1 <= i <= len
      ensures s1[i] < size
    {
      ContentMember(s1, len, s1[i]);
      ContentMember(s0, len + 1, s1[i]);
    }
    forall i | 1 <= i <= len
      ensures f[s1[1]] <= f[s1[i]]
    {
      RootLeast(s1, len, f, dp, i);
    }
  }

  lemma NodesOccur(leaf: seq<nat>, t: nat, n: nat, m: nat)
    requires n in AllNodes(leaf, t) && m in AllNodes(leaf, t)
    ensures forall x :: 0 <= x < |leaf| && leaf[x] == 0 ==> x != n && x != m
  {
  }

  lemma NotYet(s: seq<nat>, len: nat, node: nat)
    requires Nodes(s, len, node)
    ensures node !in Content(s, len)
  {
    ContentMember(s, len, node);
  }

  /** The father replaces the second node at the root of the queue. */
  lemma Insert(s1: seq<nat>, s3: seq<nat>, len: nat, f: seq<nat>, dp: seq<nat>, f': seq<nat>, dp': seq<nat>, node: nat)
    requires 1 <= len < |s1| == |s3| && |f| == |f'| <= |dp| == |dp'| && node < |f|
    requires Nodes(s1, len, node) && HeapFrom(s1, len, f, dp, 1)
    requires s3[1] == node && forall i :: 2 <= i <= len ==> s3[i] == s1[i]
    requires forall x :: 0 <= x < node ==> f'[x] == f[x] && dp'[x] == dp[x]
    ensures Nodes(s3, len, node + 1) && HeapFrom(s3, len, f', dp', 2)
    ensures Content(s3, len) == Content(s1, len) - multiset{s1[1]} + multiset{node}
  {
    hide HeapFrom;
    InsertOrder(s1, s3, len, f, dp, f', dp', node);
    assert s3[1..len + 1] == s1[1 := node][1..len + 1];
    ContentReplace(s1, len, 1, node);
  }

  lemma InsertOrder(s1: seq<nat>, s3: seq<nat>, len: nat, f: seq<nat>, dp: seq<nat>, f': seq<nat>, dp': seq<nat>,
                    node: nat)
    requires 1 <= len < |s1| == |s3| && |f| == |f'| <= |dp| == |dp'| && node < |f|
    requires Nodes(s1, len, node) && HeapFrom(s1, len, f, dp, 1)
    requires s3[1] == node && forall i :: 2 <= i <= len ==> s3[i] == s1[i]
    requires forall x :: 0 <= x < node ==> f'[x] == f[x] && dp'[x] == dp[x]
    ensures Nodes(s3, len, |f|) && HeapFrom(s3, len, f', dp', 2)
  {
    forall i {:trigger s3[i]} | 2 <= i <= len && i / 2 >= 2
      ensures Smaller(f', dp', s3[i / 2], s3[i])
    {
      assert Smaller(f, dp, s1[i / 2], s1[i]);
    }
  }

  /** A least node `n` has left the queue `s0`, which is now `s1`. */
  ghost predicate Taken(s0: seq<nat>, s1: seq<nat>, len: nat, f: seq<nat>, d: seq<nat>, dp: seq<nat>,
                        leaf: seq<nat>, k: nat, t: nat, rem: seq<nat>, n: nat)
  {
    && MergeState(s0, len + 1, f, d, dp, leaf, k, t, rem) && 1 <= len && |s1| == HEAP_SIZE
    && Nodes(s1, len, |leaf| + t) && HeapFrom(s1, len, f, dp, 1) && n < |leaf| + t
    && n in Content(s0, len + 1) && s1[1] in Content(s0, len + 1) - multiset{n}
    && Content(s1, len) == Content(s0, len + 1) - multiset{n}
    && f[n] <= f[s1[1]] && (forall i :: 1 <= i <= len ==> f[s1[1]] <= f[s1[i]])
    && (forall p :: len + 1 < p < HEAP_SIZE ==> s1[p] == s0[p])
  }

  /** What a merge does to the set of queued nodes and to their total. */
  lemma MergePair(s0: seq<nat>, s1: seq<nat>, len: nat, f: seq<nat>, d: seq<nat>, dp: seq<nat>,
                  leaf: seq<nat>, k: nat, t: nat, rem: seq<nat>, n: nat, act: seq<int>) returns (act': seq<int>)
    requires MergeState(s0, len + 1, f, d, dp, leaf, k, t, rem) && Taken(s0, s1, len, f, d, dp, leaf, k, t, rem, n)
    requires Active(act, Content(s0, len + 1), f)
    ensures var m, node := s1[1], |leaf| + t;
      && n != m && n < node && m < node < |f| && |rem| == 2 * t
      && (forall x :: 0 <= x < |leaf| && leaf[x] == 0 ==> x != n && x != m)
      && Sum(act') == Sum(act) && f[n] + f[m] <= Sum(act)
      && Active(act', Content(s1, len) - multiset{m} + multiset{node}, f[node := f[n] + f[m]])
  {
    hide MergeState, Taken, Content, AllNodes, Active, Sum, Nodes;
    TakenBounds(s0, s1, len, f, d, dp, leaf, k, t, rem, n);
    TakenSets(s0, s1, len, f, d, dp, leaf, k, t, rem, n);
    var m, node, c := s1[1], |leaf| + t, Content(s0, len + 1);
    MergeNodes(leaf, t, c, rem, n, m);
    NodesOccur(leaf, t, n, m);
    NotYet(s0, len + 1, node);
    act' := ActiveMerge(act, c, f, n, m, node);
  }

  lemma TakenSets(s0: seq<nat>, s1: seq<nat>, len: nat, f: seq<nat>, d: seq<nat>, dp: seq<nat>,
                  leaf: seq<nat>, k: nat, t: nat, rem: seq<nat>, n: nat)
    requires Taken(s0, s1, len, f, d, dp, leaf, k, t, rem, n)
    ensures len + 1 < |s0| && 1 < |s1| && len < |s1| && s1[1] < |leaf| + t
    ensures n in Content(s0, len + 1) && s1[1] in Content(s0, len + 1) - multiset{n}
    ensures Content(s1, len) == Content(s0, len + 1) - multiset{n}
    ensures Content(s0, len + 1) + multiset(rem) == multiset(AllNodes(leaf, t)) && Nodes(s0, len + 1, |leaf| + t)
  {
    hide Merged, HeapFrom, AllNodes, Stored, Above, Content;
  }

  lemma TakenBounds(s0: seq<nat>, s1: seq<nat>, len: nat, f: seq<nat>, d: seq<nat>, dp: seq<nat>,
                    leaf: seq<nat>, k: nat, t: nat, rem: seq<nat>, n: nat)
    requires Taken(s0, s1, len, f, d, dp, leaf, k, t, rem, n)
    ensures |rem| == 2 * t && 1 <= len && len + t + 1 <= |leaf| <= L_CODES && |f| == |d| == 2 * |leaf| + 1
    ensures |s0| == |s1| == HEAP_SIZE && n < |leaf| + t && |dp| == HEAP_SIZE
    ensures Nodes(s1, len, |leaf| + t) && HeapFrom(s1, len, f, dp, 1)
    ensures forall p :: len + 1 < p < HEAP_SIZE ==> s1[p] == s0[p]
  {
  }

  /** The two nodes are stored below `top`, and nothing changed from there on. */
  ghost predicate TwoStored(s: seq<nat>, s': seq<nat>, top: int, n: nat, m: nat)
  {
    && 2 <= top <= |s| == |s'| && s'[top - 1] == n && s'[top - 2] == m
    && forall p :: top <= p < |s| ==> s'[p] == s[p]
  }

  /** The state after the merge, with the true weight of the father in place of the stored one. */
  lemma Placed(s0: seq<nat>, s1: seq<nat>, s4: seq<nat>, len: nat, f: seq<nat>, d: seq<nat>, dp: seq<nat>,
               f4: seq<nat>, dp': seq<nat>, leaf: seq<nat>, k: nat, t: nat, rem: seq<nat>, n: nat)
    requires Taken(s0, s1, len, f, d, dp, leaf, k, t, rem, n) && (f[n] + f[s1[1]] < 65536 || len == 1)
    requires |s4| == HEAP_SIZE && TwoStored(s1, s4, HEAP_SIZE - 2 * t, n, s1[1])
    requires f4 == f[|leaf| + t := (f[n] + f[s1[1]]) % 65536]
    requires |dp'| == HEAP_SIZE && Nodes(s4, len, |leaf| + t + 1) && HeapFrom(s4, len, f4, dp', 1)
    requires Content(s4, len) == Content(s1, len) - multiset{s1[1]} + multiset{|leaf| + t}
    ensures var weight, d' := f[|leaf| + t := f[n] + f[s1[1]]], d[n := |leaf| + t][s1[1] := |leaf| + t];
      && Wrapped(weight, f4, |leaf| + t) && (f[n] + f[s1[1]] < 65536 ==> f4 == weight)
      && MergeState(s4, len, weight, d', dp', leaf, k, t + 1, rem + [n, s1[1]])
  {
    hide Content, HeapFrom, MergeState, Taken, Wrapped, Nodes;
    TakenBounds(s0, s1, len, f, d, dp, leaf, k, t, rem, n);
    var v, node := f[n] + f[s1[1]], |leaf| + t;
    WrapAt(f, node, v);
    if v >= 65536 {
      SingleHeap(s4, len, node + 1, f[node := v], dp');
    }
    Settle(s0, s1, s4, len, f, d, dp, f[node := v], d[n := node][s1[1] := node], dp', leaf, k, t, rem, n);
  }

  /** The state after the merge. */
  lemma Settle(s0: seq<nat>, s1: seq<nat>, s4: seq<nat>, len: nat, f: seq<nat>, d: seq<nat>, dp: seq<nat>,
               f': seq<nat>, d': seq<nat>, dp': seq<nat>, leaf: seq<nat>, k: nat, t: nat, rem: seq<nat>, n: nat)
    requires Taken(s0, s1, len, f, d, dp, leaf, k, t, rem, n)
    requires |s4| == HEAP_SIZE && forall p :: HEAP_SIZE - 2 * t <= p < HEAP_SIZE ==> s4[p] == s0[p]
    requires s4[HEAP_SIZE - 1 - 2 * t] == n && s4[HEAP_SIZE - 2 - 2 * t] == s1[1]
    requires f' == f[|leaf| + t := f[n] + f[s1[1]]]
    requires d' == d[n := |leaf| + t][s1[1] := |leaf| + t]
    requires |dp'| == HEAP_SIZE && Nodes(s4, len, |leaf| + t + 1) && HeapFrom(s4, len, f', dp', 1)
    requires Content(s4, len) == Content(s1, len) - multiset{s1[1]} + multiset{|leaf| + t}
    ensures MergeState(s4, len, f', d', dp', leaf, k, t + 1, rem + [n, s1[1]])
  {
    hide Content, HeapFrom, AllNodes, Merged, Above, Stored;
    var e, m := |leaf|, s1[1];
    StoreTwo(s0, s4, rem, n, m);
    MergeNodes(leaf, t, Content(s0, len + 1), rem, n, m);
    SettleOrder(s0, s1, s4, len, f, d, dp, f', d', leaf, k, t, rem, n);
    assert f'[..e] == leaf;
  }

  lemma SettleOrder(s0: seq<nat>, s1: seq<nat>, s4: seq<nat>, len: nat, f: seq<nat>, d: seq<nat>, dp: seq<nat>,
                    f': seq<nat>, d': seq<nat>, leaf: seq<nat>, k: nat, t: nat, rem: seq<nat>, n: nat)
    requires Taken(s0, s1, len, f, d, dp, leaf, k, t, rem, n)
    requires f' == f[|leaf| + t := f[n] + f[s1[1]]]
    requires d' == d[n := |leaf| + t][s1[1] := |leaf| + t]
    requires Nodes(s4, len, |leaf| + t + 1)
    requires Content(s4, len) == Content(s1, len) - multiset{s1[1]} + multiset{|leaf| + t}
    ensures Merged(rem + [n, s1[1]], f', d', |leaf|, t + 1) && Above(s4, len, f', rem + [n, s1[1]])
  {
    hide Content, HeapFrom, AllNodes, Merged, Above, Stored;
    var e, m := |leaf|, s1[1];
    MergeNodes(leaf, t, Content(s0, len + 1), rem, n, m);
    Below(s0, len + 1, f, rem, e + t, n);
    Below(s0, len + 1, f, rem, e + t, m);
    RemBound(rem, f, d, e, t);
    MergeExtends(rem, f, d, e, t, n, m, f', d');
    StillAbove(s1, s4, len, f, f', rem, n, e + t);
  }

  lemma StillAbove(s1: seq<nat>, s4: seq<nat>, len: nat, f: seq<nat>, f': seq<nat>, rem: seq<nat>, n: nat, node: nat)
    requires 1 <= len && Nodes(s1, len, node) && Nodes(s4, len, node + 1) && n < node < |f|
    requires Content(s4, len) == Content(s1, len) - multiset{s1[1]} + multiset{node}
    requires forall j :: 0 <= j < |rem| ==> rem[j] < node && f[rem[j]] <= f[n]
    requires f[n] <= f[s1[1]] && forall i :: 1 <= i <= len ==> f[s1[1]] <= f[s1[i]]
    requires f' == f[node := f[n] + f[s1[1]]]
    ensures Above(s4, len, f', rem + [n, s1[1]])
  {
    hide Content;
    forall i | 1 <= i <= len
      ensures f'[s4[i]] >= f[s1[1]]
    {
      ContentMember(s4, len, s4[i]);
      if s4[i] != node {
        ContentMember(s1, len, s4[i]);
      }
    }
  }

  /** What has left is no more frequent than a queued node. */
  lemma Below(s: seq<nat>, len: nat, f: seq<nat>, rem: seq<nat>, size: nat, x: nat)
    requires Nodes(s, len, |f|) && Above(s, len, f, rem) && x in Content(s, len) && size <= |f|
    requires Nodes(s, len, size)
    ensures x < size && forall j :: 0 <= j < |rem| && rem[j] < |f| ==> f[rem[j]] <= f[x]
  {
    ContentMember(s, len, x);
  }

  lemma RemBound(rem: seq<nat>, f: seq<nat>, d: seq<nat>, e: nat, t: nat)
    requires Merged(rem, f, d, e, t)
    ensures e + t <= |f| && forall j :: 0 <= j < |rem| ==> rem[j] < e + t
  {
  }

  // ----- costs

  ghost function StaticCost(t: Tree, freq: seq<nat>): int
    requires t.Valid() && |freq| == t.elems
  {
    if t.stree == [] then 0 else Cost(freq, t.stree[..t.elems], Extras(t))
  }

  lemma StaticCostAdd(t: Tree, freq: seq<nat>, n: nat)
    requires t.Valid() && |freq| == t.elems && n <= 2 && freq[n] == 0
    ensures StaticCost(t, freq[n := 1]) == StaticCost(t, freq) + if t.stree == [] then 0 else t.stree[n]
  {
    if t.stree != [] {
      CostAdd(freq, t.stree[..t.elems], Extras(t), n);
    }
  }

  function Ones(n: nat): seq<nat>
  {
    seq(n, _ => 1)
  }

  function Extras(t: Tree): (x: seq<nat>)
    ensures |x| == t.elems
  {
    seq(t.elems, n requires 0 <= n => t.Extra(n))
  }

  /** The bits that symbols of these frequencies take with codes of these lengths. */
  function Cost(freq: seq<nat>, len: seq<nat>, extra: seq<nat>): int
    requires |freq| == |len| == |extra|
  {
    Sum(CostTerms(freq, len, extra))
  }

  function CostTerms(freq: seq<nat>, len: seq<nat>, extra: seq<nat>): (r: seq<int>)
    requires |freq| == |len| == |extra|
    ensures |r| == |freq| && forall i :: 0 <= i < |r| ==> r[i] == freq[i] * (len[i] + extra[i])
  {
    seq(|freq|, i requires 0 <= i < |freq| => freq[i] * (len[i] + extra[i]))
  }

  /** A symbol that now occurs once costs its code and extra bits. */
  lemma CostAdd(freq: seq<nat>, len: seq<nat>, extra: seq<nat>, n: nat)
    requires |freq| == |len| == |extra| && n < |freq| && freq[n] == 0
    ensures Cost(freq[n := 1], len, extra) == Cost(freq, len, extra) + len[n] + extra[n]
  {
    var a := CostTerms(freq, len, extra);
    assert CostTerms(freq[n := 1], len, extra) == a[n := len[n] + extra[n]];
    SumUpdate(a, n, len[n] + extra[n]);
  }

  // ----- leaves and queue contents

  lemma EmptyContent(s: seq<nat>)
    requires |s| > 0
    ensures Content(s, 0) == multiset{}
  {
  }

  lemma ContentPush(s: seq<nat>, len: nat, x: nat)
    requires 1 <= len < |s|
    ensures Content(s[len := x], len) == Content(s, len - 1) + multiset{x}
  {
    ContentLast(s[len := x], len);
    assert s[len := x][1..len] == s[1..len];
  }

  lemma LeavesStep(f: seq<nat>, n: nat)
    requires n < |f|
    ensures Leaves(f, n + 1) == if f[n] > 0 then Leaves(f, n) + {n} else Leaves(f, n)
    ensures n !in Leaves(f, n)
    ensures f[n] > 0 ==> multiset(Leaves(f, n + 1)) == multiset(Leaves(f, n)) + multiset{n}
  {
  }

  lemma LeavesAdd(f: seq<nat>, e: nat, n: nat)
    requires n < e <= |f| && f[n] == 0
    ensures multiset(Leaves(f[n := 1], e)) == multiset(Leaves(f, e)) + multiset{n}
  {
    assert Leaves(f[n := 1], e) == Leaves(f, e) + {n};
  }

  /** The code that one turn of the forcing loop adds. */
  function NewCode(max: int): int
  {
    if max < 2 then max + 1 else 0
  }

  /** The forcing loop, from `len` codes of which `max` is the largest. */
  function ForcedFrom(f: seq<nat>, len: nat, max: int): seq<nat>
    decreases 2 - len
  {
    if len >= 2 then f
    else
      ForcedFrom(if 0 <= NewCode(max) < |f| then f[NewCode(max) := 1] else f, len + 1, if max < 2 then max + 1 else max)
  }

  /** `m` is the only symbol that occurs. */
  ghost predicate Sole(f: seq<nat>, m: nat)
  {
    m < |f| && f[m] > 0 && forall n :: 0 <= n < |f| && n != m ==> f[n] == 0
  }

  ghost predicate NoSymbol(f: seq<nat>)
  {
    forall n :: 0 <= n < |f| ==> f[n] == 0
  }

  /** The frequencies after codes have been forced: up to two, and never on a symbol that occurs. */
  ghost function Forced(f: seq<nat>): (r: seq<nat>)
    requires |f| >= 3
    ensures |r| == |f|
  {
    if NoSymbol(f) then f[0 := 1][1 := 1]
    else if Sole(f, 0) then f[1 := 1]
    else if Sole(f, 1) then f[2 := 1]
    else if exists m: nat :: Sole(f, m) then f[0 := 1]
    else f
  }

  lemma ForcedStep(f: seq<nat>, len: nat, max: int)
    ensures len >= 2 ==> ForcedFrom(f, len, max) == f
    ensures len < 2 && 0 <= NewCode(max) < |f| ==>
      ForcedFrom(f, len, max) == ForcedFrom(f[NewCode(max) := 1], len + 1, if max < 2 then max + 1 else max)
  {
  }

  /** What the loop forces, in terms of the frequencies alone. */
  lemma ForcedIs(s: seq<nat>, len: nat, f: seq<nat>, e: nat, max: int)
    requires Queued(s, len, f, e) && TopCode(f, e, len, max) && e >= 3
    ensures ForcedFrom(f[..e], len, max) == Forced(f[..e])
  {
    var g := f[..e];
    if len == 0 {
      NoLeaf(s, f, e);
      assert ForcedFrom(g, 0, -1) == ForcedFrom(g[0 := 1], 1, 0) == ForcedFrom(g[0 := 1][1 := 1], 2, 1);
    } else if len == 1 {
      OneLeaf(s, f, e);
      assert Sole(g, max);
      assert forall m: nat :: Sole(g, m) ==> m == max;
      var a, max' := NewCode(max), if max < 2 then max + 1 else max;
      assert ForcedFrom(g, 1, max) == ForcedFrom(g[a := 1], 2, max') == g[a := 1];
    } else {
      TwoOccur(s, len, f, e);
    }
  }

  lemma TwoOccur(s: seq<nat>, len: nat, f: seq<nat>, e: nat)
    requires Queued(s, len, f, e) && len >= 2
    ensures !NoSymbol(f[..e]) && forall m: nat :: !Sole(f[..e], m)
  {
    var leaves := Leaves(f, e);
    assert |Content(s, len)| == len;
    assert |leaves| == |multiset(leaves)|;
    assert NoSymbol(f[..e]) ==> leaves == {};
    forall m: nat
      ensures !Sole(f[..e], m)
    {
      assert Sole(f[..e], m) ==> leaves == {m};
    }
  }

  /** The comment of the source says that a forced code is 0 or 1: it is 2 exactly when symbol 1 alone occurs. */
  lemma ForcedTwo(f: seq<nat>)
    requires |f| >= 3
    ensures f[2] == 0 && Forced(f)[2] > 0 <==> Sole(f, 1)
  {
  }

  /** Such a vector. */
  lemma ForcedTwoExample()
    ensures Sole([0, 5, 0], 1) && Forced([0, 5, 0]) == [0, 5, 1]
  {
    var f: seq<nat> := [0, 5, 0];
    assert f[1] > 0 && !Sole(f, 0);
  }

  /** The total after forcing: below 65536 unless one symbol takes 65535 alone, and then two codes make it 65536. */
  lemma ForcedTotal(f: seq<nat>)
    requires |f| >= 3 && Sum(f) < 65536
    ensures Sum(Forced(f)) <= 65536
    ensures Sum(Forced(f)) == 65536 <==> exists m: nat :: Sole(f, m) && f[m] == 65535
    ensures Sum(Forced(f)) == 65536 ==> Forced(f) != f
  {
    hide Sum;
    if NoSymbol(f) {
      SumZero(f);
      SumUpdate(f, 0, 1);
      SumUpdate(f[0 := 1], 1, 1);
      assert forall m: nat :: !Sole(f, m);
    } else if m: nat :| Sole(f, m) {
      SoleSum(f, m);
      assert forall n: nat :: Sole(f, n) ==> n == m;
      var a := NewCode(m);
      assert Forced(f) == f[a := 1];
      SumUpdate(f, a, 1);
    }
  }

  lemma SoleSum(f: seq<nat>, m: nat)
    requires Sole(f, m)
    ensures Sum(f) == f[m]
  {
    hide Sum;
    SumUpdate(f, m, 0);
    SumZero(f[m := 0]);
  }

  /** One vector at which the root's 16-bit frequency wraps to 0. */
  lemma WrappingExample()
    ensures Sum([65535, 0, 0]) < 65536 && Sum(Forced([65535, 0, 0])) == 65536
  {
    var f: seq<nat> := [65535, 0, 0];
    assert Sole(f, 0);
    SoleSum(f, 0);
    ForcedTotal(f);
  }

  /** The stored frequencies are the weights, but for the 16-bit one of node `x`. */
  ghost predicate Wrapped(weight: seq<nat>, f: seq<nat>, x: nat)
  {
    x < |weight| && f == weight[x := weight[x] % 65536]
  }

  lemma WrapAt(f: seq<nat>, x: nat, v: nat)
    requires x < |f|
    ensures Wrapped(f[x := v], f[x := v % 65536], x) && (v < 65536 ==> f[x := v % 65536] == f[x := v])
  {
    assert f[x := v][x := v % 65536] == f[x := v % 65536];
  }

  ghost predicate InOrder(rem: seq<nat>, f: seq<nat>)
  {
    forall i, j :: 0 <= i < j < |rem| && rem[i] < |f| && rem[j] < |f| ==> f[rem[i]] <= f[rem[j]]
  }

  /** The stored frequencies leave in order exactly when the total fits 16 bits. */
  lemma RootWraps(rem: seq<nat>, leaf: seq<nat>, weight: seq<nat>, f: seq<nat>, dad: seq<nat>, k: nat)
    requires FullTree(rem, leaf, weight, dad, k) && Wrapped(weight, f, |leaf| + k - 2)
    requires weight[|leaf| + k - 2] == Sum(leaf) <= 65536
    ensures f[..|leaf|] == leaf
    ensures InOrder(rem, f) <==> Sum(leaf) < 65536
  {
    hide Sum;
    var root := |leaf| + k - 2;
    assert rem[0] != root by { NoDuplicates(rem, AllNodes(leaf, k - 1)); }
    NoDuplicates(rem, AllNodes(leaf, k - 1));
    assert weight[rem[0]] > 0 by { FirstOccurs(rem, leaf, weight, dad, k); }
    assert rem[2 * k - 2] == root;
  }

  /** The first node to leave is a symbol that occurs. */
  lemma FirstOccurs(rem: seq<nat>, leaf: seq<nat>, weight: seq<nat>, dad: seq<nat>, k: nat)
    requires FullTree(rem, leaf, weight, dad, k)
    ensures rem[0] < |leaf| && weight[rem[0]] > 0
  {
    NoDuplicates(rem, AllNodes(leaf, k - 1));
    assert rem[0] in AllNodes(leaf, k - 1);
    assert weight[rem[0]] == weight[..|leaf|][rem[0]];
  }

  lemma SingleHeap(s: seq<nat>, len: nat, size: nat, f: seq<nat>, dp: seq<nat>)
    requires len == 1 && Nodes(s, len, size) && size <= |f| <= |dp|
    ensures Nodes(s, len, |f|) && HeapFrom(s, len, f, dp, 1)
  {
  }

  /** The last node's weight is the total. */
  lemma RootTotal(heap: seq<nat>, f: seq<nat>, d: seq<nat>, dp: seq<nat>, leaf: seq<nat>, k: nat, rem: seq<nat>,
                  act: seq<int>)
    requires k >= 2 && MergeState(heap, 1, f, d, dp, leaf, k, k - 1, rem)
    requires Active(act, Content(heap, 1), f) && Sum(act) == Sum(leaf)
    ensures heap[1] == |leaf| + k - 2 < |f| && f[|leaf| + k - 2] == Sum(leaf)
  {
    hide Sum, Merged, Above, AllNodes, HeapFrom;
    assert heap[1..2] == [heap[1]];
    assert Content(heap, 1) == multiset{heap[1]};
    var r := heap[1];
    SumUpdate(act, r, 0);
    SumZero(act[r := 0]);
  }

  lemma NoLeaf(s: seq<nat>, f: seq<nat>, e: nat)
    requires Queued(s, 0, f, e)
    ensures forall n :: 0 <= n < e ==> f[n] == 0
  {
    EmptyContent(s);
    forall n | 0 <= n < e
      ensures f[n] == 0
    {
      assert n !in multiset(Leaves(f, e));
    }
  }

  lemma OneLeaf(s: seq<nat>, f: seq<nat>, e: nat)
    requires Queued(s, 1, f, e)
    ensures s[1] < e && forall n :: 0 <= n < e && n != s[1] ==> f[n] == 0
  {
    assert s[1..2] == [s[1]];
    forall n | 0 <= n < e && n != s[1]
      ensures f[n] == 0
    {
      assert n !in Content(s, 1);
      assert n !in multiset(Leaves(f, e));
    }
  }

  /** When one symbol occurs, no other does. */
  lemma SoleLeaf(s: seq<nat>, len: nat, f: seq<nat>, e: nat, m: nat)
    requires len < |s| && len == 1 && 0 < m < e <= |f| && f[m] > 0
    requires Content(s, len) == multiset(Leaves(f, e))
    ensures f[0] == 0
  {
    var one := Leaves(f, e);
    assert |multiset(one)| == 1;
    assert m in one;
    assert |one - {m}| == 0;
    assert 0 !in one;
  }

  /** Two symbols occur, so the largest is not 0. */
  lemma TwoCodes(s: seq<nat>, len: nat, f: seq<nat>, e: nat, m: int)
    requires Queued(s, len, f, e) && TopCode(f, e, len, m) && len >= 2
    ensures m >= 1
  {
    var all, range := Leaves(f, e), Range(0, m + 1);
    assert |multiset(all)| == len;
    RangeCard(0, m + 1);
    assert range == all + (range - all);
  }

  lemma ContentBound(s: seq<nat>, s': seq<nat>, len: nat, size: nat)
    requires Nodes(s, len, size) && len < |s'| && Content(s, len) == Content(s', len)
    ensures Nodes(s', len, size)
  {
    forall i | 1 <= i <= len
      ensures s'[i] < size
    {
      ContentMember(s', len, s'[i]);
      ContentMember(s, len, s'[i]);
    }
  }
}
