/** What the merge loop of `build_tree` leaves behind: nodes in the order they left the queue. */
module HuffmanTree {
  import opened Bits

  /** The symbols that have a frequency. */
  ghost function Leaves(freq: seq<nat>, n: nat): set<nat>
    requires n <= |freq|
  {
    set x: nat | x < n && freq[x] > 0
  }

  ghost function Range(lo: nat, n: nat): (r: set<nat>)
    ensures forall x: nat :: x in r <==> lo <= x < lo + n
  {
    if n == 0 then {} else Range(lo, n - 1) + {lo + n - 1}
  }

  lemma {:induction false} RangeCard(lo: nat, n: nat)
    ensures |Range(lo, n)| == n
  {
    if n > 0 {
      RangeCard(lo, n - 1);
    }
  }

  /** The nodes after `t` merges: the leaves and the internal nodes `e`, ..., `e + t - 1`. */
  ghost function AllNodes(freq: seq<nat>, t: nat): set<nat>
  {
    Leaves(freq, |freq|) + Range(|freq|, t)
  }

  /**
   * `rem` lists the nodes in the order they left the queue, two for each merge. Pair `q` are the
   * sons of node `e + q`, whose frequency is the sum of theirs; a node leaves after its sons; and
   * nodes leave in order of frequency.
   */
  ghost predicate Merged(rem: seq<nat>, freq: seq<nat>, dad: seq<nat>, e: nat, t: nat)
  {
    && 2 * t <= |rem| <= 2 * t + 1 && e + t <= |freq| && e + t <= |dad|
    && (forall j :: 0 <= j < |rem| ==> (rem[j] < e || rem[j] < e + j / 2) && rem[j] < e + t)
    && (forall j :: 0 <= j < 2 * t ==> dad[rem[j]] == e + j / 2)
    && (forall q :: 0 <= q < t ==> freq[e + q] == freq[rem[2 * q]] + freq[rem[2 * q + 1]])
    && (forall i, j :: 0 <= i < j < |rem| ==> freq[rem[i]] <= freq[rem[j]])
  }

  /** The finished tree over `k` leaves. */
  ghost predicate FullTree(rem: seq<nat>, leaf: seq<nat>, freq: seq<nat>, dad: seq<nat>, k: nat)
  {
    && k >= 2 && |rem| == 2 * k - 1
    && Merged(rem, freq, dad, |leaf|, k - 1)
    && freq[..|leaf|] == leaf
    && rem[2 * k - 2] == |leaf| + k - 2
    && multiset(rem) == multiset(AllNodes(leaf, k - 1))
  }

  lemma NoDuplicates(s: seq<nat>, all: set<nat>)
    requires multiset(s) <= multiset(all)
    ensures forall i, j :: 0 <= i < j < |s| ==> s[i] != s[j]
    ensures forall i :: 0 <= i < |s| ==> s[i] in all
  {
    forall i, j | 0 <= i < j < |s|
      ensures s[i] != s[j]
    {
      assert s == s[..j] + [s[j]] + s[j + 1..];
      assert multiset(s)[s[j]] <= 1;
      assert s[j] !in multiset(s[..j]);
      assert s[..j][i] in multiset(s[..j]);
    }
    forall i | 0 <= i < |s|
      ensures s[i] in all
    {
      assert s[i] in multiset(s);
    }
  }

  lemma Position(s: seq<nat>, all: set<nat>, x: nat) returns (p: nat)
    requires multiset(s) == multiset(all) && x in all
    ensures p < |s| && s[p] == x
  {
    assert x in multiset(s);
    assert x in s;
    p :| 0 <= p < |s| && s[p] == x;
  }

  /** Every symbol that occurs leaves the queue, before the root. */
  lemma LeafAt(rem: seq<nat>, leaf: seq<nat>, freq: seq<nat>, dad: seq<nat>, k: nat, n: nat) returns (p: nat)
    requires FullTree(rem, leaf, freq, dad, k) && n < |leaf| && leaf[n] > 0
    ensures k >= 2 && |rem| == 2 * k - 1 && p < 2 * k - 2 && rem[p] == n && |leaf| <= |freq| && freq[n] == leaf[n]
  {
    p := Position(rem, AllNodes(leaf, k - 1), n);
    assert freq[n] == freq[..|leaf|][n];
  }

  lemma LeavesInOrder(rem: seq<nat>, leaf: seq<nat>, freq: seq<nat>, dad: seq<nat>, k: nat, p: nat, q: nat)
    requires FullTree(rem, leaf, freq, dad, k) && p < |rem| && q < |rem| && rem[p] < |freq| && rem[q] < |freq|
    requires freq[rem[p]] < freq[rem[q]]
    ensures p < q
  {
    hide AllNodes;
  }

  /** The father of the node at `i` is an internal node that leaves the queue later. */
  lemma FatherLater(rem: seq<nat>, leaf: seq<nat>, freq: seq<nat>, dad: seq<nat>, k: nat, i: nat) returns (p: nat)
    requires FullTree(rem, leaf, freq, dad, k) && i < 2 * k - 2
    ensures i < p < |rem| && rem[p] == |leaf| + i / 2 == dad[rem[i]]
  {
    p := Position(rem, AllNodes(leaf, k - 1), |leaf| + i / 2);
  }

  /** `len` is the depth of every node, cut to `limit`. */
  ghost predicate ClampedDepth(rem: seq<nat>, e: nat, len: seq<nat>, limit: nat)
  {
    && |rem| >= 1
    && (forall j :: 0 <= j < |rem| ==> rem[j] < |len| && (j < |rem| - 1 ==> e + j / 2 < |len|))
    && len[rem[|rem| - 1]] == 0
    && forall j {:trigger rem[j]} :: 0 <= j < |rem| - 1 ==>
         len[rem[j]] == if len[e + j / 2] + 1 > limit then limit else len[e + j / 2] + 1
  }

  /** A strictly rarer node is not closer to the root, also after cutting the depths. */
  lemma {:induction false} RarerIsDeeper(rem: seq<nat>, leaf: seq<nat>, freq: seq<nat>, dad: seq<nat>, k: nat,
                                          len: seq<nat>, limit: nat, i: nat, j: nat)
    requires FullTree(rem, leaf, freq, dad, k) && ClampedDepth(rem, |leaf|, len, limit)
    requires i < |rem| && j < |rem| && freq[rem[i]] < freq[rem[j]]
    ensures len[rem[i]] >= len[rem[j]]
    decreases |rem| - i
  {
    assert i < j;
    if j < 2 * k - 2 && i / 2 < j / 2 {
      var p := FatherLater(rem, leaf, freq, dad, k, i);
      var q := FatherLater(rem, leaf, freq, dad, k, j);
      SonsOrdered(rem, freq, dad, |leaf|, k - 1, i, j);
      RarerIsDeeper(rem, leaf, freq, dad, k, len, limit, p, q);
    }
  }

  lemma SonsOrdered(rem: seq<nat>, freq: seq<nat>, dad: seq<nat>, e: nat, t: nat, i: nat, j: nat)
    requires Merged(rem, freq, dad, e, t)
    requires i / 2 < j / 2 && j < 2 * t && freq[rem[i]] < freq[rem[j]]
    ensures freq[e + i / 2] < freq[e + j / 2]
  {
    var a, b := i / 2, j / 2;
    assert freq[e + a] == freq[rem[2 * a]] + freq[rem[2 * a + 1]];
    assert freq[e + b] == freq[rem[2 * b]] + freq[rem[2 * b + 1]];
    assert freq[rem[2 * a]] <= freq[rem[2 * a + 1]] <= freq[rem[2 * b]] <= freq[rem[2 * b + 1]];
    assert i == 2 * a || i == 2 * a + 1;
    assert j == 2 * b || j == 2 * b + 1;
  }

  // ----- one merge

  /** Appending the pair `n`, `m` with father `e + t`. */
  lemma MergeExtends(rem: seq<nat>, freq: seq<nat>, dad: seq<nat>, e: nat, t: nat, n: nat, m: nat,
                     freq': seq<nat>, dad': seq<nat>)
    requires Merged(rem, freq, dad, e, t) && |rem| == 2 * t
    requires n != m && n < e + t && m < e + t && n !in rem && m !in rem
    requires freq[n] <= freq[m]
    requires forall j :: 0 <= j < |rem| ==> freq[rem[j]] <= freq[n]
    requires |freq'| == |freq| && |dad'| == |dad| && e + t < |freq| && e + t < |dad|
    requires freq' == freq[e + t := freq[n] + freq[m]]
    requires dad' == dad[n := e + t][m := e + t]
    ensures Merged(rem + [n, m], freq', dad', e, t + 1)
  {
    var r := rem + [n, m];
    forall q | 0 <= q < t + 1
      ensures freq'[e + q] == freq'[r[2 * q]] + freq'[r[2 * q + 1]]
    {
      if q < t {
        assert r[2 * q] == rem[2 * q] && r[2 * q + 1] == rem[2 * q + 1];
      }
    }
    forall j | 0 <= j < |r|
      ensures dad'[r[j]] == e + j / 2
      ensures (r[j] < e || r[j] < e + j / 2) && r[j] < e + t + 1
    {
      if j < |rem| {
        assert r[j] == rem[j] && rem[j] in rem;
      }
    }
    forall i, j | 0 <= i < j < |r|
      ensures freq'[r[i]] <= freq'[r[j]]
    {
      if j < |rem| {
        assert r[i] == rem[i] && r[j] == rem[j];
      } else if i < |rem| {
        assert r[i] == rem[i];
      }
    }
  }

  /** Closing the list with the root. */
  lemma MergeCloses(rem: seq<nat>, leaf: seq<nat>, freq: seq<nat>, dad: seq<nat>, k: nat, root: nat)
    requires k >= 2 && Merged(rem, freq, dad, |leaf|, k - 1) && |rem| == 2 * k - 2
    requires freq[..|leaf|] == leaf && root == |leaf| + k - 2
    requires forall j :: 0 <= j < |rem| ==> freq[rem[j]] <= freq[root]
    requires multiset(rem) + multiset{root} == multiset(AllNodes(leaf, k - 1))
    ensures FullTree(rem + [root], leaf, freq, dad, k)
  {
    var r := rem + [root];
    assert multiset(r) == multiset(rem) + multiset{root};
    forall j | 0 <= j < |r|
      ensures (r[j] < |leaf| || r[j] < |leaf| + j / 2) && r[j] < |leaf| + k - 1
      ensures j < 2 * k - 2 ==> dad[r[j]] == |leaf| + j / 2
    {
      if j < |rem| {
        assert r[j] == rem[j];
      }
    }
    forall q | 0 <= q < k - 1
      ensures freq[|leaf| + q] == freq[r[2 * q]] + freq[r[2 * q + 1]]
    {
      assert r[2 * q] == rem[2 * q] && r[2 * q + 1] == rem[2 * q + 1];
    }
    forall i, j | 0 <= i < j < |r|
      ensures freq[r[i]] <= freq[r[j]]
    {
      assert r[i] == rem[i];
      if j < |rem| {
        assert r[j] == rem[j];
      }
    }
  }

  // ----- frequencies in the queue

  /** `act` holds the frequency of each queued node, and 0 elsewhere. */
  ghost predicate Active(act: seq<int>, c: multiset<nat>, f: seq<nat>)
  {
    |act| == |f| && forall x :: 0 <= x < |f| ==> act[x] == if x in c then f[x] else 0
  }

  lemma {:induction false} ActiveStart(f: seq<nat>, e: nat, act: seq<int>)
    requires e <= |f| == |act|
    requires forall x :: 0 <= x < |f| ==> act[x] == if x < e then f[x] else 0
    ensures Sum(act) == Sum(f[..e])
  {
    assert act == act[..e] + act[e..];
    SumAppend(act[..e], act[e..]);
    SumZero(act[e..]);
    assert act[..e] == f[..e];
  }

  /** Merging two queued nodes conserves the total frequency, and so bounds the new node's. */
  lemma ActiveMerge(act: seq<int>, c: multiset<nat>, f: seq<nat>, n: nat, m: nat, node: nat) returns (act': seq<int>)
    requires Active(act, c, f)
    requires n in c && m in c && n != m && node !in c && n < |f| && m < |f| && node < |f|
    requires c[n] == 1 && c[m] == 1
    ensures Sum(act') == Sum(act) && f[n] + f[m] <= Sum(act)
    ensures Active(act', c - multiset{n} - multiset{m} + multiset{node}, f[node := f[n] + f[m]])
  {
    SumUpdate(act, n, 0);
    SumUpdate(act[n := 0], m, 0);
    act' := act[n := 0][m := 0][node := f[n] + f[m]];
    SumUpdate(act[n := 0][m := 0], node, f[n] + f[m]);
    SumMember(act', node);
  }

  /** Node sets before and after a merge. */
  lemma MergeNodes(leaf: seq<nat>, t: nat, c: multiset<nat>, rem: seq<nat>, n: nat, m: nat)
    requires c + multiset(rem) == multiset(AllNodes(leaf, t))
    requires n in c && m in c - multiset{n}
    ensures n != m && c[n] == 1 && c[m] == 1 && n !in rem && m !in rem
    ensures n in AllNodes(leaf, t) && m in AllNodes(leaf, t)
    ensures (c - multiset{n} - multiset{m} + multiset{|leaf| + t}) + multiset(rem + [n, m])
            == multiset(AllNodes(leaf, t + 1))
  {
    var all, node := multiset(AllNodes(leaf, t)), |leaf| + t;
    assert all[n] <= 1 && all[m] <= 1;
    assert n in all && m in all;
    assert n !in multiset(rem) && m !in multiset(rem);
    assert AllNodes(leaf, t + 1) == AllNodes(leaf, t) + {node};
    assert multiset(AllNodes(leaf, t + 1)) == all + multiset{node};
    assert multiset(rem + [n, m]) == multiset(rem) + multiset{n} + multiset{m};
    assert c == (c - multiset{n} - multiset{m}) + multiset{n} + multiset{m};
  }
}
