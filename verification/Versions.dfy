/** `version_compare_part`, `version_compare` and `test_version` of dpkg.c. */
module Versions {
  import opened Bits
  import opened CanonicalCode

  type Text = seq<byte>

  // ----- orders

  /** The sign of a comparison. */
  function Sign(x: int): int
  {
    if x < 0 then -1 else if x > 0 then 1 else 0
  }

  function Compare(a: int, b: int): int
  {
    if a < b then -1 else if a > b then 1 else 0
  }

  /** `strcmp`: byte by byte, a prefix first. */
  function StrCmp(a: Text, b: Text): int
    decreases |a|
  {
    if a == [] || b == [] then Compare(|a|, |b|)
    else if a[0] != b[0] then Compare(a[0], b[0])
    else StrCmp(a[1..], b[1..])
  }

  lemma {:induction false} StrCmpTotal(a: Text, b: Text)
    ensures StrCmp(a, b) == -StrCmp(b, a) && (StrCmp(a, b) == 0 <==> a == b)
    decreases |a|
  {
    if a != [] && b != [] {
      StrCmpTotal(a[1..], b[1..]);
      assert a == [a[0]] + a[1..] && b == [b[0]] + b[1..];
    }
  }

  lemma {:induction false} StrCmpTransitive(a: Text, b: Text, c: Text)
    requires StrCmp(a, b) <= 0 && StrCmp(b, c) <= 0
    ensures StrCmp(a, c) <= 0
    decreases |a|
  {
    if a != [] && b != [] && c != [] && a[0] == b[0] == c[0] {
      StrCmpTransitive(a[1..], b[1..], c[1..]);
    }
  }

  // ----- chunks

  predicate IsDigit(b: byte) { 48 <= b <= 57 }

  /** `strcspn` and `strspn` with the digits: how many leading bytes are, or are not, digits. */
  function Span(v: Text, digits: bool): (n: nat)
    ensures n <= |v|
    ensures forall i :: 0 <= i < n ==> IsDigit(v[i]) == digits
    ensures n < |v| ==> IsDigit(v[n]) != digits
  {
    if v == [] || IsDigit(v[0]) != digits then 0 else 1 + Span(v[1..], digits)
  }

  /** `atoi` of a run of digits. */
  function Atoi(v: Text): (n: nat)
    requires forall i :: 0 <= i < |v| ==> IsDigit(v[i])
  {
    if v == [] then 0
    else
      var last: int := v[|v| - 1];
      assert IsDigit(v[|v| - 1]);
      10 * Atoi(v[..|v| - 1]) + (last - 48)
  }

  /** A word without digits and the number behind it. */
  datatype Chunk = Chunk(word: Text, number: nat)

  const NO_CHUNK := Chunk([], 0)

  /** Where the first chunk ends. */
  function ChunkEnd(v: Text): (n: nat)
    ensures n <= |v| && (v != [] ==> n >= 1)
  {
    var w := Span(v, false);
    w + Span(v[w..], true)
  }

  function FirstChunk(v: Text): Chunk
  {
    var w := Span(v, false);
    Chunk(v[..w], Atoi(v[w..][..Span(v[w..], true)]))
  }

  /** A version as the list of its chunks. */
  function Chunks(v: Text): seq<Chunk>
    decreases |v|
  {
    if v == [] then [] else [FirstChunk(v)] + Chunks(v[ChunkEnd(v)..])
  }

  function CompareChunk(a: Chunk, b: Chunk): int
  {
    if StrCmp(a.word, b.word) != 0 then StrCmp(a.word, b.word) else Compare(a.number, b.number)
  }

  /** The chunk at `i`, or the empty one behind the end. */
  function At(cs: seq<Chunk>, i: nat): Chunk
  {
    if i < |cs| then cs[i] else NO_CHUNK
  }

  /** Chunk by chunk, the shorter list padded. */
  function CompareChunks(a: seq<Chunk>, b: seq<Chunk>): int
    decreases |a| + |b|
  {
    if a == [] && b == [] then 0
    else if CompareChunk(At(a, 0), At(b, 0)) != 0 then CompareChunk(At(a, 0), At(b, 0))
    else CompareChunks(Rest(a), Rest(b))
  }

  function Rest(a: seq<Chunk>): (r: seq<Chunk>)
    ensures |r| == if a == [] then 0 else |a| - 1
  {
    if a == [] then [] else a[1..]
  }

  lemma ChunkTotal(a: Chunk, b: Chunk)
    ensures CompareChunk(a, b) == -CompareChunk(b, a) && (CompareChunk(a, b) == 0 <==> a == b)
  {
    StrCmpTotal(a.word, b.word);
  }

  lemma ChunkTransitive(a: Chunk, b: Chunk, c: Chunk)
    requires CompareChunk(a, b) <= 0 && CompareChunk(b, c) <= 0
    ensures CompareChunk(a, c) <= 0
  {
    StrCmpTotal(a.word, b.word);
    StrCmpTotal(b.word, c.word);
    StrCmpTotal(a.word, c.word);
    StrCmpTransitive(a.word, b.word, c.word);
  }

  lemma {:induction false} ChunksSymmetric(a: seq<Chunk>, b: seq<Chunk>)
    ensures CompareChunks(a, b) == -CompareChunks(b, a)
    decreases |a| + |b|
  {
    hide CompareChunk;
    if a != [] || b != [] {
      ChunkTotal(At(a, 0), At(b, 0));
      ChunksSymmetric(Rest(a), Rest(b));
    }
  }

  lemma {:induction false} ChunksTransitive(a: seq<Chunk>, b: seq<Chunk>, c: seq<Chunk>)
    requires CompareChunks(a, b) <= 0 && CompareChunks(b, c) <= 0
    ensures CompareChunks(a, c) <= 0
    decreases |a| + |b| + |c|
  {
    hide CompareChunk;
    if a != [] || b != [] || c != [] {
      var x, y, z := At(a, 0), At(b, 0), At(c, 0);
      Unfold(a, b);
      Unfold(b, c);
      Unfold(a, c);
      ChunkTotal(x, y);
      ChunkTotal(y, z);
      ChunkTotal(x, z);
      ChunkTransitive(x, y, z);
      if x == z {
        ChunkTransitive(z, x, y);
        assert x == y;
        ChunksTransitive(Rest(a), Rest(b), Rest(c));
      }
    }
  }

  /** Also the empty lists compare by their padding. */
  lemma Unfold(a: seq<Chunk>, b: seq<Chunk>)
    ensures CompareChunks(a, b) ==
      if CompareChunk(At(a, 0), At(b, 0)) != 0 then CompareChunk(At(a, 0), At(b, 0))
        else CompareChunks(Rest(a), Rest(b))
  {
  }

  /** Versions compare equal exactly when their padded chunks are the same. */
  lemma {:induction false} ChunksEqual(a: seq<Chunk>, b: seq<Chunk>)
    ensures CompareChunks(a, b) == 0 <==> forall i :: 0 <= i < |a| || 0 <= i < |b| ==> At(a, i) == At(b, i)
    decreases |a| + |b|
  {
    hide CompareChunk;
    if a != [] || b != [] {
      ChunkTotal(At(a, 0), At(b, 0));
      ChunksEqual(Rest(a), Rest(b));
      var r, s := Rest(a), Rest(b);
      assert forall i :: 0 <= i ==> At(r, i) == At(a, i + 1) && At(s, i) == At(b, i + 1);
      if CompareChunks(a, b) == 0 {
        forall i | 0 <= i < |a| || 0 <= i < |b|
          ensures At(a, i) == At(b, i)
        {
          if i > 0 {
            assert At(r, i - 1) == At(s, i - 1);
          }
        }
      }
      if forall i :: 0 <= i < |a| || 0 <= i < |b| ==> At(a, i) == At(b, i) {
        forall i | 0 <= i < |r| || 0 <= i < |s|
          ensures At(r, i) == At(s, i)
        {
          assert At(a, i + 1) == At(b, i + 1);
        }
        assert At(a, 0) == At(b, 0);
      }
    }
  }

  // ----- versions

  const COLON: byte := 58
  const DASH: byte := 45
  const ZERO: byte := 48

  /** Epoch, upstream version and Debian revision. */
  datatype Version = Version(epoch: byte, upstream: Text, revision: Text)

  /** `strrchr`: the position of the last `c`, if any. */
  function LastIndex(v: Text, c: byte): (r: Option<nat>)
    ensures r.Some? ==> r.value < |v| && v[r.value] == c && forall i :: r.value < i < |v| ==> v[i] != c
    ensures r.None? ==> c !in v
  {
    if v == [] then None
    else if v[|v| - 1] == c then Some(|v| - 1)
    else LastIndex(v[..|v| - 1], c)
  }

  predicate HasEpoch(v: Text) { |v| >= 2 && v[1] == COLON }

  function Epoch(v: Text): byte { if HasEpoch(v) then v[0] else ZERO }

  /** Behind the first colon, which may be the epoch character itself. */
  function AfterEpoch(v: Text): Text
  {
    if !HasEpoch(v) then v else if v[0] == COLON then v[1..] else v[2..]
  }

  function Parse(v: Text): Version
  {
    var rest, dash := AfterEpoch(v), LastIndex(AfterEpoch(v), DASH);
    Version(Epoch(v),
            if dash.Some? then rest[..dash.value] else rest,
            if dash.Some? then rest[dash.value + 1..] else [])
  }

  function CompareParts(a: Text, b: Text): int
  {
    CompareChunks(Chunks(a), Chunks(b))
  }

  /** By epoch, then upstream version, then revision. */
  function CompareVersions(a: Version, b: Version): int
  {
    if a.epoch != b.epoch then Compare(a.epoch, b.epoch)
    else if CompareParts(a.upstream, b.upstream) != 0 then CompareParts(a.upstream, b.upstream)
    else CompareParts(a.revision, b.revision)
  }

  /** The sign of the comparison is a total preorder on all version strings. */
  lemma VersionOrder(a: Version, b: Version, c: Version)
    ensures CompareVersions(a, a) == 0
    ensures CompareVersions(a, b) == -CompareVersions(b, a)
    ensures CompareVersions(a, b) <= 0 && CompareVersions(b, c) <= 0 ==> CompareVersions(a, c) <= 0
  {
    hide Chunks, CompareChunks;
    PartOrder(a.upstream, b.upstream, c.upstream);
    PartOrder(a.revision, b.revision, c.revision);
    PartOrder(c.upstream, a.upstream, b.upstream);
    PartOrder(b.upstream, c.upstream, a.upstream);
  }

  lemma PartOrder(a: Text, b: Text, c: Text)
    ensures CompareParts(a, a) == 0 && CompareParts(a, b) == -CompareParts(b, a)
    ensures CompareParts(b, c) == -CompareParts(c, b)
    ensures CompareParts(a, c) == -CompareParts(c, a)
    ensures CompareParts(a, b) <= 0 && CompareParts(b, c) <= 0 ==> CompareParts(a, c) <= 0
  {
    hide Chunks, CompareChunks;
    ChunksSymmetric(Chunks(a), Chunks(a));
    ChunksSymmetric(Chunks(a), Chunks(b));
    ChunksSymmetric(Chunks(b), Chunks(c));
    ChunksSymmetric(Chunks(a), Chunks(c));
    if CompareParts(a, b) <= 0 && CompareParts(b, c) <= 0 {
      ChunksTransitive(Chunks(a), Chunks(b), Chunks(c));
    }
  }

  datatype Operator = Equal | Less | LessEqual | More | MoreEqual | Any | NoOperator

  function Test(a: Text, b: Text, op: Operator): bool
  {
    var r := CompareVersions(Parse(a), Parse(b));
    match op
    case Equal => r == 0
    case Less => r < 0
    case LessEqual => r <= 0
    case More => r > 0
    case MoreEqual => r >= 0
    case Any => true
    case NoOperator => false
  }

  /** The operators agree with one another on all versions. */
  lemma TestConsistent(a: Text, b: Text, c: Text)
    ensures Test(a, b, LessEqual) <==> !Test(a, b, More)
    ensures Test(a, b, MoreEqual) <==> !Test(a, b, Less)
    ensures Test(a, b, Equal) <==> Test(a, b, LessEqual) && Test(a, b, MoreEqual)
    ensures Test(a, b, Less) <==> Test(b, a, More)
    ensures Test(a, a, Equal) && (Test(a, b, Equal) <==> Test(b, a, Equal))
    ensures Test(a, b, LessEqual) && Test(b, c, LessEqual) ==> Test(a, c, LessEqual)
    ensures Test(a, b, Less) && Test(b, c, LessEqual) ==> Test(a, c, Less)
    ensures Test(a, b, Equal) && Test(b, c, Equal) ==> Test(a, c, Equal)
  {
    hide CompareVersions, Parse;
    var x, y, z := Parse(a), Parse(b), Parse(c);
    VersionOrder(x, y, z);
    VersionOrder(z, y, x);
    VersionOrder(y, z, x);
    VersionOrder(z, x, y);
  }

  // ----- the code

  /** `version_compare_part`; `None` is a null pointer. */
  method VersionComparePart(version1: Option<Text>, version2: Option<Text>) returns (r: int)
    ensures Sign(r)
      == CompareParts(if version1.Some? then version1.value else [], if version2.Some? then version2.value else [])
  {
    hide StrCmp, CompareChunk, Chunks, CompareParts, FirstChunk, ChunkEnd, Span, Atoi;
    var v1 := if version1.Some? then version1.value else [];
    var v2 := if version2.Some? then version2.value else [];
    var len1: nat, len2: nat := 0, 0;
    assert v1[0..] == v1 && v2[0..] == v2;
    while len1 < |v1| || len2 < |v2|
      invariant 0 <= len1 <= |v1| && 0 <= len2 <= |v2|
      invariant CompareParts(v1, v2) == CompareParts(v1[len1..], v2[len2..])
      decreases |v1| - len1 + |v2| - len2
    {
      ghost var a, b := v1[len1..], v2[len2..];
      PartUnfold(a, b);
      ChunkParts(a);
      ChunkParts(b);
      ChunkCompared(FirstChunk(a), FirstChunk(b));
      var name1, name2, num1, num2;
      name1, len1 := NextWord(v1, len1);
      name2, len2 := NextWord(v2, len2);
      var tmp := StrCmp(name1, name2);
      if tmp != 0 {
        return tmp;
      }
      num1, len1 := NextNumber(v1, len1);
      num2, len2 := NextNumber(v2, len2);
      if num1 < num2 {
        return -1;
      }
      if num1 > num2 {
        return 1;
      }
    }
    NoParts();
    assert v1[len1..] == [] && v2[len2..] == [];
    r := 0;
  }

  lemma NoParts()
    ensures CompareParts([], []) == 0
  {
  }

  lemma ChunkParts(v: Text)
    ensures var w := Span(v, false);
      var d := Span(v[w..], true);
      FirstChunk(v) == Chunk(v[..w], Atoi(v[w..][..d])) && ChunkEnd(v) == w + d
    ensures v != [] ==> ChunkEnd(v) >= 1
    ensures var w := Span(v, false);
      v[w..][Span(v[w..], true)..] == v[ChunkEnd(v)..]
  {
  }

  method NextWord(v: Text, len: nat) returns (word: Text, len': nat)
    requires len <= |v|
    ensures len <= len' <= |v|
    ensures var n := Span(v[len..], false);
      word == v[len..][..n] && v[len'..] == v[len..][n..] && len' == len + n
  {
    hide Span;
    var n := Span(v[len..], false);
    word, len' := v[len..][..n], len + n;
  }

  method NextNumber(v: Text, len: nat) returns (number: nat, len': nat)
    requires len <= |v|
    ensures len <= len' <= |v|
    ensures var n := Span(v[len..], true);
      number == Atoi(v[len..][..n]) && v[len'..] == v[len..][n..] && len' == len + n
  {
    hide Span, Atoi;
    var n := Span(v[len..], true);
    number, len' := Atoi(v[len..][..n]), len + n;
  }

  lemma ChunkCompared(a: Chunk, b: Chunk)
    ensures CompareChunk(a, b)
      == (if StrCmp(a.word, b.word) != 0 then StrCmp(a.word, b.word) else Compare(a.number, b.number))
    ensures StrCmp(a.word, b.word) == Sign(StrCmp(a.word, b.word))
  {
    StrCmpSign(a.word, b.word);
  }

  lemma {:induction false} StrCmpSign(a: Text, b: Text)
    ensures StrCmp(a, b) == Sign(StrCmp(a, b))
    decreases |a|
  {
    if a != [] && b != [] {
      StrCmpSign(a[1..], b[1..]);
    }
  }

  /** Comparing by the first chunks, then by what is behind them; the end of a version counts as an empty chunk. */
  lemma PartUnfold(a: Text, b: Text)
    requires a != [] || b != []
    ensures var c, d := FirstChunk(a), FirstChunk(b);
      CompareParts(a, b) == if CompareChunk(c, d) != 0 then CompareChunk(c, d)
        else CompareParts(a[ChunkEnd(a)..], b[ChunkEnd(b)..])
  {
    hide CompareChunk, FirstChunk, ChunkEnd;
    ChunksStep(a);
    ChunksStep(b);
    Unfold(Chunks(a), Chunks(b));
  }

  lemma ChunksStep(v: Text)
    ensures At(Chunks(v), 0) == FirstChunk(v) && Rest(Chunks(v)) == Chunks(v[ChunkEnd(v)..])
  {
    if v == [] {
      assert v[ChunkEnd(v)..] == [];
    }
  }

  /** `version_compare` */
  method VersionCompare(v1: Text, v2: Text) returns (r: int)
    ensures Sign(r) == CompareVersions(Parse(v1), Parse(v2))
  {
    hide CompareParts, LastIndex, AfterEpoch, Epoch;
    var epoch1, p1 := CutEpoch(v1);
    var epoch2, p2 := CutEpoch(v2);
    if epoch1 < epoch2 {
      return -1;
    } else if epoch1 > epoch2 {
      return 1;
    }
    var up1, deb1 := ChopRevision(p1);
    var up2, deb2 := ChopRevision(p2);
    r := VersionComparePart(Some(up1), Some(up2));
    if r == 0 {
      r := VersionComparePart(deb1, deb2);
    }
  }

  method CutEpoch(v: Text) returns (epoch: byte, rest: Text)
    ensures epoch == Epoch(v) && rest == AfterEpoch(v)
  {
    epoch, rest := ZERO, v;
    if |v| >= 2 && v[1] == COLON {
      epoch := v[0];
      rest := if v[0] == COLON then v[1..] else v[2..];
    }
  }

  /** Cut at the last dash. */
  method ChopRevision(v: Text) returns (upstream: Text, revision: Option<Text>)
    ensures var dash := LastIndex(v, DASH);
      if dash.Some? then upstream == v[..dash.value] && revision == Some(v[dash.value + 1..])
        else upstream == v && revision == None
  {
    var dash := LastIndex(v, DASH);
    upstream, revision := v, None;
    if dash.Some? {
      upstream, revision := v[..dash.value], Some(v[dash.value + 1..]);
    }
  }

  /** `test_version` */
  method TestVersion(v1: Text, v2: Text, op: Operator) returns (b: bool)
    ensures b == Test(v1, v2, op)
  {
    hide CompareVersions, Parse;
    var r := VersionCompare(v1, v2);
    match op {
      case Any => return true;
      case Equal => return r == 0;
      case Less => return r < 0;
      case LessEqual => return r <= 0;
      case More => return r > 0;
      case MoreEqual => return r >= 0;
      case NoOperator => return false;
    }
  }
}
