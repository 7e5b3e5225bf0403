/** What tokens and blocks expand to: matches repeat earlier text, and blocks decode one after the other. */
module Expansion {
  import opened Bits
  import opened CanonicalCode
  import opened Inflate
  import opened BlockBits

  /** The `len` bytes at `at` also stand at `from`; the two stretches may overlap. */
  ghost predicate Repeats(s: seq<byte>, from: nat, at: nat, len: nat)
  {
    from < at && at + len <= |s| && forall i :: from <= i < from + len ==> s[i] == s[i + at - from]
  }

  /** Copying a repetition byte by byte continues the text. */
  lemma {:induction false} CopyRepeats(s: seq<byte>, from: nat, at: nat, len: nat)
    requires Repeats(s, from, at, len)
    ensures Copy(s[..at], len, at - from) == s[..at + len]
    decreases len
  {
    if len > 0 {
      assert s[from] == s[from + at - from];
      assert s[..at] + [s[from]] == s[..at + 1];
      forall i | from + 1 <= i < from + 1 + (len - 1)
        ensures s[i] == s[i + (at + 1) - (from + 1)]
      {
      }
      CopyRepeats(s, from + 1, at + 1, len - 1);
    }
  }

  lemma {:induction false} ExpandAppend(out: seq<byte>, ts: seq<Token>, t: Token)
    requires Expand(out, ts).Some?
    ensures Expand(out, ts + [t]) == Apply(Expand(out, ts).value, t)
    decreases |ts|
  {
    if ts == [] {
      assert (ts + [t])[0] == t && (ts + [t])[1..] == [];
    } else {
      assert (ts + [t])[0] == ts[0] && (ts + [t])[1..] == ts[1..] + [t];
      ExpandAppend(Apply(out, ts[0]).value, ts[1..], t);
    }
  }

  /** One more literal or match of the text itself. */
  ghost predicate Continues(s: seq<byte>, at: nat, t: Token)
  {
    match t
    case Literal(b) => at < |s| && b == s[at]
    case Match(len, dist) => 1 <= dist <= at && Repeats(s, at - dist, at, len)
  }

  function Size(t: Token): nat
  {
    if t.Literal? then 1 else t.length
  }

  lemma ExpandContinues(s: seq<byte>, out: seq<byte>, ts: seq<Token>, at: nat, t: Token)
    requires Continues(s, at, t) && Expand(out, ts) == Some(s[..at])
    ensures at + Size(t) <= |s| && Expand(out, ts + [t]) == Some(s[..at + Size(t)])
  {
    ExpandAppend(out, ts, t);
    match t {
      case Literal(b) =>
        assert s[..at] + [b] == s[..at + 1];
      case Match(len, dist) =>
        CopyRepeats(s, at - dist, at, len);
    }
  }

  /** After `bits` the decoder has produced `out` and is at the start of a block, whatever follows. */
  ghost predicate Resumes(bits: BitString, out: seq<byte>)
  {
    forall t: BitString :: InflateStream(bits + t) == InflateFrom(t, |bits|, out)
  }

  lemma ResumesStart()
    ensures Resumes([], [])
  {
    hide InflateFrom;
    forall t: BitString
      ensures InflateStream([] + t) == InflateFrom(t, 0, [])
    {
      assert [] + t == t;
    }
  }

  lemma ResumesBlock(bits: BitString, out: seq<byte>, piece: BitString, blk: Block, out': seq<byte>)
    requires Resumes(bits, out) && Decodes(piece, |bits|, false, blk) && ApplyBlock(out, blk) == Some(out')
    ensures Resumes(bits + piece, out')
  {
    hide ReadBlock, ApplyBlock, InflateStream;
    forall t: BitString
      ensures InflateStream(bits + piece + t) == InflateFrom(t, |bits + piece|, out')
    {
      Assoc(bits, piece, t);
      assert InflateStream(bits + (piece + t)) == InflateFrom(piece + t, |bits|, out);
      assert ReadBlock(piece + t, |bits|) == Some((false, blk, t));
      NextBlock(piece + t, |bits|, out, blk, t, out');
    }
  }

  lemma NextBlock(bits: BitString, pos: nat, out: seq<byte>, blk: Block, t: BitString, out': seq<byte>)
    requires ReadBlock(bits, pos) == Some((false, blk, t)) && ApplyBlock(out, blk) == Some(out')
    ensures |t| < |bits| && InflateFrom(bits, pos, out) == InflateFrom(t, pos + |bits| - |t|, out')
  {
    hide ApplyBlock, ReadBlock;
  }

  lemma ResumesLast(bits: BitString, out: seq<byte>, piece: BitString, blk: Block, out': seq<byte>, t: BitString)
    requires Resumes(bits, out) && Decodes(piece, |bits|, true, blk) && ApplyBlock(out, blk) == Some(out')
    ensures InflateStream(bits + piece + t) == Some((out', t))
  {
    hide ReadBlock, ApplyBlock, InflateStream;
    Assoc(bits, piece, t);
    assert InflateStream(bits + (piece + t)) == InflateFrom(piece + t, |bits|, out);
    assert ReadBlock(piece + t, |bits|) == Some((true, blk, t));
  }

  /** A whole stream: whatever follows, the decoder yields the text and stops `pad` zero bits behind its last block. */
  ghost predicate Ends(bits: BitString, text: seq<byte>, pad: nat)
  {
    forall t: BitString :: InflateStream(bits + t) == Some((text, Lsb(0, pad) + t))
  }

  lemma EndsLast(bits: BitString, out: seq<byte>, piece: BitString, blk: Block, out': seq<byte>, pad: nat)
    requires Resumes(bits, out) && Decodes(piece, |bits|, true, blk) && ApplyBlock(out, blk) == Some(out')
    ensures Ends(bits + piece + Lsb(0, pad), out', pad)
  {
    hide Resumes, Decodes, ApplyBlock, InflateStream, Lsb;
    forall t: BitString
      ensures InflateStream(bits + piece + Lsb(0, pad) + t) == Some((out', Lsb(0, pad) + t))
    {
      Assoc(bits + piece, Lsb(0, pad), t);
      ResumesLast(bits, out, piece, blk, out', Lsb(0, pad) + t);
    }
  }

  lemma EndsAlone(bits: BitString, text: seq<byte>, pad: nat)
    requires Ends(bits, text, pad)
    ensures InflateStream(bits) == Some((text, Lsb(0, pad)))
  {
    hide InflateStream, Lsb;
    assert bits + [] == bits && Lsb(0, pad) + [] == Lsb(0, pad);
  }
}
