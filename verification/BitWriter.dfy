/** The output side of gzip.c: the output buffer, and the bit buffer above it. */
module BitWriter {
  import opened Bits

  const OUTBUFSIZ := 8192

  class Writer {
    const outbuf: array<byte>
    var outcnt: nat
    var biBuf: nat
    var biValid: nat
    /** Everything handed to `xwrite` so far. */
    var sink: seq<byte>

    ghost predicate BufferValid()
      reads this
    {
      outbuf.Length == OUTBUFSIZ && outcnt < OUTBUFSIZ
    }

    ghost predicate Valid()
      reads this
    {
      && BufferValid()
      && biValid <= 16
      && biBuf < Pow2(biValid)
    }

    /** The bytes produced, whether flushed or still buffered. */
    ghost function Bytes(): seq<byte>
      requires BufferValid()
      reads this, outbuf
    {
      sink + outbuf[..outcnt]
    }

    /** The bits sent so far: the bytes produced, then the bits still in `biBuf`. */
    ghost function Stream(): BitString
      requires Valid()
      reads this, outbuf
    {
      ByteBits(Bytes()) + Lsb(biBuf, biValid)
    }

    constructor ()
      ensures Valid() && Stream() == [] && Bytes() == [] && biValid == 0
      ensures fresh(outbuf)
    {
      outbuf := new byte[OUTBUFSIZ](_ => 0);
      outcnt, biBuf, biValid, sink := 0, 0, 0, [];
    }

    method FlushOutbuf()
      requires outbuf.Length == OUTBUFSIZ && outcnt <= OUTBUFSIZ
      modifies this`outcnt, this`sink
      ensures outcnt == 0 && sink == old(sink + outbuf[..outcnt])
    {
      if outcnt == 0 {
        return;
      }
      sink := sink + outbuf[..outcnt];
      outcnt := 0;
    }

    /** `put_8bit`: the argument is truncated to a byte by the store. */
    method Put8Bit(c: nat)
      requires BufferValid()
      modifies this`outcnt, this`sink, outbuf
      ensures BufferValid()
      ensures Bytes() == old(Bytes()) + [c % 256]
    {
      outbuf[outcnt] := c % 256;
      outcnt := outcnt + 1;
      assert outbuf[..outcnt] == old(outbuf[..outcnt]) + [c % 256];
      assert sink + outbuf[..outcnt] == old(Bytes()) + [c % 256];
      if outcnt == OUTBUFSIZ {
        FlushOutbuf();
      }
    }

    /** `put_16bit`: low byte first. */
    method Put16Bit(w: nat)
      requires BufferValid() && w < 65536
      modifies this`outcnt, this`sink, outbuf
      ensures BufferValid()
      ensures Bytes() == old(Bytes()) + [w % 256, w / 256]
      ensures ByteBits(Bytes()) == ByteBits(old(Bytes())) + Lsb(w, 16)
    {
      hide ByteBits, Lsb;
      ByteBitsAppend(Bytes(), [w % 256, w / 256]);
      WordBits(w);
      if outcnt < OUTBUFSIZ - 2 {
        outbuf[outcnt] := w % 256;
        outcnt := outcnt + 1;
        outbuf[outcnt] := w / 256;
        outcnt := outcnt + 1;
        assert outbuf[..outcnt] == old(outbuf[..outcnt]) + [w % 256, w / 256];
      } else {
        Put8Bit(w);
        Put8Bit(w / 256);
        assert (w / 256) % 256 == w / 256;
      }
    }

    method Put32Bit(n: nat)
      requires BufferValid() && n < 0x1_0000_0000
      modifies this`outcnt, this`sink, outbuf
      ensures BufferValid()
      ensures Bytes() == old(Bytes()) + Word32(n)
    {
      Put16Bit(n % 65536);
      Put16Bit(n / 65536);
    }

    /** `send_bits`: append the low `length` bits of `value`, least significant first. */
    method SendBits(value: nat, length: nat)
      requires Valid() && 1 <= length <= 16 && value < Pow2(length)
      modifies this, outbuf
      ensures Valid()
      ensures Stream() == old(Stream()) + Lsb(value, length)
    {
      hide Low, Shl, Shr, Or, Pow2, Lsb, ByteBits;
      ghost var before, v, n := Bytes(), biBuf, biValid;
      if biValid > 16 - length {
        Spill(v, n, value, length);
        biBuf := Or(biBuf, Low(Shl(value, biValid), 16));
        Put16Bit(biBuf);
        biBuf := Shr(value, 16 - biValid);
        biValid := biValid + length - 16;
        ghost var w := Or(v, Low(Shl(value, n), 16));
        Assoc(ByteBits(before), Lsb(w, 16), Lsb(biBuf, biValid));
        Assoc(ByteBits(before), Lsb(v, n), Lsb(value, length));
      } else {
        Fit(v, n, value, length);
        biBuf := Or(biBuf, Low(Shl(value, biValid), 16));
        biValid := biValid + length;
        Assoc(ByteBits(before), Lsb(v, n), Lsb(value, length));
      }
    }

    /** `bi_windup`: pad with zero bits up to the next byte boundary. */
    method Windup()
      requires Valid()
      modifies this, outbuf
      ensures Valid() && biValid == 0
      ensures Stream() == old(Stream()) + Lsb(0, Padding(|old(Stream())|))
      ensures Stream() == ByteBits(Bytes())
    {
      hide Lsb, ByteBits, Padding, Pow2;
      ghost var before, v, n := ByteBits(Bytes()), biBuf, biValid;
      ghost var pad := Padding(|Stream()|);
      PaddingBits(|before|, n);
      PadField(v, n, pad);
      if biValid > 8 {
        Put16Bit(biBuf);
      } else if biValid > 0 {
        ByteBitsAppend(Bytes(), [v]);
        OneByte(v);
        Put8Bit(biBuf);
      } else {
        ZeroField();
      }
      assert ByteBits(Bytes()) == before + Lsb(v, n + pad);
      Assoc(before, Lsb(v, n), Lsb(0, pad));
      ZeroField();
      biBuf := 0;
      biValid := 0;
    }

    method PutStoredHeader(len: nat)
      requires BufferValid()
      modifies this`outcnt, this`sink, outbuf
      ensures BufferValid()
      ensures ByteBits(Bytes()) == ByteBits(old(Bytes())) + StoredHeader(len)
    {
      hide Lsb, ByteBits;
      Assoc(ByteBits(Bytes()), Lsb(len % 65536, 16), Lsb(65535 - len % 65536, 16));
      Put16Bit(len % 65536);
      Put16Bit(65535 - len % 65536);
    }

    /** `copy_block`: align, then send LEN, its one's complement, and the bytes themselves. */
    method CopyBlock(buf: array<byte>, start: nat, len: nat, header: bool)
      requires Valid() && buf != outbuf
      requires start + len <= buf.Length
      modifies this, outbuf
      ensures Valid() && biValid == 0
      ensures Stream() == old(Stream()) + Lsb(0, Padding(|old(Stream())|))
                 + (if header then StoredHeader(len) else [])
                 + ByteBits(buf[start..start + len])
    {
      hide Lsb, ByteBits, Padding, Pow2, StoredHeader;
      Windup();
      ghost var aligned := Stream();
      ghost var head := if header then StoredHeader(len) else [];
      if header {
        PutStoredHeader(len);
      }
      ghost var base := Bytes();
      assert ByteBits(base) == aligned + head;
      CopyBytes(buf, start, len);
      ByteBitsAppend(base, buf[start..start + len]);
    }

    method CopyBytes(buf: array<byte>, start: nat, len: nat)
      requires BufferValid() && buf != outbuf && start + len <= buf.Length
      modifies this`outcnt, this`sink, outbuf
      ensures BufferValid() && Bytes() == old(Bytes()) + buf[start..start + len]
    {
      ghost var base := Bytes();
      var i := 0;
      while i < len
        invariant BufferValid() && i <= len && Bytes() == base + buf[start..start + i]
        modifies this`outcnt, this`sink, outbuf
      {
        ghost var sofar := buf[start..start + i];
        Put8Bit(buf[start + i]);
        assert buf[start..start + i + 1] == sofar + [buf[start + i]];
        Assoc(base, sofar, [buf[start + i]]);
        i := i + 1;
      }
    }
  }

  /** A 32-bit value, low byte first. */
  function Word32(n: nat): seq<byte>
    requires n < 0x1_0000_0000
  {
    [n % 65536 % 256, n % 65536 / 256, n / 65536 % 256, n / 65536 / 256]
  }

  /** LEN and NLEN of a stored block (section 3.2.4 of RFC 1951), as 16-bit fields. */
  function StoredHeader(len: nat): BitString {
    Lsb(len % 65536, 16) + Lsb(65535 - len % 65536, 16)
  }

  /** The number of zero bits from bit `n` to the next byte boundary. */
  function Padding(n: nat): (p: nat)
    ensures p < 8 && (n + p) % 8 == 0
  {
    (8 - n % 8) % 8
  }

  lemma PaddingBits(m: nat, n: nat)
    requires m % 8 == 0 && n <= 16
    ensures Padding(m + n) == if n > 8 then 16 - n else if n > 0 then 8 - n else 0
  {
  }

  lemma PadField(v: nat, n: nat, pad: nat)
    requires v < Pow2(n) && n <= 16
    ensures Lsb(v, n + pad) == Lsb(v, n) + Lsb(0, pad)
    ensures v < 65536 && (n <= 8 ==> v < 256)
  {
    Pow2Mono(n, 16);
    if n <= 8 {
      Pow2Mono(n, 8);
    }
    Pow2Small();
    LsbConcat(v, n, 0, pad);
    ShlIsMul(0, n);
  }

  lemma ZeroField()
    ensures Lsb(0, 0) == [] && 0 < Pow2(0)
  {
  }

  lemma OneByte(v: byte)
    ensures ByteBits([v]) == Lsb(v, 8)
  {
    assert ByteBits([v]) == Lsb(v, 8) + ByteBits([]);
  }

  /** What `send_bits` stores when the bit buffer overflows: sixteen bits out, the rest kept. */
  lemma Spill(v: nat, n: nat, value: nat, length: nat)
    requires n <= 16 && 1 <= length <= 16 && n + length > 16
    requires v < Pow2(n) && value < Pow2(length)
    ensures var w := Or(v, Low(Shl(value, n), 16));
      var rest := Shr(value, 16 - n);
      && w < 65536
      && rest < Pow2(n + length - 16)
      && Lsb(w, 16) + Lsb(rest, n + length - 16) == Lsb(v, n) + Lsb(value, length)
  {
    hide Low, Shl, Shr, Or, Lsb;
    var room, left := 16 - n, length - (16 - n);
    var lo, hi := Low(value, room), Shr(value, room);
    SplitValue(value, room, left);
    LowShl(value, n, room);
    OrDisjoint(v, lo, n);
    FieldFits(v, n, lo, room);
    assert Pow2(16) == 65536 by { Pow2Small(); }
    LsbConcat(v, n, lo, room);
    LsbConcat(lo, room, hi, left);
    Assoc(Lsb(v, n), Lsb(lo, room), Lsb(hi, left));
  }

  /** What `send_bits` stores when the value fits the bit buffer. */
  lemma Fit(v: nat, n: nat, value: nat, length: nat)
    requires n + length <= 16 && v < Pow2(n) && value < Pow2(length)
    ensures var w := Or(v, Low(Shl(value, n), 16));
      && w < Pow2(n + length)
      && Lsb(w, n + length) == Lsb(v, n) + Lsb(value, length)
  {
    hide Low, Shl, Or, Lsb;
    Pow2Mono(length, 16 - n);
    FieldFits(v, n, value, length);
    LowShl(value, n, 16 - n);
    LowSmall(value, 16 - n);
    OrDisjoint(v, value, n);
    LsbConcat(v, n, value, length);
  }
}
