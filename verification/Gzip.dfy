/** `zip`: one run of the compressor from zeroed globals, with the member header and trailer of RFC 1952. */
module Gzip {
  import opened Bits
  import opened BitWriter
  import opened CanonicalCode
  import Crc
  import opened CrcDivision
  import opened MemberReader
  import opened Inflate
  import opened CodeTables
  import TokenBuffer
  import opened BlockCoder
  import opened HashChains
  import opened Expansion
  import opened Matcher
  import opened Tokenizer
  import opened FarInput
  import opened Deflation

  /** The ten bytes of the header: magic, method 8, no flags, time, extra flags 2, Unix. */
  function Header(timeStamp: nat): seq<byte>
    requires timeStamp < 0x1_0000_0000
  {
    [0x1f, 0x8b, 8, 0] + Word32(timeStamp) + [2, 3]
  }

  /** The eight bytes behind the compressed data: the CRC of the text and its length modulo 2^32. */
  ghost function Trailer(text: seq<byte>): seq<byte>
  {
    Word32(Crc.Checksum(text) as int) + Word32(|text| % 0x1_0000_0000)
  }

  lemma ChecksumIs(src: Source)
    requires src.Valid()
    ensures Crc.Complement(src.crc) == Crc.Checksum(src.data[..src.pos])
  {
  }

  /** The buffered bytes as bits, when no bits are pending. */
  lemma WholeBytes(w: Writer)
    requires w.Valid() && w.biValid == 0
    ensures w.Stream() == ByteBits(w.Bytes())
  {
  }

  lemma StartText(data: seq<byte>)
    ensures Text([], data, 0, 0) && data[..0] == []
  {
  }

  /** Two more header bytes are written after `ct_init`; the compressed data starts behind them. */
  method Begin(c: Coder, ghost data: seq<byte>)
    requires c.Valid() && c.store.tokens == [] && c.store.tallied == [] && c.w.biValid == 0 && c.compressedLen == 0
    modifies c`origin, c`opening, c.w`outcnt, c.w`sink, c.w.outbuf
    ensures Covers(c, data, 0, 0) && c.store.tokens == [] && c.store.tallied == []
    ensures c.opening == ByteBits(old(c.w.Bytes()) + [2, 3])
  {
    hide Coder.Counts, Coder.Shape, StaticTrees, TokenBuffer.Store.Valid, Resumes, Text, ByteBits, Lsb, Writer.Valid,
         Writer.Stream, Writer.Bytes;
    PutFlags(c.w);
    c.opening := c.w.Stream();
    c.origin := |c.opening|;
    StartText(data);
    ResumesStart();
    assert Body(c) == [];
  }

  /** `deflate_flags` and the identifier of the system. */
  method PutFlags(w: Writer)
    requires w.Valid() && w.biValid == 0 && |w.Stream()| % 8 == 0
    modifies w`outcnt, w`sink, w.outbuf
    ensures w.Valid() && w.biValid == 0 && w.Stream() == ByteBits(old(w.Bytes()) + [2, 3]) && |w.Stream()| % 8 == 0
  {
    hide ByteBits, Lsb;
    WholeBytes(w);
    ByteBitsAppend(w.Bytes(), [2, 3]);
    w.Put8Bit(2);
    w.Put8Bit(3);
    WholeBytes(w);
    assert w.Bytes() == old(w.Bytes()) + [2, 3];
    TwoBytes();
  }

  lemma TwoBytes()
    ensures |ByteBits([2, 3])| == 16
  {
  }

  /** The trailer, and the last flush. */
  method End(w: Writer, src: Source)
    requires w.Valid() && w.biValid == 0 && src.Valid()
    modifies w`outcnt, w`sink, w.outbuf
    ensures ByteBits(w.sink) == old(w.Stream()) + ByteBits(Trailer(src.data[..src.pos]))
  {
    hide ByteBits, Lsb, Word32, Crc.FeedAll, Crc.Complement;
    ChecksumIs(src);
    var crc, isize := Crc.Complement(src.crc) as int, src.pos % 0x1_0000_0000;
    ghost var s := w.Bytes();
    WholeBytes(w);
    w.Put32Bit(crc);
    w.Put32Bit(isize);
    Assoc(s, Word32(crc), Word32(isize));
    ByteBitsAppend(s, Word32(crc) + Word32(isize));
    w.FlushOutbuf();
  }

  /** The first eight header bytes, and the tables. */
  method Prepare(timeStamp: nat) returns (c: Coder)
    requires timeStamp < 0x1_0000_0000
    ensures c.Valid() && c.store.tokens == [] && c.store.tallied == [] && c.w.biValid == 0 && c.compressedLen == 0
    ensures c.w.Bytes() == [0x1f, 0x8b, 8, 0] + Word32(timeStamp)
    ensures fresh(c) && fresh(c.w) && fresh(c.w.outbuf) && fresh(c.slFc) && fresh(c.slDl) && fresh(c.sdFc)
    ensures fresh(c.sdDl)
    ensures fresh(c.b) && fresh(c.b.heap) && fresh(c.b.depth) && fresh(c.b.blCount)
    ensures fresh(c.ltree) && fresh(c.ltree.fc) && fresh(c.ltree.dl) && fresh(c.dtree) && fresh(c.dtree.fc)
    ensures fresh(c.dtree.dl)
    ensures fresh(c.bltree) && fresh(c.bltree.fc) && fresh(c.bltree.dl)
    ensures fresh(c.store) && fresh(c.store.lbuf) && fresh(c.store.dbuf) && fresh(c.store.flagBuf)
  {
    hide Coder.Valid, ByteBits, Lsb;
    var w := new Writer();
    w.Put32Bit(0x00088b1f);
    w.Put32Bit(timeStamp);
    WholeBytes(w);
    c := CtInit(w);
    NoData(c);
  }

  lemma NoData(c: Coder)
    requires c.Valid() && c.origin == |c.w.Stream()|
    ensures c.compressedLen == 0
  {
    hide Coder.Shape, Coder.Counts;
  }

  /** The bytes behind a given number of bytes are the bits behind their bits. */
  lemma BytesBehind(s: seq<byte>, n: nat)
    requires n <= |s|
    ensures ByteBits(s) == ByteBits(s[..n]) + ByteBits(s[n..])
  {
    hide ByteBits;
    assert s == s[..n] + s[n..];
    ByteBitsAppend(s[..n], s[n..]);
  }

  lemma {:induction false} SameBytes(s: seq<byte>, t: seq<byte>, a: BitString, b: BitString)
    requires ByteBits(s) + a == ByteBits(t) + b && |s| == |t|
    ensures s == t && a == b
  {
    hide ByteBits;
    var x := ByteBits(s) + a;
    assert x[..8 * |s|] == ByteBits(s) && x[..8 * |s|] == ByteBits(t);
    assert x[8 * |s|..] == a && x[8 * |s|..] == b;
    Crc.ByteBitsInjective(s, t);
  }

  lemma NumberWord(n: nat)
    requires n < 0x1_0000_0000
    ensures |Word32(n)| == 4 && Number(Word32(n)) == n
  {
    hide Number;
    var a, b, c, d := n % 65536 % 256, n % 65536 / 256, n / 65536 % 256, n / 65536 / 256;
    assert Word32(n) == [a, b, c, d];
    FourBytes([a, b, c, d]);
  }

  /** The three parts of the file, as bytes. */
  lemma Parts(file: seq<byte>, head: seq<byte>, data: BitString, tail: seq<byte>)
    requires ByteBits(file) == ByteBits(head) + data + ByteBits(tail)
    ensures |file| >= |head| + |tail| && file[..|head|] == head && file[|file| - |tail|..] == tail
    ensures ByteBits(file[|head|..]) == data + ByteBits(tail)
  {
    hide ByteBits;
    assert 8 * |file| == 8 * |head| + |data| + 8 * |tail|;
    BytesBehind(file, |head|);
    Assoc(ByteBits(head), data, ByteBits(tail));
    SameBytes(file[..|head|], head, ByteBits(file[|head|..]), data + ByteBits(tail));
    var n := |file| - |tail|;
    BytesBehind(file, n);
    var x := ByteBits(file);
    assert x[8 * n..] == ByteBits(file[n..]) && x[8 * n..] == ByteBits(tail);
    Crc.ByteBitsInjective(file[n..], tail);
  }

  lemma TrailerReads(text: seq<byte>)
    ensures var t := Trailer(text);
      |t| == 8 && Number(t[..4]) == CrcOf(text) && Number(t[4..8]) == |text| % 0x1_0000_0000
  {
    hide Number, Word32, CrcOf, Crc.Checksum;
    ChecksumIsDivision(text);
    var crc, size := Crc.Checksum(text) as int, |text| % 0x1_0000_0000;
    NumberWord(crc);
    NumberWord(size);
    assert Trailer(text)[..4] == Word32(crc) && Trailer(text)[4..8] == Word32(size);
  }

  lemma HeaderReads(timeStamp: nat)
    requires timeStamp < 0x1_0000_0000
    ensures var h := Header(timeStamp);
      && |h| == 10 && h[0] == ID1 && h[1] == ID2 && h[2] == DEFLATE && h[3] == 0
      && Number(h[4..8]) == timeStamp && h[8] == 2 && h[9] == 3
  {
    hide Number, Word32;
    NumberWord(timeStamp);
    assert Header(timeStamp)[4..8] == Word32(timeStamp);
  }

  /** Header, data and trailer read back as one member with this text. */
  lemma MemberReads(file: seq<byte>, timeStamp: nat, data: BitString, text: seq<byte>, pad: nat)
    requires timeStamp < 0x1_0000_0000 && pad < 8 && Ends(data, text, pad)
    requires ByteBits(file) == ByteBits(Header(timeStamp)) + data + ByteBits(Trailer(text))
    ensures ReadMember(file) == Some((Member(timeStamp, 2, 3, text), []))
  {
    hide ByteBits, InflateStream, Lsb, Header, Trailer, Number, CrcOf;
    var h, t := Header(timeStamp), Trailer(text);
    HeaderReads(timeStamp);
    TrailerReads(text);
    Parts(file, h, data, t);
    assert file[..10] == h;
    assert forall i :: 0 <= i < 10 ==> file[i] == h[i];
    assert file[4..8] == h[4..8];
    var rest := Lsb(0, pad) + ByteBits(t);
    assert InflateStream(data + ByteBits(t)) == Some((text, rest));
    assert |rest| / 8 == 8;
    assert t[8..] == [];
  }

  /**
   * `zip`: the file is one member that the reader of RFC 1952 takes for the bytes that were read, with the time stamp,
   * extra flags 2 and system 3. In between stands the compressed data, up to `pad` zero bits.
   */
  method Zip(src: Source, timeStamp: nat) returns (w: Writer, ghost data: BitString, ghost pad: nat)
    requires src.Valid() && src.pos == 0 && timeStamp < 0x1_0000_0000
    modifies src
    ensures src.Valid() && (src.reliable ==> src.pos == |src.data|)
    ensures ReadMember(w.sink) == Some((Member(timeStamp, 2, 3, src.data[..src.pos]), []))
    ensures ByteBits(w.sink) == ByteBits(Header(timeStamp)) + data + ByteBits(Trailer(src.data[..src.pos]))
    ensures pad < 8 && InflateStream(data) == Some((src.data[..src.pos], Lsb(0, pad)))
  {
    hide Coder.Valid, ByteBits, Lsb, Covers, InflateStream, Tallied, Word32, Header, AtStart, Trailer, Ends, ReadMember;
    var m, c := Setup(src, timeStamp);
    var _, pad0 := Deflate(m, c);
    w, pad := c.w, pad0;
    data := w.Stream()[c.origin..];
    assert w.Stream() == w.Stream()[..c.origin] + data;
    End(w, src);
    EndsAlone(data, src.data[..src.pos], pad);
    MemberReads(w.sink, timeStamp, data, src.data[..src.pos], pad);
  }

  /** Everything before the loop of `deflate`. */
  method Setup(src: Source, timeStamp: nat) returns (m: Window, c: Coder)
    requires src.Valid() && src.pos == 0 && timeStamp < 0x1_0000_0000
    modifies src
    ensures m.src == src && AtStart(m, c) && c.opening == ByteBits(Header(timeStamp))
    ensures old(src.plan) == [] ==> src.plan == [] && (m.lookahead == WINDOW_SIZE || src.pos == |src.data|)
    ensures fresh(m) && fresh(m.window) && fresh(m.prev) && fresh(m.head)
    ensures fresh(c) && fresh(c.w) && fresh(c.w.outbuf) && fresh(c.slFc) && fresh(c.slDl) && fresh(c.sdFc)
    ensures fresh(c.sdDl)
    ensures fresh(c.b) && fresh(c.b.heap) && fresh(c.b.depth) && fresh(c.b.blCount)
    ensures fresh(c.ltree) && fresh(c.ltree.fc) && fresh(c.ltree.dl) && fresh(c.dtree) && fresh(c.dtree.fc)
    ensures fresh(c.dtree.dl)
    ensures fresh(c.bltree) && fresh(c.bltree.fc) && fresh(c.bltree.dl)
    ensures fresh(c.store) && fresh(c.store.lbuf) && fresh(c.store.dbuf) && fresh(c.store.flagBuf)
  {
    hide Coder.Valid, ByteBits, Lsb, Covers, Word32, Source.Valid, Window.Loaded, Window.Hashed;
    c := Prepare(timeStamp);
    m := new Window(src);
    m.LmInit();
    Begin(c, src.data);
  }

  lemma PlainAtStart(m: Window, c: Coder)
    requires AtStart(m, c) && m.src.plan == [] && m.src.reliable && m.src.data == CounterText(|m.src.data|)
    requires m.lookahead == WINDOW_SIZE || m.src.pos == |m.src.data|
    ensures PlainRun(m, 2)
  {
    hide CounterText, Covers, Chains, Ready, Shows, Crc.FeedAll, Crc.IsTable, ByteBits;
  }

  /**
   * At each of these lengths there is an input, read without interruption, on which the disabled assertion of
   * `longest_match` fails.
   */
  method FarRun(n: nat) returns (m: Window)
    requires PastEnd(n) && (n - (FAR_LIMIT + 2)) % WSIZE >= 2
    ensures m.src.data == CounterText(n) && m.far
  {
    hide AtStart, PlainRun, CounterText, Source.Valid, ByteBits, Header, Tallied, Ends, Lsb, Writer.Valid,
         Writer.Stream;
    var src := new Source(CounterText(n), []);
    var c;
    m, c := Setup(src, 0);
    PlainAtStart(m, c);
    var _, pad := Deflate(m, c);
  }
}
