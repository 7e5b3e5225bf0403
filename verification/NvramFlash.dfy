/** `nvram_load_unlock` and `nvram_commit_unlock`: the shadow file and its checked copy in flash. */
module NvramFlash {
  import opened Bits
  import opened CanonicalCode
  import opened Crc
  import opened CrcDivision
  import opened NvramStore

  const NVRAM_MAGIC: bv32 := 0x004E4F52

  datatype Status = Success | FlashErr | MagicErr | CrcErr | ShadowErr

  datatype Header = Header(magic: bv32, len: nat, crc: bv32)

  /** The flash device: its header, and the bytes from offset `NVRAM_HEADER_SIZE` on. */
  datatype Flash = Flash(header: Header, area: seq<byte>)

  /** The largest length that a C `int` holds, and one more. */
  const INT_LIMIT := 0x8000_0000

  /** A 32-bit length field. */
  predicate Sane(f: Flash) { f.header.len < 2 * INT_LIMIT }

  /** What `crc32` is told of a length field, whose argument is a C `int`. */
  function AsInt(len: nat): int { if len < INT_LIMIT then len else len - 2 * INT_LIMIT }

  /** What `read` leaves in the buffer: a short read leaves the rest as `malloc` returned it. */
  function Buffer(area: seq<byte>, len: nat, memory: nat -> byte): (r: seq<byte>)
    ensures |r| == len
  {
    seq(len, i requires 0 <= i < len => if i < |area| then area[i] else memory(i))
  }

  /**
   * The effect of a load: the status and the shadow file after it. With a length field of `INT_LIMIT` or more the
   * checksum is that of nothing, and the file is truncated but the write of a negative length fails.
   */
  function LoadEffect(flash: Option<Flash>, shadow: Option<Text>, memory: nat -> byte): (Status, Option<Text>)
  {
    match flash
    case None => (FlashErr, shadow)
    case Some(f) =>
      if f.header.magic != NVRAM_MAGIC then (MagicErr, shadow)
      else
        var data := if f.header.len < INT_LIMIT then Buffer(f.area, f.header.len, memory) else [];
        if Checksum(data) != f.header.crc then (CrcErr, shadow) else (Success, Some(data))
  }

  /** What a successful load should leave in the shadow file. */
  ghost predicate Delivers(f: Flash, memory: nat -> byte, shadow: Option<Text>)
  {
    shadow == Some(Buffer(f.area, f.header.len, memory))
  }

  lemma EmptyChecksum()
    ensures Checksum([]) == 0
  {
    assert FeedAll(0xFFFFFFFF, ByteBits([])) == 0xFFFFFFFF;
  }

  /**
   * A load reports success without delivering the data exactly when the magic number is right, the length field does
   * not fit an `int` and the checksum field is 0: the shadow file is then empty.
   */
  lemma SilentLoss(f: Flash, shadow: Option<Text>, memory: nat -> byte)
    ensures var e := LoadEffect(Some(f), shadow, memory);
      && (e.0 == Success && !Delivers(f, memory, e.1) <==>
           f.header.magic == NVRAM_MAGIC && f.header.len >= INT_LIMIT && f.header.crc == 0)
      && (f.header.magic == NVRAM_MAGIC && f.header.len >= INT_LIMIT && f.header.crc == 0 ==> e == (Success, Some([])))
  {
    hide Checksum;
    EmptyChecksum();
    assert |Buffer(f.area, f.header.len, memory)| == f.header.len;
  }

  /** Such a flash. */
  lemma SilentLossExample(shadow: Option<Text>, memory: nat -> byte)
    ensures LoadEffect(Some(Flash(Header(NVRAM_MAGIC, 0xFFFF_FFFF, 0), [])), shadow, memory) == (Success, Some([]))
  {
    SilentLoss(Flash(Header(NVRAM_MAGIC, 0xFFFF_FFFF, 0), []), shadow, memory);
  }

  /** The effect of a commit: the status and the flash after it. The size of a file is read as a C `int`. */
  function CommitEffect(shadow: Option<Text>, flash: Option<Flash>, writable: bool): (Status, Option<Flash>)
  {
    if shadow.None? || !(0 < |shadow.value| < INT_LIMIT) then (ShadowErr, flash)
    else if !writable then (FlashErr, flash)
    else
      var data, area := shadow.value, if flash.Some? then flash.value.area else [];
      (Success, Some(Flash(Header(NVRAM_MAGIC, |data|, Checksum(data)), Overwrite(area, data))))
  }

  /** The device after a write at the start of its data area. */
  function Overwrite(area: seq<byte>, data: seq<byte>): seq<byte>
  {
    data + (if |area| > |data| then area[|data|..] else [])
  }

  /** A commit succeeds exactly for a file that is not empty and whose size an `int` holds; a load then restores it. */
  lemma LoadAfterCommit(image: Text, flash: Option<Flash>, shadow: Option<Text>, memory: nat -> byte)
    ensures CommitEffect(Some(image), flash, true).0 == Success <==> 0 < |image| < INT_LIMIT
    ensures 0 < |image| < INT_LIMIT ==>
      LoadEffect(CommitEffect(Some(image), flash, true).1, shadow, memory) == (Success, Some(image))
  {
    hide Checksum;
    if 0 < |image| < INT_LIMIT {
      var area := CommitEffect(Some(image), flash, true).1.value.area;
      assert Buffer(area, |image|, memory) == image;
    }
  }

  /** The same for a commit of whatever there was, with success. */
  lemma CommitThenLoad(image: Option<Text>, flash: Option<Flash>, ok: bool, shadow: Option<Text>, memory: nat -> byte)
    requires CommitEffect(image, flash, ok).0 == Success
    ensures image.Some? && LoadEffect(CommitEffect(image, flash, ok).1, shadow, memory) == (Success, image)
  {
    hide LoadEffect, Checksum;
    LoadAfterCommit(image.value, flash, shadow, memory);
  }

  /**
   * What a commit leaves in the flash: the magic number, the size and the standard's CRC of the file, and the file at
   * the start of a data area that is otherwise as it was.
   */
  lemma CommitWrites(image: Text, area: seq<byte>, header: Header)
    requires 0 < |image| < 0x8000_0000
    ensures var flash := CommitEffect(Some(image), Some(Flash(header, area)), true).1;
      && flash.Some? && flash.value.header.magic == 0x004E4F52 && flash.value.header.len == |image|
      && flash.value.header.crc as int == CrcOf(image)
      && |flash.value.area| == (if |area| > |image| then |area| else |image|)
      && forall i :: 0 <= i < |flash.value.area| ==> flash.value.area[i] == if i < |image| then image[i] else area[i]
  {
    hide Checksum, CrcOf;
    ChecksumIsDivision(image);
  }

  /**
   * A load of a length that fits an `int` succeeds exactly for the right magic number and the standard's CRC of the
   * data; then the shadow file is the data, otherwise it stays, and the status names the first check that failed.
   */
  lemma LoadChecks(f: Flash, shadow: Option<Text>, memory: nat -> byte)
    requires f.header.len < 0x8000_0000 && |f.area| >= f.header.len
    ensures var e := LoadEffect(Some(f), shadow, memory);
      var data := f.area[..f.header.len];
      var same := f.header.crc as int == CrcOf(data);
      && e.0 == (if f.header.magic != 0x004E4F52 then MagicErr else if same then Success else CrcErr)
      && e.1 == if e.0 == Success then Some(data) else shadow
  {
    hide Checksum, CrcOf;
    assert Buffer(f.area, f.header.len, memory) == f.area[..f.header.len];
    SumMatches(f.header.crc, f.area[..f.header.len]);
  }

  lemma SumMatches(c: bv32, data: seq<byte>)
    ensures c == Checksum(data) <==> c as int == CrcOf(data)
  {
    hide Checksum, CrcOf;
    ChecksumIsDivision(data);
    if c as int == CrcOf(data) {
      SameWord(c, Checksum(data));
    }
  }

  lemma SameWord(c: bv32, d: bv32)
    requires c as int == d as int
    ensures c == d
  {
    assert (c as int) as bv32 == (d as int) as bv32;
    assert (c as int) as bv32 == c;
  }

  /** A committed image altered inside four consecutive bytes is rejected, and the shadow file stays as it was. */
  lemma LoadRejects(p: Text, a: Text, b: Text, q: Text, tail: seq<byte>, flash: Option<Flash>, shadow: Option<Text>,
                    memory: nat -> byte)
    requires |a| == |b| <= 4 && a != b && CommitEffect(Some(p + a + q), flash, true).0 == Success
    ensures var committed := CommitEffect(Some(p + a + q), flash, true).1;
      committed.Some? && LoadEffect(Some(committed.value.(area := p + b + q + tail)), shadow, memory)
        == (CrcErr, shadow)
  {
    hide Checksum;
    ChecksumDetects(p, a, b, q);
    assert Buffer(p + b + q + tail, |p + a + q|, memory) == p + b + q;
  }

  class Nvram {
    var shadow: Option<Text>
    var flash: Option<Flash>

    /** `nvram_load_unlock`; `memory` is what `malloc` returns. */
    method Load(memory: nat -> byte) returns (err: Status)
      requires flash.Some? ==> Sane(flash.value)
      modifies this`shadow
      ensures (err, shadow) == LoadEffect(flash, old(shadow), memory)
    {
      hide Checksum;
      if flash.None? {
        return FlashErr;
      }
      var header := flash.value.header;
      if header.magic != NVRAM_MAGIC {
        return MagicErr;
      }
      var data := if header.len < INT_LIMIT then Buffer(flash.value.area, header.len, memory) else [];
      var length := AsInt(header.len);
      var crc := Crc32(data, length);
      assert data[..if length > 0 then length else 0] == data;
      if crc != header.crc {
        return CrcErr;
      }
      shadow := Some([]);
      if length >= 0 {
        shadow := Some(data);
      }
      return Success;
    }

    /** `nvram_commit_unlock`, without the read-back; `writable` says whether the flash can be opened. */
    method Commit(writable: bool) returns (err: Status)
      modifies this`flash
      ensures (err, flash) == CommitEffect(shadow, old(flash), writable)
    {
      hide Checksum;
      if shadow.None? || |shadow.value| <= 0 || |shadow.value| >= INT_LIMIT {
        return ShadowErr;
      }
      var data := shadow.value;
      var crc := Crc32(data, |data|);
      assert data[..|data|] == data;
      if !writable {
        return FlashErr;
      }
      var area := if flash.Some? then flash.value.area else [];
      flash := Some(Flash(Header(NVRAM_MAGIC, |data|, crc), Overwrite(area, data)));
      return Success;
    }
  }
}
