/** A reader for one member of a gzip file, written from section 2.3 of RFC 1952 alone. */
module MemberReader {
  import opened Bits
  import opened CanonicalCode
  import opened Inflate
  import opened CrcDivision

  /** What a member without optional fields says. */
  datatype Member = Member(mtime: nat, xfl: byte, os: byte, text: seq<byte>)

  const ID1: byte := 31
  const ID2: byte := 139
  const DEFLATE: byte := 8

  /** Numbers of several bytes have the least significant one first (section 2.1). */
  function Number(b: seq<byte>): nat
  {
    if b == [] then 0 else b[0] + 256 * Number(b[1..])
  }

  lemma FourBytes(b: seq<byte>)
    requires |b| == 4
    ensures Number(b) as int == (b[0] as int) + 256 * (b[1] as int) + 65536 * (b[2] as int) + 16777216 * (b[3] as int)
  {
    hide Number;
    assert b[1..][1..] == b[2..] && b[2..][1..] == b[3..] && b[3..][1..] == [];
    NumberStep(b);
    NumberStep(b[1..]);
    NumberStep(b[2..]);
    NumberStep(b[3..]);
  }

  lemma NumberStep(b: seq<byte>)
    requires b != []
    ensures Number(b) == b[0] + 256 * Number(b[1..]) && Number([]) == 0
  {
  }

  /**
   * The member at the start of a file, and what is behind it. The compressed data ends inside a byte; the CRC and the
   * length of the text modulo 2^32 start at the next one.
   */
  function ReadMember(file: seq<byte>): Option<(Member, seq<byte>)>
  {
    if |file| < 10 || file[0] != ID1 || file[1] != ID2 || file[2] != DEFLATE || file[3] != 0 then None
    else
      match InflateStream(ByteBits(file[10..]))
      case None => None
      case Some((text, rest)) =>
        var n := |rest| / 8;
        if n < 8 || n > |file| - 10 then None
        else
          var tail := file[|file| - n..];
          if Number(tail[..4]) != CrcOf(text) || Number(tail[4..8]) != |text| % 0x1_0000_0000 then None
          else Some((Member(Number(file[4..8]), file[8], file[9], text), tail[8..]))
  }
}
