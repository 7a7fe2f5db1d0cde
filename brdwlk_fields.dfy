/** Field extraction for the Boardwalk (MDS Port Analyzer Adapter) encapsulation.

    A captured frame is a 2-byte header, the encapsulated Fibre Channel frame, and a
    4-byte trailer anchored to the END of the buffer.  The header holds the SOF code
    (top nibble of byte 0) and the VSAN (low 12 bits of the big-endian word at 0); the
    trailer holds the packet count (big-endian word at L-4), the error byte (L-2) and the
    EOF code (L-1).  Everything here is pure: a function of the bytes alone. */
module BrdwlkFields {
  import opened Wrappers

  /** One octet of the captured frame. */
  type byte = bv8

  type uint16 = x: int | 0 <= x < 0x1_0000

  /** The 4-bit SOF code. */
  type nibble = x: int | 0 <= x < 0x10

  /** The 12-bit VSAN identifier. */
  type uint12 = x: int | 0 <= x < 0x1000

  /** `hdrlen`: the inner frame starts after this many bytes. */
  const HeaderLength: nat := 2

  /** The trailer is the last this-many bytes of the frame. */
  const TrailerLength: nat := 4

  /** Distinct octets have distinct numeric values. */
  lemma ByteValueInjective(x: byte, y: byte)
    requires x as int == y as int
    ensures x == y
  {
  }

  /** The big-endian 16-bit value at `offset` (what `tvb_get_ntohs` reads).  Splitting the
      result into its high and low octets gives back the two bytes it was read from. */
  function GetNtohs(buf: seq<byte>, offset: nat): (r: uint16)
    requires offset + 2 <= |buf|
    ensures r / 256 == buf[offset] as int && r % 256 == buf[offset + 1] as int
  {
    buf[offset] as int * 256 + buf[offset + 1] as int
  }

  // ---------------------------------------------------------------- header

  datatype Header = Header(sof: nibble, vsan: uint12)

  /** The SOF field: byte 0 masked with 0xF0 and shifted down by the mask's 4 zero bits.
      The result is the top nibble: byte 0 lies in [16 * sof, 16 * sof + 16). */
  function Sof(buf: seq<byte>): (r: nibble)
    requires |buf| >= 1
    ensures r * 16 <= buf[0] as int < r * 16 + 16
  {
    ((buf[0] & 0xF0) >> 4) as int
  }

  /** The VSAN field: the big-endian word at offset 0 masked with 0xFFF.  The result is
      the low nibble of byte 0 followed by all of byte 1. */
  function Vsan(buf: seq<byte>): (r: uint12)
    requires |buf| >= 2
    ensures r == (buf[0] as int % 16) * 256 + buf[1] as int
  {
    MaskLow12(buf[0] as int, buf[1] as int);
    GetNtohs(buf, 0) % 0x1000
  }

  /** Masking a big-endian word with 0xFFF drops the top nibble of its high octet. */
  lemma MaskLow12(b0: int, b1: int)
    requires 0 <= b0 < 256 && 0 <= b1 < 256
    ensures (b0 * 256 + b1) % 0x1000 == (b0 % 16) * 256 + b1
  {
    var q, m := b0 / 16, b0 % 16;
    assert b0 * 256 + b1 == q * 0x1000 + (m * 256 + b1);
  }

  /** The two header items.  Their masks, 0xF0 on byte 0 and 0xFFF on the word, partition
      the leading 16 bits: SOF is bits 12-15 of the word and VSAN bits 0-11, nothing is lost. */
  function ReadHeader(buf: seq<byte>): (h: Header)
    requires |buf| >= HeaderLength
    ensures h.sof * 0x1000 + h.vsan == GetNtohs(buf, 0)
  {
    var b0 := buf[0] as int;
    assert Sof(buf) == b0 / 16;
    assert b0 == (b0 / 16) * 16 + b0 % 16;
    Header(Sof(buf), Vsan(buf))
  }

  /** Reading the header loses nothing: two frames with the same SOF code and VSAN
      start with the same two bytes. */
  lemma HeaderDeterminesBytes(a: seq<byte>, b: seq<byte>)
    requires |a| >= HeaderLength && |b| >= HeaderLength
    requires ReadHeader(a) == ReadHeader(b)
    ensures a[..HeaderLength] == b[..HeaderLength]
  {
    assert GetNtohs(a, 0) == GetNtohs(b, 0);
    assert a[0] as int == b[0] as int && a[1] as int == b[1] as int;
    ByteValueInjective(a[0], b[0]);
    ByteValueInjective(a[1], b[1]);
    assert a[..HeaderLength] == [a[0], a[1]];
    assert b[..HeaderLength] == [b[0], b[1]];
  }

  /** The header is anchored to the front: bytes appended after the first two never change it. */
  lemma HeaderFrontAnchored(buf: seq<byte>, suffix: seq<byte>)
    requires |buf| >= HeaderLength
    ensures ReadHeader(buf + suffix) == ReadHeader(buf)
    ensures ReadHeader(buf) == ReadHeader(buf[..HeaderLength])
  {
    assert (buf + suffix)[0] == buf[0] && (buf + suffix)[1] == buf[1];
  }

  // ---------------------------------------------------------------- trailer

  datatype Trailer = Trailer(pktCnt: uint16, error: byte, eof: byte)

  /** `offset = tvb_reported_length(tvb) - 4`: the start of the trailer. */
  function TrailerOffset(buf: seq<byte>): (offset: nat)
    requires |buf| >= TrailerLength
    ensures offset + TrailerLength == |buf|
  {
    |buf| - 4
  }

  /** The trailer fields: the packet count at the trailer offset, the error byte two
      bytes further and the EOF code three bytes further. */
  function ReadTrailer(buf: seq<byte>): (t: Trailer)
    requires |buf| >= TrailerLength
    ensures t.pktCnt == buf[|buf| - 4] as int * 256 + buf[|buf| - 3] as int
    ensures t.error == buf[|buf| - 2] && t.eof == buf[|buf| - 1]
  {
    var offset := TrailerOffset(buf);
    Trailer(GetNtohs(buf, offset), buf[offset + 2], buf[offset + 3])
  }

  /** The trailer is anchored to the end: it depends on the last four bytes only, so any
      inner frame of any length can be put in front of it. */
  lemma TrailerEndAnchored(prefix: seq<byte>, buf: seq<byte>)
    requires |buf| >= TrailerLength
    ensures ReadTrailer(prefix + buf) == ReadTrailer(buf)
    ensures ReadTrailer(buf) == ReadTrailer(buf[|buf| - TrailerLength..])
  {
    var whole := prefix + buf;
    var n := |whole|;
    assert whole[n - 4] == buf[|buf| - 4] && whole[n - 3] == buf[|buf| - 3];
    assert whole[n - 2] == buf[|buf| - 2] && whole[n - 1] == buf[|buf| - 1];
    var tail := buf[|buf| - TrailerLength..];
    assert tail[0] == buf[|buf| - 4] && tail[1] == buf[|buf| - 3];
    assert tail[2] == buf[|buf| - 2] && tail[3] == buf[|buf| - 1];
  }

  /** Reading the trailer loses nothing: two frames with the same trailer fields end
      with the same four bytes. */
  lemma TrailerDeterminesBytes(a: seq<byte>, b: seq<byte>)
    requires |a| >= TrailerLength && |b| >= TrailerLength
    requires ReadTrailer(a) == ReadTrailer(b)
    ensures a[|a| - TrailerLength..] == b[|b| - TrailerLength..]
  {
    var ta, tb := ReadTrailer(a), ReadTrailer(b);
    assert ta.pktCnt / 256 == a[|a| - 4] as int && ta.pktCnt % 256 == a[|a| - 3] as int;
    assert tb.pktCnt / 256 == b[|b| - 4] as int && tb.pktCnt % 256 == b[|b| - 3] as int;
    ByteValueInjective(a[|a| - 4], b[|b| - 4]);
    ByteValueInjective(a[|a| - 3], b[|b| - 3]);
    var sa, sb := a[|a| - TrailerLength..], b[|b| - TrailerLength..];
    assert sa[0] == a[|a| - 4] && sa[1] == a[|a| - 3] && sa[2] == a[|a| - 2] && sa[3] == a[|a| - 1];
    assert sb[0] == b[|b| - 4] && sb[1] == b[|b| - 3] && sb[2] == b[|b| - 2] && sb[3] == b[|b| - 1];
  }

  // ---------------------------------------------------------------- names

  /** One entry of a `value_string` table. */
  datatype ValueString = ValueString(value: int, name: string)

  /** `brdwlk_sof_vals`: names of the start-of-frame delimiter codes that are displayed. */
  const BrdwlkSofVals: seq<ValueString> := [
    ValueString(0x02, "SOFi1"),
    ValueString(0x04, "SOFi2"),
    ValueString(0x06, "SOFi3"),
    ValueString(0x03, "SOFn1"),
    ValueString(0x05, "SOFn2"),
    ValueString(0x07, "SOFn3"),
    ValueString(0x08, "SOFf")
  ]

  /** `brdwlk_eof_vals`: names of the end-of-frame delimiter codes that are displayed. */
  const BrdwlkEofVals: seq<ValueString> := [
    ValueString(0x02, "EOFdt"),
    ValueString(0x04, "EOFa"),
    ValueString(0x03, "EOFn"),
    ValueString(0x01, "EOFt")
  ]

  /** The name of the first entry with value `v`; no name when the table lists none. */
  function MatchStrval(v: int, vs: seq<ValueString>): (r: Option<string>)
    ensures r.None? <==> forall i :: 0 <= i < |vs| ==> vs[i].value != v
    ensures r.Some? ==> exists i :: 0 <= i < |vs| && vs[i] == ValueString(v, r.value) &&
                                    forall j :: 0 <= j < i ==> vs[j].value != v
  {
    if vs == [] then None
    else if vs[0].value == v then Some(vs[0].name)
    else
      var r := MatchStrval(v, vs[1..]);
      assert forall i :: 1 <= i < |vs| ==> vs[i] == vs[1..][i - 1];
      r
  }

  /** The SOF item's displayed name: exactly the seven codes of the start-of-frame table
      have one; SOFc1, SOFc4, SOFi4, SOFn4 and every other code are shown as numbers. */
  function SofName(sof: nibble): (r: Option<string>)
    ensures r.Some? <==> sof in {0x02, 0x03, 0x04, 0x05, 0x06, 0x07, 0x08}
    ensures sof == 0x02 ==> r == Some("SOFi1")
    ensures sof == 0x04 ==> r == Some("SOFi2")
    ensures sof == 0x06 ==> r == Some("SOFi3")
    ensures sof == 0x03 ==> r == Some("SOFn1")
    ensures sof == 0x05 ==> r == Some("SOFn2")
    ensures sof == 0x07 ==> r == Some("SOFn3")
    ensures sof == 0x08 ==> r == Some("SOFf")
  {
    MatchStrval(sof, BrdwlkSofVals)
  }

  /** The EOF item's displayed name: exactly EOFt, EOFdt, EOFn and EOFa have one; EOFni,
      EOFdti, EOFrt, EOFrti, the no-EOF and jumbo markers and every other byte are shown
      as numbers. */
  function EofName(eof: byte): (r: Option<string>)
    ensures r.Some? <==> eof in {0x01, 0x02, 0x03, 0x04}
    ensures eof == 0x01 ==> r == Some("EOFt")
    ensures eof == 0x02 ==> r == Some("EOFdt")
    ensures eof == 0x03 ==> r == Some("EOFn")
    ensures eof == 0x04 ==> r == Some("EOFa")
  {
    MatchStrval(eof as int, BrdwlkEofVals)
  }

  // ---------------------------------------------------------------- hand-off

  /** `tvb_new_subset(tvb, 2, -1, -1)`: everything after the 2-byte header, the trailer
      included; the outer buffer is the header followed by exactly this range. */
  function NextTvb(buf: seq<byte>): (r: seq<byte>)
    requires |buf| >= HeaderLength
    ensures |r| == |buf| - HeaderLength
    ensures forall i :: 0 <= i < |r| ==> r[i] == buf[i + HeaderLength]
    ensures buf == buf[..HeaderLength] + r
  {
    buf[HeaderLength..]
  }

  /** The inner decoder receives the Boardwalk trailer as the last four bytes of its own
      buffer: the hand-off strips the header only. */
  lemma NextTvbKeepsTrailer(buf: seq<byte>)
    requires |buf| >= HeaderLength + TrailerLength
    ensures ReadTrailer(NextTvb(buf)) == ReadTrailer(buf)
  {
    TrailerEndAnchored(buf[..HeaderLength], NextTvb(buf));
  }
}
