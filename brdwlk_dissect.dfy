/** The Boardwalk dissector: the fields of one captured frame, the drop tracker kept
    across frames in the file-level `packet_count` and `first_pkt`, and the hand-off of
    bytes [2, L) to the Fibre Channel decoder.

    `DropField` is the comparison made for each frame; `DissectTree` is everything the
    dissector adds to the protocol tree; `BrdwlkDissector.Dissect` is one call of the
    dissector, proved against both. */
module Brdwlk {
  import opened Wrappers
  import opened BrdwlkFields
  import opened BrdwlkErrStr

  /** `BRDWLK_MAX_PACKET_CNT`: the last value of the 16-bit packet counter. */
  const BrdwlkMaxPacketCnt: uint16 := 0xFFFF

  // ---------------------------------------------------------------- drop tracking

  /** The hidden "Packet Dropped" field for a frame with count `pktCnt` after a frame with
      count `packetCount`: not added when `pktCnt` equals `packetCount + 1`, computed
      without 16-bit wrap-around (the way C promotes to `int`); otherwise added, false while
      `first_pkt` is set (always, in this dissector) or on the 0xFFFF to 0 wrap, true
      otherwise.  So while `first_pkt` is set no drop is ever reported, whatever the counts. */
  function DropField(pktCnt: uint16, packetCount: uint16, firstPkt: bool): (r: Option<bool>)
    ensures r.Some? <==> pktCnt != packetCount + 1
    ensures firstPkt ==> r != Some(true)
  {
    if pktCnt != packetCount + 1 then
      if firstPkt || (pktCnt == 0 && packetCount == BrdwlkMaxPacketCnt) then Some(false)
      else Some(true)
    else None
  }

  /** The unwrapped successor of a count below 0xFFFF adds no drop field. */
  lemma DropConsecutive(n: uint16, firstPkt: bool)
    requires n < BrdwlkMaxPacketCnt
    ensures DropField(n + 1, n, firstPkt) == None
  {
  }

  /** The wrap from 0xFFFF to 0 adds the field, always with the value false.  Since
      0xFFFF + 1 is 0x10000 and never a 16-bit count, the field is added.  Were `first_pkt`
      cleared, the explicit wrap test is what would keep it false; while it is set, as it
      always is here, that test decides nothing (see `DropWhileFirstPkt`). */
  lemma DropWrap(firstPkt: bool)
    ensures DropField(0, BrdwlkMaxPacketCnt, firstPkt) == Some(false)
  {
  }

  /** While `first_pkt` is set, which in this dissector is always, the value is fixed by the
      `!=` test alone: false when the count is not the unwrapped successor, no field
      otherwise.  The wrap test never changes the outcome. */
  lemma DropWhileFirstPkt(pktCnt: uint16, packetCount: uint16)
    ensures DropField(pktCnt, packetCount, true) ==
            if pktCnt != packetCount + 1 then Some(false) else None
  {
  }

  /** As the dissector runs, with `first_pkt` set, a skipped count adds the field with the
      value false: it is never reported as a drop. */
  lemma DropSkipWhileFirstPkt(n: uint16)
    requires n + 2 <= BrdwlkMaxPacketCnt
    ensures DropField(n + 2, n, true) == Some(false)
  {
  }

  /** With `first_pkt` clear (which this dissector never does), skipping a count is
      reported as a drop. */
  lemma DropSkip(n: uint16)
    requires n + 2 <= BrdwlkMaxPacketCnt
    ensures DropField(n + 2, n, false) == Some(true)
  {
  }

  /** The field is added exactly when the frame is not the unwrapped successor: so after
      0xFFFF it is always added. */
  lemma DropFieldAdded(pktCnt: uint16, packetCount: uint16, firstPkt: bool)
    ensures DropField(pktCnt, packetCount, firstPkt).Some? <==>
              !(packetCount < BrdwlkMaxPacketCnt && pktCnt == packetCount + 1)
  {
  }

  /** With `first_pkt` clear, a drop is reported exactly when the frame's count is not the
      16-bit successor (with wrap-around) of the previous frame's. */
  lemma DropIsGap(pktCnt: uint16, packetCount: uint16)
    ensures DropField(pktCnt, packetCount, false) == Some(true) <==>
              pktCnt != (packetCount + 1) % 0x1_0000
  {
  }

  /** The drop fields of a run of frames with the given trailer counts, one per frame,
      with `packet_count` replaced by each frame's count before the next. */
  function SessionDrops(counts: seq<uint16>, packetCount: uint16, firstPkt: bool): (r: seq<Option<bool>>)
    ensures |r| == |counts|
  {
    if counts == [] then []
    else [DropField(counts[0], packetCount, firstPkt)] + SessionDrops(counts[1..], counts[0], firstPkt)
  }

  /** The count the tracker holds when frame `i` of a run is compared. */
  function PreviousCount(counts: seq<uint16>, packetCount: uint16, i: nat): (c: uint16)
    requires i < |counts|
    ensures c == packetCount || c in counts[..i]
  {
    if i == 0 then packetCount else counts[i - 1]
  }

  /** The count the tracker holds after a run of frames: the last frame's, or the count
      held before the run when it is empty. */
  function LastCount(counts: seq<uint16>, packetCount: uint16): (c: uint16)
    ensures c == packetCount || c in counts
  {
    if counts == [] then packetCount else counts[|counts| - 1]
  }

  /** A run extended by one frame: the new frame is compared with the count the run left
      behind.  This is how consecutive calls of `BrdwlkDissector.Dissect` compose, since
      each one compares with and then records `packet_count`. */
  lemma {:induction false} SessionDropsAppend(counts: seq<uint16>, c: uint16, packetCount: uint16, firstPkt: bool)
    ensures SessionDrops(counts + [c], packetCount, firstPkt) ==
            SessionDrops(counts, packetCount, firstPkt) + [DropField(c, LastCount(counts, packetCount), firstPkt)]
  {
    if counts == [] {
      assert counts + [c] == [c];
      assert [c][1..] == [];
    } else {
      var whole := counts + [c];
      assert whole[0] == counts[0];
      assert whole[1..] == counts[1..] + [c];
      SessionDropsAppend(counts[1..], c, counts[0], firstPkt);
      assert LastCount(counts[1..], counts[0]) == LastCount(counts, packetCount);
      AppendAssoc<Option<bool>>([DropField(counts[0], packetCount, firstPkt)],
                        SessionDrops(counts[1..], counts[0], firstPkt),
                        [DropField(c, LastCount(counts, packetCount), firstPkt)]);
    }
  }

  /** Every frame of a run is compared with the frame just before it (the first with the
      count held before the run). */
  lemma {:induction false} SessionComparesNeighbours(counts: seq<uint16>, packetCount: uint16, firstPkt: bool, i: nat)
    requires i < |counts|
    ensures SessionDrops(counts, packetCount, firstPkt)[i] ==
              DropField(counts[i], PreviousCount(counts, packetCount, i), firstPkt)
  {
    if i > 0 {
      SessionComparesNeighbours(counts[1..], counts[0], firstPkt, i - 1);
      assert counts[1..][i - 1] == counts[i];
      if i > 1 {
        assert counts[1..][i - 2] == counts[i - 1];
      }
    }
  }

  /** `first_pkt` is never cleared, so in any run of frames no drop is ever reported. */
  lemma {:induction false} SessionNeverReportsDrop(counts: seq<uint16>, packetCount: uint16, i: nat)
    requires i < |counts|
    ensures SessionDrops(counts, packetCount, true)[i] != Some(true)
  {
    SessionComparesNeighbours(counts, packetCount, true, i);
  }

  /** Were `first_pkt` false, a run would report a drop exactly at each frame whose count
      is not the 16-bit successor of the previous frame's. */
  lemma SessionReportsGaps(counts: seq<uint16>, packetCount: uint16, i: nat)
    requires i < |counts|
    ensures SessionDrops(counts, packetCount, false)[i] == Some(true) <==>
              counts[i] != (PreviousCount(counts, packetCount, i) + 1) % 0x1_0000
  {
    SessionComparesNeighbours(counts, packetCount, false, i);
    DropIsGap(counts[i], PreviousCount(counts, packetCount, i));
  }

  // ---------------------------------------------------------------- one frame

  /** What the dissector adds to the protocol tree for one frame: the header fields with
      the SOF name, the packet count, the hidden drop field (if added), the error byte
      with its description, and the EOF code with its name. */
  datatype BrdwlkTree = BrdwlkTree(
    sof: nibble, sofName: Option<string>,
    vsan: uint12,
    pktCnt: uint16,
    drop: Option<bool>,
    error: byte, errorText: string,
    eof: byte, eofName: Option<string>)

  /** The tree items for frame `buf`, given the tracker's state before the frame. */
  function DissectTree(buf: seq<byte>, packetCount: uint16, firstPkt: bool): (r: BrdwlkTree)
    requires |buf| >= TrailerLength
    ensures r.sof * 0x1000 + r.vsan == GetNtohs(buf, 0)
    ensures r.pktCnt == GetNtohs(buf, |buf| - 4) && r.error == buf[|buf| - 2] && r.eof == buf[|buf| - 1]
    ensures r.drop.Some? <==> r.pktCnt != packetCount + 1
    ensures firstPkt ==> r.drop != Some(true)
    ensures r.errorText == ErrToStr(r.error) && |r.errorText| <= MaxErrStrLength
    ensures r.sofName == SofName(r.sof) && r.eofName == EofName(r.eof)
    ensures r.drop == DropField(r.pktCnt, packetCount, firstPkt)
  {
    var h := ReadHeader(buf);
    var t := ReadTrailer(buf);
    BrdwlkTree(h.sof, SofName(h.sof), h.vsan, t.pktCnt, DropField(t.pktCnt, packetCount, firstPkt),
               t.error, ErrToStr(t.error), t.eof, EofName(t.eof))
  }

  /** The tree depends on the first two bytes, the last four and the tracker state only,
      never on the encapsulated frame in between. */
  lemma DissectTreeIgnoresPayload(header: seq<byte>, a: seq<byte>, b: seq<byte>, trailer: seq<byte>,
                                  packetCount: uint16, firstPkt: bool)
    requires |header| == HeaderLength && |trailer| == TrailerLength
    ensures DissectTree(header + a + trailer, packetCount, firstPkt) ==
            DissectTree(header + b + trailer, packetCount, firstPkt)
  {
    HeaderFrontAnchored(header, a + trailer);
    HeaderFrontAnchored(header, b + trailer);
    assert header + a + trailer == header + (a + trailer);
    assert header + b + trailer == header + (b + trailer);
    TrailerEndAnchored(header + a, trailer);
    TrailerEndAnchored(header + b, trailer);
  }

  /** The header 0x01 0x00: SOF code 0, VSAN 0x100. */
  lemma ExampleHeader()
    ensures ReadHeader([0x01, 0x00]) == Header(0, 0x100)
  {
    var header: seq<byte> := [0x01, 0x00];
    assert header[0] as int == 1 && header[1] as int == 0;
  }

  /** The trailer 0x00 0x01 0x10 0x03: count 1, error 0x10, EOF 3. */
  lemma ExampleTrailer()
    ensures ReadTrailer([0x00, 0x01, 0x10, 0x03]) == Trailer(1, 0x10, 0x03)
  {
    var trailer: seq<byte> := [0x00, 0x01, 0x10, 0x03];
    assert trailer[0] as int == 0 && trailer[1] as int == 1;
  }

  /** A frame at the start of a capture, with header 0x01 0x00, any payload, and trailer
      count 1, error 0x10, EOF 3.  Count 1 is the successor of the initial 0, so no drop
      field is added at all, and the error text keeps its trailing separator. */
  lemma DissectTreeExample(payload: seq<byte>)
    ensures var buf := [0x01, 0x00] + payload + [0x00, 0x01, 0x10, 0x03];
            DissectTree(buf, 0, true) == BrdwlkTree(0, None, 0x100, 1, None, 0x10, "Bad FC CRC, ", 3, Some("EOFn"))
  {
    var header: seq<byte> := [0x01, 0x00];
    var trailer: seq<byte> := [0x00, 0x01, 0x10, 0x03];
    var buf := header + payload + trailer;
    assert buf == header + (payload + trailer);
    HeaderFrontAnchored(header, payload + trailer);
    ExampleHeader();
    TrailerEndAnchored(header + payload, trailer);
    ExampleTrailer();
    ErrToStrExamples();
  }

  // ---------------------------------------------------------------- the dissector

  /** The dissector's file-level state. */
  class BrdwlkDissector {
    /** `packet_count`: the count of the last frame dissected with a tree. */
    var packetCount: uint16
    /** `first_pkt`: set at the start of the capture and never written again. */
    var firstPkt: bool

    constructor ()
      ensures packetCount == 0 && firstPkt
    {
      packetCount := 0;
      firstPkt := true;
    }

    /** `dissect_brdwlk`: with a tree, adds the items of `DissectTree` for the state before
        the frame and records the frame's count; without one, touches no state.  In both
        cases bytes [2, L) go to the Fibre Channel decoder when its handle exists. */
    method Dissect(buf: seq<byte>, hasTree: bool, hasFcHandle: bool)
      returns (tree: Option<BrdwlkTree>, handedOff: Option<seq<byte>>)
      requires |buf| >= HeaderLength
      requires hasTree ==> |buf| >= TrailerLength
      modifies this
      ensures firstPkt == old(firstPkt)
      ensures hasTree ==> tree == Some(DissectTree(buf, old(packetCount), old(firstPkt)))
      ensures hasTree ==> packetCount == ReadTrailer(buf).pktCnt
      ensures hasTree ==> tree.value.drop == DropField(packetCount, old(packetCount), old(firstPkt))
      ensures !hasTree ==> tree == None && packetCount == old(packetCount)
      ensures handedOff == if hasFcHandle then Some(NextTvb(buf)) else None
    {
      tree := None;
      if hasTree {
        var h := ReadHeader(buf);
        var offset := TrailerOffset(buf);
        var pktCnt := GetNtohs(buf, offset);
        assert ReadTrailer(buf) == Trailer(pktCnt, buf[offset + 2], buf[offset + 3]);
        var drop := DropField(pktCnt, packetCount, firstPkt);
        packetCount := pktCnt;
        var error := buf[offset + 2];
        var text := FormatError(error);
        var eof := buf[offset + 3];
        tree := Some(BrdwlkTree(h.sof, SofName(h.sof), h.vsan, pktCnt, drop,
                                error, text, eof, EofName(eof)));
      }
      var nextTvb := NextTvb(buf);
      handedOff := if hasFcHandle then Some(nextTvb) else None;
    }
  }
}
