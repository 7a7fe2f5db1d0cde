# Boardwalk dissector — a Dafny model

The Boardwalk encapsulation (also called the MDS Port Analyzer Adapter format) wraps a
captured Fibre Channel frame. The frame is preceded by a 2-byte header and followed by
a 4-byte trailer:

- The header holds the SOF delimiter code in the top nibble of byte 0.
- It holds the VSAN in the low 12 bits of the big-endian word at offset 0.
- The trailer is anchored to the end of the buffer: a big-endian 16-bit packet count
  at L-4, an error byte at L-2 and the EOF delimiter code at L-1.

The dissector adds these fields to the protocol tree and formats the error byte as a
comma-separated description in a 512-character buffer. It keeps a drop detector across
frames in the file-level variables `packet_count` and `first_pkt`. It then hands bytes
[2, L) to the Fibre Channel decoder.

The model has four modules:

- `Wrappers` (`wrappers.dfy`): the `Option` datatype.
- `BrdwlkFields` (`brdwlk_fields.dfy`): the header and trailer fields, the SOF/EOF
  `value_string` tables and the hand-off range. All of it is pure functions of the bytes.
- `BrdwlkErrStr` (`brdwlk_errstr.dfy`):
  - `brdwlk_err_to_str` as a method that clears a caller-owned `CharBuffer` (an
    `array<char>` holding a NUL-terminated string) and appends fragments with a
    modelled `strcat`;
  - the pure function `ErrToStr` that method is proved against;
  - a table-driven reference `Selected`, with lemmas connecting the two.
- `Brdwlk` (`brdwlk_dissect.dfy`):
  - the drop comparison `DropField` and its behaviour over a run of frames;
  - `DissectTree`, everything one frame adds to the tree;
  - the class `BrdwlkDissector`, whose fields are the two file-level statics and whose
    `Dissect` method is one call of `dissect_brdwlk`.

Where this model's behaviour is easy to misread, it follows the C code as written:

- Every fragment except the last ("Ctrl Char Inside Frame") keeps its trailing ", ",
  and no separator is ever stripped. So whenever 0x80 is clear and some bit of
  0x02-0x40 is set, the description ends with a dangling ", " (`ErrToStrEnding`).
- `first_pkt` is initialised to true and never assigned again. When the count is not
  the unwrapped successor, the hidden "Packet Dropped" field is therefore always added
  with the value false. No drop is ever reported (`SessionNeverReportsDrop`).
  `SessionReportsGaps` states what would happen if the flag were cleared.
- `packet_count + 1` is computed in C `int`, so 0xFFFF + 1 is 0x10000. That value never
  equals a 16-bit count, so the wrap always adds the field. Because `first_pkt` is always
  set, the `first_pkt ||` operand already makes that value false, and the explicit
  `!pkt_cnt && packet_count == 0xFFFF` test never decides anything (`DropWhileFirstPkt`).
  It would matter only if `first_pkt` were cleared, the case `DropIsGap` and
  `SessionReportsGaps` describe.
- A frame whose count is the successor of the previous one adds no drop field at all,
  rather than a false one. On a fresh capture, a frame with count 1 gives `drop == None`
  (`DissectTreeExample`).
- The hand-off calls the Fibre Channel decoder only when its handle exists. There is no
  fallback to the generic data decoder, although `data_handle` is looked up.
- The error text is printed with `%s`, so one call to `BrdwlkErrToStr` fully determines
  it. `FormatError` models that call with a fresh 512-character buffer, followed by the
  read up to the terminator.

## Model

| member | source | states |
|---|---|---|
| BrdwlkFields.GetNtohs | packet-brdwlk.c:201 | the big-endian word at `offset`: its high octet is byte `offset` and its low octet byte `offset+1` |
| BrdwlkFields.Sof | packet-brdwlk.c:194 | the SOF field (registered with mask 0xF0 at line 251) is the top nibble of byte 0: byte 0 lies in [16*sof, 16*sof+16) |
| BrdwlkFields.Vsan | packet-brdwlk.c:195 | the VSAN field (the word at 0, registered with mask 0xFFF at line 265) is the low nibble of byte 0 followed by byte 1 |
| BrdwlkFields.ReadHeader | packet-brdwlk.c:194-195 | the SOF and VSAN items together: SOF*0x1000 + VSAN is the whole leading word, so the two masks split it without loss |
| BrdwlkFields.HeaderDeterminesBytes | packet-brdwlk.c:194-195 | frames with equal SOF and VSAN have equal first two bytes |
| BrdwlkFields.HeaderFrontAnchored | packet-brdwlk.c:194-195 | the header depends on bytes 0 and 1 only; appending bytes never changes it |
| BrdwlkFields.TrailerOffset | packet-brdwlk.c:197-198 | the trailer offset plus 4 is the reported length |
| BrdwlkFields.ReadTrailer | packet-brdwlk.c:198-227 | the packet count is the big-endian word at L-4, the error byte is at L-2, the EOF byte at L-1 |
| BrdwlkFields.TrailerEndAnchored | packet-brdwlk.c:197-198 | the trailer depends on the last four bytes only, whatever prefix precedes them |
| BrdwlkFields.TrailerDeterminesBytes | packet-brdwlk.c:198-215 | frames with equal trailer fields have equal last four bytes |
| BrdwlkFields.MatchStrval | packet-brdwlk.c:83-100 | a table lookup gives no name iff no entry has the value, and otherwise the name of the first entry that has it |
| BrdwlkFields.SofName | packet-brdwlk.c:60-92 | the SOF item's `VALS(brdwlk_sof_vals)` name (registered at line 250): a code has one iff it is one of 0x02-0x08, each with its table name; SOFc1 and the class-4 codes have none |
| BrdwlkFields.EofName | packet-brdwlk.c:72-100 | the EOF item's `VALS(brdwlk_eof_vals)` name (registered at line 253): a byte has one iff it is 1-4 (EOFt, EOFdt, EOFn, EOFa); the other defined EOF codes have none |
| BrdwlkFields.NextTvb | packet-brdwlk.c:230 | the sub-buffer is bytes [2, L): its length is L-2, byte i is outer byte i+2, and the header followed by it is the whole buffer |
| BrdwlkFields.NextTvbKeepsTrailer | packet-brdwlk.c:230-232 | the inner decoder's buffer ends with the same four trailer bytes |
| BrdwlkErrStr.ErrToStr | packet-brdwlk.c:134-160 | the description built by the seven guarded `strcat`s, in test order; it never exceeds 94 characters (its partners are `ErrToStrIsTableDriven` and the lemmas below) |
| BrdwlkErrStr.FragmentsAreCStrings | packet-brdwlk.c:134-160 | no fragment contains a NUL, so each `strcat` appends it whole |
| BrdwlkErrStr.ErrToStrIsTableDriven | packet-brdwlk.c:134-160 | the description is the concatenation of the fragments of the set bits, taken from the seven-entry table in test order |
| BrdwlkErrStr.SelectedExactly | packet-brdwlk.c:134-160 | in a table with distinct fragments, an entry's fragment is selected iff its bit is set |
| BrdwlkErrStr.SelectedInOrder | packet-brdwlk.c:134-160 | selection respects table order: the fragments of a table split at any point are those of the front followed by those of the back |
| BrdwlkErrStr.SelectedLength | packet-brdwlk.c:134-160 | the selected fragments never total more than the whole table, and with every bit set they total exactly that |
| BrdwlkErrStr.ErrFragmentPresent | packet-brdwlk.c:134-160 | each of the seven fragments is present iff its bit (0x02…0x80) is set in the error byte |
| BrdwlkErrStr.ErrLowBitIgnored | packet-brdwlk.c:134-160 | bit 0x01 is never tested: clearing or setting it leaves the description unchanged |
| BrdwlkErrStr.SameTestedBits | packet-brdwlk.c:134-160 | two error bytes that agree on bits 0x02…0x80 have the same description |
| BrdwlkErrStr.ErrToStrBound | packet-brdwlk.c:134-179 | the description is at most 94 characters (0xFF reaches 94), so with its NUL it fits the 512-character `errstr` |
| BrdwlkErrStr.ErrToStrEnding | packet-brdwlk.c:134-160 | the description is empty iff no tested bit is set; without 0x80 it ends with ", "; with 0x80 it ends with "Ctrl Char Inside Frame" |
| BrdwlkErrStr.ErrToStrExamples | packet-brdwlk.c:134-160 | 0x00 and 0x01 give "", 0x02 gives "Empty Frame, ", 0x10 gives "Bad FC CRC, ", 0x12 gives "Empty Frame, Bad FC CRC, ", 0x80 gives "Ctrl Char Inside Frame" |
| BrdwlkErrStr.ErrToStrAllBits | packet-brdwlk.c:134-160 | with every bit set, all seven fragments appear in the order the bits are tested |
| BrdwlkErrStr.CharBuffer.constructor | packet-brdwlk.c:179 | `gchar errstr[512]`: a fresh character array of the requested size |
| BrdwlkErrStr.CharBuffer.Clear | packet-brdwlk.c:132 | writing NUL at 0 leaves an empty NUL-terminated string |
| BrdwlkErrStr.CharBuffer.Strcat | packet-brdwlk.c:135 | `strcat` leaves a NUL-terminated string whose contents are the old contents followed by the appended text |
| BrdwlkErrStr.CharBuffer.StrcatIfSet | packet-brdwlk.c:134-136 | one guarded append: the contents grow by the fragment iff its bit is set |
| BrdwlkErrStr.CharBuffer.ReadString | packet-brdwlk.c:216-218 | reading up to the terminator gives exactly the buffer's string |
| BrdwlkErrStr.BrdwlkErrToStr | packet-brdwlk.c:128-164 | returns its argument; a non-null buffer with room for the text and its NUL then holds the NUL-terminated description `ErrToStr(error)`; a null buffer is left alone |
| BrdwlkErrStr.FormatError | packet-brdwlk.c:179-218 | the text printed for the error item is `ErrToStr(error)` |
| Brdwlk.DropField | packet-brdwlk.c:202-212 | the hidden drop field: added iff the count is not `packet_count + 1` computed without wrap; while `first_pkt` is set it is never true |
| Brdwlk.DropConsecutive | packet-brdwlk.c:202 | a count one more than the previous (below 0xFFFF) adds no drop field |
| Brdwlk.DropWrap | packet-brdwlk.c:202-207 | the wrap from 0xFFFF (`BRDWLK_MAX_PACKET_CNT`) to 0 adds the field with value false |
| Brdwlk.DropWhileFirstPkt | packet-brdwlk.c:202-212 | while `first_pkt` is set the value is false when the count is not the unwrapped successor and absent otherwise; the wrap test never changes the outcome |
| Brdwlk.DropSkipWhileFirstPkt | packet-brdwlk.c:202-207 | with `first_pkt` set, as it always is, a skipped count adds the field with the value false |
| Brdwlk.DropSkip | packet-brdwlk.c:202-211 | with `first_pkt` clear (which the source never does), skipping a count reports a drop |
| Brdwlk.DropFieldAdded | packet-brdwlk.c:202-212 | the field is added iff the count is not the unwrapped successor, so always after 0xFFFF |
| Brdwlk.DropIsGap | packet-brdwlk.c:202-211 | with `first_pkt` clear, a drop is reported iff the count is not the 16-bit successor (with wrap) of the previous one |
| Brdwlk.SessionDrops | packet-brdwlk.c:202-213 | the drop fields of a run of frames, one per frame, each compared with the count recorded at line 213 by the frame before (`SessionComparesNeighbours`) |
| Brdwlk.SessionDropsAppend | packet-brdwlk.c:202-213 | a run extended by one frame gets one more field, compared with the count the run left behind. That consecutive `Dissect` calls give `SessionDrops` follows from this and `Dissect`'s ensures by induction over the calls; that induction is argued, not proved as a member |
| Brdwlk.SessionComparesNeighbours | packet-brdwlk.c:202-213 | over a run of frames, each frame's count is compared with the count of the frame before it |
| Brdwlk.SessionNeverReportsDrop | packet-brdwlk.c:202-213 | since `first_pkt` is never cleared, no frame of any run reports a drop |
| Brdwlk.SessionReportsGaps | packet-brdwlk.c:202-213 | were `first_pkt` clear, a run would report a drop exactly at each frame that breaks the 16-bit succession |
| Brdwlk.DissectTree | packet-brdwlk.c:188-228 | the tree items of one frame: SOF and VSAN rebuild the leading word, the count, error and EOF are the trailer bytes, the drop field is `DropField` of the count and the tracker state (so added iff the count is not the unwrapped successor, never true while `first_pkt` is set), the error text is `ErrToStr` of the error byte, and the SOF and EOF names are `SofName` and `EofName` of the codes |
| Brdwlk.DissectTreeIgnoresPayload | packet-brdwlk.c:188-228 | the tree depends on the first two bytes, the last four and the tracker state only, never on the payload between |
| Brdwlk.ExampleHeader | packet-brdwlk.c:194-195 | header 0x01 0x00 gives SOF 0 and VSAN 0x100 |
| Brdwlk.ExampleTrailer | packet-brdwlk.c:198-226 | trailer 0x00 0x01 0x10 0x03 gives count 1, error 0x10, EOF 3 |
| Brdwlk.DissectTreeExample | packet-brdwlk.c:188-228 | a frame with count 1 at the start of a capture, with any payload, gives SOF 0 (no name), VSAN 0x100, no drop field, error text "Bad FC CRC, ", EOF 3 ("EOFn") |
| Brdwlk.BrdwlkDissector.constructor | packet-brdwlk.c:122-123 | the capture starts with `packet_count` 0 and `first_pkt` set |
| Brdwlk.BrdwlkDissector.Dissect | packet-brdwlk.c:167-234 | with a tree, it adds the items of `DissectTree` for the state before the frame and records the frame's count, the drop value being `DropField` of the new and the old count; without a tree it changes nothing; `first_pkt` is never changed; when the Fibre Channel handle exists, bytes [2, L) are handed off |

## Left out

- Registration (`proto_register_brdwlk`, `proto_reg_handoff_brdwlk`): the field-table and
  ethertype plumbing at packet-brdwlk.c:243-298 is not modelled. Only the masks and tables
  it names are modelled: the masks in `Sof` and `Vsan`, and the tables as `BrdwlkSofVals` and
  `BrdwlkEofVals`, read by `SofName` and `EofName`.
- The Protocol and Info column updates (packet-brdwlk.c:181-186) are display side effects
  with no state the dissector reads back.
- `call_dissector` and the Fibre Channel decoder are not modelled. `Dissect` returns the
  buffer it would pass, or none when the handle is null.
- Brdwlk.BrdwlkDissector.Dissect: the model excludes frames shorter than 4 bytes when a
  tree is built, and shorter than 2 bytes otherwise; it has no exceptions. It does not
  capture what the buffer accessors do with a negative offset (with a tree and a 2- or
  3-byte frame, `tvb_reported_length(tvb) - 4` at line 198 is negative).
- BrdwlkFields.TrailerOffset: the reported length is taken to be the captured length
  `|buf|`. A snaplen-truncated frame, whose trailer lies past the captured bytes and whose
  reads throw before `packet_count` is updated, is not modelled.
- The `#if 0` block (packet-brdwlk.c:219-224) is compiled out and has no effect.
- `data_handle`, `brdwlk_frametype_vals` and `brdwlk_error_vals` are looked up or declared
  but never used, so they are not modelled.
- The tree and its item handles (`proto_item`, `proto_tree`, `ett_brdwlk`) are modelled as
  the value `BrdwlkTree`. The byte ranges each item highlights are not part of it.
- BrdwlkErrStr.CharBuffer.Strcat: the terminator's position is a ghost field tied to the
  array by `Valid`. What the code discovers by its scan is not a model variable.
- BrdwlkErrStr.ErrFragmentPresent: fragment presence is stated over the list of selected
  fragments, not as substring absence in the joined text. ("No Data, " occurs nowhere
  else, but a general substring statement is not proved.)
- BrdwlkErrStr.BrdwlkErrToStr requires a buffer with room for the text and its NUL. The
  source states no size: a smaller buffer overflows in `strcat`. Its only caller passes
  512, and `ErrToStrBound` shows 95 characters always suffice.
