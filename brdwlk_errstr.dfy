/** The error formatter of the Boardwalk decoder: the trailer's error byte rendered as
    text by testing bits 0x02 to 0x80 in a fixed order.  Every fragment but the one for
    0x80 keeps its trailing ", ", and bit 0x01 contributes nothing.

    `ErrToStr` is the text as a pure function of the byte; `ErrBits` and `Selected` give
    the same text as a table of (bit, fragment) pairs, on which the presence, order and
    size properties are proved.  `CharBuffer` and `BrdwlkErrToStr` build the text step by
    step with `strcat` into a caller-owned NUL-terminated buffer. */
module BrdwlkErrStr {
  import opened BrdwlkFields

  /** The size of the caller's `errstr` buffer. */
  const ErrStrSize: nat := 512

  /** The longest text the formatter can produce. */
  const MaxErrStrLength: nat := 94

  // ---------------------------------------------------------------- the fragments

  const EmptyFrame: string := "Empty Frame, "
  const NoData: string := "No Data, "
  const Truncated: string := "Truncated, "
  const BadFcCrc: string := "Bad FC CRC, "
  const FifoFull: string := "Fifo Full, "
  const JumboFcFrame: string := "Jumbo FC Frame, "
  const CtrlCharInsideFrame: string := "Ctrl Char Inside Frame"

  /** No fragment contains a NUL, so each can be appended to a C string. */
  lemma FragmentsAreCStrings()
    ensures '\0' !in EmptyFrame
    ensures '\0' !in NoData
    ensures '\0' !in Truncated
    ensures '\0' !in BadFcCrc
    ensures '\0' !in FifoFull
    ensures '\0' !in JumboFcFrame
    ensures '\0' !in CtrlCharInsideFrame
  {
  }

  // ---------------------------------------------------------------- the text

  /** `text` when `error` has a bit of `mask` set, nothing otherwise. */
  function IfSet(error: byte, mask: byte, text: string): (r: string)
    ensures r == text || r == ""
  {
    if error & mask != 0 then text else ""
  }

  /** The description of an error byte, fragment by fragment in the order they are tested.
      Even with every fragment present it stays within `MaxErrStrLength` characters. */
  function ErrToStr(error: byte): (r: string)
    ensures |r| <= MaxErrStrLength
  {
    IfSet(error, 0x02, EmptyFrame) +
    IfSet(error, 0x04, NoData) +
    IfSet(error, 0x08, Truncated) +
    IfSet(error, 0x10, BadFcCrc) +
    IfSet(error, 0x20, FifoFull) +
    IfSet(error, 0x40, JumboFcFrame) +
    IfSet(error, 0x80, CtrlCharInsideFrame)
  }

  // ---------------------------------------------------------------- the table

  /** One tested bit and the fragment it contributes. */
  datatype ErrBit = ErrBit(mask: byte, text: string)

  const ErrBits: seq<ErrBit> := [
    ErrBit(0x02, EmptyFrame),
    ErrBit(0x04, NoData),
    ErrBit(0x08, Truncated),
    ErrBit(0x10, BadFcCrc),
    ErrBit(0x20, FifoFull),
    ErrBit(0x40, JumboFcFrame),
    ErrBit(0x80, CtrlCharInsideFrame)
  ]

  /** The fragments of the table entries whose bit is set in `error`, in table order. */
  function Selected(error: byte, bits: seq<ErrBit>): (r: seq<string>)
    ensures |r| <= |bits|
  {
    if bits == [] then []
    else (if error & bits[0].mask != 0 then [bits[0].text] else []) + Selected(error, bits[1..])
  }

  /** The strings of `ss` joined with no separator. */
  function Concat(ss: seq<string>): (r: string)
    ensures ss == [] ==> r == ""
  {
    if ss == [] then "" else ss[0] + Concat(ss[1..])
  }

  /** The total length of all fragments of a table. */
  function TotalLength(bits: seq<ErrBit>): (n: nat)
    ensures bits != [] ==> n >= |bits[0].text|
  {
    if bits == [] then 0 else |bits[0].text| + TotalLength(bits[1..])
  }

  /** No two entries of a table carry the same fragment. */
  ghost predicate DistinctTexts(bits: seq<ErrBit>)
  {
    forall i, j :: 0 <= i < j < |bits| ==> bits[i].text != bits[j].text
  }

  lemma {:induction false} ConcatAppend(a: seq<string>, b: seq<string>)
    ensures Concat(a + b) == Concat(a) + Concat(b)
  {
    if a == [] {
      assert a + b == b;
    } else {
      assert (a + b)[0] == a[0];
      assert (a + b)[1..] == a[1..] + b;
      ConcatAppend(a[1..], b);
    }
  }

  lemma AppendAssoc<T>(a: seq<T>, b: seq<T>, c: seq<T>)
    ensures (a + b) + c == a + (b + c)
  {
  }

  /** Unfolding one table entry: its fragment, if its bit is set, then the rest. */
  lemma ConcatSelectedCons(error: byte, bits: seq<ErrBit>)
    requires bits != []
    ensures Concat(Selected(error, bits)) ==
              IfSet(error, bits[0].mask, bits[0].text) + Concat(Selected(error, bits[1..]))
  {
    var head := if error & bits[0].mask != 0 then [bits[0].text] else [];
    assert Selected(error, bits) == head + Selected(error, bits[1..]);
    ConcatAppend(head, Selected(error, bits[1..]));
    if head != [] {
      assert head[1..] == [];
    }
  }

  /** The straight-line formatter produces exactly the fragments the table selects,
      concatenated in table order. */
  lemma ErrToStrIsTableDriven(error: byte)
    ensures ErrToStr(error) == Concat(Selected(error, ErrBits))
  {
    var t := ErrBits;
    var f1 := IfSet(error, 0x02, EmptyFrame);
    var f2 := IfSet(error, 0x04, NoData);
    var f3 := IfSet(error, 0x08, Truncated);
    var f4 := IfSet(error, 0x10, BadFcCrc);
    var f5 := IfSet(error, 0x20, FifoFull);
    var f6 := IfSet(error, 0x40, JumboFcFrame);
    var f7 := IfSet(error, 0x80, CtrlCharInsideFrame);
    var t6, t5, t4, t3, t2, t1 := t[6..], t[5..], t[4..], t[3..], t[2..], t[1..];
    assert t6[1..] == [];
    assert t5[1..] == t6;
    assert t4[1..] == t5;
    assert t3[1..] == t4;
    assert t2[1..] == t3;
    assert t1[1..] == t2;
    ConcatSelectedCons(error, t6);
    var c6 := Concat(Selected(error, t6));
    assert c6 == f7;
    ConcatSelectedCons(error, t5);
    var c5 := Concat(Selected(error, t5));
    assert c5 == f6 + c6;
    ConcatSelectedCons(error, t4);
    var c4 := Concat(Selected(error, t4));
    assert c4 == f5 + c5;
    ConcatSelectedCons(error, t3);
    var c3 := Concat(Selected(error, t3));
    assert c3 == f4 + c4;
    ConcatSelectedCons(error, t2);
    var c2 := Concat(Selected(error, t2));
    assert c2 == f3 + c3;
    ConcatSelectedCons(error, t1);
    var c1 := Concat(Selected(error, t1));
    assert c1 == f2 + c2;
    ConcatSelectedCons(error, t);
    var c0 := Concat(Selected(error, t));
    assert c0 == f1 + c1;
    AppendAssoc(f1 + f2 + f3 + f4 + f5, f6, f7);
    AppendAssoc(f1 + f2 + f3 + f4, f5, c5);
    AppendAssoc(f1 + f2 + f3, f4, c4);
    AppendAssoc(f1 + f2, f3, c3);
    AppendAssoc(f1, f2, c2);
  }

  /** The first entry's fragment is selected exactly when its bit is set. */
  lemma SelectedHead(error: byte, bits: seq<ErrBit>)
    requires DistinctTexts(bits)
    requires bits != []
    ensures bits[0].text in Selected(error, bits) <==> error & bits[0].mask != 0
  {
    var head := if error & bits[0].mask != 0 then [bits[0].text] else [];
    var tail := Selected(error, bits[1..]);
    assert Selected(error, bits) == head + tail;
    DistinctHead(bits);
    NotSelected(error, bits[1..], bits[0].text);
    assert bits[0].text in head + tail <==> bits[0].text in head || bits[0].text in tail;
  }

  /** A fragment other than the first entry's is selected exactly when it is selected
      from the rest of the table. */
  lemma SelectedPastHead(error: byte, bits: seq<ErrBit>, s: string)
    requires bits != [] && s != bits[0].text
    ensures s in Selected(error, bits) <==> s in Selected(error, bits[1..])
  {
    var head := if error & bits[0].mask != 0 then [bits[0].text] else [];
    assert Selected(error, bits) == head + Selected(error, bits[1..]);
    assert s !in head;
  }

  /** Each entry's fragment is among the selected ones exactly when its bit is set. */
  lemma {:induction false} SelectedExactly(error: byte, bits: seq<ErrBit>, k: nat)
    requires DistinctTexts(bits)
    requires k < |bits|
    ensures bits[k].text in Selected(error, bits) <==> error & bits[k].mask != 0
  {
    if k == 0 {
      SelectedHead(error, bits);
    } else {
      DistinctTail(bits);
      SelectedExactly(error, bits[1..], k - 1);
      assert bits[1..][k - 1] == bits[k];
      SelectedPastHead(error, bits, bits[k].text);
    }
  }

  lemma DistinctTail(bits: seq<ErrBit>)
    requires bits != [] && DistinctTexts(bits)
    ensures DistinctTexts(bits[1..])
  {
    var rest := bits[1..];
    forall i, j | 0 <= i < j < |rest| ensures rest[i].text != rest[j].text {
      assert rest[i] == bits[i + 1] && rest[j] == bits[j + 1];
    }
  }

  lemma DistinctHead(bits: seq<ErrBit>)
    requires bits != [] && DistinctTexts(bits)
    ensures forall j :: 0 <= j < |bits[1..]| ==> bits[1..][j].text != bits[0].text
  {
    forall j | 0 <= j < |bits[1..]| ensures bits[1..][j].text != bits[0].text {
      assert bits[1..][j] == bits[j + 1];
    }
  }

  /** A fragment that no table entry carries is never selected. */
  lemma {:induction false} NotSelected(error: byte, bits: seq<ErrBit>, s: string)
    requires forall j :: 0 <= j < |bits| ==> bits[j].text != s
    ensures s !in Selected(error, bits)
  {
    if bits != [] {
      var head := if error & bits[0].mask != 0 then [bits[0].text] else [];
      var rest := bits[1..];
      assert Selected(error, bits) == head + Selected(error, rest);
      assert forall j :: 0 <= j < |rest| ==> rest[j] == bits[j + 1];
      NotSelected(error, rest, s);
    }
  }

  /** Table order is kept: the fragments selected from the first `k` entries all come
      before those selected from the rest. */
  lemma {:induction false} SelectedInOrder(error: byte, bits: seq<ErrBit>, k: nat)
    requires k <= |bits|
    ensures Selected(error, bits) == Selected(error, bits[..k]) + Selected(error, bits[k..])
  {
    if k > 0 {
      var rest := bits[1..];
      var head := if error & bits[0].mask != 0 then [bits[0].text] else [];
      assert Selected(error, bits) == head + Selected(error, rest);
      var front := bits[..k];
      assert front[0] == bits[0];
      assert front[1..] == rest[..k - 1];
      assert Selected(error, front) == head + Selected(error, rest[..k - 1]);
      assert bits[k..] == rest[k - 1..];
      SelectedInOrder(error, rest, k - 1);
      AppendAssoc(head, Selected(error, rest[..k - 1]), Selected(error, rest[k - 1..]));
    } else {
      assert bits[..0] == [];
      assert bits[0..] == bits;
    }
  }

  /** The selected fragments together are never longer than the whole table, and exactly
      as long when every bit of the table is set. */
  lemma {:induction false} SelectedLength(error: byte, bits: seq<ErrBit>)
    ensures |Concat(Selected(error, bits))| <= TotalLength(bits)
    ensures (forall i :: 0 <= i < |bits| ==> error & bits[i].mask != 0) ==>
              |Concat(Selected(error, bits))| == TotalLength(bits)
  {
    if bits != [] {
      var head := if error & bits[0].mask != 0 then [bits[0].text] else [];
      assert Selected(error, bits) == head + Selected(error, bits[1..]);
      ConcatAppend(head, Selected(error, bits[1..]));
      assert Concat(head) == if head == [] then "" else bits[0].text;
      SelectedLength(error, bits[1..]);
      assert forall i :: 0 <= i < |bits[1..]| ==> bits[1..][i] == bits[i + 1];
    }
  }

  // ---------------------------------------------------------------- properties

  /** Each of the seven fragments is selected exactly when its bit is set. */
  lemma ErrFragmentPresent(error: byte, k: nat)
    requires k < |ErrBits|
    ensures ErrBits[k].text in Selected(error, ErrBits) <==> error & ErrBits[k].mask != 0
  {
    SelectedExactly(error, ErrBits, k);
  }

  /** Two error bytes that agree on every tested bit have the same text. */
  lemma SameTestedBits(a: byte, b: byte)
    requires a & 0x02 == b & 0x02 && a & 0x04 == b & 0x04 && a & 0x08 == b & 0x08
    requires a & 0x10 == b & 0x10 && a & 0x20 == b & 0x20 && a & 0x40 == b & 0x40
    requires a & 0x80 == b & 0x80
    ensures ErrToStr(a) == ErrToStr(b)
  {
  }

  /** Bit 0x01 is not tested: clearing or setting it never changes the text. */
  lemma ErrLowBitIgnored(error: byte)
    ensures ErrToStr(error) == ErrToStr(error & 0xFE)
    ensures ErrToStr(error) == ErrToStr(error | 0x01)
  {
    var cleared, raised := error & 0xFE, error | 0x01;
    assert cleared & 0x02 == error & 0x02 && raised & 0x02 == error & 0x02;
    assert cleared & 0x04 == error & 0x04 && raised & 0x04 == error & 0x04;
    assert cleared & 0x08 == error & 0x08 && raised & 0x08 == error & 0x08;
    assert cleared & 0x10 == error & 0x10 && raised & 0x10 == error & 0x10;
    assert cleared & 0x20 == error & 0x20 && raised & 0x20 == error & 0x20;
    assert cleared & 0x40 == error & 0x40 && raised & 0x40 == error & 0x40;
    assert cleared & 0x80 == error & 0x80 && raised & 0x80 == error & 0x80;
    SameTestedBits(error, cleared);
    SameTestedBits(error, raised);
  }

  /** The text is at most 94 characters, so with its terminating NUL it always fits in
      the 512-character `errstr`; 0xFF reaches the maximum. */
  lemma ErrToStrBound(error: byte)
    ensures |ErrToStr(error)| <= MaxErrStrLength
    ensures |ErrToStr(0xFF)| == MaxErrStrLength
    ensures MaxErrStrLength + 1 <= ErrStrSize
  {
    ErrToStrIsTableDriven(error);
    ErrToStrIsTableDriven(0xFF);
    SelectedLength(error, ErrBits);
    SelectedLength(0xFF, ErrBits);
  }

  /** The text ends with the ", " separator. */
  ghost predicate EndsWithSeparator(s: string)
  {
    |s| >= 2 && s[|s| - 2..] == ", "
  }

  /** A fragment that ends with a separator, or nothing; nothing exactly when its bit is clear. */
  lemma SeparatedFragment(error: byte, mask: byte, text: string)
    requires EndsWithSeparator(text)
    ensures IfSet(error, mask, text) == "" <==> error & mask == 0
    ensures IfSet(error, mask, text) == "" || EndsWithSeparator(IfSet(error, mask, text))
  {
  }

  lemma AppendSeparated(a: string, b: string)
    requires a == "" || EndsWithSeparator(a)
    requires b == "" || EndsWithSeparator(b)
    ensures a + b == "" <==> a == "" && b == ""
    ensures a + b == "" || EndsWithSeparator(a + b)
  {
    if b == "" {
      assert a + b == a;
    } else {
      assert (a + b)[|a + b| - 2..] == b[|b| - 2..];
    }
  }

  /** The first six fragments together: empty exactly when none of their bits is set,
      and otherwise ending with a separator. */
  lemma SeparatedPrefix(error: byte)
    ensures var p := IfSet(error, 0x02, EmptyFrame) + IfSet(error, 0x04, NoData) +
                     IfSet(error, 0x08, Truncated) + IfSet(error, 0x10, BadFcCrc) +
                     IfSet(error, 0x20, FifoFull) + IfSet(error, 0x40, JumboFcFrame);
            (p == "" <==> error & 0x7E == 0) && (p == "" || EndsWithSeparator(p))
  {
    var f1 := IfSet(error, 0x02, EmptyFrame);
    var f2 := IfSet(error, 0x04, NoData);
    var f3 := IfSet(error, 0x08, Truncated);
    var f4 := IfSet(error, 0x10, BadFcCrc);
    var f5 := IfSet(error, 0x20, FifoFull);
    var f6 := IfSet(error, 0x40, JumboFcFrame);
    SeparatedFragment(error, 0x02, EmptyFrame);
    SeparatedFragment(error, 0x04, NoData);
    SeparatedFragment(error, 0x08, Truncated);
    SeparatedFragment(error, 0x10, BadFcCrc);
    SeparatedFragment(error, 0x20, FifoFull);
    SeparatedFragment(error, 0x40, JumboFcFrame);
    AppendSeparated(f1, f2);
    AppendSeparated(f1 + f2, f3);
    AppendSeparated(f1 + f2 + f3, f4);
    AppendSeparated(f1 + f2 + f3 + f4, f5);
    AppendSeparated(f1 + f2 + f3 + f4 + f5, f6);
    assert error & 0x7E == 0 <==>
      error & 0x02 == 0 && error & 0x04 == 0 && error & 0x08 == 0 &&
      error & 0x10 == 0 && error & 0x20 == 0 && error & 0x40 == 0;
  }

  /** The separator is not a clean join: the text is empty exactly when no tested bit is
      set; otherwise, unless 0x80 is set, it ends with ", "; with 0x80 set it ends with the
      last fragment. */
  lemma ErrToStrEnding(error: byte)
    ensures error & 0xFE == 0 <==> ErrToStr(error) == ""
    ensures error & 0x80 == 0 && error & 0xFE != 0 ==> EndsWithSeparator(ErrToStr(error))
    ensures error & 0x80 != 0 ==>
              |ErrToStr(error)| >= |CtrlCharInsideFrame| &&
              ErrToStr(error)[|ErrToStr(error)| - |CtrlCharInsideFrame|..] == CtrlCharInsideFrame
  {
    SeparatedPrefix(error);
    var p := IfSet(error, 0x02, EmptyFrame) + IfSet(error, 0x04, NoData) +
             IfSet(error, 0x08, Truncated) + IfSet(error, 0x10, BadFcCrc) +
             IfSet(error, 0x20, FifoFull) + IfSet(error, 0x40, JumboFcFrame);
    var f7 := IfSet(error, 0x80, CtrlCharInsideFrame);
    assert ErrToStr(error) == p + f7;
    assert error & 0xFE == 0 <==> error & 0x7E == 0 && error & 0x80 == 0;
    if error & 0x80 == 0 {
      assert f7 == "";
      assert p + f7 == p;
    } else {
      assert f7 == CtrlCharInsideFrame;
      assert (p + f7)[|p + f7| - |f7|..] == f7;
    }
  }

  lemma ErrToStrExamples()
    ensures ErrToStr(0x00) == ""
    ensures ErrToStr(0x01) == ""
    ensures ErrToStr(0x02) == "Empty Frame, "
    ensures ErrToStr(0x10) == "Bad FC CRC, "
    ensures ErrToStr(0x12) == "Empty Frame, Bad FC CRC, "
    ensures ErrToStr(0x80) == "Ctrl Char Inside Frame"
  {
  }

  /** With every bit set, all seven fragments appear, in the order they are tested. */
  lemma ErrToStrAllBits()
    ensures ErrToStr(0xFF) == EmptyFrame + NoData + Truncated + BadFcCrc + FifoFull + JumboFcFrame + CtrlCharInsideFrame
  {
  }

  // ---------------------------------------------------------------- the buffer

  /** A caller-owned C character buffer holding a NUL-terminated string. */
  class CharBuffer {
    const data: array<char>
    /** The position of the terminating NUL (`strlen`). */
    ghost var len: nat

    ghost predicate Valid()
      reads this, data
    {
      len < data.Length && data[len] == '\0' &&
      forall i :: 0 <= i < len ==> data[i] != '\0'
    }

    /** The string the buffer holds. */
    ghost function Contents(): string
      reads this, data
      requires Valid()
    {
      data[..len]
    }

    /** An uninitialised buffer of `size` characters (`gchar errstr[512]`). */
    constructor (size: nat)
      ensures data.Length == size && fresh(data)
    {
      data := new char[size];
      len := 0;
    }

    /** `str[0] = '\0'`: the empty string. */
    method Clear()
      requires data.Length >= 1
      modifies this, data
      ensures Valid() && Contents() == ""
    {
      data[0] := '\0';
      len := 0;
    }

    /** `strcat`: find the terminator, copy `s` over it and terminate again. */
    method Strcat(s: string)
      requires Valid()
      requires '\0' !in s
      requires len + |s| < data.Length
      modifies this, data
      ensures Valid() && Contents() == old(Contents()) + s
    {
      var n := 0;
      while data[n] != '\0'
        invariant 0 <= n <= len
        decreases len - n
      {
        n := n + 1;
      }
      assert n == len;
      var i := 0;
      while i < |s|
        invariant 0 <= i <= |s|
        invariant forall j :: 0 <= j < n ==> data[j] == old(data[j])
        invariant forall j :: 0 <= j < i ==> data[n + j] == s[j]
      {
        data[n + i] := s[i];
        i := i + 1;
      }
      data[n + |s|] := '\0';
      len := n + |s|;
      assert data[..n] == old(data[..n]);
      assert data[n..len] == s;
      assert data[..len] == data[..n] + data[n..len];
    }

    /** `if (error & mask) strcat(str, text)`: one step of the formatter. */
    method StrcatIfSet(error: byte, mask: byte, text: string)
      requires Valid()
      requires '\0' !in text
      requires len + |IfSet(error, mask, text)| < data.Length
      modifies this, data
      ensures Valid() && Contents() == old(Contents()) + IfSet(error, mask, text)
    {
      if error & mask != 0 {
        Strcat(text);
      } else {
        assert Contents() + "" == Contents();
      }
    }

    /** The characters before the terminator, as a `%s` conversion reads them. */
    method ReadString() returns (s: string)
      requires Valid()
      ensures s == Contents()
    {
      s := "";
      var i := 0;
      while data[i] != '\0'
        invariant 0 <= i <= len
        invariant s == data[..i]
        decreases len - i
      {
        s := s + [data[i]];
        i := i + 1;
      }
    }
  }

  /** `brdwlk_err_to_str`: writes the description of `error` into `str` and returns
      `str`; a null buffer is returned untouched. */
  method BrdwlkErrToStr(error: byte, str: CharBuffer?) returns (r: CharBuffer?)
    requires str != null ==> str.data.Length > |ErrToStr(error)|
    modifies if str == null then {} else {str, str.data}
    ensures r == str
    ensures str != null ==> str.Valid() && str.Contents() == ErrToStr(error)
  {
    if str != null {
      FragmentsAreCStrings();
      var f1, f2, f3 := IfSet(error, 0x02, EmptyFrame), IfSet(error, 0x04, NoData), IfSet(error, 0x08, Truncated);
      var f4, f5, f6 := IfSet(error, 0x10, BadFcCrc), IfSet(error, 0x20, FifoFull), IfSet(error, 0x40, JumboFcFrame);
      var f7 := IfSet(error, 0x80, CtrlCharInsideFrame);
      assert |ErrToStr(error)| == |f1| + |f2| + |f3| + |f4| + |f5| + |f6| + |f7|;
      str.Clear();
      str.StrcatIfSet(error, 0x02, EmptyFrame);
      assert str.Contents() == f1;
      str.StrcatIfSet(error, 0x04, NoData);
      assert str.len == |f1| + |f2|;
      str.StrcatIfSet(error, 0x08, Truncated);
      assert str.len == |f1| + |f2| + |f3|;
      str.StrcatIfSet(error, 0x10, BadFcCrc);
      assert str.len == |f1| + |f2| + |f3| + |f4|;
      str.StrcatIfSet(error, 0x20, FifoFull);
      assert str.len == |f1| + |f2| + |f3| + |f4| + |f5|;
      str.StrcatIfSet(error, 0x40, JumboFcFrame);
      assert str.len == |f1| + |f2| + |f3| + |f4| + |f5| + |f6|;
      str.StrcatIfSet(error, 0x80, CtrlCharInsideFrame);
    }
    r := str;
  }

  /** The `%s` argument of the error item: the description formatted into a fresh
      512-character `errstr` and read back up to its terminator. */
  method FormatError(error: byte) returns (text: string)
    ensures text == ErrToStr(error)
  {
    var errstr := new CharBuffer(ErrStrSize);
    var str := BrdwlkErrToStr(error, errstr);
    text := str.ReadString();
  }
}
