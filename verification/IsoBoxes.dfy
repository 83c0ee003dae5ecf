/**
 The boxes of an ISO base media file (section 4.2 of ISO/IEC 14496-12) and the movie duration they hold.
 Offsets are 64-bit signed integers, so adding a declared size may wrap around.
 */
module IsoBoxes {
  import opened Bytes
  import opened Wrappers

  const MAX_INT: nat := 0x7fff_ffff_ffff_ffff

  datatype Box = Box(start: nat, content: nat, end: nat, kind: seq<Byte>)

  /** The 64-bit signed integer of an unsigned one. */
  function Signed(n: nat): int {
    if n <= MAX_INT then n else n - 0x1_0000_0000_0000_0000
  }

  /** The declared size of the box at an offset and the length of its header, unless the header is cut off. */
  function HeadAt(data: seq<Byte>, off: nat): Option<(int, nat)>
    requires off + 8 <= |data|
  {
    var size := FromBigEndian(data[off..off + 4]);
    if size == 1 then
      if off + 16 > |data| then None else Some((Signed(FromBigEndian(data[off + 8..off + 16])), 16))
    else if size == 0 then Some((|data| - off, 8))
    else Some((size, 8))
  }

  /** The walk stops here: no header is left, or it declares a size that is too small or runs past the end. */
  predicate Stops(data: seq<Byte>, off: nat) {
    || off + 8 > |data|
    || HeadAt(data, off).None?
    || var (size, header) := HeadAt(data, off).value;
       size < header || (off + size <= MAX_INT && off + size > |data|)
  }

  /** The declared size wraps the offset around, so the walk goes on at a negative one and fails. */
  predicate Overflows(data: seq<Byte>, off: nat) {
    off + 8 <= |data| && HeadAt(data, off).Some? && off + HeadAt(data, off).value.0 > MAX_INT
  }

  function BoxAt(data: seq<Byte>, off: nat): (box: Box)
    requires |data| <= MAX_INT && !Stops(data, off) && !Overflows(data, off)
    ensures off == box.start < box.content <= box.end <= |data| && box.end >= off + 8
  {
    var (size, header) := HeadAt(data, off).value;
    Box(off, off + header, off + size, data[off + 4..off + 8])
  }

  /** The boxes from an offset on, or none when the walk fails. */
  function Walk(data: seq<Byte>, off: nat): Option<seq<Box>>
    requires |data| <= MAX_INT
    decreases |data| - off
  {
    if Stops(data, off) then Some([])
    else if Overflows(data, off) then None
    else Prepend([BoxAt(data, off)], Walk(data, BoxAt(data, off).end))
  }

  function Prepend(found: seq<Box>, rest: Option<seq<Box>>): (boxes: Option<seq<Box>>)
    ensures found == [] ==> boxes == rest
  {
    if rest.None? then None else assert found == [] ==> found + rest.value == rest.value; Some(found + rest.value)
  }

  lemma PrependOne(found: seq<Box>, box: Box, rest: Option<seq<Box>>)
    ensures Prepend(found, Prepend([box], rest)) == Prepend(found + [box], rest)
  {
    if rest.Some? {
      assert found + ([box] + rest.value) == (found + [box]) + rest.value;
    }
  }

  /** The size and header length a box declares, or none when the header is cut off. */
  method ReadHead(data: seq<Byte>, off: nat) returns (head: Option<(int, nat)>)
    requires off + 8 <= |data|
    ensures head == HeadAt(data, off)
  {
    var size: int := FromBigEndian(data[off..off + 4]);
    var header := 8;
    if size == 1 {
      if off + 16 > |data| {
        return None;
      }
      size := Signed(FromBigEndian(data[off + 8..off + 16]));
      header := 16;
    } else if size == 0 {
      size := |data| - off;
    }
    return Some((size, header));
  }

  /** The source's loop. A slice at a negative offset is a run-time failure. */
  method IsoBoxes(data: seq<Byte>) returns (boxes: Option<seq<Box>>)
    requires |data| <= MAX_INT
    ensures boxes == Walk(data, 0)
  {
    var found := [];
    var off := 0;
    while off + 8 <= |data|
      invariant 0 <= off <= |data|
      invariant Walk(data, 0) == Prepend(found, Walk(data, off))
      decreases |data| - off
    {
      var head := ReadHead(data, off);
      if head.None? {
        break;
      }
      var (size, header) := head.value;
      if size >= header && off + size > MAX_INT {
        return None;
      }
      if size < header || off + size > |data| {
        break;
      }
      PrependOne(found, BoxAt(data, off), Walk(data, off + size));
      found := found + [Box(off, off + header, off + size, data[off + 4..off + 8])];
      off := off + size;
    }
    assert Walk(data, off) == Some([]) && found + [] == found;
    return Some(found);
  }

  // ---- Tiling ----------------------------------------------------------------------------------------

  /** Each box starts where the one before it ends, the first at `from`, and none runs past the end. */
  predicate Tiles(boxes: seq<Box>, from: nat, length: nat) {
    boxes == [] ||
    (boxes[0].start == from && from < boxes[0].content <= boxes[0].end <= length && Tiles(boxes[1..], boxes[0].end, length))
  }

  lemma {:induction false} WalkTiles(data: seq<Byte>, off: nat)
    requires |data| <= MAX_INT && Walk(data, off).Some?
    ensures Tiles(Walk(data, off).value, off, |data|)
    decreases |data| - off
  {
    if !Stops(data, off) {
      WalkTiles(data, BoxAt(data, off).end);
      assert Walk(data, off).value[1..] == Walk(data, BoxAt(data, off).end).value;
    }
  }

  /** The walk from one offset comes past another. */
  predicate Passes(data: seq<Byte>, off: nat, at: nat)
    requires |data| <= MAX_INT
    decreases |data| - off
  {
    off == at || (!Stops(data, off) && !Overflows(data, off) && Passes(data, BoxAt(data, off).end, at))
  }

  /** The walk fails exactly when it comes to a header whose declared size wraps the offset around. */
  lemma {:induction false} FailsAtOverflow(data: seq<Byte>, off: nat)
    requires |data| <= MAX_INT
    ensures Walk(data, off).None? <==> exists at :: Passes(data, off, at) && !Stops(data, at) && Overflows(data, at)
    decreases |data| - off
  {
    if !Stops(data, off) {
      if Overflows(data, off) {
        assert Passes(data, off, off);
      } else {
        var end := BoxAt(data, off).end;
        FailsAtOverflow(data, end);
        forall at ensures Passes(data, off, at) <==> at == off || Passes(data, end, at) {
        }
      }
    }
  }

  /** A 64-bit size of at least 2^62 that is not negative as a signed integer. */
  predicate DeclaresHuge(data: seq<Byte>, off: nat) {
    && off + 16 <= |data| && FromBigEndian(data[off..off + 4]) == 1
    && 0x4000_0000_0000_0000 <= FromBigEndian(data[off + 8..off + 16]) <= MAX_INT
  }

  lemma OverflowIsHuge(data: seq<Byte>, off: nat)
    requires |data| < 0x4000_0000_0000_0000 && Overflows(data, off)
    ensures DeclaresHuge(data, off)
  {
    Limits();
    assert FromBigEndian(data[off..off + 4]) < Limit(4);
  }

  /** On data that declares no such size the walk never fails. */
  lemma SmallSizesNeverFail(data: seq<Byte>)
    requires |data| < 0x4000_0000_0000_0000 && forall off: nat :: !DeclaresHuge(data, off)
    ensures Walk(data, 0).Some?
  {
    FailsAtOverflow(data, 0);
    if Walk(data, 0).None? {
      var at :| Passes(data, 0, at) && !Stops(data, at) && Overflows(data, at);
      OverflowIsHuge(data, at);
    }
  }

  // ---- Writing boxes and walking them ----------------------------------------------------------------

  /** A box to write, with its size in 32 or in 64 bits. */
  datatype Piece = Piece(kind: seq<Byte>, wide: bool, payload: seq<Byte>)

  predicate WellFormed(p: Piece) {
    |p.kind| == 4 && (if p.wide then |p.payload| + 16 <= MAX_INT else |p.payload| + 8 < 0x1_0000_0000)
  }

  function Header(p: Piece): seq<Byte> {
    if p.wide then [0, 0, 0, 1] + p.kind + BigEndian(16 + |p.payload|, 8) else BigEndian(8 + |p.payload|, 4) + p.kind
  }

  function Encode(p: Piece): seq<Byte> {
    Header(p) + p.payload
  }

  function EncodeAll(pieces: seq<Piece>): seq<Byte> {
    if pieces == [] then [] else Encode(pieces[0]) + EncodeAll(pieces[1..])
  }

  predicate AllWellFormed(pieces: seq<Piece>) {
    forall i :: 0 <= i < |pieces| ==> WellFormed(pieces[i])
  }

  function Placed(p: Piece, off: nat): Box {
    Box(off, off + |Header(p)|, off + |Encode(p)|, p.kind)
  }

  /** Where the boxes of a concatenation lie. */
  function Layout(pieces: seq<Piece>, off: nat): seq<Box> {
    if pieces == [] then [] else [Placed(pieces[0], off)] + Layout(pieces[1..], off + |Encode(pieces[0])|)
  }

  lemma OneInFour()
    ensures FromBigEndian([0, 0, 0, 1]) == 1
  {
    var bytes: seq<Byte> := [0, 0, 0, 1];
    var zeros: seq<Byte> := [0, 0, 0];
    assert bytes[..3] == zeros && zeros[..2] == [0, 0] && zeros[..2][..1] == [0];
    assert FromBigEndian(zeros[..1]) == 0;
    assert FromBigEndian(zeros[..2]) == 0;
    assert FromBigEndian(zeros) == 0;
  }

  /** The header fields of a written box. */
  lemma HeaderReadsBack(p: Piece)
    requires WellFormed(p)
    ensures |Header(p)| == if p.wide then 16 else 8
    ensures Header(p)[4..8] == p.kind
    ensures FromBigEndian(Header(p)[..4]) == if p.wide then 1 else 8 + |p.payload|
    ensures p.wide ==> FromBigEndian(Header(p)[8..16]) == 16 + |p.payload|
  {
    Limits();
    if p.wide {
      OneInFour();
      BigEndianReadsBack(16 + |p.payload|, 8);
      WideHeader([0, 0, 0, 1], p.kind, BigEndian(16 + |p.payload|, 8));
      assert Header(p)[8..16] == Header(p)[8..];
    } else {
      BigEndianReadsBack(8 + |p.payload|, 4);
      WideHeader(BigEndian(8 + |p.payload|, 4), p.kind, []);
      assert BigEndian(8 + |p.payload|, 4) + p.kind + [] == Header(p);
    }
  }

  lemma WideHeader(size: seq<Byte>, kind: seq<Byte>, large: seq<Byte>)
    requires |size| == 4 && |kind| == 4
    ensures var header := size + kind + large; header[..4] == size && header[4..8] == kind && header[8..] == large
  {
  }

  /** A written box is walked where it lies, whatever surrounds it. */
  lemma PieceIsBox(before: seq<Byte>, p: Piece, after: seq<Byte>)
    requires WellFormed(p) && |before + Encode(p) + after| <= MAX_INT
    ensures var data := before + Encode(p) + after;
            !Stops(data, |before|) && !Overflows(data, |before|) && BoxAt(data, |before|) == Placed(p, |before|)
  {
    HeaderReadsBack(p);
    HeaderIsBox(before, Header(p), p.payload, after, p.wide);
  }

  /** The same for the bytes of a header and a payload. */
  lemma HeaderIsBox(before: seq<Byte>, header: seq<Byte>, payload: seq<Byte>, after: seq<Byte>, wide: bool)
    requires |before + (header + payload) + after| <= MAX_INT
    requires |header| == (if wide then 16 else 8) && FromBigEndian(header[..4]) == if wide then 1 else 8 + |payload|
    requires wide ==> FromBigEndian(header[8..16]) == 16 + |payload|
    ensures var data, off := before + (header + payload) + after, |before|;
            && !Stops(data, off) && !Overflows(data, off)
            && BoxAt(data, off) == Box(off, off + |header|, off + |header + payload|, header[4..8])
  {
    var data, off := before + (header + payload) + after, |before|;
    HeaderLies(before, header, payload, after);
    assert data[off..off + 4] == header[..4] && data[off + 4..off + 8] == header[4..8];
    if wide {
      assert data[off + 8..off + 16] == header[8..16];
    }
  }

  lemma HeaderLies(before: seq<Byte>, header: seq<Byte>, payload: seq<Byte>, after: seq<Byte>)
    ensures var data := before + (header + payload) + after;
            forall i :: 0 <= i < |header| ==> data[|before| + i] == header[i]
  {
  }

  lemma WalkNext(data: seq<Byte>, off: nat, box: Box, next: nat)
    requires |data| <= MAX_INT && !Stops(data, off) && !Overflows(data, off)
    requires BoxAt(data, off) == box && box.end == next
    ensures Walk(data, off) == Prepend([box], Walk(data, next))
  {
  }

  lemma FirstBox(data: seq<Byte>, before: seq<Byte>, p: Piece, after: seq<Byte>, off: nat, next: nat)
    requires data == before + Encode(p) + after && WellFormed(p) && |data| <= MAX_INT
    requires off == |before| && next == off + |Encode(p)|
    ensures Walk(data, off) == Prepend([Placed(p, off)], Walk(data, next))
  {
    PieceIsBox(before, p, after);
    WalkNext(data, off, Placed(p, off), next);
  }

  lemma Regroup(a: seq<Byte>, b: seq<Byte>, c: seq<Byte>, d: seq<Byte>)
    ensures a + (b + c) + d == a + b + (c + d) == (a + b) + c + d
  {
  }

  /** The walk passes over written boxes, whatever follows them. */
  lemma {:induction false} WalkPasses(data: seq<Byte>, before: seq<Byte>, pieces: seq<Piece>, after: seq<Byte>, off: nat, end: nat)
    requires data == before + EncodeAll(pieces) + after && off == |before| && end == off + |EncodeAll(pieces)|
    requires AllWellFormed(pieces) && |data| <= MAX_INT
    ensures Walk(data, off) == Prepend(Layout(pieces, off), Walk(data, end))
    decreases |pieces|
  {
    if pieces != [] {
      var e, rest := Encode(pieces[0]), EncodeAll(pieces[1..]);
      Regroup(before, e, rest, after);
      var next := off + |e|;
      FirstBox(data, before, pieces[0], rest + after, off, next);
      assert |before + e| == next && data == (before + e) + rest + after;
      WalkPasses(data, before + e, pieces[1..], after, next, end);
      LayoutNext(pieces, off, next, Walk(data, end));
    }
  }

  lemma LayoutNext(pieces: seq<Piece>, off: nat, next: nat, rest: Option<seq<Box>>)
    requires pieces != [] && next == off + |Encode(pieces[0])|
    ensures Prepend([Placed(pieces[0], off)], Prepend(Layout(pieces[1..], next), rest)) == Prepend(Layout(pieces, off), rest)
  {
    if rest.Some? {
      var first, later := [Placed(pieces[0], off)], Layout(pieces[1..], next);
      assert first + (later + rest.value) == (first + later) + rest.value;
    }
  }

  /** The walk finds exactly the boxes of any concatenation of well-formed boxes, with less than a header after them. */
  lemma WalkFindsAll(before: seq<Byte>, pieces: seq<Piece>, tail: seq<Byte>)
    requires AllWellFormed(pieces) && |tail| < 8 && |before + EncodeAll(pieces) + tail| <= MAX_INT
    ensures Walk(before + EncodeAll(pieces) + tail, |before|) == Some(Layout(pieces, |before|))
  {
    var data, end := before + EncodeAll(pieces) + tail, |before + EncodeAll(pieces)|;
    WalkPasses(data, before, pieces, tail, |before|, end);
    assert Walk(data, end) == Some([]);
    assert Layout(pieces, |before|) + [] == Layout(pieces, |before|);
  }

  /** A last box of declared size zero runs to the end of the data. */
  lemma LastBoxToEnd(before: seq<Byte>, size: seq<Byte>, kind: seq<Byte>, payload: seq<Byte>)
    requires |size| == 4 && FromBigEndian(size) == 0 && |kind| == 4 && |before| + 8 + |payload| <= MAX_INT
    ensures var data := before + (size + kind + payload);
            Walk(data, |before|) == Some([Box(|before|, |before| + 8, |data|, kind)])
  {
    var data, off := before + (size + kind + payload), |before|;
    assert data[off..off + 4] == size && data[off + 4..off + 8] == kind;
    var box := BoxAt(data, off);
    assert Walk(data, box.end) == Some([]);
    assert [box] + [] == [box];
  }

  lemma SplitBox(data: seq<Byte>, off: nat, end: nat)
    requires off + 8 <= end <= |data|
    ensures data[off..end] == data[off..off + 4] + data[off + 4..off + 8] + data[off + 8..end]
    ensures off + 16 <= end ==> data[off + 8..end] == data[off + 8..off + 16] + data[off + 16..end]
  {
    assert data[off..end] == data[off..off + 8] + data[off + 8..end];
    assert data[off..off + 8] == data[off..off + 4] + data[off + 4..off + 8];
  }

  lemma FourAreOne(size: seq<Byte>)
    requires |size| == 4 && FromBigEndian(size) == 1
    ensures size == [0, 0, 0, 1]
  {
    var one: seq<Byte> := [0, 0, 0, 1];
    OneInFour();
    BytesReadBack(size);
    BytesReadBack(one);
  }

  /** Every box the walk finds is one that was written: its bytes encode its kind and content, or it runs to the end. */
  lemma BoxIsEncoded(data: seq<Byte>, off: nat)
    requires |data| <= MAX_INT && !Stops(data, off) && !Overflows(data, off)
    ensures var box := BoxAt(data, off);
            if FromBigEndian(data[off..off + 4]) == 0 then box.end == |data| && box.content == off + 8
            else data[off..box.end] == Encode(Piece(box.kind, box.content == off + 16, data[box.content..box.end]))
  {
    var box := BoxAt(data, off);
    var size := data[off..off + 4];
    SplitBox(data, off, box.end);
    if FromBigEndian(size) == 1 {
      FourAreOne(size);
      Limits();
      assert FromBigEndian(data[off + 8..off + 16]) < Limit(8);
      WideIsEncoded(data, off, box);
    } else if FromBigEndian(size) != 0 {
      BytesReadBack(size);
    }
  }

  lemma WideIsEncoded(data: seq<Byte>, off: nat, box: Box)
    requires off == box.start && off + 16 == box.content <= box.end <= |data|
    requires FromBigEndian(data[off + 8..off + 16]) == box.end - off
    ensures [0, 0, 0, 1] + box.kind + (data[off + 8..off + 16] + data[box.content..box.end]) ==
            Encode(Piece(box.kind, true, data[box.content..box.end]))
  {
    BytesReadBack(data[off + 8..off + 16]);
  }

  const WRAPPING: seq<Byte> := [0x7f, 0xff, 0xff, 0xff, 0xff, 0xff, 0xff, 0xf8]

  /** A second box whose 64-bit size is 2^63 - 8: its end wraps around, and the walk fails. */
  lemma WrapExample(kind: seq<Byte>)
    requires |kind| == 4
    ensures Walk(Encode(Piece(kind, false, [])) + ([0, 0, 0, 1] + kind + WRAPPING), 0).None?
  {
    var p, header := Piece(kind, false, []), [0, 0, 0, 1] + kind + WRAPPING;
    SkipFirst(Encode(p) + header, p, header);
    WrappingValue();
    WrapsAtEight(Encode(p) + header, kind);
  }

  lemma SkipFirst(data: seq<Byte>, p: Piece, after: seq<Byte>)
    requires WellFormed(p) && !p.wide && p.payload == [] && data == Encode(p) + after && |data| <= MAX_INT
    ensures Walk(data, 0) == Prepend([Placed(p, 0)], Walk(data, 8)) && data[8..] == after
  {
    assert [] + Encode(p) + after == data;
    FirstBox(data, [], p, after, 0, 8);
  }

  lemma WrappingValue()
    ensures FromBigEndian(WRAPPING) == 0x7fff_ffff_ffff_fff8
  {
    var b := WRAPPING;
    assert b[..7][..6] == b[..6] && b[..6][..5] == b[..5] && b[..5][..4] == b[..4];
    assert b[..4][..3] == b[..3] && b[..3][..2] == b[..2] && b[..2][..1] == b[..1];
    assert FromBigEndian(b[..1]) == 0x7f;
    assert FromBigEndian(b[..3]) == 0x7f_ffff;
    assert FromBigEndian(b[..5]) == 0x7f_ffff_ffff;
  }

  lemma WrapsAtEight(data: seq<Byte>, kind: seq<Byte>)
    requires |data| == 24 && |kind| == 4 && data[8..] == [0, 0, 0, 1] + kind + WRAPPING
    requires FromBigEndian(WRAPPING) == 0x7fff_ffff_ffff_fff8
    ensures Walk(data, 8).None?
  {
    OneInFour();
    assert data[8..12] == data[8..][..4] == [0, 0, 0, 1];
    assert data[16..24] == data[8..][8..] == WRAPPING;
  }
}
