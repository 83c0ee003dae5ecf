/** The dimensions a JPEG declares, found by walking its segments to the frame header. */
module Jpeg {
  import opened Bytes

  const UNKNOWN: (nat, nat) := (0, 0)

  /** Markers that stand alone, without a length. */
  predicate StandsAlone(marker: Byte) { marker == 0x01 || 0xd0 <= marker <= 0xd8 }

  /** The end of the image or the start of its scan: no frame header can follow. */
  predicate Ends(marker: Byte) { marker == 0xd9 || marker == 0xda }

  predicate IsFrame(marker: Byte) {
    0xc0 <= marker <= 0xcf && marker != 0xc4 && marker != 0xc8 && marker != 0xcc
  }

  /** Height before width, as the frame header stores them; the result is width first. */
  function FrameSize(data: seq<Byte>, off: nat): (nat, nat)
    requires off + 9 <= |data|
  {
    (FromBigEndian(data[off + 7..off + 9]), FromBigEndian(data[off + 5..off + 7]))
  }

  function Scan(data: seq<Byte>, off: nat): (nat, nat)
    decreases |data| - off
  {
    if off + 4 > |data| || data[off] != 0xff then UNKNOWN
    else if StandsAlone(data[off + 1]) then Scan(data, off + 2)
    else if Ends(data[off + 1]) then UNKNOWN
    else
      var size := FromBigEndian(data[off + 2..off + 4]);
      if size < 2 || off + 2 + size > |data| then UNKNOWN
      else if !IsFrame(data[off + 1]) then Scan(data, off + 2 + size)
      else if size < 7 then UNKNOWN else FrameSize(data, off)
  }

  method JpegDimensions(data: seq<Byte>) returns (width: nat, height: nat)
    ensures (width, height) == Scan(data, 2)
  {
    var off := 2;
    while off + 4 <= |data|
      invariant Scan(data, off) == Scan(data, 2)
      decreases |data| - off
    {
      if data[off] != 0xff {
        return 0, 0;
      }
      var marker := data[off + 1];
      if marker == 0x01 || 0xd0 <= marker <= 0xd8 {
        off := off + 2;
        continue;
      }
      if marker == 0xd9 || marker == 0xda {
        return 0, 0;
      }
      var size := FromBigEndian(data[off + 2..off + 4]);
      if size < 2 || off + 2 + size > |data| {
        return 0, 0;
      }
      if IsFrame(marker) {
        if size < 7 {
          return 0, 0;
        }
        height := FromBigEndian(data[off + 5..off + 7]);
        width := FromBigEndian(data[off + 7..off + 9]);
        return;
      }
      off := off + 2 + size;
    }
    return 0, 0;
  }

  // ---- Writing segments and walking them -------------------------------------------------------------

  datatype Segment = Bare(marker: Byte) | Sized(marker: Byte, payload: seq<Byte>)

  /** TEM, RST0 to RST7 and SOI. */
  const ALONE: set<Byte> := {0x01, 0xd0, 0xd1, 0xd2, 0xd3, 0xd4, 0xd5, 0xd6, 0xd7, 0xd8}

  /** SOF0 to SOF15, of which DHT, JPG and DAC take three codes. */
  const FRAMES: set<Byte> := {0xc0, 0xc1, 0xc2, 0xc3, 0xc5, 0xc6, 0xc7, 0xc9, 0xca, 0xcb, 0xcd, 0xce, 0xcf}

  /** A segment that may stand before the frame header: neither it, nor EOI or SOS. */
  predicate Skippable(s: Segment) {
    match s
    case Bare(marker) => marker in ALONE
    case Sized(marker, payload) => marker !in ALONE && marker !in FRAMES && marker != 0xd9 && marker != 0xda && |payload| <= 65533
  }

  lemma MarkersByName(marker: Byte)
    ensures StandsAlone(marker) <==> marker in ALONE
    ensures IsFrame(marker) <==> marker in FRAMES
    ensures Ends(marker) <==> marker == 0xd9 || marker == 0xda
  {
  }

  function Encode(s: Segment): seq<Byte> {
    match s
    case Bare(marker) => [0xff, marker]
    case Sized(marker, payload) => [0xff, marker] + BigEndian(|payload| + 2, 2) + payload
  }

  function EncodeAll(segments: seq<Segment>): seq<Byte> {
    if segments == [] then [] else Encode(segments[0]) + EncodeAll(segments[1..])
  }

  function Frame(marker: Byte, precision: Byte, width: nat, height: nat, rest: seq<Byte>): Segment {
    Sized(marker, [precision] + BigEndian(height, 2) + BigEndian(width, 2) + rest)
  }

  /** The length of a sized segment reads back where it lies. */
  lemma SizedLies(before: seq<Byte>, marker: Byte, length: seq<Byte>, payload: seq<Byte>, after: seq<Byte>)
    requires |length| == 2 && FromBigEndian(length) == |payload| + 2
    ensures var data, off := before + ([0xff, marker] + length + payload) + after, |before|;
            && off + 4 + |payload| <= |data| && data[off] == 0xff && data[off + 1] == marker
            && FromBigEndian(data[off + 2..off + 4]) == |payload| + 2
            && data[off + 4..off + 4 + |payload|] == payload
  {
    var data, off := before + ([0xff, marker] + length + payload) + after, |before|;
    assert data[off + 2..off + 4] == length;
  }

  lemma SkipBare(data: seq<Byte>, off: nat, next: nat)
    requires off + 4 <= |data| && data[off] == 0xff && StandsAlone(data[off + 1]) && next == off + 2
    ensures Scan(data, off) == Scan(data, next)
  {
  }

  lemma SkipSized(data: seq<Byte>, off: nat, size: nat, next: nat)
    requires off + 4 <= |data| && data[off] == 0xff && size == FromBigEndian(data[off + 2..off + 4])
    requires !StandsAlone(data[off + 1]) && !Ends(data[off + 1]) && !IsFrame(data[off + 1])
    requires 2 <= size && next == off + 2 + size <= |data|
    ensures Scan(data, off) == Scan(data, next)
  {
  }

  lemma BareIsSkipped(data: seq<Byte>, before: seq<Byte>, marker: Byte, after: seq<Byte>, off: nat, next: nat)
    requires StandsAlone(marker) && |after| >= 2 && data == before + [0xff, marker] + after
    requires off == |before| && next == off + 2
    ensures Scan(data, off) == Scan(data, next)
  {
    assert data[off] == 0xff && data[off + 1] == marker;
    SkipBare(data, off, next);
  }

  lemma SizedIsSkipped(data: seq<Byte>, before: seq<Byte>, marker: Byte, length: seq<Byte>, payload: seq<Byte>, after: seq<Byte>,
                       off: nat, next: nat)
    requires data == before + ([0xff, marker] + length + payload) + after
    requires |length| == 2 && FromBigEndian(length) == |payload| + 2
    requires !StandsAlone(marker) && !Ends(marker) && !IsFrame(marker)
    requires off == |before| && next == off + 4 + |payload|
    ensures Scan(data, off) == Scan(data, next)
  {
    SizedLies(before, marker, length, payload, after);
    SkipSized(data, off, |payload| + 2, next);
  }

  lemma OneSegment(data: seq<Byte>, before: seq<Byte>, s: Segment, after: seq<Byte>, off: nat, next: nat)
    requires Skippable(s) && |after| >= 2 && data == before + Encode(s) + after
    requires off == |before| && next == off + |Encode(s)|
    ensures Scan(data, off) == Scan(data, next)
  {
    MarkersByName(s.marker);
    match s
    case Bare(marker) => BareIsSkipped(data, before, marker, after, off, next);
    case Sized(marker, payload) =>
      Limits();
      BigEndianReadsBack(|payload| + 2, 2);
      SizedIsSkipped(data, before, marker, BigEndian(|payload| + 2, 2), payload, after, off, next);
  }

  lemma FrameFields(precision: Byte, height: seq<Byte>, width: seq<Byte>, rest: seq<Byte>)
    requires |height| == |width| == 2
    ensures var payload := [precision] + height + width + rest;
            |payload| >= 5 && payload[1..3] == height && payload[3..5] == width
  {
  }

  lemma FrameIsScanned(before: seq<Byte>, marker: Byte, length: seq<Byte>, payload: seq<Byte>, after: seq<Byte>)
    requires |length| == 2 && FromBigEndian(length) == |payload| + 2 && |payload| >= 5 && IsFrame(marker)
    ensures Scan(before + ([0xff, marker] + length + payload) + after, |before|) ==
            (FromBigEndian(payload[3..5]), FromBigEndian(payload[1..3]))
  {
    var data, off := before + ([0xff, marker] + length + payload) + after, |before|;
    SizedLies(before, marker, length, payload, after);
    assert data[off + 5..off + 7] == data[off + 4..off + 4 + |payload|][1..3];
    assert data[off + 7..off + 9] == data[off + 4..off + 4 + |payload|][3..5];
  }

  lemma FrameIsRead(before: seq<Byte>, marker: Byte, precision: Byte, width: nat, height: nat, rest: seq<Byte>, after: seq<Byte>)
    requires IsFrame(marker) && width < 0x1_0000 && height < 0x1_0000
    requires |Frame(marker, precision, width, height, rest).payload| + 2 < 0x1_0000
    ensures Scan(before + Encode(Frame(marker, precision, width, height, rest)) + after, |before|) == (width, height)
  {
    var payload := Frame(marker, precision, width, height, rest).payload;
    Limits();
    BigEndianReadsBack(|payload| + 2, 2);
    BigEndianReadsBack(width, 2);
    BigEndianReadsBack(height, 2);
    FrameFields(precision, BigEndian(height, 2), BigEndian(width, 2), rest);
    FrameIsScanned(before, marker, BigEndian(|payload| + 2, 2), payload, after);
  }

  lemma Regroup(a: seq<Byte>, b: seq<Byte>, c: seq<Byte>, d: seq<Byte>)
    ensures a + (b + c) + d == a + b + (c + d) == (a + b) + c + d
  {
  }

  /** Any segments before the frame header are skipped, and its dimensions are those read. */
  lemma {:induction false} FrameIsFound(before: seq<Byte>, segments: seq<Segment>, marker: Byte, precision: Byte,
                                        width: nat, height: nat, rest: seq<Byte>, after: seq<Byte>)
    requires marker in FRAMES && width <= 65535 && height <= 65535
    requires |Frame(marker, precision, width, height, rest).payload| <= 65533
    requires forall i :: 0 <= i < |segments| ==> Skippable(segments[i])
    ensures Scan(before + EncodeAll(segments) + (Encode(Frame(marker, precision, width, height, rest)) + after), |before|) ==
            (width, height)
    decreases |segments|
  {
    MarkersByName(marker);
    var frame := Encode(Frame(marker, precision, width, height, rest));
    if segments == [] {
      assert before + [] + (frame + after) == before + frame + after;
      FrameIsRead(before, marker, precision, width, height, rest, after);
    } else {
      var first, others := Encode(segments[0]), EncodeAll(segments[1..]);
      Regroup(before, first, others, frame + after);
      OneSegment(before + first + (others + (frame + after)), before, segments[0], others + (frame + after),
                 |before|, |before + first|);
      FrameIsFound(before + first, segments[1..], marker, precision, width, height, rest, after);
    }
  }

  // ---- What a reported size was read from ------------------------------------------------------------

  lemma SplitHead(d: seq<Byte>, n: nat)
    requires 4 <= n <= |d|
    ensures d == [d[0], d[1]] + d[2..4] + d[4..n] + d[n..]
  {
  }

  lemma SegmentOf(d: seq<Byte>, size: nat)
    requires |d| >= 4 && d[0] == 0xff && size == FromBigEndian(d[2..4]) && 2 <= size && 2 + size <= |d|
    ensures size < 0x1_0000 && d == Encode(Sized(d[1], d[4..2 + size])) + d[2 + size..]
  {
    Limits();
    BytesReadBack(d[2..4]);
    SplitHead(d, 2 + size);
  }

  lemma SlicesOf(data: seq<Byte>, off: nat, from: nat, to: nat)
    requires off + from <= off + to <= |data|
    ensures data[off..][from..to] == data[off + from..off + to] && data[off..][to..] == data[off + to..]
  {
  }

  lemma SegmentLies(data: seq<Byte>, off: nat, size: nat, next: nat, s: Segment)
    requires off + 4 <= |data| && data[off] == 0xff && size == FromBigEndian(data[off + 2..off + 4])
    requires 2 <= size && next == off + 2 + size <= |data| && s == Sized(data[off + 1], data[off + 4..next])
    ensures size < 0x1_0000 && data[off..] == Encode(s) + data[next..]
  {
    SlicesOf(data, off, 2, 4);
    SlicesOf(data, off, 4, 2 + size);
    SegmentOf(data[off..], size);
  }

  lemma PayloadParts(payload: seq<Byte>)
    requires |payload| >= 5
    ensures payload == [payload[0]] + payload[1..3] + payload[3..5] + payload[5..]
  {
  }

  lemma FrameLies(marker: Byte, payload: seq<Byte>, height: seq<Byte>, width: seq<Byte>)
    requires |payload| >= 5 && height == payload[1..3] && width == payload[3..5]
    ensures Sized(marker, payload) == Frame(marker, payload[0], FromBigEndian(width), FromBigEndian(height), payload[5..])
  {
    PayloadParts(payload);
    BytesReadBack(height);
    BytesReadBack(width);
  }

  /** The data from `off` on begins with these segments and then this frame header. */
  predicate Holds(data: seq<Byte>, off: nat, segments: seq<Segment>, frame: Segment, after: seq<Byte>) {
    && off <= |data| && data[off..] == EncodeAll(segments) + (Encode(frame) + after)
    && forall i :: 0 <= i < |segments| ==> Skippable(segments[i])
  }

  lemma Reassociate(a: seq<Byte>, b: seq<Byte>, c: seq<Byte>)
    ensures a + (b + c) == (a + b) + c
  {
  }

  lemma EncodeMore(s: Segment, segments: seq<Segment>)
    ensures EncodeAll([s] + segments) == Encode(s) + EncodeAll(segments)
  {
    assert ([s] + segments)[1..] == segments;
  }

  lemma OneMoreSegment(data: seq<Byte>, off: nat, next: nat, s: Segment, segments: seq<Segment>, frame: Segment, after: seq<Byte>)
    requires Skippable(s) && off <= next <= |data| && data[off..] == Encode(s) + data[next..]
    requires Holds(data, next, segments, frame, after)
    ensures Holds(data, off, [s] + segments, frame, after)
  {
    EncodeMore(s, segments);
    Reassociate(Encode(s), EncodeAll(segments), Encode(frame) + after);
  }

  lemma FrameHolds(data: seq<Byte>, off: nat, size: nat)
    requires off + 4 <= |data| && data[off] == 0xff && size == FromBigEndian(data[off + 2..off + 4])
    requires 7 <= size && off + 2 + size <= |data|
    ensures var (frame, (width, height)) := (Sized(data[off + 1], data[off + 4..off + 2 + size]), FrameSize(data, off));
            && Holds(data, off, [], frame, data[off + 2 + size..])
            && frame == Frame(frame.marker, frame.payload[0], width, height, frame.payload[5..])
  {
    var payload := data[off + 4..off + 2 + size];
    SegmentLies(data, off, size, off + 2 + size, Sized(data[off + 1], payload));
    FrameLies(data[off + 1], payload, payload[1..3], payload[3..5]);
    assert payload[1..3] == data[off + 5..off + 7] && payload[3..5] == data[off + 7..off + 9];
    assert data[off..] == [] + data[off..];
  }

  /** What the walk reports from `off` on is what this frame header says, behind these segments. */
  predicate IsReadFrom(data: seq<Byte>, off: nat, segments: seq<Segment>, frame: Segment, after: seq<Byte>) {
    && Holds(data, off, segments, frame, after)
    && frame.Sized? && frame.marker in FRAMES && |frame.payload| >= 5
    && frame == Frame(frame.marker, frame.payload[0], Scan(data, off).0, Scan(data, off).1, frame.payload[5..])
  }

  lemma SegmentBefore(data: seq<Byte>, off: nat, next: nat, s: Segment, segments: seq<Segment>, frame: Segment, after: seq<Byte>)
    requires Skippable(s) && off <= next <= |data| && data[off..] == Encode(s) + data[next..] && Scan(data, off) == Scan(data, next)
    requires IsReadFrom(data, next, segments, frame, after)
    ensures IsReadFrom(data, off, [s] + segments, frame, after)
  {
    OneMoreSegment(data, off, next, s, segments, frame, after);
  }

  lemma BareLies(data: seq<Byte>, off: nat)
    requires off + 4 <= |data| && data[off] == 0xff && StandsAlone(data[off + 1])
    ensures Skippable(Bare(data[off + 1])) && data[off..] == Encode(Bare(data[off + 1])) + data[off + 2..]
    ensures Scan(data, off) == Scan(data, off + 2)
  {
    MarkersByName(data[off + 1]);
  }

  lemma SizedLiesAt(data: seq<Byte>, off: nat, size: nat, next: nat, s: Segment)
    requires off + 4 <= |data| && data[off] == 0xff && size == FromBigEndian(data[off + 2..off + 4])
    requires 2 <= size && next == off + 2 + size <= |data| && s == Sized(data[off + 1], data[off + 4..next])
    requires !StandsAlone(data[off + 1]) && !Ends(data[off + 1]) && !IsFrame(data[off + 1])
    ensures Skippable(s) && data[off..] == Encode(s) + data[next..]
    ensures Scan(data, off) == Scan(data, next)
  {
    MarkersByName(data[off + 1]);
    SegmentLies(data, off, size, next, s);
    SkipSized(data, off, size, next);
  }

  lemma FrameRead(data: seq<Byte>, off: nat, size: nat)
    requires off + 4 <= |data| && data[off] == 0xff && size == FromBigEndian(data[off + 2..off + 4])
    requires 7 <= size && off + 2 + size <= |data| && IsFrame(data[off + 1])
    ensures IsReadFrom(data, off, [], Sized(data[off + 1], data[off + 4..off + 2 + size]), data[off + 2 + size..])
  {
    MarkersByName(data[off + 1]);
    FrameHolds(data, off, size);
  }

  /**
   Whatever is reported was read from a frame header that only segments which may stand before it precede; without
   one nothing is reported.
   */
  lemma {:induction false} SizeIsFromFrame(data: seq<Byte>, off: nat)
    returns (segments: seq<Segment>, frame: Segment, after: seq<Byte>)
    requires Scan(data, off) != (0, 0)
    ensures IsReadFrom(data, off, segments, frame, after)
    decreases |data| - off
  {
    MarkersByName(data[off + 1]);
    if StandsAlone(data[off + 1]) {
      segments, frame, after := SizeIsFromFrame(data, off + 2);
      BareLies(data, off);
      SegmentBefore(data, off, off + 2, Bare(data[off + 1]), segments, frame, after);
      segments := [Bare(data[off + 1])] + segments;
    } else {
      var size := FromBigEndian(data[off + 2..off + 4]);
      frame := Sized(data[off + 1], data[off + 4..off + 2 + size]);
      if IsFrame(data[off + 1]) {
        FrameRead(data, off, size);
        segments, after := [], data[off + 2 + size..];
      } else {
        var s := frame;
        segments, frame, after := SizeIsFromFrame(data, off + 2 + size);
        SizedLiesAt(data, off, size, off + 2 + size, s);
        SegmentBefore(data, off, off + 2 + size, s, segments, frame, after);
        segments := [s] + segments;
      }
    }
  }
}
