/** The duration a movie header holds, found through the boxes around it. */
module MovieDuration {
  import opened Bytes
  import opened IsoBoxes
  import opened Wrappers

  const MOOV: seq<Byte> := [0x6d, 0x6f, 0x6f, 0x76]
  const MVHD: seq<Byte> := [0x6d, 0x76, 0x68, 0x64]

  datatype Timing = Timing(timescale: nat, duration: nat)

  /** Reads a movie header from its first byte on, as if its own header were eight bytes long. */
  function ParseMvhd(box: seq<Byte>): Option<Timing> {
    if |box| < 12 then None
    else if box[8] == 1 then
      if |box| < 40 then None else Some(Timing(FromBigEndian(box[28..32]), FromBigEndian(box[32..40])))
    else if |box| < 28 then None
    else Some(Timing(FromBigEndian(box[20..24]), FromBigEndian(box[24..28])))
  }

  /** The duration one movie box tells: that of its first movie header with a timescale. */
  function FirstTiming(content: seq<Byte>, boxes: seq<Box>): (timing: Option<Timing>)
    requires forall i :: 0 <= i < |boxes| ==> boxes[i].start <= boxes[i].end <= |content|
    ensures timing.Some? ==> timing.value.timescale > 0
  {
    if boxes == [] then None
    else
      var timing := ParseMvhd(content[boxes[0].start..boxes[0].end]);
      if boxes[0].kind == MVHD && timing.Some? && timing.value.timescale > 0 then timing
      else FirstTiming(content, boxes[1..])
  }

  lemma TilesAreInside(boxes: seq<Box>, from: nat, length: nat)
    requires Tiles(boxes, from, length)
    ensures forall i :: 0 <= i < |boxes| ==> from <= boxes[i].start < boxes[i].content <= boxes[i].end <= length
  {
    if boxes != [] {
      TilesAreInside(boxes[1..], boxes[0].end, length);
    }
  }

  datatype Answer = Failure | Unknown | Seconds(value: real)

  function SecondsOf(timing: Timing): Answer
    requires timing.timescale > 0
  {
    Seconds(timing.duration as real / timing.timescale as real)
  }

  /** What the movie boxes of a list tell: the first that tells anything. A failed inner walk fails the whole. */
  function MovieAnswer(data: seq<Byte>, boxes: seq<Box>): Answer
    requires |data| <= MAX_INT
    requires forall i :: 0 <= i < |boxes| ==> boxes[i].content <= boxes[i].end <= |data|
  {
    if boxes == [] then Unknown
    else if boxes[0].kind != MOOV then MovieAnswer(data, boxes[1..])
    else
      var content := data[boxes[0].content..boxes[0].end];
      match Walk(content, 0)
      case None => Failure
      case Some(inner) =>
        WalkTiles(content, 0);
        TilesAreInside(inner, 0, |content|);
        var timing := FirstTiming(content, inner);
        if timing.Some? then SecondsOf(timing.value) else MovieAnswer(data, boxes[1..])
  }

  function DurationOf(data: seq<Byte>): Answer
    requires |data| <= MAX_INT
  {
    match Walk(data, 0)
    case None => Failure
    case Some(boxes) =>
      WalkTiles(data, 0);
      TilesAreInside(boxes, 0, |data|);
      MovieAnswer(data, boxes)
  }

  method FindTiming(content: seq<Byte>, boxes: seq<Box>) returns (timing: Option<Timing>)
    requires forall i :: 0 <= i < |boxes| ==> boxes[i].start <= boxes[i].end <= |content|
    ensures timing == FirstTiming(content, boxes)
    ensures timing.Some? ==> timing.value.timescale > 0
  {
    for i := 0 to |boxes|
      invariant FirstTiming(content, boxes[i..]) == FirstTiming(content, boxes)
    {
      assert boxes[i..][0] == boxes[i] && boxes[i..][1..] == boxes[i + 1..];
      if boxes[i].kind != MVHD {
        continue;
      }
      var parsed := ParseMvhd(content[boxes[i].start..boxes[i].end]);
      if parsed.Some? && parsed.value.timescale > 0 {
        return parsed;
      }
    }
    return None;
  }

  method MediaDurationSeconds(data: seq<Byte>) returns (answer: Answer)
    requires |data| <= MAX_INT
    ensures answer == DurationOf(data)
  {
    var boxes := IsoBoxes.IsoBoxes(data);
    if boxes.None? {
      return Failure;
    }
    var outer := boxes.value;
    WalkTiles(data, 0);
    TilesAreInside(outer, 0, |data|);
    for i := 0 to |outer|
      invariant MovieAnswer(data, outer[i..]) == MovieAnswer(data, outer)
    {
      assert outer[i..][0] == outer[i] && outer[i..][1..] == outer[i + 1..];
      if outer[i].kind != MOOV {
        continue;
      }
      var content := data[outer[i].content..outer[i].end];
      var inner := IsoBoxes.IsoBoxes(content);
      if inner.None? {
        return Failure;
      }
      WalkTiles(content, 0);
      TilesAreInside(inner.value, 0, |content|);
      var timing := FindTiming(content, inner.value);
      if timing.Some? {
        return SecondsOf(timing.value);
      }
    }
    return Unknown;
  }

  // ---- Which header answers --------------------------------------------------------------------------

  /** The box is a movie header that tells a timescale. */
  predicate Tells(content: seq<Byte>, b: Box)
    requires b.start <= b.end <= |content|
  {
    && b.kind == Ascii("mvhd")
    && ParseMvhd(content[b.start..b.end]).Some? && ParseMvhd(content[b.start..b.end]).value.timescale != 0
  }

  predicate Inside(boxes: seq<Box>, length: nat) {
    forall i :: 0 <= i < |boxes| ==> boxes[i].start <= boxes[i].content <= boxes[i].end <= length
  }

  /** The first box that tells a timing is this one. */
  predicate FirstTells(content: seq<Byte>, boxes: seq<Box>, k: nat)
    requires Inside(boxes, |content|)
  {
    k < |boxes| && Tells(content, boxes[k]) && forall j :: 0 <= j < k ==> !Tells(content, boxes[j])
  }

  predicate NoneTells(content: seq<Byte>, boxes: seq<Box>)
    requires Inside(boxes, |content|)
  {
    forall j :: 0 <= j < |boxes| ==> !Tells(content, boxes[j])
  }

  lemma {:induction false} TimingIsFirst(content: seq<Byte>, boxes: seq<Box>) returns (k: nat)
    requires Inside(boxes, |content|)
    ensures FirstTiming(content, boxes).None? ==> NoneTells(content, boxes)
    ensures FirstTiming(content, boxes).Some? ==>
              FirstTells(content, boxes, k) && ParseMvhd(content[boxes[k].start..boxes[k].end]) == FirstTiming(content, boxes)
    decreases |boxes|
  {
    k := 0;
    if boxes != [] && !Tells(content, boxes[0]) {
      var later := TimingIsFirst(content, boxes[1..]);
      k := later + 1;
      forall j | 1 <= j < |boxes| ensures boxes[j] == boxes[1..][j - 1] {
      }
    }
  }

  function ContentOf(data: seq<Byte>, b: Box): seq<Byte>
    requires b.content <= b.end <= |data|
  {
    data[b.content..b.end]
  }

  /** The boxes of a movie could be read, and none of its headers tells a timing. */
  predicate SilentMovie(content: seq<Byte>)
    requires |content| <= MAX_INT
  {
    Walk(content, 0).Some? && Inside(Walk(content, 0).value, |content|) && NoneTells(content, Walk(content, 0).value)
  }

  /** The first header of a movie that tells a timing tells this one. */
  ghost predicate MovieTells(content: seq<Byte>, timing: Timing)
    requires |content| <= MAX_INT
  {
    && Walk(content, 0).Some? && Inside(Walk(content, 0).value, |content|)
    && exists k: nat ::
         && FirstTells(content, Walk(content, 0).value, k)
         && ParseMvhd(content[Walk(content, 0).value[k].start..Walk(content, 0).value[k].end]) == Some(timing)
  }

  /** Everything before the box is no movie, or a movie that tells nothing. */
  predicate AllSilent(data: seq<Byte>, boxes: seq<Box>, i: nat)
    requires |data| <= MAX_INT && i <= |boxes| && Inside(boxes, |data|)
  {
    forall j :: 0 <= j < i ==> boxes[j].kind == Ascii("moov") ==> SilentMovie(ContentOf(data, boxes[j]))
  }

  lemma MovieSays(content: seq<Byte>)
    requires |content| <= MAX_INT && Walk(content, 0).Some?
    ensures Inside(Walk(content, 0).value, |content|)
    ensures var timing := FirstTiming(content, Walk(content, 0).value);
            if timing.None? then SilentMovie(content) else MovieTells(content, timing.value)
  {
    WalkTiles(content, 0);
    TilesAreInside(Walk(content, 0).value, 0, |content|);
    var k := TimingIsFirst(content, Walk(content, 0).value);
  }

  /** The answer is decided at box `i`: everything before it is silent, and it tells this timing or cannot be read. */
  ghost predicate DecidedAt(data: seq<Byte>, boxes: seq<Box>, answer: Answer, i: nat, timing: Timing)
    requires |data| <= MAX_INT && Inside(boxes, |data|)
  {
    && i <= |boxes| && AllSilent(data, boxes, i)
    && match answer
       case Unknown => i == |boxes|
       case Failure => i < |boxes| && boxes[i].kind == Ascii("moov") && Walk(ContentOf(data, boxes[i]), 0).None?
       case Seconds(value) =>
         && i < |boxes| && boxes[i].kind == Ascii("moov") && MovieTells(ContentOf(data, boxes[i]), timing)
         && timing.timescale != 0 && value == timing.duration as real / timing.timescale as real
  }

  /** The first box decides, or is silent and leaves the answer to the rest. */
  lemma FirstBoxDecides(data: seq<Byte>, boxes: seq<Box>) returns (decides: bool, timing: Timing)
    requires |data| <= MAX_INT && Inside(boxes, |data|) && boxes != []
    ensures decides ==> DecidedAt(data, boxes, MovieAnswer(data, boxes), 0, timing)
    ensures !decides ==> AllSilent(data, boxes, 1) && MovieAnswer(data, boxes) == MovieAnswer(data, boxes[1..])
  {
    assert MOOV == Ascii("moov");
    decides, timing := boxes[0].kind == MOOV, Timing(1, 0);
    var content := ContentOf(data, boxes[0]);
    if decides && Walk(content, 0).Some? {
      MovieSays(content);
      var told := FirstTiming(content, Walk(content, 0).value);
      decides := told.Some?;
      timing := if told.Some? then told.value else timing;
    }
  }

  lemma LaterDecides(data: seq<Byte>, boxes: seq<Box>, answer: Answer, later: nat, timing: Timing)
    requires |data| <= MAX_INT && Inside(boxes, |data|) && boxes != [] && AllSilent(data, boxes, 1)
    requires Inside(boxes[1..], |data|) && DecidedAt(data, boxes[1..], answer, later, timing)
    ensures DecidedAt(data, boxes, answer, later + 1, timing)
  {
    forall j | 1 <= j < |boxes| ensures boxes[j] == boxes[1..][j - 1] {
    }
  }

  lemma {:induction false} AnswerIsFirst(data: seq<Byte>, boxes: seq<Box>) returns (i: nat, timing: Timing)
    requires |data| <= MAX_INT && Inside(boxes, |data|)
    ensures DecidedAt(data, boxes, MovieAnswer(data, boxes), i, timing)
    decreases |boxes|
  {
    i, timing := 0, Timing(1, 0);
    if boxes != [] {
      var decides;
      decides, timing := FirstBoxDecides(data, boxes);
      if !decides {
        var later;
        later, timing := AnswerIsFirst(data, boxes[1..]);
        LaterDecides(data, boxes, MovieAnswer(data, boxes), later, timing);
        i := later + 1;
      }
    }
  }

  /**
   The answer is that of the first movie box that tells a timing or cannot be read, and of its first header that tells
   one; it is unknown when there is no such box, and fails when the outer boxes cannot be read.
   */
  lemma DurationIsFirst(data: seq<Byte>) returns (i: nat, timing: Timing)
    requires |data| <= MAX_INT
    ensures Walk(data, 0).None? ==> DurationOf(data) == Failure
    ensures Walk(data, 0).Some? ==>
              Inside(Walk(data, 0).value, |data|) && DecidedAt(data, Walk(data, 0).value, DurationOf(data), i, timing)
  {
    i, timing := 0, Timing(1, 0);
    if Walk(data, 0).Some? {
      WalkTiles(data, 0);
      TilesAreInside(Walk(data, 0).value, 0, |data|);
      i, timing := AnswerIsFirst(data, Walk(data, 0).value);
    }
  }

  // ---- Writing a movie and reading its duration ------------------------------------------------------

  /** The payload of a movie header: version and flags, creation and modification time, timing, and the rest. */
  function MvhdPayload(version1: bool, flags: seq<Byte>, created: nat, modified: nat, timing: Timing, rest: seq<Byte>): seq<Byte> {
    var width := if version1 then 8 else 4;
    [if version1 then 1 else 0] + flags + BigEndian(created, width) + BigEndian(modified, width)
    + BigEndian(timing.timescale, 4) + BigEndian(timing.duration, width) + rest
  }

  predicate FitsTiming(version1: bool, timing: Timing) {
    timing.timescale < Limit(4) && timing.duration < Limit(if version1 then 8 else 4)
  }

  lemma Lies(a: seq<Byte>, b: seq<Byte>, c: seq<Byte>)
    ensures (a + b + c)[|a|..|a| + |b|] == b
  {
  }

  /** A movie header in the 32-bit size form reads back, in both versions. */
  lemma MvhdReadsBack(version1: bool, flags: seq<Byte>, created: nat, modified: nat, timing: Timing, rest: seq<Byte>)
    requires |flags| == 3 && FitsTiming(version1, timing)
    requires WellFormed(Piece(MVHD, false, MvhdPayload(version1, flags, created, modified, timing, rest)))
    ensures ParseMvhd(Encode(Piece(MVHD, false, MvhdPayload(version1, flags, created, modified, timing, rest)))) == Some(timing)
  {
    var payload := MvhdPayload(version1, flags, created, modified, timing, rest);
    var p := Piece(MVHD, false, payload);
    var width := if version1 then 8 else 4;
    var start := Header(p) + ([if version1 then 1 else 0] + flags + BigEndian(created, width) + BigEndian(modified, width));
    var scale, duration := BigEndian(timing.timescale, 4), BigEndian(timing.duration, width);
    HeaderReadsBack(p);
    assert Encode(p) == start + scale + (duration + rest);
    assert Encode(p) == start + scale + duration + rest;
    Lies(start, scale, duration + rest);
    Lies(start + scale, duration, rest);
    BigEndianReadsBack(timing.timescale, 4);
    BigEndianReadsBack(timing.duration, width);
    assert Encode(p)[8] == if version1 then 1 else 0;
  }

  lemma LastDigit(bytes: seq<Byte>, front: seq<Byte>, last: Byte)
    requires bytes == front + [last]
    ensures FromBigEndian(bytes) == 256 * FromBigEndian(front) + last
  {
    assert bytes[..|bytes| - 1] == front;
  }

  lemma Scale(high: nat, limit: nat, front: nat, last: nat)
    ensures 256 * (high * limit + front) + last == high * (256 * limit) + (256 * front + last)
  {
  }

  /** Big-endian numbers side by side. */
  lemma {:induction false} JoinedNumber(high: seq<Byte>, low: seq<Byte>)
    ensures FromBigEndian(high + low) == FromBigEndian(high) * Limit(|low|) + FromBigEndian(low)
    decreases |low|
  {
    if low == [] {
      assert high + low == high;
    } else {
      var front, last := low[..|low| - 1], low[|low| - 1];
      JoinedNumber(high, front);
      LastDigit(low, front, last);
      assert high + low == high + front + [last];
      LastDigit(high + low, high + front, last);
      Scale(FromBigEndian(high), Limit(|front|), FromBigEndian(front), last);
    }
  }

  lemma Multiples(a: nat, b: nat, d: nat)
    requires a < b
    ensures a * d + d <= b * d
  {
    assert (b - a - 1) * d >= 0;
  }

  lemma Divide(n: nat, q: nat, r: nat, d: nat)
    requires n == q * d + r && r < d
    ensures n / d == q && n % d == r
  {
    var k, m := n / d, n % d;
    assert n == d * k + m;
    SameQuotient(q, r, k, m, d);
  }

  lemma SameQuotient(q: nat, r: nat, k: nat, m: nat, d: nat)
    requires q * d + r == k * d + m && r < d && m < d
    ensures q == k && r == m
  {
    if k < q {
      Multiples(k, q, d);
    } else if q < k {
      Multiples(q, k, d);
    }
  }

  lemma SplitBytes(n: nat, bytes: seq<Byte>, high: seq<Byte>, low: seq<Byte>, count: nat)
    requires FromBigEndian(bytes) == n && bytes == high + low && |low| == count
    ensures FromBigEndian(high) == n / Limit(count) && FromBigEndian(low) == n % Limit(count)
  {
    JoinedNumber(high, low);
    Divide(n, FromBigEndian(high), FromBigEndian(low), Limit(count));
  }

  /** A number's leading bytes hold its quotient, and the others its remainder. */
  lemma SplitNumber(n: nat, count: nat, k: nat)
    requires n < Limit(count) && k <= count
    ensures FromBigEndian(BigEndian(n, count)[..k]) == n / Limit(count - k)
    ensures FromBigEndian(BigEndian(n, count)[k..]) == n % Limit(count - k)
  {
    var bytes := BigEndian(n, count);
    BigEndianReadsBack(n, count);
    SplitBytes(n, bytes, bytes[..k], bytes[k..], count - k);
  }

  lemma OneByte(bytes: seq<Byte>)
    requires |bytes| == 1
    ensures FromBigEndian(bytes) == bytes[0]
  {
    assert bytes[..0] == [];
  }

  function FirstWord(rest: seq<Byte>): nat {
    FromBigEndian(if |rest| < 4 then rest else rest[..4])
  }

  /**
   What a header in the 64-bit size form reports. Its fields are looked for eight bytes too early, and its version
   is looked for in the high byte of its size.
   */
  function WideTiming(size: nat, version1: bool, created: nat, modified: nat, timing: Timing, rest: seq<Byte>): Timing
  {
    if size / Limit(7) == 1 then
      if version1 then Timing(modified / Limit(4), modified % Limit(4) * Limit(4) + timing.timescale)
      else Timing(timing.timescale, timing.duration * Limit(4) + FirstWord(rest))
    else if version1 then Timing(created / Limit(4), created % Limit(4))
    else Timing(created, modified)
  }

  /** The fields of a movie header fit their widths. */
  predicate FitsHeader(version1: bool, flags: seq<Byte>, created: nat, modified: nat, timing: Timing, rest: seq<Byte>) {
    && |flags| == 3 && FitsTiming(version1, timing)
    && created < Limit(if version1 then 8 else 4) && modified < Limit(if version1 then 8 else 4)
  }

  lemma WidePayload(p: Piece, from: nat, to: nat)
    requires WellFormed(p) && p.wide && from <= to <= |p.payload|
    ensures |Encode(p)| == 16 + |p.payload| && Encode(p)[16 + from..16 + to] == p.payload[from..to]
    ensures Encode(p)[8] == (16 + |p.payload|) / Limit(7)
  {
    HeaderReadsBack(p);
    var size := BigEndian(16 + |p.payload|, 8);
    Limits();
    SplitNumber(16 + |p.payload|, 8, 1);
    OneByte(size[..1]);
  }

  /** The fields of a version 0 payload. */
  lemma NarrowFields(payload: seq<Byte>, flags: seq<Byte>, created: nat, modified: nat, timing: Timing, rest: seq<Byte>)
    requires FitsHeader(false, flags, created, modified, timing, rest)
    requires payload == MvhdPayload(false, flags, created, modified, timing, rest)
    ensures |payload| == 20 + |rest|
    ensures FromBigEndian(payload[4..8]) == created && FromBigEndian(payload[8..12]) == modified
    ensures FromBigEndian(payload[12..16]) == timing.timescale
    ensures |rest| >= 4 ==> FromBigEndian(payload[16..24]) == timing.duration * Limit(4) + FirstWord(rest)
  {
    assert payload[4..8] == BigEndian(created, 4) && payload[8..12] == BigEndian(modified, 4);
    assert payload[12..16] == BigEndian(timing.timescale, 4);
    BigEndianReadsBack(created, 4);
    BigEndianReadsBack(modified, 4);
    BigEndianReadsBack(timing.timescale, 4);
    if |rest| >= 4 {
      assert payload[16..24] == BigEndian(timing.duration, 4) + rest[..4];
      BigEndianReadsBack(timing.duration, 4);
      JoinedNumber(BigEndian(timing.duration, 4), rest[..4]);
    }
  }

  /** The halves of a version 1 payload's fields. */
  lemma LongFields(payload: seq<Byte>, flags: seq<Byte>, created: nat, modified: nat, timing: Timing, rest: seq<Byte>)
    requires FitsHeader(true, flags, created, modified, timing, rest)
    requires payload == MvhdPayload(true, flags, created, modified, timing, rest)
    ensures |payload| == 32 + |rest|
    ensures FromBigEndian(payload[4..8]) == created / Limit(4) && FromBigEndian(payload[8..12]) == created % Limit(4)
    ensures FromBigEndian(payload[12..16]) == modified / Limit(4)
    ensures FromBigEndian(payload[16..24]) == modified % Limit(4) * Limit(4) + timing.timescale
  {
    var c, m := BigEndian(created, 8), BigEndian(modified, 8);
    assert payload[4..8] == c[..4] && payload[8..12] == c[4..];
    assert payload[12..16] == m[..4];
    assert payload[16..24] == m[4..] + BigEndian(timing.timescale, 4);
    SplitNumber(created, 8, 4);
    SplitNumber(modified, 8, 4);
    BigEndianReadsBack(timing.timescale, 4);
    JoinedNumber(m[4..], BigEndian(timing.timescale, 4));
  }

  /** What is read of a header in the 64-bit size form, by the payload's bytes. */
  lemma WideMvhdReadsPayload(p: Piece)
    requires WellFormed(p) && p.wide && |p.payload| >= 20
    ensures ParseMvhd(Encode(p)) ==
            if (16 + |p.payload|) / Limit(7) != 1 then Some(Timing(FromBigEndian(p.payload[4..8]), FromBigEndian(p.payload[8..12])))
            else if |p.payload| < 24 then None
            else Some(Timing(FromBigEndian(p.payload[12..16]), FromBigEndian(p.payload[16..24])))
  {
    WidePayload(p, 4, 8);
    WidePayload(p, 8, 12);
    if |p.payload| >= 24 {
      WidePayload(p, 12, 16);
      WidePayload(p, 16, 24);
    }
  }

  lemma HugePayload(p: Piece)
    requires (16 + |p.payload|) / Limit(7) == 1
    ensures |p.payload| >= 24
  {
    Limits();
    assert Limit(6) == 256 * 256 * Limit(4) && Limit(7) == 256 * Limit(6);
  }

  /** In the 64-bit size form a movie header of either version is misread as stated. */
  lemma WideMvhdIsMisread(version1: bool, flags: seq<Byte>, created: nat, modified: nat, timing: Timing, rest: seq<Byte>)
    requires FitsHeader(version1, flags, created, modified, timing, rest)
    requires WellFormed(Piece(MVHD, true, MvhdPayload(version1, flags, created, modified, timing, rest)))
    ensures var p := Piece(MVHD, true, MvhdPayload(version1, flags, created, modified, timing, rest));
            ParseMvhd(Encode(p)) == Some(WideTiming(16 + |p.payload|, version1, created, modified, timing, rest))
  {
    var p := Piece(MVHD, true, MvhdPayload(version1, flags, created, modified, timing, rest));
    if version1 {
      LongFields(p.payload, flags, created, modified, timing, rest);
    } else {
      NarrowFields(p.payload, flags, created, modified, timing, rest);
    }
    WideMvhdReadsPayload(p);
    if (16 + |p.payload|) / Limit(7) == 1 {
      HugePayload(p);
    }
  }

  /** Below 2^56 bytes it reports its dates: the creation and modification time, or the halves of a long creation time. */
  lemma WideMvhdReadsDates(version1: bool, flags: seq<Byte>, created: nat, modified: nat, timing: Timing, rest: seq<Byte>)
    requires FitsHeader(version1, flags, created, modified, timing, rest)
    requires 16 + |MvhdPayload(version1, flags, created, modified, timing, rest)| < Limit(7)
    ensures ParseMvhd(Encode(Piece(MVHD, true, MvhdPayload(version1, flags, created, modified, timing, rest)))) ==
            Some(if version1 then Timing(created / Limit(4), created % Limit(4)) else Timing(created, modified))
  {
    Limits();
    assert Limit(8) == 256 * Limit(7);
    WideMvhdIsMisread(version1, flags, created, modified, timing, rest);
  }

  /**
   When a movie header reads back: always in the 32-bit size form. In the 64-bit one the code holds only where the
   dates happen to equal the timing, or, in a header of 2^56 bytes and more whose high byte is one, where the
   fields it reads do.
   */
  predicate ReadsBack(wide: bool, size: nat, version1: bool, created: nat, modified: nat, timing: Timing, rest: seq<Byte>)
  {
    if !wide then true
    else if size / Limit(7) == 1 then
      if version1 then modified / Limit(4) == timing.timescale && modified % Limit(4) * Limit(4) + timing.timescale == timing.duration
      else timing.duration == 0 && FirstWord(rest) == 0
    else if version1 then created == timing.timescale * Limit(4) + timing.duration && timing.duration < Limit(4)
    else created == timing.timescale && modified == timing.duration
  }

  lemma MvhdReadsBackExactly(wide: bool, version1: bool, flags: seq<Byte>, created: nat, modified: nat, timing: Timing, rest: seq<Byte>)
    requires FitsHeader(version1, flags, created, modified, timing, rest)
    requires WellFormed(Piece(MVHD, wide, MvhdPayload(version1, flags, created, modified, timing, rest)))
    ensures var p := Piece(MVHD, wide, MvhdPayload(version1, flags, created, modified, timing, rest));
            ParseMvhd(Encode(p)) == Some(timing) <==> ReadsBack(wide, 16 + |p.payload|, version1, created, modified, timing, rest)
  {
    if wide {
      WideMvhdIsMisread(version1, flags, created, modified, timing, rest);
      SplitDate(created, timing);
      NoLonger(timing.duration, FirstWord(rest));
    } else {
      MvhdReadsBack(version1, flags, created, modified, timing, rest);
    }
  }

  lemma SplitDate(created: nat, timing: Timing)
    ensures created / Limit(4) == timing.timescale && created % Limit(4) == timing.duration <==>
            created == timing.timescale * Limit(4) + timing.duration && timing.duration < Limit(4)
  {
    if timing.duration < Limit(4) {
      Divide(timing.timescale * Limit(4) + timing.duration, timing.timescale, timing.duration, Limit(4));
    }
    assert created == Limit(4) * (created / Limit(4)) + created % Limit(4);
  }

  lemma NoLonger(duration: nat, low: nat)
    ensures duration * Limit(4) + low == duration <==> duration == 0 && low == 0
  {
    Limits();
  }

  // ---- A whole movie ---------------------------------------------------------------------------------

  predicate NoneOf(pieces: seq<Piece>, kind: seq<Byte>) {
    forall i :: 0 <= i < |pieces| ==> pieces[i].kind != kind
  }

  lemma Append(e: seq<Byte>, a: seq<Byte>, b: seq<Byte>)
    ensures e + (a + b) == (e + a) + b
  {
  }

  lemma {:induction false} EncodeConcat(a: seq<Piece>, b: seq<Piece>)
    ensures EncodeAll(a + b) == EncodeAll(a) + EncodeAll(b)
    decreases |a|
  {
    if a == [] {
      assert a + b == b;
    } else {
      assert (a + b)[1..] == a[1..] + b && (a + b)[0] == a[0];
      EncodeConcat(a[1..], b);
      Append(Encode(a[0]), EncodeAll(a[1..]), EncodeAll(b));
    }
  }

  lemma EncodeFirst(p: Piece, after: seq<Piece>)
    ensures EncodeAll([p] + after) == Encode(p) + EncodeAll(after)
  {
    assert ([p] + after)[1..] == after;
  }

  lemma BytesShape(pieces: seq<Piece>, before: seq<Piece>, p: Piece, after: seq<Piece>)
    requires pieces == before + ([p] + after)
    ensures EncodeAll(pieces) == EncodeAll(before) + Encode(p) + EncodeAll(after)
  {
    EncodeConcat(before, [p] + after);
    EncodeFirst(p, after);
    Append(EncodeAll(before), Encode(p), EncodeAll(after));
  }

  lemma LiesInside(a: seq<Byte>, header: seq<Byte>, payload: seq<Byte>, c: seq<Byte>)
    ensures var data := a + (header + payload) + c;
            && data[|a|..|a| + |header + payload|] == header + payload
            && data[|a| + |header|..|a| + |header + payload|] == payload
  {
  }

  /** A box among others that a walk found: those before it, and its bytes. */
  ghost predicate Found(data: seq<Byte>, skipped: seq<Box>, box: Box, rest: seq<Box>, p: Piece)
    requires |data| <= MAX_INT
  {
    && Walk(data, 0) == Some(skipped + ([box] + rest))
    && box.start <= box.content <= box.end <= |data| && box.kind == p.kind
    && data[box.start..box.end] == Encode(p) && data[box.content..box.end] == p.payload
  }

  lemma OneOfSeveral(before: seq<Piece>, p: Piece, after: seq<Piece>) returns (skipped: seq<Box>, box: Box, rest: seq<Box>)
    requires AllWellFormed(before + [p] + after) && |EncodeAll(before + [p] + after)| <= MAX_INT
    ensures Found(EncodeAll(before + [p] + after), skipped, box, rest, p)
    ensures |skipped| == |before| && forall i :: 0 <= i < |before| ==> skipped[i].kind == before[i].kind
  {
    skipped, box, rest := FoundAmong(before + [p] + after, before, p, after);
    LayoutKinds(before, 0);
  }

  lemma FoundAmong(pieces: seq<Piece>, before: seq<Piece>, p: Piece, after: seq<Piece>)
    returns (skipped: seq<Box>, box: Box, rest: seq<Box>)
    requires pieces == before + [p] + after && AllWellFormed(pieces) && |EncodeAll(pieces)| <= MAX_INT
    ensures Found(EncodeAll(pieces), skipped, box, rest, p) && skipped == Layout(before, 0)
  {
    PartsWellFormed(pieces, before, p, after);
    assert pieces == before + ([p] + after);
    BytesShape(pieces, before, p, after);
    var off := |EncodeAll(before)|;
    skipped, box, rest := Layout(before, 0), Placed(p, off), Layout(after, off + |Encode(p)|);
    WalkAround(EncodeAll(pieces), before, p, after, off, off + |Encode(p)|);
    FoundInside(EncodeAll(pieces), EncodeAll(before), p, EncodeAll(after), skipped, rest);
  }

  lemma PartsWellFormed(pieces: seq<Piece>, before: seq<Piece>, p: Piece, after: seq<Piece>)
    requires pieces == before + [p] + after && AllWellFormed(pieces)
    ensures AllWellFormed(before) && WellFormed(p) && AllWellFormed(after)
  {
    assert forall i :: 0 <= i < |before| ==> before[i] == pieces[i];
    assert p == pieces[|before|];
    assert forall i :: 0 <= i < |after| ==> after[i] == pieces[|before| + 1 + i];
  }

  lemma WalkAround(data: seq<Byte>, before: seq<Piece>, p: Piece, after: seq<Piece>, off: nat, next: nat)
    requires data == EncodeAll(before) + Encode(p) + EncodeAll(after) && |data| <= MAX_INT
    requires AllWellFormed(before) && WellFormed(p) && AllWellFormed(after)
    requires off == |EncodeAll(before)| && next == off + |Encode(p)|
    ensures Walk(data, 0) == Some(Layout(before, 0) + ([Placed(p, off)] + Layout(after, next)))
  {
    var a, e, c := EncodeAll(before), Encode(p), EncodeAll(after);
    Append(a, e, c);
    NothingBefore(a, e + c);
    WalkPasses(data, [], before, e + c, 0, off);
    FirstBox(data, a, p, c, off, next);
    WalkToEnd(data, a + e, after, next);
  }

  lemma NothingBefore(a: seq<Byte>, b: seq<Byte>)
    ensures [] + a + b == a + b
  {
    assert [] + a == a;
  }

  lemma WalkToEnd(data: seq<Byte>, before: seq<Byte>, pieces: seq<Piece>, off: nat)
    requires data == before + EncodeAll(pieces) && |data| <= MAX_INT && AllWellFormed(pieces) && off == |before|
    ensures Walk(data, off) == Some(Layout(pieces, off))
  {
    WalkFindsAll(before, pieces, []);
    assert before + EncodeAll(pieces) + [] == data;
  }

  lemma FoundInside(data: seq<Byte>, a: seq<Byte>, p: Piece, c: seq<Byte>, skipped: seq<Box>, rest: seq<Box>)
    requires data == a + Encode(p) + c && |data| <= MAX_INT
    requires Walk(data, 0) == Some(skipped + ([Placed(p, |a|)] + rest))
    ensures Found(data, skipped, Placed(p, |a|), rest, p)
  {
    LiesInside(a, Header(p), p.payload, c);
  }

  lemma {:induction false} LayoutKinds(pieces: seq<Piece>, off: nat)
    ensures |Layout(pieces, off)| == |pieces|
    ensures forall i :: 0 <= i < |pieces| ==> Layout(pieces, off)[i].kind == pieces[i].kind
    decreases |pieces|
  {
    if pieces != [] {
      LayoutKinds(pieces[1..], off + |Encode(pieces[0])|);
    }
  }

  predicate NoKind(boxes: seq<Box>, kind: seq<Byte>) {
    forall i :: 0 <= i < |boxes| ==> boxes[i].kind != kind
  }

  lemma {:induction false} SkipHeaders(content: seq<Byte>, skipped: seq<Box>, rest: seq<Box>)
    requires Inside(skipped + rest, |content|) && Inside(rest, |content|) && NoKind(skipped, MVHD)
    ensures FirstTiming(content, skipped + rest) == FirstTiming(content, rest)
    decreases |skipped|
  {
    if skipped == [] {
      assert skipped + rest == rest;
    } else {
      assert (skipped + rest)[1..] == skipped[1..] + rest;
      SkipHeaders(content, skipped[1..], rest);
    }
  }

  lemma {:induction false} SkipMovies(data: seq<Byte>, skipped: seq<Box>, rest: seq<Box>)
    requires |data| <= MAX_INT && Inside(skipped + rest, |data|) && Inside(rest, |data|) && NoKind(skipped, MOOV)
    ensures MovieAnswer(data, skipped + rest) == MovieAnswer(data, rest)
    decreases |skipped|
  {
    if skipped == [] {
      assert skipped + rest == rest;
    } else {
      assert (skipped + rest)[1..] == skipped[1..] + rest;
      SkipMovies(data, skipped[1..], rest);
    }
  }

  lemma InnerTiming(content: seq<Byte>, skipped: seq<Box>, box: Box, rest: seq<Box>, header: Piece, timing: Timing)
    requires header.kind == MVHD && ParseMvhd(Encode(header)) == Some(timing) && timing.timescale > 0
    requires |content| <= MAX_INT && Found(content, skipped, box, rest, header) && NoKind(skipped, MVHD)
    ensures Inside(Walk(content, 0).value, |content|) && FirstTiming(content, Walk(content, 0).value) == Some(timing)
  {
    WalkTiles(content, 0);
    TilesAreInside(Walk(content, 0).value, 0, |content|);
    TailInside(skipped, [box] + rest, |content|);
    SkipHeaders(content, skipped, [box] + rest);
  }

  lemma TailInside(a: seq<Box>, b: seq<Box>, length: nat)
    requires Inside(a + b, length)
    ensures Inside(b, length)
  {
    assert forall i :: 0 <= i < |b| ==> b[i] == (a + b)[|a| + i];
  }

  lemma OuterAnswer(data: seq<Byte>, skipped: seq<Box>, box: Box, rest: seq<Box>, movie: Piece, timing: Timing)
    requires |data| <= MAX_INT && Found(data, skipped, box, rest, movie) && NoKind(skipped, MOOV) && movie.kind == MOOV
    requires timing.timescale > 0 && |movie.payload| <= MAX_INT && Walk(movie.payload, 0).Some?
    requires Inside(Walk(movie.payload, 0).value, |movie.payload|)
    requires FirstTiming(movie.payload, Walk(movie.payload, 0).value) == Some(timing)
    ensures DurationOf(data) == SecondsOf(timing)
  {
    WalkTiles(data, 0);
    TilesAreInside(Walk(data, 0).value, 0, |data|);
    TailInside(skipped, [box] + rest, |data|);
    SkipMovies(data, skipped, [box] + rest);
  }

  /**
   The duration of any movie whose header reads back is its duration over its timescale, whatever boxes stand
   before and after.
   */
  lemma MovieReadsBack(before: seq<Piece>, wide: bool, after: seq<Piece>, inside: seq<Piece>, header: Piece, others: seq<Piece>, timing: Timing)
    requires header.kind == MVHD && ParseMvhd(Encode(header)) == Some(timing) && timing.timescale > 0
    requires NoneOf(before, MOOV) && NoneOf(inside, MVHD)
    requires AllWellFormed(inside + [header] + others) && |EncodeAll(inside + [header] + others)| <= MAX_INT
    requires var movie := Piece(MOOV, wide, EncodeAll(inside + [header] + others));
             AllWellFormed(before + [movie] + after) && |EncodeAll(before + [movie] + after)| <= MAX_INT
    ensures var movie := Piece(MOOV, wide, EncodeAll(inside + [header] + others));
            DurationOf(EncodeAll(before + [movie] + after)) == SecondsOf(timing)
  {
    var content := EncodeAll(inside + [header] + others);
    var movie := Piece(MOOV, wide, content);
    var innerSkipped, innerBox, innerRest := OneOfSeveral(inside, header, others);
    InnerTiming(content, innerSkipped, innerBox, innerRest, header, timing);
    var skipped, box, rest := OneOfSeveral(before, movie, after);
    OuterAnswer(EncodeAll(before + [movie] + after), skipped, box, rest, movie, timing);
  }
}
