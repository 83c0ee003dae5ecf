/**
 The envelope a message is quoted in: JSON between two tags, with no angle bracket in between. A string is
 its sequence of code points; a lone surrogate counts as one.
 */
module Envelopes {
  import opened Wrappers

  type Scalar = c: nat | c < 0x11_0000

  type Text = seq<Scalar>

  /** The text of an ASCII literal. */
  function Lit(s: string): (t: Text)
    ensures |t| == |s| && forall i :: 0 <= i < |s| ==> t[i] == s[i] as int
  {
    seq(|s|, i requires 0 <= i < |s| => s[i] as int)
  }

  const QUOTE: Scalar := 0x22
  const BACKSLASH: Scalar := 0x5c

  // ---- Strings ---------------------------------------------------------------------------------------

  function Hex(n: nat): (c: Scalar)
    requires n < 16
  {
    if n < 10 then 0x30 + n else 0x61 + (n - 10)
  }

  function Unhex(c: Scalar): (n: nat) {
    if 0x30 <= c <= 0x39 then c - 0x30 else if 0x61 <= c <= 0x66 then c - 0x61 + 10 else 0
  }

  /** A four-digit escape. */
  function Numbered(c: nat): (t: Text)
    requires c < 0x1_0000
    ensures |t| == 6
  {
    [BACKSLASH, 0x75, Hex(c / 0x1000), Hex(c / 0x100 % 16), Hex(c / 16 % 16), Hex(c % 16)]
  }

  /** The letter of the control characters that have a short escape, or zero. */
  function ShortEscape(c: Scalar): (letter: Scalar) {
    if c == 8 then 0x62 else if c == 9 then 0x74 else if c == 10 then 0x6e else if c == 12 then 0x66
    else if c == 13 then 0x72 else if c == QUOTE || c == BACKSLASH then c else 0
  }

  /** How `JSON.stringify` writes a character: lone surrogates and control characters are escaped. */
  function JsonChar(c: Scalar): Text {
    if ShortEscape(c) != 0 then [BACKSLASH, ShortEscape(c)]
    else if c < 0x20 || 0xd800 <= c < 0xe000 then Numbered(c)
    else [c]
  }

  /** The three characters replaced in the serialized row: less-than, greater-than and ampersand. */
  predicate Marks(c: Scalar) { c == 0x3c || c == 0x3e || c == 0x26 }

  function Neutralize(t: Text): (r: Text)
    ensures forall c <- r :: !Marks(c)
    ensures |r| >= |t|
  {
    if t == [] then []
    else (if Marks(t[0]) then Numbered(t[0]) else [t[0]]) + Neutralize(t[1..])
  }

  function JsonChars(t: Text): Text {
    if t == [] then [] else JsonChar(t[0]) + JsonChars(t[1..])
  }

  function JsonString(t: Text): Text {
    [QUOTE] + JsonChars(t) + [QUOTE]
  }

  // ---- Rows ------------------------------------------------------------------------------------------

  datatype Media = Media(status: Text, mime: Option<Text>, fileName: Option<Text>)

  /** Whether a row says its text was cut, and where: a mark set later follows the media. */
  datatype Mark = Unmarked | BeforeMedia | AfterMedia

  datatype Row = Row(id: Text, at: Text, sender: Text, kind: Text, text: Text, mark: Mark, media: Option<Media>)

  /** A string field, and what follows it. `name` is the punctuation up to the value. */
  function Field(name: string, value: Text, rest: Text): Text {
    Lit(name) + JsonString(value) + rest
  }

  /** A string field that may be null. */
  function OptionField(name: string, value: Option<Text>, rest: Text): Text {
    if value.None? then Lit(name) + Lit("null") + rest else Field(name, value.value, rest)
  }

  /** Media metadata, or null. */
  function MediaValue(m: Option<Media>, rest: Text): Text {
    match m
    case None => Lit("null") + rest
    case Some(media) =>
      Field("{\"status\":", media.status,
      OptionField(",\"mime\":", media.mime,
      OptionField(",\"fileName\":", media.fileName, Lit("}") + rest)))
  }

  /** A mark set at once precedes the media; one set later follows it. */
  function MarkedBefore(mark: Mark): string {
    if mark.BeforeMedia? then ",\"truncated\":true,\"media\":" else ",\"media\":"
  }

  function MarkedAfter(mark: Mark): string {
    if mark.AfterMedia? then ",\"truncated\":true}" else "}"
  }

  /** What follows a row's text. */
  function JsonTail(row: Row): Text {
    Lit(MarkedBefore(row.mark)) + MediaValue(row.media, Lit(MarkedAfter(row.mark)))
  }

  function Json(row: Row): Text {
    Field("{\"id\":", row.id,
    Field(",\"at\":", row.at,
    Field(",\"sender\":", row.sender,
    Field(",\"kind\":", row.kind,
    Field(",\"text\":", row.text, JsonTail(row))))))
  }

  const OPEN: string := "<untrusted_message>"
  const CLOSE: string := "</untrusted_message>"

  function Envelope(row: Row): Text {
    Lit(OPEN) + Neutralize(Json(row)) + Lit(CLOSE)
  }

  // ---- Lengths ---------------------------------------------------------------------------------------

  lemma {:induction false} NeutralizeConcat(s: Text, t: Text)
    ensures Neutralize(s + t) == Neutralize(s) + Neutralize(t)
  {
    if s == [] {
      assert s + t == t;
    } else {
      assert (s + t)[1..] == s[1..] + t;
      NeutralizeConcat(s[1..], t);
    }
  }

  /** Dropping the last characters of a string shortens its serialization by at least as many. */
  lemma {:induction false} ShorterChars(t: Text, n: nat)
    requires n <= |t|
    ensures |Neutralize(JsonChars(t[..n]))| + |t| - n <= |Neutralize(JsonChars(t))|
    decreases |t|
  {
    if n == 0 {
      LengthAtLeast(t);
    } else {
      assert t[..n][0] == t[0] && t[..n][1..] == t[1..][..n - 1];
      ShorterChars(t[1..], n - 1);
      NeutralizeConcat(JsonChar(t[0]), JsonChars(t[1..]));
      NeutralizeConcat(JsonChar(t[0]), JsonChars(t[1..][..n - 1]));
    }
  }

  lemma {:induction false} LengthAtLeast(t: Text)
    ensures |Neutralize(JsonChars(t))| >= |t|
  {
    if t != [] {
      LengthAtLeast(t[1..]);
      NeutralizeConcat(JsonChar(t[0]), JsonChars(t[1..]));
    }
  }

  lemma FieldLength(name: string, value: Text, rest: Text)
    ensures |Neutralize(Field(name, value, rest))| ==
            |Neutralize(Lit(name))| + |Neutralize(JsonString(value))| + |Neutralize(rest)|
  {
    NeutralizeConcat(Lit(name) + JsonString(value), rest);
    NeutralizeConcat(Lit(name), JsonString(value));
  }

  lemma ShorterString(t: Text, n: nat)
    requires n <= |t|
    ensures |Neutralize(JsonString(t[..n]))| + |t| - n <= |Neutralize(JsonString(t))|
  {
    ShorterChars(t, n);
    NeutralizeConcat([QUOTE] + JsonChars(t), [QUOTE]);
    NeutralizeConcat([QUOTE], JsonChars(t));
    NeutralizeConcat([QUOTE] + JsonChars(t[..n]), [QUOTE]);
    NeutralizeConcat([QUOTE], JsonChars(t[..n]));
  }

  /** Dropping the last characters of a row's text saves at least as many in its envelope. */
  lemma ShorterEnvelope(row: Row, n: nat)
    requires n <= |row.text|
    ensures |Envelope(row.(text := row.text[..n]))| + |row.text| - n <= |Envelope(row)|
  {
    var tail, saved := JsonTail(row), |row.text| - n;
    ShorterString(row.text, n);
    FieldLength(",\"text\":", row.text, tail);
    FieldLength(",\"text\":", row.text[..n], tail);
    var long, short := Field(",\"text\":", row.text, tail), Field(",\"text\":", row.text[..n], tail);
    long, short := Prepend(",\"kind\":", row.kind, long, short, saved);
    long, short := Prepend(",\"sender\":", row.sender, long, short, saved);
    long, short := Prepend(",\"at\":", row.at, long, short, saved);
    long, short := Prepend("{\"id\":", row.id, long, short, saved);
  }

  /** A longer tail makes a longer envelope. */
  lemma LongerTail(a: Row, b: Row)
    requires a.id == b.id && a.at == b.at && a.sender == b.sender && a.kind == b.kind && a.text == b.text
    requires |Neutralize(JsonTail(a))| <= |Neutralize(JsonTail(b))|
    ensures |Envelope(a)| <= |Envelope(b)|
  {
    var long, short := Prepend(",\"text\":", a.text, JsonTail(b), JsonTail(a), 0);
    long, short := Prepend(",\"kind\":", a.kind, long, short, 0);
    long, short := Prepend(",\"sender\":", a.sender, long, short, 0);
    long, short := Prepend(",\"at\":", a.at, long, short, 0);
    long, short := Prepend("{\"id\":", a.id, long, short, 0);
  }

  lemma Prepend(name: string, value: Text, long: Text, short: Text, saved: nat) returns (longer: Text, shorter: Text)
    requires |Neutralize(short)| + saved <= |Neutralize(long)|
    ensures longer == Field(name, value, long) && shorter == Field(name, value, short)
    ensures |Neutralize(shorter)| + saved <= |Neutralize(longer)|
  {
    longer, shorter := Field(name, value, long), Field(name, value, short);
    FieldLength(name, value, long);
    FieldLength(name, value, short);
  }

  // ---- Reading a row back ----------------------------------------------------------------------------

  /** The character a neutralized JSON string's next element stands for, and how long that element is. */
  function NextChar(t: Text): (r: (Scalar, nat))
    requires t != []
  {
    if t[0] != BACKSLASH then (t[0], 1)
    else if |t| >= 6 && t[1] == 0x75 then
      (0x1000 * Unhex(t[2]) + 0x100 * Unhex(t[3]) + 16 * Unhex(t[4]) + Unhex(t[5]), 6)
    else if |t| >= 2 then
      (match t[1] case 0x62 => 8 case 0x74 => 9 case 0x6e => 10 case 0x66 => 12 case 0x72 => 13 case c => c, 2)
    else (0, 1)
  }

  lemma HexReadsBack(n: nat)
    requires n < 16
    ensures Unhex(Hex(n)) == n
  {
  }

  lemma DigitsOf(c: nat)
    ensures 0x1000 * (c / 0x1000) + 0x100 * (c / 0x100 % 16) + 16 * (c / 16 % 16) + c % 16 == c
  {
    assert c / 16 / 16 == c / 0x100;
    assert c / 0x100 / 16 == c / 0x1000;
  }

  lemma NumberedReadsBack(c: nat, rest: Text)
    requires c < 0x1_0000
    ensures NextChar(Numbered(c) + rest) == (c, 6)
  {
    HexReadsBack(c / 0x1000);
    HexReadsBack(c / 0x100 % 16);
    HexReadsBack(c / 16 % 16);
    HexReadsBack(c % 16);
    DigitsOf(c);
    var t := Numbered(c) + rest;
    assert t[..6] == Numbered(c);
    assert t[0] == BACKSLASH && t[1] == 0x75 && t[2] == Hex(c / 0x1000) && t[3] == Hex(c / 0x100 % 16);
    assert t[4] == Hex(c / 16 % 16) && t[5] == Hex(c % 16);
  }

  function SafeChar(c: Scalar): Text { Neutralize(JsonChar(c)) }

  /** Each escaped character reads back, and none begins like the closing quote. */
  lemma SafeCharReadsBack(c: Scalar, rest: Text)
    ensures SafeChar(c) != [] && SafeChar(c)[0] != QUOTE
    ensures NextChar(SafeChar(c) + rest) == (c, |SafeChar(c)|)
  {
    if ShortEscape(c) != 0 {
      PlainStays([BACKSLASH, ShortEscape(c)]);
    } else if c < 0x20 || 0xd800 <= c < 0xe000 {
      NumberedIsPlain(c);
      NumberedReadsBack(c, rest);
    } else if Marks(c) {
      NumberedReadsBack(c, rest);
      assert [c][1..] == [] && Numbered(c) + [] == Numbered(c);
    } else {
      PlainStays([c]);
    }
  }

  lemma NumberedIsPlain(c: nat)
    requires c < 0x1_0000
    ensures Neutralize(Numbered(c)) == Numbered(c)
  {
    PlainStays(Numbered(c));
  }

  lemma {:induction false} PlainStays(t: Text)
    requires forall i :: 0 <= i < |t| ==> !Marks(t[i])
    ensures Neutralize(t) == t
  {
    if t != [] {
      PlainStays(t[1..]);
      assert t == [t[0]] + t[1..];
    }
  }

  // ---- A serialized row tells the row ----------------------------------------------------------------

  /** The safe characters of a text, and what follows them. */
  function SafeChars(t: Text, rest: Text): Text {
    if t == [] then rest else SafeChar(t[0]) + SafeChars(t[1..], rest)
  }

  lemma {:induction false} SafeCharsAre(t: Text, rest: Text)
    ensures Neutralize(JsonChars(t)) + rest == SafeChars(t, rest)
  {
    if t == [] {
      assert [] + rest == rest;
    } else {
      SafeCharsAre(t[1..], rest);
      NeutralizeConcat(JsonChar(t[0]), JsonChars(t[1..]));
      Assoc(SafeChar(t[0]), Neutralize(JsonChars(t[1..])), rest);
    }
  }

  lemma Assoc(a: Text, b: Text, c: Text)
    ensures (a + b) + c == a + (b + c)
  {
  }

  lemma {:induction false} CharsTell(a: Text, b: Text, x: Text, y: Text)
    requires SafeChars(a, [QUOTE] + x) == SafeChars(b, [QUOTE] + y)
    ensures a == b && x == y
    decreases |a|
  {
    if a == [] && b == [] {
      Peel([QUOTE], x, y);
    } else if a == [] {
      NotYetClosed(b, [QUOTE] + y, x);
    } else if b == [] {
      NotYetClosed(a, [QUOTE] + x, y);
    } else {
      SameFirst(a[0], b[0], SafeChars(a[1..], [QUOTE] + x), SafeChars(b[1..], [QUOTE] + y));
      CharsTell(a[1..], b[1..], x, y);
      assert a == [a[0]] + a[1..] && b == [b[0]] + b[1..];
    }
  }

  lemma NotYetClosed(t: Text, rest: Text, y: Text)
    requires t != []
    ensures SafeChars(t, rest) != [QUOTE] + y
  {
    SafeCharReadsBack(t[0], []);
    assert SafeChars(t, rest)[0] == SafeChar(t[0])[0];
  }

  lemma SameFirst(a: Scalar, b: Scalar, x: Text, y: Text)
    requires SafeChar(a) + x == SafeChar(b) + y
    ensures a == b && x == y
  {
    SafeCharReadsBack(a, x);
    SafeCharReadsBack(b, y);
    Peel(SafeChar(a), x, y);
  }

  lemma Peel(p: Text, a: Text, b: Text)
    requires p + a == p + b
    ensures a == b
  {
    assert (p + a)[|p|..] == a && (p + b)[|p|..] == b;
  }

  lemma StringShape(value: Text, rest: Text)
    ensures Neutralize(JsonString(value) + rest) == [QUOTE] + SafeChars(value, [QUOTE] + Neutralize(rest))
  {
    assert JsonString(value) + rest == [QUOTE] + (JsonChars(value) + ([QUOTE] + rest));
    NeutralizeConcat([QUOTE], JsonChars(value) + ([QUOTE] + rest));
    NeutralizeConcat(JsonChars(value), [QUOTE] + rest);
    NeutralizeConcat([QUOTE], rest);
    PlainStays([QUOTE]);
    SafeCharsAre(value, [QUOTE] + Neutralize(rest));
  }

  lemma FieldShape(name: string, value: Text, rest: Text)
    ensures Neutralize(Field(name, value, rest)) ==
            Neutralize(Lit(name)) + ([QUOTE] + SafeChars(value, [QUOTE] + Neutralize(rest)))
  {
    Assoc(Lit(name), JsonString(value), rest);
    NeutralizeConcat(Lit(name), JsonString(value) + rest);
    StringShape(value, rest);
  }

  lemma FieldTells(name: string, a: Text, b: Text, x: Text, y: Text)
    requires Neutralize(Field(name, a, x)) == Neutralize(Field(name, b, y))
    ensures a == b && Neutralize(x) == Neutralize(y)
  {
    FieldShape(name, a, x);
    FieldShape(name, b, y);
    var restA, restB := SafeChars(a, [QUOTE] + Neutralize(x)), SafeChars(b, [QUOTE] + Neutralize(y));
    Peel(Neutralize(Lit(name)), [QUOTE] + restA, [QUOTE] + restB);
    Peel([QUOTE], restA, restB);
    CharsTell(a, b, Neutralize(x), Neutralize(y));
  }

  /** Literal text without marks stays as it is. */
  lemma LitShape(s: string, rest: Text)
    requires forall c <- s :: c != '<' && c != '>' && c != '&'
    ensures Neutralize(Lit(s) + rest) == Lit(s) + Neutralize(rest)
  {
    NeutralizeConcat(Lit(s), rest);
    forall i | 0 <= i < |s| ensures !Marks(Lit(s)[i]) {
      assert s[i] in s;
    }
    PlainStays(Lit(s));
  }

  lemma NullShape(name: string, rest: Text)
    ensures Neutralize(Lit(name) + Lit("null") + rest) == Neutralize(Lit(name)) + (Lit("null") + Neutralize(rest))
  {
    assert Lit(name) + Lit("null") + rest == Lit(name) + (Lit("null") + rest);
    NeutralizeConcat(Lit(name), Lit("null") + rest);
    LitShape("null", rest);
  }

  lemma NullIsNoString(name: string, x: Text, b: Text, y: Text)
    ensures Neutralize(Lit(name) + Lit("null") + x) != Neutralize(Field(name, b, y))
  {
    NullShape(name, x);
    FieldShape(name, b, y);
    var p := Neutralize(Lit(name));
    assert Neutralize(Lit(name) + Lit("null") + x)[|p|] == 'n' as int;
    assert Neutralize(Field(name, b, y))[|p|] == QUOTE;
  }

  lemma OptionTells(name: string, a: Option<Text>, b: Option<Text>, x: Text, y: Text)
    requires Neutralize(OptionField(name, a, x)) == Neutralize(OptionField(name, b, y))
    ensures a == b && Neutralize(x) == Neutralize(y)
  {
    match (a, b)
    case (Some(v), Some(w)) => FieldTells(name, v, w, x, y);
    case (Some(v), None) => NullIsNoString(name, y, v, x);
    case (None, Some(w)) => NullIsNoString(name, x, w, y);
    case (None, None) =>
      NullShape(name, x);
      NullShape(name, y);
      Peel(Neutralize(Lit(name)), Lit("null") + Neutralize(x), Lit("null") + Neutralize(y));
      Peel(Lit("null"), Neutralize(x), Neutralize(y));
  }

  lemma MediaTells(a: Option<Media>, b: Option<Media>, x: Text, y: Text)
    requires Neutralize(MediaValue(a, x)) == Neutralize(MediaValue(b, y))
    ensures a == b && Neutralize(x) == Neutralize(y)
  {
    match (a, b)
    case (None, None) =>
      LitShape("null", x);
      LitShape("null", y);
      Peel(Lit("null"), Neutralize(x), Neutralize(y));
    case (Some(m), None) => NullIsNoObject(m, x, y);
    case (None, Some(m)) => NullIsNoObject(m, y, x);
    case (Some(m), Some(n)) =>
      var endX, endY := Lit("}") + x, Lit("}") + y;
      var fileX, fileY := OptionField(",\"fileName\":", m.fileName, endX), OptionField(",\"fileName\":", n.fileName, endY);
      FieldTells("{\"status\":", m.status, n.status,
                 OptionField(",\"mime\":", m.mime, fileX), OptionField(",\"mime\":", n.mime, fileY));
      OptionTells(",\"mime\":", m.mime, n.mime, fileX, fileY);
      OptionTells(",\"fileName\":", m.fileName, n.fileName, endX, endY);
      LitShape("}", x);
      LitShape("}", y);
      Peel(Lit("}"), Neutralize(x), Neutralize(y));
  }

  lemma NullIsNoObject(m: Media, x: Text, y: Text)
    ensures Neutralize(MediaValue(Some(m), x)) != Neutralize(MediaValue(None, y))
  {
    var rest := OptionField(",\"mime\":", m.mime, OptionField(",\"fileName\":", m.fileName, Lit("}") + x));
    Assoc(Lit("{\"status\":"), JsonString(m.status), rest);
    LitShape("{\"status\":", JsonString(m.status) + rest);
    LitShape("null", y);
    assert Neutralize(MediaValue(Some(m), x))[0] == '{' as int;
    assert Neutralize(MediaValue(None, y))[0] == 'n' as int;
  }

  lemma AfterShape(mark: Mark)
    ensures Neutralize(Lit(MarkedAfter(mark))) == Lit(MarkedAfter(mark))
  {
    LitShape(MarkedAfter(mark), []);
    assert Lit(MarkedAfter(mark)) + [] == Lit(MarkedAfter(mark));
  }

  lemma TailShape(row: Row)
    ensures Neutralize(JsonTail(row)) ==
            Lit(MarkedBefore(row.mark)) + Neutralize(MediaValue(row.media, Lit(MarkedAfter(row.mark))))
    ensures Neutralize(Lit(MarkedAfter(row.mark))) == Lit(MarkedAfter(row.mark))
  {
    LitShape(MarkedBefore(row.mark), MediaValue(row.media, Lit(MarkedAfter(row.mark))));
    AfterShape(row.mark);
  }

  lemma BeforeTells(a: Mark, b: Mark, x: Text, y: Text)
    requires Lit(MarkedBefore(a)) + x == Lit(MarkedBefore(b)) + y
    ensures a.BeforeMedia? == b.BeforeMedia? && x == y
  {
    var p, q := Lit(MarkedBefore(a)), Lit(MarkedBefore(b));
    assert p[2] == (p + x)[2] == (q + y)[2] == q[2];
    assert MarkedBefore(a)[2] == if a.BeforeMedia? then 't' else 'm';
    assert MarkedBefore(b)[2] == if b.BeforeMedia? then 't' else 'm';
    Peel(p, x, y);
  }

  lemma AfterTells(a: Mark, b: Mark)
    requires Lit(MarkedAfter(a)) == Lit(MarkedAfter(b))
    ensures a.AfterMedia? == b.AfterMedia?
  {
    assert |MarkedAfter(a)| == if a.AfterMedia? then 18 else 1;
    assert |MarkedAfter(b)| == if b.AfterMedia? then 18 else 1;
  }

  lemma TailTells(a: Row, b: Row)
    requires Neutralize(JsonTail(a)) == Neutralize(JsonTail(b))
    ensures a.mark == b.mark && a.media == b.media
  {
    TailShape(a);
    TailShape(b);
    var endA, endB := Lit(MarkedAfter(a.mark)), Lit(MarkedAfter(b.mark));
    BeforeTells(a.mark, b.mark, Neutralize(MediaValue(a.media, endA)), Neutralize(MediaValue(b.media, endB)));
    MediaTells(a.media, b.media, endA, endB);
    AfterTells(a.mark, b.mark);
  }

  /** Two rows never serialize alike, whatever their senders wrote. */
  lemma JsonTells(a: Row, b: Row)
    requires Neutralize(Json(a)) == Neutralize(Json(b))
    ensures a == b
  {
    var textA, textB := Field(",\"text\":", a.text, JsonTail(a)), Field(",\"text\":", b.text, JsonTail(b));
    var kindA, kindB := Field(",\"kind\":", a.kind, textA), Field(",\"kind\":", b.kind, textB);
    var senderA, senderB := Field(",\"sender\":", a.sender, kindA), Field(",\"sender\":", b.sender, kindB);
    var atA, atB := Field(",\"at\":", a.at, senderA), Field(",\"at\":", b.at, senderB);
    FieldTells("{\"id\":", a.id, b.id, atA, atB);
    FieldTells(",\"at\":", a.at, b.at, senderA, senderB);
    FieldTells(",\"sender\":", a.sender, b.sender, kindA, kindB);
    FieldTells(",\"kind\":", a.kind, b.kind, textA, textB);
    FieldTells(",\"text\":", a.text, b.text, JsonTail(a), JsonTail(b));
    TailTells(a, b);
  }

  // ---- The prompt tells its rows ---------------------------------------------------------------------

  const LESS: Scalar := 0x3c

  lemma StartsInside(t: Text, y: Text)
    requires t != [] && LESS !in t
    ensures (t + y)[0] != LESS
  {
    assert t[0] in t;
  }

  lemma AtBracket(t: Text, x: Text, y: Text)
    requires LESS !in t && t + ([LESS] + y) == [] + ([LESS] + x)
    ensures t == [] && [LESS] + x == [LESS] + y
  {
    assert [] + ([LESS] + x) == [LESS] + x;
    assert ([LESS] + x)[0] == LESS;
    if t != [] {
      StartsInside(t, [LESS] + y);
    } else {
      assert t + ([LESS] + y) == [LESS] + y;
    }
  }

  /** Content ends at its first angle bracket. */
  lemma {:induction false} ContentTells(a: Text, b: Text, x: Text, y: Text)
    requires LESS !in a && LESS !in b && a + ([LESS] + x) == b + ([LESS] + y)
    ensures a == b && x == y
    decreases |a|
  {
    if a == [] {
      AtBracket(b, x, y);
      Peel([LESS], x, y);
    } else if b == [] {
      AtBracket(a, y, x);
      Peel([LESS], x, y);
    } else {
      Assoc([a[0]], a[1..], [LESS] + x);
      Assoc([b[0]], b[1..], [LESS] + y);
      assert a == [a[0]] + a[1..] && b == [b[0]] + b[1..];
      assert (a + ([LESS] + x))[0] == a[0] && (b + ([LESS] + y))[0] == b[0];
      Peel([a[0]], a[1..] + ([LESS] + x), b[1..] + ([LESS] + y));
      assert forall c <- a[1..] :: c in a;
      assert forall c <- b[1..] :: c in b;
      ContentTells(a[1..], b[1..], x, y);
    }
  }

  lemma EnvelopeTells(a: Row, b: Row, x: Text, y: Text)
    requires Envelope(a) + x == Envelope(b) + y
    ensures a == b && x == y
  {
    var close := Lit(CLOSE)[1..];
    assert Lit(CLOSE) == [LESS] + close;
    var safeA, safeB := Neutralize(Json(a)), Neutralize(Json(b));
    EnvelopeShape(a, x, close);
    EnvelopeShape(b, y, close);
    Peel(Lit(OPEN), safeA + ([LESS] + (close + x)), safeB + ([LESS] + (close + y)));
    ContentTells(safeA, safeB, close + x, close + y);
    Peel(close, x, y);
    JsonTells(a, b);
  }

  lemma EnvelopeShape(row: Row, rest: Text, close: Text)
    requires Lit(CLOSE) == [LESS] + close
    ensures Envelope(row) + rest == Lit(OPEN) + (Neutralize(Json(row)) + ([LESS] + (close + rest)))
  {
    var safe := Neutralize(Json(row));
    Assoc(Lit(OPEN) + safe, Lit(CLOSE), rest);
    Assoc([LESS], close, rest);
    Assoc(Lit(OPEN), safe, Lit(CLOSE) + rest);
  }

  /** The envelopes, a line each. */
  function Prompt(rows: seq<Row>): Text
    decreases |rows|, 0
  {
    if rows == [] then [] else Envelope(rows[0]) + NextLines(rows[1..])
  }

  function NextLines(rows: seq<Row>): Text
    decreases |rows|, 1
  {
    if rows == [] then [] else Lit("\n") + Prompt(rows)
  }

  lemma PromptNotEmpty(rows: seq<Row>)
    requires rows != []
    ensures Prompt(rows) != []
  {
    assert |Envelope(rows[0])| >= |Lit(OPEN)|;
  }

  lemma SameParts<T>(a: seq<T>, b: seq<T>)
    requires a != [] && b != [] && a[0] == b[0] && a[1..] == b[1..]
    ensures a == b
  {
    assert a == [a[0]] + a[1..] && b == [b[0]] + b[1..];
  }

  /** A prompt splits back into its rows in one way only: no message can pose as two, or swallow the next. */
  lemma {:induction false} PromptTells(a: seq<Row>, b: seq<Row>)
    requires Prompt(a) == Prompt(b)
    ensures a == b
    decreases |a|, 0
  {
    if a == [] {
      assert b == [] by {
        if b != [] {
          PromptNotEmpty(b);
        }
      }
    } else if b == [] {
      PromptNotEmpty(a);
    } else {
      EnvelopeTells(a[0], b[0], NextLines(a[1..]), NextLines(b[1..]));
      LinesTell(a[1..], b[1..]);
      SameParts(a, b);
    }
  }

  lemma {:induction false} LinesTell(a: seq<Row>, b: seq<Row>)
    requires NextLines(a) == NextLines(b)
    ensures a == b
    decreases |a|, 1
  {
    if a != [] && b != [] {
      Peel(Lit("\n"), Prompt(a), Prompt(b));
      PromptTells(a, b);
    }
  }

  // ---- A marked row is longer ------------------------------------------------------------------------

  lemma OptionThen(name: string, value: Option<Text>, rest: Text, x: Text)
    ensures OptionField(name, value, rest) + x == OptionField(name, value, rest + x)
  {
    if value.None? {
      Assoc(Lit(name) + Lit("null"), rest, x);
    } else {
      Assoc(Lit(name) + JsonString(value.value), rest, x);
    }
  }

  lemma MediaThen(m: Option<Media>, x: Text)
    ensures MediaValue(m, x) == MediaValue(m, []) + x
  {
    match m
    case None =>
      assert Lit("null") + [] == Lit("null");
    case Some(media) =>
      assert Lit("}") + [] == Lit("}");
      var name := OptionField(",\"fileName\":", media.fileName, Lit("}"));
      OptionThen(",\"fileName\":", media.fileName, Lit("}"), x);
      OptionThen(",\"mime\":", media.mime, name, x);
      Assoc(Lit("{\"status\":") + JsonString(media.status), OptionField(",\"mime\":", media.mime, name), x);
  }

  lemma TailLength(row: Row)
    ensures |Neutralize(JsonTail(row))| ==
            |MarkedBefore(row.mark)| + |Neutralize(MediaValue(row.media, []))| + |MarkedAfter(row.mark)|
  {
    TailShape(row);
    MediaThen(row.media, Lit(MarkedAfter(row.mark)));
    NeutralizeConcat(MediaValue(row.media, []), Lit(MarkedAfter(row.mark)));
  }

  /** Setting the mark on a row lengthens its envelope. */
  lemma MarkIsLonger(row: Row, mark: Mark)
    requires row.mark.Unmarked?
    ensures |Envelope(row)| <= |Envelope(row.(mark := mark))|
  {
    TailLength(row);
    TailLength(row.(mark := mark));
    assert |MarkedBefore(Unmarked)| <= |MarkedBefore(mark)|;
    assert |MarkedAfter(Unmarked)| <= |MarkedAfter(mark)|;
    LongerTail(row, row.(mark := mark));
  }

  // ---- What is written, literally --------------------------------------------------------------------

  function HexDigit(n: nat): Scalar
    requires n < 16
  {
    Lit("0123456789abcdef")[n]
  }

  function HexDigits(c: nat): Text
    requires c < 0x1_0000
  {
    [HexDigit(c / 0x1000), HexDigit(c / 0x100 % 0x10), HexDigit(c / 0x10 % 0x10), HexDigit(c % 0x10)]
  }

  /** A character inside a quoted string of an envelope. */
  function WrittenChar(c: Scalar): Text {
    if c == 0x22 then Escaped('"')
    else if c == 0x5c then Escaped('\\')
    else if c == 0x08 then Escaped('b')
    else if c == 0x09 then Escaped('t')
    else if c == 0x0a then Escaped('n')
    else if c == 0x0c then Escaped('f')
    else if c == 0x0d then Escaped('r')
    else if c < 0x20 || 0xd800 <= c <= 0xdfff || c == '<' as int || c == '>' as int || c == '&' as int
    then Escaped('u') + HexDigits(c)
    else [c]
  }

  /** A backslash and a letter. */
  function Escaped(letter: char): Text
    requires letter < '\U{80}'
  {
    ['\\' as int, letter as int]
  }

  function WrittenChars(t: Text): Text {
    if t == [] then [] else WrittenChar(t[0]) + WrittenChars(t[1..])
  }

  function Written(t: Text): Text {
    Lit("\"") + WrittenChars(t) + Lit("\"")
  }

  function WrittenOption(t: Option<Text>): Text {
    match t case None => Lit("null") case Some(value) => Written(value)
  }

  lemma HexIsDigit(n: nat)
    requires n < 16
    ensures Hex(n) == HexDigit(n)
  {
    var digits := "0123456789abcdef";
    assert digits[n] as int == if n < 10 then 0x30 + n else 0x61 + (n - 10);
  }

  lemma HexDigitsAre(c: nat)
    requires c < 0x1_0000
    ensures Numbered(c) == Escaped('u') + HexDigits(c)
  {
    HexIsDigit(c % 16);
    HexIsDigit(c / 16 % 16);
    HexIsDigit(c / 0x100 % 16);
    HexIsDigit(c / 0x1000);
  }

  lemma WrittenShort(c: Scalar)
    requires ShortEscape(c) != 0
    ensures SafeChar(c) == WrittenChar(c)
  {
    PlainStays([BACKSLASH, ShortEscape(c)]);
  }

  lemma WrittenNumber(c: Scalar)
    requires ShortEscape(c) == 0 && (c < 0x20 || 0xd800 <= c < 0xe000 || Marks(c))
    ensures SafeChar(c) == Escaped('u') + HexDigits(c)
  {
    HexDigitsAre(c);
    if Marks(c) {
      assert [c][1..] == [] && Numbered(c) + [] == Numbered(c);
    } else {
      NumberedIsPlain(c);
    }
  }

  lemma WrittenCharIs(c: Scalar)
    ensures SafeChar(c) == WrittenChar(c)
  {
    if ShortEscape(c) != 0 {
      WrittenShort(c);
    } else if c < 0x20 || 0xd800 <= c < 0xe000 || Marks(c) {
      WrittenNumber(c);
    } else {
      PlainStays([c]);
    }
  }

  lemma {:induction false} WrittenCharsAre(t: Text, rest: Text)
    ensures SafeChars(t, rest) == WrittenChars(t) + rest
  {
    if t != [] {
      WrittenCharIs(t[0]);
      WrittenCharsAre(t[1..], rest);
      Assoc(WrittenChar(t[0]), WrittenChars(t[1..]), rest);
    }
  }

  lemma WrittenIs(value: Text, rest: Text)
    ensures [QUOTE] + SafeChars(value, [QUOTE] + rest) == Written(value) + rest
  {
    WrittenCharsAre(value, [QUOTE] + rest);
    Assoc([QUOTE], WrittenChars(value), [QUOTE] + rest);
    Assoc([QUOTE] + WrittenChars(value), [QUOTE], rest);
    assert Lit("\"") == [QUOTE];
  }

  lemma FieldForm(name: string, value: Text, rest: Text)
    requires forall c <- name :: c != '<' && c != '>' && c != '&'
    ensures Neutralize(Field(name, value, rest)) == Lit(name) + (Written(value) + Neutralize(rest))
  {
    FieldShape(name, value, rest);
    WrittenIs(value, Neutralize(rest));
    LitShape(name, []);
    assert Lit(name) + [] == Lit(name);
  }

  lemma OptionForm(name: string, value: Option<Text>, rest: Text)
    requires forall c <- name :: c != '<' && c != '>' && c != '&'
    ensures Neutralize(OptionField(name, value, rest)) == Lit(name) + (WrittenOption(value) + Neutralize(rest))
  {
    match value
    case Some(v) => FieldForm(name, v, rest);
    case None =>
      NullShape(name, rest);
      LitShape(name, []);
      assert Lit(name) + [] == Lit(name);
  }

  function WrittenMedia(media: Option<Media>, rest: Text): Text {
    match media
    case None => Lit("null") + rest
    case Some(m) =>
      Lit("{\"status\":") + (Written(m.status) + (Lit(",\"mime\":") + (WrittenOption(m.mime) +
      (Lit(",\"fileName\":") + (WrittenOption(m.fileName) + (Lit("}") + rest))))))
  }

  lemma MediaForm(media: Option<Media>, rest: Text)
    ensures Neutralize(MediaValue(media, rest)) == WrittenMedia(media, Neutralize(rest))
  {
    match media
    case None => LitShape("null", rest);
    case Some(m) =>
      var end := Lit("}") + rest;
      var file := OptionField(",\"fileName\":", m.fileName, end);
      FieldForm("{\"status\":", m.status, OptionField(",\"mime\":", m.mime, file));
      OptionForm(",\"mime\":", m.mime, file);
      OptionForm(",\"fileName\":", m.fileName, end);
      LitShape("}", rest);
  }

  /** What follows a row's text: the mark if it was set at once, the media, and the mark if it was set later. */
  function WrittenTail(row: Row): Text {
    match row.mark
    case Unmarked => Lit(",\"media\":") + WrittenMedia(row.media, Lit("}"))
    case BeforeMedia => Lit(",\"truncated\":true,\"media\":") + WrittenMedia(row.media, Lit("}"))
    case AfterMedia => Lit(",\"media\":") + WrittenMedia(row.media, Lit(",\"truncated\":true}"))
  }

  function WrittenText(row: Row): Text {
    Lit(",\"kind\":") + (Written(row.kind) + (Lit(",\"text\":") + (Written(row.text) + WrittenTail(row))))
  }

  lemma TextForm(row: Row)
    ensures Neutralize(Field(",\"kind\":", row.kind, Field(",\"text\":", row.text, JsonTail(row)))) == WrittenText(row)
  {
    FieldForm(",\"kind\":", row.kind, Field(",\"text\":", row.text, JsonTail(row)));
    FieldForm(",\"text\":", row.text, JsonTail(row));
    TailShape(row);
    MediaForm(row.media, Lit(MarkedAfter(row.mark)));
  }

  /** An envelope, part by part. */
  lemma EnvelopeForm(row: Row)
    ensures Envelope(row) ==
            Lit("<untrusted_message>") +
            (Lit("{\"id\":") + (Written(row.id) + (Lit(",\"at\":") + (Written(row.at) +
            (Lit(",\"sender\":") + (Written(row.sender) + WrittenText(row)))))))
            + Lit("</untrusted_message>")
  {
    var kind := Field(",\"kind\":", row.kind, Field(",\"text\":", row.text, JsonTail(row)));
    var sender := Field(",\"sender\":", row.sender, kind);
    var at := Field(",\"at\":", row.at, sender);
    FieldForm("{\"id\":", row.id, at);
    FieldForm(",\"at\":", row.at, sender);
    FieldForm(",\"sender\":", row.sender, kind);
    TextForm(row);
  }

  lemma NewLine()
    ensures Lit("\n") == [10]
  {
  }

  lemma LinesAre(rows: seq<Row>)
    ensures NextLines(rows) == if rows == [] then [] else [10] + Prompt(rows)
  {
    NewLine();
  }

  lemma FirstLine(rows: seq<Row>)
    requires rows != []
    ensures Prompt(rows) == Envelope(rows[0]) + NextLines(rows[1..])
  {
  }

  /** Texts with a line break between any two. */
  function JoinLines(texts: seq<Text>): Text {
    if texts == [] then [] else if |texts| == 1 then texts[0] else JoinLines(texts[..|texts| - 1]) + ([10] + texts[|texts| - 1])
  }

  lemma {:induction false} JoinFront(texts: seq<Text>)
    requires |texts| > 1
    ensures JoinLines(texts) == texts[0] + ([10] + JoinLines(texts[1..]))
    decreases |texts|
  {
    var n := |texts| - 1;
    var front, last := texts[..n], [10] + texts[n];
    if n == 1 {
      assert JoinLines(front) == texts[0] && texts[1..] == [texts[1]];
    } else {
      JoinFront(front);
      assert front[1..] == texts[1..][..n - 1];
      Assoc(texts[0], [10] + JoinLines(front[1..]), last);
      Assoc([10], JoinLines(front[1..]), last);
    }
  }

  lemma JoinRest(texts: seq<Text>, lines: Text)
    requires texts != [] && lines == if |texts| == 1 then [] else [10] + JoinLines(texts[1..])
    ensures texts[0] + lines == JoinLines(texts)
  {
    if |texts| == 1 {
      assert texts[0] + [] == texts[0];
    } else {
      JoinFront(texts);
    }
  }

  /** A prompt is its envelopes with a line break between any two. */
  lemma {:induction false} PromptJoins(rows: seq<Row>, texts: seq<Text>)
    requires |texts| == |rows| && forall i :: 0 <= i < |rows| ==> texts[i] == Envelope(rows[i])
    ensures Prompt(rows) == JoinLines(texts)
    decreases |rows|
  {
    if rows != [] {
      FirstLine(rows);
      LinesAre(rows[1..]);
      PromptJoins(rows[1..], texts[1..]);
      JoinRest(texts, NextLines(rows[1..]));
    }
  }
}
