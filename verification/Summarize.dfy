/** The budgeted prompt of a memory batch: its messages quoted in order until the budget is spent. */
module Summarize {
  import opened Envelopes
  import opened Wrappers

  const MAX_MESSAGE: nat := 2000
  const MAX_BATCH: nat := 80000

  datatype SourceMedia = SourceMedia(status: Option<Text>, mime: Option<Text>, fileName: Option<Text>)

  /** `at` is the timestamp as `toISOString` writes it. */
  datatype Message = Message(id: Text, at: Text, sender: Text, kind: Text, text: Option<Text>, media: Option<SourceMedia>)

  function MediaMetadata(m: Option<SourceMedia>): Option<Media> {
    if m.None? then None
    else Some(Media(if m.value.status.Some? then m.value.status.value else Lit("unavailable"), m.value.mime, m.value.fileName))
  }

  function TextOf(m: Message): Text {
    if m.text.Some? then m.text.value else []
  }

  function Min(a: nat, b: nat): nat { if a <= b then a else b }

  /** The row first tried: its text is cut at the per-message cap or at what is left of the budget. */
  function FirstRow(m: Message, remaining: nat): Row {
    var text, cap := TextOf(m), Min(MAX_MESSAGE, remaining);
    if |text| > cap
    then Row(m.id, m.at, m.sender, m.kind, text[..cap], BeforeMedia, MediaMetadata(m.media))
    else Row(m.id, m.at, m.sender, m.kind, text, Unmarked, MediaMetadata(m.media))
  }

  function Marked(row: Row): Row {
    if row.mark.Unmarked? then row.(mark := AfterMedia) else row
  }

  /** A row whose envelope is too long loses as many characters of text as its marked envelope has in excess. */
  function Shrunk(size: Row -> nat, row: Row, separator: nat, remaining: nat): Row {
    var marked := Marked(row);
    var excess := size(marked) + separator - remaining;
    if excess <= 0 then marked
    else marked.(text := marked.text[..if |marked.text| < excess then 0 else |marked.text| - excess])
  }

  predicate Fits(size: Row -> nat, row: Row, separator: nat, remaining: nat) {
    size(row) + separator <= remaining
  }

  function Candidate(size: Row -> nat, m: Message, separator: nat, remaining: nat): Row {
    var first := FirstRow(m, remaining);
    if Fits(size, first, separator, remaining) then first else Shrunk(size, first, separator, remaining)
  }

  /** The least a message can be quoted with: no text, and the mark that says so. */
  function Minimal(m: Message, remaining: nat): Row {
    Marked(FirstRow(m, remaining)).(text := [])
  }

  function Separator(started: bool): nat { if started then 1 else 0 }

  /** The rows that fit in order, and what they leave of the budget. `size` is the length of a row's envelope. */
  function Select(size: Row -> nat, messages: seq<Message>, remaining: nat, started: bool): (seq<Row>, nat) {
    if messages == [] || remaining == 0 then ([], remaining)
    else
      var separator := Separator(started);
      var row := Candidate(size, messages[0], separator, remaining);
      if !Fits(size, row, separator, remaining) then ([], remaining)
      else
        var (rows, left) := Select(size, messages[1..], remaining - size(row) - separator, true);
        ([row] + rows, left)
  }

  /** One turn of the source's loop: the row it tries for a message. */
  method TryRow(size: Row -> nat, m: Message, separator: nat, remaining: nat) returns (row: Row)
    ensures row == Candidate(size, m, separator, remaining)
  {
    row := FirstRow(m, remaining);
    var excess := size(row) + separator - remaining;
    if excess > 0 {
      row := if row.mark.Unmarked? then row.(mark := AfterMedia) else row;
      var markerExcess := size(row) + separator - remaining;
      var kept := |row.text| - markerExcess;
      if markerExcess > 0 {
        row := row.(text := row.text[..if kept < 0 then 0 else kept]);
      }
    }
  }

  /** One turn of the loop adds the row it tried, if that fits, and then goes on. */
  lemma SelectTurn(size: Row -> nat, rows: seq<Row>, messages: seq<Message>, i: nat, remaining: nat)
    requires i < |messages| && remaining > 0
    ensures var started := rows != [];
            var row := Candidate(size, messages[i], Separator(started), remaining);
            rows + Select(size, messages[i..], remaining, started).0 ==
            if !Fits(size, row, Separator(started), remaining) then rows
            else (rows + [row]) + Select(size, messages[i + 1..], remaining - size(row) - Separator(started), true).0
  {
    assert messages[i..][0] == messages[i] && messages[i..][1..] == messages[i + 1..];
  }

  method SelectRows(size: Row -> nat, messages: seq<Message>, budget: nat) returns (rows: seq<Row>)
    ensures rows == Select(size, messages, budget, false).0
  {
    rows := [];
    var remaining: nat := budget;
    for i := 0 to |messages|
      invariant rows + Select(size, messages[i..], remaining, rows != []).0 == Select(size, messages, budget, false).0
    {
      if remaining <= 0 {
        return;
      }
      var separator := if |rows| == 0 then 0 else 1;
      var row := TryRow(size, messages[i], separator, remaining);
      SelectTurn(size, rows, messages, i, remaining);
      if size(row) + separator > remaining {
        return;
      }
      rows := rows + [row];
      remaining := remaining - size(row) - separator;
    }
  }

  function Size(row: Row): nat { |Envelope(row)| }

  method BuildMemoryEnvelopes(messages: seq<Message>) returns (rows: seq<Row>, prompt: Text)
    ensures rows == Select(Size, messages, 80000, false).0
    ensures prompt == Prompt(rows)
  {
    rows := SelectRows(Size, messages, MAX_BATCH);
    prompt := Prompt(rows);
  }

  // ---- The budget ------------------------------------------------------------------------------------

  /** The length of a prompt, or of its further lines. */
  function Length(size: Row -> nat, rows: seq<Row>, started: bool): nat {
    if rows == [] then 0 else Separator(started) + size(rows[0]) + Length(size, rows[1..], true)
  }

  lemma {:induction false} LengthFits(size: Row -> nat, messages: seq<Message>, remaining: nat, started: bool)
    ensures var (rows, left) := Select(size, messages, remaining, started); Length(size, rows, started) + left == remaining
    decreases |messages|
  {
    if messages != [] && remaining != 0 {
      var separator := Separator(started);
      var row := Candidate(size, messages[0], separator, remaining);
      if Fits(size, row, separator, remaining) {
        var later := remaining - size(row) - separator;
        LengthFits(size, messages[1..], later, true);
        var rest := Select(size, messages[1..], later, true).0;
        assert ([row] + rest)[1..] == rest;
      }
    }
  }

  lemma {:induction false} PromptLength(rows: seq<Row>)
    ensures |Prompt(rows)| == Length(Size, rows, false) && |NextLines(rows)| == Length(Size, rows, true)
  {
    if rows != [] {
      PromptLength(rows[1..]);
    }
  }

  /** The prompt and what is left make up the budget, so the prompt never exceeds it. */
  lemma PromptFits(messages: seq<Message>)
    ensures var (rows, left) := Select(Size, messages, 80000, false); |Prompt(rows)| + left == 80000
  {
    LengthFits(Size, messages, MAX_BATCH, false);
    PromptLength(Select(Size, messages, MAX_BATCH, false).0);
  }

  // ---- Which messages are quoted ---------------------------------------------------------------------

  /** What is needed of a size: a mark adds to it, and a character of text taken away saves at least one. */
  ghost predicate IsSize(size: Row -> nat) {
    && (forall row :: size(row) <= size(Marked(row)))
    && (forall row: Row, n :: 0 <= n <= |row.text| ==> size(Prefixed(row, n)) + |row.text| - n <= size(row))
  }

  function Prefixed(row: Row, n: nat): Row
    requires n <= |row.text|
  {
    row.(text := row.text[..n])
  }

  lemma EnvelopeSize()
    ensures IsSize(Size)
  {
    forall row ensures Size(row) <= Size(Marked(row)) {
      if row.mark.Unmarked? {
        MarkIsLonger(row, AfterMedia);
      }
    }
    forall row: Row, n | 0 <= n <= |row.text| ensures Size(Prefixed(row, n)) + |row.text| - n <= Size(row) {
      ShorterEnvelope(row, n);
    }
  }

  /**
   The row quotes the message: its own fields, and at most 2000 characters of its text, marked exactly when they are
   not the whole. A message without a text has an empty one.
   */
  predicate Quotes(row: Row, m: Message) {
    && row.id == m.id && row.at == m.at && row.sender == m.sender && row.kind == m.kind
    && QuotesMedia(row.media, m.media)
    && |row.text| <= 2000
    && match m.text
       case None => row.text == [] && row.mark == Unmarked
       case Some(text) => row.text <= text && (row.mark == Unmarked <==> row.text == text)
  }

  /** The media's own type and name, and its status or that it is unavailable. */
  predicate QuotesMedia(quoted: Option<Media>, media: Option<SourceMedia>) {
    match media
    case None => quoted == None
    case Some(m) =>
      && quoted.Some? && quoted.value.mime == m.mime && quoted.value.fileName == m.fileName
      && quoted.value.status == match m.status case Some(status) => status case None => Lit("unavailable")
  }

  /**
   The row first tried holds as much of the text as 2000 characters and what is left of the budget allow, and says
   before the media when that is not all.
   */
  lemma FirstRowCuts(m: Message, remaining: nat)
    requires m.text.Some?
    ensures var (text, row) := (m.text.value, FirstRow(m, remaining));
            && row.text <= text
            && (row.mark == Unmarked <==> row.text == text) && (row.mark == BeforeMedia <==> row.text != text)
            && |row.text| <= 2000 && |row.text| <= remaining
            && (|row.text| == |text| || |row.text| == 2000 || |row.text| == remaining)
  {
  }

  lemma CandidateQuotes(size: Row -> nat, m: Message, separator: nat, remaining: nat)
    requires IsSize(size) && remaining > 0 && Fits(size, Candidate(size, m, separator, remaining), separator, remaining)
    ensures Quotes(Candidate(size, m, separator, remaining), m)
  {
    var first := FirstRow(m, remaining);
    assert size(first) <= size(Marked(first));
  }

  /** A message is quoted exactly when its first row fits, or at least its minimal one. */
  lemma CandidateFits(size: Row -> nat, m: Message, separator: nat, remaining: nat)
    requires IsSize(size) && remaining > 0
    ensures Fits(size, Candidate(size, m, separator, remaining), separator, remaining) <==>
            Fits(size, FirstRow(m, remaining), separator, remaining) || Fits(size, Minimal(m, remaining), separator, remaining)
  {
    var first := FirstRow(m, remaining);
    if !Fits(size, first, separator, remaining) {
      var marked := Marked(first);
      assert size(first) <= size(marked);
      var kept := |marked.text| - (size(marked) + separator - remaining);
      assert Minimal(m, remaining) == Prefixed(marked, 0);
      if kept >= 0 {
        assert Shrunk(size, first, separator, remaining) == Prefixed(marked, kept);
        assert Prefixed(Prefixed(marked, kept), 0) == Prefixed(marked, 0);
      }
    }
  }

  /** Every row quotes its message, in order, from the first message on. */
  lemma {:induction false} RowsQuote(size: Row -> nat, messages: seq<Message>, remaining: nat, started: bool)
    requires IsSize(size)
    ensures var rows := Select(size, messages, remaining, started).0;
            |rows| <= |messages| && forall i :: 0 <= i < |rows| ==> Quotes(rows[i], messages[i])
    decreases |messages|
  {
    if messages != [] && remaining != 0 {
      var separator := Separator(started);
      var row := Candidate(size, messages[0], separator, remaining);
      if Fits(size, row, separator, remaining) {
        var later := remaining - size(row) - separator;
        CandidateQuotes(size, messages[0], separator, remaining);
        RowsQuote(size, messages[1..], later, true);
        assert Select(size, messages, remaining, started).0 == [row] + Select(size, messages[1..], later, true).0;
      }
    }
  }

  /** A message that cannot be quoted, even with an empty text and the mark, in what is left of the budget. */
  predicate Unquotable(size: Row -> nat, m: Message, separator: nat, left: nat) {
    !Fits(size, FirstRow(m, left), separator, left) && !Fits(size, Minimal(m, left), separator, left)
  }

  /** Nothing is left out while it could be quoted: the first message without a row is unquotable, or the budget is spent. */
  lemma {:induction false} FirstOmitted(size: Row -> nat, messages: seq<Message>, remaining: nat, started: bool)
    requires IsSize(size)
    ensures var (rows, left) := Select(size, messages, remaining, started);
            |rows| < |messages| ==>
              left == 0 || Unquotable(size, messages[|rows|], Separator(started || rows != []), left)
    decreases |messages|
  {
    if messages != [] && remaining != 0 {
      var separator := Separator(started);
      var row := Candidate(size, messages[0], separator, remaining);
      CandidateFits(size, messages[0], separator, remaining);
      if Fits(size, row, separator, remaining) {
        FirstOmitted(size, messages[1..], remaining - size(row) - separator, true);
      }
    }
  }

  /** What the prompt of a batch holds, all at once. */
  lemma BatchPrompt(messages: seq<Message>)
    ensures var (rows, left) := Select(Size, messages, 80000, false);
            && |Prompt(rows)| + left == 80000
            && |rows| <= |messages| && (forall i :: 0 <= i < |rows| ==> Quotes(rows[i], messages[i]))
            && (|rows| < |messages| ==> left == 0 || Unquotable(Size, messages[|rows|], Separator(rows != []), left))
            && (forall others :: Prompt(others) == Prompt(rows) ==> others == rows)
  {
    PromptFits(messages);
    EnvelopeSize();
    RowsQuote(Size, messages, MAX_BATCH, false);
    FirstOmitted(Size, messages, MAX_BATCH, false);
    OthersDiffer(Select(Size, messages, MAX_BATCH, false).0);
  }

  lemma OthersDiffer(rows: seq<Row>)
    ensures forall others :: Prompt(others) == Prompt(rows) ==> others == rows
  {
    forall others | Prompt(others) == Prompt(rows) ensures others == rows {
      PromptTells(others, rows);
    }
  }
}
