/** The pairing wizard's output comes in chunks: what it answers to them, and to the output as a whole. */
module Chunking {
  import opened Pairing
  import opened Prompts
  import opened Terminal

  function Concat(chunks: seq<string>): string {
    if chunks == [] then "" else Concat(chunks[..|chunks| - 1]) + chunks[|chunks| - 1]
  }

  /** What the accumulator has seen: each chunk cleaned by itself. */
  function Seen(chunks: seq<string>): string {
    if chunks == [] then "" else Seen(chunks[..|chunks| - 1]) + Clean(chunks[|chunks| - 1])
  }

  /** No chunk boundary falls inside an escape. */
  predicate Uncut(chunks: seq<string>) {
    chunks == [] || (Uncut(chunks[..|chunks| - 1]) && !CutsEscape(Concat(chunks[..|chunks| - 1]), chunks[|chunks| - 1]))
  }

  /** Cleaning chunk by chunk gives the cleaned whole exactly when no boundary falls inside an escape. */
  lemma {:induction false} SeenIsWhole(chunks: seq<string>)
    ensures Seen(chunks) == Clean(Concat(chunks)) <==> Uncut(chunks)
    ensures Escapes(Seen(chunks)) >= Escapes(Clean(Concat(chunks)))
    ensures !Uncut(chunks) ==> Escapes(Seen(chunks)) > Escapes(Clean(Concat(chunks)))
    decreases |chunks|
  {
    if chunks != [] {
      var earlier, last := chunks[..|chunks| - 1], chunks[|chunks| - 1];
      SeenIsWhole(earlier);
      CleanInChunks(Concat(earlier), last);
      EscapesAdd(Seen(earlier), Clean(last));
      EscapesAdd(Clean(Concat(earlier)), Clean(last));
    }
  }

  // ---- What a cut escape leaves ----------------------------------------------------------------------

  /** A cut escape, left between the text before it and the text after it. */
  datatype Cut = Cut(before: string, escape: string, after: string)

  /** The escape that the boundary of two chunks cuts, and the rest of them without their escapes. */
  function StripCut(s: string, t: string): Cut
    requires CutsEscape(s, t)
    decreases |s|
  {
    var n := EscapeLength(s + t);
    if n > |s| then Cut("", (s + t)[..n], StripEscapes(t[n - |s|..]))
    else if n > 0 then StripCut(s[n..], t)
    else var cut := StripCut(s[1..], t); cut.(before := [s[0]] + cut.before)
  }

  function CleanCut(s: string, t: string): Cut
    requires CutsEscape(s, t)
  {
    var cut := StripCut(s, t);
    Cut(StripReturns(cut.before), cut.escape, StripReturns(cut.after))
  }

  lemma EscapeIsOne(u: string)
    requires EscapeLength(u) > 0
    ensures IsEscape(u[..EscapeLength(u)])
  {
    var p := Parameters(u[2..]);
    assert u[2..][p] == u[2 + p];
    assert forall i :: 2 <= i < 2 + p ==> u[i] == u[2..][i - 2];
  }

  lemma PlainHead(u: string, s: string, t: string)
    requires u == s + t && s != [] && EscapeLength(u) > |s|
    ensures ESC !in s[1..]
  {
    EscapeBody(u);
    forall i | 1 <= i < |s| ensures s[i] != ESC {
      assert u[1..EscapeLength(u)][i - 1] == s[i];
    }
  }

  lemma StripOneKept(s: string)
    requires s != [] && EscapeLength(s) == 0 && ESC !in s[1..]
    ensures StripEscapes(s) == s
  {
    StripPlain(s[1..]);
    assert s == [s[0]] + s[1..];
  }

  /** A chunk that ends inside an escape keeps what it has of it. */
  lemma KeptHead(s: string, t: string)
    requires s != [] && EscapeLength(s + t) > |s|
    ensures StripEscapes(s) == s
  {
    IncompleteEscape(s, t);
    PlainHead(s + t, s, t);
    StripOneKept(s);
  }

  lemma KeptTail(u: string, s: string, t: string, k: nat)
    requires u == s + t && s != [] && k <= |t| && EscapeLength(u) == |s| + k
    ensures StripEscapes(t) == t[..k] + StripEscapes(t[k..])
  {
    PlainRest(u, s, t, k);
    StripSplit(t, t[..k], t[k..]);
  }

  lemma StripSplit(t: string, head: string, tail: string)
    requires t == head + tail && ESC !in head
    ensures StripEscapes(t) == head + StripEscapes(tail)
  {
    StripAfterPlain(head, tail);
  }

  lemma StripPlain(x: string)
    requires ESC !in x
    ensures StripEscapes(x) == x
  {
    StripAfterPlain(x, "");
    assert x + "" == x;
  }

  lemma CutAcross(s: string, t: string)
    requires s != [] && EscapeLength(s + t) > |s|
    ensures var cut := StripCut(s, t);
            && IsEscape(cut.escape)
            && StripEscapes(s) + StripEscapes(t) == cut.before + cut.escape + cut.after
            && StripEscapes(s + t) == cut.before + cut.after
  {
    var n := EscapeLength(s + t);
    var k := n - |s|;
    EscapeIsOne(s + t);
    KeptHead(s, t);
    KeptTail(s + t, s, t, k);
    CleanRest(s + t, s, t, k);
    CutText(s, t, k, StripEscapes(t[k..]));
  }

  lemma CutText(s: string, t: string, k: nat, after: string)
    requires k <= |t|
    ensures s + (t[..k] + after) == "" + (s + t)[..|s| + k] + after && after == "" + after
  {
    assert (s + t)[..|s| + k] == s + t[..k];
  }

  /** Stripped one by one, two chunks keep the escape their boundary cuts; stripped as a whole, they do not. */
  lemma {:induction false} StripCutParts(s: string, t: string)
    requires CutsEscape(s, t)
    ensures var cut := StripCut(s, t);
            && IsEscape(cut.escape)
            && StripEscapes(s) + StripEscapes(t) == cut.before + cut.escape + cut.after
            && StripEscapes(s + t) == cut.before + cut.after
    decreases |s|
  {
    var n := EscapeLength(s + t);
    if n > |s| {
      CutAcross(s, t);
    } else if n > 0 {
      EscapeInside(s, t);
      Sliced(s, t, n);
      StripCutParts(s[n..], t);
    } else {
      EscapeInside(s, t);
      Sliced(s, t, 1);
      StripCutParts(s[1..], t);
      var cut := StripCut(s[1..], t);
      OneKept(s[0], StripEscapes(s[1..]), StripEscapes(t), StripEscapes(s[1..] + t), cut.before, cut.escape, cut.after);
    }
  }

  lemma Sliced(s: string, t: string, n: nat)
    requires n <= |s|
    ensures (s + t)[n..] == s[n..] + t && (s != [] ==> (s + t)[0] == s[0])
  {
  }

  /** One more character before the cut. */
  lemma OneKept(c: char, a: string, b: string, whole: string, before: string, escape: string, after: string)
    requires a + b == before + escape + after && whole == before + after
    ensures [c] + a + b == [c] + before + escape + after && [c] + whole == [c] + before + after
  {
    assert [c] + a + b == [c] + (a + b);
    assert [c] + before + escape + after == [c] + (before + escape + after);
  }

  lemma Grouped(a: string, b: string, c: string)
    ensures a + b + c == a + (b + c)
  {
  }

  lemma {:induction false} NoReturns(x: string)
    requires '\r' !in x
    ensures StripReturns(x) == x
  {
    if x != [] {
      assert x[0] in x && x == [x[0]] + x[1..];
      NoReturns(x[1..]);
    }
  }

  lemma EscapeHasNoReturn(e: string)
    requires IsEscape(e)
    ensures '\r' !in e
  {
  }

  lemma ReturnsAcross(x: string, y: string, a: string, e: string, b: string)
    requires x + y == a + e + b && '\r' !in e
    ensures StripReturns(x) + StripReturns(y) == StripReturns(a) + e + StripReturns(b)
  {
    ReturnsInChunks(x, y);
    ReturnsInChunks(a + e, b);
    ReturnsInChunks(a, e);
    NoReturns(e);
  }

  lemma CleanCutParts(s: string, t: string)
    requires CutsEscape(s, t)
    ensures var cut := CleanCut(s, t);
            && IsEscape(cut.escape)
            && Clean(s) + Clean(t) == cut.before + cut.escape + cut.after
            && Clean(s + t) == cut.before + cut.after
  {
    StripCutParts(s, t);
    var cut := StripCut(s, t);
    EscapeHasNoReturn(cut.escape);
    ReturnsAcross(StripEscapes(s), StripEscapes(t), cut.before, cut.escape, cut.after);
    ReturnsInChunks(cut.before, cut.after);
  }

  // ---- What the cuts do to the answers ---------------------------------------------------------------

  ghost predicate Harmful(s: string, t: string, later: string) {
    CutsEscape(s, t) && var cut := CleanCut(s, t); !Harmless(cut.before, cut.escape, cut.after + later)
  }

  /** How many cut escapes do harm, when they are taken out of what was seen one after another. `later` follows the chunks. */
  ghost function Harms(chunks: seq<string>, later: string): nat {
    if chunks == [] then 0
    else
      var earlier, last := chunks[..|chunks| - 1], chunks[|chunks| - 1];
      Harms(earlier, Clean(last) + later) + if Harmful(Concat(earlier), last, later) then 1 else 0
  }

  /** Taking out the escape one boundary cuts changes the answers exactly when it does harm. */
  lemma OneBoundary(s: string, t: string, later: string)
    ensures AnswersFor(Clean(s) + (Clean(t) + later)) == AnswersFor(Clean(s + t) + later) <==> !Harmful(s, t, later)
  {
    CleanInChunks(s, t);
    Grouped(Clean(s), Clean(t), later);
    if CutsEscape(s, t) {
      CleanCutParts(s, t);
      var cut := CleanCut(s, t);
      SameAnswers(cut.before, cut.escape, cut.after + later);
      Grouped(cut.before + cut.escape, cut.after, later);
      Grouped(cut.before, cut.after, later);
    }
  }

  /** The answers are those of the whole output when no cut does harm, and are others when one does. */
  lemma {:induction false} HarmsDecide(chunks: seq<string>, later: string)
    ensures Harms(chunks, later) == 0 ==> AnswersFor(Seen(chunks) + later) == AnswersFor(Clean(Concat(chunks)) + later)
    ensures Harms(chunks, later) == 1 ==> AnswersFor(Seen(chunks) + later) != AnswersFor(Clean(Concat(chunks)) + later)
    decreases |chunks|
  {
    if chunks != [] {
      var earlier, last := chunks[..|chunks| - 1], chunks[|chunks| - 1];
      HarmsDecide(earlier, Clean(last) + later);
      OneBoundary(Concat(earlier), last, later);
      Grouped(Seen(earlier), Clean(last), later);
    }
  }

  /** With at most one harmful cut, the wizard answers as it would the whole output exactly when there is none. */
  lemma AnswersAreWhole(chunks: seq<string>)
    requires Harms(chunks, "") <= 1
    ensures AnswersFor(Seen(chunks)) == AnswersFor(Clean(Concat(chunks))) <==> Harms(chunks, "") == 0
  {
    HarmsDecide(chunks, "");
    assert Seen(chunks) + "" == Seen(chunks) && Clean(Concat(chunks)) + "" == Clean(Concat(chunks));
  }

  ghost predicate CutHides(s: string, t: string, later: string) {
    CutsEscape(s, t) && var cut := CleanCut(s, t); Hides(cut.before, cut.escape, cut.after + later)
  }

  ghost predicate CutMakesUp(s: string, t: string, later: string) {
    CutsEscape(s, t) && var cut := CleanCut(s, t); MakesUp(cut.before, cut.escape, cut.after + later)
  }

  /** How many prompts the cut escapes hide, and how many they make up. */
  ghost function Hidden(chunks: seq<string>, later: string): nat {
    if chunks == [] then 0
    else
      var earlier, last := chunks[..|chunks| - 1], chunks[|chunks| - 1];
      Hidden(earlier, Clean(last) + later) + if CutHides(Concat(earlier), last, later) then 1 else 0
  }

  ghost function MadeUp(chunks: seq<string>, later: string): nat {
    if chunks == [] then 0
    else
      var earlier, last := chunks[..|chunks| - 1], chunks[|chunks| - 1];
      MadeUp(earlier, Clean(last) + later) + if CutMakesUp(Concat(earlier), last, later) then 1 else 0
  }

  lemma BoundaryCounts(s: string, t: string, later: string)
    ensures |AnswersFor(Clean(s) + (Clean(t) + later))| + (if CutHides(s, t, later) then 1 else 0) ==
            |AnswersFor(Clean(s + t) + later)| + if CutMakesUp(s, t, later) then 1 else 0
  {
    CleanInChunks(s, t);
    Grouped(Clean(s), Clean(t), later);
    if CutsEscape(s, t) {
      CleanCutParts(s, t);
      var cut := CleanCut(s, t);
      CountAround(cut.before, cut.escape, cut.after + later);
      Grouped(cut.before + cut.escape, cut.after, later);
      Grouped(cut.before, cut.after, later);
    }
  }

  /**
   However the output is cut, the wizard gives as many answers as to the whole, less the hidden prompts and more those
   made up.
   */
  lemma {:induction false} AnswersAreCounted(chunks: seq<string>, later: string)
    ensures |AnswersFor(Seen(chunks) + later)| + Hidden(chunks, later) ==
            |AnswersFor(Clean(Concat(chunks)) + later)| + MadeUp(chunks, later)
    decreases |chunks|
  {
    if chunks != [] {
      var earlier, last := chunks[..|chunks| - 1], chunks[|chunks| - 1];
      AnswersAreCounted(earlier, Clean(last) + later);
      BoundaryCounts(Concat(earlier), last, later);
      Grouped(Seen(earlier), Clean(last), later);
    }
  }

  ghost predicate CutFlips(s: string, t: string, later: string) {
    CutsEscape(s, t) && var cut := CleanCut(s, t); FlipsReport(cut.before, cut.escape, cut.after + later)
  }

  /** How many cut escapes hide the report of the pairing or make it up. */
  ghost function Flips(chunks: seq<string>, later: string): nat {
    if chunks == [] then 0
    else
      var earlier, last := chunks[..|chunks| - 1], chunks[|chunks| - 1];
      Flips(earlier, Clean(last) + later) + if CutFlips(Concat(earlier), last, later) then 1 else 0
  }

  lemma BoundaryReports(s: string, t: string, later: string)
    ensures ReportsPaired(Clean(s) + (Clean(t) + later)) == ReportsPaired(Clean(s + t) + later) <==> !CutFlips(s, t, later)
  {
    CleanInChunks(s, t);
    Grouped(Clean(s), Clean(t), later);
    if CutsEscape(s, t) {
      CleanCutParts(s, t);
      var cut := CleanCut(s, t);
      ReportAround(cut.before, cut.escape, cut.after + later);
      Grouped(cut.before + cut.escape, cut.after, later);
      Grouped(cut.before, cut.after, later);
    }
  }

  /** The report of one text agrees with that of another exactly when an even number of flips lie between them. */
  ghost predicate Agree(s: string, t: string, flips: nat) {
    ReportsPaired(s) == ReportsPaired(t) <==> flips % 2 == 0
  }

  /** The pairing is seen as reported as in the whole output exactly when an even number of cuts flip its report. */
  lemma {:induction false} ReportIsWhole(chunks: seq<string>, later: string)
    ensures Agree(Seen(chunks) + later, Clean(Concat(chunks)) + later, Flips(chunks, later))
    decreases |chunks|
  {
    if chunks != [] {
      var earlier, last := chunks[..|chunks| - 1], chunks[|chunks| - 1];
      ReportIsWhole(earlier, Clean(last) + later);
      Grouped(Seen(earlier), Clean(last), later);
      var flips, all := Flips(earlier, Clean(last) + later), Flips(chunks, later);
      OneMoreCut(Seen(chunks) + later, Concat(earlier), last, later, flips, Clean(Concat(chunks)) + later, all);
    }
  }

  lemma OneMoreCut(seen: string, s: string, t: string, later: string, flips: nat, whole: string, all: nat)
    requires Agree(seen, Clean(s) + (Clean(t) + later), flips)
    requires whole == Clean(s + t) + later && all == flips + if CutFlips(s, t, later) then 1 else 0
    ensures Agree(seen, whole, all)
  {
    BoundaryReports(s, t, later);
    Parity(ReportsPaired(seen), ReportsPaired(Clean(s) + (Clean(t) + later)), ReportsPaired(Clean(s + t) + later),
           flips, CutFlips(s, t, later));
  }

  lemma Parity(p: bool, q: bool, r: bool, n: nat, flips: bool)
    requires (p == q <==> n % 2 == 0) && (q == r <==> !flips)
    ensures p == r <==> (n + if flips then 1 else 0) % 2 == 0
  {
  }

  lemma {:induction false} UncutIsHarmless(chunks: seq<string>, later: string)
    requires Uncut(chunks)
    ensures Harms(chunks, later) == Hidden(chunks, later) == MadeUp(chunks, later) == Flips(chunks, later) == 0
    decreases |chunks|
  {
    if chunks != [] {
      UncutIsHarmless(chunks[..|chunks| - 1], Clean(chunks[|chunks| - 1]) + later);
    }
  }

  /**
   Whatever the chunks, the wizard is given the first eight answers of all it has seen, and restarts on its
   report. Those are the answers to the whole output when no cut escape does harm; when one does, and the output
   has fewer than eight prompts, they are not. It restarts for the whole output's report unless an odd number of
   cuts flip that. With no boundary inside an escape there is no harm and nothing is flipped.
   */
  method Feed(chunks: seq<string>) returns (written: seq<string>, restarts: nat)
    ensures written == Due(Seen(chunks))
    ensures Harms(chunks, "") == 0 ==> written == Due(Clean(Concat(chunks)))
    ensures Harms(chunks, "") == 1 && |AnswersFor(Clean(Concat(chunks)))| < MAX_ANSWERS ==> written != Due(Clean(Concat(chunks)))
    ensures restarts == if ReportsPaired(Seen(chunks)) then 1 else 0
    ensures restarts == (if ReportsPaired(Clean(Concat(chunks))) then 1 else 0) <==> Flips(chunks, "") % 2 == 0
    ensures Uncut(chunks) ==> Harms(chunks, "") == Flips(chunks, "") == 0
  {
    var wizard := new Wizard();
    for i := 0 to |chunks|
      invariant wizard.Valid() && fresh(wizard)
      invariant wizard.seen == Seen(chunks[..i])
    {
      assert chunks[..i + 1][..i] == chunks[..i];
      wizard.OnData(chunks[i]);
    }
    assert chunks[..|chunks|] == chunks;
    if Uncut(chunks) {
      UncutIsHarmless(chunks, "");
    }
    if Harms(chunks, "") <= 1 {
      AnswersAreWhole(chunks);
    }
    ReportIsWhole(chunks, "");
    assert Seen(chunks) + "" == Seen(chunks) && Clean(Concat(chunks)) + "" == Clean(Concat(chunks));
    return wizard.written, wizard.restarts;
  }

  // ---- A hidden prompt, a made-up one, and a harmless cut --------------------------------------------

  lemma StripLone()
    ensures StripEscapes([ESC]) == [ESC] && StripEscapes([ESC, '[']) == [ESC, '[']
  {
    assert [ESC][1..] == [] && [ESC, '['][1..] == ['['] && ['['][1..] == [];
  }

  lemma StripShortEscape(letter: char, b: string)
    requires IsLetter(letter) && ESC !in b
    ensures StripEscapes([ESC, '[', letter] + b) == b
  {
    var s := [ESC, '[', letter] + b;
    assert s[2..][0] == letter && s[2] == letter;
    assert Parameters(s[2..]) == 0 && EscapeLength(s) == 3 && s[3..] == b;
    StripPlain(b);
  }

  lemma TwoChunks(first: string, second: string)
    ensures Seen([first, second]) == Clean(first) + Clean(second)
    ensures Concat([first, second]) == first + second
  {
    var chunks := [first, second];
    assert chunks[..1] == [first] && chunks[..1][..0] == [];
    assert Concat(chunks[..1]) == first && Seen(chunks[..1]) == Clean(first);
  }

  /** Text without escape characters and returns. */
  predicate Plain(s: string) { ESC !in s && '\r' !in s }

  lemma CleanPlain(a: string, tail: string)
    requires Plain(a) && '\r' !in tail && StripEscapes(tail) == tail
    ensures Clean(a + tail) == a + tail
  {
    StripAfterPlain(a, tail);
    NoReturns(a + tail);
  }

  /** A short escape cut after its first characters `head` is seen as plain text, where the whole output would have shown none. */
  lemma CutEscapeIsSeen(a: string, head: string, tail: string, letter: char, b: string)
    requires Plain(a) && Plain(b) && IsLetter(letter)
    requires (head == [ESC] && tail == ['[', letter]) || (head == [ESC, '['] && tail == [letter])
    ensures Seen([a + head, tail + b]) == a + [ESC, '[', letter] + b
    ensures Clean(Concat([a + head, tail + b])) == a + b
  {
    TwoChunks(a + head, tail + b);
    StripLone();
    CleanPlain(a, head);
    CleanPlain(tail + b, "");
    assert tail + b + "" == tail + b;
    assert a + head + (tail + b) == a + [ESC, '[', letter] + b == a + ([ESC, '[', letter] + b);
    CleanWhole(a, letter, b);
  }

  lemma CleanWhole(a: string, letter: char, b: string)
    requires Plain(a) && Plain(b) && IsLetter(letter)
    ensures Clean(a + ([ESC, '[', letter] + b)) == a + b
  {
    StripShortEscape(letter, b);
    StripAfterPlain(a, [ESC, '[', letter] + b);
    NoReturns(a + b);
  }

  lemma OneMarker(a: string)
    requires '[' !in a && !Includes(a, RE_PAIR)
    ensures AnswersFor(a + MARKER) == ["\n"]
  {
    NoBracket(a, "");
    NothingAcross(a, MARKER);
    QuestionsJoin(a, MARKER, "");
    assert MARKER[5..] == "" && "" + a == a;
    assert Questions(MARKER, a) == [a] + Questions("", "");
    assert Questions("", "") == [];
  }

  /** A prompt whose colour escape is cut is never answered, although it is complete in the output. */
  lemma CutPromptIsLost()
    ensures AnswersFor(Seen([MARKER[..2] + [ESC], ['[', 'm'] + MARKER[2..]])) == []
    ensures AnswersFor(Clean(Concat([MARKER[..2] + [ESC], ['[', 'm'] + MARKER[2..]]))) == ["\n"]
  {
    var a, e, b := MARKER[..2], [ESC, '[', 'm'], MARKER[2..];
    CutEscapeIsSeen(a, [ESC], ['[', 'm'], 'm', b);
    MakesUpMarker(e, b);
    assert StraddlesAt(MARKER, a, b, 2);
    HiddenCase(a, e, b);
    OneMarker("");
    assert a + b == MARKER == "" + MARKER;
  }

  /** A cut escape that is no part of any prompt can be read as the beginning of one, which is answered. */
  lemma CutEscapeMakesPrompt()
    ensures AnswersFor(Seen([[ESC, '['], "y" + "/N]"])) == ["\n"]
    ensures AnswersFor(Clean(Concat([[ESC, '['], "y" + "/N]"]))) == []
  {
    CutEscapeIsSeen("", [ESC, '['], "y", 'y', "/N]");
    assert "" + [ESC, '['] == [ESC, '['] && "" + "/N]" == "/N]";
    assert "" + [ESC, '[', 'y'] + "/N]" == [ESC] + MARKER;
    OneMarkerAfterEscape();
    assert AnswersFor("/N]") == [];
  }

  lemma OneMarkerAfterEscape()
    ensures AnswersFor([ESC] + MARKER) == ["\n"]
  {
    EscapeWishesNothing();
    OneMarker([ESC]);
  }

  lemma EscapeWishesNothing()
    ensures !Includes([ESC], RE_PAIR)
  {
    assert [ESC][1..] == "";
  }

  /** A cut in the middle of other text does no harm. */
  lemma CutTextIsHarmless(a: string, b: string)
    requires Plain(a) && Plain(b) && '[' !in a && '[' !in b
    ensures !Uncut([a + [ESC], ['[', 'm'] + b])
    ensures AnswersFor(Seen([a + [ESC], ['[', 'm'] + b])) == AnswersFor(Clean(Concat([a + [ESC], ['[', 'm'] + b]))) == []
  {
    var e := [ESC, '[', 'm'];
    CutEscapeIsSeen(a, [ESC], ['[', 'm'], 'm', b);
    SeenIsWhole([a + [ESC], ['[', 'm'] + b]);
    assert |a + e + b| == |a + b| + 3;
    NoBracket(a + b, "");
    NoBracket(b, "");
    MakesUpMarker(e, b);
    NoneWithoutBracket(a, b);
    SameAnswers(a, e, b);
  }

  lemma NoneWithoutBracket(a: string, b: string)
    requires '[' !in a
    ensures !Straddles(MARKER, a, b)
  {
    forall k ensures !StraddlesAt(MARKER, a, b, k) {
      if StraddlesAt(MARKER, a, b, k) {
        WhereItMeets(MARKER, a, b, k);
      }
    }
  }

  lemma ThreeChunks(first: string, second: string, third: string)
    ensures Seen([first, second, third]) == Clean(first) + Clean(second) + Clean(third)
    ensures Concat([first, second, third]) == first + second + third
  {
    var chunks := [first, second, third];
    assert chunks[..2] == [first, second];
    TwoChunks(first, second);
  }

  lemma {:induction false} NoWish(s: string)
    requires 'R' !in s
    ensures !Includes(s, RE_PAIR)
    decreases |s|
  {
    if s != [] {
      assert s[0] in s && RE_PAIR[0] == 'R';
      NoWish(s[1..]);
    }
  }

  /** Two cut escapes, both seen. */
  lemma TwoCuts(a: string, m: string, b: string)
    requires Plain(a) && Plain(m) && Plain(b)
    ensures Seen([a + [ESC], "[m" + m + [ESC, '['], "y" + b]) == a + [ESC, '[', 'm'] + (m + [ESC]) + ("[y" + b)
    ensures Clean(Concat([a + [ESC], "[m" + m + [ESC, '['], "y" + b])) == a + m + b
  {
    ThreeChunks(a + [ESC], "[m" + m + [ESC, '['], "y" + b);
    StripLone();
    CleanPlain(a, [ESC]);
    CleanPlain("[m" + m, [ESC, '[']);
    CleanPlain("y" + b, "");
    assert "y" + b + "" == "y" + b;
    SameText(a, m, b);
    CleanTwo(a, m, b);
  }

  lemma SameText(a: string, m: string, b: string)
    ensures a + [ESC] + ("[m" + m + [ESC, '[']) + ("y" + b) == a + [ESC, '[', 'm'] + (m + [ESC]) + ("[y" + b)
    ensures a + [ESC] + ("[m" + m + [ESC, '[']) + ("y" + b) == a + ([ESC, '[', 'm'] + (m + ([ESC, '[', 'y'] + b)))
  {
  }

  lemma CleanTwo(a: string, m: string, b: string)
    requires Plain(a) && Plain(m) && Plain(b)
    ensures Clean(a + ([ESC, '[', 'm'] + (m + ([ESC, '[', 'y'] + b)))) == a + m + b
  {
    var rest := m + ([ESC, '[', 'y'] + b);
    StripShortEscape('y', b);
    StripAfterPlain(m, [ESC, '[', 'y'] + b);
    StripOneEscape(rest);
    StripAfterPlain(a, [ESC, '[', 'm'] + rest);
    Grouped(a, m, b);
    NoReturns(a + m + b);
  }

  lemma StripOneEscape(b: string)
    ensures StripEscapes([ESC, '[', 'm'] + b) == StripEscapes(b)
  {
    var s := [ESC, '[', 'm'] + b;
    assert s[2..][0] == 'm' && s[2] == 'm';
    assert Parameters(s[2..]) == 0 && EscapeLength(s) == 3 && s[3..] == b;
  }

  /**
   Two harmful cuts may cancel out: the first hides a prompt and the second makes one up, so there is one answer
   either way.
   */
  lemma TwoHarmsCancel()
    ensures var chunks := ["[y" + [ESC], "[m" + "/N]" + [ESC, '['], "y" + "/N]"];
            AnswersFor(Seen(chunks)) == AnswersFor(Clean(Concat(chunks))) == ["\n"]
  {
    TwoCuts("[y", "/N]", "/N]");
    assert "[y" + "/N]" == MARKER;
    SeenOfBoth("[y", [ESC, '[', 'm'], "/N]" + [ESC]);
    WholeOfBoth("/N]");
  }

  lemma SeenOfBoth(a: string, e: string, b: string)
    requires a == "[y" && e == [ESC, '[', 'm'] && b == "/N]" + [ESC]
    ensures AnswersFor(a + e + b + MARKER) == ["\n"]
  {
    MakesUpMarker(e, b);
    QuestionsAround(a, e, b);
    NoBracket(b, a + e);
    NothingAcross(a + e + b, MARKER);
    QuestionsJoin(a + e + b, MARKER, "");
    var x := Rest(a + e + b, "");
    assert MARKER[5..] == "" && Questions(MARKER, x) == [x] + Questions("", "") && Questions("", "") == [];
    RestAround(a, e, b);
    NoWish(x);
  }

  lemma RestAround(a: string, e: string, b: string)
    requires a == "[y" && e == [ESC, '[', 'm'] && b == "/N]" + [ESC]
    ensures Rest(a + e + b, "") == "" + a + e + b
  {
    MarkerHasNoEscape();
    NothingIntoEscape(MARKER, a, e);
    RestJoin(a, e, "");
    EscapeHasNoMarker(e, "" + a);
    MakesUpMarker(e, b);
    AcrossFromEscape(MARKER, a, e, b);
    RestJoin(a + e, b, "");
    NoBracket(b, "" + a + e);
  }

  lemma WholeOfBoth(b: string)
    requires b == "/N]"
    ensures AnswersFor(MARKER + b) == ["\n"]
  {
    assert (MARKER + b)[5..] == b && Questions(b, "") == [];
    assert Questions(MARKER + b, "") == [""];
    NoWish("");
  }
}
