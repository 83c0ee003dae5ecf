/**
 The pairing wizard's prompts: each one is answered once, by its own question, however its output is cut
 into chunks.
 */
module Pairing {
  import opened Terminal

  const MARKER := "[y/N]"
  const RE_PAIR := "Re-pair?"
  const CONFIGURED := "is configured and paired"
  const PAIRED := "paired successfully"
  const MAX_ANSWERS: nat := 8

  predicate Includes(s: string, part: string) {
    part <= s || (s != [] && Includes(s[1..], part))
  }

  /** A text occurs somewhere in another. */
  predicate Shows(s: string, part: string) {
    exists i :: 0 <= i <= |s| && part <= s[i..]
  }

  lemma {:induction false} IncludesShows(s: string, part: string)
    ensures Includes(s, part) <==> Shows(s, part)
    decreases |s|
  {
    assert s[0..] == s;
    if s != [] {
      IncludesShows(s[1..], part);
      ShowsInRest(s, part);
    }
  }

  lemma ShowsInRest(s: string, part: string)
    requires s != []
    ensures Shows(s, part) <==> part <= s || Shows(s[1..], part)
  {
    assert s[0..] == s;
    forall i | 1 <= i <= |s| ensures s[i..] == s[1..][i - 1..] {
    }
    if Shows(s, part) && !(part <= s) {
      var i :| 0 <= i <= |s| && part <= s[i..];
      assert part <= s[1..][i - 1..];
    }
    if Shows(s[1..], part) {
      var i :| 0 <= i <= |s[1..]| && part <= s[1..][i..];
      assert part <= s[i + 1..];
    }
  }

  predicate ReportsPaired(output: string) {
    Includes(output, CONFIGURED) || Includes(output, PAIRED)
  }

  /** The text before each marker, given what has been read since the last one: `split` without its last piece. */
  function Questions(s: string, since: string): seq<string>
    decreases |s|
  {
    if |s| < |MARKER| then []
    else if MARKER <= s then [since] + Questions(s[|MARKER|..], "")
    else Questions(s[1..], since + [s[0]])
  }

  function AnswerTo(question: string): string {
    if Includes(question, RE_PAIR) then "y\n" else "\n"
  }

  function Answers(questions: seq<string>): (answers: seq<string>)
    ensures |answers| == |questions|
    ensures forall i :: 0 <= i < |questions| ==> answers[i] == AnswerTo(questions[i])
  {
    seq(|questions|, i requires 0 <= i < |questions| => AnswerTo(questions[i]))
  }

  /** One answer for every complete prompt of the output, in order. */
  function AnswersFor(output: string): seq<string> {
    Answers(Questions(output, ""))
  }

  /** The answers a run may have given by now. */
  function Due(output: string): seq<string> {
    if |AnswersFor(output)| <= MAX_ANSWERS then AnswersFor(output) else AnswersFor(output)[..MAX_ANSWERS]
  }

  // ---- More output never changes an answer -----------------------------------------------------------

  lemma {:induction false} QuestionsExtend(s: string, t: string, since: string)
    ensures Questions(s, since) <= Questions(s + t, since)
    decreases |s|
  {
    if |s| >= |MARKER| {
      assert (s + t)[..|MARKER|] == s[..|MARKER|];
      var n := if MARKER <= s then |MARKER| else 1;
      assert (s + t)[n..] == s[n..] + t;
      QuestionsExtend(s[n..], t, if MARKER <= s then "" else since + [s[0]]);
    }
  }

  /** The answers to a text begin the answers to every longer one. */
  lemma AnswersExtend(s: string, t: string)
    ensures AnswersFor(s) <= AnswersFor(s + t)
    ensures Due(s) <= Due(s + t)
  {
    QuestionsExtend(s, t, "");
  }

  lemma IncludesExtends(s: string, t: string, part: string)
    requires Includes(s, part)
    ensures Includes(s + t, part)
  {
    if part <= s {
      assert (s + t)[..|part|] == s[..|part|];
    } else {
      assert (s + t)[1..] == s[1..] + t;
      IncludesExtends(s[1..], t, part);
    }
  }

  lemma ReportExtends(s: string, t: string)
    ensures ReportsPaired(s) ==> ReportsPaired(s + t)
  {
    if Includes(s, CONFIGURED) {
      IncludesExtends(s, t, CONFIGURED);
    }
    if Includes(s, PAIRED) {
      IncludesExtends(s, t, PAIRED);
    }
  }

  // ---- The accumulator -------------------------------------------------------------------------------

  /** The variables of one pairing: what was seen, what was answered and how often the gateway was restarted. */
  class Wizard {
    var seen: string
    var answered: nat
    var restarted: bool
    var written: seq<string>
    var restarts: nat

    ghost predicate Valid()
      reads this
    {
      && written == Due(seen) && answered == |written|
      && restarted == ReportsPaired(seen) && restarts == if restarted then 1 else 0
    }

    constructor ()
      ensures Valid() && seen == ""
    {
      seen, answered, restarted, written, restarts := "", 0, false, [], 0;
      new;
      assert Questions("", "") == [];
    }

    /** Answers every prompt the output has revealed and not yet been answered, and restarts the gateway once. */
    method OnData(text: string)
      requires Valid()
      modifies this
      ensures Valid() && seen == old(seen) + Clean(text)
      ensures old(written) <= written && written <= AnswersFor(seen)
      ensures |written| == if |AnswersFor(seen)| < 8 then |AnswersFor(seen)| else 8
      ensures restarts == if Shows(seen, "is configured and paired") || Shows(seen, "paired successfully") then 1 else 0
    {
      IncludesShows(seen + Clean(text), "is configured and paired");
      IncludesShows(seen + Clean(text), "paired successfully");
      AnswersExtend(seen, Clean(text));
      ReportExtends(seen, Clean(text));
      seen := seen + Clean(text);
      var answers := AnswersFor(seen);
      while answered < |answers| && answered < MAX_ANSWERS
        invariant answered <= |answers| && answered <= MAX_ANSWERS
        invariant written == answers[..answered]
        modifies `written, `answered
      {
        written := written + [answers[answered]];
        answered := answered + 1;
      }
      if !restarted && ReportsPaired(seen) {
        restarted := true;
        restarts := restarts + 1;
      }
    }
  }

  // ---- What the answers answer -----------------------------------------------------------------------

  /** No marker starts in `s` when `t` follows it. */
  predicate NoMarker(s: string, t: string) {
    forall i :: 0 <= i < |s| ==> !("[y/N]" <= (s + t)[i..])
  }

  lemma {:induction false} QuestionUpToMarker(question: string, rest: string, since: string)
    requires NoMarker(question, MARKER + rest)
    ensures Questions(question + (MARKER + rest), since) == [since + question] + Questions(rest, "")
    decreases |question|
  {
    var s := question + (MARKER + rest);
    if question == [] {
      assert s == MARKER + rest && s[|MARKER|..] == rest;
      assert since + question == since;
    } else {
      assert !(MARKER <= s[0..]) && s[0..] == s;
      assert s[1..] == question[1..] + (MARKER + rest);
      forall i | 0 <= i < |question[1..]| ensures !(MARKER <= s[1..][i..]) {
        assert s[1..][i..] == s[i + 1..];
      }
      QuestionUpToMarker(question[1..], rest, since + [question[0]]);
      assert (since + [question[0]]) + question[1..] == since + question;
    }
  }

  /** A prompt is answered `y` exactly when its own question, the text since the previous prompt, asks to pair again. */
  lemma PromptGetsItsAnswer(question: string, rest: string)
    requires NoMarker(question, "[y/N]" + rest)
    ensures AnswersFor(question + ("[y/N]" + rest))
         == [if Shows(question, "Re-pair?") then "y\n" else "\n"] + AnswersFor(rest)
  {
    IncludesShows(question, "Re-pair?");
    QuestionUpToMarker(question, rest, "");
    assert "" + question == question;
  }

  lemma {:induction false} NoMarkerNoQuestion(s: string, since: string)
    requires forall i :: 0 <= i < |s| ==> !(MARKER <= s[i..])
    ensures Questions(s, since) == []
    decreases |s|
  {
    if |s| >= |MARKER| {
      assert s[0..] == s;
      forall i | 0 <= i < |s[1..]| ensures !(MARKER <= s[1..][i..]) {
        assert s[1..][i..] == s[i + 1..];
      }
      NoMarkerNoQuestion(s[1..], since + [s[0]]);
    }
  }
}
