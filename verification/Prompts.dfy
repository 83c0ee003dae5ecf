/** What escape text left between two parts of a text does to its prompts and their answers. */
module Prompts {
  import opened Pairing
  import opened Terminal

  /** `part` begins in `a` and ends in `b`, which follows it, with `k` characters in `a`. */
  predicate StraddlesAt(part: string, a: string, b: string, k: int) {
    0 < k < |part| && k <= |a| && a[|a| - k..] == part[..k] && part[k..] <= b
  }

  ghost predicate Straddles(part: string, a: string, b: string) {
    exists k :: StraddlesAt(part, a, b, k)
  }

  /** The text read since the last marker. */
  function Rest(s: string, since: string): string
    decreases |s|
  {
    if |s| < |MARKER| then since + s
    else if MARKER <= s then Rest(s[|MARKER|..], "")
    else Rest(s[1..], since + [s[0]])
  }

  // ---- Questions of a text in two parts --------------------------------------------------------------

  lemma StraddleAfter(part: string, w: string, s: string, t: string)
    requires Straddles(part, s, t)
    ensures Straddles(part, w + s, t)
  {
    var k :| StraddlesAt(part, s, t, k);
    assert (w + s)[|w + s| - k..] == s[|s| - k..];
    assert StraddlesAt(part, w + s, t, k);
  }

  /** The characters that meet where a text lies across. */
  lemma WhereItMeets(part: string, a: string, b: string, k: int)
    requires StraddlesAt(part, a, b, k)
    ensures a != [] && b != [] && a[|a| - k] == part[0] && a[|a| - 1] == part[k - 1] && b[0] == part[k]
    ensures part[k] in part && a[|a| - k] in a
  {
    assert a[|a| - k..][0] == part[..k][0] && a[|a| - k..][k - 1] == part[..k][k - 1];
    assert part[k..][0] == part[k];
  }

  lemma NoneAcrossTail(part: string, w: string, s: string, u: string, t: string)
    requires u == w + s && !Straddles(part, u, t)
    ensures !Straddles(part, s, t)
  {
    if Straddles(part, s, t) {
      StraddleAfter(part, w, s, t);
    }
  }

  lemma MarkerStraddles(s: string, t: string)
    requires 0 < |s| < |MARKER| && MARKER <= s + t
    ensures Straddles(MARKER, s, t)
  {
    assert s == (s + t)[..|s|] == MARKER[..|s|];
    assert MARKER[|s|..] == (s + t)[|s|..|MARKER|] == t[..|MARKER| - |s|];
    assert StraddlesAt(MARKER, s, t, |s|);
  }

  /** Where no marker lies across, the questions of the second part go on from what the first left. */
  lemma {:induction false} QuestionsJoin(s: string, t: string, since: string)
    requires !Straddles(MARKER, s, t)
    ensures Questions(s + t, since) == Questions(s, since) + Questions(t, Rest(s, since))
    decreases |s|
  {
    if s == [] {
      assert s + t == t && since + s == since;
    } else if MARKER <= s {
      assert (s + t)[|MARKER|..] == s[|MARKER|..] + t && MARKER <= s + t;
      NoneAcrossTail(MARKER, MARKER, s[|MARKER|..], s, t);
      QuestionsJoin(s[|MARKER|..], t, "");
    } else {
      NoneAcrossTail(MARKER, [s[0]], s[1..], s, t);
      NoMarkerFirst(s, t);
      assert (s + t)[1..] == s[1..] + t && (s + t)[0] == s[0];
      QuestionsJoin(s[1..], t, since + [s[0]]);
      assert since + [s[0]] + s[1..] == since + s;
      SkipOne(s, since);
      SkipOne(s + t, since);
    }
  }

  lemma NoMarkerFirst(s: string, t: string)
    requires s != [] && !(MARKER <= s) && !Straddles(MARKER, s, t)
    ensures !(MARKER <= s + t)
  {
    if |s| >= |MARKER| {
      assert (s + t)[..|MARKER|] == s[..|MARKER|];
    } else if MARKER <= s + t {
      MarkerStraddles(s, t);
    }
  }

  lemma SkipOne(s: string, since: string)
    requires s != [] && !(MARKER <= s)
    ensures Questions(s, since) == Questions(s[1..], since + [s[0]])
    ensures Rest(s, since) == Rest(s[1..], since + [s[0]])
  {
    assert since + [s[0]] + s[1..] == since + s;
  }

  /** And so does what is left. */
  lemma {:induction false} RestJoin(s: string, t: string, since: string)
    requires !Straddles(MARKER, s, t)
    ensures Rest(s + t, since) == Rest(t, Rest(s, since))
    decreases |s|
  {
    if s == [] {
      assert s + t == t && since + s == since;
    } else if MARKER <= s {
      assert (s + t)[|MARKER|..] == s[|MARKER|..] + t && MARKER <= s + t;
      NoneAcrossTail(MARKER, MARKER, s[|MARKER|..], s, t);
      RestJoin(s[|MARKER|..], t, "");
    } else {
      NoneAcrossTail(MARKER, [s[0]], s[1..], s, t);
      NoMarkerFirst(s, t);
      assert (s + t)[1..] == s[1..] + t && (s + t)[0] == s[0];
      RestJoin(s[1..], t, since + [s[0]]);
      SkipOne(s, since);
      SkipOne(s + t, since);
    }
  }

  /** What was read before a text only begins its first question. */
  lemma {:induction false} SinceIsFirst(s: string, x: string, since: string)
    ensures Questions(s, x + since) ==
            if Questions(s, since) == [] then [] else [x + Questions(s, since)[0]] + Questions(s, since)[1..]
    decreases |s|
  {
    if |s| >= |MARKER| && !(MARKER <= s) {
      SinceIsFirst(s[1..], x, since + [s[0]]);
      assert x + since + [s[0]] == x + (since + [s[0]]);
    }
  }

  /** A text without an opening bracket has no question, and all of it is left. */
  lemma {:induction false} NoBracket(s: string, since: string)
    requires '[' !in s
    ensures Questions(s, since) == [] && Rest(s, since) == since + s
    decreases |s|
  {
    if |s| >= |MARKER| {
      assert s[0] in s && s[0] != MARKER[0];
      NoBracket(s[1..], since + [s[0]]);
      assert since + [s[0]] + s[1..] == since + s;
    }
  }

  /** A marker lying across two parts is one more question, and neither part has it. */
  lemma AcrossIsQuestion(s: string, t: string, k: int, since: string)
    requires StraddlesAt(MARKER, s, t, k)
    ensures var front, back := s[..|s| - k], t[|MARKER| - k..];
            && Questions(s + t, since) == Questions(front, since) + [Rest(front, since)] + Questions(back, "")
            && Questions(s, since) == Questions(front, since)
            && forall x :: |Questions(t, x)| == |Questions(back, "")|
  {
    var front, back := s[..|s| - k], t[|MARKER| - k..];
    assert s == front + MARKER[..k] && t == MARKER[k..] + back;
    assert s + t == front + (MARKER + back);
    NothingAcross(front, MARKER + back);
    QuestionsJoin(front, MARKER + back, since);
    assert (MARKER + back)[|MARKER|..] == back;
    assert Questions(MARKER + back, Rest(front, since)) == [Rest(front, since)] + Questions(back, "");
    HalfHasNone(front, MARKER[..k], since);
    forall x ensures |Questions(t, x)| == |Questions(back, "")| {
      SecondHalf(MARKER[k..], back, x);
    }
  }

  /** No marker begins before an opening bracket and ends after it. */
  lemma NothingAcross(front: string, t: string)
    requires t != [] && t[0] == '['
    ensures !Straddles(MARKER, front, t)
  {
    forall k ensures !StraddlesAt(MARKER, front, t, k) {
      if StraddlesAt(MARKER, front, t, k) {
        WhereItMeets(MARKER, front, t, k);
      }
    }
  }

  lemma HalfHasNone(front: string, half: string, since: string)
    requires 0 < |half| < |MARKER| && half[0] == '['
    ensures Questions(front + half, since) == Questions(front, since)
    ensures Rest(front + half, since) == Rest(front, since) + half
  {
    NothingAcross(front, half);
    QuestionsJoin(front, half, since);
    RestJoin(front, half, since);
  }

  lemma SecondHalf(half: string, back: string, x: string)
    requires '[' !in half
    ensures |Questions(half + back, x)| == |Questions(back, "")|
  {
    if Straddles(MARKER, half, back) {
      var k :| StraddlesAt(MARKER, half, back, k);
      WhereItMeets(MARKER, half, back, k);
    }
    QuestionsJoin(half, back, x);
    NoBracket(half, x);
    SinceIsFirst(back, x + half, "");
    assert x + half + "" == x + half;
  }

  // ---- Escape text between two parts -----------------------------------------------------------------

  lemma SuffixHasNoEscape(part: string, u: string, b: string, k: int)
    requires StraddlesAt(part, u, b, k) && ESC !in part
    ensures forall i :: |u| - k <= i < |u| ==> u[i] != ESC
  {
    forall i | |u| - k <= i < |u| ensures u[i] != ESC {
      var j := i - (|u| - k);
      assert u[|u| - k..][j] == part[..k][j] == part[j];
      assert part[j] in part;
    }
  }

  /** Nothing lies across into text that begins with an escape character. */
  lemma NothingIntoEscape(part: string, a: string, e: string)
    requires e != [] && e[0] == ESC && ESC !in part
    ensures !Straddles(part, a, e)
  {
    forall k ensures !StraddlesAt(part, a, e, k) {
      if StraddlesAt(part, a, e, k) {
        WhereItMeets(part, a, e, k);
      }
    }
  }

  /** What lies across out of an escape begins inside it. */
  lemma AcrossFromEscape(part: string, a: string, e: string, b: string)
    requires e != [] && e[0] == ESC && ESC !in part
    ensures Straddles(part, a + e, b) <==> Straddles(part, e, b)
  {
    if Straddles(part, e, b) {
      StraddleAfter(part, a, e, b);
    }
    if Straddles(part, a + e, b) {
      var k :| StraddlesAt(part, a + e, b, k);
      SuffixHasNoEscape(part, a + e, b, k);
      assert (a + e)[|a|] == ESC;
      assert k < |e|;
      assert (a + e)[|a + e| - k..] == e[|e| - k..];
      assert StraddlesAt(part, e, b, k);
    }
  }

  lemma {:induction false} IncludesAt(s: string, part: string, i: nat)
    requires i <= |s| && part <= s[i..]
    ensures Includes(s, part)
  {
    if i > 0 {
      assert s[1..][i - 1..] == s[i..];
      IncludesAt(s[1..], part, i - 1);
    } else {
      assert s[0..] == s;
    }
  }

  lemma {:induction false} IncludedWhere(s: string, part: string) returns (i: nat)
    requires Includes(s, part)
    ensures i <= |s| && part <= s[i..]
    decreases |s|
  {
    if part <= s {
      i := 0;
      assert s[0..] == s;
    } else {
      var j := IncludedWhere(s[1..], part);
      i := j + 1;
      assert s[1..][j..] == s[i..];
    }
  }

  /** What a text of two parts includes. */
  lemma IncludesJoin(x: string, y: string, part: string)
    requires part != []
    ensures Includes(x + y, part) <==> Includes(x, part) || Includes(y, part) || Straddles(part, x, y)
  {
    if Includes(x, part) {
      IncludesExtends(x, y, part);
    }
    if Includes(y, part) {
      var i := IncludedWhere(y, part);
      assert (x + y)[|x| + i..] == y[i..];
      IncludesAt(x + y, part, |x| + i);
    }
    if Straddles(part, x, y) {
      AcrossIsIncluded(x, y, part);
    }
    if Includes(x + y, part) {
      var i := IncludedWhere(x + y, part);
      IncludedInPart(x, y, part, i);
    }
  }

  lemma AcrossIsIncluded(x: string, y: string, part: string)
    requires Straddles(part, x, y)
    ensures Includes(x + y, part)
  {
    var k :| StraddlesAt(part, x, y, k);
    assert x == x[..|x| - k] + x[|x| - k..];
    assert (x + y)[|x| - k..] == x[|x| - k..] + y;
    assert part == part[..k] + part[k..];
    IncludesAt(x + y, part, |x| - k);
  }

  lemma IncludedInPart(x: string, y: string, part: string, i: nat)
    requires part != [] && i <= |x + y| && part <= (x + y)[i..]
    ensures Includes(x, part) || Includes(y, part) || Straddles(part, x, y)
  {
    if i >= |x| {
      assert (x + y)[i..] == y[i - |x|..];
      IncludesAt(y, part, i - |x|);
    } else if i + |part| <= |x| {
      assert x[i..][..|part|] == (x + y)[i..][..|part|];
      IncludesAt(x, part, i);
    } else {
      var k := |x| - i;
      assert (x + y)[i..] == x[i..] + y;
      assert part[..k] == (x[i..] + y)[..k] == x[i..];
      assert part[k..] == (x[i..] + y)[k..|part|] == y[..|part| - k];
      assert StraddlesAt(part, x, y, k);
    }
  }

  lemma IncludedStart(s: string, part: string, i: nat)
    requires |part| > 1 && i <= |s| && part <= s[i..]
    ensures i + 1 < |s| && s[i] == part[0]
  {
    assert s[i..][0] == part[0];
  }

  /** A text that starts with a letter and is longer than that letter lies in no escape. */
  lemma EscapeHasNone(e: string, part: string)
    requires IsEscape(e) && |part| > 1 && IsLetter(part[0])
    ensures !Includes(e, part)
  {
    if Includes(e, part) {
      var i := IncludedWhere(e, part);
      IncludedStart(e, part, i);
    }
  }

  /** Escape text between two parts hides what lay across them, and may itself begin what the second part ends. */
  lemma IncludesAround(x: string, e: string, y: string, part: string)
    requires IsEscape(e) && |part| > 1 && IsLetter(part[0]) && ESC !in part
    ensures Includes(x + e + y, part) <==> Includes(x, part) || Includes(y, part) || Straddles(part, e, y)
  {
    IncludesJoin(x + e, y, part);
    IncludesJoin(x, e, part);
    EscapeHasNone(e, part);
    NothingIntoEscape(part, x, e);
    AcrossFromEscape(part, x, e, y);
  }

  lemma EscapeHasNoMarker(e: string, since: string)
    requires IsEscape(e)
    ensures Questions(e, since) == [] && Rest(e, since) == since + e
  {
    SkipEscapeHead(e, since);
    NoBracketAfterHead(e);
    NoBracket(e[2..], since + e[..2]);
    assert since + e[..2] + e[2..] == since + e;
  }

  lemma NoBracketAfterHead(e: string)
    requires IsEscape(e)
    ensures '[' !in e[2..]
  {
    forall c | c in e[2..] ensures c != '[' {
      var i :| 0 <= i < |e[2..]| && e[2..][i] == c;
      assert e[i + 2] == c && (i + 2 < |e| - 1 ==> IsParameter(e[i + 2]));
    }
  }

  lemma MarkerChars(s: string, i: nat)
    requires i <= |s|
    ensures MARKER <= s[i..] ==> i + 5 <= |s| && s[i] == '[' && s[i + 1] == 'y' && s[i + 2] == '/'
  {
    if MARKER <= s[i..] {
      assert s[i..][0] == MARKER[0] && s[i..][1] == MARKER[1] && s[i..][2] == MARKER[2];
    }
  }

  lemma SkipEscapeHead(e: string, since: string)
    requires IsEscape(e)
    ensures Questions(e, since) == Questions(e[2..], since + e[..2])
    ensures Rest(e, since) == Rest(e[2..], since + e[..2])
  {
    SkipOne(e, since);
    assert |e| == 3 || IsParameter(e[2]);
    MarkerChars(e, 1);
    SkipOne(e[1..], since + [e[0]]);
    assert e[1..][1..] == e[2..] && since + [e[0]] + [e[1..][0]] == since + e[..2];
  }

  /** The questions of a text with an escape left in it. */
  lemma QuestionsAround(a: string, e: string, b: string)
    requires IsEscape(e) && !Straddles(MARKER, e, b)
    ensures Questions(a + e + b, "") == Questions(a, "") + Questions(b, Rest(a, "") + e)
  {
    MarkerHasNoEscape();
    NothingIntoEscape(MARKER, a, e);
    AcrossFromEscape(MARKER, a, e, b);
    QuestionsJoin(a + e, b, "");
    QuestionsJoin(a, e, "");
    RestJoin(a, e, "");
    EscapeHasNoMarker(e, Rest(a, ""));
  }

  lemma MarkerHasNoEscape()
    ensures ESC !in MARKER && ESC !in RE_PAIR
  {
  }

  // ---- When the answers stay the same ----------------------------------------------------------------

  /**
   Escape text between `a` and `b` leaves the answers alone. It hides the marker that lies across exactly when it
   makes one up; and if there is none across, then in the question the next marker of `b` ends it hides a wish to
   pair again exactly when it makes one up, unless the question holds another.
   */
  ghost predicate Harmless(a: string, e: string, b: string) {
    && (Straddles(MARKER, a, b) <==> Straddles(MARKER, e, b))
    && (Straddles(MARKER, a, b) || Questions(b, "") == [] || SameWish(Rest(a, ""), e, Questions(b, "")[0]))
  }

  ghost predicate SameWish(x: string, e: string, y: string) {
    Includes(x, RE_PAIR) || Includes(y, RE_PAIR) || (Straddles(RE_PAIR, x, y) <==> Straddles(RE_PAIR, e, y))
  }

  lemma WishAround(x: string, e: string, y: string)
    requires IsEscape(e)
    ensures AnswerTo(x + e + y) == AnswerTo(x + y) <==> SameWish(x, e, y)
  {
    MarkerHasNoEscape();
    IncludesAround(x, e, y, RE_PAIR);
    IncludesJoin(x, y, RE_PAIR);
  }

  lemma AnswersJoin(p: seq<string>, q: seq<string>)
    ensures Answers(p + q) == Answers(p) + Answers(q)
  {
  }

  lemma AnswersDiffer(p: seq<string>, q: seq<string>, r: seq<string>)
    ensures Answers(p + q) == Answers(p + r) <==> Answers(q) == Answers(r)
  {
    AnswersJoin(p, q);
    AnswersJoin(p, r);
    assert (Answers(p) + Answers(q))[|p|..] == Answers(q) && (Answers(p) + Answers(r))[|p|..] == Answers(r);
  }

  /** No marker lies across and none is made up. */
  lemma PlainCase(a: string, e: string, b: string)
    requires IsEscape(e) && !Straddles(MARKER, a, b) && !Straddles(MARKER, e, b)
    ensures AnswersFor(a + e + b) == AnswersFor(a + b) <==>
            Questions(b, "") == [] || SameWish(Rest(a, ""), e, Questions(b, "")[0])
  {
    var x := Rest(a, "");
    QuestionsAround(a, e, b);
    QuestionsJoin(a, b, "");
    AnswersDiffer(Questions(a, ""), Questions(b, x + e), Questions(b, x));
    SinceIsFirst(b, x, "");
    SinceIsFirst(b, x + e, "");
    assert x + "" == x && x + e + "" == x + e;
    if Questions(b, "") != [] {
      WishAround(x, e, Questions(b, "")[0]);
      FirstDiffers(x + e + Questions(b, "")[0], x + Questions(b, "")[0], Questions(b, "")[1..]);
    }
  }

  lemma FirstDiffers(p: string, q: string, rest: seq<string>)
    ensures Answers([p] + rest) == Answers([q] + rest) <==> AnswerTo(p) == AnswerTo(q)
  {
    AnswersJoin([p], rest);
    AnswersJoin([q], rest);
    assert Answers([p] + rest)[0] == AnswerTo(p) && Answers([q] + rest)[0] == AnswerTo(q);
  }

  /** A marker that only one of the texts has is one answer more. */
  lemma HiddenCase(a: string, e: string, b: string)
    requires IsEscape(e) && Straddles(MARKER, a, b) && !Straddles(MARKER, e, b)
    ensures |AnswersFor(a + b)| == |AnswersFor(a + e + b)| + 1
  {
    var k :| StraddlesAt(MARKER, a, b, k);
    AcrossIsQuestion(a, b, k, "");
    QuestionsAround(a, e, b);
  }

  lemma InventedCase(a: string, e: string, b: string)
    requires IsEscape(e) && !Straddles(MARKER, a, b) && Straddles(MARKER, e, b)
    ensures |AnswersFor(a + e + b)| == |AnswersFor(a + b)| + 1
  {
    MarkerHasNoEscape();
    AcrossFromEscape(MARKER, a, e, b);
    NothingIntoEscape(MARKER, a, e);
    var k :| StraddlesAt(MARKER, a + e, b, k);
    AcrossIsQuestion(a + e, b, k, "");
    QuestionsJoin(a, e, "");
    EscapeHasNoMarker(e, Rest(a, ""));
    QuestionsJoin(a, b, "");
  }

  lemma BracketIsSecond(e: string, i: nat)
    requires IsEscape(e) && i < |e| && e[i] == '['
    ensures i == 1
  {
  }

  /** The only escape that begins a marker. */
  lemma MarkerFromEscape(e: string, b: string, k: int)
    requires IsEscape(e) && StraddlesAt(MARKER, e, b, k)
    ensures k == 2 && e == [ESC, '[', 'y']
  {
    WhereItMeets(MARKER, e, b, k);
    BracketIsSecond(e, |e| - k);
    assert k != 1;
    assert e[2] == e[|e| - k..][1] == MARKER[..k][1];
  }

  /** One marker is hidden and another made up in its place: its answer is the same. */
  lemma ReplacedCase(a: string, e: string, b: string)
    requires IsEscape(e) && Straddles(MARKER, a, b) && Straddles(MARKER, e, b)
    ensures AnswersFor(a + e + b) == AnswersFor(a + b)
  {
    var k :| StraddlesAt(MARKER, a, b, k);
    var j :| StraddlesAt(MARKER, e, b, j);
    MarkerFromEscape(e, b, j);
    assert MARKER[k..][0] == b[0] == MARKER[j..][0];
    assert k == 2;
    var front, back := a[..|a| - 2], b[3..];
    AcrossIsQuestion(a, b, 2, "");
    ReplacedQuestion(a, e, b, front, back);
    var q, x := Questions(front, ""), Rest(front, "");
    SameWishBefore(x);
    SameFirst(q, x + "[y" + [ESC], x, Questions(back, ""));
  }

  lemma ReplacedQuestion(a: string, e: string, b: string, front: string, back: string)
    requires e == [ESC, '[', 'y'] && StraddlesAt(MARKER, e, b, 2) && a == front + "[y" && back == b[3..]
    ensures Questions(a + e + b, "") == Questions(front, "") + [Rest(front, "") + "[y" + [ESC]] + Questions(back, "")
  {
    assert (a + e)[|a + e| - 2..] == "[y" && (a + e)[..|a + e| - 2] == a + [ESC];
    AcrossIsQuestion(a + e, b, 2, "");
    QuestionsBeforeEscape(a);
    HalfHasNone(front, "[y", "");
  }

  lemma SameFirst(q: seq<string>, p: string, x: string, rest: seq<string>)
    requires AnswerTo(p) == AnswerTo(x)
    ensures Answers(q + [p] + rest) == Answers(q + [x] + rest)
  {
  }

  lemma QuestionsBeforeEscape(a: string)
    ensures Questions(a + [ESC], "") == Questions(a, "") && Rest(a + [ESC], "") == Rest(a, "") + [ESC]
  {
    MarkerHasNoEscape();
    NothingIntoEscape(MARKER, a, [ESC]);
    QuestionsJoin(a, [ESC], "");
    RestJoin(a, [ESC], "");
  }

  lemma SameWishBefore(x: string)
    ensures AnswerTo(x + "[y" + [ESC]) == AnswerTo(x)
  {
    var y := "[y" + [ESC];
    assert x + "[y" + [ESC] == x + y;
    IncludesJoin(x, y, RE_PAIR);
    if Includes(y, RE_PAIR) {
      var i := IncludedWhere(y, RE_PAIR);
    }
    forall k ensures !StraddlesAt(RE_PAIR, x, y, k) {
      if StraddlesAt(RE_PAIR, x, y, k) {
        WhereItMeets(RE_PAIR, x, y, k);
      }
    }
  }

  /** Escape text left between two parts of an output leaves its answers alone exactly when it is harmless. */
  lemma SameAnswers(a: string, e: string, b: string)
    requires IsEscape(e)
    ensures AnswersFor(a + e + b) == AnswersFor(a + b) <==> Harmless(a, e, b)
  {
    if Straddles(MARKER, a, b) {
      if Straddles(MARKER, e, b) {
        ReplacedCase(a, e, b);
      } else {
        HiddenCase(a, e, b);
      }
    } else if Straddles(MARKER, e, b) {
      InventedCase(a, e, b);
    } else {
      PlainCase(a, e, b);
    }
  }

  ghost predicate Hides(a: string, e: string, b: string) {
    Straddles(MARKER, a, b) && !Straddles(MARKER, e, b)
  }

  ghost predicate MakesUp(a: string, e: string, b: string) {
    Straddles(MARKER, e, b) && !Straddles(MARKER, a, b)
  }

  /** Escape text takes away one answer where it hides a marker, and gives one where it makes one up. */
  lemma CountAround(a: string, e: string, b: string)
    requires IsEscape(e)
    ensures |AnswersFor(a + e + b)| + (if Hides(a, e, b) then 1 else 0) == |AnswersFor(a + b)| + if MakesUp(a, e, b) then 1 else 0
  {
    if Straddles(MARKER, a, b) {
      if Straddles(MARKER, e, b) {
        ReplacedCase(a, e, b);
      } else {
        HiddenCase(a, e, b);
      }
    } else if Straddles(MARKER, e, b) {
      InventedCase(a, e, b);
    } else {
      QuestionsAround(a, e, b);
      QuestionsJoin(a, b, "");
      SameCount(b, Rest(a, ""), Rest(a, "") + e);
    }
  }

  lemma SameCount(b: string, x: string, y: string)
    ensures |Questions(b, x)| == |Questions(b, y)|
  {
    SinceIsFirst(b, x, "");
    SinceIsFirst(b, y, "");
    assert x + "" == x && y + "" == y;
  }

  // ---- The report ------------------------------------------------------------------------------------

  ghost predicate StraddlesReport(a: string, b: string) {
    Straddles(CONFIGURED, a, b) || Straddles(PAIRED, a, b)
  }

  /** Escape text between `a` and `b` hides the report of the pairing, or makes one up. */
  ghost predicate FlipsReport(a: string, e: string, b: string) {
    !ReportsPaired(a) && !ReportsPaired(b) && !(StraddlesReport(a, b) <==> StraddlesReport(e, b))
  }

  lemma ReportAround(a: string, e: string, b: string)
    requires IsEscape(e)
    ensures ReportsPaired(a + e + b) == ReportsPaired(a + b) <==> !FlipsReport(a, e, b)
  {
    ReportHasNoEscape();
    IncludesAround(a, e, b, CONFIGURED);
    IncludesAround(a, e, b, PAIRED);
    IncludesJoin(a, b, CONFIGURED);
    IncludesJoin(a, b, PAIRED);
  }

  lemma ReportHasNoEscape()
    ensures ESC !in CONFIGURED && ESC !in PAIRED
  {
  }

  /** The one way escape text makes up a prompt. */
  lemma MakesUpMarker(e: string, b: string)
    requires IsEscape(e)
    ensures Straddles(MARKER, e, b) <==> e == [ESC, '[', 'y'] && "/N]" <= b
  {
    if Straddles(MARKER, e, b) {
      var k :| StraddlesAt(MARKER, e, b, k);
      MarkerFromEscape(e, b, k);
      assert MARKER[2..] == "/N]";
    }
    if e == [ESC, '[', 'y'] && "/N]" <= b {
      assert e[1..] == MARKER[..2] && MARKER[2..] == "/N]";
      assert StraddlesAt(MARKER, e, b, 2);
    }
  }

  /** And the one way it makes up a wish to pair again. */
  lemma MakesUpWish(e: string, b: string)
    requires IsEscape(e)
    ensures Straddles(RE_PAIR, e, b) <==> e[|e| - 1] == 'R' && "e-pair?" <= b
  {
    assert RE_PAIR[1..] == "e-pair?" && RE_PAIR[..1] == "R";
    if Straddles(RE_PAIR, e, b) {
      var k :| StraddlesAt(RE_PAIR, e, b, k);
      WhereItMeets(RE_PAIR, e, b, k);
      assert |e| - k == |e| - 1;
    }
    if e[|e| - 1] == 'R' && "e-pair?" <= b {
      assert e[|e| - 1..] == "R";
      assert StraddlesAt(RE_PAIR, e, b, 1);
    }
  }
}
