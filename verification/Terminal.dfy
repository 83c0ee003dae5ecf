/** Terminal output: colour escapes, carriage returns and lines. */
module Terminal {

  const ESC: char := '\U{1b}'

  predicate IsParameter(c: char) { '0' <= c <= '9' || c == ';' || c == '?' }

  predicate IsLetter(c: char) { 'a' <= c <= 'z' || 'A' <= c <= 'Z' }

  /** The leading run of escape parameters. */
  function Parameters(s: string): (n: nat)
    ensures n <= |s| && (forall i :: 0 <= i < n ==> IsParameter(s[i])) && (n < |s| ==> !IsParameter(s[n]))
  {
    if s == [] || !IsParameter(s[0]) then 0 else 1 + Parameters(s[1..])
  }

  /** The length of the colour escape a text starts with, or zero. */
  function EscapeLength(s: string): (n: nat)
    ensures n <= |s| && n != 1 && n != 2
  {
    if |s| >= 2 && s[0] == ESC && s[1] == '[' && 2 + Parameters(s[2..]) < |s| && IsLetter(s[2 + Parameters(s[2..])])
    then 3 + Parameters(s[2..])
    else 0
  }

  /** Every escape removed, leftmost first: the source's global regular-expression replacement. */
  function StripEscapes(s: string): string
    decreases |s|
  {
    if s == [] then []
    else if EscapeLength(s) > 0 then StripEscapes(s[EscapeLength(s)..])
    else [s[0]] + StripEscapes(s[1..])
  }

  function StripReturns(s: string): string {
    if s == [] then []
    else if s[0] == '\r' then StripReturns(s[1..])
    else [s[0]] + StripReturns(s[1..])
  }

  function Clean(s: string): string {
    StripReturns(StripEscapes(s))
  }

  // ---- Cleaning chunk by chunk -------------------------------------------------------------------

  /** Some escape of `s + t` begins in `s` and ends in `t`. */
  predicate CutsEscape(s: string, t: string)
    decreases |s|
  {
    s != [] &&
    if EscapeLength(s + t) > |s| then true
    else if EscapeLength(s + t) > 0 then CutsEscape(s[EscapeLength(s + t)..], t)
    else CutsEscape(s[1..], t)
  }

  lemma EscapeInside(s: string, t: string)
    requires s != [] && EscapeLength(s + t) <= |s|
    ensures EscapeLength(s) == EscapeLength(s + t)
  {
    if |s| >= 2 && s[0] == ESC && s[1] == '[' {
      ParametersExtend(s[2..], t);
      assert (s + t)[2..] == s[2..] + t;
    }
  }

  lemma ParametersExtend(s: string, t: string)
    ensures Parameters(s) < |s| ==> Parameters(s + t) == Parameters(s)
    ensures Parameters(s) == |s| ==> Parameters(s + t) >= |s|
  {
    if s != [] && IsParameter(s[0]) {
      assert (s + t)[1..] == s[1..] + t;
      ParametersExtend(s[1..], t);
    }
  }

  lemma {:induction false} StripAfterPlain(x: string, y: string)
    requires ESC !in x
    ensures StripEscapes(x + y) == x + StripEscapes(y)
    decreases |x|
  {
    if x == [] {
      assert x + y == y;
    } else {
      var u := x + y;
      assert x[0] in x && u[0] == x[0] && u[1..] == x[1..] + y;
      assert EscapeLength(u) == 0;
      StripAfterPlain(x[1..], y);
      assert x == [x[0]] + x[1..];
      assert [x[0]] + (x[1..] + StripEscapes(y)) == x + StripEscapes(y);
    }
  }

  /** An escape holds one escape character, its first. */
  lemma EscapeBody(s: string)
    requires EscapeLength(s) > 0
    ensures ESC !in s[1..EscapeLength(s)]
  {
    var p := Parameters(s[2..]);
    forall i | 1 <= i < EscapeLength(s) ensures s[i] != ESC {
      assert 2 <= i < 2 + p ==> IsParameter(s[2..][i - 2]);
    }
  }

  lemma IncompleteEscape(s: string, t: string)
    requires s != [] && EscapeLength(s + t) > |s|
    ensures EscapeLength(s) == 0
  {
    if |s| >= 2 {
      assert (s + t)[2..] == s[2..] + t;
      ParametersExtend(s[2..], t);
    }
  }

  /** How many escape characters a text holds. */
  function Escapes(s: string): nat {
    if s == [] then 0 else (if s[0] == ESC then 1 else 0) + Escapes(s[1..])
  }

  lemma {:induction false} EscapesAdd(s: string, t: string)
    ensures Escapes(s + t) == Escapes(s) + Escapes(t)
  {
    if s == [] {
      assert s + t == t;
    } else {
      assert (s + t)[1..] == s[1..] + t && (s + t)[0] == s[0];
      EscapesAdd(s[1..], t);
    }
  }

  lemma {:induction false} ReturnsKeepEscapes(s: string)
    ensures Escapes(StripReturns(s)) == Escapes(s)
  {
    if s != [] {
      ReturnsKeepEscapes(s[1..]);
      if s[0] != '\r' {
        assert ([s[0]] + StripReturns(s[1..]))[1..] == StripReturns(s[1..]);
      }
    }
  }

  lemma CutEscapeSurvives(s: string, t: string)
    requires s != [] && EscapeLength(s + t) > |s|
    ensures Escapes(StripEscapes(s + t)) < Escapes(StripEscapes(s)) + Escapes(StripEscapes(t))
  {
    var k := EscapeLength(s + t) - |s|;
    PlainRest(s + t, s, t, k);
    CleanRest(s + t, s, t, k);
    StripPart(s, t);
    StripAfterPlain(t[..k], t[k..]);
    assert t[..k] + t[k..] == t;
    EscapesAdd(t[..k], StripEscapes(t[k..]));
  }

  /** What the second chunk holds of a cut escape is plain. */
  lemma PlainRest(u: string, s: string, t: string, k: nat)
    requires u == s + t && s != [] && k <= |t| && EscapeLength(u) == |s| + k
    ensures ESC !in t[..k]
  {
    EscapeBody(u);
    forall i | 0 <= i < k ensures t[i] != ESC {
      assert u[1..|s| + k][|s| + i - 1] == t[i];
    }
  }

  /** And the whole text is cleaned from where the escape ends. */
  lemma CleanRest(u: string, s: string, t: string, k: nat)
    requires u == s + t && s != [] && k <= |t| && EscapeLength(u) == |s| + k
    ensures StripEscapes(u) == StripEscapes(t[k..])
  {
    assert u[|s| + k..] == t[k..];
  }

  /** The first character of a cut escape is kept when its chunk is cleaned alone. */
  lemma StripPart(s: string, t: string)
    requires s != [] && EscapeLength(s + t) > |s|
    ensures Escapes(StripEscapes(s)) >= 1
  {
    IncompleteEscape(s, t);
    assert s[0] == ESC by {
      assert (s + t)[0] == s[0];
    }
    assert StripEscapes(s) == [s[0]] + StripEscapes(s[1..]);
  }

  /** Removing the escapes of a text chunk by chunk leaves more of them exactly when the cut falls inside one. */
  lemma {:induction false} StripInChunks(s: string, t: string)
    ensures CutsEscape(s, t) ==> Escapes(StripEscapes(s + t)) < Escapes(StripEscapes(s)) + Escapes(StripEscapes(t))
    ensures !CutsEscape(s, t) ==> StripEscapes(s + t) == StripEscapes(s) + StripEscapes(t)
    decreases |s|
  {
    if s == [] {
      assert s + t == t;
    } else if EscapeLength(s + t) > |s| {
      CutEscapeSurvives(s, t);
    } else {
      EscapeInside(s, t);
      var n := if EscapeLength(s) > 0 then EscapeLength(s) else 1;
      assert (s + t)[n..] == s[n..] + t && (s + t)[0] == s[0];
      StripInChunks(s[n..], t);
      if EscapeLength(s) == 0 {
        OneMore(s[0], StripEscapes(s[1..]), StripEscapes(t), StripEscapes(s[1..] + t));
      }
    }
  }

  lemma OneMore(c: char, a: string, b: string, whole: string)
    ensures whole == a + b ==> [c] + whole == ([c] + a) + b
    ensures Escapes([c] + whole) == Escapes([c]) + Escapes(whole) && Escapes([c] + a) == Escapes([c]) + Escapes(a)
  {
    assert ([c] + a) + b == [c] + (a + b);
    EscapesAdd([c], whole);
    EscapesAdd([c], a);
  }

  lemma {:induction false} ReturnsInChunks(s: string, t: string)
    ensures StripReturns(s + t) == StripReturns(s) + StripReturns(t)
  {
    if s == [] {
      assert s + t == t;
    } else {
      assert (s + t)[1..] == s[1..] + t;
      ReturnsInChunks(s[1..], t);
    }
  }

  /** Cleaning a stream in two chunks gives the cleaned whole exactly when the cut does not fall inside an escape. */
  lemma CleanInChunks(s: string, t: string)
    ensures Clean(s + t) == Clean(s) + Clean(t) <==> !CutsEscape(s, t)
    ensures CutsEscape(s, t) ==> Escapes(Clean(s + t)) < Escapes(Clean(s)) + Escapes(Clean(t))
  {
    StripInChunks(s, t);
    ReturnsInChunks(StripEscapes(s), StripEscapes(t));
    ReturnsKeepEscapes(StripEscapes(s));
    ReturnsKeepEscapes(StripEscapes(t));
    ReturnsKeepEscapes(StripEscapes(s + t));
    EscapesAdd(Clean(s), Clean(t));
  }

  // ---- What cleaning leaves --------------------------------------------------------------------------

  const PARAMETERS: set<char> := {'0', '1', '2', '3', '4', '5', '6', '7', '8', '9', ';', '?'}

  /** The ASCII letters by their codes. */
  predicate HasLetterCode(c: char) {
    65 <= c as int <= 90 || 97 <= c as int <= 122
  }

  /** A colour escape: the escape character, a bracket, parameters and one letter. */
  predicate IsEscape(e: string) {
    && |e| >= 3 && e[0] == '\U{1b}' && e[1] == '[' && IsLetter(e[|e| - 1])
    && forall i :: 2 <= i < |e| - 1 ==> IsParameter(e[i])
  }

  /** What an escape's parameters and its letter may be, character by character. */
  lemma CharactersAreListed(c: char)
    ensures IsParameter(c) <==> c in PARAMETERS
    ensures IsLetter(c) <==> HasLetterCode(c)
  {
    assert c == c as int as char;
  }

  lemma ParametersUpTo(s: string, n: nat)
    requires n < |s| && (forall i :: 0 <= i < n ==> IsParameter(s[i])) && !IsParameter(s[n])
    ensures Parameters(s) == n
  {
    if n > 0 {
      ParametersUpTo(s[1..], n - 1);
    }
  }

  /** What is removed at the start of a text is the escape it starts with, if there is one. */
  lemma EscapeIsRemoved(s: string, n: nat)
    requires 0 < n <= |s|
    ensures EscapeLength(s) == n <==> IsEscape(s[..n])
  {
    if IsEscape(s[..n]) {
      forall i | 2 <= i < n - 1 ensures IsParameter(s[i]) {
        assert s[..n][i] == s[i];
      }
      ParametersUpTo(s[2..], n - 3);
    }
    if EscapeLength(s) == n {
      forall i | 2 <= i < n - 1 ensures IsParameter(s[..n][i]) {
        assert IsParameter(s[2..][i - 2]);
      }
    }
  }

  /** Output as a program writes it: plain text, carriage returns and colour escapes. */
  datatype Span = Plain(text: string) | Return | Colour(escape: string)

  predicate WellFormed(span: Span) {
    match span
    case Plain(text) => forall c <- text :: c != '\U{1b}' && c != '\r'
    case Return => true
    case Colour(escape) => IsEscape(escape)
  }

  function Output(spans: seq<Span>): string {
    if spans == [] then ""
    else (match spans[0] case Plain(text) => text case Return => "\r" case Colour(escape) => escape) + Output(spans[1..])
  }

  /** The plain text of the output. */
  function Shown(spans: seq<Span>): string {
    if spans == [] then "" else (if spans[0].Plain? then spans[0].text else "") + Shown(spans[1..])
  }

  lemma {:induction false} NoReturns(s: string)
    requires '\r' !in s
    ensures StripReturns(s) == s
  {
    if s != [] {
      assert s[0] in s && s == [s[0]] + s[1..];
      NoReturns(s[1..]);
    }
  }

  lemma CleanEscape(escape: string, rest: string)
    requires IsEscape(escape)
    ensures Clean(escape + rest) == Clean(rest)
  {
    var u := escape + rest;
    assert u[..|escape|] == escape && u[|escape|..] == rest;
    EscapeIsRemoved(u, |escape|);
  }

  lemma CleanPlain(text: string, rest: string)
    requires '\U{1b}' !in text
    ensures Clean(text + rest) == StripReturns(text) + Clean(rest)
  {
    StripAfterPlain(text, rest);
    ReturnsInChunks(text, StripEscapes(rest));
  }

  /** Cleaning leaves exactly the plain text of any output. */
  lemma {:induction false} CleanShows(spans: seq<Span>)
    requires forall i :: 0 <= i < |spans| ==> WellFormed(spans[i])
    ensures Clean(Output(spans)) == Shown(spans)
    decreases |spans|
  {
    if spans != [] {
      var rest := Output(spans[1..]);
      assert WellFormed(spans[0]);
      CleanShows(spans[1..]);
      match spans[0]
      case Plain(text) =>
        CleanPlain(text, rest);
        NoReturns(text);
      case Return => CleanPlain("\r", rest);
      case Colour(escape) => CleanEscape(escape, rest);
    }
  }

  // ---- Lines ---------------------------------------------------------------------------------------

  /** `split("\n")`. */
  function Lines(s: string): (lines: seq<string>)
    ensures lines != []
  {
    if s == [] then [""]
    else if s[0] == '\n' then [""] + Lines(s[1..])
    else var rest := Lines(s[1..]); [[s[0]] + rest[0]] + rest[1..]
  }

  function Join(lines: seq<string>): string
    requires lines != []
  {
    if |lines| == 1 then lines[0] else lines[0] + "\n" + Join(lines[1..])
  }

  predicate OneLiners(lines: seq<string>) {
    forall i :: 0 <= i < |lines| ==> '\n' !in lines[i]
  }

  /** Joined lines split back into themselves. */
  lemma {:induction false} LinesOfJoin(lines: seq<string>)
    requires lines != [] && OneLiners(lines)
    ensures Lines(Join(lines)) == lines
    decreases |lines|
  {
    if |lines| == 1 {
      LinesOfLine(lines[0]);
    } else {
      LinesOfJoin(lines[1..]);
      LinesAfter(lines[0], Join(lines[1..]));
      assert Join(lines) == lines[0] + "\n" + Join(lines[1..]);
    }
  }

  lemma {:induction false} LinesOfLine(line: string)
    requires '\n' !in line
    ensures Lines(line) == [line]
  {
    if line != [] {
      assert line[0] in line;
      LinesOfLine(line[1..]);
      assert [line[0]] + line[1..] == line;
    }
  }

  lemma {:induction false} LinesAfter(line: string, rest: string)
    requires '\n' !in line
    ensures Lines(line + "\n" + rest) == [line] + Lines(rest)
  {
    var s := line + "\n" + rest;
    if line == [] {
      assert s[1..] == rest;
    } else {
      assert line[0] in line;
      assert s[1..] == line[1..] + "\n" + rest;
      LinesAfter(line[1..], rest);
      assert [line[0]] + line[1..] == line;
      assert ([line[1..]] + Lines(rest))[1..] == Lines(rest);
    }
  }
}
