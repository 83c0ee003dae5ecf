/** UTF-8 byte sequences, and cutting one without splitting a character. */
module Utf8 {
  import opened Bytes

  /** A byte that may begin a character: not of the form 10xxxxxx. */
  predicate Starts(b: Byte) { !(128 <= b < 192) }

  predicate Tail(s: seq<Byte>, i: nat) {
    i < |s| && 128 <= s[i] < 192
  }

  predicate Within(s: seq<Byte>, i: nat, low: Byte, high: Byte) {
    i < |s| && low <= s[i] <= high
  }

  /** The length of the character a text starts with (the syntax of section 4 of RFC 3629), or zero. */
  function CharLength(s: seq<Byte>): (n: nat)
    ensures n <= |s| && n <= 4
    ensures n > 0 ==> Starts(s[0]) && forall i :: 1 <= i < n ==> !Starts(s[i])
  {
    if s == [] then 0
    else if s[0] < 0x80 then 1
    else if 0xc2 <= s[0] <= 0xdf && Tail(s, 1) then 2
    else if s[0] == 0xe0 && Within(s, 1, 0xa0, 0xbf) && Tail(s, 2) then 3
    else if (0xe1 <= s[0] <= 0xec || 0xee <= s[0] <= 0xef) && Tail(s, 1) && Tail(s, 2) then 3
    else if s[0] == 0xed && Within(s, 1, 0x80, 0x9f) && Tail(s, 2) then 3
    else if s[0] == 0xf0 && Within(s, 1, 0x90, 0xbf) && Tail(s, 2) && Tail(s, 3) then 4
    else if 0xf1 <= s[0] <= 0xf3 && Tail(s, 1) && Tail(s, 2) && Tail(s, 3) then 4
    else if s[0] == 0xf4 && Within(s, 1, 0x80, 0x8f) && Tail(s, 2) && Tail(s, 3) then 4
    else 0
  }

  predicate Valid(s: seq<Byte>)
    decreases |s|
  {
    s == [] || (CharLength(s) > 0 && Valid(s[CharLength(s)..]))
  }

  lemma ValidStarts(s: seq<Byte>)
    requires Valid(s) && s != []
    ensures Starts(s[0])
  {
  }

  lemma CharExtends(s: seq<Byte>, t: seq<Byte>)
    requires CharLength(s) > 0
    ensures CharLength(s + t) == CharLength(s)
  {
    var u := s + t;
    assert u[0] == s[0];
    assert |s| > 1 ==> u[1] == s[1];
    assert |s| > 2 ==> u[2] == s[2];
    assert |s| > 3 ==> u[3] == s[3];
  }

  lemma {:induction false} ValidConcat(s: seq<Byte>, t: seq<Byte>)
    requires Valid(s) && Valid(t)
    ensures Valid(s + t)
    decreases |s|
  {
    if s == [] {
      assert s + t == t;
    } else {
      var n := CharLength(s);
      CharExtends(s, t);
      assert (s + t)[n..] == s[n..] + t;
      ValidConcat(s[n..], t);
    }
  }

  /** Where a cut at `cut` moves back to: the nearest byte, not after it, that may begin a character. */
  function CutAt(s: seq<Byte>, cut: nat): (c: nat)
    requires cut < |s|
    ensures c <= cut && (c > 0 ==> Starts(s[c]))
    ensures forall i :: c < i <= cut ==> !Starts(s[i])
  {
    if cut == 0 || Starts(s[cut]) then cut else CutAt(s, cut - 1)
  }

  function Truncate(s: seq<Byte>, max: nat): (r: seq<Byte>)
    ensures |r| <= max && r <= s
  {
    if |s| <= max then s else s[..CutAt(s, max)]
  }

  method TruncateUtf8(s: seq<Byte>, max: nat) returns (r: seq<Byte>)
    ensures r == Truncate(s, max)
  {
    if |s| <= max {
      return s;
    }
    var cut := max;
    while cut > 0 && !Starts(s[cut])
      invariant 0 <= cut <= max && CutAt(s, cut) == CutAt(s, max)
    {
      cut := cut - 1;
    }
    return s[..cut];
  }

  /** The cut is the one place with these properties, so it can be found from any description of it. */
  lemma CutIs(s: seq<Byte>, cut: nat, c: nat)
    requires c <= cut < |s| && (c > 0 ==> Starts(s[c])) && forall i :: c < i <= cut ==> !Starts(s[i])
    ensures CutAt(s, cut) == c
  {
    if cut > c {
      CutIs(s, cut - 1, c);
    }
  }

  lemma CharOfPrefix(s: seq<Byte>, k: nat)
    requires 0 < CharLength(s) <= k <= |s|
    ensures CharLength(s[..k]) == CharLength(s)
  {
  }

  /** The cut of a text from its second character on. */
  lemma CutPastChar(s: seq<Byte>, max: nat)
    requires Valid(s) && s != [] && CharLength(s) <= max < |s|
    ensures CutAt(s, max) == CharLength(s) + CutAt(s[CharLength(s)..], max - CharLength(s))
  {
    var n := CharLength(s);
    var rest := s[n..];
    assert Valid(rest) && Starts(rest[0]);
    CutIs(s, max, n + CutAt(rest, max - n));
  }

  lemma ValidPrefix(s: seq<Byte>, k: nat)
    requires 0 < CharLength(s) <= k <= |s| && Valid(s[CharLength(s)..][..k - CharLength(s)])
    ensures Valid(s[..k])
  {
    CharOfPrefix(s, k);
    assert s[..k][CharLength(s)..] == s[CharLength(s)..][..k - CharLength(s)];
  }

  lemma CutInsideChar(s: seq<Byte>, max: nat)
    requires max < CharLength(s)
    ensures CutAt(s, max) == 0
  {
    CutIs(s, max, 0);
  }

  /** Cutting valid text leaves valid text, and drops less than one character more than it must. */
  lemma {:induction false} TruncateIsValid(s: seq<Byte>, max: nat)
    requires Valid(s)
    ensures Valid(Truncate(s, max))
    ensures |s| > max ==> |Truncate(s, max)| > max - 4
    decreases |s|
  {
    if |s| > max {
      if max < CharLength(s) {
        CutInsideChar(s, max);
      } else {
        CutPastChar(s, max);
        TruncateIsValid(s[CharLength(s)..], max - CharLength(s));
        ValidPrefix(s, CutAt(s, max));
      }
    }
  }

  // ---- Text as its characters --------------------------------------------------------------------------

  /** A Unicode scalar value. */
  type Scalar = c: nat | c < 0xd800 || 0xe000 <= c < 0x11_0000

  /** Its bytes (section 3 of RFC 3629). */
  function Encode(c: Scalar): (bytes: seq<Byte>)
    ensures 1 <= |bytes| <= 4
  {
    if c < 0x80 then [c]
    else if c < 0x800 then [0xc0 + c / 0x40, 0x80 + c % 0x40]
    else if c < 0x1_0000 then [0xe0 + c / 0x1000, 0x80 + c / 0x40 % 0x40, 0x80 + c % 0x40]
    else [0xf0 + c / 0x4_0000, 0x80 + c / 0x1000 % 0x40, 0x80 + c / 0x40 % 0x40, 0x80 + c % 0x40]
  }

  function EncodeAll(points: seq<Scalar>): seq<Byte> {
    if points == [] then [] else Encode(points[0]) + EncodeAll(points[1..])
  }

  lemma EncodedThree(c: Scalar)
    requires 0x800 <= c < 0x1_0000
    ensures CharLength(Encode(c)) == 3
  {
    assert 0x40 * (c / 0x1000) + c / 0x40 % 0x40 == c / 0x40;
  }

  lemma EncodedFour(c: Scalar)
    requires 0x1_0000 <= c
    ensures CharLength(Encode(c)) == 4
  {
    assert 0x40 * (c / 0x4_0000) + c / 0x1000 % 0x40 == c / 0x1000;
  }

  lemma EncodedChar(c: Scalar)
    ensures CharLength(Encode(c)) == |Encode(c)|
  {
    if c >= 0x1_0000 {
      EncodedFour(c);
    } else if c >= 0x800 {
      EncodedThree(c);
    }
  }

  lemma FirstChar(points: seq<Scalar>)
    requires points != []
    ensures var s := EncodeAll(points);
            s != [] && CharLength(s) == |Encode(points[0])| && s[CharLength(s)..] == EncodeAll(points[1..])
  {
    EncodedChar(points[0]);
    CharExtends(Encode(points[0]), EncodeAll(points[1..]));
  }

  lemma {:induction false} EncodedIsValid(points: seq<Scalar>)
    ensures Valid(EncodeAll(points))
  {
    if points != [] {
      FirstChar(points);
      EncodedIsValid(points[1..]);
    }
  }

  lemma TwoBytes(a: nat, b: nat) returns (c: Scalar)
    requires 0xc2 <= a <= 0xdf && 0x80 <= b < 0xc0
    ensures Encode(c) == [a, b]
  {
    c := (a - 0xc0) * 0x40 + (b - 0x80);
  }

  lemma ThreeBytes(a: nat, b: nat, d: nat) returns (c: Scalar)
    requires 0xe0 <= a <= 0xef && 0x80 <= b < 0xc0 && 0x80 <= d < 0xc0
    requires (a == 0xe0 ==> 0xa0 <= b) && (a == 0xed ==> b < 0xa0)
    ensures Encode(c) == [a, b, d]
  {
    c := (a - 0xe0) * 0x1000 + (b - 0x80) * 0x40 + (d - 0x80);
    assert c / 0x40 == (a - 0xe0) * 0x40 + (b - 0x80);
  }

  lemma FourBytes(a: nat, b: nat, d: nat, e: nat) returns (c: Scalar)
    requires 0xf0 <= a <= 0xf4 && 0x80 <= b < 0xc0 && 0x80 <= d < 0xc0 && 0x80 <= e < 0xc0
    requires (a == 0xf0 ==> 0x90 <= b) && (a == 0xf4 ==> b < 0x90)
    ensures Encode(c) == [a, b, d, e]
  {
    c := (a - 0xf0) * 0x4_0000 + (b - 0x80) * 0x1000 + (d - 0x80) * 0x40 + (e - 0x80);
    assert c / 0x40 == (a - 0xf0) * 0x1000 + (b - 0x80) * 0x40 + (d - 0x80);
    assert c / 0x1000 == (a - 0xf0) * 0x40 + (b - 0x80);
  }

  /** Every character the syntax allows encodes a scalar value. */
  lemma CharIsEncoded(s: seq<Byte>) returns (c: Scalar)
    requires CharLength(s) > 0
    ensures Encode(c) == s[..CharLength(s)]
  {
    var n := CharLength(s);
    if n == 1 {
      c := s[0];
    } else if n == 2 {
      c := TwoBytes(s[0], s[1]);
    } else if n == 3 {
      c := ThreeBytes(s[0], s[1], s[2]);
    } else {
      c := FourBytes(s[0], s[1], s[2], s[3]);
    }
  }

  /** Valid bytes are exactly the encodings of texts. */
  lemma {:induction false} ValidIsEncoded(s: seq<Byte>) returns (points: seq<Scalar>)
    requires Valid(s)
    ensures EncodeAll(points) == s
    decreases |s|
  {
    if s == [] {
      return [];
    }
    var first := CharIsEncoded(s);
    var rest := ValidIsEncoded(s[CharLength(s)..]);
    points := [first] + rest;
    assert points[1..] == rest;
  }

  lemma EncodeOneMore(points: seq<Scalar>, k: nat)
    requires 1 <= k <= |points|
    ensures EncodeAll(points[..k]) == Encode(points[0]) + EncodeAll(points[1..][..k - 1])
  {
    assert points[..k][1..] == points[1..][..k - 1];
  }

  /** The cut keeps exactly the first `k` characters: one more would not fit. */
  predicate KeepsWhole(points: seq<Scalar>, s: seq<Byte>, max: nat, k: nat) {
    && k <= |points| && Truncate(s, max) == EncodeAll(points[..k]) && |EncodeAll(points[..k])| <= max
    && (k < |points| ==> |EncodeAll(points[..k + 1])| > max)
  }

  lemma PrefixOf(a: seq<Byte>, b: seq<Byte>, k: nat)
    requires k <= |b|
    ensures (a + b)[..|a| + k] == a + b[..k]
  {
  }

  lemma CutShift(s: seq<Byte>, first: seq<Byte>, rest: seq<Byte>, max: nat)
    requires s == first + rest && Valid(s) && s != [] && CharLength(s) == |first| <= max < |s|
    ensures CutAt(s, max) == |first| + CutAt(rest, max - |first|)
  {
    assert s[|first|..] == rest;
    CutPastChar(s, max);
  }

  /** Cutting past the first character leaves it and cuts the rest. */
  lemma TruncateRest(s: seq<Byte>, first: seq<Byte>, rest: seq<Byte>, max: nat)
    requires s == first + rest && Valid(s) && s != [] && CharLength(s) == |first| <= max < |s|
    ensures Truncate(s, max) == first + Truncate(rest, max - |first|)
  {
    var c := CutAt(rest, max - |first|);
    CutShift(s, first, rest, max);
    PrefixOf(first, rest, c);
    assert Truncate(s, max) == s[..|first| + c] && Truncate(rest, max - |first|) == rest[..c];
  }

  lemma KeepsOneMore(points: seq<Scalar>, s: seq<Byte>, max: nat, rest: seq<Byte>, k: nat)
    requires points != [] && s == EncodeAll(points) && rest == EncodeAll(points[1..]) && |Encode(points[0])| <= max < |s|
    requires KeepsWhole(points[1..], rest, max - |Encode(points[0])|, k)
    ensures KeepsWhole(points, s, max, k + 1)
  {
    FirstChar(points);
    EncodedIsValid(points);
    TruncateRest(s, Encode(points[0]), rest, max);
    EncodeOneMore(points, k + 1);
    if k + 1 < |points| {
      EncodeOneMore(points, k + 2);
    }
  }

  lemma KeepsAll(points: seq<Scalar>, s: seq<Byte>, max: nat)
    requires s == EncodeAll(points) && |s| <= max
    ensures KeepsWhole(points, s, max, |points|)
  {
    assert points[..|points|] == points;
  }

  lemma KeepsNone(points: seq<Scalar>, s: seq<Byte>, max: nat)
    requires points != [] && s == EncodeAll(points) && max < |Encode(points[0])|
    ensures KeepsWhole(points, s, max, 0)
  {
    FirstChar(points);
    CutInsideChar(s, max);
    EncodeOneMore(points, 1);
    assert EncodeAll(points[..0]) == [];
  }

  /** Cutting a text keeps as many of its first characters, whole, as the bytes allow. */
  lemma {:induction false} TruncateKeepsWhole(points: seq<Scalar>, max: nat) returns (k: nat)
    ensures KeepsWhole(points, EncodeAll(points), max, k)
    decreases |points|
  {
    var s := EncodeAll(points);
    if |s| <= max {
      KeepsAll(points, s, max);
      k := |points|;
    } else if max < |Encode(points[0])| {
      KeepsNone(points, s, max);
      k := 0;
    } else {
      var later := TruncateKeepsWhole(points[1..], max - |Encode(points[0])|);
      KeepsOneMore(points, s, max, EncodeAll(points[1..]), later);
      k := later + 1;
    }
  }
}
