/**
 UTF-16 strings and their Unicode code points, as JavaScript's string iterator splits them: a surrogate
 pair is one code point, and an unpaired surrogate is one by itself.
 */
module Scalars {

  type Unit = u: nat | u < 0x10000

  predicate IsHigh(u: Unit) { 0xD800 <= u < 0xDC00 }

  predicate IsLow(u: Unit) { 0xDC00 <= u < 0xE000 }

  predicate StartsWithPair(s: seq<Unit>) {
    |s| >= 2 && IsHigh(s[0]) && IsLow(s[1])
  }

  /** The number of units of the first code point. */
  function Width(s: seq<Unit>): (n: nat)
    requires s != []
    ensures 1 <= n <= |s| && n <= 2
  {
    if StartsWithPair(s) then 2 else 1
  }

  /** How many code points a string has. */
  function Count(s: seq<Unit>): (n: nat)
    ensures n <= |s| <= 2 * n
  {
    if s == [] then 0 else 1 + Count(s[Width(s)..])
  }

  /** The number of units the first `n` code points take. */
  function UnitsOf(s: seq<Unit>, n: nat): (units: nat)
    ensures units <= |s|
  {
    if s == [] || n == 0 then 0 else Width(s) + UnitsOf(s[Width(s)..], n - 1)
  }

  /** The first `n` code points of a string. */
  function FirstScalars(s: seq<Unit>, n: nat): (prefix: seq<Unit>)
    ensures prefix <= s
  {
    s[..UnitsOf(s, n)]
  }

  datatype Clipped = Clipped(value: seq<Unit>, truncated: bool)

  /** The cap on a string: a pre-slice of two units a code point, then the first `maximum` code points of it. */
  function ClipScalars(value: seq<Unit>, maximum: nat): Clipped {
    if |value| <= maximum then Clipped(value, false)
    else Clipped(FirstScalars(value[..if 2 * maximum < |value| then 2 * maximum else |value|], maximum), true)
  }

  /** The first code points of a string are its first one and the first of the rest. */
  lemma FirstScalarsSplit(s: seq<Unit>, n: nat)
    requires s != [] && n > 0
    ensures var w, rest := Width(s), FirstScalars(s[Width(s)..], n - 1);
            var prefix := FirstScalars(s, n);
            prefix != [] && prefix == s[..w] + rest && Width(prefix) == w && prefix[w..] == rest
  {
    var w := Width(s);
    var units := w + UnitsOf(s[w..], n - 1);
    assert FirstScalars(s, n) == s[..units];
    assert s[..units][w..] == s[w..][..units - w];
    if w == 1 && units >= 2 {
      assert s[..units][1] == s[1];
    }
  }

  lemma SplitAt(s: seq<Unit>, w: nat, rest: seq<Unit>)
    requires w <= |s|
    ensures s[..w] + rest == s <==> rest == s[w..]
  {
    assert s[..w] + s[w..] == s;
    assert (s[..w] + rest)[w..] == rest;
  }

  /** Cutting a string at `n` code points keeps exactly that many, or all it has. */
  lemma {:induction false} FirstScalarsCount(s: seq<Unit>, n: nat)
    ensures Count(FirstScalars(s, n)) == if Count(s) < n then Count(s) else n
    ensures FirstScalars(s, n) == s <==> Count(s) <= n
    decreases |s|
  {
    if s != [] && n != 0 {
      var w := Width(s);
      var rest := FirstScalars(s[w..], n - 1);
      FirstScalarsSplit(s, n);
      FirstScalarsCount(s[w..], n - 1);
      SplitAt(s, w, rest);
    }
  }

  /** A pre-slice of two units a code point may cut a pair in half, but never one of the first `n` code points. */
  lemma PreSliceIsEnough(s: seq<Unit>, n: nat, k: nat)
    requires 2 * n <= k <= |s|
    ensures UnitsOf(s[..k], n) == UnitsOf(s, n)
  {
    if s != [] && n != 0 {
      var w := Width(s);
      assert Width(s[..k]) == w;
      assert s[..k][w..] == s[w..][..k - w];
      PreSliceIsEnough(s[w..], n - 1, k - w);
    }
  }

  /** The cap returns exactly the first `maximum` code points, and reports it did nothing only when it did nothing. */
  lemma ClipIsFirstScalars(value: seq<Unit>, maximum: nat)
    ensures ClipScalars(value, maximum).value == FirstScalars(value, maximum)
    ensures !ClipScalars(value, maximum).truncated ==> ClipScalars(value, maximum).value == value
  {
    FirstScalarsCount(value, maximum);
    if 2 * maximum < |value| {
      PreSliceIsEnough(value, maximum, 2 * maximum);
      var units := UnitsOf(value, maximum);
      UnitsBound(value, maximum);
      assert value[..2 * maximum][..units] == value[..units];
    } else {
      assert value[..|value|] == value;
    }
  }

  lemma UnitsBound(s: seq<Unit>, n: nat)
    ensures UnitsOf(s, n) <= 2 * n
  {
    if s != [] && n != 0 {
      UnitsBound(s[Width(s)..], n - 1);
    }
  }

  // ---- UTF-16 --------------------------------------------------------------------------------------

  type CodePoint = c: nat | c < 0x11_0000

  /** One code point in UTF-16 (section 3.9 of the Unicode Standard); a lone surrogate stands for itself. */
  function Encode(c: CodePoint): (units: seq<Unit>)
    ensures units != []
  {
    if c < 0x1_0000 then [c] else [0xD800 + (c - 0x1_0000) / 0x400, 0xDC00 + (c - 0x1_0000) % 0x400]
  }

  function EncodeAll(points: seq<CodePoint>): seq<Unit> {
    if points == [] then [] else Encode(points[0]) + EncodeAll(points[1..])
  }

  /** A lone high surrogate right before a lone low one would read as one code point. */
  predicate ReadsAsPair(points: seq<CodePoint>, i: nat)
    requires i + 1 < |points|
  {
    0xD800 <= points[i] <= 0xDBFF && 0xDC00 <= points[i + 1] <= 0xDFFF
  }

  predicate Unambiguous(points: seq<CodePoint>) {
    forall i :: 0 <= i < |points| - 1 ==> !ReadsAsPair(points, i)
  }

  lemma RestIsUnambiguous(points: seq<CodePoint>)
    requires points != [] && Unambiguous(points)
    ensures Unambiguous(points[1..])
  {
    forall i | 0 <= i < |points[1..]| - 1 ensures !ReadsAsPair(points[1..], i) {
      assert !ReadsAsPair(points, i + 1);
    }
  }

  /** The first code point of a text takes the units it was written with. */
  lemma FirstWidth(points: seq<CodePoint>)
    requires points != [] && Unambiguous(points)
    ensures var s := EncodeAll(points);
            s != [] && Width(s) == |Encode(points[0])| && s[Width(s)..] == EncodeAll(points[1..])
  {
    var first, rest := Encode(points[0]), EncodeAll(points[1..]);
    assert (first + rest)[|first|..] == rest;
    if points[0] < 0x1_0000 && |points| > 1 {
      assert !ReadsAsPair(points, 0);
      assert rest[0] == Encode(points[1])[0];
    }
  }

  /** Cutting a text at `n` code points keeps the first `n` code points it was written from. */
  lemma {:induction false} FirstScalarsAreFirst(points: seq<CodePoint>, n: nat)
    requires Unambiguous(points)
    ensures Count(EncodeAll(points)) == |points|
    ensures FirstScalars(EncodeAll(points), n) == EncodeAll(if n < |points| then points[..n] else points)
    decreases |points|
  {
    var s := EncodeAll(points);
    if points != [] {
      FirstWidth(points);
      RestIsUnambiguous(points);
      FirstScalarsAreFirst(points[1..], if n == 0 then 0 else n - 1);
      if n != 0 {
        FirstScalarsSplit(s, n);
        if n < |points| {
          assert points[..n][0] == points[0] && points[..n][1..] == points[1..][..n - 1];
        }
      }
    }
  }

  lemma PairPoint(high: Unit, low: Unit) returns (c: CodePoint)
    requires IsHigh(high) && IsLow(low)
    ensures Encode(c) == [high, low] && c >= 0x1_0000
  {
    c := 0x1_0000 + 0x400 * (high - 0xD800) + (low - 0xDC00);
  }

  /** Every string is written from code points, and `Count` counts them. */
  lemma {:induction false} EveryStringDecodes(s: seq<Unit>) returns (points: seq<CodePoint>)
    ensures EncodeAll(points) == s && Unambiguous(points)
    ensures Count(s) == |points|
    decreases |s|
  {
    if s == [] {
      return [];
    }
    var rest := EveryStringDecodes(s[Width(s)..]);
    var first: CodePoint := s[0];
    if StartsWithPair(s) {
      first := PairPoint(s[0], s[1]);
      assert s == [s[0], s[1]] + s[2..];
    }
    points := [first] + rest;
    assert points[1..] == rest;
    forall i | 0 <= i < |points| - 1 ensures !ReadsAsPair(points, i) {
      if i == 0 {
        assert Encode(rest[0])[0] == s[Width(s)..][0];
      } else {
        assert !ReadsAsPair(rest, i - 1);
      }
    }
  }
}
