/**
 The searchable text of a raw message: the string leaves of its tree in key order, joined by newlines and cut
 at a byte cap. The walk stops as soon as the cap is reached.
 */
module RawSearch {
  import opened Bytes
  import opened Keys
  import opened Utf8

  datatype Value =
    | Obj(fields: map<string, Value>)
    | Arr(items: seq<Value>)
    | Str(text: seq<Byte>)
    | Scalar

  const NEWLINE: Byte := 10

  // ---- Key order -------------------------------------------------------------------------------------

  /** Case-insensitive order, ties broken by the key itself. `lower` is the library's case mapping. */
  predicate KeyLess(lower: string -> string, a: string, b: string) {
    if lower(a) == lower(b) then StringLess(a, b) else StringLess(lower(a), lower(b))
  }

  lemma KeyLessIsStrictTotal(lower: string -> string, a: string, b: string)
    ensures !(KeyLess(lower, a, b) && KeyLess(lower, b, a))
    ensures KeyLess(lower, a, b) || a == b || KeyLess(lower, b, a)
  {
    StringLessIsStrict(a, b);
    StringLessIsStrict(lower(a), lower(b));
  }

  lemma KeyLessIsTransitive(lower: string -> string, a: string, b: string, c: string)
    requires KeyLess(lower, a, b) && KeyLess(lower, b, c)
    ensures KeyLess(lower, a, c)
  {
    StringLessIsStrict(lower(a), lower(b));
    if lower(a) == lower(b) == lower(c) {
      StringLessIsTransitive(a, b, c);
    } else if lower(a) != lower(b) && lower(b) != lower(c) {
      StringLessIsTransitive(lower(a), lower(b), lower(c));
    }
  }

  predicate IsLeast(lower: string -> string, least: string, names: set<string>) {
    least in names && forall name <- names :: name == least || KeyLess(lower, least, name)
  }

  lemma LeastExists(lower: string -> string, names: set<string>)
    requires names != {}
    ensures exists least :: IsLeast(lower, least, names)
    decreases |names|
  {
    var one :| one in names;
    if names == {one} {
      assert IsLeast(lower, one, names);
    } else {
      assert names - {one} != {};
      LeastExists(lower, names - {one});
      var other :| IsLeast(lower, other, names - {one});
      LeastOfBoth(lower, one, other, names);
    }
  }

  lemma LeastOfBoth(lower: string -> string, one: string, other: string, names: set<string>)
    requires one in names && IsLeast(lower, other, names - {one})
    ensures IsLeast(lower, if KeyLess(lower, other, one) then other else one, names)
  {
    KeyLessIsStrictTotal(lower, one, other);
    if !KeyLess(lower, other, one) {
      forall name <- names ensures name == one || KeyLess(lower, one, name) {
        if name != one && name != other {
          KeyLessIsTransitive(lower, one, other, name);
        }
      }
    }
  }

  /** Keys in order: `sortRawKeys` of an object's keys. */
  ghost function Listing(lower: string -> string, names: set<string>): (keys: seq<string>)
    ensures forall key <- keys :: key in names
    decreases |names|
  {
    if names == {} then []
    else
      LeastExists(lower, names);
      var least :| IsLeast(lower, least, names);
      [least] + Listing(lower, names - {least})
  }

  /** Exactly these keys, strictly increasing. */
  predicate Lists(lower: string -> string, keys: seq<string>, names: set<string>) {
    && (forall i, j :: 0 <= i < j < |keys| ==> KeyLess(lower, keys[i], keys[j]))
    && (forall i :: 0 <= i < |keys| ==> keys[i] in names)
    && (forall name <- names :: name in keys)
  }

  lemma LeastIsOnly(lower: string -> string, names: set<string>, least: string)
    requires IsLeast(lower, least, names)
    ensures Listing(lower, names) == [least] + Listing(lower, names - {least})
  {
    forall other | IsLeast(lower, other, names) ensures other == least {
      KeyLessIsStrictTotal(lower, least, other);
    }
  }

  lemma {:induction false} ListingLists(lower: string -> string, names: set<string>)
    ensures Lists(lower, Listing(lower, names), names)
    decreases |names|
  {
    if names != {} {
      LeastExists(lower, names);
      var least :| IsLeast(lower, least, names);
      LeastIsOnly(lower, names, least);
      ListingLists(lower, names - {least});
      LeastFirst(lower, least, Listing(lower, names - {least}), names);
    }
  }

  lemma LeastFirst(lower: string -> string, least: string, rest: seq<string>, names: set<string>)
    requires IsLeast(lower, least, names) && Lists(lower, rest, names - {least})
    ensures Lists(lower, [least] + rest, names)
  {
    var keys := [least] + rest;
    forall i, j | 0 <= i < j < |keys| ensures KeyLess(lower, keys[i], keys[j]) {
      assert keys[j] == rest[j - 1];
      if i == 0 {
        assert rest[j - 1] in names - {least};
      } else {
        assert keys[i] == rest[i - 1];
      }
    }
  }

  /** The order is total, so an object's keys have exactly one listing: two parses of one message agree. */
  lemma {:induction false} ListingIsOnly(lower: string -> string, keys: seq<string>, names: set<string>)
    requires Lists(lower, keys, names)
    ensures keys == Listing(lower, names)
    decreases |names|
  {
    if names == {} {
      assert |keys| == 0;
    } else {
      FirstIsLeast(lower, keys, names);
      LeastIsOnly(lower, names, keys[0]);
      ListingIsOnly(lower, keys[1..], names - {keys[0]});
      assert keys == [keys[0]] + keys[1..];
    }
  }

  lemma FirstIsLeast(lower: string -> string, keys: seq<string>, names: set<string>)
    requires Lists(lower, keys, names) && names != {}
    ensures keys != [] && IsLeast(lower, keys[0], names)
    ensures Lists(lower, keys[1..], names - {keys[0]})
  {
    var some :| some in names;
    assert some in keys;
    forall i | 1 <= i < |keys| ensures keys[i] != keys[0] {
      KeyLessIsStrictTotal(lower, keys[0], keys[i]);
    }
    forall name <- names ensures name == keys[0] || (name in keys[1..] && KeyLess(lower, keys[0], name)) {
      var i :| 0 <= i < |keys| && keys[i] == name;
      assert i > 0 ==> keys[1..][i - 1] == name;
    }
  }

  method SortRawKeys(lower: string -> string, names: set<string>) returns (keys: seq<string>)
    ensures keys == Listing(lower, names)
  {
    keys := [];
    var rest := names;
    while rest != {}
      invariant keys + Listing(lower, rest) == Listing(lower, names)
      decreases |rest|
    {
      LeastExists(lower, rest);
      var next :| next in rest && IsLeast(lower, next, rest);
      LeastIsOnly(lower, rest, next);
      rest := rest - {next};
      MoveFirst(keys, next, Listing(lower, rest));
      keys := keys + [next];
    }
  }

  lemma MoveFirst(a: seq<string>, x: string, b: seq<string>)
    ensures a + ([x] + b) == (a + [x]) + b
  {
  }

  // ---- The simple form -------------------------------------------------------------------------------

  /** The string leaves of a tree, in key order. */
  ghost function Leaves(lower: string -> string, value: Value): seq<seq<Byte>>
    decreases value, 1, 0
  {
    match value
    case Obj(fields) => FieldLeaves(lower, value, Listing(lower, fields.Keys))
    case Arr(items) => ItemLeaves(lower, value, |items|)
    case Str(text) => [text]
    case Scalar => []
  }

  ghost function FieldLeaves(lower: string -> string, value: Value, keys: seq<string>): seq<seq<Byte>>
    requires value.Obj? && forall key <- keys :: key in value.fields
    decreases value, 0, |keys|
  {
    if keys == [] then []
    else FieldLeaves(lower, value, keys[..|keys| - 1]) + Leaves(lower, value.fields[keys[|keys| - 1]])
  }

  ghost function ItemLeaves(lower: string -> string, value: Value, n: nat): seq<seq<Byte>>
    requires value.Arr? && n <= |value.items|
    decreases value, 0, n
  {
    if n == 0 then [] else ItemLeaves(lower, value, n - 1) + Leaves(lower, value.items[n - 1])
  }

  /** The non-empty leaves joined by newlines. */
  function Join(leaves: seq<seq<Byte>>): seq<Byte> {
    if leaves == [] then []
    else
      Extend(Join(leaves[..|leaves| - 1]), leaves[|leaves| - 1])
  }

  function Extend(before: seq<Byte>, leaf: seq<Byte>): seq<Byte> {
    if leaf == [] then before else if before == [] then leaf else before + [NEWLINE] + leaf
  }

  // ---- The bounded accumulator -----------------------------------------------------------------------

  datatype Text = Text(buf: seq<Byte>, full: bool)

  function AddTo(t: Text, leaf: seq<Byte>, max: nat): Text {
    if t.full || leaf == [] then t
    else if t.buf != [] && |t.buf| + 1 > max then t.(full := true)
    else
      var buf := if t.buf == [] then [] else t.buf + [NEWLINE];
      if |buf| >= max then Text(buf, true)
      else Text(buf + Truncate(leaf, max - |buf|), |leaf| > max - |buf|)
  }

  function AddAll(t: Text, leaves: seq<seq<Byte>>, max: nat): Text {
    if leaves == [] then t else AddTo(AddAll(t, leaves[..|leaves| - 1], max), leaves[|leaves| - 1], max)
  }

  lemma {:induction false} AddAllConcat(t: Text, a: seq<seq<Byte>>, b: seq<seq<Byte>>, max: nat)
    ensures AddAll(t, a + b, max) == AddAll(AddAll(t, a, max), b, max)
    decreases |b|
  {
    if b == [] {
      assert a + b == a;
    } else {
      assert (a + b)[..|a + b| - 1] == a + b[..|b| - 1];
      AddAllConcat(t, a, b[..|b| - 1], max);
    }
  }

  lemma {:induction false} FullStaysFull(t: Text, leaves: seq<seq<Byte>>, max: nat)
    requires t.full
    ensures AddAll(t, leaves, max) == t
    decreases |leaves|
  {
    if leaves != [] {
      FullStaysFull(t, leaves[..|leaves| - 1], max);
    }
  }

  class BoundedText {
    var buf: seq<Byte>
    const max: nat
    var full: bool

    constructor (max: nat)
      ensures this.max == max && View() == Text([], false)
    {
      this.max := max;
      buf, full := [], false;
    }

    ghost function View(): Text
      reads this
    {
      Text(buf, full)
    }

    method Add(leaf: seq<Byte>)
      modifies this
      ensures View() == AddTo(old(View()), leaf, max)
    {
      if full || leaf == [] {
        return;
      }
      if |buf| > 0 {
        if |buf| + 1 > max {
          full := true;
          return;
        }
        buf := buf + [NEWLINE];
      }
      var room := max - |buf|;
      if room <= 0 {
        full := true;
        return;
      }
      var kept := leaf;
      if |leaf| > room {
        kept := TruncateUtf8(leaf, room);
        full := true;
      }
      buf := buf + kept;
    }
  }

  /** The walk. Once the text is full no further leaf is looked at. */
  method CollectStringLeaves(lower: string -> string, value: Value, out: BoundedText)
    modifies out
    ensures out.View() == AddAll(old(out.View()), Leaves(lower, value), out.max)
    decreases value, 1
  {
    if out.full {
      FullStaysFull(out.View(), Leaves(lower, value), out.max);
      return;
    }
    match value
    case Obj(fields) => CollectFields(lower, value, out);
    case Arr(items) => CollectItems(lower, value, out);
    case Str(text) =>
      out.Add(text);
      assert [text][..0] == [];
    case Scalar =>
  }

  method CollectFields(lower: string -> string, value: Value, out: BoundedText)
    requires value.Obj?
    modifies out
    ensures out.View() == AddAll(old(out.View()), FieldLeaves(lower, value, Listing(lower, value.fields.Keys)), out.max)
    decreases value, 0
  {
    var keys := SortRawKeys(lower, value.fields.Keys);
    for i := 0 to |keys|
      invariant out.View() == AddAll(old(out.View()), FieldLeaves(lower, value, keys[..i]), out.max)
    {
      assert keys[i] in keys;
      CollectStringLeaves(lower, value.fields[keys[i]], out);
      FieldsSoFar(lower, value, keys, i, old(out.View()), out.max);
      if out.full {
        RestChangesNothing(lower, value, keys, i + 1, old(out.View()), out.max);
        return;
      }
    }
    assert keys[..|keys|] == keys;
  }

  lemma FieldsSoFar(lower: string -> string, value: Value, keys: seq<string>, i: nat, t: Text, max: nat)
    requires value.Obj? && i < |keys| && forall key <- keys :: key in value.fields
    ensures AddAll(t, FieldLeaves(lower, value, keys[..i + 1]), max) ==
            AddAll(AddAll(t, FieldLeaves(lower, value, keys[..i]), max), Leaves(lower, value.fields[keys[i]]), max)
  {
    assert keys[..i + 1][..i] == keys[..i];
    AddAllConcat(t, FieldLeaves(lower, value, keys[..i]), Leaves(lower, value.fields[keys[i]]), max);
  }

  method CollectItems(lower: string -> string, value: Value, out: BoundedText)
    requires value.Arr?
    modifies out
    ensures out.View() == AddAll(old(out.View()), ItemLeaves(lower, value, |value.items|), out.max)
    decreases value, 0
  {
    for i := 0 to |value.items|
      invariant out.View() == AddAll(old(out.View()), ItemLeaves(lower, value, i), out.max)
    {
      CollectStringLeaves(lower, value.items[i], out);
      AddAllConcat(old(out.View()), ItemLeaves(lower, value, i), Leaves(lower, value.items[i]), out.max);
      if out.full {
        RestOfItemsChangesNothing(lower, value, i + 1, |value.items|, old(out.View()), out.max);
        return;
      }
    }
  }

  lemma {:induction false} RestChangesNothing(lower: string -> string, value: Value, keys: seq<string>, n: nat, t: Text, max: nat)
    requires value.Obj? && n <= |keys| && forall key <- keys :: key in value.fields
    requires AddAll(t, FieldLeaves(lower, value, keys[..n]), max).full
    ensures AddAll(t, FieldLeaves(lower, value, keys), max) == AddAll(t, FieldLeaves(lower, value, keys[..n]), max)
    decreases |keys|
  {
    if n == |keys| {
      assert keys[..n] == keys;
    } else {
      var shorter, leaves := keys[..|keys| - 1], Leaves(lower, value.fields[keys[|keys| - 1]]);
      assert shorter[..n] == keys[..n];
      RestChangesNothing(lower, value, shorter, n, t, max);
      AddAllConcat(t, FieldLeaves(lower, value, shorter), leaves, max);
      FullStaysFull(AddAll(t, FieldLeaves(lower, value, shorter), max), leaves, max);
    }
  }

  lemma {:induction false} RestOfItemsChangesNothing(lower: string -> string, value: Value, n: nat, m: nat, t: Text, max: nat)
    requires value.Arr? && n <= m <= |value.items|
    requires AddAll(t, ItemLeaves(lower, value, n), max).full
    ensures AddAll(t, ItemLeaves(lower, value, m), max) == AddAll(t, ItemLeaves(lower, value, n), max)
    decreases m
  {
    if n < m {
      RestOfItemsChangesNothing(lower, value, n, m - 1, t, max);
      AddAllConcat(t, ItemLeaves(lower, value, m - 1), Leaves(lower, value.items[m - 1]), max);
      FullStaysFull(AddAll(t, ItemLeaves(lower, value, m - 1), max), Leaves(lower, value.items[m - 1]), max);
    }
  }

  // ---- The early stop against the simple form --------------------------------------------------------

  /** The text of a tree, as the walk builds it. */
  ghost function SearchText(lower: string -> string, tree: Value, max: nat): seq<Byte> {
    AddAll(Text([], false), Leaves(lower, tree), max).buf
  }

  method RawSearchText(lower: string -> string, tree: Value, max: nat) returns (text: seq<Byte>)
    ensures text == SearchText(lower, tree, max)
  {
    var out := new BoundedText(max);
    CollectStringLeaves(lower, tree, out);
    return out.buf;
  }

  /** None of the first `n` bytes may begin a character. */
  predicate Continues(leaf: seq<Byte>, n: nat)
    requires n <= |leaf|
  {
    forall i :: 0 <= i < n ==> !Starts(leaf[i])
  }

  /** Leaf `k` crosses the cap, is not the first, and has no byte up to the cap that may begin a character. */
  predicate Strays(leaves: seq<seq<Byte>>, k: nat, max: nat) {
    k < |leaves| &&
    var before, leaf := Join(leaves[..k]), leaves[k];
    before != [] && |before| < max < |before| + 1 + |leaf| && Continues(leaf, max - |before|)
  }

  ghost predicate Stray(leaves: seq<seq<Byte>>, max: nat) {
    exists k :: Strays(leaves, k, max)
  }

  /** The cut of a joined text falls in its last leaf, or else on the newline before it. */
  lemma CutInLeaf(joined: seq<Byte>, leaf: seq<Byte>, room: nat)
    requires room < |leaf| && exists i :: 0 <= i <= room && Starts(leaf[i])
    ensures Truncate(joined + leaf, |joined| + room) == joined + Truncate(leaf, room)
  {
    var c := CutAt(leaf, room);
    var some :| 0 <= some <= room && Starts(leaf[some]);
    assert some <= c && Starts(leaf[c]);
    CutIs(joined + leaf, |joined| + room, |joined| + c);
  }

  lemma CutBeforeLeaf(joined: seq<Byte>, leaf: seq<Byte>, room: nat)
    requires room < |leaf| && forall i :: 0 <= i <= room ==> !Starts(leaf[i])
    requires joined != [] && Starts(joined[|joined| - 1])
    ensures Truncate(joined + leaf, |joined| + room) == joined[..|joined| - 1]
  {
    CutIs(joined + leaf, |joined| + room, |joined| - 1);
  }

  lemma TruncateIgnoresTail(s: seq<Byte>, more: seq<Byte>, max: nat)
    requires |s| > max
    ensures Truncate(s + more, max) == Truncate(s, max)
  {
    CutIs(s + more, max, CutAt(s, max));
  }

  lemma FirstLeafCrosses(leaf: seq<Byte>, max: nat)
    requires |leaf| > max
    ensures AddTo(Text([], false), leaf, max) == Text(Truncate(leaf, max), true)
  {
    if max == 0 {
      assert Truncate(leaf, 0) == [];
    }
  }

  lemma LeafAfterFullText(before: seq<Byte>, leaf: seq<Byte>, max: nat)
    requires before != [] && |before| == max && leaf != []
    ensures Truncate(before + [NEWLINE] + leaf, max) == before
  {
    var all := before + [NEWLINE] + leaf;
    CutIs(all, max, max);
    assert all[..max] == before;
  }

  /** A crossing leaf that nothing can be kept of leaves its separator behind. */
  lemma SeparatorStays(before: seq<Byte>, leaf: seq<Byte>, max: nat)
    requires before != [] && |before| < max < |before| + 1 + |leaf| && Continues(leaf, max - |before|)
    ensures AddTo(Text(before, false), leaf, max) == Text(before + [NEWLINE], true)
    ensures Truncate(before + [NEWLINE] + leaf, max) == before
  {
    var room := max - |before| - 1;
    CutBeforeLeaf(before + [NEWLINE], leaf, room);
    CutIs(leaf, room, 0);
  }

  lemma LeafIsCut(before: seq<Byte>, leaf: seq<Byte>, max: nat)
    requires before != [] && |before| < max < |before| + 1 + |leaf| && !Continues(leaf, max - |before|)
    ensures AddTo(Text(before, false), leaf, max) == Text(Truncate(before + [NEWLINE] + leaf, max), true)
  {
    var room := max - |before| - 1;
    CutInLeaf(before + [NEWLINE], leaf, room);
    if room == 0 {
      assert Truncate(leaf, 0) == [];
    }
  }

  /** One leaf that crosses the cap. */
  lemma CrossingLeaf(before: seq<Byte>, leaf: seq<Byte>, max: nat)
    requires |before| <= max < |Extend(before, leaf)|
    ensures var cut := Truncate(Extend(before, leaf), max);
            AddTo(Text(before, false), leaf, max) ==
            Text(if before != [] && |before| < max && Continues(leaf, max - |before|) then cut + [NEWLINE] else cut, true)
  {
    if before == [] {
      FirstLeafCrosses(leaf, max);
    } else if |before| == max {
      LeafAfterFullText(before, leaf, max);
    } else if Continues(leaf, max - |before|) {
      SeparatorStays(before, leaf, max);
    } else {
      LeafIsCut(before, leaf, max);
    }
  }

  lemma StraysStay(leaves: seq<seq<Byte>>, max: nat)
    requires leaves != []
    ensures var n := |leaves| - 1; Stray(leaves, max) <==> Stray(leaves[..n], max) || Strays(leaves, n, max)
  {
    var n := |leaves| - 1;
    forall k | 0 <= k < n ensures Strays(leaves, k, max) <==> Strays(leaves[..n], k, max) {
      assert leaves[..n][..k] == leaves[..k];
    }
  }

  /** The accumulator after any leaves: full exactly when the joined text exceeds the cap, and then its cut. */
  lemma {:induction false} AccumulatorHolds(leaves: seq<seq<Byte>>, max: nat)
    ensures var t := AddAll(Text([], false), leaves, max);
            && (t.full <==> |Join(leaves)| > max)
            && (Stray(leaves, max) ==> t.full)
            && t.buf == if Stray(leaves, max) then Truncate(Join(leaves), max) + [NEWLINE] else Truncate(Join(leaves), max)
    decreases |leaves|
  {
    if leaves != [] {
      var n := |leaves| - 1;
      var earlier, leaf := leaves[..n], leaves[n];
      var before := Join(earlier);
      AccumulatorHolds(earlier, max);
      StraysStay(leaves, max);
      if |before| > max {
        TruncateIgnoresTail(before, Join(leaves)[|before|..], max);
        assert Join(leaves) == before + Join(leaves)[|before|..];
      } else if leaf != [] && |Join(leaves)| > max {
        CrossingLeaf(before, leaf, max);
      }
    }
  }

  /**
   The walk that stops early gives the simple form, the joined leaves cut at the cap, except that a leaf
   crossing the cap may leave its separator behind. That happens exactly when it is not the first and holds
   nothing up to the cap that could begin a character.
   */
  lemma WalkIsSimple(lower: string -> string, tree: Value, max: nat)
    ensures var joined := Join(Leaves(lower, tree));
            && (SearchText(lower, tree, max) == Truncate(joined, max) <==> !Stray(Leaves(lower, tree), max))
            && SearchText(lower, tree, max) <= joined
            && |SearchText(lower, tree, max)| <= max
  {
    var leaves := Leaves(lower, tree);
    AccumulatorHolds(leaves, max);
    if Stray(leaves, max) {
      var k :| Strays(leaves, k, max);
      StrayIsPrefix(leaves, k, max);
    }
  }

  lemma {:induction false} JoinGrows(leaves: seq<seq<Byte>>, k: nat)
    requires k <= |leaves|
    ensures Join(leaves[..k]) <= Join(leaves)
    decreases |leaves|
  {
    if k == |leaves| {
      assert leaves[..k] == leaves;
    } else {
      var n := |leaves| - 1;
      assert leaves[..n][..k] == leaves[..k];
      JoinGrows(leaves[..n], k);
    }
  }

  lemma StrayIsPrefix(leaves: seq<seq<Byte>>, k: nat, max: nat)
    requires Strays(leaves, k, max)
    ensures Truncate(Join(leaves), max) + [NEWLINE] <= Join(leaves)
    ensures |Truncate(Join(leaves), max)| < max
  {
    var before := Join(leaves[..k]);
    assert leaves[..k + 1][..k] == leaves[..k];
    var crossing := Join(leaves[..k + 1]);
    assert crossing == before + [NEWLINE] + leaves[k];
    JoinGrows(leaves, k + 1);
    assert Join(leaves) == crossing + Join(leaves)[|crossing|..];
    TruncateIgnoresTail(crossing, Join(leaves)[|crossing|..], max);
    CutBeforeLeaf(before + [NEWLINE], leaves[k], max - |before| - 1);
  }

  lemma ValidNeverStrays(leaves: seq<seq<Byte>>, k: nat, max: nat)
    requires forall leaf <- leaves :: Valid(leaf)
    ensures !Strays(leaves, k, max)
  {
    if k < |leaves| && leaves[k] != [] {
      ValidStarts(leaves[k]);
    }
  }

  /** On valid text the two forms always agree, and the result is valid. */
  lemma ValidWalk(lower: string -> string, tree: Value, max: nat)
    requires forall leaf <- Leaves(lower, tree) :: Valid(leaf)
    ensures SearchText(lower, tree, max) == Truncate(Join(Leaves(lower, tree)), max)
    ensures Valid(SearchText(lower, tree, max))
  {
    var leaves := Leaves(lower, tree);
    assert !Stray(leaves, max) by {
      forall k ensures !Strays(leaves, k, max) {
        ValidNeverStrays(leaves, k, max);
      }
    }
    WalkIsSimple(lower, tree, max);
    JoinIsValid(leaves);
    TruncateIsValid(Join(leaves), max);
  }

  lemma {:induction false} JoinIsValid(leaves: seq<seq<Byte>>)
    requires forall leaf <- leaves :: Valid(leaf)
    ensures Valid(Join(leaves))
    decreases |leaves|
  {
    if leaves != [] {
      var n := |leaves| - 1;
      JoinIsValid(leaves[..n]);
      NewlineIsValid();
      ValidConcat(Join(leaves[..n]), [NEWLINE]);
      ValidConcat(Join(leaves[..n]) + [NEWLINE], leaves[n]);
    }
  }

  lemma NewlineIsValid()
    ensures Valid([NEWLINE])
  {
    assert [NEWLINE][1..] == [];
  }

  /**
   A tree on which the two forms differ: the text keeps a trailing newline the simple form would have cut. Its last
   leaf is no valid UTF-8, which the trees the decoder returns never hold.
   */
  lemma StrayExample(lower: string -> string)
    ensures SearchText(lower, Arr([Str([97]), Str([128, 128])]), 3) == [97, NEWLINE]
    ensures Truncate(Join(Leaves(lower, Arr([Str([97]), Str([128, 128])]))), 3) == [97]
  {
    var tree := Arr([Str([97]), Str([128, 128])]);
    var leaves: seq<seq<Byte>> := [[97], [128, 128]];
    assert ItemLeaves(lower, tree, 1) == [[97]];
    assert Leaves(lower, tree) == leaves;
    assert leaves[..1] == [[97]] && leaves[..1][..0] == [];
    assert Join(leaves[..1]) == [97];
    assert Join(leaves) == [97, NEWLINE, 128, 128];
    CutIs(Join(leaves), 3, 1);
    assert AddAll(Text([], false), leaves[..1], 3) == Text([97], false);
    assert Truncate([128, 128], 1) == [];
  }

  // ---- Pruning a stored tree -------------------------------------------------------------------------

  const MARKER: string := "<truncated>"

  /** The serialized cost of an entry that is followed by another one. `size` is the length of a value's JSON. */
  function Cost(fields: map<string, Value>, key: string, size: Value -> nat): nat
    requires key in fields
  {
    |key| + 4 + size(fields[key])
  }

  function Costs(fields: map<string, Value>, keys: seq<string>, size: Value -> nat): nat
    requires forall key <- keys :: key in fields
  {
    if keys == [] then 0
    else Costs(fields, keys[..|keys| - 1], size) + Cost(fields, keys[|keys| - 1], size)
  }

  /** The entries a pruned tree keeps: each in turn, if it fits beside those kept before it. */
  function Kept(fields: map<string, Value>, keys: seq<string>, max: nat, size: Value -> nat): (kept: seq<string>)
    requires forall key <- keys :: key in fields
    ensures forall key <- kept :: key in keys
  {
    if keys == [] then []
    else
      var earlier, key := Kept(fields, keys[..|keys| - 1], max, size), keys[|keys| - 1];
      if 2 + Costs(fields, earlier, size) + Cost(fields, key, size) <= max then earlier + [key] else earlier
  }

  /**
   The length of the JSON object of some entries: braces, quotes, colons and the commas between entries. `width` is
   the length of a key with its escapes.
   */
  function Serialized(fields: map<string, Value>, keys: seq<string>, size: Value -> nat, width: string -> nat): nat
    requires forall key <- keys :: key in fields
  {
    2 + Entries(fields, keys, size, width) + if keys == [] then 0 else |keys| - 1
  }

  function Entries(fields: map<string, Value>, keys: seq<string>, size: Value -> nat, width: string -> nat): nat
    requires forall key <- keys :: key in fields
  {
    if keys == [] then 0
    else Entries(fields, keys[..|keys| - 1], size, width) + width(keys[|keys| - 1]) + 3 + size(fields[keys[|keys| - 1]])
  }

  /** What the escapes add to some keys. */
  function Escaping(keys: seq<string>, width: string -> nat): int {
    if keys == [] then 0 else Escaping(keys[..|keys| - 1], width) + width(keys[|keys| - 1]) - |keys[|keys| - 1]|
  }

  lemma {:induction false} CostsAreEntries(fields: map<string, Value>, keys: seq<string>, size: Value -> nat, width: string -> nat)
    requires forall key <- keys :: key in fields
    ensures Costs(fields, keys, size) + Escaping(keys, width) == Entries(fields, keys, size, width) + |keys|
    decreases |keys|
  {
    if keys != [] {
      CostsAreEntries(fields, keys[..|keys| - 1], size, width);
    }
  }

  lemma {:induction false} NoEscaping(keys: seq<string>, width: string -> nat)
    requires forall key <- keys :: width(key) == |key|
    ensures Escaping(keys, width) == 0
    decreases |keys|
  {
    if keys != [] {
      NoEscaping(keys[..|keys| - 1], width);
    }
  }

  /** The entry at `i` was left out because it did not fit beside the entries kept before it. */
  predicate LeftOut(fields: map<string, Value>, keys: seq<string>, i: nat, max: nat, size: Value -> nat)
    requires i < |keys| && forall key <- keys :: key in fields
  {
    2 + Costs(fields, Kept(fields, keys[..i], max, size), size) + Cost(fields, keys[i], size) > max
  }

  lemma {:induction false} KeptWithin(fields: map<string, Value>, keys: seq<string>, max: nat, size: Value -> nat)
    requires forall key <- keys :: key in fields
    ensures var kept := Kept(fields, keys, max, size); kept != [] ==> 2 + Costs(fields, kept, size) <= max
    decreases |keys|
  {
    if keys != [] {
      var n := |keys| - 1;
      KeptWithin(fields, keys[..n], max, size);
      var earlier := Kept(fields, keys[..n], max, size);
      assert (earlier + [keys[n]])[..|earlier|] == earlier;
    }
  }

  /** An entry is missing exactly when it did not fit beside those kept before it. */
  lemma {:induction false} MissingDidNotFit(fields: map<string, Value>, keys: seq<string>, i: nat, max: nat, size: Value -> nat)
    requires i < |keys| && forall key <- keys :: key in fields
    requires forall i, j :: 0 <= i < j < |keys| ==> keys[i] != keys[j]
    ensures keys[i] !in Kept(fields, keys, max, size) <==> LeftOut(fields, keys, i, max, size)
    decreases |keys|
  {
    var n := |keys| - 1;
    if i < n {
      assert keys[..n][i] == keys[i] && keys[..n][..i] == keys[..i];
      MissingDidNotFit(fields, keys[..n], i, max, size);
    }
  }

  /** One turn of the loop: the next key is kept if it fits. */
  lemma KeptStep(fields: map<string, Value>, keys: seq<string>, i: nat, max: nat, size: Value -> nat)
    requires i < |keys| && forall key <- keys :: key in fields
    ensures var earlier, later := Kept(fields, keys[..i], max, size), Kept(fields, keys[..i + 1], max, size);
            if LeftOut(fields, keys, i, max, size) then later == earlier
            else
              && later == earlier + [keys[i]]
              && Costs(fields, later, size) == Costs(fields, earlier, size) + Cost(fields, keys[i], size)
  {
    assert keys[..i + 1][..i] == keys[..i];
    var earlier := Kept(fields, keys[..i], max, size);
    assert (earlier + [keys[i]])[..|earlier|] == earlier;
  }

  predicate Holds(kept: map<string, Value>, fields: map<string, Value>, keys: seq<string>) {
    && (forall key <- keys :: key in kept)
    && (forall key <- kept :: key in keys && key in fields && kept[key] == fields[key])
  }

  method KeepFitting(fields: map<string, Value>, keys: seq<string>, max: nat, size: Value -> nat) returns (kept: map<string, Value>)
    requires forall key <- keys :: key in fields
    ensures Holds(kept, fields, Kept(fields, keys, max, size))
  {
    var used := 2;
    kept := map[];
    for i := 0 to |keys|
      invariant used == 2 + Costs(fields, Kept(fields, keys[..i], max, size), size)
      invariant Holds(kept, fields, Kept(fields, keys[..i], max, size))
    {
      KeptStep(fields, keys, i, max, size);
      var cost := |keys[i]| + 4 + size(fields[keys[i]]);
      if used + cost <= max {
        kept := kept[keys[i] := fields[keys[i]]];
        used := used + cost;
      }
    }
    assert keys[..|keys|] == keys;
  }

  /** What pruning leaves of a tree: the kept entries, or the marker when nothing fits. */
  ghost predicate IsPruned(lower: string -> string, fields: map<string, Value>, max: nat, size: Value -> nat, tree: map<string, Value>) {
    var kept := Kept(fields, Listing(lower, fields.Keys), max, size);
    if kept == [] then tree == map["<truncated>" := Obj(map[])] else Holds(tree, fields, kept)
  }

  /** Keeps what fits, in key order; a tree of which nothing fits becomes a marker, which is not measured. */
  method PruneRaw(lower: string -> string, fields: map<string, Value>, max: nat, size: Value -> nat)
    returns (kept: map<string, Value>, truncated: bool)
    ensures IsPruned(lower, fields, max, size, kept)
    ensures truncated <==> Kept(fields, Listing(lower, fields.Keys), max, size) == [] || kept.Keys != fields.Keys
  {
    var keys := SortRawKeys(lower, fields.Keys);
    kept := KeepFitting(fields, keys, max, size);
    ghost var fitting := Kept(fields, keys, max, size);
    if |kept| == 0 {
      assert |fitting| == 0;
      return map[MARKER := Obj(map[])], true;
    }
    var some :| some in kept;
    assert some in fitting;
    SameSize(kept.Keys, fields.Keys);
    return kept, |kept| != |fields|;
  }

  lemma SameSize(some: set<string>, all: set<string>)
    requires some <= all
    ensures |some| == |all| <==> some == all
  {
    assert all == some + (all - some);
  }

  // ---- The size of a pruned tree ---------------------------------------------------------------------

  /** A tree's keys, each once, in the order they are written in. */
  predicate WrittenAs(tree: map<string, Value>, keys: seq<string>) {
    Once(keys) && (forall key <- keys :: key in tree) && (forall key <- tree :: key in keys)
  }

  predicate Once(keys: seq<string>) {
    forall i, j :: 0 <= i < j < |keys| ==> keys[i] != keys[j]
  }

  lemma {:induction false} EntriesWithout(tree: map<string, Value>, keys: seq<string>, i: nat, size: Value -> nat, width: string -> nat)
    requires i < |keys| && forall key <- keys :: key in tree
    ensures forall key <- keys[..i] + keys[i + 1..] :: key in tree
    ensures Entries(tree, keys, size, width) ==
            Entries(tree, keys[..i] + keys[i + 1..], size, width) + width(keys[i]) + 3 + size(tree[keys[i]])
    decreases |keys|
  {
    var n := |keys| - 1;
    if i == n {
      assert keys[..i] + keys[i + 1..] == keys[..n];
    } else {
      EntriesWithout(tree, keys[..n], i, size, width);
      assert keys[..n][i] == keys[i] && keys[..n][..i] == keys[..i];
      assert (keys[..i] + keys[i + 1..])[..n - 1] == keys[..n][..i] + keys[..n][i + 1..];
      assert (keys[..i] + keys[i + 1..])[n - 1] == keys[n];
    }
  }

  lemma HeadIsIn(keys: seq<string>)
    ensures keys != [] ==> keys[0] in keys
  {
  }

  /** The length of an object does not depend on the order of its entries. */
  lemma {:induction false} AnyOrder(tree: map<string, Value>, a: seq<string>, b: seq<string>, size: Value -> nat, width: string -> nat)
    requires Once(a) && Once(b) && (forall key :: key in a <==> key in b) && forall key <- a :: key in tree
    ensures |a| == |b| && Entries(tree, a, size, width) == Entries(tree, b, size, width)
    decreases |a|
  {
    if a == [] {
      HeadIsIn(b);
    } else {
      var n := |a| - 1;
      assert a[n] in b;
      var i :| 0 <= i < |b| && b[i] == a[n];
      SameRest(a, b, n, i);
      AnyOrder(tree, a[..n], b[..i] + b[i + 1..], size, width);
      EntriesWithout(tree, b, i, size, width);
    }
  }

  lemma SameRest(a: seq<string>, b: seq<string>, n: nat, i: nat)
    requires Once(a) && Once(b) && (forall key :: key in a <==> key in b) && n + 1 == |a| && i < |b| && b[i] == a[n]
    ensures Once(a[..n]) && Once(b[..i] + b[i + 1..])
    ensures forall key :: key in a[..n] <==> key in b[..i] + b[i + 1..]
  {
    forall key ensures key in a[..n] <==> key in a && key != a[n] {
    }
    forall key ensures key in b[..i] + b[i + 1..] <==> key in b && key != b[i] {
      OthersRemain(b, i, key);
    }
  }

  lemma OthersRemain(b: seq<string>, i: nat, key: string)
    requires Once(b) && i < |b|
    ensures key in b[..i] + b[i + 1..] <==> key in b && key != b[i]
  {
    if key in b && key != b[i] {
      var j :| 0 <= j < |b| && b[j] == key;
      assert j < i ==> b[..i][j] == key;
      assert j > i ==> b[i + 1..][j - i - 1] == key;
    }
  }

  /** Entries of two trees that agree on these keys have one length. */
  lemma {:induction false} SameEntries(a: map<string, Value>, b: map<string, Value>, keys: seq<string>, size: Value -> nat, width: string -> nat)
    requires forall key <- keys :: key in a && key in b && a[key] == b[key]
    ensures Entries(a, keys, size, width) == Entries(b, keys, size, width)
    decreases |keys|
  {
    if keys != [] {
      SameEntries(a, b, keys[..|keys| - 1], size, width);
    }
  }

  lemma {:induction false} KeptOnce(fields: map<string, Value>, keys: seq<string>, max: nat, size: Value -> nat)
    requires Once(keys) && forall key <- keys :: key in fields
    ensures Once(Kept(fields, keys, max, size))
    decreases |keys|
  {
    if keys != [] {
      var n := |keys| - 1;
      KeptOnce(fields, keys[..n], max, size);
      forall i | 0 <= i < n ensures keys[..n][i] != keys[n] {
      }
      assert keys[n] !in Kept(fields, keys[..n], max, size);
    }
  }

  /** Nothing is kept exactly when no entry fits even alone. */
  lemma {:induction false} NothingFits(fields: map<string, Value>, keys: seq<string>, max: nat, size: Value -> nat)
    requires forall key <- keys :: key in fields
    ensures Kept(fields, keys, max, size) == [] <==> forall key <- keys :: 2 + Cost(fields, key, size) > max
    decreases |keys|
  {
    if keys != [] {
      var n := |keys| - 1;
      NothingFits(fields, keys[..n], max, size);
      assert keys == keys[..n] + [keys[n]];
    }
  }

  lemma ListingOnce(lower: string -> string, fields: map<string, Value>)
    ensures var keys := Listing(lower, fields.Keys); Once(keys) && forall key :: key in keys <==> key in fields
  {
    var keys := Listing(lower, fields.Keys);
    ListingLists(lower, fields.Keys);
    forall i, j | 0 <= i < j < |keys| ensures keys[i] != keys[j] {
      KeyLessIsStrictTotal(lower, keys[i], keys[j]);
    }
  }

  /** The length of the marker tree. */
  function MarkerLength(size: Value -> nat, width: string -> nat): nat {
    5 + width(MARKER) + size(Obj(map[]))
  }

  /**
   What pruning returns is within the budget exactly when, if something is kept, the escapes of the kept keys fit in
   what the source's estimate left over, and if nothing is, the marker is no longer than the budget.
   */
  lemma PrunedFits(lower: string -> string, fields: map<string, Value>, max: nat, tree: map<string, Value>, written: seq<string>,
                   size: Value -> nat, width: string -> nat)
    requires IsPruned(lower, fields, max, size, tree) && WrittenAs(tree, written)
    ensures var kept := Kept(fields, Listing(lower, fields.Keys), max, size);
            Serialized(tree, written, size, width) <= max <==>
            if kept == [] then MarkerLength(size, width) <= max else Escaping(kept, width) < max - Costs(fields, kept, size)
  {
    var keys := Listing(lower, fields.Keys);
    var kept := Kept(fields, keys, max, size);
    ListingOnce(lower, fields);
    if kept == [] {
      AnyOrder(tree, written, [MARKER], size, width);
      assert [MARKER][..0] == [];
    } else {
      KeptOnce(fields, keys, max, size);
      AnyOrder(tree, written, kept, size, width);
      SameEntries(tree, fields, kept, size, width);
      CostsAreEntries(fields, kept, size, width);
    }
  }

  /** Where no key needs escapes, the budget is overshot exactly when no entry fits alone and the marker is longer than the budget. */
  lemma PlainKeysOvershoot(lower: string -> string, fields: map<string, Value>, max: nat, tree: map<string, Value>, written: seq<string>,
                           size: Value -> nat, width: string -> nat)
    requires IsPruned(lower, fields, max, size, tree) && WrittenAs(tree, written)
    requires forall key <- fields :: width(key) == |key|
    ensures Serialized(tree, written, size, width) > max <==>
            (forall key <- fields :: 2 + Cost(fields, key, size) > max) && MarkerLength(size, width) > max
  {
    var keys := Listing(lower, fields.Keys);
    var kept := Kept(fields, keys, max, size);
    ListingOnce(lower, fields);
    PrunedFits(lower, fields, max, tree, written, size, width);
    NothingFits(fields, keys, max, size);
    NoEscaping(kept, width);
    KeptWithin(fields, keys, max, size);
  }

  /** A one-entry tree and a small budget: the marker returned for it is over the budget. */
  lemma MarkerOvershoots(lower: string -> string, key: string, value: Value, max: nat, tree: map<string, Value>, written: seq<string>,
                         size: Value -> nat, width: string -> nat)
    requires IsPruned(lower, map[key := value], max, size, tree) && WrittenAs(tree, written)
    requires max < 6 + |key| + size(value) && max < 16 && width("<truncated>") >= 11
    ensures tree == map["<truncated>" := Obj(map[])] && Serialized(tree, written, size, width) > max
  {
    var fields := map[key := value];
    ListingOnce(lower, fields);
    NothingFits(fields, Listing(lower, fields.Keys), max, size);
    PrunedFits(lower, fields, max, tree, written, size, width);
  }

  /**
   As a function of any tree, one key with an escape is enough: the estimate takes a key for its own length, so the
   entry is kept and goes over the budget.
   */
  lemma EscapedKeyOvershoots(lower: string -> string, key: string, value: Value, tree: map<string, Value>, written: seq<string>,
                             size: Value -> nat, width: string -> nat)
    requires width(key) > |key| + 1
    requires IsPruned(lower, map[key := value], |key| + 6 + size(value), size, tree) && WrittenAs(tree, written)
    ensures tree == map[key := value] && Serialized(tree, written, size, width) > |key| + 6 + size(value)
  {
    var fields, max := map[key := value], |key| + 6 + size(value);
    ListingOnce(lower, fields);
    var keys := Listing(lower, fields.Keys);
    assert key in keys;
    NothingFits(fields, keys, max, size);
    assert 2 + Cost(fields, key, size) <= max;
    OneKept(fields, keys, key, max, size);
    PrunedFits(lower, fields, max, tree, written, size, width);
    assert [key][..0] == [];
  }

  lemma OneKept(fields: map<string, Value>, keys: seq<string>, key: string, max: nat, size: Value -> nat)
    requires Once(keys) && fields.Keys == {key} && (forall k <- keys :: k in fields) && Kept(fields, keys, max, size) != []
    ensures Kept(fields, keys, max, size) == [key]
  {
    KeptOnce(fields, keys, max, size);
    var kept := Kept(fields, keys, max, size);
    forall i | 0 <= i < |kept| ensures kept[i] == key {
      assert kept[i] in keys;
    }
    FirstTwoDiffer(kept);
  }

  lemma FirstTwoDiffer(keys: seq<string>)
    requires Once(keys)
    ensures |keys| > 1 ==> keys[0] != keys[1]
  {
  }
}
