/** The strings of a raw message by their paths, and the searchable text in terms of them. */
module RawPaths {
  import opened Bytes
  import opened Keys
  import opened RawSearch
  import opened Utf8
  import opened Wrappers

  datatype Step = Field(name: string) | Item(index: nat)

  type Path = seq<Step>

  /** The string a path leads to, if it leads to one. */
  function StringAt(value: Value, path: Path): Option<seq<Byte>>
    decreases |path|
  {
    if path == [] then if value.Str? then Some(value.text) else None
    else match path[0]
      case Field(name) => if value.Obj? && name in value.fields then StringAt(value.fields[name], path[1..]) else None
      case Item(index) => if value.Arr? && index < |value.items| then StringAt(value.items[index], path[1..]) else None
  }

  /** Keys are compared without case and then as they are, indices by number; the first difference decides. */
  predicate StepLess(lower: string -> string, a: Step, b: Step) {
    match (a, b)
    case (Field(x), Field(y)) => StringLess(lower(x), lower(y)) || (lower(x) == lower(y) && StringLess(x, y))
    case (Item(x), Item(y)) => x < y
    case _ => false
  }

  predicate PathLess(lower: string -> string, p: Path, q: Path)
    decreases |p|
  {
    p != [] && q != [] && if p[0] == q[0] then PathLess(lower, p[1..], q[1..]) else StepLess(lower, p[0], q[0])
  }

  predicate InOrder(lower: string -> string, paths: seq<Path>) {
    forall i, j :: 0 <= i < j < |paths| ==> PathLess(lower, paths[i], paths[j])
  }

  /** All paths to strings, in order and so each once. */
  ghost predicate ListsPaths(lower: string -> string, tree: Value, paths: seq<Path>) {
    InOrder(lower, paths) && forall path :: path in paths <==> StringAt(tree, path).Some?
  }

  /** The strings at these paths. */
  predicate StringsAt(tree: Value, paths: seq<Path>, leaves: seq<seq<Byte>>) {
    |paths| == |leaves| && forall i :: 0 <= i < |paths| ==> StringAt(tree, paths[i]) == Some(leaves[i])
  }

  // ---- The paths, listed -----------------------------------------------------------------------------

  function Behind(step: Step, paths: seq<Path>): (longer: seq<Path>)
    ensures |longer| == |paths| && forall i :: 0 <= i < |paths| ==> longer[i] == [step] + paths[i]
  {
    seq(|paths|, i requires 0 <= i < |paths| => [step] + paths[i])
  }

  ghost function Paths(lower: string -> string, value: Value): seq<Path>
    decreases value, 1, 0
  {
    match value
    case Obj(fields) => FieldPaths(lower, value, Listing(lower, fields.Keys))
    case Arr(items) => ItemPaths(lower, value, |items|)
    case Str(_) => [[]]
    case Scalar => []
  }

  ghost function FieldPaths(lower: string -> string, value: Value, keys: seq<string>): seq<Path>
    requires value.Obj? && forall key <- keys :: key in value.fields
    decreases value, 0, |keys|
  {
    if keys == [] then []
    else
      var key := keys[|keys| - 1];
      FieldPaths(lower, value, keys[..|keys| - 1]) + Behind(Field(key), Paths(lower, value.fields[key]))
  }

  ghost function ItemPaths(lower: string -> string, value: Value, n: nat): seq<Path>
    requires value.Arr? && n <= |value.items|
    decreases value, 0, n
  {
    if n == 0 then [] else ItemPaths(lower, value, n - 1) + Behind(Item(n - 1), Paths(lower, value.items[n - 1]))
  }

  /** What is known of the paths below some first steps: their strings, their order, and that none is missing. */
  ghost predicate Covers(lower: string -> string, value: Value, paths: seq<Path>, leaves: seq<seq<Byte>>, steps: set<Step>) {
    && StringsAt(value, paths, leaves) && InOrder(lower, paths)
    && (forall i :: 0 <= i < |paths| ==> paths[i] != [] && paths[i][0] in steps)
    && forall path: Path :: path != [] && path[0] in steps && StringAt(value, path).Some? ==> path in paths
  }

  lemma BehindKeepsOrder(lower: string -> string, step: Step, paths: seq<Path>)
    requires InOrder(lower, paths)
    ensures InOrder(lower, Behind(step, paths))
  {
    var longer := Behind(step, paths);
    forall i, j | 0 <= i < j < |longer| ensures PathLess(lower, longer[i], longer[j]) {
      assert longer[i][1..] == paths[i] && longer[j][1..] == paths[j];
    }
  }

  /** One child's paths cover its step. */
  lemma ChildCovers(lower: string -> string, value: Value, step: Step, child: Value, paths: seq<Path>, leaves: seq<seq<Byte>>)
    requires (step.Field? && value.Obj? && step.name in value.fields && value.fields[step.name] == child)
          || (step.Item? && value.Arr? && step.index < |value.items| && value.items[step.index] == child)
    requires ListsPaths(lower, child, paths) && StringsAt(child, paths, leaves)
    ensures Covers(lower, value, Behind(step, paths), leaves, {step})
  {
    var longer := Behind(step, paths);
    BehindKeepsOrder(lower, step, paths);
    forall i | 0 <= i < |longer| ensures StringAt(value, longer[i]) == Some(leaves[i]) {
      assert longer[i][1..] == paths[i];
    }
    forall path: Path | path != [] && path[0] == step && StringAt(value, path).Some? ensures path in longer {
      assert path[1..] in paths;
      var i :| 0 <= i < |paths| && paths[i] == path[1..];
      assert longer[i] == path;
    }
  }

  lemma BothCover(lower: string -> string, value: Value, paths: seq<Path>, leaves: seq<seq<Byte>>, steps: set<Step>,
                  more: seq<Path>, others: seq<seq<Byte>>, step: Step)
    requires Covers(lower, value, paths, leaves, steps) && Covers(lower, value, more, others, {step})
    requires step !in steps && forall s <- steps :: StepLess(lower, s, step)
    ensures Covers(lower, value, paths + more, leaves + others, steps + {step})
  {
    var all := paths + more;
    forall i, j | 0 <= i < j < |all| ensures PathLess(lower, all[i], all[j]) {
      if i < |paths| <= j {
        assert all[i] == paths[i] && all[j] == more[j - |paths|];
      } else if i >= |paths| {
        assert all[i] == more[i - |paths|] && all[j] == more[j - |paths|];
      }
    }
    forall i | 0 <= i < |all|
      ensures StringAt(value, all[i]) == Some((leaves + others)[i]) && all[i] != [] && all[i][0] in steps + {step}
    {
      if i >= |paths| {
        assert all[i] == more[i - |paths|];
      }
    }
  }

  function KeySteps(keys: seq<string>): set<Step> {
    set key <- keys :: Field(key)
  }

  function IndexSteps(n: nat): set<Step> {
    set i | 0 <= i < n :: Item(i)
  }

  lemma {:induction false} FieldsCover(lower: string -> string, value: Value, keys: seq<string>)
    requires value.Obj? && (forall key <- keys :: key in value.fields)
    requires forall i, j :: 0 <= i < j < |keys| ==> StepLess(lower, Field(keys[i]), Field(keys[j])) && keys[i] != keys[j]
    ensures Covers(lower, value, FieldPaths(lower, value, keys), FieldLeaves(lower, value, keys), KeySteps(keys))
    decreases value, 0, |keys|
  {
    if keys != [] {
      var n := |keys| - 1;
      FieldsCover(lower, value, keys[..n]);
      PathsOfLeaves(lower, value.fields[keys[n]]);
      ChildCovers(lower, value, Field(keys[n]), value.fields[keys[n]], Paths(lower, value.fields[keys[n]]), Leaves(lower, value.fields[keys[n]]));
      LastKey(lower, keys);
      BothCover(lower, value, FieldPaths(lower, value, keys[..n]), FieldLeaves(lower, value, keys[..n]), KeySteps(keys[..n]),
                Behind(Field(keys[n]), Paths(lower, value.fields[keys[n]])), Leaves(lower, value.fields[keys[n]]), Field(keys[n]));
    }
  }

  lemma LastKey(lower: string -> string, keys: seq<string>)
    requires keys != []
    requires forall i, j :: 0 <= i < j < |keys| ==> StepLess(lower, Field(keys[i]), Field(keys[j])) && keys[i] != keys[j]
    ensures var n := |keys| - 1;
            && KeySteps(keys) == KeySteps(keys[..n]) + {Field(keys[n])} && Field(keys[n]) !in KeySteps(keys[..n])
            && forall s <- KeySteps(keys[..n]) :: StepLess(lower, s, Field(keys[n]))
  {
    var n := |keys| - 1;
    assert keys == keys[..n] + [keys[n]];
  }

  lemma {:induction false} ItemsCover(lower: string -> string, value: Value, n: nat)
    requires value.Arr? && n <= |value.items|
    ensures Covers(lower, value, ItemPaths(lower, value, n), ItemLeaves(lower, value, n), IndexSteps(n))
    decreases value, 0, n
  {
    if n > 0 {
      ItemsCover(lower, value, n - 1);
      PathsOfLeaves(lower, value.items[n - 1]);
      ChildCovers(lower, value, Item(n - 1), value.items[n - 1], Paths(lower, value.items[n - 1]), Leaves(lower, value.items[n - 1]));
      assert IndexSteps(n) == IndexSteps(n - 1) + {Item(n - 1)};
      BothCover(lower, value, ItemPaths(lower, value, n - 1), ItemLeaves(lower, value, n - 1), IndexSteps(n - 1),
                Behind(Item(n - 1), Paths(lower, value.items[n - 1])), Leaves(lower, value.items[n - 1]), Item(n - 1));
    }
  }

  lemma ListingSteps(lower: string -> string, names: set<string>)
    ensures var keys := Listing(lower, names);
            && (forall i, j :: 0 <= i < j < |keys| ==> StepLess(lower, Field(keys[i]), Field(keys[j])) && keys[i] != keys[j])
            && (forall name :: name in names <==> Field(name) in KeySteps(keys))
  {
    var keys := Listing(lower, names);
    ListingLists(lower, names);
    forall i, j | 0 <= i < j < |keys| ensures StepLess(lower, Field(keys[i]), Field(keys[j])) && keys[i] != keys[j] {
      KeyLessIsStrictTotal(lower, keys[i], keys[j]);
    }
  }

  /** The leaves of a tree are the strings at its paths: every string, once, in path order. */
  lemma {:induction false} PathsOfLeaves(lower: string -> string, value: Value)
    ensures ListsPaths(lower, value, Paths(lower, value)) && StringsAt(value, Paths(lower, value), Leaves(lower, value))
    decreases value, 1, 0
  {
    match value
    case Obj(fields) =>
      ListingSteps(lower, fields.Keys);
      FieldsCover(lower, value, Listing(lower, fields.Keys));
      CoverLists(lower, value, Paths(lower, value), Leaves(lower, value), KeySteps(Listing(lower, fields.Keys)));
    case Arr(items) =>
      ItemsCover(lower, value, |items|);
      CoverLists(lower, value, Paths(lower, value), Leaves(lower, value), IndexSteps(|items|));
    case Str(text) =>
    case Scalar =>
  }

  lemma CoverLists(lower: string -> string, value: Value, paths: seq<Path>, leaves: seq<seq<Byte>>, steps: set<Step>)
    requires Covers(lower, value, paths, leaves, steps) && !value.Str?
    requires forall path: Path :: path != [] && StringAt(value, path).Some? ==> path[0] in steps
    ensures ListsPaths(lower, value, paths)
  {
    forall path ensures path in paths <==> StringAt(value, path).Some? {
      if path in paths {
        var i :| 0 <= i < |paths| && paths[i] == path;
        assert StringAt(value, paths[i]) == Some(leaves[i]);
      }
    }
  }

  // ---- There is only one such list -------------------------------------------------------------------

  lemma {:induction false} PathLessIsStrict(lower: string -> string, p: Path, q: Path)
    ensures !(PathLess(lower, p, q) && PathLess(lower, q, p))
    decreases |p|
  {
    if p != [] && q != [] {
      if p[0] == q[0] {
        PathLessIsStrict(lower, p[1..], q[1..]);
      } else if p[0].Field? && q[0].Field? {
        StringLessIsStrict(lower(p[0].name), lower(q[0].name));
        StringLessIsStrict(p[0].name, q[0].name);
      }
    }
  }

  lemma {:induction false} OneListing(lower: string -> string, a: seq<Path>, b: seq<Path>)
    requires InOrder(lower, a) && InOrder(lower, b) && forall path :: path in a <==> path in b
    ensures a == b
    decreases |a|
  {
    if a != [] && b != [] {
      SameFirst(lower, a, b);
      RestOf(lower, a);
      RestOf(lower, b);
      OneListing(lower, a[1..], b[1..]);
      assert a == [a[0]] + a[1..] && b == [b[0]] + b[1..];
    } else {
      FirstIsIn(a);
      FirstIsIn(b);
    }
  }

  lemma FirstIsIn(paths: seq<Path>)
    ensures paths != [] ==> paths[0] in paths
  {
  }

  lemma SameFirst(lower: string -> string, a: seq<Path>, b: seq<Path>)
    requires InOrder(lower, a) && InOrder(lower, b) && a != [] && b != [] && forall path :: path in a <==> path in b
    ensures a[0] == b[0]
  {
    FirstIsIn(a);
    FirstIsIn(b);
    var i :| 0 <= i < |a| && a[i] == b[0];
    var j :| 0 <= j < |b| && b[j] == a[0];
    PathLessIsStrict(lower, a[0], b[0]);
  }

  lemma RestOf(lower: string -> string, paths: seq<Path>)
    requires InOrder(lower, paths) && paths != []
    ensures InOrder(lower, paths[1..]) && forall path :: path in paths[1..] <==> path in paths && path != paths[0]
  {
    forall path <- paths[1..] ensures path != paths[0] {
      PathLessIsStrict(lower, path, path);
    }
  }

  /** The leaves are the strings at the tree's string paths, listed in path order; there is one such list. */
  lemma LeavesByPath(lower: string -> string, tree: Value, paths: seq<Path>)
    requires ListsPaths(lower, tree, paths)
    ensures StringsAt(tree, paths, Leaves(lower, tree))
  {
    PathsOfLeaves(lower, tree);
    OneListing(lower, paths, Paths(lower, tree));
  }

  /**
   The searchable text of a message whose strings are valid: its strings in path order, the empty ones left out, joined by
   line feeds and cut at the cap.
   */
  lemma TextByPath(lower: string -> string, tree: Value, max: nat, paths: seq<Path>, strings: seq<seq<Byte>>)
    requires ListsPaths(lower, tree, paths) && StringsAt(tree, paths, strings) && forall s <- strings :: Valid(s)
    ensures SearchText(lower, tree, max) == Truncate(Join(strings), max)
  {
    LeavesByPath(lower, tree, paths);
    var leaves := Leaves(lower, tree);
    forall i | 0 <= i < |leaves| ensures leaves[i] == strings[i] {
      assert StringAt(tree, paths[i]) == Some(strings[i]);
    }
    assert leaves == strings;
    ValidWalk(lower, tree, max);
  }

  lemma PathsExist(lower: string -> string, tree: Value)
    ensures exists paths :: ListsPaths(lower, tree, paths)
  {
    PathsOfLeaves(lower, tree);
  }

  // ---- What joining means ----------------------------------------------------------------------------

  /** The lines of a text, split at line feeds. */
  function SplitLines(s: seq<Byte>): (lines: seq<seq<Byte>>)
    ensures lines != []
  {
    if s == [] then [[]]
    else
      var front := SplitLines(s[..|s| - 1]);
      if s[|s| - 1] == 10 then front + [[]] else front[..|front| - 1] + [front[|front| - 1] + [s[|s| - 1]]]
  }

  function NonEmpty(leaves: seq<seq<Byte>>): seq<seq<Byte>> {
    if leaves == [] then []
    else NonEmpty(leaves[..|leaves| - 1]) + if leaves[|leaves| - 1] == [] then [] else [leaves[|leaves| - 1]]
  }

  lemma CharAdds(s: seq<Byte>, c: Byte)
    requires c != 10
    ensures var t := SplitLines(s); SplitLines(s + [c]) == t[..|t| - 1] + [t[|t| - 1] + [c]]
  {
    assert (s + [c])[..|s|] == s;
  }

  lemma EmptyAdds(front: seq<seq<Byte>>)
    requires front != []
    ensures front == front[..|front| - 1] + [front[|front| - 1] + []]
  {
    assert front[|front| - 1] + [] == front[|front| - 1];
  }

  lemma {:induction false} LineAdds(s: seq<Byte>, line: seq<Byte>)
    requires 10 !in line
    ensures var front := SplitLines(s); SplitLines(s + line) == front[..|front| - 1] + [front[|front| - 1] + line]
    decreases |line|
  {
    if line == [] {
      assert s + line == s;
      EmptyAdds(SplitLines(s));
    } else {
      var n := |line| - 1;
      LineAdds(s, line[..n]);
      LastGrows(SplitLines(s), line[..n], line[n], line, SplitLines(s + line[..n]));
      CharAdds(s + line[..n], line[n]);
      assert s + line == s + line[..n] + [line[n]];
    }
  }

  lemma LastGrows(front: seq<seq<Byte>>, a: seq<Byte>, c: Byte, line: seq<Byte>, t: seq<seq<Byte>>)
    requires front != [] && line == a + [c] && t == front[..|front| - 1] + [front[|front| - 1] + a]
    ensures t[..|t| - 1] + [t[|t| - 1] + [c]] == front[..|front| - 1] + [front[|front| - 1] + line]
  {
    assert t[|t| - 1] + [c] == front[|front| - 1] + line;
  }

  lemma NextLine(s: seq<Byte>, line: seq<Byte>)
    requires 10 !in line
    ensures SplitLines(s + [10] + line) == SplitLines(s) + [line]
  {
    assert (s + [10])[..|s|] == s;
    LineAdds(s + [10], line);
    assert [] + line == line;
  }

  /** Splitting the joined leaves at line feeds gives the non-empty ones back, where none holds a line feed. */
  lemma {:induction false} JoinSplits(leaves: seq<seq<Byte>>)
    requires forall leaf <- leaves :: 10 !in leaf
    ensures NonEmpty(leaves) == [] <==> Join(leaves) == []
    ensures NonEmpty(leaves) != [] ==> SplitLines(Join(leaves)) == NonEmpty(leaves)
    decreases |leaves|
  {
    if leaves != [] {
      var n := |leaves| - 1;
      var before, leaf := Join(leaves[..n]), leaves[n];
      JoinSplits(leaves[..n]);
      if leaf != [] {
        if before == [] {
          LineAdds([], leaf);
          assert [] + leaf == leaf;
        } else {
          NextLine(before, leaf);
        }
      }
    }
  }
}
