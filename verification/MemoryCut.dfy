/**
 How the worker cuts one range off a group's sorted message stream, and why cutting until nothing
 is left partitions the stream.
 */
module MemoryCut {
  import opened Keys

  const BATCH_LIMIT: nat := 100
  const EQUAL_LIMIT: nat := 150
  const WINDOW: nat := MS_PER_DAY

  predicate Sorted(rows: seq<Key>) {
    forall i, j :: 0 <= i < j < |rows| ==> Less(rows[i], rows[j])
  }

  /** How many leading rows lie within a day of the first one. */
  function WindowLength(rows: seq<Key>, start: Timestamp): (n: nat)
    ensures n <= |rows|
    ensures forall i :: 0 <= i < n ==> rows[i].timestamp <= start + WINDOW
    ensures n < |rows| ==> rows[n].timestamp > start + WINDOW
  {
    if rows == [] || rows[0].timestamp > start + WINDOW then 0 else 1 + WindowLength(rows[1..], start)
  }

  /** Where a cut at `end` moves to: past the rows that share `equalAt`, up to the equal-run limit. */
  function RunEnd(rows: seq<Key>, end: nat, equalAt: Timestamp): (n: nat)
    requires end <= |rows| && end <= EQUAL_LIMIT
    ensures end <= n <= |rows| && n <= EQUAL_LIMIT
    ensures forall i :: end <= i < n ==> rows[i].timestamp == equalAt
    ensures n < |rows| && n < EQUAL_LIMIT ==> rows[n].timestamp != equalAt
    decreases |rows| - end
  {
    if end < |rows| && end < EQUAL_LIMIT && rows[end].timestamp == equalAt then RunEnd(rows, end + 1, equalAt) else end
  }

  /** The size of the next range of a stream. */
  function CutSize(rows: seq<Key>): (n: nat)
    ensures n <= |rows|
  {
    if rows == [] then 0
    else
      var window := WindowLength(rows, rows[0].timestamp);
      if window <= BATCH_LIMIT then window else RunEnd(rows[..window], BATCH_LIMIT, rows[BATCH_LIMIT - 1].timestamp)
  }

  function Cut(rows: seq<Key>): seq<Key> {
    rows[..CutSize(rows)]
  }

  // ---- One cut ---------------------------------------------------------------------------------

  /**
   A range is a non-empty prefix of what remains, holds at most 150 rows and spans at most a day; it
   stops short of its 100th row only at the end of the stream or of the day, goes past it only inside
   a run of equal timestamps, and splits such a run only when it has exactly 150 rows.
   */
  lemma CutShape(rows: seq<Key>)
    requires Sorted(rows) && rows != []
    ensures var n := CutSize(rows);
            && 1 <= n <= 150
            && rows[n - 1].timestamp - rows[0].timestamp <= 86400000
            && (n < |rows| && n < 100 ==> rows[n].timestamp > rows[0].timestamp + 86400000)
            && (n > 100 ==> rows[n - 1].timestamp == rows[99].timestamp)
            && (n < |rows| && rows[n].timestamp == rows[n - 1].timestamp ==> n == 150)
  {
    var n := CutSize(rows);
    var window := WindowLength(rows, rows[0].timestamp);
    if window > BATCH_LIMIT && BATCH_LIMIT < n {
      assert rows[..window][n - 1].timestamp == rows[BATCH_LIMIT - 1].timestamp;
    }
    if window > BATCH_LIMIT && n < window && n < EQUAL_LIMIT {
      assert rows[..window][n].timestamp != rows[BATCH_LIMIT - 1].timestamp;
    }
  }

  lemma WindowOfPrefix(rows: seq<Key>, limit: nat, start: Timestamp)
    requires limit <= |rows|
    ensures WindowLength(rows[..limit], start)
         == if WindowLength(rows, start) <= limit then WindowLength(rows, start) else limit
  {
    if limit > 0 && rows[0].timestamp <= start + WINDOW {
      assert rows[..limit][1..] == rows[1..][..limit - 1];
      WindowOfPrefix(rows[1..], limit - 1, start);
    }
  }

  lemma RunOfPrefix(rows: seq<Key>, shorter: nat, end: nat, equalAt: Timestamp)
    requires EQUAL_LIMIT <= shorter <= |rows| && end <= EQUAL_LIMIT
    ensures RunEnd(rows[..shorter], end, equalAt) == RunEnd(rows, end, equalAt)
    decreases EQUAL_LIMIT - end
  {
    if end < EQUAL_LIMIT && rows[end].timestamp == equalAt {
      RunOfPrefix(rows, shorter, end + 1, equalAt);
    }
  }

  /** Reading one row more than the equal-run limit is enough: the unlimited stream is cut in the same place. */
  lemma LimitIsEnough(rows: seq<Key>, limit: nat)
    requires 151 <= limit <= |rows|
    ensures Cut(rows[..limit]) == Cut(rows)
  {
    var start := rows[0].timestamp;
    WindowOfPrefix(rows, limit, start);
    var window, seen := WindowLength(rows, start), WindowLength(rows[..limit], start);
    assert rows[..limit][..seen] == rows[..window][..seen];
    if window > limit {
      RunOfPrefix(rows[..window], seen, BATCH_LIMIT, rows[BATCH_LIMIT - 1].timestamp);
    }
  }

  // ---- Cutting to the end ----------------------------------------------------------------------

  /** Every range the worker builds from a fixed stream when each one completes before the next is built. */
  function Drain(rows: seq<Key>): (batches: seq<seq<Key>>)
    requires Sorted(rows)
    decreases |rows|
  {
    if rows == [] then []
    else
      CutShape(rows);
      [Cut(rows)] + Drain(rows[CutSize(rows)..])
  }

  function Flatten(batches: seq<seq<Key>>): seq<Key> {
    if batches == [] then [] else batches[0] + Flatten(batches[1..])
  }

  lemma FlattenCons(first: seq<Key>, rest: seq<seq<Key>>)
    ensures Flatten([first] + rest) == first + Flatten(rest)
  {
    assert ([first] + rest)[1..] == rest;
  }

  predicate RangeShape(range: seq<Key>) {
    1 <= |range| <= 150 && range[|range| - 1].timestamp - range[0].timestamp <= 86400000
  }

  lemma DrainCons(rows: seq<Key>)
    requires Sorted(rows) && rows != []
    ensures Sorted(rows[CutSize(rows)..])
    ensures |rows[CutSize(rows)..]| < |rows|
    ensures Drain(rows) == [Cut(rows)] + Drain(rows[CutSize(rows)..])
  {
    CutShape(rows);
  }

  lemma DrainWhole(rows: seq<Key>, rest: seq<Key>)
    requires Sorted(rows) && rows != [] && rest == rows[CutSize(rows)..] && Sorted(rest)
    requires Drain(rows) == [Cut(rows)] + Drain(rest) && Flatten(Drain(rest)) == rest
    ensures Flatten(Drain(rows)) == rows
  {
    FlattenCons(Cut(rows), Drain(rest));
  }

  /** Draining a stream covers exactly its messages, each once and in order. */
  lemma {:induction false} DrainPartitions(rows: seq<Key>)
    requires Sorted(rows)
    ensures Flatten(Drain(rows)) == rows
    decreases |rows|
  {
    if rows != [] {
      DrainCons(rows);
      DrainPartitions(rows[CutSize(rows)..]);
      DrainWhole(rows, rows[CutSize(rows)..]);
    }
  }

  /** Every range of a drained stream has the shape of a cut. */
  lemma {:induction false} DrainShape(rows: seq<Key>, i: nat)
    requires Sorted(rows) && i < |Drain(rows)|
    ensures RangeShape(Drain(rows)[i])
    decreases i
  {
    DrainCons(rows);
    if i == 0 {
      CutShape(rows);
    } else {
      DrainShape(rows[CutSize(rows)..], i - 1);
    }
  }

  /** How many rows the first `k` ranges of a drained stream hold. */
  function Drained(rows: seq<Key>, k: nat): nat
    requires Sorted(rows) && k <= |Drain(rows)|
  {
    |Flatten(Drain(rows)[..k])|
  }

  lemma DrainedCons(rows: seq<Key>, k: nat)
    requires Sorted(rows) && 1 <= k <= |Drain(rows)|
    ensures rows != [] && Sorted(rows[CutSize(rows)..]) && k - 1 <= |Drain(rows[CutSize(rows)..])|
    ensures Flatten(Drain(rows)[..k]) == Cut(rows) + Flatten(Drain(rows[CutSize(rows)..])[..k - 1])
    ensures Drained(rows, k) == CutSize(rows) + Drained(rows[CutSize(rows)..], k - 1)
  {
    DrainCons(rows);
    var rest := Drain(rows[CutSize(rows)..]);
    assert Drain(rows)[..k] == [Cut(rows)] + rest[..k - 1];
    FlattenCons(Cut(rows), rest[..k - 1]);
  }

  lemma ConsecutiveSlices(rows: seq<Key>, n: nat, m: nat)
    requires n + m <= |rows|
    ensures rows[..n] + rows[n..][..m] == rows[..n + m]
    ensures rows[n..][m..] == rows[n + m..]
  {
  }

  predicate HoldsFirst(rows: seq<Key>, k: nat)
    requires Sorted(rows) && k <= |Drain(rows)|
  {
    Drained(rows, k) <= |rows| && rows[..Drained(rows, k)] == Flatten(Drain(rows)[..k])
  }

  lemma HoldsNone(rows: seq<Key>)
    requires Sorted(rows)
    ensures HoldsFirst(rows, 0)
  {
    assert Drain(rows)[..0] == [];
  }

  lemma HoldsOneMore(rows: seq<Key>, k: nat)
    requires Sorted(rows) && 1 <= k <= |Drain(rows)|
    requires var rest := rows[CutSize(rows)..]; Sorted(rest) && k - 1 <= |Drain(rest)| && HoldsFirst(rest, k - 1)
    ensures HoldsFirst(rows, k)
  {
    DrainedCons(rows, k);
    var rest := rows[CutSize(rows)..];
    PrefixJoins(rows, CutSize(rows), Drained(rest, k - 1), Flatten(Drain(rest)[..k - 1]));
  }

  /** The first `k` ranges of a drained stream hold its first rows. */
  lemma {:induction false} DrainedPrefix(rows: seq<Key>, k: nat)
    requires Sorted(rows) && k <= |Drain(rows)|
    ensures HoldsFirst(rows, k)
    decreases k
  {
    if k == 0 {
      HoldsNone(rows);
    } else {
      DrainCons(rows);
      DrainedCons(rows, k);
      DrainedPrefix(rows[CutSize(rows)..], k - 1);
      HoldsOneMore(rows, k);
    }
  }

  lemma PrefixJoins(rows: seq<Key>, n: nat, m: nat, flat: seq<Key>)
    requires n <= |rows| && m <= |rows[n..]| && flat == rows[n..][..m]
    ensures rows[..n + m] == rows[..n] + flat
  {
  }

  /** After a drained stream's first `k` ranges, the next cut is its range `k`, until nothing remains. */
  lemma {:induction false} DrainStep(rows: seq<Key>, k: nat)
    requires Sorted(rows) && k <= |Drain(rows)|
    ensures Drained(rows, k) <= |rows|
    ensures Drained(rows, k) == |rows| <==> k == |Drain(rows)|
    ensures k < |Drain(rows)| ==> Cut(rows[Drained(rows, k)..]) == Drain(rows)[k]
    decreases k
  {
    DrainedPrefix(rows, k);
    if k == 0 {
      assert rows[0..] == rows;
    } else {
      var rest := rows[CutSize(rows)..];
      DrainCons(rows);
      DrainedRest(rows, k);
      DrainStep(rest, k - 1);
    }
  }

  /** What remains after `k` ranges is what remains of the rest of the stream after one fewer. */
  lemma DrainedRest(rows: seq<Key>, k: nat)
    requires Sorted(rows) && 1 <= k <= |Drain(rows)|
    ensures var rest := rows[CutSize(rows)..];
            && rows != [] && Sorted(rest) && k - 1 <= |Drain(rest)|
            && Drained(rows, k) == CutSize(rows) + Drained(rest, k - 1) && Drained(rest, k - 1) <= |rest|
            && rest[Drained(rest, k - 1)..] == rows[Drained(rows, k)..]
  {
    DrainedCons(rows, k);
    var n, rest := CutSize(rows), rows[CutSize(rows)..];
    DrainedPrefix(rest, k - 1);
    ConsecutiveSlices(rows, n, Drained(rest, k - 1));
  }

  // ---- The scan --------------------------------------------------------------------------------

  /** Reads at most 151 rows off the stream. */
  method Fetch(stream: seq<Key>) returns (rows: seq<Key>)
    ensures |rows| == (if |stream| < 151 then |stream| else 151) && rows == stream[..|rows|]
  {
    rows := [];
    while |rows| < |stream| && |rows| < EQUAL_LIMIT + 1
      invariant |rows| <= |stream| && |rows| <= EQUAL_LIMIT + 1
      invariant rows == stream[..|rows|]
    {
      rows := rows + [stream[|rows|]];
    }
  }

  /** Keeps the leading rows that lie within a day of the first one. */
  method BoundToWindow(rows: seq<Key>) returns (bounded: seq<Key>)
    requires rows != []
    ensures bounded == rows[..WindowLength(rows, rows[0].timestamp)]
  {
    var windowEnd := rows[0].timestamp + WINDOW;
    bounded := [];
    for i := 0 to |rows|
      invariant bounded == rows[..i]
      invariant forall j :: 0 <= j < i ==> rows[j].timestamp <= windowEnd
    {
      if rows[i].timestamp > windowEnd {
        break;
      }
      bounded := bounded + [rows[i]];
    }
  }

  /** Moves a cut past the rows that share the timestamp of the row before it. */
  method ExtendRun(bounded: seq<Key>) returns (end: nat)
    requires BATCH_LIMIT <= |bounded|
    ensures end == RunEnd(bounded, BATCH_LIMIT, bounded[BATCH_LIMIT - 1].timestamp)
  {
    end := BATCH_LIMIT;
    var equalAt := bounded[BATCH_LIMIT - 1].timestamp;
    while end < |bounded| && end < EQUAL_LIMIT && bounded[end].timestamp == equalAt
      invariant BATCH_LIMIT <= end <= |bounded| && end <= EQUAL_LIMIT
      invariant RunEnd(bounded, end, equalAt) == RunEnd(bounded, BATCH_LIMIT, equalAt)
    {
      end := end + 1;
    }
  }

  method CutRows(rows: seq<Key>) returns (range: seq<Key>)
    ensures range == Cut(rows)
  {
    if |rows| == 0 {
      return [];
    }
    var bounded := BoundToWindow(rows);
    if |bounded| <= BATCH_LIMIT {
      return bounded;
    }
    assert bounded[BATCH_LIMIT - 1] == rows[BATCH_LIMIT - 1];
    var end := ExtendRun(bounded);
    assert end == CutSize(rows);
    return bounded[..end];
  }

  /**
   The worker's scan of the rows after its watermark: at most 151 rows are read, cut at the day window
   and cut again at the batch limit. It returns the range of the whole stream.
   */
  method NextMessages(stream: seq<Key>) returns (range: seq<Key>)
    ensures range == Cut(stream)
  {
    var rows := Fetch(stream);
    if |rows| < |stream| {
      LimitIsEnough(stream, |rows|);
    }
    range := CutRows(rows);
  }
}
