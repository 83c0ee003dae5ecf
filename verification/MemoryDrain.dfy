/**
 Over a fixed set of messages, any interleaving of builders, lease holders, recoveries and crashes cuts
 the same ranges as one builder draining the sorted stream alone.
 */
module MemoryDrain {
  import opened Keys
  import opened MemoryBatches
  import opened MemoryCut
  import opened MemoryRows
  import opened Wrappers

  // ---- Streams ----------------------------------------------------------------------------------

  lemma {:induction false} SortedIsUnique(a: seq<Key>, b: seq<Key>)
    requires Sorted(a) && Sorted(b) && forall k :: k in a <==> k in b
    ensures a == b
  {
    assert a == [] || a[0] in a;
    assert b == [] || b[0] in b;
    if a != [] {
      var j :| 0 <= j < |b| && b[j] == a[0];
      var i :| 0 <= i < |a| && a[i] == b[0];
      LessIsStrictTotal(a[0], b[0]);
      assert a[0] == b[0];
      TailMembers(a);
      TailMembers(b);
      SortedIsUnique(a[1..], b[1..]);
    }
  }

  lemma TailMembers(a: seq<Key>)
    requires Sorted(a) && a != []
    ensures forall k :: k in a[1..] <==> k in a && k != a[0]
  {
    forall k <- a[1..] ensures k != a[0] {
      LessIsStrictTotal(k, k);
    }
  }

  lemma {:induction false} LeastKey(keys: set<Key>) returns (least: Key)
    requires keys != {}
    ensures least in keys && forall k <- keys :: k == least || Less(least, k)
    decreases |keys|
  {
    var k :| k in keys;
    if keys == {k} {
      return k;
    }
    assert keys - {k} != {} by {
      assert keys == (keys - {k}) + {k};
    }
    var other := LeastKey(keys - {k});
    LessIsStrictTotal(k, other);
    least := if Less(k, other) then k else other;
    forall j <- keys ensures j == least || Less(least, j) {
      if Less(k, other) && j != k && j != other {
        LessIsTransitive(k, other, j);
      }
    }
  }

  /** Any messages of a group have a stream after any mark: their keys in increasing order. */
  lemma {:induction false} ListingExists(keys: set<Key>) returns (rows: seq<Key>)
    ensures Sorted(rows) && forall k :: k in rows <==> k in keys
    decreases |keys|
  {
    if keys == {} {
      return [];
    }
    var least := LeastKey(keys);
    var rest := ListingExists(keys - {least});
    rows := [least] + rest;
    forall i, j | 0 <= i < j < |rows| ensures Less(rows[i], rows[j]) {
      assert rows[j] in rest;
    }
  }

  /** The message is the group's, not revoked, and after the mark. */
  predicate IsAwaited(messages: map<MessageId, Message>, g: Group, mark: Option<Key>, id: MessageId) {
    && id in messages && id.instanceId == g.instanceId && messages[id].groupJid == g.groupJid
    && !messages[id].revoked && !messages[id].kindRevoked
    && match mark
       case None => true
       case Some(m) =>
         m.timestamp < messages[id].timestamp
         || (m.timestamp == messages[id].timestamp && StringLess(m.waMessageId, id.waMessageId))
  }

  function KeyOf(messages: map<MessageId, Message>, id: MessageId): Key
    requires id in messages
  {
    Key(messages[id].timestamp, id.waMessageId)
  }

  /** After any mark there is a stream, and it lists the keys of the awaited messages in increasing order. */
  lemma StreamExists(messages: map<MessageId, Message>, g: Group, mark: Option<Key>) returns (rows: seq<Key>)
    ensures IsStream(messages, g, mark, rows) && Sorted(rows)
    ensures forall id :: IsAwaited(messages, g, mark, id) ==> KeyOf(messages, id) in rows
    ensures forall key <- rows :: exists id :: IsAwaited(messages, g, mark, id) && key == KeyOf(messages, id)
  {
    rows := ListingExists(set id <- messages | IsAwaited(messages, g, mark, id) :: KeyOf(messages, id));
    forall key ensures key in rows <==> Eligible(messages, g, key) && After(mark, key) {
      var id := MessageId(g.instanceId, key.waMessageId);
      if Eligible(messages, g, key) && After(mark, key) {
        assert IsAwaited(messages, g, mark, id) && key == KeyOf(messages, id);
      }
    }
  }

  /** The stream after a row is the rest of the stream. */
  lemma StreamAfter(messages: map<MessageId, Message>, g: Group, rows: seq<Key>, n: nat, rest: seq<Key>)
    requires IsStream(messages, g, None, rows) && 1 <= n <= |rows|
    requires IsStream(messages, g, Some(rows[n - 1]), rest)
    ensures rest == rows[n..]
  {
    forall k ensures k in rest <==> k in rows[n..] {
      if k in rest {
        assert k in rows;
        var i :| 0 <= i < |rows| && rows[i] == k;
        LessIsStrictTotal(rows[n - 1], rows[i]);
        assert i >= n ==> rows[n..][i - n] == k;
      }
    }
    SortedIsUnique(rest, rows[n..]);
  }

  // ---- The invariant of a run without new messages ------------------------------------------------

  /** The chain's batches are the stream's first ranges. */
  ghost predicate CutsOf(batches: map<BatchId, Batch>, chain: seq<BatchId>, rows: seq<Key>)
    requires Sorted(rows)
  {
    && |chain| <= |Drain(rows)|
    && forall i :: 0 <= i < |chain| ==> chain[i] in batches && batches[chain[i]].sources == Drain(rows)[i]
  }

  ghost predicate Drains(batches: map<BatchId, Batch>, g: Group, rows: seq<Key>)
    requires Sorted(rows)
  {
    exists chain :: IsChain(batches, g, chain) && CutsOf(batches, chain, rows)
  }

  ghost predicate FetchedCut(messages: map<MessageId, Message>, l: Local) {
    l.Fetched? ==> exists rest :: IsStream(messages, l.group, l.mark, rest) && l.rows == Cut(rest)
  }

  ghost predicate DrainInv(s: State, g: Group, rows: seq<Key>) {
    && IsStream(s.messages, g, None, rows)
    && Drains(s.batches, g, rows)
    && forall p <- s.locals :: FetchedCut(s.messages, s.locals[p])
  }

  lemma FlattenSnoc(batches: seq<seq<Key>>, last: seq<Key>)
    ensures Flatten(batches + [last]) == Flatten(batches) + last
  {
    if batches == [] {
      assert [last][1..] == [];
    } else {
      assert (batches + [last])[1..] == batches[1..] + [last];
      FlattenSnoc(batches[1..], last);
    }
  }

  lemma LastOfFlatten(batches: seq<seq<Key>>)
    requires batches != [] && batches[|batches| - 1] != []
    ensures var last, all := batches[|batches| - 1], Flatten(batches);
            all != [] && all[|all| - 1] == last[|last| - 1]
  {
    var k := |batches| - 1;
    assert batches == batches[..k] + [batches[k]];
    FlattenSnoc(batches[..k], batches[k]);
  }

  lemma LastHeld(rows: seq<Key>, batches: seq<seq<Key>>, k: nat, n: nat)
    requires 1 <= k <= |batches| && batches[k - 1] != []
    requires n == |Flatten(batches[..k])| && n <= |rows| && rows[..n] == Flatten(batches[..k])
    ensures n >= 1 && batches[k - 1][|batches[k - 1]| - 1] == rows[n - 1]
  {
    LastOfFlatten(batches[..k]);
    assert rows[..n][n - 1] == rows[n - 1];
  }

  /** The last key of a stream's first ranges is the last row those ranges hold. */
  lemma LastOfRanges(rows: seq<Key>, k: nat)
    requires Sorted(rows) && 1 <= k <= |Drain(rows)|
    ensures 1 <= Drained(rows, k) <= |rows|
    ensures var range := Drain(rows)[k - 1]; range != [] && range[|range| - 1] == rows[Drained(rows, k) - 1]
  {
    DrainShape(rows, k - 1);
    DrainedPrefix(rows, k);
    LastHeld(rows, Drain(rows), k, Drained(rows, k));
  }

  function LastKey(range: seq<Key>): Option<Key> {
    if range == [] then None else Some(range[|range| - 1])
  }

  /** What remains after the stream's first `k` ranges, read from the watermark they leave. */
  lemma RestOfStream(messages: map<MessageId, Message>, g: Group, rows: seq<Key>, k: nat, rest: seq<Key>)
    requires IsStream(messages, g, None, rows) && k <= |Drain(rows)|
    requires IsStream(messages, g, if k == 0 then None else LastKey(Drain(rows)[k - 1]), rest)
    ensures Drained(rows, k) <= |rows| && rest == rows[Drained(rows, k)..]
  {
    if k == 0 {
      SortedIsUnique(rest, rows);
      assert Drain(rows)[..0] == [];
      assert rows[Drained(rows, 0)..] == rows;
    } else {
      LastOfRanges(rows, k);
      StreamAfter(messages, g, rows, Drained(rows, k), rest);
    }
  }

  /** What a builder at the end of the chain fetched is the stream's next range. */
  lemma NextRange(messages: map<MessageId, Message>, g: Group, rows: seq<Key>, k: nat, l: Local)
    requires IsStream(messages, g, None, rows) && k <= |Drain(rows)|
    requires l.Fetched? && l.group == g && l.rows != [] && FetchedCut(messages, l)
    requires l.mark == if k == 0 then None else LastKey(Drain(rows)[k - 1])
    ensures k < |Drain(rows)| && l.rows == Drain(rows)[k]
  {
    var rest :| IsStream(messages, g, l.mark, rest) && l.rows == Cut(rest);
    RestOfStream(messages, g, rows, k, rest);
    DrainStep(rows, k);
  }

  lemma OwnInsertDrains(s: State, g: Group, rows: seq<Key>, chain: seq<BatchId>, l: Local, id: BatchId)
    requires Inv(s) && IsStream(s.messages, g, None, rows)
    requires IsChain(s.batches, g, chain) && CutsOf(s.batches, chain, rows)
    requires l.Fetched? && l.group == g && l.rows != [] && LocalOk(s, l) && FetchedCut(s.messages, l) && id !in s.batches
    requires !Collides(s.batches, NewBatch(g, l.mark, l.rows, l.at))
    ensures Drains(s.batches[id := NewBatch(g, l.mark, l.rows, l.at)], g, rows)
  {
    var b := NewBatch(g, l.mark, l.rows, l.at);
    assert b.first in l.rows;
    LastIsMark(s, g, chain, l.mark, b);
    NextRange(s.messages, g, rows, |chain|, l);
    InsertExtends(s.batches, g, chain, l.mark, id, b);
    OneMoreCut(s.batches, chain, rows, id, b);
    DrainsAlong(s.batches[id := b], g, rows, chain + [id]);
  }

  lemma DrainsAlong(batches: map<BatchId, Batch>, g: Group, rows: seq<Key>, chain: seq<BatchId>)
    requires Sorted(rows) && IsChain(batches, g, chain) && CutsOf(batches, chain, rows)
    ensures Drains(batches, g, rows)
  {
  }

  /** A builder whose row no index rejects stands at the chain's last range. */
  lemma LastIsMark(s: State, g: Group, chain: seq<BatchId>, mark: Option<Key>, b: Batch)
    requires Inv(s) && IsChain(s.batches, g, chain) && MarkOk(s.batches, g, mark) && !Collides(s.batches, b)
    requires b.group == g && b.predecessor == (if mark.None? then ORIGIN else Predecessor(mark.value))
    ensures mark == if chain == [] then None else LastKey(s.batches[chain[|chain| - 1]].sources)
  {
    InsertGoesLast(s.batches, g, chain, mark, b);
    if chain != [] {
      assert RangeOk(s.batches[chain[|chain| - 1]]);
    }
  }

  lemma OneMoreCut(batches: map<BatchId, Batch>, chain: seq<BatchId>, rows: seq<Key>, id: BatchId, b: Batch)
    requires Sorted(rows) && CutsOf(batches, chain, rows) && id !in batches
    requires |chain| < |Drain(rows)| && b.sources == Drain(rows)[|chain|]
    ensures CutsOf(batches[id := b], chain + [id], rows)
  {
  }

  lemma InsertDrains(s: State, g: Group, rows: seq<Key>, l: Local, id: BatchId)
    requires Inv(s) && IsStream(s.messages, g, None, rows) && Drains(s.batches, g, rows)
    requires l.Fetched? && l.rows != [] && id !in s.batches && LocalOk(s, l) && FetchedCut(s.messages, l)
    ensures Drains(BuildRows(s.batches, l, Materialize(id)), g, rows)
  {
    var b := NewBatch(l.group, l.mark, l.rows, l.at);
    var chain :| IsChain(s.batches, g, chain) && CutsOf(s.batches, chain, rows);
    if !Collides(s.batches, b) {
      if l.group == g {
        OwnInsertDrains(s, g, rows, chain, l, id);
      } else {
        OtherChainsSurvive(s.batches, id, b, g, chain);
        assert CutsOf(s.batches[id := b], chain, rows);
      }
    }
  }

  lemma StepKeepsDrains(s: State, g: Group, rows: seq<Key>, a: Action)
    requires Inv(s) && DrainInv(s, g, rows) && Enabled(s, a) && !a.OnMessage?
    ensures Drains(Apply(s, a).batches, g, rows)
  {
    StepEvolves(s, a);
    if a.OnBuild? && a.b.Materialize? {
      assert LocalOk(s, LocalOf(s, a.p));
      InsertDrains(s, g, rows, LocalOf(s, a.p), a.b.id);
    } else {
      var chain :| IsChain(s.batches, g, chain) && CutsOf(s.batches, chain, rows);
      ChainSurvives(s.batches, Apply(s, a).batches, g, chain);
      assert CutsOf(Apply(s, a).batches, chain, rows);
    }
  }

  lemma StepKeepsFetched(s: State, a: Action)
    requires Enabled(s, a) && !a.OnMessage? && forall p <- s.locals :: FetchedCut(s.messages, s.locals[p])
    ensures forall p <- Apply(s, a).locals :: FetchedCut(s.messages, Apply(s, a).locals[p])
  {
  }

  lemma StepKeepsDrainInv(s: State, g: Group, rows: seq<Key>, a: Action)
    requires Inv(s) && DrainInv(s, g, rows) && Enabled(s, a) && !a.OnMessage?
    ensures Inv(Apply(s, a)) && DrainInv(Apply(s, a), g, rows)
  {
    StepKeepsInv(s, a);
    StepKeepsDrains(s, g, rows, a);
    StepKeepsFetched(s, a);
  }

  lemma {:induction false} RunKeepsDrainInv(s: State, g: Group, rows: seq<Key>, actions: seq<Action>)
    requires Inv(s) && DrainInv(s, g, rows) && Legal(s, actions)
    requires forall a <- actions :: !a.OnMessage?
    ensures DrainInv(Run(s, actions), g, rows)
    decreases |actions|
  {
    if actions != [] {
      StepKeepsDrainInv(s, g, rows, actions[0]);
      RunKeepsDrainInv(Apply(s, actions[0]), g, rows, actions[1..]);
    }
  }

  /**
   Whatever the interleaving, the batches of a group are the first ranges of its drained stream: workers
   racing each other neither skip, repeat nor re-cut a message.
   */
  lemma AnyInterleavingDrains(s: State, g: Group, rows: seq<Key>, actions: seq<Action>)
    requires Initial(s) && IsStream(s.messages, g, None, rows) && Legal(s, actions)
    requires forall a <- actions :: !a.OnMessage?
    ensures exists chain :: IsChain(Run(s, actions).batches, g, chain) && CutsOf(Run(s, actions).batches, chain, rows)
  {
    InitialInv(s);
    assert IsChain(s.batches, g, []) && CutsOf(s.batches, [], rows);
    RunKeepsDrainInv(s, g, rows, actions);
  }

  /** When a builder finds nothing after the newest batch, the chain holds the whole stream, each message once and in order. */
  lemma NothingLeftMeansDrained(s: State, g: Group, rows: seq<Key>, chain: seq<BatchId>)
    requires IsStream(s.messages, g, None, rows) && CutsOf(s.batches, chain, rows)
    requires IsStream(s.messages, g, if chain == [] then None else LastKey(s.batches[chain[|chain| - 1]].sources), [])
    ensures |chain| == |Drain(rows)|
    ensures Flatten(seq(|chain|, i requires 0 <= i < |chain| => s.batches[chain[i]].sources)) == rows
  {
    RestOfStream(s.messages, g, rows, |chain|, []);
    DrainStep(rows, |chain|);
    DrainPartitions(rows);
    assert seq(|chain|, i requires 0 <= i < |chain| => s.batches[chain[i]].sources) == Drain(rows);
  }

  // ---- One worker's pass ------------------------------------------------------------------------------

  lemma {:induction false} LegalOneMore(s: State, actions: seq<Action>, a: Action)
    requires Legal(s, actions) && Enabled(Run(s, actions), a)
    ensures Legal(s, actions + [a]) && Run(s, actions + [a]) == Apply(Run(s, actions), a)
    decreases |actions|
  {
    if actions == [] {
      assert [a][1..] == [] && [] + [a] == [a];
    } else {
      assert (actions + [a])[1..] == actions[1..] + [a];
      LegalOneMore(Apply(s, actions[0]), actions[1..], a);
    }
  }

  /** The three reads of a pass, when nothing is outstanding. */
  lemma PassReads(s: State, p: Process, g: Group, at: Timestamp, mark: Option<Key>, stream: seq<Key>) returns (actions: seq<Action>)
    requires LocalOf(s, p).Idle? && !Outstanding(s.batches, g)
    requires IsWatermark(s.batches, g, mark) && IsStream(s.messages, g, mark, stream) && stream != []
    ensures Legal(s, actions)
    ensures var t := Run(s, actions); t.batches == s.batches && LocalOf(t, p) == Fetched(g, at, mark, Cut(stream))
  {
    var a, b, c := OnBuild(p, Check(g, at)), OnBuild(p, ReadWatermark(mark)), OnBuild(p, ReadMessages(stream));
    CutShape(stream);
    LegalOneMore(s, [], a);
    LegalOneMore(s, [] + [a], b);
    LegalOneMore(s, [] + [a] + [b], c);
    actions := [] + [a] + [b] + [c];
  }

  /**
   In any state the protocol keeps, an idle worker whose four operations nobody disturbs builds the next range of a group
   with nothing outstanding, and changes no other row.
   */
  lemma OneWorkerBuilds(s: State, p: Process, g: Group, at: Timestamp, mark: Option<Key>, stream: seq<Key>, id: BatchId)
    returns (actions: seq<Action>)
    requires Inv(s) && LocalOf(s, p).Idle? && id !in s.batches
    requires forall other <- s.batches :: s.batches[other].group == g ==> s.batches[other].state == Complete
    requires IsWatermark(s.batches, g, mark) && IsStream(s.messages, g, mark, stream) && stream != []
    ensures Legal(s, actions)
    ensures var t := Run(s, actions);
            && id in t.batches && IsBuilt(t.batches[id], g, mark, Cut(stream), at)
            && t.batches == s.batches[id := t.batches[id]] && LocalOf(t, p).Idle?
  {
    actions := PassReads(s, p, g, at, mark, stream);
    var u, insert := Run(s, actions), OnBuild(p, Materialize(id));
    RunKeepsInv(s, actions);
    CutShape(stream);
    QuietBuildSucceeds(u, LocalOf(u, p), id);
    LegalOneMore(s, actions, insert);
    actions := actions + [insert];
  }

  /** A check that finds a batch of the group outstanding ends the pass; otherwise the pass goes on. */
  lemma CheckDecides(s: State, p: Process, g: Group, at: Timestamp)
    requires LocalOf(s, p).Idle?
    ensures var t := Apply(s, OnBuild(p, Check(g, at)));
            && t.batches == s.batches
            && (LocalOf(t, p) == Checked(g, at) <==> forall id <- s.batches :: s.batches[id].group == g ==> s.batches[id].state == Complete)
            && (LocalOf(t, p) == Checked(g, at) || LocalOf(t, p) == Idle)
  {
  }

  /** The insert fails exactly when one of the group's rows has the same predecessor, or the same first and last key. */
  lemma InsertFailsExactly(s: State, p: Process, g: Group, at: Timestamp, mark: Option<Key>, rows: seq<Key>, id: BatchId)
    requires LocalOf(s, p) == Fetched(g, at, mark, rows) && rows != [] && id !in s.batches
    ensures Apply(s, OnBuild(p, Materialize(id))).batches == s.batches <==>
            exists other <- s.batches ::
              && s.batches[other].group == g
              && (s.batches[other].predecessor == (match mark case None => "origin" case Some(key) => Predecessor(key))
                  || (s.batches[other].first == rows[0] && s.batches[other].last == rows[|rows| - 1]))
  {
    var b := NewBatch(g, mark, rows, at);
    assert Apply(s, OnBuild(p, Materialize(id))).batches == if Collides(s.batches, b) then s.batches else s.batches[id := b];
    assert id in s.batches[id := b];
  }

  // ---- What makes a message eligible ------------------------------------------------------------------

  /** A message first received is awaited in its group; received again it stays as it was. */
  lemma ReceivedIsAwaited(messages: map<MessageId, Message>, id: MessageId, groupJid: string, timestamp: Timestamp)
    ensures var later := ApplyMessage(messages, Receive(id, groupJid, timestamp));
            if id in messages then later == messages
            else
              && IsAwaited(later, Group(id.instanceId, groupJid), None, id) && KeyOf(later, id) == Key(timestamp, id.waMessageId)
              && forall other <- messages :: other in later && later[other] == messages[other]
  {
  }

  /** An edit decides whether its message is awaited, and moves no key. */
  lemma EditDecides(messages: map<MessageId, Message>, id: MessageId, revoked: bool, kindRevoked: bool)
    requires id in messages
    ensures var later := ApplyMessage(messages, Edit(id, revoked, kindRevoked));
            && later.Keys == messages.Keys && KeyOf(later, id) == KeyOf(messages, id)
            && (IsAwaited(later, Group(id.instanceId, messages[id].groupJid), None, id) <==> !revoked && !kindRevoked)
            && forall other <- messages :: other != id ==> later[other] == messages[other]
  {
  }
}
