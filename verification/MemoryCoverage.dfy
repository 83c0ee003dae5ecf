/**
 Which messages the batches hold while messages keep arriving: a range covers exactly what was stored and eligible when
 it was read, and what arrives behind it is never batched.
 */
module MemoryCoverage {
  import opened Keys
  import opened MemoryBatches
  import opened MemoryCut
  import opened MemoryDrain
  import opened MemoryRows
  import opened Wrappers

  type Messages = map<MessageId, Message>

  /** History: the messages as each process last read them, and as they were read for each batch. */
  datatype History = History(found: map<Process, Messages>, covers: map<BatchId, Messages>)

  const NOTHING: History := History(map[], map[])

  function Remember(s: State, h: History, a: Action): History {
    if a.OnBuild? && a.b.ReadMessages? then h.(found := h.found[a.p := s.messages])
    else if a.OnBuild? && a.b.Materialize? && a.b.id !in s.batches && a.b.id in Apply(s, a).batches && a.p in h.found
    then h.(covers := h.covers[a.b.id := h.found[a.p]])
    else h
  }

  function Recall(s: State, h: History, actions: seq<Action>): History
    decreases |actions|
  {
    if actions == [] then h else Recall(Apply(s, actions[0]), Remember(s, h, actions[0]), actions[1..])
  }

  // ---- What a range was cut from ---------------------------------------------------------------------

  /** The range was cut off the stream that these messages had after the key its predecessor names. */
  ghost predicate CutFrom(messages: Messages, b: Batch, mark: Option<Key>) {
    && b.predecessor == (if mark.None? then ORIGIN else Predecessor(mark.value))
    && exists rest :: IsStream(messages, b.group, mark, rest) && b.sources == Cut(rest)
  }

  ghost predicate WasCut(messages: Messages, b: Batch) {
    exists mark :: CutFrom(messages, b, mark)
  }

  ghost predicate Remembers(s: State, h: History) {
    && (forall id <- s.batches :: id in h.covers && WasCut(h.covers[id], s.batches[id]))
    && (forall p <- s.locals :: InHand(h, p, s.locals[p]))
  }

  lemma SameRange(messages: Messages, b: Batch, c: Batch)
    requires WasCut(messages, b) && Evolves(b, c)
    ensures WasCut(messages, c)
  {
    var mark :| CutFrom(messages, b, mark);
    assert CutFrom(messages, c, mark);
  }

  lemma NewRange(messages: Messages, l: Local)
    requires l.Fetched? && l.rows != [] && FetchedCut(messages, l)
    ensures WasCut(messages, NewBatch(l.group, l.mark, l.rows, l.at))
  {
    assert CutFrom(messages, NewBatch(l.group, l.mark, l.rows, l.at), l.mark);
  }

  lemma StepRemembersRanges(s: State, h: History, a: Action, id: BatchId)
    requires Remembers(s, h) && Enabled(s, a) && id in Apply(s, a).batches
    ensures id in Remember(s, h, a).covers && WasCut(Remember(s, h, a).covers[id], Apply(s, a).batches[id])
  {
    StepEvolves(s, a);
    if id in s.batches {
      SameRange(h.covers[id], s.batches[id], Apply(s, a).batches[id]);
    } else {
      NewRange(h.found[a.p], LocalOf(s, a.p));
    }
  }

  /** What a process has in hand was cut from the messages it last read. */
  ghost predicate InHand(h: History, p: Process, l: Local) {
    l.Fetched? ==> p in h.found && FetchedCut(h.found[p], l)
  }

  /** The rows a process has just fetched were cut from the messages as they are. */
  lemma ReadsCut(s: State, l: Local, b: BuildAction)
    requires BuildEnabled(s, l, b) && BuildLocal(s, l, b).Fetched?
    ensures b.ReadMessages? && FetchedCut(s.messages, BuildLocal(s, l, b))
  {
    assert IsStream(s.messages, l.group, l.mark, b.stream);
  }

  /** Any other process has in hand what it had, or nothing. */
  lemma OthersInHand(s: State, h: History, a: Action, p: Process)
    requires Remembers(s, h) && Enabled(s, a) && p in Apply(s, a).locals && !(a.OnBuild? && a.p == p)
    ensures !Apply(s, a).locals[p].Fetched? || (p in s.locals && Apply(s, a).locals[p] == s.locals[p])
  {
  }

  lemma StepRemembersReads(s: State, h: History, a: Action, p: Process)
    requires Remembers(s, h) && Enabled(s, a) && p in Apply(s, a).locals
    ensures InHand(Remember(s, h, a), p, Apply(s, a).locals[p])
  {
    if a.OnBuild? && a.p == p {
      if Apply(s, a).locals[p].Fetched? {
        ReadsCut(s, LocalOf(s, p), a.b);
      }
    } else {
      OthersInHand(s, h, a, p);
      assert p in s.locals ==> InHand(h, p, s.locals[p]);
    }
  }

  lemma StepRemembers(s: State, h: History, a: Action)
    requires Remembers(s, h) && Enabled(s, a)
    ensures Remembers(Apply(s, a), Remember(s, h, a))
  {
    forall p <- Apply(s, a).locals ensures InHand(Remember(s, h, a), p, Apply(s, a).locals[p]) {
      StepRemembersReads(s, h, a, p);
    }
    forall id <- Apply(s, a).batches
      ensures id in Remember(s, h, a).covers && WasCut(Remember(s, h, a).covers[id], Apply(s, a).batches[id])
    {
      StepRemembersRanges(s, h, a, id);
    }
  }

  lemma {:induction false} RunRemembers(s: State, h: History, actions: seq<Action>)
    requires Remembers(s, h) && Legal(s, actions)
    ensures Remembers(Run(s, actions), Recall(s, h, actions))
    decreases |actions|
  {
    if actions != [] {
      StepRemembers(s, h, actions[0]);
      RunRemembers(Apply(s, actions[0]), Remember(s, h, actions[0]), actions[1..]);
    }
  }

  /** What was read for a batch never changes afterwards. */
  lemma {:induction false} CoversStay(s: State, h: History, actions: seq<Action>, id: BatchId)
    requires Remembers(s, h) && Legal(s, actions) && id in s.batches
    ensures id in h.covers && id in Recall(s, h, actions).covers && Recall(s, h, actions).covers[id] == h.covers[id]
    decreases |actions|
  {
    if actions != [] {
      StepRemembers(s, h, actions[0]);
      StepEvolves(s, actions[0]);
      CoversStay(Apply(s, actions[0]), Remember(s, h, actions[0]), actions[1..], id);
    }
  }

  // ---- Coverage --------------------------------------------------------------------------------------

  /** A cut holds the rows of its stream up to its last one. */
  lemma CutUpTo(rest: seq<Key>, range: seq<Key>, key: Key)
    requires Sorted(rest) && range == Cut(rest) && range != []
    ensures key in range <==> key in rest && !Less(range[|range| - 1], key)
  {
    var n := |range|;
    if key in rest {
      var j :| 0 <= j < |rest| && rest[j] == key;
      LessIsStrictTotal(rest[n - 1], key);
      if j < n {
        assert range[j] == key;
      } else {
        assert Less(rest[n - 1], rest[j]);
      }
    }
    if key in range {
      var j :| 0 <= j < n && range[j] == key;
      assert rest[j] == key;
      LessIsStrictTotal(rest[n - 1], key);
    }
  }

  /** The range of the chain in which a key falls: the first that does not end before it. */
  predicate FallsIn(batches: map<BatchId, Batch>, chain: seq<BatchId>, i: nat, key: Key)
    requires i < |chain| && forall id <- chain :: id in batches
  {
    !Less(batches[chain[i]].last, key) && (i > 0 ==> Less(batches[chain[i - 1]].last, key))
  }

  lemma {:induction false} FallsSomewhere(batches: map<BatchId, Batch>, chain: seq<BatchId>, j: nat, key: Key) returns (i: nat)
    requires j < |chain| && (forall id <- chain :: id in batches) && !Less(batches[chain[j]].last, key)
    ensures i <= j && FallsIn(batches, chain, i, key)
    decreases j
  {
    if j == 0 || Less(batches[chain[j - 1]].last, key) {
      i := j;
    } else {
      i := FallsSomewhere(batches, chain, j - 1, key);
    }
  }

  /** What a range's predecessor names is the last key of the range before it. */
  lemma MarkIsPrevious(batches: map<BatchId, Batch>, g: Group, chain: seq<BatchId>, i: nat, messages: Messages, mark: Option<Key>)
    requires IsChain(batches, g, chain) && i < |chain| && CutFrom(messages, batches[chain[i]], mark)
    ensures mark == if i == 0 then None else Some(batches[chain[i - 1]].last)
  {
    assert Linked(batches, chain, i);
    var previous := batches[chain[if i == 0 then 0 else i - 1]].last;
    PredecessorIsInjective(if mark.None? then previous else mark.value, previous);
  }

  lemma RangeHolds(batches: map<BatchId, Batch>, g: Group, chain: seq<BatchId>, i: nat, messages: Messages, key: Key)
    requires IsChain(batches, g, chain) && i < |chain| && FallsIn(batches, chain, i, key)
    requires RangeOk(batches[chain[i]]) && WasCut(messages, batches[chain[i]])
    ensures key in batches[chain[i]].sources <==> Eligible(messages, g, key)
  {
    var b := batches[chain[i]];
    var mark :| CutFrom(messages, b, mark);
    var rest :| IsStream(messages, g, mark, rest) && b.sources == Cut(rest);
    MarkIsPrevious(batches, g, chain, i, messages, mark);
    CutUpTo(rest, b.sources, key);
  }

  /** A key lies in no range but the one it falls in. */
  lemma NowhereElse(batches: map<BatchId, Batch>, g: Group, chain: seq<BatchId>, i: nat, j: nat, key: Key)
    requires IsChain(batches, g, chain) && i < |chain| && j < |chain| && FallsIn(batches, chain, i, key)
    requires (forall id <- batches :: RangeOk(batches[id])) && key in batches[chain[j]].sources
    ensures j == i
  {
    var b, c := batches[chain[i]], batches[chain[j]];
    SourceWithinRange(c, key);
    LessIsStrictTotal(c.last, key);
    LessIsStrictTotal(c.first, key);
    if j < i {
      if j < i - 1 {
        assert Less(c.last, batches[chain[i - 1]].first);
        RangesAreAsymmetric(c, batches[chain[i - 1]]);
        LessIsTransitive(c.last, batches[chain[i - 1]].last, key);
      }
    } else if i < j {
      assert Less(b.last, c.first);
      if c.first != key {
        LessIsTransitive(b.last, c.first, key);
      }
    }
  }

  predicate InSomeBatch(batches: map<BatchId, Batch>, g: Group, key: Key) {
    exists id <- batches :: batches[id].group == g && key in batches[id].sources
  }

  /** Where a key falls, what was read for that range decides whether the key is batched at all. */
  ghost predicate Decided(batches: map<BatchId, Batch>, h: History, g: Group, chain: seq<BatchId>, i: nat, key: Key) {
    && i < |chain| && (forall id <- chain :: id in batches) && FallsIn(batches, chain, i, key) && chain[i] in h.covers
    && (InSomeBatch(batches, g, key) <==> Eligible(h.covers[chain[i]], g, key))
    && (InSomeBatch(batches, g, key) <==> key in batches[chain[i]].sources)
  }

  lemma RangeDecides(s: State, h: History, g: Group, chain: seq<BatchId>, i: nat, key: Key)
    requires Inv(s) && Remembers(s, h) && IsChain(s.batches, g, chain)
    requires i < |chain| && FallsIn(s.batches, chain, i, key)
    ensures Decided(s.batches, h, g, chain, i, key)
  {
    RangeHolds(s.batches, g, chain, i, h.covers[chain[i]], key);
    if InSomeBatch(s.batches, g, key) {
      OnlyThere(s.batches, g, chain, i, key);
    }
  }

  lemma SomeRangeDecides(s: State, h: History, g: Group, chain: seq<BatchId>, key: Key)
    requires Inv(s) && Remembers(s, h) && IsChain(s.batches, g, chain)
    requires chain != [] && !Less(s.batches[chain[|chain| - 1]].last, key)
    ensures exists i: nat :: Decided(s.batches, h, g, chain, i, key)
  {
    var i := FallsSomewhere(s.batches, chain, |chain| - 1, key);
    RangeDecides(s, h, g, chain, i, key);
  }

  /** A state and its history that some run from the beginning leads to. */
  ghost predicate Reached(s: State, h: History) {
    exists start, actions :: LeadsTo(start, actions, s, h)
  }

  ghost predicate LeadsTo(start: State, actions: seq<Action>, s: State, h: History) {
    Initial(start) && Legal(start, actions) && s == Run(start, actions) && h == Recall(start, NOTHING, actions)
  }

  lemma InitialRemembers(start: State)
    requires Initial(start)
    ensures Remembers(start, NOTHING)
  {
  }

  lemma RunLeadsTo(start: State, actions: seq<Action>, h: History)
    requires Initial(start) && Legal(start, actions) && Remembers(start, h)
    ensures Inv(Run(start, actions)) && Remembers(Run(start, actions), Recall(start, h, actions))
  {
    InitialInv(start);
    RunKeepsInv(start, actions);
    RunRemembers(start, h, actions);
  }

  lemma ReachedRemembers(s: State, h: History)
    requires Reached(s, h)
    ensures Inv(s) && Remembers(s, h)
  {
    var start, actions :| LeadsTo(start, actions, s, h);
    InitialRemembers(start);
    RunLeadsTo(start, actions, NOTHING);
  }

  /**
   In every reachable state, a key at or before the chain's end falls in one range of it, and a message with that key is
   batched, there and nowhere else, exactly when it was stored and eligible when that range was read.
   */
  lemma CoveredExactly(s: State, h: History, g: Group, chain: seq<BatchId>, key: Key)
    requires Reached(s, h) && IsChain(s.batches, g, chain)
    requires chain != [] && !Less(s.batches[chain[|chain| - 1]].last, key)
    ensures exists i: nat :: Decided(s.batches, h, g, chain, i, key)
  {
    ReachedRemembers(s, h);
    SomeRangeDecides(s, h, g, chain, key);
  }

  lemma OnlyThere(batches: map<BatchId, Batch>, g: Group, chain: seq<BatchId>, i: nat, key: Key)
    requires IsChain(batches, g, chain) && i < |chain| && FallsIn(batches, chain, i, key)
    requires (forall id <- batches :: RangeOk(batches[id])) && InSomeBatch(batches, g, key)
    ensures key in batches[chain[i]].sources
  {
    var id :| id in batches && batches[id].group == g && key in batches[id].sources;
    var j :| 0 <= j < |chain| && chain[j] == id;
    NowhereElse(batches, g, chain, i, j, key);
  }

  // ---- What arrives behind the chain -----------------------------------------------------------------

  /** The key is at or before the end of some batch of the group. */
  predicate Behind(batches: map<BatchId, Batch>, g: Group, key: Key) {
    exists id <- batches :: batches[id].group == g && !Less(batches[id].last, key)
  }

  lemma StaysBehind(batches: map<BatchId, Batch>, later: map<BatchId, Batch>, g: Group, key: Key)
    requires Behind(batches, g, key) && RowsEvolve(batches, later)
    ensures Behind(later, g, key)
  {
    var id :| id in batches && batches[id].group == g && !Less(batches[id].last, key);
    assert Evolves(batches[id], later[id]);
  }

  /** A range that no index rejects lies after everything the chain has passed. */
  lemma NewRangeIsAhead(s: State, l: Local, key: Key)
    requires Inv(s) && LocalOk(s, l) && l.Fetched? && Behind(s.batches, l.group, key)
    requires !Collides(s.batches, NewBatch(l.group, l.mark, l.rows, l.at))
    ensures key !in l.rows
  {
    var g := l.group;
    assert HasChain(s.batches, g);
    var chain :| IsChain(s.batches, g, chain);
    InsertGoesLast(s.batches, g, chain, l.mark, NewBatch(g, l.mark, l.rows, l.at));
    var id :| id in s.batches && s.batches[id].group == g && !Less(s.batches[id].last, key);
    var j :| 0 <= j < |chain| && chain[j] == id;
    EndIsLast(s.batches, g, chain, j, key);
  }

  lemma EndIsLast(batches: map<BatchId, Batch>, g: Group, chain: seq<BatchId>, j: nat, key: Key)
    requires IsChain(batches, g, chain) && j < |chain| && !Less(batches[chain[j]].last, key)
    requires forall id <- batches :: RangeOk(batches[id])
    ensures !Less(batches[chain[|chain| - 1]].last, key)
  {
    if j < |chain| - 1 {
      LastBeforeLast(batches, g, chain, j);
      if Less(batches[chain[|chain| - 1]].last, key) {
        LessIsTransitive(batches[chain[j]].last, batches[chain[|chain| - 1]].last, key);
      }
    }
  }

  lemma StepLeavesOut(s: State, a: Action, g: Group, key: Key)
    requires Inv(s) && Enabled(s, a) && Behind(s.batches, g, key) && !InSomeBatch(s.batches, g, key)
    ensures Behind(Apply(s, a).batches, g, key) && !InSomeBatch(Apply(s, a).batches, g, key)
  {
    StepEvolves(s, a);
    StaysBehind(s.batches, Apply(s, a).batches, g, key);
    var later := Apply(s, a).batches;
    forall id <- later | later[id].group == g ensures key !in later[id].sources {
      if id in s.batches {
        assert Evolves(s.batches[id], later[id]);
      } else {
        assert LocalOk(s, LocalOf(s, a.p));
        NewRangeIsAhead(s, LocalOf(s, a.p), key);
      }
    }
  }

  /** What is behind the chain and in no batch is never batched, whatever happens. */
  lemma {:induction false} LeftOutForGood(s: State, actions: seq<Action>, g: Group, key: Key)
    requires Inv(s) && Legal(s, actions) && Behind(s.batches, g, key) && !InSomeBatch(s.batches, g, key)
    ensures !InSomeBatch(Run(s, actions).batches, g, key)
    decreases |actions|
  {
    if actions != [] {
      StepKeepsInv(s, actions[0]);
      StepLeavesOut(s, actions[0], g, key);
      LeftOutForGood(Apply(s, actions[0]), actions[1..], g, key);
    }
  }

  /** In particular a message that arrives with a key the chain has passed. */
  lemma LateArrivalIsLeftOut(s: State, h: History, id: MessageId, groupJid: string, timestamp: Timestamp, after: seq<Action>)
    requires Reached(s, h) && id !in s.messages
    requires Behind(s.batches, Group(id.instanceId, groupJid), Key(timestamp, id.waMessageId))
    requires Legal(Apply(s, OnMessage(Receive(id, groupJid, timestamp))), after)
    ensures var g, key := Group(id.instanceId, groupJid), Key(timestamp, id.waMessageId);
            var t := Apply(s, OnMessage(Receive(id, groupJid, timestamp)));
            Eligible(t.messages, g, key) && !InSomeBatch(Run(t, after).batches, g, key)
  {
    ReachedRemembers(s, h);
    var a := OnMessage(Receive(id, groupJid, timestamp));
    var g, key := Group(id.instanceId, groupJid), Key(timestamp, id.waMessageId);
    assert !Stored(s.messages, g, key);
    StepKeepsInv(s, a);
    LeftOutForGood(Apply(s, a), after, g, key);
  }

  // ---- When a builder finds nothing ------------------------------------------------------------------

  /** The key falls in a range for which it was not read. */
  ghost predicate MissedBy(batches: map<BatchId, Batch>, h: History, g: Group, chain: seq<BatchId>, key: Key) {
    exists i: nat :: Decided(batches, h, g, chain, i, key) && !Eligible(h.covers[chain[i]], g, key)
  }

  /**
   When the query after the newest batch finds nothing, every eligible message is in a batch or was not yet eligible when
   the range it falls in was read.
   */
  lemma NothingLeftMeansCovered(s: State, h: History, g: Group, chain: seq<BatchId>, key: Key)
    requires Reached(s, h) && IsChain(s.batches, g, chain) && Eligible(s.messages, g, key)
    requires IsStream(s.messages, g, if chain == [] then None else Some(s.batches[chain[|chain| - 1]].last), [])
    ensures InSomeBatch(s.batches, g, key) || MissedBy(s.batches, h, g, chain, key)
  {
    assert key !in [];
    assert !After(if chain == [] then None else Some(s.batches[chain[|chain| - 1]].last), key);
    CoveredExactly(s, h, g, chain, key);
  }
}
