/**
 The memory-batch protocol: any number of worker processes build, lease, recover and fail the batches
 of every group while the console completes them and messages arrive. Every action below is one atomic
 database operation, or a crash; an interleaving is a sequence of actions.
 */
module MemoryBatches {
  import opened Keys
  import opened MemoryCut
  import opened MemoryRows
  import opened Wrappers

  // ---- State ------------------------------------------------------------------------------------

  datatype MessageId = MessageId(instanceId: string, waMessageId: string)

  datatype Message = Message(groupJid: string, timestamp: Timestamp, revoked: bool, kindRevoked: bool)

  /** Where a process stands between two database operations of `buildGroup` or `Fail`. */
  datatype Local =
    | Idle
    | Checked(group: Group, at: Timestamp)
    | Marked(group: Group, at: Timestamp, mark: Option<Key>)
    | Fetched(group: Group, at: Timestamp, mark: Option<Key>, rows: seq<Key>)
    | Failing(id: BatchId, token: Token, attempts: nat, at: Timestamp)

  /** Which attempt of which batch a token was issued for. */
  datatype Grant = Grant(id: BatchId, attempt: nat)

  datatype State = State(
    messages: map<MessageId, Message>,
    batches: map<BatchId, Batch>,
    locals: map<Process, Local>,
    grants: map<Token, Grant>)

  function LocalOf(s: State, p: Process): Local {
    if p in s.locals then s.locals[p] else Idle
  }

  // ---- What the queries read ----------------------------------------------------------------------

  /** A stored message of the group with this key. */
  predicate Stored(messages: map<MessageId, Message>, g: Group, key: Key) {
    var id := MessageId(g.instanceId, key.waMessageId);
    id in messages && messages[id].groupJid == g.groupJid && messages[id].timestamp == key.timestamp
  }

  predicate Eligible(messages: map<MessageId, Message>, g: Group, key: Key) {
    && Stored(messages, g, key)
    && var m := messages[MessageId(g.instanceId, key.waMessageId)];
       !m.revoked && !m.kindRevoked
  }

  predicate After(mark: Option<Key>, key: Key) {
    mark.None? || Less(mark.value, key)
  }

  /** `rows` is the group's eligible messages after the watermark, in key order. */
  ghost predicate IsStream(messages: map<MessageId, Message>, g: Group, mark: Option<Key>, rows: seq<Key>) {
    && Sorted(rows)
    && forall key :: key in rows <==> Eligible(messages, g, key) && After(mark, key)
  }

  predicate Outstanding(batches: map<BatchId, Batch>, g: Group) {
    exists id <- batches :: batches[id].group == g && !batches[id].state.Complete?
  }

  /** `mark` is the greatest `last` of the group's completed batches, or none. */
  predicate IsWatermark(batches: map<BatchId, Batch>, g: Group, mark: Option<Key>) {
    match mark
    case None => forall id <- batches :: batches[id].group == g ==> !batches[id].state.Complete?
    case Some(key) =>
      && (exists id <- batches :: CompletedAt(batches[id], g, key))
      && (forall id <- batches :: batches[id].group == g && batches[id].state.Complete? ==> !Less(key, batches[id].last))
  }

  predicate CompletedAt(b: Batch, g: Group, key: Key) {
    b.group == g && b.state.Complete? && b.last == key
  }

  /** The unique indexes on predecessor and on range reject this row. */
  predicate Collides(batches: map<BatchId, Batch>, b: Batch) {
    exists id <- batches ::
      && batches[id].group == b.group
      && (batches[id].predecessor == b.predecessor || (batches[id].first == b.first && batches[id].last == b.last))
  }

  // ---- Actions ------------------------------------------------------------------------------------

  datatype MessageAction =
    | Receive(id: MessageId, groupJid: string, timestamp: Timestamp)
    | Edit(id: MessageId, revoked: bool, kindRevoked: bool)

  /** The four database operations of `buildGroup`. */
  datatype BuildAction =
    | Check(group: Group, at: Timestamp)
    | ReadWatermark(mark: Option<Key>)
    | ReadMessages(stream: seq<Key>)
    | Materialize(id: BatchId)

  datatype LeaseAction =
    | Claim(token: Token, at: Timestamp)
    | Heartbeat(token: Token, at: Timestamp)
    | Bury(at: Timestamp)
    | Retry(at: Timestamp)
    | ReadFailing(token: Token, at: Timestamp)
    | WriteFailing(terminal: bool, state: BatchState, due: Option<Timestamp>)
    | CompleteBatch(token: Token, at: Timestamp)

  datatype Action =
    | OnMessage(m: MessageAction)
    | OnBuild(p: Process, b: BuildAction)
    | OnLease(p: Process, id: BatchId, l: LeaseAction)
    | Crash(p: Process)

  function ApplyMessage(messages: map<MessageId, Message>, m: MessageAction): map<MessageId, Message> {
    match m
    case Receive(id, groupJid, timestamp) =>
      if id in messages then messages else messages[id := Message(groupJid, timestamp, false, false)]
    case Edit(id, revoked, kindRevoked) =>
      if id !in messages then messages
      else messages[id := messages[id].(revoked := revoked, kindRevoked := kindRevoked)]
  }

  ghost predicate BuildEnabled(s: State, l: Local, b: BuildAction) {
    match b
    case Check(_, _) => l.Idle?
    case ReadWatermark(mark) => l.Checked? && IsWatermark(s.batches, l.group, mark)
    case ReadMessages(stream) => l.Marked? && IsStream(s.messages, l.group, l.mark, stream)
    case Materialize(id) => l.Fetched? && l.rows != [] && id !in s.batches
  }

  /** Where a build action leaves its process. */
  function BuildLocal(s: State, l: Local, b: BuildAction): Local {
    match b
    case Check(group, at) => if Outstanding(s.batches, group) then Idle else Checked(group, at)
    case ReadWatermark(mark) => if l.Checked? then Marked(l.group, l.at, mark) else Idle
    case ReadMessages(stream) =>
      if l.Marked? && Cut(stream) != [] then Fetched(l.group, l.at, l.mark, Cut(stream)) else Idle
    case Materialize(_) => Idle
  }

  /** What a build action leaves stored: only the insert writes, and only when no unique index rejects it. */
  function BuildRows(batches: map<BatchId, Batch>, l: Local, b: BuildAction): map<BatchId, Batch> {
    if b.Materialize? && l.Fetched? && l.rows != [] && !Collides(batches, NewBatch(l.group, l.mark, l.rows, l.at))
    then batches[b.id := NewBatch(l.group, l.mark, l.rows, l.at)]
    else batches
  }

  predicate LeaseEnabled(s: State, p: Process, id: BatchId, l: LeaseAction) {
    && id in s.batches
    && match l
       case Claim(token, at) => Due(s.batches[id], at) && IsOldestDue(s.batches, id, at) && token !in s.grants
       case ReadFailing(token, at) => LocalOf(s, p).Idle? && Holds(s.batches[id], token)
       case WriteFailing(terminal, state, due) =>
         var f := LocalOf(s, p);
         f.Failing? && f.id == id && FailureOutcome(f.attempts, terminal, f.at, state, due)
       case _ => true
  }

  predicate IsOldestDue(batches: map<BatchId, Batch>, id: BatchId, at: Timestamp)
    requires id in batches
  {
    forall other <- batches :: Due(batches[other], at) ==> batches[id].createdAt <= batches[other].createdAt
  }

  /** What a lease action makes of its row. */
  function LeaseRow(b: Batch, p: Process, f: Local, l: LeaseAction): Batch {
    match l
    case Claim(token, at) => ClaimRow(b, p, token, at)
    case Heartbeat(token, at) => HeartbeatRow(b, token, at)
    case Bury(at) => BuryRow(b, at)
    case Retry(at) => RetryRow(b, at)
    case ReadFailing(_, _) => b
    case WriteFailing(_, state, due) => if f.Failing? then FailRow(b, f.token, state, due) else b
    case CompleteBatch(token, at) => CompleteRow(b, token, at)
  }

  function LeaseLocal(b: Batch, f: Local, id: BatchId, l: LeaseAction): Local {
    match l
    case ReadFailing(token, at) => Failing(id, token, b.attempts, at)
    case WriteFailing(_, _, _) => Idle
    case _ => f
  }

  ghost predicate Enabled(s: State, a: Action) {
    match a
    case OnMessage(_) => true
    case OnBuild(p, b) => BuildEnabled(s, LocalOf(s, p), b)
    case OnLease(p, id, l) => LeaseEnabled(s, p, id, l)
    case Crash(_) => true
  }

  function Apply(s: State, a: Action): State {
    match a
    case OnMessage(m) => s.(messages := ApplyMessage(s.messages, m))
    case OnBuild(p, b) =>
      s.(batches := BuildRows(s.batches, LocalOf(s, p), b), locals := s.locals[p := BuildLocal(s, LocalOf(s, p), b)])
    case OnLease(p, id, l) =>
      if id !in s.batches then s
      else
        var b := s.batches[id];
        s.(batches := s.batches[id := LeaseRow(b, p, LocalOf(s, p), l)],
           locals := s.locals[p := LeaseLocal(b, LocalOf(s, p), id, l)],
           grants := if l.Claim? then s.grants[l.token := Grant(id, b.attempts + 1)] else s.grants)
    case Crash(p) => s.(locals := s.locals[p := Idle])
  }

  /** Every action of the sequence is enabled when its turn comes. */
  ghost predicate Legal(s: State, actions: seq<Action>)
    decreases |actions|
  {
    actions == [] || (Enabled(s, actions[0]) && Legal(Apply(s, actions[0]), actions[1..]))
  }

  function Run(s: State, actions: seq<Action>): State
    decreases |actions|
  {
    if actions == [] then s else Run(Apply(s, actions[0]), actions[1..])
  }

  /** Nothing has been built yet; messages may already be stored. */
  predicate Initial(s: State) {
    s.batches == map[] && s.locals == map[] && s.grants == map[]
  }

  // ---- The invariant --------------------------------------------------------------------------------

  predicate RangeOk(b: Batch) {
    b.sources != [] && Sorted(b.sources) && b.first == b.sources[0] && b.last == b.sources[|b.sources| - 1]
  }

  /** `chain` lists the group's batches in order: each is built on its predecessor's last key, and only the newest may be unfinished. */
  ghost predicate IsChain(batches: map<BatchId, Batch>, g: Group, chain: seq<BatchId>) {
    && OfGroup(batches, g, chain)
    && (forall id <- batches :: batches[id].group == g ==> id in chain)
    && (forall i :: 0 <= i < |chain| ==> Linked(batches, chain, i))
    && Increasing(batches, chain)
  }

  predicate OfGroup(batches: map<BatchId, Batch>, g: Group, chain: seq<BatchId>) {
    forall i :: 0 <= i < |chain| ==> chain[i] in batches && batches[chain[i]].group == g
  }

  /** Each range lies before every later one. */
  predicate Increasing(batches: map<BatchId, Batch>, chain: seq<BatchId>)
    requires forall i :: 0 <= i < |chain| ==> chain[i] in batches
  {
    forall i, j :: 0 <= i < j < |chain| ==> Less(batches[chain[i]].last, batches[chain[j]].first)
  }

  predicate Linked(batches: map<BatchId, Batch>, chain: seq<BatchId>, i: nat)
    requires i < |chain| && forall id <- chain :: id in batches
  {
    if i == 0 then batches[chain[0]].predecessor == ORIGIN else Follows(batches[chain[i - 1]], batches[chain[i]])
  }

  predicate Follows(b: Batch, next: Batch) {
    b.state.Complete? && next.predecessor == Predecessor(b.last)
  }

  ghost predicate Chained(batches: map<BatchId, Batch>) {
    forall g :: HasChain(batches, g)
  }

  ghost predicate HasChain(batches: map<BatchId, Batch>, g: Group) {
    exists chain :: IsChain(batches, g, chain)
  }

  predicate RowsOk(messages: map<MessageId, Message>, batches: map<BatchId, Batch>) {
    forall id <- batches ::
      && RowOk(batches[id]) && RangeOk(batches[id])
      && forall key <- batches[id].sources :: Stored(messages, batches[id].group, key)
  }

  /** Each token was issued for one attempt of one batch, no two for the same, and a held token for the row's latest. */
  ghost predicate GrantsOk(batches: map<BatchId, Batch>, grants: map<Token, Grant>) {
    && (forall t <- grants :: grants[t].id in batches && 1 <= grants[t].attempt <= batches[grants[t].id].attempts)
    && (forall t <- grants, u <- grants :: grants[t] == grants[u] ==> t == u)
    && (forall id <- batches :: batches[id].lease.Some? ==> HeldGrant(grants, id, batches[id]))
  }

  predicate HeldGrant(grants: map<Token, Grant>, id: BatchId, b: Batch)
    requires b.lease.Some?
  {
    b.lease.value.token in grants && grants[b.lease.value.token] == Grant(id, b.attempts)
  }

  predicate MarkOk(batches: map<BatchId, Batch>, g: Group, mark: Option<Key>) {
    mark.Some? ==> exists id <- batches :: CompletedAt(batches[id], g, mark.value)
  }

  ghost predicate LocalOk(s: State, l: Local) {
    match l
    case Idle => true
    case Checked(_, _) => true
    case Marked(g, _, mark) => MarkOk(s.batches, g, mark)
    case Fetched(g, _, mark, rows) =>
      && MarkOk(s.batches, g, mark) && rows != [] && Sorted(rows)
      && forall key <- rows :: Stored(s.messages, g, key) && After(mark, key)
    case Failing(id, token, attempts, _) => token in s.grants && s.grants[token] == Grant(id, attempts)
  }

  ghost predicate Inv(s: State) {
    && Chained(s.batches)
    && RowsOk(s.messages, s.batches)
    && GrantsOk(s.batches, s.grants)
    && forall p <- s.locals :: LocalOk(s, s.locals[p])
  }

  // ---- One step ---------------------------------------------------------------------------------------

  /** No step removes a row, changes a range, lowers an attempt count, or touches a row that is over. */
  ghost predicate RowsEvolve(batches: map<BatchId, Batch>, later: map<BatchId, Batch>) {
    forall id <- batches :: id in later && Evolves(batches[id], later[id])
  }

  /** No step removes a message or changes its group or timestamp: they are written only on insert. */
  predicate MessagesEvolve(messages: map<MessageId, Message>, later: map<MessageId, Message>) {
    forall id <- messages ::
      id in later && later[id].groupJid == messages[id].groupJid && later[id].timestamp == messages[id].timestamp
  }

  lemma LeaseEvolves(s: State, p: Process, id: BatchId, l: LeaseAction)
    requires LeaseEnabled(s, p, id, l)
    ensures Evolves(s.batches[id], LeaseRow(s.batches[id], p, LocalOf(s, p), l))
  {
  }

  /** What every action keeps about the rows and messages that exist before it. */
  lemma StepEvolves(s: State, a: Action)
    requires Enabled(s, a)
    ensures RowsEvolve(s.batches, Apply(s, a).batches)
    ensures MessagesEvolve(s.messages, Apply(s, a).messages)
    ensures !(a.OnBuild? && a.b.Materialize?) ==> Apply(s, a).batches.Keys == s.batches.Keys
  {
    if a.OnLease? {
      LeaseEvolves(s, a.p, a.id, a.l);
    }
  }

  lemma ChainSurvives(batches: map<BatchId, Batch>, later: map<BatchId, Batch>, g: Group, chain: seq<BatchId>)
    requires IsChain(batches, g, chain) && RowsEvolve(batches, later) && later.Keys == batches.Keys
    ensures IsChain(later, g, chain)
  {
    forall i | 0 <= i < |chain| ensures Linked(later, chain, i) {
      assert Linked(batches, chain, i);
    }
  }

  lemma ChainsSurvive(batches: map<BatchId, Batch>, later: map<BatchId, Batch>)
    requires Chained(batches) && RowsEvolve(batches, later) && later.Keys == batches.Keys
    ensures Chained(later)
  {
    forall g ensures HasChain(later, g) {
      assert HasChain(batches, g);
      var chain :| IsChain(batches, g, chain);
      ChainSurvives(batches, later, g, chain);
    }
  }

  /** A second range on the same predecessor is rejected. */
  lemma FirstCollides(batches: map<BatchId, Batch>, g: Group, chain: seq<BatchId>, b: Batch)
    requires IsChain(batches, g, chain) && chain != [] && b.group == g && b.predecessor == ORIGIN
    ensures Collides(batches, b)
  {
    assert Linked(batches, chain, 0);
  }

  lemma SuccessorCollides(batches: map<BatchId, Batch>, g: Group, chain: seq<BatchId>, i: nat, key: Key, b: Batch)
    requires IsChain(batches, g, chain) && i + 1 < |chain| && b.group == g
    requires batches[chain[i]].last == key && b.predecessor == Predecessor(key)
    ensures Collides(batches, b)
  {
    assert Linked(batches, chain, i + 1);
  }

  lemma InsertAfterMark(batches: map<BatchId, Batch>, g: Group, chain: seq<BatchId>, key: Key, b: Batch) returns (i: nat)
    requires IsChain(batches, g, chain) && MarkOk(batches, g, Some(key)) && !Collides(batches, b)
    requires b.group == g && b.predecessor == Predecessor(key)
    ensures i + 1 == |chain| && CompletedAt(batches[chain[i]], g, key)
  {
    i := MarkedAt(batches, g, chain, key);
    if i + 1 < |chain| {
      SuccessorCollides(batches, g, chain, i, key, b);
    }
  }

  /** The unique predecessor index leaves only one place for a new range: after the chain's last batch. */
  lemma InsertGoesLast(batches: map<BatchId, Batch>, g: Group, chain: seq<BatchId>, mark: Option<Key>, b: Batch)
    requires IsChain(batches, g, chain) && MarkOk(batches, g, mark) && !Collides(batches, b)
    requires b.group == g && b.predecessor == (if mark.None? then ORIGIN else Predecessor(mark.value))
    ensures mark.None? <==> chain == []
    ensures mark.Some? ==> CompletedAt(batches[chain[|chain| - 1]], g, mark.value)
  {
    match mark
    case None => NoneIsEmpty(batches, g, chain, b);
    case Some(key) => var last := InsertAfterMark(batches, g, chain, key, b);
  }

  lemma NoneIsEmpty(batches: map<BatchId, Batch>, g: Group, chain: seq<BatchId>, b: Batch)
    requires IsChain(batches, g, chain) && !Collides(batches, b) && b.group == g && b.predecessor == ORIGIN
    ensures chain == []
  {
    if chain != [] {
      FirstCollides(batches, g, chain, b);
    }
  }

  lemma MarkedAt(batches: map<BatchId, Batch>, g: Group, chain: seq<BatchId>, key: Key) returns (i: nat)
    requires IsChain(batches, g, chain) && MarkOk(batches, g, Some(key))
    ensures i < |chain| && CompletedAt(batches[chain[i]], g, key)
  {
    var id :| id in batches && CompletedAt(batches[id], g, key);
    i :| 0 <= i < |chain| && chain[i] == id;
  }

  lemma InsertExtends(batches: map<BatchId, Batch>, g: Group, chain: seq<BatchId>, mark: Option<Key>, id: BatchId, b: Batch)
    requires forall other <- batches :: RangeOk(batches[other])
    requires IsChain(batches, g, chain) && MarkOk(batches, g, mark) && !Collides(batches, b) && id !in batches
    requires b.group == g && b.predecessor == (if mark.None? then ORIGIN else Predecessor(mark.value))
    requires After(mark, b.first)
    ensures IsChain(batches[id := b], g, chain + [id])
  {
    InsertGoesLast(batches, g, chain, mark, b);
    forall i | 0 <= i < |chain| ensures Less(batches[chain[i]].last, b.first) {
      if i < |chain| - 1 {
        LastBeforeLast(batches, g, chain, i);
        LessIsTransitive(batches[chain[i]].last, mark.value, b.first);
      }
    }
    ChainWithLast(batches, g, chain, id, b);
  }

  lemma ChainWithLast(batches: map<BatchId, Batch>, g: Group, chain: seq<BatchId>, id: BatchId, b: Batch)
    requires IsChain(batches, g, chain) && id !in batches && b.group == g
    requires if chain == [] then b.predecessor == ORIGIN else Follows(batches[chain[|chain| - 1]], b)
    requires forall i :: 0 <= i < |chain| ==> Less(batches[chain[i]].last, b.first)
    ensures IsChain(batches[id := b], g, chain + [id])
  {
    GroupWithLast(batches, g, chain, id, b);
    var later, longer := batches[id := b], chain + [id];
    forall i | 0 <= i < |longer| ensures Linked(later, longer, i) {
      LinkedWithLast(batches, chain, id, b, i);
    }
    IncreasingWithLast(batches, chain, id, b);
  }

  lemma LinkedWithLast(batches: map<BatchId, Batch>, chain: seq<BatchId>, id: BatchId, b: Batch, i: nat)
    requires (forall other <- chain :: other in batches) && id !in batches && i <= |chain|
    requires i < |chain| ==> Linked(batches, chain, i)
    requires if chain == [] then b.predecessor == ORIGIN else Follows(batches[chain[|chain| - 1]], b)
    ensures Linked(batches[id := b], chain + [id], i)
  {
  }

  lemma GroupWithLast(batches: map<BatchId, Batch>, g: Group, chain: seq<BatchId>, id: BatchId, b: Batch)
    requires OfGroup(batches, g, chain) && (forall other <- batches :: batches[other].group == g ==> other in chain)
    requires id !in batches && b.group == g
    ensures OfGroup(batches[id := b], g, chain + [id])
    ensures var later := batches[id := b]; forall other <- later :: later[other].group == g ==> other in chain + [id]
  {
  }

  lemma IncreasingWithLast(batches: map<BatchId, Batch>, chain: seq<BatchId>, id: BatchId, b: Batch)
    requires (forall i :: 0 <= i < |chain| ==> chain[i] in batches) && id !in batches
    requires Increasing(batches, chain) && forall i :: 0 <= i < |chain| ==> Less(batches[chain[i]].last, b.first)
    ensures Increasing(batches[id := b], chain + [id])
  {
  }

  lemma LastBeforeLast(batches: map<BatchId, Batch>, g: Group, chain: seq<BatchId>, i: nat)
    requires IsChain(batches, g, chain) && i < |chain| - 1
    requires forall id <- batches :: RangeOk(batches[id])
    ensures Less(batches[chain[i]].last, batches[chain[|chain| - 1]].last)
  {
    var b := batches[chain[|chain| - 1]];
    if |b.sources| > 1 {
      assert Less(b.sources[0], b.sources[|b.sources| - 1]);
      LessIsTransitive(batches[chain[i]].last, b.first, b.last);
    }
  }

  lemma OtherChainsSurvive(batches: map<BatchId, Batch>, id: BatchId, b: Batch, g: Group, chain: seq<BatchId>)
    requires IsChain(batches, g, chain) && id !in batches && b.group != g
    ensures IsChain(batches[id := b], g, chain)
  {
    var later := batches[id := b];
    forall i | 0 <= i < |chain| ensures Linked(later, chain, i) {
      assert Linked(batches, chain, i);
    }
  }

  lemma InsertKeepsChains(s: State, l: Local, id: BatchId)
    requires Inv(s) && LocalOk(s, l) && l.Fetched? && id !in s.batches
    ensures Chained(BuildRows(s.batches, l, Materialize(id)))
  {
    var b := NewBatch(l.group, l.mark, l.rows, l.at);
    if !Collides(s.batches, b) {
      assert b.first in l.rows;
      var later := s.batches[id := b];
      forall g ensures HasChain(later, g) {
        assert HasChain(s.batches, g);
        var chain :| IsChain(s.batches, g, chain);
        if g == l.group {
          InsertExtends(s.batches, g, chain, l.mark, id, b);
        } else {
          OtherChainsSurvive(s.batches, id, b, g, chain);
        }
      }
    }
  }

  lemma StepKeepsChains(s: State, a: Action)
    requires Inv(s) && Enabled(s, a)
    ensures Chained(Apply(s, a).batches)
  {
    StepEvolves(s, a);
    if a.OnBuild? && a.b.Materialize? {
      assert LocalOk(s, LocalOf(s, a.p));
      InsertKeepsChains(s, LocalOf(s, a.p), a.b.id);
    } else {
      ChainsSurvive(s.batches, Apply(s, a).batches);
    }
  }

  // ---- The other parts of the invariant -------------------------------------------------------------

  lemma LeaseRowOk(s: State, p: Process, id: BatchId, l: LeaseAction)
    requires LeaseEnabled(s, p, id, l) && RowOk(s.batches[id])
    requires l.WriteFailing? && Holds(s.batches[id], LocalOf(s, p).token) ==> LocalOf(s, p).attempts == s.batches[id].attempts
    ensures RowOk(LeaseRow(s.batches[id], p, LocalOf(s, p), l))
  {
  }

  /** The attempt count a failure read is still the row's when its write lands: the token belongs to one attempt. */
  lemma FailureReadIsCurrent(s: State, p: Process)
    requires Inv(s) && LocalOf(s, p).Failing? && LocalOf(s, p).id in s.batches
    requires Holds(s.batches[LocalOf(s, p).id], LocalOf(s, p).token)
    ensures LocalOf(s, p).attempts == s.batches[LocalOf(s, p).id].attempts
  {
    var f := LocalOf(s, p);
    assert LocalOk(s, f) && HeldGrant(s.grants, f.id, s.batches[f.id]);
  }

  lemma StoredSurvives(messages: map<MessageId, Message>, later: map<MessageId, Message>, b: Batch)
    requires forall key <- b.sources :: Stored(messages, b.group, key)
    requires MessagesEvolve(messages, later)
    ensures forall key <- b.sources :: Stored(later, b.group, key)
  {
  }

  lemma MessagesKeepRows(s: State, m: MessageAction)
    requires RowsOk(s.messages, s.batches)
    ensures RowsOk(ApplyMessage(s.messages, m), s.batches)
  {
    forall id <- s.batches
      ensures forall key <- s.batches[id].sources :: Stored(ApplyMessage(s.messages, m), s.batches[id].group, key)
    {
      StoredSurvives(s.messages, ApplyMessage(s.messages, m), s.batches[id]);
    }
  }

  lemma BuildKeepsRows(s: State, l: Local, b: BuildAction)
    requires RowsOk(s.messages, s.batches) && LocalOk(s, l)
    ensures RowsOk(s.messages, BuildRows(s.batches, l, b))
  {
  }

  lemma LeaseKeepsRows(s: State, p: Process, id: BatchId, l: LeaseAction)
    requires Inv(s) && LeaseEnabled(s, p, id, l)
    ensures RowsOk(s.messages, s.batches[id := LeaseRow(s.batches[id], p, LocalOf(s, p), l)])
  {
    if l.WriteFailing? && Holds(s.batches[id], LocalOf(s, p).token) {
      FailureReadIsCurrent(s, p);
    }
    LeaseRowOk(s, p, id, l);
    LeaseEvolves(s, p, id, l);
  }

  lemma StepKeepsRows(s: State, a: Action)
    requires Inv(s) && Enabled(s, a)
    ensures RowsOk(Apply(s, a).messages, Apply(s, a).batches)
  {
    match a
    case OnMessage(m) => MessagesKeepRows(s, m);
    case OnBuild(p, b) => BuildKeepsRows(s, LocalOf(s, p), b);
    case OnLease(p, id, l) => LeaseKeepsRows(s, p, id, l);
    case Crash(_) =>
  }

  lemma ClaimKeepsGrants(batches: map<BatchId, Batch>, grants: map<Token, Grant>, id: BatchId, p: Process, token: Token, at: Timestamp)
    requires GrantsOk(batches, grants) && id in batches && token !in grants
    ensures GrantsOk(batches[id := ClaimRow(batches[id], p, token, at)], grants[token := Grant(id, batches[id].attempts + 1)])
  {
    var later := grants[token := Grant(id, batches[id].attempts + 1)];
    forall other <- batches | other != id && batches[other].lease.Some? ensures HeldGrant(later, other, batches[other]) {
      assert HeldGrant(grants, other, batches[other]);
    }
    assert HeldGrant(later, id, ClaimRow(batches[id], p, token, at));
  }

  /** A row that keeps its attempts, and its token for as long as it is leased, keeps the grants consistent. */
  lemma RowKeepsGrants(batches: map<BatchId, Batch>, grants: map<Token, Grant>, id: BatchId, c: Batch)
    requires GrantsOk(batches, grants) && id in batches && c.attempts == batches[id].attempts
    requires c.lease.Some? ==> batches[id].lease.Some? && c.lease.value.token == batches[id].lease.value.token
    ensures GrantsOk(batches[id := c], grants)
  {
    if c.lease.Some? {
      assert HeldGrant(grants, id, batches[id]);
      assert HeldGrant(grants, id, c);
    }
  }

  lemma LeaseKeepsGrants(s: State, p: Process, id: BatchId, l: LeaseAction)
    requires GrantsOk(s.batches, s.grants) && LeaseEnabled(s, p, id, l)
    ensures GrantsOk(Apply(s, OnLease(p, id, l)).batches, Apply(s, OnLease(p, id, l)).grants)
  {
    if l.Claim? {
      ClaimKeepsGrants(s.batches, s.grants, id, p, l.token, l.at);
    } else {
      RowKeepsGrants(s.batches, s.grants, id, LeaseRow(s.batches[id], p, LocalOf(s, p), l));
    }
  }

  lemma StepKeepsGrants(s: State, a: Action)
    requires Inv(s) && Enabled(s, a)
    ensures GrantsOk(Apply(s, a).batches, Apply(s, a).grants)
  {
    if a.OnLease? {
      LeaseKeepsGrants(s, a.p, a.id, a.l);
    }
  }

  lemma LocalSurvives(s: State, later: State, l: Local)
    requires LocalOk(s, l) && RowsEvolve(s.batches, later.batches) && MessagesEvolve(s.messages, later.messages)
    requires forall t <- s.grants :: t in later.grants && later.grants[t] == s.grants[t]
    ensures LocalOk(later, l)
  {
    if (l.Marked? || l.Fetched?) && l.mark.Some? {
      var id :| id in s.batches && CompletedAt(s.batches[id], l.group, l.mark.value);
      assert CompletedAt(later.batches[id], l.group, l.mark.value);
    }
  }

  lemma StepKeepsLocals(s: State, a: Action)
    requires Inv(s) && Enabled(s, a)
    ensures var later := Apply(s, a); forall p <- later.locals :: LocalOk(later, later.locals[p])
  {
    StepEvolves(s, a);
    var later := Apply(s, a);
    forall p <- later.locals ensures LocalOk(later, later.locals[p]) {
      if (a.OnBuild? || a.OnLease? || a.Crash?) && p == a.p {
        OwnLocal(s, a);
      } else {
        LocalSurvives(s, later, s.locals[p]);
      }
    }
  }

  lemma LeaseLocalOk(s: State, p: Process, id: BatchId, l: LeaseAction)
    requires Inv(s) && LeaseEnabled(s, p, id, l)
    ensures LocalOk(Apply(s, OnLease(p, id, l)), LeaseLocal(s.batches[id], LocalOf(s, p), id, l))
  {
    if l.ReadFailing? {
      assert HeldGrant(s.grants, id, s.batches[id]);
    } else if !l.WriteFailing? {
      StepEvolves(s, OnLease(p, id, l));
      LocalSurvives(s, Apply(s, OnLease(p, id, l)), LocalOf(s, p));
    }
  }

  lemma BuildLocalOk(s: State, l: Local, b: BuildAction)
    requires LocalOk(s, l) && BuildEnabled(s, l, b)
    ensures !b.Materialize? ==> LocalOk(s, BuildLocal(s, l, b))
  {
    if b.ReadWatermark? && b.mark.Some? {
      assert MarkOk(s.batches, l.group, b.mark);
    } else if b.ReadMessages? {
      forall key <- Cut(b.stream) ensures Stored(s.messages, l.group, key) && After(l.mark, key) {
        assert key in b.stream;
      }
    }
  }

  lemma OwnLocal(s: State, a: Action)
    requires Inv(s) && Enabled(s, a) && (a.OnBuild? || a.OnLease? || a.Crash?)
    ensures LocalOk(Apply(s, a), Apply(s, a).locals[a.p])
  {
    if a.OnLease? {
      LeaseLocalOk(s, a.p, a.id, a.l);
    } else if a.OnBuild? && !a.b.Materialize? {
      BuildLocalOk(s, LocalOf(s, a.p), a.b);
      LocalSurvives(s, Apply(s, a), BuildLocal(s, LocalOf(s, a.p), a.b));
    }
  }

  /** The invariant holds initially and survives every enabled action of any process. */
  lemma StepKeepsInv(s: State, a: Action)
    requires Inv(s) && Enabled(s, a)
    ensures Inv(Apply(s, a))
  {
    StepKeepsChains(s, a);
    StepKeepsRows(s, a);
    StepKeepsGrants(s, a);
    StepKeepsLocals(s, a);
  }

  // ---- Whole runs -----------------------------------------------------------------------------------

  lemma InitialInv(s: State)
    requires Initial(s)
    ensures Inv(s)
  {
    forall g ensures HasChain(s.batches, g) {
      assert IsChain(s.batches, g, []);
    }
  }

  lemma RowsEvolveTransitively(a: map<BatchId, Batch>, b: map<BatchId, Batch>, c: map<BatchId, Batch>)
    requires RowsEvolve(a, b) && RowsEvolve(b, c)
    ensures RowsEvolve(a, c)
  {
    forall id <- a ensures id in c && Evolves(a[id], c[id]) {
      assert Evolves(a[id], b[id]) && Evolves(b[id], c[id]);
    }
  }

  /** Over any run every row keeps its range, its attempts only grow, and completed and dead rows never change. */
  lemma {:induction false} RunKeepsInv(s: State, actions: seq<Action>)
    requires Inv(s) && Legal(s, actions)
    ensures Inv(Run(s, actions))
    ensures RowsEvolve(s.batches, Run(s, actions).batches)
    decreases |actions|
  {
    if actions != [] {
      StepKeepsInv(s, actions[0]);
      StepEvolves(s, actions[0]);
      RunKeepsInv(Apply(s, actions[0]), actions[1..]);
      RowsEvolveTransitively(s.batches, Apply(s, actions[0]).batches, Run(s, actions).batches);
    }
  }

  /** In every reachable state each group's batches form one chain. */
  lemma ReachableIsChained(s: State, actions: seq<Action>, g: Group)
    requires Initial(s) && Legal(s, actions)
    ensures exists chain :: IsChain(Run(s, actions).batches, g, chain)
  {
    InitialInv(s);
    RunKeepsInv(s, actions);
    assert HasChain(Run(s, actions).batches, g);
  }

  // ---- What the chain means ---------------------------------------------------------------------------

  /** Two ranges of one group are disjoint and ordered, and the earlier one is complete. */
  lemma RangesAreOrdered(s: State, a: BatchId, b: BatchId)
    requires Inv(s) && a in s.batches && b in s.batches && a != b && s.batches[a].group == s.batches[b].group
    ensures Less(s.batches[a].last, s.batches[b].first) || Less(s.batches[b].last, s.batches[a].first)
    ensures s.batches[a].state.Complete? || s.batches[b].state.Complete?
    ensures Less(s.batches[a].last, s.batches[b].first) ==> s.batches[a].state.Complete?
  {
    var g := s.batches[a].group;
    assert HasChain(s.batches, g);
    var chain :| IsChain(s.batches, g, chain);
    var i :| 0 <= i < |chain| && chain[i] == a;
    var j :| 0 <= j < |chain| && chain[j] == b;
    if i < j {
      EarlierIsComplete(s.batches, g, chain, i, j);
    } else {
      EarlierIsComplete(s.batches, g, chain, j, i);
    }
    RangesAreAsymmetric(s.batches[a], s.batches[b]);
  }

  lemma EarlierIsComplete(batches: map<BatchId, Batch>, g: Group, chain: seq<BatchId>, i: nat, j: nat)
    requires IsChain(batches, g, chain) && i < j < |chain|
    ensures Less(batches[chain[i]].last, batches[chain[j]].first) && batches[chain[i]].state.Complete?
  {
    assert Linked(batches, chain, i + 1);
  }

  lemma FirstNotAfterLast(b: Batch)
    requires RangeOk(b)
    ensures b.first == b.last || Less(b.first, b.last)
  {
  }

  lemma RangesAreAsymmetric(a: Batch, b: Batch)
    requires RangeOk(a) && RangeOk(b)
    ensures Less(a.last, b.first) ==> Less(a.last, b.last)
    ensures !(Less(a.last, b.first) && Less(b.last, a.first))
  {
    FirstNotAfterLast(a);
    FirstNotAfterLast(b);
    if Less(a.last, b.first) && b.first != b.last {
      LessIsTransitive(a.last, b.first, b.last);
    }
    if Less(b.last, a.first) && a.first != a.last {
      LessIsTransitive(b.last, a.first, a.last);
    }
    LessIsStrictTotal(a.last, b.last);
  }

  /** No two batches of a group are built on the same predecessor, and a predecessor is the origin or a completed batch's last key. */
  lemma PredecessorsAreDistinct(s: State, a: BatchId, b: BatchId)
    requires Inv(s) && a in s.batches && b in s.batches && a != b && s.batches[a].group == s.batches[b].group
    ensures s.batches[a].predecessor != s.batches[b].predecessor
    ensures s.batches[a].predecessor == ORIGIN || exists id <- s.batches :: Follows(s.batches[id], s.batches[a])
  {
    var g := s.batches[a].group;
    assert HasChain(s.batches, g);
    var chain :| IsChain(s.batches, g, chain);
    var i :| 0 <= i < |chain| && chain[i] == a;
    var j :| 0 <= j < |chain| && chain[j] == b;
    LinkFollows(s.batches, g, chain, i);
    if i < j {
      LinksAreDistinct(s.batches, g, chain, i, j);
    } else {
      LinksAreDistinct(s.batches, g, chain, j, i);
    }
  }

  lemma LinkFollows(batches: map<BatchId, Batch>, g: Group, chain: seq<BatchId>, i: nat)
    requires IsChain(batches, g, chain) && i < |chain|
    ensures var b := batches[chain[i]]; b.predecessor == ORIGIN || exists id <- batches :: Follows(batches[id], b)
  {
    assert Linked(batches, chain, i);
    if i > 0 {
      assert chain[i - 1] in batches && Follows(batches[chain[i - 1]], batches[chain[i]]);
    }
  }

  lemma LinksAreDistinct(batches: map<BatchId, Batch>, g: Group, chain: seq<BatchId>, i: nat, j: nat)
    requires IsChain(batches, g, chain) && i < j < |chain|
    requires forall id <- batches :: RangeOk(batches[id])
    ensures batches[chain[i]].predecessor != batches[chain[j]].predecessor
  {
    assert Linked(batches, chain, i) && Linked(batches, chain, j);
    var b := batches[chain[j - 1]];
    PredecessorIsInjective(b.last, b.last);
    if i > 0 {
      var a := batches[chain[i - 1]];
      PredecessorIsInjective(a.last, b.last);
      assert Less(a.last, b.first);
      RangesAreAsymmetric(a, b);
      LessIsStrictTotal(b.last, b.last);
    }
  }

  /** A batch that ended dead is the last of its group: nothing is ever built on it. */
  lemma DeadIsLast(s: State, dead: BatchId, other: BatchId)
    requires Inv(s) && dead in s.batches && other in s.batches && dead != other
    requires s.batches[dead].state.Dead? && s.batches[other].group == s.batches[dead].group
    ensures s.batches[other].state.Complete? && Less(s.batches[other].last, s.batches[dead].first)
  {
    RangesAreOrdered(s, dead, other);
  }

  /** No message is in two batches, of one group or of two: its group and timestamp never change. */
  lemma NoMessageTwice(s: State, a: BatchId, b: BatchId, k: Key, l: Key)
    requires Inv(s) && a in s.batches && b in s.batches && a != b
    requires k in s.batches[a].sources && l in s.batches[b].sources
    ensures s.batches[a].group.instanceId == s.batches[b].group.instanceId ==> k.waMessageId != l.waMessageId
  {
    if s.batches[a].group.instanceId == s.batches[b].group.instanceId && k.waMessageId == l.waMessageId {
      assert Stored(s.messages, s.batches[a].group, k) && Stored(s.messages, s.batches[b].group, l);
      RangesAreOrdered(s, a, b);
      SourceWithinRange(s.batches[a], k);
      SourceWithinRange(s.batches[b], k);
      KeyInOneRange(s.batches[a], s.batches[b], k);
    }
  }

  lemma SourceWithinRange(b: Batch, k: Key)
    requires RangeOk(b) && k in b.sources
    ensures k == b.first || Less(b.first, k)
    ensures k == b.last || Less(k, b.last)
  {
  }

  lemma KeyInOneRange(a: Batch, b: Batch, k: Key)
    requires RangeOk(a) && RangeOk(b)
    requires k in a.sources && k in b.sources
    ensures !Less(a.last, b.first) && !Less(b.last, a.first)
  {
    KeyNotBeforeAndAfter(a, b, k);
    KeyNotBeforeAndAfter(b, a, k);
  }

  lemma KeyNotBeforeAndAfter(a: Batch, b: Batch, k: Key)
    requires RangeOk(a) && RangeOk(b)
    requires k in a.sources && k in b.sources
    ensures !Less(a.last, b.first)
  {
    SourceWithinRange(a, k);
    SourceWithinRange(b, k);
    LessIsStrictTotal(a.last, b.first);
    if Less(k, a.last) && Less(a.last, b.first) {
      LessIsTransitive(k, a.last, b.first);
    }
    LessIsStrictTotal(k, b.first);
  }

  // ---- A builder is not rejected without cause ----------------------------------------------------------

  /**
   When nothing of the group is outstanding, a range cut after the true watermark collides with no index,
   so it is materialized: distinct keys have distinct predecessors.
   */
  lemma QuietBuildSucceeds(s: State, l: Local, id: BatchId)
    requires Inv(s) && LocalOk(s, l) && l.Fetched? && id !in s.batches
    requires !Outstanding(s.batches, l.group) && IsWatermark(s.batches, l.group, l.mark)
    ensures BuildRows(s.batches, l, Materialize(id)) == s.batches[id := NewBatch(l.group, l.mark, l.rows, l.at)]
  {
    var b := NewBatch(l.group, l.mark, l.rows, l.at);
    assert b.first in l.rows;
    forall other <- s.batches | s.batches[other].group == l.group
      ensures s.batches[other].predecessor != b.predecessor && s.batches[other].first != b.first
    {
      var c := s.batches[other];
      assert l.mark.Some? && !Less(l.mark.value, c.last);
      FirstNotAfterLast(c);
      LessIsStrictTotal(l.mark.value, c.first);
      if Less(l.mark.value, c.first) && c.first != c.last {
        LessIsTransitive(l.mark.value, c.first, c.last);
      }
      FreshPredecessor(s, l.group, l.mark.value, other);
    }
  }

  lemma FreshPredecessor(s: State, g: Group, mark: Key, other: BatchId)
    requires Inv(s) && IsWatermark(s.batches, g, Some(mark)) && other in s.batches && s.batches[other].group == g
    requires s.batches[other].state.Complete?
    ensures s.batches[other].predecessor != Predecessor(mark)
  {
    assert HasChain(s.batches, g);
    var chain :| IsChain(s.batches, g, chain);
    var j :| 0 <= j < |chain| && chain[j] == other;
    FreshLink(s.batches, g, chain, j, mark);
  }

  lemma FreshLink(batches: map<BatchId, Batch>, g: Group, chain: seq<BatchId>, j: nat, mark: Key)
    requires IsChain(batches, g, chain) && j < |chain| && !Less(mark, batches[chain[j]].last)
    requires forall id <- batches :: RangeOk(batches[id])
    ensures batches[chain[j]].predecessor != Predecessor(mark)
  {
    assert Linked(batches, chain, j);
    PredecessorIsInjective(mark, mark);
    if j > 0 {
      var before, c := batches[chain[j - 1]], batches[chain[j]];
      assert Less(before.last, c.first);
      RangesAreAsymmetric(before, c);
      PredecessorIsInjective(mark, before.last);
    }
  }
}
