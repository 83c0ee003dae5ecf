/**
 Fencing over whole runs of the memory-batch protocol: once a lease is gone, nothing its former holder
 does reaches the database, and a batch is claimed at most five times.
 */
module MemoryFencing {
  import opened Keys
  import opened MemoryBatches
  import opened MemoryRows
  import opened Wrappers

  /** A token that was issued and no longer holds its batch. */
  predicate Lost(s: State, t: Token) {
    && t in s.grants && s.grants[t].id in s.batches
    && !Holds(s.batches[s.grants[t].id], t)
  }

  /** The action is a step some process takes as the holder of this token. */
  predicate UsesToken(s: State, a: Action, t: Token) {
    && a.OnLease?
    && match a.l
       case Heartbeat(token, _) => token == t
       case ReadFailing(token, _) => token == t
       case WriteFailing(_, _, _) => LocalOf(s, a.p).Failing? && LocalOf(s, a.p).token == t
       case CompleteBatch(token, _) => token == t
       case _ => false
  }

  lemma LostStaysLost(s: State, a: Action, t: Token)
    requires Inv(s) && Enabled(s, a) && Lost(s, t)
    ensures Lost(Apply(s, a), t)
  {
    StepEvolves(s, a);
    if a.OnLease? {
      LeaseTakesNoOldToken(s, a.p, a.id, a.l, t);
    }
  }

  lemma LeaseTakesNoOldToken(s: State, p: Process, id: BatchId, l: LeaseAction, t: Token)
    requires LeaseEnabled(s, p, id, l) && t in s.grants
    ensures Holds(LeaseRow(s.batches[id], p, LocalOf(s, p), l), t) ==> Holds(s.batches[id], t)
  {
  }

  lemma LostTokenIsInert(s: State, a: Action, t: Token)
    requires Inv(s) && Enabled(s, a) && Lost(s, t) && UsesToken(s, a, t)
    ensures Apply(s, a).batches == s.batches
  {
    var b := s.batches[a.id];
    assert b.lease.Some? ==> HeldGrant(s.grants, a.id, b);
    assert LeaseRow(b, a.p, LocalOf(s, a.p), a.l) == b;
  }

  lemma {:induction false} LostOverRun(s: State, actions: seq<Action>, t: Token)
    requires Inv(s) && Legal(s, actions) && Lost(s, t)
    ensures Inv(Run(s, actions)) && Lost(Run(s, actions), t)
    decreases |actions|
  {
    if actions != [] {
      StepKeepsInv(s, actions[0]);
      LostStaysLost(s, actions[0], t);
      LostOverRun(Apply(s, actions[0]), actions[1..], t);
    }
  }

  /**
   After its lease ended, whatever happened since and however the steps interleave, a former holder's
   heartbeat, failure or completion changes no row, although a failure reads and writes in two steps.
   */
  lemma FormerHolderIsInert(s: State, since: seq<Action>, a: Action, t: Token)
    requires Inv(s) && Lost(s, t) && Legal(s, since)
    requires Enabled(Run(s, since), a) && UsesToken(Run(s, since), a, t)
    ensures Apply(Run(s, since), a).batches == Run(s, since).batches
  {
    LostOverRun(s, since, t);
    LostTokenIsInert(Run(s, since), a, t);
  }

  /** A recovery of an expired lease, whichever sweep does it, loses its token for good. */
  lemma RecoveryLosesToken(s: State, id: BatchId, p: Process, at: Timestamp)
    requires Inv(s) && id in s.batches && Expired(s.batches[id], at)
    ensures var t := s.batches[id].lease.value.token;
            var sweep := if s.batches[id].attempts >= MAX_ATTEMPTS then Bury(at) else Retry(at);
            Lost(Apply(s, OnLease(p, id, sweep)), t)
  {
    assert HeldGrant(s.grants, id, s.batches[id]);
  }

  /** The only step that moves a leased row under a foreign token is a sweep of its expired lease. */
  lemma OnlyHolderOrSweep(s: State, a: Action, id: BatchId)
    requires Inv(s) && Enabled(s, a) && id in s.batches && s.batches[id].lease.Some?
    requires Apply(s, a).batches[id] != s.batches[id]
    ensures a.OnLease? && a.id == id
    ensures UsesToken(s, a, s.batches[id].lease.value.token)
         || ((a.l.Bury? || a.l.Retry?) && s.batches[id].lease.value.expiresAt <= a.l.at)
  {
  }

  /** A failure that lands buries the row exactly when it is terminal or the row itself has no attempts left. */
  lemma FailureDecidesOnCurrentAttempts(s: State, p: Process, id: BatchId, l: LeaseAction)
    requires Inv(s) && l.WriteFailing? && LeaseEnabled(s, p, id, l) && Holds(s.batches[id], LocalOf(s, p).token)
    ensures var c := Apply(s, OnLease(p, id, l)).batches[id];
            && (c.state.Dead? <==> l.terminal || s.batches[id].attempts >= MAX_ATTEMPTS)
            && (c.state.RetryWait? <==> !l.terminal && s.batches[id].attempts < MAX_ATTEMPTS)
            && c.lease.None?
  {
    FailureReadIsCurrent(s, p);
  }

  // ---- Counting claims --------------------------------------------------------------------------------

  /** The tokens issued for the first `n` attempts of a batch. */
  function TokensUpTo(grants: map<Token, Grant>, id: BatchId, n: nat): set<Token> {
    set t <- grants | grants[t].id == id && grants[t].attempt <= n
  }

  lemma AtMostOnePerAttempt(batches: map<BatchId, Batch>, grants: map<Token, Grant>, id: BatchId, n: nat)
    requires GrantsOk(batches, grants)
    ensures |TokensUpTo(grants, id, n)| <= n
  {
    if n == 0 {
      assert TokensUpTo(grants, id, 0) == {};
    } else {
      AtMostOnePerAttempt(batches, grants, id, n - 1);
      var fewer := TokensUpTo(grants, id, n - 1);
      if t :| t in grants && grants[t] == Grant(id, n) {
        assert TokensUpTo(grants, id, n) == fewer + {t};
      } else {
        assert TokensUpTo(grants, id, n) == fewer;
      }
    }
  }

  /** Each batch is claimed at most five times, whatever its claims come to. */
  lemma ClaimsAreBounded(s: State, actions: seq<Action>, id: BatchId)
    requires Initial(s) && Legal(s, actions) && id in Run(s, actions).batches
    ensures var later := Run(s, actions);
            |set t <- later.grants | later.grants[t].id == id| <= later.batches[id].attempts <= MAX_ATTEMPTS
  {
    InitialInv(s);
    RunKeepsInv(s, actions);
    var later := Run(s, actions);
    AtMostOnePerAttempt(later.batches, later.grants, id, later.batches[id].attempts);
    assert (set t <- later.grants | later.grants[t].id == id) == TokensUpTo(later.grants, id, later.batches[id].attempts);
  }

  /** In every reachable state a row that waits becomes due, and a row is leased exactly while it is processed. */
  lemma NothingIsStranded(s: State, actions: seq<Action>, id: BatchId, at: Timestamp)
    requires Initial(s) && Legal(s, actions) && id in Run(s, actions).batches
    ensures var b := Run(s, actions).batches[id];
            && (b.lease.Some? <==> b.state.Processing?)
            && (b.state.Ready? || b.state.RetryWait? ==>
                  b.nextAttemptAt.Some? && (b.nextAttemptAt.value <= at ==> Due(b, at)))
            && (b.state.Processing? && b.lease.value.expiresAt <= at ==> !RetryRow(BuryRow(b, at), at).state.Processing?)
  {
    InitialInv(s);
    RunKeepsInv(s, actions);
    assert RowOk(Run(s, actions).batches[id]);
  }

  // ---- Waiting ----------------------------------------------------------------------------------------

  /** The action claims this batch. */
  predicate Claims(a: Action, id: BatchId) {
    a.OnLease? && a.id == id && a.l.Claim?
  }

  /** The batch is new or to be retried, and waits for this time. */
  predicate WaitsFor(b: Batch, due: Timestamp) {
    (b.state.Ready? || b.state.RetryWait?) && b.lease.None? && b.nextAttemptAt == Some(due)
  }

  lemma StaysWaiting(s: State, a: Action, id: BatchId, due: Timestamp)
    requires Enabled(s, a) && !Claims(a, id) && id in s.batches && WaitsFor(s.batches[id], due)
    ensures id in Apply(s, a).batches && Apply(s, a).batches[id] == s.batches[id]
  {
  }

  /** Whatever else happens, a waiting batch is not claimed before its time. */
  lemma {:induction false} NoEarlyClaim(s: State, waiting: seq<Action>, id: BatchId, due: Timestamp, claim: Action)
    requires Legal(s, waiting) && (forall a <- waiting :: !Claims(a, id)) && id in s.batches && WaitsFor(s.batches[id], due)
    requires Claims(claim, id) && Enabled(Run(s, waiting), claim)
    ensures claim.l.at >= due
    decreases |waiting|
  {
    if waiting != [] {
      assert waiting[0] in waiting && forall a <- waiting[1..] :: a in waiting;
      StaysWaiting(s, waiting[0], id, due);
      NoEarlyClaim(Apply(s, waiting[0]), waiting[1..], id, due, claim);
    }
  }

  /**
   The back-off: after a failure at `f.at` that leaves the batch in retry, its next claim carries a time of at least
   `f.at` and 80% of the delay of the attempts made, to the millisecond.
   */
  lemma BackOffIsKept(s: State, p: Process, id: BatchId, l: LeaseAction, waiting: seq<Action>, claim: Action)
    requires Inv(s) && l.WriteFailing? && LeaseEnabled(s, p, id, l) && Holds(s.batches[id], LocalOf(s, p).token)
    requires Apply(s, OnLease(p, id, l)).batches[id].state.RetryWait?
    requires Legal(Apply(s, OnLease(p, id, l)), waiting) && forall a <- waiting :: !Claims(a, id)
    requires Claims(claim, id) && Enabled(Run(Apply(s, OnLease(p, id, l)), waiting), claim)
    ensures var n := s.batches[id].attempts;
            && 1 <= n <= 4
            && 5 * claim.l.at + 5 >= 5 * LocalOf(s, p).at + 4 * (300000 * Doublings(n - 1))
  {
    FailureReadIsCurrent(s, p);
    assert RowOk(s.batches[id]);
    RetryDelayDoubles(s.batches[id].attempts);
    FewDoublings(s.batches[id].attempts - 1);
    NoEarlyClaim(Apply(s, OnLease(p, id, l)), waiting, id, l.due.value, claim);
  }

  lemma FewDoublings(n: nat)
    requires n <= 3
    ensures 300000 * Doublings(n) <= 360 * MINUTE
  {
    assert Doublings(1) == 2;
    assert Doublings(2) == 4;
  }

  /** A failure the holder reports lands: it reads the row's attempts, chooses an outcome by them, and writes it. */
  lemma FailureLands(s: State, p: Process, id: BatchId, token: Token, at: Timestamp, terminal: bool, state: BatchState, due: Option<Timestamp>)
    requires Inv(s) && id in s.batches && LocalOf(s, p).Idle? && s.batches[id].state == Processing && s.batches[id].lease.Some?
    requires s.batches[id].lease.value.token == token && FailureOutcome(s.batches[id].attempts, terminal, at, state, due)
    ensures var (read, write) := (OnLease(p, id, ReadFailing(token, at)), OnLease(p, id, WriteFailing(terminal, state, due)));
            && Enabled(s, read) && Enabled(Apply(s, read), write)
            && Apply(Apply(s, read), write).batches ==
               s.batches[id := s.batches[id].(state := state, lease := None, nextAttemptAt := due)]
  {
    var t := Apply(s, OnLease(p, id, ReadFailing(token, at)));
    assert LocalOf(t, p) == Failing(id, token, s.batches[id].attempts, at) && t.batches[id] == s.batches[id];
    assert t.batches == s.batches;
  }

  /** And it may be claimed from 120% of that delay on. */
  lemma BackOffEnds(s: State, p: Process, id: BatchId, l: LeaseAction, at: Timestamp)
    requires Inv(s) && l.WriteFailing? && LeaseEnabled(s, p, id, l) && Holds(s.batches[id], LocalOf(s, p).token)
    requires Apply(s, OnLease(p, id, l)).batches[id].state == RetryWait
    requires 5 * at >= 5 * LocalOf(s, p).at + 6 * (300000 * Doublings(s.batches[id].attempts - 1))
    ensures var b := Apply(s, OnLease(p, id, l)).batches[id];
            b.attempts < 5 && b.lease == None && b.nextAttemptAt.Some? && b.nextAttemptAt.value <= at
  {
    FailureReadIsCurrent(s, p);
    assert RowOk(s.batches[id]);
    RetryDelayDoubles(s.batches[id].attempts);
    FewDoublings(s.batches[id].attempts - 1);
  }

  /** A batch is not claimed before it was built either. */
  lemma NewBatchIsDueAtOnce(g: Group, mark: Option<Key>, rows: seq<Key>, at: Timestamp)
    requires rows != []
    ensures WaitsFor(NewBatch(g, mark, rows, at), at)
  {
  }

  // ---- Keeping a lease and completing under it ----------------------------------------------------------

  /** The lease of this batch is this token's, at least until some time. */
  predicate LeasedUntil(b: Batch, token: Token, until: Timestamp) {
    b.state == Processing && b.lease.Some? && b.lease.value.token == token && b.lease.value.expiresAt >= until
  }

  /** The action is no sweep of this batch at or after that time, no end of its work, and no heartbeat too old to matter. */
  predicate LeavesLease(a: Action, id: BatchId, token: Token, until: Timestamp) {
    a.OnLease? && a.id == id ==>
      match a.l
      case Bury(at) => at < until
      case Retry(at) => at < until
      case Heartbeat(t, at) => t == token ==> at + 120000 >= until
      case WriteFailing(_, _, _) => false
      case CompleteBatch(t, _) => t != token
      case _ => true
  }

  lemma {:induction false} StaysLeased(s: State, actions: seq<Action>, id: BatchId, token: Token, until: Timestamp)
    requires Legal(s, actions) && id in s.batches && LeasedUntil(s.batches[id], token, until)
    requires forall a <- actions :: LeavesLease(a, id, token, until)
    ensures id in Run(s, actions).batches && LeasedUntil(Run(s, actions).batches[id], token, until)
    ensures Run(s, actions).batches[id].attempts == s.batches[id].attempts
    decreases |actions|
  {
    if actions != [] {
      assert actions[0] in actions && forall a <- actions[1..] :: a in actions;
      StaysLeased(Apply(s, actions[0]), actions[1..], id, token, until);
    }
  }

  /** A holder's heartbeat keeps its batch for two minutes, whatever every other process does. */
  lemma HeartbeatKeeps(s: State, p: Process, id: BatchId, token: Token, at: Timestamp, since: seq<Action>)
    requires id in s.batches && s.batches[id].state == Processing && s.batches[id].lease.Some?
    requires s.batches[id].lease.value.token == token
    requires Legal(Apply(s, OnLease(p, id, Heartbeat(token, at))), since)
    requires forall a <- since :: LeavesLease(a, id, token, at + 120000)
    ensures var t := Run(Apply(s, OnLease(p, id, Heartbeat(token, at))), since);
            id in t.batches && LeasedUntil(t.batches[id], token, at + 120000) && t.batches[id].attempts == s.batches[id].attempts
  {
    StaysLeased(Apply(s, OnLease(p, id, Heartbeat(token, at))), since, id, token, at + 120000);
  }

  /** So does a claim, which takes one attempt. */
  lemma ClaimKeeps(s: State, p: Process, id: BatchId, token: Token, at: Timestamp, since: seq<Action>)
    requires LeaseEnabled(s, p, id, Claim(token, at))
    requires Legal(Apply(s, OnLease(p, id, Claim(token, at))), since)
    requires forall a <- since :: LeavesLease(a, id, token, at + 120000)
    ensures var t := Run(Apply(s, OnLease(p, id, Claim(token, at))), since);
            id in t.batches && LeasedUntil(t.batches[id], token, at + 120000) && t.batches[id].attempts == s.batches[id].attempts + 1
  {
    StaysLeased(Apply(s, OnLease(p, id, Claim(token, at))), since, id, token, at + 120000);
  }

  lemma {:induction false} CompleteStays(s: State, actions: seq<Action>, id: BatchId)
    requires Legal(s, actions) && id in s.batches && s.batches[id].state == Complete
    ensures id in Run(s, actions).batches && Run(s, actions).batches[id] == s.batches[id]
    decreases |actions|
  {
    if actions != [] {
      StepEvolves(s, actions[0]);
      CompleteStays(Apply(s, actions[0]), actions[1..], id);
    }
  }

  /** A completion under a live lease stands for good, and changes nothing of the batch but that. */
  lemma CompletionStands(s: State, p: Process, id: BatchId, token: Token, at: Timestamp, since: seq<Action>)
    requires id in s.batches && LeasedUntil(s.batches[id], token, at + 1)
    requires Legal(Apply(s, OnLease(p, id, CompleteBatch(token, at))), since)
    ensures var t := Run(Apply(s, OnLease(p, id, CompleteBatch(token, at))), since);
            id in t.batches && t.batches[id] == s.batches[id].(state := Complete, lease := None)
  {
    CompleteStays(Apply(s, OnLease(p, id, CompleteBatch(token, at))), since, id);
  }

  /** Nothing but a completion under its live lease completes a batch. */
  lemma OnlyLiveHolderCompletes(s: State, a: Action, id: BatchId)
    requires Enabled(s, a) && id in s.batches && s.batches[id].state != Complete && Apply(s, a).batches[id].state == Complete
    ensures a.OnLease? && a.id == id && a.l.CompleteBatch? && LeasedUntil(s.batches[id], a.l.token, a.l.at + 1)
  {
  }
}
