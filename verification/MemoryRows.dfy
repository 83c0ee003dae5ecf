/**
 One memory batch row and the atomic filtered updates the worker and the console make on it.
 */
module MemoryRows {
  import opened Keys
  import opened Wrappers

  const MAX_ATTEMPTS: nat := 5
  const LEASE: nat := 120000
  const MINUTE: nat := 60000

  type BatchId = nat
  type Token = nat
  type Process = nat

  datatype Group = Group(instanceId: string, groupJid: string)

  datatype BatchState = Ready | Processing | RetryWait | Complete | Dead

  datatype Lease = Lease(owner: Process, token: Token, expiresAt: Timestamp)

  datatype Batch = Batch(
    group: Group, first: Key, last: Key, predecessor: string, sources: seq<Key>,
    state: BatchState, lease: Option<Lease>, attempts: nat, nextAttemptAt: Option<Timestamp>, createdAt: Timestamp)

  /** A freshly cut range, due at once. */
  function NewBatch(group: Group, mark: Option<Key>, rows: seq<Key>, at: Timestamp): Batch
    requires rows != []
  {
    Batch(group, rows[0], rows[|rows| - 1], if mark.None? then ORIGIN else Predecessor(mark.value), rows,
          Ready, None, 0, Some(at), at)
  }

  /** The row of a range that was just cut: everything of it, and due at once. */
  predicate IsBuilt(b: Batch, group: Group, mark: Option<Key>, rows: seq<Key>, at: Timestamp) {
    && rows != [] && b.group == group && b.sources == rows && b.first == rows[0] && b.last == rows[|rows| - 1]
    && b.predecessor == (match mark case None => "origin" case Some(key) => Predecessor(key))
    && b.state == Ready && b.lease == None && b.attempts == 0 && b.nextAttemptAt == Some(at) && b.createdAt == at
  }

  /** The filter of a claim. */
  predicate Due(b: Batch, at: Timestamp) {
    && (b.state.Ready? || b.state.RetryWait?)
    && b.attempts < MAX_ATTEMPTS
    && b.nextAttemptAt.Some? && b.nextAttemptAt.value <= at
    && (b.lease.None? || b.lease.value.expiresAt <= at)
  }

  function ClaimRow(b: Batch, owner: Process, token: Token, at: Timestamp): Batch {
    b.(state := Processing, lease := Some(Lease(owner, token, at + LEASE)), attempts := b.attempts + 1)
  }

  /** The filter of every step a lease holder takes: the row is still processing under its token. */
  predicate Holds(b: Batch, token: Token) {
    b.state.Processing? && b.lease.Some? && b.lease.value.token == token
  }

  function HeartbeatRow(b: Batch, token: Token, at: Timestamp): Batch {
    if Holds(b, token) then b.(lease := Some(b.lease.value.(expiresAt := at + LEASE))) else b
  }

  predicate Expired(b: Batch, at: Timestamp) {
    b.state.Processing? && b.lease.Some? && b.lease.value.expiresAt <= at
  }

  /** The first sweep of a recovery: an expired row whose attempts are spent is buried. */
  function BuryRow(b: Batch, at: Timestamp): Batch {
    if Expired(b, at) && b.attempts >= MAX_ATTEMPTS then b.(state := Dead, lease := None, nextAttemptAt := None) else b
  }

  /** The second sweep: an expired row with attempts left may be claimed again at once. */
  function RetryRow(b: Batch, at: Timestamp): Batch {
    if Expired(b, at) && b.attempts < MAX_ATTEMPTS
    then b.(state := RetryWait, lease := None, nextAttemptAt := Some(at))
    else b
  }

  function Doublings(n: nat): (d: nat)
    ensures d >= 1
  {
    if n == 0 then 1 else 2 * Doublings(n - 1)
  }

  /** The delay after a failed attempt, cut off before the shift can overflow. */
  function RetryDelay(attempt: nat): (d: nat)
    ensures 5 * MINUTE <= d <= 360 * MINUTE
  {
    var first := if attempt < 1 then 1 else attempt;
    if first > 8 then 360 * MINUTE
    else
      var delay := 5 * MINUTE * Doublings(first - 1);
      if delay > 360 * MINUTE then 360 * MINUTE else delay
  }

  /** The cut-off changes nothing: five minutes, doubled for every attempt after the first, at most six hours. */
  lemma RetryDelayDoubles(attempt: nat)
    ensures var doubled := 300000 * Doublings(if attempt == 0 then 0 else attempt - 1);
            RetryDelay(attempt) == if doubled > 21600000 then 21600000 else doubled
  {
    if attempt > 8 {
      ManyDoublings(attempt - 1);
    }
  }

  lemma {:induction false} ManyDoublings(n: nat)
    requires n >= 7
    ensures Doublings(n) >= 128
  {
    if n > 7 {
      ManyDoublings(n - 1);
    } else {
      assert Doublings(3) == 8;
      assert Doublings(5) == 32;
    }
  }

  /** The outcome a failure chooses from the attempts it read. `due` carries the jitter of 80% to 120%. */
  predicate FailureOutcome(attempts: nat, terminal: bool, at: Timestamp, state: BatchState, due: Option<Timestamp>) {
    if terminal || attempts >= MAX_ATTEMPTS then state == Dead && due.None?
    else
      && state == RetryWait && due.Some?
      && 5 * at + 4 * RetryDelay(attempts) <= 5 * due.value + 5
      && 5 * due.value <= 5 * at + 6 * RetryDelay(attempts)
  }

  function FailRow(b: Batch, token: Token, state: BatchState, due: Option<Timestamp>): Batch {
    if Holds(b, token) then b.(state := state, lease := None, nextAttemptAt := due) else b
  }

  /** The console's completion: fenced by the lease token and by the lease still being live. */
  function CompleteRow(b: Batch, token: Token, at: Timestamp): Batch {
    if Holds(b, token) && b.lease.value.expiresAt > at then b.(state := Complete, lease := None) else b
  }

  // ---- What every row keeps ----------------------------------------------------------------------

  /**
   A row is processing exactly while it is leased, has been claimed at most five times, and, while it
   waits, has attempts left and a time it becomes due: nothing is stranded.
   */
  predicate RowOk(b: Batch) {
    && (b.state.Processing? <==> b.lease.Some?)
    && b.attempts <= MAX_ATTEMPTS
    && (b.state.Ready? ==> b.attempts == 0)
    && (b.state.Ready? || b.state.RetryWait? ==> b.attempts < MAX_ATTEMPTS && b.nextAttemptAt.Some?)
    && (!b.state.Ready? ==> b.attempts >= 1)
  }

  /** How any step may change a row: its range never, its attempts only upwards, and nothing once it is over. */
  predicate Evolves(b: Batch, c: Batch) {
    && c.group == b.group && c.first == b.first && c.last == b.last && c.predecessor == b.predecessor
    && c.sources == b.sources && c.createdAt == b.createdAt
    && b.attempts <= c.attempts
    && (b.state.Complete? || b.state.Dead? ==> c == b)
  }
}
