/**
 The worker's store as it is called by one process: each method updates the stored rows in place and is
 tied to the row functions the protocol interleaves.
 */
module MemoryStore {
  import opened Keys
  import opened MemoryBatches
  import opened MemoryCut
  import opened MemoryRows
  import opened MemorySlots
  import opened Wrappers

  lemma Oldest(batches: map<BatchId, Batch>, ids: set<BatchId>) returns (oldest: BatchId)
    requires ids <= batches.Keys && ids != {}
    ensures oldest in ids && forall id <- ids :: batches[oldest].createdAt <= batches[id].createdAt
  {
    oldest :| oldest in ids;
    if ids != {oldest} {
      assert ids - {oldest} != {};
      var other := Oldest(batches, ids - {oldest});
      if batches[other].createdAt < batches[oldest].createdAt {
        oldest := other;
      }
    }
  }

  lemma Newest(batches: map<BatchId, Batch>, ids: set<BatchId>) returns (newest: BatchId)
    requires ids <= batches.Keys && ids != {}
    ensures newest in ids && forall id <- ids :: !Less(batches[newest].last, batches[id].last)
  {
    var one :| one in ids;
    newest := one;
    LessIsStrictTotal(batches[one].last, batches[one].last);
    if ids != {one} {
      assert ids - {one} != {};
      var other := Newest(batches, ids - {one});
      LessIsStrictTotal(batches[one].last, batches[other].last);
      if Less(batches[one].last, batches[other].last) {
        newest := other;
      } else {
        forall id <- ids - {one} ensures !Less(batches[one].last, batches[id].last) {
          LessIsStrictTotal(batches[other].last, batches[id].last);
          if batches[other].last != batches[one].last && Less(batches[one].last, batches[id].last) {
            LessIsTransitive(batches[other].last, batches[one].last, batches[id].last);
          }
        }
      }
    }
  }

  /** The group's completed batch with the greatest last key. */
  predicate IsNewestComplete(batches: map<BatchId, Batch>, g: Group, id: BatchId)
    requires id in batches
  {
    && batches[id].group == g && batches[id].state.Complete?
    && forall other <- batches ::
         batches[other].group == g && batches[other].state.Complete? ==> !Less(batches[id].last, batches[other].last)
  }

  /** What the claim promises of the row it leases: it is new or to be retried, its time has come, and it has attempts left. */
  ghost predicate HasComeDue(b: Batch, at: Timestamp) {
    && (b.state == Ready || b.state == RetryWait) && b.attempts <= 4
    && (exists due :: b.nextAttemptAt == Some(due) && due <= at)
    && (b.lease == None || b.lease.value.expiresAt <= at)
  }

  lemma ComesDue(batches: map<BatchId, Batch>, at: Timestamp)
    ensures forall id <- batches :: HasComeDue(batches[id], at) <==> Due(batches[id], at)
  {
    forall id <- batches ensures HasComeDue(batches[id], at) <==> Due(batches[id], at) {
      var b := batches[id];
      if b.nextAttemptAt.Some? {
        assert b.nextAttemptAt == Some(b.nextAttemptAt.value);
      }
    }
  }

  ghost predicate IsLeasedUnder(b: Batch, token: Token) {
    b.state == Processing && exists owner, expiresAt :: b.lease == Some(Lease(owner, token, expiresAt))
  }

  lemma LeasedUnder(b: Batch, token: Token)
    ensures IsLeasedUnder(b, token) <==> b.state.Processing? && b.lease.Some? && b.lease.value.token == token
  {
    if b.lease.Some? {
      assert b.lease == Some(Lease(b.lease.value.owner, b.lease.value.token, b.lease.value.expiresAt));
    }
  }

  /** The row a recovery leaves: only an expired lease is taken away, for good when its attempts are spent. */
  function Recovered(b: Batch, at: Timestamp): Batch {
    if !b.state.Processing? || b.lease.None? || b.lease.value.expiresAt > at then b
    else if b.attempts >= 5 then b.(state := Dead, lease := None, nextAttemptAt := None)
    else b.(state := RetryWait, lease := None, nextAttemptAt := Some(at))
  }

  lemma CompleteLasts(batches: map<BatchId, Batch>, g: Group)
    ensures forall id <- batches, key :: !Less(key, batches[id].last) ==> batches[id].last == key || Less(batches[id].last, key)
  {
    forall id <- batches, key | !Less(key, batches[id].last) ensures batches[id].last == key || Less(batches[id].last, key) {
      LessIsStrictTotal(key, batches[id].last);
    }
  }

  class Store {
    var batches: map<BatchId, Batch>
    var messages: map<MessageId, Message>
    var slots: map<nat, Slot>

    /** One builder's pass over a group. `find` answers the sorted message query. */
    method BuildGroup(g: Group, at: Timestamp, id: BatchId, find: Option<Key> -> seq<Key>)
      requires id !in batches
      requires forall mark :: IsStream(messages, g, mark, find(mark))
      modifies this`batches
      ensures (exists other <- old(batches) :: old(batches)[other].group == g && old(batches)[other].state != Complete) ==>
                batches == old(batches)
      ensures !Outstanding(old(batches), g) ==>
        exists mark :: IsWatermark(old(batches), g, mark)
          && batches == BuildRows(old(batches), Fetched(g, at, mark, Cut(find(mark))), Materialize(id))
          && (batches != old(batches) ==>
                id in batches && IsBuilt(batches[id], g, mark, Cut(find(mark)), at) && batches == old(batches)[id := batches[id]])
    {
      if Outstanding(batches, g) {
        return;
      }
      var mark := CompletedWatermark(g);
      var rows := NextMessages(find(mark));
      if |rows| == 0 {
        assert batches == BuildRows(batches, Fetched(g, at, mark, rows), Materialize(id));
        return;
      }
      var batch := NewBatch(g, mark, rows, at);
      if !Collides(batches, batch) {
        batches := batches[id := batch];
      }
      assert batches == BuildRows(old(batches), Fetched(g, at, mark, rows), Materialize(id));
    }

    method CompletedWatermark(g: Group) returns (mark: Option<Key>)
      ensures IsWatermark(batches, g, mark)
      ensures mark == None <==> forall id <- batches :: batches[id].group == g ==> batches[id].state != Complete
      ensures mark.Some? ==> exists id <- batches ::
        batches[id].group == g && batches[id].state == Complete && batches[id].last == mark.value
      ensures mark.Some? ==> forall id <- batches ::
        batches[id].group == g && batches[id].state == Complete ==> batches[id].last == mark.value || Less(batches[id].last, mark.value)
    {
      CompleteLasts(batches, g);
      if exists id <- batches :: batches[id].group == g && batches[id].state.Complete? {
        ghost var complete := set id <- batches | batches[id].group == g && batches[id].state.Complete?;
        ghost var some :| some in batches && batches[some].group == g && batches[some].state.Complete?;
        assert some in complete;
        ghost var first := Newest(batches, complete);
        assert IsNewestComplete(batches, g, first);
        var newest :| newest in batches && IsNewestComplete(batches, g, newest);
        assert IsNewestComplete(batches, g, newest);
        assert CompletedAt(batches[newest], g, batches[newest].last);
        return Some(batches[newest].last);
      }
      return None;
    }

    /** Leases the oldest due batch, or changes nothing when none is due. */
    method Claim(at: Timestamp, owner: Process, token: Token) returns (claimed: Option<BatchId>)
      modifies this`batches
      ensures claimed.None? <==> forall id <- old(batches) :: !HasComeDue(old(batches)[id], at)
      ensures claimed.None? ==> batches == old(batches)
      ensures claimed.Some? ==> claimed.value in old(batches) && var b := old(batches)[claimed.value];
        && HasComeDue(b, at)
        && (forall id <- old(batches) :: HasComeDue(old(batches)[id], at) ==> b.createdAt <= old(batches)[id].createdAt)
        && batches == old(batches)[claimed.value := b.(
             state := Processing, lease := Some(Lease(owner, token, at + 120000)), attempts := b.attempts + 1)]
    {
      ComesDue(batches, at);
      if exists id <- batches :: Due(batches[id], at) {
        ghost var due := set id <- batches | Due(batches[id], at);
        ghost var some :| some in batches && Due(batches[some], at);
        assert some in due;
        ghost var first := Oldest(batches, due);
        assert IsOldestDue(batches, first, at);
        var id :| id in batches && Due(batches[id], at) && IsOldestDue(batches, id, at);
        assert IsOldestDue(batches, id, at);
        forall other <- batches | HasComeDue(batches[other], at) ensures batches[id].createdAt <= batches[other].createdAt {
          assert Due(batches[other], at);
        }
        batches := batches[id := ClaimRow(batches[id], owner, token, at)];
        return Some(id);
      }
      return None;
    }

    /** Extends a lease its caller still holds; a former holder is told it is not alive and changes nothing. */
    method Heartbeat(id: BatchId, token: Token, at: Timestamp) returns (alive: bool)
      modifies this`batches
      ensures alive <==> id in old(batches) && IsLeasedUnder(old(batches)[id], token)
      ensures !alive ==> batches == old(batches)
      ensures alive ==> var b := old(batches)[id];
        batches == old(batches)[id := b.(lease := Some(Lease(b.lease.value.owner, token, at + 120000)))]
    {
      alive := id in batches && Holds(batches[id], token);
      if id in batches {
        LeasedUnder(batches[id], token);
      }
      if alive {
        batches := batches[id := batches[id].(lease := Some(batches[id].lease.value.(expiresAt := at + LEASE)))];
      }
    }

    /** Both sweeps of a recovery. Afterwards no lease that had expired is left, and only such rows changed. */
    method RecoverExpired(at: Timestamp)
      modifies this`batches
      ensures batches.Keys == old(batches).Keys
      ensures forall id <- batches :: batches[id] == Recovered(old(batches)[id], at)
      ensures forall id <- batches :: batches[id].state.Processing? && batches[id].lease.Some? ==> batches[id].lease.value.expiresAt > at
    {
      batches := map id | id in batches :: BuryRow(batches[id], at);
      batches := map id | id in batches :: RetryRow(batches[id], at);
    }

    /** A failure reported by a lease holder. `due` is the jittered retry time. */
    method Fail(id: BatchId, token: Token, terminal: bool, due: Timestamp)
      modifies this`batches
      ensures id !in old(batches) || !IsLeasedUnder(old(batches)[id], token) ==> batches == old(batches)
      ensures id in old(batches) && IsLeasedUnder(old(batches)[id], token) ==>
        var dead := terminal || old(batches)[id].attempts >= 5;
        batches == old(batches)[id := old(batches)[id].(
          state := if dead then Dead else RetryWait, lease := None, nextAttemptAt := if dead then None else Some(due))]
    {
      if id in batches {
        LeasedUnder(batches[id], token);
      }
      if id !in batches || !Holds(batches[id], token) {
        return;
      }
      var attempts := batches[id].attempts;
      var state, next := RetryWait, Some(due);
      if terminal || attempts >= MAX_ATTEMPTS {
        state, next := Dead, None;
      }
      batches := batches[id := FailRow(batches[id], token, state, next)];
    }

    /** Takes the first of the `limit` slots that nobody holds: an expired row is taken over, a missing one inserted. */
    method AcquireProcessorSlot(at: Timestamp, owner: Process, limit: nat, token: Token) returns (acquired: Option<nat>)
      modifies this`slots
      ensures acquired.None? <==> forall slot :: 0 <= slot < limit ==> slot in old(slots) && old(slots)[slot].expiresAt > at
      ensures acquired.None? ==> slots == old(slots)
      ensures acquired.Some? ==>
        && acquired.value < limit && (acquired.value in old(slots) ==> old(slots)[acquired.value].expiresAt <= at)
        && (forall slot :: 0 <= slot < acquired.value ==> slot in old(slots) && old(slots)[slot].expiresAt > at)
        && slots == Taken(old(slots), acquired.value, owner, token, at)
        && slots == old(slots)[acquired.value := Slot(owner, token, at + 120000)]
    {
      for slot := 0 to limit
        invariant slots == old(slots)
        invariant forall lower :: 0 <= lower < slot ==> lower in slots && slots[lower].expiresAt > at
      {
        if slot !in slots || slots[slot].expiresAt <= at {
          slots := slots[slot := Slot(owner, token, at + LEASE)];
          return Some(slot);
        }
      }
      return None;
    }

    /** Keeps a slot its holder still has; one whose slot was taken over is told so. */
    method HeartbeatProcessorSlot(slot: nat, owner: Process, token: Token, at: Timestamp) returns (alive: bool)
      modifies this`slots
      ensures alive <==> slot in old(slots) && old(slots)[slot].owner == owner && old(slots)[slot].token == token
      ensures slots == if alive then old(slots)[slot := Slot(owner, token, at + 120000)] else old(slots)
      ensures slots == Extended(old(slots), slot, owner, token, at)
    {
      alive := slot in slots && slots[slot].owner == owner && slots[slot].token == token;
      if alive {
        slots := slots[slot := slots[slot].(expiresAt := at + LEASE)];
      }
    }

    /** Gives a slot back. A former holder, whose token was replaced, frees nothing. */
    method ReleaseProcessorSlot(slot: nat, owner: Process, token: Token, at: Timestamp)
      modifies this`slots
      ensures slots == if slot in old(slots) && old(slots)[slot].owner == owner && old(slots)[slot].token == token
                       then old(slots)[slot := Slot(owner, token, at)] else old(slots)
      ensures slots == Freed(old(slots), slot, owner, token, at)
    {
      if slot in slots && slots[slot].owner == owner && slots[slot].token == token {
        slots := slots[slot := slots[slot].(expiresAt := at)];
      }
    }
  }
}
