/**
 The processor slots of the batch workers: any number of processes take, extend and give back `limit` slots, each
 by one filtered update of the slot's row. Their clocks agree and do not run backwards, but an update carries the
 time its caller read before, which may be older than the times of updates already made.
 */
module MemorySlots {
  import opened Keys
  import opened MemoryRows

  /** One processor slot: who holds it, under which token and until when. */
  datatype Slot = Slot(owner: Process, token: Token, expiresAt: Timestamp)

  type Slots = map<nat, Slot>

  predicate Live(slots: Slots, slot: nat, at: Timestamp) {
    slot in slots && slots[slot].expiresAt > at
  }

  /** The filter of every update a slot's holder makes. */
  predicate HeldBy(slots: Slots, slot: nat, owner: Process, token: Token) {
    slot in slots && slots[slot].owner == owner && slots[slot].token == token
  }

  function Taken(slots: Slots, slot: nat, owner: Process, token: Token, at: Timestamp): Slots {
    slots[slot := Slot(owner, token, at + LEASE)]
  }

  function Extended(slots: Slots, slot: nat, owner: Process, token: Token, at: Timestamp): Slots {
    if HeldBy(slots, slot, owner, token) then slots[slot := slots[slot].(expiresAt := at + LEASE)] else slots
  }

  function Freed(slots: Slots, slot: nat, owner: Process, token: Token, at: Timestamp): Slots {
    if HeldBy(slots, slot, owner, token) then slots[slot := slots[slot].(expiresAt := at)] else slots
  }

  /** What a process knows of the slot it took, as of the time `last`: it is its own until then, unless a heartbeat tells it more. */
  datatype Handle = Handle(slot: nat, owner: Process, until: Timestamp, last: Timestamp)

  datatype State = State(slots: Slots, handles: map<Token, Handle>, now: Timestamp)

  /** Each update reaches the database at `now` and carries its caller's `at`. */
  datatype Action =
    | Acquire(slot: nat, owner: Process, token: Token, at: Timestamp, now: Timestamp)
    | Heartbeat(token: Token, answered: bool, at: Timestamp, now: Timestamp)
    | Release(token: Token, done: bool, at: Timestamp, now: Timestamp)

  /** Tokens are fresh, a slot is only taken while its lease has ended, and one holder's updates carry rising times. */
  predicate Enabled(s: State, a: Action, limit: nat) {
    && s.now <= a.now && a.at <= a.now
    && match a
       case Acquire(slot, _, token, at, _) => slot < limit && token !in s.handles && !Live(s.slots, slot, at)
       case Heartbeat(token, _, at, _) => token in s.handles && s.handles[token].last <= at
       case Release(token, _, at, _) => token in s.handles && s.handles[token].last <= at
  }

  /** A heartbeat whose answer is lost leaves its caller with what it knew; a release that fails leaves the slot to expire. */
  function Step(s: State, a: Action, limit: nat): State
    requires Enabled(s, a, limit)
  {
    match a
    case Acquire(slot, owner, token, at, now) =>
      State(Taken(s.slots, slot, owner, token, at), s.handles[token := Handle(slot, owner, at + LEASE, at)], now)
    case Heartbeat(token, answered, at, now) =>
      var h := s.handles[token];
      var until := if !answered then h.until else if HeldBy(s.slots, h.slot, h.owner, token) then at + LEASE else at;
      State(Extended(s.slots, h.slot, h.owner, token, at), s.handles[token := h.(until := until, last := at)], now)
    case Release(token, done, at, now) =>
      var h := s.handles[token];
      var slots := if done then Freed(s.slots, h.slot, h.owner, token, at) else s.slots;
      State(slots, s.handles[token := h.(until := at, last := at)], now)
  }

  const EMPTY: State := State(map[], map[], 0)

  predicate Leads(s: State, actions: seq<Action>, t: State, limit: nat)
    decreases |actions|
  {
    if actions == [] then s == t
    else Enabled(s, actions[0], limit) && Leads(Step(s, actions[0], limit), actions[1..], t, limit)
  }

  /** A process that still works holds its slot, for at least as long as it knows. */
  predicate Backed(s: State, token: Token)
    requires token in s.handles
  {
    var h := s.handles[token];
    && h.until <= h.last + LEASE
    && (h.until > s.now ==> HeldBy(s.slots, h.slot, h.owner, token) && s.slots[h.slot].expiresAt >= h.until)
  }

  predicate SlotOk(s: State, slot: nat, limit: nat)
    requires slot in s.slots
  {
    && slot < limit && s.slots[slot].expiresAt <= s.now + LEASE
    && s.slots[slot].token in s.handles && s.handles[s.slots[slot].token].slot == slot
  }

  ghost predicate Inv(s: State, limit: nat) {
    && (forall slot <- s.slots :: SlotOk(s, slot, limit))
    && (forall token <- s.handles :: Backed(s, token))
  }

  lemma StepKeepsBacked(s: State, a: Action, limit: nat, token: Token)
    requires Inv(s, limit) && Enabled(s, a, limit) && token in Step(s, a, limit).handles
    ensures Backed(Step(s, a, limit), token)
  {
    if token in s.handles {
      assert Backed(s, token);
    }
  }

  lemma StepKeepsSlots(s: State, a: Action, limit: nat, slot: nat)
    requires Inv(s, limit) && Enabled(s, a, limit) && slot in Step(s, a, limit).slots
    ensures SlotOk(Step(s, a, limit), slot, limit)
  {
    assert slot in s.slots ==> SlotOk(s, slot, limit);
  }

  lemma StepKeepsInv(s: State, a: Action, limit: nat)
    requires Inv(s, limit) && Enabled(s, a, limit)
    ensures Inv(Step(s, a, limit), limit)
  {
    var t := Step(s, a, limit);
    forall token <- t.handles ensures Backed(t, token) {
      StepKeepsBacked(s, a, limit, token);
    }
    forall slot <- t.slots ensures SlotOk(t, slot, limit) {
      StepKeepsSlots(s, a, limit, slot);
    }
  }

  lemma {:induction false} RunKeepsInv(s: State, actions: seq<Action>, t: State, limit: nat)
    requires Inv(s, limit) && Leads(s, actions, t, limit)
    ensures Inv(t, limit)
    decreases |actions|
  {
    if actions != [] {
      StepKeepsInv(s, actions[0], limit);
      RunKeepsInv(Step(s, actions[0], limit), actions[1..], t, limit);
    }
  }

  // ---- At most `limit` at work -----------------------------------------------------------------------

  /** The processes at work: those whose slot, as far as they know, is still theirs. */
  function AtWork(s: State): set<Token> {
    set token <- s.handles | s.handles[token].until > s.now
  }

  lemma {:induction false} DistinctSlots(s: State, limit: nat, tokens: set<Token>, slots: set<nat>)
    requires Inv(s, limit) && tokens <= AtWork(s)
    requires forall token <- tokens :: s.handles[token].slot in slots
    ensures |tokens| <= |slots|
    decreases |tokens|
  {
    if tokens != {} {
      var one :| one in tokens;
      var slot := s.handles[one].slot;
      forall token <- tokens - {one} ensures s.handles[token].slot in slots - {slot} {
        assert Backed(s, token) && Backed(s, one);
      }
      DistinctSlots(s, limit, tokens - {one}, slots - {slot});
    }
  }

  lemma {:induction false} Below(limit: nat) returns (slots: set<nat>)
    ensures (forall slot: nat :: slot in slots <==> slot < limit) && |slots| == limit
  {
    if limit == 0 {
      slots := {};
    } else {
      var lower := Below(limit - 1);
      slots := lower + {limit - 1};
    }
  }

  /** Over every run at most `limit` processes are at work, each on the slot that names it. */
  lemma AtMostLimit(actions: seq<Action>, s: State, limit: nat)
    requires Leads(EMPTY, actions, s, limit)
    ensures |AtWork(s)| <= limit
    ensures forall token <- AtWork(s) :: HeldBy(s.slots, s.handles[token].slot, s.handles[token].owner, token)
  {
    RunKeepsInv(EMPTY, actions, s, limit);
    var slots := Below(limit);
    forall token <- AtWork(s) ensures s.handles[token].slot in slots {
      assert Backed(s, token);
    }
    forall token <- AtWork(s) ensures HeldBy(s.slots, s.handles[token].slot, s.handles[token].owner, token) {
      assert Backed(s, token);
    }
    DistinctSlots(s, limit, AtWork(s), slots);
  }

  // ---- A former holder -------------------------------------------------------------------------------

  /** The slot was taken over. */
  predicate Former(s: State, token: Token) {
    token in s.handles && s.handles[token].slot in s.slots && s.slots[s.handles[token].slot].token != token
  }

  lemma FormerChangesNothing(s: State, a: Action, limit: nat, token: Token)
    requires Inv(s, limit) && Enabled(s, a, limit) && Former(s, token)
    ensures Former(Step(s, a, limit), token)
    ensures !a.Acquire? && a.token == token ==> Step(s, a, limit).slots == s.slots
    ensures a.Heartbeat? && a.answered && a.token == token ==> token !in AtWork(Step(s, a, limit))
  {
  }

  /** Once its slot was taken over, nothing a process does ever moves a slot again, and its next answer ends its work. */
  lemma {:induction false} FormerHolderIsInert(s: State, actions: seq<Action>, t: State, limit: nat, token: Token)
    requires Inv(s, limit) && Leads(s, actions, t, limit) && Former(s, token)
    ensures Former(t, token) && token !in AtWork(t)
    decreases |actions|
  {
    assert Backed(s, token);
    if actions != [] {
      StepKeepsInv(s, actions[0], limit);
      FormerChangesNothing(s, actions[0], limit, token);
      FormerHolderIsInert(Step(s, actions[0], limit), actions[1..], t, limit, token);
    }
  }

  // ---- What a holder gains ---------------------------------------------------------------------------

  /** A slot may be taken from the moment its lease ends, and is then its taker's for two minutes. */
  lemma TakenOnceEnded(s: State, limit: nat, slot: nat, owner: Process, token: Token, at: Timestamp, now: Timestamp)
    requires s.now <= now && at <= now && slot < limit && token !in s.handles
    ensures Enabled(s, Acquire(slot, owner, token, at, now), limit) <==> slot !in s.slots || s.slots[slot].expiresAt <= at
    ensures slot !in s.slots || s.slots[slot].expiresAt <= at ==>
              var t := Step(s, Acquire(slot, owner, token, at, now), limit);
              t.slots == s.slots[slot := Slot(owner, token, at + 120000)] && t.handles[token] == Handle(slot, owner, at + 120000, at)
  {
  }

  /**
   A heartbeat of the slot's holder keeps the slot two minutes more, and the holder knows so once it is answered; one that
   is not answered leaves it with what it knew. Anyone else is told that the slot is gone.
   */
  lemma HeartbeatTells(s: State, limit: nat, token: Token, answered: bool, at: Timestamp, now: Timestamp)
    requires Inv(s, limit) && Enabled(s, Heartbeat(token, answered, at, now), limit)
    ensures var (t, slot) := (Step(s, Heartbeat(token, answered, at, now), limit), s.handles[token].slot);
            var holds := slot in s.slots && s.slots[slot].owner == s.handles[token].owner && s.slots[slot].token == token;
            && (if holds then slot in t.slots && t.slots[slot].expiresAt == at + 120000 else t.slots == s.slots)
            && t.handles[token].until == (if !answered then s.handles[token].until else if holds then at + 120000 else at)
            && t.handles.Keys == s.handles.Keys && forall other <- s.handles :: other != token ==> t.handles[other] == s.handles[other]
  {
  }

  /** After its holder's release a slot may be taken at once; one whose release failed still has its lease. */
  lemma ReleaseFrees(s: State, limit: nat, token: Token, done: bool, at: Timestamp, now: Timestamp)
    requires Inv(s, limit) && Enabled(s, Release(token, done, at, now), limit)
    ensures var (t, slot) := (Step(s, Release(token, done, at, now), limit), s.handles[token].slot);
            && (if done && slot in s.slots && s.slots[slot].owner == s.handles[token].owner && s.slots[slot].token == token
                then slot in t.slots && t.slots[slot].expiresAt == at else t.slots == s.slots)
            && t.handles[token].until == at
  {
  }
}
