/**
 What runs of the send dispatcher can still do: exactly when a request can be delivered once more, and how often
 requests are claimed while none is created or approved.
 */
module DispatchRuns {
  import opened Dispatch
  import opened Wrappers

  // ---- One more delivery -----------------------------------------------------------------------------

  /** The worker is about to make the request's call. */
  predicate Calls(s: State, w: Worker, id: Id) { LocalOf(s, w) == Claimed(id) }

  /** The worker holds a failure of the request that counts as unsent. */
  predicate MayRetry(s: State, w: Worker, id: Id) {
    LocalOf(s, w).Replied? && LocalOf(s, w).id == id && LocalOf(s, w).reply.Refused? && CountsAsUnsent(LocalOf(s, w).reply.cause)
  }

  /**
   The request may still be sent: with attempts left it waits, may be approved, or is about to fail in a way that may be
   retried; or a worker has claimed it and not yet made its call.
   */
  ghost predicate CanSend(s: State, max: nat, id: Id)
    requires id in s.rows
  {
    var r := s.rows[id];
    || (r.attempts < max && (Approvable(r) || r.status.Approved? || r.status.Scheduled?))
    || (exists w: Worker :: Calls(s, w, id))
    || (r.attempts < max && exists w: Worker :: MayRetry(s, w, id))
  }

  /** An action keeps what cannot be sent that way, and delivers nothing of it. */
  lemma StepSendsNothing(s: State, a: Action, max: nat, id: Id)
    requires Inv(s, max) && Enabled(s, a, max) && id in s.rows && !CanSend(s, max, id)
    ensures id in Step(s, a, max).rows && !CanSend(Step(s, a, max), max, id)
    ensures Step(s, a, max).rows[id].history.deliveries == s.rows[id].history.deliveries
  {
    var t := Step(s, a, max);
    NoNewCaller(s, a, max, id);
    if a.Deliver? || a.Record? {
      assert LocalOk(s, LocalOf(s, a.w), a.w);
      assert !Calls(s, a.w, id) && (MayRetry(s, a.w, id) ==> s.rows[id].attempts >= max);
    }
  }

  lemma NoNewCaller(s: State, a: Action, max: nat, id: Id)
    requires Inv(s, max) && Enabled(s, a, max) && id in s.rows && !CanSend(s, max, id)
    ensures forall w: Worker :: !Calls(Step(s, a, max), w, id)
    ensures s.rows[id].attempts < max ==> forall w: Worker :: !MayRetry(Step(s, a, max), w, id)
  {
    var t := Step(s, a, max);
    forall w: Worker ensures !Calls(t, w, id) {
      assert !Calls(s, w, id);
    }
    if s.rows[id].attempts < max {
      forall w: Worker ensures !MayRetry(t, w, id) {
        assert !MayRetry(s, w, id) && !Calls(s, w, id);
      }
    }
  }

  lemma {:induction false} RunSendsNothing(s: State, actions: seq<Action>, t: State, max: nat, id: Id)
    requires Inv(s, max) && Leads(s, actions, t, max) && id in s.rows && !CanSend(s, max, id)
    ensures id in t.rows && t.rows[id].history.deliveries == s.rows[id].history.deliveries
    decreases |actions|
  {
    if actions != [] {
      StepKeepsInv(s, actions[0], max);
      StepSendsNothing(s, actions[0], max, id);
      RunSendsNothing(Step(s, actions[0], max), actions[1..], t, max, id);
    }
  }

  /** A run, every refusal of which is one, to one more send and delivery of the request. */
  ghost predicate Delivers(s: State, actions: seq<Action>, t: State, max: nat, id: Id)
    requires id in s.rows
  {
    && Leads(s, actions, t, max) && (forall a <- actions :: Honest(a)) && id in t.rows
    && t.rows[id].history.deliveries == s.rows[id].history.deliveries + 1
    && t.rows[id].history.sends == s.rows[id].history.sends + 1
  }

  lemma Before(s: State, a: Action, actions: seq<Action>, t: State, max: nat, id: Id)
    requires Enabled(s, a, max) && Honest(a) && id in s.rows && id in Step(s, a, max).rows
    requires Step(s, a, max).rows[id].history.deliveries == s.rows[id].history.deliveries
    requires Step(s, a, max).rows[id].history.sends == s.rows[id].history.sends
    requires Delivers(Step(s, a, max), actions, t, max, id)
    ensures Delivers(s, [a] + actions, t, max, id)
  {
    assert ([a] + actions)[1..] == actions && ([a] + actions)[0] == a;
  }

  lemma FromClaimed(s: State, max: nat, id: Id, w: Worker) returns (actions: seq<Action>, t: State)
    requires Inv(s, max) && id in s.rows && Calls(s, w, id)
    ensures Delivers(s, actions, t, max, id)
  {
    var a := Deliver(w, Answered(200, Holding("id")), true);
    actions, t := [a], Step(s, a, max);
    assert actions[1..] == [];
  }

  lemma {:induction false} UpperBound(ids: set<nat>) returns (bound: nat)
    ensures forall id <- ids :: id < bound
    decreases |ids|
  {
    if ids == {} {
      bound := 0;
    } else {
      var one :| one in ids;
      var rest := UpperBound(ids - {one});
      bound := if one < rest then rest else one + 1;
      assert forall id <- ids :: id == one || id in ids - {one};
    }
  }

  /** The oldest request, once it is due, is claimed by a new worker and sent. */
  lemma FromOldest(s: State, max: nat, id: Id) returns (actions: seq<Action>, t: State)
    requires Inv(s, max) && id in s.rows && IsOldestDue(s.rows, id, s.rows[id].scheduledFor, max)
    ensures Delivers(s, actions, t, max, id)
  {
    var w := UpperBound(s.locals.Keys);
    assert w !in s.locals;
    var a := Claim(w, id, s.rows[id].scheduledFor);
    StepKeepsInv(s, a, max);
    actions, t := FromClaimed(Step(s, a, max), max, id, w);
    Before(s, a, actions, t, max, id);
    actions := [a] + actions;
  }

  /** A request that waits is sent once those before it are cancelled. */
  lemma {:induction false} FromWaiting(s: State, max: nat, id: Id) returns (actions: seq<Action>, t: State)
    requires Inv(s, max) && id in s.rows && Waits(s.rows[id], max)
    ensures Delivers(s, actions, t, max, id)
    decreases |Waiting(s.rows, max)|
  {
    assert RowOk(s.rows[id], max);
    if IsOldestDue(s.rows, id, s.rows[id].scheduledFor, max) {
      actions, t := FromOldest(s, max, id);
    } else {
      var other :| other in s.rows && Due(s.rows[other], s.rows[id].scheduledFor, max) && other != id;
      var a := Cancel(other);
      StepKeepsInv(s, a, max);
      FewerWait(s.rows, Step(s, a, max).rows, other, max);
      actions, t := FromWaiting(Step(s, a, max), max, id);
      Before(s, a, actions, t, max, id);
      actions := [a] + actions;
    }
  }

  /** A request that may be approved is approved at once. */
  lemma FromApprovable(s: State, max: nat, id: Id) returns (actions: seq<Action>, t: State)
    requires Inv(s, max) && id in s.rows && Approvable(s.rows[id]) && s.rows[id].attempts < max
    ensures Delivers(s, actions, t, max, id)
  {
    var a := Approve(id, 0, 0);
    StepKeepsInv(s, a, max);
    actions, t := FromWaiting(Step(s, a, max), max, id);
    Before(s, a, actions, t, max, id);
    actions := [a] + actions;
  }

  /** A failure that counts as unsent is recorded, and the request approved again. */
  lemma FromFailure(s: State, max: nat, id: Id, w: Worker) returns (actions: seq<Action>, t: State)
    requires Inv(s, max) && id in s.rows && MayRetry(s, w, id) && s.rows[id].attempts < max
    ensures Delivers(s, actions, t, max, id)
  {
    assert LocalOk(s, LocalOf(s, w), w);
    var a := Record(w);
    StepKeepsInv(s, a, max);
    RetriedOnlyWhenUnsent(s.rows[id], w, LocalOf(s, w).reply.cause);
    actions, t := FromApprovable(Step(s, a, max), max, id);
    Before(s, a, actions, t, max, id);
    actions := [a] + actions;
  }

  lemma FromCanSend(s: State, max: nat, id: Id) returns (actions: seq<Action>, t: State)
    requires Inv(s, max) && id in s.rows && CanSend(s, max, id)
    ensures Delivers(s, actions, t, max, id)
  {
    var r := s.rows[id];
    if w: Worker :| Calls(s, w, id) {
      actions, t := FromClaimed(s, max, id, w);
    } else if r.attempts < max && Approvable(r) {
      actions, t := FromApprovable(s, max, id);
    } else if Waits(r, max) {
      actions, t := FromWaiting(s, max, id);
    } else {
      var w: Worker :| MayRetry(s, w, id);
      actions, t := FromFailure(s, max, id, w);
    }
  }

  /** From any reachable state, some run delivers a request once more exactly when it may still be sent. */
  lemma DeliveredAgainExactly(before: seq<Action>, s: State, max: nat, id: Id)
    requires Leads(EMPTY, before, s, max) && id in s.rows
    ensures CanSend(s, max, id) <==> exists actions, t :: Delivers(s, actions, t, max, id)
    ensures !CanSend(s, max, id) ==> forall actions, t :: Leads(s, actions, t, max) ==> DeliveredAs(s, t, id)
  {
    RunKeepsInv(EMPTY, before, s, max);
    if CanSend(s, max, id) {
      var actions, t := FromCanSend(s, max, id);
    } else {
      forall actions, t | Leads(s, actions, t, max) ensures DeliveredAs(s, t, id) {
        RunSendsNothing(s, actions, t, max, id);
      }
    }
  }

  predicate DeliveredAs(s: State, t: State, id: Id)
    requires id in s.rows
  {
    id in t.rows && t.rows[id].history.deliveries == s.rows[id].history.deliveries
  }

  /**
   A delivered request can be delivered again only if each of its deliveries was reported as a failure that counts
   as unsent.
   */
  lemma SecondNeedsMisjudged(before: seq<Action>, s: State, max: nat, id: Id)
    requires Leads(EMPTY, before, s, max) && id in s.rows && CanSend(s, max, id)
    ensures s.rows[id].history.misjudged == s.rows[id].history.deliveries
  {
    RunKeepsInv(EMPTY, before, s, max);
    assert RowOk(s.rows[id], max);
    if w: Worker :| Calls(s, w, id) {
      assert LocalOk(s, LocalOf(s, w), w);
    } else if w: Worker :| MayRetry(s, w, id) {
      assert LocalOk(s, LocalOf(s, w), w);
    }
  }

  lemma {:induction false} HonestKeepsMisjudged(s: State, actions: seq<Action>, t: State, max: nat, id: Id)
    requires Leads(s, actions, t, max) && id in s.rows && forall a <- actions :: Honest(a)
    ensures id in t.rows && t.rows[id].history.misjudged == s.rows[id].history.misjudged
    decreases |actions|
  {
    if actions != [] {
      assert actions[0] in actions && forall a <- actions[1..] :: a in actions;
      HonestKeepsMisjudged(Step(s, actions[0], max), actions[1..], t, max, id);
    }
  }

  /** A run in which failures that count as unsent sent nothing, and by which the request has been delivered twice. */
  ghost predicate DeliversTwice(s: State, actions: seq<Action>, t: State, max: nat, id: Id) {
    Leads(s, actions, t, max) && (forall a <- actions :: Honest(a)) && id in t.rows && t.rows[id].history.deliveries >= 2
  }

  /**
   When at-most-once fails: from any reachable state, a request not yet delivered twice can come to be exactly when it was
   delivered once and may still be sent. That delivery was then reported as a failure that counts as unsent.
   */
  lemma SecondDeliveryExactly(before: seq<Action>, s: State, max: nat, id: Id)
    requires Leads(EMPTY, before, s, max) && id in s.rows && s.rows[id].history.deliveries <= 1
    ensures (exists actions, t :: DeliversTwice(s, actions, t, max, id)) <==> s.rows[id].history.deliveries == 1 && CanSend(s, max, id)
  {
    RunKeepsInv(EMPTY, before, s, max);
    assert RowOk(s.rows[id], max);
    if s.rows[id].history.deliveries == 1 && CanSend(s, max, id) {
      var actions, t := FromCanSend(s, max, id);
      assert DeliversTwice(s, actions, t, max, id);
    } else {
      forall actions, t ensures !DeliversTwice(s, actions, t, max, id) {
        if Leads(s, actions, t, max) && forall a <- actions :: Honest(a) {
          NotTwice(s, actions, t, max, id);
        }
      }
    }
  }

  lemma NotTwice(s: State, actions: seq<Action>, t: State, max: nat, id: Id)
    requires Inv(s, max) && id in s.rows && s.rows[id].history.deliveries <= 1
    requires s.rows[id].history.deliveries == 0 || !CanSend(s, max, id)
    requires Leads(s, actions, t, max) && forall a <- actions :: Honest(a)
    ensures id in t.rows && t.rows[id].history.deliveries <= 1
  {
    HonestKeepsMisjudged(s, actions, t, max, id);
    RunKeepsInv(s, actions, t, max);
    assert RowOk(s.rows[id], max) && RowOk(t.rows[id], max);
    if !CanSend(s, max, id) {
      RunSendsNothing(s, actions, t, max, id);
    }
  }

  /** What the console can see of it: a failed request can be sent again exactly with its class and its attempts. */
  lemma FailedAgainExactly(before: seq<Action>, s: State, max: nat, id: Id)
    requires Leads(EMPTY, before, s, max) && id in s.rows && s.rows[id].status.Failed?
    ensures CanSend(s, max, id) <==> s.rows[id].errorClass.RejectedClass? && s.rows[id].attempts < max
  {
    RunKeepsInv(EMPTY, before, s, max);
    assert RowOk(s.rows[id], max);
    forall w: Worker ensures !Calls(s, w, id) && !MayRetry(s, w, id) {
      assert LocalOk(s, LocalOf(s, w), w);
    }
  }

  /** An approval can be acted on exactly while attempts are left. */
  lemma ApprovalIsActedOn(before: seq<Action>, s: State, max: nat, id: Id)
    requires Leads(EMPTY, before, s, max) && id in s.rows && Approvable(s.rows[id])
    ensures s.rows[id].attempts < max <==> exists actions, t :: Sends(s, actions, t, max, id)
  {
    RunKeepsInv(EMPTY, before, s, max);
    assert RowOk(s.rows[id], max);
    if s.rows[id].attempts < max {
      var actions, t := FromApprovable(s, max, id);
      assert Sends(s, actions, t, max, id);
    } else {
      forall actions, t ensures !Sends(s, actions, t, max, id) {
        if Leads(s, actions, t, max) {
          SpentAttemptsAreFinal(s, actions, t, max, id);
        }
      }
    }
  }

  ghost predicate Sends(s: State, actions: seq<Action>, t: State, max: nat, id: Id)
    requires id in s.rows
  {
    Leads(s, actions, t, max) && id in t.rows && t.rows[id].history.sends > s.rows[id].history.sends
  }

  // ---- Sends wait for their time ---------------------------------------------------------------------

  /** In every reachable state a claim takes an approved request whose time has come and which has attempts left. */
  lemma ClaimsWaitForTheirTime(before: seq<Action>, s: State, max: nat, w: Worker, id: Id, now: Time)
    requires Leads(EMPTY, before, s, max) && Enabled(s, Claim(w, id, now), max)
    ensures var r := s.rows[id];
            && (r.status.Approved? || r.status.Scheduled?) && r.scheduledFor <= now && r.attempts < max
            && r.history.sends < r.history.approvals
  {
    RunKeepsInv(EMPTY, before, s, max);
    assert RowOk(s.rows[id], max);
  }

  /** The request is approved and waits for a time not before `t`, or was cancelled while it did. */
  predicate WaitsUntil(r: Row, t: Time) {
    r.status.Cancelled? || ((r.status.Approved? || r.status.Scheduled?) && r.scheduledFor >= t)
  }

  lemma StaysUnsent(s: State, a: Action, max: nat, id: Id, t: Time)
    requires Inv(s, max) && Enabled(s, a, max) && id in s.rows && WaitsUntil(s.rows[id], t)
    requires a.Claim? ==> a.now < t
    ensures id in Step(s, a, max).rows && WaitsUntil(Step(s, a, max).rows[id], t)
    ensures Step(s, a, max).rows[id].history == s.rows[id].history && Step(s, a, max).rows[id].attempts == s.rows[id].attempts
  {
    if a.Deliver? || a.Record? {
      assert LocalOk(s, LocalOf(s, a.w), a.w);
    }
  }

  /** A request that waits for a time is not claimed or sent in any run whose claims are all made before then. */
  lemma {:induction false} NothingIsSentEarly(s: State, actions: seq<Action>, u: State, max: nat, id: Id, t: Time)
    requires Inv(s, max) && Leads(s, actions, u, max) && id in s.rows && WaitsUntil(s.rows[id], t)
    requires forall a <- actions :: a.Claim? ==> a.now < t
    ensures id in u.rows && WaitsUntil(u.rows[id], t)
    ensures u.rows[id].history == s.rows[id].history && u.rows[id].attempts == s.rows[id].attempts
    decreases |actions|
  {
    if actions != [] {
      assert actions[0] in actions && forall a <- actions[1..] :: a in actions;
      StepKeepsInv(s, actions[0], max);
      StaysUnsent(s, actions[0], max, id, t);
      NothingIsSentEarly(Step(s, actions[0], max), actions[1..], u, max, id, t);
    }
  }

  /** What an approval leaves of a request that may be approved: one that waits for its time and was not refused. */
  predicate IsApprovedFor(before: Row, after: Row, scheduledFor: Time, now: Time) {
    && after.status == (if scheduledFor > now then Scheduled else Approved) && after.scheduledFor == scheduledFor
    && after.lock == None && after.errorClass == NoClass
    && after.attempts == before.attempts && after.waMessageId == before.waMessageId
    && after.history == before.history.(approvals := before.history.approvals + 1)
  }

  /**
   An approval makes a pending request, or one whose send failed without having been made, wait until its time. Any
   other request it leaves as it was.
   */
  lemma ApprovalSchedules(s: State, max: nat, id: Id, scheduledFor: Time, now: Time)
    requires id in s.rows
    ensures var (r, t) := (s.rows[id], Step(s, Approve(id, scheduledFor, now), max));
            if r.status == PendingApproval || (r.status == Failed && r.errorClass != Ambiguous)
            then IsApprovedFor(r, t.rows[id], scheduledFor, now) && WaitsUntil(t.rows[id], scheduledFor)
            else t == s
  {
    assert s.rows[id := s.rows[id]] == s.rows;
  }

  /** A new request waits for a decision, or if it was decided with its creation, for its time. */
  lemma CreationDecides(s: State, max: nat, id: Id, decided: bool, scheduledFor: Time, now: Time)
    requires id !in s.rows
    ensures var r := Step(s, Create(id, decided, scheduledFor, now), max).rows[id];
            && r.status == (if !decided then PendingApproval else if scheduledFor > now then Scheduled else Approved)
            && r.scheduledFor == scheduledFor && r.lock == None && r.attempts == 0 && r.waMessageId == None
            && r.history == History(if decided then 1 else 0, 0, 0, 0)
  {
  }

  /** A rejected request stays as it is over every run. Only a pending one can be rejected. */
  lemma RejectedForGood(s: State, id: Id, actions: seq<Action>, t: State, max: nat)
    requires Inv(s, max) && id in s.rows && Leads(Step(s, Reject(id), max), actions, t, max)
    ensures if s.rows[id].status == PendingApproval
            then id in t.rows && t.rows[id] == s.rows[id].(status := Rejected)
            else Step(s, Reject(id), max) == s
  {
    assert s.rows[id := s.rows[id]] == s.rows;
    if s.rows[id].status == PendingApproval {
      StepKeepsInv(s, Reject(id), max);
      FinalStaysFinal(Step(s, Reject(id), max), actions, t, max, id);
    }
  }

  /** A cancelled request stays as it is over every run. Only an approved one whose send has not begun can be cancelled. */
  lemma CancelledForGood(s: State, id: Id, actions: seq<Action>, t: State, max: nat)
    requires Inv(s, max) && id in s.rows && Leads(Step(s, Cancel(id), max), actions, t, max)
    ensures if s.rows[id].status == Approved || s.rows[id].status == Scheduled
            then id in t.rows && t.rows[id] == s.rows[id].(status := Cancelled)
            else Step(s, Cancel(id), max) == s
  {
    assert s.rows[id := s.rows[id]] == s.rows;
    if s.rows[id].status == Approved || s.rows[id].status == Scheduled {
      StepKeepsInv(s, Cancel(id), max);
      FinalStaysFinal(Step(s, Cancel(id), max), actions, t, max, id);
    }
  }

  predicate Approves(a: Action, id: Id) {
    (a.Create? && a.id == id && a.decided) || (a.Approve? && a.id == id)
  }

  /** How often a run's actions approve a request, as it is created or afterwards. */
  function ApprovalsOf(actions: seq<Action>, id: Id): nat {
    if actions == [] then 0 else (if Approves(actions[0], id) then 1 else 0) + ApprovalsOf(actions[1..], id)
  }

  lemma {:induction false} ApprovalsAreGiven(s: State, actions: seq<Action>, t: State, max: nat, id: Id)
    requires Leads(s, actions, t, max) && id in t.rows
    ensures t.rows[id].history.approvals <= (if id in s.rows then s.rows[id].history.approvals else 0) + ApprovalsOf(actions, id)
    decreases |actions|
  {
    if actions != [] {
      ApprovalsAreGiven(Step(s, actions[0], max), actions[1..], t, max, id);
    }
  }

  /** Over every run a request is handed to the bridge no more often than someone approved it; so never unapproved. */
  lemma SentOnlyWhenApproved(actions: seq<Action>, s: State, max: nat, id: Id)
    requires Leads(EMPTY, actions, s, max) && id in s.rows
    ensures s.rows[id].history.sends <= ApprovalsOf(actions, id)
  {
    OncePerApproval(actions, s, max, id);
    ApprovalsAreGiven(EMPTY, actions, s, max, id);
  }

  // ---- Claims without arrivals -----------------------------------------------------------------------

  /** How many of a run's actions claim a request. */
  function ClaimsOf(actions: seq<Action>, id: Id): nat {
    if actions == [] then 0 else (if actions[0].Claim? && actions[0].id == id then 1 else 0) + ClaimsOf(actions[1..], id)
  }

  function Claims(actions: seq<Action>): nat {
    if actions == [] then 0 else (if actions[0].Claim? then 1 else 0) + Claims(actions[1..])
  }

  predicate Arrives(a: Action) { a.Create? || a.Approve? }

  /** Whatever other workers and the console do, a claim leaves fewer requests waiting, and only an arrival makes one wait. */
  lemma WaitingShrinks(s: State, a: Action, max: nat)
    requires Inv(s, max) && Enabled(s, a, max) && !Arrives(a)
    ensures Waiting(Step(s, a, max).rows, max) <= Waiting(s.rows, max)
    ensures a.Claim? ==> |Waiting(Step(s, a, max).rows, max)| < |Waiting(s.rows, max)|
    ensures a.Claim? ==> a.id in Waiting(s.rows, max) && a.id !in Waiting(Step(s, a, max).rows, max)
  {
    var t := Step(s, a, max);
    if a.Claim? {
      FewerWait(s.rows, t.rows, a.id, max);
    } else if a.Deliver? || a.Record? {
      assert LocalOk(s, LocalOf(s, a.w), a.w);
    }
  }

  lemma SubsetIsSmaller(a: set<Id>, b: set<Id>)
    requires a <= b
    ensures |a| <= |b|
  {
    assert b == a + (b - a);
  }

  /**
   However many dispatchers run beside each other and the console, while nothing is created or approved every claim
   takes a request out of those that wait: no more claims are made than requests wait, and no request is claimed twice.
   */
  lemma {:induction false} ClaimsAreBounded(s: State, actions: seq<Action>, t: State, max: nat)
    requires Inv(s, max) && Leads(s, actions, t, max) && forall a <- actions :: !Arrives(a)
    ensures Claims(actions) + |Waiting(t.rows, max)| <= |Waiting(s.rows, max)|
    ensures forall id: Id :: ClaimsOf(actions, id) <= if id in Waiting(s.rows, max) then 1 else 0
    decreases |actions|
  {
    if actions != [] {
      var a, rest := actions[0], actions[1..];
      assert a in actions && forall b <- rest :: b in actions;
      var next := Step(s, a, max);
      StepKeepsInv(s, a, max);
      WaitingShrinks(s, a, max);
      SubsetIsSmaller(Waiting(next.rows, max), Waiting(s.rows, max));
      ClaimsAreBounded(next, rest, t, max);
      forall id: Id ensures ClaimsOf(actions, id) <= if id in Waiting(s.rows, max) then 1 else 0 {
        assert ClaimsOf(rest, id) <= if id in Waiting(next.rows, max) then 1 else 0;
      }
    }
  }
}
