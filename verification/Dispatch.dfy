/**
 The send dispatcher: any number of worker processes claim approved requests and hand them to the bridge, while
 the console creates, approves, rejects and cancels them. Every action below is one atomic update, one bridge
 call with its answer, or a crash.
 */
module Dispatch {
  import opened Wrappers

  type Id = nat
  type Worker = nat
  type Time = nat

  const LOCK_TTL: nat := 60000

  datatype Status = PendingApproval | Approved | Scheduled | Rejected | Cancelled | Sending | Sent | Failed

  datatype ErrorClass = NoClass | RejectedClass | Ambiguous

  datatype Lock = Lock(at: Time, owner: Worker)

  /** History: approvals given, bridge calls made, deliveries WhatsApp made, and those reported as refusals. */
  datatype History = History(approvals: nat, sends: nat, deliveries: nat, misjudged: nat)

  datatype Row = Row(
    status: Status, scheduledFor: Time, lock: Option<Lock>, attempts: nat, waMessageId: Option<string>,
    errorClass: ErrorClass, history: History)

  /** How a send fails. */
  datatype Cause = QuoteUnavailable | NotConnected | NoBridge | Unreachable | Timeout | OtherCause

  /** A timeout is also an unreachable bridge, and is matched before it. */
  function Classify(cause: Cause): ErrorClass {
    match cause
    case QuoteUnavailable | NotConnected => RejectedClass
    case Timeout => Ambiguous
    case Unreachable | NoBridge => RejectedClass
    case OtherCause => Ambiguous
  }

  datatype Reply = Accepted(messageId: string) | Refused(cause: Cause)

  /** What the worker could make of an answer's body: cut off or too long, empty, no JSON, or JSON with this id. */
  datatype Body = Broken | Empty | Garbled | Holding(messageId: string)

  /** How one attempt at a send went: it may end before the bridge is called, get no answer, or get one. */
  datatype Call = QuoteMissing | NotPrepared | Unconfigured | TimedOut | Unanswered | Answered(status: nat, body: Body)

  predicate Made(call: Call) { call.TimedOut? || call.Unanswered? || call.Answered? }

  /** The white space that `strings.TrimSpace` removes. */
  predicate IsSpace(c: char) {
    || '\t' <= c <= '\r' || c == ' ' || c == '\U{85}' || c == '\U{a0}' || c == '\U{1680}' || '\U{2000}' <= c <= '\U{200a}'
    || c == '\U{2028}' || c == '\U{2029}' || c == '\U{202f}' || c == '\U{205f}' || c == '\U{3000}'
  }

  predicate IsBlank(s: string) { forall c <- s :: IsSpace(c) }

  /** The Unicode white space characters, one by one. */
  const SPACES: set<char> := {
    '\U{9}', '\U{a}', '\U{b}', '\U{c}', '\U{d}', '\U{20}', '\U{85}', '\U{a0}', '\U{1680}', '\U{2000}', '\U{2001}', '\U{2002}',
    '\U{2003}', '\U{2004}', '\U{2005}', '\U{2006}', '\U{2007}', '\U{2008}', '\U{2009}', '\U{200a}', '\U{2028}', '\U{2029}',
    '\U{202f}', '\U{205f}', '\U{3000}'}

  predicate OnlySpaces(s: string) { forall c <- s :: c in SPACES }

  lemma SpaceIsListed(c: char)
    ensures IsSpace(c) <==> c in SPACES
  {
    if '\U{2000}' <= c <= '\U{200a}' || '\U{9}' <= c <= '\U{d}' {
      assert c == c as int as char;
    }
  }

  lemma BlankIsSpaces(s: string)
    ensures IsBlank(s) <==> OnlySpaces(s)
  {
    forall c <- s ensures IsSpace(c) <==> c in SPACES {
      SpaceIsListed(c);
    }
  }

  /** What the worker takes the attempt for: a body it cannot read comes before the status, and an id must not be blank. */
  function ReplyOf(call: Call): Reply {
    match call
    case QuoteMissing => Refused(QuoteUnavailable)
    case NotPrepared => Refused(OtherCause)
    case Unconfigured => Refused(NoBridge)
    case TimedOut => Refused(Timeout)
    case Unanswered => Refused(Unreachable)
    case Answered(status, body) =>
      if body.Broken? then Refused(OtherCause)
      else if status == 503 then Refused(NotConnected)
      else if status < 200 || status > 299 || !body.Holding? || IsBlank(body.messageId) then Refused(OtherCause)
      else Accepted(body.messageId)
  }

  datatype Local = Idle | Claimed(id: Id) | Replied(id: Id, reply: Reply)

  datatype State = State(rows: map<Id, Row>, locals: map<Worker, Local>)

  function LocalOf(s: State, w: Worker): Local {
    if w in s.locals then s.locals[w] else Idle
  }

  function At(s: State, w: Worker, l: Local): (t: State)
    ensures t.rows == s.rows && LocalOf(t, w) == l && forall v: Worker :: v != w ==> LocalOf(t, v) == LocalOf(s, v)
  {
    s.(locals := s.locals[w := l])
  }

  // ---- Row updates -----------------------------------------------------------------------------------

  function NewRow(decided: bool, scheduledFor: Time, now: Time): Row {
    Row(if !decided then PendingApproval else if scheduledFor > now then Scheduled else Approved,
        scheduledFor, None, 0, None, NoClass, History(if decided then 1 else 0, 0, 0, 0))
  }

  /** What an owner may approve: a pending request, or a failed one that cannot have been delivered. */
  predicate Approvable(r: Row) {
    r.status.PendingApproval? || (r.status.Failed? && !r.errorClass.Ambiguous?)
  }

  function ApproveRow(r: Row, scheduledFor: Time, now: Time): Row {
    if Approvable(r)
    then r.(status := if scheduledFor > now then Scheduled else Approved, scheduledFor := scheduledFor, lock := None,
            errorClass := NoClass, history := r.history.(approvals := r.history.approvals + 1))
    else r
  }

  function RejectRow(r: Row): Row {
    if r.status.PendingApproval? then r.(status := Rejected) else r
  }

  function CancelRow(r: Row): Row {
    if r.status.Approved? || r.status.Scheduled? then r.(status := Cancelled) else r
  }

  /** The filter of a claim. */
  predicate Due(r: Row, now: Time, max: nat) {
    && r.attempts < max
    && (r.status.Approved? || r.status.Scheduled?) && r.scheduledFor <= now
    && (r.lock.None? || r.lock.value.at + LOCK_TTL < now)
  }

  predicate IsOldestDue(rows: map<Id, Row>, id: Id, now: Time, max: nat)
    requires id in rows
  {
    Due(rows[id], now, max) && forall other <- rows :: Due(rows[other], now, max) ==> rows[id].scheduledFor <= rows[other].scheduledFor
  }

  function ClaimRow(r: Row, w: Worker, now: Time): Row {
    r.(status := Sending, lock := Some(Lock(now, w)), attempts := r.attempts + 1)
  }

  predicate Owns(r: Row, w: Worker) {
    r.status.Sending? && r.lock.Some? && r.lock.value.owner == w
  }

  /** An attempt, and whether WhatsApp delivered the message. */
  function CallRow(r: Row, call: Call, delivered: bool): Row {
    var h, reply := r.history, ReplyOf(call);
    r.(history := History(
         h.approvals, h.sends + if Made(call) then 1 else 0, h.deliveries + if delivered then 1 else 0,
         h.misjudged + if delivered && reply.Refused? && Classify(reply.cause).RejectedClass? then 1 else 0))
  }

  function RecordRow(r: Row, w: Worker, reply: Reply): Row {
    if !Owns(r, w) then r
    else match reply
      case Accepted(messageId) => r.(status := Sent, waMessageId := Some(messageId), lock := None, errorClass := NoClass)
      case Refused(cause) => r.(status := Failed, lock := None, errorClass := Classify(cause))
  }

  // ---- Actions ---------------------------------------------------------------------------------------

  datatype Action =
    | Create(id: Id, decided: bool, scheduledFor: Time, now: Time)
    | Approve(id: Id, scheduledFor: Time, now: Time)
    | Reject(id: Id)
    | Cancel(id: Id)
    | Claim(w: Worker, id: Id, now: Time)
    | Deliver(w: Worker, call: Call, delivered: bool)
    | Record(w: Worker)
    | Crash(w: Worker)

  /** The bridge answers with an id only when WhatsApp took the message, and nothing is delivered without a call. */
  predicate Plausible(call: Call, delivered: bool) {
    (ReplyOf(call).Accepted? ==> delivered) && (delivered ==> Made(call))
  }

  predicate Enabled(s: State, a: Action, max: nat) {
    match a
    case Create(id, _, _, _) => id !in s.rows
    case Claim(w, id, now) => LocalOf(s, w).Idle? && id in s.rows && IsOldestDue(s.rows, id, now, max)
    case Deliver(w, call, delivered) => LocalOf(s, w).Claimed? && LocalOf(s, w).id in s.rows && Plausible(call, delivered)
    case Record(w) => LocalOf(s, w).Replied? && LocalOf(s, w).id in s.rows
    case Crash(_) => true
    case _ => a.id in s.rows
  }

  /** The one row an action writes. */
  function Target(s: State, a: Action): Option<Id> {
    match a
    case Deliver(w, _, _) => if LocalOf(s, w).Claimed? then Some(LocalOf(s, w).id) else None
    case Record(w) => if LocalOf(s, w).Replied? then Some(LocalOf(s, w).id) else None
    case Crash(_) => None
    case _ => Some(a.id)
  }

  function NextRow(s: State, a: Action, max: nat): Row
    requires Enabled(s, a, max) && !a.Crash?
  {
    match a
    case Create(_, decided, scheduledFor, now) => NewRow(decided, scheduledFor, now)
    case Approve(id, scheduledFor, now) => ApproveRow(s.rows[id], scheduledFor, now)
    case Reject(id) => RejectRow(s.rows[id])
    case Cancel(id) => CancelRow(s.rows[id])
    case Claim(w, id, now) => ClaimRow(s.rows[id], w, now)
    case Deliver(w, call, delivered) => CallRow(s.rows[LocalOf(s, w).id], call, delivered)
    case Record(w) => RecordRow(s.rows[LocalOf(s, w).id], w, LocalOf(s, w).reply)
  }

  function NextLocals(s: State, a: Action, max: nat): State
    requires Enabled(s, a, max)
  {
    match a
    case Claim(w, id, _) => At(s, w, Claimed(id))
    case Deliver(w, call, _) => At(s, w, Replied(LocalOf(s, w).id, ReplyOf(call)))
    case Record(w) => At(s, w, Idle)
    case Crash(w) => At(s, w, Idle)
    case _ => s
  }

  function Step(s: State, a: Action, max: nat): State
    requires Enabled(s, a, max)
  {
    var t := NextLocals(s, a, max);
    if a.Crash? then t else t.(rows := s.rows[Target(s, a).value := NextRow(s, a, max)])
  }

  const EMPTY: State := State(map[], map[])

  predicate Leads(s: State, actions: seq<Action>, t: State, max: nat)
    decreases |actions|
  {
    if actions == [] then s == t
    else Enabled(s, actions[0], max) && Leads(Step(s, actions[0], max), actions[1..], t, max)
  }

  // ---- What every action keeps -----------------------------------------------------------------------

  /** The request cannot have been delivered, unless by a send the worker took for a refusal. */
  predicate Undelivered(r: Row) { r.history.deliveries == r.history.misjudged }

  predicate RowOk(r: Row, max: nat) {
    var h := r.history;
    && (r.status.Sending? <==> r.lock.Some?)
    && (r.status.Sent? <==> r.waMessageId.Some?)
    && (r.status.Sent? ==> !IsBlank(r.waMessageId.value) && h.deliveries >= 1)
    && (r.status.Failed? <==> !r.errorClass.NoClass?)
    && r.attempts <= max && h.sends <= r.attempts
    && h.sends <= h.approvals && h.deliveries <= h.sends && h.misjudged <= h.deliveries <= h.misjudged + 1
    && (r.status.Approved? || r.status.Scheduled? ==> h.sends < h.approvals)
    && (!(r.status.Sending? || r.status.Sent? || r.errorClass.Ambiguous?) ==> Undelivered(r))
  }

  /** A worker between claim and record owns the row it works on. */
  predicate LocalOk(s: State, l: Local, w: Worker) {
    match l
    case Idle => true
    case Claimed(id) =>
      && id in s.rows && Owns(s.rows[id], w) && Undelivered(s.rows[id])
      && s.rows[id].history.sends < s.rows[id].history.approvals && s.rows[id].history.sends < s.rows[id].attempts
    case Replied(id, reply) =>
      && id in s.rows && Owns(s.rows[id], w)
      && (match reply
          case Accepted(messageId) => !IsBlank(messageId) && s.rows[id].history.deliveries >= 1
          case Refused(cause) => Classify(cause).Ambiguous? || Undelivered(s.rows[id]))
  }

  ghost predicate Inv(s: State, max: nat) {
    && (forall id <- s.rows :: RowOk(s.rows[id], max))
    && forall w: Worker :: LocalOk(s, LocalOf(s, w), w)
  }

  lemma RowKeepsOk(s: State, a: Action, max: nat)
    requires Inv(s, max) && Enabled(s, a, max) && !a.Crash?
    ensures RowOk(NextRow(s, a, max), max)
  {
    match a
    case Deliver(w, _, _) => assert LocalOk(s, LocalOf(s, w), w);
    case Record(w) => assert LocalOk(s, LocalOf(s, w), w);
    case _ =>
  }

  /** An action leaves what another worker owns alone. */
  lemma OthersUntouched(s: State, a: Action, max: nat, v: Worker)
    requires Inv(s, max) && Enabled(s, a, max) && !LocalOf(s, v).Idle?
    requires !((a.Claim? || a.Deliver? || a.Record? || a.Crash?) && a.w == v)
    ensures LocalOf(Step(s, a, max), v) == LocalOf(s, v)
    ensures var id := LocalOf(s, v).id; id in s.rows && Step(s, a, max).rows[id] == s.rows[id]
  {
    assert LocalOk(s, LocalOf(s, v), v);
    if a.Deliver? || a.Record? {
      DifferentRows(s, max, v, a.w);
    }
  }

  /** Two workers never hold the same request. */
  lemma DifferentRows(s: State, max: nat, v: Worker, w: Worker)
    requires Inv(s, max) && v != w && !LocalOf(s, v).Idle? && !LocalOf(s, w).Idle?
    ensures LocalOf(s, v).id != LocalOf(s, w).id
  {
    assert LocalOk(s, LocalOf(s, v), v) && LocalOk(s, LocalOf(s, w), w);
  }

  lemma StepKeepsInv(s: State, a: Action, max: nat)
    requires Inv(s, max) && Enabled(s, a, max)
    ensures Inv(Step(s, a, max), max)
  {
    var t := Step(s, a, max);
    if !a.Crash? {
      RowKeepsOk(s, a, max);
    }
    forall w: Worker ensures LocalOk(t, LocalOf(t, w), w) {
      assert LocalOk(s, LocalOf(s, w), w);
      if (a.Claim? || a.Deliver? || a.Record? || a.Crash?) && a.w == w {
        OwnLocalOk(s, a, max);
      } else if !LocalOf(s, w).Idle? {
        OthersUntouched(s, a, max, w);
      }
    }
  }

  lemma OwnLocalOk(s: State, a: Action, max: nat)
    requires Inv(s, max) && Enabled(s, a, max) && (a.Claim? || a.Deliver? || a.Record? || a.Crash?)
    ensures LocalOk(Step(s, a, max), LocalOf(Step(s, a, max), a.w), a.w)
  {
    assert LocalOk(s, LocalOf(s, a.w), a.w);
  }

  lemma {:induction false} RunKeepsInv(s: State, actions: seq<Action>, t: State, max: nat)
    requires Inv(s, max) && Leads(s, actions, t, max)
    ensures Inv(t, max)
    decreases |actions|
  {
    if actions != [] {
      StepKeepsInv(s, actions[0], max);
      RunKeepsInv(Step(s, actions[0], max), actions[1..], t, max);
    }
  }

  // ---- At most once ----------------------------------------------------------------------------------

  /**
   Over every run a request is handed to the bridge at most once per approval and at most `max` times in all.
   It is stored as sent only with a message id that is not blank and only when it was delivered. It is delivered at most once,
   plus once for every delivery its worker was told was a refusal.
   */
  lemma OncePerApproval(actions: seq<Action>, s: State, max: nat, id: Id)
    requires Leads(EMPTY, actions, s, max) && id in s.rows
    ensures var r := s.rows[id];
            && r.history.sends <= r.history.approvals && r.history.sends <= r.attempts <= max
            && (r.status.Sent? ==> r.waMessageId.Some? && !OnlySpaces(r.waMessageId.value) && r.history.deliveries >= 1)
            && r.history.deliveries <= r.history.misjudged + 1
  {
    RunKeepsInv(EMPTY, actions, s, max);
    if s.rows[id].status.Sent? {
      BlankIsSpaces(s.rows[id].waMessageId.value);
    }
  }

  /** The failures an owner may retry are those after which the message cannot have been sent, or is taken not to have been. */
  predicate CountsAsUnsent(cause: Cause) {
    cause.QuoteUnavailable? || cause.NotConnected? || cause.NoBridge? || cause.Unreachable?
  }

  lemma RetriedOnlyWhenUnsent(r: Row, w: Worker, cause: Cause)
    requires Owns(r, w)
    ensures Approvable(RecordRow(r, w, Refused(cause))) <==> CountsAsUnsent(cause)
    ensures Final(RecordRow(r, w, Refused(cause))) <==> cause.Timeout? || cause.OtherCause?
  {
    match cause
    case Timeout =>
    case OtherCause =>
    case _ => assert Classify(cause) == RejectedClass;
  }

  /** A send counts as accepted exactly on a readable 2xx answer with an id that is not blank, and that id is kept. */
  lemma AcceptedExactly(call: Call, messageId: string)
    ensures ReplyOf(call) == Accepted(messageId) <==>
            call.Answered? && 200 <= call.status <= 299 && call.body == Holding(messageId) && !OnlySpaces(messageId)
  {
    BlankIsSpaces(messageId);
  }

  /**
   And as never sent exactly when no call was made for a missing quote or bridge, when no answer came before the
   deadline, or when the bridge answered that it is not connected. In particular an acknowledgement without an id is
   not: its fate is unknown, and it is never retried.
   */
  lemma UnsentExactly(call: Call)
    ensures ReplyOf(call).Refused? && CountsAsUnsent(ReplyOf(call).cause) <==>
            call.QuoteMissing? || call.Unconfigured? || call.Unanswered? || (call.Answered? && call.status == 503 && !call.body.Broken?)
  {
  }

  /** The action is no delivery that its worker took for a refusal. */
  predicate Honest(a: Action) {
    a.Deliver? && a.delivered && ReplyOf(a.call).Refused? ==> !CountsAsUnsent(ReplyOf(a.call).cause)
  }

  lemma {:induction false} HonestRunsNeverMisjudge(s: State, actions: seq<Action>, t: State, max: nat)
    requires Leads(s, actions, t, max) && forall a <- actions :: Honest(a)
    requires forall id <- s.rows :: s.rows[id].history.misjudged == 0
    ensures forall id <- t.rows :: t.rows[id].history.misjudged == 0
    decreases |actions|
  {
    if actions != [] {
      assert actions[0] in actions && forall a <- actions[1..] :: a in actions;
      HonestRunsNeverMisjudge(Step(s, actions[0], max), actions[1..], t, max);
    }
  }

  /** Where an unreachable bridge really means an unsent message, every request is delivered at most once, however often it is approved. */
  lemma AtMostOneDelivery(actions: seq<Action>, s: State, max: nat, id: Id)
    requires Leads(EMPTY, actions, s, max) && id in s.rows && forall a <- actions :: Honest(a)
    ensures s.rows[id].history.deliveries <= 1
  {
    HonestRunsNeverMisjudge(EMPTY, actions, s, max);
    OncePerApproval(actions, s, max, id);
  }

  /** A connection reset after the message went out counts as a refusal, so an owner's retry delivers it twice. */
  lemma DoubleDelivery() returns (actions: seq<Action>, s: State)
    ensures Leads(EMPTY, actions, s, 2) && 0 in s.rows
    ensures s.rows[0].status.Sent? && s.rows[0].history.deliveries == 2 && s.rows[0].history.misjudged == 1
  {
    var acknowledged := Answered(200, Holding("id"));
    assert "id"[0] in "id" && "id"[0] !in SPACES;
    AcceptedExactly(acknowledged, "id");
    actions, s := TwoAttempts(Unanswered, acknowledged);
  }

  lemma TwoAttempts(first: Call, second: Call) returns (actions: seq<Action>, s: State)
    requires Plausible(first, true) && Plausible(second, true) && ReplyOf(second).Accepted?
    requires ReplyOf(first).Refused? && CountsAsUnsent(ReplyOf(first).cause)
    ensures Leads(EMPTY, actions, s, 2) && 0 in s.rows
    ensures s.rows[0].status.Sent? && s.rows[0].history.deliveries == 2 && s.rows[0].history.misjudged == 1
  {
    actions, s := Then([], EMPTY, Create(0, true, 0, 0), 2);
    actions, s := Attempt(actions, s, first, true);
    actions, s := Then(actions, s, Approve(0, 0, 0), 2);
    actions, s := Attempt(actions, s, second, true);
  }

  /** One worker's attempt at the only request there is. */
  lemma Attempt(before: seq<Action>, p: State, call: Call, delivered: bool) returns (actions: seq<Action>, s: State)
    requires Leads(EMPTY, before, p, 2) && p.rows.Keys == {0} && Due(p.rows[0], 0, 2) && LocalOf(p, 7).Idle?
    requires Plausible(call, delivered)
    ensures Leads(EMPTY, actions, s, 2) && s.rows.Keys == {0} && LocalOf(s, 7).Idle?
    ensures s.rows[0] == RecordRow(CallRow(ClaimRow(p.rows[0], 7, 0), call, delivered), 7, ReplyOf(call))
  {
    actions, s := Then(before, p, Claim(7, 0, 0), 2);
    actions, s := Then(actions, s, Deliver(7, call, delivered), 2);
    actions, s := Then(actions, s, Record(7), 2);
  }

  lemma Then(before: seq<Action>, p: State, a: Action, max: nat) returns (actions: seq<Action>, s: State)
    requires Leads(EMPTY, before, p, max) && Enabled(p, a, max)
    ensures actions == before + [a] && s == Step(p, a, max) && Leads(EMPTY, actions, s, max)
  {
    actions, s := before + [a], Step(p, a, max);
    LeadsOn(EMPTY, before, p, a, max);
  }

  lemma {:induction false} LeadsOn(s: State, actions: seq<Action>, t: State, a: Action, max: nat)
    requires Leads(s, actions, t, max) && Enabled(t, a, max)
    ensures Leads(s, actions + [a], Step(t, a, max), max)
    decreases |actions|
  {
    if actions == [] {
      assert [a][1..] == [];
    } else {
      assert (actions + [a])[1..] == actions[1..] + [a];
      LeadsOn(Step(s, actions[0], max), actions[1..], t, a, max);
    }
  }

  // ---- Who may move a request ------------------------------------------------------------------------

  /** Only its claimer moves a request out of `sending`, and only by recording the reply it got. */
  lemma OnlyClaimerRecords(s: State, a: Action, max: nat, id: Id)
    requires Inv(s, max) && Enabled(s, a, max) && id in s.rows && s.rows[id].status.Sending?
    ensures var r := Step(s, a, max).rows[id];
            r.status.Sending? || (a.Record? && LocalOf(s, a.w).Replied? && LocalOf(s, a.w).id == id
                                  && s.rows[id].lock.value.owner == a.w
                                  && match LocalOf(s, a.w).reply
                                     case Accepted(messageId) => r.status == Sent && r.waMessageId == Some(messageId)
                                     case Refused(_) => r.status == Failed && r.waMessageId == s.rows[id].waMessageId)
  {
    if a.Record? || a.Deliver? {
      assert LocalOk(s, LocalOf(s, a.w), a.w);
    }
  }

  /** A worker that recorded its reply, or died and was restarted, may claim again. */
  lemma WorkersGoOn(s: State, a: Action, max: nat, id: Id, now: Time)
    requires Enabled(s, a, max) && (a.Record? || a.Crash?)
    ensures var t := Step(s, a, max);
            Enabled(t, Claim(a.w, id, now), max) <==> id in t.rows && IsOldestDue(t.rows, id, now, max)
  {
  }

  /** Nothing is ever sent again for these: what was sent, cancelled or rejected, or may have been delivered. */
  predicate Final(r: Row) {
    r.status.Sent? || r.status.Cancelled? || r.status.Rejected? || (r.status.Failed? && r.errorClass.Ambiguous?)
  }

  /** No worker holds the request: it is not being sent, or its sender died. */
  ghost predicate Unheld(s: State, id: Id) {
    forall w: Worker :: LocalOf(s, w).Idle? || LocalOf(s, w).id != id
  }

  lemma FinalIsUnheld(s: State, max: nat, id: Id)
    requires Inv(s, max) && id in s.rows && Final(s.rows[id])
    ensures Unheld(s, id)
  {
    forall w: Worker ensures LocalOf(s, w).Idle? || LocalOf(s, w).id != id {
      assert LocalOk(s, LocalOf(s, w), w);
    }
  }

  lemma UnheldStaysPut(s: State, a: Action, max: nat, id: Id)
    requires Inv(s, max) && Enabled(s, a, max) && id in s.rows && Unheld(s, id)
    requires Final(s.rows[id]) || s.rows[id].status.Sending?
    ensures Step(s, a, max).rows[id] == s.rows[id] && Unheld(Step(s, a, max), id)
  {
    var t := Step(s, a, max);
    if a.Record? || a.Deliver? {
      assert LocalOf(s, a.w).id != id;
    }
    forall w: Worker ensures LocalOf(t, w).Idle? || LocalOf(t, w).id != id {
      assert LocalOf(s, w).Idle? || LocalOf(s, w).id != id;
    }
  }

  /** A final request never changes again. One left in `sending` by a dead worker is never claimed again either. */
  lemma {:induction false} FinalStaysFinal(s: State, actions: seq<Action>, t: State, max: nat, id: Id)
    requires Inv(s, max) && Leads(s, actions, t, max) && id in s.rows
    requires Final(s.rows[id]) || (s.rows[id].status.Sending? && Unheld(s, id))
    ensures id in t.rows && t.rows[id] == s.rows[id]
    decreases |actions|
  {
    if actions != [] {
      if Final(s.rows[id]) {
        FinalIsUnheld(s, max, id);
      }
      StepKeepsInv(s, actions[0], max);
      UnheldStaysPut(s, actions[0], max, id);
      FinalStaysFinal(Step(s, actions[0], max), actions[1..], t, max, id);
    }
  }

  /** An approval given after the attempts are spent is accepted, but the request is never sent again. */
  lemma {:induction false} SpentAttemptsAreFinal(s: State, actions: seq<Action>, t: State, max: nat, id: Id)
    requires Inv(s, max) && Leads(s, actions, t, max) && id in s.rows
    requires s.rows[id].attempts >= max && !s.rows[id].status.Sending?
    ensures id in t.rows && t.rows[id].history.sends == s.rows[id].history.sends && !t.rows[id].status.Sending?
    ensures t.rows[id].attempts == s.rows[id].attempts
    decreases |actions|
  {
    if actions != [] {
      var a := actions[0];
      if a.Record? || a.Deliver? {
        assert LocalOk(s, LocalOf(s, a.w), a.w);
      }
      StepKeepsInv(s, a, max);
      SpentAttemptsAreFinal(Step(s, a, max), actions[1..], t, max, id);
    }
  }

  // ---- The dispatch loop -----------------------------------------------------------------------------

  /** One turn's environment: the clock, whether the queue could be read, and what the bridge did. */
  datatype Turn = Turn(now: Time, readable: bool, call: Call, delivered: bool, recorded: bool)

  /** A request some claim may take, now or later. */
  predicate Waits(r: Row, max: nat) {
    r.attempts < max && (r.status.Approved? || r.status.Scheduled?)
  }

  ghost function Waiting(rows: map<Id, Row>, max: nat): set<Id> {
    set id <- rows | Waits(rows[id], max)
  }

  lemma FewerWait(before: map<Id, Row>, after: map<Id, Row>, id: Id, max: nat)
    requires id in before && after.Keys == before.Keys && (forall other <- before :: other != id ==> after[other] == before[other])
    requires Waits(before[id], max) && !Waits(after[id], max)
    ensures |Waiting(after, max)| < |Waiting(before, max)|
  {
    assert Waiting(before, max) == Waiting(after, max) + {id};
  }

  lemma OldestExists(rows: map<Id, Row>, ids: set<Id>)
    requires ids <= rows.Keys && ids != {}
    ensures exists id <- ids :: forall other <- ids :: rows[id].scheduledFor <= rows[other].scheduledFor
    decreases |ids|
  {
    var one :| one in ids;
    if ids != {one} {
      assert ids - {one} != {};
      OldestExists(rows, ids - {one});
      var oldest :| oldest in ids - {one} && forall other <- ids - {one} :: rows[oldest].scheduledFor <= rows[other].scheduledFor;
      var first := if rows[one].scheduledFor < rows[oldest].scheduledFor then one else oldest;
      assert forall other <- ids :: rows[first].scheduledFor <= rows[other].scheduledFor;
    } else {
      assert forall other <- ids :: rows[one].scheduledFor <= rows[other].scheduledFor;
    }
  }

  function Delivered(r: Row, w: Worker, turn: Turn): Row {
    var called := CallRow(r, turn.call, turn.delivered);
    if turn.recorded then RecordRow(called, w, ReplyOf(turn.call)) else called
  }

  /** The request was claimed by one turn of the loop, and is not waiting any more. */
  predicate ClaimedOnce(before: Row, after: Row, max: nat) {
    && Waits(before, max) && !Waits(after, max) && (after.status.Sending? || after.status.Sent? || after.status.Failed?)
    && after.attempts == before.attempts + 1
    && before.history.sends <= after.history.sends <= before.history.sends + 1
  }

  lemma DeliveredIsClaimed(r: Row, w: Worker, turn: Turn, max: nat)
    requires Waits(r, max)
    ensures ClaimedOnce(r, Delivered(ClaimRow(r, w, turn.now), w, turn), max)
  {
  }

  /** What a claim promises of the request it takes: approved, its time has come, attempts left, and no lock of the last minute. */
  ghost predicate HasComeDue(r: Row, now: Time, max: nat) {
    && (r.status == Approved || r.status == Scheduled) && r.scheduledFor <= now && r.attempts < max
    && (r.lock == None || r.lock.value.at + 60000 < now)
  }

  lemma ComesDue(rows: map<Id, Row>, now: Time, max: nat)
    ensures forall id <- rows :: HasComeDue(rows[id], now, max) <==> Due(rows[id], now, max)
  {
  }

  /** The bridge acknowledged the message: a 2xx answer that could be read and names it. */
  predicate IsAcknowledged(call: Call) {
    call.Answered? && 200 <= call.status <= 299 && call.body.Holding? && !OnlySpaces(call.body.messageId)
  }

  /** The message is taken for unsent: nothing was called or answered, or the bridge answered that it is not connected. */
  predicate IsUnsent(call: Call) {
    call.QuoteMissing? || call.Unconfigured? || call.Unanswered? || (call.Answered? && call.status == 503 && !call.body.Broken?)
  }

  /** What the record of an attempt says: sent with its message id, or failed and whether it may be tried again. */
  predicate SaysOutcome(after: Row, call: Call) {
    && after.lock == None
    && if IsAcknowledged(call) then after.status == Sent && after.waMessageId == Some(call.body.messageId) && after.errorClass == NoClass
       else after.status == Failed && after.errorClass == if IsUnsent(call) then RejectedClass else Ambiguous
  }

  /** An attempt counts its call, if one was made, and nothing else about the request changes but its outcome. */
  predicate Attempted(before: Row, after: Row, call: Call) {
    && after.scheduledFor == before.scheduledFor && after.attempts == before.attempts
    && after.history.approvals == before.history.approvals
    && after.history.sends == before.history.sends + (if call.TimedOut? || call.Unanswered? || call.Answered? then 1 else 0)
    && (!IsAcknowledged(call) ==> after.waMessageId == before.waMessageId)
  }

  lemma OutcomeIsSaid(r: Row, w: Worker, turn: Turn)
    requires r.status == Sending && r.lock.Some? && r.lock.value.owner == w
    ensures Attempted(r, Delivered(r, w, turn), turn.call)
    ensures turn.recorded ==> SaysOutcome(Delivered(r, w, turn), turn.call)
    ensures !turn.recorded ==> Delivered(r, w, turn) == r.(history := Delivered(r, w, turn).history)
  {
    if IsAcknowledged(turn.call) {
      AcceptedExactly(turn.call, turn.call.body.messageId);
    } else if ReplyOf(turn.call).Accepted? {
      AcceptedExactly(turn.call, ReplyOf(turn.call).messageId);
    } else {
      UnsentExactly(turn.call);
    }
  }

  class Dispatcher {
    const me: Worker
    const max: nat
    var rows: map<Id, Row>

    /** Claims the oldest due request, or none is due. */
    method ClaimNext(now: Time) returns (claimed: Option<Id>)
      modifies this
      ensures claimed.None? <==> forall id <- old(rows) :: !HasComeDue(old(rows)[id], now, max)
      ensures claimed.None? ==> rows == old(rows)
      ensures claimed.Some? ==> claimed.value in old(rows) && var r := old(rows)[claimed.value];
        && HasComeDue(r, now, max)
        && (forall id <- old(rows) :: HasComeDue(old(rows)[id], now, max) ==> r.scheduledFor <= old(rows)[id].scheduledFor)
        && rows == old(rows)[claimed.value := r.(status := Sending, lock := Some(Lock(now, me)), attempts := r.attempts + 1)]
    {
      ComesDue(rows, now, max);
      if exists id <- rows :: Due(rows[id], now, max) {
        ghost var due := set id <- rows | Due(rows[id], now, max);
        ghost var some :| some in rows && Due(rows[some], now, max);
        assert some in due;
        OldestExists(rows, due);
        var id :| id in rows && IsOldestDue(rows, id, now, max);
        assert IsOldestDue(rows, id, now, max);
        forall other <- rows | HasComeDue(rows[other], now, max) ensures rows[id].scheduledFor <= rows[other].scheduledFor {
          assert Due(rows[other], now, max);
        }
        rows := rows[id := ClaimRow(rows[id], me, now)];
        return Some(id);
      }
      return None;
    }

    /** Hands one claimed request to the bridge and records the reply, if the database can be reached. */
    method DeliverOne(id: Id, turn: Turn)
      requires id in rows
      modifies this
      ensures rows == old(rows)[id := Delivered(old(rows)[id], me, turn)]
      ensures old(rows[id].status == Sending && rows[id].lock.Some? && rows[id].lock.value.owner == me) ==>
        && Attempted(old(rows)[id], rows[id], turn.call)
        && if turn.recorded then SaysOutcome(rows[id], turn.call) else rows[id] == old(rows)[id].(history := rows[id].history)
      ensures !old(rows[id].status == Sending && rows[id].lock.Some? && rows[id].lock.value.owner == me) ==> rows[id] == old(rows)[id].(history := rows[id].history)
    {
      if Owns(rows[id], me) {
        OutcomeIsSaid(rows[id], me, turn);
      }
      rows := rows[id := CallRow(rows[id], turn.call, turn.delivered)];
      if turn.recorded {
        rows := rows[id := RecordRow(rows[id], me, ReplyOf(turn.call))];
      }
    }

    /**
     The source's `dispatchDue`: with no new arrivals the loop ends, because every claim leaves fewer requests
     that could be claimed at any time. Requests that could not be are untouched, and of those that could be
     each was left alone or claimed once. `turns` answers the n-th turn.
     */
    method DispatchDue(turns: nat -> Turn) returns (ok: bool, n: nat)
      modifies this
      ensures rows.Keys == old(rows).Keys
      ensures ok ==> forall id <- rows :: !HasComeDue(rows[id], turns(n).now, max)
      ensures forall id <- rows :: rows[id] == old(rows)[id] || ClaimedOnce(old(rows)[id], rows[id], max)
    {
      n := 0;
      while true
        invariant rows.Keys == old(rows).Keys
        invariant forall id <- rows :: rows[id] == old(rows)[id] || ClaimedOnce(old(rows)[id], rows[id], max)
        decreases |Waiting(rows, max)|
      {
        var turn := turns(n);
        if !turn.readable {
          return false, n;
        }
        ghost var before := rows;
        var claimed := ClaimNext(turn.now);
        if claimed.None? {
          return true, n;
        }
        DeliverOne(claimed.value, turn);
        DeliveredIsClaimed(before[claimed.value], me, turn, max);
        FewerWait(before, rows, claimed.value, max);
        n := n + 1;
      }
    }
  }
}
