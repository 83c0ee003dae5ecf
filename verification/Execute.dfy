/**
 The staged-action executor: an approved row becomes at most one external change, however many callers race
 for it and wherever they die. Every action below is one committed transaction, one external call or its
 answer, or a crash.
 */
module Execute {
  import opened Wrappers

  type Caller = nat

  datatype ActionState = Pending | Approved | Rejected | Executed | Failed

  /** `result`: null, the in-flight marker, or what the attempt recorded. */
  datatype Result = NoResult | Running | Recorded(ok: bool)

  datatype Audit = Attempted | AuditExecuted | AuditFailed

  datatype Row = Row(state: ActionState, result: Result)

  datatype Local = Idle | Claimed | Calling | Answered(ok: bool)

  /** The last two fields are history: external calls made, and calls whose own answer was that the change happened. */
  datatype State = State(row: Row, audits: seq<Audit>, locals: map<Caller, Local>, calls: nat, confirmed: nat)

  function LocalOf(s: State, c: Caller): Local {
    if c in s.locals then s.locals[c] else Idle
  }

  function At(s: State, c: Caller, l: Local): (t: State)
    ensures LocalOf(t, c) == l && forall d: Caller :: d != c ==> LocalOf(t, d) == LocalOf(s, d)
  {
    s.(locals := s.locals[c := l])
  }

  // ---- Transactions ----------------------------------------------------------------------------------

  predicate Claimable(row: Row) { row.state.Approved? && row.result.NoResult? }

  predicate InFlight(row: Row) { row.state.Approved? && row.result.Running? }

  function SettledRow(ok: bool): Row {
    Row(if ok then Executed else Failed, Recorded(ok))
  }

  datatype Action =
    | Decide(approve: bool)
    | Claim(c: Caller)
    | Refuse(c: Caller)
    | Call(c: Caller)
    | Answer(c: Caller, ok: bool)
    | Settle(c: Caller)
    | Crash(c: Caller)

  predicate Enabled(s: State, a: Action) {
    match a
    case Decide(_) => true
    case Claim(c) => LocalOf(s, c).Idle?
    case Refuse(c) => LocalOf(s, c).Claimed?
    case Call(c) => LocalOf(s, c).Claimed?
    case Answer(c, _) => LocalOf(s, c).Calling?
    case Settle(c) => LocalOf(s, c).Answered?
    case Crash(_) => true
  }

  function Step(s: State, a: Action): State
    requires Enabled(s, a)
  {
    match a
    case Decide(approve) =>
      if s.row.state.Pending? then s.(row := s.row.(state := if approve then Approved else Rejected)) else s
    case Claim(c) =>
      if Claimable(s.row)
      then At(s, c, Claimed).(row := s.row.(result := Running), audits := s.audits + [Attempted])
      else s
    case Refuse(c) => At(s, c, Answered(false))
    case Call(c) => At(s, c, Calling).(calls := s.calls + 1)
    case Answer(c, ok) => At(s, c, Answered(ok)).(confirmed := s.confirmed + if ok then 1 else 0)
    case Settle(c) =>
      var ok := LocalOf(s, c).ok;
      if InFlight(s.row)
      then At(s, c, Idle).(row := SettledRow(ok), audits := s.audits + [if ok then AuditExecuted else AuditFailed])
      else At(s, c, Idle)
    case Crash(c) => At(s, c, Idle)
  }

  const STAGED: State := State(Row(Pending, NoResult), [], map[], 0, 0)

  ghost predicate Leads(s: State, actions: seq<Action>, t: State)
    decreases |actions|
  {
    if actions == [] then s == t
    else Enabled(s, actions[0]) && Leads(Step(s, actions[0]), actions[1..], t)
  }

  // ---- What every action keeps -----------------------------------------------------------------------

  /** Nobody, or exactly this one caller, is between claim and settlement. */
  ghost predicate OnlyBusy(s: State, c: Caller) {
    forall d: Caller :: d != c ==> LocalOf(s, d).Idle?
  }

  ghost predicate Quiet(s: State) {
    forall d: Caller :: LocalOf(s, d).Idle?
  }

  ghost predicate Inv(s: State) {
    match s.row.result
    case NoResult =>
      && (s.row.state.Pending? || s.row.state.Approved? || s.row.state.Rejected?)
      && s.audits == [] && s.calls == 0 && s.confirmed == 0 && Quiet(s)
    case Running =>
      && s.row.state.Approved? && s.audits == [Attempted]
      && s.confirmed <= s.calls <= 1
      && exists c :: OnlyBusy(s, c) && Consistent(s, LocalOf(s, c))
    case Recorded(ok) =>
      && s.row.state == (if ok then Executed else Failed)
      && s.audits == [Attempted, if ok then AuditExecuted else AuditFailed]
      && s.confirmed <= s.calls <= 1 && (ok ==> s.confirmed == 1) && Quiet(s)
  }

  predicate Consistent(s: State, l: Local) {
    match l
    case Idle => true
    case Claimed => s.calls == 0
    case Calling => s.calls == 1 && s.confirmed == 0
    case Answered(ok) => s.confirmed == if ok then 1 else 0
  }

  lemma RunningStepKeepsInv(s: State, a: Action)
    requires Inv(s) && Enabled(s, a) && s.row.result.Running?
    ensures Inv(Step(s, a))
  {
    var c :| OnlyBusy(s, c) && Consistent(s, LocalOf(s, c));
    var t := Step(s, a);
    assert a.Refuse? || a.Call? || a.Answer? || a.Settle? ==> a.c == c;
    forall d: Caller | d != c ensures LocalOf(t, d).Idle? {
      assert LocalOf(s, d).Idle?;
    }
    if t.row.result.Running? {
      assert OnlyBusy(t, c) && Consistent(t, LocalOf(t, c));
    }
  }

  lemma StepKeepsInv(s: State, a: Action)
    requires Inv(s) && Enabled(s, a)
    ensures Inv(Step(s, a))
  {
    if s.row.result.Running? {
      RunningStepKeepsInv(s, a);
    } else {
      var t := Step(s, a);
      forall d: Caller | !a.Claim? || d != a.c ensures LocalOf(t, d).Idle? {
        assert LocalOf(s, d).Idle?;
      }
      if a.Claim? {
        assert LocalOf(s, a.c).Idle?;
        assert OnlyBusy(t, a.c) && Consistent(t, LocalOf(t, a.c));
      }
    }
  }

  lemma {:induction false} RunKeepsInv(s: State, actions: seq<Action>, t: State)
    requires Inv(s) && Leads(s, actions, t)
    ensures Inv(t)
    decreases |actions|
  {
    if actions != [] {
      StepKeepsInv(s, actions[0]);
      RunKeepsInv(Step(s, actions[0]), actions[1..], t);
    }
  }

  /**
   Once, and truthfully: in every reachable state at most one external call was made, and none without its
   audit; a row says it was executed exactly when its recorded answer was that the change happened; and no
   outcome is audited without its attempt.
   */
  lemma OnceAndTruthfully(actions: seq<Action>, s: State)
    requires Leads(STAGED, actions, s)
    ensures s.confirmed <= s.calls <= |s.audits| && s.calls <= 1 && |s.audits| <= 2
    ensures s.row.state.Executed? ==> s.confirmed == 1 && s.audits == [Attempted, AuditExecuted]
    ensures s.row.state.Failed? ==> s.audits == [Attempted, AuditFailed]
    ensures s.row.state.Pending? || s.row.state.Rejected? ==> s.calls == 0 && s.audits == []
    ensures s.calls == 1 ==> s.row.result.Running? || s.row.result.Recorded?
  {
    RunKeepsInv(STAGED, actions, s);
  }

  // ---- Over and done ---------------------------------------------------------------------------------

  predicate Over(row: Row) { row.state.Rejected? || row.state.Executed? || row.state.Failed? }

  /** A row that left `approved` or was rejected never changes again, and nothing is called for it any more. */
  lemma {:induction false} OverStaysOver(s: State, actions: seq<Action>, t: State)
    requires Inv(s) && Over(s.row) && Leads(s, actions, t)
    ensures t.row == s.row && t.audits == s.audits && t.calls == s.calls
    decreases |actions|
  {
    if actions != [] {
      StepKeepsInv(s, actions[0]);
      OverStaysOver(Step(s, actions[0]), actions[1..], t);
    }
  }

  /** A row left in flight by a caller that died is never claimed, called for or settled again. */
  lemma {:induction false} StuckStaysStuck(s: State, actions: seq<Action>, t: State)
    requires Inv(s) && InFlight(s.row) && Quiet(s) && Leads(s, actions, t)
    ensures t.row == s.row && t.audits == s.audits && t.calls == s.calls && Quiet(t)
    decreases |actions|
  {
    if actions != [] {
      StepKeepsInv(s, actions[0]);
      StuckStaysStuck(Step(s, actions[0]), actions[1..], t);
    }
  }

  /** With no crash between, a claim is always settled with its own answer: nobody else can take the row over. */
  lemma {:induction false} ClaimKeepsRow(s: State, actions: seq<Action>, t: State, c: Caller)
    requires Inv(s) && InFlight(s.row) && !LocalOf(s, c).Idle? && Leads(s, actions, t)
    requires forall a <- actions :: a != Crash(c) && a != Settle(c)
    ensures InFlight(t.row) && !LocalOf(t, c).Idle? && t.audits == s.audits
    decreases |actions|
  {
    if actions != [] {
      StepKeepsInv(s, actions[0]);
      var busy :| OnlyBusy(s, busy) && Consistent(s, LocalOf(s, busy));
      assert busy == c;
      assert actions[0] in actions && forall a <- actions[1..] :: a in actions;
      ClaimKeepsRow(Step(s, actions[0]), actions[1..], t, c);
    }
  }

  // ---- One caller's execution ------------------------------------------------------------------------

  datatype Outcome = WasExecuted | WasFailed | WasRefused

  /** What one uninterrupted execution does: claim, call unless the parameters are refused, settle. */
  function Execution(c: Caller, valid: bool, ok: bool): seq<Action> {
    if valid then [Claim(c), Call(c), Answer(c, ok), Settle(c)] else [Claim(c), Refuse(c), Settle(c)]
  }

  class Actions {
    var row: Row
    var audits: seq<Audit>
    var calls: nat

    method ClaimRow() returns (claimed: bool)
      modifies this`row, this`audits
      ensures claimed <==> old(row) == Row(Approved, NoResult)
      ensures if claimed then row == Row(Approved, Running) && audits == old(audits) + [Attempted]
              else row == old(row) && audits == old(audits)
    {
      claimed := row.state.Approved? && row.result.NoResult?;
      if claimed {
        row := row.(result := Running);
        audits := audits + [Attempted];
      }
    }

    method SettleRow(ok: bool) returns (settled: bool)
      modifies this`row, this`audits
      ensures settled <==> old(row) == Row(Approved, Running)
      ensures if settled then row == Row(if ok then Executed else Failed, Recorded(ok)) && audits == old(audits) + [if ok then AuditExecuted else AuditFailed]
              else row == old(row) && audits == old(audits)
    {
      settled := row.state.Approved? && row.result.Running?;
      if settled {
        row := Row(if ok then Executed else Failed, Recorded(ok));
        audits := audits + [if ok then AuditExecuted else AuditFailed];
      }
    }

    /** The source's `executeAction`. `read` is the state the caller read before; `ok` is the external answer. */
    method ExecuteAction(read: ActionState, valid: bool, ok: bool) returns (outcome: Outcome)
      modifies this
      ensures outcome.WasRefused? <==> !(read == Approved && old(row) == Row(Approved, NoResult))
      ensures outcome.WasRefused? ==> row == old(row) && audits == old(audits) && calls == old(calls)
      ensures !outcome.WasRefused? ==>
        && calls == old(calls) + (if valid then 1 else 0)
        && row == Row(if valid && ok then Executed else Failed, Recorded(valid && ok)) && outcome == (if valid && ok then WasExecuted else WasFailed)
        && audits == old(audits) + [Attempted, if valid && ok then AuditExecuted else AuditFailed]
    {
      if !read.Approved? {
        return WasRefused;
      }
      var claimed := ClaimRow();
      if !claimed {
        return WasRefused;
      }
      var done := false;
      if valid {
        calls := calls + 1;
        done := ok;
      }
      var settled := SettleRow(done);
      return if settled && done then WasExecuted else WasFailed;
    }
  }

  /** A caller's own step makes nobody else busy. */
  lemma OthersIdle(s: State, a: Action, c: Caller)
    requires OnlyBusy(s, c) && Enabled(s, a) && !a.Decide? && a.c == c
    ensures OnlyBusy(Step(s, a), c)
  {
    forall d: Caller | d != c ensures LocalOf(Step(s, a), d).Idle? {
      assert LocalOf(s, d).Idle?;
    }
  }

  /** Once there is an answer, the last step settles the row by it and leaves nobody busy. */
  lemma SettlesBy(u: State, c: Caller, ok: bool)
    requires LocalOf(u, c) == Answered(ok) && u.row == Row(Approved, Running) && OnlyBusy(u, c)
    ensures var t := Step(u, Settle(c));
            && Leads(u, [Settle(c)], t) && Quiet(t) && t.calls == u.calls
            && t.row == Row(if ok then Executed else Failed, Recorded(ok))
            && t.audits == u.audits + [if ok then AuditExecuted else AuditFailed]
  {
    var t := Step(u, Settle(c));
    Chain(u, Settle(c), [], t);
    assert [Settle(c)] + [] == [Settle(c)];
    forall d: Caller ensures LocalOf(t, d).Idle? {
      assert d != c ==> LocalOf(u, d).Idle?;
    }
  }

  /** The method's effect is the machine's run of one caller. */
  lemma ExecutionIsRun(s: State, c: Caller, valid: bool, ok: bool) returns (t: State)
    requires Inv(s) && s.row == Row(Approved, NoResult)
    ensures Leads(s, Execution(c, valid, ok), t)
    ensures t.row == Row(if valid && ok then Executed else Failed, Recorded(valid && ok)) && Quiet(t)
    ensures t.calls == s.calls + (if valid then 1 else 0)
    ensures t.audits == s.audits + [Attempted, if valid && ok then AuditExecuted else AuditFailed]
  {
    var s1 := Step(s, Claim(c));
    OthersIdle(s, Claim(c), c);
    if valid {
      var s2 := Step(s1, Call(c));
      var s3 := Step(s2, Answer(c, ok));
      OthersIdle(s1, Call(c), c);
      OthersIdle(s2, Answer(c, ok), c);
      SettlesBy(s3, c, ok);
      t := Step(s3, Settle(c));
      Chain(s2, Answer(c, ok), [Settle(c)], t);
      Chain(s1, Call(c), [Answer(c, ok), Settle(c)], t);
      Chain(s, Claim(c), [Call(c), Answer(c, ok), Settle(c)], t);
    } else {
      var s2 := Step(s1, Refuse(c));
      OthersIdle(s1, Refuse(c), c);
      SettlesBy(s2, c, false);
      t := Step(s2, Settle(c));
      Chain(s1, Refuse(c), [Settle(c)], t);
      Chain(s, Claim(c), [Refuse(c), Settle(c)], t);
    }
  }

  lemma Chain(s: State, a: Action, rest: seq<Action>, t: State)
    requires Enabled(s, a) && Leads(Step(s, a), rest, t)
    ensures Leads(s, [a] + rest, t)
  {
    assert ([a] + rest)[1..] == rest;
  }

  // ---- The decision ----------------------------------------------------------------------------------

  /** The first decision of a run, if there is one. */
  function FirstDecision(actions: seq<Action>): Option<bool> {
    if actions == [] then None
    else if actions[0].Decide? then Some(actions[0].approve)
    else FirstDecision(actions[1..])
  }

  predicate IsLive(row: Row) { row.state == Approved || row.state == Executed || row.state == Failed }

  lemma {:induction false} LiveStaysLive(s: State, actions: seq<Action>, t: State)
    requires Inv(s) && Leads(s, actions, t) && IsLive(s.row)
    ensures IsLive(t.row)
    decreases |actions|
  {
    if actions != [] {
      StepKeepsInv(s, actions[0]);
      LiveStaysLive(Step(s, actions[0]), actions[1..], t);
    }
  }

  lemma {:induction false} RejectedStays(s: State, actions: seq<Action>, t: State)
    requires Inv(s) && Leads(s, actions, t) && s.row.state == Rejected
    ensures t.row == s.row && t.calls == s.calls && t.audits == s.audits
    decreases |actions|
  {
    if actions != [] {
      StepKeepsInv(s, actions[0]);
      RejectedStays(Step(s, actions[0]), actions[1..], t);
    }
  }

  /** Over every run the first decision stands: nothing is called or recorded before it, or ever if it was to reject. */
  lemma {:induction false} FirstDecisionStands(s: State, actions: seq<Action>, t: State)
    requires Inv(s) && s.row == Row(Pending, NoResult) && Leads(s, actions, t)
    ensures match FirstDecision(actions)
            case None => t.row == Row(Pending, NoResult) && t.calls == 0 && t.audits == []
            case Some(approve) => if approve then IsLive(t.row) else t.row == Row(Rejected, NoResult) && t.calls == 0 && t.audits == []
    decreases |actions|
  {
    if actions != [] {
      var next := Step(s, actions[0]);
      StepKeepsInv(s, actions[0]);
      if actions[0].Decide? {
        if actions[0].approve {
          LiveStaysLive(next, actions[1..], t);
        } else {
          RejectedStays(next, actions[1..], t);
        }
      } else {
        FirstDecisionStands(next, actions[1..], t);
      }
    }
  }
}
