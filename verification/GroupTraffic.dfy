/**
 A pruning membership sync beside message traffic: the sync's database operations and the messages of its groups, in
 any order. A sync that fails stops, so it is a run that ends early.
 */
module GroupTraffic {
  import opened GroupMerge
  import opened GroupSync
  import opened Wrappers

  datatype Message = Message(jid: string, at: Time)

  /** What the sync works on: its stamps, the rows it loaded and the answer of the bridge. */
  datatype Plan = Plan(sync: Sync, before: Rows, snapshots: seq<Snapshot>)

  datatype Phase = Upserting(done: nat) | Marking(baseline: seq<string>, done: nat)

  /** History: the messages so far, how many of them came before the baseline was read, and the marks. */
  datatype State = State(rows: Rows, phase: Phase, traffic: seq<Message>, earlier: nat, marks: map<string, Time>)

  datatype Action = UpsertNext | ReadBaseline(jids: seq<string>) | MarkNext(at: Time) | Receive(message: Message)

  function Start(plan: Plan): State {
    State(plan.before, Upserting(0), [], 0, map[])
  }

  predicate Enabled(plan: Plan, s: State, a: Action) {
    match a
    case UpsertNext => s.phase.Upserting? && s.phase.done < |plan.snapshots|
    case ReadBaseline(jids) =>
      s.phase == Upserting(|plan.snapshots|) && Lists(jids, set jid <- s.rows | !Gone(s.rows[jid]))
    case MarkNext(_) => s.phase.Marking? && s.phase.done < |s.phase.baseline|
    case Receive(_) => true
  }

  function Step(plan: Plan, s: State, a: Action): State
    requires Enabled(plan, s, a)
  {
    match a
    case UpsertNext =>
      var e := plan.snapshots[s.phase.done];
      s.(rows := s.rows[e.jid := UpsertedRow(plan, s.rows, e)], phase := Upserting(s.phase.done + 1))
    case ReadBaseline(jids) => s.(phase := Marking(jids, 0), earlier := |s.traffic|)
    case MarkNext(at) =>
      var jid := s.phase.baseline[s.phase.done];
      var next := s.(phase := Marking(s.phase.baseline, s.phase.done + 1));
      if LastOf(plan.snapshots, jid).Some? then next
      else next.(rows := MarkRow(s.rows, jid, at), marks := s.marks[jid := at])
    case Receive(m) => s.(rows := s.rows[m.jid := TouchRow(RowOf(s.rows, m.jid), m.at)], traffic := s.traffic + [m])
  }

  function UpsertedRow(plan: Plan, rows: Rows, e: Snapshot): Group {
    UpsertRow(RowOf(rows, e.jid), Merged(plan.sync.fold, StoredOf(plan.before, e.jid), e, plan.sync.source, plan.sync.at), true)
  }

  predicate Leads(plan: Plan, s: State, actions: seq<Action>, t: State)
    decreases |actions|
  {
    if actions == [] then s == t
    else Enabled(plan, s, actions[0]) && Leads(plan, Step(plan, s, actions[0]), actions[1..], t)
  }

  // ---- What the messages make of one row -------------------------------------------------------------

  /** A group's row after some traffic. */
  function Touched(row: Option<Group>, traffic: seq<Message>, jid: string): Option<Group> {
    if traffic == [] then row
    else
      var earlier, m := Touched(row, traffic[..|traffic| - 1], jid), traffic[|traffic| - 1];
      if m.jid == jid then Some(TouchRow(earlier, m.at)) else earlier
  }

  /** How many of the messages are a group's. */
  function MessagesOf(traffic: seq<Message>, jid: string): nat {
    if traffic == [] then 0
    else MessagesOf(traffic[..|traffic| - 1], jid) + if traffic[|traffic| - 1].jid == jid then 1 else 0
  }

  /** Traffic counts its messages and leaves a known group where it was; one it makes known is active. */
  lemma {:induction false} TrafficCounts(row: Option<Group>, traffic: seq<Message>, jid: string)
    ensures Touched(row, traffic, jid).Some? <==> row.Some? || MessagesOf(traffic, jid) > 0
    ensures row.Some? ==> var g := Touched(row, traffic, jid).value;
                          && g.observed.messageCount == row.value.observed.messageCount + MessagesOf(traffic, jid)
                          && g.observed.state == row.value.observed.state && g.config == row.value.config
    ensures row.None? && MessagesOf(traffic, jid) > 0 ==> var g := Touched(row, traffic, jid).value;
                          g.observed.messageCount == MessagesOf(traffic, jid) && g.observed.state.Active?
    decreases |traffic|
  {
    if traffic != [] {
      TrafficCounts(row, traffic[..|traffic| - 1], jid);
    }
  }

  lemma TouchedNext(row: Option<Group>, traffic: seq<Message>, m: Message, jid: string)
    ensures Touched(row, traffic + [m], jid) ==
            if m.jid == jid then Some(TouchRow(Touched(row, traffic, jid), m.at)) else Touched(row, traffic, jid)
  {
    assert (traffic + [m])[..|traffic|] == traffic;
  }

  /** An upsert after the traffic leaves what the traffic leaves after the upsert. */
  lemma {:induction false} UpsertAfterTraffic(row: Option<Group>, traffic: seq<Message>, jid: string, o: Observed)
    ensures Some(UpsertRow(Touched(row, traffic, jid), o, true)) == Touched(Some(UpsertRow(row, o, true)), traffic, jid)
    decreases |traffic|
  {
    if traffic != [] {
      var m := traffic[|traffic| - 1];
      UpsertAfterTraffic(row, traffic[..|traffic| - 1], jid, o);
      UpsertCommutes(Touched(row, traffic[..|traffic| - 1], jid), o, m.at, DEFAULT);
    }
  }

  // ---- The invariant ---------------------------------------------------------------------------------

  function Handled(plan: Plan, s: State): seq<Snapshot> {
    if s.phase.Upserting? && s.phase.done <= |plan.snapshots| then plan.snapshots[..s.phase.done] else plan.snapshots
  }

  /** The row the sync alone would have left so far, and all traffic on it, whenever it came. */
  predicate RowIs(plan: Plan, s: State, jid: string) {
    match LastOf(Handled(plan, s), jid)
    case Some(e) => RowOf(s.rows, jid) == Touched(Some(SyncedRow(plan.sync, plan.before, e)), s.traffic, jid) && jid !in s.marks
    case None =>
      var row := Touched(RowOf(plan.before, jid), s.traffic, jid);
      if jid in s.marks then row.Some? && RowOf(s.rows, jid) == Some(LeftRow(row.value, s.marks[jid]))
      else RowOf(s.rows, jid) == row
  }

  /** The baseline lists the unmentioned groups known as joined when it was read, and the marks are its first part. */
  predicate MarksAre(plan: Plan, s: State, jid: string) {
    match s.phase
    case Upserting(_) => jid !in s.marks
    case Marking(baseline, done) =>
      && done <= |baseline| && s.earlier <= |s.traffic|
      && (LastOf(plan.snapshots, jid).None? ==> (jid in baseline <==> Joined(plan, s.traffic[..s.earlier], jid)))
      && (jid in s.marks <==> jid in baseline[..done] && LastOf(plan.snapshots, jid).None?)
  }

  /** The group was stored and not left, or traffic has made it known. */
  predicate Joined(plan: Plan, traffic: seq<Message>, jid: string) {
    if jid in plan.before then !Gone(plan.before[jid]) else MessagesOf(traffic, jid) > 0
  }

  ghost predicate Inv(plan: Plan, s: State) {
    && (s.phase.Upserting? ==> s.phase.done <= |plan.snapshots|)
    && forall jid :: RowIs(plan, s, jid) && MarksAre(plan, s, jid)
  }

  lemma StartOk(plan: Plan)
    ensures Inv(plan, Start(plan))
  {
    assert plan.snapshots[..0] == [];
  }

  lemma UpsertKeeps(plan: Plan, s: State, jid: string)
    requires Inv(plan, s) && Enabled(plan, s, UpsertNext)
    ensures RowIs(plan, Step(plan, s, UpsertNext), jid)
  {
    var k := s.phase.done;
    var e := plan.snapshots[k];
    assert plan.snapshots[..k + 1] == plan.snapshots[..k] + [e] && (plan.snapshots[..k] + [e])[..k] == plan.snapshots[..k];
    assert RowIs(plan, s, jid) && MarksAre(plan, s, jid);
    if jid == e.jid {
      var o := Merged(plan.sync.fold, StoredOf(plan.before, jid), e, plan.sync.source, plan.sync.at);
      match LastOf(plan.snapshots[..k], jid)
      case Some(l) =>
        LastIsOf(plan.snapshots[..k], jid);
        UpsertAfterTraffic(Some(SyncedRow(plan.sync, plan.before, l)), s.traffic, jid, o);
      case None => UpsertAfterTraffic(RowOf(plan.before, jid), s.traffic, jid, o);
    }
  }

  lemma ReadKeeps(plan: Plan, s: State, jids: seq<string>, jid: string)
    requires Inv(plan, s) && Enabled(plan, s, ReadBaseline(jids))
    ensures RowIs(plan, Step(plan, s, ReadBaseline(jids)), jid) && MarksAre(plan, Step(plan, s, ReadBaseline(jids)), jid)
  {
    assert RowIs(plan, s, jid) && MarksAre(plan, s, jid);
    assert plan.snapshots[..|plan.snapshots|] == plan.snapshots && s.traffic[..|s.traffic|] == s.traffic;
    TrafficCounts(RowOf(plan.before, jid), s.traffic, jid);
    assert jid in jids <==> jid in (set j <- s.rows | !Gone(s.rows[j]));
  }

  lemma MarkKeeps(plan: Plan, s: State, at: Time, jid: string)
    requires Inv(plan, s) && Enabled(plan, s, MarkNext(at)) && ListedOnce(s)
    ensures RowIs(plan, Step(plan, s, MarkNext(at)), jid) && MarksAre(plan, Step(plan, s, MarkNext(at)), jid)
  {
    var k := s.phase.done;
    var one := s.phase.baseline[k];
    assert s.phase.baseline[..k + 1] == s.phase.baseline[..k] + [one];
    assert RowIs(plan, s, jid) && MarksAre(plan, s, jid);
    if jid == one && LastOf(plan.snapshots, jid).None? {
      assert Joined(plan, s.traffic[..s.earlier], jid);
      EarlierCounts(s.traffic, s.earlier, jid);
      TrafficCounts(RowOf(plan.before, jid), s.traffic, jid);
    }
  }

  predicate ListedOnce(s: State) {
    s.phase.Marking? ==> forall i, j :: 0 <= i < j < |s.phase.baseline| ==> s.phase.baseline[i] != s.phase.baseline[j]
  }

  lemma {:induction false} EarlierCounts(traffic: seq<Message>, n: nat, jid: string)
    requires n <= |traffic|
    ensures MessagesOf(traffic[..n], jid) <= MessagesOf(traffic, jid)
    decreases |traffic|
  {
    if n < |traffic| {
      assert traffic[..|traffic| - 1][..n] == traffic[..n];
      EarlierCounts(traffic[..|traffic| - 1], n, jid);
    } else {
      assert traffic[..n] == traffic;
    }
  }

  lemma ReceiveKeeps(plan: Plan, s: State, m: Message, jid: string)
    requires Inv(plan, s)
    ensures RowIs(plan, Step(plan, s, Receive(m)), jid) && MarksAre(plan, Step(plan, s, Receive(m)), jid)
  {
    assert RowIs(plan, s, jid) && MarksAre(plan, s, jid);
    if s.phase.Marking? {
      assert (s.traffic + [m])[..s.earlier] == s.traffic[..s.earlier];
    }
    TouchedNext(RowOf(plan.before, jid), s.traffic, m, jid);
    match LastOf(Handled(plan, s), jid)
    case Some(e) => TouchedNext(Some(SyncedRow(plan.sync, plan.before, e)), s.traffic, m, jid);
    case None =>
  }

  lemma StepKeepsInv(plan: Plan, s: State, a: Action)
    requires Inv(plan, s) && ListedOnce(s) && Enabled(plan, s, a)
    ensures Inv(plan, Step(plan, s, a)) && ListedOnce(Step(plan, s, a))
  {
    var t := Step(plan, s, a);
    forall jid ensures RowIs(plan, t, jid) && MarksAre(plan, t, jid) {
      match a
      case UpsertNext => UpsertKeeps(plan, s, jid); assert MarksAre(plan, s, jid);
      case ReadBaseline(jids) => ReadKeeps(plan, s, jids, jid);
      case MarkNext(at) => MarkKeeps(plan, s, at, jid);
      case Receive(m) => ReceiveKeeps(plan, s, m, jid);
    }
  }

  lemma {:induction false} RunKeepsInv(plan: Plan, s: State, actions: seq<Action>, t: State)
    requires Inv(plan, s) && ListedOnce(s) && Leads(plan, s, actions, t)
    ensures Inv(plan, t)
    decreases |actions|
  {
    if actions != [] {
      StepKeepsInv(plan, s, actions[0]);
      RunKeepsInv(plan, Step(plan, s, actions[0]), actions[1..], t);
    }
  }

  // ---- What a finished sync leaves -------------------------------------------------------------------

  predicate Finished(s: State) { s.phase.Marking? && s.phase.done == |s.phase.baseline| }

  /** The rows and traffic of one group once the sync is through. */
  ghost predicate Outcome(plan: Plan, s: State, jid: string) {
    match LastOf(plan.snapshots, jid)
    case Some(e) => RowOf(s.rows, jid) == Touched(Some(SyncedRow(plan.sync, plan.before, e)), s.traffic, jid)
    case None =>
      var row := Touched(RowOf(plan.before, jid), s.traffic, jid);
      if s.earlier <= |s.traffic| && Joined(plan, s.traffic[..s.earlier], jid)
      then row.Some? && jid in s.rows && s.rows[jid] == LeftRow(row.value, s.rows[jid].observed.leftDetectedAt)
      else RowOf(s.rows, jid) == row
  }

  /**
   Whatever messages come in between the sync's operations, each group ends as the sync alone would have left it with
   all its messages counted on top, wherever they fell; and a group the answer does not mention is marked left exactly
   when it was stored and not left before, or a message made it known before the baseline was read.
   */
  lemma TrafficIsKept(plan: Plan, actions: seq<Action>, s: State, jid: string)
    requires Leads(plan, Start(plan), actions, s) && Finished(s)
    ensures Outcome(plan, s, jid)
  {
    StartOk(plan);
    RunKeepsInv(plan, Start(plan), actions, s);
    assert RowIs(plan, s, jid) && MarksAre(plan, s, jid);
    assert s.phase.baseline[..s.phase.done] == s.phase.baseline;
  }

  /**
   A group nobody knew, which the answer does not mention, is left behind as left although it was just heard of,
   exactly when a message of it came while the sync ran and before it read its baseline; heard of only after that it is
   active, and not heard of it is not stored. Its messages are counted all the same.
   */
  lemma NewGroupIsLeft(plan: Plan, actions: seq<Action>, s: State, jid: string)
    requires Leads(plan, Start(plan), actions, s) && Finished(s)
    requires jid !in plan.before && LastOf(plan.snapshots, jid).None?
    ensures jid in s.rows <==> MessagesOf(s.traffic, jid) > 0
    ensures s.earlier <= |s.traffic|
    ensures jid in s.rows && Gone(s.rows[jid]) <==> MessagesOf(s.traffic[..s.earlier], jid) > 0
    ensures jid in s.rows ==> s.rows[jid].observed.messageCount == MessagesOf(s.traffic, jid)
  {
    StartOk(plan);
    RunKeepsInv(plan, Start(plan), actions, s);
    TrafficIsKept(plan, actions, s, jid);
    assert MarksAre(plan, s, jid);
    EarlierCounts(s.traffic, s.earlier, jid);
    TrafficCounts(None, s.traffic, jid);
  }

  /** Without traffic that is the result of the sync alone. */
  lemma QuietSync(plan: Plan, actions: seq<Action>, s: State)
    requires Leads(plan, Start(plan), actions, s) && Finished(s) && s.traffic == []
    ensures SyncResult(plan.sync, plan.before, s.rows, plan.snapshots, true)
  {
    forall jid ensures RowAfter(plan.sync, plan.before, s.rows, plan.snapshots, true, jid) {
      TrafficIsKept(plan, actions, s, jid);
      StartOk(plan);
      RunKeepsInv(plan, Start(plan), actions, s);
      assert MarksAre(plan, s, jid);
    }
  }

  // ---- A sync can always be finished -----------------------------------------------------------------

  lemma {:induction false} ListingOf(elements: set<string>) returns (list: seq<string>)
    ensures Lists(list, elements)
    decreases |elements|
  {
    if elements == {} {
      return [];
    }
    var e :| e in elements;
    var rest := ListingOf(elements - {e});
    list := rest + [e];
  }

  lemma StartsWith(plan: Plan, s: State, a: Action, rest: seq<Action>, t: State)
    requires Enabled(plan, s, a) && Leads(plan, Step(plan, s, a), rest, t)
    ensures Leads(plan, s, [a] + rest, t)
  {
    assert ([a] + rest)[1..] == rest;
  }

  lemma {:induction false} MarksFinish(plan: Plan, s: State) returns (actions: seq<Action>, t: State)
    requires s.phase.Marking? && s.phase.done <= |s.phase.baseline|
    ensures Leads(plan, s, actions, t) && Finished(t) && t.traffic == s.traffic
    decreases |s.phase.baseline| - s.phase.done
  {
    if s.phase.done == |s.phase.baseline| {
      return [], s;
    }
    var rest;
    rest, t := MarksFinish(plan, Step(plan, s, MarkNext(0)));
    StartsWith(plan, s, MarkNext(0), rest, t);
    actions := [MarkNext(0)] + rest;
  }

  /** From any point on, whatever messages came before, the sync's own operations finish it. */
  lemma {:induction false} SyncFinishes(plan: Plan, s: State) returns (actions: seq<Action>, t: State)
    requires s.phase.Upserting? && s.phase.done <= |plan.snapshots|
    ensures Leads(plan, s, actions, t) && Finished(t) && t.traffic == s.traffic
    decreases |plan.snapshots| - s.phase.done
  {
    var a, rest := UpsertNext, [];
    if s.phase.done < |plan.snapshots| {
      rest, t := SyncFinishes(plan, Step(plan, s, a));
    } else {
      var list := ListingOf(set jid <- s.rows | !Gone(s.rows[jid]));
      a := ReadBaseline(list);
      rest, t := MarksFinish(plan, Step(plan, s, a));
    }
    StartsWith(plan, s, a, rest, t);
    actions := [a] + rest;
  }
}
