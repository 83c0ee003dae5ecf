/**
 One full membership sync of an instance: every returned group is merged and upserted, then the groups the
 answer does not mention are marked left. Any database operation may fail, and a failed write may still have
 taken effect.
 */
module GroupSync {
  import opened GroupMerge
  import opened Wrappers

  /** The console's half of a group's row. */
  datatype Config = Config(
    isAssigned: bool, isWhitelisted: bool, configVersion: int, active: bool, notes: string, tags: seq<string>)

  const DEFAULT: Config := Config(false, false, 0, true, "", [])

  datatype Group = Group(observed: Observed, config: Config)

  type Rows = map<string, Group>

  datatype Entry = Entry(jid: string, subject: string, announce: bool, locked: bool, participantCount: int)

  datatype Fate = Done | Failed | FailedAfterwards

  datatype Write = Upserted(jid: string) | Marked(jid: string)

  predicate Gone(g: Group) { g.observed.state.Left? || g.observed.state.Deleted? }

  /** What an upsert leaves: the traffic counters and the console's half are not written. */
  function UpsertRow(row: Option<Group>, o: Observed, fromSync: bool): Group {
    match row
    case None => Group(if fromSync then o.(lastActivityAt := 0, messageCount := 0, mediaStored := 0)
                       else o.(lastActivityAt := 0, messageCount := 0, mediaStored := 0, lastSyncedAt := 0, lastSyncSource := NeverSynced),
                       DEFAULT)
    case Some(g) =>
      var kept := o.(lastActivityAt := g.observed.lastActivityAt, messageCount := g.observed.messageCount,
                     mediaStored := g.observed.mediaStored);
      g.(observed := if fromSync then kept
                     else kept.(lastSyncedAt := g.observed.lastSyncedAt, lastSyncSource := g.observed.lastSyncSource))
  }

  /** The metadata of an observation, which is neither traffic nor a sync stamp. */
  predicate SameMetadata(a: Observed, b: Observed) {
    && a.subject == b.subject && a.subjectSearch == b.subjectSearch && a.subjectUpdatedAt == b.subjectUpdatedAt
    && a.subjectObservedAt == b.subjectObservedAt && a.subjectSetBy == b.subjectSetBy && a.subjectSetByLid == b.subjectSetByLid
    && a.subjectSource == b.subjectSource && a.subjectHistory == b.subjectHistory && a.topic == b.topic
    && a.topicUpdatedAt == b.topicUpdatedAt && a.isAnnounce == b.isAnnounce && a.isLocked == b.isLocked
    && a.isEphemeral == b.isEphemeral && a.isDefaultSubGroup == b.isDefaultSubGroup
    && a.participantCount == b.participantCount && a.participantCountDirty == b.participantCountDirty
    && a.members == b.members && a.groupCreatedAt == b.groupCreatedAt && a.state == b.state && a.leftDetectedAt == b.leftDetectedAt
  }

  predicate SameTraffic(a: Observed, b: Observed) {
    a.lastActivityAt == b.lastActivityAt && a.messageCount == b.messageCount && a.mediaStored == b.mediaStored
  }

  predicate SameStamps(a: Observed, b: Observed) {
    a.lastSyncedAt == b.lastSyncedAt && a.lastSyncSource == b.lastSyncSource
  }

  /** A new group has no traffic and has the console's defaults: active, and nothing else. */
  predicate IsNew(g: Group) {
    && SameTraffic(g.observed, UNSEEN)
    && !g.config.isAssigned && !g.config.isWhitelisted && g.config.configVersion == 0 && g.config.active
    && g.config.notes == "" && g.config.tags == []
  }

  /** An observation's metadata is written, and only a sync's stamps; traffic and configuration stay as they were. */
  predicate Observes(row: Option<Group>, o: Observed, fromSync: bool, g: Group) {
    && SameMetadata(g.observed, o)
    && (fromSync ==> SameStamps(g.observed, o))
    && match row
       case None => IsNew(g) && (!fromSync ==> SameStamps(g.observed, UNSEEN))
       case Some(stored) =>
         && SameTraffic(g.observed, stored.observed) && g.config == stored.config
         && (!fromSync ==> SameStamps(g.observed, stored.observed))
  }

  lemma UpsertObserves(row: Option<Group>, o: Observed, fromSync: bool)
    ensures Observes(row, o, fromSync, UpsertRow(row, o, fromSync))
  {
  }

  /** What one message leaves: a group first seen through it gets a placeholder row. */
  function TouchRow(row: Option<Group>, at: Time): Group {
    var g := if row.Some? then row.value
             else Group(UNSEEN.(state := Active, subjectSource := FromFallback), DEFAULT);
    g.(observed := g.observed.(lastActivityAt := at, messageCount := g.observed.messageCount + 1))
  }

  /** A sync's write commutes with traffic and with the console's edits, so neither is ever lost. */
  lemma UpsertCommutes(row: Option<Group>, o: Observed, at: Time, config: Config)
    ensures UpsertRow(Some(TouchRow(row, at)), o, true) == TouchRow(Some(UpsertRow(row, o, true)), at)
    ensures row.Some? ==> UpsertRow(Some(row.value.(config := config)), o, true) == UpsertRow(row, o, true).(config := config)
  {
    if row.None? {
      assert UpsertRow(row, o, true).observed.messageCount == 0;
    }
  }

  /** The account left the group: only the state and the time it was noticed change. */
  function LeftRow(g: Group, at: Time): Group {
    g.(observed := g.observed.(state := Left, leftDetectedAt := at))
  }

  /** The group is left since some time; its name, traffic, stamps and configuration are as they were. */
  predicate LeftOnly(before: Group, after: Group) {
    && after.observed.state == Left
    && SameMetadata(before.observed.(state := Left, leftDetectedAt := after.observed.leftDetectedAt), after.observed)
    && SameTraffic(before.observed, after.observed) && SameStamps(before.observed, after.observed)
    && after.config == before.config
  }

  /** The update of one group, which must be known. */
  function MarkRow(rows: Rows, jid: string, at: Time): Rows {
    if jid in rows then rows[jid := LeftRow(rows[jid], at)] else rows
  }

  function RowOf(rows: Rows, jid: string): Option<Group> {
    if jid in rows then Some(rows[jid]) else None
  }

  function StoredOf(rows: Rows, jid: string): Observed {
    if jid in rows then rows[jid].observed else UNSEEN
  }

  class GroupStore {
    var rows: Rows
    var operations: nat
    const fate: nat -> Fate
    const clock: nat -> Time
    ghost var log: seq<Write>

    method Next() returns (f: Fate, at: Time)
      modifies this`operations
    {
      f, at := fate(operations), clock(operations);
      operations := operations + 1;
    }

    method LoadObserved() returns (stored: Option<map<string, Observed>>)
      modifies this`operations
      ensures stored.Some? ==> stored.value == map jid | jid in rows :: rows[jid].observed
    {
      var f, at := Next();
      if !f.Done? {
        return None;
      }
      return Some(map jid | jid in rows :: rows[jid].observed);
    }

    /** Writes one observation; an unknown group gets a new row. */
    method UpsertObserved(jid: string, observed: Observed, fromSync: bool) returns (ok: bool)
      modifies this
      ensures ok ==> log == old(log) + [Upserted(jid)]
      ensures if log == old(log) then rows == old(rows)
              else log == old(log) + [Upserted(jid)] && rows == old(rows)[jid := UpsertRow(RowOf(old(rows), jid), observed, fromSync)]
      ensures log != old(log) ==> jid in rows && Observes(RowOf(old(rows), jid), observed, fromSync, rows[jid])
    {
      var f, at := Next();
      if f.Failed? {
        return false;
      }
      UpsertObserves(RowOf(rows, jid), observed, fromSync);
      rows := rows[jid := UpsertRow(RowOf(rows, jid), observed, fromSync)];
      log := log + [Upserted(jid)];
      return f.Done?;
    }

    method MarkLeft(jid: string) returns (ok: bool)
      modifies this
      ensures ok ==> log == old(log) + [Marked(jid)]
      ensures if log == old(log) then rows == old(rows)
              else log == old(log) + [Marked(jid)] && (exists at :: rows == MarkRow(old(rows), jid, at))
      ensures rows.Keys == old(rows).Keys && forall other <- rows :: other != jid ==> rows[other] == old(rows)[other]
      ensures log != old(log) && jid in rows ==> LeftOnly(old(rows)[jid], rows[jid])
    {
      var f, at := Next();
      if f.Failed? {
        return false;
      }
      rows := MarkRow(rows, jid, at);
      log := log + [Marked(jid)];
      return f.Done?;
    }

    /** The groups the instance is still believed to be in, in any order. */
    method KnownGroupJids() returns (jids: Option<seq<string>>)
      modifies this`operations
      ensures jids.Some? ==> Lists(jids.value, set jid <- rows | !Gone(rows[jid]))
    {
      var stored := LoadObserved();
      if stored.None? {
        return None;
      }
      var known: seq<string> := [];
      var rest := stored.value.Keys;
      while rest != {}
        invariant rest <= rows.Keys
        invariant Lists(known, set jid <- rows.Keys - rest | !Gone(rows[jid]))
        decreases |rest|
      {
        var jid :| jid in rest;
        ghost var before := set jid <- rows.Keys - rest | !Gone(rows[jid]);
        rest := rest - {jid};
        ghost var after := set jid <- rows.Keys - rest | !Gone(rows[jid]);
        var state := stored.value[jid].state;
        if !state.Left? && !state.Deleted? {
          assert after == before + {jid};
          known := known + [jid];
        } else {
          assert after == before;
        }
      }
      assert rows.Keys - rest == rows.Keys;
      assert (set jid <- rows.Keys - rest | !Gone(rows[jid])) == (set jid <- rows | !Gone(rows[jid]));
      return Some(known);
    }

    method CountLeft() returns (count: Option<nat>)
      modifies this`operations
      ensures count.Some? ==> count.value == |set jid <- rows | Gone(rows[jid])|
    {
      var f, at := Next();
      if !f.Done? {
        return None;
      }
      return Some(|set jid <- rows | Gone(rows[jid])|);
    }
  }

  /** A set's elements, each once. */
  predicate Lists(list: seq<string>, elements: set<string>) {
    && (forall i, j :: 0 <= i < j < |list| ==> list[i] != list[j])
    && (forall i :: 0 <= i < |list| ==> list[i] in elements)
    && (forall e <- elements :: e in list)
  }

  // ---- What a sync makes of the rows -----------------------------------------------------------------

  /** The snapshot of a returned entry, when its address is a group's. `parse` is the library's address parser. */
  function SnapshotOf(parse: string -> Option<string>, e: Entry): Option<Snapshot> {
    match parse(e.jid)
    case None => None
    case Some(jid) => Some(Snapshot(jid, e.subject, e.announce, e.locked, e.participantCount))
  }

  function Snapshots(parse: string -> Option<string>, entries: seq<Entry>): (snapshots: seq<Snapshot>)
    ensures |snapshots| <= |entries|
  {
    if entries == [] then []
    else
      var n := |entries| - 1;
      var s := SnapshotOf(parse, entries[n]);
      Snapshots(parse, entries[..n]) + if s.Some? then [s.value] else []
  }

  /** The last thing the answer says about a group. */
  function LastOf(snapshots: seq<Snapshot>, jid: string): Option<Snapshot> {
    if snapshots == [] then None
    else if snapshots[|snapshots| - 1].jid == jid then Some(snapshots[|snapshots| - 1])
    else LastOf(snapshots[..|snapshots| - 1], jid)
  }

  datatype Sync = Sync(fold: string -> string, source: SyncSource, at: Time)

  /** A returned group's row after the upserts. */
  function SyncedRow(sync: Sync, before: Rows, e: Snapshot): Group {
    UpsertRow(RowOf(before, e.jid), Merged(sync.fold, StoredOf(before, e.jid), e, sync.source, sync.at), true)
  }

  /** The upserts of these snapshots and nothing else were made. */
  ghost predicate Synced(sync: Sync, before: Rows, after: Rows, snapshots: seq<Snapshot>) {
    forall jid :: RowOf(after, jid) == match LastOf(snapshots, jid)
                                       case None => RowOf(before, jid)
                                       case Some(e) => Some(SyncedRow(sync, before, e))
  }

  lemma SyncedNext(sync: Sync, before: Rows, after: Rows, snapshots: seq<Snapshot>, e: Snapshot)
    requires Synced(sync, before, after, snapshots)
    ensures Synced(sync, before, after[e.jid := SyncedRow(sync, before, e)], snapshots + [e])
  {
    var later := after[e.jid := SyncedRow(sync, before, e)];
    assert (snapshots + [e])[..|snapshots|] == snapshots;
    forall jid ensures RowOf(later, jid) == match LastOf(snapshots + [e], jid)
                                             case None => RowOf(before, jid)
                                             case Some(e) => Some(SyncedRow(sync, before, e))
    {
      assert RowOf(later, jid) == if jid == e.jid then Some(SyncedRow(sync, before, e)) else RowOf(after, jid);
    }
  }

  /** Upserting over a row this sync already wrote leaves the same as over the row it found: counters are kept. */
  lemma UpsertAgain(sync: Sync, before: Rows, after: Rows, snapshots: seq<Snapshot>, e: Snapshot)
    requires Synced(sync, before, after, snapshots)
    ensures UpsertRow(RowOf(after, e.jid), Merged(sync.fold, StoredOf(before, e.jid), e, sync.source, sync.at), true) ==
            SyncedRow(sync, before, e)
  {
    assert RowOf(after, e.jid) == match LastOf(snapshots, e.jid)
                                  case None => RowOf(before, e.jid)
                                  case Some(l) => Some(SyncedRow(sync, before, l));
    LastIsOf(snapshots, e.jid);
  }

  lemma LastIsOf(snapshots: seq<Snapshot>, jid: string)
    ensures LastOf(snapshots, jid).Some? ==> LastOf(snapshots, jid).value.jid == jid && LastOf(snapshots, jid).value in snapshots
    ensures LastOf(snapshots, jid).None? ==> forall e <- snapshots :: e.jid != jid
  {
    if snapshots != [] {
      LastIsOf(snapshots[..|snapshots| - 1], jid);
      assert snapshots == snapshots[..|snapshots| - 1] + [snapshots[|snapshots| - 1]];
    }
  }

  // ---- The report ------------------------------------------------------------------------------------

  datatype Kind = Added | SubjectUpdated | MetadataUpdated | Unchanged

  function KindOf(before: Rows, e: Snapshot): Kind {
    var changes := Changes(StoredOf(before, e.jid), e);
    if e.jid !in before then Added
    else if SubjectChange in changes then SubjectUpdated
    else if changes != [] then MetadataUpdated
    else Unchanged
  }

  /** What the kinds of the report mean for the row: new, renamed, otherwise changed, or only stamped. */
  lemma KindTells(sync: Sync, before: Rows, e: Snapshot)
    ensures KindOf(before, e) == Added <==> e.jid !in before
    ensures e.jid in before ==>
              var (was, now) := (before[e.jid].observed, SyncedRow(sync, before, e).observed);
              && (KindOf(before, e) == SubjectUpdated <==> now.subject != was.subject || now.subjectSource != was.subjectSource)
              && (KindOf(before, e) == Unchanged <==> now == was.(lastSyncedAt := sync.at, lastSyncSource := sync.source))
  {
    if e.jid in before {
      var merged := Merged(sync.fold, before[e.jid].observed, e, sync.source, sync.at);
      assert SyncedRow(sync, before, e).observed == merged;
      ReportsName(sync.fold, before[e.jid].observed, e, sync.source, sync.at);
      ReportsEveryChange(sync.fold, before[e.jid].observed, e, sync.source, sync.at);
    }
  }

  function CountOf(before: Rows, snapshots: seq<Snapshot>, kind: Kind): nat {
    if snapshots == [] then 0
    else
      var n := |snapshots| - 1;
      CountOf(before, snapshots[..n], kind) + if KindOf(before, snapshots[n]) == kind then 1 else 0
  }

  datatype Summary = Summary(
    total: nat, added: nat, subjectUpdated: nat, metadataUpdated: nat, markedLeft: nat, subjectRejected: nat,
    same: nat, groupsLeft: nat)

  const NOTHING: Summary := Summary(0, 0, 0, 0, 0, 0, 0, 0)

  /** The report counts every snapshot once, by what it changed. */
  predicate Tallies(summary: Summary, before: Rows, snapshots: seq<Snapshot>) {
    && summary.total == |snapshots|
    && summary.added == CountOf(before, snapshots, Added)
    && summary.subjectUpdated == CountOf(before, snapshots, SubjectUpdated)
    && summary.metadataUpdated == CountOf(before, snapshots, MetadataUpdated)
    && summary.same == CountOf(before, snapshots, Unchanged)
    && summary.subjectRejected == 0
  }

  lemma {:induction false} TotalIsSum(before: Rows, snapshots: seq<Snapshot>)
    ensures |snapshots| == CountOf(before, snapshots, Added) + CountOf(before, snapshots, SubjectUpdated)
                           + CountOf(before, snapshots, MetadataUpdated) + CountOf(before, snapshots, Unchanged)
  {
    if snapshots != [] {
      TotalIsSum(before, snapshots[..|snapshots| - 1]);
    }
  }

  function Upserts(snapshots: seq<Snapshot>): (writes: seq<Write>)
    ensures |writes| == |snapshots|
    ensures forall i :: 0 <= i < |writes| ==> writes[i] == Upserted(snapshots[i].jid)
  {
    seq(|snapshots|, i requires 0 <= i < |snapshots| => Upserted(snapshots[i].jid))
  }

  predicate AllMarked(writes: seq<Write>) {
    forall i :: 0 <= i < |writes| ==> writes[i].Marked?
  }

  /** Upserts in the order of the answer; marks only once all of them were made. */
  predicate InOrder(writes: seq<Write>, snapshots: seq<Snapshot>) {
    || (|writes| <= |snapshots| && writes == Upserts(snapshots[..|writes|]))
    || (|writes| > |snapshots| && writes[..|snapshots|] == Upserts(snapshots) && AllMarked(writes[|snapshots|..]))
  }

  // ---- The sync --------------------------------------------------------------------------------------

  /** The sync has upserted and tallied exactly these snapshots. */
  ghost predicate Done(sync: Sync, before: Rows, rows: Rows, log: seq<Write>, logged: seq<Write>, summary: Summary, snapshots: seq<Snapshot>) {
    && Tallies(summary, before, snapshots) && summary.markedLeft == 0
    && Synced(sync, before, rows, snapshots)
    && logged == log + Upserts(snapshots)
  }

  function Tallied(so: Summary, isStored: bool, changes: seq<Change>): Summary {
    var summary := so.(total := so.total + 1);
    if !isStored then summary.(added := summary.added + 1)
    else if SubjectChange in changes then summary.(subjectUpdated := summary.subjectUpdated + 1)
    else if |changes| > 0 then summary.(metadataUpdated := summary.metadataUpdated + 1)
    else summary.(same := summary.same + 1)
  }

  lemma OneMoreTally(so: Summary, before: Rows, done: seq<Snapshot>, e: Snapshot)
    requires Tallies(so, before, done)
    ensures Tallies(Tallied(so, e.jid in before, Changes(StoredOf(before, e.jid), e)), before, done + [e])
  {
    assert (done + [e])[..|done|] == done;
  }

  lemma EntryDone(sync: Sync, before: Rows, rows: Rows, log: seq<Write>, logged: seq<Write>, so: Summary, done: seq<Snapshot>, e: Snapshot,
                  merged: Observed, summary: Summary)
    requires Done(sync, before, rows, log, logged, so, done)
    requires merged == Merged(sync.fold, StoredOf(before, e.jid), e, sync.source, sync.at)
    requires summary == Tallied(so, e.jid in before, Changes(StoredOf(before, e.jid), e))
    ensures Done(sync, before, rows[e.jid := UpsertRow(RowOf(rows, e.jid), merged, true)], log, logged + [Upserted(e.jid)], summary, done + [e])
    ensures logged + [Upserted(e.jid)] == log + Upserts(done + [e])
  {
    OneMoreTally(so, before, done, e);
    UpsertAgain(sync, before, rows, done, e);
    SyncedNext(sync, before, rows, done, e);
    assert log + Upserts(done + [e]) == (log + Upserts(done)) + [Upserted(e.jid)];
  }

  /** One turn of the loop over the answer. `done` are the entries before it, `before` the rows the sync found. */
  method UpsertEntry(store: GroupStore, stored: map<string, Observed>, sync: Sync, e: Snapshot, so: Summary,
                     ghost before: Rows, ghost log: seq<Write>, ghost done: seq<Snapshot>)
    returns (summary: Summary, ok: bool)
    requires stored == map jid | jid in before :: before[jid].observed
    requires Done(sync, before, store.rows, log, store.log, so, done)
    modifies store
    ensures ok ==> Done(sync, before, store.rows, log, store.log, summary, done + [e])
    ensures store.log == old(store.log) || store.log == log + Upserts(done + [e])
  {
    var cur := if e.jid in stored then stored[e.jid] else UNSEEN;
    var merged, changes := MergeSnapshot(sync.fold, cur, e, sync.source, sync.at);
    summary := Tallied(so, e.jid in stored, changes);
    EntryDone(sync, before, store.rows, log, store.log, so, done, e, merged, summary);
    ok := store.UpsertObserved(e.jid, merged, true);
  }

  method UpsertAll(store: GroupStore, stored: map<string, Observed>, parse: string -> Option<string>, entries: seq<Entry>, sync: Sync)
    returns (summary: Summary, ok: bool)
    requires stored == map jid | jid in store.rows :: store.rows[jid].observed
    modifies store
    ensures Appends(old(store.log), store.log, Snapshots(parse, entries))
    ensures ok ==> Done(sync, old(store.rows), store.rows, old(store.log), store.log, summary, Snapshots(parse, entries))
  {
    summary := NOTHING;
    ghost var before, log, all := store.rows, store.log, Snapshots(parse, entries);
    AppendsNothing(log, all);
    assert log + [] == log;
    for i := 0 to |entries|
      invariant Done(sync, before, store.rows, log, store.log, summary, Snapshots(parse, entries[..i]))
      invariant Appends(log, store.log, all)
    {
      ghost var done := Snapshots(parse, entries[..i]);
      NextSnapshot(parse, entries, i);
      var s := SnapshotOf(parse, entries[i]);
      if s.Some? {
        UpsertsGrow(log, done, s.value, all);
        summary, ok := UpsertEntry(store, stored, sync, s.value, summary, before, log, done);
        if !ok {
          return;
        }
      }
    }
    assert entries[..|entries|] == entries;
    ok := true;
  }

  /** The log grew by writes in order. */
  predicate Appends(before: seq<Write>, after: seq<Write>, snapshots: seq<Snapshot>) {
    before <= after && InOrder(after[|before|..], snapshots)
  }

  lemma AppendsNothing(log: seq<Write>, snapshots: seq<Snapshot>)
    ensures Appends(log, log, snapshots)
  {
    assert log[|log|..] == Upserts(snapshots[..0]);
  }

  lemma NextSnapshot(parse: string -> Option<string>, entries: seq<Entry>, i: nat)
    requires i < |entries|
    ensures var s := SnapshotOf(parse, entries[i]);
            Snapshots(parse, entries[..i + 1]) ==
            if s.None? then Snapshots(parse, entries[..i]) else Snapshots(parse, entries[..i]) + [s.value]
    ensures Snapshots(parse, entries[..i + 1]) <= Snapshots(parse, entries)
  {
    assert entries[..i + 1][..i] == entries[..i];
    SnapshotsGrow(parse, entries, i + 1);
  }

  lemma {:induction false} SnapshotsGrow(parse: string -> Option<string>, entries: seq<Entry>, i: nat)
    requires i <= |entries|
    ensures Snapshots(parse, entries[..i]) <= Snapshots(parse, entries)
    decreases |entries|
  {
    if i < |entries| {
      var n := |entries| - 1;
      assert entries[..n][..i] == entries[..i];
      SnapshotsGrow(parse, entries[..n], i);
    } else {
      assert entries[..i] == entries;
    }
  }

  lemma UpsertsGrow(log: seq<Write>, done: seq<Snapshot>, e: Snapshot, all: seq<Snapshot>)
    requires done + [e] <= all
    ensures (log + Upserts(done)) + [Upserted(e.jid)] == log + Upserts(done + [e])
    ensures Appends(log, log + Upserts(done + [e]), all)
  {
    assert all[..|done| + 1] == done + [e];
    assert (log + Upserts(done + [e]))[|log|..] == Upserts(done + [e]);
  }

  // ---- Absence ---------------------------------------------------------------------------------------

  /** The groups of a list that the answer does not mention are marked left; every other row is as it was. */
  ghost predicate MarkedLeft(before: Rows, after: Rows, snapshots: seq<Snapshot>, jids: seq<string>) {
    && after.Keys == before.Keys
    && forall jid <- before ::
         if jid in jids && LastOf(snapshots, jid).None?
         then after[jid] == LeftRow(before[jid], after[jid].observed.leftDetectedAt)
         else after[jid] == before[jid]
  }

  ghost function Absent(jids: seq<string>, snapshots: seq<Snapshot>): set<string> {
    set jid <- jids | LastOf(snapshots, jid).None?
  }

  lemma AbsentGrows(jids: seq<string>, i: nat, snapshots: seq<Snapshot>)
    requires i < |jids| && jids[i] !in jids[..i]
    ensures |Absent(jids[..i + 1], snapshots)| ==
            |Absent(jids[..i], snapshots)| + if LastOf(snapshots, jids[i]).None? then 1 else 0
  {
    assert jids[..i + 1] == jids[..i] + [jids[i]];
    assert Absent(jids[..i + 1], snapshots) ==
           Absent(jids[..i], snapshots) + if LastOf(snapshots, jids[i]).None? then {jids[i]} else {};
  }

  lemma MarkedNext(before: Rows, mid: Rows, after: Rows, snapshots: seq<Snapshot>, jids: seq<string>, i: nat)
    requires i < |jids| && jids[i] !in jids[..i] && jids[i] in before
    requires MarkedLeft(before, mid, snapshots, jids[..i])
    requires if LastOf(snapshots, jids[i]).None? then exists at :: after == MarkRow(mid, jids[i], at) else after == mid
    ensures MarkedLeft(before, after, snapshots, jids[..i + 1])
  {
    assert jids[..i + 1] == jids[..i] + [jids[i]];
  }

  predicate OnlyMarks(before: seq<Write>, after: seq<Write>) {
    before <= after && AllMarked(after[|before|..])
  }

  lemma OneMoreMark(before: seq<Write>, after: seq<Write>, jid: string)
    requires OnlyMarks(before, after)
    ensures OnlyMarks(before, after + [Marked(jid)])
  {
    assert (after + [Marked(jid)])[|before|..] == after[|before|..] + [Marked(jid)];
  }

  method MarkAbsent(store: GroupStore, ghost snapshots: seq<Snapshot>, returned: set<string>, baseline: seq<string>)
    returns (marked: nat, ok: bool)
    requires forall i, j :: 0 <= i < j < |baseline| ==> baseline[i] != baseline[j]
    requires forall jid <- baseline :: jid in store.rows
    requires forall jid :: jid in returned <==> LastOf(snapshots, jid).Some?
    modifies store
    ensures OnlyMarks(old(store.log), store.log)
    ensures ok ==> MarkedLeft(old(store.rows), store.rows, snapshots, baseline)
    ensures ok ==> marked == |Absent(baseline, snapshots)|
  {
    marked := 0;
    assert Absent([], snapshots) == {};
    for i := 0 to |baseline|
      invariant OnlyMarks(old(store.log), store.log)
      invariant MarkedLeft(old(store.rows), store.rows, snapshots, baseline[..i])
      invariant marked == |Absent(baseline[..i], snapshots)|
    {
      ghost var rows := store.rows;
      AbsentGrows(baseline, i, snapshots);
      if baseline[i] !in returned {
        OneMoreMark(old(store.log), store.log, baseline[i]);
        ok := store.MarkLeft(baseline[i]);
        if !ok {
          return;
        }
        marked := marked + 1;
      }
      MarkedNext(old(store.rows), rows, store.rows, snapshots, baseline, i);
    }
    assert baseline[..|baseline|] == baseline;
    ok := true;
  }

  /** What a completed sync leaves, group by group. */
  ghost predicate SyncResult(sync: Sync, before: Rows, after: Rows, snapshots: seq<Snapshot>, prune: bool) {
    forall jid :: RowAfter(sync, before, after, snapshots, prune, jid)
  }

  ghost predicate RowAfter(sync: Sync, before: Rows, after: Rows, snapshots: seq<Snapshot>, prune: bool, jid: string) {
    match LastOf(snapshots, jid)
    case Some(e) => RowOf(after, jid) == Some(SyncedRow(sync, before, e))
    case None =>
      if jid in before && prune && !Gone(before[jid])
      then jid in after && after[jid] == LeftRow(before[jid], after[jid].observed.leftDetectedAt)
      else RowOf(after, jid) == RowOf(before, jid)
  }

  lemma PruneResult(sync: Sync, before: Rows, mid: Rows, after: Rows, snapshots: seq<Snapshot>, baseline: seq<string>)
    requires Synced(sync, before, mid, snapshots)
    requires Lists(baseline, set jid <- mid | !Gone(mid[jid])) && MarkedLeft(mid, after, snapshots, baseline)
    ensures SyncResult(sync, before, after, snapshots, true)
    ensures Absent(baseline, snapshots) == set jid <- before | !Gone(before[jid]) && LastOf(snapshots, jid).None?
  {
    forall jid ensures RowAfter(sync, before, after, snapshots, true, jid)
    ensures jid in Absent(baseline, snapshots) <==> jid in before && !Gone(before[jid]) && LastOf(snapshots, jid).None? {
      assert RowOf(mid, jid) == match LastOf(snapshots, jid)
                                case None => RowOf(before, jid)
                                case Some(e) => Some(SyncedRow(sync, before, e));
      if jid in baseline {
        assert jid in (set j <- mid | !Gone(mid[j]));
      } else if jid in mid {
        assert jid !in (set j <- mid | !Gone(mid[j]));
      }
    }
  }

  /** The source's `runGroupSync`. `bridge` is the answer to the listing call, or none when it failed. */
  method RunGroupSync(bridge: Option<seq<Entry>>, store: GroupStore, parse: string -> Option<string>, sync: Sync, prune: bool)
    returns (summary: Summary, ok: bool)
    modifies store
    ensures bridge.None? ==> !ok && store.rows == old(store.rows) && store.log == old(store.log)
    ensures bridge.Some? ==> Appends(old(store.log), store.log, Snapshots(parse, bridge.value))
    ensures ok ==>
      var snapshots := Snapshots(parse, bridge.value);
      && SyncResult(sync, old(store.rows), store.rows, snapshots, prune)
      && AllReflected(sync, old(store.rows), store.rows, parse, bridge.value)
      && Tallies(summary, old(store.rows), snapshots)
      && summary.groupsLeft == |set jid <- store.rows | Gone(store.rows[jid])|
      && summary.markedLeft == if prune
                               then |set jid <- old(store.rows) | !Gone(old(store.rows)[jid]) && LastOf(snapshots, jid).None?|
                               else 0
  {
    if bridge.None? {
      return NOTHING, false;
    }
    ghost var snapshots := Snapshots(parse, bridge.value);
    AppendsNothing(store.log, snapshots);
    var stored := store.LoadObserved();
    if stored.None? {
      return NOTHING, false;
    }
    summary, ok := UpsertAll(store, stored.value, parse, bridge.value, sync);
    if !ok {
      return;
    }
    if prune {
      summary, ok := Prune(store, parse, bridge.value, sync, summary, old(store.rows), old(store.log));
      if !ok {
        return;
      }
    }
    var left := store.CountLeft();
    if left.None? {
      return summary, false;
    }
    summary := summary.(groupsLeft := left.value);
    EntriesAreReflected(sync, old(store.rows), store.rows, parse, bridge.value, prune);
  }

  method Prune(store: GroupStore, parse: string -> Option<string>, entries: seq<Entry>, sync: Sync, so: Summary,
               ghost before: Rows, ghost log: seq<Write>)
    returns (summary: Summary, ok: bool)
    requires Synced(sync, before, store.rows, Snapshots(parse, entries))
    requires store.log == log + Upserts(Snapshots(parse, entries))
    modifies store
    ensures Appends(log, store.log, Snapshots(parse, entries))
    ensures summary == so.(markedLeft := summary.markedLeft)
    ensures ok ==> SyncResult(sync, before, store.rows, Snapshots(parse, entries), true)
    ensures ok ==> summary.markedLeft == |set jid <- before | !Gone(before[jid]) && LastOf(Snapshots(parse, entries), jid).None?|
  {
    summary := so;
    ghost var snapshots, mid := Snapshots(parse, entries), store.rows;
    MarksFollow(log, store.log, snapshots);
    var baseline := store.KnownGroupJids();
    if baseline.None? {
      return summary, false;
    }
    var returned := Returned(parse, entries);
    var marked;
    marked, ok := MarkAbsent(store, snapshots, returned, baseline.value);
    MarksFollow(log, store.log, snapshots);
    if ok {
      summary := summary.(markedLeft := marked);
      PruneResult(sync, before, mid, store.rows, snapshots, baseline.value);
    }
  }

  lemma MarksFollow(log: seq<Write>, after: seq<Write>, snapshots: seq<Snapshot>)
    requires log + Upserts(snapshots) <= after && AllMarked(after[|log| + |snapshots|..])
    ensures Appends(log, after, snapshots)
  {
    var writes := after[|log|..];
    assert writes[..|snapshots|] == Upserts(snapshots);
    assert writes[|snapshots|..] == after[|log| + |snapshots|..];
    assert snapshots[..|snapshots|] == snapshots;
  }

  lemma OneMoreMentioned(done: seq<Snapshot>, e: Snapshot)
    ensures forall jid :: LastOf(done + [e], jid).Some? <==> jid == e.jid || LastOf(done, jid).Some?
  {
    assert (done + [e])[..|done|] == done;
  }

  /** The groups the answer mentions, as the source's set of returned identifiers. */
  method Returned(parse: string -> Option<string>, entries: seq<Entry>) returns (jids: set<string>)
    ensures forall jid :: jid in jids <==> LastOf(Snapshots(parse, entries), jid).Some?
  {
    jids := {};
    for i := 0 to |entries|
      invariant forall jid :: jid in jids <==> LastOf(Snapshots(parse, entries[..i]), jid).Some?
    {
      NextSnapshot(parse, entries, i);
      var s := SnapshotOf(parse, entries[i]);
      if s.Some? {
        OneMoreMentioned(Snapshots(parse, entries[..i]), s.value);
        jids := jids + {s.value.jid};
      }
    }
    assert entries[..|entries|] == entries;
  }

  // ---- Entry by entry --------------------------------------------------------------------------------

  /** The entry names a group, and no later one names the same. */
  ghost predicate IsLast(parse: string -> Option<string>, entries: seq<Entry>, i: nat)
    requires i < |entries|
  {
    parse(entries[i].jid).Some? && forall j :: i < j < |entries| ==> parse(entries[j].jid) != parse(entries[i].jid)
  }

  /** The group's row says what the entry says, and keeps what the entry does not say. */
  ghost predicate Reflects(sync: Sync, before: Rows, after: Rows, jid: string, e: Entry) {
    && jid in after
    && after[jid].observed.state == Active
    && after[jid].observed.isAnnounce == e.announce && after[jid].observed.isLocked == e.locked
    && after[jid].observed.participantCount == e.participantCount && !after[jid].observed.participantCountDirty
    && after[jid].observed.lastSyncedAt == sync.at && after[jid].observed.lastSyncSource == sync.source
    && after[jid].observed.subject == (if e.subject != "" then e.subject else StoredOf(before, jid).subject)
    && if jid in before then SameTraffic(after[jid].observed, before[jid].observed) && after[jid].config == before[jid].config
       else IsNew(after[jid])
  }

  ghost predicate AllReflected(sync: Sync, before: Rows, after: Rows, parse: string -> Option<string>, entries: seq<Entry>) {
    forall i :: 0 <= i < |entries| && IsLast(parse, entries, i) ==>
      Reflects(sync, before, after, parse(entries[i].jid).value, entries[i])
  }

  /** The last entry that names a group is what the answer says about it. */
  lemma {:induction false} LastEntry(parse: string -> Option<string>, entries: seq<Entry>, i: nat)
    requires i < |entries| && IsLast(parse, entries, i)
    ensures LastOf(Snapshots(parse, entries), parse(entries[i].jid).value) == SnapshotOf(parse, entries[i])
    decreases |entries|
  {
    var n := |entries| - 1;
    var s, earlier := SnapshotOf(parse, entries[n]), Snapshots(parse, entries[..n]);
    assert if s.None? then Snapshots(parse, entries) == earlier
           else Snapshots(parse, entries) == earlier + [s.value] && (earlier + [s.value])[..|earlier|] == earlier;
    if i < n {
      assert parse(entries[n].jid) != parse(entries[i].jid);
      assert entries[..n][i] == entries[i];
      LastEntry(parse, entries[..n], i);
    }
  }

  lemma EntryIsReflected(sync: Sync, before: Rows, after: Rows, parse: string -> Option<string>, entries: seq<Entry>, prune: bool, i: nat)
    requires i < |entries| && IsLast(parse, entries, i)
    requires SyncResult(sync, before, after, Snapshots(parse, entries), prune)
    ensures Reflects(sync, before, after, parse(entries[i].jid).value, entries[i])
  {
    LastEntry(parse, entries, i);
    assert RowAfter(sync, before, after, Snapshots(parse, entries), prune, parse(entries[i].jid).value);
  }

  lemma EntriesAreReflected(sync: Sync, before: Rows, after: Rows, parse: string -> Option<string>, entries: seq<Entry>, prune: bool)
    requires SyncResult(sync, before, after, Snapshots(parse, entries), prune)
    ensures AllReflected(sync, before, after, parse, entries)
  {
    forall i | 0 <= i < |entries| && IsLast(parse, entries, i)
      ensures Reflects(sync, before, after, parse(entries[i].jid).value, entries[i])
    {
      EntryIsReflected(sync, before, after, parse, entries, prune, i);
    }
  }

  // ---- What a sync promises --------------------------------------------------------------------------

  predicate Mentions(snapshots: seq<Snapshot>, jid: string) {
    exists i :: 0 <= i < |snapshots| && snapshots[i].jid == jid
  }

  /** What a pruning sync leaves of one group. */
  ghost predicate Settled(before: Rows, after: Rows, snapshots: seq<Snapshot>, jid: string) {
    if Mentions(snapshots, jid) then
      && jid in after && after[jid].observed.state.Active?
      && (jid in before ==> after[jid].config == before[jid].config)
    else if jid in before then
      && jid in after
      && if before[jid].observed.state.Left? || before[jid].observed.state.Deleted? then after[jid] == before[jid]
         else LeftOnly(before[jid], after[jid])
    else jid !in after
  }

  lemma GroupSettles(sync: Sync, before: Rows, after: Rows, snapshots: seq<Snapshot>, jid: string)
    requires SyncResult(sync, before, after, snapshots, true)
    ensures Settled(before, after, snapshots, jid)
  {
    assert RowAfter(sync, before, after, snapshots, true, jid);
    LastIsOf(snapshots, jid);
    if LastOf(snapshots, jid).Some? {
      assert LastOf(snapshots, jid).value in snapshots;
      assert Mentions(snapshots, jid);
    } else {
      assert !Mentions(snapshots, jid);
    }
  }

  /**
   After a pruning sync every returned group is active and every other stored group is left or deleted, with
   its name and everything else it held; so the groups left number the stored ones not returned.
   */
  lemma PruningSettlesMembership(sync: Sync, before: Rows, after: Rows, snapshots: seq<Snapshot>)
    requires SyncResult(sync, before, after, snapshots, true)
    ensures forall jid :: Settled(before, after, snapshots, jid)
    ensures (set jid <- after | Gone(after[jid])) == (set jid <- before | !Mentions(snapshots, jid))
  {
    forall jid ensures Settled(before, after, snapshots, jid) {
      GroupSettles(sync, before, after, snapshots, jid);
    }
    forall jid ensures jid in after && Gone(after[jid]) <==> jid in before && !Mentions(snapshots, jid) {
      assert Settled(before, after, snapshots, jid);
    }
  }

  predicate Distinct(snapshots: seq<Snapshot>) {
    forall i, j :: 0 <= i < j < |snapshots| ==> snapshots[i].jid != snapshots[j].jid
  }

  lemma {:induction false} LastOfDistinct(snapshots: seq<Snapshot>, i: nat)
    requires i < |snapshots| && Distinct(snapshots)
    ensures LastOf(snapshots, snapshots[i].jid) == Some(snapshots[i])
    decreases |snapshots|
  {
    var n := |snapshots| - 1;
    if i < n {
      LastOfDistinct(snapshots[..n], i);
    }
  }

  /** A returned group's row with nothing but its sync stamps moved. */
  function Restamped(sync: Sync, g: Group, isReturned: bool): Group {
    if isReturned then g.(observed := g.observed.(lastSyncedAt := sync.at, lastSyncSource := sync.source)) else g
  }

  /** A repeated snapshot is reported as all unchanged, and moves nothing but the sync stamps. */
  lemma RepeatedSyncIsQuiet(first: Sync, second: Sync, before: Rows, after: Rows, again: Rows, snapshots: seq<Snapshot>, prune: bool)
    requires Distinct(snapshots) && first.fold == second.fold
    requires SyncResult(first, before, after, snapshots, prune) && SyncResult(second, after, again, snapshots, prune)
    ensures forall e <- snapshots :: KindOf(after, e) == Unchanged
    ensures CountOf(after, snapshots, Unchanged) == |snapshots|
    ensures again.Keys == after.Keys
    ensures forall jid <- after :: again[jid] == Restamped(second, after[jid], LastOf(snapshots, jid).Some?)
  {
    forall i | 0 <= i < |snapshots| ensures KindOf(after, snapshots[i]) == Unchanged {
      UnchangedAfterSync(first, before, after, snapshots, prune, i);
    }
    AllUnchanged(after, snapshots);
    forall jid
      ensures jid in again <==> jid in after
      ensures jid in after ==> again[jid] == Restamped(second, after[jid], LastOf(snapshots, jid).Some?)
    {
      RowSettles(first, second, before, after, again, snapshots, prune, jid);
    }
  }

  lemma UnchangedAfterSync(sync: Sync, before: Rows, after: Rows, snapshots: seq<Snapshot>, prune: bool, i: nat)
    requires Distinct(snapshots) && SyncResult(sync, before, after, snapshots, prune) && i < |snapshots|
    ensures snapshots[i].jid in after && Changes(after[snapshots[i].jid].observed, snapshots[i]) == []
  {
    var e := snapshots[i];
    LastOfDistinct(snapshots, i);
    assert RowAfter(sync, before, after, snapshots, prune, e.jid);
    var merged := Merged(sync.fold, StoredOf(before, e.jid), e, sync.source, sync.at);
    MergeSettles(sync.fold, StoredOf(before, e.jid), e, sync.source, sync.at);
    SameChanges(merged, after[e.jid].observed, e);
  }

  /** Only these fields of a stored observation decide what an entry changes. */
  lemma SameChanges(a: Observed, b: Observed, e: Snapshot)
    requires a.subject == b.subject && a.subjectSource == b.subjectSource && a.state == b.state
    requires a.participantCount == b.participantCount && a.participantCountDirty == b.participantCountDirty
    requires a.isAnnounce == b.isAnnounce && a.isLocked == b.isLocked
    ensures Changes(a, e) == Changes(b, e)
  {
  }

  lemma {:induction false} AllUnchanged(rows: Rows, snapshots: seq<Snapshot>)
    requires forall i :: 0 <= i < |snapshots| ==> KindOf(rows, snapshots[i]) == Unchanged
    ensures CountOf(rows, snapshots, Unchanged) == |snapshots|
  {
    if snapshots != [] {
      AllUnchanged(rows, snapshots[..|snapshots| - 1]);
    }
  }

  lemma RowSettles(first: Sync, second: Sync, before: Rows, after: Rows, again: Rows, snapshots: seq<Snapshot>, prune: bool, jid: string)
    requires Distinct(snapshots)
    requires SyncResult(first, before, after, snapshots, prune) && SyncResult(second, after, again, snapshots, prune)
    ensures jid in again <==> jid in after
    ensures jid in after ==> again[jid] == Restamped(second, after[jid], LastOf(snapshots, jid).Some?)
  {
    assert RowAfter(first, before, after, snapshots, prune, jid);
    assert RowAfter(second, after, again, snapshots, prune, jid);
    LastIsOf(snapshots, jid);
    if LastOf(snapshots, jid).Some? {
      var e := LastOf(snapshots, jid).value;
      var i :| 0 <= i < |snapshots| && snapshots[i] == e;
      UnchangedAfterSync(first, before, after, snapshots, prune, i);
      ReportsEveryChange(second.fold, after[jid].observed, e, second.source, second.at);
    }
  }
}
