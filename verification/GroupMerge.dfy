/** How one entry of a membership snapshot is folded into what is stored about its group. */
module GroupMerge {
  import opened Wrappers

  type Time = nat

  datatype GroupState = NoState | Active | Left | Deleted | Suspended

  datatype SubjectSource = NoSource | FromSync | FromEvent | FromFallback

  datatype SyncSource = NeverSynced | OnConnect | OnTimer | OnManual | OnEvent | OnMessage

  datatype HistoryEntry = HistoryEntry(name: string, at: Time, setBy: string)

  /** The worker's half of a group's row; the zero value of a field stands for its absence. */
  datatype Observed = Observed(
    subject: string, subjectSearch: string, subjectUpdatedAt: Time, subjectObservedAt: Time, subjectSetBy: string,
    subjectSetByLid: string, subjectSource: SubjectSource, subjectHistory: seq<HistoryEntry>,
    topic: string, topicUpdatedAt: Time, isAnnounce: bool, isLocked: bool, isEphemeral: bool, isDefaultSubGroup: bool,
    participantCount: int, participantCountDirty: bool, members: seq<string>, groupCreatedAt: Time, state: GroupState,
    lastActivityAt: Time, messageCount: int, mediaStored: int,
    lastSyncedAt: Time, lastSyncSource: SyncSource, leftDetectedAt: Time)

  const UNSEEN: Observed := Observed(
    "", "", 0, 0, "", "", NoSource, [], "", 0, false, false, false, false, 0, false, [], 0, NoState, 0, 0, 0,
    0, NeverSynced, 0)

  datatype Snapshot = Snapshot(jid: string, subject: string, announce: bool, locked: bool, participantCount: int)

  datatype Change = SubjectChange | StateChange | CountChange | DirtyChange | AnnounceChange | LockedChange

  // ---- The rename ring -------------------------------------------------------------------------------

  const RING: nat := 20

  function Newest(history: seq<HistoryEntry>): (ring: seq<HistoryEntry>)
    ensures |ring| <= RING
  {
    if |history| > RING then history[..RING] else history
  }

  function AppendHistory(history: seq<HistoryEntry>, entry: HistoryEntry): seq<HistoryEntry> {
    if history != [] && history[0].name == entry.name && history[0].at == entry.at then history
    else Newest([entry] + history)
  }

  // ---- The merge -------------------------------------------------------------------------------------

  predicate Renames(cur: Observed, e: Snapshot) {
    e.subject != "" && e.subject != cur.subject
  }

  /** The stored name was a placeholder and the snapshot confirms it. */
  predicate Confirms(cur: Observed, e: Snapshot) {
    e.subject != "" && e.subject == cur.subject && cur.subjectSource.FromFallback?
  }

  /** What the snapshot makes of the name. `fold` is the library's search folding. */
  function Named(fold: string -> string, cur: Observed, e: Snapshot, at: Time): Observed {
    if Renames(cur, e) then
      cur.(subject := e.subject, subjectSearch := fold(e.subject), subjectUpdatedAt := at, subjectObservedAt := at,
           subjectSetBy := "", subjectSetByLid := "", subjectSource := FromSync,
           subjectHistory := if cur.subject == "" then cur.subjectHistory
                             else AppendHistory(cur.subjectHistory, HistoryEntry(cur.subject, cur.subjectUpdatedAt, cur.subjectSetBy)))
    else if Confirms(cur, e) then cur.(subjectSource := FromSync)
    else cur
  }

  function Merged(fold: string -> string, cur: Observed, e: Snapshot, source: SyncSource, at: Time): Observed {
    Named(fold, cur, e, at).(
      state := Active, participantCount := e.participantCount, participantCountDirty := false,
      isAnnounce := e.announce, isLocked := e.locked, lastSyncedAt := at, lastSyncSource := source)
  }

  function When(condition: bool, change: Change): seq<Change> {
    if condition then [change] else []
  }

  function FirstChanges(cur: Observed, e: Snapshot): seq<Change> {
    When(Renames(cur, e) || Confirms(cur, e), SubjectChange)
    + When(cur.state != Active, StateChange)
    + When(cur.participantCount != e.participantCount, CountChange)
  }

  function Changes(cur: Observed, e: Snapshot): seq<Change> {
    FirstChanges(cur, e)
    + When(cur.participantCountDirty, DirtyChange)
    + When(cur.isAnnounce != e.announce, AnnounceChange)
    + When(cur.isLocked != e.locked, LockedChange)
  }

  method MergeName(fold: string -> string, cur: Observed, e: Snapshot, at: Time) returns (next: Observed, changed: bool)
    ensures next == Named(fold, cur, e, at) && (changed <==> Renames(cur, e) || Confirms(cur, e))
  {
    next, changed := cur, false;
    if e.subject != "" && e.subject != cur.subject {
      var history := cur.subjectHistory;
      if cur.subject != "" {
        history := AppendHistory(history, HistoryEntry(cur.subject, cur.subjectUpdatedAt, cur.subjectSetBy));
      }
      next := next.(subject := e.subject, subjectSearch := fold(e.subject), subjectUpdatedAt := at, subjectObservedAt := at,
                    subjectSetBy := "", subjectSetByLid := "", subjectSource := FromSync, subjectHistory := history);
      changed := true;
    } else if e.subject != "" && cur.subjectSource.FromFallback? {
      next := next.(subjectSource := FromSync);
      changed := true;
    }
  }

  /** The snapshot owns the name it carries, and a name it changes is stamped with the snapshot's time. */
  predicate NameMerged(fold: string -> string, cur: Observed, e: Snapshot, at: Time, next: Observed) {
    var renamed := next.subject != cur.subject;
    && next.subject == (if e.subject == "" then cur.subject else e.subject)
    && next.subjectSearch == (if renamed then fold(e.subject) else cur.subjectSearch)
    && next.subjectUpdatedAt == (if renamed then at else cur.subjectUpdatedAt)
    && next.subjectObservedAt == (if renamed then at else cur.subjectObservedAt)
    && next.subjectSetBy == (if renamed then "" else cur.subjectSetBy)
    && next.subjectSetByLid == (if renamed then "" else cur.subjectSetByLid)
    && next.subjectSource == (if renamed || (e.subject != "" && cur.subjectSource == FromFallback) then FromSync else cur.subjectSource)
    && (if renamed && cur.subject != ""
        then Pushed(cur.subjectHistory, HistoryEntry(cur.subject, cur.subjectUpdatedAt, cur.subjectSetBy), next.subjectHistory)
        else next.subjectHistory == cur.subjectHistory)
  }

  /** An entry went on top of the ring, which keeps its twenty newest, unless it was on top already. */
  predicate Pushed(history: seq<HistoryEntry>, entry: HistoryEntry, ring: seq<HistoryEntry>) {
    if history != [] && history[0].name == entry.name && history[0].at == entry.at then ring == history
    else
      && ring != [] && ring[0] == entry
      && |ring| == (if |history| < 20 then |history| + 1 else 20)
      && forall i :: 1 <= i < |ring| ==> ring[i] == history[i - 1]
  }

  /** The snapshot owns what it carries beside the name; what it does not carry is kept. */
  predicate RestMerged(cur: Observed, e: Snapshot, source: SyncSource, at: Time, next: Observed) {
    && next.state == Active && next.participantCount == e.participantCount && !next.participantCountDirty
    && next.isAnnounce == e.announce && next.isLocked == e.locked
    && next.lastSyncedAt == at && next.lastSyncSource == source
    && next.topic == cur.topic && next.topicUpdatedAt == cur.topicUpdatedAt && next.isEphemeral == cur.isEphemeral
    && next.isDefaultSubGroup == cur.isDefaultSubGroup && next.members == cur.members
    && next.groupCreatedAt == cur.groupCreatedAt && next.leftDetectedAt == cur.leftDetectedAt
    && next.lastActivityAt == cur.lastActivityAt && next.messageCount == cur.messageCount && next.mediaStored == cur.mediaStored
  }

  /** Each change is reported exactly when its field moved, and each at most once. */
  predicate Reported(cur: Observed, next: Observed, changes: seq<Change>) {
    && (SubjectChange in changes <==> next.subject != cur.subject || next.subjectSource != cur.subjectSource)
    && (StateChange in changes <==> next.state != cur.state)
    && (CountChange in changes <==> next.participantCount != cur.participantCount)
    && (DirtyChange in changes <==> next.participantCountDirty != cur.participantCountDirty)
    && (AnnounceChange in changes <==> next.isAnnounce != cur.isAnnounce)
    && (LockedChange in changes <==> next.isLocked != cur.isLocked)
    && OnceEach(changes)
  }

  predicate OnceEach(changes: seq<Change>) {
    forall i, j :: 0 <= i < j < |changes| ==> changes[i] != changes[j]
  }

  lemma AppendPushes(history: seq<HistoryEntry>, entry: HistoryEntry)
    ensures Pushed(history, entry, AppendHistory(history, entry))
  {
  }

  lemma NamedByField(fold: string -> string, cur: Observed, e: Snapshot, at: Time)
    ensures NameMerged(fold, cur, e, at, Named(fold, cur, e, at))
  {
    if Renames(cur, e) && cur.subject != "" {
      AppendPushes(cur.subjectHistory, HistoryEntry(cur.subject, cur.subjectUpdatedAt, cur.subjectSetBy));
    }
  }

  lemma MergedByField(fold: string -> string, cur: Observed, e: Snapshot, source: SyncSource, at: Time)
    ensures NameMerged(fold, cur, e, at, Merged(fold, cur, e, source, at))
    ensures RestMerged(cur, e, source, at, Merged(fold, cur, e, source, at))
  {
    NamedByField(fold, cur, e, at);
  }

  lemma ListNext(list: seq<Change>, condition: bool, change: Change)
    requires change !in list && OnceEach(list)
    ensures OnceEach(list + When(condition, change))
    ensures forall c :: c in list + When(condition, change) <==> c in list || (condition && c == change)
  {
  }

  /** What three more conditions add to a list of changes. */
  lemma ListThree(list: seq<Change>, p: bool, x: Change, q: bool, y: Change, r: bool, z: Change, longer: seq<Change>)
    requires x !in list && y !in list && z !in list && x != y && y != z && x != z && OnceEach(list)
    requires longer == list + When(p, x) + When(q, y) + When(r, z)
    ensures OnceEach(longer)
    ensures forall c :: c in longer <==> c in list || (p && c == x) || (q && c == y) || (r && c == z)
  {
    ListNext(list, p, x);
    ListNext(list + When(p, x), q, y);
    ListNext(list + When(p, x) + When(q, y), r, z);
  }

  lemma ListedFirst(cur: Observed, e: Snapshot)
    ensures OnceEach(FirstChanges(cur, e))
    ensures forall c :: c in FirstChanges(cur, e) <==>
              (c == SubjectChange && (Renames(cur, e) || Confirms(cur, e))) || (c == StateChange && cur.state != Active)
              || (c == CountChange && cur.participantCount != e.participantCount)
  {
    var subject := When(Renames(cur, e) || Confirms(cur, e), SubjectChange);
    ListNext(subject, cur.state != Active, StateChange);
    ListNext(subject + When(cur.state != Active, StateChange), cur.participantCount != e.participantCount, CountChange);
  }

  lemma ListedChanges(cur: Observed, e: Snapshot)
    ensures OnceEach(Changes(cur, e))
    ensures forall c :: c in Changes(cur, e) <==>
              c in FirstChanges(cur, e) || (c == DirtyChange && cur.participantCountDirty)
              || (c == AnnounceChange && cur.isAnnounce != e.announce) || (c == LockedChange && cur.isLocked != e.locked)
  {
    ListedFirst(cur, e);
    ListThree(FirstChanges(cur, e), cur.participantCountDirty, DirtyChange, cur.isAnnounce != e.announce, AnnounceChange,
              cur.isLocked != e.locked, LockedChange, Changes(cur, e));
  }

  lemma ChangesByField(fold: string -> string, cur: Observed, e: Snapshot, source: SyncSource, at: Time)
    ensures Reported(cur, Merged(fold, cur, e, source, at), Changes(cur, e))
  {
    ListedFirst(cur, e);
    ListedChanges(cur, e);
    ReportsName(fold, cur, e, source, at);
  }

  /** Every field of the merged record, and what is reported of it. */
  method MergeSnapshot(fold: string -> string, cur: Observed, e: Snapshot, source: SyncSource, at: Time)
    returns (next: Observed, changes: seq<Change>)
    ensures NameMerged(fold, cur, e, at, next) && RestMerged(cur, e, source, at, next) && Reported(cur, next, changes)
    ensures next == Merged(fold, cur, e, source, at) && changes == Changes(cur, e)
  {
    MergedByField(fold, cur, e, source, at);
    ChangesByField(fold, cur, e, source, at);
    var changed;
    next, changed := MergeName(fold, cur, e, at);
    changes := When(changed, SubjectChange);
    changes := changes + When(cur.state != Active, StateChange);
    changes := changes + When(cur.participantCount != e.participantCount, CountChange);
    changes := changes + When(cur.participantCountDirty, DirtyChange);
    changes := changes + When(cur.isAnnounce != e.announce, AnnounceChange);
    changes := changes + When(cur.isLocked != e.locked, LockedChange);
    next := next.(state := Active, participantCount := e.participantCount, participantCountDirty := false,
                  isAnnounce := e.announce, isLocked := e.locked, lastSyncedAt := at, lastSyncSource := source);
  }

  // ---- What a merge reports --------------------------------------------------------------------------

  /** Nothing is reported exactly when nothing but the sync stamps moved. */
  lemma ReportsEveryChange(fold: string -> string, cur: Observed, e: Snapshot, source: SyncSource, at: Time)
    ensures Changes(cur, e) == [] <==>
            Merged(fold, cur, e, source, at) == cur.(lastSyncedAt := at, lastSyncSource := source)
  {
    var next := Merged(fold, cur, e, source, at);
    if Renames(cur, e) {
      assert next.subject != cur.subject;
    } else if Confirms(cur, e) {
      assert next.subjectSource != cur.subjectSource;
    }
  }

  /** The name is reported exactly when it, or where it came from, changed. */
  lemma ReportsName(fold: string -> string, cur: Observed, e: Snapshot, source: SyncSource, at: Time)
    ensures var next := Merged(fold, cur, e, source, at);
            SubjectChange in Changes(cur, e) <==> next.subject != cur.subject || next.subjectSource != cur.subjectSource
  {
    assert SubjectChange in Changes(cur, e) <==> Renames(cur, e) || Confirms(cur, e);
  }

  /** Seeing the same entry again changes nothing, whatever was stored first. */
  lemma MergeSettles(fold: string -> string, cur: Observed, e: Snapshot, source: SyncSource, at: Time)
    ensures Changes(Merged(fold, cur, e, source, at), e) == []
  {
  }

  // ---- The ring over any history of snapshots --------------------------------------------------------

  datatype Seen = Seen(entry: Snapshot, source: SyncSource, at: Time)

  function MergeAll(fold: string -> string, seen: seq<Seen>): Observed {
    if seen == [] then UNSEEN
    else
      var n := |seen| - 1;
      Merged(fold, MergeAll(fold, seen[..n]), seen[n].entry, seen[n].source, seen[n].at)
  }

  /** The names a group had, oldest first, each with the time it was first seen; an empty name says nothing. */
  function Names(seen: seq<Seen>): seq<HistoryEntry> {
    if seen == [] then []
    else
      NextNames(Names(seen[..|seen| - 1]), seen[|seen| - 1])
  }

  function NextNames(names: seq<HistoryEntry>, s: Seen): seq<HistoryEntry> {
    var name := s.entry.subject;
    if name == "" || (names != [] && names[|names| - 1].name == name) then names
    else names + [HistoryEntry(name, s.at, "")]
  }

  /** A superseded name is never the one on top of the ring, so the ring always takes it. */
  lemma RingTakes(ring: seq<HistoryEntry>, names: seq<HistoryEntry>)
    requires names != [] && (|names| >= 2 ==> names[|names| - 2].name != names[|names| - 1].name)
    requires IsRing(ring, names[..|names| - 1])
    ensures IsRing(AppendHistory(ring, names[|names| - 1]), names)
  {
    AppendPushes(ring, names[|names| - 1]);
  }

  /** The twenty latest of these names, newest first. */
  predicate IsRing(ring: seq<HistoryEntry>, names: seq<HistoryEntry>) {
    && |ring| == (if |names| < 20 then |names| else 20)
    && forall i :: 0 <= i < |ring| ==> ring[i] == names[|names| - 1 - i]
  }

  /** The stored name is the last of these and the ring holds the twenty names before it, newest first. */
  predicate Tracks(o: Observed, names: seq<HistoryEntry>) {
    if names == [] then o.subject == "" && o.subjectHistory == []
    else
      var last := names[|names| - 1];
      && o.subject == last.name && last.name != "" && o.subjectUpdatedAt == last.at && o.subjectSetBy == last.setBy
      && IsRing(o.subjectHistory, names[..|names| - 1])
      && (|names| >= 2 ==> names[|names| - 2].name != last.name)
  }

  lemma RenameTracks(fold: string -> string, o: Observed, names: seq<HistoryEntry>, e: Snapshot, at: Time)
    requires Tracks(o, names) && Renames(o, e)
    ensures Tracks(Named(fold, o, e, at), names + [HistoryEntry(e.subject, at, "")])
  {
    var later := names + [HistoryEntry(e.subject, at, "")];
    assert later[..|later| - 1] == names;
    if names != [] {
      RingTakes(o.subjectHistory, names);
      assert HistoryEntry(o.subject, o.subjectUpdatedAt, o.subjectSetBy) == names[|names| - 1];
    }
  }

  /** Tracking looks at the name fields only. */
  lemma SameNameTracks(o: Observed, next: Observed, names: seq<HistoryEntry>)
    requires Tracks(o, names) && next.subject == o.subject && next.subjectHistory == o.subjectHistory
    requires next.subjectUpdatedAt == o.subjectUpdatedAt && next.subjectSetBy == o.subjectSetBy
    ensures Tracks(next, names)
  {
  }

  lemma MergeTracks(fold: string -> string, o: Observed, names: seq<HistoryEntry>, s: Seen)
    requires Tracks(o, names)
    ensures Tracks(Merged(fold, o, s.entry, s.source, s.at), NextNames(names, s))
  {
    if Renames(o, s.entry) {
      RenameTracks(fold, o, names, s.entry, s.at);
      SameNameTracks(Named(fold, o, s.entry, s.at), Merged(fold, o, s.entry, s.source, s.at), NextNames(names, s));
    } else {
      SameNameTracks(o, Merged(fold, o, s.entry, s.source, s.at), names);
    }
  }

  /**
   After any snapshots the ring is the latest twenty superseded names. Stamps need not increase: a superseded
   name is never the one already on top of the ring.
   */
  lemma {:induction false} RingHoldsSuperseded(fold: string -> string, seen: seq<Seen>)
    ensures Tracks(MergeAll(fold, seen), Names(seen))
    decreases |seen|
  {
    if seen != [] {
      var n := |seen| - 1;
      RingHoldsSuperseded(fold, seen[..n]);
      MergeTracks(fold, MergeAll(fold, seen[..n]), Names(seen[..n]), seen[n]);
    }
  }
}
