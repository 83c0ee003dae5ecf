/**
 The message rows: redelivered messages collapse onto the row they first created, while the media pipeline
 owns that row's media. Each bulk write is unordered, so its upserts reach the collection one by one, in any
 order and interleaved with other writers.
 */
module MessageStore {
  import opened Wrappers

  datatype Key = Key(organizationId: string, instanceId: string, waMessageId: string)

  /** What describes a message as it first arrived. */
  datatype Identity = Identity(
    groupJid: string, chatJid: string, isGroup: bool, senderJid: string, fromMe: bool, historical: bool,
    timestamp: int, receivedAt: int)

  /** What a re-parse may improve. */
  datatype Parse = Parse(
    senderLid: string, pushName: string, serverSkewMs: int, kind: string, text: string, textSearch: string,
    rawSearch: string, links: seq<string>, mentions: seq<string>, rawMessage: string, rawTruncated: bool,
    rawBytes: int, parseState: string, parseErrors: seq<string>, schemaVersion: int)

  datatype Descriptor = Descriptor(status: string, kind: string, declaredType: string)

  /** What a media attempt learns about the attachment. */
  datatype Details = Details(
    mime: string, fileName: string, size: int, sha256: string, width: int, height: int, durationSec: int,
    r2Key: string, publicUrl: string, reason: string, error: string, text: string)

  datatype Media = Media(descriptor: Descriptor, details: Details)

  datatype Doc = Doc(key: Key, identity: Identity, parse: Parse, media: Descriptor)

  datatype StoredMedia = StoredMedia(descriptor: Descriptor, details: Option<Details>, attempts: nat)

  datatype Row = Row(identity: Identity, parse: Parse, media: StoredMedia)

  type Rows = map<Key, Row>

  /** One write on one row, as a `Save` numbered `save` or a `saveMedia` makes it. */
  datatype Write =
    | Upsert(save: nat, doc: Doc)
    | Attach(key: Key, media: Media)

  function Apply(rows: Rows, w: Write): Rows {
    match w
    case Upsert(_, doc) =>
      if doc.key in rows then rows[doc.key := rows[doc.key].(parse := doc.parse)]
      else rows[doc.key := Row(doc.identity, doc.parse, StoredMedia(doc.media, None, 0))]
    case Attach(key, media) =>
      if key in rows
      then rows[key := rows[key].(media := StoredMedia(media.descriptor, Some(media.details), rows[key].media.attempts + 1))]
      else rows
  }

  function ApplyAll(rows: Rows, writes: seq<Write>): Rows {
    if writes == [] then rows else Apply(ApplyAll(rows, writes[..|writes| - 1]), writes[|writes| - 1])
  }

  /** The collection after a history of writes. */
  function After(history: seq<Write>): Rows {
    ApplyAll(map[], history)
  }

  // ---- What a row holds ------------------------------------------------------------------------------

  /** The deliveries of one message, in order. */
  function Deliveries(history: seq<Write>, key: Key): seq<Doc> {
    if history == [] then []
    else
      var before, w := Deliveries(history[..|history| - 1], key), history[|history| - 1];
      if w.Upsert? && w.doc.key == key then before + [w.doc] else before
  }

  /** The media outcomes recorded for a message since its first delivery, in order. */
  function Outcomes(history: seq<Write>, key: Key): seq<Media> {
    if history == [] then []
    else
      var earlier, w := history[..|history| - 1], history[|history| - 1];
      if w.Attach? && w.key == key && Deliveries(earlier, key) != [] then Outcomes(earlier, key) + [w.media]
      else Outcomes(earlier, key)
  }

  function MediaAfter(first: Descriptor, outcomes: seq<Media>): StoredMedia {
    if outcomes == [] then StoredMedia(first, None, 0)
    else
      var latest := outcomes[|outcomes| - 1];
      StoredMedia(latest.descriptor, Some(latest.details), |outcomes|)
  }

  /**
   After any history there is one row per delivered message. It identifies the message as its first delivery
   did, parses it as its last delivery did, and its media is the last recorded outcome, or else the first
   delivery's descriptor, whatever was delivered since.
   */
  lemma {:induction false} RowHolds(history: seq<Write>, key: Key)
    ensures var deliveries := Deliveries(history, key);
            if deliveries == [] then key !in After(history)
            else
              && key in After(history)
              && After(history)[key] == Row(
                   deliveries[0].identity, deliveries[|deliveries| - 1].parse,
                   MediaAfter(deliveries[0].media, Outcomes(history, key)))
    ensures Deliveries(history, key) == [] ==> Outcomes(history, key) == []
    decreases |history|
  {
    if history != [] {
      RowHolds(history[..|history| - 1], key);
    }
  }

  // ---- Counting new documents ------------------------------------------------------------------------

  /** The write created a row, and the save it belongs to is among `saves`. */
  predicate Creates(rows: Rows, w: Write, saves: set<nat>) {
    w.Upsert? && w.doc.key !in rows && w.save in saves
  }

  /** How many rows the given saves created: what they return when they succeed. */
  function Created(history: seq<Write>, saves: set<nat>): nat {
    if history == [] then 0
    else
      var earlier := history[..|history| - 1];
      Created(earlier, saves) + if Creates(After(earlier), history[|history| - 1], saves) then 1 else 0
  }

  function Saves(history: seq<Write>): set<nat> {
    set i | 0 <= i < |history| && history[i].Upsert? :: history[i].save
  }

  lemma {:induction false} RowsAreCreated(history: seq<Write>, succeeded: set<nat>)
    ensures |After(history)| == Created(history, succeeded) + Created(history, Saves(history) - succeeded)
    decreases |history|
  {
    if history != [] {
      var n := |history| - 1;
      var earlier, w := history[..n], history[n];
      RowsAreCreated(earlier, succeeded);
      SavesGrow(history);
      CreatedBySaves(earlier, Saves(earlier) - succeeded, Saves(history) - succeeded);
    }
  }

  lemma SavesGrow(history: seq<Write>)
    requires history != []
    ensures Saves(history[..|history| - 1]) <= Saves(history)
    ensures var w := history[|history| - 1]; w.Upsert? ==> w.save in Saves(history)
  {
    var earlier := history[..|history| - 1];
    forall save <- Saves(earlier) ensures save in Saves(history) {
      var i :| 0 <= i < |earlier| && earlier[i].Upsert? && earlier[i].save == save;
      assert history[i].save == save;
    }
    var w := history[|history| - 1];
    if w.Upsert? {
      assert history[|history| - 1].save == w.save;
    }
  }

  /** Saves that wrote nothing yet created nothing. */
  lemma {:induction false} CreatedBySaves(history: seq<Write>, some: set<nat>, more: set<nat>)
    requires some <= more && forall save <- more - some :: save !in Saves(history)
    ensures Created(history, more) == Created(history, some)
    decreases |history|
  {
    if history != [] {
      SavesGrow(history);
      CreatedBySaves(history[..|history| - 1], some, more);
      var w := history[|history| - 1];
      assert w.Upsert? ==> w.save !in more - some;
    }
  }

  predicate CreatesNothing(history: seq<Write>, saves: set<nat>) {
    forall i :: 0 <= i < |history| ==> !Creates(After(history[..i]), history[i], saves)
  }

  lemma OneMoreWrite(history: seq<Write>, saves: set<nat>)
    requires history != []
    ensures var n := |history| - 1;
            CreatesNothing(history, saves) <==>
            CreatesNothing(history[..n], saves) && !Creates(After(history[..n]), history[n], saves)
  {
    var n := |history| - 1;
    forall i | 0 <= i < n ensures history[..n][..i] == history[..i] {
    }
  }

  lemma {:induction false} NothingCreated(history: seq<Write>, saves: set<nat>)
    ensures Created(history, saves) == 0 <==> CreatesNothing(history, saves)
    decreases |history|
  {
    if history != [] {
      NothingCreated(history[..|history| - 1], saves);
      OneMoreWrite(history, saves);
    }
  }

  /**
   The documents all successful saves returned number the rows exactly when no failed save had created a row
   before it failed.
   */
  lemma ReportsCountRows(history: seq<Write>, succeeded: set<nat>)
    ensures Created(history, succeeded) <= |After(history)|
    ensures Created(history, succeeded) == |After(history)| <==> CreatesNothing(history, Saves(history) - succeeded)
  {
    RowsAreCreated(history, succeeded);
    NothingCreated(history, Saves(history) - succeeded);
  }

  /** A bulk write that fails after its first upsert leaves a row nobody counts as new, then or on any redelivery. */
  lemma UncountedRow(doc: Doc)
    ensures var history := [Upsert(0, doc), Upsert(1, doc)];
            |After(history)| == 1 && Created(history, {1}) == 0
  {
    var history := [Upsert(0, doc), Upsert(1, doc)];
    assert history[..1] == [Upsert(0, doc)] && history[..1][..0] == [];
    var first := Apply(map[], history[0]);
    assert ApplyAll(map[], history[..1]) == first;
    assert first.Keys == {doc.key} && Apply(first, history[1]).Keys == {doc.key};
    assert Created(history[..1], {1}) == 0;
  }

  // ---- The store -------------------------------------------------------------------------------------

  /** An order in which a bulk write's upserts took effect: all of them, or, when it failed, some. */
  predicate IsOrder(order: seq<nat>, count: nat, ok: bool) {
    && (forall i :: 0 <= i < |order| ==> order[i] < count)
    && (forall i, j :: 0 <= i < j < |order| ==> order[i] != order[j])
    && (ok ==> forall index: nat :: index < count ==> index in order)
  }

  function Upserts(save: nat, docs: seq<Doc>, order: seq<nat>): (writes: seq<Write>)
    requires forall i :: 0 <= i < |order| ==> order[i] < |docs|
    ensures |writes| == |order|
    ensures forall i :: 0 <= i < |writes| ==> writes[i] == Upsert(save, docs[order[i]])
  {
    if order == [] then []
    else Upserts(save, docs, order[..|order| - 1]) + [Upsert(save, docs[order[|order| - 1]])]
  }

  predicate HasKey(docs: seq<Doc>, key: Key) {
    exists i :: 0 <= i < |docs| && docs[i].key == key
  }

  /** Each key occurs once, and those that occur are these. */
  predicate KeysOnce(docs: seq<Doc>, keys: set<Key>) {
    && |docs| == |keys|
    && (forall i :: 0 <= i < |docs| ==> docs[i].key in keys)
    && (forall key <- keys :: HasKey(docs, key))
  }

  lemma UpsertsApply(rows: Rows, save: nat, docs: seq<Doc>, order: seq<nat>, next: nat)
    requires next < |docs| && forall i :: 0 <= i < |order| ==> order[i] < |docs|
    ensures ApplyAll(rows, Upserts(save, docs, order + [next])) ==
            Apply(ApplyAll(rows, Upserts(save, docs, order)), Upsert(save, docs[next]))
  {
    var longer := order + [next];
    assert longer[..|order|] == order;
    var writes := Upserts(save, docs, order);
    assert (writes + [Upsert(save, docs[next])])[..|writes|] == writes;
  }

  lemma {:induction false} UpsertsCover(rows: Rows, save: nat, docs: seq<Doc>, order: seq<nat>)
    requires forall i :: 0 <= i < |order| ==> order[i] < |docs|
    ensures forall index <- order :: docs[index].key in ApplyAll(rows, Upserts(save, docs, order))
    decreases |order|
  {
    if order != [] {
      var n := |order| - 1;
      UpsertsCover(rows, save, docs, order[..n]);
      UpsertsApply(rows, save, docs, order[..n], order[n]);
      assert order == order[..n] + [order[n]];
    }
  }

  /** A written document is new exactly when its key is. */
  lemma MaybeAddKey(created: seq<Doc>, base: set<Key>, before: set<Key>, doc: Doc)
    requires base <= before && KeysOnce(created, before - base)
    ensures KeysOnce(if doc.key in before then created else created + [doc], (before + {doc.key}) - base)
  {
    if doc.key in before {
      assert (before + {doc.key}) - base == before - base;
    } else {
      assert (before + {doc.key}) - base == (before - base) + {doc.key};
      AddKey(created, before - base, doc);
    }
  }

  /** The rows these upserts make of `base`. */
  ghost predicate WroteRows(base: Rows, rows: Rows, save: nat, docs: seq<Doc>, order: seq<nat>) {
    (forall i :: 0 <= i < |order| ==> order[i] < |docs|) && rows == ApplyAll(base, Upserts(save, docs, order))
  }

  /** These documents created the rows that are new. */
  ghost predicate WroteKeys(base: set<Key>, keys: set<Key>, docs: seq<Doc>, created: seq<Doc>) {
    base <= keys && KeysOnce(created, keys - base) && AllFrom(created, docs)
  }

  predicate AllFrom(some: seq<Doc>, docs: seq<Doc>) {
    forall i :: 0 <= i < |some| ==> some[i] in docs
  }

  /** Each of these documents is the one its row was created from. */
  predicate Made(rows: Rows, created: seq<Doc>) {
    forall i :: 0 <= i < |created| ==>
      && created[i].key in rows && rows[created[i].key].identity == created[i].identity
      && rows[created[i].key].media == StoredMedia(created[i].media, None, 0)
  }

  lemma MadeOneMore(rows: Rows, later: Rows, save: nat, doc: Doc, created: seq<Doc>)
    requires Made(rows, created) && later == Apply(rows, Upsert(save, doc))
    ensures Made(later, if doc.key in rows then created else created + [doc])
  {
  }

  lemma OneMoreFrom(some: seq<Doc>, docs: seq<Doc>, next: nat)
    requires next < |docs| && AllFrom(some, docs)
    ensures AllFrom(some + [docs[next]], docs)
  {
  }

  lemma WroteOneMore(base: Rows, rows: Rows, later: Rows, save: nat, docs: seq<Doc>, order: seq<nat>, next: nat)
    requires next < |docs| && WroteRows(base, rows, save, docs, order) && later == Apply(rows, Upsert(save, docs[next]))
    ensures WroteRows(base, later, save, docs, order + [next])
  {
    UpsertsApply(base, save, docs, order, next);
  }

  lemma CreatedOneMore(base: set<Key>, before: set<Key>, later: set<Key>, docs: seq<Doc>, next: nat, created: seq<Doc>)
    requires next < |docs| && WroteKeys(base, before, docs, created) && later == before + {docs[next].key}
    ensures WroteKeys(base, later, docs, if docs[next].key in before then created else created + [docs[next]])
  {
    MaybeAddKey(created, base, before, docs[next]);
    OneMoreFrom(created, docs, next);
  }

  lemma PrefixNext(order: seq<nat>, i: nat)
    requires i < |order|
    ensures order[..i + 1] == order[..i] + [order[i]]
  {
  }

  lemma PrefixAll(order: seq<nat>)
    ensures order[..|order|] == order
  {
  }

  class Store {
    var rows: Rows

    constructor ()
      ensures rows == map[]
    {
      rows := map[];
    }

    /** One upsert: the first delivery creates the row, a later one rewrites only its parse. */
    method Write(save: nat, doc: Doc) returns (isNew: bool)
      modifies this
      ensures rows == Apply(old(rows), Upsert(save, doc))
      ensures isNew <==> doc.key !in old(rows)
      ensures rows.Keys == old(rows).Keys + {doc.key}
    {
      isNew := doc.key !in rows;
      if isNew {
        rows := rows[doc.key := Row(doc.identity, doc.parse, StoredMedia(doc.media, None, 0))];
      } else {
        rows := rows[doc.key := rows[doc.key].(parse := doc.parse)];
      }
    }

    /** The upserts of one bulk write that took effect, and the documents that created a row. */
    method BulkWrite(save: nat, docs: seq<Doc>, order: seq<nat>) returns (created: seq<Doc>)
      requires forall i :: 0 <= i < |order| ==> order[i] < |docs|
      modifies this
      ensures rows == ApplyAll(old(rows), Upserts(save, docs, order))
      ensures KeysOnce(created, rows.Keys - old(rows).Keys)
      ensures AllFrom(created, docs) && Made(rows, created)
    {
      created := [];
      ghost var base := rows;
      for i := 0 to |order|
        invariant WroteRows(base, rows, save, docs, order[..i])
        invariant WroteKeys(base.Keys, rows.Keys, docs, created)
        invariant Made(rows, created)
      {
        ghost var before := rows;
        var doc := docs[order[i]];
        var isNew := Write(save, doc);
        WroteOneMore(base, before, rows, save, docs, order[..i], order[i]);
        CreatedOneMore(base.Keys, before.Keys, rows.Keys, docs, order[i], created);
        MadeOneMore(before, rows, save, doc, created);
        PrefixNext(order, i);
        created := if isNew then created + [doc] else created;
      }
      PrefixAll(order);
    }

    /**
     Returns the delivered documents that are new, one for each row it created. `order` and `ok` are the
     database's; when the bulk write fails the rows it made remain.
     */
    method Save(save: nat, docs: seq<Doc>, order: seq<nat>, ok: bool) returns (stored: Option<seq<Doc>>)
      requires IsOrder(order, |docs|, ok)
      modifies this
      ensures stored.Some? <==> ok || docs == []
      ensures rows == ApplyAll(old(rows), Upserts(save, docs, order))
      ensures stored.Some? ==> forall i :: 0 <= i < |docs| ==> docs[i].key in rows
      ensures stored.Some? ==> KeysOnce(stored.value, rows.Keys - old(rows).Keys)
      ensures stored.Some? ==> AllFrom(stored.value, docs) && Made(rows, stored.value)
    {
      if |docs| == 0 {
        return Some([]);
      }
      var created := BulkWrite(save, docs, order);
      if !ok {
        return None;
      }
      UpsertsCover(old(rows), save, docs, order);
      return Some(created);
    }

    /** Records one media outcome. A message that was never stored is left alone. */
    method SaveMedia(key: Key, media: Media)
      modifies this
      ensures rows == Apply(old(rows), Attach(key, media))
      ensures key !in old(rows) ==> rows == old(rows)
    {
      if key in rows {
        rows := rows[key := rows[key].(
          media := StoredMedia(media.descriptor, Some(media.details), rows[key].media.attempts + 1))];
      }
    }
  }

  lemma AddKey(docs: seq<Doc>, keys: set<Key>, doc: Doc)
    requires KeysOnce(docs, keys) && doc.key !in keys
    ensures KeysOnce(docs + [doc], keys + {doc.key})
  {
    var more := docs + [doc];
    forall key <- keys + {doc.key} ensures HasKey(more, key) {
      if key == doc.key {
        assert more[|docs|].key == key;
      } else {
        assert HasKey(docs, key);
        var i :| 0 <= i < |docs| && docs[i].key == key;
        assert more[i].key == key;
      }
    }
  }

  // ---- What the saves report -------------------------------------------------------------------------

  /** One call of the store, with the database's answer to it. */
  datatype Request = SaveDocs(docs: seq<Doc>, order: seq<nat>, ok: bool) | SaveOutcome(key: Key, media: Media)

  predicate Possible(r: Request) {
    r.SaveDocs? ==> IsOrder(r.order, |r.docs|, r.ok)
  }

  function WritesOf(save: nat, r: Request): seq<Write>
    requires Possible(r)
  {
    match r
    case SaveDocs(docs, order, _) => Upserts(save, docs, order)
    case SaveOutcome(key, media) => [Attach(key, media)]
  }

  /** The writes of the calls so far; a save is numbered by its place. */
  function HistoryOf(requests: seq<Request>): seq<Write>
    requires forall i :: 0 <= i < |requests| ==> Possible(requests[i])
  {
    if requests == [] then []
    else
      var n := |requests| - 1;
      HistoryOf(requests[..n]) + WritesOf(n, requests[n])
  }

  /** The call reports what it created. */
  predicate Reports(r: Request) {
    r.SaveDocs? && (r.ok || r.docs == [])
  }

  function Succeeded(requests: seq<Request>): set<nat> {
    set i | 0 <= i < |requests| && Reports(requests[i]) :: i
  }

  lemma {:induction false} HistoryJoins(history: seq<Write>, writes: seq<Write>)
    ensures After(history + writes) == ApplyAll(After(history), writes)
    decreases |writes|
  {
    if writes == [] {
      assert history + writes == history;
    } else {
      var n := |writes| - 1;
      assert (history + writes)[..|history| + n] == history + writes[..n];
      HistoryJoins(history, writes[..n]);
    }
  }

  lemma CreatedNext(history: seq<Write>, w: Write, saves: set<nat>)
    ensures After(history + [w]) == Apply(After(history), w)
    ensures Created(history + [w], saves) == Created(history, saves) + if Creates(After(history), w, saves) then 1 else 0
  {
    assert (history + [w])[..|history|] == history;
  }

  /** One save's upserts create as many rows as there are more of, which count if the save does. */
  lemma {:induction false} SaveCreates(history: seq<Write>, save: nat, writes: seq<Write>, saves: set<nat>)
    requires forall i :: 0 <= i < |writes| ==> writes[i].Upsert? && writes[i].save == save
    ensures Created(history + writes, saves) ==
            Created(history, saves) + if save in saves then |After(history + writes)| - |After(history)| else 0
    decreases |writes|
  {
    if writes == [] {
      assert history + writes == history;
    } else {
      var n := |writes| - 1;
      var earlier := history + writes[..n];
      SaveCreates(history, save, writes[..n], saves);
      assert history + writes == earlier + [writes[n]];
      CreatedNext(earlier, writes[n], saves);
      OneWrite(After(earlier), writes[n]);
    }
  }

  lemma OneWrite(rows: Rows, w: Write)
    requires w.Upsert?
    ensures Apply(rows, w).Keys == rows.Keys + {w.doc.key}
    ensures |Apply(rows, w)| == |rows| + if w.doc.key in rows then 0 else 1
  {
    var later := Apply(rows, w);
    assert later.Keys == rows.Keys + {w.doc.key};
    assert |later| == |later.Keys| && |rows| == |rows.Keys|;
    if w.doc.key in rows {
      assert later.Keys == rows.Keys;
    }
  }

  lemma {:induction false} SavesAreEarlier(requests: seq<Request>)
    requires forall i :: 0 <= i < |requests| ==> Possible(requests[i])
    ensures forall save <- Saves(HistoryOf(requests)) :: save < |requests|
    decreases |requests|
  {
    if requests != [] {
      var n := |requests| - 1;
      SavesAreEarlier(requests[..n]);
      var history, whole := HistoryOf(requests[..n]), HistoryOf(requests);
      forall save <- Saves(whole) ensures save <= n {
        var i :| 0 <= i < |whole| && whole[i].Upsert? && whole[i].save == save;
        if i < |history| {
          assert history[i].save in Saves(history);
        }
      }
    }
  }

  lemma NextWrites(requests: seq<Request>, n: nat)
    requires n < |requests| && forall i :: 0 <= i < |requests| ==> Possible(requests[i])
    ensures HistoryOf(requests[..n + 1]) == HistoryOf(requests[..n]) + WritesOf(n, requests[n])
  {
    assert requests[..n + 1][..n] == requests[..n];
  }

  lemma NextSucceeded(requests: seq<Request>, n: nat)
    requires n < |requests|
    ensures Succeeded(requests[..n + 1]) == Succeeded(requests[..n]) + if Reports(requests[n]) then {n} else {}
  {
  }

  /** One more call: a successful save adds the rows it made to the count, and nothing else does. */
  lemma OneMoreCall(earlier: seq<Write>, n: nat, r: Request, some: set<nat>, more: set<nat>)
    requires Possible(r) && (forall save <- Saves(earlier) :: save < n) && (forall save <- some :: save < n)
    requires more == some + if Reports(r) then {n} else {}
    ensures var later := earlier + WritesOf(n, r);
            Created(later, more) == Created(earlier, some) + if Reports(r) then |After(later)| - |After(earlier)| else 0
  {
    CreatedBySaves(earlier, some, more);
    match r
    case SaveDocs(docs, order, _) => SaveCreates(earlier, n, Upserts(n, docs, order), more);
    case SaveOutcome(key, media) => CreatedNext(earlier, Attach(key, media), more);
  }

  method ServeOne(store: Store, n: nat, r: Request) returns (reported: nat)
    requires Possible(r)
    modifies store
    ensures store.rows == ApplyAll(old(store.rows), WritesOf(n, r))
    ensures reported == if Reports(r) then |store.rows| - |old(store.rows)| else 0
  {
    match r
    case SaveDocs(docs, order, ok) =>
      var stored := store.Save(n, docs, order, ok);
      KeysGrow(old(store.rows), Upserts(n, docs, order));
      if stored.Some? {
        NewKeys(old(store.rows), store.rows, stored.value);
        return |stored.value|;
      }
      return 0;
    case SaveOutcome(key, media) =>
      store.SaveMedia(key, media);
      assert [Attach(key, media)][..0] == [];
      return 0;
  }

  lemma {:induction false} KeysGrow(rows: Rows, writes: seq<Write>)
    ensures rows.Keys <= ApplyAll(rows, writes).Keys
    decreases |writes|
  {
    if writes != [] {
      KeysGrow(rows, writes[..|writes| - 1]);
    }
  }

  /**
   What the worker counts as new over any calls: the documents its successful saves returned. They never outnumber the
   rows, and number them exactly when every upsert a failed bulk write got through met a row that was there.
   */
  method Serve(requests: seq<Request>) returns (rows: Rows, reported: nat)
    requires forall i :: 0 <= i < |requests| ==> Possible(requests[i])
    ensures rows == After(HistoryOf(requests)) && reported <= |rows|
    ensures reported == |rows| <==> CreatesNothing(HistoryOf(requests), Saves(HistoryOf(requests)) - Succeeded(requests))
  {
    var store := new Store();
    reported := 0;
    for n := 0 to |requests|
      invariant store.rows == After(HistoryOf(requests[..n]))
      invariant reported == Created(HistoryOf(requests[..n]), Succeeded(requests[..n]))
    {
      var some := ServeOne(store, n, requests[n]);
      CallCounts(requests, n);
      reported := reported + some;
    }
    assert requests[..|requests|] == requests;
    ReportsCountRows(HistoryOf(requests), Succeeded(requests));
    rows := store.rows;
  }

  lemma CallCounts(requests: seq<Request>, n: nat)
    requires n < |requests| && forall i :: 0 <= i < |requests| ==> Possible(requests[i])
    ensures var earlier, later := HistoryOf(requests[..n]), HistoryOf(requests[..n + 1]);
            && After(later) == ApplyAll(After(earlier), WritesOf(n, requests[n]))
            && Created(later, Succeeded(requests[..n + 1])) == Created(earlier, Succeeded(requests[..n]))
               + if Reports(requests[n]) then |After(later)| - |After(earlier)| else 0
  {
    NextWrites(requests, n);
    NextSucceeded(requests, n);
    SavesAreEarlier(requests[..n]);
    HistoryJoins(HistoryOf(requests[..n]), WritesOf(n, requests[n]));
    OneMoreCall(HistoryOf(requests[..n]), n, requests[n], Succeeded(requests[..n]), Succeeded(requests[..n + 1]));
  }

  lemma NewKeys(before: Rows, after: Rows, stored: seq<Doc>)
    requires before.Keys <= after.Keys && KeysOnce(stored, after.Keys - before.Keys)
    ensures |stored| == |after| - |before|
  {
    assert after.Keys == before.Keys + (after.Keys - before.Keys);
    assert |after| == |after.Keys| && |before| == |before.Keys|;
  }
}
