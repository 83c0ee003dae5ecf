/**
 The ingest queue: producers hand documents to a bounded channel without blocking, one consumer writes them
 in batches, and a shutdown hands over what is still buffered. Every action below is one locked section, one
 atomic counter update or one answer of the store, so an interleaving is a sequence of actions.
 */
module Ingest {
  import opened MessageStore

  /** What the consumer's loop is doing: choosing, waiting for the store, or gone. */
  datatype Phase = Choosing | Saving(last: bool) | Returned

  /** A batch handed to the store, and whether the store reported success. */
  datatype Handover = Handover(docs: seq<Doc>, ok: bool)

  /** The last three fields are history: every document offered, and those the channel took or refused. */
  datatype Queue = Queue(
    channel: seq<Doc>, stopped: bool, dropped: nat, uncounted: nat, batch: seq<Doc>, phase: Phase, flushes: seq<Handover>,
    offered: seq<Doc>, accepted: seq<Doc>, refused: seq<Doc>)

  datatype Action =
    | Offer(doc: Doc)
    | Count
    | Receive
    | Tick
    | Cancel
    | Answer(ok: bool)

  const EMPTY: Queue := Queue([], false, 0, 0, [], Choosing, [], [], [], [])

  /** A non-positive size would drop everything, so it is clamped to one. */
  function Capacity(size: int): (capacity: nat)
    ensures capacity >= 1 && (size >= 1 ==> capacity == size)
  {
    if size < 1 then 1 else size
  }

  predicate Enabled(q: Queue, a: Action) {
    match a
    case Offer(_) => true
    case Count => q.uncounted > 0
    case Receive => q.phase.Choosing? && q.channel != []
    case Tick => q.phase.Choosing?
    case Cancel => q.phase.Choosing?
    case Answer(_) => q.phase.Saving?
  }

  /** Hands the batch to the store, or, when it is empty, does not. */
  function StartFlush(q: Queue, last: bool): Queue {
    if q.batch != [] then q.(phase := Saving(last)) else if last then q.(phase := Returned) else q
  }

  function Step(q: Queue, a: Action, capacity: nat, flushMax: int): Queue
    requires Enabled(q, a)
  {
    match a
    case Offer(doc) =>
      if q.stopped || |q.channel| >= capacity
      then q.(offered := q.offered + [doc], refused := q.refused + [doc], uncounted := q.uncounted + 1)
      else q.(offered := q.offered + [doc], accepted := q.accepted + [doc], channel := q.channel + [doc])
    case Count => q.(uncounted := q.uncounted - 1, dropped := q.dropped + 1)
    case Receive =>
      var taken := q.(channel := q.channel[1..], batch := q.batch + [q.channel[0]]);
      if 0 < flushMax <= |taken.batch| then StartFlush(taken, false) else taken
    case Tick => StartFlush(q, false)
    case Cancel => StartFlush(q.(stopped := true, batch := q.batch + q.channel, channel := []), true)
    case Answer(ok) =>
      q.(flushes := q.flushes + [Handover(q.batch, ok)], batch := [],
         dropped := if ok then q.dropped else q.dropped + |q.batch|,
         phase := if q.phase.last then Returned else Choosing)
  }

  /** The documents of the flushes that were answered `ok`. */
  function Flushed(flushes: seq<Handover>, ok: bool): seq<Doc> {
    if flushes == [] then []
    else
      var earlier, f := Flushed(flushes[..|flushes| - 1], ok), flushes[|flushes| - 1];
      if f.ok == ok then earlier + f.docs else earlier
  }

  /** Everything handed to the store, in order. */
  function Handed(flushes: seq<Handover>): seq<Doc> {
    if flushes == [] then [] else Handed(flushes[..|flushes| - 1]) + flushes[|flushes| - 1].docs
  }

  function Written(q: Queue): seq<Doc> { Flushed(q.flushes, true) }

  function Lost(q: Queue): seq<Doc> { Flushed(q.flushes, false) }

  // ---- What every action keeps -----------------------------------------------------------------------

  predicate Inv(q: Queue, capacity: nat, flushMax: int) {
    && |q.channel| <= capacity
    && (q.stopped <==> q.phase == Saving(true) || q.phase.Returned?)
    && (q.stopped ==> q.channel == [])
    && (q.phase.Saving? ==> q.batch != [])
    && (q.phase.Returned? ==> q.batch == [])
    && (q.phase.Choosing? && flushMax > 0 ==> |q.batch| < flushMax)
    && (q.phase == Saving(false) && flushMax > 0 ==> |q.batch| <= flushMax)
    && (q.phase == Saving(true) && flushMax > 0 ==> |q.batch| < flushMax + capacity)
    && q.accepted == Handed(q.flushes) + q.batch + q.channel
    && q.dropped + q.uncounted == |q.refused| + |Lost(q)|
    && multiset(q.offered) == multiset(q.accepted) + multiset(q.refused)
    && multiset(Handed(q.flushes)) == multiset(Written(q)) + multiset(Lost(q))
  }

  lemma AnswerKeepsInv(q: Queue, ok: bool, capacity: nat, flushMax: int)
    requires Inv(q, capacity, flushMax) && q.phase.Saving?
    ensures Inv(Step(q, Answer(ok), capacity, flushMax), capacity, flushMax)
  {
    var r := Step(q, Answer(ok), capacity, flushMax);
    assert r.flushes[..|q.flushes|] == q.flushes;
  }

  lemma ReceiveKeepsInv(q: Queue, capacity: nat, flushMax: int)
    requires Inv(q, capacity, flushMax) && Enabled(q, Receive)
    ensures Inv(Step(q, Receive, capacity, flushMax), capacity, flushMax)
  {
    var r := Step(q, Receive, capacity, flushMax);
    assert q.channel == [q.channel[0]] + q.channel[1..];
    assert r.accepted == Handed(r.flushes) + r.batch + r.channel;
  }

  lemma CancelKeepsInv(q: Queue, capacity: nat, flushMax: int)
    requires Inv(q, capacity, flushMax) && q.phase.Choosing?
    ensures Inv(Step(q, Cancel, capacity, flushMax), capacity, flushMax)
  {
    var r := Step(q, Cancel, capacity, flushMax);
    assert r.accepted == Handed(r.flushes) + r.batch + r.channel;
  }

  lemma OfferKeepsInv(q: Queue, doc: Doc, capacity: nat, flushMax: int)
    requires Inv(q, capacity, flushMax)
    ensures Inv(Step(q, Offer(doc), capacity, flushMax), capacity, flushMax)
  {
    var r := Step(q, Offer(doc), capacity, flushMax);
    assert r.accepted == Handed(r.flushes) + r.batch + r.channel;
  }

  lemma StepKeepsInv(q: Queue, a: Action, capacity: nat, flushMax: int)
    requires Inv(q, capacity, flushMax) && Enabled(q, a)
    ensures Inv(Step(q, a, capacity, flushMax), capacity, flushMax)
  {
    match a
    case Offer(doc) => OfferKeepsInv(q, doc, capacity, flushMax);
    case Receive => ReceiveKeepsInv(q, capacity, flushMax);
    case Cancel => CancelKeepsInv(q, capacity, flushMax);
    case Answer(ok) => AnswerKeepsInv(q, ok, capacity, flushMax);
    case _ =>
  }

  /** `q` follows `p` by the given actions, whoever takes them. */
  predicate Leads(p: Queue, actions: seq<Action>, q: Queue, capacity: nat, flushMax: int)
    decreases |actions|
  {
    if actions == [] then p == q
    else Enabled(p, actions[0]) && Leads(Step(p, actions[0], capacity, flushMax), actions[1..], q, capacity, flushMax)
  }

  lemma {:induction false} RunKeepsInv(p: Queue, actions: seq<Action>, q: Queue, capacity: nat, flushMax: int)
    requires Inv(p, capacity, flushMax) && Leads(p, actions, q, capacity, flushMax)
    ensures Inv(q, capacity, flushMax)
    decreases |actions|
  {
    if actions != [] {
      StepKeepsInv(p, actions[0], capacity, flushMax);
      RunKeepsInv(Step(p, actions[0], capacity, flushMax), actions[1..], q, capacity, flushMax);
    }
  }

  /**
   Conservation, in every reachable state: each offered document is written, lost in a failed flush, refused,
   in the channel or in the batch, and only one of these. The drop counter counts the refused and the lost,
   but for producers that have not counted theirs yet. Accepted documents are handed over in order, the depth
   never exceeds the capacity, and a batch stays below the flush size but for the shutdown's, which may add a
   full channel.
   */
  lemma NothingVanishes(size: int, flushMax: int, actions: seq<Action>, q: Queue)
    requires Leads(EMPTY, actions, q, Capacity(size), flushMax)
    ensures multiset(q.offered) ==
            multiset(Written(q)) + multiset(Lost(q)) + multiset(q.refused) + multiset(q.channel) + multiset(q.batch)
    ensures |q.offered| == |Written(q)| + q.dropped + q.uncounted + |q.channel| + |q.batch|
    ensures q.accepted == Handed(q.flushes) + q.batch + q.channel
    ensures |q.channel| <= Capacity(size)
    ensures flushMax > 0 ==> |q.batch| < flushMax + if q.stopped then Capacity(size) else 1
  {
    RunKeepsInv(EMPTY, actions, q, Capacity(size), flushMax);
    assert |q.offered| == |multiset(q.offered)|;
  }

  /** Over every run, a document is refused exactly when it comes while the queue is closed or has no place left. */
  lemma RefusedWhenFull(size: int, flushMax: int, actions: seq<Action>, q: Queue, a: Action)
    requires Leads(EMPTY, actions, q, Capacity(size), flushMax) && Enabled(q, a)
    ensures var r := Step(q, a, Capacity(size), flushMax);
            && (r.refused != q.refused <==> a.Offer? && (q.stopped || |q.channel| == if size < 1 then 1 else size))
            && (r.refused != q.refused ==> r.refused == q.refused + [a.doc] && r.channel == q.channel && r.accepted == q.accepted)
            && (a.Offer? && r.refused == q.refused ==> r.channel == q.channel + [a.doc])
  {
    RunKeepsInv(EMPTY, actions, q, Capacity(size), flushMax);
  }

  /** The consumer hands a batch over on receiving exactly when it has come to the flush size. */
  lemma FlushedWhenFull(size: int, flushMax: int, actions: seq<Action>, q: Queue)
    requires Leads(EMPTY, actions, q, Capacity(size), flushMax) && Enabled(q, Receive)
    ensures var r := Step(q, Receive, Capacity(size), flushMax);
            && r.batch == q.batch + [q.channel[0]] && r.flushes == q.flushes
            && (r.phase.Saving? <==> flushMax > 0 && |r.batch| == flushMax)
  {
    RunKeepsInv(EMPTY, actions, q, Capacity(size), flushMax);
  }

  /** A timer's tick hands over what the batch holds, if anything, and leaves the queue open. */
  lemma TickHandsOver(q: Queue, capacity: nat, flushMax: int)
    requires Enabled(q, Tick)
    ensures var r := Step(q, Tick, capacity, flushMax);
            && r.batch == q.batch && r.channel == q.channel && r.stopped == q.stopped && !r.phase.Returned?
            && (r.phase.Saving? <==> q.batch != [])
  {
  }

  /** Cancelling closes the queue first, and then hands over everything it held, in order, before the consumer returns. */
  lemma CancelHandsOverAll(q: Queue, capacity: nat, flushMax: int)
    requires Enabled(q, Cancel)
    ensures var r := Step(q, Cancel, capacity, flushMax);
            && r.stopped && r.channel == [] && r.batch == q.batch + q.channel && r.flushes == q.flushes
            && (if r.batch == [] then r.phase.Returned? else r.phase == Saving(true))
  {
  }

  /** Over every run only cancelling closes the queue, and nothing opens it again. */
  lemma {:induction false} OnlyCancelCloses(q: Queue, actions: seq<Action>, r: Queue, capacity: nat, flushMax: int)
    requires Leads(q, actions, r, capacity, flushMax)
    ensures r.stopped <==> q.stopped || Cancel in actions
    decreases |actions|
  {
    if actions != [] {
      OnlyCancelCloses(Step(q, actions[0], capacity, flushMax), actions[1..], r, capacity, flushMax);
      assert Cancel in actions <==> actions[0] == Cancel || Cancel in actions[1..];
    }
  }

  /** After the consumer returned nothing is buffered, and once producers have counted, all is written or dropped. */
  lemma ShutdownSettles(size: int, flushMax: int, actions: seq<Action>, q: Queue)
    requires Leads(EMPTY, actions, q, Capacity(size), flushMax) && q.phase.Returned?
    ensures q.stopped && q.channel == [] && q.batch == []
    ensures q.accepted == Handed(q.flushes)
    ensures |q.offered| == |Written(q)| + q.dropped + q.uncounted
    ensures multiset(q.offered) == multiset(Written(q)) + multiset(Lost(q)) + multiset(q.refused)
  {
    NothingVanishes(size, flushMax, actions, q);
    RunKeepsInv(EMPTY, actions, q, Capacity(size), flushMax);
  }

  /** Once the queue is closed nothing more is accepted, and at most one flush follows: the last. */
  lemma {:induction false} ClosedStaysClosed(p: Queue, actions: seq<Action>, q: Queue, capacity: nat, flushMax: int)
    requires Inv(p, capacity, flushMax) && p.stopped && Leads(p, actions, q, capacity, flushMax)
    ensures q.stopped && q.accepted == p.accepted && Handed(q.flushes) + q.batch == p.accepted
    ensures |q.flushes| <= |p.flushes| + if p.phase.Returned? then 0 else 1
    decreases |actions|
  {
    if actions != [] {
      StepKeepsInv(p, actions[0], capacity, flushMax);
      ClosedStaysClosed(Step(p, actions[0], capacity, flushMax), actions[1..], q, capacity, flushMax);
    }
  }

  // ---- The queue -------------------------------------------------------------------------------------

  ghost predicate Reaches(p: Queue, q: Queue, capacity: nat, flushMax: int) {
    exists actions :: Leads(p, actions, q, capacity, flushMax)
  }

  lemma {:induction false} LeadsOn(p: Queue, actions: seq<Action>, q: Queue, more: seq<Action>, r: Queue, capacity: nat, flushMax: int)
    requires Leads(p, actions, q, capacity, flushMax) && Leads(q, more, r, capacity, flushMax)
    ensures Leads(p, actions + more, r, capacity, flushMax)
    decreases |actions|
  {
    if actions == [] {
      assert actions + more == more;
    } else {
      assert (actions + more)[1..] == actions[1..] + more;
      LeadsOn(Step(p, actions[0], capacity, flushMax), actions[1..], q, more, r, capacity, flushMax);
    }
  }

  lemma ReachesOn(p: Queue, q: Queue, a: Action, capacity: nat, flushMax: int)
    requires Reaches(p, q, capacity, flushMax) && Enabled(q, a)
    ensures Reaches(p, Step(q, a, capacity, flushMax), capacity, flushMax)
  {
    var actions :| Leads(p, actions, q, capacity, flushMax);
    var r := Step(q, a, capacity, flushMax);
    assert Leads(q, [a], r, capacity, flushMax);
    LeadsOn(p, actions, q, [a], r, capacity, flushMax);
  }

  /** What wakes the consumer, or what a producer does meanwhile; `ok` is the store's answer to a flush it causes. */
  datatype Turn = Producer(doc: Doc) | Ready(ok: bool) | Ticked(ok: bool)

  class IngestQueue {
    const capacity: nat
    const flushMax: int
    var channel: seq<Doc>
    var stopped: bool
    var dropped: nat
    var batch: seq<Doc>
    var returned: bool
    ghost var flushes: seq<Handover>
    ghost var offered: seq<Doc>
    ghost var accepted: seq<Doc>
    ghost var refused: seq<Doc>

    ghost function View(): Queue
      reads this
    {
      Queue(channel, stopped, dropped, 0, batch, if returned then Returned else Choosing, flushes, offered, accepted, refused)
    }

    constructor (size: int, flushMax: int)
      ensures View() == EMPTY && capacity == Capacity(size) && this.flushMax == flushMax
      ensures capacity == if size < 1 then 1 else size
    {
      capacity := if size < 1 then 1 else size;
      this.flushMax := flushMax;
      channel, stopped, dropped, batch, returned := [], false, 0, [], false;
      flushes, offered, accepted, refused := [], [], [], [];
    }

    /** Takes the document or counts it as dropped, without waiting. */
    method Enqueue(doc: Doc)
      modifies this
      ensures var q := Step(old(View()), Offer(doc), capacity, flushMax);
              View() == if q.uncounted > 0 then Step(q, Count, capacity, flushMax) else q
      ensures !old(stopped) && |old(channel)| < capacity ==> channel == old(channel) + [doc] && dropped == old(dropped)
      ensures old(stopped) || |old(channel)| >= capacity ==> channel == old(channel) && dropped == old(dropped) + 1
      ensures stopped == old(stopped) && batch == old(batch) && returned == old(returned) && flushes == old(flushes)
    {
      offered := offered + [doc];
      if stopped || |channel| >= capacity {
        dropped := dropped + 1;
        refused := refused + [doc];
        return;
      }
      channel := channel + [doc];
      accepted := accepted + [doc];
    }

    /** Closes the queue to producers and returns what it still held, in order. */
    method Stop() returns (buffered: seq<Doc>)
      modifies this`stopped, this`channel
      ensures stopped && channel == [] && buffered == old(channel)
    {
      stopped := true;
      buffered := [];
      while channel != []
        invariant stopped && buffered + channel == old(channel)
        decreases |channel|
      {
        assert channel == [channel[0]] + channel[1..];
        buffered, channel := buffered + [channel[0]], channel[1..];
      }
    }

    /** Writes the batch, if there is one; a batch the store refuses is counted as dropped. */
    method Flush(ok: bool)
      requires !returned
      modifies this`batch, this`dropped, this`flushes
      ensures var q := StartFlush(old(View()), false);
              View() == if q.phase.Saving? then Step(q, Answer(ok), capacity, flushMax) else q
      ensures batch == [] && flushes == old(flushes) + if old(batch) == [] then [] else [Handover(old(batch), ok)]
      ensures dropped == old(dropped) + if ok then 0 else |old(batch)|
    {
      if |batch| == 0 {
        return;
      }
      if !ok {
        dropped := dropped + |batch|;
      }
      flushes := flushes + [Handover(batch, ok)];
      batch := [];
    }

    /** The receiving branch of the consumer's loop. */
    method Take(ok: bool)
      requires !returned && channel != []
      modifies this
      ensures var q := Step(old(View()), Receive, capacity, flushMax);
              View() == if q.phase.Saving? then Step(q, Answer(ok), capacity, flushMax) else q
      ensures channel == old(channel[1..]) && stopped == old(stopped) && returned == old(returned)
      ensures var taken := old(batch + [channel[0]]);
              if flushMax > 0 && |taken| >= flushMax
              then batch == [] && flushes == old(flushes) + [Handover(taken, ok)] && dropped == old(dropped) + if ok then 0 else |taken|
              else batch == taken && flushes == old(flushes) && dropped == old(dropped)
    {
      batch, channel := batch + [channel[0]], channel[1..];
      if flushMax > 0 && |batch| >= flushMax {
        Flush(ok);
      }
    }

    /** The cancelled branch: the queue is closed before the final flush. */
    method Finish(ok: bool)
      requires !returned && !stopped
      modifies this
      ensures var q := Step(old(View()), Cancel, capacity, flushMax);
              View() == if q.phase.Saving? then Step(q, Answer(ok), capacity, flushMax) else q
      ensures stopped && returned && channel == [] && batch == []
      ensures var rest := old(batch + channel);
              && flushes == old(flushes) + (if rest == [] then [] else [Handover(rest, ok)])
              && dropped == old(dropped) + if ok then 0 else |rest|
    {
      var buffered := Stop();
      batch := batch + buffered;
      Flush(ok);
      returned := true;
    }

    /** The consumer's life under a schedule of turns, until it is cancelled. */
    method Run(turns: seq<Turn>, lastOk: bool)
      requires !returned && !stopped
      modifies this
      ensures returned && Reaches(old(View()), View(), capacity, flushMax)
      ensures channel == [] && batch == []
    {
      assert Leads(View(), [], View(), capacity, flushMax);
      for i := 0 to |turns|
        invariant !returned && !stopped && Reaches(old(View()), View(), capacity, flushMax)
      {
        ghost var before := View();
        match turns[i]
        case Producer(doc) =>
          ghost var q := Step(before, Offer(doc), capacity, flushMax);
          ReachesOn(old(View()), before, Offer(doc), capacity, flushMax);
          Enqueue(doc);
          if q.uncounted > 0 {
            ReachesOn(old(View()), q, Count, capacity, flushMax);
          }
        case Ready(ok) =>
          if channel != [] {
            ghost var q := Step(before, Receive, capacity, flushMax);
            ReachesOn(old(View()), before, Receive, capacity, flushMax);
            Take(ok);
            if q.phase.Saving? {
              ReachesOn(old(View()), q, Answer(ok), capacity, flushMax);
            }
          }
        case Ticked(ok) =>
          ghost var q := Step(before, Tick, capacity, flushMax);
          ReachesOn(old(View()), before, Tick, capacity, flushMax);
          Flush(ok);
          if q.phase.Saving? {
            ReachesOn(old(View()), q, Answer(ok), capacity, flushMax);
          }
      }
      ghost var before := View();
      ghost var q := Step(before, Cancel, capacity, flushMax);
      ReachesOn(old(View()), before, Cancel, capacity, flushMax);
      Finish(lastOk);
      if q.phase.Saving? {
        ReachesOn(old(View()), q, Answer(lastOk), capacity, flushMax);
      }
    }
  }
}
