/** What every operation of the event database keeps. */
module EventInvariant {
  import opened Options
  import opened EventModel
  import opened EventQueue

  /** Ids are handed out in increasing order and never again; the group index is the grouped live events. */
  ghost predicate IdsOk(db: Db) {
    && 1 <= db.nextId
    && (forall id :: id in db.events ==> 0 < id < db.nextId)
    && (forall i :: 0 <= i < |db.pending| ==> 0 < db.pending[i].event < db.nextId)
    && (forall id :: id in db.grouped <==> id in db.events && db.events[id].group.Some?)
  }

  /** A queue in dispatch order, one entry per event, tags from the past; entries of live events carry their data. */
  ghost predicate QueueOk(db: Db) {
    && Ordered(db.pending) && Distinct(db.pending)
    && (forall i :: 0 <= i < |db.pending| ==> db.pending[i].tag < db.tags)
    && (forall i :: 0 <= i < |db.pending| && db.pending[i].event in db.events ==>
         Describes(db.pending[i], db.events[db.pending[i].event]))
  }

  predicate Describes(n: Notification, e: Event) {
    && n.tpl == e.tpl && n.function_ == e.function_ && n.context == e.context
    && (e.kind.IsNotifySignal() || e.kind.IsNotifyWait())
  }

  /** Notify events have a function and a notify TPL above application level. */
  ghost predicate NotifyOk(db: Db) {
    forall id :: id in db.events && (db.events[id].kind.IsNotifySignal() || db.events[id].kind.IsNotifyWait()) ==>
      db.events[id].function_.Some? && TPL_APPLICATION < db.events[id].tpl <= TPL_HIGH_LEVEL
  }

  /** No lost and no spurious notification: a live notify-signal event is signaled exactly if it is queued. */
  ghost predicate SignalsOk(db: Db) {
    forall id :: id in db.events && db.events[id].kind.IsNotifySignal() ==>
      (db.events[id].signaled <==> Queued(db.pending, id))
  }

  ghost predicate Inv(db: Db) {
    IdsOk(db) && QueueOk(db) && NotifyOk(db) && SignalsOk(db)
  }

  lemma EmptyInv()
    ensures Inv(EMPTY)
  {
  }

  // ---------- queueing ----------

  lemma QueuedInsert(q: seq<Notification>, n: Notification, id: nat)
    ensures Queued(InsertAt(q, n), id) <==> Queued(q, id) || id == n.event
  {
    var r := InsertAt(q, n);
    if Queued(r, id) {
      var i :| 0 <= i < |r| && r[i].event == id;
      InsertAtElements(q, n, r[i]);
      if r[i] in q {
        var j :| 0 <= j < |q| && q[j] == r[i];
      }
    }
    if Queued(q, id) {
      var i :| 0 <= i < |q| && q[i].event == id;
      InsertAtElements(q, n, q[i]);
      var j :| 0 <= j < |r| && r[j] == q[i];
    }
    InsertAtElements(q, n, n);
    var j :| 0 <= j < |r| && r[j] == n;
  }

  /** Queueing the notification of a live notify event that is not queued. */
  lemma QueueNew(db: Db, id: nat)
    requires IdsOk(db) && QueueOk(db) && id in db.events && !Queued(db.pending, id)
    requires db.events[id].kind.IsNotifySignal() || db.events[id].kind.IsNotifyWait()
    ensures var db' := QueueNotify(db, id).(tags := db.tags + 1);
            && IdsOk(db') && QueueOk(db')
            && (forall x :: Queued(db'.pending, x) <==> Queued(db.pending, x) || x == id)
  {
    var e := db.events[id];
    var n := Notification(id, e.tpl, e.function_, e.context, db.tags);
    var r := InsertAt(db.pending, n);
    InsertAtOrdered(db.pending, n);
    forall x ensures Queued(r, x) <==> Queued(db.pending, x) || x == id {
      QueuedInsert(db.pending, n, x);
    }
    forall i | 0 <= i < |r| ensures r[i] == n || r[i] in db.pending {
      InsertAtElements(db.pending, n, r[i]);
    }
  }

  /** Marking keeps the invariant, and changes nothing but this event's signal and its place in the queue. */
  lemma MarkInv(db: Db, id: nat)
    requires Inv(db) && id in db.events && !db.events[id].signaled
    ensures Inv(Mark(db, id))
    ensures var r := Mark(db, id);
            && r.nextId == db.nextId && r.grouped == db.grouped
            && r.events == db.events[id := db.events[id].(signaled := true)]
  {
    var db1 := db.(events := db.events[id := db.events[id].(signaled := true)]);
    assert IdsOk(db1) && QueueOk(db1);
    if db.events[id].kind.IsNotifySignal() {
      QueueNew(db1, id);
    }
  }

  // ---------- groups ----------

  /** The events after the members of a group below `k` were signaled. */
  function GroupMarked(events: map<nat, Event>, group: nat, k: nat): map<nat, Event> {
    map id | id in events ::
      events[id].(signaled := events[id].signaled || (id < k && events[id].group == Some(group)))
  }

  lemma GroupMarkedStep(events: map<nat, Event>, group: nat, id: nat)
    ensures var member := id in events && events[id].group == Some(group);
            var e' := if member then events[id := events[id].(signaled := true)] else events;
            GroupMarked(e', group, id) == GroupMarked(events, group, id + 1)
    ensures id in events && events[id].signaled ==> GroupMarked(events, group, id) == GroupMarked(events, group, id + 1)
  {
  }

  /** Signaling a group marks exactly its unsignaled members, and keeps the invariant. */
  lemma {:induction false} SignalGroupEffect(db: Db, group: nat, k: nat)
    requires Inv(db)
    ensures var r := SignalGroupBelow(db, group, k);
            Inv(r) && r.nextId == db.nextId && r.grouped == db.grouped && r.events == GroupMarked(db.events, group, k)
    decreases k
  {
    if k > 0 {
      var id := k - 1;
      if id in db.grouped && Awaits(db, group, id) {
        MarkInv(db, id);
        SignalGroupEffect(Mark(db, id), group, id);
        GroupMarkedStep(db.events, group, id);
      } else {
        SignalGroupEffect(db, group, id);
        GroupMarkedStep(db.events, group, id);
      }
    } else {
      assert GroupMarked(db.events, group, 0) == db.events;
    }
  }

  /** The group signaled by scanning all events in reverse creation order, without the index. */
  function ScanBelow(db: Db, group: nat, k: nat): Db
    decreases k
  {
    if k == 0 then db
    else ScanBelow(if Awaits(db, group, k - 1) then Mark(db, k - 1) else db, group, k - 1)
  }

  /** The group index gives the same result as the full scan. */
  lemma {:induction false} GroupIndexRefinesScan(db: Db, group: nat, k: nat)
    requires Inv(db)
    ensures SignalGroupBelow(db, group, k) == ScanBelow(db, group, k)
    decreases k
  {
    if k > 0 {
      if Awaits(db, group, k - 1) {
        MarkInv(db, k - 1);
        GroupIndexRefinesScan(Mark(db, k - 1), group, k - 1);
      } else {
        GroupIndexRefinesScan(db, group, k - 1);
      }
    }
  }

  lemma MarkQueue(db: Db, id: nat)
    requires Inv(db) && id in db.events && !db.events[id].signaled
    ensures var r := Mark(db, id);
            && db.tags <= r.tags
            && (forall x :: x in r.pending <==> x in db.pending || (db.tags < r.tags && x == Entry(db, id)))
            && (db.tags < r.tags <==> db.events[id].kind.IsNotifySignal())
  {
    if db.events[id].kind.IsNotifySignal() {
      forall x ensures x in Mark(db, id).pending <==> x in db.pending || x == Entry(db, id) {
        InsertAtElements(db.pending, Entry(db, id), x);
      }
    }
  }

  /** The notification an event would be queued with now. */
  function Entry(db: Db, id: nat): Notification
    requires id in db.events
  {
    var e := db.events[id];
    Notification(id, e.tpl, e.function_, e.context, db.tags)
  }

  /** Signaling a group only adds entries, with new tags. */
  lemma {:induction false} SignalGroupQueue(db: Db, group: nat, k: nat)
    requires Inv(db)
    ensures var r := SignalGroupBelow(db, group, k);
            && db.tags <= r.tags
            && (forall x :: x in db.pending ==> x in r.pending)
            && (forall x :: x in r.pending ==> x in db.pending || (x.event < k && db.tags <= x.tag))
    decreases k
  {
    if k > 0 {
      var id := k - 1;
      if id in db.grouped && Awaits(db, group, id) {
        MarkInv(db, id);
        MarkQueue(db, id);
        SignalGroupQueue(Mark(db, id), group, id);
      } else {
        SignalGroupQueue(db, group, id);
      }
    }
  }

  /** Of two members signaled together, the newer one gets the earlier tag; at equal TPL it is dispatched first. */
  lemma {:induction false} NewestFirst(db: Db, group: nat, k: nat, x: Notification, y: Notification)
    requires Inv(db) && Awaits(db, group, x.event) && Awaits(db, group, y.event)
    requires db.events[x.event].kind.IsNotifySignal() && db.events[y.event].kind.IsNotifySignal()
    requires y.event < x.event < k
    requires x in SignalGroupBelow(db, group, k).pending && y in SignalGroupBelow(db, group, k).pending
    ensures x.tag < y.tag && (x.tpl == y.tpl ==> Before(x, y))
    decreases k
  {
    var id := k - 1;
    if id in db.grouped && Awaits(db, group, id) {
      var db' := Mark(db, id);
      MarkInv(db, id);
      MarkQueue(db, id);
      if x.event == id {
        SignalGroupEffect(db', group, id);
        SignalGroupQueue(db', group, id);
        var r := SignalGroupBelow(db', group, id);
        OneEntry(r, x, Entry(db, id));
        NotQueued(db', y);
      } else {
        NewestFirst(db', group, id, x, y);
      }
    } else {
      NewestFirst(db, group, id, x, y);
    }
  }

  lemma OneEntry(db: Db, x: Notification, y: Notification)
    requires QueueOk(db) && x in db.pending && y in db.pending && x.event == y.event
    ensures x == y
  {
  }

  /** An unsignaled notify-signal event has no entry. */
  lemma NotQueued(db: Db, x: Notification)
    requires SignalsOk(db) && x.event in db.events
    requires db.events[x.event].kind.IsNotifySignal() && !db.events[x.event].signaled
    ensures x !in db.pending
  {
  }

  // ---------- single events ----------

  /** Signaling `id` also signals `x`: it is the same event or a member of the same group. */
  predicate Reaches(db: Db, id: nat, x: nat) {
    id in db.events && x in db.events &&
    (x == id || (db.events[id].group.Some? && db.events[x].group == db.events[id].group))
  }

  /** Signaling an unsignaled event marks the event and its group; anything else changes nothing. */
  lemma SignalEffect(db: Db, id: nat)
    requires Inv(db)
    ensures var r := Signal(db, id).0;
            && Inv(r) && r.nextId == db.nextId && r.grouped == db.grouped && r.events.Keys == db.events.Keys
            && (forall x :: x in db.events ==>
                  r.events[x] == db.events[x].(signaled := db.events[x].signaled ||
                                                           (Reaches(db, id, x) && !db.events[id].signaled)))
  {
    if id in db.events && !db.events[id].signaled {
      if db.events[id].group.Some? {
        SignalGroupEffect(db, db.events[id].group.value, db.nextId);
      } else {
        MarkInv(db, id);
      }
    }
  }

  /** Changing only the timer of an event. */
  lemma TimerInv(db: Db, id: nat, trigger: Option<nat>, period: Option<nat>)
    requires Inv(db) && id in db.events
    ensures Inv(db.(events := db.events[id := db.events[id].(trigger := trigger, period := period)]))
  {
  }

  // ---------- ticks ----------

  /** Some due, unsignaled timer below `k` reaches `x`. */
  ghost predicate Fires(db: Db, time: nat, k: nat, x: nat) {
    exists id :: 0 <= id < k && Reaches(db, id, x) && Due(db.events[id], time) && !db.events[id].signaled
  }

  /** The event after its timer was handled, if it was, and it was signaled, if it was. */
  function Ticked(e: Event, time: nat, handled: bool, fires: bool): Event {
    (if handled && Due(e, time) then Rearm(e, time) else e).(signaled := e.signaled || fires)
  }

  lemma {:induction false} TickInv(db: Db, time: nat, k: nat)
    requires Inv(db)
    ensures var r := TickBelow(db, time, k);
            Inv(r) && r.nextId == db.nextId && r.grouped == db.grouped && r.events.Keys == db.events.Keys
    decreases k
  {
    if k > 0 {
      TickOneEffect(db, time, k - 1);
      TickInv(TickOne(db, time, k - 1), time, k - 1);
    }
  }

  /** A tick re-arms or disarms exactly the due timers, and signals exactly what a due unsignaled timer reaches. */
  lemma {:induction false} TickEffect(db: Db, time: nat, k: nat, x: nat)
    requires Inv(db) && x in db.events
    ensures var r := TickBelow(db, time, k);
            x in r.events && r.events[x] == Ticked(db.events[x], time, x < k, Fires(db, time, k, x))
    decreases k
  {
    if k > 0 {
      var id := k - 1;
      TickOneEffect(db, time, id);
      TickEffect(TickOne(db, time, id), time, id, x);
      FiresStep(db, TickOne(db, time, id), time, id, x);
    }
  }

  lemma TickOneEffect(db: Db, time: nat, id: nat)
    requires Inv(db)
    ensures var r := TickOne(db, time, id);
            && Inv(r) && r.nextId == db.nextId && r.grouped == db.grouped && r.events.Keys == db.events.Keys
            && (forall x :: x in db.events ==>
                 r.events[x] == Ticked(db.events[x], time, x == id, FiresOne(db, time, id, x)))
  {
    if id in db.events && Due(db.events[id], time) {
      var e := Rearm(db.events[id], time);
      TimerInv(db, id, e.trigger, e.period);
      SignalEffect(db.(events := db.events[id := e]), id);
    }
  }

  predicate FiresOne(db: Db, time: nat, id: nat, x: nat) {
    Reaches(db, id, x) && Due(db.events[id], time) && !db.events[id].signaled
  }

  lemma FiresStep(db: Db, db1: Db, time: nat, id: nat, x: nat)
    requires x in db.events && db1.events.Keys == db.events.Keys
    requires forall y :: y in db.events ==>
               db1.events[y] == Ticked(db.events[y], time, y == id, FiresOne(db, time, id, y))
    ensures Fires(db, time, id + 1, x) || db.events[x].signaled <==> Fires(db1, time, id, x) || db1.events[x].signaled
  {
  }

  // ---------- the order of notifications queued by a tick ----------

  /** The queue only grows, by entries with new tags. */
  ghost predicate Grows(db: Db, r: Db) {
    && db.tags <= r.tags
    && (forall x :: x in db.pending ==> x in r.pending)
    && (forall x :: x in r.pending ==> x in db.pending || db.tags <= x.tag)
  }

  lemma SignalGrows(db: Db, id: nat)
    requires Inv(db)
    ensures Grows(db, Signal(db, id).0)
  {
    if id in db.events && !db.events[id].signaled {
      if db.events[id].group.Some? {
        SignalGroupQueue(db, db.events[id].group.value, db.nextId);
      } else {
        MarkQueue(db, id);
      }
    }
  }

  lemma TickOneGrows(db: Db, time: nat, id: nat)
    requires Inv(db)
    ensures Grows(db, TickOne(db, time, id))
  {
    if id in db.events && Due(db.events[id], time) {
      var e := Rearm(db.events[id], time);
      TimerInv(db, id, e.trigger, e.period);
      SignalGrows(db.(events := db.events[id := e]), id);
    }
  }

  lemma {:induction false} TickGrows(db: Db, time: nat, k: nat)
    requires Inv(db)
    ensures Grows(db, TickBelow(db, time, k))
    decreases k
  {
    if k > 0 {
      TickOneEffect(db, time, k - 1);
      TickOneGrows(db, time, k - 1);
      TickGrows(TickOne(db, time, k - 1), time, k - 1);
    }
  }

  /** The timer of a notify-signal event without a group is about to fire. */
  predicate FiresAlone(db: Db, time: nat, id: nat) {
    && id in db.events && db.events[id].kind.IsNotifySignal() && db.events[id].group.None?
    && Due(db.events[id], time) && !db.events[id].signaled
  }

  lemma StillFiresAlone(db: Db, time: nat, id: nat, x: nat)
    requires Inv(db) && FiresAlone(db, time, x) && x != id
    ensures FiresAlone(TickOne(db, time, id), time, x)
  {
    TickOneEffect(db, time, id);
  }

  /** Of two timers that fire in one tick, the one of the newer event is queued first. */
  lemma {:induction false} TickNewestFirst(db: Db, time: nat, k: nat, x: Notification, y: Notification)
    requires Inv(db) && FiresAlone(db, time, x.event) && FiresAlone(db, time, y.event) && y.event < x.event < k
    requires x in TickBelow(db, time, k).pending && y in TickBelow(db, time, k).pending
    ensures x.tag < y.tag && (x.tpl == y.tpl ==> Before(x, y))
    decreases k
  {
    var id := k - 1;
    var db1 := TickOne(db, time, id);
    TickOneEffect(db, time, id);
    StillFiresAlone(db, time, id, y.event);
    if x.event == id {
      TickInv(db1, time, id);
      TickGrows(db1, time, id);
      QueuedBy(db, time, id);
      var e :| e in db1.pending && e.event == id && e.tag < db1.tags;
      OneEntry(TickBelow(db1, time, id), x, e);
      NotQueued(db1, y);
    } else {
      StillFiresAlone(db, time, id, x.event);
      TickNewestFirst(db1, time, id, x, y);
    }
  }

  lemma QueuedBy(db: Db, time: nat, id: nat)
    requires Inv(db) && FiresAlone(db, time, id)
    ensures exists e :: e in TickOne(db, time, id).pending && e.event == id && e.tag < TickOne(db, time, id).tags
  {
    var db1 := TickOne(db, time, id);
    TickOneEffect(db, time, id);
    assert Reaches(db, id, id);
    assert db1.events[id].signaled && Queued(db1.pending, id);
    var i :| 0 <= i < |db1.pending| && db1.pending[i].event == id;
    assert db1.pending[i] in db1.pending;
  }
}
