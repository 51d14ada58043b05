/** The event database as a value: its operations, and the order of its notification queue. */
module EventModel {
  import opened Options

  const TPL_APPLICATION: nat := 4
  const TPL_HIGH_LEVEL: nat := 31

  /** The group whose members are runtime events, kept by the runtime module. */
  const VIRTUAL_ADDRESS_CHANGE: nat := 0

  /** First event id with the runtime tag. */
  const RT_EVENT: nat := 0x8000_0000_0000_0000

  datatype EventType = TimerNotify | Timer | NotifyWait | NotifySignal | Generic | TimerNotifyWait {
    predicate IsNotifySignal() {
      TimerNotify? || NotifySignal?
    }

    predicate IsNotifyWait() {
      NotifyWait? || TimerNotifyWait?
    }

    predicate IsTimer() {
      TimerNotify? || Timer? || TimerNotifyWait?
    }
  }

  /** The event types that can be created, by their encoding. */
  function ParseType(code: nat): Option<EventType> {
    if code == 0x8000_0200 then Some(TimerNotify)
    else if code == 0x8000_0000 then Some(Timer)
    else if code == 0x100 then Some(NotifyWait)
    else if code == 0x200 then Some(NotifySignal)
    else if code == 0 then Some(Generic)
    else if code == 0x8000_0100 then Some(TimerNotifyWait)
    else None
  }

  /** The encoding of a type: the timer flag and the notify flags. */
  function Encoding(kind: EventType): nat {
    (if kind.IsTimer() then 0x8000_0000 else 0) + (if kind.IsNotifyWait() then 0x100 else 0) +
    (if kind.IsNotifySignal() then 0x200 else 0)
  }

  /** Parsing and encoding are inverse to each other. */
  lemma ParseTypeExactly(code: nat, kind: EventType)
    ensures ParseType(code) == Some(kind) <==> code == Encoding(kind)
  {
  }

  /** Notification functions, contexts and group ids are opaque numbers. */
  datatype Event = Event(
    kind: EventType, group: Option<nat>, signaled: bool,
    tpl: nat, function_: Option<nat>, context: Option<nat>,
    trigger: Option<nat>, period: Option<nat>)

  datatype Notification = Notification(event: nat, tpl: nat, function_: Option<nat>, context: Option<nat>, tag: nat)

  datatype Db = Db(events: map<nat, Event>, grouped: set<nat>, nextId: nat, pending: seq<Notification>, tags: nat)

  datatype Status = Ok | InvalidParameter | OutOfResources

  const EMPTY: Db := Db(map[], {}, 1, [], 0)

  // ---------- the queue ----------

  datatype Ordering = Less | Equal | Greater

  /** The comparator of the queue: entries of one event are equal, otherwise higher TPL first, then lower tag. */
  function Compare(x: Notification, y: Notification): Ordering {
    if x.event == y.event then Equal
    else if x.tpl > y.tpl then Less
    else if x.tpl < y.tpl then Greater
    else if x.tag < y.tag then Less
    else if x.tag > y.tag then Greater
    else Equal
  }

  predicate Queued(q: seq<Notification>, id: nat) {
    exists i :: 0 <= i < |q| && q[i].event == id
  }

  /** Inserting into the ordered set: no effect when an equal entry is present. */
  function Insert(q: seq<Notification>, n: Notification): seq<Notification> {
    if Queued(q, n.event) then q else InsertAt(q, n)
  }

  function InsertAt(q: seq<Notification>, n: Notification): seq<Notification> {
    if q == [] then [n]
    else if Compare(n, q[0]) == Less then [n] + q
    else [q[0]] + InsertAt(q[1..], n)
  }

  // ---------- operations ----------

  /** Queues the notification of a notify event. */
  function QueueNotify(db: Db, id: nat): Db
    requires id in db.events
  {
    var e := db.events[id];
    if e.kind.IsNotifySignal() || e.kind.IsNotifyWait()
    then db.(pending := Insert(db.pending, Notification(id, e.tpl, e.function_, e.context, db.tags)))
    else db
  }

  /** Marks one event signaled and queues its notification if it is a notify-signal event. */
  function Mark(db: Db, id: nat): Db
    requires id in db.events
  {
    var db' := db.(events := db.events[id := db.events[id].(signaled := true)]);
    if db.events[id].kind.IsNotifySignal() then QueueNotify(db', id).(tags := db.tags + 1) else db'
  }

  /** Whether creation accepts the arguments. */
  predicate Creatable(code: nat, tpl: nat, function_: Option<nat>) {
    && ParseType(code).Some?
    && (var kind := ParseType(code).value;
        kind.IsNotifySignal() || kind.IsNotifyWait() ==> function_.Some? && TPL_APPLICATION < tpl <= TPL_HIGH_LEVEL)
  }

  /** Creation takes an id before it validates the arguments.  `runtimeOk` is the answer of the runtime module. */
  function Create(
    db: Db, code: nat, tpl: nat, function_: Option<nat>, context: Option<nat>, group: Option<nat>, runtimeOk: bool)
    : (Db, Status)
  {
    if db.nextId == RT_EVENT then (db, OutOfResources)
    else if ParseType(code).None? then (db, InvalidParameter)
    else
      var db' := db.(nextId := db.nextId + 1);
      if group == Some(VIRTUAL_ADDRESS_CHANGE) then (db', if runtimeOk then Ok else InvalidParameter)
      else if !Creatable(code, tpl, function_) then (db', InvalidParameter)
      else
        var e := Event(ParseType(code).value, group, false, tpl, function_, context, None, None);
        (db'.(events := db.events[db.nextId := e],
              grouped := if group.Some? then db.grouped + {db.nextId} else db.grouped), Ok)
  }

  function Close(db: Db, id: nat): (Db, Status) {
    if id !in db.events then (db, InvalidParameter)
    else (db.(events := db.events - {id}, grouped := db.grouped - {id}), Ok)
  }

  /** A member of the group that has to be signaled. */
  predicate Awaits(db: Db, group: nat, id: nat) {
    id in db.events && db.events[id].group == Some(group) && !db.events[id].signaled
  }

  /** Signals the members of the group among the grouped events below `k`, newest first. */
  function SignalGroupBelow(db: Db, group: nat, k: nat): Db
    decreases k
  {
    if k == 0 then db
    else
      var db' := if k - 1 in db.grouped && Awaits(db, group, k - 1) then Mark(db, k - 1) else db;
      SignalGroupBelow(db', group, k - 1)
  }

  function SignalGroup(db: Db, group: nat): Db {
    SignalGroupBelow(db, group, db.nextId)
  }

  /** Signals an event, together with its group if it has one; a signaled event is left alone. */
  function Signal(db: Db, id: nat): (Db, Status) {
    if id !in db.events then (db, InvalidParameter)
    else if db.events[id].signaled then (db, Ok)
    else if db.events[id].group.Some? then (SignalGroup(db, db.events[id].group.value), Ok)
    else (Mark(db, id), Ok)
  }

  function ClearSignal(db: Db, id: nat): (Db, Status) {
    if id !in db.events then (db, InvalidParameter)
    else (db.(events := db.events[id := db.events[id].(signaled := false)]), Ok)
  }

  function QueueEventNotify(db: Db, id: nat): (Db, Status) {
    if id !in db.events then (db, InvalidParameter)
    else (QueueNotify(db, id).(tags := db.tags + 1), Ok)
  }

  datatype TimerDelay = Cancel | Periodic | Relative

  function SetTimer(db: Db, id: nat, delay: TimerDelay, trigger: Option<nat>, period: Option<nat>): (Db, Status) {
    if id !in db.events || !db.events[id].kind.IsTimer() then (db, InvalidParameter)
    else if delay.Cancel? && (trigger.Some? || period.Some?) then (db, InvalidParameter)
    else if delay.Periodic? && (trigger.None? || period.None?) then (db, InvalidParameter)
    else if delay.Relative? && (trigger.None? || period.Some?) then (db, InvalidParameter)
    else (db.(events := db.events[id := db.events[id].(trigger := trigger, period := period)]), Ok)
  }

  /** The timer has expired. */
  predicate Due(e: Event, time: nat) {
    e.kind.IsTimer() && e.trigger.Some? && e.trigger.value <= time
  }

  /** A periodic timer is armed again; a one-shot timer is disarmed. */
  function Rearm(e: Event, time: nat): Event {
    e.(trigger := if e.period.Some? then Some(time + e.period.value) else None)
  }

  /** Handles the timer of one event. */
  function TickOne(db: Db, time: nat, id: nat): Db {
    if id in db.events && Due(db.events[id], time)
    then Signal(db.(events := db.events[id := Rearm(db.events[id], time)]), id).0
    else db
  }

  /** Handles the timers of the events below `k`, newest first. */
  function TickBelow(db: Db, time: nat, k: nat): Db
    decreases k
  {
    if k == 0 then db else TickBelow(TickOne(db, time, k - 1), time, k - 1)
  }

  function Tick(db: Db, time: nat): Db {
    TickBelow(db, time, db.nextId)
  }

  /** Drops the entries of closed events at the front of the queue. */
  function DropStale(q: seq<Notification>, events: map<nat, Event>): seq<Notification> {
    if q == [] || q[0].event in events then q else DropStale(q[1..], events)
  }

  /** Takes the first live notification above `level`. */
  function Consume(db: Db, level: nat): (Db, Option<Notification>) {
    var q := DropStale(db.pending, db.events);
    if q == [] || q[0].tpl <= level then (db.(pending := q), None)
    else (db.(pending := q[1..]), Some(q[0]))
  }
}
