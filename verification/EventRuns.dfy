/** Runs of the event database: every sequence of API calls and dispatches. */
module EventRuns {
  import opened Options
  import opened EventModel
  import opened EventQueue
  import opened EventInvariant

  datatype Op =
    | CreateEvent(
        code: nat, tpl: nat, function_: Option<nat>, context: Option<nat>, group: Option<nat>, runtimeOk: bool)
    | CloseEvent(id: nat)
    | SignalEvent(id: nat)
    | SignalEventGroup(members: nat)
    | CheckEvent(id: nat)
    | RecheckEvent(id: nat)
    | SetEventTimer(id: nat, delay: TimerDelay, trigger: Option<nat>, period: Option<nat>)
    | TimerTick(time: nat)
    | DispatchNext(level: nat)

  datatype CheckStatus = CheckedSignaled | CheckedNotReady | CheckedInvalid

  /** The first half of a check: reads and clears the signal, or queues the notification.
      Notify-signal events cannot be checked. */
  function Check(db: Db, id: nat): (Db, CheckStatus) {
    if id !in db.events || db.events[id].kind.IsNotifySignal() then (db, CheckedInvalid)
    else if db.events[id].signaled then (ClearSignal(db, id).0, CheckedSignaled)
    else (QueueEventNotify(db, id).0, CheckedNotReady)
  }

  /** The second half, after pending notifications ran. */
  function Recheck(db: Db, id: nat): (Db, CheckStatus) {
    if id in db.events && !db.events[id].kind.IsNotifySignal() && db.events[id].signaled
    then (ClearSignal(db, id).0, CheckedSignaled)
    else (db, CheckedNotReady)
  }

  /** Takes the next notification and clears the signal of a notify-signal event, as restoring the TPL does. */
  function Dispatch(db: Db, level: nat): (Db, Option<Notification>) {
    var (db', n) := Consume(db, level);
    if n.Some? && n.value.event in db'.events && db'.events[n.value.event].kind.IsNotifySignal()
    then (ClearSignal(db', n.value.event).0, n)
    else (db', n)
  }

  function Step(db: Db, op: Op): Db {
    match op
    case CreateEvent(code, tpl, function_, context, group, runtimeOk) =>
      Create(db, code, tpl, function_, context, group, runtimeOk).0
    case CloseEvent(id) => Close(db, id).0
    case SignalEvent(id) => Signal(db, id).0
    case SignalEventGroup(group) => SignalGroup(db, group)
    case CheckEvent(id) => Check(db, id).0
    case RecheckEvent(id) => Recheck(db, id).0
    case SetEventTimer(id, delay, trigger, period) => SetTimer(db, id, delay, trigger, period).0
    case TimerTick(time) => Tick(db, time)
    case DispatchNext(level) => Dispatch(db, level).0
  }

  function Run(db: Db, ops: seq<Op>): Db
    decreases |ops|
  {
    if ops == [] then db else Run(Step(db, ops[0]), ops[1..])
  }

  lemma {:induction false} RunConcat(db: Db, ops: seq<Op>, ops': seq<Op>)
    ensures Run(db, ops + ops') == Run(Run(db, ops), ops')
    decreases |ops|
  {
    if ops == [] {
      assert ops + ops' == ops';
    } else {
      assert (ops + ops')[1..] == ops[1..] + ops';
      RunConcat(Step(db, ops[0]), ops[1..], ops');
    }
  }

  // ---------- the invariant, operation by operation ----------

  lemma NewIdInv(db: Db)
    requires Inv(db)
    ensures Inv(db.(nextId := db.nextId + 1))
  {
  }

  /** A new event takes an id that is neither live nor queued. */
  lemma AddInv(db: Db, e: Event)
    requires Inv(db) && !e.signaled
    requires e.kind.IsNotifySignal() || e.kind.IsNotifyWait() ==>
               e.function_.Some? && TPL_APPLICATION < e.tpl <= TPL_HIGH_LEVEL
    ensures Inv(db.(nextId := db.nextId + 1, events := db.events[db.nextId := e],
                    grouped := if e.group.Some? then db.grouped + {db.nextId} else db.grouped))
  {
  }

  lemma CreateInv(
    db: Db, code: nat, tpl: nat, function_: Option<nat>, context: Option<nat>, group: Option<nat>, runtimeOk: bool)
    requires Inv(db)
    ensures Inv(Create(db, code, tpl, function_, context, group, runtimeOk).0)
  {
    if db.nextId != RT_EVENT && ParseType(code).Some? {
      NewIdInv(db);
      if group != Some(VIRTUAL_ADDRESS_CHANGE) && Creatable(code, tpl, function_) {
        AddInv(db, Event(ParseType(code).value, group, false, tpl, function_, context, None, None));
      }
    }
  }

  lemma CloseInv(db: Db, id: nat)
    requires Inv(db)
    ensures Inv(Close(db, id).0)
  {
  }

  lemma ClearInv(db: Db, id: nat)
    requires Inv(db) && id in db.events && !db.events[id].kind.IsNotifySignal()
    ensures Inv(ClearSignal(db, id).0)
  {
  }

  lemma QueueEventNotifyInv(db: Db, id: nat)
    requires Inv(db) && id in db.events && !db.events[id].kind.IsNotifySignal()
    ensures Inv(QueueEventNotify(db, id).0)
  {
    if db.events[id].kind.IsNotifyWait() && !Queued(db.pending, id) {
      QueueNew(db, id);
    }
  }

  lemma {:induction false} DropStaleIsSuffix(q: seq<Notification>, events: map<nat, Event>) returns (k: nat)
    ensures k <= |q| && DropStale(q, events) == q[k..]
    ensures forall i :: 0 <= i < k ==> q[i].event !in events
    ensures k < |q| ==> q[k].event in events
  {
    if q == [] || q[0].event in events {
      k := 0;
    } else {
      var k' := DropStaleIsSuffix(q[1..], events);
      k := k' + 1;
    }
  }

  /** Dropping entries of dead events from the front. */
  lemma DropInv(db: Db, k: nat)
    requires Inv(db) && k <= |db.pending| && forall i :: 0 <= i < k ==> db.pending[i].event !in db.events
    ensures Inv(db.(pending := db.pending[k..]))
  {
  }

  lemma QueuedCons(q: seq<Notification>, id: nat)
    requires q != []
    ensures Queued(q, id) <==> q[0].event == id || Queued(q[1..], id)
  {
  }

  lemma QueuedRest(q: seq<Notification>, id: nat)
    requires q != [] && Distinct(q)
    ensures Queued(q[1..], id) <==> Queued(q, id) && id != q[0].event
  {
  }

  /** Taking the front entry and clearing its event's signal. */
  lemma TakeInv(db: Db)
    requires Inv(db) && db.pending != [] && db.pending[0].event in db.events
    ensures var id := db.pending[0].event;
            var db' := db.(pending := db.pending[1..]);
            Inv(if db.events[id].kind.IsNotifySignal() then ClearSignal(db', id).0 else db')
  {
    forall x ensures Queued(db.pending[1..], x) <==> Queued(db.pending, x) && x != db.pending[0].event {
      QueuedRest(db.pending, x);
    }
  }

  lemma DispatchInv(db: Db, level: nat)
    requires Inv(db)
    ensures Inv(Dispatch(db, level).0)
  {
    var k := DropStaleIsSuffix(db.pending, db.events);
    DropInv(db, k);
    if k < |db.pending| && db.pending[k].tpl > level {
      TakeInv(db.(pending := db.pending[k..]));
    }
  }

  lemma StepInv(db: Db, op: Op)
    requires Inv(db)
    ensures Inv(Step(db, op))
  {
    match op
    case CreateEvent(code, tpl, function_, context, group, runtimeOk) =>
      CreateInv(db, code, tpl, function_, context, group, runtimeOk);
    case CloseEvent(id) => CloseInv(db, id);
    case SignalEvent(id) => SignalEffect(db, id);
    case SignalEventGroup(group) => SignalGroupEffect(db, group, db.nextId);
    case CheckEvent(id) =>
      if id in db.events && !db.events[id].kind.IsNotifySignal() {
        if db.events[id].signaled { ClearInv(db, id); } else { QueueEventNotifyInv(db, id); }
      }
    case RecheckEvent(id) =>
      if Recheck(db, id).1.CheckedSignaled? { ClearInv(db, id); }
    case SetEventTimer(id, delay, trigger, period) =>
      if id in db.events { TimerInv(db, id, trigger, period); }
    case TimerTick(time) => TickInv(db, time, db.nextId);
    case DispatchNext(level) => DispatchInv(db, level);
  }

  lemma {:induction false} RunInv(db: Db, ops: seq<Op>)
    requires Inv(db)
    ensures Inv(Run(db, ops))
    decreases |ops|
  {
    if ops != [] {
      StepInv(db, ops[0]);
      RunInv(Step(db, ops[0]), ops[1..]);
    }
  }

  // ---------- over whole runs ----------

  /** The number of queued notifications of an event. */
  function CountQueued(q: seq<Notification>, id: nat): nat {
    if q == [] then 0 else (if q[0].event == id then 1 else 0) + CountQueued(q[1..], id)
  }

  lemma {:induction false} CountIsQueued(q: seq<Notification>, id: nat)
    requires Distinct(q)
    ensures CountQueued(q, id) == if Queued(q, id) then 1 else 0
  {
    if q != [] {
      CountIsQueued(q[1..], id);
      QueuedCons(q, id);
      QueuedRest(q, id);
    }
  }

  /** Over every run, a live notify-signal event has one queued notification if it is signaled and none otherwise. */
  lemma NoLostOrSpuriousNotification(ops: seq<Op>, id: nat)
    requires id in Run(EMPTY, ops).events && Run(EMPTY, ops).events[id].kind.IsNotifySignal()
    ensures var db := Run(EMPTY, ops);
            CountQueued(db.pending, id) == if db.events[id].signaled then 1 else 0
  {
    EmptyInv();
    RunInv(EMPTY, ops);
    CountIsQueued(Run(EMPTY, ops).pending, id);
  }

  /** Over every run, the group index holds exactly the live events with a group. */
  lemma GroupIndexExact(ops: seq<Op>, id: nat)
    ensures var db := Run(EMPTY, ops); id in db.grouped <==> id in db.events && db.events[id].group.Some?
  {
    EmptyInv();
    RunInv(EMPTY, ops);
  }

  /** An id that was handed out and is not live. */
  predicate Retired(db: Db, id: nat) {
    id < db.nextId && id !in db.events
  }

  lemma StepKeepsRetired(db: Db, op: Op, id: nat)
    requires Inv(db) && Retired(db, id)
    ensures Retired(Step(db, op), id)
  {
    match op
    case SignalEvent(x) => SignalEffect(db, x);
    case SignalEventGroup(group) => SignalGroupEffect(db, group, db.nextId);
    case TimerTick(time) => TickInv(db, time, db.nextId);
    case _ =>
  }

  /** Ids are never reused: a retired id stays retired, so that stale queue entries never come back to life. */
  lemma {:induction false} RetiredForever(db: Db, ops: seq<Op>, id: nat)
    requires Inv(db) && Retired(db, id)
    ensures Retired(Run(db, ops), id)
    decreases |ops|
  {
    if ops != [] {
      StepInv(db, ops[0]);
      StepKeepsRetired(db, ops[0], id);
      RetiredForever(Step(db, ops[0]), ops[1..], id);
    }
  }

  /** Dispatch takes the live notification that comes before all other live ones, if that is above the level;
      otherwise there is none above the level. */
  lemma DispatchPicksFirst(db: Db, level: nat)
    requires Inv(db)
    ensures var (r, n) := Dispatch(db, level);
            if n.None? then forall x :: x in db.pending && x.event in db.events ==> x.tpl <= level
            else
              && n.value in db.pending && n.value.event in db.events && n.value.tpl > level
              && n.value.event in r.events && Describes(n.value, r.events[n.value.event])
              && (forall x :: x in db.pending && x.event in db.events && x != n.value ==> Before(n.value, x))
              && (forall x :: x in r.pending ==> x in db.pending && x.event != n.value.event)
  {
    var q := db.pending;
    var k := DropStaleIsSuffix(q, db.events);
    FirstLive(q, db.events, k);
    if k < |q| {
      RestOther(q, k);
    }
  }

  /** Behind closed events, the front entry comes before all live ones. */
  lemma FirstLive(q: seq<Notification>, events: map<nat, Event>, k: nat)
    requires Ordered(q) && k <= |q| && forall i :: 0 <= i < k ==> q[i].event !in events
    ensures forall x :: x in q && x.event in events ==> k < |q| && (x == q[k] || Before(q[k], x))
  {
  }

  /** The entries behind an entry are of other events. */
  lemma RestOther(q: seq<Notification>, k: nat)
    requires Distinct(q) && k < |q|
    ensures q[k] in q && forall x :: x in q[k + 1..] ==> x in q && x.event != q[k].event
  {
  }

  /** The newly signaled events of a tick are exactly those that a due unsignaled timer reaches, and the
      notify-signal events among them are exactly the newly queued ones. */
  lemma TickQueues(db: Db, time: nat, x: nat)
    requires Inv(db) && x in db.events && db.events[x].kind.IsNotifySignal()
    ensures var r := Tick(db, time);
            x in r.events && (Queued(r.pending, x) <==> Queued(db.pending, x) || Fires(db, time, db.nextId, x))
  {
    TickInv(db, time, db.nextId);
    TickEffect(db, time, db.nextId, x);
    var r := Tick(db, time);
    assert r.events[x].signaled <==> db.events[x].signaled || Fires(db, time, db.nextId, x);
  }

  /** The events apart from `id` are the same. */
  ghost predicate OthersKept(db: Db, r: Db, id: nat) {
    forall x :: x != id ==> (x in r.events <==> x in db.events) && (x in db.events ==> r.events[x] == db.events[x])
  }

  /** The arguments are those of an event of this type: notify types need a function and a notify TPL. */
  predicate Fits(kind: EventType, code: nat, tpl: nat, function_: Option<nat>) {
    && code == Encoding(kind)
    && (kind.IsNotifySignal() || kind.IsNotifyWait() ==> function_.Some? && 4 < tpl <= 31)
  }

  /** What creation accepts, in terms of the flags of the type, and what it adds.  An id is used up also by arguments
      that are rejected later. */
  lemma CreateExactly(
    db: Db, code: nat, tpl: nat, function_: Option<nat>, context: Option<nat>, group: Option<nat>, runtimeOk: bool)
    requires Inv(db) && group != Some(VIRTUAL_ADDRESS_CHANGE)
    ensures var (r, status) := Create(db, code, tpl, function_, context, group, runtimeOk);
            && (status == OutOfResources <==> db.nextId == RT_EVENT)
            && (status == Ok <==> db.nextId != RT_EVENT && exists kind :: Fits(kind, code, tpl, function_))
            && OthersKept(db, r, db.nextId) && r.pending == db.pending && r.tags == db.tags
            && (db.nextId in r.events <==> status == Ok) && db.nextId !in db.events
            && (status == Ok ==>
                  var e := r.events[db.nextId];
                  && code == Encoding(e.kind) && e.group == group && !e.signaled && e.tpl == tpl
                  && e.function_ == function_ && e.context == context && e.trigger == None && e.period == None)
            && (r.nextId == db.nextId + 1 <==> db.nextId != RT_EVENT && exists kind :: code == Encoding(kind))
  {
    forall kind: EventType ensures ParseType(code) == Some(kind) <==> code == Encoding(kind) {
      ParseTypeExactly(code, kind);
    }
    if ParseType(code).Some? {
      assert Fits(ParseType(code).value, code, tpl, function_) <==> Creatable(code, tpl, function_);
    }
  }

  /** Events of the virtual address change group are the runtime module's, which decides; the database only hands out
      the id. */
  lemma CreateRuntime(
    db: Db, code: nat, tpl: nat, function_: Option<nat>, context: Option<nat>, runtimeOk: bool)
    ensures var (r, status) := Create(db, code, tpl, function_, context, Some(VIRTUAL_ADDRESS_CHANGE), runtimeOk);
            && (status == Ok <==> db.nextId != RT_EVENT && runtimeOk && exists kind :: code == Encoding(kind))
            && r == db.(nextId := r.nextId)
            && (r.nextId == db.nextId + 1 <==> db.nextId != RT_EVENT && exists kind :: code == Encoding(kind))
  {
    forall kind: EventType ensures ParseType(code) == Some(kind) <==> code == Encoding(kind) {
      ParseTypeExactly(code, kind);
    }
  }

  /** A closed event is gone for all services; its queue entry stays behind, and nothing else changes. */
  lemma CloseExactly(db: Db, id: nat)
    requires Inv(db)
    ensures var (r, status) := Close(db, id);
            && (status == Ok <==> id in db.events) && (status != Ok ==> status == InvalidParameter && r == db)
            && OthersKept(db, r, id) && id !in r.events && (id in db.events ==> Retired(r, id))
            && r.pending == db.pending && r.nextId == db.nextId && r.tags == db.tags
            && Signal(r, id) == (r, InvalidParameter) && Check(r, id) == (r, CheckedInvalid) && Close(r, id).1 != Ok
  {
  }

  /** Whatever follows a close, the event cannot be signaled or checked and its notification is never dispatched. */
  lemma ClosedForGood(before: seq<Op>, id: nat, after: seq<Op>, level: nat)
    requires id in Run(EMPTY, before).events
    ensures var db := Run(EMPTY, before + [CloseEvent(id)] + after);
            && Signal(db, id) == (db, InvalidParameter) && Check(db, id) == (db, CheckedInvalid)
            && (Dispatch(db, level).1.Some? ==> Dispatch(db, level).1.value.event != id)
  {
    var db1 := Run(EMPTY, before);
    var db2 := Step(db1, CloseEvent(id));
    EmptyInv();
    RunInv(EMPTY, before);
    CloseExactly(db1, id);
    CloseInv(db1, id);
    RetiredForever(db2, after, id);
    RunInv(db2, after);
    RunConcat(EMPTY, before, [CloseEvent(id)]);
    assert [CloseEvent(id)][1..] == [];
    RunConcat(EMPTY, before + [CloseEvent(id)], after);
    DispatchPicksFirst(Run(db2, after), level);
  }

  /** A dispatch clears the signal of a notify-signal event it takes, and changes no other event; live entries that it
      does not take stay queued. */
  lemma DispatchExactly(db: Db, level: nat, x: nat)
    requires Inv(db) && x in db.events
    ensures var (r, n) := Dispatch(db, level);
            var cleared := n.Some? && n.value.event == x && db.events[x].kind.IsNotifySignal();
            && x in r.events && r.events[x] == db.events[x].(signaled := db.events[x].signaled && !cleared)
            && (Queued(r.pending, x) <==> Queued(db.pending, x) && !(n.Some? && n.value.event == x))
  {
    var q := db.pending;
    var k := DropStaleIsSuffix(q, db.events);
    QueuedSuffix(q, db.events, k, x);
    if k < |q| && q[k].tpl > level {
      assert q[k..][0] == q[k] && q[k..][1..] == q[k + 1..];
      QueuedRest(q[k..], x);
    }
  }

  lemma QueuedSuffix(q: seq<Notification>, events: map<nat, Event>, k: nat, x: nat)
    requires k <= |q| && x in events && forall i :: 0 <= i < k ==> q[i].event !in events
    ensures Queued(q[k..], x) <==> Queued(q, x)
  {
    if Queued(q, x) {
      var i :| 0 <= i < |q| && q[i].event == x;
      assert q[k..][i - k] == q[i];
    }
    if Queued(q[k..], x) {
      var i :| 0 <= i < |q[k..]| && q[k..][i].event == x;
      assert q[k + i] == q[k..][i];
    }
  }

  /** A check of a signaled event takes the signal; of an unsignaled one it queues the notification of a notify-wait
      event that is not queued yet.  Notify-signal events and unknown ids are refused.  Nothing else changes. */
  lemma CheckExactly(db: Db, id: nat)
    requires Inv(db)
    ensures var (r, status) := Check(db, id);
            && (status == CheckedInvalid <==> id !in db.events || db.events[id].kind.IsNotifySignal())
            && (status == CheckedInvalid ==> r == db)
            && (status == CheckedSignaled ==> db.events[id].signaled && Taken(db, r, id) && r.pending == db.pending)
            && (status == CheckedNotReady ==> !db.events[id].signaled && r.events == db.events)
            && (status == CheckedNotReady ==> forall x ::
                  x in r.pending <==>
                  || x in db.pending
                  || (db.events[id].kind.IsNotifyWait() && !Queued(db.pending, id) && x == Entry(db, id)))
  {
    if id in db.events && !db.events[id].signaled {
      forall x ensures x in InsertAt(db.pending, Entry(db, id)) <==> x == Entry(db, id) || x in db.pending {
        InsertAtElements(db.pending, Entry(db, id), x);
      }
    }
  }

  /** The signal of `id` was taken. */
  ghost predicate Taken(db: Db, r: Db, id: nat) {
    && id in db.events && id in r.events && r.events[id] == db.events[id].(signaled := false)
    && OthersKept(db, r, id)
  }

  /** After the notifications ran, the check takes the signal if there is one now. */
  lemma RecheckExactly(db: Db, id: nat)
    ensures var (r, status) := Recheck(db, id);
            if id in db.events && !db.events[id].kind.IsNotifySignal() && db.events[id].signaled
            then status == CheckedSignaled && Taken(db, r, id) && r.pending == db.pending
            else status == CheckedNotReady && r == db
  {
  }

  /** A check takes the signal at most once; without a signal it queues the notification of a notify-wait event. */
  lemma CheckConsumes(db: Db, id: nat)
    requires Inv(db)
    ensures var (r, status) := Check(db, id);
            && (status.CheckedSignaled? ==> id in r.events && Check(r, id).1.CheckedNotReady?)
            && (status.CheckedNotReady? && db.events[id].kind.IsNotifyWait() ==> Queued(r.pending, id))
            && (status.CheckedInvalid? <==> id !in db.events || db.events[id].kind.IsNotifySignal())
  {
    if id in db.events && db.events[id].kind.IsNotifyWait() && !db.events[id].signaled && !Queued(db.pending, id) {
      QueueNew(db, id);
    }
  }

  /** A second check of a queued notify-wait event is certain to leave the queue as it is exactly if the queued
      notification is the last of its TPL. */
  lemma RepeatedCheck(db: Db, id: nat, i: nat)
    requires Inv(db) && id in db.events && !db.events[id].signaled && db.events[id].kind.IsNotifyWait()
    requires i < |db.pending| && db.pending[i].event == id
    ensures Check(db, id) == (db.(tags := db.tags + 1), CheckedNotReady)
    ensures AlwaysFound(db.pending, Entry(db, id)) <==> LastOfLevel(db.pending, i)
  {
    assert Queued(db.pending, id);
    assert Again(db.pending, Entry(db, id), i);
    AlwaysFoundExactly(db.pending, Entry(db, id), i);
  }

  /** Two notify-wait events of one TPL, each checked once. */
  lemma TwoChecked() returns (db: Db)
    ensures var create := CreateEvent(0x100, 8, Some(1), None, None, true);
            db == Run(EMPTY, [create, create, CheckEvent(1), CheckEvent(2)])
    ensures 1 in db.events && !db.events[1].signaled && db.events[1].kind.IsNotifyWait()
    ensures |db.pending| == 2 && db.pending[0].event == 1 && db.pending[1].tpl == db.pending[0].tpl
  {
    var create := CreateEvent(0x100, 8, Some(1), None, None, true);
    var e := Event(NotifyWait, None, false, 8, Some(1), None, None, None);
    var n1, n2 := Notification(1, 8, Some(1), None, 0), Notification(2, 8, Some(1), None, 1);
    var db1 := Db(map[1 := e], {}, 2, [], 0);
    var db2 := Db(map[1 := e, 2 := e], {}, 3, [], 0);
    var db3 := db2.(pending := [n1], tags := 1);
    db := db2.(pending := [n1, n2], tags := 2);
    assert Step(EMPTY, create) == db1 && Step(db1, create) == db2;
    assert !Queued([], 1) && Step(db2, CheckEvent(1)) == db3;
    assert !Queued([n1], 2) && Step(db3, CheckEvent(2)) == db;
    RunTwo(EMPTY, create, create);
    RunTwo(db2, CheckEvent(1), CheckEvent(2));
    RunConcat(EMPTY, [create, create], [CheckEvent(1), CheckEvent(2)]);
    assert [create, create] + [CheckEvent(1), CheckEvent(2)] == [create, create, CheckEvent(1), CheckEvent(2)];
  }

  lemma RunTwo(db: Db, a: Op, b: Op)
    ensures Run(db, [a, b]) == Step(Step(db, a), b)
  {
    assert [a, b][1..] == [b] && [b][1..] == [];
    assert Run(Step(db, a), [b]) == Run(Step(Step(db, a), b), []);
  }

  /** A run after which checking the first of two notify-wait events again can miss its queued notification. */
  lemma RepeatedCheckCanMiss()
    ensures var create := CreateEvent(0x100, 8, Some(1), None, None, true);
            var db := Run(EMPTY, [create, create, CheckEvent(1), CheckEvent(2)]);
            && 1 in db.events && Queued(db.pending, 1) && Check(db, 1).1 == CheckedNotReady
            && !AlwaysFound(db.pending, Entry(db, 1))
  {
    var create := CreateEvent(0x100, 8, Some(1), None, None, true);
    var db := TwoChecked();
    EmptyInv();
    RunInv(EMPTY, [create, create, CheckEvent(1), CheckEvent(2)]);
    RepeatedCheck(db, 1, 0);
  }
}
