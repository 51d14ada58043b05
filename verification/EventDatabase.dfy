/** The event database object.  Every operation is proved against the corresponding function of
    EventModel; those that the API exposes keep the invariant. */
module EventDatabase {
  import opened Options
  import opened EventModel
  import opened EventInvariant
  import opened EventRuns

  class EventDb {
    var events: map<nat, Event>
    var grouped: set<nat>
    var nextId: nat
    var pending: seq<Notification>
    var tags: nat

    ghost function Value(): Db
      reads this
    {
      Db(events, grouped, nextId, pending, tags)
    }

    ghost predicate Valid()
      reads this
    {
      Inv(Value())
    }

    constructor ()
      ensures Valid() && Value() == EMPTY
    {
      events, grouped, nextId, pending, tags := map[], {}, 1, [], 0;
    }

    /** On success `id` is the new event. */
    method CreateEvent(
      code: nat, tpl: nat, function_: Option<nat>, context: Option<nat>, group: Option<nat>, runtimeOk: bool)
      returns (status: Status, id: nat)
      requires Valid()
      modifies this
      ensures Valid() && (Value(), status) == Create(old(Value()), code, tpl, function_, context, group, runtimeOk)
      ensures status == Ok && group != Some(VIRTUAL_ADDRESS_CHANGE) ==>
                && id == old(nextId) && id !in old(events) && ParseType(code).Some?
                && events == old(events)[
                     id := Event(ParseType(code).value, group, false, tpl, function_, context, None, None)]
      ensures status != Ok || group == Some(VIRTUAL_ADDRESS_CHANGE) ==> events == old(events)
      ensures status == Ok && group == Some(VIRTUAL_ADDRESS_CHANGE) ==> id == old(nextId) + RT_EVENT
    {
      CreateInv(Value(), code, tpl, function_, context, group, runtimeOk);
      if nextId == RT_EVENT {
        return OutOfResources, 0;
      }
      var kind := ParseType(code);
      if kind.None? {
        return InvalidParameter, 0;
      }
      var runtime := group == Some(VIRTUAL_ADDRESS_CHANGE);
      id := if runtime then nextId + RT_EVENT else nextId;
      nextId := nextId + 1;
      if runtime {
        return if runtimeOk then Ok else InvalidParameter, id;
      }
      if !Creatable(code, tpl, function_) {
        return InvalidParameter, id;
      }
      events := events[id := Event(kind.value, group, false, tpl, function_, context, None, None)];
      if group.Some? {
        grouped := grouped + {id};
      }
      status := Ok;
    }

    method CloseEvent(id: nat) returns (status: Status)
      requires Valid()
      modifies this
      ensures Valid() && (Value(), status) == Close(old(Value()), id)
    {
      CloseInv(Value(), id);
      if id !in events {
        return InvalidParameter;
      }
      events := events - {id};
      grouped := grouped - {id};
      return Ok;
    }

    method QueueNotifyEvent(id: nat, tag: nat)
      requires id in events
      modifies this`pending
      ensures Value() == QueueNotify(old(Value()).(tags := tag), id).(tags := old(tags))
    {
      var e := events[id];
      if e.kind.IsNotifySignal() || e.kind.IsNotifyWait() {
        pending := Insert(pending, Notification(id, e.tpl, e.function_, e.context, tag));
      }
    }

    method MarkSignaled(id: nat)
      requires id in events
      modifies this
      ensures Value() == Mark(old(Value()), id)
    {
      events := events[id := events[id].(signaled := true)];
      if events[id].kind.IsNotifySignal() {
        QueueNotifyEvent(id, tags);
        tags := tags + 1;
      }
    }

    method SignalEvent(id: nat) returns (status: Status)
      requires Valid()
      modifies this
      ensures Valid() && (Value(), status) == Signal(old(Value()), id)
    {
      SignalEffect(Value(), id);
      if id !in events {
        return InvalidParameter;
      }
      status := Ok;
      if events[id].signaled {
        return;
      }
      if events[id].group.Some? {
        SignalGroup(events[id].group.value);
      } else {
        MarkSignaled(id);
      }
    }

    /** Walks the group index from the newest event to the oldest. */
    method SignalGroup(group: nat)
      requires Valid()
      modifies this
      ensures Valid() && Value() == EventModel.SignalGroup(old(Value()), group)
    {
      SignalGroupEffect(Value(), group, nextId);
      var k := nextId;
      while k > 0
        invariant SignalGroupBelow(Value(), group, k) == EventModel.SignalGroup(old(Value()), group)
      {
        k := k - 1;
        if k !in grouped || k !in events {
          continue;
        }
        if events[k].group != Some(group) || events[k].signaled {
          continue;
        }
        MarkSignaled(k);
      }
    }

    method ClearSignal(id: nat) returns (status: Status)
      modifies this
      ensures (Value(), status) == EventModel.ClearSignal(old(Value()), id)
    {
      if id !in events {
        return InvalidParameter;
      }
      events := events[id := events[id].(signaled := false)];
      return Ok;
    }

    method QueueEventNotify(id: nat) returns (status: Status)
      modifies this
      ensures (Value(), status) == EventModel.QueueEventNotify(old(Value()), id)
    {
      if id !in events {
        return InvalidParameter;
      }
      QueueNotifyEvent(id, tags);
      tags := tags + 1;
      return Ok;
    }

    method SetTimer(id: nat, delay: TimerDelay, trigger: Option<nat>, period: Option<nat>) returns (status: Status)
      requires Valid()
      modifies this
      ensures Valid() && (Value(), status) == EventModel.SetTimer(old(Value()), id, delay, trigger, period)
    {
      if id !in events || !events[id].kind.IsTimer() {
        return InvalidParameter;
      }
      TimerInv(Value(), id, trigger, period);
      match delay {
        case Cancel => if trigger.Some? || period.Some? { return InvalidParameter; }
        case Periodic => if trigger.None? || period.None? { return InvalidParameter; }
        case Relative => if trigger.None? || period.Some? { return InvalidParameter; }
      }
      events := events[id := events[id].(trigger := trigger, period := period)];
      return Ok;
    }

    /** Handles expired timers from the newest event to the oldest. */
    method TimerTick(time: nat)
      requires Valid()
      modifies this
      ensures Valid() && Value() == Tick(old(Value()), time)
    {
      TickInv(Value(), time, nextId);
      var k := nextId;
      while k > 0
        invariant Valid()
        invariant TickBelow(Value(), time, k) == Tick(old(Value()), time)
      {
        k := k - 1;
        TickEvent(k, time);
      }
    }

    /** A periodic timer is armed again one period after `time`; a one-shot timer is disarmed. */
    method RearmEvent(id: nat, time: nat)
      requires Valid() && id in events
      modifies this
      ensures Valid() && Value() == old(Value()).(events := old(events)[id := Rearm(old(events)[id], time)])
    {
      var e := events[id];
      TimerInv(Value(), id, Rearm(e, time).trigger, e.period);
      events := events[id := e.(trigger := if e.period.Some? then Some(time + e.period.value) else None)];
    }

    /** Re-arms or disarms an expired timer and signals its event. */
    method TickEvent(id: nat, time: nat)
      requires Valid()
      modifies this
      ensures Valid() && Value() == TickOne(old(Value()), time, id)
    {
      if id in events && events[id].kind.IsTimer() && events[id].trigger.Some? && events[id].trigger.value <= time {
        RearmEvent(id, time);
        var _ := SignalEvent(id);
      }
    }

    /** Pops entries of closed events off the front, then takes the first entry above `level`. */
    method ConsumeNextEventNotify(level: nat) returns (n: Option<Notification>)
      modifies this`pending
      ensures (Value(), n) == Consume(old(Value()), level)
    {
      while pending != [] && pending[0].event !in events
        invariant DropStale(pending, events) == DropStale(old(pending), events)
        decreases |pending|
      {
        pending := pending[1..];
      }
      if pending == [] || pending[0].tpl <= level {
        return None;
      }
      n := Some(pending[0]);
      pending := pending[1..];
    }

    /** Takes the next notification and clears the signal of a notify-signal event. */
    method DispatchNext(level: nat) returns (n: Option<Notification>)
      requires Valid()
      modifies this
      ensures Valid() && (Value(), n) == Dispatch(old(Value()), level)
    {
      DispatchInv(Value(), level);
      DispatchPicksFirst(Value(), level);
      n := ConsumeNextEventNotify(level);
      if n.Some? && events[n.value.event].kind.IsNotifySignal() {
        var _ := ClearSignal(n.value.event);
      }
    }

    /** The part of a check before pending notifications run. */
    method CheckEvent(id: nat) returns (status: CheckStatus)
      requires Valid()
      modifies this
      ensures Valid() && (Value(), status) == Check(old(Value()), id)
    {
      StepInv(Value(), Op.CheckEvent(id));
      if id !in events || events[id].kind.IsNotifySignal() {
        return CheckedInvalid;
      }
      if events[id].signaled {
        var _ := ClearSignal(id);
        return CheckedSignaled;
      }
      var _ := QueueEventNotify(id);
      return CheckedNotReady;
    }
  }
}
