/** Event timers over any sequence of timer ticks. */
module EventTimers {
  import opened Options
  import opened EventModel
  import opened EventInvariant

  /** The database after ticks at the given times. */
  function Ticks(db: Db, times: seq<nat>): Db
    decreases |times|
  {
    if times == [] then db else Ticks(Tick(db, times[0]), times[1..])
  }

  /** Some tick is at or after the trigger time. */
  predicate Expires(e: Event, times: seq<nat>) {
    exists k :: 0 <= k < |times| && Due(e, times[k])
  }

  lemma ExpiresCons(e: Event, times: seq<nat>)
    requires times != []
    ensures Expires(e, times) <==> Due(e, times[0]) || Expires(e, times[1..])
  {
    if k :| 0 < k < |times| && Due(e, times[k]) {
      assert times[1..][k - 1] == times[k];
    }
  }

  // ---------- what is signaled ----------

  /** The timer of the unsignaled event `y` expires, and signaling `y` signals `x`. */
  predicate Sets(db: Db, times: seq<nat>, y: nat, x: nat) {
    Reaches(db, y, x) && !db.events[y].signaled && Expires(db.events[y], times)
  }

  /** The events after one tick. */
  ghost predicate AfterTick(db: Db, r: Db, time: nat) {
    && Inv(r) && r.events.Keys == db.events.Keys
    && forall x :: x in db.events ==> r.events[x] == Ticked(db.events[x], time, true, Fires(db, time, db.nextId, x))
  }

  lemma TickAll(db: Db, time: nat)
    requires Inv(db)
    ensures AfterTick(db, Tick(db, time), time)
  {
    TickInv(db, time, db.nextId);
    forall x | x in db.events
      ensures Tick(db, time).events[x] == Ticked(db.events[x], time, true, Fires(db, time, db.nextId, x))
    {
      TickEffect(db, time, db.nextId, x);
    }
  }

  /** A due unsignaled timer signals what it reaches at once. */
  lemma DueFires(db: Db, time: nat, y: nat, x: nat)
    requires Inv(db) && Reaches(db, y, x) && Due(db.events[y], time) && !db.events[y].signaled
    ensures Fires(db, time, db.nextId, x)
  {
  }

  /** What a later tick signals was still to be signaled before this one. */
  lemma SetsEarlier(db: Db, r: Db, times: seq<nat>, y: nat, x: nat)
    requires Inv(db) && times != [] && AfterTick(db, r, times[0]) && Sets(r, times[1..], y, x)
    ensures Sets(db, times, y, x)
  {
    assert r.events[y] == Ticked(db.events[y], times[0], true, Fires(db, times[0], db.nextId, y));
    if Due(db.events[y], times[0]) {
      DueFires(db, times[0], y, y);
      assert false;
    }
    ExpiresCons(db.events[y], times);
  }

  /** What is to be signaled is signaled by this tick or by a later one. */
  lemma SetsLater(db: Db, r: Db, times: seq<nat>, y: nat, x: nat)
    requires Inv(db) && times != [] && AfterTick(db, r, times[0]) && Sets(db, times, y, x)
    ensures Fires(db, times[0], db.nextId, x) || Sets(r, times[1..], y, x)
  {
    assert r.events[y] == Ticked(db.events[y], times[0], true, Fires(db, times[0], db.nextId, y));
    ExpiresCons(db.events[y], times);
    if Due(db.events[y], times[0]) {
      DueFires(db, times[0], y, x);
    } else if Fires(db, times[0], db.nextId, y) {
      var z :| 0 <= z < db.nextId && Reaches(db, z, y) && Due(db.events[z], times[0]) && !db.events[z].signaled;
      DueFires(db, times[0], z, x);
    }
  }

  /** Over any ticks, exactly those events become signaled that the timer of an unsignaled event reaches, where that
      timer has a tick at or after its trigger time. */
  lemma {:induction false} TicksSignal(db: Db, times: seq<nat>, x: nat)
    requires Inv(db) && x in db.events
    ensures var r := Ticks(db, times);
            && Inv(r) && x in r.events
            && (r.events[x].signaled <==> db.events[x].signaled || exists y :: Sets(db, times, y, x))
    decreases |times|
  {
    if times != [] {
      var r := Tick(db, times[0]);
      TickAll(db, times[0]);
      TicksSignal(r, times[1..], x);
      forall y | Sets(db, times, y, x) ensures r.events[x].signaled || exists y' :: Sets(r, times[1..], y', x) {
        SetsLater(db, r, times, y, x);
      }
      forall y | Sets(r, times[1..], y, x) ensures exists y' :: Sets(db, times, y', x) {
        SetsEarlier(db, r, times, y, x);
      }
      if Fires(db, times[0], db.nextId, x) {
        FiresSets(db, times, x);
      }
    }
  }

  lemma FiresSets(db: Db, times: seq<nat>, x: nat)
    requires times != [] && Fires(db, times[0], db.nextId, x)
    ensures exists y :: Sets(db, times, y, x)
  {
    var y :| 0 <= y < db.nextId && Reaches(db, y, x) && Due(db.events[y], times[0]) && !db.events[y].signaled;
    ExpiresCons(db.events[y], times);
    assert Sets(db, times, y, x);
  }

  // ---------- when a timer is due again ----------

  /** The event's own timer after the ticks. */
  function Rearmed(e: Event, times: seq<nat>): Event
    decreases |times|
  {
    if times == [] then e
    else Rearmed(if Due(e, times[0]) then Rearm(e, times[0]) else e, times[1..])
  }

  /** Timers do not depend on each other, nor on signals. */
  lemma {:induction false} TicksTimer(db: Db, times: seq<nat>, x: nat)
    requires Inv(db) && x in db.events
    ensures var r := Ticks(db, times);
            x in r.events && r.events[x] == Rearmed(db.events[x], times).(signaled := r.events[x].signaled)
    decreases |times|
  {
    if times != [] {
      var r := Tick(db, times[0]);
      TickAll(db, times[0]);
      var e := if Due(db.events[x], times[0]) then Rearm(db.events[x], times[0]) else db.events[x];
      TicksTimer(r, times[1..], x);
      RearmedSignal(e, times[1..], r.events[x].signaled);
    }
  }

  lemma {:induction false} RearmedSignal(e: Event, times: seq<nat>, signaled: bool)
    ensures Rearmed(e.(signaled := signaled), times) == Rearmed(e, times).(signaled := signaled)
    decreases |times|
  {
    if times != [] {
      RearmedSignal(if Due(e, times[0]) then Rearm(e, times[0]) else e, times[1..], signaled);
    }
  }

  predicate Reached(deadline: Option<nat>, time: nat) {
    deadline.Some? && deadline.value <= time
  }

  /** When the timer is due after its first `i` firings at the ticks `fired`. */
  function Deadline(fired: seq<nat>, i: nat, trigger: Option<nat>, period: Option<nat>, times: seq<nat>): Option<nat>
    requires i <= |fired| && (i > 0 ==> fired[i - 1] < |times|)
  {
    if i == 0 then trigger
    else if period.None? then None
    else Some(times[fired[i - 1]] + period.value)
  }

  /** The ticks after the first `i` firings: none reaches the deadline before the next firing, which does. */
  ghost predicate Turn(fired: seq<nat>, i: nat, trigger: Option<nat>, period: Option<nat>, times: seq<nat>)
    requires i <= |fired|
  {
    (i > 0 ==> fired[i - 1] < |times|) &&
    var from, to := if i == 0 then 0 else fired[i - 1] + 1, if i < |fired| then fired[i] else |times|;
    var deadline := Deadline(fired, i, trigger, period, times);
    && from <= to && (i < |fired| ==> to < |times| && Reached(deadline, times[to]))
    && forall j :: from <= j < to && j < |times| ==> !Reached(deadline, times[j])
  }

  /** `fired` are the ticks that fire a timer with the given trigger time and period: each is the first one that reaches
      the deadline set by the one before. */
  ghost predicate FiredAt(fired: seq<nat>, trigger: Option<nat>, period: Option<nat>, times: seq<nat>) {
    forall i :: 0 <= i <= |fired| ==> Turn(fired, i, trigger, period, times)
  }

  /** Two lists of firings that agree so far agree on the next one. */
  lemma NextFiring(
    fired: seq<nat>, fired': seq<nat>, trigger: Option<nat>, period: Option<nat>, times: seq<nat>, i: nat)
    requires i < |fired| && i <= |fired'| && (i > 0 ==> fired[i - 1] == fired'[i - 1])
    requires Turn(fired, i, trigger, period, times) && Turn(fired', i, trigger, period, times)
    ensures i < |fired'| && fired'[i] == fired[i]
  {
  }

  /** Trigger, period and ticks determine the firings. */
  lemma {:induction false} FiredAtOnce(
    fired: seq<nat>, fired': seq<nat>, trigger: Option<nat>, period: Option<nat>, times: seq<nat>, i: nat)
    requires FiredAt(fired, trigger, period, times) && FiredAt(fired', trigger, period, times) && i < |fired|
    ensures i < |fired'| && fired'[i] == fired[i]
  {
    if i > 0 {
      FiredAtOnce(fired, fired', trigger, period, times, i - 1);
    }
    NextFiring(fired, fired', trigger, period, times, i);
  }

  lemma {:induction false} RearmedAppend(e: Event, times: seq<nat>, time: nat)
    ensures var before := Rearmed(e, times);
            Rearmed(e, times + [time]) == if Due(before, time) then Rearm(before, time) else before
    decreases |times|
  {
    if times == [] {
      assert times + [time] == [time] && [time][1..] == [];
    } else {
      assert (times + [time])[1..] == times[1..] + [time];
      RearmedAppend(if Due(e, times[0]) then Rearm(e, times[0]) else e, times[1..], time);
    }
  }

  /** Earlier turns do not see a later tick or firing. */
  lemma TurnStays(
    fired: seq<nat>, more: seq<nat>, i: nat, trigger: Option<nat>, period: Option<nat>, times: seq<nat>, time: nat)
    requires i < |fired| && Turn(fired, i, trigger, period, times)
    ensures Turn(fired + more, i, trigger, period, times + [time])
  {
    assert (fired + more)[i] == fired[i] && (i > 0 ==> (fired + more)[i - 1] == fired[i - 1]);
    assert forall j :: 0 <= j < |times| ==> (times + [time])[j] == times[j];
  }

  /** One more tick: it fires if it reaches the deadline. */
  lemma FiredAppend(fired: seq<nat>, trigger: Option<nat>, period: Option<nat>, times: seq<nat>, time: nat)
    requires FiredAt(fired, trigger, period, times) && (fired != [] ==> fired[|fired| - 1] < |times|)
    ensures var fires := Reached(Deadline(fired, |fired|, trigger, period, times), time);
            FiredAt(fired + if fires then [|times|] else [], trigger, period, times + [time])
  {
    var fires := Reached(Deadline(fired, |fired|, trigger, period, times), time);
    var more := if fires then [|times|] else [];
    forall i | 0 <= i < |fired| ensures Turn(fired + more, i, trigger, period, times + [time]) {
      assert Turn(fired, i, trigger, period, times);
      TurnStays(fired, more, i, trigger, period, times, time);
    }
    assert Turn(fired, |fired|, trigger, period, times);
    LastTurn(fired, trigger, period, times, time);
  }

  lemma LastTurn(fired: seq<nat>, trigger: Option<nat>, period: Option<nat>, times: seq<nat>, time: nat)
    requires Turn(fired, |fired|, trigger, period, times)
    ensures var fires := Reached(Deadline(fired, |fired|, trigger, period, times), time);
            if fires then
              && Turn(fired + [|times|], |fired|, trigger, period, times + [time])
              && Turn(fired + [|times|], |fired| + 1, trigger, period, times + [time])
            else Turn(fired + [], |fired|, trigger, period, times + [time])
  {
    assert fired + [] == fired;
    assert forall j :: 0 <= j < |times| ==> (times + [time])[j] == times[j];
    assert (times + [time])[|times|] == time;
  }

  /** The firings of a timer over any ticks, and the deadline they leave. */
  lemma {:induction false} RearmedExactly(e: Event, times: seq<nat>) returns (fired: seq<nat>)
    requires e.kind.IsTimer()
    ensures FiredAt(fired, e.trigger, e.period, times) && (fired != [] ==> fired[|fired| - 1] < |times|)
    ensures Rearmed(e, times) == e.(trigger := Deadline(fired, |fired|, e.trigger, e.period, times))
    ensures fired != [] <==> Expires(e, times)
  {
    if times == [] {
      fired := [];
    } else {
      var n := |times| - 1;
      var front, time := times[..n], times[n];
      assert times == front + [time];
      var before := RearmedExactly(e, front);
      RearmedAppend(e, front, time);
      FiredAppend(before, e.trigger, e.period, front, time);
      ExpiresAppend(e, front, time);
      fired := before + if Reached(Deadline(before, |before|, e.trigger, e.period, front), time) then [n] else [];
    }
  }

  lemma ExpiresAppend(e: Event, times: seq<nat>, time: nat)
    ensures Expires(e, times + [time]) <==> Expires(e, times) || Due(e, time)
  {
    var all := times + [time];
    assert all[|times|] == time;
    if k :| 0 <= k < |times| && Due(e, times[k]) {
      assert all[k] == times[k];
    }
  }

  // ---------- from SetTimer on ----------

  /** What the delay type demands of the times. */
  predicate TimesFit(delay: TimerDelay, trigger: Option<nat>, period: Option<nat>) {
    match delay
    case Cancel => trigger.None? && period.None?
    case Periodic => trigger.Some? && period.Some?
    case Relative => trigger.Some? && period.None?
  }

  /** Setting a timer stores exactly the given times for exactly this event, if it is a live timer event and the times
      fit the delay; otherwise it changes nothing. */
  lemma SetTimerExactly(db: Db, id: nat, delay: TimerDelay, trigger: Option<nat>, period: Option<nat>)
    ensures var (r, status) := SetTimer(db, id, delay, trigger, period);
            && (status == Ok <==> id in db.events && db.events[id].kind.IsTimer() && TimesFit(delay, trigger, period))
            && (status != Ok ==> status == InvalidParameter && r == db)
            && (status == Ok ==>
                  && r.events.Keys == db.events.Keys && r == db.(events := r.events)
                  && (forall x :: x in db.events && x != id ==> r.events[x] == db.events[x])
                  && r.events[id] == db.events[id].(trigger := trigger, period := period))
  {
  }

  /** From setting a timer on, over any ticks: the event is signaled if its timer fired or a group member's timer
      expired, and the deadline is that of the last firing, or the trigger time.  The firings are determined by the
      arguments. */
  lemma TimerFires(db: Db, id: nat, delay: TimerDelay, trigger: Option<nat>, period: Option<nat>, times: seq<nat>)
    returns (fired: seq<nat>)
    requires Inv(db) && id in db.events && !db.events[id].signaled
    requires db.events[id].kind.IsTimer() && TimesFit(delay, trigger, period)
    ensures FiredAt(fired, trigger, period, times) && (fired != [] ==> fired[|fired| - 1] < |times|)
    ensures var r := Ticks(SetTimer(db, id, delay, trigger, period).0, times);
            && id in r.events && r.events[id].period == period
            && r.events[id].trigger == Deadline(fired, |fired|, trigger, period, times)
            && (r.events[id].signaled <==> fired != [] || exists y :: y != id && Sets(db, times, y, id))
  {
    var db' := SetTimer(db, id, delay, trigger, period).0;
    SetTimerExactly(db, id, delay, trigger, period);
    TimerInv(db, id, trigger, period);
    TicksSignal(db', times, id);
    TicksTimer(db', times, id);
    fired := RearmedExactly(db'.events[id], times);
    assert Sets(db', times, id, id) <==> Expires(db'.events[id], times);
    forall y | y != id ensures Sets(db', times, y, id) <==> Sets(db, times, y, id) {
    }
  }
}
