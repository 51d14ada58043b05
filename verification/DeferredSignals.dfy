/** Signals raised while the event lock is held are put on a list and processed when the lock is released. */
module DeferredSignals {
  import opened EventModel
  import opened EventInvariant
  import opened EventRuns
  import opened EventDatabase

  datatype Pending = PendingEvent(id: nat) | PendingGroup(group: nat)

  function AsOp(p: Pending): Op {
    match p
    case PendingEvent(id) => Op.SignalEvent(id)
    case PendingGroup(group) => SignalEventGroup(group)
  }

  function AsOps(ps: seq<Pending>): seq<Op> {
    if ps == [] then [] else [AsOp(ps[0])] + AsOps(ps[1..])
  }

  /** The database with its lock and the list of deferred signals. */
  datatype Shared = Shared(db: Db, held: bool, deferred: seq<Pending>)

  /** What can happen: the lock is taken, work is done under it, a signal arrives, the lock is released.
      The list itself is never busy when a signal arrives or the lock is released. */
  datatype Happening = Acquire | Work(op: Op) | Arrive(p: Pending) | Release

  predicate Allowed(s: Shared, h: Happening) {
    match h
    case Acquire => !s.held
    case Work(_) => s.held
    case Arrive(_) => true
    case Release => s.held
  }

  function Happen(s: Shared, h: Happening): Shared {
    match h
    case Acquire => s.(held := true)
    case Work(op) => s.(db := Step(s.db, op))
    case Arrive(p) =>
      if s.held then s.(deferred := s.deferred + [p])
      else s.(db := Run(Step(s.db, AsOp(p)), AsOps(s.deferred)), deferred := [])
    case Release => Shared(Run(s.db, AsOps(s.deferred)), false, [])
  }

  ghost predicate AllAllowed(s: Shared, hs: seq<Happening>)
    decreases |hs|
  {
    hs == [] || (Allowed(s, hs[0]) && AllAllowed(Happen(s, hs[0]), hs[1..]))
  }

  function Outcome(s: Shared, hs: seq<Happening>): Shared
    decreases |hs|
  {
    if hs == [] then s else Outcome(Happen(s, hs[0]), hs[1..])
  }

  /** The same happenings one after the other: the signals of a critical section, in arrival order, come after its work.
      `waiting` are the signals of the section that is open, if one is. */
  function Linear(hs: seq<Happening>, held: bool, waiting: seq<Pending>): seq<Op>
    decreases |hs|
  {
    if hs == [] then AsOps(waiting)
    else match hs[0]
      case Acquire => Linear(hs[1..], true, waiting)
      case Work(op) => [op] + Linear(hs[1..], held, waiting)
      case Arrive(p) =>
        if held then Linear(hs[1..], held, waiting + [p])
        else [AsOp(p)] + Linear(hs[1..], held, waiting)
      case Release => AsOps(waiting) + Linear(hs[1..], false, [])
  }

  /** Deferred signals linearize: whatever interleaving of critical sections and arriving signals, processing the
      signals that still wait leaves the state of the linear order, in which no signal is lost or reordered. */
  lemma {:induction false} SignalsLinearize(s: Shared, hs: seq<Happening>)
    requires AllAllowed(s, hs) && (!s.held ==> s.deferred == [])
    ensures var r := Outcome(s, hs);
            && Run(r.db, AsOps(r.deferred)) == Run(s.db, Linear(hs, s.held, s.deferred))
            && (!r.held ==> r.deferred == [])
    decreases |hs|
  {
    if hs != [] {
      SignalsLinearize(Happen(s, hs[0]), hs[1..]);
      var rest := Linear(hs[1..], Happen(s, hs[0]).held, Happen(s, hs[0]).deferred);
      match hs[0]
      case Acquire =>
      case Work(op) => assert ([op] + rest)[1..] == rest;
      case Arrive(p) => assert ([AsOp(p)] + rest)[1..] == rest;
      case Release => RunConcat(s.db, AsOps(s.deferred), rest);
    }
  }

  /** The work and the signals of one critical section. */
  function WorkOf(hs: seq<Happening>): seq<Op> {
    if hs == [] then [] else (if hs[0].Work? then [hs[0].op] else []) + WorkOf(hs[1..])
  }

  function SignalsOf(hs: seq<Happening>): seq<Pending> {
    if hs == [] then [] else (if hs[0].Arrive? then [hs[0].p] else []) + SignalsOf(hs[1..])
  }

  lemma {:induction false} AsOpsConcat(ps: seq<Pending>, ps': seq<Pending>)
    ensures AsOps(ps + ps') == AsOps(ps) + AsOps(ps')
  {
    if ps == [] {
      assert ps + ps' == ps';
    } else {
      assert (ps + ps')[1..] == ps[1..] + ps';
      AsOpsConcat(ps[1..], ps');
    }
  }

  lemma OpsAssociate(x: seq<Op>, y: seq<Op>, z: seq<Op>)
    ensures (x + y) + z == x + (y + z)
  {
  }

  lemma {:induction false} SectionLinear(hs: seq<Happening>, waiting: seq<Pending>)
    requires forall i :: 0 <= i < |hs| ==> hs[i].Work? || hs[i].Arrive?
    ensures Linear(hs + [Release], true, waiting) == WorkOf(hs) + AsOps(waiting + SignalsOf(hs))
    decreases |hs|
  {
    if hs == [] {
      assert hs + [Release] == [Release] && waiting + SignalsOf(hs) == waiting;
      assert [Release][1..] == [];
    } else {
      assert (hs + [Release])[1..] == hs[1..] + [Release];
      if hs[0].Work? {
        SectionLinear(hs[1..], waiting);
        assert SignalsOf(hs) == SignalsOf(hs[1..]);
        OpsAssociate([hs[0].op], WorkOf(hs[1..]), AsOps(waiting + SignalsOf(hs)));
      } else {
        SectionLinear(hs[1..], waiting + [hs[0].p]);
        assert waiting + [hs[0].p] + SignalsOf(hs[1..]) == waiting + SignalsOf(hs);
        assert WorkOf(hs) == WorkOf(hs[1..]);
      }
    }
  }

  // ---------- the linear order keeps everything ----------

  function Arrivals(ps: seq<Pending>): seq<Happening> {
    if ps == [] then [] else [Arrive(ps[0])] + Arrivals(ps[1..])
  }

  /** The work and the signals in the linear order. */
  function Order(hs: seq<Happening>, held: bool, waiting: seq<Pending>): seq<Happening>
    decreases |hs|
  {
    if hs == [] then Arrivals(waiting)
    else match hs[0]
      case Acquire => Order(hs[1..], true, waiting)
      case Work(op) => [Work(op)] + Order(hs[1..], held, waiting)
      case Arrive(p) =>
        if held then Order(hs[1..], held, waiting + [p]) else [Arrive(p)] + Order(hs[1..], held, waiting)
      case Release => Arrivals(waiting) + Order(hs[1..], false, [])
  }

  /** What work and signals do to the database. */
  function OpsOf(hs: seq<Happening>): seq<Op> {
    if hs == [] then []
    else
      var rest := OpsOf(hs[1..]);
      match hs[0]
      case Work(op) => [op] + rest
      case Arrive(p) => [AsOp(p)] + rest
      case _ => rest
  }

  lemma {:induction false} OpsConcat(hs: seq<Happening>, hs': seq<Happening>)
    ensures OpsOf(hs + hs') == OpsOf(hs) + OpsOf(hs')
  {
    if hs == [] {
      assert hs + hs' == hs';
    } else {
      assert (hs + hs')[0] == hs[0] && (hs + hs')[1..] == hs[1..] + hs';
      OpsConcat(hs[1..], hs');
    }
  }

  lemma {:induction false} WorkConcat(hs: seq<Happening>, hs': seq<Happening>)
    ensures WorkOf(hs + hs') == WorkOf(hs) + WorkOf(hs')
  {
    if hs == [] {
      assert hs + hs' == hs';
    } else {
      assert (hs + hs')[0] == hs[0] && (hs + hs')[1..] == hs[1..] + hs';
      WorkConcat(hs[1..], hs');
    }
  }

  lemma {:induction false} SignalsConcat(hs: seq<Happening>, hs': seq<Happening>)
    ensures SignalsOf(hs + hs') == SignalsOf(hs) + SignalsOf(hs')
  {
    if hs == [] {
      assert hs + hs' == hs';
    } else {
      assert (hs + hs')[0] == hs[0] && (hs + hs')[1..] == hs[1..] + hs';
      SignalsConcat(hs[1..], hs');
    }
  }

  lemma {:induction false} ArrivalsAre(ps: seq<Pending>)
    ensures OpsOf(Arrivals(ps)) == AsOps(ps) && WorkOf(Arrivals(ps)) == [] && SignalsOf(Arrivals(ps)) == ps
  {
    if ps != [] {
      ArrivalsAre(ps[1..]);
      assert Arrivals(ps)[1..] == Arrivals(ps[1..]);
    }
  }

  lemma {:induction false} LinearIsOrder(hs: seq<Happening>, held: bool, waiting: seq<Pending>)
    ensures Linear(hs, held, waiting) == OpsOf(Order(hs, held, waiting))
    decreases |hs|
  {
    ArrivalsAre(waiting);
    if hs != [] {
      var rest := hs[1..];
      match hs[0]
      case Acquire => LinearIsOrder(rest, true, waiting);
      case Work(op) =>
        LinearIsOrder(rest, held, waiting);
        OpsConcat([Work(op)], Order(rest, held, waiting));
      case Arrive(p) =>
        LinearIsOrder(rest, held, if held then waiting + [p] else waiting);
        OpsConcat([Arrive(p)], Order(rest, held, waiting));
      case Release =>
        LinearIsOrder(rest, false, []);
        OpsConcat(Arrivals(waiting), Order(rest, false, []));
    }
  }

  lemma {:induction false} OrderKeepsWork(hs: seq<Happening>, held: bool, waiting: seq<Pending>)
    ensures WorkOf(Order(hs, held, waiting)) == WorkOf(hs)
    decreases |hs|
  {
    ArrivalsAre(waiting);
    if hs != [] {
      var rest := hs[1..];
      match hs[0]
      case Acquire => OrderKeepsWork(rest, true, waiting);
      case Work(op) =>
        OrderKeepsWork(rest, held, waiting);
        WorkConcat([Work(op)], Order(rest, held, waiting));
      case Arrive(p) =>
        OrderKeepsWork(rest, held, if held then waiting + [p] else waiting);
        WorkConcat([Arrive(p)], Order(rest, held, waiting));
      case Release =>
        OrderKeepsWork(rest, false, []);
        WorkConcat(Arrivals(waiting), Order(rest, false, []));
    }
  }

  lemma {:induction false} OrderKeepsSignals(hs: seq<Happening>, held: bool, waiting: seq<Pending>)
    requires !held ==> waiting == []
    ensures SignalsOf(Order(hs, held, waiting)) == waiting + SignalsOf(hs)
    decreases |hs|
  {
    ArrivalsAre(waiting);
    if hs != [] {
      var rest := hs[1..];
      match hs[0]
      case Acquire => OrderKeepsSignals(rest, true, waiting);
      case Work(op) =>
        OrderKeepsSignals(rest, held, waiting);
        SignalsConcat([Work(op)], Order(rest, held, waiting));
      case Arrive(p) =>
        if held {
          OrderKeepsSignals(rest, held, waiting + [p]);
          assert waiting + [p] + SignalsOf(rest) == waiting + ([p] + SignalsOf(rest));
        } else {
          OrderKeepsSignals(rest, held, waiting);
          SignalsConcat([Arrive(p)], Order(rest, held, waiting));
        }
      case Release =>
        OrderKeepsSignals(rest, false, []);
        SignalsConcat(Arrivals(waiting), Order(rest, false, []));
    }
  }

  /** The linear order holds all work in its order and all signals in theirs, and nothing else. */
  lemma LinearKeepsAll(hs: seq<Happening>, held: bool, waiting: seq<Pending>)
    requires !held ==> waiting == []
    ensures var order := Order(hs, held, waiting);
            && Linear(hs, held, waiting) == OpsOf(order)
            && WorkOf(order) == WorkOf(hs) && SignalsOf(order) == waiting + SignalsOf(hs)
  {
    LinearIsOrder(hs, held, waiting);
    OrderKeepsWork(hs, held, waiting);
    OrderKeepsSignals(hs, held, waiting);
  }

  /** One critical section: the outcome is the work, then the signals in arrival order. */
  lemma SectionThenSignals(db: Db, hs: seq<Happening>)
    requires forall i :: 0 <= i < |hs| ==> hs[i].Work? || hs[i].Arrive?
    requires AllAllowed(Shared(db, true, []), hs + [Release])
    ensures Outcome(Shared(db, true, []), hs + [Release])
              == Shared(Run(Run(db, WorkOf(hs)), AsOps(SignalsOf(hs))), false, [])
  {
    var s := Shared(db, true, []);
    SignalsLinearize(s, hs + [Release]);
    SectionLinear(hs, []);
    assert [] + SignalsOf(hs) == SignalsOf(hs);
    RunConcat(db, WorkOf(hs), AsOps(SignalsOf(hs)));
    OutcomeReleased(s, hs);
  }

  lemma {:induction false} OutcomeReleased(s: Shared, hs: seq<Happening>)
    ensures !Outcome(s, hs + [Release]).held && Outcome(s, hs + [Release]).deferred == []
    decreases |hs|
  {
    if hs == [] {
      assert hs + [Release] == [Release];
      assert [Release][1..] == [];
    } else {
      assert (hs + [Release])[1..] == hs[1..] + [Release];
      OutcomeReleased(Happen(s, hs[0]), hs[1..]);
    }
  }

  /** Signals that name another event or a group. */
  function Sparing(ps: seq<Pending>, id: nat): seq<Pending> {
    if ps == [] then []
    else (if ps[0] == PendingEvent(id) then [] else [ps[0]]) + Sparing(ps[1..], id)
  }

  /** Deferred signals that name an event closed in the meantime have no effect. */
  lemma {:induction false} ClosedEventsIgnored(db: Db, ps: seq<Pending>, id: nat)
    requires Inv(db) && Retired(db, id)
    ensures Run(db, AsOps(ps)) == Run(db, AsOps(Sparing(ps, id)))
    decreases |ps|
  {
    if ps != [] {
      var db' := Step(db, AsOp(ps[0]));
      StepInv(db, AsOp(ps[0]));
      StepKeepsRetired(db, AsOp(ps[0]), id);
      ClosedEventsIgnored(db', ps[1..], id);
      if ps[0] == PendingEvent(id) {
        assert Sparing(ps, id) == Sparing(ps[1..], id);
      } else {
        assert Sparing(ps, id)[0] == ps[0] && Sparing(ps, id)[1..] == Sparing(ps[1..], id);
      }
    }
  }

  /** The locked event database object. */
  class SpinLockedEventDb {
    const inner: EventDb
    var held: bool
    var deferred: seq<Pending>

    ghost predicate Valid()
      reads this, inner
    {
      inner.Valid()
    }

    ghost function Value(): Shared
      reads this, inner
    {
      Shared(inner.Value(), held, deferred)
    }

    constructor ()
      ensures Valid() && fresh(inner) && Value() == Shared(EMPTY, false, [])
    {
      inner := new EventDb();
      held, deferred := false, [];
    }

    /** Takes the lock if it is free. */
    method TryLock() returns (ok: bool)
      modifies this
      ensures ok == !old(held) && Value() == if ok then Happen(old(Value()), Acquire) else old(Value())
    {
      ok := !held;
      held := true;
    }

    /** Releases the lock after processing the deferred signals in order. */
    method Unlock()
      requires Valid() && held
      modifies this, inner
      ensures Valid() && Value() == Happen(old(Value()), Release)
    {
      ghost var all := AsOps(deferred);
      while deferred != []
        invariant Valid() && held
        invariant Run(inner.Value(), AsOps(deferred)) == Run(old(inner.Value()), all)
        decreases |deferred|
      {
        match deferred[0] {
          case PendingEvent(id) => var _ := inner.SignalEvent(id);
          case PendingGroup(group) => inner.SignalGroup(group);
        }
        deferred := deferred[1..];
      }
      held := false;
    }

    /** Signals an event, or defers the signal while the lock is held; a deferred signal is always reported as done. */
    method SignalEvent(id: nat) returns (status: Status)
      requires Valid()
      modifies this, inner
      ensures status == if old(held) then Ok else Signal(old(inner.Value()), id).1
      ensures Valid() && Value() == Happen(old(Value()), Arrive(PendingEvent(id)))
    {
      var ok := TryLock();
      if ok {
        status := inner.SignalEvent(id);
        Unlock();
      } else {
        status := Ok;
        deferred := deferred + [PendingEvent(id)];
      }
    }

    /** Signals a group, or defers the signal while the lock is held. */
    method SignalGroup(group: nat)
      requires Valid()
      modifies this, inner
      ensures Valid() && Value() == Happen(old(Value()), Arrive(PendingGroup(group)))
    {
      var ok := TryLock();
      if ok {
        inner.SignalGroup(group);
        Unlock();
      } else {
        deferred := deferred + [PendingGroup(group)];
      }
    }
  }
}
