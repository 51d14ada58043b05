/** Task priority levels: a machine whose steps are those of code running at some level and of the
    dispatch loop in RestoreTpl.  Code, in the application and in notification functions, calls the API in
    any order; it lowers the level only to levels at or above the one it was entered at, and returns at that level.
    There are no hardware interrupts; the interrupt flag is kept. */
module TplDispatch {
  import opened EventModel
  import opened EventQueue
  import opened EventInvariant
  import opened EventRuns

  /** An activation: a RestoreTpl call in its dispatch loop, or a running notification function. */
  datatype Frame =
    | Restoring(target: nat)
    | Notifying(tpl: nat, event: nat)
  {
    function Level(): nat {
      if Restoring? then target else tpl
    }
  }

  datatype Machine = Machine(db: Db, level: nat, interrupts: bool, stack: seq<Frame>)

  datatype Action =
    | Raise(tpl: nat)       // RaiseTpl
    | Lower(tpl: nat)       // RestoreTpl
    | Call(op: Op)          // an event service; takes and releases the event lock
    | Return                // the notification function returns
    | Loop                  // one turn of the dispatch loop

  const START: Machine := Machine(EMPTY, TPL_APPLICATION, true, [])

  ghost predicate InLoop(m: Machine) {
    m.stack != [] && m.stack[|m.stack| - 1].Restoring?
  }

  /** The level that the running code was entered at. */
  function Floor(m: Machine): nat {
    if m.stack != [] && m.stack[|m.stack| - 1].Notifying? then m.stack[|m.stack| - 1].tpl else TPL_APPLICATION
  }

  ghost predicate Enabled(m: Machine, a: Action) {
    match a
    case Raise(tpl) => !InLoop(m) && m.level <= tpl <= TPL_HIGH_LEVEL
    case Lower(tpl) => !InLoop(m) && Floor(m) <= tpl <= m.level
    case Call(op) => !InLoop(m) && !op.DispatchNext?
    case Return => m.stack != [] && !InLoop(m) && m.level == Floor(m)
    case Loop => InLoop(m)
  }

  /** RestoreTpl is entered: when it lowers the level, it enters the dispatch loop at the new level. */
  function EnterRestore(m: Machine, before: nat, tpl: nat): Machine {
    if tpl < before then m.(level := tpl, stack := m.stack + [Restoring(tpl)])
    else m.(level := tpl, interrupts := m.interrupts || tpl < TPL_HIGH_LEVEL)
  }

  ghost function Next(m: Machine, a: Action): Machine
    requires Enabled(m, a)
  {
    match a
    case Raise(tpl) =>
      m.(level := tpl, interrupts := m.interrupts && !(tpl == TPL_HIGH_LEVEL && m.level < TPL_HIGH_LEVEL))
    case Lower(tpl) => EnterRestore(m, m.level, tpl)
    case Call(op) =>
      // the event lock raises the level to TPL_HIGH_LEVEL; releasing it restores the level of the caller
      var locked := m.(db := Step(m.db, op), interrupts := m.interrupts && m.level == TPL_HIGH_LEVEL);
      EnterRestore(locked, TPL_HIGH_LEVEL, m.level)
    case Return => m.(stack := m.stack[..|m.stack| - 1])
    case Loop =>
      var target := m.stack[|m.stack| - 1].target;
      var (db, n) := Dispatch(m.db, target);
      if n.Some?
      then Machine(db, n.value.tpl, n.value.tpl < TPL_HIGH_LEVEL, m.stack + [Notifying(n.value.tpl, n.value.event)])
      else Machine(db, target, m.interrupts || target < TPL_HIGH_LEVEL, m.stack[..|m.stack| - 1])
  }

  // ---------- the invariant ----------

  /** Loops and notification functions alternate; a function runs above the target of its loop,
      and a loop inside a function has a target at or above the function's level. */
  ghost predicate StackOk(stack: seq<Frame>) {
    stack == [] || (StackOk(stack[..|stack| - 1]) && FrameOk(stack[..|stack| - 1], stack[|stack| - 1]))
  }

  predicate FrameOk(below: seq<Frame>, f: Frame) {
    match f
    case Restoring(target) =>
      && target < TPL_HIGH_LEVEL
      && (if below == [] then TPL_APPLICATION <= target
          else below[|below| - 1].Notifying? && below[|below| - 1].tpl <= target)
    case Notifying(tpl, _) =>
      && tpl <= TPL_HIGH_LEVEL
      && below != [] && below[|below| - 1].Restoring? && below[|below| - 1].target < tpl
  }

  /** No live queued notification is above `level`. */
  ghost predicate NoneAbove(db: Db, level: nat) {
    forall x :: x in db.pending && x.event in db.events ==> x.tpl <= level
  }

  /** No live notify-signal event above `level` is signaled. */
  ghost predicate NoneSignaledAbove(db: Db, level: nat) {
    forall id :: id in db.events && db.events[id].kind.IsNotifySignal() && db.events[id].tpl > level ==>
      !db.events[id].signaled
  }

  /** While code runs, nothing that is queued outranks it, and interrupts are on exactly below the high level. */
  ghost predicate MachineInv(m: Machine) {
    && Inv(m.db) && StackOk(m.stack) && m.level <= TPL_HIGH_LEVEL
    && (if InLoop(m) then m.stack[|m.stack| - 1].target <= m.level
        else Floor(m) <= m.level && NoneAbove(m.db, m.level) && (m.interrupts <==> m.level < TPL_HIGH_LEVEL))
  }

  lemma StartInv()
    ensures MachineInv(START)
  {
  }

  lemma LoopInv(m: Machine)
    requires MachineInv(m) && InLoop(m)
    ensures MachineInv(Next(m, Loop))
  {
    var target := m.stack[|m.stack| - 1].target;
    DispatchInv(m.db, target);
    var (db, n) := Dispatch(m.db, target);
    if n.Some? {
      DispatchedLevel(m.db, target);
      PushOk(m.stack, Notifying(n.value.tpl, n.value.event));
    } else {
      EmptyLoop(m.db, target);
    }
  }

  lemma DispatchedLevel(db: Db, level: nat)
    requires Inv(db) && Dispatch(db, level).1.Some?
    ensures var (r, n) := Dispatch(db, level); level < n.value.tpl <= TPL_HIGH_LEVEL && NoneAbove(r, n.value.tpl)
  {
    DispatchInv(db, level);
    DispatchPicksFirst(db, level);
    var (r, n) := Dispatch(db, level);
    assert n.value.event in r.events && r.events[n.value.event].tpl == n.value.tpl;
  }

  lemma EmptyLoop(db: Db, level: nat)
    requires Inv(db) && Dispatch(db, level).1.None?
    ensures NoneAbove(Dispatch(db, level).0, level)
  {
    DispatchPicksFirst(db, level);
    var k := DropStaleIsSuffix(db.pending, db.events);
  }

  lemma PushOk(stack: seq<Frame>, f: Frame)
    requires StackOk(stack) && FrameOk(stack, f)
    ensures StackOk(stack + [f])
  {
  }

  lemma NextInv(m: Machine, a: Action)
    requires MachineInv(m) && Enabled(m, a)
    ensures MachineInv(Next(m, a))
  {
    match a
    case Loop => LoopInv(m);
    case Call(op) => CallInv(m, op);
    case Lower(tpl) => LowerInv(m, tpl);
    case _ =>
  }

  lemma CallInv(m: Machine, op: Op)
    requires MachineInv(m) && Enabled(m, Call(op))
    ensures MachineInv(Next(m, Call(op)))
  {
    StepInv(m.db, op);
    if m.level < TPL_HIGH_LEVEL {
      PushOk(m.stack, Restoring(m.level));
    } else {
      NoneAboveHigh(Step(m.db, op));
    }
  }

  lemma LowerInv(m: Machine, tpl: nat)
    requires MachineInv(m) && Enabled(m, Lower(tpl))
    ensures MachineInv(Next(m, Lower(tpl)))
  {
    if tpl < m.level {
      PushOk(m.stack, Restoring(tpl));
    }
  }

  lemma NoneAboveHigh(db: Db)
    requires Inv(db)
    ensures NoneAbove(db, TPL_HIGH_LEVEL)
  {
  }

  // ---------- runs ----------

  /** Every action of the run is enabled when it happens. */
  ghost predicate Possible(m: Machine, run: seq<Action>)
    decreases |run|
  {
    run == [] || (Enabled(m, run[0]) && Possible(Next(m, run[0]), run[1..]))
  }

  ghost function After(m: Machine, run: seq<Action>): Machine
    requires Possible(m, run)
    decreases |run|
  {
    if run == [] then m else After(Next(m, run[0]), run[1..])
  }

  lemma {:induction false} AfterInv(m: Machine, run: seq<Action>)
    requires MachineInv(m) && Possible(m, run)
    ensures MachineInv(After(m, run))
    decreases |run|
  {
    if run != [] {
      NextInv(m, run[0]);
      AfterInv(Next(m, run[0]), run[1..]);
    }
  }

  /** The levels of the notification functions that are active, outermost first. */
  function Active(stack: seq<Frame>): seq<nat> {
    if stack == [] then []
    else
      var below, f := Active(stack[..|stack| - 1]), stack[|stack| - 1];
      if f.Notifying? then below + [f.tpl] else below
  }

  ghost predicate Increasing(levels: seq<nat>) {
    forall i, j :: 0 <= i < j < |levels| ==> levels[i] < levels[j]
  }

  lemma {:induction false} ActiveIncreasing(stack: seq<Frame>)
    requires StackOk(stack)
    ensures Increasing(Active(stack))
    ensures forall i :: 0 <= i < |Active(stack)| ==> TPL_APPLICATION < Active(stack)[i] <= TPL_HIGH_LEVEL
    ensures stack != [] ==> forall i :: 0 <= i < |Active(stack)| ==>
              Active(stack)[i] <= stack[|stack| - 1].Level()
    ensures stack != [] && stack[|stack| - 1].Restoring? ==> TPL_APPLICATION <= stack[|stack| - 1].target
    ensures stack != [] && stack[|stack| - 1].Notifying? ==> TPL_APPLICATION < stack[|stack| - 1].tpl
  {
    if stack != [] {
      ActiveIncreasing(stack[..|stack| - 1]);
    }
  }

  lemma {:induction false} IncreasingIsShort(levels: seq<nat>, low: nat, high: nat)
    requires Increasing(levels) && low <= high && forall i :: 0 <= i < |levels| ==> low < levels[i] <= high
    ensures |levels| <= high - low
    decreases |levels|
  {
    if levels != [] {
      var n := |levels| - 1;
      IncreasingIsShort(levels[..n], low, levels[n] - 1);
    }
  }

  /** In every reachable state the active notification functions have strictly increasing levels, so that at most
      one per level above application level is active, and no live queued notification outranks running code. */
  lemma NestingBounded(run: seq<Action>)
    requires Possible(START, run)
    ensures var m := After(START, run);
            && Increasing(Active(m.stack)) && |Active(m.stack)| <= TPL_HIGH_LEVEL - TPL_APPLICATION
            && (!InLoop(m) ==> NoneAbove(m.db, m.level))
  {
    StartInv();
    AfterInv(START, run);
    var m := After(START, run);
    ActiveIncreasing(m.stack);
    IncreasingIsShort(Active(m.stack), TPL_APPLICATION, TPL_HIGH_LEVEL);
  }

  /** A notification function starts at its event's notify TPL, above the target of the loop that dispatches it,
      with its signal cleared. */
  lemma StartsAtOwnLevel(m: Machine)
    requires MachineInv(m) && InLoop(m) && !InLoop(Next(m, Loop)) && |Next(m, Loop).stack| > |m.stack|
    ensures var m' := Next(m, Loop);
            var f := m'.stack[|m'.stack| - 1];
            && f.Notifying? && f.event in m'.db.events && m'.level == f.tpl == m'.db.events[f.event].tpl
            && m.stack[|m.stack| - 1].target < f.tpl
            && (m'.db.events[f.event].kind.IsNotifySignal() ==> !m'.db.events[f.event].signaled)
  {
    DispatchPicksFirst(m.db, m.stack[|m.stack| - 1].target);
  }

  /** Reading the event's type and clearing its signal take the event lock again; nothing is dispatched by that. */
  lemma InnerRestoreIdle(db: Db, level: nat)
    requires Inv(db) && Dispatch(db, level).1.Some?
    ensures Dispatch(Dispatch(db, level).0, Dispatch(db, level).1.value.tpl).1.None?
  {
    var (r, n) := Dispatch(db, level);
    DispatchPicksFirst(db, level);
    DispatchInv(db, level);
    DispatchPicksFirst(r, n.value.tpl);
  }

  // ---------- RestoreTpl ----------

  /** The run never leaves the frame at index `d` before its end. */
  ghost predicate Inside(m: Machine, run: seq<Action>, d: nat)
    requires Possible(m, run)
    decreases |run|
  {
    run != [] ==> |m.stack| > d && Inside(Next(m, run[0]), run[1..], d)
  }

  /** A step does not touch the frames below the top one. */
  lemma NextStack(m: Machine, a: Action, d: nat)
    requires Enabled(m, a) && d < |m.stack|
    ensures var m' := Next(m, a);
            |m'.stack| >= d && m'.stack[..d] == m.stack[..d] && (d < |m'.stack| ==> m'.stack[d] == m.stack[d])
  {
  }

  /** RestoreTpl as a whole: once it returns, the level is the requested one, interrupts are on, no live queued
      notification is above the level, no live notify-signal event above the level is still signaled,
      and the frames below are as before. */
  lemma {:induction false} RestoreContract(m: Machine, run: seq<Action>, d: nat)
    requires MachineInv(m) && Possible(m, run) && Inside(m, run, d)
    requires |m.stack| > d && m.stack[d].Restoring?
    requires |After(m, run).stack| == d
    ensures var r := After(m, run);
            var target := m.stack[d].target;
            && r.level == target && r.interrupts && NoneAbove(r.db, target) && r.stack == m.stack[..d]
            && NoneSignaledAbove(r.db, target)
    decreases |run|
  {
    var m' := Next(m, run[0]);
    NextInv(m, run[0]);
    NextStack(m, run[0], d);
    if |m'.stack| > d {
      RestoreContract(m', run[1..], d);
    } else {
      assert run[1..] == [];
      LoopExit(m, run[0]);
    }
  }

  /** The step that leaves the dispatch loop. */
  lemma LoopExit(m: Machine, a: Action)
    requires MachineInv(m) && Enabled(m, a) && InLoop(m) && |Next(m, a).stack| < |m.stack|
    ensures var target := m.stack[|m.stack| - 1].target;
            var r := Next(m, a);
            && r.level == target && r.interrupts && NoneAbove(r.db, target) && r.stack == m.stack[..|m.stack| - 1]
            && NoneSignaledAbove(r.db, target)
  {
    var target := m.stack[|m.stack| - 1].target;
    NextInv(m, a);
    EmptyLoop(m.db, target);
    NothingSignaledAbove(Next(m, a).db, target);
  }

  lemma NothingSignaledAbove(db: Db, level: nat)
    requires Inv(db) && NoneAbove(db, level)
    ensures NoneSignaledAbove(db, level)
  {
  }

  // ---------- RaiseTpl and event services ----------

  /** RaiseTpl sets the level and nothing else; interrupts are off exactly at the high level. */
  lemma RaiseContract(m: Machine, tpl: nat)
    requires MachineInv(m) && Enabled(m, Raise(tpl))
    ensures var r := Next(m, Raise(tpl));
            && r.level == tpl && (r.interrupts <==> tpl < TPL_HIGH_LEVEL) && r.db == m.db && r.stack == m.stack
            && m.level <= tpl && !InLoop(r)
  {
    NextInv(m, Raise(tpl));
  }

  /** RestoreTpl from the call to the return. */
  lemma LowerContract(m: Machine, tpl: nat, run: seq<Action>)
    requires MachineInv(m) && Enabled(m, Lower(tpl))
    requires var m' := Next(m, Lower(tpl));
             Possible(m', run) && Inside(m', run, |m.stack|) && |After(m', run).stack| == |m.stack|
    ensures Next(m, Lower(tpl)).db == m.db
    ensures var r := After(Next(m, Lower(tpl)), run);
            && r.level == tpl && (r.interrupts <==> tpl < TPL_HIGH_LEVEL) && r.stack == m.stack
            && NoneAbove(r.db, tpl) && NoneSignaledAbove(r.db, tpl)
  {
    var m', d := Next(m, Lower(tpl)), |m.stack|;
    NextInv(m, Lower(tpl));
    if tpl < m.level {
      assert m'.stack[d] == Restoring(tpl) && m'.stack[..d] == m.stack;
      RestoreContract(m', run, d);
    } else {
      assert run == [];
      NothingSignaledAbove(m'.db, tpl);
    }
  }

  /** An event service does its work on the database and returns at the level it was called at, after dispatching what
      it queued above that level. */
  lemma CallContract(m: Machine, op: Op, run: seq<Action>)
    requires MachineInv(m) && Enabled(m, Call(op))
    requires var m' := Next(m, Call(op));
             Possible(m', run) && Inside(m', run, |m.stack|) && |After(m', run).stack| == |m.stack|
    ensures Next(m, Call(op)).db == Step(m.db, op)
    ensures var r := After(Next(m, Call(op)), run);
            && r.level == m.level && (r.interrupts <==> m.interrupts) && r.stack == m.stack
            && NoneAbove(r.db, m.level) && NoneSignaledAbove(r.db, m.level)
  {
    var m', d := Next(m, Call(op)), |m.stack|;
    NextInv(m, Call(op));
    if m.level < TPL_HIGH_LEVEL {
      assert m'.stack[d] == Restoring(m.level) && m'.stack[..d] == m.stack;
      RestoreContract(m', run, d);
    } else {
      assert run == [];
      NothingSignaledAbove(m'.db, m.level);
    }
  }

  /** Raising the level and restoring it is neutral: the restore dispatches nothing and ends where the raise began. */
  lemma RaiseRestore(m: Machine, tpl: nat, run: seq<Action>)
    requires MachineInv(m) && Enabled(m, Raise(tpl)) && m.level < tpl
    requires var m1 := Next(m, Raise(tpl));
             Enabled(m1, Lower(m.level)) &&
             var m2 := Next(m1, Lower(m.level));
             Possible(m2, run) && Inside(m2, run, |m.stack|) && |After(m2, run).stack| == |m.stack|
    ensures var m2 := Next(Next(m, Raise(tpl)), Lower(m.level));
            var r := After(m2, run);
            && run == [Loop] && Dispatched(m2, run) == []
            && r.level == m.level && r.interrupts == m.interrupts && r.stack == m.stack && r.db.events == m.db.events
  {
    var m1 := Next(m, Raise(tpl));
    var m2, d := Next(m1, Lower(m.level)), |m.stack|;
    RaiseContract(m, tpl);
    NextInv(m, Raise(tpl));
    NextInv(m1, Lower(m.level));
    assert m2.stack == m.stack + [Restoring(m.level)] && m2.db == m.db;
    DispatchIdle(m.db, m.level, 0);
    assert run[0] == Loop;
    var r := Next(m2, Loop);
    assert r.stack == m.stack;
    assert run[1..] == [];
    assert run == [Loop];
    assert Taken(m2, Loop) == [];
  }

  // ---------- what RestoreTpl dispatches ----------

  /** The notification that an action dispatches, if any. */
  ghost function Taken(m: Machine, a: Action): seq<Notification>
    requires Enabled(m, a)
  {
    if !a.Loop? then []
    else
      match Dispatch(m.db, m.stack[|m.stack| - 1].target).1
      case Some(n) => [n]
      case None => []
  }

  /** The notifications that a run dispatches, in order. */
  ghost function Dispatched(m: Machine, run: seq<Action>): seq<Notification>
    requires Possible(m, run)
    decreases |run|
  {
    if run == [] then [] else Taken(m, run[0]) + Dispatched(Next(m, run[0]), run[1..])
  }

  /** No event service is called. */
  ghost predicate Quiet(run: seq<Action>) {
    forall k :: 0 <= k < |run| ==> !run[k].Call?
  }

  /** A notification function that the loop at `d` dispatched, and at most one RestoreTpl that it called. */
  ghost predicate Settled(m: Machine, d: nat) {
    |m.stack| > d + 1 ==>
      && |m.stack| <= d + 3 && m.stack[d + 1].Notifying? && NoneAbove(m.db, m.stack[d + 1].tpl)
      && (|m.stack| == d + 3 ==> m.stack[d + 2].Restoring? && m.stack[d + 2].target >= m.stack[d + 1].tpl)
  }

  /** One dispatch takes the first of the live notifications above the level and keeps the others. */
  lemma DispatchLive(db: Db, level: nat)
    requires Inv(db)
    ensures var (r, n) := Dispatch(db, level);
            && LiveAbove(db.pending, db.events, level)
                 == (if n.Some? then [n.value] else []) + LiveAbove(r.pending, r.events, level)
            && LiveUpTo(db.pending, db.events, level) == LiveUpTo(r.pending, r.events, level)
            && (n.None? ==> LiveAbove(r.pending, r.events, level) == [])
  {
    var (r, n) := Dispatch(db, level);
    var q := DropStale(db.pending, db.events);
    DropStaleKeepsLive(db.pending, db.events, level);
    DropStaleOrdered(db.pending, db.events);
    if n.Some? {
      LiveByKeys(q[1..], db.events, r.events, level);
    } else {
      forall i | 0 <= i < |q| ensures q[i].tpl <= level {
        assert i > 0 ==> Before(q[0], q[i]);
      }
      NothingAbove(q, db.events, level);
    }
  }

  /** Where nothing is above the level, the loop only drops entries of closed events. */
  lemma DispatchIdle(db: Db, level: nat, other: nat)
    requires Inv(db) && NoneAbove(db, level)
    ensures var (r, n) := Dispatch(db, level);
            && n.None? && NoneAbove(r, level)
            && LiveAbove(r.pending, r.events, other) == LiveAbove(db.pending, db.events, other)
            && LiveUpTo(r.pending, r.events, other) == LiveUpTo(db.pending, db.events, other)
  {
    DispatchPicksFirst(db, level);
    EmptyLoop(db, level);
    DropStaleKeepsLive(db.pending, db.events, other);
  }

  /** What a quiet step takes from the queue, and that it stays settled. */
  lemma QuietStep(m: Machine, a: Action, d: nat)
    requires MachineInv(m) && Enabled(m, a) && !a.Call?
    requires |m.stack| > d && m.stack[d].Restoring? && Settled(m, d)
    ensures var m', target := Next(m, a), m.stack[d].target;
            && Settled(m', d)
            && LiveAbove(m.db.pending, m.db.events, target)
                 == Taken(m, a) + LiveAbove(m'.db.pending, m'.db.events, target)
            && LiveUpTo(m.db.pending, m.db.events, target) == LiveUpTo(m'.db.pending, m'.db.events, target)
            && (|m'.stack| <= d ==> LiveAbove(m'.db.pending, m'.db.events, target) == [])
  {
    if |m.stack| == d + 1 {
      var target := m.stack[d].target;
      DispatchLive(m.db, target);
      if Dispatch(m.db, target).1.Some? {
        DispatchedLevel(m.db, target);
      }
    } else if |m.stack| == d + 3 {
      QuietInner(m, d);
    }
  }

  /** A RestoreTpl called by a notification function has nothing to dispatch. */
  lemma QuietInner(m: Machine, d: nat)
    requires MachineInv(m) && |m.stack| == d + 3 && m.stack[d].Restoring? && Settled(m, d)
    ensures Enabled(m, Loop) && Taken(m, Loop) == []
    ensures var m', target := Next(m, Loop), m.stack[d].target;
            && Settled(m', d) && |m'.stack| == d + 2
            && LiveAbove(m.db.pending, m.db.events, target) == LiveAbove(m'.db.pending, m'.db.events, target)
            && LiveUpTo(m.db.pending, m.db.events, target) == LiveUpTo(m'.db.pending, m'.db.events, target)
  {
    var inner, tpl := m.stack[d + 2].target, m.stack[d + 1].tpl;
    DispatchIdle(m.db, inner, m.stack[d].target);
    var k := DropStaleIsSuffix(m.db.pending, m.db.events);
    assert NoneAbove(Next(m, Loop).db, tpl);
  }

  /** When the notification functions call no event service, RestoreTpl dispatches exactly the live notifications above
      the requested level, in queue order, and keeps the live ones at or below it. */
  lemma {:induction false} QuietRestore(m: Machine, run: seq<Action>, d: nat)
    requires MachineInv(m) && Possible(m, run) && Inside(m, run, d) && Quiet(run)
    requires |m.stack| > d && m.stack[d].Restoring? && Settled(m, d)
    requires |After(m, run).stack| == d
    ensures var r, target := After(m, run), m.stack[d].target;
            && Dispatched(m, run) == LiveAbove(m.db.pending, m.db.events, target)
            && LiveUpTo(r.db.pending, r.db.events, target) == LiveUpTo(m.db.pending, m.db.events, target)
    decreases |run|
  {
    var m' := Next(m, run[0]);
    NextInv(m, run[0]);
    NextStack(m, run[0], d);
    QuietStep(m, run[0], d);
    if |m'.stack| > d {
      QuietRestore(m', run[1..], d);
    } else {
      assert run[1..] == [];
    }
  }

  /** From the call on: RestoreTpl dispatches what draining the queue takes. */
  lemma QuietRestoreDrains(m: Machine, tpl: nat, run: seq<Action>)
    requires MachineInv(m) && Enabled(m, Lower(tpl)) && tpl < m.level
    requires var m' := Next(m, Lower(tpl));
             Possible(m', run) && Inside(m', run, |m.stack|) && Quiet(run) && |After(m', run).stack| == |m.stack|
    ensures var m' := Next(m, Lower(tpl));
            Dispatched(m', run) == Drain(m.db, tpl).0 == LiveAbove(m.db.pending, m.db.events, tpl)
  {
    NextInv(m, Lower(tpl));
    QuietRestore(Next(m, Lower(tpl)), run, |m.stack|);
    DrainExact(m.db, tpl);
  }
}
