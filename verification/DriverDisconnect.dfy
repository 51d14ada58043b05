/** DisconnectController: stopping the drivers that manage a controller, while Stop may change the protocol database. */
module DriverDisconnect {
  import opened Options

  type Handle = nat

  /** An entry of the controller's open protocol information, over all its protocols in order. */
  datatype Open = Open(agent: Option<Handle>, byDriver: bool, byChild: bool, controller: Option<Handle>)

  /** A Stop call: for some children, or for the controller itself when there are none.  `error` is None on success. */
  datatype Stop = Stop(driver: Handle, children: seq<Handle>, error: Option<nat>)

  /** The protocol database and the drivers, as they answer after the Stop calls so far. */
  datatype World = World(
    opens: seq<Stop> -> Option<seq<Open>>,
    bound: (seq<Stop>, Handle) -> bool,
    stop: (seq<Stop>, Handle, seq<Handle>) -> Option<nat>)

  datatype Result = Ok | InvalidParameter | NotFound | StopError(error: nat)

  // ---------- handles in lists ----------

  /** First occurrences only. */
  function Dedup(xs: seq<Handle>): seq<Handle> {
    if xs == [] then []
    else
      var front, x := Dedup(xs[..|xs| - 1]), xs[|xs| - 1];
      if x in front then front else front + [x]
  }

  ghost predicate NoRepeats(xs: seq<Handle>) {
    forall i, j :: 0 <= i < j < |xs| ==> xs[i] != xs[j]
  }

  lemma {:induction false} DedupIs(xs: seq<Handle>)
    ensures NoRepeats(Dedup(xs)) && forall x :: x in Dedup(xs) <==> x in xs
  {
    if xs != [] {
      DedupIs(xs[..|xs| - 1]);
      assert xs == xs[..|xs| - 1] + [xs[|xs| - 1]];
    }
  }

  function Only(xs: seq<Handle>, x: Handle): seq<Handle> {
    if xs == [] then [] else (if xs[0] == x then [x] else []) + Only(xs[1..], x)
  }

  lemma {:induction false} OnlyIs(xs: seq<Handle>, x: Handle)
    requires NoRepeats(xs)
    ensures Only(xs, x) == if x in xs then [x] else []
  {
    if xs != [] {
      OnlyIs(xs[1..], x);
    }
  }

  /** What `pick` takes from the entries, in order. */
  function Picked(opens: seq<Open>, pick: Open -> Option<Handle>): seq<Handle> {
    if opens == [] then []
    else
      var front := Picked(opens[..|opens| - 1], pick);
      match pick(opens[|opens| - 1])
      case Some(h) => front + [h]
      case None => front
  }

  /** Entry `i` is the first one from which `h` is taken. */
  ghost predicate FirstPick(opens: seq<Open>, pick: Open -> Option<Handle>, h: Handle, i: nat) {
    i < |opens| && pick(opens[i]) == Some(h) && forall j :: 0 <= j < i ==> pick(opens[j]) != Some(h)
  }

  /** `hs` are the handles taken from the entries, each once, in the order of their first entries. */
  ghost predicate FirstPicks(hs: seq<Handle>, opens: seq<Open>, pick: Open -> Option<Handle>) {
    && NoRepeats(hs)
    && (forall h :: h in hs <==> exists i :: 0 <= i < |opens| && pick(opens[i]) == Some(h))
    && (forall a, b, p: nat, q: nat ::
          0 <= a < b < |hs| && FirstPick(opens, pick, hs[a], p) && FirstPick(opens, pick, hs[b], q) ==> p < q)
  }

  lemma {:induction false} DedupPicked(opens: seq<Open>, pick: Open -> Option<Handle>)
    ensures FirstPicks(Dedup(Picked(opens, pick)), opens, pick)
  {
    if opens != [] {
      var n := |opens| - 1;
      var hs := Dedup(Picked(opens[..n], pick));
      DedupPicked(opens[..n], pick);
      match pick(opens[n])
      case None => PicksSkip(hs, opens, pick);
      case Some(h) =>
        assert (Picked(opens[..n], pick) + [h])[..|Picked(opens[..n], pick)|] == Picked(opens[..n], pick);
        if h in hs {
          PicksSkip(hs, opens, pick);
        } else {
          PicksGrow(hs, opens, pick, h);
        }
    }
  }

  /** A handle taken before keeps its first entry when an entry is added. */
  lemma FirstPickBefore(opens: seq<Open>, front: seq<Open>, pick: Open -> Option<Handle>, h: Handle, p: nat)
    requires opens != [] && front == opens[..|opens| - 1] && FirstPick(opens, pick, h, p)
    requires exists i :: 0 <= i < |front| && pick(front[i]) == Some(h)
    ensures FirstPick(front, pick, h, p)
  {
    var i :| 0 <= i < |front| && pick(front[i]) == Some(h);
    assert front[i] == opens[i];
    assert p <= i;
    assert forall j :: 0 <= j <= p ==> front[j] == opens[j];
  }

  /** The last entry gives nothing new. */
  lemma PicksSkip(hs: seq<Handle>, opens: seq<Open>, pick: Open -> Option<Handle>)
    requires opens != [] && FirstPicks(hs, opens[..|opens| - 1], pick)
    requires pick(opens[|opens| - 1]).None? || pick(opens[|opens| - 1]).value in hs
    ensures FirstPicks(hs, opens, pick)
  {
    var front := opens[..|opens| - 1];
    assert forall j :: 0 <= j < |front| ==> front[j] == opens[j];
    forall a, p: nat | 0 <= a < |hs| && FirstPick(opens, pick, hs[a], p) ensures FirstPick(front, pick, hs[a], p) {
      assert hs[a] in hs;
      FirstPickBefore(opens, front, pick, hs[a], p);
    }
  }

  /** The last entry gives a new handle. */
  lemma PicksGrow(hs: seq<Handle>, opens: seq<Open>, pick: Open -> Option<Handle>, h: Handle)
    requires opens != [] && FirstPicks(hs, opens[..|opens| - 1], pick)
    requires pick(opens[|opens| - 1]) == Some(h) && h !in hs
    ensures FirstPicks(hs + [h], opens, pick)
  {
    var front := opens[..|opens| - 1];
    assert forall j :: 0 <= j < |front| ==> front[j] == opens[j];
    forall a, p: nat | 0 <= a < |hs| && FirstPick(opens, pick, hs[a], p)
      ensures p < |front| && FirstPick(front, pick, hs[a], p)
    {
      assert hs[a] in hs;
      FirstPickBefore(opens, front, pick, hs[a], p);
    }
    assert forall q: nat :: FirstPick(opens, pick, h, q) ==> q == |front|;
  }

  /** The agent of an entry that has the controller open by driver. */
  function Manager(o: Open): Option<Handle> {
    if o.byDriver then o.agent else None
  }

  /** Takes the child that an entry of the driver has the controller open for. */
  function ChildOf(driver: Handle): Open -> Option<Handle> {
    (o: Open) => if o.agent == Some(driver) && o.byChild then o.controller else None
  }

  /** The agents that have the controller open by driver. */
  function Managers(opens: seq<Open>): seq<Handle> {
    Picked(opens, Manager)
  }

  /** The children that a driver has opened the controller for. */
  function Children(opens: seq<Open>, driver: Handle): seq<Handle> {
    Picked(opens, ChildOf(driver))
  }

  predicate Manages(opens: seq<Open>, driver: Handle) {
    exists i :: 0 <= i < |opens| && opens[i].agent == Some(driver) && opens[i].byDriver
  }

  /** The drivers to disconnect: the managing ones, or only the named one if it is among them. */
  function DriversToStop(opens: Option<seq<Open>>, named: Option<Handle>): seq<Handle> {
    var all := if opens.Some? then Dedup(Managers(opens.value)) else [];
    if named.Some? then Only(all, named.value) else all
  }

  /** Entry `i` is the first one that has the controller open by driver `h`. */
  ghost predicate FirstManages(opens: seq<Open>, h: Handle, i: nat) {
    && i < |opens| && opens[i].agent == Some(h) && opens[i].byDriver
    && forall j :: 0 <= j < i ==> !(opens[j].agent == Some(h) && opens[j].byDriver)
  }

  /** Exactly the drivers that have the controller open by driver are stopped, or the named one if it is among them;
      each once, in the order of their first entries. */
  lemma DriversToStopExactly(opens: Option<seq<Open>>, named: Option<Handle>)
    ensures var ds := DriversToStop(opens, named);
            && NoRepeats(ds)
            && (forall h :: h in ds <==>
                  opens.Some? && Manages(opens.value, h) && (named.None? || named.value == h))
            && (opens.Some? ==> forall a, b, p: nat, q: nat ::
                  0 <= a < b < |ds| && FirstManages(opens.value, ds[a], p) && FirstManages(opens.value, ds[b], q) ==>
                    p < q)
  {
    if opens.Some? {
      var all := Dedup(Managers(opens.value));
      DedupPicked(opens.value, Manager);
      forall h, i: nat | FirstManages(opens.value, h, i) ensures FirstPick(opens.value, Manager, h, i) {
      }
      if named.Some? {
        OnlyIs(all, named.value);
      }
    }
  }

  // ---------- one driver ----------

  /** The driver is not concerned; its binding has vanished; or it was stopped, with the last status. */
  datatype Outcome = Skipped | Vanished | Stopped(error: Option<nat>)

  /** What happens to one driver after the calls `h`, and the Stop calls it gets. */
  datatype Visit = Visit(driver: Handle, outcome: Outcome, stops: seq<Stop>)

  /** The named child if it is there, or all children. */
  function Chosen(all: seq<Handle>, child: Option<Handle>): seq<Handle> {
    if child.Some? then Only(all, child.value) else all
  }

  ghost function VisitOf(h: seq<Stop>, driver: Handle, child: Option<Handle>, w: World): Visit {
    var opens := w.opens(h);
    if opens.None? || !Manages(opens.value, driver) then Visit(driver, Skipped, [])
    else
      var all := Dedup(Children(opens.value, driver));
      var chosen := Chosen(all, child);
      if child.Some? && chosen == [] then Visit(driver, Skipped, [])
      else if !w.bound(h, driver) then Visit(driver, Vanished, [])
      else StopsOf(h, driver, chosen, child.None? || |all| == |chosen|, w)
  }

  /** Stops the children, if there are any, and then the controller if `whole` and nothing failed. */
  function StopsOf(h: seq<Stop>, driver: Handle, children: seq<Handle>, whole: bool, w: World): Visit {
    var first := if children == [] then [] else [Stop(driver, children, w.stop(h, driver, children))];
    if first != [] && first[0].error.Some? then Visit(driver, Stopped(first[0].error), first)
    else if whole then
      var full := Stop(driver, [], w.stop(h + first, driver, []));
      Visit(driver, Stopped(full.error), first + [full])
    else Visit(driver, Stopped(None), first)
  }

  method StopDriver(h: seq<Stop>, driver: Handle, child: Option<Handle>, w: World) returns (v: Visit)
    ensures v == VisitOf(h, driver, child, w)
  {
    var opens := w.opens(h);
    if opens.None? {
      return Visit(driver, Skipped, []);
    }
    var valid, children := false, [];
    for k := 0 to |opens.value|
      invariant valid <==> Manages(opens.value[..k], driver)
      invariant children == Children(opens.value[..k], driver)
    {
      var o := opens.value[k];
      assert opens.value[..k + 1] == opens.value[..k] + [o];
      ManagesExtends(opens.value[..k], o, driver);
      if o.agent == Some(driver) {
        if o.byDriver {
          valid := true;
        }
        if o.byChild && o.controller.Some? {
          children := children + [o.controller.value];
        }
      }
    }
    assert opens.value[..|opens.value|] == opens.value;
    if !valid {
      return Visit(driver, Skipped, []);
    }
    children := Dedup(children);
    var total := |children|;
    if child.Some? {
      children := Only(children, child.value);
      if children == [] {
        return Visit(driver, Skipped, []);
      }
    }
    if !w.bound(h, driver) {
      return Visit(driver, Vanished, []);
    }
    var status, stops: seq<Stop> := None, [];
    if children != [] {
      status := w.stop(h, driver, children);
      stops := [Stop(driver, children, status)];
    }
    if status.None? && (child.None? || total == |children|) {
      status := w.stop(h + stops, driver, []);
      stops := stops + [Stop(driver, [], status)];
    }
    return Visit(driver, Stopped(status), stops);
  }

  lemma ManagesExtends(opens: seq<Open>, o: Open, driver: Handle)
    ensures Manages(opens + [o], driver) <==> Manages(opens, driver) || (o.agent == Some(driver) && o.byDriver)
  {
    assert (opens + [o])[|opens|] == o;
    assert forall i :: 0 <= i < |opens| ==> (opens + [o])[i] == opens[i];
  }

  /** The Stop calls of one driver: at most one for children and then at most one for the controller, which is
      only made after the former succeeded.  The last status is the outcome. */
  ghost predicate Protocol(v: Visit) {
    && (forall k :: 0 <= k < |v.stops| ==> v.stops[k].driver == v.driver)
    && (v.outcome.Stopped? <==> v.stops != [])
    && |v.stops| <= 2
    && (|v.stops| == 2 ==> v.stops[0].children != [] && v.stops[0].error.None? && v.stops[1].children == [])
    && (v.stops != [] ==> v.outcome == Stopped(v.stops[|v.stops| - 1].error))
  }

  lemma StopsKeepProtocol(h: seq<Stop>, driver: Handle, children: seq<Handle>, whole: bool, w: World)
    requires children != [] || whole
    ensures var v := StopsOf(h, driver, children, whole, w);
            && Protocol(v) && v.stops != []
            && (children != [] ==>
                 v.stops[0].children == children && (|v.stops| == 2 <==> v.stops[0].error.None? && whole))
  {
  }

  lemma VisitKeepsProtocol(h: seq<Stop>, driver: Handle, child: Option<Handle>, w: World)
    ensures Protocol(VisitOf(h, driver, child, w))
  {
    var opens := w.opens(h);
    if opens.Some? && Manages(opens.value, driver) {
      var all := Dedup(Children(opens.value, driver));
      var chosen := Chosen(all, child);
      var whole := child.None? || |all| == |chosen|;
      if (child.Some? ==> chosen != []) && w.bound(h, driver) {
        StopsKeepProtocol(h, driver, chosen, whole, w);
        assert VisitOf(h, driver, child, w) == StopsOf(h, driver, chosen, whole, w);
      } else {
        assert VisitOf(h, driver, child, w).stops == [];
      }
    }
  }

  predicate HasChild(opens: seq<Open>, driver: Handle, c: Handle) {
    exists i :: 0 <= i < |opens| && opens[i].agent == Some(driver) && opens[i].byChild && opens[i].controller == Some(c)
  }

  /** `c` is the one child of the driver. */
  ghost predicate OnlyChild(opens: seq<Open>, driver: Handle, c: Handle) {
    forall x :: HasChild(opens, driver, x) <==> x == c
  }

  /** The driver manages the controller, and the child if one is named. */
  ghost predicate Concerned(opens: Option<seq<Open>>, driver: Handle, child: Option<Handle>) {
    && opens.Some? && Manages(opens.value, driver)
    && (child.Some? ==> HasChild(opens.value, driver, child.value))
  }

  /** Every Stop call has the answer that the driver gives at that point. */
  ghost predicate Answered(h: seq<Stop>, v: Visit, w: World) {
    forall k :: 0 <= k < |v.stops| ==>
      v.stops[k].error == w.stop(h + v.stops[..k], v.driver, v.stops[k].children)
  }

  /** The Stop for children comes first, if the driver has any, and names exactly those asked for.  The controller is
      stopped after it unless it failed or other children remain. */
  ghost predicate StopsAsked(v: Visit, opens: seq<Open>, child: Option<Handle>) {
    v.stops != [] &&
    var children := v.stops[0].children;
    && NoRepeats(children)
    && (forall c :: c in children <==> HasChild(opens, v.driver, c) && (child.None? || c == child.value))
    && (v.stops[|v.stops| - 1].children == [] <==>
          || children == []
          || (v.stops[0].error.None? && (child.None? || OnlyChild(opens, v.driver, child.value))))
  }

  lemma ChildrenAre(opens: seq<Open>, driver: Handle)
    ensures var all := Dedup(Children(opens, driver));
            NoRepeats(all) && forall c :: c in all <==> HasChild(opens, driver, c)
  {
    DedupPicked(opens, ChildOf(driver));
    forall c ensures c in Dedup(Children(opens, driver)) <==> HasChild(opens, driver, c) {
      if i :| 0 <= i < |opens| && ChildOf(driver)(opens[i]) == Some(c) {
        assert opens[i].controller == Some(c);
      }
      if HasChild(opens, driver, c) {
        var i :| 0 <= i < |opens| && opens[i].agent == Some(driver) && opens[i].byChild
          && opens[i].controller == Some(c);
        assert ChildOf(driver)(opens[i]) == Some(c);
      }
    }
  }

  lemma ChosenIs(all: seq<Handle>, child: Option<Handle>)
    requires NoRepeats(all)
    ensures var chosen := Chosen(all, child);
            && NoRepeats(chosen) && (forall c :: c in chosen <==> c in all && (child.None? || c == child.value))
            && (child.Some? ==> (chosen == [] <==> child.value !in all))
            && (child.Some? && chosen != [] ==> (|all| == |chosen| <==> forall x :: x in all <==> x == child.value))
  {
    if child.Some? {
      OnlyIs(all, child.value);
      if |all| == 1 && child.value in all {
        assert all == [all[0]];
      }
      if |all| > 1 {
        assert all[0] in all && all[1] in all && all[0] != all[1];
      }
    }
  }

  /** The children that a Stop names, and whether they are all there are. */
  lemma ChosenChildren(opens: seq<Open>, driver: Handle, child: Option<Handle>)
    ensures var all := Dedup(Children(opens, driver));
            var chosen := Chosen(all, child);
            && NoRepeats(chosen)
            && (forall c :: c in chosen <==> HasChild(opens, driver, c) && (child.None? || c == child.value))
            && (child.Some? ==> (chosen == [] <==> !HasChild(opens, driver, child.value)))
            && (child.Some? && chosen != [] ==> (|all| == |chosen| <==> OnlyChild(opens, driver, child.value)))
  {
    ChildrenAre(opens, driver);
    ChosenIs(Dedup(Children(opens, driver)), child);
  }

  /** The Stop calls of a driver, by what it was asked to stop. */
  lemma StopsExactly(h: seq<Stop>, driver: Handle, children: seq<Handle>, whole: bool, w: World)
    requires children != [] || whole
    ensures var v := StopsOf(h, driver, children, whole, w);
            && v.driver == driver && v.outcome.Stopped? && v.stops != [] && v.stops[0].children == children
            && Answered(h, v, w)
            && (v.stops[|v.stops| - 1].children == [] <==> children == [] || (v.stops[0].error.None? && whole))
  {
    var v := StopsOf(h, driver, children, whole, w);
    assert v.stops[..0] == [] && h + [] == h;
    if |v.stops| == 2 {
      assert v.stops[..1] == [v.stops[0]];
    }
  }

  /** A driver that is concerned and bound gets the Stop calls asked for. */
  lemma VisitStops(h: seq<Stop>, driver: Handle, child: Option<Handle>, w: World)
    requires Concerned(w.opens(h), driver, child) && w.bound(h, driver)
    ensures var v := VisitOf(h, driver, child, w);
            v.driver == driver && v.outcome.Stopped? && Answered(h, v, w) && StopsAsked(v, w.opens(h).value, child)
  {
    var opens := w.opens(h).value;
    var all := Dedup(Children(opens, driver));
    var chosen := Chosen(all, child);
    ChosenChildren(opens, driver, child);
    StopsExactly(h, driver, chosen, child.None? || |all| == |chosen|, w);
    assert VisitOf(h, driver, child, w) == StopsOf(h, driver, chosen, child.None? || |all| == |chosen|, w);
  }

  /** What one driver gets, in terms of the entries: skipped exactly if it is not concerned, an error exactly if its
      binding has vanished, and otherwise the Stop calls asked for, with the driver's answers. */
  lemma VisitExactly(h: seq<Stop>, driver: Handle, child: Option<Handle>, w: World)
    ensures var v, opens := VisitOf(h, driver, child, w), w.opens(h);
            && v.driver == driver && Answered(h, v, w)
            && (v.outcome.Skipped? <==> !Concerned(opens, driver, child))
            && (v.outcome.Vanished? <==> Concerned(opens, driver, child) && !w.bound(h, driver))
            && (v.outcome.Stopped? ==> StopsAsked(v, opens.value, child))
  {
    if Concerned(w.opens(h), driver, child) && w.bound(h, driver) {
      VisitStops(h, driver, child, w);
    } else if w.opens(h).Some? {
      ChosenChildren(w.opens(h).value, driver, child);
    }
  }

  /** When a child is named, only it is stopped, and the controller only if it was the driver's only child. */
  lemma NamedChild(h: seq<Stop>, driver: Handle, child: Handle, w: World)
    requires VisitOf(h, driver, Some(child), w).stops != []
    ensures var stops := VisitOf(h, driver, Some(child), w).stops;
            && w.opens(h).Some? && stops[0].children == [child]
            && (|stops| == 2 <==> stops[0].error.None? && OnlyChild(w.opens(h).value, driver, child))
  {
    VisitExactly(h, driver, Some(child), w);
    VisitKeepsProtocol(h, driver, Some(child), w);
    OneHandle(VisitOf(h, driver, Some(child), w).stops[0].children, child);
  }

  lemma OneHandle(hs: seq<Handle>, h: Handle)
    requires NoRepeats(hs) && forall x :: x in hs <==> x == h
    ensures hs == [h]
  {
    assert h in hs;
    if |hs| > 1 {
      OtherHandle(hs, h);
    }
  }

  lemma OtherHandle(hs: seq<Handle>, h: Handle)
    requires NoRepeats(hs) && |hs| > 1
    ensures exists x :: x in hs && x != h
  {
    assert hs[0] != hs[1] && hs[0] in hs && hs[1] in hs;
  }

  // ---------- all drivers ----------

  function AllStops(vs: seq<Visit>): seq<Stop> {
    if vs == [] then [] else AllStops(vs[..|vs| - 1]) + vs[|vs| - 1].stops
  }

  /** Visit `k` is that of driver `k`, after the Stop calls of the visits before. */
  ghost predicate VisitAt(vs: seq<Visit>, k: nat, drivers: seq<Handle>, child: Option<Handle>, w: World)
    requires k < |vs| && k < |drivers|
  {
    vs[k] == VisitOf(AllStops(vs[..k]), drivers[k], child, w)
  }

  lemma VisitAtPrefix(
    vs: seq<Visit>, vs': seq<Visit>, k: nat, drivers: seq<Handle>, drivers': seq<Handle>, child: Option<Handle>,
    w: World)
    requires k < |vs| && k < |drivers| && VisitAt(vs, k, drivers, child, w)
    ensures VisitAt(vs + vs', k, drivers + drivers', child, w)
  {
    assert (vs + vs')[..k] == vs[..k];
  }

  /** The visits are those of the drivers in order, each after the Stop calls of the ones before; a vanished binding
      ends them. */
  ghost predicate VisitsOf(vs: seq<Visit>, drivers: seq<Handle>, child: Option<Handle>, w: World) {
    && |vs| <= |drivers|
    && (forall k :: 0 <= k < |vs| ==> VisitAt(vs, k, drivers, child, w))
    && (forall k :: 0 <= k < |vs| && vs[k].outcome.Vanished? ==> k == |vs| - 1)
    && (|vs| < |drivers| ==> vs != [] && vs[|vs| - 1].outcome.Vanished?)
  }

  /** Some driver's last Stop call succeeded. */
  ghost predicate AnyStopped(vs: seq<Visit>) {
    exists k :: 0 <= k < |vs| && vs[k].outcome == Stopped(None)
  }

  /** `e` is the error of the last driver that could not be stopped. */
  ghost predicate LastError(vs: seq<Visit>, e: Option<nat>) {
    if e.None? then forall k :: 0 <= k < |vs| ==> !(vs[k].outcome.Stopped? && vs[k].outcome.error.Some?)
    else exists k :: 0 <= k < |vs| && vs[k].outcome == Stopped(e)
           && forall j :: k < j < |vs| ==> !(vs[j].outcome.Stopped? && vs[j].outcome.error.Some?)
  }

  /** A vanished binding is an invalid parameter; otherwise Ok exactly if there was no driver to stop or some driver's
      last Stop call succeeded; otherwise the last Stop error, or NotFound if no Stop was called. */
  ghost predicate Verdict(result: Result, drivers: seq<Handle>, vs: seq<Visit>) {
    if vs != [] && vs[|vs| - 1].outcome.Vanished? then result == InvalidParameter
    else if drivers == [] || AnyStopped(vs) then result == Ok
    else if result.StopError? then LastError(vs, Some(result.error))
    else result == NotFound && LastError(vs, None)
  }

  /** The call is to a driver that had the controller open by driver at the start, the named one if one is named, and
      stops no child but the named one. */
  ghost predicate InScope(s: Stop, opens: Option<seq<Open>>, named: Option<Handle>, child: Option<Handle>) {
    && opens.Some? && Manages(opens.value, s.driver) && (named.None? || s.driver == named.value)
    && (child.Some? ==> s.children == [] || s.children == [child.value])
  }

  lemma VisitInScope(vs: seq<Visit>, k: nat, named: Option<Handle>, child: Option<Handle>, w: World)
    requires VisitsOf(vs, DriversToStop(w.opens([]), named), child, w) && k < |vs|
    ensures forall s :: s in vs[k].stops ==> InScope(s, w.opens([]), named, child)
  {
    var drivers := DriversToStop(w.opens([]), named);
    var h, driver := AllStops(vs[..k]), drivers[k];
    DriversToStopExactly(w.opens([]), named);
    assert driver in drivers && VisitAt(vs, k, drivers, child, w);
    VisitKeepsProtocol(h, driver, child, w);
    VisitExactly(h, driver, child, w);
    if child.Some? && vs[k].stops != [] {
      NamedChild(h, driver, child.value, w);
    }
  }

  lemma {:induction false} StopsInScope(vs: seq<Visit>, n: nat, named: Option<Handle>, child: Option<Handle>, w: World)
    requires VisitsOf(vs, DriversToStop(w.opens([]), named), child, w) && n <= |vs|
    ensures forall s :: s in AllStops(vs[..n]) ==> InScope(s, w.opens([]), named, child)
  {
    if n > 0 {
      StopsInScope(vs, n - 1, named, child, w);
      VisitInScope(vs, n - 1, named, child, w);
      assert vs[..n][..n - 1] == vs[..n - 1];
    }
  }

  /** Unless a binding vanishes, every driver in scope is visited. */
  lemma AllVisited(vs: seq<Visit>, named: Option<Handle>, child: Option<Handle>, w: World, h: Handle)
    requires VisitsOf(vs, DriversToStop(w.opens([]), named), child, w)
    requires vs == [] || !vs[|vs| - 1].outcome.Vanished?
    requires w.opens([]).Some? && Manages(w.opens([]).value, h) && (named.None? || h == named.value)
    ensures exists k :: 0 <= k < |vs| && vs[k].driver == h
  {
    var drivers := DriversToStop(w.opens([]), named);
    DriversToStopExactly(w.opens([]), named);
    assert h in drivers;
    var k :| 0 <= k < |drivers| && drivers[k] == h;
    assert VisitAt(vs, k, drivers, child, w);
    VisitExactly(AllStops(vs[..k]), h, child, w);
  }

  /** `driverBound` and `childValid` are the checks of the named driver image and child handle, if any. */
  method Disconnect(
    controllerValid: bool, driver: Option<Handle>, driverBound: bool, child: Option<Handle>, childValid: bool, w: World)
    returns (result: Result, stops: seq<Stop>, ghost vs: seq<Visit>)
    ensures (!controllerValid || (driver.Some? && !driverBound) || (child.Some? && !childValid)) ==>
              result == InvalidParameter && stops == []
    ensures controllerValid && (driver.Some? ==> driverBound) && (child.Some? ==> childValid) ==>
              var drivers := DriversToStop(w.opens([]), driver);
              && VisitsOf(vs, drivers, child, w) && stops == AllStops(vs) && Verdict(result, drivers, vs)
              && (forall s :: s in stops ==> InScope(s, w.opens([]), driver, child))
  {
    if !controllerValid || (driver.Some? && !driverBound) || (child.Some? && !childValid) {
      return InvalidParameter, [], [];
    }
    result, stops, vs := StopDrivers(DriversToStop(w.opens([]), driver), child, w);
    StopsInScope(vs, |vs|, driver, child, w);
    assert vs[..|vs|] == vs;
  }

  /** The flags of the loop: whether a driver was disconnected, and the last Stop error. */
  ghost predicate Tally(vs: seq<Visit>, any: bool, e: Option<nat>) {
    && (forall j :: 0 <= j < |vs| ==> !vs[j].outcome.Vanished?)
    && (any <==> AnyStopped(vs)) && LastError(vs, e)
  }

  method StopDrivers(drivers: seq<Handle>, child: Option<Handle>, w: World)
    returns (result: Result, stops: seq<Stop>, ghost vs: seq<Visit>)
    ensures VisitsOf(vs, drivers, child, w) && stops == AllStops(vs) && Verdict(result, drivers, vs)
  {
    stops, vs := [], [];
    var anyDisconnected, stopError: Option<nat> := false, None;
    for k := 0 to |drivers|
      invariant |vs| == k && stops == AllStops(vs) && VisitsOf(vs, drivers[..k], child, w)
      invariant Tally(vs, anyDisconnected, stopError)
    {
      var v := StopDriver(stops, drivers[k], child, w);
      ghost var was := vs;
      VisitsExtend(was, drivers[..k], child, w, drivers[k]);
      assert drivers[..k + 1] == drivers[..k] + [drivers[k]];
      TallyExtends(was, v, anyDisconnected, stopError);
      vs := vs + [v];
      assert vs[..k] == was;
      stops := stops + v.stops;
      if v.outcome.Vanished? {
        VisitsEnd(vs, drivers, k + 1, child, w);
        return InvalidParameter, stops, vs;
      } else if v.outcome.Stopped? {
        if v.outcome.error.None? {
          anyDisconnected := true;
        } else {
          stopError := v.outcome.error;
        }
      }
    }
    assert drivers[..|drivers|] == drivers;
    if anyDisconnected || drivers == [] {
      result := Ok;
    } else {
      result := if stopError.Some? then StopError(stopError.value) else NotFound;
    }
  }

  lemma VisitsExtend(vs: seq<Visit>, drivers: seq<Handle>, child: Option<Handle>, w: World, driver: Handle)
    requires |vs| == |drivers| && VisitsOf(vs, drivers, child, w)
    requires forall j :: 0 <= j < |vs| ==> !vs[j].outcome.Vanished?
    ensures VisitsOf(vs + [VisitOf(AllStops(vs), driver, child, w)], drivers + [driver], child, w)
  {
    var v := VisitOf(AllStops(vs), driver, child, w);
    assert (vs + [v])[..|vs|] == vs;
    forall k | 0 <= k < |vs| ensures VisitAt(vs + [v], k, drivers + [driver], child, w) {
      VisitAtPrefix(vs, [v], k, drivers, [driver], child, w);
    }
  }

  /** A vanished binding ends the visits before all drivers are visited. */
  lemma VisitsEnd(vs: seq<Visit>, drivers: seq<Handle>, n: nat, child: Option<Handle>, w: World)
    requires 0 < n == |vs| <= |drivers| && VisitsOf(vs, drivers[..n], child, w) && vs[n - 1].outcome.Vanished?
    ensures VisitsOf(vs, drivers, child, w)
  {
    forall k | 0 <= k < n ensures VisitAt(vs, k, drivers, child, w) {
      VisitAtPrefix(vs, [], k, drivers[..n], drivers[n..], child, w);
      assert vs + [] == vs && drivers[..n] + drivers[n..] == drivers;
    }
  }

  lemma TallyExtends(vs: seq<Visit>, v: Visit, any: bool, e: Option<nat>)
    requires Tally(vs, any, e)
    ensures v.outcome.Skipped? ==> Tally(vs + [v], any, e)
    ensures v.outcome.Stopped? ==>
              if v.outcome.error.None? then Tally(vs + [v], true, e) else Tally(vs + [v], any, v.outcome.error)
  {
    Extended(vs, v, if v.outcome.Stopped? && v.outcome.error.Some? then v.outcome.error else e);
  }

  /** One more visit. */
  lemma Extended(vs: seq<Visit>, v: Visit, e: Option<nat>)
    requires if v.outcome.Stopped? && v.outcome.error.Some? then e == v.outcome.error else LastError(vs, e)
    ensures LastError(vs + [v], e)
    ensures AnyStopped(vs + [v]) <==> AnyStopped(vs) || v.outcome == Stopped(None)
  {
    assert (vs + [v])[|vs|] == v;
    assert forall j :: 0 <= j < |vs| ==> (vs + [v])[j] == vs[j];
    if !(v.outcome.Stopped? && v.outcome.error.Some?) && e.Some? {
      var k :| 0 <= k < |vs| && vs[k].outcome == Stopped(e)
        && forall j :: k < j < |vs| ==> !(vs[j].outcome.Stopped? && vs[j].outcome.error.Some?);
      assert (vs + [v])[k].outcome == Stopped(e);
    }
  }

  // ---------- over all drivers ----------

  /** Stop calls of a driver, for children or for the controller. */
  function CountStops(stops: seq<Stop>, driver: Handle, forChildren: bool): nat {
    if stops == [] then 0
    else CountStops(stops[..|stops| - 1], driver, forChildren) +
         (var s := stops[|stops| - 1]; if s.driver == driver && (s.children != []) == forChildren then 1 else 0)
  }

  lemma {:induction false} CountConcat(stops: seq<Stop>, stops': seq<Stop>, driver: Handle, forChildren: bool)
    ensures CountStops(stops + stops', driver, forChildren)
              == CountStops(stops, driver, forChildren) + CountStops(stops', driver, forChildren)
  {
    if stops' == [] {
      assert stops + stops' == stops;
    } else {
      var n := |stops'| - 1;
      assert (stops + stops')[..|stops + stops'| - 1] == stops + stops'[..n];
      CountConcat(stops, stops'[..n], driver, forChildren);
    }
  }

  lemma VisitCount(v: Visit, driver: Handle, forChildren: bool)
    requires Protocol(v)
    ensures CountStops(v.stops, driver, forChildren) <= if v.driver == driver then 1 else 0
  {
    if |v.stops| == 2 {
      assert v.stops == [v.stops[0]] + [v.stops[1]];
      CountConcat([v.stops[0]], [v.stops[1]], driver, forChildren);
      assert [v.stops[0]][..0] == [] && [v.stops[1]][..0] == [];
    } else if |v.stops| == 1 {
      assert v.stops[..0] == [];
    }
  }

  /** If each visit stops its own driver at most once, and none is visited twice, none is stopped twice. */
  lemma {:induction false} StoppedOnce(vs: seq<Visit>, drivers: seq<Handle>, driver: Handle, forChildren: bool)
    requires NoRepeats(drivers) && |vs| <= |drivers|
    requires forall k :: 0 <= k < |vs| ==>
               CountStops(vs[k].stops, driver, forChildren) <= if drivers[k] == driver then 1 else 0
    ensures CountStops(AllStops(vs), driver, forChildren) <= if driver in drivers[..|vs|] then 1 else 0
  {
    if vs != [] {
      var n := |vs| - 1;
      StoppedOnce(vs[..n], drivers, driver, forChildren);
      CountConcat(AllStops(vs[..n]), vs[n].stops, driver, forChildren);
      assert drivers[..n + 1] == drivers[..n] + [drivers[n]];
    }
  }

  /** Every driver gets at most one Stop for children and one for the controller, whatever Stop does to the database. */
  lemma DisconnectStopsOnce(
    vs: seq<Visit>, named: Option<Handle>, child: Option<Handle>, w: World, driver: Handle, forChildren: bool)
    requires VisitsOf(vs, DriversToStop(w.opens([]), named), child, w)
    ensures CountStops(AllStops(vs), driver, forChildren) <= 1
  {
    var drivers := DriversToStop(w.opens([]), named);
    DriversToStopExactly(w.opens([]), named);
    forall k | 0 <= k < |vs|
      ensures CountStops(vs[k].stops, driver, forChildren) <= if drivers[k] == driver then 1 else 0
    {
      assert VisitAt(vs, k, drivers, child, w);
      VisitKeepsProtocol(AllStops(vs[..k]), drivers[k], child, w);
      VisitCount(vs[k], driver, forChildren);
    }
    StoppedOnce(vs, drivers, driver, forChildren);
  }

  /** The open protocol information of a controller with one driver, which has one child. */
  function OneChild(driver: Handle, child: Handle): seq<Open> {
    [Open(Some(driver), true, false, None), Open(Some(driver), false, true, Some(child))]
  }

  /** The driver can stop the child; stopping the controller fails with `e`. */
  ghost predicate Stubborn(w: World, driver: Handle, child: Handle, e: nat) {
    && w.opens([]) == Some(OneChild(driver, child)) && w.bound([], driver)
    && w.stop([], driver, [child]) == None
    && w.stop([Stop(driver, [child], None)], driver, []) == Some(e)
  }

  lemma StubbornDriverExists(driver: Handle, child: Handle, e: nat) returns (w: World)
    ensures Stubborn(w, driver, child, e)
  {
    w := World(
      _ => Some(OneChild(driver, child)), (_, _) => true,
      (_, _, children) => if children == [] then Some(e) else None);
  }

  lemma OneChildOpens(driver: Handle, child: Handle)
    ensures var opens := OneChild(driver, child);
            Manages(opens, driver) && Dedup(Managers(opens)) == [driver] && Dedup(Children(opens, driver)) == [child]
  {
    var opens := OneChild(driver, child);
    assert opens[0].agent == Some(driver) && opens[0].byDriver;
    assert Manager(opens[0]) == Some(driver) && Manager(opens[1]) == None;
    DedupPicked(opens, Manager);
    OneHandle(Dedup(Managers(opens)), driver);
    assert ChildOf(driver)(opens[0]) == None && ChildOf(driver)(opens[1]) == Some(child);
    DedupPicked(opens, ChildOf(driver));
    OneHandle(Dedup(Children(opens, driver)), child);
  }

  lemma StubbornStops(w: World, driver: Handle, child: Handle, e: nat)
    requires Stubborn(w, driver, child, e)
    ensures StopsOf([], driver, [child], true, w)
         == Visit(driver, Stopped(Some(e)), [Stop(driver, [child], None), Stop(driver, [], Some(e))])
  {
    var first := [Stop(driver, [child], None)];
    assert [] + first == first;
  }

  lemma StubbornVisit(w: World, driver: Handle, child: Handle, e: nat)
    requires Stubborn(w, driver, child, e)
    ensures DriversToStop(w.opens([]), None) == [driver]
    ensures VisitOf([], driver, None, w) == StopsOf([], driver, [child], true, w)
  {
    OneChildOpens(driver, child);
  }

  /** A successful Stop is not enough for Ok, it has to be the driver's last one: whatever Disconnect returns for this
      driver is the error of its last Stop. */
  lemma ChildStopIsNotEnough(w: World, driver: Handle, child: Handle, e: nat, result: Result, vs: seq<Visit>)
    requires Stubborn(w, driver, child, e)
    requires var drivers := DriversToStop(w.opens([]), None);
             VisitsOf(vs, drivers, None, w) && Verdict(result, drivers, vs)
    ensures AllStops(vs) == [Stop(driver, [child], None), Stop(driver, [], Some(e))] && result == StopError(e)
  {
    StubbornVisit(w, driver, child, e);
    StubbornStops(w, driver, child, e);
    assert |vs| == 1 && vs[..0] == [] && VisitAt(vs, 0, [driver], None, w);
    assert AllStops(vs) == AllStops(vs[..0]) + vs[0].stops;
  }
}
