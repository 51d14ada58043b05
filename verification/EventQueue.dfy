/** The notification queue: its order, insertion, and draining. */
module EventQueue {
  import opened Options
  import opened EventModel

  /** Higher TPL first, then earlier tag: the order in which notifications are dispatched. */
  predicate Before(x: Notification, y: Notification) {
    x.tpl > y.tpl || (x.tpl == y.tpl && x.tag < y.tag)
  }

  ghost predicate Ordered(q: seq<Notification>) {
    forall i, j :: 0 <= i < j < |q| ==> Before(q[i], q[j])
  }

  /** One entry per event, and every entry has its own tag. */
  ghost predicate Distinct(q: seq<Notification>) {
    forall i, j :: 0 <= i < j < |q| ==> q[i].event != q[j].event && q[i].tag != q[j].tag
  }

  /** One entry per event, and no two entries with the same TPL and tag. */
  ghost predicate Tieless(q: seq<Notification>) {
    forall i, j :: 0 <= i < j < |q| ==> q[i].event != q[j].event && (q[i].tpl != q[j].tpl || q[i].tag != q[j].tag)
  }

  /** The comparator is a strict total order on the entries, and the order of dispatch. */
  ghost predicate TotalOrder(q: seq<Notification>) {
    && (forall i, j :: 0 <= i < |q| && 0 <= j < |q| ==>
          && (Compare(q[i], q[j]) == Equal <==> i == j)
          && (Compare(q[i], q[j]) == Less <==> i != j && Before(q[i], q[j]))
          && (Compare(q[i], q[j]) == Greater <==> Compare(q[j], q[i]) == Less))
    && (forall i, j, k :: 0 <= i < |q| && 0 <= j < |q| && 0 <= k < |q| ==>
          Compare(q[i], q[j]) == Less && Compare(q[j], q[k]) == Less ==> Compare(q[i], q[k]) == Less)
  }

  /** The comparator is a strict total order exactly on queues with one entry per event and no equal TPL and tag. */
  lemma CompareIsOrder(q: seq<Notification>)
    ensures TotalOrder(q) <==> Tieless(q)
  {
    if TotalOrder(q) {
      forall i, j | 0 <= i < j < |q|
        ensures q[i].event != q[j].event && (q[i].tpl != q[j].tpl || q[i].tag != q[j].tag)
      {
        assert Compare(q[i], q[j]) != Equal;
      }
    }
  }

  /** With two entries for one event the comparator is not transitive. */
  lemma CompareNotTransitive(x: Notification, y: Notification)
    requires x.event != y.event && x.tpl == y.tpl && x.tag < y.tag
    ensures var late := x.(tag := y.tag + 1);
            Compare(x, y) == Less && Compare(y, late) == Less && Compare(x, late) != Less
  {
  }

  // ---------- searching ----------

  /** A search of the ordered set: probes some entry of the interval and goes on where the comparator points. */
  function Search(q: seq<Notification>, n: Notification, probe: (nat, nat) -> nat, low: nat, high: nat)
    : (r: Option<nat>)
    requires low <= high <= |q|
    ensures r.Some? ==> low <= r.value < high && Compare(n, q[r.value]) == Equal
    decreases high - low
  {
    if low == high then None
    else
      var p := if low <= probe(low, high) < high then probe(low, high) else low;
      match Compare(n, q[p])
      case Equal => Some(p)
      case Greater => Search(q, n, probe, p + 1, high)
      case Less => Search(q, n, probe, low, p)
  }

  /** Every search finds an entry that `n` equals. */
  ghost predicate AlwaysFound(q: seq<Notification>, n: Notification) {
    forall probe: (nat, nat) -> nat :: Search(q, n, probe, 0, |q|).Some?
  }

  /** No entry of the same TPL is queued behind entry `i`. */
  predicate LastOfLevel(q: seq<Notification>, i: nat)
    requires i < |q|
  {
    i + 1 < |q| ==> q[i + 1].tpl < q[i].tpl
  }

  /** `n` is entry `i` with a new tag: the entry of an event that is queued a second time. */
  ghost predicate Again(q: seq<Notification>, n: Notification, i: nat) {
    i < |q| && n == q[i].(tag := n.tag) && forall j :: 0 <= j < |q| ==> q[j].tag < n.tag
  }

  /** Everything before the queued entry points to it; everything behind does exactly if it is the last of its TPL. */
  lemma ProbesPoint(q: seq<Notification>, n: Notification, i: nat)
    requires Ordered(q) && Distinct(q) && Again(q, n, i)
    ensures forall p :: 0 <= p < i ==> Compare(n, q[p]) == Greater
    ensures (forall p :: i < p < |q| ==> Compare(n, q[p]) == Less) <==> LastOfLevel(q, i)
    ensures forall p :: 0 <= p < |q| && p != i ==> Compare(n, q[p]) != Equal
  {
    assert forall p :: 0 <= p < i ==> q[p].event != q[i].event;
    assert forall p :: i < p < |q| ==> q[i].event != q[p].event;
    if i + 1 < |q| && LastOfLevel(q, i) {
      assert forall p :: i + 1 < p < |q| ==> Before(q[i + 1], q[p]);
    }
  }

  lemma {:induction false} SearchArrives(
    q: seq<Notification>, n: Notification, i: nat, probe: (nat, nat) -> nat, low: nat, high: nat)
    requires Ordered(q) && Distinct(q) && Again(q, n, i) && LastOfLevel(q, i) && low <= i < high <= |q|
    ensures Search(q, n, probe, low, high).Some?
    decreases high - low
  {
    ProbesPoint(q, n, i);
    var p := if low <= probe(low, high) < high then probe(low, high) else low;
    if p < i {
      SearchArrives(q, n, i, probe, p + 1, high);
    } else if p > i {
      SearchArrives(q, n, i, probe, low, p);
    }
  }

  /** A search that has passed the entry does not come back to it. */
  lemma SearchMisses(q: seq<Notification>, n: Notification, i: nat, probe: (nat, nat) -> nat, low: nat)
    requires Ordered(q) && Distinct(q) && Again(q, n, i) && i < low <= |q|
    ensures Search(q, n, probe, low, |q|).None?
  {
    ProbesPoint(q, n, i);
  }

  /** Inserting the notification of a queued event again is certain to have no effect exactly if that notification
      is the last of its TPL in the queue. */
  lemma AlwaysFoundExactly(q: seq<Notification>, n: Notification, i: nat)
    requires Ordered(q) && Distinct(q) && Again(q, n, i)
    ensures AlwaysFound(q, n) <==> LastOfLevel(q, i)
  {
    if LastOfLevel(q, i) {
      forall probe: (nat, nat) -> nat ensures Search(q, n, probe, 0, |q|).Some? {
        SearchArrives(q, n, i, probe, 0, |q|);
      }
    } else {
      var probe: (nat, nat) -> nat := (_, _) => i + 1;
      assert q[i].event != q[i + 1].event;
      assert Compare(n, q[i + 1]) == Greater;
      SearchMisses(q, n, i, probe, i + 2);
      assert Search(q, n, probe, 0, |q|).None?;
    }
  }

  // ---------- insertion ----------

  /** A new event is inserted at the one place that every search leads to. */
  lemma {:induction false} InsertAtPlace(q: seq<Notification>, n: Notification) returns (k: nat)
    requires Ordered(q) && forall x :: x in q ==> x.event != n.event && x.tag < n.tag
    ensures k <= |q| && InsertAt(q, n) == q[..k] + [n] + q[k..]
    ensures forall p :: 0 <= p < k ==> Compare(n, q[p]) == Greater
    ensures forall p :: k <= p < |q| ==> Compare(n, q[p]) == Less
  {
    if q == [] {
      k := 0;
    } else if Compare(n, q[0]) == Less {
      k := 0;
      assert forall p :: 0 < p < |q| ==> Before(q[0], q[p]) && q[p] in q;
    } else {
      assert q[0] in q;
      var rest := InsertAtPlace(q[1..], n);
      k := rest + 1;
      assert forall p :: 0 < p < |q| ==> q[p] == q[1..][p - 1];
      ConsSplice(q, n, k);
    }
  }

  lemma ConsSplice(q: seq<Notification>, n: Notification, k: nat)
    requires 0 < k <= |q|
    ensures [q[0]] + (q[1..][..k - 1] + [n] + q[1..][k - 1..]) == q[..k] + [n] + q[k..]
  {
  }

  lemma {:induction false} InsertAtElements(q: seq<Notification>, n: Notification, x: Notification)
    ensures x in InsertAt(q, n) <==> x == n || x in q
  {
    if q != [] && Compare(n, q[0]) != Less {
      InsertAtElements(q[1..], n, x);
      assert x in q <==> x == q[0] || x in q[1..];
    }
  }

  /** Inserting a new event with a new tag keeps the queue ordered and free of duplicates. */
  lemma {:induction false} InsertAtOrdered(q: seq<Notification>, n: Notification)
    requires Ordered(q) && Distinct(q) && forall x :: x in q ==> x.event != n.event && x.tag < n.tag
    ensures Ordered(InsertAt(q, n)) && Distinct(InsertAt(q, n)) && |InsertAt(q, n)| == |q| + 1
  {
    if q != [] && Compare(n, q[0]) != Less {
      var rest := q[1..];
      InsertAtOrdered(rest, n);
      var r := InsertAt(rest, n);
      forall i | 0 <= i < |r| ensures Before(q[0], r[i]) && q[0].event != r[i].event && q[0].tag != r[i].tag {
        InsertAtElements(rest, n, r[i]);
      }
    }
  }

  // ---------- draining ----------

  /** The live notifications above `level`, in queue order. */
  function LiveAbove(q: seq<Notification>, events: map<nat, Event>, level: nat): seq<Notification> {
    if q == [] then []
    else if q[0].event in events && q[0].tpl > level then [q[0]] + LiveAbove(q[1..], events, level)
    else LiveAbove(q[1..], events, level)
  }

  /** The live notifications at or below `level`, in queue order. */
  function LiveUpTo(q: seq<Notification>, events: map<nat, Event>, level: nat): seq<Notification> {
    if q == [] then []
    else if q[0].event in events && q[0].tpl <= level then [q[0]] + LiveUpTo(q[1..], events, level)
    else LiveUpTo(q[1..], events, level)
  }

  lemma {:induction false} DropStaleShrinks(q: seq<Notification>, events: map<nat, Event>)
    ensures |DropStale(q, events)| <= |q|
  {
    if q != [] && q[0].event !in events {
      DropStaleShrinks(q[1..], events);
    }
  }

  /** Consumes until nothing above `level` is left; returns what was taken and the database after it. */
  ghost function Drain(db: Db, level: nat): (seq<Notification>, Db)
    decreases |db.pending|
  {
    var (db', n) := Consume(db, level);
    DropStaleShrinks(db.pending, db.events);
    if n.None? then ([], db')
    else
      var (rest, last) := Drain(db', level);
      ([n.value] + rest, last)
  }

  lemma {:induction false} DropStaleKeepsLive(q: seq<Notification>, events: map<nat, Event>, level: nat)
    ensures var r := DropStale(q, events);
            && LiveAbove(r, events, level) == LiveAbove(q, events, level)
            && LiveUpTo(r, events, level) == LiveUpTo(q, events, level)
  {
    if q != [] && q[0].event !in events {
      DropStaleKeepsLive(q[1..], events, level);
    }
  }

  lemma {:induction false} DropStaleOrdered(q: seq<Notification>, events: map<nat, Event>)
    requires Ordered(q)
    ensures var r := DropStale(q, events); Ordered(r) && (r != [] ==> r[0].event in events)
    ensures forall x :: x in DropStale(q, events) ==> x in q
  {
    if q != [] && q[0].event !in events {
      DropStaleOrdered(q[1..], events);
    }
  }

  /** Behind an entry at or below `level` there is nothing above it. */
  lemma {:induction false} NothingAbove(q: seq<Notification>, events: map<nat, Event>, level: nat)
    requires forall i :: 0 <= i < |q| ==> q[i].tpl <= level
    ensures LiveAbove(q, events, level) == []
  {
    if q != [] {
      NothingAbove(q[1..], events, level);
    }
  }

  /** Draining returns exactly the live notifications above the level, in descending TPL and then queueing order,
      and keeps exactly the live ones at or below it. */
  lemma {:induction false} DrainExact(db: Db, level: nat)
    requires Ordered(db.pending)
    ensures Drain(db, level).0 == LiveAbove(db.pending, db.events, level)
    ensures var last := Drain(db, level).1;
            && last == db.(pending := last.pending)
            && LiveAbove(last.pending, db.events, level) == []
            && LiveUpTo(last.pending, db.events, level) == LiveUpTo(db.pending, db.events, level)
    decreases |db.pending|
  {
    var q := DropStale(db.pending, db.events);
    DropStaleShrinks(db.pending, db.events);
    DropStaleOrdered(db.pending, db.events);
    DropStaleKeepsLive(db.pending, db.events, level);
    if q == [] || q[0].tpl <= level {
      forall i | 0 <= i < |q| ensures q[i].tpl <= level {
        assert i > 0 ==> Before(q[0], q[i]);
      }
      NothingAbove(q, db.events, level);
    } else {
      var db' := db.(pending := q[1..]);
      DrainExact(db', level);
    }
  }

  /** Only which events are live matters. */
  lemma {:induction false} LiveByKeys(
    q: seq<Notification>, events: map<nat, Event>, events': map<nat, Event>, level: nat)
    requires events.Keys == events'.Keys
    ensures LiveAbove(q, events, level) == LiveAbove(q, events', level)
    ensures LiveUpTo(q, events, level) == LiveUpTo(q, events', level)
  {
    if q != [] {
      assert q[0].event in events <==> q[0].event in events.Keys;
      assert q[0].event in events' <==> q[0].event in events'.Keys;
      LiveByKeys(q[1..], events, events', level);
    }
  }
}
