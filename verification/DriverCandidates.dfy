/** The list of candidate drivers for a controller, from the five sources in order of precedence. */
module DriverCandidates {
  import opened DriverSearch

  type Handle = nat

  /** The driver bindings of the handles that have one, in order. */
  function BindingsFor(handles: seq<Handle>, installed: map<Handle, Binding>): seq<Binding> {
    if handles == [] then []
    else (if handles[0] in installed then [installed[handles[0]]] else []) + BindingsFor(handles[1..], installed)
  }

  lemma {:induction false} BindingsForElements(handles: seq<Handle>, installed: map<Handle, Binding>, b: Binding)
    ensures b in BindingsFor(handles, installed) <==> exists h :: h in handles && h in installed && installed[h] == b
  {
    if handles != [] {
      BindingsForElements(handles[1..], installed, b);
      assert forall h :: h in handles <==> h == handles[0] || h in handles[1..];
    }
  }

  /** Bindings come in the order of their handles. */
  lemma {:induction false} BindingsForConcat(
    handles: seq<Handle>, handles': seq<Handle>, installed: map<Handle, Binding>)
    ensures BindingsFor(handles + handles', installed)
         == BindingsFor(handles, installed) + BindingsFor(handles', installed)
    ensures |handles| == 1 ==>
              BindingsFor(handles, installed) == if handles[0] in installed then [installed[handles[0]]] else []
  {
    if handles == [] {
      assert handles + handles' == handles';
    } else {
      var first := if handles[0] in installed then [installed[handles[0]]] else [];
      assert (handles + handles')[0] == handles[0] && (handles + handles')[1..] == handles[1..] + handles';
      BindingsForConcat(handles[1..], handles', installed);
      BindingsAssociate(first, BindingsFor(handles[1..], installed), BindingsFor(handles', installed));
    }
  }

  lemma BindingsAssociate(x: seq<Binding>, y: seq<Binding>, z: seq<Binding>)
    ensures x + (y + z) == (x + y) + z
  {
  }

  /** The elements of `xs` that are not in `seen`. */
  function Retain(xs: seq<Binding>, seen: seq<Binding>): seq<Binding> {
    if xs == [] then [] else (if xs[0] in seen then [] else [xs[0]]) + Retain(xs[1..], seen)
  }

  /** `xs` is `ys` with some elements left out. */
  ghost predicate Subsequence(xs: seq<Binding>, ys: seq<Binding>) {
    xs == [] || (ys != [] && (if xs[0] == ys[0] then Subsequence(xs[1..], ys[1..]) else Subsequence(xs, ys[1..])))
  }

  lemma {:induction false} RetainElements(xs: seq<Binding>, seen: seq<Binding>, x: Binding)
    ensures x in Retain(xs, seen) <==> x in xs && x !in seen
  {
    if xs != [] {
      RetainElements(xs[1..], seen, x);
    }
  }

  lemma {:induction false} RetainSubsequence(xs: seq<Binding>, seen: seq<Binding>)
    ensures Subsequence(Retain(xs, seen), xs)
  {
    if xs != [] {
      RetainSubsequence(xs[1..], seen);
      if xs[0] in seen {
        SubsequenceSkips(Retain(xs[1..], seen), xs);
        assert Retain(xs, seen) == Retain(xs[1..], seen);
      } else {
        assert Retain(xs, seen)[1..] == Retain(xs[1..], seen);
      }
    }
  }

  /** A subsequence of the rest is a subsequence. */
  lemma {:induction false} SubsequenceSkips(xs: seq<Binding>, ys: seq<Binding>)
    requires ys != [] && Subsequence(xs, ys[1..])
    ensures Subsequence(xs, ys)
    decreases |ys|, 0
  {
    if xs != [] && xs[0] == ys[0] {
      if xs[0] == ys[1] {
        SubsequenceSkips(xs[1..], ys[1..]);
      } else {
        SubsequenceTail(xs, ys[1..]);
      }
    }
  }

  lemma {:induction false} SubsequenceTail(xs: seq<Binding>, ys: seq<Binding>)
    requires xs != [] && Subsequence(xs, ys)
    ensures Subsequence(xs[1..], ys)
    decreases |ys|, 1
  {
    if xs[0] == ys[0] {
      SubsequenceSkips(xs[1..], ys);
    } else {
      SubsequenceTail(xs, ys[1..]);
      SubsequenceSkips(xs[1..], ys);
    }
  }

  /** Versions never rise. */
  ghost predicate Descending(xs: seq<Binding>, version: Binding -> nat) {
    forall i, j :: 0 <= i < j < |xs| ==> version(xs[i]) >= version(xs[j])
  }

  lemma {:induction false} RetainDescending(xs: seq<Binding>, seen: seq<Binding>, version: Binding -> nat)
    requires Descending(xs, version)
    ensures Descending(Retain(xs, seen), version)
  {
    if xs != [] {
      RetainDescending(xs[1..], seen, version);
      forall i | 0 <= i < |Retain(xs[1..], seen)| ensures version(xs[0]) >= version(Retain(xs[1..], seen)[i]) {
        RetainElements(xs[1..], seen, Retain(xs[1..], seen)[i]);
      }
    }
  }

  /** The part of the candidate list that each source contributes. */
  datatype Segments = Segments(
    context: seq<Binding>, platform: seq<Binding>, family: seq<Binding>, bus: seq<Binding>, all: seq<Binding>) {
    function Concat(): seq<Binding> {
      context + platform + family + bus + all
    }
  }

  /** `xs` is `ys` in its order, without the elements of `seen` and with every occurrence of the others. */
  ghost predicate Kept(xs: seq<Binding>, ys: seq<Binding>, seen: seq<Binding>) {
    && Subsequence(xs, ys)
    && (forall x :: multiset(xs)[x] == if x in seen then 0 else multiset(ys)[x])
  }

  lemma {:induction false} SubsequenceCounts(xs: seq<Binding>, ys: seq<Binding>, x: Binding)
    requires Subsequence(xs, ys)
    ensures multiset(xs)[x] <= multiset(ys)[x]
    decreases |ys|
  {
    if xs != [] {
      assert ys == [ys[0]] + ys[1..];
      if xs[0] == ys[0] {
        assert xs == [xs[0]] + xs[1..];
        SubsequenceCounts(xs[1..], ys[1..], x);
      } else {
        SubsequenceCounts(xs, ys[1..], x);
      }
    }
  }

  /** There is only one such list. */
  lemma {:induction false} KeptIsRetained(xs: seq<Binding>, ys: seq<Binding>, seen: seq<Binding>)
    requires Kept(xs, ys, seen)
    ensures xs == Retain(ys, seen)
    decreases |ys|
  {
    if ys == [] {
      assert xs == [];
    } else {
      var y, rest := ys[0], ys[1..];
      assert ys == [y] + rest;
      if y in seen {
        assert y !in multiset(xs);
        assert xs != [] ==> xs[0] in multiset(xs);
        assert Kept(xs, rest, seen);
        KeptIsRetained(xs, rest, seen);
      } else {
        assert multiset(xs)[y] >= 1;
        if xs[0] != y {
          SubsequenceCounts(xs, rest, y);
          assert false;
        }
        assert xs == [y] + xs[1..];
        assert Kept(xs[1..], rest, seen);
        KeptIsRetained(xs[1..], rest, seen);
      }
    }
  }

  lemma {:induction false} RetainCounts(xs: seq<Binding>, seen: seq<Binding>, x: Binding)
    ensures multiset(Retain(xs, seen))[x] == if x in seen then 0 else multiset(xs)[x]
  {
    if xs != [] {
      assert xs == [xs[0]] + xs[1..];
      RetainCounts(xs[1..], seen, x);
    }
  }

  /** Each segment is what its source contributes, without what earlier sources contribute. */
  ghost predicate SegmentsOf(s: Segments, src: Segments) {
    && s.context == src.context
    && Kept(s.platform, src.platform, src.context)
    && Kept(s.family, src.family, src.context + src.platform)
    && Kept(s.bus, src.bus, src.context + src.platform + src.family)
    && Kept(s.all, src.all, src.context + src.platform + src.family + src.bus)
  }

  /** The sources determine the segments. */
  lemma SegmentsDetermined(s: Segments, s': Segments, src: Segments)
    requires SegmentsOf(s, src) && SegmentsOf(s', src)
    ensures s == s'
  {
    var seen := src.context;
    KeptIsRetained(s.platform, src.platform, seen);
    KeptIsRetained(s'.platform, src.platform, seen);
    seen := seen + src.platform;
    KeptIsRetained(s.family, src.family, seen);
    KeptIsRetained(s'.family, src.family, seen);
    seen := seen + src.family;
    KeptIsRetained(s.bus, src.bus, seen);
    KeptIsRetained(s'.bus, src.bus, seen);
    seen := seen + src.bus;
    KeptIsRetained(s.all, src.all, seen);
    KeptIsRetained(s'.all, src.all, seen);
  }

  /** Context override, platform override, family override, bus override, then all driver bindings; each source leaves
      out what earlier ones contributed. */
  method BuildCandidates(
    context: seq<Binding>, platform: seq<Binding>, family: seq<Binding>, bus: seq<Binding>, all: seq<Binding>)
    returns (candidates: seq<Binding>, s: Segments)
    ensures candidates == s.Concat() && SegmentsOf(s, Segments(context, platform, family, bus, all))
    ensures forall version: Binding -> nat :: Descending(all, version) ==> Descending(s.all, version)
  {
    candidates := context;
    var p := Retain(platform, candidates);
    Retained(platform, candidates, context);
    candidates := candidates + p;
    var f := Retain(family, candidates);
    Retained(family, candidates, context + platform);
    candidates := candidates + f;
    var b := Retain(bus, candidates);
    Retained(bus, candidates, context + platform + family);
    candidates := candidates + b;
    var a := Retain(all, candidates);
    Retained(all, candidates, context + platform + family + bus);
    forall version: Binding -> nat | Descending(all, version) ensures Descending(a, version) {
      RetainDescending(all, candidates, version);
    }
    candidates := candidates + a;
    s := Segments(context, p, f, b, a);
  }

  /** Retaining against the candidates so far is retaining against the sources so far. */
  lemma Retained(xs: seq<Binding>, candidates: seq<Binding>, sources: seq<Binding>)
    requires forall x :: x in candidates <==> x in sources
    ensures Kept(Retain(xs, candidates), xs, sources)
    ensures forall x :: x in candidates + Retain(xs, candidates) <==> x in sources + xs
  {
    RetainSubsequence(xs, candidates);
    forall x ensures multiset(Retain(xs, candidates))[x] == if x in sources then 0 else multiset(xs)[x] {
      RetainCounts(xs, candidates, x);
    }
    forall x ensures x in Retain(xs, candidates) <==> x in xs && x !in candidates {
      RetainElements(xs, candidates, x);
    }
  }

  // ---------- family override ----------

  /** The last handle of the list that declares family version `v`. */
  ghost predicate LastWith(handles: seq<Handle>, family: map<Handle, nat>, v: nat, h: Handle) {
    exists i :: 0 <= i < |handles| && handles[i] == h && h in family && family[h] == v
      && forall j :: i < j < |handles| ==> !(handles[j] in family && family[handles[j]] == v)
  }

  /** Every version that a handle declares maps to the last such handle, and nothing else is in the map. */
  ghost predicate VersionMapOf(m: map<nat, Handle>, handles: seq<Handle>, family: map<Handle, nat>) {
    && (forall v :: v in m ==> LastWith(handles, family, v, m[v]))
    && (forall h :: h in handles && h in family ==> family[h] in m)
  }

  lemma VersionMapExtends(m: map<nat, Handle>, handles: seq<Handle>, family: map<Handle, nat>, h: Handle)
    requires VersionMapOf(m, handles, family)
    ensures VersionMapOf(if h in family then m[family[h] := h] else m, handles + [h], family)
  {
    var hs := handles + [h];
    var m' := if h in family then m[family[h] := h] else m;
    forall v | v in m' ensures LastWith(hs, family, v, m'[v]) {
      if h in family && family[h] == v {
        assert hs[|handles|] == h;
      } else {
        var i :| 0 <= i < |handles| && handles[i] == m[v] && m[v] in family && family[m[v]] == v
          && forall j :: i < j < |handles| ==> !(handles[j] in family && family[handles[j]] == v);
        assert hs[i] == m[v];
      }
    }
  }

  lemma MaxExists(s: set<nat>) returns (x: nat)
    requires s != {}
    ensures x in s && forall y :: y in s ==> y <= x
  {
    var z :| z in s;
    if s == {z} {
      x := z;
    } else {
      var rest := s - {z};
      assert s == rest + {z};
      var w := MaxExists(rest);
      x := if w < z then z else w;
      assert forall y :: y in s ==> y == z || y in rest;
    }
  }

  /** The elements from the highest to the lowest. */
  method DescendingKeys(s: set<nat>) returns (keys: seq<nat>)
    ensures forall i, j :: 0 <= i < j < |keys| ==> keys[i] > keys[j]
    ensures forall v :: v in keys <==> v in s
  {
    keys := [];
    var remaining := s;
    while remaining != {}
      invariant remaining <= s && forall v :: v in keys <==> v in s && v !in remaining
      invariant forall i, v :: 0 <= i < |keys| && v in remaining ==> keys[i] > v
      invariant forall i, j :: 0 <= i < j < |keys| ==> keys[i] > keys[j]
      decreases remaining
    {
      ghost var top := MaxExists(remaining);
      var v :| v in remaining && forall y :: y in remaining ==> y <= v;
      keys := keys + [v];
      remaining := remaining - {v};
    }
  }

  /** Handles with a family override, highest version first; of handles with one version only the last one counts. */
  ghost predicate FamilyOrder(order: seq<Handle>, handles: seq<Handle>, family: map<Handle, nat>) {
    && (forall i :: 0 <= i < |order| ==> order[i] in family && LastWith(handles, family, family[order[i]], order[i]))
    && (forall i, j :: 0 <= i < j < |order| ==> family[order[i]] > family[order[j]])
    && (forall h :: h in handles && h in family ==> exists i :: 0 <= i < |order| && family[order[i]] == family[h])
  }

  method FamilyOverrideHandles(handles: seq<Handle>, family: map<Handle, nat>) returns (order: seq<Handle>)
    ensures FamilyOrder(order, handles, family)
  {
    var versions: map<nat, Handle> := map[];
    for k := 0 to |handles|
      invariant VersionMapOf(versions, handles[..k], family)
    {
      VersionMapExtends(versions, handles[..k], family, handles[k]);
      assert handles[..k + 1] == handles[..k] + [handles[k]];
      if handles[k] in family {
        versions := versions[family[handles[k]] := handles[k]];
      }
    }
    assert handles[..|handles|] == handles;
    var keys := DescendingKeys(versions.Keys);
    order := seq(|keys|, i requires 0 <= i < |keys| && keys[i] in versions => versions[keys[i]]);
    forall i | 0 <= i < |order| ensures order[i] in family && family[order[i]] == keys[i] {
      assert LastWith(handles, family, keys[i], versions[keys[i]]);
    }
    forall h | h in handles && h in family ensures exists i :: 0 <= i < |order| && family[order[i]] == family[h] {
      assert family[h] in keys;
      var i :| 0 <= i < |keys| && keys[i] == family[h];
      assert family[order[i]] == family[h];
    }
  }

  // ---------- the order is determined ----------

  lemma {:induction false} LastWithOne(handles: seq<Handle>, family: map<Handle, nat>, v: nat, h: Handle, h': Handle)
    requires LastWith(handles, family, v, h) && LastWith(handles, family, v, h')
    ensures h == h'
  {
    var i :| 0 <= i < |handles| && handles[i] == h && h in family && family[h] == v
      && forall j :: i < j < |handles| ==> !(handles[j] in family && family[handles[j]] == v);
    var i' :| 0 <= i' < |handles| && handles[i'] == h' && h' in family && family[h'] == v
      && forall j :: i' < j < |handles| ==> !(handles[j] in family && family[handles[j]] == v);
    assert i == i';
  }

  /** Every handle of one order is in the other. */
  lemma FamilyOrderHas(order: seq<Handle>, order': seq<Handle>, handles: seq<Handle>, family: map<Handle, nat>,
      h: Handle)
    requires FamilyOrder(order, handles, family) && FamilyOrder(order', handles, family) && h in order
    ensures h in order'
  {
    var i :| 0 <= i < |order| && order[i] == h;
    assert LastWith(handles, family, family[h], h);
    assert h in handles && h in family;
    var j :| 0 <= j < |order'| && family[order'[j]] == family[h];
    LastWithOne(handles, family, family[h], h, order'[j]);
  }

  /** Handles by strictly descending version. */
  ghost predicate Ranked(order: seq<Handle>, family: map<Handle, nat>) {
    && (forall i :: 0 <= i < |order| ==> order[i] in family)
    && (forall i, j :: 0 <= i < j < |order| ==> family[order[i]] > family[order[j]])
  }

  /** Two rankings of the same handles that agree before `i` agree at `i`. */
  lemma SameRank(order: seq<Handle>, order': seq<Handle>, family: map<Handle, nat>, i: nat)
    requires Ranked(order, family) && Ranked(order', family) && forall h :: h in order <==> h in order'
    requires i < |order| && i <= |order'| && forall k :: 0 <= k < i ==> order[k] == order'[k]
    ensures i < |order'| && order'[i] == order[i]
  {
    assert order[i] in order';
    var j :| 0 <= j < |order'| && order'[j] == order[i];
    assert order'[i] in order;
    var k :| 0 <= k < |order| && order[k] == order'[i];
  }

  lemma {:induction false} SameRanks(order: seq<Handle>, order': seq<Handle>, family: map<Handle, nat>, n: nat)
    requires Ranked(order, family) && Ranked(order', family) && forall h :: h in order <==> h in order'
    requires n <= |order|
    ensures n <= |order'| && forall k :: 0 <= k < n ==> order[k] == order'[k]
  {
    if n > 0 {
      SameRanks(order, order', family, n - 1);
      SameRank(order, order', family, n - 1);
    }
  }

  lemma FamilyOrderDetermined(order: seq<Handle>, order': seq<Handle>, handles: seq<Handle>, family: map<Handle, nat>)
    requires FamilyOrder(order, handles, family) && FamilyOrder(order', handles, family)
    ensures order == order'
  {
    forall h ensures h in order <==> h in order' {
      if h in order {
        FamilyOrderHas(order, order', handles, family, h);
      }
      if h in order' {
        FamilyOrderHas(order', order, handles, family, h);
      }
    }
    SameRanks(order, order', family, |order|);
    SameRanks(order', order, family, |order'|);
  }
}
