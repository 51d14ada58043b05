/** Usage accounting of the special memory types: the pages currently held and the peak that is published. */
module BinUsage {
  import opened MemoryMap
  import opened BinPlacement
  import opened MemoryBins

  /** What happens to pages of a type. */
  datatype Op =
    | Seed(kind: nat, pages: nat)
    | Allocate(kind: nat, pages: nat)
    | Release(kind: nat, pages: nat)

  /** Pages rounded up to the allocation granularity, which is what an allocation consumes. */
  lemma RoundedUp(pages: nat, granularity: nat)
    requires Aligned(granularity) && granularity > 0
    ensures var unit := granularity / 4096; var r := Rounded(pages, granularity);
            unit > 0 && r % unit == 0 && pages <= r < pages + unit
  {
    var unit := granularity / 4096;
    if unit > 1 {
      var x := pages + unit - 1;
      AlignDownIs(x, unit);
      MultipleRemainder(x / unit, unit);
      assert x / unit * unit == unit * (x / unit);
    }
  }

  function Step(s: State, op: Op, g: Granularity): State {
    match op
    case Seed(kind, pages) => Seeded(s, kind, pages, g)
    case Allocate(kind, pages) => Allocated(s, kind, pages, g)
    case Release(kind, pages) => Released(s, kind, pages, g)
  }

  function Run(s: State, ops: seq<Op>, g: Granularity): (r: State)
    ensures |r.stats| == |s.stats| && |r.published| == |s.published|
  {
    if ops == [] then s else Step(Run(s, ops[..|ops| - 1], g), ops[|ops| - 1], g)
  }

  /** The pages of a type that are held, by the history alone. */
  function Level(ops: seq<Op>, kind: nat, g: Granularity): nat {
    if ops == [] then 0
    else
      var before := Level(ops[..|ops| - 1], kind, g);
      var op := ops[|ops| - 1];
      var size := Rounded(op.pages, g.For(kind));
      if op.kind != kind then before
      else if op.Release? then (if size <= before then before - size else 0)
      else before + size
  }

  /** The levels at the start and after each operation. */
  function Levels(ops: seq<Op>, kind: nat, g: Granularity): (levels: seq<nat>)
    ensures |levels| == |ops| + 1
    ensures levels[|ops|] == Level(ops, kind, g)
  {
    if ops == [] then [0] else Levels(ops[..|ops| - 1], kind, g) + [Level(ops, kind, g)]
  }

  /** Where the peak is counted from: after the last seed of the type. */
  function LastSeed(ops: seq<Op>, kind: nat): (i: nat)
    ensures i <= |ops|
  {
    if ops == [] then 0
    else if ops[|ops| - 1].Seed? && ops[|ops| - 1].kind == kind then |ops|
    else LastSeed(ops[..|ops| - 1], kind)
  }

  /** `peak` is the highest level reached from step `from` on. */
  ghost predicate IsPeak(levels: seq<nat>, from: nat, peak: nat) {
    && (forall i :: from <= i < |levels| ==> levels[i] <= peak)
    && (exists i :: from <= i < |levels| && levels[i] == peak)
  }

  /** Published counts are 32 bits wide. */
  ghost predicate Within32Bits(levels: seq<nat>) {
    forall i :: 0 <= i < |levels| ==> levels[i] < 0x1_0000_0000
  }

  /** An initialized manager before the first recorded use, with a bin configured for `kind`. */
  ghost predicate Configured(s: State, kind: nat) {
    && s.initialized && StateOk(s) && kind < EFI_MAX_MEMORY_TYPE
    && s.stats[kind].special && s.stats[kind].index == kind
    && s.stats[kind].current == 0 && s.published[kind] == 0
  }

  /** What no operation changes. */
  lemma {:induction false} RunKeeps(s: State, ops: seq<Op>, g: Granularity)
    requires StateOk(s)
    ensures var r := Run(s, ops, g);
            && StateOk(r) && r.initialized == s.initialized
            && (forall k :: 0 <= k < EFI_MAX_MEMORY_TYPE ==> r.stats[k] == s.stats[k].(current := r.stats[k].current))
  {
    if ops != [] {
      RunKeeps(s, ops[..|ops| - 1], g);
    }
  }

  /** The current count of a special type is its level, whatever happens to other types. */
  lemma {:induction false} CurrentIsLevel(s: State, ops: seq<Op>, kind: nat, g: Granularity)
    requires Configured(s, kind)
    ensures Run(s, ops, g).stats[kind].current == Level(ops, kind, g)
  {
    if ops != [] {
      RunKeeps(s, ops[..|ops| - 1], g);
      CurrentIsLevel(s, ops[..|ops| - 1], kind, g);
    }
  }

  /** Nothing is counted before initialization, nor for types that are not special. */
  lemma {:induction false} OthersNotCounted(s: State, ops: seq<Op>, g: Granularity)
    requires StateOk(s)
    requires forall i :: 0 <= i < |ops| && s.initialized && ops[i].kind < EFI_MAX_MEMORY_TYPE ==>
               !s.stats[ops[i].kind].special
    ensures Run(s, ops, g) == s
  {
    if ops != [] {
      OthersNotCounted(s, ops[..|ops| - 1], g);
    }
  }

  lemma PeakExtends(levels: seq<nat>, from: nat, peak: nat, level: nat)
    requires IsPeak(levels, from, peak)
    ensures IsPeak(levels + [level], from, if level > peak then level else peak)
  {
    var i :| from <= i < |levels| && levels[i] == peak;
    assert (levels + [level])[i] == peak && (levels + [level])[|levels|] == level;
  }

  /** One operation on the type changes its published count as its level. */
  lemma PublishedStep(s: State, op: Op, kind: nat, g: Granularity)
    requires Counted(s, kind) && StateOk(s) && s.stats[kind].index == kind
    requires Step(s, op, g).stats[kind].current < 0x1_0000_0000
    ensures var s' := Step(s, op, g);
            var level := s'.stats[kind].current;
            && s'.published[kind] ==
               (if op.Seed? && op.kind == kind then level
                else if op.Allocate? && op.kind == kind && level > s.published[kind] then level
                else s.published[kind])
            && (op.kind != kind || op.Release? ==> level <= s.stats[kind].current)
  {
  }

  /** The published count of a configured type is the highest level since its last seed, over every run. */
  lemma {:induction false} PublishedIsPeak(s: State, ops: seq<Op>, kind: nat, g: Granularity)
    requires Configured(s, kind) && Within32Bits(Levels(ops, kind, g))
    ensures IsPeak(Levels(ops, kind, g), LastSeed(ops, kind), Run(s, ops, g).published[kind])
  {
    if ops != [] {
      var before, op := ops[..|ops| - 1], ops[|ops| - 1];
      assert forall i :: 0 <= i < |before| + 1 ==> Levels(ops, kind, g)[i] == Levels(before, kind, g)[i];
      PublishedIsPeak(s, before, kind, g);
      RunKeeps(s, before, g);
      CurrentIsLevel(s, before, kind, g);
      CurrentIsLevel(s, ops, kind, g);
      PublishedStep(Run(s, before, g), op, kind, g);
      PeakExtends(
        Levels(before, kind, g), LastSeed(before, kind), Run(s, before, g).published[kind], Level(ops, kind, g));
    }
  }

  /** No pages of the type are released before its last seed. */
  ghost predicate SeededFirst(ops: seq<Op>, kind: nat) {
    forall i :: 0 <= i < LastSeed(ops, kind) ==> !(ops[i].Release? && ops[i].kind == kind)
  }

  lemma {:induction false} LevelsRise(ops: seq<Op>, kind: nat, g: Granularity, n: nat)
    requires n <= |ops| && forall i :: 0 <= i < n ==> !(ops[i].Release? && ops[i].kind == kind)
    ensures forall i :: 0 <= i <= n ==> Levels(ops, kind, g)[i] <= Levels(ops, kind, g)[n]
    decreases |ops|, n
  {
    if n < |ops| {
      LevelsRise(ops[..|ops| - 1], kind, g, n);
    } else if n > 0 {
      LevelsRise(ops[..n - 1], kind, g, n - 1);
      assert Level(ops[..n - 1], kind, g) <= Level(ops, kind, g);
    }
  }

  /** Some level since the last seed reaches every level before it. */
  ghost predicate CatchesUp(levels: seq<nat>, seed: nat) {
    exists j :: seed <= j < |levels| && forall i :: 0 <= i < seed && i < |levels| ==> levels[i] <= levels[j]
  }

  /** The published count is the highest level ever exactly if the levels since the last seed catch up. */
  lemma PublishedIsAllTimePeak(s: State, ops: seq<Op>, kind: nat, g: Granularity)
    requires Configured(s, kind) && Within32Bits(Levels(ops, kind, g))
    ensures IsPeak(Levels(ops, kind, g), 0, Run(s, ops, g).published[kind])
       <==> CatchesUp(Levels(ops, kind, g), LastSeed(ops, kind))
  {
    PublishedIsPeak(s, ops, kind, g);
  }

  /** If no release precedes the last seed, the levels catch up. */
  lemma SeededFirstCatchesUp(ops: seq<Op>, kind: nat, g: Granularity)
    requires SeededFirst(ops, kind)
    ensures CatchesUp(Levels(ops, kind, g), LastSeed(ops, kind))
  {
    LevelsRise(ops, kind, g, LastSeed(ops, kind));
  }

  lemma {:induction false} LastSeedIn(seeds: seq<Op>, rest: seq<Op>, kind: nat)
    requires forall i :: 0 <= i < |rest| ==> !rest[i].Seed?
    ensures LastSeed(seeds + rest, kind) <= |seeds|
  {
    if rest == [] {
      assert seeds + rest == seeds;
    } else {
      var n := |rest| - 1;
      assert (seeds + rest)[..|seeds| + n] == seeds + rest[..n];
      LastSeedIn(seeds, rest[..n], kind);
    }
  }

  /** In the order of the core, all seeds right after initialization, the published count is the highest level ever. */
  lemma SeedsThenUse(s: State, seeds: seq<Op>, rest: seq<Op>, kind: nat, g: Granularity)
    requires Configured(s, kind) && Within32Bits(Levels(seeds + rest, kind, g))
    requires forall i :: 0 <= i < |seeds| ==> seeds[i].Seed?
    requires forall i :: 0 <= i < |rest| ==> !rest[i].Seed?
    ensures IsPeak(Levels(seeds + rest, kind, g), 0, Run(s, seeds + rest, g).published[kind])
  {
    LastSeedIn(seeds, rest, kind);
    SeededFirstCatchesUp(seeds + rest, kind, g);
    PublishedIsAllTimePeak(s, seeds + rest, kind, g);
  }

  /** A seed after a release can lower the published count below the peak. */
  lemma LateSeedForgetsPeak(s: State, kind: nat, p: nat, q: nat, g: Granularity)
    requires Configured(s, kind) && Rounded(q, g.For(kind)) < Rounded(p, g.For(kind)) < 0x1_0000_0000
    ensures var ops := [Allocate(kind, p), Release(kind, p), Seed(kind, q)];
            !IsPeak(Levels(ops, kind, g), 0, Run(s, ops, g).published[kind])
  {
    var a, r, d := Allocate(kind, p), Release(kind, p), Seed(kind, q);
    assert [a, r, d][..2] == [a, r] && [a, r][..1] == [a] && [a][..0] == [];
    assert Levels([a], kind, g)[1] == Rounded(p, g.For(kind));
    assert Levels([a, r, d], kind, g)[1] == Levels([a, r], kind, g)[1] == Levels([a], kind, g)[1];
    CurrentIsLevel(s, [a, r, d], kind, g);
    PublishedIsPeak(s, [a, r, d], kind, g);
  }

  // ---------- what is held ----------

  /** The allocations and seeds of the type that have not been released; a release takes one of the same page count. */
  function Held(ops: seq<Op>, kind: nat): seq<nat> {
    if ops == [] then []
    else
      var before, op := Held(ops[..|ops| - 1], kind), ops[|ops| - 1];
      if op.kind != kind then before
      else if op.Release? then Without(before, op.pages)
      else before + [op.pages]
  }

  /** Drops the first `n`, if there is one. */
  function Without(held: seq<nat>, n: nat): seq<nat> {
    if held == [] then [] else if held[0] == n then held[1..] else [held[0]] + Without(held[1..], n)
  }

  /** Every release of the type matches something held. */
  ghost predicate Matched(ops: seq<Op>, kind: nat) {
    ops == [] || var before, op := ops[..|ops| - 1], ops[|ops| - 1];
                 Matched(before, kind) && (op.Release? && op.kind == kind ==> op.pages in Held(before, kind))
  }

  function RoundedSum(held: seq<nat>, granularity: nat): nat {
    if held == [] then 0 else Rounded(held[0], granularity) + RoundedSum(held[1..], granularity)
  }

  lemma {:induction false} RoundedSumAppend(held: seq<nat>, n: nat, granularity: nat)
    ensures RoundedSum(held + [n], granularity) == RoundedSum(held, granularity) + Rounded(n, granularity)
  {
    if held == [] {
      assert held + [n] == [n];
    } else {
      assert (held + [n])[1..] == held[1..] + [n];
      RoundedSumAppend(held[1..], n, granularity);
    }
  }

  lemma {:induction false} RoundedSumWithout(held: seq<nat>, n: nat, granularity: nat)
    requires n in held
    ensures RoundedSum(Without(held, n), granularity) == RoundedSum(held, granularity) - Rounded(n, granularity)
  {
    if held[0] != n {
      RoundedSumWithout(held[1..], n, granularity);
      assert ([held[0]] + Without(held[1..], n))[1..] == Without(held[1..], n);
    }
  }

  /** With matched releases the current count is the sum of the rounded sizes still held. */
  lemma {:induction false} CurrentIsHeld(s: State, ops: seq<Op>, kind: nat, g: Granularity)
    requires Configured(s, kind) && Matched(ops, kind)
    ensures Run(s, ops, g).stats[kind].current == RoundedSum(Held(ops, kind), g.For(kind))
  {
    CurrentIsLevel(s, ops, kind, g);
    if ops != [] {
      var before, op := ops[..|ops| - 1], ops[|ops| - 1];
      CurrentIsLevel(s, before, kind, g);
      CurrentIsHeld(s, before, kind, g);
      if op.kind == kind {
        if op.Release? {
          RoundedSumWithout(Held(before, kind), op.pages, g.For(kind));
        } else {
          RoundedSumAppend(Held(before, kind), op.pages, g.For(kind));
        }
      }
    }
  }

  /** A type without an entry with pages shares the last published count with all such types. */
  lemma InitializedIndex(stats: seq<Statistics>, info: seq<TypeInfo>, end: nat, g: Granularity, kind: nat)
    requires GranularityOk(g) && Fresh(stats) && kind < EFI_MAX_MEMORY_TYPE
    ensures Initialized(stats, info, end, g)[kind].index == if Listed(info, kind) then kind else EFI_MAX_MEMORY_TYPE
  {
    RecordedFlags(stats, Place(info, end, g), kind);
  }

  /** Initialization configures every special type that has an entry with pages. */
  lemma InitializedConfigures(
    stats: seq<Statistics>, published: seq<nat>, info: seq<TypeInfo>, end: nat, g: Granularity, kind: nat)
    requires GranularityOk(g) && Fresh(stats) && kind < EFI_MAX_MEMORY_TYPE
    requires |published| == MAX_MEMORY_TYPE_INFO_ENTRIES
    requires Special(kind) && Listed(info, kind) && published[kind] == 0
    ensures Configured(State(Initialized(stats, info, end, g), published, true), kind)
  {
    InitializedState(stats, published, info, end, g);
    RecordedFlags(stats, Place(info, end, g), kind);
  }
}
