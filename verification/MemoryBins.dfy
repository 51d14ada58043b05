/** The memory bin manager: bin placement, the memory map overlay and the usage statistics. */
module MemoryBins {
  import opened MemoryMap
  import opened BinOverlay
  import opened BinPlacement

  const INVALID_INFORMATION_INDEX: nat := EFI_MAX_MEMORY_TYPE
  const MAX_MEMORY_TYPE_INFO_ENTRIES: nat := EFI_MAX_MEMORY_TYPE + 1

  /** Types that persist into the OS runtime. */
  predicate Special(kind: nat) {
    kind == 0 || kind == 5 || kind == 6 || kind == 9 || kind == 10 || kind == 13 || kind == 15
  }

  predicate Runtime(kind: nat) {
    kind == 5 || kind == 6 || kind == 13
  }

  datatype Statistics = Statistics(
    base: nat, last: nat, current: nat, pages: nat, index: nat, special: bool, runtime: bool)

  function DefaultStatistics(kind: nat): Statistics {
    Statistics(0, MAX_ALLOC_ADDRESS, 0, 0, INVALID_INFORMATION_INDEX, Special(kind), Runtime(kind))
  }

  /** The flags of all types in order: special and runtime, and whether the runtime granularity applies. */
  lemma TypeTable(g: Granularity)
    requires g.normal != g.runtime
    ensures seq(16, kind requires kind >= 0 => (Special(kind), Runtime(kind), g.For(kind) == g.runtime)) == [
              (true, false, true),  // reserved
              (false, false, false), (false, false, false),  // loader code, data
              (false, false, false), (false, false, false),  // boot services code, data
              (true, true, true), (true, true, true),  // runtime services code, data
              (false, false, false), (false, false, false),  // conventional, unusable
              (true, false, false), (true, false, true),  // ACPI reclaim, ACPI NVS
              (false, false, false), (false, false, false),  // MMIO, MMIO port space
              (true, true, false), (false, false, false), (true, false, false)]  // PAL, persistent, unaccepted
  {
  }

  // ---------- specification of initialization ----------

  /** The statistics after recording the placed bins in order. */
  function Recorded(stats: seq<Statistics>, ps: seq<Placed>): (r: seq<Statistics>)
    ensures |r| == |stats|
    decreases |ps|
  {
    if ps == [] then stats else Recorded(RecordOne(stats, ps[0]), ps[1..])
  }

  function RecordOne(stats: seq<Statistics>, p: Placed): (r: seq<Statistics>)
    ensures |r| == |stats|
  {
    if p.kind < |stats| && 0 <= p.base && 0 <= p.last
    then stats[p.kind := stats[p.kind].(base := p.base, last := p.last, pages := p.pages)]
    else stats
  }

  /** The type has an entry with pages somewhere in the list. */
  predicate Listed(info: seq<TypeInfo>, kind: nat) {
    exists k :: 0 <= k < |info| && info[k].kind == kind && info[k].pages > 0
  }

  /** Sets the information index of every listed type. */
  function Indexed(stats: seq<Statistics>, info: seq<TypeInfo>): seq<Statistics> {
    seq(|stats|, kind requires 0 <= kind < |stats| =>
      if Listed(info, kind) then stats[kind].(index := kind) else stats[kind])
  }

  /** The active bins of special types, in type order from `from` on. */
  function SpecialBins(stats: seq<Statistics>, from: nat): seq<Bin>
    decreases |stats| - from
  {
    if from >= |stats| then []
    else if stats[from].special && stats[from].pages > 0
    then [Bin(from, stats[from].runtime, stats[from].base, stats[from].last)] + SpecialBins(stats, from + 1)
    else SpecialBins(stats, from + 1)
  }

  /** `b` is the active bin that the statistics record for its type. */
  ghost predicate BinOf(stats: seq<Statistics>, b: Bin) {
    && b.kind < |stats| && stats[b.kind].special && stats[b.kind].pages > 0
    && b == Bin(b.kind, stats[b.kind].runtime, stats[b.kind].base, stats[b.kind].last)
  }

  /** Active bins in ascending type order. */
  ghost predicate BinsOf(stats: seq<Statistics>, from: nat, bins: seq<Bin>) {
    && (forall i :: 0 <= i < |bins| ==> from <= bins[i].kind && BinOf(stats, bins[i]))
    && (forall i, j :: 0 <= i < j < |bins| ==> bins[i].kind < bins[j].kind)
  }

  lemma {:induction false} SpecialBinsAre(stats: seq<Statistics>, from: nat)
    ensures BinsOf(stats, from, SpecialBins(stats, from))
    decreases |stats| - from
  {
    if from < |stats| {
      SpecialBinsAre(stats, from + 1);
      var rest := SpecialBins(stats, from + 1);
      assert BinsOf(stats, from, rest);
      var s := stats[from];
      if s.special && s.pages > 0 {
        var b := Bin(from, s.runtime, s.base, s.last);
        assert BinOf(stats, b);
        assert BinsOf(stats, from, [b] + rest);
      }
    }
  }

  /** `s` records the placed bin `p`. */
  predicate Records(s: Statistics, p: Placed, kind: nat) {
    p.kind == kind && s.base == p.base && s.last == p.last && s.pages == p.pages
  }

  lemma {:induction false} RecordedOrKept(stats: seq<Statistics>, ps: seq<Placed>, kind: nat)
    requires kind < |stats|
    ensures var r := Recorded(stats, ps)[kind];
            r == stats[kind] || exists k :: 0 <= k < |ps| && Records(r, ps[k], kind)
    decreases |ps|
  {
    if ps != [] {
      var r := Recorded(stats, ps)[kind];
      RecordedOrKept(RecordOne(stats, ps[0]), ps[1..], kind);
      if r == RecordOne(stats, ps[0])[kind] {
        assert r == stats[kind] || Records(r, ps[0], kind);
      } else {
        var k :| 0 <= k < |ps[1..]| && Records(r, ps[1..][k], kind);
        assert Records(r, ps[k + 1], kind);
      }
    }
  }

  /** A bin that appears was placed. */
  lemma RecordedFrom(stats: seq<Statistics>, ps: seq<Placed>, kind: nat) returns (k: nat)
    requires kind < |stats| && stats[kind].pages == 0 && Recorded(stats, ps)[kind].pages > 0
    ensures k < |ps| && Records(Recorded(stats, ps)[kind], ps[k], kind)
  {
    RecordedOrKept(stats, ps, kind);
    k :| 0 <= k < |ps| && Records(Recorded(stats, ps)[kind], ps[k], kind);
  }

  lemma {:induction false} RecordedFlags(stats: seq<Statistics>, ps: seq<Placed>, kind: nat)
    requires kind < |stats|
    ensures var r := Recorded(stats, ps)[kind];
            && r.special == stats[kind].special && r.runtime == stats[kind].runtime
            && r.current == stats[kind].current && r.index == stats[kind].index
    decreases |ps|
  {
    if ps != [] {
      RecordedFlags(RecordOne(stats, ps[0]), ps[1..], kind);
    }
  }

  /** Statistics before any bin was placed. */
  ghost predicate Fresh(stats: seq<Statistics>) {
    |stats| == EFI_MAX_MEMORY_TYPE && forall kind :: 0 <= kind < |stats| ==> stats[kind] == DefaultStatistics(kind)
  }

  /** The bin of a type lies in the range, is aligned for the type and holds the pages asked for. */
  ghost predicate BinPlaced(s: Statistics, kind: nat, start: nat, end: nat, g: Granularity)
    requires g.normal > 0 && g.runtime > 0
  {
    start <= s.base <= s.last < end && s.base % g.For(kind) == 0 && PagesToSize(s.pages) <= s.last + 1 - s.base
  }

  function Initialized(stats: seq<Statistics>, info: seq<TypeInfo>, end: nat, g: Granularity): seq<Statistics>
    requires g.normal > 0 && g.runtime > 0
  {
    Indexed(Recorded(stats, Place(info, end, g)), info)
  }

  /** A range that passes the sizing check gets bins inside it, aligned, large enough and pairwise disjoint. */
  lemma InitializedBins(stats: seq<Statistics>, info: seq<TypeInfo>, start: nat, end: nat, g: Granularity)
    requires GranularityOk(g) && Fresh(stats) && start <= end && TotalSize(info, end, g) <= end - start
    ensures var r := Initialized(stats, info, end, g);
            && (forall kind :: 0 <= kind < |r| && r[kind].pages > 0 ==> BinPlaced(r[kind], kind, start, end, g))
            && (forall kind, kind' :: 0 <= kind < kind' < |r| && r[kind].pages > 0 && r[kind'].pages > 0 ==>
                  r[kind].last < r[kind'].base || r[kind'].last < r[kind].base)
  {
    var ps := Place(info, end, g);
    var r := Initialized(stats, info, end, g);
    PlacementTiles(info, end, g);
    SizedPlacementStaysInside(info, end, end, end - start, g);
    forall kind | 0 <= kind < |r| && r[kind].pages > 0 ensures BinPlaced(r[kind], kind, start, end, g) {
      var k := RecordedFrom(stats, ps, kind);
      TilesAbove(ps, end, g, k);
      TilesBelow(ps, end, g, k);
    }
    forall kind, kind' | 0 <= kind < kind' < |r| && r[kind].pages > 0 && r[kind'].pages > 0
      ensures r[kind].last < r[kind'].base || r[kind'].last < r[kind].base
    {
      var k := RecordedFrom(stats, ps, kind);
      var k' := RecordedFrom(stats, ps, kind');
      if k < k' {
        TilesDescend(ps, end, g, k, k');
      } else {
        TilesDescend(ps, end, g, k', k);
      }
    }
  }

  // ---------- fit for the overlay ----------

  /** Every bin lies at or above address zero. */
  ghost predicate Addressed(ps: seq<Placed>) {
    forall k :: 0 <= k < |ps| ==> 0 <= ps[k].base <= ps[k].last
  }

  lemma PlacedAddressed(info: seq<TypeInfo>, start: nat, end: nat, g: Granularity)
    requires GranularityOk(g) && start <= end && TotalSize(info, end, g) <= end - start
    ensures Tiles(Place(info, end, g), end, g) && Addressed(Place(info, end, g))
  {
    var ps := Place(info, end, g);
    PlacementTiles(info, end, g);
    SizedPlacementStaysInside(info, end, end, end - start, g);
    forall k | 0 <= k < |ps| ensures 0 <= ps[k].base <= ps[k].last {
      TilesAbove(ps, end, g, k);
    }
  }

  lemma {:induction false} RecordedKept(stats: seq<Statistics>, ps: seq<Placed>, kind: nat)
    requires kind < |stats| && forall k :: 0 <= k < |ps| ==> ps[k].kind != kind
    ensures Recorded(stats, ps)[kind] == stats[kind]
    decreases |ps|
  {
    if ps != [] {
      RecordedKept(RecordOne(stats, ps[0]), ps[1..], kind);
    }
  }

  /** The last bin placed for a type is the recorded one. */
  lemma {:induction false} RecordedLast(stats: seq<Statistics>, ps: seq<Placed>, kind: nat) returns (k: nat)
    requires kind < |stats| && Addressed(ps) && exists i :: 0 <= i < |ps| && ps[i].kind == kind
    ensures k < |ps| && Records(Recorded(stats, ps)[kind], ps[k], kind)
    ensures forall j :: k < j < |ps| ==> ps[j].kind != kind
    decreases |ps|
  {
    var next, rest := RecordOne(stats, ps[0]), ps[1..];
    if i :| 0 < i < |ps| && ps[i].kind == kind {
      assert rest[i - 1].kind == kind;
      var j := RecordedLast(next, rest, kind);
      k := j + 1;
    } else {
      k := 0;
      RecordedKept(next, rest, kind);
    }
  }

  /** Entry `k` is the last one that asks for pages of its type. */
  ghost predicate Decides(info: seq<TypeInfo>, k: nat) {
    Wants(info, k) && forall j :: k < j < |info| && Wants(info, j) ==> info[j].kind != info[k].kind
  }

  /** Every type has the pages of the entry that decides, and special types have their bin; a type without such an entry
      is as it was at the start. */
  ghost predicate BinsAsListed(r: seq<Statistics>, info: seq<TypeInfo>) {
    && |r| == EFI_MAX_MEMORY_TYPE
    && (forall k :: 0 <= k < |info| && Decides(info, k) ==>
          && r[info[k].kind].pages == info[k].pages
          && (Special(info[k].kind) ==> HasBin(SpecialBins(r, 0), r[info[k].kind], info[k].kind)))
    && (forall kind :: 0 <= kind < |r| && !Asked(info, kind) ==>
          r[kind].pages == 0 && r[kind].base == 0 && r[kind].last == 0x7FFF_FFFF_FFFF_FFFF)
    && (forall kind :: 0 <= kind < |r| ==> r[kind].current == 0)
  }

  predicate HasBin(bins: seq<Bin>, s: Statistics, kind: nat) {
    Bin(kind, Runtime(kind), s.base, s.last) in bins
  }

  ghost predicate Asked(info: seq<TypeInfo>, kind: nat) {
    exists k :: 0 <= k < |info| && Wants(info, k) && info[k].kind == kind
  }

  /** The recorded bin of a type is the one for the entry that decides. */
  lemma DecidingBin(stats: seq<Statistics>, info: seq<TypeInfo>, end: nat, g: Granularity, k: nat)
    requires g.normal > 0 && g.runtime > 0 && |stats| == EFI_MAX_MEMORY_TYPE && Addressed(Place(info, end, g))
    requires Decides(info, k)
    ensures Recorded(stats, Place(info, end, g))[info[k].kind].pages == info[k].pages
  {
    var ps, j := Place(info, end, g), WantedBefore(info, k);
    EntryPlaced(info, end, g, k);
    assert ps[j].kind == info[k].kind;
    var last := RecordedLast(stats, ps, info[k].kind);
    var i := PlacedForEntry(info, end, g, last);
    assert i <= k;
    WantedMonotone(info, i, k);
    assert last == j;
  }

  lemma DecidingEntry(stats: seq<Statistics>, info: seq<TypeInfo>, end: nat, g: Granularity, k: nat)
    requires g.normal > 0 && g.runtime > 0 && Fresh(stats) && Addressed(Place(info, end, g)) && Decides(info, k)
    ensures var r, kind := Initialized(stats, info, end, g), info[k].kind;
            r[kind].pages == info[k].pages && (Special(kind) ==> HasBin(SpecialBins(r, 0), r[kind], kind))
  {
    var r, kind := Initialized(stats, info, end, g), info[k].kind;
    DecidingBin(stats, info, end, g, k);
    RecordedFlags(stats, Place(info, end, g), kind);
    if Special(kind) {
      SpecialBinsAll(r, 0, Bin(kind, Runtime(kind), r[kind].base, r[kind].last));
    }
  }

  /** An accepted range gives every listed type its bin, with the pages of the last entry for it, and no other type. */
  lemma InitializedAsListed(stats: seq<Statistics>, info: seq<TypeInfo>, start: nat, end: nat, g: Granularity)
    requires GranularityOk(g) && Fresh(stats) && start <= end && TotalSize(info, end, g) <= end - start
    ensures BinsAsListed(Initialized(stats, info, end, g), info)
  {
    var r, ps := Initialized(stats, info, end, g), Place(info, end, g);
    PlacedAddressed(info, start, end, g);
    forall k | 0 <= k < |info| && Decides(info, k)
      ensures r[info[k].kind].pages == info[k].pages
      ensures Special(info[k].kind) ==> HasBin(SpecialBins(r, 0), r[info[k].kind], info[k].kind)
    {
      DecidingEntry(stats, info, end, g, k);
    }
    forall kind | 0 <= kind < |r| ensures r[kind].current == 0 {
      RecordedFlags(stats, ps, kind);
    }
    forall kind | 0 <= kind < |r| && !Asked(info, kind)
      ensures r[kind].pages == 0 && r[kind].base == 0 && r[kind].last == 0x7FFF_FFFF_FFFF_FFFF
    {
      UnaskedKept(stats, info, end, g, kind);
    }
  }

  lemma UnaskedKept(stats: seq<Statistics>, info: seq<TypeInfo>, end: nat, g: Granularity, kind: nat)
    requires g.normal > 0 && g.runtime > 0 && kind < |stats| && !Asked(info, kind)
    ensures Recorded(stats, Place(info, end, g))[kind] == stats[kind]
  {
    var ps := Place(info, end, g);
    forall j | 0 <= j < |ps| ensures ps[j].kind != kind {
      var k := PlacedForEntry(info, end, g, j);
      assert Wants(info, k);
    }
    RecordedKept(stats, ps, kind);
  }

  /** The topmost bin is of a special type and is not replaced by a later entry of its type. */
  ghost predicate TopBinKept(ps: seq<Placed>) {
    ps != [] && Special(ps[0].kind) && forall k :: 0 < k < |ps| ==> ps[k].kind != ps[0].kind
  }

  /** The bin of a type is the last one placed for it. */
  lemma BinWasPlaced(stats: seq<Statistics>, info: seq<TypeInfo>, end: nat, g: Granularity, b: Bin) returns (k: nat)
    requires g.normal > 0 && g.runtime > 0 && Fresh(stats) && Addressed(Place(info, end, g))
    requires BinOf(Initialized(stats, info, end, g), b)
    ensures var ps := Place(info, end, g);
            && k < |ps| && ps[k].kind == b.kind && ps[k].base == b.base && ps[k].last == b.last && Special(b.kind)
            && forall j :: k < j < |ps| ==> ps[j].kind != b.kind
  {
    var ps := Place(info, end, g);
    RecordedFlags(stats, ps, b.kind);
    var i := RecordedFrom(stats, ps, b.kind);
    k := RecordedLast(stats, ps, b.kind);
  }

  lemma InitializedBinOk(stats: seq<Statistics>, info: seq<TypeInfo>, start: nat, end: nat, g: Granularity, b: Bin)
    requires GranularityOk(g) && Fresh(stats) && start <= end && TotalSize(info, end, g) <= end - start
    requires BinOf(Initialized(stats, info, end, g), b) && (Aligned(end) || !TopBinKept(Place(info, end, g)))
    ensures BinOk(b)
  {
    PlacedAddressed(info, start, end, g);
    var k := BinWasPlaced(stats, info, end, g, b);
    TilesPageAligned(Place(info, end, g), end, g, k);
  }

  /** The bin that ends where the range ends. */
  lemma TopBin(stats: seq<Statistics>, info: seq<TypeInfo>, start: nat, end: nat, g: Granularity) returns (b: Bin)
    requires GranularityOk(g) && Fresh(stats) && start <= end && TotalSize(info, end, g) <= end - start
    requires TopBinKept(Place(info, end, g))
    ensures b in SpecialBins(Initialized(stats, info, end, g), 0)
    ensures Aligned(b.base) && b.base <= b.last && b.last + 1 == end && b.kind != CONVENTIONAL_MEMORY
  {
    var ps, r := Place(info, end, g), Initialized(stats, info, end, g);
    var kind := ps[0].kind;
    PlacedAddressed(info, start, end, g);
    RecordedFlags(stats, ps, kind);
    var k := RecordedLast(stats, ps, kind);
    GranularityPages(ps[0].base, kind, g);
    b := Bin(kind, r[kind].runtime, r[kind].base, r[kind].last);
    SpecialBinsAll(r, 0, b);
  }

  lemma {:induction false} SpecialBinsAll(stats: seq<Statistics>, from: nat, b: Bin)
    requires BinOf(stats, b) && from <= b.kind
    ensures b in SpecialBins(stats, from)
    decreases |stats| - from
  {
    if from < b.kind {
      SpecialBinsAll(stats, from + 1, b);
    }
  }

  /** The bins of an accepted range are fit for the overlay exactly if the range ends at a page boundary or no
      special bin ends where it ends. */
  lemma InitializedBinsOk(stats: seq<Statistics>, info: seq<TypeInfo>, start: nat, end: nat, g: Granularity)
    requires GranularityOk(g) && Fresh(stats) && start <= end && TotalSize(info, end, g) <= end - start
    ensures BinsOk(SpecialBins(Initialized(stats, info, end, g), 0))
       <==> Aligned(end) || !TopBinKept(Place(info, end, g))
  {
    var r := Initialized(stats, info, end, g);
    var bins := SpecialBins(r, 0);
    SpecialBinsAre(r, 0);
    InitializedBins(stats, info, start, end, g);
    if Aligned(end) || !TopBinKept(Place(info, end, g)) {
      forall i | 0 <= i < |bins| ensures BinOk(bins[i]) {
        InitializedBinOk(stats, info, start, end, g, bins[i]);
      }
      forall i, j | 0 <= i < j < |bins| ensures Apart(bins[i], bins[j]) {
        assert BinOf(r, bins[i]) && BinOf(r, bins[j]) && bins[i].kind < bins[j].kind;
      }
    } else {
      var b := TopBin(stats, info, start, end, g);
      assert !BinOk(b);
    }
  }

  /** Splitting any valid map at any of the bins gives a valid map. */
  ghost predicate SplitsStayValid(bins: seq<Bin>) {
    forall m: Map, i: nat, b: Bin ::
      b in bins && b.base <= b.last && Valid(m) && i < |m| && Hit(m[i], b) ==> Valid(Split(m, i, b))
  }

  /** One free descriptor that runs past an unaligned end of a bin. */
  lemma SplitBroken(b: Bin) returns (d: Descriptor)
    requires Aligned(b.base) && b.base <= b.last && !Aligned(b.last + 1) && b.kind != CONVENTIONAL_MEMORY
    ensures Valid([d]) && Hit(d, b) && !Valid(Split([d], 0, b))
  {
    d := Descriptor(CONVENTIONAL_MEMORY, b.base, SizeToPages(b.last + 1 - b.base) + 1, Attributes(false, 0));
    UnalignedEndOverlaps(d, b);
    assert Split([d], 0, b) == Pieces(d, b);
  }

  lemma OkBinsSplit(bins: seq<Bin>)
    requires BinsOk(bins)
    ensures SplitsStayValid(bins)
  {
    forall m: Map, i: nat, b: Bin | b in bins && Valid(m) && i < |m| && Hit(m[i], b) ensures Valid(Split(m, i, b)) {
      SplitValid(m, i, b);
    }
  }

  lemma UnalignedBinBreaks(bins: seq<Bin>, b: Bin)
    requires b in bins && Aligned(b.base) && b.base <= b.last && !Aligned(b.last + 1) && b.kind != CONVENTIONAL_MEMORY
    ensures !SplitsStayValid(bins)
  {
    var d := SplitBroken(b);
    var m := [d];
    assert Hit(m[0], b) && !Valid(Split(m, 0, b));
  }

  /** The bins of an accepted range keep every memory map valid under the same condition, and only then. */
  lemma SplitsStayValidExactly(stats: seq<Statistics>, info: seq<TypeInfo>, start: nat, end: nat, g: Granularity)
    requires GranularityOk(g) && Fresh(stats) && start <= end && TotalSize(info, end, g) <= end - start
    ensures SplitsStayValid(SpecialBins(Initialized(stats, info, end, g), 0))
       <==> Aligned(end) || !TopBinKept(Place(info, end, g))
  {
    var bins := SpecialBins(Initialized(stats, info, end, g), 0);
    InitializedBinsOk(stats, info, start, end, g);
    if BinsOk(bins) {
      OkBinsSplit(bins);
    } else {
      var b := TopBin(stats, info, start, end, g);
      UnalignedBinBreaks(bins, b);
    }
  }

  /** One page of ACPI reclaim memory in a range that ends in the middle of a page: the range is accepted, and one free
      descriptor of sixteen pages is split into descriptors that overlap. */
  lemma UnalignedRange(stats: seq<Statistics>)
    requires Fresh(stats)
    ensures var g, info := Granularity(0x1000, 0x1000), [TypeInfo(9, 1)];
            var bins := SpecialBins(Initialized(stats, info, 0x3800, g), 0);
            var d := Descriptor(CONVENTIONAL_MEMORY, 0, 16, Attributes(false, 0));
            && TotalSize(info, 0x3800, g) <= 0x3800 && Valid([d])
            && Bin(9, false, 0x2000, 0x37FF) in bins && Hit(d, Bin(9, false, 0x2000, 0x37FF))
            && !Valid(Split([d], 0, Bin(9, false, 0x2000, 0x37FF)))
  {
    var g, info := Granularity(0x1000, 0x1000), [TypeInfo(9, 1)];
    var r, b := Initialized(stats, info, 0x3800, g), Bin(9, false, 0x2000, 0x37FF);
    var d := Descriptor(CONVENTIONAL_MEMORY, 0, 16, Attributes(false, 0));
    var p := Placed(9, 0x2000, 0x37FF, 1);
    assert Place(info, 0x3800, g) == [p];
    assert Recorded(stats, [p]) == RecordOne(stats, p);
    SpecialBinsAll(r, 0, b);
    UnalignedEndOverlaps(d, b);
    assert Split([d], 0, b) == Pieces(d, b);
  }

  // ---------- specification of the accounting ----------

  /** Rounds a page count up to the granularity. */
  function Rounded(pages: nat, granularity: nat): nat {
    var unit := granularity / 4096;
    if unit <= 1 then pages else (pages + unit - 1) / unit * unit
  }

  /** The manager's state as a value; `published[k]` is the page count of memory type information entry `k`. */
  datatype State = State(stats: seq<Statistics>, published: seq<nat>, initialized: bool)

  ghost predicate StateOk(s: State) {
    && |s.stats| == EFI_MAX_MEMORY_TYPE && |s.published| == MAX_MEMORY_TYPE_INFO_ENTRIES
    && (forall kind :: 0 <= kind < EFI_MAX_MEMORY_TYPE ==>
          s.stats[kind].index == kind || s.stats[kind].index == INVALID_INFORMATION_INDEX)
  }

  /** Only special types of an initialized manager are counted. */
  predicate Counted(s: State, kind: nat) {
    s.initialized && kind < |s.stats| && s.stats[kind].special
  }

  /** The published counts are 32 bits wide. */
  function Truncated(n: nat): nat {
    n % 0x1_0000_0000
  }

  function Seeded(s: State, kind: nat, pages: nat, g: Granularity): State {
    if !Counted(s, kind) then s
    else
      var current := s.stats[kind].current + Rounded(pages, g.For(kind));
      s.(stats := s.stats[kind := s.stats[kind].(current := current)],
         published := if kind < |s.published| then s.published[kind := Truncated(current)] else s.published)
  }

  function Allocated(s: State, kind: nat, pages: nat, g: Granularity): State {
    if !Counted(s, kind) then s
    else
      var current := s.stats[kind].current + Rounded(pages, g.For(kind));
      var index := s.stats[kind].index;
      s.(stats := s.stats[kind := s.stats[kind].(current := current)],
         published := if index < |s.published| && current > s.published[index]
                      then s.published[index := Truncated(current)] else s.published)
  }

  function Released(s: State, kind: nat, pages: nat, g: Granularity): State {
    if !Counted(s, kind) then s
    else
      var before, size := s.stats[kind].current, Rounded(pages, g.For(kind));
      s.(stats := s.stats[kind := s.stats[kind].(current := if size <= before then before - size else 0)])
  }

  lemma ListedExtends(info: seq<TypeInfo>, entry: TypeInfo, kind: nat)
    ensures Listed(info + [entry], kind) <==> Listed(info, kind) || (entry.kind == kind && entry.pages > 0)
  {
    assert (info + [entry])[|info|] == entry;
    if Listed(info, kind) {
      var k :| 0 <= k < |info| && info[k].kind == kind && info[k].pages > 0;
      assert (info + [entry])[k] == info[k];
    }
  }

  lemma InitializedState(stats: seq<Statistics>, published: seq<nat>, info: seq<TypeInfo>, end: nat, g: Granularity)
    requires g.normal > 0 && g.runtime > 0 && Fresh(stats) && |published| == MAX_MEMORY_TYPE_INFO_ENTRIES
    ensures StateOk(State(Initialized(stats, info, end, g), published, true))
  {
    forall kind | 0 <= kind < |stats|
      ensures Recorded(stats, Place(info, end, g))[kind].index == INVALID_INFORMATION_INDEX
    {
      RecordedFlags(stats, Place(info, end, g), kind);
    }
  }

  /** The usage counts do not affect the bins. */
  lemma {:induction false} SpecialBinsSame(stats: seq<Statistics>, kind: nat, current: nat, from: nat)
    requires kind < |stats|
    ensures SpecialBins(stats[kind := stats[kind].(current := current)], from) == SpecialBins(stats, from)
    decreases |stats| - from
  {
    if from < |stats| {
      SpecialBinsSame(stats, kind, current, from + 1);
    }
  }
}
