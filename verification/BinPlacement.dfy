/** Sizing of the bin range and placement of the bins in it, from the top downward. */
module BinPlacement {
  import opened MemoryMap

  const EFI_MAX_MEMORY_TYPE: nat := 16
  const MAX_ALLOC_ADDRESS: nat := 0x7FFF_FFFF_FFFF_FFFF

  /** An entry of the memory type information: how many pages to set aside for a type. */
  datatype TypeInfo = TypeInfo(kind: nat, pages: nat) {
    function Size(): nat {
      PagesToSize(pages)
    }
  }

  /** The two page allocation granularities, in bytes. */
  datatype Granularity = Granularity(normal: nat, runtime: nat) {
    function For(kind: nat): nat {
      // reserved, runtime code, runtime data, ACPI NVS
      if kind == 0 || kind == 5 || kind == 6 || kind == 10 then runtime else normal
    }
  }

  /** Whole pages, and the coarser granularity is a multiple of the finer one. */
  ghost predicate GranularityOk(g: Granularity) {
    g.normal > 0 && g.runtime > 0 && Aligned(g.normal) && g.runtime % g.normal == 0
  }

  // ---------- aligning ----------

  /** `x` rounded down to a multiple of `g`. */
  function AlignDown(x: int, g: nat): int
    requires g > 0
  {
    x - x % g
  }

  lemma AlignDownIs(x: int, g: nat)
    requires g > 0
    ensures AlignDown(x, g) == g * (x / g)
    ensures x - g < AlignDown(x, g) <= x
  {
  }

  lemma MultiplyMonotone(g: nat, p: int, q: int)
    requires p <= q
    ensures g * p <= g * q
  {
  }

  lemma AlignDownMonotone(x: int, y: int, g: nat)
    requires g > 0 && x <= y
    ensures AlignDown(x, g) <= AlignDown(y, g)
  {
    AlignDownIs(x, g);
    AlignDownIs(y, g);
    var p, q := x / g, y / g;
    if p <= q {
      MultiplyMonotone(g, p, q);
    } else {
      MultiplyMonotone(g, q + 1, p);
      assert false;
    }
  }

  /** Only zero is both a multiple of `g` and a remainder. */
  lemma RemainderZero(g: nat, d: int)
    requires g > 0 && 0 <= g * d < g
    ensures d == 0
  {
  }

  lemma MultipleRemainder(k: int, g: nat)
    requires g > 0
    ensures (g * k) % g == 0
  {
    var x := g * k;
    var q := x / g;
    assert g * (k - q) == x - g * q == x % g;
    RemainderZero(g, k - q);
  }

  /** A multiple of a multiple. */
  lemma DividesTransitive(x: int, g: nat, h: nat)
    requires g > 0 && h > 0 && h % g == 0 && x % h == 0
    ensures x % g == 0
  {
    var q, p := x / h, h / g;
    assert x == h * q && h == g * p;
    assert x == g * (p * q) by {
      assert (g * p) * q == g * (p * q);
    }
    MultipleRemainder(p * q, g);
  }

  /** Rounding to the finer granularity first makes no difference. */
  lemma AlignNested(x: int, g: nat, h: nat)
    requires g > 0 && h > 0 && h % g == 0
    ensures AlignDown(AlignDown(x, g), h) == AlignDown(x, h) <= AlignDown(x, g) <= x
  {
    var y, z := AlignDown(x, g), AlignDown(x, h);
    AlignDownIs(x, g);
    AlignDownIs(x, h);
    MultipleRemainder(x / h, h);
    DividesTransitive(z, g, h);
    AlignDownMonotone(z, x, g);
    AlignDownMonotone(z, y, h);
    AlignDownMonotone(y, x, h);
  }

  // ---------- sizing ----------

  /** The list stops at an entry whose type is not a memory type. */
  predicate Stops(info: seq<TypeInfo>) {
    info == [] || info[0].kind >= EFI_MAX_MEMORY_TYPE
  }

  /** Bytes needed below `top`, with the padding the sizing loop counts; a `top` of zero means no padding. */
  function TotalSize(info: seq<TypeInfo>, top: int, g: Granularity): (total: nat)
    requires g.normal > 0 && g.runtime > 0
    ensures !Stops(info) ==> info[0].Size() <= total
  {
    if Stops(info) then 0
    else
      var size := info[0].Size();
      if top == 0 then size + TotalSize(info[1..], 0, g)
      else
        var next := AlignDown(top - size, g.For(info[0].kind));
        top - next + TotalSize(info[1..], next, g)
  }

  method CalculateTotalBinSize(info: seq<TypeInfo>, binTop: nat, g: Granularity) returns (total: nat)
    requires g.normal > 0 && g.runtime > 0
    ensures total == TotalSize(info, binTop, g)
  {
    total := 0;
    var top: int := binTop;
    for k := 0 to |info|
      invariant total + TotalSize(info[k..], top, g) == TotalSize(info, binTop, g)
    {
      var entry := info[k];
      assert info[k..][1..] == info[k + 1..];
      if entry.kind >= EFI_MAX_MEMORY_TYPE {
        break;
      }
      var granularity := g.For(entry.kind);
      total := total + entry.Size();
      if top == 0 {
        continue;
      }
      top := top - entry.Size();
      var padding := top % granularity;
      total := total + padding;
      top := AlignDown(top, granularity);
    }
  }

  // ---------- placement ----------

  /** A bin as placed: its address range and the pages asked for. */
  datatype Placed = Placed(kind: nat, base: int, last: int, pages: nat)

  /** The bins placed downward from `top`. */
  function Place(info: seq<TypeInfo>, top: int, g: Granularity): seq<Placed>
    requires g.normal > 0 && g.runtime > 0
  {
    if Stops(info) then []
    else if info[0].pages == 0 then Place(info[1..], top, g)
    else
      var base := AlignDown(top - info[0].Size(), g.For(info[0].kind));
      [Placed(info[0].kind, base, top - 1, info[0].pages)] + Place(info[1..], base, g)
  }

  /** The address that placement reaches. */
  function Bottom(ps: seq<Placed>, top: int): int {
    if ps == [] then top else ps[|ps| - 1].base
  }

  /** A range that passes the sizing check is never left by the placement, although sizing also
      aligns for entries without pages, and stops aligning at address zero. */
  lemma {:induction false} SizedPlacementStaysInside(
    info: seq<TypeInfo>, sized: nat, top: int, length: nat, g: Granularity)
    requires GranularityOk(g) && sized <= top
    requires TotalSize(info, sized, g) <= length <= sized
    ensures Bottom(Place(info, top, g), top) >= sized - length
    decreases |info|
  {
    if !Stops(info) {
      var h := g.For(info[0].kind);
      var size := info[0].Size();
      var next := if sized == 0 then 0 else AlignDown(sized - size, h);
      var down := AlignDown(top - size, h);
      if sized != 0 {
        AlignDownMonotone(sized - size, top - size, h);
      }
      AlignDownIs(top, h);
      var length' := length - (sized - next);
      assert next >= 0 && TotalSize(info[1..], next, g) <= length' <= next;
      SizedPlacementStaysInside(info[1..], next, if info[0].pages == 0 then top else down, length', g);
    }
  }

  /** The bins tile the range from the bottom to the top without gaps; every base is the highest
      address aligned for its type that leaves room for the pages asked for. */
  ghost predicate Tiles(ps: seq<Placed>, top: int, g: Granularity)
    requires g.normal > 0 && g.runtime > 0
  {
    && (ps != [] ==> ps[0].last + 1 == top)
    && (forall k :: 0 < k < |ps| ==> ps[k].last + 1 == ps[k - 1].base)
    && (forall k :: 0 <= k < |ps| ==> ps[k].base % g.For(ps[k].kind) == 0)
    && (forall k :: 0 <= k < |ps| ==>
          && 0 < ps[k].pages && ps[k].kind < EFI_MAX_MEMORY_TYPE
          && PagesToSize(ps[k].pages) <= ps[k].last + 1 - ps[k].base < PagesToSize(ps[k].pages) + g.For(ps[k].kind))
  }

  lemma {:induction false} PlacementTiles(info: seq<TypeInfo>, top: int, g: Granularity)
    requires GranularityOk(g)
    ensures Tiles(Place(info, top, g), top, g)
    decreases |info|
  {
    if !Stops(info) {
      if info[0].pages == 0 {
        PlacementTiles(info[1..], top, g);
      } else {
        var h := g.For(info[0].kind);
        var base := AlignDown(top - info[0].Size(), h);
        AlignDownIs(top - info[0].Size(), h);
        MultipleRemainder((top - info[0].Size()) / h, h);
        PlacementTiles(info[1..], base, g);
      }
    }
  }

  /** Tiled bins lie one below the other, above the bottom. */
  lemma {:induction false} TilesDescend(ps: seq<Placed>, top: int, g: Granularity, j: nat, k: nat)
    requires g.normal > 0 && g.runtime > 0 && Tiles(ps, top, g) && j < k < |ps|
    ensures ps[k].last < ps[j].base && Bottom(ps, top) <= ps[k].base <= ps[k].last < ps[j].last < top
    decreases |ps| - j
  {
    if j + 1 < k {
      TilesDescend(ps, top, g, j + 1, k);
    }
    TilesAbove(ps, top, g, k);
    TilesBelow(ps, top, g, j);
  }

  lemma {:induction false} TilesAbove(ps: seq<Placed>, top: int, g: Granularity, k: nat)
    requires g.normal > 0 && g.runtime > 0 && Tiles(ps, top, g) && k < |ps|
    ensures Bottom(ps, top) <= ps[k].base <= ps[k].last
    decreases |ps| - k
  {
    if k < |ps| - 1 {
      TilesAbove(ps, top, g, k + 1);
    }
  }

  lemma {:induction false} TilesBelow(ps: seq<Placed>, top: int, g: Granularity, k: nat)
    requires g.normal > 0 && g.runtime > 0 && Tiles(ps, top, g) && k < |ps|
    ensures ps[k].last < top
  {
    if k > 0 {
      TilesBelow(ps, top, g, k - 1);
    }
  }

  /** The first bin of a placement, and what is placed below it. */
  lemma PlaceFirst(info: seq<TypeInfo>, top: int, g: Granularity)
    requires GranularityOk(g) && !Stops(info) && info[0].pages > 0
    ensures var base := AlignDown(top - info[0].Size(), g.For(info[0].kind));
            var rest := Place(info[1..], base, g);
            && Place(info, top, g) == [Placed(info[0].kind, base, top - 1, info[0].pages)] + rest
            && Bottom(Place(info, top, g), top) == Bottom(rest, base) <= base < top
  {
    var base := AlignDown(top - info[0].Size(), g.For(info[0].kind));
    var rest := Place(info[1..], base, g);
    AlignDownIs(top - info[0].Size(), g.For(info[0].kind));
    PlacementTiles(info[1..], base, g);
    if rest != [] {
      TilesAbove(rest, base, g, 0);
    }
  }

  /** Every bin edge is a page boundary, except that the topmost bin ends where the range ends. */
  lemma TilesPageAligned(ps: seq<Placed>, top: int, g: Granularity, k: nat)
    requires GranularityOk(g) && Tiles(ps, top, g) && k < |ps|
    ensures Aligned(ps[k].base) && (k > 0 || Aligned(top) ==> Aligned(ps[k].last + 1))
  {
    GranularityPages(ps[k].base, ps[k].kind, g);
    if k > 0 {
      GranularityPages(ps[k - 1].base, ps[k - 1].kind, g);
    }
  }

  lemma GranularityPages(x: int, kind: nat, g: Granularity)
    requires GranularityOk(g) && x % g.For(kind) == 0
    ensures Aligned(x)
  {
    if g.For(kind) == g.runtime {
      DividesTransitive(x, g.normal, g.runtime);
    }
    DividesTransitive(x, 4096, g.normal);
  }

  lemma MultiplesApart(x: int, y: int, h: nat)
    requires h > 0 && x % h == 0 && y % h == 0 && y <= x < y + h
    ensures x == y
  {
    assert h * (x / h - y / h) == h * (x / h) - h * (y / h) == x - y;
    RemainderZero(h, x / h - y / h);
  }

  /** Types and pages determine a tiling: there is only one below a given end. */
  lemma {:induction false} TilesDetermined(ps: seq<Placed>, ps': seq<Placed>, top: int, g: Granularity, k: nat)
    requires g.normal > 0 && g.runtime > 0 && Tiles(ps, top, g) && Tiles(ps', top, g) && |ps| == |ps'|
    requires forall j :: 0 <= j < |ps| ==> ps[j].kind == ps'[j].kind && ps[j].pages == ps'[j].pages
    requires k < |ps|
    ensures ps[k] == ps'[k]
  {
    if k > 0 {
      TilesDetermined(ps, ps', top, g, k - 1);
    }
    var x, y := ps[k].base, ps'[k].base;
    if x >= y {
      MultiplesApart(x, y, g.For(ps[k].kind));
    } else {
      MultiplesApart(y, x, g.For(ps[k].kind));
    }
  }

  // ---------- from the list to the bins ----------

  /** Entry `k` asks for pages, and the list has not stopped before it. */
  ghost predicate Wants(info: seq<TypeInfo>, k: nat) {
    k < |info| && info[k].pages > 0 && forall j :: 0 <= j <= k ==> info[j].kind < EFI_MAX_MEMORY_TYPE
  }

  /** How many entries before `k` ask for pages. */
  ghost function WantedBefore(info: seq<TypeInfo>, k: nat): nat {
    if k == 0 then 0 else WantedBefore(info, k - 1) + if Wants(info, k - 1) then 1 else 0
  }

  lemma WantsRest(info: seq<TypeInfo>, k: nat)
    requires !Stops(info)
    ensures Wants(info, k + 1) <==> Wants(info[1..], k)
  {
    if Wants(info[1..], k) {
      assert forall j :: 0 < j <= k + 1 ==> info[j] == info[1..][j - 1];
    }
    if Wants(info, k + 1) {
      assert forall j :: 0 <= j <= k ==> info[1..][j] == info[j + 1];
    }
  }

  lemma {:induction false} WantedRest(info: seq<TypeInfo>, k: nat)
    requires !Stops(info)
    ensures WantedBefore(info, k + 1) == WantedBefore(info[1..], k) + if Wants(info, 0) then 1 else 0
  {
    if k > 0 {
      WantedRest(info, k - 1);
      WantsRest(info, k - 1);
    }
  }

  lemma {:induction false} WantedMonotone(info: seq<TypeInfo>, j: nat, k: nat)
    requires j <= k
    ensures WantedBefore(info, j) <= WantedBefore(info, k)
  {
    if j < k {
      WantedMonotone(info, j, k - 1);
    }
  }

  /** `p` is a bin for `entry`. */
  predicate BinFor(p: Placed, entry: TypeInfo) {
    p.kind == entry.kind && p.pages == entry.pages
  }

  /** Every entry that asks for pages gets a bin, in the order of the list. */
  lemma {:induction false} EntryPlaced(info: seq<TypeInfo>, top: int, g: Granularity, k: nat)
    requires g.normal > 0 && g.runtime > 0 && Wants(info, k)
    ensures var ps, j := Place(info, top, g), WantedBefore(info, k); j < |ps| && BinFor(ps[j], info[k])
    decreases |info|
  {
    assert info[0].kind < EFI_MAX_MEMORY_TYPE;
    if k > 0 {
      WantsRest(info, k - 1);
      WantedRest(info, k - 1);
      var base := AlignDown(top - info[0].Size(), g.For(info[0].kind));
      EntryPlaced(info[1..], if info[0].pages == 0 then top else base, g, k - 1);
    }
  }

  /** Every bin is for an entry that asks for pages. */
  lemma {:induction false} PlacedForEntry(info: seq<TypeInfo>, top: int, g: Granularity, j: nat) returns (k: nat)
    requires g.normal > 0 && g.runtime > 0 && j < |Place(info, top, g)|
    ensures Wants(info, k) && WantedBefore(info, k) == j && BinFor(Place(info, top, g)[j], info[k])
    decreases |info|
  {
    if info[0].pages > 0 && j == 0 {
      k := 0;
    } else {
      var base := AlignDown(top - info[0].Size(), g.For(info[0].kind));
      var skipped := info[0].pages == 0;
      var i := PlacedForEntry(info[1..], if skipped then top else base, g, if skipped then j else j - 1);
      WantsRest(info, i);
      WantedRest(info, i);
      k := i + 1;
    }
  }

  /** Masking with a granularity of 4 KiB or 64 KiB is taking the remainder; masking with the complement rounds down. */
  lemma MaskIsRemainder(x: bv64)
    ensures x & 0xFFF == x % 0x1000 && x & !0xFFF == x - x % 0x1000
    ensures x & 0xFFFF == x % 0x1_0000 && x & !0xFFFF == x - x % 0x1_0000
  {
  }
}
