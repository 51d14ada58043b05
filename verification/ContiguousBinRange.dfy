/** The size of the single block that is allocated for all bins when no range was handed over,
    and exactly when such a block passes the sizing check. */
module ContiguousBinRange {
  import opened MemoryMap
  import opened BinPlacement

  /** Bytes of all entries, without padding. */
  function RawTotal(info: seq<TypeInfo>): nat {
    if Stops(info) then 0 else info[0].Size() + RawTotal(info[1..])
  }

  /** Number of entries with pages. */
  function BinCount(info: seq<TypeInfo>): nat {
    if Stops(info) then 0 else (if info[0].pages > 0 then 1 else 0) + BinCount(info[1..])
  }

  /** The coarsest granularity among the entries with pages; the normal one if there are none. */
  function MaxGranularity(info: seq<TypeInfo>, g: Granularity): (h: nat)
    ensures h == g.normal || h == g.runtime
  {
    if Stops(info) then g.normal
    else
      var rest := MaxGranularity(info[1..], g);
      var own := g.For(info[0].kind);
      if info[0].pages > 0 && own > rest then own else rest
  }

  function AlignUp(x: nat, g: nat): int
    requires g > 0
  {
    AlignDown(x + g - 1, g)
  }

  /** The block to allocate, or zero when there is no bin. */
  function BlockSize(info: seq<TypeInfo>, g: Granularity): int
    requires GranularityOk(g)
  {
    var h := MaxGranularity(info, g);
    if RawTotal(info) == 0 then 0 else AlignUp(RawTotal(info) + BinCount(info) * h, h)
  }

  method ContiguousAllocSize(info: seq<TypeInfo>, g: Granularity) returns (size: int, any: bool)
    requires GranularityOk(g)
    ensures any == (RawTotal(info) > 0)
    ensures any ==> size == BlockSize(info, g)
  {
    var raw, count, h := 0, 0, g.normal;
    RuntimeIsCoarser(g);
    for k := 0 to |info|
      invariant h == g.normal || h == g.runtime
      invariant raw + RawTotal(info[k..]) == RawTotal(info)
      invariant count + BinCount(info[k..]) == BinCount(info)
      invariant Max(h, MaxGranularity(info[k..], g)) == MaxGranularity(info, g)
    {
      var entry := info[k];
      assert info[k..][1..] == info[k + 1..];
      if entry.kind >= EFI_MAX_MEMORY_TYPE {
        break;
      }
      if entry.pages == 0 {
        continue;
      }
      raw := raw + entry.Size();
      count := count + 1;
      h := Max(h, g.For(entry.kind));
    }
    if raw == 0 {
      return 0, false;
    }
    return AlignUp(raw + count * h, h), true;
  }

  function Max(x: nat, y: nat): nat {
    if x < y then y else x
  }

  lemma RuntimeIsCoarser(g: Granularity)
    requires GranularityOk(g)
    ensures g.normal <= g.runtime
  {
    var q := g.runtime / g.normal;
    assert g.runtime == g.normal * q;
    if q <= 0 {
      MultiplyMonotone(g.normal, q, 0);
      assert false;
    }
    MultiplyMonotone(g.normal, 1, q);
  }

  // ---------- enough ----------

  /** No entry before the end of the list is aligned more coarsely than `h`. */
  ghost predicate NoneCoarser(info: seq<TypeInfo>, g: Granularity, h: nat)
    requires g.normal > 0 && g.runtime > 0
    decreases |info|
  {
    Stops(info) || (h % g.For(info[0].kind) == 0 && NoneCoarser(info[1..], g, h))
  }

  /** One unit of `h` per entry with pages. */
  function Reserve(info: seq<TypeInfo>, h: nat): (n: nat)
    ensures n == BinCount(info) * h
  {
    if Stops(info) then 0
    else
      assert (BinCount(info[1..]) + 1) * h == BinCount(info[1..]) * h + h;
      (if info[0].pages > 0 then h else 0) + Reserve(info[1..], h)
  }

  lemma {:induction false} PaddingBound(info: seq<TypeInfo>, top: int, g: Granularity, h: nat)
    requires GranularityOk(g) && h > 0 && NoneCoarser(info, g, h)
    ensures TotalSize(info, top, g) <= RawTotal(info) + Reserve(info, h) + top - AlignDown(top, h)
    decreases |info|
  {
    AlignDownIs(top, h);
    if top == 0 {
      UnpaddedTotal(info, g);
    } else if !Stops(info) {
      var x, own := top - info[0].Size(), g.For(info[0].kind);
      AlignDownIs(x, h);
      AlignNested(x, own, h);
      PaddingBound(info[1..], AlignDown(x, own), g, h);
    }
  }

  lemma {:induction false} UnpaddedTotal(info: seq<TypeInfo>, g: Granularity)
    requires g.normal > 0 && g.runtime > 0
    ensures TotalSize(info, 0, g) == RawTotal(info)
  {
    if !Stops(info) {
      UnpaddedTotal(info[1..], g);
    }
  }

  /** A block of the computed size whose end is aligned passes the sizing check whenever no entry without
      pages is coarser than every entry with pages. */
  lemma BlockSuffices(info: seq<TypeInfo>, end: nat, g: Granularity)
    requires GranularityOk(g) && RawTotal(info) > 0
    requires end % MaxGranularity(info, g) == 0 && NoneCoarser(info, g, MaxGranularity(info, g))
    ensures TotalSize(info, end, g) <= BlockSize(info, g)
  {
    var h := MaxGranularity(info, g);
    PaddingBound(info, end, g, h);
    AlignDownIs(RawTotal(info) + BinCount(info) * h + h - 1, h);
  }

  // ---------- exactly when ----------

  lemma RemainderShift(x: int, k: int, h: nat)
    requires h > 0
    ensures (x + h * k) % h == x % h
  {
    var y := x + h * k;
    var d := x / h + k - y / h;
    assert h * d == h * (x / h) + h * k - h * (y / h) == y % h - x % h;
    if d > 0 {
      MultiplyMonotone(h, 1, d);
    } else if d < 0 {
      MultiplyMonotone(h, d, -1);
    }
  }

  /** Equal remainders stay equal under shifting and negation. */
  lemma Congruent(x: int, y: int, d: int, h: nat)
    requires h > 0 && x % h == y % h
    ensures (x + d) % h == (y + d) % h && (0 - x) % h == (0 - y) % h
  {
    var k := x / h - y / h;
    assert h * k == h * (x / h) - h * (y / h) == x - y;
    assert h * (-1 * k) == 0 - h * k;
    RemainderShift(y + d, k, h);
    RemainderShift(0 - y, -1 * k, h);
  }

  lemma RemainderTwice(x: int, h: nat)
    requires h > 0
    ensures (x % h) % h == x % h
  {
    RemainderShift(x % h, x / h, h);
  }

  lemma RemainderAligned(p: int, q: int, t: int, r: int)
    requires 4096 * p == (4096 * q) * t + r && 0 <= r < 4096 * q
    ensures Aligned(r) && r <= 4096 * q - 4096
  {
    assert (4096 * q) * t == 4096 * (q * t);
    assert r == 4096 * (p - q * t);
  }

  lemma AlignedRemainder(x: int, h: nat)
    requires h > 0 && Aligned(h) && Aligned(x)
    ensures Aligned(x % h) && x % h <= h - 4096
  {
    var p, q, t, r := x / 4096, h / 4096, x / h, x % h;
    assert x == h * t + r;
    RemainderAligned(p, q, t, r);
  }

  /** An entry without pages that is aligned to the runtime granularity. */
  predicate Coarse(entry: TypeInfo, g: Granularity) {
    entry.pages == 0 && g.For(entry.kind) == g.runtime
  }

  /** Padding before the coarse entries, when the list starts `offset` bytes below a coarse boundary. */
  function Waste(info: seq<TypeInfo>, offset: nat, g: Granularity): nat
    requires g.runtime > 0
  {
    if Stops(info) then 0
    else if Coarse(info[0], g) then (0 - offset) % g.runtime + Waste(info[1..], 0, g)
    else Waste(info[1..], offset + info[0].Size(), g)
  }

  /** The most padding any position of the block can cause: almost a whole unit before the first coarse
      entry, and what the sizes dictate before the later ones. */
  function WorstWaste(info: seq<TypeInfo>, g: Granularity): int
    requires g.runtime > 0
  {
    if Stops(info) then 0
    else if Coarse(info[0], g) then g.runtime - 4096 + Waste(info[1..], 0, g)
    else WorstWaste(info[1..], g)
  }

  /** Every entry with pages has the normal granularity. */
  ghost predicate BinsNormal(info: seq<TypeInfo>, g: Granularity) {
    Stops(info) || ((info[0].pages > 0 ==> g.For(info[0].kind) == g.normal) && BinsNormal(info[1..], g))
  }

  /** The normal granularity is one page. */
  ghost predicate PageGranularity(g: Granularity) {
    g.normal == 4096 && g.runtime > 0 && Aligned(g.runtime)
  }

  /** The sizes plus the padding before coarse entries. */
  function Needed(info: seq<TypeInfo>, offset: nat, g: Granularity): nat
    requires g.runtime > 0
  {
    RawTotal(info) + Waste(info, offset, g)
  }

  /** `top` lies `offset` bytes below a coarse boundary. */
  ghost predicate Below(top: int, offset: nat, g: Granularity)
    requires g.runtime > 0
  {
    Aligned(top) && Aligned(offset) && top % g.runtime == (0 - offset) % g.runtime
  }

  lemma CoarseStep(info: seq<TypeInfo>, top: int, offset: nat, g: Granularity) returns (next: int)
    requires PageGranularity(g) && !Stops(info) && Coarse(info[0], g) && top != 0 && Below(top, offset, g)
    ensures Below(next, 0, g)
    ensures TotalSize(info, top, g) - TotalSize(info[1..], next, g)
         == Needed(info, offset, g) - Needed(info[1..], 0, g) == top - next >= 0
  {
    next := AlignDown(top, g.runtime);
    AlignedRemainder(top, g.runtime);
    AlignedDifference(top, top % g.runtime);
    RemainderTwice(top, g.runtime);
    Congruent(top, top % g.runtime, 0 - top % g.runtime, g.runtime);
  }

  lemma NormalStep(info: seq<TypeInfo>, top: int, offset: nat, g: Granularity) returns (next: int)
    requires PageGranularity(g) && !Stops(info) && !Coarse(info[0], g) && Below(top, offset, g)
    requires g.For(info[0].kind) == g.normal && top != 0
    ensures next == top - info[0].Size() && Below(next, offset + info[0].Size(), g)
    ensures TotalSize(info, top, g) - TotalSize(info[1..], next, g)
         == Needed(info, offset, g) - Needed(info[1..], offset + info[0].Size(), g) == top - next >= 0
  {
    next := top - info[0].Size();
    AlignedDifference(top, info[0].Size());
    AlignedDifference(offset, 0 - info[0].Size());
    Congruent(top, 0 - offset, 0 - info[0].Size(), g.runtime);
    AlignedStays(next, g.For(info[0].kind));
  }

  lemma AlignedDifference(x: int, y: int)
    requires Aligned(x) && Aligned(y)
    ensures Aligned(x - y)
  {
    assert x - y == 4096 * (x / 4096 - y / 4096);
  }

  lemma AlignedStays(x: int, h: nat)
    requires h == 4096 && Aligned(x)
    ensures AlignDown(x, h) == x
  {
  }

  /** Without reaching address zero, sizing asks for exactly what is needed; at most that in any case. */
  lemma {:induction false} WasteSized(info: seq<TypeInfo>, top: int, offset: nat, g: Granularity)
    requires PageGranularity(g) && BinsNormal(info, g) && Below(top, offset, g)
    ensures TotalSize(info, top, g) <= Needed(info, offset, g)
    ensures Needed(info, offset, g) < top ==> TotalSize(info, top, g) == Needed(info, offset, g)
    decreases |info|
  {
    if top == 0 {
      UnpaddedTotal(info, g);
    } else if !Stops(info) {
      if Coarse(info[0], g) {
        var next := CoarseStep(info, top, offset, g);
        WasteSized(info[1..], next, 0, g);
      } else {
        var next := NormalStep(info, top, offset, g);
        WasteSized(info[1..], next, offset + info[0].Size(), g);
      }
    }
  }

  lemma PadBound(offset: nat, g: Granularity)
    requires PageGranularity(g) && Aligned(offset)
    ensures (0 - offset) % g.runtime <= g.runtime - 4096
  {
    AlignedDifference(0, offset);
    AlignedRemainder(0 - offset, g.runtime);
  }

  /** No position wastes more than the worst one. */
  lemma {:induction false} WasteBound(info: seq<TypeInfo>, offset: nat, g: Granularity)
    requires PageGranularity(g) && Aligned(offset)
    ensures Waste(info, offset, g) <= WorstWaste(info, g)
  {
    if !Stops(info) {
      if Coarse(info[0], g) {
        PadBound(offset, g);
      } else {
        WasteBound(info[1..], offset + info[0].Size(), g);
      }
    }
  }

  /** Only the position relative to the coarse boundary matters. */
  lemma {:induction false} WastePeriodic(info: seq<TypeInfo>, offset: nat, offset': nat, g: Granularity)
    requires g.runtime > 0 && offset % g.runtime == offset' % g.runtime
    ensures Waste(info, offset, g) == Waste(info, offset', g)
  {
    if !Stops(info) {
      Congruent(offset, offset', info[0].Size(), g.runtime);
      if !Coarse(info[0], g) {
        WastePeriodic(info[1..], offset + info[0].Size(), offset' + info[0].Size(), g);
      }
    }
  }

  lemma SmallRemainder(x: nat, h: nat)
    requires x < h
    ensures x % h == x
  {
  }

  lemma WorstPad(h: nat)
    requires h > 0 && Aligned(h)
    ensures (0 - 4096) % h == h - 4096
  {
    RemainderShift(-4096, 1, h);
    SmallRemainder(h - 4096, h);
  }

  /** The position `size` bytes before `rest`, up to whole coarse units. */
  lemma Before(rest: int, size: nat, g: Granularity) returns (offset: nat)
    requires PageGranularity(g) && Aligned(rest) && Aligned(size)
    ensures Aligned(offset) && offset < g.runtime && (offset + size) % g.runtime == rest % g.runtime
  {
    offset := (rest - size) % g.runtime;
    AlignedDifference(rest, size);
    AlignedRemainder(rest - size, g.runtime);
    RemainderTwice(rest - size, g.runtime);
    Congruent(offset, rest - size, size, g.runtime);
  }

  /** Some position within a coarse unit wastes as much as the worst one. */
  lemma {:induction false} WorstAttained(info: seq<TypeInfo>, g: Granularity) returns (offset: nat)
    requires PageGranularity(g)
    ensures Aligned(offset) && offset < g.runtime && Waste(info, offset, g) == WorstWaste(info, g)
  {
    if Stops(info) {
      offset := 0;
    } else if Coarse(info[0], g) {
      offset := Before(4096, 0, g);
      WorstPad(g.runtime);
      WastePeriodic(info, offset, 4096, g);
    } else {
      var rest := WorstAttained(info[1..], g);
      offset := Before(rest, info[0].Size(), g);
      WastePeriodic(info[1..], offset + info[0].Size(), rest, g);
    }
  }

  lemma {:induction false} NoneCoarserThanRuntime(info: seq<TypeInfo>, g: Granularity)
    requires GranularityOk(g)
    ensures NoneCoarser(info, g, g.runtime)
  {
    if !Stops(info) {
      NoneCoarserThanRuntime(info[1..], g);
    }
  }

  lemma {:induction false} NormalMaximum(info: seq<TypeInfo>, g: Granularity)
    requires g.normal < g.runtime && MaxGranularity(info, g) == g.normal
    ensures BinsNormal(info, g)
  {
    if !Stops(info) {
      NormalMaximum(info[1..], g);
    }
  }

  lemma {:induction false} RawAligned(info: seq<TypeInfo>)
    ensures Aligned(RawTotal(info))
  {
    if !Stops(info) {
      RawAligned(info[1..]);
    }
  }

  lemma PageBlockSize(info: seq<TypeInfo>, g: Granularity)
    requires GranularityOk(g) && MaxGranularity(info, g) == 4096 && RawTotal(info) > 0
    ensures BlockSize(info, g) == RawTotal(info) + BinCount(info) * 4096
  {
    RawAligned(info);
    RoundUpAligned(RawTotal(info) + BinCount(info) * 4096);
  }

  lemma RoundUpAligned(x: nat)
    requires Aligned(x)
    ensures AlignUp(x, 4096) == x
  {
    AlignDownIs(x + 4095, 4096);
  }

  /** Every page-aligned block fits if the worst one does. */
  lemma PageBlockFits(info: seq<TypeInfo>, end: nat, g: Granularity)
    requires PageGranularity(g) && BinsNormal(info, g) && Aligned(end)
    ensures TotalSize(info, end, g) <= RawTotal(info) + WorstWaste(info, g)
  {
    var offset := Before(0, end, g);
    Congruent(offset + end, 0, 0 - offset, g.runtime);
    WasteSized(info, end, offset, g);
    WasteBound(info, offset, g);
  }

  /** Some page-aligned block needs the worst padding, and its end is at most one coarse unit above what it needs. */
  lemma WorstBlock(info: seq<TypeInfo>, g: Granularity) returns (end: nat)
    requires PageGranularity(g) && BinsNormal(info, g)
    ensures Aligned(end) && TotalSize(info, end, g) == RawTotal(info) + WorstWaste(info, g)
    ensures TotalSize(info, end, g) < end <= TotalSize(info, end, g) + g.runtime
  {
    var offset := WorstAttained(info, g);
    end := EndAbove(Needed(info, offset, g), offset, g);
    WasteSized(info, end, offset, g);
  }

  /** The first address above `need` that lies `offset` bytes below a coarse boundary. */
  lemma EndAbove(need: nat, offset: nat, g: Granularity) returns (end: nat)
    requires PageGranularity(g) && Aligned(offset)
    ensures Below(end, offset, g) && need < end <= need + g.runtime
  {
    var q := (need + offset) / g.runtime;
    AlignDownIs(need + offset, g.runtime);
    var boundary := g.runtime * q + g.runtime;
    assert boundary == g.runtime * (q + 1);
    end := boundary - offset;
    RemainderShift(0 - offset, q + 1, g.runtime);
    DividesAligned(g.runtime, q + 1);
    AlignedDifference(boundary, offset);
  }

  lemma DividesAligned(h: nat, k: int)
    requires Aligned(h)
    ensures Aligned(h * k)
  {
    var p := h / 4096;
    assert h * k == (4096 * p) * k == 4096 * (p * k);
  }

  /** The bytes of the list, its worst padding and one coarse unit fit below the address limit. */
  predicate Addressable(info: seq<TypeInfo>, g: Granularity)
    requires g.runtime > 0
  {
    RawTotal(info) + WorstWaste(info, g) + g.runtime <= MAX_ALLOC_ADDRESS
  }

  /** Every list of the length and with the 32-bit page counts of the memory type information does. */
  lemma ListsAddressable(info: seq<TypeInfo>, g: Granularity)
    requires 0 < g.runtime <= 0x1_0000_0000 && |info| <= EFI_MAX_MEMORY_TYPE + 1
    requires forall k :: 0 <= k < |info| ==> info[k].pages < 0x1_0000_0000
    ensures Addressable(info, g)
  {
    RawTotalBound(info);
    WorstWasteBound(info, g);
  }

  lemma {:induction false} RawTotalBound(info: seq<TypeInfo>)
    requires forall k :: 0 <= k < |info| ==> info[k].pages < 0x1_0000_0000
    ensures RawTotal(info) <= 0x1000_0000_0000 * |info|
  {
    if !Stops(info) {
      RawTotalBound(info[1..]);
    }
  }

  lemma {:induction false} WorstWasteBound(info: seq<TypeInfo>, g: Granularity)
    requires 0 < g.runtime <= 0x1_0000_0000
    ensures WorstWaste(info, g) <= 0x1_0000_0000 * |info|
  {
    if !Stops(info) {
      WorstWasteBound(info[1..], g);
      WasteWithin(info[1..], 0, g);
    }
  }

  lemma {:induction false} WasteWithin(info: seq<TypeInfo>, offset: nat, g: Granularity)
    requires 0 < g.runtime <= 0x1_0000_0000
    ensures Waste(info, offset, g) <= 0x1_0000_0000 * |info|
  {
    if !Stops(info) {
      WasteWithin(info[1..], if Coarse(info[0], g) then 0 else offset + info[0].Size(), g);
    }
  }

  /** An aligned block of the computed size, ending at an address that initialization accepts. */
  predicate AcceptableEnd(info: seq<TypeInfo>, end: nat, g: Granularity)
    requires GranularityOk(g)
  {
    end % MaxGranularity(info, g) == 0 && BlockSize(info, g) <= end <= MAX_ALLOC_ADDRESS
  }

  /** Blocks of the computed size always pass the sizing check exactly if an entry with pages has the runtime
      granularity, or the worst padding before entries without pages is covered by one page per bin. */
  lemma BlockSufficesExactly(info: seq<TypeInfo>, g: Granularity)
    requires GranularityOk(g) && g.normal == 4096 && RawTotal(info) > 0 && Addressable(info, g)
    ensures (forall end: nat :: AcceptableEnd(info, end, g) ==> TotalSize(info, end, g) <= BlockSize(info, g))
       <==> MaxGranularity(info, g) == g.runtime || WorstWaste(info, g) <= BinCount(info) * 4096
  {
    if MaxGranularity(info, g) == g.runtime {
      NoneCoarserThanRuntime(info, g);
      forall end: nat | AcceptableEnd(info, end, g) ensures TotalSize(info, end, g) <= BlockSize(info, g) {
        BlockSuffices(info, end, g);
      }
    } else {
      RuntimeIsCoarser(g);
      NormalMaximum(info, g);
      PageBlockSize(info, g);
      DividesTransitive(g.runtime, 4096, g.runtime);
      forall end: nat | Aligned(end) ensures TotalSize(info, end, g) <= RawTotal(info) + WorstWaste(info, g) {
        PageBlockFits(info, end, g);
      }
      var end := WorstBlock(info, g);
      assert WorstWaste(info, g) > BinCount(info) * 4096 ==> AcceptableEnd(info, end, g);
    }
  }

  /** A block of the computed size that starts aligned is accepted, under the condition of BlockSuffices. */
  lemma AllocatedBlockAccepted(info: seq<TypeInfo>, start: nat, g: Granularity)
    requires GranularityOk(g) && RawTotal(info) > 0
    requires start % MaxGranularity(info, g) == 0 && NoneCoarser(info, g, MaxGranularity(info, g))
    ensures BlockSize(info, g) >= 0 && TotalSize(info, start + BlockSize(info, g), g) <= BlockSize(info, g)
  {
    var h := MaxGranularity(info, g);
    var padded := RawTotal(info) + BinCount(info) * h;
    AlignDownIs(padded + h - 1, h);
    var k := (padded + h - 1) / h;
    RemainderShift(start, k, h);
    BlockSuffices(info, start + BlockSize(info, g), g);
  }

  /** One page of loader code and an unused reserved entry: two pages can be too small on 64 KiB granularity. */
  lemma BlockCanBeTooSmall()
    ensures var g := Granularity(0x1000, 0x1_0000);
            var info := [TypeInfo(1, 1), TypeInfo(0, 0)];
            GranularityOk(g) && BlockSize(info, g) == 0x2000 && TotalSize(info, 0x2_0000, g) == 0x1_0000
  {
  }
}
