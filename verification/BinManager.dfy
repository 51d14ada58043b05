/** The memory bin manager object, each operation proved against its specification. */
module BinManager {
  import opened MemoryMap
  import opened BinOverlay
  import opened BinPlacement
  import opened MemoryBins
  import DescriptorBuffer

  class MemoryBinManager {
    const granularity: Granularity
    const statistics: array<Statistics>
    const information: array<nat>
    var initialized: bool

    ghost predicate Valid()
      reads this, statistics, information
    {
      && GranularityOk(granularity) && statistics as object != information
      && StateOk(Value())
      && (!initialized ==> Fresh(statistics[..]))
    }

    /** The state of the manager as a value. */
    ghost function Value(): State
      reads this, statistics, information
    {
      State(statistics[..], information[..], initialized)
    }

    constructor (g: Granularity)
      requires GranularityOk(g)
      ensures Valid() && !initialized && granularity == g
      ensures fresh(statistics) && fresh(information) && information[..] == seq(MAX_MEMORY_TYPE_INFO_ENTRIES, _ => 0)
    {
      granularity := g;
      statistics := new Statistics[EFI_MAX_MEMORY_TYPE](kind => DefaultStatistics(kind));
      information := new nat[MAX_MEMORY_TYPE_INFO_ENTRIES](_ => 0);
      initialized := false;
    }

    /** Divides the range into bins, or rejects it. */
    method InitializeFromRange(start: nat, length: nat, info: seq<TypeInfo>) returns (ok: bool)
      requires Valid()
      modifies this, statistics
      ensures Valid()
      ensures ok == (&& !old(initialized) && start + length <= MAX_ALLOC_ADDRESS
                     && TotalSize(info, start + length, granularity) <= length)
      ensures !ok ==> Value() == old(Value())
      ensures ok ==> Value() == State(
                       Initialized(old(statistics[..]), info, start + length, granularity), old(information[..]), true)
      ensures ok ==> BinsAsListed(statistics[..], info)
      ensures ok ==> (BinsOk(Bins()) <==>
                        Aligned(start + length) || !TopBinKept(Place(info, start + length, granularity)))
    {
      if initialized {
        return false;
      }
      var end := start + length;
      if end > MAX_ALLOC_ADDRESS {
        return false;
      }
      var needed := CalculateTotalBinSize(info, end, granularity);
      if needed > length {
        return false;
      }
      InitializedState(statistics[..], information[..], info, end, granularity);
      InitializedBinsOk(statistics[..], info, start, end, granularity);
      InitializedAsListed(statistics[..], info, start, end, granularity);
      PlaceBins(start, end, info);
      FinalizeInformationIndex(info);
      initialized := true;
      return true;
    }

    /** Carves the bins from the top of the range downward. */
    method PlaceBins(start: nat, end: nat, info: seq<TypeInfo>)
      requires GranularityOk(granularity) && statistics.Length == EFI_MAX_MEMORY_TYPE
      requires start <= end && TotalSize(info, end, granularity) <= end - start
      modifies statistics
      ensures statistics[..] == Recorded(old(statistics[..]), Place(info, end, granularity))
    {
      SizedPlacementStaysInside(info, end, end, end - start, granularity);
      var top := end;
      for k := 0 to |info|
        invariant Recorded(statistics[..], Place(info[k..], top, granularity))
                    == Recorded(old(statistics[..]), Place(info, end, granularity))
        invariant start <= Bottom(Place(info[k..], top, granularity), top)
      {
        var entry := info[k];
        assert info[k..][1..] == info[k + 1..];
        if entry.kind >= EFI_MAX_MEMORY_TYPE {
          break;
        }
        if entry.pages == 0 {
          continue;
        }
        PlaceFirst(info[k..], top, granularity);
        var last := top - 1;
        var base := AlignDown(top - entry.Size(), granularity.For(entry.kind));
        statistics[entry.kind] := statistics[entry.kind].(base := base, last := last, pages := entry.pages);
        top := base;
      }
    }

    method FinalizeInformationIndex(info: seq<TypeInfo>)
      requires statistics.Length == EFI_MAX_MEMORY_TYPE
      modifies statistics
      ensures statistics[..] == Indexed(old(statistics[..]), info)
    {
      for k := 0 to |info|
        invariant statistics[..] == Indexed(old(statistics[..]), info[..k])
      {
        var entry := info[k];
        assert info[..k + 1] == info[..k] + [entry];
        forall kind: nat
          ensures Listed(info[..k + 1], kind) <==> Listed(info[..k], kind) || (entry.kind == kind && entry.pages > 0)
        {
          ListedExtends(info[..k], entry, kind);
        }
        if entry.kind < EFI_MAX_MEMORY_TYPE && entry.pages > 0 {
          statistics[entry.kind] := statistics[entry.kind].(index := entry.kind);
        }
      }
      assert info[..|info|] == info;
    }

    /** The active bins of special types. */
    ghost function Bins(): seq<Bin>
      reads statistics
    {
      SpecialBins(statistics[..], 0)
    }

    /** Slack that callers of ApplyBinDescriptors reserve: two descriptors per active special bin. */
    method MaxAdditionalDescriptors() returns (n: nat)
      ensures n == if initialized then 2 * |Bins()| else 0
    {
      if !initialized {
        return 0;
      }
      n := 0;
      for kind := 0 to statistics.Length
        invariant n + |SpecialBins(statistics[..], kind)| == |Bins()|
      {
        if statistics[kind].pages > 0 && statistics[kind].special {
          n := n + 1;
        }
      }
      n := n * 2;
    }

    /** Rewrites the map in `buffer[..count]` so that free memory inside a bin has the bin's type. */
    method ApplyBinDescriptors(buffer: array<Descriptor>, count: nat) returns (n: nat)
      requires count <= buffer.Length && MemoryMap.Valid(buffer[..count]) && (initialized ==> BinsOk(Bins()))
      modifies buffer
      ensures !initialized ==> n == count && buffer[..] == old(buffer[..])
      ensures n <= buffer.Length
      ensures initialized ==> buffer[..n] == ApplyBins(old(buffer[..count]), Bins(), buffer.Length).m
      ensures initialized ==> MemoryMap.Valid(buffer[..n]) && Normal(buffer[..n])
      ensures initialized && count + 2 * |Bins()| <= buffer.Length ==>
                n <= count + 2 * |Bins()| && forall a :: At(buffer[..n], a) == Overlay(old(buffer[..count]), Bins(), a)
    {
      if !initialized {
        return count;
      }
      ghost var m, bins := buffer[..count], Bins();
      ApplyBinsNormal(m, bins, buffer.Length);
      ApplyBinsSize(m, bins, buffer.Length);
      if ApplyBins(m, bins, buffer.Length).fitted {
        forall a ensures At(ApplyBins(m, bins, buffer.Length).m, a) == Overlay(m, bins, a) {
          ApplyBinsExact(m, bins, buffer.Length, a);
        }
      }
      n := ApplyFrom(buffer, count);
    }

    method ApplyFrom(buffer: array<Descriptor>, count: nat) returns (n: nat)
      requires count <= buffer.Length && MemoryMap.Valid(buffer[..count]) && BinsOk(Bins())
      modifies buffer
      ensures n <= buffer.Length
      ensures buffer[..n] == ApplyBins(old(buffer[..count]), Bins(), buffer.Length).m
    {
      n := count;
      ghost var rest := Bins();
      ghost var stats := statistics[..];
      for kind := 0 to statistics.Length
        invariant statistics[..] == stats && n <= buffer.Length && MemoryMap.Valid(buffer[..n])
        invariant rest == SpecialBins(stats, kind) && BinsOk(rest)
        invariant ApplyBins(buffer[..n], rest, buffer.Length)
                    == ApplyBins(old(buffer[..count]), old(Bins()), buffer.Length)
      {
        var s := statistics[kind];
        if s.special && s.pages > 0 {
          var b := Bin(kind, s.runtime, s.base, s.last);
          assert rest[0] == b && rest[1..] == SpecialBins(stats, kind + 1);
          ghost var m := buffer[..n];
          ApplyBinNormal(m, b, buffer.Length);
          var fitted;
          n, fitted := DescriptorBuffer.ApplyOneBin(buffer, n, b);
          if !fitted {
            return;
          }
          rest := rest[1..];
        }
      }
      n := DescriptorBuffer.MergeDescriptors(buffer, n);
    }

    /** Counts an allocation made before the bins existed; the published count follows the current one. */
    method SeedStatisticsFromHob(kind: nat, pages: nat)
      requires Valid()
      modifies statistics, information
      ensures Valid() && Value() == Seeded(old(Value()), kind, pages, granularity) && Bins() == old(Bins())
    {
      if !initialized || kind >= statistics.Length || !statistics[kind].special {
        return;
      }
      var aligned := Rounded(pages, granularity.For(kind));
      SpecialBinsSame(statistics[..], kind, statistics[kind].current + aligned, 0);
      statistics[kind] := statistics[kind].(current := statistics[kind].current + aligned);
      information[kind] := Truncated(statistics[kind].current);
    }

    /** Counts an allocation and raises the published count to a new peak. */
    method RecordAllocation(kind: nat, pages: nat)
      requires Valid()
      modifies statistics, information
      ensures Valid() && Value() == Allocated(old(Value()), kind, pages, granularity) && Bins() == old(Bins())
    {
      if !initialized || kind >= statistics.Length || !statistics[kind].special {
        return;
      }
      var aligned := Rounded(pages, granularity.For(kind));
      SpecialBinsSame(statistics[..], kind, statistics[kind].current + aligned, 0);
      statistics[kind] := statistics[kind].(current := statistics[kind].current + aligned);
      var current, index := statistics[kind].current, statistics[kind].index;
      if index < information.Length && current > information[index] {
        information[index] := Truncated(current);
      }
    }

    /** Counts a release, never below zero. */
    method RecordFree(kind: nat, pages: nat)
      requires Valid()
      modifies statistics
      ensures Valid() && Value() == Released(old(Value()), kind, pages, granularity) && Bins() == old(Bins())
    {
      if !initialized || kind >= statistics.Length || !statistics[kind].special {
        return;
      }
      var aligned, before := Rounded(pages, granularity.For(kind)), statistics[kind].current;
      SpecialBinsSame(statistics[..], kind, if aligned <= before then before - aligned else 0, 0);
      statistics[kind] := statistics[kind].(current := if aligned <= before then before - aligned else 0);
    }
  }
}
