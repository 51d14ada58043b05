/** GetMemoryMap: sizing of the caller's buffer, the map filled in by the GCD, and the bin overlay. */
module MemoryMapService {
  import opened MemoryMap
  import opened BinOverlay
  import opened BinManager

  datatype Status = Success | NotFound | BufferTooSmall | InvalidParameter | GcdError

  /** What the GCD writes into the buffer. */
  datatype Filled = Filled(m: Map) | Failed

  /** The GCD fills a well-formed map of at most the advertised number of descriptors. */
  ghost predicate GcdKeepsPromise(advertised: nat, filled: Filled) {
    filled.Filled? ==> Valid(filled.m) && |filled.m| <= advertised
  }

  /** What GetMemoryMap answers, by the bytes required and the caller's buffer. */
  function Answer(required: nat, mapSize: nat, isNull: bool, filled: Filled): Status {
    if required == 0 then NotFound
    else if mapSize < required then BufferTooSmall
    else if isNull then InvalidParameter
    else if filled.Failed? then GcdError
    else Success
  }

  /** The descriptors that the caller must have room for. */
  ghost function Advertised(bins: MemoryBinManager, advertised: nat): nat
    reads bins, bins.statistics
  {
    advertised + if bins.initialized then 2 * |bins.Bins()| else 0
  }

  /** `r` means what the filled map means after the overlay. */
  ghost predicate Reports(r: Map, bins: MemoryBinManager, m: Map)
    reads bins, bins.statistics
  {
    Valid(r) && forall a :: At(r, a) == if bins.initialized then Overlay(m, bins.Bins(), a) else At(m, a)
  }

  /** `buffer` is the caller's memory for `mapSize` bytes, or null; a descriptor takes 40 bytes.  On return `size` is
      what is written back, and on success the map is in the first `count` descriptors. */
  method GetMemoryMap(bins: MemoryBinManager, mapSize: nat, buffer: array?<Descriptor>, advertised: nat, filled: Filled)
    returns (status: Status, size: nat, count: nat)
    requires GcdKeepsPromise(advertised, filled) && (bins.initialized ==> BinsOk(bins.Bins()))
    requires buffer != null ==> buffer.Length == mapSize / 40
    modifies buffer
    ensures status == Answer(Advertised(bins, advertised) * 40, mapSize, buffer == null, filled)
    ensures size == match status
                    case NotFound => mapSize
                    case Success => count * 40
                    case _ => Advertised(bins, advertised) * 40
    ensures status == Success ==>
              && count <= Advertised(bins, advertised) && count <= buffer.Length
              && Reports(buffer[..count], bins, filled.m)
    ensures status != Success && status != GcdError && buffer != null ==> buffer[..] == old(buffer[..])
  {
    count := 0;
    var extra := bins.MaxAdditionalDescriptors();
    var total := advertised + extra;
    var required := total * 40;
    if required == 0 {
      return NotFound, mapSize, 0;
    }
    if mapSize < required {
      return BufferTooSmall, required, 0;
    }
    if buffer == null {
      return InvalidParameter, required, 0;
    }
    if filled.Failed? {
      return GcdError, required, 0;
    }
    count := FillAndOverlay(bins, buffer, advertised, filled.m);
    size := count * 40;
    status := Success;
  }

  method FillAndOverlay(bins: MemoryBinManager, buffer: array<Descriptor>, advertised: nat, m: Map) returns (count: nat)
    requires Valid(m) && |m| <= advertised && Advertised(bins, advertised) <= buffer.Length
    requires bins.initialized ==> BinsOk(bins.Bins())
    modifies buffer
    ensures count <= Advertised(bins, advertised) && Reports(buffer[..count], bins, m)
  {
    count := |m|;
    forall k | 0 <= k < count {
      buffer[k] := m[k];
    }
    assert buffer[..count] == m;
    count := bins.ApplyBinDescriptors(buffer, count);
  }

  /** Asking for the size and then passing a buffer of that size succeeds whenever there is a map, as long as the memory
      map does not change in between. */
  method FetchMemoryMap(bins: MemoryBinManager, advertised: nat, filled: Filled) returns (status: Status, m: Map)
    requires GcdKeepsPromise(advertised, filled) && (bins.initialized ==> BinsOk(bins.Bins()))
    ensures status == if Advertised(bins, advertised) == 0 then NotFound
                      else if filled.Failed? then GcdError else Success
    ensures status == Success ==> Reports(m, bins, filled.m) && |m| <= Advertised(bins, advertised)
  {
    var size, count;
    status, size, count := GetMemoryMap(bins, 0, null, advertised, filled);
    m := [];
    if status == BufferTooSmall {
      var buffer := new Descriptor[size / 40](_ => Descriptor(0, 0, 0, Attributes(false, 0)));
      status, size, count := GetMemoryMap(bins, size, buffer, advertised, filled);
      if status == Success {
        m := buffer[..count];
      }
    }
  }
}
