/** The in-place rewriting of a descriptor buffer: merging, inserting, splitting at a bin,
    and the restart loop for one bin. */
module DescriptorBuffer {
  import opened MemoryMap
  import opened BinOverlay

  /** Merges consecutive descriptors with the same type and attributes; the live part becomes `Merged`. */
  method MergeDescriptors(buffer: array<Descriptor>, count: nat) returns (n: nat)
    requires count <= buffer.Length
    modifies buffer
    ensures n <= count
    ensures buffer[..n] == Merged(old(buffer[..count]))
    ensures buffer[count..] == old(buffer[count..])
  {
    if count <= 1 {
      return count;
    }
    ghost var was, merged := buffer[..], [buffer[0]];
    MergedNext(was, 0);
    var write := 0;
    for read := 1 to count
      invariant write < read && merged == Merged(was[..read]) && |merged| == write + 1
      invariant forall k :: 0 <= k <= write ==> buffer[k] == merged[k]
      invariant forall k :: read <= k < buffer.Length ==> buffer[k] == was[k]
    {
      MergedNext(was, read);
      write := MergeEntry(buffer, write, read, merged);
      merged := MergeOnto(merged, was[read]);
    }
    assert was[..count] == old(buffer[..count]) && buffer[..write + 1] == merged;
    return write + 1;
  }

  /** Merges entry `read` into entry `write`, or moves it behind. */
  method MergeEntry(buffer: array<Descriptor>, write: nat, read: nat, ghost merged: Map) returns (write': nat)
    requires write < read < buffer.Length && |merged| == write + 1
    requires forall k :: 0 <= k <= write ==> buffer[k] == merged[k]
    modifies buffer
    ensures var next := MergeOnto(merged, old(buffer[read]));
            write' <= read && |next| == write' + 1 && forall k :: 0 <= k <= write' ==> buffer[k] == next[k]
    ensures forall k :: read < k < buffer.Length ==> buffer[k] == old(buffer[k])
  {
    var w, r := buffer[write], buffer[read];
    if r.kind == w.kind && r.attrs == w.attrs && r.start == w.start + PagesToSize(w.pages) {
      buffer[write] := w.(pages := w.pages + r.pages);
      return write;
    }
    write' := write + 1;
    if write' != read {
      buffer[write'] := r;
    }
  }

  lemma MergedNext(m: Map, k: nat)
    requires k < |m|
    ensures Merged(m[..k + 1]) == MergeOnto(Merged(m[..k]), m[k])
  {
    assert m[..k + 1][..k] == m[..k];
  }

  /** Shifts the entries after `after` right by one and duplicates entry `after`. */
  method InsertDescriptorAfter(buffer: array<Descriptor>, count: nat, after: nat) returns (n: nat)
    requires after < count < buffer.Length
    modifies buffer
    ensures n == count + 1
    ensures forall k :: 0 <= k <= after || n <= k < buffer.Length ==> buffer[k] == old(buffer[k])
    ensures forall k :: after < k < n ==> buffer[k] == old(buffer[k - 1])
  {
    forall k | after + 2 <= k <= count {
      buffer[k] := buffer[k - 1];
    }
    buffer[after + 1] := buffer[after];
    return count + 1;
  }

  /** `buffer[..n]` is `was` with entry `i` replaced by `ps`. */
  ghost predicate Spliced(buffer: array<Descriptor>, n: nat, was: Map, i: nat, ps: Map)
    reads buffer
  {
    && i < |was| && n == |was| + |ps| - 1 <= buffer.Length
    && (forall k :: 0 <= k < i ==> buffer[k] == was[k])
    && (forall k :: 0 <= k < |ps| ==> buffer[i + k] == ps[k])
    && (forall k :: i + |ps| <= k < n ==> buffer[k] == was[k - |ps| + 1])
  }

  lemma SplicedIsSplit(buffer: array<Descriptor>, n: nat, was: Map, i: nat, b: Bin)
    requires b.base <= b.last && i < |was| && Hit(was[i], b) && Spliced(buffer, n, was, i, Pieces(was[i], b))
    ensures buffer[..n] == Split(was, i, b)
  {
  }

  lemma PiecesBefore(d: Descriptor, b: Bin)
    requires Hit(d, b) && b.base <= b.last && d.start < b.base
    ensures var ps := Pieces(d, b);
            var inside := Retype(
              d.(start := b.base, pages := SizeToPages(d.End() - 1 - b.base + 1)), b.kind, b.runtime);
            && ps[0] == d.(pages := SizeToPages(b.base - d.start))
            && (if d.End() - 1 > b.last then
                  && |ps| == 3 && ps[1] == inside.(pages := SizeToPages(b.last - b.base + 1))
                  && ps[2] == Retype(
                       ps[1].(start := b.last + 1, pages := SizeToPages(d.End() - 1 - b.last)),
                       CONVENTIONAL_MEMORY, false)
                else |ps| == 2 && ps[1] == inside)
  {
  }

  /** The entry starts before the bin: it keeps the part before the bin, new entries take the rest. */
  method SplitBefore(buffer: array<Descriptor>, count: nat, i: nat, b: Bin) returns (n: nat, fitted: bool)
    requires i < count <= buffer.Length && b.base <= b.last && Hit(buffer[i], b) && buffer[i].start < b.base
    modifies buffer
    ensures fitted == (count + |Pieces(old(buffer[i]), b)| - 1 <= buffer.Length)
    ensures fitted ==> Spliced(buffer, n, old(buffer[..count]), i, Pieces(old(buffer[i]), b))
    ensures !fitted ==> n == count && buffer[..] == old(buffer[..])
  {
    ghost var was := buffer[..count];
    var entry := buffer[i];
    var entryLast := entry.End() - 1;
    ghost var ps := Pieces(entry, b);
    PiecesBefore(entry, b);
    var extra := if entryLast > b.last then 2 else 1;
    if count + extra > buffer.Length {
      return count, false;
    }
    fitted := true;
    n := CutAtStart(buffer, count, i, b, entryLast);
    assert forall k :: i + 2 <= k < n ==> buffer[k] == was[k - 1];
    if entryLast > b.last {
      n := CutAtEnd(buffer, n, i + 1, b, entryLast);
      assert ps == [buffer[i], buffer[i + 1], buffer[i + 2]];
      assert forall k :: i + 3 <= k < n ==> buffer[k] == was[k - 2];
    } else {
      assert ps == [buffer[i], buffer[i + 1]];
    }
  }

  /** Entry `i` starts before the bin and ends at `entryLast`: it keeps the part before the bin, a new entry of the
      bin's type takes the rest. */
  method CutAtStart(buffer: array<Descriptor>, count: nat, i: nat, b: Bin, entryLast: nat) returns (n: nat)
    requires i < count < buffer.Length && buffer[i].start < b.base <= entryLast
    modifies buffer
    ensures n == count + 1 && buffer[i] == old(buffer[i]).(pages := SizeToPages(b.base - old(buffer[i]).start))
    ensures buffer[i + 1] == Retype(
              old(buffer[i]).(start := b.base, pages := SizeToPages(entryLast - b.base + 1)), b.kind, b.runtime)
    ensures forall k :: 0 <= k < i ==> buffer[k] == old(buffer[k])
    ensures forall k :: i + 2 <= k < n ==> buffer[k] == old(buffer[k - 1])
  {
    buffer[i] := buffer[i].(pages := SizeToPages(b.base - buffer[i].start));
    n := InsertDescriptorAfter(buffer, count, i);
    buffer[i + 1] := Retype(
      buffer[i + 1].(start := b.base, pages := SizeToPages(entryLast - b.base + 1)), b.kind, b.runtime);
  }

  /** Entry `i` covers the bin and runs on to `entryLast`: it keeps the bin, a new free entry takes the rest. */
  method CutAtEnd(buffer: array<Descriptor>, count: nat, i: nat, b: Bin, entryLast: nat) returns (n: nat)
    requires i < count < buffer.Length && b.base <= b.last < entryLast
    modifies buffer
    ensures n == count + 1 && buffer[i] == old(buffer[i]).(pages := SizeToPages(b.last - b.base + 1))
    ensures buffer[i + 1] == Retype(
              buffer[i].(start := b.last + 1, pages := SizeToPages(entryLast - b.last)), CONVENTIONAL_MEMORY, false)
    ensures forall k :: 0 <= k < i ==> buffer[k] == old(buffer[k])
    ensures forall k :: i + 2 <= k < n ==> buffer[k] == old(buffer[k - 1])
  {
    buffer[i] := buffer[i].(pages := SizeToPages(b.last - b.base + 1));
    n := InsertDescriptorAfter(buffer, count, i);
    buffer[i + 1] := Retype(
      buffer[i + 1].(start := b.last + 1, pages := SizeToPages(entryLast - b.last)), CONVENTIONAL_MEMORY, false);
  }

  /** The entry starts in the bin and ends after it: it keeps the part in the bin. */
  method SplitAfter(buffer: array<Descriptor>, count: nat, i: nat, b: Bin) returns (n: nat, fitted: bool)
    requires i < count <= buffer.Length && Hit(buffer[i], b)
    requires b.base <= buffer[i].start && b.last < buffer[i].End() - 1
    modifies buffer
    ensures fitted == (count + |Pieces(old(buffer[i]), b)| - 1 <= buffer.Length)
    ensures fitted ==> Spliced(buffer, n, old(buffer[..count]), i, Pieces(old(buffer[i]), b))
    ensures !fitted ==> n == count && buffer[..] == old(buffer[..])
  {
    var entry := buffer[i];
    var entryLast := entry.End() - 1;
    if count + 1 > buffer.Length {
      return count, false;
    }
    fitted := true;
    buffer[i] := Retype(entry.(pages := SizeToPages(b.last - entry.start + 1)), b.kind, b.runtime);
    n := InsertDescriptorAfter(buffer, count, i);
    buffer[i + 1] := Retype(
      buffer[i + 1].(start := b.last + 1, pages := SizeToPages(entryLast - b.last)), CONVENTIONAL_MEMORY, false);
    assert Pieces(entry, b) == [buffer[i], buffer[i + 1]];
  }

  /** Splits the hit entry `i` at the edges of the bin, or gives up before any change if the buffer is too small. */
  method SplitEntry(buffer: array<Descriptor>, count: nat, i: nat, b: Bin) returns (n: nat, fitted: bool)
    requires i < count <= buffer.Length && b.base <= b.last && Hit(buffer[i], b)
    modifies buffer
    ensures fitted == (count + |Pieces(old(buffer[i]), b)| - 1 <= buffer.Length)
    ensures n <= buffer.Length
    ensures buffer[..n] == if fitted then Split(old(buffer[..count]), i, b) else old(buffer[..count])
  {
    ghost var was := buffer[..count];
    var entry := buffer[i];
    if b.base <= entry.start && entry.End() - 1 <= b.last {
      buffer[i] := Retype(entry, b.kind, b.runtime);
      n, fitted := count, true;
    } else if entry.start < b.base {
      n, fitted := SplitBefore(buffer, count, i, b);
    } else {
      n, fitted := SplitAfter(buffer, count, i, b);
    }
    if fitted {
      SplicedIsSplit(buffer, n, was, i, b);
    }
  }

  /** The first free entry that overlaps the bin. */
  method FindHit(buffer: array<Descriptor>, count: nat, b: Bin) returns (i: nat)
    requires count <= buffer.Length
    ensures i == FirstHit(buffer[..count], b)
  {
    for k := 0 to count
      invariant forall j :: 0 <= j < k ==> !Hit(buffer[..count][j], b)
    {
      if Hit(buffer[k], b) {
        return k;
      }
    }
    return count;
  }

  /** Applies one bin, restarting after every modification. */
  method ApplyOneBin(buffer: array<Descriptor>, count: nat, b: Bin) returns (n: nat, fitted: bool)
    requires count <= buffer.Length && Valid(buffer[..count]) && BinOk(b)
    modifies buffer
    ensures n <= buffer.Length
    ensures Applied(buffer[..n], fitted) == ApplyBin(old(buffer[..count]), b, buffer.Length)
  {
    n, fitted := count, true;
    ghost var m := buffer[..n];
    while true
      invariant n <= buffer.Length && m == buffer[..n] && Valid(m)
      invariant ApplyBin(m, b, buffer.Length) == ApplyBin(old(buffer[..count]), b, buffer.Length)
      decreases FreeIn(m, b)
    {
      n := MergeDescriptors(buffer, n);
      ghost var g := buffer[..n];
      assert g == Merged(m);
      var i := FindHit(buffer, n, b);
      if i == n {
        return;
      }
      n, fitted := SplitEntry(buffer, n, i, b);
      if !fitted {
        return;
      }
      MergedValid(m);
      MergedFreeIn(m, b);
      SplitValid(g, i, b);
      SplitFreeIn(g, i, b);
      m := buffer[..n];
    }
  }
}
