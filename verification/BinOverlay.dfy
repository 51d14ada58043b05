/** The overlay of memory bins on a memory map: free pages inside a bin are reported with the
    bin's type.  The functions below are the specification of the in-place rewriting in
    module DescriptorBuffer; the lemmas give their meaning address by address. */
module BinOverlay {
  import opened MemoryMap

  /** An active bin of a special type; `last` is its highest address. */
  datatype Bin = Bin(kind: nat, runtime: bool, base: nat, last: nat) {
    predicate Contains(a: int) {
      base <= a <= last
    }
  }

  ghost predicate BinOk(b: Bin) {
    && Aligned(b.base) && Aligned(b.last + 1) && b.base <= b.last
    && b.kind != CONVENTIONAL_MEMORY
  }

  predicate Apart(b: Bin, c: Bin) {
    b.last < c.base || c.last < b.base
  }

  ghost predicate BinsOk(bins: seq<Bin>) {
    && (forall i :: 0 <= i < |bins| ==> BinOk(bins[i]))
    && (forall i, j :: 0 <= i < j < |bins| ==> Apart(bins[i], bins[j]))
  }

  // ---------- one split ----------

  /** Sets the type and the runtime bit of a descriptor. */
  function Retype(d: Descriptor, kind: nat, runtime: bool): Descriptor {
    d.(kind := kind, attrs := d.attrs.(runtime := runtime))
  }

  /** A free descriptor that shares an address with the bin. */
  predicate Hit(d: Descriptor, b: Bin) {
    d.kind == CONVENTIONAL_MEMORY && d.pages > 0 && d.start <= b.last && b.base <= d.End() - 1
  }

  /** What a hit descriptor is replaced with: the part before the bin, the part in the bin, the part after it. */
  function Pieces(d: Descriptor, b: Bin): (ps: Map)
    requires Hit(d, b) && b.base <= b.last
    ensures 1 <= |ps| <= 3
  {
    var last := d.End() - 1;
    if b.base <= d.start && last <= b.last then
      [Retype(d, b.kind, b.runtime)]
    else if d.start < b.base then
      var before := d.(pages := SizeToPages(b.base - d.start));
      var inside := Retype(d.(start := b.base, pages := SizeToPages(last - b.base + 1)), b.kind, b.runtime);
      if last > b.last then
        var inside' := inside.(pages := SizeToPages(b.last - b.base + 1));
        [before, inside',
         Retype(inside'.(start := b.last + 1, pages := SizeToPages(last - b.last)), CONVENTIONAL_MEMORY, false)]
      else
        [before, inside]
    else
      var inside := Retype(d.(pages := SizeToPages(b.last - d.start + 1)), b.kind, b.runtime);
      [inside, Retype(inside.(start := b.last + 1, pages := SizeToPages(last - b.last)), CONVENTIONAL_MEMORY, false)]
  }

  /** Index of the first hit, or the length of the map. */
  function FirstHit(m: Map, b: Bin): (i: nat)
    ensures i <= |m|
    ensures forall j :: 0 <= j < i ==> !Hit(m[j], b)
    ensures i < |m| ==> Hit(m[i], b)
  {
    if m == [] then 0
    else if Hit(m[0], b) then 0
    else 1 + FirstHit(m[1..], b)
  }

  function Split(m: Map, i: nat, b: Bin): Map
    requires i < |m| && Hit(m[i], b) && b.base <= b.last
  {
    m[..i] + Pieces(m[i], b) + m[i + 1..]
  }

  /** The pieces of `d` at an address of `d`. */
  function PieceContent(d: Descriptor, b: Bin, a: int): Cell {
    if b.Contains(a) then Mapped(b.kind, d.attrs.(runtime := b.runtime))
    else if a > b.last then Mapped(CONVENTIONAL_MEMORY, d.attrs.(runtime := false))
    else d.Content()
  }

  lemma SizeBetween(x: nat, y: nat)
    requires x <= y && Aligned(x) && Aligned(y)
    ensures PagesToSize(SizeToPages(y - x)) == y - x
  {
  }

  lemma EndAligned(d: Descriptor)
    requires Aligned(d.start)
    ensures Aligned(d.End())
  {
    assert d.End() == 4096 * (d.start / 4096 + d.pages);
  }

  /** The pieces, with their ends. */
  lemma PiecesShape(d: Descriptor, b: Bin)
    requires Hit(d, b) && BinOk(b) && Aligned(d.start)
    ensures var ps := Pieces(d, b);
            var inside := Mapped(b.kind, d.attrs.(runtime := b.runtime));
            var after := Mapped(CONVENTIONAL_MEMORY, d.attrs.(runtime := false));
            if d.start < b.base then
              && |ps| == (if b.last + 1 < d.End() then 3 else 2)
              && ps[0].start == d.start && ps[0].End() == b.base && ps[0].Content() == d.Content()
              && ps[1].start == b.base && ps[1].Content() == inside
              && (if |ps| == 3 then
                    ps[1].End() == b.last + 1 == ps[2].start && ps[2].End() == d.End() && ps[2].Content() == after
                  else ps[1].End() == d.End())
            else
              && |ps| == (if b.last + 1 < d.End() then 2 else 1)
              && ps[0].start == d.start && ps[0].Content() == inside
              && (if |ps| == 2 then
                    ps[0].End() == b.last + 1 == ps[1].start && ps[1].End() == d.End() && ps[1].Content() == after
                  else ps[0].End() == d.End())
  {
    EndAligned(d);
    SizeBetween(if d.start < b.base then d.start else b.base, b.base);
    SizeBetween(if b.base < d.start then d.start else b.base, b.last + 1);
    SizeBetween(if b.last + 1 < d.End() then b.last + 1 else b.base, d.End());
  }

  lemma PiecesValid(d: Descriptor, b: Bin)
    requires Hit(d, b) && BinOk(b) && Aligned(d.start)
    ensures var ps := Pieces(d, b);
            && Valid(ps) && ps[0].start == d.start && ps[|ps| - 1].End() == d.End()
            && |ps| - 1 == (if d.Covers(b.base - 1) then 1 else 0) + (if d.Covers(b.last + 1) then 1 else 0)
  {
    PiecesShape(d, b);
  }

  lemma PiecesMeaning(d: Descriptor, b: Bin, a: int)
    requires Hit(d, b) && BinOk(b) && Aligned(d.start)
    ensures At(Pieces(d, b), a) == if d.Covers(a) then PieceContent(d, b, a) else Unmapped
  {
    PiecesShape(d, b);
    PiecesValid(d, b);
    var ps := Pieces(d, b);
    if d.Covers(a) {
      var k := if ps[0].Covers(a) then 0 else if ps[1].Covers(a) then 1 else 2;
      AtIndex(ps, k, a);
    } else if At(ps, a).Mapped? {
      var k := AtWitness(ps, a);
      assert false;
    }
  }

  lemma ValidConcat(m: Map, m': Map)
    requires Valid(m) && Valid(m')
    requires m != [] && m' != [] ==> m[|m| - 1].End() <= m'[0].start
    ensures Valid(m + m')
  {
  }

  lemma SplitValid(m: Map, i: nat, b: Bin)
    requires Valid(m) && i < |m| && Hit(m[i], b) && BinOk(b)
    ensures Valid(Split(m, i, b))
  {
    PiecesValid(m[i], b);
    ValidConcat(m[..i], Pieces(m[i], b));
    ValidConcat(m[..i] + Pieces(m[i], b), m[i + 1..]);
  }

  lemma SuffixUnmapped(m: Map, i: nat, a: int)
    requires Valid(m) && i < |m| && m[i].Covers(a)
    ensures At(m[i + 1..], a) == Unmapped
  {
    if At(m[i + 1..], a).Mapped? {
      var j := AtWitness(m[i + 1..], a);
      assert false;
    }
  }

  lemma AtMiddle(x: Map, y: Map, z: Map, a: int)
    ensures At(x + y + z, a) == if At(z, a).Mapped? then At(z, a) else if At(y, a).Mapped? then At(y, a) else At(x, a)
  {
    AtConcat(x + y, z, a);
    AtConcat(x, y, a);
  }

  lemma SplitMeaning(m: Map, i: nat, b: Bin, a: int)
    requires Valid(m) && i < |m| && Hit(m[i], b) && BinOk(b)
    ensures At(Split(m, i, b), a) == if m[i].Covers(a) then PieceContent(m[i], b, a) else At(m, a)
  {
    PiecesMeaning(m[i], b, a);
    AtMiddle(m[..i], Pieces(m[i], b), m[i + 1..], a);
    assert m == m[..i] + [m[i]] + m[i + 1..];
    AtMiddle(m[..i], [m[i]], m[i + 1..], a);
    if m[i].Covers(a) {
      SuffixUnmapped(m, i, a);
    }
  }

  // ---------- one bin ----------

  /** The free addresses inside the bin: what is left to convert. */
  ghost function FreeIn(m: Map, b: Bin): set<int> {
    set a | b.base <= a <= b.last && At(m, a).Free()
  }

  lemma MergedFreeIn(m: Map, b: Bin)
    requires Valid(m)
    ensures FreeIn(Merged(m), b) == FreeIn(m, b)
  {
    forall a ensures At(Merged(m), a) == At(m, a) {
      MergedMeaning(m, a);
    }
  }

  /** A split converts at least one free address of the bin and frees none. */
  lemma SplitFreeIn(m: Map, i: nat, b: Bin)
    requires Valid(m) && i < |m| && Hit(m[i], b) && BinOk(b)
    ensures FreeIn(Split(m, i, b), b) < FreeIn(m, b)
  {
    forall a ensures At(Split(m, i, b), a) == if m[i].Covers(a) then PieceContent(m[i], b, a) else At(m, a) {
      SplitMeaning(m, i, b, a);
    }
    forall a | m[i].Covers(a) ensures At(m, a) == m[i].Content() {
      AtIndex(m, i, a);
    }
    var x := if b.base <= m[i].start then m[i].start else b.base;
    assert m[i].Covers(x) && x in FreeIn(m, b) && x !in FreeIn(Split(m, i, b), b);
  }

  /** A map, and whether every split it asked for fitted in the buffer. */
  datatype Applied = Applied(m: Map, fitted: bool)

  /** Merges and splits until no free descriptor overlaps the bin, or the buffer of `cap` descriptors is too small. */
  ghost function ApplyBin(m: Map, b: Bin, cap: nat): Applied
    requires Valid(m) && BinOk(b)
    decreases FreeIn(m, b)
  {
    MergedValid(m);
    MergedFreeIn(m, b);
    var g := Merged(m);
    var i := FirstHit(g, b);
    if i == |g| then Applied(g, true)
    else if |g| + |Pieces(g[i], b)| - 1 > cap then Applied(g, false)
    else
      SplitValid(g, i, b);
      SplitFreeIn(g, i, b);
      ApplyBin(Split(g, i, b), b, cap)
  }

  lemma {:induction false} ApplyBinNormal(m: Map, b: Bin, cap: nat)
    requires Valid(m) && BinOk(b)
    ensures var r := ApplyBin(m, b, cap); Valid(r.m) && Normal(r.m) && (r.fitted ==> FreeIn(r.m, b) == {})
    decreases FreeIn(m, b)
  {
    MergedValid(m);
    MergedIsNormal(m);
    MergedFreeIn(m, b);
    var g := Merged(m);
    var i := FirstHit(g, b);
    if i == |g| {
      if a :| a in FreeIn(g, b) {
        var j := AtWitness(g, a);
        assert Hit(g[j], b);
        assert false;
      }
    } else if |g| + |Pieces(g[i], b)| - 1 <= cap {
      SplitValid(g, i, b);
      SplitFreeIn(g, i, b);
      ApplyBinNormal(Split(g, i, b), b, cap);
    }
  }

  /** How many edges of the bin lie in free memory: each can cost one descriptor. */
  function Edges(m: Map, b: Bin): nat {
    (if At(m, b.base).Free() then 1 else 0) + (if At(m, b.last).Free() then 1 else 0)
  }

  lemma MergedEdges(m: Map, b: Bin)
    requires Valid(m)
    ensures Edges(Merged(m), b) == Edges(m, b)
  {
    MergedMeaning(m, b.base);
    MergedMeaning(m, b.last);
  }

  lemma SplitEdges(m: Map, i: nat, b: Bin)
    requires Valid(m) && i < |m| && Hit(m[i], b) && BinOk(b)
    ensures |Split(m, i, b)| == |m| + |Pieces(m[i], b)| - 1
    ensures |Split(m, i, b)| + Edges(Split(m, i, b), b) <= |m| + Edges(m, b)
  {
    SplitMeaning(m, i, b, b.base);
    SplitMeaning(m, i, b, b.last);
    PiecesValid(m[i], b);
    if m[i].Covers(b.base) {
      AtIndex(m, i, b.base);
    }
    if m[i].Covers(b.last) {
      AtIndex(m, i, b.last);
    }
  }

  /** Over all restarts, a bin costs at most one descriptor per free edge, so that much slack is never exceeded. */
  lemma {:induction false} ApplyBinSize(m: Map, b: Bin, cap: nat)
    requires Valid(m) && BinOk(b)
    ensures |ApplyBin(m, b, cap).m| <= |m| + Edges(m, b)
    ensures |m| + Edges(m, b) <= cap ==> ApplyBin(m, b, cap).fitted
    decreases FreeIn(m, b)
  {
    MergedValid(m);
    MergedFreeIn(m, b);
    MergedEdges(m, b);
    var g := Merged(m);
    var i := FirstHit(g, b);
    if i < |g| {
      SplitEdges(g, i, b);
      if |g| + |Pieces(g[i], b)| - 1 <= cap {
        SplitValid(g, i, b);
        SplitFreeIn(g, i, b);
        ApplyBinSize(Split(g, i, b), b, cap);
      }
    }
  }

  /** The run of addresses from the end of the bin up to `a` was one stretch of memory, so that
      splitting it at the end of the bin rewrites the part that holds `a`. */
  ghost predicate CutOff(m: Map, b: Bin, a: int) {
    b.last < a && forall x :: b.last <= x <= a ==> At(m, x) == At(m, a)
  }

  /** What one bin makes of address `a`. */
  ghost function BinContent(m: Map, b: Bin, a: int): Cell {
    var c := At(m, a);
    if !c.Free() then c
    else if b.Contains(a) then Mapped(b.kind, c.attrs.(runtime := b.runtime))
    else if CutOff(m, b, a) then Mapped(CONVENTIONAL_MEMORY, c.attrs.(runtime := false))
    else c
  }

  lemma SameBinContent(m: Map, m': Map, b: Bin, a: int)
    requires SameMeaning(m, m')
    ensures BinContent(m, b, a) == BinContent(m', b, a)
  {
  }

  /** A split gives the addresses of the hit descriptor their final content. */
  lemma SplitReaches(m: Map, i: nat, b: Bin, a: int)
    requires Valid(m) && i < |m| && Hit(m[i], b) && BinOk(b) && m[i].Covers(a)
    ensures At(Split(m, i, b), a) == BinContent(m, b, a)
  {
    SplitMeaning(m, i, b, a);
    forall x | m[i].Covers(x) ensures At(m, x) == m[i].Content() {
      AtIndex(m, i, x);
    }
  }

  /** A split does not change what the bin makes of any address. */
  lemma SplitKeeps(m: Map, i: nat, b: Bin, a: int)
    requires Valid(m) && Normal(m) && i < |m| && Hit(m[i], b) && BinOk(b)
    ensures BinContent(Split(m, i, b), b, a) == BinContent(m, b, a)
  {
    var m' := Split(m, i, b);
    SplitMeaning(m, i, b, a);
    SplitMeaning(m, i, b, b.last);
    if m[i].Covers(a) {
      SplitReaches(m, i, b, a);
    } else if m[i].Covers(b.last) {
      assert !At(m', b.last).Free();
      assert CutOff(m', b, a) ==> At(m', b.last) == At(m', a);
      AtIndex(m, i, b.last);
      if CutOff(m, b, a) {
        assert At(m, b.last) == At(m, a);
        var j := AtWitness(m, a);
        NormalRun(m, j, b.last, a);
        AtIndex(m, j, b.last);
        assert false;
      }
    } else {
      forall x | b.last <= x <= a ensures At(m', x) == At(m, x) {
        SplitMeaning(m, i, b, x);
      }
    }
  }

  /** One bin, address by address.  A buffer that is too small leaves some addresses as they were. */
  lemma {:induction false} ApplyBinMeaning(m: Map, b: Bin, cap: nat, a: int)
    requires Valid(m) && BinOk(b)
    ensures var r := ApplyBin(m, b, cap);
            At(r.m, a) == BinContent(m, b, a) || (!r.fitted && At(r.m, a) == At(m, a))
    decreases FreeIn(m, b)
  {
    MergedValid(m);
    MergedIsNormal(m);
    MergedFreeIn(m, b);
    var g := Merged(m);
    forall x ensures At(m, x) == At(g, x) {
      MergedMeaning(m, x);
    }
    SameBinContent(m, g, b, a);
    var i := FirstHit(g, b);
    if i == |g| {
      NoHitContent(g, b, a);
    } else if |g| + |Pieces(g[i], b)| - 1 <= cap {
      SplitValid(g, i, b);
      SplitFreeIn(g, i, b);
      ApplyBinMeaning(Split(g, i, b), b, cap, a);
      SplitKeeps(g, i, b, a);
      SplitMeaning(g, i, b, a);
      if g[i].Covers(a) {
        SplitReaches(g, i, b, a);
      }
    }
  }

  lemma NoHitContent(m: Map, b: Bin, a: int)
    requires Valid(m) && BinOk(b) && FirstHit(m, b) == |m|
    ensures BinContent(m, b, a) == At(m, a)
  {
    if At(m, a).Free() && b.last < a && At(m, b.last) == At(m, a) {
      var j := AtWitness(m, b.last);
      assert Hit(m[j], b);
      assert false;
    }
    if At(m, a).Free() && b.Contains(a) {
      var j := AtWitness(m, a);
      assert false;
    }
  }

  // ---------- all bins ----------

  /** The bins one after the other, then a last merge. */
  ghost function ApplyBins(m: Map, bins: seq<Bin>, cap: nat): Applied
    requires Valid(m) && BinsOk(bins)
    decreases |bins|
  {
    if bins == [] then Applied(Merged(m), true)
    else
      var r := ApplyBin(m, bins[0], cap);
      if !r.fitted then r
      else
        ApplyBinNormal(m, bins[0], cap);
        ApplyBins(r.m, bins[1..], cap)
  }

  /** What a set of bins makes of address `a`, in one step: a free address takes the type and the runtime bit of
      the bin that holds it; a free address outside the bins keeps its type and loses the runtime bit
      exactly if a bin ends inside its stretch of memory; nothing else changes. */
  ghost function Overlay(m: Map, bins: seq<Bin>, a: int): Cell {
    var c := At(m, a);
    if !c.Free() then c
    else if b :| b in bins && b.Contains(a) then Mapped(b.kind, c.attrs.(runtime := b.runtime))
    else if exists b :: b in bins && CutOff(m, b, a) then Mapped(CONVENTIONAL_MEMORY, c.attrs.(runtime := false))
    else c
  }

  /** The overlay at a free address of a bin. */
  lemma OverlayInBin(m: Map, bins: seq<Bin>, b: Bin, a: int)
    requires BinsOk(bins) && b in bins && b.Contains(a) && At(m, a).Free()
    ensures Overlay(m, bins, a) == Mapped(b.kind, At(m, a).attrs.(runtime := b.runtime))
  {
  }

  /** Applying the first bin and then overlaying the others is the whole overlay. */
  lemma OverlayCons(m: Map, r: Map, bins: seq<Bin>, a: int)
    requires BinsOk(bins) && bins != []
    requires forall x :: At(r, x) == BinContent(m, bins[0], x)
    ensures Overlay(r, bins[1..], a) == Overlay(m, bins, a)
  {
    assert At(r, a) == BinContent(m, bins[0], a);
    if At(m, a).Free() {
      if bins[0].Contains(a) {
        OverlayInBin(m, bins, bins[0], a);
      } else if b :| b in bins && b.Contains(a) {
        OverlayInBin(m, bins, b, a);
        OverlayInBin(r, bins[1..], b, a);
      } else {
        OverlayOutside(m, r, bins, a);
      }
    }
  }

  lemma OverlayOutside(m: Map, r: Map, bins: seq<Bin>, a: int)
    requires BinsOk(bins) && bins != [] && At(m, a).Free() && !(exists b :: b in bins && b.Contains(a))
    requires forall x :: At(r, x) == BinContent(m, bins[0], x)
    ensures Overlay(r, bins[1..], a) == Overlay(m, bins, a)
  {
    assert At(r, a) == BinContent(m, bins[0], a);
    assert forall b :: b in bins <==> b == bins[0] || b in bins[1..];
    if At(m, a).attrs.runtime {
      CutOffCons(m, r, bins, a);
    }
  }

  lemma CutOffCons(m: Map, r: Map, bins: seq<Bin>, a: int)
    requires BinsOk(bins) && bins != []
    requires forall x :: At(r, x) == BinContent(m, bins[0], x)
    requires At(m, a).Free() && At(m, a).attrs.runtime && !(exists b :: b in bins && b.Contains(a))
    ensures (exists b :: b in bins && CutOff(m, b, a))
       <==> CutOff(m, bins[0], a) || exists b :: b in bins[1..] && CutOff(r, b, a)
  {
    var b0, rest := bins[0], bins[1..];
    assert forall b :: b in bins <==> b == b0 || b in rest;
    if !CutOff(m, b0, a) {
      forall b | b in rest ensures CutOff(m, b, a) <==> CutOff(r, b, a) {
        assert Apart(b0, b) && BinOk(b0) && BinOk(b) && !b0.Contains(a);
        CutOffUnaffected(m, r, b0, b, a);
      }
    }
  }

  lemma CutOffUnaffected(m: Map, r: Map, b0: Bin, b: Bin, a: int)
    requires BinOk(b0) && BinOk(b) && Apart(b0, b) && !b0.Contains(a)
    requires forall x :: At(r, x) == BinContent(m, b0, x)
    requires At(m, a).Free() && At(m, a).attrs.runtime && !CutOff(m, b0, a)
    ensures CutOff(m, b, a) <==> CutOff(r, b, a)
  {
  }

  lemma {:induction false} ApplyBinsNormal(m: Map, bins: seq<Bin>, cap: nat)
    requires Valid(m) && BinsOk(bins)
    ensures var r := ApplyBins(m, bins, cap); Valid(r.m) && Normal(r.m)
    decreases |bins|
  {
    if bins == [] {
      MergedValid(m);
      MergedIsNormal(m);
    } else {
      ApplyBinNormal(m, bins[0], cap);
      var r := ApplyBin(m, bins[0], cap);
      if r.fitted {
        ApplyBinsNormal(r.m, bins[1..], cap);
      }
    }
  }

  /** The overlay is exact at every address. */
  lemma {:induction false} ApplyBinsExact(m: Map, bins: seq<Bin>, cap: nat, a: int)
    requires Valid(m) && BinsOk(bins)
    ensures ApplyBins(m, bins, cap).fitted ==> At(ApplyBins(m, bins, cap).m, a) == Overlay(m, bins, a)
    decreases |bins|
  {
    if bins == [] {
      MergedMeaning(m, a);
    } else if ApplyBin(m, bins[0], cap).fitted {
      var r := ApplyBin(m, bins[0], cap);
      ApplyBinNormal(m, bins[0], cap);
      forall x ensures At(r.m, x) == BinContent(m, bins[0], x) {
        ApplyBinMeaning(m, bins[0], cap, x);
      }
      ApplyBinsExact(r.m, bins[1..], cap, a);
      OverlayCons(m, r.m, bins, a);
    }
  }

  /** Memory that is not free stays; free memory keeps its other attributes and has the old type or the overlaid one. */
  predicate Between(c: Cell, c': Cell, overlaid: Cell) {
    if !c.Free() then c' == c
    else
      && c'.Mapped? && overlaid.Mapped? && c'.attrs.others == c.attrs.others
      && (c'.kind == c.kind || c'.kind == overlaid.kind)
  }

  lemma FirstBinBetween(m: Map, bins: seq<Bin>, a: int)
    requires BinsOk(bins) && bins != []
    ensures Between(At(m, a), BinContent(m, bins[0], a), Overlay(m, bins, a))
  {
  }

  /** The overlay, or the old content where a buffer that is too small stopped the rewriting:
      no address appears or disappears, only free memory changes, and only in type and runtime bit. */
  lemma {:induction false} ApplyBinsPartial(m: Map, bins: seq<Bin>, cap: nat, a: int)
    requires Valid(m) && BinsOk(bins)
    ensures Between(At(m, a), At(ApplyBins(m, bins, cap).m, a), Overlay(m, bins, a))
    decreases |bins|
  {
    if bins == [] {
      MergedMeaning(m, a);
    } else {
      var r := ApplyBin(m, bins[0], cap);
      ApplyBinMeaning(m, bins[0], cap, a);
      FirstBinBetween(m, bins, a);
      if r.fitted {
        ApplyBinNormal(m, bins[0], cap);
        forall x ensures At(r.m, x) == BinContent(m, bins[0], x) {
          ApplyBinMeaning(m, bins[0], cap, x);
        }
        ApplyBinsPartial(r.m, bins[1..], cap, a);
        OverlayCons(m, r.m, bins, a);
      }
    }
  }

  function TotalEdges(m: Map, bins: seq<Bin>): (n: nat)
    ensures n <= 2 * |bins|
  {
    if bins == [] then 0 else Edges(m, bins[0]) + TotalEdges(m, bins[1..])
  }

  /** A bin does not change whether an address outside it is free. */
  lemma {:induction false} TotalEdgesAfter(m: Map, r: Map, b: Bin, bins: seq<Bin>)
    requires forall x :: At(r, x) == BinContent(m, b, x)
    requires forall i :: 0 <= i < |bins| ==> BinOk(bins[i]) && Apart(b, bins[i])
    ensures TotalEdges(r, bins) == TotalEdges(m, bins)
  {
    if bins != [] {
      assert At(r, bins[0].base) == BinContent(m, b, bins[0].base);
      assert At(r, bins[0].last) == BinContent(m, b, bins[0].last);
      TotalEdgesAfter(m, r, b, bins[1..]);
    }
  }

  /** All bins together cost at most one descriptor per bin edge in free memory, hence at most two per bin;
      a buffer with that much slack is never too small. */
  lemma {:induction false} ApplyBinsSize(m: Map, bins: seq<Bin>, cap: nat)
    requires Valid(m) && BinsOk(bins)
    ensures var r := ApplyBins(m, bins, cap);
            && (r.fitted ==> |r.m| <= |m| + TotalEdges(m, bins))
            && (|m| + TotalEdges(m, bins) <= cap ==> r.fitted)
    decreases |bins|
  {
    if bins != [] {
      var b := bins[0];
      var r := ApplyBin(m, b, cap);
      ApplyBinSize(m, b, cap);
      if r.fitted {
        ApplyBinNormal(m, b, cap);
        forall x ensures At(r.m, x) == BinContent(m, b, x) {
          ApplyBinMeaning(m, b, cap, x);
        }
        TotalEdgesAfter(m, r.m, b, bins[1..]);
        ApplyBinsSize(r.m, bins[1..], cap);
      }
    }
  }

  // ---------- consequences ----------

  lemma OverlaySameBins(m: Map, bins: seq<Bin>, bins': seq<Bin>, a: int)
    requires BinsOk(bins) && BinsOk(bins') && forall b :: b in bins <==> b in bins'
    ensures Overlay(m, bins, a) == Overlay(m, bins', a)
  {
  }

  /** The order of the bins does not matter: the resulting descriptors are the same, one by one. */
  lemma BinOrderIrrelevant(m: Map, bins: seq<Bin>, bins': seq<Bin>, cap: nat, cap': nat)
    requires Valid(m) && BinsOk(bins) && BinsOk(bins') && multiset(bins) == multiset(bins')
    ensures ApplyBins(m, bins, cap).fitted && ApplyBins(m, bins', cap').fitted ==>
              ApplyBins(m, bins, cap).m == ApplyBins(m, bins', cap').m
  {
    if ApplyBins(m, bins, cap).fitted && ApplyBins(m, bins', cap').fitted {
      var r, r' := ApplyBins(m, bins, cap).m, ApplyBins(m, bins', cap').m;
      ApplyBinsNormal(m, bins, cap);
      ApplyBinsNormal(m, bins', cap');
      forall b ensures b in bins <==> b in bins' {
        assert b in bins <==> b in multiset(bins);
        assert b in bins' <==> b in multiset(bins');
      }
      forall a ensures At(r, a) == At(r', a) {
        ApplyBinsExact(m, bins, cap, a);
        ApplyBinsExact(m, bins', cap', a);
        OverlaySameBins(m, bins, bins', a);
      }
      NormalFormUnique(r, r');
    }
  }

  /** An overlaid map has no free address in a bin. */
  lemma NothingFreeInBin(m: Map, bins: seq<Bin>, cap: nat, b: Bin, a: int)
    requires Valid(m) && BinsOk(bins) && ApplyBins(m, bins, cap).fitted && b in bins && b.Contains(a)
    ensures !At(ApplyBins(m, bins, cap).m, a).Free()
  {
    ApplyBinsExact(m, bins, cap, a);
  }

  lemma OverlaidIsStable(m: Map, bins: seq<Bin>, cap: nat, a: int)
    requires Valid(m) && BinsOk(bins) && ApplyBins(m, bins, cap).fitted
    ensures Overlay(ApplyBins(m, bins, cap).m, bins, a) == Overlay(m, bins, a)
  {
    var r := ApplyBins(m, bins, cap).m;
    ApplyBinsExact(m, bins, cap, a);
    forall b | b in bins ensures !At(r, b.last).Free() {
      NothingFreeInBin(m, bins, cap, b, b.last);
    }
  }

  /** Applying the bins to their own result changes nothing, and needs no slack. */
  lemma ApplyBinsIdempotent(m: Map, bins: seq<Bin>, cap: nat, cap': nat)
    requires Valid(m) && BinsOk(bins)
    ensures var r := ApplyBins(m, bins, cap);
            r.fitted && |r.m| <= cap' ==> Valid(r.m) && ApplyBins(r.m, bins, cap') == r
  {
    if ApplyBins(m, bins, cap).fitted && |ApplyBins(m, bins, cap).m| <= cap' {
      var r := ApplyBins(m, bins, cap).m;
      ApplyBinsNormal(m, bins, cap);
      forall i | 0 <= i < |bins| ensures !At(r, bins[i].base).Free() && !At(r, bins[i].last).Free() {
        NothingFreeInBin(m, bins, cap, bins[i], bins[i].base);
        NothingFreeInBin(m, bins, cap, bins[i], bins[i].last);
      }
      NoEdgesLeft(r, bins);
      ApplyBinsSize(r, bins, cap');
      ApplyBinsNormal(r, bins, cap');
      var r' := ApplyBins(r, bins, cap').m;
      forall a ensures At(r', a) == At(r, a) {
        ApplyBinsExact(r, bins, cap', a);
        OverlaidIsStable(m, bins, cap, a);
        ApplyBinsExact(m, bins, cap, a);
      }
      NormalFormUnique(r', r);
    }
  }

  lemma {:induction false} NoEdgesLeft(r: Map, bins: seq<Bin>)
    requires forall i :: 0 <= i < |bins| ==> !At(r, bins[i].base).Free() && !At(r, bins[i].last).Free()
    ensures TotalEdges(r, bins) == 0
  {
    if bins != [] {
      NoEdgesLeft(r, bins[1..]);
    }
  }

  /** `a` lies in no bin. */
  ghost predicate Outside(bins: seq<Bin>, a: int) {
    forall b :: b in bins ==> !b.Contains(a)
  }

  /** A stretch of free runtime memory runs out of the end of a bin. */
  ghost predicate RuntimeOverhang(m: Map, bins: seq<Bin>, b: Bin) {
    && b in bins && Outside(bins, b.last + 1)
    && At(m, b.last).Free() && At(m, b.last).attrs.runtime && At(m, b.last + 1) == At(m, b.last)
  }

  /** Memory outside the bins keeps its content exactly if no stretch of free runtime memory overhangs a bin's end. */
  lemma OutsideUnchanged(m: Map, bins: seq<Bin>, cap: nat)
    requires Valid(m) && BinsOk(bins)
    ensures ApplyBins(m, bins, cap).fitted ==>
              ((forall a :: Outside(bins, a) ==> At(ApplyBins(m, bins, cap).m, a) == At(m, a))
               <==> !(exists b :: RuntimeOverhang(m, bins, b)))
  {
    if ApplyBins(m, bins, cap).fitted {
      var r := ApplyBins(m, bins, cap).m;
      forall b | RuntimeOverhang(m, bins, b) ensures At(r, b.last + 1) != At(m, b.last + 1) {
        ApplyBinsExact(m, bins, cap, b.last + 1);
        OverhangChanges(m, bins, b);
      }
      forall a | Outside(bins, a) && At(r, a) != At(m, a) ensures exists b :: RuntimeOverhang(m, bins, b) {
        ApplyBinsExact(m, bins, cap, a);
        var b :| b in bins && CutOff(m, b, a);
        Overhang(m, bins, b, a);
      }
    }
  }

  lemma OverhangChanges(m: Map, bins: seq<Bin>, b: Bin)
    requires RuntimeOverhang(m, bins, b)
    ensures Overlay(m, bins, b.last + 1) == Mapped(CONVENTIONAL_MEMORY, At(m, b.last + 1).attrs.(runtime := false))
  {
  }

  /** The last bin that ends in the stretch of `a` overhangs. */
  lemma {:induction false} Overhang(m: Map, bins: seq<Bin>, b: Bin, a: int)
    requires BinsOk(bins) && Outside(bins, a) && b in bins && CutOff(m, b, a)
    requires At(m, a).Free() && At(m, a).attrs.runtime
    ensures exists c :: RuntimeOverhang(m, bins, c)
    decreases a - b.last
  {
    assert At(m, b.last) == At(m, a) == At(m, b.last + 1);
    if Outside(bins, b.last + 1) {
      assert RuntimeOverhang(m, bins, b);
    } else {
      var c :| c in bins && c.Contains(b.last + 1);
      assert !c.Contains(a);
      assert CutOff(m, c, a);
      Overhang(m, bins, c, a);
    }
  }

  /** Every bin has such a map: free runtime memory from the base of the bin to one page past its end. */
  lemma OverhangExists(b: Bin) returns (d: Descriptor)
    requires BinOk(b)
    ensures Valid([d]) && RuntimeOverhang([d], [b], b)
  {
    d := Descriptor(CONVENTIONAL_MEMORY, b.base, SizeToPages(b.last + 1 - b.base) + 1, Attributes(true, 0));
    SizeBetween(b.base, b.last + 1);
    AtIndex([d], 0, b.last);
    AtIndex([d], 0, b.last + 1);
  }

  /** The page after the bin loses its runtime bit. */
  lemma RuntimeBitLost(m: Map, b: Bin, cap: nat)
    requires Valid(m) && BinOk(b) && RuntimeOverhang(m, [b], b) && |m| + 2 <= cap
    ensures var r := ApplyBins(m, [b], cap);
            r.fitted && At(r.m, b.last + 1) == Mapped(CONVENTIONAL_MEMORY, At(m, b.last + 1).attrs.(runtime := false))
  {
    assert BinsOk([b]);
    ApplyBinsSize(m, [b], cap);
    ApplyBinsExact(m, [b], cap, b.last + 1);
    OverhangChanges(m, [b], b);
  }

  /** Two descriptors per bin can be needed: one free stretch around one bin. */
  lemma SlackIsNeeded(b: Bin)
    requires BinOk(b) && b.base >= 4096
    ensures var pages := SizeToPages(b.last + 1 - b.base) + 2;
            var m := [Descriptor(CONVENTIONAL_MEMORY, b.base - 4096, pages, Attributes(false, 0))];
            Valid(m) && !ApplyBin(m, b, 2).fitted && |ApplyBin(m, b, 3).m| == 3
  {
    var d := Descriptor(CONVENTIONAL_MEMORY, b.base - 4096, SizeToPages(b.last + 1 - b.base) + 2, Attributes(false, 0));
    SizeBetween(b.base, b.last + 1);
    assert d.End() == b.last + 1 + 4096;
    SpanningSplit(d, b);
  }

  lemma SpanningPieces(d: Descriptor, b: Bin)
    requires BinOk(b) && Aligned(d.start) && d.kind == CONVENTIONAL_MEMORY && d.start < b.base && b.last + 1 < d.End()
    ensures var ps := Pieces(d, b);
            |ps| == 3 && Valid(ps) && Merged(ps) == ps && forall j :: 0 <= j < |ps| ==> !Hit(ps[j], b)
  {
    PiecesShape(d, b);
    PiecesValid(d, b);
    MergedNormal(Pieces(d, b));
  }

  lemma ApplyBinDone(m: Map, b: Bin, cap: nat)
    requires Valid(m) && BinOk(b) && Merged(m) == m && forall j :: 0 <= j < |m| ==> !Hit(m[j], b)
    ensures ApplyBin(m, b, cap) == Applied(m, true)
  {
  }

  lemma ApplyBinOne(d: Descriptor, b: Bin, cap: nat)
    requires BinOk(b) && Valid([d]) && Hit(d, b) && Valid(Pieces(d, b))
    ensures ApplyBin([d], b, cap)
         == if |Pieces(d, b)| > cap then Applied([d], false) else ApplyBin(Pieces(d, b), b, cap)
  {
    var m := [d];
    assert m[..0] == [] && Merged(m) == m && FirstHit(m, b) == 0;
    assert Split(m, 0, b) == Pieces(d, b);
    SplitFreeIn(m, 0, b);
  }

  /** A free descriptor that reaches over both ends of the bin becomes three. */
  lemma SpanningSplit(d: Descriptor, b: Bin)
    requires BinOk(b) && Aligned(d.start) && d.kind == CONVENTIONAL_MEMORY && d.start < b.base && b.last + 1 < d.End()
    ensures Valid([d]) && |Pieces(d, b)| == 3
    ensures !ApplyBin([d], b, 2).fitted && ApplyBin([d], b, 3) == Applied(Pieces(d, b), true)
  {
    SpanningPieces(d, b);
    ApplyBinOne(d, b, 2);
    ApplyBinOne(d, b, 3);
    ApplyBinDone(Pieces(d, b), b, 3);
  }

  /** A bin that does not end at a page boundary breaks the map: the pieces of a descriptor that runs past its end are
      a valid map exactly if the end of the bin is a page boundary. */
  lemma UnalignedEndOverlaps(d: Descriptor, b: Bin)
    requires Hit(d, b) && b.base <= b.last && Aligned(d.start) && Aligned(b.base) && b.last + 1 < d.End()
    requires b.kind != CONVENTIONAL_MEMORY
    ensures Valid(Pieces(d, b)) <==> Aligned(b.last + 1)
  {
    if Aligned(b.last + 1) {
      PiecesValid(d, b);
    } else {
      LastPieceStart(d, b);
    }
  }

  lemma LastPieceStart(d: Descriptor, b: Bin)
    requires Hit(d, b) && b.base <= b.last && b.last + 1 < d.End()
    ensures var ps := Pieces(d, b); ps[|ps| - 1].start == b.last + 1
  {
  }
}
