/** The EFI memory map as a sequence of descriptors, its meaning address by address, and the
    merging of neighbouring descriptors.  Addresses are byte addresses, as in the source. */
module MemoryMap {

  const CONVENTIONAL_MEMORY: nat := 7

  /** Pages are 4096 bytes. */
  function PagesToSize(pages: nat): nat {
    pages * 4096
  }

  function SizeToPages(size: nat): nat {
    (size + 4095) / 4096
  }

  predicate Aligned(a: int) {
    a % 4096 == 0
  }

  /** The attribute word of a descriptor, with the EFI_MEMORY_RUNTIME bit set apart from the other bits. */
  datatype Attributes = Attributes(runtime: bool, others: bv64)

  datatype Descriptor = Descriptor(kind: nat, start: nat, pages: nat, attrs: Attributes) {
    /** The first address after the descriptor. */
    function End(): nat {
      start + PagesToSize(pages)
    }

    predicate Covers(a: int) {
      start <= a < End()
    }

    function Content(): Cell {
      Mapped(kind, attrs)
    }
  }

  /** What the map says about one address. */
  datatype Cell = Unmapped | Mapped(kind: nat, attrs: Attributes) {
    predicate Free() {
      Mapped? && kind == CONVENTIONAL_MEMORY
    }
  }

  type Map = seq<Descriptor>

  /** Sorted, disjoint, page-aligned, and without empty descriptors. */
  ghost predicate Valid(m: Map) {
    && (forall i :: 0 <= i < |m| ==> Aligned(m[i].start) && m[i].pages > 0)
    && (forall i, j :: 0 <= i < j < |m| ==> m[i].End() <= m[j].start)
  }

  /** The meaning of a map: the content of the descriptor that covers `a`. */
  function At(m: Map, a: int): Cell {
    if m == [] then Unmapped
    else if m[|m| - 1].Covers(a) then m[|m| - 1].Content()
    else At(m[..|m| - 1], a)
  }

  ghost predicate SameMeaning(m: Map, m': Map) {
    forall a: int :: At(m, a) == At(m', a)
  }

  lemma {:induction false} AtConcat(m: Map, m': Map, a: int)
    ensures At(m + m', a) == if At(m', a).Mapped? then At(m', a) else At(m, a)
  {
    if m' == [] {
      assert m + m' == m;
    } else {
      var k := |m'| - 1;
      assert (m + m')[..|m + m'| - 1] == m + m'[..k];
      AtConcat(m, m'[..k], a);
    }
  }

  /** A covering descriptor decides the meaning. */
  lemma {:induction false} AtIndex(m: Map, i: nat, a: int)
    requires Valid(m) && i < |m| && m[i].Covers(a)
    ensures At(m, a) == m[i].Content()
  {
    if i < |m| - 1 {
      AtIndex(m[..|m| - 1], i, a);
    }
  }

  /** A mapped address is covered. */
  lemma {:induction false} AtWitness(m: Map, a: int) returns (i: nat)
    requires At(m, a).Mapped?
    ensures i < |m| && m[i].Covers(a) && At(m, a) == m[i].Content()
  {
    if m[|m| - 1].Covers(a) {
      i := |m| - 1;
    } else {
      i := AtWitness(m[..|m| - 1], a);
    }
  }

  // ---------- merging ----------

  /** `e` continues `d`: same type, same attributes, and it starts where `d` ends. */
  predicate Mergeable(d: Descriptor, e: Descriptor) {
    e.kind == d.kind && e.attrs == d.attrs && e.start == d.End()
  }

  /** `d` merged into the last descriptor of `r`, or appended. */
  function MergeOnto(r: Map, d: Descriptor): (r': Map)
    ensures r' != [] && |r'| <= |r| + 1
  {
    if r != [] && Mergeable(r[|r| - 1], d)
    then r[..|r| - 1] + [r[|r| - 1].(pages := r[|r| - 1].pages + d.pages)]
    else r + [d]
  }

  /** The map after one left-to-right merging pass. */
  function Merged(m: Map): (r: Map)
    ensures |r| <= |m|
    ensures m != [] ==> r != []
  {
    if m == [] then [] else MergeOnto(Merged(m[..|m| - 1]), m[|m| - 1])
  }

  ghost predicate Normal(m: Map) {
    forall i :: 0 < i < |m| ==> !Mergeable(m[i - 1], m[i])
  }

  lemma MergeOntoValid(r: Map, d: Descriptor)
    requires Valid(r) && Aligned(d.start) && d.pages > 0
    requires r != [] ==> r[|r| - 1].End() <= d.start
    ensures Valid(MergeOnto(r, d)) && MergeOnto(r, d)[|MergeOnto(r, d)| - 1].End() == d.End()
  {
  }

  lemma {:induction false} MergedValid(m: Map)
    requires Valid(m)
    ensures Valid(Merged(m))
    ensures m != [] ==> Merged(m)[|Merged(m)| - 1].End() == m[|m| - 1].End()
  {
    if m != [] {
      MergedValid(m[..|m| - 1]);
      MergeOntoValid(Merged(m[..|m| - 1]), m[|m| - 1]);
    }
  }

  lemma {:induction false} MergedIsNormal(m: Map)
    ensures Normal(Merged(m))
  {
    if m != [] {
      MergedIsNormal(m[..|m| - 1]);
    }
  }

  lemma MergeOntoMeaning(r: Map, d: Descriptor, a: int)
    requires r != [] ==> r[|r| - 1].End() <= d.start
    ensures At(MergeOnto(r, d), a) == if d.Covers(a) then d.Content() else At(r, a)
  {
  }

  lemma {:induction false} MergedMeaning(m: Map, a: int)
    requires Valid(m)
    ensures At(Merged(m), a) == At(m, a)
  {
    if m != [] {
      MergedValid(m[..|m| - 1]);
      MergedMeaning(m[..|m| - 1], a);
      MergeOntoMeaning(Merged(m[..|m| - 1]), m[|m| - 1], a);
    }
  }

  lemma {:induction false} MergedNormal(m: Map)
    requires Normal(m)
    ensures Merged(m) == m
  {
    if m != [] {
      MergedNormal(m[..|m| - 1]);
      assert m[..|m| - 1] + [m[|m| - 1]] == m;
    }
  }

  // ---------- normal forms ----------

  /** In a normal form, the descriptor before a covering one holds something else at its last address. */
  lemma NormalBoundary(m: Map, i: nat)
    requires Valid(m) && Normal(m) && i < |m|
    ensures At(m, m[i].start - 1) != m[i].Content()
  {
    var x := m[i].start - 1;
    if At(m, x).Mapped? {
      var j := AtWitness(m, x);
      assert j < i;
      assert m[j].End() <= m[j + 1].start < m[j + 1].End();
      assert j == i - 1;
    }
  }

  /** In a normal form, a run of addresses with one content lies in one descriptor. */
  lemma NormalRun(m: Map, i: nat, lo: int, hi: int)
    requires Valid(m) && Normal(m) && i < |m| && m[i].Covers(hi) && lo <= hi
    requires forall x :: lo <= x <= hi ==> At(m, x) == At(m, hi)
    ensures m[i].Covers(lo)
  {
    AtIndex(m, i, hi);
    NormalBoundary(m, i);
  }

  /** The highest mapped address. */
  lemma TopOf(m: Map)
    requires Valid(m) && m != []
    ensures At(m, m[|m| - 1].End() - 1) == m[|m| - 1].Content()
    ensures forall a :: m[|m| - 1].End() <= a ==> At(m, a) == Unmapped
  {
  }

  /** Two normal forms with the same meaning start their last descriptors at the same address. */
  lemma SameLast(m: Map, m': Map)
    requires Valid(m) && Normal(m) && Valid(m') && Normal(m')
    requires SameMeaning(m, m') && m != [] && m' != []
    ensures m[|m| - 1] == m'[|m'| - 1]
  {
    var d, e := m[|m| - 1], m'[|m'| - 1];
    TopOf(m);
    TopOf(m');
    assert At(m, d.End() - 1) == At(m', d.End() - 1) && At(m, e.End() - 1) == At(m', e.End() - 1);
    assert d.End() == e.End() && d.Content() == e.Content();
    NormalBoundary(m, |m| - 1);
    NormalBoundary(m', |m'| - 1);
    assert At(m, d.start - 1) == At(m', d.start - 1) && At(m, e.start - 1) == At(m', e.start - 1);
  }

  lemma SameEmptiness(m: Map, m': Map)
    requires Valid(m) && SameMeaning(m, m') && m' == []
    ensures m == []
  {
    if m != [] {
      TopOf(m);
      assert false;
    }
  }

  /** Normal forms are canonical: the meaning of a map determines its descriptors. */
  lemma {:induction false} NormalFormUnique(m: Map, m': Map)
    requires Valid(m) && Normal(m) && Valid(m') && Normal(m')
    requires SameMeaning(m, m')
    ensures m == m'
  {
    if m' == [] {
      SameEmptiness(m, m');
    } else if m == [] {
      SameEmptiness(m', m);
    } else {
      SameLast(m, m');
      var p, p' := m[..|m| - 1], m'[..|m'| - 1];
      PrefixSameMeaning(m, m');
      NormalPrefix(m);
      NormalPrefix(m');
      NormalFormUnique(p, p');
      assert m == p + [m[|m| - 1]] && m' == p' + [m[|m| - 1]];
    }
  }

  lemma NormalPrefix(m: Map)
    requires Valid(m) && Normal(m) && m != []
    ensures Valid(m[..|m| - 1]) && Normal(m[..|m| - 1])
  {
  }

  lemma PrefixSameMeaning(m: Map, m': Map)
    requires Valid(m) && Valid(m') && m != [] && m' != [] && m[|m| - 1] == m'[|m'| - 1] && SameMeaning(m, m')
    ensures SameMeaning(m[..|m| - 1], m'[..|m'| - 1])
  {
    var p, p' := m[..|m| - 1], m'[..|m'| - 1];
    forall a ensures At(p, a) == At(p', a) {
      SamePrefix(m, m', a);
    }
  }

  lemma SamePrefix(m: Map, m': Map, a: int)
    requires Valid(m) && Valid(m') && m != [] && m' != [] && m[|m| - 1] == m'[|m'| - 1] && At(m, a) == At(m', a)
    ensures At(m[..|m| - 1], a) == At(m'[..|m'| - 1], a)
  {
    if m[|m| - 1].Covers(a) {
      PrefixUnmapped(m, a);
      PrefixUnmapped(m', a);
    }
  }

  lemma PrefixUnmapped(m: Map, a: int)
    requires Valid(m) && m != [] && m[|m| - 1].Covers(a)
    ensures At(m[..|m| - 1], a) == Unmapped
  {
    if At(m[..|m| - 1], a).Mapped? {
      var i := AtWitness(m[..|m| - 1], a);
    }
  }

  // ---------- machine words ----------

  /** The attributes that an attribute word stands for; EFI_MEMORY_RUNTIME is the highest bit. */
  function Unpack(word: bv64): Attributes {
    Attributes(word & 0x8000_0000_0000_0000 != 0, word & 0x7FFF_FFFF_FFFF_FFFF)
  }

  /** Setting or clearing the runtime bit of the word changes exactly the runtime attribute. */
  lemma RuntimeBit(word: bv64)
    ensures Unpack(word | 0x8000_0000_0000_0000) == Unpack(word).(runtime := true)
    ensures Unpack(word & 0x7FFF_FFFF_FFFF_FFFF) == Unpack(word).(runtime := false)
  {
  }

  /** Different words have different attributes. */
  lemma UnpackInjective(word: bv64, word': bv64)
    requires Unpack(word) == Unpack(word')
    ensures word == word'
  {
  }
}
