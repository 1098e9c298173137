/** `Batoms.get_arrays` (old_batoms.py:1408-1445): the per-atom arrays of a
    set of batoms, assembled into preallocated arrays with a running cursor.
    Species names lose their `_boundary` / `_search` suffix; batoms of the
    ghost element `X` are skipped unless asked for, without advancing the
    cursor, so their slots at the end keep their initial values. */
module AtomArrays {
  import opened Geometry
  import opened SpeciesNames

  /** What get_arrays reads of one batom: its species, its (first) element,
      its positions, its radius and its `index` attribute. */
  datatype BatomView = BatomView(species: string, element: string, positions: seq<Vec3>,
                                 radius: real, index: seq<int>)

  /** `n`: the number of atoms of all the batoms. */
  function Count(bs: seq<BatomView>): nat
  {
    if bs == [] then 0 else Count(bs[..|bs| - 1]) + |bs[|bs| - 1].positions|
  }

  /** `if not X and element == 'X': continue` */
  predicate Skipped(b: BatomView, x: bool)
  {
    !x && b.element == "X"
  }

  /** The batoms whose atoms are written, in order. */
  function Kept(bs: seq<BatomView>, x: bool): seq<BatomView>
  {
    if bs == [] then []
    else Kept(bs[..|bs| - 1], x) + (if Skipped(bs[|bs| - 1], x) then [] else [bs[|bs| - 1]])
  }

  function FlatSpecies(bs: seq<BatomView>): (r: seq<string>)
    ensures |r| == Count(bs)
  {
    if bs == [] then []
    else var b := bs[|bs| - 1]; FlatSpecies(bs[..|bs| - 1]) + Repeat(BaseSpecies(b.species), |b.positions|)
  }

  function FlatElements(bs: seq<BatomView>): (r: seq<string>)
    ensures |r| == Count(bs)
  {
    if bs == [] then []
    else var b := bs[|bs| - 1]; FlatElements(bs[..|bs| - 1]) + Repeat(b.element, |b.positions|)
  }

  function FlatRadii(bs: seq<BatomView>): (r: seq<real>)
    ensures |r| == Count(bs)
  {
    if bs == [] then []
    else var b := bs[|bs| - 1]; FlatRadii(bs[..|bs| - 1]) + Repeat(b.radius, |b.positions|)
  }

  function FlatPositions(bs: seq<BatomView>): (r: seq<Vec3>)
    ensures |r| == Count(bs)
  {
    if bs == [] then [] else FlatPositions(bs[..|bs| - 1]) + bs[|bs| - 1].positions
  }

  /** The `index` attribute: the first batom's array, the others appended. */
  function FlatIndex(bs: seq<BatomView>): seq<int>
  {
    if bs == [] then [] else FlatIndex(bs[..|bs| - 1]) + bs[|bs| - 1].index
  }

  /** Skipping batoms never adds atoms. */
  lemma {:induction false} KeptCount(bs: seq<BatomView>, x: bool)
    ensures Count(Kept(bs, x)) <= Count(bs)
  {
    if bs != [] {
      var init := bs[..|bs| - 1];
      var last := bs[|bs| - 1];
      KeptCount(init, x);
      if Skipped(last, x) {
        assert Kept(bs, x) == Kept(init, x) + [];
        assert Kept(bs, x) == Kept(init, x);
      } else {
        CountAppend(Kept(init, x), [last]);
        assert Count([last]) == |last.positions| by {
          assert [last][..0] == [];
        }
      }
    }
  }

  /** Without ghost-element batoms to skip, every batom is kept. */
  lemma {:induction false} KeptAll(bs: seq<BatomView>, x: bool)
    requires forall k :: 0 <= k < |bs| ==> !Skipped(bs[k], x)
    ensures Kept(bs, x) == bs
  {
    if bs != [] {
      var init := bs[..|bs| - 1];
      assert forall k :: 0 <= k < |init| ==> init[k] == bs[k];
      KeptAll(init, x);
      assert init + [bs[|bs| - 1]] == bs;
    }
  }

  lemma {:induction false} CountAppend(a: seq<BatomView>, b: seq<BatomView>)
    ensures Count(a + b) == Count(a) + Count(b)
  {
    if b != [] {
      CountAppend(a, b[..|b| - 1]);
      assert (a + b)[..|a + b| - 1] == a + b[..|b| - 1];
    } else {
      assert a + b == a;
    }
  }

  /** `a` holds `flat` in its first slots and `blank` in the rest. */
  ghost predicate Holds<T>(a: array<T>, flat: seq<T>, blank: T)
    reads a
  {
    |flat| <= a.Length && a[..] == flat + Repeat(blank, a.Length - |flat|)
  }

  /** `arr[i:i1] = vals` on an array whose first `|pre|` slots are
      written and whose other slots are blank: afterwards `pre + vals` is
      written and the rest stays blank. */
  method WriteSlice<T>(a: array<T>, lo: nat, ghost pre: seq<T>, blank: T, vals: seq<T>)
    requires lo == |pre| && lo + |vals| <= a.Length
    requires Holds(a, pre, blank)
    modifies a
    ensures Holds(a, pre + vals, blank)
  {
    assert forall j :: 0 <= j < a.Length ==> a[j] == a[..][j];
    var k := 0;
    while k < |vals|
      invariant 0 <= k <= |vals|
      invariant forall j :: 0 <= j < a.Length ==>
                  a[j] == if j < |pre| then pre[j] else if j < |pre| + k then vals[j - |pre|] else blank
    {
      a[lo + k] := vals[k];
      k := k + 1;
    }
    var want := (pre + vals) + Repeat(blank, a.Length - |pre + vals|);
    assert forall j :: 0 <= j < a.Length ==> a[..][j] == want[j];
  }

  /** The flattened arrays of `bs + [b]` extend those of `bs` by `b`'s atoms. */
  lemma FlatStep(bs: seq<BatomView>, b: BatomView)
    ensures FlatSpecies(bs + [b]) == FlatSpecies(bs) + Repeat(BaseSpecies(b.species), |b.positions|)
    ensures FlatElements(bs + [b]) == FlatElements(bs) + Repeat(b.element, |b.positions|)
    ensures FlatRadii(bs + [b]) == FlatRadii(bs) + Repeat(b.radius, |b.positions|)
    ensures FlatPositions(bs + [b]) == FlatPositions(bs) + b.positions
    ensures FlatIndex(bs + [b]) == FlatIndex(bs) + b.index
    ensures Count(bs + [b]) == Count(bs) + |b.positions|
  {
    assert (bs + [b])[..|bs + [b]| - 1] == bs;
  }

  /** `n`: the number of atoms of all the batoms, summed in a loop. */
  method TotalAtoms(batoms: seq<BatomView>) returns (n: nat)
    ensures n == Count(batoms)
  {
    n := 0;
    var k := 0;
    while k < |batoms|
      invariant 0 <= k <= |batoms|
      invariant n == Count(batoms[..k])
    {
      assert batoms[..k + 1][..k] == batoms[..k];
      n := n + |batoms[k].positions|;
      k := k + 1;
    }
    assert batoms[..k] == batoms;
  }

  /** The arrays after the batoms `kept` are written: their atoms in order,
      then blank slots. */
  predicate Written(aSpecies: array<string>, aElements: array<string>, aPositions: array<Vec3>,
                    aRadii: array<real>, kept: seq<BatomView>, n: nat)
    reads aSpecies, aElements, aPositions, aRadii
  {
    && Count(kept) <= n
    && aSpecies[..] == FlatSpecies(kept) + Repeat("", n - Count(kept))
    && aElements[..] == FlatElements(kept) + Repeat("", n - Count(kept))
    && aPositions[..] == FlatPositions(kept) + Repeat(Zero, n - Count(kept))
    && aRadii[..] == FlatRadii(kept) + Repeat(0.0, n - Count(kept))
  }

  /** The slice assignments of one batom at the cursor `Count(kept)`. */
  method WriteBatom(aSpecies: array<string>, aElements: array<string>, aPositions: array<Vec3>,
                    aRadii: array<real>, ghost kept: seq<BatomView>, i: nat, n: nat, batom: BatomView)
    requires aSpecies != aElements && i == Count(kept)
    requires Written(aSpecies, aElements, aPositions, aRadii, kept, n)
    requires Count(kept) + |batom.positions| <= n
    modifies aSpecies, aElements, aPositions, aRadii
    ensures Written(aSpecies, aElements, aPositions, aRadii, kept + [batom], n)
  {
    FlatStep(kept, batom);
    var len := |batom.positions|;
    assert Holds(aSpecies, FlatSpecies(kept), "") && Holds(aElements, FlatElements(kept), "");
    assert Holds(aRadii, FlatRadii(kept), 0.0) && Holds(aPositions, FlatPositions(kept), Zero);
    WriteSlice(aSpecies, i, FlatSpecies(kept), "", Repeat(BaseSpecies(batom.species), len));
    WriteSlice(aElements, i, FlatElements(kept), "", Repeat(batom.element, len));
    WriteSlice(aRadii, i, FlatRadii(kept), 0.0, Repeat(batom.radius, len));
    WriteSlice(aPositions, i, FlatPositions(kept), Zero, batom.positions);
  }

  /** The loop over the batoms: each kept batom is written at the cursor,
      which then moves past its atoms; a skipped one leaves the cursor where
      it is. */
  method FillArrays(batoms: seq<BatomView>, x: bool, aSpecies: array<string>, aElements: array<string>,
                    aPositions: array<Vec3>, aRadii: array<real>) returns (index: seq<int>)
    requires aSpecies != aElements
    requires Written(aSpecies, aElements, aPositions, aRadii, [], Count(batoms))
    modifies aSpecies, aElements, aPositions, aRadii
    ensures Written(aSpecies, aElements, aPositions, aRadii, Kept(batoms, x), Count(batoms))
    ensures index == FlatIndex(Kept(batoms, x))
  {
    index := [];
    var i := 0;
    ghost var kept: seq<BatomView> := [];
    var k := 0;
    while k < |batoms|
      invariant 0 <= k <= |batoms|
      invariant kept == Kept(batoms[..k], x) && i == Count(kept)
      invariant Written(aSpecies, aElements, aPositions, aRadii, kept, Count(batoms))
      invariant index == FlatIndex(kept)
    {
      var batom := batoms[k];
      KeptStep(batoms, k, x);
      if Skipped(batom, x) {
        k := k + 1;
        continue;
      }
      FlatStep(kept, batom);
      WriteBatom(aSpecies, aElements, aPositions, aRadii, kept, i, Count(batoms), batom);
      index := index + batom.index;
      kept := kept + [batom];
      i := i + |batom.positions|;
      k := k + 1;
    }
    assert batoms[..k] == batoms;
  }

  /** `np.zeros(n)` or `np.empty(n)`: a fresh array of `n` blank slots. */
  method Filled<T>(n: nat, blank: T) returns (a: array<T>)
    ensures fresh(a) && a[..] == Repeat(blank, n)
  {
    a := new T[n](_ => blank);
  }

  /** Blank arrays have no batom written yet. */
  lemma NothingWritten(aSpecies: array<string>, aElements: array<string>, aPositions: array<Vec3>,
                       aRadii: array<real>, n: nat)
    requires aSpecies[..] == Repeat("", n) && aElements[..] == Repeat("", n)
    requires aPositions[..] == Repeat(Zero, n) && aRadii[..] == Repeat(0.0, n)
    ensures Written(aSpecies, aElements, aPositions, aRadii, [], n)
  {
  }

  /** get_arrays without the final sort by index: species, elements,
      positions and radii of the kept batoms in order, followed by the
      untouched slots of the skipped ones, and their `index` attributes
      concatenated. */
  method GetArrays(batoms: seq<BatomView>, x: bool)
    returns (species: seq<string>, elements: seq<string>, positions: seq<Vec3>, radii: seq<real>,
             index: seq<int>)
    ensures var kept := Kept(batoms, x);
            var rest := Count(batoms) - Count(kept);
            && Count(kept) <= Count(batoms)
            && species == FlatSpecies(kept) + Repeat("", rest)
            && elements == FlatElements(kept) + Repeat("", rest)
            && positions == FlatPositions(kept) + Repeat(Zero, rest)
            && radii == FlatRadii(kept) + Repeat(0.0, rest)
            && index == FlatIndex(kept)
  {
    var n := TotalAtoms(batoms);
    var aSpecies := Filled(n, "");
    var aElements := Filled(n, "");
    var aPositions := Filled(n, Zero);
    var aRadii := Filled(n, 0.0);
    NothingWritten(aSpecies, aElements, aPositions, aRadii, n);
    index := FillArrays(batoms, x, aSpecies, aElements, aPositions, aRadii);
    species, elements, positions, radii := aSpecies[..], aElements[..], aPositions[..], aRadii[..];
  }

  /** One more batom: it is kept or skipped, and the cursor stays within
      the atoms seen so far. */
  lemma KeptStep(bs: seq<BatomView>, k: nat, x: bool)
    requires k < |bs|
    ensures Kept(bs[..k + 1], x) == Kept(bs[..k], x) + (if Skipped(bs[k], x) then [] else [bs[k]])
    ensures Count(Kept(bs[..k + 1], x)) <= Count(bs[..k + 1]) <= Count(bs)
  {
    assert bs[..k + 1][..k] == bs[..k];
    KeptCount(bs[..k + 1], x);
    CountPrefix(bs, k + 1);
  }

  lemma {:induction false} CountPrefix(bs: seq<BatomView>, k: nat)
    requires k <= |bs|
    ensures Count(bs[..k]) <= Count(bs)
  {
    if k < |bs| {
      CountPrefix(bs[..|bs| - 1], k);
      assert bs[..|bs| - 1][..k] == bs[..k];
    } else {
      assert bs[..k] == bs;
    }
  }

  /** Without ghost-element batoms every slot is written. */
  lemma NoGhostsFillsAll(bs: seq<BatomView>, x: bool)
    requires forall k :: 0 <= k < |bs| ==> !Skipped(bs[k], x)
    ensures Count(Kept(bs, x)) == Count(bs)
  {
    KeptAll(bs, x);
  }

  /** Atom `t` of a kept batom gets that batom's species with any
      `_boundary`/`_search` suffix removed. */
  lemma {:induction false} SpeciesOfAtom(bs: seq<BatomView>, k: nat, t: nat)
    requires k < |bs| && t < |bs[k].positions|
    ensures Count(bs[..k]) + t < Count(bs)
    ensures FlatSpecies(bs)[Count(bs[..k]) + t] == BaseSpecies(bs[k].species)
    ensures FlatPositions(bs)[Count(bs[..k]) + t] == bs[k].positions[t]
  {
    var init := bs[..|bs| - 1];
    if k == |bs| - 1 {
      assert bs[..k] == init;
    } else {
      SpeciesOfAtom(init, k, t);
      assert init[..k] == bs[..k];
      assert init[k] == bs[k];
    }
  }
  /** Atom `t` of batom `k` also gets its batom's element and radius. */
  lemma {:induction false} AttributesOfAtom(bs: seq<BatomView>, k: nat, t: nat)
    requires k < |bs| && t < |bs[k].positions|
    ensures Count(bs[..k]) + t < Count(bs)
    ensures FlatElements(bs)[Count(bs[..k]) + t] == bs[k].element
    ensures FlatRadii(bs)[Count(bs[..k]) + t] == bs[k].radius
  {
    var init := bs[..|bs| - 1];
    if k == |bs| - 1 {
      assert bs[..k] == init;
    } else {
      AttributesOfAtom(init, k, t);
      assert init[..k] == bs[..k];
      assert init[k] == bs[k];
    }
  }

}
