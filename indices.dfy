/** The `index` attribute that numbers the atoms of a `Batoms` collection:
    as `from_species` assigns it (old_batoms.py:195-234), as `extend`
    shifts it (old_batoms.py:891-898) and as `update_index` repairs it
    (old_batoms.py:1447-1453).

    `from_species` keeps, per species, an attributes dictionary and gives a
    species the block `range(n, n1)` only when that dictionary has no
    `index` yet. The dictionary the constructor hands it defaults to one
    `{}` shared by every call (old_batoms.py:98), so indices written by one
    collection are read back by the next; `AttributeStore` models that
    dictionary as state that outlives a call. */
module Indices {
  import opened Wrappers

  /** One entry of the species dictionary: a species and how many
      positions it has. */
  datatype Entry = Entry(sp: string, count: nat)

  /** `range(lo, hi)` */
  function Range(lo: int, hi: int): (r: seq<int>)
    requires lo <= hi
    ensures |r| == hi - lo && forall k :: 0 <= k < |r| ==> r[k] == lo + k
  {
    seq(hi - lo, k => lo + k)
  }

  function Flatten(xss: seq<seq<int>>): seq<int>
  {
    if xss == [] then [] else xss[0] + Flatten(xss[1..])
  }

  function Sum(counts: seq<nat>): nat
  {
    if counts == [] then 0 else counts[0] + Sum(counts[1..])
  }

  function Counts(species: seq<Entry>): (r: seq<nat>)
    ensures |r| == |species| && forall k :: 0 <= k < |r| ==> r[k] == species[k].count
  {
    seq(|species|, k requires 0 <= k < |species| => species[k].count)
  }

  /** Consecutive blocks of the given sizes, the first starting at `n`. */
  function Blocks(counts: seq<nat>, n: int): (r: seq<seq<int>>)
    ensures |r| == |counts|
  {
    if counts == [] then [] else [Range(n, n + counts[0])] + Blocks(counts[1..], n + counts[0])
  }

  /** The blocks laid end to end number the atoms `n .. n + total - 1`,
      each exactly once and in order. */
  lemma {:induction false} BlocksNumberAtoms(counts: seq<nat>, n: int)
    ensures Flatten(Blocks(counts, n)) == Range(n, n + Sum(counts))
  {
    if counts != [] {
      BlocksNumberAtoms(counts[1..], n + counts[0]);
      var b := Blocks(counts, n);
      assert b[1..] == Blocks(counts[1..], n + counts[0]);
    }
  }

  predicate SpeciesDistinct(species: seq<Entry>)
  {
    forall j, k :: 0 <= j < k < |species| ==> species[j].sp != species[k].sp
  }

  /** The store after the entry `e` is seen with the counter at `n`: a
      species without an `index` gets the block `range(n, n + count)`. */
  function Visit(store: map<string, seq<int>>, e: Entry, n: int): (r: map<string, seq<int>>)
    ensures e.sp in r
  {
    if e.sp in store then store else store[e.sp := Range(n, n + e.count)]
  }

  /** The index arrays `from_species` gives the batoms of a species
      dictionary, starting the running counter at `n`: the stored `index`
      of a species that has one, the next block otherwise. */
  function AssignedIndices(store: map<string, seq<int>>, species: seq<Entry>, n: int): (r: seq<seq<int>>)
    ensures |r| == |species|
    decreases |species|
  {
    if species == [] then []
    else
      var e := species[0];
      var store' := Visit(store, e, n);
      [store'[e.sp]] + AssignedIndices(store', species[1..], n + e.count)
  }

  /** The attributes dictionary after the call. */
  function StoreAfter(store: map<string, seq<int>>, species: seq<Entry>, n: int): map<string, seq<int>>
    decreases |species|
  {
    if species == [] then store
    else StoreAfter(Visit(store, species[0], n), species[1..], n + species[0].count)
  }

  /** Stored indices are never overwritten, and every species of the
      dictionary ends up with one. */
  lemma {:induction false} StoreOnlyGrows(store: map<string, seq<int>>, species: seq<Entry>, n: int)
    ensures forall sp :: sp in store ==> sp in StoreAfter(store, species, n) && StoreAfter(store, species, n)[sp] == store[sp]
    ensures forall k :: 0 <= k < |species| ==> species[k].sp in StoreAfter(store, species, n)
    decreases |species|
  {
    if species != [] {
      var store' := Visit(store, species[0], n);
      StoreOnlyGrows(store', species[1..], n + species[0].count);
      assert forall k :: 1 <= k < |species| ==> species[k] == species[1..][k - 1];
    }
  }

  /** A species that already has a stored index gets that index, wherever
      it stands in the dictionary and whatever the counter says. */
  lemma {:induction false} StoredIndexReused(store: map<string, seq<int>>, species: seq<Entry>, n: int, k: nat)
    requires k < |species| && species[k].sp in store
    ensures AssignedIndices(store, species, n)[k] == store[species[k].sp]
    decreases k
  {
    var store' := Visit(store, species[0], n);
    if k > 0 {
      assert species[1..][k - 1] == species[k];
      StoredIndexReused(store', species[1..], n + species[0].count, k - 1);
    }
  }

  /** When no species of the dictionary has a stored index, the batoms get
      consecutive blocks from the counter on. */
  lemma {:induction false} UnstoredGetBlocks(store: map<string, seq<int>>, species: seq<Entry>, n: int)
    requires SpeciesDistinct(species)
    requires forall k :: 0 <= k < |species| ==> species[k].sp !in store
    ensures AssignedIndices(store, species, n) == Blocks(Counts(species), n)
    decreases |species|
  {
    if species != [] {
      var store' := Visit(store, species[0], n);
      assert forall k :: 0 <= k < |species[1..]| ==> species[1..][k] == species[k + 1];
      UnstoredGetBlocks(store', species[1..], n + species[0].count);
      assert Counts(species)[1..] == Counts(species[1..]);
    }
  }

  /** The intended behaviour: with an attributes dictionary of its own,
      empty at the start, `from_species` numbers the atoms of the species
      dictionary 0 .. N-1, species after species. */
  function FreshIndices(species: seq<Entry>): (r: seq<seq<int>>)
    requires SpeciesDistinct(species)
    ensures |r| == |species| && Flatten(r) == Range(0, Sum(Counts(species)))
    ensures forall k :: 0 <= k < |species| ==> |r[k]| == species[k].count
  {
    UnstoredGetBlocks(map[], species, 0);
    BlocksNumberAtoms(Counts(species), 0);
    BlockSizes(Counts(species), 0);
    AssignedIndices(map[], species, 0)
  }

  lemma {:induction false} BlockSizes(counts: seq<nat>, n: int)
    ensures forall k :: 0 <= k < |counts| ==> |Blocks(counts, n)[k]| == counts[k]
  {
    if counts != [] {
      BlockSizes(counts[1..], n + counts[0]);
      assert forall k :: 1 <= k < |counts| ==> Blocks(counts, n)[k] == Blocks(counts[1..], n + counts[0])[k - 1];
    }
  }

  /** The attributes dictionary the constructor passes to `from_species`
      when none is given: one dictionary for the lifetime of the program. */
  class AttributeStore {
    var index: map<string, seq<int>>

    constructor ()
      ensures index == map[]
    {
      index := map[];
    }

    /** The dictionary branch of `from_species`: the running counter `n`
        advances by every species' count, and a species receives a new
        block only when the store has no `index` for it. */
    method FromSpecies(species: seq<Entry>) returns (indices: seq<seq<int>>)
      modifies this
      ensures indices == AssignedIndices(old(index), species, 0)
      ensures index == StoreAfter(old(index), species, 0)
    {
      indices := [];
      var n := 0;
      var k := 0;
      while k < |species|
        invariant 0 <= k <= |species|
        invariant indices + AssignedIndices(index, species[k..], n) == AssignedIndices(old(index), species, 0)
        invariant StoreAfter(index, species[k..], n) == StoreAfter(old(index), species, 0)
      {
        var e := species[k];
        AssignStep(index, species, k, n);
        var n1 := n + e.count;
        if e.sp !in index {
          index := index[e.sp := Range(n, n1)];
        }
        indices := indices + [index[e.sp]];
        n := n1;
        k := k + 1;
      }
    }
  }

  /** One step of the dictionary loop: the entry at `k` is handled, then
      the rest with the counter advanced. */
  lemma AssignStep(store: map<string, seq<int>>, species: seq<Entry>, k: nat, n: int)
    requires k < |species|
    ensures var store' := Visit(store, species[k], n);
            && AssignedIndices(store, species[k..], n)
               == [store'[species[k].sp]] + AssignedIndices(store', species[k + 1..], n + species[k].count)
            && StoreAfter(store, species[k..], n) == StoreAfter(store', species[k + 1..], n + species[k].count)
  {
    assert species[k..][0] == species[k] && species[k..][1..] == species[k + 1..];
  }

  /** Two collections built one after the other from species dictionaries
      share the store. Water first stores H -> [0] and O -> [1]; a second
      collection of O and C then gives O its stale [1] and C the fresh
      block [1]: two atoms carry index 1 and none carries 0. */
  lemma StaleIndexCollision()
    ensures var first := [Entry("H", 1), Entry("O", 1)];
            var second := [Entry("O", 1), Entry("C", 1)];
            var store := StoreAfter(map[], first, 0);
            && AssignedIndices(store, second, 0) == [[1], [1]]
            && FreshIndices(second) == [[0], [1]]
  {
    assert Range(1, 2) == [1];
    assert Range(0, 1) == [0];
    var first := [Entry("H", 1), Entry("O", 1)];
    var s1 := map["H" := [0]];
    assert StoreAfter(map[], first, 0) == StoreAfter(s1, first[1..], 1);
    assert first[1..][1..] == [];
    assert StoreAfter(s1, first[1..], 1) == StoreAfter(s1["O" := [1]], [], 2);
    var store := StoreAfter(map[], first, 0);
    assert store == map["H" := [0], "O" := [1]];
    var second := [Entry("O", 1), Entry("C", 1)];
    assert second[1..][1..] == [];
    assert AssignedIndices(store, second, 0) == [[1]] + AssignedIndices(store, second[1..], 1);
    assert AssignedIndices(map[], second, 0) == [[0]] + AssignedIndices(map[], second[1..], 1);
  }

  /** The list branch of `from_species` (Batom objects given directly):
      a counter `i0` gives each batom the block `arange(i0, i1)`. */
  method ListIndices(counts: seq<nat>) returns (indices: seq<seq<int>>)
    ensures indices == Blocks(counts, 0)
    ensures Flatten(indices) == Range(0, Sum(counts))
  {
    indices := [];
    var i0 := 0;
    var k := 0;
    while k < |counts|
      invariant 0 <= k <= |counts|
      invariant indices + Blocks(counts[k..], i0) == Blocks(counts, 0)
    {
      assert counts[k..][0] == counts[k] && counts[k..][1..] == counts[k + 1..];
      var i1 := i0 + counts[k];
      indices := indices + [Range(i0, i1)];
      i0 := i1;
      k := k + 1;
    }
    assert counts[k..] == [];
    BlocksNumberAtoms(counts, 0);
  }

  /** `extend`: every batom of the other collection has `natom` added to
      its index before it joins this one. */
  method ExtendIndices(natom: nat, other: seq<seq<int>>) returns (shifted: seq<seq<int>>)
    ensures |shifted| == |other|
    ensures forall k :: 0 <= k < |other| ==> |shifted[k]| == |other[k]|
    ensures forall k, t :: 0 <= k < |other| && 0 <= t < |other[k]| ==> shifted[k][t] == other[k][t] + natom
  {
    shifted := [];
    var k := 0;
    while k < |other|
      invariant 0 <= k <= |other|
      invariant |shifted| == k
      invariant forall j :: 0 <= j < k ==> |shifted[j]| == |other[j]|
      invariant forall j, t :: 0 <= j < k && 0 <= t < |other[j]| ==> shifted[j][t] == other[j][t] + natom
    {
      var b := other[k];
      shifted := shifted + [seq(|b|, t requires 0 <= t < |b| => b[t] + natom)];
      k := k + 1;
    }
  }

  lemma {:induction false} FlattenShifted(other: seq<seq<int>>, shifted: seq<seq<int>>, natom: int)
    requires |shifted| == |other|
    requires forall k :: 0 <= k < |other| ==> |shifted[k]| == |other[k]|
    requires forall k, t :: 0 <= k < |other| && 0 <= t < |other[k]| ==> shifted[k][t] == other[k][t] + natom
    ensures |Flatten(shifted)| == |Flatten(other)|
    ensures forall t :: 0 <= t < |Flatten(other)| ==> Flatten(shifted)[t] == Flatten(other)[t] + natom
  {
    if other != [] {
      FlattenShifted(other[1..], shifted[1..], natom);
    }
  }

  /** A collection numbered 0 .. natom-1 extended by one numbered
      0 .. m-1 is numbered 0 .. natom+m-1. */
  lemma ExtendKeepsNumbering(natom: nat, mine: seq<int>, other: seq<seq<int>>, shifted: seq<seq<int>>, m: nat)
    requires mine == Range(0, natom) && Flatten(other) == Range(0, m)
    requires |shifted| == |other|
    requires forall k :: 0 <= k < |other| ==> |shifted[k]| == |other[k]|
    requires forall k, t :: 0 <= k < |other| && 0 <= t < |other[k]| ==> shifted[k][t] == other[k][t] + natom
    ensures mine + Flatten(shifted) == Range(0, natom + m)
  {
    FlattenShifted(other, shifted, natom);
  }

  /** `max(indices)` */
  function MaxOf(xs: seq<int>): (m: int)
    requires xs != []
    ensures (forall k :: 0 <= k < |xs| ==> xs[k] <= m) && (exists k :: 0 <= k < |xs| && xs[k] == m)
  {
    if |xs| == 1 then xs[0]
    else
      var m := MaxOf(xs[1..]);
      assert forall k :: 1 <= k < |xs| ==> xs[k] == xs[1..][k - 1];
      if xs[0] >= m then xs[0] else m
  }

  /** `update_index`: indices whose maximum is not natom-1 are replaced by
      0 .. natom-1; `max` of no indices raises. */
  function UpdateIndex(indices: seq<int>, natom: nat): (r: Result<seq<int>, string>)
    ensures indices == [] <==> r.Err?
    ensures r.Ok? ==> (r.value == indices <==> MaxOf(indices) == natom - 1 || indices == Range(0, natom))
    ensures r.Ok? && MaxOf(indices) == natom - 1 ==> r.value == indices
    ensures r.Ok? && MaxOf(indices) != natom - 1 ==> r.value == Range(0, natom)
  {
    if indices == [] then Err("max() arg is an empty sequence")
    else if MaxOf(indices) != natom - 1 then Ok(Range(0, natom))
    else Ok(indices)
  }

  /** Whatever the input, the indices that come back end at natom-1. */
  lemma UpdateIndexEndsAtLast(indices: seq<int>, natom: nat)
    requires natom > 0 && UpdateIndex(indices, natom).Ok?
    ensures MaxOf(UpdateIndex(indices, natom).value) == natom - 1
  {
    var r := UpdateIndex(indices, natom).value;
    if MaxOf(indices) != natom - 1 {
      assert r[natom - 1] == natom - 1;
    }
  }

  /** After a repair the maximum is natom-1, so a second call changes
      nothing. */
  lemma UpdateIndexIdempotent(indices: seq<int>, natom: nat)
    requires natom > 0 && UpdateIndex(indices, natom).Ok?
    ensures UpdateIndex(UpdateIndex(indices, natom).value, natom) == UpdateIndex(indices, natom)
  {
    UpdateIndexEndsAtLast(indices, natom);
  }

  /** The repair looks at the maximum only: the colliding indices of
      `StaleIndexCollision` already end at natom-1 and are kept. */
  lemma UpdateIndexKeepsCollision()
    ensures UpdateIndex([1, 1], 2) == Ok([1, 1])
  {
    assert MaxOf([1, 1]) == 1;
  }
}
