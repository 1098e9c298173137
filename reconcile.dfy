/** `Batoms.draw_boundary_atoms` (old_batoms.py:1132-1152): pads the
    boundary (or search) atoms of every frame to a fixed number of slots per
    species, so that every frame of the animation has arrays of the same
    shape. Each species gets an `nframe x nsps[sp]` array, every slot
    starting at the cell origin; frame `i` adds its own positions of the
    species to the first slots and repeats its first one in the rest, or,
    when it has none, repeats the first canonical atom of the species taken
    from the structure's frames. */
module Reconcile {
  import opened Geometry
  import opened BoundaryUpdate

  /** What the caller must supply so that no slice in the loop fails: a
      canonical frame for every padded frame, no frame with more atoms of a
      species than its slots, and a canonical atom of the species wherever a
      frame has none of it and there are slots to fill. A species with no
      slots needs no canonical atom (see `TempIndexDefined` for the loop as
      written, which reads `temp[0]` regardless). */
  predicate PaddingDefined(frames: seq<Frame>, nsps: map<string, nat>, frames0: seq<Frame>,
                           species: seq<string>)
  {
    && |frames| <= |frames0|
    && (forall sp :: sp in species ==> sp in nsps)
    && (forall sp, i :: sp in species && 0 <= i < |frames| ==>
          CountOf(frames[i], sp) <= nsps[sp]
          && (CountOf(frames[i], sp) == 0 && nsps[sp] > 0 ==> CountOf(frames0[i], sp) > 0))
  }

  /** The loop as written evaluates `temp[0]` for every species a frame
      lacks, even when the species has no slot and the padding it feeds is
      empty: it needs a canonical atom there too. */
  predicate TempIndexDefined(frames: seq<Frame>, frames0: seq<Frame>, species: seq<string>)
    requires |frames| <= |frames0|
  {
    forall sp, i :: sp in species && 0 <= i < |frames| && CountOf(frames[i], sp) == 0 ==>
      CountOf(frames0[i], sp) > 0
  }

  /** The value slot `j` of frame `i` holds for species `sp`. */
  function PaddedSlot(frames: seq<Frame>, frames0: seq<Frame>, sp: string, i: nat, j: nat,
                      origin: Vec3): Vec3
    requires i < |frames| && i < |frames0|
    requires CountOf(frames[i], sp) == 0 ==> CountOf(frames0[i], sp) > 0
  {
    var ps := PositionsOf(frames[i], sp);
    if |ps| == 0 then Add(origin, PositionsOf(frames0[i], sp)[0])
    else if j < |ps| then Add(origin, ps[j])
    else Add(origin, ps[0])
  }

  /** `a[i, lo:lo+len(vals), :] += vals` */
  method AddSlice(a: array2<Vec3>, i: nat, lo: nat, vals: seq<Vec3>)
    requires i < a.Length0 && lo + |vals| <= a.Length1
    modifies a
    ensures forall r, c :: 0 <= r < a.Length0 && 0 <= c < a.Length1 ==>
              a[r, c] == if r == i && lo <= c < lo + |vals| then Add(old(a[r, c]), vals[c - lo])
                         else old(a[r, c])
  {
    var k := 0;
    while k < |vals|
      invariant 0 <= k <= |vals|
      invariant forall r, c :: 0 <= r < a.Length0 && 0 <= c < a.Length1 ==>
                  a[r, c] == if r == i && lo <= c < lo + k then Add(old(a[r, c]), vals[c - lo])
                             else old(a[r, c])
    {
      a[i, lo + k] := Add(a[i, lo + k], vals[k]);
      k := k + 1;
    }
  }

  /** The body of the species loop for frame `i`: row `i` of `a`, which
      still holds the origin, receives the frame's positions and padding.
      A frame without the species reads the canonical atom only when the
      row has slots to fill. */
  method FillRow(a: array2<Vec3>, i: nat, frames: seq<Frame>, frames0: seq<Frame>, sp: string,
                 origin: Vec3)
    requires i < a.Length0 && i < |frames| && i < |frames0|
    requires CountOf(frames[i], sp) <= a.Length1
    requires CountOf(frames[i], sp) == 0 && a.Length1 > 0 ==> CountOf(frames0[i], sp) > 0
    requires forall c :: 0 <= c < a.Length1 ==> a[i, c] == origin
    modifies a
    ensures forall r, c :: 0 <= r < a.Length0 && 0 <= c < a.Length1 ==>
              a[r, c] == if r == i then PaddedSlot(frames, frames0, sp, i, c, origin) else old(a[r, c])
  {
    var positions := PositionsOf(frames[i], sp);
    var m := |positions|;
    if m == 0 {
      if a.Length1 > 0 {
        var temp := PositionsOf(frames0[i], sp);
        AddSlice(a, i, m, Repeat(temp[0], a.Length1 - m));
      }
    } else {
      AddSlice(a, i, 0, positions);
      AddSlice(a, i, m, Repeat(positions[0], a.Length1 - m));
    }
  }

  /** No two species share an array. */
  predicate Distinct(positions: map<string, array2<Vec3>>)
  {
    forall s, t :: s in positions && t in positions && s != t ==> positions[s] != positions[t]
  }

  /** `{sp: np.zeros((nframe, nsps[sp], 3)) + origin for sp in species}` */
  method Allocate(nframe: nat, nsps: map<string, nat>, species: seq<string>, origin: Vec3)
    returns (positions: map<string, array2<Vec3>>)
    requires forall sp :: sp in species ==> sp in nsps
    ensures positions.Keys == set sp | sp in species
    ensures Distinct(positions)
    ensures forall s :: s in positions ==>
              && fresh(positions[s])
              && positions[s].Length0 == nframe && positions[s].Length1 == nsps[s]
              && forall r, c :: 0 <= r < nframe && 0 <= c < nsps[s] ==> positions[s][r, c] == origin
  {
    positions := map[];
    var k := 0;
    while k < |species|
      invariant 0 <= k <= |species|
      invariant positions.Keys == set sp | sp in species[..k]
      invariant Distinct(positions)
      invariant forall s :: s in positions ==>
                  && fresh(positions[s])
                  && positions[s].Length0 == nframe && positions[s].Length1 == nsps[s]
                  && forall r, c :: 0 <= r < nframe && 0 <= c < nsps[s] ==> positions[s][r, c] == origin
    {
      var sp := species[k];
      var a := new Vec3[nframe, nsps[sp]]((r, c) => origin);
      positions := positions[sp := a];
      assert species[..k + 1] == species[..k] + [sp];
      k := k + 1;
    }
    assert species[..k] == species;
  }

  /** The species loop for frame `i`: row `i` of every species' array, still
      at the origin, receives that frame's positions and padding. */
  method FillFrame(positions: map<string, array2<Vec3>>, i: nat, frames: seq<Frame>,
                   nsps: map<string, nat>, frames0: seq<Frame>, species: seq<string>, origin: Vec3)
    requires forall p, q :: 0 <= p < q < |species| ==> species[p] != species[q]
    requires PaddingDefined(frames, nsps, frames0, species)
    requires i < |frames|
    requires positions.Keys == set sp | sp in species
    requires Distinct(positions)
    requires forall s :: s in positions ==>
               && positions[s].Length0 == |frames| && positions[s].Length1 == nsps[s]
               && forall c :: 0 <= c < nsps[s] ==> positions[s][i, c] == origin
    modifies set s | s in positions :: positions[s]
    ensures forall s :: s in positions ==>
              forall r, c :: 0 <= r < |frames| && 0 <= c < nsps[s] ==>
                positions[s][r, c] == if r == i then PaddedSlot(frames, frames0, s, r, c, origin)
                                      else old(positions[s][r, c])
  {
    var k := 0;
    while k < |species|
      invariant 0 <= k <= |species|
      invariant forall s :: s in positions ==>
                  forall r, c :: 0 <= r < |frames| && 0 <= c < nsps[s] ==>
                    positions[s][r, c] == if r == i && s in species[..k]
                                          then PaddedSlot(frames, frames0, s, r, c, origin)
                                          else old(positions[s][r, c])
    {
      var sp := species[k];
      assert sp !in species[..k];
      FillRow(positions[sp], i, frames, frames0, sp, origin);
      assert species[..k + 1] == species[..k] + [sp];
      k := k + 1;
    }
    assert species[..k] == species;
  }

  /** draw_boundary_atoms: no frames, nothing drawn; otherwise one padded
      array per species. */
  method DrawBoundaryAtoms(frames: seq<Frame>, nsps: map<string, nat>, frames0: seq<Frame>,
                           species: seq<string>, origin: Vec3)
    returns (positions: map<string, array2<Vec3>>)
    requires forall p, q :: 0 <= p < q < |species| ==> species[p] != species[q]
    requires PaddingDefined(frames, nsps, frames0, species)
    ensures |frames| == 0 ==> positions == map[]
    ensures |frames| > 0 ==> positions.Keys == set sp | sp in species
    ensures forall sp :: sp in positions ==>
              && fresh(positions[sp])
              && positions[sp].Length0 == |frames| && positions[sp].Length1 == nsps[sp]
              && forall i, j :: 0 <= i < |frames| && 0 <= j < nsps[sp] ==>
                   positions[sp][i, j] == PaddedSlot(frames, frames0, sp, i, j, origin)
  {
    var nframe := |frames|;
    if nframe == 0 { return map[]; }
    positions := Allocate(nframe, nsps, species, origin);
    var i := 0;
    while i < nframe
      invariant 0 <= i <= nframe
      invariant forall s :: s in positions ==>
                  && fresh(positions[s])
                  && positions[s].Length0 == nframe && positions[s].Length1 == nsps[s]
                  && forall r, c :: 0 <= r < nframe && 0 <= c < nsps[s] ==>
                       positions[s][r, c] == if r < i then PaddedSlot(frames, frames0, s, r, c, origin) else origin
    {
      FillFrame(positions, i, frames, nsps, frames0, species, origin);
      i := i + 1;
    }
  }

  /** `self.frames`: the structure's frames in global coordinates, that is
      the local frames shifted back by the cell origin. */
  function Globalize(frames: seq<LocalFrame>, origin: Vec3): (g: seq<Frame>)
    ensures |g| == |frames|
    ensures forall k :: 0 <= k < |frames| ==> g[k] == Shift(frames[k].atoms, origin)
  {
    seq(|frames|, k requires 0 <= k < |frames| => Shift(frames[k].atoms, origin))
  }

  /** Every species has an atom in every frame of the structure. */
  predicate SpeciesPresent(frames: seq<LocalFrame>, species: seq<string>)
  {
    forall sp, f :: sp in species && 0 <= f < |frames| ==> CountOf(frames[f].atoms, sp) > 0
  }

  /** The running maxima of update_boundary meet draw_boundary_atoms' needs. */
  lemma {:induction false} MaximaMakePaddingDefined(frames: seq<LocalFrame>, fs: seq<Frame>,
                                                    species: seq<string>, origin: Vec3)
    requires |fs| <= |frames|
    requires |fs| == 0 || SpeciesPresent(frames, species)
    ensures PaddingDefined(fs, MaxCounts(fs, species), Globalize(frames, origin), species)
  {
    forall sp, i | sp in species && 0 <= i < |fs|
      ensures CountOf(fs[i], sp) <= MaxCounts(fs, species)[sp]
      ensures CountOf(Globalize(frames, origin)[i], sp) > 0
    {
      MaxCountBounds(fs, sp);
      PositionsOfShift(frames[i].atoms, origin, sp);
    }
  }

  /** update_boundary followed by its two calls of draw_boundary_atoms: the
      boundary and search frames are built from the local frames, and the
      padding falls back on `self.frames`, the global ones. */
  method RedrawBoundary(frames: seq<LocalFrame>, species: seq<string>, search: seq<SearchOutput>,
                        cell: Cell, origin: Vec3)
    returns (boundaryPositions: map<string, array2<Vec3>>, searchPositions: map<string, array2<Vec3>>)
    requires |search| == |frames|
    requires SearchOffsetsValid(frames, search)
    requires forall p, q :: 0 <= p < q < |species| ==> species[p] != species[q]
    requires (exists f :: 0 <= f < |frames| && AnyPeriodic(frames[f].pbc)) ==> SpeciesPresent(frames, species)
    ensures var bf := BoundaryFrames(frames, search, |frames|);
            var frames0 := Globalize(frames, origin);
            && PaddingDefined(bf, MaxCounts(bf, species), frames0, species)
            && (|bf| == 0 ==> boundaryPositions == map[])
            && (|bf| > 0 ==> boundaryPositions.Keys == set sp | sp in species)
            && forall sp :: sp in boundaryPositions ==>
                 && fresh(boundaryPositions[sp])
                 && boundaryPositions[sp].Length0 == |bf|
                 && boundaryPositions[sp].Length1 == MaxCount(bf, sp)
                 && forall i, j :: 0 <= i < |bf| && 0 <= j < MaxCount(bf, sp) ==>
                      boundaryPositions[sp][i, j] == PaddedSlot(bf, frames0, sp, i, j, origin)
    ensures var sf := SearchFrames(frames, search, cell, |frames|);
            var frames0 := Globalize(frames, origin);
            && PaddingDefined(sf, MaxCounts(sf, species), frames0, species)
            && (|sf| == 0 ==> searchPositions == map[])
            && (|sf| > 0 ==> searchPositions.Keys == set sp | sp in species)
            && forall sp :: sp in searchPositions ==>
                 && fresh(searchPositions[sp])
                 && searchPositions[sp].Length0 == |sf|
                 && searchPositions[sp].Length1 == MaxCount(sf, sp)
                 && forall i, j :: 0 <= i < |sf| && 0 <= j < MaxCount(sf, sp) ==>
                      searchPositions[sp][i, j] == PaddedSlot(sf, frames0, sp, i, j, origin)
  {
    var framesBoundary, framesSearch, maxBoundary, maxSearch := UpdateBoundary(frames, species, search, cell);
    var frames0 := Globalize(frames, origin);
    BoundaryFramesArePeriodic(frames, search, |frames|);
    MaximaMakePaddingDefined(frames, framesBoundary, species, origin);
    MaximaMakePaddingDefined(frames, framesSearch, species, origin);
    boundaryPositions := DrawBoundaryAtoms(framesBoundary, maxBoundary, frames0, species, origin);
    searchPositions := DrawBoundaryAtoms(framesSearch, maxSearch, frames0, species, origin);
  }

  /** Every slot holds the origin plus the position of an atom of the
      species: one of the frame's own, or, if it has none, a canonical one. */
  lemma SlotIsAtomSite(frames: seq<Frame>, frames0: seq<Frame>, sp: string, i: nat, j: nat, origin: Vec3)
    requires i < |frames| && i < |frames0|
    requires CountOf(frames[i], sp) == 0 ==> CountOf(frames0[i], sp) > 0
    ensures CountOf(frames[i], sp) > 0 ==>
              exists t :: 0 <= t < |frames[i]| && frames[i][t].species == sp
                          && PaddedSlot(frames, frames0, sp, i, j, origin) == Add(origin, frames[i][t].position)
    ensures CountOf(frames[i], sp) == 0 ==>
              exists t :: 0 <= t < |frames0[i]| && frames0[i][t].species == sp
                          && PaddedSlot(frames, frames0, sp, i, j, origin) == Add(origin, frames0[i][t].position)
  {
    var m := CountOf(frames[i], sp);
    if m == 0 {
      PositionsOfAreAtoms(frames0[i], sp, 0);
    } else if j < m {
      PositionsOfAreAtoms(frames[i], sp, j);
    } else {
      PositionsOfAreAtoms(frames[i], sp, 0);
    }
  }

  /** The padding within a frame: slots `[0, m)` are the frame's own
      positions in order and slots `[m, n)` repeat the first of them, each
      shifted by the origin. */
  lemma PaddedRow(frames: seq<Frame>, frames0: seq<Frame>, sp: string, i: nat, n: nat, origin: Vec3)
    requires i < |frames| && i < |frames0|
    requires 0 < CountOf(frames[i], sp) <= n
    ensures var ps := PositionsOf(frames[i], sp);
            seq(n, j requires 0 <= j < n => PaddedSlot(frames, frames0, sp, i, j, origin))
            == seq(|ps|, j requires 0 <= j < |ps| => Add(origin, ps[j]))
               + Repeat(Add(origin, ps[0]), n - |ps|)
  {
  }

  /** In update_boundary's pipeline the atoms of a frame that has the species
      are local positions and get the origin once, while the fallback reads
      the global frame and gets the origin a second time. */
  lemma {:induction false} EmptySpeciesPadShiftedTwice(frames: seq<LocalFrame>, search: seq<SearchOutput>,
                                                       sp: string, i: nat, j: nat, origin: Vec3)
    requires |search| == |frames|
    requires i < |BoundaryFrames(frames, search, |frames|)|
    requires CountOf(BoundaryFrames(frames, search, |frames|)[i], sp) == 0
    requires CountOf(frames[i].atoms, sp) > 0
    ensures CountOf(Globalize(frames, origin)[i], sp) > 0
    ensures PaddedSlot(BoundaryFrames(frames, search, |frames|), Globalize(frames, origin), sp, i, j, origin)
            == Add(origin, Add(PositionsOf(frames[i].atoms, sp)[0], origin))
  {
    PositionsOfShift(frames[i].atoms, origin, sp);
  }

  /** A concrete instance: origin (1, 0, 0), one atom of species "A" at the
      local origin. A frame without boundary "A" atoms is padded at (2, 0, 0),
      not at the atom's global position (1, 0, 0). */
  lemma EmptySpeciesPadExample()
    ensures var origin := Vec3(1.0, 0.0, 0.0);
            var local := [LocalFrame([Atom("A", Zero)], [true])];
            var search := [SearchOutput([], [], [], [])];
            && BoundaryFrames(local, search, 1) == [[]]
            && PaddedSlot([[]], Globalize(local, origin), "A", 0, 0, origin) == Vec3(2.0, 0.0, 0.0)
            && Add(Zero, origin) == Vec3(1.0, 0.0, 0.0)
  {
    var origin := Vec3(1.0, 0.0, 0.0);
    var local := [LocalFrame([Atom("A", Zero)], [true])];
    assert local[0].pbc[0];
    assert Globalize(local, origin)[0] == [Atom("A", origin)];
  }

  /** With the slot count taken into account, a species needs a canonical
      atom only where some padded frame has it: a species that every frame
      of the structure has, or that no padded frame has (a ghost species,
      whose atoms `self.frames` leaves out), is always padded. */
  lemma SlotlessSpeciesNeedNoFallback(fs: seq<Frame>, frames0: seq<Frame>, species: seq<string>)
    requires |fs| <= |frames0|
    requires forall sp :: sp in species ==>
               (forall i :: 0 <= i < |fs| ==> CountOf(frames0[i], sp) > 0)
               || (forall i :: 0 <= i < |fs| ==> CountOf(fs[i], sp) == 0)
    ensures PaddingDefined(fs, MaxCounts(fs, species), frames0, species)
  {
    forall sp, i | sp in species && 0 <= i < |fs|
      ensures CountOf(fs[i], sp) <= MaxCounts(fs, species)[sp]
      ensures CountOf(fs[i], sp) == 0 && MaxCounts(fs, species)[sp] > 0 ==> CountOf(frames0[i], sp) > 0
    {
      MaxCountBounds(fs, sp);
      MaxCountAttained(fs, sp);
    }
  }

  /** A periodic structure with a ghost species "X": `self.species` lists it,
      but neither the boundary frame nor `self.frames` holds an "X" atom. The
      loop as written reads `temp[0]` of an empty array, although "X" has no
      slot; with the slot count taken into account the padding is defined. */
  lemma GhostSpeciesRaises()
    ensures var local := [LocalFrame([Atom("A", Zero)], [true])];
            var search := [SearchOutput([], [], [], [])];
            var bf := BoundaryFrames(local, search, 1);
            var frames0 := Globalize(local, Zero);
            && bf == [[]]
            && MaxCounts(bf, ["A", "X"])["X"] == 0
            && !TempIndexDefined(bf, frames0, ["A", "X"])
            && PaddingDefined(bf, MaxCounts(bf, ["A", "X"]), frames0, ["A", "X"])
  {
    var local := [LocalFrame([Atom("A", Zero)], [true])];
    var search := [SearchOutput([], [], [], [])];
    assert local[0].pbc[0];
    var frames0 := Globalize(local, Zero);
    assert frames0[0] == [Atom("A", Add(Zero, Zero))];
    assert CountOf(frames0[0], "X") == 0;
    assert CountOf(frames0[0], "A") == 1;
    SlotlessSpeciesNeedNoFallback([[]], frames0, ["A", "X"]);
  }
}
