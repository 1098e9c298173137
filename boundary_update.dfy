/** `Batoms.update_boundary` (old_batoms.py:1081-1129): for every frame of
    the animation it takes the boundary atoms and the three search-offset
    lists found by the periodic search, turns the offsets into translated
    copies of canonical atoms, and keeps, per species, the running maximum
    of the number of boundary and search atoms over the periodic frames.

    The search itself (`search_boundary`, `build_bondlists`,
    `search_bond_list`, `search_bond`) is not part of this model: its results
    arrive, frame by frame, as a `SearchOutput`. */
module BoundaryUpdate {
  import opened Geometry

  /** One frame as `get_frames(..., local = True)` builds it: positions
      relative to the cell origin, and the frame's periodicity flags. */
  datatype LocalFrame = LocalFrame(atoms: Frame, pbc: seq<bool>)

  /** What the unseen search functions return for one frame: the boundary
      atoms (`search_boundary`) and the offsets of search types 1, 2 and the
      final type 1 pass (`search_bond`). */
  datatype SearchOutput = SearchOutput(boundary: Frame, search1: seq<Offset>,
                                       search2: seq<Offset>, search3: seq<Offset>)

  /** `atoms0.pbc.any()` */
  predicate AnyPeriodic(pbc: seq<bool>)
  {
    exists k :: 0 <= k < |pbc| && pbc[k]
  }

  function Max(a: nat, b: nat): nat
  {
    if a < b then b else a
  }

  /** The three offset lists in the order the program appends them. */
  function AllOffsets(s: SearchOutput): seq<Offset>
  {
    s.search1 + s.search2 + s.search3
  }

  predicate OffsetsIn(offs: seq<Offset>, f: Frame)
  {
    forall k :: 0 <= k < |offs| ==> offs[k].atom < |f|
  }

  /** The search atom for one offset row: a copy of canonical atom
      `o.atom`, translated by `o[1:] . cell`. */
  function Image(f: Frame, o: Offset, cell: Cell): Atom
    requires o.atom < |f|
  {
    Atom(f[o.atom].species, Add(f[o.atom].position, Translation(o, cell)))
  }

  /** `atoms0[offsets[:, 0]]` with `offsets[:, 1:] . cell` added to the positions. */
  function SearchAtoms(f: Frame, offs: seq<Offset>, cell: Cell): (r: Frame)
    requires OffsetsIn(offs, f)
    ensures |r| == |offs|
  {
    seq(|offs|, k requires 0 <= k < |offs| => Image(f, offs[k], cell))
  }

  /** The frames the loop has appended to `frames_boundary` after `n` steps. */
  function BoundaryFrames(frames: seq<LocalFrame>, search: seq<SearchOutput>, n: nat): (r: seq<Frame>)
    requires n <= |frames| == |search|
    ensures |r| <= n
  {
    if n == 0 then []
    else BoundaryFrames(frames, search, n - 1)
         + (if AnyPeriodic(frames[n - 1].pbc) then [search[n - 1].boundary] else [])
  }

  /** The caller's guarantee that every offset of a periodic frame names one
      of that frame's atoms (the search functions index `atoms0`). */
  predicate SearchOffsetsValid(frames: seq<LocalFrame>, search: seq<SearchOutput>)
    requires |frames| == |search|
  {
    forall f :: 0 <= f < |frames| && AnyPeriodic(frames[f].pbc) ==>
      OffsetsIn(AllOffsets(search[f]), frames[f].atoms)
  }

  /** The frames the loop has appended to `frames_search_bond` after `n` steps. */
  function SearchFrames(frames: seq<LocalFrame>, search: seq<SearchOutput>, cell: Cell, n: nat): (r: seq<Frame>)
    requires n <= |frames| == |search|
    requires SearchOffsetsValid(frames, search)
    ensures |r| == |BoundaryFrames(frames, search, n)|
  {
    if n == 0 then []
    else SearchFrames(frames, search, cell, n - 1)
         + (if AnyPeriodic(frames[n - 1].pbc)
            then [SearchAtoms(frames[n - 1].atoms, AllOffsets(search[n - 1]), cell)]
            else [])
  }

  /** The per-species maximum over a list of frames, as the fold
      `max(count, previous)` starting at 0 computes it. */
  function MaxCount(fs: seq<Frame>, sp: string): nat
  {
    if fs == [] then 0
    else Max(CountOf(fs[|fs| - 1], sp), MaxCount(fs[..|fs| - 1], sp))
  }

  function MaxCounts(fs: seq<Frame>, species: seq<string>): (m: map<string, nat>)
    ensures m.Keys == set sp | sp in species
  {
    map sp | sp in species :: MaxCount(fs, sp)
  }

  /** update_boundary's loop: only periodic frames are searched; their
      boundary and search atoms are appended and counted. */
  method UpdateBoundary(frames: seq<LocalFrame>, species: seq<string>,
                        search: seq<SearchOutput>, cell: Cell)
    returns (framesBoundary: seq<Frame>, framesSearch: seq<Frame>,
             maxBoundary: map<string, nat>, maxSearch: map<string, nat>)
    requires |search| == |frames|
    requires SearchOffsetsValid(frames, search)
    ensures framesBoundary == BoundaryFrames(frames, search, |frames|)
    ensures framesSearch == SearchFrames(frames, search, cell, |frames|)
    ensures maxBoundary == MaxCounts(framesBoundary, species)
    ensures maxSearch == MaxCounts(framesSearch, species)
  {
    framesBoundary, framesSearch := [], [];
    maxBoundary := map sp | sp in species :: 0;
    maxSearch := map sp | sp in species :: 0;
    var f := 0;
    while f < |frames|
      invariant 0 <= f <= |frames|
      invariant framesBoundary == BoundaryFrames(frames, search, f)
      invariant framesSearch == SearchFrames(frames, search, cell, f)
      invariant maxBoundary == MaxCounts(framesBoundary, species)
      invariant maxSearch == MaxCounts(framesSearch, species)
    {
      var atoms0 := frames[f];
      FramesStep(frames, search, cell, f);
      if AnyPeriodic(atoms0.pbc) {
        var atomsBoundary := search[f].boundary;
        MaxCountsStep(framesBoundary, atomsBoundary, species);
        maxBoundary := Bump(maxBoundary, atomsBoundary, species);
        framesBoundary := framesBoundary + [atomsBoundary];
        var offsets := search[f].search1 + search[f].search2 + search[f].search3;
        var atomsSearch := SearchAtoms(atoms0.atoms, offsets, cell);
        MaxCountsStep(framesSearch, atomsSearch, species);
        maxSearch := Bump(maxSearch, atomsSearch, species);
        framesSearch := framesSearch + [atomsSearch];
      }
      f := f + 1;
    }
  }

  /** One more frame: a periodic one appends its boundary atoms and its
      search atoms, a non-periodic one appends nothing. */
  lemma FramesStep(frames: seq<LocalFrame>, search: seq<SearchOutput>, cell: Cell, f: nat)
    requires f < |frames| == |search|
    requires SearchOffsetsValid(frames, search)
    ensures AnyPeriodic(frames[f].pbc) ==> OffsetsIn(AllOffsets(search[f]), frames[f].atoms)
    ensures BoundaryFrames(frames, search, f + 1)
            == BoundaryFrames(frames, search, f) + (if AnyPeriodic(frames[f].pbc) then [search[f].boundary] else [])
    ensures SearchFrames(frames, search, cell, f + 1)
            == SearchFrames(frames, search, cell, f)
               + (if AnyPeriodic(frames[f].pbc)
                  then [SearchAtoms(frames[f].atoms, AllOffsets(search[f]), cell)]
                  else [])
  {
  }

  /** `{sp: max(count(frame, sp), m[sp]) for sp in species}` */
  function Bump(m: map<string, nat>, g: Frame, species: seq<string>): map<string, nat>
    requires forall sp :: sp in species ==> sp in m
  {
    map sp | sp in species :: Max(CountOf(g, sp), m[sp])
  }

  /** One more frame updates every species' maximum by `max`. */
  lemma MaxCountsStep(fs: seq<Frame>, g: Frame, species: seq<string>)
    ensures MaxCounts(fs + [g], species) == Bump(MaxCounts(fs, species), g, species)
  {
    assert (fs + [g])[..|fs|] == fs;
  }

  /** No frame's count exceeds the maximum: the slot count of the padding. */
  lemma {:induction false} MaxCountBounds(fs: seq<Frame>, sp: string)
    ensures forall k :: 0 <= k < |fs| ==> CountOf(fs[k], sp) <= MaxCount(fs, sp)
  {
    if fs != [] {
      var init := fs[..|fs| - 1];
      MaxCountBounds(init, sp);
      assert forall k :: 0 <= k < |init| ==> fs[k] == init[k];
    }
  }

  /** The maximum is 0 for no frames and is otherwise reached by some frame. */
  lemma {:induction false} MaxCountAttained(fs: seq<Frame>, sp: string)
    ensures fs == [] ==> MaxCount(fs, sp) == 0
    ensures fs != [] ==> exists k :: 0 <= k < |fs| && CountOf(fs[k], sp) == MaxCount(fs, sp)
  {
    if fs != [] {
      var init := fs[..|fs| - 1];
      MaxCountAttained(init, sp);
      if init != [] && CountOf(fs[|fs| - 1], sp) < MaxCount(init, sp) {
        var k :| 0 <= k < |init| && CountOf(init[k], sp) == MaxCount(init, sp);
        assert fs[k] == init[k];
      } else {
        assert CountOf(fs[|fs| - 1], sp) == MaxCount(fs, sp);
      }
    }
  }

  /** The running maximum never decreases as more frames are processed. */
  lemma {:induction false} MaxCountGrows(fs: seq<Frame>, n: nat, sp: string)
    requires n <= |fs|
    ensures MaxCount(fs[..n], sp) <= MaxCount(fs, sp)
  {
    if n < |fs| {
      MaxCountGrows(fs[..|fs| - 1], n, sp);
      assert fs[..|fs| - 1][..n] == fs[..n];
    } else {
      assert fs[..n] == fs;
    }
  }

  /** Only periodic frames contribute: a non-periodic frame adds nothing. */
  lemma {:induction false} BoundaryFramesArePeriodic(frames: seq<LocalFrame>, search: seq<SearchOutput>, n: nat)
    requires n <= |frames| == |search|
    ensures (forall f :: 0 <= f < n ==> !AnyPeriodic(frames[f].pbc)) ==> BoundaryFrames(frames, search, n) == []
    ensures (forall f :: 0 <= f < n ==> AnyPeriodic(frames[f].pbc)) ==>
              BoundaryFrames(frames, search, n) == seq(n, f requires 0 <= f < n => search[f].boundary)
  {
    if n > 0 {
      BoundaryFramesArePeriodic(frames, search, n - 1);
    }
  }

  /** All frames share the structure's pbc (`get_frames` builds every frame
      with `self.pbc`), so either every frame is searched or none is. */
  lemma UniformPbcAllOrNothing(frames: seq<LocalFrame>, search: seq<SearchOutput>, pbc: seq<bool>)
    requires |frames| == |search|
    requires forall f :: 0 <= f < |frames| ==> frames[f].pbc == pbc
    ensures AnyPeriodic(pbc) ==> |BoundaryFrames(frames, search, |frames|)| == |frames|
    ensures !AnyPeriodic(pbc) ==> BoundaryFrames(frames, search, |frames|) == []
  {
    BoundaryFramesArePeriodic(frames, search, |frames|);
  }

  /** Turning offsets into atoms distributes over concatenation, so the
      search frame is the images of search 1, then search 2, then search 3. */
  lemma SearchAtomsAppend(f: Frame, a: seq<Offset>, b: seq<Offset>, cell: Cell)
    requires OffsetsIn(a, f) && OffsetsIn(b, f)
    ensures OffsetsIn(a + b, f)
    ensures SearchAtoms(f, a + b, cell) == SearchAtoms(f, a, cell) + SearchAtoms(f, b, cell)
  {
  }

  lemma SearchFrameOrder(f: Frame, s: SearchOutput, cell: Cell)
    requires OffsetsIn(AllOffsets(s), f)
    ensures OffsetsIn(s.search1, f) && OffsetsIn(s.search2, f) && OffsetsIn(s.search3, f)
    ensures SearchAtoms(f, AllOffsets(s), cell)
            == SearchAtoms(f, s.search1, cell) + SearchAtoms(f, s.search2, cell) + SearchAtoms(f, s.search3, cell)
    ensures |SearchAtoms(f, AllOffsets(s), cell)| == |s.search1| + |s.search2| + |s.search3|
  {
    assert forall k :: 0 <= k < |s.search1| ==> s.search1[k] == AllOffsets(s)[k];
    assert forall k :: 0 <= k < |s.search2| ==> s.search2[k] == AllOffsets(s)[|s.search1| + k];
    assert forall k :: 0 <= k < |s.search3| ==> s.search3[k] == AllOffsets(s)[|s.search1| + |s.search2| + k];
    SearchAtomsAppend(f, s.search1, s.search2, cell);
    SearchAtomsAppend(f, s.search1 + s.search2, s.search3, cell);
  }

  /** Number of offsets whose canonical atom has species `sp`. */
  function OffsetsOfSpecies(f: Frame, offs: seq<Offset>, sp: string): nat
    requires OffsetsIn(offs, f)
  {
    if offs == [] then 0
    else (if f[offs[0].atom].species == sp then 1 else 0) + OffsetsOfSpecies(f, offs[1..], sp)
  }

  /** A search atom keeps its canonical atom's species, so the per-species
      count of a search frame is the number of offsets naming that species. */
  lemma {:induction false} SearchAtomsCount(f: Frame, offs: seq<Offset>, cell: Cell, sp: string)
    requires OffsetsIn(offs, f)
    ensures CountOf(SearchAtoms(f, offs, cell), sp) == OffsetsOfSpecies(f, offs, sp)
  {
    if offs != [] {
      SearchAtomsCount(f, offs[1..], cell, sp);
      assert SearchAtoms(f, offs, cell)[1..] == SearchAtoms(f, offs[1..], cell);
    }
  }
}
