# Boundary, search and bond bookkeeping of `Batoms`

`Batoms` (beautiful-atoms, `old_batoms.py`) draws a crystal structure in
Blender. When the structure is periodic it also draws *boundary atoms*
(periodic images that fall inside an enlarged boundary box) and *search
atoms* (images needed to complete bonds across the cell), and it draws
bonds for every frame of an animation. The geometric searches
(`search_boundary`, `build_bondlists`, `search_bond_list`, `search_bond`,
`calc_bond_data`) live in other files; this project models the bookkeeping
around them:

- `BoundaryUpdate`: `update_boundary`, which turns the search results of
  every periodic frame into boundary and search frames (an offset row
  `(atom, n1, n2, n3)` becomes a copy of that atom translated by
  `n1*a + n2*b + n3*c`) and keeps, per species, the running maximum of the
  atom counts.
- `Reconcile`: `draw_boundary_atoms`, which pads every frame to that
  maximum so all frames have arrays of the same shape, and the
  update-then-draw pipeline. Every slot starts at the cell origin; a frame
  adds its own positions of the species and repeats the first one; a frame
  without the species repeats the first atom of the species taken from
  `self.frames`. Those frames are global while the boundary frames are
  local, so that fallback lands at the atom's local position plus twice
  the origin; the model keeps this arithmetic as written. A species with
  no slot reads no canonical atom in the model, where the code as written
  reads one anyway (see "## Findings").
- `BondPadding`: the bond-array part of `draw_bonds`: per-frame bond data
  merged by kind, then padded to `nframe x nb_max x 7`, padding rows
  holding the frame's first atom position. Merging keeps only the frames
  that have the kind, so row block `i` of a kind that first appears after
  frame 0 holds a later frame's data, while its padding rows still read
  frame `i` of the structure; the model keeps this indexing as written.
- `BoundaryBox`: the `boundary` setter and `get_boundary` (a number, three
  numbers or three pairs, stored flat as six numbers) and `set_pbc`.
- `SpeciesNames` and `AtomArrays`: `get_arrays`, which assembles the
  per-atom arrays with a running cursor, strips the `_boundary` / `_search`
  suffix from species names and skips ghost (`X`) batoms.
- `Indices`: the `index` attribute as `from_species` assigns it, as
  `extend` shifts it and as `update_index` repairs it.

Positions are only copied, added to the origin or moved by integer
combinations of cell rows, so they are exact `real` triples here. The
search functions are not modelled; their results for each frame are
inputs.

## Model

| member | source | states |
|---|---|---|
| Geometry.CountOf | old_batoms.py:1105-1106 | the per-species count of a frame is at most its size, and is 0 exactly when no atom has the species |
| Geometry.PositionsOf | old_batoms.py:1145 | the positions selected by species are as many as the atoms of that species |
| Geometry.PositionsOfAreAtoms | old_batoms.py:1145 | each selected position is the position of an atom of that species in the frame |
| Geometry.PositionsOfShift | old_batoms.py:1288-1289 | a shifted frame has the same per-species counts and each selected position shifted |
| BoundaryUpdate.SearchAtoms | old_batoms.py:1121-1122 | one search atom per offset row |
| BoundaryUpdate.BoundaryFrames | old_batoms.py:1097-1107 | the boundary frames kept are never more than the frames processed |
| BoundaryUpdate.SearchFrames | old_batoms.py:1097-1125 | there are exactly as many search frames as boundary frames |
| BoundaryUpdate.MaxCounts | old_batoms.py:1094-1095 | the maxima dictionary has exactly the structure's species as keys |
| BoundaryUpdate.UpdateBoundary | old_batoms.py:1081-1125 | the loop leaves the boundary frames, the search frames and both per-species running maxima equal to their definitions over the periodic frames |
| BoundaryUpdate.MaxCountsStep | old_batoms.py:1105-1106 | one more frame raises each species' maximum to `max(count, previous)` |
| BoundaryUpdate.MaxCountBounds | old_batoms.py:1105-1106 | no frame has more atoms of a species than the maximum |
| BoundaryUpdate.MaxCountAttained | old_batoms.py:1094-1106 | the maximum is 0 without frames and is otherwise reached by some frame |
| BoundaryUpdate.MaxCountGrows | old_batoms.py:1105-1106 | the running maximum never decreases as frames are added |
| BoundaryUpdate.BoundaryFramesArePeriodic | old_batoms.py:1102 | with no periodic frame nothing is kept; with all frames periodic every frame's boundary atoms are kept in order |
| BoundaryUpdate.UniformPbcAllOrNothing | old_batoms.py:1284 | since every frame carries the structure's pbc, either every frame is searched or none is |
| BoundaryUpdate.SearchAtomsAppend | old_batoms.py:1118-1122 | turning offsets into atoms distributes over concatenation |
| BoundaryUpdate.SearchFrameOrder | old_batoms.py:1118-1122 | a search frame is the images of search type 1, then type 2, then the final type 1 pass |
| BoundaryUpdate.SearchAtomsCount | old_batoms.py:1121-1124 | the per-species count of a search frame is the number of offsets whose atom has that species |
| Reconcile.AddSlice | old_batoms.py:1149-1152 | `a[i, lo:lo+len(vals)] += vals` changes only those slots, each by its value |
| Reconcile.FillRow | old_batoms.py:1144-1152 | row `i` of a species' array gets that frame's padded slots, the canonical atom being needed only when the row has slots; other rows are untouched |
| Reconcile.Allocate | old_batoms.py:1141-1142 | one fresh `nframe x nsps[sp]` array per species, distinct arrays, every slot at the origin |
| Reconcile.FillFrame | old_batoms.py:1144-1152 | the species loop fills row `i` of every species' array and nothing else |
| Reconcile.DrawBoundaryAtoms | old_batoms.py:1136-1152 | no frames, nothing drawn; otherwise one array per species of shape `nframe x nsps[sp]` whose slot `(i, j)` is the origin plus frame `i`'s `j`-th atom of the species, or its first one past the end, or the first canonical atom when it has none |
| Reconcile.MaximaMakePaddingDefined | old_batoms.py:1127-1128 | the maxima of update_boundary give every frame enough slots, and the fallback atom exists when there is no frame to pad or every species is present in the structure |
| Reconcile.RedrawBoundary | old_batoms.py:1081-1152 | update_boundary followed by its two draw_boundary_atoms calls yields, for boundary and search atoms, per-species arrays sized by the running maxima with the padded slot values; a structure with no periodic frame draws nothing, whatever its species |
| Reconcile.SlotlessSpeciesNeedNoFallback | old_batoms.py:1146-1149 | a species that every structure frame has, or that no padded frame has, is always padded: a species without slots needs no canonical atom |
| Reconcile.GhostSpeciesRaises | old_batoms.py:1146-1149 | a periodic structure whose species list has a ghost species `X` missing from `self.frames`: `X` has no slot, `temp[0]` as written has no atom to read, and the padding with the slot count taken into account is defined |
| Reconcile.SlotIsAtomSite | old_batoms.py:1145-1152 | every slot is the origin plus the position of an atom of the species, of the frame or else of the canonical frame |
| Reconcile.PaddedRow | old_batoms.py:1151-1152 | a frame's row is its own positions in order followed by copies of the first, all shifted by the origin |
| Reconcile.EmptySpeciesPadShiftedTwice | old_batoms.py:1138-1149 | a frame without boundary atoms of a species is padded with that species' first local position plus the origin twice |
| Reconcile.EmptySpeciesPadExample | old_batoms.py:1138-1149 | with origin (1,0,0) and an atom at the local origin, the pad is (2,0,0), not the atom's global (1,0,0) |
| BondPadding.MergeBondData | old_batoms.py:328-350 | the frame loop leaves the merged bond data equal to the frame-by-frame merge |
| BondPadding.MergedIsConcatenation | old_batoms.py:340-347 | a kind is merged iff some frame has it, and its data is the concatenation of those frames' data in frame order |
| BondPadding.KindFramesAbsent | old_batoms.py:343-347 | a kind no frame has collects no data |
| BondPadding.MaxRowsIsMaximum | old_batoms.py:357-358 | `nb_max` bounds every frame's row count and is reached by one |
| BondPadding.PadBondFrames | old_batoms.py:353-362 | the padded array is `nframe x nb_max x 7`, holding each frame's rows then padding rows |
| BondPadding.CopyRows | old_batoms.py:360-362 | frame `i`'s slice gets its rows, and below them its first atom position in columns 0..2 |
| BondPadding.DrawBonds | old_batoms.py:328-362 | one padded array for exactly the kinds with at least one frame of data, each with the padded values |
| BondPadding.OwnRowsKept | old_batoms.py:361 | padding keeps each frame's own rows first, unchanged |
| BondPadding.PaddingRows | old_batoms.py:362 | a padding row is the frame's first atom position followed by four zeros |
| BoundaryBox.GetBoundary | old_batoms.py:1077-1079 | the stored box reads back as three rows of two |
| BoundaryBox.ScalarBoundary | old_batoms.py:1058-1059 | a number `b` gives every axis the range `[-b, 1+b]` |
| BoundaryBox.VectorBoundary | old_batoms.py:1061-1064 | three numbers give axis `k` the range `[-b_k, 1+b_k]` |
| BoundaryBox.MatrixBoundaryRoundTrip | old_batoms.py:1065-1069 | three pairs are stored so that reading the box back returns them |
| BoundaryBox.StoredRoundTrip | old_batoms.py:1066-1079 | setting the box that was read back stores the same six numbers |
| BoundaryBox.SetBoundary | old_batoms.py:1056-1069 | `None` keeps the stored box; only lists can fail; a list whose length is not 3 raises the setter's own error; an accepted list is three numbers or three pairs |
| BoundaryBox.SetterErrors | old_batoms.py:1056-1069 | `None` keeps the stored box; a list of a length other than 3 raises the setter's own error; the setter fails exactly for lists that are neither three numbers nor three pairs |
| BoundaryBox.BroadcastAny | old_batoms.py:1046-1049 | after `set_pbc(b)` the structure counts as periodic exactly when `b` |
| SpeciesNames.FindFrom | old_batoms.py:1428-1429 | the position found is an occurrence of the separator and the first one from the start |
| SpeciesNames.SplitHead | old_batoms.py:1428-1429 | `split(sep)[0]` is the text up to the first occurrence, or the whole name without one |
| SpeciesNames.HeadHoldsNoSep | old_batoms.py:1428-1429 | the text before the first separator holds no separator |
| SpeciesNames.OccursInPrefix | old_batoms.py:1428-1429 | an occurrence of a separator in a prefix is one in the whole name |
| SpeciesNames.BaseSpecies | old_batoms.py:1428-1429 | the species is a prefix of the name that holds neither `_boundary` nor `_search` and ends where one of them starts in the name; a name with neither suffix is its own species |
| SpeciesNames.HeadBeforeFirst | old_batoms.py:1428-1429 | cutting `sp + sep` at its first separator gives `sp` when `sp` holds none |
| SpeciesNames.SuffixRoundTrip | old_batoms.py:1154 | the name `sp_boundary` or `sp_search` maps back to `sp` for species free of both suffixes |
| SpeciesNames.PlainNameUnchanged | old_batoms.py:1428-1429 | a name without either suffix is its own species |
| AtomArrays.FlatSpecies | old_batoms.py:1430 | one species entry per atom |
| AtomArrays.FlatElements | old_batoms.py:1431 | one element entry per atom |
| AtomArrays.FlatRadii | old_batoms.py:1432 | one radius entry per atom |
| AtomArrays.FlatPositions | old_batoms.py:1439 | one position per atom |
| AtomArrays.KeptCount | old_batoms.py:1426-1427 | skipping ghost batoms never adds atoms |
| AtomArrays.KeptAll | old_batoms.py:1426-1427 | without ghost batoms to skip every batom is kept |
| AtomArrays.TotalAtoms | old_batoms.py:1414-1416 | `n` is the number of atoms of all batoms |
| AtomArrays.WriteBatom | old_batoms.py:1430-1439 | writing a batom at the cursor appends its atoms to the written prefix and leaves the rest blank |
| AtomArrays.WriteSlice | old_batoms.py:1430-1439 | a slice assignment at the cursor extends the written prefix by the values and leaves the rest blank |
| AtomArrays.FillArrays | old_batoms.py:1421-1440 | the batom loop leaves the kept batoms written in order and the `index` attribute as their indices concatenated |
| AtomArrays.GetArrays | old_batoms.py:1408-1440 | the arrays hold the kept batoms' suffix-stripped species, elements, positions and radii in batom order, followed by the initial values of the skipped batoms' slots; `index` is the kept batoms' indices concatenated |
| AtomArrays.NoGhostsFillsAll | old_batoms.py:1426-1427 | with no ghost batom skipped every slot is written |
| AtomArrays.SpeciesOfAtom | old_batoms.py:1428-1439 | atom `t` of batom `k` lands after the atoms of the batoms before it, with its batom's base species and its own position |
| AtomArrays.AttributesOfAtom | old_batoms.py:1430-1432 | atom `t` of batom `k`, at that same place, gets its batom's element and radius |
| Indices.Blocks | old_batoms.py:205-207 | one block per species |
| Indices.BlocksNumberAtoms | old_batoms.py:201-221 | the blocks end to end number the atoms `n .. n+N-1`, each once and in order |
| Indices.Visit | old_batoms.py:203-207 | after a species is seen it has an `index` |
| Indices.AssignedIndices | old_batoms.py:200-221 | one index array per species |
| Indices.StoreOnlyGrows | old_batoms.py:203-207 | a stored `index` is never overwritten, and every species of the dictionary ends with one |
| Indices.StoredIndexReused | old_batoms.py:206-207 | a species that already has a stored `index` gets it whatever the counter says |
| Indices.UnstoredGetBlocks | old_batoms.py:201-221 | with nothing stored, the species get consecutive blocks |
| Indices.FreshIndices | old_batoms.py:195-221 | with an attributes dictionary of its own, the atoms are numbered `0 .. N-1`, species after species, each species' array as long as its positions |
| Indices.AttributeStore.FromSpecies | old_batoms.py:200-221 | the dictionary loop returns the assigned indices and leaves the shared store as defined |
| Indices.StaleIndexCollision | old_batoms.py:98 | a second collection sharing the store gives two atoms index 1 and none index 0, where a fresh store gives 0 and 1 |
| Indices.ListIndices | old_batoms.py:223-234 | the list branch gives consecutive blocks numbering the atoms `0 .. N-1` |
| Indices.ExtendIndices | old_batoms.py:891-898 | every index of the other collection is raised by `natom`, shapes unchanged |
| Indices.ExtendKeepsNumbering | old_batoms.py:891-898 | extending a collection numbered `0 .. natom-1` by one numbered `0 .. m-1` numbers all `0 .. natom+m-1` |
| Indices.MaxOf | old_batoms.py:1450 | `max` bounds every index and is one of them |
| Indices.UpdateIndex | old_batoms.py:1447-1453 | no indices raise; otherwise indices whose maximum is `natom-1` are kept and any others are replaced by `0 .. natom-1`, so they are kept exactly when their maximum is `natom-1` or they already are `0 .. natom-1` |
| Indices.UpdateIndexEndsAtLast | old_batoms.py:1447-1453 | for `natom > 0` the indices that come back always end at `natom-1` |
| Indices.UpdateIndexIdempotent | old_batoms.py:1447-1453 | repairing twice is repairing once |
| Indices.UpdateIndexKeepsCollision | old_batoms.py:1450 | indices `[1, 1]` of two atoms pass the check unchanged |

## Left out

- The geometric searches `search_boundary`, `build_bondlists`, `search_bond_list`, `search_bond` and `calc_bond_data` are in other files; their per-frame results are inputs (`SearchOutput`, the per-frame bond-kind maps).
- Blender scene work: creating `Batom` and `Bbond` objects, linking and unlinking collections, `clean_atoms_objects`, keyframes, `object_mode`, `print` and `time` calls.
- `get_frames` is not modelled as an operation: the local frames are inputs, and `self.frames` is stated as those frames shifted by the origin (`Reconcile.Globalize`).
- `draw_bonds` joins each frame with its boundary and search atoms and clears its pbc before the bond search (old_batoms.py:330-337); that only feeds the unmodelled search.
- BondPadding.MergeBondData: does not track `nposition` (old_batoms.py:348-350), which is passed on to no part of the padding.
- The boundary setter's follow-up calls (`update_boundary`, and `draw_bonds` / `draw_polyhedras` by model style, old_batoms.py:1070-1075) are modelled as separate operations, not chained into `SetBoundary`; `draw_polyhedras` is not part of this model.
- BoundaryBox.SetBoundary: a numpy failure on a malformed list is one error value; which Python exception it would be is not distinguished.
- AtomArrays.GetArrays: leaves out the final sort by `index` (`argsort`, old_batoms.py:1441-1444, on by default). That sort permutes every array into index order and, since `index` holds only the kept batoms' indices, also drops the trailing slots of skipped ghost batoms, which the model keeps. Those slots of the species and elements arrays come from `np.empty` and hold no defined value in numpy; the model gives them `""`. Also left out: attributes other than `index` and numpy's 20-character limit on species strings (`U20`); a batom's radius is one number.
- Indices.UpdateIndex: the write-back through `set_arrays` and the `print` are left out; the sort of `get_arrays` does not change the maximum.
- `from_species`: its list branch's type check on `Batom` objects and the shared default `species_props` (which holds no indices) are left out; the `from_ase` / `from_pymatgen` readers are not part of this model.
- `extend`: merging the bond and polyhedra settings and relinking objects are left out; only the index shift is modelled.
- Reconcile.RedrawBoundary: for a structure with a periodic frame it requires every species in every frame; the ghost species that breaks this is the second finding below, stated by `Reconcile.GhostSpeciesRaises` and `Reconcile.SlotlessSpeciesNeedNoFallback` rather than through the pipeline, since the boundary atoms come from the unmodelled `search_boundary`.
- Slicing that numpy would reject is a precondition: offsets naming an existing atom (`SearchOffsetsValid`), enough slots and a fallback atom for the padding (`PaddingDefined`), and a structure frame with an atom for every padded bond frame (`BondDataFits`).
- `offsets_search.astype(int)`: offsets are integers from the start.
- Floating point: positions are exact reals.

## Findings

| source | as written | input that shows it | evidently intended | confidence | as-written member | corrected member |
|---|---|---|---|---|---|---|
| old_batoms.py:98 | `Batoms.__init__` defaults `attributes` to one `{}` that every call shares; `from_species` stores `attributes[sp]['index']` in it and later collections reuse it | build `{'H': [p], 'O': [q]}`, then `{'O': [r], 'C': [s]}` without attributes: the second gives O index `[1]` and C `[1]`, no atom 0; `update_index` keeps them since the maximum is 1 | each collection numbers its atoms `0 .. N-1` | high, not executed | Indices.StaleIndexCollision | Indices.FreshIndices |
| old_batoms.py:1146-1149 | `draw_boundary_atoms` reads `temp[0]` for every species a frame lacks, before `np.tile` uses it, even when the species has no slot | a periodic structure with a ghost `X` batom: `self.species` lists `X` (old_batoms.py:1340-1348) but `self.frames` leaves its atoms out (old_batoms.py:1277-1278), so `temp` is empty and `temp[0]` raises `IndexError` | a species with no slot to fill gets an empty array and needs no canonical atom | medium, not executed | Reconcile.GhostSpeciesRaises | Reconcile.SlotlessSpeciesNeedNoFallback |
