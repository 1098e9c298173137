/** The bookkeeping of `Batoms.draw_bonds` (old_batoms.py:309-372): the bond
    data of every frame, grouped by bond kind, is merged across frames, and
    each kind's per-frame bond arrays are padded to the largest frame. A bond
    row has seven columns; a padding row carries the frame's first atom
    position in columns 0..2 and zeros in columns 3..6.

    `build_bondlists` and `calc_bond_data` are not part of this model: their
    result for each frame arrives as a map from bond kind to a list of
    per-frame bond arrays. */
module BondPadding {
  import opened Geometry

  const Columns: nat := 7

  /** One bond row of `bond_data['positions'][i]`. */
  type Row = seq<real>

  /** `bond_data['positions']`: one array of bond rows per frame. */
  type BondFrames = seq<seq<Row>>

  /** One frame's merge step: a new kind is taken as it is, a known kind
      has the frame's arrays appended (`positions.extend(...)`). */
  function MergeOne(acc: map<string, BondFrames>, kinds: map<string, BondFrames>): map<string, BondFrames>
  {
    map k | k in acc.Keys + kinds.Keys ::
      if k in kinds then (if k in acc then acc[k] + kinds[k] else kinds[k]) else acc[k]
  }

  /** `bond_datas` after the first `n` frames. */
  function Merged(perFrame: seq<map<string, BondFrames>>, n: nat): map<string, BondFrames>
    requires n <= |perFrame|
  {
    if n == 0 then map[] else MergeOne(Merged(perFrame, n - 1), perFrame[n - 1])
  }

  /** The frame loop of draw_bonds: frame 0's kinds are taken as they are,
      later frames are merged into them kind by kind. */
  method MergeBondData(perFrame: seq<map<string, BondFrames>>) returns (bondDatas: map<string, BondFrames>)
    ensures bondDatas == Merged(perFrame, |perFrame|)
  {
    bondDatas := map[];
    var f := 0;
    while f < |perFrame|
      invariant 0 <= f <= |perFrame|
      invariant bondDatas == Merged(perFrame, f)
    {
      var bondKinds := perFrame[f];
      if f == 0 {
        assert MergeOne(map[], bondKinds) == bondKinds;
        bondDatas := bondKinds;
      } else {
        ghost var acc := bondDatas;
        var keys := bondKinds.Keys;
        while keys != {}
          invariant keys <= bondKinds.Keys
          invariant forall k :: k in bondDatas <==> k in acc || (k in bondKinds && k !in keys)
          invariant forall k :: k in bondDatas ==>
                      bondDatas[k] == if k in bondKinds && k !in keys
                                      then (if k in acc then acc[k] + bondKinds[k] else bondKinds[k])
                                      else acc[k]
          decreases keys
        {
          var kind :| kind in keys;
          if kind !in bondDatas {
            bondDatas := bondDatas[kind := bondKinds[kind]];
          } else {
            bondDatas := bondDatas[kind := bondDatas[kind] + bondKinds[kind]];
          }
          keys := keys - {kind};
        }
        assert bondDatas.Keys == MergeOne(acc, bondKinds).Keys;
        assert bondDatas == MergeOne(acc, bondKinds);
      }
      f := f + 1;
    }
  }

  /** Independent reading of the merge: a kind's arrays are those of every
      frame that has the kind, in frame order. */
  function KindFrames(perFrame: seq<map<string, BondFrames>>, kind: string, n: nat): BondFrames
    requires n <= |perFrame|
  {
    if n == 0 then []
    else KindFrames(perFrame, kind, n - 1) + (if kind in perFrame[n - 1] then perFrame[n - 1][kind] else [])
  }

  predicate HasKind(perFrame: seq<map<string, BondFrames>>, kind: string, n: nat)
    requires n <= |perFrame|
  {
    exists f :: 0 <= f < n && kind in perFrame[f]
  }

  lemma {:induction false} MergedIsConcatenation(perFrame: seq<map<string, BondFrames>>, n: nat, kind: string)
    requires n <= |perFrame|
    ensures kind in Merged(perFrame, n) <==> HasKind(perFrame, kind, n)
    ensures kind in Merged(perFrame, n) ==> Merged(perFrame, n)[kind] == KindFrames(perFrame, kind, n)
  {
    if n > 0 {
      MergedIsConcatenation(perFrame, n - 1, kind);
      if !HasKind(perFrame, kind, n - 1) {
        KindFramesAbsent(perFrame, kind, n - 1);
      }
      if kind in perFrame[n - 1] {
        assert HasKind(perFrame, kind, n);
      } else if HasKind(perFrame, kind, n) {
        var f :| 0 <= f < n && kind in perFrame[f];
        assert f < n - 1;
      }
    }
  }

  lemma {:induction false} KindFramesAbsent(perFrame: seq<map<string, BondFrames>>, kind: string, n: nat)
    requires n <= |perFrame|
    requires !HasKind(perFrame, kind, n)
    ensures KindFrames(perFrame, kind, n) == []
  {
    if n > 0 {
      forall f | 0 <= f < n - 1
        ensures kind !in perFrame[f]
      {
        assert 0 <= f < n;
      }
      KindFramesAbsent(perFrame, kind, n - 1);
    }
  }

  /** `max(nbs)` over the row counts of the frames. */
  function MaxRows(positions: BondFrames): nat
  {
    if positions == [] then 0
    else var rest := MaxRows(positions[1..]);
         if |positions[0]| < rest then rest else |positions[0]|
  }

  lemma {:induction false} MaxRowsIsMaximum(positions: BondFrames)
    requires positions != []
    ensures forall i :: 0 <= i < |positions| ==> |positions[i]| <= MaxRows(positions)
    ensures exists i :: 0 <= i < |positions| && |positions[i]| == MaxRows(positions)
  {
    if |positions| > 1 {
      MaxRowsIsMaximum(positions[1..]);
      assert forall i :: 1 <= i < |positions| ==> positions[i] == positions[1..][i - 1];
      if |positions[0]| < MaxRows(positions[1..]) {
        var i :| 0 <= i < |positions[1..]| && |positions[1..][i]| == MaxRows(positions[1..]);
        assert |positions[i + 1]| == MaxRows(positions);
      }
    } else {
      assert |positions[0]| == MaxRows(positions);
    }
  }

  /** Every row has the seven columns of a bond record. */
  predicate WellFormed(positions: BondFrames)
  {
    forall i, r :: 0 <= i < |positions| && 0 <= r < |positions[i]| ==> |positions[i][r]| == Columns
  }

  /** Each frame that is padded has a frame of the structure with an atom. */
  predicate FramesCover(positions: BondFrames, frames: seq<Frame>)
  {
    |positions| <= |frames| && forall i :: 0 <= i < |positions| ==> |frames[i]| > 0
  }

  /** The value of `frames_bond[i, r, c]`. Row block `i` holds the kind's
      `i`-th frame of data, while the padding rows read frame `i` of the
      structure (old_batoms.py:362); the two are the same frame only when the
      kind has data from the first frame on, and the model keeps the
      indexing as written. */
  function BondSlot(positions: BondFrames, frames: seq<Frame>, i: nat, r: nat, c: nat): real
    requires WellFormed(positions) && FramesCover(positions, frames)
    requires i < |positions| && c < Columns
  {
    if r < |positions[i]| then positions[i][r][c]
    else if c < 3 then Coord(frames[i][0].position, c)
    else 0.0
  }

  /** The padding of one bond kind: an `nframe x nb_max x 7` array of zeros,
      each frame's rows copied in, the rows below them set to the frame's
      first atom position in columns 0..2. */
  method PadBondFrames(positions: BondFrames, frames: seq<Frame>) returns (framesBond: array3<real>)
    requires |positions| > 0
    requires WellFormed(positions) && FramesCover(positions, frames)
    ensures fresh(framesBond)
    ensures framesBond.Length0 == |positions| && framesBond.Length1 == MaxRows(positions)
    ensures framesBond.Length2 == Columns
    ensures forall i, r, c :: 0 <= i < |positions| && 0 <= r < MaxRows(positions) && 0 <= c < Columns ==>
              framesBond[i, r, c] == BondSlot(positions, frames, i, r, c)
  {
    var nframe := |positions|;
    var nbMax := MaxRows(positions);
    MaxRowsIsMaximum(positions);
    framesBond := new real[nframe, nbMax, Columns]((i, r, c) => 0.0);
    var i := 0;
    while i < nframe
      invariant 0 <= i <= nframe
      invariant forall i', r, c :: 0 <= i' < nframe && 0 <= r < nbMax && 0 <= c < Columns ==>
                  framesBond[i', r, c] == if i' < i then BondSlot(positions, frames, i', r, c) else 0.0
    {
      CopyRows(framesBond, i, positions, frames);
      i := i + 1;
    }
  }

  /** `frames_bond[i, 0:nbs[i], :] = positions[i]` then
      `frames_bond[i, nbs[i]:, 0:3] = frames[i].positions[0]`. */
  method CopyRows(framesBond: array3<real>, i: nat, positions: BondFrames, frames: seq<Frame>)
    requires WellFormed(positions) && FramesCover(positions, frames)
    requires i < |positions| == framesBond.Length0 && framesBond.Length2 == Columns
    requires |positions[i]| <= framesBond.Length1
    requires forall r, c :: 0 <= r < framesBond.Length1 && 0 <= c < Columns ==> framesBond[i, r, c] == 0.0
    modifies framesBond
    ensures forall i', r, c :: 0 <= i' < framesBond.Length0 && 0 <= r < framesBond.Length1 && 0 <= c < Columns ==>
              framesBond[i', r, c] == if i' == i then BondSlot(positions, frames, i, r, c) else old(framesBond[i', r, c])
  {
    var nb := |positions[i]|;
    var r := 0;
    while r < framesBond.Length1
      invariant 0 <= r <= framesBond.Length1
      invariant forall i', r', c :: 0 <= i' < framesBond.Length0 && 0 <= r' < framesBond.Length1 && 0 <= c < Columns ==>
                  framesBond[i', r', c] == if i' == i && r' < r then BondSlot(positions, frames, i, r', c)
                                           else old(framesBond[i', r', c])
    {
      if r < nb {
        var c := 0;
        while c < Columns
          invariant 0 <= c <= Columns
          invariant forall i', r', c' :: 0 <= i' < framesBond.Length0 && 0 <= r' < framesBond.Length1 && 0 <= c' < Columns ==>
                      framesBond[i', r', c'] == if i' == i && (r' < r || (r' == r && c' < c)) then BondSlot(positions, frames, i, r', c')
                                                else old(framesBond[i', r', c'])
        {
          framesBond[i, r, c] := positions[i][r][c];
          c := c + 1;
        }
      } else {
        var c := 0;
        while c < 3
          invariant 0 <= c <= 3
          invariant forall i', r', c' :: 0 <= i' < framesBond.Length0 && 0 <= r' < framesBond.Length1 && 0 <= c' < Columns ==>
                      framesBond[i', r', c'] == if i' == i && (r' < r || (r' == r && c' < c)) then BondSlot(positions, frames, i, r', c')
                                                else old(framesBond[i', r', c'])
        {
          framesBond[i, r, c] := Coord(frames[i][0].position, c);
          c := c + 1;
        }
      }
      r := r + 1;
    }
  }

  /** What the per-frame bond data must satisfy for the padding not to fail:
      seven columns per row, and for every kind no more frames of data than
      frames of the structure, each with an atom. */
  predicate BondDataFits(perFrame: seq<map<string, BondFrames>>, frames: seq<Frame>)
  {
    forall k :: k in Merged(perFrame, |perFrame|) ==>
      WellFormed(Merged(perFrame, |perFrame|)[k]) && FramesCover(Merged(perFrame, |perFrame|)[k], frames)
  }

  /** `a` is the padded array of one bond kind: `nframe x nb_max x 7`, each
      entry as `BondSlot` gives it. */
  ghost predicate Padded(a: array3<real>, positions: BondFrames, frames: seq<Frame>)
    reads a
  {
    && WellFormed(positions) && FramesCover(positions, frames)
    && a.Length0 == |positions| && a.Length1 == MaxRows(positions) && a.Length2 == Columns
    && forall i, r, c :: 0 <= i < |positions| && 0 <= r < MaxRows(positions) && 0 <= c < Columns ==>
         a[i, r, c] == BondSlot(positions, frames, i, r, c)
  }

  /** The bond-array part of draw_bonds: merge, then pad each kind that has
      at least one frame of data; kinds without any are skipped. */
  method DrawBonds(perFrame: seq<map<string, BondFrames>>, frames: seq<Frame>)
    returns (framesBond: map<string, array3<real>>)
    requires BondDataFits(perFrame, frames)
    ensures var merged := Merged(perFrame, |perFrame|);
            && framesBond.Keys == set k | k in merged && |merged[k]| > 0
            && forall k :: k in framesBond ==>
                 && k in merged
                 && fresh(framesBond[k])
                 && framesBond[k].Length0 == |merged[k]|
                 && framesBond[k].Length1 == MaxRows(merged[k])
                 && framesBond[k].Length2 == Columns
                 && forall i, r, c :: 0 <= i < |merged[k]| && 0 <= r < MaxRows(merged[k]) && 0 <= c < Columns ==>
                      framesBond[k][i, r, c] == BondSlot(merged[k], frames, i, r, c)
  {
    var bondDatas := MergeBondData(perFrame);
    framesBond := map[];
    var kinds := bondDatas.Keys;
    while kinds != {}
      invariant kinds <= bondDatas.Keys
      invariant forall k :: k in framesBond <==> k in bondDatas && k !in kinds && |bondDatas[k]| > 0
      invariant forall k :: k in framesBond ==> fresh(framesBond[k]) && Padded(framesBond[k], bondDatas[k], frames)
      decreases kinds
    {
      var kind :| kind in kinds;
      kinds := kinds - {kind};
      var nframe := |bondDatas[kind]|;
      if nframe == 0 { continue; }
      var a := PadBondFrames(bondDatas[kind], frames);
      assert Padded(a, bondDatas[kind], frames);
      framesBond := framesBond[kind := a];
    }
    assert framesBond.Keys == set k | k in bondDatas && |bondDatas[k]| > 0;
  }

  /** Padding keeps each frame's own rows first, in order. */
  lemma OwnRowsKept(positions: BondFrames, frames: seq<Frame>, i: nat)
    requires WellFormed(positions) && FramesCover(positions, frames) && i < |positions|
    ensures forall r :: 0 <= r < |positions[i]| ==>
              seq(Columns, c requires 0 <= c < Columns => BondSlot(positions, frames, i, r, c)) == positions[i][r]
  {
  }

  /** Every padded row repeats the first atom of the frame in its first three
      columns and is zero elsewhere. */
  lemma PaddingRows(positions: BondFrames, frames: seq<Frame>, i: nat, r: nat)
    requires WellFormed(positions) && FramesCover(positions, frames) && i < |positions|
    requires |positions[i]| <= r
    ensures seq(Columns, c requires 0 <= c < Columns => BondSlot(positions, frames, i, r, c))
            == [frames[i][0].position.x, frames[i][0].position.y, frames[i][0].position.z, 0.0, 0.0, 0.0, 0.0]
  {
  }
}
