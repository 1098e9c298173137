/** The `boundary` property of `Batoms` (old_batoms.py:1051-1079) and the
    `pbc` setter (old_batoms.py:1035-1049). The boundary box is three rows
    `[min, max]` of fractional coordinates, one per cell axis; the collection
    stores it flat, as six numbers, and `get_boundary` reshapes it to 3 x 2.
    The setter accepts a number, three numbers, or three pairs. */
module BoundaryBox {
  import opened Wrappers
  import opened BoundaryUpdate

  /** The six numbers of the stored property. */
  type Flat = s: seq<real> | |s| == 6 witness [0.0, 1.0, 0.0, 1.0, 0.0, 1.0]

  /** One element of a list given to the setter: a number or a list. */
  datatype Item = Num(v: real) | Items(vs: seq<real>)

  /** What may be assigned to `batoms.boundary`. */
  datatype BoundaryInput =
    | Unset                      // None
    | Scalar(b: real)            // an int or a float
    | List(items: seq<Item>)     // a list (or tuple) of numbers or lists

  datatype BoundaryError =
    | WrongBoundarySetting       // the `raise Exception('Wrong boundary setting!')`
    | NotAThreeByTwoArray        // Python fails on the list before anything is stored

  /** Row `[-b, 1 + b]`: a margin of `b` on both sides of the unit range. */
  function Margin(b: real): seq<real>
  {
    [-b, 1.0 + b]
  }

  predicate AllNumbers(items: seq<Item>)
  {
    forall k :: 0 <= k < |items| ==> items[k].Num?
  }

  predicate AllPairs(items: seq<Item>)
  {
    forall k :: 0 <= k < |items| ==> items[k].Items? && |items[k].vs| == 2
  }

  /** The setter: the flat box it stores, the stored box unchanged for
      `None`, or the error Python raises. Only lists can fail, a list of any
      length but 3 fails with the setter's own error, and the lists accepted
      are three numbers or three pairs. */
  function SetBoundary(input: BoundaryInput, stored: Flat): (r: Result<Flat, BoundaryError>)
    ensures input.Unset? ==> r == Ok(stored)
    ensures r.Err? ==> input.List?
    ensures input.List? && |input.items| != 3 ==> r == Err(WrongBoundarySetting)
    ensures input.List? && r.Ok? ==> AllNumbers(input.items) || AllPairs(input.items)
  {
    match input
    case Unset => Ok(stored)
    case Scalar(b) => Ok(Margin(b) + Margin(b) + Margin(b))
    case List(items) =>
      if |items| != 3 then Err(WrongBoundarySetting)
      else if items[0].Num? then
        // `-boundary[k]` raises for a list element
        if AllNumbers(items) then Ok(Margin(items[0].v) + Margin(items[1].v) + Margin(items[2].v))
        else Err(NotAThreeByTwoArray)
      else if |items[0].vs| == 2 then
        // `np.array(boundary)` refuses ragged rows
        if AllPairs(items) then Ok(items[0].vs + items[1].vs + items[2].vs)
        else Err(NotAThreeByTwoArray)
      else
        // `boundary` stays a list, which has no `flatten`
        Err(NotAThreeByTwoArray)
  }

  /** `np.array(stored).reshape(3, -1)` */
  function GetBoundary(stored: Flat): (box: seq<seq<real>>)
    ensures |box| == 3 && forall k :: 0 <= k < 3 ==> |box[k]| == 2
  {
    [stored[0..2], stored[2..4], stored[4..6]]
  }

  /** A number `b` gives the margin `[-b, 1 + b]` on every axis. */
  lemma ScalarBoundary(b: real, stored: Flat)
    ensures SetBoundary(Scalar(b), stored).Ok?
    ensures GetBoundary(SetBoundary(Scalar(b), stored).value) == [Margin(b), Margin(b), Margin(b)]
  {
    var flat := Margin(b) + Margin(b) + Margin(b);
    assert flat[0..2] == Margin(b) && flat[2..4] == Margin(b) && flat[4..6] == Margin(b);
  }

  /** Three numbers give axis `k` the margin `[-b_k, 1 + b_k]`. */
  lemma VectorBoundary(b0: real, b1: real, b2: real, stored: Flat)
    ensures SetBoundary(List([Num(b0), Num(b1), Num(b2)]), stored).Ok?
    ensures GetBoundary(SetBoundary(List([Num(b0), Num(b1), Num(b2)]), stored).value)
            == [Margin(b0), Margin(b1), Margin(b2)]
  {
    var flat := Margin(b0) + Margin(b1) + Margin(b2);
    assert AllNumbers([Num(b0), Num(b1), Num(b2)]);
    assert flat[0..2] == Margin(b0) && flat[2..4] == Margin(b1) && flat[4..6] == Margin(b2);
  }

  /** Three pairs are stored as given: reading the box back returns them. */
  lemma MatrixBoundaryRoundTrip(rows: seq<seq<real>>, stored: Flat)
    requires |rows| == 3 && forall k :: 0 <= k < 3 ==> |rows[k]| == 2
    ensures SetBoundary(List([Items(rows[0]), Items(rows[1]), Items(rows[2])]), stored).Ok?
    ensures GetBoundary(SetBoundary(List([Items(rows[0]), Items(rows[1]), Items(rows[2])]), stored).value) == rows
  {
    var items := [Items(rows[0]), Items(rows[1]), Items(rows[2])];
    assert AllPairs(items);
    var flat := rows[0] + rows[1] + rows[2];
    assert flat[0..2] == rows[0] && flat[2..4] == rows[1] && flat[4..6] == rows[2];
  }

  /** Storing the box read back changes nothing: the flat layout is the
      row-major order of the 3 x 2 box. */
  lemma StoredRoundTrip(stored: Flat)
    ensures var box := GetBoundary(stored);
            SetBoundary(List([Items(box[0]), Items(box[1]), Items(box[2])]), stored) == Ok(stored)
  {
    var box := GetBoundary(stored);
    assert AllPairs([Items(box[0]), Items(box[1]), Items(box[2])]);
    assert box[0] + box[1] + box[2] == stored;
  }

  /** `None` keeps the stored box; a list whose length is not 3 raises the
      setter's own error; every other failure is Python's. */
  lemma SetterErrors(input: BoundaryInput, stored: Flat)
    ensures input.Unset? ==> SetBoundary(input, stored) == Ok(stored)
    ensures input.List? && |input.items| != 3 ==> SetBoundary(input, stored) == Err(WrongBoundarySetting)
    ensures SetBoundary(input, stored).Err? <==>
              input.List? && (|input.items| != 3 || !(AllNumbers(input.items) || AllPairs(input.items)))
  {
    if input.List? && |input.items| == 3 {
      var items := input.items;
      if items[0].Num? {
        assert !AllPairs(items);
      } else {
        assert !AllNumbers(items);
        if |items[0].vs| != 2 {
          assert !AllPairs(items);
        }
      }
    }
  }

  /** What may be assigned to `batoms.pbc`. */
  datatype PbcInput = Flag(b: bool) | Flags(bs: seq<bool>)

  /** `set_pbc`: a single boolean is broadcast to the three axes; a list is
      stored as it is. */
  function SetPbc(pbc: PbcInput): (r: seq<bool>)
    ensures pbc.Flag? ==> |r| == 3 && forall k :: 0 <= k < 3 ==> r[k] == pbc.b
    ensures pbc.Flags? ==> r == pbc.bs
  {
    match pbc
    case Flag(b) => [b, b, b]
    case Flags(bs) => bs
  }

  /** `pbc.any()` after `set_pbc(b)` is `b`: a structure set periodic with a
      single flag is searched for boundary atoms, one set non-periodic is not. */
  lemma BroadcastAny(b: bool)
    ensures AnyPeriodic(SetPbc(Flag(b))) <==> b
  {
    if b {
      assert SetPbc(Flag(b))[0];
    }
  }
}
