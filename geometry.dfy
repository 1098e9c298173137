/** Exact geometric values shared by the model: positions, cells, lattice
    offsets and frames of atoms. Positions are only copied, added to an
    origin, or shifted by integer combinations of cell rows, so exact `real`
    arithmetic stands in for the floating-point arrays of the program. */
module Geometry {

  datatype Vec3 = Vec3(x: real, y: real, z: real)

  const Zero := Vec3(0.0, 0.0, 0.0)

  function Add(a: Vec3, b: Vec3): Vec3
  {
    Vec3(a.x + b.x, a.y + b.y, a.z + b.z)
  }

  /** `k * v` for an integer multiple of a cell row. */
  function Times(k: int, v: Vec3): Vec3
  {
    Vec3(k as real * v.x, k as real * v.y, k as real * v.z)
  }

  /** Coordinate `c` (0, 1 or 2) of a vector, as numpy's `position[c]`. */
  function Coord(v: Vec3, c: nat): real
    requires c < 3
  {
    if c == 0 then v.x else if c == 1 then v.y else v.z
  }

  /** The unit cell: its three basis vectors, one per row. */
  datatype Cell = Cell(a: Vec3, b: Vec3, c: Vec3)

  /** One row `(atom, n1, n2, n3)` of a search-offset array: the image of
      atom `atom` translated by `n1*a + n2*b + n3*c`. */
  datatype Offset = Offset(atom: nat, n1: int, n2: int, n3: int)

  /** `offset[1:] . cell` */
  function Translation(o: Offset, cell: Cell): Vec3
  {
    Add(Add(Times(o.n1, cell.a), Times(o.n2, cell.b)), Times(o.n3, cell.c))
  }

  /** `n` copies of `v`: `np.tile(v, (n, 1))`, or a slice filled with one value. */
  function Repeat<T>(v: T, n: nat): (r: seq<T>)
    ensures |r| == n && forall k :: 0 <= k < n ==> r[k] == v
  {
    seq(n, _ => v)
  }

  /** An atom of a frame: its species label and its cartesian position. */
  datatype Atom = Atom(species: string, position: Vec3)

  type Frame = seq<Atom>

  /** `sum(frame.arrays['species'] == sp)` */
  function CountOf(f: Frame, sp: string): (n: nat)
    ensures n <= |f|
    ensures n == 0 <==> forall k :: 0 <= k < |f| ==> f[k].species != sp
  {
    if f == [] then 0
    else (if f[0].species == sp then 1 else 0) + CountOf(f[1..], sp)
  }

  /** `frame.positions[frame.arrays['species'] == sp]`: the positions of the
      atoms of species `sp`, in frame order. */
  function PositionsOf(f: Frame, sp: string): (ps: seq<Vec3>)
    ensures |ps| == CountOf(f, sp)
  {
    if f == [] then []
    else (if f[0].species == sp then [f[0].position] else []) + PositionsOf(f[1..], sp)
  }

  /** Every selected position is the position of an atom of species `sp`. */
  lemma {:induction false} PositionsOfAreAtoms(f: Frame, sp: string, k: nat)
    requires k < CountOf(f, sp)
    ensures exists t :: 0 <= t < |f| && f[t].species == sp && f[t].position == PositionsOf(f, sp)[k]
  {
    if f[0].species == sp {
      if k > 0 {
        PositionsOfAreAtoms(f[1..], sp, k - 1);
        var t :| 0 <= t < |f[1..]| && f[1..][t].species == sp && f[1..][t].position == PositionsOf(f[1..], sp)[k - 1];
        assert f[t + 1] == f[1..][t];
      } else {
        assert f[0].species == sp && f[0].position == PositionsOf(f, sp)[0];
      }
    } else {
      PositionsOfAreAtoms(f[1..], sp, k);
      var t :| 0 <= t < |f[1..]| && f[1..][t].species == sp && f[1..][t].position == PositionsOf(f[1..], sp)[k];
      assert f[t + 1] == f[1..][t];
    }
  }

  /** Every frame position shifted by `d`: `atoms.positions + d`. */
  function Shift(f: Frame, d: Vec3): (g: Frame)
    ensures |g| == |f|
    ensures forall k :: 0 <= k < |f| ==> g[k] == Atom(f[k].species, Add(f[k].position, d))
  {
    seq(|f|, k requires 0 <= k < |f| => Atom(f[k].species, Add(f[k].position, d)))
  }

  /** Shifting a frame keeps its species and shifts each selected position. */
  lemma {:induction false} PositionsOfShift(f: Frame, d: Vec3, sp: string)
    ensures CountOf(Shift(f, d), sp) == CountOf(f, sp)
    ensures forall k :: 0 <= k < CountOf(f, sp) ==>
              PositionsOf(Shift(f, d), sp)[k] == Add(PositionsOf(f, sp)[k], d)
  {
    if f != [] {
      PositionsOfShift(f[1..], d, sp);
      assert Shift(f, d)[1..] == Shift(f[1..], d);
    }
  }
}
