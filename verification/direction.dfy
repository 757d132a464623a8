/** The four compass directions on the signed integer grid, and the
    translations they induce. */
module Directions {

  /** A grid coordinate (x, y); y grows upwards. */
  type Square = (int, int)

  datatype Direction = U | D | L | R

  /** One step from `sq` towards `d`. */
  function Apply(d: Direction, sq: Square): (r: Square)
    ensures r == Shift(sq, d, 1)
    ensures || (r.0 == sq.0 && (r.1 == sq.1 + 1 || r.1 == sq.1 - 1))
            || (r.1 == sq.1 && (r.0 == sq.0 + 1 || r.0 == sq.0 - 1))
  {
    var (x, y) := sq;
    match d
    case U => (x, y + 1)
    case D => (x, y - 1)
    case L => (x - 1, y)
    case R => (x + 1, y)
  }

  /** `k` steps from `sq` towards `d`, in closed form. */
  function Shift(sq: Square, d: Direction, k: int): Square
  {
    match d
    case U => (sq.0, sq.1 + k)
    case D => (sq.0, sq.1 - k)
    case L => (sq.0 - k, sq.1)
    case R => (sq.0 + k, sq.1)
  }

  /** Unit vector of a direction, used to state orthogonality. */
  function Dx(d: Direction): int
  {
    match d
    case L => -1
    case R => 1
    case _ => 0
  }

  function Dy(d: Direction): int
  {
    match d
    case D => -1
    case U => 1
    case _ => 0
  }

  /** The reverse direction: a step back undoes a step forward. */
  function Opposite(d: Direction): (r: Direction)
    ensures r != d
    ensures Dx(r) == -Dx(d) && Dy(r) == -Dy(d)
    ensures forall sq :: Apply(r, Apply(d, sq)) == sq
  {
    match d
    case U => D
    case D => U
    case L => R
    case R => L
  }

  lemma OppositeInvolution(d: Direction)
    ensures Opposite(Opposite(d)) == d
  {
  }

  /** The two directions at right angles to `d`. */
  function Perpendiculars(d: Direction): (r: (Direction, Direction))
    ensures r.0 != r.1 && r.1 == Opposite(r.0)
    ensures r.0 != d && r.0 != Opposite(d) && r.1 != d && r.1 != Opposite(d)
    ensures Dx(r.0) * Dx(d) + Dy(r.0) * Dy(d) == 0
    ensures Dx(r.1) * Dx(d) + Dy(r.1) * Dy(d) == 0
  {
    match d
    case U => (L, R)
    case D => (L, R)
    case L => (U, D)
    case R => (U, D)
  }

  lemma PerpendicularsOfOpposite(d: Direction)
    ensures Perpendiculars(Opposite(d)) == Perpendiculars(d)
  {
  }

  /** The `n` consecutive squares of a line that starts at `sq` and runs
      towards `d`. */
  function ApplyAll(d: Direction, sq: Square, n: nat): (r: seq<Square>)
    ensures |r| == n
    ensures forall i :: 0 <= i < n ==> r[i] == Shift(sq, d, i)
    ensures forall i :: 0 <= i < n - 1 ==> r[i + 1] == Apply(d, r[i])
    decreases n
  {
    if n == 0 then [] else [sq] + ApplyAll(d, Apply(d, sq), n - 1)
  }

  /** Every direction, each exactly once. */
  function All(): (r: seq<Direction>)
    ensures |r| == 4
    ensures forall i, j :: 0 <= i < j < |r| ==> r[i] != r[j]
    ensures forall d: Direction :: d in r
  {
    EveryDirectionListed();
    [U, D, L, R]
  }

  lemma EveryDirectionListed()
    ensures forall d: Direction :: d in [U, D, L, R]
  {
    forall d: Direction ensures d in [U, D, L, R] {
      match d
      case U => assert [U, D, L, R][0] == d;
      case D => assert [U, D, L, R][1] == d;
      case L => assert [U, D, L, R][2] == d;
      case R => assert [U, D, L, R][3] == d;
    }
  }

  /** The default direction of the first move: along the positive x axis. */
  function Initial(): (r: Direction)
    ensures Dx(r) == 1 && Dy(r) == 0
  {
    R
  }
}
