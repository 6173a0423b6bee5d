/** Two-dimensional coordinates and the by-value vector operations on them.
    Coordinates are `double` in the program and `real` here: rounding is not
    modelled. */
module Coord {

  datatype Coord2D = Coord2D(x: real, y: real)

  function Add(a: Coord2D, b: Coord2D): Coord2D {
    Coord2D(a.x + b.x, a.y + b.y)
  }

  function Sub(a: Coord2D, b: Coord2D): Coord2D {
    Coord2D(a.x - b.x, a.y - b.y)
  }

  function Mul(a: Coord2D, b: Coord2D): Coord2D {
    Coord2D(a.x * b.x, a.y * b.y)
  }

  /** Component-wise division; the caller must keep both divisors non-zero. */
  function Div(a: Coord2D, b: Coord2D): Coord2D
    requires b.x != 0.0 && b.y != 0.0
  {
    Coord2D(a.x / b.x, a.y / b.y)
  }

  function Scale(a: Coord2D, s: real): Coord2D {
    Coord2D(a.x * s, a.y * s)
  }

  /** Subtracting what was added gives back the original point. */
  lemma SubUndoesAdd(a: Coord2D, b: Coord2D)
    ensures Sub(Add(a, b), b) == a
    ensures Add(Sub(a, b), b) == a
  {
  }

  lemma AddCommutes(a: Coord2D, b: Coord2D)
    ensures Add(a, b) == Add(b, a)
  {
  }

  lemma AddAssociates(a: Coord2D, b: Coord2D, c: Coord2D)
    ensures Add(Add(a, b), c) == Add(a, Add(b, c))
  {
  }

  /** Dividing by what was multiplied in gives back the original point. */
  lemma DivUndoesMul(a: Coord2D, b: Coord2D)
    requires b.x != 0.0 && b.y != 0.0
    ensures Div(Mul(a, b), b) == a
  {
  }

  /** Scaling is multiplication by the diagonal point (s, s). */
  lemma ScaleIsDiagonalMul(a: Coord2D, s: real)
    ensures Scale(a, s) == Mul(a, Coord2D(s, s))
  {
  }

  /** Scaling twice compounds the factors. */
  lemma ScaleCompounds(a: Coord2D, s: real, t: real)
    ensures Scale(Scale(a, s), t) == Scale(a, s * t)
  {
    assert a.x * s * t == a.x * (s * t);
    assert a.y * s * t == a.y * (s * t);
  }
}
