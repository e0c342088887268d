/** Two-dimensional vectors over the reals: the value view of the engine's
    mutable `Vector` objects. Only the exact operations are modelled here
    (add, subtract, scale, squared distance); magnitude, normalisation and
    rotation need square roots or trigonometry and are supplied from outside
    wherever the model needs them. */
module Vectors {

  datatype Vec = Vec(x: real, y: real) {

    function Add(o: Vec): (r: Vec)
    {
      Vec(x + o.x, y + o.y)
    }

    function Sub(o: Vec): (r: Vec)
    {
      Vec(x - o.x, y - o.y)
    }

    function Scale(k: real): (r: Vec)
    {
      Vec(k * x, k * y)
    }

    function Dot(o: Vec): real
    {
      x * o.x + y * o.y
    }

    /** The squared Euclidean length. */
    function NormSq(): (r: real)
      ensures r >= 0.0
    {
      x * x + y * y
    }
  }

  const Zero: Vec := Vec(0.0, 0.0)

  /** The play area: walls at x == left and x == right, floor at y == bottom
      (y grows downwards, as on the canvas). */
  datatype Box = Box(left: real, right: real, top: real, bottom: real)

  /** Squared distance between two points; comparing it with a squared bound
      replaces the engine's `dist` (a square root) in every test. */
  function DistSq(a: Vec, b: Vec): (r: real)
    ensures r >= 0.0
  {
    b.Sub(a).NormSq()
  }

  /** Adding two pairs of opposite vectors gives a pair of opposite vectors. */
  lemma OppositeSums(a: Vec, b: Vec, c: Vec, d: Vec)
    ensures a.Add(b) == Zero && c.Add(d) == Zero ==> a.Add(c).Add(b.Add(d)) == Zero
  {
  }

  lemma DistSqSymmetric(a: Vec, b: Vec)
    ensures DistSq(a, b) == DistSq(b, a)
  {
    var dx, dy := b.x - a.x, b.y - a.y;
    assert (-dx) * (-dx) == dx * dx && (-dy) * (-dy) == dy * dy;
  }
}
