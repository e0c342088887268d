/** The mass-spring part of the soft-body engine: a node integrates its own
    velocity, an edge is a damped spring between two nodes, a body is a ring
    of 40 nodes joined by 40 edges and kept inside the box walls. Square
    roots (distances), cos/sin (the ring layout) and Math.pow (the damping
    factor) are supplied to the model as arguments. */
module Physics {
  import opened Vectors
  import opened Polygon

  const AMUL: real := 0.6
  const RMUL: real := 0.6
  const NUM_NODES: nat := 40
  /** The compressed branch never uses a rest length shorter than this. */
  const MIN_LEN: real := 6.0
  /** Nodes stay this far inside the walls and above the floor. */
  const WALL_MARGIN: real := 4.0
  /** A node that hits a wall keeps this multiple of its velocity across it. */
  const BOUNCE: real := -0.3

  function Max(a: real, b: real): real { if a < b then b else a }
  function Min(a: real, b: real): real { if a < b then a else b }

  // ---------------------------------------------------------------------------
  // Edge forces

  /** The signed spring force of an edge of rest length `len` whose ends are
      `dist` apart: negative pushes the ends apart, positive pulls them
      together, zero at rest. */
  function SpringForce(dist: real, len: real, amul: real, rmul: real): (f: real)
    ensures dist == len ==> f == 0.0
    ensures dist < len && rmul >= 0.0 ==> f <= 0.0
    ensures dist > len && amul >= 0.0 ==> f >= 0.0
  {
    if dist < len then
      var d := Min(0.0, dist - Max(MIN_LEN, len));
      NonPositiveProduct(d, rmul);
      d * rmul
    else
      var d := Max(0.0, dist - len);
      NonNegativeProduct(d, amul);
      d * amul
  }

  lemma NonPositiveProduct(a: real, b: real)
    ensures a <= 0.0 && b >= 0.0 ==> a * b <= 0.0
  {
  }

  lemma NonNegativeProduct(a: real, b: real)
    ensures a >= 0.0 && b >= 0.0 ==> a * b >= 0.0
  {
  }

  /** For a rest length of at least 6 and equal multipliers the spring is
      Hooke's law: the force is proportional to the extension. */
  lemma SpringForceHooke(dist: real, len: real, k: real)
    requires len >= MIN_LEN
    ensures SpringForce(dist, len, k, k) == (dist - len) * k
  {
  }

  /** An edge shorter than 6 is pushed apart as if its rest length were 6
      whenever it is compressed, so the repulsion stays at least
      (6 - len) * rmul right up to the rest length, where it drops to zero. */
  lemma ShortEdgeRepulsion(dist: real, len: real, amul: real, rmul: real)
    requires dist < len < MIN_LEN && rmul > 0.0
    ensures SpringForce(dist, len, amul, rmul) == (dist - MIN_LEN) * rmul
    ensures SpringForce(dist, len, amul, rmul) < (len - MIN_LEN) * rmul < 0.0
    ensures SpringForce(len, len, amul, rmul) == 0.0
  {
    assert dist - MIN_LEN < len - MIN_LEN < 0.0;
    StrictlyScaled(dist - MIN_LEN, len - MIN_LEN, rmul);
  }

  lemma StrictlyScaled(a: real, b: real, k: real)
    requires a < b < 0.0 && k > 0.0
    ensures a * k < b * k < 0.0
  {
  }

  /** The unit vector along `sep`, given its length `dist` (the engine's
      `mag`); a zero separation is left as it is, as `normalize` is skipped. */
  function Direction(sep: Vec, dist: real): (u: Vec)
    ensures sep == Zero ==> u == Zero
  {
    if dist > 0.0 then sep.Scale(1.0 / dist) else sep
  }

  /** The spring terms an edge adds to the accelerations of its two ends:
      `f` along the unit separation to n1, the opposite to n2. */
  function SpringPair(sep: Vec, dist: real, f: real): (r: (Vec, Vec))
    ensures r.0.Add(r.1) == Zero
    ensures sep == Zero ==> r == (Zero, Zero)
  {
    var push := Direction(sep, dist).Scale(f);
    (push, push.Scale(-1.0))
  }

  /** The spring term on n1 has component `f * dist` along the separation
      n1 -> n2: a stretched edge (f >= 0) pulls n1 towards n2, a compressed
      one (f <= 0) pushes it away. */
  lemma SpringAlongSeparation(sep: Vec, dist: real, f: real)
    requires dist >= 0.0 && dist * dist == sep.NormSq()
    ensures SpringPair(sep, dist, f).0.Dot(sep) == f * dist
  {
    if dist > 0.0 {
      var k := f * (1.0 / dist);
      var u := sep.Scale(1.0 / dist).Scale(f);
      assert u == sep.Scale(k);
      ScaledDot(sep, k);
      assert k * sep.NormSq() == f * (1.0 / dist) * (dist * dist);
      InverseCancels(f, dist);
    } else {
      ScaledDot(sep, f);
    }
  }

  lemma ScaledDot(v: Vec, k: real)
    ensures v.Scale(k).Dot(v) == k * v.NormSq()
  {
    assert k * v.x * v.x + k * v.y * v.y == k * (v.x * v.x + v.y * v.y);
  }

  lemma InverseCancels(f: real, d: real)
    requires d > 0.0
    ensures f * (1.0 / d) * (d * d) == f * d
  {
    assert (1.0 / d) * d == 1.0;
    assert f * (1.0 / d) * (d * d) == f * ((1.0 / d) * d) * d;
  }

  /** The velocity-averaging terms as the engine computes them. `mult`
      scales `veldiff` in place, so the second term is taken from the
      already scaled difference: n1 receives 0.4 of the velocity difference
      and n2 only -0.16 of it. */
  function VelocityPairAsWritten(v1: Vec, v2: Vec): (r: (Vec, Vec))
    ensures r.0 == v2.Sub(v1).Scale(0.4)
    ensures r.1 == v2.Sub(v1).Scale(-0.16)
  {
    var veldiff := v2.Sub(v1);
    var first := veldiff.Scale(0.4);
    (first, first.Scale(-0.4))
  }

  /** The averaging terms as written do not cancel: they add a net 0.24 of
      the velocity difference, which is zero only for equal velocities. */
  lemma VelocityPairAsWrittenUnbalanced(v1: Vec, v2: Vec)
    ensures VelocityPairAsWritten(v1, v2).0.Add(VelocityPairAsWritten(v1, v2).1) == v2.Sub(v1).Scale(0.24)
    ensures VelocityPairAsWritten(v1, v2).0.Add(VelocityPairAsWritten(v1, v2).1) == Zero <==> v1 == v2
  {
  }

  /** A node at rest beside one moving at speed 1: the pair gains 0.24. */
  lemma VelocityPairAsWrittenExample()
    ensures VelocityPairAsWritten(Zero, Vec(1.0, 0.0)).0.Add(VelocityPairAsWritten(Zero, Vec(1.0, 0.0)).1) == Vec(0.24, 0.0)
  {
  }

  /** The intended averaging terms: 0.4 of the velocity difference, equal and
      opposite, drawing each node's velocity towards the other's. */
  function VelocityPair(v1: Vec, v2: Vec): (r: (Vec, Vec))
    ensures r.0.Add(r.1) == Zero
    ensures v1 == v2 ==> r == (Zero, Zero)
  {
    var veldiff := v2.Sub(v1);
    (veldiff.Scale(0.4), veldiff.Scale(-0.4))
  }

  /** The term on n1 points along n2.vel - n1.vel: it draws n1's velocity
      towards n2's (and the opposite term draws n2's towards n1's). */
  lemma VelocityPairTowardsOther(v1: Vec, v2: Vec)
    ensures VelocityPair(v1, v2).0.Dot(v2.Sub(v1)) >= 0.0
  {
    ScaledDot(v2.Sub(v1), 0.4);
  }

  /** Two pairs of terms added component-wise. */
  function Combine(a: (Vec, Vec), b: (Vec, Vec)): (r: (Vec, Vec))
    ensures a.0.Add(a.1) == Zero && b.0.Add(b.1) == Zero ==> r.0.Add(r.1) == Zero
    ensures a == (Zero, Zero) && b == (Zero, Zero) ==> r == (Zero, Zero)
  {
    OppositeSums(a.0, a.1, b.0, b.1);
    (a.0.Add(b.0), a.1.Add(b.1))
  }

  /** Everything one edge adds to the accelerations of its ends, given their
      positions, velocities and distance, with the corrected averaging. */
  function EdgeForces(p1: Vec, p2: Vec, v1: Vec, v2: Vec, dist: real,
                      len: real, amul: real, rmul: real, vavg: bool): (r: (Vec, Vec))
    ensures r.0.Add(r.1) == Zero
    ensures p1 == p2 && v1 == v2 ==> r == (Zero, Zero)
  {
    var spring := SpringPair(p2.Sub(p1), dist, SpringForce(dist, len, amul, rmul));
    if vavg then Combine(spring, VelocityPair(v1, v2)) else spring
  }

  /** What one edge adds as the engine computes it, with the unbalanced
      averaging terms. */
  function EdgeForcesAsWritten(p1: Vec, p2: Vec, v1: Vec, v2: Vec, dist: real,
                               len: real, amul: real, rmul: real, vavg: bool): (r: (Vec, Vec))
    ensures vavg ==> r.0.Add(r.1) == v2.Sub(v1).Scale(0.24)
    ensures !vavg ==> r.0.Add(r.1) == Zero
  {
    var spring := SpringPair(p2.Sub(p1), dist, SpringForce(dist, len, amul, rmul));
    if vavg then
      var avg := VelocityPairAsWritten(v1, v2);
      SumWithNet(spring.0, spring.1, avg.0, avg.1);
      (spring.0.Add(avg.0), spring.1.Add(avg.1))
    else spring
  }

  lemma SumWithNet(a: Vec, b: Vec, c: Vec, d: Vec)
    requires a.Add(b) == Zero
    ensures a.Add(c).Add(b.Add(d)) == c.Add(d)
  {
  }

  // ---------------------------------------------------------------------------
  // Nodes

  /** What a node's update reads and writes. */
  datatype NodeState = NodeState(pos: Vec, vel: Vec, acc: Vec)

  /** One substep of a node: the velocity is damped by `damping` (the engine's
      0.99 ^ (1 / substeps)), the position advances by vel / substeps and the
      acceleration is cleared; a fixed node does not change. */
  function Step(st: NodeState, fixed: bool, substeps: nat, damping: real): (r: NodeState)
    requires substeps > 0
    ensures fixed ==> r == st
    ensures !fixed ==> r.acc == Zero && r.vel == st.vel.Scale(damping)
    ensures !fixed ==> r.vel.Scale(1.0 / substeps as real) == r.pos.Sub(st.pos)
  {
    if fixed then st
    else
      var vel := st.vel.Scale(damping);
      NodeState(st.pos.Add(vel.Scale(1.0 / substeps as real)), vel, Zero)
  }

  /** Damping by a factor in [0, 1] never speeds a node up. */
  lemma StepNeverSpeedsUp(st: NodeState, fixed: bool, substeps: nat, damping: real)
    requires substeps > 0 && 0.0 <= damping <= 1.0
    ensures Step(st, fixed, substeps, damping).vel.NormSq() <= st.vel.NormSq()
  {
    if !fixed {
      DampedNormSq(st.vel, damping);
    }
  }

  lemma DampedNormSq(v: Vec, d: real)
    requires 0.0 <= d <= 1.0
    ensures v.Scale(d).NormSq() <= v.NormSq()
  {
    ScaledNormSq(v, d);
    assert d * d <= 1.0 by {
      assert d * d <= d * 1.0;
    }
    AtMostScaled(d * d, v.NormSq());
  }

  lemma ScaledNormSq(v: Vec, k: real)
    ensures v.Scale(k).NormSq() == k * k * v.NormSq()
  {
    assert (k * v.x) * (k * v.x) == k * k * (v.x * v.x);
    assert (k * v.y) * (k * v.y) == k * k * (v.y * v.y);
  }

  lemma AtMostScaled(m: real, n: real)
    requires 0.0 <= m <= 1.0 && n >= 0.0
    ensures m * n <= n
  {
    assert m * n <= 1.0 * n;
  }

  class Node {
    var pos: Vec
    var vel: Vec
    var acc: Vec
    const fixed: bool

    /** A node at rest at `pos`. */
    constructor (pos: Vec, fixed: bool)
      ensures this.pos == pos && vel == Zero && acc == Zero && this.fixed == fixed
    {
      this.pos := pos;
      vel := Zero;
      acc := Zero;
      this.fixed := fixed;
    }

    function State(): NodeState
      reads this
    {
      NodeState(pos, vel, acc)
    }

    /** The three wall tests of the collision handler for this node. */
    method HitWalls(box: Box)
      modifies this
      ensures State() == ClampToWalls(old(State()), box)
    {
      if pos.y > box.bottom - WALL_MARGIN {
        pos := Vec(pos.x, box.bottom - WALL_MARGIN);
        vel := Vec(vel.x, vel.y * BOUNCE);
      }
      if pos.x < box.left + WALL_MARGIN {
        pos := Vec(box.left + WALL_MARGIN, pos.y);
        vel := Vec(vel.x * BOUNCE, vel.y);
      }
      if pos.x > box.right - WALL_MARGIN {
        pos := Vec(box.right - WALL_MARGIN, pos.y);
        vel := Vec(vel.x * BOUNCE, vel.y);
      }
    }

    method Update(substeps: nat, damping: real)
      requires substeps > 0
      modifies this
      ensures State() == Step(old(State()), fixed, substeps, damping)
    {
      if fixed {
        return;
      }
      vel := vel.Scale(damping);
      pos := pos.Add(vel.Scale(1.0 / substeps as real));
      acc := acc.Scale(0.0);
    }
  }

  // ---------------------------------------------------------------------------
  // Edges

  class Edge {
    const n1: Node
    const n2: Node
    const len: real
    const amul: real
    const rmul: real
    const vavg: bool

    constructor (n1: Node, n2: Node, len: real, amul: real, rmul: real, vavg: bool)
      requires n1 != n2
      ensures Valid()
      ensures this.n1 == n1 && this.n2 == n2 && this.len == len
      ensures this.amul == amul && this.rmul == rmul && this.vavg == vavg
    {
      this.n1 := n1;
      this.n2 := n2;
      this.len := len;
      this.amul := amul;
      this.rmul := rmul;
      this.vavg := vavg;
    }

    /** Every edge the engine builds joins two different nodes. */
    predicate Valid()
    {
      n1 != n2
    }

    /** Apply the spring and, if enabled, the velocity averaging to the two
        ends' accelerations. `dist` is the engine's length of n2.pos - n1.pos
        (a square root); the update uses it only as given. */
    method Update(dist: real)
      requires Valid()
      modifies n1, n2
      ensures n1.pos == old(n1.pos) && n1.vel == old(n1.vel)
      ensures n2.pos == old(n2.pos) && n2.vel == old(n2.vel)
      ensures var f := EdgeForces(old(n1.pos), old(n2.pos), old(n1.vel), old(n2.vel), dist, len, amul, rmul, vavg);
        n1.acc == old(n1.acc).Add(f.0) && n2.acc == old(n2.acc).Add(f.1)
    {
      var f := EdgeForces(n1.pos, n2.pos, n1.vel, n2.vel, dist, len, amul, rmul, vavg);
      n1.acc := n1.acc.Add(f.0);
      n2.acc := n2.acc.Add(f.1);
    }
  }

  // ---------------------------------------------------------------------------
  // Walls

  /** The floor: a node below bottom - 4 is put back on it and bounces. */
  function ClampFloor(st: NodeState, box: Box): NodeState
  {
    if st.pos.y > box.bottom - WALL_MARGIN
    then NodeState(Vec(st.pos.x, box.bottom - WALL_MARGIN), Vec(st.vel.x, st.vel.y * BOUNCE), st.acc)
    else st
  }

  function ClampLeft(st: NodeState, box: Box): NodeState
  {
    if st.pos.x < box.left + WALL_MARGIN
    then NodeState(Vec(box.left + WALL_MARGIN, st.pos.y), Vec(st.vel.x * BOUNCE, st.vel.y), st.acc)
    else st
  }

  function ClampRight(st: NodeState, box: Box): NodeState
  {
    if st.pos.x > box.right - WALL_MARGIN
    then NodeState(Vec(box.right - WALL_MARGIN, st.pos.y), Vec(st.vel.x * BOUNCE, st.vel.y), st.acc)
    else st
  }

  /** The three wall tests of a node, in the engine's order. */
  function ClampToWalls(st: NodeState, box: Box): (r: NodeState)
    ensures r.acc == st.acc
    ensures r.pos.y <= box.bottom - WALL_MARGIN
    ensures r.pos.x <= box.right - WALL_MARGIN
  {
    ClampRight(ClampLeft(ClampFloor(st, box), box), box)
  }

  /** A box at least 8 wide: a node ends inside the margins, each coordinate
      moves only if it was out of bounds, and the velocity component across a
      wall is multiplied by -0.3 exactly when its coordinate was moved. */
  lemma ClampToWallsBounds(st: NodeState, box: Box)
    requires box.right - box.left >= 2.0 * WALL_MARGIN
    ensures var r := ClampToWalls(st, box);
      && box.left + WALL_MARGIN <= r.pos.x <= box.right - WALL_MARGIN
      && r.pos.y <= box.bottom - WALL_MARGIN
      && (r.pos.x == st.pos.x <==> box.left + WALL_MARGIN <= st.pos.x <= box.right - WALL_MARGIN)
      && (r.pos.y == st.pos.y <==> st.pos.y <= box.bottom - WALL_MARGIN)
      && r.vel.x == (if r.pos.x == st.pos.x then st.vel.x else st.vel.x * BOUNCE)
      && r.vel.y == (if r.pos.y == st.pos.y then st.vel.y else st.vel.y * BOUNCE)
  {
  }

  /** In a box at least 8 wide, a node already inside the margins is left
      alone, so clamping twice is clamping once. */
  lemma ClampToWallsIdempotent(st: NodeState, box: Box)
    requires box.right - box.left >= 2.0 * WALL_MARGIN
    ensures ClampToWalls(ClampToWalls(st, box), box) == ClampToWalls(st, box)
  {
    ClampToWallsBounds(st, box);
  }

  /** In a box narrower than 8 a node left of the left margin is pushed past
      it to the right margin and its horizontal velocity is scaled twice. */
  lemma ClampToWallsNarrowBox(st: NodeState, box: Box)
    requires box.right - box.left < 2.0 * WALL_MARGIN && st.pos.x < box.left + WALL_MARGIN
    requires st.pos.y <= box.bottom - WALL_MARGIN
    ensures ClampToWalls(st, box).pos.x == box.right - WALL_MARGIN < box.left + WALL_MARGIN
    ensures ClampToWalls(st, box).vel.x == st.vel.x * BOUNCE * BOUNCE
  {
  }

  // ---------------------------------------------------------------------------
  // The ring of a body

  /** The node positions of a body of radius `radius` centred at `c`, given
      the unit offsets (cos a, sin a) of the 40 ring angles. */
  function RingPositions(c: Vec, radius: real, unit: seq<Vec>): (r: seq<Vec>)
    ensures |r| == |unit|
  {
    Translate(ScaleAll(unit, radius), c)
  }

  /** The rest area of a body is its ring's area: the same wherever the body
      spawns, and proportional to the square of its radius. */
  lemma RingArea(c: Vec, radius: real, unit: seq<Vec>)
    ensures PolygonArea(RingPositions(c, radius, unit)) == radius * radius * PolygonArea(unit)
  {
    PolygonAreaTranslation(ScaleAll(unit, radius), c);
    PolygonAreaScaling(unit, radius);
  }

  /** Sum of the points, added in order as the centre loop does. */
  function Sum(ps: seq<Vec>): Vec
  {
    if |ps| == 0 then Zero else Sum(ps[..|ps| - 1]).Add(ps[|ps| - 1])
  }

  /** The centroid of the points. */
  function Mean(ps: seq<Vec>): (r: Vec)
    requires |ps| > 0
    ensures (forall i :: 0 <= i < |ps| ==> ps[i] == ps[0]) ==> r == ps[0]
  {
    SumOfEqual(ps, ps[0]);
    ScaleBack(ps[0], |ps| as real);
    Sum(ps).Scale(1.0 / |ps| as real)
  }

  /** Points all equal to `p` sum to n * p. */
  lemma {:induction false} SumOfEqual(ps: seq<Vec>, p: Vec)
    ensures (forall i :: 0 <= i < |ps| ==> ps[i] == p) ==> Sum(ps) == p.Scale(|ps| as real)
  {
    if |ps| > 0 && forall i :: 0 <= i < |ps| ==> ps[i] == p {
      SumOfEqual(ps[..|ps| - 1], p);
      AddOneMore(Zero, Zero, p, (|ps| - 1) as real);
    }
  }

  lemma ScaleBack(p: Vec, n: real)
    requires n > 0.0
    ensures p.Scale(n).Scale(1.0 / n) == p
  {
    assert (1.0 / n) * (n * p.x) == p.x;
    assert (1.0 / n) * (n * p.y) == p.y;
  }

  lemma {:induction false} SumTranslate(ps: seq<Vec>, t: Vec)
    ensures Sum(Translate(ps, t)) == Sum(ps).Add(t.Scale(|ps| as real))
  {
    if |ps| > 0 {
      var n := |ps|;
      assert Translate(ps, t)[..n - 1] == Translate(ps[..n - 1], t);
      SumTranslate(ps[..n - 1], t);
      AddOneMore(Sum(ps[..n - 1]), ps[n - 1], t, (n - 1) as real);
    }
  }

  lemma AddOneMore(s: Vec, p: Vec, t: Vec, m: real)
    ensures s.Add(t.Scale(m)).Add(p.Add(t)) == s.Add(p).Add(t.Scale(m + 1.0))
  {
    assert (m + 1.0) * t.x == m * t.x + t.x;
    assert (m + 1.0) * t.y == m * t.y + t.y;
  }

  /** Moving every node by `t` moves the centre by `t`. */
  lemma MeanTranslate(ps: seq<Vec>, t: Vec)
    requires |ps| > 0
    ensures Mean(Translate(ps, t)) == Mean(ps).Add(t)
  {
    SumTranslate(ps, t);
    var n := |ps| as real;
    var s := Sum(ps);
    DivideSum(s.x, t.x, n);
    DivideSum(s.y, t.y, n);
  }

  lemma DivideSum(a: real, b: real, n: real)
    requires n > 0.0
    ensures (1.0 / n) * (a + n * b) == (1.0 / n) * a + b
  {
    assert (1.0 / n) * (n * b) == b;
  }

  ghost predicate Distinct(ns: seq<Node>)
  {
    forall i, j :: 0 <= i < j < |ns| ==> ns[i] != ns[j]
  }

  /** 40 distinct nodes joined into a ring by 40 edges, edge i running from
      node i to the next node round the ring. */
  ghost predicate IsRing(ns: seq<Node>, es: seq<Edge>)
  {
    && |ns| == NUM_NODES && |es| == NUM_NODES && Distinct(ns)
    && (forall i :: 0 <= i < |es| ==> es[i].n1 == ns[i] && es[i].n2 == ns[Next(NUM_NODES, i)])
  }

  /** Free nodes at rest (no velocity, no acceleration) at the points `ps`. */
  ghost predicate AtRestOn(ns: seq<Node>, ps: seq<Vec>)
    reads set n | n in ns
  {
    && |ns| == |ps|
    && forall i :: 0 <= i < |ns| ==> !ns[i].fixed && ns[i].State() == NodeState(ps[i], Zero, Zero)
  }

  /** Edges of rest length `len` with the engine's multipliers and velocity
      averaging switched on. */
  ghost predicate Springs(es: seq<Edge>, len: real)
  {
    forall i :: 0 <= i < |es| ==> es[i].len == len && es[i].amul == AMUL && es[i].rmul == RMUL && es[i].vavg
  }

  class SoftBody {
    var center: Vec
    const radius: real
    const color: string
    var isSettled: bool
    const id: real
    const nodes: seq<Node>
    const edges: seq<Edge>
    const targetArea: real

    /** A ring of distinct nodes, each edge i joining node i to node i + 1
        (the last closing the ring). */
    ghost predicate Valid()
    {
      IsRing(nodes, edges)
    }

    function Positions(): (ps: seq<Vec>)
      reads set n | n in nodes
      ensures |ps| == |nodes|
    {
      seq(|nodes|, i reads set n | n in nodes requires 0 <= i < |nodes| => nodes[i].pos)
    }

    ghost function States(): (r: seq<NodeState>)
      reads set n | n in nodes
      ensures |r| == |nodes|
    {
      seq(|nodes|, i reads set n | n in nodes requires 0 <= i < |nodes| => nodes[i].State())
    }

    /** A body at (x, y): 40 fresh free nodes at rest on the ring given by
        the unit offsets `unit`, 40 edges of rest length `edgeLen` (the
        distance from node 0 to node 1) with velocity averaging, and the
        ring's area as the target area. */
    constructor (x: real, y: real, radius: real, color: string, id: real, unit: seq<Vec>, edgeLen: real)
      requires |unit| == NUM_NODES
      requires edgeLen >= 0.0
      requires edgeLen * edgeLen == DistSq(RingPositions(Vec(x, y), radius, unit)[0], RingPositions(Vec(x, y), radius, unit)[1])
      ensures Valid()
      ensures center == Vec(x, y) && this.radius == radius && this.color == color && this.id == id && !isSettled
      ensures forall n :: n in nodes ==> fresh(n)
      ensures forall e :: e in edges ==> fresh(e)
      ensures AtRestOn(nodes, RingPositions(Vec(x, y), radius, unit))
      ensures Springs(edges, edgeLen)
      ensures targetArea == radius * radius * PolygonArea(unit)
    {
      var ring := RingPositions(Vec(x, y), radius, unit);
      var ns := NewNodes(ring);
      var es := NewEdges(ns, edgeLen);
      RingArea(Vec(x, y), radius, unit);
      center := Vec(x, y);
      this.radius := radius;
      this.color := color;
      isSettled := false;
      this.id := id;
      nodes := ns;
      edges := es;
      targetArea := PolygonArea(ring);
    }

    /** The node loop of the constructor: one free node at rest on each ring
        position. */
    static method NewNodes(ring: seq<Vec>) returns (ns: seq<Node>)
      ensures Distinct(ns)
      ensures forall k :: 0 <= k < |ns| ==> fresh(ns[k])
      ensures AtRestOn(ns, ring)
    {
      ns := [];
      for i := 0 to |ring|
        invariant |ns| == i
        invariant forall k :: 0 <= k < i ==> fresh(ns[k]) && !ns[k].fixed && ns[k].State() == NodeState(ring[k], Zero, Zero)
        invariant forall k, l :: 0 <= k < l < i ==> ns[k] != ns[l]
      {
        var n := new Node(ring[i], false);
        ns := ns + [n];
      }
    }

    /** The edge loop of the constructor: edge i joins node i to the next
        node round the ring. */
    static method NewEdges(ns: seq<Node>, len: real) returns (es: seq<Edge>)
      requires |ns| == NUM_NODES && Distinct(ns)
      ensures IsRing(ns, es)
      ensures forall k :: 0 <= k < |es| ==> fresh(es[k])
      ensures Springs(es, len)
    {
      es := [];
      for i := 0 to NUM_NODES
        invariant |es| == i
        invariant forall k :: 0 <= k < i ==> fresh(es[k])
        invariant forall k :: 0 <= k < i ==> es[k].n1 == ns[k] && es[k].n2 == ns[Next(NUM_NODES, k)]
        invariant forall k :: 0 <= k < i ==>
          es[k].len == len && es[k].amul == AMUL && es[k].rmul == RMUL && es[k].vavg
      {
        var e := new Edge(ns[i], ns[Next(NUM_NODES, i)], len, AMUL, RMUL, true);
        es := es + [e];
      }
    }

    /** The wall loop of the collision handler: each node in turn against the
        floor and both walls. */
    method HandleWalls(box: Box)
      requires Distinct(nodes)
      modifies set n | n in nodes
      ensures forall i :: 0 <= i < |nodes| ==> nodes[i].State() == ClampToWalls(old(nodes[i].State()), box)
    {
      ghost var before := States();
      for i := 0 to |nodes|
        invariant forall k :: 0 <= k < i ==> nodes[k].State() == ClampToWalls(before[k], box)
        invariant forall k :: i <= k < |nodes| ==> nodes[k].State() == before[k]
      {
        nodes[i].HitWalls(box);
        assert forall k :: 0 <= k < |nodes| && k != i ==> nodes[k] != nodes[i];
      }
    }

    /** The centre becomes the mean of the node positions. */
    method RecomputeCenter()
      requires |nodes| > 0
      modifies this
      ensures center == Mean(Positions())
      ensures isSettled == old(isSettled)
    {
      ghost var ps := Positions();
      center := Zero;
      for i := 0 to |nodes|
        invariant center == Sum(ps[..i])
        invariant isSettled == old(isSettled)
      {
        assert ps[..i + 1][..i] == ps[..i] && ps[i] == nodes[i].pos;
        center := center.Add(nodes[i].pos);
      }
      assert ps[..|nodes|] == ps;
      center := center.Scale(1.0 / |nodes| as real);
    }
  }
}
