/** The enclosed area of a soft body's node ring, by the shoelace formula,
    and the invariances the pressure model relies on: the area does not depend
    on which node the ring starts at, nor on where the ring sits, and it grows
    with the square of a uniform scaling. */
module Polygon {
  import opened Vectors

  function Abs(r: real): real { if r < 0.0 then -r else r }

  /** Half the cross product of `a` and `b`: the shoelace term of the side a -> b. */
  function Cross(a: Vec, b: Vec): real
  {
    a.x * b.y * 0.5 - b.x * a.y * 0.5
  }

  /** The vertex index following `i` on a closed ring of `n` vertices. */
  function Next(n: nat, i: nat): (j: nat)
    requires i < n
    ensures j < n
    ensures j == (i + 1) % n
  {
    if i == n - 1 then 0 else i + 1
  }

  /** The shoelace terms of sides i, i + 1, ..., |vs| - 1, the last side
      closing the ring back to vertex 0, summed as the area loop does. */
  function ShoelaceFrom(vs: seq<Vec>, i: nat): real
    requires i <= |vs|
    decreases |vs| - i
  {
    if i == |vs| then 0.0 else Cross(vs[i], vs[Next(|vs|, i)]) + ShoelaceFrom(vs, i + 1)
  }

  /** The signed area of the ring: positive for one winding, negative for the other. */
  function SignedArea(vs: seq<Vec>): real
  {
    ShoelaceFrom(vs, 0)
  }

  /** The unsigned area enclosed by the vertex ring `vs`. */
  function PolygonArea(vs: seq<Vec>): (r: real)
    ensures r >= 0.0
    ensures r == SignedArea(vs) || r == -SignedArea(vs)
  {
    Abs(SignedArea(vs))
  }

  /** The shoelace terms of the open chain s[0] -> s[1] -> ... -> s[|s| - 1]. */
  function Chain(s: seq<Vec>): real
  {
    if |s| < 2 then 0.0 else Cross(s[0], s[1]) + Chain(s[1..])
  }

  /** The ring started at vertex `k` instead of vertex 0. */
  function RotateBy(vs: seq<Vec>, k: nat): (r: seq<Vec>)
    requires k <= |vs|
    ensures |r| == |vs|
    ensures forall i :: 0 <= i < |vs| - k ==> r[i] == vs[i + k]
    ensures forall i :: |vs| - k <= i < |vs| ==> r[i] == vs[i + k - |vs|]
  {
    vs[k..] + vs[..k]
  }

  function Translate(vs: seq<Vec>, t: Vec): (r: seq<Vec>)
    ensures |r| == |vs|
    ensures forall i :: 0 <= i < |vs| ==> r[i] == vs[i].Add(t)
  {
    seq(|vs|, i requires 0 <= i < |vs| => vs[i].Add(t))
  }

  function ScaleAll(vs: seq<Vec>, k: real): (r: seq<Vec>)
    ensures |r| == |vs|
    ensures forall i :: 0 <= i < |vs| ==> r[i] == vs[i].Scale(k)
  {
    seq(|vs|, i requires 0 <= i < |vs| => vs[i].Scale(k))
  }

  /** The closed-ring sum is the open chain plus the closing side. */
  lemma {:induction false} ShoelaceFromChain(vs: seq<Vec>, i: nat)
    requires i < |vs|
    ensures ShoelaceFrom(vs, i) == Chain(vs[i..]) + Cross(vs[|vs| - 1], vs[0])
    decreases |vs| - i
  {
    if i < |vs| - 1 {
      ShoelaceFromChain(vs, i + 1);
      assert vs[i..][1..] == vs[i + 1..];
    }
  }

  lemma {:induction false} ChainSnoc(s: seq<Vec>, a: Vec)
    requires |s| >= 1
    ensures Chain(s + [a]) == Chain(s) + Cross(s[|s| - 1], a)
  {
    if |s| > 1 {
      assert (s + [a])[1..] == s[1..] + [a];
      ChainSnoc(s[1..], a);
    }
  }

  /** Starting the ring one vertex later leaves the signed area unchanged. */
  lemma SignedAreaRotateOne(vs: seq<Vec>)
    requires |vs| >= 1
    ensures SignedArea(vs[1..] + [vs[0]]) == SignedArea(vs)
  {
    var n := |vs|;
    if n > 1 {
      var t := vs[1..];
      ShoelaceFromChain(vs, 0);
      ShoelaceFromChain(t + [vs[0]], 0);
      ChainSnoc(t, vs[0]);
      assert vs[0..] == vs;
      assert (t + [vs[0]])[0..] == t + [vs[0]];
    } else {
      assert vs[1..] + [vs[0]] == vs;
    }
  }

  /** The signed area does not depend on which vertex the ring starts at. */
  lemma {:induction false} SignedAreaRotation(vs: seq<Vec>, k: nat)
    requires k <= |vs|
    ensures SignedArea(RotateBy(vs, k)) == SignedArea(vs)
  {
    if k == 0 {
      assert RotateBy(vs, 0) == vs;
    } else {
      SignedAreaRotation(vs, k - 1);
      var w := RotateBy(vs, k - 1);
      SignedAreaRotateOne(w);
      assert w[1..] + [w[0]] == RotateBy(vs, k);
    }
  }

  lemma PolygonAreaRotation(vs: seq<Vec>, k: nat)
    requires k <= |vs|
    ensures PolygonArea(RotateBy(vs, k)) == PolygonArea(vs)
  {
    SignedAreaRotation(vs, k);
  }

  /** The part of a shoelace term that a translation by `t` contributes. */
  function Shift(p: Vec, t: Vec): real
  {
    0.5 * (t.y * p.x - t.x * p.y)
  }

  lemma CrossTranslate(a: Vec, b: Vec, t: Vec)
    ensures Cross(a.Add(t), b.Add(t)) == Cross(a, b) + Shift(a, t) - Shift(b, t)
  {
  }

  /** Translating an open chain adds a term that telescopes to its two ends. */
  lemma {:induction false} ChainTranslate(s: seq<Vec>, t: Vec)
    requires |s| >= 1
    ensures Chain(Translate(s, t)) == Chain(s) + Shift(s[0], t) - Shift(s[|s| - 1], t)
  {
    if |s| > 1 {
      ChainTranslate(s[1..], t);
      assert Translate(s, t)[1..] == Translate(s[1..], t);
      CrossTranslate(s[0], s[1], t);
    }
  }

  /** Moving every vertex by the same offset leaves the signed area unchanged. */
  lemma SignedAreaTranslation(vs: seq<Vec>, t: Vec)
    ensures SignedArea(Translate(vs, t)) == SignedArea(vs)
  {
    if |vs| > 0 {
      var n := |vs|;
      ShoelaceFromChain(vs, 0);
      ShoelaceFromChain(Translate(vs, t), 0);
      ChainTranslate(vs, t);
      CrossTranslate(vs[n - 1], vs[0], t);
      assert vs[0..] == vs;
      assert Translate(vs, t)[0..] == Translate(vs, t);
    }
  }

  lemma PolygonAreaTranslation(vs: seq<Vec>, t: Vec)
    ensures PolygonArea(Translate(vs, t)) == PolygonArea(vs)
  {
    SignedAreaTranslation(vs, t);
  }

  lemma CrossScale(a: Vec, b: Vec, k: real)
    ensures Cross(a.Scale(k), b.Scale(k)) == k * k * Cross(a, b)
  {
  }

  lemma {:induction false} ShoelaceFromScale(vs: seq<Vec>, k: real, i: nat)
    requires i <= |vs|
    ensures ShoelaceFrom(ScaleAll(vs, k), i) == k * k * ShoelaceFrom(vs, i)
    decreases |vs| - i
  {
    if i < |vs| {
      var w, j := ScaleAll(vs, k), Next(|vs|, i);
      ShoelaceFromScale(vs, k, i + 1);
      CrossScale(vs[i], vs[j], k);
      ScaledSum(k * k, Cross(vs[i], vs[j]), ShoelaceFrom(vs, i + 1), Cross(w[i], w[j]), ShoelaceFrom(w, i + 1));
    }
  }

  /** Scaling every vertex by `k` scales the signed area by k squared. */
  lemma SignedAreaScaling(vs: seq<Vec>, k: real)
    ensures SignedArea(ScaleAll(vs, k)) == k * k * SignedArea(vs)
  {
    ShoelaceFromScale(vs, k, 0);
  }

  lemma ScaledSum(m: real, c: real, e: real, c': real, e': real)
    requires c' == m * c && e' == m * e
    ensures c' + e' == m * (c + e)
  {
  }

  lemma PolygonAreaScaling(vs: seq<Vec>, k: real)
    ensures PolygonArea(ScaleAll(vs, k)) == k * k * PolygonArea(vs)
  {
    SignedAreaScaling(vs, k);
    var s := SignedArea(vs);
    assert k * k >= 0.0;
    if s < 0.0 {
      assert k * k * s <= 0.0;
      assert Abs(k * k * s) == k * k * -s;
    } else {
      assert k * k * s >= 0.0;
    }
  }
}
