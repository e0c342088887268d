/** The connectivity analyzer run after a body settles: it links settled
    bodies of one colour that touch (centres closer than the two radii plus a
    buffer), and marks every connected group that reaches from the left wall
    to the right wall for clearing.

    The search is written as the game writes it: an adjacency map of id lists
    built pair by pair, then a breadth-first search per left-wall body over a
    queue with a head index, sharing one visited set across all seeds. Its
    specification is stated over paths: a body is cleared exactly when some
    left-wall body reaches it and also reaches a right-wall body. */
module Connectivity {
  import opened Vectors

  /** Body ids are drawn from `random(100000)`, a real number. */
  type Id = real

  /** What the analyzer reads of a soft body. */
  datatype Body = Body(id: Id, center: Vec, radius: real, color: string, settled: bool)

  /** Extra distance allowed between touching bodies, and between a body and a wall. */
  const TouchBuffer: real := 10.0

  /** The settled bodies, in list order. */
  function Settled(bodies: seq<Body>): (s: seq<Body>)
    ensures |s| <= |bodies|
  {
    if bodies == [] then []
    else (if bodies[0].settled then [bodies[0]] else []) + Settled(bodies[1..])
  }

  /** The settled bodies are exactly the bodies that have settled. */
  lemma {:induction false} SettledMembers(bodies: seq<Body>)
    ensures forall b :: b in Settled(bodies) <==> b in bodies && b.settled
  {
    if bodies != [] {
      SettledMembers(bodies[1..]);
      assert bodies == [bodies[0]] + bodies[1..];
    }
  }

  function Ids(s: seq<Body>): set<Id>
  {
    set b | b in s :: b.id
  }

  /** Two bodies touch when they share a colour and their centres are closer
      than r1 + r2 + TouchBuffer; the distance is compared squared, which is
      equivalent because a distance is never negative. */
  predicate Touching(b1: Body, b2: Body)
    ensures Touching(b1, b2) <==>
      var reach := b2.radius + b1.radius + TouchBuffer;
      b2.color == b1.color && reach > 0.0 && DistSq(b2.center, b1.center) < reach * reach
  {
    DistSqSymmetric(b1.center, b2.center);
    var reach := b1.radius + b2.radius + TouchBuffer;
    b1.color == b2.color && reach > 0.0 && DistSq(b1.center, b2.center) < reach * reach
  }

  predicate LeftTouch(b: Body, box: Box)
  {
    b.center.x - b.radius < box.left + TouchBuffer
  }

  predicate RightTouch(b: Body, box: Box)
  {
    b.center.x + b.radius > box.right - TouchBuffer
  }

  /** Ids of the bodies of `s` touching the left wall. */
  function LeftIds(s: seq<Body>, box: Box): (r: set<Id>)
    ensures r <= Ids(s)
  {
    set b | b in s && LeftTouch(b, box) :: b.id
  }

  /** Ids of the bodies of `s` touching the right wall. */
  function RightIds(s: seq<Body>, box: Box): (r: set<Id>)
    ensures r <= Ids(s)
  {
    set b | b in s && RightTouch(b, box) :: b.id
  }

  /** The edge relation of the connectivity graph over the bodies `s`: two
      different list entries with ids `a` and `b` touch. */
  ghost predicate Linked(s: seq<Body>, a: Id, b: Id)
  {
    exists i, j :: 0 <= i < |s| && 0 <= j < |s| && i != j && s[i].id == a && s[j].id == b && Touching(s[i], s[j])
  }

  ghost predicate IsPath(s: seq<Body>, p: seq<Id>)
  {
    |p| > 0 && forall k :: 0 <= k < |p| - 1 ==> Linked(s, p[k], p[k + 1])
  }

  ghost predicate Reachable(s: seq<Body>, a: Id, b: Id)
  {
    exists p :: IsPath(s, p) && p[0] == a && p[|p| - 1] == b
  }

  /** Some id of `targets` is reachable from `a`. */
  ghost predicate ReachesSome(s: seq<Body>, a: Id, targets: set<Id>)
  {
    exists r :: r in targets && Reachable(s, a, r)
  }

  /** No edge leaves the set `c`. */
  ghost predicate Closed(s: seq<Body>, c: set<Id>)
  {
    forall x, y :: x in c && Linked(s, x, y) ==> y in c
  }

  /** The clearing rule: `x` lies in the group of some left-wall body, and
      that group also holds a right-wall body. */
  ghost predicate Bridged(s: seq<Body>, box: Box, x: Id)
  {
    exists l :: l in LeftIds(s, box) && Reachable(s, l, x) && ReachesSome(s, l, RightIds(s, box))
  }

  /** The ids one analysis pass over the settled bodies `s` clears. */
  ghost function ClearedIds(s: seq<Body>, box: Box): (r: set<Id>)
    ensures r <= Ids(s)
    ensures r != {} ==> LeftIds(s, box) != {} && RightIds(s, box) != {}
  {
    set x | x in Ids(s) && Bridged(s, box, x)
  }

  /** The adjacency map holds one entry per id, listing exactly the linked ids. */
  ghost predicate AdjacencyOf(s: seq<Body>, adj: map<Id, seq<Id>>)
  {
    adj.Keys == Ids(s) && forall a, b :: a in adj ==> (b in adj[a] <==> Linked(s, a, b))
  }

  // ---------------------------------------------------------------------------
  // Facts about the graph

  /** The adjacency relation is symmetric. */
  lemma LinkedSymmetric(s: seq<Body>, a: Id, b: Id)
    ensures Linked(s, a, b) <==> Linked(s, b, a)
  {
    if Linked(s, a, b) {
      var i, j :| 0 <= i < |s| && 0 <= j < |s| && i != j && s[i].id == a && s[j].id == b && Touching(s[i], s[j]);
      assert Touching(s[j], s[i]);
    }
    if Linked(s, b, a) {
      var i, j :| 0 <= i < |s| && 0 <= j < |s| && i != j && s[i].id == b && s[j].id == a && Touching(s[i], s[j]);
      assert Touching(s[j], s[i]);
    }
  }

  lemma LinkedInIds(s: seq<Body>, a: Id, b: Id)
    requires Linked(s, a, b)
    ensures a in Ids(s) && b in Ids(s)
  {
    var i, j :| 0 <= i < |s| && 0 <= j < |s| && i != j && s[i].id == a && s[j].id == b && Touching(s[i], s[j]);
    assert s[i] in s && s[j] in s;
  }

  /** Only settled bodies of one colour, listed separately and closer than
      r1 + r2 + 10, are ever linked by one analysis pass. */
  lemma LinkedOnlySettledSameColour(bodies: seq<Body>, a: Id, b: Id)
    requires Linked(Settled(bodies), a, b)
    ensures exists b1, b2 :: b1 in bodies && b2 in bodies && b1.id == a && b2.id == b
              && b1.settled && b2.settled && b1.color == b2.color && Touching(b1, b2)
  {
    var s := Settled(bodies);
    SettledMembers(bodies);
    var i, j :| 0 <= i < |s| && 0 <= j < |s| && i != j && s[i].id == a && s[j].id == b && Touching(s[i], s[j]);
    assert s[i] in s && s[j] in s;
  }

  lemma ReachableRefl(s: seq<Body>, a: Id)
    ensures Reachable(s, a, a)
  {
    assert IsPath(s, [a]);
  }

  lemma ReachableStep(s: seq<Body>, a: Id, b: Id, c: Id)
    requires Reachable(s, a, b) && Linked(s, b, c)
    ensures Reachable(s, a, c)
  {
    var p :| IsPath(s, p) && p[0] == a && p[|p| - 1] == b;
    var p' := p + [c];
    forall k | 0 <= k < |p'| - 1
      ensures Linked(s, p'[k], p'[k + 1])
    {
      if k + 1 < |p| {
        assert p'[k] == p[k] && p'[k + 1] == p[k + 1];
      }
    }
    assert IsPath(s, p');
  }

  lemma {:induction false} ReachableTransitive(s: seq<Body>, a: Id, b: Id, c: Id)
    requires Reachable(s, a, b) && Reachable(s, b, c)
    ensures Reachable(s, a, c)
  {
    var q :| IsPath(s, q) && q[0] == b && q[|q| - 1] == c;
    ReachableAlong(s, a, q, |q| - 1);
  }

  /** Following a path from a reachable start reaches each of its vertices. */
  lemma {:induction false} ReachableAlong(s: seq<Body>, a: Id, q: seq<Id>, k: nat)
    requires IsPath(s, q) && k < |q| && Reachable(s, a, q[0])
    ensures Reachable(s, a, q[k])
  {
    if k > 0 {
      ReachableAlong(s, a, q, k - 1);
      ReachableStep(s, a, q[k - 1], q[k]);
    }
  }

  function Reverse(p: seq<Id>): (r: seq<Id>)
    ensures |r| == |p|
    ensures forall k :: 0 <= k < |p| ==> r[k] == p[|p| - 1 - k]
  {
    seq(|p|, k requires 0 <= k < |p| => p[|p| - 1 - k])
  }

  /** The graph is undirected, so reachability is symmetric. */
  lemma ReachableSymmetric(s: seq<Body>, a: Id, b: Id)
    requires Reachable(s, a, b)
    ensures Reachable(s, b, a)
  {
    var p :| IsPath(s, p) && p[0] == a && p[|p| - 1] == b;
    var r := Reverse(p);
    forall k | 0 <= k < |r| - 1
      ensures Linked(s, r[k], r[k + 1])
    {
      LinkedSymmetric(s, p[|p| - 2 - k], p[|p| - 1 - k]);
    }
    assert IsPath(s, r);
  }

  lemma {:induction false} ClosedAlong(s: seq<Body>, c: set<Id>, q: seq<Id>, k: nat)
    requires Closed(s, c) && IsPath(s, q) && q[0] in c && k < |q|
    ensures q[k] in c
  {
    if k > 0 {
      ClosedAlong(s, c, q, k - 1);
    }
  }

  /** A set closed under links that holds `a` holds everything `a` reaches. */
  lemma ClosedContainsReachable(s: seq<Body>, c: set<Id>, a: Id, b: Id)
    requires Closed(s, c) && a in c && Reachable(s, a, b)
    ensures b in c
  {
    var p :| IsPath(s, p) && p[0] == a && p[|p| - 1] == b;
    ClosedAlong(s, c, p, |p| - 1);
  }

  lemma ReachableInIds(s: seq<Body>, a: Id, b: Id)
    requires a in Ids(s) && Reachable(s, a, b)
    ensures b in Ids(s)
  {
    forall x, y | x in Ids(s) && Linked(s, x, y)
      ensures y in Ids(s)
    {
      LinkedInIds(s, x, y);
    }
    ClosedContainsReachable(s, Ids(s), a, b);
  }

  // ---------------------------------------------------------------------------
  // Facts about the clearing rule

  /** Without a settled body at the left wall, or without one at the right
      wall, nothing is cleared. */
  lemma NoWallNoClear(s: seq<Body>, box: Box)
    requires LeftIds(s, box) == {} || RightIds(s, box) == {}
    ensures ClearedIds(s, box) == {}
  {
  }

  /** Whole groups are cleared: a body linked to a cleared body is cleared. */
  lemma ClearedClosed(s: seq<Body>, box: Box, x: Id, y: Id)
    requires x in ClearedIds(s, box) && Linked(s, x, y)
    ensures y in ClearedIds(s, box)
  {
    var l :| l in LeftIds(s, box) && Reachable(s, l, x) && ReachesSome(s, l, RightIds(s, box));
    ReachableStep(s, l, x, y);
    LinkedInIds(s, x, y);
  }

  /** Every cleared body is joined by a same-colour chain of touching settled
      bodies to a body at the left wall and to a body at the right wall. */
  lemma ClearedSpansBothWalls(s: seq<Body>, box: Box, x: Id)
    requires x in ClearedIds(s, box)
    ensures exists l :: l in LeftIds(s, box) && Reachable(s, x, l)
    ensures exists r :: r in RightIds(s, box) && Reachable(s, x, r)
  {
    var l :| l in LeftIds(s, box) && Reachable(s, l, x) && ReachesSome(s, l, RightIds(s, box));
    var r :| r in RightIds(s, box) && Reachable(s, l, r);
    ReachableSymmetric(s, l, x);
    ReachableTransitive(s, x, l, r);
  }

  /** A left-wall body in a group that holds a right-wall body is cleared,
      with its whole group. */
  lemma BridgingGroupCleared(s: seq<Body>, box: Box, l: Id, r: Id, x: Id)
    requires l in LeftIds(s, box) && r in RightIds(s, box)
    requires Reachable(s, l, r) && Reachable(s, l, x)
    ensures x in ClearedIds(s, box)
  {
    ReachableInIds(s, l, x);
  }

  /** A body reached from another id is linked to some id: so a body linked
      to nothing is reached from no other id. */
  lemma ReachedIsLinked(s: seq<Body>, a: Id, c: Id)
    ensures Reachable(s, a, c) && a != c ==> exists x :: Linked(s, x, c)
  {
    if Reachable(s, a, c) && a != c {
      var p :| IsPath(s, p) && p[0] == a && p[|p| - 1] == c;
      assert Linked(s, p[|p| - 2], p[|p| - 1]);
    }
  }

  // ---------------------------------------------------------------------------
  // Fewer bodies, fewer links

  /** A body held at two positions is counted twice. */
  lemma HeldTwice(s: seq<Body>, i: int, j: int)
    requires 0 <= i < j < |s| && s[i] == s[j]
    ensures multiset(s)[s[i]] >= 2
  {
    assert s == s[..j] + [s[j]] + s[j + 1..];
    assert s[i] in s[..j];
  }

  /** A body counted twice is held at two positions. */
  lemma CountedTwice(s: seq<Body>, v: Body) returns (i: int, j: int)
    requires multiset(s)[v] >= 2
    ensures 0 <= i < |s| && 0 <= j < |s| && i != j && s[i] == v && s[j] == v
  {
    assert v in multiset(s);
    i :| 0 <= i < |s| && s[i] == v;
    var rest := s[..i] + s[i + 1..];
    assert s == s[..i] + [s[i]] + s[i + 1..];
    assert multiset(s) == multiset(rest) + multiset{v};
    assert v in multiset(rest);
    var k :| 0 <= k < |rest| && rest[k] == v;
    j := if k < i then k else k + 1;
  }

  /** Links between bodies of a sub-list (a list whose every body is counted
      no more often than in `full`) are links of `full`. */
  lemma LinkedInSublist(sub: seq<Body>, full: seq<Body>, a: Id, b: Id)
    requires multiset(sub) <= multiset(full) && Linked(sub, a, b)
    ensures Linked(full, a, b)
  {
    var i, j :| 0 <= i < |sub| && 0 <= j < |sub| && i != j && sub[i].id == a && sub[j].id == b && Touching(sub[i], sub[j]);
    var u, v := sub[i], sub[j];
    if u == v {
      if i < j {
        HeldTwice(sub, i, j);
      } else {
        HeldTwice(sub, j, i);
      }
      var i', j' := CountedTwice(full, u);
      assert full[i'].id == a && full[j'].id == b && Touching(full[i'], full[j']);
    } else {
      assert u in multiset(sub) && v in multiset(sub);
      assert u in multiset(full) && v in multiset(full);
      var i' :| 0 <= i' < |full| && full[i'] == u;
      var j' :| 0 <= j' < |full| && full[j'] == v;
      assert full[i'].id == a && full[j'].id == b && Touching(full[i'], full[j']);
    }
  }

  lemma ReachableInSublist(sub: seq<Body>, full: seq<Body>, a: Id, b: Id)
    requires multiset(sub) <= multiset(full) && Reachable(sub, a, b)
    ensures Reachable(full, a, b)
  {
    var p :| IsPath(sub, p) && p[0] == a && p[|p| - 1] == b;
    forall k | 0 <= k < |p| - 1
      ensures Linked(full, p[k], p[k + 1])
    {
      LinkedInSublist(sub, full, p[k], p[k + 1]);
    }
    assert IsPath(full, p);
  }

  /** A group of a sub-list that spans both walls spans them in `full` too:
      a body of the sub-list is cleared from it only if its left-wall body's
      id is cleared from `full`. */
  lemma BridgedInSublist(sub: seq<Body>, full: seq<Body>, box: Box, x: Id) returns (l: Id)
    requires multiset(sub) <= multiset(full) && x in ClearedIds(sub, box)
    ensures l in Ids(sub) && l in ClearedIds(full, box)
  {
    l :| l in LeftIds(sub, box) && Reachable(sub, l, x) && ReachesSome(sub, l, RightIds(sub, box));
    var r :| r in RightIds(sub, box) && Reachable(sub, l, r);
    var bl :| bl in sub && LeftTouch(bl, box) && bl.id == l;
    var br :| br in sub && RightTouch(br, box) && br.id == r;
    assert bl in multiset(sub) && br in multiset(sub);
    assert bl in full && br in full;
    ReachableInSublist(sub, full, l, r);
    ReachableRefl(full, l);
    BridgingGroupCleared(full, box, l, r, l);
  }

  // ---------------------------------------------------------------------------
  // The analyzer

  /** Two bodies s[p], s[q] with p < q that touch, have ids {a, b}, and come
      before position (i, j) in the pair loop. */
  ghost predicate LinkedBefore(s: seq<Body>, i: int, j: int, a: Id, b: Id)
  {
    exists p, q :: 0 <= p < q < |s| && (p < i || (p == i && q < j)) && Touching(s[p], s[q])
      && ((s[p].id == a && s[q].id == b) || (s[p].id == b && s[q].id == a))
  }

  /** The adjacency map once the pair loop has reached position (i, j). */
  ghost predicate AdjacencyBefore(s: seq<Body>, adj: map<Id, seq<Id>>, i: int, j: int)
  {
    adj.Keys == Ids(s) && forall a, b :: a in adj ==> (b in adj[a] <==> LinkedBefore(s, i, j, a, b))
  }

  /** Appends `b` to the neighbour list of `a`. */
  function PushNeighbour(adj: map<Id, seq<Id>>, a: Id, b: Id): (r: map<Id, seq<Id>>)
    requires a in adj
  {
    adj[a := adj[a] + [b]]
  }

  lemma LinkedBeforeNextPair(s: seq<Body>, i: int, j: int, a: Id, b: Id)
    requires 0 <= i < j < |s|
    ensures LinkedBefore(s, i, j + 1, a, b) <==>
      LinkedBefore(s, i, j, a, b) ||
      (Touching(s[i], s[j]) && ((s[i].id == a && s[j].id == b) || (s[i].id == b && s[j].id == a)))
  {
    if LinkedBefore(s, i, j + 1, a, b) && !LinkedBefore(s, i, j, a, b) {
      var p, q :| 0 <= p < q < |s| && (p < i || (p == i && q < j + 1)) && Touching(s[p], s[q])
        && ((s[p].id == a && s[q].id == b) || (s[p].id == b && s[q].id == a));
      assert p == i && q == j;
    }
  }

  /** Handling the pair (i, j) moves the adjacency map on to (i, j + 1). */
  lemma AdjacencyNextPair(s: seq<Body>, adj: map<Id, seq<Id>>, adj': map<Id, seq<Id>>, i: int, j: int)
    requires 0 <= i < j < |s| && AdjacencyBefore(s, adj, i, j)
    requires adj' == if Touching(s[i], s[j])
                     then PushNeighbour(PushNeighbour(adj, s[i].id, s[j].id), s[j].id, s[i].id)
                     else adj
    ensures AdjacencyBefore(s, adj', i, j + 1)
  {
    assert adj'.Keys == adj.Keys;
    forall a, b | a in adj'
      ensures b in adj'[a] <==> LinkedBefore(s, i, j + 1, a, b)
    {
      LinkedBeforeNextPair(s, i, j, a, b);
    }
  }

  /** Row i starts at j == i + 1: no pair (i, j) with j <= i exists. */
  lemma AdjacencyRowStart(s: seq<Body>, adj: map<Id, seq<Id>>, i: int)
    requires 0 <= i < |s| && AdjacencyBefore(s, adj, i, 0)
    ensures AdjacencyBefore(s, adj, i, i + 1)
  {
    forall a, b
      ensures LinkedBefore(s, i, 0, a, b) <==> LinkedBefore(s, i, i + 1, a, b)
    {
    }
  }

  /** The end of row i is the start of row i + 1. */
  lemma AdjacencyRowEnd(s: seq<Body>, adj: map<Id, seq<Id>>, i: int)
    requires 0 <= i < |s| && AdjacencyBefore(s, adj, i, |s|)
    ensures AdjacencyBefore(s, adj, i + 1, 0)
  {
    forall a, b
      ensures LinkedBefore(s, i, |s|, a, b) <==> LinkedBefore(s, i + 1, 0, a, b)
    {
    }
  }

  lemma AdjacencyAllPairs(s: seq<Body>, adj: map<Id, seq<Id>>)
    requires AdjacencyBefore(s, adj, |s|, 0)
    ensures AdjacencyOf(s, adj)
  {
    forall a, b
      ensures LinkedBefore(s, |s|, 0, a, b) <==> Linked(s, a, b)
    {
      if Linked(s, a, b) {
        var i, j :| 0 <= i < |s| && 0 <= j < |s| && i != j && s[i].id == a && s[j].id == b && Touching(s[i], s[j]);
        assert Touching(s[j], s[i]);
        if i < j {
          assert LinkedBefore(s, |s|, 0, a, b);
        } else {
          assert LinkedBefore(s, |s|, 0, a, b);
        }
      }
      if LinkedBefore(s, |s|, 0, a, b) {
        var p, q :| 0 <= p < q < |s| && Touching(s[p], s[q])
          && ((s[p].id == a && s[q].id == b) || (s[p].id == b && s[q].id == a));
        assert Touching(s[q], s[p]);
      }
    }
  }

  /** Step 1: an empty id list per settled body, then every touching pair
      (i < j) appends each id to the other's list. */
  method BuildAdjacency(s: seq<Body>) returns (adj: map<Id, seq<Id>>)
    ensures AdjacencyOf(s, adj)
  {
    adj := map a | a in Ids(s) :: [];
    var i := 0;
    while i < |s|
      invariant 0 <= i <= |s|
      invariant AdjacencyBefore(s, adj, i, 0)
    {
      AdjacencyRowStart(s, adj, i);
      adj := AdjacencyRow(s, adj, i);
      AdjacencyRowEnd(s, adj, i);
      i := i + 1;
    }
    AdjacencyAllPairs(s, adj);
  }

  /** The inner loop of step 2: body i against every later body, linking
      each touching pair in both directions. */
  method AdjacencyRow(s: seq<Body>, adj0: map<Id, seq<Id>>, i: int) returns (adj: map<Id, seq<Id>>)
    requires 0 <= i < |s| && AdjacencyBefore(s, adj0, i, i + 1)
    ensures AdjacencyBefore(s, adj, i, |s|)
  {
    adj := adj0;
    var j := i + 1;
    while j < |s|
      invariant i + 1 <= j <= |s|
      invariant AdjacencyBefore(s, adj, i, j)
    {
      var b1, b2 := s[i], s[j];
      assert b1 in s && b2 in s;
      assert b1.id in adj && b2.id in adj;
      ghost var before := adj;
      if Touching(b1, b2) {
        adj := PushNeighbour(adj, b1.id, b2.id);
        adj := PushNeighbour(adj, b2.id, b1.id);
        assert adj == PushNeighbour(PushNeighbour(before, s[i].id, s[j].id), s[j].id, s[i].id);
      } else {
        assert adj == before;
      }
      AdjacencyNextPair(s, before, adj, i, j);
      j := j + 1;
    }
  }

  /** The state of one search from `seed`, started when the ids `visited`
      were already visited: the queue holds each id of the group once, the
      group is new, and everything in it is reachable from the seed. */
  ghost predicate SearchState(s: seq<Body>, seed: Id, visited: set<Id>,
                              q: seq<Id>, component: set<Id>, visited': set<Id>)
  {
    && (forall x :: x in q <==> x in component)
    && visited' == visited + component && visited !! component && visited' <= Ids(s)
    && (forall i, j :: 0 <= i < j < |q| ==> q[i] != q[j])
    && (forall x :: x in component ==> Reachable(s, seed, x))
  }

  /** Enqueueing an unvisited neighbour of a reached id keeps the search state. */
  lemma Enqueue(s: seq<Body>, seed: Id, visited: set<Id>, q: seq<Id>, component: set<Id>, visited': set<Id>,
                current: Id, y: Id)
    requires SearchState(s, seed, visited, q, component, visited')
    requires Reachable(s, seed, current) && Linked(s, current, y) && y !in visited'
    ensures SearchState(s, seed, visited, q + [y], component + {y}, visited' + {y})
  {
    LinkedInIds(s, current, y);
    ReachableStep(s, seed, current, y);
  }

  /** The ids listed for `a`, or none when `a` has no entry. */
  function NeighboursOf(adj: map<Id, seq<Id>>, a: Id): seq<Id>
  {
    if a in adj then adj[a] else []
  }

  /** An adjacency map lists exactly the linked ids, an id it lacks having none. */
  lemma NeighboursLinked(s: seq<Body>, adj: map<Id, seq<Id>>, a: Id)
    requires AdjacencyOf(s, adj)
    ensures forall y :: y in NeighboursOf(adj, a) <==> Linked(s, a, y)
  {
    forall y | Linked(s, a, y)
      ensures a in adj
    {
      LinkedInIds(s, a, y);
    }
  }

  /** The inner loop of step 3's search: every neighbour of `current` not yet
      visited is marked visited, added to the group and enqueued, in list order. */
  method VisitNeighbours(s: seq<Body>, neighbours: seq<Id>, seed: Id, current: Id, visited: set<Id>,
                         q: seq<Id>, component: set<Id>, visited': set<Id>)
    returns (q': seq<Id>, component': set<Id>, visited'': set<Id>)
    requires forall y :: y in neighbours <==> Linked(s, current, y)
    requires Reachable(s, seed, current)
    requires SearchState(s, seed, visited, q, component, visited')
    ensures SearchState(s, seed, visited, q', component', visited'')
    ensures q <= q'
    ensures forall y :: Linked(s, current, y) ==> y in visited''
    ensures |q'| == |q| ==> visited'' == visited'
    ensures |q'| > |q| ==> visited' < visited''
  {
    q', component', visited'' := q, component, visited';
    var n := 0;
    while n < |neighbours|
      invariant 0 <= n <= |neighbours|
      invariant SearchState(s, seed, visited, q', component', visited'')
      invariant q <= q'
      invariant forall y :: y in neighbours[..n] ==> y in visited''
      invariant visited' <= visited''
      invariant |q'| == |q| ==> visited'' == visited'
      invariant |q'| > |q| ==> q'[|q|] in visited'' - visited'
    {
      var y := neighbours[n];
      if y !in visited'' {
        Enqueue(s, seed, visited, q', component', visited'', current, y);
        visited'' := visited'' + {y};
        component' := component' + {y};
        q' := q' + [y];
      }
      assert neighbours[..n + 1] == neighbours[..n] + [y];
      n := n + 1;
    }
    assert neighbours[..n] == neighbours;
  }

  /** One breadth-first search of step 3, from `seed`, which no earlier search
      visited. Returns the group found, the queue (each id of the group
      enqueued exactly once), the extended visited set, and whether the group
      holds an id of `right`. */
  method ExploreComponent(s: seq<Body>, adj: map<Id, seq<Id>>, right: set<Id>, seed: Id, visited: set<Id>)
    returns (component: set<Id>, q: seq<Id>, visited': set<Id>, reachesRight: bool)
    requires AdjacencyOf(s, adj)
    requires seed in Ids(s) && seed !in visited && visited <= Ids(s) && Closed(s, visited)
    ensures forall x :: x in component <==> Reachable(s, seed, x)
    ensures visited' == visited + component && visited !! component
    ensures |q| > 0 && q[0] == seed
    ensures forall x :: x in q <==> x in component
    ensures forall i, j :: 0 <= i < j < |q| ==> q[i] != q[j]
    ensures reachesRight <==> ReachesSome(s, seed, right)
  {
    q := [seed];
    component := {seed};
    visited' := visited + {seed};
    reachesRight := false;
    ReachableRefl(s, seed);
    var head := 0;
    while head < |q|
      invariant 0 <= head <= |q| && |q| > 0 && q[0] == seed
      invariant SearchState(s, seed, visited, q, component, visited')
      invariant Expanded(s, q, head, visited')
      invariant reachesRight <==> exists k :: 0 <= k < head && q[k] in right
      decreases Ids(s) - visited', |q| - head
    {
      q, component, visited', reachesRight := SearchStep(s, adj, right, seed, visited, q, component, visited', head, reachesRight);
      head := head + 1;
    }
    QueueExhausted(s, seed, visited, component, q);
    if ReachesSome(s, seed, right) {
      var r :| r in right && Reachable(s, seed, r);
      var k :| 0 <= k < |q| && q[k] == r;
    }
  }

  /** The neighbours of the first `head` queued ids are all visited. */
  ghost predicate Expanded(s: seq<Body>, q: seq<Id>, head: int, visited: set<Id>)
  {
    forall k, y :: 0 <= k < head && k < |q| && Linked(s, q[k], y) ==> y in visited
  }

  /** One turn of the search loop: dequeue the id at `head`, note whether it
      touches the right wall, and visit its neighbours. */
  method SearchStep(s: seq<Body>, adj: map<Id, seq<Id>>, right: set<Id>, seed: Id, visited: set<Id>,
                    q: seq<Id>, component: set<Id>, visited': set<Id>, head: int, reachesRight: bool)
    returns (q': seq<Id>, component': set<Id>, visited'': set<Id>, reachesRight': bool)
    requires AdjacencyOf(s, adj) && 0 <= head < |q|
    requires SearchState(s, seed, visited, q, component, visited')
    requires Expanded(s, q, head, visited')
    requires reachesRight <==> exists k :: 0 <= k < head && q[k] in right
    ensures SearchState(s, seed, visited, q', component', visited'')
    ensures q <= q'
    ensures Expanded(s, q', head + 1, visited'')
    ensures reachesRight' <==> exists k :: 0 <= k < head + 1 && q'[k] in right
    ensures |q'| == |q| ==> visited'' == visited'
    ensures |q'| > |q| ==> visited' < visited''
  {
    var current := q[head];
    reachesRight' := reachesRight || current in right;
    assert current in component;
    NeighboursLinked(s, adj, current);
    q', component', visited'' := VisitNeighbours(s, NeighboursOf(adj, current), seed, current, visited, q, component, visited');
    assert forall k :: 0 <= k <= head ==> q'[k] == q[k];
  }

  /** Once every queued id has had its neighbours visited, the group holds
      exactly the ids reachable from the seed. */
  lemma QueueExhausted(s: seq<Body>, seed: Id, visited: set<Id>, component: set<Id>, q: seq<Id>)
    requires Closed(s, visited) && visited !! component && seed in component
    requires forall x :: x in q <==> x in component
    requires forall x :: x in component ==> Reachable(s, seed, x)
    requires forall k, y :: 0 <= k < |q| && Linked(s, q[k], y) ==> y in visited + component
    ensures forall x :: x in component <==> Reachable(s, seed, x)
  {
    forall x, y | x in component && Linked(s, x, y)
      ensures y in component
    {
      var k :| 0 <= k < |q| && q[k] == x;
      assert y in visited + component;
      // An edge into the closed set `visited` would lead back out of it.
      LinkedSymmetric(s, x, y);
      assert y in visited ==> x in visited;
    }
    forall x | Reachable(s, seed, x)
      ensures x in component
    {
      ClosedContainsReachable(s, component, seed, x);
    }
  }

  /** Step 3: a search from every left-wall id not yet visited; the groups
      that hold a right-wall id are marked. */
  method MarkBridgingComponents(s: seq<Body>, adj: map<Id, seq<Id>>, left: set<Id>, right: set<Id>)
    returns (toClear: set<Id>)
    requires AdjacencyOf(s, adj) && left <= Ids(s)
    ensures forall x :: x in toClear <==> exists l :: l in left && Reachable(s, l, x) && ReachesSome(s, l, right)
  {
    toClear := {};
    var visited: set<Id> := {};
    var remaining := left;
    while remaining != {}
      invariant remaining <= left
      invariant visited <= Ids(s) && Closed(s, visited)
      invariant forall x :: x in visited <==> exists l :: l in left - remaining && Reachable(s, l, x)
      invariant forall x :: x in toClear <==>
        exists l :: l in left - remaining && Reachable(s, l, x) && ReachesSome(s, l, right)
      decreases remaining
    {
      var start :| start in remaining;
      ghost var done := left - remaining;
      remaining := remaining - {start};
      assert left - remaining == done + {start};
      if start in visited {
        // Its group was found from an earlier seed `l0`, which reaches all it reaches.
        ghost var l0 :| l0 in done && Reachable(s, l0, start);
        forall x | Reachable(s, start, x)
          ensures Reachable(s, l0, x)
        {
          ReachableTransitive(s, l0, start, x);
        }
        continue;
      }
      var component, q, visited', reaches := ExploreComponent(s, adj, right, start, visited);
      forall x | x in component
        ensures x in Ids(s)
      {
        ReachableInIds(s, start, x);
      }
      forall x, y | x in visited' && Linked(s, x, y)
        ensures y in visited'
      {
        if x in component {
          ReachableStep(s, start, x, y);
        }
      }
      visited := visited';
      if reaches {
        toClear := toClear + component;
      }
    }
  }

  /** Steps 1 to 3 of a pass over the settled bodies `s`: nothing is
      marked when there are no settled bodies or no body at either wall;
      otherwise the adjacency map is built and the spanning groups marked. */
  method FindSpanningGroups(s: seq<Body>, box: Box) returns (toClear: set<Id>)
    ensures toClear == ClearedIds(s, box)
  {
    if |s| == 0 {
      NoWallNoClear(s, box);
      return {};
    }
    var adj := BuildAdjacency(s);
    var left := LeftIds(s, box);
    var right := RightIds(s, box);
    if |left| == 0 || |right| == 0 {
      NoWallNoClear(s, box);
      return {};
    }
    toClear := MarkBridgingComponents(s, adj, left, right);
    forall x | x in toClear
      ensures x in Ids(s)
    {
      var l :| l in left && Reachable(s, l, x) && ReachesSome(s, l, right);
      ReachableInIds(s, l, x);
    }
  }

  /** A worked case in a 150-wide box: A touches the left wall, B touches A
      and the right wall, C has their colour but touches neither; exactly
      {A, B} is cleared. */
  lemma ThreeBodyExample()
    ensures ClearedIds(ExampleBodies(), ExampleBox()) == {1.0, 2.0}
  {
    ExampleABBridged();
    ExampleCNotBridged();
    ExampleIds();
  }

  /** A touches the left wall and reaches B, which touches the right wall. */
  lemma ExampleABBridged()
    ensures Bridged(ExampleBodies(), ExampleBox(), 1.0)
    ensures Bridged(ExampleBodies(), ExampleBox(), 2.0)
  {
    var s, box := ExampleBodies(), ExampleBox();
    ExampleWalls();
    ExampleReachAB();
    ReachableRefl(s, 1.0);
    assert ReachesSome(s, 1.0, RightIds(s, box));
  }

  lemma ExampleReachAB()
    ensures Reachable(ExampleBodies(), 1.0, 2.0)
  {
    var s := ExampleBodies();
    ExampleLinkAB();
    assert IsPath(s, [1.0, 2.0]);
  }

  lemma ExampleIds()
    ensures Ids(ExampleBodies()) == {1.0, 2.0, 3.0}
  {
    var s := ExampleBodies();
    assert s[0] in s && s[1] in s && s[2] in s;
  }

  /** No left-wall body reaches C, so C stays. */
  lemma ExampleCNotBridged()
    ensures !Bridged(ExampleBodies(), ExampleBox(), 3.0)
  {
    var s, box := ExampleBodies(), ExampleBox();
    ExampleWalls();
    ExampleIsolatedC();
    ReachedIsLinked(s, 1.0, 3.0);
  }

  function ExampleBox(): Box
  {
    Box(0.0, 150.0, 0.0, 600.0)
  }

  const BodyA: Body := Body(1.0, Vec(30.0, 570.0), 30.0, "red", true)
  const BodyB: Body := Body(2.0, Vec(100.0, 570.0), 45.0, "red", true)
  const BodyC: Body := Body(3.0, Vec(75.0, 300.0), 30.0, "red", true)

  function ExampleBodies(): seq<Body>
  {
    [BodyA, BodyB, BodyC]
  }

  lemma ExampleWalls()
    ensures LeftIds(ExampleBodies(), ExampleBox()) == {1.0}
    ensures RightIds(ExampleBodies(), ExampleBox()) == {2.0}
  {
    var s := ExampleBodies();
    assert s[0] in s;
    assert s[1] in s;
  }

  lemma ExampleAB()
    ensures Touching(BodyA, BodyB)
  {
  }

  lemma ExampleAC()
    ensures !Touching(BodyA, BodyC)
  {
  }

  lemma ExampleBC()
    ensures !Touching(BodyB, BodyC)
  {
  }

  /** C is at least 72 px below A and B: it touches neither. */
  lemma ExampleApart(i: int, j: int)
    requires 0 <= i < |ExampleBodies()| && 0 <= j < |ExampleBodies()| && i != j
    requires ExampleBodies()[j].id == 3.0
    ensures !Touching(ExampleBodies()[i], ExampleBodies()[j])
  {
    assert j == 2;
    if i == 0 {
      ExampleAC();
    } else {
      ExampleBC();
    }
  }

  lemma ExampleLinkAB()
    ensures Linked(ExampleBodies(), 1.0, 2.0)
  {
    var s := ExampleBodies();
    ExampleAB();
    assert s[0] == BodyA && s[1] == BodyB;
  }

  lemma ExampleIsolatedC()
    ensures forall x :: !Linked(ExampleBodies(), x, 3.0)
  {
    var s := ExampleBodies();
    forall i, j | 0 <= i < |s| && 0 <= j < |s| && i != j && s[j].id == 3.0
      ensures !Touching(s[i], s[j])
    {
      ExampleApart(i, j);
    }
  }
}
