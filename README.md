# jelly-edge-connect, modelled in Dafny

jelly-edge-connect is a falling-blocks game built on a soft-body engine. Each
body is a ring of 40 mass nodes joined by damped springs. It falls into a
400 × 600 box, the player steers it, and it comes to rest. When a body lands,
the game looks at the settled bodies and links those of one colour that touch.
Every group of linked bodies that reaches from the left wall to the right wall
is removed, and the player scores 10 points per removed body.

The model has five modules:

- `Vectors` (vectors.dfy): the engine's 2-D vectors as values over the reals,
  plus the box.
- `Polygon` (polygon.dfy): the shoelace area of a node ring. The area is never
  negative. It does not depend on the starting vertex or on where the ring
  sits, and it grows with the square of a uniform scaling.
- `Physics` (physics.dfy): the mass-spring engine.
  - `Node` and `Edge` are classes whose update methods change their fields.
  - A `SoftBody` is built as a ring of fresh nodes and edges.
  - The wall clamp runs node by node over the ring.
  - The centre is recomputed as the mean of the nodes.
  - Each method is proved against a pure function (`Step`, `EdgeForces`,
    `ClampToWalls`, `Mean`), and the properties are lemmas about those
    functions.
- `Connectivity` (connectivity.dfy): the analysis pass, written as the game
  writes it.
  - An adjacency map is built pair by pair.
  - The left-wall and right-wall id sets are computed.
  - A breadth-first search with a queue and a head index runs from each
    left-wall id, sharing one visited set.
  - It is proved against a path-based rule: a body is cleared exactly when
    some left-wall body reaches it and also reaches a right-wall body.
- `Game` (game.dfy): the game state.
  - It covers spawning, the clearing pass with its scoring, filtering and the
    release of the steered body, and the end-of-frame rule that decides when
    to analyse and when to spawn.
  - A completeness lemma shows that a second pass right after a clear removes
    nothing.

## Model

| member | source | states |
|---|---|---|
| Polygon.PolygonArea | src/main.js:71-81 | the area is never negative and equals the shoelace sum (over sides i → i+1, the last side closing the ring) or its negation |
| Polygon.Next | src/main.js:74-76 | the vertex following vertex i is (i + 1) mod n: the last wraps round to the first, the same successor the edge loop uses at line 115 |
| Polygon.SignedAreaRotation | src/main.js:71-81 | starting the ring at any vertex k leaves the signed area unchanged |
| Polygon.PolygonAreaRotation | src/main.js:71-81 | the area is invariant under rotating the vertex list |
| Polygon.PolygonAreaTranslation | src/main.js:71-81 | moving every vertex by the same offset leaves the area unchanged |
| Polygon.PolygonAreaScaling | src/main.js:71-81 | scaling every vertex by k multiplies the area by k² |
| Physics.SpringForce | src/main.js:41-43 | the force is zero at rest length, never positive when the edge is compressed (rmul ≥ 0) and never negative when stretched (amul ≥ 0) |
| Physics.SpringForceHooke | src/main.js:41-43 | when the rest length is at least 6 and the multipliers are equal, the force is (dist − len) · k |
| Physics.ShortEdgeRepulsion | src/main.js:42 | a compressed edge shorter than 6 is pushed apart as if its rest length were max(6, len), by at least (6 − len) · rmul, while at rest length the force is 0 |
| Physics.Direction | src/main.js:45 | a zero separation is left unnormalised (zero) |
| Physics.SpringPair | src/main.js:44-50 | the two spring terms are equal and opposite, and both are zero for a zero separation |
| Physics.SpringAlongSeparation | src/main.js:44-50 | the term on n1 has component force · dist along n1 → n2: a stretched edge pulls n1 towards n2, a compressed one pushes it away |
| Physics.VelocityPairAsWritten | src/main.js:52-56 | as the engine computes it, n1 receives 0.4 · (v2 − v1) and n2 receives −0.16 · (v2 − v1), because the second scaling acts on the already-scaled difference |
| Physics.VelocityPairAsWrittenUnbalanced | src/main.js:52-56 | as written, the two averaging terms add up to 0.24 · (v2 − v1), which is zero only when the velocities are equal |
| Physics.VelocityPairAsWrittenExample | src/main.js:54-55 | a node at rest beside a node at speed (1, 0) gives the pair a net (0.24, 0) |
| Physics.VelocityPair | src/main.js:52-56 | the intended averaging terms are equal and opposite, and both vanish for equal velocities |
| Physics.VelocityPairTowardsOther | src/main.js:54 | the term on n1 never points away from n2.vel − n1.vel |
| Physics.Combine | src/main.js:44-56 | adding two equal-and-opposite pairs gives an equal-and-opposite pair |
| Physics.EdgeForces | src/main.js:37-57 | the corrected edge update: it adds equal and opposite accelerations to the two ends, and nothing when the ends coincide with equal velocities |
| Physics.EdgeForcesAsWritten | src/main.js:37-57 | the edge update as the engine runs it: without averaging the two terms cancel; with averaging (every edge the engine builds) they add up to 0.24 · (v2 − v1) |
| Physics.Step | src/main.js:18-23 | a fixed node is unchanged; for a free node the velocity becomes the old velocity times the damping factor, the position advances by that new velocity / substeps, and the acceleration becomes zero |
| Physics.StepNeverSpeedsUp | src/main.js:20 | a damping factor in [0, 1] never increases a node's speed |
| Physics.Node.constructor | src/main.js:11-16 | a node starts at its position with zero velocity and zero acceleration |
| Physics.Node.Update | src/main.js:18-23 | the node's new state is `Step` of its old state |
| Physics.Node.HitWalls | src/main.js:208-210 | the node's new state is the floor, left and right tests applied in that order to its old state |
| Physics.Edge.constructor | src/main.js:28-35 | the edge keeps its two ends, its rest length, its multipliers and its averaging flag |
| Physics.Edge.Update | src/main.js:37-57 | positions and velocities are unchanged, and each end's acceleration grows by its half of `EdgeForces` |
| Physics.ClampToWalls | src/main.js:208-210 | for any box, the three wall tests in order leave the acceleration unchanged, and the node ends at or above bottom − 4 and at or left of right − 4 |
| Physics.ClampToWallsBounds | src/main.js:207-211 | in a box at least 8 wide, the node ends within [left + 4, right − 4] × (−∞, bottom − 4]; a coordinate moves iff it was out of bounds, and the velocity across that wall is multiplied by −0.3 exactly then |
| Physics.ClampToWallsIdempotent | src/main.js:207-211 | in a box at least 8 wide, clamping twice is clamping once |
| Physics.ClampToWallsNarrowBox | src/main.js:209-210 | in a box narrower than 8, a node left of the left margin is moved to right − 4, which is still left of the left margin, and its x velocity is scaled by −0.3 twice |
| Physics.RingPositions | src/main.js:106-111 | the ring has one position per unit offset |
| Physics.RingArea | src/main.js:118 | the target area of a ring of radius r is r² times the area of the unit ring, wherever the body spawns |
| Physics.Mean | src/main.js:161-165 | the centre of nodes that all sit at one point is that point |
| Physics.MeanTranslate | src/main.js:161-165 | moving every node by t moves the recomputed centre by t |
| Physics.SoftBody.constructor | src/main.js:93-119 | the new body is a ring of 40 distinct nodes and 40 edges, with edge i running from node i to node (i + 1) mod 40; all nodes and edges are freshly allocated, so no other body shares them; the nodes are free and at rest on the ring positions; the edges have rest length edgeLen, multipliers 0.6 and averaging on; the body is unsettled; the target area is radius² times the unit ring's area |
| Physics.SoftBody.NewNodes | src/main.js:106-111 | one freshly allocated free node at rest on each ring position, all distinct |
| Physics.SoftBody.NewEdges | src/main.js:113-116 | edge i is freshly allocated and joins node i to node (i + 1) mod 40, with the given rest length, the multipliers 0.6 and averaging on |
| Physics.SoftBody.HandleWalls | src/main.js:207-211 | every node's new state is `ClampToWalls` of its old state |
| Physics.SoftBody.RecomputeCenter | src/main.js:161-165 | the centre becomes the mean of the node positions, and the settled flag is kept |
| Connectivity.Settled | src/main.js:261 | the settled list is no longer than the body list |
| Connectivity.SettledMembers | src/main.js:261 | a body is in the settled list iff it is in the body list and has settled |
| Connectivity.Touching | src/main.js:269-271 | the touch test (same colour, centres closer than r1 + r2 + 10) gives the same answer with the two bodies swapped |
| Connectivity.ClearedIds | src/main.js:260-323 | the clearing rule only clears ids of settled bodies, and clears nothing unless both walls have a settled body |
| Connectivity.LeftIds | src/main.js:279 | the left-wall ids are ids of settled bodies |
| Connectivity.RightIds | src/main.js:280 | the right-wall ids are ids of settled bodies |
| Connectivity.LinkedSymmetric | src/main.js:264-276 | the link relation is symmetric |
| Connectivity.LinkedOnlySettledSameColour | src/main.js:264-276 | only settled bodies of the same colour whose centres are closer than r1 + r2 + 10 are linked |
| Connectivity.ReachableSymmetric | src/main.js:285-313 | if a reaches b, then b reaches a |
| Connectivity.AdjacencyRow | src/main.js:266-275 | after the inner loop for row i, the map lists exactly the links among the pairs visited so far |
| Connectivity.BuildAdjacency | src/main.js:264-276 | the map has one entry per settled id, and it lists b under a iff a and b are linked (so adjacency is symmetric) |
| Connectivity.NeighboursLinked | src/main.js:301 | the ids looked up for a (or none) are exactly the ids linked to a |
| Connectivity.VisitNeighbours | src/main.js:301-307 | every neighbour of the current id ends up visited; each id is queued at most once; the queue only grows, and the visited set grows iff the queue grows |
| Connectivity.SearchStep | src/main.js:297-307 | one loop turn keeps the search state, expands one more queued id, and tracks whether a right-wall id has been dequeued |
| Connectivity.ExploreComponent | src/main.js:288-312 | the search terminates; its component is exactly the ids reachable from the seed; the queue holds each of them exactly once; reachesRight holds iff some right-wall id is reachable |
| Connectivity.QueueExhausted | src/main.js:297-307 | once the queue is exhausted, the component is closed, so it holds everything the seed reaches |
| Connectivity.MarkBridgingComponents | src/main.js:285-313 | x is marked iff some left-wall id reaches x and also reaches a right-wall id |
| Connectivity.FindSpanningGroups | src/main.js:261-313 | the marked set is exactly the set the clearing rule defines, including the two early returns |
| Connectivity.NoWallNoClear | src/main.js:282 | with no settled body at the left wall, or none at the right, nothing is cleared |
| Connectivity.ClearedClosed | src/main.js:285-313 | groups are cleared whole: a body linked to a cleared body is cleared |
| Connectivity.ClearedSpansBothWalls | src/main.js:285-313 | every cleared body reaches a left-wall body and a right-wall body |
| Connectivity.BridgingGroupCleared | src/main.js:285-313 | every body in the group of a left-wall body that reaches a right-wall body is cleared |
| Connectivity.LinkedInSublist | src/main.js:261-313 | links among a sub-list of bodies are links of the full list |
| Connectivity.BridgedInSublist | src/main.js:261-313 | a body cleared from a sub-list belongs to a group whose left-wall id is cleared from the full list |
| Connectivity.ThreeBodyExample | src/main.js:260-313 | in a 150-wide box, two touching red bodies spanning the walls are cleared and a third red body touching neither is not |
| Game.Without | src/main.js:318 | filtering never lengthens the list |
| Game.WithoutMembers | src/main.js:318 | a body is kept iff it was in the list and its id was not cleared |
| Game.WithoutAppend | src/main.js:318 | filtering preserves order: it distributes over concatenation |
| Game.WithoutShrinks | src/main.js:318 | filtering never adds a body or repeats one |
| Game.WithoutNothing | src/main.js:315-318 | filtering by the empty set changes nothing |
| Game.IdsWithout | src/main.js:318 | the remaining ids are exactly the old ids minus the cleared ones |
| Game.Find | src/main.js:355 | the lookup finds a body with the id iff the id is present |
| Game.SettledWithout | src/main.js:261 | taking the settled bodies commutes with filtering |
| Game.AllSettledIsIdentity | src/main.js:360 | every body is settled iff taking the settled bodies changes nothing |
| Game.UnsettledSurvives | src/main.js:261 | when ids are unique, a pass never removes a body that has not settled |
| Game.ClearIsComplete | src/main.js:260-323 | a second pass right after a clear removes nothing |
| Game.Game.constructor | src/main.js:238-242 | the game starts with no bodies, no steered body, score 0 and a spawn due |
| Game.Game.CurrentSettled | src/main.js:355 | the steered body has landed only if there is one and a settled body with its id is in play |
| Game.Game.SpawnNewBody | src/main.js:250-258 | appends a new unsettled body at (right / 2, top − radius), which becomes the steered body; the spawn flag is cleared and the score kept |
| Game.Game.CheckAndClearConnections | src/main.js:260-323 | the bodies become the list filtered by the cleared ids, and the score grows by 10 per cleared id; the steered body is released iff its id was cleared; the steered body stays one of the bodies |
| Game.Game.ClearMarked | src/main.js:315-322 | with nothing marked nothing changes; otherwise the score grows by 10 · |marked|, the marked bodies are filtered out, and the steered body is dropped iff it was marked |
| Game.Game.EndFrame | src/main.js:355-363 | once the steered body lands: it is released, one pass runs and a spawn is due. With no steered body and no spawn due: a spawn is due iff every body has settled, and only then does a pass run. Otherwise nothing changes |

## Left out

- Rendering, the score display, the smoothing of the drawn hull and player
  input (arrow keys adding to node accelerations) are left out. They change
  no state the model tracks, except the input, which only adds to
  accelerations.
- Randomness is taken as parameters: a body's id, radius and colour in
  `SoftBody.constructor` and `Game.SpawnNewBody`.
- Square roots, cos/sin and `Math.pow` are supplied as parameters:
  - an edge's current length in `Edge.Update`;
  - the rest length `edgeLen` and the unit ring offsets in
    `SoftBody.constructor`;
  - the damping factor in `Node.Update`.
  Touch tests compare squared distances, which is equivalent for
  non-negative bounds.
- The per-frame loop `updatePhysics` (src/main.js:122-166) is not modelled
  as one operation; the model covers its pieces instead: one edge update,
  one node substep and the centre recompute. Left out of it:
  - the random shuffle of the edges and the pass applying every edge's
    update in that order (lines 123-126); each update reads positions and
    velocities and only adds to accelerations, so in exact arithmetic the
    order does not matter;
  - the pressure force along the angle bisectors (lines 128-139), which
    needs square roots and rotations by a quarter turn;
  - adding gravity to each node's acceleration and the acceleration to its
    velocity (lines 143-145);
  - the settle test, average speed below 0.1 (lines 146-151), which needs
    vector lengths;
  - the ten-substep loop over all nodes (lines 154-158).
- Body-to-body collisions in `handleCollisions` are left out, for the same
  reason (normalisation and a random direction).
- The game holds each body as the summary the analysis reads (id, centre,
  radius, colour, settled flag) rather than the live `SoftBody`. How physics
  moves a body and sets its settled flag between frames is not connected to
  the game state. For the same reason `draw`'s spawn-then-update order is
  not modelled as one step: `SpawnNewBody` and `EndFrame` are separate
  operations.
- The order in which a JavaScript `Set` yields the left-wall ids is left
  abstract: the next seed is any id not yet tried. The marked set is proved
  to be the same for every order.
- Numbers are exact reals. Floating-point rounding is not modelled.
- Physics.Edge.Update: requires the edge's two ends to be different nodes,
  which every edge the engine builds satisfies. An edge from a node to
  itself is not modelled.
- Physics.EdgeForces: states the corrected edge update, whose forces are
  equal and opposite; the engine's own update nets 0.24 · (v2 − v1) on
  every averaging edge, which `EdgeForcesAsWritten` states.
- Physics.Edge.Update: applies the corrected velocity averaging
  (`VelocityPair`), not the unbalanced one the engine computes; see
  Findings. `VelocityPairAsWritten` models the engine's version.
- Physics.SoftBody.HandleWalls: requires the ring's nodes to be distinct
  objects (true of every body the constructor builds) rather than the full
  ring invariant.
- Physics.SoftBody.RecomputeCenter: requires at least one node. Every body
  has 40; the engine would divide by zero otherwise.
- Physics.ClampToWallsBounds: the bounds are claimed only for boxes at least
  8 wide. In a narrower box the right-wall test overrides the left one
  (`ClampToWallsNarrowBox`).
- Game.UnsettledSurvives: assumes unique ids. Ids are random reals below
  100000 and the game never checks them; with a duplicate id, an unsettled
  body sharing a cleared id is removed too, exactly as in the game.
- Game.Game.CheckAndClearConnections: the steered body is tracked by its id
  rather than by object identity.

## Findings

| source | as written | input that shows it | evidently intended | confidence | as-written member | corrected member |
|---|---|---|---|---|---|---|
| src/main.js:54-55 | The velocity-averaging step scales the velocity difference in place by 0.4, then scales that already-scaled vector by −0.4. n1 gains 0.4 · Δv and n2 gains −0.16 · Δv, so the pair's net acceleration is 0.24 · Δv instead of zero. | n1 at rest, n2 moving at (1, 0): the pair gains a net (0.24, 0) | equal and opposite terms ±0.4 · Δv | high (not executed) | Physics.VelocityPairAsWrittenUnbalanced | Physics.VelocityPair |
