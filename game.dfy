/** The game loop's state and its bookkeeping around the analyzer: spawning
    the next body, the clearing pass with its scoring, and the end-of-frame
    rule that decides when to analyse and when to spawn. Bodies are held as
    the summaries the analyzer reads; how each body moves and settles is
    modelled separately. */
module Game {
  import opened Vectors
  import opened Connectivity

  datatype Option<T> = None | Some(value: T)

  const BoxWidth: real := 400.0
  const BoxHeight: real := 600.0

  /** The play area set up at start: walls at 0 and 400, floor at 600. */
  const GameBox: Box := Box(0.0, BoxWidth, 0.0, BoxHeight)

  /** Points scored per cleared body. */
  const PointsPerBody: int := 10

  /** The bodies whose id is not in `cleared`, in their original order. */
  function Without(bodies: seq<Body>, cleared: set<Id>): (r: seq<Body>)
    ensures |r| <= |bodies|
  {
    if bodies == [] then []
    else (if bodies[0].id in cleared then [] else [bodies[0]]) + Without(bodies[1..], cleared)
  }

  /** The bodies kept are exactly the bodies whose id is not cleared. */
  lemma {:induction false} WithoutMembers(bodies: seq<Body>, cleared: set<Id>)
    ensures forall b :: b in Without(bodies, cleared) <==> b in bodies && b.id !in cleared
  {
    if bodies != [] {
      WithoutMembers(bodies[1..], cleared);
      assert bodies == [bodies[0]] + bodies[1..];
    }
  }

  /** The first body with id `id`, if any. */
  function Find(bodies: seq<Body>, id: Id): (r: Option<Body>)
    ensures r.Some? ==> r.value in bodies && r.value.id == id
    ensures r.None? <==> id !in Ids(bodies)
  {
    if bodies == [] then None
    else if bodies[0].id == id then Some(bodies[0])
    else
      assert Ids(bodies) == {bodies[0].id} + Ids(bodies[1..]);
      Find(bodies[1..], id)
  }

  predicate AllSettled(bodies: seq<Body>)
  {
    forall b :: b in bodies ==> b.settled
  }

  /** No two bodies share an id. */
  ghost predicate UniqueIds(bodies: seq<Body>)
  {
    forall i, j :: 0 <= i < |bodies| && 0 <= j < |bodies| && i != j ==> bodies[i].id != bodies[j].id
  }

  /** The body list after one clearing pass. */
  ghost function AfterClear(bodies: seq<Body>, box: Box): seq<Body>
  {
    Without(bodies, ClearedIds(Settled(bodies), box))
  }

  // ---------------------------------------------------------------------------
  // Facts about filtering

  /** Filtering keeps the relative order: it distributes over concatenation. */
  lemma {:induction false} WithoutAppend(a: seq<Body>, b: seq<Body>, cleared: set<Id>)
    ensures Without(a + b, cleared) == Without(a, cleared) + Without(b, cleared)
  {
    if a == [] {
      assert a + b == b;
    } else {
      var c := a + b;
      assert c[0] == a[0] && c[1..] == a[1..] + b;
      WithoutAppend(a[1..], b, cleared);
      var x, y := Without(a[1..], cleared), Without(b, cleared);
      if a[0].id !in cleared {
        assert [a[0]] + (x + y) == ([a[0]] + x) + y;
      }
    }
  }

  /** Filtering never adds a body, nor repeats one more often. */
  lemma {:induction false} WithoutShrinks(bodies: seq<Body>, cleared: set<Id>)
    ensures multiset(Without(bodies, cleared)) <= multiset(bodies)
  {
    if bodies != [] {
      WithoutShrinks(bodies[1..], cleared);
      assert bodies == [bodies[0]] + bodies[1..];
    }
  }

  /** Filtering by an empty set changes nothing. */
  lemma {:induction false} WithoutNothing(bodies: seq<Body>)
    ensures Without(bodies, {}) == bodies
  {
    if bodies != [] {
      WithoutNothing(bodies[1..]);
    }
  }

  /** The ids left are exactly the ids that were not cleared. */
  lemma IdsWithout(bodies: seq<Body>, cleared: set<Id>)
    ensures Ids(Without(bodies, cleared)) == Ids(bodies) - cleared
  {
    WithoutMembers(bodies, cleared);
    forall x | x in Ids(bodies) - cleared
      ensures x in Ids(Without(bodies, cleared))
    {
      var b :| b in bodies && b.id == x;
      assert b in Without(bodies, cleared);
    }
  }

  lemma {:induction false} SettledAppend(a: seq<Body>, b: seq<Body>)
    ensures Settled(a + b) == Settled(a) + Settled(b)
  {
    if a == [] {
      assert a + b == b;
    } else {
      var c := a + b;
      assert c[0] == a[0] && c[1..] == a[1..] + b;
      SettledAppend(a[1..], b);
      var x, y := Settled(a[1..]), Settled(b);
      if a[0].settled {
        assert [a[0]] + (x + y) == ([a[0]] + x) + y;
      }
    }
  }

  /** Taking the settled bodies and filtering commute. */
  lemma {:induction false} SettledWithout(bodies: seq<Body>, cleared: set<Id>)
    ensures Settled(Without(bodies, cleared)) == Without(Settled(bodies), cleared)
  {
    if bodies != [] {
      var h := bodies[0];
      var rest := bodies[1..];
      SettledWithout(rest, cleared);
      var kept := if h.id in cleared then [] else [h];
      SettledAppend(kept, Without(rest, cleared));
      var first := if h.settled then [h] else [];
      WithoutAppend(first, Settled(rest), cleared);
    }
  }

  /** All bodies are settled exactly when taking the settled ones changes nothing. */
  lemma {:induction false} AllSettledIsIdentity(bodies: seq<Body>)
    ensures AllSettled(bodies) <==> Settled(bodies) == bodies
  {
    if bodies != [] {
      AllSettledIsIdentity(bodies[1..]);
      if Settled(bodies) == bodies {
        assert |Settled(bodies[1..])| <= |bodies[1..]|;
      }
    }
  }

  // ---------------------------------------------------------------------------
  // Facts about a clearing pass

  /** A body that has not settled survives a pass, provided ids are unique. */
  lemma UnsettledSurvives(bodies: seq<Body>, box: Box, b: Body)
    requires UniqueIds(bodies) && b in bodies && !b.settled
    ensures b in AfterClear(bodies, box)
  {
    SettledMembers(bodies);
    WithoutMembers(bodies, ClearedIds(Settled(bodies), box));
  }

  /** A clearing pass is complete: a second pass straight after it clears
      nothing, because no spanning group survives the first. */
  lemma ClearIsComplete(bodies: seq<Body>, box: Box)
    ensures ClearedIds(Settled(AfterClear(bodies, box)), box) == {}
  {
    var full := Settled(bodies);
    var cleared := ClearedIds(full, box);
    var sub := Settled(Without(bodies, cleared));
    SettledWithout(bodies, cleared);
    WithoutShrinks(full, cleared);
    IdsWithout(full, cleared);
    if ClearedIds(sub, box) != {} {
      var x :| x in ClearedIds(sub, box);
      var l := BridgedInSublist(sub, full, box, x);
      assert false;
    }
  }

  // ---------------------------------------------------------------------------
  // The game

  class Game {
    var allBodies: seq<Body>
    /** The id of the body the player is steering, if any. */
    var currentBody: Option<Id>
    var score: int
    var spawnNextFrame: bool

    /** The steered body is one of the bodies in play. */
    ghost predicate Valid()
      reads this
    {
      currentBody.Some? ==> currentBody.value in Ids(allBodies)
    }

    /** The state at start: no bodies, nothing steered, score 0, a spawn due. */
    constructor()
      ensures Valid()
      ensures allBodies == [] && currentBody == None && score == 0 && spawnNextFrame
    {
      allBodies := [];
      currentBody := None;
      score := 0;
      spawnNextFrame := true;
    }

    /** The steered body has come to rest. */
    predicate CurrentSettled()
      reads this
      ensures CurrentSettled() ==> currentBody.Some? && exists b :: b in allBodies && b.id == currentBody.value && b.settled
    {
      match currentBody
      case None => false
      case Some(id) => var b := Find(allBodies, id); b.Some? && b.value.settled
    }

    /** Drops a new body of the given radius and colour (the game draws them
        at random) above the middle of the box, and lets the player steer it. */
    method SpawnNewBody(id: Id, radius: real, color: string)
      modifies this
      ensures allBodies == old(allBodies) + [Body(id, Vec(GameBox.right / 2.0, GameBox.top - radius), radius, color, false)]
      ensures currentBody == Some(id) && !spawnNextFrame && score == old(score)
      ensures Valid()
    {
      var body := Body(id, Vec(GameBox.right / 2.0, GameBox.top - radius), radius, color, false);
      allBodies := allBodies + [body];
      assert body in allBodies;
      currentBody := Some(id);
      spawnNextFrame := false;
    }

    /** One analysis pass: every group of settled same-colour bodies spanning
        the box is removed, 10 points are scored per removed body, and the
        steered body is released if it was removed. */
    method CheckAndClearConnections()
      modifies this
      ensures allBodies == AfterClear(old(allBodies), GameBox)
      ensures score == old(score) + |ClearedIds(Settled(old(allBodies)), GameBox)| * PointsPerBody
      ensures currentBody == if old(currentBody).Some? && old(currentBody).value in ClearedIds(Settled(old(allBodies)), GameBox)
                             then None else old(currentBody)
      ensures spawnNextFrame == old(spawnNextFrame)
      ensures old(Valid()) ==> Valid()
    {
      var settled := Settled(allBodies);
      var toClear := FindSpanningGroups(settled, GameBox);
      ClearMarked(toClear);
    }

    /** Step 4 of a pass: when anything is marked, the marked bodies are
        removed, 10 points are scored per marked id, and the steered body is
        released if it was marked. */
    method ClearMarked(toClear: set<Id>)
      modifies this
      ensures allBodies == Without(old(allBodies), toClear)
      ensures score == old(score) + |toClear| * PointsPerBody
      ensures currentBody == if old(currentBody).Some? && old(currentBody).value in toClear then None else old(currentBody)
      ensures spawnNextFrame == old(spawnNextFrame)
      ensures old(Valid()) ==> Valid()
    {
      if |toClear| > 0 {
        IdsWithout(allBodies, toClear);
        score := score + |toClear| * PointsPerBody;
        allBodies := Without(allBodies, toClear);
        if currentBody.Some? && currentBody.value in toClear {
          currentBody := None;
        }
      } else {
        WithoutNothing(allBodies);
      }
    }

    /** The end of a frame, after every body has moved: once the steered body
        lands, the board is analysed and a spawn is scheduled; with no body
        steered and no spawn due, the board is analysed and a spawn
        scheduled as soon as every body has come to rest. */
    method EndFrame()
      requires Valid()
      modifies this
      ensures Valid()
      ensures old(CurrentSettled()) ==>
        currentBody == None && spawnNextFrame &&
        allBodies == AfterClear(old(allBodies), GameBox) &&
        score == old(score) + PointsPerBody * |ClearedIds(Settled(old(allBodies)), GameBox)|
      ensures !old(CurrentSettled()) && old(currentBody) == None && !old(spawnNextFrame) ==>
        currentBody == None && (spawnNextFrame <==> AllSettled(old(allBodies))) &&
        allBodies == (if spawnNextFrame then AfterClear(old(allBodies), GameBox) else old(allBodies)) &&
        score == old(score) + (if spawnNextFrame then PointsPerBody * |ClearedIds(Settled(old(allBodies)), GameBox)| else 0)
      ensures !old(CurrentSettled()) && (old(currentBody) != None || old(spawnNextFrame)) ==>
        allBodies == old(allBodies) && currentBody == old(currentBody) &&
        score == old(score) && spawnNextFrame == old(spawnNextFrame)
    {
      if CurrentSettled() {
        currentBody := None;
        CheckAndClearConnections();
        spawnNextFrame := true;
      } else if currentBody == None && !spawnNextFrame {
        spawnNextFrame := AllSettled(allBodies);
        if spawnNextFrame {
          CheckAndClearConnections();
        }
      }
    }
  }
}
