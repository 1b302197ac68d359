/** The one-frame move resolver `MoveTo` of CharacterMove: a swept-circle
    check along the requested move and, when that is blocked and sliding is
    allowed, two axis-aligned fallbacks. The transform is taken to have no
    parent, so `localPosition` and `position` are the same value. */
module Movement {
  import opened Search
  import opened Vectors
  import opened Physics

  /** One circle cast: where it starts, the direction it is given and how
      far it sweeps. */
  datatype Sweep = Sweep(origin: Vec3, dir: Vec3, dist: real)

  /** What one call of MoveTo does: its boolean result, the `moveAdd` it
      reports, every value it assigns to the position (in order) and every
      sweep it makes (in order). */
  datatype Move = Move(ok: bool, moveAdd: real, writes: seq<Vec3>, sweeps: seq<Sweep>)
  {
    /** The position after the call, given the position before it. */
    function Final(before: Vec3): Vec3 {
      if |writes| == 0 then before else writes[|writes| - 1]
    }
  }

  /** `moveDir * moveSpeed * Time.deltaTime`; over exact reals the
      grouping of the two products does not matter. */
  function Displacement(moveDir: Vec3, moveSpeed: real, dt: real): Vec3 {
    Scale(moveDir, moveSpeed * dt)
  }

  /** The sweep MoveTo makes from `pos` for a move along `dir`: along `dir`,
      for the length of the displacement it produces this frame. */
  function SweepFor(e: Engine, pos: Vec3, dir: Vec3, moveSpeed: real, dt: real): Sweep {
    Sweep(pos, dir, e.magnitude(Displacement(dir, moveSpeed, dt)))
  }

  /** The sweep hits a collider other than the character's own, which is
      exactly when RaycastCircle returns one (BlockedIffRaycastCircleHits). */
  predicate Blocked(e: Engine, checkRadius: real, obstacleLayer: int, s: Sweep) {
    var hits := CastHits(e, s.origin, checkRadius, s.dir, s.dist, obstacleLayer);
    exists i :: 0 <= i < |hits| && hits[i].collider.gameObject != e.self
  }

  /** MoveTo's test `collider2D != null` on the result of RaycastCircle. */
  lemma BlockedIffRaycastCircleHits(e: Engine, checkRadius: real, obstacleLayer: int, s: Sweep)
    ensures Blocked(e, checkRadius, obstacleLayer, s)
      <==> RaycastCircle(e, s.origin, checkRadius, s.dir, s.dist, obstacleLayer).Some?
  {
  }

  /** Wall sliding is attempted only when it is enabled and the blocked
      move has a non-zero x and a non-zero y component. */
  predicate SlideAllowed(smoothWall: bool, vMove: Vec3) {
    smoothWall && vMove.x != 0.0 && vMove.y != 0.0
  }

  /** Move one frame along `moveDir`. */
  function MoveTo(e: Engine, pos: Vec3, moveDir: Vec3, moveSpeed: real, obstacleLayer: int,
                  checkRadius: real, dt: real, smoothWall: bool): (m: Move)
    // what is reported is what happened
    ensures m.moveAdd >= 0.0
    ensures m.moveAdd == e.magnitude(Sub(m.Final(pos), pos))
    ensures !m.ok ==> m.moveAdd == 0.0 && m.Final(pos) == pos
    // the sweeps: the direct one first, each from the pre-move position,
    // every one but the last blocked, the last one deciding the result
    ensures 1 <= |m.sweeps| <= 3
    ensures m.sweeps[0] == SweepFor(e, pos, moveDir, moveSpeed, dt)
    ensures forall i :: 0 <= i < |m.sweeps| ==> m.sweeps[i].origin == pos
    ensures forall i :: 0 <= i < |m.sweeps| - 1 ==> Blocked(e, checkRadius, obstacleLayer, m.sweeps[i])
    ensures m.ok <==> !Blocked(e, checkRadius, obstacleLayer, m.sweeps[|m.sweeps| - 1])
    ensures m.ok ==> m.Final(pos) == Add(pos, Displacement(m.sweeps[|m.sweeps| - 1].dir, moveSpeed, dt))
    ensures |m.sweeps| > 1 ==> SlideAllowed(smoothWall, Displacement(moveDir, moveSpeed, dt))
  {
    var vMove := Displacement(moveDir, moveSpeed, dt);
    var direct := SweepFor(e, pos, moveDir, moveSpeed, dt);
    if !Blocked(e, checkRadius, obstacleLayer, direct) then
      Move(true, e.magnitude(vMove), [Add(pos, vMove)], [direct])
    else if !SlideAllowed(smoothWall, vMove) then
      Move(false, 0.0, [], [direct])
    else
      // first fallback: drop the x component and keep the vertical part
      var vertical := WithX(moveDir, 0.0);
      var vMoveV := Displacement(vertical, moveSpeed, dt);
      var sweepV := SweepFor(e, pos, vertical, moveSpeed, dt);
      if !Blocked(e, checkRadius, obstacleLayer, sweepV) then
        Move(true, e.magnitude(vMoveV), [Add(pos, vMoveV), Add(pos, vMoveV)], [direct, sweepV])
      else
        // second fallback: drop the y component of the original direction
        var horizontal := WithY(moveDir, 0.0);
        var vMoveH := Displacement(horizontal, moveSpeed, dt);
        var sweepH := SweepFor(e, pos, horizontal, moveSpeed, dt);
        if !Blocked(e, checkRadius, obstacleLayer, sweepH) then
          Move(true, e.magnitude(vMoveH), [Add(pos, vMoveV), Add(pos, vMoveH), Add(pos, vMoveH)],
               [direct, sweepV, sweepH])
        else
          assert e.magnitude(Zero) == 0.0 by { assert Zero == Vec3(0.0, 0.0, 0.0); }
          Move(false, 0.0, [Add(pos, vMoveV), Add(pos, vMoveH), pos], [direct, sweepV, sweepH])
  }

  /** The public MoveFunc: MoveTo with the reported distance discarded;
      gives the new position. */
  function MoveFunc(e: Engine, pos: Vec3, moveDir: Vec3, moveSpeed: real, obstacleLayer: int,
                    checkRadius: real, dt: real, smoothWall: bool): (p: Vec3)
    ensures var vMove := Displacement(moveDir, moveSpeed, dt);
      || p == pos
      || p == Add(pos, vMove)
      || (SlideAllowed(smoothWall, vMove) && p == Add(pos, Displacement(WithX(moveDir, 0.0), moveSpeed, dt)))
      || (SlideAllowed(smoothWall, vMove) && p == Add(pos, Displacement(WithY(moveDir, 0.0), moveSpeed, dt)))
  {
    MoveTo(e, pos, moveDir, moveSpeed, obstacleLayer, checkRadius, dt, smoothWall).Final(pos)
  }

  /** The moves MoveTo tries, in order: the requested direction, then, if
      sliding is allowed, its vertical and its horizontal part. */
  function Candidates(moveDir: Vec3, slide: bool): seq<Vec3> {
    if slide then [moveDir, WithX(moveDir, 0.0), WithY(moveDir, 0.0)] else [moveDir]
  }

  /** Whether a move along a given direction has a clear sweep from `pos`:
      the sweep `SweepFor(e, pos, d, moveSpeed, dt)`, written out. */
  function ClearFrom(e: Engine, checkRadius: real, obstacleLayer: int, pos: Vec3, moveSpeed: real, dt: real): Vec3 -> bool {
    (d: Vec3) => !Blocked(e, checkRadius, obstacleLayer, Sweep(pos, d, e.magnitude(Displacement(d, moveSpeed, dt))))
  }

  /** Reference reading of MoveTo as a search: the character makes the
      first candidate move whose sweep from the pre-move position is clear,
      and stays put when there is none. */
  lemma MoveToIsFirstClearCandidate(e: Engine, pos: Vec3, moveDir: Vec3, moveSpeed: real, obstacleLayer: int,
                                    checkRadius: real, dt: real, smoothWall: bool)
    ensures
      var m := MoveTo(e, pos, moveDir, moveSpeed, obstacleLayer, checkRadius, dt, smoothWall);
      var cs := Candidates(moveDir, SlideAllowed(smoothWall, Displacement(moveDir, moveSpeed, dt)));
      var k := FirstWhere(cs, ClearFrom(e, checkRadius, obstacleLayer, pos, moveSpeed, dt));
      && (m.ok <==> k.Some?)
      && (k.Some? ==> |m.sweeps| == k.value + 1)
      && (k.None? ==> |m.sweeps| == |cs|)
      && (forall i :: 0 <= i < |m.sweeps| ==> m.sweeps[i] == SweepFor(e, pos, cs[i], moveSpeed, dt))
      && (k.Some? ==> m.Final(pos) == Add(pos, Displacement(cs[k.value], moveSpeed, dt)))
      && (k.Some? ==> m.moveAdd == e.magnitude(Displacement(cs[k.value], moveSpeed, dt)))
      && (k.None? ==> m.Final(pos) == pos && m.moveAdd == 0.0)
  {
    var m := MoveTo(e, pos, moveDir, moveSpeed, obstacleLayer, checkRadius, dt, smoothWall);
    var slide := SlideAllowed(smoothWall, Displacement(moveDir, moveSpeed, dt));
    var cs := Candidates(moveDir, slide);
    var clear := ClearFrom(e, checkRadius, obstacleLayer, pos, moveSpeed, dt);
    var k := FirstWhere(cs, clear);
    if clear(moveDir) {
      assert k == Some(0);
    } else if !slide {
      assert k.None?;
    } else if clear(WithX(moveDir, 0.0)) {
      assert !clear(cs[0]) && clear(cs[1]);
      assert k == Some(1);
    } else if clear(WithY(moveDir, 0.0)) {
      assert !clear(cs[0]) && !clear(cs[1]) && clear(cs[2]);
      assert k == Some(2);
    } else {
      assert !clear(cs[0]) && !clear(cs[1]) && !clear(cs[2]);
      assert k.None?;
    }
  }

  /** Clear path: the full move is made and reported. */
  lemma MoveToClearPath(e: Engine, pos: Vec3, moveDir: Vec3, moveSpeed: real, obstacleLayer: int,
                        checkRadius: real, dt: real, smoothWall: bool)
    requires !Blocked(e, checkRadius, obstacleLayer, SweepFor(e, pos, moveDir, moveSpeed, dt))
    ensures
      var m := MoveTo(e, pos, moveDir, moveSpeed, obstacleLayer, checkRadius, dt, smoothWall);
      var vMove := Displacement(moveDir, moveSpeed, dt);
      && m.ok
      && m.moveAdd == e.magnitude(vMove)
      && m.Final(pos) == Add(pos, vMove)
      && |m.sweeps| == 1
  {
  }

  /** Blocked with no slide to try: failure, nothing moved and the position
      is never assigned. */
  lemma MoveToBlockedWithoutSlide(e: Engine, pos: Vec3, moveDir: Vec3, moveSpeed: real, obstacleLayer: int,
                                  checkRadius: real, dt: real, smoothWall: bool)
    requires Blocked(e, checkRadius, obstacleLayer, SweepFor(e, pos, moveDir, moveSpeed, dt))
    requires var vMove := Displacement(moveDir, moveSpeed, dt);
      !smoothWall || vMove.x == 0.0 || vMove.y == 0.0
    ensures
      var m := MoveTo(e, pos, moveDir, moveSpeed, obstacleLayer, checkRadius, dt, smoothWall);
      !m.ok && m.moveAdd == 0.0 && m.writes == [] && |m.sweeps| == 1
  {
  }

  /** All three sweeps blocked: failure, nothing moved, and the position,
      though assigned on the way, ends where it started. */
  lemma MoveToAllBlocked(e: Engine, pos: Vec3, moveDir: Vec3, moveSpeed: real, obstacleLayer: int,
                         checkRadius: real, dt: real, smoothWall: bool)
    requires Blocked(e, checkRadius, obstacleLayer, SweepFor(e, pos, moveDir, moveSpeed, dt))
    requires Blocked(e, checkRadius, obstacleLayer, SweepFor(e, pos, WithX(moveDir, 0.0), moveSpeed, dt))
    requires Blocked(e, checkRadius, obstacleLayer, SweepFor(e, pos, WithY(moveDir, 0.0), moveSpeed, dt))
    ensures
      var m := MoveTo(e, pos, moveDir, moveSpeed, obstacleLayer, checkRadius, dt, smoothWall);
      !m.ok && m.moveAdd == 0.0 && m.Final(pos) == pos
  {
  }

  /** The vertical slide succeeds: x is kept, the result is true, and the
      horizontal attempt is never made. */
  lemma MoveToSlidesVertically(e: Engine, pos: Vec3, moveDir: Vec3, moveSpeed: real, obstacleLayer: int,
                               checkRadius: real, dt: real, smoothWall: bool)
    requires Blocked(e, checkRadius, obstacleLayer, SweepFor(e, pos, moveDir, moveSpeed, dt))
    requires SlideAllowed(smoothWall, Displacement(moveDir, moveSpeed, dt))
    requires !Blocked(e, checkRadius, obstacleLayer, SweepFor(e, pos, WithX(moveDir, 0.0), moveSpeed, dt))
    ensures
      var m := MoveTo(e, pos, moveDir, moveSpeed, obstacleLayer, checkRadius, dt, smoothWall);
      var vMoveV := Displacement(WithX(moveDir, 0.0), moveSpeed, dt);
      && m.ok
      && m.Final(pos).x == pos.x
      && m.Final(pos) == Add(pos, vMoveV)
      && m.moveAdd == e.magnitude(vMoveV)
      && |m.sweeps| == 2
      && forall i :: 0 <= i < |m.sweeps| ==> m.sweeps[i].dir != WithY(moveDir, 0.0)
  {
  }

  /** A successful horizontal slide: it was tried only because the
      vertical one was blocked; y is kept and the horizontal part is what
      is reported. */
  lemma MoveToSlidesHorizontally(e: Engine, pos: Vec3, moveDir: Vec3, moveSpeed: real, obstacleLayer: int,
                                 checkRadius: real, dt: real, smoothWall: bool)
    requires
      var m := MoveTo(e, pos, moveDir, moveSpeed, obstacleLayer, checkRadius, dt, smoothWall);
      m.ok && |m.sweeps| == 3
    ensures
      var m := MoveTo(e, pos, moveDir, moveSpeed, obstacleLayer, checkRadius, dt, smoothWall);
      var vMoveH := Displacement(WithY(moveDir, 0.0), moveSpeed, dt);
      && Blocked(e, checkRadius, obstacleLayer, SweepFor(e, pos, moveDir, moveSpeed, dt))
      && Blocked(e, checkRadius, obstacleLayer, SweepFor(e, pos, WithX(moveDir, 0.0), moveSpeed, dt))
      && SlideAllowed(smoothWall, Displacement(moveDir, moveSpeed, dt))
      && m.Final(pos).y == pos.y
      && m.Final(pos) == Add(pos, vMoveH)
      && m.moveAdd == e.magnitude(vMoveH)
  {
  }

  /** A frame with `moveSpeed * dt == 0` never moves the character and
      reports 0; it succeeds exactly when the zero-length sweep finds
      nothing (a zero-length cast still reports colliders already
      overlapping the circle). */
  lemma MoveToZeroStep(e: Engine, pos: Vec3, moveDir: Vec3, moveSpeed: real, obstacleLayer: int,
                       checkRadius: real, dt: real, smoothWall: bool)
    requires moveSpeed * dt == 0.0
    ensures
      var m := MoveTo(e, pos, moveDir, moveSpeed, obstacleLayer, checkRadius, dt, smoothWall);
      && m.moveAdd == 0.0
      && m.Final(pos) == pos
      && (m.ok <==> !Blocked(e, checkRadius, obstacleLayer, Sweep(pos, moveDir, 0.0)))
  {
    assert Displacement(moveDir, moveSpeed, dt) == Zero;
    assert e.magnitude(Zero) == 0.0 by { assert Zero == Vec3(0.0, 0.0, 0.0); }
  }
}
