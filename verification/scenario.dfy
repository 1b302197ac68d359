/** A dash in a world with no obstacle, for any order and any constant
    frame length: every frame makes the full move, and the dash ends on the
    frame after the total first reaches the requested distance. */
module DashScenario {
  import opened Search
  import opened Vectors
  import opened Physics
  import opened Movement
  import opened Rush

  /** No circle cast ever hits anything. */
  ghost predicate NoObstacle(e: Engine) {
    forall o, r, d, dist, l :: e.circleCastAll(o, r, d, dist, l) == []
  }

  /** `n` frames, each of length `dt`. */
  function Frames(n: nat, dt: real): (r: seq<real>)
    ensures |r| == n
  {
    if n == 0 then [] else [dt] + Frames(n - 1, dt)
  }

  /** `x` added to itself `n` times, one addition per frame as the dash
      sums its moves. */
  function Times(n: nat, x: real): real {
    if n == 0 then 0.0 else x + Times(n - 1, x)
  }

  /** The vector `d` added to itself `n` times. */
  function Repeated(n: nat, d: Vec3): Vec3 {
    if n == 0 then Zero else Add(d, Repeated(n - 1, d))
  }

  lemma {:induction false} TimesMonotone(n: nat, x: real)
    requires x >= 0.0
    ensures Times(n, x) >= 0.0
    ensures n > 0 ==> Times(n - 1, x) <= Times(n, x)
  {
    if n > 0 {
      TimesMonotone(n - 1, x);
    }
  }

  /** One step followed by `n - 1` more is `n` steps, for the total and
      for the position alike. */
  lemma OneMoreStep(total: real, step: real, p: Vec3, d: Vec3, n: nat)
    requires n > 0
    ensures (total + step) + Times(n - 1, step) == total + Times(n, step)
    ensures Add(Add(p, d), Repeated(n - 1, d)) == Add(p, Repeated(n, d))
  {
  }

  lemma OpenFieldNeverBlocked(e: Engine, checkRadius: real, layer: int, s: Sweep)
    requires NoObstacle(e)
    ensures !Blocked(e, checkRadius, layer, s)
  {
    assert CastHits(e, s.origin, checkRadius, s.dir, s.dist, layer) == [];
  }

  /** With nothing in the way, one frame of a dash that is still going
      makes the full move and adds its length to the total. */
  lemma OpenFieldResume(e: Engine, b: Body, t: RushTask, dt: real)
    requires NoObstacle(e)
    requires Continues(t) && t.id !in b.stopped
    ensures
      var d := Displacement(t.order.dir, t.order.speed, dt);
      Resume(e, b, t, dt)
        == Resumed(b.(pos := Add(b.pos, d)), Some(t.(rushAdd := t.rushAdd + e.magnitude(d))), false)
  {
    var o := t.order;
    OpenFieldNeverBlocked(e, o.checkRadius, o.obstacleLayer, SweepFor(e, b.pos, o.dir, o.speed, dt));
  }

  /** With nothing in the way, RushTo makes the full first move. */
  lemma OpenFieldRushTo(e: Engine, b: Body, order: RushOrder, dt: real)
    requires NoObstacle(e)
    ensures
      var d := Displacement(order.dir, order.speed, dt);
      var s := RushTo(e, b, order, dt);
      && s.body.pos == Add(b.pos, d)
      && s.task.rushAdd == e.magnitude(d)
      && s.task.result
  {
    OpenFieldNeverBlocked(e, order.checkRadius, order.obstacleLayer, SweepFor(e, b.pos, order.dir, order.speed, dt));
  }

  /** With nothing in the way, `n` frames of length `dt`, each starting
      short of the requested distance, move the character `n` full steps
      and add `n` step lengths to the total; the callback does not fire. */
  lemma {:induction false} OpenFieldDashFrames(e: Engine, b: Body, t: RushTask, dt: real, n: nat)
    requires NoObstacle(e)
    requires t.result && t.id !in b.stopped
    requires n > 0 ==> t.rushAdd + Times(n - 1, e.magnitude(Displacement(t.order.dir, t.order.speed, dt))) < t.order.distance
    ensures
      var d := Displacement(t.order.dir, t.order.speed, dt);
      var r := RunFrames(e, b, Some(t), Frames(n, dt));
      && r.task == Some(t.(rushAdd := t.rushAdd + Times(n, e.magnitude(d))))
      && r.callbacks == 0
      && r.body == b.(pos := Add(b.pos, Repeated(n, d)))
    decreases n
  {
    var d := Displacement(t.order.dir, t.order.speed, dt);
    var step := e.magnitude(d);
    if n > 0 {
      TimesMonotone(n - 1, step);
      OpenFieldResume(e, b, t, dt);
      var b1 := b.(pos := Add(b.pos, d));
      var t1 := t.(rushAdd := t.rushAdd + step);
      assert t1.order == t.order && t1.result && t1.id !in b1.stopped;
      assert n - 1 > 0 ==> t1.rushAdd + Times(n - 2, step) < t1.order.distance;
      OpenFieldDashFrames(e, b1, t1, dt, n - 1);
      var rest := RunFrames(e, b1, Some(t1), Frames(n - 1, dt));
      RunFramesCons(e, b, t, dt, Frames(n - 1, dt));
      assert Frames(n, dt) == [dt] + Frames(n - 1, dt);
      assert RunFrames(e, b, Some(t), Frames(n, dt)) == rest;
      OneMoreStep(t.rushAdd, step, b.pos, d, n);
    } else {
      assert Frames(n, dt) == [];
      assert RunFrames(e, b, Some(t), []) == Run(b, Some(t), 0);
      assert t.(rushAdd := t.rushAdd + Times(n, step)) == t;
      assert b.(pos := Add(b.pos, Repeated(n, d))) == b;
    }
  }

  /** With nothing in the way, a dash whose total is still short after
      `n - 1` further frames but reaches the requested distance after `n`
      moves for those `n` frames and ends on the next one: the coroutine
      finishes, the callback fires once if there is one, IsRush is
      cleared, and the character stands `n` steps further on. */
  lemma OpenFieldDashEnds(e: Engine, b: Body, t: RushTask, dt: real, n: nat)
    requires NoObstacle(e)
    requires t.result && t.id !in b.stopped
    requires n > 0 ==> t.rushAdd + Times(n - 1, e.magnitude(Displacement(t.order.dir, t.order.speed, dt))) < t.order.distance
    requires t.rushAdd + Times(n, e.magnitude(Displacement(t.order.dir, t.order.speed, dt))) >= t.order.distance
    ensures
      var r := RunFrames(e, b, Some(t), Frames(n + 1, dt));
      && r.task.None?
      && r.callbacks == (if t.order.hasCallback then 1 else 0)
      && !IsRush(r.body)
      && r.body.pos == Add(b.pos, Repeated(n, Displacement(t.order.dir, t.order.speed, dt)))
  {
    OpenFieldDashFrames(e, b, t, dt, n);
    var mid := RunFrames(e, b, Some(t), Frames(n, dt));
    var last := Resume(e, mid.body, mid.task.value, dt);
    assert !Continues(mid.task.value);
    assert last == Resumed(StopRush(mid.body), None, t.order.hasCallback);
    RunFramesCons(e, mid.body, mid.task.value, dt, []);
    assert [dt] + [] == Frames(1, dt);
    FramesSnoc(n, dt);
    RunFramesSplit(e, b, Some(t), Frames(n, dt), Frames(1, dt));
  }

  lemma {:induction false} FramesSnoc(n: nat, dt: real)
    ensures Frames(n + 1, dt) == Frames(n, dt) + Frames(1, dt)
  {
    if n > 0 {
      FramesSnoc(n - 1, dt);
    }
  }
}
