/** The dash ("rush") of CharacterMove: RushTo starts a coroutine that
    moves the character once per frame, without wall sliding, until a move
    fails or the accumulated distance reaches the requested one; it then
    fires the callback and calls StopRush.

    The coroutine is an explicit value, `RushTask`: its locals as they
    stand at the `yield`. The host's per-frame resumption is `Resume`. The
    component's own fields are `Body`; `stopped` records the coroutines
    StopCoroutine has been called on, which the host never resumes again. */
module Rush {
  import opened Search
  import opened Vectors
  import opened Physics
  import opened Movement

  /** The arguments of one RushTo call, fixed for the whole dash. The
      callback's own effects are outside the model; only whether one was
      given matters. */
  datatype RushOrder = RushOrder(
    distance: real,
    dir: Vec3,
    speed: real,
    obstacleLayer: int,
    checkRadius: real,
    hasCallback: bool)

  /** A suspended dash coroutine: which one it is, what it was asked for,
      and its locals `rushAdd` and `result` at the `yield`. */
  datatype RushTask = RushTask(id: nat, order: RushOrder, rushAdd: real, result: bool)

  /** The fields of the component the dash reads and writes: the position,
      `m_startRush`, `m_rushCoroutine` (never reset to null by the source),
      the coroutines already stopped, and the next coroutine identity. */
  datatype Body = Body(pos: Vec3, startRush: bool, rushCoroutine: Option<nat>, stopped: set<nat>, nextId: nat)

  /** A freshly created component at `pos`. */
  function NewBody(pos: Vec3): (b: Body)
    ensures !IsRush(b) && b.rushCoroutine.None? && b.pos == pos
    ensures Valid(b) && b.stopped == {}
  {
    Body(pos, false, None, {}, 0)
  }

  /** Every coroutine identity handed out so far is below `nextId`. */
  predicate Valid(b: Body) {
    && (forall i :: i in b.stopped ==> i < b.nextId)
    && (b.rushCoroutine.Some? ==> b.rushCoroutine.value < b.nextId)
  }

  /** The IsRush property. */
  predicate IsRush(b: Body) {
    b.startRush
  }

  /** What one frame of the dash leaves behind: MoveTo's result, the
      distance it reports and the position afterwards. */
  datatype Step = Step(ok: bool, moveAdd: real, final: Vec3)

  /** One frame of the dash: MoveTo along the dash direction with wall
      sliding off, so only the direct sweep is made (DashMoveIsMoveTo). */
  function DashMove(e: Engine, pos: Vec3, order: RushOrder, dt: real): (m: Step)
    ensures m.moveAdd >= 0.0
    ensures !m.ok <==> Blocked(e, order.checkRadius, order.obstacleLayer, SweepFor(e, pos, order.dir, order.speed, dt))
    ensures !m.ok ==> m.moveAdd == 0.0 && m.final == pos
    ensures m.ok ==>
      var v := Displacement(order.dir, order.speed, dt);
      m.moveAdd == e.magnitude(v) && m.final == Add(pos, v)
  {
    var v := Displacement(order.dir, order.speed, dt);
    if Blocked(e, order.checkRadius, order.obstacleLayer, SweepFor(e, pos, order.dir, order.speed, dt)) then
      Step(false, 0.0, pos)
    else
      Step(true, e.magnitude(v), Add(pos, v))
  }

  /** DashMove is the source's call `MoveTo(dir, speed, layer, radius, out
      moveAdd)`, whose `smoothWall` defaults to false. */
  lemma DashMoveIsMoveTo(e: Engine, pos: Vec3, order: RushOrder, dt: real)
    ensures
      var m := MoveTo(e, pos, order.dir, order.speed, order.obstacleLayer, order.checkRadius, dt, false);
      DashMove(e, pos, order, dt) == Step(m.ok, m.moveAdd, m.Final(pos))
  {
  }

  /** The dash keeps going after a frame exactly when that frame's move
      succeeded and the total is still short of the requested distance. */
  predicate Continues(t: RushTask) {
    t.result && t.rushAdd < t.order.distance
  }

  /** StopRush: IsRush becomes false and the coroutine held in
      `m_rushCoroutine`, if any, is stopped (silently: no callback). */
  function StopRush(b: Body): (b': Body)
    ensures !IsRush(b')
    ensures b'.pos == b.pos && b'.rushCoroutine == b.rushCoroutine && b'.nextId == b.nextId
    ensures forall i :: i in b'.stopped <==> i in b.stopped || b.rushCoroutine == Some(i)
    ensures Valid(b) ==> Valid(b')
  {
    var stopped := match b.rushCoroutine
      case Some(c) => b.stopped + {c}
      case None => b.stopped;
    b.(startRush := false, stopped := stopped)
  }

  /** The outcome of RushTo: the component and the coroutine it started. */
  datatype Started = Started(body: Body, task: RushTask)

  /** RushTo. Unity's StartCoroutine runs the coroutine up to its first
      `yield` before returning, so the first frame's move happens inside
      this call, with the current frame's `dt`. */
  function RushTo(e: Engine, b: Body, order: RushOrder, dt: real): (s: Started)
    ensures IsRush(s.body)
    ensures s.body.rushCoroutine == Some(s.task.id) && s.task.order == order
    ensures s.body.stopped == b.stopped
    ensures Valid(b) ==> Valid(s.body) && s.task.id !in s.body.stopped && s.task.id >= b.nextId
    // the move runs at least once, from where the character stands, without sliding
    ensures var m := DashMove(e, b.pos, order, dt);
      && s.body.pos == m.final
      && s.task.rushAdd == m.moveAdd
      && s.task.result == m.ok
    ensures 0.0 <= s.task.rushAdd <= e.magnitude(Displacement(order.dir, order.speed, dt))
  {
    var m := DashMove(e, b.pos, order, dt);
    var id := b.nextId;
    Started(
      Body(m.final, true, Some(id), b.stopped, b.nextId + 1),
      RushTask(id, order, m.moveAdd, m.ok))
  }

  /** The outcome of resuming the dash coroutine for one frame: the
      component, the coroutine if it is still suspended, and whether the
      callback fired. */
  datatype Resumed = Resumed(body: Body, task: Option<RushTask>, callback: bool)

  /** The host resumes the dash coroutine `t` for one frame of length `dt`. */
  function Resume(e: Engine, b: Body, t: RushTask, dt: real): (r: Resumed)
    // a stopped coroutine is never resumed
    ensures t.id in b.stopped ==> r == Resumed(b, None, false)
    // the dash goes on exactly when the last frame succeeded and the total is short
    ensures t.id !in b.stopped ==> (r.task.Some? <==> Continues(t))
    // going on: this frame's move is made and its distance added to the
    // total, its success becomes the new `result`, and no callback fires
    ensures r.task.Some? ==>
      var m := DashMove(e, b.pos, t.order, dt);
      && r.task.value == t.(rushAdd := t.rushAdd + m.moveAdd, result := m.ok)
      && r.body == b.(pos := m.final)
      && !r.callback
    ensures r.task.Some? ==>
      && r.task.value.rushAdd >= t.rushAdd
      && r.task.value.rushAdd < t.order.distance + e.magnitude(Displacement(t.order.dir, t.order.speed, dt))
    // when it ends by itself the callback, if any, fires and StopRush runs
    ensures t.id !in b.stopped && r.task.None? ==>
      && r.callback == t.order.hasCallback
      && r.body == StopRush(b)
      && !IsRush(r.body)
      && r.body.pos == b.pos
    // the coroutine handle is never changed by the coroutine itself
    ensures r.body.rushCoroutine == b.rushCoroutine
    ensures Valid(b) ==> Valid(r.body)
  {
    if t.id in b.stopped then
      Resumed(b, None, false)
    else if Continues(t) then
      var m := DashMove(e, b.pos, t.order, dt);
      Resumed(b.(pos := m.final), Some(t.(rushAdd := t.rushAdd + m.moveAdd, result := m.ok)), false)
    else
      Resumed(StopRush(b), None, t.order.hasCallback)
  }

  /** The outcome of several frames: the component, the coroutine if it is
      still suspended, and how often the callback fired. */
  datatype Run = Run(body: Body, task: Option<RushTask>, callbacks: nat)

  /** The host resumes the dash coroutine once per frame, for frames of the
      lengths `dts`; nothing else touches the component meanwhile. */
  function RunFrames(e: Engine, b: Body, t: Option<RushTask>, dts: seq<real>): (r: Run)
    ensures t.None? ==> r == Run(b, None, 0)
    ensures r.callbacks <= 1
    ensures r.task.Some? ==>
      && t.Some? && r.task.value.id == t.value.id && r.task.value.order == t.value.order
      && r.task.value.rushAdd >= t.value.rushAdd
      && r.callbacks == 0
    ensures r.callbacks == 1 ==> t.Some? && t.value.order.hasCallback && r.task.None? && !IsRush(r.body)
    // the handle is never changed, and only the coroutine it names can be stopped
    ensures r.body.rushCoroutine == b.rushCoroutine
    ensures forall i :: i in b.stopped ==> i in r.body.stopped
    ensures forall i :: i in r.body.stopped ==> i in b.stopped || b.rushCoroutine == Some(i)
    decreases |dts|
  {
    if t.None? || |dts| == 0 then Run(b, t, 0)
    else
      var s := Resume(e, b, t.value, dts[0]);
      var rest := RunFrames(e, s.body, s.task, dts[1..]);
      Run(rest.body, rest.task, rest.callbacks + if s.callback then 1 else 0)
  }

  /** Running a first frame `dt` and then the frames `dts` is resuming
      once and running the rest from there. */
  lemma RunFramesCons(e: Engine, b: Body, t: RushTask, dt: real, dts: seq<real>)
    ensures
      var s := Resume(e, b, t, dt);
      var rest := RunFrames(e, s.body, s.task, dts);
      RunFrames(e, b, Some(t), [dt] + dts) == Run(rest.body, rest.task, rest.callbacks + if s.callback then 1 else 0)
  {
    assert ([dt] + dts)[0] == dt && ([dt] + dts)[1..] == dts;
  }

  /** Because the dash never slides, a blocked first move ends it at once:
      the character has not moved, the coroutine will not move again, and
      the next frame fires the callback. */
  lemma RushNeverSlides(e: Engine, b: Body, order: RushOrder, dt: real, dt': real)
    requires Valid(b)
    requires Blocked(e, order.checkRadius, order.obstacleLayer, SweepFor(e, b.pos, order.dir, order.speed, dt))
    ensures
      var s := RushTo(e, b, order, dt);
      var r := Resume(e, s.body, s.task, dt');
      && !s.task.result
      && s.body.pos == b.pos
      && r.task.None?
      && r.callback == order.hasCallback
      && r.body.pos == b.pos
      && !IsRush(r.body)
  {
  }

  /** Stopping a dash from outside is silent: its coroutine is not resumed
      and its callback never fires. */
  lemma StopRushIsSilent(e: Engine, b: Body, t: RushTask, dts: seq<real>)
    requires b.rushCoroutine == Some(t.id)
    ensures
      var r := RunFrames(e, StopRush(b), Some(t), dts);
      && r.callbacks == 0
      && (|dts| > 0 ==> r.task.None?)
      && r.body.pos == b.pos
  {
    if |dts| > 0 {
      assert t.id in StopRush(b).stopped;
    }
  }

  /** The accumulated distance stays within one frame's move of the
      requested distance: it can pass `distance` only on the frame that
      ends the dash, and by at most that frame's move. */
  lemma {:induction false} RushOvershootBounded(e: Engine, b: Body, t: RushTask, dts: seq<real>, bound: real)
    requires t.rushAdd < t.order.distance + bound
    requires forall k :: 0 <= k < |dts| ==> e.magnitude(Displacement(t.order.dir, t.order.speed, dts[k])) <= bound
    ensures
      var r := RunFrames(e, b, Some(t), dts);
      r.task.Some? ==> r.task.value.rushAdd < t.order.distance + bound
    decreases |dts|
  {
    if |dts| > 0 {
      var s := Resume(e, b, t, dts[0]);
      if s.task.Some? {
        RushOvershootBounded(e, s.body, s.task.value, dts[1..], bound);
      }
    }
  }

  /** A step that fails ends the dash on whichever frame it happens: the
      character stays put that frame, and the next resumption fires the
      callback, if any, and calls StopRush. */
  lemma BlockedFrameEndsDash(e: Engine, b: Body, t: RushTask, dt: real, dt': real)
    requires Continues(t) && t.id !in b.stopped
    requires Blocked(e, t.order.checkRadius, t.order.obstacleLayer, SweepFor(e, b.pos, t.order.dir, t.order.speed, dt))
    ensures
      var s := Resume(e, b, t, dt);
      && s.task.Some?
      && !s.task.value.result
      && s.task.value.rushAdd == t.rushAdd
      && s.body.pos == b.pos
      && var r := Resume(e, s.body, s.task.value, dt');
         && r.task.None?
         && r.callback == t.order.hasCallback
         && r.body == StopRush(s.body)
         && r.body.pos == b.pos
  {
  }

  /** A second RushTo while the first dash runs, as the source allows it
      (RushTo does not check IsRush): the handle now names the second
      coroutine, the first is not stopped, and any number of frames of the
      second leave both facts as they are. */
  lemma SecondRushTakesHandle(e: Engine, b: Body, first: RushOrder, second: RushOrder,
                              dt1: real, dt2: real, dts: seq<real>)
    requires Valid(b)
    ensures
      var s1 := RushTo(e, b, first, dt1);
      var s2 := RushTo(e, s1.body, second, dt2);
      var mid := RunFrames(e, s2.body, Some(s2.task), dts);
      && s1.task.id != s2.task.id
      && s2.body.rushCoroutine == Some(s2.task.id)
      && s1.task.id !in s2.body.stopped
      && mid.body.rushCoroutine == Some(s2.task.id)
      && s1.task.id !in mid.body.stopped
  {
  }

  /** Whenever a dash ends by itself while `m_rushCoroutine` names another
      coroutine (as after a second RushTo, whatever frames of either dash
      came before), its own callback fires, IsRush is cleared, and its
      StopRush stops that other coroutine, which then never moves again
      and never fires its callback. */
  lemma OverlappingRushEndsTheNewer(e: Engine, b: Body, t: RushTask, other: RushTask, dt: real, dts: seq<real>)
    requires t.id !in b.stopped && !Continues(t)
    requires b.rushCoroutine == Some(other.id)
    ensures
      var r1 := Resume(e, b, t, dt);
      var r2 := RunFrames(e, r1.body, Some(other), dts);
      && r1.callback == t.order.hasCallback
      && !IsRush(r1.body)
      && other.id in r1.body.stopped
      && r2.callbacks == 0
      && (|dts| > 0 ==> r2.task.None?)
      && r2.body.pos == b.pos
  {
    var r1 := Resume(e, b, t, dt);
    if |dts| > 0 {
      assert other.id in r1.body.stopped;
    }
  }

  /** Running frames `xs` then frames `ys` is running `xs + ys`. */
  lemma {:induction false} RunFramesSplit(e: Engine, b: Body, t: Option<RushTask>, xs: seq<real>, ys: seq<real>)
    ensures
      var r := RunFrames(e, b, t, xs);
      var r' := RunFrames(e, r.body, r.task, ys);
      var whole := RunFrames(e, b, t, xs + ys);
      && whole.body == r'.body && whole.task == r'.task
      && whole.callbacks == r.callbacks + r'.callbacks
    decreases |xs|
  {
    if |xs| == 0 {
      assert xs + ys == ys;
    } else if t.Some? {
      var s := Resume(e, b, t.value, xs[0]);
      assert (xs + ys)[1..] == xs[1..] + ys;
      RunFramesSplit(e, s.body, s.task, xs[1..], ys);
    }
  }
}
