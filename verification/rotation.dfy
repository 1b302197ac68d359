/** The rotation bookkeeping of CharacterMove: an immediate rotation
    (InvokeRotate), a smooth one (SmoothRotate) that Update advances every
    frame by interpolating towards a target, and StopRotate, which halts
    it. Quaternions are left to the engine: `Q` is the engine's rotation
    type and the three quaternion operations the script uses are
    parameters. */
module Rotation {
  import opened Vectors

  /** The engine's quaternion operations: Quaternion.LookRotation(forward,
      upwards), Quaternion.AngleAxis(degrees, axis), and the unclamped
      interpolation on which Quaternion.Lerp is built. */
  datatype QuatEngine<!Q> = QuatEngine(
    lookRotation: (Vec3, Vec3) -> Q,
    angleAxis: (real, Vec3) -> Q,
    lerpUnclamped: (Q, Q, real) -> Q)

  /** Mathf.Rad2Deg, the number of degrees in a radian. */
  const Rad2Deg: real := 57.29578

  /** The component's rotation state: the transform's rotation and the
      fields `m_rotate`, `m_rotateSpeed` and `m_targetRotation`. */
  datatype Rotator<Q> = Rotator(rotation: Q, rotate: bool, rotateSpeed: real, targetRotation: Q)

  /** A freshly created component: not rotating, speed 5. The target field
      holds whatever default the engine gives an unset Quaternion. */
  function NewRotator<Q>(rotation: Q, unsetTarget: Q): (r: Rotator<Q>)
    ensures !r.rotate && r.rotateSpeed == 5.0
    ensures r.rotation == rotation
  {
    Rotator(rotation, false, 5.0, unsetTarget)
  }

  /** GetQuaternion(dir): the rotation whose forward axis is world forward
      and whose up axis points against `dir`. */
  function FromDirection<Q>(qe: QuatEngine<Q>, dir: Vec3): Q {
    qe.lookRotation(Forward, Negate(dir))
  }

  /** GetQuaternion(angle): a rotation by `angle` radians about world
      forward, handed to the engine in degrees. */
  function FromAngle<Q>(qe: QuatEngine<Q>, angle: real): Q {
    qe.angleAxis(angle * Rad2Deg, Forward)
  }

  /** Mathf.Clamp01. */
  function Clamp01(t: real): (c: real)
    ensures 0.0 <= c <= 1.0
    ensures 0.0 <= t <= 1.0 ==> c == t
    ensures t < 0.0 ==> c == 0.0
    ensures t > 1.0 ==> c == 1.0
  {
    if t < 0.0 then 0.0 else if t > 1.0 then 1.0 else t
  }

  /** Quaternion.Lerp, which clamps its parameter to [0, 1] before
      interpolating. */
  function Lerp<Q>(qe: QuatEngine<Q>, a: Q, b: Q, t: real): (q: Q)
    ensures 0.0 <= t <= 1.0 ==> q == qe.lerpUnclamped(a, b, t)
    ensures t >= 1.0 ==> q == qe.lerpUnclamped(a, b, 1.0)
    ensures t <= 0.0 ==> q == qe.lerpUnclamped(a, b, 0.0)
  {
    qe.lerpUnclamped(a, b, Clamp01(t))
  }

  /** StopRotate: the smooth rotation stops where it is. */
  function StopRotate<Q>(r: Rotator<Q>): (r': Rotator<Q>)
    ensures !r'.rotate
    ensures r'.rotation == r.rotation && r'.rotateSpeed == r.rotateSpeed && r'.targetRotation == r.targetRotation
  {
    r.(rotate := false)
  }

  /** InvokeRotate(dir): turn at once to face `dir`. A smooth rotation in
      progress is not cancelled. */
  function InvokeRotateToDirection<Q>(qe: QuatEngine<Q>, r: Rotator<Q>, dir: Vec3): (r': Rotator<Q>)
    ensures r'.rotation == FromDirection(qe, dir)
    ensures r'.rotate == r.rotate && r'.rotateSpeed == r.rotateSpeed && r'.targetRotation == r.targetRotation
  {
    r.(rotation := FromDirection(qe, dir))
  }

  /** InvokeRotate(angle): turn at once to `angle`. A smooth rotation in
      progress is not cancelled. */
  function InvokeRotateToAngle<Q>(qe: QuatEngine<Q>, r: Rotator<Q>, angle: real): (r': Rotator<Q>)
    ensures r'.rotation == FromAngle(qe, angle)
    ensures r'.rotate == r.rotate && r'.rotateSpeed == r.rotateSpeed && r'.targetRotation == r.targetRotation
  {
    r.(rotation := FromAngle(qe, angle))
  }

  /** SmoothRotate(dir, speed): start turning towards `dir`; nothing turns
      until the next Update. */
  function SmoothRotateToDirection<Q>(qe: QuatEngine<Q>, r: Rotator<Q>, dir: Vec3, speed: real): (r': Rotator<Q>)
    ensures r'.rotate && r'.rotateSpeed == speed && r'.targetRotation == FromDirection(qe, dir)
    ensures r'.rotation == r.rotation
  {
    Rotator(r.rotation, true, speed, FromDirection(qe, dir))
  }

  /** SmoothRotate(angle, speed): start turning towards `angle`; nothing
      turns until the next Update. */
  function SmoothRotateToAngle<Q>(qe: QuatEngine<Q>, r: Rotator<Q>, angle: real, speed: real): (r': Rotator<Q>)
    ensures r'.rotate && r'.rotateSpeed == speed && r'.targetRotation == FromAngle(qe, angle)
    ensures r'.rotation == r.rotation
  {
    Rotator(r.rotation, true, speed, FromAngle(qe, angle))
  }

  /** The interpolation parameter of one frame: the frame length times the
      rotation speed, before clamping. */
  function Fraction(dt: real, speed: real): real {
    dt * speed
  }

  /** Update for a frame of length `dt`: while rotating, move the rotation
      towards the target by the fraction `dt * rotateSpeed` (clamped). The
      flag is never cleared here, not even once the target is reached. */
  function Update<Q>(qe: QuatEngine<Q>, r: Rotator<Q>, dt: real): (r': Rotator<Q>)
    ensures !r.rotate ==> r' == r
    ensures r'.rotate == r.rotate && r'.rotateSpeed == r.rotateSpeed && r'.targetRotation == r.targetRotation
    ensures r.rotate ==> r'.rotation == Lerp(qe, r.rotation, r.targetRotation, Fraction(dt, r.rotateSpeed))
  {
    if r.rotate then
      r.(rotation := Lerp(qe, r.rotation, r.targetRotation, Fraction(dt, r.rotateSpeed)))
    else
      r
  }

  /** Update for frames of the lengths `dts`, with nothing else touching
      the state in between. */
  function UpdateFrames<Q>(qe: QuatEngine<Q>, r: Rotator<Q>, dts: seq<real>): (r': Rotator<Q>)
    ensures !r.rotate ==> r' == r
    ensures r'.rotate == r.rotate && r'.rotateSpeed == r.rotateSpeed && r'.targetRotation == r.targetRotation
    decreases |dts|
  {
    if |dts| == 0 then r else UpdateFrames(qe, Update(qe, r, dts[0]), dts[1..])
  }

  /** Interpolating all the way gives the end point. */
  ghost predicate ReachesEnd<Q(!new)>(qe: QuatEngine<Q>) {
    forall a, b :: qe.lerpUnclamped(a, b, 1.0) == b
  }

  /** Interpolating between `q` and itself gives `q`. */
  ghost predicate FixesEqualEnds<Q>(qe: QuatEngine<Q>, q: Q) {
    forall t :: 0.0 <= t <= 1.0 ==> qe.lerpUnclamped(q, q, t) == q
  }

  /** After StopRotate, no number of frames changes the rotation state. */
  lemma StopRotateFreezes<Q>(qe: QuatEngine<Q>, r: Rotator<Q>, dts: seq<real>)
    ensures UpdateFrames(qe, StopRotate(r), dts) == StopRotate(r)
    ensures UpdateFrames(qe, StopRotate(r), dts).rotation == r.rotation
  {
  }

  /** SmoothRotate followed by one Update moves the current rotation
      towards the new target by the frame's clamped fraction. */
  lemma SmoothRotateThenUpdate<Q>(qe: QuatEngine<Q>, r: Rotator<Q>, dir: Vec3, speed: real, dt: real)
    ensures
      var r' := Update(qe, SmoothRotateToDirection(qe, r, dir, speed), dt);
      && r'.rotation == qe.lerpUnclamped(r.rotation, FromDirection(qe, dir), Clamp01(Fraction(dt, speed)))
      && r'.rotate
  {
  }

  /** The same for the angle overload of SmoothRotate. */
  lemma SmoothRotateToAngleThenUpdate<Q>(qe: QuatEngine<Q>, r: Rotator<Q>, angle: real, speed: real, dt: real)
    ensures
      var r' := Update(qe, SmoothRotateToAngle(qe, r, angle, speed), dt);
      && r'.rotation == qe.lerpUnclamped(r.rotation, FromAngle(qe, angle), Clamp01(Fraction(dt, speed)))
      && r'.rotate
  {
  }

  /** A second SmoothRotate replaces the first outright: the earlier target
      and speed are forgotten. */
  lemma SmoothRotateOverrides<Q>(qe: QuatEngine<Q>, r: Rotator<Q>, dir1: Vec3, speed1: real, angle2: real, speed2: real)
    ensures SmoothRotateToAngle(qe, SmoothRotateToDirection(qe, r, dir1, speed1), angle2, speed2)
         == SmoothRotateToAngle(qe, r, angle2, speed2)
  {
  }

  /** A frame long enough (`dt * rotateSpeed >= 1`) lands exactly on the
      target, given that the engine's interpolation reaches its end point. */
  lemma UpdateSnapsToTarget<Q(!new)>(qe: QuatEngine<Q>, r: Rotator<Q>, dt: real)
    requires ReachesEnd(qe)
    requires r.rotate && Fraction(dt, r.rotateSpeed) >= 1.0
    ensures Update(qe, r, dt).rotation == r.targetRotation
  {
  }

  /** Once at its target, a smooth rotation stays there for any frames,
      given that interpolating between the target and itself gives the target;
      the flag stays set all the while. */
  lemma {:induction false} StaysAtTarget<Q>(qe: QuatEngine<Q>, r: Rotator<Q>, dts: seq<real>)
    requires FixesEqualEnds(qe, r.targetRotation)
    requires r.rotation == r.targetRotation
    ensures UpdateFrames(qe, r, dts) == r
    decreases |dts|
  {
    if |dts| > 0 {
      var c := Clamp01(Fraction(dts[0], r.rotateSpeed));
      assert qe.lerpUnclamped(r.rotation, r.rotation, c) == r.rotation;
      assert Update(qe, r, dts[0]) == r;
      StaysAtTarget(qe, r, dts[1..]);
    }
  }

  /** InvokeRotate during a smooth rotation is overridden by the next
      Update, which turns from the invoked rotation towards the old target. */
  lemma InvokeDuringSmoothRotate<Q>(qe: QuatEngine<Q>, r: Rotator<Q>, dir: Vec3, dt: real)
    requires r.rotate
    ensures
      var r' := Update(qe, InvokeRotateToDirection(qe, r, dir), dt);
      && r'.rotate
      && r'.targetRotation == r.targetRotation
      && r'.rotation == Lerp(qe, FromDirection(qe, dir), r.targetRotation, Fraction(dt, r.rotateSpeed))
  {
  }
}
