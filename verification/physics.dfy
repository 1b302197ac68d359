/** The physics queries the character script makes, with Unity's
    Physics2D backend replaced by oracles carried in an `Engine` record,
    and the two self-excluding filters built on them. */
module Physics {
  import opened Search
  import opened Vectors

  /** Identity of a Unity GameObject. */
  type GameObject = nat

  datatype Collider = Collider(id: nat, gameObject: GameObject)

  /** Only the collider of a cast hit is read by the script. */
  datatype RaycastHit2D = RaycastHit2D(collider: Collider)

  /** Physics2D.CircleCastAll(origin, radius, direction, distance, layerMask). */
  type CircleCastAll = (Vec2, real, Vec2, real, int) -> seq<RaycastHit2D>

  /** Physics2D.OverlapCircleAll(point, radius, layerMask). */
  type OverlapCircleAll = (Vec2, real, int) -> seq<Collider>

  /** Everything the script takes from the host engine: its own game
      object, the two physics queries and Vector3.magnitude. */
  datatype Engine = Engine(
    self: GameObject,
    circleCastAll: CircleCastAll,
    overlapCircleAll: OverlapCircleAll,
    magnitude: Norm)

  /** The hit list of the circle cast RaycastCircle makes. */
  function CastHits(e: Engine, origin: Vec3, radius: real, dir: Vec3, dis: real, layerMask: int): seq<RaycastHit2D> {
    e.circleCastAll(Flatten(origin), radius, Flatten(dir), dis, layerMask)
  }

  /** The first hit of a circle cast whose collider does not belong to the
      character, or None. */
  function RaycastCircle(e: Engine, origin: Vec3, radius: real, dir: Vec3, dis: real, layerMask: int): (r: Option<Collider>)
    ensures var hits := CastHits(e, origin, radius, dir, dis, layerMask);
      r.None? <==> forall i :: 0 <= i < |hits| ==> hits[i].collider.gameObject == e.self
    ensures var hits := CastHits(e, origin, radius, dir, dis, layerMask);
      r.Some? ==>
        && r.value.gameObject != e.self
        && exists i :: 0 <= i < |hits| && hits[i].collider == r.value
             && forall j :: 0 <= j < i ==> hits[j].collider.gameObject == e.self
  {
    var hits := CastHits(e, origin, radius, dir, dis, layerMask);
    match FirstWhere(hits, (h: RaycastHit2D) => h.collider.gameObject != e.self)
    case None => None
    case Some(i) => Some(hits[i].collider)
  }

  /** The first collider overlapping a circle that does not belong to the
      character, or None. */
  function OverlapCircle(e: Engine, point: Vec2, radius: real, layerMask: int): (r: Option<Collider>)
    ensures var cs := e.overlapCircleAll(point, radius, layerMask);
      r.None? <==> forall i :: 0 <= i < |cs| ==> cs[i].gameObject == e.self
    ensures var cs := e.overlapCircleAll(point, radius, layerMask);
      r.Some? ==>
        && r.value.gameObject != e.self
        && exists i :: 0 <= i < |cs| && cs[i] == r.value
             && forall j :: 0 <= j < i ==> cs[j].gameObject == e.self
  {
    var cs := e.overlapCircleAll(point, radius, layerMask);
    match FirstWhere(cs, (c: Collider) => c.gameObject != e.self)
    case None => None
    case Some(i) => Some(cs[i])
  }
}
