/** DirectionalLight and PointLight: colour, direction to the light,
    distance attenuation and the shadow test. */
module Lights {
  import opened Options
  import opened Vectors
  import opened Rays

  /** A directional light shines along `orientation` from infinitely far;
      a point light sits at `position`. */
  datatype Light =
    | Directional(color: Vec3, orientation: Vec3)
    | Point(color: Vec3, position: Vec3)

  /** scene->intersect: the nearest hit along a ray, if any. */
  type Intersector = Ray -> Option<Isect>

  /** The falloff constant c of a point light's 1 / (1 + c d^2). */
  const FalloffConstant: real := 0.1

  /** 1 / (1 + 0.1 d^2) for the squared distance d^2. */
  function Falloff(d2: real): (a: real)
    requires d2 >= 0.0
    ensures 0.0 < a <= 1.0
  {
    ReciprocalInUnit(1.0 + FalloffConstant * d2);
    1.0 / (1.0 + FalloffConstant * d2)
  }

  lemma ReciprocalInUnit(a: real)
    requires a >= 1.0
    ensures 0.0 < 1.0 / a <= 1.0
  {
  }

  /** min(1, 1 / (1 + 0.1 d^2)) for a point light at squared distance d^2
      from `p`, in (0, 1]; 1 everywhere for a directional light. */
  function DistanceAttenuation(l: Light, p: Vec3): (a: real)
    ensures 0.0 < a <= 1.0
    ensures l.Directional? ==> a == 1.0
  {
    match l
    case Directional(_, _) => 1.0
    case Point(_, position) => MinReal(1.0, Falloff(SquaredLength(position.Sub(p))))
  }

  /** For a point light the clamp to 1 never takes effect. */
  lemma PointAttenuationUnclamped(l: Light, p: Vec3)
    requires l.Point?
    ensures DistanceAttenuation(l, p) == Falloff(SquaredLength(l.position.Sub(p)))
  {
  }

  /** At the light's own position a point light is not attenuated. */
  lemma PointAttenuationAtLight(l: Light)
    requires l.Point?
    ensures DistanceAttenuation(l, l.position) == 1.0
  {
    assert SquaredLength(l.position.Sub(l.position)) == 0.0;
  }

  /** A point light's attenuation does not increase with distance. */
  lemma PointAttenuationMonotone(l: Light, p: Vec3, q: Vec3)
    requires l.Point?
    requires SquaredLength(l.position.Sub(p)) <= SquaredLength(l.position.Sub(q))
    ensures DistanceAttenuation(l, q) <= DistanceAttenuation(l, p)
  {
    var a := 1.0 + FalloffConstant * SquaredLength(l.position.Sub(p));
    var b := 1.0 + FalloffConstant * SquaredLength(l.position.Sub(q));
    assert 1.0 <= a <= b;
    ReciprocalAntitone(a, b);
    assert Falloff(SquaredLength(l.position.Sub(q))) <= Falloff(SquaredLength(l.position.Sub(p)));
  }

  lemma ReciprocalAntitone(a: real, b: real)
    requires 1.0 <= a <= b
    ensures 1.0 / b <= 1.0 / a
  {
    var ra, rb := 1.0 / a, 1.0 / b;
    assert ra * a == 1.0 && rb * b == 1.0;
    if rb > ra {
      MulMonotone(b, ra, rb);
      MulMonotone(ra, a, b);
      assert false;
    }
  }

  /** The direction from `p` towards the light: against the orientation for
      a directional light, the normalized offset to a point light. */
  function GetDirection(l: Light, m: Math, p: Vec3): Vec3 {
    match l
    case Directional(_, orientation) => orientation.Neg()
    case Point(_, position) => m.normalize(position.Sub(p))
  }

  /** A directional light's direction does not depend on the query point. */
  lemma DirectionalDirectionConstant(l: Light, m: Math, p: Vec3, q: Vec3)
    requires l.Directional?
    ensures GetDirection(l, m, p) == GetDirection(l, m, q) == l.orientation.Neg()
  {
  }

  /** The shadow ray from `p` towards `L`, its origin moved off the surface. */
  function ShadowRay(p: Vec3, L: Vec3): Ray {
    Ray(p.Add(L.Scale(Eps)), L, Ones, Shadow)
  }

  /** The shadow factor: all zeros when blocked, all ones otherwise. */
  function ShadowAttenuation(l: Light, intersect: Intersector, m: Math, p: Vec3): (c: Vec3)
    ensures c == Zero || c == Ones
  {
    match l
    case Directional(_, orientation) =>
      var L := orientation.Neg();
      if intersect(ShadowRay(p, L)).Some? then Zero else Ones
    case Point(_, position) =>
      var toLight := position.Sub(p);
      var maxDist := Length(m, toLight);
      var L := m.normalize(toLight);
      match intersect(ShadowRay(p, L))
      case Some(i) => if i.t < maxDist then Zero else Ones
      case None => Ones
  }

  /** A point light is shadowed exactly by a hit strictly before the light;
      a hit at or beyond it, or no hit, leaves it fully visible. */
  lemma PointShadow(l: Light, intersect: Intersector, m: Math, p: Vec3)
    requires l.Point?
    ensures var toLight := l.position.Sub(p);
            var hit := intersect(ShadowRay(p, m.normalize(toLight)));
            ShadowAttenuation(l, intersect, m, p) ==
              if hit.Some? && hit.value.t < Length(m, toLight) then Zero else Ones
  {
  }

  /** A directional light is shadowed by any hit towards it. */
  lemma DirectionalShadow(l: Light, intersect: Intersector, m: Math, p: Vec3)
    requires l.Directional?
    ensures ShadowAttenuation(l, intersect, m, p) ==
              if intersect(ShadowRay(p, l.orientation.Neg())).Some? then Zero else Ones
  {
  }
}
