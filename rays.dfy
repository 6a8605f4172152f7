/** Rays, intersection records, and the numeric primitives the tracer uses
    without defining them. */
module Rays {
  import opened Vectors
  import opened Materials

  /** Diagnostic tag of a ray; it does not change any computation. */
  datatype RayKind = Visibility | Shadow | Reflection | Refraction

  /** A ray: origin, direction (not necessarily unit length), a carried
      per-channel weight, and its kind. */
  datatype Ray = Ray(origin: Vec3, direction: Vec3, atten: Vec3, kind: RayKind) {
    /** The point `origin + t * direction`. */
    function At(t: real): Vec3 { origin.Add(direction.Scale(t)) }
  }

  /** An intersection: ray parameter, surface normal (not necessarily unit
      length), the material hit and the surface (u, v) coordinates. */
  datatype Isect = Isect(t: real, normal: Vec3, material: Material, uv: Vec2)

  /** `sqrt`, `pow` and `glm::normalize`, left uninterpreted: nothing in the
      model depends on their values. */
  datatype Math = Math(sqrt: real -> real, pow: (real, real) -> real, normalize: Vec3 -> Vec3)

  /** glm::length(v) = sqrt(dot(v, v)). */
  function Length(m: Math, v: Vec3): real {
    m.sqrt(SquaredLength(v))
  }

  /** The offset, 1e-6, that moves the origin of a secondary ray off the
      surface it leaves. */
  const Eps: real := 0.000001
}
