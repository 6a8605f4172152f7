/** RayTracer::traceRay and RayTracer::trace: the recursive integrator.
    A miss returns the sky gradient; a hit returns the local shade plus, while
    depth remains, the reflected and the refracted colour, each weighted by
    its coefficient and traced one level shallower. */
module Tracer {
  import opened Options
  import opened Vectors
  import opened Rays
  import opened Materials
  import opened Scenes
  import opened Shading

  /** The sky colour at the top of the background gradient. */
  const Sky := Vec3(0.4, 0.7, 1.0)

  /** The background seen along the normalized direction D:
      (1 - t) * white + t * sky with t = 0.5 (D.y + 1). */
  function Background(D: Vec3): Vec3 {
    LerpColor(Ones, Sky, 0.5 * (D.y + 1.0))
  }

  /** Directions of unit length have D.y in [-1,1], and then the background
      is a colour of [0,1]. */
  lemma BackgroundInUnit(D: Vec3)
    requires -1.0 <= D.y <= 1.0
    ensures UnitColor(Background(D))
  {
    LerpColorInUnit(Ones, Sky, 0.5 * (D.y + 1.0));
  }

  /** The gradient runs from white straight down to the sky colour straight
      up, through (0.7, 0.85, 1.0) at the horizon. */
  lemma BackgroundGradient(D: Vec3)
    ensures D.y == -1.0 ==> Background(D) == Ones
    ensures D.y == 0.0 ==> Background(D) == Vec3(0.7, 0.85, 1.0)
    ensures D.y == 1.0 ==> Background(D) == Sky
  {
  }

  /** A secondary ray and the coefficient that weights its colour. */
  datatype Spawn = Spawn(weight: Vec3, ray: Ray)

  /** The refraction setting at a surface: incident and transmitted index,
      the cosine of incidence (made non-negative) and the normal used. */
  datatype Snell = Snell(etai: real, etat: real, cosi: real, n: Vec3)

  /** Air (index 1) on the outside. When D.N > 0 the ray leaves the object:
      the indices swap and the normal is flipped. */
  function Orient(D: Vec3, N: Vec3, ior: real): (o: Snell)
    ensures o.cosi >= 0.0 && o.cosi == Abs(D.Dot(N))
    ensures {o.etai, o.etat} == {1.0, ior}
  {
    var cosi := D.Dot(N);
    if cosi > 0.0 then Snell(ior, 1.0, cosi, N.Neg())
    else Snell(1.0, ior, -cosi, N)
  }

  lemma ExitingSwapsIndices(D: Vec3, N: Vec3, ior: real)
    requires D.Dot(N) > 0.0
    ensures Orient(D, N, ior) == Snell(ior, 1.0, D.Dot(N), N.Neg())
  {
  }

  lemma EnteringKeepsIndices(D: Vec3, N: Vec3, ior: real)
    requires D.Dot(N) <= 0.0
    ensures Orient(D, N, ior) == Snell(1.0, ior, -D.Dot(N), N)
  {
  }

  /** k = 1 - eta^2 (1 - cos^2 i); negative means total internal reflection. */
  function Discriminant(eta: real, cosi: real): real {
    1.0 - eta * eta * (1.0 - cosi * cosi)
  }

  /** Snell's law for unit D and N: the transmitted direction
      eta D + (eta cos i - sqrt k) n, or nothing under total internal
      reflection (k < 0). A zero transmitted index makes eta infinite, and
      then no transmitted ray is produced either. */
  function RefractedDirection(m: Math, D: Vec3, N: Vec3, ior: real): (T: Option<Vec3>)
  {
    var o := Orient(D, N, ior);
    if o.etat == 0.0 then None
    else
      var eta := o.etai / o.etat;
      var k := Discriminant(eta, o.cosi);
      if k >= 0.0 then Some(D.Scale(eta).Add(o.n.Scale(eta * o.cosi - m.sqrt(k))))
      else None
  }

  /** A transmitted ray exists exactly when k >= 0. */
  lemma RefractsIffDiscriminantNonNegative(m: Math, D: Vec3, N: Vec3, ior: real)
    ensures var o := Orient(D, N, ior);
            RefractedDirection(m, D, N, ior).Some? <==>
              o.etat != 0.0 && Discriminant(o.etai / o.etat, o.cosi) >= 0.0
  {
  }

  /** Entering a medium at least as dense as air always refracts. */
  lemma EnteringDenserMediumRefracts(m: Math, D: Vec3, N: Vec3, ior: real)
    requires D.Dot(N) <= 0.0 && ior >= 1.0
    ensures RefractedDirection(m, D, N, ior).Some?
  {
    var eta := 1.0 / ior;
    assert 0.0 < eta <= 1.0 by {
      assert eta * ior == 1.0;
      if eta > 1.0 { MulMonotone(ior, 1.0, eta); }
    }
    MulMonotone(eta, eta, 1.0);
    NoTotalReflection(eta, -D.Dot(N));
  }

  /** With an index ratio of at most 1 in magnitude, k >= 0 at every
      incidence cosine, so total internal reflection cannot occur. */
  lemma NoTotalReflection(eta: real, cosi: real)
    requires eta * eta <= 1.0
    ensures Discriminant(eta, cosi) >= 0.0
  {
    SquareNonNegative(eta);
    SquareNonNegative(cosi);
    var s := 1.0 - cosi * cosi;
    if s >= 0.0 {
      MulMonotone(s, eta * eta, 1.0);
      assert eta * eta * s <= s;
    } else {
      MulNonNegative(eta * eta, -s);
    }
  }

  /** Leaving glass of index 2 at an incidence cosine of 0.5 is beyond the
      critical angle: k = 1 - 4 (1 - 0.25) < 0 and nothing is transmitted. */
  lemma BeyondCriticalAngle(m: Math, D: Vec3, N: Vec3)
    requires D.Dot(N) == 0.5
    ensures Discriminant(2.0, 0.5) < 0.0
    ensures RefractedDirection(m, D, N, 2.0) == None
  {
  }

  /** The reflected ray at hit `i`, present exactly when kr is non-zero:
      the mirror image R of the unit view direction about the unit normal,
      starting 1e-6 along R from the hit point. */
  function ReflectedSpawn(m: Math, r: Ray, i: Isect): (sp: Option<Spawn>)
    ensures sp.Some? <==> Value(i.material.kr, i.uv) != Zero
    ensures sp.Some? ==> sp.value.weight == Value(i.material.kr, i.uv) && sp.value.ray.kind == Reflection
  {
    var P := r.At(i.t);
    var N := m.normalize(i.normal);
    var D := m.normalize(r.direction);
    var kr := Value(i.material.kr, i.uv);
    if kr == Zero then None
    else
      var R := Reflect(D, N);
      Some(Spawn(kr, Ray(P.Add(R.Scale(Eps)), R, Ones, Reflection)))
  }

  /** The refracted ray at hit `i`, present exactly when kt is non-zero and
      Snell's law yields a transmitted direction T; it starts 1e-6 along T. */
  function RefractedSpawn(m: Math, r: Ray, i: Isect): (sp: Option<Spawn>)
    ensures sp.Some? <==>
      Value(i.material.kt, i.uv) != Zero &&
      RefractedDirection(m, m.normalize(r.direction), m.normalize(i.normal), IntensityValue(i.material.index, i.uv)).Some?
    ensures sp.Some? ==> sp.value.weight == Value(i.material.kt, i.uv) && sp.value.ray.kind == Refraction
  {
    var P := r.At(i.t);
    var N := m.normalize(i.normal);
    var D := m.normalize(r.direction);
    var kt := Value(i.material.kt, i.uv);
    var ior := IntensityValue(i.material.index, i.uv);
    if kt == Zero then None
    else
      match RefractedDirection(m, D, N, ior)
      case None => None
      case Some(T) => Some(Spawn(kt, Ray(P.Add(T.Scale(Eps)), T, Ones, Refraction)))
  }

  /** The colour seen along `r` with `depth` levels of recursion left. */
  function TraceRay(s: Scene, m: Math, r: Ray, depth: int): Vec3
    decreases depth
  {
    match s.intersect(r)
    case None => Background(m.normalize(r.direction))
    case Some(i) =>
      var local := ShadeColor(i.material, s, m, r, i);
      if depth <= 0 then local
      else
        var withReflection :=
          match ReflectedSpawn(m, r, i)
          case Some(sp) => local.Add(sp.weight.Mul(TraceRay(s, m, sp.ray, depth - 1)))
          case None => local;
        match RefractedSpawn(m, r, i)
        case Some(sp) => withReflection.Add(sp.weight.Mul(TraceRay(s, m, sp.ray, depth - 1)))
        case None => withReflection
  }

  /** The number of traceRay invocations a call makes, itself included. */
  ghost function RaysTraced(s: Scene, m: Math, r: Ray, depth: int): nat
    decreases depth, 1
  {
    match s.intersect(r)
    case None => 1
    case Some(i) =>
      if depth <= 0 then 1
      else 1 + SpawnedRays(s, m, ReflectedSpawn(m, r, i), depth - 1)
             + SpawnedRays(s, m, RefractedSpawn(m, r, i), depth - 1)
  }

  /** The invocations an optional secondary ray traced at `depth` makes. */
  ghost function SpawnedRays(s: Scene, m: Math, sp: Option<Spawn>, depth: int): nat
    requires depth >= 0
    decreases depth + 1, 0
  {
    match sp
    case Some(p) => RaysTraced(s, m, p.ray, depth)
    case None => 0
  }

  /** The weighted colour of an optional secondary ray traced at `depth`. */
  function Secondary(s: Scene, m: Math, sp: Option<Spawn>, depth: int): Vec3 {
    match sp
    case Some(p) => p.weight.Mul(TraceRay(s, m, p.ray, depth))
    case None => Zero
  }

  /** A ray that hits nothing sees the background along its normalized
      direction. */
  lemma MissIsBackground(s: Scene, m: Math, r: Ray, depth: int)
    requires s.intersect(r).None?
    ensures TraceRay(s, m, r, depth) == Background(m.normalize(r.direction))
    ensures RaysTraced(s, m, r, depth) == 1
  {
  }

  /** With no depth left a hit returns its local shade and spawns nothing. */
  lemma DepthExhaustedIsLocal(s: Scene, m: Math, r: Ray, depth: int)
    requires s.intersect(r).Some? && depth <= 0
    ensures var i := s.intersect(r).value;
            TraceRay(s, m, r, depth) == ShadeColor(i.material, s, m, r, i)
    ensures RaysTraced(s, m, r, depth) == 1
  {
  }

  /** With depth left a hit returns local shade + kr * reflected colour +
      kt * refracted colour, both traced at depth - 1, missing terms being 0. */
  lemma HitCombinesTerms(s: Scene, m: Math, r: Ray, depth: int)
    requires s.intersect(r).Some? && depth > 0
    ensures var i := s.intersect(r).value;
            TraceRay(s, m, r, depth) ==
              ShadeColor(i.material, s, m, r, i)
                .Add(Secondary(s, m, ReflectedSpawn(m, r, i), depth - 1))
                .Add(Secondary(s, m, RefractedSpawn(m, r, i), depth - 1))
  {
  }

  /** A hit surface that neither reflects nor transmits (kr = kt = 0) gives
      its local shade at every depth, with no secondary rays. */
  lemma OpaqueSurfaceIsLocal(s: Scene, m: Math, r: Ray, depth: int)
    requires s.intersect(r).Some?
    requires var i := s.intersect(r).value;
             Value(i.material.kr, i.uv) == Zero && Value(i.material.kt, i.uv) == Zero
    ensures var i := s.intersect(r).value;
            TraceRay(s, m, r, depth) == ShadeColor(i.material, s, m, r, i)
    ensures RaysTraced(s, m, r, depth) == 1
  {
  }

  function Pow2(n: nat): (p: nat)
    ensures p >= 1
  {
    if n == 0 then 1 else 2 * Pow2(n - 1)
  }

  /** Each level spawns at most two rays, one level shallower, so a call at
      depth d traces at most 2^(d+1) - 1 rays and the recursion ends. */
  lemma {:induction false} RaysTracedBound(s: Scene, m: Math, r: Ray, depth: int)
    ensures RaysTraced(s, m, r, depth) <= Pow2(if depth < 0 then 1 else depth + 1) - 1
    decreases depth, 1
  {
    match s.intersect(r)
    case None =>
    case Some(i) =>
      if depth > 0 {
        SpawnedRaysBound(s, m, ReflectedSpawn(m, r, i), depth - 1);
        SpawnedRaysBound(s, m, RefractedSpawn(m, r, i), depth - 1);
        assert Pow2(depth + 1) == 2 * Pow2(depth);
      }
  }

  lemma {:induction false} SpawnedRaysBound(s: Scene, m: Math, sp: Option<Spawn>, depth: int)
    requires depth >= 0
    ensures SpawnedRays(s, m, sp, depth) <= Pow2(depth + 1) - 1
    decreases depth + 1, 0
  {
    match sp
    case Some(p) => RaysTracedBound(s, m, p.ray, depth);
    case None =>
  }

  /** RayTracer::trace: the primary ray through window point (x, y), traced
      at the configured depth, clamped to [0,1] per channel. */
  function Trace(s: Scene, m: Math, depth: int, x: real, y: real): (c: Vec3)
    ensures UnitColor(c)
    ensures UnitColor(TraceRay(s, m, s.rayThrough(x, y), depth)) ==> c == TraceRay(s, m, s.rayThrough(x, y), depth)
  {
    Clamp01(TraceRay(s, m, s.rayThrough(x, y), depth))
  }
}
