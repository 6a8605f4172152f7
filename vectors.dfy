/** The real-valued stand-in for glm's dvec2/dvec3, bytes, and the
    clamping and interpolation helpers the ray tracer uses. */
module Vectors {

  /** An `unsigned char`. */
  newtype byte = x: int | 0 <= x < 256

  /** glm::dvec3 with doubles read as reals. */
  datatype Vec3 = Vec3(x: real, y: real, z: real) {
    function Add(o: Vec3): Vec3 { Vec3(x + o.x, y + o.y, z + o.z) }
    function Sub(o: Vec3): Vec3 { Vec3(x - o.x, y - o.y, z - o.z) }
    function Neg(): Vec3 { Vec3(-x, -y, -z) }
    /** `s * v` for a scalar `s`. */
    function Scale(s: real): Vec3 { Vec3(s * x, s * y, s * z) }
    /** `v / s` for a scalar `s`. */
    function Div(s: real): Vec3 requires s != 0.0 { Vec3(x / s, y / s, z / s) }
    /** glm's component-wise product `u * v`. */
    function Mul(o: Vec3): Vec3 { Vec3(x * o.x, y * o.y, z * o.z) }
    function Dot(o: Vec3): real { x * o.x + y * o.y + z * o.z }
  }

  /** glm::dvec2, used for texture coordinates. */
  datatype Vec2 = Vec2(x: real, y: real)

  const Zero := Vec3(0.0, 0.0, 0.0)
  const Ones := Vec3(1.0, 1.0, 1.0)

  function SquaredLength(v: Vec3): (r: real)
    ensures r >= 0.0
    ensures v == Zero ==> r == 0.0
  {
    SquareNonNegative(v.x);
    SquareNonNegative(v.y);
    SquareNonNegative(v.z);
    v.Dot(v)
  }

  lemma SquareNonNegative(a: real)
    ensures a * a >= 0.0
  {
    if a < 0.0 {
      MulPositive(-a, -a);
    }
  }

  lemma MulNonNegative(a: real, b: real)
    requires a >= 0.0 && b >= 0.0
    ensures a * b >= 0.0
  {
  }

  lemma MulPositive(a: real, b: real)
    requires a > 0.0 && b > 0.0
    ensures a * b > 0.0
  {
  }

  /** Multiplying by a non-negative factor preserves <=. */
  lemma MulMonotone(a: real, b: real, c: real)
    requires a >= 0.0 && b <= c
    ensures a * b <= a * c
  {
    assert a * c - a * b == a * (c - b);
    MulNonNegative(a, c - b);
  }

  /** A fraction of a non-negative quantity lies between 0 and it. */
  lemma FractionOf(s: real, w: real)
    requires InUnit(s) && w >= 0.0
    ensures 0.0 <= s * w <= w
  {
    MulNonNegative(s, w);
    MulNonNegative(1.0 - s, w);
    assert w - s * w == (1.0 - s) * w;
  }

  /** glm::reflect(i, n) = i - 2 dot(n, i) n. */
  function Reflect(i: Vec3, n: Vec3): Vec3 {
    i.Sub(n.Scale(2.0 * n.Dot(i)))
  }

  /** About a unit normal, reflection flips the component along the normal. */
  lemma ReflectFlipsNormal(i: Vec3, n: Vec3)
    requires n.Dot(n) == 1.0
    ensures Reflect(i, n).Dot(n) == -i.Dot(n)
  {
    var c := 2.0 * n.Dot(i);
    assert Reflect(i, n).Dot(n) == i.Dot(n) - c * n.Dot(n);
  }

  /** About a unit normal, reflecting twice gives back the original vector. */
  lemma ReflectInvolution(i: Vec3, n: Vec3)
    requires n.Dot(n) == 1.0
    ensures Reflect(Reflect(i, n), n) == i
  {
    ReflectFlipsNormal(i, n);
    var r := Reflect(i, n);
    assert n.Dot(r) == -n.Dot(i);
  }

  function Abs(a: real): (r: real)
    ensures r >= 0.0 && (r == a || r == -a)
  {
    if a < 0.0 then -a else a
  }

  function MaxReal(a: real, b: real): (r: real)
    ensures r >= a && r >= b && (r == a || r == b)
  {
    if a < b then b else a
  }

  function MinReal(a: real, b: real): (r: real)
    ensures r <= a && r <= b && (r == a || r == b)
  {
    if a < b then a else b
  }

  function MaxInt(a: int, b: int): (r: int)
    ensures r >= a && r >= b && (r == a || r == b)
  {
    if a < b then b else a
  }

  function MinInt(a: int, b: int): (r: int)
    ensures r <= a && r <= b && (r == a || r == b)
  {
    if a < b then a else b
  }

  /** glm::clamp(a, lo, hi) = min(max(a, lo), hi). */
  function Clamp(a: real, lo: real, hi: real): (r: real)
    requires lo <= hi
    ensures lo <= r <= hi
    ensures lo <= a <= hi ==> r == a
    ensures a < lo ==> r == lo
    ensures a > hi ==> r == hi
  {
    MinReal(MaxReal(a, lo), hi)
  }

  predicate InUnit(a: real) { 0.0 <= a <= 1.0 }

  /** Every channel of `c` lies in [0,1]. */
  predicate UnitColor(c: Vec3) { InUnit(c.x) && InUnit(c.y) && InUnit(c.z) }

  /** glm::clamp(c, 0.0, 1.0), channel by channel. */
  function Clamp01(c: Vec3): (r: Vec3)
    ensures UnitColor(r)
    ensures UnitColor(c) ==> r == c
  {
    Vec3(Clamp(c.x, 0.0, 1.0), Clamp(c.y, 0.0, 1.0), Clamp(c.z, 0.0, 1.0))
  }

  /** (1 - s) * a + s * b. */
  function Lerp(a: real, b: real, s: real): real {
    (1.0 - s) * a + s * b
  }

  function LerpColor(a: Vec3, b: Vec3, s: real): Vec3 {
    Vec3(Lerp(a.x, b.x, s), Lerp(a.y, b.y, s), Lerp(a.z, b.z, s))
  }

  /** A convex combination of two values of [0,1] stays in [0,1]. */
  lemma LerpInUnit(a: real, b: real, s: real)
    requires InUnit(a) && InUnit(b) && InUnit(s)
    ensures InUnit(Lerp(a, b, s))
    ensures (a <= b ==> a <= Lerp(a, b, s) <= b) && (b <= a ==> b <= Lerp(a, b, s) <= a)
  {
    assert Lerp(a, b, s) == a + s * (b - a);
    if a <= b {
      MulNonNegative(s, b - a);
      MulMonotone(b - a, s, 1.0);
    } else {
      MulNonNegative(s, a - b);
      MulMonotone(a - b, s, 1.0);
    }
  }

  lemma LerpColorInUnit(a: Vec3, b: Vec3, s: real)
    requires UnitColor(a) && UnitColor(b) && InUnit(s)
    ensures UnitColor(LerpColor(a, b, s))
  {
    LerpInUnit(a.x, b.x, s);
    LerpInUnit(a.y, b.y, s);
    LerpInUnit(a.z, b.z, s);
  }

  /** A stored byte read back as a channel value, `b / 255.0`. */
  function ByteToUnit(b: byte): (r: real)
    ensures InUnit(r)
    ensures r * 255.0 == b as real
  {
    b as real / 255.0
  }

  /** Row-major flattening of the pixel (i, j) of a w-by-h grid stays inside
      the w*h*3 bytes that hold the grid's RGB triples. */
  lemma FlatIndexInBounds(i: int, j: int, w: int, h: int)
    requires 0 <= i < w && 0 <= j < h
    ensures 0 <= i + j * w < w * h
    ensures 0 <= (i + j * w) * 3 && (i + j * w) * 3 + 3 <= w * h * 3
  {
    assert j * w <= (h - 1) * w by {
      assert (h - 1 - j) * w >= 0;
    }
    assert (h - 1) * w + w == w * h;
  }
}
