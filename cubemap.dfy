/** CubeMap::getColor and CubeMap::setNthMap: the environment seen along a
    direction, read from one of six face textures. */
module CubeMaps {
  import opened Options
  import opened Vectors
  import opened Rays
  import opened Textures

  /** A face index with coordinates on that face. Faces 0..5 are +X, -X,
      +Y, -Y, +Z, -Z. */
  datatype FacePoint = FacePoint(face: int, u: real, v: real)

  /** The axis a face lies across: 0 for the X faces, 1 for Y, 2 for Z. */
  function Axis(face: int): int {
    face / 2
  }

  /** Component `axis` of d. */
  function Component(d: Vec3, axis: int): real {
    if axis == 0 then d.x else if axis == 1 then d.y else d.z
  }

  /** The face selection: the component of largest magnitude picks the
      axis, ties going to X before Y before Z; its sign picks the + or the
      - face; the other two components over that magnitude give the raw
      (u, v), each face with its own orientation. */
  function SelectFace(d: Vec3): (p: FacePoint)
    requires d != Zero
    ensures 0 <= p.face < 6
  {
    var ax := Abs(d.x);
    var ay := Abs(d.y);
    var az := Abs(d.z);
    if ax >= ay && ax >= az then
      assert ax > 0.0;
      if d.x > 0.0 then FacePoint(0, -d.z / ax, -d.y / ax)
      else FacePoint(1, d.z / ax, -d.y / ax)
    else if ay >= ax && ay >= az then
      if d.y > 0.0 then FacePoint(2, d.x / ay, d.z / ay)
      else FacePoint(3, d.x / ay, -d.z / ay)
    else
      if d.z > 0.0 then FacePoint(4, d.x / az, -d.y / az)
      else FacePoint(5, -d.x / az, -d.y / az)
  }

  /** 0.5 (a + 1): the map from [-1,1] onto [0,1]. */
  function Remap(a: real): (r: real)
    ensures -1.0 <= a <= 1.0 <==> InUnit(r)
    ensures a <= 0.0 <==> r <= 0.5
  {
    0.5 * (a + 1.0)
  }

  /** The face and the texture coordinate getColor samples it at: the raw
      (u, v) remapped to [0,1] and then clamped to [0,1]. */
  function FaceCoordinates(d: Vec3): (p: FacePoint)
    requires d != Zero
    ensures 0 <= p.face < 6 && InUnit(p.u) && InUnit(p.v)
  {
    var raw := SelectFace(d);
    FacePoint(raw.face, Clamp(Remap(raw.u), 0.0, 1.0), Clamp(Remap(raw.v), 0.0, 1.0))
  }

  /** The face's axis is one of largest magnitude, and among those the
      first in the order X, Y, Z: both directions of each case. */
  lemma DominantAxis(d: Vec3)
    requires d != Zero
    ensures var a := Axis(SelectFace(d).face); var ax, ay, az := Abs(d.x), Abs(d.y), Abs(d.z);
      (a == 0 <==> ax >= ay && ax >= az) &&
      (a == 1 <==> ay > ax && ay >= az) &&
      (a == 2 <==> az > ax && az > ay)
  {
  }

  /** The + face of the axis is chosen exactly when the dominant component
      is positive, and the dominant component is never 0. */
  lemma FaceSign(d: Vec3)
    requires d != Zero
    ensures var f := SelectFace(d).face;
      (f % 2 == 0 <==> Component(d, Axis(f)) > 0.0) && Component(d, Axis(f)) != 0.0
  {
    var f := SelectFace(d).face;
    assert Abs(Component(d, Axis(f))) > 0.0;
  }

  /** A quantity no larger in magnitude than m > 0 is, divided by m, in [-1,1]. */
  lemma RatioBounded(a: real, m: real)
    requires m > 0.0 && Abs(a) <= m
    ensures -1.0 <= a / m <= 1.0
  {
    var q := a / m;
    assert q * m == a;
    if q > 1.0 {
      MulPositive(q - 1.0, m);
      assert false;
    }
    if q < -1.0 {
      MulPositive(-1.0 - q, m);
      assert false;
    }
  }

  /** Before remapping, u and v lie in [-1,1]: the other two components
      are no larger in magnitude than the dominant one. */
  lemma RawCoordinatesBounded(d: Vec3)
    requires d != Zero
    ensures var p := SelectFace(d); -1.0 <= p.u <= 1.0 && -1.0 <= p.v <= 1.0
  {
    var ax := Abs(d.x);
    var ay := Abs(d.y);
    var az := Abs(d.z);
    if ax >= ay && ax >= az {
      RatioBounded(d.z, ax);
      RatioBounded(-d.z, ax);
      RatioBounded(-d.y, ax);
    } else if ay >= ax && ay >= az {
      RatioBounded(d.x, ay);
      RatioBounded(d.z, ay);
      RatioBounded(-d.z, ay);
    } else {
      RatioBounded(d.x, az);
      RatioBounded(-d.x, az);
      RatioBounded(-d.y, az);
    }
  }

  /** The clamp never changes the remapped coordinates: they already lie in
      [0,1]. */
  lemma ClampIsNoOp(d: Vec3)
    requires d != Zero
    ensures var raw := SelectFace(d); var p := FaceCoordinates(d);
      p.face == raw.face && p.u == Remap(raw.u) && p.v == Remap(raw.v)
  {
    RawCoordinatesBounded(d);
  }

  /** |k a| = k |a| for k > 0. */
  lemma AbsScale(a: real, k: real)
    requires k > 0.0
    ensures Abs(k * a) == k * Abs(a)
  {
    if a < 0.0 {
      MulPositive(k, -a);
    } else {
      MulNonNegative(k, a);
    }
  }

  /** Scaling numerator and denominator by the same k > 0 keeps the ratio. */
  lemma RatioScale(a: real, m: real, k: real)
    requires m != 0.0 && k > 0.0
    ensures (k * a) / (k * m) == a / m
  {
    var q := a / m;
    var km := k * m;
    assert km != 0.0 by {
      if m > 0.0 {
        MulPositive(k, m);
      } else {
        MulPositive(k, -m);
      }
    }
    assert q * m == a;
    assert q * km == k * a;
    Cancel((k * a) / km, q, km);
  }

  /** x c = y c with c != 0 gives x = y. */
  lemma Cancel(x: real, y: real, c: real)
    requires c != 0.0 && x * c == y * c
    ensures x == y
  {
    assert (x - y) * c == 0.0;
  }

  /** The face and its coordinates depend only on the direction of d, not
      on its length, so normalizing d first changes nothing. */
  lemma {:induction false} SelectFaceScaleInvariant(d: Vec3, k: real)
    requires d != Zero && k > 0.0
    ensures d.Scale(k) != Zero
    ensures SelectFace(d.Scale(k)) == SelectFace(d)
  {
    var e := d.Scale(k);
    ScaledOrder(d, k);
    var ax, ay, az := Abs(d.x), Abs(d.y), Abs(d.z);
    if ax >= ay && ax >= az {
      XRatiosScaled(d, k);
      XFaceSame(d, e);
    } else if ay >= ax && ay >= az {
      YRatiosScaled(d, k);
      YFaceSame(d, e);
    } else {
      ZRatiosScaled(d, k);
      ZFaceSame(d, e);
    }
  }

  /** Scaling by k > 0 keeps d nonzero, the order of the magnitudes and the
      sign of each component. */
  lemma ScaledOrder(d: Vec3, k: real)
    requires d != Zero && k > 0.0
    ensures var e := d.Scale(k); e != Zero
    ensures var e := d.Scale(k);
      (Abs(e.x) >= Abs(e.y) <==> Abs(d.x) >= Abs(d.y)) && (Abs(e.y) >= Abs(e.x) <==> Abs(d.y) >= Abs(d.x))
    ensures var e := d.Scale(k);
      (Abs(e.x) >= Abs(e.z) <==> Abs(d.x) >= Abs(d.z)) && (Abs(e.z) >= Abs(e.x) <==> Abs(d.z) >= Abs(d.x))
    ensures var e := d.Scale(k);
      (Abs(e.y) >= Abs(e.z) <==> Abs(d.y) >= Abs(d.z)) && (Abs(e.z) >= Abs(e.y) <==> Abs(d.z) >= Abs(d.y))
    ensures var e := d.Scale(k);
      (e.x > 0.0 <==> d.x > 0.0) && (e.y > 0.0 <==> d.y > 0.0) && (e.z > 0.0 <==> d.z > 0.0)
  {
    PairOrderScaled(d, k);
    ScaledSigns(d, k);
  }

  /** Scaling keeps the order of the magnitudes of each pair of components. */
  lemma PairOrderScaled(d: Vec3, k: real)
    requires k > 0.0
    ensures var e := d.Scale(k);
      (Abs(e.x) >= Abs(e.y) <==> Abs(d.x) >= Abs(d.y)) && (Abs(e.y) >= Abs(e.x) <==> Abs(d.y) >= Abs(d.x))
    ensures var e := d.Scale(k);
      (Abs(e.x) >= Abs(e.z) <==> Abs(d.x) >= Abs(d.z)) && (Abs(e.z) >= Abs(e.x) <==> Abs(d.z) >= Abs(d.x))
    ensures var e := d.Scale(k);
      (Abs(e.y) >= Abs(e.z) <==> Abs(d.y) >= Abs(d.z)) && (Abs(e.z) >= Abs(e.y) <==> Abs(d.z) >= Abs(d.y))
  {
    ComponentOrderScaled(d, k, 0, 1);
    ComponentOrderScaled(d, k, 1, 0);
    ComponentOrderScaled(d, k, 0, 2);
    ComponentOrderScaled(d, k, 2, 0);
    ComponentOrderScaled(d, k, 1, 2);
    ComponentOrderScaled(d, k, 2, 1);
  }

  /** Scaling by k > 0 keeps the order of the magnitudes of components n
      and m. */
  lemma ComponentOrderScaled(d: Vec3, k: real, n: int, m: int)
    requires k > 0.0
    ensures var e := d.Scale(k);
      Abs(Component(e, n)) >= Abs(Component(e, m)) <==> Abs(Component(d, n)) >= Abs(Component(d, m))
  {
    ComponentScaled(d, k, n);
    ComponentScaled(d, k, m);
    var e := d.Scale(k);
    OrderOfScaled(Component(d, n), Component(d, m), Component(e, n), Component(e, m), k);
  }

  /** ea = k a and eb = k b with k > 0 have magnitudes in the order of those
      of a and b. */
  lemma OrderOfScaled(a: real, b: real, ea: real, eb: real, k: real)
    requires k > 0.0 && ea == k * a && eb == k * b
    ensures (Abs(ea) >= Abs(eb) <==> Abs(a) >= Abs(b)) && (Abs(eb) >= Abs(ea) <==> Abs(b) >= Abs(a))
  {
    MagnitudesScaled(a, b, k);
  }

  /** Scaling by k > 0 keeps d nonzero and the sign of each component. */
  lemma ScaledSigns(d: Vec3, k: real)
    requires d != Zero && k > 0.0
    ensures var e := d.Scale(k); e != Zero
    ensures var e := d.Scale(k);
      (e.x > 0.0 <==> d.x > 0.0) && (e.y > 0.0 <==> d.y > 0.0) && (e.z > 0.0 <==> d.z > 0.0)
  {
    MagnitudesScaled(d.x, d.y, k);
    MagnitudesScaled(d.y, d.z, k);
  }

  /** Scaling a and b by k > 0 keeps the order of their magnitudes, their
      signs and whether they are 0. */
  lemma MagnitudesScaled(a: real, b: real, k: real)
    requires k > 0.0
    ensures (Abs(k * a) >= Abs(k * b) <==> Abs(a) >= Abs(b)) && (Abs(k * b) >= Abs(k * a) <==> Abs(b) >= Abs(a))
    ensures (k * a > 0.0 <==> a > 0.0) && (k * b > 0.0 <==> b > 0.0)
    ensures (k * a == 0.0 <==> a == 0.0) && (k * b == 0.0 <==> b == 0.0)
  {
    AbsScale(a, k);
    AbsScale(b, k);
    PairScaled(Abs(a), Abs(b), Abs(k * a), Abs(k * b), k);
    SignScaled(a, k);
    SignScaled(b, k);
    SignScaled(-a, k);
    SignScaled(-b, k);
    assert k * -a == -(k * a) && k * -b == -(k * b);
  }

  /** ea = k a and eb = k b with k > 0 compare as a and b do. */
  lemma PairScaled(a: real, b: real, ea: real, eb: real, k: real)
    requires k > 0.0 && ea == k * a && eb == k * b
    ensures (ea >= eb <==> a >= b) && (ea > eb <==> a > b) && (eb >= ea <==> b >= a)
  {
    assert ea - eb == k * (a - b);
    SignScaled(a - b, k);
  }

  /** k x has the sign of x for k > 0. */
  lemma SignScaled(x: real, k: real)
    requires k > 0.0
    ensures (k * x > 0.0 <==> x > 0.0) && (k * x >= 0.0 <==> x >= 0.0)
  {
    if x > 0.0 {
      MulPositive(k, x);
    } else if x < 0.0 {
      MulPositive(k, -x);
      assert k * -x == -(k * x);
    }
  }

  /** A quantity over the magnitude of another is unchanged when both are
      scaled by the same k > 0. */
  lemma RatioOfScaled(ea: real, em: real, a: real, m: real, k: real)
    requires m != 0.0 && k > 0.0 && ea == k * a && em == k * m
    ensures ea / Abs(em) == a / Abs(m)
  {
    var am := Abs(m);
    AbsScale(m, k);
    assert Abs(em) == k * am;
    RatioScale(a, am, k);
    assert ea / Abs(em) == (k * a) / (k * am);
  }

  /** (-x) / y = -(x / y). */
  lemma NegatedQuotient(x: real, y: real)
    requires y != 0.0
    ensures (-x) / y == -(x / y)
  {
    assert (-(x / y)) * y == -x;
  }

  /** Component n of d over the magnitude of component m is unchanged by
      scaling d by k > 0. */
  lemma ComponentRatioScaled(d: Vec3, k: real, n: int, m: int)
    requires k > 0.0 && 0 <= n < 3 && 0 <= m < 3 && Component(d, m) != 0.0
    ensures var e := d.Scale(k);
      Component(e, n) / Abs(Component(e, m)) == Component(d, n) / Abs(Component(d, m))
  {
    ComponentScaled(d, k, n);
    ComponentScaled(d, k, m);
    var e := d.Scale(k);
    RatioOfScaled(Component(e, n), Component(e, m), Component(d, n), Component(d, m), k);
  }

  lemma ComponentScaled(d: Vec3, k: real, n: int)
    ensures Component(d.Scale(k), n) == k * Component(d, n)
  {
  }

  /** On an X face the scaled direction has the same (u, v) ratios. */
  lemma XRatiosScaled(d: Vec3, k: real)
    requires k > 0.0 && d.x != 0.0
    ensures var e := d.Scale(k); var ax, ex := Abs(d.x), Abs(e.x);
      e.z / ex == d.z / ax && -e.z / ex == -d.z / ax && -e.y / ex == -d.y / ax
  {
    var e := d.Scale(k);
    ComponentRatioScaled(d, k, 2, 0);
    ComponentRatioScaled(d, k, 1, 0);
    NegatedQuotient(e.z, Abs(e.x));
    NegatedQuotient(d.z, Abs(d.x));
    NegatedQuotient(e.y, Abs(e.x));
    NegatedQuotient(d.y, Abs(d.x));
  }

  /** On a Y face the scaled direction has the same (u, v) ratios. */
  lemma YRatiosScaled(d: Vec3, k: real)
    requires k > 0.0 && d.y != 0.0
    ensures var e := d.Scale(k); var ay, ey := Abs(d.y), Abs(e.y);
      e.x / ey == d.x / ay && e.z / ey == d.z / ay && -e.z / ey == -d.z / ay
  {
    var e := d.Scale(k);
    ComponentRatioScaled(d, k, 0, 1);
    ComponentRatioScaled(d, k, 2, 1);
    NegatedQuotient(e.z, Abs(e.y));
    NegatedQuotient(d.z, Abs(d.y));
  }

  /** On a Z face the scaled direction has the same (u, v) ratios. */
  lemma ZRatiosScaled(d: Vec3, k: real)
    requires k > 0.0 && d.z != 0.0
    ensures var e := d.Scale(k); var az, ez := Abs(d.z), Abs(e.z);
      e.x / ez == d.x / az && -e.x / ez == -d.x / az && -e.y / ez == -d.y / az
  {
    var e := d.Scale(k);
    ComponentRatioScaled(d, k, 0, 2);
    ComponentRatioScaled(d, k, 1, 2);
    NegatedQuotient(e.x, Abs(e.z));
    NegatedQuotient(d.x, Abs(d.z));
    NegatedQuotient(e.y, Abs(e.z));
    NegatedQuotient(d.y, Abs(d.z));
  }

  /** Two directions that agree on order, sign and ratios on an X face
      select the same point. */
  lemma XFaceSame(d: Vec3, e: Vec3)
    requires d != Zero && e != Zero
    requires Abs(d.x) >= Abs(d.y) && Abs(d.x) >= Abs(d.z) && Abs(e.x) >= Abs(e.y) && Abs(e.x) >= Abs(e.z)
    requires (e.x > 0.0 <==> d.x > 0.0)
    requires e.z / Abs(e.x) == d.z / Abs(d.x) && -e.z / Abs(e.x) == -d.z / Abs(d.x)
    requires -e.y / Abs(e.x) == -d.y / Abs(d.x)
    ensures SelectFace(e) == SelectFace(d)
  {
  }

  lemma YFaceSame(d: Vec3, e: Vec3)
    requires d != Zero && e != Zero
    requires !(Abs(d.x) >= Abs(d.y) && Abs(d.x) >= Abs(d.z)) && Abs(d.y) >= Abs(d.x) && Abs(d.y) >= Abs(d.z)
    requires !(Abs(e.x) >= Abs(e.y) && Abs(e.x) >= Abs(e.z)) && Abs(e.y) >= Abs(e.x) && Abs(e.y) >= Abs(e.z)
    requires (e.y > 0.0 <==> d.y > 0.0)
    requires e.x / Abs(e.y) == d.x / Abs(d.y) && e.z / Abs(e.y) == d.z / Abs(d.y)
    requires -e.z / Abs(e.y) == -d.z / Abs(d.y)
    ensures SelectFace(e) == SelectFace(d)
  {
  }

  lemma ZFaceSame(d: Vec3, e: Vec3)
    requires d != Zero && e != Zero
    requires !(Abs(d.x) >= Abs(d.y) && Abs(d.x) >= Abs(d.z)) && !(Abs(d.y) >= Abs(d.x) && Abs(d.y) >= Abs(d.z))
    requires !(Abs(e.x) >= Abs(e.y) && Abs(e.x) >= Abs(e.z)) && !(Abs(e.y) >= Abs(e.x) && Abs(e.y) >= Abs(e.z))
    requires (e.z > 0.0 <==> d.z > 0.0)
    requires e.x / Abs(e.z) == d.x / Abs(d.z) && -e.x / Abs(e.z) == -d.x / Abs(d.z)
    requires -e.y / Abs(e.z) == -d.y / Abs(d.z)
    ensures SelectFace(e) == SelectFace(d)
  {
  }

  /** Each axis direction looks at the centre of its own face. */
  lemma AxisDirectionsHitFaceCentres()
    ensures FaceCoordinates(Vec3(1.0, 0.0, 0.0)) == FacePoint(0, 0.5, 0.5)
    ensures FaceCoordinates(Vec3(-1.0, 0.0, 0.0)) == FacePoint(1, 0.5, 0.5)
    ensures FaceCoordinates(Vec3(0.0, 1.0, 0.0)) == FacePoint(2, 0.5, 0.5)
    ensures FaceCoordinates(Vec3(0.0, -1.0, 0.0)) == FacePoint(3, 0.5, 0.5)
    ensures FaceCoordinates(Vec3(0.0, 0.0, 1.0)) == FacePoint(4, 0.5, 0.5)
    ensures FaceCoordinates(Vec3(0.0, 0.0, -1.0)) == FacePoint(5, 0.5, 0.5)
  {
    assert SelectFace(Vec3(1.0, 0.0, 0.0)) == FacePoint(0, 0.0, 0.0);
    assert SelectFace(Vec3(-1.0, 0.0, 0.0)) == FacePoint(1, 0.0, 0.0);
    assert SelectFace(Vec3(0.0, 1.0, 0.0)) == FacePoint(2, 0.0, 0.0);
    assert SelectFace(Vec3(0.0, -1.0, 0.0)) == FacePoint(3, 0.0, 0.0);
    assert SelectFace(Vec3(0.0, 0.0, 1.0)) == FacePoint(4, 0.0, 0.0);
    assert SelectFace(Vec3(0.0, 0.0, -1.0)) == FacePoint(5, 0.0, 0.0);
  }

  /** The six face textures, slot n for face n; an empty slot holds
      no texture. */
  class CubeMap {
    const tMap: array<Option<Texture>>

    predicate Valid()
      reads this
    {
      tMap.Length == 6
    }

    /** A new cube map has all six slots empty. */
    constructor()
      ensures Valid() && fresh(tMap)
      ensures forall n :: 0 <= n < 6 ==> tMap[n] == None
    {
      tMap := new Option<Texture>[6](_ => None);
    }

    /** The colour along direction d: the face texture sampled at the face
        coordinates, or black for a face without a texture. */
    function FaceColor(d: Vec3): (c: Vec3)
      requires Valid() && d != Zero
      reads this, tMap
      ensures UnitColor(c)
      ensures tMap[FaceCoordinates(d).face].None? ==> c == Zero
    {
      var p := FaceCoordinates(d);
      match tMap[p.face]
      case None => Zero
      case Some(t) => GetMappedValue(t, Vec2(p.u, p.v))
    }

    /** getColor(r): the colour along the normalized ray direction. */
    function GetColor(m: Math, r: Ray): (c: Vec3)
      requires Valid() && m.normalize(r.direction) != Zero
      reads this, tMap
      ensures UnitColor(c)
    {
      FaceColor(m.normalize(r.direction))
    }

    /** When normalize returns a positive multiple of the direction, the
        colour is the one looked up along the raw direction. */
    lemma {:induction false} ColorIgnoresLength(m: Math, r: Ray, k: real)
      requires Valid() && r.direction != Zero && k > 0.0
      requires m.normalize(r.direction) == r.direction.Scale(k)
      ensures m.normalize(r.direction) != Zero
      ensures GetColor(m, r) == FaceColor(r.direction)
    {
      SelectFaceScaleInvariant(r.direction, k);
    }

    /** setNthMap(n, m): slot n holds m afterwards and no other slot
        changes; storing the texture already there changes nothing. */
    method SetNthMap(n: int, m: Option<Texture>)
      requires Valid() && 0 <= n < 6
      modifies tMap
      ensures tMap[..] == old(tMap[..])[n := m]
      ensures m == old(tMap[n]) ==> unchanged(tMap)
    {
      if m != tMap[n] {
        tMap[n] := m;
      }
    }
  }
}
