/** Material::shade: the Phong model at a surface point, an ambient term plus
    one attenuated diffuse-and-specular term per light. */
module Shading {
  import opened Vectors
  import opened Rays
  import opened Materials
  import opened Lights
  import opened Scenes

  /** std::max(0.0, a): the cosine factors never go negative. */
  function NonNegative(a: real): (r: real)
    ensures r >= 0.0 && r >= a
    ensures a >= 0.0 ==> r == a
    ensures a < 0.0 ==> r == 0.0
  {
    MaxReal(0.0, a)
  }

  /** ka * the scene's ambient light. */
  function AmbientTerm(mat: Material, s: Scene, i: Isect): Vec3 {
    Value(mat.ka, i.uv).Mul(s.ambient)
  }

  /** The contribution of one light at the hit point P = r.at(t):
      atten * shadow * (kd * color * max(0, N.L) + ks * color * max(0, R.V)^shininess),
      with N and V the normalized normal and view direction, L the normalized
      direction to the light and R the reflection of -L about N. */
  function LightTerm(mat: Material, s: Scene, m: Math, r: Ray, i: Isect, l: Light): Vec3 {
    var N := m.normalize(i.normal);
    var V := m.normalize(r.direction.Neg());
    var P := r.At(i.t);
    var L := m.normalize(GetDirection(l, m, P));
    var nDotL := NonNegative(N.Dot(L));
    var atten := DistanceAttenuation(l, P);
    var R := Reflect(L.Neg(), N);
    var rDotV := NonNegative(R.Dot(V));
    var diffuse := Value(mat.kd, i.uv).Mul(l.color).Scale(nDotL);
    var specular := Value(mat.ks, i.uv).Mul(l.color).Scale(m.pow(rDotV, IntensityValue(mat.shininess, i.uv)));
    var shadow := ShadowAttenuation(l, s.intersect, m, P);
    shadow.Scale(atten).Mul(diffuse.Add(specular))
  }

  /** The ambient term followed by the terms of `ls`, added in order. */
  function LitColor(mat: Material, s: Scene, m: Math, r: Ray, i: Isect, ls: seq<Light>): Vec3
    decreases |ls|
  {
    if |ls| == 0 then AmbientTerm(mat, s, i)
    else LitColor(mat, s, m, r, i, ls[..|ls| - 1]).Add(LightTerm(mat, s, m, r, i, ls[|ls| - 1]))
  }

  /** The local colour of the hit `i` on `mat` under all lights of the scene. */
  function ShadeColor(mat: Material, s: Scene, m: Math, r: Ray, i: Isect): Vec3 {
    LitColor(mat, s, m, r, i, s.lights)
  }

  /** Material::shade: the ambient term, then one term per light in the
      scene's order. */
  method Shade(mat: Material, s: Scene, m: Math, r: Ray, i: Isect) returns (color: Vec3)
    ensures color == ShadeColor(mat, s, m, r, i)
  {
    color := AmbientTerm(mat, s, i);
    for k := 0 to |s.lights|
      invariant color == LitColor(mat, s, m, r, i, s.lights[..k])
    {
      color := color.Add(LightTerm(mat, s, m, r, i, s.lights[k]));
      assert s.lights[..k + 1][..k] == s.lights[..k];
    }
    assert s.lights[..|s.lights|] == s.lights;
  }

  /** Without lights only the ambient term remains. */
  lemma NoLightsIsAmbient(mat: Material, s: Scene, m: Math, r: Ray, i: Isect)
    requires s.lights == []
    ensures ShadeColor(mat, s, m, r, i) == AmbientTerm(mat, s, i)
  {
  }

  /** A light whose shadow factor is all zeros contributes nothing. */
  lemma ShadowedLightAddsNothing(mat: Material, s: Scene, m: Math, r: Ray, i: Isect, l: Light)
    requires ShadowAttenuation(l, s.intersect, m, r.At(i.t)) == Zero
    ensures LightTerm(mat, s, m, r, i, l) == Zero
  {
    var atten := DistanceAttenuation(l, r.At(i.t));
    assert forall v: Vec3 :: Zero.Scale(atten).Mul(v) == Zero;
  }

  /** If every light is blocked at the hit point, the colour is the ambient
      term alone. */
  lemma {:induction false} AllShadowedIsAmbient(mat: Material, s: Scene, m: Math, r: Ray, i: Isect, ls: seq<Light>)
    requires forall k :: 0 <= k < |ls| ==> ShadowAttenuation(ls[k], s.intersect, m, r.At(i.t)) == Zero
    ensures LitColor(mat, s, m, r, i, ls) == AmbientTerm(mat, s, i)
  {
    if |ls| > 0 {
      var init := ls[..|ls| - 1];
      assert forall k :: 0 <= k < |init| ==> init[k] == ls[k];
      AllShadowedIsAmbient(mat, s, m, r, i, init);
      ShadowedLightAddsNothing(mat, s, m, r, i, ls[|ls| - 1]);
    }
  }

  /** One unblocked light facing a purely diffuse white surface head-on
      (N.L = 1, ka = ks = 0, kd = 1): the shade is the light's colour scaled
      by its distance attenuation. */
  lemma DiffuseSurfaceUnderOneLight(mat: Material, s: Scene, m: Math, r: Ray, i: Isect, l: Light)
    requires s.lights == [l]
    requires mat.ka.texture.None? && mat.ka.constant == Zero
    requires mat.kd.texture.None? && mat.kd.constant == Ones
    requires mat.ks.texture.None? && mat.ks.constant == Zero
    requires ShadowAttenuation(l, s.intersect, m, r.At(i.t)) == Ones
    requires m.normalize(i.normal).Dot(m.normalize(GetDirection(l, m, r.At(i.t)))) == 1.0
    ensures ShadeColor(mat, s, m, r, i) == l.color.Scale(DistanceAttenuation(l, r.At(i.t)))
  {
    var P := r.At(i.t);
    var N := m.normalize(i.normal);
    var L := m.normalize(GetDirection(l, m, P));
    var a := DistanceAttenuation(l, P);
    assert NonNegative(N.Dot(L)) == 1.0;
    var diffuse := Ones.Mul(l.color).Scale(1.0);
    assert diffuse == l.color;
    assert Value(mat.kd, i.uv) == Ones;
    assert Value(mat.ks, i.uv) == Zero;
    assert Zero.Mul(l.color).Scale(m.pow(NonNegative(Reflect(L.Neg(), N).Dot(m.normalize(r.direction.Neg()))), IntensityValue(mat.shininess, i.uv))) == Zero;
    assert LightTerm(mat, s, m, r, i, l) == Ones.Scale(a).Mul(l.color.Add(Zero));
    assert Ones.Scale(a).Mul(l.color.Add(Zero)) == l.color.Scale(a);
    assert s.lights[..0] == [];
    assert AmbientTerm(mat, s, i) == Zero.Mul(s.ambient);
    assert LitColor(mat, s, m, r, i, s.lights) ==
      LitColor(mat, s, m, r, i, []).Add(LightTerm(mat, s, m, r, i, l));
    assert Zero.Mul(s.ambient).Add(l.color.Scale(a)) == l.color.Scale(a);
  }
}
