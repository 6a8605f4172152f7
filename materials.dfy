/** MaterialParameter::value and MaterialParameter::intensityValue, and the
    parameter set of a Material. */
module Materials {
  import opened Options
  import opened Vectors
  import opened Textures

  /** A material parameter: a constant colour and an optional texture map.
      When a texture is bound it takes precedence over the constant. */
  datatype MaterialParameter = MaterialParameter(constant: Vec3, texture: Option<Texture>)

  /** The parameters of a Phong material. Colours (ka, kd, ks, kr, kt) are
      resolved with Value, scalars (shininess, index) with IntensityValue. */
  datatype Material = Material(
    ka: MaterialParameter,
    kd: MaterialParameter,
    ks: MaterialParameter,
    kr: MaterialParameter,
    kt: MaterialParameter,
    shininess: MaterialParameter,
    index: MaterialParameter)

  /** The parameter's colour at surface coordinate `uv`: the texture sample
      when a texture is bound (a colour in [0,1]), otherwise the constant. */
  function Value(p: MaterialParameter, uv: Vec2): (c: Vec3)
    ensures p.texture.None? ==> c == p.constant
    ensures p.texture.Some? ==> c == GetMappedValue(p.texture.value, uv) && UnitColor(c)
  {
    match p.texture
    case Some(t) => GetMappedValue(t, uv)
    case None => p.constant
  }

  /** Luma with the weights 0.299, 0.587 and 0.114. */
  function Luminance(c: Vec3): real {
    0.299 * c.x + 0.587 * c.y + 0.114 * c.z
  }

  /** The scalar value of a parameter: the luminance of its colour. */
  function IntensityValue(p: MaterialParameter, uv: Vec2): (r: real)
    ensures p.texture.Some? ==> InUnit(r)
  {
    var c := Value(p, uv);
    LuminanceInUnit(c);
    Luminance(c)
  }

  /** The weights are non-negative and sum to 1, so the luminance of a
      colour in [0,1] is in [0,1], lying between its smallest and its largest
      channel. */
  lemma LuminanceInUnit(c: Vec3)
    ensures UnitColor(c) ==> InUnit(Luminance(c))
    ensures MinReal(c.x, MinReal(c.y, c.z)) <= Luminance(c) <= MaxReal(c.x, MaxReal(c.y, c.z))
  {
    var lo := MinReal(c.x, MinReal(c.y, c.z));
    var hi := MaxReal(c.x, MaxReal(c.y, c.z));
    MulMonotone(0.299, lo, c.x);
    MulMonotone(0.587, lo, c.y);
    MulMonotone(0.114, lo, c.z);
    MulMonotone(0.299, c.x, hi);
    MulMonotone(0.587, c.y, hi);
    MulMonotone(0.114, c.z, hi);
  }

  /** A grey constant (g, g, g) has intensity g. */
  lemma GreyIntensity(p: MaterialParameter, uv: Vec2)
    requires p.texture.None? && p.constant.x == p.constant.y == p.constant.z
    ensures IntensityValue(p, uv) == p.constant.x
  {
  }
}
