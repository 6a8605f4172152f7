/** TextureMap::getMappedValue and TextureMap::getPixelAt: bilinear lookup in
    a decoded row-major RGB byte image with a top-left origin. */
module Textures {
  import opened Vectors

  /** A decoded image: `width * height` pixels, three bytes each, row by row
      from the top-left corner. A map whose image could not be read has
      width and height 0 and no data. */
  datatype TextureMap = TextureMap(width: int, height: int, data: seq<byte>) {
    predicate Valid() {
      width >= 0 && height >= 0 && |data| == width * height * 3
    }
  }

  type Texture = t: TextureMap | t.Valid() witness TextureMap(0, 0, [])

  /** std::max(0, std::min(x, n - 1)). */
  function ClampIndex(x: int, n: int): (r: int)
    requires n > 0
    ensures 0 <= r < n
    ensures 0 <= x < n ==> r == x
    ensures x < 0 ==> r == 0
    ensures x >= n ==> r == n - 1
  {
    MaxInt(0, MinInt(x, n - 1))
  }

  /** Offset of the first byte of pixel (x, y) once both coordinates are
      clamped to the image; the three bytes from there are all in bounds. */
  function PixelIndex(t: Texture, x: int, y: int): (idx: int)
    requires t.width > 0 && t.height > 0
    ensures 0 <= idx && idx + 3 <= |t.data|
    ensures 0 <= x < t.width && 0 <= y < t.height ==> idx == (x + y * t.width) * 3
  {
    var cx := ClampIndex(x, t.width);
    var cy := ClampIndex(y, t.height);
    FlatIndexInBounds(cx, cy, t.width, t.height);
    (cy * t.width + cx) * 3
  }

  /** The colour of pixel (x, y), each channel a stored byte over 255. */
  function GetPixelAt(t: Texture, x: int, y: int): (c: Vec3)
    requires t.width > 0 && t.height > 0
    ensures UnitColor(c)
  {
    var idx := PixelIndex(t, x, y);
    Vec3(ByteToUnit(t.data[idx]), ByteToUnit(t.data[idx + 1]), ByteToUnit(t.data[idx + 2]))
  }

  /** Out-of-range pixel coordinates read the nearest border pixel. */
  lemma PixelAtClamps(t: Texture, x: int, y: int)
    requires t.width > 0 && t.height > 0
    ensures GetPixelAt(t, x, y) == GetPixelAt(t, ClampIndex(x, t.width), ClampIndex(y, t.height))
    ensures x < 0 ==> GetPixelAt(t, x, y) == GetPixelAt(t, 0, y)
    ensures x >= t.width ==> GetPixelAt(t, x, y) == GetPixelAt(t, t.width - 1, y)
    ensures y < 0 ==> GetPixelAt(t, x, y) == GetPixelAt(t, x, 0)
    ensures y >= t.height ==> GetPixelAt(t, x, y) == GetPixelAt(t, x, t.height - 1)
  {
  }

  /** Image-space position of the texture coordinate: u and v clamped to
      [0,1], x = u (width - 1) and, with the V axis flipped,
      y = (1 - v) (height - 1). */
  function ImageX(width: int, coord: Vec2): (x: real)
    requires width > 0
    ensures 0.0 <= x <= (width - 1) as real
  {
    var u := Clamp(coord.x, 0.0, 1.0);
    FractionOf(u, (width - 1) as real);
    u * (width - 1) as real
  }

  function ImageY(height: int, coord: Vec2): (y: real)
    requires height > 0
    ensures 0.0 <= y <= (height - 1) as real
  {
    var v := Clamp(coord.y, 0.0, 1.0);
    FractionOf(1.0 - v, (height - 1) as real);
    (1.0 - v) * (height - 1) as real
  }

  /** Bilinear blend at the image-space point (x, y): the four pixels around
      it, blended first along x, then along y, with the fractional parts as
      weights. */
  function Bilinear(t: Texture, x: real, y: real): (c: Vec3)
    requires t.width > 0 && t.height > 0
    ensures UnitColor(c)
  {
    var x0 := x.Floor;
    var y0 := y.Floor;
    var x1 := x0 + 1;
    var y1 := y0 + 1;
    var sx := x - x0 as real;
    var sy := y - y0 as real;
    var c00 := GetPixelAt(t, x0, y0);
    var c10 := GetPixelAt(t, x1, y0);
    var c01 := GetPixelAt(t, x0, y1);
    var c11 := GetPixelAt(t, x1, y1);
    var c0 := LerpColor(c00, c10, sx);
    var c1 := LerpColor(c01, c11, sx);
    LerpColorInUnit(c00, c10, sx);
    LerpColorInUnit(c01, c11, sx);
    LerpColorInUnit(c0, c1, sy);
    LerpColor(c0, c1, sy)
  }

  /** The texture's colour at `coord`: a convex combination of four stored
      pixels, so every channel is in [0,1]. A map without pixels samples as
      white and its data is not read. */
  function GetMappedValue(t: Texture, coord: Vec2): (c: Vec3)
    ensures UnitColor(c)
    ensures t.width == 0 || t.height == 0 ==> c == Ones
  {
    if t.width == 0 || t.height == 0 then Ones
    else Bilinear(t, ImageX(t.width, coord), ImageY(t.height, coord))
  }

  /** Texture coordinates are clamped before use. */
  lemma MappedValueClampsCoordinates(t: Texture, u: real, v: real)
    ensures u < 0.0 ==> GetMappedValue(t, Vec2(u, v)) == GetMappedValue(t, Vec2(0.0, v))
    ensures u > 1.0 ==> GetMappedValue(t, Vec2(u, v)) == GetMappedValue(t, Vec2(1.0, v))
    ensures v < 0.0 ==> GetMappedValue(t, Vec2(u, v)) == GetMappedValue(t, Vec2(u, 0.0))
    ensures v > 1.0 ==> GetMappedValue(t, Vec2(u, v)) == GetMappedValue(t, Vec2(u, 1.0))
  {
    if t.width > 0 && t.height > 0 {
      var c := Vec2(u, v);
      if u < 0.0 {
        SameImagePoint(t, c, Vec2(0.0, v));
      }
      if u > 1.0 {
        SameImagePoint(t, c, Vec2(1.0, v));
      }
      if v < 0.0 {
        SameImagePoint(t, c, Vec2(u, 0.0));
      }
      if v > 1.0 {
        SameImagePoint(t, c, Vec2(u, 1.0));
      }
    }
  }

  /** Coordinates with the same clamped values sample the same colour. */
  lemma SameImagePoint(t: Texture, a: Vec2, b: Vec2)
    requires t.width > 0 && t.height > 0
    requires Clamp(a.x, 0.0, 1.0) == Clamp(b.x, 0.0, 1.0) && Clamp(a.y, 0.0, 1.0) == Clamp(b.y, 0.0, 1.0)
    ensures GetMappedValue(t, a) == GetMappedValue(t, b)
  {
    assert ImageX(t.width, a) == ImageX(t.width, b);
    assert ImageY(t.height, a) == ImageY(t.height, b);
  }

  /** Where the image-space point is a pixel (px, py) exactly, both blend
      weights are zero and the sample is that pixel's stored colour. */
  lemma {:induction false} MappedValueAtPixel(t: Texture, coord: Vec2, px: int, py: int)
    requires t.width > 0 && t.height > 0
    requires ImageX(t.width, coord) == px as real && ImageY(t.height, coord) == py as real
    ensures GetMappedValue(t, coord) == GetPixelAt(t, px, py)
  {
    assert (px as real).Floor == px;
    assert (py as real).Floor == py;
    assert GetMappedValue(t, coord) == Bilinear(t, px as real, py as real);
    var c0 := LerpColor(GetPixelAt(t, px, py), GetPixelAt(t, px + 1, py), 0.0);
    var c1 := LerpColor(GetPixelAt(t, px, py + 1), GetPixelAt(t, px + 1, py + 1), 0.0);
    assert c0 == GetPixelAt(t, px, py);
    assert LerpColor(c0, c1, 0.0) == c0;
  }

  /** u = 0 and u = 1 land on the first and last column, v = 1 and v = 0
      on the first and last row. */
  lemma ImageEnds(width: int, height: int, other: real)
    requires width > 0 && height > 0
    ensures ImageX(width, Vec2(0.0, other)) == 0.0 && ImageX(width, Vec2(1.0, other)) == (width - 1) as real
    ensures ImageY(height, Vec2(other, 1.0)) == 0.0 && ImageY(height, Vec2(other, 0.0)) == (height - 1) as real
  {
  }

  /** The V axis is flipped: v = 1 reads the top image row and v = 0 the
      bottom one, so the corners of UV space land on the image corners. */
  lemma MappedValueCorners(t: Texture)
    requires t.width > 0 && t.height > 0
    ensures GetMappedValue(t, Vec2(0.0, 1.0)) == GetPixelAt(t, 0, 0)
    ensures GetMappedValue(t, Vec2(1.0, 1.0)) == GetPixelAt(t, t.width - 1, 0)
    ensures GetMappedValue(t, Vec2(0.0, 0.0)) == GetPixelAt(t, 0, t.height - 1)
    ensures GetMappedValue(t, Vec2(1.0, 0.0)) == GetPixelAt(t, t.width - 1, t.height - 1)
  {
    ImageEnds(t.width, t.height, 0.0);
    ImageEnds(t.width, t.height, 1.0);
    MappedValueAtPixel(t, Vec2(0.0, 1.0), 0, 0);
    MappedValueAtPixel(t, Vec2(1.0, 1.0), t.width - 1, 0);
    MappedValueAtPixel(t, Vec2(0.0, 0.0), 0, t.height - 1);
    MappedValueAtPixel(t, Vec2(1.0, 0.0), t.width - 1, t.height - 1);
  }
}
