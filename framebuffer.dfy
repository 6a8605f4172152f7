/** The RayTracer object of RayTracer.cpp: a w*h*3 byte frame buffer filled
    pixel by pixel, row-major, from the traced colour of each pixel, and an
    optional supersampling pass that overwrites every pixel with the mean of
    several jittered samples. */
module Frame {
  import opened Options
  import opened Vectors
  import opened Rays
  import opened Scenes
  import opened Tracer

  /** C++ `(int)x` for a double: truncation toward zero. */
  function Trunc(x: real): (n: int)
    ensures x >= 0.0 ==> n as real <= x < n as real + 1.0
    ensures x < 0.0 ==> n as real - 1.0 < x <= n as real
  {
    if x >= 0.0 then x.Floor else -((-x).Floor)
  }

  /** A channel stored as `unsigned char`: `(int)(255.0 * c)`, reduced
      modulo 256 by the conversion to an unsigned 8-bit value. For a
      channel of [0,1] no reduction happens and the byte is floor(255 c). */
  function ByteOf(c: real): (b: byte)
    ensures InUnit(c) ==> b as int == (255.0 * c).Floor
  {
    (Trunc(255.0 * c) % 256) as byte
  }

  /** Storing a channel of [0,1] and reading it back loses less than 1/255,
      and never rounds up. */
  lemma {:induction false} QuantizationError(c: real)
    requires InUnit(c)
    ensures ByteToUnit(ByteOf(c)) <= c < ByteToUnit(ByteOf(c)) + 1.0 / 255.0
  {
    var b := ByteOf(c) as real;
    assert b <= 255.0 * c < b + 1.0;
    assert ByteToUnit(ByteOf(c)) == b / 255.0;
  }

  /** A stored byte read back and stored again is the same byte. */
  lemma {:induction false} ByteRoundTrip(b: byte)
    ensures ByteOf(ByteToUnit(b)) == b
  {
    var u := ByteToUnit(b);
    assert 255.0 * u == b as real;
    assert (255.0 * u).Floor == b as int;
  }

  /** The three bytes of a colour, red first. */
  function Encode(c: Vec3): (bytes: seq<byte>)
    ensures |bytes| == 3
    ensures UnitColor(c) ==>
      bytes[0] as int == (255.0 * c.x).Floor && bytes[1] as int == (255.0 * c.y).Floor &&
      bytes[2] as int == (255.0 * c.z).Floor
  {
    [ByteOf(c.x), ByteOf(c.y), ByteOf(c.z)]
  }

  /** The colour held by the three bytes at offset k, each divided by 255. */
  function DecodeAt(bytes: seq<byte>, k: int): (c: Vec3)
    requires 0 <= k && k + 3 <= |bytes|
    ensures UnitColor(c)
  {
    Vec3(ByteToUnit(bytes[k]), ByteToUnit(bytes[k + 1]), ByteToUnit(bytes[k + 2]))
  }

  /** Decoding a stored pixel and encoding it again gives back its bytes. */
  lemma {:induction false} DecodeEncode(bytes: seq<byte>, k: int)
    requires 0 <= k && k + 3 <= |bytes|
    ensures Encode(DecodeAt(bytes, k)) == bytes[k..k + 3]
  {
    ByteRoundTrip(bytes[k]);
    ByteRoundTrip(bytes[k + 1]);
    ByteRoundTrip(bytes[k + 2]);
  }

  /** The byte offset of pixel (i, j) in a row-major w-by-h RGB buffer;
      its three bytes lie inside the buffer's w*h*3. */
  function Offset(i: int, j: int, w: int, h: int): (k: int)
    requires 0 <= i < w && 0 <= j < h
    ensures 0 <= k && k + 3 <= w * h * 3
    ensures k == 3 * i + Area(j, w) && k + 3 <= Area(h, w)
  {
    FlatIndexInBounds(i, j, w, h);
    AreaIsProduct(j, w);
    AreaMonotone(j + 1, h, w);
    (i + j * w) * 3
  }

  /** `bytes` with the pixel at offset k overwritten by colour c: exactly
      the three bytes k, k+1, k+2 change. */
  function WithPixel(bytes: seq<byte>, k: int, c: Vec3): (r: seq<byte>)
    requires 0 <= k && k + 3 <= |bytes|
    ensures |r| == |bytes|
    ensures r[k..k + 3] == Encode(c)
    ensures forall q :: 0 <= q < |bytes| && !(k <= q < k + 3) ==> r[q] == bytes[q]
  {
    bytes[..k] + Encode(c) + bytes[k + 3..]
  }

  /** Reading a pixel back after writing colour c to it gives c quantized
      down to the byte grid. */
  lemma {:induction false} GetAfterSet(bytes: seq<byte>, k: int, c: Vec3)
    requires 0 <= k && k + 3 <= |bytes| && UnitColor(c)
    ensures var d := DecodeAt(WithPixel(bytes, k, c), k);
            d.x <= c.x < d.x + 1.0 / 255.0 && d.y <= c.y < d.y + 1.0 / 255.0 &&
            d.z <= c.z < d.z + 1.0 / 255.0
  {
    var r := WithPixel(bytes, k, c);
    assert r[k] == ByteOf(c.x) && r[k + 1] == ByteOf(c.y) && r[k + 2] == ByteOf(c.z) by {
      assert r[k..k + 3] == Encode(c);
      assert r[k] == r[k..k + 3][0];
      assert r[k + 1] == r[k..k + 3][1];
      assert r[k + 2] == r[k..k + 3][2];
    }
    QuantizationError(c.x);
    QuantizationError(c.y);
    QuantizationError(c.z);
  }

  /** The bytes written so far, `done`, laid over the buffer's initial
      contents `start`: the rest of `start` is still in place. */
  function Overlay(done: seq<byte>, start: seq<byte>): (r: seq<byte>)
  {
    if |done| <= |start| then done + start[|done|..] else done
  }

  /** Overlaying all of the buffer leaves nothing of its initial contents. */
  lemma OverlayFull(done: seq<byte>, start: seq<byte>)
    requires |done| == |start|
    ensures Overlay(done, start) == done
  {
  }

  /** Writing pixel i of row j, right after the bytes already written,
      extends them by that pixel's bytes. */
  lemma RowStep(prefix: seq<byte>, pic: Picture, j: int, i: nat, start: seq<byte>, buf: seq<byte>, c: Vec3)
    requires |prefix| + 3 * i + 3 <= |start|
    requires buf == Overlay(prefix + RowBytes(pic, j, i), start)
    requires c == pic(i, j)
    ensures |prefix| + 3 * i + 3 <= |buf|
    ensures WithPixel(buf, |prefix| + 3 * i, c) == Overlay(prefix + RowBytes(pic, j, i + 1), start)
  {
    var done := prefix + RowBytes(pic, j, i);
    var k := |done|;
    assert buf[..k] == done && buf[k + 3..] == start[k + 3..];
    assert prefix + RowBytes(pic, j, i + 1) == done + Encode(c);
  }

  function Zeros(n: nat): (z: seq<byte>)
    ensures |z| == n && forall q :: 0 <= q < n ==> z[q] == 0
  {
    seq(n, _ => 0)
  }

  /** RAND_MAX-scaled jitter offsets for sample k of pixel (i, j). */
  type Jitter = (int, int, int) -> (real, real)

  /** How a pixel's colour is produced: one ray through the pixel corner
      (tracePixel), or the mean of `samples` jittered rays (aaImage). */
  datatype Pass = Primary | Supersampled(samples: int, jitter: Jitter) {
    predicate Valid() { Supersampled? ==> samples > 0 }
  }

  /** Sample k of pixel (i, j): the jittered point ((i + dx)/w, (j + dy)/h). */
  function Sample(s: Scene, m: Math, depth: int, w: int, h: int, jitter: Jitter,
                  i: int, j: int, k: int): (c: Vec3)
    requires w > 0 && h > 0
    ensures UnitColor(c)
  {
    var offset := jitter(i, j, k);
    Trace(s, m, depth, (i as real + offset.0) / w as real, (j as real + offset.1) / h as real)
  }

  /** The samples of pixel (i, j), numbered from 0; each is a clamped
      colour. */
  function Samples(s: Scene, m: Math, depth: int, w: int, h: int, jitter: Jitter,
                   i: int, j: int): (f: int -> Vec3)
    requires w > 0 && h > 0
    ensures forall k :: UnitColor(f(k))
  {
    k => Sample(s, m, depth, w, h, jitter, i, j, k)
  }

  /** f(0) + ... + f(n-1), added in that order. */
  function SumOf(f: int -> Vec3, n: nat): Vec3 {
    if n == 0 then Zero else SumOf(f, n - 1).Add(f(n - 1))
  }

  /** Every channel of a sum of n colours of [0,1] lies in [0, n]. */
  lemma {:induction false} SumBounds(f: int -> Vec3, n: nat)
    requires forall k :: 0 <= k < n ==> UnitColor(f(k))
    ensures var c := SumOf(f, n);
            0.0 <= c.x <= n as real && 0.0 <= c.y <= n as real && 0.0 <= c.z <= n as real
  {
    if n > 0 {
      SumBounds(f, n - 1);
    }
  }

  /** aaImage's innermost loop: the sum of the `samples` jittered traces
      of pixel (i, j). */
  method SampleTotal(s: Scene, m: Math, depth: int, w: int, h: int, jitter: Jitter,
                     i: int, j: int, samples: int) returns (sum: Vec3)
    requires w > 0 && h > 0 && samples > 0
    ensures sum == SumOf(Samples(s, m, depth, w, h, jitter, i, j), samples)
  {
    sum := Zero;
    for k := 0 to samples
      invariant sum == SumOf(Samples(s, m, depth, w, h, jitter, i, j), k)
    {
      sum := sum.Add(Sample(s, m, depth, w, h, jitter, i, j, k));
    }
  }

  /** aaImage's per-pixel work: the sample total divided by `samples`,
      which is the pixel's colour in the supersampled picture. */
  method MeanSample(s: Scene, m: Math, depth: int, w: int, h: int, jitter: Jitter,
                    i: int, j: int, samples: int, ghost pic: Picture) returns (color: Vec3)
    requires w > 0 && h > 0 && samples > 0
    requires Renders(pic, s, m, depth, w, h, Supersampled(samples, jitter))
    ensures color == pic(i, j)
  {
    color := SampleTotal(s, m, depth, w, h, jitter, i, j, samples);
    color := color.Div(samples as real);
    assert color == PixelColor(s, m, depth, w, h, Supersampled(samples, jitter), i, j);
  }

  /** Two pictures that render the same pass have the same bytes. */
  lemma {:induction false} RenderedBytesAgree(p: Picture, q: Picture, s: Scene, m: Math, depth: int,
                                              w: int, h: int, pass: Pass, n: nat)
    requires pass.Valid() && 0 <= w && n <= h
    requires Renders(p, s, m, depth, w, h, pass) && Renders(q, s, m, depth, w, h, pass)
    ensures ImageBytes(p, w, n) == ImageBytes(q, w, n)
  {
    if n > 0 {
      RenderedBytesAgree(p, q, s, m, depth, w, h, pass, n - 1);
      RenderedRowsAgree(p, q, s, m, depth, w, h, pass, n - 1, w);
    }
  }

  lemma {:induction false} RenderedRowsAgree(p: Picture, q: Picture, s: Scene, m: Math, depth: int,
                                             w: int, h: int, pass: Pass, j: int, n: nat)
    requires pass.Valid() && 0 <= j < h && n <= w
    requires Renders(p, s, m, depth, w, h, pass) && Renders(q, s, m, depth, w, h, pass)
    ensures RowBytes(p, j, n) == RowBytes(q, j, n)
  {
    if n > 0 {
      RenderedRowsAgree(p, q, s, m, depth, w, h, pass, j, n - 1);
      assert p(n - 1, j) == PixelColor(s, m, depth, w, h, pass, n - 1, j) == q(n - 1, j);
    }
  }

  /** A picture of the pass, known only through Renders. */
  ghost method ChoosePicture(s: Scene, m: Math, depth: int, w: int, h: int, pass: Pass) returns (pic: Picture)
    requires pass.Valid()
    ensures Renders(pic, s, m, depth, w, h, pass)
  {
    pic := Rendered(s, m, depth, w, h, pass);
  }

  /** A value of [0, n] divided by n > 0 lies in [0,1]. */
  lemma MeanInUnit(a: real, n: real)
    requires n > 0.0 && 0.0 <= a <= n
    ensures InUnit(a / n)
  {
    assert a / n * n == a;
  }

  /** The colour a pass stores for pixel (i, j) of a w-by-h image. */
  function PixelColor(s: Scene, m: Math, depth: int, w: int, h: int, pass: Pass,
                      i: int, j: int): Vec3
    requires w > 0 && h > 0 && pass.Valid()
  {
    match pass
    case Primary => Trace(s, m, depth, i as real / w as real, j as real / h as real)
    case Supersampled(n, jitter) =>
      SumOf(Samples(s, m, depth, w, h, jitter, i, j), n).Div(n as real)
  }

  /** Both passes store colours of [0,1], so (int)(255 c) needs no
      wrap-around: every stored byte is floor(255 c) of its channel. */
  lemma {:induction false} StoredPixelExact(s: Scene, m: Math, depth: int, w: int, h: int,
                                            pass: Pass, i: int, j: int)
    requires w > 0 && h > 0 && pass.Valid()
    ensures UnitColor(PixelColor(s, m, depth, w, h, pass, i, j))
    ensures var c := PixelColor(s, m, depth, w, h, pass, i, j);
            Encode(c) == [(255.0 * c.x).Floor as byte, (255.0 * c.y).Floor as byte, (255.0 * c.z).Floor as byte]
  {
    match pass
    case Primary =>
    case Supersampled(n, jitter) =>
      SumBounds(Samples(s, m, depth, w, h, jitter, i, j), n);
      var sum := SumOf(Samples(s, m, depth, w, h, jitter, i, j), n);
      MeanInUnit(sum.x, n as real);
      MeanInUnit(sum.y, n as real);
      MeanInUnit(sum.z, n as real);
  }

  /** A colour for every pixel (i, j). */
  type Picture = (int, int) -> Vec3

  /** `pic` gives every pixel of a w-by-h image the colour the pass
      computes for it. */
  ghost predicate Renders(pic: Picture, s: Scene, m: Math, depth: int, w: int, h: int, pass: Pass)
    requires pass.Valid()
  {
    forall i, j {:trigger PixelColor(s, m, depth, w, h, pass, i, j)} ::
      w > 0 && h > 0 ==> pic(i, j) == PixelColor(s, m, depth, w, h, pass, i, j)
  }

  /** The picture a pass renders on a w-by-h image. An image without
      pixels has none to sample, and then the picture is black. */
  function Rendered(s: Scene, m: Math, depth: int, w: int, h: int, pass: Pass): (pic: Picture)
    requires pass.Valid()
    ensures Renders(pic, s, m, depth, w, h, pass)
  {
    (i: int, j: int) => if w > 0 && h > 0 then PixelColor(s, m, depth, w, h, pass, i, j) else Zero
  }

  /** The bytes of pixels 0 .. n-1 of row j. */
  function RowBytes(pic: Picture, j: int, n: nat): (r: seq<byte>)
    ensures |r| == 3 * n
  {
    if n == 0 then [] else RowBytes(pic, j, n - 1) + Encode(pic(n - 1, j))
  }

  /** The bytes of rows 0 .. n-1 of a w-wide picture, row-major. */
  function ImageBytes(pic: Picture, w: nat, n: nat): (r: seq<byte>)
    ensures |r| == Area(n, w)
  {
    if n == 0 then [] else ImageBytes(pic, w, n - 1) + RowBytes(pic, n - 1, w)
  }

  /** The pixel (i, j) of an image laid out row-major holds exactly the
      encoded colour of that pixel. */
  lemma {:induction false} ImageHoldsPixel(pic: Picture, w: int, h: int, i: int, j: int)
    requires 0 <= i < w && 0 <= j < h
    ensures ImageBytes(pic, w, h)[Offset(i, j, w, h)..Offset(i, j, w, h) + 3] == Encode(pic(i, j))
  {
    ImageHoldsAt(pic, w, h, i, j);
  }

  /** Pixel i of row j sits 3i bytes after the row's first byte. */
  lemma {:induction false} ImageHoldsAt(pic: Picture, w: nat, h: nat, i: int, j: int)
    requires 0 <= i < w && 0 <= j < h
    ensures Area(j, w) + 3 * i + 3 <= |ImageBytes(pic, w, h)|
    ensures ImageBytes(pic, w, h)[Area(j, w) + 3 * i..Area(j, w) + 3 * i + 3] == Encode(pic(i, j))
  {
    ImageHoldsRow(pic, w, j, h);
    RowHoldsPixel(pic, i, j, w);
    SliceChain(ImageBytes(pic, w, h), Area(j, w), Area(j, w) + 3 * w, 3 * i, 3 * i + 3,
               RowBytes(pic, j, w), Encode(pic(i, j)));
  }

  lemma {:induction false} RowHoldsPixel(pic: Picture, i: int, j: int, n: nat)
    requires 0 <= i < n
    ensures RowBytes(pic, j, n)[3 * i..3 * i + 3] == Encode(pic(i, j))
    decreases n
  {
    var prev := RowBytes(pic, j, n - 1);
    if i < n - 1 {
      RowHoldsPixel(pic, i, j, n - 1);
      assert (prev + Encode(pic(n - 1, j)))[3 * i..3 * i + 3] == prev[3 * i..3 * i + 3];
    } else {
      assert |prev| == 3 * i;
    }
  }

  lemma {:induction false} ImageHoldsRow(pic: Picture, w: nat, j: int, n: nat)
    requires 0 <= j < n
    ensures var img := ImageBytes(pic, w, n);
            Area(j, w) + 3 * w <= |img| && img[Area(j, w)..Area(j, w) + 3 * w] == RowBytes(pic, j, w)
    decreases n
  {
    var prev := ImageBytes(pic, w, n - 1);
    var last := RowBytes(pic, n - 1, w);
    var k := Area(j, w);
    if j < n - 1 {
      ImageHoldsRow(pic, w, j, n - 1);
      AreaMonotone(j + 1, n - 1, w);
      assert (prev + last)[k..k + 3 * w] == prev[k..k + 3 * w];
    } else {
      assert |prev| == k;
    }
  }

  /** A slice e of a slice r of q is the slice of q at the summed offsets. */
  lemma SliceChain(q: seq<byte>, a: int, b: int, c: int, d: int, r: seq<byte>, e: seq<byte>)
    requires 0 <= a <= b <= |q| && 0 <= c <= d <= b - a
    requires q[a..b] == r && r[c..d] == e
    ensures a + d <= |q| && q[a + c..a + d] == e
  {
    assert forall k :: 0 <= k < d - c ==> q[a..b][c..d][k] == q[a + c + k];
  }

  /** The number of bytes in n rows of a w-wide RGB image. */
  function Area(n: nat, w: nat): nat {
    if n == 0 then 0 else Area(n - 1, w) + 3 * w
  }

  lemma {:induction false} AreaIsProduct(n: nat, w: nat)
    ensures Area(n, w) == n * w * 3
  {
    if n > 0 {
      AreaIsProduct(n - 1, w);
      assert n * w * 3 == (n - 1) * w * 3 + 3 * w;
    }
  }

  lemma {:induction false} AreaMonotone(a: nat, b: nat, w: nat)
    requires a <= b
    ensures Area(a, w) <= Area(b, w)
    decreases b
  {
    if a < b {
      AreaMonotone(a, b - 1, w);
    }
  }

  /** The (i, j) pairs of row j, columns 0 .. n-1. */
  function RowVisits(j: int, n: nat): (r: seq<(int, int)>)
    ensures |r| == n
  {
    if n == 0 then [] else RowVisits(j, n - 1) + [(n - 1, j)]
  }

  /** Column k of the row comes k-th. */
  lemma {:induction false} RowVisitsAt(j: int, n: nat)
    ensures forall k :: 0 <= k < n ==> RowVisits(j, n)[k] == (k, j)
  {
    if n > 0 {
      RowVisitsAt(j, n - 1);
      assert forall k :: 0 <= k < n - 1 ==> RowVisits(j, n)[k] == RowVisits(j, n - 1)[k];
    }
  }

  /** Row j lists exactly the pixels (k, j) with k < n. */
  lemma {:induction false} RowVisitsCover(j: int, n: nat)
    ensures forall p :: p in RowVisits(j, n) <==> 0 <= p.0 < n && p.1 == j
  {
    if n > 0 {
      RowVisitsCover(j, n - 1);
      assert RowVisits(j, n) == RowVisits(j, n - 1) + [(n - 1, j)];
    }
  }

  /** p comes strictly before q in row-major order. */
  predicate Before(p: (int, int), q: (int, int)) {
    p.1 < q.1 || (p.1 == q.1 && p.0 < q.0)
  }

  /** Rows 0 .. n-1 of a w-wide grid, row-major. */
  function Visits(w: nat, n: nat): (r: seq<(int, int)>)
    ensures |r| == n * w
  {
    if n == 0 then [] else Visits(w, n - 1) + RowVisits(n - 1, w)
  }

  /** The row-major visit order lists every pixel of the grid and nothing
      else. */
  lemma {:induction false} VisitsCoverGrid(w: nat, n: nat)
    ensures forall p :: p in Visits(w, n) <==> 0 <= p.0 < w && 0 <= p.1 < n
  {
    if n > 0 {
      VisitsCoverGrid(w, n - 1);
      RowVisitsCover(n - 1, w);
      var prev, row := Visits(w, n - 1), RowVisits(n - 1, w);
      assert Visits(w, n) == prev + row;
      forall p: (int, int)
        ensures p in prev + row <==> 0 <= p.0 < w && 0 <= p.1 < n
      {
        assert p in prev + row <==> p in prev || p in row;
      }
    }
  }

  /** ... each once, in strictly increasing row-major order. */
  lemma {:induction false} VisitsIncrease(w: nat, n: nat)
    ensures forall a, b :: 0 <= a < b < |Visits(w, n)| ==> Before(Visits(w, n)[a], Visits(w, n)[b])
  {
    if n > 0 {
      VisitsIncrease(w, n - 1);
      VisitsCoverGrid(w, n - 1);
      RowVisitsAt(n - 1, w);
      var prev := Visits(w, n - 1);
      var row := RowVisits(n - 1, w);
      var r := prev + row;
      assert r == Visits(w, n);
      forall a, b | 0 <= a < b < |r|
        ensures Before(r[a], r[b])
      {
        if b < |prev| {
          assert r[a] == prev[a] && r[b] == prev[b];
        } else if a >= |prev| {
          assert r[a] == row[a - |prev|] && r[b] == row[b - |prev|];
        } else {
          assert r[a] == prev[a] && r[a] in prev;
          assert r[b] == row[b - |prev|];
        }
      }
    }
  }

  /** std::fill(b.begin(), b.end(), 0). */
  method Fill(b: array<byte>)
    modifies b
    ensures b[..] == Zeros(b.Length)
  {
    for k := 0 to b.Length
      invariant forall q :: 0 <= q < k ==> b[q] == 0
    {
      b[k] := 0;
    }
  }

  /** The traceUI settings the ray tracer reads. */
  datatype Settings = Settings(depth: int, threads: int, blockSize: int, threshold: real,
                               superSamples: int, aaThreshold: real)

  class RayTracer {
    var scene: Option<Scene>
    /** The numeric primitives, fixed for the object's lifetime. */
    const math: Math
    /** The values traceUI currently holds. */
    var ui: Settings
    var buffer: array<byte>
    var bufferWidth: int
    var bufferHeight: int
    var bufferSize: int
    var bufferReady: bool
    var threads: int
    var blockSize: int
    var thresh: real
    var samples: int
    var aaThresh: real

    /** The buffer holds one RGB triple per pixel of the current size. */
    predicate Valid()
      reads this
    {
      0 <= bufferWidth && 0 <= bufferHeight &&
      buffer.Length == bufferWidth * bufferHeight * 3 && bufferSize == buffer.Length
    }

    /** The state traceSetup(w, h) establishes: the buffer sized for w*h and
        the settings copied from traceUI. */
    predicate SetUp(w: int, h: int)
      reads this
    {
      Valid() && bufferWidth == w && bufferHeight == h && bufferReady &&
      threads == ui.threads && blockSize == ui.blockSize && thresh == ui.threshold &&
      samples == ui.superSamples && aaThresh == ui.aaThreshold
    }

    constructor(m: Math, settings: Settings)
      ensures Valid() && buffer.Length == 0
      ensures scene == None && bufferWidth == 0 && bufferHeight == 0 && !bufferReady && thresh == 0.0
      ensures math == m && ui == settings
    {
      scene := None;
      math := m;
      ui := settings;
      buffer := new byte[0];
      bufferWidth, bufferHeight, bufferSize := 0, 0, 0;
      bufferReady := false;
      threads, blockSize, thresh, samples, aaThresh := 0, 0, 0.0, 0, 0.0;
    }

    predicate SceneLoaded()
      reads this
    {
      scene.Some?
    }

    /** Sizes the buffer for w*h pixels, reusing it when the size is
        unchanged, zero-fills it and copies the settings from traceUI. */
    method TraceSetup(w: int, h: int)
      requires Valid() && 0 <= w && 0 <= h
      modifies this, buffer
      ensures SetUp(w, h)
      ensures buffer[..] == Zeros(w * h * 3)
      ensures old(buffer.Length) == w * h * 3 ==> buffer == old(buffer)
      ensures old(buffer.Length) != w * h * 3 ==> fresh(buffer)
      ensures scene == old(scene) && ui == old(ui)
    {
      var n := w * h * 3;
      if n != buffer.Length {
        bufferSize := n;
        buffer := new byte[n];
      }
      bufferWidth, bufferHeight := w, h;
      Fill(buffer);
      bufferReady := true;
      threads := ui.threads;
      blockSize := ui.blockSize;
      thresh := ui.threshold;
      samples := ui.superSamples;
      aaThresh := ui.aaThreshold;
    }

    /** The colour stored at pixel (i, j), each byte divided by 255. */
    method GetPixel(i: int, j: int) returns (c: Vec3)
      requires Valid() && 0 <= i < bufferWidth && 0 <= j < bufferHeight
      ensures c == DecodeAt(buffer[..], Offset(i, j, bufferWidth, bufferHeight))
      ensures UnitColor(c)
    {
      var k := Offset(i, j, bufferWidth, bufferHeight);
      c := Vec3(ByteToUnit(buffer[k]), ByteToUnit(buffer[k + 1]), ByteToUnit(buffer[k + 2]));
    }

    /** Stores colour c at pixel (i, j); only its three bytes change. */
    method SetPixel(i: int, j: int, color: Vec3)
      requires Valid() && 0 <= i < bufferWidth && 0 <= j < bufferHeight
      modifies buffer
      ensures buffer[..] == WithPixel(old(buffer[..]), Offset(i, j, bufferWidth, bufferHeight), color)
    {
      var k := Offset(i, j, bufferWidth, bufferHeight);
      buffer[k] := ByteOf(color.x);
      buffer[k + 1] := ByteOf(color.y);
      buffer[k + 2] := ByteOf(color.z);
      assert buffer[..] == old(buffer[..])[..k] + Encode(color) + old(buffer[..])[k + 3..];
    }

    /** Traces pixel (i, j) through window point (i/w, j/h) and stores the
        clamped colour; without a scene it returns black and stores nothing. */
    method TracePixel(i: int, j: int, ghost pic: Picture) returns (col: Vec3)
      requires Valid() && 0 <= i < bufferWidth && 0 <= j < bufferHeight
      requires scene.Some? ==> Renders(pic, scene.value, math, ui.depth, bufferWidth, bufferHeight, Primary)
      modifies buffer
      ensures UnitColor(col)
      ensures scene.None? ==> col == Zero && buffer[..] == old(buffer[..])
      ensures scene.Some? ==> col == pic(i, j)
      ensures scene.Some? ==>
        buffer[..] == WithPixel(old(buffer[..]), Offset(i, j, bufferWidth, bufferHeight), col)
    {
      col := Zero;
      if !SceneLoaded() {
        return;
      }
      var x := i as real / bufferWidth as real;
      var y := j as real / bufferHeight as real;
      col := Trace(scene.value, math, ui.depth, x, y);
      assert col == PixelColor(scene.value, math, ui.depth, bufferWidth, bufferHeight, Primary, i, j);
      SetPixel(i, j, col);
    }

    /** One pass of traceImage's outer loop: tracePixel(i, j) for every
        column i of row j, left to right; `order` lists the calls made.
        With a scene, row j of `pic` is written right after rows 0 .. j-1
        and the rest of `start` is left in place. */
    method TraceRow(j: int, ghost pic: Picture, ghost start: seq<byte>) returns (ghost order: seq<(int, int)>)
      requires Valid() && 0 <= j < bufferHeight && |start| == buffer.Length
      requires scene.Some? ==> Renders(pic, scene.value, math, ui.depth, bufferWidth, bufferHeight, Primary)
      requires scene.Some? ==> buffer[..] == Overlay(ImageBytes(pic, bufferWidth, j), start)
      modifies buffer
      ensures order == RowVisits(j, bufferWidth)
      ensures scene.None? ==> buffer[..] == old(buffer[..])
      ensures scene.Some? ==> buffer[..] == Overlay(ImageBytes(pic, bufferWidth, j + 1), start)
    {
      ghost var before := buffer[..];
      ghost var prefix := ImageBytes(pic, bufferWidth, j);
      assert prefix + RowBytes(pic, j, 0) == prefix;
      ghost var loaded := scene.Some?;
      order := [];
      for i := 0 to bufferWidth
        invariant order == RowVisits(j, i)
        invariant buffer[..] == if loaded then Overlay(prefix + RowBytes(pic, j, i), start) else before
      {
        TraceRowPixel(i, j, pic, prefix, start, before);
        order := order + [(i, j)];
      }
      assert prefix + RowBytes(pic, j, bufferWidth) == ImageBytes(pic, bufferWidth, j + 1);
    }

    /** The body of traceImage's inner loop: tracePixel(i, j) extends the
        traced part of row j by one pixel, or changes nothing without a scene. */
    method TraceRowPixel(i: int, j: int, ghost pic: Picture, ghost prefix: seq<byte>,
                         ghost start: seq<byte>, ghost before: seq<byte>)
      requires Valid() && 0 <= i < bufferWidth && 0 <= j < bufferHeight
      requires scene.Some? ==> Renders(pic, scene.value, math, ui.depth, bufferWidth, bufferHeight, Primary)
      requires |prefix| == Area(j, bufferWidth) && |start| == buffer.Length
      requires buffer[..] == if scene.Some? then Overlay(prefix + RowBytes(pic, j, i), start) else before
      modifies buffer
      ensures buffer[..] == if scene.Some? then Overlay(prefix + RowBytes(pic, j, i + 1), start) else before
    {
      ghost var buf := buffer[..];
      var col := TracePixel(i, j, pic);
      if scene.Some? {
        RowStep(prefix, pic, j, i, start, buf, col);
      }
    }

    /** traceImage's loops: tracePixel for every row, top to bottom. */
    method TraceRows(ghost pic: Picture) returns (ghost order: seq<(int, int)>)
      requires Valid()
      requires scene.Some? ==> Renders(pic, scene.value, math, ui.depth, bufferWidth, bufferHeight, Primary)
      modifies buffer
      ensures order == Visits(bufferWidth, bufferHeight)
      ensures scene.None? ==> buffer[..] == old(buffer[..])
      ensures scene.Some? ==> buffer[..] == ImageBytes(pic, bufferWidth, bufferHeight)
    {
      ghost var start := buffer[..];
      order := [];
      for j := 0 to bufferHeight
        invariant order == Visits(bufferWidth, j)
        invariant scene.None? ==> buffer[..] == start
        invariant scene.Some? ==> buffer[..] == Overlay(ImageBytes(pic, bufferWidth, j), start)
      {
        ghost var row := TraceRow(j, pic, start);
        order := order + row;
      }
      if scene.Some? {
        AreaIsProduct(bufferHeight, bufferWidth);
        OverlayFull(ImageBytes(pic, bufferWidth, bufferHeight), start);
      }
    }

    /** Sets the buffer up for w*h pixels, traces every pixel once in
        row-major order (`order` lists the tracePixel calls) and, when
        supersampling is on, runs aaImage. */
    method TraceImage(w: int, h: int, jitter: Jitter) returns (ghost order: seq<(int, int)>)
      requires Valid() && 0 <= w && 0 <= h
      requires ui.superSamples > 0 ==> scene.Some?
      modifies this, buffer
      ensures SetUp(w, h) && scene == old(scene) && ui == old(ui)
      ensures order == Visits(w, h)
      ensures scene.None? ==> buffer[..] == Zeros(w * h * 3)
      ensures scene.Some? && samples <= 0 ==>
        buffer[..] == ImageBytes(Rendered(scene.value, math, ui.depth, w, h, Primary), w, h)
      ensures samples > 0 ==>
        buffer[..] == ImageBytes(Rendered(scene.value, math, ui.depth, w, h, Supersampled(samples, jitter)), w, h)
    {
      TraceSetup(w, h);
      ghost var zeros := buffer[..];
      ghost var pic: Picture := (_, _) => Zero;
      if scene.Some? {
        pic := ChoosePicture(scene.value, math, ui.depth, w, h, Primary);
      }
      order := TraceRows(pic);
      if scene.Some? {
        RenderedBytesAgree(pic, Rendered(scene.value, math, ui.depth, w, h, Primary),
                           scene.value, math, ui.depth, w, h, Primary, h);
      }
      if samples > 0 {
        var _ := AaImage(jitter);
      }
    }

    /** The body of aaImage's inner loops: pixel (i, j) is overwritten by
        the mean of its `samples` jittered traces. */
    method AaPixel(i: int, j: int, jitter: Jitter, ghost pic: Picture, ghost prefix: seq<byte>, ghost start: seq<byte>)
      requires Valid() && 0 <= i < bufferWidth && 0 <= j < bufferHeight && samples > 0 && scene.Some?
      requires Renders(pic, scene.value, math, ui.depth, bufferWidth, bufferHeight, Supersampled(samples, jitter))
      requires |prefix| == Area(j, bufferWidth) && |start| == buffer.Length
      requires buffer[..] == Overlay(prefix + RowBytes(pic, j, i), start)
      modifies buffer
      ensures buffer[..] == Overlay(prefix + RowBytes(pic, j, i + 1), start)
    {
      ghost var buf := buffer[..];
      var color := MeanSample(scene.value, math, ui.depth, bufferWidth, bufferHeight, jitter, i, j, samples, pic);
      SetPixel(i, j, color);
      RowStep(prefix, pic, j, i, start, buf, color);
    }

    /** One pass of aaImage's outer loop: every pixel of row j gets the
        mean of its jittered samples; the rest of `start` is left in place. */
    method AaRow(j: int, jitter: Jitter, ghost pic: Picture, ghost start: seq<byte>)
      requires Valid() && 0 <= j < bufferHeight && samples > 0 && scene.Some? && |start| == buffer.Length
      requires Renders(pic, scene.value, math, ui.depth, bufferWidth, bufferHeight, Supersampled(samples, jitter))
      requires buffer[..] == Overlay(ImageBytes(pic, bufferWidth, j), start)
      modifies buffer
      ensures buffer[..] == Overlay(ImageBytes(pic, bufferWidth, j + 1), start)
    {
      ghost var prefix := ImageBytes(pic, bufferWidth, j);
      assert prefix + RowBytes(pic, j, 0) == prefix;
      for i := 0 to bufferWidth
        invariant buffer[..] == Overlay(prefix + RowBytes(pic, j, i), start)
      {
        AaPixel(i, j, jitter, pic, prefix, start);
      }
      assert prefix + RowBytes(pic, j, bufferWidth) == ImageBytes(pic, bufferWidth, j + 1);
    }

    /** aaImage's loops: every row, top to bottom, is resampled. */
    method AaRows(jitter: Jitter, ghost pic: Picture)
      requires Valid() && samples > 0 && scene.Some?
      requires Renders(pic, scene.value, math, ui.depth, bufferWidth, bufferHeight, Supersampled(samples, jitter))
      modifies buffer
      ensures buffer[..] == ImageBytes(pic, bufferWidth, bufferHeight)
    {
      ghost var start := buffer[..];
      for j := 0 to bufferHeight
        invariant buffer[..] == Overlay(ImageBytes(pic, bufferWidth, j), start)
      {
        AaRow(j, jitter, pic, start);
      }
      AreaIsProduct(bufferHeight, bufferWidth);
      OverlayFull(ImageBytes(pic, bufferWidth, bufferHeight), start);
    }

    method AaImage(jitter: Jitter) returns (r: int)
      requires Valid()
      requires samples > 0 ==> scene.Some?
      modifies buffer
      ensures samples <= 0 ==> r == 0 && buffer[..] == old(buffer[..])
      ensures samples > 0 ==> r == 1
      ensures samples > 0 ==>
        buffer[..] == ImageBytes(Rendered(scene.value, math, ui.depth, bufferWidth, bufferHeight,
                                          Supersampled(samples, jitter)), bufferWidth, bufferHeight)
    {
      if samples <= 0 {
        return 0;
      }
      ghost var pass := Supersampled(samples, jitter);
      ghost var pic := ChoosePicture(scene.value, math, ui.depth, bufferWidth, bufferHeight, pass);
      AaRows(jitter, pic);
      RenderedBytesAgree(pic, Rendered(scene.value, math, ui.depth, bufferWidth, bufferHeight, pass),
                         scene.value, math, ui.depth, bufferWidth, bufferHeight, pass, bufferHeight);
      r := 1;
    }
  }
}
