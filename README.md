# A Whitted ray tracer's core, in Dafny

This project models the rendering core of a small recursive (Whitted-style)
ray tracer written in C++ with glm vectors:

- the `RayTracer` object, which owns a `w*h*3` byte frame buffer and fills it.
  - One primary ray per pixel, in row-major order.
  - An optional supersampling pass then overwrites each pixel with the mean
    of several jittered samples.
- recursive `traceRay`: one hit is Phong-shaded locally, then a reflected ray
  and a refracted (Snell's law) ray are spawned, down to a depth limit.
- a miss returns a white-to-blue sky gradient.
- `Material::shade`: the ambient term, plus one
  diffuse-plus-specular term per light, scaled by distance and shadow
  attenuation.
- directional lights and point lights: their distance attenuation, their
  direction and their hard shadows.
- material parameters that are a constant or a texture.
- `TextureMap`'s clamped, bilinearly filtered texture lookup.
- the six-face `CubeMap` environment lookup.

The modules follow the source files:

| module | what it holds |
|---|---|
| `Options` | the optional value used for texture slots, hits and transmitted directions |
| `Vectors` | glm's `dvec3`/`dvec2`, with doubles read as reals; `clamp`; `reflect`; bytes |
| `Rays` | the ray and hit records; `normalize`, `sqrt` and `pow`, passed in as parameters |
| `Scenes` | a scene's intersection function, ambient light, lights and camera |
| `Textures`, `Materials` | `material.cpp` |
| `Lights` | `light.cpp` |
| `Shading` | `Material::shade` |
| `Tracer` | `trace` and `traceRay` |
| `Frame` | the `RayTracer` object and its frame buffer |
| `CubeMaps` | `cubeMap.cpp` |

Work that updates state stays imperative:

- `Frame.RayTracer` is a class whose `buffer` is an `array<byte>`.
  - Its pixel loops are `for` loops with invariants.
  - Each loop is proved against a specification. The buffer equals the
    row-major bytes of the picture that the pure functions `PixelColor` and
    `Trace` define.
- `Shading.Shade` keeps the source's loop over the lights. It is proved equal
  to the recursive `ShadeColor`.
- `CubeMaps.CubeMap` keeps its six texture slots in an array.

## Model

| member | source | states |
|---|---|---|
| `Vectors.Clamp` | ray/scene/material.cpp:96-97 | glm::clamp: the result lies in [lo, hi]; it is the input when the input is inside, lo below and hi above |
| `Vectors.Clamp01` | ray/RayTracer.cpp:49 | clamping a colour to [0,1] gives a colour of [0,1], and leaves a colour already in [0,1] unchanged |
| `Vectors.Lerp` | ray/scene/material.cpp:118-122 | (1 - s) a + s b; no contract of its own: `LerpInUnit` states that it stays between its end values in [0,1] |
| `Vectors.LerpColor` | ray/scene/material.cpp:118-122 | the per-channel (1 - s) a + s b of two colours; no contract of its own: `LerpColorInUnit` states that it keeps colours of [0,1] in [0,1] |
| `Vectors.LerpInUnit` | ray/scene/material.cpp:118-122 | a linear interpolation of two values of [0,1] with weight in [0,1] stays in [0,1], between the two end values |
| `Vectors.LerpColorInUnit` | ray/scene/material.cpp:118-122 | the per-channel interpolation of two colours of [0,1] is a colour of [0,1] |
| `Vectors.ByteToUnit` | ray/RayTracer.cpp:376-377 | a stored byte read back as byte/255 lies in [0,1], and 255 times it is the byte again |
| `Vectors.Reflect` | ray/RayTracer.cpp:106 | glm::reflect(i, n) = i - 2 (n.i) n, called here for the mirror ray and at material.cpp:46, which `Shading.LightTerm` uses; no contract of its own, its partners are the two lemmas below |
| `Vectors.ReflectFlipsNormal` | ray/RayTracer.cpp:106 | about a unit normal the reflection negates the component along the normal |
| `Vectors.ReflectInvolution` | ray/RayTracer.cpp:106 | about a unit normal, reflecting twice gives back the original direction |
| `Vectors.FlatIndexInBounds` | ray/RayTracer.cpp:62 | the row-major offset (i + j*w)*3 of a pixel inside the grid addresses three bytes inside the w*h*3 buffer |
| `Textures.ClampIndex` | ray/scene/material.cpp:128-129 | std::max(0, std::min(x, n-1)) lies in [0, n); it is x inside the range, 0 below it and n-1 above it |
| `Textures.PixelIndex` | ray/scene/material.cpp:128-131 | the clamped pixel index addresses three bytes inside the texture data, and is (y*width + x)*3 for an in-range pixel |
| `Textures.GetPixelAt` | ray/scene/material.cpp:126-138 | a texel read as bytes over 255 is a colour of [0,1] |
| `Textures.PixelAtClamps` | ray/scene/material.cpp:127-129 | reading outside the image reads the nearest edge pixel, on each side and in each axis |
| `Textures.ImageX` | ray/scene/material.cpp:96-100 | the image-space x of a clamped u lies in [0, width-1] |
| `Textures.ImageY` | ray/scene/material.cpp:97-101 | the image-space y of a clamped, flipped v lies in [0, height-1] |
| `Textures.Bilinear` | ray/scene/material.cpp:103-122 | the bilinear blend of the four surrounding texels is a colour of [0,1] |
| `Textures.GetMappedValue` | ray/scene/material.cpp:90-123 | a texture lookup is a colour of [0,1]; an empty texture gives white |
| `Textures.MappedValueClampsCoordinates` | ray/scene/material.cpp:95-97 | a coordinate below 0 or above 1, in either axis, samples the same as the edge value 0 or 1 |
| `Textures.SameImagePoint` | ray/scene/material.cpp:96-101 | two coordinates that clamp to the same point give the same colour |
| `Textures.MappedValueAtPixel` | ray/scene/material.cpp:103-122 | a coordinate that lands exactly on a pixel centre returns that pixel unblended |
| `Textures.ImageEnds` | ray/scene/material.cpp:100-101 | u = 0 and u = 1 map to the first and last column; v = 1 maps to the top row and v = 0 to the bottom row |
| `Textures.MappedValueCorners` | ray/scene/material.cpp:99-101 | the four corner coordinates return the four corner pixels, with v flipped |
| `Materials.Value` | ray/scene/material.cpp:141-146 | an untextured parameter gives its constant; a textured one gives the texture lookup at the hit's uv, a colour of [0,1] |
| `Materials.IntensityValue` | ray/scene/material.cpp:148-154 | the luminance of a textured parameter lies in [0,1] |
| `Materials.Luminance` | ray/scene/material.cpp:151-153 | the 0.299/0.587/0.114 weighted sum used for both branches of intensityValue; no contract of its own: `LuminanceInUnit` and `GreyIntensity` state its range and its value on a grey |
| `Materials.LuminanceInUnit` | ray/scene/material.cpp:151-153 | the 0.299/0.587/0.114 luminance lies between the smallest and the largest channel, so in [0,1] for a colour of [0,1] |
| `Materials.GreyIntensity` | ray/scene/material.cpp:153 | a constant grey parameter has an intensity equal to its grey level |
| `Lights.Falloff` | ray/scene/light.cpp:43 | the point-light falloff 1/(1 + 0.1 d^2) lies in (0, 1] for every distance |
| `Lights.DistanceAttenuation` | ray/scene/light.cpp:39-47 | the distance attenuation of either kind of light is in (0, 1]; for a directional light (lines 10-13) it is exactly 1 |
| `Lights.PointAttenuationUnclamped` | ray/scene/light.cpp:43-46 | the min with 1 never changes the point light's 1/(1 + 0.1 d^2) |
| `Lights.PointAttenuationAtLight` | ray/scene/light.cpp:39-47 | at the light's own position the attenuation is 1 |
| `Lights.PointAttenuationMonotone` | ray/scene/light.cpp:39-47 | a point farther from a point light is never attenuated less |
| `Lights.GetDirection` | ray/scene/light.cpp:35-37 | the direction towards the light (lines 35-37 and 52-54); no contract of its own: `DirectionalDirectionConstant` states the directional case, and `PointShadow` uses the point case as the shadow ray's direction |
| `Lights.ShadowRay` | ray/scene/light.cpp:61-62 | the shadow ray p + 1e-6 L towards L, built the same way for a directional light at lines 21-22; no contract of its own: `PointShadow` and `DirectionalShadow` state that a light is blocked exactly when this ray hits something in front of the light |
| `Lights.DirectionalDirectionConstant` | ray/scene/light.cpp:35-37 | a directional light's direction is the negated orientation, at every point |
| `Rays.Length` | ray/scene/light.cpp:58 | glm::length(v) = sqrt(v.v), the distance to a point light (also at line 40); no contract of its own: `PointShadow` states that a hit nearer than this distance blocks the light |
| `Lights.ShadowAttenuation` | ray/scene/light.cpp:56-71 | the shadow factor of either light is all zeros or all ones: shadows are hard |
| `Lights.PointShadow` | ray/scene/light.cpp:56-71 | a point light is blocked exactly when the shadow ray from p toward it hits something nearer than the light |
| `Lights.DirectionalShadow` | ray/scene/light.cpp:15-30 | a directional light is blocked exactly when the shadow ray toward it hits anything at all |
| `Shading.NonNegative` | ray/scene/material.cpp:40 | std::max(0, a) is non-negative and at least a; it is a for a >= 0 and 0 otherwise |
| `Shading.AmbientTerm` | ray/scene/material.cpp:20 | ka(i) * scene->ambient(), the colour shading starts from; no contract of its own: `NoLightsIsAmbient` states it is the whole colour without lights, and `Shade` starts its loop from it |
| `Shading.LightTerm` | ray/scene/material.cpp:29-72 | one light's attenuated diffuse-plus-specular term; no contract of its own: `ShadowedLightAddsNothing` and `DiffuseSurfaceUnderOneLight` state what it gives |
| `Shading.LitColor` | ray/scene/material.cpp:29-72 | the ambient term followed by the light terms of a list of lights, in order; no contract of its own: `Shade`'s loop invariant and `AllShadowedIsAmbient` state it |
| `Shading.ShadeColor` | ray/scene/material.cpp:18-75 | the local colour under all the scene's lights; no contract of its own: `Shade` is proved equal to it, and `NoLightsIsAmbient` and `DiffuseSurfaceUnderOneLight` state its value in two cases |
| `Shading.Shade` | ray/scene/material.cpp:18-75 | the loop over the lights returns the ambient term plus every light's term, added in the scene's order |
| `Shading.NoLightsIsAmbient` | ray/scene/material.cpp:20-29 | with no lights, shading returns the ambient term ka * ambient |
| `Shading.ShadowedLightAddsNothing` | ray/scene/material.cpp:64-69 | a light whose shadow factor is zero contributes nothing, whatever its colour or direction |
| `Shading.AllShadowedIsAmbient` | ray/scene/material.cpp:29-72 | when every light is shadowed, the shaded colour is the ambient term alone |
| `Shading.DiffuseSurfaceUnderOneLight` | ray/scene/material.cpp:18-75 | a white, purely diffuse surface facing one unshadowed light shows the light's colour scaled by its distance attenuation |
| `Tracer.Background` | ray/RayTracer.cpp:182-187 | the white-to-sky gradient along the y component; no contract of its own: its partners are the two lemmas below |
| `Tracer.BackgroundInUnit` | ray/RayTracer.cpp:182-187 | for a unit direction the sky gradient is a colour of [0,1] |
| `Tracer.BackgroundGradient` | ray/RayTracer.cpp:182-187 | straight down is white, the horizon is halfway (0.7, 0.85, 1) and straight up is the sky colour (0.4, 0.7, 1) |
| `Tracer.Orient` | ray/RayTracer.cpp:129-140 | the oriented cosine is abs(D.N) >= 0, and the two indices are 1 and the material's index in some order |
| `Tracer.ExitingSwapsIndices` | ray/RayTracer.cpp:135-137 | a ray leaving the object (D.N > 0) swaps the indices and flips the normal |
| `Tracer.EnteringKeepsIndices` | ray/RayTracer.cpp:138-140 | a ray entering the object keeps air-to-material indices and negates the cosine |
| `Tracer.Discriminant` | ray/RayTracer.cpp:142-143 | k = 1 - eta^2 (1 - cos^2 i); no contract of its own: `NoTotalReflection` and `BeyondCriticalAngle` state its sign |
| `Tracer.NoTotalReflection` | ray/RayTracer.cpp:142-146 | with eta^2 <= 1 the discriminant is non-negative at every incidence cosine, so there is no total internal reflection |
| `Tracer.RefractedDirection` | ray/RayTracer.cpp:129-148 | Snell's-law direction; no contract of its own: `RefractsIffDiscriminantNonNegative`, `EnteringDenserMediumRefracts` and `BeyondCriticalAngle` state when it exists |
| `Tracer.RefractsIffDiscriminantNonNegative` | ray/RayTracer.cpp:142-146 | a transmitted direction exists exactly when the transmitted index is nonzero and 1 - eta^2 (1 - cos^2) >= 0 |
| `Tracer.EnteringDenserMediumRefracts` | ray/RayTracer.cpp:142-146 | entering a medium of index >= 1 never gives total internal reflection |
| `Tracer.BeyondCriticalAngle` | ray/RayTracer.cpp:143-146 | leaving an index-2 medium at cos = 0.5 is total internal reflection: no refracted ray |
| `Tracer.ReflectedSpawn` | ray/RayTracer.cpp:104-113 | a reflected ray is spawned exactly when kr is nonzero; it carries the weight kr and has the reflection kind |
| `Tracer.RefractedSpawn` | ray/RayTracer.cpp:125-155 | a refracted ray is spawned exactly when kt is nonzero and Snell's law gives a direction; it carries the weight kt and has the refraction kind |
| `Tracer.TraceRay` | ray/RayTracer.cpp:75-191 | the recursive colour along a ray; no contract of its own: `MissIsBackground`, `DepthExhaustedIsLocal`, `HitCombinesTerms`, `OpaqueSurfaceIsLocal` and `RaysTracedBound` state its three cases and its termination bound |
| `Tracer.MissIsBackground` | ray/RayTracer.cpp:170-189 | a ray that hits nothing returns the background along its normalized direction, and traces no further ray |
| `Tracer.DepthExhaustedIsLocal` | ray/RayTracer.cpp:88-93 | at depth <= 0 a hit returns only its local shading, and spawns no ray |
| `Tracer.HitCombinesTerms` | ray/RayTracer.cpp:95-169 | above the depth limit a hit returns local shading + kr * reflected colour + kt * refracted colour, each traced one level deeper |
| `Tracer.OpaqueSurfaceIsLocal` | ray/RayTracer.cpp:104-128 | a surface with kr = kt = 0 returns only its local shading at any depth, and spawns no ray |
| `Tracer.RaysTracedBound` | ray/RayTracer.cpp:116-159 | one call traces at most 2^(depth+1) - 1 rays, counting every recursive call |
| `Tracer.SpawnedRaysBound` | ray/RayTracer.cpp:116-159 | a spawned secondary ray, with its own descendants, accounts for at most 2^(depth+1) - 1 rays |
| `Tracer.Trace` | ray/RayTracer.cpp:37-51 | the primary ray's colour is clamped to [0,1], and is the traced colour unchanged when that already lies in [0,1] |
| `Frame.Trunc` | ray/RayTracer.cpp:65-67 | the C++ (int) cast truncates toward zero: it is within 1 of x, never beyond x away from zero |
| `Frame.ByteOf` | ray/RayTracer.cpp:383-385 | a channel of [0,1] is stored as floor(255 c) |
| `Frame.QuantizationError` | ray/RayTracer.cpp:374-386 | storing a channel of [0,1] and reading it back loses less than 1/255 and never rounds up |
| `Frame.ByteRoundTrip` | ray/RayTracer.cpp:374-386 | a byte read with getPixel and stored again with setPixel is the same byte |
| `Frame.Encode` | ray/RayTracer.cpp:383-385 | a colour is stored as three bytes, red first; a colour of [0,1] gives floor(255 c) per channel |
| `Frame.DecodeAt` | ray/RayTracer.cpp:375-377 | any three stored bytes read back as a colour of [0,1] |
| `Frame.DecodeEncode` | ray/RayTracer.cpp:374-386 | reading three bytes and storing the colour gives back the same three bytes |
| `Frame.Offset` | ray/RayTracer.cpp:381 | a pixel inside the grid sits at byte 3i past the start of row j, and its three bytes lie in the buffer |
| `Frame.WithPixel` | ray/RayTracer.cpp:380-386 | writing a pixel replaces exactly its three bytes with the encoded colour and leaves every other byte as it was |
| `Frame.GetAfterSet` | ray/RayTracer.cpp:374-386 | getPixel after setPixel with a colour of [0,1] returns the colour to within 1/255 below, per channel |
| `Frame.Fill` | ray/RayTracer.cpp:286 | std::fill leaves the buffer all zeros |
| `Frame.Sample` | ray/RayTracer.cpp:343-348 | one jittered sample is a colour of [0,1] |
| `Frame.Samples` | ray/RayTracer.cpp:341-348 | every sample of a pixel is a colour of [0,1] |
| `Frame.SumBounds` | ray/RayTracer.cpp:341-350 | the sum of n colours of [0,1] has every channel in [0, n] |
| `Frame.SampleTotal` | ray/RayTracer.cpp:338-350 | the sample loop returns the sum of the pixel's samples 0 .. samples-1 |
| `Frame.MeanSample` | ray/RayTracer.cpp:338-353 | the mean of the samples is the pixel's colour in the supersampled picture |
| `Frame.MeanInUnit` | ray/RayTracer.cpp:353 | a sum in [0, n] divided by n lies in [0,1] |
| `Frame.PixelColor` | ray/RayTracer.cpp:346-358 | the colour a pass stores for a pixel (lines 63-67 for the primary pass); no contract of its own: `StoredPixelExact` states it is a colour of [0,1], and `MeanSample` that the supersampled one is the mean of the samples |
| `Frame.StoredPixelExact` | ray/RayTracer.cpp:63-67 | every pixel colour either pass writes is in [0,1], so its stored bytes are floor(255 c): no modular wrap occurs |
| `Frame.ImageHoldsPixel` | ray/RayTracer.cpp:62-67 | in the row-major image bytes, pixel (i, j)'s offset holds that pixel's encoded colour |
| `Frame.RowVisits` | ray/RayTracer.cpp:319-321 | the inner loop visits as many pixels as the row is wide |
| `Frame.RowVisitsAt` | ray/RayTracer.cpp:319-321 | the k-th visit of row j is pixel (k, j) |
| `Frame.RowVisitsCover` | ray/RayTracer.cpp:319-321 | row j's visits are exactly its pixels |
| `Frame.Visits` | ray/RayTracer.cpp:318-322 | the two loops visit w*h pixels |
| `Frame.VisitsCoverGrid` | ray/RayTracer.cpp:318-322 | the visits are exactly the pixels of the grid |
| `Frame.VisitsIncrease` | ray/RayTracer.cpp:318-322 | the visits are in strictly increasing row-major order, so each pixel is traced once |
| `Frame.RayTracer.constructor` | ray/RayTracer.cpp:194-197 | a new tracer has no scene, an empty buffer of size 0x0, is not ready, and has threshold 0 |
| `Frame.RayTracer.TraceSetup` | ray/RayTracer.cpp:278-301 | the buffer holds w*h*3 zero bytes; it is reallocated only when its size changes; the sizes are set and the settings are synced |
| `Frame.RayTracer.GetPixel` | ray/RayTracer.cpp:374-378 | returns the colour stored at the pixel's offset, a colour of [0,1] |
| `Frame.RayTracer.SetPixel` | ray/RayTracer.cpp:380-386 | writes the encoded colour at the pixel's offset and changes no other byte |
| `Frame.RayTracer.SceneLoaded` | ray/RayTracer.cpp:56 | sceneLoaded(): a scene is present; no contract of its own: `TracePixel` and `TraceImage` state what happens with and without a scene |
| `Frame.RayTracer.TracePixel` | ray/RayTracer.cpp:53-69 | with no scene returns black and writes nothing; otherwise stores and returns the traced colour of the pixel at (i/w, j/h) |
| `Frame.RayTracer.TraceRow` | ray/RayTracer.cpp:319-321 | tracing row j visits (0, j) .. (w-1, j) in order and extends the finished rows by row j's bytes |
| `Frame.RayTracer.TraceRowPixel` | ray/RayTracer.cpp:320 | one step of the row loop appends pixel i's bytes to the finished part of the row |
| `Frame.RayTracer.TraceRows` | ray/RayTracer.cpp:318-322 | the first pass visits the grid row-major and leaves the buffer holding the whole primary picture |
| `Frame.RayTracer.TraceImage` | ray/RayTracer.cpp:313-326 | the buffer holds the primary picture, or the supersampled one when samples > 0; with no scene it stays zeroed; pixels are visited row-major |
| `Frame.RayTracer.AaPixel` | ray/RayTracer.cpp:338-356 | one supersampled pixel appends the mean of its samples to the finished part of the row |
| `Frame.RayTracer.AaRow` | ray/RayTracer.cpp:337-357 | one supersampled row extends the finished rows by that row's averaged bytes |
| `Frame.RayTracer.AaRows` | ray/RayTracer.cpp:336-358 | the supersampling loops leave the buffer holding the whole supersampled picture |
| `Frame.RayTracer.AaImage` | ray/RayTracer.cpp:329-361 | with samples <= 0 returns 0 and changes nothing; otherwise returns 1 and the buffer holds every pixel's mean of jittered samples |
| `CubeMaps.SelectFace` | ray/scene/cubeMap.cpp:14-54 | every nonzero direction selects one of the six faces |
| `CubeMaps.FaceCoordinates` | ray/scene/cubeMap.cpp:56-62 | the face coordinates used for the lookup lie in [0,1]^2 |
| `CubeMaps.DominantAxis` | ray/scene/cubeMap.cpp:21-43 | the selected axis is the one of largest magnitude, ties going to X, then Y, then Z; both directions of each choice |
| `CubeMaps.FaceSign` | ray/scene/cubeMap.cpp:23-53 | the + face is chosen exactly when the dominant component is positive, and that component is never zero |
| `CubeMaps.RawCoordinatesBounded` | ray/scene/cubeMap.cpp:25-53 | the raw face coordinates always lie in [-1, 1] |
| `CubeMaps.Remap` | ray/scene/cubeMap.cpp:57-58 | 0.5 (a + 1) lies in [0,1] exactly when a lies in [-1,1], and is at most 1/2 exactly when a <= 0 |
| `CubeMaps.ClampIsNoOp` | ray/scene/cubeMap.cpp:57-62 | the clamp after the remap never changes anything: the coordinates are exactly (u+1)/2 and (v+1)/2 |
| `CubeMaps.SelectFaceScaleInvariant` | ray/scene/cubeMap.cpp:8-54 | scaling a direction by any positive factor selects the same face at the same coordinates |
| `CubeMaps.AxisDirectionsHitFaceCentres` | ray/scene/cubeMap.cpp:21-58 | each of the six axis directions looks at the centre (0.5, 0.5) of its own face, +X, -X, +Y, -Y, +Z, -Z in turn |
| `CubeMaps.CubeMap.constructor` | ray/scene/cubeMap.cpp:72 | a new cube map has six empty slots |
| `CubeMaps.CubeMap.FaceColor` | ray/scene/cubeMap.cpp:64-67 | the colour along a direction is in [0,1], and is black when the selected face has no texture |
| `CubeMaps.CubeMap.GetColor` | ray/scene/cubeMap.cpp:7-68 | the cube map's colour along a ray is a colour of [0,1] |
| `CubeMaps.CubeMap.ColorIgnoresLength` | ray/scene/cubeMap.cpp:8-67 | when normalize returns a positive multiple of the direction, the colour is the one looked up along the raw direction |
| `CubeMaps.CubeMap.SetNthMap` | ray/scene/cubeMap.cpp:76-79 | slot n holds the new texture afterwards and no other slot changes; storing the texture already there changes nothing |

## Left out

- Scene loading (`loadScene`), UI settings, the debugging windows, the `VERBOSE` traces and the ray cache clear in debug mode are left out. They are I/O or diagnostics. The UI values the core reads (depth and the number of supersamples) are fields of `Frame.Settings`.
- `getBuffer`, `aspectRatio`, `checkRender` and `waitRender` are left out. They return sizes or do nothing.
- Threads, block size and `aaThresh` are copied by `Frame.RayTracer.TraceSetup` but never read. The modelled core has no code that uses them.
- The camera's `rayThrough` and the scene's `intersect` are left out. Each is a function parameter of `Scenes.Scene`, because their geometry lives outside the modelled files.
- `glm::normalize`, `sqrt` and `pow` are uninterpreted functions of `Rays.Math`. `glm::length` is `sqrt` of the squared length.
- Doubles are modelled as reals. IEEE rounding, infinities and NaN are not modelled.
- `rand()` in `aaImage` is replaced by a `Jitter` parameter. It gives each (pixel, sample) its two offsets.
- The `thresh` weight that `traceRay` passes down its recursion is not modelled. The source never compares it with anything.
- The shadow ray that `shade` builds and passes to `shadowAttenuation` is not modelled. Both kinds of light ignore that argument.
- `Lights.DistanceAttenuation`: the point light's `d * d`, with d = length(position - P), is modelled as the exact squared length. This differs from `sqrt(x)^2` only by rounding.
- The `TextureMap` constructor, which loads and decodes an image file, is left out. A texture is given as width, height and `width*height*3` bytes.
- `material.h` is not part of this model. `ka`, `kd`, `ks`, `kr` and `kt` are read as `MaterialParameter::value`, and `shininess` and `index` as `intensityValue`.
- `getColor` of both lights is the `color` field of `Lights.Light`.
- The cube-map background is not modelled. `traceRay`'s miss branch carries a FIXME for it and returns the sky gradient. The model does the same, so `CubeMaps.CubeMap.GetColor` is defined but is not called by `Tracer`.
- `Tracer.RefractedDirection`: entering a medium of index 0 gives no transmitted ray. A ray leaving such a medium has a transmitted index of 1 and refracts normally. In the source the entering case divides by zero, which the model writes as an explicit case.
- `Frame.RayTracer.TraceSetup` requires w, h >= 0. It does not model the overflow of `w*h*3` in `int`, or its conversion to `size_t`.
- `Frame.RayTracer.constructor`: the source initialises `thresh` to 0, as the model does. It leaves `threads`, `block_size`, `samples`, `aaThresh` and `bufferSize` uninitialised. `traceSetup` assigns the first four, but assigns `bufferSize` only when the size changes, so after `traceSetup(0, 0)` on a new tracer it is still uninitialised in the source. The model starts all of them at 0, so that `bufferSize` always equals the buffer's length.
- `Frame.RayTracer.AaImage` requires a loaded scene when samples > 0. The source calls `trace` there without checking `sceneLoaded()`, which dereferences a null scene.
- `Frame.RayTracer.TraceImage` has the same requirement when the UI asks for supersamples.
- `Frame.RayTracer.TraceRow`, `TraceRows`, `TraceRowPixel`, `AaPixel`, `AaRow` and `AaRows` are the loop bodies of `traceImage` and `aaImage`, written as methods. They take the picture being rendered as a ghost argument.
- `CubeMaps.CubeMap.GetColor` requires the normalized direction to be nonzero. A zero direction makes the source divide 0 by 0.
- `CubeMaps.CubeMap.SetNthMap` requires 0 <= n < 6. The source does not check n.
- `CubeMaps.CubeMap.SetNthMap` compares textures by value. The source compares texture addresses and frees the old texture, and ownership is not modelled.
