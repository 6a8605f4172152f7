/** What the core reads from the scene. */
module Scenes {
  import opened Vectors
  import opened Rays
  import opened Lights

  /** The scene as the tracer sees it: nearest-hit queries, the ambient
      light colour, the lights in their fixed order, and the camera's
      primary ray through normalized window coordinates (x, y). */
  datatype Scene = Scene(
    intersect: Intersector,
    ambient: Vec3,
    lights: seq<Light>,
    rayThrough: (real, real) -> Ray)
}
