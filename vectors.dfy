/** The three-component value the renderer uses both as a world-space point
    and as an RGB colour. Only what the rasteriser and the image buffer need
    of it is modelled: construction, channel access and the componentwise
    minimum. Arithmetic is exact over the reals. */
module Vectors {

  datatype Vec3 = Vec3(x: real, y: real, z: real)

  /** vec3(s): all three components equal to s. */
  function Splat(s: real): (v: Vec3)
    ensures forall k :: 0 <= k < 3 ==> Channel(v, k) == s
  {
    Vec3(s, s, s)
  }

  /** vec3(0.0f, 0.0f, 0.0f), the colour a fresh image is filled with. */
  const ZERO: Vec3 := Splat(0.0)

  /** Component k (0 = x/red, 1 = y/green, 2 = z/blue). */
  function Channel(v: Vec3, k: nat): real
    requires k < 3
  {
    if k == 0 then v.x else if k == 1 then v.y else v.z
  }

  /** std::min on one component: returns b only when b < a. */
  function MinReal(a: real, b: real): (m: real)
    ensures m <= a && m <= b
    ensures m == a || m == b
  {
    if b < a then b else a
  }

  /** The componentwise min of two vectors (as the renderer uses it). */
  function Min(a: Vec3, b: Vec3): (m: Vec3)
    ensures forall k :: 0 <= k < 3 ==>
      Channel(m, k) <= Channel(a, k) && Channel(m, k) <= Channel(b, k) &&
      (Channel(m, k) == Channel(a, k) || Channel(m, k) == Channel(b, k))
  {
    Vec3(MinReal(a.x, b.x), MinReal(a.y, b.y), MinReal(a.z, b.z))
  }
}
