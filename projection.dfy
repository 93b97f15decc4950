/** Per-sample geometry of the ASCII torus: the straight-line real arithmetic that maps
    the cosines and sines of the rotation angles A, B and of the surface parameters
    theta, phi to a rotated point, its reciprocal depth, its screen cell and its luminance.
    Trigonometry itself is not modelled: every angle enters as its (cos, sin) pair, and the
    only fact used about such a pair is cos^2 + sin^2 = 1. */
module Projection {

  /** Tube radius, ring radius and viewer distance of the torus (donut.js:11-13, 119-121). */
  const R1: real := 1.0
  const R2: real := 2.0
  const K2: real := 5.0

  /** The luminance ramp, sparsest glyph first. */
  const Ramp: string := ".,-~:;=!*#$@"

  /** The cosine and sine of one angle. */
  datatype Angle = Angle(c: real, s: real) {
    predicate OnCircle() { c * c + s * s == 1.0 }
  }

  /** The host's cosine and sine functions; they are trusted only to satisfy the
      Pythagorean identity. */
  datatype Trig = Trig(cos: real -> real, sin: real -> real) {
    ghost predicate Valid() { forall t :: cos(t) * cos(t) + sin(t) * sin(t) == 1.0 }

    function At(t: real): (r: Angle)
      ensures Valid() ==> r.OnCircle()
    {
      Angle(cos(t), sin(t))
    }
  }

  datatype Vec3 = Vec3(x: real, y: real, z: real) {
    function Norm2(): real { x * x + y * y + z * z }
  }

  /** One rasteriser input: screen column and row, reciprocal depth and luminance. */
  datatype Sample = Sample(xp: int, yp: int, ooz: real, lum: real)

  /** The point of the tube's cross-section circle at angle theta, before rotation. */
  function CircleX(theta: Angle): real { R2 + R1 * theta.c }
  function CircleY(theta: Angle): real { R1 * theta.s }

  /** The rotated surface point (x_, y_, z_) exactly as the source spells it out;
      z_ includes the viewer distance K2. */
  function Rotated(a: Angle, b: Angle, theta: Angle, phi: Angle): Vec3
  {
    var x := CircleX(theta);
    var y := CircleY(theta);
    Vec3(x * (b.c * phi.c + a.s * b.s * phi.s) - y * a.c * b.s,
         x * (b.s * phi.c - a.s * b.c * phi.s) + y * a.c * b.c,
         K2 + a.c * x * phi.s + y * a.s)
  }

  /** The luminance L1 exactly as the source spells it out. */
  function Luminance(a: Angle, b: Angle, theta: Angle, phi: Angle): real
  {
    phi.c * theta.c * b.s - a.c * theta.c * phi.s - a.s * theta.s
      + b.c * (a.c * theta.s - theta.c * a.s * phi.s)
  }

  /** Rotation of the plane vector (u, v) by the angle ang. */
  function Turn(ang: Angle, u: real, v: real): (real, real)
  {
    (ang.c * u - ang.s * v, ang.s * u + ang.c * v)
  }

  /** Reference geometry: the vector (u, v, 0) turned by phi about the y axis, then by A
      about the x axis, then by B about the z axis. */
  function Orient(a: Angle, b: Angle, phi: Angle, u: real, v: real): Vec3
  {
    var (x1, z1) := Turn(phi, u, 0.0);
    var (y2, z2) := Turn(a, v, z1);
    var (x3, y3) := Turn(b, x1, y2);
    Vec3(x3, y3, z2)
  }

  lemma TurnKeepsLength(ang: Angle, u: real, v: real)
    requires ang.OnCircle()
    ensures var (p, q) := Turn(ang, u, v); p * p + q * q == u * u + v * v
  {
  }

  /** The three rotations preserve length. */
  lemma OrientKeepsLength(a: Angle, b: Angle, phi: Angle, u: real, v: real)
    requires a.OnCircle() && b.OnCircle() && phi.OnCircle()
    ensures Orient(a, b, phi, u, v).Norm2() == u * u + v * v
  {
    var (x1, z1) := Turn(phi, u, 0.0);
    var (y2, z2) := Turn(a, v, z1);
    var (x3, y3) := Turn(b, x1, y2);
    TurnKeepsLength(phi, u, 0.0);
    TurnKeepsLength(a, v, z1);
    TurnKeepsLength(b, x1, y2);
    assert Orient(a, b, phi, u, v) == Vec3(x3, y3, z2);
  }

  /** The source's rotated point is the cross-section point carried by the three
      rotations and pushed K2 away from the viewer. */
  lemma RotatedIsOrient(a: Angle, b: Angle, theta: Angle, phi: Angle)
    ensures var p := Orient(a, b, phi, CircleX(theta), CircleY(theta));
            Rotated(a, b, theta, phi) == Vec3(p.x, p.y, K2 + p.z)
  {
  }

  /** The source's luminance is the dot product of the rotated surface normal (the
      cross-section direction (cos theta, sin theta, 0) carried by the same rotations)
      with the light direction (0, 1, -1). */
  lemma LuminanceIsNormalDotLight(a: Angle, b: Angle, theta: Angle, phi: Angle)
    ensures var n := Orient(a, b, phi, theta.c, theta.s);
            Luminance(a, b, theta, phi) == n.y - n.z
  {
  }

  lemma SquareNonNegative(x: real)
    ensures x * x >= 0.0
  {
  }

  lemma SquareGrows(x: real, y: real)
    requires 0.0 <= x <= y
    ensures x * x <= y * y
  {
  }

  lemma CosAtMostOne(theta: Angle)
    requires theta.OnCircle()
    ensures theta.c <= 1.0
  {
  }

  /** Every surface point lies at distance at least K2 - (R1 + R2) = 2 from the viewer,
      so the reciprocal depth is always defined and positive. */
  lemma DepthAtLeastTwo(a: Angle, b: Angle, theta: Angle, phi: Angle)
    requires a.OnCircle() && b.OnCircle() && theta.OnCircle() && phi.OnCircle()
    ensures Rotated(a, b, theta, phi).z >= K2 - (R1 + R2)
  {
    var x, y := CircleX(theta), CircleY(theta);
    var p := Orient(a, b, phi, x, y);
    RotatedIsOrient(a, b, theta, phi);
    OrientKeepsLength(a, b, phi, x, y);
    CosAtMostOne(theta);
    assert x * x + y * y == 5.0 + 4.0 * theta.c;
    assert p.z * p.z <= 9.0;
  }

  /** The luminance never exceeds sqrt 2; in particular it stays below 1.5. */
  lemma LuminanceBelowOneAndAHalf(a: Angle, b: Angle, theta: Angle, phi: Angle)
    requires a.OnCircle() && b.OnCircle() && theta.OnCircle() && phi.OnCircle()
    ensures var l := Luminance(a, b, theta, phi); l * l <= 2.0 && l < 1.5
  {
    var n := Orient(a, b, phi, theta.c, theta.s);
    var l := Luminance(a, b, theta, phi);
    LuminanceIsNormalDotLight(a, b, theta, phi);
    OrientKeepsLength(a, b, phi, theta.c, theta.s);
    assert n.y * n.y + n.z * n.z <= 1.0;
    assert l * l == 2.0 * (n.y * n.y + n.z * n.z) - (n.y + n.z) * (n.y + n.z);
    SquareNonNegative(n.y + n.z);
    assert l * l <= 2.0;
    if l >= 1.5 {
      SquareGrows(1.5, l);
    }
  }

  /** The projection scale K1 for a screen `width` characters wide: the torus's outer
      diameter 2 * (R1 + R2) spans three quarters of the screen at depth K2. */
  function Scale(width: int): (k1: real)
    ensures k1 == (width as real) * 15.0 / 24.0
  {
    (width as real) * K2 * 3.0 / (8.0 * (R1 + R2))
  }

  /** The rasteriser input for surface point (theta, phi) under rotation (A, B). */
  function Project(a: Angle, b: Angle, theta: Angle, phi: Angle, width: int, height: int, k1: real): (s: Sample)
    requires a.OnCircle() && b.OnCircle() && theta.OnCircle() && phi.OnCircle()
    ensures 0.0 < s.ooz <= 1.0 / (K2 - (R1 + R2))
    ensures s.lum < 1.5
  {
    DepthAtLeastTwo(a, b, theta, phi);
    LuminanceBelowOneAndAHalf(a, b, theta, phi);
    var p := Rotated(a, b, theta, phi);
    var ooz := 1.0 / p.z;
    assert ooz * p.z == 1.0;
    Sample(((width as real) / 2.0 + k1 * ooz * p.x).Floor,
           ((height as real) / 2.0 - k1 * ooz * p.y).Floor,
           ooz,
           Luminance(a, b, theta, phi))
  }

  /** The luminance bucket floor(L1 * 8) of a lit sample that the geometry can produce. */
  function GlyphIndex(lum: real): (i: int)
    requires 0.0 < lum < 1.5
    ensures 0 <= i < |Ramp|
  {
    (lum * 8.0).Floor
  }

  /** A brighter sample never gets a sparser glyph. */
  lemma GlyphIndexMonotone(dim: real, bright: real)
    requires 0.0 < dim <= bright < 1.5
    ensures GlyphIndex(dim) <= GlyphIndex(bright)
  {
  }

  function Glyph(lum: real): (g: char)
    requires 0.0 < lum < 1.5
    ensures g in Ramp && g != ' ' && g != '\n'
  {
    Ramp[GlyphIndex(lum)]
  }
}
