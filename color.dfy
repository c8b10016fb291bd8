/** colorRGB.h: an RGB colour with real channels, a zero default, channel-wise
    addition and scaling by a scalar from either side. */
module Color {
  import opened Vectors

  /** The three-argument constructor `colorRGB(c1, c2, c3)` stores its
      arguments unchanged as `r`, `g`, `b`. */
  datatype ColorRGB = ColorRGB(r: real, g: real, b: real)

  /** The default constructor: every channel zero. */
  function Default(): (c: ColorRGB)
    ensures c.r == 0.0 && c.g == 0.0 && c.b == 0.0
  {
    ColorRGB(0.0, 0.0, 0.0)
  }

  /** The member `c * scalar`. */
  function Times(c: ColorRGB, scalar: real): (d: ColorRGB)
    ensures scalar == 1.0 ==> d == c
    ensures scalar == 0.0 ==> d == Default()
  {
    ColorRGB(c.r * scalar, c.g * scalar, c.b * scalar)
  }

  /** The member `c + d`. */
  function Plus(c: ColorRGB, d: ColorRGB): (e: ColorRGB)
    ensures d == Default() ==> e == c
    ensures c == Default() ==> e == d
  {
    ColorRGB(c.r + d.r, c.g + d.g, c.b + d.b)
  }

  /** The free `scalar * color`, which forwards to the member operator. */
  function ScalarTimes(scalar: real, color: ColorRGB): (d: ColorRGB)
    ensures d == ColorRGB(scalar * color.r, scalar * color.g, scalar * color.b)
  {
    Times(color, scalar)
  }

  /** The same colour as a glm `vec3`, the type `main` and `shade` use. */
  function AsVec3(c: ColorRGB): Vec3
  {
    Vec3(c.r, c.g, c.b)
  }

  /** Scaling from the left and from the right agree, and both are glm's
      `scalar * v` on the channels. */
  lemma ScalarTimesCommutes(scalar: real, c: ColorRGB)
    ensures ScalarTimes(scalar, c) == Times(c, scalar)
    ensures AsVec3(Times(c, scalar)) == Scale(scalar, AsVec3(c))
  {
  }

  /** `+` is glm's channel-wise addition. */
  lemma PlusIsVecAdd(c: ColorRGB, d: ColorRGB)
    ensures AsVec3(Plus(c, d)) == Add(AsVec3(c), AsVec3(d))
  {
  }

  /** `+` is commutative and associative. */
  lemma PlusCommutesAssociates(c: ColorRGB, d: ColorRGB, e: ColorRGB)
    ensures Plus(c, d) == Plus(d, c)
    ensures Plus(Plus(c, d), e) == Plus(c, Plus(d, e))
  {
  }

  /** Scaling distributes over `+`. */
  lemma TimesDistributes(c: ColorRGB, d: ColorRGB, s: real)
    ensures Times(Plus(c, d), s) == Plus(Times(c, s), Times(d, s))
  {
  }

  /** Scaling by a sum is the sum of the scalings. */
  lemma TimesSum(c: ColorRGB, s: real, t: real)
    ensures Times(c, s + t) == Plus(Times(c, s), Times(c, t))
  {
  }

  /** Scaling twice scales by the product. */
  lemma TimesTimes(c: ColorRGB, s: real, t: real)
    ensures Times(Times(c, s), t) == Times(c, s * t)
  {
  }
}
