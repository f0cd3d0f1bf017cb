/** The Catmull-Rom evaluator `CRSpline` of the trail renderer, over the reals:
    the cubic in Horner form, one coordinate at a time. */
module Spline {
  import opened Vectors

  /** One coordinate of the Horner-form evaluation. */
  function Cr(t: real, a0: real, a1: real, a2: real, a3: real): (r: real)
    ensures t == 0.0 ==> r == a1
    ensures t == 1.0 ==> r == a2
    ensures a0 == a1 == a2 == a3 ==> r == a1
  {
    var a := 3.0 * a1 - a0 - 3.0 * a2 + a3;
    var b := 2.0 * a0 - 5.0 * a1 + 4.0 * a2 - a3;
    var c := a2 - a0;
    a1 + (0.5 * t) * (c + t * (b + t * a))
  }

  /** `CRSpline(t, p0, p1, p2, p3)`: the curve passes through `p1` at t = 0
      and through `p2` at t = 1, and a trail standing still stays put. */
  function CRSpline(t: real, p0: Vec3, p1: Vec3, p2: Vec3, p3: Vec3): (r: Vec3)
    ensures t == 0.0 ==> r == p1
    ensures t == 1.0 ==> r == p2
    ensures p0 == p1 == p2 == p3 ==> r == p0
  {
    Vec3(Cr(t, p0.x, p1.x, p2.x, p3.x),
         Cr(t, p0.y, p1.y, p2.y, p3.y),
         Cr(t, p0.z, p1.z, p2.z, p3.z))
  }

  /** The four Catmull-Rom blending polynomials (tension 1/2), the textbook
      definition of the curve independently of the Horner form. */
  function Basis0(t: real): real { 0.5 * (-t + 2.0 * t * t - t * t * t) }
  function Basis1(t: real): real { 0.5 * (2.0 - 5.0 * t * t + 3.0 * t * t * t) }
  function Basis2(t: real): real { 0.5 * (t + 4.0 * t * t - 3.0 * t * t * t) }
  function Basis3(t: real): real { 0.5 * (-t * t + t * t * t) }

  /** The Horner form of the source is the blend of the four control values. */
  lemma CrIsBlend(t: real, a0: real, a1: real, a2: real, a3: real)
    ensures Cr(t, a0, a1, a2, a3)
         == Basis0(t) * a0 + Basis1(t) * a1 + Basis2(t) * a2 + Basis3(t) * a3
  {
  }

  /** Moving every control value by `d` moves the curve by `d`. */
  lemma CrTranslate(t: real, a0: real, a1: real, a2: real, a3: real, d: real)
    ensures Cr(t, a0 + d, a1 + d, a2 + d, a3 + d) == Cr(t, a0, a1, a2, a3) + d
  {
  }

  /** Translating all four control points translates the evaluated point. */
  lemma CRSplineTranslate(t: real, p0: Vec3, p1: Vec3, p2: Vec3, p3: Vec3, d: Vec3)
    ensures CRSpline(t, Add(p0, d), Add(p1, d), Add(p2, d), Add(p3, d))
         == Add(CRSpline(t, p0, p1, p2, p3), d)
  {
    CrTranslate(t, p0.x, p1.x, p2.x, p3.x, d.x);
    CrTranslate(t, p0.y, p1.y, p2.y, p3.y, d.y);
    CrTranslate(t, p0.z, p1.z, p2.z, p3.z, d.z);
  }

  /** Reading the control values backwards traces the same curve backwards. */
  lemma CrReverse(t: real, a0: real, a1: real, a2: real, a3: real)
    ensures Cr(t, a0, a1, a2, a3) == Cr(1.0 - t, a3, a2, a1, a0)
  {
  }

  /** Reversing the four control points traces the same curve backwards. */
  lemma CRSplineReverse(t: real, p0: Vec3, p1: Vec3, p2: Vec3, p3: Vec3)
    ensures CRSpline(t, p0, p1, p2, p3) == CRSpline(1.0 - t, p3, p2, p1, p0)
  {
    CrReverse(t, p0.x, p1.x, p2.x, p3.x);
    CrReverse(t, p0.y, p1.y, p2.y, p3.y);
    CrReverse(t, p0.z, p1.z, p2.z, p3.z);
  }
}
