/** The four-slot control-point ring of the trail renderer: raw positions of
    the tracked object, newest first, admitted only when the object has moved
    far enough from the newest one. */
module ControlRing {
  import opened Vectors

  /** Length of `controlPoints`. */
  const Capacity: nat := 4

  /** The admission test `(a - b).magnitude > minDist`, without the square
      root: for a negative threshold every distance passes, otherwise the
      squared distance is compared with the squared threshold. */
  predicate Far(a: Vec3, b: Vec3, minDist: real)
    // the object standing on the newest point is admitted only for a negative threshold
    ensures a == b ==> (Far(a, b, minDist) <==> minDist < 0.0)
  {
    minDist < 0.0 || SqLen(Sub(a, b)) > minDist * minDist
  }

  /** `Far` agrees with comparing the true length `m` of `a - b` (any
      non-negative `m` whose square is the squared distance). */
  lemma FarIsMagnitudeTest(a: Vec3, b: Vec3, minDist: real, m: real)
    requires m >= 0.0 && m * m == SqLen(Sub(a, b))
    ensures Far(a, b, minDist) <==> m > minDist
  {
    if minDist >= 0.0 {
      var d := minDist;
      assert m * m - d * d == (m - d) * (m + d);
      if m > d {
        PositiveProduct(m - d, m + d);
      } else {
        assert (d - m) * (m + d) >= 0.0;
      }
    }
  }

  lemma PositiveProduct(x: real, y: real)
    requires x > 0.0 && y > 0.0
    ensures x * y > 0.0
  {
  }

  /** Admission of `pos`: the three newer points move one slot older, the
      oldest one is overwritten, and `pos` becomes slot 0. */
  method ShiftIn(cp: seq<Vec3>, pos: Vec3) returns (r: seq<Vec3>)
    requires |cp| == Capacity
    ensures |r| == Capacity
    ensures r[0] == pos
    ensures r[1..] == cp[..3]
  {
    r := cp;
    var j := 3;
    while j > 0
      invariant 0 <= j <= 3
      invariant |r| == Capacity
      invariant forall k :: 0 <= k <= j ==> r[k] == cp[k]
      invariant forall k :: j < k < Capacity ==> r[k] == cp[k - 1]
    {
      r := r[j := r[j - 1]];
      j := j - 1;
    }
    r := r[0 := pos];
  }

  /** The ring after admitting the positions of `history` in order, oldest
      first, starting from the slots `init`: a reference definition of what
      repeated admission keeps. */
  function Window(init: seq<Vec3>, history: seq<Vec3>): (w: seq<Vec3>)
    requires |init| == Capacity
    ensures |w| == Capacity
  {
    if |history| == 0 then init
    else [history[|history| - 1]] + Window(init, history[..|history| - 1])[..3]
  }

  /** The ring holds the most recently admitted positions, newest first, and
      the initial slots fill whatever the history has not yet reached. */
  lemma {:induction false} WindowIsNewestFirst(init: seq<Vec3>, history: seq<Vec3>)
    requires |init| == Capacity
    ensures forall k :: 0 <= k < Capacity && k < |history| ==>
              Window(init, history)[k] == history[|history| - 1 - k]
    ensures forall k :: |history| <= k < Capacity ==>
              Window(init, history)[k] == init[k - |history|]
  {
    if |history| > 0 {
      var front := history[..|history| - 1];
      WindowIsNewestFirst(init, front);
      var w := Window(init, history);
      forall k | 1 <= k < Capacity
        ensures w[k] == Window(init, front)[k - 1]
      {
      }
    }
  }

  /** One admission step of `ShiftIn` extends the history by one position. */
  lemma AdmissionExtendsWindow(init: seq<Vec3>, history: seq<Vec3>, pos: Vec3, r: seq<Vec3>)
    requires |init| == Capacity && |r| == Capacity
    requires r[0] == pos
    requires r[1..] == Window(init, history)[..3]
    ensures r == Window(init, history + [pos])
  {
  }
}
