/**
 * The blink gate of `/detect_action`: the eye aspect ratio of each eye, their mean, and the
 * strict comparison with 0.2.
 */
module Liveness {
  import opened Common
  import opened Vision

  const BlinkThreshold: real := 0.2

  /**
   * A NumPy `float64` quotient. When the eye width `C` is zero, NumPy yields infinity or NaN,
   * and neither compares below any threshold.
   */
  datatype Ratio = Finite(value: real) | NotFinite

  /** `ratio < t` in floating point. */
  predicate Below(r: Ratio, t: real)
  {
    r.Finite? && r.value < t
  }

  /** `(A + B) / (2.0 * C)`. */
  function AspectRatio(a: real, b: real, c: real): (r: Ratio)
    ensures r.Finite? <==> c != 0.0
    ensures r.Finite? ==> r.value * (2.0 * c) == a + b
  {
    if c == 0.0 then NotFinite else Finite((a + b) / (2.0 * c))
  }

  /**
   * `eye_aspect_ratio(eye)`: lid gaps `A = |p1 - p5|`, `B = |p2 - p4|` over twice the corner
   * distance `C = |p0 - p3|`; `None` where Python raises `IndexError` (fewer than six points).
   */
  function EyeAspectRatio(eye: seq<Point>, norm: (Point, Point) -> real): (r: Option<Ratio>)
    ensures r.Some? <==> |eye| >= 6
  {
    if |eye| < 6 then None
    else Some(AspectRatio(norm(eye[1], eye[5]), norm(eye[2], eye[4]), norm(eye[0], eye[3])))
  }

  /** `(left_ear + right_ear) / 2`. */
  function Mean(left: Ratio, right: Ratio): (r: Ratio)
    ensures r.Finite? <==> left.Finite? && right.Finite?
    ensures r.Finite? ==> 2.0 * r.value == left.value + right.value
  {
    if left.Finite? && right.Finite? then Finite((left.value + right.value) / 2.0) else NotFinite
  }

  /** The blink decision: the mean ratio of both eyes is strictly below 0.2. */
  predicate IsBlink(left: Ratio, right: Ratio)
  {
    Below(Mean(left, right), BlinkThreshold)
  }

  /** For a non-degenerate eye, the ratio is below `t` exactly when `A + B < 2 t C`. */
  lemma BelowWithoutDivision(a: real, b: real, c: real, t: real)
    requires c > 0.0
    ensures Below(AspectRatio(a, b, c), t) <==> a + b < 2.0 * t * c
  {
    var q := (a + b) / (2.0 * c);
    assert q * (2.0 * c) == a + b;
    if q < t {
      assert q * (2.0 * c) < t * (2.0 * c);
    } else {
      assert q * (2.0 * c) >= t * (2.0 * c);
    }
  }

  /** A degenerate eye (zero corner distance) never reads as a blink, whatever the other eye. */
  lemma DegenerateEyeNeverBlinks(a: real, b: real, other: Ratio)
    ensures !IsBlink(AspectRatio(a, b, 0.0), other) && !IsBlink(other, AspectRatio(a, b, 0.0))
  {
  }

  /** Closed lids (upper and lower lid points coincide) give ratio 0 on a non-degenerate eye. */
  lemma ClosedLidsGiveZero(eye: seq<Point>, norm: (Point, Point) -> real)
    requires |eye| >= 6 && eye[1] == eye[5] && eye[2] == eye[4]
    requires forall p :: norm(p, p) == 0.0
    requires norm(eye[0], eye[3]) != 0.0
    ensures EyeAspectRatio(eye, norm) == Some(Finite(0.0))
  {
    assert norm(eye[1], eye[5]) == 0.0 && norm(eye[2], eye[4]) == 0.0;
  }

  /** Both eyes closed: the frame is a blink. */
  lemma ClosedEyesBlink(left: seq<Point>, right: seq<Point>, norm: (Point, Point) -> real)
    requires |left| >= 6 && left[1] == left[5] && left[2] == left[4] && norm(left[0], left[3]) != 0.0
    requires |right| >= 6 && right[1] == right[5] && right[2] == right[4] && norm(right[0], right[3]) != 0.0
    requires forall p :: norm(p, p) == 0.0
    ensures IsBlink(EyeAspectRatio(left, norm).value, EyeAspectRatio(right, norm).value)
  {
    ClosedLidsGiveZero(left, norm);
    ClosedLidsGiveZero(right, norm);
  }

  /** Wide-open eyes (lid gaps at least 0.4 of the corner distance) are not a blink. */
  lemma OpenEyesDoNotBlink(al: real, bl: real, cl: real, ar: real, br: real, cr: real)
    requires cl > 0.0 && cr > 0.0
    requires al + bl >= 0.4 * cl && ar + br >= 0.4 * cr
    ensures !IsBlink(AspectRatio(al, bl, cl), AspectRatio(ar, br, cr))
  {
    BelowWithoutDivision(al, bl, cl, BlinkThreshold);
    BelowWithoutDivision(ar, br, cr, BlinkThreshold);
  }

  /** A blink needs at least one eye below the threshold, and both eyes below make one. */
  lemma BlinkNeedsOneClosedEye(left: Ratio, right: Ratio)
    ensures IsBlink(left, right) ==> Below(left, BlinkThreshold) || Below(right, BlinkThreshold)
    ensures Below(left, BlinkThreshold) && Below(right, BlinkThreshold) ==> IsBlink(left, right)
  {
  }
}
