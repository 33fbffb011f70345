/**
 * The arithmetic of the rotary knobs that set the year range: the range
 * it accepts, the value it shows, the dial angle, the snapping of a new
 * value to the step grid, and the keyboard and wheel commands. Numbers are
 * reals; pointer geometry (bounding boxes and `atan2`) is outside the model.
 */
module RetroKnob {
  import opened Wrappers

  /** A JavaScript number as the knob sees it: finite, or `NaN`/infinite/missing. */
  datatype JsNum = Finite(x: real) | NonFinite

  /** The normalised range and the `step` prop (`None` when not given). */
  datatype Knob = Knob(lo: real, hi: real, step: Option<real>)

  function Min(a: real, b: real): real { if a <= b then a else b }
  function Max(a: real, b: real): real { if a >= b then a else b }

  /**
   * `[lo, hi]`: a non-finite `min` counts as 0, a non-finite `max` as one
   * more than that, and the two are swapped when out of order.
   */
  function MakeKnob(min: JsNum, max: JsNum, step: Option<real>): (k: Knob)
    ensures k.lo <= k.hi
    ensures k.step == step
  {
    var a := if min.Finite? then min.x else 0.0;
    var b := if max.Finite? then max.x else a + 1.0;
    if a <= b then Knob(a, b, step) else Knob(b, a, step)
  }

  /** With both bounds finite, the range is spanned by exactly those two numbers. */
  lemma MakeKnobFinite(min: real, max: real, step: Option<real>)
    ensures var k := MakeKnob(Finite(min), Finite(max), step);
            k.lo == Min(min, max) && k.hi == Max(min, max)
  {
  }

  /** Missing bounds give the range [0, 1], or [min, min + 1] when only `max` is missing. */
  lemma MakeKnobDefaults(min: JsNum, step: Option<real>)
    ensures var k := MakeKnob(min, NonFinite, step);
            k.hi == k.lo + 1.0 && k.lo == (if min.Finite? then min.x else 0.0)
  {
  }

  /** `clamped`: the value (or `lo` when null or undefined) pulled into [lo, hi]. */
  function Clamped(k: Knob, value: Option<real>): (c: real)
    requires k.lo <= k.hi
    ensures k.lo <= c <= k.hi
    ensures value.Some? && k.lo <= value.value <= k.hi ==> c == value.value
    ensures value.None? ==> c == k.lo
  {
    Min(k.hi, Max(k.lo, value.GetOr(k.lo)))
  }

  /** `angle`: linear from -135 degrees at `lo`, over a span of at least 1e-9. */
  function Angle(k: Knob, value: Option<real>): (a: real)
    requires k.lo <= k.hi
    ensures -135.0 <= a <= 135.0
    ensures Clamped(k, value) == k.lo ==> a == -135.0
  {
    var d := Max(1.0 / 1000000000.0, k.hi - k.lo);
    DivBounds(Clamped(k, value) - k.lo, d);
    var t := (Clamped(k, value) - k.lo) / d;
    -135.0 + t * 270.0
  }

  lemma DivSelf(d: real)
    requires d > 0.0
    ensures d / d == 1.0
  {
  }

  lemma DivBounds(x: real, d: real)
    requires 0.0 <= x <= d && d > 0.0
    ensures 0.0 <= x / d <= 1.0
  {
  }

  /**
   * The dial stays within -135 to +135 degrees, is at -135 at `lo` (and when
   * the range is empty), and at +135 at `hi` whenever the range is at
   * least 1e-9 wide.
   */
  lemma AngleBounds(k: Knob, value: Option<real>)
    requires k.lo <= k.hi
    ensures -135.0 <= Angle(k, value) <= 135.0
    ensures Clamped(k, value) == k.lo ==> Angle(k, value) == -135.0
    ensures k.hi - k.lo >= 1.0 / 1000000000.0 && Clamped(k, value) == k.hi ==> Angle(k, value) == 135.0
  {
    var d := Max(1.0 / 1000000000.0, k.hi - k.lo);
    if k.hi - k.lo >= 1.0 / 1000000000.0 && Clamped(k, value) == k.hi {
      assert Clamped(k, value) - k.lo == d;
      DivSelf(d);
    }
  }

  /**
   * Between the ends the dial is linear in the clamped value, so a larger
   * value never turns it back: the angle is monotone in the value.
   */
  lemma AngleMonotone(k: Knob, v: Option<real>, w: Option<real>)
    requires k.lo <= k.hi
    requires Clamped(k, v) <= Clamped(k, w)
    ensures Angle(k, v) <= Angle(k, w)
  {
    var d := Max(1.0 / 1000000000.0, k.hi - k.lo);
    DivMonotone(Clamped(k, v) - k.lo, Clamped(k, w) - k.lo, d);
  }

  /** `Math.round`: the nearest integer, halves rounded up. */
  function Round(x: real): (n: int)
    ensures x - 0.5 < n as real <= x + 0.5
  {
    (x + 0.5).Floor
  }

  /** `step || 1`: a missing or zero step counts as 1. */
  function StepSmall(step: Option<real>): (s: real)
    ensures s != 0.0
  {
    if step.Some? && step.value != 0.0 then step.value else 1.0
  }

  /** The grid `snap` rounds to: `Math.max(step || 1, 1)`. */
  function SnapStep(step: Option<real>): (s: real)
    ensures s >= 1.0
  {
    Max(StepSmall(step), 1.0)
  }

  /** `Math.max(stepSmall * 5, 5)`. */
  function StepBig(step: Option<real>): (s: real)
    ensures s >= 5.0
  {
    Max(StepSmall(step) * 5.0, 5.0)
  }

  /** `snap`: the nearest multiple of the grid step, pulled into [lo, hi]. */
  function Snap(k: Knob, v: real): (r: real)
    requires k.lo <= k.hi
    ensures k.lo <= r <= k.hi
  {
    var s := SnapStep(k.step);
    Min(k.hi, Max(k.lo, Round(v / s) as real * s))
  }

  /** A grid point inside the range is left where it is. */
  lemma SnapGridPoint(k: Knob, n: int)
    requires k.lo <= k.hi
    requires k.lo <= (n as real) * SnapStep(k.step) <= k.hi
    ensures var x := (n as real) * SnapStep(k.step); Snap(k, x) == x
  {
    var s := SnapStep(k.step);
    var x := n as real * s;
    assert x / s == n as real;
    RoundInt(n);
    assert Round(x / s) == n;
    assert Round(x / s) as real * s == x;
    assert Max(k.lo, x) == x && Min(k.hi, x) == x;
    assert Snap(k, x) == Min(k.hi, Max(k.lo, Round(x / s) as real * s));
    assert Snap(k, x) == x;
    assert x == (n as real) * SnapStep(k.step);
  }

  lemma MulMonotone(a: real, b: real, s: real)
    requires a <= b && s > 0.0
    ensures a * s <= b * s
  {
  }

  lemma DivMonotone(a: real, b: real, s: real)
    requires a <= b && s > 0.0
    ensures a / s <= b / s
  {
    assert b / s - a / s == (b - a) / s;
  }

  lemma RoundMonotone(a: real, b: real)
    requires a <= b
    ensures Round(a) <= Round(b)
  {
    assert (a + 0.5).Floor <= (b + 0.5).Floor;
  }

  /** A larger input never snaps to a smaller value. */
  lemma SnapMonotone(k: Knob, v: real, w: real)
    requires k.lo <= k.hi && v <= w
    ensures Snap(k, v) <= Snap(k, w)
  {
    var s := SnapStep(k.step);
    DivMonotone(v, w, s);
    RoundMonotone(v / s, w / s);
    var x := Round(v / s) as real * s;
    var y := Round(w / s) as real * s;
    MulMonotone(Round(v / s) as real, Round(w / s) as real, s);
    assert x <= y;
    assert Snap(k, v) == Min(k.hi, Max(k.lo, x));
    assert Snap(k, w) == Min(k.hi, Max(k.lo, y));
  }

  datatype Key = ArrowLeft | ArrowDown | ArrowRight | ArrowUp | PageDown | PageUp | Home | End | OtherKey

  /** `onKeyDown`: the value passed to `onChange`, or `None` when the key is not handled. */
  function OnKeyDown(k: Knob, value: Option<real>, key: Key): (r: Option<real>)
    requires k.lo <= k.hi
    ensures r.Some? ==> k.lo <= r.value <= k.hi
    ensures r.None? <==> key == OtherKey
    ensures key == Home ==> r == Some(k.lo)
    ensures key == End ==> r == Some(k.hi)
  {
    var c := Clamped(k, value);
    match key
    case ArrowLeft => Some(Snap(k, c - StepSmall(k.step)))
    case ArrowDown => Some(Snap(k, c - StepSmall(k.step)))
    case ArrowRight => Some(Snap(k, c + StepSmall(k.step)))
    case ArrowUp => Some(Snap(k, c + StepSmall(k.step)))
    case PageDown => Some(Snap(k, c - StepBig(k.step)))
    case PageUp => Some(Snap(k, c + StepBig(k.step)))
    case Home => Some(k.lo)
    case End => Some(k.hi)
    case OtherKey => None
  }

  /** `onWheel`: scrolling down (positive `deltaY`) steps down, anything else steps up. */
  function OnWheel(k: Knob, value: Option<real>, deltaY: real): (r: real)
    requires k.lo <= k.hi
    ensures k.lo <= r <= k.hi
  {
    var dir := if deltaY > 0.0 then -1.0 else 1.0;
    Snap(k, Clamped(k, value) + dir * StepSmall(k.step))
  }

  /** A step down snaps no higher, and a step up no lower, than staying put. */
  lemma StepAround(k: Knob, c: real, d: real)
    requires k.lo <= k.hi && d > 0.0
    ensures Snap(k, c - d) <= Snap(k, c) <= Snap(k, c + d)
  {
    SnapMonotone(k, c - d, c);
    SnapMonotone(k, c, c + d);
  }

  /** What the four stepping keys hand to `onChange`. */
  lemma OnKeyDownMoves(k: Knob, value: Option<real>)
    requires k.lo <= k.hi
    ensures var c := Clamped(k, value);
            && OnKeyDown(k, value, ArrowDown) == Some(Snap(k, c - StepSmall(k.step)))
            && OnKeyDown(k, value, ArrowUp) == Some(Snap(k, c + StepSmall(k.step)))
            && OnKeyDown(k, value, PageDown) == Some(Snap(k, c - StepBig(k.step)))
            && OnKeyDown(k, value, PageUp) == Some(Snap(k, c + StepBig(k.step)))
  {
  }

  /** With a positive step, the up keys never lower the value and the down keys never raise it. */
  lemma KeysMoveInTheirDirection(k: Knob, value: Option<real>)
    requires k.lo <= k.hi
    requires k.step.None? || k.step.value > 0.0
    ensures var c := Clamped(k, value);
            && OnKeyDown(k, value, ArrowDown).value <= Snap(k, c) <= OnKeyDown(k, value, ArrowUp).value
            && OnKeyDown(k, value, PageDown).value <= Snap(k, c) <= OnKeyDown(k, value, PageUp).value
  {
    var c := Clamped(k, value);
    var s, b := StepSmall(k.step), StepBig(k.step);
    assert s > 0.0 && b > 0.0;
    StepAround(k, c, s);
    StepAround(k, c, b);
    OnKeyDownMoves(k, value);
    assert OnKeyDown(k, value, ArrowDown).value == Snap(k, c - s);
    assert OnKeyDown(k, value, ArrowUp).value == Snap(k, c + s);
    assert OnKeyDown(k, value, PageDown).value == Snap(k, c - b);
    assert OnKeyDown(k, value, PageUp).value == Snap(k, c + b);
  }

  lemma RoundInt(n: int)
    ensures Round(n as real) == n
  {
    assert (n as real + 0.5).Floor == n;
  }

  /** On the unit grid a whole number is only pulled into range. */
  lemma SnapUnit(k: Knob, n: int)
    requires k.lo <= k.hi
    requires SnapStep(k.step) == 1.0
    ensures Snap(k, n as real) == Min(k.hi, Max(k.lo, n as real))
  {
    var s := SnapStep(k.step);
    assert (n as real) / s == n as real;
    RoundInt(n);
    assert Round((n as real) / s) as real * s == n as real;
  }

  /**
   * On a whole-number knob with step 1, ArrowUp moves one up and stops at
   * `hi`, and a downward wheel moves one down and stops at `lo`.
   */
  lemma WholeNumberSteps(lo: int, hi: int, v: int, step: Option<real>)
    requires lo <= hi
    requires step.None? || step == Some(1.0)
    ensures var k := Knob(lo as real, hi as real, step);
            var c := Clamped(k, Some(v as real));
            && OnKeyDown(k, Some(v as real), ArrowUp) == Some(Min(k.hi, c + 1.0))
            && OnWheel(k, Some(v as real), 1.0) == Max(k.lo, c - 1.0)
  {
    var k := Knob(lo as real, hi as real, step);
    var m := if v < lo then lo else if v > hi then hi else v;
    var c := Clamped(k, Some(v as real));
    assert c == m as real;
    assert StepSmall(step) == 1.0 && SnapStep(step) == 1.0;
    SnapUnit(k, m + 1);
    SnapUnit(k, m - 1);
    assert c + 1.0 == (m + 1) as real;
    assert c + -1.0 * 1.0 == (m - 1) as real;
    assert OnKeyDown(k, Some(v as real), ArrowUp) == Some(Snap(k, (m + 1) as real));
    assert OnWheel(k, Some(v as real), 1.0) == Snap(k, (m - 1) as real);
  }

  /** On a whole-number knob with step 1, ArrowDown undoes ArrowUp below `hi`. */
  lemma WholeNumberUpDown(lo: int, hi: int, v: int, step: Option<real>)
    requires lo <= v < hi
    requires step.None? || step == Some(1.0)
    ensures var k := Knob(lo as real, hi as real, step);
            OnKeyDown(k, OnKeyDown(k, Some(v as real), ArrowUp), ArrowDown) == Some(v as real)
  {
    var k := Knob(lo as real, hi as real, step);
    WholeNumberSteps(lo, hi, v, step);
    var up := OnKeyDown(k, Some(v as real), ArrowUp);
    assert up == Some((v + 1) as real);
    assert Clamped(k, up) == (v + 1) as real;
    assert StepSmall(step) == 1.0 && SnapStep(step) == 1.0;
    assert (v + 1) as real - 1.0 == v as real;
    SnapUnit(k, v);
    assert OnKeyDown(k, up, ArrowDown) == Some(Snap(k, v as real));
  }

  /**
   * The point of [lo, hi] that a pointer angle selects: the angle clamped
   * to -135..135 degrees and mapped linearly onto the range.
   */
  function DegPosition(k: Knob, deg: real): real
  {
    var t := (Max(-135.0, Min(135.0, deg)) + 135.0) / 270.0;
    k.lo + t * (k.hi - k.lo)
  }

  /** `setFromDeg`: the selected point of the range, snapped. */
  function SetFromDeg(k: Knob, deg: real): (r: real)
    requires k.lo <= k.hi
    ensures k.lo <= r <= k.hi
  {
    Snap(k, DegPosition(k, deg))
  }

  lemma Lerp(lo: real, hi: real, t: real)
    ensures t == 0.0 ==> lo + t * (hi - lo) == lo
    ensures t == 1.0 ==> lo + t * (hi - lo) == hi
  {
  }

  /** Turning to either end stop selects the snapped end of the range. */
  lemma SetFromDegEnds(k: Knob, deg: real)
    requires k.lo <= k.hi
    ensures deg <= -135.0 ==> SetFromDeg(k, deg) == Snap(k, k.lo)
    ensures deg >= 135.0 ==> SetFromDeg(k, deg) == Snap(k, k.hi)
  {
    var t := (Max(-135.0, Min(135.0, deg)) + 135.0) / 270.0;
    assert DegPosition(k, deg) == k.lo + t * (k.hi - k.lo);
    Lerp(k.lo, k.hi, t);
    if deg <= -135.0 {
      assert t == 0.0;
      assert DegPosition(k, deg) == k.lo;
    }
    if deg >= 135.0 {
      assert t == 1.0;
      assert DegPosition(k, deg) == k.hi;
    }
  }
}
