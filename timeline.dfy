/**
 * The sticky-timeline step activator of the page script.
 *
 * A tracked region (the sticky services section) has a top offset and a
 * height. On every animation frame the script reads the vertical scroll
 * offset, turns it into a progress fraction through the region, maps that
 * fraction to one of the slides, and marks the step element with that index
 * as active. A progress bar shows the fraction as a percentage.
 *
 * Scroll offsets are exact reals (the browser's offset is fractional); the
 * region's offsetTop and offsetHeight are integers, as the DOM reports them.
 */
module StickyTimeline {
  import opened Wrappers

  // ---------------------------------------------------------------------
  // The pure arithmetic: offset -> progress -> step index / bar width
  // ---------------------------------------------------------------------

  /** What one frame reads from the page: the scroll offset and the region's geometry. */
  datatype Sample = Sample(scrolled: real, top: int, height: int)

  /** Normalised position of the scroll offset in the region; 0 at its top, 1 at its bottom. */
  function Progress(s: Sample): real
    requires s.height > 0
  {
    (s.scrolled - s.top as real) / s.height as real
  }

  /** The script only reacts when the progress lies in [0, 1]. */
  predicate InUnitRange(p: real)
  {
    0.0 <= p && p <= 1.0
  }

  /** Math.max(lo, Math.min(x, hi)), written as the script writes it. */
  function Clamp(x: int, lo: int, hi: int): int
  {
    var m := if x < hi then x else hi;
    if lo < m then m else lo
  }

  function MinReal(a: real, b: real): real { if a < b then a else b }
  function MaxReal(a: real, b: real): real { if a < b then b else a }

  /**
   * The slide index for a progress fraction: floor(p * slideCount), clamped
   * into [0, slideCount - 1]. The result is always the index of a slide.
   */
  function StepIndex(p: real, slideCount: nat): (k: nat)
    requires InUnitRange(p) && slideCount >= 1
    ensures k < slideCount
  {
    FloorBounds(p, slideCount);
    Clamp((p * slideCount as real).Floor, 0, slideCount - 1)
  }

  /** p * n lies in [0, n] when p does in [0, 1], and so does its floor. */
  lemma FloorBounds(p: real, n: nat)
    requires InUnitRange(p)
    ensures 0.0 <= p * n as real <= n as real
    ensures 0 <= (p * n as real).Floor <= n
  {
    assert p * n as real <= 1.0 * n as real;
  }

  /**
   * The width the progress bar is given: Math.min(100, Math.max(0, p * 100)).
   * It always lies in [0, 100], and inside the region the clamp changes nothing.
   */
  function BarWidth(p: real): (w: real)
    ensures 0.0 <= w <= 100.0
    ensures InUnitRange(p) ==> w == p * 100.0
  {
    MinReal(100.0, MaxReal(0.0, p * 100.0))
  }

  /**
   * The step a frame selects, or None when the progress falls outside [0, 1]
   * and the frame is ignored.
   */
  function TargetStep(s: Sample, slideCount: nat): (r: Option<nat>)
    requires s.height > 0 && slideCount >= 1
    ensures r.Some? ==> r.value < slideCount
  {
    var p := Progress(s);
    if InUnitRange(p) then Some(StepIndex(p, slideCount)) else None
  }

  /** The progress is in [0, 1] exactly when the offset lies between the region's top and bottom. */
  lemma ProgressInRangeIffInRegion(s: Sample)
    requires s.height > 0
    ensures InUnitRange(Progress(s)) <==> s.top as real <= s.scrolled <= (s.top + s.height) as real
  {
    var h := s.height as real;
    var d := s.scrolled - s.top as real;
    assert Progress(s) * h == d;
  }

  /** A frame is acted on exactly when its offset lies in the closed region. */
  lemma TargetStepIffInRegion(s: Sample, slideCount: nat)
    requires s.height > 0 && slideCount >= 1
    ensures TargetStep(s, slideCount).Some? <==> s.top as real <= s.scrolled <= (s.top + s.height) as real
  {
    ProgressInRangeIffInRegion(s);
  }

  /**
   * The step index k names the slice of [0, 1] that holds p: k/n <= p and
   * p < (k+1)/n, except at p = 1, which is given to the last slide rather than
   * to a slide n that does not exist.
   */
  lemma StepIndexSlice(p: real, n: nat)
    requires InUnitRange(p) && n >= 1
    ensures StepIndex(p, n) as real <= p * n as real
    ensures p * n as real < (StepIndex(p, n) + 1) as real || (p == 1.0 && StepIndex(p, n) == n - 1)
    ensures p < 1.0 ==> StepIndex(p, n) == (p * n as real).Floor
  {
    FloorBounds(p, n);
    var x := p * n as real;
    if p < 1.0 {
      assert x < n as real by {
        assert x < 1.0 * n as real;
      }
      assert x.Floor < n;
    } else {
      assert x == n as real;
      assert x.Floor == n;
    }
  }

  /** At the bottom edge of the region the last slide is selected, not one past it. */
  lemma StepIndexAtEnd(n: nat)
    requires n >= 1
    ensures StepIndex(1.0, n) == n - 1
  {
    assert (1.0 * n as real).Floor == n;
  }

  /** Multiplying by a non-negative factor keeps the order. */
  lemma MulMonotone(a: real, b: real, c: real)
    requires a <= b && 0.0 <= c
    ensures a * c <= b * c
  {
  }

  lemma FloorMonotone(x: real, y: real)
    requires x <= y
    ensures x.Floor <= y.Floor
  {
  }

  lemma ClampMonotone(a: int, b: int, lo: int, hi: int)
    requires a <= b
    ensures Clamp(a, lo, hi) <= Clamp(b, lo, hi)
  {
  }

  /** A larger progress never selects an earlier step. */
  lemma StepIndexMonotone(p1: real, p2: real, n: nat)
    requires InUnitRange(p1) && InUnitRange(p2) && p1 <= p2 && n >= 1
    ensures StepIndex(p1, n) <= StepIndex(p2, n)
  {
    var x1, x2 := p1 * n as real, p2 * n as real;
    MulMonotone(p1, p2, n as real);
    FloorMonotone(x1, x2);
    ClampMonotone(x1.Floor, x2.Floor, 0, n - 1);
  }

  /** For fixed geometry, a larger scroll offset never gives a smaller progress. */
  lemma ProgressMonotone(s1: Sample, s2: Sample)
    requires s1.height > 0 && s1.top == s2.top && s1.height == s2.height
    requires s1.scrolled <= s2.scrolled
    ensures Progress(s1) <= Progress(s2)
  {
    var h := s1.height as real;
    assert Progress(s2) - Progress(s1) == (s2.scrolled - s1.scrolled) / h;
  }

  /** For fixed geometry, scrolling further down the region never selects an earlier step. */
  lemma TargetStepMonotone(s1: Sample, s2: Sample, slideCount: nat)
    requires s1.height > 0 && s1.top == s2.top && s1.height == s2.height && slideCount >= 1
    requires s1.scrolled <= s2.scrolled
    requires TargetStep(s1, slideCount).Some? && TargetStep(s2, slideCount).Some?
    ensures TargetStep(s1, slideCount).value <= TargetStep(s2, slideCount).value
  {
    ProgressMonotone(s1, s2);
    StepIndexMonotone(Progress(s1), Progress(s2), slideCount);
  }

  /** Five slides over a region 1000 high at the top of the page. */
  lemma FiveSlideExample()
    ensures TargetStep(Sample(0.0, 0, 1000), 5) == Some(0)
    ensures TargetStep(Sample(500.0, 0, 1000), 5) == Some(2)
    ensures TargetStep(Sample(999.0, 0, 1000), 5) == Some(4)
    ensures TargetStep(Sample(1000.0, 0, 1000), 5) == Some(4)
    ensures TargetStep(Sample(1000.5, 0, 1000), 5) == None
    ensures TargetStep(Sample(-1.0, 0, 1000), 5) == None
  {
    assert (0.999 * 5.0).Floor == 4;
    assert (1.0 * 5.0).Floor == 5;
    assert (0.5 * 5.0).Floor == 2;
  }

  // ---------------------------------------------------------------------
  // The step flags and the controller's state as a value
  // ---------------------------------------------------------------------

  /** The "active" flags of n step elements once step i has been activated. */
  function ActivatedFlags(n: nat, i: nat): (f: seq<bool>)
    ensures |f| == n
  {
    seq(n, k => k == i)
  }

  /** How many step elements carry the "active" flag. */
  function ActiveCount(f: seq<bool>): nat
  {
    if f == [] then 0 else ActiveCount(f[..|f| - 1]) + (if f[|f| - 1] then 1 else 0)
  }

  /**
   * After activating step i exactly one element is active when step i exists,
   * and none when the index is past the step list.
   */
  lemma {:induction false} ActivatedCount(n: nat, i: nat)
    ensures ActiveCount(ActivatedFlags(n, i)) == if i < n then 1 else 0
  {
    if n > 0 {
      var f := ActivatedFlags(n, i);
      assert f[..n - 1] == ActivatedFlags(n - 1, i);
      ActivatedCount(n - 1, i);
    }
  }

  /** The step that activation marks, and only it. */
  lemma ActivatedOnly(n: nat, i: nat, k: nat)
    requires k < n
    ensures ActivatedFlags(n, i)[k] <==> k == i
  {
  }

  /** The state the timeline controller keeps between frames. */
  datatype Timeline = Timeline(currentStep: nat, flags: seq<bool>, barWidth: Option<real>)

  /** The flags are those that activating currentStep leaves behind. */
  predicate Consistent(t: Timeline)
  {
    t.flags == ActivatedFlags(|t.flags|, t.currentStep)
  }

  /** Whatever width the script has written to the bar lies in [0, 100]. */
  predicate BarInRange(t: Timeline)
  {
    t.barWidth.Some? ==> 0.0 <= t.barWidth.value <= 100.0
  }

  /**
   * One run of the frame handler: outside the region nothing changes; inside,
   * the selected step becomes current, the flags are rewritten only if it
   * differs from the stored one, and the bar (when there is one) is resized.
   */
  function Updated(t: Timeline, slideCount: nat, hasBar: bool, s: Sample): Timeline
    requires s.height > 0 && slideCount >= 1
  {
    match TargetStep(s, slideCount)
    case None => t
    case Some(k) =>
      Timeline(
        k,
        if k != t.currentStep then ActivatedFlags(|t.flags|, k) else t.flags,
        if hasBar then Some(BarWidth(Progress(s))) else t.barWidth)
  }

  /** A frame whose offset is outside the region leaves step, flags and bar as they were. */
  lemma UpdatedOutsideRegion(t: Timeline, slideCount: nat, hasBar: bool, s: Sample)
    requires s.height > 0 && slideCount >= 1
    requires s.scrolled < s.top as real || s.scrolled > (s.top + s.height) as real
    ensures Updated(t, slideCount, hasBar, s) == t
  {
    TargetStepIffInRegion(s, slideCount);
  }

  /**
   * A frame inside the region makes the selected slide index current and,
   * when the bar exists, sets its width to the progress as a percentage.
   */
  lemma UpdatedInsideRegion(t: Timeline, slideCount: nat, hasBar: bool, s: Sample)
    requires s.height > 0 && slideCount >= 1
    requires s.top as real <= s.scrolled <= (s.top + s.height) as real
    ensures Updated(t, slideCount, hasBar, s).currentStep == StepIndex(Progress(s), slideCount)
    ensures |Updated(t, slideCount, hasBar, s).flags| == |t.flags|
    ensures hasBar ==> Updated(t, slideCount, hasBar, s).barWidth == Some(Progress(s) * 100.0)
    ensures !hasBar ==> Updated(t, slideCount, hasBar, s).barWidth == t.barWidth
  {
    TargetStepIffInRegion(s, slideCount);
  }

  /** When the selected step is already current, the flags are not touched. */
  lemma UpdatedSameStepKeepsFlags(t: Timeline, slideCount: nat, hasBar: bool, s: Sample)
    requires s.height > 0 && slideCount >= 1
    requires TargetStep(s, slideCount) == Some(t.currentStep)
    ensures Updated(t, slideCount, hasBar, s).flags == t.flags
    ensures Updated(t, slideCount, hasBar, s).currentStep == t.currentStep
  {
  }

  /** Running the handler a second time on the same frame changes nothing more. */
  lemma UpdatedIdempotent(t: Timeline, slideCount: nat, hasBar: bool, s: Sample)
    requires s.height > 0 && slideCount >= 1
    ensures Updated(Updated(t, slideCount, hasBar, s), slideCount, hasBar, s) == Updated(t, slideCount, hasBar, s)
  {
  }

  /** A frame that moves to another step leaves exactly that step marked. */
  lemma UpdatedChangedStep(t: Timeline, slideCount: nat, hasBar: bool, s: Sample)
    requires s.height > 0 && slideCount >= 1
    requires Updated(t, slideCount, hasBar, s).currentStep != t.currentStep
    ensures Consistent(Updated(t, slideCount, hasBar, s))
  {
  }

  /** Consistency of flags with the stored step, and the bar's range, survive every frame. */
  lemma UpdatedPreservesInvariants(t: Timeline, slideCount: nat, hasBar: bool, s: Sample)
    requires s.height > 0 && slideCount >= 1
    ensures Consistent(t) ==> Consistent(Updated(t, slideCount, hasBar, s))
    ensures BarInRange(t) ==> BarInRange(Updated(t, slideCount, hasBar, s))
  {
  }

  /** In a consistent state at most one step is active: the current one, if such a step element exists. */
  lemma ConsistentActiveCount(t: Timeline)
    requires Consistent(t)
    ensures ActiveCount(t.flags) == if t.currentStep < |t.flags| then 1 else 0
  {
    ActivatedCount(|t.flags|, t.currentStep);
  }

  /**
   * The eager first update at setup, with the stored step still 0, activates
   * nothing when the page sits at step 0 or outside the region: the markup's
   * own flags stay as they are.
   */
  lemma InitialUpdateKeepsMarkup(markup: seq<bool>, slideCount: nat, hasBar: bool, s: Sample)
    requires s.height > 0 && slideCount >= 1
    requires TargetStep(s, slideCount) == None || TargetStep(s, slideCount) == Some(0)
    ensures Updated(Timeline(0, markup, None), slideCount, hasBar, s).flags == markup
    ensures Updated(Timeline(0, markup, None), slideCount, hasBar, s).currentStep == 0
  {
  }

  // ---------------------------------------------------------------------
  // The controller object
  // ---------------------------------------------------------------------

  /**
   * The closure built at setup: the step elements' "active" flags, the
   * stored current step and the progress bar's width (None until written).
   */
  class TimelineController {
    const slideCount: nat
    const hasBar: bool
    const steps: array<bool>
    var currentStep: nat
    var barWidth: Option<real>

    ghost predicate Valid()
    {
      slideCount >= 1 && steps.Length >= 1
    }

    /** The controller's state as a value. */
    ghost function View(): Timeline
      reads this, steps
    {
      Timeline(currentStep, steps[..], barWidth)
    }

    /** Setup past the presence check: the stored step starts at 0; the flags are the markup's. */
    constructor (markup: seq<bool>, slides: nat, bar: bool)
      requires |markup| >= 1 && slides >= 1
      ensures Valid() && fresh(steps)
      ensures slideCount == slides && hasBar == bar
      ensures View() == Timeline(0, markup, None)
    {
      slideCount := slides;
      hasBar := bar;
      steps := new bool[|markup|](k requires 0 <= k < |markup| => markup[k]);
      currentStep := 0;
      barWidth := None;
    }

    /**
     * Clears "active" on every step, then sets it on step i if there is one.
     * The result does not depend on the flags before.
     */
    method ActivateStep(i: nat)
      modifies steps
      ensures steps[..] == ActivatedFlags(steps.Length, i)
    {
      var k := 0;
      while k < steps.Length
        invariant 0 <= k <= steps.Length
        invariant forall j :: 0 <= j < k ==> !steps[j]
      {
        steps[k] := false;
        k := k + 1;
      }
      if i < steps.Length {
        steps[i] := true;
      }
      assert forall j :: 0 <= j < steps.Length ==> steps[j] == (j == i);
    }

    /** The frame handler: its effect is Updated applied to the state before. */
    method UpdateTimeline(s: Sample)
      requires Valid() && s.height > 0
      modifies this, steps
      ensures Valid()
      ensures View() == Updated(old(View()), slideCount, hasBar, s)
    {
      var p := Progress(s);
      if 0.0 <= p && p <= 1.0 {
        var k := StepIndex(p, slideCount);
        if k != currentStep {
          currentStep := k;
          ActivateStep(currentStep);
        }
        if hasBar {
          barWidth := Some(BarWidth(p));
        }
      }
    }
  }

  /**
   * Setup: without steps, slides or the tracked region nothing is set up
   * (null); otherwise a controller is made and updated once for the current
   * scroll position.
   */
  method InitStickyTimeline(markup: seq<bool>, slideCount: nat, hasSection: bool, hasBar: bool, s: Sample)
    returns (c: TimelineController?)
    requires hasSection ==> s.height > 0
    ensures c == null <==> (|markup| == 0 || slideCount == 0 || !hasSection)
    ensures c != null ==> fresh(c) && fresh(c.steps) && c.Valid()
    ensures c != null ==> c.slideCount == slideCount && c.hasBar == hasBar
    ensures c != null ==> c.View() == Updated(Timeline(0, markup, None), slideCount, hasBar, s)
  {
    if |markup| == 0 || slideCount == 0 || !hasSection {
      return null;
    }
    c := new TimelineController(markup, slideCount, hasBar);
    c.UpdateTimeline(s);
  }
}
