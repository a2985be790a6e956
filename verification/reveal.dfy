/**
 * The profile-image reveal: over ten seconds a progress value climbs from 0
 * to 1, every canvas parameter moves linearly from its "pixelated" value to
 * its "settled" one, the original photograph fades in over the last three
 * seconds, and any image error switches the whole component to a fallback
 * card.  Time enters as the elapsed milliseconds at each animation frame.
 */
module Reveal {
  import opened Wrappers
  import PixelCanvas
  import HexColor

  /** Length of the reveal, in milliseconds. */
  const Duration: int := 10000

  /** `Math.min(elapsed / duration, 1)`. */
  function Progress(elapsed: int): (p: real)
    ensures p <= 1.0
    ensures elapsed >= 0 ==> 0.0 <= p
    ensures p == 1.0 <==> elapsed >= Duration
    ensures p < 1.0 ==> p * Duration as real == elapsed as real
  {
    var q := elapsed as real / Duration as real;
    if q < 1.0 then q else 1.0
  }

  /** Progress never moves backwards while the clock does not. */
  lemma ProgressMonotone(e1: int, e2: int)
    requires e1 <= e2
    ensures Progress(e1) <= Progress(e2)
  {
  }

  /** The frame callback asks for another frame exactly while the reveal is
      unfinished. */
  predicate RequestsNextFrame(p: real) {
    p < 1.0
  }

  /** The progress values the animation loop stores, one per frame, given the
      elapsed time at each frame it could run: the loop stops after the first
      frame that reaches 1. */
  function Animate(times: seq<int>): (stored: seq<real>)
    ensures |stored| <= |times|
    ensures forall i :: 0 <= i < |stored| ==> stored[i] == Progress(times[i])
    ensures forall i :: 0 <= i < |stored| - 1 ==> RequestsNextFrame(stored[i])
    ensures |stored| < |times| ==> stored != [] && stored[|stored| - 1] == 1.0
  {
    if times == [] then []
    else
      var p := Progress(times[0]);
      if RequestsNextFrame(p) then [p] + Animate(times[1..]) else [p]
  }

  /** Once some frame is at least ten seconds in, the loop has stopped by
      that frame, and the last value it stored is exactly 1. */
  lemma {:induction false} AnimationSettles(times: seq<int>, j: nat)
    requires j < |times| && times[j] >= Duration
    ensures 0 < |Animate(times)| <= j + 1
    ensures Animate(times)[|Animate(times)| - 1] == 1.0
  {
    if Progress(times[0]) < 1.0 {
      assert j > 0;
      AnimationSettles(times[1..], j - 1);
    }
  }

  /** With a clock that does not run backwards the stored values only grow. */
  lemma {:induction false} AnimationMonotone(times: seq<int>)
    requires forall i, j :: 0 <= i <= j < |times| ==> times[i] <= times[j]
    ensures forall i, j :: 0 <= i <= j < |Animate(times)| ==> Animate(times)[i] <= Animate(times)[j]
  {
    var s := Animate(times);
    forall i, j | 0 <= i <= j < |s| ensures s[i] <= s[j] {
      ProgressMonotone(times[i], times[j]);
    }
  }

  // -------------------------------------------------------------- params

  /** The canvas props the reveal drives from progress. */
  datatype Params = Params(
    cellSize: real,
    dropout: real,
    jitterStrength: real,
    jitterSpeed: real,
    distortionStrength: real,
    tintStrength: real,
    dotScale: real,
    radius: real,
    followSpeed: real)

  /** The pixelated look at the start of the reveal. */
  const Start: Params := Params(8.0, 0.6, 6.0, 3.0, 4.0, 0.3, 0.9, 80.0, 0.15)

  /** The settled look at the end of the reveal. */
  const End: Params := Params(2.0, 0.05, 0.5, 0.3, 0.5, 0.05, 0.98, 100.0, 0.07)

  function Lerp(a: real, b: real, p: real): real {
    a + (b - a) * p
  }

  /** Straight-line interpolation between two settings, field by field. */
  function Interpolate(a: Params, b: Params, p: real): Params {
    Params(Lerp(a.cellSize, b.cellSize, p), Lerp(a.dropout, b.dropout, p),
           Lerp(a.jitterStrength, b.jitterStrength, p), Lerp(a.jitterSpeed, b.jitterSpeed, p),
           Lerp(a.distortionStrength, b.distortionStrength, p), Lerp(a.tintStrength, b.tintStrength, p),
           Lerp(a.dotScale, b.dotScale, p), Lerp(a.radius, b.radius, p), Lerp(a.followSpeed, b.followSpeed, p))
  }

  /** The props as the component computes them from progress. */
  function ParamsAt(p: real): (r: Params)
    ensures p == 0.0 ==> r == Start
    ensures p == 1.0 ==> r == End
  {
    Params(8.0 - p * 6.0, 0.6 - p * 0.55, 6.0 - p * 5.5, 3.0 - p * 2.7, 4.0 - p * 3.5,
           0.3 - p * 0.25, 0.9 + p * 0.08, 80.0 + p * 20.0, 0.15 - p * 0.08)
  }

  /** Every prop moves on the straight line from the start look to the end
      look. */
  lemma ParamsAreInterpolation(p: real)
    ensures ParamsAt(p) == Interpolate(Start, End, p)
  {
  }

  /** All fields of `r` lie between those of `a` and `b`. */
  predicate Between(r: Params, a: Params, b: Params) {
    && Within(r.cellSize, a.cellSize, b.cellSize) && Within(r.dropout, a.dropout, b.dropout)
    && Within(r.jitterStrength, a.jitterStrength, b.jitterStrength)
    && Within(r.jitterSpeed, a.jitterSpeed, b.jitterSpeed)
    && Within(r.distortionStrength, a.distortionStrength, b.distortionStrength)
    && Within(r.tintStrength, a.tintStrength, b.tintStrength)
    && Within(r.dotScale, a.dotScale, b.dotScale) && Within(r.radius, a.radius, b.radius)
    && Within(r.followSpeed, a.followSpeed, b.followSpeed)
  }

  predicate Within(v: real, a: real, b: real) {
    (a <= v <= b) || (b <= v <= a)
  }

  /** During the reveal no prop leaves its range: the cell size stays in
      [2, 8], the dropout in [0.05, 0.6], the tint strength in [0.05, 0.3]. */
  lemma ParamsInRange(p: real)
    requires 0.0 <= p <= 1.0
    ensures Between(ParamsAt(p), Start, End)
    ensures 2.0 <= ParamsAt(p).cellSize <= 8.0
    ensures 0.0 < ParamsAt(p).tintStrength <= 1.0
    ensures 0.0 < ParamsAt(p).jitterStrength
  {
  }

  /** Later means finer: cell size, dropout, jitter, distortion and tint only
      shrink while dot size and radius only grow. */
  lemma ParamsMonotone(p: real, q: real)
    requires p <= q
    ensures var a, b := ParamsAt(p), ParamsAt(q);
      && b.cellSize <= a.cellSize && b.dropout <= a.dropout
      && b.jitterStrength <= a.jitterStrength && b.jitterSpeed <= a.jitterSpeed
      && b.distortionStrength <= a.distortionStrength && b.tintStrength <= a.tintStrength
      && a.dotScale <= b.dotScale && a.radius <= b.radius && b.followSpeed <= a.followSpeed
  {
  }

  // ------------------------------------------------------------ opacities

  function CanvasOpacity(p: real): real {
    1.0 - p * 0.3
  }

  /** The photograph: invisible until progress passes 0.7, then linear up to 1. */
  function ImageOpacity(p: real): real {
    if p > 0.7 then (p - 0.7) / 0.3 else 0.0
  }

  function GlowOpacity(p: real): real {
    0.5 + p * 0.3
  }

  /** Over the reveal the canvas dims to no less than 0.7, the photograph's
      opacity stays in [0, 1] and is 0 through the first seven seconds and 1
      at the end, and the glow brightens from 0.5 to 0.8. */
  lemma OpacitiesInRange(p: real)
    requires 0.0 <= p <= 1.0
    ensures 0.7 <= CanvasOpacity(p) <= 1.0
    ensures 0.0 <= ImageOpacity(p) <= 1.0
    ensures p <= 0.7 ==> ImageOpacity(p) == 0.0
    ensures p == 1.0 ==> ImageOpacity(p) == 1.0
    ensures 0.5 <= GlowOpacity(p) <= 0.8
  {
  }

  /** The photograph only fades in, never out, as progress grows. */
  lemma ImageOpacityMonotone(p: real, q: real)
    requires p <= q
    ensures ImageOpacity(p) <= ImageOpacity(q)
  {
  }

  /** The "Loading ... n%" pill: shown with the rounded percentage while the
      reveal runs, absent once it is done. */
  function Indicator(p: real): (r: Option<int>)
    ensures r.Some? <==> p < 1.0
  {
    if p < 1.0 then Some(PixelCanvas.Round(p * 100.0)) else None
  }

  /** The percentage is always between 0 and 100. */
  lemma IndicatorInRange(p: real)
    requires 0.0 <= p
    ensures Indicator(p).Some? ==> 0 <= Indicator(p).value <= 100
  {
  }

  // ------------------------------------------------------------ the view

  /** The component's state: stored progress and the image-error flag. */
  datatype View = View(progress: real, imageError: bool)

  const Initial: View := View(0.0, false)

  /** A frame at some elapsed time, or an `onError` from either the canvas's
      image loader or the photograph. */
  datatype Event = Frame(elapsed: int) | CanvasError | PhotoError

  function Step(v: View, e: Event): (r: View)
    ensures v.imageError ==> r.imageError
    ensures e.Frame? ==> r.imageError == v.imageError
  {
    match e
    case Frame(elapsed) => v.(progress := Progress(elapsed))
    case CanvasError => v.(imageError := true)
    case PhotoError => v.(imageError := true)
  }

  function Run(v: View, events: seq<Event>): View
    decreases |events|
  {
    if events == [] then v else Run(Step(v, events[0]), events[1..])
  }

  /** The error flag is set exactly when some event was an error, and never
      cleared. */
  lemma {:induction false} ErrorIffSomeError(v: View, events: seq<Event>)
    ensures Run(v, events).imageError <==>
      (v.imageError || exists i :: 0 <= i < |events| && !events[i].Frame?)
    decreases |events|
  {
    if events != [] {
      ErrorIffSomeError(Step(v, events[0]), events[1..]);
      forall i | 0 <= i < |events[1..]| ensures events[1..][i] == events[i + 1] {}
      if exists i :: 0 <= i < |events| && !events[i].Frame? {
        var i :| 0 <= i < |events| && !events[i].Frame?;
        if i > 0 {
          assert !events[1..][i - 1].Frame?;
        }
      }
    }
  }

  datatype Layer = CanvasLayer | PhotoLayer | GlowLayer | IndicatorLayer | FallbackLayer

  /** What is on screen: either the fallback card alone, or canvas,
      photograph and glow, plus the progress pill while unfinished. */
  function Layers(v: View): (r: set<Layer>)
    ensures FallbackLayer in r <==> v.imageError
    ensures FallbackLayer in r ==> r == {FallbackLayer}
    ensures IndicatorLayer in r <==> !v.imageError && v.progress < 1.0
  {
    if v.imageError then {FallbackLayer}
    else {CanvasLayer, PhotoLayer, GlowLayer} + (if v.progress < 1.0 then {IndicatorLayer} else {})
  }

  /** After any error the fallback card is all that can ever be seen again. */
  lemma {:induction false} FallbackIsFinal(v: View, events: seq<Event>)
    requires v.imageError
    ensures Layers(Run(v, events)) == {FallbackLayer}
    decreases |events|
  {
    if events != [] {
      FallbackIsFinal(Step(v, events[0]), events[1..]);
    }
  }

  // ------------------------------------------------------ the canvas props

  /** The jitter never dies down during the reveal: it is at least 0.5 on
      every frame, so the render loop would reschedule itself even if the
      canvas were not interactive. */
  lemma CanvasAlwaysAnimates(p: real)
    requires 0.0 <= p <= 1.0
    ensures ParamsAt(p).jitterStrength >= 0.5
    ensures PixelCanvas.Reschedules(ParamsAt(p).jitterStrength, false)
  {
  }

  /** The tint the reveal passes is cyan, and its strength keeps every drawn
      colour in byte range throughout. */
  lemma RevealTintIsCyan(tintColor: string, p: real, c: PixelCanvas.Rgba)
    requires tintColor == "#06B6D4" && 0.0 <= p <= 1.0 && PixelCanvas.InByteRange(c)
    ensures HexColor.HexToRgb(tintColor) == HexColor.Rgb(6, 182, 212)
    ensures PixelCanvas.InByteRange(PixelCanvas.ApplyTint(c, HexColor.HexToRgb(tintColor), ParamsAt(p).tintStrength))
  {
    HexColor.RevealTint(tintColor);
    PixelCanvas.TintInRange(c, HexColor.HexToRgb(tintColor), ParamsAt(p).tintStrength);
  }

  /** On the 400 x 500 canvas the start look (cell size 8) has 50 x 63 cells
      and the end look (cell size 2) has 200 x 250. */
  /** A tenth of the way in, the cell size is 7.4 pixels and the grid is
      55 x 68 cells. */
  lemma GridAtTenth()
    ensures ParamsAt(0.1).cellSize == 7.4
    ensures PixelCanvas.RealCellCount(400, 7.4) == 55 && PixelCanvas.RealCellCount(500, 7.4) == 68
  {
  }

  lemma GridAtEndpoints()
    ensures ParamsAt(0.0).cellSize == 8.0 && ParamsAt(1.0).cellSize == 2.0
    ensures PixelCanvas.CellCount(400, 8) == 50 && PixelCanvas.CellCount(500, 8) == 63
    ensures PixelCanvas.CellCount(400, 2) == 200 && PixelCanvas.CellCount(500, 2) == 250
  {
  }
}
