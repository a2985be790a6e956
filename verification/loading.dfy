/**
 * The loading screen: a 50 ms interval adds a fixed increment to the
 * progress until it reaches 100, then stops itself, marks the screen
 * complete and schedules the completion callback once.  The icon, the
 * status message and the tech-stack highlights are thresholds on progress.
 * Every progress value the interval produces is a whole number, so it is
 * modelled as an integer.
 */
module Loading {
  /** Total simulated loading time and the interval period, in milliseconds. */
  const Duration: int := 2500
  const Period: int := 50

  /** `(interval / duration) * 100`: 2 percentage points per tick (0.02 x 100
      rounds to exactly 2 in double arithmetic). */
  const Increment: int := 2

  /** Delay between completion and the `onLoadingComplete` call. */
  const CompletionDelay: int := 500

  lemma IncrementIsShareOfDuration()
    ensures Increment * Duration == Period * 100
  {
  }

  /** The screen's state: progress, the complete flag, whether the interval
      is still installed, and how many completion callbacks have been
      scheduled. */
  datatype State = State(progress: int, complete: bool, timerRunning: bool, callbacks: nat)

  const Initial: State := State(0, false, true, 0)

  /** One interval callback. */
  function Tick(s: State): (r: State)
    ensures !s.timerRunning ==> r == s
    ensures s.timerRunning && s.progress + Increment < 100 ==>
      r == s.(progress := s.progress + Increment)
    ensures s.timerRunning && s.progress + Increment >= 100 ==>
      r.progress == 100 && r.complete && !r.timerRunning && r.callbacks == s.callbacks + 1
  {
    if !s.timerRunning then s
    else
      var next := s.progress + Increment;
      if next >= 100 then State(100, true, false, s.callbacks + 1)
      else s.(progress := next)
  }

  function Ticks(s: State, k: nat): State {
    if k == 0 then s else Tick(Ticks(s, k - 1))
  }

  /** The number of ticks after which the screen completes. */
  const TicksToComplete: int := 50

  /** Before tick 50 the progress is twice the tick count and nothing has
      completed; from tick 50 on the progress is 100, the screen is complete,
      the interval is gone and exactly one callback was scheduled. */
  lemma {:induction false} TicksFromStart(k: nat)
    ensures k < TicksToComplete ==> Ticks(Initial, k) == State(Increment * k, false, true, 0)
    ensures k >= TicksToComplete ==> Ticks(Initial, k) == State(100, true, false, 1)
  {
    if k > 0 {
      TicksFromStart(k - 1);
    }
  }

  /** The screen completes 2500 ms in, and the callback fires 500 ms later. */
  lemma CompletionTime()
    ensures TicksToComplete * Period == Duration
    ensures Duration + CompletionDelay == 3000
  {
  }

  /** What every reachable state satisfies: progress is an even number in
      [0, 100], the screen is complete exactly when progress is 100, which is
      exactly when the interval has been cleared and the callback scheduled. */
  predicate Valid(s: State) {
    && 0 <= s.progress <= 100 && s.progress % 2 == 0
    && (s.complete <==> s.progress == 100)
    && (s.complete <==> !s.timerRunning)
    && s.callbacks == (if s.complete then 1 else 0)
  }

  lemma TickPreservesValid(s: State)
    requires Valid(s)
    ensures Valid(Tick(s))
  {
  }

  lemma {:induction false} TicksPreserveValid(s: State, k: nat)
    requires Valid(s)
    ensures Valid(Ticks(s, k))
  {
    if k > 0 {
      TicksPreserveValid(s, k - 1);
      TickPreservesValid(Ticks(s, k - 1));
    }
  }

  /** Progress never decreases. */
  lemma TickMonotone(s: State)
    ensures s.progress <= 100 ==> s.progress <= Tick(s).progress
  {
  }

  // ------------------------------------------------------------------ view

  datatype Icon = CodeIcon | TerminalIcon | SparklesIcon

  /** The icons at full opacity: Code below 33, Terminal from 33 below 66,
      Sparkles from 66. */
  function VisibleIcons(p: int): set<Icon> {
    (if p < 33 then {CodeIcon} else {})
    + (if p >= 33 && p < 66 then {TerminalIcon} else {})
    + (if p >= 66 then {SparklesIcon} else {})
  }

  /** At every progress value exactly one icon is shown. */
  lemma ExactlyOneIcon(p: int)
    ensures |VisibleIcons(p)| == 1
  {
  }

  const Initializing: string := "Initializing portfolio..."
  const LoadingProjects: string := "Loading projects..."
  const AlmostReady: string := "Almost ready..."
  const Done: string := "Complete!"

  /** The status line under the name. */
  function Message(p: int): (m: string)
    ensures m == Done <==> p >= 100
  {
    if p < 33 then Initializing
    else if p < 66 then LoadingProjects
    else if p < 100 then AlmostReady
    else Done
  }

  /** "Complete!" appears exactly in the completed states. */
  lemma DoneMessageIffComplete(s: State)
    requires Valid(s)
    ensures Message(s.progress) == Done <==> s.complete
  {
  }

  /** The status line and the icon change together: each message belongs to
      exactly one icon's range. */
  lemma MessageFollowsIcon(p: int)
    ensures Message(p) == Initializing <==> CodeIcon in VisibleIcons(p)
    ensures Message(p) == LoadingProjects <==> TerminalIcon in VisibleIcons(p)
    ensures Message(p) in {AlmostReady, Done} <==> SparklesIcon in VisibleIcons(p)
  {
    assert Initializing[0] != LoadingProjects[0] && Initializing[0] != AlmostReady[0];
    assert LoadingProjects[0] != AlmostReady[0] && Done[0] != Initializing[0];
    assert Done[0] != LoadingProjects[0] && Done[0] != AlmostReady[0];
  }

  /** Along the run from the start, the icon switches to Terminal on tick 17
      (progress 34) and to Sparkles on tick 33 (progress 66). */
  lemma IconOnTick(k: nat)
    ensures CodeIcon in VisibleIcons(Ticks(Initial, k).progress) <==> k < 17
    ensures TerminalIcon in VisibleIcons(Ticks(Initial, k).progress) <==> 17 <= k < 33
    ensures SparklesIcon in VisibleIcons(Ticks(Initial, k).progress) <==> k >= 33
  {
    TicksFromStart(k);
  }

  datatype Tech = React | NextJs | Tailwind | TypeScript

  /** The tech names lit up, at thresholds 20, 40, 60 and 80 (strictly above). */
  function Highlighted(p: int): set<Tech> {
    (if p > 20 then {React} else {})
    + (if p > 40 then {NextJs} else {})
    + (if p > 60 then {Tailwind} else {})
    + (if p > 80 then {TypeScript} else {})
  }

  /** Highlights only accumulate as progress grows, and all four are lit
      once the screen is complete. */
  lemma HighlightsAccumulate(p: int, q: int)
    requires p <= q
    ensures Highlighted(p) <= Highlighted(q)
    ensures q >= 100 ==> Highlighted(q) == {React, NextJs, Tailwind, TypeScript}
  {
  }

  /** Along the run from the start, the strict thresholds light React on
      tick 11 (progress 22), Next.js on tick 21, Tailwind on tick 31 and
      TypeScript on tick 41: never at exactly 20, 40, 60 or 80. */
  lemma TechLightsOnTick(k: nat)
    ensures var lit := Highlighted(Ticks(Initial, k).progress);
      && (React in lit <==> k >= 11) && (NextJs in lit <==> k >= 21)
      && (Tailwind in lit <==> k >= 31) && (TypeScript in lit <==> k >= 41)
  {
    TicksFromStart(k);
  }

  /** The screen stops catching the pointer and fades out once complete. */
  datatype Overlay = Overlay(opacity: int, catchesPointer: bool)

  function OverlayOf(s: State): Overlay {
    if s.complete then Overlay(0, false) else Overlay(100, true)
  }

  /** During loading the overlay covers the page; after completion it never
      blocks it again. */
  lemma OverlayLiftsOnce(k: nat)
    ensures OverlayOf(Ticks(Initial, k)).catchesPointer <==> k < TicksToComplete
  {
    TicksFromStart(k);
  }
}
