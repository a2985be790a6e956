# Portfolio interaction rules, modelled in Dafny

This project models the parts of a React developer portfolio that behave
like small programs, not like markup:

- the command-line **terminal**: command table, input normalisation,
  scroll-back and arrow-key history;
- the **pixelated canvas**: grid, clamped sampling of the RGBA buffer,
  average or centre colour, the `#rrggbb` parser, tint, dropout and when
  pointer distortion applies;
- the ten-second **reveal** that drives the canvas props from a progress
  value;
- the **gallery** carousel index arithmetic and its auto-rotation;
- the **loading screen** ticker and its thresholds;
- **scroll tracking**: progress, the back-to-top flag and the active
  section;
- the **skill badge** thresholds and the shared **image-error flag map**;
- the copies of the terminal, reveal, badge, gallery controls, image-error
  handler and scroll tracker inside `Portfolio.jsx`.

Each component is a module of immutable datatypes and pure transition
functions. Time, randomness and the DOM are passed in as parameters:

- elapsed milliseconds, tick counts, `Math.random()` draws;
- a map from element id to bounding box;
- the decoded image as a sequence of bytes.

JavaScript semantics are spelled out where they matter:

- `trim` removes exactly the ECMAScript white-space and line-terminator
  code points.
- `toLowerCase` is modelled on ASCII plus KELVIN SIGN.
- `%` truncates, and `% 0` is NaN (`None`).
- `Math.round` rounds halves up.
- Truthiness is spelled out where the code relies on it:
  - a zero pointer coordinate counts as "no pointer";
  - an empty section id is never made active.

Files:

- `wrappers.dfy`: `Option`.
- `arith.dfy`: multiplication, Euclidean division and real division facts.
- `text.dfy`: `trim` and `toLowerCase`.
- `terminal.dfy`: the terminal.
- `hex_color.dfy`: `hexToRgb`.
- `pixel_canvas.dfy`: the canvas.
- `reveal.dfy`: the reveal.
- `gallery.dfy`: the carousel.
- `loading.dfy`: the loading screen.
- `scroll_tracking.dfy`: scroll tracking.
- `skills.dfy`: badges and image-error flags.
- `portfolio_page.dfy`: the page's copies.

The canvas grid rounds up on both axes. A 400 x 500 canvas at cell size 200
therefore draws 2 columns and 3 rows, six cells; the last row is
half outside the image and samples its clamped bottom edge
(`PixelCanvas.SixCellGrid`).

## Model

| member | source | states |
|---|---|---|
| Text.TrimStart | portfolio-app/src/components/ui/InteractiveTerminal.jsx:104 | the result is a suffix of the input, everything removed is white space, and it does not start with white space |
| Text.TrimEnd | portfolio-app/src/components/ui/InteractiveTerminal.jsx:104 | the result is a prefix of the input, everything removed is white space, and it does not end with white space |
| Text.Trim | portfolio-app/src/components/ui/InteractiveTerminal.jsx:104 | the trimmed line neither starts nor ends with white space |
| Text.TrimIsInfix | portfolio-app/src/components/ui/InteractiveTerminal.jsx:104 | characterisation: whenever a substring is surrounded only by white space and has no white space at its ends, trimming yields exactly that substring |
| Text.TrimEmptyIffBlank | portfolio-app/src/components/ui/InteractiveTerminal.jsx:104-108 | trimming gives the empty string exactly for all-white-space input |
| Text.LowerChar | portfolio-app/src/components/ui/InteractiveTerminal.jsx:104 | a lower-cased code point is never an ASCII capital, and lower-case letters are unchanged |
| Text.Lower | portfolio-app/src/components/ui/InteractiveTerminal.jsx:104 | lower-casing keeps the length and maps every code point on its own |
| Text.LowerOfLowercase | portfolio-app/src/components/ui/InteractiveTerminal.jsx:104 | a word of lower-case ASCII letters is its own lower case |
| Text.LowerKeepsSpace | portfolio-app/src/components/ui/InteractiveTerminal.jsx:104 | lower-casing a code point neither creates nor removes white space |
| Text.LowerOfLower | portfolio-app/src/components/ui/InteractiveTerminal.jsx:104 | lower-casing is idempotent |
| Text.Normalise | portfolio-app/src/components/ui/InteractiveTerminal.jsx:104 | the normalised command is no longer than the input and has no outer white space |
| Text.NormaliseHasNoCapitals | portfolio-app/src/components/ui/InteractiveTerminal.jsx:104 | the normalised command contains no ASCII capital |
| Text.NormaliseEmptyIffBlank | portfolio-app/src/components/ui/InteractiveTerminal.jsx:104-108 | the normalised command is empty exactly when the input is all white space |
| Text.NormaliseIdempotent | portfolio-app/src/components/ui/InteractiveTerminal.jsx:104 | normalising twice is normalising once |
| Text.NormaliseOfPlainWord | portfolio-app/src/components/ui/InteractiveTerminal.jsx:104 | a plain lower-case word is its own normal form and is not blank |
| Terminal.OnlyClearClears | portfolio-app/src/components/ui/InteractiveTerminal.jsx:13-101 | `clear` is the only table entry whose `execute` returns null |
| Terminal.Output | portfolio-app/src/components/ui/InteractiveTerminal.jsx:13-101 | every command but `clear` prints at least one line; `clear` prints nothing |
| Terminal.Effects | portfolio-app/src/components/ui/InteractiveTerminal.jsx:48-96 | a command calls into the page at most once |
| Terminal.Execute | portfolio-app/src/components/ui/InteractiveTerminal.jsx:103-132 | blank input changes nothing; other input appends its normal form to the command history, resets the cursor and empties the input; `clear` empties the display with no page call; anything else keeps the old display as a prefix and adds the echo `$ raw`, output and a blank line; the cursor stays valid |
| Terminal.Run | portfolio-app/src/components/ui/InteractiveTerminal.jsx:110-131 | the same, for an already normalised non-empty command |
| Terminal.UnknownCommand | portfolio-app/src/components/ui/InteractiveTerminal.jsx:119-130 | an unknown command adds exactly the echo, one "Command not found" line quoting the normalised command, and a blank line, and calls nothing |
| Terminal.RunUnknown | portfolio-app/src/components/ui/InteractiveTerminal.jsx:124-126 | the same at the level of a normalised command |
| Terminal.KnownCommand | portfolio-app/src/components/ui/InteractiveTerminal.jsx:119-130 | a listed command other than `clear` prints exactly its own output between echo and blank line and makes exactly its own page calls |
| Terminal.NavigationCallsOnce | portfolio-app/src/components/ui/InteractiveTerminal.jsx:48-82 | `onNavigate(section)` is called, once, exactly for input normalising to that section's name |
| Terminal.ResumeCallsOwnHandler | portfolio-app/src/components/ui/InteractiveTerminal.jsx:83-96 | the resume-view handler is called exactly for `resume view`, the download handler exactly for `resume dl` |
| Terminal.RunEffects | portfolio-app/src/components/ui/InteractiveTerminal.jsx:119-123 | which page handler each normalised command calls, in both directions |
| Terminal.HistoryUp | portfolio-app/src/components/ui/InteractiveTerminal.jsx:138-144 | ArrowUp moves one entry into the past while there is one and loads that entry, otherwise changes nothing; the cursor stays in [-1, len-1] |
| Terminal.HistoryDown | portfolio-app/src/components/ui/InteractiveTerminal.jsx:145-155 | ArrowDown moves one entry towards the present and loads it; from 0 it returns to -1 with an empty line; from -1 nothing changes |
| Terminal.DownUndoesUp | portfolio-app/src/components/ui/InteractiveTerminal.jsx:138-155 | ArrowDown after a moving ArrowUp restores the cursor and the line it designated |
| Terminal.UpTimes | portfolio-app/src/components/ui/InteractiveTerminal.jsx:138-144 | repeated ArrowUp keeps the cursor in range |
| Terminal.UpTimesStopsAtOldest | portfolio-app/src/components/ui/InteractiveTerminal.jsx:138-144 | k presses climb k entries, stopping at the oldest command, with the designated command in the input |
| Terminal.TypeInput | portfolio-app/src/components/ui/InteractiveTerminal.jsx:206 | typing replaces the input line and leaves display, history and cursor alone |
| Terminal.KeyDown | portfolio-app/src/components/ui/InteractiveTerminal.jsx:134-156 | only Enter records commands or calls the page; other keys leave the state as it was; the cursor stays valid |
| Terminal.ReachableValid | portfolio-app/src/components/ui/InteractiveTerminal.jsx:6-9 | from the initial state, any sequence of typing and key presses keeps the cursor in [-1, len-1] |
| Terminal.ReplayPreservesValid | portfolio-app/src/components/ui/InteractiveTerminal.jsx:134-156 | the cursor invariant holds after any sequence of typing and key presses |
| Terminal.ExecuteAsWritten | portfolio-app/src/components/ui/InteractiveTerminal.jsx:119-123 | the handler as written throws exactly for input normalising to an inherited key and otherwise agrees with `Execute` |
| Terminal.PrototypeKeysAreNotCommands | portfolio-app/src/components/ui/InteractiveTerminal.jsx:13-101 | `constructor` and `__proto__` are not own entries of the table |
| Terminal.PrototypeKeyThrows | portfolio-app/src/components/ui/InteractiveTerminal.jsx:119-126 | for those inputs the code as written throws while the intended lookup prints "Command not found" |
| Terminal.ConstructorThrows | portfolio-app/src/components/ui/InteractiveTerminal.jsx:119-123 | typing `constructor` at the start throws as written |
| Terminal.ConstructorIsPrototypeKey | portfolio-app/src/components/ui/InteractiveTerminal.jsx:104 | `constructor` is its own normal form |
| HexColor.DigitValue | portfolio-app/src/components/ui/pixelated-canvas.jsx:226-228 | a hex digit's value is in [0, 16) |
| HexColor.PairValue | portfolio-app/src/components/ui/pixelated-canvas.jsx:226-228 | a two-digit pair is a byte |
| HexColor.Decode | portfolio-app/src/components/ui/pixelated-canvas.jsx:224-229 | six hex digits decode to a colour with byte channels, anything else to nothing |
| HexColor.Parse | portfolio-app/src/components/ui/pixelated-canvas.jsx:224-229 | a colour is returned exactly for an optional `#` followed by exactly six hex digits, with channels in [0, 255] |
| HexColor.HexToRgb | portfolio-app/src/components/ui/pixelated-canvas.jsx:223-230 | the result always has byte channels, and every rejected string gives white |
| HexColor.HexChar | portfolio-app/src/components/ui/pixelated-canvas.jsx:226-228 | the printed digit reads back as its value |
| HexColor.Pair | portfolio-app/src/components/ui/pixelated-canvas.jsx:226-228 | a printed byte reads back as the byte |
| HexColor.ParseFormat | portfolio-app/src/components/ui/pixelated-canvas.jsx:224-229 | round trip: parsing the spelling of a colour gives the colour |
| HexColor.FormatParse | portfolio-app/src/components/ui/pixelated-canvas.jsx:224-229 | round trip: every accepted string is, up to case, the spelling of the colour parsed from it |
| HexColor.ParseIgnoresCase | portfolio-app/src/components/ui/pixelated-canvas.jsx:224 | the `i` flag: lower-casing the input never changes the result |
| HexColor.DigitsOfLower | portfolio-app/src/components/ui/pixelated-canvas.jsx:224 | stripping the `#` commutes with lower-casing |
| HexColor.DecodeOfLower | portfolio-app/src/components/ui/pixelated-canvas.jsx:224-228 | decoding six digits ignores their case |
| HexColor.LowerCharHex | portfolio-app/src/components/ui/pixelated-canvas.jsx:224 | a code point is a hex digit exactly when its lower case is, with the same value |
| HexColor.PairOfLower | portfolio-app/src/components/ui/pixelated-canvas.jsx:226-228 | printing a parsed pair gives the pair in lower case |
| HexColor.HexCharOfDigit | portfolio-app/src/components/ui/pixelated-canvas.jsx:226-228 | printing a digit's value gives the digit in lower case |
| HexColor.RevealTint | src/components/ui/PixelatedProfileImage.jsx:67 | the reveal's tint `#06B6D4` is (6, 182, 212) |
| PixelCanvas.CellCountCovers | portfolio-app/src/components/ui/pixelated-canvas.jsx:85-86 | `ceil(size / cellSize)` cells cover the size, and the last one starts inside it |
| PixelCanvas.PixelHasCell | portfolio-app/src/components/ui/pixelated-canvas.jsx:85-91 | every pixel column lies in the footprint of a cell the grid has |
| PixelCanvas.FootprintsDisjoint | portfolio-app/src/components/ui/pixelated-canvas.jsx:88-91 | no pixel lies in two cells' footprints |
| PixelCanvas.GridIsMinimal | portfolio-app/src/components/ui/pixelated-canvas.jsx:85-86 | no smaller number of cells covers the size |
| PixelCanvas.RealCellCount | portfolio-app/src/components/ui/pixelated-canvas.jsx:85-86 | for any positive, possibly fractional, cell size the count is the ceiling of `size / cellSize`: at least the quotient and less than one more |
| PixelCanvas.RealCellCountCovers | portfolio-app/src/components/ui/pixelated-canvas.jsx:85-86 | that many fractional-size cells cover the size, and the last one starts inside it |
| PixelCanvas.RealCellCountAgrees | portfolio-app/src/components/ui/pixelated-canvas.jsx:85-86 | for a whole-pixel cell size the fractional count is the integer one |
| PixelCanvas.SixCellGrid | portfolio-app/src/components/ui/pixelated-canvas.jsx:85-86 | 400 x 500 at cell size 200 is a 2 x 3 grid of six cells |
| PixelCanvas.Clamp | portfolio-app/src/components/ui/pixelated-canvas.jsx:101-102 | a clamped coordinate is inside the image, and in-image coordinates are unchanged |
| PixelCanvas.TexelIndex | portfolio-app/src/components/ui/pixelated-canvas.jsx:103 | the red-byte offset is a multiple of 4 and all four bytes of the pixel are inside the buffer |
| PixelCanvas.SumRow | portfolio-app/src/components/ui/pixelated-canvas.jsx:100-110 | the inner loop's four running sums are the channel sums over the cell row |
| PixelCanvas.AverageCell | portfolio-app/src/components/ui/pixelated-canvas.jsx:97-115 | the averaging loops visit exactly cellSize^2 positions and yield the channel-wise mean |
| PixelCanvas.UniformSamples | portfolio-app/src/components/ui/pixelated-canvas.jsx:97-126 | on a single-coloured image both average and centre sampling return that colour |
| PixelCanvas.SamplesInRange | portfolio-app/src/components/ui/pixelated-canvas.jsx:97-126 | sampled channels of a byte buffer are in [0, 255] |
| PixelCanvas.ApplyTint | portfolio-app/src/components/ui/pixelated-canvas.jsx:128-134 | alpha is never tinted, and no tint applies unless its strength is positive |
| PixelCanvas.MixBetween | portfolio-app/src/components/ui/pixelated-canvas.jsx:131-133 | the blend is convex: it lies between the sampled value and the tint's |
| PixelCanvas.TintInRange | portfolio-app/src/components/ui/pixelated-canvas.jsx:128-134 | with strength at most 1, tinted channels stay in [0, 255] |
| PixelCanvas.FullTint | portfolio-app/src/components/ui/pixelated-canvas.jsx:131-133 | at strength 1 the colour becomes the tint's |
| PixelCanvas.FillStyleInRange | portfolio-app/src/components/ui/pixelated-canvas.jsx:174 | a byte-range colour gives rounded channels in [0, 255] and an alpha in [0, 1] |
| PixelCanvas.WithinRadiusIsDistance | portfolio-app/src/components/ui/pixelated-canvas.jsx:146-150 | the square-root-free radius test agrees with `distance < distortionRadius` |
| PixelCanvas.PlacementOf | portfolio-app/src/components/ui/pixelated-canvas.jsx:141-164 | a cell takes the swirl/push branch exactly when the canvas is interactive, both pointer coordinates are non-zero, the cell centre is within the radius and the mode is swirl or push |
| PixelCanvas.LeaveStopsDistortion | portfolio-app/src/components/ui/pixelated-canvas.jsx:239 | after the pointer leaves no cell is displaced |
| PixelCanvas.NonInteractivePointerStays | portfolio-app/src/components/ui/pixelated-canvas.jsx:61-72 | a non-interactive canvas ignores every pointer move |
| PixelCanvas.RenderCell | portfolio-app/src/components/ui/pixelated-canvas.jsx:88-184 | a cell is skipped exactly when its draw is below the dropout, and a drawn cell has side `cellSize * dotScale` |
| PixelCanvas.RenderFrame | portfolio-app/src/components/ui/pixelated-canvas.jsx:85-186 | a frame has one row per grid row and one entry per grid column, and the cell at [row][col] is skipped exactly when its draw is below the dropout |
| PixelCanvas.FrameIndexIsCell | portfolio-app/src/components/ui/pixelated-canvas.jsx:88-91 | the nested loops visit cell (row, col) as the (row * cols + col)-th cell: each cell once, in row-major order |
| PixelCanvas.NoDropoutDrawsAll | portfolio-app/src/components/ui/pixelated-canvas.jsx:136-139 | with dropout at most 0 and draws in [0, 1) every cell is drawn |
| PixelCanvas.FullDropoutDrawsNothing | portfolio-app/src/components/ui/pixelated-canvas.jsx:136-139 | with dropout at least 1 no cell is drawn |
| PixelCanvas.NoPointerNoDistortion | portfolio-app/src/components/ui/pixelated-canvas.jsx:145 | without a pointer, or when not interactive, every drawn cell sits at its centre |
| PixelCanvas.UniformCell | portfolio-app/src/components/ui/pixelated-canvas.jsx:97-134 | an untinted cell of a single-coloured image has that colour |
| PixelCanvas.UniformFrame | portfolio-app/src/components/ui/pixelated-canvas.jsx:85-134 | every drawn cell of an untinted single-coloured image has that colour, in either sampling mode |
| PixelCanvas.CellInRange | portfolio-app/src/components/ui/pixelated-canvas.jsx:97-134 | a drawn cell of a byte buffer has a byte-range colour |
| PixelCanvas.FrameColoursInRange | portfolio-app/src/components/ui/pixelated-canvas.jsx:85-174 | every drawn cell of a frame has a byte-range colour |
| Reveal.Progress | src/components/ui/PixelatedProfileImage.jsx:12-17 | progress never exceeds 1, is non-negative for non-negative time, is exactly 1 from ten seconds on, and is elapsed/10000 before |
| Reveal.ProgressMonotone | src/components/ui/PixelatedProfileImage.jsx:16-17 | progress never decreases while the clock does not |
| Reveal.Animate | src/components/ui/PixelatedProfileImage.jsx:15-26 | each stored value is that frame's progress, another frame was requested after every value but the last, and a loop that stopped early stopped at 1 |
| Reveal.AnimationSettles | src/components/ui/PixelatedProfileImage.jsx:21-23 | once a frame is ten seconds in the loop has stopped, and the last stored value is 1 |
| Reveal.AnimationMonotone | src/components/ui/PixelatedProfileImage.jsx:15-24 | with a monotone clock the stored progress values only grow |
| Reveal.ParamsAt | src/components/ui/PixelatedProfileImage.jsx:32-37 | at p = 0 the props are the start look, at p = 1 the end look (cell size 8 to 2, dropout 0.6 to 0.05, jitter 6 to 0.5 and 3 to 0.3, distortion 4 to 0.5, tint 0.3 to 0.05, dot scale 0.9 to 0.98, radius 80 to 100, follow speed 0.15 to 0.07) |
| Reveal.ParamsAreInterpolation | src/components/ui/PixelatedProfileImage.jsx:32-63 | every prop lies on the straight line from the start look to the end look |
| Reveal.ParamsInRange | src/components/ui/PixelatedProfileImage.jsx:32-54 | for p in [0, 1] every prop stays between its endpoints; cell size is in [2, 8] and tint strength in (0, 1] |
| Reveal.ParamsMonotone | src/components/ui/PixelatedProfileImage.jsx:32-63 | the six decreasing props and follow speed never grow with p; dot scale and radius never shrink |
| Reveal.OpacitiesInRange | src/components/ui/PixelatedProfileImage.jsx:46-91 | canvas opacity stays in [0.7, 1]; photo opacity stays in [0, 1], is 0 up to p = 0.7 and 1 at p = 1; glow opacity stays in [0.5, 0.8] |
| Reveal.ImageOpacityMonotone | src/components/ui/PixelatedProfileImage.jsx:80 | the photograph only fades in |
| Reveal.Indicator | src/components/ui/PixelatedProfileImage.jsx:95-99 | the progress pill is shown exactly while p < 1 |
| Reveal.IndicatorInRange | src/components/ui/PixelatedProfileImage.jsx:97 | its percentage is in [0, 100] |
| Reveal.Step | src/components/ui/PixelatedProfileImage.jsx:7-83 | an error is never cleared, and frames never touch the error flag |
| Reveal.ErrorIffSomeError | src/components/ui/PixelatedProfileImage.jsx:70-83 | after any events the error flag is set exactly when some event was a canvas or photo error |
| Reveal.Layers | src/components/ui/PixelatedProfileImage.jsx:41-106 | the fallback card shows exactly on error and then alone; the pill shows exactly when there is no error and p < 1 |
| Reveal.FallbackIsFinal | src/components/ui/PixelatedProfileImage.jsx:101-105 | after an error only the fallback card is ever shown |
| Reveal.CanvasAlwaysAnimates | src/components/ui/PixelatedProfileImage.jsx:34 | the jitter stays at least 0.5 on every frame of the reveal, so the render loop reschedules even without `interactive` |
| Reveal.RevealTintIsCyan | src/components/ui/PixelatedProfileImage.jsx:67-68 | the reveal tints with (6, 182, 212), and its tint strength keeps every colour in byte range |
| Reveal.GridAtEndpoints | src/components/ui/PixelatedProfileImage.jsx:52-54 | the 400 x 500 canvas has 50 x 63 cells at the start and 200 x 250 at the end |
| Reveal.GridAtTenth | src/components/ui/PixelatedProfileImage.jsx:32 | a tenth of the way in the cell size is 7.4 and the 400 x 500 canvas has 55 x 68 cells |
| Gallery.JsRem | portfolio-app/src/hooks/useGalleryAutoRotate.js:15 | JavaScript `%`: NaN exactly for a zero divisor; otherwise smaller in magnitude than the divisor, with the dividend's sign |
| Gallery.JsRemIsRemainder | portfolio-app/src/hooks/useGalleryAutoRotate.js:15 | that remainder differs from the dividend by a multiple of the divisor |
| Gallery.StepsWrap | portfolio-app/src/hooks/useGalleryAutoRotate.js:21-22 | on a card, next moves one further, wrapping from the last card to the first; previous moves back, wrapping from the first card to the last |
| Gallery.NextPrevInverse | portfolio-app/src/hooks/useGalleryAutoRotate.js:21-22 | previous undoes next and next undoes previous on every card |
| Gallery.EmptyGalleryIsNaN | portfolio-app/src/hooks/useGalleryAutoRotate.js:21-22 | with no images every step gives NaN, and NaN stays NaN |
| Gallery.NegativeJumpStaysOutside | portfolio-app/src/hooks/useGalleryAutoRotate.js:23 | after an out-of-range jump, the truncating `%` can leave the index negative |
| Gallery.ReplayStaysInRange | portfolio-app/src/hooks/useGalleryAutoRotate.js:9-23 | from a card, any mix of next, previous, ticks and in-range jumps stays on a card |
| Gallery.JumpOutside | portfolio-app/src/hooks/useGalleryAutoRotate.js:23 | a jump outside the gallery leaves it: the range invariant rests on the callers |
| Gallery.UserEvents | portfolio-app/src/hooks/useGalleryAutoRotate.js:12 | the user's own events contain no ticks |
| Gallery.ReducedMotionIgnoresTicks | portfolio-app/src/hooks/useGalleryAutoRotate.js:12-16 | under reduced motion only the user's clicks move the gallery |
| Gallery.TicksFromFirst | portfolio-app/src/hooks/useGalleryAutoRotate.js:9-16 | from the first card, k ticks show card k mod n |
| Gallery.ModStep | portfolio-app/src/hooks/useGalleryAutoRotate.js:15 | k mod n follows (k - 1) mod n by one step with wrap |
| Gallery.ActiveCards | portfolio-app/src/components/Portfolio.jsx:1589 | only cards of the gallery are marked active |
| Gallery.OneActiveCard | portfolio-app/src/components/Portfolio.jsx:1589 | exactly one card is active when the index is on a card, none otherwise |
| Loading.IncrementIsShareOfDuration | portfolio-app/src/components/ui/LoadingScreen.jsx:11-13 | the increment is (50 / 2500) * 100 = 2 |
| Loading.Tick | portfolio-app/src/components/ui/LoadingScreen.jsx:15-28 | a cleared timer changes nothing; below 100 a tick adds the increment; reaching 100 sets exactly 100, completes, clears the timer and schedules one callback |
| Loading.TicksFromStart | portfolio-app/src/components/ui/LoadingScreen.jsx:11-28 | before tick 50 progress is 2k and nothing completed; from tick 50 progress is 100, complete, timer gone, exactly one callback |
| Loading.CompletionTime | portfolio-app/src/components/ui/LoadingScreen.jsx:11-23 | completion comes at 2500 ms and the callback at 3000 ms |
| Loading.TickPreservesValid | portfolio-app/src/components/ui/LoadingScreen.jsx:15-28 | a tick keeps progress an even number in [0, 100], complete exactly at 100, exactly when the timer is cleared, with one callback after completion and none before |
| Loading.TicksPreserveValid | portfolio-app/src/components/ui/LoadingScreen.jsx:15-28 | so does any number of ticks |
| Loading.TickMonotone | portfolio-app/src/components/ui/LoadingScreen.jsx:17-26 | a tick never lowers progress that is at most 100 |
| Loading.ExactlyOneIcon | portfolio-app/src/components/ui/LoadingScreen.jsx:60-83 | exactly one icon is visible at every progress value |
| Loading.Message | portfolio-app/src/components/ui/LoadingScreen.jsx:94-96 | "Complete!" is shown exactly from 100 on |
| Loading.DoneMessageIffComplete | portfolio-app/src/components/ui/LoadingScreen.jsx:94-96 | in every reachable state "Complete!" shows exactly when the screen is complete |
| Loading.MessageFollowsIcon | portfolio-app/src/components/ui/LoadingScreen.jsx:60-96 | the status line's thresholds are the icons': "Initializing" exactly with Code, "Loading projects" exactly with Terminal, "Almost ready" or "Complete!" exactly with Sparkles |
| Loading.IconOnTick | portfolio-app/src/components/ui/LoadingScreen.jsx:60-83 | from the start, Code shows before tick 17, Terminal from tick 17 to 32, Sparkles from tick 33 |
| Loading.HighlightsAccumulate | portfolio-app/src/components/ui/LoadingScreen.jsx:121-127 | the lit tech names only accumulate with progress and are all lit at 100 |
| Loading.TechLightsOnTick | portfolio-app/src/components/ui/LoadingScreen.jsx:121-127 | from the start, the strict thresholds light React on tick 11, Next.js on 21, Tailwind on 31 and TypeScript on 41 |
| Loading.OverlayLiftsOnce | portfolio-app/src/components/ui/LoadingScreen.jsx:35-37 | the overlay catches the pointer exactly before tick 50 |
| ScrollTracking.ScrollProgress | portfolio-app/src/hooks/useScrollTracking.js:15-16 | progress is not a finite number exactly when the page has no scroll range |
| ScrollTracking.ProgressIsPercentage | portfolio-app/src/hooks/useScrollTracking.js:15-17 | on a scrollable page the progress is in [0, 100]: 0 at the top, 100 at the bottom |
| ScrollTracking.FindActive | portfolio-app/src/hooks/useScrollTracking.js:20-27 | nothing is found exactly when no existing section straddles the 150 px line; otherwise the first such section in list order is found |
| ScrollTracking.OnScroll | portfolio-app/src/hooks/useScrollTracking.js:14-29 | the button shows exactly past 500 px; the active section is kept or becomes a listed section straddling the line |
| ScrollTracking.UniqueStraddlerBecomesActive | portfolio-app/src/hooks/useScrollTracking.js:20-28 | when exactly one section straddles the line it becomes active |
| ScrollTracking.NoStraddlerKeepsActive | portfolio-app/src/hooks/useScrollTracking.js:28 | when none does the active section is kept |
| ScrollTracking.ActiveIsKnown | portfolio-app/src/hooks/useScrollTracking.js:10-28 | the active section is always "hero" or a tracked section |
| ScrollTracking.ButtonFollowsLastScroll | portfolio-app/src/hooks/useScrollTracking.js:18 | the button reflects only the latest scroll position |
| Skills.BadgeAndColourAgree | src/components/ui/SkillCard.jsx:73-78 | the colour class and the badge text always agree, and one determines the other |
| Skills.BadgeMonotone | src/components/ui/SkillCard.jsx:78 | a higher level never gets a lower badge |
| Skills.LabelsDistinct | src/components/ui/SkillCard.jsx:78 | the three badge texts are distinct |
| Skills.BarWidth | src/components/ui/SkillCard.jsx:65 | a level that is a percentage gives a bar between 0 and the level, and the hovered bar has the badge and colour of the level shown below it |
| Skills.BarShowsLevelOnHover | src/components/ui/SkillCard.jsx:65 | a card that is not hovered shows an empty bar whatever its level; hovered bars of two levels coincide exactly when the levels do |
| Skills.Decimal | src/components/ui/SkillCard.jsx:33 | a printed index is a non-empty string of digits with no leading zero |
| Skills.DecimalRoundTrip | src/components/ui/SkillCard.jsx:33 | round trip: reading a printed index gives it back |
| Skills.DecimalInjective | src/components/ui/SkillCard.jsx:33 | distinct indices print differently |
| Skills.KeysDistinct | portfolio-app/src/components/sections/SkillsSection.jsx:42-62 | `skill-i` and `tool-j` keys never collide, and each kind is unique per index |
| Skills.HandlerFlagsOnlyItsKey | portfolio-app/src/components/sections/SkillsSection.jsx:11-13 | the handler flags its key and leaves every other key's flag as it was |
| Skills.HandlerIdempotent | portfolio-app/src/components/sections/SkillsSection.jsx:11-13 | reporting the same key twice is reporting it once |
| Skills.FlagsAccumulate | portfolio-app/src/components/sections/SkillsSection.jsx:9-13 | after any reports a key is flagged exactly when it was flagged or reported: flags never revert |
| Skills.OnToolError | portfolio-app/src/components/sections/SkillsSection.jsx:42-47 | a tool error already flagged at render is a no-op; otherwise its key is flagged and the icon hidden |
| Skills.ToolErrorsSpareSkillCards | portfolio-app/src/components/sections/SkillsSection.jsx:42-47 | a tool error never switches a skill card to its fallback |
| Skills.SkillErrorSwitchesOneCard | src/components/ui/SkillCard.jsx:33-45 | a skill icon error switches exactly its own card to the emoji fallback |
| PortfolioPage.PageRunAgrees | portfolio-app/src/components/Portfolio.jsx:236-257 | the page's command runner equals the component's for every non-empty command, `help` included: its table prints the same padded lines |
| PortfolioPage.PageTerminalAgrees | portfolio-app/src/components/Portfolio.jsx:229-258 | the page's `executeCommand` equals the component's on every input: the same display, input line, history, cursor and handler calls |
| PortfolioPage.PageKeyDownAgrees | portfolio-app/src/components/Portfolio.jsx:260-282 | the page's key handling equals the component's for every key, and keeps the cursor in range |
| PortfolioPage.PageRevealAgrees | portfolio-app/src/components/Portfolio.jsx:351-421 | the page's reveal has the same progress clamp, props and photograph fade at every moment |
| PortfolioPage.PageBadgeAgrees | portfolio-app/src/components/Portfolio.jsx:531-539 | the page's badge and colour use the same 90/75 thresholds |
| PortfolioPage.PageGalleryCycles | portfolio-app/src/components/Portfolio.jsx:1592-1601 | the page's buttons wrap through its three cards exactly as the hook's do |
| PortfolioPage.PageAutoRotate | portfolio-app/src/components/Portfolio.jsx:800-807 | the page's rotation shows card k mod 3 after k ticks |
| PortfolioPage.PageHandlerAgrees | portfolio-app/src/components/Portfolio.jsx:809-811 | the page's handler equals the section's: it flags one key and keeps the rest |
| PortfolioPage.PageActiveIsSection | portfolio-app/src/components/Portfolio.jsx:754-770 | the page's active section is always one of its six sections |

## Left out

- Rendering, styling and markup: JSX, Tailwind classes, keyframes, the shape drawn (square or circle) and background fill are presentation.
- Timers: `setInterval`, `setTimeout`, `requestAnimationFrame`, `throttle` and `Date.now` are replaced by tick counts and elapsed-time parameters. The 16 ms scroll throttle is not modelled.
- Randomness: `Math.random()` is a per-cell draw passed in. The loading screen's particle positions are not modelled.
- The DOM and the browser: image loading and decoding, `getImageData`, `getBoundingClientRect`, `getElementById`, `matchMedia` (reduced motion is a parameter), `window.open` and `scrollIntoView` all become inputs. The `onNavigate` and resume handlers become returned effects.
- `prefersReducedMotion` and `throttle` live in a helper module that is not part of this model.
- Jitter and displacement geometry: the sine, cosine and square root of the jitter and swirl/push offsets are floating-point geometry. The model records only whether a cell is displaced and by which rule. Push mode divides by a zero distance when the pointer is exactly on a cell centre; that NaN position is not modelled.
- Floating point: the reveal schedule, tint and averages are computed over exact reals. In IEEE doubles, `0.6 - 1 * 0.55` is not exactly `0.05`. The loading increment evaluates to exactly 2 in doubles, so its integer model is exact.
- PixelCanvas.AverageCell: models integral cell sizes only (`cellSize >= 1`). The reveal passes fractional sizes such as 7.4, for which the loops run `ceil(cellSize)` times and the origins `col * cellSize` are fractional.
- PixelCanvas.CellCount: takes an integral cell size only, for the same reason; the fractional grid size is stated separately by PixelCanvas.RealCellCount.
- PixelCanvas.CellCountCovers: takes an integral cell size only, for the same reason; the fractional grid size is stated separately by PixelCanvas.RealCellCount.
- PixelCanvas.PixelHasCell: takes an integral cell size only, for the same reason; the fractional grid size is stated separately by PixelCanvas.RealCellCount.
- PixelCanvas.FootprintsDisjoint: takes an integral cell size only, for the same reason; the fractional grid size is stated separately by PixelCanvas.RealCellCount.
- PixelCanvas.GridIsMinimal: takes an integral cell size only, for the same reason; the fractional grid size is stated separately by PixelCanvas.RealCellCount.
- PixelCanvas.CentreSample: takes an integral cell size only, for the same reason; the fractional grid size is stated separately by PixelCanvas.RealCellCount.
- PixelCanvas.RenderCell: takes an integral cell size only, for the same reason; the fractional grid size is stated separately by PixelCanvas.RealCellCount.
- PixelCanvas.RenderFrame: takes an integral cell size only, for the same reason; the fractional grid size is stated separately by PixelCanvas.RealCellCount.
- Text.LowerChar: models `toLowerCase` only on ASCII letters and KELVIN SIGN. These are the only code points whose lower case can be an ASCII command character. Other case mappings never affect a table lookup. The model does keep non-ASCII capitals unchanged where JavaScript lower-cases them: in the recorded history that the arrow keys recall and in the quoted "Command not found" line.
- React itself: state batching, strict-mode double invocation of updaters, and state after an uncaught exception are not modelled.
- Stale closures: the tool `onError` test reads the flag map from the render, which the model passes in as a separate `rendered` argument.
- `followSpeed` is accepted by the canvas but never used. The reveal's schedule for it is modelled; its effect on the canvas is nothing.
- Mouse parallax, copy-to-clipboard, dark mode and the static data tables are not part of the modelled core.

## Findings

| source | as written | input that shows it | evidently intended | confidence | as-written member | corrected member |
|---|---|---|---|---|---|---|
| portfolio-app/src/components/ui/InteractiveTerminal.jsx:119-123 | the command is looked up with `commands[trimmedCmd]` on an object literal, so names inherited from `Object.prototype` pass the `if (command)` test and `command.execute()` throws a TypeError (the same code is at Portfolio.jsx:245-249) | typing `constructor` (or `__proto__`) and pressing Enter | an own-key lookup that prints `Command not found: "constructor"` | high (not executed) | Terminal.ConstructorThrows | Terminal.Execute |
