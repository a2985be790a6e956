/**
 * The single-file page carries its own copies of the terminal, the reveal,
 * the skill badge, the gallery controls, the image-error handler and the
 * scroll tracker.  Each copy is transcribed here as the page writes it and
 * related to the component model: the two agree on every input.
 */
module PortfolioPage {
  import opened Wrappers
  import Text
  import Terminal
  import Reveal
  import Gallery
  import Skills
  import ScrollTracking

  // -------------------------------------------------------------- terminal

  /** The page's `executeCommand`, for a non-empty normalised command.  Its
      command table is the component's, entry for entry and line for line,
      help text included. */
  function PageRun(s: Terminal.State, raw: string, cmd: string): Terminal.Outcome {
    var recorded := s.(commands := s.commands + [cmd], index := -1);
    if cmd == "clear" then Terminal.Outcome(recorded.(display := [], input := ""), [])
    else
      var out := if cmd in Terminal.Table then Terminal.Output(Terminal.Table[cmd]) else Some([Terminal.NotFound(cmd)]);
      var effects := if cmd in Terminal.Table then Terminal.Effects(Terminal.Table[cmd]) else [];
      match out
      case Some(lines) =>
        Terminal.Outcome(recorded.(display := s.display + ["$ " + raw] + lines + [""], input := ""), effects)
      case None => Terminal.Outcome(recorded.(input := ""), effects)
  }

  function PageExecute(s: Terminal.State, raw: string): Terminal.Outcome {
    var cmd := Text.Normalise(raw);
    if cmd == "" then Terminal.Outcome(s, []) else PageRun(s, raw, cmd)
  }

  lemma PageRunAgrees(s: Terminal.State, raw: string, cmd: string)
    requires cmd != ""
    ensures PageRun(s, raw, cmd) == Terminal.Run(s, raw, cmd)
  {
    if cmd in Terminal.Table && cmd != "clear" {
      Terminal.OnlyClearClears(cmd);
    }
  }

  /** The page's terminal behaves exactly as the component on every input:
      the same display, input line, history, cursor and handler calls. */
  lemma PageTerminalAgrees(s: Terminal.State, raw: string)
    ensures PageExecute(s, raw) == Terminal.Execute(s, raw)
  {
    var cmd := Text.Normalise(raw);
    if cmd != "" {
      PageRunAgrees(s, raw, cmd);
    }
  }

  /** The page's `handleKeyDown`: the same arrow-key handling, Enter runs the
      page's own `executeCommand`. */
  function PageKeyDown(s: Terminal.State, key: Terminal.Key): (r: Terminal.Outcome)
    requires Terminal.Valid(s)
  {
    match key
    case Enter => PageExecute(s, s.input)
    case ArrowUp => Terminal.Outcome(Terminal.HistoryUp(s), [])
    case ArrowDown => Terminal.Outcome(Terminal.HistoryDown(s), [])
    case OtherKey => Terminal.Outcome(s, [])
  }

  /** Key handling agrees with the component's for every key; in particular
      the history cursor stays in range. */
  lemma PageKeyDownAgrees(s: Terminal.State, key: Terminal.Key)
    requires Terminal.Valid(s)
    ensures PageKeyDown(s, key) == Terminal.KeyDown(s, key)
    ensures Terminal.Valid(PageKeyDown(s, key).state)
  {
    if key == Terminal.Enter {
      PageTerminalAgrees(s, s.input);
    }
  }

  // ---------------------------------------------------------------- reveal

  /** The page's reveal props, as it writes them. */
  function PageRevealParams(p: real): Reveal.Params {
    Reveal.Params(8.0 - p * 6.0, 0.6 - p * 0.55, 6.0 - p * 5.5, 3.0 - p * 2.7, 4.0 - p * 3.5,
                  0.3 - p * 0.25, 0.9 + p * 0.08, 80.0 + p * 20.0, 0.15 - p * 0.08)
  }

  function PagePhotoOpacity(p: real): real {
    if p > 0.7 then (p - 0.7) / 0.3 else 0.0
  }

  function PageProgress(elapsed: int): real {
    var q := elapsed as real / 10000.0;
    if q < 1.0 then q else 1.0
  }

  /** The page's reveal is the component's: the same progress curve, the same
      props and the same photograph fade at every moment. */
  lemma PageRevealAgrees(elapsed: int)
    ensures PageProgress(elapsed) == Reveal.Progress(elapsed)
    ensures PageRevealParams(PageProgress(elapsed)) == Reveal.ParamsAt(Reveal.Progress(elapsed))
    ensures PagePhotoOpacity(PageProgress(elapsed)) == Reveal.ImageOpacity(Reveal.Progress(elapsed))
  {
  }

  // ----------------------------------------------------------------- badge

  function PageBadge(level: int): Skills.Badge {
    if level >= 90 then Skills.Expert else if level >= 75 then Skills.Proficient else Skills.Learning
  }

  function PageBadgeColour(level: int): Skills.Colour {
    if level >= 90 then Skills.Emerald else if level >= 75 then Skills.Cyan else Skills.Purple
  }

  /** The page's skill card badges every level as the component does. */
  lemma PageBadgeAgrees(level: int)
    ensures PageBadge(level) == Skills.BadgeOf(level)
    ensures PageBadgeColour(level) == Skills.ColourOf(level)
  {
  }

  // --------------------------------------------------------------- gallery

  /** The page's gallery has three images. */
  const GalleryLength: int := 3

  function PageNext(a: Option<int>): Option<int> {
    match a
    case None => None
    case Some(i) => Gallery.JsRem(i + 1, GalleryLength)
  }

  function PagePrev(a: Option<int>): Option<int> {
    match a
    case None => None
    case Some(i) => Gallery.JsRem(i - 1 + GalleryLength, GalleryLength)
  }

  /** The page's buttons cycle through its three cards: 0, 1, 2, 0 forwards
      and 0, 2, 1, 0 backwards, as the hook's do for three images. */
  lemma PageGalleryCycles(i: int)
    requires 0 <= i < GalleryLength
    ensures PageNext(Some(i)) == Gallery.Next(Some(i), GalleryLength) == Some((i + 1) % 3)
    ensures PagePrev(Some(i)) == Gallery.Prev(Some(i), GalleryLength) == Some((i + 2) % 3)
  {
    Gallery.StepsWrap(i, GalleryLength);
  }

  /** Auto-rotation from the first card shows card `k mod 3` after `k`
      ticks. */
  lemma PageAutoRotate(k: nat)
    ensures Gallery.Ticks(Gallery.Initial, GalleryLength, k) == Some(k % 3)
  {
    Gallery.TicksFromFirst(GalleryLength, k);
  }

  // ------------------------------------------------------------ image flags

  function PageHandleImageError(flags: Skills.Flags, key: string): Skills.Flags {
    flags[key := true]
  }

  /** The page's handler is the section's. */
  lemma PageHandlerAgrees(flags: Skills.Flags, key: string, other: string)
    ensures PageHandleImageError(flags, key) == Skills.HandleImageError(flags, key)
    ensures Skills.Flagged(PageHandleImageError(flags, key), other) <==> other == key || Skills.Flagged(flags, other)
  {
    Skills.HandlerFlagsOnlyItsKey(flags, key, other);
  }

  // ---------------------------------------------------------------- scroll

  /** The sections the page tracks, in document order. */
  const PageSections: seq<string> := ["hero", "projects", "achievements", "gallery", "skills", "contact"]

  /** On the page the active section is always one of its six sections. */
  lemma PageActiveIsSection(events: seq<ScrollTracking.ScrollEvent>)
    ensures ScrollTracking.Replay(ScrollTracking.Initial, PageSections, events).active in PageSections
  {
    ScrollTracking.ActiveIsKnown(ScrollTracking.Initial, PageSections, events);
  }
}
