/**
 * The portfolio's terminal emulator: a fixed table of commands, an input
 * line that is trimmed and lower-cased before lookup, a scroll-back of
 * display lines, and arrow-key navigation through the commands entered so
 * far. The calls the commands make into the page (scrolling to a section,
 * opening or downloading the resume) are returned as effects.
 */
module Terminal {
  import opened Wrappers
  import Text

  /** The entries of the command table. */
  datatype Command =
    | Help
    | Whoami
    | Navigate(section: string, title: string)
    | ResumeView
    | ResumeDownload
    | Clear

  /** A call a command makes into the embedding page. */
  datatype Effect = OnNavigate(section: string) | OnResumeView | OnResumeDownload

  /** The sections the navigation commands can scroll to. */
  const NavigationSections: seq<string> :=
    ["skills", "projects", "achievements", "gallery", "contact"]

  const Table: map<string, Command> := map[
    "help" := Help,
    "whoami" := Whoami,
    "skills" := Navigate("skills", "Skills"),
    "projects" := Navigate("projects", "Projects"),
    "achievements" := Navigate("achievements", "Achievements"),
    "gallery" := Navigate("gallery", "Gallery"),
    "contact" := Navigate("contact", "Contact"),
    "resume view" := ResumeView,
    "resume dl" := ResumeDownload,
    "clear" := Clear
  ]

  const Banner: string := "Type \"help\" to see available commands"

  const HelpLines: seq<string> := [
    "📋 Available Commands:",
    "─────────────────────────────────────",
    "whoami            - Display your information",
    "skills            - Navigate to skills section",
    "projects          - Navigate to projects section",
    "achievements      - Navigate to achievements section",
    "gallery           - Navigate to gallery section",
    "contact           - Navigate to contact section",
    "resume view       - Open resume in new tab",
    "resume dl         - Download resume",
    "clear             - Clear terminal screen",
    "─────────────────────────────────────",
    "💡 Tip: Use arrow keys to navigate command history"
  ]

  const WhoamiLines: seq<string> := [
    "👤 Shanavas V Basheer",
    "─────────────────────────────────────",
    "📍 Location: Kochi, Kerala, India",
    "🎓 Education: M.Voc in Software Application Development (CUSAT)",
    "💼 Role: Full-Stack Developer | Competitive Coder",
    "📧 Email: shanavasvbasheer@gmail.com",
    "📱 Phone: +91 85473 63158",
    "💻 GitHub: github.com/shanavasvbasheer",
    "🔗 LinkedIn: linkedin.com/in/shanavasvbasheer",
    "─────────────────────────────────────",
    "✨ Status: Available for opportunities"
  ]

  const NotFoundPrefix: string := "❌ Command not found: \""
  const NotFoundSuffix: string := "\". Type \"help\" for available commands."

  /** `clear` is the only name the table maps to `Clear`. */
  lemma OnlyClearClears(name: string)
    requires name in Table && name != "clear"
    ensures Table[name] != Clear
  {
  }

  /** The single line printed for a command that is not in the table. */
  function NotFound(cmd: string): string {
    NotFoundPrefix + cmd + NotFoundSuffix
  }

  /** What `execute()` returns: at least one line to print, or nothing for
      `clear`. */
  function Output(c: Command): (r: Option<seq<string>>)
    ensures r.None? <==> c == Clear
    ensures r.Some? ==> |r.value| >= 1
  {
    match c
    case Help => Some(HelpLines)
    case Whoami => Some(WhoamiLines)
    case Navigate(_, title) => Some(["✅ Navigating to " + title + " section..."])
    case ResumeView => Some(["✅ Opening resume in new tab..."])
    case ResumeDownload => Some(["✅ Downloading resume..."])
    case Clear => None
  }

  /** The calls into the page that `execute()` makes: at most one. */
  function Effects(c: Command): (r: seq<Effect>)
    ensures |r| <= 1
  {
    match c
    case Navigate(section, _) => [OnNavigate(section)]
    case ResumeView => [OnResumeView]
    case ResumeDownload => [OnResumeDownload]
    case _ => []
  }

  /** The component's state: the display lines, the commands entered so far
      (oldest first), the history cursor (-1 when not browsing) and the
      current contents of the input box. */
  datatype State = State(display: seq<string>, commands: seq<string>, index: int, input: string)

  const Initial: State := State([Banner], [], -1, "")

  /** The history cursor is -1 or designates an entered command. */
  predicate Valid(s: State) {
    -1 <= s.index < |s.commands|
  }

  datatype Outcome = Outcome(state: State, effects: seq<Effect>)

  /** `display'` keeps `display` as a prefix and then shows the echo of
      `raw`, at least one output line, and a closing blank line. */
  predicate Echoes(display: seq<string>, raw: string, display': seq<string>) {
    && |display'| >= |display| + 3
    && display'[..|display|] == display
    && display'[|display|] == "$ " + raw
    && display'[|display'| - 1] == ""
  }

  /** `executeCommand(raw)`: a blank line is ignored; anything else is
      normalised, recorded, and run. */
  function Execute(s: State, raw: string): (r: Outcome)
    ensures Text.AllSpace(raw) ==> r == Outcome(s, [])
    ensures !Text.AllSpace(raw) ==>
              && r.state.commands == s.commands + [Text.Normalise(raw)]
              && r.state.index == -1
              && r.state.input == ""
    ensures Text.Normalise(raw) == "clear" ==> r.state.display == [] && r.effects == []
    ensures !Text.AllSpace(raw) && Text.Normalise(raw) != "clear" ==>
              Echoes(s.display, raw, r.state.display)
    ensures |r.effects| <= 1
    ensures Valid(s) ==> Valid(r.state)
  {
    var cmd := Text.Normalise(raw);
    Text.NormaliseEmptyIffBlank(raw);
    if cmd == "" then Outcome(s, []) else Run(s, raw, cmd)
  }

  /** Records the normalised command `cmd` and runs it: `clear` empties the
      display; any other command echoes `raw`, prints its output (or the
      "Command not found" line) and a blank line. */
  function Run(s: State, raw: string, cmd: string): (r: Outcome)
    requires cmd != ""
    ensures r.state.commands == s.commands + [cmd] && r.state.index == -1 && r.state.input == ""
    ensures cmd == "clear" ==> r.state.display == [] && r.effects == []
    ensures cmd != "clear" ==> Echoes(s.display, raw, r.state.display)
    ensures |r.effects| <= 1
  {
    var recorded := s.(commands := s.commands + [cmd], index := -1);
    if cmd == "clear" then Outcome(recorded.(display := [], input := ""), [])
    else
      var (out, effects) :=
        if cmd in Table then OnlyClearClears(cmd); (Output(Table[cmd]), Effects(Table[cmd]))
        else (Some([NotFound(cmd)]), []);
      match out
      case Some(lines) =>
        Outcome(recorded.(display := s.display + ["$ " + raw] + lines + [""], input := ""), effects)
      case None =>
        // only `clear` prints nothing, and it was handled above
        Outcome(recorded.(input := ""), effects)
  }

  /** A command that is not in the table prints exactly one line, the
      "Command not found" message quoting the normalised command, and calls
      nothing. */
  lemma UnknownCommand(s: State, raw: string)
    requires !Text.AllSpace(raw) && Text.Normalise(raw) !in Table
    ensures var cmd := Text.Normalise(raw);
            && Execute(s, raw).state.display == s.display + ["$ " + raw, NotFound(cmd), ""]
            && Execute(s, raw).effects == []
            && NotFound(cmd)[|NotFoundPrefix|..|NotFoundPrefix| + |cmd|] == cmd
  {
    var cmd := Text.Normalise(raw);
    Text.NormaliseEmptyIffBlank(raw);
    RunUnknown(s, raw, cmd);
  }

  lemma RunUnknown(s: State, raw: string, cmd: string)
    requires cmd != "" && cmd !in Table
    ensures Run(s, raw, cmd).state.display == s.display + ["$ " + raw, NotFound(cmd), ""]
    ensures Run(s, raw, cmd).effects == []
    ensures NotFound(cmd)[|NotFoundPrefix|..|NotFoundPrefix| + |cmd|] == cmd
  {
    assert "clear" in Table;
    assert (NotFoundPrefix + cmd + NotFoundSuffix)[|NotFoundPrefix|..|NotFoundPrefix| + |cmd|] == cmd;
  }

  /** A command in the table prints its own output between the echo and the
      blank line. */
  lemma KnownCommand(s: State, raw: string)
    requires Text.Normalise(raw) in Table && Text.Normalise(raw) != "clear"
    ensures var c := Table[Text.Normalise(raw)];
            && Output(c).Some?
            && Execute(s, raw).state.display == s.display + ["$ " + raw] + Output(c).value + [""]
            && Execute(s, raw).effects == Effects(c)
  {
    Text.NormaliseEmptyIffBlank(raw);
    OnlyClearClears(Text.Normalise(raw));
  }

  /** Each navigation command calls `onNavigate` once, with the section of
      its own name, and no other input calls it with that section. */
  lemma NavigationCallsOnce(s: State, raw: string, section: string)
    requires section in NavigationSections
    ensures Execute(s, raw).effects == [OnNavigate(section)] <==> Text.Normalise(raw) == section
  {
    var cmd := Text.Normalise(raw);
    Text.NormaliseEmptyIffBlank(raw);
    if cmd != "" {
      RunEffects(s, raw, cmd);
    }
  }

  /** `resume view` and `resume dl` each call only their own handler. */
  lemma ResumeCallsOwnHandler(s: State, raw: string)
    ensures Execute(s, raw).effects == [OnResumeView] <==> Text.Normalise(raw) == "resume view"
    ensures Execute(s, raw).effects == [OnResumeDownload] <==> Text.Normalise(raw) == "resume dl"
  {
    var cmd := Text.Normalise(raw);
    Text.NormaliseEmptyIffBlank(raw);
    if cmd != "" {
      RunEffects(s, raw, cmd);
    }
  }

  /** Which page handler a normalised command calls. */
  lemma RunEffects(s: State, raw: string, cmd: string)
    requires cmd != ""
    ensures forall section :: section in NavigationSections ==>
              (Run(s, raw, cmd).effects == [OnNavigate(section)] <==> cmd == section)
    ensures Run(s, raw, cmd).effects == [OnResumeView] <==> cmd == "resume view"
    ensures Run(s, raw, cmd).effects == [OnResumeDownload] <==> cmd == "resume dl"
  {
  }

  /** The command the history cursor designates, or the empty line when the
      cursor is not browsing. */
  function Recalled(s: State): string
    requires Valid(s)
  {
    if s.index == -1 then "" else s.commands[|s.commands| - 1 - s.index]
  }

  /** ArrowUp: step one command further into the past, if there is one. */
  function HistoryUp(s: State): (r: State)
    requires Valid(s)
    ensures Valid(r) && r.display == s.display && r.commands == s.commands
    ensures s.index < |s.commands| - 1 ==> r.index == s.index + 1 && r.input == Recalled(r)
    ensures s.index == |s.commands| - 1 ==> r == s
  {
    if s.index < |s.commands| - 1 then
      var i := s.index + 1;
      s.(index := i, input := s.commands[|s.commands| - 1 - i])
    else s
  }

  /** ArrowDown: step one command back towards the present; from the most
      recent command return to an empty input line. */
  function HistoryDown(s: State): (r: State)
    requires Valid(s)
    ensures Valid(r) && r.display == s.display && r.commands == s.commands
    ensures s.index >= 0 ==> r.index == s.index - 1 && r.input == Recalled(r)
    ensures s.index == -1 ==> r == s
  {
    if s.index > 0 then
      var i := s.index - 1;
      s.(index := i, input := s.commands[|s.commands| - 1 - i])
    else if s.index == 0 then s.(index := -1, input := "")
    else s
  }

  /** ArrowDown undoes an ArrowUp that moved, restoring the line the cursor
      designated before. */
  lemma DownUndoesUp(s: State)
    requires Valid(s) && s.index < |s.commands| - 1
    ensures HistoryDown(HistoryUp(s)) == s.(input := Recalled(s))
  {
  }

  /** Pressing ArrowUp `k` times. */
  function UpTimes(s: State, k: nat): (r: State)
    requires Valid(s)
    ensures Valid(r)
    decreases k
  {
    if k == 0 then s else UpTimes(HistoryUp(s), k - 1)
  }

  /** Repeated ArrowUp climbs one entry per press, stops at the oldest
      command, and leaves the designated command in the input line. */
  lemma {:induction false} UpTimesStopsAtOldest(s: State, k: nat)
    requires Valid(s)
    ensures UpTimes(s, k).index == if s.index + k < |s.commands| then s.index + k else |s.commands| - 1
    ensures s.index == |s.commands| - 1 ==> UpTimes(s, k) == s
    ensures k > 0 && s.index < |s.commands| - 1 ==> UpTimes(s, k).input == Recalled(UpTimes(s, k))
    decreases k
  {
    if k > 0 {
      UpTimesStopsAtOldest(HistoryUp(s), k - 1);
    }
  }

  /** What the user types replaces the input line and nothing else. */
  function TypeInput(s: State, value: string): (r: State)
    ensures r.input == value && r.display == s.display
    ensures r.commands == s.commands && r.index == s.index
  {
    s.(input := value)
  }

  datatype Key = Enter | ArrowUp | ArrowDown | OtherKey

  /** `handleKeyDown`: Enter runs the input line, the arrows browse the
      history, every other key is left to the input box. */
  function KeyDown(s: State, key: Key): (r: Outcome)
    requires Valid(s)
    ensures Valid(r.state)
    ensures key != Enter ==> r.effects == [] && r.state.commands == s.commands
    ensures key == OtherKey ==> r.state == s
  {
    match key
    case Enter => Execute(s, s.input)
    case ArrowUp => Outcome(HistoryUp(s), [])
    case ArrowDown => Outcome(HistoryDown(s), [])
    case OtherKey => Outcome(s, [])
  }

  /** Every state reachable from the initial one by key presses and typing
      keeps the history cursor in range. */
  lemma {:induction false} ReachableValid(keys: seq<Key>, typed: seq<string>)
    requires |typed| == |keys|
    ensures Valid(Replay(Initial, keys, typed))
  {
    ReplayPreservesValid(Initial, keys, typed);
  }

  /** Type `typed[i]`, then press `keys[i]`, for each `i` in turn. */
  function Replay(s: State, keys: seq<Key>, typed: seq<string>): State
    requires Valid(s) && |typed| == |keys|
    decreases |keys|
  {
    if keys == [] then s
    else
      var t := TypeInput(s, typed[0]);
      Replay(KeyDown(t, keys[0]).state, keys[1..], typed[1..])
  }

  lemma {:induction false} ReplayPreservesValid(s: State, keys: seq<Key>, typed: seq<string>)
    requires Valid(s) && |typed| == |keys|
    ensures Valid(Replay(s, keys, typed))
    decreases |keys|
  {
    if keys != [] {
      ReplayPreservesValid(KeyDown(TypeInput(s, typed[0]), keys[0]).state, keys[1..], typed[1..]);
    }
  }

  // ---------------------------------------------------------------------
  // The lookup as written: `commands[trimmedCmd]` on an object literal.
  // ---------------------------------------------------------------------

  /** The lower-case names every object literal inherits from
      `Object.prototype`. */
  const PrototypeKeys: set<string> := {"constructor", "__proto__"}

  /** What `commands[name]` yields: an own entry, an inherited member (a
      truthy value without an `execute` method), or `undefined`. */
  datatype ObjectLookup = Own(c: Command) | Inherited | Undefined

  function LookupAsWritten(name: string): ObjectLookup {
    if name in Table then Own(Table[name])
    else if name in PrototypeKeys then Inherited
    else Undefined
  }

  datatype AsWritten = Completes(outcome: Outcome) | ThrowsTypeError

  /** `executeCommand` as written: an inherited member passes the `if
      (command)` test and `command.execute()` then throws a TypeError.
      Everywhere else it behaves as `Execute`. */
  function ExecuteAsWritten(s: State, raw: string): (r: AsWritten)
    ensures Text.Normalise(raw) !in PrototypeKeys ==> r == Completes(Execute(s, raw))
    ensures r.ThrowsTypeError? <==> Text.Normalise(raw) in PrototypeKeys
  {
    var cmd := Text.Normalise(raw);
    PrototypeKeysAreNotCommands();
    if cmd != "" && cmd != "clear" && LookupAsWritten(cmd).Inherited? then ThrowsTypeError
    else Completes(Execute(s, raw))
  }

  lemma PrototypeKeysAreNotCommands()
    ensures forall name :: name in PrototypeKeys ==> name !in Table && name != "" && name != "clear"
  {
  }

  /** Every input whose normal form names an inherited member crashes the
      handler as written, where the intended behaviour prints the "Command
      not found" line quoting it. */
  lemma PrototypeKeyThrows(s: State, raw: string)
    requires Text.Normalise(raw) in PrototypeKeys
    ensures ExecuteAsWritten(s, raw) == ThrowsTypeError
    ensures Execute(s, raw).state.display
            == s.display + ["$ " + raw, NotFound(Text.Normalise(raw)), ""]
  {
    PrototypeKeysAreNotCommands();
    Text.NormaliseEmptyIffBlank(raw);
    UnknownCommand(s, raw);
  }

  /** Typing `constructor` at the start is such an input. */
  lemma ConstructorThrows(raw: string)
    requires raw == "constructor"
    ensures ExecuteAsWritten(Initial, raw) == ThrowsTypeError
    ensures Execute(Initial, raw).state.display == Initial.display + ["$ " + raw, NotFound(raw), ""]
  {
    ConstructorIsPrototypeKey(raw);
    PrototypeKeyThrows(Initial, raw);
  }

  lemma ConstructorIsPrototypeKey(raw: string)
    requires raw == "constructor"
    ensures Text.Normalise(raw) == raw && raw in PrototypeKeys
  {
    Text.NormaliseOfPlainWord(raw);
  }
}
