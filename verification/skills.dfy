/**
 * Skill cards and tool icons: the proficiency badge and its colour as
 * thresholds on the level, the hover-driven progress bar, and the shared
 * image-error flag map that swaps a broken skill icon for its emoji
 * fallback and hides a broken tool icon.  Flags are keyed by strings
 * `skill-<i>` and `tool-<i>`.
 */
module Skills {
  import opened Wrappers

  datatype Badge = Expert | Proficient | Learning
  datatype Colour = Emerald | Cyan | Purple

  /** The badge text: at least 90 is expert, at least 75 proficient, below
      that learning. */
  function BadgeOf(level: int): Badge {
    if level >= 90 then Expert else if level >= 75 then Proficient else Learning
  }

  /** The badge's text colour, chosen by the same thresholds written out
      separately in the class name. */
  function ColourOf(level: int): Colour {
    if level >= 90 then Emerald else if level >= 75 then Cyan else Purple
  }

  function Label(b: Badge): string {
    match b
    case Expert => "🔥 Expert"
    case Proficient => "⭐ Proficient"
    case Learning => "📚 Learning"
  }

  function ColourFor(b: Badge): Colour {
    match b
    case Expert => Emerald
    case Proficient => Cyan
    case Learning => Purple
  }

  /** The two threshold chains agree: each badge always comes with its own
      colour, and the colour alone tells the badge. */
  lemma BadgeAndColourAgree(level: int, other: int)
    ensures ColourOf(level) == ColourFor(BadgeOf(level))
    ensures ColourOf(level) == ColourOf(other) <==> BadgeOf(level) == BadgeOf(other)
  {
  }

  function Rank(b: Badge): int {
    match b
    case Learning => 0
    case Proficient => 1
    case Expert => 2
  }

  /** A higher level never earns a lower badge. */
  lemma BadgeMonotone(a: int, b: int)
    requires a <= b
    ensures Rank(BadgeOf(a)) <= Rank(BadgeOf(b))
  {
  }

  /** The badge labels are distinct. */
  lemma LabelsDistinct(b: Badge, c: Badge)
    ensures Label(b) == Label(c) <==> b == c
  {
    if b != c {
      assert Label(b)[0] != Label(c)[0];
    }
  }

  /** The bar's width in percent: the level while hovered, 0 otherwise.  A
      level that is a percentage gives a bar that is one and never overshoots
      it, and the hovered bar reads the level the badge below it reads. */
  function BarWidth(level: int, hovered: bool): (w: int)
    ensures 0 <= level <= 100 ==> 0 <= w <= level
    ensures hovered ==> BadgeOf(w) == BadgeOf(level) && ColourOf(w) == ColourOf(level)
  {
    if hovered then level else 0
  }

  /** Hovering decides the bar alone: a card that is not hovered shows an
      empty bar whatever its level, and a hovered card's bar tells two
      levels apart exactly when they differ. */
  lemma BarShowsLevelOnHover(a: int, b: int)
    ensures BarWidth(a, false) == BarWidth(b, false) == 0
    ensures BarWidth(a, true) == BarWidth(b, true) <==> a == b
  {
  }

  // ------------------------------------------------------------------ keys

  function DigitChar(d: int): (c: char)
    requires 0 <= d < 10
    ensures '0' <= c <= '9'
  {
    ('0' as int + d) as char
  }

  /** `${n}` for a whole number: its decimal digits, no leading zero. */
  function Decimal(n: nat): (s: string)
    ensures |s| >= 1
    ensures forall k :: 0 <= k < |s| ==> '0' <= s[k] <= '9'
    ensures s[0] == '0' ==> n == 0
  {
    if n < 10 then [DigitChar(n)] else Decimal(n / 10) + [DigitChar(n % 10)]
  }

  /** Reading a string of decimal digits as a number. */
  function ParseDecimal(s: string): nat
    requires forall k :: 0 <= k < |s| ==> '0' <= s[k] <= '9'
  {
    if s == [] then 0
    else ParseDecimal(s[..|s| - 1]) * 10 + (s[|s| - 1] as int - '0' as int)
  }

  /** Printing then reading a number gives it back. */
  lemma {:induction false} DecimalRoundTrip(n: nat)
    ensures ParseDecimal(Decimal(n)) == n
  {
    if n >= 10 {
      DecimalRoundTrip(n / 10);
      var s := Decimal(n);
      assert s[..|s| - 1] == Decimal(n / 10);
    }
  }

  /** Distinct numbers print differently. */
  lemma DecimalInjective(a: nat, b: nat)
    requires Decimal(a) == Decimal(b)
    ensures a == b
  {
    DecimalRoundTrip(a);
    DecimalRoundTrip(b);
  }

  function SkillKey(i: nat): string {
    "skill-" + Decimal(i)
  }

  function ToolKey(i: nat): string {
    "tool-" + Decimal(i)
  }

  /** Every card and every icon has its own key: two skill keys, or two tool
      keys, are equal only for the same index, and a skill key is never a
      tool key. */
  lemma KeysDistinct(i: nat, j: nat)
    ensures SkillKey(i) == SkillKey(j) <==> i == j
    ensures ToolKey(i) == ToolKey(j) <==> i == j
    ensures SkillKey(i) != ToolKey(j)
  {
    if SkillKey(i) == SkillKey(j) {
      assert Decimal(i) == SkillKey(i)[6..];
      assert Decimal(j) == SkillKey(j)[6..];
      DecimalInjective(i, j);
    }
    if ToolKey(i) == ToolKey(j) {
      assert Decimal(i) == ToolKey(i)[5..];
      assert Decimal(j) == ToolKey(j)[5..];
      DecimalInjective(i, j);
    }
    assert SkillKey(i)[0] != ToolKey(j)[0];
  }

  // ----------------------------------------------------------------- flags

  /** The `imageErrors` object: a key is truthy when present with `true`. */
  type Flags = map<string, bool>

  predicate Flagged(flags: Flags, key: string) {
    key in flags && flags[key]
  }

  /** `handleImageError(key)`: `{ ...prev, [key]: true }`. */
  function HandleImageError(flags: Flags, key: string): Flags {
    flags[key := true]
  }

  /** After the handler runs, exactly the given key becomes flagged and
      every other key keeps its flag. */
  lemma HandlerFlagsOnlyItsKey(flags: Flags, key: string, other: string)
    ensures Flagged(HandleImageError(flags, key), other) <==> other == key || Flagged(flags, other)
  {
  }

  /** Running the handler twice is running it once. */
  lemma HandlerIdempotent(flags: Flags, key: string)
    ensures HandleImageError(HandleImageError(flags, key), key) == HandleImageError(flags, key)
  {
  }

  function HandleAll(flags: Flags, keys: seq<string>): Flags
    decreases |keys|
  {
    if keys == [] then flags else HandleAll(HandleImageError(flags, keys[0]), keys[1..])
  }

  /** After any sequence of errors a key is flagged exactly when it was
      flagged before or reported: no flag ever reverts. */
  lemma {:induction false} FlagsAccumulate(flags: Flags, keys: seq<string>, key: string)
    ensures Flagged(HandleAll(flags, keys), key) <==> Flagged(flags, key) || key in keys
    decreases |keys|
  {
    if keys != [] {
      FlagsAccumulate(HandleImageError(flags, keys[0]), keys[1..], key);
      assert key in keys <==> key == keys[0] || key in keys[1..];
    }
  }

  /** The skill card at `index` shows its emoji fallback instead of the icon
      exactly when its key is flagged. */
  predicate ShowsFallback(flags: Flags, index: nat) {
    Flagged(flags, SkillKey(index))
  }

  /** A tool icon: the flag map after its `onError`, and whether the image was
      hidden.  The handler is called only if the key is not yet flagged in
      the map the icon was rendered with. */
  datatype ToolError = ToolError(flags: Flags, hidden: bool)

  function OnToolError(rendered: Flags, current: Flags, index: nat, hidden: bool): (r: ToolError)
    ensures Flagged(rendered, ToolKey(index)) ==> r == ToolError(current, hidden)
    ensures !Flagged(rendered, ToolKey(index)) ==> r.hidden && Flagged(r.flags, ToolKey(index))
  {
    if !Flagged(rendered, ToolKey(index)) then
      ToolError(HandleImageError(current, ToolKey(index)), true)
    else ToolError(current, hidden)
  }

  /** A broken tool icon never switches any skill card to its fallback. */
  lemma ToolErrorsSpareSkillCards(rendered: Flags, current: Flags, tool: nat, hidden: bool, skill: nat)
    ensures ShowsFallback(OnToolError(rendered, current, tool, hidden).flags, skill) <==> ShowsFallback(current, skill)
  {
    KeysDistinct(skill, tool);
  }

  /** A broken skill icon switches exactly its own card. */
  lemma SkillErrorSwitchesOneCard(flags: Flags, broken: nat, index: nat)
    ensures ShowsFallback(HandleImageError(flags, SkillKey(broken)), index) <==>
      index == broken || ShowsFallback(flags, index)
  {
    KeysDistinct(index, broken);
  }
}
