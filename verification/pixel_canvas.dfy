/**
 * The pixelated canvas: the decoded image is cut into square cells of
 * `cellSize` pixels, each cell takes one colour (the centre pixel or the
 * mean of its pixels), is tinted, may be dropped at random, and is drawn
 * at its centre, possibly displaced by the pointer.  Randomness enters as
 * the per-cell draws of `Math.random()`; trigonometry, jitter and the draw
 * calls themselves are not modelled.
 */
module PixelCanvas {
  import opened Wrappers
  import HexColor
  import Arith

  /** The RGBA buffer `getImageData(0, 0, width, height)` returns: row-major,
      four bytes per pixel. */
  datatype Image = Image(width: int, height: int, data: seq<int>)

  predicate WellFormed(img: Image) {
    img.width > 0 && img.height > 0 && |img.data| == img.width * img.height * 4
  }

  predicate Bytes(img: Image) {
    forall i :: 0 <= i < |img.data| ==> 0 <= img.data[i] <= 255
  }

  datatype Rgba = Rgba(r: real, g: real, b: real, a: real)

  predicate InByteRange(c: Rgba) {
    0.0 <= c.r <= 255.0 && 0.0 <= c.g <= 255.0 && 0.0 <= c.b <= 255.0 && 0.0 <= c.a <= 255.0
  }

  // ---------------------------------------------------------------- grid

  /** `Math.ceil(size / cellSize)` for a whole number of pixels. */
  function CellCount(size: nat, cellSize: int): nat
    requires cellSize >= 1
  {
    (size + cellSize - 1) / cellSize
  }

  /** The columns cover the width, and the last one starts inside it. */
  lemma CellCountCovers(size: nat, cellSize: int)
    requires cellSize >= 1
    ensures var n := CellCount(size, cellSize);
      n * cellSize >= size && (n == 0 || (n - 1) * cellSize < size)
  {
    var n := CellCount(size, cellSize);
    var s := size + cellSize - 1;
    assert s == n * cellSize + s % cellSize;
  }

  /** The cell whose footprint `[col * cellSize, (col + 1) * cellSize)`
      holds pixel column `x` is among the grid's columns. */
  lemma PixelHasCell(size: nat, cellSize: int, x: nat)
    requires cellSize >= 1 && x < size
    ensures var col := x / cellSize;
      col < CellCount(size, cellSize) && col * cellSize <= x < (col + 1) * cellSize
  {
    var col := x / cellSize;
    var n := CellCount(size, cellSize);
    CellCountCovers(size, cellSize);
    if col >= n {
      Arith.MulMono(n, col, cellSize);
      assert false;
    }
  }

  /** No pixel column lies in two cells' footprints. */
  lemma FootprintsDisjoint(cellSize: int, x: int, c1: int, c2: int)
    requires cellSize >= 1
    requires c1 * cellSize <= x < (c1 + 1) * cellSize
    requires c2 * cellSize <= x < (c2 + 1) * cellSize
    ensures c1 == c2
  {
    if c1 < c2 {
      Arith.MulMono(c1 + 1, c2, cellSize);
    } else if c2 < c1 {
      Arith.MulMono(c2 + 1, c1, cellSize);
    }
  }

  /** The grid is as small as covering allows: one column fewer would leave
      the right-most pixel uncovered. */
  lemma GridIsMinimal(size: nat, cellSize: int, n: nat)
    requires cellSize >= 1 && n * cellSize >= size
    ensures CellCount(size, cellSize) <= n
  {
    var m := CellCount(size, cellSize);
    CellCountCovers(size, cellSize);
    if m > n {
      Arith.MulMono(n, m - 1, cellSize);
      assert false;
    }
  }

  /** `Math.ceil(size / cellSize)` for any positive cell size: the reveal
      passes fractional ones. */
  function RealCellCount(size: nat, cellSize: real): (n: nat)
    requires cellSize > 0.0
    ensures n as real - 1.0 < size as real / cellSize <= n as real
  {
    var q := size as real / cellSize;
    Arith.RealDivNonNegative(size as real, cellSize);
    if q == q.Floor as real then q.Floor else q.Floor + 1
  }

  /** The fractional-size cells cover the image, and the last one starts
      inside it. */
  lemma RealCellCountCovers(size: nat, cellSize: real)
    requires cellSize > 0.0
    ensures var n := RealCellCount(size, cellSize);
      n as real * cellSize >= size as real && (n == 0 || (n as real - 1.0) * cellSize < size as real)
  {
    Arith.CeilingCovers(size as real, cellSize, RealCellCount(size, cellSize) as real);
  }

  /** Only one count covers the size with its last cell starting inside it. */
  lemma CoveringCountUnique(size: nat, cellSize: int, n: nat)
    requires cellSize >= 1 && n * cellSize >= size && (n == 0 || (n - 1) * cellSize < size)
    ensures n == CellCount(size, cellSize)
  {
    var m := CellCount(size, cellSize);
    CellCountCovers(size, cellSize);
    GridIsMinimal(size, cellSize, n);
    if m < n {
      Arith.MulMono(m, n - 1, cellSize);
    }
  }

  /** For a whole-pixel cell size the real count is the integer one. */
  lemma RealCellCountAgrees(size: nat, cellSize: int)
    requires cellSize >= 1
    ensures RealCellCount(size, cellSize as real) == CellCount(size, cellSize)
  {
    var n := RealCellCount(size, cellSize as real);
    RealCellCountCovers(size, cellSize as real);
    Arith.RealOfProduct(n, cellSize);
    if n > 0 {
      Arith.RealOfProduct(n - 1, cellSize);
    }
    CoveringCountUnique(size, cellSize, n);
  }

  /** A 400 x 500 canvas at cell size 200 has 2 columns and 3 rows: six cells. */
  lemma SixCellGrid()
    ensures CellCount(400, 200) == 2 && CellCount(500, 200) == 3
    ensures CellCount(400, 200) * CellCount(500, 200) == 6
  {
  }

  // -------------------------------------------------------------- sampling

  /** `Math.min(v, size - 1)` for a coordinate that is never negative. */
  function Clamp(v: nat, size: int): (r: nat)
    requires size >= 1
    ensures r < size && r <= v
    ensures v < size ==> r == v
  {
    if v < size - 1 then v else size - 1
  }

  /** `(py * width + px) * 4`: the offset of a pixel's red byte; its four
      bytes all lie inside the buffer. */
  function TexelIndex(img: Image, px: nat, py: nat): (i: nat)
    requires WellFormed(img) && px < img.width && py < img.height
    ensures i % 4 == 0 && i + 3 < |img.data|
  {
    Arith.MulMono(py, img.height - 1, img.width);
    (py * img.width + px) * 4
  }

  /** Byte `ch` (0 red, 1 green, 2 blue, 3 alpha) of a pixel. */
  function Channel(img: Image, px: nat, py: nat, ch: int): int
    requires WellFormed(img) && px < img.width && py < img.height && 0 <= ch < 4
  {
    img.data[TexelIndex(img, px, py) + ch]
  }

  function Pixel(img: Image, px: nat, py: nat): Rgba
    requires WellFormed(img) && px < img.width && py < img.height
  {
    Rgba(Channel(img, px, py, 0) as real, Channel(img, px, py, 1) as real,
         Channel(img, px, py, 2) as real, Channel(img, px, py, 3) as real)
  }

  /** Centre-point sampling: the pixel at `x + cellSize / 2`, `y + cellSize / 2`,
      pulled back inside the image for the cells on the right and bottom edges. */
  function CentreSample(img: Image, x: nat, y: nat, cellSize: int): Rgba
    requires WellFormed(img) && cellSize >= 1
  {
    Pixel(img, Clamp(x + cellSize / 2, img.width), Clamp(y + cellSize / 2, img.height))
  }

  /** Sum of channel `ch` over the first `n` pixels of the cell row at `py`. */
  function RowSum(img: Image, x: nat, py: nat, n: nat, ch: int): int
    requires WellFormed(img) && py < img.height && 0 <= ch < 4
  {
    if n == 0 then 0
    else RowSum(img, x, py, n - 1, ch) + Channel(img, Clamp(x + n - 1, img.width), py, ch)
  }

  /** Sum of channel `ch` over the first `m` rows of the cell at `x`, `y`. */
  function BlockSum(img: Image, x: nat, y: nat, cellSize: nat, m: nat, ch: int): int
    requires WellFormed(img) && 0 <= ch < 4
  {
    if m == 0 then 0
    else BlockSum(img, x, y, cellSize, m - 1, ch) + RowSum(img, x, Clamp(y + m - 1, img.height), cellSize, ch)
  }

  /** Average sampling, stated as sums: every channel is the mean over the
      `cellSize * cellSize` clamped positions of the cell. */
  function AverageSample(img: Image, x: nat, y: nat, cellSize: int): Rgba
    requires WellFormed(img) && cellSize >= 1
  {
    var n := (cellSize * cellSize) as real;
    Rgba(BlockSum(img, x, y, cellSize, cellSize, 0) as real / n,
         BlockSum(img, x, y, cellSize, cellSize, 1) as real / n,
         BlockSum(img, x, y, cellSize, cellSize, 2) as real / n,
         BlockSum(img, x, y, cellSize, cellSize, 3) as real / n)
  }

  /** The inner loop of the average-sampling branch: the four running sums
      over the first `n` pixels of one cell row. */
  method SumRow(img: Image, x: nat, py: nat, n: nat) returns (r: int, g: int, b: int, a: int)
    requires WellFormed(img) && py < img.height
    ensures r == RowSum(img, x, py, n, 0) && g == RowSum(img, x, py, n, 1)
    ensures b == RowSum(img, x, py, n, 2) && a == RowSum(img, x, py, n, 3)
  {
    r, g, b, a := 0, 0, 0, 0;
    var dx := 0;
    while dx < n
      invariant 0 <= dx <= n
      invariant r == RowSum(img, x, py, dx, 0) && g == RowSum(img, x, py, dx, 1)
      invariant b == RowSum(img, x, py, dx, 2) && a == RowSum(img, x, py, dx, 3)
    {
      var idx := TexelIndex(img, Clamp(x + dx, img.width), py);
      r := r + img.data[idx];
      g := g + img.data[idx + 1];
      b := b + img.data[idx + 2];
      a := a + img.data[idx + 3];
      dx := dx + 1;
    }
  }

  /** The double loop of the average-sampling branch: it visits exactly
      `cellSize * cellSize` positions and divides each running sum by that count. */
  method AverageCell(img: Image, x: nat, y: nat, cellSize: int) returns (c: Rgba, count: int)
    requires WellFormed(img) && cellSize >= 1
    ensures count == cellSize * cellSize
    ensures c == AverageSample(img, x, y, cellSize)
  {
    var r, g, b, a := 0, 0, 0, 0;
    count := 0;
    var dy := 0;
    while dy < cellSize
      invariant 0 <= dy <= cellSize
      invariant count == dy * cellSize
      invariant r == BlockSum(img, x, y, cellSize, dy, 0) && g == BlockSum(img, x, y, cellSize, dy, 1)
      invariant b == BlockSum(img, x, y, cellSize, dy, 2) && a == BlockSum(img, x, y, cellSize, dy, 3)
    {
      var rr, rg, rb, ra := SumRow(img, x, Clamp(y + dy, img.height), cellSize);
      r, g, b, a := r + rr, g + rg, b + rb, a + ra;
      count := count + cellSize;
      assert count == (dy + 1) * cellSize;
      dy := dy + 1;
    }
    c := Rgba(r as real / count as real, g as real / count as real,
              b as real / count as real, a as real / count as real);
  }

  /** Every pixel of the buffer has the colour `v` (four bytes). */
  predicate Uniform(img: Image, v: seq<int>) {
    |v| == 4 && forall i :: 0 <= i < |img.data| ==> img.data[i] == v[i % 4]
  }

  function ColourOf(v: seq<int>): Rgba
    requires |v| == 4
  {
    Rgba(v[0] as real, v[1] as real, v[2] as real, v[3] as real)
  }

  lemma UniformChannel(img: Image, v: seq<int>, px: nat, py: nat, ch: int)
    requires WellFormed(img) && Uniform(img, v) && px < img.width && py < img.height && 0 <= ch < 4
    ensures Channel(img, px, py, ch) == v[ch]
  {
    var i := TexelIndex(img, px, py);
    assert (i + ch) % 4 == ch;
  }

  lemma {:induction false} UniformRowSum(img: Image, v: seq<int>, x: nat, py: nat, n: nat, ch: int)
    requires WellFormed(img) && Uniform(img, v) && py < img.height && 0 <= ch < 4
    ensures RowSum(img, x, py, n, ch) == n * v[ch]
  {
    if n > 0 {
      UniformRowSum(img, v, x, py, n - 1, ch);
      UniformChannel(img, v, Clamp(x + n - 1, img.width), py, ch);
    }
  }

  lemma {:induction false} UniformBlockSum(img: Image, v: seq<int>, x: nat, y: nat, cellSize: nat, m: nat, ch: int)
    requires WellFormed(img) && Uniform(img, v) && 0 <= ch < 4
    ensures BlockSum(img, x, y, cellSize, m, ch) == m * (cellSize * v[ch])
  {
    if m > 0 {
      var t := cellSize * v[ch];
      UniformBlockSum(img, v, x, y, cellSize, m - 1, ch);
      UniformRowSum(img, v, x, Clamp(y + m - 1, img.height), cellSize, ch);
      assert (m - 1) * t + t == m * t;
    }
  }

  lemma MeanOfCopies(cellSize: int, t: int)
    requires cellSize >= 1
    ensures (cellSize * (cellSize * t)) as real / (cellSize * cellSize) as real == t as real
  {
    var n := cellSize * cellSize;
    assert cellSize * (cellSize * t) == n * t;
  }

  /** On a single-coloured image both sampling modes give that colour back
      for every cell. */
  lemma UniformSamples(img: Image, v: seq<int>, x: nat, y: nat, cellSize: int)
    requires WellFormed(img) && Uniform(img, v) && cellSize >= 1
    ensures AverageSample(img, x, y, cellSize) == ColourOf(v)
    ensures CentreSample(img, x, y, cellSize) == ColourOf(v)
  {
    forall ch | 0 <= ch < 4
      ensures BlockSum(img, x, y, cellSize, cellSize, ch) as real / (cellSize * cellSize) as real == v[ch] as real
    {
      UniformBlockSum(img, v, x, y, cellSize, cellSize, ch);
      MeanOfCopies(cellSize, v[ch]);
    }
    var px := Clamp(x + cellSize / 2, img.width);
    var py := Clamp(y + cellSize / 2, img.height);
    forall ch | 0 <= ch < 4 ensures Channel(img, px, py, ch) == v[ch] {
      UniformChannel(img, v, px, py, ch);
    }
  }

  lemma {:induction false} RowSumBounds(img: Image, x: nat, py: nat, n: nat, ch: int)
    requires WellFormed(img) && Bytes(img) && py < img.height && 0 <= ch < 4
    ensures 0 <= RowSum(img, x, py, n, ch) <= 255 * n
  {
    if n > 0 {
      RowSumBounds(img, x, py, n - 1, ch);
    }
  }

  lemma {:induction false} BlockSumBounds(img: Image, x: nat, y: nat, cellSize: nat, m: nat, ch: int)
    requires WellFormed(img) && Bytes(img) && 0 <= ch < 4
    ensures 0 <= BlockSum(img, x, y, cellSize, m, ch) <= m * (255 * cellSize)
  {
    if m > 0 {
      var t := 255 * cellSize;
      BlockSumBounds(img, x, y, cellSize, m - 1, ch);
      RowSumBounds(img, x, Clamp(y + m - 1, img.height), cellSize, ch);
      assert (m - 1) * t + t == m * t;
    }
  }

  lemma MeanBound(s: int, cellSize: int)
    requires cellSize >= 1 && 0 <= s <= cellSize * (255 * cellSize)
    ensures 0.0 <= s as real / (cellSize * cellSize) as real <= 255.0
  {
    var n := cellSize * cellSize;
    assert s <= 255 * n;
    Arith.RealOfProduct(255, n);
    Arith.RealDivAtMost(s as real, n as real, 255.0);
  }

  /** A cell's sampled colour is a colour: byte-sized channels in, byte-sized
      channels out, in either mode. */
  lemma SamplesInRange(img: Image, x: nat, y: nat, cellSize: int)
    requires WellFormed(img) && Bytes(img) && cellSize >= 1
    ensures InByteRange(AverageSample(img, x, y, cellSize))
    ensures InByteRange(CentreSample(img, x, y, cellSize))
  {
    forall ch | 0 <= ch < 4
      ensures 0.0 <= BlockSum(img, x, y, cellSize, cellSize, ch) as real / (cellSize * cellSize) as real <= 255.0
    {
      BlockSumBounds(img, x, y, cellSize, cellSize, ch);
      MeanBound(BlockSum(img, x, y, cellSize, cellSize, ch), cellSize);
    }
    var px := Clamp(x + cellSize / 2, img.width);
    var py := Clamp(y + cellSize / 2, img.height);
    var i := TexelIndex(img, px, py);
    assert 0 <= img.data[i] <= 255 && 0 <= img.data[i + 1] <= 255;
    assert 0 <= img.data[i + 2] <= 255 && 0 <= img.data[i + 3] <= 255;
  }

  // ------------------------------------------------------------------ tint

  function Mix(v: real, target: real, t: real): real {
    v * (1.0 - t) + target * t
  }

  /** The tint step: red, green and blue move towards the tint colour by
      `strength` when it is positive; alpha is never tinted. */
  function ApplyTint(c: Rgba, tint: HexColor.Rgb, strength: real): (r: Rgba)
    ensures r.a == c.a
    ensures strength <= 0.0 ==> r == c
  {
    if strength > 0.0 then
      Rgba(Mix(c.r, tint.r as real, strength), Mix(c.g, tint.g as real, strength),
           Mix(c.b, tint.b as real, strength), c.a)
    else c
  }

  lemma MixBetween(v: real, target: real, t: real)
    requires 0.0 <= t <= 1.0
    ensures v <= target ==> v <= Mix(v, target, t) <= target
    ensures target <= v ==> target <= Mix(v, target, t) <= v
  {
    assert Mix(v, target, t) == v + (target - v) * t;
    if v <= target {
      ScaleDown(target - v, t);
    } else {
      ScaleDown(v - target, t);
      assert (target - v) * t == -((v - target) * t);
    }
  }

  lemma ScaleDown(d: real, t: real)
    requires d >= 0.0 && 0.0 <= t <= 1.0
    ensures 0.0 <= d * t <= d
  {
    assert d - d * t == d * (1.0 - t);
  }

  /** A tint of strength at most 1 keeps every channel between the sampled
      value and the tint's, so a colour stays a colour. */
  lemma TintInRange(c: Rgba, tint: HexColor.Rgb, strength: real)
    requires InByteRange(c) && HexColor.InRange(tint) && strength <= 1.0
    ensures InByteRange(ApplyTint(c, tint, strength))
  {
    if strength > 0.0 {
      MixBetween(c.r, tint.r as real, strength);
      MixBetween(c.g, tint.g as real, strength);
      MixBetween(c.b, tint.b as real, strength);
    }
  }

  /** Full strength replaces red, green and blue by the tint's. */
  lemma FullTint(c: Rgba, tint: HexColor.Rgb)
    ensures ApplyTint(c, tint, 1.0) == Rgba(tint.r as real, tint.g as real, tint.b as real, c.a)
  {
  }

  // ---------------------------------------------------------- fill style

  /** `Math.round`: halves go up. */
  function Round(v: real): int {
    (v + 0.5).Floor
  }

  /** The `rgba(...)` fill: rounded colour channels, alpha scaled to [0, 1]. */
  datatype Style = Style(r: int, g: int, b: int, alpha: real)

  function FillStyle(c: Rgba): Style {
    Style(Round(c.r), Round(c.g), Round(c.b), c.a / 255.0)
  }

  /** A colour in byte range yields a valid CSS colour: channels 0..255 and
      opacity 0..1. */
  lemma FillStyleInRange(c: Rgba)
    requires InByteRange(c)
    ensures var s := FillStyle(c);
      0 <= s.r <= 255 && 0 <= s.g <= 255 && 0 <= s.b <= 255 && 0.0 <= s.alpha <= 1.0
  {
  }

  // ------------------------------------------------------- dropout, pointer

  /** `Math.random() < dropoutStrength`: the cell is skipped. */
  predicate Dropped(draw: real, dropout: real) {
    draw < dropout
  }

  datatype Point = Point(x: real, y: real)

  const Origin: Point := Point(0.0, 0.0)

  datatype Mode = Swirl | Push | OtherMode

  /** Where a drawn cell ends up before jitter: its centre, or displaced by
      the swirl or push rule. */
  datatype Placement = AtCentre | Swirled | Pushed

  /** `distance < distortionRadius` where distance is the Euclidean distance,
      decided without the square root. */
  predicate WithinRadius(centre: Point, mouse: Point, radius: real) {
    var dx := centre.x - mouse.x;
    var dy := centre.y - mouse.y;
    radius > 0.0 && dx * dx + dy * dy < radius * radius
  }

  /** The squared comparison agrees with the distance one for every
      non-negative distance. */
  lemma WithinRadiusIsDistance(centre: Point, mouse: Point, radius: real, distance: real)
    requires distance >= 0.0
    requires distance * distance == (centre.x - mouse.x) * (centre.x - mouse.x) + (centre.y - mouse.y) * (centre.y - mouse.y)
    ensures WithinRadius(centre, mouse, radius) <==> distance < radius
  {
    if distance < radius {
      SquareStrict(distance, radius);
    } else if radius > 0.0 {
      SquareMono(radius, distance);
    }
  }

  lemma SquareStrict(a: real, b: real)
    requires 0.0 <= a < b
    ensures a * a < b * b
  {
    Positive(b - a, b + a);
    assert (b - a) * (b + a) == b * b - a * a;
  }

  lemma Positive(x: real, y: real)
    requires x > 0.0 && y > 0.0
    ensures x * y > 0.0
  {
  }

  lemma SquareMono(a: real, b: real)
    requires 0.0 <= a <= b
    ensures a * a <= b * b
  {
    assert b * b - a * a == (b - a) * (b + a);
  }

  /** The distortion gate: the canvas is interactive, both pointer
      coordinates are truthy (non-zero), and the cell centre is within the
      radius. */
  function PlacementOf(interactive: bool, mouse: Point, centre: Point, radius: real, mode: Mode): (p: Placement)
    ensures p != AtCentre <==>
      interactive && mouse.x != 0.0 && mouse.y != 0.0 && WithinRadius(centre, mouse, radius) && mode != OtherMode
  {
    if interactive && mouse.x != 0.0 && mouse.y != 0.0 && WithinRadius(centre, mouse, radius) then
      match mode
      case Swirl => Swirled
      case Push => Pushed
      case OtherMode => AtCentre
    else AtCentre
  }

  /** The pointer position after a `mousemove`: unchanged unless the canvas
      is interactive and mounted, otherwise the client point relative to the
      canvas's top-left corner. */
  function MouseMove(pos: Point, interactive: bool, mounted: bool, client: Point, corner: Point): Point {
    if !interactive || !mounted then pos
    else Point(client.x - corner.x, client.y - corner.y)
  }

  function MouseLeave(pos: Point): Point {
    Origin
  }

  datatype PointerEvent = Move(client: Point, corner: Point) | Leave

  function ApplyPointer(pos: Point, interactive: bool, mounted: bool, e: PointerEvent): Point {
    match e
    case Move(client, corner) => MouseMove(pos, interactive, mounted, client, corner)
    case Leave => MouseLeave(pos)
  }

  function Pointer(pos: Point, interactive: bool, mounted: bool, events: seq<PointerEvent>): Point
    decreases |events|
  {
    if events == [] then pos
    else Pointer(ApplyPointer(pos, interactive, mounted, events[0]), interactive, mounted, events[1..])
  }

  /** After the pointer leaves, no cell is displaced until it moves again. */
  lemma LeaveStopsDistortion(pos: Point, interactive: bool, centre: Point, radius: real, mode: Mode)
    ensures PlacementOf(interactive, MouseLeave(pos), centre, radius, mode) == AtCentre
  {
  }

  /** A canvas that is not interactive keeps its pointer at the origin
      whatever events arrive. */
  lemma {:induction false} NonInteractivePointerStays(mounted: bool, events: seq<PointerEvent>)
    ensures Pointer(Origin, false, mounted, events) == Origin
    decreases |events|
  {
    if events != [] {
      NonInteractivePointerStays(mounted, events[1..]);
    }
  }

  /** The render loop asks for another frame exactly when something moves:
      jitter is on or the pointer matters. */
  predicate Reschedules(jitterStrength: real, interactive: bool) {
    jitterStrength > 0.0 || interactive
  }

  // ------------------------------------------------------------- a frame

  datatype Params = Params(
    cellSize: int,
    dotScale: real,
    dropout: real,
    interactive: bool,
    radius: real,
    mode: Mode,
    sampleAverage: bool,
    tintColor: string,
    tintStrength: real)

  /** The component's defaults for the modelled props. */
  const Defaults: Params := Params(3, 0.9, 0.4, false, 80.0, Swirl, false, "#FFFFFF", 0.2)

  /** A drawn cell: its colour, where it is placed and its side length. */
  datatype Cell = Cell(colour: Rgba, placement: Placement, size: real)

  function Sample(img: Image, p: Params, row: nat, col: nat): Rgba
    requires WellFormed(img) && p.cellSize >= 1
  {
    if p.sampleAverage then AverageSample(img, col * p.cellSize, row * p.cellSize, p.cellSize)
    else CentreSample(img, col * p.cellSize, row * p.cellSize, p.cellSize)
  }

  function CentreOf(row: nat, col: nat, cellSize: int): Point {
    Point((col * cellSize) as real + cellSize as real / 2.0, (row * cellSize) as real + cellSize as real / 2.0)
  }

  /** One cell of one frame, given its `Math.random()` draw and the pointer. */
  function RenderCell(img: Image, p: Params, row: nat, col: nat, draw: real, mouse: Point): (r: Option<Cell>)
    requires WellFormed(img) && p.cellSize >= 1
    ensures r.None? <==> Dropped(draw, p.dropout)
    ensures r.Some? ==> r.value.size == p.cellSize as real * p.dotScale
  {
    if Dropped(draw, p.dropout) then None
    else
      var colour := ApplyTint(Sample(img, p, row, col), HexColor.HexToRgb(p.tintColor), p.tintStrength);
      var placement := PlacementOf(p.interactive, mouse, CentreOf(row, col, p.cellSize), p.radius, p.mode);
      Some(Cell(colour, placement, p.cellSize as real * p.dotScale))
  }

  function Columns(img: Image, p: Params): nat
    requires WellFormed(img) && p.cellSize >= 1
  {
    CellCount(img.width, p.cellSize)
  }

  function Rows(img: Image, p: Params): nat
    requires WellFormed(img) && p.cellSize >= 1
  {
    CellCount(img.height, p.cellSize)
  }

  /** The `Math.random()` draws of one frame, one per grid cell, row by row
      in the order of the two loops. */
  predicate DrawsFit(img: Image, p: Params, draws: seq<seq<real>>)
    requires WellFormed(img) && p.cellSize >= 1
  {
    && |draws| == Rows(img, p)
    && forall row :: 0 <= row < |draws| ==> |draws[row]| == Columns(img, p)
  }

  /** Every draw is a value `Math.random()` can return. */
  predicate DrawsInUnit(draws: seq<seq<real>>) {
    forall row, col :: 0 <= row < |draws| && 0 <= col < |draws[row]| ==> 0.0 <= draws[row][col] < 1.0
  }

  /** One frame: entry `[row][col]` is that grid cell, drawn unless its draw
      falls under the dropout. */
  function RenderFrame(img: Image, p: Params, draws: seq<seq<real>>, mouse: Point): (frame: seq<seq<Option<Cell>>>)
    requires WellFormed(img) && p.cellSize >= 1 && DrawsFit(img, p, draws)
    ensures |frame| == Rows(img, p)
    ensures forall row :: 0 <= row < |frame| ==> |frame[row]| == Columns(img, p)
    ensures forall row, col :: 0 <= row < |frame| && 0 <= col < |frame[row]| ==>
      (frame[row][col].None? <==> Dropped(draws[row][col], p.dropout))
  {
    seq(|draws|, row requires 0 <= row < |draws| =>
      seq(|draws[row]|, col requires 0 <= col < |draws[row]| =>
        RenderCell(img, p, row, col, draws[row][col], mouse)))
  }

  /** The frame visits each grid cell once: index `k` is the cell at row
      `k / cols`, column `k % cols`, and each cell has exactly one index. */
  lemma FrameIndexIsCell(rows: nat, cols: nat, row: nat, col: nat)
    requires row < rows && col < cols
    ensures var k := row * cols + col;
      k < rows * cols && k / cols == row && k % cols == col
  {
    Arith.MulMono(row + 1, rows, cols);
    Arith.DivUnique(row * cols + col, cols, row, col);
  }

  /** Zero dropout draws every cell of the frame. */
  lemma NoDropoutDrawsAll(img: Image, p: Params, draws: seq<seq<real>>, mouse: Point)
    requires WellFormed(img) && p.cellSize >= 1 && p.dropout <= 0.0
    requires DrawsFit(img, p, draws) && DrawsInUnit(draws)
    ensures var frame: seq<seq<Option<Cell>>> := RenderFrame(img, p, draws, mouse);
      forall row, col :: 0 <= row < |frame| && 0 <= col < |frame[row]| ==> frame[row][col].Some?
  {
  }

  /** Full dropout draws nothing: every `Math.random()` value is below 1. */
  lemma FullDropoutDrawsNothing(img: Image, p: Params, draws: seq<seq<real>>, mouse: Point)
    requires WellFormed(img) && p.cellSize >= 1 && p.dropout >= 1.0
    requires DrawsFit(img, p, draws) && DrawsInUnit(draws)
    ensures var frame: seq<seq<Option<Cell>>> := RenderFrame(img, p, draws, mouse);
      forall row, col :: 0 <= row < |frame| && 0 <= col < |frame[row]| ==> frame[row][col].None?
  {
  }

  /** Without a pointer over it (or when not interactive) every drawn cell
      sits at its own centre. */
  lemma NoPointerNoDistortion(img: Image, p: Params, draws: seq<seq<real>>, mouse: Point)
    requires WellFormed(img) && p.cellSize >= 1 && DrawsFit(img, p, draws)
    requires !p.interactive || mouse == Origin
    ensures var frame: seq<seq<Option<Cell>>> := RenderFrame(img, p, draws, mouse);
      forall row, col :: 0 <= row < |frame| && 0 <= col < |frame[row]| && frame[row][col].Some? ==>
        frame[row][col].value.placement == AtCentre
  {
  }

  lemma UniformCell(img: Image, v: seq<int>, p: Params, row: nat, col: nat, draw: real, mouse: Point)
    requires WellFormed(img) && Uniform(img, v) && p.cellSize >= 1 && p.tintStrength <= 0.0
    ensures RenderCell(img, p, row, col, draw, mouse).Some? ==>
      RenderCell(img, p, row, col, draw, mouse).value.colour == ColourOf(v)
  {
    UniformSamples(img, v, col * p.cellSize, row * p.cellSize, p.cellSize);
  }

  /** Untinted, a single-coloured image renders every drawn cell in that
      colour, whichever sampling mode is chosen. */
  lemma UniformFrame(img: Image, v: seq<int>, p: Params, draws: seq<seq<real>>, mouse: Point)
    requires WellFormed(img) && Uniform(img, v) && p.cellSize >= 1 && p.tintStrength <= 0.0
    requires DrawsFit(img, p, draws)
    ensures var frame: seq<seq<Option<Cell>>> := RenderFrame(img, p, draws, mouse);
      forall row, col :: 0 <= row < |frame| && 0 <= col < |frame[row]| && frame[row][col].Some? ==>
        frame[row][col].value.colour == ColourOf(v)
  {
    var frame: seq<seq<Option<Cell>>> := RenderFrame(img, p, draws, mouse);
    forall row, col | 0 <= row < |frame| && 0 <= col < |frame[row]| && frame[row][col].Some?
      ensures frame[row][col].value.colour == ColourOf(v)
    {
      UniformCell(img, v, p, row, col, draws[row][col], mouse);
    }
  }

  lemma CellInRange(img: Image, p: Params, row: nat, col: nat, draw: real, mouse: Point)
    requires WellFormed(img) && Bytes(img) && p.cellSize >= 1 && p.tintStrength <= 1.0
    ensures RenderCell(img, p, row, col, draw, mouse).Some? ==>
      InByteRange(RenderCell(img, p, row, col, draw, mouse).value.colour)
  {
    SamplesInRange(img, col * p.cellSize, row * p.cellSize, p.cellSize);
    TintInRange(Sample(img, p, row, col), HexColor.HexToRgb(p.tintColor), p.tintStrength);
  }

  /** With byte-valued pixels and a tint of strength at most 1, every drawn
      cell has a byte-range colour, so its fill style is valid. */
  lemma FrameColoursInRange(img: Image, p: Params, draws: seq<seq<real>>, mouse: Point)
    requires WellFormed(img) && Bytes(img) && p.cellSize >= 1 && p.tintStrength <= 1.0
    requires DrawsFit(img, p, draws)
    ensures var frame: seq<seq<Option<Cell>>> := RenderFrame(img, p, draws, mouse);
      forall row, col :: 0 <= row < |frame| && 0 <= col < |frame[row]| && frame[row][col].Some? ==>
        InByteRange(frame[row][col].value.colour)
  {
    var frame: seq<seq<Option<Cell>>> := RenderFrame(img, p, draws, mouse);
    forall row, col | 0 <= row < |frame| && 0 <= col < |frame[row]| && frame[row][col].Some?
      ensures InByteRange(frame[row][col].value.colour)
    {
      CellInRange(img, p, row, col, draws[row][col], mouse);
    }
  }
}
