/**
 * The picture of the puzzle: the palette index each cell is drawn with, the
 * palette (a gradient from the clear colour to the set colour, plus a border
 * colour), the pixel buffer of a frame, the size limits of the image format,
 * and when an event adds a frame.
 *
 * The file-scope output state becomes the class `State`; its palette and its
 * pixel buffer are arrays the methods write in place.
 */
module Output {
  import opened Lines
  import opened Solver

  /** An unsigned 8-bit value: a palette index or a colour channel. */
  newtype byte = x: int | 0 <= x < 256

  /** When a frame is added: after every line, after every pass, or only at the end. */
  datatype Event = LineSolved | PassDone | Final

  /** Cells drawn as set, clear or unknown, or shaded by their votes. */
  datatype Style = Simple | Details

  /** The options the output reads; colours are 24-bit `0xRRGGBB` values. */
  datatype Options = Options(
    event: Event,
    style: Style,
    gridSize: nat,
    borderWidth: nat,
    setColour: nat,
    clearColour: nat,
    borderColour: nat,
    keepFrames: bool,
    toFile: bool)

  /** The largest width or height the image format can store. */
  const MaxSide: nat := 65535

  /** The number of colour channels of a palette entry. */
  const Channels: nat := 3

  /** The capacity of the palette, in entries. */
  const PaletteSize: nat := 256

  // ----- arithmetic -----

  /**
   * Division as C does it on signed integers: the quotient is truncated
   * toward zero, so it lies on the dividend's side of zero and the remainder
   * `a - q * b` has the dividend's sign and is smaller than `b`.
   */
  function TruncDiv(a: int, b: int): (q: int)
    requires b > 0
    ensures a >= 0 ==> 0 <= q && q * b <= a < q * b + b
    ensures a < 0 ==> q <= 0 && q * b - b < a <= q * b
  {
    if a >= 0 then a / b else -((-a) / b)
  }

  lemma MulLeq(a: nat, b: nat, c: nat)
    requires a <= b
    ensures a * c <= b * c
  {
  }

  lemma MulLess(a: nat, b: nat, c: nat)
    requires a * c < b * c
    ensures a < b
  {
    if a >= b {
      MulLeq(b, a, c);
      assert false;
    }
  }

  lemma DivLeq(a: nat, b: nat, m: nat)
    requires a <= b && 0 < m
    ensures a / m <= b / m
  {
    var qa, qb := a / m, b / m;
    assert qa * m <= a;
    assert b < (qb + 1) * m;
    MulLess(qa, qb + 1, m);
  }

  lemma MulDivCancel(a: nat, m: nat)
    requires 0 < m
    ensures a * m / m == a
  {
    var q, r := a * m / m, a * m % m;
    assert a * m == q * m + r && r < m;
    if q < a {
      MulLeq(q + 1, a, m);
      assert false;
    }
    if q > a {
      MulLeq(a + 1, q, m);
      assert false;
    }
  }

  lemma MulPos(a: nat, b: nat)
    requires 0 < a && 0 < b
    ensures 0 < a * b
  {
    MulLeq(1, a, b);
  }

  /** Scaling `top` by `i / m` with `i <= m` gives at most `top`. */
  lemma ShadeBelow(i: nat, m: nat, top: nat)
    requires i <= m && 0 < m
    ensures i * top / m <= top
  {
    MulLeq(i, m, top);
    DivLeq(i * top, m * top, m);
    assert m * top == top * m;
    MulDivCancel(top, m);
  }

  /** `top` scaled by the fraction `i / m`, rounded down; never more than `top`. */
  function Scaled(i: nat, m: nat, top: nat): (q: nat)
    requires i <= m && 0 < m
    ensures q <= top
  {
    ShadeBelow(i, m, top);
    i * top / m
  }

  /** A smaller fraction of `top` is never scaled to more. */
  lemma ScaledMonotone(i: nat, j: nat, m: nat, top: nat)
    requires i <= j <= m && 0 < m
    ensures Scaled(i, m, top) <= Scaled(j, m, top)
  {
    MulLeq(i, j, top);
    DivLeq(i * top, j * top, m);
  }

  // ----- the level of a cell -----

  /**
   * What drawing a cell asserts: its two views agree on whether it is done,
   * and, when votes are shaded, both counts of accepted arrangements are
   * nonzero and the weighted votes do not exceed their maximum.
   */
  predicate LevelDefined(col: Slot, row: Slot, colMax: nat, rowMax: nat, style: Style) {
    && col.done == row.done
    && (style == Details && !col.done ==>
          && 0 < colMax * rowMax * 2
          && col.value * rowMax + row.value * colMax <= colMax * rowMax * 2)
  }

  /**
   * The palette index of a cell from its column view `col` and its row view
   * `row`: a resolved cell is 0 when clear and `setIndex` when set; an
   * unresolved one is half way in the simple style, and otherwise is shaded
   * by the fraction of arrangements, over both lines, that cover it.
   */
  function Level(col: Slot, row: Slot, colMax: nat, rowMax: nat, style: Style, setIndex: byte): (level: byte)
    requires LevelDefined(col, row, colMax, rowMax, style)
    ensures level <= setIndex
  {
    if col.done then
      (if col.value == 0 then 0 else setIndex)
    else if style == Simple then
      setIndex / 2
    else
      var slotVal, slotMax := col.value * rowMax + row.value * colMax, colMax * rowMax * 2;
      (setIndex as nat - Scaled(slotMax - slotVal, slotMax, setIndex as nat)) as byte
  }

  /**
   * The extremes of shading: an undone cell that every arrangement of both
   * lines covers is drawn like a set cell, and one that none covers like a
   * clear cell.
   */
  lemma LevelExtremes(col: Slot, row: Slot, colMax: nat, rowMax: nat, setIndex: byte)
    requires !col.done && !row.done && colMax > 0 && rowMax > 0
    ensures col.value == colMax && row.value == rowMax ==>
      Level(col, row, colMax, rowMax, Details, setIndex) == setIndex
    ensures col.value == 0 && row.value == 0 ==>
      Level(col, row, colMax, rowMax, Details, setIndex) == 0
  {
    var m := colMax * rowMax * 2;
    MulPos(colMax, rowMax);
    if col.value == colMax && row.value == rowMax {
      assert col.value * rowMax + row.value * colMax == m;
    }
    if col.value == 0 && row.value == 0 {
      assert m * setIndex as nat == setIndex as nat * m;
      MulDivCancel(setIndex as nat, m);
    }
  }

  /** More votes never draw a cell lighter: the level grows with the weighted votes. */
  lemma LevelMonotone(col: Slot, row: Slot, col': Slot, row': Slot, colMax: nat, rowMax: nat, setIndex: byte)
    requires LevelDefined(col, row, colMax, rowMax, Details) && LevelDefined(col', row', colMax, rowMax, Details)
    requires !col.done && !col'.done
    requires col.value * rowMax + row.value * colMax <= col'.value * rowMax + row'.value * colMax
    ensures Level(col, row, colMax, rowMax, Details, setIndex) <= Level(col', row', colMax, rowMax, Details, setIndex)
  {
    var m := colMax * rowMax * 2;
    var v := col.value * rowMax + row.value * colMax;
    var v' := col'.value * rowMax + row'.value * colMax;
    ScaledMonotone(m - v', m - v, m, setIndex as nat);
  }

  /** Votes within the counts of accepted arrangements always give a level. */
  lemma VotesWithinMax(col: Slot, row: Slot, colMax: nat, rowMax: nat)
    requires !col.done && !row.done && 0 < colMax && 0 < rowMax
    requires col.value <= colMax && row.value <= rowMax
    ensures LevelDefined(col, row, colMax, rowMax, Details)
  {
    MulLeq(col.value, colMax, rowMax);
    MulLeq(row.value, rowMax, colMax);
  }

  // ----- colours and the palette -----

  /** Channel `c` (0 red, 1 green, 2 blue) of a `0xRRGGBB` colour. */
  function Channel(colour: nat, c: nat): byte
    requires c < Channels
  {
    ((if c == 0 then colour / 0x10000 else if c == 1 then colour / 0x100 else colour) % 0x100) as byte
  }

  /** The three channels of a colour, as a palette entry holds them. */
  function Rgb(colour: nat): (rgb: seq<byte>)
    ensures |rgb| == Channels
  {
    [Channel(colour, 0), Channel(colour, 1), Channel(colour, 2)]
  }

  /** A 24-bit colour is recovered from its channels. */
  lemma RgbRoundTrip(colour: nat)
    requires colour < 0x100_0000
    ensures var rgb := Rgb(colour); rgb[0] as int * 0x10000 + rgb[1] as int * 0x100 + rgb[2] as int == colour
  {
  }

  /** C's truncating quotient of a signed multiple of a share: the share of `|d|`, with the sign of `d`. */
  lemma TruncScaled(i: nat, n: nat, d: int)
    requires i <= n && 0 < n
    ensures TruncDiv(i * d, n) == if d >= 0 then Scaled(i, n, d) as int else -(Scaled(i, n, -d) as int)
  {
    if d < 0 {
      assert -(i * d) == i * -d;
    }
  }

  /**
   * Channel value `i` of a gradient of `count` entries from `lo` (a
   * channel of the clear colour) to `hi` (the same channel of the set
   * colour), computed with C's truncating division.
   */
  function SpectrumValue(i: nat, count: nat, hi: byte, lo: byte): (v: byte)
    requires 2 <= count && i < count
    ensures lo <= hi ==> lo <= v <= hi
    ensures hi <= lo ==> hi <= v <= lo
  {
    TruncScaled(i, count - 1, hi as int - lo as int);
    (TruncDiv(i * (hi as int - lo as int), count - 1) + lo as int) as byte
  }

  /** The gradient runs from exactly the clear colour to exactly the set colour. */
  lemma SpectrumEnds(count: nat, hi: byte, lo: byte)
    requires 2 <= count
    ensures SpectrumValue(0, count, hi, lo) == lo
    ensures SpectrumValue(count - 1, count, hi, lo) == hi
  {
    var n, d := count - 1, hi as int - lo as int;
    TruncScaled(0, n, d);
    TruncScaled(n, n, d);
    var a := if d >= 0 then d else -d;
    assert n * a == a * n;
    MulDivCancel(a, n);
  }

  /** The gradient moves steadily from the clear colour toward the set colour. */
  lemma SpectrumMonotone(i: nat, j: nat, count: nat, hi: byte, lo: byte)
    requires 2 <= count && i <= j < count
    ensures lo <= hi ==> SpectrumValue(i, count, hi, lo) <= SpectrumValue(j, count, hi, lo)
    ensures hi <= lo ==> SpectrumValue(j, count, hi, lo) <= SpectrumValue(i, count, hi, lo)
  {
    var n, d := count - 1, hi as int - lo as int;
    var a := if d >= 0 then d else -d;
    TruncScaled(i, n, d);
    TruncScaled(j, n, d);
    MulLeq(i, j, a);
    DivLeq(i * a, j * a, n);
  }

  /** Entry `i` of a gradient of `count` entries between two colours. */
  function SpectrumColour(i: nat, count: nat, setColour: nat, clearColour: nat): (rgb: seq<byte>)
    requires 2 <= count && i < count
  {
    seq(Channels, c requires 0 <= c < Channels => SpectrumValue(i, count, Channel(setColour, c), Channel(clearColour, c)))
  }

  /** Palette entry `i` of the flat array `p` is the colour `rgb`, channel by channel. */
  predicate HasColour(p: seq<byte>, i: nat, rgb: seq<byte>)
    requires Channels * i + Channels <= |p| && |rgb| == Channels
  {
    p[Channels * i] == rgb[0] && p[Channels * i + 1] == rgb[1] && p[Channels * i + 2] == rgb[2]
  }

  /** Palette entry `i` of a flat array of channel values. */
  function Entry(p: seq<byte>, i: nat): seq<byte>
    requires Channels * i + Channels <= |p|
  {
    p[Channels * i..Channels * i + Channels]
  }

  /** The first `count` entries of `p` are the gradient of `count` entries. */
  ghost predicate Gradient(p: seq<byte>, count: nat, options: Options)
    requires 2 <= count && Channels * count <= |p|
  {
    forall i :: 0 <= i < count ==> Entry(p, i) == SpectrumColour(i, count, options.setColour, options.clearColour)
  }

  /** A flat array whose value `q` is channel `q % 3` of gradient entry `q / 3` holds the gradient. */
  lemma GradientOf(p: seq<byte>, count: nat, options: Options)
    requires 2 <= count && Channels * count <= |p|
    requires var hi, lo := Rgb(options.setColour), Rgb(options.clearColour);
      forall q :: 0 <= q < Channels * count ==> p[q] == SpectrumValue(q / Channels, count, hi[q % Channels], lo[q % Channels])
    ensures Gradient(p, count, options)
  {
    var hi, lo := Rgb(options.setColour), Rgb(options.clearColour);
    forall i | 0 <= i < count
      ensures Entry(p, i) == SpectrumColour(i, count, options.setColour, options.clearColour)
    {
      forall c | 0 <= c < Channels
        ensures Entry(p, i)[c] == SpectrumColour(i, count, options.setColour, options.clearColour)[c]
      {
        var q := Channels * i + c;
        assert q / Channels == i && q % Channels == c;
        assert Entry(p, i)[c] == p[q];
      }
    }
  }

  /** A gradient starts at exactly the clear colour and ends at exactly the set colour. */
  lemma GradientEnds(p: seq<byte>, count: nat, options: Options)
    requires 2 <= count && Channels * count <= |p| && Gradient(p, count, options)
    ensures Entry(p, 0) == Rgb(options.clearColour)
    ensures Entry(p, count - 1) == Rgb(options.setColour)
  {
    var hi, lo := Rgb(options.setColour), Rgb(options.clearColour);
    assert Entry(p, 0) == SpectrumColour(0, count, options.setColour, options.clearColour);
    assert Entry(p, count - 1) == SpectrumColour(count - 1, count, options.setColour, options.clearColour);
    forall c | 0 <= c < Channels
      ensures SpectrumValue(0, count, hi[c], lo[c]) == lo[c] && SpectrumValue(count - 1, count, hi[c], lo[c]) == hi[c]
    {
      SpectrumEnds(count, hi[c], lo[c]);
    }
  }

  /** Writing past the gradient keeps it. */
  lemma GradientKept(p: seq<byte>, p': seq<byte>, count: nat, options: Options)
    requires 2 <= count && Channels * count <= |p| == |p'|
    requires forall q :: 0 <= q < Channels * count ==> p'[q] == p[q]
    requires Gradient(p, count, options)
    ensures Gradient(p', count, options)
  {
    forall i | 0 <= i < count
      ensures Entry(p', i) == SpectrumColour(i, count, options.setColour, options.clearColour)
    {
      assert Entry(p', i) == Entry(p, i);
    }
  }

  /** A palette entry has a colour exactly when it is that colour. */
  lemma EntryColour(p: seq<byte>, i: nat, rgb: seq<byte>)
    requires Channels * i + Channels <= |p| && |rgb| == Channels
    ensures HasColour(p, i, rgb) <==> Entry(p, i) == rgb
  {
    if HasColour(p, i, rgb) {
      assert Entry(p, i) == [p[Channels * i], p[Channels * i + 1], p[Channels * i + 2]];
    }
  }

  /**
   * A search of a gradient for the border colour that found its last
   * occurrence at `at`, or found none, tells whether the gradient holds
   * the border colour and where.
   */
  lemma FoundInGradient(p: seq<byte>, count: nat, options: Options, found: bool, at: nat)
    requires 2 <= count && Channels * count <= |p| && Gradient(p, count, options)
    requires found <==> exists j :: 0 <= j < count && HasColour(p, j, Rgb(options.borderColour))
    requires found ==> at < count && HasColour(p, at, Rgb(options.borderColour))
    requires found ==> forall j :: at < j < count ==> !HasColour(p, j, Rgb(options.borderColour))
    ensures found <==> BorderInGradient(count, options)
    ensures found ==> Entry(p, at) == Rgb(options.borderColour)
    ensures found ==> SpectrumColour(at, count, options.setColour, options.clearColour) == Rgb(options.borderColour)
    ensures found ==> forall j :: at < j < count ==> SpectrumColour(j, count, options.setColour, options.clearColour) != Rgb(options.borderColour)
  {
    var border := Rgb(options.borderColour);
    forall j | 0 <= j < count
      ensures HasColour(p, j, border) <==> SpectrumColour(j, count, options.setColour, options.clearColour) == border
    {
      EntryColour(p, j, border);
    }
  }

  /** The palette starts with 3 entries in the simple style and 256 in the details style. */
  function BaseCount(style: Style): (n: nat)
    ensures 2 <= n <= PaletteSize
  {
    if style == Details then PaletteSize else 3
  }

  /** Some entry of the gradient of `count` entries is the border colour. */
  ghost predicate BorderInGradient(count: nat, options: Options)
    requires 2 <= count
  {
    exists j :: 0 <= j < count && SpectrumColour(j, count, options.setColour, options.clearColour) == Rgb(options.borderColour)
  }

  // ----- the picture -----

  /** A block of `gs` pixels per cell, `n` cells long, divides back into cells. */
  lemma DivBelow(xx: nat, n: nat, gs: nat)
    requires 0 < gs && xx < n * gs
    ensures xx / gs < n
  {
    var q := xx / gs;
    assert q * gs <= xx;
    MulLess(q, n, gs);
  }

  /** A pixel of the block of cell `x` divides back to `x`, with its offset in the block as remainder. */
  lemma DivWithin(xx: nat, x: nat, gs: nat)
    requires 0 < gs && x * gs <= xx < x * gs + gs
    ensures xx / gs == x && xx % gs == xx - x * gs
  {
    var q, r := xx / gs, xx % gs;
    assert xx == q * gs + r && r < gs;
    if q < x {
      MulLeq(q + 1, x, gs);
      assert false;
    }
    if q > x {
      MulLeq(x + 1, q, gs);
      assert false;
    }
  }

  /**
   * Every cell can be drawn: the columns and the rows are the two views of
   * one grid, and the level of each cell is defined.
   */
  ghost predicate Drawable(rows: seq<Line>, cols: seq<Line>, style: Style) {
    && Shaped(rows, |cols|) && Shaped(cols, |rows|)
    && forall x, y {:trigger LevelDefined(cols[x].slots[y], rows[y].slots[x], cols[x].slotMax, rows[y].slotMax, style)} ::
         0 <= x < |cols| && 0 <= y < |rows| ==>
           LevelDefined(cols[x].slots[y], rows[y].slots[x], cols[x].slotMax, rows[y].slotMax, style)
  }

  /** The simple style can draw any consistent puzzle: its two views of a cell agree on whether it is done. */
  lemma SimpleDrawable(p: Puzzle)
    requires p.Valid()
    ensures Drawable(p.rows, p.cols, Simple)
  {
    forall x, y | 0 <= x < |p.cols| && 0 <= y < |p.rows|
      ensures LevelDefined(p.cols[x].slots[y], p.rows[y].slots[x], p.cols[x].slotMax, p.rows[y].slotMax, Simple)
    {
      CellAt(p.rows, p.cols, p.clueStartCount, y, x);
    }
  }

  /** The level of the cell in column `x` and row `y`. */
  function CellLevel(rows: seq<Line>, cols: seq<Line>, style: Style, setIndex: byte, x: nat, y: nat): (level: byte)
    requires Drawable(rows, cols, style) && x < |cols| && y < |rows|
    ensures level <= setIndex
  {
    Level(cols[x].slots[y], rows[y].slots[x], cols[x].slotMax, rows[y].slotMax, style, setIndex)
  }

  /**
   * The palette index of pixel (`xx`, `yy`) of a frame: each cell is a
   * square of `gridSize` pixels whose first `borderWidth` rows and columns
   * are border and whose remaining pixels show the level of the cell, and
   * everything right of or below the cells is border.
   */
  ghost function Pixel(options: Options, rows: seq<Line>, cols: seq<Line>, setIndex: byte, border: byte, xx: nat, yy: nat): byte
    requires Drawable(rows, cols, options.style)
  {
    var gs := options.gridSize;
    if 0 < gs && xx < |cols| * gs && yy < |rows| * gs then
      DivBelow(xx, |cols|, gs);
      DivBelow(yy, |rows|, gs);
      if xx % gs < options.borderWidth || yy % gs < options.borderWidth then border
      else CellLevel(rows, cols, options.style, setIndex, xx / gs, yy / gs)
    else border
  }

  /** Inside the block of a cell, a pixel is border in the first rows and columns and the cell's level elsewhere. */
  lemma PixelInCell(options: Options, rows: seq<Line>, cols: seq<Line>, setIndex: byte, border: byte, x: nat, y: nat, xx: nat, yy: nat)
    requires Drawable(rows, cols, options.style) && x < |cols| && y < |rows|
    requires x * options.gridSize <= xx < x * options.gridSize + options.gridSize
    requires y * options.gridSize <= yy < y * options.gridSize + options.gridSize
    ensures Pixel(options, rows, cols, setIndex, border, xx, yy) ==
      if xx - x * options.gridSize < options.borderWidth || yy - y * options.gridSize < options.borderWidth then border
      else CellLevel(rows, cols, options.style, setIndex, x, y)
  {
    var gs := options.gridSize;
    DivWithin(xx, x, gs);
    DivWithin(yy, y, gs);
    MulLeq(x + 1, |cols|, gs);
    MulLeq(y + 1, |rows|, gs);
    assert (x + 1) * gs == x * gs + gs && (y + 1) * gs == y * gs + gs;
  }

  /** A pixel of a cell block: border in the first `bw` rows and columns, `level` elsewhere. */
  function BlockPixel(bw: nat, i: nat, j: nat, border: byte, level: byte): byte {
    if j < bw || i < bw then border else level
  }

  // ----- image size and frames -----

  /** The outcome of the size checks: the width and the height, or the side that is too large. */
  datatype Sizes = Fits(width: nat, height: nat) | TooWide | TooTall

  /**
   * The image holds every cell and one border width more in each direction;
   * the width is checked first, then the height, against what the image
   * format can store.
   */
  function InitSizes(options: Options, rowCount: nat, colCount: nat): Sizes {
    var width := colCount * options.gridSize + options.borderWidth;
    var height := rowCount * options.gridSize + options.borderWidth;
    if width > MaxSide then TooWide
    else if height > MaxSide then TooTall
    else Fits(width, height)
  }

  /** The image is made exactly when both sides fit, and then it covers every cell. */
  lemma InitSizesFit(options: Options, rowCount: nat, colCount: nat)
    ensures var r := InitSizes(options, rowCount, colCount);
      && (r.Fits? <==> colCount * options.gridSize + options.borderWidth <= MaxSide
                       && rowCount * options.gridSize + options.borderWidth <= MaxSide)
      && (r.Fits? ==> r.width <= MaxSide && r.height <= MaxSide
                      && colCount * options.gridSize <= r.width && rowCount * options.gridSize <= r.height)
      && (r == TooTall ==> colCount * options.gridSize + options.borderWidth <= MaxSide)
  {
  }

  /**
   * Whether an event adds a frame, given the resolved-cell count when the
   * frame was last drawn and now: the simple style without kept frames
   * skips any event but the last when nothing was resolved since; an event
   * other than the configured one adds nothing; otherwise a frame is added
   * when there is an image file to add it to.
   */
  function AddsFrame(options: Options, event: Event, drawnCells: nat, cells: nat): bool {
    if !options.keepFrames && options.style == Simple && event != Final && drawnCells == cells then false
    else if event != options.event then false
    else options.toFile
  }

  /** Drawing the same picture twice is skipped in the simple style, unless frames are kept or it is the last one. */
  lemma RepeatSkipped(options: Options, event: Event, cells: nat)
    requires !options.keepFrames && options.style == Simple && event != Final
    ensures !AddsFrame(options, event, cells, cells)
  {
  }

  /** Only the configured event adds frames, and only to an image file. */
  lemma OnlyConfiguredEvent(options: Options, event: Event, drawnCells: nat, cells: nat)
    ensures AddsFrame(options, event, drawnCells, cells) ==> event == options.event && options.toFile
  {
  }

  /** The configured event adds a frame whenever the picture may have changed, or it is the last one. */
  lemma ChangedAdds(options: Options, event: Event, drawnCells: nat, cells: nat)
    requires event == options.event && options.toFile
    requires drawnCells != cells || event == Final || options.keepFrames || options.style == Details
    ensures AddsFrame(options, event, drawnCells, cells)
  {
  }

  // ----- the first picture -----

  /**
   * The initial vote as written: twice the clue sum of the orientation,
   * against a maximum that counts each cell of the orientation once.
   */
  function InitialVoteAsWritten(orientationTotal: nat): nat {
    orientationTotal * 2
  }

  /**
   * As written, the first picture of a puzzle more than half of whose
   * cells are set cannot be drawn in the details style: a single set cell
   * starts with a vote of 2 in each view, weighted to 4, against a maximum
   * of 2.
   */
  lemma AsWrittenNotDrawable()
    ensures var line := Line([1], 1, [Slot(false, InitialVoteAsWritten(SumAll([[1]])))], 0, true, 1);
      && Initialised([line], [[1]], 1, InitialVoteAsWritten(SumAll([[1]])))
      && !Drawable([line], [line], Details)
  {
    var line := Line([1], 1, [Slot(false, InitialVoteAsWritten(SumAll([[1]])))], 0, true, 1);
    assert SumAll([[1]]) == 1 by {
      assert [[1]][..0] == [];
      assert Sum([1]) == 1 by { assert [1][..0] == []; }
    }
    assert Sum([1]) == 1 by { assert [1][..0] == []; }
    assert seq(1, _ => Slot(false, 2)) == [Slot(false, 2)];
    assert !LevelDefined(line.slots[0], line.slots[0], 1, 1, Details);
  }

  /**
   * A line that could not be placed keeps the cleared votes of its failed
   * solve: `slot_max` is zero while some slot is still undone (the pass only
   * solves lines that are not complete), so the weighted level of that cell
   * would divide by zero and no details picture of the puzzle can be drawn.
   */
  lemma FailedNotDrawable(rows: seq<Line>, cols: seq<Line>, y: nat, l0: Line)
    requires y < |rows| && rows[y] == Reset(l0) && |l0.slots| == |cols|
    requires l0.total == DoneCount(l0.slots) && l0.total < |l0.slots|
    ensures !Drawable(rows, cols, Details)
  {
    DoneCountFull(l0.slots);
    var x :| 0 <= x < |l0.slots| && !l0.slots[x].done;
    if Shaped(cols, |rows|) {
      assert !LevelDefined(cols[x].slots[y], rows[y].slots[x], cols[x].slotMax, rows[y].slotMax, Details);
    }
  }

  /**
   * With the initial vote equal to the clue sum of the orientation, the
   * first picture of any puzzle whose clues fit in its cells can be drawn
   * in the details style.
   */
  lemma InitialDrawable(rows: seq<Line>, cols: seq<Line>, rowClues: seq<seq<nat>>, colClues: seq<seq<nat>>)
    requires Initialised(rows, rowClues, |colClues|, InitialVote(SumAll(rowClues)))
    requires Initialised(cols, colClues, |rowClues|, InitialVote(SumAll(colClues)))
    requires SumAll(rowClues) <= |rowClues| * |colClues| && SumAll(colClues) <= |rowClues| * |colClues|
    ensures Drawable(rows, cols, Details)
  {
    assert |colClues| * |rowClues| == |rowClues| * |colClues|;
    forall x, y | 0 <= x < |cols| && 0 <= y < |rows|
      ensures LevelDefined(cols[x].slots[y], rows[y].slots[x], cols[x].slotMax, rows[y].slotMax, Details)
    {
      var cells := |rowClues| * |colClues|;
      InitialSlot(cols, colClues, |rowClues|, InitialVote(SumAll(colClues)), x, y);
      InitialSlot(rows, rowClues, |colClues|, InitialVote(SumAll(rowClues)), y, x);
      MulPos(|rowClues|, |colClues|);
      VotesWithinMax(cols[x].slots[y], rows[y].slots[x], cells, cells);
    }
  }

  /**
   * The output state: the options, the palette (a flat array of channel
   * values with room for 256 entries) and how many entries are in use, the
   * palette indices of the border and of a set cell, the pixel buffer of one
   * frame, and the resolved-cell count at the last drawing.
   */
  class State {
    const options: Options
    const palette: array<byte>
    var paletteCount: nat
    var borderIndex: nat
    var setIndex: nat
    /** The pixels of a frame, indexed by row and then column. */
    const grid: array2<byte>
    var cellsComplete: nat

    ghost predicate Valid()
      reads this
    {
      palette.Length == Channels * PaletteSize && setIndex < PaletteSize && borderIndex < PaletteSize
    }

    /** Writes the gradient of `count` entries at the start of the palette and makes its last entry the set level. */
    method GenerateSpectrum(count: nat)
      requires Valid() && 2 <= count <= PaletteSize
      modifies this`setIndex, palette
      ensures Valid() && setIndex == count - 1
      ensures Gradient(palette[..], count, options)
      ensures palette[Channels * count..] == old(palette[Channels * count..])
    {
      var hi, lo := Rgb(options.setColour), Rgb(options.clearColour);
      var p := 0;
      for i := 0 to count
        invariant p == Channels * i
        invariant forall q :: 0 <= q < p ==> palette[q] == SpectrumValue(q / Channels, count, hi[q % Channels], lo[q % Channels])
        invariant forall q :: p <= q < palette.Length ==> palette[q] == old(palette[q])
      {
        for c := 0 to Channels
          invariant p == Channels * i + c
          invariant forall q :: 0 <= q < p ==> palette[q] == SpectrumValue(q / Channels, count, hi[q % Channels], lo[q % Channels])
          invariant forall q :: p <= q < palette.Length ==> palette[q] == old(palette[q])
        {
          palette[p] := SpectrumValue(i, count, hi[c], lo[c]);
          p := p + 1;
        }
      }
      GradientOf(palette[..], count, options);
      setIndex := count - 1;
    }
  
    /**
     * Builds the palette: the gradient of the base count of entries, and,
     * when borders are drawn, the border colour: the last gradient entry
     * that already has it, or else a new entry after the gradient (which
     * loses an entry first if the palette would overflow).
     */
    method GeneratePalette()
      requires Valid()
      modifies this`paletteCount, this`borderIndex, this`setIndex, palette
      ensures Valid() && PaletteBuilt()
      ensures options.borderWidth == 0 ==> borderIndex == old(borderIndex)
    {
      paletteCount := 3;
      if options.style == Details {
        paletteCount := PaletteSize;
      }
      GenerateSpectrum(paletteCount);
      if options.borderWidth != 0 {
        var found := FindBorder();
        FoundInGradient(palette[..], paletteCount, options, found, borderIndex);
        if !found {
          if paletteCount == PaletteSize {
            paletteCount := paletteCount - 1;
            GenerateSpectrum(paletteCount);
          }
          AppendBorder();
        }
      }
    }

    /**
     * The palette as building it leaves it: the gradient of the base count
     * of entries, one fewer when the border colour must be appended to a
     * full palette; when borders are drawn, the border index is the last
     * gradient entry of the border colour or else the appended entry.
     */
    ghost predicate PaletteBuilt()
      reads this, palette
      requires Valid()
    {
      var base, border := BaseCount(options.style), Rgb(options.borderColour);
      var appended := options.borderWidth != 0 && !BorderInGradient(base, options);
      var n := if appended && base == PaletteSize then PaletteSize - 1 else base;
      && paletteCount == (if appended then n + 1 else n) && setIndex == n - 1
      && Gradient(palette[..], n, options)
      && (appended ==> borderIndex == n && Entry(palette[..], n) == border)
      && (options.borderWidth != 0 && !appended ==>
            && borderIndex < n
            && SpectrumColour(borderIndex, n, options.setColour, options.clearColour) == border
            && forall j :: borderIndex < j < n ==> SpectrumColour(j, n, options.setColour, options.clearColour) != border)
      && (options.borderWidth != 0 ==>
            borderIndex < paletteCount <= PaletteSize && Entry(palette[..], borderIndex) == border)
    }

    /** Looks for the border colour in the palette: the last entry that has it becomes the border index. */
    method FindBorder() returns (found: bool)
      requires Valid() && paletteCount <= PaletteSize
      modifies this`borderIndex
      ensures Valid()
      ensures found <==> exists j :: 0 <= j < paletteCount && HasColour(palette[..], j, Rgb(options.borderColour))
      ensures found ==> borderIndex < paletteCount && HasColour(palette[..], borderIndex, Rgb(options.borderColour))
      ensures found ==> forall j :: borderIndex < j < paletteCount ==> !HasColour(palette[..], j, Rgb(options.borderColour))
      ensures !found ==> borderIndex == old(borderIndex)
    {
      var border := Rgb(options.borderColour);
      ghost var pal := palette[..];
      found := false;
      for i := 0 to paletteCount
        invariant found <==> exists j :: 0 <= j < i && HasColour(pal, j, border)
        invariant found ==> borderIndex < i && HasColour(pal, borderIndex, border)
        invariant found ==> forall j :: borderIndex < j < i ==> !HasColour(pal, j, border)
        invariant !found ==> borderIndex == old(borderIndex)
        invariant Valid()
      {
        if palette[Channels * i] == border[0] && palette[Channels * i + 1] == border[1] && palette[Channels * i + 2] == border[2] {
          assert HasColour(pal, i, border);
          found := true;
          borderIndex := i;
        } else {
          assert !HasColour(pal, i, border);
        }
      }
      assert palette[..] == pal;
    }

    /** Adds the border colour as a new entry after the gradient. */
    method AppendBorder()
      requires Valid() && 2 <= paletteCount < PaletteSize && Gradient(palette[..], paletteCount, options)
      modifies this`paletteCount, this`borderIndex, palette
      ensures Valid()
      ensures borderIndex == old(paletteCount) && paletteCount == old(paletteCount) + 1
      ensures Gradient(palette[..], borderIndex, options) && Entry(palette[..], borderIndex) == Rgb(options.borderColour)
    {
      var border := Rgb(options.borderColour);
      ghost var before := palette[..];
      borderIndex := paletteCount;
      palette[Channels * borderIndex] := border[0];
      palette[Channels * borderIndex + 1] := border[1];
      palette[Channels * borderIndex + 2] := border[2];
      GradientKept(before, palette[..], paletteCount, options);
      paletteCount := paletteCount + 1;
    }

    /** Draws the block of one cell, whose top left pixel is (`x0`, `y0`), and nothing else. */
    method FillCell(x0: nat, y0: nat, border: byte, level: byte)
      requires y0 + options.gridSize <= grid.Length0 && x0 + options.gridSize <= grid.Length1
      modifies grid
      ensures forall yy, xx :: 0 <= yy < grid.Length0 && 0 <= xx < grid.Length1 ==>
        grid[yy, xx] == if y0 <= yy < y0 + options.gridSize && x0 <= xx < x0 + options.gridSize
                        then BlockPixel(options.borderWidth, yy - y0, xx - x0, border, level)
                        else old(grid[yy, xx])
    {
      var gs := options.gridSize;
      for i := 0 to gs
        invariant forall yy, xx :: 0 <= yy < grid.Length0 && 0 <= xx < grid.Length1 ==>
          grid[yy, xx] == if y0 <= yy < y0 + i && x0 <= xx < x0 + gs
                          then BlockPixel(options.borderWidth, yy - y0, xx - x0, border, level)
                          else old(grid[yy, xx])
      {
        for j := 0 to gs
          invariant forall yy, xx :: 0 <= yy < grid.Length0 && 0 <= xx < grid.Length1 ==>
            grid[yy, xx] == if (y0 <= yy < y0 + i && x0 <= xx < x0 + gs) || (yy == y0 + i && x0 <= xx < x0 + j)
                            then BlockPixel(options.borderWidth, yy - y0, xx - x0, border, level)
                            else old(grid[yy, xx])
        {
          if j < options.borderWidth || i < options.borderWidth {
            grid[y0 + i, x0 + j] := border;
          } else {
            grid[y0 + i, x0 + j] := level;
          }
        }
      }
    }

    /** Draws the blocks of every cell of row `y`, whose pixels start at row `y0`. */
    method FillRow(p: Puzzle, y: nat, y0: nat)
      requires Valid() && Drawable(p.rows, p.cols, options.style) && y < |p.rows|
      requires y0 == y * options.gridSize && y0 + options.gridSize <= grid.Length0
      requires |p.cols| * options.gridSize <= grid.Length1
      modifies grid
      ensures forall yy, xx :: 0 <= yy < grid.Length0 && 0 <= xx < grid.Length1 ==>
        grid[yy, xx] == if y0 <= yy < y0 + options.gridSize && xx < |p.cols| * options.gridSize
                        then Pixel(options, p.rows, p.cols, setIndex as byte, borderIndex as byte, xx, yy)
                        else old(grid[yy, xx])
    {
      var gs := options.gridSize;
      var border, top := borderIndex as byte, setIndex as byte;
      var x0 := 0;
      for x := 0 to |p.cols|
        invariant x0 == x * gs
        invariant forall yy, xx :: 0 <= yy < grid.Length0 && 0 <= xx < grid.Length1 ==>
          grid[yy, xx] == if y0 <= yy < y0 + gs && xx < x0
                          then Pixel(options, p.rows, p.cols, top, border, xx, yy)
                          else old(grid[yy, xx])
      {
        MulLeq(x + 1, |p.cols|, gs);
        var level := Level(p.cols[x].slots[y], p.rows[y].slots[x], p.cols[x].slotMax, p.rows[y].slotMax, options.style, top);
        FillCell(x0, y0, border, level);
        forall yy, xx | y0 <= yy < y0 + gs && x0 <= xx < x0 + gs
          ensures BlockPixel(options.borderWidth, yy - y0, xx - x0, border, level) == Pixel(options, p.rows, p.cols, top, border, xx, yy)
        {
          PixelInCell(options, p.rows, p.cols, top, border, x, y, xx, yy);
        }
        x0 := x0 + gs;
      }
    }

    /** Fills every pixel from column `x0` on with the border colour, and nothing else. */
    method PadRight(x0: nat, border: byte)
      requires x0 <= grid.Length1
      modifies grid
      ensures forall yy, xx :: 0 <= yy < grid.Length0 && 0 <= xx < grid.Length1 ==>
        grid[yy, xx] == if x0 <= xx then border else old(grid[yy, xx])
    {
      for y := 0 to grid.Length0
        invariant forall yy, xx :: 0 <= yy < grid.Length0 && 0 <= xx < grid.Length1 ==>
          grid[yy, xx] == if yy < y && x0 <= xx then border else old(grid[yy, xx])
      {
        for x := x0 to grid.Length1
          invariant forall yy, xx :: 0 <= yy < grid.Length0 && 0 <= xx < grid.Length1 ==>
            grid[yy, xx] == if (yy < y && x0 <= xx) || (yy == y && x0 <= xx < x) then border else old(grid[yy, xx])
        {
          grid[y, x] := border;
        }
      }
    }

    /** Fills every pixel from row `y0` on with the border colour, and nothing else. */
    method PadBelow(y0: nat, border: byte)
      requires y0 <= grid.Length0
      modifies grid
      ensures forall yy, xx :: 0 <= yy < grid.Length0 && 0 <= xx < grid.Length1 ==>
        grid[yy, xx] == if y0 <= yy then border else old(grid[yy, xx])
    {
      for y := y0 to grid.Length0
        invariant forall yy, xx :: 0 <= yy < grid.Length0 && 0 <= xx < grid.Length1 ==>
          grid[yy, xx] == if y0 <= yy < y then border else old(grid[yy, xx])
      {
        for x := 0 to grid.Length1
          invariant forall yy, xx :: 0 <= yy < grid.Length0 && 0 <= xx < grid.Length1 ==>
            grid[yy, xx] == if y0 <= yy < y || (yy == y && xx < x) then border else old(grid[yy, xx])
        {
          grid[y, x] := border;
        }
      }
    }

    /** The frame shows the puzzle: every pixel is the one its cell, or the border, calls for. */
    ghost predicate Shows(p: Puzzle)
      reads this, grid, p
      requires Drawable(p.rows, p.cols, options.style) && setIndex < PaletteSize && borderIndex < PaletteSize
    {
      forall yy, xx :: 0 <= yy < grid.Length0 && 0 <= xx < grid.Length1 ==>
        grid[yy, xx] == Pixel(options, p.rows, p.cols, setIndex as byte, borderIndex as byte, xx, yy)
    }

    /**
     * Redraws the frame from the puzzle: the block of every cell, then the
     * border right of and below the cells, and records how many cells were
     * resolved when it was drawn.
     */
    method GridUpdate(p: Puzzle)
      requires Valid() && Drawable(p.rows, p.cols, options.style)
      requires |p.rows| * options.gridSize <= grid.Length0 && |p.cols| * options.gridSize <= grid.Length1
      modifies grid, this`cellsComplete
      ensures Valid() && Shows(p) && cellsComplete == p.cellsComplete
    {
      var gs := options.gridSize;
      var w, h := |p.cols|, |p.rows|;
      var border := borderIndex as byte;
      var y0 := 0;
      for y := 0 to h
        invariant y0 == y * gs
        invariant forall yy, xx :: 0 <= yy < grid.Length0 && 0 <= xx < grid.Length1 ==>
          yy < y0 && xx < w * gs ==> grid[yy, xx] == Pixel(options, p.rows, p.cols, setIndex as byte, border, xx, yy)
      {
        MulLeq(y + 1, h, gs);
        FillRow(p, y, y0);
        y0 := y0 + gs;
      }
      PadRight(w * gs, border);
      PadBelow(h * gs, border);
      cellsComplete := p.cellsComplete;
    }

    /**
     * Reacts to a solver event: when the event adds a frame, redraws the
     * frame from the puzzle; otherwise changes nothing. Returns whether a
     * frame was added.
     */
    method EventNotify(event: Event, p: Puzzle) returns (frame: bool)
      requires Valid()
      requires AddsFrame(options, event, cellsComplete, p.cellsComplete) ==>
        && Drawable(p.rows, p.cols, options.style)
        && |p.rows| * options.gridSize <= grid.Length0 && |p.cols| * options.gridSize <= grid.Length1
      modifies grid, this`cellsComplete
      ensures Valid()
      ensures frame == AddsFrame(options, event, old(cellsComplete), p.cellsComplete)
      ensures frame ==> Drawable(p.rows, p.cols, options.style) && Shows(p) && cellsComplete == p.cellsComplete
      ensures !frame ==> cellsComplete == old(cellsComplete) && unchanged(grid)
    {
      if !options.keepFrames && options.style == Simple && event != Final {
        if cellsComplete == p.cellsComplete {
          return false;
        }
      }
      if event != options.event {
        return false;
      }
      if options.toFile {
        GridUpdate(p);
        return true;
      }
      return false;
    }

    /**
     * Sets up the output for a puzzle whose image sizes fit: builds the
     * palette, makes a zero-filled frame of the image size and draws the
     * puzzle into it.
     */
    constructor (options: Options, p: Puzzle, width: nat, height: nat)
      requires InitSizes(options, |p.rows|, |p.cols|) == Fits(width, height)
      requires Drawable(p.rows, p.cols, options.style)
      ensures this.options == options && Valid() && PaletteBuilt()
      ensures grid.Length0 == height && grid.Length1 == width
      ensures Shows(p) && cellsComplete == p.cellsComplete
      ensures fresh(palette) && fresh(grid)
    {
      this.options := options;
      palette := new byte[Channels * PaletteSize](_ => 0);
      grid := new byte[height, width]((_, _) => 0);
      paletteCount, borderIndex, setIndex, cellsComplete := 0, 0, 0, 0;
      new;
      GeneratePalette();
      GridUpdate(p);
    }
  }

  /**
   * Sets up the output for a puzzle: nothing when the image would be too
   * wide or too tall for the image format, and otherwise the state with
   * its palette built and the puzzle drawn.
   */
  method Init(options: Options, p: Puzzle) returns (s: Option<State>)
    requires InitSizes(options, |p.rows|, |p.cols|).Fits? ==> Drawable(p.rows, p.cols, options.style)
    ensures s.None? <==> !InitSizes(options, |p.rows|, |p.cols|).Fits?
    ensures s.Some? ==> var r := InitSizes(options, |p.rows|, |p.cols|);
      && s.value.options == options && s.value.Valid() && s.value.PaletteBuilt()
      && s.value.grid.Length0 == r.height && s.value.grid.Length1 == r.width
      && Drawable(p.rows, p.cols, options.style) && s.value.Shows(p) && s.value.cellsComplete == p.cellsComplete
  {
    var sizes := InitSizes(options, |p.rows|, |p.cols|);
    if !sizes.Fits? {
      return None;
    }
    var state := new State(options, p, sizes.width, sizes.height);
    return Some(state);
  }
}
