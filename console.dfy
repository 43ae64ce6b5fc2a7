/**
 * The four scrolling text areas of the board's LCD: displayArea_t, the pixel
 * scroll displayScrollVertical and the character writer displayString, plus
 * the layout vioInit gives the areas.
 *
 * Each area is a window of whole text rows.  A printable character is drawn at
 * the cursor, which then moves one column right and wraps to the next row past
 * the right edge; a line feed moves the cursor one row down and keeps its
 * column; a carriage return moves it to the first column and keeps its row.
 * Moving down past the last row scrolls the window up by one row, clears the
 * freed row to black and leaves the cursor on the last row.
 *
 * The model is in two layers: pure functions (Step, Render, ScrollOnce,
 * ScrollTimes) say what the text and the pixels become, and the class Lcd
 * changes its areas and its frame buffer in place the way the C code does,
 * proved against those functions.
 */
module Console {

  import opened Options
  import opened CStrings

  /** The uint16_t fields of displayArea_t. */
  type U16 = x: int | 0 <= x < 0x1_0000

  /** A 32-bit ARGB colour, as the GUI layer passes it. */
  type Color = bv32

  /** GUI_COLOR_BLACK. */
  const BLACK: Color := 0xFF00_0000

  const LF: char := '\n'
  const CR: char := '\r'

  /** displayArea_t: a window [xOrigin, xWidth) x [yOrigin, yHeight), its cursor and its font cell. */
  datatype Area = Area(
    xOrigin: U16, xWidth: U16, xPos: U16,
    yOrigin: U16, yHeight: U16, yPos: U16,
    fontWidth: U16, fontHeight: U16)

  /** The part of an area that scrolling uses: the window and the row height. */
  datatype Region = Region(xOrigin: U16, xWidth: U16, yOrigin: U16, yHeight: U16, fontHeight: U16)

  /** One GUI_DisplayChar call: character ch drawn with its top-left corner at (x, y). */
  datatype Glyph = Glyph(x: U16, y: U16, ch: char)

  function RegionOf(a: Area): Region
  {
    Region(a.xOrigin, a.xWidth, a.yOrigin, a.yHeight, a.fontHeight)
  }

  /**
   * The window holds at least one column and a whole number of rows, and moving
   * the cursor one cell right or down never leaves the 16-bit range of the fields.
   */
  predicate WellFormed(a: Area)
  {
    0 < a.fontWidth && 0 < a.fontHeight
    && a.xOrigin < a.xWidth && a.xWidth + a.fontWidth <= 0x1_0000
    && a.yOrigin + a.fontHeight <= a.yHeight && a.yHeight + a.fontHeight <= 0x1_0000
    && OnGrid(a.yOrigin, a.yHeight, a.fontHeight)
  }

  /** The cursor is on a character cell of the window. */
  predicate CursorInside(a: Area)
    requires WellFormed(a)
  {
    a.xOrigin <= a.xPos < a.xWidth && OnGrid(a.xOrigin, a.xPos, a.fontWidth)
    && a.yPos + a.fontHeight <= a.yHeight && OnGrid(a.yOrigin, a.yPos, a.fontHeight)
  }

  predicate ValidArea(a: Area)
  {
    WellFormed(a) && CursorInside(a)
  }

  /** a and b differ at most in the cursor. */
  predicate SameGeometry(a: Area, b: Area)
  {
    a.(xPos := b.xPos, yPos := b.yPos) == b
  }

  /** The cursor is on the bottom row of the window. */
  predicate OnLastRow(a: Area)
  {
    a.yPos + a.fontHeight == a.yHeight
  }

  /** A glyph drawn on a character cell of the window of a. */
  predicate OnCell(a: Area, g: Glyph)
    requires WellFormed(a)
  {
    a.xOrigin <= g.x < a.xWidth && OnGrid(a.xOrigin, g.x, a.fontWidth)
    && g.y + a.fontHeight <= a.yHeight && OnGrid(a.yOrigin, g.y, a.fontHeight)
  }

  // ---------------------------------------------------------------------------
  // Cell arithmetic
  // ---------------------------------------------------------------------------

  /** p lies a whole number of cells of the given size from origin. */
  predicate OnGrid(origin: int, p: int, size: nat)
    decreases p - origin
  {
    p == origin || (0 < size && origin + size <= p && OnGrid(origin, p - size, size))
  }

  lemma {:induction false} OnGridTimes(origin: int, k: nat, size: nat)
    requires 0 < size
    ensures OnGrid(origin, origin + k * size, size)
  {
    if k > 0 {
      OnGridTimes(origin, k - 1, size);
      assert origin + k * size - size == origin + (k - 1) * size;
    }
  }

  /** Two points of the same grid are at least a cell apart. */
  lemma {:induction false} GridGap(origin: int, p: int, q: int, size: nat)
    requires 0 < size && OnGrid(origin, p, size) && OnGrid(origin, q, size) && p < q
    ensures p + size <= q
    decreases p - origin
  {
    if p != origin {
      GridGap(origin, p - size, q - size, size);
    }
  }

  /** A row that is not the last one of a window of whole rows is followed by a whole row. */
  lemma RowFits(origin: int, y: int, height: int, size: nat)
    requires 0 < size && OnGrid(origin, y, size) && OnGrid(origin, height, size)
    requires y + size < height
    ensures y + 2 * size <= height
  {
    assert OnGrid(origin, y + size, size);
    GridGap(origin, y + size, height, size);
  }

  // ---------------------------------------------------------------------------
  // One character (the switch in displayString)
  // ---------------------------------------------------------------------------

  /** The cursor after a character, whether the window scrolled, and the glyph drawn if any. */
  datatype StepResult = StepResult(area: Area, scrolled: bool, glyph: Option<Glyph>)

  /**
   * Lines 203-224.  A line feed moves one row down and keeps the column; a carriage
   * return goes back to the first column and keeps the row; anything else is drawn
   * at the cursor, which moves one column right and wraps to the start of the next
   * row past the right edge.  Moving below the last row scrolls the window and
   * leaves the cursor on the last row.
   */
  function Step(a: Area, ch: char): (r: StepResult)
    requires ValidArea(a)
    ensures ValidArea(r.area) && SameGeometry(a, r.area)
  {
    if ch == LF then
      var y := a.yPos + a.fontHeight;
      if y >= a.yHeight then
        StepResult(a.(yPos := y - a.fontHeight), true, None)
      else
        RowFits(a.yOrigin, a.yPos, a.yHeight, a.fontHeight);
        StepResult(a.(yPos := y), false, None)
    else if ch == CR then
      StepResult(a.(xPos := a.xOrigin), false, None)
    else
      var g := Glyph(a.xPos, a.yPos, ch);
      var x := a.xPos + a.fontWidth;
      if x >= a.xWidth then
        var y := a.yPos + a.fontHeight;
        if y >= a.yHeight then
          StepResult(a.(xPos := a.xOrigin, yPos := y - a.fontHeight), true, Some(g))
        else
          RowFits(a.yOrigin, a.yPos, a.yHeight, a.fontHeight);
          StepResult(a.(xPos := a.xOrigin, yPos := y), false, Some(g))
      else
        assert OnGrid(a.xOrigin, x, a.fontWidth);
        StepResult(a.(xPos := x), false, Some(g))
  }

  /**
   * What one character does: line feed and wrap scroll exactly on the last
   * row, a glyph is drawn exactly for a character that is neither LF nor CR,
   * at the cursor and on a cell of the window.
   */
  lemma StepSpec(a: Area, ch: char)
    requires ValidArea(a)
    ensures var r := Step(a, ch);
            (r.scrolled ==> OnLastRow(a) && OnLastRow(r.area))
            && (r.glyph.Some? <==> ch != LF && ch != CR)
            && (r.glyph.Some? ==> r.glyph.value == Glyph(a.xPos, a.yPos, ch) && OnCell(a, r.glyph.value))
            && (ch == LF ==> r.area.xPos == a.xPos && r.scrolled == OnLastRow(a))
            && (ch == LF && !OnLastRow(a) ==> r.area.yPos == a.yPos + a.fontHeight)
            && (ch == CR ==> r.area == a.(xPos := a.xOrigin) && !r.scrolled)
            && (ch != LF && ch != CR && a.xPos + a.fontWidth < a.xWidth ==>
                  r.area == a.(xPos := a.xPos + a.fontWidth) && !r.scrolled)
            && (ch != LF && ch != CR && a.xPos + a.fontWidth >= a.xWidth ==>
                  r.area.xPos == a.xOrigin && r.scrolled == OnLastRow(a)
                  && r.area.yPos == if OnLastRow(a) then a.yPos else a.yPos + a.fontHeight)
  {
  }

  // ---------------------------------------------------------------------------
  // A whole string (the loop in displayString)
  // ---------------------------------------------------------------------------

  /** The cursor after a string, how often the window scrolled, and the glyphs drawn in order. */
  datatype Rendering = Rendering(area: Area, scrolls: nat, glyphs: seq<Glyph>)

  /** The characters of s one after the other, each by Step. */
  function Render(a: Area, s: string): (r: Rendering)
    requires ValidArea(a)
    ensures ValidArea(r.area) && SameGeometry(a, r.area)
    ensures r.scrolls <= |s| && |r.glyphs| <= |s|
    decreases |s|
  {
    if s == [] then Rendering(a, 0, [])
    else
      var r := Render(a, s[..|s| - 1]);
      var st := Step(r.area, s[|s| - 1]);
      Rendering(st.area, r.scrolls + (if st.scrolled then 1 else 0),
                r.glyphs + (if st.glyph.Some? then [st.glyph.value] else []))
  }

  /** One more character is one more Step, on an area of the same geometry. */
  lemma RenderSnoc(a: Area, s: string, c: char)
    requires ValidArea(a)
    ensures var r := Render(a, s);
            var st := Step(r.area, c);
            var q := Render(a, s + [c]);
            q.area == st.area && RegionOf(r.area) == RegionOf(a)
            && q.scrolls == r.scrolls + (if st.scrolled then 1 else 0)
            && q.glyphs == r.glyphs + (if st.glyph.Some? then [st.glyph.value] else [])
  {
    assert (s + [c])[..|s|] == s;
  }

  /** What rendering t adds after a rendering r. */
  function Then(r: Rendering, t: string): (q: Rendering)
    requires ValidArea(r.area)
    ensures q.area == Render(r.area, t).area
  {
    var u := Render(r.area, t);
    Rendering(u.area, r.scrolls + u.scrolls, r.glyphs + u.glyphs)
  }

  /** Writing s and then t is writing s + t: displayString may be called piecewise. */
  lemma {:induction false} RenderAppend(a: Area, s: string, t: string)
    requires ValidArea(a)
    ensures Render(a, s + t) == Then(Render(a, s), t)
    decreases |t|
  {
    if t != [] {
      var t' := t[..|t| - 1];
      assert (s + t)[..|s + t| - 1] == s + t';
      assert (s + t)[|s + t| - 1] == t[|t| - 1];
      RenderAppend(a, s, t');
    } else {
      assert s + t == s;
    }
  }

  /** s without its line feeds and carriage returns. */
  function Printable(s: string): (p: string)
    ensures |p| <= |s|
    ensures LF !in p && CR !in p
  {
    if s == [] then []
    else Printable(s[..|s| - 1]) + (if s[|s| - 1] in {LF, CR} then [] else [s[|s| - 1]])
  }

  function GlyphChars(gs: seq<Glyph>): string
  {
    seq(|gs|, k requires 0 <= k < |gs| => gs[k].ch)
  }

  /** Exactly the characters other than CR and LF are drawn, in order, and each on a cell of the window. */
  lemma {:induction false} RenderGlyphs(a: Area, s: string)
    requires ValidArea(a)
    ensures GlyphChars(Render(a, s).glyphs) == Printable(s)
    ensures forall k :: 0 <= k < |Render(a, s).glyphs| ==> OnCell(a, Render(a, s).glyphs[k])
    decreases |s|
  {
    if s != [] {
      var s' := s[..|s| - 1];
      RenderGlyphs(a, s');
      var r := Render(a, s');
      var st := Step(r.area, s[|s| - 1]);
      assert GlyphChars(r.glyphs + (if st.glyph.Some? then [st.glyph.value] else []))
          == GlyphChars(r.glyphs) + (if st.glyph.Some? then [s[|s| - 1]] else []);
      assert RegionOf(r.area) == RegionOf(a);
    }
  }

  /** A line feed or a wrap below the last row scrolls: never more scrolls than line feeds and drawn characters. */
  lemma {:induction false} RenderScrollsBound(a: Area, s: string)
    requires ValidArea(a)
    ensures Render(a, s).scrolls <= |s| - CountOf(s, CR)
    decreases |s|
  {
    if s != [] {
      RenderScrollsBound(a, s[..|s| - 1]);
    }
  }

  /** k line feeds. */
  function LineFeeds(k: nat): (s: string)
    ensures |s| == k && forall i :: 0 <= i < k ==> s[i] == LF
  {
    seq(k, _ => LF)
  }

  /** The whole rows of the window below the cursor's row. */
  function RowsBelow(a: Area): (d: nat)
    requires ValidArea(a)
    ensures a.yPos + (d + 1) * a.fontHeight == a.yHeight
    ensures d == 0 <==> OnLastRow(a)
    decreases a.yHeight - a.yPos
  {
    if OnLastRow(a) then 0
    else
      RowFits(a.yOrigin, a.yPos, a.yHeight, a.fontHeight);
      assert OnGrid(a.yOrigin, a.yPos + a.fontHeight, a.fontHeight);
      1 + RowsBelow(a.(yPos := a.yPos + a.fontHeight))
  }

  /**
   * k line feeds move the cursor k rows down in its column, draw nothing, and
   * scroll once for each line feed that finds the cursor on the last row: none
   * while rows are left below, one for each line feed after that.
   */
  lemma {:induction false} RenderLineFeeds(a: Area, k: nat)
    requires ValidArea(a)
    ensures var r := Render(a, LineFeeds(k));
            var d := RowsBelow(a);
            r.glyphs == [] && r.area.xPos == a.xPos
            && r.scrolls == (if k <= d then 0 else k - d)
            && r.area.yPos == (if k <= d then a.yPos + k * a.fontHeight else a.yHeight - a.fontHeight)
  {
    if k > 0 {
      var s := LineFeeds(k - 1);
      assert LineFeeds(k) == s + [LF];
      RenderLineFeeds(a, k - 1);
      RenderSnoc(a, s, LF);
      var r := Render(a, s);
      StepSpec(r.area, LF);
      RowArith(a.yPos, a.fontHeight, a.yHeight, k, RowsBelow(a));
    }
  }

  /** The row arithmetic of RenderLineFeeds: row k - 1 is above the last one exactly when k rows are left. */
  lemma RowArith(y: int, h: int, height: int, k: nat, d: nat)
    requires 0 < h && 0 < k && y + (d + 1) * h == height
    ensures y + (k - 1) * h + h == y + k * h
    ensures k <= d ==> y + k * h < height
    ensures k - 1 == d ==> y + (k - 1) * h == height - h
  {
    assert (k - 1) * h + h == k * h;
    if k <= d {
      assert k * h <= d * h;
    }
  }

  function CountOf(s: string, c: char): (n: nat)
    ensures n <= |s|
  {
    if s == [] then 0 else CountOf(s[..|s| - 1], c) + (if s[|s| - 1] == c then 1 else 0)
  }

  /**
   * "\r\n", which vioSetIPv4 and vioSetIPv6 write before an address, starts a new
   * line: the first column of the next row, or of the last row after one scroll.
   */
  lemma NewLine(a: Area)
    requires ValidArea(a)
    ensures Render(a, "\r\n").area.xPos == a.xOrigin
    ensures Render(a, "\r\n").area.yPos == if OnLastRow(a) then a.yPos else a.yPos + a.fontHeight
    ensures Render(a, "\r\n").scrolls == if OnLastRow(a) then 1 else 0
    ensures Render(a, "\r\n").glyphs == []
  {
    var s := "\r\n";
    assert s[..1] == "\r" && s[..1][..0] == [];
  }

  // ---------------------------------------------------------------------------
  // Pixels (displayScrollVertical)
  // ---------------------------------------------------------------------------

  /** The frame buffer as columns of pixels: f[x][y] is the pixel at (x, y). */
  predicate IsFrame(f: seq<seq<Color>>, width: nat, height: nat)
  {
    |f| == width && forall x :: 0 <= x < width ==> |f[x]| == height
  }

  predicate WellFormedRegion(r: Region)
  {
    0 < r.fontHeight && r.xOrigin <= r.xWidth && r.yOrigin + r.fontHeight <= r.yHeight
  }

  /** The region lies on the frame buffer. */
  predicate Covers(f: seq<seq<Color>>, r: Region)
  {
    r.xWidth <= |f| && forall x :: 0 <= x < |f| ==> r.yHeight <= |f[x]|
  }

  predicate InRegion(r: Region, x: int, y: int)
  {
    r.xOrigin <= x < r.xWidth && r.yOrigin <= y < r.yHeight
  }

  /**
   * Lines 172-187: inside the region each pixel takes the one a row height below
   * it, the bottom row height turns black; pixels outside the region stay.
   */
  function ScrollOnce(f: seq<seq<Color>>, r: Region): (g: seq<seq<Color>>)
    requires WellFormedRegion(r) && Covers(f, r)
    ensures |g| == |f| && forall x :: 0 <= x < |f| ==> |g[x]| == |f[x]|
  {
    seq(|f|, x requires 0 <= x < |f| =>
      seq(|f[x]|, y requires 0 <= y < |f[x]| =>
        if InRegion(r, x, y) then
          if y + r.fontHeight < r.yHeight then f[x][y + r.fontHeight] else BLACK
        else f[x][y]))
  }

  /** A frame that agrees with ScrollOnce(f, r) pixel by pixel is ScrollOnce(f, r). */
  lemma ScrollOnceIs(f: seq<seq<Color>>, r: Region, g: seq<seq<Color>>)
    requires WellFormedRegion(r) && Covers(f, r)
    requires |g| == |f| && forall x :: 0 <= x < |f| ==> |g[x]| == |f[x]|
    requires forall x, y {:trigger g[x][y]} :: 0 <= x < |f| && 0 <= y < |f[x]| ==>
               g[x][y] == if !InRegion(r, x, y) then f[x][y]
                          else if y + r.fontHeight < r.yHeight then f[x][y + r.fontHeight] else BLACK
    ensures g == ScrollOnce(f, r)
  {
    var h := ScrollOnce(f, r);
    forall x | 0 <= x < |f| ensures g[x] == h[x] {
      forall y | 0 <= y < |f[x]| ensures g[x][y] == h[x][y] {
        assert h[x][y] == if InRegion(r, x, y) then
                            if y + r.fontHeight < r.yHeight then f[x][y + r.fontHeight] else BLACK
                          else f[x][y];
      }
    }
  }

  /** n scrolls of the same region one after the other. */
  function ScrollTimes(f: seq<seq<Color>>, r: Region, n: nat): (g: seq<seq<Color>>)
    requires WellFormedRegion(r) && Covers(f, r)
    ensures |g| == |f| && forall x :: 0 <= x < |f| ==> |g[x]| == |f[x]|
    decreases n
  {
    if n == 0 then f else ScrollOnce(ScrollTimes(f, r, n - 1), r)
  }

  /** One scroll more than n scrolls. */
  lemma ScrollTimesNext(f: seq<seq<Color>>, r: Region, n: nat, m: nat)
    requires WellFormedRegion(r) && Covers(f, r) && m == n + 1
    ensures ScrollTimes(f, r, m) == ScrollOnce(ScrollTimes(f, r, n), r)
  {
  }

  /** The height of n rows of the region, summed row by row; RowsHeightIsProduct shows it is n * fontHeight. */
  function RowsHeight(r: Region, n: nat): nat
  {
    if n == 0 then 0 else RowsHeight(r, n - 1) + r.fontHeight
  }

  /**
   * After n scrolls a pixel of the region shows the one n rows further down, or
   * black where that lies below the region; pixels outside are untouched.
   */
  lemma {:induction false} ScrollTimesPixel(f: seq<seq<Color>>, r: Region, n: nat, x: nat, y: nat)
    requires WellFormedRegion(r) && Covers(f, r)
    requires x < |f| && y < |f[x]|
    ensures InRegion(r, x, y) && y + RowsHeight(r, n) < r.yHeight ==>
              ScrollTimes(f, r, n)[x][y] == f[x][y + RowsHeight(r, n)]
    ensures InRegion(r, x, y) && y + RowsHeight(r, n) >= r.yHeight ==>
              ScrollTimes(f, r, n)[x][y] == BLACK
    ensures !InRegion(r, x, y) ==> ScrollTimes(f, r, n)[x][y] == f[x][y]
    decreases n
  {
    if n > 0 {
      var h := r.fontHeight;
      var g := ScrollTimes(f, r, n - 1);
      var d := RowsHeight(r, n - 1);
      assert ScrollTimes(f, r, n)[x][y] == ScrollOnce(g, r)[x][y];
      if !InRegion(r, x, y) {
        ScrollTimesPixel(f, r, n - 1, x, y);
      } else if y + h < r.yHeight {
        assert ScrollOnce(g, r)[x][y] == g[x][y + h];
        ScrollTimesPixel(f, r, n - 1, x, y + h);
        assert y + h + d == y + RowsHeight(r, n);
      } else {
        assert ScrollOnce(g, r)[x][y] == BLACK;
      }
    }
  }

  /** The scroll distance of ScrollTimesPixel: n scrolls move the pixels n font heights up. */
  lemma {:induction false} RowsHeightIsProduct(r: Region, n: nat)
    ensures RowsHeight(r, n) == n * r.fontHeight
  {
    if n > 0 {
      RowsHeightIsProduct(r, n - 1);
      assert n * r.fontHeight == (n - 1) * r.fontHeight + r.fontHeight;
    }
  }

  /** Scrolling m times and then n times is scrolling m + n times. */
  lemma {:induction false} ScrollTimesAdd(f: seq<seq<Color>>, r: Region, m: nat, n: nat)
    requires WellFormedRegion(r) && Covers(f, r)
    ensures ScrollTimes(ScrollTimes(f, r, m), r, n) == ScrollTimes(f, r, m + n)
    decreases n
  {
    if n > 0 {
      ScrollTimesAdd(f, r, m, n - 1);
    }
  }

  /** Scrolling one area never changes a pixel outside it, so areas that do not overlap do not disturb each other. */
  lemma ScrollKeepsOthers(f: seq<seq<Color>>, r: Region, n: nat, o: Region)
    requires WellFormedRegion(r) && Covers(f, r)
    requires o.yHeight <= r.yOrigin || r.yHeight <= o.yOrigin
    ensures forall x, y :: 0 <= x < |f| && 0 <= y < |f[x]| && InRegion(o, x, y) ==>
              ScrollTimes(f, r, n)[x][y] == f[x][y]
  {
    forall x: nat, y: nat | x < |f| && y < |f[x]| && InRegion(o, x, y)
      ensures ScrollTimes(f, r, n)[x][y] == f[x][y]
    {
      ScrollTimesPixel(f, r, n, x, y);
    }
  }

  // ---------------------------------------------------------------------------
  // The layout vioInit sets up
  // ---------------------------------------------------------------------------

  /** Display indices are the print levels. */
  const LevelNone := 0
  const LevelHeading := 1
  const LevelMessage := 2
  const LevelError := 3

  /** An area with the cursor at its origin, as vioInit leaves each of them. */
  function Fresh(fw: U16, fh: U16, xWidth: U16, yOrigin: U16, rows: nat): Area
    requires yOrigin + rows * fh < 0x1_0000
  {
    Area(3, xWidth, 3, yOrigin, yOrigin + rows * fh, yOrigin, fw, fh)
  }

  /**
   * Lines 294-328: display[level] for the four levels.  All are three pixels in
   * from the left and four from the right edge; the heading has two rows of the
   * 11x16 font from y = 4, the others 7x12 rows: two from y = 40 (level none),
   * nine from y = 120 (messages), four from y = 68 (errors).
   */
  function Layout(xSize: nat): (areas: seq<Area>)
    requires 8 <= xSize <= 0x1_0000 - 7
    ensures |areas| == 4
    ensures forall k :: 0 <= k < 4 ==> ValidArea(areas[k])
    ensures forall k :: 0 <= k < 4 ==> areas[k].xPos == areas[k].xOrigin && areas[k].yPos == areas[k].yOrigin
    ensures forall k :: 0 <= k < 4 ==> areas[k].xOrigin == 3 && areas[k].xWidth == xSize - 4 && areas[k].yHeight <= 228
    ensures forall k, l :: 0 <= k < l < 4 ==>
              areas[k].yHeight < areas[l].yOrigin || areas[l].yHeight < areas[k].yOrigin
    ensures areas[LevelHeading].yHeight == areas[LevelHeading].yOrigin + 2 * areas[LevelHeading].fontHeight
    ensures areas[LevelNone].yHeight == areas[LevelNone].yOrigin + 2 * areas[LevelNone].fontHeight
    ensures areas[LevelError].yHeight == areas[LevelError].yOrigin + 4 * areas[LevelError].fontHeight
    ensures areas[LevelMessage].yHeight == areas[LevelMessage].yOrigin + 9 * areas[LevelMessage].fontHeight
  {
    var w := xSize - 4;
    OnGridTimes(40, 2, 12);
    OnGridTimes(4, 2, 16);
    OnGridTimes(120, 9, 12);
    OnGridTimes(68, 4, 12);
    [Fresh(7, 12, w, 40, 2), Fresh(11, 16, w, 4, 2), Fresh(7, 12, w, 120, 9), Fresh(7, 12, w, 68, 4)]
  }

  /**
   * Writing p and then t with two displayString calls has the effect of
   * writing p + t with one.
   */
  lemma TwoWrites(a: Area, p: string, t: string, first: Rendering, second: Rendering)
    requires ValidArea(a)
    requires first == Render(a, p) && second == Render(first.area, t)
    ensures Render(a, p + t).area == second.area
    ensures Render(a, p + t).scrolls == first.scrolls + second.scrolls
    ensures Render(a, p + t).glyphs == first.glyphs + second.glyphs
    ensures RegionOf(first.area) == RegionOf(a)
  {
    RenderAppend(a, p, t);
  }

  /** The C string "\r\n" that DisplayLine writes first: a local proof step of Lcd.DisplayLine. */
  lemma NewLineText(s: string)
    requires s == "\r\n\0"
    ensures NUL in s && CLen(s) == 2 && s[..CLen(s)] == "\r\n"
  {
    assert s[2] == NUL && s[..2] == "\r\n";
  }

  /** Appending is associative: a local proof step of Lcd.DisplayLine. */
  lemma Associative<T>(a: seq<T>, b: seq<T>, c: seq<T>)
    ensures (a + b) + c == a + (b + c)
  {
  }

  /** ScrollTimesAdd with the region and the total given by equal values: a local proof step of Lcd.DisplayLine. */
  lemma ScrollsAdd(f: seq<seq<Color>>, r: Region, r': Region, m: nat, n: nat, k: nat)
    requires WellFormedRegion(r) && Covers(f, r) && r' == r && k == m + n
    ensures ScrollTimes(ScrollTimes(f, r, m), r', n) == ScrollTimes(f, r, k)
  {
    ScrollTimesAdd(f, r, m, n);
  }

  // ---------------------------------------------------------------------------
  // The LCD and the display[] table
  // ---------------------------------------------------------------------------

  /**
   * The frame buffer the GUI layer reads and writes pixel by pixel, the static
   * display[4] table, and the characters GUI_DisplayChar has drawn so far.
   */
  class Lcd {
    const pixels: array2<Color>
    const display: array<Area>
    var glyphs: seq<Glyph>

    /** Every area is well formed, has its cursor on a cell and lies on the screen. */
    ghost predicate Valid()
      reads this, display
    {
      display.Length == 4
      && forall k :: 0 <= k < 4 ==>
           ValidArea(display[k]) && display[k].xWidth <= pixels.Length0 && display[k].yHeight <= pixels.Length1
    }

    /** The frame buffer as a value. */
    ghost function Frame(): (f: seq<seq<Color>>)
      reads pixels
      ensures IsFrame(f, pixels.Length0, pixels.Length1)
    {
      seq(pixels.Length0, x requires 0 <= x < pixels.Length0 reads pixels =>
        seq(pixels.Length1, y requires 0 <= y < pixels.Length1 reads pixels => pixels[x, y]))
    }

    /**
     * Lines 285 and 294-328: the screen cleared to black and the four areas laid
     * out, nothing drawn yet.  At least 230 rows keep the orange frame of lines
     * 332-333, which ends on rows ySize - 2 and ySize - 1, below the message area.
     */
    constructor (xSize: nat, ySize: nat)
      requires 8 <= xSize <= 0x1_0000 - 7 && 230 <= ySize
      ensures Valid() && fresh(pixels) && fresh(display)
      ensures pixels.Length0 == xSize && pixels.Length1 == ySize
      ensures display[..] == Layout(xSize) && glyphs == []
      ensures forall x, y :: 0 <= x < xSize && 0 <= y < ySize ==> pixels[x, y] == BLACK
    {
      pixels := new Color[xSize, ySize]((x, y) => BLACK);
      var areas := Layout(xSize);
      display := new Area[4](k requires 0 <= k < 4 => areas[k]);
      glyphs := [];
    }

    /** Lines 172-187: the window of display[idx] moves up one row and its last row turns black. */
    method ScrollVertical(idx: nat)
      requires idx < display.Length && WellFormed(display[idx])
      requires display[idx].xWidth <= pixels.Length0 && display[idx].yHeight <= pixels.Length1
      modifies pixels
      ensures Frame() == ScrollOnce(old(Frame()), RegionOf(display[idx]))
    {
      ghost var f := Frame();
      ghost var r := RegionOf(display[idx]);
      var fh := display[idx].fontHeight;
      var y := display[idx].yOrigin;
      while y < display[idx].yHeight - fh
        invariant display[idx].yOrigin <= y <= display[idx].yHeight - fh
        invariant forall x', y' {:trigger pixels[x', y']} :: 0 <= x' < pixels.Length0 && 0 <= y' < pixels.Length1 ==>
                    pixels[x', y'] == if InRegion(r, x', y') && y' < y then f[x'][y' + fh] else f[x'][y']
      {
        CopyRow(display[idx].xOrigin, display[idx].xWidth, y, fh);
        y := y + 1;
      }
      while y < display[idx].yHeight
        invariant display[idx].yHeight - fh <= y <= display[idx].yHeight
        invariant forall x', y' {:trigger pixels[x', y']} :: 0 <= x' < pixels.Length0 && 0 <= y' < pixels.Length1 ==>
                    pixels[x', y'] ==
                      if !InRegion(r, x', y') || y' >= y then f[x'][y']
                      else if y' + fh < r.yHeight then f[x'][y' + fh] else BLACK
      {
        ClearRow(display[idx].xOrigin, display[idx].xWidth, y);
        y := y + 1;
      }
      ghost var g := Frame();
      forall x, y | 0 <= x < |f| && 0 <= y < |f[x]|
        ensures g[x][y] == if !InRegion(r, x, y) then f[x][y]
                           else if y + fh < r.yHeight then f[x][y + fh] else BLACK
      {
        assert g[x][y] == pixels[x, y];
      }
      ScrollOnceIs(f, r, g);
    }

    /** The inner loop of lines 176-179: pixels x0 to x1 - 1 of row y take the colour fh rows below. */
    method CopyRow(x0: nat, x1: nat, y: nat, fh: nat)
      requires x0 <= x1 <= pixels.Length0 && y + fh < pixels.Length1
      modifies pixels
      ensures forall x', y' {:trigger pixels[x', y']} :: 0 <= x' < pixels.Length0 && 0 <= y' < pixels.Length1 ==>
                pixels[x', y'] == if y' == y && x0 <= x' < x1 then old(pixels[x', y + fh]) else old(pixels[x', y'])
    {
      var x := x0;
      while x < x1
        invariant x0 <= x <= x1
        invariant forall x', y' {:trigger pixels[x', y']} :: 0 <= x' < pixels.Length0 && 0 <= y' < pixels.Length1 ==>
                    pixels[x', y'] == if y' == y && x0 <= x' < x then old(pixels[x', y + fh]) else old(pixels[x', y'])
      {
        var color := pixels[x, y + fh];
        pixels[x, y] := color;
        x := x + 1;
      }
    }

    /** The inner loop of lines 183-185: pixels x0 to x1 - 1 of row y turn black. */
    method ClearRow(x0: nat, x1: nat, y: nat)
      requires x0 <= x1 <= pixels.Length0 && y < pixels.Length1
      modifies pixels
      ensures forall x', y' {:trigger pixels[x', y']} :: 0 <= x' < pixels.Length0 && 0 <= y' < pixels.Length1 ==>
                pixels[x', y'] == if y' == y && x0 <= x' < x1 then BLACK else old(pixels[x', y'])
    {
      var x := x0;
      while x < x1
        invariant x0 <= x <= x1
        invariant forall x', y' {:trigger pixels[x', y']} :: 0 <= x' < pixels.Length0 && 0 <= y' < pixels.Length1 ==>
                    pixels[x', y'] == if y' == y && x0 <= x' < x then BLACK else old(pixels[x', y'])
      {
        pixels[x, y] := BLACK;
        x := x + 1;
      }
    }

    /**
     * Lines 195-229: the characters of str up to its NUL, one by one, on display[idx].
     * The index is a uint8_t, so a string of 256 characters or more would never end;
     * every caller passes a shorter one.
     */
    method DisplayString(idx: nat, str: string)
      requires Valid() && idx < 4
      requires NUL in str && CLen(str) <= 255
      modifies this, display, pixels
      ensures Valid()
      ensures display[idx] == Render(old(display[idx]), str[..CLen(str)]).area
      ensures glyphs == old(glyphs) + Render(old(display[idx]), str[..CLen(str)]).glyphs
      ensures Frame() == ScrollTimes(old(Frame()), RegionOf(old(display[idx])),
                                     Render(old(display[idx]), str[..CLen(str)]).scrolls)
      ensures forall k :: 0 <= k < 4 && k != idx ==> display[k] == old(display[k])
    {
      ghost var a0, f0, g0 := display[idx], Frame(), glyphs;
      ghost var r := RegionOf(a0);
      var i := 0;
      ghost var done := Render(a0, []);
      while str[i] != NUL
        invariant 0 <= i <= CLen(str) && Valid()
        invariant done == Render(a0, str[..i])
        invariant display[idx] == done.area && glyphs == g0 + done.glyphs
        invariant Frame() == ScrollTimes(f0, r, done.scrolls)
        invariant forall k :: 0 <= k < 4 && k != idx ==> display[k] == old(display[k])
        decreases CLen(str) - i
      {
        var ch := str[i];
        assert str[..i + 1] == str[..i] + [ch];
        WriteNext(idx, ch, a0, f0, g0, str[..i]);
        i := i + 1;
        done := Render(a0, str[..i]);
      }
      assert str[..i] == str[..CLen(str)];
    }

    /**
     * Lines 599-600 and 650-651: displayString of "\r\n" and then of str on
     * display[idx], which is writing the line break and the C string in str
     * in one go.
     */
    method DisplayLine(idx: nat, str: string)
      requires Valid() && idx < 4
      requires NUL in str && CLen(str) <= 255
      modifies this, display, pixels
      ensures Valid()
      ensures var line := Render(old(display[idx]), "\r\n" + str[..CLen(str)]);
              display[idx] == line.area && glyphs == old(glyphs) + line.glyphs
              && Frame() == ScrollTimes(old(Frame()), RegionOf(old(display[idx])), line.scrolls)
      ensures forall k :: 0 <= k < 4 && k != idx ==> display[k] == old(display[k])
    {
      ghost var a0, f0, g0 := display[idx], Frame(), glyphs;
      assert WellFormedRegion(RegionOf(a0)) && Covers(f0, RegionOf(a0));
      var newLine := "\r\n\0";
      NewLineText(newLine);
      DisplayString(idx, newLine);
      ghost var first := Render(a0, "\r\n");
      ghost var f1, g1 := Frame(), glyphs;
      assert f1 == ScrollTimes(f0, RegionOf(a0), first.scrolls) && g1 == g0 + first.glyphs;
      DisplayString(idx, str);
      ghost var text := str[..CLen(str)];
      ghost var second := Render(first.area, text);
      assert Frame() == ScrollTimes(f1, RegionOf(first.area), second.scrolls) && glyphs == g1 + second.glyphs;
      TwoWrites(a0, "\r\n", text, first, second);
      ScrollsAdd(f0, RegionOf(a0), RegionOf(first.area), first.scrolls, second.scrolls,
                 Render(a0, "\r\n" + text).scrolls);
      Associative(g0, first.glyphs, second.glyphs);
    }

    /** One more character of displayString, after the characters s of the string. */
    method WriteNext(idx: nat, ch: char, ghost a0: Area, ghost f0: seq<seq<Color>>, ghost g0: seq<Glyph>, ghost s: string)
      requires Valid() && idx < 4 && ValidArea(a0) && Covers(f0, RegionOf(a0))
      requires display[idx] == Render(a0, s).area && glyphs == g0 + Render(a0, s).glyphs
      requires Frame() == ScrollTimes(f0, RegionOf(a0), Render(a0, s).scrolls)
      modifies this, display, pixels
      ensures Valid()
      ensures display[idx] == Render(a0, s + [ch]).area && glyphs == g0 + Render(a0, s + [ch]).glyphs
      ensures Frame() == ScrollTimes(f0, RegionOf(a0), Render(a0, s + [ch]).scrolls)
      ensures forall k :: 0 <= k < 4 && k != idx ==> display[k] == old(display[k])
    {
      ghost var done := Render(a0, s);
      ghost var f, g := Frame(), glyphs;
      ghost var st := Step(done.area, ch);
      ghost var next := Render(a0, s + [ch]);
      RenderSnoc(a0, s, ch);
      assert next.area == st.area;
      assert next.scrolls == done.scrolls + (if st.scrolled then 1 else 0);
      assert next.glyphs == done.glyphs + (if st.glyph.Some? then [st.glyph.value] else []);
      ghost var r := RegionOf(a0);
      assert RegionOf(done.area) == r && WellFormedRegion(r) && Covers(f, r);
      PutChar(idx, ch);
      assert display[idx] == st.area;
      assert glyphs == g + (if st.glyph.Some? then [st.glyph.value] else []);
      if st.scrolled {
        assert Frame() == ScrollOnce(f, r);
        ScrollTimesNext(f0, r, done.scrolls, next.scrolls);
      } else {
        assert Frame() == f;
      }
    }

    /**
     * Lines 203-224: one character of displayString, as Step describes it, with
     * the pixels scrolled when the cursor moves below the last row.
     */
    method PutChar(idx: nat, ch: char)
      requires Valid() && idx < 4
      modifies this, display, pixels
      ensures Valid()
      ensures display[idx] == Step(old(display[idx]), ch).area
      ensures glyphs == old(glyphs) + (var st := Step(old(display[idx]), ch);
                                       if st.glyph.Some? then [st.glyph.value] else [])
      ensures Frame() == if Step(old(display[idx]), ch).scrolled
                         then ScrollOnce(old(Frame()), RegionOf(old(display[idx])))
                         else old(Frame())
      ensures forall k :: 0 <= k < 4 && k != idx ==> display[k] == old(display[k])
    {
      ghost var st := Step(display[idx], ch);
      if ch == LF {
        display[idx] := display[idx].(yPos := display[idx].yPos + display[idx].fontHeight);
        if display[idx].yPos >= display[idx].yHeight {
          ScrollVertical(idx);
          display[idx] := display[idx].(yPos := display[idx].yPos - display[idx].fontHeight);
        }
      } else if ch == CR {
        display[idx] := display[idx].(xPos := display[idx].xOrigin);
      } else {
        glyphs := glyphs + [Glyph(display[idx].xPos, display[idx].yPos, ch)];
        display[idx] := display[idx].(xPos := display[idx].xPos + display[idx].fontWidth);
        if display[idx].xPos >= display[idx].xWidth {
          display[idx] := display[idx].(xPos := display[idx].xOrigin,
                                        yPos := display[idx].yPos + display[idx].fontHeight);
        }
        if display[idx].yPos >= display[idx].yHeight {
          ScrollVertical(idx);
          display[idx] := display[idx].(yPos := display[idx].yPos - display[idx].fontHeight);
        }
      }
      assert display[idx] == st.area;
    }
  }
}
