/**
 The drawing primitives of the renderer (s1panel_freebsd.c:276-321). Each
 method takes a frame and returns the frame after the C routine has run; its
 loops visit the same coordinates in the same order as the C loops, and its
 contract describes the resulting frame pixel by pixel.
 */
module Draw {
  import opened Colour
  import opened Font
  import opened Framebuffer
  import opened CArith

  /** Two frames that agree on every on-screen pixel are the same frame. */
  lemma FrameExtensionality(a: Frame, b: Frame)
    requires ValidFrame(a) && ValidFrame(b)
    requires forall px, py {:trigger At(a, px, py)} :: InBounds(px, py) ==> At(a, px, py) == At(b, px, py)
    ensures a == b
  {
    forall i | 0 <= i < PIXELS
      ensures a[i] == b[i]
    {
      var px, py := i % WIDTH, i / WIDTH;
      assert Idx(px, py) == i;
      assert At(a, px, py) == At(b, px, py);
    }
  }

  // ---------------------------------------------------------------- text

  /** The colour of cell position (dx, dy) of a character: the five glyph
      columns show `fg` where lit and `bg` elsewhere; column 5 is spacing. */
  function CellColour(g: Glyph, dx: int, dy: int, fg: Colour, bg: Colour): Colour
    requires WellFormed(g) && 0 <= dx < 6 && 0 <= dy < 7
  {
    if dx < 5 && Lit(g, dx, dy) then fg else bg
  }

  /** Whether (px, py) lies in the 6x7 cell of a character drawn at (x, y). */
  predicate InCell(x: int, y: int, px: int, py: int) {
    x <= px < x + 6 && y <= py < y + 7
  }

  /** The inner `row` loop of `draw_char`: glyph column byte `bits` at
      column x, rows y .. y+6, each `fg` when its bit is set, else `bg`. */
  method DrawColumn(fb: Frame, x: int, y: int, bits: bv8, fg: Colour, bg: Colour) returns (r: Frame)
    requires ValidFrame(fb)
    ensures ValidFrame(r)
    ensures forall px, py {:trigger At(r, px, py)} :: InBounds(px, py) ==>
      At(r, px, py) == if px == x && y <= py < y + 7
                       then Bswap16(if BitOn(bits, py - y) then fg else bg) else At(fb, px, py)
  {
    r := fb;
    var row := 0;
    while row < 7
      invariant 0 <= row <= 7 && ValidFrame(r)
      invariant forall px, py {:trigger At(r, px, py)} :: InBounds(px, py) ==>
        At(r, px, py) == if px == x && y <= py < y + row
                         then Bswap16(if BitOn(bits, py - y) then fg else bg) else At(fb, px, py)
    {
      var on := BitOn(bits, row);
      r := PutPixel(r, x, y + row, if on then fg else bg);
      row := row + 1;
    }
  }

  /** The column loop of `draw_char`: the five glyph columns of `g` at
      x .. x+4, rows y .. y+6; nothing else changes. */
  method DrawGlyph(fb: Frame, x: int, y: int, g: Glyph, fg: Colour, bg: Colour) returns (r: Frame)
    requires ValidFrame(fb) && WellFormed(g)
    ensures ValidFrame(r)
    ensures forall px, py {:trigger At(r, px, py)} :: InBounds(px, py) ==>
      At(r, px, py) == if x <= px < x + 5 && y <= py < y + 7
                       then Bswap16(CellColour(g, px - x, py - y, fg, bg)) else At(fb, px, py)
  {
    r := fb;
    var col := 0;
    while col < 5
      invariant 0 <= col <= 5 && ValidFrame(r)
      invariant forall px, py {:trigger At(r, px, py)} :: InBounds(px, py) ==>
        At(r, px, py) == if x <= px < x + col && y <= py < y + 7
                         then Bswap16(CellColour(g, px - x, py - y, fg, bg)) else At(fb, px, py)
    {
      r := DrawColumn(r, x + col, y, g.cols[col], fg, bg);
      col := col + 1;
    }
  }

  /** The spacing loop of `draw_char`: column x, rows y .. y+6, in `bg`;
      nothing else changes. */
  method DrawSpacing(fb: Frame, x: int, y: int, bg: Colour) returns (r: Frame)
    requires ValidFrame(fb)
    ensures ValidFrame(r)
    ensures forall px, py {:trigger At(r, px, py)} :: InBounds(px, py) ==>
      At(r, px, py) == if px == x && y <= py < y + 7 then Bswap16(bg) else At(fb, px, py)
  {
    r := fb;
    var row := 0;
    while row < 7
      invariant 0 <= row <= 7 && ValidFrame(r)
      invariant forall px, py {:trigger At(r, px, py)} :: InBounds(px, py) ==>
        At(r, px, py) == if px == x && y <= py < y + row then Bswap16(bg) else At(fb, px, py)
    {
      r := PutPixel(r, x, y + row, bg);
      row := row + 1;
    }
  }

  /** `draw_char`: only the 6x7 cell at (x, y) changes; within it a pixel
      shows `fg` where the glyph of `c` is lit and `bg` elsewhere, the sixth
      column being the blank spacing column. Off-screen parts of the cell
      are dropped by `put_pixel`. */
  method DrawChar(fb: Frame, x: int, y: int, c: char, fg: Colour, bg: Colour) returns (r: Frame)
    requires ValidFrame(fb)
    ensures ValidFrame(r)
    ensures forall px, py {:trigger At(r, px, py)} :: InBounds(px, py) ==>
      At(r, px, py) == if InCell(x, y, px, py) then Bswap16(CellColour(FindGlyph(c), px - x, py - y, fg, bg))
                       else At(fb, px, py)
    ensures forall px, py {:trigger ColourAt(r, px, py)} :: InBounds(px, py) && InCell(x, y, px, py) ==>
      ColourAt(r, px, py) == CellColour(FindGlyph(c), px - x, py - y, fg, bg)
  {
    var g := FindGlyph(c);
    r := DrawGlyph(fb, x, y, g, fg, bg);
    r := DrawSpacing(r, x + 5, y, bg);
    forall px, py | InBounds(px, py) && InCell(x, y, px, py)
      ensures ColourAt(r, px, py) == CellColour(g, px - x, py - y, fg, bg)
    {
      Bswap16Involution(CellColour(g, px - x, py - y, fg, bg));
    }
  }

  /** Pixel (x+col, y+row) of a drawn character shows `fg` exactly when bit
      `row` of glyph column `col` is set. */
  lemma DrawCharPixel(fb: Frame, r: Frame, x: int, y: int, c: char, fg: Colour, bg: Colour, col: int, row: int)
    requires ValidFrame(fb) && ValidFrame(r)
    requires forall px, py {:trigger ColourAt(r, px, py)} :: InBounds(px, py) && InCell(x, y, px, py) ==>
      ColourAt(r, px, py) == CellColour(FindGlyph(c), px - x, py - y, fg, bg)
    requires 0 <= col < 5 && 0 <= row < 7 && InBounds(x + col, y + row)
    ensures ColourAt(r, x + col, y + row) == (if BitOn(FindGlyph(c).cols[col], row) then fg else bg)
  {
    assert InCell(x, y, x + col, y + row);
  }

  /** Character i of a string occupies columns x+6i .. x+6i+5. */
  lemma CellOf(px: int, x: int, i: int)
    requires x + 6 * i <= px < x + 6 * i + 6
    ensures (px - x) / 6 == i
    ensures (px - x) % 6 == px - (x + 6 * i)
  {
  }

  /** `draw_text`: character i of `s` is drawn in the cell at x + 6i; the
      frame outside those cells is unchanged (so the empty string changes
      nothing). `s` is the contents of the C string before its terminating
      NUL, so it holds no NUL itself. */
  method DrawText(fb: Frame, x: int, y: int, s: string, fg: Colour, bg: Colour) returns (r: Frame)
    requires ValidFrame(fb) && '\0' !in s
    ensures ValidFrame(r)
    ensures forall px, py {:trigger At(r, px, py)} :: InBounds(px, py) ==>
      At(r, px, py) == if x <= px < x + 6 * |s| && y <= py < y + 7
                       then Bswap16(CellColour(FindGlyph(s[(px - x) / 6]), (px - x) % 6, py - y, fg, bg))
                       else At(fb, px, py)
    ensures |s| == 0 ==> r == fb
  {
    r := fb;
    var cx := x;
    var i := 0;
    while i < |s|
      invariant 0 <= i <= |s| && cx == x + 6 * i && ValidFrame(r)
      invariant i == 0 ==> r == fb
      invariant forall px, py {:trigger At(r, px, py)} :: InBounds(px, py) ==>
        At(r, px, py) == if x <= px < cx && y <= py < y + 7
                         then Bswap16(CellColour(FindGlyph(s[(px - x) / 6]), (px - x) % 6, py - y, fg, bg))
                         else At(fb, px, py)
    {
      r := DrawChar(r, cx, y, s[i], fg, bg);
      forall px, py | InBounds(px, py) && cx <= px < cx + 6 && y <= py < y + 7
        ensures At(r, px, py) == Bswap16(CellColour(FindGlyph(s[(px - x) / 6]), (px - x) % 6, py - y, fg, bg))
      {
        CellOf(px, x, i);
      }
      cx := cx + 6;
      i := i + 1;
    }
  }

  // ---------------------------------------------------------- rectangles

  /** Whether (px, py) lies in the w x h rectangle at (x, y). */
  predicate InRect(x: int, y: int, w: int, h: int, px: int, py: int) {
    x <= px < x + w && y <= py < y + h
  }

  /** The inner loop of `fill_rect`: row yy, columns x0 .. x2-1 (already
      clipped to the screen), each stored directly without a bounds check. */
  method FillSpan(fb: Frame, x0: int, x2: int, yy: int, color: Colour) returns (r: Frame)
    requires ValidFrame(fb) && 0 <= x0 && x2 <= WIDTH && 0 <= yy < HEIGHT
    ensures ValidFrame(r)
    ensures forall px, py {:trigger At(r, px, py)} :: InBounds(px, py) ==>
      At(r, px, py) == if py == yy && x0 <= px < x2 then Bswap16(color) else At(fb, px, py)
  {
    r := fb;
    var xx := x0;
    while xx < x2
      invariant x0 <= xx && (x0 <= x2 ==> xx <= x2) && (x0 > x2 ==> xx == x0) && ValidFrame(r)
      invariant forall px, py {:trigger At(r, px, py)} :: InBounds(px, py) ==>
        At(r, px, py) == if py == yy && x0 <= px < xx then Bswap16(color) else At(fb, px, py)
    {
      r := Store(r, xx, yy, color);
      xx := xx + 1;
    }
  }

  /** `fill_rect`: nothing for a non-positive width or height; otherwise the
      rectangle clipped to the screen takes `color` and nothing else changes.
      Filling a rectangle that already shows `color` changes nothing, so
      filling twice is the same as filling once. */
  method FillRect(fb: Frame, x: int, y: int, w: int, h: int, color: Colour) returns (r: Frame)
    requires ValidFrame(fb)
    ensures ValidFrame(r)
    ensures w <= 0 || h <= 0 ==> r == fb
    ensures forall px, py {:trigger At(r, px, py)} :: InBounds(px, py) ==>
      At(r, px, py) == if InRect(x, y, w, h, px, py) then Bswap16(color) else At(fb, px, py)
    ensures forall px, py {:trigger ColourAt(r, px, py)} :: InBounds(px, py) && InRect(x, y, w, h, px, py) ==>
      ColourAt(r, px, py) == color
    ensures (forall px, py {:trigger ColourAt(fb, px, py)} :: InBounds(px, py) && InRect(x, y, w, h, px, py) ==>
      ColourAt(fb, px, py) == color) ==> r == fb
  {
    r := fb;
    if w <= 0 || h <= 0 {
      return;
    }
    var x0, y0, x2, y2 := x, y, x + w, y + h;
    if x0 < 0 { x0 := 0; }
    if y0 < 0 { y0 := 0; }
    if x2 > WIDTH { x2 := WIDTH; }
    if y2 > HEIGHT { y2 := HEIGHT; }
    var yy := y0;
    while yy < y2
      invariant y0 <= yy && (y0 <= y2 ==> yy <= y2) && (y0 > y2 ==> yy == y0) && ValidFrame(r)
      invariant forall px, py {:trigger At(r, px, py)} :: InBounds(px, py) ==>
        At(r, px, py) == if x0 <= px < x2 && y0 <= py < yy then Bswap16(color) else At(fb, px, py)
    {
      r := FillSpan(r, x0, x2, yy, color);
      yy := yy + 1;
    }
    assert forall v: bv16 {:trigger Bswap16(Bswap16(v))} :: Bswap16(Bswap16(v)) == v;
    if forall px, py {:trigger ColourAt(fb, px, py)} :: InBounds(px, py) && InRect(x, y, w, h, px, py) ==>
         ColourAt(fb, px, py) == color {
      RefillChangesNothing(fb, r, x, y, w, h, color);
    }
  }

  /** If every on-screen pixel of a rectangle already shows `color`, a frame
      that differs from `fb` only by storing `color` there is `fb` itself. */
  lemma RefillChangesNothing(fb: Frame, r: Frame, x: int, y: int, w: int, h: int, color: Colour)
    requires ValidFrame(fb) && ValidFrame(r)
    requires forall px, py {:trigger At(r, px, py)} :: InBounds(px, py) ==>
      At(r, px, py) == if InRect(x, y, w, h, px, py) then Bswap16(color) else At(fb, px, py)
    requires forall px, py {:trigger ColourAt(fb, px, py)} :: InBounds(px, py) && InRect(x, y, w, h, px, py) ==>
      ColourAt(fb, px, py) == color
    ensures r == fb
  {
    forall px, py | InBounds(px, py)
      ensures At(r, px, py) == At(fb, px, py)
    {
      if InRect(x, y, w, h, px, py) {
        assert ColourAt(fb, px, py) == color;
        Bswap16Involution(At(fb, px, py));
      }
    }
    FrameExtensionality(r, fb);
  }

  // ---------------------------------------------------------------- bars

  /** The fill width of `draw_bar`: pct clamped to 0..100, times w, divided
      by 100 with C's truncating division. */
  function FillWidth(pct: int, w: int): (f: int)
    ensures w >= 0 ==> 0 <= f <= w
    ensures w <= 0 ==> f <= 0
    ensures pct >= 100 ==> f == w
    ensures pct <= 0 ==> f == 0
    ensures w >= 0 ==> f * 100 <= Clamp(pct, 0, 100) * w < f * 100 + 100
    ensures w < 0 ==> f * 100 - 100 < Clamp(pct, 0, 100) * w <= f * 100
  {
    var p := Clamp(pct, 0, 100);
    if w >= 0 then
      assert 0 <= p * w <= 100 * w by {
        assert p * w <= 100 * w by { MulMonotone(p, 100, w); }
      }
      TruncDiv(p * w, 100)
    else
      assert p * w <= 0 by { MulMonotone(0, p, -w); }
      TruncDiv(p * w, 100)
  }

  lemma MulMonotone(a: int, b: int, c: int)
    requires a <= b && c >= 0
    ensures a * c <= b * c
  {
  }

  /** The pixels the border loops of `draw_bar` visit. For w <= 0 or h <= 0
      the loops still run over the other dimension, as in the source. */
  predicate OnBorder(x: int, y: int, w: int, h: int, px: int, py: int) {
    || (x <= px < x + w && (py == y || py == y + h - 1))
    || (y <= py < y + h && (px == x || px == x + w - 1))
  }

  /** `draw_bar`: background rectangle, foreground rectangle of the fill
      width, then the one-pixel border in `frame`: rows y and y+h-1 over
      columns x .. x+w-1, then columns x and x+w-1 over rows y .. y+h-1.
      The border loops run even when the other dimension is not positive. */
  method DrawBar(fb: Frame, x: int, y: int, w: int, h: int, pct: int, fg: Colour, bg: Colour, frame: Colour)
    returns (r: Frame)
    requires ValidFrame(fb)
    ensures ValidFrame(r)
    ensures forall px, py {:trigger ColourAt(r, px, py)} :: InBounds(px, py) ==>
      ColourAt(r, px, py) == if OnBorder(x, y, w, h, px, py) then frame
                             else if InRect(x, y, w, h, px, py) then (if px < x + FillWidth(pct, w) then fg else bg)
                             else ColourAt(fb, px, py)
    ensures forall px, py {:trigger At(r, px, py)} :: InBounds(px, py) && !OnBorder(x, y, w, h, px, py) && !InRect(x, y, w, h, px, py) ==>
      At(r, px, py) == At(fb, px, py)
  {
    r := FillRect(fb, x, y, w, h, bg);
    var fill := FillWidth(pct, w);
    r := FillRect(r, x, y, fill, h, fg);
    ghost var filled := r;
    var xx := x;
    while xx < x + w
      invariant ValidFrame(r) && (w >= 0 ==> xx <= x + w) && (w < 0 ==> xx == x)
      invariant forall px, py {:trigger At(r, px, py)} :: InBounds(px, py) ==>
        At(r, px, py) == if x <= px < xx && (py == y || py == y + h - 1) then Bswap16(frame) else At(filled, px, py)
    {
      r := PutPixel(r, xx, y, frame);
      r := PutPixel(r, xx, y + h - 1, frame);
      xx := xx + 1;
    }
    ghost var edged := r;
    var yy := y;
    while yy < y + h
      invariant ValidFrame(r) && (h >= 0 ==> yy <= y + h) && (h < 0 ==> yy == y)
      invariant forall px, py {:trigger At(r, px, py)} :: InBounds(px, py) ==>
        At(r, px, py) == if y <= py < yy && (px == x || px == x + w - 1) then Bswap16(frame) else At(edged, px, py)
    {
      r := PutPixel(r, x, yy, frame);
      r := PutPixel(r, x + w - 1, yy, frame);
      yy := yy + 1;
    }
    assert forall v: bv16 {:trigger Bswap16(Bswap16(v))} :: Bswap16(Bswap16(v)) == v;
  }
}
