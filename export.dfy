/** The three grid exporters: SVG markup, the fill calls that paint the PNG,
    and the CSS box-shadow rule. Each walks the grid row by row, column by
    column, and emits one item per ink cell. Downloading, clipboard access
    and PNG encoding are not part of this model. */
module Export {
  import opened Wrappers
  import opened Grid
  import opened Decimal
  import opened JsText
  import opened Numbers

  /** Side of one exported cell in pixels (`cs`). */
  const CellPx: nat := 10

  /** An axis-aligned rectangle in pixels: top-left corner, width, height. */
  datatype Rect = Rect(x: nat, y: nat, w: nat, h: nat)

  /** One `fillRect` call on the export canvas, with the fill style current at the call. */
  datatype Fill = Fill(style: string, rect: Rect)

  /** The export canvas: its size and the fills issued on it, in order. */
  datatype Drawing = Drawing(width: nat, height: nat, fills: seq<Fill>)

  /** Distance between the left edges of neighbouring cells. */
  function Pitch(gap: nat): nat {
    CellPx + gap
  }

  /** The square drawn for a cell. */
  function CellRect(c: Cell, gap: nat): Rect {
    Rect(c.x * Pitch(gap), c.y * Pitch(gap), CellPx, CellPx)
  }

  /** The squares drawn for a list of cells, in the same order. */
  function CellRects(cells: seq<Cell>, gap: nat): seq<Rect> {
    seq(|cells|, i requires 0 <= i < |cells| => CellRect(cells[i], gap))
  }

  /** Width and height of an exported image of n × n cells: n cells and the n - 1 gaps between them. */
  function Extent(n: nat, gap: nat): (size: nat)
    requires n >= 1
    ensures size >= CellPx
  {
    MulLeq(1, n, Pitch(gap));
    n * Pitch(gap) - gap
  }

  lemma MulCancel(a: nat, b: nat, c: nat)
    requires c > 0 && a * c == b * c
    ensures a == b
  {
  }

  /** Two rectangles share no pixel. */
  predicate Disjoint(r: Rect, s: Rect) {
    r.x + r.w <= s.x || s.x + s.w <= r.x || r.y + r.h <= s.y || s.y + s.h <= r.y
  }

  // ---------------------------------------------------------------- SVG

  /** The `<rect>` element written for one ink cell. */
  function RectTag(r: Rect, fill: string): string {
    "<rect x=\"" + NatToString(r.x) + "\" y=\"" + NatToString(r.y) +
    "\" width=\"" + NatToString(r.w) + "\" height=\"" + NatToString(r.h) +
    "\" fill=\"" + fill + "\"/>"
  }

  /** The `<rect>` elements of a list of rectangles, concatenated in order. */
  function RectTags(rs: seq<Rect>, fill: string): string {
    if rs == [] then "" else RectTags(rs[..|rs| - 1], fill) + RectTag(rs[|rs| - 1], fill)
  }

  /** The SVG document: a white background square of the full extent, then the cell squares. */
  function SvgDocument(size: nat, rects: string): string {
    var s := NatToString(size);
    "<svg xmlns=\"http://www.w3.org/2000/svg\" width=\"" + s + "\" height=\"" + s +
    "\" viewBox=\"0 0 " + s + " " + s + "\"><rect width=\"" + s + "\" height=\"" + s +
    "\" fill=\"white\"/>" + rects + "</svg>"
  }

  lemma CellRectsAppend(cells: seq<Cell>, c: Cell, gap: nat)
    ensures CellRects(cells + [c], gap) == CellRects(cells, gap) + [CellRect(c, gap)]
  {
  }

  /** `exportSVG`: nothing for an empty grid; otherwise a document of side
      Extent(rows, gap) holding one `<rect>` per ink cell, row-major. The
      loop collects the squares; their markup is rendered once they are all known. */
  method ExportSvg(pixels: Grid, gap: nat, pixelColor: string) returns (svg: Option<string>)
    ensures pixels == [] ==> svg == None
    ensures pixels != [] ==>
              svg == Some(SvgDocument(Extent(|pixels|, gap),
                                      RectTags(CellRects(FilledCells(pixels), gap), pixelColor)))
  {
    if |pixels| == 0 {
      return None;
    }
    var cs, g := CellPx, gap;
    var size := Extent(|pixels|, gap);
    var rects: seq<Rect> := [];
    var y := 0;
    while y < |pixels|
      invariant 0 <= y <= |pixels|
      invariant rects == CellRects(FilledRows(pixels, y), gap)
    {
      var x := 0;
      assert FilledRows(pixels, y) + RowFilled(pixels[y], y, 0) == FilledRows(pixels, y);
      while x < |pixels[y]|
        invariant 0 <= x <= |pixels[y]|
        invariant rects == CellRects(FilledRows(pixels, y) + RowFilled(pixels[y], y, x), gap)
      {
        if pixels[y][x] != 0 {
          ghost var done := FilledRows(pixels, y) + RowFilled(pixels[y], y, x);
          assert FilledRows(pixels, y) + RowFilled(pixels[y], y, x + 1) == done + [Cell(x, y)];
          CellRectsAppend(done, Cell(x, y), gap);
          rects := rects + [Rect(x * (cs + g), y * (cs + g), cs, cs)];
        } else {
          assert RowFilled(pixels[y], y, x + 1) == RowFilled(pixels[y], y, x);
        }
        x := x + 1;
      }
      y := y + 1;
    }
    svg := Some(SvgDocument(size, RectTags(rects, pixelColor)));
  }

  // ---------------------------------------------------------------- PNG

  /** The fills issued for a list of cells, each with the given style. */
  function PaintCells(cells: seq<Cell>, gap: nat, style: string): seq<Fill> {
    seq(|cells|, i requires 0 <= i < |cells| => Fill(style, CellRect(cells[i], gap)))
  }

  /** `exportPNG` up to encoding: nothing for an empty grid; otherwise a canvas
      of side Extent(rows, gap), painted white all over and then one square
      per ink cell, row-major. */
  method ExportPng(pixels: Grid, gap: nat, pixelColor: string) returns (png: Option<Drawing>)
    ensures pixels == [] ==> png == None
    ensures pixels != [] ==>
              var size := Extent(|pixels|, gap);
              png == Some(Drawing(size, size, [Fill("white", Rect(0, 0, size, size))]
                                              + PaintCells(FilledCells(pixels), gap, pixelColor)))
  {
    if |pixels| == 0 {
      return None;
    }
    var cs, g := CellPx, gap;
    var size := Extent(|pixels|, gap);
    var fills := [Fill("white", Rect(0, 0, size, size))];
    var y := 0;
    while y < |pixels|
      invariant 0 <= y <= |pixels|
      invariant fills == [Fill("white", Rect(0, 0, size, size))] + PaintCells(FilledRows(pixels, y), gap, pixelColor)
    {
      var x := 0;
      while x < |pixels[y]|
        invariant 0 <= x <= |pixels[y]|
        invariant fills == [Fill("white", Rect(0, 0, size, size))]
                           + PaintCells(FilledRows(pixels, y) + RowFilled(pixels[y], y, x), gap, pixelColor)
      {
        if pixels[y][x] != 0 {
          ghost var done := FilledRows(pixels, y) + RowFilled(pixels[y], y, x);
          assert FilledRows(pixels, y) + RowFilled(pixels[y], y, x + 1) == done + [Cell(x, y)];
          assert PaintCells(done + [Cell(x, y)], gap, pixelColor)
              == PaintCells(done, gap, pixelColor) + [Fill(pixelColor, CellRect(Cell(x, y), gap))];
          fills := fills + [Fill(pixelColor, Rect(x * (cs + g), y * (cs + g), cs, cs))];
        } else {
          assert RowFilled(pixels[y], y, x + 1) == RowFilled(pixels[y], y, x);
        }
        x := x + 1;
      }
      y := y + 1;
    }
    png := Some(Drawing(size, size, fills));
  }

  // ---------------------------------------------------------------- CSS

  /** The box-shadow term for one ink cell: `<x>em <y>em 0 <color>`. */
  function ShadowTerm(c: Cell, color: string): string {
    NatToString(c.x) + "em " + NatToString(c.y) + "em 0 " + color
  }

  /** The shadow terms for a list of cells, in the same order. */
  function ShadowTerms(cells: seq<Cell>, color: string): seq<string> {
    seq(|cells|, i requires 0 <= i < |cells| => ShadowTerm(cells[i], color))
  }

  /** Total length of the items. */
  function TotalLength(items: seq<string>): nat {
    if items == [] then 0 else TotalLength(items[..|items| - 1]) + |items[|items| - 1]|
  }

  /** The items separated by `sep`, as `Array.prototype.join` writes them: the
      text starts with the first item, ends with the last, and is as long as
      all items plus one separator between each two. */
  function Join(items: seq<string>, sep: string): (r: string)
    ensures items == [] ==> r == ""
    ensures items != [] ==> |r| == TotalLength(items) + (|items| - 1) * |sep|
    ensures items != [] ==> items[0] <= r
    ensures items != [] ==> |items[|items| - 1]| <= |r| && r[|r| - |items[|items| - 1]|..] == items[|items| - 1]
  {
    if |items| == 0 then ""
    else if |items| == 1 then items[0]
    else Join(items[..|items| - 1], sep) + sep + items[|items| - 1]
  }

  /** The CSS rule copied to the clipboard. */
  function CssRule(shadows: seq<string>): string {
    ".pixel-char {\n  width: 1em;\n  height: 1em;\n  box-shadow:\n    " + Join(shadows, ",\n    ") + ";\n}"
  }

  /** `exportCSS` up to the clipboard: nothing for an empty grid; otherwise a
      rule whose box-shadow lists one term per ink cell, row-major. */
  method ExportCss(pixels: Grid, pixelColor: string) returns (css: Option<string>)
    ensures pixels == [] ==> css == None
    ensures pixels != [] ==> css == Some(CssRule(ShadowTerms(FilledCells(pixels), pixelColor)))
  {
    if |pixels| == 0 {
      return None;
    }
    var shadows := [];
    var y := 0;
    while y < |pixels|
      invariant 0 <= y <= |pixels|
      invariant shadows == ShadowTerms(FilledRows(pixels, y), pixelColor)
    {
      var x := 0;
      while x < |pixels[y]|
        invariant 0 <= x <= |pixels[y]|
        invariant shadows == ShadowTerms(FilledRows(pixels, y) + RowFilled(pixels[y], y, x), pixelColor)
      {
        if pixels[y][x] != 0 {
          ghost var done := FilledRows(pixels, y) + RowFilled(pixels[y], y, x);
          assert FilledRows(pixels, y) + RowFilled(pixels[y], y, x + 1) == done + [Cell(x, y)];
          assert ShadowTerms(done + [Cell(x, y)], pixelColor)
              == ShadowTerms(done, pixelColor) + [ShadowTerm(Cell(x, y), pixelColor)];
          shadows := shadows + [NatToString(x) + "em " + NatToString(y) + "em 0 " + pixelColor];
        } else {
          assert RowFilled(pixels[y], y, x + 1) == RowFilled(pixels[y], y, x);
        }
        x := x + 1;
      }
      y := y + 1;
    }
    css := Some(CssRule(shadows));
  }

  // ---------------------------------------------------------------- properties

  /** Distinct cells get distinct squares: the square determines its cell. */
  lemma CellRectInjective(c: Cell, d: Cell, gap: nat)
    requires CellRect(c, gap) == CellRect(d, gap)
    ensures c == d
  {
    MulCancel(c.x, d.x, Pitch(gap));
    MulCancel(c.y, d.y, Pitch(gap));
  }

  /** Along one axis, the square of an earlier column (row) ends before the next one starts. */
  lemma SquareEndsBefore(a: nat, b: nat, gap: nat)
    requires a < b
    ensures a * Pitch(gap) + CellPx <= b * Pitch(gap)
  {
    var p := Pitch(gap);
    MulLeq(a + 1, b, p);
    assert (a + 1) * p == a * p + p;
  }

  /** Squares of distinct cells share no pixel, whatever the gap. */
  lemma CellRectsApart(c: Cell, d: Cell, gap: nat)
    requires c != d
    ensures Disjoint(CellRect(c, gap), CellRect(d, gap))
  {
    if c.x < d.x {
      SquareEndsBefore(c.x, d.x, gap);
    } else if d.x < c.x {
      SquareEndsBefore(d.x, c.x, gap);
    } else if c.y < d.y {
      SquareEndsBefore(c.y, d.y, gap);
    } else {
      SquareEndsBefore(d.y, c.y, gap);
    }
  }

  /** Row-major order of cells carries over to their squares' corners. */
  lemma SquaresKeepOrder(c: Cell, d: Cell, gap: nat)
    requires Before(c, d)
    ensures var r, s := CellRect(c, gap), CellRect(d, gap);
            r.y < s.y || (r.y == s.y && r.x < s.x)
  {
    if c.y < d.y {
      SquareEndsBefore(c.y, d.y, gap);
    } else {
      SquareEndsBefore(c.x, d.x, gap);
    }
  }

  /** The SVG squares and the PNG fills both follow the ink cells one for one:
      one square per ink cell, at (x·(cs+g), y·(cs+g)) with side cs, none for
      a background cell, in row-major order, pairwise disjoint. */
  lemma SquaresMatchInk(pixels: Grid, gap: nat)
    ensures var rs := CellRects(FilledCells(pixels), gap);
            && |rs| == |FilledCells(pixels)|
            && (forall x: nat, y: nat :: Filled(pixels, x, y) <==> CellRect(Cell(x, y), gap) in rs)
            && (forall i, j :: 0 <= i < j < |rs| ==>
                  rs[i].y < rs[j].y || (rs[i].y == rs[j].y && rs[i].x < rs[j].x))
            && (forall i, j :: 0 <= i < j < |rs| ==> Disjoint(rs[i], rs[j]))
  {
    var cells := FilledCells(pixels);
    var rs := CellRects(cells, gap);
    forall x: nat, y: nat | CellRect(Cell(x, y), gap) in rs
      ensures Filled(pixels, x, y)
    {
      var i :| 0 <= i < |rs| && rs[i] == CellRect(Cell(x, y), gap);
      CellRectInjective(cells[i], Cell(x, y), gap);
      assert cells[i] in cells;
    }
    forall x: nat, y: nat | Filled(pixels, x, y)
      ensures CellRect(Cell(x, y), gap) in rs
    {
      var i :| 0 <= i < |cells| && cells[i] == Cell(x, y);
      assert rs[i] == CellRect(Cell(x, y), gap);
    }
    forall i, j | 0 <= i < j < |rs|
      ensures rs[i].y < rs[j].y || (rs[i].y == rs[j].y && rs[i].x < rs[j].x)
      ensures Disjoint(rs[i], rs[j])
    {
      SquaresKeepOrder(cells[i], cells[j], gap);
      CellRectsApart(cells[i], cells[j], gap);
    }
  }

  /** On the square grid the sampler produces, every square lies inside the
      exported image of side n·(cs+g) − g, and the last row and column end
      exactly at its edge. */
  lemma SquaresInBounds(pixels: Grid, gap: nat)
    requires IsSquare(pixels) && |pixels| >= 1
    ensures forall r :: r in CellRects(FilledCells(pixels), gap) ==>
              r.x + r.w <= Extent(|pixels|, gap) && r.y + r.h <= Extent(|pixels|, gap)
    ensures (|pixels| - 1) * Pitch(gap) + CellPx == Extent(|pixels|, gap)
  {
    var n := |pixels|;
    var cells := FilledCells(pixels);
    forall r | r in CellRects(cells, gap)
      ensures r.x + r.w <= Extent(n, gap) && r.y + r.h <= Extent(n, gap)
    {
      var i :| 0 <= i < |cells| && r == CellRect(cells[i], gap);
      assert cells[i] in cells;
      MulLeq(cells[i].x, n - 1, Pitch(gap));
      MulLeq(cells[i].y, n - 1, Pitch(gap));
    }
  }

  /** The PNG paints the same squares as the SVG, in the same order, after
      one white fill covering the whole canvas. */
  lemma PngMatchesSvg(pixels: Grid, gap: nat, pixelColor: string)
    requires |pixels| >= 1
    ensures var size := Extent(|pixels|, gap);
            var fills := [Fill("white", Rect(0, 0, size, size))] + PaintCells(FilledCells(pixels), gap, pixelColor);
            var rs := CellRects(FilledCells(pixels), gap);
            && |fills| == |rs| + 1
            && (forall i :: 0 <= i < |rs| ==> fills[i + 1] == Fill(pixelColor, rs[i]))
  {
  }

  /** Reads a box-shadow term back: `<x>em <y>em 0 …` gives the cell (x, y). */
  function ParseShadow(t: string): Option<Cell> {
    var (xs, r1) := SplitDigits(t);
    match StripPrefix("em ", r1)
    case None => None
    case Some(r2) =>
      var (ys, r3) := SplitDigits(r2);
      if xs == [] || ys == [] || StripPrefix("em 0 ", r3).None? then None
      else Some(Cell(ValueOf(xs), ValueOf(ys)))
  }

  /** Two numerals in the shadow-term layout read back as their values. */
  lemma ParseShadowParts(xs: string, ys: string, color: string)
    requires xs != [] && forall i :: 0 <= i < |xs| ==> IsDigit(xs[i])
    requires ys != [] && forall i :: 0 <= i < |ys| ==> IsDigit(ys[i])
    ensures ParseShadow(xs + ("em " + (ys + ("em 0 " + color)))) == Some(Cell(ValueOf(xs), ValueOf(ys)))
  {
    var r2 := ys + ("em 0 " + color);
    DigitsThenRest(xs, "em " + r2);
    StripPrefixConcat("em ", r2);
    DigitsThenRest(ys, "em 0 " + color);
    StripPrefixConcat("em 0 ", color);
  }

  /** Each shadow term names its cell: reading it back gives the cell. */
  lemma ShadowTermRoundTrip(c: Cell, color: string)
    ensures ParseShadow(ShadowTerm(c, color)) == Some(c)
  {
    var xs, ys := NatToString(c.x), NatToString(c.y);
    assert ShadowTerm(c, color) == xs + ("em " + (ys + ("em 0 " + color)));
    ParseShadowParts(xs, ys, color);
    ValueOfNatToString(c.x);
    ValueOfNatToString(c.y);
  }

  /** The CSS export lists one shadow term per ink cell and none for a
      background cell; the i-th term reads back as the i-th ink cell in
      row-major order. */
  lemma ShadowsMatchInk(pixels: Grid, color: string)
    ensures var ts := ShadowTerms(FilledCells(pixels), color);
            && |ts| == |FilledCells(pixels)|
            && (forall x: nat, y: nat :: Filled(pixels, x, y) <==> ShadowTerm(Cell(x, y), color) in ts)
            && (forall i :: 0 <= i < |ts| ==> ParseShadow(ts[i]) == Some(FilledCells(pixels)[i]))
  {
    var cells := FilledCells(pixels);
    var ts := ShadowTerms(cells, color);
    forall i | 0 <= i < |ts|
      ensures ParseShadow(ts[i]) == Some(cells[i])
    {
      ShadowTermRoundTrip(cells[i], color);
    }
    forall x: nat, y: nat | ShadowTerm(Cell(x, y), color) in ts
      ensures Filled(pixels, x, y)
    {
      var i :| 0 <= i < |ts| && ts[i] == ShadowTerm(Cell(x, y), color);
      ShadowTermRoundTrip(Cell(x, y), color);
      assert cells[i] in cells;
    }
    forall x: nat, y: nat | Filled(pixels, x, y)
      ensures ShadowTerm(Cell(x, y), color) in ts
    {
      var i :| 0 <= i < |cells| && cells[i] == Cell(x, y);
      assert ts[i] == ShadowTerm(Cell(x, y), color);
    }
  }

  /** A grid without ink exports an SVG holding only its white background, a
      PNG that is only the white fill, and a CSS rule with an empty shadow list. */
  lemma NoInkExports(pixels: Grid, gap: nat, pixelColor: string)
    requires |pixels| >= 1
    requires forall y, x :: 0 <= y < |pixels| && 0 <= x < |pixels[y]| ==> pixels[y][x] == 0
    ensures var size := Extent(|pixels|, gap);
            && SvgDocument(size, RectTags(CellRects(FilledCells(pixels), gap), pixelColor)) == SvgDocument(size, "")
            && [Fill("white", Rect(0, 0, size, size))] + PaintCells(FilledCells(pixels), gap, pixelColor)
               == [Fill("white", Rect(0, 0, size, size))]
            && CssRule(ShadowTerms(FilledCells(pixels), pixelColor))
               == ".pixel-char {\n  width: 1em;\n  height: 1em;\n  box-shadow:\n    ;\n}"
  {
    NoInkNoCells(pixels);
  }
}
