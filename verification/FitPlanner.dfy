/** Zoom and scroll planning for a pinned diagram, in cells, pixels and percent. */
module FitPlanner {

  const MIN_READABLE_ZOOM := 70
  const MAX_FILL_ZOOM := 1000
  const TARGET_UTILIZATION := 85

  function Max(a: int, b: int): (r: int)
    ensures a <= r && b <= r && (r == a || r == b)
  {
    if a < b then b else a
  }

  function Min(a: int, b: int): (r: int)
    ensures r <= a && r <= b && (r == a || r == b)
  {
    if a < b then a else b
  }

  function Clamp(value: int, lo: int, hi: int): int {
    Max(lo, Min(hi, value))
  }

  function DivCeil(value: nat, divisor: nat): nat {
    if divisor == 0 then 0 else (value + divisor - 1) / divisor
  }

  function AxisFillZoom(cells: nat, imagePx: nat, cellPx: nat): int {
    if cells == 0 || imagePx == 0 || cellPx == 0 then 100
    else Clamp(cells * cellPx * 100 / Max(imagePx, 1), 1, MAX_FILL_ZOOM)
  }

  function FitZoom(w: nat, h: nat, imgW: nat, imgH: nat, fontW: nat, fontH: nat): int {
    if w == 0 || h == 0 || imgW == 0 || imgH == 0 then 100
    else
      var zoomW := w * Max(fontW, 1) * 100 / Max(imgW, 1);
      var zoomH := h * Max(fontH, 1) * 100 / Max(imgH, 1);
      Clamp(Min(zoomW, zoomH), 1, MAX_FILL_ZOOM)
  }

  function PreferredFillZoom(widthFill: int, heightFill: int): (r: int)
    ensures 70 <= r <= 1000
    ensures r < widthFill || r < heightFill ==> r == 1000
    ensures r > widthFill && r > heightFill ==> r == 70
  {
    Clamp(Max(widthFill, heightFill), MIN_READABLE_ZOOM, MAX_FILL_ZOOM)
  }

  function ViewPx(areaCells: nat, cellPx: nat, zoom: int): int
    requires zoom > 0
  {
    areaCells * cellPx * 100 / zoom
  }

  function CellPxAtZoom(cellPx: nat, zoom: nat): int {
    Max(DivCeil(cellPx * 100, zoom), 1)
  }

  function ScrollCells(imagePx: nat, areaCells: nat, zoom: nat, cellPx: nat): int {
    if imagePx == 0 || areaCells == 0 || zoom == 0 || cellPx == 0 then 0
    else
      var maxScroll := Max(0, imagePx - ViewPx(areaCells, cellPx, zoom));
      if maxScroll == 0 then 0 else maxScroll / 2 / CellPxAtZoom(cellPx, zoom)
  }

  // ----- quotients

  lemma MulMono(x: nat, y: nat, b: nat)
    requires x <= y
    ensures x * b <= y * b
  {
  }

  lemma MulStrict(x: nat, y: nat, b: nat)
    requires x < y && b > 0
    ensures x * b < y * b
  {
  }

  lemma DivBounds(a: nat, b: nat, q: nat)
    requires b > 0
    ensures q <= a / b <==> q * b <= a
  {
    var d, r := a / b, a % b;
    assert a == d * b + r && 0 <= r < b;
    if q <= d {
      MulMono(q, d, b);
    }
    if q > d {
      MulMono(d + 1, q, b);
    }
  }

  /** A cell at zoom is the least number of pixels whose scaled size covers the cell. */
  lemma CellCovers(cellPx: nat, zoom: nat, px: nat)
    requires zoom > 0 && cellPx > 0
    ensures CellPxAtZoom(cellPx, zoom) <= px <==> cellPx * 100 <= px * zoom
  {
    DivBounds(cellPx * 100 + zoom - 1, zoom, px + 1);
    DivBounds(cellPx * 100 + zoom - 1, zoom, 1);
    assert (px + 1) * zoom == px * zoom + zoom;
  }

  // ----- the visible part

  /** What a pane shows of an axis is the longest stretch whose scaled size it holds. */
  lemma ViewIsLongest(areaCells: nat, cellPx: nat, zoom: nat, px: nat)
    requires zoom > 0
    ensures px <= ViewPx(areaCells, cellPx, zoom) <==> px * zoom <= areaCells * cellPx * 100
  {
    DivBounds(areaCells * cellPx * 100, zoom, px);
  }

  // ----- zoom

  /** The image fits at `zoom` when its scaled size is no larger than the area on both axes. */
  predicate Fits(w: nat, h: nat, imgW: nat, imgH: nat, fontW: nat, fontH: nat, zoom: nat) {
    zoom * imgW <= w * Max(fontW, 1) * 100 && zoom * imgH <= h * Max(fontH, 1) * 100
  }

  /** The fit zoom is the largest zoom from 1 to 1000 at which the image fits, if there is one. */
  lemma FitZoomIsLargest(w: nat, h: nat, imgW: nat, imgH: nat, fontW: nat, fontH: nat, zoom: nat)
    requires w > 0 && h > 0 && imgW > 0 && imgH > 0 && 1 <= zoom <= 1000
    ensures 1 <= FitZoom(w, h, imgW, imgH, fontW, fontH) <= 1000
    ensures !Fits(w, h, imgW, imgH, fontW, fontH, 1) ==> FitZoom(w, h, imgW, imgH, fontW, fontH) == 1
    ensures Fits(w, h, imgW, imgH, fontW, fontH, zoom) ==> zoom <= FitZoom(w, h, imgW, imgH, fontW, fontH)
    ensures zoom <= FitZoom(w, h, imgW, imgH, fontW, fontH) && Fits(w, h, imgW, imgH, fontW, fontH, 1) ==>
              Fits(w, h, imgW, imgH, fontW, fontH, zoom)
  {
    var a, b := w * Max(fontW, 1) * 100, h * Max(fontH, 1) * 100;
    DivBounds(a, imgW, zoom);
    DivBounds(b, imgH, zoom);
    DivBounds(a, imgW, 1);
    DivBounds(b, imgH, 1);
  }

  /** The fill zoom of an axis is the largest zoom from 1 to 1000 at which the axis holds its image. */
  lemma AxisFillIsLargest(cells: nat, imagePx: nat, cellPx: nat, zoom: nat)
    requires cells > 0 && imagePx > 0 && cellPx > 0 && 1 <= zoom <= 1000
    ensures 1 <= AxisFillZoom(cells, imagePx, cellPx) <= 1000
    ensures zoom * imagePx <= cells * cellPx * 100 ==> zoom <= AxisFillZoom(cells, imagePx, cellPx)
    ensures 1 < zoom <= AxisFillZoom(cells, imagePx, cellPx) ==> zoom * imagePx <= cells * cellPx * 100
  {
    DivBounds(cells * cellPx * 100, imagePx, zoom);
  }

  /** With a real area and image, fitting is filling the tighter axis, a zero font counting as one. */
  lemma FitIsTighterFill(w: nat, h: nat, imgW: nat, imgH: nat, fontW: nat, fontH: nat)
    requires w > 0 && h > 0 && imgW > 0 && imgH > 0
    ensures FitZoom(w, h, imgW, imgH, fontW, fontH) ==
            Min(AxisFillZoom(w, imgW, Max(fontW, 1)), AxisFillZoom(h, imgH, Max(fontH, 1)))
  {
  }

  /** At full size the axis of the image is no longer than that of the pane, or one of them is nothing. */
  predicate Holds(cells: nat, imagePx: nat, cellPx: nat) {
    cells == 0 || imagePx == 0 || cellPx == 0 || imagePx <= cells * cellPx
  }

  lemma FillsAtFullSize(cells: nat, imagePx: nat, cellPx: nat)
    ensures AxisFillZoom(cells, imagePx, cellPx) >= 100 <==> Holds(cells, imagePx, cellPx)
  {
    if cells != 0 && imagePx != 0 && cellPx != 0 {
      DivBounds(cells * cellPx * 100, imagePx, 100);
    }
  }

  /** A zero font is rounded up to one by the fit, and short-circuits the fill of its axis to 100. */
  predicate AgreesDespiteZeroFont(zeroAxis: int, otherAxis: int) {
    zeroAxis == 100 || otherAxis <= Min(zeroAxis, 100)
  }

  /** When the fit zoom is the smaller of the two axis fill zooms. */
  predicate FitIsFill(w: nat, h: nat, imgW: nat, imgH: nat, fontW: nat, fontH: nat) {
    var a, b := AxisFillZoom(w, imgW, Max(fontW, 1)), AxisFillZoom(h, imgH, Max(fontH, 1));
    if w == 0 || h == 0 || imgW == 0 || imgH == 0 then Holds(w, imgW, fontW) && Holds(h, imgH, fontH)
    else if fontW > 0 && fontH > 0 then true
    else if fontW == 0 && fontH == 0 then Min(a, b) == 100
    else if fontW == 0 then AgreesDespiteZeroFont(a, b)
    else AgreesDespiteZeroFont(b, a)
  }

  /** Both axes are treated alike. */
  lemma FitSymmetric(w: nat, h: nat, imgW: nat, imgH: nat, fontW: nat, fontH: nat)
    ensures FitZoom(w, h, imgW, imgH, fontW, fontH) == FitZoom(h, w, imgH, imgW, fontH, fontW)
    ensures FitIsFill(w, h, imgW, imgH, fontW, fontH) <==> FitIsFill(h, w, imgH, imgW, fontH, fontW)
  {
  }

  lemma FitIsFillForWidth(w: nat, h: nat, imgW: nat, imgH: nat, fontW: nat, fontH: nat)
    requires w == 0 || imgW == 0 || (h > 0 && imgH > 0 && (fontW == 0 || fontH > 0))
    ensures FitZoom(w, h, imgW, imgH, fontW, fontH) ==
            Min(AxisFillZoom(w, imgW, fontW), AxisFillZoom(h, imgH, fontH))
            <==> FitIsFill(w, h, imgW, imgH, fontW, fontH)
  {
    if w == 0 || imgW == 0 {
      FillsAtFullSize(h, imgH, fontH);
    } else {
      FitIsTighterFill(w, h, imgW, imgH, fontW, fontH);
    }
  }

  /** Exactly when, for every pane, image and font: always with real ones; with an empty axis when the
      other one holds its image at full size; with a zero font only by coincidence. */
  lemma FitIsFillIff(w: nat, h: nat, imgW: nat, imgH: nat, fontW: nat, fontH: nat)
    ensures FitZoom(w, h, imgW, imgH, fontW, fontH) ==
            Min(AxisFillZoom(w, imgW, fontW), AxisFillZoom(h, imgH, fontH))
            <==> FitIsFill(w, h, imgW, imgH, fontW, fontH)
  {
    if w == 0 || imgW == 0 || (h > 0 && imgH > 0 && (fontW == 0 || fontH > 0)) {
      FitIsFillForWidth(w, h, imgW, imgH, fontW, fontH);
    } else {
      FitSymmetric(w, h, imgW, imgH, fontW, fontH);
      FitIsFillForWidth(h, w, imgH, imgW, fontH, fontW);
    }
  }

  lemma FitOfZeroFontDiffers()
    ensures FitZoom(10, 10, 100, 100, 0, 16) == 10
    ensures Min(AxisFillZoom(10, 100, 0), AxisFillZoom(10, 100, 16)) == 100
  {
  }

  // ----- scroll

  /** The whole cells in a stretch of pixels fall short of it by less than one cell. */
  lemma WholeCells(px: nat, c: nat)
    requires c > 0
    ensures 0 <= px / c * c <= px < px / c * c + c
  {
  }

  /** When there is something to scroll, the window stays inside the image and the far margin
      exceeds the near one by less than two zoomed cells. */
  lemma ScrollCentres(imagePx: nat, areaCells: nat, zoom: nat, cellPx: nat)
    requires imagePx > 0 && areaCells > 0 && zoom > 0 && cellPx > 0
    requires imagePx > ViewPx(areaCells, cellPx, zoom)
    ensures var near := ScrollCells(imagePx, areaCells, zoom, cellPx) * CellPxAtZoom(cellPx, zoom);
            var view := ViewPx(areaCells, cellPx, zoom);
            var far := imagePx - near - view;
            && 0 <= near && near + view <= imagePx
            && 0 <= far - near < 2 * CellPxAtZoom(cellPx, zoom)
  {
    hide ViewPx, DivCeil;
    var room := imagePx - ViewPx(areaCells, cellPx, zoom);
    WholeCells(room / 2, CellPxAtZoom(cellPx, zoom));
  }

  /** Nothing is scrolled exactly when a size is missing or the image overhangs the view by less than two
      zoomed cells. */
  lemma NoScrollIff(imagePx: nat, areaCells: nat, zoom: nat, cellPx: nat)
    ensures ScrollCells(imagePx, areaCells, zoom, cellPx) == 0 <==>
            || imagePx == 0 || areaCells == 0 || zoom == 0 || cellPx == 0
            || imagePx - ViewPx(areaCells, cellPx, zoom) < 2 * CellPxAtZoom(cellPx, zoom)
  {
    if imagePx > 0 && areaCells > 0 && zoom > 0 && cellPx > 0 {
      var room := Max(0, imagePx - ViewPx(areaCells, cellPx, zoom));
      DivBounds(room / 2, CellPxAtZoom(cellPx, zoom), 1);
      DivBounds(room, 2, CellPxAtZoom(cellPx, zoom));
    }
  }

  /** An axis shown at no more than its own fill zoom does not scroll. */
  lemma FilledAxisDoesNotScroll(cells: nat, imagePx: nat, cellPx: nat, zoom: nat)
    requires 1 <= zoom <= AxisFillZoom(cells, imagePx, cellPx)
    requires cells * cellPx * 100 >= imagePx
    ensures ScrollCells(imagePx, cells, zoom, cellPx) == 0
  {
    if cells != 0 && imagePx != 0 && cellPx != 0 {
      DivBounds(cells * cellPx * 100, imagePx, zoom);
      DivBounds(cells * cellPx * 100, imagePx, 1);
      assert zoom * imagePx <= cells * cellPx * 100;
      DivBounds(cells * cellPx * 100, zoom, imagePx);
      assert imagePx * zoom == zoom * imagePx;
    }
  }

  // ----- the plan

  datatype Rect = Rect(x: int, y: int, width: int, height: int)

  datatype Mode = Fit(rect: Rect) | FitFill(zoom: int, scrollX: int, scrollY: int)

  function RMin(a: real, b: real): real { if a <= b then a else b }

  function Ceil(x: real): int {
    -((-x).Floor)
  }

  /** The scale at which an axis of the image exactly fills its axis of the pane. */
  function AxisScale(px: nat, cells: nat, font: nat): (s: real)
    requires px > 0
    ensures 0.0 <= s
  {
    (cells * Max(font, 1)) as real / px as real
  }

  /** The size in cells of an axis of the scaled image. */
  function ScaledCells(px: nat, scale: real, font: nat): real {
    px as real * scale / Max(font, 1) as real
  }

  function Scale(w: nat, h: nat, imgW: nat, imgH: nat, fontW: nat, fontH: nat): real
    requires imgW > 0 && imgH > 0
  {
    RMin(AxisScale(imgW, w, fontW), AxisScale(imgH, h, fontH))
  }

  function FittedCells(px: nat, cells: nat, font: nat, scale: real): int {
    Min(Ceil(ScaledCells(px, scale, font)), cells)
  }

  function Contain(w: nat, h: nat, imgW: nat, imgH: nat, fontW: nat, fontH: nat): Rect {
    if w == 0 || h == 0 || imgW == 0 || imgH == 0 then Rect(0, 0, w, h)
    else
      var scale := Scale(w, h, imgW, imgH, fontW, fontH);
      var fittedW := FittedCells(imgW, w, fontW, scale);
      var fittedH := FittedCells(imgH, h, fontH, scale);
      Rect((w - fittedW) / 2, (h - fittedH) / 2, fittedW, fittedH)
  }

  lemma RealMulMono(p: real, x: real, y: real)
    requires p > 0.0 && x <= y
    ensures p * x <= p * y
  {
  }

  lemma RealMulStrict(p: real, x: real, y: real)
    requires p > 0.0 && x < y
    ensures p * x < p * y
  {
  }

  lemma RealDivMono(x: real, y: real, f: real)
    requires f > 0.0 && x <= y
    ensures x / f <= y / f
  {
  }

  lemma ScaledAxis(px: nat, cells: nat, font: int, s: real)
    requires px > 0 && cells > 0 && font > 0 && s <= (cells * font) as real / px as real
    ensures px as real * s / font as real <= cells as real
    ensures s == (cells * font) as real / px as real ==> px as real * s / font as real == cells as real
  {
    var p, f, c := px as real, font as real, cells as real;
    var limit := (cells * font) as real / p;
    assert (cells * font) as real == c * f;
    assert p * limit == c * f;
    assert p * s <= p * limit by { RealMulMono(p, s, limit); }
    assert p * s / f <= c * f / f by { RealDivMono(p * s, c * f, f); }
    assert c * f / f == c;
  }

  /** The fitted cells are the fewest that hold the scaled axis, and all of them at the axis limit. */
  lemma FittedAxis(px: nat, cells: nat, font: nat, s: real)
    requires px > 0 && cells > 0 && 0.0 <= s <= AxisScale(px, cells, font)
    ensures var size := ScaledCells(px, s, font);
            var n := FittedCells(px, cells, font, s);
            && n <= cells && (n - 1) as real < size <= n as real
            && (s == AxisScale(px, cells, font) ==> n == cells)
  {
    ScaledAxis(px, cells, Max(font, 1), s);
  }

  /** The contained image lies inside the pane, is centred to within one cell, fills the pane along
      one axis, and takes the fewest cells that hold it along both. */
  lemma ContainFits(w: nat, h: nat, imgW: nat, imgH: nat, fontW: nat, fontH: nat)
    requires w > 0 && h > 0 && imgW > 0 && imgH > 0
    ensures var r := Contain(w, h, imgW, imgH, fontW, fontH);
            var s := Scale(w, h, imgW, imgH, fontW, fontH);
            && 0 <= r.x && r.x + r.width <= w && 0 <= r.y && r.y + r.height <= h
            && 0 <= (w - r.x - r.width) - r.x <= 1 && 0 <= (h - r.y - r.height) - r.y <= 1
            && (r.width == w || r.height == h)
            && (r.width - 1) as real < ScaledCells(imgW, s, fontW) <= r.width as real
            && (r.height - 1) as real < ScaledCells(imgH, s, fontH) <= r.height as real
  {
    hide FittedCells, AxisScale, ScaledCells;
    var s := Scale(w, h, imgW, imgH, fontW, fontH);
    FittedAxis(imgW, w, fontW, s);
    FittedAxis(imgH, h, fontH, s);
  }

  /** At scale `s` an axis of the image fits into `n` cells, and exactly fills them. */
  predicate FitsInto(px: nat, s: real, n: int, font: nat) {
    px as real * s <= (n * Max(font, 1)) as real
  }

  predicate Fills(px: nat, s: real, n: int, font: nat) {
    px as real * s == (n * Max(font, 1)) as real
  }

  lemma AxisScaleMeaning(px: nat, cells: nat, font: nat, s: real)
    requires px > 0
    ensures s <= AxisScale(px, cells, font) <==> FitsInto(px, s, cells, font)
    ensures s == AxisScale(px, cells, font) <==> Fills(px, s, cells, font)
  {
    var p, c := px as real, (cells * Max(font, 1)) as real;
    var limit := AxisScale(px, cells, font);
    assert p * limit == c;
    if s < limit {
      RealMulStrict(p, s, limit);
    }
    if s > limit {
      RealMulStrict(p, limit, s);
    }
  }

  lemma ScaledCellsMeaning(px: nat, s: real, font: nat, n: int)
    ensures ScaledCells(px, s, font) <= n as real <==> FitsInto(px, s, n, font)
  {
    var f, size, goal := Max(font, 1) as real, ScaledCells(px, s, font), n as real;
    assert f * size == px as real * s;
    assert f * goal == (n * Max(font, 1)) as real;
    if size < goal {
      RealMulStrict(f, size, goal);
    }
    if goal < size {
      RealMulStrict(f, goal, size);
    }
  }

  lemma ContainScale(w: nat, h: nat, imgW: nat, imgH: nat, fontW: nat, fontH: nat) returns (s: real)
    requires w > 0 && h > 0 && imgW > 0 && imgH > 0
    ensures s == Scale(w, h, imgW, imgH, fontW, fontH)
    ensures FitsInto(imgW, s, w, fontW) && FitsInto(imgH, s, h, fontH)
    ensures Fills(imgW, s, w, fontW) || Fills(imgH, s, h, fontH)
  {
    s := Scale(w, h, imgW, imgH, fontW, fontH);
    assert s <= AxisScale(imgW, w, fontW) && s <= AxisScale(imgH, h, fontH);
    assert s == AxisScale(imgW, w, fontW) || s == AxisScale(imgH, h, fontH);
    hide AxisScale, Scale, FitsInto, Fills;
    AxisScaleMeaning(imgW, w, fontW, s);
    AxisScaleMeaning(imgH, h, fontH, s);
  }

  /** The containing rectangle in terms of pixels: at the largest scale at which both axes of the image are
      no longer than those of the pane, each axis takes the fewest cells that hold it. Without a pane or
      without an image it is the whole pane. */
  lemma ContainMeaning(w: nat, h: nat, imgW: nat, imgH: nat, fontW: nat, fontH: nat) returns (s: real)
    ensures w == 0 || h == 0 || imgW == 0 || imgH == 0 ==>
              Contain(w, h, imgW, imgH, fontW, fontH) == Rect(0, 0, w, h)
    ensures w > 0 && h > 0 && imgW > 0 && imgH > 0 ==>
              var r := Contain(w, h, imgW, imgH, fontW, fontH);
              && FitsInto(imgW, s, w, fontW) && FitsInto(imgH, s, h, fontH)
              && (Fills(imgW, s, w, fontW) || Fills(imgH, s, h, fontH))
              && FitsInto(imgW, s, r.width, fontW) && !FitsInto(imgW, s, r.width - 1, fontW)
              && FitsInto(imgH, s, r.height, fontH) && !FitsInto(imgH, s, r.height - 1, fontH)
  {
    s := 0.0;
    if w > 0 && h > 0 && imgW > 0 && imgH > 0 {
      hide Contain, ScaledCells, AxisScale, Scale, FitsInto, Fills;
      var r := Contain(w, h, imgW, imgH, fontW, fontH);
      s := ContainScale(w, h, imgW, imgH, fontW, fontH);
      ContainFits(w, h, imgW, imgH, fontW, fontH);
      ScaledCellsMeaning(imgW, s, fontW, r.width);
      ScaledCellsMeaning(imgW, s, fontW, r.width - 1);
      ScaledCellsMeaning(imgH, s, fontH, r.height);
      ScaledCellsMeaning(imgH, s, fontH, r.height - 1);
    }
  }

  predicate Below(used: int, total: int) {
    total == 0 || used * 100 < TARGET_UTILIZATION * total
  }

  predicate Underutilized(w: nat, h: nat, r: Rect) {
    Below(r.width, w) || Below(r.height, h) || Below(r.width * r.height, w * h)
  }

  datatype Plan = Plan(fit: int, preferred: int, oldFills: bool, fixedFills: bool, oldMode: Mode, fixedMode: Mode)

  function MakePlan(w: nat, h: nat, imgW: nat, imgH: nat, fontW: nat, fontH: nat): Plan {
    var contain := Contain(w, h, imgW, imgH, fontW, fontH);
    var fit := FitZoom(w, h, imgW, imgH, fontW, fontH);
    var preferred := PreferredFillZoom(AxisFillZoom(w, imgW, fontW), AxisFillZoom(h, imgH, fontH));
    var larger := preferred > fit + 5;
    var under := Underutilized(w, h, contain);
    var oldFills := (fit < MIN_READABLE_ZOOM || under) && larger;
    var fixedFills := under && larger;
    var fill := FitFill(preferred, ScrollCells(imgW, w, preferred, fontW), ScrollCells(imgH, h, preferred, fontH));
    Plan(fit, preferred, oldFills, fixedFills,
         if oldFills then fill else Fit(contain), if fixedFills then fill else Fit(contain))
  }

  /** A filling plan whose zoom was not raised to the readable floor scrolls along at most one axis:
      not along the one that determined the zoom. */
  lemma FillScrollsOneAxis(w: nat, h: nat, imgW: nat, imgH: nat, fontW: nat, fontH: nat)
    requires Max(AxisFillZoom(w, imgW, fontW), AxisFillZoom(h, imgH, fontH)) >= MIN_READABLE_ZOOM
    ensures var p := MakePlan(w, h, imgW, imgH, fontW, fontH);
            && (AxisFillZoom(w, imgW, fontW) >= AxisFillZoom(h, imgH, fontH) ==>
                  ScrollCells(imgW, w, p.preferred, fontW) == 0)
            && (AxisFillZoom(h, imgH, fontH) >= AxisFillZoom(w, imgW, fontW) ==>
                  ScrollCells(imgH, h, p.preferred, fontH) == 0)
            && (p.fixedMode.FitFill? ==> p.fixedMode.scrollX == 0 || p.fixedMode.scrollY == 0)
  {
    var a, b := AxisFillZoom(w, imgW, fontW), AxisFillZoom(h, imgH, fontH);
    if a >= b && w != 0 && imgW != 0 && fontW != 0 {
      DivBounds(w * fontW * 100, imgW, 1);
      FilledAxisDoesNotScroll(w, imgW, fontW, a);
    }
    if b >= a && h != 0 && imgH != 0 && fontH != 0 {
      DivBounds(h * fontH * 100, imgH, 1);
      FilledAxisDoesNotScroll(h, imgH, fontH, b);
    }
  }

  /** Neither the pane nor the image has anything along one of the axes. */
  predicate Degenerate(w: nat, h: nat, imgW: nat, imgH: nat) {
    (w == 0 && imgW == 0) || (h == 0 && imgH == 0)
  }

  lemma FillCropsEmpty(w: nat, h: nat, imgW: nat, imgH: nat, fontW: nat, fontH: nat)
    requires w == 0 || h == 0 || imgW == 0 || imgH == 0
    ensures var p := MakePlan(w, h, imgW, imgH, fontW, fontH);
            p.oldFills || p.fixedFills ==>
              (Fits(w, h, imgW, imgH, fontW, fontH, p.preferred) <==> Degenerate(w, h, imgW, imgH))
  {
    var p := MakePlan(w, h, imgW, imgH, fontW, fontH);
    if p.oldFills || p.fixedFills {
      if h > 0 && imgH > 0 && fontH > 0 {
        DivBounds(h * fontH * 100, imgH, p.preferred);
      }
      if w > 0 && imgW > 0 && fontW > 0 {
        DivBounds(w * fontW * 100, imgW, p.preferred);
      }
    }
  }

  /** A filling plan crops, that is, at its zoom the image does not fit: always, unless there is nothing
      to crop because pane and image are both empty along one of the axes. */
  lemma FillCrops(w: nat, h: nat, imgW: nat, imgH: nat, fontW: nat, fontH: nat)
    ensures var p := MakePlan(w, h, imgW, imgH, fontW, fontH);
            p.oldFills || p.fixedFills ==>
              (Fits(w, h, imgW, imgH, fontW, fontH, p.preferred) <==> Degenerate(w, h, imgW, imgH))
  {
    var p := MakePlan(w, h, imgW, imgH, fontW, fontH);
    if w == 0 || h == 0 || imgW == 0 || imgH == 0 {
      FillCropsEmpty(w, h, imgW, imgH, fontW, fontH);
    } else {
      FitZoomIsLargest(w, h, imgW, imgH, fontW, fontH, p.preferred);
    }
  }

  lemma BelowOnOneAxis(x: nat, y: nat, w: nat, h: nat)
    requires x <= w && y <= h && w > 0 && h > 0 && Below(x, w)
    ensures Below(x * y, w * h)
  {
    if y == 0 {
      MulMono(1, w, h);
    } else {
      MulStrict(x * 100, TARGET_UTILIZATION * w, y);
      MulMono(y, h, TARGET_UTILIZATION * w);
      assert x * y * 100 == x * 100 * y;
      assert TARGET_UTILIZATION * (w * h) == h * (TARGET_UTILIZATION * w);
      assert TARGET_UTILIZATION * w * y == y * (TARGET_UTILIZATION * w);
      assert w * h > 0 by { MulMono(1, w, h); }
    }
  }

  lemma ScaledNonNegative(px: nat, scale: real, font: nat)
    requires scale >= 0.0
    ensures ScaledCells(px, scale, font) >= 0.0
  {
  }

  lemma ContainInside(w: nat, h: nat, imgW: nat, imgH: nat, fontW: nat, fontH: nat)
    ensures var r := Contain(w, h, imgW, imgH, fontW, fontH); 0 <= r.width <= w && 0 <= r.height <= h
  {
    if w > 0 && h > 0 && imgW > 0 && imgH > 0 {
      var s := Scale(w, h, imgW, imgH, fontW, fontH);
      hide AxisScale, Scale, ScaledCells;
      ScaledNonNegative(imgW, s, fontW);
      ScaledNonNegative(imgH, s, fontH);
    }
  }

  /** Of the three utilisation checks the one on the area decides alone. */
  lemma UnderutilizedIsArea(w: nat, h: nat, imgW: nat, imgH: nat, fontW: nat, fontH: nat)
    ensures var r := Contain(w, h, imgW, imgH, fontW, fontH);
            Underutilized(w, h, r) <==> Below(r.width * r.height, w * h)
  {
    var r := Contain(w, h, imgW, imgH, fontW, fontH);
    if w > 0 && h > 0 {
      ContainInside(w, h, imgW, imgH, fontW, fontH);
      if Below(r.width, w) {
        BelowOnOneAxis(r.width, r.height, w, h);
      }
      if Below(r.height, h) {
        BelowOnOneAxis(r.height, r.width, h, w);
        assert r.height * r.width == r.width * r.height && h * w == w * h;
      }
    }
  }

  /** When each of the two plans fills, and with what: the fixed rule when the diagram takes less than the
      target share of the pane, the old one also below the readable zoom, and both only if filling makes the
      diagram noticeably larger. */
  lemma PlanModes(w: nat, h: nat, imgW: nat, imgH: nat, fontW: nat, fontH: nat)
    ensures var p := MakePlan(w, h, imgW, imgH, fontW, fontH);
            var r := Contain(w, h, imgW, imgH, fontW, fontH);
            var sparse := w * h == 0 || r.width * r.height * 100 < 85 * (w * h);
            var zoom := p.preferred;
            && p.fit == FitZoom(w, h, imgW, imgH, fontW, fontH)
            && zoom == PreferredFillZoom(AxisFillZoom(w, imgW, fontW), AxisFillZoom(h, imgH, fontH))
            && p.fixedMode == (if sparse && zoom > p.fit + 5
                               then FitFill(zoom, ScrollCells(imgW, w, zoom, fontW), ScrollCells(imgH, h, zoom, fontH))
                               else Fit(r))
            && p.oldMode == (if (p.fit < 70 || sparse) && zoom > p.fit + 5
                             then FitFill(zoom, ScrollCells(imgW, w, zoom, fontW), ScrollCells(imgH, h, zoom, fontH))
                             else Fit(r))
  {
    hide Contain, FitZoom, Fits, AxisFillZoom, ScrollCells;
    UnderutilizedIsArea(w, h, imgW, imgH, fontW, fontH);
  }

  lemma DefaultRect()
    ensures Contain(73, 46, 1180, 1470, 8, 16) == Rect(0, 0, 73, 46)
  {
    var s := ContainScale(73, 46, 1180, 1470, 8, 16);
    assert 1180.0 * s <= 584.0 && 1470.0 * s <= 736.0;
    assert 1180.0 * s == 584.0 || 1470.0 * s == 736.0;
    hide AxisScale, Scale, ScaledCells, Contain;
    ContainFits(73, 46, 1180, 1470, 8, 16);
    ScaledCellsMeaning(1180, s, 8, 72);
    ScaledCellsMeaning(1470, s, 16, 45);
    assert 1180.0 * s == 584.0;
  }

  lemma DefaultZooms()
    ensures FitZoom(73, 46, 1180, 1470, 8, 16) == 49
    ensures PreferredFillZoom(AxisFillZoom(73, 1180, 8), AxisFillZoom(46, 1470, 16)) == 70
  {
    assert 58400 / 1180 == 49 && 73600 / 1470 == 50;
    assert AxisFillZoom(73, 1180, 8) == 49;
    assert AxisFillZoom(46, 1470, 16) == 50;
    hide AxisFillZoom;
    FitIsTighterFill(73, 46, 1180, 1470, 8, 16);
  }

  lemma DefaultScroll()
    ensures ScrollCells(1180, 73, 70, 8) == 14 && ScrollCells(1470, 46, 70, 16) == 9
  {
    assert ViewPx(73, 8, 70) == 834;
    assert ViewPx(46, 16, 70) == 1051;
    assert CellPxAtZoom(8, 70) == 12;
    assert CellPxAtZoom(16, 70) == 23;
    hide ViewPx, CellPxAtZoom;
    assert 346 / 2 / 12 == 14 && 419 / 2 / 23 == 9;
  }

  /** The pane and diagram the script assumes by default: the old rule zooms to 70 percent and scrolls 14
      cells across and 9 down, the fixed one shows the whole diagram. */
  lemma DefaultPlan()
    ensures var p := MakePlan(73, 46, 1180, 1470, 8, 16);
            && p.fit == 49 && p.preferred == 70
            && p.oldMode == FitFill(70, 14, 9) && p.fixedMode == Fit(Rect(0, 0, 73, 46))
  {
    hide Contain, FitZoom, AxisFillZoom, PreferredFillZoom, ScrollCells, MakePlan;
    DefaultRect();
    DefaultZooms();
    DefaultScroll();
    PlanModes(73, 46, 1180, 1470, 8, 16);
  }

  /** A pane that loses its filling under the fixed rule was cropped without need: its diagram fitted
      into at least the target share of the pane, and the old rule filled only because the fit zoom was
      below the readable one. */
  lemma ClippingDefect(w: nat, h: nat, imgW: nat, imgH: nat, fontW: nat, fontH: nat)
    ensures var p := MakePlan(w, h, imgW, imgH, fontW, fontH);
            var r := Contain(w, h, imgW, imgH, fontW, fontH);
            && (p.oldMode != p.fixedMode <==>
                  && p.fit < 70 && p.preferred > p.fit + 5
                  && r.width * r.height * 100 >= 85 * (w * h))
            && (p.oldMode != p.fixedMode ==>
                  p.fixedMode == Fit(r) && !Fits(w, h, imgW, imgH, fontW, fontH, p.preferred))
  {
    hide Contain, Fits, AxisFillZoom, ScrollCells;
    FillCrops(w, h, imgW, imgH, fontW, fontH);
    UnderutilizedIsArea(w, h, imgW, imgH, fontW, fontH);
    if w > 0 && h > 0 && imgW > 0 && imgH > 0 {
      hide FitZoom;
      MulMono(1, w, h);
    } else {
      assert FitZoom(w, h, imgW, imgH, fontW, fontH) == 100;
    }
  }
}
