/** `render_text` and `draw_text_with_fallback` (main.py:25-134): per-character
    font choice, width measurement, placement on an oversized scratch canvas
    and the crop back to the nominal canvas. PIL's measurements are
    parameters; offsets are exact reals and `int()` truncates toward zero. */
module GlyphRenderer {
  import opened Common
  import opened ParamParser
  import opened FontResolver

  /** A font loaded by `ImageFont.truetype(path, size)`. */
  datatype Font = Font(path: string, size: int)

  /** What PIL measures. `bboxWidth` is `bbox[2] - bbox[0]` of
      `draw.textbbox((0, 0), ch, font)`, or None when that call raises;
      `advance` is `draw.textlength(ch, font)`; `ascent` and `descent` are
      the two halves of `font.getmetrics()`. */
  datatype Metrics = Metrics(
    bboxWidth: (Font, char) -> Option<int>,
    advance: (Font, char) -> real,
    ascent: Font -> int,
    descent: Font -> int)

  // ------------------------------------------------------------ font choice

  /** The primary font cannot show `ch`: measuring it raises, or its box
      has width 0. */
  predicate MainLacksGlyph(m: Metrics, main: Font, ch: char) {
    var w := m.bboxWidth(main, ch);
    w.None? || w.value == 0
  }

  /** The font a character is drawn and measured with. */
  function ChooseFont(m: Metrics, main: Font, fallback: Font, ch: char): (f: Font)
    ensures f == fallback <== MainLacksGlyph(m, main, ch)
    ensures f == main <== !MainLacksGlyph(m, main, ch)
  {
    if MainLacksGlyph(m, main, ch) then fallback else main
  }

  function CharAdvance(m: Metrics, main: Font, fallback: Font, ch: char): real {
    m.advance(ChooseFont(m, main, fallback, ch), ch)
  }

  /** The sum of the per-character advances, each under its chosen font. */
  function TotalAdvance(m: Metrics, main: Font, fallback: Font, text: string): real {
    if text == [] then 0.0
    else
      var n := |text| - 1;
      TotalAdvance(m, main, fallback, text[..n]) + CharAdvance(m, main, fallback, text[n])
  }

  /** Python's `int()` on a number: truncation toward zero, which differs
      from the floor for negative non-integers. */
  function Trunc(x: real): (t: int)
    ensures 0.0 <= x ==> t as real <= x < t as real + 1.0
    ensures x < 0.0 ==> t as real - 1.0 < x <= t as real
  {
    if x >= 0.0 then x.Floor else -((-x).Floor)
  }

  /** Truncation is odd, keeps integers and is not the floor. */
  lemma TruncProperties(x: real, n: int)
    ensures Trunc(-x) == -Trunc(x)
    ensures Trunc(n as real) == n
    ensures Trunc(-0.5) == 0 && (-0.5).Floor == -1
  {
  }

  // ---------------------------------------------------------------- drawing

  /** One `draw.text((x, y), ch, font=f, fill=fill)` call. */
  datatype Glyph = Glyph(x: real, y: int, ch: char, font: Font, fill: Rgba)

  /** The glyphs `draw_text_with_fallback` draws for `text` from `(x0, y)`. */
  function GlyphRun(m: Metrics, main: Font, fallback: Font, x0: real, y: int, text: string, fill: Rgba)
    : (run: seq<Glyph>)
    ensures |run| == |text|
  {
    if text == [] then []
    else
      var n := |text| - 1;
      GlyphRun(m, main, fallback, x0, y, text[..n], fill)
        + [Glyph(x0 + TotalAdvance(m, main, fallback, text[..n]), y, text[n], ChooseFont(m, main, fallback, text[n]), fill)]
  }

  /** The i-th glyph is the i-th character, in its chosen font, placed at the
      start plus the measured advance of the characters before it. */
  lemma {:induction false} GlyphRunAt(m: Metrics, main: Font, fallback: Font, x0: real, y: int, text: string, fill: Rgba)
    ensures |GlyphRun(m, main, fallback, x0, y, text, fill)| == |text|
    ensures forall i :: 0 <= i < |text| ==>
      GlyphRun(m, main, fallback, x0, y, text, fill)[i]
        == Glyph(x0 + TotalAdvance(m, main, fallback, text[..i]), y, text[i], ChooseFont(m, main, fallback, text[i]), fill)
  {
    if text != [] {
      var n := |text| - 1;
      var front := text[..n];
      GlyphRunAt(m, main, fallback, x0, y, front, fill);
      var run := GlyphRun(m, main, fallback, x0, y, text, fill);
      var previous := GlyphRun(m, main, fallback, x0, y, front, fill);
      assert run == previous + [Glyph(x0 + TotalAdvance(m, main, fallback, front), y, text[n],
                                      ChooseFont(m, main, fallback, text[n]), fill)];
      forall i | 0 <= i < |text|
        ensures run[i] == Glyph(x0 + TotalAdvance(m, main, fallback, text[..i]), y, text[i],
                                ChooseFont(m, main, fallback, text[i]), fill)
      {
        if i < n {
          assert run[i] == previous[i];
          assert front[..i] == text[..i] && front[i] == text[i];
        }
      }
    }
  }

  /** Drawing and measuring agree: consecutive glyphs are one measured
      advance apart, and the run ends where the measured width says. */
  lemma DrawMatchesMeasure(m: Metrics, main: Font, fallback: Font, x0: real, y: int, text: string, fill: Rgba)
    ensures var run := GlyphRun(m, main, fallback, x0, y, text, fill);
      && |run| == |text|
      && (forall i :: 0 <= i < |text| - 1 ==>
            run[i + 1].x - run[i].x == CharAdvance(m, main, fallback, text[i]))
      && (text != [] ==>
            run[|text| - 1].x + CharAdvance(m, main, fallback, text[|text| - 1])
              == x0 + TotalAdvance(m, main, fallback, text))
  {
    GlyphRunAt(m, main, fallback, x0, y, text, fill);
    forall i | 0 <= i < |text| - 1
      ensures TotalAdvance(m, main, fallback, text[..i + 1])
        == TotalAdvance(m, main, fallback, text[..i]) + CharAdvance(m, main, fallback, text[i])
    {
      assert text[..i + 1][..i] == text[..i];
    }
    if text != [] {
      assert text[..|text|] == text;
    }
  }

  /** With one font for both roles, every character uses it. */
  lemma SingleFontRun(m: Metrics, f: Font, x0: real, y: int, text: string, fill: Rgba)
    ensures forall i :: 0 <= i < |text| ==> GlyphRun(m, f, f, x0, y, text, fill)[i].font == f
  {
    GlyphRunAt(m, f, f, x0, y, text, fill);
  }

  /** The scratch image plus its `ImageDraw.Draw`: the glyphs drawn on it so
      far, in order. */
  class Canvas {
    const width: int
    const height: int
    var glyphs: seq<Glyph>

    /** `Image.new("RGBA", (width, height), (0, 0, 0, 0))`, which raises for a
        negative size. */
    constructor(width: int, height: int)
      requires width >= 0 && height >= 0
      ensures this.width == width && this.height == height
      ensures glyphs == []
    {
      this.width := width;
      this.height := height;
      glyphs := [];
    }

    /** `draw.text(...)`. */
    method Text(g: Glyph)
      modifies this
      ensures glyphs == old(glyphs) + [g]
    {
      glyphs := glyphs + [g];
    }
  }

  /** `measure_text_width`: the integer part of the summed advances. */
  method MeasureTextWidth(text: string, main: Font, fallback: Font, m: Metrics) returns (width: int)
    ensures width == Trunc(TotalAdvance(m, main, fallback, text))
  {
    var total := 0.0;
    for i := 0 to |text|
      invariant total == TotalAdvance(m, main, fallback, text[..i])
    {
      var ch := text[i];
      var f := main;
      var box := m.bboxWidth(main, ch);
      if box.None? || box.value == 0 {
        f := fallback;
      }
      assert text[..i + 1][..i] == text[..i];
      total := total + m.advance(f, ch);
    }
    assert text[..|text|] == text;
    width := Trunc(total);
  }

  /** `draw_text_with_fallback`: appends exactly the glyph run of `text`. */
  method DrawTextWithFallback(canvas: Canvas, x0: real, y: int, text: string, main: Font, fallback: Font,
                              fill: Rgba, m: Metrics)
    modifies canvas
    ensures canvas.glyphs == old(canvas.glyphs) + GlyphRun(m, main, fallback, x0, y, text, fill)
  {
    var x := x0;
    for i := 0 to |text|
      invariant x == x0 + TotalAdvance(m, main, fallback, text[..i])
      invariant canvas.glyphs == old(canvas.glyphs) + GlyphRun(m, main, fallback, x0, y, text[..i], fill)
    {
      var ch := text[i];
      var f := main;
      var box := m.bboxWidth(main, ch);
      if box.None? || box.value == 0 {
        f := fallback;
      }
      assert text[..i + 1][..i] == text[..i];
      canvas.Text(Glyph(x, y, ch, f, fill));
      x := x + m.advance(f, ch);
    }
    assert text[..|text|] == text;
  }

  // ---------------------------------------------------------------- options

  /** The keyword arguments of `render_text` that `**params` can set.
      `center_mode` matters only through the comparison with "geometry";
      `dpi` is only recorded, so any value is accepted; `padding` is only
      read when `canvas_width` is absent. */
  datatype RenderArgs = RenderArgs(
    fontSize: int,
    canvasHeight: int,
    canvasWidth: Option<int>,
    dpi: Value,
    geometry: bool,
    xRatio: real,
    yRatio: real,
    padding: int,
    textColor: Rgba,
    bgColor: Rgba)

  const DefaultArgs := RenderArgs(48, 128, None, IntVal(72), false, 0.5, 0.5, 0, Rgba(0, 0, 0, 255), Rgba(0, 0, 0, 0))

  /** A ratio option: `int` or finite `float`; anything else makes
      `int(space * ratio)` raise. */
  function AsRatio(v: Value): Option<real> {
    match v
    case IntVal(i) => Some(i as real)
    case FloatVal(x) => Some(x)
    case _ => None
  }

  /** The option kinds `render_text` completes with: integer sizes (PIL and
      the size arithmetic reject others), numeric ratios and RGBA colours. */
  predicate Acceptable(p: map<string, Value>) {
    && p.Keys <= AllowedParams
    && (forall k :: k in p && k in {"font_size", "canvas_height", "canvas_width"} ==> p[k].IntVal?)
    && ("padding" in p && "canvas_width" !in p ==> p["padding"].IntVal?)
    && (forall k :: k in p && k in {"x_offset_ratio", "y_offset_ratio"} ==> AsRatio(p[k]).Some?)
    && (forall k :: k in p && IsColorKey(k) ==> p[k].ColorVal?)
  }

  function IntOption(p: map<string, Value>, k: string, default: int): (r: Result<int>)
    ensures r.Ok? <==> k !in p || p[k].IntVal?
    ensures r.Ok? ==> r.value == (if k in p then p[k].i else default)
  {
    if k !in p then Ok(default)
    else if p[k].IntVal? then Ok(p[k].i)
    else Err(BadArgument(k))
  }

  function RatioOption(p: map<string, Value>, k: string): (r: Result<real>)
    ensures r.Ok? <==> k !in p || AsRatio(p[k]).Some?
    ensures r.Ok? ==> r.value == (if k in p then AsRatio(p[k]).value else 0.5)
  {
    if k !in p then Ok(0.5)
    else match AsRatio(p[k])
      case Some(x) => Ok(x)
      case None => Err(BadArgument(k))
  }

  function ColorOption(p: map<string, Value>, k: string, default: Rgba): (r: Result<Rgba>)
    ensures r.Ok? <==> k !in p || p[k].ColorVal?
    ensures r.Ok? ==> r.value == (if k in p then p[k].c else default)
  {
    if k !in p then Ok(default)
    else if p[k].ColorVal? then Ok(p[k].c)
    else Err(BadArgument(k))
  }

  /** `render_text(..., **params)`: binds the options, with the defaults of
      the signature for those absent. */
  function Bind(p: map<string, Value>): (r: Result<RenderArgs>)
    ensures !(p.Keys <= AllowedParams) ==> r == Err(UnexpectedArgument)
  {
    if !(p.Keys <= AllowedParams) then Err(UnexpectedArgument)
    else
      var fontSize :- IntOption(p, "font_size", 48);
      var canvasHeight :- IntOption(p, "canvas_height", 128);
      var canvasWidth :-
        if "canvas_width" !in p then Ok(None)
        else if p["canvas_width"].IntVal? then Ok(Some(p["canvas_width"].i))
        else Err(BadArgument("canvas_width"));
      var padding :- if canvasWidth.None? then IntOption(p, "padding", 0) else Ok(0);
      var xRatio :- RatioOption(p, "x_offset_ratio");
      var yRatio :- RatioOption(p, "y_offset_ratio");
      var textColor :- ColorOption(p, "text_color", Rgba(0, 0, 0, 255));
      var bgColor :- ColorOption(p, "bg_color", Rgba(0, 0, 0, 0));
      var dpi := if "dpi" in p then p["dpi"] else IntVal(72);
      var geometry := "center_mode" in p && p["center_mode"] == StrVal("geometry");
      Ok(RenderArgs(fontSize, canvasHeight, canvasWidth, dpi, geometry, xRatio, yRatio, padding, textColor, bgColor))
  }

  /** Binding succeeds exactly for the acceptable option kinds. */
  lemma BindAcceptsExactly(p: map<string, Value>)
    ensures Bind(p).Ok? <==> Acceptable(p)
  {
  }

  /** A bound option is the value given, or the signature's default when
      it is absent. */
  lemma BindValues(p: map<string, Value>)
    requires Bind(p).Ok?
    ensures var r := Bind(p).value;
      && r.fontSize == (if "font_size" in p then p["font_size"].i else 48)
      && r.canvasHeight == (if "canvas_height" in p then p["canvas_height"].i else 128)
      && r.canvasWidth == (if "canvas_width" in p then Some(p["canvas_width"].i) else None)
      && ("canvas_width" !in p ==> r.padding == (if "padding" in p then p["padding"].i else 0))
      && r.dpi == (if "dpi" in p then p["dpi"] else IntVal(72))
      && (r.geometry <==> "center_mode" in p && p["center_mode"] == StrVal("geometry"))
      && r.xRatio == (if "x_offset_ratio" in p then AsRatio(p["x_offset_ratio"]).value else 0.5)
      && r.yRatio == (if "y_offset_ratio" in p then AsRatio(p["y_offset_ratio"]).value else 0.5)
      && r.textColor == (if "text_color" in p then p["text_color"].c else Rgba(0, 0, 0, 255))
      && r.bgColor == (if "bg_color" in p then p["bg_color"].c else Rgba(0, 0, 0, 0))
  {
  }

  /** With no options, `render_text` runs with its signature's defaults. */
  lemma BindDefaults()
    ensures Bind(map[]) == Ok(DefaultArgs)
  {
  }

  // -------------------------------------------------------------- placement

  datatype Box = Box(left: int, top: int, right: int, bottom: int)

  /** The numbers `render_text` computes before drawing: the nominal canvas,
      the safety margin `s`, the scratch canvas, the crop box and the text
      origin on the scratch canvas. */
  datatype Layout = Layout(
    canvasWidth: int,
    canvasHeight: int,
    safety: int,
    scratchWidth: int,
    scratchHeight: int,
    crop: Box,
    x: int,
    y: int)

  function CanvasWidth(textWidth: int, a: RenderArgs): int {
    match a.canvasWidth
    case Some(w) => w
    case None => textWidth + a.padding * 2
  }

  /** Placement arithmetic of `render_text`. The crop box has exactly the
      nominal size and sits `s` in from every edge of the scratch canvas. */
  function Place(textWidth: int, ascent: int, descent: int, a: RenderArgs): (l: Layout)
    ensures l.crop.right - l.crop.left == l.canvasWidth && l.crop.bottom - l.crop.top == l.canvasHeight
    ensures l.crop.left == l.safety && l.crop.top == l.safety
    ensures l.scratchWidth - l.crop.right == l.safety && l.scratchHeight - l.crop.bottom == l.safety
  {
    var cw := CanvasWidth(textWidth, a);
    var ch := a.canvasHeight;
    var s := a.fontSize * 2;
    var x := Trunc((cw - textWidth) as real * a.xRatio) + s;
    var y :=
      if a.geometry then Trunc((ch - (ascent + descent)) as real * a.yRatio) + s
      else Trunc(ch as real * a.yRatio) - ascent + s;
    Layout(cw, ch, s, cw + s * 2, ch + s * 2, Box(s, s, s + cw, s + ch), x, y)
  }

  /** A scaled share of a space of either sign stays between 0 and the
      space. */
  lemma ScaledTruncBetween(space: int, ratio: real)
    requires 0.0 <= ratio <= 1.0
    ensures space >= 0 ==> 0 <= Trunc(space as real * ratio) <= space
    ensures space < 0 ==> space <= Trunc(space as real * ratio) <= 0
  {
    var d := if space >= 0 then space as real else -(space as real);
    ProductNonNegative(d, ratio);
    ProductNonNegative(d, 1.0 - ratio);
    assert d * (1.0 - ratio) == d - d * ratio;
  }

  /** Solver aid for `ScaledTruncBetween`: the product of two
      non-negative reals. */
  lemma ProductNonNegative(a: real, b: real)
    requires a >= 0.0 && b >= 0.0
    ensures a * b >= 0.0
  {
  }

  /** With a width left unset, the canvas is the text width plus the padding
      on both sides. */
  lemma DefaultCanvasWidth(textWidth: int, ascent: int, descent: int, a: RenderArgs)
    requires a.canvasWidth.None?
    ensures Place(textWidth, ascent, descent, a).canvasWidth == textWidth + 2 * a.padding
  {
  }

  /** For a ratio in [0, 1] the text starts inside the crop box and, when it
      fits, ends inside it too; when it is wider it overhangs both edges
      rather than starting to the right of the box. */
  lemma HorizontalPlacement(textWidth: int, ascent: int, descent: int, a: RenderArgs)
    requires 0.0 <= a.xRatio <= 1.0
    ensures var l := Place(textWidth, ascent, descent, a);
      && (textWidth <= l.canvasWidth ==> l.safety <= l.x <= l.safety + l.canvasWidth - textWidth)
      && (textWidth > l.canvasWidth ==> l.safety + l.canvasWidth - textWidth <= l.x <= l.safety)
  {
    var l := Place(textWidth, ascent, descent, a);
    ScaledTruncBetween(l.canvasWidth - textWidth, a.xRatio);
  }

  /** At the default ratio 0.5 the space left and right of the text differ
      by at most one pixel, whichever sign the space has. */
  lemma CentredWithinOnePixel(textWidth: int, ascent: int, descent: int, a: RenderArgs)
    requires a.xRatio == 0.5
    ensures var l := Place(textWidth, ascent, descent, a);
      var left := l.x - l.safety;
      var right := l.canvasWidth - textWidth - left;
      -1 <= left - right <= 1
  {
  }

  /** With no width given and the default ratio, the text sits exactly
      `padding` pixels from both edges. */
  lemma PaddedOnBothSides(textWidth: int, ascent: int, descent: int, a: RenderArgs)
    requires a.canvasWidth.None? && a.xRatio == 0.5
    ensures var l := Place(textWidth, ascent, descent, a);
      && l.x - l.safety == a.padding
      && l.canvasWidth - (l.x - l.safety + textWidth) == a.padding
  {
    var l := Place(textWidth, ascent, descent, a);
    assert (l.canvasWidth - textWidth) as real * 0.5 == a.padding as real;
    TruncProperties(0.0, a.padding);
  }

  /** `geometry` mode places the box from the ascender to the descender
      line; for a ratio in [0, 1] and a box that fits, it stays inside the
      crop box. */
  lemma GeometryPlacement(textWidth: int, ascent: int, descent: int, a: RenderArgs)
    requires a.geometry && 0.0 <= a.yRatio <= 1.0
    requires ascent + descent <= a.canvasHeight
    ensures var l := Place(textWidth, ascent, descent, a);
      l.safety <= l.y && l.y + ascent + descent <= l.safety + l.canvasHeight
  {
    ScaledTruncBetween(a.canvasHeight - (ascent + descent), a.yRatio);
  }

  /** Any other mode puts the baseline, `ascent` below the drawing origin,
      at row `trunc(canvas_height * ratio)` of the crop box, which for a
      ratio in [0, 1] lies inside it. */
  lemma VisualPlacement(textWidth: int, ascent: int, descent: int, a: RenderArgs)
    requires !a.geometry
    ensures var l := Place(textWidth, ascent, descent, a);
      l.y + ascent - l.safety == Trunc(a.canvasHeight as real * a.yRatio)
    ensures 0.0 <= a.yRatio <= 1.0 && a.canvasHeight >= 0 ==>
      0 <= Trunc(a.canvasHeight as real * a.yRatio) <= a.canvasHeight
  {
    BaselineRow(textWidth, ascent, descent, a);
    if 0.0 <= a.yRatio <= 1.0 {
      ScaledTruncBetween(a.canvasHeight, a.yRatio);
    }
  }

  /** Solver aid: the first half of `VisualPlacement`, proved on its own to
      keep that proof small. */
  lemma BaselineRow(textWidth: int, ascent: int, descent: int, a: RenderArgs)
    requires !a.geometry
    ensures var l := Place(textWidth, ascent, descent, a);
      l.y + ascent - l.safety == Trunc(a.canvasHeight as real * a.yRatio)
  {
  }

  // -------------------------------------------------------------- rendering

  /** `load_font` for the primary font, with the retry from the fallback
      path, then the fallback font itself (main.py:71-87). An empty path
      counts as absent. */
  function LoadFonts(fontPath: string, fallbackPath: Option<string>, size: int, loads: FontLoader)
    : (r: Result<(Font, Font)>)
    ensures r.Ok? ==> r.value.0.size == size && r.value.1.size == size
    ensures r.Ok? ==> loads(r.value.0.path, size) && loads(r.value.1.path, size)
    ensures r.Ok? && loads(fontPath, size) ==> r.value.0.path == fontPath
    ensures r.Ok? && !loads(fontPath, size) ==>
      fallbackPath.Some? && fallbackPath.value != "" && r.value.0.path == fallbackPath.value
    ensures (fallbackPath.None? || fallbackPath == Some("")) ==>
      r == (if loads(fontPath, size) then Ok((Font(fontPath, size), Font(fontPath, size)))
            else Err(FontLoadFailed(fontPath)))
    ensures fallbackPath.Some? && fallbackPath.value != "" ==>
      (r.Ok? <==> loads(fallbackPath.value, size)) && (r.Ok? ==> r.value.1.path == fallbackPath.value)
  {
    var hasFallback := fallbackPath.Some? && fallbackPath.value != "";
    var main :-
      if loads(fontPath, size) then Ok(Font(fontPath, size))
      else if hasFallback then
        (if loads(fallbackPath.value, size) then Ok(Font(fallbackPath.value, size))
         else Err(FontLoadFailed(fallbackPath.value)))
      else Err(FontLoadFailed(fontPath));
    var fallback :-
      if hasFallback then
        (if loads(fallbackPath.value, size) then Ok(Font(fallbackPath.value, size))
         else Err(FontLoadFailed(fallbackPath.value)))
      else Ok(main);
    Ok((main, fallback))
  }

  /** The saved image: nominal size, the recorded DPI, the background it is
      created with and the glyphs pasted from the crop, in its own
      coordinates. */
  datatype Image = Image(width: int, height: int, dpi: Value, background: Rgba, glyphs: seq<Glyph>)

  /** `safe_img.crop(box)`: glyph positions relative to the box corner. */
  function Crop(glyphs: seq<Glyph>, box: Box): seq<Glyph> {
    seq(|glyphs|, i requires 0 <= i < |glyphs| =>
      glyphs[i].(x := glyphs[i].x - box.left as real, y := glyphs[i].y - box.top))
  }

  /** `Image.new` raises for a negative size, on the scratch canvas or the
      final one (and `crop` for a box of negative size). */
  predicate SizesValid(l: Layout) {
    l.canvasWidth >= 0 && l.canvasHeight >= 0 && l.scratchWidth >= 0 && l.scratchHeight >= 0
  }

  /** What `render_text` produces: fonts, then width, then placement, then
      the drawn and cropped glyphs. */
  function Render(text: string, fontPath: string, fallbackPath: Option<string>, a: RenderArgs,
                  loads: FontLoader, m: Metrics): Result<Image>
  {
    var fonts :- LoadFonts(fontPath, fallbackPath, a.fontSize, loads);
    var main := fonts.0;
    var textWidth := Trunc(TotalAdvance(m, main, fonts.1, text));
    var l := Place(textWidth, m.ascent(main), m.descent(main), a);
    if !SizesValid(l) then Err(BadCanvasSize)
    else
      var drawn := GlyphRun(m, main, fonts.1, l.x as real, l.y, text, a.textColor);
      Ok(Image(l.canvasWidth, l.canvasHeight, a.dpi, a.bgColor, Crop(drawn, l.crop)))
  }

  /** `render_text`. `defaultFontPath` is accepted and never read; the
      output file is returned as an image value. */
  method RenderText(text: string, fontPath: string, defaultFontPath: string, a: RenderArgs,
                    fallbackPath: Option<string>, loads: FontLoader, m: Metrics)
    returns (r: Result<Image>)
    ensures r == Render(text, fontPath, fallbackPath, a, loads, m)
  {
    var fonts := LoadFonts(fontPath, fallbackPath, a.fontSize, loads);
    if fonts.Err? {
      return Err(fonts.error);
    }
    var main := fonts.value.0;
    var fallback := fonts.value.1;
    var textWidth := MeasureTextWidth(text, main, fallback, m);
    var l := Place(textWidth, m.ascent(main), m.descent(main), a);
    if !SizesValid(l) {
      return Err(BadCanvasSize);
    }
    var scratch := new Canvas(l.scratchWidth, l.scratchHeight);
    DrawTextWithFallback(scratch, l.x as real, l.y, text, main, fallback, a.textColor, m);
    assert scratch.glyphs == GlyphRun(m, main, fallback, l.x as real, l.y, text, a.textColor);
    r := Ok(Image(l.canvasWidth, l.canvasHeight, a.dpi, a.bgColor, Crop(scratch.glyphs, l.crop)));
  }

  /** Fails exactly when a font fails to load or a size is negative. */
  lemma RenderFails(text: string, fontPath: string, fallbackPath: Option<string>, a: RenderArgs,
                    loads: FontLoader, m: Metrics)
    ensures var r := Render(text, fontPath, fallbackPath, a, loads, m);
      var fonts := LoadFonts(fontPath, fallbackPath, a.fontSize, loads);
      && (fonts.Err? ==> r == Err(fonts.error))
      && (fonts.Ok? ==>
            var l := Place(Trunc(TotalAdvance(m, fonts.value.0, fonts.value.1, text)),
                           m.ascent(fonts.value.0), m.descent(fonts.value.0), a);
            (r.Err? <==> !SizesValid(l)) && (r.Err? ==> r.error == BadCanvasSize))
  {
  }

  /** The rendered image: nominal size, one glyph per character in order,
      each in its chosen font and the text colour, at the text origin in
      canvas coordinates (the safety margin cancels out) plus the measured
      advance of the characters before it. */
  lemma RenderedGlyphs(text: string, fontPath: string, fallbackPath: Option<string>, a: RenderArgs,
                       loads: FontLoader, m: Metrics)
    requires Render(text, fontPath, fallbackPath, a, loads, m).Ok?
    ensures var img := Render(text, fontPath, fallbackPath, a, loads, m).value;
      var fonts := LoadFonts(fontPath, fallbackPath, a.fontSize, loads).value;
      var textWidth := Trunc(TotalAdvance(m, fonts.0, fonts.1, text));
      var l := Place(textWidth, m.ascent(fonts.0), m.descent(fonts.0), a);
      && img.width == CanvasWidth(textWidth, a) && img.height == a.canvasHeight
      && img.dpi == a.dpi && img.background == a.bgColor
      && |img.glyphs| == |text|
      && forall i :: 0 <= i < |text| ==>
           img.glyphs[i] == Glyph((l.x - l.safety) as real + TotalAdvance(m, fonts.0, fonts.1, text[..i]),
                                  l.y - l.safety, text[i], ChooseFont(m, fonts.0, fonts.1, text[i]), a.textColor)
  {
    var fonts := LoadFonts(fontPath, fallbackPath, a.fontSize, loads).value;
    var textWidth := Trunc(TotalAdvance(m, fonts.0, fonts.1, text));
    var l := Place(textWidth, m.ascent(fonts.0), m.descent(fonts.0), a);
    GlyphRunAt(m, fonts.0, fonts.1, l.x as real, l.y, text, a.textColor);
  }

  /** Without a fallback path the fallback font is the primary font, so no
      character switches font. */
  lemma NoFallbackPathNoSwitch(text: string, fontPath: string, a: RenderArgs, loads: FontLoader, m: Metrics)
    requires Render(text, fontPath, None, a, loads, m).Ok?
    ensures forall g :: g in Render(text, fontPath, None, a, loads, m).value.glyphs ==>
      g.font == Font(fontPath, a.fontSize)
  {
    RenderedGlyphs(text, fontPath, None, a, loads, m);
  }
}
