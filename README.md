# text2image plugin model

A Dafny model of the logic inside `main.py` of the `texttool` text-to-image
plugin. The plugin takes a `texttool generate` command and reads its
`key:value` options and its free-text content. It cuts the content into
tokens by a split mode and resolves a font from the `fonts.json` catalog.
Each token is drawn into its own PNG. The renderer can switch to a second
font for characters the main font cannot show, but the plugin always passes
the main font as that second font. A single image is sent at once. Several images
are queued as one job for a background worker, which sends a zip of them.

Modules, one per concern:

- `Common` (common.dfy): `Option`, `Result` and the errors the plugin raises.
- `PyStr` (pystr.dfy): the Python `str` operations the plugin relies on.
  These are `isspace`, `split()`, `split(sep)`, `splitlines`, `strip`,
  `lstrip`, `" ".join`, `str(n)` and the `03d` format.
- `ParamParser` (params.dfy): `_parse_color`, `_cast` and `_parse_params`.
- `ContentTokenizer` (tokenizer.dfy): `_split_content`.
- `FontResolver` (fonts.dfy): `_resolve_font` and `_can_load_font`.
- `GlyphRenderer` (render.dfy): `draw_text_with_fallback` and `render_text`.
  This covers the per-character font choice, width measurement, option
  binding, placement, the scratch canvas and the crop.
- `TextTool` (plugin.dfy): the plugin class, which holds the bounded queue,
  `generate`, one worker round and `_process_and_send`.

PIL is a parameter of the model. Whether a font file loads at a size is a
predicate `loads`. The bounding-box width, advance, ascent and descent are
functions in a `Metrics` record. Offsets are exact reals, and `int()` is
truncation toward zero (`Trunc`). The wall clock is a parameter `now`.

The model follows the code where a tidier design would differ:

- A colon word whose key is not recognized is skipped, and parsing goes on.
  Colon-free words anywhere in the command become content.
- A colour that does not parse fails the whole command. It is not scoped to
  its own option.
- `line` and `token` tokens are kept untrimmed.
- An empty token list is not refused. It takes the queue path, and the
  worker delivers an empty archive.
- Horizontal placement truncates toward zero. It does not take the floor.
- `geometry` mode centres the box from ascender line to descender line,
  which is `ascent + descent` high.
- `max_chars_per_task` and `max_images_per_task` are read and never checked.
- `_process_and_send` never passes `fallback_font_path`, so the fallback
  font is the main font.
- `default_font_path` is accepted by `render_text` and never read.
- `_process_and_send` resolves "default" a second time. That result is
  never used, but its failure fails the job even when the named font
  resolved.

## Model

| member | source | states |
|---|---|---|
| PyStr.Words | main.py:351 | every piece of `split()` is non-empty and holds no whitespace |
| PyStr.WordsKeepText | main.py:351 | the words hold exactly the non-whitespace characters of the text, in order |
| PyStr.WordsOfJoin | main.py:370 | joining words with single spaces and splitting again gives the same words |
| PyStr.SplitWhere | main.py:387-389 | splitting gives at least one piece and no piece holds a separator |
| PyStr.SplitNoSeparator | main.py:387-389 | a text without a separator splits into itself alone |
| PyStr.SplitAround | main.py:387-389 | the first piece ends at the first separator, and the rest is the split of what follows |
| PyStr.FlattenSplit | main.py:387 | the pieces of a split hold every non-separator character, in order |
| PyStr.JoinSplit | main.py:389 | joining the pieces of `split("\|")` with "\|" gives the text back |
| PyStr.Strip | main.py:207 | `strip()` is the slice left after cutting whitespace-only runs off both ends; it starts and ends with no whitespace and is empty iff the text has no non-whitespace character |
| PyStr.StripKeepsText | main.py:390 | `strip()` removes whitespace only |
| PyStr.StripLeading | main.py:331 | `lstrip(c)` drops exactly the leading run of `c` |
| PyStr.IndexWhere | main.py:355-356 | the index found is the first one where the predicate holds, and None means it holds nowhere |
| PyStr.Decimal | main.py:253 | `str(n)` is a non-empty run of digits with no leading zero, and "0" for zero |
| PyStr.DecimalValue | main.py:253 | the digits of `str(n)` read back as `n` |
| PyStr.ZeroPadded | main.py:262 | the `03d` format is exactly max(width, len(str(n))) characters, all digits |
| PyStr.ZeroPaddedShape | main.py:262 | the padded text ends with `str(n)` and everything before it is '0' |
| PyStr.ZeroPaddedValue | main.py:262 | zero-padded digits read back as the number |
| ParamParser.HexByte | main.py:342-345 | a pair gives a byte exactly when both characters are hex digits |
| ParamParser.ParseColor | main.py:324-346 | leading '#' are all stripped; success iff 6 or 8 hex digits remain; each channel is the value of its pair; 6 digits give alpha 255; otherwise `BadColor` |
| ParamParser.ParseColorRoundTrip | main.py:331-346 | `#RRGGBBAA` text, with any number of extra leading '#', parses back to the colour |
| ParamParser.ParseOpaqueColorRoundTrip | main.py:333-335 | `#RRGGBB` text parses back to the colour with alpha 255 |
| ParamParser.ParseColorWrongLength | main.py:338-339 | any other length after the '#' is an error |
| ParamParser.ParseFloat | main.py:374-376 | `float()` yields a finite value, an infinity or NaN, never an int or string; the lemmas below give its values and the texts it rejects |
| ParamParser.Cast | main.py:373-379 | an int exactly for integer literals, with their value; otherwise the value `float()` gives, when it accepts; else the text itself |
| ParamParser.CastDecimal | main.py:373-376 | `_cast(str(n))` and `_cast("-" + str(n))` give the integer back |
| ParamParser.FloatOfDigits | main.py:374-376 | a literal starting with a digit, with no sign, "+" or "-", is never an infinity or NaN: `float()` reads it as a decimal, negated after "-" |
| ParamParser.FiniteOfFraction | main.py:374-376 | `W.F` with F written in k digits reads as W + F/10^k |
| ParamParser.FiniteOfExponent | main.py:374-376 | `M` and `X` joined by "e" or "E", with no sign, "+" or "-" before `X`, read as M times 10^X, or 10^-X after "-" |
| ParamParser.FloatOfFraction | main.py:374-376 | `float(sign + "W.F")`, for a sign of "", "+" or "-", is ±(W + F/10^k) for a k-digit fraction, negative exactly after "-" |
| ParamParser.FloatOfExponent | main.py:374-376 | `float(sign + "M" + mark + sign2 + "X")`, for signs "", "+" or "-" and a mark "e" or "E", is ±M scaled by 10^±X, each sign negative exactly when written "-" |
| ParamParser.InfinitySpellings | main.py:374-376 | "inf" or "infinity" in any case, with no sign, "+" or "-", reads as the infinity of that sign (negative exactly after "-") |
| ParamParser.NaNSpellings | main.py:374-376 | "nan" in any case, with no sign, "+" or "-", reads as NaN |
| ParamParser.FloatRejects | main.py:374-376 | `float()` rejects a text whose unsigned part holds no digit and spells neither infinity nor NaN |
| ParamParser.FloatAcceptsOnly | main.py:374-376 | whatever `float()` accepts holds a digit after the sign, or spells infinity or NaN |
| ParamParser.MantissaNeedsDigit | main.py:374-376 | a mantissa with no digit is rejected |
| ParamParser.FiniteNeedsDigit | main.py:374-376 | a decimal literal with no digit is rejected |
| ParamParser.CastKeepsText | main.py:373-379 | `_cast` keeps as text a word that holds no digit and spells neither infinity nor NaN |
| ParamParser.LetterWordStaysText | main.py:373-379 | a word of lower-case letters other than "inf", "infinity" and "nan" stays text under `_cast` |
| ParamParser.KeywordStaysText | main.py:373-379 | the option values the plugin compares against ("char", "word", "line", "token", "geometry", "visual") stay text under `_cast` |
| ParamParser.WholeMantissa | main.py:374-376 | a run of digits reads as its decimal value |
| ParamParser.FractionMantissa | main.py:374-376 | digits, a dot and digits read as whole + fraction/10^(fraction digits) |
| ParamParser.FractionFinite | main.py:374-376 | a literal with a fraction and no exponent has that same value |
| ParamParser.SignedExponent | main.py:374-376 | an exponent of digits with no sign, "+" or "-" reads as the digit value, negated exactly after "-" |
| ParamParser.ExponentFinite | main.py:374-376 | digits, "e" or "E", no sign, "+" or "-", and digits read as mantissa × 10^exponent |
| ParamParser.CastFraction | main.py:373-379 | an option written `W.F` after no sign, "+" or "-" is stored as the float ±(W + F/10^k), negative exactly after "-" |
| ParamParser.ColonIndex | main.py:356 | `split(":", 1)` cuts at the first colon |
| ParamParser.Interpret | main.py:362-366 | colour keys go through `_parse_color` and fail only when it fails; every other key stores `_cast` of its value |
| ParamParser.ParseParams | main.py:349-370 | the loop computes the parse result: stored options and content words, or the first colour error |
| ParamParser.ContentIsColonFreeWords | main.py:354-368 | the content is exactly the colon-free words, in order |
| ParamParser.LastDirectiveWins | main.py:354-366 | a key is stored iff it is recognized and some word sets it; it holds the value of the last such word |
| ParamParser.LastSetter | main.py:354-366 | the index found is the last word setting the key, and None means no word does |
| ParamParser.StepKey | main.py:355-366 | one word stores a recognized key it sets with its interpreted value, and leaves every other key as it was |
| ParamParser.ParseFailsOnlyOnColors | main.py:362-364 | parsing fails iff some colour option does not parse |
| ParamParser.StepFails | main.py:362-364 | one word fails exactly when it is a colour option whose value does not parse |
| ParamParser.DirectiveContent | main.py:351-370 | re-splitting the content gives the colon-free words, and no content word holds a colon |
| ParamParser.DirectiveKeysRecognized | main.py:142-153 | only `ALLOWED_PARAMS`, `mode` and `font` are stored |
| ContentTokenizer.CharTokensAreChars | main.py:383 | one single-character token per non-whitespace character |
| ContentTokenizer.CharMode | main.py:383 | `char` yields exactly the non-whitespace characters, one per token, in order |
| ContentTokenizer.WordMode | main.py:385 | `word` yields non-empty whitespace-free words holding every non-whitespace character, which re-split to themselves |
| ContentTokenizer.KeptPieces | main.py:387-389 | kept pieces hold a non-whitespace character and no separator |
| ContentTokenizer.LineMode | main.py:387 | `line` keeps exactly the raw lines holding a non-whitespace character, untrimmed and in order, with no line boundary inside |
| ContentTokenizer.TokenMode | main.py:389 | `token` keeps exactly the raw "\|" pieces holding a non-whitespace character, untrimmed and in order, none holding "\|" |
| ContentTokenizer.OtherMode | main.py:390 | any other mode yields one token, the stripped text, keeping every non-whitespace character |
| FontResolver.ResolveFont | main.py:392-417 | the named entry if usable, else the "default" entry if usable, else `FontUnavailable`; an error exactly when neither is usable |
| FontResolver.ResolvedPathIsCandidate | main.py:403-417 | a resolved path is loadable and is one of the two catalog paths consulted |
| FontResolver.UnknownNameFallsBack | main.py:404-415 | a missing or empty entry resolves to the default without error when the default is usable |
| FontResolver.DefaultResolvesLikeFallback | main.py:256-258 | resolving "default" gives what resolving any unusable name gives |
| GlyphRenderer.ChooseFont | main.py:37-44 | the fallback font exactly when measuring under the main font raises or gives width 0 |
| GlyphRenderer.Trunc | main.py:119 | `int()` truncates toward zero: within one below a non-negative value, within one above a negative one |
| GlyphRenderer.TruncProperties | main.py:119 | truncation is odd, keeps integers and differs from the floor at -0.5 |
| GlyphRenderer.GlyphRun | main.py:35-48 | one glyph per character |
| GlyphRenderer.GlyphRunAt | main.py:35-48 | glyph i is character i, in its chosen font, at the start plus the measured advance of the characters before it |
| GlyphRenderer.DrawMatchesMeasure | main.py:36-48 | consecutive glyphs are one measured advance apart, and the last one ends at the start plus the measured total |
| GlyphRenderer.SingleFontRun | main.py:87 | with the main font as fallback, every glyph uses it |
| GlyphRenderer.Canvas.constructor | main.py:114 | a new scratch canvas of the given size with nothing drawn |
| GlyphRenderer.Canvas.Text | main.py:46 | drawing appends exactly one glyph |
| GlyphRenderer.MeasureTextWidth | main.py:90-103 | the width is the truncated sum of per-character advances under the chosen fonts |
| GlyphRenderer.DrawTextWithFallback | main.py:25-48 | the canvas gains exactly the glyph run of the text |
| GlyphRenderer.IntOption | main.py:54-61 | an integer option binds iff it is absent or an int, to its value or the default |
| GlyphRenderer.RatioOption | main.py:59-60 | a ratio binds iff it is absent or numeric, to its value or 0.5 |
| GlyphRenderer.ColorOption | main.py:62-63 | a colour binds iff it is absent or an RGBA tuple, to it or the default |
| GlyphRenderer.Bind | main.py:50-66 | a key outside the signature gives `UnexpectedArgument` |
| GlyphRenderer.BindAcceptsExactly | main.py:50-66 | binding succeeds iff every option has a kind the call completes with |
| GlyphRenderer.BindValues | main.py:50-66 | each bound option is the value given or the signature's default |
| GlyphRenderer.BindDefaults | main.py:54-63 | no options give the defaults 48, 128, None, 72, visual, 0.5, 0.5, 0, opaque black, transparent |
| GlyphRenderer.Place | main.py:109-133 | the crop box has exactly the nominal size and sits `2*font_size` in from every scratch edge |
| GlyphRenderer.ScaledTruncBetween | main.py:119 | a truncated share of a space of either sign lies between 0 and the space |
| GlyphRenderer.DefaultCanvasWidth | main.py:109-110 | an absent width is text width plus twice the padding |
| GlyphRenderer.HorizontalPlacement | main.py:118-119 | for a ratio in [0, 1], x is in [s, s+cw-tw] when the text fits, and in [s+cw-tw, s] when it does not |
| GlyphRenderer.CentredWithinOnePixel | main.py:118-119 | at ratio 0.5 the space left and right of the text differ by at most one pixel |
| GlyphRenderer.PaddedOnBothSides | main.py:109-119 | with no width and ratio 0.5 the text is exactly `padding` from both edges |
| GlyphRenderer.GeometryPlacement | main.py:120-122 | `geometry` places the ascent+descent box inside the canvas for a ratio in [0, 1], provided the box fits the canvas height (ascent + descent <= canvas_height) |
| GlyphRenderer.VisualPlacement | main.py:123-125 | other modes put the baseline at row `trunc(ch*ratio)`, inside the canvas for a ratio in [0, 1] |
| GlyphRenderer.LoadFonts | main.py:71-87 | loaded fonts load at the size; the main font is the given path when that loads, else the fallback path (retry); without a fallback path both fonts are the main font, or `FontLoadFailed`; with one, success iff it loads and it is the fallback |
| GlyphRenderer.RenderText | main.py:50-134 | the method computes the render result: fonts, measured width, placement, drawn and cropped glyphs |
| GlyphRenderer.RenderFails | main.py:71-87 | rendering fails exactly on a font load failure or a negative canvas size |
| GlyphRenderer.RenderedGlyphs | main.py:105-133 | the image has the nominal size and DPI, records the colour the final canvas is created with, and holds one glyph per character at the text origin plus the preceding advances, with the margin cancelled |
| GlyphRenderer.NoFallbackPathNoSwitch | main.py:87 | without a fallback path every glyph is in the main font |
| TextTool.ImageNameIndex | main.py:262 | an image name is folder, "_", at least three characters, all ASCII digits, reading back as the index, then ".png" |
| TextTool.ImageNamesDistinct | main.py:262 | distinct indices give distinct image names |
| TextTool.RenderTokensOutputs | main.py:260-270 | the loop succeeds iff every token renders, giving one image per token in order, named by index |
| TextTool.RenderTokensSucceed | main.py:260-270 | the per-token loop returns its outputs exactly when no token's render fails |
| TextTool.RenderTokensValues | main.py:260-270 | when the loop succeeds, output i is token i's image under the name ImageName(folder, i) |
| TextTool.RenderTokensErrPersists | main.py:261-269 | the first failing token fails the whole job with its error |
| TextTool.RenderEach | main.py:260-270 | the loop over the tokens computes the images the specification of the loop gives, stopping at the first failure |
| TextTool.ProcessJobDelivers | main.py:250-281 | a finished job sends one image per token under distinct names, as a single file iff there is one token; image i is token i rendered with the resolved font and the options left after popping "font" |
| TextTool.OutputNamesDistinct | main.py:262 | outputs named by their position never share a name |
| TextTool.Deliver | main.py:272-281 | one image is sent as a single file, any other number as an archive, carrying exactly the images made |
| TextTool.DefaultMustResolve | main.py:256-258 | an unusable "default" fails the job even when the named font resolves |
| TextTool.EmptyJobSendsEmptyArchive | main.py:260-281 | a job without tokens sends an empty archive once the fonts resolve |
| TextTool.Admit | main.py:221-231 | one token runs inline; a full queue rejects; otherwise the job goes to the back, with a load in (0, 1] |
| TextTool.AdmitKeepsBound | main.py:226-230 | admission never grows the queue past `max_task` |
| TextTool.AdmitAllFillsToCapacity | main.py:226-230 | multi-image jobs fill the queue in arrival order up to `max_task`; later ones are refused |
| TextTool.CommandText | main.py:207-210 | the message is stripped, and when it then starts with "texttool generate" that prefix is cut and the rest stripped again; the result has no whitespace at either end (the two cases are stated by `CommandTextCases`) |
| TextTool.CommandTextCases | main.py:207-210 | with the prefix after stripping, the command text is the rest after the prefix, stripped again; without it, the stripped message itself |
| TextTool.NumericModeKeepsWhole | main.py:217-218 | a non-string mode keeps the whole stripped content |
| TextTool.JobOptionsAreRenderOptions | main.py:216-217 | once `mode` and `font` are popped, only `render_text` keywords are left |
| TextTool.SubmitOnlyAppends | main.py:205-231 | `generate` keeps the queue bounded and changes it only by appending its job, exactly when it replies "queued" |
| TextTool.DispatchOnlyAppends | main.py:221-230 | admitting a built job keeps the queue bounded and appends the job exactly when the reply is "queued" |
| TextTool.NoTokensAreQueued | main.py:218-230 | content that splits into no tokens is queued, not refused |
| TextTool.TextTool.constructor | main.py:156-170 | limits default to 20, 20000 and 1000, and the queue starts empty |
| TextTool.TextTool.ProcessAndSend | main.py:250-284 | the method computes the job's result |
| TextTool.TextTool.Generate | main.py:205-231 | the new queue and the reply are those of `Submit`, and the queue stays bounded |
| TextTool.TextTool.DispatchJob | main.py:220-231 | once the job is built, the new queue and the reply are those of `Dispatch`: run at once for one token, refused when full, else appended; the queue stays bounded |
| TextTool.TextTool.TakeJob | main.py:242 | the worker takes the front job, and the rest stay in order |
| TextTool.TextTool.WorkerStep | main.py:240-247 | one worker round takes the front job and gives that job's result |

## Left out

- PIL is outside the model. Font loading, `textbbox`, `textlength` and `getmetrics` are parameters. Pixels, hinting, clipping at the crop edge and how `paste` combines the crop with the background are not modelled.
- `textlength` raising is not modelled. The source does not catch it.
- The PNG file, its DPI tag and `output_path` are left out. `RenderText` returns the image as a value that records its DPI.
- asyncio is left out. There is no concurrency between inline runs and the worker. A blocking `queue.get()` on an empty queue is `None`. The worker's endless loop is left out; `WorkerStep` is one round of it.
- Sending replies, `event.send` failures and the logger are left out. A reply is a value.
- Filesystem work is left out: `mkdir`, `rmtree`, the zip file and its name from `with_suffix(".zip")`, and `initialize`.
- Reading `fonts.json` is left out. The catalog is a string-to-string map, so a broken file is an empty map and a non-string entry is not modelled.
- `JoinPath` models only Python path joining where an absolute part replaces the base. There is no normalisation.
- The folder name is `uid_ts`. A sender id containing "/" (where `folder.name` would differ) is not modelled.
- The `font_list` and `task` commands are left out; they are plain I/O.
- `send_chain` is left out because it lacks `self`.
- `_process` is left out because it is never called, and its `render_text` call would fail.
- Floating point is left out. Ratios and advances are exact reals, with no rounding and no overflow to infinity.
- The configuration limits are integers. `int()` of another config value is not modelled.
- ParseColor: a pair with a sign ("+f", "-f"), which `int(x, 16)` accepts, is an error here. So is a pair of non-ASCII Unicode decimal digits (fullwidth "１２", say), which `int(x, 16)` reads as the matching ASCII digits. Only ASCII hex-digit pairs parse.
- HexByte: only two ASCII hex digits are a byte. The signed pairs and the non-ASCII Unicode decimal digits that `int(x, 16)` also accepts give None.
- Cast: only ASCII digits are read. Python's `int()`/`float()` also accept other Unicode decimal digits, and `int()` refuses over 4300 digits. Float literals are exact reals, with no rounding.
- Bind: every option's kind is checked when the options are bound, before any font is loaded or canvas built. The source finds an unusable option only where it first uses it: `font_size` when loading a font, `padding` and the sizes when building the scratch canvas, the ratios in placement, and the colours when drawing and building the final canvas. So when a font also fails to load, or a size is negative, the source raises that error and the model returns `BadArgument` instead. For example, `font:<unloadable> x_offset_ratio:abc` is a font-load error in the source but `BadArgument("x_offset_ratio")` here.
- Bind: when several options are unusable, the error reported is that of the first in a fixed order, not Python's evaluation order. The option kinds Pillow and the arithmetic reject are summarised as `BadArgument`.
- Bind: a `padding` given together with `canvas_width` is never read, so it is bound as 0.
- RenderedGlyphs: the image records the colour the final canvas is created with, but `paste` without a mask replaces every pixel of that canvas with the crop, so in the saved file that colour never shows. Pixels are not modelled.
- The error messages' texts are left out. Errors are the `Error` cases.
