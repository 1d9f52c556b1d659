/** The directive grammar of the `generate` command: `_parse_color`,
    `_cast` and `_parse_params` (main.py:324-379). */
module ParamParser {
  import opened Common
  import opened PyStr

  type Byte = x: int | 0 <= x < 256

  datatype Rgba = Rgba(r: Byte, g: Byte, b: Byte, a: Byte)

  /** A parsed option value. `_cast` yields Python `int`, `float` or `str`;
      a float is either finite (kept exactly), infinite or NaN. Colour
      options hold the RGBA tuple `_parse_color` returns. */
  datatype Value =
    | IntVal(i: int)
    | FloatVal(x: real)
    | FloatInf(negative: bool)
    | FloatNaN
    | StrVal(s: string)
    | ColorVal(c: Rgba)

  /** The layout options `render_text` accepts (`ALLOWED_PARAMS`). */
  const AllowedParams: set<string> := {
    "font_size", "canvas_height", "canvas_width", "dpi", "center_mode",
    "x_offset_ratio", "y_offset_ratio", "padding", "text_color", "bg_color"
  }

  /** A key `_parse_params` stores: an allowed option, or `mode` or `font`. */
  predicate IsRecognized(k: string) {
    k in AllowedParams || k == "mode" || k == "font"
  }

  predicate IsColorKey(k: string) {
    k == "text_color" || k == "bg_color"
  }

  // ---------------------------------------------------------------- colours

  function HexDigitValue(c: char): Option<nat> {
    if '0' <= c <= '9' then Some(c as int - '0' as int)
    else if 'a' <= c <= 'f' then Some(c as int - 'a' as int + 10)
    else if 'A' <= c <= 'F' then Some(c as int - 'A' as int + 10)
    else None
  }

  /** `int(pair, 16)` for a two-character string of hex digits. */
  function HexByte(pair: string): (r: Option<Byte>)
    requires |pair| == 2
    ensures r.Some? <==> HexDigitValue(pair[0]).Some? && HexDigitValue(pair[1]).Some?
  {
    match (HexDigitValue(pair[0]), HexDigitValue(pair[1]))
    case (Some(hi), Some(lo)) =>
      assert hi < 16 && lo < 16;
      Some(16 * hi + lo)
    case _ => None
  }

  predicate IsHexDigits(v: string) {
    forall i :: 0 <= i < |v| ==> HexDigitValue(v[i]).Some?
  }

  /** `_parse_color`: every leading '#' is dropped; six hex digits give an
      opaque colour, eight take the alpha from the last pair; anything else
      is an error. */
  function ParseColor(value: string): (r: Result<Rgba>)
    ensures r.Ok? <==> var v := StripLeading(value, '#'); (|v| == 6 || |v| == 8) && IsHexDigits(v)
    ensures r.Ok? ==>
      var v := StripLeading(value, '#');
      && Some(r.value.r) == HexByte(v[0..2])
      && Some(r.value.g) == HexByte(v[2..4])
      && Some(r.value.b) == HexByte(v[4..6])
      && r.value.a == (if |v| == 6 then 255 else HexByte(v[6..8]).value)
    ensures r.Err? ==> r.error == BadColor(value)
  {
    var v := StripLeading(value, '#');
    if |v| == 6 || |v| == 8 then
      var red, green, blue := HexByte(v[0..2]), HexByte(v[2..4]), HexByte(v[4..6]);
      var alpha := if |v| == 8 then HexByte(v[6..8]) else Some(255);
      assert IsHexDigits(v) <==> red.Some? && green.Some? && blue.Some? && alpha.Some? by {
        assert v[0..2][0] == v[0] && v[0..2][1] == v[1];
        assert v[2..4][0] == v[2] && v[2..4][1] == v[3];
        assert v[4..6][0] == v[4] && v[4..6][1] == v[5];
        if |v| == 8 {
          assert v[6..8][0] == v[6] && v[6..8][1] == v[7];
        }
      }
      if red.Some? && green.Some? && blue.Some? && alpha.Some? then
        Ok(Rgba(red.value, green.value, blue.value, alpha.value))
      else Err(BadColor(value))
    else Err(BadColor(value))
  }

  function HexDigitChar(d: nat): (c: char)
    requires d < 16
    ensures HexDigitValue(c) == Some(d)
  {
    if d < 10 then ('0' as int + d) as char else ('A' as int + d - 10) as char
  }

  function HexPair(b: Byte): (pair: string)
    ensures |pair| == 2 && HexByte(pair) == Some(b) && IsHexDigits(pair)
  {
    [HexDigitChar(b / 16), HexDigitChar(b % 16)]
  }

  /** `#RRGGBBAA`, upper-case. */
  function FormatColor(c: Rgba): string {
    "#" + HexPair(c.r) + HexPair(c.g) + HexPair(c.b) + HexPair(c.a)
  }

  /** `#RRGGBB`, upper-case; meaningful for an opaque colour. */
  function FormatOpaqueColor(c: Rgba): string {
    "#" + HexPair(c.r) + HexPair(c.g) + HexPair(c.b)
  }

  lemma HexDigitsAppend(a: string, b: string)
    requires IsHexDigits(a) && IsHexDigits(b)
    ensures IsHexDigits(a + b)
  {
    assert forall i :: |a| <= i < |a + b| ==> (a + b)[i] == b[i - |a|];
  }

  /** A colour whose hex pairs follow the '#'s reads back as that colour. */
  lemma ParseColorOfPairs(value: string, c: Rgba)
    requires StripLeading(value, '#') == HexPair(c.r) + HexPair(c.g) + HexPair(c.b) + HexPair(c.a)
    ensures ParseColor(value) == Ok(c)
  {
    var rg := HexPair(c.r) + HexPair(c.g);
    var rgb := rg + HexPair(c.b);
    var v := rgb + HexPair(c.a);
    HexDigitsAppend(HexPair(c.r), HexPair(c.g));
    HexDigitsAppend(rg, HexPair(c.b));
    HexDigitsAppend(rgb, HexPair(c.a));
    assert v[0..2] == HexPair(c.r) && v[2..4] == HexPair(c.g);
    assert v[4..6] == HexPair(c.b) && v[6..8] == HexPair(c.a);
  }

  lemma ParseOpaqueColorOfPairs(value: string, c: Rgba)
    requires StripLeading(value, '#') == HexPair(c.r) + HexPair(c.g) + HexPair(c.b)
    ensures ParseColor(value) == Ok(c.(a := 255))
  {
    var rg := HexPair(c.r) + HexPair(c.g);
    var v := rg + HexPair(c.b);
    HexDigitsAppend(HexPair(c.r), HexPair(c.g));
    HexDigitsAppend(rg, HexPair(c.b));
    assert v[0..2] == HexPair(c.r) && v[2..4] == HexPair(c.g) && v[4..6] == HexPair(c.b);
  }

  /** Reading back a colour formatted as `#RRGGBBAA`, behind any number of
      extra '#', gives the colour. */
  lemma ParseColorRoundTrip(c: Rgba, extraHashes: nat)
    ensures ParseColor(Repeat('#', extraHashes) + FormatColor(c)) == Ok(c)
  {
    var v := HexPair(c.r) + HexPair(c.g) + HexPair(c.b) + HexPair(c.a);
    assert FormatColor(c) == "#" + v;
    RepeatGrows('#', extraHashes);
    SeqAssoc(Repeat('#', extraHashes), "#", v);
    StripHashes(extraHashes + 1, v);
    ParseColorOfPairs(Repeat('#', extraHashes) + FormatColor(c), c);
  }

  /** Reading back `#RRGGBB` gives the colour, opaque. */
  lemma ParseOpaqueColorRoundTrip(c: Rgba, extraHashes: nat)
    ensures ParseColor(Repeat('#', extraHashes) + FormatOpaqueColor(c)) == Ok(c.(a := 255))
  {
    var v := HexPair(c.r) + HexPair(c.g) + HexPair(c.b);
    assert FormatOpaqueColor(c) == "#" + v;
    RepeatGrows('#', extraHashes);
    SeqAssoc(Repeat('#', extraHashes), "#", v);
    StripHashes(extraHashes + 1, v);
    ParseOpaqueColorOfPairs(Repeat('#', extraHashes) + FormatOpaqueColor(c), c);
  }

  /** Solver aid: regrouping a concatenation. */
  lemma SeqAssoc(a: string, b: string, c: string)
    ensures a + (b + c) == (a + b) + c
  {
  }

  lemma StripHashes(k: nat, v: string)
    requires v == [] || v[0] != '#'
    ensures StripLeading(Repeat('#', k) + v, '#') == v
  {
    var s := Repeat('#', k) + v;
    assert s[k..] == v;
  }

  /** Any length other than 6 or 8 after the '#'s is a format error. */
  lemma ParseColorWrongLength(value: string)
    requires |StripLeading(value, '#')| != 6 && |StripLeading(value, '#')| != 8
    ensures ParseColor(value) == Err(BadColor(value))
  {
  }

  // ---------------------------------------------------------------- numbers

  /** Python's digit group `digit (["_"] digit)*`, which `int()` and
      `float()` accept. */
  predicate IsDigitPart(s: string)
    decreases |s|
  {
    && |s| > 0
    && IsDigit(s[0])
    && (|s| == 1 || IsDigitPart(s[1..]) || (|s| > 2 && IsUnderscore(s[1]) && IsDigitPart(s[2..])))
  }

  lemma {:induction false} DigitPartChars(s: string)
    requires IsDigitPart(s)
    ensures AllDigitsOrUnderscores(s)
    decreases |s|
  {
    if |s| > 1 {
      if IsDigitPart(s[1..]) {
        DigitPartChars(s[1..]);
        assert forall i :: 1 <= i < |s| ==> s[i] == s[1..][i - 1];
      } else {
        DigitPartChars(s[2..]);
        assert forall i :: 2 <= i < |s| ==> s[i] == s[2..][i - 2];
      }
    }
  }

  lemma {:induction false} DigitsArePart(s: string)
    requires |s| > 0 && forall i :: 0 <= i < |s| ==> IsDigit(s[i])
    ensures IsDigitPart(s)
    decreases |s|
  {
    if |s| > 1 {
      DigitsArePart(s[1..]);
    }
  }

  function GroupValue(s: string): nat
    requires IsDigitPart(s)
  {
    DigitPartChars(s);
    DigitsValue(s)
  }

  /** The number of digits of a digit group (its underscores not counted). */
  function DigitCount(s: string): nat {
    |Erase(s, IsUnderscore)|
  }

  /** `10^e`; the bound is what the divisions by it need. */
  function Pow10(e: nat): (p: nat)
    ensures p >= 1
  {
    if e == 0 then 1 else 10 * Pow10(e - 1)
  }

  /** `w.f` where `f` is written in `k` digits: `w + f / 10^k`. */
  function DecimalReal(w: nat, f: nat, k: nat): real {
    w as real + f as real / Pow10(k) as real
  }

  function Scale(e: int): real {
    if e >= 0 then Pow10(e) as real else 1.0 / Pow10(-e) as real
  }

  /** `x` times `10^e`. */
  function Scaled(x: real, e: int): real {
    x * Scale(e)
  }

  datatype Signed = Signed(negative: bool, body: string)

  function SplitSign(s: string): Signed {
    if |s| > 0 && (s[0] == '+' || s[0] == '-') then Signed(s[0] == '-', s[1..])
    else Signed(false, s)
  }

  /** What `int(v)` accepts here (no whitespace can occur in a word). */
  predicate IsIntLiteral(v: string) {
    IsDigitPart(SplitSign(v).body)
  }

  function IntLiteralValue(v: string): int
    requires IsIntLiteral(v)
  {
    var sg := SplitSign(v);
    if sg.negative then -(GroupValue(sg.body) as int) else GroupValue(sg.body)
  }

  predicate IsDot(c: char) { c == '.' }

  predicate IsExponentMark(c: char) { c == 'e' || c == 'E' }

  /** `digitpart ["." [digitpart]] | "." digitpart`, as a real. */
  function ParseMantissa(m: string): Option<real> {
    match IndexWhere(m, IsDot)
    case None =>
      if IsDigitPart(m) then Some(GroupValue(m) as real) else None
    case Some(d) =>
      var whole, frac := m[..d], m[d + 1..];
      if (whole == [] && frac == []) || (whole != [] && !IsDigitPart(whole))
         || (frac != [] && !IsDigitPart(frac))
      then None
      else
        var w := if whole == [] then 0 else GroupValue(whole);
        var f := if frac == [] then 0 else GroupValue(frac);
        Some(DecimalReal(w, f, DigitCount(frac)))
  }

  /** `[sign] digitpart` after the exponent mark. */
  function ParseExponent(e: string): Option<int> {
    var sg := SplitSign(e);
    if IsDigitPart(sg.body) then
      Some(if sg.negative then -(GroupValue(sg.body) as int) else GroupValue(sg.body))
    else None
  }

  /** The sign written before a number: none, "+" or "-". */
  datatype SignMark = Unsigned | Plus | Minus

  function SignText(sign: SignMark): string {
    match sign
    case Unsigned => ""
    case Plus => "+"
    case Minus => "-"
  }

  function Negated(negative: bool, x: real): real {
    if negative then -x else x
  }

  /** The mantissa text and the exponent of an unsigned decimal literal,
      cut at the first exponent mark. */
  function SplitExponent(body: string): (string, Option<int>) {
    match IndexWhere(body, IsExponentMark)
    case None => (body, Some(0))
    case Some(i) => (body[..i], ParseExponent(body[i + 1..]))
  }

  /** An unsigned decimal literal with optional exponent, as a real. */
  function ParseFinite(body: string): Option<real> {
    match (ParseMantissa(SplitExponent(body).0), SplitExponent(body).1)
    case (Some(x), Some(e)) => Some(Scaled(x, e))
    case _ => None
  }

  /** What `float(v)` accepts: a signed decimal with optional exponent, or
      "inf", "infinity", "nan" in any case. */
  function ParseFloat(v: string): (r: Option<Value>)
    ensures r.Some? ==> r.value.FloatVal? || r.value.FloatInf? || r.value.FloatNaN?
  {
    var sg := SplitSign(v);
    var lower := LowerAscii(sg.body);
    if lower == "inf" || lower == "infinity" then Some(FloatInf(sg.negative))
    else if lower == "nan" then Some(FloatNaN)
    else match ParseFinite(sg.body)
      case Some(x) => Some(FloatVal(Negated(sg.negative, x)))
      case None => None
  }

  /** `_cast`: `int(v)` if that succeeds, else `float(v)`, else `v` itself. */
  function Cast(v: string): (r: Value)
    ensures r.IntVal? <==> IsIntLiteral(v)
    ensures r.IntVal? ==> r.i == IntLiteralValue(v)
    ensures r.StrVal? <==> !IsIntLiteral(v) && ParseFloat(v).None?
    ensures r.StrVal? ==> r.s == v
    ensures !r.IntVal? && !r.StrVal? ==> ParseFloat(v) == Some(r)
    ensures !r.ColorVal?
  {
    if IsIntLiteral(v) then IntVal(IntLiteralValue(v))
    else match ParseFloat(v)
      case Some(x) => x
      case None => StrVal(v)
  }

  /** `_cast(str(n))` and `_cast("-" + str(n))` give the integer back. */
  lemma CastDecimal(n: nat)
    ensures Cast(Decimal(n)) == IntVal(n)
    ensures Cast("-" + Decimal(n)) == IntVal(-(n as int))
  {
    var d := Decimal(n);
    DigitsArePart(d);
    DecimalValue(n);
    assert SplitSign(d).body == d;
    assert ("-" + d)[1..] == d;
    assert SplitSign("-" + d) == Signed(true, d);
  }

  /** A sign, then a text not starting with one: the sign is split off. */
  lemma SplitSignOf(sign: SignMark, body: string)
    requires |body| > 0 && body[0] != '+' && body[0] != '-'
    ensures SplitSign(SignText(sign) + body) == Signed(sign.Minus?, body)
  {
    if sign != Unsigned {
      assert (SignText(sign) + body)[1..] == body;
    }
  }

  /** A text that starts with a digit is none of the spellings of infinity
      and NaN. */
  lemma NotSpecial(body: string)
    requires |body| > 0 && IsDigit(body[0])
    ensures var lower := LowerAscii(body);
      lower != "inf" && lower != "infinity" && lower != "nan"
  {
    assert LowerAscii(body)[0] == body[0];
  }

  /** The first `c` in `a + [c] + b` when `a` holds none. */
  lemma FirstMark(a: string, c: char, b: string, p: char -> bool)
    requires p(c) && forall i :: 0 <= i < |a| ==> !p(a[i])
    ensures IndexWhere(a + [c] + b, p) == Some(|a|)
  {
    var s := a + [c] + b;
    assert s[|a|] == c;
    assert forall i :: 0 <= i < |a| ==> s[i] == a[i];
  }

  /** No character of `a + [c] + b` satisfies `p` when none of its parts does. */
  lemma NoMarkAround(a: string, c: char, b: string, p: char -> bool)
    requires !p(c) && (forall i :: 0 <= i < |a| ==> !p(a[i])) && forall i :: 0 <= i < |b| ==> !p(b[i])
    ensures IndexWhere(a + [c] + b, p) == None
  {
    var s := a + [c] + b;
    forall i | 0 <= i < |s|
      ensures !p(s[i])
    {
      if i < |a| {
        assert s[i] == a[i];
      } else if i > |a| {
        assert s[i] == b[i - |a| - 1];
      }
    }
  }

  /** A run of digits read as a digit group: its value and its length. */
  lemma DigitsGroup(d: string)
    requires |d| > 0 && forall i :: 0 <= i < |d| ==> IsDigit(d[i])
    ensures IsDigitPart(d)
    ensures GroupValue(d) == DigitsValue(d)
    ensures DigitCount(d) == |d|
  {
    DigitsArePart(d);
    EraseNoneDropped(d, IsUnderscore);
  }

  /** A run of digits is a mantissa without a fraction. */
  lemma WholeMantissa(d: string)
    requires |d| > 0 && forall i :: 0 <= i < |d| ==> IsDigit(d[i])
    ensures ParseMantissa(d) == Some(DigitsValue(d) as real)
  {
    assert IndexWhere(d, IsDot) == None;
    DigitsGroup(d);
  }

  /** The mantissa `W.F` read from two runs of digits. */
  lemma FractionMantissa(whole: string, frac: string)
    requires |whole| > 0 && forall i :: 0 <= i < |whole| ==> IsDigit(whole[i])
    requires |frac| > 0 && forall i :: 0 <= i < |frac| ==> IsDigit(frac[i])
    ensures ParseMantissa(whole + "." + frac)
      == Some(DecimalReal(DigitsValue(whole), DigitsValue(frac), |frac|))
  {
    var body := whole + "." + frac;
    FirstMark(whole, '.', frac, IsDot);
    assert body[..|whole|] == whole && body[|whole| + 1..] == frac;
    DigitsGroup(whole);
    DigitsGroup(frac);
  }

  /** Without an exponent mark the literal is its mantissa. */
  lemma FiniteWithoutExponent(body: string)
    requires IndexWhere(body, IsExponentMark) == None
    ensures ParseFinite(body) == ParseMantissa(body)
  {
    assert SplitExponent(body) == (body, Some(0));
    assert Scale(0) == 1.0;
  }

  /** `float()` of a fraction written as two runs of digits. */
  lemma FractionFinite(whole: string, frac: string)
    requires |whole| > 0 && forall i :: 0 <= i < |whole| ==> IsDigit(whole[i])
    requires |frac| > 0 && forall i :: 0 <= i < |frac| ==> IsDigit(frac[i])
    ensures ParseFinite(whole + "." + frac)
      == Some(DecimalReal(DigitsValue(whole), DigitsValue(frac), |frac|))
  {
    NoMarkAround(whole, '.', frac, IsExponentMark);
    FiniteWithoutExponent(whole + "." + frac);
    FractionMantissa(whole, frac);
  }

  /** A mantissa, an exponent mark and a signed run of digits are cut at the
      mark, and the exponent read with its sign. */
  lemma ExponentSplit(mantissa: string, mark: char, expSign: SignMark, digits: string)
    requires IsExponentMark(mark)
    requires |mantissa| > 0 && forall i :: 0 <= i < |mantissa| ==> IsDigit(mantissa[i])
    requires |digits| > 0 && forall i :: 0 <= i < |digits| ==> IsDigit(digits[i])
    ensures SplitExponent(mantissa + [mark] + (SignText(expSign) + digits))
      == (mantissa, Some(if expSign.Minus? then -(DigitsValue(digits) as int) else DigitsValue(digits)))
  {
    var exponent := SignText(expSign) + digits;
    var body := mantissa + [mark] + exponent;
    FirstMark(mantissa, mark, exponent, IsExponentMark);
    assert body[..|mantissa|] == mantissa && body[|mantissa| + 1..] == exponent;
    SignedExponent(expSign, digits);
  }

  /** A signed run of digits after the mark is the exponent with its sign. */
  lemma SignedExponent(sign: SignMark, digits: string)
    requires |digits| > 0 && forall i :: 0 <= i < |digits| ==> IsDigit(digits[i])
    ensures ParseExponent(SignText(sign) + digits)
      == Some(if sign.Minus? then -(DigitsValue(digits) as int) else DigitsValue(digits))
  {
    SplitSignOf(sign, digits);
    DigitsGroup(digits);
    var magnitude := GroupValue(digits);
    assert ParseExponent(SignText(sign) + digits)
      == Some(if sign.Minus? then -(magnitude as int) else magnitude);
  }

  /** `float()` of a mantissa and an exponent written as runs of digits. */
  lemma ExponentFinite(mantissa: string, mark: char, expSign: SignMark, digits: string)
    requires IsExponentMark(mark)
    requires |mantissa| > 0 && forall i :: 0 <= i < |mantissa| ==> IsDigit(mantissa[i])
    requires |digits| > 0 && forall i :: 0 <= i < |digits| ==> IsDigit(digits[i])
    ensures ParseFinite(mantissa + [mark] + (SignText(expSign) + digits))
      == Some(Scaled(DigitsValue(mantissa) as real,
                     if expSign.Minus? then -(DigitsValue(digits) as int) else DigitsValue(digits)))
  {
    ExponentSplit(mantissa, mark, expSign, digits);
    WholeMantissa(mantissa);
  }

  /** A signed literal that starts with a digit is read by `ParseFinite`. */
  lemma FloatOfDigits(sign: SignMark, body: string)
    requires |body| > 0 && IsDigit(body[0])
    ensures ParseFloat(SignText(sign) + body)
      == match ParseFinite(body)
         case Some(x) => Some(FloatVal(Negated(sign.Minus?, x)))
         case None => None
  {
    SplitSignOf(sign, body);
    NotSpecial(body);
  }

  /** `W.F` with the fraction written in `k` digits is `W + F / 10^k`. */
  lemma FiniteOfFraction(w: nat, f: nat, k: nat)
    requires |Decimal(f)| <= k
    ensures ParseFinite(Decimal(w) + "." + ZeroPadded(f, k)) == Some(DecimalReal(w, f, k))
  {
    var whole, frac := Decimal(w), ZeroPadded(f, k);
    assert |frac| == k;
    FractionFinite(whole, frac);
    DecimalValue(w);
    ZeroPaddedValue(f, k);
  }

  /** `M (e|E) [+|-]X` is `M` scaled by `10^X` or `10^-X`. */
  lemma FiniteOfExponent(m: nat, mark: char, expSign: SignMark, x: nat)
    requires IsExponentMark(mark)
    ensures ParseFinite(Decimal(m) + [mark] + (SignText(expSign) + Decimal(x)))
      == Some(Scaled(m as real, if expSign.Minus? then -(x as int) else x))
  {
    ExponentFinite(Decimal(m), mark, expSign, Decimal(x));
    DecimalValue(m);
    DecimalValue(x);
  }

  /** `float("[+|-]W.F")` with the fraction written in `k` digits is
      `±(W + F / 10^k)`. */
  lemma FloatOfFraction(sign: SignMark, w: nat, f: nat, k: nat)
    requires |Decimal(f)| <= k
    ensures ParseFloat(SignText(sign) + (Decimal(w) + "." + ZeroPadded(f, k)))
      == Some(FloatVal(Negated(sign.Minus?, DecimalReal(w, f, k))))
  {
    FloatOfDigits(sign, Decimal(w) + "." + ZeroPadded(f, k));
    FiniteOfFraction(w, f, k);
  }

  /** `float("[+|-]M (e|E) [+|-]X")` is `±M` scaled by `10^X` or `10^-X`. */
  lemma FloatOfExponent(sign: SignMark, m: nat, mark: char, expSign: SignMark, x: nat)
    requires IsExponentMark(mark)
    ensures ParseFloat(SignText(sign) + (Decimal(m) + [mark] + (SignText(expSign) + Decimal(x))))
      == Some(FloatVal(Negated(sign.Minus?, Scaled(m as real, if expSign.Minus? then -(x as int) else x))))
  {
    FloatOfDigits(sign, Decimal(m) + [mark] + (SignText(expSign) + Decimal(x)));
    FiniteOfExponent(m, mark, expSign, x);
  }

  /** A text with a '.' is no integer literal. */
  lemma DotIsNoInt(v: string, i: nat)
    requires i < |v| && v[i] == '.'
    ensures !IsIntLiteral(v)
  {
    var body := SplitSign(v).body;
    assert body == v || body == v[1..];
    assert '.' in body;
    if IsDigitPart(body) {
      DigitPartChars(body);
    }
  }

  /** An option written `[+|-]W.F` is stored as that float by `_cast`: it is
      no integer literal, so `float()` reads it. */
  lemma CastFraction(sign: SignMark, w: nat, f: nat, k: nat)
    requires |Decimal(f)| <= k
    ensures Cast(SignText(sign) + (Decimal(w) + "." + ZeroPadded(f, k)))
      == FloatVal(Negated(sign.Minus?, DecimalReal(w, f, k)))
  {
    var v := SignText(sign) + (Decimal(w) + "." + ZeroPadded(f, k));
    assert v[|SignText(sign)| + |Decimal(w)|] == '.';
    DotIsNoInt(v, |SignText(sign)| + |Decimal(w)|);
    FloatOfFraction(sign, w, f, k);
  }

  /** Any casing of "inf" or "infinity", after an optional "+" or "-", is
      that infinity. */
  lemma InfinitySpellings(sign: SignMark, body: string)
    requires LowerAscii(body) == "inf" || LowerAscii(body) == "infinity"
    ensures ParseFloat(SignText(sign) + body) == Some(FloatInf(sign.Minus?))
  {
    assert LowerAscii(body)[0] == 'i';
    SplitSignOf(sign, body);
  }

  /** Any casing of "nan", after an optional "+" or "-", is NaN. */
  lemma NaNSpellings(sign: SignMark, body: string)
    requires LowerAscii(body) == "nan"
    ensures ParseFloat(SignText(sign) + body) == Some(FloatNaN)
  {
    assert LowerAscii(body)[0] == 'n';
    SplitSignOf(sign, body);
  }

  /** The text holds an ASCII digit. */
  predicate HasDigit(s: string) {
    exists i :: 0 <= i < |s| && IsDigit(s[i])
  }

  /** The spellings of infinity and NaN that `float()` accepts, in any case. */
  predicate IsSpecialSpelling(body: string) {
    var lower := LowerAscii(body);
    lower == "inf" || lower == "infinity" || lower == "nan"
  }

  /** A mantissa without a digit is rejected: every digit group it would
      need starts with a digit. */
  lemma MantissaNeedsDigit(m: string)
    requires !HasDigit(m)
    ensures ParseMantissa(m) == None
  {
    match IndexWhere(m, IsDot)
    case None =>
      assert m != [] ==> !IsDigit(m[0]);
    case Some(d) =>
      var whole, frac := m[..d], m[d + 1..];
      assert whole != [] ==> whole[0] == m[0];
      assert frac != [] ==> frac[0] == m[d + 1];
  }

  /** A literal without a digit is rejected: its mantissa holds none. */
  lemma FiniteNeedsDigit(body: string)
    requires !HasDigit(body)
    ensures ParseFinite(body) == None
  {
    var mantissa := SplitExponent(body).0;
    assert forall i :: 0 <= i < |mantissa| ==> mantissa[i] == body[i];
    MantissaNeedsDigit(mantissa);
  }

  /** `float()` rejects a text whose unsigned part holds no digit and is no
      spelling of infinity or NaN. */
  lemma FloatRejects(v: string)
    requires !HasDigit(SplitSign(v).body) && !IsSpecialSpelling(SplitSign(v).body)
    ensures ParseFloat(v) == None
  {
    FiniteNeedsDigit(SplitSign(v).body);
  }

  /** What `float()` accepts holds a digit or spells infinity or NaN. */
  lemma FloatAcceptsOnly(v: string)
    ensures ParseFloat(v).Some? ==> HasDigit(SplitSign(v).body) || IsSpecialSpelling(SplitSign(v).body)
  {
    if !HasDigit(SplitSign(v).body) && !IsSpecialSpelling(SplitSign(v).body) {
      FloatRejects(v);
    }
  }

  /** `_cast` keeps a word as text when it holds no digit and spells
      neither infinity nor NaN: neither `int()` nor `float()` accepts it. */
  lemma CastKeepsText(v: string)
    requires !HasDigit(SplitSign(v).body) && !IsSpecialSpelling(SplitSign(v).body)
    ensures Cast(v) == StrVal(v)
  {
    var body := SplitSign(v).body;
    assert body != [] ==> !IsDigit(body[0]);
    FloatRejects(v);
  }

  /** A word of lower-case letters other than "inf", "infinity" and "nan"
      stays text. */
  lemma LetterWordStaysText(v: string)
    requires |v| > 0 && forall i :: 0 <= i < |v| ==> 'a' <= v[i] <= 'z'
    requires v != "inf" && v != "infinity" && v != "nan"
    ensures Cast(v) == StrVal(v)
  {
    assert SplitSign(v).body == v;
    assert LowerAscii(v) == v;
    CastKeepsText(v);
  }

  /** The mode and centring names the plugin compares against stay text. */
  lemma KeywordStaysText(v: string)
    requires v in ["char", "word", "line", "token", "geometry", "visual"]
    ensures Cast(v) == StrVal(v)
  {
    LetterWordStaysText(v);
  }

  // ---------------------------------------------------------------- directives

  predicate IsColon(c: char) { c == ':' }

  /** A word without ':' is content; a word with one is a directive. */
  predicate IsContentWord(w: string) {
    ':' !in w
  }

  function ColonIndex(w: string): (i: nat)
    requires ':' in w
    ensures i < |w| && w[i] == ':' && ':' !in w[..i]
  {
    var r := IndexWhere(w, IsColon);
    assert r.Some?;
    r.value
  }

  /** `w.split(":", 1)[0]` */
  function KeyOf(w: string): string
    requires ':' in w
  {
    w[..ColonIndex(w)]
  }

  /** `w.split(":", 1)[1]` */
  function ValueOf(w: string): string
    requires ':' in w
  {
    w[ColonIndex(w) + 1..]
  }

  /** The value a recognized key stores: colours through `_parse_color`,
      everything else through `_cast`. */
  function Interpret(k: string, v: string): (r: Result<Value>)
    ensures r.Err? <==> IsColorKey(k) && ParseColor(v).Err?
    ensures r.Ok? && IsColorKey(k) ==> r.value == ColorVal(ParseColor(v).value)
    ensures !IsColorKey(k) ==> r == Ok(Cast(v))
  {
    if IsColorKey(k) then
      match ParseColor(v)
      case Ok(c) => Ok(ColorVal(c))
      case Err(e) => Err(e)
    else Ok(Cast(v))
  }

  datatype Parsed = Parsed(params: map<string, Value>, content: seq<string>)

  /** One iteration of the loop of `_parse_params`. */
  function Step(acc: Parsed, w: string): Result<Parsed> {
    if IsContentWord(w) then Ok(acc.(content := acc.content + [w]))
    else
      var k := KeyOf(w);
      if !IsRecognized(k) then Ok(acc)
      else match Interpret(k, ValueOf(w))
        case Err(e) => Err(e)
        case Ok(x) => Ok(acc.(params := acc.params[k := x]))
  }

  /** The loop of `_parse_params` over the words `ws`, left to right; the
      first colour that does not parse aborts it. */
  function ParseWords(ws: seq<string>): Result<Parsed>
    decreases |ws|
  {
    if ws == [] then Ok(Parsed(map[], []))
    else match ParseWords(ws[..|ws| - 1])
      case Err(e) => Err(e)
      case Ok(acc) => Step(acc, ws[|ws| - 1])
  }

  datatype Directive = Directive(params: map<string, Value>, content: string)

  /** `_parse_params(text)`: the options and the content words joined with
      single spaces. */
  function ParseDirective(text: string): Result<Directive> {
    match ParseWords(Words(text))
    case Err(e) => Err(e)
    case Ok(p) => Ok(Directive(p.params, JoinWith(p.content, " ")))
  }

  lemma {:induction false} ParseWordsErrPersists(ws: seq<string>, j: nat)
    requires j <= |ws| && ParseWords(ws[..j]).Err?
    ensures ParseWords(ws) == ParseWords(ws[..j])
    decreases |ws| - j
  {
    if j < |ws| {
      assert ws[..j + 1][..j] == ws[..j];
      ParseWordsErrPersists(ws, j + 1);
    } else {
      assert ws[..j] == ws;
    }
  }

  /** `_parse_params` as the source writes it: a loop that fills a dict and a
      list, then joins the list. */
  method ParseParams(text: string) returns (r: Result<Directive>)
    ensures r == ParseDirective(text)
  {
    var parts := Words(text);
    var params: map<string, Value> := map[];
    var contentParts: seq<string> := [];
    for i := 0 to |parts|
      invariant ParseWords(parts[..i]) == Ok(Parsed(params, contentParts))
    {
      var p := parts[i];
      assert parts[..i + 1][..i] == parts[..i];
      var colon := IndexWhere(p, IsColon);
      if colon.Some? {
        assert ColonIndex(p) == colon.value;
        var k, v := p[..colon.value], p[colon.value + 1..];
        if !IsRecognized(k) {
          continue;
        }
        if IsColorKey(k) {
          var c := ParseColor(v);
          if c.Err? {
            ParseWordsErrPersists(parts, i + 1);
            return Err(c.error);
          }
          params := params[k := ColorVal(c.value)];
        } else {
          params := params[k := Cast(v)];
        }
      } else {
        contentParts := contentParts + [p];
      }
    }
    assert parts[..|parts|] == parts;
    r := Ok(Directive(params, JoinWith(contentParts, " ")));
  }

  // ---------------------------------------------------------------- properties

  /** The content is exactly the colon-free words, in their original order. */
  lemma {:induction false} ContentIsColonFreeWords(ws: seq<string>)
    requires ParseWords(ws).Ok?
    ensures ParseWords(ws).value.content == Filter(IsContentWord, ws)
    decreases |ws|
  {
    if ws != [] {
      var n := |ws| - 1;
      ContentIsColonFreeWords(ws[..n]);
      assert ws == ws[..n] + [ws[n]];
      FilterAppend(IsContentWord, ws[..n], [ws[n]]);
    }
  }

  /** Does `w` set option `k`? */
  predicate SetsKey(w: string, k: string) {
    ':' in w && KeyOf(w) == k
  }

  /** The index of the last word that sets `k`. */
  function LastSetter(ws: seq<string>, k: string): (r: Option<nat>)
    ensures r.Some? ==>
      && r.value < |ws| && SetsKey(ws[r.value], k)
      && forall j :: r.value < j < |ws| ==> !SetsKey(ws[j], k)
    ensures r.None? ==> forall j :: 0 <= j < |ws| ==> !SetsKey(ws[j], k)
    decreases |ws|
  {
    if ws == [] then None
    else if SetsKey(ws[|ws| - 1], k) then Some(|ws| - 1)
    else LastSetter(ws[..|ws| - 1], k)
  }

  /** Key side of `_parse_params`: a key is stored exactly when it is
      recognized and some word sets it, and then it holds the value of the
      LAST such word; every other word leaves the options alone. */
  lemma {:induction false} LastDirectiveWins(ws: seq<string>, k: string)
    requires ParseWords(ws).Ok?
    ensures var p := ParseWords(ws).value.params;
      k in p <==> IsRecognized(k) && LastSetter(ws, k).Some?
    ensures var p := ParseWords(ws).value.params;
      k in p ==> Interpret(k, ValueOf(ws[LastSetter(ws, k).value])) == Ok(p[k])
    decreases |ws|
  {
    if ws != [] {
      var n := |ws| - 1;
      var w, front := ws[n], ws[..n];
      var previous := ParseWords(front);
      assert previous.Ok? && ParseWords(ws) == Step(previous.value, w);
      LastDirectiveWins(front, k);
      StepKey(previous.value, w, k);
      if !SetsKey(w, k) {
        assert LastSetter(ws, k) == LastSetter(front, k);
        if LastSetter(front, k).Some? {
          assert front[LastSetter(front, k).value] == ws[LastSetter(ws, k).value];
        }
      }
    }
  }

  /** One word of the loop: a word that sets a recognized `k` stores its
      interpreted value; any other word leaves `k` alone. */
  lemma StepKey(acc: Parsed, w: string, k: string)
    requires Step(acc, w).Ok?
    ensures var p := Step(acc, w).value.params;
      SetsKey(w, k) && IsRecognized(k) ==> k in p && Interpret(k, ValueOf(w)) == Ok(p[k])
    ensures var p := Step(acc, w).value.params;
      !(SetsKey(w, k) && IsRecognized(k)) ==> (k in p <==> k in acc.params) && (k in p ==> p[k] == acc.params[k])
  {
  }

  /** Parsing fails exactly when some colour option does not parse. */
  lemma {:induction false} ParseFailsOnlyOnColors(ws: seq<string>)
    ensures ParseWords(ws).Ok? <==> forall i :: 0 <= i < |ws| ==> !IsBadColorWord(ws[i])
    decreases |ws|
  {
    if ws != [] {
      var n := |ws| - 1;
      var w, front := ws[n], ws[..n];
      ParseFailsOnlyOnColors(front);
      var previous := ParseWords(front);
      if previous.Err? {
        var i :| 0 <= i < n && IsBadColorWord(front[i]);
        assert front[i] == ws[i];
      } else {
        assert ParseWords(ws) == Step(previous.value, w);
        StepFails(previous.value, w);
        forall i | 0 <= i < n
          ensures !IsBadColorWord(ws[i])
        {
          assert front[i] == ws[i];
        }
      }
    }
  }

  /** A colour option whose value `_parse_color` rejects. */
  predicate IsBadColorWord(w: string) {
    ':' in w && IsColorKey(KeyOf(w)) && ParseColor(ValueOf(w)).Err?
  }

  /** One word of the loop fails exactly when it is a colour option whose
      value does not parse. */
  lemma StepFails(acc: Parsed, w: string)
    ensures Step(acc, w).Err? <==> IsBadColorWord(w)
  {
  }

  /** What the `generate` command sees of the content: re-splitting it gives
      exactly the colon-free words of the command, and it holds no word with
      a colon. */
  lemma DirectiveContent(text: string)
    requires ParseDirective(text).Ok?
    ensures Words(ParseDirective(text).value.content) == Filter(IsContentWord, Words(text))
    ensures forall w :: w in Words(ParseDirective(text).value.content) ==> ':' !in w
  {
    var ws := Words(text);
    ContentIsColonFreeWords(ws);
    var content := Filter(IsContentWord, ws);
    assert forall i :: 0 <= i < |content| ==> content[i] in ws;
    WordsOfJoin(content);
  }

  /** The options `_parse_params` returns use recognized keys only. */
  lemma DirectiveKeysRecognized(text: string)
    requires ParseDirective(text).Ok?
    ensures forall k :: k in ParseDirective(text).value.params ==> IsRecognized(k)
  {
    var ws := Words(text);
    forall k | k in ParseDirective(text).value.params ensures IsRecognized(k) {
      LastDirectiveWins(ws, k);
    }
  }
}
