/** The colour helpers of the build scripts (build/utils/color.mjs): parsing a
    CSS-like colour string, its relative luminance and the contrast ratio of
    two colours, after the definitions of "relative luminance" and "contrast
    ratio" in the glossary of WCAG 2.1.

    The three regular expressions of `parseColor` are written out as scanners.
    `Math.pow`, the sRGB gamma curve, is a parameter. */
module Color {
  import opened Wrappers
  import opened JsText
  import opened JsNumber

  /** A parsed colour. Hex input gives components in [0, 255]; `rgb(...)`
      input gives whatever integers it holds, unclamped. */
  datatype Rgb = Rgb(r: nat, g: nat, b: nat)

  predicate IsByte(x: nat) {
    x < 256
  }

  predicate InRange(c: Rgb) {
    IsByte(c.r) && IsByte(c.g) && IsByte(c.b)
  }

  // ----- hexadecimal forms -----

  /** `[a-f\d]` under the `i` flag. */
  predicate IsHex(c: char) {
    '0' <= c <= '9' || 'a' <= c <= 'f' || 'A' <= c <= 'F'
  }

  predicate AllHex(s: string) {
    forall i :: 0 <= i < |s| ==> IsHex(s[i])
  }

  function HexValue(c: char): (d: nat)
    requires IsHex(c)
    ensures d < 16
  {
    if '0' <= c <= '9' then c as int - '0' as int
    else if 'a' <= c <= 'f' then c as int - 'a' as int + 10
    else c as int - 'A' as int + 10
  }

  /** The lower-case digit of a value below 16. */
  function HexChar(d: nat): (c: char)
    requires d < 16
    ensures IsHex(c) && HexValue(c) == d
  {
    if d < 10 then ('0' as int + d) as char else ('a' as int + d - 10) as char
  }

  /** `parseInt(hi + lo, 16)` of two hex digits. */
  function Byte(hi: char, lo: char): (x: nat)
    requires IsHex(hi) && IsHex(lo)
    ensures IsByte(x)
  {
    16 * HexValue(hi) + HexValue(lo)
  }

  /** What the anchored hex patterns see after their optional `#`. */
  function HexBody(color: string): (h: string)
    ensures |h| <= |color|
  {
    if color != [] && color[0] == '#' then color[1..] else color
  }

  /** The strings the six- or three-digit hex pattern matches. */
  predicate IsHexColor(color: string) {
    var h := HexBody(color);
    (|h| == 6 || |h| == 3) && AllHex(h)
  }

  // ----- the rgb()/rgba() pattern -----

  /** `c` matches the letter `lower` under the `i` flag. */
  predicate Letter(c: char, lower: char, upper: char) {
    c == lower || c == upper
  }

  /** The scanners below take the text still to match and return what is
      left after their part of the pattern. */

  /** `\s*`: the text after its leading white space. */
  function SkipSpaces(t: string): (u: string)
    ensures |u| <= |t| && u == t[|t| - |u|..]
    ensures u == [] || !IsSpace(u[0])
  {
    if t != [] && IsSpace(t[0]) then SkipSpaces(t[1..]) else t
  }

  /** A greedy `(\d+)`: its decimal value and the text after it. */
  function Integer(t: string): (r: Option<(nat, string)>)
    ensures r.Some? ==> |r.value.1| < |t|
  {
    var n := DigitRun(t);
    if n == 0 then None else Some((DigitsValue(t[..n]), t[n..]))
  }

  /** `\s*,\s*`. */
  function Comma(t: string): (r: Option<string>)
    ensures r.Some? ==> |r.value| < |t|
  {
    var u := SkipSpaces(t);
    if u != [] && u[0] == ',' then Some(SkipSpaces(u[1..])) else None
  }

  /** `\s*,\s*(\d+)`. */
  function NextInteger(t: string): (r: Option<(nat, string)>)
    ensures r.Some? ==> |r.value.1| < |t|
  {
    match Comma(t)
    case None => None
    case Some(u) => Integer(u)
  }

  /** `(\d+)\s*,\s*(\d+)\s*,\s*(\d+)`. */
  function Triple(t: string): Option<Rgb> {
    match Integer(t)
    case None => None
    case Some((r, t1)) =>
      match NextInteger(t1)
      case None => None
      case Some((g, t2)) =>
        match NextInteger(t2)
        case None => None
        case Some((b, _)) => Some(Rgb(r, g, b))
  }

  /** `rgba?\s*\(\s*(\d+)\s*,\s*(\d+)\s*,\s*(\d+)` matched at the start of
      `t`. No choice the pattern allows can rescue a failed attempt by
      backtracking, so one greedy pass decides the match. */
  function RgbAt(t: string): Option<Rgb> {
    if !(|t| >= 3 && Letter(t[0], 'r', 'R') && Letter(t[1], 'g', 'G') && Letter(t[2], 'b', 'B')) then None
    else
      var u := SkipSpaces(if |t| > 3 && Letter(t[3], 'a', 'A') then t[4..] else t[3..]);
      if !(u != [] && u[0] == '(') then None
      else Triple(SkipSpaces(u[1..]))
  }

  /** The unanchored search: the match at the leftmost position where there
      is one. */
  function FirstRgb(t: string): Option<Rgb> {
    if t == [] then None
    else match RgbAt(t)
      case Some(c) => Some(c)
      case None => FirstRgb(t[1..])
  }

  /** `parseColor`: nothing for the empty string; then the six-digit hex form,
      the three-digit form with each digit doubled, and the first `rgb(`/`rgba(`
      triple anywhere in the text; nothing if none matches. */
  function ParseColor(color: string): (c: Option<Rgb>)
    ensures color == "" ==> c.None?
    ensures IsHexColor(color) ==> c.Some? && InRange(c.value)
    ensures color != "" && !IsHexColor(color) ==> c == FirstRgb(color)
  {
    if color == "" then None
    else
      var h := HexBody(color);
      if |h| == 6 && AllHex(h) then Some(Rgb(Byte(h[0], h[1]), Byte(h[2], h[3]), Byte(h[4], h[5])))
      else if |h| == 3 && AllHex(h) then Some(Rgb(Byte(h[0], h[0]), Byte(h[1], h[1]), Byte(h[2], h[2])))
      else FirstRgb(color)
  }

  // ----- encodings the parser inverts -----

  function HexPair(x: nat): (p: string)
    requires IsByte(x)
    ensures |p| == 2 && AllHex(p) && Byte(p[0], p[1]) == x
  {
    [HexChar(x / 16), HexChar(x % 16)]
  }

  /** `#rrggbb` in lower case. */
  function ToHex(c: Rgb): (s: string)
    requires InRange(c)
    ensures |s| == 7 && s[0] == '#'
  {
    "#" + HexPair(c.r) + HexPair(c.g) + HexPair(c.b)
  }

  /** `rgb(r, g, b` followed by `rest`. */
  function RgbTextWith(c: Rgb, rest: string): string {
    "rgb(" + (NatToString(c.r) + (", " + (NatToString(c.g) + (", " + (NatToString(c.b) + rest)))))
  }

  /** `rgba(r, g, b, alpha)`. */
  function ToRgbaText(c: Rgb, alpha: string): string {
    "rgba(" + (NatToString(c.r) + (", " + (NatToString(c.g) + (", " + (NatToString(c.b) + (", " + (alpha + ")")))))))
  }

  /** `rgb(r, g, b)`. */
  function ToRgbText(c: Rgb): string {
    RgbTextWith(c, ")")
  }

  /** Every colour in range survives `#rrggbb` and back. */
  lemma HexRoundTrip(c: Rgb)
    requires InRange(c)
    ensures ParseColor(ToHex(c)) == Some(c)
  {
    var s := ToHex(c);
    var h := HexBody(s);
    assert h == HexPair(c.r) + HexPair(c.g) + HexPair(c.b);
    assert AllHex(h);
  }

  /** The `#` is optional. */
  lemma HexWithoutHash(c: Rgb)
    requires InRange(c)
    ensures ParseColor(ToHex(c)[1..]) == Some(c)
  {
    var h := ToHex(c)[1..];
    assert h == HexPair(c.r) + HexPair(c.g) + HexPair(c.b);
    assert HexBody(h) == h;
    assert AllHex(h);
  }

  /** A three-digit colour is its six-digit form with every digit doubled. */
  lemma ShortHexDoubles(x: char, y: char, z: char)
    requires IsHex(x) && IsHex(y) && IsHex(z)
    ensures ParseColor(['#', x, y, z]) == ParseColor(['#', x, x, y, y, z, z])
  {
    ShortHexValue(x, y, z);
    LongHexValue(x, x, y, y, z, z);
  }

  /** Each digit of a three-digit colour is read doubled, with or without the
      `#`. */
  lemma ShortHexValue(x: char, y: char, z: char)
    requires IsHex(x) && IsHex(y) && IsHex(z)
    ensures ParseColor(['#', x, y, z]) == Some(Rgb(Byte(x, x), Byte(y, y), Byte(z, z)))
    ensures ParseColor([x, y, z]) == Some(Rgb(Byte(x, x), Byte(y, y), Byte(z, z)))
  {
    var h := HexBody(['#', x, y, z]);
    assert h == [x, y, z];
    assert AllHex(h);
    assert HexBody(h) == h;
  }

  /** Each pair of digits of a six-digit colour, in either case, is one
      component read in base 16, with or without the `#`. */
  lemma LongHexValue(a: char, b: char, c: char, d: char, e: char, f: char)
    requires IsHex(a) && IsHex(b) && IsHex(c) && IsHex(d) && IsHex(e) && IsHex(f)
    ensures ParseColor(['#', a, b, c, d, e, f]) == Some(Rgb(Byte(a, b), Byte(c, d), Byte(e, f)))
    ensures ParseColor([a, b, c, d, e, f]) == Some(Rgb(Byte(a, b), Byte(c, d), Byte(e, f)))
  {
    var h := HexBody(['#', a, b, c, d, e, f]);
    assert h == [a, b, c, d, e, f];
    assert AllHex(h);
    assert HexBody(h) == h;
  }

  /** A mixed-case colour: "#A0b1C2" is (160, 177, 194). */
  lemma MixedCaseExample()
    ensures ParseColor("#A0b1C2") == Some(Rgb(160, 177, 194))
  {
    LongHexValue('A', '0', 'b', '1', 'C', '2');
    assert "#A0b1C2" == ['#', 'A', '0', 'b', '1', 'C', '2'];
  }

  /** `(\d+)` over the digits `ds` when no digit follows them. */
  lemma IntegerOf(ds: string, t: string)
    requires ds != [] && AllDigits(ds) && (t == [] || !IsDigit(t[0]))
    ensures Integer(ds + t) == Some((DigitsValue(ds), t))
  {
    var u := ds + t;
    assert u[..|ds|] == ds && u[|ds|..] == t;
    DigitRunAt(u, |ds|);
  }

  /** `\s*,\s*` over `", "` before a character that is not a space. */
  lemma CommaOf(t: string)
    requires t != [] && !IsSpace(t[0])
    ensures Comma(", " + t) == Some(t)
  {
    var u := ", " + t;
    assert !IsSpace(',');
    assert SkipSpaces(u) == u;
    assert u[1..] == " " + t;
    assert (" " + t)[1..] == t;
    assert SkipSpaces(t) == t;
  }

  /** `\s*,\s*(\d+)` over `", "` and the digits `ds`. */
  lemma NextIntegerOf(ds: string, t: string)
    requires ds != [] && AllDigits(ds) && (t == [] || !IsDigit(t[0]))
    ensures NextInteger(", " + (ds + t)) == Some((DigitsValue(ds), t))
  {
    DigitIsNotSpace(ds[0]);
    CommaOf(ds + t);
    IntegerOf(ds, t);
  }

  /** The three numbers of `r, g, b` followed by a non-digit. */
  lemma TripleOf(c: Rgb, q: string)
    requires q == [] || !IsDigit(q[0])
    ensures Triple(NatToString(c.r) + (", " + (NatToString(c.g) + (", " + (NatToString(c.b) + q))))) == Some(c)
  {
    var t2 := ", " + (NatToString(c.b) + q);
    var t1 := ", " + (NatToString(c.g) + t2);
    IntegerOf(NatToString(c.r), t1);
    NextIntegerOf(NatToString(c.g), t2);
    NextIntegerOf(NatToString(c.b), q);
  }

  /** No match can start inside a prefix without the letter r. */
  lemma {:induction false} SkipNoR(p: string, t: string)
    requires forall m :: 0 <= m < |p| ==> p[m] != 'r' && p[m] != 'R'
    ensures FirstRgb(p + t) == FirstRgb(t)
  {
    if p != [] {
      assert (p + t)[0] == p[0];
      assert RgbAt(p + t).None?;
      assert (p + t)[1..] == p[1..] + t;
      SkipNoR(p[1..], t);
      assert FirstRgb(p + t) == FirstRgb(p[1..] + t);
    } else {
      assert p + t == t;
    }
  }

  /** `rgb(` and no white space after it: the match is the three numbers. */
  lemma RgbOpen(t: string)
    requires |t| >= 4 && t[0] == 'r' && t[1] == 'g' && t[2] == 'b' && t[3] == '('
    requires |t| == 4 || !IsSpace(t[4])
    ensures RgbAt(t) == Triple(t[4..])
  {
    assert !IsSpace('(') && !Letter(t[3], 'a', 'A');
    var u := t[3..];
    assert u[0] == '(';
    assert SkipSpaces(u) == u;
    assert u[1..] == t[4..];
    if |t| > 4 {
      assert t[4..][0] == t[4];
    }
    assert SkipSpaces(t[4..]) == t[4..];
  }

  /** The match at the start of `rgb(r, g, b` followed by anything that is not
      a digit. */
  lemma RgbAtStart(c: Rgb, q: string)
    requires q == [] || !IsDigit(q[0])
    ensures RgbAt(RgbTextWith(c, q)) == Some(c)
  {
    var t1 := NatToString(c.r) + (", " + (NatToString(c.g) + (", " + (NatToString(c.b) + q))));
    var s := RgbTextWith(c, q);
    assert s == "rgb(" + t1;
    assert s[4..] == t1;
    DigitIsNotSpace(NatToString(c.r)[0]);
    RgbOpen(s);
    TripleOf(c, q);
  }

  /** The `rgb(` pattern is found anywhere: after a prefix without the letter
      r, and whatever follows the third number (`)`, or an alpha value). */
  lemma RgbAnywhere(p: string, c: Rgb, q: string)
    requires forall m :: 0 <= m < |p| ==> p[m] != 'r' && p[m] != 'R'
    requires q == [] || !IsDigit(q[0])
    ensures ParseColor(p + RgbTextWith(c, q)) == Some(c)
  {
    var s := p + RgbTextWith(c, q);
    assert s[|p|] == 'r';
    assert !AllHex(HexBody(s)) by {
      if |p| == 0 || p[0] != '#' {
        assert HexBody(s)[|p|] == 'r';
      } else {
        assert HexBody(s)[|p| - 1] == 'r';
      }
    }
    SkipNoR(p, RgbTextWith(c, q));
    RgbAtStart(c, q);
    assert RgbTextWith(c, q) != [];
  }

  /** Every colour survives `rgb(r, g, b)` and back, components above 255
      included. */
  lemma RgbRoundTrip(c: Rgb)
    ensures ParseColor(ToRgbText(c)) == Some(c)
  {
    RgbAnywhere("", c, ")");
    assert "" + RgbTextWith(c, ")") == ToRgbText(c);
  }

  /** `rgba(` and no white space after it. */
  lemma RgbaOpen(t: string)
    requires |t| >= 5 && t[0] == 'r' && t[1] == 'g' && t[2] == 'b' && t[3] == 'a' && t[4] == '('
    requires |t| == 5 || !IsSpace(t[5])
    ensures RgbAt(t) == Triple(t[5..])
  {
    assert !IsSpace('(') && Letter(t[3], 'a', 'A');
    var u := t[4..];
    assert u[0] == '(';
    assert SkipSpaces(u) == u;
    assert u[1..] == t[5..];
    if |t| > 5 {
      assert t[5..][0] == t[5];
    }
    assert SkipSpaces(t[5..]) == t[5..];
  }

  lemma RgbaAtStart(c: Rgb, alpha: string)
    ensures RgbAt(ToRgbaText(c, alpha)) == Some(c)
  {
    var q := ", " + (alpha + ")");
    var t1 := NatToString(c.r) + (", " + (NatToString(c.g) + (", " + (NatToString(c.b) + q))));
    var s := ToRgbaText(c, alpha);
    assert s == "rgba(" + t1;
    assert s[0] == 'r' && s[1] == 'g' && s[2] == 'b' && s[3] == 'a' && s[4] == '(';
    assert s[5..] == t1;
    DigitIsNotSpace(NatToString(c.r)[0]);
    RgbaOpen(s);
    TripleOf(c, q);
  }

  lemma NotHexColor(s: string)
    requires s != [] && s[0] == 'r'
    ensures !IsHexColor(s)
  {
    assert HexBody(s) == s;
    assert !IsHex(s[0]);
  }

  lemma FirstAtStart(s: string, c: Rgb)
    requires s != [] && RgbAt(s) == Some(c)
    ensures FirstRgb(s) == Some(c)
  {
  }

  /** A text starting with `r` is no hex colour, so a match at its start is
      the parse. */
  lemma MatchAtStart(s: string, c: Rgb)
    requires s != [] && s[0] == 'r' && RgbAt(s) == Some(c)
    ensures ParseColor(s) == Some(c)
  {
    NotHexColor(s);
    FirstAtStart(s, c);
  }

  /** The alpha value of `rgba(...)` is ignored, whatever it is. */
  lemma RgbaRoundTrip(c: Rgb, alpha: string)
    ensures ParseColor(ToRgbaText(c, alpha)) == Some(c)
  {
    RgbaAtStart(c, alpha);
    MatchAtStart(ToRgbaText(c, alpha), c);
  }

  lemma ShortHexExample()
    ensures ParseColor("#f00") == Some(Rgb(255, 0, 0))
  {
    assert HexBody("#f00") == "f00";
  }

  // ----- luminance and contrast -----

  /** What the model needs of `Math.pow` at the gamma exponent: it is never
      negative on a positive base. */
  ghost predicate PowNonNegative(pow: (real, real) -> real) {
    forall x :: x > 0.0 ==> pow(x, 2.4) >= 0.0
  }

  /** One channel, linearised: the scaled value divided by 12.92 at or below
      0.03928, the gamma curve above it. */
  function Channel(c: nat, pow: (real, real) -> real): (y: real)
    requires PowNonNegative(pow)
    ensures y >= 0.0
  {
    var x := c as real / 255.0;
    if x <= 0.03928 then x / 12.92 else pow((x + 0.055) / 1.055, 2.4)
  }

  /** `getLuminance`: the weighted sum of the linearised channels. */
  function Luminance(c: Rgb, pow: (real, real) -> real): (l: real)
    requires PowNonNegative(pow)
    ensures l >= 0.0
  {
    0.2126 * Channel(c.r, pow) + 0.7152 * Channel(c.g, pow) + 0.0722 * Channel(c.b, pow)
  }

  /** `isColorDark`: an unparsable colour is never dark; a parsed one is dark
      when its luminance is below one half. */
  function IsColorDark(color: string, pow: (real, real) -> real): (dark: bool)
    requires PowNonNegative(pow)
    ensures ParseColor(color).None? ==> !dark
    ensures ParseColor(color).Some? ==> (dark <==> Luminance(ParseColor(color).value, pow) < 0.5)
  {
    match ParseColor(color)
    case None => false
    case Some(c) => Luminance(c, pow) < 0.5
  }

  function Max(x: real, y: real): real {
    if x >= y then x else y
  }

  function Min(x: real, y: real): real {
    if x <= y then x else y
  }

  /** The contrast ratio of two luminances: the lighter plus 0.05 over the
      darker plus 0.05. */
  function Ratio(l1: real, l2: real): (r: real)
    requires l1 >= 0.0 && l2 >= 0.0
    ensures r >= 1.0
  {
    DivAtLeastOne(Max(l1, l2) + 0.05, Min(l1, l2) + 0.05);
    (Max(l1, l2) + 0.05) / (Min(l1, l2) + 0.05)
  }

  /** WCAG's form: whichever order the two come in, the lighter one's term is
      the numerator. */
  lemma RatioLighterFirst(l1: real, l2: real)
    requires l1 >= 0.0 && l2 >= 0.0
    ensures l1 >= l2 ==> Ratio(l1, l2) == (l1 + 0.05) / (l2 + 0.05)
    ensures l2 >= l1 ==> Ratio(l1, l2) == (l2 + 0.05) / (l1 + 0.05)
  {
  }

  lemma RatioSymmetric(l1: real, l2: real)
    requires l1 >= 0.0 && l2 >= 0.0
    ensures Ratio(l1, l2) == Ratio(l2, l1)
  {
    assert Max(l1, l2) == Max(l2, l1) && Min(l1, l2) == Min(l2, l1);
  }

  lemma RatioSelf(l: real)
    requires l >= 0.0
    ensures Ratio(l, l) == 1.0
  {
    assert Max(l, l) == l && Min(l, l) == l;
    DivSelf(l + 0.05);
  }

  /** `getContrastRatio`: 1 when either colour does not parse. */
  function ContrastRatio(color1: string, color2: string, pow: (real, real) -> real): (r: real)
    requires PowNonNegative(pow)
    ensures r >= 1.0
    ensures ParseColor(color1).None? || ParseColor(color2).None? ==> r == 1.0
    ensures ParseColor(color1).Some? && ParseColor(color2).Some? ==>
              r == Ratio(Luminance(ParseColor(color1).value, pow), Luminance(ParseColor(color2).value, pow))
  {
    match (ParseColor(color1), ParseColor(color2))
    case (Some(c1), Some(c2)) => Ratio(Luminance(c1, pow), Luminance(c2, pow))
    case _ => 1.0
  }

  /** The order of the two colours does not matter. */
  lemma ContrastSymmetric(color1: string, color2: string, pow: (real, real) -> real)
    requires PowNonNegative(pow)
    ensures ContrastRatio(color1, color2, pow) == ContrastRatio(color2, color1, pow)
  {
    var p1, p2 := ParseColor(color1), ParseColor(color2);
    if p1.Some? && p2.Some? {
      RatioSymmetric(Luminance(p1.value, pow), Luminance(p2.value, pow));
    }
  }

  /** A colour has contrast 1 with itself. */
  lemma ContrastIdentical(color: string, pow: (real, real) -> real)
    requires PowNonNegative(pow)
    ensures ContrastRatio(color, color, pow) == 1.0
  {
    var p := ParseColor(color);
    if p.Some? {
      RatioSelf(Luminance(p.value, pow));
    }
  }

  /** With luminances in [0, 1] the ratio is at most 21, the ratio of white to
      black. */
  lemma RatioAtMost21(l1: real, l2: real)
    requires 0.0 <= l1 <= 1.0 && 0.0 <= l2 <= 1.0
    ensures Ratio(l1, l2) <= 21.0
  {
    var d := Min(l1, l2) + 0.05;
    DivMonotone(Max(l1, l2) + 0.05, 21.0 * d, d);
    assert 21.0 * d / d == 21.0;
  }

  lemma DivAtLeastOne(x: real, d: real)
    requires 0.0 < d <= x
    ensures x / d >= 1.0
  {
    DivMonotone(d, x, d);
    DivSelf(d);
  }

  lemma DivSelf(d: real)
    requires d > 0.0
    ensures d / d == 1.0
  {
  }

  lemma DivMonotone(x: real, y: real, d: real)
    requires d > 0.0 && x <= y
    ensures x / d <= y / d
  {
    assert y / d - x / d == (y - x) / d;
  }

  /** Black has luminance 0 and is dark; white has luminance 1 when
      `pow(1, 2.4)` is 1, is not dark, and has contrast 21 with black. */
  lemma BlackAndWhite(pow: (real, real) -> real)
    requires PowNonNegative(pow) && pow(1.0, 2.4) == 1.0
    ensures Luminance(Rgb(0, 0, 0), pow) == 0.0
    ensures Luminance(Rgb(255, 255, 255), pow) == 1.0
    ensures Ratio(1.0, 0.0) == 21.0
  {
    assert Channel(255, pow) == pow(1.0, 2.4);
  }

  lemma BlackAndWhiteColors(pow: (real, real) -> real)
    requires PowNonNegative(pow) && pow(1.0, 2.4) == 1.0
    ensures IsColorDark("#000", pow) && !IsColorDark("#fff", pow)
    ensures ContrastRatio("#fff", "#000", pow) == 21.0
  {
    assert HexBody("#000") == "000";
    assert HexBody("#fff") == "fff";
    assert ParseColor("#000") == Some(Rgb(0, 0, 0));
    assert ParseColor("#fff") == Some(Rgb(255, 255, 255));
    BlackAndWhite(pow);
  }
}
