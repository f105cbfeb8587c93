/** The three JavaScript string-to-number conversions the code uses, restricted
    to plain decimal notation:

    - `Number(s)` (the current schedule parser): the whole trimmed string must be
      a decimal literal; a blank string is 0;
    - `parseInt(s, 10)` (the legacy schedule parser): the longest decimal-digit
      prefix after leading white space and an optional sign;
    - `parseFloat(s)` (the numeric-field utilities): the longest decimal-literal
      prefix after leading white space and an optional sign.

    A JavaScript number is `Finite(v)` with `v` an exact real, or `NaN`. */
module JsNumber {
  import opened Wrappers
  import opened JsText

  datatype Number = Finite(v: real) | NaN

  /** `Number.isInteger`: finite and without a fractional part. */
  predicate IsInteger(x: Number) {
    x.Finite? && x.v.Floor as real == x.v
  }

  /** The ASCII decimal digits, the only characters `\d` matches. */
  predicate IsDigit(c: char) {
    '0' <= c <= '9'
  }

  predicate AllDigits(s: string) {
    forall i :: 0 <= i < |s| ==> IsDigit(s[i])
  }

  function DigitValue(c: char): (d: nat)
    requires IsDigit(c)
    ensures d < 10
  {
    c as int - '0' as int
  }

  function DigitChar(d: nat): (c: char)
    requires d < 10
    ensures IsDigit(c) && DigitValue(c) == d
  {
    ('0' as int + d) as char
  }

  /** The integer a string of decimal digits denotes, most significant first. */
  function DigitsValue(ds: string): nat
    requires AllDigits(ds)
  {
    if ds == [] then 0 else 10 * DigitsValue(ds[..|ds| - 1]) + DigitValue(ds[|ds| - 1])
  }

  /** The value of the digits after a decimal point: always in [0, 1). */
  function FractionValue(ds: string): (f: real)
    requires AllDigits(ds)
    ensures 0.0 <= f < 1.0
  {
    if ds == [] then 0.0 else (DigitValue(ds[0]) as real + FractionValue(ds[1..])) / 10.0
  }

  /** Length of the longest run of digits at the start of `s`. */
  function DigitRun(s: string): (n: nat)
    ensures n <= |s|
    ensures AllDigits(s[..n])
    ensures n == |s| || !IsDigit(s[n])
  {
    if s != [] && IsDigit(s[0]) then
      var n := 1 + DigitRun(s[1..]);
      assert s[..n] == [s[0]] + s[1..][..n - 1];
      n
    else 0
  }

  /** The canonical decimal rendering of a natural number (what `String(n)` and
      template literals print). */
  function NatToString(n: nat): (s: string)
    ensures s != [] && AllDigits(s)
    ensures DigitsValue(s) == n
  {
    if n < 10 then [DigitChar(n)]
    else
      var s := NatToString(n / 10) + [DigitChar(n % 10)];
      assert s[..|s| - 1] == NatToString(n / 10);
      s
  }

  /** The body of a decimal literal after its sign: `digits`, `digits.digits*`
      or `.digits`, covering the whole string. */
  function DecimalLiteral(b: string): Option<real> {
    var n := DigitRun(b);
    if n == |b| then
      if n == 0 then None else Some(DigitsValue(b) as real)
    else if b[n] != '.' then None
    else
      var f := b[n + 1..];
      if !AllDigits(f) || (n == 0 && f == []) then None
      else Some(DigitsValue(b[..n]) as real + FractionValue(f))
  }

  /** `Number(s)`: a blank string is 0; otherwise the trimmed string must be an
      optionally signed decimal literal, else the result is NaN. */
  function ToNumber(s: string): (x: Number)
    ensures IsBlank(s) ==> x == Finite(0.0)
    ensures x.Finite? && !IsBlank(s) ==> exists i :: 0 <= i < |s| && IsDigit(s[i])
  {
    var t := Trim(s);
    if t == [] then Finite(0.0)
    else
      var neg := t[0] == '-';
      var body := if t[0] == '+' || t[0] == '-' then t[1..] else t;
      match DecimalLiteral(body)
      case None => NaN
      case Some(v) =>
        var n := DigitRun(body);
        assert n > 0 ==> body[0] in s;
        assert n == 0 ==> body[1] in s;
        Finite(if neg then -v else v)
  }

  /** `parseInt(s, 10)`: the value of the longest digit prefix after leading
      white space and an optional sign; `None` stands for NaN. */
  function ParseInt(s: string): Option<int> {
    var t := TrimStart(s);
    var neg := t != [] && t[0] == '-';
    var body := if t != [] && (t[0] == '+' || t[0] == '-') then t[1..] else t;
    var n := DigitRun(body);
    if n == 0 then None
    else
      var d: int := DigitsValue(body[..n]);
      Some(if neg then -d else d)
  }

  /** The value of the longest decimal-literal prefix of an unsigned text:
      digits, optionally followed by a point and more digits, with at least one
      digit on either side of the point. */
  function DecimalPrefix(body: string): Option<real> {
    var n := DigitRun(body);
    var rest := body[n..];
    var m := if rest != [] && rest[0] == '.' then DigitRun(rest[1..]) else 0;
    if n == 0 && m == 0 then None
    else Some(DigitsValue(body[..n]) as real + (if m == 0 then 0.0 else FractionValue(rest[1..][..m])))
  }

  /** `parseFloat(s)`: the value of the longest decimal-literal prefix after
      leading white space and an optional sign, or NaN when there is none. */
  function ParseFloat(s: string): Number {
    var t := TrimStart(s);
    var neg := t != [] && t[0] == '-';
    var body := if t != [] && (t[0] == '+' || t[0] == '-') then t[1..] else t;
    match DecimalPrefix(body)
    case None => NaN
    case Some(v) => Finite(if neg then -v else v)
  }

  /** A digit is not white space. */
  lemma DigitIsNotSpace(c: char)
    requires IsDigit(c)
    ensures !IsSpace(c)
  {
  }

  /** A string of digits is its own trim and one whole digit run. */
  lemma DigitsAreTrimmed(s: string)
    requires s != [] && AllDigits(s)
    ensures TrimStart(s) == s && Trim(s) == s
    ensures DigitRun(s) == |s|
  {
    DigitIsNotSpace(s[0]);
    DigitIsNotSpace(s[|s| - 1]);
    TrimOfTrimmed(s);
  }

  /** `Number` reads back the canonical rendering of a natural number. */
  lemma ToNumberOfNatToString(n: nat)
    ensures ToNumber(NatToString(n)) == Finite(n as real)
  {
    var s := NatToString(n);
    DigitsAreTrimmed(s);
    assert DecimalLiteral(s) == Some(n as real);
  }

  /** `parseInt` reads back the canonical rendering of a natural number. */
  lemma ParseIntOfNatToString(n: nat)
    ensures ParseInt(NatToString(n)) == Some(n)
  {
    var s := NatToString(n);
    DigitsAreTrimmed(s);
    assert s[..|s|] == s;
  }

  /** An integral, positive decimal literal is its leading digit run: any
      fractional digits are zeros. */
  lemma IntegralDecimalLiteral(b: string)
    requires DecimalLiteral(b).Some?
    requires DecimalLiteral(b).value.Floor as real == DecimalLiteral(b).value
    requires DecimalLiteral(b).value > 0.0
    ensures DigitRun(b) > 0
    ensures DecimalLiteral(b).value == DigitsValue(b[..DigitRun(b)]) as real
  {
    var n := DigitRun(b);
    if n == |b| {
      assert b[..n] == b;
    } else {
      var d := DigitsValue(b[..n]) as real;
      var f := FractionValue(b[n + 1..]);
      assert DecimalLiteral(b).value == d + f;
      assert (d + f).Floor == d.Floor;
    }
  }

  /** Where `Number` accepts a string as a positive integer, `parseInt` of the
      trimmed string reads the same integer: the two parsers of the schedule
      modules agree on every token the current one accepts. */
  lemma ParseIntAgreesWithNumber(s: string)
    requires '-' !in s
    requires IsInteger(ToNumber(s)) && ToNumber(s).v > 0.0
    ensures ParseInt(Trim(s)) == Some(ToNumber(s).v.Floor)
  {
    var t := Trim(s);
    assert t != [];
    assert !IsSpace(t[0]);
    assert TrimStart(t) == t;
    assert t[0] != '-' by {
      assert t[0] in t;
    }
    var body := if t[0] == '+' then t[1..] else t;
    assert ToNumber(s) == Finite(DecimalLiteral(body).value);
    IntegralDecimalLiteral(body);
  }

  /** The digit run of a text whose first `n` characters are digits and whose
      next one is not. */
  lemma {:induction false} DigitRunAt(s: string, n: nat)
    requires n <= |s| && AllDigits(s[..n]) && (n == |s| || !IsDigit(s[n]))
    ensures DigitRun(s) == n
  {
    if n > 0 {
      assert s[0] == s[..n][0];
      assert s[1..][..n - 1] == s[1..n];
      assert forall i :: 0 <= i < n - 1 ==> s[1..n][i] == s[..n][i + 1];
      DigitRunAt(s[1..], n - 1);
    }
  }
}
