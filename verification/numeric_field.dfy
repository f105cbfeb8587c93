/** Masked numeric input fields (src/scripts/utils/numeric-field.ts): reading a
    Brazilian-formatted number, parsing a field with its `required` and default
    options, and the validation message a field gets.

    An input element is a record of its text value, its id and its attributes;
    `getAttribute` is a map lookup that is absent for a missing attribute. */
module NumericField {
  import opened Wrappers
  import opened JsText
  import opened JsNumber

  datatype Field = Field(value: string, id: string, attributes: map<string, string>)

  /** `ParseNumericFieldOptions`; a missing `required` is `false`. */
  datatype Options = Options(required: bool, defaultValue: Option<real>)

  /** The characters `NUMERIC_PATTERN` looks for: a digit, a comma or a period. */
  predicate IsNumericChar(c: char) {
    IsDigit(c) || c == ',' || c == '.'
  }

  predicate HasNumericChar(s: string) {
    exists i :: 0 <= i < |s| && IsNumericChar(s[i])
  }

  /** The digits of a string, in order. */
  function Digits(s: string): (ds: string)
    ensures AllDigits(ds)
  {
    if s == [] then [] else (if IsDigit(s[0]) then [s[0]] else []) + Digits(s[1..])
  }

  /** The rewriting of `parseBrazilianNumber` before `parseFloat`: with both a
      comma and a period the periods are thousands separators and go, and the
      commas become decimal points; with a comma only, it becomes a decimal
      point; without a comma the text is left alone. */
  function Normalize(value: string): (r: string)
    ensures ',' !in r
    ensures ',' !in value ==> r == value
    ensures ',' in value && '.' !in value ==>
              |r| == |value| && forall i :: 0 <= i < |value| ==> r[i] == (if value[i] == ',' then '.' else value[i])
    ensures ',' in value && '.' in value ==>
              forall c :: c in r <==> (c in value && c != ',' && c != '.') || c == '.'
    ensures ',' in value && '.' in value ==> |r| == |value| - Count(value, '.')
  {
    if ',' in value then
      if '.' in value then ReplaceAll(RemoveAll(value, '.'), ',', '.')
      else ReplaceAll(value, ',', '.')
    else value
  }

  /** `parseBrazilianNumber`: a text without a comma is read by `parseFloat`
      as it stands, and a number only ever comes from a text with a digit. */
  function ParseBrazilianNumber(value: string): (r: Number)
    ensures ',' !in value ==> r == ParseFloat(value)
    ensures r.Finite? ==> exists i :: 0 <= i < |value| && IsDigit(value[i])
  {
    NormalizedHasDigit(value);
    ParseFloat(Normalize(value))
  }

  /** What a non-empty field reads as: NaN when it has no digit, comma or
      period at all, otherwise its Brazilian reading; a field that reads as a
      number has a digit. */
  function Reading(value: string): (r: Number)
    ensures !HasNumericChar(value) ==> r.NaN?
    ensures HasNumericChar(value) ==> r == ParseBrazilianNumber(value)
    ensures r.Finite? ==> exists i :: 0 <= i < |value| && IsDigit(value[i])
  {
    if HasNumericChar(value) then ParseBrazilianNumber(value) else NaN
  }

  /** `parseNumericField`: `Ok(None)` is `null`, `Err` the thrown error. An empty
      field gives the default when there is one; otherwise a required field is
      an error and an optional one is `null`. A non-empty field always gives a
      number. */
  function ParseNumericField(field: Field, options: Options): (r: Result<Option<Number>>)
    ensures r.Err? <==> field.value == "" && options.required && options.defaultValue.None?
    ensures r.Err? ==> r.msg == "Campo '" + field.id + "' é obrigatório"
    ensures field.value == "" && options.defaultValue.Some? ==> r == Ok(Some(Finite(options.defaultValue.value)))
    ensures field.value == "" && !options.required && options.defaultValue.None? ==> r == Ok(None)
    ensures field.value != "" ==> r.Ok? && r.value.Some?
    ensures field.value != "" && !HasNumericChar(field.value) ==> r == Ok(Some(NaN))
    ensures field.value != "" && HasNumericChar(field.value) ==> r == Ok(Some(ParseBrazilianNumber(field.value)))
  {
    if field.value == "" then
      if options.required then
        if options.defaultValue.Some? then Ok(Some(Finite(options.defaultValue.value)))
        else Err("Campo '" + field.id + "' é obrigatório")
      else
        Ok(if options.defaultValue.Some? then Some(Finite(options.defaultValue.value)) else None)
    else if !HasNumericChar(field.value) then Ok(Some(NaN))
    else Ok(Some(ParseBrazilianNumber(field.value)))
  }

  /** A `min`/`max` bound: none when the attribute is missing or empty, else its
      `parseFloat` reading (which may be NaN). */
  function Bound(field: Field, name: string): Option<Number> {
    if name in field.attributes && field.attributes[name] != "" then Some(ParseFloat(field.attributes[name]))
    else None
  }

  predicate IsRequired(field: Field) {
    "required" in field.attributes
  }

  /** `value < min` for a bound that is a number; a NaN bound compares false. */
  predicate Below(x: real, b: Option<Number>) {
    b.Some? && b.value.Finite? && x < b.value.v
  }

  predicate Above(x: real, b: Option<Number>) {
    b.Some? && b.value.Finite? && x > b.value.v
  }

  /** `validateMaskedNumericField`: the one custom-validity message the field
      ends with, checked in this order: empty, not a number, below the minimum,
      above the maximum; the empty message means valid. */
  function ValidateMaskedNumericField(field: Field): (msg: string)
    ensures field.value == "" ==> msg == (if IsRequired(field) then "Campo obrigatório" else "")
    ensures field.value != "" && Reading(field.value).NaN? ==> msg == "Valor inválido"
    ensures field.value != "" && Reading(field.value).Finite? ==>
              var x := Reading(field.value).v;
              msg == (if Below(x, Bound(field, "min")) then "Valor abaixo do mínimo"
                      else if Above(x, Bound(field, "max")) then "Valor acima do máximo"
                      else "")
  {
    var min := Bound(field, "min");
    var max := Bound(field, "max");
    var required := IsRequired(field);
    match ParseNumericField(field, Options(required, None))
    case Err(_) => if required then "Campo obrigatório" else ""
    case Ok(None) => if required then "Campo obrigatório" else ""
    case Ok(Some(NaN)) => "Valor inválido"
    case Ok(Some(Finite(x))) =>
      if Below(x, min) then "Valor abaixo do mínimo"
      else if Above(x, max) then "Valor acima do máximo"
      else ""
  }

  // ----- Normalisation keeps the digits -----

  lemma {:induction false} RemoveAllDigits(s: string, c: char)
    requires !IsDigit(c)
    ensures Digits(RemoveAll(s, c)) == Digits(s)
  {
    if s != [] {
      RemoveAllDigits(s[1..], c);
      DigitsAppend(if s[0] == c then [] else [s[0]], RemoveAll(s[1..], c));
    }
  }

  lemma {:induction false} ReplaceAllDigits(s: string, a: char, b: char)
    requires !IsDigit(a) && !IsDigit(b)
    ensures Digits(ReplaceAll(s, a, b)) == Digits(s)
  {
    if s != [] {
      ReplaceAllDigits(s[1..], a, b);
      DigitsAppend([if s[0] == a then b else s[0]], ReplaceAll(s[1..], a, b));
    }
  }

  lemma {:induction false} DigitsAppend(s: string, t: string)
    ensures Digits(s + t) == Digits(s) + Digits(t)
  {
    if s == [] {
      assert s + t == t;
    } else {
      assert (s + t)[1..] == s[1..] + t;
      DigitsAppend(s[1..], t);
    }
  }

  /** Normalisation keeps every digit, in its original order, and drops no
      other digit in. */
  lemma NormalizeKeepsDigits(value: string)
    ensures Digits(Normalize(value)) == Digits(value)
  {
    if ',' in value {
      if '.' in value {
        RemoveAllDigits(value, '.');
        ReplaceAllDigits(RemoveAll(value, '.'), ',', '.');
      } else {
        ReplaceAllDigits(value, ',', '.');
      }
    }
  }

  lemma {:induction false} CountReplace(s: string, a: char, b: char)
    requires a != b
    ensures Count(ReplaceAll(s, a, b), b) == Count(s, a) + Count(s, b)
  {
    if s != [] {
      CountReplace(s[1..], a, b);
      CountAppend([if s[0] == a then b else s[0]], ReplaceAll(s[1..], a, b), b);
    }
  }

  lemma {:induction false} CountRemove(s: string, c: char, d: char)
    requires c != d
    ensures Count(RemoveAll(s, c), d) == Count(s, d)
  {
    if s != [] {
      CountRemove(s[1..], c, d);
      CountAppend(if s[0] == c then [] else [s[0]], RemoveAll(s[1..], c), d);
    }
  }

  lemma {:induction false} CountAppend(s: string, t: string, c: char)
    ensures Count(s + t, c) == Count(s, c) + Count(t, c)
  {
    if s == [] {
      assert s + t == t;
    } else {
      assert (s + t)[1..] == s[1..] + t;
      CountAppend(s[1..], t, c);
    }
  }

  /** With a comma present, the decimal points of the normalised text are
      exactly the input's commas, plus its periods when there was no period
      to drop as a thousands separator. */
  lemma NormalizeDecimalPoints(value: string)
    requires ',' in value
    ensures '.' in value ==> Count(Normalize(value), '.') == Count(value, ',')
    ensures '.' !in value ==> Count(Normalize(value), '.') == Count(value, ',') + Count(value, '.')
  {
    if '.' in value {
      CountReplace(RemoveAll(value, '.'), ',', '.');
      CountRemove(value, '.', ',');
      CountRemoveSelf(value, '.');
    } else {
      CountReplace(value, ',', '.');
    }
  }

  lemma {:induction false} CountRemoveSelf(s: string, c: char)
    ensures Count(RemoveAll(s, c), c) == 0
  {
    if s != [] {
      CountRemoveSelf(s[1..], c);
      CountAppend(if s[0] == c then [] else [s[0]], RemoveAll(s[1..], c), c);
    }
  }

  /** With both a comma and a period, the text reads as it would with its
      periods deleted first: they are thousands separators. */
  lemma NormalizeDropsPeriods(value: string)
    requires ',' in value && '.' in value
    ensures ',' in RemoveAll(value, '.') && '.' !in RemoveAll(value, '.')
    ensures Normalize(value) == Normalize(RemoveAll(value, '.'))
  {
  }

  // ----- What the readings mean -----

  lemma {:induction false} DigitsEmpty(s: string)
    ensures Digits(s) == [] <==> forall i :: 0 <= i < |s| ==> !IsDigit(s[i])
  {
    if s != [] {
      DigitsEmpty(s[1..]);
      assert forall i :: 1 <= i < |s| ==> s[1..][i - 1] == s[i];
    }
  }

  /** `parseFloat` yields a number only from a text with a digit in it. */
  lemma ParseFloatNeedsDigit(s: string)
    requires ParseFloat(s).Finite?
    ensures exists i :: 0 <= i < |s| && IsDigit(s[i])
  {
    var t := TrimStart(s);
    TrimStartSuffix(s);
    var body := if t != [] && (t[0] == '+' || t[0] == '-') then t[1..] else t;
    var n := DigitRun(body);
    assert DecimalPrefix(body).Some?;
    if n > 0 {
      assert body[0] in s;
    } else {
      assert body[n..][1..][0] == body[1];
      assert body[1] in s;
    }
  }

  /** A normalised text `parseFloat` reads as a number came from a text with a
      digit in it. */
  lemma NormalizedHasDigit(value: string)
    ensures ParseFloat(Normalize(value)).Finite? ==> exists i :: 0 <= i < |value| && IsDigit(value[i])
  {
    var r := Normalize(value);
    if ParseFloat(r).Finite? {
      ParseFloatNeedsDigit(r);
      var i :| 0 <= i < |r| && IsDigit(r[i]);
      DigitsEmpty(r);
      NormalizeKeepsDigits(value);
      DigitsEmpty(value);
    }
  }

  /** The decimal prefix of `digits.digits` is the whole text. */
  lemma DecimalPrefixDigits(s: string, n: nat, a: string, b: string)
    requires 0 < n < |s| && s[n] == '.' && s[..n] == a && s[n + 1..] == b && AllDigits(a) && AllDigits(b)
    ensures DecimalPrefix(s) == Some(DigitsValue(a) as real + FractionValue(b))
  {
    DigitRunAt(s, n);
    DigitsAreTrimmedRun(b);
    DecimalPrefixAt(s, n);
  }

  /** A text starting with a digit is read by `parseFloat` as its decimal
      prefix: nothing to trim and no sign. */
  lemma UnsignedParseFloat(s: string, v: real)
    requires s != [] && IsDigit(s[0]) && DecimalPrefix(s) == Some(v)
    ensures ParseFloat(s) == Finite(v)
  {
    DigitIsNotSpace(s[0]);
    assert TrimStart(s) == s;
  }

  /** The decimal prefix of `digits.digits` where the fraction runs to the end. */
  lemma DecimalPrefixAt(s: string, n: nat)
    requires 0 < n < |s| && s[n] == '.' && DigitRun(s) == n
    requires DigitRun(s[n + 1..]) == |s| - n - 1
    ensures DecimalPrefix(s) == Some(DigitsValue(s[..n]) as real + FractionValue(s[n + 1..]))
  {
    var f := s[n..][1..];
    assert f == s[n + 1..];
    assert f[..|f|] == f;
    if f == [] {
      assert FractionValue(f) == 0.0;
    }
  }

  lemma DigitsAreTrimmedRun(b: string)
    requires AllDigits(b)
    ensures DigitRun(b) == |b|
  {
    if b != [] {
      DigitsAreTrimmed(b);
    }
  }

  /** A plain run of digits reads as the integer it denotes. */
  lemma ParseFloatDigits(a: string)
    requires a != [] && AllDigits(a)
    ensures ParseFloat(a) == Finite(DigitsValue(a) as real)
  {
    DigitsAreTrimmed(a);
    assert a[..|a|] == a;
  }

  /** The decimal comma: `digits,digits`, the comma at position `n`, reads as
      the integer part plus the fraction. */
  lemma {:induction false} DecimalComma(s: string, n: nat)
    requires 0 < n < |s| && s[n] == ',' && AllDigits(s[..n]) && AllDigits(s[n + 1..])
    ensures ParseBrazilianNumber(s) == Finite(DigitsValue(s[..n]) as real + FractionValue(s[n + 1..]))
  {
    CommaAsPoint(s, n);
    PointDecimalAt(s, n);
  }

  /** The point form of `digits,digits` reads as the integer part plus the
      fraction. */
  lemma {:induction false} PointDecimalAt(s: string, n: nat)
    requires 0 < n < |s| && AllDigits(s[..n]) && AllDigits(s[n + 1..])
    ensures ParseFloat(s[..n] + ['.'] + s[n + 1..]) == Finite(DigitsValue(s[..n]) as real + FractionValue(s[n + 1..]))
  {
    PointDecimal(s[..n], s[n + 1..]);
  }

  /** `parseFloat` of `a.b`, for runs of digits `a` (not empty) and `b`. */
  lemma PointDecimal(a: string, b: string)
    requires a != [] && AllDigits(a) && AllDigits(b)
    ensures ParseFloat(a + ['.'] + b) == Finite(DigitsValue(a) as real + FractionValue(b))
  {
    var t := a + ['.'] + b;
    assert t[..|a|] == a && t[|a| + 1..] == b;
    ParseFloatDecimal(t, |a|, a, b);
  }

  /** `parseFloat` of `digits.digits`, the point at position `n`, reads the
      integer part `a` and the fraction `b`. */
  lemma ParseFloatDecimal(s: string, n: nat, a: string, b: string)
    requires 0 < n < |s| && s[n] == '.' && s[..n] == a && s[n + 1..] == b && AllDigits(a) && AllDigits(b)
    ensures ParseFloat(s) == Finite(DigitsValue(a) as real + FractionValue(b))
  {
    assert s[0] == a[0];
    DecimalPrefixDigits(s, n, a, b);
    UnsignedParseFloat(s, DigitsValue(a) as real + FractionValue(b));
  }

  /** Reading `digits,digits` is reading it with a point for the comma. */
  lemma CommaAsPoint(s: string, n: nat)
    requires 0 < n < |s| && s[n] == ',' && AllDigits(s[..n]) && AllDigits(s[n + 1..])
    ensures ParseBrazilianNumber(s) == ParseFloat(s[..n] + ['.'] + s[n + 1..])
  {
    NormalizeComma(s, n);
    var r := Normalize(s);
    assert r == r[..n] + [r[n]] + r[n + 1..];
  }

  /** Normalising `digits,digits` turns the comma into a point and nothing else. */
  lemma NormalizeComma(s: string, n: nat)
    requires 0 < n < |s| && s[n] == ',' && AllDigits(s[..n]) && AllDigits(s[n + 1..])
    ensures var r := Normalize(s);
            |r| == |s| && r[n] == '.' && r[..n] == s[..n] && r[n + 1..] == s[n + 1..]
  {
    NoPoint(s, n);
    assert s[n] in s;
    var r := Normalize(s);
    assert r[..n] == s[..n];
    assert r[n + 1..] == s[n + 1..];
  }

  lemma NoPoint(s: string, n: nat)
    requires 0 < n < |s| && s[n] == ',' && AllDigits(s[..n]) && AllDigits(s[n + 1..])
    ensures '.' !in s
  {
    forall i | 0 <= i < |s|
      ensures s[i] != '.'
    {
      if i < n {
        assert s[i] == s[..n][i];
      } else if i > n {
        assert s[i] == s[n + 1..][i - n - 1];
      }
    }
  }

  /** Once the text has a comma, its periods do not change its reading. */
  lemma PeriodsIgnoredWithComma(s: string)
    requires ',' in s
    ensures ParseBrazilianNumber(s) == ParseBrazilianNumber(RemoveAll(s, '.'))
  {
    if '.' in s {
      NormalizeDropsPeriods(s);
    } else {
      RemoveAbsent(s, '.');
    }
  }

  /** An integer part written with thousands separators: digits and periods,
      starting with a digit. */
  predicate Grouped(i: string) {
    i != [] && IsDigit(i[0]) && forall k :: 0 <= k < |i| ==> IsDigit(i[k]) || i[k] == '.'
  }

  /** A grouped integer part keeps a non-empty run of digits once its periods
      go. */
  lemma GroupedDigits(i: string)
    requires Grouped(i)
    ensures RemoveAll(i, '.') != [] && AllDigits(RemoveAll(i, '.'))
  {
    var a := RemoveAll(i, '.');
    forall k | 0 <= k < |a|
      ensures IsDigit(a[k])
    {
      assert a[k] in a;
      var j :| 0 <= j < |i| && i[j] == a[k];
    }
    assert i[0] in a;
  }

  /** Removing the periods of `i` then `,f` leaves the decimal-comma text. */
  lemma RemovePeriodsBeforeComma(i: string, f: string)
    requires AllDigits(f)
    ensures RemoveAll(i + [','] + f, '.') == RemoveAll(i, '.') + [','] + f
  {
    var tail := [','] + f;
    assert '.' !in tail by {
      forall k | 0 <= k < |tail|
        ensures tail[k] != '.'
      {
        if k > 0 {
          assert tail[k] == f[k - 1];
        }
      }
    }
    RemoveAllAppend(i, tail, '.');
    RemoveAbsent(tail, '.');
    assert i + [','] + f == i + tail;
    assert RemoveAll(i, '.') + [','] + f == RemoveAll(i, '.') + tail;
  }

  /** The decimal-comma text a grouped integer part leaves reads as its digits
      plus the fraction. */
  lemma GroupedReading(s: string, t: string, n: nat, a: string, f: string)
    requires ',' in s && t == RemoveAll(s, '.')
    requires 0 < n < |t| && t[n] == ',' && t[..n] == a && t[n + 1..] == f && AllDigits(a) && AllDigits(f)
    ensures ParseBrazilianNumber(s) == Finite(DigitsValue(a) as real + FractionValue(f))
  {
    PeriodsIgnoredWithComma(s);
    DecimalCommaParts(t, n, a, f);
  }

  /** `DecimalComma` with the integer and fraction parts named. */
  lemma DecimalCommaParts(t: string, n: nat, a: string, f: string)
    requires 0 < n < |t| && t[n] == ',' && t[..n] == a && t[n + 1..] == f && AllDigits(a) && AllDigits(f)
    ensures ParseBrazilianNumber(t) == Finite(DigitsValue(a) as real + FractionValue(f))
  {
    DecimalComma(t, n);
  }

  /** Thousands separators: an integer part of digits and periods, starting
      with a digit, followed by a decimal comma reads as the integer its digits
      denote plus the fraction, wherever the periods stand. */
  lemma ThousandsSeparators(i: string, f: string)
    requires Grouped(i) && AllDigits(f)
    ensures AllDigits(RemoveAll(i, '.'))
    ensures ParseBrazilianNumber(i + [','] + f) == Finite(DigitsValue(RemoveAll(i, '.')) as real + FractionValue(f))
  {
    GroupedDigits(i);
    DigitsAfterPeriods(i, RemoveAll(i, '.'), f);
  }

  /** `i,f` reads as `a,f` when `a` is what is left of `i` without its
      periods. */
  lemma DigitsAfterPeriods(i: string, a: string, f: string)
    requires a == RemoveAll(i, '.') && a != [] && AllDigits(a) && AllDigits(f)
    ensures ParseBrazilianNumber(i + [','] + f) == Finite(DigitsValue(a) as real + FractionValue(f))
  {
    CommaAt(i, f);
    CommaAt(a, f);
    RemovePeriodsBeforeComma(i, f);
    GroupedReading(i + [','] + f, a + [','] + f, |a|, a, f);
  }

  /** Where the pieces of `p,f` lie. */
  lemma CommaAt(p: string, f: string)
    ensures var s := p + [','] + f;
            s[|p|] == ',' && s[..|p|] == p && s[|p| + 1..] == f && ',' in s
  {
    var s := p + [','] + f;
    assert s[..|p|] == p && s[|p| + 1..] == f;
  }

  /** The reading that thousands separators promise: a field `i,f` whose
      integer part is grouped with periods reads as it would with the periods
      deleted. */
  lemma ThousandsGroup(i: string, f: string)
    requires Grouped(i) && AllDigits(f)
    ensures Reading(i + [','] + f) == Reading(RemoveAll(i, '.') + [','] + f)
  {
    var a := RemoveAll(i, '.');
    GroupedDigits(i);
    var v := Finite(DigitsValue(a) as real + FractionValue(f));
    assert Reading(i + [','] + f) == v by { GroupedCommaReading(i, f); }
    assert Reading(a + [','] + f) == v by { PlainCommaReading(a, f); }
  }

  lemma GroupedCommaReading(i: string, f: string)
    requires Grouped(i) && AllDigits(f)
    ensures AllDigits(RemoveAll(i, '.'))
    ensures Reading(i + [','] + f) == Finite(DigitsValue(RemoveAll(i, '.')) as real + FractionValue(f))
  {
    GroupedDigits(i);
    CommaReading(i, RemoveAll(i, '.'), f);
  }

  lemma PlainCommaReading(a: string, f: string)
    requires a != [] && AllDigits(a) && AllDigits(f)
    ensures Reading(a + [','] + f) == Finite(DigitsValue(a) as real + FractionValue(f))
  {
    DigitsHaveNoPoint(a);
    CommaReading(a, a, f);
  }

  /** A field `i,f` reads as its digits `a` plus the fraction. */
  lemma CommaReading(i: string, a: string, f: string)
    requires a == RemoveAll(i, '.') && a != [] && AllDigits(a) && AllDigits(f)
    ensures Reading(i + [','] + f) == Finite(DigitsValue(a) as real + FractionValue(f))
  {
    DigitsAfterPeriods(i, a, f);
    CommaAt(i, f);
    NumericWithComma(i + [','] + f);
  }

  lemma NumericWithComma(s: string)
    requires ',' in s
    ensures HasNumericChar(s) && Reading(s) == ParseBrazilianNumber(s)
  {
    var k :| 0 <= k < |s| && s[k] == ',';
    assert IsNumericChar(s[k]);
  }

  /** Digits hold no period, so dropping periods leaves them alone. */
  lemma DigitsHaveNoPoint(a: string)
    requires AllDigits(a)
    ensures '.' !in a && RemoveAll(a, '.') == a
  {
    assert '.' !in a by {
      forall k | 0 <= k < |a| ensures a[k] != '.' { }
    }
    RemoveAbsent(a, '.');
  }

  /** Without a comma or a period, a field of digits reads as their integer. */
  lemma IntegerField(a: string)
    requires a != [] && AllDigits(a)
    ensures Reading(a) == Finite(DigitsValue(a) as real)
  {
    assert IsNumericChar(a[0]);
    assert ',' !in a by {
      forall i | 0 <= i < |a| ensures a[i] != ',' { }
    }
    ParseFloatDigits(a);
  }

  /** A field is valid exactly when it is empty and optional, or reads as a
      number within its bounds; every invalid field gets a non-empty message. */
  lemma ValidIff(field: Field)
    ensures ValidateMaskedNumericField(field) == "" <==>
              (field.value == "" && !IsRequired(field))
              || (field.value != "" && Reading(field.value).Finite?
                  && !Below(Reading(field.value).v, Bound(field, "min"))
                  && !Above(Reading(field.value).v, Bound(field, "max")))
  {
  }

  /** The bounds are inclusive: a number equal to either bound passes. */
  lemma BoundsInclusive(field: Field, lo: real, hi: real)
    requires field.value != "" && Reading(field.value).Finite?
    requires Bound(field, "min") == Some(Finite(lo)) && Bound(field, "max") == Some(Finite(hi))
    requires lo <= Reading(field.value).v <= hi
    ensures ValidateMaskedNumericField(field) == ""
  {
  }

  /** A missing or empty `min`/`max` attribute imposes no bound. */
  lemma NoBounds(field: Field)
    requires "min" !in field.attributes || field.attributes["min"] == ""
    requires "max" !in field.attributes || field.attributes["max"] == ""
    requires field.value != "" && Reading(field.value).Finite?
    ensures ValidateMaskedNumericField(field) == ""
  {
  }

  // ----- Examples -----

  lemma DigitsValueSnoc(ds: string, c: char)
    requires AllDigits(ds) && IsDigit(c)
    ensures AllDigits(ds + [c]) && DigitsValue(ds + [c]) == 10 * DigitsValue(ds) + DigitValue(c)
  {
    assert (ds + [c])[..|ds|] == ds;
  }

  /** The digits "1234" denote 1234. */
  lemma Value1234()
    ensures DigitsValue("1234") == 1234
  {
    DigitsValueSnoc([], '1');
    DigitsValueSnoc("1", '2');
    DigitsValueSnoc("12", '3');
    DigitsValueSnoc("123", '4');
    assert [] + ['1'] == "1";
    assert "1" + ['2'] == "12";
    assert "12" + ['3'] == "123";
    assert "123" + ['4'] == "1234";
  }

  /** The digits "56" after a point are 0.56. */
  lemma Fraction56()
    ensures FractionValue("56") == 0.56
  {
    assert "56"[1..] == "6";
    assert "6"[1..] == [];
  }

  lemma DecimalCommaExample()
    ensures ParseBrazilianNumber("1234,56") == Finite(1234.56)
  {
    var s := "1234,56";
    assert s[..4] == "1234" && s[5..] == "56";
    DecimalComma(s, 4);
    Value1234();
    Fraction56();
  }

  /** "1.234,56" loses its thousands separator and gets a decimal point. */
  lemma ThousandsNormalize()
    ensures Normalize("1.234,56") == "1234.56"
  {
    var s := "1.234,56";
    assert s[1] == '.' && s[5] == ',';
    DropSeparator();
    CommaToPoint();
  }

  lemma DropSeparator()
    ensures RemoveAll("1.234,56", '.') == "1234,56"
  {
    var t := "234,56";
    assert '.' !in t;
    DropOne('1', t, '.');
    assert "1.234,56" == ['1', '.'] + t;
    assert ['1'] + t == "1234,56";
  }

  /** A separator right after the first character goes. */
  lemma DropOne(a: char, t: string, c: char)
    requires a != c && c !in t
    ensures RemoveAll([a, c] + t, c) == [a] + t
  {
    var s := [a, c] + t;
    assert s[1..] == [c] + t && s[1..][1..] == t;
    RemoveAbsent(t, c);
    assert RemoveAll(s[1..], c) == t;
  }

  lemma CommaToPoint()
    ensures ReplaceAll("1234,56", ',', '.') == "1234.56"
  {
  }

  lemma PointReading()
    ensures ParseFloat("1234.56") == Finite(1234.56)
  {
    assert "1234" + ['.'] + "56" == "1234.56";
    PointDecimal("1234", "56");
    Value1234();
    Fraction56();
  }

  lemma ThousandsExample()
    ensures ParseBrazilianNumber("1.234,56") == Finite(1234.56)
  {
    ThousandsNormalize();
    PointReading();
  }

  lemma AbcExample()
    ensures ParseNumericField(Field("abc", "f", map[]), Options(false, None)) == Ok(Some(NaN))
  {
    var s := "abc";
    assert !HasNumericChar(s) by {
      assert !IsNumericChar(s[0]) && !IsNumericChar(s[1]) && !IsNumericChar(s[2]);
    }
  }

  lemma RequiredEmptyExample()
    ensures ParseNumericField(Field("", "test-field", map[]), Options(true, None))
            == Err("Campo 'test-field' é obrigatório")
  {
  }

  lemma Reading50()
    ensures Reading("50") == Finite(50.0)
  {
    IntegerField("50");
    Value50();
  }

  lemma Value50()
    ensures DigitsValue("50") == 50
  {
    assert "50"[..1] == "5";
  }

  lemma Reading100()
    ensures ParseFloat("100") == Finite(100.0)
  {
    ParseFloatDigits("100");
    Value100();
  }

  lemma Value100()
    ensures DigitsValue("100") == 100
  {
    assert "100"[..2] == "10";
    assert "10"[..1] == "1";
  }

  /** The bounds of the field the tests check against a minimum of 100. */
  lemma MinimumOnly(f: Field)
    requires f.attributes == map["min" := "100"]
    ensures Bound(f, "min") == Some(Finite(100.0)) && Bound(f, "max") == None && !IsRequired(f)
  {
    assert "max" != "min" by {
      assert "max"[1] != "min"[1];
    }
    assert |"required"| != |"min"|;
    assert "min" in f.attributes && f.attributes["min"] == "100";
    assert Bound(f, "min") == Some(ParseFloat("100"));
    Reading100();
  }

  lemma BelowMinimumExample()
    ensures ValidateMaskedNumericField(Field("50", "f", map["min" := "100"])) == "Valor abaixo do mínimo"
  {
    var f := Field("50", "f", map["min" := "100"]);
    Reading50();
    MinimumOnly(f);
    assert f.value != "" && Reading(f.value) == Finite(50.0);
    assert Below(50.0, Bound(f, "min"));
  }
}
