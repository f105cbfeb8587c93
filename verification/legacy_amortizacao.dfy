/** The legacy extra-payment schedule (src/scripts/amortizacao.ts): the same input
    language as the current model, but `Amortizacao.parse` materialises the
    explicit list of months the extra amount is paid in.

    Its token handling differs from the current parser: tokens are read with
    `parseInt` (a leading digit prefix, so "5x" is 5), range pieces are trimmed,
    and a range must split into exactly two '-'-pieces. */
module LegacyAmortizacao {
  import opened Wrappers
  import opened JsText
  import opened JsNumber
  import Amortizacao

  datatype LegacySchedule = LegacySchedule(meses: seq<int>, valor: real)

  /** `m` is reached from `start` in whole steps of `step` (forwards or backwards). */
  predicate OnGrid(m: int, start: int, step: int)
    requires step > 0
  {
    (m - start) % step == 0
  }

  /** The loop `for (i = start; i <= prazo; i += step) meses.push(i)`. */
  function Multiples(start: int, step: int, prazo: real): (ms: seq<int>)
    requires step > 0
    ensures forall i :: 0 <= i < |ms| ==> start <= ms[i] && ms[i] as real <= prazo
    ensures forall i, j :: 0 <= i < j < |ms| ==> ms[i] < ms[j]
    decreases prazo.Floor - start + step
  {
    if start as real <= prazo then [start] + Multiples(start + step, step, prazo) else []
  }

  /** The loop collects exactly the months on the grid of `start` and `step`
      between `start` and the term. */
  lemma {:induction false} MultiplesMembers(start: int, step: int, prazo: real, m: int)
    requires step > 0
    ensures m in Multiples(start, step, prazo) <==> start <= m && m as real <= prazo && OnGrid(m, start, step)
    decreases prazo.Floor - start + step
  {
    if start as real <= prazo {
      MultiplesMembers(start + step, step, prazo, m);
      if m == start {
        ModUnique(0, step, 0, 0);
      } else if start < m < start + step {
        ModUnique(m - start, step, 0, m - start);
      } else if m >= start + step {
        ShiftMod(m - start - step, step);
        assert m - start - step + step == m - start;
      }
    }
  }

  lemma MulStrict(step: int, a: int, b: int)
    requires step > 0 && a < b
    ensures step * a + step <= step * b
    decreases b - a
  {
    if b > a + 1 {
      MulStrict(step, a, b - 1);
      assert step * b == step * (b - 1) + step;
    } else {
      assert step * b == step * a + step;
    }
  }

  /** Euclidean division has one quotient and remainder. */
  lemma ModUnique(a: int, step: int, q: int, r: int)
    requires step > 0 && 0 <= r < step && a == step * q + r
    ensures a % step == r
  {
    var q2 := a / step;
    assert a == step * q2 + a % step;
    if q2 > q {
      MulStrict(step, q, q2);
      assert false;
    } else if q2 < q {
      MulStrict(step, q2, q);
      assert false;
    }
  }

  /** Adding the modulus does not change the remainder. */
  lemma ShiftMod(x: int, step: int)
    requires step > 0
    ensures (x + step) % step == x % step
  {
    var q := x / step;
    ModUnique(x + step, step, q + 1, x % step);
  }

  /** The loop `for (i = start; i <= end; i++) meses.push(i)`: every month from
      `start` to `end` inclusive, in order. */
  function Interval(start: int, end: int): (ms: seq<int>)
    ensures |ms| == if start <= end then end - start + 1 else 0
    ensures forall i :: 0 <= i < |ms| ==> ms[i] == start + i
    ensures forall m :: m in ms <==> start <= m <= end
    decreases end - start
  {
    if start > end then [] else [start] + Interval(start + 1, end)
  }

  /** `parts.map(part => part.trim())`. */
  function TrimAll(parts: seq<string>): (r: seq<string>)
    ensures |r| == |parts|
    ensures forall i :: 0 <= i < |parts| ==> r[i] == Trim(parts[i])
  {
    if parts == [] then [] else [Trim(parts[0])] + TrimAll(parts[1..])
  }

  /** `parts.filter(part => part.length > 0)`. */
  function NonEmpty(parts: seq<string>): (r: seq<string>)
    ensures |r| <= |parts|
    ensures forall p :: p in r <==> p in parts && p != []
  {
    if parts == [] then []
    else (if parts[0] == [] then [] else [parts[0]]) + NonEmpty(parts[1..])
  }

  /** `Amortizacao.parse`. */
  function Parse(periodo: string, prazoMeses: real, input: Option<string>, valor: real): (r: Result<LegacySchedule>)
    ensures periodo in {"Anual", "Mensal", "Bienal"} ==> r.Ok?
    ensures periodo == "Outro" && (input.None? || IsBlank(input.value)) ==> r == Err(Amortizacao.REQUIRED_INTERVAL)
    ensures periodo !in {"Anual", "Mensal", "Bienal", "Outro"} ==>
              r == Err("Período de amortização inválido: " + periodo)
    ensures r.Ok? ==> r.value.valor == valor && forall i :: 0 <= i < |r.value.meses| ==> r.value.meses[i] >= 1
  {
    if periodo == "Anual" then Ok(LegacySchedule(Multiples(12, 12, prazoMeses), valor))
    else if periodo == "Mensal" then Ok(LegacySchedule(Multiples(1, 1, prazoMeses), valor))
    else if periodo == "Bienal" then Ok(LegacySchedule(Multiples(24, 24, prazoMeses), valor))
    else if periodo == "Outro" then ParseCustom(input, valor)
    else Err("Período de amortização inválido: " + periodo)
  }

  /** `Parse` of the custom period is its own branch. */
  lemma ParseOutro(prazo: real, input: Option<string>, valor: real)
    ensures Parse("Outro", prazo, input, valor) == ParseCustom(input, valor)
  {
    assert "Outro"[0] != "Anual"[0];
    assert |"Outro"| != |"Mensal"| && |"Outro"| != |"Bienal"|;
  }

  /** The "Outro" branch: a missing or blank text is refused; otherwise the
      trimmed, non-empty ','-tokens are expanded in order. */
  function ParseCustom(input: Option<string>, valor: real): (r: Result<LegacySchedule>)
    ensures input.None? || IsBlank(input.value) ==> r == Err(Amortizacao.REQUIRED_INTERVAL)
    ensures r.Ok? ==> r.value.valor == valor && forall i :: 0 <= i < |r.value.meses| ==> r.value.meses[i] >= 1
  {
    var trimmed := if input.None? then "" else Trim(input.value);
    if trimmed == [] then Err(Amortizacao.REQUIRED_INTERVAL)
    else
      var meses :- ExpandParts(NonEmpty(TrimAll(Split(trimmed, ','))));
      Ok(LegacySchedule(meses, valor))
  }

  /** The loop over the trimmed, non-empty tokens: the months of each token, in
      token order; the first bad token aborts. */
  function ExpandParts(parts: seq<string>): (r: Result<seq<int>>)
    ensures r.Ok? ==> forall i :: 0 <= i < |r.value| ==> r.value[i] >= 1
  {
    if parts == [] then Ok([])
    else
      var head :- ExpandPart(parts[0]);
      var tail :- ExpandParts(parts[1..]);
      Ok(head + tail)
  }

  /** One token: a range `a-b` (exactly two trimmed pieces, both read by
      `parseInt`, positive, `a <= b`) gives `a..b`; any other token gives the
      single month `parseInt` reads, which must be positive. */
  function ExpandPart(part: string): (r: Result<seq<int>>)
    ensures r.Ok? ==> r.value != [] && forall i :: 0 <= i < |r.value| ==> r.value[i] >= 1
    ensures r.Err? && '-' in part ==> r.msg == "Intervalo inválido: " + part
    ensures r.Err? && '-' !in part ==> r.msg == "Mês inválido: " + part
  {
    if '-' in part then ExpandRange(part) else ExpandMonth(part)
  }

  /** A range token: exactly two trimmed '-'-pieces, both positive integers to
      `parseInt`, in order. */
  function ExpandRange(part: string): (r: Result<seq<int>>)
    ensures r.Ok? ==> r.value != [] && forall i :: 0 <= i < |r.value| ==> r.value[i] >= 1
    ensures r.Err? ==> r.msg == "Intervalo inválido: " + part
  {
    var rangeParts := TrimAll(Split(part, '-'));
    if |rangeParts| != 2 then Err("Intervalo inválido: " + part)
    else ExpandSpan(part, ParseInt(rangeParts[0]), ParseInt(rangeParts[1]))
  }

  /** A range token once its two ends are read: `start..end` when both are
      positive and in order. */
  function ExpandSpan(part: string, start: Option<int>, end: Option<int>): (r: Result<seq<int>>)
    ensures r.Ok? <==> start.Some? && end.Some? && 0 < start.value <= end.value
    ensures r.Ok? ==> r.value == Interval(start.value, end.value)
    ensures r.Ok? ==> r.value != [] && forall i :: 0 <= i < |r.value| ==> r.value[i] >= 1
    ensures r.Err? ==> r.msg == "Intervalo inválido: " + part
  {
    if start.None? || end.None? || start.value <= 0 || end.value <= 0 || start.value > end.value then
      Err("Intervalo inválido: " + part)
    else Ok(Interval(start.value, end.value))
  }

  /** A single-month token: a positive integer to `parseInt`. */
  function ExpandMonth(part: string): (r: Result<seq<int>>)
    ensures r.Ok? <==> ParseInt(part).Some? && ParseInt(part).value > 0
    ensures r.Ok? ==> r.value == [ParseInt(part).value] && r.value[0] >= 1
    ensures r.Err? ==> r.msg == "Mês inválido: " + part
  {
    var month := ParseInt(part);
    if month.None? || month.value <= 0 then Err("Mês inválido: " + part)
    else Ok([month.value])
  }

  // ----- The periodic lists -----

  /** The annual, biennial and monthly lists hold exactly the multiples of 12
      (of 24; every month) from 1 to the term; `Multiples` keeps them strictly
      increasing. */
  lemma PeriodicMembers(prazo: real, input: Option<string>, valor: real, m: int)
    ensures m in Parse("Anual", prazo, input, valor).value.meses
            <==> 1 <= m && m as real <= prazo && m % 12 == 0
    ensures m in Parse("Bienal", prazo, input, valor).value.meses
            <==> 1 <= m && m as real <= prazo && m % 24 == 0
    ensures m in Parse("Mensal", prazo, input, valor).value.meses
            <==> 1 <= m && m as real <= prazo
  {
    MultiplesMembers(12, 12, prazo, m);
    MultiplesMembers(24, 24, prazo, m);
    MultiplesMembers(1, 1, prazo, m);
    ShiftMod(m - 12, 12);
    ShiftMod(m - 24, 24);
  }

  /** Refinement: inside the term, a month is in the legacy list of a periodic
      schedule exactly when the current schedule of the same period applies to it. */
  lemma PeriodicRefinement(periodo: string, prazo: real, input: Option<string>, valor: real, m: int)
    requires periodo in {"Anual", "Mensal", "Bienal"}
    requires 1 <= m && m as real <= prazo
    ensures Parse(periodo, prazo, input, valor).Ok?
    ensures Amortizacao.Create(periodo, prazo, input, valor).Ok?
    ensures m in Parse(periodo, prazo, input, valor).value.meses
            <==> Amortizacao.Create(periodo, prazo, input, valor).value.AppliesTo(m)
  {
    PeriodicMembers(prazo, input, valor, m);
  }

  // ----- Agreement with the current parser on the custom variant -----

  /** Whether some range covers `m`. */
  predicate Covered(ranges: seq<Amortizacao.MonthRange>, m: int) {
    exists i :: 0 <= i < |ranges| && ranges[i].Contains(m)
  }

  lemma TrimTwice(s: string)
    ensures Trim(Trim(s)) == Trim(s)
  {
    TrimOfTrimmed(Trim(s));
  }

  /** A range token both parsers accept denotes the same months in both. */
  lemma RangeTokenAgreement(p: string, m: int)
    requires '-' in Trim(p)
    requires Amortizacao.ParseToken(p).Ok?
    requires ExpandPart(Trim(p)).Ok?
    ensures m in ExpandPart(Trim(p)).value <==> Covered(Amortizacao.ParseToken(p).value, m)
  {
    var pieces := Split(Trim(p), '-');
    CurrentRangeToken(p);
    LegacyRangeToken(Trim(p));
    assert '-' !in pieces[0] && '-' !in pieces[1];
    ParseIntAgreesWithNumber(pieces[0]);
    ParseIntAgreesWithNumber(pieces[1]);
    var a := ToNumber(pieces[0]).v.Floor;
    var b := ToNumber(pieces[1]).v.Floor;
    var r := Amortizacao.ParseToken(p).value;
    assert r == [Amortizacao.MonthRange(a, b)];
    assert ExpandPart(Trim(p)).value == Interval(a, b);
    CoveredSingle(Amortizacao.MonthRange(a, b), m);
  }

  /** One range covers exactly its own months. */
  lemma CoveredSingle(range: Amortizacao.MonthRange, m: int)
    ensures Covered([range], m) <==> range.Contains(m)
  {
    assert [range][0] == range;
  }

  /** What the current parser makes of an accepted range token. */
  lemma CurrentRangeToken(p: string)
    requires '-' in Trim(p)
    requires Amortizacao.ParseToken(p).Ok?
    ensures var pieces := Split(Trim(p), '-');
            |pieces| >= 2
            && IsInteger(ToNumber(pieces[0])) && ToNumber(pieces[0]).v > 0.0
            && IsInteger(ToNumber(pieces[1])) && ToNumber(pieces[1]).v > 0.0
            && Amortizacao.ParseToken(p).value
               == [Amortizacao.MonthRange(ToNumber(pieces[0]).v.Floor, ToNumber(pieces[1]).v.Floor)]
  {
  }

  /** What the legacy parser makes of an accepted range token. */
  lemma LegacyRangeToken(clean: string)
    requires '-' in clean
    requires ExpandPart(clean).Ok?
    ensures var pieces := Split(clean, '-');
            |pieces| == 2
            && ParseInt(Trim(pieces[0])).Some? && ParseInt(Trim(pieces[1])).Some?
            && ExpandPart(clean).value
               == Interval(ParseInt(Trim(pieces[0])).value, ParseInt(Trim(pieces[1])).value)
  {
  }

  /** What the current parser makes of an accepted single-month token. */
  lemma CurrentMonthToken(p: string)
    requires Trim(p) != [] && '-' !in Trim(p)
    requires Amortizacao.ParseToken(p).Ok?
    ensures IsInteger(ToNumber(Trim(p))) && ToNumber(Trim(p)).v > 0.0
    ensures Amortizacao.ParseToken(p).value
            == [Amortizacao.MonthRange(ToNumber(Trim(p)).v.Floor, ToNumber(Trim(p)).v.Floor)]
  {
  }

  /** A single-month token both parsers accept denotes the same month in both. */
  lemma MonthTokenAgreement(p: string, m: int)
    requires Trim(p) != [] && '-' !in Trim(p)
    requires Amortizacao.ParseToken(p).Ok?
    requires ExpandPart(Trim(p)).Ok?
    ensures m in ExpandPart(Trim(p)).value <==> Covered(Amortizacao.ParseToken(p).value, m)
  {
    var clean := Trim(p);
    TrimTwice(p);
    CurrentMonthToken(p);
    ParseIntAgreesWithNumber(clean);
    var n := ToNumber(clean).v.Floor;
    assert ExpandPart(clean).value == [n];
    CoveredSingle(Amortizacao.MonthRange(n, n), m);
  }

  /** A non-blank token both parsers accept denotes the same months in both. */
  lemma TokenAgreement(p: string, m: int)
    requires Trim(p) != []
    requires Amortizacao.ParseToken(p).Ok?
    requires ExpandPart(Trim(p)).Ok?
    ensures m in ExpandPart(Trim(p)).value <==> Covered(Amortizacao.ParseToken(p).value, m)
  {
    if '-' in Trim(p) {
      RangeTokenAgreement(p, m);
    } else {
      MonthTokenAgreement(p, m);
    }
  }

  lemma CoveredAppend(a: seq<Amortizacao.MonthRange>, b: seq<Amortizacao.MonthRange>, m: int)
    ensures Covered(a + b, m) <==> Covered(a, m) || Covered(b, m)
  {
    if Covered(a + b, m) {
      var i :| 0 <= i < |a + b| && (a + b)[i].Contains(m);
      if i >= |a| {
        assert b[i - |a|].Contains(m);
      }
    }
    if Covered(b, m) {
      var i :| 0 <= i < |b| && b[i].Contains(m);
      assert (a + b)[|a| + i].Contains(m);
    }
    if Covered(a, m) {
      var i :| 0 <= i < |a| && a[i].Contains(m);
      assert (a + b)[i].Contains(m);
    }
  }

  /** The token loops of both parsers agree, token by token. */
  lemma {:induction false} TokensAgreement(ps: seq<string>, m: int)
    requires Amortizacao.ParseTokens(ps).Ok?
    requires ExpandParts(NonEmpty(TrimAll(ps))).Ok?
    ensures m in ExpandParts(NonEmpty(TrimAll(ps))).value <==> Covered(Amortizacao.ParseTokens(ps).value, m)
  {
    if ps != [] {
      var rest := ps[1..];
      assert TrimAll(ps) == [Trim(ps[0])] + TrimAll(rest);
      assert ([Trim(ps[0])] + TrimAll(rest))[1..] == TrimAll(rest);
      var h := Amortizacao.ParseToken(ps[0]).value;
      var t := Amortizacao.ParseTokens(rest).value;
      assert Amortizacao.ParseTokens(ps).value == h + t;
      CoveredAppend(h, t, m);
      if Trim(ps[0]) == [] {
        assert NonEmpty(TrimAll(ps)) == NonEmpty(TrimAll(rest));
        assert h == [];
        TokensAgreement(rest, m);
      } else {
        var legacy := NonEmpty(TrimAll(ps));
        assert legacy == [Trim(ps[0])] + NonEmpty(TrimAll(rest));
        assert legacy[1..] == NonEmpty(TrimAll(rest));
        TokenAgreement(ps[0], m);
        TokensAgreement(rest, m);
      }
    }
  }

  /** Where both parsers accept the same custom interval text, the legacy month
      list holds exactly the months some current range covers; inside the term
      that is exactly the months the current schedule applies to. */
  lemma CustomAgreement(prazo: real, input: Option<string>, valor: real, m: int)
    requires Parse("Outro", prazo, input, valor).Ok?
    requires Amortizacao.Create("Outro", prazo, input, valor).Ok?
    ensures m in Parse("Outro", prazo, input, valor).value.meses
            <==> Covered(Amortizacao.Create("Outro", prazo, input, valor).value.ranges, m)
    ensures m as real <= prazo ==>
              (m in Parse("Outro", prazo, input, valor).value.meses
               <==> Amortizacao.Create("Outro", prazo, input, valor).value.AppliesTo(m))
  {
    TokensAgreement(Split(Trim(input.value), ','), m);
  }

  // ----- Where the two parsers part ways -----

  /** A text of one token without white space or commas is that one token. */
  lemma SingleTokenParts(t: string)
    requires t != [] && Amortizacao.NoSpace(t) && ',' !in t
    ensures Trim(t) == t
    ensures NonEmpty(TrimAll(Split(t, ','))) == [t]
  {
    Amortizacao.NoSpaceIsTrimmed(t);
    SplitWithoutSeparator(t, ',');
    assert TrimAll([t]) == [t];
    assert NonEmpty([t]) == [t];
  }

  /** The token loop on one token is that token's expansion. */
  lemma ExpandOne(p: string)
    ensures ExpandParts([p]) == (match ExpandPart(p) case Ok(ms) => Ok(ms) case Err(e) => Err(e))
  {
    assert [p][1..] == [];
    if ExpandPart(p).Ok? {
      assert ExpandPart(p).value + [] == ExpandPart(p).value;
    }
  }

  /** A single token without white space or commas is all the legacy parser reads. */
  lemma LegacySingleToken(t: string, valor: real)
    requires t != [] && Amortizacao.NoSpace(t) && ',' !in t
    ensures ParseCustom(Some(t), valor)
            == (match ExpandPart(t) case Ok(ms) => Ok(LegacySchedule(ms, valor)) case Err(e) => Err(e))
  {
    SingleTokenParts(t);
    ExpandOne(t);
  }

  /** `parseInt` of a nonzero digit followed by a non-digit reads the digit. */
  lemma DigitPrefixParseInt(c: char, x: char)
    requires IsDigit(c) && !IsDigit(x) && !IsSpace(c)
    ensures ParseInt([c, x]) == Some(DigitValue(c) as int)
  {
    var s := [c, x];
    assert TrimStart(s) == s;
    DigitRunAt(s, 1);
    assert s[..1] == [c];
    assert DigitsValue([c]) == DigitValue(c) by {
      assert [c][..0] == [];
    }
  }

  /** `Number` of a digit followed by anything but a digit or a point is NaN. */
  lemma DigitGarbageNumber(c: char, x: char)
    requires IsDigit(c) && !IsDigit(x) && x != '.' && !IsSpace(x)
    ensures ToNumber([c, x]) == NaN
  {
    var s := [c, x];
    DigitIsNotSpace(c);
    TrimOfTrimmed(s);
    GarbageLiteral(c, x);
  }

  /** A digit followed by anything but a digit or a point is no literal. */
  lemma GarbageLiteral(c: char, x: char)
    requires IsDigit(c) && !IsDigit(x) && x != '.'
    ensures DecimalLiteral([c, x]).None?
  {
    DigitRunAt([c, x], 1);
  }

  /** The legacy parser reads a nonzero digit followed by a stray character
      as the month of the digit. */
  lemma LegacyDigitGarbage(c: char, x: char, valor: real)
    requires IsDigit(c) && c != '0'
    requires !IsDigit(x) && x != '-' && x != ',' && !IsSpace(x)
    ensures ParseCustom(Some([c, x]), valor) == Ok(LegacySchedule([DigitValue(c)], valor))
  {
    var s := [c, x];
    assert '-' !in s && ',' !in s;
    DigitIsNotSpace(c);
    assert Amortizacao.NoSpace(s);
    DigitPrefixParseInt(c, x);
    assert ExpandPart(s) == Ok([DigitValue(c) as int]);
    LegacySingleToken(s, valor);
  }

  /** The current parser refuses the same token as a month. */
  lemma CurrentDigitGarbage(c: char, x: char)
    requires IsDigit(c)
    requires !IsDigit(x) && x != '.' && x != '-' && x != ',' && !IsSpace(x)
    ensures Amortizacao.ParseIntervalString(Some([c, x])) == Err("Mês inválido: \"" + [c, x] + "\"")
  {
    var s := [c, x];
    assert '-' !in s && ',' !in s;
    DigitIsNotSpace(c);
    assert Amortizacao.NoSpace(s);
    Amortizacao.SingleToken(s);
    Amortizacao.MonthTokenOf(s);
    DigitGarbageNumber(c, x);
  }

  /** `parseInt` reads a nonzero digit followed by a stray character as that
      month, where the current parser refuses the token. */
  lemma TrailingGarbage(c: char, x: char, prazo: real, valor: real)
    requires IsDigit(c) && c != '0'
    requires !IsDigit(x) && x != '.' && x != '-' && x != ',' && !IsSpace(x)
    ensures Parse("Outro", prazo, Some([c, x]), valor) == Ok(LegacySchedule([DigitValue(c)], valor))
    ensures Amortizacao.ParseIntervalString(Some([c, x])) == Err("Mês inválido: \"" + [c, x] + "\"")
  {
    ParseOutro(prazo, Some([c, x]), valor);
    LegacyDigitGarbage(c, x, valor);
    CurrentDigitGarbage(c, x);
  }

  /** The repository's case: "5x" is month 5 to the legacy parser and refused
      by the current one. */
  lemma TrailingGarbageExample()
    ensures Parse("Outro", 12.0, Some("5x"), 100.0) == Ok(LegacySchedule([5], 100.0))
    ensures Amortizacao.ParseIntervalString(Some("5x")) == Err("Mês inválido: \"" + "5x" + "\"")
  {
    assert ['5', 'x'] == "5x";
    TrailingGarbage('5', 'x', 12.0, 100.0);
  }

  /** A token with a '-' that does not split into exactly two pieces is refused. */
  lemma NotTwoPieces(part: string)
    requires '-' in part && |Split(part, '-')| != 2
    ensures ExpandPart(part) == Err("Intervalo inválido: " + part)
  {
  }

  /** A digit range followed by a third '-'-piece is refused by the legacy
      parser, with a message that does not quote the token, and read by the
      current one as the range of its first two pieces. */
  lemma ThreePieces(a: char, b: char, tail: string, prazo: real, valor: real)
    requires IsDigit(a) && IsDigit(b) && '0' < a <= b
    requires tail != [] && tail[0] == '-' && Amortizacao.NoSpace(tail) && ',' !in tail
    ensures Parse("Outro", prazo, Some([a, '-', b] + tail), valor) == Err("Intervalo inválido: " + ([a, '-', b] + tail))
    ensures Amortizacao.ParseIntervalString(Some([a, '-', b] + tail))
            == Ok([Amortizacao.MonthRange(DigitValue(a), DigitValue(b))])
  {
    var s := [a, '-', b] + tail;
    ParseOutro(prazo, Some(s), valor);
    assert s[1] == '-';
    Amortizacao.DigitRangeChars(a, b, tail);
    Amortizacao.DigitRangeSplit(a, b, tail);
    NotTwoPieces(s);
    LegacySingleToken(s, valor);
    Amortizacao.ExtraPiecesIgnored(a, b, tail);
  }

  /** The repository's case "1-2-3". */
  lemma ThreePieceExample()
    ensures Parse("Outro", 12.0, Some("1-2-3"), 100.0) == Err("Intervalo inválido: " + "1-2-3")
    ensures Amortizacao.ParseIntervalString(Some("1-2-3")) == Ok([Amortizacao.MonthRange(1, 2)])
  {
    assert ['1', '-', '2'] + "-3" == "1-2-3";
    assert Amortizacao.NoSpace("-3");
    ThreePieces('1', '2', "-3", 12.0, 100.0);
  }

  /** `parseInt` of the canonical rendering of a positive month reads that month. */
  lemma MonthPart(n: nat)
    requires 1 <= n
    requires '-' !in NatToString(n)
    ensures ExpandPart(NatToString(n)) == Ok([n])
  {
    ParseIntOfNatToString(n);
  }

  /** A single month `n`, written canonically, is the legacy list `[n]`,
      whatever the term. */
  lemma LegacyMonthText(n: nat, prazo: real, valor: real)
    requires n >= 1
    ensures Parse("Outro", prazo, Some(NatToString(n)), valor) == Ok(LegacySchedule([n], valor))
  {
    var s := NatToString(n);
    assert '-' !in s && ',' !in s by {
      forall i | 0 <= i < |s|
        ensures s[i] != '-' && s[i] != ','
      {
        assert IsDigit(s[i]);
      }
    }
    assert Amortizacao.NoSpace(s) by {
      forall i | 0 <= i < |s|
        ensures !IsSpace(s[i])
      {
        DigitIsNotSpace(s[i]);
      }
    }
    MonthPart(n);
    ParseOutro(prazo, Some(s), valor);
    LegacySingleToken(s, valor);
  }

  /** The legacy list is not bounded by the term: a single month past the term
      is listed, which the current schedule never applies to. */
  lemma BeyondTerm(n: nat, prazo: real, valor: real)
    requires n >= 1 && n as real > prazo
    ensures Parse("Outro", prazo, Some(NatToString(n)), valor) == Ok(LegacySchedule([n], valor))
    ensures Amortizacao.Create("Outro", prazo, Some(NatToString(n)), valor).Ok?
    ensures !Amortizacao.Create("Outro", prazo, Some(NatToString(n)), valor).value.AppliesTo(n)
  {
    LegacyMonthText(n, prazo, valor);
    Amortizacao.CustomBeyondTerm(n, prazo, valor);
  }

  /** The repository's case: "30" under a 12-month term. */
  lemma BeyondTermExample()
    ensures Parse("Outro", 12.0, Some("30"), 100.0) == Ok(LegacySchedule([30], 100.0))
    ensures Amortizacao.Create("Outro", 12.0, Some("30"), 100.0).Ok?
    ensures !Amortizacao.Create("Outro", 12.0, Some("30"), 100.0).value.AppliesTo(30)
  {
    assert NatToString(30) == "30" by {
      assert NatToString(3) == "3";
    }
    BeyondTerm(30, 12.0, 100.0);
  }

  /** The token loop on a first token and the rest, both accepted. */
  lemma ExpandPartsCons(p: string, rest: seq<string>)
    requires ExpandPart(p).Ok? && ExpandParts(rest).Ok?
    ensures ExpandParts([p] + rest) == Ok(ExpandPart(p).value + ExpandParts(rest).value)
  {
    assert ([p] + rest)[1..] == rest;
  }

  /** `parseInt` of one nonzero digit. */
  lemma DigitMonthPart(c: char)
    requires IsDigit(c) && c != '0'
    ensures ExpandPart([c]) == Ok([DigitValue(c) as int])
  {
    DigitRunAt([c], 1);
    DigitIsNotSpace(c);
    assert TrimStart([c]) == [c];
    assert [c][..1] == [c];
    assert DigitsValue([c]) == DigitValue(c) by {
      assert [c][..0] == [];
    }
  }

  /** The ','-tokens of `c,c`, for a digit `c`, trimmed and non-empty. */
  lemma DigitPairTokens(c: char)
    requires IsDigit(c)
    ensures Trim([c, ',', c]) == [c, ',', c]
    ensures NonEmpty(TrimAll(Split([c, ',', c], ','))) == [[c], [c]]
  {
    var s := [c, ',', c];
    assert s == [c] + [','] + [c];
    SplitAtSeparator([c], ',', [c]);
    SplitWithoutSeparator([c], ',');
    assert Split(s, ',') == [[c], [c]];
    DigitIsNotSpace(c);
    TrimOfTrimmed(s);
    TrimOfTrimmed([c]);
    assert TrimAll([[c], [c]]) == [[c], [c]];
    assert NonEmpty([[c], [c]]) == [[c], [c]];
  }

  /** The token loop on two copies of a nonzero digit. */
  lemma DigitPairMonths(c: char)
    requires IsDigit(c) && c != '0'
    ensures ExpandParts([[c], [c]]) == Ok([DigitValue(c) as int, DigitValue(c) as int])
  {
    assert [[c]][1..] == [];
    assert [[c]] + [] == [[c]];
    assert [[c]] + [[c]] == [[c], [c]];
    var d := DigitValue(c) as int;
    assert [d] + [] == [d] && [d] + [d] == [d, d];
    DigitMonthPart(c);
    ExpandPartsCons([c], []);
    ExpandPartsCons([c], [[c]]);
  }

  /** A repeated month is listed twice. */
  lemma DuplicateMonth(c: char, prazo: real, valor: real)
    requires IsDigit(c) && c != '0'
    ensures Parse("Outro", prazo, Some([c, ',', c]), valor) == Ok(LegacySchedule([DigitValue(c), DigitValue(c)], valor))
  {
    DigitPairTokens(c);
    DigitPairMonths(c);
    ParseOutro(prazo, Some([c, ',', c]), valor);
  }

  /** The repository's case: "1,1" lists month 1 twice. */
  lemma DuplicateMonthExample()
    ensures Parse("Outro", 12.0, Some("1,1"), 100.0) == Ok(LegacySchedule([1, 1], 100.0))
  {
    assert ['1', ',', '1'] == "1,1";
    DuplicateMonth('1', 12.0, 100.0);
  }
}
