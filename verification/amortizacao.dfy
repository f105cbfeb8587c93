/** Extra amortization payments (src/scripts/models/amortizacao.ts): an extra
    principal amount `valor` paid in the months a recurrence rule selects.

    The abstract class `Amortizacao` and its four subclasses become one tagged
    union, `Schedule`; `appliesTo` is an exhaustive match over it. The "Outro"
    variant keeps the interval text it was built from, the term bound, and the
    month ranges parsed from the text. */
module Amortizacao {
  import opened Wrappers
  import opened JsText
  import opened JsNumber

  const REQUIRED_INTERVAL := "Intervalo personalizado é obrigatório para amortizações do tipo 'Outro'"

  /** A closed range of loan months, `[start, end]`. */
  datatype MonthRange = MonthRange(start: int, end: int) {

    predicate Contains(month: int) {
      start <= month <= end
    }
  }

  /** Every range the parser hands out is non-empty and starts at month 1 or later. */
  predicate ValidRanges(ranges: seq<MonthRange>) {
    forall i :: 0 <= i < |ranges| ==> 1 <= ranges[i].start <= ranges[i].end
  }

  datatype Schedule =
    | Mensal(valor: real)
    | Anual(valor: real)
    | Bienal(valor: real)
    | Custom(valor: real, input: Option<string>, termMonths: real, ranges: seq<MonthRange>)
  {
    /** The `type` tag each subclass declares. */
    function Type(): string {
      match this
      case Mensal(_) => "Mensal"
      case Anual(_) => "Anual"
      case Bienal(_) => "Bienal"
      case Custom(_, _, _, _) => "Outro"
    }

    /** Whether the extra amount is paid in loan month `month` (1-based). */
    predicate AppliesTo(month: int) {
      match this
      case Mensal(_) => true
      case Anual(_) => month % 12 == 0
      case Bienal(_) => month % 24 == 0
      case Custom(_, _, termMonths, ranges) =>
        if month as real > termMonths then false
        else exists i :: 0 <= i < |ranges| && ranges[i].Contains(month)
    }
  }

  /** A custom schedule carries exactly the ranges its own interval text parses to,
      which is what the constructor of the custom subclass establishes. */
  predicate WellFormed(s: Schedule) {
    s.Custom? ==> ParseIntervalString(s.input) == Ok(s.ranges)
  }

  /** The factory `Amortizacao.create`. */
  function Create(periodo: string, prazoMeses: real, customInterval: Option<string>, valor: real): (r: Result<Schedule>)
    ensures periodo in {"Mensal", "Anual", "Bienal"} ==> r.Ok?
    ensures periodo == "Outro" ==> (r.Ok? <==> ParseIntervalString(customInterval).Ok?)
    ensures periodo == "Outro" && r.Err? ==> r.msg == ParseIntervalString(customInterval).msg
    ensures periodo !in {"Mensal", "Anual", "Bienal", "Outro"} ==>
              r == Err("Período de amortização inválido: " + periodo)
    ensures r.Ok? ==> r.value.valor == valor && r.value.Type() == periodo && WellFormed(r.value)
    ensures r.Ok? && r.value.Custom? ==>
              r.value.termMonths == prazoMeses && r.value.input == customInterval
  {
    if periodo == "Mensal" then Ok(Mensal(valor))
    else if periodo == "Anual" then Ok(Anual(valor))
    else if periodo == "Bienal" then Ok(Bienal(valor))
    else if periodo == "Outro" then
      var ranges :- ParseIntervalString(customInterval);
      Ok(Custom(valor, customInterval, prazoMeses, ranges))
    else Err("Período de amortização inválido: " + periodo)
  }

  /** `Amortizacao.validateCustomInterval`: succeeds exactly when the interval
      text parses, and fails with the parser's own message otherwise. */
  function ValidateCustomInterval(input: Option<string>): (r: Result<()>)
    ensures r.Ok? <==> ParseIntervalString(input).Ok?
    ensures r.Err? ==> r.msg == ParseIntervalString(input).msg
    ensures input.None? || IsBlank(input.value) ==> r == Err(REQUIRED_INTERVAL)
  {
    var _ :- ParseIntervalString(input);
    Ok(())
  }

  /** `AmortizationCustom.parseIntervalString`: a missing or blank text is
      refused; otherwise the text is split on ',' and every token parsed in order,
      the first bad token aborting the whole parse. */
  function ParseIntervalString(input: Option<string>): (r: Result<seq<MonthRange>>)
    ensures input.None? || IsBlank(input.value) ==> r == Err(REQUIRED_INTERVAL)
    ensures r.Ok? ==> ValidRanges(r.value)
  {
    if input.None? || Trim(input.value) == [] then Err(REQUIRED_INTERVAL)
    else ParseTokens(Split(Trim(input.value), ','))
  }

  /** The loop over the comma-separated tokens; `ParseTokensAllOk` and
      `ParseTokensFirstError` state when and how it fails. */
  function ParseTokens(parts: seq<string>): (r: Result<seq<MonthRange>>)
    ensures r.Ok? ==> ValidRanges(r.value) && |r.value| <= |parts|
  {
    if parts == [] then Ok([])
    else
      var head :- ParseToken(parts[0]);
      var tail :- ParseTokens(parts[1..]);
      Ok(head + tail)
  }

  /** The body of the loop for one token: a blank token contributes nothing; a
      token with '-' is a range read from its first two '-'-pieces; any other
      token is a single month `[n, n]`. */
  function ParseToken(part: string): (r: Result<seq<MonthRange>>)
    ensures r.Ok? ==> ValidRanges(r.value) && |r.value| <= 1
    ensures r.Ok? ==> (r.value == [] <==> IsBlank(part))
    ensures r.Err? && '-' in Trim(part) ==> r.msg == "Intervalo inválido: \"" + Trim(part) + "\""
    ensures r.Err? && '-' !in Trim(part) ==> r.msg == "Mês inválido: \"" + Trim(part) + "\""
  {
    var clean := Trim(part);
    if clean == [] then Ok([])
    else if '-' in clean then
      var pieces := Split(clean, '-');
      assert |pieces| >= 2;
      RangeToken(clean, ToNumber(pieces[0]), ToNumber(pieces[1]))
    else MonthToken(clean, ToNumber(clean))
  }

  /** A range token once its two ends are read: both must be positive integers
      and in order. */
  function RangeToken(clean: string, start: Number, end: Number): (r: Result<seq<MonthRange>>)
    ensures r.Ok? <==> IsInteger(start) && IsInteger(end) && 0.0 < start.v <= end.v
    ensures r.Ok? ==> ValidRanges(r.value) && r.value == [MonthRange(start.v.Floor, end.v.Floor)]
    ensures r.Err? ==> r.msg == "Intervalo inválido: \"" + clean + "\""
  {
    if !IsInteger(start) || !IsInteger(end) || start.v <= 0.0 || end.v <= 0.0 || start.v > end.v then
      Err("Intervalo inválido: \"" + clean + "\"")
    else Ok([MonthRange(start.v.Floor, end.v.Floor)])
  }

  /** A single-month token once read: it must be a positive integer. */
  function MonthToken(clean: string, month: Number): (r: Result<seq<MonthRange>>)
    ensures r.Ok? <==> IsInteger(month) && month.v > 0.0
    ensures r.Ok? ==> ValidRanges(r.value) && r.value == [MonthRange(month.v.Floor, month.v.Floor)]
    ensures r.Err? ==> r.msg == "Mês inválido: \"" + clean + "\""
  {
    if !IsInteger(month) || month.v <= 0.0 then Err("Mês inválido: \"" + clean + "\"")
    else Ok([MonthRange(month.v.Floor, month.v.Floor)])
  }

  /** The recurrence rules: the monthly schedule applies to every month; the
      annual one repeats every 12 months and the biennial one every 24; every
      biennial month is an annual one, and of two annual months 12 apart exactly
      one is biennial; a custom schedule with parsed ranges never applies before
      month 1 nor after its term. */
  lemma Recurrence(valor: real, m: int, s: Schedule)
    ensures Mensal(valor).AppliesTo(m)
    ensures Anual(valor).AppliesTo(m) <==> Anual(valor).AppliesTo(m + 12)
    ensures Bienal(valor).AppliesTo(m) <==> Bienal(valor).AppliesTo(m + 24)
    ensures Bienal(valor).AppliesTo(m) ==> Anual(valor).AppliesTo(m)
    ensures Anual(valor).AppliesTo(m) ==> (Bienal(valor).AppliesTo(m) <==> !Bienal(valor).AppliesTo(m + 12))
    ensures s.Custom? && ValidRanges(s.ranges) && (m < 1 || m as real > s.termMonths) ==> !s.AppliesTo(m)
  {
  }

  /** The plain record a schedule becomes on its way to the worker
      (`JSON.parse(JSON.stringify(schedule))`); `kind` is the JSON key `type`. The
      serialised `ranges` array is never read back and is not kept. */
  datatype SerializedAmortization = SerializedAmortization(
    kind: string,
    valor: real,
    termMonths: Option<real>,
    prazoMeses: Option<real>,
    input: Option<string>)

  /** The own fields of a schedule object that survive JSON serialisation. */
  function ToJSON(s: Schedule): SerializedAmortization {
    match s
    case Custom(valor, input, termMonths, _) =>
      SerializedAmortization("Outro", valor, Some(termMonths), None, input)
    case _ => SerializedAmortization(s.Type(), s.valor, None, None, None)
  }

  /** `Amortizacao.fromJSON`: re-runs the factory, and so the interval validation,
      with the term taken from `termMonths`, else `prazoMeses`, else 0. */
  function FromJSON(json: SerializedAmortization): (r: Result<Schedule>)
    ensures json.termMonths.Some? ==> r == Create(json.kind, json.termMonths.value, json.input, json.valor)
    ensures json.termMonths.None? && json.prazoMeses.Some? ==>
              r == Create(json.kind, json.prazoMeses.value, json.input, json.valor)
    ensures json.termMonths.None? && json.prazoMeses.None? ==> r == Create(json.kind, 0.0, json.input, json.valor)
  {
    Create(json.kind, json.termMonths.GetOr(json.prazoMeses.GetOr(0.0)), json.input, json.valor)
  }

  /** Round trip: every schedule the factory builds is restored unchanged from its
      serialised record — same variant, same `valor`, same term and text, and so
      the same `appliesTo` on every month. */
  lemma JSONRoundTrip(s: Schedule)
    requires WellFormed(s)
    ensures FromJSON(ToJSON(s)) == Ok(s)
    ensures forall month :: FromJSON(ToJSON(s)).value.AppliesTo(month) == s.AppliesTo(month)
  {
  }

  // ----- The printer that `ParseIntervalString` inverts -----

  /** The canonical text of one range: `n` for a single month, `a-b` otherwise. */
  function RenderRange(r: MonthRange): string
    requires 1 <= r.start <= r.end
  {
    if r.start == r.end then NatToString(r.start)
    else NatToString(r.start) + "-" + NatToString(r.end)
  }

  function RenderTokens(ranges: seq<MonthRange>): (tokens: seq<string>)
    requires ValidRanges(ranges)
    ensures |tokens| == |ranges|
    ensures forall i :: 0 <= i < |ranges| ==> tokens[i] == RenderRange(ranges[i])
  {
    if ranges == [] then [] else [RenderRange(ranges[0])] + RenderTokens(ranges[1..])
  }

  /** The canonical interval text of a list of ranges, comma-separated. */
  function Render(ranges: seq<MonthRange>): string
    requires |ranges| >= 1 && ValidRanges(ranges)
  {
    Join(RenderTokens(ranges), ',')
  }

  predicate NoSpace(s: string) {
    forall i :: 0 <= i < |s| ==> !IsSpace(s[i])
  }

  predicate RangeChar(c: char) {
    IsDigit(c) || c == '-'
  }

  lemma RangeCharsHaveNoSpace(s: string)
    requires forall i :: 0 <= i < |s| ==> RangeChar(s[i])
    ensures NoSpace(s)
  {
    forall i | 0 <= i < |s|
      ensures !IsSpace(s[i])
    {
      if IsDigit(s[i]) {
        DigitIsNotSpace(s[i]);
      }
    }
  }

  lemma RenderRangeChars(r: MonthRange)
    requires 1 <= r.start <= r.end
    ensures RenderRange(r) != []
    ensures forall i :: 0 <= i < |RenderRange(r)| ==> RangeChar(RenderRange(r)[i])
    ensures ',' !in RenderRange(r)
  {
  }

  /** The joined text keeps only characters of the pieces and the separator. */
  lemma {:induction false} JoinChars(parts: seq<string>, sep: char, p: char -> bool)
    requires |parts| >= 1
    requires p(sep)
    requires forall k, i :: 0 <= k < |parts| && 0 <= i < |parts[k]| ==> p(parts[k][i])
    ensures forall i :: 0 <= i < |Join(parts, sep)| ==> p(Join(parts, sep)[i])
  {
    if |parts| > 1 {
      JoinChars(parts[1..], sep, p);
      var rest := Join(parts[1..], sep);
      var s := parts[0] + [sep] + rest;
      forall i | 0 <= i < |s|
        ensures p(s[i])
      {
        if i < |parts[0]| {
          assert s[i] == parts[0][i];
        } else if i > |parts[0]| {
          assert s[i] == rest[i - |parts[0]| - 1];
        }
      }
    }
  }

  lemma NoSpaceIsTrimmed(s: string)
    requires NoSpace(s)
    ensures Trim(s) == s
  {
    if s != [] {
      TrimOfTrimmed(s);
    }
  }

  /** A single-month token `n` parses back to `[n, n]`. */
  lemma ParseRenderMonth(n: nat)
    requires n >= 1
    ensures ParseToken(NatToString(n)) == Ok([MonthRange(n, n)])
  {
    var t := NatToString(n);
    DigitsAreTrimmed(t);
    ToNumberOfNatToString(n);
    assert forall i :: 0 <= i < |t| ==> IsDigit(t[i]);
  }

  /** The canonical text `a-b` of a span: no white space, and its '-'-pieces
      are the two renderings. */
  lemma SpanText(a: nat, b: nat)
    requires 1 <= a < b
    ensures NoSpace(NatToString(a) + "-" + NatToString(b))
    ensures '-' in NatToString(a) + "-" + NatToString(b)
    ensures Split(NatToString(a) + "-" + NatToString(b), '-') == [NatToString(a), NatToString(b)]
  {
    var sa := NatToString(a);
    var sb := NatToString(b);
    var t := sa + "-" + sb;
    assert t == sa + ['-'] + sb;
    assert t[|sa|] == '-';
    assert '-' !in sa && '-' !in sb by {
      RenderRangeChars(MonthRange(a, a));
      RenderRangeChars(MonthRange(b, b));
      assert forall i :: 0 <= i < |sa| ==> IsDigit(sa[i]);
      assert forall i :: 0 <= i < |sb| ==> IsDigit(sb[i]);
    }
    SplitAtSeparator(sa, '-', sb);
    SplitWithoutSeparator(sb, '-');
    RenderRangeChars(MonthRange(a, b));
    RangeCharsHaveNoSpace(RenderRange(MonthRange(a, b)));
  }

  /** A range token `a-b` parses back to `[a, b]`. */
  lemma ParseRenderSpan(a: nat, b: nat)
    requires 1 <= a < b
    ensures ParseToken(NatToString(a) + "-" + NatToString(b)) == Ok([MonthRange(a, b)])
  {
    var t := NatToString(a) + "-" + NatToString(b);
    assert (a as real).Floor == a && (b as real).Floor == b;
    assert RangeToken(t, Finite(a as real), Finite(b as real)) == Ok([MonthRange(a, b)]);
    SpanText(a, b);
    ToNumberOfNatToString(a);
    ToNumberOfNatToString(b);
    RangeTokenOf(t, NatToString(a), NatToString(b));
  }

  /** Each canonical token parses back to its range. */
  lemma ParseRenderRange(r: MonthRange)
    requires 1 <= r.start <= r.end
    ensures ParseToken(RenderRange(r)) == Ok([r])
  {
    if r.start == r.end {
      ParseRenderMonth(r.start);
    } else {
      ParseRenderSpan(r.start, r.end);
    }
  }

  /** The loop over a non-empty token list, when its first token and the rest
      both parse. */
  lemma ParseTokensCons(parts: seq<string>, head: seq<MonthRange>, tail: seq<MonthRange>)
    requires parts != [] && ParseToken(parts[0]) == Ok(head) && ParseTokens(parts[1..]) == Ok(tail)
    ensures ParseTokens(parts) == Ok(head + tail)
  {
  }

  lemma {:induction false} ParseRenderTokens(ranges: seq<MonthRange>)
    requires ValidRanges(ranges)
    ensures ParseTokens(RenderTokens(ranges)) == Ok(ranges)
  {
    if ranges != [] {
      var t := RenderTokens(ranges);
      assert t[1..] == RenderTokens(ranges[1..]);
      assert [ranges[0]] + ranges[1..] == ranges;
      ParseRenderRange(ranges[0]);
      ParseRenderTokens(ranges[1..]);
      ParseTokensCons(t, [ranges[0]], ranges[1..]);
    }
  }

  /** Round trip: the canonical text of any non-empty list of valid ranges parses
      back to exactly that list, in the same order. */
  lemma ParseRender(ranges: seq<MonthRange>)
    requires |ranges| >= 1 && ValidRanges(ranges)
    ensures ParseIntervalString(Some(Render(ranges))) == Ok(ranges)
  {
    var tokens := RenderTokens(ranges);
    forall k | 0 <= k < |tokens|
      ensures forall i :: 0 <= i < |tokens[k]| ==> RangeChar(tokens[k][i])
      ensures ',' !in tokens[k]
    {
      RenderRangeChars(ranges[k]);
    }
    var text := Render(ranges);
    JoinChars(tokens, ',', c => RangeChar(c) || c == ',');
    forall i | 0 <= i < |text|
      ensures !IsSpace(text[i])
    {
      if IsDigit(text[i]) {
        DigitIsNotSpace(text[i]);
      }
    }
    NoSpaceIsTrimmed(text);
    assert text != [] by {
      RenderRangeChars(ranges[0]);
      if |tokens| > 1 {
        assert |text| >= |tokens[0]|;
      }
    }
    SplitJoin(tokens, ',');
    ParseRenderTokens(ranges);
  }

  // ----- The behaviours the unit tests pin down -----

  /** A text with one token and no white space parses as that token alone. */
  lemma SingleToken(t: string)
    requires t != [] && NoSpace(t) && ',' !in t
    ensures ParseIntervalString(Some(t)) == ParseToken(t)
  {
    NoSpaceIsTrimmed(t);
    SplitWithoutSeparator(t, ',');
    OneTokenList(t);
  }

  // ----- The loop's failure behaviour -----

  /** The outcome of each token, in order. */
  function Outcomes(parts: seq<string>): (rs: seq<Result<seq<MonthRange>>>)
    ensures |rs| == |parts|
  {
    if parts == [] then [] else [ParseToken(parts[0])] + Outcomes(parts[1..])
  }

  /** A reference for the loop that sees only the tokens' outcomes: the first
      failure, or all the ranges in order. */
  function Gather(rs: seq<Result<seq<MonthRange>>>): Result<seq<MonthRange>> {
    if rs == [] then Ok([])
    else
      var head :- rs[0];
      var tail :- Gather(rs[1..]);
      Ok(head + tail)
  }

  /** The loop is the reference applied to the tokens' outcomes. */
  lemma {:induction false} ParseTokensGather(parts: seq<string>)
    ensures ParseTokens(parts) == Gather(Outcomes(parts))
  {
    if parts != [] {
      ParseTokensGather(parts[1..]);
      assert Outcomes(parts)[1..] == Outcomes(parts[1..]);
    }
  }

  /** The i-th outcome is the i-th token's. */
  lemma {:induction false} OutcomeAt(parts: seq<string>, i: nat)
    requires i < |parts|
    ensures Outcomes(parts)[i] == ParseToken(parts[i])
  {
    if i > 0 {
      OutcomeAt(parts[1..], i - 1);
      assert parts[1..][i - 1] == parts[i];
    }
  }

  /** The reference succeeds exactly when every outcome does. */
  lemma {:induction false} GatherAllOk(rs: seq<Result<seq<MonthRange>>>)
    ensures Gather(rs).Ok? <==> forall i :: 0 <= i < |rs| ==> rs[i].Ok?
  {
    if rs != [] {
      GatherAllOk(rs[1..]);
      assert forall i :: 1 <= i < |rs| ==> rs[i] == rs[1..][i - 1];
    }
  }

  /** The reference reports the first failure, whatever follows it. */
  lemma {:induction false} GatherFirstError(rs: seq<Result<seq<MonthRange>>>, i: nat)
    requires i < |rs| && rs[i].Err?
    requires forall j :: 0 <= j < i ==> rs[j].Ok?
    ensures Gather(rs) == Err(rs[i].msg)
  {
    if i > 0 {
      assert rs[1..][i - 1] == rs[i];
      assert forall j :: 0 <= j < i - 1 ==> rs[1..][j] == rs[j + 1];
      GatherFirstError(rs[1..], i - 1);
    }
  }

  /** The loop succeeds exactly when every token does. */
  lemma ParseTokensAllOk(parts: seq<string>)
    ensures ParseTokens(parts).Ok? <==> forall i {:trigger ParseToken(parts[i])} :: 0 <= i < |parts| ==> ParseToken(parts[i]).Ok?
  {
    var rs := Outcomes(parts);
    ParseTokensGather(parts);
    GatherAllOk(rs);
    forall i | 0 <= i < |parts|
      ensures rs[i] == ParseToken(parts[i])
    {
      OutcomeAt(parts, i);
    }
  }

  /** The loop stops at the first bad token and reports that token's message,
      whatever follows it. */
  lemma ParseTokensFirstError(parts: seq<string>, i: nat)
    requires i < |parts| && ParseToken(parts[i]).Err?
    requires forall j {:trigger ParseToken(parts[j])} :: 0 <= j < i ==> ParseToken(parts[j]).Ok?
    ensures ParseTokens(parts) == Err(ParseToken(parts[i]).msg)
  {
    var rs := Outcomes(parts);
    ParseTokensGather(parts);
    forall j | 0 <= j < i
      ensures rs[j].Ok?
    {
      OutcomeAt(parts, j);
    }
    OutcomeAt(parts, i);
    GatherFirstError(rs, i);
  }

  /** A valid month followed by month 0: the second token's message is the
      result. */
  lemma SecondTokenErrorExample()
    ensures ParseIntervalString(Some("1, 0")) == Err("Mês inválido: \"" + "0" + "\"")
  {
    assert "1, 0" == ['1'] + [','] + [' ', '0'];
    SpacedDigitToken('0');
    MonthThenBadToken('1', [' ', '0']);
  }

  /** A valid one-digit month, a comma, then a bad token: the bad token's
      message is the result. */
  lemma MonthThenBadToken(c: char, u: string)
    requires IsDigit(c) && c != '0'
    requires u != [] && ',' !in u && !IsSpace(u[|u| - 1]) && ParseToken(u).Err?
    ensures ParseIntervalString(Some([c] + [','] + u)) == Err(ParseToken(u).msg)
  {
    TwoTokenText(c, u);
    DigitTokenOk(c);
    SecondTokenFails([c], u);
  }

  /** A nonzero digit is a good month token. */
  lemma DigitTokenOk(c: char)
    requires IsDigit(c) && c != '0'
    ensures ParseToken([c]).Ok?
  {
    DigitTokenValue(c);
  }

  /** The text `c,u` is the two tokens `c` and `u`. */
  lemma TwoTokenText(c: char, u: string)
    requires IsDigit(c) && u != [] && ',' !in u && !IsSpace(u[|u| - 1])
    ensures var t := [c] + [','] + u; Trim(t) == t && Split(t, ',') == [[c], u]
  {
    var t := [c] + [','] + u;
    DigitIsNotSpace(c);
    assert t[|t| - 1] == u[|u| - 1];
    TrimOfTrimmed(t);
    SplitWithoutSeparator(u, ',');
    SplitAtSeparator([c], ',', u);
  }

  /** Two tokens, the first good and the second bad. */
  lemma SecondTokenFails(a: string, u: string)
    requires ParseToken(a).Ok? && ParseToken(u).Err?
    ensures ParseTokens([a, u]) == Err(ParseToken(u).msg)
  {
    ParseTokensFirstError([a, u], 1);
  }

  /** A digit after a blank is read as that digit alone; "0" is refused. */
  lemma SpacedDigitToken(d: char)
    requires IsDigit(d)
    ensures d == '0' ==> ParseToken([' ', d]) == Err("Mês inválido: \"" + [d] + "\"")
  {
    DigitIsNotSpace(d);
    assert Trim([' ', d]) == [d] by {
      assert TrimStart([' ', d]) == [d] by {
        assert [' ', d][1..] == [d];
      }
    }
    if d == '0' {
      assert NoSpace([d]);
      MonthTokenOf([d]);
      DigitNumber(d);
    }
  }

  /** A list of one token parses as that token. */
  lemma OneTokenList(t: string)
    ensures ParseTokens([t]) == ParseToken(t)
  {
    assert [t][1..] == [];
    if ParseToken(t).Ok? {
      assert ParseToken(t).value + [] == ParseToken(t).value;
    }
  }

  /** "1,5-10" is the canonical text of the ranges [1, 1] and [5, 10]. */
  lemma RenderOneFiveTen()
    ensures Render([MonthRange(1, 1), MonthRange(5, 10)]) == "1,5-10"
  {
    var ranges := [MonthRange(1, 1), MonthRange(5, 10)];
    assert NatToString(10) == "10";
    assert RenderRange(ranges[0]) == "1";
    assert RenderRange(ranges[1]) == "5-10";
    assert RenderTokens(ranges) == ["1", "5-10"];
  }

  lemma CustomExampleRanges()
    ensures Create("Outro", 12.0, Some("1,5-10"), 100.0)
            == Ok(Custom(100.0, Some("1,5-10"), 12.0, [MonthRange(1, 1), MonthRange(5, 10)]))
  {
    RenderOneFiveTen();
    ParseRender([MonthRange(1, 1), MonthRange(5, 10)]);
  }

  lemma CustomExampleMonths(s: Schedule)
    requires s == Custom(100.0, Some("1,5-10"), 12.0, [MonthRange(1, 1), MonthRange(5, 10)])
    ensures forall month :: s.AppliesTo(month) <==> month == 1 || 5 <= month <= 10
  {
    forall month
      ensures s.AppliesTo(month) <==> month == 1 || 5 <= month <= 10
    {
      if 5 <= month <= 10 {
        assert s.ranges[1].Contains(month);
      }
      if month == 1 {
        assert s.ranges[0].Contains(month);
      }
    }
  }

  /** "1,5-10" under a 12-month term selects months 1 and 5 to 10 and nothing else. */
  lemma CustomExample()
    ensures Create("Outro", 12.0, Some("1,5-10"), 100.0).Ok?
    ensures forall month ::
              Create("Outro", 12.0, Some("1,5-10"), 100.0).value.AppliesTo(month) <==> month == 1 || 5 <= month <= 10
  {
    CustomExampleRanges();
    CustomExampleMonths(Create("Outro", 12.0, Some("1,5-10"), 100.0).value);
  }

  /** A custom schedule never applies after its term: a single month past the
      term is accepted by the parser but selects nothing. */
  lemma CustomBeyondTerm(n: nat, prazo: real, valor: real)
    requires n >= 1 && n as real > prazo
    ensures Create("Outro", prazo, Some(NatToString(n)), valor).Ok?
    ensures !Create("Outro", prazo, Some(NatToString(n)), valor).value.AppliesTo(n)
  {
    assert [NatToString(n)][1..] == [];
    assert Render([MonthRange(n, n)]) == NatToString(n);
    ParseRender([MonthRange(n, n)]);
  }

  /** The repository's case: "6" under a 5-month term. */
  lemma CustomBeyondTermExample()
    ensures Create("Outro", 5.0, Some("6"), 100.0).Ok?
    ensures !Create("Outro", 5.0, Some("6"), 100.0).value.AppliesTo(6)
  {
    assert NatToString(6) == "6";
    CustomBeyondTerm(6, 5.0, 100.0);
  }

  /** `Number` of a one-digit string. */
  lemma DigitNumber(c: char)
    requires IsDigit(c)
    ensures ToNumber([c]) == Finite(DigitValue(c) as real)
  {
    assert NatToString(DigitValue(c)) == [c];
    ToNumberOfNatToString(DigitValue(c));
  }

  /** A token without white space and with a '-' is read from its first two
      '-'-pieces. */
  lemma RangeTokenOf(s: string, a: string, b: string)
    requires NoSpace(s) && '-' in s && |Split(s, '-')| >= 2 && Split(s, '-')[0] == a && Split(s, '-')[1] == b
    ensures ParseToken(s) == RangeToken(s, ToNumber(a), ToNumber(b))
  {
    NoSpaceIsTrimmed(s);
  }

  /** A token without white space and without a '-' is read as one month. */
  lemma MonthTokenOf(s: string)
    requires s != [] && NoSpace(s) && '-' !in s
    ensures ParseToken(s) == MonthToken(s, ToNumber(s))
  {
    NoSpaceIsTrimmed(s);
  }

  lemma NoSpaceConcat(x: string, y: string)
    requires NoSpace(x) && NoSpace(y)
    ensures NoSpace(x + y)
  {
    forall i | 0 <= i < |x + y|
      ensures !IsSpace((x + y)[i])
    {
      if i >= |x| {
        assert (x + y)[i] == y[i - |x|];
      }
    }
  }

  /** The text `a-b` followed by `tail`, for digits `a` and `b`, has no white
      space, and no ',' unless `tail` has one. */
  lemma DigitRangeChars(a: char, b: char, tail: string)
    requires IsDigit(a) && IsDigit(b) && NoSpace(tail)
    ensures NoSpace([a, '-', b] + tail)
    ensures ',' !in tail ==> ',' !in [a, '-', b] + tail
  {
    DigitIsNotSpace(a);
    DigitIsNotSpace(b);
    assert NoSpace([a, '-', b]);
    NoSpaceConcat([a, '-', b], tail);
  }

  /** The first '-'-piece of a non-'-' character followed by `tail` is that
      character, and there are more pieces exactly when `tail` is not empty. */
  lemma PieceThenTail(b: char, tail: string)
    requires b != '-' && (tail == [] || tail[0] == '-')
    ensures Split([b] + tail, '-')[0] == [b]
    ensures tail == [] <==> |Split([b] + tail, '-')| == 1
  {
    if tail == [] {
      assert [b] + tail == [b];
      SplitWithoutSeparator([b], '-');
    } else {
      assert [b] + tail == [b] + ['-'] + tail[1..];
      SplitAtSeparator([b], '-', tail[1..]);
    }
  }

  /** The first two '-'-pieces of `a-b` followed by `tail` are the digits, and
      there is a third exactly when `tail` is not empty. */
  lemma DigitRangeSplit(a: char, b: char, tail: string)
    requires IsDigit(a) && IsDigit(b) && (tail == [] || tail[0] == '-')
    ensures |Split([a, '-', b] + tail, '-')| >= 2
    ensures Split([a, '-', b] + tail, '-')[0] == [a] && Split([a, '-', b] + tail, '-')[1] == [b]
    ensures tail == [] <==> |Split([a, '-', b] + tail, '-')| == 2
  {
    assert [a, '-', b] + tail == [a] + ['-'] + ([b] + tail);
    SplitAtSeparator([a], '-', [b] + tail);
    PieceThenTail(b, tail);
  }

  /** A token `a-b` of two digits, possibly followed by more '-'-pieces, is
      read as the range of the two digits. */
  lemma DigitRangeToken(a: char, b: char, tail: string)
    requires IsDigit(a) && IsDigit(b) && NoSpace(tail) && (tail == [] || tail[0] == '-')
    ensures ParseToken([a, '-', b] + tail)
            == RangeToken([a, '-', b] + tail, Finite(DigitValue(a) as real), Finite(DigitValue(b) as real))
  {
    var s := [a, '-', b] + tail;
    assert s[1] == '-';
    DigitRangeSplit(a, b, tail);
    DigitRangeChars(a, b, tail);
    RangeTokenOf(s, [a], [b]);
    DigitNumber(a);
    DigitNumber(b);
  }

  /** A whole interval text `a-b` followed by `tail`, for digits `a` and `b`,
      is read as its one range token. */
  lemma DigitRangeText(a: char, b: char, tail: string)
    requires IsDigit(a) && IsDigit(b) && NoSpace(tail) && ',' !in tail && (tail == [] || tail[0] == '-')
    ensures ParseIntervalString(Some([a, '-', b] + tail))
            == RangeToken([a, '-', b] + tail, Finite(DigitValue(a) as real), Finite(DigitValue(b) as real))
  {
    var t := [a, '-', b] + tail;
    DigitRangeChars(a, b, tail);
    var v := RangeToken(t, Finite(DigitValue(a) as real), Finite(DigitValue(b) as real));
    assert ParseToken(t) == v by { DigitRangeToken(a, b, tail); }
    assert ParseIntervalString(Some(t)) == v by { SingleToken(t); }
  }

  /** A range of two digits whose start exceeds its end is refused, the
      message quoting the token. */
  lemma ReversedDigitRange(a: char, b: char)
    requires IsDigit(a) && IsDigit(b) && b < a
    ensures ParseIntervalString(Some([a, '-', b])) == Err("Intervalo inválido: \"" + [a, '-', b] + "\"")
  {
    assert [a, '-', b] + [] == [a, '-', b];
    DigitRangeText(a, b, []);
  }

  /** The repository's case: "5-1" is refused. */
  lemma ReversedRangeExample()
    ensures ParseIntervalString(Some("5-1")) == Err("Intervalo inválido: \"" + "5-1" + "\"")
  {
    assert ['5', '-', '1'] == "5-1";
    ReversedDigitRange('5', '1');
  }

  /** A one-digit token is that month, except "0", which is refused as a month. */
  lemma DigitMonth(c: char)
    requires IsDigit(c)
    ensures c == '0' ==> ParseIntervalString(Some([c])) == Err("Mês inválido: \"" + [c] + "\"")
    ensures c != '0' ==> ParseIntervalString(Some([c])) == Ok([MonthRange(DigitValue(c), DigitValue(c))])
  {
    DigitText(c);
    DigitTokenValue(c);
    assert (DigitValue(c) as real).Floor == DigitValue(c);
  }

  /** A one-digit text is one token. */
  lemma DigitText(c: char)
    requires IsDigit(c)
    ensures ParseIntervalString(Some([c])) == ParseToken([c])
  {
    DigitIsNotSpace(c);
    assert NoSpace([c]);
    SingleToken([c]);
  }

  /** A one-digit token is read as a month. */
  lemma DigitTokenValue(c: char)
    requires IsDigit(c)
    ensures ParseToken([c]) == MonthToken([c], Finite(DigitValue(c) as real))
  {
    DigitIsNotSpace(c);
    assert NoSpace([c]);
    MonthTokenOf([c]);
    DigitNumber(c);
  }

  /** The repository's case: month 0 is refused. */
  lemma ZeroMonthExample()
    ensures ParseIntervalString(Some("0")) == Err("Mês inválido: \"" + "0" + "\"")
  {
    assert ['0'] == "0";
    DigitMonth('0');
  }

  /** A '-' before a digit makes a range with an empty start, which `Number`
      reads as 0: refused as an interval, not as a month. */
  lemma NegativeDigit(b: char)
    requires IsDigit(b)
    ensures ParseIntervalString(Some(['-', b])) == Err("Intervalo inválido: \"" + ['-', b] + "\"")
  {
    var s := ['-', b];
    assert s == [] + ['-'] + [b];
    assert s[0] == '-';
    SplitAtSeparator([], '-', [b]);
    SplitWithoutSeparator([b], '-');
    assert Split(s, '-') == [[], [b]];
    DigitIsNotSpace(b);
    assert NoSpace(s);
    SingleToken(s);
    RangeTokenOf(s, [], [b]);
    assert ToNumber([]) == Finite(0.0);
  }

  /** The repository's case: "-1" is refused as an interval. */
  lemma NegativeMonthExample()
    ensures ParseIntervalString(Some("-1")) == Err("Intervalo inválido: \"" + "-1" + "\"")
  {
    assert ['-', '1'] == "-1";
    NegativeDigit('1');
  }

  /** Only the first two '-'-pieces are read: a digit range followed by more
      pieces is the range of its first two. */
  lemma ExtraPiecesIgnored(a: char, b: char, tail: string)
    requires IsDigit(a) && IsDigit(b) && '0' < a <= b
    requires NoSpace(tail) && ',' !in tail && (tail == [] || tail[0] == '-')
    ensures ParseIntervalString(Some([a, '-', b] + tail)) == Ok([MonthRange(DigitValue(a), DigitValue(b))])
  {
    DigitRangeText(a, b, tail);
    assert (DigitValue(a) as real).Floor == DigitValue(a);
    assert (DigitValue(b) as real).Floor == DigitValue(b);
  }

  /** The repository's case: "1-2-3" is the range [1, 2]. */
  lemma ExtraPieceIgnoredExample()
    ensures ParseIntervalString(Some("1-2-3")) == Ok([MonthRange(1, 2)])
  {
    assert ['1', '-', '2'] + "-3" == "1-2-3";
    assert NoSpace("-3");
    ExtraPiecesIgnored('1', '2', "-3");
  }

  /** Blank and missing interval texts are refused with the same message. */
  lemma BlankIntervalExample()
    ensures ParseIntervalString(Some("")) == Err(REQUIRED_INTERVAL)
    ensures ParseIntervalString(Some("   ")) == Err(REQUIRED_INTERVAL)
    ensures ParseIntervalString(None) == Err(REQUIRED_INTERVAL)
  {
  }

  /** An unknown period is refused, naming it. */
  lemma UnknownPeriodExample()
    ensures Create("Invalido", 12.0, None, 100.0) == Err("Período de amortização inválido: Invalido")
  {
  }
}
