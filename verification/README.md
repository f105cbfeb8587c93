# Mortgage simulator core, in Dafny

This project models the computational core of *js-simulador-financiamento-imobiliario*, a browser-based Brazilian mortgage simulator:

- **The SAC engine** (`SimuladorFinanciamento.calculate` / `calcularSAC`). It runs the month-by-month amortisation loop of the *Sistema de Amortização Constante*. Each month it charges interest on the balance and pays a fixed principal plus any extra payments, capped at the balance. It accumulates the totals and raises the source's three errors.
- **The extra-payment schedules, current version** (`Amortizacao.create`, `fromJSON`, `validateCustomInterval`, the four `appliesTo` rules, `AmortizationCustom.parseIntervalString`). This is a tagged union over Mensal, Anual, Bienal and Outro. The custom variant parses interval texts such as `"1, 5-10"`.
- **The extra-payment schedules, legacy version** (`Amortizacao.parse` in `src/scripts/amortizacao.ts`). It reads the same input language but materialises explicit month lists. It reads tokens with `parseInt` and uses its own range rules.
- **The numeric-field utilities:**
  - reading Brazilian-formatted numbers (`1.234,56`);
  - `parseNumericField`, with its required/default options;
  - the message ladder of `validateMaskedNumericField`.
- **The unit conversions of `FormController.collectValoresSimulacao`**: years to months, and annual insurance and fees to monthly ones.
- **`Math.clamp`**.
- **`Function.oneshot` and `Function.debounce`**, in the current (reset-on-call) and the legacy (drop-while-pending) versions. Both are modelled as state machines over an explicit millisecond clock.
- **The colour helpers of the build scripts**: `parseColor`, `isColorDark` and `getContrastRatio`. They follow the definitions of "relative luminance" and "contrast ratio" in the glossary of WCAG 2.1.

One Dafny module per source file:

| module | file | source |
|---|---|---|
| `Simulador` | simulador.dfy | src/scripts/simulador.ts |
| `Amortizacao` | amortizacao.dfy | src/scripts/models/amortizacao.ts |
| `LegacyAmortizacao` | legacy_amortizacao.dfy | src/scripts/amortizacao.ts |
| `NumericField` | numeric_field.dfy | src/scripts/utils/numeric-field.ts |
| `FormController` | form_controller.dfy | src/scripts/ui/form-controller.ts |
| `MathExt` | math_ext.dfy | src/scripts/utils/extensions/math.ts |
| `FunctionExt` | function_ext.dfy | src/scripts/utils/extensions/function.ts |
| `LegacyFunctionExt` | legacy_function_ext.dfy | src/scripts/extensions/function.ts |
| `Color` | color.dfy | build/utils/color.mjs |

Three support modules sit under them:

- **`Wrappers`**: `Result` and `Option`. `Err(msg)` stands for a thrown `Error(msg)`.
- **`JsText`**: `trim`, `split` on one character, and character replacement. It uses the JavaScript white-space set.
- **`JsNumber`**: a JavaScript number is `Finite(v)` over exact reals, or `NaN`. The module also holds restricted versions of `Number()`, `parseInt` and `parseFloat`.

Modelling choices:

- **Exact reals.** Amounts, rates and terms are exact reals. The term is a real because the form can produce a fractional one.
- **`Math.pow` as a parameter.** Both uses of `Math.pow` are a function parameter `pow`: the monthly rate in the engine, and the sRGB gamma curve in the colours.
- **The engine's schedules.** The engine takes the current schedule datatype, because `valor` and `appliesTo` are all it uses of a schedule.
- **The engine as written.** `calcularSAC` is modelled twice:
  - as a functional reference, the row recurrence `Evolucao`;
  - as the imperative loop with its accumulators (`Laco`, `CalcularSACLoop`), proved equal to the reference.

## Model

| member | source | states |
|---|---|---|
| Simulador.Calculate | src/scripts/simulador.ts:55-66 | PRICE fails with "Tabela de amortização não implementada"; any table other than SAC and PRICE fails with "Tabela de amortização inválida"; SAC is `calcularSAC` |
| Simulador.CalcularSAC | src/scripts/simulador.ts:68-133 | a term ≤ 0 fails with "Prazo inválido" before any row; otherwise the only failure is "Nenhuma parcela gerada"; the simulation succeeds exactly when the term reaches one month and the financed amount (price − down payment) is positive; the rows are the loop's rows from month 1, and insurance and fee pass through |
| Simulador.CalcularSACLoop | src/scripts/simulador.ts:68-133 | the method written as the source's loop, with its running totals, returns exactly the result `CalcularSAC` describes, errors included |
| Simulador.Laco | src/scripts/simulador.ts:76-116 | the `for` loop produces exactly the rows of `Evolucao` from month 1, and its three accumulators are the column sums of those rows (interest, principal, charges) |
| Simulador.Mes | src/scripts/simulador.ts:84-115 | one pass of the loop body computes the row `Linha` specifies |
| Simulador.Linha | src/scripts/simulador.ts:85-115 | a row never pays more principal than the balance; the new balance is the old one minus the principal and is never negative; interest is balance × monthly rate; the installment is principal + interest; the charge is the installment plus insurance and fee |
| Simulador.LinhaCap | src/scripts/simulador.ts:89-92 | the month's principal is the fixed installment plus the month's extra payments unless that reaches the balance, in which case it is the balance; the row pays the loan off exactly when fixed + extras ≥ balance |
| Simulador.ExtraDoMes | src/scripts/simulador.ts:89-91 | the month's extra payment: the `valor` of every schedule that applies to the month, summed in list order; its properties are stated by `ExtraNonNegative`, `ExtraNone` and `ExtraSingle` |
| Simulador.ExtraNonNegative | src/scripts/simulador.ts:89-91 | when every schedule's `valor` is ≥ 0, the month's extra payment is ≥ 0 |
| Simulador.ExtraNone | src/scripts/simulador.ts:89-91 | a month no schedule applies to gets no extra payment |
| Simulador.ExtraSingle | src/scripts/simulador.ts:89-91 | one schedule contributes its `valor` exactly in the months it applies to |
| Simulador.Evolucao | src/scripts/simulador.ts:83 | the loop produces a row exactly when the month is within the term and the balance is positive |
| Simulador.EvolucaoStep | src/scripts/simulador.ts:83-116 | the schedule from a month within the term with a positive balance is that month's row followed by the schedule from the next month and the row's balance |
| Simulador.EvolucaoRows | src/scripts/simulador.ts:83-116 | every row is one iteration: its month lies within the term, the balance before it is positive, and it is the row computed from the previous row's balance |
| Simulador.EvolucaoLength | src/scripts/simulador.ts:83 | the last row is for a month no later than the term, so there are never more rows than months in the term |
| Simulador.EarlyStop | src/scripts/simulador.ts:83-103 | every row but the last leaves a positive balance, and a last row before the end of the term leaves 0: the loop stops early only on a paid-off loan |
| Simulador.Conservation | src/scripts/simulador.ts:92-103 | the principal paid over the rows is the starting balance minus the balance left |
| Simulador.NonIncreasing | src/scripts/simulador.ts:103 | with a non-negative fixed installment and non-negative extras, each row's balance lies between 0 and the balance before it |
| Simulador.ChargesTotal | src/scripts/simulador.ts:96-97 | insurance and fee over the rows total the row count times the monthly amount |
| Simulador.PaidOff | src/scripts/simulador.ts:75-103 | over a whole number of months, a balance of at most the remaining months' fixed installments is paid off: the last row leaves 0 |
| Simulador.ZeroRateRow | src/scripts/simulador.ts:85-103 | without interest or extras, a month starting with k ≥ 1 installments of balance pays exactly one installment and no interest |
| Simulador.ZeroRateRows | src/scripts/simulador.ts:83-103 | without interest or extras, k installments of balance with k months to go take exactly k rows of one installment each |
| Simulador.ResultadoTotals | src/scripts/simulador.ts:122-132 | in a successful result the effective cost is financed + total interest + rows × (insurance + fee); the principal paid is financed − the last balance; the first and last installments are those of the first and last rows; the rows fit in the term |
| Simulador.ResultadoRows | src/scripts/simulador.ts:83-115 | every row of a successful result charges interest on the balance before it, takes its principal off that balance, and has installment = principal + interest and charge = installment + insurance + fee |
| Simulador.Payoff | src/scripts/simulador.ts:73-103 | over a whole number of months, with non-negative extras and a positive financed amount, the simulation succeeds, the last balance is 0, and the principal paid equals the amount financed |
| Simulador.ZeroRate | src/scripts/simulador.ts:75-103 | with a zero rate, no extras and an n-month term there are exactly n rows, each with installment financed / n and no interest, and the effective cost is financed + n × (insurance + fee) |
| Simulador.OneMonth | src/scripts/simulador.ts:68-132 | without interest, a one-month term pays the whole financed amount in its single row and leaves nothing |
| Simulador.TwoMonths | src/scripts/simulador.ts:68-132 | without interest, a two-month term pays half of the financed amount in each row: half is left after the first, nothing after the second |
| Simulador.OneMonthExample | src/scripts/simulador.ts:68-132 | 100 000 over one month at 0 % is one installment of 100 000 |
| Simulador.TwoMonthExample | src/scripts/simulador.ts:68-132 | 100 000 over two months at 0 % is two installments of 50 000 |
| Amortizacao.Create | src/scripts/models/amortizacao.ts:37-56 | "Mensal", "Anual" and "Bienal" always succeed; "Outro" succeeds exactly when its interval text parses, and fails with the parser's message otherwise; any other period fails with "Período de amortização inválido: <p>"; a result carries `valor`, the period's type tag, the term and text, and exactly the ranges its text parses to |
| Amortizacao.AppliesTo | src/scripts/models/amortizacao.ts:81-141 | the four `appliesTo` rules: every month; months divisible by 12; months divisible by 24; months within the term that lie in one of the custom ranges; their consequences are stated by `Recurrence` |
| Amortizacao.Recurrence | src/scripts/models/amortizacao.ts:81-141 | the monthly schedule applies to every month; the annual one repeats every 12 months and the biennial one every 24; biennial months are annual months, and of two annual months 12 apart exactly one is biennial; a custom schedule never applies before month 1 or after its term |
| Amortizacao.ValidateCustomInterval | src/scripts/models/amortizacao.ts:68-70 | succeeds exactly when the interval text parses, and fails with the parser's own message |
| Amortizacao.ParseIntervalString | src/scripts/models/amortizacao.ts:149-189 | a missing or blank text fails with "Intervalo personalizado é obrigatório para amortizações do tipo 'Outro'"; every range returned satisfies 1 ≤ start ≤ end |
| Amortizacao.ParseTokens | src/scripts/models/amortizacao.ts:155-188 | the loop over tokens returns at most one range per token, all valid; when it fails is stated by `ParseTokensAllOk` and `ParseTokensFirstError` |
| Amortizacao.ParseTokensAllOk | src/scripts/models/amortizacao.ts:158-188 | the loop succeeds exactly when every token parses |
| Amortizacao.ParseTokensFirstError | src/scripts/models/amortizacao.ts:158-178 | when tokens before the i-th parse and the i-th does not, the whole parse fails with the i-th token's message, whatever follows |
| Amortizacao.ParseTokensGather | src/scripts/models/amortizacao.ts:158-188 | the loop equals a reference that sees only each token's outcome: the first failure, or all ranges in order |
| Amortizacao.GatherAllOk | src/scripts/models/amortizacao.ts:158-188 | the reference succeeds exactly when every outcome is a success |
| Amortizacao.GatherFirstError | src/scripts/models/amortizacao.ts:158-178 | the reference reports the first failure and ignores the outcomes after it |
| Amortizacao.MonthThenBadToken | src/scripts/models/amortizacao.ts:156-178 | a valid one-digit month, a comma and then a bad token fail with the bad token's message |
| Amortizacao.SpacedDigitToken | src/scripts/models/amortizacao.ts:159-178 | a token of a blank and "0" is trimmed and refused with `Mês inválido: "0"` |
| Amortizacao.SecondTokenErrorExample | src/scripts/models/amortizacao.ts:150-178 | "1, 0" fails with `Mês inválido: "0"`: a bad token after a good one aborts the parse |
| Amortizacao.ParseToken | src/scripts/models/amortizacao.ts:158-185 | a token gives no range exactly when it is blank, and otherwise at most one valid range; a failing token with '-' gives `Intervalo inválido: "<tok>"`, without '-' `Mês inválido: "<tok>"`, quoting the trimmed token |
| Amortizacao.RangeToken | src/scripts/models/amortizacao.ts:162-174 | a range is accepted exactly when both ends are integers, positive and in order, and is then `[start, end]` |
| Amortizacao.MonthToken | src/scripts/models/amortizacao.ts:175-185 | a single month is accepted exactly when it is a positive integer n, and is then `[n, n]` |
| Amortizacao.RangeTokenOf | src/scripts/models/amortizacao.ts:162-165 | a token with '-' is read from its first two '-'-pieces through `Number` |
| Amortizacao.MonthTokenOf | src/scripts/models/amortizacao.ts:175-176 | a token without '-' is read as one month through `Number` |
| Amortizacao.FromJSON | src/scripts/models/amortizacao.ts:58-61 | restoring re-runs the factory with the term from `termMonths`, else `prazoMeses`, else 0 |
| Amortizacao.JSONRoundTrip | src/scripts/models/amortizacao.ts:58-61 | every schedule the factory builds is restored unchanged from its serialised record, so `appliesTo` agrees on every month |
| Amortizacao.ParseRender | src/scripts/models/amortizacao.ts:149-189 | round trip: the canonical text (`n` or `a-b`, comma-separated) of any non-empty list of valid ranges parses back to exactly that list, in order |
| Amortizacao.ParseRenderTokens | src/scripts/models/amortizacao.ts:155-188 | the canonical tokens of a list of valid ranges parse back to that list |
| Amortizacao.ParseRenderRange | src/scripts/models/amortizacao.ts:158-185 | the canonical token of a range parses back to that range |
| Amortizacao.SingleToken | src/scripts/models/amortizacao.ts:150-160 | a text of one token without white space or commas parses as that token |
| Amortizacao.CustomExampleRanges | src/scripts/models/amortizacao.ts:128-135 | "1,5-10" with a 12-month term builds a custom schedule holding the ranges [1, 1] and [5, 10] |
| Amortizacao.CustomExampleMonths | src/scripts/models/amortizacao.ts:137-141 | that schedule applies to month 1 and months 5 to 10 and nothing else |
| Amortizacao.CustomExample | src/scripts/models/amortizacao.ts:128-141 | "1,5-10" under a 12-month term is accepted and selects months 1 and 5 to 10 only |
| Amortizacao.CustomBeyondTerm | src/scripts/models/amortizacao.ts:137-138 | a single month past the term is accepted by the parser but selected by no custom schedule |
| Amortizacao.CustomBeyondTermExample | tests/amortizacao.test.ts:82-85 | "6" under a 5-month term does not apply to month 6 |
| Amortizacao.ReversedDigitRange | src/scripts/models/amortizacao.ts:167-169 | a range of two digits whose start exceeds its end fails with `Intervalo inválido: "<tok>"` |
| Amortizacao.ReversedRangeExample | tests/amortizacao.test.ts:99-102 | "5-1" fails with `Intervalo inválido: "5-1"` |
| Amortizacao.DigitMonth | src/scripts/models/amortizacao.ts:175-184 | a one-digit token is that month, except "0", which fails with `Mês inválido: "0"` |
| Amortizacao.ZeroMonthExample | tests/amortizacao.test.ts:104-108 | "0" fails with `Mês inválido: "0"` |
| Amortizacao.NegativeDigit | src/scripts/models/amortizacao.ts:162-169 | "-d" is a range with an empty start, which `Number` reads as 0, so it fails as an interval |
| Amortizacao.NegativeMonthExample | tests/amortizacao.test.ts:104-108 | "-1" fails with `Intervalo inválido: "-1"` |
| Amortizacao.ExtraPiecesIgnored | src/scripts/models/amortizacao.ts:162-174 | only the first two '-'-pieces are read: a valid digit range followed by more pieces is the range of its first two |
| Amortizacao.ExtraPieceIgnoredExample | src/scripts/models/amortizacao.ts:162-174 | "1-2-3" is the range [1, 2] |
| Amortizacao.BlankIntervalExample | tests/amortizacao.test.ts:93-97 | "", "   " and a missing text all fail with the required-interval message |
| Amortizacao.UnknownPeriodExample | tests/amortizacao.test.ts:25-29 | the period "Invalido" fails with "Período de amortização inválido: Invalido" |
| LegacyAmortizacao.Multiples | src/scripts/amortizacao.ts:14-31 | the `for` loop lists strictly increasing months from its start up to the term |
| LegacyAmortizacao.MultiplesMembers | src/scripts/amortizacao.ts:14-31 | the loop lists exactly the months on the grid of its start and step between the start and the term |
| LegacyAmortizacao.Interval | src/scripts/amortizacao.ts:53-55 | a range expands to every month from start to end, in order, and to nothing else |
| LegacyAmortizacao.TrimAll | src/scripts/amortizacao.ts:39 | each token is trimmed, positions kept |
| LegacyAmortizacao.NonEmpty | src/scripts/amortizacao.ts:39 | exactly the non-empty tokens are kept |
| LegacyAmortizacao.Parse | src/scripts/amortizacao.ts:12-70 | the periodic periods always succeed; "Outro" with a missing or blank text fails with the required-interval message; an unknown period fails with "Período de amortização inválido: <p>"; every listed month is ≥ 1 and the amount is kept |
| LegacyAmortizacao.ParseOutro | src/scripts/amortizacao.ts:32-66 | the "Outro" period is the custom branch, whatever the term |
| LegacyAmortizacao.ParseCustom | src/scripts/amortizacao.ts:32-66 | a missing or blank text fails with the required-interval message; accepted lists hold months ≥ 1 |
| LegacyAmortizacao.ExpandParts | src/scripts/amortizacao.ts:40-64 | the tokens' months, concatenated in token order, all ≥ 1 |
| LegacyAmortizacao.ExpandPart | src/scripts/amortizacao.ts:41-63 | an accepted token gives at least one month ≥ 1; a failing token with '-' gives "Intervalo inválido: <tok>", without '-' "Mês inválido: <tok>", unquoted |
| LegacyAmortizacao.ExpandRange | src/scripts/amortizacao.ts:41-56 | an accepted range gives at least one month ≥ 1; a failing one gives "Intervalo inválido: <tok>" |
| LegacyAmortizacao.ExpandSpan | src/scripts/amortizacao.ts:47-55 | a range is accepted exactly when both ends read as positive integers in order, and is then every month between them |
| LegacyAmortizacao.ExpandMonth | src/scripts/amortizacao.ts:59-63 | a month is accepted exactly when `parseInt` reads a positive integer, which is then the only month |
| LegacyAmortizacao.LegacyRangeToken | src/scripts/amortizacao.ts:41-55 | an accepted range token has exactly two '-'-pieces and expands to the months between their trimmed `parseInt` readings |
| LegacyAmortizacao.PeriodicMembers | src/scripts/amortizacao.ts:14-31 | the annual list holds exactly the multiples of 12 from 1 to the term, the biennial list the multiples of 24, the monthly list every month from 1 to the term |
| LegacyAmortizacao.PeriodicRefinement | src/scripts/amortizacao.ts:14-31 | for months from 1 to the term, a month is in the legacy list of a periodic schedule exactly when the current schedule of the same period applies to it |
| LegacyAmortizacao.TokenAgreement | src/scripts/amortizacao.ts:41-63 | a non-blank token both parsers accept denotes the same months in both |
| LegacyAmortizacao.TokensAgreement | src/scripts/amortizacao.ts:38-64 | where both token loops succeed, the legacy list holds exactly the months the current ranges cover |
| LegacyAmortizacao.CustomAgreement | src/scripts/amortizacao.ts:32-66 | where both versions accept the same custom text, the legacy list holds exactly the months the current ranges cover, and within the term exactly the months the current schedule applies to |
| LegacyAmortizacao.LegacySingleToken | src/scripts/amortizacao.ts:33-39 | a text of one token without white space or commas is parsed as that token alone |
| LegacyAmortizacao.TrailingGarbage | src/scripts/amortizacao.ts:59-63 | a nonzero digit followed by a stray character is that month to the legacy parser, and the current parser refuses it with `Mês inválido` |
| LegacyAmortizacao.TrailingGarbageExample | src/scripts/amortizacao.ts:59-63 | "5x" is month 5 to the legacy parser and refused by the current one |
| LegacyAmortizacao.NotTwoPieces | src/scripts/amortizacao.ts:42-45 | a token with '-' that does not split into exactly two pieces fails with "Intervalo inválido: <tok>" |
| LegacyAmortizacao.ThreePieces | src/scripts/amortizacao.ts:41-45 | a digit range followed by a third '-'-piece is refused by the legacy parser and read by the current one as the range of its first two pieces |
| LegacyAmortizacao.ThreePieceExample | src/scripts/amortizacao.ts:41-45 | "1-2-3" is refused by the legacy parser and is [1, 2] to the current one |
| LegacyAmortizacao.LegacyMonthText | src/scripts/amortizacao.ts:59-63 | a canonically written month n is the legacy list [n], whatever the term |
| LegacyAmortizacao.BeyondTerm | src/scripts/amortizacao.ts:38-66 | the legacy list is not bounded by the term: a month past the term is listed, while the current schedule never applies to it |
| LegacyAmortizacao.BeyondTermExample | src/scripts/amortizacao.ts:38-66 | "30" under a 12-month term is listed by the legacy parser and not applied by the current schedule |
| LegacyAmortizacao.DuplicateMonth | src/scripts/amortizacao.ts:38-66 | a repeated month is listed twice |
| LegacyAmortizacao.DuplicateMonthExample | src/scripts/amortizacao.ts:38-66 | "1,1" lists month 1 twice |
| JsNumber.ParseIntAgreesWithNumber | src/scripts/amortizacao.ts:47-48 | where `Number` reads a token as a positive integer, `parseInt` of the trimmed token reads the same integer |
| NumericField.Normalize | src/scripts/utils/numeric-field.ts:22-33 | the result never has a comma; without a comma the text is unchanged; with a comma and no period each comma becomes a point and nothing else changes; with both, the result holds the input's other characters and points, and is shorter by the number of periods; where the points go is stated by `NormalizeDropsPeriods` |
| NumericField.NormalizeDropsPeriods | src/scripts/utils/numeric-field.ts:25-28 | with both a comma and a period, the text normalises exactly as it would with its periods deleted first, and that text has a comma and no period |
| NumericField.ParseBrazilianNumber | src/scripts/utils/numeric-field.ts:22-36 | a text without a comma is read by `parseFloat` as it stands; a number only comes from a text with a digit |
| NumericField.Reading | src/scripts/utils/numeric-field.ts:80-84 | a field without a digit, comma or period reads as NaN, any other field by `parseBrazilianNumber`; a field that reads as a number has a digit |
| NumericField.NormalizeKeepsDigits | src/scripts/utils/numeric-field.ts:25-33 | normalisation keeps every digit, in order, and adds none |
| NumericField.NormalizeDecimalPoints | src/scripts/utils/numeric-field.ts:25-33 | with a comma present, the points of the result are the commas, plus the periods when there was no period to drop |
| NumericField.ParseNumericField | src/scripts/utils/numeric-field.ts:68-85 | it fails exactly on an empty, required field without a default, with "Campo '<id>' é obrigatório"; an empty field gives the default if any, else `null` when optional; a non-empty field always gives a number: NaN without a digit, comma or period, else its Brazilian reading |
| NumericField.ValidateMaskedNumericField | src/scripts/utils/numeric-field.ts:93-131 | exactly one message, by priority: empty → "Campo obrigatório" if required else ""; NaN → "Valor inválido"; below min → "Valor abaixo do mínimo"; above max → "Valor acima do máximo"; else "" |
| NumericField.ValidIff | src/scripts/utils/numeric-field.ts:93-131 | a field is valid exactly when it is empty and optional, or reads as a number within its bounds |
| NumericField.BoundsInclusive | src/scripts/utils/numeric-field.ts:120-128 | a number equal to either bound is valid |
| NumericField.NoBounds | src/scripts/utils/numeric-field.ts:98-99 | a missing or empty `min`/`max` attribute imposes no bound |
| NumericField.IntegerField | src/scripts/utils/numeric-field.ts:80-84 | a field of digits only reads as the integer they denote |
| NumericField.DecimalComma | src/scripts/utils/numeric-field.ts:29-35 | `digits,digits` reads as the integer part plus the fraction |
| NumericField.ThousandsSeparators | src/scripts/utils/numeric-field.ts:25-28 | a text `i,f` reads as the integer of the digits of `i` plus the fraction `f`, wherever the periods stand in `i`, for any integer part `i` of digits and periods that starts with a digit and any digits `f` |
| NumericField.ThousandsGroup | src/scripts/utils/numeric-field.ts:25-28 | periods grouping the integer part before a decimal comma are thousands separators: the field reads the same with them deleted |
| NumericField.DecimalCommaExample | tests/numeric-field.test.ts:76-79 | "1234,56" reads as 1234.56 |
| NumericField.ThousandsExample | tests/numeric-field.test.ts:66-69 | "1.234,56" reads as 1234.56 |
| NumericField.PointReading | tests/numeric-field.test.ts:81-84 | "1234.56" reads as 1234.56 |
| NumericField.AbcExample | tests/numeric-field.test.ts:98-101 | "abc" gives NaN |
| NumericField.RequiredEmptyExample | tests/numeric-field.test.ts:41-44 | an empty required field "test-field" fails with "Campo 'test-field' é obrigatório" |
| NumericField.BelowMinimumExample | tests/numeric-field.test.ts:132-136 | "50" with a minimum of 100 gets "Valor abaixo do mínimo" |
| FormController.Required | src/scripts/ui/form-controller.ts:152-154 | a required field fails exactly when empty, with "Campo '<id>' é obrigatório", and otherwise gives its reading |
| FormController.Optional | src/scripts/ui/form-controller.ts:157-158 | an optional field is 0 when empty, and otherwise its reading |
| FormController.Collect | src/scripts/ui/form-controller.ts:151-181 | collecting fails exactly when a required field is empty, naming the first of value, down payment, interest and term that is; price and down payment are their readings; table and correction pass through; the rate projection is 0 |
| FormController.Conversions | src/scripts/ui/form-controller.ts:165-168 | a term in years is multiplied by 12; insurance and fee entered as annual are divided by 12; the interest rate is kept when "Anual" and divided by 12 otherwise; NaN stays NaN |
| FormController.YearsAsMonths | src/scripts/ui/form-controller.ts:166 | n years and 12 n months give the same collected values |
| FormController.AnnualInsuranceAsMonthly | src/scripts/ui/form-controller.ts:168 | an annual insurance of 12 x and a monthly one of x give the same collected values |
| FormController.AnnualFeeAsMonthly | src/scripts/ui/form-controller.ts:167 | an annual fee of 12 x and a monthly one of x give the same collected values |
| FormController.EngineInput | src/scripts/ui/form-controller.ts:170-180 | entered in the engine's own units, every number reaches the engine unchanged |
| MathExt.Clamp | src/scripts/utils/extensions/math.ts:10-12 | the result never exceeds the maximum; for a proper range it lies in it, is the value itself inside it, the minimum below it and the maximum above it; for an inverted range it is the maximum |
| MathExt.ClampNearest | src/scripts/utils/extensions/math.ts:11 | for a proper range the result is the point of the range nearest to the value |
| MathExt.ClampIdempotent | src/scripts/utils/extensions/math.ts:11 | clamping twice is clamping once |
| MathExt.ClampExamples | tests/extensions.test.ts:91-119 | the repository's clamp cases: in range, below, above, at both boundaries, negative and fractional ranges |
| FunctionExt.OneshotCall | src/scripts/utils/extensions/function.ts:17-21 | the first call runs the predicate with its arguments; every later call changes nothing |
| FunctionExt.OneshotAtMostOnce | src/scripts/utils/extensions/function.ts:14-24 | whatever the calls, a fresh wrapper runs its predicate at most once, and exactly once, with the first call's arguments, if it is called at all |
| FunctionExt.DebounceCall | src/scripts/utils/extensions/function.ts:29-34 | a call replaces any pending timer with one `amount` ms from now carrying its arguments, and runs nothing |
| FunctionExt.Wait | src/scripts/utils/extensions/function.ts:33 | when time passes, a timer falling due runs the predicate at its due time with its arguments, once; otherwise nothing runs |
| FunctionExt.Step | src/scripts/utils/extensions/function.ts:26-37 | a call or a lapse of time keeps the debounced wrapper's state well formed (a pending timer is due neither before now nor more than `amount` ms from now) and never changes `amount` |
| FunctionExt.BurstRunsOnce | src/scripts/utils/extensions/function.ts:26-37 | a burst of calls runs the predicate exactly once, `amount` ms later, with the last call's arguments |
| FunctionExt.NotBeforeAmount | src/scripts/utils/extensions/function.ts:29-34 | nothing runs in the `amount` ms after a call |
| FunctionExt.KeepPostponing | src/scripts/utils/extensions/function.ts:29-34 | calls spaced closer than `amount` keep postponing the run: however many there are, nothing runs and a timer stays pending |
| FunctionExt.DebounceExample | tests/extensions.test.ts:151-164 | three calls and then 100 ms run the predicate once, with the last call's arguments |
| FunctionExt.ResetExample | tests/extensions.test.ts:166-181 | call, 50 ms, call, 50 ms: nothing has run; 50 ms later the predicate runs once |
| LegacyFunctionExt.OneshotCall | src/scripts/extensions/function.ts:4-9 | the first call runs the predicate; later calls change nothing |
| LegacyFunctionExt.OneshotAtMostOnce | src/scripts/extensions/function.ts:1-12 | n calls of a fresh wrapper run the predicate once if n > 0, and never otherwise |
| LegacyFunctionExt.DebounceCall | src/scripts/extensions/function.ts:17-25 | a call while a timer is pending is dropped and keeps the timer's due time; an idle call sets the flag and a timer `amount` ms from now |
| LegacyFunctionExt.Wait | src/scripts/extensions/function.ts:21-24 | a timer falling due runs the predicate at its due time and clears the flag; otherwise nothing runs |
| LegacyFunctionExt.Step | src/scripts/extensions/function.ts:14-28 | a call or a lapse of time keeps the debounced wrapper's state well formed (the flag is set exactly while a timer is pending, and that timer is due neither before now nor more than `amount` ms from now) and never changes `amount` |
| LegacyFunctionExt.Anchored | src/scripts/extensions/function.ts:17-24 | the timer is anchored to the call that set it: calls and waits that end before it is due neither move it nor run anything |
| LegacyFunctionExt.RunsWithinCalls | src/scripts/extensions/function.ts:14-28 | runs plus the pending timer never outnumber the calls, and at most one timer is pending |
| LegacyFunctionExt.ReopensAfterRun | src/scripts/extensions/function.ts:21-24 | after the predicate has run, the next call opens a new window `amount` ms from that call |
| LegacyFunctionExt.ResetExample | src/scripts/extensions/function.ts:14-28 | call, 50 ms, call, 50 ms: the second call is dropped and the predicate has run once, 100 ms after the first call |
| Color.ParseColor | build/utils/color.mjs:19-53 | the empty string gives nothing; a six- or three-digit hex colour gives components in [0, 255]; anything else gives the first `rgb(`/`rgba(` triple in the text, or nothing |
| Color.HexRoundTrip | build/utils/color.mjs:23-30 | every colour in range survives `#rrggbb` and back |
| Color.HexWithoutHash | build/utils/color.mjs:23-30 | the same without the `#` |
| Color.LongHexValue | build/utils/color.mjs:23-30 | for any six hex digits, in either case and with or without the `#`, each component is the base-16 value of its pair of digits |
| Color.MixedCaseExample | build/utils/color.mjs:23-30 | "#A0b1C2" is (160, 177, 194) |
| Color.ShortHexValue | build/utils/color.mjs:33-40 | a three-digit colour, with or without the `#`, reads each digit doubled |
| Color.ShortHexDoubles | build/utils/color.mjs:33-40 | a three-digit colour is its six-digit form with every digit doubled |
| Color.ShortHexExample | build/utils/color.mjs:33-40 | "#f00" is (255, 0, 0) |
| Color.RgbAnywhere | build/utils/color.mjs:43-50 | the `rgb(` pattern is found after any prefix without the letter r, whatever follows the third number |
| Color.RgbRoundTrip | build/utils/color.mjs:43-50 | every colour survives `rgb(r, g, b)` and back, components above 255 included |
| Color.RgbaRoundTrip | build/utils/color.mjs:43-50 | every colour survives `rgba(r, g, b, a)` and back, whatever the alpha text |
| Color.Channel | build/utils/color.mjs:62-65 | a linearised channel is never negative |
| Color.Luminance | build/utils/color.mjs:61-67 | the relative luminance is never negative |
| Color.IsColorDark | build/utils/color.mjs:74-78 | an unparsable colour is never dark; a parsed one is dark exactly when its luminance is below one half |
| Color.Ratio | build/utils/color.mjs:92-96 | the contrast ratio of two non-negative luminances is at least 1 |
| Color.RatioLighterFirst | build/utils/color.mjs:94-96 | the lighter luminance's term is the numerator, whichever order the two come in |
| Color.RatioSymmetric | build/utils/color.mjs:94-96 | the ratio does not depend on the order of the luminances |
| Color.RatioSelf | build/utils/color.mjs:92-96 | equal luminances have ratio 1 |
| Color.RatioAtMost21 | build/utils/color.mjs:80-86 | luminances in [0, 1] have ratio at most 21 |
| Color.ContrastRatio | build/utils/color.mjs:87-97 | the ratio is at least 1; it is 1 when either colour does not parse, and otherwise the ratio of the two luminances |
| Color.ContrastSymmetric | build/utils/color.mjs:87-97 | the order of the two colours does not matter |
| Color.ContrastIdentical | build/utils/color.mjs:87-97 | a colour has contrast 1 with itself |
| Color.BlackAndWhite | build/utils/color.mjs:55-67 | black has luminance 0, white luminance 1, and their ratio is 21 |
| Color.BlackAndWhiteColors | build/utils/color.mjs:69-97 | "#000" is dark, "#fff" is not, and their contrast is 21 |

## Left out

- Exact reals instead of IEEE doubles: rounding in the engine, the form conversions and the colours is not modelled, and neither are infinities.
- The engine takes only finite numbers. A NaN from the form that would reach it is cut off at the engine's input (`FormController.ParaSimulacao`).
- `Math.pow` (src/scripts/simulador.ts:81 and build/utils/color.mjs:64) is a parameter `pow`. The zero-rate lemmas assume `pow(1, 1/12) = 1`. The colour lemmas assume only a non-negative gamma curve, plus `pow(1, 2.4) = 1` for white.
- `Number()`, `parseInt` and `parseFloat` are restricted to plain decimal notation. Hexadecimal, octal and binary literals, exponents, `Infinity` and numeric separators are read as NaN (by `Number`) or stop the prefix (by `parseInt`/`parseFloat`). `parseInt` precision limits on long digit runs are not modelled.
- The JavaScript `%` keeps the sign of a negative month, while Dafny's `%` does not. Only whether the remainder is zero matters in `appliesTo`, and that agrees for every integer month.
- The loop's `console.log` when the loan is paid off early (src/scripts/simulador.ts:104-106) is output only, and is left out.
- DOM access: `setCustomValidity`, the selects and inputs of the form, and `setNumericFieldValue`. A field is a record of value, id and attributes; `validateMaskedNumericField` returns the message it would set.
- Timers run on an explicit clock. Negative or NaN delays, timer ordering among several wrappers, and `this` binding are left out.
- `Math.clamp` with NaN arguments is left out, because the model is over reals.
- `parseColor` of `null` or `undefined` is left out; strings only.
- Color.Luminance: the bound of at most 1 is not proved, because it depends on `Math.pow`. `Color.RatioAtMost21` takes it as a precondition.
- Simulador.PaidOff and Simulador.Payoff: stated for whole-month terms only. A fractional term ends the loop at its floor, and the last balance can then be positive.
- FunctionExt.NotBeforeAmount: stated for the window right after one call. The general form is `KeepPostponing`.
- Amortizacao.ParseIntervalString: the contract states the blank-text error and the validity of the ranges. What the ranges are is stated by the round trip `ParseRender`, the examples and the per-token members; which token's error a failing text reports is stated on the token loop by `ParseTokensAllOk` and `ParseTokensFirstError`.
- The engine is modelled with the current schedule datatype. `src/scripts/simulador.ts` imports the legacy `Amortizacao` class, but it calls `appliesTo` and `valor`, which only the current class provides (src/scripts/simulador.ts:89-91).
- Stale expectations in the repository's tests and comments disagree with the code. The model follows the code:
  - tests/simulador.test.ts:30-46 and tests/simulador.test.ts:66-90 expect `valorTotalAmortizado` 0, `valorAmortizacao` 0, and balances before payment; the code gives the principal paid and balances after payment;
  - src/scripts/types/simulation.ts:70 describes `valorTotalAmortizado` as the extra amortisation only; the code totals all principal paid;
  - tests/amortizacao.test.ts:138 reads a `prazoMeses` field, but the custom class stores `termMonths`.
