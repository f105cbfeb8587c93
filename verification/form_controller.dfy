/** The arithmetic of `FormController.collectValoresSimulacao`
    (src/scripts/ui/form-controller.ts): reading the six numeric fields and
    converting the entered periods to the monthly terms the engine expects.

    The form is a record of its numeric fields and of the values of its
    selects. Field values are JavaScript numbers, so NaN is carried through the
    arithmetic as the source does. */
module FormController {
  import opened Wrappers
  import opened JsNumber
  import NumericField
  import Simulador

  const ANUAL := "Anual"
  const ANOS := "Anos"

  datatype Form = Form(
    valor: NumericField.Field,
    entrada: NumericField.Field,
    juros: NumericField.Field,
    jurosPeriodo: string,
    correcao: string,
    seguro: NumericField.Field,
    seguroPeriodo: string,
    taxaAdministracao: NumericField.Field,
    taxaAdministracaoPeriodo: string,
    prazo: NumericField.Field,
    prazoPeriodo: string,
    tabela: string)

  /** The collected `ValoresSimulacao`, before any check that the numbers are
      numbers. */
  datatype Coletado = Coletado(
    valorImovel: Number,
    valorEntrada: Number,
    taxaJurosAnual: Number,
    prazoMeses: Number,
    taxaAdministracaoMensal: Number,
    seguroMensal: Number,
    tabela: string,
    correcao: string,
    projecaoTaxaJuros: real)

  /** `x / d` on a JavaScript number, for a positive constant `d`. */
  function Div(x: Number, d: real): (r: Number)
    requires d > 0.0
    ensures r.NaN? <==> x.NaN?
    ensures r.Finite? ==> r.v * d == x.v
  {
    if x.NaN? then NaN else Finite(x.v / d)
  }

  /** `x * k` on a JavaScript number. */
  function Mul(x: Number, k: real): (r: Number)
    ensures r.NaN? <==> x.NaN?
    ensures r.Finite? ==> r.v == x.v * k
  {
    if x.NaN? then NaN else Finite(x.v * k)
  }

  /** A required field: an error when empty, else its reading. */
  function Required(f: NumericField.Field): (r: Result<Number>)
    ensures r.Err? <==> f.value == ""
    ensures r.Err? ==> r.msg == "Campo '" + f.id + "' é obrigatório"
    ensures r.Ok? ==> r.value == NumericField.Reading(f.value)
  {
    var x :- NumericField.ParseNumericField(f, NumericField.Options(true, None));
    Ok(x.value)
  }

  /** An optional field with default 0, and `?? 0` after it: 0 when empty,
      else its reading. */
  function Optional(f: NumericField.Field): (r: Number)
    ensures f.value == "" ==> r == Finite(0.0)
    ensures f.value != "" ==> r == NumericField.Reading(f.value)
  {
    match NumericField.ParseNumericField(f, NumericField.Options(false, Some(0.0)))
    case Ok(Some(x)) => x
    case _ => Finite(0.0)
  }

  /** Every required field of the form has a value. */
  predicate Filled(form: Form) {
    form.valor.value != "" && form.entrada.value != "" && form.juros.value != "" && form.prazo.value != ""
  }

  /** `collectValoresSimulacao`: the required fields are read in the order
      value, down payment, interest, term, and the first empty one is the error;
      the term is scaled to months, the insurance and fee to monthly amounts,
      and the interest rate is divided by 12 unless it was entered as annual. */
  function Collect(form: Form): (r: Result<Coletado>)
    ensures r.Err? <==> form.valor.value == "" || form.entrada.value == "" || form.juros.value == ""
                        || form.prazo.value == ""
    ensures form.valor.value == "" ==> r == Err("Campo '" + form.valor.id + "' é obrigatório")
    ensures form.valor.value != "" && form.entrada.value == "" ==> r == Err("Campo '" + form.entrada.id + "' é obrigatório")
    ensures form.valor.value != "" && form.entrada.value != "" && form.juros.value == "" ==>
              r == Err("Campo '" + form.juros.id + "' é obrigatório")
    ensures form.valor.value != "" && form.entrada.value != "" && form.juros.value != "" && form.prazo.value == "" ==>
              r == Err("Campo '" + form.prazo.id + "' é obrigatório")
    ensures r.Ok? ==>
              && r.value.valorImovel == NumericField.Reading(form.valor.value)
              && r.value.valorEntrada == NumericField.Reading(form.entrada.value)
              && r.value.tabela == form.tabela && r.value.correcao == form.correcao
              && r.value.projecaoTaxaJuros == 0.0
  {
    var valorImovel :- Required(form.valor);
    var valorEntrada :- Required(form.entrada);
    var taxaJurosBruta :- Required(form.juros);
    var seguroBruto := Optional(form.seguro);
    var taxaAdministracaoBruta := Optional(form.taxaAdministracao);
    var prazoBruto :- Required(form.prazo);
    Ok(Coletado(
      valorImovel,
      valorEntrada,
      Div(taxaJurosBruta, if form.jurosPeriodo == ANUAL then 1.0 else 12.0),
      Mul(prazoBruto, if form.prazoPeriodo == ANOS then 12.0 else 1.0),
      Div(taxaAdministracaoBruta, if form.taxaAdministracaoPeriodo == ANUAL then 12.0 else 1.0),
      Div(seguroBruto, if form.seguroPeriodo == ANUAL then 12.0 else 1.0),
      form.tabela,
      form.correcao,
      0.0))
  }

  /** The engine's input, when every collected number is one. */
  function ParaSimulacao(c: Coletado): (v: Option<Simulador.ValoresSimulacao>)
    ensures v.Some? <==> c.valorImovel.Finite? && c.valorEntrada.Finite? && c.taxaJurosAnual.Finite?
                         && c.prazoMeses.Finite? && c.taxaAdministracaoMensal.Finite? && c.seguroMensal.Finite?
  {
    if c.valorImovel.Finite? && c.valorEntrada.Finite? && c.taxaJurosAnual.Finite?
       && c.prazoMeses.Finite? && c.taxaAdministracaoMensal.Finite? && c.seguroMensal.Finite? then
      Some(Simulador.ValoresSimulacao(c.valorImovel.v, c.valorEntrada.v, c.taxaJurosAnual.v, c.prazoMeses.v,
                                      c.taxaAdministracaoMensal.v, c.seguroMensal.v, c.tabela, c.correcao,
                                      c.projecaoTaxaJuros))
    else None
  }

  /** The unit conversions of a collected form, stated on the raw readings:
      years are 12 months, annual insurance and fees are 12 monthly ones, and
      the interest rate is kept when entered as annual and divided by 12 when
      not; empty optional amounts are 0. */
  lemma Conversions(form: Form)
    requires Filled(form)
    ensures var c := Collect(form).value;
            var prazo := NumericField.Reading(form.prazo.value);
            var juros := NumericField.Reading(form.juros.value);
            var seguro := Optional(form.seguro);
            var adm := Optional(form.taxaAdministracao);
            && (c.prazoMeses.Finite? <==> prazo.Finite?)
            && (prazo.Finite? ==> c.prazoMeses.v == (if form.prazoPeriodo == ANOS then 12.0 * prazo.v else prazo.v))
            && (c.taxaJurosAnual.Finite? <==> juros.Finite?)
            && (juros.Finite? ==> c.taxaJurosAnual.v == (if form.jurosPeriodo == ANUAL then juros.v else juros.v / 12.0))
            && (c.seguroMensal.Finite? <==> seguro.Finite?)
            && (seguro.Finite? ==> c.seguroMensal.v * (if form.seguroPeriodo == ANUAL then 12.0 else 1.0) == seguro.v)
            && (c.taxaAdministracaoMensal.Finite? <==> adm.Finite?)
            && (adm.Finite? ==> c.taxaAdministracaoMensal.v * (if form.taxaAdministracaoPeriodo == ANUAL then 12.0 else 1.0) == adm.v)
  {
  }

  /** A term of `n` years gives the same engine input as a term of `12 n`
      months: only the product reaches the simulation. */
  lemma YearsAsMonths(form: Form, meses: NumericField.Field)
    requires form.prazoPeriodo == ANOS && Filled(form)
    requires meses.value != "" && NumericField.Reading(form.prazo.value).Finite?
    requires NumericField.Reading(meses.value) == Finite(12.0 * NumericField.Reading(form.prazo.value).v)
    ensures Collect(form.(prazo := meses, prazoPeriodo := "Meses")) == Collect(form)
  {
    var outro := form.(prazo := meses, prazoPeriodo := "Meses");
    assert "Meses" != ANOS;
    var prazo := Mul(NumericField.Reading(form.prazo.value), 12.0);
    assert Required(outro.prazo) == Ok(NumericField.Reading(meses.value));
    assert Required(form.prazo) == Ok(NumericField.Reading(form.prazo.value));
    assert Mul(NumericField.Reading(meses.value), 1.0) == prazo;
  }

  /** An annual insurance amount of `12 x` gives the same engine input as a
      monthly amount of `x`. */
  lemma AnnualInsuranceAsMonthly(form: Form, mensal: NumericField.Field)
    requires form.seguroPeriodo == ANUAL && Filled(form)
    requires form.seguro.value != "" && mensal.value != ""
    requires NumericField.Reading(form.seguro.value).Finite?
    requires NumericField.Reading(mensal.value) == Finite(NumericField.Reading(form.seguro.value).v / 12.0)
    ensures Collect(form.(seguro := mensal, seguroPeriodo := "Mensal")) == Collect(form)
  {
    assert "Mensal" != ANUAL;
    assert Optional(mensal) == NumericField.Reading(mensal.value);
    assert Div(Optional(mensal), 1.0) == Div(Optional(form.seguro), 12.0);
  }

  /** The same for the administration fee. */
  lemma AnnualFeeAsMonthly(form: Form, mensal: NumericField.Field)
    requires form.taxaAdministracaoPeriodo == ANUAL && Filled(form)
    requires form.taxaAdministracao.value != "" && mensal.value != ""
    requires NumericField.Reading(form.taxaAdministracao.value).Finite?
    requires NumericField.Reading(mensal.value) == Finite(NumericField.Reading(form.taxaAdministracao.value).v / 12.0)
    ensures Collect(form.(taxaAdministracao := mensal, taxaAdministracaoPeriodo := "Mensal")) == Collect(form)
  {
    assert "Mensal" != ANUAL;
    assert Optional(mensal) == NumericField.Reading(mensal.value);
    assert Div(Optional(mensal), 1.0) == Div(Optional(form.taxaAdministracao), 12.0);
  }

  /** A number read from the form goes to the engine unchanged when it was
      entered in the engine's own unit. */
  lemma EngineInput(form: Form)
    requires Collect(form).Ok? && ParaSimulacao(Collect(form).value).Some?
    requires form.prazoPeriodo == "Meses" && form.jurosPeriodo == ANUAL
    requires form.seguroPeriodo == "Mensal" && form.taxaAdministracaoPeriodo == "Mensal"
    ensures var v := ParaSimulacao(Collect(form).value).value;
            && Finite(v.valorImovel) == NumericField.Reading(form.valor.value)
            && Finite(v.valorEntrada) == NumericField.Reading(form.entrada.value)
            && Finite(v.taxaJurosAnual) == NumericField.Reading(form.juros.value)
            && Finite(v.prazoMeses) == NumericField.Reading(form.prazo.value)
            && Finite(v.seguroMensal) == Optional(form.seguro)
            && Finite(v.taxaAdministracaoMensal) == Optional(form.taxaAdministracao)
            && v.projecaoTaxaJuros == 0.0
  {
  }
}
