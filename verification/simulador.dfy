/** The SAC mortgage engine (src/scripts/simulador.ts): `SimuladorFinanciamento`
    with `calculate` and `calcularSAC`.

    Amounts are exact reals; the term `prazoMeses` is a real as well (the form can
    produce a fractional term) and the month counter an integer. The one
    transcendental step, `Math.pow`, is a parameter `pow`. The extra payments are
    schedules of the current model (`Amortizacao.Schedule`), whose `valor` and
    `appliesTo` are all the engine uses. */
module Simulador {
  import opened Wrappers
  import Amortizacao

  /** The simulation input; `tabela` and `correcao` carry their enum strings. */
  datatype ValoresSimulacao = ValoresSimulacao(
    valorImovel: real,
    valorEntrada: real,
    taxaJurosAnual: real,
    prazoMeses: real,
    taxaAdministracaoMensal: real,
    seguroMensal: real,
    tabela: string,
    correcao: string,
    projecaoTaxaJuros: real)

  const SAC := "sac"
  const PRICE := "price"

  /** One month of the schedule. */
  datatype HistoricoMes = HistoricoMes(
    valorParcela: real,
    valorJuros: real,
    valorAmortizacao: real,
    saldoDevedor: real,
    valorEncargo: real)

  datatype Resultado = Resultado(
    valorFinanciado: real,
    valorParcelaInicial: real,
    valorParcelaFinal: real,
    evolucao: seq<HistoricoMes>,
    custoTotalEfetivo: real,
    valorTotalJuros: real,
    valorTotalAmortizado: real,
    seguroMensal: real,
    taxaAdministracaoMensal: real)

  /** What stays fixed during the monthly loop. */
  datatype Plano = Plano(
    prazo: real,
    amortizacaoFixa: real,
    taxaJurosMensal: real,
    taxas: real,
    extras: seq<Amortizacao.Schedule>)

  function Min(a: real, b: real): (r: real)
    ensures r <= a && r <= b && (r == a || r == b)
  {
    if a <= b then a else b
  }

  function Max(a: real, b: real): (r: real)
    ensures r >= a && r >= b && (r == a || r == b)
  {
    if a >= b then a else b
  }

  /** The monthly rate equivalent to an annual percentage rate: `(1 + a/100)^(1/12) - 1`. */
  function TaxaMensal(taxaJurosAnual: real, pow: (real, real) -> real): real {
    pow(1.0 + taxaJurosAnual / 100.0, 1.0 / 12.0) - 1.0
  }

  /** The loop constants of `calcularSAC` for a positive term. */
  function PlanoDe(v: ValoresSimulacao, extras: seq<Amortizacao.Schedule>, pow: (real, real) -> real): (p: Plano)
    requires v.prazoMeses > 0.0
    ensures p.prazo == v.prazoMeses && p.extras == extras
  {
    Plano(v.prazoMeses, (v.valorImovel - v.valorEntrada) / v.prazoMeses,
          TaxaMensal(v.taxaJurosAnual, pow), v.seguroMensal + v.taxaAdministracaoMensal, extras)
  }

  /** The extra amount paid in month `mes`: the `valor` of every schedule that
      applies to that month, summed in list order. */
  function ExtraDoMes(extras: seq<Amortizacao.Schedule>, mes: int): real {
    if extras == [] then 0.0
    else
      var last := extras[|extras| - 1];
      ExtraDoMes(extras[..|extras| - 1], mes) + (if last.AppliesTo(mes) then last.valor else 0.0)
  }

  /** Non-negative schedule amounts give a non-negative extra payment. */
  lemma {:induction false} ExtraNonNegative(extras: seq<Amortizacao.Schedule>, mes: int)
    requires forall i :: 0 <= i < |extras| ==> extras[i].valor >= 0.0
    ensures ExtraDoMes(extras, mes) >= 0.0
  {
    if extras != [] {
      ExtraNonNegative(extras[..|extras| - 1], mes);
    }
  }

  /** A month no schedule applies to gets no extra payment; in particular
      without schedules there is never one. */
  lemma {:induction false} ExtraNone(extras: seq<Amortizacao.Schedule>, mes: int)
    requires forall i :: 0 <= i < |extras| ==> !extras[i].AppliesTo(mes)
    ensures ExtraDoMes(extras, mes) == 0.0
  {
    if extras != [] {
      ExtraNone(extras[..|extras| - 1], mes);
    }
  }

  /** The extra payment of a single schedule: its `valor` exactly in the months
      it applies to. */
  lemma ExtraSingle(s: Amortizacao.Schedule, mes: int)
    ensures ExtraDoMes([s], mes) == if s.AppliesTo(mes) then s.valor else 0.0
  {
    assert [s][..0] == [];
  }

  /** One iteration of the loop, from the balance before the month's payment.

      The principal is capped at the balance, so the floor at zero the source
      applies to the new balance never changes it. */
  function Linha(saldo: real, mes: int, plano: Plano): (h: HistoricoMes)
    ensures h.valorAmortizacao <= saldo
    ensures h.saldoDevedor == saldo - h.valorAmortizacao && h.saldoDevedor >= 0.0
    ensures h.valorJuros == saldo * plano.taxaJurosMensal
    ensures h.valorParcela == h.valorAmortizacao + h.valorJuros
    ensures h.valorEncargo == h.valorParcela + plano.taxas
  {
    var juros := saldo * plano.taxaJurosMensal;
    var amortizacao := Min(plano.amortizacaoFixa + ExtraDoMes(plano.extras, mes), saldo);
    var prestacao := amortizacao + juros;
    HistoricoMes(prestacao, juros, amortizacao, Max(0.0, saldo - amortizacao), prestacao + plano.taxas)
  }

  /** Capping: the month's principal is the fixed installment plus the extra
      payment, unless that reaches the balance, in which case it is the balance
      and the loan is paid off. */
  lemma LinhaCap(saldo: real, mes: int, plano: Plano)
    ensures var h := Linha(saldo, mes, plano);
            var devido := plano.amortizacaoFixa + ExtraDoMes(plano.extras, mes);
            (h.saldoDevedor == 0.0 <==> devido >= saldo)
            && (devido >= saldo ==> h.valorAmortizacao == saldo)
            && (devido < saldo ==> h.valorAmortizacao == devido)
  {
  }

  /** The rows the loop produces from month `mes` on, starting from balance
      `saldo`: one row per month while the month is within the term and the
      balance is positive. */
  function Evolucao(saldo: real, mes: int, plano: Plano): (rows: seq<HistoricoMes>)
    ensures rows != [] <==> mes as real <= plano.prazo && saldo > 0.0
    decreases plano.prazo.Floor - mes + 1
  {
    if mes as real <= plano.prazo && saldo > 0.0 then
      var h := Linha(saldo, mes, plano);
      [h] + Evolucao(h.saldoDevedor, mes + 1, plano)
    else []
  }

  function Juros(h: HistoricoMes): real { h.valorJuros }

  function Amortizado(h: HistoricoMes): real { h.valorAmortizacao }

  /** The insurance and administration fee charged with a row. */
  function Taxas(h: HistoricoMes): real { h.valorEncargo - h.valorParcela }

  /** The running total the loop accumulates for one column. */
  function Soma(rows: seq<HistoricoMes>, f: HistoricoMes -> real): real {
    if rows == [] then 0.0 else f(rows[0]) + Soma(rows[1..], f)
  }

  /** `calculate`: dispatches on the table; only SAC is implemented. */
  function Calculate(v: ValoresSimulacao, extras: seq<Amortizacao.Schedule>, pow: (real, real) -> real): (r: Result<Resultado>)
    ensures v.tabela == PRICE ==> r == Err("Tabela de amortização não implementada")
    ensures v.tabela != SAC && v.tabela != PRICE ==> r == Err("Tabela de amortização inválida")
    ensures v.tabela == SAC ==> r == CalcularSAC(v, extras, pow)
  {
    if v.tabela == SAC then CalcularSAC(v, extras, pow)
    else if v.tabela == PRICE then Err("Tabela de amortização não implementada")
    else Err("Tabela de amortização inválida")
  }

  /** `calcularSAC`: refuses a non-positive term, runs the monthly loop from the
      financed amount, refuses an empty schedule, and totals the rows. A
      schedule exists exactly when the term reaches one month and something is
      financed. */
  function CalcularSAC(v: ValoresSimulacao, extras: seq<Amortizacao.Schedule>, pow: (real, real) -> real): (r: Result<Resultado>)
    ensures v.prazoMeses <= 0.0 ==> r == Err("Prazo inválido")
    ensures v.prazoMeses > 0.0 && r.Err? ==> r == Err("Nenhuma parcela gerada")
    ensures r.Ok? <==> v.prazoMeses >= 1.0 && v.valorImovel - v.valorEntrada > 0.0
    ensures r.Ok? ==> r.value.valorFinanciado == v.valorImovel - v.valorEntrada
                      && r.value.evolucao == Evolucao(v.valorImovel - v.valorEntrada, 1, PlanoDe(v, extras, pow))
                      && r.value.seguroMensal == v.seguroMensal
                      && r.value.taxaAdministracaoMensal == v.taxaAdministracaoMensal
  {
    if v.prazoMeses <= 0.0 then Err("Prazo inválido")
    else
      var inicial := v.valorImovel - v.valorEntrada;
      var plano := PlanoDe(v, extras, pow);
      var historico := Evolucao(inicial, 1, plano);
      if historico == [] then Err("Nenhuma parcela gerada")
      else
        var totalJuros := Soma(historico, Juros);
        Ok(Resultado(
          inicial,
          historico[0].valorParcela,
          historico[|historico| - 1].valorParcela,
          historico,
          inicial + totalJuros + Soma(historico, Taxas),
          totalJuros,
          Soma(historico, Amortizado),
          v.seguroMensal,
          v.taxaAdministracaoMensal))
  }

  /** A running total extended by one row. */
  lemma {:induction false} SomaAppend(rows: seq<HistoricoMes>, h: HistoricoMes, f: HistoricoMes -> real)
    ensures Soma(rows + [h], f) == Soma(rows, f) + f(h)
  {
    if rows != [] {
      assert (rows + [h])[1..] == rows[1..] + [h];
      SomaAppend(rows[1..], h, f);
    }
  }

  /** The fields of a row, as the loop body computes them. */
  lemma LinhaFields(saldo: real, mes: int, plano: Plano)
    ensures var amortizacao := Min(plano.amortizacaoFixa + ExtraDoMes(plano.extras, mes), saldo);
            var juros := saldo * plano.taxaJurosMensal;
            Linha(saldo, mes, plano)
            == HistoricoMes(amortizacao + juros, juros, amortizacao, Max(0.0, saldo - amortizacao),
                            amortizacao + juros + plano.taxas)
  {
  }

  /** `Evolucao` unfolded by one month. */
  lemma EvolucaoStep(saldo: real, mes: int, plano: Plano)
    requires mes as real <= plano.prazo && saldo > 0.0
    ensures Evolucao(saldo, mes, plano)
            == [Linha(saldo, mes, plano)] + Evolucao(Linha(saldo, mes, plano).saldoDevedor, mes + 1, plano)
  {
  }

  /** The body of the monthly loop: the month's interest, principal, payment,
      new balance and charge, computed as the source computes them. */
  method Mes(saldoDevedor: real, mes: int, amortizacaoFixa: real, taxaJurosMensal: real,
             taxasMensais: real, extras: seq<Amortizacao.Schedule>, ghost prazo: real)
    returns (h: HistoricoMes)
    ensures h == Linha(saldoDevedor, mes, Plano(prazo, amortizacaoFixa, taxaJurosMensal, taxasMensais, extras))
  {
    var jurosMensais := saldoDevedor * taxaJurosMensal;
    var amortizacaoExtraordinariaMes := ExtraDoMes(extras, mes);
    var amortizacaoMes := Min(amortizacaoFixa + amortizacaoExtraordinariaMes, saldoDevedor);
    var prestacaoMes := amortizacaoMes + jurosMensais;
    h := HistoricoMes(prestacaoMes, jurosMensais, amortizacaoMes,
                      Max(0.0, saldoDevedor - amortizacaoMes), prestacaoMes + taxasMensais);
    LinhaFields(saldoDevedor, mes, Plano(prazo, amortizacaoFixa, taxaJurosMensal, taxasMensais, extras));
  }

  /** The monthly loop of `calcularSAC` as written, with its accumulators: it
      produces exactly the rows of `Evolucao` from month 1 and their running
      totals. */
  method Laco(saldoDevedorInicial: real, prazoMeses: real, amortizacaoFixa: real, taxaJurosMensal: real,
              seguroMensal: real, taxaAdministracaoMensal: real, extras: seq<Amortizacao.Schedule>)
    returns (historico: seq<HistoricoMes>, totalJuros: real, totalAmortizado: real, totalTaxas: real)
    ensures var plano := Plano(prazoMeses, amortizacaoFixa, taxaJurosMensal, seguroMensal + taxaAdministracaoMensal, extras);
            historico == Evolucao(saldoDevedorInicial, 1, plano)
    ensures totalJuros == Soma(historico, Juros)
    ensures totalAmortizado == Soma(historico, Amortizado)
    ensures totalTaxas == Soma(historico, Taxas)
  {
    ghost var plano := Plano(prazoMeses, amortizacaoFixa, taxaJurosMensal, seguroMensal + taxaAdministracaoMensal, extras);
    var saldoDevedor := saldoDevedorInicial;
    totalJuros, totalAmortizado, totalTaxas := 0.0, 0.0, 0.0;
    historico := [];
    var mes := 1;
    while mes as real <= prazoMeses && saldoDevedor > 0.0
      invariant historico + Evolucao(saldoDevedor, mes, plano) == Evolucao(saldoDevedorInicial, 1, plano)
      invariant totalJuros == Soma(historico, Juros)
      invariant totalAmortizado == Soma(historico, Amortizado)
      invariant totalTaxas == Soma(historico, Taxas)
      decreases prazoMeses.Floor - mes + 1
    {
      var taxasMensais := seguroMensal + taxaAdministracaoMensal;
      var h := Mes(saldoDevedor, mes, amortizacaoFixa, taxaJurosMensal, taxasMensais, extras, prazoMeses);
      totalJuros := totalJuros + h.valorJuros;
      totalAmortizado := totalAmortizado + h.valorAmortizacao;
      totalTaxas := totalTaxas + taxasMensais;

      EvolucaoStep(saldoDevedor, mes, plano);
      assert historico + [h] + Evolucao(h.saldoDevedor, mes + 1, plano)
          == historico + ([h] + Evolucao(h.saldoDevedor, mes + 1, plano));
      SomaAppend(historico, h, Juros);
      SomaAppend(historico, h, Amortizado);
      SomaAppend(historico, h, Taxas);
      historico := historico + [h];
      saldoDevedor := h.saldoDevedor;
      mes := mes + 1;
    }
    assert Evolucao(saldoDevedor, mes, plano) == [];
    assert historico + [] == historico;
  }

  /** `calcularSAC` as written: the same result as the functional description. */
  method CalcularSACLoop(v: ValoresSimulacao, extras: seq<Amortizacao.Schedule>, pow: (real, real) -> real)
    returns (r: Result<Resultado>)
    ensures r == CalcularSAC(v, extras, pow)
  {
    if v.prazoMeses <= 0.0 {
      return Err("Prazo inválido");
    }
    var saldoDevedorInicial := v.valorImovel - v.valorEntrada;
    var amortizacaoFixa := saldoDevedorInicial / v.prazoMeses;
    var taxaJurosMensal := pow(1.0 + v.taxaJurosAnual / 100.0, 1.0 / 12.0) - 1.0;
    var historico, totalJuros, totalAmortizado, totalTaxas :=
      Laco(saldoDevedorInicial, v.prazoMeses, amortizacaoFixa, taxaJurosMensal,
           v.seguroMensal, v.taxaAdministracaoMensal, extras);
    assert Plano(v.prazoMeses, amortizacaoFixa, taxaJurosMensal, v.seguroMensal + v.taxaAdministracaoMensal, extras)
        == PlanoDe(v, extras, pow);
    if |historico| == 0 {
      return Err("Nenhuma parcela gerada");
    }
    return Ok(Resultado(
      saldoDevedorInicial,
      historico[0].valorParcela,
      historico[|historico| - 1].valorParcela,
      historico,
      saldoDevedorInicial + totalJuros + totalTaxas,
      totalJuros,
      totalAmortizado,
      v.seguroMensal,
      v.taxaAdministracaoMensal));
  }

  // ----- Properties of the monthly loop -----

  /** The balance before row `i`: the starting balance for the first row, the
      previous row's balance after that. */
  function Antes(saldo: real, rows: seq<HistoricoMes>, i: int): real
    requires 0 <= i < |rows|
  {
    if i == 0 then saldo else rows[i - 1].saldoDevedor
  }

  /** Row `i` of `rows` is the iteration for month `mes + i`: that month lies
      within the term, the balance before it is positive, and the row is what
      one iteration computes from that balance. */
  predicate IsIteration(saldo: real, rows: seq<HistoricoMes>, i: int, mes: int, plano: Plano)
    requires 0 <= i < |rows|
  {
    && (mes + i) as real <= plano.prazo
    && Antes(saldo, rows, i) > 0.0
    && rows[i] == Linha(Antes(saldo, rows, i), mes + i, plano)
  }

  /** Every row of the schedule is one iteration of the loop. */
  lemma {:induction false} EvolucaoRows(saldo: real, mes: int, plano: Plano, rows: seq<HistoricoMes>)
    requires rows == Evolucao(saldo, mes, plano)
    ensures forall i :: 0 <= i < |rows| ==> IsIteration(saldo, rows, i, mes, plano)
    decreases plano.prazo.Floor - mes + 1
  {
    if rows != [] {
      var h := Linha(saldo, mes, plano);
      var rest := Evolucao(h.saldoDevedor, mes + 1, plano);
      assert rows == [h] + rest;
      EvolucaoRows(h.saldoDevedor, mes + 1, plano, rest);
      forall i | 0 <= i < |rows|
        ensures IsIteration(saldo, rows, i, mes, plano)
      {
        if i > 0 {
          var j := i - 1;
          assert IsIteration(h.saldoDevedor, rest, j, mes + 1, plano);
          assert rows[i] == rest[j];
          assert Antes(saldo, rows, i) == Antes(h.saldoDevedor, rest, j);
        }
      }
    }
  }

  /** The loop runs at most until the last month of the term: the last row is
      for a month no later than `prazo`. */
  lemma {:induction false} EvolucaoLength(saldo: real, mes: int, plano: Plano)
    ensures var rows := Evolucao(saldo, mes, plano);
            rows == [] || (mes + |rows| - 1) as real <= plano.prazo
    decreases plano.prazo.Floor - mes + 1
  {
    var rows := Evolucao(saldo, mes, plano);
    if rows != [] {
      EvolucaoRows(saldo, mes, plano, rows);
      assert IsIteration(saldo, rows, |rows| - 1, mes, plano);
    }
  }

  /** The balance after the last row (the starting balance when there is none). */
  function Final(saldo: real, rows: seq<HistoricoMes>): real {
    if rows == [] then saldo else rows[|rows| - 1].saldoDevedor
  }

  /** The loop stops early only on a paid-off loan: every row but the last leaves
      a positive balance, and a last row before the end of the term leaves 0. */
  lemma {:induction false} EarlyStop(saldo: real, mes: int, plano: Plano)
    ensures var rows := Evolucao(saldo, mes, plano);
            (forall i :: 0 <= i < |rows| - 1 ==> rows[i].saldoDevedor > 0.0)
            && (rows != [] && (mes + |rows|) as real <= plano.prazo ==> Final(saldo, rows) == 0.0)
    decreases plano.prazo.Floor - mes + 1
  {
    var rows := Evolucao(saldo, mes, plano);
    EvolucaoRows(saldo, mes, plano, rows);
    forall i | 0 <= i < |rows| - 1
      ensures rows[i].saldoDevedor > 0.0
    {
      assert IsIteration(saldo, rows, i + 1, mes, plano);
    }
    if rows != [] {
      var h := Linha(saldo, mes, plano);
      var rest := Evolucao(h.saldoDevedor, mes + 1, plano);
      assert rows == [h] + rest;
      EarlyStop(h.saldoDevedor, mes + 1, plano);
      if rest != [] {
        assert rows[|rows| - 1] == rest[|rest| - 1];
      }
    }
  }

  /** Conservation of principal: the principal paid over the rows is the
      starting balance minus the balance left. */
  lemma {:induction false} Conservation(saldo: real, mes: int, plano: Plano)
    ensures var rows := Evolucao(saldo, mes, plano);
            Soma(rows, Amortizado) == saldo - Final(saldo, rows)
    decreases plano.prazo.Floor - mes + 1
  {
    var rows := Evolucao(saldo, mes, plano);
    if rows != [] {
      var h := Linha(saldo, mes, plano);
      var rest := Evolucao(h.saldoDevedor, mes + 1, plano);
      assert rows == [h] + rest;
      assert rows[1..] == rest;
      Conservation(h.saldoDevedor, mes + 1, plano);
      if rest != [] {
        assert rows[|rows| - 1] == rest[|rest| - 1];
      }
    }
  }

  /** With a non-negative fixed installment and non-negative extra amounts the
      balance never grows from one row to the next. */
  lemma {:induction false} NonIncreasing(saldo: real, mes: int, plano: Plano)
    requires plano.amortizacaoFixa >= 0.0
    requires forall k :: 0 <= k < |plano.extras| ==> plano.extras[k].valor >= 0.0
    ensures var rows := Evolucao(saldo, mes, plano);
            forall i :: 0 <= i < |rows| ==> 0.0 <= rows[i].saldoDevedor <= Antes(saldo, rows, i)
  {
    var rows := Evolucao(saldo, mes, plano);
    EvolucaoRows(saldo, mes, plano, rows);
    forall i | 0 <= i < |rows|
      ensures 0.0 <= rows[i].saldoDevedor <= Antes(saldo, rows, i)
    {
      assert IsIteration(saldo, rows, i, mes, plano);
      ExtraNonNegative(plano.extras, mes + i);
      LinhaCap(Antes(saldo, rows, i), mes + i, plano);
    }
  }

  /** Every row charges the same insurance and fee, so their total is the row
      count times the monthly amount. */
  lemma {:induction false} ChargesTotal(saldo: real, mes: int, plano: Plano)
    ensures var rows := Evolucao(saldo, mes, plano);
            Soma(rows, Taxas) == |rows| as real * plano.taxas
    decreases plano.prazo.Floor - mes + 1
  {
    var rows := Evolucao(saldo, mes, plano);
    if rows != [] {
      var h := Linha(saldo, mes, plano);
      var rest := Evolucao(h.saldoDevedor, mes + 1, plano);
      assert rows == [h] + rest;
      assert rows[1..] == rest;
      ChargesTotal(h.saldoDevedor, mes + 1, plano);
      assert |rows| as real * plano.taxas == plano.taxas + |rest| as real * plano.taxas;
    }
  }

  /** Pay-off: over a whole number of months `n`, with a positive fixed
      installment and non-negative extras, a balance of at most `n - mes + 1`
      installments is paid off: the last row leaves 0. */
  lemma {:induction false} PaidOff(saldo: real, mes: int, n: int, plano: Plano)
    requires plano.prazo == n as real && mes <= n
    requires plano.amortizacaoFixa > 0.0
    requires forall k :: 0 <= k < |plano.extras| ==> plano.extras[k].valor >= 0.0
    requires 0.0 < saldo <= plano.amortizacaoFixa * (n - mes + 1) as real
    ensures Evolucao(saldo, mes, plano) != []
    ensures Final(saldo, Evolucao(saldo, mes, plano)) == 0.0
    decreases n - mes
  {
    var rows := Evolucao(saldo, mes, plano);
    var h := Linha(saldo, mes, plano);
    var rest := Evolucao(h.saldoDevedor, mes + 1, plano);
    assert rows == [h] + rest;
    ExtraNonNegative(plano.extras, mes);
    LinhaCap(saldo, mes, plano);
    if h.saldoDevedor > 0.0 {
      assert plano.amortizacaoFixa * (n - mes + 1) as real
          == plano.amortizacaoFixa * (n - mes) as real + plano.amortizacaoFixa;
      if mes == n {
        assert false;
      }
      PaidOff(h.saldoDevedor, mes + 1, n, plano);
      assert rows[|rows| - 1] == rest[|rest| - 1];
    }
  }

  /** Without interest and extras, a month that starts with `k >= 1`
      installments of balance pays exactly one installment and no interest. */
  lemma ZeroRateRow(k: nat, saldo: real, mes: int, plano: Plano)
    requires k >= 1 && saldo == plano.amortizacaoFixa * k as real
    requires plano.amortizacaoFixa > 0.0 && plano.taxaJurosMensal == 0.0 && plano.extras == []
    ensures saldo > 0.0
    ensures Linha(saldo, mes, plano)
            == HistoricoMes(plano.amortizacaoFixa, 0.0, plano.amortizacaoFixa,
                            plano.amortizacaoFixa * (k - 1) as real, plano.amortizacaoFixa + plano.taxas)
  {
    var fixa := plano.amortizacaoFixa;
    assert saldo == fixa * (k - 1) as real + fixa;
    assert fixa * (k - 1) as real >= 0.0;
    ExtraNone([], mes);
    LinhaCap(saldo, mes, plano);
  }

  /** A row that pays one installment and no interest. */
  predicate ZeroRateInstallment(h: HistoricoMes, plano: Plano) {
    h.valorJuros == 0.0 && h.valorAmortizacao == plano.amortizacaoFixa && h.valorParcela == plano.amortizacaoFixa
  }

  /** Without interest and extras, from `k` installments of balance left with
      `k` months of term to go, the loop runs exactly `k` more months and pays
      exactly one installment, and no interest, in each. */
  lemma {:induction false} ZeroRateRows(k: nat, saldo: real, mes: int, n: int, plano: Plano, rows: seq<HistoricoMes>)
    requires plano.prazo == n as real && mes + k == n + 1 && k >= 1
    requires plano.amortizacaoFixa > 0.0 && plano.taxaJurosMensal == 0.0 && plano.extras == []
    requires saldo == plano.amortizacaoFixa * k as real
    requires rows == Evolucao(saldo, mes, plano)
    ensures |rows| == k
    ensures forall i :: 0 <= i < k ==> ZeroRateInstallment(rows[i], plano)
    decreases k
  {
    ZeroRateRow(k, saldo, mes, plano);
    assert mes as real <= plano.prazo;
    var h := Linha(saldo, mes, plano);
    var rest := Evolucao(h.saldoDevedor, mes + 1, plano);
    EvolucaoStep(saldo, mes, plano);
    if k > 1 {
      ZeroRateRows(k - 1, h.saldoDevedor, mes + 1, n, plano, rest);
      assert forall i :: 1 <= i < k ==> rows[i] == rest[i - 1];
    }
  }

  // ----- Properties of the result -----

  /** A column whose every row is zero totals zero. */
  lemma {:induction false} SomaZero(rows: seq<HistoricoMes>, f: HistoricoMes -> real)
    requires forall i :: 0 <= i < |rows| ==> f(rows[i]) == 0.0
    ensures Soma(rows, f) == 0.0
  {
    if rows != [] {
      assert forall i :: 0 <= i < |rows| - 1 ==> rows[1..][i] == rows[i + 1];
      SomaZero(rows[1..], f);
    }
  }

  /** What the totals of a successful simulation mean: the effective cost is
      the financed amount plus all interest plus one month of insurance and fee
      per row; the principal paid is the financed amount minus the balance left
      after the last row; the first and last installments are those of the
      first and last rows; and no row lies beyond the term. */
  lemma ResultadoTotals(v: ValoresSimulacao, extras: seq<Amortizacao.Schedule>, pow: (real, real) -> real,
                        r: Result<Resultado>)
    requires r == CalcularSAC(v, extras, pow) && r.Ok?
    ensures var res := r.value;
            var ev := res.evolucao;
            && ev != []
            && res.custoTotalEfetivo
               == res.valorFinanciado + res.valorTotalJuros + |ev| as real * (v.seguroMensal + v.taxaAdministracaoMensal)
            && res.valorTotalAmortizado == res.valorFinanciado - ev[|ev| - 1].saldoDevedor
            && res.valorParcelaInicial == ev[0].valorParcela
            && res.valorParcelaFinal == ev[|ev| - 1].valorParcela
            && |ev| as real <= v.prazoMeses
  {
    var inicial := v.valorImovel - v.valorEntrada;
    var plano := PlanoDe(v, extras, pow);
    ChargesTotal(inicial, 1, plano);
    Conservation(inicial, 1, plano);
    EvolucaoLength(inicial, 1, plano);
  }

  /** Row `h` is a month that starts from balance `antes`: interest on that
      balance, principal at most that balance and taken off it, installment =
      principal + interest, charge = installment + the monthly charges. */
  predicate Mensal(h: HistoricoMes, antes: real, taxaJurosMensal: real, taxas: real) {
    && h.valorJuros == antes * taxaJurosMensal
    && h.valorAmortizacao <= antes
    && h.saldoDevedor == antes - h.valorAmortizacao
    && h.valorParcela == h.valorAmortizacao + h.valorJuros
    && h.valorEncargo == h.valorParcela + taxas
  }

  lemma LinhaMensal(saldo: real, mes: int, plano: Plano)
    ensures Mensal(Linha(saldo, mes, plano), saldo, plano.taxaJurosMensal, plano.taxas)
  {
  }

  /** Every row of a successful simulation is one month of the loop, starting
      from the financed amount and then from each previous row's balance. */
  lemma ResultadoRows(v: ValoresSimulacao, extras: seq<Amortizacao.Schedule>, pow: (real, real) -> real,
                      r: Result<Resultado>)
    requires r == CalcularSAC(v, extras, pow) && r.Ok?
    ensures var ev := r.value.evolucao;
            forall i :: 0 <= i < |ev| ==>
              Mensal(ev[i], Antes(r.value.valorFinanciado, ev, i), TaxaMensal(v.taxaJurosAnual, pow),
                     v.seguroMensal + v.taxaAdministracaoMensal)
  {
    var inicial := v.valorImovel - v.valorEntrada;
    var plano := PlanoDe(v, extras, pow);
    var ev := r.value.evolucao;
    assert plano.taxaJurosMensal == TaxaMensal(v.taxaJurosAnual, pow);
    assert plano.taxas == v.seguroMensal + v.taxaAdministracaoMensal;
    EvolucaoRows(inicial, 1, plano, ev);
    forall i | 0 <= i < |ev|
      ensures Mensal(ev[i], Antes(inicial, ev, i), plano.taxaJurosMensal, plano.taxas)
    {
      assert IsIteration(inicial, ev, i, 1, plano);
      LinhaMensal(Antes(inicial, ev, i), 1 + i, plano);
    }
  }

  /** The loan is paid off: over a whole number of months, with non-negative
      extra payments, a positive financed amount gives a schedule whose last
      row leaves a zero balance and whose principal adds up to the financed
      amount. */
  lemma Payoff(v: ValoresSimulacao, extras: seq<Amortizacao.Schedule>, pow: (real, real) -> real, n: int)
    requires v.prazoMeses == n as real && n >= 1
    requires v.valorImovel - v.valorEntrada > 0.0
    requires forall k :: 0 <= k < |extras| ==> extras[k].valor >= 0.0
    ensures var r := CalcularSAC(v, extras, pow);
            && r.Ok?
            && r.value.evolucao[|r.value.evolucao| - 1].saldoDevedor == 0.0
            && r.value.valorTotalAmortizado == r.value.valorFinanciado
  {
    var inicial := v.valorImovel - v.valorEntrada;
    var plano := PlanoDe(v, extras, pow);
    assert plano.amortizacaoFixa * (n - 1 + 1) as real == inicial;
    PaidOff(inicial, 1, n, plano);
    Conservation(inicial, 1, plano);
  }

  /** Without interest (a `pow` with `pow(1, 1/12) = 1`, as `Math.pow` gives)
      and without extras, a whole term of `n` months gives `n` equal
      installments of `financed / n`, no interest at all, and an effective cost
      of the financed amount plus the charges. */
  lemma ZeroRate(v: ValoresSimulacao, pow: (real, real) -> real, n: int)
    requires pow(1.0, 1.0 / 12.0) == 1.0
    requires v.taxaJurosAnual == 0.0 && v.prazoMeses == n as real && n >= 1
    requires v.valorImovel - v.valorEntrada > 0.0
    ensures var r := CalcularSAC(v, [], pow);
            var financiado := v.valorImovel - v.valorEntrada;
            && r.Ok?
            && |r.value.evolucao| == n
            && (forall i :: 0 <= i < n ==>
                  r.value.evolucao[i].valorParcela == financiado / n as real
                  && r.value.evolucao[i].valorJuros == 0.0)
            && r.value.valorTotalJuros == 0.0
            && r.value.custoTotalEfetivo
               == financiado + n as real * (v.seguroMensal + v.taxaAdministracaoMensal)
  {
    var inicial := v.valorImovel - v.valorEntrada;
    var plano := PlanoDe(v, [], pow);
    assert plano.taxaJurosMensal == 0.0;
    assert plano.amortizacaoFixa * n as real == inicial;
    var r := CalcularSAC(v, [], pow);
    var ev := Evolucao(inicial, 1, plano);
    ZeroRateRows(n, inicial, 1, n, plano, ev);
    assert forall i :: 0 <= i < |ev| ==> Juros(ev[i]) == 0.0;
    SomaZero(ev, Juros);
    ResultadoTotals(v, [], pow, r);
  }

  // ----- Examples -----

  /** 100 000 financed with no down payment, no interest and no charges. */
  function Simples(prazoMeses: real): ValoresSimulacao {
    ValoresSimulacao(100000.0, 0.0, 0.0, prazoMeses, 0.0, 0.0, SAC, "pre-fixado", 0.0)
  }

  /** Without interest, over one month the whole financed amount is paid at
      once and nothing is left. */
  lemma OneMonth(v: ValoresSimulacao, pow: (real, real) -> real)
    requires pow(1.0, 1.0 / 12.0) == 1.0
    requires v.tabela == SAC && v.taxaJurosAnual == 0.0 && v.prazoMeses == 1.0
    requires v.valorImovel - v.valorEntrada > 0.0
    ensures var f := v.valorImovel - v.valorEntrada;
            var taxas := v.seguroMensal + v.taxaAdministracaoMensal;
            Calculate(v, [], pow)
            == Ok(Resultado(f, f, f, [HistoricoMes(f, 0.0, f, 0.0, f + taxas)],
                            f + taxas, 0.0, f, v.seguroMensal, v.taxaAdministracaoMensal))
  {
    var f := v.valorImovel - v.valorEntrada;
    var taxas := v.seguroMensal + v.taxaAdministracaoMensal;
    var r := CalcularSAC(v, [], pow);
    assert TaxaMensal(v.taxaJurosAnual, pow) == 0.0;
    ZeroRate(v, pow, 1);
    ResultadoRows(v, [], pow, r);
    ResultadoTotals(v, [], pow, r);
    var ev := r.value.evolucao;
    assert Mensal(ev[0], f, 0.0, taxas);
    assert ev == [HistoricoMes(f, 0.0, f, 0.0, f + taxas)];
    assert r.value == Resultado(f, f, f, ev, f + taxas, 0.0, f, v.seguroMensal, v.taxaAdministracaoMensal);
    assert Calculate(v, [], pow) == r;
  }

  /** Without interest, over two months each month pays half the financed
      amount: half is left after the first and nothing after the second. */
  lemma TwoMonths(v: ValoresSimulacao, pow: (real, real) -> real)
    requires pow(1.0, 1.0 / 12.0) == 1.0
    requires v.tabela == SAC && v.taxaJurosAnual == 0.0 && v.prazoMeses == 2.0
    requires v.valorImovel - v.valorEntrada > 0.0
    ensures var f := v.valorImovel - v.valorEntrada;
            var taxas := v.seguroMensal + v.taxaAdministracaoMensal;
            Calculate(v, [], pow)
            == Ok(Resultado(f, f / 2.0, f / 2.0,
                            [HistoricoMes(f / 2.0, 0.0, f / 2.0, f / 2.0, f / 2.0 + taxas),
                             HistoricoMes(f / 2.0, 0.0, f / 2.0, 0.0, f / 2.0 + taxas)],
                            f + 2.0 * taxas, 0.0, f, v.seguroMensal, v.taxaAdministracaoMensal))
  {
    var f := v.valorImovel - v.valorEntrada;
    var taxas := v.seguroMensal + v.taxaAdministracaoMensal;
    var r := CalcularSAC(v, [], pow);
    assert TaxaMensal(v.taxaJurosAnual, pow) == 0.0;
    ZeroRate(v, pow, 2);
    ResultadoRows(v, [], pow, r);
    ResultadoTotals(v, [], pow, r);
    var ev := r.value.evolucao;
    assert Mensal(ev[0], f, 0.0, taxas);
    assert ev[0].valorParcela == f / 2.0 && ev[0].valorJuros == 0.0;
    assert ev[0] == HistoricoMes(f / 2.0, 0.0, f / 2.0, f / 2.0, f / 2.0 + taxas);
    assert Mensal(ev[1], f / 2.0, 0.0, taxas);
    assert ev[1].valorParcela == f / 2.0 && ev[1].valorJuros == 0.0;
    assert ev[1] == HistoricoMes(f / 2.0, 0.0, f / 2.0, 0.0, f / 2.0 + taxas);
    assert ev == [HistoricoMes(f / 2.0, 0.0, f / 2.0, f / 2.0, f / 2.0 + taxas),
                  HistoricoMes(f / 2.0, 0.0, f / 2.0, 0.0, f / 2.0 + taxas)];
    assert r.value == Resultado(f, f / 2.0, f / 2.0, ev, f + 2.0 * taxas, 0.0, f,
                                v.seguroMensal, v.taxaAdministracaoMensal);
    assert Calculate(v, [], pow) == r;
  }

  /** The one-month case of the repository's tests: 100 000 paid at once. */
  lemma OneMonthExample(pow: (real, real) -> real)
    requires pow(1.0, 1.0 / 12.0) == 1.0
    ensures Calculate(Simples(1.0), [], pow)
            == Ok(Resultado(100000.0, 100000.0, 100000.0,
                            [HistoricoMes(100000.0, 0.0, 100000.0, 0.0, 100000.0)],
                            100000.0, 0.0, 100000.0, 0.0, 0.0))
  {
    OneMonth(Simples(1.0), pow);
  }

  /** The two-month case of the repository's tests: 50 000 a month. */
  lemma TwoMonthExample(pow: (real, real) -> real)
    requires pow(1.0, 1.0 / 12.0) == 1.0
    ensures Calculate(Simples(2.0), [], pow)
            == Ok(Resultado(100000.0, 50000.0, 50000.0,
                            [HistoricoMes(50000.0, 0.0, 50000.0, 50000.0, 50000.0),
                             HistoricoMes(50000.0, 0.0, 50000.0, 0.0, 50000.0)],
                            100000.0, 0.0, 100000.0, 0.0, 0.0))
  {
    TwoMonths(Simples(2.0), pow);
  }
}
