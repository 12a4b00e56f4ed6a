/** Worked examples of the filter stage and the metrics on a two-row table. */
module Scenarios {
  import opened CreditData
  import opened Filters
  import opened Metrics

  function TwoClients(): seq<Record>
  {
    [ Record("car", "young", Bom, 1000.0),
      Record("car", "old", Ruim, 2000.0) ]
  }

  /** Selecting the purpose both rows share keeps both rows. */
  lemma SelectingSharedPurpose()
    ensures var t := Selected(TwoClients(), Picked("car"), Unset);
      && t == TwoClients()
      && TotalClientes(t) == 2 && MausPagadores(t) == 1
      && TaxaInadimplencia(t) == 50.0 && ValorTotalCredito(t) == 3000.0
  {
  }

  /** Selecting the `old` age bracket keeps only the bad payer. */
  lemma SelectingOldBracket()
    ensures var t := Selected(TwoClients(), Unset, Picked("old"));
      && t == [TwoClients()[1]]
      && TotalClientes(t) == 1 && MausPagadores(t) == 1
      && TaxaInadimplencia(t) == 100.0 && ValorTotalCredito(t) == 2000.0
  {
  }

  /** Selecting a purpose no row has gives an empty table and zero metrics. */
  lemma SelectingAbsentPurpose()
    ensures var t := Selected(TwoClients(), Picked("motorcycle"), Unset);
      && t == []
      && TotalClientes(t) == 0 && TaxaInadimplencia(t) == 0.0 && ValorTotalCredito(t) == 0.0
      && RiskCounts(t) == []
  {
    AbsentPropositoSelectsNothing(TwoClients(), Picked("motorcycle"), Unset);
  }
}
