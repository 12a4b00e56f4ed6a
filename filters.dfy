/** The filter stage of the dashboard: start from a copy of the loaded table
    and narrow it by `Proposito`, then by `Faixa_Etaria`, each step skipped
    when its selection imposes no restriction. */
module Filters {
  import opened CreditData
  import opened Tables

  /** A row satisfies both selections (a selection that does not restrict is
      satisfied by every row). */
  predicate Matches(r: Record, proposito: Choice, faixaEtaria: Choice)
  {
    && (Restricts(proposito) ==> r.proposito == proposito.value)
    && (Restricts(faixaEtaria) ==> r.faixaEtaria == faixaEtaria.value)
  }

  /** Reference definition of the filtered table: one pass over the rows,
      keeping those that match every selection. */
  function Selected(table: seq<Record>, proposito: Choice, faixaEtaria: Choice): (kept: seq<Record>)
    ensures |kept| <= |table|
    ensures forall r :: r in kept <==> r in table && Matches(r, proposito, faixaEtaria)
  {
    if table == [] then []
    else
      (if Matches(table[0], proposito, faixaEtaria) then [table[0]] else [])
      + Selected(table[1..], proposito, faixaEtaria)
  }

  /** One guarded step of the filter stage. */
  function Stage(rows: seq<Record>, c: Column, choice: Choice): seq<Record>
  {
    if Restricts(choice) then Where(rows, c, choice.value) else rows
  }

  lemma {:induction false} StageAppend(a: seq<Record>, b: seq<Record>, c: Column, choice: Choice)
    ensures Stage(a + b, c, choice) == Stage(a, c, choice) + Stage(b, c, choice)
  {
    if Restricts(choice) { WhereAppend(a, b, c, choice.value); }
  }

  /** The two guarded steps, in the order the dashboard runs them, compute
      exactly the rows matching both selections. */
  lemma {:induction false} StagesAreSelected(table: seq<Record>, proposito: Choice, faixaEtaria: Choice)
    ensures Stage(Stage(table, Proposito, proposito), FaixaEtaria, faixaEtaria)
         == Selected(table, proposito, faixaEtaria)
  {
    if table != [] {
      var r := table[0];
      StagesAreSelected(table[1..], proposito, faixaEtaria);
      assert table == [r] + table[1..];
      StageAppend([r], table[1..], Proposito, proposito);
      StageAppend(Stage([r], Proposito, proposito), Stage(table[1..], Proposito, proposito), FaixaEtaria, faixaEtaria);
      assert [r][1..] == [];
      var once := Stage([r], Proposito, proposito);
      assert once == [] || once == [r];
      if once == [r] {
        assert Stage(once, FaixaEtaria, faixaEtaria) == if Matches(r, proposito, faixaEtaria) then [r] else [];
      }
    }
  }

  /** The filter stage: `df_filtrado` starts as a copy of the original table
      and is reassigned by each guarded mask. */
  method FilterTable(original: seq<Record>, proposito: Choice, faixaEtaria: Choice)
    returns (filtrado: seq<Record>)
    ensures filtrado == Selected(original, proposito, faixaEtaria)
    ensures IsSubsequence(filtrado, original)
    ensures |filtrado| <= |original|
    ensures forall r :: r in filtrado <==> r in original && Matches(r, proposito, faixaEtaria)
  {
    filtrado := original;
    if Restricts(proposito) {
      filtrado := Where(filtrado, Proposito, proposito.value);
    }
    if Restricts(faixaEtaria) {
      filtrado := Where(filtrado, FaixaEtaria, faixaEtaria.value);
    }
    StagesAreSelected(original, proposito, faixaEtaria);
    SelectedIsSubsequence(original, proposito, faixaEtaria);
  }

  /** The filtered table only holds rows of the original, in their order. */
  lemma {:induction false} SelectedIsSubsequence(table: seq<Record>, proposito: Choice, faixaEtaria: Choice)
    ensures IsSubsequence(Selected(table, proposito, faixaEtaria), table)
  {
    if table != [] {
      SelectedIsSubsequence(table[1..], proposito, faixaEtaria);
      var rest := Selected(table[1..], proposito, faixaEtaria);
      if Matches(table[0], proposito, faixaEtaria) {
        assert ([table[0]] + rest)[1..] == rest;
      } else {
        assert Selected(table, proposito, faixaEtaria) == rest;
        assert rest != [] ==> rest[0] in rest;
      }
    }
  }

  /** With no restricting selection the filtered table is the whole table. */
  lemma {:induction false} SelectedUnrestricted(table: seq<Record>, proposito: Choice, faixaEtaria: Choice)
    requires !Restricts(proposito) && !Restricts(faixaEtaria)
    ensures Selected(table, proposito, faixaEtaria) == table
  {
    if table != [] {
      SelectedUnrestricted(table[1..], proposito, faixaEtaria);
      assert table == [table[0]] + table[1..];
    }
  }

  /** A selected `Proposito` that no row has yields an empty table, not an error. */
  lemma AbsentPropositoSelectsNothing(table: seq<Record>, proposito: Choice, faixaEtaria: Choice)
    requires Restricts(proposito)
    requires forall r :: r in table ==> r.proposito != proposito.value
    ensures Selected(table, proposito, faixaEtaria) == []
  {
  }

  /** A selected `Faixa_Etaria` that no row has yields an empty table. */
  lemma AbsentFaixaEtariaSelectsNothing(table: seq<Record>, proposito: Choice, faixaEtaria: Choice)
    requires Restricts(faixaEtaria)
    requires forall r :: r in table ==> r.faixaEtaria != faixaEtaria.value
    ensures Selected(table, proposito, faixaEtaria) == []
  {
  }

  /** Running the `Faixa_Etaria` step before the `Proposito` step gives the
      same table. */
  lemma StageOrderIrrelevant(table: seq<Record>, proposito: Choice, faixaEtaria: Choice)
    ensures Stage(Stage(table, Proposito, proposito), FaixaEtaria, faixaEtaria)
         == Stage(Stage(table, FaixaEtaria, faixaEtaria), Proposito, proposito)
  {
    if Restricts(proposito) && Restricts(faixaEtaria) {
      WhereCommutes(table, Proposito, proposito.value, FaixaEtaria, faixaEtaria.value);
    }
  }

  /** Filtering the filtered table again with the same selections changes nothing. */
  lemma {:induction false} SelectedIdempotent(table: seq<Record>, proposito: Choice, faixaEtaria: Choice)
    ensures Selected(Selected(table, proposito, faixaEtaria), proposito, faixaEtaria)
         == Selected(table, proposito, faixaEtaria)
  {
    var once := Selected(table, proposito, faixaEtaria);
    StagesAreSelected(table, proposito, faixaEtaria);
    StagesAreSelected(once, proposito, faixaEtaria);
    var p := Stage(table, Proposito, proposito);
    if Restricts(proposito) {
      WhereIdempotent(table, Proposito, proposito.value);
    }
    if Restricts(faixaEtaria) {
      WhereIdempotent(p, FaixaEtaria, faixaEtaria.value);
    }
    StageOrderIrrelevant(p, proposito, faixaEtaria);
    StageOrderIrrelevant(once, proposito, faixaEtaria);
    if Restricts(proposito) && Restricts(faixaEtaria) {
      WhereCommutes(Where(p, FaixaEtaria, faixaEtaria.value), Proposito, proposito.value, FaixaEtaria, faixaEtaria.value);
    }
  }
}
