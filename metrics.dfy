/** The figures the dashboard shows for the filtered table: client count,
    bad payers, default rate, credit total, and the counts per `Risco`. */
module Metrics {
  import opened CreditData
  import opened Tables

  /** `total_clientes`: the number of rows. */
  function TotalClientes(rows: seq<Record>): nat
  {
    |rows|
  }

  /** `maus_pagadores`: the rows whose `Risco` is `Ruim`. */
  function MausPagadores(rows: seq<Record>): (bad: nat)
    ensures bad <= TotalClientes(rows)
    ensures bad == 0 <==> forall r :: r in rows ==> r.risco != Ruim
    ensures bad == TotalClientes(rows) <==> forall r :: r in rows ==> r.risco == Ruim
  {
    var ruins := Where(rows, Risco, Ruim);
    assert ruins != [] ==> ruins[0] in ruins;
    assert |ruins| == |rows| <==> forall r :: r in rows ==> r.risco == Ruim by {
      CountMatchingIsAll(rows, Risco, Ruim);
    }
    |ruins|
  }

  /** A mask keeps every row exactly when every row matches it. */
  lemma {:induction false} CountMatchingIsAll(rows: seq<Record>, c: Column, v: string)
    ensures |Where(rows, c, v)| == |rows| <==> forall r :: r in rows ==> Field(r, c) == v
  {
    if rows != [] {
      CountMatchingIsAll(rows[1..], c, v);
      assert forall r :: r in rows <==> r == rows[0] || r in rows[1..] by {
        assert rows == [rows[0]] + rows[1..];
      }
    }
  }

  /** The guarded percentage `bad / total * 100`, or 0 when `total` is 0. */
  function Percentage(bad: nat, total: nat): (rate: real)
    requires bad <= total
    ensures 0.0 <= rate <= 100.0
    ensures rate == 0.0 <==> bad == 0
    ensures rate == 100.0 <==> total > 0 && bad == total
    ensures total > 0 ==> rate * total as real == 100.0 * bad as real
  {
    if total > 0 then
      var q := bad as real / total as real;
      assert q * total as real == bad as real;
      q * 100.0
    else
      0.0
  }

  /** `taxa_inadimplencia`: the percentage of bad payers, guarded to 0 for an
      empty table. */
  function TaxaInadimplencia(rows: seq<Record>): (rate: real)
    ensures 0.0 <= rate <= 100.0
    ensures rate == 0.0 <==> MausPagadores(rows) == 0
    ensures rate == 100.0 <==> TotalClientes(rows) > 0 && MausPagadores(rows) == TotalClientes(rows)
  {
    Percentage(MausPagadores(rows), TotalClientes(rows))
  }

  /** `valor_total_credito`: the sum of `Valor_Credito` over the rows. */
  function ValorTotalCredito(rows: seq<Record>): (sum: real)
    ensures rows == [] ==> sum == 0.0
    ensures (forall r :: r in rows ==> r.valorCredito >= 0.0) ==> sum >= 0.0
  {
    if rows == [] then 0.0
    else rows[0].valorCredito + ValorTotalCredito(rows[1..])
  }

  /** The credit total is additive over a split of the table. */
  lemma {:induction false} CreditAdditive(a: seq<Record>, b: seq<Record>)
    ensures ValorTotalCredito(a + b) == ValorTotalCredito(a) + ValorTotalCredito(b)
  {
    if a == [] {
      assert a + b == b;
    } else {
      assert (a + b)[1..] == a[1..] + b;
      CreditAdditive(a[1..], b);
    }
  }

  /** The credit totals of the groups named by `keys`. */
  function CreditByKey(rows: seq<Record>, c: Column, keys: seq<string>): real
  {
    if keys == [] then 0.0
    else ValorTotalCredito(Where(rows, c, keys[0])) + CreditByKey(rows, c, keys[1..])
  }

  lemma {:induction false} CreditByKeyCons(r: Record, rest: seq<Record>, c: Column, keys: seq<string>)
    requires Distinct(keys)
    ensures CreditByKey([r] + rest, c, keys)
         == CreditByKey(rest, c, keys) + (if Field(r, c) in keys then r.valorCredito else 0.0)
  {
    if keys != [] {
      var rows := [r] + rest;
      assert rows[0] == r && rows[1..] == rest;
      var head := if Field(r, c) == keys[0] then [r] else [];
      CreditAdditive(head, Where(rest, c, keys[0]));
      assert ValorTotalCredito(head) == if Field(r, c) == keys[0] then r.valorCredito else 0.0 by {
        if head != [] { assert head[1..] == []; }
      }
      assert Distinct(keys[1..]) by {
        forall i, j | 0 <= i < j < |keys[1..]| ensures keys[1..][i] != keys[1..][j] {
          assert keys[1..][i] == keys[i + 1] && keys[1..][j] == keys[j + 1];
        }
      }
      CreditByKeyCons(r, rest, c, keys[1..]);
      assert Field(r, c) in keys <==> Field(r, c) == keys[0] || Field(r, c) in keys[1..] by {
        assert keys == [keys[0]] + keys[1..];
      }
      assert Field(r, c) == keys[0] ==> Field(r, c) !in keys[1..];
    }
  }

  /** The per-group credit totals add up to the whole credit total whenever
      the groups are distinct and cover every row. */
  lemma {:induction false} CreditPartition(rows: seq<Record>, c: Column, keys: seq<string>)
    requires Distinct(keys)
    requires forall r :: r in rows ==> Field(r, c) in keys
    ensures CreditByKey(rows, c, keys) == ValorTotalCredito(rows)
  {
    if rows == [] {
      CreditByKeyOfEmpty(c, keys);
    } else {
      assert rows == [rows[0]] + rows[1..];
      CreditPartition(rows[1..], c, keys);
      CreditByKeyCons(rows[0], rows[1..], c, keys);
    }
  }

  lemma {:induction false} CreditByKeyOfEmpty(c: Column, keys: seq<string>)
    ensures CreditByKey([], c, keys) == 0.0
  {
    if keys != [] { CreditByKeyOfEmpty(c, keys[1..]); }
  }

  /** The row count of each group named by `keys`, as `(value, count)` pairs. */
  function CountsOf(rows: seq<Record>, c: Column, keys: seq<string>): (counts: seq<(string, nat)>)
    ensures |counts| == |keys|
    ensures forall i :: 0 <= i < |keys| ==> counts[i].0 == keys[i]
  {
    if keys == [] then []
    else [(keys[0], |Where(rows, c, keys[0])|)] + CountsOf(rows, c, keys[1..])
  }

  lemma {:induction false} CountsOfAt(rows: seq<Record>, c: Column, keys: seq<string>, i: nat)
    requires i < |keys|
    ensures CountsOf(rows, c, keys)[i].1 == |Where(rows, c, keys[i])|
  {
    if i > 0 { CountsOfAt(rows, c, keys[1..], i - 1); }
  }

  /** `value_counts()` of column `c`: one entry per distinct value, in order of
      first occurrence. */
  function ValueCounts(rows: seq<Record>, c: Column): seq<(string, nat)>
  {
    CountsOf(rows, c, Unique(ColumnValues(rows, c)))
  }

  /** `df['Risco'].value_counts()`. */
  function RiskCounts(rows: seq<Record>): seq<(string, nat)>
  {
    ValueCounts(rows, Risco)
  }

  function SumCounts(counts: seq<(string, nat)>): nat
  {
    if counts == [] then 0 else counts[0].1 + SumCounts(counts[1..])
  }

  lemma {:induction false} SumCountsCons(r: Record, rest: seq<Record>, c: Column, keys: seq<string>)
    requires Distinct(keys)
    ensures SumCounts(CountsOf([r] + rest, c, keys))
         == SumCounts(CountsOf(rest, c, keys)) + (if Field(r, c) in keys then 1 else 0)
  {
    if keys != [] {
      var rows := [r] + rest;
      assert rows[0] == r && rows[1..] == rest;
      assert Distinct(keys[1..]) by {
        forall i, j | 0 <= i < j < |keys[1..]| ensures keys[1..][i] != keys[1..][j] {
          assert keys[1..][i] == keys[i + 1] && keys[1..][j] == keys[j + 1];
        }
      }
      SumCountsCons(r, rest, c, keys[1..]);
      assert Field(r, c) in keys <==> Field(r, c) == keys[0] || Field(r, c) in keys[1..] by {
        assert keys == [keys[0]] + keys[1..];
      }
      assert Field(r, c) == keys[0] ==> Field(r, c) !in keys[1..];
    }
  }

  /** The group counts add up to the row count whenever the groups are
      distinct and cover every row. */
  lemma {:induction false} CountPartition(rows: seq<Record>, c: Column, keys: seq<string>)
    requires Distinct(keys)
    requires forall r :: r in rows ==> Field(r, c) in keys
    ensures SumCounts(CountsOf(rows, c, keys)) == |rows|
  {
    if rows == [] {
      CountsOfEmpty(c, keys);
    } else {
      assert rows == [rows[0]] + rows[1..];
      CountPartition(rows[1..], c, keys);
      SumCountsCons(rows[0], rows[1..], c, keys);
    }
  }

  lemma {:induction false} CountsOfEmpty(c: Column, keys: seq<string>)
    ensures SumCounts(CountsOf([], c, keys)) == 0
  {
    if keys != [] { CountsOfEmpty(c, keys[1..]); }
  }

  /** Every row's value is a key of its column's distinct values. */
  lemma UniqueCoversColumn(rows: seq<Record>, c: Column)
    ensures forall r :: r in rows ==> Field(r, c) in Unique(ColumnValues(rows, c))
  {
    forall r | r in rows ensures Field(r, c) in Unique(ColumnValues(rows, c)) {
      ColumnValuesMembership(rows, c, Field(r, c));
    }
  }

  lemma ValueCountsKeysDistinct(rows: seq<Record>, c: Column)
    ensures var vc := ValueCounts(rows, c);
      forall i, j :: 0 <= i < j < |vc| ==> vc[i].0 != vc[j].0
  {
    var keys := Unique(ColumnValues(rows, c));
    assert Distinct(keys);
  }

  lemma ValueCountsKeysOccur(rows: seq<Record>, c: Column)
    ensures var vc := ValueCounts(rows, c);
      forall i :: 0 <= i < |vc| ==> exists r :: r in rows && Field(r, c) == vc[i].0
  {
    var keys := Unique(ColumnValues(rows, c));
    var vc := ValueCounts(rows, c);
    forall i | 0 <= i < |vc| ensures exists r :: r in rows && Field(r, c) == vc[i].0 {
      assert keys[i] in keys;
      ColumnValuesMembership(rows, c, keys[i]);
    }
  }

  lemma ValueCountsKeysCover(rows: seq<Record>, c: Column)
    ensures var vc := ValueCounts(rows, c);
      forall r :: r in rows ==> exists i :: 0 <= i < |vc| && vc[i].0 == Field(r, c)
  {
    var keys := Unique(ColumnValues(rows, c));
    var vc := ValueCounts(rows, c);
    UniqueCoversColumn(rows, c);
    forall r | r in rows ensures exists i :: 0 <= i < |vc| && vc[i].0 == Field(r, c) {
      var i :| 0 <= i < |keys| && keys[i] == Field(r, c);
      assert vc[i].0 == Field(r, c);
    }
  }

  /** The value counts have one entry per distinct value: no key twice, every
      key occurs in the column, every value of the column is a key. */
  lemma ValueCountsKeys(rows: seq<Record>, c: Column)
    ensures var vc := ValueCounts(rows, c);
      && (forall i, j :: 0 <= i < j < |vc| ==> vc[i].0 != vc[j].0)
      && (forall i :: 0 <= i < |vc| ==> exists r :: r in rows && Field(r, c) == vc[i].0)
      && (forall r :: r in rows ==> exists i :: 0 <= i < |vc| && vc[i].0 == Field(r, c))
  {
    ValueCountsKeysDistinct(rows, c);
    ValueCountsKeysOccur(rows, c);
    ValueCountsKeysCover(rows, c);
  }

  /** Each entry counts the rows holding its key, and is at least 1. */
  lemma ValueCountsCounts(rows: seq<Record>, c: Column)
    ensures var vc := ValueCounts(rows, c);
      forall i :: 0 <= i < |vc| ==> vc[i].1 == |Where(rows, c, vc[i].0)| && vc[i].1 >= 1
  {
    var keys := Unique(ColumnValues(rows, c));
    var vc := ValueCounts(rows, c);
    forall i | 0 <= i < |vc| ensures vc[i].1 == |Where(rows, c, vc[i].0)| && vc[i].1 >= 1 {
      CountsOfAt(rows, c, keys, i);
      assert keys[i] in keys;
      ColumnValuesMembership(rows, c, keys[i]);
      var r :| r in rows && Field(r, c) == keys[i];
      assert r in Where(rows, c, keys[i]);
    }
  }

  /** The counts add up to the number of rows. */
  lemma ValueCountsSum(rows: seq<Record>, c: Column)
    ensures SumCounts(ValueCounts(rows, c)) == |rows|
  {
    UniqueCoversColumn(rows, c);
    CountPartition(rows, c, Unique(ColumnValues(rows, c)));
  }

  /** The bad-payer count is the `Ruim` entry of the risk counts, when present. */
  lemma RiskCountsHoldMausPagadores(rows: seq<Record>, i: nat)
    requires i < |RiskCounts(rows)| && RiskCounts(rows)[i].0 == Ruim
    ensures RiskCounts(rows)[i].1 == MausPagadores(rows)
  {
    CountsOfAt(rows, Risco, Unique(ColumnValues(rows, Risco)), i);
  }

  /** The credit totals per `Risco` group reconstruct the credit total. */
  lemma CreditByRiscoReconstructsTotal(rows: seq<Record>)
    ensures CreditByKey(rows, Risco, Unique(ColumnValues(rows, Risco))) == ValorTotalCredito(rows)
  {
    UniqueCoversColumn(rows, Risco);
    CreditPartition(rows, Risco, Unique(ColumnValues(rows, Risco)));
  }

  /** With only `Bom` and `Ruim` present, the credit total splits into the two. */
  lemma CreditSplitsByRisco(rows: seq<Record>)
    requires forall r :: r in rows ==> r.risco == Bom || r.risco == Ruim
    ensures ValorTotalCredito(rows)
         == ValorTotalCredito(Where(rows, Risco, Bom)) + ValorTotalCredito(Where(rows, Risco, Ruim))
  {
    var keys := [Bom, Ruim];
    CreditPartition(rows, Risco, keys);
    assert keys[1..] == [Ruim];
    assert CreditByKey(rows, Risco, [Ruim]) == ValorTotalCredito(Where(rows, Risco, Ruim)) by {
      assert [Ruim][1..] == [];
    }
  }
}
