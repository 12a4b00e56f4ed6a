/** The option list of a filter widget: the sentinel followed by the sorted
    distinct values of a column. */
module Options {
  import opened CreditData
  import opened Tables
  import opened StringOrder

  /** `['Todos'] + sorted(df[c].unique())`. */
  function OptionList(rows: seq<Record>, c: Column): (opts: seq<string>)
    ensures |opts| >= 1 && opts[0] == Todos
    ensures StrictlyAscending(opts[1..])
    ensures forall x :: x in opts[1..] <==> exists r :: r in rows && Field(r, c) == x
  {
    var distinct := Unique(ColumnValues(rows, c));
    var sorted := SortStrings(distinct);
    assert ([Todos] + sorted)[1..] == sorted;
    forall x ensures x in sorted <==> exists r :: r in rows && Field(r, c) == x {
      assert x in sorted <==> x in multiset(distinct);
      ColumnValuesMembership(rows, c, x);
    }
    [Todos] + sorted
  }

  /** Every option after the sentinel occurs once. */
  lemma OptionsHaveNoDuplicates(rows: seq<Record>, c: Column)
    ensures forall i, j :: 1 <= i < j < |OptionList(rows, c)| ==> OptionList(rows, c)[i] != OptionList(rows, c)[j]
  {
    var opts := OptionList(rows, c);
    StrictlyAscendingIsDistinct(opts[1..]);
    forall i, j | 1 <= i < j < |opts| ensures opts[i] != opts[j] {
      assert opts[i] == opts[1..][i - 1] && opts[j] == opts[1..][j - 1];
    }
  }
}
