# Credit-risk dashboard: filter and aggregate, in Dafny

This project models the non-presentational logic of a Streamlit dashboard
over a German credit dataset. Each row of the loaded table is a `Record` with
the four columns the dashboard reads: `Proposito` (credit purpose),
`Faixa_Etaria` (age bracket), `Risco` (`Bom` or `Ruim`) and `Valor_Credito`
(credit amount). From that table the dashboard does five things:

- it offers two filter widgets, each listing the sentinel `Todos` followed by
  the sorted distinct values of its column;
- it copies the table and narrows the copy by `Proposito`, then by
  `Faixa_Etaria`. A step is skipped when its selection is empty, `None` or
  `Todos`;
- it computes four metrics over the filtered rows: the client count, the bad
  payers (`Risco == 'Ruim'`), the default rate guarded against an empty table,
  and the credit total;
- it counts the filtered rows per `Risco` value for the proportion chart;
- it formats the count with `.` as thousands separator, and swaps `,` and
  `.` in the formatted credit total through an `X` placeholder.

Modules, one per concern:

- `CreditData` (credit_data.dfy): `Record`, `Column`, the selection `Choice`
  and the guard `Restricts`.
- `Tables` (tables.dfy): the equality mask `Where`, `Unique`, and the
  subsequence relation.
- `StringOrder` (string_order.dfy): Python's string order and the sort of
  the option lists.
- `Options` (options.dfy): the widgets' option lists.
- `Filters` (filters.dfy): the filter stage `FilterTable`. It is a method
  that reassigns a local sequence. `Selected` is its one-pass reference
  definition.
- `Metrics` (metrics.dfy): the metrics, the value counts and the partition
  sums.
- `Display` (display.dfy): thousands grouping and the separator swap.
- `Scenarios` (scenarios.dfy): the worked two-row examples.

The loaded table is a Dafny `seq<Record>`, which is a value. So "the
original table is left unchanged by the filter" holds by construction,
as the `.copy()` intends. `Valor_Credito` is an exact `real`, and the
default rate uses exact real division. A selection is `Unset` (Python's
`None`) or `Picked(s)`. It restricts the table only when `s` is non-empty
and not `Todos`, exactly as the guard `if sel and sel != 'Todos'` does.

The dataset's `Risco` holds only `Bom` or `Ruim`, and the widgets only
offer values of the table. The code relies on neither, and neither does the
model: any string may occur, and any selection is accepted. Only `CreditSplitsByRisco` assumes the two-value domain, and it
says so in its `requires`.

## Model

| member | source | states |
|---|---|---|
| `Tables.Where` | app.py:44 | the mask keeps at most the rows given, and a row is kept iff it is one of them and its column equals the value |
| `Tables.WhereIsSubsequence` | app.py:44 | a mask keeps only original rows, in their original relative order |
| `Tables.SubsequenceBounds` | app.py:41-47 | a subsequence is no longer than the table and holds only its rows |
| `Tables.WhereAppend` | app.py:44 | masking distributes over concatenation of tables |
| `Tables.WhereIdempotent` | app.py:44 | masking the masked table again with the same value changes nothing |
| `Tables.WhereCommutes` | app.py:43-47 | two masks on any columns give the same table in either order |
| `Tables.Unique` | app.py:29 | `unique()` yields no value twice and exactly the values of the column |
| `Tables.ColumnValuesMembership` | app.py:29 | a string is in a column iff some row holds it there |
| `StringOrder.LessIrreflexive` | app.py:29 | no string sorts before itself |
| `StringOrder.LessTransitive` | app.py:29 | the string order is transitive |
| `StringOrder.LessTotal` | app.py:29 | of two different strings one sorts before the other |
| `StringOrder.StrictlyAscendingIsDistinct` | app.py:29 | a strictly ascending list has no duplicates |
| `StringOrder.Insert` | app.py:29 | inserting adds exactly the one element to the multiset |
| `StringOrder.InsertAscending` | app.py:29 | inserting a new string into a strictly ascending list keeps it strictly ascending |
| `StringOrder.SortStep` | app.py:29 | inserting the head of a distinct list into its sorted tail gives a strictly ascending list |
| `StringOrder.SortStrings` | app.py:29 | `sorted()` returns a permutation of its input, strictly ascending when the input has no duplicates |
| `Options.OptionList` | app.py:29-35 | the option list starts with `Todos`; the rest is strictly ascending and holds exactly the values occurring in the column |
| `Options.OptionsHaveNoDuplicates` | app.py:35 | no option after the sentinel occurs twice |
| `CreditData.Restricts` | app.py:43 | no own contract; the guard `sel and sel != 'Todos'` (also app.py:46), used by `Filters.Matches`; see `Filters.SelectedUnrestricted` |
| `Filters.Stage` | app.py:43-47 | no own contract; one guarded mask step; see `Filters.StagesAreSelected` and `Filters.StageOrderIrrelevant` |
| `Filters.Selected` | app.py:41-47 | the filtered table is no longer than the original, and a row survives iff it matches every restricting selection (logical AND) |
| `Filters.StageAppend` | app.py:43-47 | a guarded step distributes over concatenation |
| `Filters.StagesAreSelected` | app.py:43-47 | the two guarded steps in source order compute exactly the one-pass AND filter |
| `Filters.FilterTable` | app.py:41-47 | the filter stage returns the AND filter of the original table: a subsequence of it, no longer, holding exactly the matching rows |
| `Filters.SelectedIsSubsequence` | app.py:41-47 | the filtered table holds only original rows, in their original order |
| `Filters.SelectedUnrestricted` | app.py:41-47 | with both selections `Todos`, empty or unset, the filtered table is the original table |
| `Filters.AbsentPropositoSelectsNothing` | app.py:43-44 | a selected purpose that no row has yields an empty table, not an error |
| `Filters.AbsentFaixaEtariaSelectsNothing` | app.py:46-47 | a selected age bracket that no row has yields an empty table |
| `Filters.StageOrderIrrelevant` | app.py:43-47 | running the age-bracket step before the purpose step yields the same table |
| `Filters.SelectedIdempotent` | app.py:41-47 | filtering the filtered table again with the same selections changes nothing |
| `Metrics.TotalClientes` | app.py:64 | no own contract; the row count; see `Metrics.ValueCountsSum` and `Metrics.MausPagadores` |
| `Metrics.MausPagadores` | app.py:65 | the bad payers are at most the clients; none iff no row is `Ruim`; all iff every row is `Ruim` |
| `Metrics.CountMatchingIsAll` | app.py:65 | a mask keeps every row iff every row matches |
| `Metrics.Percentage` | app.py:66 | the guarded rate lies in [0, 100], is 0 iff there are no bad payers (including an empty table), is 100 iff all clients are bad, and times the client count it is 100 times the bad payers |
| `Metrics.TaxaInadimplencia` | app.py:66 | the default rate lies in [0, 100], is 0 exactly when there are no bad payers, including the guarded empty case, and is 100 exactly when every client is a bad payer |
| `Metrics.ValorTotalCredito` | app.py:67 | the credit total of an empty table is 0 and of non-negative amounts is non-negative |
| `Metrics.CreditAdditive` | app.py:67 | the credit total of two parts put together is the sum of their totals |
| `Metrics.CreditByKeyCons` | app.py:67 | adding a row to the table adds its amount to the per-group totals once when its group is listed |
| `Metrics.CreditByKeyOfEmpty` | app.py:67 | the per-group totals of an empty table are 0 |
| `Metrics.CreditPartition` | app.py:67 | the per-group credit totals over distinct groups that cover every row add up to the credit total |
| `Metrics.CreditByRiscoReconstructsTotal` | app.py:105 | the credit totals of the `Risco` groups add up to the credit total |
| `Metrics.CreditSplitsByRisco` | app.py:67 | when `Risco` is always `Bom` or `Ruim`, the credit total is the `Bom` total plus the `Ruim` total |
| `Metrics.CountsOf` | app.py:105 | one entry per listed group, in the listed order |
| `Metrics.CountsOfAt` | app.py:105 | each entry counts the rows holding its key |
| `Metrics.SumCountsCons` | app.py:105 | adding a row to the table raises the summed counts by one iff its group is listed |
| `Metrics.CountsOfEmpty` | app.py:105 | the counts over an empty table sum to 0 |
| `Metrics.CountPartition` | app.py:105 | the counts over distinct groups that cover every row sum to the row count |
| `Metrics.UniqueCoversColumn` | app.py:105 | every row's value is among the column's distinct values |
| `Metrics.ValueCounts` | app.py:105 | no own contract; `value_counts()` of a column; see `Metrics.ValueCountsKeys`, `Metrics.ValueCountsCounts`, `Metrics.ValueCountsSum` |
| `Metrics.RiskCounts` | app.py:105 | no own contract; `df['Risco'].value_counts()`; see `Metrics.RiskCountsHoldMausPagadores` |
| `Metrics.ValueCountsKeysDistinct` | app.py:105 | `value_counts()` has no key twice |
| `Metrics.ValueCountsKeysOccur` | app.py:105 | every key of `value_counts()` occurs in the column |
| `Metrics.ValueCountsKeysCover` | app.py:105 | every value of the column is a key of `value_counts()` |
| `Metrics.ValueCountsKeys` | app.py:105 | `value_counts()` has no key twice, every key occurs in the column, and every value of the column is a key |
| `Metrics.ValueCountsCounts` | app.py:105 | each value count is the number of rows holding that value, and at least 1 |
| `Metrics.ValueCountsSum` | app.py:105 | the value counts sum to the client count |
| `Metrics.RiskCountsHoldMausPagadores` | app.py:65 | the `Ruim` entry of the risk counts is the bad-payer count |
| `Display.DigitChar` | app.py:73 | the digit character denotes its digit |
| `Display.Digits` | app.py:73 | the rendering of a count is a non-empty digit string without a leading zero |
| `Display.DigitsRoundTrip` | app.py:73 | reading the digits back gives the count |
| `Display.GroupThousands` | app.py:73 | grouping never shortens the digit string; see `Display.GroupThousandsLength`, `Display.SeparatorPositions` and `Display.UngroupThousands` for its exact shape |
| `Display.GroupThousandsLength` | app.py:73 | grouping adds one separator per complete group of three digits after the first group |
| `Display.SeparatorAtShort` | app.py:73 | a group of at most three digits holds no separator |
| `Display.SeparatorAtStep` | app.py:73 | prefixing one more separator and group of three keeps the separators exactly at the positions that are 3 modulo 4 from the right |
| `Display.SeparatorAt` | app.py:73 | a character of the grouped string, counted from the right, is the separator iff its position is 3 modulo 4 |
| `Display.SeparatorPositions` | app.py:73 | counting from the right, a separator stands exactly at every fourth position |
| `Display.RemoveCharAppend` | app.py:73 | deleting a character distributes over concatenation |
| `Display.RemoveAbsentChar` | app.py:73 | deleting an absent character changes nothing |
| `Display.RemoveAroundChar` | app.py:73 | deleting a character around one occurrence of it joins what is left on both sides |
| `Display.UngroupThousands` | app.py:73 | deleting the separators of a grouped digit string gives back the digits |
| `Display.ReplaceChar` | app.py:77 | `replace` of one character keeps the length and changes exactly the occurrences of that character |
| `Display.ReplaceSeparator` | app.py:73 | replacing `,` by `.` in a grouped digit string is grouping with `.` |
| `Display.CountDisplay` | app.py:73 | no own contract; `f"{n:,}".replace(",", ".")`; see `Display.CountDisplayGrouping` |
| `Display.CountDisplayGrouping` | app.py:73 | the count string is the count's digits grouped by `.` every three digits from the right; deleting the dots gives back the digits and the count |
| `Display.SwapSeparators` | app.py:77 | the one-pass swap keeps the length |
| `Display.SwapSeparatorsAt` | app.py:77 | the one-pass swap exchanges `,` and `.` and keeps all other characters |
| `Display.BrazilianSeparators` | app.py:77 | no own contract; the three chained replaces; see `Display.BrazilianSeparatorsAt`, `Display.BrazilianSeparatorsSwap`, `Display.BrazilianSeparatorsInvolution` |
| `Display.BrazilianSeparatorsAt` | app.py:77 | the three chained replaces turn `,` and `X` into `.`, `.` into `,`, and keep all other characters |
| `Display.BrazilianSeparatorsSwap` | app.py:77 | on a string without `X` the chain is the simultaneous swap of `,` and `.` |
| `Display.BrazilianSeparatorsInvolution` | app.py:77 | on a string without `X`, applying the chain twice gives the string back |
| `Scenarios.SelectingSharedPurpose` | app.py:41-67 | on the two-row table, selecting `car` keeps both rows: 2 clients, 1 bad payer, rate 50, credit 3000 |
| `Scenarios.SelectingOldBracket` | app.py:41-67 | selecting the `old` bracket keeps the bad payer only: rate 100, credit 2000 |
| `Scenarios.SelectingAbsentPurpose` | app.py:41-67 | selecting an absent purpose gives an empty table, rate 0, credit 0 and no risk counts |

## Left out

- CSV loading and its cache (app.py:17-23): this is file I/O and framework memoisation. The loaded table is a given `seq<Record>`.
- Missing values: the model assumes every row has all four columns, since the dataset is pre-cleaned. pandas' treatment of NaN in masks, `unique()` and `sum()` is not modelled.
- All Streamlit calls are presentation: page setup, widgets, sidebar text, title and columns. The selectbox interaction becomes "a `Choice` is given".
- The three Plotly charts (app.py:87-130) are presentation inside a library: the histograms of `Faixa_Etaria` x `Risco` and `Proposito` x `Risco`, the pie built from the value counts, colours and `categoryorder`.
- Floating-point formatting is left out: the `:.2f` of the rate (app.py:75) and the `:,.2f` of the credit total (app.py:77). Only the character swap applied afterwards is modelled. Amounts and the rate are exact reals, not IEEE doubles.
- Metrics.ValueCounts: the entries are in first-occurrence order. pandas orders them by descending count, and that order only affects the order of the pie slices.
- StringOrder.SortStrings: an insertion sort stands for Python's `sorted()`. On distinct strings both give the same list, the unique strictly ascending permutation.
