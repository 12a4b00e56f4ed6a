/** The data model of the credit-risk dashboard: one row of the loaded table,
    the columns the dashboard reads, and a filter selection. */
module CreditData {

  /** The sentinel option of every filter: "no restriction". */
  const Todos: string := "Todos"

  /** The `Risco` value that marks a bad payer. */
  const Ruim: string := "Ruim"

  /** The `Risco` value that marks a good payer. */
  const Bom: string := "Bom"

  /** One applicant's credit case, restricted to the four columns the
      dashboard uses. `valorCredito` is read from a decimal field, so it is
      kept as an exact real. */
  datatype Record = Record(
    proposito: string,
    faixaEtaria: string,
    risco: string,
    valorCredito: real)

  /** The categorical columns that are filtered on or grouped by. */
  datatype Column = Proposito | FaixaEtaria | Risco

  function Field(r: Record, c: Column): string
  {
    match c
    case Proposito => r.proposito
    case FaixaEtaria => r.faixaEtaria
    case Risco => r.risco
  }

  /** What a selection widget hands back: nothing (Python's None) or a string. */
  datatype Choice = Unset | Picked(value: string)

  /** A selection narrows the table only when it is a non-empty string other
      than the sentinel: the guard `sel and sel != 'Todos'`. */
  predicate Restricts(c: Choice)
  {
    c.Picked? && c.value != "" && c.value != Todos
  }
}
