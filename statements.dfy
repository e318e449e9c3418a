/** The financial statements as the data provider delivers them: a table with one row per
    line item and one column per period-end date. */
module Statements {
  import opened Common

  datatype Date = Date(year: int, month: int, day: int)

  /** One period of a statement. A line item of the statement's index that has no cell here
      is a NaN cell of the data frame. */
  datatype Column = Column(date: Date, cells: map<string, real>)

  /** A statement: the line-item labels (the data frame's index) and the period columns in the
      provider's order (newest first). */
  datatype Statement = Statement(index: set<string>, columns: seq<Column>)

  /** pandas' `DataFrame.empty`: no row or no column. */
  predicate IsEmpty(s: Statement) {
    s.index == {} || s.columns == []
  }

  /** The first column of the given date, if any. */
  function ColumnOn(cols: seq<Column>, date: Date): (r: Option<Column>)
    ensures r.Some? ==> r.value in cols && r.value.date == date
    ensures r.None? <==> forall c :: c in cols ==> c.date != date
  {
    if cols == [] then None
    else if cols[0].date == date then Some(cols[0])
    else ColumnOn(cols[1..], date)
  }

  /** `float(statement.loc[item, date])` inside the source's try-block: None when the item or
      the date is not in the statement (a KeyError) or when the cell is NaN. */
  function Lookup(s: Statement, item: string, date: Date): (r: Option<real>)
    ensures r.Some? ==> item in s.index
    ensures r.Some? ==> exists c :: c in s.columns && c.date == date && item in c.cells && c.cells[item] == r.value
    ensures r.Some? <==> item in s.index && ColumnOn(s.columns, date).Some? && item in ColumnOn(s.columns, date).value.cells
  {
    if item !in s.index then None
    else
      match ColumnOn(s.columns, date)
      case None => None
      case Some(c) => if item in c.cells then Some(c.cells[item]) else None
  }

  /** The column of a date that no earlier column has is the one found for that date. */
  lemma {:induction false} ColumnOnFirst(cols: seq<Column>, date: Date, k: nat)
    requires k < |cols| && cols[k].date == date
    requires forall j :: 0 <= j < k ==> cols[j].date != date
    ensures ColumnOn(cols, date) == Some(cols[k])
    decreases k
  {
    if k > 0 {
      assert cols[0].date != date;
      ColumnOnFirst(cols[1..], date, k - 1);
    }
  }

  /** A line item of the statement with a cell in the first column of the date yields that
      cell, so a lookup fails only for a missing item, date or cell. */
  lemma LookupFindsCell(s: Statement, item: string, date: Date, k: nat)
    requires k < |s.columns| && s.columns[k].date == date
    requires forall j :: 0 <= j < k ==> s.columns[j].date != date
    requires item in s.index && item in s.columns[k].cells
    ensures Lookup(s, item, date) == Some(s.columns[k].cells[item])
  {
    ColumnOnFirst(s.columns, date, k);
  }
}
