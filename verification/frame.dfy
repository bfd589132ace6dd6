/** The screening table as the dashboard holds it in memory: named columns in
    display order, the subset of them whose type is numeric, and one row per
    stock mapping column names to cells. */
module Frame {
  import opened Seqs

  /** A cell: a number, a text value, or a missing value (NaN). */
  datatype Cell = Num(value: real) | Str(text: string) | Missing

  type Row = map<string, Cell>

  /** `numeric` is the set of columns whose type inference found numeric. */
  datatype Table = Table(columns: seq<string>, numeric: set<string>, rows: seq<Row>)

  /** The numeric value of `row` in column `col`, or None when the cell is
      missing, absent or not a number: such a cell fails every comparison. */
  function NumAt(row: Row, col: string): Option<real> {
    if col in row && row[col].Num? then Some(row[col].value) else None
  }

  predicate Defined(row: Row, col: string) {
    NumAt(row, col).Some?
  }

  /** A row has a cell for exactly the table's columns, and no text in a numeric column. */
  ghost predicate FitsSchema(row: Row, columns: seq<string>, numeric: set<string>) {
    && (forall c :: c in row <==> c in columns)
    && (forall c :: c in numeric && c in row ==> !row[c].Str?)
  }

  /** Column names are unique, the numeric ones are among them, and every row fits. */
  ghost predicate WellFormed(t: Table) {
    && Distinct(t.columns)
    && (forall c :: c in t.numeric ==> c in t.columns)
    && (forall r :: r in t.rows ==> FitsSchema(r, t.columns, t.numeric))
  }

  /** The cells of `row` in the columns `keep` accepts. */
  function RestrictRow(row: Row, keep: string -> bool): Row {
    map c | c in row && keep(c) :: row[c]
  }
}
