/** Column bookkeeping of the dashboard: dropping the index columns a CSV
    export leaves behind, choosing which columns can be filtered, and which
    are shown. */
module Columns {
  import opened Seqs
  import opened Frame

  /** Column names written by an earlier `to_csv` for an unnamed index start like this. */
  const UnnamedPrefix := "Unnamed"

  /** The identifier column, never offered as a filter. */
  const SymbolColumn := "Symbol"

  /** The ranking column the shown table is sorted by. */
  const RankColumn := "Rate"

  /** The columns shown, in the order shown, when the table has them. */
  const DefaultDisplay: seq<string> :=
    ["Symbol", "Rate", "Pivot Price (Buy)", "Target Price (Sell)", "Stop Loss Price", "Predict"]

  /** The pattern `^Unnamed`: the name begins with `Unnamed` (case-sensitive). */
  predicate IsUnnamed(name: string) {
    UnnamedPrefix <= name
  }

  /** The table without its `Unnamed...` columns; every other column, and every row, stays. */
  function DropUnnamed(t: Table): (r: Table)
    ensures IsSubseq(r.columns, t.columns)
    ensures forall c :: c in r.columns <==> c in t.columns && !IsUnnamed(c)
    ensures forall c :: c in r.numeric <==> c in t.numeric && !IsUnnamed(c)
    ensures |r.rows| == |t.rows|
    ensures forall i, c :: 0 <= i < |r.rows| ==> (c in r.rows[i] <==> c in t.rows[i] && !IsUnnamed(c))
    ensures forall i, c :: 0 <= i < |r.rows| && c in r.rows[i] && c in t.rows[i] ==> r.rows[i][c] == t.rows[i][c]
    ensures WellFormed(t) ==> WellFormed(r)
  {
    var keep := (c: string) => !IsUnnamed(c);
    var r := Table(
      Where(t.columns, keep),
      set c | c in t.numeric && keep(c),
      seq(|t.rows|, i requires 0 <= i < |t.rows| => RestrictRow(t.rows[i], keep)));
    assert WellFormed(t) ==> forall row :: row in r.rows ==> FitsSchema(row, r.columns, r.numeric) by {
      if WellFormed(t) {
        forall row | row in r.rows ensures FitsSchema(row, r.columns, r.numeric) {
          var i :| 0 <= i < |r.rows| && r.rows[i] == row;
          assert FitsSchema(t.rows[i], t.columns, t.numeric);
        }
      }
    }
    r
  }

  /** The numeric columns, in table order (`select_dtypes(include='number')`). */
  function NumericColumns(t: Table): (r: seq<string>)
    ensures IsSubseq(r, t.columns)
    ensures forall c :: c in r <==> c in t.columns && c in t.numeric
    ensures Distinct(t.columns) ==> Distinct(r)
  {
    Where(t.columns, c => c in t.numeric)
  }

  /** The filter options: the numeric columns other than `Symbol`, in table order. */
  function AvailableVars(t: Table): (r: seq<string>)
    ensures IsSubseq(r, t.columns)
    ensures forall c :: c in r <==> c in t.columns && c in t.numeric && c != SymbolColumn
    ensures Distinct(t.columns) ==> Distinct(r)
  {
    var numeric := (c: string) => c in t.numeric;
    var notSymbol := (c: string) => c != SymbolColumn;
    WhereWhere(t.columns, numeric, notSymbol, c => c in t.numeric && c != SymbolColumn);
    Where(NumericColumns(t), notSymbol)
  }

  /** The shown columns: those of `DefaultDisplay` the table has, in `DefaultDisplay` order;
      absent ones are skipped. */
  function DisplayColumns(columns: seq<string>): (r: seq<string>)
    ensures IsSubseq(r, DefaultDisplay)
    ensures forall c :: c in r <==> c in DefaultDisplay && c in columns
    ensures Distinct(r)
    ensures RankColumn in r <==> RankColumn in columns
  {
    assert Distinct(DefaultDisplay);
    Where(DefaultDisplay, c => c in columns)
  }

  /** `t[names]`: the table reduced to the columns `names`, in that order; each
      row keeps its cells in those columns, and the rows keep their order. */
  function Project(t: Table, names: seq<string>): (r: Table)
    requires forall c :: c in names ==> c in t.columns
    ensures r.columns == names
    ensures forall c :: c in r.numeric <==> c in t.numeric && c in names
    ensures |r.rows| == |t.rows|
    ensures forall i, c :: 0 <= i < |r.rows| ==> (c in r.rows[i] <==> c in t.rows[i] && c in names)
    ensures forall i, c :: 0 <= i < |r.rows| && c in r.rows[i] && c in t.rows[i] ==> r.rows[i][c] == t.rows[i][c]
    ensures WellFormed(t) && Distinct(names) ==> WellFormed(r)
  {
    var keep := (c: string) => c in names;
    var r := Table(
      names,
      set c | c in t.numeric && keep(c),
      seq(|t.rows|, i requires 0 <= i < |t.rows| => RestrictRow(t.rows[i], keep)));
    assert WellFormed(t) && Distinct(names) ==> forall row :: row in r.rows ==> FitsSchema(row, r.columns, r.numeric) by {
      if WellFormed(t) && Distinct(names) {
        forall row | row in r.rows ensures FitsSchema(row, r.columns, r.numeric) {
          var i :| 0 <= i < |r.rows| && r.rows[i] == row;
          assert FitsSchema(t.rows[i], t.columns, t.numeric);
        }
      }
    }
    r
  }
}
