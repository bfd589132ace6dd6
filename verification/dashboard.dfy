/** The screening table of the dashboard's one tab, end to end: the loaded
    table loses its `Unnamed` columns (app.py:8), is narrowed by the sliders
    (app.py:30-43), reduced to the display columns (app.py:46) and sorted by
    `Rate`, highest first (app.py:49). */
module Dashboard {
  import opened Seqs
  import opened Frame
  import opened Columns
  import opened RangeFilter
  import opened RankSort

  /** What the sort at app.py:49 yields: the sorted table, or the `KeyError`
      pandas raises when the column to sort by is not there. (With the
      multiselect's own default in play, the page fails earlier in that
      case; `selected` is taken here as any input.) */
  datatype Shown = Shown(table: Table) | KeyError(column: string)

  /** A table with the same schema and fewer rows is still well formed. */
  lemma KeepRowsWellFormed(t: Table, rows: seq<Row>)
    requires WellFormed(t)
    requires forall x :: x in rows ==> x in t.rows
    ensures WellFormed(Table(t.columns, t.numeric, rows))
  {
  }

  /** The pipeline for one rerun of the page, with the multiselect's value
      `selected` and the sliders' values `chosen` as inputs. Also returns the
      filtered rows and the steps applied, which the contract describes. */
  method Screen(raw: Table, selected: seq<string>, chosen: map<string, Range>)
    returns (filtered: seq<Row>, applied: seq<Step>, out: Shown)
    ensures var t := DropUnnamed(raw);
      && StepColumns(applied) == SelectedNumeric(selected, NumericColumns(t))
      && SliderTrace(t.rows, applied, chosen)
      && filtered == ApplySteps(t.rows, applied)
      && IsSubseq(filtered, t.rows)
      && (selected == [] ==> filtered == t.rows)
    ensures out.KeyError? <==> RankColumn !in DropUnnamed(raw).columns
    ensures out.KeyError? ==> out.column == RankColumn
    ensures out.Shown? ==>
      var t := DropUnnamed(raw);
      var cols := DisplayColumns(t.columns);
      && out.table.columns == cols
      && SortedDescending(out.table.rows, RankColumn)
      && multiset(out.table.rows) == multiset(Project(Table(t.columns, t.numeric, filtered), cols).rows)
    ensures out.Shown? && WellFormed(raw) ==> WellFormed(out.table)
  {
    var t := DropUnnamed(raw);
    filtered, applied := Filter(t, selected, chosen);
    var cols := DisplayColumns(t.columns);
    var view := Project(Table(t.columns, t.numeric, filtered), cols);
    if RankColumn !in cols {
      out := KeyError(RankColumn);
    } else {
      var sorted := SortDescending(view.rows, RankColumn);
      out := Shown(Table(view.columns, view.numeric, sorted));
      if WellFormed(raw) {
        KeepRowsWellFormed(t, filtered);
        assert forall x :: x in sorted ==> x in view.rows by {
          forall x | x in sorted ensures x in view.rows {
            assert x in multiset(sorted);
          }
        }
        KeepRowsWellFormed(view, sorted);
      }
    }
  }
}
