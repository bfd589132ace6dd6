/** The slider filter of the dashboard (app.py:30-43). For every selected
    variable that is a numeric column, in selection order, a slider offers
    the range between the minimum and the maximum of that column in the rows
    still kept, and the rows whose value lies outside the chosen range (or is
    missing) are dropped.

    The slider widget itself is an input: `chosen` maps a column to the range
    its slider was set to, and a column absent from `chosen` is a slider left
    at its default, the full (min, max) range of the rows still kept. */
module RangeFilter {
  import opened Seqs
  import opened Frame
  import opened Columns

  /** An inclusive range `[lo, hi]`. */
  datatype Range = Range(lo: real, hi: real)

  /** One pass of the loop: the column filtered on and the range applied to it.
      `None` is the range (NaN, NaN) a slider gets when the column has no
      value in the rows still kept. */
  datatype Step = Step(column: string, range: Option<Range>)

  /** A row survives a step when its value is defined and lies in the range;
      a comparison with NaN is false, so a missing value or NaN bounds fail. */
  predicate Passes(row: Row, st: Step) {
    match (st.range, NumAt(row, st.column))
    case (Some(rg), Some(v)) => rg.lo <= v <= rg.hi
    case _ => false
  }

  /** A row survives every step in `steps`. */
  predicate PassesAll(row: Row, steps: seq<Step>) {
    forall st :: st in steps ==> Passes(row, st)
  }

  /** `df[(df[col] >= lo) & (df[col] <= hi)]`: one narrowing of the rows. */
  function KeepStep(rows: seq<Row>, st: Step): (r: seq<Row>)
    ensures IsSubseq(r, rows)
    ensures forall x :: x in r <==> x in rows && Passes(x, st)
  {
    Where(rows, x => Passes(x, st))
  }

  /** The steps applied one after the other, first step first. */
  function ApplySteps(rows: seq<Row>, steps: seq<Step>): (r: seq<Row>)
    ensures forall x :: x in r <==> x in rows && PassesAll(x, steps)
    decreases |steps|
  {
    if steps == [] then rows
    else
      var prefix := steps[..|steps| - 1];
      var last := steps[|steps| - 1];
      assert steps == prefix + [last];
      KeepStep(ApplySteps(rows, prefix), last)
  }

  /** The rows that pass all the steps at once, selected in one pass. */
  ghost function KeepAll(rows: seq<Row>, steps: seq<Step>): seq<Row> {
    Where(rows, x => PassesAll(x, steps))
  }

  /** The smallest defined value of `col` (pandas `min`, which skips NaN), or
      None when no row has one. */
  function ColumnMin(rows: seq<Row>, col: string): (m: Option<real>)
    ensures m.None? <==> forall x :: x in rows ==> !Defined(x, col)
    ensures m.Some? ==> forall x :: x in rows && Defined(x, col) ==> m.value <= NumAt(x, col).value
    ensures m.Some? ==> exists x :: x in rows && NumAt(x, col) == m
  {
    if rows == [] then None
    else
      var rest := ColumnMin(rows[1..], col);
      assert forall x :: x in rows <==> x == rows[0] || x in rows[1..];
      match NumAt(rows[0], col)
      case None => rest
      case Some(v) =>
        assert Defined(rows[0], col);
        if rest.Some? && rest.value < v then rest else Some(v)
  }

  /** The largest defined value of `col` (pandas `max`, which skips NaN), or
      None when no row has one. */
  function ColumnMax(rows: seq<Row>, col: string): (m: Option<real>)
    ensures m.None? <==> forall x :: x in rows ==> !Defined(x, col)
    ensures m.Some? ==> forall x :: x in rows && Defined(x, col) ==> NumAt(x, col).value <= m.value
    ensures m.Some? ==> exists x :: x in rows && NumAt(x, col) == m
  {
    if rows == [] then None
    else
      var rest := ColumnMax(rows[1..], col);
      assert forall x :: x in rows <==> x == rows[0] || x in rows[1..];
      match NumAt(rows[0], col)
      case None => rest
      case Some(v) =>
        assert Defined(rows[0], col);
        if rest.Some? && rest.value > v then rest else Some(v)
  }

  /** The slider's default value `(min, max)` over the rows still kept. */
  function DefaultRange(rows: seq<Row>, col: string): Option<Range> {
    match (ColumnMin(rows, col), ColumnMax(rows, col))
    case (Some(lo), Some(hi)) => Some(Range(lo, hi))
    case _ => None
  }

  /** The range a slider yields: the one it was set to, else its default. */
  function SliderValue(chosen: map<string, Range>, col: string, rows: seq<Row>): Option<Range> {
    if col in chosen then Some(chosen[col]) else DefaultRange(rows, col)
  }

  /** Every step's range is what its slider yields over the rows left by the
      steps before it, not over the original rows. */
  ghost predicate SliderTrace(rows: seq<Row>, steps: seq<Step>, chosen: map<string, Range>)
    decreases |steps|
  {
    steps == [] ||
      var prefix := steps[..|steps| - 1];
      var last := steps[|steps| - 1];
      && SliderTrace(rows, prefix, chosen)
      && last.range == SliderValue(chosen, last.column, ApplySteps(rows, prefix))
  }

  /** The columns the steps filter on, in order. */
  function StepColumns(steps: seq<Step>): seq<string> {
    seq(|steps|, k requires 0 <= k < |steps| => steps[k].column)
  }

  /** The selected variables the loop acts on: those that are numeric columns
      (`if var in numeric_cols`), in selection order. */
  function SelectedNumeric(selected: seq<string>, numericCols: seq<string>): (r: seq<string>)
    ensures IsSubseq(r, selected)
    ensures forall v :: v in r <==> v in selected && v in numericCols
  {
    Where(selected, v => v in numericCols)
  }

  /** A selection made from the offered options (AvailableVars) passes the
      `var in numeric_cols` guard entirely: every selected variable gets a slider. */
  lemma OptionsAreFiltered(t: Table, selected: seq<string>)
    requires forall v :: v in selected ==> v in AvailableVars(t)
    ensures SelectedNumeric(selected, NumericColumns(t)) == selected
  {
    WhereAll(selected, v => v in NumericColumns(t));
  }

  /** One pass of the loop body (app.py:35-43): the slider for `col` offers the
      minimum and maximum of the rows kept so far, and the rows outside the
      range it yields are dropped. */
  method Narrow(rows: seq<Row>, col: string, chosen: map<string, Range>)
    returns (st: Step, kept: seq<Row>)
    ensures st == Step(col, SliderValue(chosen, col, rows))
    ensures kept == KeepStep(rows, st)
  {
    var lo := ColumnMin(rows, col);
    var hi := ColumnMax(rows, col);
    var range := if col in chosen then Some(chosen[col])
                 else if lo.Some? && hi.Some? then Some(Range(lo.value, hi.value))
                 else None;
    st := Step(col, range);
    kept := KeepStep(rows, st);
  }

  /** The filter loop of app.py:30-43. Returns the kept rows and the steps it
      applied, one per selected numeric column, each with the range its slider
      yielded over the rows kept so far. */
  method Filter(t: Table, selected: seq<string>, chosen: map<string, Range>)
    returns (rows: seq<Row>, applied: seq<Step>)
    ensures StepColumns(applied) == SelectedNumeric(selected, NumericColumns(t))
    ensures SliderTrace(t.rows, applied, chosen)
    ensures rows == ApplySteps(t.rows, applied)
    ensures IsSubseq(rows, t.rows)
    ensures forall x :: x in rows <==> x in t.rows && PassesAll(x, applied)
    ensures selected == [] ==> rows == t.rows
  {
    var numericCols := NumericColumns(t);
    rows := t.rows;
    applied := [];
    if selected != [] {
      for i := 0 to |selected|
        invariant StepColumns(applied) == SelectedNumeric(selected[..i], numericCols)
        invariant SliderTrace(t.rows, applied, chosen)
        invariant rows == ApplySteps(t.rows, applied)
      {
        var v := selected[i];
        SelectedNumericNext(selected, i, numericCols);
        if v in numericCols {
          var st, narrowed := Narrow(rows, v, chosen);
          SliderTraceExtend(t.rows, applied, chosen, st);
          StepColumnsAppend(applied, st);
          rows := narrowed;
          applied := applied + [st];
        }
      }
      assert selected[..|selected|] == selected;
    }
    ApplyStepsIsKeepAll(t.rows, applied);
  }

  /** One more selected variable extends the variables acted on by itself
      when it is a numeric column, and by nothing otherwise. */
  lemma SelectedNumericNext(selected: seq<string>, i: nat, numericCols: seq<string>)
    requires i < |selected|
    ensures SelectedNumeric(selected[..i + 1], numericCols)
         == SelectedNumeric(selected[..i], numericCols)
            + (if selected[i] in numericCols then [selected[i]] else [])
  {
    assert selected[..i + 1] == selected[..i] + [selected[i]];
    WhereAppend(selected[..i], selected[i], v => v in numericCols);
  }

  /** One more pass of the loop, with the range its slider yields over the
      rows kept so far, extends the trace. */
  lemma SliderTraceExtend(rows: seq<Row>, steps: seq<Step>, chosen: map<string, Range>, st: Step)
    requires SliderTrace(rows, steps, chosen)
    requires st.range == SliderValue(chosen, st.column, ApplySteps(rows, steps))
    ensures SliderTrace(rows, steps + [st], chosen)
    ensures ApplySteps(rows, steps + [st]) == KeepStep(ApplySteps(rows, steps), st)
  {
  }

  /** Appending a step appends its column. */
  lemma StepColumnsAppend(steps: seq<Step>, st: Step)
    ensures StepColumns(steps + [st]) == StepColumns(steps) + [st.column]
  {
  }

  /** Applying the steps one by one keeps exactly the rows that pass them all,
      in their original order. */
  lemma {:induction false} ApplyStepsIsKeepAll(rows: seq<Row>, steps: seq<Step>)
    ensures ApplySteps(rows, steps) == KeepAll(rows, steps)
    ensures IsSubseq(ApplySteps(rows, steps), rows)
    decreases |steps|
  {
    if steps == [] {
      WhereAll(rows, x => PassesAll(x, steps));
    } else {
      var prefix := steps[..|steps| - 1];
      var last := steps[|steps| - 1];
      assert steps == prefix + [last];
      ApplyStepsIsKeepAll(rows, prefix);
      WhereWhere(rows, x => PassesAll(x, prefix), x => Passes(x, last), x => PassesAll(x, steps));
    }
  }

  /** Filtering is idempotent: the kept rows pass the same steps again unchanged. */
  lemma ApplyStepsIdempotent(rows: seq<Row>, steps: seq<Step>)
    ensures ApplySteps(ApplySteps(rows, steps), steps) == ApplySteps(rows, steps)
  {
    var once := ApplySteps(rows, steps);
    ApplyStepsIsKeepAll(once, steps);
    WhereAll(once, x => PassesAll(x, steps));
  }

  /** The order of the steps (and repeating one) does not change the result:
      only the set of ranges applied matters. */
  lemma ApplyStepsOrderFree(rows: seq<Row>, steps1: seq<Step>, steps2: seq<Step>)
    requires forall st :: st in steps1 <==> st in steps2
    ensures ApplySteps(rows, steps1) == ApplySteps(rows, steps2)
  {
    ApplyStepsIsKeepAll(rows, steps1);
    ApplyStepsIsKeepAll(rows, steps2);
    WhereSame(rows, x => PassesAll(x, steps1), x => PassesAll(x, steps2));
  }

  /** With its slider left at the default `(min, max)` of the rows still kept,
      a step drops only the rows whose value is missing. */
  lemma DefaultStepKeepsDefined(rows: seq<Row>, col: string)
    ensures KeepStep(rows, Step(col, DefaultRange(rows, col))) == Where(rows, x => Defined(x, col))
  {
    var st := Step(col, DefaultRange(rows, col));
    forall x | x in rows ensures Passes(x, st) == Defined(x, col) {
      if Defined(x, col) {
        assert ColumnMin(rows, col).Some? && ColumnMax(rows, col).Some?;
      }
    }
    WhereSame(rows, x => Passes(x, st), x => Defined(x, col));
  }

  /** The row has a value in the column of every one of `steps`. */
  predicate AllDefined(row: Row, steps: seq<Step>) {
    forall st :: st in steps ==> Defined(row, st.column)
  }

  /** When no slider was moved, the whole loop drops exactly the rows with a
      missing value in some filtered column, although each default range is
      recomputed from the rows still kept. */
  lemma {:induction false} UntouchedSlidersDropOnlyMissing(rows: seq<Row>, steps: seq<Step>, chosen: map<string, Range>)
    requires SliderTrace(rows, steps, chosen)
    requires forall st :: st in steps ==> st.column !in chosen
    ensures ApplySteps(rows, steps) == Where(rows, x => AllDefined(x, steps))
    decreases |steps|
  {
    if steps == [] {
      WhereAll(rows, x => AllDefined(x, steps));
    } else {
      var prefix := steps[..|steps| - 1];
      assert steps[|steps| - 1] in steps;
      UntouchedSlidersDropOnlyMissing(rows, prefix, chosen);
      DefaultStepDropsMissing(rows, steps);
    }
  }

  /** The inductive step of UntouchedSlidersDropOnlyMissing: a last step at its
      default range adds its column to those that must be defined. */
  lemma DefaultStepDropsMissing(rows: seq<Row>, steps: seq<Step>)
    requires steps != []
    requires var prefix := steps[..|steps| - 1];
      ApplySteps(rows, prefix) == Where(rows, x => AllDefined(x, prefix))
    requires var last := steps[|steps| - 1];
      last.range == DefaultRange(ApplySteps(rows, steps[..|steps| - 1]), last.column)
    ensures ApplySteps(rows, steps) == Where(rows, x => AllDefined(x, steps))
  {
    var prefix := steps[..|steps| - 1];
    var last := steps[|steps| - 1];
    var kept := ApplySteps(rows, prefix);
    assert ApplySteps(rows, steps) == Where(kept, x => Defined(x, last.column)) by {
      DefaultStepKeepsDefined(kept, last.column);
    }
    forall x | x in rows
      ensures AllDefined(x, steps) == (AllDefined(x, prefix) && Defined(x, last.column))
    {
      AllDefinedLast(x, steps);
    }
    WhereWhere(rows, x => AllDefined(x, prefix), x => Defined(x, last.column),
               x => AllDefined(x, steps));
  }

  /** Being defined in the columns of all the steps is being defined in
      those of the steps before the last, and in the last step's column. */
  lemma AllDefinedLast(row: Row, steps: seq<Step>)
    requires steps != []
    ensures AllDefined(row, steps)
        == (AllDefined(row, steps[..|steps| - 1]) && Defined(row, steps[|steps| - 1].column))
  {
    assert steps == steps[..|steps| - 1] + [steps[|steps| - 1]];
  }
}
