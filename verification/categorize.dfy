/**
 The categorize step: for each feedback column, in order, the column
 `col + " (Categorized)"` is assigned the classifier's label for every row.
 */
module Categorization {
  import opened Seqs
  import opened Tables
  import opened Classifier

  const Suffix: string := " (Categorized)"

  function DerivedName(col: string): (d: string)
    ensures |d| == |col| + |Suffix|
    ensures d[..|col|] == col && d[|col|..] == Suffix
  {
    col + Suffix
  }

  /** Two source columns have the same derived name exactly when they are the same column. */
  lemma DerivedNameInjective(a: string, b: string)
    ensures DerivedName(a) == DerivedName(b) <==> a == b
  {
    if DerivedName(a) == DerivedName(b) {
      assert a == DerivedName(a)[..|a|];
    }
  }

  function DerivedNames(cols: seq<string>): (names: seq<string>)
    ensures |names| == |cols|
    ensures forall k :: 0 <= k < |cols| ==> names[k] == DerivedName(cols[k])
  {
    seq(|cols|, k requires 0 <= k < |cols| => DerivedName(cols[k]))
  }

  /** The label text of a cell, as stored in a derived column. */
  function LabelCell(c: Cell): (d: Cell)
    ensures d.Str? && d.s in LabelNames
  {
    Str(CategorizeResponse(c))
  }

  /** A cell holding one of the four label texts. */
  predicate IsLabelCell(c: Cell)
  {
    c.Str? && c.s in LabelNames
  }

  /** Column `j` of `t` holds a label in every row. */
  predicate IsLabelColumn(t: Table, j: nat)
    requires WellFormed(t) && j < |t.columns|
  {
    forall i :: 0 <= i < |t.rows| ==> IsLabelCell(t.rows[i][j])
  }

  /** `t[col].apply(categorize_response)`: the label of each row's cell in `col`. */
  function ClassifyColumn(t: Table, col: string): (cells: seq<Cell>)
    requires WellFormed(t) && col in t.columns
    ensures |cells| == |t.rows|
    ensures forall i :: 0 <= i < |t.rows| ==> cells[i] == LabelCell(t.rows[i][IndexOf(t.columns, col)])
  {
    var j := IndexOf(t.columns, col);
    seq(|t.rows|, i requires 0 <= i < |t.rows| => LabelCell(t.rows[i][j]))
  }

  /** One iteration of the loop: `t[col + " (Categorized)"] = t[col].apply(categorize_response)`. */
  function Step(t: Table, col: string): (r: Table)
    requires WellFormed(t) && Distinct(t.columns) && col in t.columns
    ensures WellFormed(r) && Distinct(r.columns) && |r.rows| == |t.rows|
    ensures t.columns <= r.columns
    ensures r.columns == if DerivedName(col) in t.columns then t.columns else t.columns + [DerivedName(col)]
    ensures DerivedName(col) in r.columns
    ensures Column(r, IndexOf(r.columns, DerivedName(col))) == ClassifyColumn(t, col)
    ensures forall j :: 0 <= j < |t.columns| && t.columns[j] != DerivedName(col) ==> Column(r, j) == Column(t, j)
  {
    var r := SetColumn(t, DerivedName(col), ClassifyColumn(t, col));
    forall j | 0 <= j < |t.columns| && t.columns[j] != DerivedName(col)
      ensures Column(r, j) == Column(t, j)
    {
      assert forall i :: 0 <= i < |t.rows| ==> Column(r, j)[i] == Column(t, j)[i];
    }
    r
  }

  /**
   The loop over the feedback columns, in order. The header only grows,
   keeps its prefix, stays free of repetitions and ends up holding every
   derived name; the row count is untouched.
   */
  function Categorize(t: Table, cols: seq<string>): (r: Table)
    requires WellFormed(t) && Distinct(t.columns)
    requires forall k :: 0 <= k < |cols| ==> cols[k] in t.columns
    ensures WellFormed(r) && Distinct(r.columns)
    ensures |r.rows| == |t.rows|
    ensures t.columns <= r.columns
    ensures forall k :: 0 <= k < |cols| ==> DerivedName(cols[k]) in r.columns
    decreases |cols|
  {
    if |cols| == 0 then t
    else
      var t1 := Step(t, cols[0]);
      PrefixMembers(t.columns, t1.columns);
      assert forall k :: 0 <= k < |cols[1..]| ==> cols[1..][k] == cols[k + 1];
      var r := Categorize(t1, cols[1..]);
      PrefixMembers(t1.columns, r.columns);
      r
  }

  /** No derived name is already a header name. */
  predicate NoDerivedClash(columns: seq<string>, cols: seq<string>)
  {
    forall k :: 0 <= k < |cols| ==> DerivedName(cols[k]) !in columns
  }

  /** The derived cells one row gains: the label of its cell in each of `cols`. */
  function DerivedCells(columns: seq<string>, row: Row, cols: seq<string>): (cells: seq<Cell>)
    requires |row| == |columns|
    requires forall k :: 0 <= k < |cols| ==> cols[k] in columns
    ensures |cells| == |cols|
  {
    seq(|cols|, k requires 0 <= k < |cols| => LabelCell(row[IndexOf(columns, cols[k])]))
  }

  lemma ConsAppend<T>(a: seq<T>, x: T, b: seq<T>)
    ensures a + ([x] + b) == (a + [x]) + b
  {
  }

  /** Appending a column leaves the derived cells of the older columns as they were. */
  lemma DerivedCellsAfterAppend(columns: seq<string>, row: Row, name: string, v: Cell, cols: seq<string>)
    requires |row| == |columns|
    requires forall k :: 0 <= k < |cols| ==> cols[k] in columns
    ensures forall k :: 0 <= k < |cols| ==> cols[k] in columns + [name]
    ensures DerivedCells(columns + [name], row + [v], cols) == DerivedCells(columns, row, cols)
  {
    forall k | 0 <= k < |cols|
      ensures DerivedCells(columns + [name], row + [v], cols)[k] == DerivedCells(columns, row, cols)[k]
    {
      IndexOfAppend(columns, [name], cols[k]);
    }
  }

  /** The derived cells of a row, first feedback column split off. */
  lemma DerivedCellsCons(columns: seq<string>, row: Row, cols: seq<string>)
    requires |row| == |columns| && |cols| > 0
    requires forall k :: 0 <= k < |cols| ==> cols[k] in columns
    ensures forall k :: 0 <= k < |cols[1..]| ==> cols[1..][k] in columns
    ensures DerivedCells(columns, row, cols) ==
            [LabelCell(row[IndexOf(columns, cols[0])])] + DerivedCells(columns, row, cols[1..])
  {
    assert forall k :: 0 <= k < |cols[1..]| ==> cols[1..][k] == cols[k + 1];
  }

  /** After the first derived column is appended, the remaining names still do not clash. */
  lemma NoClashAfterStep(columns: seq<string>, cols: seq<string>)
    requires |cols| > 0 && Distinct(cols) && NoDerivedClash(columns, cols)
    ensures Distinct(cols[1..])
    ensures NoDerivedClash(columns + [DerivedName(cols[0])], cols[1..])
  {
    var rest := cols[1..];
    assert forall k :: 0 <= k < |rest| ==> rest[k] == cols[k + 1];
    forall k | 0 <= k < |rest|
      ensures DerivedName(rest[k]) !in columns + [DerivedName(cols[0])]
    {
      if DerivedName(rest[k]) == DerivedName(cols[0]) {
        assert false;
      }
    }
  }

  /** A step whose derived name is new appends one label column on the right. */
  lemma StepAppends(t: Table, col: string)
    requires WellFormed(t) && Distinct(t.columns) && col in t.columns
    requires DerivedName(col) !in t.columns
    ensures Step(t, col).columns == t.columns + [DerivedName(col)]
    ensures forall i :: 0 <= i < |t.rows| ==>
              Step(t, col).rows[i] == t.rows[i] + [LabelCell(t.rows[i][IndexOf(t.columns, col)])]
  {
  }

  /** One row through one step: its derived cell for `cols[0]` then those for the rest. */
  lemma RowAfterStep(columns: seq<string>, row: Row, name: string, cols: seq<string>)
    requires |row| == |columns| && |cols| > 0
    requires forall k :: 0 <= k < |cols| ==> cols[k] in columns
    ensures forall k :: 0 <= k < |cols[1..]| ==> cols[1..][k] in columns + [name]
    ensures var v := LabelCell(row[IndexOf(columns, cols[0])]);
            (row + [v]) + DerivedCells(columns + [name], row + [v], cols[1..]) ==
            row + DerivedCells(columns, row, cols)
  {
    var v := LabelCell(row[IndexOf(columns, cols[0])]);
    DerivedCellsCons(columns, row, cols);
    DerivedCellsAfterAppend(columns, row, name, v, cols[1..]);
    ConsAppend(row, v, DerivedCells(columns, row, cols[1..]));
  }

  /** The shape after the first step and after the rest combine into the shape for all of `cols`. */
  lemma CombineSteps(t: Table, cols: seq<string>, t1: Table, r: Table)
    requires WellFormed(t) && |cols| > 0
    requires forall k :: 0 <= k < |cols| ==> cols[k] in t.columns
    requires t1.columns == t.columns + [DerivedName(cols[0])]
    requires |t1.rows| == |t.rows| && |r.rows| == |t.rows|
    requires forall i :: 0 <= i < |t.rows| ==>
               t1.rows[i] == t.rows[i] + [LabelCell(t.rows[i][IndexOf(t.columns, cols[0])])]
    requires forall k :: 0 <= k < |cols[1..]| ==> cols[1..][k] in t1.columns
    requires r.columns == t1.columns + DerivedNames(cols[1..])
    requires forall i :: 0 <= i < |t.rows| ==>
               |t1.rows[i]| == |t1.columns| &&
               r.rows[i] == t1.rows[i] + DerivedCells(t1.columns, t1.rows[i], cols[1..])
    ensures r.columns == t.columns + DerivedNames(cols)
    ensures forall i :: 0 <= i < |t.rows| ==> r.rows[i] == t.rows[i] + DerivedCells(t.columns, t.rows[i], cols)
  {
    assert DerivedNames(cols) == [DerivedName(cols[0])] + DerivedNames(cols[1..]);
    ConsAppend(t.columns, DerivedName(cols[0]), DerivedNames(cols[1..]));
    forall i | 0 <= i < |t.rows|
      ensures r.rows[i] == t.rows[i] + DerivedCells(t.columns, t.rows[i], cols)
    {
      RowAfterStep(t.columns, t.rows[i], DerivedName(cols[0]), cols);
    }
  }

  /**
   When no derived name clashes with a header name, categorizing appends
   one derived column per feedback column, in feedback order; every row
   keeps its original cells and gains the label of its own cell in each
   feedback column.
   */
  lemma {:induction false} CategorizeAppends(t: Table, cols: seq<string>)
    requires WellFormed(t) && Distinct(t.columns)
    requires forall k :: 0 <= k < |cols| ==> cols[k] in t.columns
    requires Distinct(cols) && NoDerivedClash(t.columns, cols)
    ensures Categorize(t, cols).columns == t.columns + DerivedNames(cols)
    ensures forall i :: 0 <= i < |t.rows| ==>
              Categorize(t, cols).rows[i] == t.rows[i] + DerivedCells(t.columns, t.rows[i], cols)
    decreases |cols|
  {
    if |cols| == 0 {
      assert DerivedNames(cols) == [];
      assert forall i :: 0 <= i < |t.rows| ==> DerivedCells(t.columns, t.rows[i], cols) == [];
    } else {
      var t1 := Step(t, cols[0]);
      StepAppends(t, cols[0]);
      NoClashAfterStep(t.columns, cols);
      PrefixMembers(t.columns, t1.columns);
      assert forall k :: 0 <= k < |cols[1..]| ==> cols[1..][k] == cols[k + 1];
      CategorizeAppends(t1, cols[1..]);
      CombineSteps(t, cols, t1, Categorize(t1, cols[1..]));
    }
  }

  /**
   When a derived name is already a header name, that column is
   overwritten in place instead: the header is unchanged.
   */
  lemma CategorizeOverwritesClash(t: Table, col: string)
    requires WellFormed(t) && Distinct(t.columns)
    requires col in t.columns && DerivedName(col) in t.columns
    ensures Categorize(t, [col]).columns == t.columns
    ensures Column(Categorize(t, [col]), IndexOf(t.columns, DerivedName(col))) == ClassifyColumn(t, col)
  {
    assert [col][1..] == [];
    assert Categorize(t, [col]) == Step(t, col);
  }

  /** A column whose name is none of the derived names still to be assigned keeps its place and its cells. */
  lemma {:induction false} CategorizeKeepsColumn(t: Table, cols: seq<string>, j: nat)
    requires WellFormed(t) && Distinct(t.columns)
    requires forall k :: 0 <= k < |cols| ==> cols[k] in t.columns
    requires j < |t.columns|
    requires forall k :: 0 <= k < |cols| ==> DerivedName(cols[k]) != t.columns[j]
    ensures j < |Categorize(t, cols).columns| && Categorize(t, cols).columns[j] == t.columns[j]
    ensures Column(Categorize(t, cols), j) == Column(t, j)
    decreases |cols|
  {
    if |cols| > 0 {
      var t1 := Step(t, cols[0]);
      PrefixMembers(t.columns, t1.columns);
      assert forall k :: 0 <= k < |cols[1..]| ==> cols[1..][k] == cols[k + 1];
      CategorizeKeepsColumn(t1, cols[1..], j);
    }
  }

  /** The first feedback column's derived column ends up holding that column's labels. */
  lemma CategorizeFirstDerived(t: Table, cols: seq<string>)
    requires WellFormed(t) && Distinct(t.columns)
    requires forall i :: 0 <= i < |cols| ==> cols[i] in t.columns
    requires Distinct(cols) && |cols| > 0
    ensures var r := Categorize(t, cols);
            Column(r, IndexOf(r.columns, DerivedName(cols[0]))) == ClassifyColumn(t, cols[0])
    ensures var r := Categorize(t, cols);
            IsLabelColumn(r, IndexOf(r.columns, DerivedName(cols[0])))
  {
    var t1 := Step(t, cols[0]);
    var rest := cols[1..];
    PrefixMembers(t.columns, t1.columns);
    var j1 := IndexOf(t1.columns, DerivedName(cols[0]));
    forall i | 0 <= i < |rest|
      ensures rest[i] in t1.columns && DerivedName(rest[i]) != t1.columns[j1]
    {
      assert rest[i] == cols[i + 1];
      DerivedNameInjective(rest[i], cols[0]);
    }
    CategorizeKeepsColumn(t1, rest, j1);
    var r := Categorize(t, cols);
    assert r == Categorize(t1, rest);
    IndexOfDistinct(r.columns, j1);
    ClassifiedColumnIsLabels(r, j1, t, cols[0]);
  }

  /** The loop over a non-empty `cols` is the step for `cols[0]` followed by the loop over the rest. */
  lemma CategorizeFirstStep(t: Table, cols: seq<string>)
    requires WellFormed(t) && Distinct(t.columns)
    requires forall i :: 0 <= i < |cols| ==> cols[i] in t.columns
    requires 0 < |cols|
    ensures forall i :: 0 <= i < |cols[1..]| ==> cols[1..][i] in Step(t, cols[0]).columns
    ensures Categorize(t, cols) == Categorize(Step(t, cols[0]), cols[1..])
  {
    PrefixMembers(t.columns, Step(t, cols[0]).columns);
    assert forall i :: 0 <= i < |cols[1..]| ==> cols[1..][i] == cols[i + 1];
  }

  /**
   The derived column of `cols[k]` holds the labels of column `cols[k]` as
   the table stood when the loop reached it, whether its name was new or
   already taken; the later steps leave it alone.
   */
  lemma {:induction false} CategorizeDerivedColumn(t: Table, cols: seq<string>, k: nat)
    requires WellFormed(t) && Distinct(t.columns)
    requires forall i :: 0 <= i < |cols| ==> cols[i] in t.columns
    requires Distinct(cols) && k < |cols|
    ensures cols[k] in Categorize(t, cols[..k]).columns
    ensures var r := Categorize(t, cols);
            Column(r, IndexOf(r.columns, DerivedName(cols[k]))) == ClassifyColumn(Categorize(t, cols[..k]), cols[k])
    decreases k
  {
    if k == 0 {
      assert cols[..0] == [];
      CategorizeFirstDerived(t, cols);
    } else {
      var t1, rest := Step(t, cols[0]), cols[1..];
      CategorizeFirstStep(t, cols);
      DistinctTail(cols);
      CategorizeDerivedColumn(t1, rest, k - 1);
      CategorizePrefixStep(t, cols, k);
      assert rest[k - 1] == cols[k];
    }
  }

  /** The loop over the first `k` columns starts with the step for `cols[0]`. */
  lemma CategorizePrefixStep(t: Table, cols: seq<string>, k: nat)
    requires WellFormed(t) && Distinct(t.columns)
    requires forall i :: 0 <= i < |cols| ==> cols[i] in t.columns
    requires 0 < k <= |cols|
    ensures Categorize(t, cols[..k]) == Categorize(Step(t, cols[0]), cols[1..][..k - 1])
  {
    var front := cols[..k];
    assert forall i :: 0 <= i < |front| ==> front[i] == cols[i];
    TakeThenDrop(cols, k);
    CategorizeFirstStep(t, front);
  }

  /** A column assigned the labels of some column holds a label in every row. */
  lemma ClassifiedColumnIsLabels(r: Table, j: nat, t: Table, col: string)
    requires WellFormed(r) && j < |r.columns| && WellFormed(t) && col in t.columns
    requires Column(r, j) == ClassifyColumn(t, col)
    ensures IsLabelColumn(r, j)
  {
    forall i | 0 <= i < |r.rows|
      ensures IsLabelCell(r.rows[i][j])
    {
      assert r.rows[i][j] == Column(r, j)[i];
    }
  }

  /** Every derived column holds a label in every row, whether its name was new or already taken. */
  lemma CategorizeLabels(t: Table, cols: seq<string>, k: nat)
    requires WellFormed(t) && Distinct(t.columns)
    requires forall i :: 0 <= i < |cols| ==> cols[i] in t.columns
    requires Distinct(cols) && k < |cols|
    ensures var r := Categorize(t, cols);
            IsLabelColumn(r, IndexOf(r.columns, DerivedName(cols[k])))
  {
    var r := Categorize(t, cols);
    CategorizeDerivedColumn(t, cols, k);
    ClassifiedColumnIsLabels(r, IndexOf(r.columns, DerivedName(cols[k])), Categorize(t, cols[..k]), cols[k]);
  }
}
