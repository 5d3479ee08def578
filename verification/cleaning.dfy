/**
 The cleaning step: rows whose cells are all missing are dropped, and
 every text cell is lower-cased; other cells and the header are kept.
 */
module Cleaning {
  import opened Seqs
  import opened Text
  import opened Tables

  /** Every cell of the row is missing (an empty row counts as all-missing). */
  predicate AllMissing(row: Row)
  {
    forall j :: 0 <= j < |row| ==> row[j].Missing?
  }

  /** The row survives `dropna(how='all')`. */
  predicate HasData(row: Row)
  {
    !AllMissing(row)
  }

  /** Lower-cases a text cell; a missing or non-text cell is returned as it is. */
  function LowerCell(c: Cell): (d: Cell)
    ensures d.Str? <==> c.Str?
    ensures d.Missing? <==> c.Missing?
    ensures c.Str? ==> |d.s| == |c.s| && IsLowerStr(d.s)
    ensures c.Str? ==> d == Str(LowerStr(c.s))
    ensures c.Str? && IsLowerStr(c.s) ==> d == c
    ensures !c.Str? ==> d == c
  {
    if c.Str? then Str(LowerStr(c.s)) else c
  }

  function LowerRow(row: Row): (r: Row)
    ensures |r| == |row|
    ensures forall j :: 0 <= j < |row| ==> r[j] == LowerCell(row[j])
  {
    seq(|row|, j requires 0 <= j < |row| => LowerCell(row[j]))
  }

  /** Lower-casing never turns a row with data into an all-missing one, nor back. */
  lemma LowerRowKeepsData(row: Row)
    ensures AllMissing(LowerRow(row)) <==> AllMissing(row)
  {
    if !AllMissing(row) {
      var j :| 0 <= j < |row| && !row[j].Missing?;
      assert !LowerRow(row)[j].Missing?;
    }
  }

  /** Lower-casing a row twice is lower-casing it once. */
  lemma LowerRowIdempotent(row: Row)
    ensures LowerRow(LowerRow(row)) == LowerRow(row)
  {
    forall j | 0 <= j < |row|
      ensures LowerCell(LowerCell(row[j])) == LowerCell(row[j])
    {
      if row[j].Str? {
        LowerStrIdempotent(row[j].s);
      }
    }
  }

  /**
   `dropna(how='all')` followed by lower-casing every text cell. The k-th
   surviving row is the lower-cased form of the k-th source row that has
   some data; `Kept` names those source rows.
   */
  function Clean(t: Table): (r: Table)
    ensures r.columns == t.columns
    ensures WellFormed(t) ==> WellFormed(r)
    ensures |r.rows| == |Kept(t.rows, HasData)|
    ensures forall k :: 0 <= k < |r.rows| ==> r.rows[k] == LowerRow(t.rows[Kept(t.rows, HasData)[k]])
  {
    var kept := Filter(t.rows, HasData);
    FilterIsKept(t.rows, HasData);
    Table(t.columns, seq(|kept|, k requires 0 <= k < |kept| => LowerRow(kept[k])))
  }

  /**
   The rows dropped are exactly the all-missing ones, the survivors keep
   their order, and no all-missing row remains.
   */
  lemma CleanDropsExactlyEmptyRows(t: Table)
    ensures forall i :: 0 <= i < |t.rows| ==> (i in Kept(t.rows, HasData) <==> !AllMissing(t.rows[i]))
    ensures StrictlyIncreasing(Kept(t.rows, HasData))
    ensures forall k :: 0 <= k < |Clean(t).rows| ==> !AllMissing(Clean(t).rows[k])
  {
    var idx := Kept(t.rows, HasData);
    forall k | 0 <= k < |Clean(t).rows|
      ensures !AllMissing(Clean(t).rows[k])
    {
      LowerRowKeepsData(t.rows[idx[k]]);
    }
  }

  /**
   Cell by cell: a text cell becomes its lower-cased form, any other cell
   is unchanged, and no cell changes kind.
   */
  lemma CleanCells(t: Table, k: nat, j: nat)
    requires WellFormed(t) && k < |Clean(t).rows| && j < |t.columns|
    ensures var src := t.rows[Kept(t.rows, HasData)[k]][j];
            var dst := Clean(t).rows[k][j];
            (src.Str? ==> dst == Str(LowerStr(src.s))) &&
            (!src.Str? ==> dst == src)
  {
  }

  /** Cleaning an already cleaned table changes nothing. */
  lemma CleanIdempotent(t: Table)
    ensures Clean(Clean(t)) == Clean(t)
  {
    var c := Clean(t);
    CleanDropsExactlyEmptyRows(t);
    FilterKeepsAll(c.rows, HasData);
    var idx := Kept(t.rows, HasData);
    forall k | 0 <= k < |c.rows|
      ensures LowerRow(c.rows[k]) == c.rows[k]
    {
      LowerRowIdempotent(t.rows[idx[k]]);
    }
  }
}
