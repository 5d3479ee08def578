/**
 The summary step: for every column whose name mentions "Categorized",
 the number of times each value occurs (`value_counts`). Missing cells are
 not counted, and a value that never occurs gets no entry at all; it is
 not recorded as zero. Laid side by side, such a value is NaN for that
 column when another counted column has it, and has no place at all when
 none has.
 */
module Summary {
  import opened Wrappers
  import opened Seqs
  import opened Text
  import opened Tables
  import opened Classifier
  import opened Categorization

  /** The counts of one column: (value, number of occurrences) pairs. */
  type Counts = seq<(Cell, nat)>

  function Keys(counts: Counts): (keys: seq<Cell>)
    ensures |keys| == |counts|
    ensures forall k :: 0 <= k < |counts| ==> keys[k] == counts[k].0
  {
    seq(|counts|, k requires 0 <= k < |counts| => counts[k].0)
  }

  /** The count recorded for `v`, or `None` when `v` has no entry. */
  function Entry(counts: Counts, v: Cell): (n: Option<nat>)
    ensures n.None? <==> v !in Keys(counts)
  {
    if v in Keys(counts) then Some(counts[IndexOf(Keys(counts), v)].1) else None
  }

  /** Sum of all recorded counts. */
  function Total(counts: Counts): nat
    decreases |counts|
  {
    if |counts| == 0 then 0 else Total(counts[..|counts| - 1]) + counts[|counts| - 1].1
  }

  lemma TotalAppend(counts: Counts, p: (Cell, nat))
    ensures Total(counts + [p]) == Total(counts) + p.1
  {
    assert (counts + [p])[..|counts|] == counts;
  }

  /** Raising one recorded count by one raises the total by one. */
  lemma {:induction false} TotalIncrement(counts: Counts, k: nat, v: Cell)
    requires k < |counts|
    ensures Total(counts[k := (v, counts[k].1 + 1)]) == Total(counts) + 1
    decreases |counts|
  {
    var c' := counts[k := (v, counts[k].1 + 1)];
    var n := |counts|;
    if k == n - 1 {
      assert c'[..n - 1] == counts[..n - 1];
    } else {
      assert c'[..n - 1] == counts[..n - 1][k := (v, counts[k].1 + 1)];
      TotalIncrement(counts[..n - 1], k, v);
    }
  }

  /** Overwriting the count at the entry of `v` changes only what is recorded for `v`. */
  lemma EntryAfterUpdate(counts: Counts, k: nat, n: nat)
    requires k < |counts|
    ensures Keys(counts[k := (counts[k].0, n)]) == Keys(counts)
    ensures forall w :: w != counts[k].0 ==> Entry(counts[k := (counts[k].0, n)], w) == Entry(counts, w)
  {
    assert Keys(counts[k := (counts[k].0, n)]) == Keys(counts);
  }

  /** Appending an entry for a new value `v` changes only what is recorded for `v`. */
  lemma EntryAfterAppend(counts: Counts, v: Cell, n: nat)
    requires Distinct(Keys(counts)) && v !in Keys(counts)
    ensures Keys(counts + [(v, n)]) == Keys(counts) + [v]
    ensures Distinct(Keys(counts + [(v, n)]))
    ensures Entry(counts + [(v, n)], v) == Some(n)
    ensures forall w :: w != v ==> Entry(counts + [(v, n)], w) == Entry(counts, w)
  {
    var keys := Keys(counts);
    var r := counts + [(v, n)];
    assert Keys(r) == keys + [v];
    assert IndexOf(Keys(r), v) == |keys|;
    forall w | w in keys
      ensures IndexOf(Keys(r), w) == IndexOf(keys, w)
    {
      IndexOfAppend(keys, [v], w);
    }
  }

  /** Records one more occurrence of `v`; a missing value is not recorded. */
  function Bump(counts: Counts, v: Cell): (r: Counts)
    requires Distinct(Keys(counts))
    ensures Distinct(Keys(r))
    ensures v.Missing? ==> r == counts
    ensures !v.Missing? ==> Entry(r, v) == Some(Entry(counts, v).GetOr(0) + 1)
    ensures forall w :: w != v ==> Entry(r, w) == Entry(counts, w)
    ensures Total(r) == Total(counts) + (if v.Missing? then 0 else 1)
  {
    if v.Missing? then counts
    else if v in Keys(counts) then
      var k := IndexOf(Keys(counts), v);
      var r := counts[k := (v, counts[k].1 + 1)];
      EntryAfterUpdate(counts, k, counts[k].1 + 1);
      TotalIncrement(counts, k, v);
      r
    else
      var r := counts + [(v, 1)];
      EntryAfterAppend(counts, v, 1);
      TotalAppend(counts, (v, 1));
      r
  }

  /** How many cells of `cells` equal `v`. */
  function Occurrences(cells: seq<Cell>, v: Cell): nat
  {
    multiset(cells)[v]
  }

  /** Reference reading of one summary cell: the count of `v`, absent when zero or missing. */
  function ExpectedEntry(cells: seq<Cell>, v: Cell): Option<nat>
  {
    if v.Missing? || Occurrences(cells, v) == 0 then None else Some(Occurrences(cells, v))
  }

  /** One more cell: the recorded counts follow the occurrences. */
  lemma BumpCounts(init: seq<Cell>, x: Cell, r0: Counts)
    requires Distinct(Keys(r0))
    requires forall v :: Entry(r0, v) == ExpectedEntry(init, v)
    requires Total(r0) == |init| - Occurrences(init, Missing)
    ensures forall v :: Entry(Bump(r0, x), v) == ExpectedEntry(init + [x], v)
    ensures Total(Bump(r0, x)) == |init + [x]| - Occurrences(init + [x], Missing)
  {
    var r := Bump(r0, x);
    assert multiset(init + [x]) == multiset(init) + multiset{x};
    forall v
      ensures Entry(r, v) == ExpectedEntry(init + [x], v)
    {
      assert Entry(r0, v) == ExpectedEntry(init, v);
      if v == x && !x.Missing? {
        assert Occurrences(init + [x], v) == Occurrences(init, v) + 1;
      } else {
        assert Occurrences(init + [x], v) == Occurrences(init, v) || v.Missing?;
      }
    }
  }

  /** `value_counts()` of one column: the cells recorded one after another. */
  function ValueCounts(cells: seq<Cell>): (r: Counts)
    ensures Distinct(Keys(r))
    decreases |cells|
  {
    if |cells| == 0 then [] else Bump(ValueCounts(cells[..|cells| - 1]), cells[|cells| - 1])
  }

  /**
   What `value_counts()` records: one entry per distinct non-missing value,
   holding exactly its number of occurrences; values that do not occur,
   and the missing value, have no entry; the counts add up to the number
   of non-missing cells.
   */
  lemma {:induction false} ValueCountsCorrect(cells: seq<Cell>)
    ensures forall v :: Entry(ValueCounts(cells), v) == ExpectedEntry(cells, v)
    ensures Total(ValueCounts(cells)) == |cells| - Occurrences(cells, Missing)
    decreases |cells|
  {
    if |cells| > 0 {
      var init := cells[..|cells| - 1];
      var x := cells[|cells| - 1];
      assert cells == init + [x];
      ValueCountsCorrect(init);
      BumpCounts(init, x, ValueCounts(init));
    }
  }

  const CountMarker: string := "Categorized"

  predicate IsCountedColumn(name: string)
  {
    Contains(name, CountMarker)
  }

  /** One entry of the summary: a column name and that column's counts. */
  datatype SummaryRow = SummaryRow(column: string, counts: Counts)

  /** The summary entries of the columns at positions `idx`, in that order. */
  function EntriesAt(t: Table, idx: seq<nat>): (s: seq<SummaryRow>)
    requires WellFormed(t)
    requires forall k :: 0 <= k < |idx| ==> idx[k] < |t.columns|
    ensures |s| == |idx|
  {
    seq(|idx|, k requires 0 <= k < |idx| => SummaryRow(t.columns[idx[k]], ValueCounts(Column(t, idx[k]))))
  }

  lemma EntriesAtAppend(t: Table, idx: seq<nat>, j: nat)
    requires WellFormed(t) && j < |t.columns|
    requires forall k :: 0 <= k < |idx| ==> idx[k] < |t.columns|
    ensures forall k :: 0 <= k < |idx + [j]| ==> (idx + [j])[k] < |t.columns|
    ensures EntriesAt(t, idx + [j]) == EntriesAt(t, idx) + [SummaryRow(t.columns[j], ValueCounts(Column(t, j)))]
  {
  }

  /**
   The loop over the columns of the categorized table. The k-th summary
   entry belongs to the k-th column whose name mentions the marker, and
   holds that column's value counts.
   */
  method Summarize(t: Table) returns (summary: seq<SummaryRow>)
    requires WellFormed(t)
    ensures |summary| == |Kept(t.columns, IsCountedColumn)|
    ensures forall k :: 0 <= k < |summary| ==>
              var j := Kept(t.columns, IsCountedColumn)[k];
              summary[k] == SummaryRow(t.columns[j], ValueCounts(Column(t, j)))
    ensures forall k :: 0 <= k < |summary| ==> IsCountedColumn(summary[k].column)
  {
    summary := [];
    var j := 0;
    while j < |t.columns|
      invariant 0 <= j <= |t.columns|
      invariant summary == EntriesAt(t, Kept(t.columns[..j], IsCountedColumn))
    {
      var prefix := t.columns[..j + 1];
      assert prefix[..j] == t.columns[..j];
      var idx := Kept(t.columns[..j], IsCountedColumn);
      if IsCountedColumn(t.columns[j]) {
        assert Kept(prefix, IsCountedColumn) == idx + [j];
        EntriesAtAppend(t, idx, j);
        summary := summary + [SummaryRow(t.columns[j], ValueCounts(Column(t, j)))];
      } else {
        assert Kept(prefix, IsCountedColumn) == idx;
      }
      j := j + 1;
    }
    assert t.columns[..|t.columns|] == t.columns;
  }

  function LabelCount(cells: seq<Cell>, l: Label): nat
  {
    Occurrences(cells, Str(LabelName(l)))
  }

  /**
   In a column of labels nothing is missing: the counts add up to the
   number of rows, and only label texts have entries.
   */
  lemma LabelColumnCounts(cells: seq<Cell>)
    requires forall i :: 0 <= i < |cells| ==> IsLabelCell(cells[i])
    ensures Total(ValueCounts(cells)) == |cells|
    ensures forall v :: Entry(ValueCounts(cells), v).Some? ==> IsLabelCell(v)
  {
    ValueCountsCorrect(cells);
    assert Missing !in cells;
    forall v | Entry(ValueCounts(cells), v).Some?
      ensures IsLabelCell(v)
    {
      assert Occurrences(cells, v) > 0;
      assert v in multiset(cells);
      var i :| 0 <= i < |cells| && cells[i] == v;
    }
  }

  /** The four label counts of a label column add up to its number of rows. */
  lemma {:induction false} LabelCountsSum(cells: seq<Cell>)
    requires forall i :: 0 <= i < |cells| ==> IsLabelCell(cells[i])
    ensures LabelCount(cells, Support) + LabelCount(cells, Oppose) +
            LabelCount(cells, Neutral) + LabelCount(cells, NoResponse) == |cells|
    decreases |cells|
  {
    if |cells| > 0 {
      var init := cells[..|cells| - 1];
      var x := cells[|cells| - 1];
      LabelCountsSum(init);
      assert cells == init + [x];
      assert multiset(cells) == multiset(init) + multiset{x};
      assert IsLabelCell(x);
    }
  }

  /** `summary` is what `Summarize` promises for `t`. */
  predicate IsSummaryOf(t: Table, summary: seq<SummaryRow>)
    requires WellFormed(t)
  {
    && |summary| == |Kept(t.columns, IsCountedColumn)|
    && forall k :: 0 <= k < |summary| ==>
         var c := Kept(t.columns, IsCountedColumn)[k];
         summary[k] == SummaryRow(t.columns[c], ValueCounts(Column(t, c)))
  }

  /**
   Any summary that meets `Summarize`'s contract has an entry for a counted
   column of labels, and that entry's counts add up to the number of rows.
   */
  lemma SummaryOfLabelColumn(t: Table, j: nat, summary: seq<SummaryRow>) returns (k: nat)
    requires WellFormed(t) && j < |t.columns| && IsCountedColumn(t.columns[j])
    requires IsLabelColumn(t, j)
    requires IsSummaryOf(t, summary)
    ensures k < |summary| && summary[k].column == t.columns[j]
    ensures Total(summary[k].counts) == |t.rows|
  {
    k := IndexOf(Kept(t.columns, IsCountedColumn), j);
    LabelColumnCounts(Column(t, j));
  }

  /** A label that never occurs has no entry (it is not recorded as zero). */
  lemma AbsentLabelHasNoEntry(cells: seq<Cell>, l: Label)
    ensures Entry(ValueCounts(cells), Str(LabelName(l))) == None <==> LabelCount(cells, l) == 0
  {
    ValueCountsCorrect(cells);
  }
}
