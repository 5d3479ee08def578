/**
 Choosing the feedback columns: the header names that carry the question
 marker or the section marker. Matching is on the original, case-preserved
 names.
 */
module Selection {
  import opened Seqs
  import opened Text

  const QuestionMarker: string := "Do you support"
  const SectionMarker: string := "Section"

  predicate IsFeedbackColumn(name: string)
  {
    Contains(name, QuestionMarker) || Contains(name, SectionMarker)
  }

  /**
   The feedback columns in header order: a name is selected if and only if
   it carries a marker, and the selection is the subsequence of the header
   at the positions `Kept` lists.
   */
  function SelectFeedbackColumns(columns: seq<string>): (r: seq<string>)
    ensures forall k :: 0 <= k < |r| ==> r[k] in columns && IsFeedbackColumn(r[k])
    ensures forall i :: 0 <= i < |columns| && IsFeedbackColumn(columns[i]) ==> columns[i] in r
    ensures |r| == |Kept(columns, IsFeedbackColumn)|
    ensures forall k :: 0 <= k < |r| ==> r[k] == columns[Kept(columns, IsFeedbackColumn)[k]]
    ensures Distinct(columns) ==> Distinct(r)
  {
    var r := Filter(columns, IsFeedbackColumn);
    FilterIsKept(columns, IsFeedbackColumn);
    if Distinct(columns) then FilterDistinct(columns, IsFeedbackColumn); r else r
  }

  /** A "Section ..." header is selected; "Age" is not. */
  lemma SectionSelectedAgeNot()
    ensures IsFeedbackColumn("Section 2 Comments")
    ensures !IsFeedbackColumn("Age")
  {
    assert IsPrefix(SectionMarker, "Section 2 Comments");
  }

  /** The markers are matched case-sensitively: a lower-cased header is not selected. */
  lemma MarkersAreCaseSensitive()
    ensures !IsFeedbackColumn("section")
  {
    assert "section"[..|SectionMarker|][0] != SectionMarker[0];
  }
}
