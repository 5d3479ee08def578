/**
 The whole pure part of the application, from the parsed upload to the
 categorized table and its summary: clean, select the feedback columns
 (from the original header), categorize, summarize.
 */
module Pipeline {
  import opened Seqs
  import opened Text
  import opened Tables
  import opened Classifier
  import opened Cleaning
  import opened Selection
  import opened Categorization
  import opened Summary

  /** Every derived name ends in " (Categorized)", so every derived column is summarized. */
  lemma DerivedNameIsCounted(col: string)
    ensures IsCountedColumn(DerivedName(col))
  {
    var d := DerivedName(col);
    assert Suffix[2..13] == CountMarker;
    assert d[|col| + 2..|col| + 13] == Suffix[2..13];
    assert OccursAt(d, CountMarker, |col| + 2);
    ContainsIffOccurs(d, CountMarker);
  }

  /** No feedback column's derived name is already a header name of `raw`. */
  predicate NoClash(raw: Table)
  {
    NoDerivedClash(raw.columns, SelectFeedbackColumns(raw.columns))
  }

  /** The categorized table: the cleaned table with the derived columns assigned. */
  function Categorized(raw: Table): (t: Table)
    requires WellFormed(raw) && Distinct(raw.columns)
    ensures WellFormed(t) && Distinct(t.columns)
    ensures |t.rows| == |Kept(raw.rows, HasData)|
    ensures raw.columns <= t.columns
  {
    Categorize(Clean(raw), SelectFeedbackColumns(raw.columns))
  }

  /**
   Without a clash, the categorized table is the header followed by the
   derived names; row k is the cleaned k-th surviving row followed by the
   labels of its cleaned cells in the feedback columns.
   */
  lemma CategorizedShape(raw: Table)
    requires WellFormed(raw) && Distinct(raw.columns) && NoClash(raw)
    ensures var fb := SelectFeedbackColumns(raw.columns);
            Categorized(raw).columns == raw.columns + DerivedNames(fb)
    ensures var fb := SelectFeedbackColumns(raw.columns);
            var idx := Kept(raw.rows, HasData);
            forall k :: 0 <= k < |idx| ==>
              Categorized(raw).rows[k] == LowerRow(raw.rows[idx[k]]) + DerivedCells(raw.columns, LowerRow(raw.rows[idx[k]]), fb)
  {
    CategorizeAppends(Clean(raw), SelectFeedbackColumns(raw.columns));
  }

  /**
   Without a clash, each original cell of the categorized table is its
   cleaned source cell, and each derived cell is the label of the cleaned
   source cell in the same row.
   */
  lemma CategorizedCells(raw: Table, k: nat, m: nat)
    requires WellFormed(raw) && Distinct(raw.columns) && NoClash(raw)
    requires k < |Kept(raw.rows, HasData)| && m < |SelectFeedbackColumns(raw.columns)|
    ensures var src := raw.rows[Kept(raw.rows, HasData)[k]];
            var t := Categorized(raw);
            && |raw.columns| + m < |t.columns|
            && (forall j :: 0 <= j < |raw.columns| ==> t.rows[k][j] == LowerCell(src[j]))
            && t.rows[k][|raw.columns| + m] ==
                 LabelCell(LowerCell(src[IndexOf(raw.columns, SelectFeedbackColumns(raw.columns)[m])]))
  {
    CategorizedOriginalCells(raw, k);
    CategorizedDerivedCell(raw, k, m);
  }

  /** Without a clash, the original cells of row k are the cleaned cells of its source row. */
  lemma CategorizedOriginalCells(raw: Table, k: nat)
    requires WellFormed(raw) && Distinct(raw.columns) && NoClash(raw)
    requires k < |Kept(raw.rows, HasData)|
    ensures forall j :: 0 <= j < |raw.columns| ==>
              Categorized(raw).rows[k][j] == LowerCell(raw.rows[Kept(raw.rows, HasData)[k]][j])
  {
    CategorizedShape(raw);
  }

  /** Without a clash, the m-th derived cell of row k is the label of its cleaned feedback cell. */
  lemma CategorizedDerivedCell(raw: Table, k: nat, m: nat)
    requires WellFormed(raw) && Distinct(raw.columns) && NoClash(raw)
    requires k < |Kept(raw.rows, HasData)| && m < |SelectFeedbackColumns(raw.columns)|
    ensures var src := raw.rows[Kept(raw.rows, HasData)[k]];
            && |raw.columns| + m < |Categorized(raw).columns|
            && Categorized(raw).rows[k][|raw.columns| + m] ==
                 LabelCell(LowerCell(src[IndexOf(raw.columns, SelectFeedbackColumns(raw.columns)[m])]))
  {
    CategorizedShape(raw);
  }

  /** Without a clash, derived column m sits right after the header and holds only labels. */
  lemma DerivedColumnIsLabels(raw: Table, m: nat)
    requires WellFormed(raw) && Distinct(raw.columns) && NoClash(raw)
    requires m < |SelectFeedbackColumns(raw.columns)|
    ensures |raw.columns| + m < |Categorized(raw).columns|
    ensures Categorized(raw).columns[|raw.columns| + m] == DerivedName(SelectFeedbackColumns(raw.columns)[m])
    ensures IsLabelColumn(Categorized(raw), |raw.columns| + m)
  {
    CategorizedShape(raw);
    forall k | 0 <= k < |Categorized(raw).rows|
      ensures IsLabelCell(Categorized(raw).rows[k][|raw.columns| + m])
    {
      CategorizedCells(raw, k, m);
    }
  }

  /**
   Every derived column has a summary entry, and its counts add up to the
   number of surviving rows. This holds even when a derived name was
   already a header name, as in a re-uploaded export of the application.
   */
  lemma DerivedColumnSummarized(raw: Table, m: nat, summary: seq<SummaryRow>) returns (k: nat)
    requires WellFormed(raw) && Distinct(raw.columns)
    requires m < |SelectFeedbackColumns(raw.columns)|
    requires IsSummaryOf(Categorized(raw), summary)
    ensures k < |summary|
    ensures summary[k].column == DerivedName(SelectFeedbackColumns(raw.columns)[m])
    ensures Total(summary[k].counts) == |Categorized(raw).rows|
  {
    var fb := SelectFeedbackColumns(raw.columns);
    var t := Categorized(raw);
    CategorizeLabels(Clean(raw), fb, m);
    var j := IndexOf(t.columns, DerivedName(fb[m]));
    DerivedNameIsCounted(fb[m]);
    k := SummaryOfLabelColumn(t, j, summary);
  }

  /**
   Lines 30-45 of the application: clean, select, categorize, summarize.
   The header keeps its prefix and gains every derived name; only rows with
   data survive; the summary has one entry per column whose name mentions
   "Categorized", holding that column's value counts; every derived
   column's counts add up to the row count.
   */
  method Process(raw: Table) returns (cleaned: Table, summary: seq<SummaryRow>)
    requires WellFormed(raw) && Distinct(raw.columns)
    ensures cleaned == Categorized(raw)
    ensures |cleaned.rows| == |Kept(raw.rows, HasData)|
    ensures raw.columns <= cleaned.columns
    ensures forall c :: c in SelectFeedbackColumns(raw.columns) ==> DerivedName(c) in cleaned.columns
    ensures IsSummaryOf(cleaned, summary)
    ensures forall k :: 0 <= k < |summary| ==> IsCountedColumn(summary[k].column)
    ensures forall m :: 0 <= m < |SelectFeedbackColumns(raw.columns)| ==>
              exists k :: 0 <= k < |summary| &&
                summary[k].column == DerivedName(SelectFeedbackColumns(raw.columns)[m]) &&
                Total(summary[k].counts) == |cleaned.rows|
  {
    cleaned := Categorized(raw);
    summary := Summarize(cleaned);
    assert IsSummaryOf(cleaned, summary);
    forall m | 0 <= m < |SelectFeedbackColumns(raw.columns)|
      ensures exists k :: 0 <= k < |summary| &&
                summary[k].column == DerivedName(SelectFeedbackColumns(raw.columns)[m]) &&
                Total(summary[k].counts) == |cleaned.rows|
    {
      var k := DerivedColumnSummarized(raw, m, summary);
    }
  }

  /** A word with a character that the text lacks does not occur in the text. */
  lemma MissingCharRulesOut(s: string, w: string, i: nat)
    requires i < |w| && w[i] !in s
    ensures !Contains(s, w)
  {
    forall p | 0 <= p && p + |w| <= |s|
      ensures !OccursAt(s, w, p)
    {
      assert s[p..p + |w|][i] == s[p + i];
    }
    ContainsIffOccurs(s, w);
  }

  /** A question answered "I think this is BENEFICIAL" is categorized "Support" after cleaning. */
  lemma BeneficialAnswerIsSupport()
    ensures CategorizeResponse(LowerCell(Str("I think this is BENEFICIAL"))) == "Support"
  {
    var s := "I think this is BENEFICIAL";
    var lowered := LowerStr(s);
    assert lowered[16..26] == "beneficial";
    assert OccursAt(lowered, "beneficial", 16);
    ContainsIffOccurs(lowered, "beneficial");
    SupportWins(lowered);
  }

  /**
   A text without the letters 'p', 'b' and 'd' mentions none of the support
   and oppose keywords.
   */
  lemma NoEarlierKeyword(s: string)
    requires 'p' !in s && 'b' !in s && 'd' !in s
    ensures !Contains(s, "support") && !Contains(s, "beneficial")
    ensures !Contains(s, "oppose") && !Contains(s, "detrimental")
  {
    MissingCharRulesOut(s, "support", 2);
    MissingCharRulesOut(s, "beneficial", 0);
    MissingCharRulesOut(s, "oppose", 1);
    MissingCharRulesOut(s, "detrimental", 0);
  }

  const FineAnswer: string := "this seems fine to me"

  /** The sample answer has none of the letters that start or sit inside the earlier keywords. */
  lemma FineAnswerLetters()
    ensures 'p' !in FineAnswer && 'b' !in FineAnswer && 'd' !in FineAnswer
  {
  }

  /** The sample answer is already lower-case, so cleaning leaves it as it is. */
  lemma FineAnswerIsLower()
    ensures IsLowerStr(FineAnswer)
  {
  }

  /** The sample answer mentions "fine", at position 11. */
  lemma FineAnswerMentionsFine()
    ensures Contains(FineAnswer, "fine")
  {
    assert FineAnswer[11..15] == "fine";
    assert OccursAt(FineAnswer, "fine", 11);
    ContainsIffOccurs(FineAnswer, "fine");
  }

  /** "this seems fine to me" is categorized "Neutral". */
  lemma FineAnswerIsNeutral()
    ensures CategorizeResponse(LowerCell(Str(FineAnswer))) == "Neutral"
  {
    FineAnswerLetters();
    FineAnswerIsLower();
    LowerStrFixesLower(FineAnswer);
    FineAnswerMentionsFine();
    NoEarlierKeyword(FineAnswer);
    NeutralOnlyWithoutEarlier(FineAnswer);
  }
}
