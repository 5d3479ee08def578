# Feedback cleaning and summarisation, in Dafny

This project models the pure core of `feedback_cleaning_app.py`. The
application is a small Streamlit tool. It takes an uploaded survey table,
cleans it, labels every free-text answer to a feedback question as
"Support", "Oppose", "Neutral" or "No Response", and counts the labels
for each question. The model starts from the table once it has been
parsed and follows the code step by step:

- **Classifier** (`categorize_response`). A non-text cell gets
  "No Response". A text is checked for the substrings "support" or
  "beneficial", then "oppose" or "detrimental", then "neutral" or "fine",
  in that order; the first group that matches decides the label.
- **Cleaning** (`dropna(how='all')` then `applymap(lower)`). Rows whose
  cells are all missing are dropped. Every text cell is lower-cased.
  Other cells and the header are kept.
- **Selection**. The feedback columns are the names of the *original*
  header that contain `"Do you support"` or `"Section"`. The match is
  case-sensitive, and header order is kept.
- **Categorization**. For each feedback column `col`, in order, the
  column `col + " (Categorized)"` is assigned the label of each row's
  cleaned cell. Column assignment follows the table library: a name that
  already exists is overwritten in place, and a new name is appended on
  the right.
- **Summary**. Every column whose name contains `"Categorized"` gets its
  `value_counts()`. Missing cells are not counted, and a value that never
  occurs in a column has no entry for that column. Once the columns are
  laid side by side, that label reads as NaN for the column when some
  other counted column has it, and it has no place at all when no counted
  column has it.

Modules, in dependency order:

| file | module | contents |
|---|---|---|
| wrappers.dfy | `Wrappers` | `Option` (an absent summary entry is `None`) |
| seqs.dfy | `Seqs` | `Distinct`, `IndexOf`, the order-preserving `Filter`, and `Kept`, the positions a filter keeps |
| text.dfy | `Text` | substring test `Contains` and its positional reading `OccursAt`; ASCII lower-casing |
| tables.dfy | `Tables` | `Cell`, `Table`, `Column`, column assignment `SetColumn` |
| classifier.dfy | `Classifier` | labels, the keyword rules, `Classify`, `CategorizeResponse` |
| cleaning.dfy | `Cleaning` | `Clean` and its lemmas |
| selection.dfy | `Selection` | `SelectFeedbackColumns` |
| categorize.dfy | `Categorization` | the loop that adds derived columns, and its append shape |
| summary.dfy | `Summary` | `ValueCounts`, `Summarize`, label-count lemmas |
| pipeline.dfy | `Pipeline` | the whole pipeline `Process`, its end-to-end lemmas, and sample answers |

Each operation is paired with an independent reading or an invariant:

- `Classify` is proved equal to `FirstMatch`, a first-rule-that-fires
  reading over a rule table.
- `Contains` is proved equivalent to "there is a position where the word
  occurs".
- `Clean` and `SelectFeedbackColumns` are described through `Kept`, the
  exact set of positions a filter keeps.
- `Categorize` is proved to produce the table's header followed by the
  derived names, with each row followed by its labels, when no derived
  name is already a header name (`CategorizeAppends`). Whether a name is
  new or taken, the column it names ends up holding the labels of its
  feedback column as the loop found it (`CategorizeDerivedColumn`).
- `ValueCounts` is proved to record exactly the multiset occurrence count
  of every non-missing value (`ValueCountsCorrect`).

Two places where a natural reading of the application differs from what
its code does; the model follows the code:

- A natural reading expects the summary to list all four labels, with a
  zero for a label that does not occur. `value_counts()` gives no entry
  for such a label. In the combined table it is NaN for that column when
  another counted column has the label, and it is missing altogether when
  no counted column has it. The model returns `None`
  (`Summary.AbsentLabelHasNoEntry`).
- A natural reading expects the summary to cover only the derived
  columns. The code counts every column whose name contains
  "Categorized". That includes an original column with that word in its
  name (`Summary.Summarize`).

## Model

| member | source | states |
|---|---|---|
| Classifier.Classify | feedback_cleaning_app.py:7-15 | A non-text cell is `NoResponse`; a text gets the verdict of the first rule (support, oppose, neutral keywords, in that order) that has a keyword in it, and `NoResponse` when none has |
| Classifier.CategorizeResponse | feedback_cleaning_app.py:7-15 | The result is always one of the four label texts; "No Response" for every non-text cell; for a text, the name of the first-matching rule's label |
| Classifier.FirstMatchPicksFirst | feedback_cleaning_app.py:9-14 | If rule i fires and no earlier rule does, the answer is rule i's label, whatever later rules say |
| Classifier.FirstMatchNone | feedback_cleaning_app.py:15 | If no rule fires, the answer is `NoResponse` |
| Classifier.SupportWins | feedback_cleaning_app.py:9-10 | A text containing "support" or "beneficial" is `Support`, even if it also contains any later keyword |
| Classifier.OpposeOnlyWithoutSupport | feedback_cleaning_app.py:9-12 | A text is `Oppose` if and only if it has no support keyword and has "oppose" or "detrimental" |
| Classifier.NeutralOnlyWithoutEarlier | feedback_cleaning_app.py:9-14 | A text is `Neutral` if and only if it has none of the four earlier keywords and has "neutral" or "fine" |
| Classifier.NoKeywordIsNoResponse | feedback_cleaning_app.py:9-15 | A text is `NoResponse` if and only if it contains none of the six keywords |
| Classifier.LabelNameInjective | feedback_cleaning_app.py:10-15 | The four label texts are pairwise different, so a stored text identifies its label |
| Text.Contains | feedback_cleaning_app.py:9-14 | Python's `sub in s`: the empty word is in every text, a word longer than the text never is, and a word as long as the text is in it only when the two are equal |
| Text.ContainsIffOccurs | feedback_cleaning_app.py:9 | The `in` substring test holds exactly when the word equals the slice of the text at some position |
| Text.LowerStr | feedback_cleaning_app.py:30 | `lower()` keeps the length and works character by character: each upper-case letter A-Z becomes its lower-case letter, every other character is kept, and no upper-case letter remains |
| Text.LowerStrIdempotent | feedback_cleaning_app.py:30 | Lower-casing twice is the same as lower-casing once |
| Text.LowerKeepsLowerWord | feedback_cleaning_app.py:30 | A lower-case keyword found in a text is still found after the text is lower-cased |
| Cleaning.LowerCell | feedback_cleaning_app.py:30 | A cell keeps its kind; a text cell becomes the text's `lower()`, with the same length and no upper-case letter; a missing or non-text cell is unchanged |
| Cleaning.LowerRowKeepsData | feedback_cleaning_app.py:30 | Lower-casing a row never changes whether all its cells are missing |
| Cleaning.Clean | feedback_cleaning_app.py:30 | The header is unchanged; the k-th surviving row is the lower-cased k-th source row that has data |
| Cleaning.CleanDropsExactlyEmptyRows | feedback_cleaning_app.py:30 | A source row survives if and only if some cell is not missing; survivors keep their order; no all-missing row remains |
| Cleaning.CleanCells | feedback_cleaning_app.py:30 | Each text cell of the result is the lower-cased source cell; every other cell equals its source cell |
| Cleaning.CleanIdempotent | feedback_cleaning_app.py:30 | Cleaning a cleaned table gives the same table |
| Selection.SelectFeedbackColumns | feedback_cleaning_app.py:33 | A header name is selected if and only if it contains "Do you support" or "Section"; the result is the header's subsequence at the kept positions, in order, and has no repeats when the header has none |
| Selection.SectionSelectedAgeNot | feedback_cleaning_app.py:33 | "Section 2 Comments" is selected and "Age" is not |
| Selection.MarkersAreCaseSensitive | feedback_cleaning_app.py:33 | The lower-case header "section" is not selected |
| Tables.SetColumn | feedback_cleaning_app.py:37 | Assigning a column keeps the header when the name exists and appends the name otherwise; the named column then holds the values, cells of every other column are unchanged, and an appended column adds one cell at the end of each row |
| Categorization.DerivedName | feedback_cleaning_app.py:37 | `col + " (Categorized)"`: the name starts with `col` and ends with the suffix " (Categorized)" |
| Categorization.DerivedNameInjective | feedback_cleaning_app.py:37 | Two feedback columns give the same derived name if and only if they are the same column |
| Categorization.ClassifyColumn | feedback_cleaning_app.py:37 | `t[col].apply(categorize_response)`: one label cell per row, the label of that row's cell in `col` |
| Categorization.Step | feedback_cleaning_app.py:37 | One assignment leaves the header as it is when the derived name is already in it and otherwise appends that name on the right, keeps the row count and names free of repeats, makes the derived name present with the labels of `col` as its column, and leaves every other column's cells unchanged |
| Categorization.Categorize | feedback_cleaning_app.py:36-37 | The loop keeps the row count, keeps the header as a prefix, keeps the names free of repeats, and leaves every derived name present; what each derived column holds is stated by `Categorization.CategorizeDerivedColumn` |
| Categorization.CategorizeAppends | feedback_cleaning_app.py:36-37 | When no derived name is already a header name, the result is the header followed by the derived names in feedback order, and each row is its old cells followed by the labels of its own feedback cells |
| Categorization.CategorizeOverwritesClash | feedback_cleaning_app.py:37 | When the derived name is already a header name, that column is overwritten with the labels and the header is unchanged |
| Categorization.CategorizeKeepsColumn | feedback_cleaning_app.py:36-37 | A column whose name is none of the derived names the loop still has to assign keeps its position, its name and its cells |
| Categorization.CategorizeFirstDerived | feedback_cleaning_app.py:36-37 | After the whole loop, the first feedback column's derived column holds that column's labels, a label in every row |
| Categorization.CategorizeDerivedColumn | feedback_cleaning_app.py:36-37 | After the whole loop, the column named by the k-th derived name holds the labels of the k-th feedback column as the table stood when the loop reached it, whether the name was new or already taken |
| Categorization.CategorizeLabels | feedback_cleaning_app.py:36-37 | After the whole loop, every derived column holds a label in every row, with or without a name clash |
| Summary.Bump | feedback_cleaning_app.py:45 | Counting one more cell: a missing cell changes nothing; otherwise only that value's entry rises by one (created at 1 if absent) and the total rises by one |
| Summary.ValueCounts | feedback_cleaning_app.py:45 | `value_counts()` of a column has no value twice; what each entry counts is stated by `Summary.ValueCountsCorrect` |
| Summary.ValueCountsCorrect | feedback_cleaning_app.py:45 | Every non-missing value's entry is its number of occurrences, values that do not occur and the missing value have no entry, and the counts add up to the number of non-missing cells |
| Summary.Summarize | feedback_cleaning_app.py:42-45 | The k-th summary entry belongs to the k-th column whose name contains "Categorized", and holds that column's value counts; no other column is summarized |
| Summary.LabelColumnCounts | feedback_cleaning_app.py:45 | In a column of labels the counts add up to the number of rows, and only label texts have entries |
| Summary.LabelCountsSum | feedback_cleaning_app.py:45 | In a column of labels the four label counts add up to the number of rows |
| Summary.SummaryOfLabelColumn | feedback_cleaning_app.py:42-45 | A counted column of labels has a summary entry, and its counts add up to the number of rows |
| Summary.AbsentLabelHasNoEntry | feedback_cleaning_app.py:45-47 | A label has no entry in a column's counts if and only if it occurs zero times in that column |
| Pipeline.DerivedNameIsCounted | feedback_cleaning_app.py:37-44 | Every derived name contains "Categorized", so every derived column is summarized |
| Pipeline.Categorized | feedback_cleaning_app.py:30-37 | The categorized table is well formed, free of repeated names, keeps the original header as a prefix, and has one row per row with data |
| Pipeline.CategorizedShape | feedback_cleaning_app.py:30-37 | Without a name clash the header is the original header followed by the derived names, and each row is the cleaned surviving row followed by its labels |
| Pipeline.CategorizedCells | feedback_cleaning_app.py:30-37 | Without a name clash each original cell is its cleaned source cell, and each derived cell is the label of the cleaned source cell in the same row |
| Pipeline.DerivedColumnIsLabels | feedback_cleaning_app.py:33-37 | Without a name clash, derived column m sits right after the original header, carries its derived name, and holds a label in every row |
| Pipeline.DerivedColumnSummarized | feedback_cleaning_app.py:30-45 | Every derived column, including one whose name was already in the uploaded header, has a summary entry whose counts add up to the number of surviving rows |
| Pipeline.Process | feedback_cleaning_app.py:30-45 | The whole pipeline: surviving rows only, the original header kept as a prefix, every derived name present, the summary is exactly the value counts of the columns whose names contain "Categorized", in column order, and each derived column's counts add up to the row count |
| Pipeline.BeneficialAnswerIsSupport | feedback_cleaning_app.py:9-10 | "I think this is BENEFICIAL" is "Support" after cleaning |
| Pipeline.FineAnswerIsNeutral | feedback_cleaning_app.py:13-14 | "this seems fine to me" is "Neutral" after cleaning |

## Left out

- The Streamlit interface (title, upload widget, `st.write` displays, download button): presentation and I/O.
- `pd.read_csv` and `to_csv`: the model starts from a parsed table and makes no claim about the export.
- The `df.head()` previews: display only.
- The bar charts and their fixed colour list: plotting, nothing to state.
- Unicode lower-casing: `Text.LowerStr` lower-cases the ASCII letters A-Z only; every other character is kept.
- Numbers and other non-text values are `Other(value)`, an opaque token; NaN is `Missing`. Floating-point behaviour is not modelled.
- Summary.ValueCounts: records entries in first-appearance order; `value_counts()` sorts by count, and that order is not modelled. The entries and counts are the same.
- Summary.Summarize: returns a sequence of (column, counts) pairs; building the transposed data frame is not modelled. An absent entry is `None` (`Summary.Entry`); whether the frame shows it as NaN or has no place for that label at all depends on the other columns' counts, and the model does not build that union of labels.
- Categorization.Categorize: requires the header to be free of repeated names. The parser renames duplicate headers, so a parsed table always meets this.
- Categorization.CategorizeAppends: the append shape is proved only when no derived name is already a header name. The overwrite case is stated one column at a time in `Categorization.CategorizeOverwritesClash`.
