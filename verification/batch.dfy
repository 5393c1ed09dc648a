/** The analyzer's run over an uploaded sheet: label every row's support
    note, or refuse a sheet without a `SupportNote` column; then, on
    request, learn patterns from the rows labelled "Nej". */
module Batch {
  import opened Wrappers
  import opened Seqs
  import opened Classifier
  import opened Feedback

  /** The column the analyzer reads the notes from. */
  const NoteColumn: string := "SupportNote"

  /** An uploaded sheet: its columns by name, each a list of cells that
      may be empty. */
  datatype Sheet = Sheet(columns: map<string, seq<Option<string>>>)

  /** Why a sheet cannot be analysed. */
  datatype SheetError = MissingColumn(name: string)

  /** `df['SupportNote'].apply(lambda x: classify_note(x, patterns))`:
      one label per note, in row order, each the label of that note. */
  function KeywordsColumn(notes: seq<Option<string>>, patterns: seq<string>, score: Scorer): (keywords: seq<Label>)
    ensures |keywords| == |notes|
    ensures forall i :: 0 <= i < |notes| ==> keywords[i] == Classification(notes[i], patterns, score)
  {
    if notes == [] then []
    else [Classification(notes[0], patterns, score)] + KeywordsColumn(notes[1..], patterns, score)
  }

  /** Rows are labelled independently: labelling two blocks of rows one
      after the other gives the labels of the whole. */
  lemma KeywordsColumnAppend(a: seq<Option<string>>, b: seq<Option<string>>, patterns: seq<string>, score: Scorer)
    ensures KeywordsColumn(a + b, patterns, score) ==
      KeywordsColumn(a, patterns, score) + KeywordsColumn(b, patterns, score)
  {
    var whole := KeywordsColumn(a + b, patterns, score);
    var parts := KeywordsColumn(a, patterns, score) + KeywordsColumn(b, patterns, score);
    forall i | 0 <= i < |whole| ensures whole[i] == parts[i] {
      if i >= |a| {
        assert (a + b)[i] == b[i - |a|];
      }
    }
  }

  /** The analysis step: without a `SupportNote` column the sheet is
      refused and nothing is labelled; with it, the `Keywords` column. */
  function AnalyzeSheet(sheet: Sheet, patterns: seq<string>, score: Scorer): (r: Result<seq<Label>, SheetError>)
    ensures r.Failure? <==> NoteColumn !in sheet.columns
    ensures r.Failure? ==> r.error == MissingColumn(NoteColumn)
    ensures r.Success? ==>
      var notes := sheet.columns[NoteColumn];
      |r.value| == |notes| &&
      forall i :: 0 <= i < |notes| ==> r.value[i] == Classification(notes[i], patterns, score)
  {
    if NoteColumn in sheet.columns then Success(KeywordsColumn(sheet.columns[NoteColumn], patterns, score))
    else Failure(MissingColumn(NoteColumn))
  }

  /** Analysis followed by "Forbedre Mønstre": the improved pattern list
      holds the old patterns and the candidates of the rows labelled
      "Nej", each once; a sheet without `SupportNote` is refused. */
  method ImproveFromSheet(sheet: Sheet, patterns: seq<string>, score: Scorer)
    returns (r: Result<seq<string>, SheetError>)
    ensures r.Failure? <==> NoteColumn !in sheet.columns
    ensures r.Success? ==>
      var notes := sheet.columns[NoteColumn];
      var learned := Learned(notes, KeywordsColumn(notes, patterns, score));
      NoDuplicates(r.value) && Elements(r.value) == Elements(patterns) + Elements(learned)
  {
    var analysis := AnalyzeSheet(sheet, patterns, score);
    match analysis
    case Failure(e) =>
      r := Failure(e);
    case Success(keywords) =>
      var notes := sheet.columns[NoteColumn];
      var updated := LearnPatterns(patterns, notes, keywords);
      r := Success(updated);
  }

  /** Only unexplained notes teach: every learned word comes from a
      present note against which no pattern scored above the threshold. */
  lemma LearnedOnlyFromUnexplained(notes: seq<Option<string>>, patterns: seq<string>, score: Scorer, w: string)
    ensures w in Learned(notes, KeywordsColumn(notes, patterns, score)) ==>
      exists i :: (0 <= i < |notes| && notes[i].Some? && w in Candidates(notes[i]) &&
                   forall p :: p in patterns ==> !Matches(score, p, notes[i].value))
  {
    var keywords := KeywordsColumn(notes, patterns, score);
    if w in Learned(notes, keywords) {
      LearnedFromNejRows(notes, keywords, w);
      var i :| 0 <= i < |notes| && keywords[i] == Nej && w in Candidates(notes[i]);
      if notes[i].None? {
        ShortNoteNoCandidates(notes[i]);
        assert false;
      }
      assert notes[i].Some? && w in Candidates(notes[i]);
      forall p | p in patterns ensures !Matches(score, p, notes[i].value) {
        var k :| 0 <= k < |patterns| && patterns[k] == p;
      }
    }
  }
}
