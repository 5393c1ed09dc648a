# Controlling Report Analyzer — verified model of the note classifier and pattern learner

The Controlling Report Analyzer reads a sheet of delivery exceptions and fills a
`Keywords` column for each row. The label is "Ja" when the row's free-text
`SupportNote` is explained by a known pattern, and "Nej" when it is not. On
request ("Forbedre Mønstre") the analyzer learns new patterns from the rows it
labelled "Nej". It splits each such note into words, keeps the words longer
than four characters, and merges them into the pattern list without
duplicates.

This project models the logic of `app.py` in Dafny:

- `classifier.dfy` (module `Classifier`) models `classify_note`. A missing note
  is "Nej". Otherwise the patterns are scanned in order, and the first pattern
  whose similarity score against the note is strictly above 75 makes the note
  "Ja". The score (`fuzz.partial_ratio`) comes from a library outside the
  model. It is a parameter of type `Scorer`: any function from two strings to
  an integer in 0..100. Both strings are lower-cased first, as in the source.
- `text.dfy` (module `Text`) models the two Python string operations the code
  relies on. `Lower` is `str.lower`. `Split` is `str.split()` with no
  argument: maximal runs of non-whitespace characters, where whitespace is
  exactly the set `str.isspace` accepts.
- `patterns.dfy` (module `Patterns`) holds the built-in seed list that
  `load_patterns` falls back on, and `Merge`, which models
  `list(set(patterns + new_patterns))`.
- `feedback.dfy` (module `Feedback`) covers candidate extraction and the loop
  over the rows labelled "Nej". `LearnPatterns` is an imperative loop proved
  against the specification function `Learned`.
- `batch.dfy` (module `Batch`) covers the `SupportNote` column guard, the
  per-row `Keywords` column and the whole improvement step on a sheet.
- `seqs.dfy` and `wrappers.dfy` hold vocabulary: element sets, absence of
  duplicates, subsequences, flattening, `Option` and `Result`.

Facts about `app.py` that shape the model:

- There is one fuzzy matching stage, with threshold 75. Nothing else decides
  a label: no substring test, no embedding comparison.
- `classify_note` returns only a label; no list of matched patterns is
  returned.
- The labels are the strings "Ja" and "Nej".
- Learned words are added as they appear in the note; they are not
  lower-cased.
- Every row labelled "Nej" contributes candidates.
- A sheet without a `SupportNote` column gives an error message and no labels.

## Model

| member | source | states |
|---|---|---|
| `Classifier.Classification` | app.py:29-35 | A missing note is "Nej". An empty pattern list gives "Nej". The label is "Ja" exactly when the note is present and some pattern's score against it, both lower-cased, is strictly above 75. The type `Label` admits only "Ja" and "Nej". |
| `Classifier.Scan` | app.py:32-35 | Scanning a present note over the patterns yields "Ja" if and only if some pattern in the list matches it. |
| `Classifier.ClassifyNote` | app.py:29-35 | The for-loop with early return (null guard, then the first pattern over the threshold) returns exactly the label `Classification` defines. |
| `Classifier.Matches` | app.py:33 | The test `fuzz.partial_ratio(pattern.lower(), note.lower()) > 75`: the score of the lower-cased pattern against the lower-cased note is strictly above `Threshold` (75). Its boundary is proved in `Classifier.ThresholdIsStrict`. |
| `Classifier.ThresholdIsStrict` | app.py:33 | With a single pattern, a score of exactly 75 leaves the note "Nej", and a score of 76 makes it "Ja". |
| `Classifier.PatternOrderIrrelevant` | app.py:32-34 | If every pattern of one list is in another, a note that is "Ja" under the first list is "Ja" under the second. The label depends only on the set of patterns, not on order or repetition. |
| `Classifier.CaseInsensitive` | app.py:33 | Lower-casing the note, or every pattern, beforehand does not change the label. |
| `Text.Lower` | app.py:33 | The modelled lowering keeps the length and maps each character to its lower case. |
| `Text.LowerIdempotent` | app.py:33 | Lower-casing twice is lower-casing once. |
| `Text.Split` | app.py:60 | `str.split()` yields only non-empty words without whitespace. Concatenated, they are exactly the non-whitespace characters of the note, in order. |
| `Text.SplitAtSpace` | app.py:60 | A whitespace character separates words: splitting `a + [sp] + b` gives the words of `a` followed by the words of `b`. |
| `Text.SplitWord` | app.py:60 | A non-empty string without whitespace splits into itself alone. |
| `Text.SplitWordsShort` | app.py:60 | No word of a split is longer than the string it came from. |
| `Patterns.LoadPatterns` | app.py:11-21 | When no stored list exists, the result is the 17-entry seed list. Otherwise it is the stored list unchanged. |
| `Patterns.SeedPatternsDistinct` | app.py:16-20 | The seed list holds no pattern twice. |
| `Patterns.Dedup` | app.py:61 | `list(set(s))`: no duplicates, and the same elements as `s`. |
| `Patterns.Merge` | app.py:61 | `list(set(patterns + new_patterns))` has no duplicates. Its elements are exactly the old patterns and the additions. Its length is the number of distinct old patterns plus the number of distinct additions not already present. |
| `Patterns.MergeNothing` | app.py:61 | Merging no additions into a duplicate-free list returns that list. |
| `Patterns.MergeIdempotent` | app.py:61 | Merging the same additions a second time returns the first merge's result unchanged. |
| `Feedback.NoteText` | app.py:60 | `str(note)`: a present note is its own text, and a missing one becomes the three-character "nan". |
| `Feedback.LongWords` | app.py:60 | The list comprehension keeps every occurrence of a word longer than four characters and drops every other: each long word occurs in the result as often as in the input, every other word not at all. The kept words form a subsequence of the input, so their order is kept. |
| `Feedback.Candidates` | app.py:60 | `[word for word in str(note).split() if len(word) > 4]`: the long words of the note's text. `Feedback.CandidatesAreLongWords` proves they are exactly the split's words longer than four characters, free of whitespace, in order. |
| `Feedback.CandidatesAreLongWords` | app.py:60 | The candidates of a note are longer than four characters and contain no whitespace. They are exactly the words of the note's split that are longer than four characters, in the order they occur there. |
| `Feedback.ShortNoteNoCandidates` | app.py:58-60 | A note text of at most four characters yields no candidate. In particular a missing note ("nan") yields none. |
| `Feedback.FourCharacterWordExcluded` | app.py:60 | The length test is strict. A five-character word, a space, then a four-character word (as in "ccccc dddd") yields only the five-character word. |
| `Feedback.Contribution` | app.py:59-60 | The branch `if row['Keywords'] == 'Nej'`: a row labelled "Nej" contributes its note's candidates, any other row nothing. `Feedback.RowCandidates` states this row by row. |
| `Feedback.RowCandidates` | app.py:58-60 | Each row contributes the candidates of its note when its label is "Nej", and nothing otherwise. |
| `Feedback.LearnedStep` | app.py:58-60 | One more row appends its contribution to the words learned so far, at the end. |
| `Feedback.Learned` | app.py:57-60 | `new_patterns` after the loop: the contributions of all rows, concatenated in row order. `Feedback.LearnedFromNejRows` proves a word is in it exactly when some "Nej" row yields it; `Feedback.LearnedStep` proves each row appends at the end. |
| `Feedback.LearnedFromNejRows` | app.py:57-60 | A word is learned exactly when some row labelled "Nej" yields it as a candidate. |
| `Feedback.LearnedWordsAreLong` | app.py:60 | Every learned word is longer than four characters and holds no whitespace. |
| `Feedback.LearnPatterns` | app.py:57-61 | The loop over the rows, followed by the merge, returns `Merge` of the old patterns and everything learned. The result has no duplicates, and its elements are the old patterns plus the learned words. |
| `Feedback.ExplainedStaysExplained` | app.py:61 | A note labelled "Ja" before a merge is still "Ja" against the merged list. |
| `Batch.KeywordsColumn` | app.py:48 | The `Keywords` column has one label per note, in row order, and each is the classification of that row's note. |
| `Batch.KeywordsColumnAppend` | app.py:48 | Rows are labelled independently: the labels of two blocks of rows are the labels of the first block followed by those of the second. |
| `Batch.AnalyzeSheet` | app.py:47-48 | The analysis fails if and only if the `SupportNote` column is missing, and the error names that column. Otherwise every row gets the classification of its own note, in order. |
| `Batch.ImproveFromSheet` | app.py:47-61 | On a sheet without `SupportNote` nothing is learned and an error results. Otherwise the improved list has no duplicates and holds the old patterns plus the candidates of the rows labelled "Nej". |
| `Batch.LearnedOnlyFromUnexplained` | app.py:48-60 | Every learned word comes from a present note against which no pattern scored above 75. |

## Left out

- The Streamlit page (title, file uploader, buttons, `st.dataframe`, success and error messages) and `@st.cache_data` are left out as presentation and caching. The missing-column message is modelled only as the `MissingColumn("SupportNote")` error.
- Reading the pattern file (`json.load`) is left out as file I/O. Its outcome is the parameter of `LoadPatterns`, which is `None` when the file does not exist. `save_patterns` (app.py:24-26) is left out for the same reason, and so is writing the improved list back after a merge (app.py:62).
- Reading and writing Excel through pandas (app.py:46, 53) is foreign I/O. A sheet is modelled as a map from column names to lists of optional texts. Columns other than `SupportNote` play no part, and the `Keywords` column is returned rather than written into the sheet.
- `fuzz.partial_ratio`'s algorithm is left out: it belongs to a library that is not part of this model. It is the `Scorer` parameter, and the only fact assumed is its range 0..100. In particular, no substring-gives-100 fact is assumed.
- `Text.Lower` lowers only ASCII A-Z and the Latin-1 capitals U+00C0..U+00DE (which include Æ, Ø and Å). Python's full Unicode case mapping is not modelled.
- Pandas' missing-value detection (`pd.isna`) is modelled as `Option`: every value pandas treats as missing is `None`. A note cell holding a number is not modelled. `classify_note` would fail on it, because a number has no `.lower()`.
- `Patterns.Merge`: Python's set iteration order is unspecified, so its contract promises only the element set, the absence of duplicates and the length. The model fixes one order, each element at its last occurrence. The exact equalities in `Patterns.MergeNothing` and `Patterns.MergeIdempotent` hold for that order. In Python they hold only up to order.
