/** Learning new patterns from rows the analyzer labelled "Nej": the
    "Forbedre Mønstre" step. */
module Feedback {
  import opened Wrappers
  import opened Text
  import opened Seqs
  import opened Classifier
  import opened Patterns

  /** A word becomes a candidate pattern only when it is strictly longer
      than this. */
  const MinWordLength: int := 4

  /** What `str(...)` makes of a missing cell. */
  const MissingNoteText: string := "nan"

  /** `str(row['SupportNote'])`. */
  function NoteText(note: Option<string>): (t: string)
    ensures note.Some? ==> t == note.value
    ensures note.None? ==> |t| == 3
  {
    match note
    case None => MissingNoteText
    case Some(n) => n
  }

  /** `[word for word in words if len(word) > 4]`: the long words, in
      their original order. */
  function LongWords(words: seq<string>): (r: seq<string>)
    ensures forall w :: w in r <==> w in words && |w| > MinWordLength
    ensures forall w :: multiset(r)[w] == if |w| > MinWordLength then multiset(words)[w] else 0
    ensures IsSubsequence(r, words)
  {
    if words == [] then []
    else if |words[0]| > MinWordLength then
      var rest := LongWords(words[1..]);
      assert ([words[0]] + rest)[1..] == rest;
      assert words == [words[0]] + words[1..];
      [words[0]] + rest
    else
      var rest := LongWords(words[1..]);
      assert rest != [] ==> rest[0] != words[0];
      assert words == [words[0]] + words[1..];
      rest
  }

  /** The candidate patterns one note yields: the words of its text longer
      than four characters, in the order they occur. */
  function Candidates(note: Option<string>): seq<string> {
    LongWords(Split(NoteText(note)))
  }

  /** A candidate is a word of the note's text: it is longer than four
      characters and holds no whitespace, every word of the text longer
      than four characters is one, and they keep the text's order. */
  lemma CandidatesAreLongWords(note: Option<string>)
    ensures forall w :: w in Candidates(note) ==> |w| > MinWordLength && NoSpace(w)
    ensures forall w :: w in Candidates(note) <==> w in Split(NoteText(note)) && |w| > MinWordLength
    ensures IsSubsequence(Candidates(note), Split(NoteText(note)))
  {
    var words := Split(NoteText(note));
    LongWordsOfWords(words);
    var r := LongWords(words);
    forall w | w in r ensures |w| > MinWordLength && NoSpace(w) {
      var i :| 0 <= i < |r| && r[i] == w;
    }
  }

  /** The long words of a split are long and free of whitespace. */
  lemma LongWordsOfWords(words: seq<string>)
    requires forall j :: 0 <= j < |words| ==> NoSpace(words[j])
    ensures forall i :: 0 <= i < |LongWords(words)| ==>
      |LongWords(words)[i]| > MinWordLength && NoSpace(LongWords(words)[i])
  {
    var r := LongWords(words);
    forall i | 0 <= i < |r| ensures |r[i]| > MinWordLength && NoSpace(r[i]) {
      assert r[i] in r;
      var j :| 0 <= j < |words| && words[j] == r[i];
    }
  }

  /** A note of at most four characters yields no candidate; in particular
      a missing note, whose text is "nan", yields none. */
  lemma ShortNoteNoCandidates(note: Option<string>)
    requires |NoteText(note)| <= MinWordLength
    ensures Candidates(note) == []
  {
    var words := Split(NoteText(note));
    var r := Candidates(note);
    if r != [] {
      assert r[0] in r;
      var j :| 0 <= j < |words| && words[j] == r[0];
      SplitWordsShort(NoteText(note), j);
    }
  }

  /** The length filter is strict: of a five-character word and a
      four-character word separated by a space (as in "ccccc dddd"), only
      the five-character word is a candidate. */
  lemma FourCharacterWordExcluded(five: string, four: string)
    requires NoSpace(five) && |five| == MinWordLength + 1
    requires NoSpace(four) && |four| == MinWordLength
    ensures Candidates(Some(five + [' '] + four)) == [five]
  {
    SplitWord(four);
    SplitLeadingWord(five, four);
    assert Split(five + [' '] + four) == [five, four];
    assert LongWords([four]) == [] by {
      assert [four][1..] == [];
    }
    assert [five, four][1..] == [four];
  }

  /** A word followed by a space is the first word of the split. */
  lemma SplitLeadingWord(w: string, rest: string)
    requires w != [] && NoSpace(w)
    ensures Split(w + [' '] + rest) == [w] + Split(rest)
  {
    SplitAtSpace(w, ' ', rest);
    SplitWord(w);
  }

  /** What one row contributes: the candidates of its note when it is
      labelled "Nej", nothing otherwise. */
  function Contribution(note: Option<string>, keyword: Label): seq<string> {
    if keyword == Nej then Candidates(note) else []
  }

  /** The contributions of all rows, in row order. */
  function RowCandidates(notes: seq<Option<string>>, keywords: seq<Label>): (rows: seq<seq<string>>)
    requires |notes| == |keywords|
    ensures |rows| == |notes|
    ensures forall i :: 0 <= i < |notes| ==> rows[i] == Contribution(notes[i], keywords[i])
  {
    seq(|notes|, i requires 0 <= i < |notes| => Contribution(notes[i], keywords[i]))
  }

  /** `new_patterns` after the loop: the contributions of all rows,
      concatenated in row order. */
  function Learned(notes: seq<Option<string>>, keywords: seq<Label>): seq<string>
    requires |notes| == |keywords|
  {
    Flatten(RowCandidates(notes, keywords))
  }

  lemma RowCandidatesStep(notes: seq<Option<string>>, keywords: seq<Label>, i: nat)
    requires |notes| == |keywords| && i < |notes|
    ensures RowCandidates(notes[..i + 1], keywords[..i + 1]) ==
      RowCandidates(notes[..i], keywords[..i]) + [Contribution(notes[i], keywords[i])]
  {
  }

  /** One more row adds its own contribution at the end. */
  lemma LearnedStep(notes: seq<Option<string>>, keywords: seq<Label>, i: nat)
    requires |notes| == |keywords| && i < |notes|
    ensures Learned(notes[..i + 1], keywords[..i + 1]) ==
      Learned(notes[..i], keywords[..i]) + Contribution(notes[i], keywords[i])
  {
    var row := Contribution(notes[i], keywords[i]);
    RowCandidatesStep(notes, keywords, i);
    FlattenAppend(RowCandidates(notes[..i], keywords[..i]), [row]);
    assert [row][1..] == [];
  }

  /** A word is learned exactly when some row labelled "Nej" yields it as
      a candidate. */
  lemma LearnedFromNejRows(notes: seq<Option<string>>, keywords: seq<Label>, w: string)
    requires |notes| == |keywords|
    ensures w in Learned(notes, keywords) <==>
      exists i :: 0 <= i < |notes| && keywords[i] == Nej && w in Candidates(notes[i])
  {
    LearnedContributions(notes, keywords, w);
    if exists i :: 0 <= i < |notes| && keywords[i] == Nej && w in Candidates(notes[i]) {
      var i :| 0 <= i < |notes| && keywords[i] == Nej && w in Candidates(notes[i]);
      assert w in Contribution(notes[i], keywords[i]);
    }
    if w in Learned(notes, keywords) {
      var i :| 0 <= i < |notes| && w in Contribution(notes[i], keywords[i]);
      assert keywords[i] == Nej && w in Candidates(notes[i]);
    }
  }

  /** A word is learned exactly when some row's contribution holds it. */
  lemma LearnedContributions(notes: seq<Option<string>>, keywords: seq<Label>, w: string)
    requires |notes| == |keywords|
    ensures w in Learned(notes, keywords) <==>
      exists i :: 0 <= i < |notes| && w in Contribution(notes[i], keywords[i])
  {
    var rows := RowCandidates(notes, keywords);
    FlattenMember(rows, w);
    assert forall i :: 0 <= i < |notes| ==> rows[i] == Contribution(notes[i], keywords[i]);
  }

  /** Every learned word is longer than four characters and holds no
      whitespace. */
  lemma LearnedWordsAreLong(notes: seq<Option<string>>, keywords: seq<Label>, w: string)
    requires |notes| == |keywords|
    ensures w in Learned(notes, keywords) ==> |w| > MinWordLength && NoSpace(w)
  {
    if w in Learned(notes, keywords) {
      LearnedFromNejRows(notes, keywords, w);
      var i :| 0 <= i < |notes| && keywords[i] == Nej && w in Candidates(notes[i]);
      CandidatesAreLongWords(notes[i]);
    }
  }

  /** The "Forbedre Mønstre" step: collect the candidates of every "Nej"
      row, then merge them into the pattern list. The result is
      duplicate-free and holds exactly the old patterns and the
      candidates. */
  method LearnPatterns(patterns: seq<string>, notes: seq<Option<string>>, keywords: seq<Label>)
    returns (updated: seq<string>)
    requires |notes| == |keywords|
    ensures updated == Merge(patterns, Learned(notes, keywords))
    ensures NoDuplicates(updated)
    ensures Elements(updated) == Elements(patterns) + Elements(Learned(notes, keywords))
  {
    var newPatterns: seq<string> := [];
    for i := 0 to |notes|
      invariant newPatterns == Learned(notes[..i], keywords[..i])
    {
      LearnedStep(notes, keywords, i);
      if keywords[i] == Nej {
        newPatterns := newPatterns + Candidates(notes[i]);
      }
    }
    assert notes[..|notes|] == notes && keywords[..|keywords|] == keywords;
    updated := Merge(patterns, newPatterns);
  }

  /** Learning never loses an explanation: a note labelled "Ja" before the
      merge is still labelled "Ja" against the merged list. */
  lemma ExplainedStaysExplained(note: Option<string>, patterns: seq<string>, additions: seq<string>, score: Scorer)
    requires Classification(note, patterns, score) == Ja
    ensures Classification(note, Merge(patterns, additions), score) == Ja
  {
    var merged := Merge(patterns, additions);
    forall p | p in patterns ensures p in merged {
      assert p in Elements(patterns);
    }
    PatternOrderIrrelevant(note, patterns, merged, score);
  }
}
