/** `classify_note`: whether a support note is explained by a known
    pattern ("Ja") or not ("Nej"). */
module Classifier {
  import opened Wrappers
  import opened Text

  /** The similarity score `fuzz.partial_ratio(pattern, note)`. Its
      algorithm lives in a library outside this model, so it is a
      parameter; the one fact assumed about it is its range 0..100. */
  type Scorer = f: (string, string) -> int | forall a, b :: 0 <= f(a, b) <= 100
    witness (a: string, b: string) => 0

  /** A pattern matches when its score is strictly above this. */
  const Threshold: int := 75

  /** The two values of the `Keywords` column. */
  datatype Label = Ja | Nej

  /** The lower-cased pattern scores strictly above the threshold against
      the lower-cased note. */
  predicate Matches(score: Scorer, pattern: string, note: string) {
    score(Lower(pattern), Lower(note)) > Threshold
  }

  /** The label the scan over `patterns` settles on for a present note. */
  function Scan(score: Scorer, patterns: seq<string>, note: string): (r: Label)
    ensures r == Ja <==> exists i :: 0 <= i < |patterns| && Matches(score, patterns[i], note)
  {
    if patterns == [] then Nej
    else if Matches(score, patterns[0], note) then Ja
    else
      var r := Scan(score, patterns[1..], note);
      assert r == Ja ==> exists i :: 0 < i < |patterns| && Matches(score, patterns[i], note) by {
        if r == Ja {
          var k :| 0 <= k < |patterns| - 1 && Matches(score, patterns[1..][k], note);
          assert Matches(score, patterns[k + 1], note);
        }
      }
      assert (exists i :: 0 < i < |patterns| && Matches(score, patterns[i], note)) ==> r == Ja by {
        if exists i :: 0 < i < |patterns| && Matches(score, patterns[i], note) {
          var k :| 0 < k < |patterns| && Matches(score, patterns[k], note);
          assert Matches(score, patterns[1..][k - 1], note);
        }
      }
      r
  }

  /** The label `classify_note` gives a note: "Nej" for a missing note,
      otherwise "Ja" exactly when some pattern matches it. */
  function Classification(note: Option<string>, patterns: seq<string>, score: Scorer): (r: Label)
    ensures note.None? ==> r == Nej
    ensures patterns == [] ==> r == Nej
    ensures r == Ja <==>
      note.Some? && exists i :: 0 <= i < |patterns| && Matches(score, patterns[i], note.value)
  {
    match note
    case None => Nej
    case Some(n) => Scan(score, patterns, n)
  }

  /** `classify_note(note, patterns)`: scan the patterns in order and stop
      at the first one whose score clears the threshold. */
  method ClassifyNote(note: Option<string>, patterns: seq<string>, score: Scorer) returns (r: Label)
    ensures r == Classification(note, patterns, score)
  {
    if note.None? {
      return Nej;
    }
    var n := note.value;
    for i := 0 to |patterns|
      invariant forall j :: 0 <= j < i ==> !Matches(score, patterns[j], n)
    {
      if score(Lower(patterns[i]), Lower(n)) > Threshold {
        return Ja;
      }
    }
    return Nej;
  }

  /** The threshold is strict: with one pattern, a score of exactly 75
      leaves the note "Nej" and a score of 76 makes it "Ja". */
  lemma ThresholdIsStrict(score: Scorer, pattern: string, note: string)
    ensures score(Lower(pattern), Lower(note)) == Threshold ==>
      Classification(Some(note), [pattern], score) == Nej
    ensures score(Lower(pattern), Lower(note)) == Threshold + 1 ==>
      Classification(Some(note), [pattern], score) == Ja
  {
  }

  /** Only the set of patterns matters, not their order or repetitions. */
  lemma {:induction false} PatternOrderIrrelevant(note: Option<string>, ps: seq<string>, qs: seq<string>, score: Scorer)
    requires forall p :: p in ps ==> p in qs
    ensures Classification(note, ps, score) == Ja ==> Classification(note, qs, score) == Ja
  {
    if Classification(note, ps, score) == Ja {
      var i :| 0 <= i < |ps| && Matches(score, ps[i], note.value);
      assert ps[i] in qs;
      var j :| 0 <= j < |qs| && qs[j] == ps[i];
    }
  }

  /** Case does not matter: a note and its lower-cased form get the same
      label, and so do patterns and their lower-cased forms. */
  lemma {:induction false} CaseInsensitive(note: string, patterns: seq<string>, score: Scorer)
    ensures Classification(Some(Lower(note)), patterns, score) == Classification(Some(note), patterns, score)
    ensures Classification(Some(note), seq(|patterns|, i requires 0 <= i < |patterns| => Lower(patterns[i])), score)
         == Classification(Some(note), patterns, score)
  {
    LowerIdempotent(note);
    var lowered := seq(|patterns|, i requires 0 <= i < |patterns| => Lower(patterns[i]));
    forall i | 0 <= i < |patterns|
      ensures Matches(score, lowered[i], note) == Matches(score, patterns[i], note)
    {
      LowerIdempotent(patterns[i]);
    }
  }
}
