/** The string operations the analyzer borrows from Python: `str.lower`
    and `str.split()` with no argument. */
module Text {
  import opened Seqs

  // ---------------------------------------------------------------
  // Lower-casing
  // ---------------------------------------------------------------

  /** The upper-case letters this model lowers: ASCII A-Z and the Latin-1
      capitals U+00C0..U+00DE except the multiplication sign U+00D7
      (this range holds the Danish capitals Æ, Ø and Å). */
  predicate IsUpper(c: char) {
    ('A' <= c <= 'Z') || ('\U{C0}' <= c <= '\U{DE}' && c != '\U{D7}')
  }

  /** The lower-case partner of an upper-case letter; every other
      character is its own lower case. */
  function LowerChar(c: char): (d: char)
    ensures !IsUpper(d)
    ensures IsUpper(c) ==> d as int == c as int + 32
    ensures !IsUpper(c) ==> d == c
  {
    if IsUpper(c) then (c as int + 32) as char else c
  }

  /** `s.lower()`, character by character. */
  function Lower(s: string): (r: string)
    ensures |r| == |s|
    ensures forall i :: 0 <= i < |s| ==> r[i] == LowerChar(s[i])
  {
    seq(|s|, i requires 0 <= i < |s| => LowerChar(s[i]))
  }

  /** Lower-casing twice is lower-casing once. */
  lemma LowerIdempotent(s: string)
    ensures Lower(Lower(s)) == Lower(s)
  {
  }

  // ---------------------------------------------------------------
  // Whitespace splitting
  // ---------------------------------------------------------------

  /** The characters Python's `str.isspace` accepts; `str.split()` with no
      argument separates words at runs of exactly these. */
  predicate IsSpace(c: char) {
    || c == ' '
    || ('\t' <= c <= '\r')
    || ('\U{1C}' <= c <= '\U{1F}')
    || c == '\U{85}'
    || c == '\U{A0}'
    || c == '\U{1680}'
    || ('\U{2000}' <= c <= '\U{200A}')
    || c == '\U{2028}'
    || c == '\U{2029}'
    || c == '\U{202F}'
    || c == '\U{205F}'
    || c == '\U{3000}'
  }

  /** A string with no whitespace character in it. */
  predicate NoSpace(w: string) {
    forall i :: 0 <= i < |w| ==> !IsSpace(w[i])
  }

  /** `s` with every whitespace character removed. */
  function NonSpace(s: string): (r: string)
    ensures |r| <= |s|
    ensures NoSpace(r)
  {
    if s == [] then []
    else if IsSpace(s[0]) then NonSpace(s[1..])
    else [s[0]] + NonSpace(s[1..])
  }

  /** The list of words the current word `word` followed by `s` splits
      into. `word` holds the non-space characters read since the last
      whitespace; it ends the moment a whitespace character or the end of
      the string is reached, and an empty word is never emitted. */
  function SplitFrom(s: string, word: string): (r: seq<string>)
    requires NoSpace(word)
    ensures Words(r)
    ensures Flatten(r) == word + NonSpace(s)
    decreases |s|
  {
    if s == [] then
      FinishedWord(word);
      Finished(word)
    else if IsSpace(s[0]) then
      var rest := SplitFrom(s[1..], []);
      SpaceStep(s, word, rest);
      Finished(word) + rest
    else
      LetterStep(s, word);
      SplitFrom(s[1..], word + [s[0]])
  }

  /** The words a finished current word adds: none when it is empty. */
  function Finished(word: string): seq<string> {
    if word == [] then [] else [word]
  }

  lemma FinishedWord(word: string)
    requires NoSpace(word)
    ensures Words(Finished(word)) && Flatten(Finished(word)) == word
  {
    if word != [] {
      assert Finished(word)[1..] == [];
    }
  }

  /** At a whitespace character the current word is finished. */
  lemma SpaceStep(s: string, word: string, rest: seq<string>)
    requires s != [] && IsSpace(s[0]) && NoSpace(word)
    requires Words(rest) && Flatten(rest) == NonSpace(s[1..])
    ensures Words(Finished(word) + rest)
    ensures Flatten(Finished(word) + rest) == word + NonSpace(s)
  {
    FinishedWord(word);
    JoinWords(Finished(word), rest);
  }

  /** Any other character extends the current word. */
  lemma LetterStep(s: string, word: string)
    requires s != [] && !IsSpace(s[0]) && NoSpace(word)
    ensures NoSpace(word + [s[0]])
    ensures word + NonSpace(s) == (word + [s[0]]) + NonSpace(s[1..])
  {
    ExtendWord(word, s[0]);
    var tail := NonSpace(s[1..]);
    assert NonSpace(s) == [s[0]] + tail;
    assert word + ([s[0]] + tail) == (word + [s[0]]) + tail;
  }

  lemma ExtendWord(word: string, c: char)
    requires NoSpace(word) && !IsSpace(c)
    ensures NoSpace(word + [c])
  {
    var w := word + [c];
    forall i | 0 <= i < |w| ensures !IsSpace(w[i]) {
      if i < |word| {
        assert w[i] == word[i];
      }
    }
  }

  /** Every entry of `ws` is a non-empty word without whitespace. */
  predicate Words(ws: seq<string>) {
    forall i :: 0 <= i < |ws| ==> ws[i] != [] && NoSpace(ws[i])
  }

  lemma JoinWords(a: seq<string>, b: seq<string>)
    requires Words(a) && Words(b)
    ensures Words(a + b) && Flatten(a + b) == Flatten(a) + Flatten(b)
  {
    FlattenAppend(a, b);
  }

  /** `s.split()`: the maximal runs of non-whitespace characters of `s`,
      in order. Every word is non-empty and free of whitespace, and the
      words together are exactly the non-whitespace characters of `s`. */
  function Split(s: string): (r: seq<string>)
    ensures forall i :: 0 <= i < |r| ==> r[i] != [] && NoSpace(r[i])
    ensures Flatten(r) == NonSpace(s)
  {
    SplitFrom(s, [])
  }

  /** No word of `s.split()` is longer than `s`. */
  lemma SplitWordsShort(s: string, i: nat)
    requires i < |Split(s)|
    ensures |Split(s)[i]| <= |s|
  {
    PartWithinFlatten(Split(s), i);
  }

  lemma {:induction false} SplitFromAtSpace(a: string, sp: char, b: string, word: string)
    requires IsSpace(sp) && NoSpace(word)
    ensures SplitFrom(a + [sp] + b, word) == SplitFrom(a, word) + SplitFrom(b, [])
    decreases |a|
  {
    var s := a + [sp] + b;
    if a == [] {
      assert s[0] == sp && s[1..] == b;
    } else {
      assert s[0] == a[0] && s[1..] == a[1..] + [sp] + b;
      if IsSpace(a[0]) {
        SplitFromAtSpace(a[1..], sp, b, []);
      } else {
        SplitFromAtSpace(a[1..], sp, b, word + [a[0]]);
      }
    }
  }

  /** A whitespace character separates words: splitting `a`, a whitespace
      character, then `b` gives the words of `a` followed by those of `b`. */
  lemma SplitAtSpace(a: string, sp: char, b: string)
    requires IsSpace(sp)
    ensures Split(a + [sp] + b) == Split(a) + Split(b)
  {
    SplitFromAtSpace(a, sp, b, []);
  }

  lemma {:induction false} SplitFromWord(w: string, word: string)
    requires NoSpace(w) && NoSpace(word) && word + w != []
    ensures SplitFrom(w, word) == [word + w]
    decreases |w|
  {
    if w == [] {
      assert word + w == word;
    } else {
      assert word + w == (word + [w[0]]) + w[1..];
      SplitFromWord(w[1..], word + [w[0]]);
    }
  }

  /** A non-empty string without whitespace is a single word. */
  lemma SplitWord(w: string)
    requires w != [] && NoSpace(w)
    ensures Split(w) == [w]
  {
    SplitFromWord(w, []);
    assert [] + w == w;
  }
}
