/** The pattern list: its built-in seed, the fallback `load_patterns`
    makes when no stored list exists, and the merge
    `list(set(patterns + new_patterns))`. */
module Patterns {
  import opened Wrappers
  import opened Seqs

  /** The list `load_patterns` returns when the pattern file is missing. */
  const SeedPatterns: seq<string> := [
    "trafik", "traffic", "problemer med adgang", "ikke adgang", "forsinkelse",
    "blomsterbutikken åbnede senere", "forsinket lager", "forkert adresse",
    "ingen adgang", "problemer med porten", "alarm", "besværlig leveringsadresse",
    "hospital", "skole", "center", "gågade", "manglende parkering"
  ]

  /** `load_patterns()`, with the stored file's contents as a parameter:
      `None` when the file does not exist. */
  function LoadPatterns(stored: Option<seq<string>>): (r: seq<string>)
    ensures stored.None? ==> r == SeedPatterns && |r| == 17
    ensures stored.Some? ==> r == stored.value
  {
    match stored
    case None => SeedPatterns
    case Some(p) => p
  }

  /** The seed list holds no pattern twice. */
  lemma SeedPatternsDistinct()
    ensures NoDuplicates(SeedPatterns)
  {
  }

  // ---------------------------------------------------------------
  // Merge
  // ---------------------------------------------------------------

  /** One copy of every element of `s`: an element is kept at its last
      occurrence. This fixes one order among the many a Python set may
      iterate in; callers rely on nothing but its elements. */
  function Dedup<T(==)>(s: seq<T>): (r: seq<T>)
    ensures NoDuplicates(r)
    ensures Elements(r) == Elements(s)
  {
    if s == [] then []
    else
      var rest := Dedup(s[1..]);
      assert Elements(s) == {s[0]} + Elements(s[1..]);
      if s[0] in s[1..] then rest
      else
        assert s[0] !in Elements(rest);
        [s[0]] + rest
  }

  /** `list(set(patterns + additions))`: every pattern that is old or
      added, each exactly once, so the list grows by exactly the number
      of distinct additions that were not already present. */
  function Merge(patterns: seq<string>, additions: seq<string>): (r: seq<string>)
    ensures NoDuplicates(r)
    ensures Elements(r) == Elements(patterns) + Elements(additions)
    ensures |r| == |Elements(patterns)| + |Elements(additions) - Elements(patterns)|
  {
    var r := Dedup(patterns + additions);
    assert Elements(patterns + additions) == Elements(patterns) + Elements(additions);
    DistinctSize(r);
    r
  }

  /** `s` with the elements of `xs` removed. */
  function Without<T>(s: seq<T>, xs: set<T>): (r: seq<T>)
    ensures Elements(r) == Elements(s) - xs
  {
    if s == [] then []
    else if s[0] in xs then Without(s[1..], xs)
    else
      var rest := Without(s[1..], xs);
      assert Elements(s) == {s[0]} + Elements(s[1..]);
      assert Elements([s[0]] + rest) == {s[0]} + Elements(rest);
      [s[0]] + rest
  }

  lemma {:induction false} WithoutAppend<T>(a: seq<T>, b: seq<T>, xs: set<T>)
    ensures Without(a + b, xs) == Without(a, xs) + Without(b, xs)
  {
    if a == [] {
      assert a + b == b;
    } else {
      assert (a + b)[0] == a[0] && (a + b)[1..] == a[1..] + b;
      WithoutAppend(a[1..], b, xs);
    }
  }

  lemma {:induction false} WithoutIdempotent<T>(s: seq<T>, xs: set<T>)
    ensures Without(Without(s, xs), xs) == Without(s, xs)
  {
    if s != [] {
      WithoutIdempotent(s[1..], xs);
    }
  }

  lemma {:induction false} WithoutAll<T>(s: seq<T>, xs: set<T>)
    requires Elements(s) <= xs
    ensures Without(s, xs) == []
  {
    if s != [] {
      assert s[0] in Elements(s);
      assert Elements(s[1..]) <= Elements(s);
      WithoutAll(s[1..], xs);
    }
  }

  /** Deduplicating `x + a` keeps the elements of `x` that are not in `a`,
      then one copy of each element of `a`. */
  lemma {:induction false} DedupAppend<T>(x: seq<T>, a: seq<T>)
    ensures Dedup(x + a) == Without(Dedup(x), Elements(a)) + Dedup(a)
  {
    if x == [] {
      assert x + a == a;
    } else {
      var s := x + a;
      assert s[0] == x[0] && s[1..] == x[1..] + a;
      DedupAppend(x[1..], a);
      assert x[0] in s[1..] <==> x[0] in x[1..] || x[0] in Elements(a);
    }
  }

  lemma {:induction false} DedupDistinct<T>(s: seq<T>)
    requires NoDuplicates(s)
    ensures Dedup(s) == s
  {
    if s != [] {
      DedupDistinct(s[1..]);
    }
  }

  /** Merging nothing into a duplicate-free list returns that list. */
  lemma MergeNothing(patterns: seq<string>)
    requires NoDuplicates(patterns)
    ensures Merge(patterns, []) == patterns
  {
    assert patterns + [] == patterns;
    DedupDistinct(patterns);
  }

  /** Merging the same additions a second time changes nothing. */
  lemma MergeIdempotent(patterns: seq<string>, additions: seq<string>)
    ensures Merge(Merge(patterns, additions), additions) == Merge(patterns, additions)
  {
    var xs := Elements(additions);
    var d := Dedup(patterns);
    var once := Merge(patterns, additions);
    var tail := Dedup(additions);
    calc {
      Merge(once, additions);
      Dedup(once + additions);
      { DedupAppend(once, additions); }
      Without(Dedup(once), xs) + tail;
      { DedupDistinct(once); }
      Without(once, xs) + tail;
      { DedupAppend(patterns, additions); }
      Without(Without(d, xs) + tail, xs) + tail;
      { WithoutAppend(Without(d, xs), tail, xs); }
      Without(Without(d, xs), xs) + Without(tail, xs) + tail;
      { WithoutIdempotent(d, xs); WithoutAll(tail, xs); }
      Without(d, xs) + [] + tail;
      { assert Without(d, xs) + [] == Without(d, xs);
        DedupAppend(patterns, additions); }
      once;
    }
  }
}
