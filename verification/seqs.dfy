/** Vocabulary about sequences used by the pattern store and the
    feedback learner. */
module Seqs {

  /** The elements of `s`, forgetting order and repetition. */
  function Elements<T>(s: seq<T>): set<T> {
    set x | x in s
  }

  /** No element of `s` occurs twice. */
  predicate NoDuplicates<T(==)>(s: seq<T>) {
    forall i, j :: 0 <= i < j < |s| ==> s[i] != s[j]
  }

  /** `a` is `b` with some elements left out, the rest in their order. */
  predicate IsSubsequence<T(==)>(a: seq<T>, b: seq<T>)
    decreases |b|
  {
    if a == [] then true
    else if b == [] then false
    else if a[0] == b[0] then IsSubsequence(a[1..], b[1..])
    else IsSubsequence(a, b[1..])
  }

  /** A duplicate-free sequence has as many elements as its length. */
  lemma {:induction false} DistinctSize<T>(s: seq<T>)
    requires NoDuplicates(s)
    ensures |Elements(s)| == |s|
  {
    if s != [] {
      DistinctSize(s[1..]);
      assert Elements(s) == {s[0]} + Elements(s[1..]);
    }
  }

  /** The parts of `ss` written one after the other. */
  function Flatten<T>(ss: seq<seq<T>>): seq<T> {
    if ss == [] then [] else ss[0] + Flatten(ss[1..])
  }

  lemma {:induction false} FlattenAppend<T>(a: seq<seq<T>>, b: seq<seq<T>>)
    ensures Flatten(a + b) == Flatten(a) + Flatten(b)
  {
    if a == [] {
      assert a + b == b;
    } else {
      assert (a + b)[0] == a[0];
      assert (a + b)[1..] == a[1..] + b;
      FlattenAppend(a[1..], b);
    }
  }

  /** No part is longer than all the parts together. */
  lemma {:induction false} PartWithinFlatten<T>(ss: seq<seq<T>>, i: nat)
    requires i < |ss|
    ensures |ss[i]| <= |Flatten(ss)|
  {
    if i > 0 {
      PartWithinFlatten(ss[1..], i - 1);
    }
  }

  /** An element of the flattened sequence is an element of some part,
      and every element of every part is in it. */
  lemma {:induction false} FlattenMember<T>(ss: seq<seq<T>>, x: T)
    ensures x in Flatten(ss) <==> exists i :: 0 <= i < |ss| && x in ss[i]
  {
    if ss != [] {
      FlattenMember(ss[1..], x);
      if exists i :: 0 <= i < |ss| && x in ss[i] {
        var i :| 0 <= i < |ss| && x in ss[i];
        if i > 0 {
          assert x in ss[1..][i - 1];
        }
      }
      if x in Flatten(ss[1..]) {
        var i :| 0 <= i < |ss| - 1 && x in ss[1..][i];
        assert x in ss[i + 1];
      }
    }
  }
}
