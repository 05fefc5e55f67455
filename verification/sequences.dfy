/** Generic facts about sequences used by the declaration model: duplicate-free
    sequences, the de-duplication behind `Array(Set(...))`, order-preserving
    interleavings, and joining strings with a separator. */
module Sequences {

  /** No element occurs twice. */
  ghost predicate NoDuplicates<T>(s: seq<T>) {
    forall i, j :: 0 <= i < j < |s| ==> s[i] != s[j]
  }

  /** One duplicate-free arrangement of the elements of `s`, as produced by
      converting an array to a set and back. The concrete order chosen here
      (first occurrences, in order) is one admissible outcome; only the
      element set and the absence of duplicates are promised. */
  function Distinct<T(==,!new)>(s: seq<T>): (r: seq<T>)
    ensures NoDuplicates(r)
    ensures forall x :: x in r <==> x in s
    ensures |r| <= |s|
    decreases |s|
  {
    if |s| == 0 then []
    else
      var kept := Distinct(s[..|s| - 1]);
      var last := s[|s| - 1];
      if last in kept then kept else kept + [last]
  }

  /** `s` is a merge of `a` and `b` that keeps the relative order of both. */
  ghost predicate Interleaving<T>(s: seq<T>, a: seq<T>, b: seq<T>)
    decreases |s|
  {
    if |s| == 0 then a == [] && b == []
    else
      || (|a| > 0 && a[0] == s[0] && Interleaving(s[1..], a[1..], b))
      || (|b| > 0 && b[0] == s[0] && Interleaving(s[1..], a, b[1..]))
  }

  /** The parts joined with `sep` between neighbours. */
  function JoinWith(parts: seq<string>, sep: char): string
    requires |parts| > 0
    decreases |parts|
  {
    if |parts| == 1 then parts[0]
    else JoinWith(parts[..|parts| - 1], sep) + [sep] + parts[|parts| - 1]
  }

  /** Joining a non-empty proper prefix of the parts, followed by the
      separator, gives a prefix of the join of all parts. */
  lemma {:induction false} JoinWithPrefix(parts: seq<string>, sep: char, k: nat)
    requires 0 < k < |parts|
    ensures JoinWith(parts[..k], sep) + [sep] <= JoinWith(parts, sep)
    decreases |parts|
  {
    var init := parts[..|parts| - 1];
    assert JoinWith(parts, sep) == JoinWith(init, sep) + [sep] + parts[|parts| - 1];
    if k < |parts| - 1 {
      JoinWithPrefix(init, sep, k);
      assert init[..k] == parts[..k];
    } else {
      assert parts[..k] == init;
    }
  }
}
