/** Properties of the record-level operations of `Type`
    (Sourcery/Models/Type.swift): the computed/stored split of the instance
    variables and the merge of extension fragments. */
module ModelProperties {
  import opened Wrappers
  import opened Sequences
  import opened TypeModel

  /** Selecting commutes with concatenation: the split keeps source order. */
  lemma {:induction false} SelectAppend(a: seq<Variable>, b: seq<Variable>, computed: bool)
    ensures Select(a + b, computed) == Select(a, computed) + Select(b, computed)
    decreases |a|
  {
    if |a| == 0 {
      assert a + b == b;
    } else {
      assert (a + b)[0] == a[0];
      assert (a + b)[1..] == a[1..] + b;
      SelectAppend(a[1..], b, computed);
      if a[0].isComputed == computed {
        assert Select(a + b, computed) == [a[0]] + (Select(a[1..], computed) + Select(b, computed));
      }
    }
  }

  /** `vs` is an order-preserving merge of its computed and its stored variables. */
  lemma {:induction false} SelectInterleaves(vs: seq<Variable>)
    ensures Interleaving(vs, Select(vs, true), Select(vs, false))
    decreases |vs|
  {
    if |vs| > 0 {
      SelectInterleaves(vs[1..]);
    }
  }

  /** The computed and the stored variables partition the instance variables:
      together they are the instance variables with multiplicities, no
      variable is in both, and merging them back in order gives the original. */
  lemma VariablesPartition(d: Decl)
    ensures Interleaving(d.variables, ComputedVariables(d), StoredVariables(d))
    ensures multiset(ComputedVariables(d)) + multiset(StoredVariables(d)) == multiset(d.variables)
    ensures |ComputedVariables(d)| + |StoredVariables(d)| == |d.variables|
    ensures forall v :: !(v in ComputedVariables(d) && v in StoredVariables(d))
  {
    SelectInterleaves(d.variables);
    InterleavingCounts(d.variables, ComputedVariables(d), StoredVariables(d));
    assert |multiset(ComputedVariables(d)) + multiset(StoredVariables(d))| == |multiset(d.variables)|;
  }

  /** An interleaving holds exactly the elements of its two parts. */
  lemma {:induction false} InterleavingCounts<T>(s: seq<T>, a: seq<T>, b: seq<T>)
    requires Interleaving(s, a, b)
    ensures multiset(a) + multiset(b) == multiset(s)
    decreases |s|
  {
    if |s| > 0 {
      if |a| > 0 && a[0] == s[0] && Interleaving(s[1..], a[1..], b) {
        InterleavingCounts(s[1..], a[1..], b);
        assert a == [a[0]] + a[1..];
        assert s == [s[0]] + s[1..];
      } else {
        InterleavingCounts(s[1..], a, b[1..]);
        assert b == [b[0]] + b[1..];
        assert s == [s[0]] + s[1..];
      }
    }
  }

  /** After a merge, the computed (stored) variables are the old ones
      followed by the fragment's. */
  lemma ExtendSplitsAppended(d: Decl, ext: Decl)
    ensures ComputedVariables(Extend(d, ext)) == ComputedVariables(d) + ComputedVariables(ext)
    ensures StoredVariables(Extend(d, ext)) == StoredVariables(d) + StoredVariables(ext)
  {
    SelectAppend(d.variables, ext.variables, true);
    SelectAppend(d.variables, ext.variables, false);
  }

  /** Merging the same fragment twice appends its variables twice, while
      annotations and the set of inherited type names stay as after the
      first merge. */
  lemma ExtendTwice(d: Decl, ext: Decl)
    ensures Extend(Extend(d, ext), ext).variables == d.variables + ext.variables + ext.variables
    ensures Extend(Extend(d, ext), ext).annotations == Extend(d, ext).annotations
    ensures forall t :: t in Extend(Extend(d, ext), ext).inheritedTypes <==> t in Extend(d, ext).inheritedTypes
    ensures |ext.variables| > 0 ==> Extend(Extend(d, ext), ext) != Extend(d, ext)
  {
  }

  /** The merge of a primary declaration with one extension fragment, on concrete values. */
  lemma ExtendExample()
    ensures
      var m1 := Variable("m1", false);
      var m2 := Variable("m2", true);
      var a := Decl("A", false, Internal, [m1], [], ["Foo"], [], map["x" := Number(1)], false, None, None);
      var b := Decl("A", true, Internal, [m2], [], ["Bar"], [], map["x" := Number(2), "y" := Number(3)], false, None, None);
      var r := Extend(a, b);
      && r.variables == [m1, m2]
      && r.annotations == map["x" := Number(2), "y" := Number(3)]
      && (forall t :: t in r.inheritedTypes <==> t == "Foo" || t == "Bar")
      && |r.inheritedTypes| == 2
      && !r.isExtension
  {
    var m1 := Variable("m1", false);
    var m2 := Variable("m2", true);
    var a := Decl("A", false, Internal, [m1], [], ["Foo"], [], map["x" := Number(1)], false, None, None);
    var b := Decl("A", true, Internal, [m2], [], ["Bar"], [], map["x" := Number(2), "y" := Number(3)], false, None, None);
    var r := Extend(a, b);
    assert r.annotations == map["x" := Number(2), "y" := Number(3)];
    assert "Foo" in r.inheritedTypes && "Bar" in r.inheritedTypes;
  }
}
