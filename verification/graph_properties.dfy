/** Properties of `Type`'s object graph (Sourcery/Models/Type.swift): how
    qualified names nest, how genericity follows the current flags, and
    what assigning `containedTypes` does and does not update. */
module GraphProperties {
  import opened Wrappers
  import opened Sequences
  import opened TypeModel
  import opened TypeGraph
  import opened TypeWiring

  /** The qualified name of every proper ancestor, followed by '.', is a
      prefix of the qualified name of its descendant. */
  lemma AncestorNameIsPrefix(arena: Arena, x: Id, i: nat)
    requires WellFounded(arena) && x in arena
    requires i < |Chain(arena, x)| - 1
    ensures Chain(arena, x)[i] in arena
    ensures Name(arena, Chain(arena, x)[i]) + "." <= Name(arena, x)
  {
    var c := Chain(arena, x);
    var a := c[i];
    ChainLinks(arena, x);
    assert IsChainTo(arena, c[..i + 1], a);
    ChainUnique(arena, c[..i + 1], a);
    NameIsDottedPath(arena, a);
    NameIsDottedPath(arena, x);
    var names := LocalNames(arena, c);
    assert LocalNames(arena, c[..i + 1]) == names[..i + 1];
    JoinWithPrefix(names, '.', i + 1);
  }

  /** `isGeneric` is recomputed on every query: right after the flag of `a`
      is set, a declaration `x` is generic exactly when either `a` is on its
      chain and the new flag is set, or another declaration on its chain has
      its flag set. */
  lemma GenericFlagTakesEffect(arena: Arena, a: Id, flag: bool, x: Id)
    requires WellFounded(arena) && a in arena && x in arena
    ensures IsGeneric(SetHasGenericComponent(arena, a, flag), x) <==>
              || (flag && a in Chain(arena, x))
              || (exists y :: y in Chain(arena, x) && y != a && arena[y].hasGenericComponent)
  {
    var r := SetHasGenericComponent(arena, a, flag);
    var c := Chain(arena, x);
    assert Chain(r, x) == c;
    GenericIffFlagOnChain(r, x);
    if IsGeneric(r, x) {
      var y :| y in c && r[y].hasGenericComponent;
      if y != a {
        assert arena[y].hasGenericComponent;
      }
    }
    if flag && a in c {
      assert r[a].hasGenericComponent;
    }
    if exists y :: y in c && y != a && arena[y].hasGenericComponent {
      var y :| y in c && y != a && arena[y].hasGenericComponent;
      assert r[y].hasGenericComponent;
    }
  }

  /** Marking an enclosing declaration generic makes every declaration
      nested in it generic at once; clearing the only flag on the chain makes
      it non-generic at once. */
  lemma GenericFlagOnAncestor(arena: Arena, a: Id, x: Id)
    requires WellFounded(arena) && x in arena && a in Chain(arena, x)
    ensures IsGeneric(SetHasGenericComponent(arena, a, true), x)
    ensures (forall y :: y in Chain(arena, x) && y != a ==> !arena[y].hasGenericComponent) ==>
              !IsGeneric(SetHasGenericComponent(arena, a, false), x)
  {
    var c := Chain(arena, x);
    assert c[|c| - 1] == x;
    assert x in c;
    var k :| 0 <= k < |c| && c[k] == a;
    GenericFlagTakesEffect(arena, a, true, x);
    GenericFlagTakesEffect(arena, a, false, x);
  }

  /** Assigning `containedTypes` does not move the container: its chain,
      name and genericity stay as they were, so every adopted child's
      `parentName` matches its parent's current name. */
  lemma AssignKeepsContainer(arena: Arena, container: Id, children: seq<Id>)
    requires WellFounded(arena) && container in arena
    requires forall c :: c in children ==> c in arena && c !in Chain(arena, container)
    ensures Chain(AssignContainedTypes(arena, container, children), container) == Chain(arena, container)
    ensures Name(AssignContainedTypes(arena, container, children), container) == Name(arena, container)
    ensures IsGeneric(AssignContainedTypes(arena, container, children), container) == IsGeneric(arena, container)
    ensures forall c :: c in children ==>
              && AssignContainedTypes(arena, container, children)[c].parent == Some(container)
              && AssignContainedTypes(arena, container, children)[c].parentName
                   == Some(Name(AssignContainedTypes(arena, container, children), container))
  {
    var r := AssignContainedTypes(arena, container, children);
    var c := Chain(arena, container);
    forall y | y in c
      ensures y in r && r[y].parent == arena[y].parent && r[y].localName == arena[y].localName
      ensures r[y].hasGenericComponent == arena[y].hasGenericComponent
    {
      if y != container {
        assert y !in children;
        assert r[y] == arena[y];
      }
    }
    assert SameAncestry(arena, r, container);
    AncestryDetermines(arena, r, container);
  }

  /** Children dropped from `containedTypes` are not detached: they keep
      their `parent` (possibly still the container) and their `parentName`. */
  lemma ReplacedChildrenKeepParent(arena: Arena, container: Id, children: seq<Id>, old_child: Id)
    requires WellFounded(arena) && container in arena
    requires forall c :: c in children ==> c in arena && c !in Chain(arena, container)
    requires old_child in arena[container].containedTypes && old_child in arena
    requires old_child !in children && old_child != container
    ensures old_child !in AssignContainedTypes(arena, container, children)[container].containedTypes
    ensures AssignContainedTypes(arena, container, children)[old_child].parent == arena[old_child].parent
    ensures AssignContainedTypes(arena, container, children)[old_child].parentName == arena[old_child].parentName
  {
  }

  /** Three nested declarations created parent first: the innermost one's
      qualified name has three components, its `parentName` is its parent's
      full name, and it is generic exactly when one of the three has a
      generic component. */
  lemma NestedParentFirst(arena: Arena, a: Id, b: Id, c: Id, nameA: string, nameB: string, nameC: string,
                          genA: bool, genB: bool, genC: bool, a1: Arena, a2: Arena, a3: Arena)
    requires WellFounded(arena) && a !in arena && b !in arena && c !in arena
    requires a != b && b != c && a != c
    requires a1 == Init(arena, a, nameA, None, Internal, false, [], [], [], [], map[], genA)
    requires a2 == Init(a1, b, nameB, Some(a), Internal, false, [], [], [], [], map[], genB)
    requires a3 == Init(a2, c, nameC, Some(b), Internal, false, [], [], [], [], map[], genC)
    ensures Name(a3, c) == nameA + "." + nameB + "." + nameC
    ensures a3[c].parentName == Some(nameA + "." + nameB)
    ensures IsGeneric(a3, c) <==> genA || genB || genC
  {
  }

  /** Three nested declarations created children first, as a parser does:
      the leaf's qualified name follows the finished chain, but its
      `parentName` keeps the name its parent had when it adopted the leaf,
      so it no longer matches the parent's current name. */
  lemma ParentNameIsSnapshot(arena: Arena, leaf: Id, inner: Id, outer: Id, innerName: string, outerName: string,
                             a2: Arena, a3: Arena)
    requires WellFounded(arena) && leaf in arena && arena[leaf].parent.None?
    requires inner !in arena && outer !in arena && inner != outer
    requires a2 == Init(arena, inner, innerName, None, Internal, false, [], [], [], [leaf], map[], false)
    requires a3 == Init(a2, outer, outerName, None, Internal, false, [], [], [], [inner], map[], false)
    ensures Name(a3, leaf) == outerName + "." + innerName + "." + arena[leaf].localName
    ensures a3[inner].parentName == Some(outerName)
    ensures a3[leaf].parentName == Some(innerName)
    ensures a3[leaf].parentName != Some(Name(a3, inner))
  {
    assert leaf != outer;
    assert a3[leaf] == a2[leaf];
    NameOfGrandchild(a3, leaf, inner, outer);
  }

  /** Two levels of `name`'s recursion at once. */
  lemma NameOfGrandchild(arena: Arena, x: Id, p: Id, g: Id)
    requires WellFounded(arena) && x in arena && p in arena && g in arena
    requires arena[x].parent == Some(p) && arena[p].parent == Some(g)
    ensures Name(arena, x) == Name(arena, g) + "." + arena[p].localName + "." + arena[x].localName
  {
  }
}
