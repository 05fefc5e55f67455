/** The mutating side of Sourcery's `Type` (Sourcery/Models/Type.swift) as
    arena-to-arena functions: the `parent` and `containedTypes` observers,
    the initializer, the plain `hasGenericComponent` setter, and `extend`
    applied to a declaration held in the arena. */
module TypeWiring {
  import opened Wrappers
  import opened TypeModel
  import opened TypeGraph

  /** `parent`'s observer: links `child` below `parent` (or detaches it) and
      snapshots the new parent's qualified name into `parentName`, read after
      the link is in place. Only `child` changes, and every declaration outside
      the subtree of `child` keeps its chain, name and genericity. */
  function SetParent(arena: Arena, child: Id, parent: Option<Id>): (r: Arena)
    requires WellFounded(arena) && child in arena
    requires parent.Some? ==> parent.value in arena && child !in Chain(arena, parent.value)
    ensures WellFounded(r) && r.Keys == arena.Keys
    ensures r[child] == arena[child].(parent := parent,
                                      parentName := if parent.Some? then Some(Name(arena, parent.value)) else None)
    ensures forall x {:trigger r[x]} :: x in arena && x != child ==> r[x] == arena[x]
    ensures forall x {:trigger Chain(r, x)} :: x in arena && child !in Chain(arena, x) ==> Chain(r, x) == Chain(arena, x)
    ensures forall x {:trigger Name(r, x)} :: x in arena && child !in Chain(arena, x) ==> Name(r, x) == Name(arena, x)
    ensures forall x {:trigger IsGeneric(r, x)} :: x in arena && child !in Chain(arena, x) ==> IsGeneric(r, x) == IsGeneric(arena, x)
    ensures Name(r, child) == if parent.Some? then Name(arena, parent.value) + "." + arena[child].localName
                              else arena[child].localName
    ensures IsGeneric(r, child) == ((parent.Some? && IsGeneric(arena, parent.value)) || arena[child].hasGenericComponent)
  {
    var linked := arena[child := arena[child].(parent := parent)];
    RelinkWellFounded(arena, child, parent);
    var snapshot :=
      if parent.Some? then
        OutsideSubtreeUnchanged(arena, linked, child, parent.value);
        Some(Name(linked, parent.value))
      else None;
    var r := linked[child := linked[child].(parentName := snapshot)];
    SameLinksWellFounded(linked, r);
    OutsideSubtreeAllUnchanged(arena, r, child);
    r
  }

  /** A declaration outside the subtree of `child` is unaffected by changes
      made to `child` alone. */
  lemma OutsideSubtreeUnchanged(arena: Arena, r: Arena, child: Id, x: Id)
    requires WellFounded(arena) && WellFounded(r) && x in arena
    requires r.Keys == arena.Keys
    requires forall y :: y in arena && y != child ==> r[y] == arena[y]
    requires child !in Chain(arena, x)
    ensures Chain(r, x) == Chain(arena, x) && Name(r, x) == Name(arena, x) && IsGeneric(r, x) == IsGeneric(arena, x)
  {
    AncestryDetermines(arena, r, x);
  }

  lemma OutsideSubtreeAllUnchanged(arena: Arena, r: Arena, child: Id)
    requires WellFounded(arena) && WellFounded(r)
    requires r.Keys == arena.Keys
    requires forall y :: y in arena && y != child ==> r[y] == arena[y]
    ensures forall x {:trigger Chain(r, x)} :: x in arena && child !in Chain(arena, x) ==> Chain(r, x) == Chain(arena, x)
    ensures forall x {:trigger Name(r, x)} :: x in arena && child !in Chain(arena, x) ==> Name(r, x) == Name(arena, x)
    ensures forall x {:trigger IsGeneric(r, x)} :: x in arena && child !in Chain(arena, x) ==> IsGeneric(r, x) == IsGeneric(arena, x)
  {
    forall x | x in arena && child !in Chain(arena, x)
      ensures Chain(r, x) == Chain(arena, x) && Name(r, x) == Name(arena, x) && IsGeneric(r, x) == IsGeneric(arena, x)
    {
      OutsideSubtreeUnchanged(arena, r, child, x);
    }
  }

  /** `forEach { $0.parent = container }`: each listed child in turn is linked
      below `container` and records `container`'s qualified name as its
      `parentName`. Declarations that are not listed are left as they were. */
  function AdoptChildren(arena: Arena, container: Id, children: seq<Id>): (r: Arena)
    requires WellFounded(arena) && container in arena
    requires forall c :: c in children ==> c in arena && c !in Chain(arena, container)
    ensures WellFounded(r) && r.Keys == arena.Keys
    ensures Chain(r, container) == Chain(arena, container) && Name(r, container) == Name(arena, container)
    ensures IsGeneric(r, container) == IsGeneric(arena, container)
    ensures forall c :: c in children ==>
              r[c] == arena[c].(parent := Some(container), parentName := Some(Name(arena, container)))
    ensures forall x {:trigger r[x]} :: x in arena && x !in children ==> r[x] == arena[x]
    decreases |children|
  {
    if |children| == 0 then arena
    else
      var next := SetParent(arena, children[0], Some(container));
      var r := AdoptChildren(next, container, children[1..]);
      AdoptStep(arena, next, r, container, children, Name(arena, container));
      r
  }

  /** The step of AdoptChildren: adopting the head and then the tail adopts every child. */
  lemma AdoptStep(arena: Arena, next: Arena, r: Arena, container: Id, children: seq<Id>, snapshot: string)
    requires |children| > 0
    requires arena.Keys == next.Keys == r.Keys
    requires forall c :: c in children ==> c in arena
    requires forall x :: x in arena && x != children[0] ==> next[x] == arena[x]
    requires next[children[0]] == arena[children[0]].(parent := Some(container), parentName := Some(snapshot))
    requires forall c :: c in children[1..] ==> r[c] == next[c].(parent := Some(container), parentName := Some(snapshot))
    requires forall x :: x in next && x !in children[1..] ==> r[x] == next[x]
    ensures forall c :: c in children ==> r[c] == arena[c].(parent := Some(container), parentName := Some(snapshot))
  {
    forall c | c in children
      ensures r[c] == arena[c].(parent := Some(container), parentName := Some(snapshot))
    {
      if c != children[0] {
        var i :| 0 <= i < |children| && children[i] == c;
        assert children[1..][i - 1] == c;
      }
    }
  }

  /** Assigning `containedTypes` of `container`: the list is replaced and its
      observer adopts every listed child. Children that are no longer listed
      keep whatever `parent` they had. */
  function AssignContainedTypes(arena: Arena, container: Id, children: seq<Id>): (r: Arena)
    requires WellFounded(arena) && container in arena
    requires forall c :: c in children ==> c in arena && c !in Chain(arena, container)
    ensures WellFounded(r) && r.Keys == arena.Keys
    ensures r[container] == arena[container].(containedTypes := children)
    ensures forall c :: c in children ==>
              r[c] == arena[c].(parent := Some(container), parentName := Some(Name(arena, container)))
    ensures forall c :: c in children ==> Name(r, c) == Name(arena, container) + "." + arena[c].localName
    ensures forall x {:trigger r[x]} :: x in arena && x != container && x !in children ==> r[x] == arena[x]
  {
    var listed := arena[container := arena[container].(containedTypes := children)];
    SameLinksWellFounded(arena, listed);
    AncestryDetermines(arena, listed, container);
    var r := AdoptChildren(listed, container, children);
    AssignSummary(arena, listed, r, container, children);
    r
  }

  /** Helper for AssignContainedTypes: its postcondition from the effects of
      replacing the list and of adopting the children. */
  lemma AssignSummary(arena: Arena, listed: Arena, r: Arena, container: Id, children: seq<Id>)
    requires WellFounded(arena) && WellFounded(listed) && WellFounded(r) && container in arena
    requires forall c :: c in children ==> c in arena && c !in Chain(arena, container)
    requires listed == arena[container := arena[container].(containedTypes := children)]
    requires r.Keys == listed.Keys
    requires Name(listed, container) == Name(arena, container)
    requires forall c :: c in children ==>
               r[c] == listed[c].(parent := Some(container), parentName := Some(Name(listed, container)))
    requires forall x {:trigger r[x]} :: x in listed && x !in children ==> r[x] == listed[x]
    requires Name(r, container) == Name(listed, container)
    ensures r[container] == arena[container].(containedTypes := children)
    ensures forall c :: c in children ==>
              r[c] == arena[c].(parent := Some(container), parentName := Some(Name(arena, container)))
    ensures forall c :: c in children ==> Name(r, c) == Name(arena, container) + "." + arena[c].localName
    ensures forall x {:trigger r[x]} :: x in arena && x != container && x !in children ==> r[x] == arena[x]
  {
    var c := Chain(arena, container);
    assert container !in children by {
      assert c[|c| - 1] == container;
      assert container in c;
    }
    ChildNames(r, container, children);
  }

  /** A child's qualified name extends its parent's by one component. */
  lemma ChildNames(arena: Arena, container: Id, children: seq<Id>)
    requires WellFounded(arena) && container in arena
    requires forall c :: c in children ==> c in arena && arena[c].parent == Some(container)
    ensures forall c :: c in children ==> Name(arena, c) == Name(arena, container) + "." + arena[c].localName
  {
  }

  /** The initializer: a fresh declaration `id` is added with the given
      fields, `parentName` is taken from `parent` and then every contained
      declaration is adopted by the new one. */
  function Init(arena: Arena, id: Id, name: string, parent: Option<Id>, accessLevel: AccessLevel,
                isExtension: bool, variables: seq<Variable>, staticVariables: seq<Variable>,
                inheritedTypes: seq<string>, containedTypes: seq<Id>, annotations: Annotations,
                hasGenericComponent: bool): (r: Arena)
    requires WellFounded(arena) && id !in arena
    requires parent.Some? ==> parent.value in arena
    requires forall c :: c in containedTypes ==> c in arena && (parent.Some? ==> c !in Chain(arena, parent.value))
    ensures WellFounded(r) && r.Keys == arena.Keys + {id}
    ensures r[id] == Decl(name, isExtension, accessLevel, variables, staticVariables, inheritedTypes,
                          containedTypes, annotations, hasGenericComponent, parent,
                          if parent.Some? then Some(Name(arena, parent.value)) else None)
    ensures Name(r, id) == if parent.Some? then Name(arena, parent.value) + "." + name else name
    ensures IsGeneric(r, id) == ((parent.Some? && IsGeneric(arena, parent.value)) || hasGenericComponent)
    ensures forall c :: c in containedTypes ==>
              r[c] == arena[c].(parent := Some(id), parentName := Some(Name(r, id)))
    ensures forall x {:trigger r[x]} :: x in arena && x !in containedTypes ==> r[x] == arena[x]
  {
    var d := Decl(name, isExtension, accessLevel, variables, staticVariables, inheritedTypes,
                  containedTypes, annotations, hasGenericComponent, parent,
                  if parent.Some? then Some(Name(arena, parent.value)) else None);
    InsertFacts(arena, id, d);
    var r := AdoptChildren(arena[id := d], id, containedTypes);
    assert id !in containedTypes;
    FreshFrame(arena, id, d, r, containedTypes);
    r
  }

  /** Helper for Init: what was already in the arena and is not adopted is untouched. */
  lemma FreshFrame(arena: Arena, id: Id, d: Decl, r: Arena, children: seq<Id>)
    requires id !in arena && r.Keys == arena[id := d].Keys
    requires forall x {:trigger r[x]} :: x in arena[id := d] && x !in children ==> r[x] == arena[id := d][x]
    ensures r.Keys == arena.Keys + {id}
    ensures forall x {:trigger r[x]} :: x in arena && x !in children ==> r[x] == arena[x]
  {
  }

  /** Helper for Init: inserting a fresh declaration gives it the chain, name
      and genericity its parent dictates, and leaves its parent's chain alone. */
  lemma InsertFacts(arena: Arena, id: Id, d: Decl)
    requires WellFounded(arena) && id !in arena
    requires d.parent.Some? ==> d.parent.value in arena
    ensures WellFounded(arena[id := d])
    ensures Chain(arena[id := d], id) == if d.parent.Some? then Chain(arena, d.parent.value) + [id] else [id]
    ensures Name(arena[id := d], id) == if d.parent.Some? then Name(arena, d.parent.value) + "." + d.localName else d.localName
    ensures IsGeneric(arena[id := d], id) == ((d.parent.Some? && IsGeneric(arena, d.parent.value)) || d.hasGenericComponent)
  {
    InsertWellFounded(arena, id, d);
    if d.parent.Some? {
      AncestryDetermines(arena, arena[id := d], d.parent.value);
    }
  }

  /** Plain assignment of `hasGenericComponent`; no observer, no cache. */
  function SetHasGenericComponent(arena: Arena, id: Id, flag: bool): (r: Arena)
    requires WellFounded(arena) && id in arena
    ensures WellFounded(r) && r.Keys == arena.Keys
    ensures r[id] == arena[id].(hasGenericComponent := flag)
    ensures forall x {:trigger r[x]} :: x in arena && x != id ==> r[x] == arena[x]
    ensures forall x {:trigger Chain(r, x)} :: x in arena ==> Chain(r, x) == Chain(arena, x)
  {
    var r := arena[id := arena[id].(hasGenericComponent := flag)];
    SameLinksWellFounded(arena, r);
    forall x | x in arena
      ensures Chain(r, x) == Chain(arena, x)
    {
      LinksDetermineChain(arena, r, x);
    }
    r
  }

  /** `target.extend(fragment)` on declarations held in the arena. Only
      `target` changes, and no declaration's chain, name or genericity does. */
  function ExtendInArena(arena: Arena, target: Id, fragment: Id): (r: Arena)
    requires WellFounded(arena) && target in arena && fragment in arena
    ensures WellFounded(r) && r.Keys == arena.Keys
    ensures r[target] == Extend(arena[target], arena[fragment])
    ensures forall x {:trigger r[x]} :: x in arena && x != target ==> r[x] == arena[x]
    ensures forall x {:trigger Chain(r, x)} :: x in arena ==> Chain(r, x) == Chain(arena, x)
    ensures forall x {:trigger Name(r, x)} :: x in arena ==> Name(r, x) == Name(arena, x)
    ensures forall x {:trigger IsGeneric(r, x)} :: x in arena ==> IsGeneric(r, x) == IsGeneric(arena, x)
  {
    var merged := Extend(arena[target], arena[fragment]);
    LocalEditPreservesAncestry(arena, target, merged);
    arena[target := merged]
  }

  /** Replacing one declaration by a record with the same parent link, local
      name and generic flag changes no declaration's chain, name or genericity. */
  lemma LocalEditPreservesAncestry(arena: Arena, id: Id, d: Decl)
    requires WellFounded(arena) && id in arena
    requires d.parent == arena[id].parent && d.localName == arena[id].localName
    requires d.hasGenericComponent == arena[id].hasGenericComponent
    ensures WellFounded(arena[id := d])
    ensures forall x {:trigger Chain(arena[id := d], x)} :: x in arena ==> Chain(arena[id := d], x) == Chain(arena, x)
    ensures forall x {:trigger Name(arena[id := d], x)} :: x in arena ==> Name(arena[id := d], x) == Name(arena, x)
    ensures forall x {:trigger IsGeneric(arena[id := d], x)} :: x in arena ==> IsGeneric(arena[id := d], x) == IsGeneric(arena, x)
  {
    var r := arena[id := d];
    SameLinksWellFounded(arena, r);
    forall x | x in arena
      ensures Chain(r, x) == Chain(arena, x) && Name(r, x) == Name(arena, x) && IsGeneric(r, x) == IsGeneric(arena, x)
    {
      AncestryDetermines(arena, r, x);
    }
  }
}
