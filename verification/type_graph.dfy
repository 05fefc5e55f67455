/** The object graph of Sourcery's `Type` (Sourcery/Models/Type.swift):
    declarations live in an arena keyed by handle and `parent` is a handle.
    This module holds the queries that walk the parent chain (`name`,
    `isGeneric`) and the facts about well-founded parent links that the
    setters in module TypeWiring rely on. */
module TypeGraph {
  import opened Wrappers
  import opened Sequences
  import opened TypeModel

  type Arena = map<Id, Decl>

  /** `rank` strictly decreases along every parent link, and every parent
      link points at a declaration of the arena. */
  ghost predicate RankedBy(arena: Arena, rank: map<Id, nat>) {
    forall x {:trigger arena[x]} :: x in arena ==>
      && x in rank
      && (arena[x].parent.Some? ==>
            && arena[x].parent.value in arena
            && arena[x].parent.value in rank
            && rank[arena[x].parent.value] < rank[x])
  }

  /** Every parent chain reaches a root: no cycles and no dangling parents.
      The source relies on callers for this; the model makes it a precondition. */
  ghost predicate WellFounded(arena: Arena) {
    exists rank :: RankedBy(arena, rank)
  }

  /** A ranking that witnesses well-foundedness, used as termination measure. */
  ghost function Rank(arena: Arena): (rank: map<Id, nat>)
    requires WellFounded(arena)
    ensures RankedBy(arena, rank)
  {
    var rank :| RankedBy(arena, rank); rank
  }

  /** The arena without declarations. */
  function EmptyArena(): (r: Arena)
    ensures WellFounded(r) && r.Keys == {}
  {
    assert RankedBy(map[], map[]);
    map[]
  }

  /** `c` lists a root, then each next element is a child of the previous one, ending at `id`. */
  ghost predicate IsChainTo(arena: Arena, c: seq<Id>, id: Id) {
    && |c| > 0
    && c[|c| - 1] == id
    && (forall i :: 0 <= i < |c| ==> c[i] in arena)
    && arena[c[0]].parent.None?
    && (forall i :: 0 <= i < |c| - 1 ==> arena[c[i + 1]].parent == Some(c[i]))
  }

  /** The ancestors of `id`, root first, ending with `id` itself. */
  function Chain(arena: Arena, id: Id): (c: seq<Id>)
    requires WellFounded(arena) && id in arena
    ensures |c| > 0 && c[|c| - 1] == id
    ensures forall i :: 0 <= i < |c| ==> c[i] in arena
    decreases Rank(arena)[id]
  {
    match arena[id].parent
    case None => [id]
    case Some(p) => Chain(arena, p) + [id]
  }

  /** `Chain` starts at a root and follows parent links down to `id`. */
  lemma {:induction false} ChainLinks(arena: Arena, id: Id)
    requires WellFounded(arena) && id in arena
    ensures IsChainTo(arena, Chain(arena, id), id)
    decreases Rank(arena)[id]
  {
    match arena[id].parent
    case None =>
    case Some(p) => ChainLinks(arena, p);
  }

  /** The local names of the declarations `ids`, in order. */
  function LocalNames(arena: Arena, ids: seq<Id>): (names: seq<string>)
    requires forall i :: 0 <= i < |ids| ==> ids[i] in arena
    ensures |names| == |ids|
    ensures forall i :: 0 <= i < |ids| ==> names[i] == arena[ids[i]].localName
  {
    seq(|ids|, i requires 0 <= i < |ids| => arena[ids[i]].localName)
  }

  /** Name in global scope: the parent's name, a '.', and the local name;
      just the local name for a declaration without parent. */
  function Name(arena: Arena, id: Id): string
    requires WellFounded(arena) && id in arena
    decreases Rank(arena)[id]
  {
    var d := arena[id];
    match d.parent
    case None => d.localName
    case Some(p) => Name(arena, p) + "." + d.localName
  }

  /** At any depth, the qualified name is the local names along the ancestor
      chain, root first, joined with '.'. */
  lemma {:induction false} NameIsDottedPath(arena: Arena, id: Id)
    requires WellFounded(arena) && id in arena
    ensures Name(arena, id) == JoinWith(LocalNames(arena, Chain(arena, id)), '.')
    decreases Rank(arena)[id]
  {
    var d := arena[id];
    match d.parent
    case None =>
    case Some(p) =>
      NameIsDottedPath(arena, p);
      var names := LocalNames(arena, Chain(arena, p));
      var all := LocalNames(arena, Chain(arena, id));
      assert Chain(arena, id) == Chain(arena, p) + [id];
      assert all == names + [d.localName];
      assert all[..|all| - 1] == names;
      assert JoinWith(all, '.') == JoinWith(names, '.') + "." + d.localName;
  }

  /** Some declaration on the ancestor chain of `id` (itself included)
      introduces generic parameters. */
  ghost predicate GenericOnChain(arena: Arena, id: Id)
    requires WellFounded(arena) && id in arena
  {
    exists a :: a in Chain(arena, id) && arena[a].hasGenericComponent
  }

  /** Whether the declaration is generic: its enclosing declaration is, or it
      has a generic component of its own. */
  function IsGeneric(arena: Arena, id: Id): bool
    requires WellFounded(arena) && id in arena
    decreases Rank(arena)[id]
  {
    var d := arena[id];
    match d.parent
    case None => d.hasGenericComponent
    case Some(p) => IsGeneric(arena, p) || d.hasGenericComponent
  }

  /** A declaration is generic exactly when some declaration on its ancestor
      chain, itself included, has a generic component. */
  lemma {:induction false} GenericIffFlagOnChain(arena: Arena, id: Id)
    requires WellFounded(arena) && id in arena
    ensures IsGeneric(arena, id) <==> GenericOnChain(arena, id)
    decreases Rank(arena)[id]
  {
    var d := arena[id];
    match d.parent
    case None =>
      assert Chain(arena, id) == [id];
    case Some(p) =>
      GenericIffFlagOnChain(arena, p);
      var c := Chain(arena, p);
      assert Chain(arena, id) == c + [id];
      if GenericOnChain(arena, p) {
        var a :| a in c && arena[a].hasGenericComponent;
        assert a in Chain(arena, id);
      }
      if GenericOnChain(arena, id) {
        var a :| a in Chain(arena, id) && arena[a].hasGenericComponent;
        if a != id {
          assert a in c;
        }
      }
  }

  /** Two arenas agree on the links and local data along the chain of `x`. */
  ghost predicate SameAncestry(a: Arena, b: Arena, x: Id)
    requires WellFounded(a) && x in a
  {
    forall y :: y in Chain(a, x) ==>
      && y in b
      && b[y].parent == a[y].parent
      && b[y].localName == a[y].localName
      && b[y].hasGenericComponent == a[y].hasGenericComponent
  }

  /** The chain is determined by the parent links: any chain to `id` is `Chain(arena, id)`. */
  lemma {:induction false} ChainUnique(arena: Arena, c: seq<Id>, id: Id)
    requires WellFounded(arena) && IsChainTo(arena, c, id)
    ensures id in arena && c == Chain(arena, id)
    decreases |c|
  {
    if |c| > 1 {
      var init := c[..|c| - 1];
      var p := c[|c| - 2];
      assert arena[id].parent == Some(p);
      assert IsChainTo(arena, init, p);
      ChainUnique(arena, init, p);
    }
  }

  /** The chain of `x` only depends on the parent links along it. */
  lemma LinksDetermineChain(a: Arena, b: Arena, x: Id)
    requires WellFounded(a) && WellFounded(b) && x in a
    requires forall y :: y in Chain(a, x) ==> y in b && b[y].parent == a[y].parent
    ensures x in b && Chain(b, x) == Chain(a, x)
  {
    ChainLinks(a, x);
    var c := Chain(a, x);
    assert c[|c| - 1] in c;
    assert c[0] in c;
    forall i | 0 <= i < |c| - 1
      ensures b[c[i + 1]].parent == Some(c[i])
    {
      assert c[i + 1] in c;
    }
    forall i | 0 <= i < |c|
      ensures c[i] in b
    {
      assert c[i] in c;
    }
    assert IsChainTo(b, c, x);
    ChainUnique(b, c, x);
  }

  /** Chain, name and genericity of `x` only depend on its ancestry. */
  lemma AncestryDetermines(a: Arena, b: Arena, x: Id)
    requires WellFounded(a) && WellFounded(b) && x in a
    requires SameAncestry(a, b, x)
    ensures x in b
    ensures Chain(b, x) == Chain(a, x)
    ensures Name(b, x) == Name(a, x)
    ensures IsGeneric(b, x) == IsGeneric(a, x)
  {
    LinksDetermineChain(a, b, x);
    AncestryDeterminesName(a, b, x);
    AncestryDeterminesGeneric(a, b, x);
  }

  lemma AncestryDeterminesName(a: Arena, b: Arena, x: Id)
    requires WellFounded(a) && WellFounded(b) && x in a && x in b
    requires SameAncestry(a, b, x) && Chain(b, x) == Chain(a, x)
    ensures Name(b, x) == Name(a, x)
  {
    var c := Chain(a, x);
    NameIsDottedPath(a, x);
    NameIsDottedPath(b, x);
    assert LocalNames(b, c) == LocalNames(a, c);
  }

  lemma AncestryDeterminesGeneric(a: Arena, b: Arena, x: Id)
    requires WellFounded(a) && WellFounded(b) && x in a && x in b
    requires SameAncestry(a, b, x) && Chain(b, x) == Chain(a, x)
    ensures IsGeneric(b, x) == IsGeneric(a, x)
  {
    var c := Chain(a, x);
    GenericIffFlagOnChain(a, x);
    GenericIffFlagOnChain(b, x);
    if GenericOnChain(a, x) {
      var g :| g in c && a[g].hasGenericComponent;
      assert b[g].hasGenericComponent;
    }
    if GenericOnChain(b, x) {
      var g :| g in c && b[g].hasGenericComponent;
      assert a[g].hasGenericComponent;
    }
  }

  /** An arena with the same keys and the same parent links is well founded too. */
  lemma SameLinksWellFounded(a: Arena, b: Arena)
    requires WellFounded(a)
    requires a.Keys == b.Keys
    requires forall x :: x in a ==> b[x].parent == a[x].parent
    ensures WellFounded(b)
  {
    assert RankedBy(b, Rank(a));
  }

  /** Re-linking `child` below `parent` keeps the arena well founded provided
      `child` is not an ancestor of (or equal to) `parent`. The subtree of
      `child` is lifted above the new parent's rank. */
  lemma RelinkWellFounded(arena: Arena, child: Id, parent: Option<Id>)
    requires WellFounded(arena) && child in arena
    requires parent.Some? ==> parent.value in arena && child !in Chain(arena, parent.value)
    ensures WellFounded(arena[child := arena[child].(parent := parent)])
  {
    var rank := Rank(arena);
    var lift := if parent.Some? then rank[parent.value] + 1 else 0;
    var rank' := map x | x in arena :: if child in Chain(arena, x) then rank[x] + lift else rank[x];
    var linked := arena[child := arena[child].(parent := parent)];
    forall x | x in linked
      ensures x in rank'
      ensures linked[x].parent.Some? ==>
                && linked[x].parent.value in linked
                && linked[x].parent.value in rank'
                && rank'[linked[x].parent.value] < rank'[x]
    {
      var cx := Chain(arena, x);
      assert cx[|cx| - 1] in cx;
      if x != child && linked[x].parent.Some? {
        var q := linked[x].parent.value;
        assert cx == Chain(arena, q) + [x];
      }
    }
    assert RankedBy(linked, rank');
  }

  /** Adding a fresh declaration whose parent (if any) is already present
      keeps the arena well founded. */
  lemma InsertWellFounded(arena: Arena, id: Id, d: Decl)
    requires WellFounded(arena) && id !in arena
    requires d.parent.Some? ==> d.parent.value in arena
    ensures WellFounded(arena[id := d])
  {
    var rank := Rank(arena);
    var rank' := rank[id := if d.parent.Some? then rank[d.parent.value] + 1 else 0];
    assert RankedBy(arena[id := d], rank');
  }
}
