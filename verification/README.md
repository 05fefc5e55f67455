# Sourcery `Type` in Dafny

Sourcery parses Swift sources into a model of declarations. `Type`
(`Sourcery/Models/Type.swift`) is one parsed class, struct or extension: a
local name, an access level, its instance and static variables, the names it
inherits from, its annotations, and links to the declarations it contains and
to the one that encloses it. It derives its qualified `name` and its
`isGeneric` flag by walking up the enclosing declarations. The property
observers on `containedTypes` and `parent` keep the back links and the
`parentName` snapshot in step. `extend(_:)` folds an extension fragment into
the primary declaration.

The model has these modules:

- `Wrappers`: the `Option` type.
- `Sequences`: duplicate-free sequences and `Distinct`, the de-duplication
  behind `Array(Set(...))`. It also has order-preserving interleavings and
  joining strings with a separator.
- `TypeModel`: the declaration record `Decl`, `Kind`, the computed/stored
  split of the variables, and `Extend`. `OverwriteKeyByKey` is the
  annotation merge written as a loop over the keys in arbitrary order.
- `TypeGraph`: declarations live in an arena `map<Id, Decl>`. An `Id` stands
  for object identity, and `parent` and `containedTypes` hold handles. Here
  are the ancestor chain, `Name`, `IsGeneric`, and the facts about
  well-founded parent links.
- `TypeWiring`: the mutators as arena-to-arena functions. These are the
  `parent` observer (`SetParent`), the `containedTypes` observer
  (`AdoptChildren`, `AssignContainedTypes`), the initializer (`Init`), the
  plain `hasGenericComponent` setter, and `extend` on an arena
  (`ExtendInArena`).
- `ModelProperties` and `GraphProperties`: lemmas relating the operations.

The source relies on its callers never to build a cycle of `parent` links.
The model makes this a precondition, `WellFounded`: some rank map strictly
decreases along every parent link. Every mutator that creates a link requires
the new child not to be an ancestor of (or equal to) the new parent, and
proves the arena stays well founded.

Swift does not run property observers during `init`. So the initializer sets
`parentName` by hand (line 88) and adopts the contained declarations by hand
(line 93). `Init` follows those lines in order. The adopted children's
`parentName` is therefore the new declaration's name once its own parent is
set.

## Model

| member | source | states |
|---|---|---|
| TypeModel.Kind | Sourcery/Models/Type.swift:12 | The kind is "extension" exactly for extensions and "class" exactly for everything else. |
| TypeModel.ComputedVariables | Sourcery/Models/Type.swift:39-41 | Holds exactly the instance variables that are computed. |
| TypeModel.StoredVariables | Sourcery/Models/Type.swift:44-46 | Holds exactly the instance variables that are not computed. |
| ModelProperties.VariablesPartition | Sourcery/Models/Type.swift:39-46 | The computed and stored variables partition the instance variables. They are disjoint, their multisets add up to the instance variables, their lengths add up, and merging them in order gives back the original sequence, so both filters keep source order. |
| ModelProperties.SelectAppend | Sourcery/Models/Type.swift:39-46 | Filtering a concatenation is concatenating the filtered parts. |
| ModelProperties.ExtendSplitsAppended | Sourcery/Models/Type.swift:100 | After a merge, the computed (stored) variables are the old computed (stored) ones followed by the fragment's. |
| TypeModel.Extend | Sourcery/Models/Type.swift:99-104 | Variables become the old ones followed by the fragment's, with no de-duplication. The annotation keys become the union, the fragment's value wins on a shared key, and other keys keep their value. Inherited names are duplicate-free with exactly the union as members. Every other field is unchanged. |
| TypeModel.OverwriteKeyByKey | Sourcery/Models/Type.swift:102 | Writing the incoming annotations one key at a time, in any order, yields the right-biased union of the two maps. |
| Sequences.Distinct | Sourcery/Models/Type.swift:103 | The result has no duplicates, has exactly the input's members, and is no longer than the input. |
| ModelProperties.ExtendTwice | Sourcery/Models/Type.swift:99-104 | Merging the same fragment twice appends its variables twice, so the merge is not idempotent when the fragment has variables. Annotations and the set of inherited names are as after one merge. |
| ModelProperties.ExtendExample | Sourcery/Models/Type.swift:99-104 | One concrete merge: variables [m1, m2], annotation "x" taken from the fragment, "y" added, and inherited names {Foo, Bar} with two entries. |
| TypeGraph.ChainLinks | Sourcery/Models/Type.swift:16-24 | The ancestor walk starts at a root, follows parent links one step at a time and ends at the declaration. |
| TypeGraph.ChainUnique | Sourcery/Models/Type.swift:16-24 | In a well-founded arena, any root-to-declaration walk along parent links is the ancestor chain. |
| TypeGraph.NameIsDottedPath | Sourcery/Models/Type.swift:16-19 | At any depth, `name` is the local names along the ancestor chain, root first, joined with '.'. |
| GraphProperties.AncestorNameIsPrefix | Sourcery/Models/Type.swift:16-19 | Every proper ancestor's name followed by '.' is a prefix of the descendant's name. |
| GraphProperties.NestedParentFirst | Sourcery/Models/Type.swift:79-94 | Three declarations created parent first: the innermost name is "A.B.C", its `parentName` is "A.B", and it is generic iff one of the three has a generic component. |
| TypeGraph.GenericIffFlagOnChain | Sourcery/Models/Type.swift:22-24 | `isGeneric` holds exactly when some declaration on the ancestor chain, itself included, has a generic component. |
| TypeGraph.AncestryDetermines | Sourcery/Models/Type.swift:16-24 | Chain, name and genericity of a declaration depend only on the links, local names and flags along its chain. |
| TypeWiring.SetHasGenericComponent | Sourcery/Models/Type.swift:70-72 | Setting the flag changes only that declaration's flag and leaves every parent chain unchanged. |
| GraphProperties.GenericFlagTakesEffect | Sourcery/Models/Type.swift:22-24 | Right after a flag is set, a declaration is generic iff the new flag is set and on its chain, or another flag on its chain is set. Nothing cached goes stale. |
| GraphProperties.GenericFlagOnAncestor | Sourcery/Models/Type.swift:22-24 | Setting an ancestor's flag makes every descendant generic at once. Clearing the only flag on a chain makes the declaration non-generic at once. |
| TypeWiring.SetParent | Sourcery/Models/Type.swift:64-68 | Only the child changes: its parent becomes the given one and `parentName` the new parent's name, or none when detached. The arena stays acyclic. Declarations outside the child's subtree keep chain, name and genericity. The child's new name and genericity follow the new parent. |
| TypeWiring.AdoptChildren | Sourcery/Models/Type.swift:53-55 | Every listed child gets the container as parent and the container's name as `parentName`. Nothing else changes, and the container's chain, name and genericity are unchanged. |
| TypeWiring.AssignContainedTypes | Sourcery/Models/Type.swift:52-56 | The list is replaced and every listed child is adopted. Each child's name becomes the container's name, '.', and the child's local name. Declarations neither listed nor the container are untouched. |
| GraphProperties.AssignKeepsContainer | Sourcery/Models/Type.swift:52-68 | Assigning the list does not move the container, and every adopted child's `parentName` equals the container's current name. |
| GraphProperties.ReplacedChildrenKeepParent | Sourcery/Models/Type.swift:52-56 | A child dropped from the list is not in the new list, yet keeps its `parent` and `parentName`. |
| TypeWiring.Init | Sourcery/Models/Type.swift:79-94 | Adds a fresh declaration with the given fields and `parentName` equal to its parent's name. Its name and genericity follow the parent. Each contained declaration is adopted with `parentName` equal to the new declaration's full name. Everything else is untouched, and the arena stays acyclic. |
| GraphProperties.ParentNameIsSnapshot | Sourcery/Models/Type.swift:58-68 | When declarations are created children first, the leaf's name follows the finished chain ("Outer.Inner.Leaf"). Its `parentName` keeps the parent's name at adoption ("Inner"), which no longer equals the parent's current name. |
| TypeWiring.ExtendInArena | Sourcery/Models/Type.swift:99-104 | Merging a fragment into a declaration of the arena changes only that declaration, as `Extend` says. No declaration's chain, name or genericity changes. |

## Left out

- `NSObject` inheritance, `import Foundation` and `super.init()` carry no behaviour of this class and are not modelled.
- `__parserData` is opaque parser state that nothing here reads, so it is not modelled.
- TypeModel.Extend: inherited type names and annotation keys are compared character by character, not by Unicode canonical equivalence as Swift's `String` equality, `Set<String>` and dictionary keys do. So two canonically equivalent names (a precomposed "é" and "e" followed by a combining accent) stay two entries in the model where Swift keeps one. The same holds for Sequences.Distinct and TypeModel.OverwriteKeyByKey.
- Annotation values are `NSObject` in the source. The model uses a closed `AnnotationValue` type (text, number, decimal, flag), because only the keys and which side wins matter.
- `Variable` is reduced to a name and the `isComputed` flag, and `AccessLevel` to a closed enumeration. Their own definitions are not part of this model.
- The `skipEquality` / `skipDescription` annotations drive code generation elsewhere and have no behaviour here.
- Sequences.Distinct: the order of `Array(Set(...))` is unspecified in Swift. The model picks first occurrences in order, and its contract (and `Extend`'s) promises only the member set and no duplicates.
- `annotations.forEach` visits keys in dictionary order. `OverwriteKeyByKey` chooses keys arbitrarily and proves the outcome does not depend on the order.
- Default argument values of `init` are not modelled: callers of `Init` pass every argument.
- Object identity is a caller-supplied fresh `Id`, and allocation is not modelled.
- TypeWiring.SetParent: requires the child not to be an ancestor of the new parent. The source would build a cycle, and `name` and `isGeneric` would then not terminate.
- TypeWiring.AdoptChildren: requires no listed child to be an ancestor of the container, for the same reason.
- TypeWiring.AssignContainedTypes: requires no listed child to be an ancestor of the container, for the same reason.
- TypeWiring.Init: requires the contained declarations not to be ancestors of the given parent, for the same reason.
- Reference semantics: in Swift, adopting a child mutates a shared object. The model returns a new arena in which the child's record is updated.
- Concurrency is not modelled: the class is not thread-safe and assumes single-threaded use.
