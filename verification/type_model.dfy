/** The record-level part of Sourcery's `Type` (Sourcery/Models/Type.swift):
    one parsed declaration fragment, its kind, its variable classification and
    the merge of an extension fragment into it. Links to other declarations
    are arena handles (`Id`); everything that follows those links lives in
    module TypeGraph. */
module TypeModel {
  import opened Wrappers
  import opened Sequences

  /** Handle of a declaration in the arena (stands for object identity). */
  type Id = nat

  datatype AccessLevel = Private | FilePrivate | Internal | Public | Open

  /** A member variable, reduced to what this model inspects. */
  datatype Variable = Variable(name: string, isComputed: bool)

  /** The scalar kinds an annotation written as `// sourcery: key = value` may carry. */
  datatype AnnotationValue = Text(text: string) | Number(number: int) | Decimal(decimal: real) | Flag(flag: bool)

  type Annotations = map<string, AnnotationValue>

  /** One declaration fragment: a primary declaration or an extension.
      `parent` is the back reference and `parentName` the textual
      snapshot of the parent's qualified name taken when `parent` was set. */
  datatype Decl = Decl(
    localName: string,
    isExtension: bool,
    accessLevel: AccessLevel,
    variables: seq<Variable>,
    staticVariables: seq<Variable>,
    inheritedTypes: seq<string>,
    containedTypes: seq<Id>,
    annotations: Annotations,
    hasGenericComponent: bool,
    parent: Option<Id>,
    parentName: Option<string>)

  /** The declaration keyword: "extension" exactly for extensions, "class" otherwise. */
  function Kind(d: Decl): (k: string)
    ensures k == "extension" <==> d.isExtension
    ensures k == "class" <==> !d.isExtension
  {
    if d.isExtension then "extension" else "class"
  }

  /** The variables of `vs` whose `isComputed` flag equals `computed`, in their order in `vs`. */
  function Select(vs: seq<Variable>, computed: bool): (r: seq<Variable>)
    ensures forall v :: v in r <==> v in vs && v.isComputed == computed
    ensures |r| <= |vs|
    decreases |vs|
  {
    if |vs| == 0 then []
    else if vs[0].isComputed == computed then [vs[0]] + Select(vs[1..], computed)
    else Select(vs[1..], computed)
  }

  /** Only the computed instance variables. */
  function ComputedVariables(d: Decl): (r: seq<Variable>)
    ensures forall v :: v in r <==> v in d.variables && v.isComputed
  {
    Select(d.variables, true)
  }

  /** Only the stored instance variables. */
  function StoredVariables(d: Decl): (r: seq<Variable>)
    ensures forall v :: v in r <==> v in d.variables && !v.isComputed
  {
    Select(d.variables, false)
  }

  /** Folds fragment `ext` into `d`: instance variables are appended,
      annotations of `ext` win key by key, inherited type names become the
      duplicate-free union. Nothing else of `d` changes. */
  function Extend(d: Decl, ext: Decl): (r: Decl)
    ensures r.variables == d.variables + ext.variables
    ensures r.annotations.Keys == d.annotations.Keys + ext.annotations.Keys
    ensures forall k :: k in ext.annotations ==> r.annotations[k] == ext.annotations[k]
    ensures forall k :: k in d.annotations && k !in ext.annotations ==> r.annotations[k] == d.annotations[k]
    ensures NoDuplicates(r.inheritedTypes)
    ensures forall t :: t in r.inheritedTypes <==> t in d.inheritedTypes || t in ext.inheritedTypes
    ensures r.localName == d.localName && r.isExtension == d.isExtension
    ensures r.accessLevel == d.accessLevel && r.staticVariables == d.staticVariables
    ensures r.containedTypes == d.containedTypes && r.hasGenericComponent == d.hasGenericComponent
    ensures r.parent == d.parent && r.parentName == d.parentName
  {
    d.(variables := d.variables + ext.variables,
       annotations := d.annotations + ext.annotations,
       inheritedTypes := Distinct(d.inheritedTypes + ext.inheritedTypes))
  }

  /** Writes every entry of `incoming` into `current`, one key at a time and
      in no particular order, as a dictionary `forEach` does. Whatever order
      the keys are visited in, the outcome is the union of the two maps with
      `incoming` winning on shared keys. */
  method OverwriteKeyByKey(current: Annotations, incoming: Annotations) returns (r: Annotations)
    ensures r.Keys == current.Keys + incoming.Keys
    ensures forall k :: k in incoming ==> r[k] == incoming[k]
    ensures forall k :: k in current && k !in incoming ==> r[k] == current[k]
    ensures r == current + incoming
  {
    r := current;
    var pending := incoming.Keys;
    while pending != {}
      invariant pending <= incoming.Keys
      invariant r.Keys == current.Keys + (incoming.Keys - pending)
      invariant forall k :: k in incoming.Keys - pending ==> r[k] == incoming[k]
      invariant forall k :: k in current && k !in incoming.Keys - pending ==> r[k] == current[k]
      decreases pending
    {
      var k :| k in pending;
      r := r[k := incoming[k]];
      pending := pending - {k};
    }
  }
}
