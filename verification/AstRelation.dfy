/**
 * The `Relation` declaration node of ast/Relation.h and the two comparators
 * that order relation pointers in `RelationSet` and `UnorderedRelationSet`.
 */
module AstRelation {
  import opened Wrappers
  import opened Orders

  /**
   * A qualified relation name such as `a.b`. Its two orderings (`lexicalLess`
   * and comparison of `getIndex()`) are defined in QualifiedName.h, which is
   * not part of this model; they enter the comparators as parameters.
   */
  datatype QualifiedName = QualifiedName(segments: seq<string>)

  /** The relation qualifiers of RelationTag.h (not part of this model; only the set semantics matter here). */
  datatype RelationQualifier = Input | Output | PrintSize | Overridable | Inline | NoInline | Magic | NoMagic

  /** The storage representations of RelationTag.h; `Default` is the one a new relation has. */
  datatype RelationRepresentation = Default | BTree | BTreeDelete | Brie | EqRel | Provenance | Info

  /** An attribute (column) of a relation; only its lattice flag matters to `Relation`. */
  datatype Attribute = Attribute(isLattice: bool)

  /** A functional dependency; its contents are not part of this model. */
  datatype FunctionalConstraint = FunctionalConstraint

  /** A snapshot of every field of a relation, to say in one place what a mutator changes. */
  datatype RelationState = RelationState(
    name: QualifiedName,
    attributes: seq<Attribute>,
    qualifiers: set<RelationQualifier>,
    functionalDependencies: seq<FunctionalConstraint>,
    representation: RelationRepresentation,
    isDeltaDebug: Option<QualifiedName>)

  /** The number of lattice attributes in `attrs`. */
  function LatticeCount(attrs: seq<Attribute>): nat
  {
    if attrs == [] then 0
    else LatticeCount(attrs[..|attrs| - 1]) + (if attrs[|attrs| - 1].isLattice then 1 else 0)
  }

  /**
   * The auxiliary arity never exceeds the arity; it is zero exactly when no
   * attribute is a lattice and equals the arity exactly when all are.
   */
  lemma {:induction false} LatticeCountBounds(attrs: seq<Attribute>)
    ensures LatticeCount(attrs) <= |attrs|
    ensures LatticeCount(attrs) == 0 <==> forall i :: 0 <= i < |attrs| ==> !attrs[i].isLattice
    ensures LatticeCount(attrs) == |attrs| <==> forall i :: 0 <= i < |attrs| ==> attrs[i].isLattice
  {
    if attrs != [] {
      var init := attrs[..|attrs| - 1];
      LatticeCountBounds(init);
      assert forall i :: 0 <= i < |init| ==> init[i] == attrs[i];
    }
  }

  /** Appending one attribute raises the auxiliary arity by one exactly when it is a lattice. */
  lemma LatticeCountAppend(attrs: seq<Attribute>, x: Attribute)
    ensures LatticeCount(attrs + [x]) == LatticeCount(attrs) + (if x.isLattice then 1 else 0)
  {
    assert (attrs + [x])[..|attrs|] == attrs;
  }

  class Relation {
    var name: QualifiedName
    var attributes: seq<Attribute>
    var qualifiers: set<RelationQualifier>
    var functionalDependencies: seq<FunctionalConstraint>
    var representation: RelationRepresentation
    var isDeltaDebug: Option<QualifiedName>

    ghost function State(): RelationState
      reads this
    {
      RelationState(name, attributes, qualifiers, functionalDependencies, representation, isDeltaDebug)
    }

    /**
     * The default constructor: an empty name, no attributes, qualifiers or
     * dependencies, the `Default` representation and no delta-debug relation.
     */
    constructor ()
      ensures State() == RelationState(QualifiedName([]), [], {}, [], Default, None)
    {
      name := QualifiedName([]);
      attributes := [];
      qualifiers := {};
      functionalDependencies := [];
      representation := Default;
      isDeltaDebug := None;
    }

    /** `getQualifiedName`. */
    function GetQualifiedName(): (n: QualifiedName)
      reads this
      ensures n == State().name
    {
      name
    }

    /** `getArity`: one column per attribute. */
    function GetArity(): (arity: nat)
      reads this
      ensures arity == |attributes|
    {
      |attributes|
    }

    /** `getAuxiliaryArity`: counts the lattice attributes; never more than the arity. */
    method GetAuxiliaryArity() returns (arity: nat)
      ensures arity == LatticeCount(attributes)
      ensures arity <= GetArity()
    {
      arity := 0;
      var i := 0;
      while i < |attributes|
        invariant 0 <= i <= |attributes|
        invariant arity == LatticeCount(attributes[..i])
      {
        LatticeCountAppend(attributes[..i], attributes[i]);
        assert attributes[..i + 1] == attributes[..i] + [attributes[i]];
        arity := arity + (if attributes[i].isLattice then 1 else 0);
        i := i + 1;
      }
      assert attributes[..i] == attributes;
      LatticeCountBounds(attributes);
    }

    /** `getQualifiers`. */
    function GetQualifiers(): (qs: set<RelationQualifier>)
      reads this
      ensures qs == State().qualifiers
    {
      qualifiers
    }

    /** `hasQualifier`: membership in the qualifier set. */
    predicate HasQualifier(q: RelationQualifier)
      reads this
      ensures HasQualifier(q) <==> q in GetQualifiers()
    {
      q in qualifiers
    }

    /** `addQualifier`: inserts `q`; reports whether it was absent. Nothing else changes. */
    method AddQualifier(q: RelationQualifier) returns (inserted: bool)
      modifies this
      ensures inserted <==> q !in old(qualifiers)
      ensures HasQualifier(q)
      ensures State() == old(State()).(qualifiers := old(qualifiers) + {q})
    {
      inserted := q !in qualifiers;
      qualifiers := qualifiers + {q};
    }

    /** `removeQualifier`: erases `q`; reports whether it was present. Nothing else changes. */
    method RemoveQualifier(q: RelationQualifier) returns (erased: bool)
      modifies this
      ensures erased <==> q in old(qualifiers)
      ensures !HasQualifier(q)
      ensures State() == old(State()).(qualifiers := old(qualifiers) - {q})
    {
      erased := q in qualifiers;
      qualifiers := qualifiers - {q};
    }

    /** `getRepresentation`. */
    function GetRepresentation(): (rep: RelationRepresentation)
      reads this
      ensures rep == State().representation
    {
      representation
    }

    /** `setRepresentation`: afterwards `getRepresentation` yields `rep`; nothing else changes. */
    method SetRepresentation(rep: RelationRepresentation)
      modifies this
      ensures GetRepresentation() == rep
      ensures State() == old(State()).(representation := rep)
    {
      representation := rep;
    }

    /** `setIsDeltaDebug`: afterwards `getIsDeltaDebug` yields `Some(rel)`; nothing else changes. */
    method SetIsDeltaDebug(rel: QualifiedName)
      modifies this
      ensures GetIsDeltaDebug() == Some(rel)
      ensures State() == old(State()).(isDeltaDebug := Some(rel))
    {
      isDeltaDebug := Some(rel);
    }

    /** `getIsDeltaDebug`. */
    function GetIsDeltaDebug(): (rel: Option<QualifiedName>)
      reads this
      ensures rel == State().isDeltaDebug
    {
      isDeltaDebug
    }
  }

  /** Adding a qualifier twice: the second call reports that it was already there and changes nothing. */
  method AddQualifierTwice(rel: Relation, q: RelationQualifier) returns (first: bool, second: bool)
    modifies rel
    ensures first <==> q !in old(rel.qualifiers)
    ensures !second
    ensures rel.State() == old(rel.State()).(qualifiers := old(rel.qualifiers) + {q})
  {
    first := rel.AddQualifier(q);
    second := rel.AddQualifier(q);
  }

  /** Removing a qualifier twice: the second call reports that it was already gone and changes nothing. */
  method RemoveQualifierTwice(rel: Relation, q: RelationQualifier) returns (first: bool, second: bool)
    modifies rel
    ensures first <==> q in old(rel.qualifiers)
    ensures !second
    ensures rel.State() == old(rel.State()).(qualifiers := old(rel.qualifiers) - {q})
  {
    first := rel.RemoveQualifier(q);
    second := rel.RemoveQualifier(q);
  }

  /** Adding then removing a qualifier that was absent restores the relation. */
  method AddThenRemoveQualifier(rel: Relation, q: RelationQualifier) returns (inserted: bool, erased: bool)
    requires !rel.HasQualifier(q)
    modifies rel
    ensures inserted && erased
    ensures rel.State() == old(rel.State())
  {
    inserted := rel.AddQualifier(q);
    erased := rel.RemoveQualifier(q);
  }

  // ---------------------------------------------------------------------------
  //  Comparators
  // ---------------------------------------------------------------------------

  /**
   * `NameComparison`: for two relations, `lexicalLess` on their names;
   * otherwise a null relation precedes every non-null one.
   */
  predicate NameComparison(x: Relation?, y: Relation?, lexicalLess: (QualifiedName, QualifiedName) -> bool)
    reads x, y
    ensures x == null ==> (NameComparison(x, y, lexicalLess) <==> y != null)
    ensures x != null && y == null ==> !NameComparison(x, y, lexicalLess)
    ensures x != null && y != null ==> (NameComparison(x, y, lexicalLess) <==> lexicalLess(x.name, y.name))
  {
    if x != null && y != null then lexicalLess(x.GetQualifiedName(), y.GetQualifiedName())
    else y != null
  }

  /**
   * Given a strict order on names, `NameComparison` is a strict order on
   * relation pointers: irreflexive, asymmetric and transitive.
   */
  lemma NameComparisonStrictOrder(x: Relation?, y: Relation?, z: Relation?, lexicalLess: (QualifiedName, QualifiedName) -> bool)
    requires StrictOrder(lexicalLess)
    ensures !NameComparison(x, x, lexicalLess)
    ensures NameComparison(x, y, lexicalLess) ==> !NameComparison(y, x, lexicalLess)
    ensures NameComparison(x, y, lexicalLess) && NameComparison(y, z, lexicalLess) ==> NameComparison(x, z, lexicalLess)
  {
  }

  /**
   * Given a strict total order on names, two relation pointers are
   * equivalent under `NameComparison` (neither precedes the other) exactly
   * when both are null or both name the same relation name; `RelationSet`
   * therefore keeps one relation per name and at most one null.
   */
  lemma NameComparisonEquivalence(x: Relation?, y: Relation?, lexicalLess: (QualifiedName, QualifiedName) -> bool)
    requires StrictTotalOrder(lexicalLess)
    ensures (!NameComparison(x, y, lexicalLess) && !NameComparison(y, x, lexicalLess)) <==>
              (x == null && y == null) || (x != null && y != null && x.name == y.name)
  {
  }

  /**
   * `UnorderedNameComparison`: for two relations, `<` on the indices of
   * their names; otherwise a null relation precedes every non-null one.
   */
  predicate UnorderedNameComparison(x: Relation?, y: Relation?, getIndex: QualifiedName -> int)
    reads x, y
    ensures x == null ==> (UnorderedNameComparison(x, y, getIndex) <==> y != null)
    ensures x != null && y == null ==> !UnorderedNameComparison(x, y, getIndex)
    ensures x != null && y != null ==> (UnorderedNameComparison(x, y, getIndex) <==> getIndex(x.name) < getIndex(y.name))
  {
    if x != null && y != null then getIndex(x.GetQualifiedName()) < getIndex(y.GetQualifiedName())
    else y != null
  }

  /**
   * `UnorderedNameComparison` is a strict weak order whatever the index:
   * irreflexive, transitive, and two pointers are equivalent exactly when
   * both are null or both names have the same index.
   */
  lemma UnorderedNameComparisonStrictWeakOrder(x: Relation?, y: Relation?, z: Relation?, getIndex: QualifiedName -> int)
    ensures !UnorderedNameComparison(x, x, getIndex)
    ensures UnorderedNameComparison(x, y, getIndex) && UnorderedNameComparison(y, z, getIndex) ==>
              UnorderedNameComparison(x, z, getIndex)
    ensures (!UnorderedNameComparison(x, y, getIndex) && !UnorderedNameComparison(y, x, getIndex)) <==>
              (x == null && y == null) || (x != null && y != null && getIndex(x.name) == getIndex(y.name))
  {
  }
}
