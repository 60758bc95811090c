# Soufflé container utilities and the `Relation` node, modelled in Dafny

This project models two headers of the Soufflé Datalog compiler:

- `src/include/souffle/utility/ContainerUtil.h` covers `contains`, `getIf`, `getOr`, `toPtrVector`, `map`, the null-preserving vector `clone`, the equality kernel (`comp_deref`, `equal_targets` with its pointer and map overloads, `castEq`), `TransformIterator` with `derefIter`, and `range` with `empty` and `partition`.
- `src/ast/Relation.h` covers the `Relation` declaration node, meaning its fields, their defaults and the accessors defined in the header. It also covers `NameComparison` and `UnorderedNameComparison`, the comparators behind `RelationSet` and `UnorderedRelationSet`.

Files and modules:

- `Wrappers.dfy`: `Option`, used for null pointers and `std::optional`.
- `Orders.dfy`: strict order and strict total order. These are the properties assumed of comparisons that come from outside the model (`std::less` on map keys, `lexicalLess` on names).
- `ContainerUtil.dfy`: the general, cloning and equality utilities.
  - A heap object is `Obj(addr, target)`. `addr` is its identity and `target` is what a dereference yields.
  - A pointer, raw or owning, is `Ptr<T> = Option<Obj<T>>`, with `None` standing for `nullptr`.
  - A container whose identity matters (`&a == &b`) is `Container(addr, elems)`.
  - A `std::map` is the sequence of its entries in ascending key order, which is the order `std::equal` walks.
  - Allocation is modelled by a heap-top counter, `heapTop`: the first unused address. `Clone` takes it and returns the updated value.
- `Iterators.dfy`: `TransformIterator` is a class whose cursor `pos` stands for the wrapped iterator.
  - `derefIter` is the same class specialised with the dereferencing function.
  - The iterator category declared by the `iterator_traits` specialisation is modelled as a function.
- `Ranges.dfy`: a range is a pair of positions `[a, b)`.
  - `Partition` keeps the source's two loops: it counts `n`, then cuts the range.
  - `Partition` is proved equal to the plan `Chunks`. Sub-range `p` of the plan has `n / np` elements, plus one when `p < n % np`.
- `AstRelation.dfy`: `Relation` is a class with the six fields of the header.
  - Its mutators state their whole new state through the snapshot `State()`.
  - `getAuxiliaryArity` keeps the source's counting loop.
  - The comparators take the name orderings as parameters.

## Model

| member | source | states |
|---|---|---|
| `ContainerUtil.FindIf` | src/include/souffle/utility/ContainerUtil.h:94-98 | the `std::find_if` position: the first element satisfying the predicate, or the end when none does |
| `ContainerUtil.Contains` | src/include/souffle/utility/ContainerUtil.h:68-71 | the linear `contains` is true exactly when the element occurs in the container |
| `ContainerUtil.ContainsElement` | src/include/souffle/utility/ContainerUtil.h:74-77 | the `std::set` overload is true iff erasing `x` would change the set, that is, iff `find` would locate it |
| `ContainerUtil.ContainsKey` | src/include/souffle/utility/ContainerUtil.h:85-88 | the map overload answers as the `std::set` overload does on the map's key set, so it is true iff removing `k` would change the keys |
| `ContainerUtil.ContainsOverloadsAgree` | src/include/souffle/utility/ContainerUtil.h:74-77 | the `std::set` overload answers the same as a linear search over the same elements |
| `ContainerUtil.ContainsKeyAgrees` | src/include/souffle/utility/ContainerUtil.h:85-88 | the map overload is true exactly when some entry has that key |
| `ContainerUtil.GetIf` | src/include/souffle/utility/ContainerUtil.h:94-99 | null when no element satisfies `pred`; otherwise the first element that does |
| `ContainerUtil.GetOr` | src/include/souffle/utility/ContainerUtil.h:104-114 | the mapped value when the key is present, the default otherwise |
| `ContainerUtil.GetOrAfterInsert` | src/include/souffle/utility/ContainerUtil.h:104-114 | after inserting a key, `getOr` finds its value, and lookups of other keys are unchanged |
| `ContainerUtil.ToPtrVector` | src/include/souffle/utility/ContainerUtil.h:139-146 | same length, and entry `i` is the pointer held by input `i`, so order and nulls are preserved |
| `ContainerUtil.Map` | src/include/souffle/utility/ContainerUtil.h:151-159 | same length and `ys[i] == f(xs[i])` for every `i` |
| `ContainerUtil.Clone` | src/include/souffle/utility/ContainerUtil.h:165-183 | same length; entry `i` is null iff input `i` is; otherwise it is a copy of the target at a newly allocated address distinct from every other copy |
| `ContainerUtil.CloneDoesNotAlias` | src/include/souffle/utility/ContainerUtil.h:165-183 | no object of a clone is an object of its source |
| `ContainerUtil.CloneEqualIffNoNull` | src/include/souffle/utility/ContainerUtil.h:165-183 | a clone is `equal_targets`-equal to its source exactly when the source holds no null |
| `ContainerUtil.CompDeref` | src/include/souffle/utility/ContainerUtil.h:407-417 | false when either side is null, null/null included; otherwise equality of the targets |
| `ContainerUtil.CompDerefPartialEquivalence` | src/include/souffle/utility/ContainerUtil.h:407-417 | `comp_deref` is symmetric and transitive, and it is reflexive exactly on non-null pointers |
| `ContainerUtil.AllPairs` | src/include/souffle/utility/ContainerUtil.h:435 | `std::equal` holds exactly when the comparator accepts every pair of corresponding elements |
| `ContainerUtil.EqualTargets` | src/include/souffle/utility/ContainerUtil.h:423-436 | true for the same container; otherwise true iff the sizes agree and `comp(a[i], b[i])` holds for every `i` |
| `ContainerUtil.EqualTargetsSizeShortCircuit` | src/include/souffle/utility/ContainerUtil.h:429-432 | two distinct containers of different sizes are never equal |
| `ContainerUtil.EqualTargetsDeref` | src/include/souffle/utility/ContainerUtil.h:442-454 | a container always equals itself (the `&a == &b` short-cut); two distinct pointer containers are equal iff they have the same size and every pair is non-null with equal targets |
| `ContainerUtil.NullMakesDistinctContainersUnequal` | src/include/souffle/utility/ContainerUtil.h:423-454 | a container holding a null equals itself but no other container |
| `ContainerUtil.EqualTargetsMap` | src/include/souffle/utility/ContainerUtil.h:460-466 | a map always equals itself (the `&a == &b` short-cut); two distinct maps are equal iff they have the same size and, entry by entry in key order, equal keys and `comp_deref`-equal values |
| `ContainerUtil.EqualTargetsMapMeansSameDictionary` | src/include/souffle/utility/ContainerUtil.h:460-466 | for two distinct key-sorted maps this holds iff both have the same key set and each key's values are `comp_deref`-equal |
| `ContainerUtil.MapWithNullEqualsNoOtherMap` | src/include/souffle/utility/ContainerUtil.h:460-466 | a map holding a null value equals no other map |
| `ContainerUtil.CastEq` | src/include/souffle/utility/ContainerUtil.h:393-401 | false unless both pointers are non-null and narrow to `toType`; then true iff they point to the same object |
| `ContainerUtil.CastEqSymmetricAndReflexive` | src/include/souffle/utility/ContainerUtil.h:393-401 | `castEq` is symmetric; a pointer is `castEq` to itself iff it is non-null and narrows |
| `Iterators.TransformIterator.constructor` | src/include/souffle/utility/ContainerUtil.h:205 | wraps the iterator at `pos` together with the function |
| `Iterators.TransformIterator.Equals` | src/include/souffle/utility/ContainerUtil.h:216-218 | equal iff the wrapped cursors are equal |
| `Iterators.TransformIterator.NotEquals` | src/include/souffle/utility/ContainerUtil.h:221-223 | the negation of `Equals` |
| `Iterators.TransformIterator.Deref` | src/include/souffle/utility/ContainerUtil.h:226-228 | `fun` applied to the current element, which is the first value still to be yielded |
| `Iterators.TransformIterator.Increment` | src/include/souffle/utility/ContainerUtil.h:236-239 | the cursor advances by one, and the remaining transformed values lose their head |
| `Iterators.TransformIterator.PostIncrement` | src/include/souffle/utility/ContainerUtil.h:241-245 | advances, and returns a fresh copy positioned where the iterator was |
| `Iterators.TransformIterator.Decrement` | src/include/souffle/utility/ContainerUtil.h:247-250 | the cursor steps back, and the element before it rejoins the remaining values |
| `Iterators.TransformIterator.PostDecrement` | src/include/souffle/utility/ContainerUtil.h:252-256 | steps back, and returns a fresh copy positioned where the iterator was |
| `Iterators.DerefIter` | src/include/souffle/utility/ContainerUtil.h:278-292 | the iterator's function is `Target`, so at every position it yields the target of the pointer there |
| `Iterators.TransformCategory` | src/include/souffle/utility/ContainerUtil.h:470-480 | the declared category is never stronger than the wrapped one; it equals the wrapped one unless that is stronger than random access |
| `Ranges.Range.Empty` | src/include/souffle/utility/ContainerUtil.h:332-334 | a range is empty iff it has no elements |
| `Ranges.Range.Partition` | src/include/souffle/utility/ContainerUtil.h:337-367 | the two loops compute exactly the plan `Chunks(np)`; the trailing push never fires |
| `Ranges.Range.Chunks` | src/include/souffle/utility/ContainerUtil.h:345-346 | the plan has `Min(n, np)` sub-ranges |
| `Ranges.ChunkStartClosedForm` | src/include/souffle/utility/ContainerUtil.h:345-356 | sub-range `p` starts `p * (n / np) + Min(p, n % np)` elements into the range |
| `Ranges.ChunkStartAtCount` | src/include/souffle/utility/ContainerUtil.h:353-365 | the last sub-range ends exactly at the end of the range |
| `Ranges.PlanShape` | src/include/souffle/utility/ContainerUtil.h:345-356 | with `s = n / np` and `r = n % np`, the offsets reach `n` after `Min(n, np)` sub-ranges, and every one of them is non-empty (`s >= 1`, or every one gets an extra element) |
| `Ranges.PlanStep` | src/include/souffle/utility/ContainerUtil.h:353-361 | when the cursor has moved the current sub-range's size past its start, it sits at the next offset, the plan grows by exactly `[last, cur)`, and the cursor is before the end of the next sub-range, or at the end of the range if none is left |
| `Ranges.PlanSizes` | src/include/souffle/utility/ContainerUtil.h:345-356 | sub-range `p` of a plan is well formed and holds `s + (p < r ? 1 : 0)` elements |
| `Ranges.PlanTiles` | src/include/souffle/utility/ContainerUtil.h:349-365 | the sub-ranges of a plan start at its origin, follow one another without gaps, and end at the last offset |
| `Ranges.TilesConcat` | src/include/souffle/utility/ContainerUtil.h:303-334 | ranges that tile `[x, y)` lie inside it and their elements, concatenated, are the elements of `[x, y)` |
| `Ranges.PartitionCount` | src/include/souffle/utility/ContainerUtil.h:345-365 | `Min(n, np)` sub-ranges, none empty; an empty range yields none |
| `Ranges.PartitionBalanced` | src/include/souffle/utility/ContainerUtil.h:345-356 | sub-range `p` has `n / np + 1` elements when `p < n % np` and `n / np` otherwise, so any two sizes differ by at most one |
| `Ranges.PartitionContiguous` | src/include/souffle/utility/ContainerUtil.h:349-365 | the first sub-range starts at `a`, each starts where the previous ended, and the last ends at `b` |
| `Ranges.PartitionCovers` | src/include/souffle/utility/ContainerUtil.h:337-367 | concatenating the elements of the sub-ranges gives back the elements of the range |
| `Ranges.PartitionExamples` | src/include/souffle/utility/ContainerUtil.h:337-367 | 10 elements in 3 parts give sizes 4, 3, 3; 2 elements in 5 parts give two singletons |
| `AstRelation.Relation.constructor` | src/ast/Relation.h:128-143 | a new relation has an empty name, no attributes, qualifiers or dependencies, representation `Default` and no delta-debug name |
| `AstRelation.Relation.GetQualifiedName` | src/ast/Relation.h:42-44 | the relation's name |
| `AstRelation.Relation.GetArity` | src/ast/Relation.h:53-55 | the arity is the number of attributes |
| `AstRelation.Relation.GetAuxiliaryArity` | src/ast/Relation.h:58-64 | the counting loop yields the number of lattice attributes, which never exceeds the arity |
| `AstRelation.LatticeCountBounds` | src/ast/Relation.h:58-64 | the auxiliary arity is at most the arity; it is 0 iff no attribute is a lattice, and equals the arity iff all are |
| `AstRelation.LatticeCountAppend` | src/ast/Relation.h:58-64 | one more attribute adds one to the auxiliary arity exactly when it is a lattice |
| `AstRelation.Relation.GetQualifiers` | src/ast/Relation.h:73-75 | the qualifier set |
| `AstRelation.Relation.AddQualifier` | src/ast/Relation.h:78-80 | returns true iff `q` was absent; afterwards `hasQualifier(q)` holds, the set is the old set plus `q`, and every other field is unchanged |
| `AstRelation.Relation.RemoveQualifier` | src/ast/Relation.h:83-85 | returns true iff `q` was present; afterwards `hasQualifier(q)` is false, the set is the old set minus `q`, and every other field is unchanged |
| `AstRelation.Relation.GetRepresentation` | src/ast/Relation.h:88-90 | the representation field |
| `AstRelation.Relation.SetRepresentation` | src/ast/Relation.h:93-95 | `getRepresentation` then yields the new value, and no other field changes |
| `AstRelation.Relation.HasQualifier` | src/ast/Relation.h:98-100 | membership in the qualifier set |
| `AstRelation.Relation.SetIsDeltaDebug` | src/ast/Relation.h:109-111 | `getIsDeltaDebug` then yields `Some(rel)`, and no other field changes |
| `AstRelation.Relation.GetIsDeltaDebug` | src/ast/Relation.h:113-115 | the optional delta-debug name (`None` on a new relation) |
| `AstRelation.AddQualifierTwice` | src/ast/Relation.h:78-80 | a second `addQualifier` of the same qualifier returns false and changes nothing |
| `AstRelation.RemoveQualifierTwice` | src/ast/Relation.h:83-85 | a second `removeQualifier` of the same qualifier returns false and changes nothing |
| `AstRelation.AddThenRemoveQualifier` | src/ast/Relation.h:78-85 | adding an absent qualifier and then removing it returns true twice and restores the relation |
| `AstRelation.NameComparison` | src/ast/Relation.h:153-160 | null is less than any non-null relation; a non-null is never less than null; null vs null is false; two non-null relations compare by `lexicalLess` on their names |
| `AstRelation.NameComparisonStrictOrder` | src/ast/Relation.h:153-160 | given a strict order on names, the comparator is irreflexive, asymmetric and transitive |
| `AstRelation.NameComparisonEquivalence` | src/ast/Relation.h:153-172 | given a strict total order on names, two pointers are equivalent iff both are null or both carry the same name |
| `AstRelation.UnorderedNameComparison` | src/ast/Relation.h:162-169 | the same null policy; two non-null relations compare by `<` on the index of their names |
| `AstRelation.UnorderedNameComparisonStrictWeakOrder` | src/ast/Relation.h:162-173 | irreflexive and transitive; two pointers are equivalent iff both are null or both name indices are equal |

## Left out

- `Own`, `VecOwn`, `mk`, destruction and `unique_ptr` ownership transfer (ContainerUtil.h:35-44): owning and raw pointers are both `Ptr`, because Dafny has no ownership to model.
- `reverse` (ContainerUtil.h:50-62) and the variadic `toVector` (ContainerUtil.h:121-134) are C++ template machinery with no logic of their own.
- `ContainerUtil.Clone`: the copy of a target is the same value at a new address. The deep copy that a node's own `clone()` performs is the node's business and is not part of this model.
- `TransformIterator::operator->` (ContainerUtil.h:231-233) is not modelled. With `derefIter` it is the address of the pointed-to object, which the model does not separate from the object (`Deref` yields it). With a transform that returns by value, `&**this` does not compile.
- `TransformIterator::operator[]` (ContainerUtil.h:258-260) calls `f` where the member is named `fun`, so any instantiation fails to compile. Random-access indexing is therefore not modelled.
- `Iterators.TransformIterator.Equals`: comparing iterators over different sequences is undefined in the source, so the model requires both to walk the same sequence.
- `Iterators.DerefIter`: the source dereferences without a null check, so the model only accepts non-null pointers.
- `make_range` (ContainerUtil.h:378-381) only constructs a `range`.
- `makeTransformIter` (ContainerUtil.h:268-272) only forwards to the `TransformIterator` constructor, which `Iterators.TransformIterator.constructor` models. The `IterDerefWrapper` alias (ContainerUtil.h:282-283) only names the type `DerefIter` returns.
- `TransformIterator`'s default constructor (ContainerUtil.h:204) and its copy and move assignment operators (ContainerUtil.h:212-213) are not modelled. A default-constructed iterator has no sequence to walk. In the model `fun` is `const`, so an assignment could not replace it.
- `Ranges.Range.Partition`: the precondition `np >= 1` excludes two failing cases. `np == 0` divides by zero (ContainerUtil.h:345). `np < 0` makes `res.reserve(np)` (ContainerUtil.h:348) convert `np` to a huge `size_t` and throw `std::length_error`. The `int` counters are unbounded, so overflow of the element count is not modelled.
- `castEq`'s runtime type test is modelled over the closed kind set `NodeKind`, with `Node` as the common base type. Multiple inheritance and pointer adjustment by casts are not modelled.
- `Relation(QualifiedName, SrcLocation)`, `setQualifiedName`, `addAttribute`, `setAttributes`, `getAttributes`, `addDependency`, `getFunctionalDependencies`, `apply`, `getChildren`, `equal`, `cloning` and `orderedRelationSet` are only declared in Relation.h (lines 39, 47-50, 67-70, 103-107, 120-125, 188). Their definitions are in Relation.cpp, which is not part of this model.
- `print` (Relation.h:118) is stream output.
- `unorderedRelationSet` (Relation.h:176-185) only builds a `std::set` with the comparator. The `std::set` itself is not modelled; `NameComparisonEquivalence` states which elements such a set treats as duplicates.
- QualifiedName.h is not part of this model. `lexicalLess` and `getIndex` are parameters of the comparators, and `NameComparisonStrictOrder` assumes `lexicalLess` is a strict order. `NameComparisonEquivalence` assumes it is a strict total order.
- RelationTag.h is not part of this model. Only `DEFAULT` is named in Relation.h, and the other enumerators only make the enumerations non-trivial.
- Attribute.h and FunctionalConstraint.h are not part of this model. An attribute keeps only its lattice flag.
- `SrcLocation` and the `Node` base class are not modelled.
