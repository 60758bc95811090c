/**
 * Generic container, cloning and equality utilities of ContainerUtil.h.
 *
 * Objects on the heap are modelled as `Obj(addr, target)`: `addr` is the
 * object's identity (what C++ compares with `==` on pointers) and `target`
 * is the value a dereference yields. A pointer, raw or owning, is a
 * `Ptr<T>`: `None` is `nullptr`. A container whose identity matters
 * (`&a == &b`) is a `Container(addr, elems)`.
 */
module ContainerUtil {
  import opened Wrappers
  import opened Orders

  type Addr = nat

  datatype Obj<T> = Obj(addr: Addr, target: T)

  type Ptr<T> = Option<Obj<T>>

  datatype Container<E> = Container(addr: Addr, elems: seq<E>)

  // ---------------------------------------------------------------------------
  //  contains / getIf / getOr
  // ---------------------------------------------------------------------------

  /** `std::find_if`: the index of the first element satisfying `pred`, or `|s|` (the end) if none does. */
  function FindIf<T>(s: seq<T>, pred: T -> bool): (k: nat)
    ensures k <= |s|
    ensures k < |s| ==> pred(s[k])
    ensures forall j :: 0 <= j < k ==> !pred(s[j])
  {
    if s == [] then 0
    else if pred(s[0]) then 0
    else 1 + FindIf(s[1..], pred)
  }

  /** `contains` on a generic container: a linear `std::find` for the element. */
  function Contains<T(==)>(s: seq<T>, x: T): (r: bool)
    ensures r <==> x in s
  {
    FindIf(s, y => y == x) != |s|
  }

  /** `contains` on a `std::set`: a lookup by `find`. */
  function ContainsElement<T>(s: set<T>, x: T): (r: bool)
    ensures r <==> s - {x} != s
  {
    x in s
  }

  /** `contains` on a map: looks for the key. */
  function ContainsKey<K, V>(m: map<K, V>, k: K): (r: bool)
    ensures r == ContainsElement(m.Keys, k)
  {
    k in m
  }

  /** The linear and the set overloads of `contains` agree on the same contents. */
  lemma ContainsOverloadsAgree<T>(s: seq<T>, x: T)
    ensures Contains(s, x) == ContainsElement(set y | y in s :: y, x)
  {
  }

  /** `getIf`: the first element satisfying `pred`, or null when there is none. */
  function GetIf<T>(s: seq<Ptr<T>>, pred: Ptr<T> -> bool): (r: Ptr<T>)
    ensures (forall i :: 0 <= i < |s| ==> !pred(s[i])) ==> r == None
    ensures forall k :: 0 <= k < |s| && pred(s[k]) && (forall j :: 0 <= j < k ==> !pred(s[j])) ==> r == s[k]
  {
    var k := FindIf(s, pred);
    if k == |s| then None else s[k]
  }

  /** `getOr`: the value mapped to `key`, or `default` when the key is absent. */
  function GetOr<K, V>(m: map<K, V>, key: K, default: V): (r: V)
    ensures ContainsKey(m, key) ==> r == m[key]
    ensures !ContainsKey(m, key) ==> r == default
  {
    if key in m then m[key] else default
  }

  /** After an insertion, `getOr` finds the inserted value and every other lookup is as before. */
  lemma GetOrAfterInsert<K, V>(m: map<K, V>, key: K, v: V, other: K, default: V)
    ensures GetOr(m[key := v], key, default) == v
    ensures other != key ==> GetOr(m[key := v], other, default) == GetOr(m, other, default)
  {
  }

  // ---------------------------------------------------------------------------
  //  toPtrVector / map
  // ---------------------------------------------------------------------------

  /** `toPtrVector`: the raw pointer behind each owning pointer, same order, nulls kept. */
  method ToPtrVector<T>(v: seq<Ptr<T>>) returns (res: seq<Ptr<T>>)
    ensures |res| == |v|
    ensures forall i :: 0 <= i < |v| ==> res[i] == v[i]
  {
    res := [];
    var i := 0;
    while i < |v|
      invariant 0 <= i <= |v|
      invariant |res| == i
      invariant forall j :: 0 <= j < i ==> res[j] == v[j]
    {
      res := res + [v[i]];
      i := i + 1;
    }
  }

  /** Element-wise application of `f`, the value `map` computes. */
  function Mapped<A, B>(xs: seq<A>, f: A -> B): (ys: seq<B>)
    ensures |ys| == |xs|
  {
    seq(|xs|, i requires 0 <= i < |xs| => f(xs[i]))
  }

  /** `map`: applies `f` to every element, keeping length and order. */
  method Map<A, B>(xs: seq<A>, f: A -> B) returns (ys: seq<B>)
    ensures |ys| == |xs|
    ensures forall i :: 0 <= i < |xs| ==> ys[i] == f(xs[i])
    ensures ys == Mapped(xs, f)
  {
    ys := [];
    var i := 0;
    while i < |xs|
      invariant 0 <= i <= |xs|
      invariant |ys| == i
      invariant forall j :: 0 <= j < i ==> ys[j] == f(xs[j])
    {
      ys := ys + [f(xs[i])];
      i := i + 1;
    }
  }

  // ---------------------------------------------------------------------------
  //  clone
  // ---------------------------------------------------------------------------

  /** Every object in `xs` lives below address `heapTop` (it was allocated before). */
  ghost predicate AllocatedBelow<T>(xs: seq<Ptr<T>>, heapTop: Addr)
  {
    forall i :: 0 <= i < |xs| && xs[i].Some? ==> xs[i].value.addr < heapTop
  }

  /**
   * `ys` is a null-preserving clone of `xs` whose new objects were allocated
   * in the address interval [lo, hi), each at its own address.
   */
  ghost predicate IsCloneOf<T>(ys: seq<Ptr<T>>, xs: seq<Ptr<T>>, lo: Addr, hi: Addr)
  {
    && |ys| == |xs|
    && (forall i :: 0 <= i < |xs| ==> (ys[i].None? <==> xs[i].None?))
    && (forall i :: 0 <= i < |xs| && xs[i].Some? && ys[i].Some? ==>
          ys[i].value.target == xs[i].value.target && lo <= ys[i].value.addr < hi)
    && (forall i, j :: 0 <= i < j < |ys| && ys[i].Some? && ys[j].Some? ==> ys[i].value.addr != ys[j].value.addr)
  }

  /**
   * Both `clone` overloads (raw and owning pointers): each non-null entry is
   * replaced by a copy of its target at a newly allocated address, each null
   * entry stays null. `heapTop` is the first unused address; the result
   * `heapTop'` is the first one still unused afterwards.
   */
  method Clone<T>(xs: seq<Ptr<T>>, heapTop: Addr) returns (ys: seq<Ptr<T>>, heapTop': Addr)
    ensures heapTop <= heapTop'
    ensures IsCloneOf(ys, xs, heapTop, heapTop')
  {
    ys := [];
    heapTop' := heapTop;
    var i := 0;
    while i < |xs|
      invariant 0 <= i <= |xs|
      invariant heapTop <= heapTop'
      invariant IsCloneOf(ys, xs[..i], heapTop, heapTop')
    {
      if xs[i].Some? {
        ys := ys + [Some(Obj(heapTop', xs[i].value.target))];
        heapTop' := heapTop' + 1;
      } else {
        ys := ys + [None];
      }
      i := i + 1;
    }
    assert xs[..i] == xs;
  }

  /** A clone shares no object with its source: every copy lives at an address the source does not use. */
  lemma CloneDoesNotAlias<T>(ys: seq<Ptr<T>>, xs: seq<Ptr<T>>, lo: Addr, hi: Addr)
    requires AllocatedBelow(xs, lo)
    requires IsCloneOf(ys, xs, lo, hi)
    ensures forall i, j :: 0 <= i < |ys| && 0 <= j < |xs| && ys[i].Some? && xs[j].Some? ==>
              ys[i].value.addr != xs[j].value.addr
  {
  }

  // ---------------------------------------------------------------------------
  //  Equality utilities
  // ---------------------------------------------------------------------------

  /** `comp_deref`: equal targets, and false as soon as either side is null (null/null included). */
  function CompDeref<T(==)>(a: Ptr<T>, b: Ptr<T>): (r: bool)
    ensures r <==> a.Some? && b.Some? && a.value.target == b.value.target
  {
    if a.None? then false
    else if b.None? then false
    else a.value.target == b.value.target
  }

  /** `comp_deref` is a partial equivalence: symmetric, transitive, and reflexive exactly on non-null pointers. */
  lemma CompDerefPartialEquivalence<T>(a: Ptr<T>, b: Ptr<T>, c: Ptr<T>)
    ensures CompDeref(a, a) <==> a.Some?
    ensures CompDeref(a, b) == CompDeref(b, a)
    ensures CompDeref(a, b) && CompDeref(b, c) ==> CompDeref(a, c)
  {
  }

  /** `std::equal` over two ranges of equal length with a binary predicate. */
  function AllPairs<E>(xs: seq<E>, ys: seq<E>, comp: (E, E) -> bool): (r: bool)
    requires |xs| == |ys|
    ensures r <==> forall i :: 0 <= i < |xs| ==> comp(xs[i], ys[i])
  {
    if xs == [] then true
    else comp(xs[0], ys[0]) && AllPairs(xs[1..], ys[1..], comp)
  }

  /**
   * `equal_targets` (generic): the same container is always equal to itself;
   * otherwise sizes must agree and `comp` must hold position by position.
   */
  function EqualTargets<E>(a: Container<E>, b: Container<E>, comp: (E, E) -> bool): (r: bool)
    ensures a.addr == b.addr ==> r
    ensures a.addr != b.addr ==>
              (r <==> |a.elems| == |b.elems| && forall i :: 0 <= i < |a.elems| ==> comp(a.elems[i], b.elems[i]))
  {
    if a.addr == b.addr then true
    else if |a.elems| != |b.elems| then false
    else AllPairs(a.elems, b.elems, comp)
  }

  /** `equal_targets` on containers of raw or owning pointers: `comp_deref` element by element. */
  function EqualTargetsDeref<T(==)>(a: Container<Ptr<T>>, b: Container<Ptr<T>>): (r: bool)
    ensures a.addr == b.addr ==> r
    ensures a.addr != b.addr ==>
              (r <==> |a.elems| == |b.elems| &&
                      forall i :: 0 <= i < |a.elems| ==>
                        a.elems[i].Some? && b.elems[i].Some? && a.elems[i].value.target == b.elems[i].value.target)
  {
    EqualTargets(a, b, CompDeref)
  }

  /** Containers of different sizes are never equal unless they are the same container. */
  lemma EqualTargetsSizeShortCircuit<E>(a: Container<E>, b: Container<E>, comp: (E, E) -> bool)
    requires a.addr != b.addr && |a.elems| != |b.elems|
    ensures !EqualTargets(a, b, comp)
  {
  }

  /**
   * The identity short-cut is observable: a container holding a null is equal
   * to itself, yet equal to no other container at all, not even to one with
   * the very same contents.
   */
  lemma NullMakesDistinctContainersUnequal<T>(a: Container<Ptr<T>>, b: Container<Ptr<T>>, k: nat)
    requires k < |a.elems| && a.elems[k].None?
    ensures EqualTargetsDeref(a, a)
    ensures a.addr != b.addr ==> !EqualTargetsDeref(a, b)
  {
  }

  /**
   * A clone compares equal to its source under `equal_targets` exactly when
   * the source holds no null: a null slot survives cloning but `comp_deref`
   * never accepts it.
   */
  lemma {:induction false} CloneEqualIffNoNull<T>(xs: seq<Ptr<T>>, ys: seq<Ptr<T>>, lo: Addr, hi: Addr, a: Addr, b: Addr)
    requires IsCloneOf(ys, xs, lo, hi)
    requires a != b
    ensures EqualTargetsDeref(Container(a, xs), Container(b, ys)) <==> forall i :: 0 <= i < |xs| ==> xs[i].Some?
  {
    if forall i :: 0 <= i < |xs| ==> xs[i].Some? {
      forall i | 0 <= i < |xs|
        ensures CompDeref(xs[i], ys[i])
      {
        assert ys[i].Some?;
      }
    } else {
      var k :| 0 <= k < |xs| && xs[k].None?;
      assert !CompDeref(xs[k], ys[k]);
    }
  }

  // --- the map overload -------------------------------------------------------

  // A `std::map` is walked as its entries in ascending key order.

  /** Keys strictly ascending under `less`, hence unique. */
  predicate KeysAscending<K, V>(entries: seq<(K, V)>, less: (K, K) -> bool)
  {
    forall i, j :: 0 <= i < j < |entries| ==> less(entries[i].0, entries[j].0)
  }

  /** The dictionary an entry sequence stands for. */
  function ToMap<K, V>(entries: seq<(K, V)>): map<K, V>
  {
    if entries == [] then map[]
    else ToMap(entries[1..])[entries[0].0 := entries[0].1]
  }

  /** The map overload of `contains` agrees with a linear search of the map's keys. */
  lemma ContainsKeyAgrees<K, V>(entries: seq<(K, V)>, k: K)
    ensures ContainsKey(ToMap(entries), k) == Contains(Keys(entries), k)
  {
    ToMapDomain(entries);
  }

  /** The entry comparison of the map overload: equal keys and `comp_deref`-equal values. */
  function EntryEqual<K(==), V(==)>(x: (K, Ptr<V>), y: (K, Ptr<V>)): bool
  {
    x.0 == y.0 && CompDeref(x.1, y.1)
  }

  /** `equal_targets` on maps of owning pointers. */
  function EqualTargetsMap<K(==), V(==)>(a: Container<(K, Ptr<V>)>, b: Container<(K, Ptr<V>)>): (r: bool)
    ensures a.addr == b.addr ==> r
    ensures a.addr != b.addr ==>
              (r <==> |a.elems| == |b.elems| &&
                      forall i :: 0 <= i < |a.elems| ==>
                        a.elems[i].0 == b.elems[i].0 && CompDeref(a.elems[i].1, b.elems[i].1))
  {
    EqualTargets(a, b, EntryEqual)
  }

  /** The keys of an entry sequence, in order. */
  function Keys<K, V>(entries: seq<(K, V)>): (ks: seq<K>)
    ensures |ks| == |entries|
    ensures forall i :: 0 <= i < |entries| ==> ks[i] == entries[i].0
  {
    seq(|entries|, i requires 0 <= i < |entries| => entries[i].0)
  }

  lemma {:induction false} ToMapDomain<K, V>(entries: seq<(K, V)>)
    ensures forall k :: k in ToMap(entries) <==> k in Keys(entries)
  {
    if entries != [] {
      ToMapDomain(entries[1..]);
      assert Keys(entries) == [entries[0].0] + Keys(entries[1..]);
    }
  }

  lemma {:induction false} ToMapAt<K(!new), V>(entries: seq<(K, V)>, i: nat, less: (K, K) -> bool)
    requires StrictOrder(less)
    requires KeysAscending(entries, less)
    requires i < |entries|
    ensures entries[i].0 in ToMap(entries) && ToMap(entries)[entries[i].0] == entries[i].1
  {
    if i > 0 {
      assert KeysAscending(entries[1..], less) by {
        forall x, y | 0 <= x < y < |entries| - 1
          ensures less(entries[1..][x].0, entries[1..][y].0)
        {
          assert entries[1..][x] == entries[x + 1] && entries[1..][y] == entries[y + 1];
        }
      }
      ToMapAt(entries[1..], i - 1, less);
      assert entries[1..][i - 1] == entries[i];
      assert less(entries[0].0, entries[i].0);
    }
  }

  lemma NonEmptyHasHead<K>(s: seq<K>)
    ensures s != [] ==> s[0] in s
  {
  }

  /** In a strictly ascending sequence the head precedes every other element. */
  lemma HeadIsLeast<K>(xs: seq<K>, less: (K, K) -> bool)
    requires xs != []
    requires forall i, j :: 0 <= i < j < |xs| ==> less(xs[i], xs[j])
    ensures forall k :: k in xs && k != xs[0] ==> less(xs[0], k)
  {
  }

  /** Two strictly ascending sequences with the same elements are the same sequence. */
  lemma {:induction false} AscendingSameElementsEqual<K(!new)>(xs: seq<K>, ys: seq<K>, less: (K, K) -> bool)
    requires StrictOrder(less)
    requires forall i, j :: 0 <= i < j < |xs| ==> less(xs[i], xs[j])
    requires forall i, j :: 0 <= i < j < |ys| ==> less(ys[i], ys[j])
    requires forall k :: k in xs <==> k in ys
    ensures xs == ys
  {
    NonEmptyHasHead(xs);
    NonEmptyHasHead(ys);
    if xs != [] && ys != [] {
      // each head occurs in the other sequence, so each head precedes the other unless they coincide
      HeadIsLeast(xs, less);
      HeadIsLeast(ys, less);
      assert xs[0] == ys[0];
      forall k
        ensures k in xs[1..] <==> k in ys[1..]
      {
        if k in xs[1..] {
          var i :| 0 <= i < |xs[1..]| && xs[1..][i] == k;
          assert less(xs[0], xs[i + 1]);
          assert k != ys[0];
          assert k in ys;
        }
        if k in ys[1..] {
          var j :| 0 <= j < |ys[1..]| && ys[1..][j] == k;
          assert less(ys[0], ys[j + 1]);
          assert k != xs[0];
          assert k in xs;
        }
      }
      AscendingSameElementsEqual(xs[1..], ys[1..], less);
      assert xs == [xs[0]] + xs[1..] && ys == [ys[0]] + ys[1..];
    }
  }

  /**
   * For two distinct maps, the map overload of `equal_targets` holds exactly
   * when the maps have the same keys and, key by key, `comp_deref`-equal
   * values. A map holding a null value therefore equals no other map.
   */
  lemma EqualTargetsMapMeansSameDictionary<K(!new), V>(a: Container<(K, Ptr<V>)>, b: Container<(K, Ptr<V>)>, less: (K, K) -> bool)
    requires StrictOrder(less)
    requires KeysAscending(a.elems, less) && KeysAscending(b.elems, less)
    requires a.addr != b.addr
    ensures EqualTargetsMap(a, b) <==>
              && ToMap(a.elems).Keys == ToMap(b.elems).Keys
              && forall k :: k in ToMap(a.elems) ==> CompDeref(ToMap(a.elems)[k], ToMap(b.elems)[k])
  {
    var ma, mb := ToMap(a.elems), ToMap(b.elems);
    ToMapDomain(a.elems);
    ToMapDomain(b.elems);
    if EqualTargetsMap(a, b) {
      assert Keys(a.elems) == Keys(b.elems);
      forall k | k in ma
        ensures CompDeref(ma[k], mb[k])
      {
        var i :| 0 <= i < |a.elems| && Keys(a.elems)[i] == k;
        ToMapAt(a.elems, i, less);
        ToMapAt(b.elems, i, less);
      }
    }
    if ma.Keys == mb.Keys && forall k :: k in ma ==> CompDeref(ma[k], mb[k]) {
      AscendingSameElementsEqual(Keys(a.elems), Keys(b.elems), less);
      forall i | 0 <= i < |a.elems|
        ensures EntryEqual(a.elems[i], b.elems[i])
      {
        assert Keys(a.elems)[i] == Keys(b.elems)[i];
        ToMapAt(a.elems, i, less);
        ToMapAt(b.elems, i, less);
      }
    }
  }

  /** A map holding a null value is equal to no other map, not even to an identical one. */
  lemma MapWithNullEqualsNoOtherMap<K, V>(a: Container<(K, Ptr<V>)>, b: Container<(K, Ptr<V>)>, k: nat)
    requires k < |a.elems| && a.elems[k].1.None?
    requires a.addr != b.addr
    ensures !EqualTargetsMap(a, b)
  {
  }

  // --- castEq -------------------------------------------------------------------

  /** The concrete node kinds a base-typed pointer may point to; `Node` is the common base type. */
  datatype NodeKind = Node | Relation | Attribute | FunctionalConstraint

  /** `dynamic_cast` to `toType` succeeds on an object of kind `k`: the kind itself, or the base type. */
  predicate NarrowsTo(k: NodeKind, toType: NodeKind)
  {
    toType == Node || k == toType
  }

  /**
   * `castEq`: both pointers must narrow to `toType` (a null one never does),
   * and then they are equal when they point to the same object. Each
   * object's target is its runtime kind.
   */
  function CastEq(toType: NodeKind, left: Ptr<NodeKind>, right: Ptr<NodeKind>): (r: bool)
    ensures r ==> left.Some? && right.Some? && left.value.addr == right.value.addr
    ensures r ==> NarrowsTo(left.value.target, toType) && NarrowsTo(right.value.target, toType)
    ensures left.Some? && right.Some? && NarrowsTo(left.value.target, toType) && NarrowsTo(right.value.target, toType) ==>
              (r <==> left.value.addr == right.value.addr)
  {
    match left
    case None => false
    case Some(l) =>
      if !NarrowsTo(l.target, toType) then false
      else match right
        case None => false
        case Some(rt) => NarrowsTo(rt.target, toType) && l.addr == rt.addr
  }

  /** `castEq` is symmetric, and an object is `castEq` to itself exactly when it narrows to `toType`. */
  lemma CastEqSymmetricAndReflexive(toType: NodeKind, p: Ptr<NodeKind>, q: Ptr<NodeKind>)
    ensures CastEq(toType, p, q) == CastEq(toType, q, p)
    ensures CastEq(toType, p, p) <==> p.Some? && NarrowsTo(p.value.target, toType)
  {
  }
}
