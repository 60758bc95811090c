/**
 * `TransformIterator` of ContainerUtil.h: a wrapped iterator plus a
 * function applied on dereference, and the dereferencing specialisation
 * built by `derefIter`.
 *
 * The wrapped iterator is modelled as a cursor `pos` into the sequence
 * `elems` it walks; `pos == |elems|` is the end position.
 */
module Iterators {
  import opened ContainerUtil

  class TransformIterator<A, B> {
    /** The sequence the wrapped iterator walks. */
    const elems: seq<A>
    /** The transformation applied on dereference (`fun`). */
    const fun: A -> B
    /** The position of the wrapped iterator (`iter`). */
    var pos: nat

    ghost predicate Valid()
      reads this
    {
      pos <= |elems|
    }

    /** The values the iterator still yields, in order: the transformed rest of the sequence. */
    ghost function Remaining(): (r: seq<B>)
      reads this
      requires Valid()
      ensures |r| == |elems| - pos
    {
      Mapped(elems[pos..], fun)
    }

    /** Wraps an iterator at position `pos` of `elems` with the transformation `f`. */
    constructor (elems: seq<A>, pos: nat, f: A -> B)
      requires pos <= |elems|
      ensures Valid()
      ensures this.elems == elems && this.pos == pos && this.fun == f
    {
      this.elems := elems;
      this.pos := pos;
      this.fun := f;
    }

    /** `operator==`: two iterators over the same sequence are equal when their wrapped iterators are. */
    predicate Equals(other: TransformIterator<A, B>)
      reads this, other
      requires other.elems == elems
      ensures Equals(other) <==> pos == other.pos
    {
      pos == other.pos
    }

    /** `operator!=`: the negation of `operator==`. */
    predicate NotEquals(other: TransformIterator<A, B>)
      reads this, other
      requires other.elems == elems
      ensures NotEquals(other) <==> !Equals(other)
    {
      pos != other.pos
    }

    /** `operator*`: the transformed current element, i.e. the first value still to be yielded. */
    function Deref(): (r: B)
      reads this
      requires Valid() && pos < |elems|
      ensures r == fun(elems[pos])
      ensures r == Remaining()[0]
    {
      fun(elems[pos])
    }

    /** Prefix `operator++`: advances the wrapped iterator; one value fewer remains. */
    method Increment()
      requires Valid() && pos < |elems|
      modifies this
      ensures Valid()
      ensures pos == old(pos) + 1
      ensures Remaining() == old(Remaining())[1..]
    {
      pos := pos + 1;
    }

    /** Postfix `operator++`: advances, and returns a copy of the iterator as it was. */
    method PostIncrement() returns (res: TransformIterator<A, B>)
      requires Valid() && pos < |elems|
      modifies this
      ensures fresh(res) && res.Valid()
      ensures res.elems == elems && res.fun == fun && res.pos == old(pos)
      ensures Valid() && pos == old(pos) + 1
    {
      res := new TransformIterator(elems, pos, fun);
      pos := pos + 1;
    }

    /** Prefix `operator--`: steps the wrapped iterator back; one more value remains. */
    method Decrement()
      requires Valid() && 0 < pos
      modifies this
      ensures Valid()
      ensures pos == old(pos) - 1
      ensures Remaining() == [fun(elems[pos])] + old(Remaining())
    {
      pos := pos - 1;
      assert elems[pos..] == [elems[pos]] + elems[pos + 1..];
    }

    /** Postfix `operator--`: steps back, and returns a copy of the iterator as it was. */
    method PostDecrement() returns (res: TransformIterator<A, B>)
      requires Valid() && 0 < pos
      modifies this
      ensures fresh(res) && res.Valid()
      ensures res.elems == elems && res.fun == fun && res.pos == old(pos)
      ensures Valid() && pos == old(pos) - 1
    {
      res := new TransformIterator(elems, pos, fun);
      pos := pos - 1;
    }
  }

  /** The transformation of `derefIter`: dereference the pointer. */
  function Target<T>(o: Obj<T>): T
  {
    o.target
  }

  /**
   * `derefIter`: a transforming iterator that yields the objects pointed to
   * instead of the pointers. Dereferencing a null pointer is undefined in
   * the source, so the pointers here are the non-null `Obj` values.
   */
  method DerefIter<T>(elems: seq<Obj<T>>, pos: nat) returns (it: TransformIterator<Obj<T>, T>)
    requires pos <= |elems|
    ensures fresh(it) && it.Valid()
    ensures it.elems == elems && it.pos == pos
    ensures it.fun == Target
    ensures forall i :: 0 <= i < |elems| ==> it.fun(elems[i]) == elems[i].target
    ensures it.Remaining() == Mapped(elems[pos..], Target)
  {
    it := new TransformIterator(elems, pos, Target);
  }

  /** Iterator capabilities, each one a refinement of the previous (the `std` tag hierarchy). */
  datatype Category = Input | Forward | Bidirectional | RandomAccess | Contiguous
  {
    function Rank(): nat
    {
      match this
      case Input => 0
      case Forward => 1
      case Bidirectional => 2
      case RandomAccess => 3
      case Contiguous => 4
    }

    /** `is_base_of_v<base tag, this tag>`: this capability includes `base`. */
    predicate DerivesFrom(base: Category)
    {
      Rank() >= base.Rank()
    }
  }

  /**
   * The category `iterator_traits` declares for a transforming iterator:
   * random access when the wrapped one is at least random access, otherwise
   * the wrapped one's own. A transformed value is not stored contiguously,
   * so a contiguous wrapped iterator yields only random access.
   */
  function TransformCategory(wrapped: Category): (c: Category)
    ensures wrapped.DerivesFrom(c)
    ensures !wrapped.DerivesFrom(RandomAccess) ==> c == wrapped
    ensures wrapped.DerivesFrom(RandomAccess) ==> c == RandomAccess
  {
    if wrapped.DerivesFrom(RandomAccess) then RandomAccess else wrapped
  }
}
