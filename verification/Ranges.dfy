/**
 * The `range` utility of ContainerUtil.h: a half-open range between two
 * iterators, and its partition into near-equal contiguous sub-ranges.
 *
 * Iterators are modelled as positions into the underlying sequence, so a
 * range is a pair of indices `[a, b)`; `a <= b` says that `b` is reachable
 * from `a` by incrementing, which the source's counting loop relies on.
 */
module Ranges {

  function Min(x: int, y: int): int
  {
    if x <= y then x else y
  }

  /**
   * The size of sub-range `p` with base size `s` and `r` extras: `s`, plus
   * one for each of the first `r` sub-ranges. The source takes
   * `s = n / np` and `r = n % np`.
   */
  function ChunkSize(s: nat, r: nat, p: nat): nat
  {
    s + (if p < r then 1 else 0)
  }

  /** The offset of sub-range `p` from the start of the range: the sizes of the sub-ranges before it. */
  function ChunkStart(s: nat, r: nat, p: nat): nat
  {
    if p == 0 then 0 else ChunkStart(s, r, p - 1) + ChunkSize(s, r, p - 1)
  }

  /** The number of sub-ranges produced: never more than `np`, and never an empty one. */
  function ChunkCount(n: nat, np: int): nat
    requires np >= 1
  {
    Min(n, np)
  }

  /** Closed form of the offsets: `p` sub-ranges of the base size, plus the extras handed out so far. */
  lemma {:induction false} ChunkStartClosedForm(s: nat, r: nat, p: nat)
    ensures ChunkStart(s, r, p) == p * s + Min(p, r)
  {
    if p > 0 {
      ChunkStartClosedForm(s, r, p - 1);
      assert p * s == (p - 1) * s + s;
    }
  }

  /** The sub-ranges end exactly at the end of the range. */
  lemma ChunkStartAtCount(n: nat, np: int)
    requires np >= 1
    ensures ChunkStart(n / np, n % np, ChunkCount(n, np)) == n
  {
    ChunkStartClosedForm(n / np, n % np, ChunkCount(n, np));
    if n < np {
      assert n / np == 0 && n % np == n;
    } else {
      assert n == np * (n / np) + n % np;
    }
  }

  /**
   * What the cutting loop of `partition` needs to know about the plan for `n`
   * elements in `np` parts: the offsets reach `n` after the last part, and
   * either the base size is positive or every part gets an extra element.
   */
  lemma PlanShape(n: nat, np: int, s: nat, r: nat)
    requires np >= 1 && s == n / np && r == n % np
    ensures ChunkStart(s, r, ChunkCount(n, np)) == n
    ensures s >= 1 || ChunkCount(n, np) <= r
  {
    ChunkStartAtCount(n, np);
    if n < np {
      assert n / np == 0 && n % np == n;
    } else {
      assert n == np * (n / np) + n % np;
    }
  }

  lemma {:induction false} ChunkStartMonotone(s: nat, r: nat, p: nat, q: nat)
    requires p <= q
    ensures ChunkStart(s, r, p) <= ChunkStart(s, r, q)
  {
    if p < q {
      ChunkStartMonotone(s, r, p, q - 1);
    }
  }

  /** The elements `s[c.a..c.b]` of every range `c` in `cs`, one range after another. */
  function Concat<T>(s: seq<T>, cs: seq<Range>): seq<T>
    requires forall c :: c in cs ==> c.a <= c.b <= |s|
  {
    if cs == [] then [] else s[cs[0].a..cs[0].b] + Concat(s, cs[1..])
  }

  /** Ranges that start at `x`, each one beginning where the previous one ended, and end at `y`. */
  predicate Tiles(cs: seq<Range>, x: nat, y: nat)
  {
    if cs == [] then x == y
    else
      && (forall i :: 0 <= i < |cs| ==> cs[i].a <= cs[i].b)
      && cs[0].a == x && cs[|cs| - 1].b == y
      && (forall i :: 0 <= i < |cs| - 1 ==> cs[i].b == cs[i + 1].a)
  }

  /** Dropping the first range of a tiling leaves a tiling of the rest. */
  lemma TilesTail(cs: seq<Range>, x: nat, y: nat)
    requires Tiles(cs, x, y) && cs != []
    ensures Tiles(cs[1..], cs[0].b, y)
  {
    if |cs| > 1 {
      assert cs[1..][0] == cs[1];
      assert forall i :: 0 <= i < |cs| - 1 ==> cs[1..][i] == cs[i + 1];
    }
  }

  lemma SliceSplit<T>(s: seq<T>, i: nat, j: nat, k: nat)
    requires i <= j <= k <= |s|
    ensures s[i..k] == s[i..j] + s[j..k]
  {
  }

  /** Ranges that tile `[x, y)` lie within `[x, y)` and concatenate back to `s[x..y]`. */
  lemma {:induction false} TilesConcat<T>(s: seq<T>, cs: seq<Range>, x: nat, y: nat)
    requires Tiles(cs, x, y) && y <= |s|
    ensures x <= y
    ensures forall c :: c in cs ==> c.a <= c.b <= |s|
    ensures Concat(s, cs) == s[x..y]
  {
    if cs != [] {
      TilesTail(cs, x, y);
      TilesConcat(s, cs[1..], cs[0].b, y);
      assert cs == [cs[0]] + cs[1..];
      SliceSplit(s, x, cs[0].b, y);
    }
  }

  /** `count` consecutive ranges from `x`, range `p` holding `ChunkSize(s, r, p)` elements. */
  function Plan(x: nat, s: nat, r: nat, count: nat): (cs: seq<Range>)
    ensures |cs| == count
  {
    if count == 0 then []
    else Plan(x, s, r, count - 1) + [Range(x + ChunkStart(s, r, count - 1), x + ChunkStart(s, r, count))]
  }

  /**
   * Closing range `p` of a plan for `n` elements from `x`, whose offsets
   * reach `n` after `count` non-empty ranges, once the cursor has moved
   * `ChunkSize(s, r, p)` elements past the range's start: the cursor is at the
   * next offset, the plan grows by the closed range, and the cursor is
   * before the end of the next range if there is one and at `x + n` if not.
   */
  lemma PlanStep(x: nat, s: nat, r: nat, count: nat, n: nat, p: nat, last: nat, cur: nat)
    requires p < count && ChunkStart(s, r, count) == n && (s >= 1 || count <= r)
    requires last == x + ChunkStart(s, r, p) && cur <= x + ChunkStart(s, r, p + 1)
    requires cur - last >= ChunkSize(s, r, p)
    ensures cur == x + ChunkStart(s, r, p + 1)
    ensures Plan(x, s, r, p + 1) == Plan(x, s, r, p) + [Range(last, cur)]
    ensures p + 1 < count ==> cur < x + ChunkStart(s, r, p + 2) <= x + n
    ensures p + 1 == count ==> cur == x + n
  {
    if p + 1 < count {
      ChunkStartMonotone(s, r, p + 2, count);
    }
  }

  /** Range `p` of a plan runs from offset `p` to offset `p + 1`. */
  lemma {:induction false} PlanAt(x: nat, s: nat, r: nat, count: nat)
    ensures forall p :: 0 <= p < count ==>
              Plan(x, s, r, count)[p] == Range(x + ChunkStart(s, r, p), x + ChunkStart(s, r, p + 1))
  {
    if count > 0 {
      PlanAt(x, s, r, count - 1);
      var k := count - 1;
      assert k + 1 == count;
      assert Plan(x, s, r, count)[k] == Range(x + ChunkStart(s, r, k), x + ChunkStart(s, r, k + 1));
    }
  }

  /** Range `p` of a plan is well formed and has `ChunkSize(s, r, p)` elements. */
  lemma PlanSizes(x: nat, s: nat, r: nat, count: nat)
    ensures forall p :: 0 <= p < count ==>
              Plan(x, s, r, count)[p].Valid() && Plan(x, s, r, count)[p].Size() == ChunkSize(s, r, p)
  {
    PlanAt(x, s, r, count);
  }

  /** A plan tiles the range from `x` to `x` plus the offset after its last range. */
  lemma PlanTiles(x: nat, s: nat, r: nat, count: nat)
    ensures Tiles(Plan(x, s, r, count), x, x + ChunkStart(s, r, count))
  {
    var cs := Plan(x, s, r, count);
    PlanAt(x, s, r, count);
    if cs != [] {
      forall i | 0 <= i < |cs|
        ensures cs[i].a <= cs[i].b
      {
        assert cs[i] == Range(x + ChunkStart(s, r, i), x + ChunkStart(s, r, i + 1));
        assert ChunkStart(s, r, i + 1) == ChunkStart(s, r, i) + ChunkSize(s, r, i);
      }
      forall i | 0 <= i < |cs| - 1
        ensures cs[i].b == cs[i + 1].a
      {
        assert cs[i] == Range(x + ChunkStart(s, r, i), x + ChunkStart(s, r, i + 1));
        assert cs[i + 1] == Range(x + ChunkStart(s, r, i + 1), x + ChunkStart(s, r, i + 1 + 1));
      }
      var k := count - 1;
      assert k + 1 == count;
      assert cs[k].b == x + ChunkStart(s, r, k + 1);
    }
  }

  datatype Range = Range(a: nat, b: nat) {

    /** The upper bound is reachable from the lower one. */
    predicate Valid()
    {
      a <= b
    }

    /** The number of elements in the range, what the source counts by walking it. */
    function Size(): nat
      requires Valid()
    {
      b - a
    }

    /** `empty`: the two bounds coincide. */
    predicate Empty()
      ensures Valid() ==> (Empty() <==> Size() == 0)
    {
      a == b
    }

    /**
     * The plan `partition(np)` computes: `Min(n, np)` consecutive sub-ranges,
     * sub-range `p` holding `ChunkSize(n / np, n % np, p)` elements.
     */
    function Chunks(np: int): (cs: seq<Range>)
      requires Valid() && np >= 1
      ensures |cs| == ChunkCount(Size(), np)
    {
      Plan(a, Size() / np, Size() % np, ChunkCount(Size(), np))
    }

    /**
     * `partition`: counts the elements by walking the range, then walks it
     * again and closes a sub-range whenever the current one has reached its
     * size. The source divides by `np`, so `np == 0` fails, and it reserves
     * `np` slots, so a negative `np` fails too: it requires `np >= 1`.
     */
    method Partition(np: int := 100) returns (res: seq<Range>)
      requires Valid() && np >= 1
      ensures res == Chunks(np)
    {
      // count the elements by walking the range
      var n: nat := 0;
      var it := a;
      while it != b
        invariant a <= it <= b
        invariant n == it - a
        decreases b - it
      {
        it := it + 1;
        n := n + 1;
      }

      // cut the range into sub-ranges
      var s := n / np;
      var r := n % np;
      ghost var count := ChunkCount(n, np);
      PlanShape(n, np, s, r);
      if 0 < count {
        ChunkStartMonotone(s, r, 1, count);
      }
      res := [];
      var cur: nat := a;
      var last: nat := cur;
      var i: nat := 0;
      var p: nat := 0;
      while cur != b
        invariant p <= count
        invariant last == a + ChunkStart(s, r, p)
        invariant i == cur - last
        invariant p < count ==> cur < a + ChunkStart(s, r, p + 1) <= b
        invariant p == count ==> cur == b
        invariant res == Plan(a, s, r, p)
        decreases b - cur
      {
        assert ChunkStart(s, r, p + 1) == ChunkStart(s, r, p) + ChunkSize(s, r, p);
        cur := cur + 1;
        i := i + 1;
        if i >= s + (if p < r then 1 else 0) {
          PlanStep(a, s, r, count, n, p, last, cur);
          res := res + [Range(last, cur)];
          last := cur;
          p := p + 1;
          i := 0;
        }
      }
      // the last sub-range is always closed inside the loop when np >= 1,
      // so the source's trailing push never fires
      assert p == count && cur == last;
      if cur != last {
        res := res + [Range(last, cur)];
      }
    }
  }

  /** `partition` returns exactly `Min(n, np)` sub-ranges, none of them empty; an empty range yields none. */
  lemma PartitionCount(rg: Range, np: int)
    requires rg.Valid() && np >= 1
    ensures |rg.Chunks(np)| == Min(rg.Size(), np)
    ensures rg.Empty() ==> rg.Chunks(np) == []
    ensures forall p :: 0 <= p < |rg.Chunks(np)| ==> rg.Chunks(np)[p].Valid() && !rg.Chunks(np)[p].Empty()
  {
    var n := rg.Size();
    PlanSizes(rg.a, n / np, n % np, ChunkCount(n, np));
    PlanShape(n, np, n / np, n % np);
  }

  /** Sub-range `p` has `n / np + 1` elements when `p < n % np` and `n / np` otherwise, so sizes differ by at most one. */
  lemma PartitionBalanced(rg: Range, np: int)
    requires rg.Valid() && np >= 1
    ensures forall p :: 0 <= p < |rg.Chunks(np)| ==>
              rg.Chunks(np)[p].Valid() &&
              rg.Chunks(np)[p].Size() == (if p < rg.Size() % np then rg.Size() / np + 1 else rg.Size() / np)
    ensures forall p, q :: 0 <= p < |rg.Chunks(np)| && 0 <= q < |rg.Chunks(np)| ==>
              rg.Chunks(np)[p].Size() <= rg.Chunks(np)[q].Size() + 1
  {
    var n := rg.Size();
    PlanSizes(rg.a, n / np, n % np, ChunkCount(n, np));
  }

  /**
   * The sub-ranges are contiguous and in order: the first starts at `a`,
   * each starts where the previous one ended, and the last ends at `b`.
   */
  lemma PartitionContiguous(rg: Range, np: int)
    requires rg.Valid() && np >= 1
    ensures Tiles(rg.Chunks(np), rg.a, rg.b)
  {
    var n := rg.Size();
    PlanShape(n, np, n / np, n % np);
    PlanTiles(rg.a, n / np, n % np, ChunkCount(n, np));
  }

  /** Concatenating the elements of the sub-ranges reproduces the elements of the range. */
  lemma PartitionCovers<T>(s: seq<T>, rg: Range, np: int)
    requires rg.Valid() && np >= 1 && rg.b <= |s|
    ensures forall c :: c in rg.Chunks(np) ==> c.a <= c.b <= |s|
    ensures Concat(s, rg.Chunks(np)) == s[rg.a..rg.b]
  {
    PartitionContiguous(rg, np);
    TilesConcat(s, rg.Chunks(np), rg.a, rg.b);
  }

  /** Ten elements in three parts give sizes 4, 3, 3; two elements in five parts give two singletons. */
  lemma PartitionExamples()
    ensures Range(0, 10).Chunks(3) == [Range(0, 4), Range(4, 7), Range(7, 10)]
    ensures Range(0, 2).Chunks(5) == [Range(0, 1), Range(1, 2)]
  {
    assert ChunkStart(3, 1, 3) == 10;
    assert ChunkStart(0, 2, 2) == 2;
  }
}
