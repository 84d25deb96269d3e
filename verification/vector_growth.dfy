/**
  The growth policy of `expand_capacity` over a run of `push_back` calls
  starting from an empty vector: the capacity is always the least power of two
  holding the elements, and the number of reallocations is `ceil(log2 n) + 1`.
 */
module VectorGrowth {
  import opened Vectors

  function Pow2(k: nat): (p: nat)
    ensures p >= 1
  {
    if k == 0 then 1 else 2 * Pow2(k - 1)
  }

  lemma {:induction false} Pow2Increasing(i: nat, j: nat)
    requires i < j
    ensures Pow2(i) < Pow2(j)
    decreases j
  {
    if i < j - 1 {
      Pow2Increasing(i, j - 1);
    }
  }

  /** `ceil(log2 n)`: the least `k` with `n <= 2^k`. */
  function Log2Ceil(n: nat): (k: nat)
    ensures n <= Pow2(k)
    ensures k > 0 ==> Pow2(k - 1) < n
    decreases n
  {
    if n <= 1 then 0 else 1 + Log2Ceil((n + 1) / 2)
  }

  /** Pushes the elements of `xs` in order; also counts the pushes that found the
      vector full and so reallocated. */
  function PushAll<T>(v: Vector<T>, xs: seq<T>, zero: T): (r: (Vector<T>, nat))
    requires v.Valid()
    ensures r.0.Valid()
    decreases |xs|
  {
    if |xs| == 0 then (v, 0) else Grow(PushAll(v, xs[..|xs| - 1], zero), xs[|xs| - 1], zero)
  }

  /** One `push_back(x)` on a (vector, reallocations) pair, counting the push
      when it found the vector full. */
  function Grow<T>(prior: (Vector<T>, nat), x: T, zero: T): (r: (Vector<T>, nat))
    requires prior.0.Valid()
    ensures r.0.Valid() && r.0.Contents() == prior.0.Contents() + [x]
    ensures prior.0.size == prior.0.Capacity() ==> r.1 == prior.1 + 1
    ensures prior.0.size < prior.0.Capacity() ==> r.1 == prior.1
  {
    (PushBack(prior.0, x, zero), prior.1 + if prior.0.size == prior.0.Capacity() then 1 else 0)
  }

  /** `n` elements sit in a power-of-two capacity in `[n, 2n)`, which is
      `2^(reallocations - 1)`. */
  ghost predicate GrowthShape<T>(n: nat, r: (Vector<T>, nat)) {
    r.1 >= 1 && n <= r.0.Capacity() < 2 * n && r.0.Capacity() == Pow2(r.1 - 1)
  }

  /** Pushing `xs` onto an empty vector yields exactly the elements of `xs`. */
  lemma {:induction false} PushesFromEmptyContents<T>(xs: seq<T>, zero: T)
    ensures PushAll(Empty(), xs, zero).0.Contents() == xs
    decreases |xs|
  {
    if |xs| > 0 {
      var init, last := xs[..|xs| - 1], xs[|xs| - 1];
      PushesFromEmptyContents(init, zero);
      var prior := PushAll(Empty(), init, zero);
      assert PushAll(Empty(), xs, zero) == Grow(prior, last, zero);
      assert init + [last] == xs;
    }
  }

  /** One push keeps the growth shape: a full vector of `n` elements doubles
      and counts one more reallocation, any other keeps its capacity and count. */
  lemma GrowthStep(n: nat, cap: nat, count: nat, cap': nat, count': nat)
    requires n > 0 && count >= 1 && n <= cap < 2 * n && cap == Pow2(count - 1)
    requires n == cap ==> cap' == 2 * n && count' == count + 1
    requires n < cap ==> cap' == cap && count' == count
    ensures count' >= 1 && n + 1 <= cap' < 2 * (n + 1) && cap' == Pow2(count' - 1)
  {
    if n == cap {
      assert Pow2(count' - 1) == 2 * Pow2(count - 1);
    }
  }

  /** A push onto `n > 0` elements in growth shape gives `n + 1` elements in
      growth shape, counting the reallocation when the vector was full. */
  lemma PushKeepsShape<T>(n: nat, prior: (Vector<T>, nat), x: T, zero: T)
    requires n > 0 && prior.0.Valid() && prior.0.size == n && GrowthShape(n, prior)
    ensures GrowthShape(n + 1, Grow(prior, x, zero))
  {
    var r := Grow(prior, x, zero);
    GrowthStep(n, prior.0.Capacity(), prior.1, r.0.Capacity(), r.1);
  }

  /** After `n > 0` pushes onto an empty vector the capacity is a power of two in
      `[n, 2n)`, namely `2^(reallocations - 1)`. */
  lemma {:induction false} PushesFromEmpty<T>(xs: seq<T>, zero: T)
    ensures |xs| == 0 ==> PushAll(Empty(), xs, zero) == (Empty(), 0)
    ensures |xs| > 0 ==> GrowthShape(|xs|, PushAll(Empty(), xs, zero))
    decreases |xs|
  {
    if |xs| > 0 {
      var init, last := xs[..|xs| - 1], xs[|xs| - 1];
      PushesFromEmpty(init, zero);
      PushesFromEmptyContents(init, zero);
      var prior := PushAll(Empty(), init, zero);
      assert PushAll(Empty(), xs, zero) == Grow(prior, last, zero);
      if |init| == 0 {
        assert prior == (Empty(), 0);
      } else {
        PushKeepsShape(|init|, prior, last, zero);
      }
    }
  }

  /** The only power of two in `[n, 2n)` is `2^ceil(log2 n)`. */
  lemma PowerInRangeIsLog2Ceil(n: nat, e: nat)
    requires n > 0 && n <= Pow2(e) < 2 * n
    ensures e == Log2Ceil(n)
  {
    var k := Log2Ceil(n);
    if e < k {
      if e < k - 1 {
        Pow2Increasing(e, k - 1);
      }
      assert false;
    }
    if e > k {
      Pow2Increasing(k + 1, e);
      assert false;
    }
  }

  /** The growth shape pins both the count and the capacity to `ceil(log2 n)`. */
  lemma ShapeIsLog2Ceil<T>(n: nat, r: (Vector<T>, nat))
    requires n > 0 && GrowthShape(n, r)
    ensures r.1 == Log2Ceil(n) + 1 && r.0.Capacity() == Pow2(Log2Ceil(n))
  {
    PowerInRangeIsLog2Ceil(n, r.1 - 1);
  }

  /** Starting from empty, `n > 0` pushes reallocate exactly `ceil(log2 n) + 1`
      times and leave the capacity at `2^ceil(log2 n)`, the least power of two
      that holds `n` elements. */
  lemma ReallocationCount<T>(xs: seq<T>, zero: T)
    requires |xs| > 0
    ensures PushAll(Empty(), xs, zero).1 == Log2Ceil(|xs|) + 1
    ensures PushAll(Empty(), xs, zero).0.Capacity() == Pow2(Log2Ceil(|xs|))
  {
    PushesFromEmpty(xs, zero);
    ShapeIsLog2Ceil(|xs|, PushAll(Empty(), xs, zero));
  }
}
