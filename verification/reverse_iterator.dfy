/**
  `internal::reverse_iterator`, with the wrapped pointer replaced by an integer
  position into the container's element sequence.

  The adapter reads the element AT its base position (there is no "one before"
  offset); the containers compensate by anchoring `rbegin` at the last element
  (`size - 1`) and `rend` one before the first element (`-1`).
 */
module ReverseIterators {

  datatype ReverseIterator = ReverseIterator(base: int)

  /** `rbegin()` of a container holding `n` elements. */
  function RBegin(n: nat): ReverseIterator { ReverseIterator(n - 1) }

  /** `rend()` of any container. */
  function REnd(): ReverseIterator { ReverseIterator(-1) }

  /** `*r`: the element at the base position itself. */
  function Deref<T>(s: seq<T>, r: ReverseIterator): T
    requires 0 <= r.base < |s|
  {
    s[r.base]
  }

  /** `r + n` steps the base backwards. */
  function Plus(r: ReverseIterator, n: int): ReverseIterator { ReverseIterator(r.base - n) }

  /** `r - n` steps the base forwards. */
  function Minus(r: ReverseIterator, n: int): ReverseIterator { ReverseIterator(r.base + n) }

  /** `r += n`: the receiver after the update. */
  function PlusAssign(r: ReverseIterator, n: int): (r': ReverseIterator)
    ensures r' == Plus(r, n)
  {
    r.(base := r.base - n)
  }

  /** `r -= n`: the receiver after the update. */
  function MinusAssign(r: ReverseIterator, n: int): (r': ReverseIterator)
    ensures r' == Minus(r, n)
  {
    r.(base := r.base + n)
  }

  /** `++r`: the base moves one element towards the front. */
  function PreIncrement(r: ReverseIterator): (r': ReverseIterator)
    ensures r' == Plus(r, 1)
    ensures r'.base < r.base
  {
    r.(base := r.base - 1)
  }

  /** `--r`: the base moves one element towards the back. */
  function PreDecrement(r: ReverseIterator): (r': ReverseIterator)
    ensures r' == Minus(r, 1)
    ensures r'.base > r.base
  {
    r.(base := r.base + 1)
  }

  /** `r++`: the returned copy and the stepped receiver. */
  function PostIncrement(r: ReverseIterator): (result: (ReverseIterator, ReverseIterator))
    ensures result.0 == r
    ensures result.1 == PreIncrement(r)
  {
    (r, PreIncrement(r))
  }

  /** `r--`: the returned copy and the stepped receiver. */
  function PostDecrement(r: ReverseIterator): (result: (ReverseIterator, ReverseIterator))
    ensures result.0 == r
    ensures result.1 == PreDecrement(r)
  {
    (r, PreDecrement(r))
  }

  predicate Eq(x: ReverseIterator, y: ReverseIterator) { x.base == y.base }
  predicate Ne(x: ReverseIterator, y: ReverseIterator) { x.base != y.base }
  /** The ordering operators compare the bases the other way round. */
  predicate Lt(x: ReverseIterator, y: ReverseIterator) { x.base > y.base }
  predicate Le(x: ReverseIterator, y: ReverseIterator) { x.base >= y.base }
  predicate Gt(x: ReverseIterator, y: ReverseIterator) { x.base < y.base }
  predicate Ge(x: ReverseIterator, y: ReverseIterator) { x.base <= y.base }

  /** `(r + n) - n == r` and `(r - n) + n == r`. */
  lemma OffsetRoundTrip(r: ReverseIterator, n: int)
    ensures Eq(Minus(Plus(r, n), n), r) && Minus(Plus(r, n), n) == r
    ensures Plus(Minus(r, n), n) == r
  {
  }

  /** `++` and `--` undo each other, prefix or postfix. */
  lemma StepRoundTrip(r: ReverseIterator)
    ensures PreDecrement(PreIncrement(r)) == r
    ensures PostDecrement(PostIncrement(r).1).1 == r
  {
  }

  /** Reverse order is traversal order: stepping further from `r` gives a greater
      iterator, and the six operators agree with one another. */
  lemma OrderFollowsTraversal(r: ReverseIterator, m: int, n: int)
    ensures Lt(Plus(r, m), Plus(r, n)) <==> m < n
    ensures Le(Plus(r, m), Plus(r, n)) <==> m <= n
    ensures Gt(Plus(r, m), Plus(r, n)) <==> Lt(Plus(r, n), Plus(r, m))
    ensures Ge(Plus(r, m), Plus(r, n)) <==> Le(Plus(r, n), Plus(r, m))
    ensures Le(Plus(r, m), Plus(r, n)) <==> Lt(Plus(r, m), Plus(r, n)) || Eq(Plus(r, m), Plus(r, n))
    ensures Ne(Plus(r, m), Plus(r, n)) <==> !Eq(Plus(r, m), Plus(r, n))
  {
  }

  /** `rbegin() + n` reads the `n`-th element from the back; in particular
      `*rbegin()` is the last element and `*(--rend())` the first. */
  lemma DerefFromBack<T>(s: seq<T>, n: nat)
    requires n < |s|
    ensures Deref(s, Plus(RBegin(|s|), n)) == s[|s| - 1 - n]
    ensures Deref(s, RBegin(|s|)) == s[|s| - 1]
    ensures Deref(s, PreDecrement(REnd())) == s[0]
  {
  }

  /** Reverse of a sequence, defined independently of iterators. */
  function Reverse<T>(s: seq<T>): (r: seq<T>)
    ensures |r| == |s|
    ensures forall i :: 0 <= i < |s| ==> r[i] == s[|s| - 1 - i]
  {
    if |s| == 0 then [] else [s[|s| - 1]] + Reverse(s[..|s| - 1])
  }

  /** The loop `for (r = rbegin(); r != rend(); ++r) visit(*r)`: it stops after
      exactly `|s|` steps and visits the elements back to front. */
  method Traverse<T>(s: seq<T>) returns (visited: seq<T>, steps: nat)
    ensures steps == |s|
    ensures visited == Reverse(s)
  {
    var r := RBegin(|s|);
    visited, steps := [], 0;
    while Ne(r, REnd())
      invariant -1 <= r.base < |s|
      invariant steps == |s| - 1 - r.base
      invariant |visited| == steps
      invariant forall i :: 0 <= i < steps ==> visited[i] == s[|s| - 1 - i]
      decreases r.base
    {
      visited := visited + [Deref(s, r)];
      r := PreIncrement(r);
      steps := steps + 1;
    }
  }
}
