/**
  `array<T, N>`: a fixed-length block with no allocation. `N` is the length of
  `data`; operations on two arrays require equal lengths, which C++ enforces
  through the type. `zero` stands for `value_type()` (or `{}`), `less` for the
  element `operator<`.
 */
module Arrays {
  import opened Results
  import Algorithm
  import ReverseIterators

  datatype Array<T> = Array(data: seq<T>)

  /** Default construction: the initializer `{value_type()}` value-initialises
      every element. */
  function Default<T>(n: nat, zero: T): (a: Array<T>)
    ensures |a.data| == n
    ensures forall i :: 0 <= i < n ==> a.data[i] == zero
  {
    Array(seq(n, _ => zero))
  }

  /** Aggregate initialisation `array<T, N> a = {v0, v1, ...}` with at most `N`
      values: the elements not listed are value-initialised. */
  function FromList<T>(n: nat, values: seq<T>, zero: T): (a: Array<T>)
    requires |values| <= n
    ensures |a.data| == n && a.data[..|values|] == values
    ensures forall i :: |values| <= i < n ==> a.data[i] == zero
  {
    Array(values + seq(n - |values|, _ => zero))
  }

  function Size<T>(a: Array<T>): nat { |a.data| }

  function MaxSize<T>(a: Array<T>): nat { |a.data| }

  predicate IsEmpty<T>(a: Array<T>) { |a.data| == 0 }

  /** `at(off)` with a `size_t` index: only `off >= N` throws. */
  function At<T>(a: Array<T>, off: nat): (r: Result<T>)
    ensures r.Ok? <==> off < |a.data|
    ensures r.Ok? ==> r.value == a.data[off]
    ensures r.Err? ==> r.error == OutOfRange
  {
    if off >= |a.data| then Err(OutOfRange) else Ok(a.data[off])
  }

  /** `at` of the `N == 0` specialisation, which throws without looking at the index. */
  function AtZeroLength<T>(off: nat): Result<T> {
    Err(OutOfRange)
  }

  /** `operator[]`: no check; reading outside the elements is the caller's fault. */
  function Index<T>(a: Array<T>, i: nat): T
    requires i < |a.data|
  {
    a.data[i]
  }

  /** `front()`: undefined when `N == 0`. */
  function Front<T>(a: Array<T>): T
    requires |a.data| > 0
  {
    a.data[0]
  }

  /** `back()`: undefined when `N == 0`. */
  function Back<T>(a: Array<T>): T
    requires |a.data| > 0
  {
    a.data[|a.data| - 1]
  }

  /** `fill(v)`: every element becomes `v`. */
  function Fill<T>(a: Array<T>, v: T): (r: Array<T>)
    ensures |r.data| == |a.data|
    ensures forall i :: 0 <= i < |r.data| ==> r.data[i] == v
  {
    Array(seq(|a.data|, _ => v))
  }

  /** `swap(right)`: the three-assignment exchange of `utility.h`, element by
      element; the two arrays end up with each other's elements. */
  method Swap<T>(a: Array<T>, b: Array<T>) returns (a2: Array<T>, b2: Array<T>)
    requires |a.data| == |b.data|
    ensures a2 == b && b2 == a
  {
    var x, y := a.data, b.data;
    var i := 0;
    while i < |x|
      invariant i <= |x| && |x| == |y| == |a.data|
      invariant forall j :: 0 <= j < i ==> x[j] == b.data[j] && y[j] == a.data[j]
      invariant forall j :: i <= j < |x| ==> x[j] == a.data[j] && y[j] == b.data[j]
    {
      var temp := x[i];
      x := x[i := y[i]];
      y := y[i := temp];
      i := i + 1;
    }
    a2, b2 := Array(x), Array(y);
  }

  /** Copy assignment `dst = src`: each element copied; the source is untouched. */
  function CopyAssign<T>(dst: Array<T>, src: Array<T>): (r: Array<T>)
    requires |dst.data| == |src.data|
    ensures r == src
  {
    Array(seq(|dst.data|, i requires 0 <= i < |dst.data| => src.data[i]))
  }

  /** Move assignment `dst = move(src)`: each element moved over, then the source
      element reset to `{}`. Yields (destination afterwards, source afterwards). */
  function MoveAssign<T>(dst: Array<T>, src: Array<T>, zero: T): (r: (Array<T>, Array<T>))
    requires |dst.data| == |src.data|
    ensures r.0 == src
    ensures |r.1.data| == |src.data| && forall i :: 0 <= i < |src.data| ==> r.1.data[i] == zero
  {
    var n := |dst.data|;
    (Array(seq(n, i requires 0 <= i < n => src.data[i])), Array(seq(n, _ => zero)))
  }

  predicate Eq<T(==)>(a: Array<T>, b: Array<T>) { Algorithm.Equal(a.data, b.data) }

  predicate Ne<T(==)>(a: Array<T>, b: Array<T>) { !Eq(a, b) }

  predicate Lt<T>(a: Array<T>, b: Array<T>, less: (T, T) -> bool) {
    Algorithm.LexicographicalCompare(a.data, b.data, less)
  }

  predicate Gt<T>(a: Array<T>, b: Array<T>, less: (T, T) -> bool) {
    Algorithm.LexicographicalCompare(b.data, a.data, less)
  }

  predicate Le<T(==)>(a: Array<T>, b: Array<T>, less: (T, T) -> bool) {
    Algorithm.LexicographicalCompare(a.data, b.data, less) || Eq(a, b)
  }

  predicate Ge<T(==)>(a: Array<T>, b: Array<T>, less: (T, T) -> bool) {
    Algorithm.LexicographicalCompare(b.data, a.data, less) || Eq(a, b)
  }

  /** `size() == max_size() == N`, `empty()` exactly when `N == 0`, `at(i)`
      agrees with `operator[](i)` wherever it does not throw, and for `N > 0` the
      endpoint accessors agree with `at` and with the reverse iterators
      `rbegin()` and `--rend()`. */
  lemma Accessors<T>(a: Array<T>)
    ensures Size(a) == MaxSize(a) == |a.data|
    ensures IsEmpty(a) <==> Size(a) == 0
    ensures forall i: nat :: i < |a.data| ==> At(a, i) == Ok(Index(a, i))
    ensures |a.data| > 0 ==> At(a, 0) == Ok(Front(a)) && At(a, |a.data| - 1) == Ok(Back(a))
    ensures |a.data| > 0 ==> Back(a) == ReverseIterators.Deref(a.data, ReverseIterators.RBegin(|a.data|))
    ensures |a.data| > 0 ==> Front(a) == ReverseIterators.Deref(a.data, ReverseIterators.PreDecrement(ReverseIterators.REnd()))
  {
  }

  /** The general `at` on a zero-length array throws for every index, as the
      specialisation does. */
  lemma AtZeroLengthAgrees<T>(a: Array<T>, off: nat)
    requires |a.data| == 0
    ensures At(a, off) == AtZeroLength(off)
    ensures At(a, off).Err?
  {
  }

  /** Filling twice with the same value is filling once, and filling a default
      array with `value_type()` changes nothing. */
  lemma FillLaws<T>(a: Array<T>, v: T, zero: T)
    ensures Fill(Fill(a, v), v) == Fill(a, v)
    ensures Fill(Default(|a.data|, zero), zero) == Default(|a.data|, zero)
  {
  }

  /** Copy assignment to itself changes nothing, and after a move assignment
      moving back gives the destination its elements back. */
  lemma AssignmentLaws<T>(a: Array<T>, b: Array<T>, zero: T)
    requires |a.data| == |b.data|
    ensures CopyAssign(a, a) == a
    ensures var (d, s) := MoveAssign(a, b, zero); MoveAssign(s, d, zero).0 == b
  {
  }

  /** The array comparison operators, for a trichotomous element order: `==` is
      element-wise equality, `>` is `<` reversed, `<=` and `>=` are the negations
      of `>` and `<`, and exactly one of `<`, `>`, `==` holds. */
  lemma ComparisonLaws<T(!new)>(a: Array<T>, b: Array<T>, less: (T, T) -> bool)
    requires |a.data| == |b.data| && Algorithm.Trichotomous(less)
    ensures Eq(a, b) <==> a == b
    ensures Ne(a, b) <==> a != b
    ensures Gt(a, b, less) == Lt(b, a, less)
    ensures Le(a, b, less) <==> !Gt(a, b, less)
    ensures Ge(a, b, less) <==> !Lt(a, b, less)
    ensures Lt(a, b, less) || Gt(a, b, less) || Eq(a, b)
    ensures !(Lt(a, b, less) && Gt(a, b, less)) && !(Lt(a, b, less) && Eq(a, b)) && !(Gt(a, b, less) && Eq(a, b))
  {
    Algorithm.EqualIsEquality(a.data, b.data);
    Algorithm.Trichotomy(a.data, b.data, less);
  }
}
