/**
  The storage engine of `vector<T>`.

  A vector is its whole allocated block `buf` (whose length is the capacity)
  and the count `size` of live elements, which are `buf[..size]`. The cells past
  `size` are modelled too, because the operations differ in what they leave
  there and `resize` can expose them again.

  `zero` stands for `value_type()` and `less` for the element `operator<`.
  Allocation is "a fresh block of `n` cells"; moving an element copies it.
 */
module Vectors {
  import opened Results
  import Algorithm

  /** `size_t` is 64 bits wide: a signed argument converted to it wraps modulo 2^64. */
  const SIZE_T_LIMIT: nat := 0x1_0000_0000_0000_0000

  function ToSizeT(i: int): nat { i % SIZE_T_LIMIT }

  datatype Vector<T> = Vector(buf: seq<T>, size: nat) {

    function Capacity(): nat { |buf| }

    /** The class invariant `size <= capacity`. */
    predicate Valid() { size <= |buf| }

    /** The live elements. */
    function Contents(): seq<T>
      requires Valid()
    {
      buf[..size]
    }
  }

  /** Every cell past the live elements holds `value_type()`. Reallocation,
      `pop_back`, `clear` and a shrinking `resize` establish it; `erase` does not. */
  ghost predicate DefaultTail<T>(v: Vector<T>, zero: T) {
    forall i :: v.size <= i < |v.buf| ==> v.buf[i] == zero
  }

  // ------------------------------------------------------------ construction

  /** `vector()`: no block at all. */
  function Empty<T>(): (v: Vector<T>)
    ensures v.Valid() && v.size == 0 && v.Capacity() == 0
  {
    Vector([], 0)
  }

  /** `vector(std::initializer_list)`: a block of exactly the list's length. */
  function FromList<T>(values: seq<T>): (v: Vector<T>)
    ensures v.Valid() && v.Contents() == values && v.Capacity() == |values|
  {
    Vector(values, |values|)
  }

  /** `vector(count)`: `count` default elements in a block of `count` cells,
      which is `vector(count, value_type())`. */
  function WithCount<T>(count: nat, zero: T): (v: Vector<T>)
    ensures v.Valid() && v.size == count && v.Capacity() == count
    ensures forall i :: 0 <= i < count ==> v.Contents()[i] == zero
    ensures DefaultTail(v, zero)
  {
    WithCountValue(count, zero)
  }

  /** `vector(count, value)`: `count` copies of `value` in a block of `count` cells. */
  function WithCountValue<T>(count: nat, value: T): (v: Vector<T>)
    ensures v.Valid() && v.size == count && v.Capacity() == count
    ensures forall i :: 0 <= i < count ==> v.Contents()[i] == value
  {
    Vector(seq(count, _ => value), count)
  }

  /** Copy construction: the same elements in a fresh block of exactly `size` cells. */
  function CopyConstruct<T>(v: Vector<T>): (c: Vector<T>)
    requires v.Valid()
    ensures c.Valid() && c.Contents() == v.Contents() && c.Capacity() == v.size
  {
    Vector(v.Contents(), v.size)
  }

  /** Move construction: the new vector takes over the block, size and capacity;
      the source is left with no block. Yields (new vector, source afterwards). */
  function MoveConstruct<T>(v: Vector<T>): (r: (Vector<T>, Vector<T>))
    requires v.Valid()
    ensures r.0.buf == v.buf && r.0.size == v.size && r.0.Contents() == v.Contents()
    ensures r.1.size == 0 && r.1.Capacity() == 0
  {
    (v, Empty())
  }

  /** Move assignment `dst = move(src)`: the destination's block is released and
      replaced by the source's; the source is left with no block.
      Yields (destination afterwards, source afterwards). */
  function MoveAssign<T>(dst: Vector<T>, src: Vector<T>): (r: (Vector<T>, Vector<T>))
    requires dst.Valid() && src.Valid()
    ensures r.0.buf == src.buf && r.0.size == src.size && r.0.Contents() == src.Contents()
    ensures r.1.size == 0 && r.1.Capacity() == 0
  {
    (src, Empty())
  }

  // ---------------------------------------------------------- element access

  /** `at(off)` with a `size_t` index. The source's `off < 0` test can never
      hold for an unsigned index, so only `off >= size` throws. */
  function At<T>(v: Vector<T>, off: nat): (r: Result<T>)
    requires v.Valid()
    ensures r.Ok? <==> off < v.size
    ensures r.Ok? ==> r.value == v.Contents()[off]
    ensures r.Err? ==> r.error == OutOfRange
  {
    if off >= v.size then Err(OutOfRange) else Ok(v.buf[off])
  }

  /** `operator[]`: no check; reading outside the elements is the caller's fault. */
  function Index<T>(v: Vector<T>, i: nat): T
    requires v.Valid() && i < v.size
  {
    v.buf[i]
  }

  /** `front()`: undefined on an empty vector. */
  function Front<T>(v: Vector<T>): T
    requires v.Valid() && v.size > 0
  {
    v.buf[0]
  }

  /** `back()`: undefined on an empty vector. */
  function Back<T>(v: Vector<T>): T
    requires v.Valid() && v.size > 0
  {
    v.buf[v.size - 1]
  }

  // ----------------------------------------------------- capacity management

  /** `re_allocate(c)`: a fresh block of `c` cells, the elements moved to its
      front and `value_type()` assigned to every other cell. */
  function ReAllocate<T>(v: Vector<T>, c: nat, zero: T): (r: Vector<T>)
    requires v.Valid() && v.size <= c
    ensures r.Valid() && r.size == v.size && r.Capacity() == c
    ensures r.Contents() == v.Contents()
    ensures DefaultTail(r, zero)
  {
    Vector(v.Contents() + seq(c - v.size, _ => zero), v.size)
  }

  /** `expand_capacity()`: a full vector grows to 1 cell when it has none, and
      doubles otherwise; afterwards there is room for one more element. */
  function ExpandCapacity<T>(v: Vector<T>, zero: T): (r: Vector<T>)
    requires v.Valid()
    ensures r.Valid() && r.size == v.size && r.Contents() == v.Contents()
    ensures r.size < r.Capacity()
    ensures v.size < v.Capacity() ==> r == v
    ensures v.size == v.Capacity() ==>
      DefaultTail(r, zero) && r.Capacity() == if v.size == 0 then 1 else 2 * v.size
  {
    if v.size == v.Capacity() then
      ReAllocate(v, if v.size == 0 then 1 else 2 * v.size, zero)
    else
      v
  }

  /** `clear()`: every element is reset to `value_type()` and the size drops to 0;
      the block is kept. */
  function Clear<T>(v: Vector<T>, zero: T): (r: Vector<T>)
    requires v.Valid()
    ensures r.Valid() && r.size == 0 && r.Capacity() == v.Capacity()
    ensures forall i :: 0 <= i < v.size ==> r.buf[i] == zero
    ensures forall i :: v.size <= i < |v.buf| ==> r.buf[i] == v.buf[i]
  {
    Vector(seq(v.size, _ => zero) + v.buf[v.size..], 0)
  }

  /** `reserve(n)`: reallocates to exactly `n` cells when that is more than the
      capacity, and does nothing otherwise. */
  function Reserve<T>(v: Vector<T>, n: nat, zero: T): (r: Vector<T>)
    requires v.Valid()
    ensures r.Valid() && r.Contents() == v.Contents()
    ensures n > v.Capacity() ==> r.Capacity() == n && DefaultTail(r, zero)
    ensures n <= v.Capacity() ==> r == v
  {
    if n > v.Capacity() then ReAllocate(v, n, zero) else v
  }

  /** `resize(n)`, as written. Shrinking resets the dropped elements and keeps
      the block; growing past the capacity reallocates to exactly `n` cells, whose
      new cells hold `value_type()`; growing within the capacity assigns nothing,
      so the new elements are whatever the block held in those cells. */
  function Resize<T>(v: Vector<T>, n: nat, zero: T): (r: Vector<T>)
    requires v.Valid()
    ensures r.Valid() && r.size == n
    ensures n <= v.size ==>
      && r.Contents() == v.Contents()[..n] && r.Capacity() == v.Capacity()
      && (forall i :: n <= i < v.size ==> r.buf[i] == zero)
      && (forall i :: v.size <= i < |v.buf| ==> r.buf[i] == v.buf[i])
    ensures v.Capacity() < n ==>
      && r.Capacity() == n && r.Contents()[..v.size] == v.Contents()
      && (forall i :: v.size <= i < n ==> r.Contents()[i] == zero)
    ensures v.size < n <= v.Capacity() ==> r.buf == v.buf
  {
    if n == v.size then v
    else if n < v.size then Vector(v.buf[..n] + seq(v.size - n, _ => zero) + v.buf[v.size..], n)
    else if n > v.Capacity() then ReAllocate(v, n, zero).(size := n)
    else v.(size := n)
  }

  /** `shrink_to_fit()`: reallocates to exactly `size` cells when there are more. */
  function ShrinkToFit<T>(v: Vector<T>, zero: T): (r: Vector<T>)
    requires v.Valid()
    ensures r.Valid() && r.Contents() == v.Contents() && r.Capacity() == v.size
    ensures v.Capacity() == v.size ==> r == v
  {
    if v.Capacity() > v.size then ReAllocate(v, v.size, zero) else v
  }

  // ---------------------------------------------------------------- mutation

  /** `push_back` (both overloads) and `emplace_back`, with the new element
      already constructed: grow if full, then write it after the last element. */
  function PushBack<T>(v: Vector<T>, x: T, zero: T): (r: Vector<T>)
    requires v.Valid()
    ensures r.Valid() && r.Contents() == v.Contents() + [x]
    ensures r.Capacity() == if v.size < v.Capacity() then v.Capacity()
      else if v.size == 0 then 1 else 2 * v.size
    ensures v.size < v.Capacity() ==> forall i :: v.size < i < |v.buf| ==> r.buf[i] == v.buf[i]
    ensures DefaultTail(v, zero) ==> DefaultTail(r, zero)
  {
    var room := ExpandCapacity(v, zero);
    Vector(room.buf[v.size := x], v.size + 1)
  }

  /** `pop_back()`: undefined on an empty vector; resets the vacated cell. */
  function PopBack<T>(v: Vector<T>, zero: T): (r: Vector<T>)
    requires v.Valid() && v.size > 0
    ensures r.Valid() && r.Contents() == v.Contents()[..v.size - 1]
    ensures r.Capacity() == v.Capacity() && r.buf[v.size - 1] == zero
    ensures forall i :: v.size <= i < |v.buf| ==> r.buf[i] == v.buf[i]
    ensures DefaultTail(v, zero) ==> DefaultTail(r, zero)
  {
    Vector(v.buf[v.size - 1 := zero], v.size - 1)
  }

  /** The block after the backward shift loop of `emplace` has stopped at `stop`
      and written `x` there: the cells from `stop` up to the last element have
      each moved one cell right, dropping the last element, and the rest of the
      block is untouched. */
  function OpenGap<T>(buf: seq<T>, size: nat, stop: nat, x: T): (r: seq<T>)
    requires stop < size <= |buf|
    ensures |r| == |buf| && r[stop] == x
    ensures forall j :: 0 <= j < stop ==> r[j] == buf[j]
    ensures forall j :: stop < j < size ==> r[j] == buf[j - 1]
    ensures forall j :: size <= j < |buf| ==> r[j] == buf[j]
  {
    buf[..stop] + [x] + buf[stop..size - 1] + buf[size..]
  }

  /** `emplace(begin() + pos, x)`, as written. Yields (vector, position returned).

      An empty vector is reallocated to exactly one cell, whatever its capacity.
      Otherwise the last element is saved, the backward shift loop copies each
      cell from its left neighbour down to `pos` and writes `x` where it stops,
      the vector grows to exactly `size + 1` cells if it was full, and the saved
      element is written after the old last one. At `end()` the loop stops at
      the last element, so `x` lands before the old last element. */
  function Emplace<T>(v: Vector<T>, pos: nat, x: T, zero: T): (r: (Vector<T>, nat))
    requires v.Valid() && pos <= v.size
    ensures r.0.Valid() && r.0.size == v.size + 1
    ensures v.size == 0 ==> r.0.Contents() == [x] && r.0.Capacity() == 1 && r.1 == 0
    ensures 0 < v.size ==>
      r.1 == pos && r.0.Capacity() == if v.size == v.Capacity() then v.size + 1 else v.Capacity()
    ensures 0 < v.size && pos < v.size ==>
      r.0.Contents() == v.Contents()[..pos] + [x] + v.Contents()[pos..]
    ensures 0 < v.size && pos == v.size ==>
      r.0.Contents() == v.Contents()[..v.size - 1] + [x, v.Contents()[v.size - 1]]
    ensures 0 < v.size < v.Capacity() ==>
      forall i :: v.size < i < |v.buf| ==> r.0.buf[i] == v.buf[i]
  {
    if v.size == 0 then
      var block := ReAllocate(v, 1, zero);
      (Vector(block.buf[0 := x], 1), 0)
    else
      var stop := if pos < v.size then pos else v.size - 1;
      ShiftThenAppendElements(v, stop, x, zero);
      (AppendSaved(Vector(OpenGap(v.buf, v.size, stop, x), v.size), v.buf[v.size - 1], zero), pos)
  }

  /** The last steps of `emplace`: grow to exactly `size + 1` cells when full,
      then write the element saved before the shift after the last one. */
  function AppendSaved<T>(v: Vector<T>, last: T, zero: T): (r: Vector<T>)
    requires v.Valid()
    ensures r.Valid() && r.Contents() == v.Contents() + [last]
    ensures r.Capacity() == if v.size == v.Capacity() then v.size + 1 else v.Capacity()
    ensures v.size < v.Capacity() ==> forall i :: v.size < i < |v.buf| ==> r.buf[i] == v.buf[i]
  {
    var room := if v.size == v.Capacity() then ReAllocate(v, v.size + 1, zero) else v;
    Vector(room.buf[v.size := last], v.size + 1)
  }

  /** The elements after the shift and the append of the saved last element:
      `x` inserted at `stop` into the old elements. */
  lemma ShiftThenAppendElements<T>(v: Vector<T>, stop: nat, x: T, zero: T)
    requires v.Valid() && stop < v.size
    ensures AppendSaved(Vector(OpenGap(v.buf, v.size, stop, x), v.size), v.buf[v.size - 1], zero).Contents()
      == v.Contents()[..stop] + [x] + v.Contents()[stop..]
  {
    var gap := OpenGap(v.buf, v.size, stop, x);
    assert gap[..v.size] == v.Contents()[..stop] + [x] + v.Contents()[stop..v.size - 1];
    assert v.Contents()[stop..v.size - 1] + [v.buf[v.size - 1]] == v.Contents()[stop..];
  }

  /** `erase(begin() + pos)`: the elements after `pos` move one cell left; the
      vacated last cell keeps its old value. Yields (vector, position returned). */
  function Erase<T>(v: Vector<T>, pos: nat): (r: (Vector<T>, nat))
    requires v.Valid() && pos < v.size
    ensures r.0.Valid() && r.0.Capacity() == v.Capacity() && r.1 == pos
    ensures r.0.Contents() == v.Contents()[..pos] + v.Contents()[pos + 1..]
    ensures pos == v.size - 1 ==> r.1 == r.0.size
    ensures forall i :: r.0.size <= i < |v.buf| ==> r.0.buf[i] == v.buf[i]
  {
    (Vector(v.buf[..pos] + v.buf[pos + 1..v.size] + v.buf[v.size - 1..], v.size - 1), pos)
  }

  /** `erase(begin() + first, begin() + last)`: the elements from `last` on move
      left to `first`; the vacated cells keep their old values. The scan for
      `last` starts at `first`, so a `last` before `first` acts as `first`.
      Yields (vector, position returned). */
  function EraseRange<T>(v: Vector<T>, first: nat, last: nat): (r: (Vector<T>, nat))
    requires v.Valid() && first <= v.size && last <= v.size
    ensures r.0.Valid() && r.0.Capacity() == v.Capacity() && r.1 == first
    ensures first <= last ==>
      r.0.size == v.size - (last - first) && r.0.Contents() == v.Contents()[..first] + v.Contents()[last..]
    ensures last < first ==> r.0 == v
    ensures forall i :: r.0.size <= i < |v.buf| ==> r.0.buf[i] == v.buf[i]
  {
    var stop := if last < first then first else last;
    var kept := v.size - stop;
    (Vector(v.buf[..first] + v.buf[stop..v.size] + v.buf[first + kept..], first + kept), first)
  }

  // ------------------------------------------------------------- comparisons

  /** `operator==`: equal sizes, then the elements pairwise. */
  function Eq<T(==)>(a: Vector<T>, b: Vector<T>): (r: bool)
    requires a.Valid() && b.Valid()
    ensures r <==> Algorithm.Equal(a.Contents(), b.Contents())
    ensures r <==> a.Contents() == b.Contents()
  {
    Algorithm.EqualMeaning(a.Contents(), b.Contents());
    a.size == b.size && forall i :: 0 <= i < a.size ==> a.buf[i] == b.buf[i]
  }

  function Ne<T(==)>(a: Vector<T>, b: Vector<T>): bool
    requires a.Valid() && b.Valid()
  {
    !Eq(a, b)
  }

  function Lt<T>(a: Vector<T>, b: Vector<T>, less: (T, T) -> bool): bool
    requires a.Valid() && b.Valid()
  {
    Algorithm.LexicographicalCompare(a.Contents(), b.Contents(), less)
  }

  function Le<T(==)>(a: Vector<T>, b: Vector<T>, less: (T, T) -> bool): bool
    requires a.Valid() && b.Valid()
  {
    Algorithm.LexicographicalCompare(a.Contents(), b.Contents(), less) || Eq(a, b)
  }

  function Gt<T>(a: Vector<T>, b: Vector<T>, less: (T, T) -> bool): bool
    requires a.Valid() && b.Valid()
  {
    Algorithm.LexicographicalCompare(b.Contents(), a.Contents(), less)
  }

  function Ge<T(==)>(a: Vector<T>, b: Vector<T>, less: (T, T) -> bool): bool
    requires a.Valid() && b.Valid()
  {
    Algorithm.LexicographicalCompare(b.Contents(), a.Contents(), less) || Eq(a, b)
  }
}
