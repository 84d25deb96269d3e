/**
  The element-shifting loops of `vector`, step by step over the block as the
  source writes them, each proved to produce the state its functional
  definition in `Vectors` describes.
 */
module VectorLoops {
  import opened Vectors

  /** A block that agrees with `prev` before `stop`, holds `x` at `stop`, holds
      each of `prev[stop..size - 1]` one cell to the right, and agrees with `prev`
      from `size` on, is that insertion written as a sequence. */
  lemma OpenGapLayout<T>(buf: seq<T>, prev: seq<T>, stop: nat, size: nat, x: T)
    requires stop < size <= |prev| == |buf|
    requires forall j :: 0 <= j < stop ==> buf[j] == prev[j]
    requires buf[stop] == x
    requires forall j :: stop < j < size ==> buf[j] == prev[j - 1]
    requires forall j :: size <= j < |buf| ==> buf[j] == prev[j]
    ensures buf == prev[..stop] + [x] + prev[stop..size - 1] + prev[size..]
  {
    var s := prev[..stop] + [x] + prev[stop..size - 1] + prev[size..];
    assert |s| == |buf|;
    forall j | 0 <= j < |buf|
      ensures buf[j] == s[j]
    {
      if j < stop {
        assert s[j] == prev[j];
      } else if j == stop {
        assert s[j] == x;
      } else if j < size {
        assert s[j] == prev[j - 1];
      } else {
        assert s[j] == prev[j];
      }
    }
  }

  /** The backward loop of `emplace`: from the last element down to the
      insertion point each cell takes its left neighbour's value, then `x` is
      written where the loop stops, which is the last element when `pos` is
      `size`. */
  method ShiftRight<T>(buf: seq<T>, size: nat, pos: nat, x: T) returns (r: seq<T>)
    requires 0 < size <= |buf| && pos <= size
    ensures var stop := if pos < size then pos else size - 1;
      r == buf[..stop] + [x] + buf[stop..size - 1] + buf[size..]
  {
    r := buf;
    var i := size - 1;
    while i > pos
      invariant pos <= i < size || (pos == size && i == size - 1)
      invariant |r| == |buf|
      invariant forall j :: 0 <= j <= i ==> r[j] == buf[j]
      invariant forall j :: i < j < size ==> r[j] == buf[j - 1]
      invariant forall j :: size <= j < |r| ==> r[j] == buf[j]
      decreases i
    {
      r := r[i := r[i - 1]];
      i := i - 1;
    }
    r := r[i := x];
    OpenGapLayout(r, buf, i, size, x);
  }

  /** `emplace`: save the last element, shift right down to the insertion
      point and write the new value, grow if full, append the saved one. */
  method EmplaceShift<T>(v: Vector<T>, pos: nat, x: T, zero: T) returns (w: Vector<T>, it: nat)
    requires v.Valid() && pos <= v.size
    ensures (w, it) == Emplace(v, pos, x, zero)
  {
    if v.size == 0 {
      var block := ReAllocate(v, 1, zero);
      return Vector(block.buf[0 := x], 1), 0;
    }
    var temp := v.buf[v.size - 1];
    var buf := ShiftRight(v.buf, v.size, pos, x);
    if v.size == |buf| {
      buf := ReAllocate(Vector(buf, v.size), v.size + 1, zero).buf;
    }
    buf := buf[v.size := temp];
    return Vector(buf, v.size + 1), pos;
  }

  /** A block that agrees with `prev` before `first`, holds `prev[stop..size]`
      from `first` on, and agrees with `prev` after that, is that removal written
      as a sequence. */
  lemma CloseGapLayout<T>(buf: seq<T>, prev: seq<T>, first: nat, stop: nat, size: nat)
    requires first <= stop <= size <= |prev| == |buf|
    requires forall j :: 0 <= j < first ==> buf[j] == prev[j]
    requires forall j :: first <= j < first + (size - stop) ==> buf[j] == prev[j + stop - first]
    requires forall j :: first + (size - stop) <= j < |buf| ==> buf[j] == prev[j]
    ensures buf == prev[..first] + prev[stop..size] + prev[first + (size - stop)..]
  {
    var s := prev[..first] + prev[stop..size] + prev[first + (size - stop)..];
    assert |s| == |buf|;
    forall j | 0 <= j < |buf|
      ensures buf[j] == s[j]
    {
      if j < first {
        assert s[j] == prev[j];
      } else if j < first + (size - stop) {
        assert s[j] == prev[j + stop - first];
      } else {
        assert s[j] == prev[j];
      }
    }
  }

  /** `erase(position)`: walk to the position, then copy each later element one
      cell to the left. */
  method EraseShift<T>(v: Vector<T>, pos: nat) returns (w: Vector<T>, result: nat)
    requires v.Valid() && pos < v.size
    ensures (w, result) == Erase(v, pos)
  {
    var it := 0;
    while it <= pos
      invariant it <= pos + 1
    {
      it := it + 1;
    }
    it := it - 1;
    result := it;
    it := it + 1;
    var buf := v.buf;
    while it < v.size
      invariant pos + 1 <= it <= v.size
      invariant |buf| == |v.buf|
      invariant forall j :: 0 <= j < pos ==> buf[j] == v.buf[j]
      invariant forall j :: pos <= j < it - 1 ==> buf[j] == v.buf[j + 1]
      invariant forall j :: it - 1 <= j < |buf| ==> buf[j] == v.buf[j]
    {
      buf := buf[it - 1 := buf[it]];
      it := it + 1;
    }
    CloseGapLayout(buf, v.buf, pos, pos + 1, v.size);
    w := Vector(buf, v.size - 1);
  }

  /** `erase(first, last)`: walk to `first`, walk on to `last`, then copy the
      remaining elements down and shrink by the distance between the cursors. */
  method EraseRangeShift<T>(v: Vector<T>, first: nat, last: nat) returns (w: Vector<T>, result: nat)
    requires v.Valid() && first <= v.size && last <= v.size
    ensures (w, result) == EraseRange(v, first, last)
  {
    var f := 0;
    while f < first
      invariant f <= first
    {
      f := f + 1;
    }
    var l := f;
    while l < last
      invariant f <= l && (l <= last || l == f)
    {
      l := l + 1;
    }
    result := f;
    assert l == if last < first then first else last;
    var buf;
    buf, f, l := ShiftLeft(v.buf, f, l, v.size);
    w := Vector(buf, v.size - (l - f));
  }

  /** The copy loop of range `erase`: cursor `l` reads from `last` on and
      cursor `f` writes from `first` on until `l` reaches the end; the cursors
      keep their distance. */
  method ShiftLeft<T>(buf: seq<T>, first: nat, last: nat, size: nat) returns (r: seq<T>, f: nat, l: nat)
    requires first <= last <= size <= |buf|
    ensures r == buf[..first] + buf[last..size] + buf[first + (size - last)..]
    ensures l == size && l - f == last - first
  {
    r, f, l := buf, first, last;
    while l < size
      invariant last <= l <= size && l - f == last - first
      invariant |r| == |buf|
      invariant forall j :: 0 <= j < first ==> r[j] == buf[j]
      invariant forall j :: first <= j < f ==> r[j] == buf[j + last - first]
      invariant forall j :: f <= j < |r| ==> r[j] == buf[j]
    {
      r := r[f := r[l]];
      l := l + 1;
      f := f + 1;
    }
    CloseGapLayout(r, buf, first, last, size);
  }

  /** `operator==`: compare sizes, then the elements in order. */
  method EqualityLoop<T(==)>(a: Vector<T>, b: Vector<T>) returns (r: bool)
    requires a.Valid() && b.Valid()
    ensures r == Eq(a, b)
  {
    if a.size != b.size {
      return false;
    }
    var i := 0;
    while i < a.size
      invariant i <= a.size
      invariant forall j :: 0 <= j < i ==> a.buf[j] == b.buf[j]
    {
      if a.buf[i] != b.buf[i] {
        return false;
      }
      i := i + 1;
    }
    return true;
  }
}
