/**
  Laws that relate several `vector` operations: checked access against the
  unchecked one, push/pop and emplace/erase round trips, idempotence of the
  capacity operations, the default-tail invariant, and the comparison operators.
 */
module VectorProperties {
  import opened Results
  import opened Vectors
  import Algorithm
  import ReverseIterators

  /** `at(i) == operator[](i)` for every valid position. */
  lemma AtAgreesWithIndex<T>(v: Vector<T>, i: nat)
    requires v.Valid() && i < v.size
    ensures At(v, i) == Ok(Index(v, i))
  {
  }

  /** `at(size + k)` throws for every `k`, including `at(size)`. */
  lemma AtPastEndThrows<T>(v: Vector<T>, k: nat)
    requires v.Valid()
    ensures At(v, v.size + k) == Err(OutOfRange)
  {
  }

  /** A negative argument such as `at(-1)` wraps to `2^64 + i` as a `size_t`,
      which is past the end of any vector whose size leaves room for it. */
  lemma AtNegativeThrows<T>(v: Vector<T>, i: int)
    requires v.Valid() && v.size - SIZE_T_LIMIT <= i < 0
    ensures ToSizeT(i) == SIZE_T_LIMIT + i
    ensures At(v, ToSizeT(i)) == Err(OutOfRange)
  {
    assert (SIZE_T_LIMIT + i) % SIZE_T_LIMIT == i % SIZE_T_LIMIT;
  }

  /** `front()` and `back()` are the first and last elements, which is what
      `*(--rend())` and `*rbegin()` read as well. */
  lemma EndpointAccessors<T>(v: Vector<T>)
    requires v.Valid() && v.size > 0
    ensures At(v, 0) == Ok(Front(v)) && At(v, v.size - 1) == Ok(Back(v))
    ensures Back(v) == ReverseIterators.Deref(v.Contents(), ReverseIterators.RBegin(v.size))
    ensures Front(v) == ReverseIterators.Deref(v.Contents(),
                                               ReverseIterators.PreDecrement(ReverseIterators.REnd()))
  {
    ReverseIterators.DerefFromBack(v.Contents(), 0);
  }

  /** `push_back(x)` then `pop_back()` restores the elements and never lowers the
      capacity; when no reallocation was needed and the tail held defaults, the
      whole state comes back. */
  lemma PushPopRoundTrip<T>(v: Vector<T>, x: T, zero: T)
    requires v.Valid()
    ensures var w := PushBack(v, x, zero);
      && Back(w) == x
      && PopBack(w, zero).Contents() == v.Contents()
      && PopBack(w, zero).Capacity() >= v.Capacity()
    ensures v.size < v.Capacity() && DefaultTail(v, zero) ==> PopBack(PushBack(v, x, zero), zero) == v
  {
    var w := PushBack(v, x, zero);
    assert w.Contents()[..v.size] == v.Contents();
    if v.size < v.Capacity() && DefaultTail(v, zero) {
      assert PopBack(w, zero).buf == v.buf;
    }
  }

  /** `reserve(n)` twice is `reserve(n)` once. */
  lemma ReserveIdempotent<T>(v: Vector<T>, n: nat, zero: T)
    requires v.Valid()
    ensures Reserve(Reserve(v, n, zero), n, zero) == Reserve(v, n, zero)
    ensures Reserve(v, n, zero).Capacity() >= n
  {
  }

  /** `shrink_to_fit()` twice is `shrink_to_fit()` once. */
  lemma ShrinkToFitIdempotent<T>(v: Vector<T>, zero: T)
    requires v.Valid()
    ensures ShrinkToFit(ShrinkToFit(v, zero), zero) == ShrinkToFit(v, zero)
  {
  }

  /** The single-element `erase` is the range `erase` of the one-element range. */
  lemma EraseIsRangeOfOne<T>(v: Vector<T>, pos: nat)
    requires v.Valid() && pos < v.size
    ensures Erase(v, pos) == EraseRange(v, pos, pos + 1)
  {
  }

  /** Erasing what `emplace` inserted (away from `end()`) restores the elements. */
  lemma EmplaceEraseRoundTrip<T>(v: Vector<T>, pos: nat, x: T, zero: T)
    requires v.Valid() && pos <= v.size && (pos < v.size || v.size == 0)
    ensures var (w, it) := Emplace(v, pos, x, zero);
      it == pos && it < w.size && w.Contents()[it] == x && Erase(w, it).0.Contents() == v.Contents()
  {
    var (w, it) := Emplace(v, pos, x, zero);
    var s := v.Contents();
    if v.size == 0 {
      assert Erase(w, it).0.Contents() == [];
    } else {
      assert w.Contents() == s[..pos] + [x] + s[pos..];
      assert w.Contents()[..pos] == s[..pos];
      assert w.Contents()[pos + 1..] == s[pos..];
      assert s[..pos] + s[pos..] == s;
    }
  }

  /** Every operation except `erase` keeps the cells past the elements at
      `value_type()` when they were so before. */
  lemma DefaultTailPreserved<T>(v: Vector<T>, n: nat, pos: nat, x: T, zero: T)
    requires v.Valid() && DefaultTail(v, zero)
    ensures DefaultTail(Reserve(v, n, zero), zero)
    ensures DefaultTail(Resize(v, n, zero), zero)
    ensures DefaultTail(ShrinkToFit(v, zero), zero)
    ensures DefaultTail(Clear(v, zero), zero)
    ensures DefaultTail(PushBack(v, x, zero), zero)
    ensures v.size > 0 ==> DefaultTail(PopBack(v, zero), zero)
    ensures pos <= v.size ==> DefaultTail(Emplace(v, pos, x, zero).0, zero)
  {
    if pos <= v.size {
      EmplaceKeepsDefaultTail(v, pos, x, zero);
    }
  }

  /** `emplace` keeps the cells past the elements at `value_type()`: the shift
      writes only below the new size, and growth fills with `value_type()`. */
  lemma EmplaceKeepsDefaultTail<T>(v: Vector<T>, pos: nat, x: T, zero: T)
    requires v.Valid() && DefaultTail(v, zero) && pos <= v.size
    ensures DefaultTail(Emplace(v, pos, x, zero).0, zero)
  {
    if v.size > 0 {
      var w := Emplace(v, pos, x, zero).0;
      if v.size < v.Capacity() {
        assert forall i :: v.size < i < |v.buf| ==> w.buf[i] == v.buf[i];
      }
    }
  }

  /** While the default-tail invariant holds, `resize` growing within the
      capacity also yields `value_type()` for the new elements. */
  lemma ResizeGrowsWithDefaults<T>(v: Vector<T>, n: nat, zero: T)
    requires v.Valid() && DefaultTail(v, zero) && v.size <= n
    ensures Resize(v, n, zero).Contents()[..v.size] == v.Contents()
    ensures forall i :: v.size <= i < n ==> Resize(v, n, zero).Contents()[i] == zero
  {
  }

  /** The six vector comparison operators, for a trichotomous element order:
      `>` is `<` reversed, `<=` and `>=` are the negations of `>` and `<`, and
      exactly one of `<`, `>`, `==` holds. */
  lemma ComparisonLaws<T(!new)>(a: Vector<T>, b: Vector<T>, less: (T, T) -> bool)
    requires a.Valid() && b.Valid() && Algorithm.Trichotomous(less)
    ensures Gt(a, b, less) == Lt(b, a, less)
    ensures Ne(a, b) <==> a.Contents() != b.Contents()
    ensures Le(a, b, less) <==> !Gt(a, b, less)
    ensures Ge(a, b, less) <==> !Lt(a, b, less)
    ensures Lt(a, b, less) || Gt(a, b, less) || Eq(a, b)
    ensures !(Lt(a, b, less) && Gt(a, b, less)) && !(Lt(a, b, less) && Eq(a, b)) && !(Gt(a, b, less) && Eq(a, b))
  {
    Algorithm.Trichotomy(a.Contents(), b.Contents(), less);
  }
}
