/**
  Four places where `vector` as written departs from what its tests, comments
  and the rest of its design intend. Each has a concrete input that shows the
  departure on the as-written definition in `Vectors`, and a corrected
  definition with the intended law proved about it.
 */
module VectorFindings {
  import opened Vectors

  // --------------------------------------------- emplace at end() and when empty

  /** `emplace(end(), 3)` on `{1, 2}` yields `{1, 3, 2}`, and the returned
      position reads `2`, not the inserted value. */
  lemma EmplaceAtEndMisplaces()
    ensures var (w, it) := Emplace(FromList([1, 2]), 2, 3, 0);
      w.Contents() == [1, 3, 2] && w.Contents()[it] == 2
  {
    var (w, it) := Emplace(FromList([1, 2]), 2, 3, 0);
    assert w.Contents() == [1, 2][..1] + [3, [1, 2][1]];
  }

  /** `emplace` on an empty vector with room reallocates to a single cell, so
      `reserve(10)` followed by `emplace(begin(), 42)` leaves capacity 1. */
  lemma EmplaceIntoEmptyShrinks()
    ensures var v := Reserve(Empty<int>(), 10, 0);
      v.Capacity() == 10 && Emplace(v, 0, 42, 0).0.Capacity() == 1
  {
  }

  /** `emplace` as intended: insert before position `pos` for every `pos` up to
      and including `end()`, growing to `size + 1` cells only when full. */
  function EmplaceIntended<T>(v: Vector<T>, pos: nat, x: T, zero: T): (r: (Vector<T>, nat))
    requires v.Valid() && pos <= v.size
    ensures r.0.Valid() && r.1 == pos && r.1 < r.0.size && r.0.Contents()[r.1] == x
    ensures r.0.Contents() == v.Contents()[..pos] + [x] + v.Contents()[pos..]
    ensures r.0.Capacity() == if v.size == v.Capacity() then v.size + 1 else v.Capacity()
  {
    var room := if v.size == v.Capacity() then ReAllocate(v, v.size + 1, zero) else v;
    (Vector(room.buf[..pos] + [x] + room.buf[pos..v.size] + room.buf[v.size + 1..], v.size + 1), pos)
  }

  /** On a non-empty vector and before `end()`, the source already does exactly
      what is intended, down to every cell of the block. */
  lemma EmplaceAgreesBeforeEnd<T>(v: Vector<T>, pos: nat, x: T, zero: T)
    requires v.Valid() && 0 < v.size && pos < v.size
    ensures Emplace(v, pos, x, zero) == EmplaceIntended(v, pos, x, zero)
  {
    var w := Emplace(v, pos, x, zero).0;
    var u := EmplaceIntended(v, pos, x, zero).0;
    assert w.buf == u.buf;
  }

  /** The intended `emplace(end(), x)` is `push_back(x)` as far as the elements go,
      and the intended `emplace` never lowers the capacity. */
  lemma EmplaceIntendedAtEndAppends<T>(v: Vector<T>, x: T, zero: T)
    requires v.Valid()
    ensures EmplaceIntended(v, v.size, x, zero).0.Contents() == PushBack(v, x, zero).Contents()
    ensures forall pos :: 0 <= pos <= v.size ==> EmplaceIntended(v, pos, x, zero).0.Capacity() >= v.Capacity()
  {
    assert v.Contents()[v.size..] == [];
    assert v.Contents()[..v.size] == v.Contents();
  }

  // ------------------------------------------- emplace from one of its own cells

  /** `emplace(begin() + pos, v[src])`, as written: the argument is a reference
      to cell `src`, and the new element is constructed from it only after the
      shift loop has run, so it copies the cell as the loop left it (the cell
      at the insertion point itself is not yet overwritten). The inserted
      element is therefore whatever cell `src` holds in the result: the value
      the cell held at the call when it lies at or before the insertion point
      (or the call is at `end()`), and its left neighbour's value when the
      shift has moved that into it. */
  function EmplaceFromCell<T>(v: Vector<T>, pos: nat, src: nat, zero: T): (r: (Vector<T>, nat))
    requires v.Valid() && pos <= v.size && src < v.size
    ensures r.0.Valid() && r.0.size == v.size + 1 && r.1 == pos
    ensures r == Emplace(v, pos, r.0.Contents()[src], zero)
    ensures src <= pos || pos == v.size ==> r == Emplace(v, pos, v.buf[src], zero)
    ensures src > pos ==> r == Emplace(v, pos, v.buf[src - 1], zero)
  {
    var read := if src <= pos || pos == v.size then v.buf[src] else v.buf[src - 1];
    ReadCellAfterEmplace(v, pos, src, read, zero);
    Emplace(v, pos, read, zero)
  }

  /** After `emplace`, cell `src` holds `read`: the new element at the stop
      cell, an unmoved element before it, a shifted one after it. */
  lemma ReadCellAfterEmplace<T>(v: Vector<T>, pos: nat, src: nat, read: T, zero: T)
    requires v.Valid() && pos <= v.size && src < v.size
    requires read == if src <= pos || pos == v.size then v.buf[src] else v.buf[src - 1]
    ensures Emplace(v, pos, read, zero).0.Contents()[src] == read
  {
    var c := Emplace(v, pos, read, zero).0.Contents();
    if pos < v.size {
      assert c == v.Contents()[..pos] + [read] + v.Contents()[pos..];
      if src < pos {
        assert c[src] == v.Contents()[src];
      } else if src > pos {
        assert c[src] == v.Contents()[src - 1];
      }
    } else {
      assert c == v.Contents()[..v.size - 1] + [read, v.Contents()[v.size - 1]];
      if src < v.size - 1 {
        assert c[src] == v.Contents()[src];
      }
    }
  }

  /** `{1, 2, 3}`, `emplace(begin(), v[1])` inserts `1`, not `2`: by the time
      the element is built, cell 1 already holds the shifted `1`. */
  lemma EmplaceFromOwnCellReadsShifted()
    ensures var v := FromList([1, 2, 3]);
      v.Contents()[1] == 2 && EmplaceFromCell(v, 0, 1, 0).0.Contents() == [1, 1, 2, 3]
  {
    var v := FromList([1, 2, 3]);
    var w := EmplaceFromCell(v, 0, 1, 0).0;
    assert w.buf == [1, 1, 2, 3];
  }

  /** `emplace(begin() + pos, v[src])` as intended: the argument is copied
      before anything moves, so the new element is the value cell `src` held at
      the call. */
  function EmplaceFromCellIntended<T>(v: Vector<T>, pos: nat, src: nat, zero: T): (r: (Vector<T>, nat))
    requires v.Valid() && pos <= v.size && src < v.size
    ensures r.0.Valid() && r.1 == pos
    ensures r.0.Contents() == v.Contents()[..pos] + [v.Contents()[src]] + v.Contents()[pos..]
  {
    var arg := v.buf[src];
    EmplaceIntended(v, pos, arg, zero)
  }

  /** A referenced cell at or before the insertion point still holds its value
      when the element is built, so there the source already behaves as
      intended. */
  lemma EmplaceFromUnmovedCellAgrees<T>(v: Vector<T>, pos: nat, src: nat, zero: T)
    requires v.Valid() && src <= pos < v.size
    ensures EmplaceFromCell(v, pos, src, zero) == EmplaceFromCellIntended(v, pos, src, zero)
  {
    EmplaceAgreesBeforeEnd(v, pos, v.buf[src], zero);
  }

  // ------------------------------------------------------ resize after erase

  /** `erase` leaves the old last element in the vacated cell, and a later
      `resize` within the capacity brings it back instead of `value_type()`:
      `{1, 2, 3}`, `erase(begin())`, `resize(3)` gives `{2, 3, 3}`, not `{2, 3, 0}`. */
  lemma ResizeAfterEraseExposesStale()
    ensures var w := Erase(FromList([1, 2, 3]), 0).0;
      w.Contents() == [2, 3] && Resize(w, 3, 0).Contents() == [2, 3, 3]
  {
    var w := Erase(FromList([1, 2, 3]), 0).0;
    assert w.buf == [2, 3, 3];
  }

  /** `resize` as intended: every new element is `value_type()`, whether or not
      the block had room for it. */
  function ResizeIntended<T>(v: Vector<T>, n: nat, zero: T): (r: Vector<T>)
    requires v.Valid()
    ensures r.Valid() && r.size == n
    ensures n <= v.size ==> r.Contents() == v.Contents()[..n]
    ensures v.size < n ==> r.Contents() == v.Contents() + seq(n - v.size, _ => zero)
    ensures r.Capacity() == if n <= v.Capacity() then v.Capacity() else n
  {
    if n <= v.size || n > v.Capacity() then Resize(v, n, zero)
    else Vector(v.Contents() + seq(n - v.size, _ => zero) + v.buf[n..], n)
  }

  /** While the cells past the elements hold `value_type()`, the source's
      `resize` is the intended one. */
  lemma ResizeAgreesUnderDefaultTail<T>(v: Vector<T>, n: nat, zero: T)
    requires v.Valid() && DefaultTail(v, zero)
    ensures Resize(v, n, zero) == ResizeIntended(v, n, zero)
  {
    if v.size < n <= v.Capacity() {
      assert Resize(v, n, zero).buf == ResizeIntended(v, n, zero).buf;
    }
  }
}
