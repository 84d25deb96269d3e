/**
  The two range algorithms every container comparison is built on:
  `lexicographical_compare` and `equal`, over whole ranges given as sequences.

  The element type's `operator<` is the parameter `less`; the `operator>` that
  `lexicographical_compare` also calls is `less` with its arguments swapped.
 */
module Algorithm {

  /** `lexicographical_compare(a, b)`: walk both ranges in step; the first pair
      the element order separates decides, otherwise the range that runs out
      first (with the other one left) is the smaller. */
  function LexicographicalCompare<T>(a: seq<T>, b: seq<T>, less: (T, T) -> bool): bool
    decreases |a|
  {
    if |a| == 0 || |b| == 0 then |a| == 0 && |b| != 0
    else if less(a[0], b[0]) then true
    else if less(b[0], a[0]) then false
    else LexicographicalCompare(a[1..], b[1..], less)
  }

  /** `equal(a, b)`: pairwise `!=` finds no difference and both ranges end together. */
  function Equal<T(==)>(a: seq<T>, b: seq<T>): bool
    decreases |a|
  {
    if |a| == 0 || |b| == 0 then |a| == 0 && |b| == 0
    else if a[0] != b[0] then false
    else Equal(a[1..], b[1..])
  }

  /** Position `k` is one where the element order tells `a[k]` and `b[k]` apart. */
  predicate Decisive<T>(a: seq<T>, b: seq<T>, less: (T, T) -> bool, k: int) {
    0 <= k < |a| && 0 <= k < |b| && (less(a[k], b[k]) || less(b[k], a[k]))
  }

  /** No position before `k` is decisive. */
  ghost predicate NoDecisiveBefore<T>(a: seq<T>, b: seq<T>, less: (T, T) -> bool, k: int) {
    forall j :: 0 <= j < k ==> !Decisive(a, b, less, j)
  }

  function Min(x: nat, y: nat): nat { if x <= y then x else y }

  /** Where the comparison loop of `lexicographical_compare` stops: the first
      decisive position, or the length of the shorter range when there is none. */
  function FirstDecisive<T>(a: seq<T>, b: seq<T>, less: (T, T) -> bool): (k: nat)
    ensures k <= Min(|a|, |b|)
    ensures NoDecisiveBefore(a, b, less, k)
    ensures k < Min(|a|, |b|) ==> Decisive(a, b, less, k)
    decreases |a|
  {
    if |a| == 0 || |b| == 0 then 0
    else if Decisive(a, b, less, 0) then 0
    else
      var k := FirstDecisive(a[1..], b[1..], less);
      assert forall j :: 1 <= j < 1 + k ==> !Decisive(a, b, less, j) by {
        forall j | 1 <= j < 1 + k ensures !Decisive(a, b, less, j) {
          assert !Decisive(a[1..], b[1..], less, j - 1);
        }
      }
      1 + k
  }

  /** The element `<` is trichotomous: for any two elements exactly one of
      `x < y`, `y < x` and `x == y` holds. Transitivity is not needed by any
      law below and is not part of it. */
  ghost predicate Trichotomous<T(!new)>(less: (T, T) -> bool) {
    forall x, y :: (x == y ==> !less(x, y)) && (x != y ==> less(x, y) != less(y, x))
  }

  /** The comparison is decided by the first decisive position. */
  lemma {:induction false} LexicographicalCompareAtFirstDecisive<T>(a: seq<T>, b: seq<T>, less: (T, T) -> bool, k: nat)
    requires Decisive(a, b, less, k) && NoDecisiveBefore(a, b, less, k)
    ensures LexicographicalCompare(a, b, less) == less(a[k], b[k])
    decreases k
  {
    if k > 0 {
      assert !Decisive(a, b, less, 0);
      assert forall j :: 0 <= j < k - 1 ==> Decisive(a[1..], b[1..], less, j) == Decisive(a, b, less, j + 1);
      LexicographicalCompareAtFirstDecisive(a[1..], b[1..], less, k - 1);
    }
  }

  /** Without a decisive position, `a` is less exactly when it is the shorter range. */
  lemma {:induction false} LexicographicalCompareWithoutDecisive<T>(a: seq<T>, b: seq<T>, less: (T, T) -> bool)
    requires NoDecisiveBefore(a, b, less, Min(|a|, |b|))
    ensures LexicographicalCompare(a, b, less) == (|a| < |b|)
    decreases |a|
  {
    if |a| != 0 && |b| != 0 {
      assert !Decisive(a, b, less, 0);
      assert forall j :: 0 <= j < Min(|a|, |b|) - 1 ==> Decisive(a[1..], b[1..], less, j) == Decisive(a, b, less, j + 1);
      LexicographicalCompareWithoutDecisive(a[1..], b[1..], less);
    }
  }

  /** The whole law of `lexicographical_compare`, in terms of where its loop stops. */
  lemma LexicographicalCompareMeaning<T>(a: seq<T>, b: seq<T>, less: (T, T) -> bool)
    ensures var k := FirstDecisive(a, b, less);
      LexicographicalCompare(a, b, less) == if k < Min(|a|, |b|) then less(a[k], b[k]) else |a| < |b|
  {
    var k := FirstDecisive(a, b, less);
    if k < Min(|a|, |b|) {
      LexicographicalCompareAtFirstDecisive(a, b, less, k);
    } else {
      LexicographicalCompareWithoutDecisive(a, b, less);
    }
  }

  /** For a trichotomous element order, a position is decisive exactly when the elements differ,
      so the comparison is decided at the first index where the ranges differ. */
  lemma LexicographicalCompareFirstDifference<T(!new)>(a: seq<T>, b: seq<T>, less: (T, T) -> bool, k: nat)
    requires Trichotomous(less)
    requires k < |a| && k < |b| && a[k] != b[k]
    requires forall j :: 0 <= j < k ==> a[j] == b[j]
    ensures LexicographicalCompare(a, b, less) == less(a[k], b[k])
  {
    LexicographicalCompareAtFirstDecisive(a, b, less, k);
  }

  /** For a trichotomous element order, when one range is a prefix of the other the shorter is less. */
  lemma LexicographicalComparePrefix<T(!new)>(a: seq<T>, b: seq<T>, less: (T, T) -> bool)
    requires Trichotomous(less)
    requires forall j :: 0 <= j < Min(|a|, |b|) ==> a[j] == b[j]
    ensures LexicographicalCompare(a, b, less) == (|a| < |b|)
  {
    LexicographicalCompareWithoutDecisive(a, b, less);
  }

  /** The empty range is less than `b` exactly when `b` is non-empty, whatever the element order. */
  lemma LexicographicalCompareEmpty<T>(b: seq<T>, less: (T, T) -> bool)
    ensures LexicographicalCompare([], b, less) <==> |b| > 0
  {
  }

  /** No range is less than itself when the element order is irreflexive. */
  lemma LexicographicalCompareIrreflexive<T(!new)>(a: seq<T>, less: (T, T) -> bool)
    requires forall x :: !less(x, x)
    ensures !LexicographicalCompare(a, a, less)
  {
    LexicographicalCompareWithoutDecisive(a, a, less);
  }

  /** `a < b` and `b < a` never hold together when the element order is asymmetric. */
  lemma LexicographicalCompareAsymmetric<T(!new)>(a: seq<T>, b: seq<T>, less: (T, T) -> bool)
    requires forall x, y :: less(x, y) ==> !less(y, x)
    ensures !(LexicographicalCompare(a, b, less) && LexicographicalCompare(b, a, less))
  {
    var k := FirstDecisive(a, b, less);
    assert forall j :: Decisive(a, b, less, j) == Decisive(b, a, less, j);
    if k < Min(|a|, |b|) {
      LexicographicalCompareAtFirstDecisive(a, b, less, k);
      LexicographicalCompareAtFirstDecisive(b, a, less, k);
    } else {
      LexicographicalCompareWithoutDecisive(a, b, less);
      LexicographicalCompareWithoutDecisive(b, a, less);
    }
  }

  /** `equal` holds exactly for ranges of one length with equal elements pairwise. */
  lemma {:induction false} EqualMeaning<T>(a: seq<T>, b: seq<T>)
    ensures Equal(a, b) <==> |a| == |b| && forall i :: 0 <= i < |a| ==> a[i] == b[i]
    decreases |a|
  {
    if |a| != 0 && |b| != 0 && a[0] == b[0] {
      EqualMeaning(a[1..], b[1..]);
      if |a| == |b| && forall i :: 0 <= i < |a| - 1 ==> a[1..][i] == b[1..][i] {
        forall i | 0 <= i < |a| ensures a[i] == b[i] {
          if i > 0 { assert a[1..][i - 1] == b[1..][i - 1]; }
        }
      }
    }
  }

  /** `equal` is sequence equality. */
  lemma EqualIsEquality<T>(a: seq<T>, b: seq<T>)
    ensures Equal(a, b) <==> a == b
  {
    EqualMeaning(a, b);
  }

  /** For a trichotomous element order exactly one of `a < b`, `b < a` and `equal(a, b)` holds. */
  lemma Trichotomy<T(!new)>(a: seq<T>, b: seq<T>, less: (T, T) -> bool)
    requires Trichotomous(less)
    ensures var lt, gt, eq := LexicographicalCompare(a, b, less), LexicographicalCompare(b, a, less), Equal(a, b);
      (lt || gt || eq) && !(lt && gt) && !(lt && eq) && !(gt && eq)
  {
    EqualMeaning(a, b);
    LexicographicalCompareAsymmetric(a, b, less);
    var k := FirstDecisive(a, b, less);
    assert forall j :: Decisive(a, b, less, j) == Decisive(b, a, less, j);
    if k < Min(|a|, |b|) {
      assert a[k] != b[k];
      LexicographicalCompareAtFirstDecisive(a, b, less, k);
      LexicographicalCompareAtFirstDecisive(b, a, less, k);
    } else {
      assert forall j :: 0 <= j < Min(|a|, |b|) ==> a[j] == b[j] by {
        forall j | 0 <= j < Min(|a|, |b|) ensures a[j] == b[j] {
          assert !Decisive(a, b, less, j);
        }
      }
      LexicographicalCompareWithoutDecisive(a, b, less);
      LexicographicalCompareWithoutDecisive(b, a, less);
    }
  }

  /** The `while` loop of `lexicographical_compare`, index by index; it computes
      `LexicographicalCompare`. */
  method LexicographicalCompareLoop<T>(a: seq<T>, b: seq<T>, less: (T, T) -> bool) returns (r: bool)
    ensures r == LexicographicalCompare(a, b, less)
  {
    var i := 0;
    while i != |a| && i != |b|
      invariant i <= |a| && i <= |b|
      invariant LexicographicalCompare(a, b, less) == LexicographicalCompare(a[i..], b[i..], less)
    {
      if less(a[i], b[i]) {
        return true;
      }
      if less(b[i], a[i]) {
        return false;
      }
      assert a[i..][1..] == a[i + 1..] && b[i..][1..] == b[i + 1..];
      i := i + 1;
    }
    r := i == |a| && i != |b|;
  }

  /** The `while` loop of `equal`, index by index; it computes `Equal`. */
  method EqualLoop<T(==)>(a: seq<T>, b: seq<T>) returns (r: bool)
    ensures r == Equal(a, b)
  {
    var i := 0;
    while i != |a| && i != |b|
      invariant i <= |a| && i <= |b|
      invariant Equal(a, b) == Equal(a[i..], b[i..])
    {
      if a[i] != b[i] {
        return false;
      }
      assert a[i..][1..] == a[i + 1..] && b[i..][1..] == b[i + 1..];
      i := i + 1;
    }
    r := i == |a| && i == |b|;
  }
}
