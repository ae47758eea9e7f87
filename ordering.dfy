/** Properties of a comparator `cmp: (T, T) -> int` (negative, zero or
    positive), the shift test each sort applies to the comparator's result,
    and the notions of sortedness and stability the sorts are judged by. */
module Ordering {

  /** The test a sort applies to `cmp(a[j], held)` to decide whether `a[j]`
      moves right: `Positive` is `> 0`; `Nonzero` is JavaScript truthiness of
      an integer result. */
  datatype ShiftTest = Positive | Nonzero

  predicate Shifts<T>(cmp: (T, T) -> int, test: ShiftTest, a: T, b: T) {
    match test
    case Positive => cmp(a, b) > 0
    case Nonzero => cmp(a, b) != 0
  }

  /** The ascending -1/0/1 number comparator of the documentation's examples
      and the unit tests. */
  function CompareNumbers(x: int, y: int): int {
    if x < y then -1 else if x > y then 1 else 0
  }

  /** `cmp(a, b) <= 0` holds one way or the other for every pair. */
  ghost predicate Total<T(!new)>(cmp: (T, T) -> int) {
    forall a, b :: cmp(a, b) <= 0 || cmp(b, a) <= 0
  }

  /** `cmp(a, b) <= 0` is transitive. */
  ghost predicate Transitive<T(!new)>(cmp: (T, T) -> int) {
    forall a, b, c :: cmp(a, b) <= 0 && cmp(b, c) <= 0 ==> cmp(a, c) <= 0
  }

  /** The comparator never reports "less than". */
  ghost predicate NonNegative<T(!new)>(cmp: (T, T) -> int) {
    forall a, b :: cmp(a, b) >= 0
  }

  /** A shift test that never moves both of two elements past each other. */
  ghost predicate Asymmetric<T(!new)>(cmp: (T, T) -> int, test: ShiftTest) {
    forall a, b :: Shifts(cmp, test, a, b) ==> !Shifts(cmp, test, b, a)
  }

  /** Every adjacent pair (x, y) has `cmp(x, y) <= 0`. */
  ghost predicate Sorted<T>(s: seq<T>, cmp: (T, T) -> int) {
    forall i :: 0 < i < |s| ==> cmp(s[i - 1], s[i]) <= 0
  }

  /** Every pair, adjacent or not, is in order. */
  ghost predicate PairwiseSorted<T>(s: seq<T>, cmp: (T, T) -> int) {
    forall i, j :: 0 <= i < j < |s| ==> cmp(s[i], s[j]) <= 0
  }

  /** No adjacent pair would be shifted by `test`. */
  ghost predicate InOrder<T>(s: seq<T>, cmp: (T, T) -> int, test: ShiftTest) {
    forall i :: 0 < i < |s| ==> !Shifts(cmp, test, s[i - 1], s[i])
  }

  /** The comparator answers each pair and its swap consistently:
      `cmp(a, b) > 0` exactly when `cmp(b, a) < 0`. */
  ghost predicate SignConsistent<T(!new)>(cmp: (T, T) -> int) {
    forall a, b :: cmp(a, b) > 0 <==> cmp(b, a) < 0
  }

  /** `a` and `b` compare equal: neither comes after the other. */
  predicate Equivalent<T>(cmp: (T, T) -> int, a: T, b: T) {
    cmp(a, b) <= 0 && cmp(b, a) <= 0
  }

  /** The elements of `s` that compare equal to `k`, in their order in `s`. */
  function EquivalentsOf<T>(s: seq<T>, cmp: (T, T) -> int, k: T): seq<T> {
    if s == [] then []
    else EquivalentsOf(s[..|s| - 1], cmp, k)
         + (if Equivalent(cmp, s[|s| - 1], k) then [s[|s| - 1]] else [])
  }

  lemma {:induction false} EquivalentsOfAppend<T>(s: seq<T>, t: seq<T>, cmp: (T, T) -> int, k: T)
    ensures EquivalentsOf(s + t, cmp, k) == EquivalentsOf(s, cmp, k) + EquivalentsOf(t, cmp, k)
    decreases |t|
  {
    if t == [] {
      assert s + t == s;
    } else {
      assert (s + t)[..|s + t| - 1] == s + t[..|t| - 1];
      EquivalentsOfAppend(s, t[..|t| - 1], cmp, k);
    }
  }

  /** Under a transitive comparator, adjacent order implies order of every pair. */
  lemma {:induction false} SortedIsPairwise<T(!new)>(s: seq<T>, cmp: (T, T) -> int)
    requires Transitive(cmp)
    requires Sorted(s, cmp)
    ensures PairwiseSorted(s, cmp)
    decreases |s|
  {
    if |s| > 1 {
      var init := s[..|s| - 1];
      assert Sorted(init, cmp);
      SortedIsPairwise(init, cmp);
      forall i, j | 0 <= i < j < |s| ensures cmp(s[i], s[j]) <= 0 {
        if j < |s| - 1 {
          assert init[i] == s[i] && init[j] == s[j];
        } else if i < |s| - 2 {
          assert init[i] == s[i] && init[|s| - 2] == s[|s| - 2];
          assert cmp(s[i], s[|s| - 2]) <= 0;
        }
      }
    }
  }

  /** The `> 0` test never shifts two elements past each other when the
      comparator is total. */
  lemma PositiveIsAsymmetric<T(!new)>(cmp: (T, T) -> int)
    requires Total(cmp)
    ensures Asymmetric(cmp, Positive)
  {
  }

  /** For a sign-consistent comparator "neither comes after the other" is
      "the comparator returns 0". */
  lemma EquivalentIsCompareZero<T(!new)>(cmp: (T, T) -> int, a: T, b: T)
    requires SignConsistent(cmp)
    ensures Equivalent(cmp, a, b) <==> cmp(a, b) == 0
  {
  }

  /** No adjacent pair shifted by `> 0` is exactly "sorted". */
  lemma InOrderPositiveIsSorted<T>(s: seq<T>, cmp: (T, T) -> int)
    ensures InOrder(s, cmp, Positive) <==> Sorted(s, cmp)
  {
  }
}
