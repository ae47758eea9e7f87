/** `insertion(array, fnCompare = defaultCompare)`: a stable insertion sort
    of a shallow copy of `array`. */
module Insertion {
  import opened Ordering
  import opened Contract

  /** Inserting `x` after the sorted prefix `p` the way the inner loop does:
      walking left from the end of `p`, every element that `test` says comes
      after `x` moves one place right, and `x` lands after the first one that
      does not. */
  function InsertBy<T>(p: seq<T>, x: T, cmp: (T, T) -> int, test: ShiftTest): (r: seq<T>)
    ensures |r| == |p| + 1
    decreases |p|
  {
    if p != [] && Shifts(cmp, test, p[|p| - 1], x) then
      InsertBy(p[..|p| - 1], x, cmp, test) + [p[|p| - 1]]
    else
      p + [x]
  }

  /** Insertion sort as a reference definition: sort all but the last
      element, then insert the last one. */
  function InsertionSortBy<T>(s: seq<T>, cmp: (T, T) -> int, test: ShiftTest): (r: seq<T>)
    ensures |r| == |s|
    decreases |s|
  {
    if s == [] then []
    else
      InsertBy(InsertionSortBy(s[..|s| - 1], cmp, test), s[|s| - 1], cmp, test)
  }

  /** Inserting moves elements without losing or duplicating any. */
  lemma {:induction false} InsertByPermutes<T>(p: seq<T>, x: T, cmp: (T, T) -> int, test: ShiftTest)
    ensures multiset(InsertBy(p, x, cmp, test)) == multiset(p) + multiset{x}
    decreases |p|
  {
    if p != [] && Shifts(cmp, test, p[|p| - 1], x) {
      InsertByPermutes(p[..|p| - 1], x, cmp, test);
      assert p == p[..|p| - 1] + [p[|p| - 1]];
    }
  }

  /** The output is a permutation of the input, whatever the comparator. */
  lemma {:induction false} InsertionSortPermutes<T>(s: seq<T>, cmp: (T, T) -> int, test: ShiftTest)
    ensures multiset(InsertionSortBy(s, cmp, test)) == multiset(s)
    decreases |s|
  {
    if s != [] {
      var init, last := s[..|s| - 1], s[|s| - 1];
      calc {
        multiset(InsertionSortBy(s, cmp, test));
        multiset(InsertBy(InsertionSortBy(init, cmp, test), last, cmp, test));
        { InsertByPermutes(InsertionSortBy(init, cmp, test), last, cmp, test); }
        multiset(InsertionSortBy(init, cmp, test)) + multiset{last};
        { InsertionSortPermutes(init, cmp, test); }
        multiset(init) + multiset{last};
        { assert s == init + [last]; }
        multiset(s);
      }
    }
  }

  /** The last element after an insertion is `x` or the last element of `p`. */
  lemma InsertByLast<T>(p: seq<T>, x: T, cmp: (T, T) -> int, test: ShiftTest)
    ensures var r := InsertBy(p, x, cmp, test);
            r[|r| - 1] == x || (p != [] && r[|r| - 1] == p[|p| - 1])
  {
  }

  /** Inserting into a prefix with no out-of-order adjacent pair keeps it so,
      as long as `test` never moves two elements past each other. */
  lemma {:induction false} InsertInOrder<T(!new)>(p: seq<T>, x: T, cmp: (T, T) -> int, test: ShiftTest)
    requires Asymmetric(cmp, test)
    requires InOrder(p, cmp, test)
    ensures InOrder(InsertBy(p, x, cmp, test), cmp, test)
    decreases |p|
  {
    if p != [] && Shifts(cmp, test, p[|p| - 1], x) {
      var init := p[..|p| - 1];
      assert InOrder(init, cmp, test);
      InsertInOrder(init, x, cmp, test);
      var q := InsertBy(init, x, cmp, test);
      var r := InsertBy(p, x, cmp, test);
      InsertByLast(init, x, cmp, test);
      assert r == q + [p[|p| - 1]];
      if q[|q| - 1] == x {
        assert !Shifts(cmp, test, x, p[|p| - 1]);
      } else {
        assert q[|q| - 1] == p[|p| - 2];
      }
      assert !Shifts(cmp, test, r[|r| - 2], r[|r| - 1]);
    }
  }

  lemma {:induction false} InsertionSortInOrder<T(!new)>(s: seq<T>, cmp: (T, T) -> int, test: ShiftTest)
    requires Asymmetric(cmp, test)
    ensures InOrder(InsertionSortBy(s, cmp, test), cmp, test)
    decreases |s|
  {
    if s != [] {
      InsertionSortInOrder(s[..|s| - 1], cmp, test);
      InsertInOrder(InsertionSortBy(s[..|s| - 1], cmp, test), s[|s| - 1], cmp, test);
    }
  }

  /** With a total comparator the `> 0` insertion sort leaves every adjacent
      pair (x, y) with `cmp(x, y) <= 0`; transitivity is not needed for this. */
  lemma InsertionSortSorted<T(!new)>(s: seq<T>, cmp: (T, T) -> int)
    requires Total(cmp)
    ensures Sorted(InsertionSortBy(s, cmp, Positive), cmp)
  {
    PositiveIsAsymmetric(cmp);
    InsertionSortInOrder(s, cmp, Positive);
    InOrderPositiveIsSorted(InsertionSortBy(s, cmp, Positive), cmp);
  }

  /** With a transitive comparator the elements that compare equal to any
      key keep their relative order through one insertion. */
  lemma {:induction false} InsertStable<T(!new)>(p: seq<T>, x: T, cmp: (T, T) -> int, k: T)
    requires Transitive(cmp)
    ensures EquivalentsOf(InsertBy(p, x, cmp, Positive), cmp, k) == EquivalentsOf(p + [x], cmp, k)
    decreases |p|
  {
    if p != [] && Shifts(cmp, Positive, p[|p| - 1], x) {
      var init, last := p[..|p| - 1], p[|p| - 1];
      assert p == init + [last];
      calc {
        EquivalentsOf(InsertBy(p, x, cmp, Positive), cmp, k);
        EquivalentsOf(InsertBy(init, x, cmp, Positive) + [last], cmp, k);
        { EquivalentsOfAppend(InsertBy(init, x, cmp, Positive), [last], cmp, k); }
        EquivalentsOf(InsertBy(init, x, cmp, Positive), cmp, k) + EquivalentsOf([last], cmp, k);
        { InsertStable(init, x, cmp, k); }
        EquivalentsOf(init + [x], cmp, k) + EquivalentsOf([last], cmp, k);
        { EquivalentsOfAppend(init, [x], cmp, k); }
        EquivalentsOf(init, cmp, k) + (EquivalentsOf([x], cmp, k) + EquivalentsOf([last], cmp, k));
        { NotBothEquivalent(cmp, last, x, k); }
        EquivalentsOf(init, cmp, k) + (EquivalentsOf([last], cmp, k) + EquivalentsOf([x], cmp, k));
        { EquivalentsOfAppend(init, [last], cmp, k); }
        EquivalentsOf(init + [last], cmp, k) + EquivalentsOf([x], cmp, k);
        { EquivalentsOfAppend(init + [last], [x], cmp, k); }
        EquivalentsOf(p + [x], cmp, k);
      }
    }
  }

  lemma NotBothEquivalent<T(!new)>(cmp: (T, T) -> int, a: T, b: T, k: T)
    requires Transitive(cmp)
    requires cmp(a, b) > 0
    ensures EquivalentsOf([a], cmp, k) + EquivalentsOf([b], cmp, k) == EquivalentsOf([b], cmp, k) + EquivalentsOf([a], cmp, k)
  {
    assert [a][..0] == [] && [b][..0] == [];
    if Equivalent(cmp, a, k) && Equivalent(cmp, b, k) {
      assert false;
    }
  }

  /** Stability: elements comparing equal to any key `k` come out in the
      order they went in. */
  lemma {:induction false} InsertionSortStable<T(!new)>(s: seq<T>, cmp: (T, T) -> int, k: T)
    requires Transitive(cmp)
    ensures EquivalentsOf(InsertionSortBy(s, cmp, Positive), cmp, k) == EquivalentsOf(s, cmp, k)
    decreases |s|
  {
    if s != [] {
      var init, last := s[..|s| - 1], s[|s| - 1];
      var sortedInit := InsertionSortBy(init, cmp, Positive);
      calc {
        EquivalentsOf(InsertionSortBy(s, cmp, Positive), cmp, k);
        EquivalentsOf(InsertBy(sortedInit, last, cmp, Positive), cmp, k);
        { InsertStable(sortedInit, last, cmp, k); }
        EquivalentsOf(sortedInit + [last], cmp, k);
        { EquivalentsOfAppend(sortedInit, [last], cmp, k); }
        EquivalentsOf(sortedInit, cmp, k) + EquivalentsOf([last], cmp, k);
        { InsertionSortStable(init, cmp, k); }
        EquivalentsOf(init, cmp, k) + EquivalentsOf([last], cmp, k);
        { EquivalentsOfAppend(init, [last], cmp, k); }
        EquivalentsOf(init + [last], cmp, k);
        { assert s == init + [last]; }
        EquivalentsOf(s, cmp, k);
      }
    }
  }

  /** An input already in order comes back element for element: the shift
      loop never runs. */
  lemma {:induction false} InsertionSortOfInOrder<T>(s: seq<T>, cmp: (T, T) -> int, test: ShiftTest)
    requires InOrder(s, cmp, test)
    ensures InsertionSortBy(s, cmp, test) == s
    decreases |s|
  {
    if s != [] {
      var init := s[..|s| - 1];
      assert InOrder(init, cmp, test);
      InsertionSortOfInOrder(init, cmp, test);
      assert s == init + [s[|s| - 1]];
    }
  }

  /** A sorted input is returned unchanged by the `> 0` insertion sort. */
  lemma InsertionSortOfSorted<T>(s: seq<T>, cmp: (T, T) -> int)
    requires Sorted(s, cmp)
    ensures InsertionSortBy(s, cmp, Positive) == s
  {
    InsertionSortOfInOrder(s, cmp, Positive);
  }

  /** Inputs of length 0 or 1 come back as they are, whatever the comparator:
      it is never consulted. */
  lemma ShortInputIgnoresComparator<T>(s: seq<T>, cmp: (T, T) -> int, test: ShiftTest)
    requires |s| <= 1
    ensures InsertionSortBy(s, cmp, test) == s
  {
    if |s| == 1 {
      assert s[..0] == [];
    }
  }

  /** Where `x` lands: right after the last element of `p` that it does
      not shift, when everything after that element shifts. */
  lemma {:induction false} InsertByPlace<T>(p: seq<T>, x: T, cmp: (T, T) -> int, test: ShiftTest, j: int)
    requires -1 <= j < |p|
    requires j >= 0 ==> !Shifts(cmp, test, p[j], x)
    requires forall k :: j < k < |p| ==> Shifts(cmp, test, p[k], x)
    ensures InsertBy(p, x, cmp, test) == p[..j + 1] + [x] + p[j + 1..]
    decreases |p|
  {
    if j + 1 < |p| {
      var init := p[..|p| - 1];
      InsertByPlace(init, x, cmp, test, j);
      assert init[..j + 1] == p[..j + 1];
      assert init[j + 1..] + [p[|p| - 1]] == p[j + 1..];
    } else {
      assert p[..j + 1] == p;
    }
  }

  /** The array after the shift loop and the final write, read as a sequence. */
  lemma ShiftedLayout<T>(q: seq<T>, p: seq<T>, x: T, i: nat, j: int)
    requires |p| == i < |q| && -1 <= j < i
    requires forall k :: 0 <= k <= j ==> q[k] == p[k]
    requires q[j + 1] == x
    requires forall k :: j < k < i ==> q[k + 1] == p[k]
    ensures q[..i + 1] == p[..j + 1] + [x] + p[j + 1..]
  {
  }

  /** One step of the outer loop: hold `c[i]` as `temp`, shift right every
      element of the prefix `c[..i]` met walking left for which
      `cmp(c[j], temp) > 0`, and put `temp` in the gap. */
  method InsertAt<T>(c: array<T>, i: nat, cmp: (T, T) -> int)
    requires 1 <= i < c.Length
    modifies c
    ensures c[..i + 1] == InsertBy(old(c[..i]), old(c[i]), cmp, Positive)
    ensures c[i + 1..] == old(c[i + 1..])
  {
    ghost var p := c[..i];
    var temp := c[i];
    var j := i - 1;
    while j >= 0 && cmp(c[j], temp) > 0
      invariant -1 <= j < i
      invariant forall k :: 0 <= k <= j ==> c[k] == p[k]
      invariant forall k :: j < k < i ==> c[k + 1] == p[k] && Shifts(cmp, Positive, p[k], temp)
      invariant forall k :: i < k < c.Length ==> c[k] == old(c[k])
    {
      c[j + 1] := c[j];
      j := j - 1;
    }
    c[j + 1] := temp;
    InsertByPlace(p, temp, cmp, Positive, j);
    ShiftedLayout(c[..], p, temp, i, j);
  }

  /** The outer loop of the source, on the copy `c`: each element in turn is
      inserted into the sorted prefix before it. */
  method SortInPlace<T>(c: array<T>, cmp: (T, T) -> int)
    modifies c
    ensures c[..] == InsertionSortBy(old(c[..]), cmp, Positive)
  {
    ghost var s := c[..];
    if c.Length == 0 {
      return;
    }
    var i := 1;
    while i < c.Length
      invariant 1 <= i <= c.Length
      invariant c[..i] == InsertionSortBy(s[..i], cmp, Positive)
      invariant c[i..] == s[i..]
    {
      ghost var before := c[..];
      assert before[i] == s[i];
      InsertAt(c, i, cmp);
      assert s[..i + 1][..i] == s[..i] && s[..i + 1][i] == s[i];
      assert c[i + 1..] == before[i + 1..] == s[i + 1..];
      i := i + 1;
    }
    assert s[..c.Length] == s;
  }

  /** The library entry point. Checks `fnCompare` (after the default
      parameter) and then `array`, returns a new empty array for an empty
      input, and otherwise sorts a shallow copy in place and returns it; the
      caller's array is never written. */
  method Insertion<T>(arr: ArrayArg<T>, fnCompare: CompareArg<T>, defaultCompare: (T, T) -> int)
    returns (r: Outcome<T>)
    ensures fnCompare.NotCallable? ==> r == Err(FnCompareNotFunction)
    ensures !fnCompare.NotCallable? && arr.NotArray? ==> r == Err(ArrayNotArray)
    ensures !fnCompare.NotCallable? && arr.Arr? ==>
              && r.Ok? && fresh(r.result)
              && r.result[..] == InsertionSortBy(arr.a[..], ComparatorOf(fnCompare, Some(defaultCompare)), Positive)
    ensures arr.Arr? ==> unchanged(arr.a)
  {
    var checked := Validate(fnCompare, Some(defaultCompare), arr.Arr?);
    if checked.Invalid? {
      return Err(checked.error);
    }
    var cmp := checked.cmp;
    if arr.a.Length == 0 {
      // `return []`: a new empty array, the same as a copy of the empty input
      var empty := Slice(arr.a);
      return Ok(empty);
    }
    var c := Slice(arr.a);
    SortInPlace(c, cmp);
    return Ok(c);
  }
}
