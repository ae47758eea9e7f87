/** `shell(array, fnCompare = defaultCompare)`: a Shell sort of a shallow copy
    of `array` with the gaps n/2, n/4, ..., 1. The source's shift test is the
    comparator's result used as a truth value (`Nonzero`), not `> 0`. */
module Shell {
  import opened Ordering
  import opened Contract
  import Insertion

  /** The gaps the outer loop runs through, starting from `gap` and halving
      with integer division until 0. */
  function Gaps(gap: nat): (r: seq<nat>)
    ensures forall k :: 0 <= k < |r| ==> r[k] > 0
    decreases gap
  {
    if gap == 0 then [] else [gap] + Gaps(gap / 2)
  }

  /** The gap sequence starts at `gap`, halves at every step and, whenever it
      is not empty, ends with 1. */
  lemma {:induction false} GapsHalveDownToOne(gap: nat)
    ensures var r := Gaps(gap);
            && (gap == 0 <==> r == [])
            && (gap > 0 ==> r[0] == gap && r[|r| - 1] == 1)
            && (forall k :: 0 < k < |r| ==> r[k] == r[k - 1] / 2)
    decreases gap
  {
    if gap > 0 {
      GapsHalveDownToOne(gap / 2);
    }
  }

  /** The innermost loop and the write after it: `x` is held, the hole is at
      `j`, and while `j >= gap` and the test moves `c[j - gap]`, that element
      moves into the hole and the hole moves `gap` to the left. */
  function GapInsert<T>(c: seq<T>, j: nat, x: T, gap: nat, cmp: (T, T) -> int, test: ShiftTest): (r: seq<T>)
    requires 0 < gap && j < |c|
    ensures |r| == |c|
    decreases j
  {
    if j >= gap && Shifts(cmp, test, c[j - gap], x) then
      GapInsert(c[j := c[j - gap]], j - gap, x, gap, cmp, test)
    else
      c[j := x]
  }

  /** The middle loop: gapped insertion of each `c[i]`, `i` from `gap` up. */
  function GapPass<T>(c: seq<T>, i: nat, gap: nat, cmp: (T, T) -> int, test: ShiftTest): (r: seq<T>)
    requires 0 < gap
    ensures |r| == |c|
    decreases |c| - i
  {
    if i >= |c| then c
    else GapPass(GapInsert(c, i, c[i], gap, cmp, test), i + 1, gap, cmp, test)
  }

  /** One gapped pass per gap, in order. */
  function Passes<T>(c: seq<T>, gaps: seq<nat>, cmp: (T, T) -> int, test: ShiftTest): (r: seq<T>)
    requires forall k :: 0 <= k < |gaps| ==> gaps[k] > 0
    ensures |r| == |c|
    decreases |gaps|
  {
    if gaps == [] then c
    else Passes(GapPass(c, gaps[0], gaps[0], cmp, test), gaps[1..], cmp, test)
  }

  /** What the source computes on its copy of `s`. */
  function ShellSortBy<T>(s: seq<T>, cmp: (T, T) -> int, test: ShiftTest): (r: seq<T>)
    ensures |r| == |s|
  {
    Passes(s, Gaps(|s| / 2), cmp, test)
  }

  // Permutation

  /** The held value replaces whatever the hole held; nothing else is lost. */
  lemma {:induction false} GapInsertPermutes<T>(c: seq<T>, j: nat, x: T, gap: nat, cmp: (T, T) -> int, test: ShiftTest)
    requires 0 < gap && j < |c|
    ensures multiset(GapInsert(c, j, x, gap, cmp, test)) == multiset(c) - multiset{c[j]} + multiset{x}
    decreases j
  {
    if j >= gap && Shifts(cmp, test, c[j - gap], x) {
      var c' := c[j := c[j - gap]];
      GapInsertPermutes(c', j - gap, x, gap, cmp, test);
      assert c'[j - gap] == c[j - gap];
      UpdateReplaces(c, j, c[j - gap]);
      calc {
        multiset(GapInsert(c, j, x, gap, cmp, test));
        multiset(c') - multiset{c[j - gap]} + multiset{x};
        multiset(c) - multiset{c[j]} + multiset{c[j - gap]} - multiset{c[j - gap]} + multiset{x};
        multiset(c) - multiset{c[j]} + multiset{x};
      }
    }
  }

  /** Writing `v` at `j` trades one occurrence of the old `c[j]` for `v`. */
  lemma UpdateReplaces<T>(c: seq<T>, j: nat, v: T)
    requires j < |c|
    ensures multiset(c[j := v]) == multiset(c) - multiset{c[j]} + multiset{v}
  {
  }

  lemma {:induction false} GapPassPermutes<T>(c: seq<T>, i: nat, gap: nat, cmp: (T, T) -> int, test: ShiftTest)
    requires 0 < gap
    ensures multiset(GapPass(c, i, gap, cmp, test)) == multiset(c)
    decreases |c| - i
  {
    if i < |c| {
      GapInsertPermutes(c, i, c[i], gap, cmp, test);
      GapPassPermutes(GapInsert(c, i, c[i], gap, cmp, test), i + 1, gap, cmp, test);
    }
  }

  lemma {:induction false} PassesPermute<T>(c: seq<T>, gaps: seq<nat>, cmp: (T, T) -> int, test: ShiftTest)
    requires forall k :: 0 <= k < |gaps| ==> gaps[k] > 0
    ensures multiset(Passes(c, gaps, cmp, test)) == multiset(c)
    decreases |gaps|
  {
    if gaps != [] {
      GapPassPermutes(c, gaps[0], gaps[0], cmp, test);
      PassesPermute(GapPass(c, gaps[0], gaps[0], cmp, test), gaps[1..], cmp, test);
    }
  }

  /** The output is a permutation of the input for every comparator and
      either shift test. */
  lemma ShellSortPermutes<T>(s: seq<T>, cmp: (T, T) -> int, test: ShiftTest)
    ensures multiset(ShellSortBy(s, cmp, test)) == multiset(s)
  {
    PassesPermute(s, Gaps(|s| / 2), cmp, test);
  }

  // Order

  /** With gap 1 the gapped insertion is the insertion of `x` into `c[..j]`. */
  lemma {:induction false} GapInsertOneIsInsert<T>(c: seq<T>, j: nat, x: T, cmp: (T, T) -> int, test: ShiftTest)
    requires j < |c|
    ensures GapInsert(c, j, x, 1, cmp, test) == Insertion.InsertBy(c[..j], x, cmp, test) + c[j + 1..]
    decreases j
  {
    if j >= 1 && Shifts(cmp, test, c[j - 1], x) {
      var c' := c[j := c[j - 1]];
      GapInsertOneIsInsert(c', j - 1, x, cmp, test);
      assert c'[..j - 1] == c[..j][..j - 1];
      assert c'[j..] == [c[j - 1]] + c[j + 1..];
    } else {
      assert c[j := x] == c[..j] + [x] + c[j + 1..];
    }
  }

  /** A pass with gap 1 is an insertion sort of what it is given: starting
      from an in-order prefix, it leaves the whole sequence in order. */
  lemma {:induction false} GapPassOneInOrder<T(!new)>(c: seq<T>, i: nat, cmp: (T, T) -> int, test: ShiftTest)
    requires Asymmetric(cmp, test)
    requires i <= |c| && InOrder(c[..i], cmp, test)
    ensures InOrder(GapPass(c, i, 1, cmp, test), cmp, test)
    decreases |c| - i
  {
    if i < |c| {
      var c' := GapInsert(c, i, c[i], 1, cmp, test);
      GapInsertOneIsInsert(c, i, c[i], cmp, test);
      Insertion.InsertInOrder(c[..i], c[i], cmp, test);
      assert c'[..i + 1] == Insertion.InsertBy(c[..i], c[i], cmp, test);
      GapPassOneInOrder(c', i + 1, cmp, test);
    } else {
      assert c[..i] == c;
    }
  }

  /** When the last gap is 1 the result is in order, whatever the earlier
      passes did. */
  lemma {:induction false} PassesEndingWithOneInOrder<T(!new)>(c: seq<T>, gaps: seq<nat>, cmp: (T, T) -> int, test: ShiftTest)
    requires Asymmetric(cmp, test)
    requires forall k :: 0 <= k < |gaps| ==> gaps[k] > 0
    requires gaps != [] && gaps[|gaps| - 1] == 1
    ensures InOrder(Passes(c, gaps, cmp, test), cmp, test)
    decreases |gaps|
  {
    var next := GapPass(c, gaps[0], gaps[0], cmp, test);
    if |gaps| == 1 {
      if |c| == 0 {
        assert next == [];
      } else {
        assert InOrder(c[..1], cmp, test);
        GapPassOneInOrder(c, 1, cmp, test);
      }
    } else {
      PassesEndingWithOneInOrder(next, gaps[1..], cmp, test);
    }
  }

  /** Whenever the shift test never moves two elements past each other, the
      output has no adjacent pair the test would move. */
  lemma ShellSortInOrder<T(!new)>(s: seq<T>, cmp: (T, T) -> int, test: ShiftTest)
    requires Asymmetric(cmp, test)
    ensures InOrder(ShellSortBy(s, cmp, test), cmp, test)
  {
    GapsHalveDownToOne(|s| / 2);
    if |s| >= 2 {
      PassesEndingWithOneInOrder(s, Gaps(|s| / 2), cmp, test);
    }
  }

  /** Inputs of length 0 or 1 run no pass at all. */
  lemma ShellShortInput<T>(s: seq<T>, cmp: (T, T) -> int, test: ShiftTest)
    requires |s| <= 1
    ensures ShellSortBy(s, cmp, test) == s
  {
  }

  /** With the `> 0` test and a total comparator the output is sorted. */
  lemma ShellSortSortedWithPositiveTest<T(!new)>(s: seq<T>, cmp: (T, T) -> int)
    requires Total(cmp)
    ensures Sorted(ShellSortBy(s, cmp, Positive), cmp)
  {
    PositiveIsAsymmetric(cmp);
    ShellSortInOrder(s, cmp, Positive);
    InOrderPositiveIsSorted(ShellSortBy(s, cmp, Positive), cmp);
  }

  /** The truthy test as written sorts when the comparator is total and
      never returns a negative number: then "nonzero" is "> 0". */
  lemma ShellSortSortedWhenNonNegative<T(!new)>(s: seq<T>, cmp: (T, T) -> int)
    requires Total(cmp) && NonNegative(cmp)
    ensures Sorted(ShellSortBy(s, cmp, Nonzero), cmp)
  {
    assert Asymmetric(cmp, Nonzero);
    ShellSortInOrder(s, cmp, Nonzero);
  }

  /** The truthy test as written swaps any pair the comparator calls
      "less than": `[a, b]` with `cmp(a, b) < 0` comes out `[b, a]`, which is
      out of order whenever `cmp(b, a) > 0`. */
  lemma ShellReversesOrderedPair<T>(a: T, b: T, cmp: (T, T) -> int)
    requires cmp(a, b) < 0
    ensures ShellSortBy([a, b], cmp, Nonzero) == [b, a]
    ensures cmp(b, a) > 0 ==> !Sorted(ShellSortBy([a, b], cmp, Nonzero), cmp)
  {
    assert Gaps(1) == [1];
    var pass := GapPass([a, b], 1, 1, cmp, Nonzero);
    assert GapInsert([a, b], 1, b, 1, cmp, Nonzero) == [b, a];
    assert pass == GapPass([b, a], 2, 1, cmp, Nonzero) == [b, a];
    assert Passes([a, b], [1], cmp, Nonzero) == Passes(pass, [], cmp, Nonzero);
    var out := [b, a];
    assert cmp(out[0], out[1]) == cmp(b, a);
  }

  /** The documented example comparator on `[1, 2]`: the source as written
      returns `[2, 1]`; with the `> 0` test it returns `[1, 2]`. */
  lemma ShellMisordersDocumentedComparator()
    ensures ShellSortBy([1, 2], CompareNumbers, Nonzero) == [2, 1]
    ensures !Sorted(ShellSortBy([1, 2], CompareNumbers, Nonzero), CompareNumbers)
    ensures ShellSortBy([1, 2], CompareNumbers, Positive) == [1, 2]
  {
    ShellReversesOrderedPair(1, 2, CompareNumbers);
    assert Gaps(1) == [1];
    assert GapInsert([1, 2], 1, 2, 1, CompareNumbers, Positive) == [1, 2];
    assert GapPass([1, 2], 1, 1, CompareNumbers, Positive) == GapPass([1, 2], 2, 1, CompareNumbers, Positive);
    assert Passes([1, 2], [1], CompareNumbers, Positive) == Passes([1, 2], [], CompareNumbers, Positive);
  }

  // The loops

  /** The innermost `for` over `j` and the write of `swap` after it. */
  method GapInsertAt<T>(c: array<T>, i: nat, gap: nat, cmp: (T, T) -> int, test: ShiftTest)
    requires 0 < gap <= i < c.Length
    modifies c
    ensures c[..] == GapInsert(old(c[..]), i, old(c[i]), gap, cmp, test)
  {
    var swap := c[i];
    var j := i;
    while j >= gap && Shifts(cmp, test, c[j - gap], swap)
      invariant 0 <= j <= i
      invariant GapInsert(c[..], j, swap, gap, cmp, test) == GapInsert(old(c[..]), i, swap, gap, cmp, test)
      decreases j
    {
      c[j] := c[j - gap];
      j := j - gap;
    }
    c[j] := swap;
  }

  /** The `for` over `i` from `gap` to the end. */
  method GapPassInPlace<T>(c: array<T>, gap: nat, cmp: (T, T) -> int, test: ShiftTest)
    requires 0 < gap
    modifies c
    ensures c[..] == GapPass(old(c[..]), gap, gap, cmp, test)
  {
    var i := gap;
    while i < c.Length
      invariant gap <= i
      invariant GapPass(c[..], i, gap, cmp, test) == GapPass(old(c[..]), gap, gap, cmp, test)
      decreases c.Length - i
    {
      GapInsertAt(c, i, gap, cmp, test);
      i := i + 1;
    }
  }

  /** The `while (gap > 0)` loop over the halving gaps. */
  method ShellSortInPlace<T>(c: array<T>, cmp: (T, T) -> int, test: ShiftTest)
    modifies c
    ensures c[..] == ShellSortBy(old(c[..]), cmp, test)
  {
    var size := c.Length;
    var gap: nat := size / 2;
    while gap > 0
      invariant Passes(c[..], Gaps(gap), cmp, test) == ShellSortBy(old(c[..]), cmp, test)
      decreases gap
    {
      GapPassInPlace(c, gap, cmp, test);
      gap := gap / 2;
    }
  }

  /** The checks, the empty short-circuit and the copy the shift test is
      applied on; shared by `Shell` and `ShellCorrected`. */
  method ShellWith<T>(arr: ArrayArg<T>, fnCompare: CompareArg<T>, defaultCompare: (T, T) -> int, test: ShiftTest)
    returns (r: Outcome<T>)
    ensures fnCompare.NotCallable? ==> r == Err(FnCompareNotFunction)
    ensures !fnCompare.NotCallable? && arr.NotArray? ==> r == Err(ArrayNotArray)
    ensures !fnCompare.NotCallable? && arr.Arr? ==>
              && r.Ok? && fresh(r.result)
              && r.result[..] == ShellSortBy(arr.a[..], ComparatorOf(fnCompare, Some(defaultCompare)), test)
    ensures arr.Arr? ==> unchanged(arr.a)
  {
    var checked := Validate(fnCompare, Some(defaultCompare), arr.Arr?);
    if checked.Invalid? {
      return Err(checked.error);
    }
    if arr.a.Length == 0 {
      // `return []`: a new empty array, the same as a copy of the empty input
      var empty := Slice(arr.a);
      return Ok(empty);
    }
    var c := Slice(arr.a);
    ShellSortInPlace(c, checked.cmp, test);
    return Ok(c);
  }

  /** The library entry point as written: the shift test is the truthiness
      of the comparator's result. */
  method Shell<T>(arr: ArrayArg<T>, fnCompare: CompareArg<T>, defaultCompare: (T, T) -> int)
    returns (r: Outcome<T>)
    ensures fnCompare.NotCallable? ==> r == Err(FnCompareNotFunction)
    ensures !fnCompare.NotCallable? && arr.NotArray? ==> r == Err(ArrayNotArray)
    ensures !fnCompare.NotCallable? && arr.Arr? ==>
              && r.Ok? && fresh(r.result)
              && r.result[..] == ShellSortBy(arr.a[..], ComparatorOf(fnCompare, Some(defaultCompare)), Nonzero)
    ensures arr.Arr? ==> unchanged(arr.a)
  {
    r := ShellWith(arr, fnCompare, defaultCompare, Nonzero);
  }

  /** The entry point with the shift test the insertion sort uses, `> 0`. */
  method ShellCorrected<T>(arr: ArrayArg<T>, fnCompare: CompareArg<T>, defaultCompare: (T, T) -> int)
    returns (r: Outcome<T>)
    ensures fnCompare.NotCallable? ==> r == Err(FnCompareNotFunction)
    ensures !fnCompare.NotCallable? && arr.NotArray? ==> r == Err(ArrayNotArray)
    ensures !fnCompare.NotCallable? && arr.Arr? ==>
              && r.Ok? && fresh(r.result)
              && r.result[..] == ShellSortBy(arr.a[..], ComparatorOf(fnCompare, Some(defaultCompare)), Positive)
    ensures arr.Arr? ==> unchanged(arr.a)
  {
    r := ShellWith(arr, fnCompare, defaultCompare, Positive);
  }
}
