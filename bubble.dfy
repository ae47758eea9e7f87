/** `bubble(array, fnCompare)` as the source has it: no default comparator,
    no copy, and a swap helper that cannot reach the array it is meant to
    swap in, so the first nonzero comparison ends the call with an error. */
module Bubble {
  import opened Ordering
  import opened Contract

  /** The index of the first adjacent pair, from `i` on, whose comparison is
      nonzero (truthy): where the pass calls `fnSwap`. */
  function FirstNonzero<T>(s: seq<T>, cmp: (T, T) -> int, i: nat): (r: Option<nat>)
    ensures r.Some? ==> && i <= r.value && r.value + 1 < |s|
                        && cmp(s[r.value], s[r.value + 1]) != 0
                        && forall k :: i <= k < r.value ==> cmp(s[k], s[k + 1]) == 0
    ensures r.None? <==> forall k :: i <= k && k + 1 < |s| ==> cmp(s[k], s[k + 1]) == 0
    decreases |s| - i
  {
    if i + 1 >= |s| then None
    else if cmp(s[i], s[i + 1]) != 0 then Some(i)
    else FirstNonzero(s, cmp, i + 1)
  }

  /** The ages 5, 1, 4, 2, 8 of the unit tests' input under their ascending
      -1/0/1 comparator: the very first comparison is nonzero, so the call
      throws instead of returning the sorted array the tests expect. */
  lemma DocumentedInputThrows()
    ensures FirstNonzero([5, 1, 4, 2, 8], CompareNumbers, 0) == Some(0)
  {
  }

  /** `fnSwap(i)`: its first statement reads `array`, a name bound only
      inside `bubble`, so every call throws before it writes anything or sets
      `swapped`. */
  method FnSwap(i: nat) returns (e: Error)
    ensures e == UnboundName("array")
  {
    e := UnboundName("array");
  }

  /** The library entry point. Without a default, an omitted comparator fails
      the function check. The `do ... while (swapped)` body runs once: the
      pass compares each adjacent pair from the left, and the first nonzero
      result calls `fnSwap`, which throws; if every result is 0 the caller's
      own array is returned as it was. */
  method Bubble<T>(arr: ArrayArg<T>, fnCompare: CompareArg<T>) returns (r: Outcome<T>)
    ensures !fnCompare.Given? ==> r == Err(FnCompareNotFunction)
    ensures fnCompare.Given? && arr.NotArray? ==> r == Err(ArrayNotArray)
    ensures fnCompare.Given? && arr.Arr? && arr.a.Length == 0 ==>
              r.Ok? && fresh(r.result) && r.result.Length == 0
    ensures fnCompare.Given? && arr.Arr? && arr.a.Length > 0 ==>
              r == (if FirstNonzero(arr.a[..], fnCompare.cmp, 0).Some? then Err(UnboundName("array")) else Ok(arr.a))
    ensures arr.Arr? ==> unchanged(arr.a)
  {
    var checked := Validate(fnCompare, None, arr.Arr?);
    if checked.Invalid? {
      return Err(checked.error);
    }
    var cmp := checked.cmp;
    var a := arr.a;
    if a.Length == 0 {
      // `return []`: a new empty array, the same as a copy of the empty input
      var empty := Slice(a);
      return Ok(empty);
    }
    var swapped := false;
    var again := true;  // a do-while runs its body before the first test
    while again
      invariant !again ==> FirstNonzero(a[..], cmp, 0).None?
      decreases again
    {
      swapped := false;
      for i := 0 to a.Length - 1
        invariant forall k :: 0 <= k < i ==> cmp(a[k], a[k + 1]) == 0
      {
        if cmp(a[i], a[i + 1]) != 0 {
          assert FirstNonzero(a[..], cmp, 0) == Some(i);
          var e := FnSwap(i);
          return Err(e);
        }
      }
      again := swapped;
    }
    return Ok(a);
  }
}
