/** `selection(array, fnCompare = defaultCompare)` as the source has it: the
    argument checks and the shallow copy are there, the sorting loop is not,
    so the copy is returned in the caller's order. */
module Selection {
  import opened Contract

  /** The library entry point. The comparator is checked but never called:
      nothing in the result depends on it. */
  method Selection<T>(arr: ArrayArg<T>, fnCompare: CompareArg<T>, defaultCompare: (T, T) -> int)
    returns (r: Outcome<T>)
    ensures fnCompare.NotCallable? ==> r == Err(FnCompareNotFunction)
    ensures !fnCompare.NotCallable? && arr.NotArray? ==> r == Err(ArrayNotArray)
    ensures !fnCompare.NotCallable? && arr.Arr? ==>
              r.Ok? && fresh(r.result) && r.result[..] == arr.a[..]
    ensures arr.Arr? ==> unchanged(arr.a)
  {
    var checked := Validate(fnCompare, Some(defaultCompare), arr.Arr?);
    if checked.Invalid? {
      return Err(checked.error);
    }
    if arr.a.Length == 0 {
      // `return []`: a new empty array, the same as a copy of the empty input
      var empty := Slice(arr.a);
      return Ok(empty);
    }
    var clonedArray := Slice(arr.a);
    return Ok(clonedArray);
  }
}
