/** The contract every sort shares: its two arguments as the caller may pass
    them, the errors it throws, what it returns, the argument checks it runs
    first and the shallow copy it sorts. */
module Contract {

  /** The `fnCompare` argument: a callable comparator, `undefined` (the
      argument was left out), or any value that is not a function. */
  datatype CompareArg<!T> = Given(cmp: (T, T) -> int) | Omitted | NotCallable

  /** The `array` argument: a JavaScript array, or any value that is not one. */
  datatype ArrayArg<T> = Arr(a: array<T>) | NotArray

  /** The errors thrown by the sorts. `UnboundName` is the reference error of
      reading a variable that is not in scope. */
  datatype Error =
    | FnCompareNotFunction   // "fnCompare must be a function"
    | ArrayNotArray          // "array must be an Array"
    | UnboundName(name: string)

  /** What a call ends in: a returned array, or a thrown error. */
  datatype Outcome<T> = Ok(result: array<T>) | Err(error: Error)

  datatype Checked<!T> = Valid(cmp: (T, T) -> int) | Invalid(error: Error)

  /** The checks at the head of every sort, in their order: first the
      comparator (after the default parameter, if the sort has one, replaces
      `undefined`), then the array. */
  function Validate<T>(fnCompare: CompareArg<T>, defaultCompare: Option<(T, T) -> int>, isArray: bool): (r: Checked<T>)
    ensures r == Invalid(FnCompareNotFunction) <==>
              fnCompare.NotCallable? || (fnCompare.Omitted? && defaultCompare.None?)
    ensures r == Invalid(ArrayNotArray) <==>
              (fnCompare.Given? || (fnCompare.Omitted? && defaultCompare.Some?)) && !isArray
    ensures r.Valid? <==>
              (fnCompare.Given? || (fnCompare.Omitted? && defaultCompare.Some?)) && isArray
    ensures r.Valid? ==> r.cmp == (if fnCompare.Given? then fnCompare.cmp else defaultCompare.value)
  {
    if !Resolves(fnCompare, defaultCompare) then Invalid(FnCompareNotFunction)
    else if !isArray then Invalid(ArrayNotArray)
    else Valid(ComparatorOf(fnCompare, defaultCompare))
  }

  datatype Option<T> = None | Some(value: T)

  /** The comparator argument is a function once the default parameter, if
      the sort has one, has replaced `undefined`. */
  predicate Resolves<T>(fnCompare: CompareArg<T>, defaultCompare: Option<(T, T) -> int>) {
    fnCompare.Given? || (fnCompare.Omitted? && defaultCompare.Some?)
  }

  /** The comparator a sort uses once the function check has passed. */
  function ComparatorOf<T>(fnCompare: CompareArg<T>, defaultCompare: Option<(T, T) -> int>): (T, T) -> int
    requires Resolves(fnCompare, defaultCompare)
  {
    if fnCompare.Given? then fnCompare.cmp else defaultCompare.value
  }

  /** `array.slice()`: a new array holding the same elements. */
  method Slice<T>(a: array<T>) returns (c: array<T>)
    ensures fresh(c)
    ensures c[..] == a[..]
  {
    c := new T[a.Length](i reads a requires 0 <= i < a.Length => a[i]);
  }
}
