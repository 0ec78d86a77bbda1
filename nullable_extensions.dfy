/** Helpers on nullable value types (`NullableExtensions`). A `T?` is an
    `Option<T>`; `default(T)`, which generic code cannot name here, is
    passed in as `typeDefault`. */
module NullableExtensions {
  import opened Wrappers

  /** `ToStringOrEmpty(src)`: the value's own string form, or `""` when
      there is no value. The formatting (`T.ToString`) is supplied. */
  function ToStringOrEmpty<T>(src: Option<T>, format: T -> string): (r: string)
    ensures src.None? ==> r == ""
    ensures src.Some? ==> r == format(src.value)
  {
    if src.Some? then format(src.value) else ""
  }

  /** `IsEqual(src, compare)`: there is a value and it equals `compare`. */
  function IsEqual<T(==)>(src: Option<T>, compare: T): (r: bool)
    ensures r <==> src == Some(compare)
  {
    src.Some? && src.value == compare
  }

  /** `IsNullOrDefault(src)`: `default(T)` equals `src.GetValueOrDefault()`,
      which holds when there is no value or the value is the default. */
  function IsNullOrDefault<T(==)>(src: Option<T>, typeDefault: T): (r: bool)
    ensures r <==> src.None? || src.value == typeDefault
    ensures r <==> src.None? || IsEqual(src, typeDefault)
  {
    typeDefault == src.GetOr(typeDefault)
  }

  /** `ValueOrDefault(src, defaultValue)`: the value when there is one,
      otherwise `defaultValue` (itself `default(T)` when omitted). */
  function ValueOrDefault<T>(src: Option<T>, defaultValue: T): (r: T)
    ensures src.Some? ==> r == src.value
    ensures src.None? ==> r == defaultValue
  {
    if src.Some? then src.value else defaultValue
  }

  /** The value-or-default with the type's own default is that default
      exactly when `IsNullOrDefault` holds, and a value-less nullable
      equals nothing. */
  lemma ValueOrDefaultIsDefault<T>(src: Option<T>, typeDefault: T)
    ensures ValueOrDefault(src, typeDefault) == typeDefault <==> IsNullOrDefault(src, typeDefault)
    ensures src.None? ==> forall c: T :: !IsEqual(src, c)
  {
  }

  /** `ValueOrDefault` gives back a value that is present, whatever the
      default, so `IsEqual` holds of it. */
  lemma ValueOrDefaultOfValue<T>(x: T, d1: T, d2: T)
    ensures ValueOrDefault(Some(x), d1) == ValueOrDefault(Some(x), d2) == x
    ensures IsEqual(Some(ValueOrDefault(Some(x), d1)), x)
  {
  }

  /** The library's tests, with `int?`. */
  lemma NullableExamples()
    ensures ToStringOrEmpty(None, (i: int) => "n") == ""
    ensures !IsEqual(None, 1) && !IsEqual(Some(0), 1) && IsEqual(Some(3), 3)
    ensures IsNullOrDefault(None, 0) && IsNullOrDefault(Some(0), 0)
    ensures !IsNullOrDefault(Some(2), 0) && !IsNullOrDefault(Some(-1), 0)
    ensures ValueOrDefault(None, 0) == 0 && ValueOrDefault(None, 99) == 99 && ValueOrDefault(Some(66), 0) == 66
  {
  }
}
