/** Bounds- and null-checked array indexing (`ArrayExtensions`). The array
    is only read, so it is its sequence of elements; an element of a
    reference type may be null, so each is an `Option`. */
module ArrayExtensions {
  import opened Wrappers

  /** There is a non-null element at `index`. */
  predicate Present<T>(arrayOfValues: Option<seq<Option<T>>>, index: int) {
    arrayOfValues.Some? && 0 <= index < |arrayOfValues.value| && arrayOfValues.value[index].Some?
  }

  /** `SafeGetElement(arrayOfValues, arrayLocation, defaultElement,
      additionalAction)`: the element at `arrayLocation`, passed through
      `additionalAction` when one is given, or `defaultElement` untouched
      when the array is null, the index is out of range or the element is
      null. */
  function SafeGetElement<T>(arrayOfValues: Option<seq<Option<T>>>, arrayLocation: int, defaultElement: T,
                             additionalAction: Option<T -> T> := None): (r: T)
    ensures !Present(arrayOfValues, arrayLocation) ==> r == defaultElement
    ensures Present(arrayOfValues, arrayLocation) && additionalAction.None? ==>
              r == arrayOfValues.value[arrayLocation].value
    ensures Present(arrayOfValues, arrayLocation) && additionalAction.Some? ==>
              r == additionalAction.value(arrayOfValues.value[arrayLocation].value)
  {
    if arrayOfValues.Some? && arrayLocation >= 0 && |arrayOfValues.value| > arrayLocation
       && arrayOfValues.value[arrayLocation].Some? then
      var element := arrayOfValues.value[arrayLocation].value;
      if additionalAction.None? then element else additionalAction.value(element)
    else
      defaultElement
  }

  /** The result is the default or comes from an element of the array:
      nothing else can be returned. */
  lemma ResultComesFromArray<T>(a: Option<seq<Option<T>>>, i: int, d: T, f: Option<T -> T>)
    ensures var r := SafeGetElement(a, i, d, f);
            r == d || exists k :: 0 <= k < |a.value| && a.value[k].Some? &&
                                  r == (if f.None? then a.value[k].value else f.value(a.value[k].value))
  {
    if Present(a, i) {
      var r := SafeGetElement(a, i, d, f);
      assert r == (if f.None? then a.value[i].value else f.value(a.value[i].value));
    }
  }

  /** The transform is applied to the element looked up without one, and
      never to the default. */
  lemma TransformAppliesToElementOnly<T>(a: Option<seq<Option<T>>>, i: int, d: T, f: T -> T)
    ensures SafeGetElement(a, i, d, Some(f)) ==
            (if Present(a, i) then f(SafeGetElement(a, i, d)) else d)
  {
  }

  /** The identity transform changes nothing. */
  lemma IdentityTransform<T>(a: Option<seq<Option<T>>>, i: int, d: T)
    ensures SafeGetElement(a, i, d, Some((x: T) => x)) == SafeGetElement(a, i, d)
  {
  }

  lemma SafeGetElementExamples()
    ensures var a := Some([Some(9), Some(8), Some(7), Some(6), Some(5), Some(4)]);
            var twice := (x: int) => x * 2;
            && SafeGetElement(a, 0, 1, Some(twice)) == 18
            && SafeGetElement(a, 5, 1, Some(twice)) == 8
            && SafeGetElement(a, 7, 1, Some(twice)) == 1
            && SafeGetElement(a, -1, 1, Some(twice)) == 1
            && SafeGetElement(None, 0, 1, Some(twice)) == 1
    ensures SafeGetElement(Some([Some("a"), None]), 1, "default") == "default"
  {
  }
}
