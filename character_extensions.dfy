/** Case-aware equality of two characters (`CharacterExtensions`). */
module CharacterExtensions {
  import opened Strings

  /** `src.ToString().Equals(compare.ToString(), caseCompare)`: the two
      one-character strings compared under `caseCompare`, which ignores case
      unless told otherwise. */
  function EqualTo(src: char, compare: char, caseCompare: Comparison := OrdinalIgnoreCase): (r: bool)
    ensures caseCompare == Ordinal ==> (r <==> src == compare)
    ensures caseCompare == OrdinalIgnoreCase ==>
              (r <==> src == compare
                      || ('a' <= src <= 'z' && compare as int == src as int - 32)
                      || ('a' <= compare <= 'z' && src as int == compare as int - 32))
  {
    var r := TextEquals([src], [compare], caseCompare);
    assert r <==> CharEquals([src][0], [compare][0], caseCompare);
    r
  }

  /** Every character equals itself, whatever the comparison. */
  lemma EqualToReflexive(c: char, mode: Comparison)
    ensures EqualTo(c, c, mode)
  {
  }

  /** The order of the operands does not matter. */
  lemma EqualToSymmetric(a: char, b: char, mode: Comparison)
    ensures EqualTo(a, b, mode) == EqualTo(b, a, mode)
  {
  }

  /** Equal under the ordinal comparison implies equal ignoring case. */
  lemma OrdinalImpliesIgnoreCase(a: char, b: char)
    ensures EqualTo(a, b, Ordinal) ==> EqualTo(a, b)
  {
  }

  lemma EqualToExamples()
    ensures EqualTo('E', 'e') && EqualTo('f', 'F')
    ensures !EqualTo('h', 'H', Ordinal) && EqualTo('h', 'h', Ordinal)
  {
  }
}
