/** The .NET string primitives the text helpers are built from: ordinal
    and ordinal-ignore-case comparison, `IndexOf`, `LastIndexOf`,
    `char.IsWhiteSpace`, `string.IsNullOrEmpty`, `string.IsNullOrWhiteSpace`
    and `Trim`. A C# string is a `seq<char>`; a string that may be null is an
    `Option<String>`. Ignoring case folds ASCII letters to upper case. */
module Strings {
  import opened Wrappers

  type String = seq<char>

  /** The two `StringComparison` modes the model supports. */
  datatype Comparison = Ordinal | OrdinalIgnoreCase

  function ToUpperAscii(c: char): (r: char)
    ensures 'a' <= c <= 'z' ==> 'A' <= r <= 'Z'
    ensures !('a' <= c <= 'z') ==> r == c
  {
    if 'a' <= c <= 'z' then (c as int - 32) as char else c
  }

  predicate CharEquals(a: char, b: char, mode: Comparison) {
    match mode
    case Ordinal => a == b
    case OrdinalIgnoreCase => ToUpperAscii(a) == ToUpperAscii(b)
  }

  /** `string.Equals(a, b, mode)` for two non-null strings. */
  predicate TextEquals(a: String, b: String, mode: Comparison) {
    |a| == |b| && forall i :: 0 <= i < |a| ==> CharEquals(a[i], b[i], mode)
  }

  /** The upper-case image of a string under the ASCII fold. */
  function Upper(s: String): (r: String)
    ensures |r| == |s|
    ensures forall i :: 0 <= i < |s| ==> r[i] == ToUpperAscii(s[i])
  {
    seq(|s|, i requires 0 <= i < |s| => ToUpperAscii(s[i]))
  }

  /** Ignoring case is equality after folding both sides. */
  lemma IgnoreCaseIsFoldedEquality(a: String, b: String)
    ensures TextEquals(a, b, OrdinalIgnoreCase) <==> Upper(a) == Upper(b)
  {
    if Upper(a) == Upper(b) {
      assert |a| == |b|;
      forall i | 0 <= i < |a| ensures CharEquals(a[i], b[i], OrdinalIgnoreCase) {
        assert Upper(a)[i] == Upper(b)[i];
      }
    }
  }

  /** `find` occurs in `s` at position `i` under `mode`. */
  predicate MatchAt(s: String, find: String, i: int, mode: Comparison) {
    0 <= i && i + |find| <= |s| &&
    forall k :: 0 <= k < |find| ==> CharEquals(s[i + k], find[k], mode)
  }

  /** A one-character needle matches at `i` exactly when that character
      is at `i`. */
  lemma CharMatchAt(s: String, c: char, i: int, mode: Comparison)
    ensures MatchAt(s, [c], i, mode) <==> 0 <= i < |s| && CharEquals(s[i], c, mode)
  {
    if MatchAt(s, [c], i, mode) {
      assert CharEquals(s[i + 0], [c][0], mode);
    }
  }

  /** A one-character needle matches exactly where that character does. */
  lemma SingleCharMatches(s: String, c: char, mode: Comparison)
    ensures forall i {:trigger MatchAt(s, [c], i, mode)} ::
              MatchAt(s, [c], i, mode) ==> 0 <= i < |s| && CharEquals(s[i], c, mode)
    ensures forall i {:trigger CharEquals(s[i], c, mode)} ::
              0 <= i < |s| && CharEquals(s[i], c, mode) ==> MatchAt(s, [c], i, mode)
  {
    forall i | MatchAt(s, [c], i, mode) ensures CharEquals(s[i], c, mode) {
      CharMatchAt(s, c, i, mode);
    }
  }

  function IndexOfFrom(s: String, find: String, mode: Comparison, i: nat): (r: int)
    decreases |s| - i
    ensures r == -1 || (i <= r && MatchAt(s, find, r, mode))
    ensures r == -1 ==> forall j :: i <= j ==> !MatchAt(s, find, j, mode)
    ensures r != -1 ==> forall j :: i <= j < r ==> !MatchAt(s, find, j, mode)
  {
    if i + |find| > |s| then -1
    else if MatchAt(s, find, i, mode) then i
    else IndexOfFrom(s, find, mode, i + 1)
  }

  /** `s.IndexOf(find, mode)`: the least match position, or -1. An empty
      needle matches at 0. */
  function IndexOf(s: String, find: String, mode: Comparison): (r: int)
    ensures r == -1 <==> forall j :: !MatchAt(s, find, j, mode)
    ensures r != -1 ==> MatchAt(s, find, r, mode) && forall j :: j < r ==> !MatchAt(s, find, j, mode)
  {
    IndexOfFrom(s, find, mode, 0)
  }

  function LastIndexOfFrom(s: String, find: String, mode: Comparison, i: int): (r: int)
    decreases i + 1
    ensures r == -1 || (0 <= r <= i && MatchAt(s, find, r, mode))
    ensures r == -1 ==> forall j :: j <= i ==> !MatchAt(s, find, j, mode)
    ensures r != -1 ==> forall j :: r < j <= i ==> !MatchAt(s, find, j, mode)
  {
    if i < 0 then -1
    else if MatchAt(s, find, i, mode) then i
    else LastIndexOfFrom(s, find, mode, i - 1)
  }

  /** `s.LastIndexOf(find, mode)`: the greatest match position, or -1. An
      empty needle matches at `|s|`, as in .NET 5 and later. */
  function LastIndexOf(s: String, find: String, mode: Comparison): (r: int)
    ensures r == -1 <==> forall j :: !MatchAt(s, find, j, mode)
    ensures r != -1 ==> MatchAt(s, find, r, mode) && forall j :: r < j ==> !MatchAt(s, find, j, mode)
  {
    LastIndexOfFrom(s, find, mode, |s| - |find|)
  }

  /** `char.IsWhiteSpace`: the Unicode space, line and paragraph separators,
      U+0009 to U+000D, U+0085 and U+00A0. */
  predicate IsWhiteSpace(c: char) {
    || ('\t' <= c <= '\r')
    || c == ' ' || c == '\U{85}' || c == '\U{A0}' || c == '\U{1680}'
    || ('\U{2000}' <= c <= '\U{200A}')
    || c == '\U{2028}' || c == '\U{2029}' || c == '\U{202F}' || c == '\U{205F}' || c == '\U{3000}'
  }

  predicate IsNullOrEmpty(s: Option<String>) {
    s.None? || s.value == []
  }

  predicate IsNullOrWhiteSpace(s: Option<String>) {
    s.None? || forall i :: 0 <= i < |s.value| ==> IsWhiteSpace(s.value[i])
  }

  lemma EmptyIsWhiteSpace(s: Option<String>)
    ensures IsNullOrEmpty(s) ==> IsNullOrWhiteSpace(s)
  {
  }

  /** Index of the first character at or after `i` that is not white space,
      or `|s|` if there is none. */
  function SkipWhiteSpace(s: String, i: nat): (r: nat)
    requires i <= |s|
    ensures i <= r <= |s|
    ensures forall k :: i <= k < r ==> IsWhiteSpace(s[k])
    ensures r == |s| || !IsWhiteSpace(s[r])
    decreases |s| - i
  {
    if i == |s| || !IsWhiteSpace(s[i]) then i else SkipWhiteSpace(s, i + 1)
  }

  /** Index just past the last character before `j` that is not white space,
      or `0` if there is none. */
  function SkipWhiteSpaceBack(s: String, j: nat): (r: nat)
    requires j <= |s|
    ensures r <= j
    ensures forall k :: r <= k < j ==> IsWhiteSpace(s[k])
    ensures r == 0 || !IsWhiteSpace(s[r - 1])
  {
    if j == 0 || !IsWhiteSpace(s[j - 1]) then j else SkipWhiteSpaceBack(s, j - 1)
  }

  /** `r` is the slice of `s` at `lo`, and everything of `s` outside it is
      white space. */
  predicate SliceInWhiteSpace(s: String, r: String, lo: int) {
    0 <= lo <= |s| - |r| && r == s[lo..lo + |r|]
    && (forall i :: 0 <= i < lo ==> IsWhiteSpace(s[i]))
    && (forall i :: lo + |r| <= i < |s| ==> IsWhiteSpace(s[i]))
  }

  /** The forward scan stops at the first character that is not white space. */
  lemma SkipWhiteSpaceAt(s: String, n: nat)
    requires n <= |s|
    requires forall i :: 0 <= i < n ==> IsWhiteSpace(s[i])
    requires n == |s| || !IsWhiteSpace(s[n])
    ensures SkipWhiteSpace(s, 0) == n
  {
    var r := SkipWhiteSpace(s, 0);
    if r < n {
      assert false;
    }
  }

  /** The backward scan stops after the last character that is not white
      space. */
  lemma SkipWhiteSpaceBackAt(s: String, n: nat)
    requires n <= |s|
    requires forall i :: n <= i < |s| ==> IsWhiteSpace(s[i])
    requires n == 0 || !IsWhiteSpace(s[n - 1])
    ensures SkipWhiteSpaceBack(s, |s|) == n
  {
    var r := SkipWhiteSpaceBack(s, |s|);
    if r < n {
      assert false;
    }
  }

  /** `Trim()`: scans forward past the leading white space, then backward
      past the trailing white space, and keeps what lies between; a string
      of white space only trims to the empty string. */
  function Trim(s: String): (r: String)
    ensures |r| <= |s|
    ensures exists lo :: SliceInWhiteSpace(s, r, lo)
    ensures r == [] || (!IsWhiteSpace(r[0]) && !IsWhiteSpace(r[|r| - 1]))
  {
    var lo := SkipWhiteSpace(s, 0);
    var hi := SkipWhiteSpaceBack(s, |s|);
    if lo < hi then
      assert SliceInWhiteSpace(s, s[lo..hi], lo);
      s[lo..hi]
    else
      assert SliceInWhiteSpace(s, [], 0) by {
        forall i | 0 <= i < |s| ensures IsWhiteSpace(s[i]) {
          if i < hi { assert false; }
        }
      }
      []
  }

  /** `Trim` of a string whose first and last characters that are not
      white space are at `lo` and `hi - 1`. */
  lemma TrimAt(s: String, lo: nat, hi: nat)
    requires lo < hi <= |s|
    requires forall i :: 0 <= i < lo ==> IsWhiteSpace(s[i])
    requires forall i :: hi <= i < |s| ==> IsWhiteSpace(s[i])
    requires !IsWhiteSpace(s[lo]) && !IsWhiteSpace(s[hi - 1])
    ensures Trim(s) == s[lo..hi]
  {
    SkipWhiteSpaceAt(s, lo);
    SkipWhiteSpaceBackAt(s, hi);
  }

  /** A string of white space only trims to the empty string. */
  lemma TrimBlank(s: String)
    requires forall i :: 0 <= i < |s| ==> IsWhiteSpace(s[i])
    ensures Trim(s) == []
  {
    SkipWhiteSpaceAt(s, |s|);
  }

  /** A string without white space at either end is its own trim. */
  lemma TrimOfTrimmed(s: String)
    requires s == [] || (!IsWhiteSpace(s[0]) && !IsWhiteSpace(s[|s| - 1]))
    ensures Trim(s) == s
  {
    if s != [] {
      TrimAt(s, 0, |s|);
    }
  }

  lemma TrimIdempotent(s: String)
    ensures Trim(Trim(s)) == Trim(s)
  {
    TrimOfTrimmed(Trim(s));
  }
}
