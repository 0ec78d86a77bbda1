/** Null-safe search and extraction on strings (`StringExtensions`). Every
    helper tolerates a null source; the defaults for the comparison mode are
    the C# defaults (ignore case). */
module StringExtensions {
  import opened Wrappers
  import opened Linq
  import opened Strings

  // ---------------------------------------------------------------------
  // ContainsValue / HasValue

  /** Whether `find` occurs in `src`; false when either is null or empty. */
  function ContainsValue(src: Option<String>, find: Option<String>, caseCompare: Comparison := OrdinalIgnoreCase): (r: bool)
    ensures r <==> !IsNullOrEmpty(src) && !IsNullOrEmpty(find)
                   && exists i :: MatchAt(src.value, find.value, i, caseCompare)
  {
    if IsNullOrEmpty(src) || IsNullOrEmpty(find) then false
    else IndexOf(src.value, find.value, caseCompare) >= 0
  }

  /** Another name for `ContainsValue`. */
  function HasValue(src: Option<String>, find: Option<String>, caseCompare: Comparison := OrdinalIgnoreCase): (r: bool)
    ensures r <==> !IsNullOrEmpty(src) && !IsNullOrEmpty(find)
                   && exists i :: MatchAt(src.value, find.value, i, caseCompare)
  {
    ContainsValue(src, find, caseCompare)
  }

  // ---------------------------------------------------------------------
  // EqualsIgnoreCase

  /** Case-insensitive equality in which a null left operand reads as "",
      two nulls are equal, and a null right operand equals nothing else. */
  function EqualsIgnoreCase(src: Option<String>, compare: Option<String>): (r: bool)
    ensures src.None? && compare.None? ==> r
    ensures src.Some? && compare.None? ==> !r
    ensures compare.Some? ==> (r <==> Upper(src.GetOr([])) == Upper(compare.value))
  {
    if src.None? && compare.None? then true
    else compare.Some? && TextEquals(src.GetOr([]), compare.value, OrdinalIgnoreCase)
  }

  // ---------------------------------------------------------------------
  // SafeStartsWith / SafeEndsWith (the overloads taking a StringComparison)

  /** `(src ?? "").StartsWith(find, comparison)`; a null `find` throws. */
  function SafeStartsWith(src: Option<String>, find: Option<String>, comparison: Comparison): (r: Result<bool, Exception>)
    ensures find.None? <==> r == Failure(ArgumentNull("value"))
    ensures find.Some? ==> r.Success?
    ensures find.Some? ==> (r == Success(true) <==> MatchAt(src.GetOr([]), find.value, 0, comparison))
  {
    if find.None? then Failure(ArgumentNull("value"))
    else
      var s, f := src.GetOr([]), find.value;
      Success(|f| <= |s| && TextEquals(s[..|f|], f, comparison))
  }

  /** `(src ?? "").EndsWith(find, comparison)`; a null `find` throws. */
  function SafeEndsWith(src: Option<String>, find: Option<String>, comparison: Comparison): (r: Result<bool, Exception>)
    ensures find.None? <==> r == Failure(ArgumentNull("value"))
    ensures find.Some? ==> r.Success?
    ensures find.Some? ==>
      (r == Success(true) <==> MatchAt(src.GetOr([]), find.value, |src.GetOr([])| - |find.value|, comparison))
  {
    if find.None? then Failure(ArgumentNull("value"))
    else
      var s, f := src.GetOr([]), find.value;
      Success(|f| <= |s| && TextEquals(s[|s| - |f|..], f, comparison))
  }

  /** A non-empty prefix is something the string contains. */
  lemma StartsWithImpliesContains(src: Option<String>, find: Option<String>, mode: Comparison)
    requires SafeStartsWith(src, find, mode) == Success(true)
    requires !IsNullOrEmpty(find)
    ensures ContainsValue(src, find, mode)
  {
  }

  // ---------------------------------------------------------------------
  // SubstringOrEmpty

  /** `src.Skip(start).Take(length)`, with `length == 0` meaning "to the
      end" and a null or empty `src` giving "". */
  function SubstringOrEmpty(src: Option<String>, start: int, length: int := 0): (r: String)
    ensures IsNullOrEmpty(src) ==> r == []
    ensures !IsNullOrEmpty(src) && length == 0 ==> r == src.value[Clamp(start, 0, |src.value|)..]
    ensures !IsNullOrEmpty(src) && length != 0 ==>
      var s := src.value;
      var lo := Clamp(start, 0, |s|);
      r == s[lo..Min(lo + Max(length, 0), |s|)]
  {
    if IsNullOrEmpty(src) then []
    else
      var len := if length == 0 then |src.value| else length;
      Take(Skip(src.value, start), len)
  }

  /** Out-of-range arguments give "", never an error. */
  lemma SubstringOrEmptyOutOfRange(src: Option<String>, start: int, length: int)
    requires src.Some?
    requires length < 0 || start >= |src.value|
    ensures SubstringOrEmpty(src, start, length) == []
  {
  }

  /** A requested range that fits is returned exactly. */
  lemma SubstringOrEmptyInRange(s: String, start: int, length: int)
    requires 0 <= start && 0 < length && start + length <= |s|
    ensures SubstringOrEmpty(Some(s), start, length) == s[start..start + length]
  {
  }

  // ---------------------------------------------------------------------
  // SubstringAfterValue / SubstringAfterLastValue

  /** The part of `src` after the first match of `find`; `src` itself when
      `find` is null, empty or absent; "" for a null or blank `src`. */
  function SubstringAfterValue(src: Option<String>, find: Option<String>, comparison: Comparison := OrdinalIgnoreCase): (r: String)
    ensures IsNullOrWhiteSpace(src) ==> r == []
    ensures !IsNullOrWhiteSpace(src) && IsNullOrEmpty(find) ==> r == src.value
    ensures !IsNullOrWhiteSpace(src) && (forall j :: !MatchAt(src.value, find.GetOr([]), j, comparison)) ==> r == src.value
    ensures !IsNullOrWhiteSpace(src) && (exists j :: MatchAt(src.value, find.GetOr([]), j, comparison)) ==>
      var s, f := src.value, find.GetOr([]);
      var at := |s| - |r| - |f|;
      |r| <= |s| && r == s[|s| - |r|..] && MatchAt(s, f, at, comparison)
      && forall j :: j < at ==> !MatchAt(s, f, j, comparison)
  {
    if IsNullOrWhiteSpace(src) then []
    else
      var s, f := src.value, find.GetOr([]);
      var index := IndexOf(s, f, comparison);
      if index < 0 then s else Take(Skip(s, index + |f|), |s|)
  }

  /** The part of `src` after the last match of `find`; `src` itself when
      `find` is null, empty or absent; "" for a null or blank `src`. */
  function SubstringAfterLastValue(src: Option<String>, find: Option<String>, comparison: Comparison := OrdinalIgnoreCase): (r: String)
    ensures IsNullOrWhiteSpace(src) ==> r == []
    ensures !IsNullOrWhiteSpace(src) && IsNullOrEmpty(find) ==> r == src.value
    ensures !IsNullOrWhiteSpace(src) && !IsNullOrEmpty(find) ==>
      var s, f := src.value, find.value;
      var at := |s| - |r| - |f|;
      || (r == s && forall j :: !MatchAt(s, f, j, comparison))
      || (|r| <= |s| && r == s[|s| - |r|..] && MatchAt(s, f, at, comparison)
          && forall j :: at < j ==> !MatchAt(s, f, j, comparison))
  {
    if IsNullOrWhiteSpace(src) then []
    else if IsNullOrEmpty(find) then src.value
    else
      var s, f := src.value, find.value;
      var index := LastIndexOf(s, f, comparison);
      if index < 0 then s else Take(Skip(s, index + |f|), |s|)
  }

  // ---------------------------------------------------------------------
  // SubstringBeforeValue / SubstringBeforeLastValue

  /** The part of `src` before the first match of `find`; `src` itself when
      `find` is null, empty or absent; "" for a null or empty `src` (a blank
      `src` is searched). */
  function SubstringBeforeValue(src: Option<String>, find: Option<String>, comparison: Comparison := OrdinalIgnoreCase): (r: String)
    ensures IsNullOrEmpty(src) ==> r == []
    ensures !IsNullOrEmpty(src) && IsNullOrEmpty(find) ==> r == src.value
    ensures !IsNullOrEmpty(src) && !IsNullOrEmpty(find) && (forall j :: !MatchAt(src.value, find.value, j, comparison)) ==> r == src.value
    ensures !IsNullOrEmpty(src) && !IsNullOrEmpty(find) && (exists j :: MatchAt(src.value, find.value, j, comparison)) ==>
      var s, f := src.value, find.value;
      |r| <= |s| && r == s[..|r|] && MatchAt(s, f, |r|, comparison)
      && forall j :: j < |r| ==> !MatchAt(s, f, j, comparison)
  {
    if IsNullOrEmpty(src) then []
    else
      var s := src.value;
      var index := IndexOf(s, find.GetOr([]), comparison);
      if IsNullOrEmpty(find) || index < 0 then s else Take(s, index)
  }

  /** The part of `src` before the last match of `find`; `src` itself when
      `find` is null, empty or absent; "" for a null or empty `src`. */
  function SubstringBeforeLastValue(src: Option<String>, find: Option<String>, comparison: Comparison := OrdinalIgnoreCase): (r: String)
    ensures IsNullOrEmpty(src) ==> r == []
    ensures !IsNullOrEmpty(src) && IsNullOrEmpty(find) ==> r == src.value
    ensures !IsNullOrEmpty(src) && !IsNullOrEmpty(find) && (forall j :: !MatchAt(src.value, find.value, j, comparison)) ==> r == src.value
    ensures !IsNullOrEmpty(src) && !IsNullOrEmpty(find) && (exists j :: MatchAt(src.value, find.value, j, comparison)) ==>
      var s, f := src.value, find.value;
      |r| <= |s| && r == s[..|r|] && MatchAt(s, f, |r|, comparison)
      && forall j :: |r| < j ==> !MatchAt(s, f, j, comparison)
  {
    if IsNullOrEmpty(src) then []
    else
      var s := src.value;
      var index := LastIndexOf(s, find.GetOr([]), comparison);
      if IsNullOrEmpty(find) || index < 0 then s else Take(s, index)
  }

  /** A prefix, a middle of length `n` and a suffix that together have the
      length of `s` put `s` back together. */
  lemma Reassemble<T>(s: seq<T>, before: seq<T>, n: nat, after: seq<T>)
    requires |before| + n + |after| == |s|
    requires before == s[..|before|] && after == s[|s| - |after|..]
    ensures s == before + s[|before|..|before| + n] + after
  {
    assert s == s[..|before|] + s[|before|..|before| + n] + s[|before| + n..];
  }

  /** The text around the first match puts itself back together:
      before ++ match ++ after == src. */
  lemma BeforeMatchAfterFirst(s: String, f: String, mode: Comparison)
    requires !IsNullOrWhiteSpace(Some(s)) && f != []
    requires exists j :: MatchAt(s, f, j, mode)
    ensures
      var before := SubstringBeforeValue(Some(s), Some(f), mode);
      var after := SubstringAfterValue(Some(s), Some(f), mode);
      s == before + s[|before|..|before| + |f|] + after
  {
    var before := SubstringBeforeValue(Some(s), Some(f), mode);
    var after := SubstringAfterValue(Some(s), Some(f), mode);
    var at := |s| - |after| - |f|;
    assert at == |before| by {
      assert MatchAt(s, f, at, mode) && MatchAt(s, f, |before|, mode);
    }
    Reassemble(s, before, |f|, after);
  }

  /** The same for the last match. */
  lemma BeforeMatchAfterLast(s: String, f: String, mode: Comparison)
    requires !IsNullOrWhiteSpace(Some(s)) && f != []
    requires exists j :: MatchAt(s, f, j, mode)
    ensures
      var before := SubstringBeforeLastValue(Some(s), Some(f), mode);
      var after := SubstringAfterLastValue(Some(s), Some(f), mode);
      s == before + s[|before|..|before| + |f|] + after
  {
    var before := SubstringBeforeLastValue(Some(s), Some(f), mode);
    var after := SubstringAfterLastValue(Some(s), Some(f), mode);
    var at := |s| - |after| - |f|;
    assert at == |before| by {
      assert MatchAt(s, f, at, mode) && MatchAt(s, f, |before|, mode);
    }
    Reassemble(s, before, |f|, after);
  }

  // ---------------------------------------------------------------------
  // The char overloads: a one-character needle

  /** `SubstringAfterValue` with a character: the part after its first
      occurrence. */
  function SubstringAfterChar(src: Option<String>, find: char, comparison: Comparison := OrdinalIgnoreCase): (r: String)
    ensures IsNullOrWhiteSpace(src) ==> r == []
    ensures !IsNullOrWhiteSpace(src) && (forall j :: 0 <= j < |src.value| ==> !CharEquals(src.value[j], find, comparison)) ==> r == src.value
    ensures !IsNullOrWhiteSpace(src) && (exists j :: 0 <= j < |src.value| && CharEquals(src.value[j], find, comparison)) ==>
      var s := src.value;
      var at := |s| - |r| - 1;
      0 <= at && r == s[at + 1..] && CharEquals(s[at], find, comparison)
      && forall j :: 0 <= j < at ==> !CharEquals(s[j], find, comparison)
  {
    SingleCharMatches(src.GetOr([]), find, comparison);
    SubstringAfterValue(src, Some([find]), comparison)
  }

  /** `SubstringAfterLastValue` with a character. */
  function SubstringAfterLastChar(src: Option<String>, find: char, comparison: Comparison := OrdinalIgnoreCase): (r: String)
    ensures IsNullOrWhiteSpace(src) ==> r == []
    ensures !IsNullOrWhiteSpace(src) && (forall j :: 0 <= j < |src.value| ==> !CharEquals(src.value[j], find, comparison)) ==> r == src.value
    ensures !IsNullOrWhiteSpace(src) && (exists j :: 0 <= j < |src.value| && CharEquals(src.value[j], find, comparison)) ==>
      var s := src.value;
      var at := |s| - |r| - 1;
      0 <= at && r == s[at + 1..] && CharEquals(s[at], find, comparison)
      && forall j :: at < j < |s| ==> !CharEquals(s[j], find, comparison)
  {
    var r := SubstringAfterLastValue(src, Some([find]), comparison);
    if !IsNullOrWhiteSpace(src) && exists j :: 0 <= j < |src.value| && CharEquals(src.value[j], find, comparison) then
      AfterLastCharMatches(src, find, comparison);
      r
    else
      SingleCharMatches(src.GetOr([]), find, comparison);
      r
  }

  /** When `c` occurs in `s`, a suffix `r` that is either all of `s` with no
      match of `[c]` in it, or the text after the last match of `[c]`, is
      the text after the last occurrence of `c`. */
  lemma AfterLastCharOccurrence(s: String, c: char, mode: Comparison, r: String)
    requires exists j :: 0 <= j < |s| && CharEquals(s[j], c, mode)
    requires
      || (r == s && forall j :: !MatchAt(s, [c], j, mode))
      || (|r| <= |s| && r == s[|s| - |r|..] && MatchAt(s, [c], |s| - |r| - 1, mode)
          && forall j :: |s| - |r| - 1 < j ==> !MatchAt(s, [c], j, mode))
    ensures var at := |s| - |r| - 1;
      0 <= at && r == s[at + 1..] && CharEquals(s[at], c, mode)
      && forall j :: at < j < |s| ==> !CharEquals(s[j], c, mode)
  {
    var k :| 0 <= k < |s| && CharEquals(s[k], c, mode);
    CharMatchAt(s, c, k, mode);
    var at := |s| - |r| - 1;
    CharMatchAt(s, c, at, mode);
    forall j | at < j < |s|
      ensures !CharEquals(s[j], c, mode)
    {
      CharMatchAt(s, c, j, mode);
    }
  }

  /** The last match of a one-character needle is the last occurrence of
      that character. */
  lemma AfterLastCharMatches(src: Option<String>, find: char, comparison: Comparison)
    requires !IsNullOrWhiteSpace(src)
    requires exists j :: 0 <= j < |src.value| && CharEquals(src.value[j], find, comparison)
    ensures var s, r := src.value, SubstringAfterLastValue(src, Some([find]), comparison);
      var at := |s| - |r| - 1;
      0 <= at && r == s[at + 1..] && CharEquals(s[at], find, comparison)
      && forall j :: at < j < |s| ==> !CharEquals(s[j], find, comparison)
  {
    AfterLastCharOccurrence(src.value, find, comparison, SubstringAfterLastValue(src, Some([find]), comparison));
  }

  /** `SubstringBeforeValue` with a character. */
  function SubstringBeforeChar(src: Option<String>, find: char, comparison: Comparison := OrdinalIgnoreCase): (r: String)
    ensures IsNullOrEmpty(src) ==> r == []
    ensures !IsNullOrEmpty(src) && (forall j :: 0 <= j < |src.value| ==> !CharEquals(src.value[j], find, comparison)) ==> r == src.value
    ensures !IsNullOrEmpty(src) && (exists j :: 0 <= j < |src.value| && CharEquals(src.value[j], find, comparison)) ==>
      var s := src.value;
      |r| < |s| && r == s[..|r|] && CharEquals(s[|r|], find, comparison)
      && forall j :: 0 <= j < |r| ==> !CharEquals(s[j], find, comparison)
  {
    SingleCharMatches(src.GetOr([]), find, comparison);
    SubstringBeforeValue(src, Some([find]), comparison)
  }

  /** `SubstringBeforeLastValue` with a character. */
  function SubstringBeforeLastChar(src: Option<String>, find: char, comparison: Comparison := OrdinalIgnoreCase): (r: String)
    ensures IsNullOrEmpty(src) ==> r == []
    ensures !IsNullOrEmpty(src) && (forall j :: 0 <= j < |src.value| ==> !CharEquals(src.value[j], find, comparison)) ==> r == src.value
    ensures !IsNullOrEmpty(src) && (exists j :: 0 <= j < |src.value| && CharEquals(src.value[j], find, comparison)) ==>
      var s := src.value;
      |r| < |s| && r == s[..|r|] && CharEquals(s[|r|], find, comparison)
      && forall j :: |r| < j < |s| ==> !CharEquals(s[j], find, comparison)
  {
    SingleCharMatches(src.GetOr([]), find, comparison);
    SubstringBeforeLastValue(src, Some([find]), comparison)
  }

  // ---------------------------------------------------------------------
  // SafeTrim

  /** `Trim()` that lets a null or empty string through. */
  function SafeTrim(src: Option<String>): (r: Option<String>)
    ensures IsNullOrEmpty(src) ==> r == src
    ensures !IsNullOrEmpty(src) ==>
      r.Some? && (exists lo :: SliceInWhiteSpace(src.value, r.value, lo))
      && (r.value == [] || (!IsWhiteSpace(r.value[0]) && !IsWhiteSpace(r.value[|r.value| - 1])))
  {
    if IsNullOrEmpty(src) then src else Some(Trim(src.value))
  }

  lemma SafeTrimIdempotent(src: Option<String>)
    ensures SafeTrim(SafeTrim(src)) == SafeTrim(src)
  {
    if !IsNullOrEmpty(src) {
      TrimIdempotent(src.value);
    }
  }

  // ---------------------------------------------------------------------
  // IsBase64 / IsAllNumber / IsAllAlpha / IsAllAlphaOrNumbers
  //
  // Each is a blank-input guard followed by an anchored regular expression.
  // The `...Body` predicates are what the pattern between `^` and `$`
  // accepts; the validators apply it to the whole string.

  predicate IsAsciiDigit(c: char) { '0' <= c <= '9' }

  predicate IsAsciiLetter(c: char) { 'a' <= c <= 'z' || 'A' <= c <= 'Z' }

  predicate IsAsciiLetterOrDigit(c: char) { IsAsciiLetter(c) || IsAsciiDigit(c) }

  /** The class `[A-Za-z0-9+/]`. */
  predicate IsBase64Char(c: char) { IsAsciiLetterOrDigit(c) || c == '+' || c == '/' }

  /** `\d+` */
  predicate DigitsBody(s: String) { s != [] && All(s, IsAsciiDigit) }

  /** `[a-zA-Z]+` */
  predicate AlphaBody(s: String) { s != [] && All(s, IsAsciiLetter) }

  /** `[a-zA-Z0-9]+` */
  predicate AlphaNumericBody(s: String) { s != [] && All(s, IsAsciiLetterOrDigit) }

  /** `[A-Za-z0-9+/]{4}` */
  predicate FullGroup(g: String) {
    |g| == 4 && IsBase64Char(g[0]) && IsBase64Char(g[1]) && IsBase64Char(g[2]) && IsBase64Char(g[3])
  }

  /** `[A-Za-z0-9+/]{4}|[A-Za-z0-9+/]{3}=|[A-Za-z0-9+/]{2}==` */
  predicate FinalGroup(g: String) {
    |g| == 4 && IsBase64Char(g[0]) && IsBase64Char(g[1])
    && ((IsBase64Char(g[2]) && (IsBase64Char(g[3]) || g[3] == '=')) || (g[2] == '=' && g[3] == '='))
  }

  /** `([A-Za-z0-9+/]{4})*(final group)`: every group has four characters,
      so the last four are the final group. */
  predicate Base64Body(s: String)
    decreases |s|
  {
    if |s| <= 4 then FinalGroup(s) else FullGroup(s[..4]) && Base64Body(s[4..])
  }

  /** Every character of `s` before position `n` is in the alphabet. */
  predicate AlphabetBefore(s: String, n: int) {
    forall i :: 0 <= i < n && i < |s| ==> IsBase64Char(s[i])
  }

  /** Base-64 text described without the pattern: a positive multiple of
      four characters from the alphabet, of which only the last, or the
      last two, may be padding `=`. */
  predicate Base64Shape(s: String) {
    && |s| > 0 && |s| % 4 == 0
    && AlphabetBefore(s, |s| - 2)
    && (IsBase64Char(s[|s| - 2]) || (s[|s| - 2] == '=' && s[|s| - 1] == '='))
    && (IsBase64Char(s[|s| - 1]) || s[|s| - 1] == '=')
  }

  /** One group of four characters: the pattern's final group is the
      shape of a four-character string. */
  lemma FinalGroupIsShape(g: String)
    requires |g| <= 4
    ensures FinalGroup(g) <==> Base64Shape(g)
  {
    if |g| == 4 {
      assert AlphabetBefore(g, 2) <==> IsBase64Char(g[0]) && IsBase64Char(g[1]);
    }
  }

  /** Peeling a leading full group off keeps the shape, and only a full
      group can be peeled. */
  lemma PeelGroup(s: String)
    requires |s| > 4 && |s| % 4 == 0
    ensures Base64Shape(s) <==> FullGroup(s[..4]) && Base64Shape(s[4..])
  {
    var t := s[4..];
    assert |t| >= 4;
    assert t[|t| - 2] == s[|s| - 2] && t[|t| - 1] == s[|s| - 1];
    if AlphabetBefore(s, |s| - 2) {
      assert FullGroup(s[..4]) by {
        assert s[..4][0] == s[0] && s[..4][1] == s[1] && s[..4][2] == s[2] && s[..4][3] == s[3];
      }
      forall i | 0 <= i < |t| - 2 ensures IsBase64Char(t[i]) {
        assert t[i] == s[i + 4];
      }
    }
    if FullGroup(s[..4]) && AlphabetBefore(t, |t| - 2) {
      forall i | 0 <= i < |s| - 2 ensures IsBase64Char(s[i]) {
        if i >= 4 { assert s[i] == t[i - 4]; } else { assert s[i] == s[..4][i]; }
      }
    }
  }

  lemma {:induction false} Base64BodyIsShape(s: String)
    ensures Base64Body(s) <==> Base64Shape(s)
    decreases |s|
  {
    if |s| <= 4 {
      FinalGroupIsShape(s);
    } else {
      Base64BodyIsShape(s[4..]);
      if |s| % 4 == 0 {
        PeelGroup(s);
      } else {
        assert |s[4..]| % 4 != 0;
      }
    }
  }

  /** The Base-64 alphabet and padding hold no white space, so the blank
      guard rejects nothing the pattern accepts. */
  lemma Base64NotBlank(s: String)
    ensures (!IsNullOrWhiteSpace(Some(s)) && Base64Body(s)) <==> Base64Shape(s)
  {
    Base64BodyIsShape(s);
    if Base64Shape(s) {
      assert !IsWhiteSpace(s[|s| - 1]);
    }
  }

  /** Whether `src` is non-blank Base-64 text. */
  function IsBase64(src: Option<String>): (r: bool)
    ensures r <==> src.Some? && Base64Shape(src.value)
  {
    Base64NotBlank(src.GetOr([]));
    !IsNullOrWhiteSpace(src) && Base64Body(src.value)
  }

  /** A string that starts with a letter or digit is not blank. */
  lemma LetterOrDigitNotBlank(s: String)
    requires s != [] && IsAsciiLetterOrDigit(s[0])
    ensures !IsNullOrWhiteSpace(Some(s))
  {
    assert !IsWhiteSpace(s[0]);
  }

  /** Whether `src` is one or more ASCII digits. */
  function IsAllNumber(src: Option<String>): (r: bool)
    ensures r <==> src.Some? && src.value != [] && forall i :: 0 <= i < |src.value| ==> IsAsciiDigit(src.value[i])
  {
    if src.Some? && DigitsBody(src.value) then LetterOrDigitNotBlank(src.value); true
    else !IsNullOrWhiteSpace(src) && DigitsBody(src.value)
  }

  /** Whether `src` is one or more ASCII letters. */
  function IsAllAlpha(src: Option<String>): (r: bool)
    ensures r <==> src.Some? && src.value != [] && forall i :: 0 <= i < |src.value| ==> IsAsciiLetter(src.value[i])
  {
    if src.Some? && AlphaBody(src.value) then LetterOrDigitNotBlank(src.value); true
    else !IsNullOrWhiteSpace(src) && AlphaBody(src.value)
  }

  /** Whether `src` is one or more ASCII letters and digits. */
  function IsAllAlphaOrNumbers(src: Option<String>): (r: bool)
    ensures r <==> src.Some? && src.value != [] && forall i :: 0 <= i < |src.value| ==> IsAsciiLetterOrDigit(src.value[i])
  {
    if src.Some? && AlphaNumericBody(src.value) then LetterOrDigitNotBlank(src.value); true
    else !IsNullOrWhiteSpace(src) && AlphaNumericBody(src.value)
  }

  /** Each validator narrows the one before it: digits and letters are
      alphanumeric. */
  lemma ValidatorsNest(src: Option<String>)
    ensures IsAllNumber(src) ==> IsAllAlphaOrNumbers(src)
    ensures IsAllAlpha(src) ==> IsAllAlphaOrNumbers(src)
    ensures IsAllAlpha(src) ==> !IsAllNumber(src)
  {
    if IsAllAlpha(src) {
      assert IsAsciiLetter(src.value[0]);
    }
  }

  // ---------------------------------------------------------------------
  // The validators as written: .NET's `$` without RegexOptions.Multiline
  // also matches just before a final '\n', so the patterns accept one
  // trailing newline after the text.

  predicate EndAnchor(s: String, body: String -> bool) {
    body(s) || (s != [] && s[|s| - 1] == '\n' && body(s[..|s| - 1]))
  }

  /** Text whose prefix is not blank is not blank either. */
  lemma NotBlankAfterPrefix(s: String)
    requires s != [] && !IsNullOrWhiteSpace(Some(s[..|s| - 1]))
    ensures !IsNullOrWhiteSpace(Some(s))
  {
    var i :| 0 <= i < |s| - 1 && !IsWhiteSpace(s[..|s| - 1][i]);
    assert s[i] == s[..|s| - 1][i];
  }

  /** `IsBase64` as the code computes it: the blank guard, then the pattern
      with its `$` anchor. It accepts exactly the Base-64 text the corrected
      `IsBase64` accepts, and that text followed by one '\n'. */
  function IsBase64AsWritten(src: Option<String>): (r: bool)
    ensures var s := src.GetOr([]);
            r <==> IsBase64(src)
                   || (src.Some? && s != [] && s[|s| - 1] == '\n' && IsBase64(Some(s[..|s| - 1])))
  {
    Base64AnchorShape(src.GetOr([]));
    !IsNullOrWhiteSpace(src) && EndAnchor(src.value, Base64Body)
  }

  /** The pattern with its `$` anchor, behind the blank guard, accepts the
      Base-64 shape with or without one final '\n'. */
  lemma Base64AnchorShape(s: String)
    ensures (!IsNullOrWhiteSpace(Some(s)) && EndAnchor(s, Base64Body))
            <==> Base64Shape(s) || (s != [] && s[|s| - 1] == '\n' && Base64Shape(s[..|s| - 1]))
  {
    Base64NotBlank(s);
    if s != [] {
      var p := s[..|s| - 1];
      Base64NotBlank(p);
      Base64BodyIsShape(p);
      if Base64Shape(p) {
        NotBlankAfterPrefix(s);
      }
    }
  }

  /** `IsAllNumber` as the code computes it: the corrected acceptance, plus
      the same digits followed by one '\n'. */
  function IsAllNumberAsWritten(src: Option<String>): (r: bool)
    ensures var s := src.GetOr([]);
            r <==> IsAllNumber(src)
                   || (src.Some? && s != [] && s[|s| - 1] == '\n' && IsAllNumber(Some(s[..|s| - 1])))
  {
    var s := src.GetOr([]);
    if s != [] && IsAllNumber(Some(s[..|s| - 1])) then
      NotBlankAfterPrefix(s);
      !IsNullOrWhiteSpace(src) && EndAnchor(src.value, DigitsBody)
    else !IsNullOrWhiteSpace(src) && EndAnchor(src.value, DigitsBody)
  }

  /** `IsAllAlpha` as the code computes it: the corrected acceptance, plus
      the same letters followed by one '\n'. */
  function IsAllAlphaAsWritten(src: Option<String>): (r: bool)
    ensures var s := src.GetOr([]);
            r <==> IsAllAlpha(src)
                   || (src.Some? && s != [] && s[|s| - 1] == '\n' && IsAllAlpha(Some(s[..|s| - 1])))
  {
    var s := src.GetOr([]);
    if s != [] && IsAllAlpha(Some(s[..|s| - 1])) then
      NotBlankAfterPrefix(s);
      !IsNullOrWhiteSpace(src) && EndAnchor(src.value, AlphaBody)
    else !IsNullOrWhiteSpace(src) && EndAnchor(src.value, AlphaBody)
  }

  /** `IsAllAlphaOrNumbers` as the code computes it: the corrected
      acceptance, plus the same text followed by one '\n'. */
  function IsAllAlphaOrNumbersAsWritten(src: Option<String>): (r: bool)
    ensures var s := src.GetOr([]);
            r <==> IsAllAlphaOrNumbers(src)
                   || (src.Some? && s != [] && s[|s| - 1] == '\n' && IsAllAlphaOrNumbers(Some(s[..|s| - 1])))
  {
    var s := src.GetOr([]);
    if s != [] && IsAllAlphaOrNumbers(Some(s[..|s| - 1])) then
      NotBlankAfterPrefix(s);
      !IsNullOrWhiteSpace(src) && EndAnchor(src.value, AlphaNumericBody)
    else !IsNullOrWhiteSpace(src) && EndAnchor(src.value, AlphaNumericBody)
  }

  /** Without a final newline the two readings agree. */
  lemma AsWrittenAgreesWithoutNewline(src: Option<String>)
    requires src.Some? && (src.value == [] || src.value[|src.value| - 1] != '\n')
    ensures IsBase64AsWritten(src) == IsBase64(src)
    ensures IsAllNumberAsWritten(src) == IsAllNumber(src)
    ensures IsAllAlphaAsWritten(src) == IsAllAlpha(src)
    ensures IsAllAlphaOrNumbersAsWritten(src) == IsAllAlphaOrNumbers(src)
  {
  }

  lemma IsBase64AcceptsTrailingNewline()
    ensures IsBase64AsWritten(Some("QUJD\n")) && !IsBase64(Some("QUJD\n"))
  {
    var s := "QUJD\n";
    assert !IsWhiteSpace(s[0]);
    assert s[..|s| - 1] == "QUJD";
    assert !IsBase64Char('\n');
  }

  lemma IsAllNumberAcceptsTrailingNewline()
    ensures IsAllNumberAsWritten(Some("123\n")) && !IsAllNumber(Some("123\n"))
  {
    var s := "123\n";
    assert !IsWhiteSpace(s[0]);
    assert s[..|s| - 1] == "123";
    assert !IsAsciiDigit(s[3]);
  }

  lemma IsAllAlphaAcceptsTrailingNewline()
    ensures IsAllAlphaAsWritten(Some("abc\n")) && !IsAllAlpha(Some("abc\n"))
  {
    var s := "abc\n";
    assert !IsWhiteSpace(s[0]);
    assert s[..|s| - 1] == "abc";
    assert !IsAsciiLetter(s[3]);
  }

  lemma IsAllAlphaOrNumbersAcceptsTrailingNewline()
    ensures IsAllAlphaOrNumbersAsWritten(Some("A1\n")) && !IsAllAlphaOrNumbers(Some("A1\n"))
  {
    var s := "A1\n";
    assert !IsWhiteSpace(s[0]);
    assert s[..|s| - 1] == "A1";
    assert !IsAsciiLetterOrDigit(s[2]);
  }

  // ---------------------------------------------------------------------
  // Examples from the unit tests

  lemma Base64Examples()
    ensures IsBase64(Some("c29tZSB2YWx1ZQ=="))
  {
    var s := "c29tZSB2YWx1ZQ==";
    assert AlphabetBefore(s, |s| - 2) by {
      forall i | 0 <= i < |s| - 2 ensures IsBase64Char(s[i]) {
      }
    }
  }

  lemma NotBase64Examples()
    ensures !IsBase64(Some("some string")) && !IsBase64(Some("    ")) && !IsBase64(None)
  {
    assert !IsBase64Char("    "[0]);
  }

  lemma IsAllNumberExamples()
    ensures IsAllNumber(Some("12356"))
  {
    var s := "12356";
    forall i | 0 <= i < |s| ensures IsAsciiDigit(s[i]) {
    }
  }

  lemma NotAllNumberExamples()
    ensures !IsAllNumber(Some("12a3")) && !IsAllNumber(Some("   ")) && !IsAllNumber(None)
  {
    assert !IsAsciiDigit("12a3"[2]);
    assert !IsAsciiDigit("   "[0]);
  }

  lemma IsAllAlphaExamples()
    ensures IsAllAlpha(Some("ABCDEF")) && !IsAllAlpha(Some("A123dfdsf"))
  {
    var s := "ABCDEF";
    forall i | 0 <= i < |s| ensures IsAsciiLetter(s[i]) {
    }
    assert !IsAsciiLetter("A123dfdsf"[1]);
  }

  lemma IsAllAlphaOrNumbersExamples()
    ensures IsAllAlphaOrNumbers(Some("ABCDEF72728")) && !IsAllAlphaOrNumbers(Some("a^"))
  {
    var s := "ABCDEF72728";
    forall i | 0 <= i < |s| ensures IsAsciiLetterOrDigit(s[i]) {
    }
    assert !IsAsciiLetterOrDigit("a^"[1]);
  }

  /** The tests' ranges of "Some text to create a test" that fit. */
  lemma SubstringExamples()
    ensures SubstringOrEmpty(Some("Some text to create a test"), 0, 1) == "S"
    ensures SubstringOrEmpty(Some("Some text to create a test"), 6, 5) == "ext t"
    ensures SubstringOrEmpty(Some("Some text to create a test"), 10, 9) == "to create"
    ensures SubstringOrEmpty(Some("Some text to create a test"), 0, 26) == "Some text to create a test"
  {
    var s := "Some text to create a test";
    assert s[0..1] == "S";
    assert s[6..11] == "ext t";
    assert s[10..19] == "to create";
    assert s[0..26] == s;
  }

  /** The tests' calls with only a start: the rest of the string. */
  lemma SubstringStartOnlyExamples()
    ensures SubstringOrEmpty(Some("Some text to create a test"), 0) == "Some text to create a test"
    ensures SubstringOrEmpty(Some("Some text to create a test"), 1) == "ome text to create a test"
    ensures SubstringOrEmpty(Some("Some text to create a test"), 6) == "ext to create a test"
    ensures SubstringOrEmpty(Some("Some text to create a test"), 10) == "to create a test"
  {
    var s := "Some text to create a test";
    assert s[0..] == s;
    assert s[1..] == "ome text to create a test";
    assert s[6..] == "ext to create a test";
    assert s[10..] == "to create a test";
  }

  /** The tests' out-of-bounds ranges of "Test", and null or empty
      sources: all give "". */
  lemma SubstringEdgeExamples()
    ensures SubstringOrEmpty(Some("Test"), 6, 10) == ""
    ensures SubstringOrEmpty(Some("Test"), -1, -5) == ""
    ensures SubstringOrEmpty(Some("Test"), 0, -1) == ""
    ensures SubstringOrEmpty(None, 1, 10) == "" && SubstringOrEmpty(Some(""), 1, 10) == ""
  {
  }

  /** The tests' string padded on the right trims to "Some text". */
  lemma TrimExamples()
    ensures SafeTrim(Some("Some text    ")) == Some("Some text")
  {
    var t := "Some text    ";
    assert forall i :: 9 <= i < |t| ==> IsWhiteSpace(t[i]);
    TrimAt(t, 0, 9);
    assert t[0..9] == "Some text";
  }

  /** The tests' string padded on both sides trims to "Some text". */
  lemma TrimBothSidesExamples()
    ensures SafeTrim(Some("   Some text    ")) == Some("Some text")
  {
    var u := "   Some text    ";
    assert forall i :: 0 <= i < 3 ==> IsWhiteSpace(u[i]);
    assert forall i :: 12 <= i < |u| ==> IsWhiteSpace(u[i]);
    TrimAt(u, 3, 12);
    assert u[3..12] == "Some text";
  }

  lemma TrimBlankExamples()
    ensures SafeTrim(Some("  ")) == Some("")
    ensures SafeTrim(Some("")) == Some("") && SafeTrim(None) == None
  {
    TrimBlank("  ");
  }

  lemma EqualsIgnoreCaseExamples()
    ensures EqualsIgnoreCase(Some("someText"), Some("SOMETEXT"))
    ensures EqualsIgnoreCase(None, None)
    ensures EqualsIgnoreCase(None, Some(""))
    ensures !EqualsIgnoreCase(None, Some("SomeString"))
    ensures !EqualsIgnoreCase(Some(""), None)
  {
    IgnoreCaseIsFoldedEquality("someText", "SOMETEXT");
  }
}
