# Useful.Extensions in Dafny

A model of the value-level helpers of the C# library Useful.Extensions, a
collection of null-tolerant extension methods. The model covers:

- **string search and extraction** (`StringExtensions`):
  - `ContainsValue`/`HasValue` and `EqualsIgnoreCase`;
  - the `StringComparison` overloads of `SafeStartsWith`/`SafeEndsWith`;
  - `SubstringOrEmpty`;
  - `SubstringAfter[Last]Value` and `SubstringBefore[Last]Value`, with their `char` overloads;
  - `SafeTrim`;
  - the validators `IsBase64`, `IsAllNumber`, `IsAllAlpha` and `IsAllAlphaOrNumbers`.
- **batching, paging and membership** (`EnumerableExtensions`, current and legacy copies):
  - `Partition`, `Page`, `IsNullOrEmpty` and `IsValueInList`.
- **in-place list append** (`ListExtensions.Combine`, `AddMany`).
- **safe array lookup** (`ArrayExtensions.SafeGetElement`).
- **enum flag algebra** (`EnumFlagExtensions.Contains`, `HasAnyOf`, `HasAllOf`, `Set`, `UnSet`).
- **date helpers** (`DateTimeExtensions.ShouldBeWithinRangeOf`, `Between`, `GetAge`).
- **small helpers**:
  - nullables (`NullableExtensions`);
  - dictionary lookups with a default (`DictionaryExtensions`);
  - case-aware character equality (`CharacterExtensions.EqualTo`).

How C# concepts are represented:

- A C# `null` is `Option.None`.
- A thrown exception is a `Result`/`Outcome` failure. It carries the exception type and the parameter name the code gives it.
- A string is a `seq<char>`.
- An `IEnumerable<T>` is a finite `seq<T>`.
- Ignoring case means comparing after an ASCII upper-case fold.

The BCL operations the helpers are built from are modelled in two support modules:

- `Linq`: `Skip`, `Take`, `Any` and `All`, with LINQ's clamping of counts.
- `Strings`: `IndexOf`/`LastIndexOf` as least and greatest match positions, `char.IsWhiteSpace`, and `Trim` as .NET's forward and backward scans.

Each helper follows the code of the library, with one exception: the four validators. The members `IsBase64`, `IsAllNumber`, `IsAllAlpha` and `IsAllAlphaOrNumbers` model the intended behaviour and reject text followed by a newline. The code's own behaviour is modelled by the `...AsWritten` members, which accept one final '\n' (see "## Findings").

Two helpers differ from what their documentation suggests:

- `SubstringOrEmpty` and `Page` clamp a negative start to 0, as `Enumerable.Skip` does. They do not return an empty result for it.
- `GetAge` reads an explicit `default(DateTime)` assessment date as "now", exactly like an omitted one.

Files:

| file | module |
|---|---|
| wrappers.dfy | `Wrappers`: `Option`, `Result`, `Outcome`, `Exception` |
| linq.dfy | `Linq` |
| strings.dfy | `Strings` |
| string_extensions.dfy | `StringExtensions` |
| enumerable_extensions.dfy | `EnumerableExtensions` (`src/` copy) |
| legacy_enumerable_extensions.dfy | `LegacyEnumerableExtensions` (older copy) |
| list_extensions.dfy | `ListExtensions` (class `List<T>`) |
| array_extensions.dfy | `ArrayExtensions` |
| enum_flag_extensions.dfy | `EnumFlagExtensions` |
| date_time_extensions.dfy | `DateTimeExtensions` |
| nullable_extensions.dfy | `NullableExtensions` |
| dictionary_extensions.dfy | `DictionaryExtensions` |
| character_extensions.dfy | `CharacterExtensions` |

## Model

| member | source | states |
|---|---|---|
| Linq.Skip | src/Useful.Extensions/StringExtensions.cs:170 | `Skip(n)` drops the first `n` elements, where `n` is clamped to `[0, length]`: a non-positive count drops nothing, and a count past the end leaves nothing. |
| Linq.Take | src/Useful.Extensions/StringExtensions.cs:170 | `Take(n)` keeps the first `n` elements, where `n` is clamped to `[0, length]`. |
| Linq.Any | src/Useful.Extensions/EnumerableExtensions.cs:97 | The left-to-right scan is true iff some element satisfies the predicate. |
| Linq.All | src/Useful.Extensions/EnumFlagExtensions.cs:35 | The scan is true iff every element satisfies the predicate (vacuously true on empty). |
| Strings.IgnoreCaseIsFoldedEquality | src/Useful.Extensions/StringExtensions.cs:63 | `OrdinalIgnoreCase` equality holds iff the two strings are equal after the case fold. |
| Strings.CharMatchAt | src/Useful.Extensions/StringExtensions.cs:180-183 | A one-character needle matches at `i` iff `i` is in range and that character equals the needle under the comparison. |
| Strings.SingleCharMatches | src/Useful.Extensions/StringExtensions.cs:211-214 | The same for all positions at once: the match positions of `[c]` are the positions of `c`. |
| Strings.IndexOf | src/Useful.Extensions/StringExtensions.cs:30 | Returns -1 iff there is no match. Otherwise it is a match position, and no match lies before it. |
| Strings.LastIndexOf | src/Useful.Extensions/StringExtensions.cs:235 | Returns -1 iff there is no match. Otherwise it is a match position, and no match lies after it. |
| Strings.EmptyIsWhiteSpace | src/Useful.Extensions/StringExtensions.cs:194 | A null or empty string counts as null-or-white-space. |
| Strings.SkipWhiteSpaceAt | src/Useful.Extensions/StringExtensions.cs:323 | The forward scan stops exactly at the first character that is not white space. |
| Strings.SkipWhiteSpaceBackAt | src/Useful.Extensions/StringExtensions.cs:323 | The backward scan stops exactly after the last character that is not white space. |
| Strings.Trim | src/Useful.Extensions/StringExtensions.cs:323 | The result is a slice of the input. Everything outside the slice is white space, and the slice neither starts nor ends with white space. |
| Strings.TrimAt | src/Useful.Extensions/StringExtensions.cs:323 | If the first and last characters that are not white space sit at `lo` and `hi-1`, the trim is exactly `s[lo..hi]`. |
| Strings.TrimBlank | src/Useful.Extensions/StringExtensions.cs:323 | A string of white space only trims to "". |
| Strings.TrimOfTrimmed | src/Useful.Extensions/StringExtensions.cs:323 | A string with no white space at either end trims to itself. |
| Strings.TrimIdempotent | src/Useful.Extensions/StringExtensions.cs:323 | Trimming twice is trimming once. |
| StringExtensions.ContainsValue | src/Useful.Extensions/StringExtensions.cs:23-32 | False if `src` or `find` is null or empty. Otherwise true iff `find` matches somewhere in `src` under the comparison. |
| StringExtensions.HasValue | src/Useful.Extensions/StringExtensions.cs:41-44 | The same characterisation as `ContainsValue`. |
| StringExtensions.EqualsIgnoreCase | src/Useful.Extensions/StringExtensions.cs:56-64 | Two nulls are equal. A null right operand equals no non-null string. Otherwise the result is case-folded equality, with a null left operand read as "". |
| StringExtensions.SafeStartsWith | src/Useful.Extensions/StringExtensions.cs:88-91 | A null `find` throws `ArgumentNullException("value")`. Otherwise true iff `find` matches at position 0 of `src ?? ""`. |
| StringExtensions.SafeEndsWith | src/Useful.Extensions/StringExtensions.cs:128-131 | A null `find` throws `ArgumentNullException("value")`. Otherwise true iff `find` matches at the last possible position of `src ?? ""`. |
| StringExtensions.StartsWithImpliesContains | src/Useful.Extensions/StringExtensions.cs:23-32 | A non-empty prefix that `SafeStartsWith` finds is also found by `ContainsValue`. |
| StringExtensions.SubstringOrEmpty | src/Useful.Extensions/StringExtensions.cs:157-171 | A null or empty `src` gives "". A length of 0 means "to the end". Otherwise the result is the slice at the clamped start, of at most `max(length, 0)` characters, cut at the end. |
| StringExtensions.SubstringOrEmptyOutOfRange | src/Useful.Extensions/StringExtensions.cs:164-170 | A negative length, or a start at or past the end, gives "" rather than an exception. |
| StringExtensions.SubstringOrEmptyInRange | src/Useful.Extensions/StringExtensions.cs:157-171 | A range that fits is returned exactly as `s[start..start+length]`. |
| StringExtensions.SubstringAfterValue | src/Useful.Extensions/StringExtensions.cs:192-202 | A null or blank `src` gives "". A null, empty or absent `find` gives `src`. Otherwise the result is the suffix that follows the first match, and no match starts earlier. |
| StringExtensions.SubstringAfterLastValue | src/Useful.Extensions/StringExtensions.cs:223-238 | A blank `src` gives "". A null or empty `find` gives `src`. Otherwise the result is either `src` when nothing matches, or the suffix after a match with no later match. |
| StringExtensions.SubstringBeforeValue | src/Useful.Extensions/StringExtensions.cs:259-274 | A null or empty `src` gives "", while a blank `src` is searched. A null, empty or absent `find` gives `src`. Otherwise the result is the prefix before the first match. |
| StringExtensions.SubstringBeforeLastValue | src/Useful.Extensions/StringExtensions.cs:295-310 | The same guards. Otherwise the result is the prefix before a match with no later match. |
| StringExtensions.BeforeMatchAfterFirst | src/Useful.Extensions/StringExtensions.cs:192-274 | When `find` occurs, the text before it, the match and the text after it (first match) reassemble `src`. |
| StringExtensions.BeforeMatchAfterLast | src/Useful.Extensions/StringExtensions.cs:223-310 | The same for the last match. |
| StringExtensions.SubstringAfterChar | src/Useful.Extensions/StringExtensions.cs:180-183 | With a character: "" for blank `src`, `src` if the character is absent, otherwise the suffix after its first occurrence. |
| StringExtensions.SubstringAfterLastChar | src/Useful.Extensions/StringExtensions.cs:211-214 | With a character: "" for blank `src`, `src` if the character is absent, otherwise the suffix after its last occurrence. |
| StringExtensions.AfterLastCharOccurrence | src/Useful.Extensions/StringExtensions.cs:211-214 | A suffix after a last match of `[c]` is the suffix after the last occurrence of `c`. |
| StringExtensions.AfterLastCharMatches | src/Useful.Extensions/StringExtensions.cs:211-238 | `SubstringAfterLastValue` with a one-character needle gives the text after the last occurrence of that character. |
| StringExtensions.SubstringBeforeChar | src/Useful.Extensions/StringExtensions.cs:247-250 | With a character: "" for null or empty `src`, `src` if the character is absent, otherwise the prefix before its first occurrence. |
| StringExtensions.SubstringBeforeLastChar | src/Useful.Extensions/StringExtensions.cs:283-286 | With a character: the prefix before its last occurrence, with the same guards. |
| StringExtensions.SafeTrim | src/Useful.Extensions/StringExtensions.cs:321-324 | Null or empty input is returned as is. Otherwise the result is a slice surrounded by white space, and it has no white space at either end. |
| StringExtensions.SafeTrimIdempotent | src/Useful.Extensions/StringExtensions.cs:321-324 | Applying `SafeTrim` again changes nothing. |
| StringExtensions.Base64BodyIsShape | src/Useful.Extensions/StringExtensions.cs:342 | The base-64 pattern accepts exactly the strings that: have a positive length divisible by 4; are made of `[A-Za-z0-9+/]`; and end in at most `=` or `==`. |
| StringExtensions.Base64NotBlank | src/Useful.Extensions/StringExtensions.cs:335-345 | The blank guard rejects nothing that the pattern accepts. |
| StringExtensions.IsBase64 | src/Useful.Extensions/StringExtensions.cs:335-345 | True iff `src` is non-null and has the base-64 shape. |
| StringExtensions.LetterOrDigitNotBlank | src/Useful.Extensions/StringExtensions.cs:358-408 | A string that starts with a letter or digit is not blank. |
| StringExtensions.IsAllNumber | src/Useful.Extensions/StringExtensions.cs:358-366 | True iff `src` is non-null, non-empty and all ASCII digits. |
| StringExtensions.IsAllAlpha | src/Useful.Extensions/StringExtensions.cs:379-387 | True iff `src` is non-null, non-empty and all ASCII letters. |
| StringExtensions.IsAllAlphaOrNumbers | src/Useful.Extensions/StringExtensions.cs:400-408 | True iff `src` is non-null, non-empty and all ASCII letters or digits. |
| StringExtensions.ValidatorsNest | src/Useful.Extensions/StringExtensions.cs:358-408 | Digits-only and letters-only strings are alphanumeric, and a letters-only string is not all digits. |
| StringExtensions.Base64AnchorShape | src/Useful.Extensions/StringExtensions.cs:337-344 | The blank guard followed by the anchored pattern accepts exactly the Base-64 shape, with or without one final '\n'. |
| StringExtensions.IsBase64AsWritten | src/Useful.Extensions/StringExtensions.cs:335-345 | The code's result: the blank guard, then the pattern, where `$` also matches before one final '\n'. It accepts exactly what `IsBase64` accepts, and that text followed by '\n'. |
| StringExtensions.IsAllNumberAsWritten | src/Useful.Extensions/StringExtensions.cs:358-366 | The code's result: the blank guard, then `^\d+$`. It accepts exactly what `IsAllNumber` accepts, and those digits followed by '\n'. |
| StringExtensions.IsAllAlphaAsWritten | src/Useful.Extensions/StringExtensions.cs:379-387 | The code's result: the blank guard, then `^[a-zA-Z]+$`. It accepts exactly what `IsAllAlpha` accepts, and those letters followed by '\n'. |
| StringExtensions.IsAllAlphaOrNumbersAsWritten | src/Useful.Extensions/StringExtensions.cs:400-408 | The code's result: the blank guard, then `^[a-zA-Z0-9]+$`. It accepts exactly what `IsAllAlphaOrNumbers` accepts, and that text followed by '\n'. |
| StringExtensions.AsWrittenAgreesWithoutNewline | src/Useful.Extensions/StringExtensions.cs:335-408 | Without a final '\n', the patterns as .NET runs them agree with the corrected validators. |
| StringExtensions.IsBase64AcceptsTrailingNewline | src/Useful.Extensions/StringExtensions.cs:342-344 | `"QUJD\n"` passes the pattern as written, but it is not base-64. |
| StringExtensions.IsAllNumberAcceptsTrailingNewline | src/Useful.Extensions/StringExtensions.cs:351-365 | `"123\n"` passes the pattern as written, but it is not all digits. |
| StringExtensions.IsAllAlphaAcceptsTrailingNewline | src/Useful.Extensions/StringExtensions.cs:372-386 | `"abc\n"` passes the pattern as written, but it is not all letters. |
| StringExtensions.IsAllAlphaOrNumbersAcceptsTrailingNewline | src/Useful.Extensions/StringExtensions.cs:393-407 | `"A1\n"` passes the pattern as written, but it is not alphanumeric. |
| StringExtensions.Base64Examples | tests/Useful.Extensions.Tests/StringExtensionsTests.cs:769-966 | `"c29tZSB2YWx1ZQ=="` is base-64. |
| StringExtensions.NotBase64Examples | tests/Useful.Extensions.Tests/StringExtensionsTests.cs:769-966 | `"some string"`, a blank string and null are not base-64. |
| StringExtensions.IsAllNumberExamples | tests/Useful.Extensions.Tests/StringExtensionsTests.cs:769-966 | Digit strings from the tests pass. |
| StringExtensions.NotAllNumberExamples | tests/Useful.Extensions.Tests/StringExtensionsTests.cs:769-966 | Mixed, blank and null inputs from the tests fail. |
| StringExtensions.IsAllAlphaExamples | tests/Useful.Extensions.Tests/StringExtensionsTests.cs:769-966 | The letter-only cases from the tests. |
| StringExtensions.IsAllAlphaOrNumbersExamples | tests/Useful.Extensions.Tests/StringExtensionsTests.cs:769-966 | The alphanumeric cases from the tests. |
| StringExtensions.SubstringExamples | tests/Useful.Extensions.Tests/StringExtensionsTests.cs:378-391 | The tests' ranges of "Some text to create a test": `(0,1)` is "S", `(6,5)` is "ext t", `(10,9)` is "to create", and `(0,26)` is the whole string. |
| StringExtensions.SubstringStartOnlyExamples | tests/Useful.Extensions.Tests/StringExtensionsTests.cs:363-376 | With only a start (0, 1, 6 or 10), the result is the rest of the string. |
| StringExtensions.SubstringEdgeExamples | tests/Useful.Extensions.Tests/StringExtensionsTests.cs:338-361 | On "Test", the out-of-bounds ranges `(6,10)`, `(-1,-5)` and `(0,-1)` give "". A null or empty source gives "". |
| StringExtensions.TrimExamples | tests/Useful.Extensions.Tests/StringExtensionsTests.cs:396-410 | `"Some text    "` trims to `"Some text"`. |
| StringExtensions.TrimBothSidesExamples | tests/Useful.Extensions.Tests/StringExtensionsTests.cs:396-410 | `"   Some text    "` trims to `"Some text"`. |
| StringExtensions.TrimBlankExamples | tests/Useful.Extensions.Tests/StringExtensionsTests.cs:396-410 | A blank string trims to "". Empty and null inputs pass through. |
| StringExtensions.EqualsIgnoreCaseExamples | tests/Useful.Extensions.Tests/StringExtensionsTests.cs:196-247 | The null/empty and mixed-case cases from the tests. |
| CharacterExtensions.EqualTo | src/Useful.Extensions/CharacterExtensions.cs:18-21 | Ordinal: the characters are equal. Ignoring case (the default): they are equal, or one is the ASCII lower-case form of the other. |
| CharacterExtensions.EqualToReflexive | src/Useful.Extensions/CharacterExtensions.cs:20 | Every character equals itself under either comparison. |
| CharacterExtensions.EqualToSymmetric | src/Useful.Extensions/CharacterExtensions.cs:20 | The order of the operands does not matter. |
| CharacterExtensions.OrdinalImpliesIgnoreCase | src/Useful.Extensions/CharacterExtensions.cs:20 | Equal under the ordinal comparison implies equal ignoring case. |
| CharacterExtensions.EqualToExamples | tests/Useful.Extensions.Tests/CharacterExtensionsTests.cs:8-51 | 'E' = 'e' and 'f' = 'F' by default. 'h' ≠ 'H' and 'h' = 'h' under Ordinal. |
| EnumerableExtensions.BatchesStep | src/Useful.Extensions/EnumerableExtensions.cs:28-30 | One loop turn moves the batch at `skipCount` from the batches still to come to those yielded. |
| EnumerableExtensions.BatchesDone | src/Useful.Extensions/EnumerableExtensions.cs:28 | Once the skip count reaches the end, the yielded batches are all of them. |
| EnumerableExtensions.Partition | src/Useful.Extensions/EnumerableExtensions.cs:20-32 | A size ≤ 0 fails with `ArgumentOutOfRangeException("partitionSize")`. Otherwise the loop yields exactly `Batches(src, size)`. |
| EnumerableExtensions.PartitionQueryable | src/Useful.Extensions/EnumerableExtensions.cs:40-51 | The queryable loop has the same contract. |
| EnumerableExtensions.BatchesFlatten | src/Useful.Extensions/EnumerableExtensions.cs:27-31 | Concatenating the batches in order gives back the source. |
| EnumerableExtensions.BatchCount | src/Useful.Extensions/EnumerableExtensions.cs:28 | There are no batches iff the source is empty. Otherwise the count `k` satisfies `(k-1)*size < n <= k*size`, that is `k = ceil(n/size)`. |
| EnumerableExtensions.OffsetIsProduct | src/Useful.Extensions/EnumerableExtensions.cs:28 | The skip count on turn `k` is `k * size`. |
| EnumerableExtensions.BatchAt | src/Useful.Extensions/EnumerableExtensions.cs:28-30 | Batch `k` starts inside the source and is the slice at offset `k*size` of `size` elements, cut at the end. |
| EnumerableExtensions.SliceOfSlice | src/Useful.Extensions/EnumerableExtensions.cs:30 | A slice of a suffix is a slice of the whole, shifted. |
| EnumerableExtensions.BatchSizes | src/Useful.Extensions/EnumerableExtensions.cs:28-30 | Every batch holds 1 to `size` elements, and all but the last hold exactly `size`. |
| EnumerableExtensions.ShortSourceIsOneBatch | src/Useful.Extensions/EnumerableExtensions.cs:28-30 | A non-empty source of at most `size` elements is one batch holding all of it. |
| EnumerableExtensions.BatchIsPage | src/Useful.Extensions/EnumerableExtensions.cs:30 | Batch `k` equals `Page(src, k*size, size)`. |
| EnumerableExtensions.PartitionExample | tests/Useful.Extensions.Tests/EnumerableExtensionsTests.cs:7-46 | Seven items in batches of 2 give `[[0,1],[2,3],[4,5],[6]]`. |
| EnumerableExtensions.Page | src/Useful.Extensions/EnumerableExtensions.cs:64-67 | The slice at the clamped start, of at most `max(length, 0)` elements, cut at the end. |
| EnumerableExtensions.PageQueryable | src/Useful.Extensions/EnumerableExtensions.cs:76-79 | The queryable overload equals `Page`. |
| EnumerableExtensions.PageAt | src/Useful.Extensions/EnumerableExtensions.cs:66 | A page starting inside the source is `s[from .. min(from+length, n)]`. |
| EnumerableExtensions.PageNonPositiveLength | src/Useful.Extensions/EnumerableExtensions.cs:66 | A length ≤ 0 gives an empty page, whatever the start. |
| EnumerableExtensions.PageExamples | tests/Useful.Extensions.Tests/EnumerableExtensionsTests.cs:155-203 | `Page([0..6],0,2) == [0,1]`, `Page([0..6],3,5) == [3,4,5,6]`, and non-positive lengths give `[]`. |
| EnumerableExtensions.IsNullOrEmpty | src/Useful.Extensions/EnumerableExtensions.cs:90-98 | True iff the source is null or has no elements. |
| EnumerableExtensions.IsNullOrEmptyCollection | src/Useful.Extensions/EnumerableExtensions.cs:105-113 | The collection overload agrees with the enumerable one. |
| EnumerableExtensions.IsValueInList | src/Useful.Extensions/EnumerableExtensions.cs:119-122 | False for a null list. Otherwise true iff some element `EqualsIgnoreCase` the value: two nulls match, a null element reads as "", and a null value matches no non-null element. |
| EnumerableExtensions.NullNotInList | src/Useful.Extensions/EnumerableExtensions.cs:119-122 | A null value is never found among non-null elements. |
| EnumerableExtensions.IsValueInListWithComparison | src/Useful.Extensions/EnumerableExtensions.cs:124-127 | False for a null list. The call throws `NullReferenceException` iff a null element comes before every match, and that is its only failure. Otherwise the result says whether some element equals the value under the comparison. |
| EnumerableExtensions.AnyEquals | src/Useful.Extensions/EnumerableExtensions.cs:126 | The short-circuiting scan behind that overload: it fails iff a null element comes before every match, and then only with `NullReferenceException`. Otherwise it says whether some element matches. |
| EnumerableExtensions.IsValueInListWithComparisonExamples | src/Useful.Extensions/EnumerableExtensions.cs:124-127 | `[null, "a"]` throws when searched for "a", `["a", null]` finds it, and "two" is found in `["One","Two"]` ignoring case. |
| EnumerableExtensions.IsValueInListOf | src/Useful.Extensions/EnumerableExtensions.cs:129-132 | True iff the list is non-null and holds the value. |
| EnumerableExtensions.IsValueInListExamples | tests/Useful.Extensions.Tests/EnumerableExtensionsTests.cs:327-514 | "one" is found case-insensitively, a null list finds nothing, and 1 is in `[1,2,3,4]` but 8 is not. |
| EnumerableExtensions.IsValueNotInListExamples | tests/Useful.Extensions.Tests/EnumerableExtensionsTests.cs:327-514 | "five" and null are not in `["One","Two","Three","Four"]`. |
| LegacyEnumerableExtensions.Partition | Useful.Extensions/EnumerableExtensions.cs:20-32 | The same contract as the current `Partition`, stated with the same `Batches`. |
| LegacyEnumerableExtensions.PartitionQueryable | Useful.Extensions/EnumerableExtensions.cs:40-51 | The same contract for the queryable overload. |
| LegacyEnumerableExtensions.Page | Useful.Extensions/EnumerableExtensions.cs:64-67 | The clamped skip-then-take slice. |
| LegacyEnumerableExtensions.PageQueryable | Useful.Extensions/EnumerableExtensions.cs:76-79 | Equals the legacy `Page` and the current `Page`. |
| ListExtensions.List.AddRange | src/Useful.Extensions/ListExtensions.cs:22 | The list's new contents are its old contents followed by the values. |
| ListExtensions.Combine | src/Useful.Extensions/ListExtensions.cs:13-24 | A null target throws `ArgumentNullException("src")`, and a null array throws. Otherwise the new contents and outcome are `Combined(old contents, the collections as they were)`. |
| ListExtensions.AddMany | src/Useful.Extensions/ListExtensions.cs:31-39 | A null target throws `ArgumentNullException("src")`, and null items throw `ArgumentNullException("collection")`. Otherwise `items == old(items) + values`. |
| ListExtensions.CombinedNothing | src/Useful.Extensions/ListExtensions.cs:20 | With no other lists the target is unchanged. |
| ListExtensions.CombinedAppendsInOrder | src/Useful.Extensions/ListExtensions.cs:20-23 | Plain collections are appended in argument order: `old ++ l1 ++ … ++ lk`. |
| ListExtensions.CombinedKeepsPrefix | src/Useful.Extensions/ListExtensions.cs:20-23 | The old contents stay as the prefix, whatever is appended. |
| ListExtensions.CombinedWithoutNullPasses | src/Useful.Extensions/ListExtensions.cs:20-23 | Without a null collection the call completes. |
| ListExtensions.CombinedStopsAtNull | src/Useful.Extensions/ListExtensions.cs:20-23 | The first null collection throws `ArgumentNullException`, after the collections before it have been appended. |
| ListExtensions.CombineExamples | tests-new/Useful.Extensions.Tests/ListExtensionsTests.cs:105-185 | Appending two lists in order, appending the list to itself, and stopping at a null. |
| ArrayExtensions.SafeGetElement | src/Useful.Extensions/ArrayExtensions.cs:18-30 | A null array, an index out of range or a null element gives the default untouched. Otherwise the result is the element, or the transform applied to it. |
| ArrayExtensions.ResultComesFromArray | src/Useful.Extensions/ArrayExtensions.cs:18-30 | The result is the default or comes from some element of the array. |
| ArrayExtensions.TransformAppliesToElementOnly | src/Useful.Extensions/ArrayExtensions.cs:24-26 | With a transform, the result is the transform of the untransformed lookup when an element is present. Otherwise it is the plain default. |
| ArrayExtensions.IdentityTransform | src/Useful.Extensions/ArrayExtensions.cs:24-26 | The identity transform changes nothing. |
| ArrayExtensions.SafeGetElementExamples | tests/Useful.Extensions.Tests/ArrayExtensionTests.cs:140-260 | Doubling at indices 0 and 5. The default 1 (not 2) at index 7, at -1 and for a null array. A null element gives the default. |
| EnumFlagExtensions.Contains | src/Useful.Extensions/EnumFlagExtensions.cs:11-14 | True iff every bit of `entry` is set in `src`, equivalently iff `src | entry == src`. |
| EnumFlagExtensions.HasAnyOf | src/Useful.Extensions/EnumFlagExtensions.cs:22-25 | False for null or empty entries. Otherwise true iff some entry is contained. |
| EnumFlagExtensions.HasAllOf | src/Useful.Extensions/EnumFlagExtensions.cs:33-36 | False for null or empty entries. Otherwise true iff every entry is contained. |
| EnumFlagExtensions.UnionStep | src/Useful.Extensions/EnumFlagExtensions.cs:55-59 | One more entry joins the accumulated union. |
| EnumFlagExtensions.Set | src/Useful.Extensions/EnumFlagExtensions.cs:45-62 | Null or empty entries return `src`. Otherwise the loop returns `src` or-ed with every entry. |
| EnumFlagExtensions.UnSet | src/Useful.Extensions/EnumFlagExtensions.cs:71-88 | Null or empty entries return `src`. Otherwise the loop returns `src` with every entry's bits cleared. |
| EnumFlagExtensions.UnionContainsEach | src/Useful.Extensions/EnumFlagExtensions.cs:55-59 | The union of the entries contains each entry. |
| EnumFlagExtensions.UnionIsLeast | src/Useful.Extensions/EnumFlagExtensions.cs:55-59 | Any value containing every entry contains their union. |
| EnumFlagExtensions.SetContainsEntry | src/Useful.Extensions/EnumFlagExtensions.cs:45-62 | After `Set`, every entry is contained and no bit of `src` is cleared. |
| EnumFlagExtensions.SetIsLeast | src/Useful.Extensions/EnumFlagExtensions.cs:45-62 | `Set` adds no bit beyond `src` and the entries. |
| EnumFlagExtensions.UnSetClearsEntry | src/Useful.Extensions/EnumFlagExtensions.cs:71-88 | After `UnSet`, no non-zero entry is contained, and no new bit is set. |
| EnumFlagExtensions.SetUnSetInverse | src/Useful.Extensions/EnumFlagExtensions.cs:45-88 | `UnSet` after `Set` is `UnSet`. `Set` after `UnSet` restores `src` iff `src` held all the entries' bits. |
| EnumFlagExtensions.ContainsLaws | src/Useful.Extensions/EnumFlagExtensions.cs:11-14 | `Contains` is reflexive and transitive, everything contains `None`, and `None` contains only `None`. |
| EnumFlagExtensions.FlagExamples | tests/Useful.Extensions.Tests/EnumFlagExtensionsTests.cs:23-139 | `None` does not contain `Item1`, plus the `HasAnyOf`/`HasAllOf` cases from the tests. |
| EnumFlagExtensions.SetUnSetExamples | tests/Useful.Extensions.Tests/EnumFlagExtensionsTests.cs:140-207 | Setting `Item2` and `Item6`, then clearing either one. |
| DateTimeExtensions.Negate | src/Useful.Extensions/DateTimeExtensions.cs:32 | Unchecked `int` negation: `-x`, except that `int.MinValue` is its own negation. |
| DateTimeExtensions.AddSeconds | src/Useful.Extensions/DateTimeExtensions.cs:32-33 | Succeeds iff the shifted instant is in the `DateTime` range, and then differs by that many seconds. Otherwise it throws `ArgumentOutOfRangeException("value")`. |
| DateTimeExtensions.ShouldBeWithinRangeOf | src/Useful.Extensions/DateTimeExtensions.cs:29-36 | Any failure is `ArgumentOutOfRangeException("value")`. For every range but `int.MinValue`, it fails iff a bound leaves the `DateTime` range. When it succeeds, it holds iff the range is positive and `e - r < c < e + r` strictly. |
| DateTimeExtensions.NonPositiveRangeNeverWithin | src/Useful.Extensions/DateTimeExtensions.cs:32-35 | A range ≤ 0 never holds. |
| DateTimeExtensions.WithinRangeSymmetric | src/Useful.Extensions/DateTimeExtensions.cs:29-36 | Swapping the two instants does not change the answer when both calls succeed. |
| DateTimeExtensions.WithinRangeExamples | tests/Useful.Extensions.Tests/DateTimeExtensionsTests.cs:10-76 | ±9 s is within the default 10 and ±10 s is not. 15 s is within 20 and 25 s is not. |
| DateTimeExtensions.WithinRangeAtMinValue | src/Useful.Extensions/DateTimeExtensions.cs:32 | At `DateTime.MinValue` the lower bound throws. |
| DateTimeExtensions.Between | src/Useful.Extensions/DateTimeExtensions.cs:48-53 | Exclusive (the default): `start < d < end`. Inclusive: `start <= d <= end`. |
| DateTimeExtensions.ExclusiveImpliesInclusive | src/Useful.Extensions/DateTimeExtensions.cs:50-52 | The exclusive result implies the inclusive result. |
| DateTimeExtensions.InclusiveDiffersOnlyAtEnds | src/Useful.Extensions/DateTimeExtensions.cs:50-52 | Away from the two ends, the two modes agree. |
| DateTimeExtensions.ReversedRangeIsEmpty | src/Useful.Extensions/DateTimeExtensions.cs:50-52 | A reversed range holds nothing. |
| DateTimeExtensions.BetweenExamples | tests/Useful.Extensions.Tests/DateTimeExtensionsTests.cs:82-147 | The tests' cases, including `Between(d, d, d)`: false exclusive, true inclusive. |
| DateTimeExtensions.DateOf | src/Useful.Extensions/DateTimeExtensions.cs:66-68 | `Year`/`Month`/`Day` of an instant form a valid Gregorian date. |
| DateTimeExtensions.MonthAndDayNumber | src/Useful.Extensions/DateTimeExtensions.cs:66-68 | The month and day found `d` days into a year lie exactly `d` days after the first of the starting month. |
| DateTimeExtensions.DateAfterNumber | src/Useful.Extensions/DateTimeExtensions.cs:66-68 | The date `d` days after 1 January of a year has a day number exactly `d` greater than that 1 January. |
| DateTimeExtensions.DateOfDayNumber | src/Useful.Extensions/DateTimeExtensions.cs:66-68 | The day number of `DateOf(t)` is `t / TicksPerDay`. The calendar date keeps all of an instant except its time of day. |
| DateTimeExtensions.DefaultDate | src/Useful.Extensions/DateTimeExtensions.cs:65 | `default(DateTime)` is 1 January of year 1. |
| DateTimeExtensions.Age | src/Useful.Extensions/DateTimeExtensions.cs:66-70 | The age is the number of anniversaries reached: the `r`-th anniversary is on or before the assessment date, and the `(r+1)`-th is after it. |
| DateTimeExtensions.GetAge | src/Useful.Extensions/DateTimeExtensions.cs:63-71 | The same, on the calendar dates of the two instants. A default assessment date stands for `now`. |
| DateTimeExtensions.ExplicitDateIgnoresClock | src/Useful.Extensions/DateTimeExtensions.cs:65 | A non-default assessment date makes the clock irrelevant. |
| DateTimeExtensions.AgeBounds | src/Useful.Extensions/DateTimeExtensions.cs:66-68 | The age is the year difference, or one less, and it is the year difference iff the birthday has come round. |
| DateTimeExtensions.AgeNegativeIffFutureBirth | src/Useful.Extensions/DateTimeExtensions.cs:66-70 | The age is negative iff the birth is after the assessment date. |
| DateTimeExtensions.AgeOnAnniversary | src/Useful.Extensions/DateTimeExtensions.cs:66-70 | On the `n`-th anniversary the age is `n`. |
| DateTimeExtensions.AgeExamples | tests/Useful.Extensions.Tests/DateTimeExtensionsTests.cs:225-299 | Ages 4 and 5 either side of a birthday, and -6 and -5 for future births. |
| NullableExtensions.ToStringOrEmpty | src/Useful.Extensions/NullableExtensions.cs:10-13 | No value gives "". A value gives its supplied string form. |
| NullableExtensions.IsEqual | src/Useful.Extensions/NullableExtensions.cs:21-24 | True iff there is a value and it equals `compare`. |
| NullableExtensions.IsNullOrDefault | src/Useful.Extensions/NullableExtensions.cs:31-34 | True iff there is no value or the value is the type's default. |
| NullableExtensions.ValueOrDefault | src/Useful.Extensions/NullableExtensions.cs:42-50 | The value when there is one, otherwise the supplied default. |
| NullableExtensions.ValueOrDefaultIsDefault | src/Useful.Extensions/NullableExtensions.cs:31-50 | With the type default, `ValueOrDefault` gives the default iff `IsNullOrDefault` holds, and a missing value equals nothing. |
| NullableExtensions.ValueOrDefaultOfValue | src/Useful.Extensions/NullableExtensions.cs:42-50 | A present value is returned whatever the default. |
| NullableExtensions.NullableExamples | Tests/Useful.Extensions.Tests/NullableExtensionsTests.cs:11-141 | The tests' cases with `int?`. |
| DictionaryExtensions.TryGetValue | Useful.Extensions/DictionaryExtensions.cs:43 | Finds a value iff the key is present, and the value found is the stored one. |
| DictionaryExtensions.ValueOrDefault | Useful.Extensions/DictionaryExtensions.cs:17-25 | The stored value for a present key. Otherwise, and for a null dictionary, the default. |
| DictionaryExtensions.TryGetValueOrDefault | Useful.Extensions/DictionaryExtensions.cs:35-44 | The same characterisation. |
| DictionaryExtensions.LookupsAgree | Useful.Extensions/DictionaryExtensions.cs:17-44 | The two lookups agree on every input. |
| DictionaryExtensions.DefaultOnlyWhenMissing | Useful.Extensions/DictionaryExtensions.cs:17-25 | The default matters only when the key is missing. |
| DictionaryExtensions.DictionaryExamples | Tests/Useful.Extensions.Tests/DictionaryExtensionsTests.cs:9-94 | The tests' cases. |

## Left out

- `ObjectExtensions`, `BitmapExtensions`, `EnumExtensions` and `SystemTime` are not part of this model. They are reflection, image decoding, attribute lookup and a wall clock.
- The `Join` wrappers over `string.Join` are left out. They have no logic of their own.
- The culture-sensitive `SafeStartsWith`/`SafeEndsWith` overloads are left out, and so are comparison modes other than `Ordinal` and `OrdinalIgnoreCase`. Culture rules are outside the model.
- `OrdinalIgnoreCase` is modelled as an ASCII upper-case fold. Unicode case mapping and surrogate pairs are not modelled.
- The validators read `\d` as ASCII digits. .NET also accepts other Unicode decimal digits.
- `Partition` is eager: the model returns all batches, or the error, at once. The C# iterator is lazy and raises `ArgumentOutOfRangeException` only when enumerated. It also re-counts an `IQueryable` on every turn.
- `IQueryable` provider translation is not modelled. The queryable overloads are the same skip/take on a sequence.
- A null `src` is not modelled for `Partition` and `Page`: the parameters are plain sequences. In C# a null source throws from `ToList`/`Skip`.
- `EnumerableExtensions.Partition` and the other `Partition` methods use unbounded integers. A skip count that would overflow `int` near `int.MaxValue` is not modelled.
- `Combine` reads each collection once, when it is reached. Lazily evaluated enumerables with side effects are not modelled, and neither is a collection that is modified while being appended (other than the target itself).
- The exception message text ("The list cannot be null") is not modelled. Only the exception type and parameter name are.
- The generic `IsValueInList` with null elements, which throws inside `Equals`, is not modelled.
- `EnumFlagExtensions.Contains` and the other flag members take an enum value as the set of its bits below 16. A negative `short` value is covered: it is a set that contains bit 15, its sign bit, and `|=` and `&= ~` act on the 16-bit pattern the same way. Only enums with a wider underlying type are not modelled. The default enum value `0` is the empty set.
- `DateTimeExtensions.AddSeconds` takes whole seconds. Fractional seconds and the rounding to milliseconds are not modelled.
- `DateTimeExtensions.DateOf` proves that the date is valid, but not that the year is at most 9999.
- `DateTimeExtensions.GetAge` takes `DateTime.Now` as the parameter `now`. The time of day and `DateTimeKind` are ignored.
- `NullableExtensions.IsNullOrDefault` and the other nullable members take `default(T)` as a parameter (`typeDefault`), because Dafny generic code cannot name it.
- DictionaryExtensions.ValueOrDefault: the optional `defaultValue = default(TValue)` is an explicit parameter, because Dafny generic code cannot name `default(TValue)`. A null `key`, which `ContainsKey` rejects with `ArgumentNullException`, is not modelled: keys are plain values.
- DictionaryExtensions.TryGetValueOrDefault: the same two gaps as `ValueOrDefault`. The defaulted `defaultValue` is explicit, and the `ArgumentNullException` that `TryGetValue` throws for a null `key` is not modelled.
- ArrayExtensions.SafeGetElement: the optional `defaultElement = default` is an explicit parameter, for the same reason. Only `additionalAction` keeps its default (none).
- `NullableExtensions.ToStringOrEmpty` takes the value's `ToString` formatting as a function parameter. It is foreign code.

## Findings

| source | as written | input that shows it | evidently intended | confidence | as-written member | corrected member |
|---|---|---|---|---|---|---|
| src/Useful.Extensions/StringExtensions.cs:342-344 | The base-64 pattern ends in `$` without `RegexOptions.Multiline`. In .NET, `$` also matches just before a final `\n`. | `"QUJD\n"` | Only whole-string base-64 text is accepted | not executed | StringExtensions.IsBase64AcceptsTrailingNewline | StringExtensions.IsBase64 |
| src/Useful.Extensions/StringExtensions.cs:351-365 | `^\d+$` accepts digits followed by one newline | `"123\n"` | Only digits are accepted | not executed | StringExtensions.IsAllNumberAcceptsTrailingNewline | StringExtensions.IsAllNumber |
| src/Useful.Extensions/StringExtensions.cs:372-386 | `^[a-zA-Z]+$` accepts letters followed by one newline | `"abc\n"` | Only letters are accepted | not executed | StringExtensions.IsAllAlphaAcceptsTrailingNewline | StringExtensions.IsAllAlpha |
| src/Useful.Extensions/StringExtensions.cs:393-407 | `^[a-zA-Z0-9]+$` accepts letters and digits followed by one newline | `"A1\n"` | Only letters and digits are accepted | not executed | StringExtensions.IsAllAlphaOrNumbersAcceptsTrailingNewline | StringExtensions.IsAllAlphaOrNumbers |
