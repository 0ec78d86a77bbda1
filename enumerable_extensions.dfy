/** Batching, paging and membership over sequences
    (`src/Useful.Extensions/EnumerableExtensions.cs`). An `IEnumerable<T>`
    or `IQueryable<T>` is a finite `seq<T>`; one that may be null is an
    `Option`. */
module EnumerableExtensions {
  import opened Wrappers
  import opened Linq
  import Strings
  import StringExtensions

  // ---------------------------------------------------------------------
  // Partition

  /** The batches of `s`: none when it is empty, all of it when it fits in
      one, and otherwise its first `size` elements followed by the batches
      of the rest. */
  function Batches<T>(s: seq<T>, size: int): seq<seq<T>>
    requires size > 0
    decreases |s|
  {
    if s == [] then []
    else if |s| <= size then [s]
    else [s[..size]] + Batches(s[size..], size)
  }

  /** One turn of the partition loop: the batch taken at `skipCount`
      moves from the batches still to come to those already yielded. */
  lemma BatchesStep<T>(s: seq<T>, skipCount: int, size: int, done: seq<seq<T>>)
    requires size > 0 && 0 <= skipCount < |s|
    requires done + Batches(Skip(s, skipCount), size) == Batches(s, size)
    ensures (done + [Take(Skip(s, skipCount), size)]) + Batches(Skip(s, skipCount + size), size)
            == Batches(s, size)
  {
    var t, u := Skip(s, skipCount), Skip(s, skipCount + size);
    var x := Take(t, size);
    assert Batches(t, size) == [x] + Batches(u, size) by {
      assert t == s[skipCount..];
      if |t| <= size {
        assert u == [];
      } else {
        assert u == t[size..];
      }
    }
    assert (done + [x]) + Batches(u, size) == done + ([x] + Batches(u, size));
  }

  /** Once the skip count passes the end no batch is left. */
  lemma BatchesDone<T>(s: seq<T>, skipCount: int, size: int, done: seq<seq<T>>)
    requires size > 0 && skipCount >= |s|
    requires done + Batches(Skip(s, skipCount), size) == Batches(s, size)
    ensures done == Batches(s, size)
  {
    assert Skip(s, skipCount) == [];
    assert done + [] == done;
  }

  /** `Partition(src, partitionSize)`: an out-of-range size is an
      `ArgumentOutOfRangeException`; otherwise the list is walked with a
      skip count that grows by the size, each turn yielding
      `list.Skip(skipCount).Take(partitionSize)`. */
  method Partition<T>(src: seq<T>, partitionSize: int := 10) returns (r: Result<seq<seq<T>>, Exception>)
    ensures partitionSize <= 0 ==> r == Failure(ArgumentOutOfRange("partitionSize"))
    ensures partitionSize > 0 ==> r == Success(Batches(src, partitionSize))
  {
    if partitionSize <= 0 {
      return Failure(ArgumentOutOfRange("partitionSize"));
    }
    var list := src;
    var batches: seq<seq<T>> := [];
    var skipCount := 0;
    while skipCount < |list|
      invariant 0 <= skipCount
      invariant batches + Batches(Skip(list, skipCount), partitionSize) == Batches(list, partitionSize)
      decreases |list| - skipCount
    {
      BatchesStep(list, skipCount, partitionSize, batches);
      batches := batches + [Take(Skip(list, skipCount), partitionSize)];
      skipCount := skipCount + partitionSize;
    }
    BatchesDone(list, skipCount, partitionSize, batches);
    return Success(batches);
  }

  /** The `IQueryable` overload: the same loop, which counts the source
      afresh on every turn instead of copying it to a list first. */
  method PartitionQueryable<T>(src: seq<T>, partitionSize: int := 10) returns (r: Result<seq<seq<T>>, Exception>)
    ensures partitionSize <= 0 ==> r == Failure(ArgumentOutOfRange("partitionSize"))
    ensures partitionSize > 0 ==> r == Success(Batches(src, partitionSize))
  {
    if partitionSize <= 0 {
      return Failure(ArgumentOutOfRange("partitionSize"));
    }
    var batches: seq<seq<T>> := [];
    var skipCount := 0;
    while skipCount < |src|
      invariant 0 <= skipCount
      invariant batches + Batches(Skip(src, skipCount), partitionSize) == Batches(src, partitionSize)
      decreases |src| - skipCount
    {
      BatchesStep(src, skipCount, partitionSize, batches);
      batches := batches + [Take(Skip(src, skipCount), partitionSize)];
      skipCount := skipCount + partitionSize;
    }
    BatchesDone(src, skipCount, partitionSize, batches);
    return Success(batches);
  }

  /** Concatenating the batches in order gives back the source: nothing
      is lost, repeated or reordered. */
  lemma {:induction false} BatchesFlatten<T>(s: seq<T>, size: int)
    requires size > 0
    ensures Flatten(Batches(s, size)) == s
    decreases |s|
  {
    if |s| > size {
      var rest := Batches(s[size..], size);
      BatchesFlatten(s[size..], size);
      assert ([s[..size]] + rest)[1..] == rest;
      assert s[..size] + s[size..] == s;
    } else if s != [] {
      assert [s][1..] == [];
    }
  }

  /** There are `ceil(n / size)` batches: none for an empty source, and
      otherwise the least count whose batches of `size` cover the source. */
  lemma {:induction false} BatchCount<T>(s: seq<T>, size: int)
    requires size > 0
    ensures |Batches(s, size)| == 0 <==> |s| == 0
    ensures |Batches(s, size)| > 0 ==> (|Batches(s, size)| - 1) * size < |s| <= |Batches(s, size)| * size
    decreases |s|
  {
    if |s| > size {
      var n := |Batches(s[size..], size)|;
      BatchCount(s[size..], size);
      assert (n + 1) * size == n * size + size;
    }
  }

  /** Where batch `k` starts: `k` steps of `size`, the skip count on the
      loop's `k`-th turn. */
  function Offset(k: nat, size: nat): nat {
    if k == 0 then 0 else Offset(k - 1, size) + size
  }

  lemma {:induction false} OffsetIsProduct(k: nat, size: nat)
    ensures Offset(k, size) == k * size
  {
    if k > 0 {
      OffsetIsProduct(k - 1, size);
      assert (k - 1) * size + size == k * size;
    }
  }

  /** Batch `k` is the slice of `size` elements starting `k` steps of
      `size` in, cut short at the end of the source. */
  lemma {:induction false} BatchAt<T>(s: seq<T>, size: nat, k: nat)
    requires size > 0 && k < |Batches(s, size)|
    ensures Offset(k, size) < |s|
    ensures Batches(s, size)[k] == s[Offset(k, size) .. Min(Offset(k, size) + size, |s|)]
    decreases |s|
  {
    if k > 0 {
      var rest := s[size..];
      var j := Offset(k - 1, size);
      assert Batches(s, size)[k] == Batches(rest, size)[k - 1];
      BatchAt(rest, size, k - 1);
      var m := Min(j + size, |rest|);
      SliceOfSlice(s, size, j, m);
    }
  }

  lemma SliceOfSlice<T>(s: seq<T>, d: nat, i: nat, j: nat)
    requires d <= |s| && i <= j <= |s| - d
    ensures s[d..][i..j] == s[d + i .. d + j]
  {
  }

  /** Every batch is non-empty and holds at most `size` elements; all but
      the last hold exactly `size`. */
  lemma BatchSizes<T>(s: seq<T>, size: nat, k: nat)
    requires size > 0 && k < |Batches(s, size)|
    ensures 1 <= |Batches(s, size)[k]| <= size
    ensures k < |Batches(s, size)| - 1 ==> |Batches(s, size)[k]| == size
  {
    BatchAt(s, size, k);
    if k < |Batches(s, size)| - 1 {
      BatchAt(s, size, k + 1);
    }
  }

  /** A non-empty source no longer than the size is one batch holding it
      all. */
  lemma ShortSourceIsOneBatch<T>(s: seq<T>, size: int)
    requires size > 0 && 0 < |s| <= size
    ensures Batches(s, size) == [s]
  {
  }

  /** Batch `k` is the page of `size` elements at `k * size`. */
  lemma BatchIsPage<T>(s: seq<T>, size: nat, k: nat)
    requires size > 0 && k < |Batches(s, size)|
    ensures Batches(s, size)[k] == Page(s, k * size, size)
  {
    var o := Offset(k, size);
    var batch := Batches(s, size)[k];
    assert o < |s| && batch == s[o .. Min(o + size, |s|)] by { BatchAt(s, size, k); }
    assert Page(s, o, size) == s[o .. Min(o + size, |s|)] by { PageAt(s, o, size); }
    assert o == k * size by { OffsetIsProduct(k, size); }
  }

  lemma PartitionExample()
    ensures Batches([0, 1, 2, 3, 4, 5, 6], 2) == [[0, 1], [2, 3], [4, 5], [6]]
  {
    var s := [0, 1, 2, 3, 4, 5, 6];
    assert s[2..][2..][2..] == [6];
    assert s[2..][2..][..2] == [4, 5];
    assert s[2..][..2] == [2, 3];
    assert s[..2] == [0, 1];
  }

  // ---------------------------------------------------------------------
  // Page

  /** `src.Skip(start).Take(length)`: the slice at `max(start, 0)` of at
      most `length` elements, cut short at the end. */
  function Page<T>(src: seq<T>, start: int, length: int): (r: seq<T>)
    ensures var from := Clamp(start, 0, |src|);
            r == src[from .. from + Clamp(length, 0, |src| - from)]
  {
    Take(Skip(src, start), length)
  }

  /** The `IQueryable` overload: the same skip and take. */
  function PageQueryable<T>(src: seq<T>, start: int, length: int): (r: seq<T>)
    ensures r == Page(src, start, length)
  {
    Take(Skip(src, start), length)
  }

  /** A page that starts inside the source. */
  lemma PageAt<T>(s: seq<T>, from: nat, length: nat)
    requires from < |s|
    ensures Page(s, from, length) == s[from .. Min(from + length, |s|)]
  {
    assert Clamp(from, 0, |s|) == from;
  }

  /** A length of zero or less gives an empty page, whatever the start. */
  lemma PageNonPositiveLength<T>(src: seq<T>, start: int, length: int)
    requires length <= 0
    ensures Page(src, start, length) == []
  {
  }

  lemma PageExamples()
    ensures Page([0, 1, 2, 3, 4, 5, 6], 0, 2) == [0, 1]
    ensures Page([0, 1, 2, 3, 4, 5, 6], 3, 5) == [3, 4, 5, 6]
    ensures Page([0, 1, 2, 3, 4, 5, 6], -1, 0) == []
    ensures Page([0, 1, 2, 3, 4, 5, 6], 0, -1) == []
  {
    var s := [0, 1, 2, 3, 4, 5, 6];
    assert s[0..2] == [0, 1];
    assert s[3..7] == [3, 4, 5, 6];
  }

  // ---------------------------------------------------------------------
  // IsNullOrEmpty

  /** The `IEnumerable` overload: null, or `!src.Any()`. */
  function IsNullOrEmpty<T>(src: Option<seq<T>>): (r: bool)
    ensures r <==> src.None? || |src.value| == 0
  {
    src.None? || !Any(src.value, (x: T) => true)
  }

  /** The `ICollection` overload: null, or `src.Count < 1`. */
  function IsNullOrEmptyCollection<T>(src: Option<seq<T>>): (r: bool)
    ensures r == IsNullOrEmpty(src)
  {
    src.None? || |src.value| < 1
  }

  // ---------------------------------------------------------------------
  // IsValueInList

  /** The `string` overload: a non-null list holding an element that
      `EqualsIgnoreCase` the value sought. A null element reads as "". */
  function IsValueInList(src: Option<seq<Option<Strings.String>>>, find: Option<Strings.String>): (r: bool)
    ensures r <==> src.Some? && (exists i :: 0 <= i < |src.value| &&
                                  ((src.value[i].None? && find.None?) ||
                                   (find.Some? && Strings.Upper(src.value[i].GetOr([])) == Strings.Upper(find.value))))
  {
    src.Some? && Any(src.value, (x: Option<Strings.String>) => StringExtensions.EqualsIgnoreCase(x, find))
  }

  /** A null value is never found among non-null elements. */
  lemma NullNotInList(src: seq<Option<Strings.String>>)
    requires forall i :: 0 <= i < |src| ==> src[i].Some?
    ensures !IsValueInList(Some(src), None)
  {
  }

  /** `x.Equals(find, compare)` on a non-null element: false for a null
      `find`. */
  predicate ElementEquals(x: Strings.String, find: Option<Strings.String>, compare: Strings.Comparison) {
    find.Some? && Strings.TextEquals(x, find.value, compare)
  }

  /** A null element comes before every element that matches `find`. */
  predicate NullBeforeMatch(s: seq<Option<Strings.String>>, find: Option<Strings.String>, compare: Strings.Comparison) {
    exists i :: 0 <= i < |s| && s[i].None? &&
                forall j :: 0 <= j < i ==> s[j].Some? && !ElementEquals(s[j].value, find, compare)
  }

  /** The overload taking a `StringComparison`: scans left to right and
      stops at the first match; calling `Equals` on a null element before
      any match throws `NullReferenceException`. */
  function IsValueInListWithComparison(src: Option<seq<Option<Strings.String>>>, find: Option<Strings.String>, compare: Strings.Comparison): (r: Result<bool, Exception>)
    ensures src.None? ==> r == Success(false)
    ensures src.Some? && r.Success? ==>
              (r.value <==> exists i :: 0 <= i < |src.value| && src.value[i].Some?
                                        && ElementEquals(src.value[i].value, find, compare))
    ensures r.Failure? ==> r.error == NullReference
    ensures src.Some? ==> (r.Failure? <==> NullBeforeMatch(src.value, find, compare))
    ensures src.Some? && (forall i :: 0 <= i < |src.value| ==> src.value[i].Some?) ==> r.Success?
  {
    if src.None? then Success(false) else AnyEquals(src.value, find, compare)
  }

  /** The scan behind `IsValueInListWithComparison`. */
  function AnyEquals(s: seq<Option<Strings.String>>, find: Option<Strings.String>, compare: Strings.Comparison): (r: Result<bool, Exception>)
    ensures r.Success? ==>
              (r.value <==> exists i :: 0 <= i < |s| && s[i].Some? && ElementEquals(s[i].value, find, compare))
    ensures r.Failure? ==> r.error == NullReference
    ensures r.Failure? <==> NullBeforeMatch(s, find, compare)
    ensures (forall i :: 0 <= i < |s| ==> s[i].Some?) ==> r.Success?
  {
    if s == [] then Success(false)
    else if s[0].None? then Failure(NullReference)
    else if ElementEquals(s[0].value, find, compare) then Success(true)
    else
      var r := AnyEquals(s[1..], find, compare);
      assert forall i :: 1 <= i < |s| ==> s[i] == s[1..][i - 1];
      assert NullBeforeMatch(s, find, compare) ==> NullBeforeMatch(s[1..], find, compare) by {
        if NullBeforeMatch(s, find, compare) {
          var i :| 0 <= i < |s| && s[i].None? &&
                   forall j :: 0 <= j < i ==> s[j].Some? && !ElementEquals(s[j].value, find, compare);
          assert 0 <= i - 1 < |s[1..]| && s[1..][i - 1].None?;
        }
      }
      if r.Failure? then
        var i :| 0 <= i < |s[1..]| && s[1..][i].None? &&
                 forall j :: 0 <= j < i ==> s[1..][j].Some? && !ElementEquals(s[1..][j].value, find, compare);
        assert s[i + 1].None?;
        r
      else r
  }

  /** A null element ahead of the match throws; behind it, it is never
      reached. */
  lemma IsValueInListWithComparisonExamples()
    ensures IsValueInListWithComparison(Some([None, Some("a")]), Some("a"), Strings.Ordinal) == Failure(NullReference)
    ensures IsValueInListWithComparison(Some([Some("a"), None]), Some("a"), Strings.Ordinal) == Success(true)
    ensures IsValueInListWithComparison(Some([Some("One"), Some("Two")]), Some("two"), Strings.OrdinalIgnoreCase) == Success(true)
  {
    assert [None, Some("a")][0].None?;
    assert Strings.TextEquals("Two", "two", Strings.OrdinalIgnoreCase);
    assert [Some("One"), Some("Two")][1] == Some("Two");
  }

  /** The generic overload: a non-null list holding an element equal to
      `find`. */
  function IsValueInListOf<T(==)>(src: Option<seq<T>>, find: T): (r: bool)
    ensures r <==> src.Some? && find in src.value
  {
    src.Some? && Any(src.value, (x: T) => x == find)
  }

  lemma IsValueInListExamples()
    ensures !IsValueInList(None, Some("one"))
    ensures IsValueInList(Some([Some("One"), Some("Two"), Some("Three"), Some("Four")]), Some("one"))
    ensures IsValueInListOf(Some([1, 2, 3, 4]), 1) && !IsValueInListOf(Some([1, 2, 3, 4]), 8)
  {
    var list := [Some("One"), Some("Two"), Some("Three"), Some("Four")];
    assert Strings.Upper(list[0].GetOr([])) == Strings.Upper("one");
  }

  lemma IsValueNotInListExamples()
    ensures !IsValueInList(Some([Some("One"), Some("Two"), Some("Three"), Some("Four")]), Some("five"))
    ensures !IsValueInList(Some([Some("One"), Some("Two"), Some("Three"), Some("Four")]), None)
  {
    var list := [Some("One"), Some("Two"), Some("Three"), Some("Four")];
    assert forall i :: 0 <= i < 4 ==> |list[i].value| != 4 || Strings.Upper(list[i].value)[0] != 'F' || Strings.Upper(list[i].value)[1] != 'I';
  }
}
