/** The older copy of the batching and paging helpers
    (`Useful.Extensions/EnumerableExtensions.cs`). Its code is that of the
    current copy, so it is specified by the same `Batches` and the same
    slice; the lemmas about those in `EnumerableExtensions` carry over. */
module LegacyEnumerableExtensions {
  import opened Wrappers
  import opened Linq
  import EnumerableExtensions

  /** `Partition(src, partitionSize)` over an enumerable: the source is
      copied into a list and walked with a skip count. */
  method Partition<T>(src: seq<T>, partitionSize: int := 10) returns (r: Result<seq<seq<T>>, Exception>)
    ensures partitionSize <= 0 ==> r == Failure(ArgumentOutOfRange("partitionSize"))
    ensures partitionSize > 0 ==> r == Success(EnumerableExtensions.Batches(src, partitionSize))
  {
    if partitionSize <= 0 {
      return Failure(ArgumentOutOfRange("partitionSize"));
    }
    var list := src;
    var batches: seq<seq<T>> := [];
    var skipCount := 0;
    while skipCount < |list|
      invariant 0 <= skipCount
      invariant batches + EnumerableExtensions.Batches(Skip(list, skipCount), partitionSize)
                == EnumerableExtensions.Batches(list, partitionSize)
      decreases |list| - skipCount
    {
      EnumerableExtensions.BatchesStep(list, skipCount, partitionSize, batches);
      batches := batches + [Take(Skip(list, skipCount), partitionSize)];
      skipCount := skipCount + partitionSize;
    }
    EnumerableExtensions.BatchesDone(list, skipCount, partitionSize, batches);
    return Success(batches);
  }

  /** The queryable overload: the same walk, counting the source itself. */
  method PartitionQueryable<T>(src: seq<T>, partitionSize: int := 10) returns (r: Result<seq<seq<T>>, Exception>)
    ensures partitionSize <= 0 ==> r == Failure(ArgumentOutOfRange("partitionSize"))
    ensures partitionSize > 0 ==> r == Success(EnumerableExtensions.Batches(src, partitionSize))
  {
    if partitionSize <= 0 {
      return Failure(ArgumentOutOfRange("partitionSize"));
    }
    var batches: seq<seq<T>> := [];
    var skipCount := 0;
    while skipCount < |src|
      invariant 0 <= skipCount
      invariant batches + EnumerableExtensions.Batches(Skip(src, skipCount), partitionSize)
                == EnumerableExtensions.Batches(src, partitionSize)
      decreases |src| - skipCount
    {
      EnumerableExtensions.BatchesStep(src, skipCount, partitionSize, batches);
      batches := batches + [Take(Skip(src, skipCount), partitionSize)];
      skipCount := skipCount + partitionSize;
    }
    EnumerableExtensions.BatchesDone(src, skipCount, partitionSize, batches);
    return Success(batches);
  }

  /** `src.Skip(start).Take(length)` over an enumerable. */
  function Page<T>(src: seq<T>, start: int, length: int): (r: seq<T>)
    ensures var from := Clamp(start, 0, |src|);
            r == src[from .. from + Clamp(length, 0, |src| - from)]
  {
    Take(Skip(src, start), length)
  }

  /** `src.Skip(start).Take(length)` over a queryable; it agrees with the
      enumerable overload of both copies. */
  function PageQueryable<T>(src: seq<T>, start: int, length: int): (r: seq<T>)
    ensures r == Page(src, start, length)
    ensures r == EnumerableExtensions.Page(src, start, length)
  {
    Take(Skip(src, start), length)
  }
}
