/** The LINQ operators the extension methods are built from, on finite
    sequences. Counts follow `Enumerable.Skip` and `Enumerable.Take`: a
    count of zero or less skips nothing and takes nothing, and a count past
    the end stops at the end. */
module Linq {

  function Min(a: int, b: int): int { if a <= b then a else b }

  function Max(a: int, b: int): int { if a <= b then b else a }

  /** `x` forced into `[lo, hi]`. */
  function Clamp(x: int, lo: int, hi: int): (r: int)
    requires lo <= hi
    ensures lo <= r <= hi
    ensures lo <= x <= hi ==> r == x
  {
    Min(Max(x, lo), hi)
  }

  /** `Enumerable.Skip`: the suffix left after dropping `count` elements. */
  function Skip<T>(s: seq<T>, count: int): (r: seq<T>)
    ensures |r| == |s| - Clamp(count, 0, |s|)
    ensures r == s[Clamp(count, 0, |s|)..]
  {
    if count <= 0 then s else if count >= |s| then [] else s[count..]
  }

  /** `Enumerable.Take`: the prefix of at most `count` elements. */
  function Take<T>(s: seq<T>, count: int): (r: seq<T>)
    ensures |r| == Clamp(count, 0, |s|)
    ensures r == s[..Clamp(count, 0, |s|)]
  {
    if count <= 0 then [] else if count >= |s| then s else s[..count]
  }

  /** `Enumerable.Any` with a predicate: scans left to right, stops at the
      first element that satisfies it. */
  function Any<T>(s: seq<T>, p: T -> bool): (r: bool)
    ensures r <==> exists i :: 0 <= i < |s| && p(s[i])
  {
    if s == [] then false
    else if p(s[0]) then true
    else
      var r := Any(s[1..], p);
      assert forall i :: 1 <= i < |s| ==> s[i] == s[1..][i - 1];
      r
  }

  /** `Enumerable.All`: true on an empty sequence. */
  function All<T>(s: seq<T>, p: T -> bool): (r: bool)
    ensures r <==> forall i :: 0 <= i < |s| ==> p(s[i])
  {
    if s == [] then true
    else if !p(s[0]) then false
    else
      var r := All(s[1..], p);
      assert forall i :: 1 <= i < |s| ==> s[i] == s[1..][i - 1];
      r
  }

  /** The concatenation of a sequence of batches, in order. */
  function Flatten<T>(ss: seq<seq<T>>): seq<T> {
    if ss == [] then [] else ss[0] + Flatten(ss[1..])
  }

  lemma {:induction false} FlattenAppend<T>(ss: seq<seq<T>>, last: seq<T>)
    ensures Flatten(ss + [last]) == Flatten(ss) + last
  {
    if ss == [] {
      assert [] + [last] == [last];
    } else {
      assert (ss + [last])[1..] == ss[1..] + [last];
      FlattenAppend(ss[1..], last);
    }
  }
}
