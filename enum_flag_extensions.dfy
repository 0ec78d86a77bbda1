/** Flag algebra on enum values (`EnumFlagExtensions`). A `[Flags]` enum
    value is determined by which bits of its underlying integer are set;
    the enum the library is exercised with is backed by a 16-bit `short`,
    so a value is modelled as the set of its set bit positions, each below
    16. Or-ing two values is the union of their bit sets, `a & ~b` is the
    difference, and `HasFlag` is inclusion. */
module EnumFlagExtensions {
  import opened Wrappers
  import EnumerableExtensions
  import Linq

  /** A bit position of the 16-bit underlying integer. */
  type Bit = b: nat | b < 16

  /** An enum value: the bit positions set in its underlying integer. */
  type Flags = set<Bit>

  /** `Enum.HasFlag`: every bit of `entry` is set in `src`
      (`src & entry == entry`). */
  predicate HasFlag(src: Flags, entry: Flags) {
    src * entry == entry
  }

  /** `Contains(src, entry)`: `entry` is never null for an enum value, so
      this is `src.HasFlag(entry)`. */
  function Contains(src: Flags, entry: Flags): (r: bool)
    ensures r <==> entry <= src
    ensures r <==> src + entry == src
  {
    HasFlag(src, entry)
  }

  /** `HasAnyOf(src, entries)`: false for a null or empty `entries`,
      otherwise some entry is contained. */
  function HasAnyOf(src: Flags, entries: Option<seq<Flags>>): (r: bool)
    ensures r <==> entries.Some? && exists i :: 0 <= i < |entries.value| && Contains(src, entries.value[i])
  {
    !EnumerableExtensions.IsNullOrEmpty(entries)
    && Linq.Any(entries.value, (x: Flags) => HasFlag(src, x))
  }

  /** `HasAllOf(src, entries)`: false for a null or empty `entries`,
      otherwise every entry is contained. */
  function HasAllOf(src: Flags, entries: Option<seq<Flags>>): (r: bool)
    ensures r <==> entries.Some? && |entries.value| > 0
                   && forall i :: 0 <= i < |entries.value| ==> Contains(src, entries.value[i])
  {
    !EnumerableExtensions.IsNullOrEmpty(entries)
    && Linq.All(entries.value, (x: Flags) => HasFlag(src, x))
  }

  /** The bitwise union of the entries. */
  function Union(entries: seq<Flags>): Flags {
    if entries == [] then {} else Union(entries[..|entries| - 1]) + entries[|entries| - 1]
  }

  /** One more entry joins the union. */
  lemma UnionStep(es: seq<Flags>, i: nat)
    requires i < |es|
    ensures Union(es[..i + 1]) == Union(es[..i]) + es[i]
  {
    assert es[..i + 1][..i] == es[..i];
  }

  /** `Set(src, entries)`: `src` with every entry's bits or-ed in, one
      entry at a time. */
  method Set(src: Flags, entries: Option<seq<Flags>>) returns (r: Flags)
    ensures entries.None? ==> r == src
    ensures entries.Some? ==> r == src + Union(entries.value)
  {
    if EnumerableExtensions.IsNullOrEmpty(entries) {
      return src;
    }
    var es := entries.value;
    r := src;
    for i := 0 to |es|
      invariant r == src + Union(es[..i])
    {
      UnionStep(es, i);
      r := r + es[i];
    }
    assert es[..|es|] == es;
  }

  /** `UnSet(src, entries)`: `src` with every entry's bits cleared, one
      entry at a time. */
  method UnSet(src: Flags, entries: Option<seq<Flags>>) returns (r: Flags)
    ensures entries.None? ==> r == src
    ensures entries.Some? ==> r == src - Union(entries.value)
  {
    if EnumerableExtensions.IsNullOrEmpty(entries) {
      return src;
    }
    var es := entries.value;
    r := src;
    for i := 0 to |es|
      invariant r == src - Union(es[..i])
    {
      UnionStep(es, i);
      r := r - es[i];
    }
    assert es[..|es|] == es;
  }

  /** The union contains every entry. */
  lemma {:induction false} UnionContainsEach(entries: seq<Flags>, i: nat)
    requires i < |entries|
    ensures Contains(Union(entries), entries[i])
    decreases |entries|
  {
    var init := entries[..|entries| - 1];
    if i < |entries| - 1 {
      UnionContainsEach(init, i);
      assert entries[i] == init[i];
    }
  }

  /** A value that contains every entry contains their union: the union
      is the least upper bound of the entries. */
  lemma {:induction false} UnionIsLeast(entries: seq<Flags>, x: Flags)
    requires forall i :: 0 <= i < |entries| ==> Contains(x, entries[i])
    ensures Contains(x, Union(entries))
    decreases |entries|
  {
    if entries != [] {
      var init := entries[..|entries| - 1];
      assert forall i :: 0 <= i < |init| ==> init[i] == entries[i];
      UnionIsLeast(init, x);
      assert Contains(x, entries[|entries| - 1]);
    }
  }

  /** After `Set` the entry is contained and every bit of `src` is still
      set. */
  lemma SetContainsEntry(src: Flags, entries: seq<Flags>, i: nat)
    requires i < |entries|
    ensures Contains(src + Union(entries), entries[i])
    ensures Contains(src + Union(entries), src)
  {
    UnionContainsEach(entries, i);
  }

  /** `Set` adds nothing beyond `src` and the entries: any value holding
      them all holds the result. */
  lemma SetIsLeast(src: Flags, entries: seq<Flags>, x: Flags)
    requires Contains(x, src)
    requires forall i :: 0 <= i < |entries| ==> Contains(x, entries[i])
    ensures Contains(x, src + Union(entries))
  {
    UnionIsLeast(entries, x);
  }

  /** After `UnSet` a non-zero entry is no longer contained, and no bit
      that was clear in `src` has been set. */
  lemma UnSetClearsEntry(src: Flags, entries: seq<Flags>, i: nat)
    requires i < |entries| && entries[i] != {}
    ensures !Contains(src - Union(entries), entries[i])
    ensures Contains(src, src - Union(entries))
  {
    UnionContainsEach(entries, i);
    var b :| b in entries[i];
    assert b !in src - Union(entries);
  }

  /** `UnSet` undoes `Set` on the bits the entries cover, and `Set`
      undoes `UnSet` exactly when `src` already held those bits. */
  lemma SetUnSetInverse(src: Flags, entries: seq<Flags>)
    ensures (src + Union(entries)) - Union(entries) == src - Union(entries)
    ensures (src - Union(entries)) + Union(entries) == src <==> Contains(src, Union(entries))
  {
  }

  lemma ContainsLaws(a: Flags, b: Flags, c: Flags)
    ensures Contains(a, a) && Contains(a, {})
    ensures Contains({}, b) <==> b == {}
    ensures Contains(a, b) && Contains(b, c) ==> Contains(a, c)
  {
  }

  /** The cases the library's tests exercise, on an enum whose members
      `Item1` to `Item6` are the bits 0 to 5 (values 1, 2, 4, 8, 16, 32). */
  lemma FlagExamples()
    ensures !Contains({}, {0})
    ensures HasAnyOf({0, 4, 1}, Some([{0}, {2}, {3}])) && !HasAnyOf({5, 4, 1}, Some([{0}, {2}, {3}]))
    ensures !HasAnyOf({5, 4, 1}, None) && !HasAllOf({5, 4, 1}, None) && !HasAllOf({5}, Some([]))
    ensures HasAllOf({5, 4, 1}, Some([{5}, {1}])) && !HasAllOf({5, 4, 1}, Some([{5}, {0}]))
  {
    assert Contains({0, 4, 1}, [{0}, {2}, {3}][0]);
    assert Contains({5, 4, 1}, [{5}, {1}][1]);
    assert !Contains({5, 4, 1}, [{5}, {0}][1]);
  }

  /** Setting `Item2` and `Item6` on `None`, then clearing either one. */
  lemma SetUnSetExamples()
    ensures Union([{1}, {5}]) == {1, 5}
    ensures !Contains({1, 5} - Union([{5}]), {5}) && !Contains({1, 5} - Union([{1}]), {1})
  {
    assert [{1}, {5}][..1] == [{1}];
    assert [{1}][..0] == [];
    assert [{5}][..0] == [];
  }
}
