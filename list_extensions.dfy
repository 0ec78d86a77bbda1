/** Appending to a list in place (`ListExtensions`). The list is an object
    whose contents the helpers change; the collections appended are read at
    the moment each one is appended, so appending a list to itself doubles
    it, as `List<T>.AddRange` does. */
module ListExtensions {
  import opened Wrappers
  import opened Linq

  /** A `List<T>`: an ordered sequence that grows in place. */
  class List<T> {
    var items: seq<T>

    constructor(initial: seq<T>)
      ensures items == initial
    {
      items := initial;
    }

    /** `AddRange` with a non-null collection: its elements, in order,
        after the existing ones. */
    method AddRange(values: seq<T>)
      modifies this
      ensures items == old(items) + values
    {
      items := items + values;
    }
  }

  /** One entry of `otherLists`: null, a `List<T>` object (possibly the
      target itself), or any other sequence of values. */
  datatype Collection<T> = NullCollection | Values(values: seq<T>) | ListObject(list: List<T>)

  /** What an entry contributes, seen from the target list before the
      call: nothing but an exception, fixed values, or the target's own
      contents at the time it is reached. */
  datatype Arg<T> = NullArg | Items(values: seq<T>) | SelfArg

  function Describe<T>(src: List<T>, c: Collection<T>): Arg<T>
    reads if c.ListObject? then {c.list} else {}
  {
    match c
    case NullCollection => NullArg
    case Values(v) => Items(v)
    case ListObject(l) => if l == src then SelfArg else Items(l.items)
  }

  function DescribeAll<T>(src: List<T>, cs: seq<Collection<T>>): (r: seq<Arg<T>>)
    reads set i | 0 <= i < |cs| && cs[i].ListObject? :: cs[i].list
    ensures |r| == |cs|
    ensures forall i :: 0 <= i < |cs| ==> r[i] == Describe(src, cs[i])
  {
    seq(|cs|, i requires 0 <= i < |cs| reads set i | 0 <= i < |cs| && cs[i].ListObject? :: cs[i].list =>
      Describe(src, cs[i]))
  }

  /** The contents after appending each argument in turn to `acc`, and
      whether that ended in an exception: a null collection stops the
      loop with `ArgumentNullException("collection")`, keeping what was
      appended before it. */
  function Combined<T>(acc: seq<T>, args: seq<Arg<T>>): (seq<T>, Outcome<Exception>)
    decreases |args|
  {
    if args == [] then (acc, Pass)
    else match args[0]
      case NullArg => (acc, Fail(ArgumentNull("collection")))
      case Items(v) => Combined(acc + v, args[1..])
      case SelfArg => Combined(acc + acc, args[1..])
  }

  /** `Combine(src, otherLists)`: a null target throws
      `ArgumentNullException("src")`; otherwise each collection in turn is
      appended to the target with `AddRange`. A null `otherLists` array
      makes the `foreach` throw. */
  method Combine<T>(src: List?<T>, otherLists: Option<seq<Collection<T>>>) returns (outcome: Outcome<Exception>)
    modifies src
    ensures src == null ==> outcome == Fail(ArgumentNull("src"))
    ensures src != null && otherLists.None? ==> outcome == Fail(NullReference) && src.items == old(src.items)
    ensures src != null && otherLists.Some? ==>
              (src.items, outcome) == Combined(old(src.items), old(DescribeAll(src, otherLists.value)))
  {
    if src == null {
      return Fail(ArgumentNull("src"));
    }
    if otherLists.None? {
      return Fail(NullReference);
    }
    var others := otherLists.value;
    ghost var args := DescribeAll(src, others);
    var i := 0;
    while i < |others|
      invariant 0 <= i <= |others|
      invariant forall j :: i <= j < |others| ==> Describe(src, others[j]) == args[j]
      invariant Combined(src.items, args[i..]) == Combined(old(src.items), args)
    {
      assert args[i..][0] == args[i] && args[i..][1..] == args[i + 1..];
      match others[i] {
        case NullCollection =>
          return Fail(ArgumentNull("collection"));
        case Values(v) =>
          src.AddRange(v);
        case ListObject(l) =>
          src.AddRange(l.items);
      }
      i := i + 1;
    }
    return Pass;
  }

  /** `AddMany(src, items)`: a null target throws
      `ArgumentNullException("src")`, a null `items` array throws
      `ArgumentNullException("collection")` from `AddRange`, and otherwise
      the items are appended in order. */
  method AddMany<T>(src: List?<T>, items: Option<seq<T>>) returns (outcome: Outcome<Exception>)
    modifies src
    ensures src == null ==> outcome == Fail(ArgumentNull("src"))
    ensures src != null && items.None? ==> outcome == Fail(ArgumentNull("collection")) && src.items == old(src.items)
    ensures src != null && items.Some? ==> outcome == Pass && src.items == old(src.items) + items.value
  {
    if src == null {
      return Fail(ArgumentNull("src"));
    }
    if items.None? {
      return Fail(ArgumentNull("collection"));
    }
    src.AddRange(items.value);
    return Pass;
  }

  // ---------------------------------------------------------------------
  // What `Combined` promises

  /** With no other lists the target is unchanged. */
  lemma CombinedNothing<T>(acc: seq<T>)
    ensures Combined(acc, []) == (acc, Pass)
  {
  }

  /** Plain collections are appended in argument order:
      `src == old(src) ++ l1 ++ ... ++ lk`. */
  lemma {:induction false} CombinedAppendsInOrder<T>(acc: seq<T>, vs: seq<seq<T>>)
    ensures Combined(acc, seq(|vs|, i requires 0 <= i < |vs| => Items(vs[i]))) == (acc + Flatten(vs), Pass)
    decreases |vs|
  {
    var args := seq(|vs|, i requires 0 <= i < |vs| => Items(vs[i]));
    if vs != [] {
      var rest := seq(|vs[1..]|, i requires 0 <= i < |vs[1..]| => Items(vs[1..][i]));
      assert args[0] == Items(vs[0]);
      assert args[1..] == rest;
      CombinedAppendsInOrder(acc + vs[0], vs[1..]);
      assert Flatten(vs) == vs[0] + Flatten(vs[1..]);
      assert acc + vs[0] + Flatten(vs[1..]) == acc + (vs[0] + Flatten(vs[1..]));
    } else {
      assert args == [];
      assert acc + [] == acc;
    }
  }

  /** Nothing already in the target is removed or moved. */
  lemma {:induction false} CombinedKeepsPrefix<T>(acc: seq<T>, args: seq<Arg<T>>)
    ensures |acc| <= |Combined(acc, args).0|
    ensures Combined(acc, args).0[..|acc|] == acc
    decreases |args|
  {
    if args != [] {
      match args[0]
      case NullArg =>
      case Items(v) =>
        CombinedKeepsPrefix(acc + v, args[1..]);
        assert (acc + v)[..|acc|] == acc;
      case SelfArg =>
        CombinedKeepsPrefix(acc + acc, args[1..]);
        assert (acc + acc)[..|acc|] == acc;
    }
  }

  /** Without a null collection the call completes. */
  lemma {:induction false} CombinedWithoutNullPasses<T>(acc: seq<T>, args: seq<Arg<T>>)
    requires forall j :: 0 <= j < |args| ==> !args[j].NullArg?
    ensures Combined(acc, args).1 == Pass
    decreases |args|
  {
    if args != [] {
      assert !args[0].NullArg?;
      var acc' := if args[0].SelfArg? then acc + acc else acc + args[0].values;
      CombinedWithoutNullPasses(acc', args[1..]);
    }
  }

  /** The first null collection throws `ArgumentNullException` after the
      collections before it have been appended. */
  lemma {:induction false} CombinedStopsAtNull<T>(acc: seq<T>, args: seq<Arg<T>>, k: nat)
    requires k < |args| && args[k].NullArg?
    requires forall j :: 0 <= j < k ==> !args[j].NullArg?
    ensures Combined(acc, args) == (Combined(acc, args[..k]).0, Fail(ArgumentNull("collection")))
    decreases k
  {
    if k > 0 {
      assert args[1..][..k - 1] == args[..k][1..];
      var acc' := if args[0].SelfArg? then acc + acc else acc + args[0].values;
      CombinedStopsAtNull(acc', args[1..], k - 1);
    }
  }

  lemma CombineExamples()
    ensures Combined(["Hello"], [Items(["Bye", "World"]), Items(["Later"])])
            == (["Hello", "Bye", "World", "Later"], Pass)
    ensures Combined([1, 2], [SelfArg, Items([3])]) == ([1, 2, 1, 2, 3], Pass)
    ensures Combined([1], [Items([2]), NullArg, Items([3])]) == ([1, 2], Fail(ArgumentNull("collection")))
  {
    var a: seq<Arg<string>> := [Items(["Bye", "World"]), Items(["Later"])];
    assert a[1..] == [Items(["Later"])] && a[1..][1..] == [];
    assert ["Hello"] + ["Bye", "World"] + ["Later"] == ["Hello", "Bye", "World", "Later"];
    var b: seq<Arg<int>> := [SelfArg, Items([3])];
    assert b[1..] == [Items([3])] && b[1..][1..] == [];
    assert [1, 2] + [1, 2] + [3] == [1, 2, 1, 2, 3];
    var c: seq<Arg<int>> := [Items([2]), NullArg, Items([3])];
    assert c[1..] == [NullArg, Items([3])];
    assert [1] + [2] == [1, 2];
  }
}
