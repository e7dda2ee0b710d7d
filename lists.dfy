/** A mutable `java.util.List` reduced to what the route code uses: positional
    insertion `add(index, element)` and the sequence functions that specify it. */
module Lists {

  /** `s` with `x` inserted so that it ends up at index `i`. */
  function Splice<T>(s: seq<T>, i: nat, x: T): (r: seq<T>)
    requires i <= |s|
    ensures |r| == |s| + 1
    ensures r[i] == x
    ensures r[..i] == s[..i] && r[i + 1..] == s[i..]
    ensures forall k :: 0 <= k < i ==> r[k] == s[k]
    ensures forall k :: i < k < |r| ==> r[k] == s[k - 1]
  {
    s[..i] + [x] + s[i..]
  }

  /** The elements of `s` whose flag in `flags` equals `b`, in their order in `s`. */
  function Select<T>(s: seq<T>, flags: seq<bool>, b: bool): (r: seq<T>)
    requires |flags| == |s|
    ensures |r| <= |s|
    decreases |s|
  {
    if |s| == 0 then []
    else (if flags[0] == b then [s[0]] else []) + Select(s[1..], flags[1..], b)
  }

  /** Inserting an element flagged `true` leaves the `false`-flagged elements as they were. */
  lemma {:induction false} SelectSpliceOther<T>(s: seq<T>, flags: seq<bool>, i: nat, x: T, b: bool)
    requires |flags| == |s| && i <= |s|
    ensures Select(Splice(s, i, x), Splice(flags, i, b), !b) == Select(s, flags, !b)
    decreases i
  {
    if i == 0 {
      assert Splice(s, 0, x)[1..] == s;
      assert Splice(flags, 0, b)[1..] == flags;
    } else {
      assert Splice(s, i, x)[1..] == Splice(s[1..], i - 1, x);
      assert Splice(flags, i, b)[1..] == Splice(flags[1..], i - 1, b);
      SelectSpliceOther(s[1..], flags[1..], i - 1, x, b);
    }
  }

  /** Inserting a `b`-flagged element behind every `b`-flagged element appends it to the selection. */
  lemma {:induction false} SelectSpliceLast<T>(s: seq<T>, flags: seq<bool>, i: nat, x: T, b: bool)
    requires |flags| == |s| && i <= |s|
    requires forall k :: i <= k < |s| ==> flags[k] != b
    ensures Select(Splice(s, i, x), Splice(flags, i, b), b) == Select(s, flags, b) + [x]
    decreases i
  {
    if i == 0 {
      assert Splice(s, 0, x)[1..] == s;
      assert Splice(flags, 0, b)[1..] == flags;
      NoneSelected(s, flags, b);
    } else {
      assert Splice(s, i, x)[1..] == Splice(s[1..], i - 1, x);
      assert Splice(flags, i, b)[1..] == Splice(flags[1..], i - 1, b);
      SelectSpliceLast(s[1..], flags[1..], i - 1, x, b);
    }
  }

  lemma {:induction false} NoneSelected<T>(s: seq<T>, flags: seq<bool>, b: bool)
    requires |flags| == |s|
    requires forall k :: 0 <= k < |s| ==> flags[k] != b
    ensures Select(s, flags, b) == []
    decreases |s|
  {
    if |s| > 0 {
      NoneSelected(s[1..], flags[1..], b);
    }
  }

  /** A `java.util.ArrayList`, as far as `add(index, element)` goes. */
  class MutableList<T> {
    var elems: seq<T>

    constructor (init: seq<T>)
      ensures elems == init
    {
      elems := init;
    }

    /** `List.add(index, element)`: callers keep `index` within `0..size()`. */
    method Add(index: nat, x: T)
      requires index <= |elems|
      modifies this
      ensures elems == Splice(old(elems), index, x)
    {
      elems := Splice(elems, index, x);
    }
  }
}
