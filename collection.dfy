/**
 * The generic collection helpers of collection.go. Each helper is a method
 * whose loop mirrors the Go `for ... range` loop, proved against a
 * specification function; the pure parts of the model call the functions.
 */
module Collection {
  import Wrappers

  // ---------------------------------------------------------------------
  // Specification functions
  // ---------------------------------------------------------------------

  /** Some element of `xs` satisfies `fn`. */
  predicate Exists<T>(xs: seq<T>, fn: T -> bool) {
    exists i :: 0 <= i < |xs| && fn(xs[i])
  }

  /** Every element of `xs` satisfies `fn`. */
  predicate Every<T>(xs: seq<T>, fn: T -> bool) {
    forall i :: 0 <= i < |xs| ==> fn(xs[i])
  }

  /**
   * The first element of `xs` that satisfies `fn`; the Go error
   * "no match found" when there is none.
   */
  function First<T>(xs: seq<T>, fn: T -> bool): (r: Wrappers.Result<T, string>)
    ensures r.Failure? <==> !Exists(xs, fn)
    ensures r.Failure? ==> r.error == "no match found"
    ensures r.Success? ==>
      exists i :: 0 <= i < |xs| && xs[i] == r.value && fn(xs[i]) &&
        forall j :: 0 <= j < i ==> !fn(xs[j])
  {
    if |xs| == 0 then
      Wrappers.Failure("no match found")
    else if fn(xs[0]) then
      Wrappers.Success(xs[0])
    else
      var r := First(xs[1..], fn);
      assert forall i :: 1 <= i < |xs| ==> xs[i] == xs[1..][i - 1];
      r
  }

  /** All the elements of `xss`, one list after the other. */
  function Flatten<T>(xss: seq<seq<T>>): seq<T> {
    if |xss| == 0 then [] else Flatten(xss[..|xss| - 1]) + xss[|xss| - 1]
  }

  /** The sum of the lengths of the lists in `xss`. */
  function TotalLength<T>(xss: seq<seq<T>>): nat {
    if |xss| == 0 then 0 else TotalLength(xss[..|xss| - 1]) + |xss[|xss| - 1]|
  }

  /** The elements of `xs` that satisfy `fn`, in their original order. */
  function Filtered<T>(xs: seq<T>, fn: T -> bool): seq<T> {
    if |xs| == 0 then []
    else Filtered(xs[..|xs| - 1], fn) + (if fn(xs[|xs| - 1]) then [xs[|xs| - 1]] else [])
  }

  // ---------------------------------------------------------------------
  // Lemmas about the specification functions
  // ---------------------------------------------------------------------

  /** A merged list is as long as all its inputs together. */
  lemma {:induction false} FlattenLength<T>(xss: seq<seq<T>>)
    ensures |Flatten(xss)| == TotalLength(xss)
  {
    if |xss| > 0 {
      FlattenLength(xss[..|xss| - 1]);
    }
  }

  /** Merging two groups of lists is merging each group and concatenating. */
  lemma {:induction false} FlattenAppend<T>(a: seq<seq<T>>, b: seq<seq<T>>)
    ensures Flatten(a + b) == Flatten(a) + Flatten(b)
    decreases |b|
  {
    if |b| == 0 {
      assert a + b == a;
    } else {
      assert (a + b)[..|a + b| - 1] == a + b[..|b| - 1];
      FlattenAppend(a, b[..|b| - 1]);
    }
  }

  /** Filtering keeps exactly the satisfying elements. */
  lemma {:induction false} FilteredMembers<T>(xs: seq<T>, fn: T -> bool, x: T)
    ensures x in Filtered(xs, fn) <==> x in xs && fn(x)
  {
    if |xs| > 0 {
      var init, last := xs[..|xs| - 1], xs[|xs| - 1];
      assert xs == init + [last];
      FilteredMembers(init, fn, x);
    }
  }

  /** `FilteredMembers` for every element at once. */
  lemma FilteredIn<T>(xs: seq<T>, fn: T -> bool)
    ensures forall x :: x in Filtered(xs, fn) <==> x in xs && fn(x)
  {
    forall x {
      FilteredMembers(xs, fn, x);
    }
  }

  /** Filtering commutes with concatenation, so the original order is kept. */
  lemma {:induction false} FilteredAppend<T>(a: seq<T>, b: seq<T>, fn: T -> bool)
    ensures Filtered(a + b, fn) == Filtered(a, fn) + Filtered(b, fn)
    decreases |b|
  {
    if |b| == 0 {
      assert a + b == a;
    } else {
      assert (a + b)[..|a + b| - 1] == a + b[..|b| - 1];
      FilteredAppend(a, b[..|b| - 1], fn);
    }
  }

  /** A filtered list is never longer than its input. */
  lemma {:induction false} FilteredLength<T>(xs: seq<T>, fn: T -> bool)
    ensures |Filtered(xs, fn)| <= |xs|
  {
    if |xs| > 0 {
      FilteredLength(xs[..|xs| - 1], fn);
    }
  }

  // ---------------------------------------------------------------------
  // The helpers of collection.go
  // ---------------------------------------------------------------------

  /** `in`: membership, built on `some` with an equality test. */
  method In<T(==)>(current: T, collections: seq<T>) returns (b: bool)
    ensures b <==> current in collections
  {
    b := Some(collections, (param: T) => param == current);
  }

  /** `some`: true as soon as one element satisfies `fn`. */
  method Some<T>(collections: seq<T>, fn: T -> bool) returns (b: bool)
    ensures b <==> Exists(collections, fn)
    ensures |collections| == 0 ==> !b
  {
    for i := 0 to |collections|
      invariant forall j :: 0 <= j < i ==> !fn(collections[j])
    {
      if fn(collections[i]) {
        return true;
      }
    }
    return false;
  }

  /** `all`: false as soon as one element fails `fn`. */
  method All<T>(collection: seq<T>, fn: T -> bool) returns (b: bool)
    ensures b <==> Every(collection, fn)
    ensures |collection| == 0 ==> b
  {
    for i := 0 to |collection|
      invariant forall j :: 0 <= j < i ==> fn(collection[j])
    {
      if !fn(collection[i]) {
        return false;
      }
    }
    return true;
  }

  /** `findFirst`: the lowest-index satisfying element, or an error. */
  method FindFirst<T>(collections: seq<T>, fn: T -> bool) returns (r: Wrappers.Result<T, string>)
    ensures r == First(collections, fn)
  {
    for i := 0 to |collections|
      invariant First(collections, fn) == First(collections[i..], fn)
    {
      if fn(collections[i]) {
        return Wrappers.Success(collections[i]);
      }
      assert collections[i..][1..] == collections[i + 1..];
    }
    return Wrappers.Failure("no match found");
  }

  /** `merge`: the inputs appended one after the other. */
  method Merge<T>(collections: seq<seq<T>>) returns (merged: seq<T>)
    ensures merged == Flatten(collections)
    ensures |merged| == TotalLength(collections)
  {
    merged := [];
    for i := 0 to |collections|
      invariant merged == Flatten(collections[..i])
    {
      assert collections[..i + 1][..i] == collections[..i];
      merged := merged + collections[i];
    }
    assert collections[..|collections|] == collections;
    FlattenLength(collections);
  }

  /** `filter`: the satisfying elements, in order. */
  method Filter<T>(collections: seq<T>, condition: T -> bool) returns (result: seq<T>)
    ensures result == Filtered(collections, condition)
  {
    result := [];
    for i := 0 to |collections|
      invariant result == Filtered(collections[..i], condition)
    {
      assert collections[..i + 1][..i] == collections[..i];
      if condition(collections[i]) {
        result := result + [collections[i]];
      }
    }
    assert collections[..|collections|] == collections;
  }
}
