/**
 * The sequence shapes the parser's loops compute: the linear "first element that
 * satisfies a test" scan, `FilterMap` (the loops that append each element's image when
 * it has one) and `FlatMap` (the loop that appends each table's entries), with their
 * order and membership lemmas.
 */
module Search {
  import opened Wrappers

  /** The index of the first element of `s` satisfying `p`, if any. */
  function FirstWhere<T>(s: seq<T>, p: T -> bool): (r: Option<nat>)
    ensures r.Some? ==> r.value < |s| && p(s[r.value])
    ensures r.Some? ==> forall j :: 0 <= j < r.value ==> !p(s[j])
    ensures r.None? <==> forall j :: 0 <= j < |s| ==> !p(s[j])
  {
    if s == [] then None
    else if p(s[0]) then Some(0)
    else match FirstWhere(s[1..], p)
      case None => None
      case Some(k) => Some(k + 1)
  }

  /** A for-loop with `break` at the first element that passes the test. */
  method FindFirst<T>(s: seq<T>, p: T -> bool) returns (r: Option<nat>)
    ensures r == FirstWhere(s, p)
  {
    var i := 0;
    while i < |s|
      invariant 0 <= i <= |s|
      invariant forall j :: 0 <= j < i ==> !p(s[j])
    {
      if p(s[i]) {
        return Some(i);
      }
      i := i + 1;
    }
    return None;
  }

  /** The images under `f` of the elements `f` keeps, in order. */
  function FilterMap<T, U>(s: seq<T>, f: T -> Option<U>): seq<U> {
    if s == [] then []
    else FilterMap(s[..|s| - 1], f) + (match f(s[|s| - 1]) case None => [] case Some(u) => [u])
  }

  /** Extending a prefix by one element appends that element's image, if it has one. */
  lemma FilterMapStep<T, U>(s: seq<T>, i: nat, f: T -> Option<U>)
    requires i < |s|
    ensures FilterMap(s[..i + 1], f) == FilterMap(s[..i], f) + (match f(s[i]) case None => [] case Some(u) => [u])
  {
    assert s[..i + 1][..i] == s[..i];
  }

  /** A value is kept exactly when some element maps to it. */
  lemma {:induction false} FilterMapMembers<T, U>(s: seq<T>, f: T -> Option<U>, u: U)
    ensures u in FilterMap(s, f) <==> exists i :: 0 <= i < |s| && f(s[i]) == Some(u)
  {
    if s != [] {
      var init := s[..|s| - 1];
      FilterMapMembers(init, f, u);
      if exists i :: 0 <= i < |s| && f(s[i]) == Some(u) {
        var i :| 0 <= i < |s| && f(s[i]) == Some(u);
        if i < |s| - 1 {
          assert f(init[i]) == Some(u);
        }
      }
      if u in FilterMap(init, f) {
        var i :| 0 <= i < |init| && f(init[i]) == Some(u);
        assert f(s[i]) == Some(u);
      }
    }
  }

  /** Keeping preserves order: the kept values of a concatenation are concatenated. */
  lemma {:induction false} FilterMapAppend<T, U>(s: seq<T>, more: seq<T>, f: T -> Option<U>)
    ensures FilterMap(s + more, f) == FilterMap(s, f) + FilterMap(more, f)
    decreases |more|
  {
    if more == [] {
      assert s + more == s;
    } else {
      var init := more[..|more| - 1];
      assert (s + more)[..|s + more| - 1] == s + init;
      FilterMapAppend(s, init, f);
    }
  }

  /** The images under `f` of all elements, concatenated in order. */
  function FlatMap<T, U>(s: seq<T>, f: T -> seq<U>): seq<U> {
    if s == [] then []
    else FlatMap(s[..|s| - 1], f) + f(s[|s| - 1])
  }

  /** A value is in the concatenation exactly when it is in the image of some element. */
  lemma {:induction false} FlatMapMembers<T, U>(s: seq<T>, f: T -> seq<U>, u: U)
    ensures u in FlatMap(s, f) <==> exists i :: 0 <= i < |s| && u in f(s[i])
  {
    if s != [] {
      var init := s[..|s| - 1];
      FlatMapMembers(init, f, u);
      if exists i :: 0 <= i < |s| && u in f(s[i]) {
        var i :| 0 <= i < |s| && u in f(s[i]);
        if i < |s| - 1 {
          assert u in f(init[i]);
        }
      }
      if u in FlatMap(init, f) {
        var i :| 0 <= i < |init| && u in f(init[i]);
        assert u in f(s[i]);
      }
    }
  }

  /** The images of a concatenation are the images of its parts, concatenated. */
  lemma {:induction false} FlatMapAppend<T, U>(s: seq<T>, more: seq<T>, f: T -> seq<U>)
    ensures FlatMap(s + more, f) == FlatMap(s, f) + FlatMap(more, f)
    decreases |more|
  {
    if more == [] {
      assert s + more == s;
    } else {
      var init := more[..|more| - 1];
      assert (s + more)[..|s + more| - 1] == s + init;
      FlatMapAppend(s, init, f);
    }
  }
}
