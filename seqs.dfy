/** Sequence helpers shared by the model: the JavaScript array operations the bot
    relies on (filter, "closest" search, a loop that appends per-element output). */
module Seqs {

  datatype Option<T> = None | Some(value: T)

  /** The elements of `s` satisfying `p`, in their original order (`Array.prototype.filter`). */
  function Filter<T(!new)>(s: seq<T>, p: T -> bool): (r: seq<T>)
    ensures |r| <= |s|
    ensures forall x :: x in r <==> x in s && p(x)
  {
    if s == [] then []
    else
      assert s == [s[0]] + s[1..];
      (if p(s[0]) then [s[0]] else []) + Filter(s[1..], p)
  }

  /** The element of `xs` with the smallest known distance; unreachable elements
      (distance None) are never chosen, and the earliest element wins a tie. */
  function ClosestBy<T(!new)>(xs: seq<T>, dist: T -> Option<nat>): (r: Option<T>)
    ensures r.Some? ==> r.value in xs && dist(r.value).Some?
    ensures r.Some? ==> forall x :: x in xs && dist(x).Some? ==> dist(r.value).value <= dist(x).value
    ensures r.None? <==> forall x :: x in xs ==> dist(x).None?
  {
    if xs == [] then None
    else
      assert xs == [xs[0]] + xs[1..];
      var rest := ClosestBy(xs[1..], dist);
      if dist(xs[0]).None? then rest
      else if rest.None? || dist(xs[0]).value <= dist(rest.value).value then Some(xs[0])
      else rest
  }

  /** The output of a `for` loop over `xs` whose body emits `f(x)` for each element, in order. */
  function ConcatMap<T, U>(xs: seq<T>, f: T -> seq<U>): seq<U>
  {
    if xs == [] then [] else ConcatMap(xs[..|xs| - 1], f) + f(xs[|xs| - 1])
  }

  /** One more loop iteration appends the next element's output. */
  lemma ConcatMapSnoc<T, U>(xs: seq<T>, i: nat, f: T -> seq<U>)
    requires i < |xs|
    ensures ConcatMap(xs[..i + 1], f) == ConcatMap(xs[..i], f) + f(xs[i])
  {
    assert xs[..i + 1][..i] == xs[..i];
  }

  /** A property held by every element's output is held by the whole loop output. */
  lemma {:induction false} ConcatMapForall<T, U>(xs: seq<T>, f: T -> seq<U>, p: U -> bool)
    requires forall x, a :: x in xs && a in f(x) ==> p(a)
    ensures forall a :: a in ConcatMap(xs, f) ==> p(a)
  {
    if xs != [] {
      var init := xs[..|xs| - 1];
      assert forall x :: x in init ==> x in xs;
      assert xs[|xs| - 1] in xs;
      ConcatMapForall(init, f, p);
    }
  }

  /** Filtering distributes over concatenation. */
  lemma {:induction false} FilterAppend<T(!new)>(a: seq<T>, b: seq<T>, p: T -> bool)
    ensures Filter(a + b, p) == Filter(a, p) + Filter(b, p)
  {
    if a == [] {
      assert a + b == b;
    } else {
      assert (a + b)[0] == a[0];
      assert (a + b)[1..] == a[1..] + b;
      FilterAppend(a[1..], b, p);
    }
  }

  /** Two successive filters are one filter by the conjunction. */
  lemma {:induction false} FilterFilter<T(!new)>(s: seq<T>, p: T -> bool, q: T -> bool, pq: T -> bool)
    requires forall x :: pq(x) == (p(x) && q(x))
    ensures Filter(Filter(s, p), q) == Filter(s, pq)
  {
    if s != [] {
      FilterFilter(s[1..], p, q, pq);
      var fs := Filter(s, p);
      if p(s[0]) {
        assert fs == [s[0]] + Filter(s[1..], p);
        assert fs[0] == s[0] && fs[1..] == Filter(s[1..], p);
        assert Filter(fs, q) == (if q(fs[0]) then [fs[0]] else []) + Filter(fs[1..], q);
      } else {
        assert fs == Filter(s[1..], p);
      }
    }
  }

  /** The head of a filter of a filter is the earliest element satisfying both predicates. */
  lemma {:induction false} FilterFilterFirst<T(!new)>(s: seq<T>, p: T -> bool, q: T -> bool)
    requires Filter(Filter(s, p), q) != []
    ensures exists k :: (0 <= k < |s| && s[k] == Filter(Filter(s, p), q)[0] && p(s[k]) && q(s[k]) &&
      forall j :: 0 <= j < k ==> !(p(s[j]) && q(s[j])))
  {
    var fs := Filter(s, p);
    if p(s[0]) {
      assert fs == [s[0]] + Filter(s[1..], p);
      assert fs[0] == s[0] && fs[1..] == Filter(s[1..], p);
      assert Filter(fs, q) == (if q(fs[0]) then [fs[0]] else []) + Filter(fs[1..], q);
    } else {
      assert fs == Filter(s[1..], p);
    }
    if !(p(s[0]) && q(s[0])) {
      assert Filter(fs, q) == Filter(Filter(s[1..], p), q);
      FilterFilterFirst(s[1..], p, q);
      var k :| 0 <= k < |s| - 1 && s[1..][k] == Filter(Filter(s[1..], p), q)[0] && p(s[1..][k]) && q(s[1..][k]) &&
        forall j :: 0 <= j < k ==> !(p(s[1..][j]) && q(s[1..][j]));
      assert s[k + 1] == s[1..][k];
      forall j | 0 <= j < k + 1 ensures !(p(s[j]) && q(s[j])) {
        if j > 0 { assert s[j] == s[1..][j - 1]; }
      }
    }
  }

  /** A filter that keeps nothing of `s` yields the empty sequence. */
  lemma {:induction false} FilterNone<T(!new)>(s: seq<T>, p: T -> bool)
    requires forall x :: x in s ==> !p(x)
    ensures Filter(s, p) == []
  {
    if s != [] {
      FilterNone(s[1..], p);
    }
  }

  /** A filter that keeps every element of `s` yields `s` itself. */
  lemma {:induction false} FilterAll<T(!new)>(s: seq<T>, p: T -> bool)
    requires forall x :: x in s ==> p(x)
    ensures Filter(s, p) == s
  {
    if s != [] {
      FilterAll(s[1..], p);
      assert s == [s[0]] + s[1..];
    }
  }
}
