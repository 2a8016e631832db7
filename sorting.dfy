/**
 * The ordering and selection primitives behind the SQL queries: a stable sort on an integer
 * key (`ORDER BY col ASC|DESC`), filtering (`WHERE`) and the `LIMIT ? OFFSET ?` window.
 */
module Sorting {
  import opened Base

  /** `a` may come before `b` in the chosen direction. */
  predicate Before(a: int, b: int, desc: bool) {
    if desc then a >= b else a <= b
  }

  ghost predicate SortedBy<T>(s: seq<T>, key: T -> int, desc: bool) {
    forall i, j :: 0 <= i < j < |s| ==> Before(key(s[i]), key(s[j]), desc)
  }

  /** Inserts `x` in front of the first element it may precede, so equal keys keep their order. */
  function InsertBy<T>(x: T, s: seq<T>, key: T -> int, desc: bool): (r: seq<T>)
    requires SortedBy(s, key, desc)
    ensures SortedBy(r, key, desc)
    ensures multiset(r) == multiset(s) + multiset{x}
  {
    if s == [] then [x]
    else if Before(key(x), key(s[0]), desc) then
      assert forall k :: 0 < k < |s| ==> Before(key(s[0]), key(s[k]), desc);
      [x] + s
    else
      var rest := InsertBy(x, s[1..], key, desc);
      InsertAfterHead(x, s, rest, key, desc);
      [s[0]] + rest
  }

  /** A head that precedes `x` and the rest of a sorted sequence stays in front of their sorted merge. */
  lemma InsertAfterHead<T>(x: T, s: seq<T>, rest: seq<T>, key: T -> int, desc: bool)
    requires s != [] && SortedBy(s, key, desc) && SortedBy(rest, key, desc)
    requires !Before(key(x), key(s[0]), desc)
    requires multiset(rest) == multiset(s[1..]) + multiset{x}
    ensures SortedBy([s[0]] + rest, key, desc)
    ensures multiset([s[0]] + rest) == multiset(s) + multiset{x}
  {
    forall y | y in rest ensures Before(key(s[0]), key(y), desc) {
      assert y in multiset(rest);
      if y != x {
        assert y in multiset(s[1..]);
        var k :| 0 <= k < |s[1..]| && s[1..][k] == y;
        assert s[k + 1] == y;
      }
    }
    var r := [s[0]] + rest;
    forall i, j | 0 <= i < j < |r| ensures Before(key(r[i]), key(r[j]), desc) {
      assert r[j] == rest[j - 1] && rest[j - 1] in rest;
      if i > 0 {
        assert r[i] == rest[i - 1];
      }
    }
    assert s == [s[0]] + s[1..];
  }

  /** `ORDER BY key ASC|DESC`: a sorted permutation of `s` (ties keep their order in `s`). */
  function SortBy<T>(s: seq<T>, key: T -> int, desc: bool): (r: seq<T>)
    ensures SortedBy(r, key, desc)
    ensures multiset(r) == multiset(s)
    ensures |r| == |s|
  {
    if s == [] then []
    else
      assert s == [s[0]] + s[1..];
      InsertBy(s[0], SortBy(s[1..], key, desc), key, desc)
  }

  /**
   * `WHERE f(row)`: the rows satisfying `f`, in their order, none more often than in `s`; a
   * filter every row passes selects everything.
   */
  function Filter<T(!new)>(s: seq<T>, f: T -> bool): (r: seq<T>)
    ensures forall x :: x in r <==> x in s && f(x)
    ensures multiset(r) <= multiset(s)
    ensures (forall x :: x in s ==> f(x)) ==> r == s
    ensures |r| <= |s|
  {
    if s == [] then []
    else
      assert s == [s[0]] + s[1..];
      assert forall x :: x in s[1..] ==> x in s;
      var head := if f(s[0]) then [s[0]] else [];
      var rest := Filter(s[1..], f);
      assert multiset(head + rest) == multiset(head) + multiset(rest);
      assert (forall x :: x in s ==> f(x)) ==> head == [s[0]] by {
        assert s[0] in s;
      }
      head + rest
  }

  /** A selected row occurs in the result exactly as often as in `s`; a rejected one not at all. */
  lemma {:induction false} FilterMultiplicity<T(!new)>(s: seq<T>, f: T -> bool, x: T)
    ensures multiset(Filter(s, f))[x] == if f(x) then multiset(s)[x] else 0
    decreases |s|
  {
    if s != [] {
      FilterMultiplicity(s[1..], f, x);
      var head := if f(s[0]) then [s[0]] else [];
      var rest := Filter(s[1..], f);
      assert Filter(s, f) == head + rest;
      assert s == [s[0]] + s[1..];
      calc {
        multiset(Filter(s, f))[x];
        multiset(head)[x] + multiset(rest)[x];
        multiset(head)[x] + (if f(x) then multiset(s[1..])[x] else 0);
        { if x == s[0] { assert multiset(head)[x] == if f(x) then 1 else 0; } else { assert multiset(head)[x] == 0; } }
        (if f(x) then multiset([s[0]])[x] + multiset(s[1..])[x] else 0);
        if f(x) then multiset(s)[x] else 0;
      }
    }
  }

  /** Filtering commutes with concatenation, so the selected rows keep their relative order. */
  lemma {:induction false} FilterAppend<T(!new)>(a: seq<T>, b: seq<T>, f: T -> bool)
    ensures Filter(a + b, f) == Filter(a, f) + Filter(b, f)
    decreases |a|
  {
    if a == [] {
      assert a + b == b;
    } else {
      var head := if f(a[0]) then [a[0]] else [];
      calc {
        Filter(a + b, f);
        { assert (a + b)[0] == a[0] && (a + b)[1..] == a[1..] + b; }
        head + Filter(a[1..] + b, f);
        { FilterAppend(a[1..], b, f); }
        head + (Filter(a[1..], f) + Filter(b, f));
        (head + Filter(a[1..], f)) + Filter(b, f);
        Filter(a, f) + Filter(b, f);
      }
    }
  }

  /** Two successive filters select what their conjunction selects, in the same order. */
  lemma {:induction false} FilterFilter<T(!new)>(s: seq<T>, f: T -> bool, g: T -> bool, h: T -> bool)
    requires forall x :: h(x) == (f(x) && g(x))
    ensures Filter(Filter(s, f), g) == Filter(s, h)
    decreases |s|
  {
    if s != [] {
      FilterFilter(s[1..], f, g, h);
      var rest := Filter(s[1..], f);
      if f(s[0]) {
        assert Filter(s, f) == [s[0]] + rest;
        assert ([s[0]] + rest)[0] == s[0] && ([s[0]] + rest)[1..] == rest;
        assert Filter([s[0]] + rest, g) == (if g(s[0]) then [s[0]] else []) + Filter(rest, g);
      } else {
        assert Filter(s, f) == rest;
      }
    }
  }

  /** Filters with the same verdict on every element select the same rows. */
  lemma {:induction false} FilterCongruent<T(!new)>(s: seq<T>, f: T -> bool, g: T -> bool)
    requires forall x :: x in s ==> f(x) == g(x)
    ensures Filter(s, f) == Filter(s, g)
    decreases |s|
  {
    if s != [] {
      assert s[0] in s;
      assert forall x :: x in s[1..] ==> x in s;
      FilterCongruent(s[1..], f, g);
    }
  }

  /**
   * `LIMIT limit OFFSET offset` as SQLite evaluates it: a negative offset counts as zero and a
   * negative limit means no limit. The result is the run of `s` starting at the offset.
   */
  function Window<T>(s: seq<T>, limit: int, offset: int): (r: seq<T>)
    ensures limit >= 0 ==> |r| <= limit
    ensures Max(0, offset) >= |s| ==> r == []
    ensures forall k :: 0 <= k < |r| ==> Max(0, offset) + k < |s| && r[k] == s[Max(0, offset) + k]
    ensures Max(0, offset) < |s| ==> |r| == if limit < 0 then |s| - Max(0, offset) else Min(limit, |s| - Max(0, offset))
  {
    var o := Max(0, offset);
    if o >= |s| then []
    else
      var rest := s[o..];
      if limit < 0 || limit >= |rest| then rest else rest[..limit]
  }

  /** A window of a sorted sequence is sorted. */
  lemma WindowSorted<T>(s: seq<T>, key: T -> int, desc: bool, limit: int, offset: int)
    requires SortedBy(s, key, desc)
    ensures SortedBy(Window(s, limit, offset), key, desc)
  {
    var w := Window(s, limit, offset);
    var o := Max(0, offset);
    forall i, j | 0 <= i < j < |w| ensures Before(key(w[i]), key(w[j]), desc) {
      assert w[i] == s[o + i] && w[j] == s[o + j];
    }
  }
}
