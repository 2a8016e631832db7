/**
 * SQLite's `LIKE` operator with its default settings: `%` matches any run of characters,
 * `_` matches exactly one, there is no escape character, and letters compare without regard
 * to case for the ASCII range only.
 */
module SqlLike {

  /** SQLite's case folding for `LIKE`: ASCII upper-case letters only. */
  function Fold(c: char): char {
    if 'A' <= c <= 'Z' then (c as int + 32) as char else c
  }

  function FoldAll(s: string): (r: string)
    ensures |r| == |s|
    ensures forall k :: 0 <= k < |s| ==> r[k] == Fold(s[k])
  {
    seq(|s|, k requires 0 <= k < |s| => Fold(s[k]))
  }

  /** `s LIKE p`. */
  function Like(p: string, s: string): bool
    decreases |p| + |s|
  {
    if p == [] then s == []
    else if p[0] == '%' then Like(p[1..], s) || (s != [] && Like(p, s[1..]))
    else s != [] && (p[0] == '_' || Fold(p[0]) == Fold(s[0])) && Like(p[1..], s[1..])
  }

  /** The pattern `%q%` the search box builds from its text `q`. */
  function Contains(q: string): string {
    "%" + q + "%"
  }

  predicate NoWildcards(q: string) {
    '%' !in q && '_' !in q
  }

  /** `s` holds `q` at position `i`, ignoring ASCII case. */
  predicate OccursAt(q: string, s: string, i: int) {
    0 <= i && i + |q| <= |s| && FoldAll(s[i..i + |q|]) == FoldAll(q)
  }

  /** Without wildcards `LIKE` is equality up to ASCII case. */
  lemma {:induction false} LikeLiteral(p: string, s: string)
    requires NoWildcards(p)
    ensures Like(p, s) <==> |p| == |s| && FoldAll(p) == FoldAll(s)
    decreases |p|
  {
    if p == [] {
      assert |FoldAll(s)| == |s|;
    } else {
      assert p[0] in p;
      assert NoWildcards(p[1..]) by {
        assert forall c :: c in p[1..] ==> c in p;
      }
      if s != [] {
        LikeLiteral(p[1..], s[1..]);
        assert FoldAll(p) == [Fold(p[0])] + FoldAll(p[1..]);
        assert FoldAll(s) == [Fold(s[0])] + FoldAll(s[1..]);
      }
    }
  }

  /** A lone `%` matches everything. */
  lemma {:induction false} PercentMatchesAll(s: string)
    ensures Like("%", s)
    decreases |s|
  {
    if s != [] {
      PercentMatchesAll(s[1..]);
    }
  }

  /** A leading `%` lets the rest of the pattern match any suffix. */
  lemma {:induction false} LeadingPercent(r: string, s: string)
    ensures Like("%" + r, s) <==> exists i :: 0 <= i <= |s| && Like(r, s[i..])
    decreases |s|
  {
    var p := "%" + r;
    assert p[1..] == r;
    assert s[0..] == s;
    if s != [] {
      LeadingPercent(r, s[1..]);
      if exists i :: 0 <= i <= |s| && Like(r, s[i..]) {
        var i :| 0 <= i <= |s| && Like(r, s[i..]);
        if i > 0 {
          assert s[1..][i - 1..] == s[i..];
        }
      }
      if exists j :: 0 <= j <= |s[1..]| && Like(r, s[1..][j..]) {
        var j :| 0 <= j <= |s[1..]| && Like(r, s[1..][j..]);
        assert s[1..][j..] == s[j + 1..];
      }
    }
  }

  /** A wildcard-free pattern followed by `%` matches exactly the strings it begins, up to case. */
  lemma {:induction false} PrefixPercent(q: string, s: string)
    requires NoWildcards(q)
    ensures Like(q + "%", s) <==> OccursAt(q, s, 0)
    decreases |q|
  {
    var p := q + "%";
    if q == [] {
      assert p == "%";
      PercentMatchesAll(s);
    } else {
      assert p[0] == q[0] && p[1..] == q[1..] + "%";
      assert NoWildcards(q[1..]) by {
        assert forall c :: c in q[1..] ==> c in q;
      }
      assert q[0] != '%' && q[0] != '_' by {
        assert q[0] in q;
      }
      if s != [] {
        PrefixPercent(q[1..], s[1..]);
        if |q| <= |s| {
          var a := FoldAll(s[..|q|]);
          var b := FoldAll(q);
          assert s[..|q|] == [s[0]] + s[1..][..|q| - 1];
          assert q == [q[0]] + q[1..];
          assert a == [Fold(s[0])] + FoldAll(s[1..][..|q| - 1]);
          assert b == [Fold(q[0])] + FoldAll(q[1..]);
          assert s[0..|q|] == s[..|q|];
          assert s[1..][0..|q| - 1] == s[1..][..|q| - 1];
        }
      }
    }
  }

  /**
   * For search text without wildcards, the `%q%` pattern is a case-insensitive substring
   * test: it matches exactly when `q` occurs somewhere in `s`, ignoring ASCII case.
   */
  lemma ContainsIsSubstring(q: string, s: string)
    requires NoWildcards(q)
    ensures Like(Contains(q), s) <==> exists i :: OccursAt(q, s, i)
  {
    assert Contains(q) == "%" + (q + "%");
    LeadingPercent(q + "%", s);
    if exists i :: 0 <= i <= |s| && Like(q + "%", s[i..]) {
      var i :| 0 <= i <= |s| && Like(q + "%", s[i..]);
      PrefixPercent(q, s[i..]);
      assert s[i..][..|q|] == s[i..i + |q|];
      assert OccursAt(q, s, i);
    }
    if exists i :: OccursAt(q, s, i) {
      var i :| OccursAt(q, s, i);
      PrefixPercent(q, s[i..]);
      assert s[i..][0..|q|] == s[i..i + |q|];
      assert Like(q + "%", s[i..]);
    }
  }

  /** Matching ignores ASCII case: "Report" finds "quarterly REPORT". */
  lemma CaseInsensitiveExample()
    ensures Like(Contains("Report"), "quarterly REPORT")
  {
    var q := "Report";
    var s := "quarterly REPORT";
    assert NoWildcards(q);
    assert FoldAll(s[10..16]) == FoldAll(q);
    assert OccursAt(q, s, 10);
    ContainsIsSubstring(q, s);
  }
}
