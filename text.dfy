/**
 * The string primitives the vault relies on: JavaScript's `String.prototype.trim`,
 * `split(',')` and Node's POSIX `path.basename`.
 */
module Text {

  /** ECMAScript WhiteSpace and LineTerminator code points, the set `trim()` removes. */
  predicate IsWs(c: char) {
    || c == '\t' || c == '\n' || c == '\U{000B}' || c == '\U{000C}' || c == '\r' || c == ' '
    || c == '\U{00A0}' || c == '\U{1680}' || ('\U{2000}' <= c <= '\U{200A}')
    || c == '\U{2028}' || c == '\U{2029}' || c == '\U{202F}' || c == '\U{205F}'
    || c == '\U{3000}' || c == '\U{FEFF}'
  }

  /** Neither starts nor ends with whitespace. */
  predicate IsTrimmed(s: string) {
    s == [] || (!IsWs(s[0]) && !IsWs(s[|s| - 1]))
  }

  /** Every character is whitespace. */
  predicate IsBlank(s: string) {
    forall k :: 0 <= k < |s| ==> IsWs(s[k])
  }

  /** The characters of `s` from `lo` up to `hi` are all whitespace. */
  predicate BlankBetween(s: string, lo: nat, hi: nat)
    requires lo <= hi <= |s|
  {
    forall k :: lo <= k < hi ==> IsWs(s[k])
  }

  /** `r` is the slice of `s` between `i` and `j`, with nothing but whitespace before and after it. */
  ghost predicate Padded(s: string, r: string) {
    exists i: nat, j: nat :: i <= j <= |s| && r == s[i..j] && BlankBetween(s, 0, i) && BlankBetween(s, j, |s|)
  }

  /** `s.trim()`: whitespace is taken off the front, then off the back, one character at a time. */
  function Trim(s: string): (r: string)
    ensures IsTrimmed(r)
    ensures |r| <= |s|
    decreases |s|
  {
    if |s| > 0 && IsWs(s[0]) then Trim(s[1..])
    else if |s| > 0 && IsWs(s[|s| - 1]) then Trim(s[..|s| - 1])
    else s
  }

  /**
   * What `trim()` leaves is the middle of `s`: blank padding on both sides is gone, and with
   * `IsTrimmed` nothing blank is left at either end.
   */
  lemma {:induction false} TrimPadded(s: string)
    ensures Padded(s, Trim(s))
    decreases |s|
  {
    if |s| > 0 && IsWs(s[0]) {
      TrimPadded(s[1..]);
      PaddedFront(s, Trim(s[1..]));
    } else if |s| > 0 && IsWs(s[|s| - 1]) {
      TrimPadded(s[..|s| - 1]);
      PaddedBack(s, Trim(s[..|s| - 1]));
    } else {
      assert Trim(s) == s[0..|s|];
    }
  }

  /** Blank padding stays padding when one more blank goes in front. */
  lemma PaddedFront(s: string, r: string)
    requires |s| > 0 && IsWs(s[0]) && Padded(s[1..], r)
    ensures Padded(s, r)
  {
    var t := s[1..];
    var i: nat, j: nat :| i <= j <= |t| && r == t[i..j] && BlankBetween(t, 0, i) && BlankBetween(t, j, |t|);
    forall k | 0 < k <= i ensures IsWs(s[k]) {
      assert s[k] == t[k - 1];
    }
    forall k | j + 1 <= k < |s| ensures IsWs(s[k]) {
      assert s[k] == t[k - 1];
    }
    assert t[i..j] == s[i + 1..j + 1];
    assert r == s[i + 1..j + 1] && BlankBetween(s, 0, i + 1) && BlankBetween(s, j + 1, |s|);
  }

  /** Blank padding stays padding when one more blank goes behind. */
  lemma PaddedBack(s: string, r: string)
    requires |s| > 0 && IsWs(s[|s| - 1]) && Padded(s[..|s| - 1], r)
    ensures Padded(s, r)
  {
    var t := s[..|s| - 1];
    var i: nat, j: nat :| i <= j <= |t| && r == t[i..j] && BlankBetween(t, 0, i) && BlankBetween(t, j, |t|);
    forall k | 0 <= k < i ensures IsWs(s[k]) {
      assert s[k] == t[k];
    }
    forall k | j <= k < |t| ensures IsWs(s[k]) {
      assert s[k] == t[k];
    }
    assert r == s[i..j] && BlankBetween(s, 0, i) && BlankBetween(s, j, |s|);
  }

  /** Trimming leaves a trimmed string alone, so `trim` is idempotent. */
  lemma TrimOfTrimmed(s: string)
    requires IsTrimmed(s)
    ensures Trim(s) == s
  {
  }

  lemma TrimIdempotent(s: string)
    ensures Trim(Trim(s)) == Trim(s)
  {
    TrimOfTrimmed(Trim(s));
  }

  /** `s.trim()` is empty exactly when `s` holds nothing but whitespace. */
  lemma {:induction false} TrimEmptyIffBlank(s: string)
    ensures Trim(s) == [] <==> IsBlank(s)
    decreases |s|
  {
    if |s| > 0 && IsWs(s[0]) {
      TrimEmptyIffBlank(s[1..]);
      assert IsBlank(s) <==> IsBlank(s[1..]) by {
        if IsBlank(s[1..]) {
          forall k | 0 <= k < |s| ensures IsWs(s[k]) {
            if k > 0 { assert s[k] == s[1..][k - 1]; }
          }
        }
      }
    } else if |s| > 0 && IsWs(s[|s| - 1]) {
      TrimEmptyIffBlank(s[..|s| - 1]);
      assert s[..|s| - 1][0] == s[0];
    }
  }

  /** Trimming keeps only characters of the input. */
  lemma {:induction false} TrimKeepsOut(s: string, c: char)
    requires c !in s
    ensures c !in Trim(s)
    decreases |s|
  {
    if |s| > 0 && IsWs(s[0]) {
      assert forall x :: x in s[1..] ==> x in s;
      TrimKeepsOut(s[1..], c);
    } else if |s| > 0 && IsWs(s[|s| - 1]) {
      assert forall x :: x in s[..|s| - 1] ==> x in s;
      TrimKeepsOut(s[..|s| - 1], c);
    }
  }

  /** Whitespace in front of a trimmed text is all that trimming removes. */
  lemma {:induction false} TrimBlankPrefix(lead: string, x: string)
    requires IsBlank(lead) && IsTrimmed(x)
    ensures Trim(lead + x) == x
    decreases |lead|
  {
    if lead == [] {
      assert lead + x == x;
      TrimOfTrimmed(x);
    } else {
      assert (lead + x)[0] == lead[0] && (lead + x)[1..] == lead[1..] + x;
      assert IsBlank(lead[1..]) by {
        forall k | 0 <= k < |lead[1..]| ensures IsWs(lead[1..][k]) {
          assert lead[1..][k] == lead[k + 1];
        }
      }
      TrimBlankPrefix(lead[1..], x);
    }
  }

  /** `s.split(',')`: the comma-separated segments, at least one, none containing a comma. */
  function SplitComma(s: string): (parts: seq<string>)
    ensures |parts| >= 1
    ensures forall p :: p in parts ==> ',' !in p
    decreases |s|
  {
    if s == [] then [""]
    else if s[0] == ',' then [""] + SplitComma(s[1..])
    else
      var rest := SplitComma(s[1..]);
      [[s[0]] + rest[0]] + rest[1..]
  }

  /** `parts.join(',')`. */
  function JoinComma(parts: seq<string>): string
    requires |parts| >= 1
    decreases |parts|
  {
    if |parts| == 1 then parts[0] else parts[0] + "," + JoinComma(parts[1..])
  }

  /** Splitting on commas loses nothing: joining the segments back gives the input. */
  lemma {:induction false} JoinSplit(s: string)
    ensures JoinComma(SplitComma(s)) == s
    decreases |s|
  {
    if s != [] {
      JoinSplit(s[1..]);
      assert s == [s[0]] + s[1..];
      JoinSplitCons(s[0], s[1..]);
    }
  }

  /** One character more in front: a comma opens a new segment, anything else extends the first. */
  lemma JoinSplitCons(c: char, t: string)
    requires JoinComma(SplitComma(t)) == t
    ensures JoinComma(SplitComma([c] + t)) == [c] + t
  {
    var s := [c] + t;
    assert s[0] == c && s[1..] == t;
    if c == ',' {
      assert SplitComma(s) == [""] + SplitComma(t);
      JoinOpen(SplitComma(t));
    } else {
      var rest := SplitComma(t);
      assert SplitComma(s) == [[c] + rest[0]] + rest[1..];
      JoinExtend(c, rest);
    }
  }

  /** An empty segment in front adds a comma in front. */
  lemma JoinOpen(parts: seq<string>)
    requires |parts| >= 1
    ensures JoinComma([""] + parts) == "," + JoinComma(parts)
  {
    assert ([""] + parts)[1..] == parts;
  }

  /** A character put in front of the first segment goes in front of the whole. */
  lemma JoinExtend(c: char, parts: seq<string>)
    requires |parts| >= 1
    ensures JoinComma([[c] + parts[0]] + parts[1..]) == [c] + JoinComma(parts)
  {
    var q := [[c] + parts[0]] + parts[1..];
    if |parts| > 1 {
      var tail := JoinComma(parts[1..]);
      calc {
        JoinComma(q);
        q[0] + "," + JoinComma(q[1..]);
        { assert q[0] == [c] + parts[0] && q[1..] == parts[1..]; }
        ([c] + parts[0]) + "," + tail;
        { Assoc4([c], parts[0], ",", tail); }
        [c] + (parts[0] + "," + tail);
      }
    } else {
      assert q == [[c] + parts[0]];
    }
  }

  lemma Assoc4<T>(a: seq<T>, b: seq<T>, c: seq<T>, d: seq<T>)
    ensures ((a + b) + c) + d == a + ((b + c) + d)
  {
  }

  /** `p` with its trailing `/` characters removed. */
  function DropTrailingSlashes(p: string): (r: string)
    ensures |r| <= |p| && r == p[..|r|]
    ensures r == [] || r[|r| - 1] != '/'
    decreases |p|
  {
    if |p| > 0 && p[|p| - 1] == '/' then DropTrailingSlashes(p[..|p| - 1]) else p
  }

  /** The part of `p` after its last `/` (all of `p` when it has none). */
  function AfterLastSlash(p: string): (r: string)
    ensures '/' !in r
    ensures |r| <= |p| && r == p[|p| - |r|..]
    decreases |p|
  {
    if p == [] || p[|p| - 1] == '/' then [] else AfterLastSlash(p[..|p| - 1]) + [p[|p| - 1]]
  }

  /** Node's POSIX `path.basename(p)`: the last path segment, ignoring trailing separators. */
  function BaseName(p: string): (r: string)
    ensures '/' !in r
  {
    AfterLastSlash(DropTrailingSlashes(p))
  }

  /** The base name of `dir/name` is `name`: the file name the source gives an entry of the archive. */
  lemma {:induction false} BaseNameOfJoin(dir: string, name: string)
    requires name != [] && '/' !in name
    ensures BaseName(dir + "/" + name) == name
  {
    var p := dir + "/" + name;
    assert p[|p| - 1] == name[|name| - 1];
    assert DropTrailingSlashes(p) == p;
    AfterLastSlashJoin(dir, name);
  }

  lemma {:induction false} AfterLastSlashJoin(dir: string, name: string)
    requires '/' !in name
    ensures AfterLastSlash(dir + "/" + name) == name
    decreases |name|
  {
    var p := dir + "/" + name;
    if name == [] {
      assert p[|p| - 1] == '/';
    } else {
      var init := name[..|name| - 1];
      var last := name[|name| - 1];
      assert name == init + [last];
      assert '/' !in init by {
        forall k | 0 <= k < |init| ensures init[k] != '/' { assert init[k] == name[k]; }
      }
      AfterLastSlashJoin(dir, init);
      var q := dir + "/" + init;
      assert p == q + [last];
      assert p[..|p| - 1] == q;
      assert p[|p| - 1] == last;
    }
  }
}
