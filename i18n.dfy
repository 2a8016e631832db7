/**
 * The interface translator `t(key, vars)`: a dictionary lookup that falls back to the key,
 * followed by one `String.prototype.replace` per variable, in entry order, of the placeholder
 * `{name}` by the variable's text. The dictionary is a parameter.
 */
module I18n {
  import opened Base

  /** `dictionary[key] ?? key`: the entry for the key, or the key itself when there is none. */
  function Lookup(dict: map<string, string>, key: string): (v: string)
    ensures v == key || v in dict.Values
    ensures key in dict ==> v == dict[key]
    ensures key !in dict ==> v == key
  {
    if key in dict then dict[key] else key
  }

  /** `s` holds `p` starting at position `j`. */
  predicate MatchesAt(p: string, s: string, j: int) {
    0 <= j && j + |p| <= |s| && s[j..j + |p|] == p
  }

  /** The first position at or after `i` where `s` holds `p`. */
  function FindFrom(p: string, s: string, i: nat): (r: Option<nat>)
    ensures r.Some? ==> i <= r.value && MatchesAt(p, s, r.value)
    ensures r.Some? ==> forall j :: i <= j < r.value ==> !MatchesAt(p, s, j)
    ensures r.None? ==> forall j :: i <= j ==> !MatchesAt(p, s, j)
    decreases |s| - i
  {
    if i + |p| > |s| then None
    else if s[i..i + |p|] == p then Some(i)
    else FindFrom(p, s, i + 1)
  }

  /** `s.indexOf(p)`, with `None` for -1: the leftmost occurrence. */
  function FindFirst(p: string, s: string): (r: Option<nat>)
    ensures r.Some? ==> MatchesAt(p, s, r.value) && forall j :: 0 <= j < r.value ==> !MatchesAt(p, s, j)
    ensures r.None? <==> forall j :: !MatchesAt(p, s, j)
  {
    FindFrom(p, s, 0)
  }

  /**
   * The replacement text that `replace` inserts for a match of a string pattern: `$$` is a
   * dollar, `$&` the match, `` $` `` the text before it, `$'` the text after it; having no
   * capture groups, every other `$` stays as it is. A text without `$` goes in verbatim.
   */
  function Substitution(rep: string, matched: string, before: string, after: string): (r: string)
    ensures '$' !in rep ==> r == rep
    decreases |rep|
  {
    if rep == [] then []
    else if rep[0] == '$' && |rep| >= 2 && rep[1] == '$' then "$" + Substitution(rep[2..], matched, before, after)
    else if rep[0] == '$' && |rep| >= 2 && rep[1] == '&' then matched + Substitution(rep[2..], matched, before, after)
    else if rep[0] == '$' && |rep| >= 2 && rep[1] == '`' then before + Substitution(rep[2..], matched, before, after)
    else if rep[0] == '$' && |rep| >= 2 && rep[1] == '\'' then after + Substitution(rep[2..], matched, before, after)
    else
      assert rep == [rep[0]] + rep[1..];
      [rep[0]] + Substitution(rep[1..], matched, before, after)
  }

  /**
   * `s.replace(p, rep)` with a string pattern: a text without the pattern comes back unchanged;
   * otherwise the text before the first occurrence and the text after it are kept around the
   * replacement.
   */
  function Replace(s: string, p: string, rep: string): (r: string)
    ensures (forall j :: !MatchesAt(p, s, j)) ==> r == s
    ensures FindFirst(p, s).Some? ==> var i := FindFirst(p, s).value;
      && s[..i] <= r
      && |s| - i - |p| <= |r| && r[|r| - (|s| - i - |p|)..] == s[i + |p|..]
  {
    match FindFirst(p, s)
    case None => s
    case Some(i) => s[..i] + Substitution(rep, p, s[..i], s[i + |p|..]) + s[i + |p|..]
  }

  /** The placeholder `{name}`. */
  function Placeholder(name: string): string {
    "{" + name + "}"
  }

  /** No variable's placeholder occurs in `value`. */
  ghost predicate NoPlaceholders(value: string, vars: seq<(string, string)>) {
    forall k, j :: 0 <= k < |vars| ==> !MatchesAt(Placeholder(vars[k].0), value, j)
  }

  /**
   * The loop of `t` as a fold: each variable is substituted into the previous result. A text
   * holding none of the placeholders comes back unchanged.
   */
  function ApplyVars(value: string, vars: seq<(string, string)>): (r: string)
    ensures NoPlaceholders(value, vars) ==> r == value
    decreases |vars|
  {
    if vars == [] then value
    else
      assert NoPlaceholders(value, vars) ==> NoPlaceholders(value, vars[1..]) by {
        assert forall k :: 0 <= k < |vars[1..]| ==> vars[1..][k] == vars[k + 1];
      }
      ApplyVars(Replace(value, Placeholder(vars[0].0), vars[0].1), vars[1..])
  }

  /**
   * `t(key, vars)`. The variables are given in the order `Object.entries` lists them, with
   * their values already turned into text; absent `vars` is the empty list.
   */
  method T(dict: map<string, string>, key: string, vars: seq<(string, string)>) returns (value: string)
    ensures value == ApplyVars(Lookup(dict, key), vars)
    ensures vars == [] ==> value == Lookup(dict, key)
    ensures key !in dict && vars == [] ==> value == key
  {
    value := Lookup(dict, key);
    ghost var start := value;
    assert vars[0..] == vars;
    for i := 0 to |vars|
      invariant ApplyVars(value, vars[i..]) == ApplyVars(start, vars)
    {
      assert vars[i..][0] == vars[i] && vars[i..][1..] == vars[i + 1..];
      value := Replace(value, Placeholder(vars[i].0), vars[i].1);
    }
    assert vars[|vars|..] == [];
  }

  /**
   * Only the first occurrence is replaced: the text before it and everything after it,
   * including any later occurrence, is kept, and a `$`-free replacement goes in verbatim.
   */
  lemma ReplaceFirstOnly(s: string, p: string, rep: string, i: nat)
    requires MatchesAt(p, s, i) && forall j :: 0 <= j < i ==> !MatchesAt(p, s, j)
    requires '$' !in rep
    ensures Replace(s, p, rep) == s[..i] + rep + s[i + |p|..]
  {
    var f := FindFirst(p, s);
    assert f.Some?;
    assert f.value == i;
  }

  /** Splitting the variables splits the substitution: the later ones work on the earlier ones' output. */
  lemma {:induction false} ApplyVarsAppend(value: string, a: seq<(string, string)>, b: seq<(string, string)>)
    ensures ApplyVars(value, a + b) == ApplyVars(ApplyVars(value, a), b)
    decreases |a|
  {
    if a == [] {
      assert a + b == b;
    } else {
      assert (a + b)[0] == a[0] && (a + b)[1..] == a[1..] + b;
      ApplyVarsAppend(Replace(value, Placeholder(a[0].0), a[0].1), a[1..], b);
    }
  }

  /** A variable whose placeholder does not occur changes nothing and the later ones proceed as without it. */
  lemma ApplyVarsSkipsAbsent(value: string, name: string, text: string, rest: seq<(string, string)>)
    requires forall j :: !MatchesAt(Placeholder(name), value, j)
    ensures ApplyVars(value, [(name, text)] + rest) == ApplyVars(value, rest)
  {
    var vars := [(name, text)] + rest;
    assert vars[0] == (name, text) && vars[1..] == rest;
  }

  /** A placeholder used twice is filled only where it first appears. */
  lemma RepeatedPlaceholderExample()
    ensures ApplyVars("{n} / {n}", [("n", "3")]) == "3 / {n}"
  {
    var s := "{n} / {n}";
    var p := Placeholder("n");
    var vars := [("n", "3")];
    assert p == "{n}";
    assert MatchesAt(p, s, 0);
    ReplaceFirstOnly(s, p, "3", 0);
    var r := Replace(s, p, "3");
    assert r == "3 / {n}" by {
      assert s[..0] == [] && s[3..] == " / {n}";
    }
    assert vars[0] == ("n", "3") && vars[1..] == [];
    assert ApplyVars(s, vars) == ApplyVars(r, []);
  }

  /** A `$$` in a value comes out as a single dollar. */
  lemma DollarExample()
    ensures Replace("{sum} UAH", "{sum}", "$$5") == "$5 UAH"
  {
    var s := "{sum} UAH";
    var p := "{sum}";
    assert MatchesAt(p, s, 0);
    assert FindFirst(p, s) == Some(0);
    assert s[..0] == [] && s[5..] == " UAH";
    var rep := "$$5";
    assert rep[2..] == "5";
    assert Substitution("5", p, [], " UAH") == "5" by {
      assert "5"[1..] == [];
    }
  }
}
