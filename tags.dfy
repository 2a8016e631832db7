/**
 * The tag reconciler (`upsertTagsForEvidence`): normalising a free-form tag list and
 * replacing one evidence version's links. The tag table is append-only, so tag `k` is the
 * `k`-th name of `tags`; a link names its tag by that position.
 */
module Tags {
  import opened Base
  import opened Text
  import opened Evidence
  import opened Sorting

  /** Every name is non-empty and trimmed, and no name occurs twice. */
  ghost predicate IsNormalized(names: seq<string>) {
    && (forall n :: n in names ==> n != "" && IsTrimmed(n))
    && Distinct(names)
  }

  /** `tags.map((t) => t.trim())`. */
  function TrimAll(raw: seq<string>): (r: seq<string>)
    ensures |r| == |raw|
    ensures forall i :: 0 <= i < |raw| ==> r[i] == Trim(raw[i])
  {
    seq(|raw|, i requires 0 <= i < |raw| => Trim(raw[i]))
  }

  predicate NonEmpty(n: string) {
    n != ""
  }

  /**
   * `.filter((t) => t.length > 0)`: the non-empty names in order, each as often as in `s`;
   * a list without empty names is returned unchanged.
   */
  function DropEmpty(s: seq<string>): (r: seq<string>)
    ensures forall x :: x in r <==> x in s && x != ""
    ensures multiset(r) == multiset(s)["" := 0]
    ensures (forall x :: x in s ==> x != "") ==> r == s
  {
    var r := Filter(s, NonEmpty);
    forall x ensures multiset(r)[x] == multiset(s)["" := 0][x] {
      FilterMultiplicity(s, NonEmpty, x);
    }
    r
  }

  /**
   * `Array.from(new Set(s))`: the distinct names, each once, listed in the order of their
   * first occurrence in `s`.
   */
  function Dedupe(s: seq<string>): (r: seq<string>)
    ensures Distinct(r)
    ensures forall x :: x in r <==> x in s
    ensures forall i, j :: 0 <= i < j < |r| ==> FirstIndex(s, r[i]) < FirstIndex(s, r[j])
    ensures Distinct(s) ==> r == s
  {
    if s == [] then []
    else
      var init := s[..|s| - 1];
      var x := s[|s| - 1];
      assert s == init + [x];
      var d := Dedupe(init);
      assert Distinct(s) ==> Distinct(init) && x !in init by {
        if Distinct(s) {
          forall k | 0 <= k < |init| ensures init[k] != x { assert init[k] == s[k]; }
        }
      }
      DedupeStep(init, x, d);
      if x in d then d else d + [x]
  }

  /** A new element appended last first occurs at the end. */
  lemma FirstIndexOfNew<T>(a: seq<T>, x: T)
    requires x !in a
    ensures FirstIndex(a + [x], x) == |a|
  {
    FirstIndexMinimal(a + [x], x);
    assert (a + [x])[..|a|] == a;
  }

  /** One step of `Dedupe`: a name already seen is skipped, a new one goes last. */
  lemma DedupeStep<T>(init: seq<T>, x: T, d: seq<T>)
    requires Distinct(d) && forall y :: y in d <==> y in init
    requires forall i, j :: 0 <= i < j < |d| ==> FirstIndex(init, d[i]) < FirstIndex(init, d[j])
    ensures var s := init + [x];
      var r := if x in d then d else d + [x];
      && Distinct(r)
      && (forall y :: y in r <==> y in s)
      && (forall i, j :: 0 <= i < j < |r| ==> FirstIndex(s, r[i]) < FirstIndex(s, r[j]))
  {
    var s := init + [x];
    forall y | y in init ensures FirstIndex(s, y) == FirstIndex(init, y) < |init| {
      FirstIndexPrefix(init, [x], y);
    }
    if x !in d {
      forall i | 0 <= i < |d| ensures d[i] in init && FirstIndex(s, d[i]) < |init| {
        assert d[i] in d;
      }
      DistinctAppend(d, x);
      DedupeNewName(init, x, d);
    } else {
      forall i, j | 0 <= i < j < |d| ensures FirstIndex(s, d[i]) < FirstIndex(s, d[j]) {
        assert d[i] in init && d[j] in init;
      }
    }
  }

  /** A name not seen before goes last, after every name of `init`. */
  lemma DedupeNewName<T>(init: seq<T>, x: T, d: seq<T>)
    requires x !in init
    requires forall i :: 0 <= i < |d| ==> d[i] in init && FirstIndex(init + [x], d[i]) < |init|
    requires forall i, j :: 0 <= i < j < |d| ==> FirstIndex(init + [x], d[i]) < FirstIndex(init + [x], d[j])
    ensures forall i, j :: 0 <= i < j < |d + [x]| ==> FirstIndex(init + [x], (d + [x])[i]) < FirstIndex(init + [x], (d + [x])[j])
  {
    var s := init + [x];
    var r := d + [x];
    var last := FirstIndex(s, x);
    FirstIndexOfNew(init, x);
    forall i | 0 <= i < |d| ensures FirstIndex(s, r[i]) < last {
      assert r[i] == d[i];
    }
    forall i, j | 0 <= i < j < |r| ensures FirstIndex(s, r[i]) < FirstIndex(s, r[j]) {
      if j < |d| {
        assert r[i] == d[i] && r[j] == d[j];
      } else {
        assert r[j] == x;
      }
    }
  }

  lemma DistinctAppend<T>(s: seq<T>, x: T)
    requires Distinct(s) && x !in s
    ensures Distinct(s + [x])
  {
  }

  lemma DistinctConcat<T>(a: seq<T>, b: seq<T>)
    requires Distinct(a) && Distinct(b)
    requires forall x :: x in a ==> x !in b
    ensures Distinct(a + b)
  {
    var c := a + b;
    forall i, j | 0 <= i < j < |c| ensures c[i] != c[j] {
      if j < |a| {
        assert c[i] == a[i] && c[j] == a[j];
      } else if i >= |a| {
        assert c[i] == b[i - |a|] && c[j] == b[j - |a|];
      } else {
        assert c[i] in a && c[j] in b;
      }
    }
  }

  /** The names `upsertTagsForEvidence` links: trimmed, non-empty, deduplicated case-sensitively. */
  function NormalizeTags(raw: seq<string>): (r: seq<string>)
    ensures IsNormalized(r)
    ensures forall n :: n in r <==> n != "" && n in TrimAll(raw)
  {
    Dedupe(DropEmpty(TrimAll(raw)))
  }

  /** Normalising an already normalised list returns it unchanged. */
  lemma NormalizeOfNormalized(names: seq<string>)
    requires IsNormalized(names)
    ensures NormalizeTags(names) == names
  {
    forall i | 0 <= i < |names| ensures TrimAll(names)[i] == names[i] {
      assert names[i] in names;
      TrimOfTrimmed(names[i]);
    }
    assert TrimAll(names) == names;
  }

  lemma NormalizeIdempotent(raw: seq<string>)
    ensures NormalizeTags(NormalizeTags(raw)) == NormalizeTags(raw)
  {
    NormalizeOfNormalized(NormalizeTags(raw));
  }

  /** `SELECT id FROM tags WHERE name = ?`: a tag so named, if there is one (`FindTagFirst`: the first). */
  function FindTag(tags: seq<string>, name: string): (r: Option<nat>)
    ensures r.Some? ==> r.value < |tags| && tags[r.value] == name
    ensures r.None? <==> name !in tags
  {
    if name in tags then Some(FirstIndex(tags, name)) else None
  }

  /** With duplicate names the lookup finds the oldest tag; with unique names, the only one. */
  lemma FindTagFirst(tags: seq<string>, name: string)
    requires name in tags
    ensures name !in tags[..FindTag(tags, name).value]
    ensures Distinct(tags) ==> forall k :: 0 <= k < |tags| && tags[k] == name ==> k == FindTag(tags, name).value
  {
    FirstIndexMinimal(tags, name);
  }

  /** Appending tags does not change which tag a known name resolves to. */
  lemma FindTagExtend(tags: seq<string>, more: seq<string>, name: string)
    requires name in tags
    ensures FindTag(tags + more, name) == FindTag(tags, name)
  {
    FirstIndexPrefix(tags, more, name);
  }

  /** The id a name resolves to (the next free id when it is not yet a tag). */
  function TagIdOf(tags: seq<string>, name: string): nat {
    match FindTag(tags, name)
    case Some(k) => k
    case None => |tags|
  }

  /** Link `l` belongs to evidence `e` and names an existing tag (the inner join's condition). */
  predicate Resolves(tags: seq<string>, e: Id, l: Link) {
    l.evidenceId == e && l.tagId < |tags|
  }

  /** The links of `e` that the join keeps, in link order. */
  function Resolving(tags: seq<string>, links: seq<Link>, e: Id): seq<Link> {
    if links == [] then []
    else (if Resolves(tags, e, links[0]) then [links[0]] else []) + Resolving(tags, links[1..], e)
  }

  /** The join keeps exactly the links of `e` to existing tags. */
  lemma {:induction false} ResolvingMembers(tags: seq<string>, links: seq<Link>, e: Id)
    ensures forall l :: l in Resolving(tags, links, e) <==> l in links && Resolves(tags, e, l)
    decreases |links|
  {
    if links != [] {
      ResolvingMembers(tags, links[1..], e);
      assert links == [links[0]] + links[1..];
    }
  }

  /**
   * The names linked to evidence `e` (`SELECT t.name ... WHERE et.evidence_id = ?`): a name
   * for every link of `e` to an existing tag and for nothing else. `LinkedNamesByLink` adds
   * that there is exactly one name per such link, in link order.
   */
  function LinkedNames(tags: seq<string>, links: seq<Link>, e: Id): (r: seq<string>)
    ensures forall n :: n in r ==> exists l :: l in links && Resolves(tags, e, l) && tags[l.tagId] == n
    ensures forall l :: l in links && Resolves(tags, e, l) ==> tags[l.tagId] in r
  {
    if links == [] then []
    else
      var l := links[0];
      assert links == [l] + links[1..];
      (if Resolves(tags, e, l) then [tags[l.tagId]] else []) + LinkedNames(tags, links[1..], e)
  }

  /** One name per resolving link of `e`, in link order: a tag linked twice is named twice. */
  lemma {:induction false} LinkedNamesByLink(tags: seq<string>, links: seq<Link>, e: Id)
    ensures var r := LinkedNames(tags, links, e);
      var own := Resolving(tags, links, e);
      && |r| == |own|
      && forall i :: 0 <= i < |r| ==> own[i].tagId < |tags| && r[i] == tags[own[i].tagId]
    decreases |links|
  {
    if links != [] {
      var l := links[0];
      var head := if Resolves(tags, e, l) then [tags[l.tagId]] else [];
      var hl: seq<Link> := if Resolves(tags, e, l) then [l] else [];
      var rest := LinkedNames(tags, links[1..], e);
      var tail := Resolving(tags, links[1..], e);
      LinkedNamesByLink(tags, links[1..], e);
      assert links == [l] + links[1..];
      assert LinkedNames(tags, links, e) == head + rest;
      assert Resolving(tags, links, e) == hl + tail;
      forall i | 0 <= i < |head + rest|
        ensures (hl + tail)[i].tagId < |tags| && (head + rest)[i] == tags[(hl + tail)[i].tagId]
      {
        if i < |head| {
          assert (hl + tail)[i] == l;
        } else {
          assert (head + rest)[i] == rest[i - |head|] && (hl + tail)[i] == tail[i - |hl|];
        }
      }
    }
  }

  /** `DELETE FROM evidence_tags WHERE evidence_id = ?`: the other links, in their order. */
  function RemoveLinks(links: seq<Link>, e: Id): (r: seq<Link>)
    ensures forall l :: l in r <==> l in links && l.evidenceId != e
  {
    if links == [] then []
    else
      assert links == [links[0]] + links[1..];
      (if links[0].evidenceId == e then [] else [links[0]]) + RemoveLinks(links[1..], e)
  }

  /** Removing links keeps the link table free of duplicate pairs. */
  lemma {:induction false} RemoveLinksDistinct(links: seq<Link>, e: Id)
    requires Distinct(links)
    ensures Distinct(RemoveLinks(links, e))
    decreases |links|
  {
    if links != [] {
      assert Distinct(links[1..]) && links[0] !in links[1..] by {
        forall k | 0 <= k < |links[1..]| ensures links[1..][k] != links[0] { assert links[1..][k] == links[k + 1]; }
      }
      RemoveLinksDistinct(links[1..], e);
      if links[0].evidenceId != e {
        DistinctConcat([links[0]], RemoveLinks(links[1..], e));
      }
    }
  }

  /** A version without links is unaffected; a list of its own links is emptied. */
  lemma {:induction false} RemoveLinksEdge(links: seq<Link>, e: Id)
    ensures (forall l :: l in links ==> l.evidenceId != e) ==> RemoveLinks(links, e) == links
    ensures (forall l :: l in links ==> l.evidenceId == e) ==> RemoveLinks(links, e) == []
    decreases |links|
  {
    if links != [] {
      assert links[0] in links;
      assert forall l :: l in links[1..] ==> l in links;
      RemoveLinksEdge(links[1..], e);
      assert links == [links[0]] + links[1..];
    }
  }

  /** Every link names an existing tag, and no (evidence, tag) pair is linked twice. */
  ghost predicate LinksWellFormed(tags: seq<string>, links: seq<Link>) {
    && (forall l :: l in links ==> l.tagId < |tags|)
    && Distinct(links)
  }

  /** One iteration of the reconcile loop: look the name up, create the tag if absent, link it. */
  function LinkOne(tags: seq<string>, links: seq<Link>, e: Id, name: string): (seq<string>, seq<Link>) {
    match FindTag(tags, name)
    case Some(k) => (tags, links + [Link(e, k)])
    case None => (tags + [name], links + [Link(e, |tags|)])
  }

  /** The reconcile loop over `names`. */
  function LinkAll(tags: seq<string>, links: seq<Link>, e: Id, names: seq<string>): (seq<string>, seq<Link>)
    decreases |names|
  {
    if names == [] then (tags, links)
    else
      var (t, l) := LinkOne(tags, links, e, names[0]);
      LinkAll(t, l, e, names[1..])
  }

  /**
   * `upsertTagsForEvidence(e, raw)` on the tag table and link table, in closed form: the tag
   * table only grows, by normalised names only, until it holds every normalised name, and
   * stays free of repeats; the link table is the other versions' links followed by one link
   * per normalised name, in order.
   */
  function Reconcile(tags: seq<string>, links: seq<Link>, e: Id, raw: seq<string>): (r: (seq<string>, seq<Link>))
    ensures tags <= r.0
    ensures forall n :: n in NormalizeTags(raw) ==> n in r.0
    ensures forall n :: n in r.0 ==> n in tags || n in NormalizeTags(raw)
    ensures r.1 == RemoveLinks(links, e) + LinksFor(r.0, e, NormalizeTags(raw))
    ensures Distinct(tags) ==> Distinct(r.0)
  {
    LinkAllShape(tags, RemoveLinks(links, e), e, NormalizeTags(raw));
    LinkAll(tags, RemoveLinks(links, e), e, NormalizeTags(raw))
  }

  /** The links from `e` to the tags `names` resolve to in `tags`, in order. */
  function LinksFor(tags: seq<string>, e: Id, names: seq<string>): (r: seq<Link>)
    ensures |r| == |names|
  {
    seq(|names|, i requires 0 <= i < |names| => Link(e, TagIdOf(tags, names[i])))
  }

  lemma LinksForCons(tags: seq<string>, e: Id, names: seq<string>)
    requires names != []
    ensures LinksFor(tags, e, names) == [Link(e, TagIdOf(tags, names[0]))] + LinksFor(tags, e, names[1..])
  {
  }

  /**
   * What the reconcile loop does: it only appends tags, every name ends up a tag, the links
   * it appends are exactly `LinksFor` the final table, and it keeps tag names unique.
   */
  lemma {:induction false} LinkAllShape(tags: seq<string>, links: seq<Link>, e: Id, names: seq<string>)
    ensures var (t, l) := LinkAll(tags, links, e, names);
      && tags <= t
      && (forall n :: n in names ==> n in t)
      && (forall n :: n in t ==> n in tags || n in names)
      && l == links + LinksFor(t, e, names)
      && (Distinct(tags) ==> Distinct(t))
    decreases |names|
  {
    if names != [] {
      var n0 := names[0];
      var (t1, l1) := LinkOne(tags, links, e, n0);
      var (t, l) := LinkAll(t1, l1, e, names[1..]);
      assert (t, l) == LinkAll(tags, links, e, names);
      LinkAllShape(t1, l1, e, names[1..]);
      LinkOneShape(tags, links, e, n0);
      assert t == t1 + t[|t1|..];
      FindTagExtend(t1, t[|t1|..], n0);
      LinksForCons(t, e, names);
      assert names == [n0] + names[1..];
    }
  }

  /** One turn of the loop only appends to the tag table, makes the name a tag and links it. */
  lemma LinkOneShape(tags: seq<string>, links: seq<Link>, e: Id, n: string)
    ensures var (t1, l1) := LinkOne(tags, links, e, n);
      && n in t1 && tags <= t1
      && (forall m :: m in t1 ==> m in tags || m == n)
      && l1 == links + [Link(e, TagIdOf(t1, n))]
      && (Distinct(tags) ==> Distinct(t1))
  {
    var (t1, l1) := LinkOne(tags, links, e, n);
    match FindTag(tags, n)
    case Some(k) =>
    case None =>
      assert FindTag(t1, n) == Some(|tags|) by {
        assert t1[|tags|] == n && t1[..|tags|] == tags;
      }
      if Distinct(tags) { DistinctAppend(tags, n); }
  }

  /** When every name already is a tag, the loop adds no tag and links exactly those tags. */
  lemma {:induction false} LinkAllKnown(tags: seq<string>, links: seq<Link>, e: Id, names: seq<string>)
    requires forall n :: n in names ==> n in tags
    ensures LinkAll(tags, links, e, names) == (tags, links + LinksFor(tags, e, names))
    decreases |names|
  {
    if names != [] {
      assert names[0] in tags;
      assert forall n :: n in names[1..] ==> n in names;
      var x := Link(e, TagIdOf(tags, names[0]));
      assert LinkAll(tags, links, e, names) == LinkAll(tags, links + [x], e, names[1..]);
      LinkAllKnown(tags, links + [x], e, names[1..]);
      LinksForCons(tags, e, names);
      assert links + [x] + LinksFor(tags, e, names[1..]) == links + ([x] + LinksFor(tags, e, names[1..]));
    } else {
      assert links + LinksFor(tags, e, names) == links;
    }
  }

  lemma {:induction false} LinkedNamesAppend(tags: seq<string>, a: seq<Link>, b: seq<Link>, e: Id)
    ensures LinkedNames(tags, a + b, e) == LinkedNames(tags, a, e) + LinkedNames(tags, b, e)
    decreases |a|
  {
    if a != [] {
      assert (a + b)[0] == a[0];
      assert (a + b)[1..] == a[1..] + b;
      LinkedNamesAppend(tags, a[1..], b, e);
    } else {
      assert a + b == b;
    }
  }

  /** Appending tags does not rename the tags existing links point to. */
  lemma {:induction false} LinkedNamesExtend(tags: seq<string>, t: seq<string>, links: seq<Link>, e: Id)
    requires tags <= t
    requires forall l :: l in links ==> l.tagId < |tags|
    ensures LinkedNames(t, links, e) == LinkedNames(tags, links, e)
    decreases |links|
  {
    if links != [] {
      assert links[0] in links;
      assert forall l :: l in links[1..] ==> l in links;
      LinkedNamesExtend(tags, t, links[1..], e);
      assert t[links[0].tagId] == tags[links[0].tagId];
    }
  }

  /** Removing the links of `e` empties its name list and leaves every other list alone. */
  lemma {:induction false} LinkedNamesRemove(tags: seq<string>, links: seq<Link>, e: Id, e': Id)
    ensures LinkedNames(tags, RemoveLinks(links, e), e') == if e == e' then [] else LinkedNames(tags, links, e')
    decreases |links|
  {
    if links != [] {
      var h := links[0];
      var rest := RemoveLinks(links[1..], e);
      LinkedNamesRemove(tags, links[1..], e, e');
      if h.evidenceId == e {
        assert RemoveLinks(links, e) == rest;
      } else {
        assert RemoveLinks(links, e) == [h] + rest;
        assert ([h] + rest)[0] == h && ([h] + rest)[1..] == rest;
      }
    }
  }

  /** The links `LinksFor` builds read back as the names they were built from, for `e` only. */
  lemma {:induction false} LinkedNamesOfLinksFor(tags: seq<string>, e: Id, names: seq<string>, e': Id)
    requires forall n :: n in names ==> n in tags
    ensures LinkedNames(tags, LinksFor(tags, e, names), e') == if e == e' then names else []
    decreases |names|
  {
    if names != [] {
      var n0 := names[0];
      var x := Link(e, TagIdOf(tags, n0));
      var more := LinksFor(tags, e, names[1..]);
      LinksForCons(tags, e, names);
      TagIdOfKnown(tags, n0);
      LinkedNamesCons(tags, x, more, e');
      assert forall n :: n in names[1..] ==> n in tags;
      LinkedNamesOfLinksFor(tags, e, names[1..], e');
      assert names == [n0] + names[1..];
    }
  }

  /** A known name resolves to a tag of that name. */
  lemma TagIdOfKnown(tags: seq<string>, name: string)
    requires name in tags
    ensures TagIdOf(tags, name) < |tags| && tags[TagIdOf(tags, name)] == name
  {
  }

  /** The join reads the first link, then the rest. */
  lemma LinkedNamesCons(tags: seq<string>, x: Link, rest: seq<Link>, e: Id)
    ensures LinkedNames(tags, [x] + rest, e) == (if Resolves(tags, e, x) then [tags[x.tagId]] else []) + LinkedNames(tags, rest, e)
  {
    assert ([x] + rest)[0] == x && ([x] + rest)[1..] == rest;
  }

  /** With unique tag names, distinct names resolve to distinct links. */
  lemma LinksForDistinct(tags: seq<string>, e: Id, names: seq<string>)
    requires Distinct(tags) && Distinct(names)
    requires forall n :: n in names ==> n in tags
    ensures Distinct(LinksFor(tags, e, names))
    ensures forall l :: l in LinksFor(tags, e, names) ==> l.evidenceId == e && l.tagId < |tags|
  {
    var ls := LinksFor(tags, e, names);
    forall i, j | 0 <= i < j < |ls| ensures ls[i] != ls[j] {
      assert names[i] in tags && names[j] in tags;
      assert tags[TagIdOf(tags, names[i])] == names[i];
      assert tags[TagIdOf(tags, names[j])] == names[j];
    }
    forall l | l in ls ensures l.evidenceId == e && l.tagId < |tags| {
      var i :| 0 <= i < |ls| && ls[i] == l;
      assert names[i] in tags;
    }
  }

  /**
   * The reconciler's contract: afterwards the links of `e` name exactly the normalised tags,
   * every other version keeps its tag names, no tag is removed, tag names stay unique and
   * normalised, and the link table stays well formed.
   */
  lemma ReconcileSpec(tags: seq<string>, links: seq<Link>, e: Id, raw: seq<string>)
    requires IsNormalized(tags) && LinksWellFormed(tags, links)
    ensures var (t, l) := Reconcile(tags, links, e, raw);
      && tags <= t
      && IsNormalized(t)
      && LinksWellFormed(t, l)
      && LinkedNames(t, l, e) == NormalizeTags(raw)
      && (forall e' :: e' != e ==> LinkedNames(t, l, e') == LinkedNames(tags, links, e'))
      && (forall x :: x in l ==> x in links || x.evidenceId == e)
  {
    var names := NormalizeTags(raw);
    var (t, l) := Reconcile(tags, links, e, raw);
    var kept := RemoveLinks(links, e);
    var added := LinksFor(t, e, names);
    assert l == kept + added;
    // the tag table
    forall n | n in t ensures n != "" && IsTrimmed(n) {
      assert n in tags || n in names;
    }
    // the link table
    LinksForDistinct(t, e, names);
    RemoveLinksDistinct(links, e);
    forall x | x in kept ensures x !in added {
      assert x.evidenceId != e;
    }
    DistinctConcat(kept, added);
    forall x | x in l ensures x.tagId < |t| {
      assert x in kept || x in added;
    }
    // the names read back
    LinkedNamesAppend(t, kept, added, e);
    LinkedNamesRemove(t, links, e, e);
    LinkedNamesOfLinksFor(t, e, names, e);
    forall e' | e' != e ensures LinkedNames(t, l, e') == LinkedNames(tags, links, e') {
      LinkedNamesAppend(t, kept, added, e');
      LinkedNamesRemove(t, links, e, e');
      LinkedNamesOfLinksFor(t, e, names, e');
      LinkedNamesExtend(tags, t, links, e');
    }
  }

  /** Reconciling the same version with the same list a second time changes nothing. */
  lemma ReconcileIdempotent(tags: seq<string>, links: seq<Link>, e: Id, raw: seq<string>)
    ensures var (t, l) := Reconcile(tags, links, e, raw);
      Reconcile(t, l, e, raw) == (t, l)
  {
    var names := NormalizeTags(raw);
    var r := Reconcile(tags, links, e, raw);
    var t := r.0;
    var kept := RemoveLinks(links, e);
    var added := LinksFor(t, e, names);
    assert r.1 == kept + added;
    NoOwnLinksAfterRemove(links, e);
    AllOwnLinksFor(t, e, names);
    RemoveLinksAppend(kept, added, e);
    RemoveLinksEdge(kept, e);
    RemoveLinksEdge(added, e);
    assert RemoveLinks(r.1, e) == kept;
    LinkAllKnown(t, kept, e, names);
  }

  lemma NoOwnLinksAfterRemove(links: seq<Link>, e: Id)
    ensures forall x :: x in RemoveLinks(links, e) ==> x.evidenceId != e
  {
  }

  lemma AllOwnLinksFor(tags: seq<string>, e: Id, names: seq<string>)
    ensures forall x :: x in LinksFor(tags, e, names) ==> x.evidenceId == e
  {
    var added := LinksFor(tags, e, names);
    forall x | x in added ensures x.evidenceId == e {
      var i :| 0 <= i < |added| && added[i] == x;
    }
  }

  lemma {:induction false} RemoveLinksAppend(a: seq<Link>, b: seq<Link>, e: Id)
    ensures RemoveLinks(a + b, e) == RemoveLinks(a, e) + RemoveLinks(b, e)
    decreases |a|
  {
    if a != [] {
      var h := a[0];
      var head: seq<Link> := if h.evidenceId == e then [] else [h];
      calc {
        RemoveLinks(a + b, e);
        { assert (a + b)[0] == h && (a + b)[1..] == a[1..] + b; }
        head + RemoveLinks(a[1..] + b, e);
        { RemoveLinksAppend(a[1..], b, e); }
        head + (RemoveLinks(a[1..], e) + RemoveLinks(b, e));
        (head + RemoveLinks(a[1..], e)) + RemoveLinks(b, e);
        RemoveLinks(a, e) + RemoveLinks(b, e);
      }
    } else {
      assert a + b == b;
    }
  }

  /**
   * The names linked to a version under well-formed tables are themselves normalised, so
   * reconciling with them reproduces them exactly.
   */
  lemma {:induction false} LinkedNamesNormalized(tags: seq<string>, links: seq<Link>, e: Id)
    requires IsNormalized(tags) && LinksWellFormed(tags, links)
    ensures IsNormalized(LinkedNames(tags, links, e))
    decreases |links|
  {
    if links != [] {
      var l := links[0];
      assert links == [l] + links[1..];
      assert l in links;
      assert LinksWellFormed(tags, links[1..]) by {
        forall i, j | 0 <= i < j < |links[1..]| ensures links[1..][i] != links[1..][j] {
          assert links[1..][i] == links[i + 1] && links[1..][j] == links[j + 1];
        }
      }
      LinkedNamesNormalized(tags, links[1..], e);
      var rest := LinkedNames(tags, links[1..], e);
      if l.evidenceId == e {
        var n := tags[l.tagId];
        assert tags[l.tagId] in tags;
        assert n !in rest;
        DistinctConcat([n], rest);
      }
    }
  }
}
