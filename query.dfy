/**
 * The read-only handlers: `evidence:list` (filters, latest-version selection, ordering, the
 * page window and the total), `evidence:get` and `audit:list`.
 */
module Query {
  import opened Base
  import opened Evidence
  import opened Tags
  import opened Sorting
  import opened SqlLike
  import opened Pagination

  datatype StatusFilter = AnyStatus | OnlyStatus(status: Status)
  datatype SortKey = ByCreatedAt | ByStatus
  datatype SortDir = Asc | Desc

  /** The `EvidenceListRequest` as sent; `None` is a field left undefined. */
  datatype ListRequest = ListRequest(
    search: Option<string>,
    status: Option<StatusFilter>,
    category: Option<string>,
    sortBy: Option<SortKey>,
    sortDir: Option<SortDir>,
    page: Option<int>,
    pageSize: Option<int>,
    includeHistory: Option<bool>)

  /** The request with every default filled in. */
  datatype ListQuery = ListQuery(
    search: string,
    status: StatusFilter,
    category: string,
    sortBy: SortKey,
    sortDir: SortDir,
    page: int,
    pageSize: int,
    includeHistory: bool)

  /** `{ items, total }`. */
  datatype ListResult = ListResult(items: seq<EvidenceRow>, total: nat)

  /** `{ ...row, tags }` as `evidence:get` returns it. */
  datatype Detail = Detail(row: EvidenceRow, tags: seq<string>)

  /** A request with no field set (also what an absent request stands for). */
  const EmptyRequest: ListRequest := ListRequest(None, None, None, None, None, None, None, None)

  /** The destructuring defaults: search "", status and category "all", newest first, page 1 of 10, latest versions. */
  const Defaults: ListQuery := ListQuery("", AnyStatus, "all", ByCreatedAt, Desc, 1, 10, false)

  /** The request that sets every field to the value `q` holds. */
  function Explicit(q: ListQuery): ListRequest {
    ListRequest(Some(q.search), Some(q.status), Some(q.category), Some(q.sortBy), Some(q.sortDir),
      Some(q.page), Some(q.pageSize), Some(q.includeHistory))
  }

  /**
   * `const { search = '', ... } = req || {}`: an absent request gets every default, and a
   * request that sets every field is taken as sent (`WithDefaultsOfExplicit`).
   */
  function WithDefaults(req: ListRequest): (q: ListQuery)
    ensures req == EmptyRequest ==> q == Defaults
  {
    ListQuery(
      req.search.GetOr(""),
      req.status.GetOr(AnyStatus),
      req.category.GetOr("all"),
      req.sortBy.GetOr(ByCreatedAt),
      req.sortDir.GetOr(Desc),
      req.page.GetOr(1),
      req.pageSize.GetOr(10),
      req.includeHistory.GetOr(false))
  }

  /** Some name in `names` is `LIKE pat`. */
  predicate AnyLike(pat: string, names: seq<string>) {
    exists n :: n in names && Like(pat, n)
  }

  /**
   * The search clause: no constraint for empty text, otherwise `%text%` must match the title,
   * a non-NULL description, or the name of a tag linked to the row.
   */
  predicate SearchMatches(search: string, tags: seq<string>, links: seq<Link>, r: EvidenceRow) {
    search == ""
    || Like(Contains(search), r.title)
    || (r.description.Some? && Like(Contains(search), r.description.value))
    || AnyLike(Contains(search), LinkedNames(tags, links, r.id))
  }

  /** The whole `WHERE` clause of `evidence:list`. */
  predicate Matches(q: ListQuery, tags: seq<string>, links: seq<Link>, r: EvidenceRow) {
    && SearchMatches(q.search, tags, links, r)
    && (q.status.AnyStatus? || r.status == q.status.status)
    && (q.category == "all" || r.category == q.category)
  }

  /** The base table: every version, or only the rows holding their group's maximum version. */
  function Candidates(rows: seq<EvidenceRow>, includeHistory: bool): (c: seq<EvidenceRow>)
    ensures forall x :: x in c <==> x in rows && (includeHistory || IsLatest(rows, x))
  {
    if includeHistory then rows else Filter(rows, r => IsLatest(rows, r))
  }

  /** The rows the query selects, before ordering and paging. */
  function MatchedRows(rows: seq<EvidenceRow>, tags: seq<string>, links: seq<Link>, q: ListQuery): (m: seq<EvidenceRow>)
    ensures forall x :: x in m <==> x in Candidates(rows, q.includeHistory) && Matches(q, tags, links, x)
  {
    Filter(Candidates(rows, q.includeHistory), r => Matches(q, tags, links, r))
  }

  /** The `ORDER BY` column: `created_at`, or `status` in SQLite's text order. */
  function SortKeyOf(k: SortKey): EvidenceRow -> int {
    match k
    case ByStatus => (r: EvidenceRow) => StatusRank(r.status)
    case ByCreatedAt => (r: EvidenceRow) => r.createdAt
  }

  /** The matched rows in the requested order. */
  function Ordered(rows: seq<EvidenceRow>, tags: seq<string>, links: seq<Link>, q: ListQuery): (o: seq<EvidenceRow>)
    ensures SortedBy(o, SortKeyOf(q.sortBy), q.sortDir == Desc)
    ensures multiset(o) == multiset(MatchedRows(rows, tags, links, q))
  {
    SortBy(MatchedRows(rows, tags, links, q), SortKeyOf(q.sortBy), q.sortDir == Desc)
  }

  /** `(page - 1) * pageSize`. */
  function Offset(q: ListQuery): int {
    (q.page - 1) * q.pageSize
  }

  /**
   * `evidence:list` on a filled-in query: `total` counts every matching candidate whatever
   * the page, and `items` is the run of the ordered matches that starts at the offset, at
   * most `pageSize` long, each a matching candidate, in order.
   */
  function ListQ(rows: seq<EvidenceRow>, tags: seq<string>, links: seq<Link>, q: ListQuery): (r: ListResult)
    ensures r.total == |MatchedRows(rows, tags, links, q)|
    ensures q.pageSize >= 0 ==> |r.items| <= q.pageSize
    ensures forall x :: x in r.items ==>
      && x in rows
      && Matches(q, tags, links, x)
      && (!q.includeHistory ==> IsLatest(rows, x))
    ensures SortedBy(r.items, SortKeyOf(q.sortBy), q.sortDir == Desc)
    ensures forall k :: 0 <= k < |r.items| ==>
      Max(0, Offset(q)) + k < r.total && r.items[k] == Ordered(rows, tags, links, q)[Max(0, Offset(q)) + k]
  {
    var o := Ordered(rows, tags, links, q);
    var items := Window(o, q.pageSize, Offset(q));
    WindowSorted(o, SortKeyOf(q.sortBy), q.sortDir == Desc, q.pageSize, Offset(q));
    PageMembers(rows, tags, links, q);
    ListResult(items, |MatchedRows(rows, tags, links, q)|)
  }

  /** Every row of the page is a matching candidate. */
  lemma PageMembers(rows: seq<EvidenceRow>, tags: seq<string>, links: seq<Link>, q: ListQuery)
    ensures forall x :: x in Window(Ordered(rows, tags, links, q), q.pageSize, Offset(q)) ==>
      && x in rows
      && Matches(q, tags, links, x)
      && (!q.includeHistory ==> IsLatest(rows, x))
  {
    var o := Ordered(rows, tags, links, q);
    WindowMembers(o, q.pageSize, Offset(q));
    SameMembers(o, MatchedRows(rows, tags, links, q));
  }

  /** A window holds only elements of the sequence it is cut from. */
  lemma WindowMembers<T>(s: seq<T>, limit: int, offset: int)
    ensures forall x :: x in Window(s, limit, offset) ==> x in s
  {
    var w := Window(s, limit, offset);
    forall x | x in w ensures x in s {
      var k :| 0 <= k < |w| && w[k] == x;
      assert s[Max(0, offset) + k] == x;
    }
  }

  /** Permutations hold the same elements. */
  lemma SameMembers<T>(a: seq<T>, b: seq<T>)
    requires multiset(a) == multiset(b)
    ensures forall x :: x in a ==> x in b
  {
    forall x | x in a ensures x in b {
      assert x in multiset(a);
    }
  }

  /** Every field a request sets is used as sent. */
  lemma WithDefaultsOfExplicit(q: ListQuery)
    ensures WithDefaults(Explicit(q)) == q
  {
  }

  /**
   * `evidence:list` as the handler receives it: `total` counts the matches of the filled-in
   * query, a request without a page size gets at most ten items, and without
   * `includeHistory: true` every item is its group's latest version.
   */
  function List(rows: seq<EvidenceRow>, tags: seq<string>, links: seq<Link>, req: ListRequest): (r: ListResult)
    ensures r.total == |MatchedRows(rows, tags, links, WithDefaults(req))|
    ensures req.pageSize.None? ==> |r.items| <= 10
    ensures forall x :: x in r.items ==> x in rows && (req.includeHistory != Some(true) ==> IsLatest(rows, x))
  {
    var q := WithDefaults(req);
    assert req.pageSize.None? ==> q.pageSize == 10;
    assert req.includeHistory != Some(true) ==> !q.includeHistory;
    ListQ(rows, tags, links, q)
  }

  /**
   * For search text without wildcards, the search clause is a case-insensitive substring
   * test on the title, the description and the names of the row's tags.
   */
  lemma SearchIsSubstring(search: string, tags: seq<string>, links: seq<Link>, r: EvidenceRow)
    requires NoWildcards(search)
    ensures SearchMatches(search, tags, links, r) <==>
      || search == ""
      || (exists i :: OccursAt(search, r.title, i))
      || (r.description.Some? && exists i :: OccursAt(search, r.description.value, i))
      || (exists n, i :: n in LinkedNames(tags, links, r.id) && OccursAt(search, n, i))
  {
    ContainsIsSubstring(search, r.title);
    if r.description.Some? {
      ContainsIsSubstring(search, r.description.value);
    }
    var names := LinkedNames(tags, links, r.id);
    forall n | n in names ensures Like(Contains(search), n) <==> exists i :: OccursAt(search, n, i) {
      ContainsIsSubstring(search, n);
    }
  }

  /**
   * `evidence:get`: nothing for an unknown id, otherwise that row together with the names
   * of the tags linked to it, one per link of the row to an existing tag, in link order.
   */
  function Get(rows: seq<EvidenceRow>, tags: seq<string>, links: seq<Link>, id: Id): (r: Option<Detail>)
    ensures r.None? <==> id !in RowIds(rows)
    ensures r.Some? ==> r.value.row in rows && r.value.row.id == id
    ensures r.Some? ==> forall n :: n in r.value.tags ==>
      exists l :: l in links && Resolves(tags, id, l) && tags[l.tagId] == n
    ensures r.Some? ==> forall l :: l in links && Resolves(tags, id, l) ==> tags[l.tagId] in r.value.tags
    ensures r.Some? ==> |r.value.tags| == |Resolving(tags, links, id)|
    ensures r.Some? ==> forall i :: 0 <= i < |r.value.tags| ==>
      Resolving(tags, links, id)[i].tagId < |tags| && r.value.tags[i] == tags[Resolving(tags, links, id)[i].tagId]
  {
    match FindRow(rows, id)
    case None => None
    case Some(row) =>
      LinkedNamesByLink(tags, links, id);
      Some(Detail(row, LinkedNames(tags, links, id)))
  }

  /** In latest-only mode two candidates of one group are the same row. */
  lemma LatestOnePerGroup(rows: seq<EvidenceRow>)
    requires VersionsDistinct(rows)
    ensures forall x, y :: x in Candidates(rows, false) && y in Candidates(rows, false) && x.groupId == y.groupId ==> x == y
  {
  }

  /** Every group with at least one row contributes a candidate in latest-only mode. */
  lemma LatestCoversEveryGroup(rows: seq<EvidenceRow>)
    ensures forall x :: x in rows ==> exists y :: y in Candidates(rows, false) && y.groupId == x.groupId
  {
    forall x | x in rows ensures exists y :: y in Candidates(rows, false) && y.groupId == x.groupId {
      var m := MaxVersion(rows, x.groupId);
      var y :| y in rows && y.groupId == x.groupId && y.versionNumber == m.value;
      assert IsLatest(rows, y);
    }
  }

  /** Changing only the page or the page size does not change `total`. */
  lemma TotalIgnoresPage(rows: seq<EvidenceRow>, tags: seq<string>, links: seq<Link>, q: ListQuery, page: int, pageSize: int)
    ensures ListQ(rows, tags, links, q.(page := page, pageSize := pageSize)).total == ListQ(rows, tags, links, q).total
  {
    assert MatchedRows(rows, tags, links, q.(page := page, pageSize := pageSize)) == MatchedRows(rows, tags, links, q) by {
      var q' := q.(page := page, pageSize := pageSize);
      FilterCongruent(Candidates(rows, q.includeHistory), r => Matches(q', tags, links, r), r => Matches(q, tags, links, r));
    }
  }

  /**
   * Row `k` of the ordered result is shown at position `k % pageSize` of page
   * `k / pageSize + 1`, and that page is one the pager can reach.
   */
  lemma PageShowsRow(rows: seq<EvidenceRow>, tags: seq<string>, links: seq<Link>, q: ListQuery, k: nat)
    requires q.pageSize > 0
    requires k < ListQ(rows, tags, links, q).total
    requires q.page == k / q.pageSize + 1
    ensures var r := ListQ(rows, tags, links, q);
      && k % q.pageSize < |r.items|
      && r.items[k % q.pageSize] == Ordered(rows, tags, links, q)[k]
      && 1 <= q.page <= TotalPages(r.total, q.pageSize)
  {
    var r := ListQ(rows, tags, links, q);
    var o := Ordered(rows, tags, links, q);
    assert |o| == r.total;
    assert Offset(q) == (k / q.pageSize) * q.pageSize;
    WindowShowsIndex(o, q.pageSize, k);
    RowPageInRange(k, r.total, q.pageSize);
  }

  /** The window of page `k / pageSize + 1` holds element `k` at position `k % pageSize`. */
  lemma WindowShowsIndex<T>(s: seq<T>, pageSize: nat, k: nat)
    requires pageSize > 0 && k < |s|
    ensures var w := Window(s, pageSize, (k / pageSize) * pageSize);
      k % pageSize < |w| && w[k % pageSize] == s[k]
  {
    var o := (k / pageSize) * pageSize;
    var i := k % pageSize;
    assert o + i == k && 0 <= o;
    var w := Window(s, pageSize, o);
    assert i < |w|;
  }

  /** Every page from 1 to the last shows at least one row when there are any, and later pages show none. */
  lemma PagesInRangeNonEmpty(rows: seq<EvidenceRow>, tags: seq<string>, links: seq<Link>, q: ListQuery)
    requires q.pageSize > 0 && q.page >= 1
    ensures var r := ListQ(rows, tags, links, q);
      && (r.total > 0 && q.page <= TotalPages(r.total, q.pageSize) ==> r.items != [])
      && (q.page > TotalPages(r.total, q.pageSize) ==> r.items == [])
  {
    ListShape(rows, tags, links, q);
    WindowOfPage(Ordered(rows, tags, links, q), ListQ(rows, tags, links, q).items, ListQ(rows, tags, links, q).total, q);
  }

  /** The listing is the window of the ordered matches, and `total` is their number. */
  lemma ListShape(rows: seq<EvidenceRow>, tags: seq<string>, links: seq<Link>, q: ListQuery)
    ensures ListQ(rows, tags, links, q).items == Window(Ordered(rows, tags, links, q), q.pageSize, Offset(q))
    ensures ListQ(rows, tags, links, q).total == |Ordered(rows, tags, links, q)|
  {
    var o := Ordered(rows, tags, links, q);
    assert |multiset(o)| == |o|;
  }

  /** The window a page request selects is non-empty exactly on the pages the pager offers. */
  lemma WindowOfPage<T>(s: seq<T>, w: seq<T>, total: nat, q: ListQuery)
    requires q.pageSize > 0 && q.page >= 1
    requires w == Window(s, q.pageSize, Offset(q)) && total == |s|
    ensures total > 0 && q.page <= TotalPages(total, q.pageSize) ==> w != []
    ensures q.page > TotalPages(total, q.pageSize) ==> w == []
  {
    MulMonotone(0, q.page - 1, q.pageSize);
    PageOffsetInRange(q.page, |s|, q.pageSize);
  }

  /**
   * With no request fields set the handler lists the latest version of every group, newest
   * first, the first ten of them, and counts them all.
   */
  lemma DefaultListing(rows: seq<EvidenceRow>, tags: seq<string>, links: seq<Link>)
    ensures var r := List(rows, tags, links, EmptyRequest);
      && r.total == |Candidates(rows, false)|
      && r.items == Window(SortBy(Candidates(rows, false), (x: EvidenceRow) => x.createdAt, true), 10, 0)
  {
    var q := WithDefaults(EmptyRequest);
    var c := Candidates(rows, false);
    assert q == Defaults;
    assert forall x :: x in c ==> Matches(q, tags, links, x);
    assert MatchedRows(rows, tags, links, q) == c;
  }

  /** The entry limit of `audit:list`. */
  const AuditListLimit: nat := 500

  /** `SELECT * FROM audit_log ORDER BY timestamp DESC LIMIT 500`. */
  function AuditList(audit: seq<AuditEntry>): (r: seq<AuditEntry>)
    ensures |r| == Min(|audit|, AuditListLimit)
    ensures SortedBy(r, (e: AuditEntry) => e.timestamp, true)
    ensures multiset(r) <= multiset(audit)
    ensures forall x :: x in r ==> x in audit
  {
    var s := SortBy(audit, (e: AuditEntry) => e.timestamp, true);
    var r := if |s| <= AuditListLimit then s else s[..AuditListLimit];
    assert multiset(r) <= multiset(s) by {
      assert s == r + s[|r|..];
    }
    forall x | x in r ensures x in audit {
      assert x in multiset(r);
    }
    r
  }

  /** Every entry `audit:list` leaves out is no newer than any entry it returns. */
  lemma AuditListKeepsNewest(audit: seq<AuditEntry>)
    ensures forall x, y :: x in audit && x !in AuditList(audit) && y in AuditList(audit) ==> x.timestamp <= y.timestamp
  {
    var s := SortBy(audit, (e: AuditEntry) => e.timestamp, true);
    var r := AuditList(audit);
    assert r == s[..|r|];
    forall x, y | x in audit && x !in r && y in r ensures x.timestamp <= y.timestamp {
      assert x in multiset(audit);
      assert x in s;
      var k :| 0 <= k < |s| && s[k] == x;
      var j :| 0 <= j < |r| && r[j] == y;
      assert s[j] == y;
      assert k >= |r|;
    }
  }
}
