/**
 * The selection and naming part of `export:create`: which rows an audit package holds, which
 * entity the `EXPORT_PACKAGE` audit entry names, and the entry names of the zip archive
 * (`createZipWithPdfAndFiles`).
 */
module Export {
  import opened Base
  import opened Text
  import opened Evidence
  import opened Sorting
  import opened Query

  /** `ExportFilters`; `None` is a field left undefined. */
  datatype ExportFilters = ExportFilters(status: Option<StatusFilter>, category: Option<string>)

  /**
   * The export `WHERE` clause. A filter applies only when its value is truthy and not "all",
   * so an absent or empty category selects every category.
   */
  predicate ExportMatches(f: ExportFilters, r: EvidenceRow) {
    && (f.status.None? || f.status.value.AnyStatus? || r.status == f.status.value.status)
    && (f.category.None? || f.category.value == "" || f.category.value == "all" || r.category == f.category.value)
  }

  /** The rows of the package: the latest version of each group that passes the filters, in table order. */
  function ExportItems(rows: seq<EvidenceRow>, f: ExportFilters): (items: seq<EvidenceRow>)
    ensures forall x :: x in items <==> x in rows && IsLatest(rows, x) && ExportMatches(f, x)
  {
    Filter(rows, r => IsLatest(rows, r) && ExportMatches(f, r))
  }

  /** The `entity_id` of the `EXPORT_PACKAGE` entry: the first packaged row, or "none". */
  function ExportAuditEntity(items: seq<EvidenceRow>): (e: EntityRef)
    ensures e.NoneRef? <==> items == []
    ensures e.EvidenceRef? ==> exists x :: x in items && x.id == e.id
  {
    if |items| > 0 then EvidenceRef(items[0].id) else NoneRef
  }

  /** The list query that asks for what an export with these filters selects. */
  function ListQueryFor(f: ExportFilters): ListQuery {
    var category := match f.category
      case None => "all"
      case Some(c) => if c == "" then "all" else c;
    ListQuery("", f.status.GetOr(AnyStatus), category, ByCreatedAt, Desc, 1, -1, false)
  }

  /**
   * The export filters are the list's filters without search text, once an empty category is
   * read as "all".
   */
  lemma ExportMatchesAsList(f: ExportFilters, tags: seq<string>, links: seq<Link>, r: EvidenceRow)
    ensures ExportMatches(f, r) <==> Matches(ListQueryFor(f), tags, links, r)
  {
  }

  /**
   * An export selects the same rows, in table order, as the vault list does in latest-only
   * mode with no search text and the same status and category (an empty category read as
   * "all"); the list merely orders and pages them.
   */
  lemma ExportSelectsListRows(rows: seq<EvidenceRow>, tags: seq<string>, links: seq<Link>, f: ExportFilters)
    ensures ExportItems(rows, f) == MatchedRows(rows, tags, links, ListQueryFor(f))
    ensures multiset(ExportItems(rows, f)) == multiset(ListQ(rows, tags, links, ListQueryFor(f)).items)
  {
    var q := ListQueryFor(f);
    var latest := (r: EvidenceRow) => IsLatest(rows, r);
    var matches := (r: EvidenceRow) => Matches(q, tags, links, r);
    var both := (r: EvidenceRow) => IsLatest(rows, r) && ExportMatches(f, r);
    forall x ensures both(x) == (latest(x) && matches(x)) {
      ExportMatchesAsList(f, tags, links, x);
    }
    FilterFilter(rows, latest, matches, both);
    var o := Ordered(rows, tags, links, q);
    assert ListQ(rows, tags, links, q).items == Window(o, -1, 0);
    assert Window(o, -1, 0) == o[0..];
    assert o[0..] == o;
  }

  /**
   * The list and the export read an empty category differently: the list keeps only rows
   * whose category is "", the export keeps every row.
   */
  lemma EmptyCategoryDiffers(tags: seq<string>, links: seq<Link>, r: EvidenceRow)
    ensures ExportMatches(ExportFilters(None, Some("")), r)
    ensures Matches(WithDefaults(EmptyRequest.(category := Some(""))), tags, links, r) <==> r.category == ""
  {
  }

  /** The entry name of the PDF report in `electron/main.ts`. */
  const ReportEntry: string := "report.pdf"

  /** The entry name of the PDF report in the bundled `electron-dist/main.js`. */
  const BundledReportEntry: string := "report-ukrainian.pdf"

  /** The base names of the packaged files that exist on disk, in item order. */
  function ArchivedFiles(items: seq<EvidenceRow>, onDisk: string -> bool): (names: seq<string>)
    ensures forall n :: n in names <==> exists x :: x in items && onDisk(x.filePath) && n == BaseName(x.filePath)
    ensures forall n :: n in names ==> '/' !in n
  {
    if items == [] then []
    else
      var x := items[0];
      var rest := ArchivedFiles(items[1..], onDisk);
      var r := (if onDisk(x.filePath) then [BaseName(x.filePath)] else []) + rest;
      assert items == [x] + items[1..];
      forall n ensures n in r <==> exists y :: y in items && onDisk(y.filePath) && n == BaseName(y.filePath) {
        if n in rest {
          var y :| y in items[1..] && onDisk(y.filePath) && n == BaseName(y.filePath);
          assert y in items;
        }
        if exists y :: y in items && onDisk(y.filePath) && n == BaseName(y.filePath) {
          var y :| y in items && onDisk(y.filePath) && n == BaseName(y.filePath);
          if y != x {
            assert y in items[1..];
          }
        }
      }
      r
  }

  /** The archive holds one file entry per packaged row whose file exists. */
  lemma {:induction false} ArchivedFilesCount(items: seq<EvidenceRow>, onDisk: string -> bool)
    ensures |ArchivedFiles(items, onDisk)| == |Filter(items, (x: EvidenceRow) => onDisk(x.filePath))|
    decreases |items|
  {
    if items != [] {
      ArchivedFilesCount(items[1..], onDisk);
    }
  }

  /** The archive's entry names: the report first, then one entry per packaged file that exists. */
  function Manifest(reportEntry: string, items: seq<EvidenceRow>, onDisk: string -> bool): (m: seq<string>)
    ensures |m| >= 1 && m[0] == reportEntry
    ensures m[1..] == ArchivedFiles(items, onDisk)
  {
    [reportEntry] + ArchivedFiles(items, onDisk)
  }

  /**
   * A file the vault stored as `dir/name` (the copy `evidence:openFile` makes) is archived
   * under `name` when it exists.
   */
  lemma StoredFileArchivedUnderItsName(reportEntry: string, items: seq<EvidenceRow>, onDisk: string -> bool, x: EvidenceRow, dir: string, name: string)
    requires x in items && onDisk(x.filePath)
    requires x.filePath == dir + "/" + name && name != [] && '/' !in name
    ensures name in Manifest(reportEntry, items, onDisk)[1..]
  {
    BaseNameOfJoin(dir, name);
  }

  /** A package whose files are all missing holds only the report. */
  lemma MissingFilesOnlyReport(reportEntry: string, items: seq<EvidenceRow>, onDisk: string -> bool)
    requires forall x :: x in items ==> !onDisk(x.filePath)
    ensures Manifest(reportEntry, items, onDisk) == [reportEntry]
  {
    NoneArchived(items, onDisk);
  }

  lemma {:induction false} NoneArchived(items: seq<EvidenceRow>, onDisk: string -> bool)
    requires forall x :: x in items ==> !onDisk(x.filePath)
    ensures ArchivedFiles(items, onDisk) == []
    decreases |items|
  {
    if items != [] {
      assert items[0] in items;
      assert forall y :: y in items[1..] ==> y in items;
      NoneArchived(items[1..], onDisk);
    }
  }
}
