# Evidence vault: a Dafny model of the version store, its queries and the evidence form

The evidence vault is a desktop application. Its main process keeps compliance evidence in
SQLite, and its renderer shows and edits that evidence. This project models the core of the
application in Dafny and proves properties of the model:

- **Version store.** An evidence item is a group of versions. Each version is a row of the
  `evidence` table. The `evidence:update` handler never edits a row: it appends the group's
  next version. The `evidence:delete` handler removes one row and its tag links, and stages
  both in a single pending-undo slot. For 5000 ms, `evidence:undoDelete` can put the row back
  verbatim. Every create, status change, delete and export appends an entry to `audit_log`.
  This part is modelled as the class `VaultStore.Store`. Its fields are the four tables, the
  undo slot and a counter that stands for `crypto.randomUUID()`. Every handler keeps the
  invariant `Valid()`.
- **Tag reconciler.** `upsertTagsForEvidence` trims, drops empty names and deduplicates. It
  then drops every link of the version and relinks each name, creating any tag that does not
  exist yet. The loop is a method proved equal to the function `Tags.Reconcile`. The
  properties of reconciling are lemmas about that function.
- **Read-only handlers.** `evidence:list` covers the search box (SQLite `LIKE` with its
  wildcards and ASCII-only case folding), the status and category filters, the latest-version
  join, `ORDER BY … LIMIT … OFFSET` and the total. The module also covers `evidence:get`,
  `audit:list`, and the row selection, audit entry and archive entry names of
  `export:create`.
- **Renderer.** Three parts are modelled:
  - the page arithmetic of the `Pagination` component;
  - the evidence form's `validate`, its comma-separated tag box and the payload that
    `handleSubmit` sends;
  - the translator `t(key, vars)`, with JavaScript's `String.prototype.replace` on a string
    pattern. This includes the `$$`, `$&`, `` $` `` and `$'` substitution patterns.

Modules:
- `Base`
- `Text`: `trim`, `split(',')` and `path.basename`
- `Evidence`: records and row lookups
- `Tags`
- `Sorting`: a stable sort, filtering, and the `LIMIT`/`OFFSET` window
- `SqlLike`
- `Pagination`
- `Query`
- `Export`
- `VaultStore`
- `EvidenceForm`
- `I18n`

The clock is a parameter. A handler that writes a row takes its own reading as `now`, and
`logAudit` takes a second, later reading, which becomes `loggedAt`. `export:create` has only
the `logAudit` reading, which it takes after the report and the archive are written. The save
dialog's answer is a parameter, and so is `fs.existsSync`, which becomes `onDisk`. The
translation dictionary is a parameter too.

Where the two main-process files differ, both variants are modelled:
- `electron/main.ts` names the report entry of the archive `report.pdf`.
- The bundled `electron-dist/main.js` names it `report-ukrainian.pdf`.

`Export.Manifest` takes the entry name as a parameter. The constants `Export.ReportEntry` and
`Export.BundledReportEntry` hold the two names.

Two behaviours of the code worth noting:
- **The undo window.** The handler drops the staged row only when its age is strictly
  greater than 5000 ms. An undo exactly 5000 ms after the delete still restores the row.
- **Empty category.** `evidence:list` treats an empty category as a real filter, which
  matches rows whose category is `""`. `export:create` treats an empty category as no filter
  (`Export.EmptyCategoryDiffers`).

## Model

| member | source | states |
|---|---|---|
| `VaultStore.Store.UpsertTagsForEvidence` | electron/main.ts:374-401 | The loop leaves the tag and link tables equal to `Reconcile` of the old tables, with the normalised names linked in order, and changes nothing else |
| `VaultStore.Store.LogAudit` | electron/main.ts:403-416 | Appends exactly one entry with the next id, the given action and entity, type "evidence", actor "system" and the clock reading; the invariant is kept |
| `VaultStore.Store.FreshId` | electron/main.ts:208-209 | Hands out an id no row, group or pending row has, and touches no table |
| `VaultStore.Store.Create` | electron/main.ts:207-235 | Appends version 1 of a fresh group with the payload's fields and both timestamps `now`; it is its group's latest version; `get` of it returns it with the normalised tag list; other rows' tag names are unchanged; one CREATE entry stamped with the later reading `loggedAt`; invariant and distinct version numbers kept |
| `VaultStore.Store.Update` | electron/main.ts:237-274 | Returns nothing and changes nothing exactly when the id is unknown; otherwise appends the next version (same group, number one above the group's maximum, `created_at` kept, `updated_at` `now`, file kept when none is given), which becomes the only latest version of the group; tags reconciled; one STATUS_CHANGE entry stamped `loggedAt` exactly when the status changed |
| `VaultStore.Store.InsertVersion` | electron/main.ts:242-268 | The insert half of update: the row's fields, its place as the group's latest version, the reconciled tags, `get` of the new id, the other rows' tag names, and no audit entry |
| `VaultStore.Store.AppendVersion` | electron/main.ts:243-258 | The row of the new version: the next issued id, the payload's fields with the old file kept when none is given, the same group, a number one above the group's maximum, the original `created_at`; it is appended and nothing but the row table and the id counter changes |
| `VaultStore.Store.Delete` | electron/main.ts:276-299 | `false` with nothing changed exactly when the id is unknown; otherwise the row and only its links are removed (one row fewer), the row and its tag names are staged with the handler's reading `now`, and one DELETE entry stamped with the later reading `loggedAt` is appended |
| `VaultStore.Store.UndoDelete` | electron/main.ts:301-321 | The slot is empty afterwards; the row comes back exactly when one is staged and its age is at most 5000 ms; it comes back verbatim, with its staged tag names as its tags, and no audit entry is written |
| `VaultStore.Store.ExportCreate` | electron/main.ts:331-371 | A cancelled dialog (or no window) changes nothing; otherwise the archive holds the report plus the existing files of the selected rows, and one EXPORT_PACKAGE entry names the first selected row or "none" |
| `VaultStore.Store.DeleteThenUndo` | electron-dist/main.js:227-264 | Deleting a row and undoing within the window restores the table's contents (as a multiset) and the row's tag names, and leaves exactly one DELETE entry, stamped `loggedAt` |
| `VaultStore.DuplicateVersionAfterUndo` | electron-dist/main.js:195-264 | Deleting version 2, updating version 1 and then undoing leaves a valid store whose group holds two rows numbered 2 |
| `VaultStore.TwoVersions` | electron-dist/main.js:170-226 | Creating an item and updating it once leaves versions 1 and 2 of one group, with distinct ids |
| `VaultStore.SecondVersionDeleted` | electron-dist/main.js:227-245 | Deleting version 2 leaves version 1 alone in the table and stages version 2 for undo with the deletion time |
| `VaultStore.NewGroupRow` | electron/main.ts:216-224 | A version 1 row of a new group is that group's latest version and keeps version numbers distinct |
| `VaultStore.NextVersionRow` | electron/main.ts:243-246 | A row numbered one above its group's maximum is the group's latest version, no older row of the group is, and version numbers stay distinct |
| `VaultStore.NewVersionValid` | electron/main.ts:243-258 | Appending the next version of an existing group under the next issued id keeps the store invariant |
| `VaultStore.AppendFreshRow` | electron/main.ts:208-225 | Inserting a row under a fresh id keeps ids unique and adds exactly that id |
| `VaultStore.RemoveRowRestore` | electron/main.ts:286-317 | Removing a row by id and appending it back gives the same multiset of rows |
| `VaultStore.DeleteValid` | electron/main.ts:286-294 | Deleting a row with its links and staging it keeps the store invariant (unique ids, well-formed links to existing rows, a normalised staged tag list) |
| `VaultStore.ReconcileValid` | electron-dist/main.js:321-332 | Reconciling the tags of an existing row keeps the store invariant |
| `VaultStore.RestoreValid` | electron-dist/main.js:256-262 | Putting the staged row back and clearing the slot keeps the store invariant |
| `VaultStore.AddRowValid` | electron-dist/main.js:170-193 | Inserting a row with a fresh issued id keeps the store invariant |
| `VaultStore.DeleteLinkedNames` | electron/main.ts:281-291 | After the links of `id` are deleted it has no tag names, and every other row keeps its names |
| `Tags.NormalizeTags` | electron/main.ts:375-377 | The result is trimmed, non-empty and duplicate-free, and holds exactly the non-empty trimmed input names |
| `Tags.Dedupe` | electron-dist/main.js:308-310 | `Array.from(new Set(..))`: no repeats, the same members, listed in the order of their first occurrence in the input; a duplicate-free input is returned unchanged |
| `Tags.DropEmpty` | electron-dist/main.js:309 | Keeps exactly the non-empty names, each as often as in the input (the input's multiset with `""` removed), and keeps a list without empties unchanged |
| `Tags.TrimAll` | electron/main.ts:376 | Element `i` of the result is element `i` of the input trimmed |
| `Tags.NormalizeOfNormalized` | electron/main.ts:375-377 | Normalising an already normalised list returns it unchanged |
| `Tags.NormalizeIdempotent` | electron-dist/main.js:308-310 | Normalising twice is normalising once |
| `Tags.FindTag` | electron/main.ts:381-392 | The lookup by name finds a tag of that name, and finds nothing exactly when the name is absent |
| `Tags.FindTagFirst` | electron/main.ts:381-392 | The tag found is the first of that name, and with unique tag names the only one |
| `Tags.RemoveLinks` | electron/main.ts:385-390 | Exactly the links of other rows remain |
| `Tags.RemoveLinksDistinct` | electron-dist/main.js:318-322 | Deleting links keeps the link table free of duplicate pairs |
| `Tags.LinkedNames` | electron/main.ts:199-203 | Every name returned belongs to a link of that row to an existing tag, and every such link's tag name is returned |
| `Tags.ResolvingMembers` | electron/main.ts:200-203 | The inner join keeps exactly the links of the row whose tag exists |
| `Tags.LinkedNamesByLink` | electron/main.ts:199-203 | There is exactly one name per such link, in link order, and name `i` is the tag of link `i`; a tag linked twice is named twice |
| `Tags.LinkedNamesRemove` | electron/main.ts:283-291 | After deleting the links of `e`, `e` has no names and every other row keeps its names |
| `Tags.ReconcileSpec` | electron-dist/main.js:307-333 | Reconciling keeps the tag table normalised and append-only and the links well formed, links exactly the normalised names to the version, leaves every other version's names unchanged, and adds links only for the version |
| `Tags.Reconcile` | electron/main.ts:374-401 | The tag table only grows, gains only normalised names, ends up holding every normalised name, and stays free of repeats; the link table is the other versions' links followed by the version's links to the normalised names |
| `Tags.ReconcileIdempotent` | electron/main.ts:389-400 | Reconciling the same version with the same list a second time changes nothing |
| `Tags.LinkedNamesNormalized` | electron/main.ts:283-285 | The tag names of a row in a normalised store are themselves normalised |
| `Evidence.FindRow` | electron/main.ts:196-198 | `SELECT … WHERE id = ?` finds a row with that id, and finds nothing exactly when no row has it |
| `Evidence.FindRowUnique` | electron-dist/main.js:160-163 | With unique ids the lookup returns the one row carrying the id |
| `Evidence.RemoveRow` | electron/main.ts:287-291 | `DELETE … WHERE id = ?` keeps exactly the other rows, keeps ids unique, removes one row when the id exists and none otherwise |
| `Evidence.MaxVersion` | electron/main.ts:243-245 | `MAX(version_number)` of a group: absent exactly for an empty group, otherwise attained by a row of the group and at least every row's number |
| `Evidence.StatusRankFollowsText` | electron/main.ts:186-188 | `ORDER BY status` compares the stored texts: one status ranks before another exactly when its text comes first in byte order (approved, draft, submitted) |
| `Evidence.StatusRank` | electron/main.ts:186-188 | The rank of a status is the position of its stored text in the list approved, draft, submitted |
| `Query.ListQ` | electron/main.ts:147-193 | `total` counts every matching candidate; `items` are at most `pageSize` matching candidates (latest versions unless history is asked for), sorted on the chosen column, and are the ordered matches starting at offset `max(0, (page-1)*pageSize)` |
| `Query.WithDefaults` | electron/main.ts:148-157 | A missing request gets every default: no search, any status, category "all", `created_at` descending, page 1 of 10, latest versions only |
| `Query.WithDefaultsOfExplicit` | electron/main.ts:148-157 | A request that sets every field is used as sent |
| `Query.List` | electron/main.ts:147-193 | `total` counts the matches of the filled-in request; without a page size at most ten items come back; every item is a row of the table and, unless `includeHistory` is true, its group's latest version |
| `Query.Candidates` | electron/main.ts:177-179 | The base table is every row with history, or exactly the rows holding their group's maximum version |
| `Query.MatchedRows` | electron-dist/main.js:133-148 | The selected rows are exactly the candidates that satisfy the search, status and category clauses |
| `Query.Ordered` | electron/main.ts:185-188 | The matches sorted on `created_at` or `status`, ascending or descending, as a permutation of the matches |
| `Query.Get` | electron/main.ts:195-205 | Nothing exactly for an unknown id; otherwise the row with that id, and its tags: one name per link of the row to an existing tag, in link order, so every such tag is named and nothing else is |
| `Query.AuditList` | electron-dist/main.js:265-271 | At most 500 entries of the log, newest first, and taken from the log without repeating any entry more often than it occurs there (a sub-multiset) |
| `Query.AuditListKeepsNewest` | electron/main.ts:323-329 | Every entry left out is no newer than any entry returned |
| `Query.LatestOnePerGroup` | electron/main.ts:177-179 | Without history, no group contributes two rows when version numbers are distinct |
| `Query.LatestCoversEveryGroup` | electron-dist/main.js:149 | Without history, every group with a row contributes a row |
| `Query.TotalIgnoresPage` | electron/main.ts:181-182 | The page and page size do not change `total` |
| `Query.PageShowsRow` | electron/main.ts:184-190 | Ordered row `k` appears at position `k % pageSize` of page `k / pageSize + 1`, which the pager can reach |
| `Query.PagesInRangeNonEmpty` | electron-dist/main.js:151-156 | Pages 1 to the last page show at least one row when there are any, and later pages show none |
| `Query.DefaultListing` | electron-dist/main.js:123-132 | An empty request lists the latest version of every group, newest first, the first ten, and counts them all |
| `SqlLike.ContainsIsSubstring` | electron/main.ts:161-165 | For search text without `%` or `_`, `LIKE '%text%'` holds exactly when the text occurs in the value, ignoring ASCII case |
| `Query.SearchIsSubstring` | electron/main.ts:162-166 | A search without wildcards matches a row exactly when it is empty or occurs, ignoring ASCII case, in the title, the description or the name of a tag linked to the row |
| `SqlLike.LikeLiteral` | electron/main.ts:163 | A pattern without `%` or `_` matches exactly the values of its length that equal it up to ASCII case |
| `SqlLike.LeadingPercent` | electron-dist/main.js:136-137 | A leading `%` lets the rest of the pattern match any suffix |
| `SqlLike.PrefixPercent` | electron/main.ts:164 | A wildcard-free pattern followed by `%` matches exactly the values it begins, up to ASCII case |
| `SqlLike.PercentMatchesAll` | electron/main.ts:164 | A lone `%` matches every value |
| `SqlLike.CaseInsensitiveExample` | electron-dist/main.js:137 | Searching "Report" finds "quarterly REPORT" |
| `Sorting.SortBy` | electron-dist/main.js:152-155 | `ORDER BY`: the result is sorted on the key in the requested direction and is a permutation of the input |
| `Sorting.Window` | electron/main.ts:184-190 | `LIMIT ? OFFSET ?`: a negative offset counts as 0, a negative limit as no limit; the window is at most `limit` long and is the run of the input that starts at the offset |
| `Sorting.Filter` | electron/main.ts:175 | `WHERE`: keeps exactly the elements that satisfy the predicate, none more often than in the input; a predicate every element passes keeps the input as it is |
| `Sorting.FilterMultiplicity` | electron/main.ts:175 | A selected element occurs in the result exactly as often as in the input, a rejected one not at all |
| `Sorting.FilterAppend` | electron/main.ts:175 | Filtering a concatenation is concatenating the filtered parts, so the selected elements keep their relative order |
| `Export.ExportItems` | electron/main.ts:343-358 | The package holds exactly the latest versions that pass the export filters |
| `Export.ExportSelectsListRows` | electron-dist/main.js:282-293 | The export selects the same rows, in the same order, as the list in latest-only mode with no search and the same filters, with an empty category read as "all" |
| `Export.ExportMatchesAsList` | electron/main.ts:343-353 | A row passes the export filters exactly when it passes the list's clauses with no search, the same status and the category (an empty one read as "all") |
| `Export.EmptyCategoryDiffers` | electron/main.ts:349 | An empty category filters nothing on export, but on the list it keeps only rows whose category is "" |
| `Export.ExportAuditEntity` | electron/main.ts:364-368 | The EXPORT_PACKAGE entry names "none" exactly for an empty package, and otherwise a packaged row |
| `Export.ArchivedFiles` | electron-dist/main.js:410-414 | The archive holds an entry named `n` exactly when some packaged row's file exists and has base name `n`; no name holds `/` |
| `Export.ArchivedFilesCount` | electron-dist/main.js:410-414 | The archive holds one entry per packaged row whose file exists |
| `Export.Manifest` | electron/main.ts:479-503 | The report entry comes first, then the archived files |
| `Export.StoredFileArchivedUnderItsName` | electron/main.ts:495-499 | A file stored as `dir/name` that exists is archived under `name` |
| `Export.MissingFilesOnlyReport` | electron/main.ts:493-499 | A package whose files are all missing holds only the report |
| `Text.Trim` | renderer/src/pages/EvidenceFormPage.tsx:106 | `trim()` returns a text that neither starts nor ends with whitespace, and is no longer than its input |
| `Text.TrimPadded` | renderer/src/pages/EvidenceFormPage.tsx:106 | The trimmed text is the middle of the input: everything cut off at either end is whitespace |
| `Text.TrimEmptyIffBlank` | renderer/src/pages/EvidenceFormPage.tsx:84-86 | A trimmed text is empty exactly when the input is all whitespace |
| `Text.TrimOfTrimmed` | electron/main.ts:376 | `trim()` leaves a trimmed text alone |
| `Text.SplitComma` | renderer/src/pages/EvidenceFormPage.tsx:105 | `split(',')` gives at least one segment, and no segment contains a comma |
| `Text.JoinSplit` | renderer/src/pages/EvidenceFormPage.tsx:104-105 | Joining the segments with commas gives the input back |
| `Text.BaseName` | electron/main.ts:497 | `path.basename` holds no `/` |
| `Text.BaseNameOfJoin` | electron/main.ts:141-142 | The base name of `dir/name` is `name` |
| `Pagination.TotalPages` | renderer/src/components/ui/Pagination.tsx:17 | At least 1; exactly 1 with no rows; otherwise `(totalPages-1)*pageSize < total <= totalPages*pageSize` |
| `Pagination.StepsStayInRange` | renderer/src/components/ui/Pagination.tsx:23-36 | Previous is enabled exactly off page 1 and Next exactly off the last page; from an in-range page an enabled button leads to an in-range page |
| `Pagination.EmptyResultSinglePage` | renderer/src/components/ui/Pagination.tsx:17-33 | With no rows there is one page and both buttons are disabled |
| `Pagination.RowPageInRange` | renderer/src/components/ui/Pagination.tsx:17 | Row `k` lies on a page between 1 and the last page |
| `Pagination.PageOffsetInRange` | renderer/src/components/ui/Pagination.tsx:32-33 | The offset of a page up to the last falls inside a non-empty result, and the offset of a later page lies past its end |
| `EvidenceForm.Validate` | renderer/src/pages/EvidenceFormPage.tsx:82-89 | Each field's message is present exactly when that field is empty after trimming, and is the dictionary's text for its key; the result is true exactly when the form is valid, that is, when the record has no keys |
| `EvidenceForm.ParseTags` | renderer/src/pages/EvidenceFormPage.tsx:104-107 | Every parsed tag is non-empty, trimmed and free of commas |
| `EvidenceForm.ParseJoinTags` | renderer/src/pages/EvidenceFormPage.tsx:61-68 | Reopening an item puts its names into the box joined by ", ", and an unchanged box parses back to the same names in the same order |
| `EvidenceForm.ParseKeepsDuplicates` | renderer/src/pages/EvidenceFormPage.tsx:104-107 | The box keeps a repeated name, and only the main process's normalisation removes it |
| `EvidenceForm.NormalizeParsed` | renderer/src/pages/EvidenceFormPage.tsx:104-107 | On parsed tags the main process's normalisation only removes repeats |
| `EvidenceForm.DescriptionOf` | renderer/src/pages/EvidenceFormPage.tsx:114 | The description is absent exactly when it is blank; otherwise it is the trimmed text |
| `EvidenceForm.Submit` | renderer/src/pages/EvidenceFormPage.tsx:99-127 | An invalid form sends nothing; a valid one sends an update for the route's id when the id is non-empty and a create otherwise, with trimmed non-empty title and category, the trimmed description or none, the untrimmed non-blank file path and the parsed tags |
| `EvidenceForm.SplitJoinTags` | renderer/src/pages/EvidenceFormPage.tsx:65 | Splitting the joined names and trimming the pieces gives the names back |
| `EvidenceForm.JoinTagsEnds` | renderer/src/pages/EvidenceFormPage.tsx:65 | The joined text starts with the first name and ends with the last, and with non-empty names it is empty exactly when there are no names |
| `I18n.T` | renderer/src/i18n/t.ts:3-11 | The loop's result is the dictionary text (or the key when the entry is missing) with each variable substituted in turn |
| `I18n.Lookup` | renderer/src/i18n/t.ts:4 | `ukDictionary[key] ?? key`: the dictionary's text for a known key, the key itself for an unknown one |
| `I18n.ApplyVars` | renderer/src/i18n/t.ts:5-9 | A text holding none of the variables' placeholders comes back unchanged |
| `I18n.FindFirst` | renderer/src/i18n/t.ts:7 | The position found holds the placeholder and no earlier position does; nothing is found exactly when it occurs nowhere |
| `I18n.Substitution` | renderer/src/i18n/t.ts:7 | A replacement text without `$` is inserted as it is |
| `I18n.Replace` | renderer/src/i18n/t.ts:7 | A text without the placeholder comes back unchanged; otherwise the text before the first occurrence and the text after it are kept around the replacement |
| `I18n.ReplaceFirstOnly` | renderer/src/i18n/t.ts:7 | Only the first occurrence is replaced, and a value without `$` goes in verbatim |
| `I18n.ApplyVarsAppend` | renderer/src/i18n/t.ts:5-9 | Substitutions run in order: the later variables work on the earlier ones' output |
| `I18n.ApplyVarsSkipsAbsent` | renderer/src/i18n/t.ts:6-8 | A variable whose placeholder is absent changes nothing for the rest |
| `I18n.RepeatedPlaceholderExample` | renderer/src/i18n/t.ts:7 | `{n} / {n}` with n = 3 gives `3 / {n}` |
| `I18n.DollarExample` | renderer/src/i18n/t.ts:7 | A `$$` in a value comes out as one dollar |

## Left out

- The SQL schema (the migrations that create the tables) is not part of this model. Unique
  tag names, unique `(evidence_id, tag_id)` pairs and links to existing rows are stated in
  `VaultStore.StoreValid` and proved to be kept by every handler. `INSERT OR IGNORE` is
  therefore modelled as a plain insert, because no duplicate ever reaches it.
- `crypto.randomUUID()` is a counter (`nextId`). A tag's id is its position in the tag table,
  and an audit entry's id is its position in the log. Ids are compared only for equality.
- Timestamps are integers. `created_at`, `updated_at` and the audit `timestamp` are ISO
  strings of one fixed format, which order like the instants they denote. `Date.now()` for
  the undo slot is the same integer clock.
- Transactions, concurrency between IPC calls, and failures inside a transaction are left
  out. Each handler runs to completion.
- Tie order is left out. `ORDER BY created_at` and `ORDER BY status` leave the order of equal
  keys unspecified. The model uses a stable insertion sort, so ties keep table order. The tag
  names from `evidence:get` and `evidence:delete` (a query without `ORDER BY`) come in link
  order.
- `Export.ExportItems`: the export `SELECT` (electron/main.ts:355-358) has no `ORDER BY`, so
  SQLite may return the rows in any order. The model returns them in table order. The order of
  the report's rows and the archive's files, and which row the EXPORT_PACKAGE entry names (the
  first one), therefore follow table order in the model and are not promised by the source.
- Items are `seq` values, not objects. `LIMIT`/`OFFSET` with a non-integer page or page size
  (JavaScript numbers) is left out: page and page size are integers.
- `Pagination.TotalPages`: requires `pageSize > 0`. For a zero page size, JavaScript would
  compute `Infinity` or `NaN`; every caller passes 10.
- `createReportPdf` (PDFKit, fonts) and the zip stream (`archiver`, compression level, write
  errors) are left out. Only the archive's entry names are modelled.
- `Text.BaseName`, `Text.BaseNameOfJoin`: `path.join` and `path.basename`
  (electron/main.ts:141-142, 497) are modelled with POSIX semantics, where only `/` separates
  names. On Windows both also treat `\` as a separator; that variant is not modelled.
- `evidence:openFile`, `theme:get-system`, window creation and the save dialog are left out.
  The dialog's answer is the parameter `destination`, and a missing window is the same as a
  cancelled dialog. `fs.existsSync` is the parameter `onDisk`.
- The React side of the form is left out: `setErrors`, `setLoading`, navigation, the
  loading spinner and the messages of caught exceptions. The route id is a plain string,
  while the store's ids are counters.
- `I18n.T`: the variables arrive as a list in `Object.entries` order, with their values
  already turned into text. The ordering rule of `Object.entries` for integer-like keys and
  `String(number)` are not modelled. The Ukrainian dictionary (`uk.ts`) is not part of this
  model: it is the parameter `dict`. A `$n` or `$<` in a value is kept as it is, which is what
  a string pattern without capture groups does.
- `VaultStore.Store.UndoDelete`: undo does not check version numbers. As
  `VaultStore.DuplicateVersionAfterUndo` shows, undo can leave two rows of a group with the
  same number. Update, delete and undo therefore do not promise distinct version numbers.
  Create and update keep them distinct when they held before.
