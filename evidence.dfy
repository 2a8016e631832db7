/**
 * The records of the evidence vault (the `evidence`, `tags`, `evidence_tags` and `audit_log`
 * tables and the pending-undo slot) and the row-level queries every handler shares.
 */
module Evidence {
  import opened Base

  datatype Status = Draft | Submitted | Approved

  /** The text stored in the `status` column. */
  function StatusName(s: Status): string {
    match s
    case Draft => "draft"
    case Submitted => "submitted"
    case Approved => "approved"
  }

  /**
   * Position of the status in SQLite's text order ("approved" < "draft" < "submitted"),
   * which is what `ORDER BY status` sorts by.
   */
  function StatusRank(s: Status): (k: int)
    ensures 0 <= k < 3
    ensures StatusName(s) == ["approved", "draft", "submitted"][k]
  {
    match s
    case Approved => 0
    case Draft => 1
    case Submitted => 2
  }

  /** Byte-wise text order, as SQLite's default `BINARY` collation compares ASCII text. */
  predicate TextBefore(a: string, b: string)
    decreases |a|
  {
    if a == [] then b != []
    else if b == [] then false
    else if a[0] != b[0] then a[0] < b[0]
    else TextBefore(a[1..], b[1..])
  }

  lemma {:induction false} TextBeforeIrreflexive(a: string)
    ensures !TextBefore(a, a)
    decreases |a|
  {
    if a != [] {
      TextBeforeIrreflexive(a[1..]);
    }
  }

  /** Ranking statuses orders them exactly as their stored texts compare. */
  lemma StatusRankFollowsText(s: Status, t: Status)
    ensures StatusRank(s) < StatusRank(t) <==> TextBefore(StatusName(s), StatusName(t))
  {
    if s == t {
      TextBeforeIrreflexive(StatusName(s));
    }
  }

  /** One row of the `evidence` table: one version of a logical evidence item. */
  datatype EvidenceRow = EvidenceRow(
    id: Id,
    title: string,
    description: Option<string>,
    category: string,
    status: Status,
    filePath: string,
    groupId: Id,
    versionNumber: nat,
    createdAt: Timestamp,
    updatedAt: Timestamp)

  /** What `evidence:create` receives; an absent description is `None`. */
  datatype CreatePayload = CreatePayload(
    title: string,
    description: Option<string>,
    category: string,
    status: Status,
    filePath: string,
    tags: seq<string>)

  /** What `evidence:update` receives; an absent `file_path` keeps the previous file. */
  datatype UpdatePayload = UpdatePayload(
    title: string,
    description: Option<string>,
    category: string,
    status: Status,
    filePath: Option<string>,
    tags: seq<string>)

  /** An `evidence_tags` row; tag `k` is the `k`-th entry of the append-only tag table. */
  datatype Link = Link(evidenceId: Id, tagId: nat)

  datatype AuditAction = CreateAction | StatusChangeAction | DeleteAction | ExportPackageAction

  /** The text stored in `action_type`. */
  function ActionName(a: AuditAction): string {
    match a
    case CreateAction => "CREATE"
    case StatusChangeAction => "STATUS_CHANGE"
    case DeleteAction => "DELETE"
    case ExportPackageAction => "EXPORT_PACKAGE"
  }

  /** The `entity_id` of an audit entry: an evidence id, or the literal "none" of an empty export. */
  datatype EntityRef = EvidenceRef(id: Id) | NoneRef

  /** One row of `audit_log`. */
  datatype AuditEntry = AuditEntry(
    id: Id,
    action: AuditAction,
    entity: EntityRef,
    entityType: string,
    actor: string,
    timestamp: Timestamp)

  /** The single-slot undo buffer: the deleted row, its tag names and when it was deleted. */
  datatype PendingUndo = PendingUndo(evidence: EvidenceRow, tags: seq<string>, deletedAt: Timestamp)

  const EntityTypeEvidence: string := "evidence"
  const SystemActor: string := "system"

  /** What `logAudit(action, entity, 'evidence')` appends as the `k`-th audit entry. */
  function Audit(k: nat, action: AuditAction, entity: EntityRef, now: Timestamp): AuditEntry {
    AuditEntry(k, action, entity, EntityTypeEvidence, SystemActor, now)
  }

  function RowIds(rows: seq<EvidenceRow>): set<Id> {
    set r | r in rows :: r.id
  }

  /** The primary key of `evidence`: no two rows share an id. */
  ghost predicate RowIdsDistinct(rows: seq<EvidenceRow>) {
    forall i, j :: 0 <= i < j < |rows| ==> rows[i].id != rows[j].id
  }

  /** No two versions of one group carry the same version number. */
  ghost predicate VersionsDistinct(rows: seq<EvidenceRow>) {
    forall x, y :: x in rows && y in rows && x.groupId == y.groupId && x.versionNumber == y.versionNumber ==> x == y
  }

  /** `SELECT * FROM evidence WHERE id = ?`. */
  function FindRow(rows: seq<EvidenceRow>, id: Id): (r: Option<EvidenceRow>)
    ensures r.Some? ==> r.value in rows && r.value.id == id
    ensures r.None? <==> id !in RowIds(rows)
  {
    if rows == [] then None
    else if rows[0].id == id then Some(rows[0])
    else
      assert forall x :: x in rows[1..] ==> x in rows;
      assert rows == [rows[0]] + rows[1..];
      FindRow(rows[1..], id)
  }

  /** With a primary key, the row `FindRow` returns is the only row with that id. */
  lemma FindRowUnique(rows: seq<EvidenceRow>, id: Id, x: EvidenceRow)
    requires RowIdsDistinct(rows)
    requires x in rows && x.id == id
    ensures FindRow(rows, id) == Some(x)
  {
    var r := FindRow(rows, id).value;
    var i :| 0 <= i < |rows| && rows[i] == x;
    var j :| 0 <= j < |rows| && rows[j] == r;
    assert i == j;
  }

  /** `DELETE FROM evidence WHERE id = ?`: the other rows, in their order. */
  function RemoveRow(rows: seq<EvidenceRow>, id: Id): (r: seq<EvidenceRow>)
    ensures forall x :: x in r <==> x in rows && x.id != id
    ensures |r| <= |rows|
    ensures RowIdsDistinct(rows) ==> RowIdsDistinct(r)
    ensures RowIdsDistinct(rows) && id in RowIds(rows) ==> |r| == |rows| - 1
    ensures id !in RowIds(rows) ==> r == rows
  {
    if rows == [] then []
    else
      var x := rows[0];
      var rest := RemoveRow(rows[1..], id);
      assert rows == [x] + rows[1..];
      ConsDistinct(x, rows[1..]);
      if x.id == id then rest
      else
        ConsDistinct(x, rest);
        [x] + rest
  }

  /** A row in front of a table keeps its ids distinct exactly when its id is new there. */
  lemma ConsDistinct(x: EvidenceRow, s: seq<EvidenceRow>)
    ensures RowIdsDistinct([x] + s) <==> RowIdsDistinct(s) && x.id !in RowIds(s)
  {
    var t := [x] + s;
    if RowIdsDistinct(t) {
      forall i, j | 0 <= i < j < |s| ensures s[i].id != s[j].id {
        assert t[i + 1] == s[i] && t[j + 1] == s[j];
      }
      forall y | y in s ensures y.id != x.id {
        var k :| 0 <= k < |s| && s[k] == y;
        assert t[0] == x && t[k + 1] == y;
      }
    }
    if RowIdsDistinct(s) && x.id !in RowIds(s) {
      forall i, j | 0 <= i < j < |t| ensures t[i].id != t[j].id {
        if i == 0 {
          assert t[j] in s;
        } else {
          assert t[i] == s[i - 1] && t[j] == s[j - 1];
        }
      }
    }
  }

  /**
   * `SELECT MAX(version_number) FROM evidence WHERE version_group_id = ?`:
   * NULL (`None`) exactly when the group has no rows.
   */
  function MaxVersion(rows: seq<EvidenceRow>, g: Id): (m: Option<nat>)
    ensures m.None? <==> forall x :: x in rows ==> x.groupId != g
    ensures m.Some? ==> exists x :: x in rows && x.groupId == g && x.versionNumber == m.value
    ensures m.Some? ==> forall x :: x in rows && x.groupId == g ==> x.versionNumber <= m.value
  {
    if rows == [] then None
    else
      assert rows == [rows[0]] + rows[1..];
      var rest := MaxVersion(rows[1..], g);
      if rows[0].groupId != g then rest
      else match rest
        case None => Some(rows[0].versionNumber)
        case Some(v) => Some(Max(v, rows[0].versionNumber))
  }

  /** The row is the current version of its group. */
  predicate IsLatest(rows: seq<EvidenceRow>, r: EvidenceRow) {
    MaxVersion(rows, r.groupId) == Some(r.versionNumber)
  }
}
