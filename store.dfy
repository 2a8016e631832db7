/**
 * The evidence vault's state and its mutating IPC handlers: `evidence:create`,
 * `evidence:update`, `evidence:delete`, `evidence:undoDelete` and `export:create`, with
 * `upsertTagsForEvidence` and `logAudit`. The SQLite tables become sequences, the random
 * UUIDs a counter, and each clock reading a parameter: `now` for the handler's own reading,
 * `loggedAt` for the later one `logAudit` takes.
 */
module VaultStore {
  import opened Base
  import opened Evidence
  import opened Tags
  import opened Query
  import opened Export

  /** How long, in milliseconds, a deletion can be undone; an age of exactly this much still restores. */
  const UndoWindow: int := 5000

  /** Appending a row with an id above every existing id keeps ids unique. */
  lemma AppendFreshRow(rows: seq<EvidenceRow>, r: EvidenceRow)
    requires RowIdsDistinct(rows)
    requires r.id !in RowIds(rows)
    ensures RowIdsDistinct(rows + [r])
    ensures RowIds(rows + [r]) == RowIds(rows) + {r.id}
  {
    var s := rows + [r];
    forall i, j | 0 <= i < j < |s| ensures s[i].id != s[j].id {
      if j == |rows| {
        assert s[i] in rows;
      } else {
        assert s[i] == rows[i] && s[j] == rows[j];
      }
    }
  }

  /** A row opening a new group is that group's latest version and creates no clash of versions. */
  lemma NewGroupRow(rows: seq<EvidenceRow>, r: EvidenceRow)
    requires forall x :: x in rows ==> x.groupId != r.groupId
    ensures IsLatest(rows + [r], r)
    ensures VersionsDistinct(rows) ==> VersionsDistinct(rows + [r])
  {
    var s := rows + [r];
    assert forall x :: x in s ==> x in rows || x == r;
    assert r in s;
    var m := MaxVersion(s, r.groupId);
    var y :| y in s && y.groupId == r.groupId && y.versionNumber == m.value;
    assert y == r;
    if VersionsDistinct(rows) {
      forall x, z | x in s && z in s && x.groupId == z.groupId && x.versionNumber == z.versionNumber
        ensures x == z
      {
        if x != r && z != r {
          assert x in rows && z in rows;
        }
      }
    }
  }

  /**
   * A row numbered one above its group's maximum becomes the group's only latest version,
   * and distinct version numbers stay distinct.
   */
  lemma NextVersionRow(rows: seq<EvidenceRow>, r: EvidenceRow)
    requires MaxVersion(rows, r.groupId).Some?
    requires r.versionNumber == MaxVersion(rows, r.groupId).value + 1
    ensures IsLatest(rows + [r], r)
    ensures forall x :: x in rows ==> !IsLatest(rows + [r], x) || x.groupId != r.groupId
    ensures VersionsDistinct(rows) ==> VersionsDistinct(rows + [r])
  {
    var s := rows + [r];
    var g := r.groupId;
    assert forall x :: x in rows && x.groupId == g ==> x.versionNumber < r.versionNumber;
    assert forall x :: x in s ==> x in rows || x == r;
    var m := MaxVersion(s, g);
    assert r in s;
    assert m.value >= r.versionNumber;
    var y :| y in s && y.groupId == g && y.versionNumber == m.value;
    assert m.value == r.versionNumber;
    if VersionsDistinct(rows) {
      forall x, z | x in s && z in s && x.groupId == z.groupId && x.versionNumber == z.versionNumber
        ensures x == z
      {
        assert x in rows || x == r;
        assert z in rows || z == r;
      }
    }
  }

  /** Putting a deleted row back restores the table's contents. */
  lemma {:induction false} RemoveRowRestore(rows: seq<EvidenceRow>, id: Id)
    requires RowIdsDistinct(rows) && id in RowIds(rows)
    ensures multiset(RemoveRow(rows, id) + [FindRow(rows, id).value]) == multiset(rows)
    decreases |rows|
  {
    var h := rows[0];
    var t := rows[1..];
    assert rows == [h] + t;
    assert RowIdsDistinct(t) by {
      forall i, j | 0 <= i < j < |t| ensures t[i].id != t[j].id {
        assert t[i] == rows[i + 1] && t[j] == rows[j + 1];
      }
    }
    if h.id == id {
      RemoveHeadRow(rows, id);
    } else {
      RemoveRowRestore(t, id);
      RemoveLaterRow(rows, id);
    }
  }

  lemma RemoveHeadRow(rows: seq<EvidenceRow>, id: Id)
    requires RowIdsDistinct(rows) && rows != [] && rows[0].id == id
    ensures RemoveRow(rows, id) == rows[1..]
    ensures FindRow(rows, id) == Some(rows[0])
  {
    var t := rows[1..];
    assert id !in RowIds(t) by {
      forall x | x in t ensures x.id != id {
        var k :| 0 <= k < |t| && t[k] == x;
        assert rows[k + 1] == x;
      }
    }
  }

  lemma RemoveLaterRow(rows: seq<EvidenceRow>, id: Id)
    requires rows != [] && rows[0].id != id && id in RowIds(rows[1..])
    requires multiset(RemoveRow(rows[1..], id) + [FindRow(rows[1..], id).value]) == multiset(rows[1..])
    ensures multiset(RemoveRow(rows, id) + [FindRow(rows, id).value]) == multiset(rows)
  {
    var h := rows[0];
    var t := rows[1..];
    var x := FindRow(t, id).value;
    var rt := RemoveRow(t, id);
    assert FindRow(rows, id) == Some(x) && RemoveRow(rows, id) == [h] + rt by {
      assert rows == [h] + t;
    }
    calc {
      multiset(RemoveRow(rows, id) + [x]);
      multiset([h] + (rt + [x]));
      multiset([h]) + multiset(rt + [x]);
      multiset([h]) + multiset(t);
      multiset([h] + t);
      { assert rows == [h] + t; }
      multiset(rows);
    }
  }

  /** One turn of the reconcile loop consumes the next name. */
  lemma LinkAllStep(tags: seq<string>, links: seq<Link>, e: Id, names: seq<string>, i: nat)
    requires i < |names|
    ensures LinkAll(tags, links, e, names[i..])
      == LinkAll(LinkOne(tags, links, e, names[i]).0, LinkOne(tags, links, e, names[i]).1, e, names[i + 1..])
  {
    assert names[i..][0] == names[i] && names[i..][1..] == names[i + 1..];
  }

  /** A staged deletion: its row is out of the table, its ids were issued, its tag list is normalised. */
  ghost predicate PendingOk(p: PendingUndo, rows: seq<EvidenceRow>, nextId: nat) {
    && p.evidence.id !in RowIds(rows)
    && p.evidence.id < nextId
    && p.evidence.groupId < nextId
    && IsNormalized(p.tags)
  }

  /**
   * The store's invariant: ids are unique and issued by the oracle, tag names are unique
   * and normalised, every link joins an existing row to an existing tag, audit ids count up.
   */
  ghost predicate StoreValid(rows: seq<EvidenceRow>, tags: seq<string>, links: seq<Link>, audit: seq<AuditEntry>,
                             lastDeleted: Option<PendingUndo>, nextId: nat) {
    && RowIdsDistinct(rows)
    && (forall r :: r in rows ==> r.id < nextId && r.groupId < nextId)
    && IsNormalized(tags)
    && LinksWellFormed(tags, links)
    && (forall l :: l in links ==> l.evidenceId in RowIds(rows))
    && (forall k :: 0 <= k < |audit| ==> audit[k].id == k)
    && (lastDeleted.Some? ==> PendingOk(lastDeleted.value, rows, nextId))
  }

  lemma NextIdValid(rows: seq<EvidenceRow>, tags: seq<string>, links: seq<Link>, audit: seq<AuditEntry>,
                    lastDeleted: Option<PendingUndo>, nextId: nat)
    requires StoreValid(rows, tags, links, audit, lastDeleted, nextId)
    ensures StoreValid(rows, tags, links, audit, lastDeleted, nextId + 1)
  {
  }

  lemma AuditValid(rows: seq<EvidenceRow>, tags: seq<string>, links: seq<Link>, audit: seq<AuditEntry>,
                   lastDeleted: Option<PendingUndo>, nextId: nat, a: AuditAction, entity: EntityRef, now: Timestamp)
    requires StoreValid(rows, tags, links, audit, lastDeleted, nextId)
    ensures StoreValid(rows, tags, links, audit + [Audit(|audit|, a, entity, now)], lastDeleted, nextId)
  {
  }

  /**
   * Appending the next version of `existing`'s group under the next issued id keeps the
   * invariant. The state before is `rows0 … nextId0`; the state after is `rows … nextId`.
   */
  lemma NewVersionValid(rows0: seq<EvidenceRow>, tags0: seq<string>, links0: seq<Link>, audit0: seq<AuditEntry>,
                        lastDeleted0: Option<PendingUndo>, nextId0: nat, existing: EvidenceRow, r: EvidenceRow,
                        rows: seq<EvidenceRow>, tags: seq<string>, links: seq<Link>, audit: seq<AuditEntry>,
                        lastDeleted: Option<PendingUndo>, nextId: nat)
    requires StoreValid(rows0, tags0, links0, audit0, lastDeleted0, nextId0)
    requires existing in rows0 && r.id == nextId0 && r.groupId == existing.groupId
    requires rows == rows0 + [r] && nextId == nextId0 + 1
    requires tags == tags0 && links == links0 && audit == audit0 && lastDeleted == lastDeleted0
    ensures StoreValid(rows, tags, links, audit, lastDeleted, nextId)
  {
    NextIdValid(rows0, tags0, links0, audit0, lastDeleted0, nextId0);
    AddRowValid(rows0, tags0, links0, audit0, lastDeleted0, nextId0 + 1, r);
  }

  /** Inserting a row with a fresh, issued id keeps the invariant. */
  lemma AddRowValid(rows: seq<EvidenceRow>, tags: seq<string>, links: seq<Link>, audit: seq<AuditEntry>,
                    lastDeleted: Option<PendingUndo>, nextId: nat, r: EvidenceRow)
    requires StoreValid(rows, tags, links, audit, lastDeleted, nextId)
    requires r.id < nextId && r.groupId < nextId && r.id !in RowIds(rows)
    requires lastDeleted.Some? ==> lastDeleted.value.evidence.id != r.id
    ensures StoreValid(rows + [r], tags, links, audit, lastDeleted, nextId)
  {
    AppendFreshRow(rows, r);
    assert forall x :: x in rows + [r] ==> x in rows || x == r;
  }

  /** Reconciling the tags of an existing row keeps the invariant. */
  lemma ReconcileValid(rows: seq<EvidenceRow>, tags: seq<string>, links: seq<Link>, audit: seq<AuditEntry>,
                       lastDeleted: Option<PendingUndo>, nextId: nat, e: Id, raw: seq<string>)
    requires StoreValid(rows, tags, links, audit, lastDeleted, nextId)
    requires e in RowIds(rows)
    ensures StoreValid(rows, Reconcile(tags, links, e, raw).0, Reconcile(tags, links, e, raw).1, audit, lastDeleted, nextId)
  {
    ReconcileSpec(tags, links, e, raw);
  }

  /** Deleting an existing row, its links, and staging it keeps the invariant. */
  lemma DeleteValid(rows: seq<EvidenceRow>, tags: seq<string>, links: seq<Link>, audit: seq<AuditEntry>,
                    lastDeleted: Option<PendingUndo>, nextId: nat, id: Id, now: Timestamp)
    requires StoreValid(rows, tags, links, audit, lastDeleted, nextId)
    requires id in RowIds(rows)
    ensures StoreValid(RemoveRow(rows, id), tags, RemoveLinks(links, id), audit,
      Some(PendingUndo(FindRow(rows, id).value, LinkedNames(tags, links, id), now)), nextId)
  {
    var rest := RemoveRow(rows, id);
    RemoveLinksDistinct(links, id);
    LinkedNamesNormalized(tags, links, id);
    forall l | l in RemoveLinks(links, id) ensures l.evidenceId in RowIds(rest) {
      var x :| x in rows && x.id == l.evidenceId;
      assert x in rest;
    }
    assert id !in RowIds(rest);
  }

  /** Putting a staged row back and clearing the slot keeps the invariant. */
  lemma RestoreValid(rows: seq<EvidenceRow>, tags: seq<string>, links: seq<Link>, audit: seq<AuditEntry>,
                     p: PendingUndo, nextId: nat)
    requires StoreValid(rows, tags, links, audit, Some(p), nextId)
    ensures StoreValid(rows + [p.evidence], tags, links, audit, None, nextId)
    ensures p.evidence.id !in RowIds(rows) && IsNormalized(p.tags)
  {
    AddRowValid(rows, tags, links, audit, None, nextId, p.evidence);
  }

  /** Both effects of deletion on the tag names: none are left for `id`, the others' are kept. */
  lemma DeleteLinkedNames(tags: seq<string>, links: seq<Link>, id: Id)
    ensures LinkedNames(tags, RemoveLinks(links, id), id) == []
    ensures forall e :: e != id ==> LinkedNames(tags, RemoveLinks(links, id), e) == LinkedNames(tags, links, e)
  {
    LinkedNamesRemove(tags, links, id, id);
    forall e | e != id ensures LinkedNames(tags, RemoveLinks(links, id), e) == LinkedNames(tags, links, e) {
      LinkedNamesRemove(tags, links, id, e);
    }
  }

  class Store {
    /** The `evidence` table, in insertion order. */
    var rows: seq<EvidenceRow>
    /** The `tags` table; tag `k` is `tags[k]`, and tags are never removed. */
    var tags: seq<string>
    /** The `evidence_tags` table. */
    var links: seq<Link>
    /** The `audit_log` table; entry `k` has id `k`. */
    var audit: seq<AuditEntry>
    /** The module-level `lastDeleted` slot. */
    var lastDeleted: Option<PendingUndo>
    /** The fresh-id oracle: every id handed out so far is below it. */
    var nextId: nat

    /** The store's invariant over its fields. */
    ghost predicate Valid()
      reads this
    {
      StoreValid(rows, tags, links, audit, lastDeleted, nextId)
    }

    /** An empty vault. */
    constructor()
      ensures Valid()
      ensures rows == [] && tags == [] && links == [] && audit == []
      ensures lastDeleted == None && nextId == 0
    {
      rows := [];
      tags := [];
      links := [];
      audit := [];
      lastDeleted := None;
      nextId := 0;
    }

    /** `crypto.randomUUID()`: an id never handed out before. */
    method FreshId() returns (id: Id)
      requires Valid()
      modifies this
      ensures Valid()
      ensures id == old(nextId) && nextId == old(nextId) + 1
      ensures rows == old(rows) && tags == old(tags) && links == old(links)
      ensures audit == old(audit) && lastDeleted == old(lastDeleted)
    {
      NextIdValid(rows, tags, links, audit, lastDeleted, nextId);
      id := nextId;
      nextId := nextId + 1;
    }

    /**
     * `logAudit(action, entity, 'evidence')`: appends one entry by the "system" actor, stamped
     * with the clock reading `logAudit` takes itself.
     */
    method LogAudit(action: AuditAction, entity: EntityRef, now: Timestamp)
      requires Valid()
      modifies this
      ensures Valid()
      ensures audit == old(audit) + [Audit(|old(audit)|, action, entity, now)]
      ensures rows == old(rows) && tags == old(tags) && links == old(links)
      ensures lastDeleted == old(lastDeleted) && nextId == old(nextId)
    {
      AuditValid(rows, tags, links, audit, lastDeleted, nextId, action, entity, now);
      audit := audit + [Audit(|audit|, action, entity, now)];
    }

    /**
     * `upsertTagsForEvidence(e, raw)`: drops the links of `e`, then for each normalised name
     * looks the tag up, creates it when missing, and links it to `e`.
     */
    method UpsertTagsForEvidence(e: Id, raw: seq<string>)
      modifies this
      ensures (tags, links) == Reconcile(old(tags), old(links), e, raw)
      ensures rows == old(rows) && audit == old(audit)
      ensures lastDeleted == old(lastDeleted) && nextId == old(nextId)
    {
      var names := NormalizeTags(raw);
      links := RemoveLinks(links, e);
      ghost var goal := LinkAll(tags, links, e, names);
      assert names[0..] == names;
      for i := 0 to |names|
        invariant LinkAll(tags, links, e, names[i..]) == goal
        invariant rows == old(rows) && audit == old(audit)
        invariant lastDeleted == old(lastDeleted) && nextId == old(nextId)
      {
        var name := names[i];
        ghost var step := LinkOne(tags, links, e, name);
        LinkAllStep(tags, links, e, names, i);
        var tagId: nat;
        match FindTag(tags, name) {
          case Some(k) =>
            tagId := k;
          case None =>
            tagId := |tags|;
            tags := tags + [name];
        }
        links := links + [Link(e, tagId)];
        assert tags == step.0 && links == step.1;
      }
      assert names[|names|..] == [];
      assert goal == Reconcile(old(tags), old(links), e, raw);
    }

    /**
     * `evidence:create`: version 1 of a new group, its tags, and a `CREATE` audit entry. The
     * row carries the handler's clock reading `now`; the entry carries `loggedAt`, the later
     * reading `logAudit` takes.
     */
    method Create(p: CreatePayload, now: Timestamp, loggedAt: Timestamp) returns (r: EvidenceRow)
      requires Valid()
      modifies this
      ensures Valid()
      ensures r == EvidenceRow(old(nextId), p.title, p.description, p.category, p.status, p.filePath, old(nextId) + 1, 1, now, now)
      ensures r.id !in RowIds(old(rows)) && forall x :: x in old(rows) ==> x.groupId != r.groupId
      ensures rows == old(rows) + [r] && IsLatest(rows, r)
      ensures (tags, links) == Reconcile(old(tags), old(links), r.id, p.tags)
      ensures Get(rows, tags, links, r.id) == Some(Detail(r, NormalizeTags(p.tags)))
      ensures forall e :: e != r.id ==> LinkedNames(tags, links, e) == LinkedNames(old(tags), old(links), e)
      ensures audit == old(audit) + [Audit(|old(audit)|, CreateAction, EvidenceRef(r.id), loggedAt)]
      ensures lastDeleted == old(lastDeleted) && nextId == old(nextId) + 2
      ensures VersionsDistinct(old(rows)) ==> VersionsDistinct(rows)
    {
      var id := FreshId();
      var group := FreshId();
      r := EvidenceRow(id, p.title, p.description, p.category, p.status, p.filePath, group, 1, now, now);
      AddRowValid(rows, tags, links, audit, lastDeleted, nextId, r);
      NewGroupRow(rows, r);
      rows := rows + [r];
      ReconcileValid(rows, tags, links, audit, lastDeleted, nextId, id, p.tags);
      UpsertTagsForEvidence(id, p.tags);
      ReconcileSpec(old(tags), old(links), id, p.tags);
      FindRowUnique(rows, id, r);
      LogAudit(CreateAction, EvidenceRef(id), loggedAt);
    }

    /**
     * `evidence:update`: nothing for an unknown id; otherwise a new row in the same group
     * numbered one above the group's maximum, keeping `created_at` (and the file when none is
     * given), with its tags, and a `STATUS_CHANGE` entry, stamped `loggedAt`, exactly when the
     * status changed.
     */
    method Update(id: Id, p: UpdatePayload, now: Timestamp, loggedAt: Timestamp) returns (r: Option<EvidenceRow>)
      requires Valid()
      modifies this
      ensures Valid()
      ensures r.None? <==> id !in RowIds(old(rows))
      ensures r.None? ==>
        && rows == old(rows) && tags == old(tags) && links == old(links) && audit == old(audit)
        && lastDeleted == old(lastDeleted) && nextId == old(nextId)
      ensures r.Some? ==>
        var existing := FindRow(old(rows), id).value;
        && MaxVersion(old(rows), existing.groupId).Some?
        && r.value == EvidenceRow(old(nextId), p.title, p.description, p.category, p.status,
             p.filePath.GetOr(existing.filePath), existing.groupId,
             MaxVersion(old(rows), existing.groupId).value + 1, existing.createdAt, now)
        && rows == old(rows) + [r.value]
        && IsLatest(rows, r.value) && !IsLatest(rows, existing)
        && (tags, links) == Reconcile(old(tags), old(links), r.value.id, p.tags)
        && Get(rows, tags, links, r.value.id) == Some(Detail(r.value, NormalizeTags(p.tags)))
        && (forall e :: e != r.value.id ==> LinkedNames(tags, links, e) == LinkedNames(old(tags), old(links), e))
        && (existing.status != p.status ==>
             audit == old(audit) + [Audit(|old(audit)|, StatusChangeAction, EvidenceRef(r.value.id), loggedAt)])
        && (existing.status == p.status ==> audit == old(audit))
        && lastDeleted == old(lastDeleted) && nextId == old(nextId) + 1
      ensures VersionsDistinct(old(rows)) ==> VersionsDistinct(rows)
    {
      var found := FindRow(rows, id);
      if found.None? {
        return None;
      }
      var existing := found.value;
      var row := InsertVersion(existing, p, now);
      if existing.status != p.status {
        LogAudit(StatusChangeAction, EvidenceRef(row.id), loggedAt);
      }
      r := Some(row);
    }

    /**
     * The insert half of `evidence:update`: the next version of `existing`'s group, numbered
     * one above the group's maximum (the `?? existing.version_number` fallback never applies,
     * since `existing` itself is in the group), then its tags.
     */
    method InsertVersion(existing: EvidenceRow, p: UpdatePayload, now: Timestamp) returns (row: EvidenceRow)
      requires Valid() && existing in rows
      modifies this
      ensures Valid()
      ensures MaxVersion(old(rows), existing.groupId).Some?
      ensures row == EvidenceRow(old(nextId), p.title, p.description, p.category, p.status,
        p.filePath.GetOr(existing.filePath), existing.groupId,
        MaxVersion(old(rows), existing.groupId).value + 1, existing.createdAt, now)
      ensures rows == old(rows) + [row]
      ensures IsLatest(rows, row) && !IsLatest(rows, existing)
      ensures (tags, links) == Reconcile(old(tags), old(links), row.id, p.tags)
      ensures Get(rows, tags, links, row.id) == Some(Detail(row, NormalizeTags(p.tags)))
      ensures forall e :: e != row.id ==> LinkedNames(tags, links, e) == LinkedNames(old(tags), old(links), e)
      ensures audit == old(audit) && lastDeleted == old(lastDeleted) && nextId == old(nextId) + 1
      ensures VersionsDistinct(old(rows)) ==> VersionsDistinct(rows)
    {
      row := AppendVersion(existing, p, now);
      NextVersionRow(old(rows), row);
      assert row in rows;
      ReconcileValid(rows, tags, links, audit, lastDeleted, nextId, row.id, p.tags);
      UpsertTagsForEvidence(row.id, p.tags);
      ReconcileSpec(old(tags), old(links), row.id, p.tags);
      FindRowUnique(rows, row.id, row);
    }

    /** The row half of the insert: the new version, with the latest-version bookkeeping. */
    method AppendVersion(existing: EvidenceRow, p: UpdatePayload, now: Timestamp) returns (row: EvidenceRow)
      requires Valid() && existing in rows
      modifies this
      ensures Valid()
      ensures MaxVersion(old(rows), existing.groupId).Some?
      ensures row == EvidenceRow(old(nextId), p.title, p.description, p.category, p.status,
        p.filePath.GetOr(existing.filePath), existing.groupId,
        MaxVersion(old(rows), existing.groupId).value + 1, existing.createdAt, now)
      ensures rows == old(rows) + [row]
      ensures tags == old(tags) && links == old(links)
      ensures audit == old(audit) && lastDeleted == old(lastDeleted) && nextId == old(nextId) + 1
    {
      var nextVersion := MaxVersion(rows, existing.groupId).GetOr(existing.versionNumber) + 1;
      var newId := FreshId();
      row := EvidenceRow(newId, p.title, p.description, p.category, p.status,
        p.filePath.GetOr(existing.filePath), existing.groupId, nextVersion, existing.createdAt, now);
      rows := rows + [row];
      NewVersionValid(old(rows), old(tags), old(links), old(audit), old(lastDeleted), old(nextId), existing, row,
        rows, tags, links, audit, lastDeleted, nextId);
    }

    /**
     * `evidence:delete`: `false` and no change for an unknown id; otherwise the row and its
     * links go, the row and its tag names are staged for undo with the reading `now`, and a
     * `DELETE` entry stamped `loggedAt` is logged.
     */
    method Delete(id: Id, now: Timestamp, loggedAt: Timestamp) returns (ok: bool)
      requires Valid()
      modifies this
      ensures Valid()
      ensures ok <==> id in RowIds(old(rows))
      ensures !ok ==>
        && rows == old(rows) && tags == old(tags) && links == old(links) && audit == old(audit)
        && lastDeleted == old(lastDeleted) && nextId == old(nextId)
      ensures ok ==>
        && rows == RemoveRow(old(rows), id) && |rows| == |old(rows)| - 1
        && tags == old(tags) && links == RemoveLinks(old(links), id)
        && LinkedNames(tags, links, id) == []
        && (forall e :: e != id ==> LinkedNames(tags, links, e) == LinkedNames(old(tags), old(links), e))
        && lastDeleted == Some(PendingUndo(FindRow(old(rows), id).value, LinkedNames(old(tags), old(links), id), now))
        && audit == old(audit) + [Audit(|old(audit)|, DeleteAction, EvidenceRef(id), loggedAt)]
        && nextId == old(nextId)
      ensures VersionsDistinct(old(rows)) ==> VersionsDistinct(rows)
    {
      var found := FindRow(rows, id);
      if found.None? {
        return false;
      }
      var row := found.value;
      var staged := LinkedNames(tags, links, id);
      DeleteValid(rows, tags, links, audit, lastDeleted, nextId, id, now);
      DeleteLinkedNames(tags, links, id);
      links := RemoveLinks(links, id);
      rows := RemoveRow(rows, id);
      lastDeleted := Some(PendingUndo(row, staged, now));
      LogAudit(DeleteAction, EvidenceRef(id), loggedAt);
      ok := true;
    }

    /**
     * `evidence:undoDelete`: nothing when no deletion is staged; a stale one (older than the
     * undo window) is dropped; otherwise the identical row is put back with its staged tag
     * names, without an audit entry. The slot is empty afterwards in every case.
     */
    method UndoDelete(now: Timestamp) returns (r: Option<EvidenceRow>)
      requires Valid()
      modifies this
      ensures Valid()
      ensures lastDeleted == None
      ensures audit == old(audit) && nextId == old(nextId)
      ensures r.Some? <==> old(lastDeleted).Some? && now - old(lastDeleted).value.deletedAt <= UndoWindow
      ensures r.None? ==> rows == old(rows) && tags == old(tags) && links == old(links)
      ensures r.Some? ==>
        var p := old(lastDeleted).value;
        && r.value == p.evidence
        && p.evidence.id !in RowIds(old(rows))
        && rows == old(rows) + [p.evidence]
        && (tags, links) == Reconcile(old(tags), old(links), p.evidence.id, p.tags)
        && Get(rows, tags, links, p.evidence.id) == Some(Detail(p.evidence, p.tags))
        && (forall e :: e != p.evidence.id ==> LinkedNames(tags, links, e) == LinkedNames(old(tags), old(links), e))
    {
      if lastDeleted.None? {
        return None;
      }
      var p := lastDeleted.value;
      var age := now - p.deletedAt;
      if age > UndoWindow {
        lastDeleted := None;
        return None;
      }
      var row := p.evidence;
      RestoreValid(rows, tags, links, audit, p, nextId);
      rows := rows + [row];
      lastDeleted := None;
      ReconcileValid(rows, tags, links, audit, lastDeleted, nextId, row.id, p.tags);
      UpsertTagsForEvidence(row.id, p.tags);
      ReconcileSpec(old(tags), old(links), row.id, p.tags);
      NormalizeOfNormalized(p.tags);
      FindRowUnique(rows, row.id, row);
      r := Some(row);
    }

    /**
     * `export:create` after the save dialog: nothing when it was cancelled (or no window
     * exists); otherwise the latest matching rows are packaged under the returned manifest and
     * one `EXPORT_PACKAGE` entry names the first of them, or "none".
     */
    method ExportCreate(f: ExportFilters, destination: Option<string>, reportEntry: string, onDisk: string -> bool, now: Timestamp)
      returns (saved: Option<string>, manifest: seq<string>)
      requires Valid()
      modifies this
      ensures Valid()
      ensures rows == old(rows) && tags == old(tags) && links == old(links)
      ensures lastDeleted == old(lastDeleted) && nextId == old(nextId)
      ensures destination.None? || destination == Some("") ==> saved.None? && manifest == [] && audit == old(audit)
      ensures destination.Some? && destination != Some("") ==>
        var items := ExportItems(rows, f);
        && saved == destination
        && manifest == Manifest(reportEntry, items, onDisk)
        && audit == old(audit) + [Audit(|old(audit)|, ExportPackageAction, ExportAuditEntity(items), now)]
    {
      if destination.None? || destination.value == "" {
        return None, [];
      }
      var items := ExportItems(rows, f);
      manifest := Manifest(reportEntry, items, onDisk);
      LogAudit(ExportPackageAction, ExportAuditEntity(items), now);
      saved := destination;
    }

    /**
     * Deleting a row and undoing within the window restores the table's contents and the
     * row's tag names, and leaves one `DELETE` entry behind.
     */
    method DeleteThenUndo(id: Id, deletedAt: Timestamp, loggedAt: Timestamp, undoneAt: Timestamp) returns (restored: bool)
      requires Valid() && id in RowIds(rows)
      requires undoneAt - deletedAt <= UndoWindow
      modifies this
      ensures Valid() && restored
      ensures multiset(rows) == multiset(old(rows))
      ensures LinkedNames(tags, links, id) == LinkedNames(old(tags), old(links), id)
      ensures audit == old(audit) + [Audit(|old(audit)|, DeleteAction, EvidenceRef(id), loggedAt)]
      ensures lastDeleted == None
    {
      var row := FindRow(rows, id).value;
      RemoveRowRestore(rows, id);
      var ok := Delete(id, deletedAt, loggedAt);
      var r := UndoDelete(undoneAt);
      restored := r.Some?;
    }
  }

  /** A new item followed by one update: versions 1 and 2 of one group. */
  method TwoVersions() returns (s: Store, v1: EvidenceRow, v2: EvidenceRow)
    ensures fresh(s) && s.Valid()
    ensures s.rows == [v1, v2] && v1.id != v2.id && v2.id < s.nextId
    ensures v1.versionNumber == 1 && v2.groupId == v1.groupId && v2.versionNumber == 2
    ensures s.lastDeleted.None?
  {
    s := new Store();
    var p := CreatePayload("Policy", None, "legal", Draft, "/vault/policy.pdf", []);
    var u := UpdatePayload("Policy", None, "legal", Draft, None, []);
    v1 := s.Create(p, 0, 0);
    var r2 := s.Update(v1.id, u, 1, 1);
    v2 := r2.value;
  }

  /**
   * The first half of the scenario below: version 1 is live and version 2 of its group has
   * just been deleted, with its undo pending.
   */
  method SecondVersionDeleted() returns (s: Store, v1: EvidenceRow, v2: EvidenceRow)
    ensures fresh(s) && s.Valid()
    ensures s.rows == [v1] && v1.versionNumber == 1
    ensures v2.groupId == v1.groupId && v2.versionNumber == 2 && v2.id < s.nextId
    ensures s.lastDeleted.Some? && s.lastDeleted.value.evidence == v2 && s.lastDeleted.value.deletedAt == 2
  {
    s, v1, v2 := TwoVersions();
    var deleted := s.Delete(v2.id, 2, 2);
    assert RemoveRow([v1, v2], v2.id) == [v1] by {
      assert [v1, v2][1..] == [v2];
    }
  }

  /**
   * Undo does not guard version numbers: delete version 2, update version 1 (which issues
   * version 2 again), then undo, and the group holds two rows numbered 2.
   */
  method DuplicateVersionAfterUndo() returns (s: Store)
    ensures fresh(s) && s.Valid()
    ensures !VersionsDistinct(s.rows)
  {
    var v1, v2;
    s, v1, v2 := SecondVersionDeleted();
    var u := UpdatePayload("Policy", None, "legal", Draft, None, []);
    var v2again := s.Update(v1.id, u, 3, 3);
    var back := s.UndoDelete(4);
    assert v2again.value.versionNumber == 2 && back.value.versionNumber == 2;
    assert v2again.value in s.rows && back.value in s.rows;
    assert v2again.value != back.value;
  }
}
