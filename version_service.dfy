/**
 * `VersionService` (backend/app/services/version.py), the second version
 * service. It shares the version table and its queries with `VersioningService`
 * but differs in two places: metadata is stored as given (possibly absent), and
 * restore numbers the copy from the restored version's own number and credits
 * that version's author.
 *
 * The source never assigns a row id; the model draws one from a counter.
 */
module Version {
  import opened Common
  import opened VersionModel
  import LineDiff

  /** The payload of `compare_versions`. */
  datatype VersionDiff = VersionDiff(diff: seq<string>, version1Id: nat, version2Id: nat, documentId: string)

  /** The number restore gives its copy of `target`, as written: one past the target's own number. */
  function RestoredNumber(target: DocumentVersion): int {
    target.versionNumber + 1
  }

  class VersionService {
    /** The version table, in insertion order. */
    var versions: seq<DocumentVersion>
    /** The next fresh row id. */
    var nextId: nat

    /** Each row's id is its position, so ids are distinct and never reused. */
    ghost predicate Valid()
      reads this
    {
      && nextId == |versions|
      && (forall i :: 0 <= i < |versions| ==> versions[i].id == i)
    }

    constructor ()
      ensures Valid() && versions == []
    {
      versions := [];
      nextId := 0;
    }

    /**
     * `create_version`: appends one row numbered one past the document's largest
     * number (1 for its first), with the given content, the metadata exactly as
     * given, the creating user as author and a fresh id.
     */
    method CreateVersion(documentId: string, content: string, metadata: Option<Metadata>, userId: string, now: int)
      returns (v: DocumentVersion)
      requires Valid()
      modifies this
      ensures Valid()
      ensures versions == old(versions) + [v]
      ensures v == DocumentVersion(old(nextId), documentId, NextNumber(old(versions), documentId), content, metadata, userId, now)
    {
      var latest := Latest(versions, documentId);
      var number := if latest.None? then 1 else latest.value.versionNumber + 1;
      v := DocumentVersion(nextId, documentId, number, content, metadata, userId, now);
      versions := versions + [v];
      nextId := nextId + 1;
    }

    /** `get_versions`: the document's rows, largest number first, paged (10 by default). */
    function GetVersions(documentId: string, skip: nat := 0, limit: nat := 10): (page: seq<DocumentVersion>)
      reads this
      ensures forall v :: v in page ==> v in versions && v.documentId == documentId
      ensures Descending(page)
      ensures |page| == PageLength(|ForDocument(versions, documentId)|, skip, limit)
      ensures forall k :: 0 <= k < |page| ==> page[k] == SortDescending(ForDocument(versions, documentId))[skip + k]
    {
      ListVersions(versions, documentId, skip, limit)
    }

    /** `get_version`: the row with this id, only if it belongs to `documentId`. */
    function GetVersion(documentId: string, versionId: nat): (r: Option<DocumentVersion>)
      reads this
      ensures r.Some? ==> r.value in versions && r.value.documentId == documentId && r.value.id == versionId
      ensures r.None? <==> forall v :: v in versions ==> !(v.documentId == documentId && v.id == versionId)
    {
      FindVersion(versions, documentId, versionId)
    }

    /**
     * `restore_version`: fails with "Version not found", changing nothing, when the
     * id is not a row of the document; otherwise appends a copy of the target's
     * content and metadata numbered one past the TARGET's number and credited to
     * the TARGET's author.
     */
    method RestoreVersion(documentId: string, versionId: nat, now: int) returns (r: Result<DocumentVersion>)
      requires Valid()
      modifies this
      ensures Valid()
      ensures FindVersion(old(versions), documentId, versionId).None? ==>
                r == Failure("Version not found") && versions == old(versions) && nextId == old(nextId)
      ensures FindVersion(old(versions), documentId, versionId).Some? ==>
                var target := FindVersion(old(versions), documentId, versionId).value;
                && r.Success?
                && versions == old(versions) + [r.value]
                && r.value == DocumentVersion(old(nextId), documentId, RestoredNumber(target),
                                              target.content, target.metadata, target.createdBy, now)
    {
      var target := FindVersion(versions, documentId, versionId);
      if target.None? {
        return Failure("Version not found");
      }
      var t := target.value;
      var v := DocumentVersion(nextId, documentId, t.versionNumber + 1, t.content, t.metadata, t.createdBy, now);
      versions := versions + [v];
      nextId := nextId + 1;
      r := Success(v);
    }

    /**
     * Restore as evidently intended: like `RestoreVersion`, but the copy takes
     * the document's next number, so it never repeats a number the document
     * already has.
     */
    method RestoreVersionAsNext(documentId: string, versionId: nat, now: int) returns (r: Result<DocumentVersion>)
      requires Valid()
      modifies this
      ensures Valid()
      ensures FindVersion(old(versions), documentId, versionId).None? ==>
                r == Failure("Version not found") && versions == old(versions) && nextId == old(nextId)
      ensures FindVersion(old(versions), documentId, versionId).Some? ==>
                var target := FindVersion(old(versions), documentId, versionId).value;
                && r.Success?
                && versions == old(versions) + [r.value]
                && r.value == DocumentVersion(old(nextId), documentId, NextNumber(old(versions), documentId),
                                              target.content, target.metadata, target.createdBy, now)
      ensures r.Success? ==>
                forall w :: w in old(versions) && w.documentId == documentId ==> w.versionNumber < r.value.versionNumber
    {
      var target := FindVersion(versions, documentId, versionId);
      if target.None? {
        return Failure("Version not found");
      }
      var t := target.value;
      var latest := Latest(versions, documentId);
      var number := if latest.None? then 1 else latest.value.versionNumber + 1;
      var v := DocumentVersion(nextId, documentId, number, t.content, t.metadata, t.createdBy, now);
      versions := versions + [v];
      nextId := nextId + 1;
      r := Success(v);
    }

    /**
     * `compare_versions`: fails unless both ids are rows of the document;
     * otherwise the formatted line diff from the first version's content to the
     * second's, with both ids and the document id.
     */
    method CompareVersions(documentId: string, version1Id: nat, version2Id: nat) returns (r: Result<VersionDiff>)
      ensures r.Failure? <==>
                FindVersion(versions, documentId, version1Id).None? || FindVersion(versions, documentId, version2Id).None?
      ensures r.Failure? ==> r.error == "One or both versions not found"
      ensures r.Success? ==>
                var text1 := FindVersion(versions, documentId, version1Id).value.content;
                var text2 := FindVersion(versions, documentId, version2Id).value.content;
                r.value == VersionDiff(LineDiff.DiffOf(text1, text2), version1Id, version2Id, documentId)
    {
      var version1 := FindVersion(versions, documentId, version1Id);
      var version2 := FindVersion(versions, documentId, version2Id);
      if version1.None? || version2.None? {
        return Failure("One or both versions not found");
      }
      var diff := LineDiff.GenerateDiff(version1.value.content, version2.value.content);
      r := Success(VersionDiff(diff, version1Id, version2Id, documentId));
    }
  }

  /**
   * Restore as written gives the copy the document's next number exactly when
   * the restored version holds the document's largest number.
   */
  lemma RestoredNumberIsNextIffLatest(rows: seq<DocumentVersion>, target: DocumentVersion)
    requires target in rows
    ensures RestoredNumber(target) == NextNumber(rows, target.documentId) <==>
              forall v :: v in rows && v.documentId == target.documentId ==> v.versionNumber <= target.versionNumber
  {
    var d := target.documentId;
    var n := NextNumber(rows, d);
    assert target in ForDocument(rows, d) by {
      var i :| 0 <= i < |rows| && rows[i] == target;
    }
    if forall v :: v in rows && v.documentId == d ==> v.versionNumber <= target.versionNumber {
      var w :| w in rows && w.documentId == d && n == w.versionNumber + 1;
    }
  }

  /**
   * A document whose versions are numbered 1, 2, 3: restoring version 1 as
   * written gives the copy number 2, which version 2 already has, where the
   * document's next number is 4.
   */
  lemma RestoreOfOlderVersionDuplicatesNumber(v1: DocumentVersion, v2: DocumentVersion, v3: DocumentVersion)
    requires v1.documentId == v2.documentId == v3.documentId
    requires v1.versionNumber == 1 && v2.versionNumber == 2 && v3.versionNumber == 3
    requires v1.id != v2.id && v1.id != v3.id
    ensures FindVersion([v1, v2, v3], v1.documentId, v1.id) == Some(v1)
    ensures RestoredNumber(v1) == v2.versionNumber
    ensures NextNumber([v1, v2, v3], v1.documentId) == 4
  {
    var rows := [v1, v2, v3];
    var n := NextNumber(rows, v1.documentId);
    assert v3 in rows;
    assert ForDocument(rows, v1.documentId) != [] by {
      assert rows[0].documentId == v1.documentId;
    }
    var w :| w in rows && w.documentId == v1.documentId && n == w.versionNumber + 1;
  }

  /**
   * A row numbered with the document's next number keeps a table numbered
   * 1, 2, 3, ... per document numbered that way.
   */
  lemma NextNumberKeepsNumbering(rows: seq<DocumentVersion>, v: DocumentVersion)
    requires Numbered(rows)
    requires v.versionNumber == NextNumber(rows, v.documentId)
    ensures Numbered(rows + [v])
  {
    NumberedNext(rows, v.documentId);
    NumberedAppend(rows, v);
  }
}
