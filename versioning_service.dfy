/**
 * `VersioningService` (backend/app/services/versioning.py): the version table
 * of a store, appended to by create and restore and read by the queries.
 *
 * Row ids are drawn from a counter (the source draws a fresh UUID), the
 * creation time is passed in, and the table starts empty.
 */
module Versioning {
  import opened Common
  import opened VersionModel
  import LineDiff

  class VersioningService {
    /** The version table, in insertion order. */
    var versions: seq<DocumentVersion>
    /** The next fresh row id. */
    var nextId: nat

    /**
     * Every document's rows are numbered 1, 2, ..., N in insertion order, each
     * row's id is its position (so ids are distinct and never reused), and every
     * stored row has a metadata map.
     */
    ghost predicate Valid()
      reads this
    {
      && Numbered(versions)
      && nextId == |versions|
      && (forall i :: 0 <= i < |versions| ==> versions[i].id == i && versions[i].metadata.Some?)
    }

    constructor ()
      ensures Valid() && versions == []
    {
      versions := [];
      nextId := 0;
    }

    /**
     * `create_version`: appends one row for `documentId` numbered one past the
     * document's largest number (1 for its first), with the given content and
     * author, the given metadata or an empty map when none is given, and a fresh id.
     */
    method CreateVersion(documentId: string, content: string, metadata: Option<Metadata>, userId: string, now: int)
      returns (v: DocumentVersion)
      requires Valid()
      modifies this
      ensures Valid()
      ensures versions == old(versions) + [v]
      ensures v.id == old(nextId) && v.documentId == documentId && v.content == content
      ensures v.metadata == Some(metadata.GetOr(map[])) && v.createdBy == userId && v.createdAt == now
      ensures v.versionNumber == NextNumber(old(versions), documentId)
      ensures v.versionNumber == |ForDocument(old(versions), documentId)| + 1
    {
      var latest := Latest(versions, documentId);
      var number := if latest.None? then 1 else latest.value.versionNumber + 1;
      v := DocumentVersion(nextId, documentId, number, content, Some(metadata.GetOr(map[])), userId, now);
      NumberedNext(versions, documentId);
      NumberedAppend(versions, v);
      versions := versions + [v];
      nextId := nextId + 1;
    }

    /** `get_versions`: the document's rows, largest number first, paged (10 by default). */
    function GetVersions(documentId: string, skip: nat := 0, limit: nat := 10): (page: seq<DocumentVersion>)
      reads this
      ensures forall v :: v in page ==> v in versions && v.documentId == documentId
      ensures Descending(page)
      ensures |page| == PageLength(|ForDocument(versions, documentId)|, skip, limit)
      ensures forall k :: 0 <= k < |page| ==> page[k] == SortDescending(ForDocument(versions, documentId))[skip + k]
    {
      ListVersions(versions, documentId, skip, limit)
    }

    /** `get_version`: the row with this id, only if it belongs to `documentId`. */
    function GetVersion(documentId: string, versionId: nat): (r: Option<DocumentVersion>)
      reads this
      ensures r.Some? ==> r.value in versions && r.value.documentId == documentId && r.value.id == versionId
      ensures r.None? <==> forall v :: v in versions ==> !(v.documentId == documentId && v.id == versionId)
    {
      FindVersion(versions, documentId, versionId)
    }

    /**
     * `restore_version`: fails with "Version not found", changing nothing, when the
     * id is not a row of the document; otherwise appends a new row with the
     * target's content and metadata, numbered one past the document's largest
     * number and credited to the restoring user. No existing row changes.
     */
    method RestoreVersion(documentId: string, versionId: nat, userId: string, now: int)
      returns (r: Result<DocumentVersion>)
      requires Valid()
      modifies this
      ensures Valid()
      ensures FindVersion(old(versions), documentId, versionId).None? ==>
                r == Failure("Version not found") && versions == old(versions) && nextId == old(nextId)
      ensures FindVersion(old(versions), documentId, versionId).Some? ==>
                var target := FindVersion(old(versions), documentId, versionId).value;
                && r.Success?
                && versions == old(versions) + [r.value]
                && r.value.documentId == documentId
                && r.value.content == target.content
                && r.value.metadata == target.metadata
                && r.value.id == old(nextId)
                && r.value.createdBy == userId
                && r.value.createdAt == now
                && r.value.versionNumber == NextNumber(old(versions), documentId)
                && r.value.versionNumber == |ForDocument(old(versions), documentId)| + 1
    {
      var target := FindVersion(versions, documentId, versionId);
      if target.None? {
        return Failure("Version not found");
      }
      var v := CreateVersion(documentId, target.value.content, target.value.metadata, userId, now);
      r := Success(v);
    }

    /**
     * `compare_versions`: fails unless both ids are rows of the document;
     * otherwise a line alignment from the first version's lines to the second's
     * (so the argument order fixes the direction of the diff).
     */
    function CompareVersions(documentId: string, versionId1: nat, versionId2: nat): (r: Result<seq<LineDiff.Op>>)
      reads this
      ensures r.Failure? <==>
                FindVersion(versions, documentId, versionId1).None? || FindVersion(versions, documentId, versionId2).None?
      ensures r.Failure? ==> r.error == "One or both versions not found"
      ensures r.Success? ==>
                LineDiff.Aligns(r.value,
                  LineDiff.SplitLines(FindVersion(versions, documentId, versionId1).value.content),
                  LineDiff.SplitLines(FindVersion(versions, documentId, versionId2).value.content))
    {
      var version1 := FindVersion(versions, documentId, versionId1);
      var version2 := FindVersion(versions, documentId, versionId2);
      if version1.None? || version2.None? then Failure("One or both versions not found")
      else Success(LineDiff.Compare(LineDiff.SplitLines(version1.value.content), LineDiff.SplitLines(version2.value.content)))
    }
  }

  /**
   * Restoring the document's latest version is allowed and numbers the copy
   * exactly one past it: the content repeats, the count still grows by one.
   */
  lemma RestoreLatestNumber(rows: seq<DocumentVersion>, d: string, versionId: nat)
    requires Numbered(rows)
    requires FindVersion(rows, d, versionId).Some?
    requires FindVersion(rows, d, versionId).value.versionNumber == |ForDocument(rows, d)|
    ensures NextNumber(rows, d) == FindVersion(rows, d, versionId).value.versionNumber + 1
  {
    NumberedNext(rows, d);
  }

  /** A document with versions numbered 1, 2, 3 in insertion order lists as 3, 2, 1. */
  lemma ListingOfThree(rows: seq<DocumentVersion>, d: string)
    requires |rows| == 3
    requires forall k :: 0 <= k < 3 ==> rows[k].documentId == d && rows[k].versionNumber == k + 1
    ensures ListVersions(rows, d, 0, 10) == [rows[2], rows[1], rows[0]]
  {
    ListingOfOwnRows(rows, d, 10);
    SortDescendingOfAscending(rows);
    var sorted := SortDescending(rows);
    assert sorted[0] == rows[2] && sorted[1] == rows[1] && sorted[2] == rows[0];
  }

  lemma ListingOfOwnRows(rows: seq<DocumentVersion>, d: string, limit: nat)
    requires forall i :: 0 <= i < |rows| ==> rows[i].documentId == d
    requires limit >= |rows|
    ensures ListVersions(rows, d, 0, limit) == SortDescending(rows)
  {
    ForDocumentOfOwnRows(rows, d);
    var sorted := SortDescending(rows);
    assert Page(sorted, 0, limit) == sorted[0..];
  }

  /**
   * Create "hello", create "hello world", restore the first: the listing is
   * the restored copy (3), the edit (2), the original (1).
   */
  method CreateThenRestore(d: string) returns (page: seq<DocumentVersion>)
    ensures |page| == 3
    ensures page[0].versionNumber == 3 && page[1].versionNumber == 2 && page[2].versionNumber == 1
    ensures page[0].content == "hello" && page[1].content == "hello world" && page[2].content == "hello"
    ensures page[0].createdBy == "bob" && page[2].createdBy == "alice"
  {
    var store := new VersioningService();
    var v1 := store.CreateVersion(d, "hello", None, "alice", 0);
    var v2 := store.CreateVersion(d, "hello world", None, "alice", 1);
    assert store.versions == [v1, v2];
    assert FindVersion(store.versions, d, v1.id) == Some(v1);
    var restored := store.RestoreVersion(d, v1.id, "bob", 2);
    var v3 := restored.value;
    assert store.versions == [v1, v2, v3];
    assert ForDocument([v1], d) == [v1];
    assert ForDocument([v1, v2], d) == [v1, v2];
    ListingOfThree(store.versions, d);
    page := store.GetVersions(d);
  }
}
