/**
 * The stored document version (backend/app/models/version.py) and the
 * queries both version services run against the version table, written as
 * functions over the table's rows in insertion order.
 */
module VersionModel {
  import opened Common

  /** A version's metadata: an arbitrary string-keyed map, stored as given. */
  type Metadata = map<string, string>

  /** One row of the version table; rows are never updated once stored. */
  datatype DocumentVersion = DocumentVersion(
    id: nat,
    documentId: string,
    versionNumber: int,
    content: string,
    metadata: Option<Metadata>,
    createdBy: string,
    createdAt: int)

  /** `filter(document_id == d)`: the document's rows, in insertion order. */
  function ForDocument(rows: seq<DocumentVersion>, d: string): (r: seq<DocumentVersion>)
    ensures |r| <= |rows|
    ensures forall v :: v in r ==> v in rows && v.documentId == d
    ensures forall i :: 0 <= i < |rows| && rows[i].documentId == d ==> rows[i] in r
    decreases |rows|
  {
    if rows == [] then []
    else
      var n := |rows|;
      assert rows == rows[..n - 1] + [rows[n - 1]];
      ForDocument(rows[..n - 1], d) + (if rows[n - 1].documentId == d then [rows[n - 1]] else [])
  }

  /** Filtering rows that all belong to `d` keeps them all. */
  lemma {:induction false} ForDocumentOfOwnRows(rows: seq<DocumentVersion>, d: string)
    requires forall i :: 0 <= i < |rows| ==> rows[i].documentId == d
    ensures ForDocument(rows, d) == rows
    decreases |rows|
  {
    if rows != [] {
      var n := |rows|;
      var prefix := rows[..n - 1];
      ForDocumentOfOwnRows(prefix, d);
      assert ForDocument(rows, d) == ForDocument(prefix, d) + [rows[n - 1]];
      assert prefix + [rows[n - 1]] == rows;
    }
  }

  /**
   * `filter(document_id == d).order_by(version_number.desc()).first()`: a row of
   * the document with the largest number, or nothing when it has no rows.
   */
  function Latest(rows: seq<DocumentVersion>, d: string): (r: Option<DocumentVersion>)
    ensures r.None? <==> ForDocument(rows, d) == []
    ensures r.Some? ==> r.value in rows && r.value.documentId == d
    ensures r.Some? ==> forall v :: v in rows && v.documentId == d ==> v.versionNumber <= r.value.versionNumber
    decreases |rows|
  {
    if rows == [] then None
    else
      var n := |rows|;
      assert rows == rows[..n - 1] + [rows[n - 1]];
      var earlier := Latest(rows[..n - 1], d);
      var last := rows[n - 1];
      if last.documentId != d then earlier
      else if earlier.Some? && earlier.value.versionNumber >= last.versionNumber then earlier
      else Some(last)
  }

  /**
   * The number a new version of `d` gets: 1 for the first version, otherwise
   * one more than the largest number the document has.
   */
  function NextNumber(rows: seq<DocumentVersion>, d: string): (n: int)
    ensures ForDocument(rows, d) == [] ==> n == 1
    ensures forall v :: v in rows && v.documentId == d ==> v.versionNumber < n
    ensures ForDocument(rows, d) != [] ==> exists v :: v in rows && v.documentId == d && n == v.versionNumber + 1
  {
    match Latest(rows, d)
    case None => 1
    case Some(v) => v.versionNumber + 1
  }

  /** `filter(document_id == d, id == versionId).first()`. */
  function FindVersion(rows: seq<DocumentVersion>, d: string, versionId: nat): (r: Option<DocumentVersion>)
    ensures r.Some? ==> r.value in rows && r.value.documentId == d && r.value.id == versionId
    ensures r.None? <==> forall v :: v in rows ==> !(v.documentId == d && v.id == versionId)
    decreases |rows|
  {
    if rows == [] then None
    else if rows[0].documentId == d && rows[0].id == versionId then Some(rows[0])
    else FindVersion(rows[1..], d, versionId)
  }

  // ---------------------------------------------------------------------------
  // Listing: order by version_number descending, then offset and limit
  // ---------------------------------------------------------------------------

  predicate Descending(s: seq<DocumentVersion>) {
    forall i, j :: 0 <= i < j < |s| ==> s[i].versionNumber >= s[j].versionNumber
  }

  /** `v` placed before the first row whose number is not larger than its own. */
  function InsertDescending(sorted: seq<DocumentVersion>, v: DocumentVersion): seq<DocumentVersion>
    decreases |sorted|
  {
    if sorted == [] || v.versionNumber >= sorted[0].versionNumber then [v] + sorted
    else [sorted[0]] + InsertDescending(sorted[1..], v)
  }

  lemma {:induction false} InsertDescendingElements(sorted: seq<DocumentVersion>, v: DocumentVersion)
    ensures multiset(InsertDescending(sorted, v)) == multiset(sorted) + multiset{v}
    ensures forall x :: x in InsertDescending(sorted, v) ==> x == v || x in sorted
    decreases |sorted|
  {
    if sorted != [] && v.versionNumber < sorted[0].versionNumber {
      assert sorted == [sorted[0]] + sorted[1..];
      InsertDescendingElements(sorted[1..], v);
    }
  }

  lemma {:induction false} InsertDescendingSorted(sorted: seq<DocumentVersion>, v: DocumentVersion)
    requires Descending(sorted)
    ensures Descending(InsertDescending(sorted, v))
    decreases |sorted|
  {
    if sorted != [] && v.versionNumber < sorted[0].versionNumber {
      var head, tail := sorted[0], sorted[1..];
      InsertDescendingSorted(tail, v);
      InsertDescendingElements(tail, v);
      var rest := InsertDescending(tail, v);
      forall j | 0 <= j < |rest| ensures rest[j].versionNumber <= head.versionNumber {
        assert rest[j] in rest;
        if rest[j] != v {
          var i :| 0 <= i < |tail| && tail[i] == rest[j];
          assert sorted[i + 1] == rest[j];
        }
      }
      var r := [head] + rest;
      forall i, j | 0 <= i < j < |r| ensures r[i].versionNumber >= r[j].versionNumber {
        assert r[j] == rest[j - 1];
        if i > 0 {
          assert r[i] == rest[i - 1];
        }
      }
    }
  }

  /** The rows ordered by version number, largest first. */
  function SortDescending(s: seq<DocumentVersion>): (r: seq<DocumentVersion>)
    ensures Descending(r)
    ensures multiset(r) == multiset(s)
    ensures |r| == |s|
    decreases |s|
  {
    if s == [] then []
    else
      var n := |s|;
      assert s == s[..n - 1] + [s[n - 1]];
      InsertDescendingSorted(SortDescending(s[..n - 1]), s[n - 1]);
      InsertDescendingElements(SortDescending(s[..n - 1]), s[n - 1]);
      InsertDescending(SortDescending(s[..n - 1]), s[n - 1])
  }

  /** The size of an `OFFSET skip LIMIT limit` page of `n` rows: at most `limit`, and none past the end. */
  function PageLength(n: nat, skip: nat, limit: nat): nat {
    Min(limit, Max(0, n - skip))
  }

  /** SQL `OFFSET skip LIMIT limit`. */
  function Page<T>(s: seq<T>, skip: nat, limit: nat): (r: seq<T>)
    ensures |r| == Min(limit, Max(0, |s| - skip))
    ensures forall k :: 0 <= k < |r| ==> r[k] == s[skip + k]
    ensures forall x :: x in r ==> x in s
  {
    if skip >= |s| then [] else if limit >= |s| - skip then s[skip..] else s[skip..skip + limit]
  }

  /**
   * `get_versions`: the document's rows, most recent number first, after
   * skipping `skip` of them and keeping at most `limit`.
   */
  function ListVersions(rows: seq<DocumentVersion>, d: string, skip: nat, limit: nat): (page: seq<DocumentVersion>)
    ensures forall v :: v in page ==> v in rows && v.documentId == d
    ensures Descending(page)
    ensures |page| == PageLength(|ForDocument(rows, d)|, skip, limit)
    ensures forall k :: 0 <= k < |page| ==> page[k] == SortDescending(ForDocument(rows, d))[skip + k]
  {
    var all := SortDescending(ForDocument(rows, d));
    assert forall v :: v in all ==> v in multiset(all);
    Page(all, skip, limit)
  }

  // ---------------------------------------------------------------------------
  // Gap-free numbering
  // ---------------------------------------------------------------------------

  /** Each row's number is one more than the count of earlier rows of its document. */
  ghost predicate Numbered(rows: seq<DocumentVersion>) {
    forall i {:trigger ForDocument(rows[..i], rows[i].documentId)} ::
      0 <= i < |rows| ==> rows[i].versionNumber == |ForDocument(rows[..i], rows[i].documentId)| + 1
  }

  /** Appending the next number keeps the numbering gap-free. */
  lemma NumberedAppend(rows: seq<DocumentVersion>, v: DocumentVersion)
    requires Numbered(rows)
    requires v.versionNumber == |ForDocument(rows, v.documentId)| + 1
    ensures Numbered(rows + [v])
  {
    var rows' := rows + [v];
    forall i | 0 <= i < |rows'|
      ensures rows'[i].versionNumber == |ForDocument(rows'[..i], rows'[i].documentId)| + 1
    {
      if i < |rows| {
        assert rows'[..i] == rows[..i];
      } else {
        assert rows'[..i] == rows;
      }
    }
  }

  /** A prefix of a gap-free table is gap-free. */
  lemma NumberedPrefix(rows: seq<DocumentVersion>)
    requires Numbered(rows) && rows != []
    ensures Numbered(rows[..|rows| - 1])
  {
    var prefix := rows[..|rows| - 1];
    forall i | 0 <= i < |prefix|
      ensures prefix[i].versionNumber == |ForDocument(prefix[..i], prefix[i].documentId)| + 1
    {
      assert prefix[..i] == rows[..i];
    }
  }

  lemma ForDocumentUnfold(rows: seq<DocumentVersion>, d: string)
    requires rows != []
    ensures ForDocument(rows, d)
            == ForDocument(rows[..|rows| - 1], d) + if rows[|rows| - 1].documentId == d then [rows[|rows| - 1]] else []
  {
  }

  /** Counting 1, 2, ..., N and then appending N + 1 still counts 1, 2, .... */
  lemma CountingAppend(before: seq<DocumentVersion>, added: seq<DocumentVersion>)
    requires forall k :: 0 <= k < |before| ==> before[k].versionNumber == k + 1
    requires |added| <= 1 && forall v :: v in added ==> v.versionNumber == |before| + 1
    ensures forall k :: 0 <= k < |before + added| ==> (before + added)[k].versionNumber == k + 1
  {
    forall k | 0 <= k < |before + added| ensures (before + added)[k].versionNumber == k + 1 {
      if k >= |before| {
        assert (before + added)[k] == added[0];
      }
    }
  }

  /** In a gap-free table the document's rows, in insertion order, are numbered 1, 2, ..., N. */
  lemma {:induction false} NumberedForDocument(rows: seq<DocumentVersion>, d: string)
    requires Numbered(rows)
    ensures forall k :: 0 <= k < |ForDocument(rows, d)| ==> ForDocument(rows, d)[k].versionNumber == k + 1
    decreases |rows|
  {
    if rows != [] {
      var n := |rows|;
      var prefix := rows[..n - 1];
      NumberedPrefix(rows);
      NumberedForDocument(prefix, d);
      var last := rows[n - 1];
      ForDocumentUnfold(rows, d);
      assert last.versionNumber == |ForDocument(prefix, last.documentId)| + 1 by {
        assert rows[..n - 1] == prefix;
      }
      CountingAppend(ForDocument(prefix, d), if last.documentId == d then [last] else []);
    }
  }

  /** In a gap-free table the next number of a document is its row count plus one. */
  lemma NumberedNext(rows: seq<DocumentVersion>, d: string)
    requires Numbered(rows)
    ensures NextNumber(rows, d) == |ForDocument(rows, d)| + 1
  {
    var all := ForDocument(rows, d);
    NumberedForDocument(rows, d);
    var n := NextNumber(rows, d);
    if all != [] {
      var v :| v in rows && v.documentId == d && n == v.versionNumber + 1;
      assert v in all;
      var k :| 0 <= k < |all| && all[k] == v;
      assert n <= |all| + 1;
      assert all[|all| - 1] in rows;
      assert n > |all|;
    }
  }

  /** Sorting rows numbered 1..N in insertion order, largest first, reverses them. */
  lemma InsertDescendingFront(sorted: seq<DocumentVersion>, v: DocumentVersion)
    requires sorted == [] || v.versionNumber >= sorted[0].versionNumber
    ensures InsertDescending(sorted, v) == [v] + sorted
  {
  }

  /** The rows in reverse order. */
  function Reversed(s: seq<DocumentVersion>): (r: seq<DocumentVersion>)
    ensures |r| == |s|
    decreases |s|
  {
    if s == [] then [] else [s[|s| - 1]] + Reversed(s[..|s| - 1])
  }

  lemma {:induction false} ReversedAt(s: seq<DocumentVersion>)
    ensures forall k :: 0 <= k < |s| ==> Reversed(s)[k] == s[|s| - 1 - k]
    decreases |s|
  {
    if s != [] {
      var prefix := s[..|s| - 1];
      ReversedAt(prefix);
      PrependReversed(s, Reversed(prefix), Reversed(s));
    }
  }

  /** The last row followed by the other rows reversed is all rows reversed. */
  lemma PrependReversed(s: seq<DocumentVersion>, rest: seq<DocumentVersion>, r: seq<DocumentVersion>)
    requires s != [] && |rest| == |s| - 1 && r == [s[|s| - 1]] + rest
    requires forall k :: 0 <= k < |rest| ==> rest[k] == s[..|s| - 1][|s| - 2 - k]
    ensures forall k :: 0 <= k < |s| ==> r[k] == s[|s| - 1 - k]
  {
    forall k | 0 <= k < |s| ensures r[k] == s[|s| - 1 - k] {
      if k > 0 {
        assert r[k] == rest[k - 1];
      }
    }
  }

  lemma {:induction false} SortDescendingIsReversed(s: seq<DocumentVersion>)
    requires forall k :: 0 <= k < |s| ==> s[k].versionNumber == k + 1
    ensures SortDescending(s) == Reversed(s)
    decreases |s|
  {
    if s != [] {
      var n := |s|;
      var prefix := s[..n - 1];
      SortDescendingIsReversed(prefix);
      assert Reversed(prefix) != [] ==> Reversed(prefix)[0] == prefix[n - 2];
      assert s[n - 1].versionNumber == n;
      InsertDescendingFront(Reversed(prefix), s[n - 1]);
    }
  }

  /** Rows numbered 1, 2, ... in insertion order sort to the reverse order. */
  lemma SortDescendingOfAscending(s: seq<DocumentVersion>)
    requires forall k :: 0 <= k < |s| ==> s[k].versionNumber == k + 1
    ensures |SortDescending(s)| == |s|
    ensures forall k :: 0 <= k < |s| ==> SortDescending(s)[k] == s[|s| - 1 - k]
  {
    SortDescendingIsReversed(s);
    ReversedAt(s);
  }

  /**
   * In a gap-free table the full listing of a document is N, N-1, ..., 1:
   * no gaps, no repeats, most recent first.
   */
  lemma FullListingCountsDown(rows: seq<DocumentVersion>, d: string, limit: nat)
    requires Numbered(rows)
    requires limit >= |ForDocument(rows, d)|
    ensures var n := |ForDocument(rows, d)|;
            var page := ListVersions(rows, d, 0, limit);
            |page| == n && forall k :: 0 <= k < n ==> page[k].versionNumber == n - k
  {
    var all := ForDocument(rows, d);
    NumberedForDocument(rows, d);
    SortDescendingOfAscending(all);
  }

  /**
   * In a gap-free table, a page that skips `skip` rows lists the numbers
   * n - skip, n - skip - 1, ... of the document's n versions.
   */
  lemma PagedListingCountsDown(rows: seq<DocumentVersion>, d: string, skip: nat, limit: nat)
    requires Numbered(rows)
    ensures var n := |ForDocument(rows, d)|;
            var page := ListVersions(rows, d, skip, limit);
            |page| == PageLength(n, skip, limit) && forall k :: 0 <= k < |page| ==> page[k].versionNumber == n - skip - k
  {
    var all := ForDocument(rows, d);
    NumberedForDocument(rows, d);
    SortDescendingOfAscending(all);
  }
}
