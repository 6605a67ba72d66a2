/**
 * `ChunkingService` (backend/app/services/chunking.py): splitting a document's
 * text into overlapping windows, looking one up, searching them, and merging
 * them back into the text.
 *
 * A chunk's `metadata` dict always holds exactly `start`, `end` and `length`, so
 * the model makes those three fields of the chunk. The document's text is a
 * parameter: the source reads it through a placeholder.
 */
module Chunking {
  import opened Common

  /** The service's defaults: 1000 characters per chunk, 100 characters of overlap. */
  const DefaultChunkSize := 1000
  const DefaultOverlap := 100

  datatype Chunk = Chunk(
    id: string,
    documentId: string,
    content: string,
    index: int,
    totalChunks: int,
    start: int,
    end: int,
    length: int)

  /** Python's `x or default` on an optional int: absent and 0 both give the default. */
  function OrDefault(x: Option<int>, default: int): (r: int)
    ensures x.Some? && x.value != 0 ==> r == x.value
    ensures x.None? || x.value == 0 ==> r == default
  {
    if x.None? || x.value == 0 then default else x.value
  }

  /** Python's `s[i:j]` for non-negative bounds: both clamped to the text, empty when crossed. */
  function Slice(s: string, i: nat, j: nat): (r: string)
    ensures i <= j <= |s| ==> r == s[i..j]
    ensures |r| <= |s|
  {
    if i >= |s| || j <= i then [] else s[i..Min(j, |s|)]
  }

  /** Python's `s[k:]` for a non-negative `k`. */
  function Drop(s: string, k: nat): (r: string)
    ensures k <= |s| ==> r == s[k..]
    ensures k > |s| ==> r == []
  {
    if k >= |s| then [] else s[k..]
  }

  function DigitChar(d: nat): char
    requires d < 10
  {
    ('0' as int + d) as char
  }

  /** `str(n)` for a natural number. */
  function DecimalString(n: nat): string
    decreases n
  {
    if n < 10 then [DigitChar(n)] else DecimalString(n / 10) + [DigitChar(n % 10)]
  }

  function Last(cs: seq<Chunk>): Chunk
    requires cs != []
  {
    cs[|cs| - 1]
  }

  /** The id of chunk `i` of a document: `"<document id>_<i>"`. */
  function ChunkId(documentId: string, i: nat): string {
    documentId + "_" + DecimalString(i)
  }

  /** Chunk `i` of `total`, covering `content[start:end]`. */
  function MakeChunk(documentId: string, content: string, i: nat, total: nat, start: nat, end: nat): Chunk {
    var piece := Slice(content, start, end);
    Chunk(ChunkId(documentId, i), documentId, piece, i, total, start, end, |piece|)
  }

  // ---------------------------------------------------------------------------
  // The windows chunk_document produces
  // ---------------------------------------------------------------------------

  /**
   * The chunks produced from cursor `c` on, numbered from `i`, each recording
   * `total` as the chunk count: the window at `c` reaches back `overlap`
   * characters (not before 0) and forward `size` characters (not past the end),
   * and the next cursor is this window's end.
   */
  function ChunksFrom(documentId: string, content: string, size: int, overlap: int, c: nat, i: nat, total: nat): seq<Chunk>
    requires size > 0
    decreases |content| - c
  {
    if c >= |content| then []
    else
      var start: nat := if c - overlap > 0 then c - overlap else 0;
      var end: nat := Min(|content|, c + size);
      [MakeChunk(documentId, content, i, total, start, end)] + ChunksFrom(documentId, content, size, overlap, end, i + 1, total)
  }

  lemma ChunksFromUnfold(documentId: string, content: string, size: int, overlap: int, c: nat, i: nat, total: nat)
    requires size > 0 && c < |content|
    ensures ChunksFrom(documentId, content, size, overlap, c, i, total)
            == [MakeChunk(documentId, content, i, total, if c - overlap > 0 then c - overlap else 0, Min(|content|, c + size))]
               + ChunksFrom(documentId, content, size, overlap, Min(|content|, c + size), i + 1, total)
  {
  }

  /** How many windows there are from cursor `c` on. */
  function WindowCount(len: nat, size: int, c: nat): nat
    requires size > 0
    decreases len - c
  {
    if c >= len then 0 else 1 + WindowCount(len, size, Min(len, c + size))
  }

  /** The result of `chunk_document` with effective chunk size `size` and overlap `overlap`. */
  function Chunked(documentId: string, content: string, size: int, overlap: int): seq<Chunk>
    requires content == [] || size > 0
  {
    if content == [] then []
    else ChunksFrom(documentId, content, size, overlap, 0, 0, WindowCount(|content|, size, 0))
  }

  lemma {:induction false} ChunksFromLength(documentId: string, content: string, size: int, overlap: int, c: nat, i: nat, total: nat)
    requires size > 0
    ensures |ChunksFrom(documentId, content, size, overlap, c, i, total)| == WindowCount(|content|, size, c)
    decreases |content| - c
  {
    if c < |content| {
      ChunksFromLength(documentId, content, size, overlap, Min(|content|, c + size), i + 1, total);
    }
  }

  /** The chunks recorded with count `total` are those recorded with count 0, with `total` filled in. */
  lemma {:induction false} ChunksFromTotal(documentId: string, content: string, size: int, overlap: int, c: nat, i: nat, total: nat)
    requires size > 0
    ensures |ChunksFrom(documentId, content, size, overlap, c, i, total)| == |ChunksFrom(documentId, content, size, overlap, c, i, 0)|
    ensures forall k :: 0 <= k < |ChunksFrom(documentId, content, size, overlap, c, i, total)| ==>
              ChunksFrom(documentId, content, size, overlap, c, i, total)[k]
              == ChunksFrom(documentId, content, size, overlap, c, i, 0)[k].(totalChunks := total)
    decreases |content| - c
  {
    if c < |content| {
      ChunksFromTotal(documentId, content, size, overlap, Min(|content|, c + size), i + 1, total);
    }
  }

  /**
   * `ch` is the window `content[start:end]` of the text: `0 <= start <= end <= len`,
   * its recorded length is `end - start`, and that is at most `size + overlap`.
   */
  predicate IsWindow(ch: Chunk, content: string, size: int, overlap: int) {
    && 0 <= ch.start <= ch.end <= |content|
    && ch.content == content[ch.start..ch.end]
    && ch.length == ch.end - ch.start <= size + overlap
  }

  /** `ch` is chunk number `pos` of document `documentId`, out of `total`. */
  predicate IsNumbered(ch: Chunk, documentId: string, pos: nat, total: int) {
    && ch.index == pos
    && ch.id == ChunkId(documentId, pos)
    && ch.documentId == documentId
    && ch.totalChunks == total
  }

  /**
   * With a non-negative overlap every chunk from cursor `c` on is a window of the
   * text ending at or after `c`, numbered by its position counted from `i`.
   */
  /** The window at cursor `c` is well formed, is numbered `i`, and ends at or after `c`. */
  lemma FirstWindow(documentId: string, content: string, size: int, overlap: int, c: nat, i: nat, total: nat)
    requires size > 0 && overlap >= 0 && c < |content|
    ensures var start: nat := if c - overlap > 0 then c - overlap else 0;
            var ch := MakeChunk(documentId, content, i, total, start, Min(|content|, c + size));
            IsWindow(ch, content, size, overlap) && IsNumbered(ch, documentId, i, total) && c <= ch.end
  {
  }

  lemma {:induction false} ChunksFromWellFormed(documentId: string, content: string, size: int, overlap: int, c: nat, i: nat, total: nat)
    requires size > 0 && overlap >= 0 && c <= |content|
    ensures forall k :: 0 <= k < |ChunksFrom(documentId, content, size, overlap, c, i, total)| ==>
              && IsWindow(ChunksFrom(documentId, content, size, overlap, c, i, total)[k], content, size, overlap)
              && IsNumbered(ChunksFrom(documentId, content, size, overlap, c, i, total)[k], documentId, i + k, total)
              && c <= ChunksFrom(documentId, content, size, overlap, c, i, total)[k].end
    decreases |content| - c
  {
    if c < |content| {
      var end := Min(|content|, c + size);
      var cs := ChunksFrom(documentId, content, size, overlap, c, i, total);
      var rest := ChunksFrom(documentId, content, size, overlap, end, i + 1, total);
      ChunksFromWellFormed(documentId, content, size, overlap, end, i + 1, total);
      ChunksFromUnfold(documentId, content, size, overlap, c, i, total);
      FirstWindow(documentId, content, size, overlap, c, i, total);
      forall k | 1 <= k < |cs|
        ensures IsWindow(cs[k], content, size, overlap) && IsNumbered(cs[k], documentId, i + k, total) && c <= cs[k].end
      {
        assert cs[k] == rest[k - 1];
        assert IsNumbered(rest[k - 1], documentId, i + 1 + (k - 1), total);
      }
    }
  }

  /** The last chunk from a cursor before the end of the text ends at the end of the text. */
  lemma {:induction false} ChunksFromLastEnd(documentId: string, content: string, size: int, overlap: int, c: nat, i: nat, total: nat)
    requires size > 0 && c < |content|
    ensures ChunksFrom(documentId, content, size, overlap, c, i, total) != []
    ensures Last(ChunksFrom(documentId, content, size, overlap, c, i, total)).end == |content|
    decreases |content| - c
  {
    var end := Min(|content|, c + size);
    if end < |content| {
      ChunksFromLastEnd(documentId, content, size, overlap, end, i + 1, total);
    }
  }

  /**
   * Chunking properties: empty text gives no chunks; otherwise the chunks are
   * numbered 0..n-1 with n recorded in each, each is the window
   * `content[start:end]` of length `end - start <= size + overlap`, and the last
   * one ends at the end of the text.
   */
  lemma ChunkedShape(documentId: string, content: string, size: int, overlap: int)
    requires size > 0 && overlap >= 0
    ensures content == [] ==> Chunked(documentId, content, size, overlap) == []
    ensures forall k :: 0 <= k < |Chunked(documentId, content, size, overlap)| ==>
              && IsWindow(Chunked(documentId, content, size, overlap)[k], content, size, overlap)
              && IsNumbered(Chunked(documentId, content, size, overlap)[k], documentId, k, |Chunked(documentId, content, size, overlap)|)
    ensures content != [] ==>
              Chunked(documentId, content, size, overlap) != [] && Last(Chunked(documentId, content, size, overlap)).end == |content|
  {
    if content != [] {
      var n := WindowCount(|content|, size, 0);
      ChunksFromWellFormed(documentId, content, size, overlap, 0, 0, n);
      ChunksFromLength(documentId, content, size, overlap, 0, 0, n);
      ChunksFromLastEnd(documentId, content, size, overlap, 0, 0, n);
    }
  }

  /** One turn of the chunking loop: the window at the cursor moves from the pending chunks to the produced ones. */
  lemma ChunkStep(documentId: string, content: string, size: int, overlap: int, chunks: seq<Chunk>, c: nat)
    requires size > 0 && c < |content|
    ensures var end := Min(|content|, c + size);
            chunks + ChunksFrom(documentId, content, size, overlap, c, |chunks|, 0)
            == (chunks + [MakeChunk(documentId, content, |chunks|, 0, if c - overlap > 0 then c - overlap else 0, end)])
               + ChunksFrom(documentId, content, size, overlap, end, |chunks| + 1, 0)
  {
    ChunksFromUnfold(documentId, content, size, overlap, c, |chunks|, 0);
  }

  /** The last loop of `chunk_document`: every chunk records the number of chunks. */
  method RecordTotal(chunks: seq<Chunk>) returns (r: seq<Chunk>)
    ensures |r| == |chunks|
    ensures forall k :: 0 <= k < |r| ==> r[k] == chunks[k].(totalChunks := |chunks|)
  {
    r := chunks;
    var n := |chunks|;
    for i := 0 to n
      invariant |r| == n
      invariant forall k :: 0 <= k < i ==> r[k] == chunks[k].(totalChunks := n)
      invariant forall k :: i <= k < n ==> r[k] == chunks[k]
    {
      r := r[i := r[i].(totalChunks := n)];
    }
  }

  /**
   * `chunk_document`: the chunks of `content` with the given chunk size and
   * overlap, each falling back to the service default when absent or 0. The
   * source's loop only ends when the effective chunk size is positive or the
   * text is empty.
   */
  method ChunkDocument(documentId: string, content: string, chunkSize: Option<int>, overlap: Option<int>)
    returns (chunks: seq<Chunk>)
    requires content == [] || OrDefault(chunkSize, DefaultChunkSize) > 0
    ensures chunks == Chunked(documentId, content, OrDefault(chunkSize, DefaultChunkSize), OrDefault(overlap, DefaultOverlap))
  {
    var size := OrDefault(chunkSize, DefaultChunkSize);
    var back := OrDefault(overlap, DefaultOverlap);
    chunks := [];
    var totalLength := |content|;
    var current: nat := 0;
    ghost var step := if size > 0 then size else 1;
    while current < totalLength
      invariant current <= totalLength
      invariant content != [] ==> step == size
      invariant chunks + ChunksFrom(documentId, content, step, back, current, |chunks|, 0)
                == ChunksFrom(documentId, content, step, back, 0, 0, 0)
      decreases totalLength - current
    {
      var start: nat := if current - back > 0 then current - back else 0;
      var end: nat := Min(totalLength, current + size);
      var chunk := MakeChunk(documentId, content, |chunks|, 0, start, end);
      ChunkStep(documentId, content, size, back, chunks, current);
      chunks := chunks + [chunk];
      current := end;
    }
    if content == [] {
      return;
    }
    assert chunks == ChunksFrom(documentId, content, size, back, 0, 0, 0);
    ghost var counted := chunks;
    chunks := RecordTotal(chunks);
    TotalsRecorded(documentId, content, size, back, counted, chunks);
  }

  /** Filling the chunk count into every window gives the chunking. */
  lemma TotalsRecorded(documentId: string, content: string, size: int, overlap: int, counted: seq<Chunk>, r: seq<Chunk>)
    requires content != [] && size > 0
    requires counted == ChunksFrom(documentId, content, size, overlap, 0, 0, 0)
    requires |r| == |counted| && forall k :: 0 <= k < |r| ==> r[k] == counted[k].(totalChunks := |counted|)
    ensures r == Chunked(documentId, content, size, overlap)
  {
    ChunksFromLength(documentId, content, size, overlap, 0, 0, 0);
    ChunksFromTotal(documentId, content, size, overlap, 0, 0, |r|);
  }

  /** `get_chunk`: chunk `chunkIndex` of the default chunking, or nothing when out of range. */
  method GetChunk(documentId: string, content: string, chunkIndex: int) returns (r: Option<Chunk>)
    ensures var cs := Chunked(documentId, content, DefaultChunkSize, DefaultOverlap);
            && (0 <= chunkIndex < |cs| ==> r == Some(cs[chunkIndex]))
            && (!(0 <= chunkIndex < |cs|) ==> r == None)
  {
    var chunks := ChunkDocument(documentId, content, None, None);
    if 0 <= chunkIndex < |chunks| {
      return Some(chunks[chunkIndex]);
    }
    return None;
  }

  // ---------------------------------------------------------------------------
  // Search
  // ---------------------------------------------------------------------------

  /** `str.lower` on ASCII letters. */
  function LowerChar(c: char): char {
    if 'A' <= c <= 'Z' then (c as int + 32) as char else c
  }

  function Lower(s: string): (r: string)
    ensures |r| == |s| && forall k :: 0 <= k < |s| ==> r[k] == LowerChar(s[k])
  {
    seq(|s|, k requires 0 <= k < |s| => LowerChar(s[k]))
  }

  /** Python's `needle in haystack` on strings. */
  predicate Contains(haystack: string, needle: string)
    decreases |haystack|
  {
    StartsWith(haystack, needle) || (haystack != [] && Contains(haystack[1..], needle))
  }

  /** `needle` occurs in `haystack` at offset `p`. */
  predicate OccursAt(haystack: string, needle: string, p: int) {
    0 <= p && p + |needle| <= |haystack| && haystack[p..p + |needle|] == needle
  }

  /** `Contains` holds exactly when the needle occurs at some offset of the haystack. */
  lemma {:induction false} ContainsOccurs(haystack: string, needle: string)
    ensures Contains(haystack, needle) <==> exists p :: OccursAt(haystack, needle, p)
    decreases |haystack|
  {
    if haystack == [] {
      if Contains(haystack, needle) {
        assert OccursAt(haystack, needle, 0);
      }
      if exists p :: OccursAt(haystack, needle, p) {
        var p :| OccursAt(haystack, needle, p);
        assert needle == [];
        assert StartsWith(haystack, needle);
      }
    } else {
      var tail := haystack[1..];
      ContainsOccurs(tail, needle);
      if StartsWith(haystack, needle) {
        assert OccursAt(haystack, needle, 0);
      } else if Contains(tail, needle) {
        var p :| OccursAt(tail, needle, p);
        assert haystack[p + 1..p + 1 + |needle|] == tail[p..p + |needle|];
        assert OccursAt(haystack, needle, p + 1);
      }
      if exists p :: OccursAt(haystack, needle, p) {
        var p :| OccursAt(haystack, needle, p);
        if p > 0 {
          assert tail[p - 1..p - 1 + |needle|] == haystack[p..p + |needle|];
          assert OccursAt(tail, needle, p - 1);
        } else {
          assert StartsWith(haystack, needle);
        }
      }
    }
  }

  predicate MatchesQuery(chunk: Chunk, query: string) {
    Contains(Lower(chunk.content), Lower(query))
  }

  /** The chunks whose lowercased content contains the lowercased query, in order. */
  function Matching(chunks: seq<Chunk>, query: string): (r: seq<Chunk>)
    ensures |r| <= |chunks|
    ensures forall x :: x in r ==> x in chunks && MatchesQuery(x, query)
    ensures forall k :: 0 <= k < |chunks| && MatchesQuery(chunks[k], query) ==> chunks[k] in r
    decreases |chunks|
  {
    if chunks == [] then []
    else
      var n := |chunks|;
      assert chunks == chunks[..n - 1] + [chunks[n - 1]];
      Matching(chunks[..n - 1], query) + (if MatchesQuery(chunks[n - 1], query) then [chunks[n - 1]] else [])
  }

  /** Scanning one more chunk appends it exactly when it matches. */
  lemma MatchingStep(chunks: seq<Chunk>, i: nat, query: string)
    requires i < |chunks|
    ensures Matching(chunks[..i + 1], query)
            == Matching(chunks[..i], query) + if MatchesQuery(chunks[i], query) then [chunks[i]] else []
  {
    assert chunks[..i + 1][..i] == chunks[..i];
  }

  /** `search_chunks`: the default chunks that contain the query, ignoring ASCII case, in order. */
  method SearchChunks(documentId: string, content: string, query: string) returns (matching: seq<Chunk>)
    ensures matching == Matching(Chunked(documentId, content, DefaultChunkSize, DefaultOverlap), query)
  {
    var chunks := ChunkDocument(documentId, content, None, None);
    matching := [];
    var lowered := Lower(query);
    for i := 0 to |chunks|
      invariant matching == Matching(chunks[..i], query)
    {
      MatchingStep(chunks, i, query);
      if Contains(Lower(chunks[i].content), lowered) {
        matching := matching + [chunks[i]];
      }
    }
    assert chunks[..|chunks|] == chunks;
  }

  // ---------------------------------------------------------------------------
  // Merge
  // ---------------------------------------------------------------------------

  predicate SortedByIndex(s: seq<Chunk>) {
    forall i, j :: 0 <= i < j < |s| ==> s[i].index <= s[j].index
  }

  /** Two chunks with the same index are the same chunk. */
  predicate IndexDetermines(s: seq<Chunk>) {
    forall x, y :: x in s && y in s && x.index == y.index ==> x == y
  }

  /** `v` placed after every chunk whose index is not larger than its own. */
  function InsertByIndex(sorted: seq<Chunk>, v: Chunk): seq<Chunk>
    decreases |sorted|
  {
    if sorted == [] || v.index < sorted[0].index then [v] + sorted
    else [sorted[0]] + InsertByIndex(sorted[1..], v)
  }

  lemma {:induction false} InsertByIndexElements(sorted: seq<Chunk>, v: Chunk)
    ensures multiset(InsertByIndex(sorted, v)) == multiset(sorted) + multiset{v}
    decreases |sorted|
  {
    if sorted != [] && v.index >= sorted[0].index {
      assert sorted == [sorted[0]] + sorted[1..];
      InsertByIndexElements(sorted[1..], v);
    }
  }

  /** Inserting a chunk whose index is at least `head`'s into a list that `head` bounds keeps the bound. */
  lemma InsertKeepsBound(head: Chunk, tail: seq<Chunk>, v: Chunk)
    requires forall j :: 0 <= j < |tail| ==> head.index <= tail[j].index
    requires head.index <= v.index
    ensures forall j :: 0 <= j < |InsertByIndex(tail, v)| ==> head.index <= InsertByIndex(tail, v)[j].index
  {
    InsertByIndexElements(tail, v);
    var rest := InsertByIndex(tail, v);
    forall j | 0 <= j < |rest| ensures head.index <= rest[j].index {
      assert rest[j] in multiset(rest);
      if rest[j] != v {
        assert rest[j] in multiset(tail);
      }
    }
  }

  /** A chunk bounding a sorted list, put in front of it, gives a sorted list. */
  lemma ConsSorted(head: Chunk, rest: seq<Chunk>)
    requires SortedByIndex(rest)
    requires forall j :: 0 <= j < |rest| ==> head.index <= rest[j].index
    ensures SortedByIndex([head] + rest)
  {
    var r := [head] + rest;
    forall i, j | 0 <= i < j < |r| ensures r[i].index <= r[j].index {
      assert r[j] == rest[j - 1];
      if i > 0 {
        assert r[i] == rest[i - 1];
      }
    }
  }

  lemma {:induction false} InsertByIndexSorted(sorted: seq<Chunk>, v: Chunk)
    requires SortedByIndex(sorted)
    ensures SortedByIndex(InsertByIndex(sorted, v))
    decreases |sorted|
  {
    if sorted != [] && v.index >= sorted[0].index {
      var head, tail := sorted[0], sorted[1..];
      InsertByIndexSorted(tail, v);
      assert forall j :: 0 <= j < |tail| ==> head.index <= tail[j].index by {
        forall j | 0 <= j < |tail| ensures head.index <= tail[j].index {
          assert tail[j] == sorted[j + 1];
        }
      }
      InsertKeepsBound(head, tail, v);
      ConsSorted(head, InsertByIndex(tail, v));
    }
  }

  /** `sorted(chunks, key=lambda x: x.index)`. */
  function SortByIndex(s: seq<Chunk>): (r: seq<Chunk>)
    ensures SortedByIndex(r)
    ensures multiset(r) == multiset(s)
    decreases |s|
  {
    if s == [] then []
    else
      var n := |s|;
      assert s == s[..n - 1] + [s[n - 1]];
      InsertByIndexSorted(SortByIndex(s[..n - 1]), s[n - 1]);
      InsertByIndexElements(SortByIndex(s[..n - 1]), s[n - 1]);
      InsertByIndex(SortByIndex(s[..n - 1]), s[n - 1])
  }

  /** Index-sorted lists with the same chunks, where an index determines its chunk, start alike. */
  lemma SortedHeads(a: seq<Chunk>, b: seq<Chunk>)
    requires SortedByIndex(a) && SortedByIndex(b)
    requires multiset(a) == multiset(b)
    requires IndexDetermines(a)
    requires a != [] && b != []
    ensures a[0] == b[0]
  {
    assert a[0] in multiset(b) && b[0] in multiset(a);
    var j :| 0 <= j < |b| && b[j] == a[0];
    var i :| 0 <= i < |a| && a[i] == b[0];
    assert a[0].index <= a[i].index == b[0].index <= b[j].index == a[0].index;
    assert a[i] in a;
  }

  lemma MultisetOfTail(s: seq<Chunk>)
    requires s != []
    ensures multiset(s[1..]) == multiset(s) - multiset{s[0]}
  {
    assert s == [s[0]] + s[1..];
    assert multiset(s) == multiset([s[0]]) + multiset(s[1..]);
  }

  /** Dropping the first chunk keeps a list sorted and keeps indexes determining chunks. */
  lemma TailIndexed(a: seq<Chunk>)
    requires a != [] && SortedByIndex(a) && IndexDetermines(a)
    ensures SortedByIndex(a[1..]) && IndexDetermines(a[1..])
  {
    forall x, y | x in a[1..] && y in a[1..] && x.index == y.index ensures x == y {
      assert x in a && y in a;
    }
  }

  /**
   * Two index-sorted lists holding the same chunks, where an index determines its
   * chunk, are the same list.
   */
  lemma {:induction false} SortedUnique(a: seq<Chunk>, b: seq<Chunk>)
    requires SortedByIndex(a) && SortedByIndex(b)
    requires multiset(a) == multiset(b)
    requires IndexDetermines(a)
    ensures a == b
    decreases |a|
  {
    assert |a| == |multiset(a)| == |b|;
    if a != [] {
      SortedTails(a, b);
      SortedUnique(a[1..], b[1..]);
      ConsEqual(a, b);
    }
  }

  /** Under the hypotheses of `SortedUnique`, the lists start alike and their tails meet the hypotheses again. */
  lemma SortedTails(a: seq<Chunk>, b: seq<Chunk>)
    requires SortedByIndex(a) && SortedByIndex(b)
    requires multiset(a) == multiset(b)
    requires IndexDetermines(a)
    requires a != [] && b != []
    ensures a[0] == b[0]
    ensures SortedByIndex(a[1..]) && SortedByIndex(b[1..]) && IndexDetermines(a[1..])
    ensures multiset(a[1..]) == multiset(b[1..])
  {
    SortedHeads(a, b);
    MultisetOfTail(a);
    MultisetOfTail(b);
    TailIndexed(a);
    assert SortedByIndex(b[1..]);
  }

  lemma ConsEqual(a: seq<Chunk>, b: seq<Chunk>)
    requires a != [] && b != [] && a[0] == b[0] && a[1..] == b[1..]
    ensures a == b
  {
    assert a == [a[0]] + a[1..];
    assert b == [b[0]] + b[1..];
  }

  /**
   * The merge of index-sorted chunks after position `lastEnd`: a chunk that
   * starts after `lastEnd` contributes all its content, otherwise only the part
   * past the `lastEnd - start` characters already merged.
   */
  function MergeFrom(sorted: seq<Chunk>, lastEnd: int): string
    decreases |sorted|
  {
    if sorted == [] then [] else Piece(sorted[0], lastEnd) + MergeFrom(sorted[1..], sorted[0].end)
  }

  /** What chunk `c` adds to a merge that has reached `lastEnd`. */
  function Piece(c: Chunk, lastEnd: int): string {
    if c.start > lastEnd then c.content else Drop(c.content, lastEnd - c.start)
  }

  /** One step of the merge loop keeps what remains to be merged in step with what is merged. */
  lemma MergeLoopStep(merged: string, sorted: seq<Chunk>, i: nat, lastEnd: int)
    requires i < |sorted|
    ensures merged + MergeFrom(sorted[i..], lastEnd)
            == (merged + Piece(sorted[i], lastEnd)) + MergeFrom(sorted[i + 1..], sorted[i].end)
  {
    MergeFromStep(sorted, i, lastEnd);
  }

  lemma MergeFromStep(sorted: seq<Chunk>, i: nat, lastEnd: int)
    requires i < |sorted|
    ensures MergeFrom(sorted[i..], lastEnd) == Piece(sorted[i], lastEnd) + MergeFrom(sorted[i + 1..], sorted[i].end)
  {
    assert sorted[i..][1..] == sorted[i + 1..];
  }

  /** What `merge_chunks` returns for `chunks`. */
  function Merged(chunks: seq<Chunk>): string {
    MergeFrom(SortByIndex(chunks), 0)
  }

  /** `merge_chunks`: the chunks' contents, ordered by index, with each overlap taken once. */
  method MergeChunks(chunks: seq<Chunk>) returns (merged: string)
    ensures merged == Merged(chunks)
  {
    var sorted := SortByIndex(chunks);
    merged := "";
    var lastEnd := 0;
    for i := 0 to |sorted|
      invariant merged + MergeFrom(sorted[i..], lastEnd) == MergeFrom(sorted, 0)
    {
      var chunk := sorted[i];
      MergeLoopStep(merged, sorted, i, lastEnd);
      ghost var before, piece := merged, Piece(chunk, lastEnd);
      var start := chunk.start;
      var end := chunk.end;
      if start > lastEnd {
        merged := merged + chunk.content;
      } else {
        var overlapLength := lastEnd - start;
        merged := merged + Drop(chunk.content, overlapLength);
      }
      lastEnd := end;
      assert merged == before + piece;
    }
    assert sorted[|sorted|..] == [];
  }

  /** Merging does not depend on the order the chunks are given in, when an index determines its chunk. */
  lemma MergeIgnoresOrder(a: seq<Chunk>, b: seq<Chunk>)
    requires multiset(a) == multiset(b)
    requires IndexDetermines(a)
    ensures Merged(a) == Merged(b)
  {
    var sa, sb := SortByIndex(a), SortByIndex(b);
    assert IndexDetermines(sa) by {
      forall x, y | x in sa && y in sa && x.index == y.index ensures x == y {
        assert x in multiset(sa) && y in multiset(sa);
        assert x in multiset(a) && y in multiset(a);
      }
    }
    SortedUnique(sa, sb);
  }

  /** The window at cursor `c` adds exactly the text from `c` to the window's end. */
  lemma WindowPiece(documentId: string, content: string, size: int, overlap: int, c: nat, i: nat, total: nat)
    requires size > 0 && overlap >= 0 && c < |content|
    ensures var start: nat := if c - overlap > 0 then c - overlap else 0;
            var end := Min(|content|, c + size);
            Piece(MakeChunk(documentId, content, i, total, start, end), c) == content[c..end]
  {
    var start: nat := if c - overlap > 0 then c - overlap else 0;
    var end := Min(|content|, c + size);
    assert Drop(content[start..end], c - start) == content[c..end];
  }

  lemma MergeFromCons(head: Chunk, rest: seq<Chunk>, lastEnd: int)
    ensures MergeFrom([head] + rest, lastEnd) == Piece(head, lastEnd) + MergeFrom(rest, head.end)
  {
    assert ([head] + rest)[1..] == rest;
  }

  /** Merging the chunks from cursor `c` on, after `c` characters, restores the text from `c` on. */
  lemma {:induction false} MergeChunksFrom(documentId: string, content: string, size: int, overlap: int, c: nat, i: nat, total: nat)
    requires size > 0 && overlap >= 0 && c <= |content|
    ensures MergeFrom(ChunksFrom(documentId, content, size, overlap, c, i, total), c) == content[c..]
    decreases |content| - c
  {
    if c < |content| {
      var start: nat := if c - overlap > 0 then c - overlap else 0;
      var end: nat := Min(|content|, c + size);
      var head := MakeChunk(documentId, content, i, total, start, end);
      var rest := ChunksFrom(documentId, content, size, overlap, end, i + 1, total);
      ChunksFromUnfold(documentId, content, size, overlap, c, i, total);
      MergeChunksFrom(documentId, content, size, overlap, end, i + 1, total);
      MergeFromCons(head, rest, c);
      WindowPiece(documentId, content, size, overlap, c, i, total);
      assert content[c..end] + content[end..] == content[c..];
    }
  }

  /** The chunks of a text have distinct indexes and come sorted by index. */
  lemma ChunkedIndexed(documentId: string, content: string, size: int, overlap: int)
    requires size > 0 && overlap >= 0
    ensures SortedByIndex(Chunked(documentId, content, size, overlap))
    ensures IndexDetermines(Chunked(documentId, content, size, overlap))
  {
    var cs := Chunked(documentId, content, size, overlap);
    ChunkedShape(documentId, content, size, overlap);
    forall x, y | x in cs && y in cs && x.index == y.index ensures x == y {
      var p :| 0 <= p < |cs| && cs[p] == x;
      var q :| 0 <= q < |cs| && cs[q] == y;
    }
  }

  /**
   * Round trip: with a positive chunk size and a non-negative overlap, merging
   * the chunks of a text, given in any order, gives back the text.
   */
  lemma ChunkRoundTrip(documentId: string, content: string, size: int, overlap: int, shuffled: seq<Chunk>)
    requires size > 0 && overlap >= 0
    requires multiset(shuffled) == multiset(Chunked(documentId, content, size, overlap))
    ensures Merged(shuffled) == content
  {
    var cs := Chunked(documentId, content, size, overlap);
    ChunkedIndexed(documentId, content, size, overlap);
    SortedUnique(cs, SortByIndex(cs));
    MergeIgnoresOrder(cs, shuffled);
    if content != [] {
      MergeChunksFrom(documentId, content, size, overlap, 0, 0, WindowCount(|content|, size, 0));
    }
  }
}
