/**
 * The line diff of `generate_diff` (backend/app/utils/diff.py) and the line
 * comparison it is built on.
 *
 * The comparison itself (`difflib.Differ.compare`) is modelled abstractly: it
 * yields an alignment of the two line lists, a sequence of `Same`, `Add` and
 * `Del` operations whose `Same`+`Del` lines are the first text's lines and whose
 * `Same`+`Add` lines are the second text's lines (plus `Hint` lines, which the
 * real Differ may emit and which carry no line of either text). `Compare` is one
 * such alignment, a longest-common-subsequence one.
 */
module LineDiff {
  import opened Common

  // ---------------------------------------------------------------------------
  // Splitting a text into lines
  // ---------------------------------------------------------------------------

  /** The lines joined back with a '\n' between each two. */
  function JoinLines(lines: seq<string>): string
    decreases |lines|
  {
    if |lines| == 0 then ""
    else if |lines| == 1 then lines[0]
    else lines[0] + "\n" + JoinLines(lines[1..])
  }

  /** The pieces of `s` between its '\n' characters (always at least one piece). */
  function Segments(s: string): (pieces: seq<string>)
    ensures |pieces| >= 1
    ensures forall k :: 0 <= k < |pieces| ==> '\n' !in pieces[k]
    ensures JoinLines(pieces) == s
    decreases |s|
  {
    if s == [] then [""]
    else
      var rest := Segments(s[1..]);
      if s[0] == '\n' then
        assert JoinLines([""] + rest) == "\n" + JoinLines(rest) by {
          assert ([""] + rest)[1..] == rest;
        }
        [""] + rest
      else
        var first := [s[0]] + rest[0];
        assert JoinLines([first] + rest[1..]) == [s[0]] + JoinLines(rest) by {
          if |rest| > 1 {
            assert ([first] + rest[1..])[1..] == rest[1..];
          }
        }
        [first] + rest[1..]
  }

  /**
   * Python's `text.splitlines()`, with '\n' as the only line boundary: the empty
   * text has no lines, and a final '\n' does not open an empty last line.
   */
  function SplitLines(text: string): (lines: seq<string>)
    ensures forall k :: 0 <= k < |lines| ==> '\n' !in lines[k]
    ensures text == "" ==> lines == []
    ensures text != "" ==>
              |lines| >= 1 && text == JoinLines(lines) + (if text[|text| - 1] == '\n' then "\n" else "")
  {
    if text == [] then []
    else if text[|text| - 1] == '\n' then
      assert text == text[..|text| - 1] + "\n";
      Segments(text[..|text| - 1])
    else Segments(text)
  }

  // ---------------------------------------------------------------------------
  // Alignments
  // ---------------------------------------------------------------------------

  /** One line of a comparison: common, added, deleted, or a `? ` hint line. */
  datatype Op = Same(line: string) | Add(line: string) | Del(line: string) | Hint(line: string)

  /** The first text's lines, as the comparison lists them. */
  function OldSide(ops: seq<Op>): seq<string>
    decreases |ops|
  {
    if ops == [] then []
    else
      (match ops[0]
       case Same(l) => [l]
       case Del(l) => [l]
       case _ => []) + OldSide(ops[1..])
  }

  /** The second text's lines, as the comparison lists them. */
  function NewSide(ops: seq<Op>): seq<string>
    decreases |ops|
  {
    if ops == [] then []
    else
      (match ops[0]
       case Same(l) => [l]
       case Add(l) => [l]
       case _ => []) + NewSide(ops[1..])
  }

  /** `ops` turns the lines `a` into the lines `b`. */
  ghost predicate Aligns(ops: seq<Op>, a: seq<string>, b: seq<string>) {
    OldSide(ops) == a && NewSide(ops) == b
  }

  function SameCount(ops: seq<Op>): nat
    decreases |ops|
  {
    if ops == [] then 0 else (if ops[0].Same? then 1 else 0) + SameCount(ops[1..])
  }

  /**
   * A line alignment of `a` against `b` keeping as many common lines as
   * possible; on a tie a deletion is listed before an addition, as Differ does.
   */
  function Compare(a: seq<string>, b: seq<string>): (ops: seq<Op>)
    ensures Aligns(ops, a, b)
    ensures forall k :: 0 <= k < |ops| ==> !ops[k].Hint?
    decreases |a| + |b|
  {
    if |a| == 0 && |b| == 0 then []
    else if |a| == 0 then
      var rest := Compare(a, b[1..]);
      assert ([Add(b[0])] + rest)[1..] == rest;
      [Add(b[0])] + rest
    else if |b| == 0 then
      var rest := Compare(a[1..], b);
      assert ([Del(a[0])] + rest)[1..] == rest;
      [Del(a[0])] + rest
    else if a[0] == b[0] then
      var rest := Compare(a[1..], b[1..]);
      assert ([Same(a[0])] + rest)[1..] == rest;
      [Same(a[0])] + rest
    else
      var dropA := Compare(a[1..], b);
      var dropB := Compare(a, b[1..]);
      assert ([Del(a[0])] + dropA)[1..] == dropA;
      assert ([Add(b[0])] + dropB)[1..] == dropB;
      if SameCount(dropA) >= SameCount(dropB) then [Del(a[0])] + dropA else [Add(b[0])] + dropB
  }

  /** Comparing a line list with itself keeps every line as common, in order. */
  lemma {:induction false} CompareSelf(a: seq<string>)
    ensures |Compare(a, a)| == |a|
    ensures forall k :: 0 <= k < |a| ==> Compare(a, a)[k] == Same(a[k])
    decreases |a|
  {
    if |a| > 0 {
      CompareSelf(a[1..]);
    }
  }

  /** The same alignment read in the other direction: additions and deletions swap. */
  function Invert(ops: seq<Op>): (inv: seq<Op>)
    ensures |inv| == |ops|
    decreases |ops|
  {
    if ops == [] then []
    else
      [match ops[0]
       case Add(l) => Del(l)
       case Del(l) => Add(l)
       case other => other] + Invert(ops[1..])
  }

  /**
   * An alignment of `a` against `b`, inverted, is an alignment of `b` against
   * `a`, and the additions of one are the deletions of the other in the same order.
   */
  lemma {:induction false} InvertAligns(ops: seq<Op>, a: seq<string>, b: seq<string>)
    requires Aligns(ops, a, b)
    ensures Aligns(Invert(ops), b, a)
    ensures forall k :: 0 <= k < |ops| ==> (ops[k].Add? <==> Invert(ops)[k].Del?) && Invert(ops)[k].line == ops[k].line
    decreases |ops|
  {
    if ops != [] {
      var inv := Invert(ops);
      assert inv[1..] == Invert(ops[1..]);
      InvertAligns(ops[1..], OldSide(ops[1..]), NewSide(ops[1..]));
    }
  }

  /**
   * The comparison of `a` with `b`, read backwards, is a comparison of `b`
   * with `a`: every line `generate_diff(a, b)` marks added is one that the
   * reverse comparison may mark deleted, and the other way round.
   */
  lemma CompareInverted(a: seq<string>, b: seq<string>)
    ensures Aligns(Invert(Compare(a, b)), b, a)
    ensures forall k :: 0 <= k < |Compare(a, b)| ==>
              (Compare(a, b)[k].Add? <==> Invert(Compare(a, b))[k].Del?) && Invert(Compare(a, b))[k].line == Compare(a, b)[k].line
  {
    InvertAligns(Compare(a, b), a, b);
  }

  // ---------------------------------------------------------------------------
  // The comparison as Differ prints it, and its formatting
  // ---------------------------------------------------------------------------

  /** Differ's textual form of one comparison line: a two-character tag and the line. */
  function Render(op: Op): string {
    match op
    case Same(l) => "  " + l
    case Add(l) => "+ " + l
    case Del(l) => "- " + l
    case Hint(l) => "? " + l
  }

  function RenderAll(ops: seq<Op>): (lines: seq<string>)
    ensures |lines| == |ops|
    ensures forall k :: 0 <= k < |ops| ==> lines[k] == Render(ops[k])
    decreases |ops|
  {
    if ops == [] then [] else RenderAll(ops[..|ops| - 1]) + [Render(ops[|ops| - 1])]
  }

  function AdditionSpan(text: string): string { "<span class='addition'>" + text + "</span>" }

  function DeletionSpan(text: string): string { "<span class='deletion'>" + text + "</span>" }

  /** Python's `line[2:]`: the line without its first two characters, empty when shorter. */
  function DropTag(line: string): string { if |line| < 2 then "" else line[2..] }

  /** What the formatting loop appends for one comparison line; `None` when it skips it. */
  function FormatLine(line: string): Option<string> {
    if StartsWith(line, "+ ") then Some(AdditionSpan(line[2..]))
    else if StartsWith(line, "- ") then Some(DeletionSpan(line[2..]))
    else if StartsWith(line, "? ") then None
    else Some(DropTag(line))
  }

  /** The formatted diff of a whole list of comparison lines. */
  function FormatLines(comparison: seq<string>): seq<string>
    decreases |comparison|
  {
    if comparison == [] then []
    else
      var prefix := FormatLines(comparison[..|comparison| - 1]);
      match FormatLine(comparison[|comparison| - 1])
      case Some(entry) => prefix + [entry]
      case None => prefix
  }

  /** The formatted entry that one comparison operation stands for (`None` for a hint). */
  function Entry(op: Op): Option<string> {
    match op
    case Same(l) => Some(l)
    case Add(l) => Some(AdditionSpan(l))
    case Del(l) => Some(DeletionSpan(l))
    case Hint(_) => None
  }

  /** The formatted diff, operation by operation: one entry per non-hint operation, in order. */
  function Entries(ops: seq<Op>): seq<string>
    decreases |ops|
  {
    if ops == [] then []
    else
      var prefix := Entries(ops[..|ops| - 1]);
      match Entry(ops[|ops| - 1])
      case Some(entry) => prefix + [entry]
      case None => prefix
  }

  function NonHintCount(ops: seq<Op>): nat
    decreases |ops|
  {
    if ops == [] then 0 else NonHintCount(ops[..|ops| - 1]) + (if ops[|ops| - 1].Hint? then 0 else 1)
  }

  /**
   * The tag of each printed comparison line is recognised correctly: a `+ ` line
   * gives exactly one addition span and a `- ` line one deletion span around the
   * verbatim line text, a `? ` line gives nothing, and a common line gives its
   * text with the tag stripped.
   */
  lemma FormatLineOfRender(op: Op)
    ensures FormatLine(Render(op)) == Entry(op)
  {
    match op
    case Same(l) =>
      assert Render(op)[..2] == "  ";
      assert Render(op)[2..] == l;
    case Add(l) =>
      assert Render(op)[..2] == "+ ";
      assert Render(op)[2..] == l;
    case Del(l) =>
      assert Render(op)[..2] == "- ";
      assert Render(op)[2..] == l;
    case Hint(l) =>
      assert Render(op)[..2] == "? ";
  }

  /** Formatting the printed comparison gives, in order, the entry of every non-hint operation. */
  lemma {:induction false} FormatRendered(ops: seq<Op>)
    ensures FormatLines(RenderAll(ops)) == Entries(ops)
    ensures |Entries(ops)| == NonHintCount(ops)
    decreases |ops|
  {
    if ops != [] {
      var n := |ops|;
      FormatRendered(ops[..n - 1]);
      assert RenderAll(ops)[..n - 1] == RenderAll(ops[..n - 1]);
      FormatLineOfRender(ops[n - 1]);
    }
  }

  /** The formatted diff of two texts, as `generate_diff` returns it. */
  function DiffOf(text1: string, text2: string): seq<string> {
    Entries(Compare(SplitLines(text1), SplitLines(text2)))
  }

  /**
   * Formats a printed comparison line by line: additions and deletions are
   * wrapped in spans, hint lines are skipped, common lines lose their tag.
   */
  method FormatDiff(comparison: seq<string>) returns (formatted: seq<string>)
    ensures formatted == FormatLines(comparison)
  {
    formatted := [];
    var i := 0;
    while i < |comparison|
      invariant 0 <= i <= |comparison|
      invariant formatted == FormatLines(comparison[..i])
    {
      var line := comparison[i];
      assert comparison[..i + 1][..i] == comparison[..i];
      if StartsWith(line, "+ ") {
        formatted := formatted + [AdditionSpan(line[2..])];
      } else if StartsWith(line, "- ") {
        formatted := formatted + [DeletionSpan(line[2..])];
      } else if StartsWith(line, "? ") {
        // hint lines only point at changed characters
      } else {
        formatted := formatted + [DropTag(line)];
      }
      i := i + 1;
    }
    assert comparison[..i] == comparison;
  }

  /**
   * `generate_diff`: both texts are split into lines and compared, and the
   * comparison is formatted. The result is the formatted form of an alignment
   * whose common and deleted lines are the first text's lines and whose common
   * and added lines are the second text's lines.
   */
  method GenerateDiff(text1: string, text2: string) returns (formatted: seq<string>)
    ensures formatted == DiffOf(text1, text2)
    ensures exists ops :: Aligns(ops, SplitLines(text1), SplitLines(text2)) && formatted == Entries(ops)
  {
    var ops := Compare(SplitLines(text1), SplitLines(text2));
    var comparison := RenderAll(ops);
    formatted := FormatDiff(comparison);
    FormatRendered(ops);
  }

  /** Diffing a text against itself marks nothing: the result is the text's own lines. */
  lemma DiffOfSelf(text: string)
    ensures DiffOf(text, text) == SplitLines(text)
  {
    var lines := SplitLines(text);
    CompareSelf(lines);
    EntriesOfSames(Compare(lines, lines), lines);
  }

  lemma {:induction false} EntriesOfSames(ops: seq<Op>, lines: seq<string>)
    requires |ops| == |lines|
    requires forall k :: 0 <= k < |ops| ==> ops[k] == Same(lines[k])
    ensures Entries(ops) == lines
    decreases |ops|
  {
    if ops != [] {
      EntriesOfSames(ops[..|ops| - 1], lines[..|lines| - 1]);
    }
  }

  /** Two empty texts give an empty diff. */
  lemma DiffOfEmpty()
    ensures DiffOf("", "") == []
  {
  }
}
