/** Which Markdown lines carry prose once HTML comments disappear: the columns of `htmlCommentRanges`,
    `hasRenderedTextOutsideComments` and `markdownProseLines` of scripts/markdown.ts. */
module CommentColumns {
  import opened Basics
  import opened HtmlComments
  import opened Sorting
  import opened Splitting
  import opened Whitespace

  // ----- lines

  function Lines(source: string): seq<string> { Split(source, '\n') }

  /** Where line `i` begins. */
  function LineStart(lines: seq<string>, i: nat): nat
    requires i <= |lines|
  {
    if i == 0 then 0 else LineStart(lines, i - 1) + |lines[i - 1]| + 1
  }

  lemma {:induction false} LineStartShift(lines: seq<string>, more: seq<string>, n: nat, i: nat)
    requires 1 <= i <= |lines| && 1 <= |more| && lines[1..] == more[1..] && |lines[0]| == |more[0]| + n
    ensures i <= |more| && LineStart(lines, i) == LineStart(more, i) + n
    decreases i
  {
    assert |lines| == |more|;
    if i > 1 {
      LineStartShift(lines, more, n, i - 1);
      assert lines[i - 1] == lines[1..][i - 2] == more[1..][i - 2] == more[i - 1];
    }
  }

  lemma {:induction false} LineStartTail(lines: seq<string>, i: nat)
    requires 1 <= i <= |lines|
    ensures LineStart(lines, i) == |lines[0]| + 1 + LineStart(lines[1..], i - 1)
  {
    if i > 1 {
      LineStartTail(lines, i - 1);
    }
  }

  /** Line `i` is the stretch of the source that begins at its offset and ends before a line feed or at the end. */
  ghost predicate LineAt(source: string, lines: seq<string>, i: nat)
    requires i < |lines|
  {
    var at := LineStart(lines, i);
    && At(source, at, lines[i]) && '\n' !in lines[i]
    && (if i + 1 < |lines| then at + |lines[i]| < |source| && source[at + |lines[i]|] == '\n'
        else at + |lines[i]| == |source|)
  }

  lemma {:induction false} LineInSource(source: string, i: nat)
    requires i < |Lines(source)|
    ensures LineAt(source, Lines(source), i)
    decreases source
  {
    if source != "" {
      if source[0] == '\n' {
        if i > 0 {
          LineInSource(source[1..], i - 1);
          BehindBreak(source, i);
        }
      } else {
        LineInSource(source[1..], i);
        if i > 0 {
          BehindCharacter(source, i);
        } else {
          FirstAt(source, Lines(source[1..])[0]);
        }
      }
    }
  }

  lemma BehindBreak(source: string, i: nat)
    requires source != "" && source[0] == '\n' && 0 < i < |Lines(source)| && LineAt(source[1..], Lines(source[1..]), i - 1)
    ensures LineAt(source, Lines(source), i)
  {
    var lines, rest := Lines(source), Lines(source[1..]);
    LineStartTail(lines, i);
    assert lines[1..] == rest;
    ShiftedAt(source, LineStart(rest, i - 1), lines[i]);
  }

  lemma BehindCharacter(source: string, i: nat)
    requires source != "" && source[0] != '\n' && 0 < i < |Lines(source)| && LineAt(source[1..], Lines(source[1..]), i)
    ensures LineAt(source, Lines(source), i)
  {
    var lines, rest := Lines(source), Lines(source[1..]);
    assert lines[1..] == rest[1..];
    LineStartShift(lines, rest, 1, i);
    assert lines[i] == lines[1..][i - 1] == rest[i];
    ShiftedAt(source, LineStart(rest, i), lines[i]);
  }

  lemma ShiftedAt(source: string, at: nat, s: string)
    requires source != "" && At(source[1..], at, s)
    ensures At(source, at + 1, s)
  {
    assert source[at + 1..at + 1 + |s|] == source[1..][at..at + |s|];
  }

  lemma FirstAt(source: string, s: string)
    requires source != "" && At(source[1..], 0, s)
    ensures At(source, 0, [source[0]] + s)
  {
    assert source[..1 + |s|] == [source[0]] + source[1..][..|s|];
  }

  // ----- the columns that comments occupy

  /** A comment touches a line whose characters it covers, or an empty line whose place it covers. */
  predicate Touches(comment: Range, lineStart: nat, length: nat) {
    var from, to := Max(comment.start, lineStart), Min(comment.end, lineStart + length);
    from < to || (length == 0 && comment.start <= lineStart < comment.end)
  }

  /** The columns of one line that the comments cover, comment by comment. */
  function ColumnsOf(comments: seq<Range>, lineStart: nat, length: nat): seq<Range> {
    if comments == [] then []
    else
      var rest := ColumnsOf(comments[1..], lineStart, length);
      var from, to := Max(comments[0].start, lineStart), Min(comments[0].end, lineStart + length);
      if Touches(comments[0], lineStart, length) then [Range(from - lineStart, to - lineStart)] + rest else rest
  }

  lemma {:induction false} ColumnsAppend(comments: seq<Range>, n: nat, lineStart: nat, length: nat)
    requires n < |comments|
    ensures ColumnsOf(comments[..n + 1], lineStart, length)
         == ColumnsOf(comments[..n], lineStart, length) + ColumnsOf([comments[n]], lineStart, length)
  {
    if n > 0 {
      ColumnsAppend(comments[1..], n - 1, lineStart, length);
      assert comments[..n + 1][1..] == comments[1..][..n];
      assert comments[..n][1..] == comments[1..][..n - 1];
    } else {
      assert comments[..1] == [comments[0]];
    }
  }

  predicate Holds(rs: seq<Range>, p: nat) {
    exists r <- rs :: r.start <= p < r.end
  }

  /** A column is covered exactly when its source offset lies in a comment. */
  lemma {:induction false} ColumnIsOffset(comments: seq<Range>, lineStart: nat, length: nat, column: nat)
    requires column < length
    ensures Holds(ColumnsOf(comments, lineStart, length), column) <==> Holds(comments, lineStart + column)
  {
    if comments != [] {
      var rest := ColumnsOf(comments[1..], lineStart, length);
      ColumnIsOffset(comments[1..], lineStart, length, column);
      var all := ColumnsOf(comments, lineStart, length);
      assert comments == [comments[0]] + comments[1..];
      if Touches(comments[0], lineStart, length) {
        assert all == [all[0]] + rest;
      }
    }
  }

  /** A line has columns listed exactly when a comment touches it, and they lie within the line. */
  lemma {:induction false} ColumnsFit(comments: seq<Range>, lineStart: nat, length: nat)
    ensures ColumnsOf(comments, lineStart, length) != [] <==> exists c <- comments :: Touches(c, lineStart, length)
    ensures InLine(ColumnsOf(comments, lineStart, length), length)
  {
    if comments != [] {
      ColumnsFit(comments[1..], lineStart, length);
      assert comments == [comments[0]] + comments[1..];
    }
  }

  method LineColumns(comments: seq<Range>, lineOffset: nat, raw: string) returns (columns: seq<Range>)
    ensures columns == ColumnsOf(comments, lineOffset, |raw|)
  {
    columns := [];
    var lineEnd := lineOffset + |raw|;
    for i := 0 to |comments|
      invariant columns == ColumnsOf(comments[..i], lineOffset, |raw|)
    {
      var comment := comments[i];
      var from, to := Max(comment.start, lineOffset), Min(comment.end, lineEnd);
      var coversEmptyLine := |raw| == 0 && comment.start <= lineOffset && comment.end > lineOffset;
      ColumnsAppend(comments, i, lineOffset, |raw|);
      if from < to || coversEmptyLine {
        columns := columns + [Range(from - lineOffset, to - lineOffset)];
      }
    }
    assert comments[..|comments|] == comments;
  }

  /** Line `i` is listed with its covered columns, and not at all when it has none. */
  ghost predicate Recorded(ranges: map<nat, seq<Range>>, comments: seq<Range>, rawLines: seq<string>, i: nat)
    requires i < |rawLines|
  {
    var columns := ColumnsOf(comments, LineStart(rawLines, i), |rawLines[i]|);
    if columns == [] then i + 1 !in ranges else i + 1 in ranges && ranges[i + 1] == columns
  }

  /** What holds when `n` lines are recorded. */
  ghost predicate AllRecorded(ranges: map<nat, seq<Range>>, comments: seq<Range>, rawLines: seq<string>, n: nat)
    requires n <= |rawLines|
  {
    (forall k <- ranges :: 1 <= k <= n) && forall i: nat :: i < n ==> Recorded(ranges, comments, rawLines, i)
  }

  lemma RecordedNext(before: map<nat, seq<Range>>, comments: seq<Range>, rawLines: seq<string>, index: nat, line: seq<Range>)
    requires index < |rawLines| && AllRecorded(before, comments, rawLines, index)
    requires line == ColumnsOf(comments, LineStart(rawLines, index), |rawLines[index]|)
    ensures AllRecorded(if line != [] then before[index + 1 := line] else before, comments, rawLines, index + 1)
  {
    var after := if line != [] then before[index + 1 := line] else before;
    forall i: nat | i < index + 1
      ensures Recorded(after, comments, rawLines, i)
    {
      assert i < index ==> Recorded(before, comments, rawLines, i);
    }
  }

  method HtmlCommentRanges(nodes: seq<Html>, rawLines: seq<string>) returns (ranges: map<nat, seq<Range>>)
    ensures forall i: nat :: i < |rawLines| ==> Recorded(ranges, AllComments(nodes), rawLines, i)
  {
    var comments := GatherComments(nodes);
    ranges := map[];
    var lineOffset := 0;
    for index := 0 to |rawLines|
      invariant lineOffset == LineStart(rawLines, index)
      invariant AllRecorded(ranges, comments, rawLines, index)
    {
      var lineRanges := LineColumns(comments, lineOffset, rawLines[index]);
      RecordedNext(ranges, comments, rawLines, index, lineRanges);
      if lineRanges != [] {
        ranges := ranges[index + 1 := lineRanges];
      }
      lineOffset := lineOffset + |rawLines[index]| + 1;
    }
  }

  // ----- what is left of one line

  /** The characters from `from` on that no range covers. */
  function Uncovered(raw: string, rs: seq<Range>, from: nat, to: nat): string
    requires from <= to <= |raw|
    decreases |raw| - from
  {
    if from >= to then ""
    else (if Holds(rs, from) then "" else [raw[from]]) + Uncovered(raw, rs, from + 1, to)
  }

  lemma {:induction false} UncoveredSplit(raw: string, rs: seq<Range>, from: nat, mid: nat, to: nat)
    requires from <= mid <= to <= |raw|
    ensures Uncovered(raw, rs, from, to) == Uncovered(raw, rs, from, mid) + Uncovered(raw, rs, mid, to)
    decreases mid - from
  {
    if from < mid {
      UncoveredSplit(raw, rs, from + 1, mid, to);
    }
  }

  lemma {:induction false} AllCovered(raw: string, rs: seq<Range>, from: nat, to: nat)
    requires from <= to <= |raw| && forall c: nat :: from <= c < to ==> Holds(rs, c)
    ensures Uncovered(raw, rs, from, to) == ""
    decreases |raw| - from
  {
    if from < to {
      AllCovered(raw, rs, from + 1, to);
    }
  }

  lemma {:induction false} NoneCovered(raw: string, rs: seq<Range>, from: nat, to: nat)
    requires from <= to <= |raw| && forall c: nat :: from <= c < to ==> !Holds(rs, c)
    ensures Uncovered(raw, rs, from, to) == raw[from..to]
    decreases |raw| - from
  {
    if from < to {
      NoneCovered(raw, rs, from + 1, to);
    }
  }

  /** Which characters of a line survive. */
  lemma {:induction false} UncoveredHas(raw: string, rs: seq<Range>, from: nat, to: nat)
    requires from <= to <= |raw|
    ensures (exists c <- Uncovered(raw, rs, from, to) :: !IsBlank(c))
       <==> (exists column: nat :: from <= column < to && !Holds(rs, column) && !IsBlank(raw[column]))
    decreases |raw| - from
  {
    if from < to {
      UncoveredHas(raw, rs, from + 1, to);
      var rest := Uncovered(raw, rs, from + 1, to);
      var all := Uncovered(raw, rs, from, to);
      if !Holds(rs, from) {
        assert all == [raw[from]] + rest;
      }
    }
  }

  function ByStart(a: Range, b: Range): int { a.start - b.start }

  /** `slice(from, to)`: nothing when the bounds cross. */
  function Slice(s: string, from: nat, to: nat): string {
    if from <= to <= |s| then s[from..to] else ""
  }

  ghost predicate EndBy(rs: seq<Range>, cursor: nat) {
    forall r <- rs :: r.end <= cursor
  }

  ghost predicate InLine(rs: seq<Range>, length: nat) {
    forall r <- rs :: r.start <= r.end <= length
  }

  lemma EndGrows(sorted: seq<Range>, i: nat, cursor: nat)
    requires i < |sorted| && EndBy(sorted[..i], cursor)
    ensures EndBy(sorted[..i + 1], Max(cursor, sorted[i].end))
  {
    assert sorted[..i + 1] == sorted[..i] + [sorted[i]];
  }

  lemma VisibleEnd(raw: string, ranges: seq<Range>, sorted: seq<Range>, cursor: nat)
    requires cursor <= |raw| && EndBy(sorted, cursor) && forall r :: r in sorted <==> r in ranges
    ensures Uncovered(raw, ranges, 0, |raw|) == Uncovered(raw, ranges, 0, cursor) + raw[cursor..]
  {
    NoneCovered(raw, ranges, cursor, |raw|);
    UncoveredSplit(raw, ranges, 0, cursor, |raw|);
  }

  method VisibleText(raw: string, ranges: seq<Range>) returns (visible: string)
    requires InLine(ranges, |raw|)
    ensures visible == Uncovered(raw, ranges, 0, |raw|)
  {
    SortPermutes(ranges, ByStart);
    SortSorts(ranges, ByStart);
    var sorted := Sort(ranges, ByStart);
    SameRanges(ranges, sorted);
    var cursor: nat := 0;
    visible := "";
    for i := 0 to |sorted|
      invariant cursor <= |raw| && EndBy(sorted[..i], cursor)
      invariant visible == Uncovered(raw, ranges, 0, cursor)
    {
      assert sorted[i] in ranges;
      VisibleStep(raw, ranges, sorted, i, cursor);
      EndGrows(sorted, i, cursor);
      visible := visible + Slice(raw, cursor, sorted[i].start);
      cursor := Max(cursor, sorted[i].end);
    }
    assert sorted[..|sorted|] == sorted;
    VisibleEnd(raw, ranges, sorted, cursor);
    visible := visible + raw[cursor..];
  }

  lemma SameRanges(ranges: seq<Range>, sorted: seq<Range>)
    requires multiset(sorted) == multiset(ranges)
    ensures forall r :: r in sorted <==> r in ranges
  {
    forall r
      ensures r in sorted <==> r in ranges
    {
      assert r in sorted <==> r in multiset(sorted);
      assert r in ranges <==> r in multiset(ranges);
    }
  }

  /** One range: the text in front of it stays, its own columns go. */
  lemma VisibleStep(raw: string, ranges: seq<Range>, sorted: seq<Range>, i: nat, cursor: nat)
    requires i < |sorted| && cursor <= |raw| && SortedBy(sorted, ByStart)
    requires forall r :: r in sorted <==> r in ranges
    requires InLine(ranges, |raw|)
    requires EndBy(sorted[..i], cursor)
    ensures Uncovered(raw, ranges, 0, Max(cursor, sorted[i].end))
         == Uncovered(raw, ranges, 0, cursor) + Slice(raw, cursor, sorted[i].start)
  {
    var r, end := sorted[i], Max(cursor, sorted[i].end);
    assert r in ranges;
    UncoveredSplit(raw, ranges, 0, cursor, end);
    var from := Max(cursor, r.start);
    forall c: nat | from <= c < end
      ensures Holds(ranges, c)
    {
      assert r.start <= c < r.end;
    }
    AllCovered(raw, ranges, from, end);
    if cursor <= r.start {
      forall c: nat | cursor <= c < r.start
        ensures !Holds(ranges, c)
      {
        NothingBefore(ranges, sorted, i, c);
      }
      NoneCovered(raw, ranges, cursor, r.start);
      UncoveredSplit(raw, ranges, cursor, r.start, end);
    }
  }

  lemma NothingBefore(ranges: seq<Range>, sorted: seq<Range>, i: nat, c: nat)
    requires i < |sorted| && SortedBy(sorted, ByStart) && c < sorted[i].start
    requires forall r :: r in sorted <==> r in ranges
    requires EndBy(sorted[..i], c)
    ensures !Holds(ranges, c)
  {
    forall r | r in ranges
      ensures !(r.start <= c < r.end)
    {
      var j: nat :| j < |sorted| && sorted[j] == r;
      if j < i {
        assert sorted[..i][j] == r;
      } else if i < j {
        assert ByStart(sorted[i], sorted[j]) <= 0;
      }
    }
  }

  /** `trim().length > 0`. */
  predicate HasText(s: string) {
    exists c <- s :: !IsBlank(c)
  }

  /** A character that no column range covers and that is no blank. */
  ghost predicate TextInLine(raw: string, columns: seq<Range>) {
    exists c: nat :: c < |raw| && !Holds(columns, c) && !IsBlank(raw[c])
  }

  method HasRenderedTextOutsideComments(raw: string, ranges: Option<seq<Range>>) returns (rendered: bool)
    requires ranges.Some? ==> InLine(ranges.value, |raw|)
    ensures rendered <==>
      (ranges.None? || TextInLine(raw, ranges.value))
  {
    match ranges
    case None =>
      rendered := true;
    case Some(list) =>
      var visible := VisibleText(raw, list);
      UncoveredHas(raw, list, 0, |raw|);
      rendered := HasText(visible);
  }

  // ----- the prose lines of a document

  datatype ProseLine = ProseLine(index: nat, raw: string)

  /** A comment touches the line at `at`: a character of it, or the place of an empty line. */
  ghost predicate Commented(comments: seq<Range>, at: nat, length: nat) {
    exists p: nat :: at <= p < at + Max(length, 1) && Holds(comments, p)
  }

  /** A character of the line that lies in no comment and is no blank. */
  ghost predicate TextInSource(source: string, comments: seq<Range>, at: nat, length: nat) {
    exists p: nat :: at <= p < at + length && p < |source| && !Holds(comments, p) && !IsBlank(source[p])
  }

  /** Said of the offsets of the source and its comments: outside code, and untouched by comments or with text left. */
  ghost predicate IsProse(source: string, comments: seq<Range>, code: seq<Range>, i: nat)
    requires i < |Lines(source)|
  {
    var at, length := LineStart(Lines(source), i), |Lines(source)[i]|;
    && (forall c <- code :: !(c.start <= i + 1 <= c.end))
    && (!Commented(comments, at, length)
        || TextInSource(source, comments, at, length))
  }

  /** Code nodes by their first and last line. */
  predicate InCode(code: seq<Range>, line: nat) {
    exists c <- code :: c.start <= line <= c.end
  }

  lemma CommentedTouches(comments: seq<Range>, at: nat, length: nat)
    ensures Commented(comments, at, length) <==> exists c <- comments :: Touches(c, at, length)
  {
    if Commented(comments, at, length) {
      var p: nat :| at <= p < at + Max(length, 1) && Holds(comments, p);
      var c :| c in comments && c.start <= p < c.end;
      assert Touches(c, at, length);
    }
    if exists c <- comments :: Touches(c, at, length) {
      var c :| c in comments && Touches(c, at, length);
      assert Holds(comments, Max(c.start, at));
    }
  }

  lemma LineOffsets(source: string, comments: seq<Range>, i: nat, c: nat)
    requires i < |Lines(source)| && c < |Lines(source)[i]|
    ensures var raw := Lines(source)[i]; var at := LineStart(Lines(source), i);
      && at + c < |source| && raw[c] == source[at + c]
      && (Holds(ColumnsOf(comments, at, |raw|), c) <==> Holds(comments, at + c))
  {
    var raw, at := Lines(source)[i], LineStart(Lines(source), i);
    LineInSource(source, i);
    ColumnIsOffset(comments, at, |raw|, c);
    assert source[at..at + |raw|][c] == source[at + c];
  }

  /** What is left of a line by its columns is what is left of it by the offsets of the source. */
  lemma TextByOffset(source: string, comments: seq<Range>, i: nat)
    requires i < |Lines(source)|
    ensures var raw := Lines(source)[i]; var at := LineStart(Lines(source), i);
      TextInLine(raw, ColumnsOf(comments, at, |raw|)) <==> TextInSource(source, comments, at, |raw|)
  {
    var raw, at := Lines(source)[i], LineStart(Lines(source), i);
    var columns := ColumnsOf(comments, at, |raw|);
    if TextInSource(source, comments, at, |raw|) {
      var p: nat :| at <= p < at + |raw| && p < |source| && !Holds(comments, p) && !IsBlank(source[p]);
      var c: nat := p - at;
      LineOffsets(source, comments, i, c);
    }
    if TextInLine(raw, columns) {
      var c: nat :| c < |raw| && !Holds(columns, c) && !IsBlank(raw[c]);
      LineOffsets(source, comments, i, c);
    }
  }

  lemma CommentedColumns(source: string, comments: seq<Range>, i: nat)
    requires i < |Lines(source)|
    ensures var raw := Lines(source)[i]; var at := LineStart(Lines(source), i);
      ColumnsOf(comments, at, |raw|) == [] <==> !Commented(comments, at, |raw|)
  {
    var raw, at := Lines(source)[i], LineStart(Lines(source), i);
    ColumnsFit(comments, at, |raw|);
    CommentedTouches(comments, at, |raw|);
  }

  ghost function ProseUpTo(source: string, comments: seq<Range>, code: seq<Range>, n: nat): seq<ProseLine>
    requires n <= |Lines(source)|
  {
    if n == 0 then []
    else
      var before := ProseUpTo(source, comments, code, n - 1);
      if IsProse(source, comments, code, n - 1) then before + [ProseLine(n, Lines(source)[n - 1])] else before
  }

  ghost predicate Sound(source: string, comments: seq<Range>, code: seq<Range>, kept: seq<ProseLine>, n: nat) {
    forall line <- kept ::
      && 1 <= line.index <= n <= |Lines(source)| && line.raw == Lines(source)[line.index - 1]
      && IsProse(source, comments, code, line.index - 1)
  }

  ghost predicate Ascending(kept: seq<ProseLine>) {
    forall j, k :: 0 <= j < k < |kept| ==> kept[j].index < kept[k].index
  }

  /** Every kept line is a prose line of the source, and the lines are in order. */
  lemma {:induction false} KeptIsProse(source: string, comments: seq<Range>, code: seq<Range>, n: nat)
    requires n <= |Lines(source)|
    ensures Sound(source, comments, code, ProseUpTo(source, comments, code, n), n)
    ensures Ascending(ProseUpTo(source, comments, code, n))
  {
    if n > 0 {
      var before := ProseUpTo(source, comments, code, n - 1);
      KeptIsProse(source, comments, code, n - 1);
      AscendingAppend(before, ProseLine(n, Lines(source)[n - 1]));
      SoundAppend(source, comments, code, before, n);
    }
  }

  lemma SoundAppend(source: string, comments: seq<Range>, code: seq<Range>, kept: seq<ProseLine>, n: nat)
    requires 1 <= n <= |Lines(source)| && Sound(source, comments, code, kept, n - 1)
    ensures Sound(source, comments, code, kept, n)
    ensures IsProse(source, comments, code, n - 1) ==>
      Sound(source, comments, code, kept + [ProseLine(n, Lines(source)[n - 1])], n)
  {
  }

  lemma AscendingAppend(kept: seq<ProseLine>, line: ProseLine)
    requires Ascending(kept) && forall l <- kept :: l.index < line.index
    ensures Ascending(kept + [line])
  {
    forall j, k | 0 <= j < k < |kept + [line]|
      ensures (kept + [line])[j].index < (kept + [line])[k].index
    {
      assert (kept + [line])[j] == kept[j] && kept[j] in kept;
    }
  }

  /** Every prose line of the source is kept. */
  lemma {:induction false} ProseIsKept(source: string, comments: seq<Range>, code: seq<Range>, n: nat, i: nat)
    requires i < n <= |Lines(source)| && IsProse(source, comments, code, i)
    ensures ProseLine(i + 1, Lines(source)[i]) in ProseUpTo(source, comments, code, n)
    decreases n
  {
    if i < n - 1 {
      ProseIsKept(source, comments, code, n - 1, i);
    }
  }

  /** The kept lines are exactly the prose lines of the source, each once and in order. */
  ghost predicate Keeps(source: string, comments: seq<Range>, code: seq<Range>, kept: seq<ProseLine>) {
    && (forall i: nat :: i < |Lines(source)| ==>
          (ProseLine(i + 1, Lines(source)[i]) in kept <==> IsProse(source, comments, code, i)))
    && (forall line <- kept :: 1 <= line.index <= |Lines(source)| && line.raw == Lines(source)[line.index - 1])
    && Ascending(kept)
  }

  lemma KeptExactly(source: string, comments: seq<Range>, code: seq<Range>)
    ensures Keeps(source, comments, code, ProseUpTo(source, comments, code, |Lines(source)|))
  {
    var n := |Lines(source)|;
    KeptIsProse(source, comments, code, n);
    forall i: nat | i < n && IsProse(source, comments, code, i)
      ensures ProseLine(i + 1, Lines(source)[i]) in ProseUpTo(source, comments, code, n)
    {
      ProseIsKept(source, comments, code, n, i);
    }
  }

  method FencedLines(code: seq<Range>) returns (fenced: set<nat>)
    ensures forall line: nat :: line in fenced <==> InCode(code, line)
  {
    fenced := {};
    for k := 0 to |code|
      invariant forall line: nat :: line in fenced <==> InCode(code[..k], line)
    {
      var line := code[k].start;
      while line <= code[k].end
        invariant code[k].start <= line
        invariant forall l: nat :: l in fenced <==> InCode(code[..k], l) || (code[k].start <= l < line && l <= code[k].end)
        decreases code[k].end + 1 - line
      {
        fenced := fenced + {line};
        line := line + 1;
      }
      assert code[..k + 1] == code[..k] + [code[k]];
    }
    assert code[..|code|] == code;
  }

  function RangesAt(ranges: map<nat, seq<Range>>, line: nat): Option<seq<Range>> {
    if line in ranges then Some(ranges[line]) else None
  }

  /** Outside code, what is recorded for a line decides whether it is prose. */
  lemma RecordedDecides(source: string, comments: seq<Range>, code: seq<Range>, ranges: map<nat, seq<Range>>, i: nat)
    requires i < |Lines(source)| && Recorded(ranges, comments, Lines(source), i) && !InCode(code, i + 1)
    ensures var list := RangesAt(ranges, i + 1); var raw := Lines(source)[i];
      && (list.Some? ==> InLine(list.value, |raw|))
      && (IsProse(source, comments, code, i) <==> (list.None? || TextInLine(raw, list.value)))
  {
    CommentedColumns(source, comments, i);
    TextByOffset(source, comments, i);
    ColumnsFit(comments, LineStart(Lines(source), i), |Lines(source)[i]|);
  }

  /** The prose lines by the comments the script finds, which are those of the source unless a node drifted. */
  method MarkdownProseLines(source: string, nodes: seq<Html>, code: seq<Range>) returns (kept: seq<ProseLine>)
    ensures Keeps(source, AllComments(nodes), code, kept)
    ensures (forall node <- nodes :: Covers(source, node) && Undrifted(node.cells)) ==>
      Keeps(source, SourceComments(source, nodes), code, kept)
  {
    var rawLines := Lines(source);
    ghost var all := AllComments(nodes);
    var comments := HtmlCommentRanges(nodes, rawLines);
    var fenced := FencedLines(code);
    kept := [];
    for i := 0 to |rawLines|
      invariant kept == ProseUpTo(source, all, code, i)
    {
      if i + 1 !in fenced {
        RecordedDecides(source, all, code, comments, i);
        var rendered := HasRenderedTextOutsideComments(rawLines[i], RangesAt(comments, i + 1));
        if rendered {
          kept := kept + [ProseLine(i + 1, rawLines[i])];
        }
      }
    }
    KeptExactly(source, all, code);
    if forall node <- nodes :: Covers(source, node) && Undrifted(node.cells) {
      OffsetsRightIff(source, nodes);
    }
  }

  // ----- where a comment shows

  /** By the script's comments line `i` is prose or not, as `claimed` says; by those of the source it is the other way. */
  ghost predicate Mistaken(source: string, node: Html, i: nat, claimed: bool) {
    && i < |Lines(source)| && Covers(source, node)
    && (IsProse(source, AllComments([node]), [], i) <==> claimed)
    && (IsProse(source, SourceComments(source, [node]), [], i) <==> !claimed)
  }

  lemma SecondOfTwo(source: string, a: string, b: string, comments: seq<Range>)
    requires source == a + ['\n'] + b && '\n' !in a && '\n' !in b
    ensures Lines(source) == [a, b]
    ensures IsProse(source, comments, [], 1)
       <==> !Commented(comments, |a| + 1, |b|) || TextInSource(source, comments, |a| + 1, |b|)
  {
    SplitFirst(a, b, '\n');
    SplitFirst(b, "", '\n');
    assert Lines(source) == [a] + [b];
    assert LineStart([a, b], 1) == |a| + 1;
  }

  lemma CloserShows()
    ensures TextInSource(QUOTED, [Range(2, 14)], 9, 7)
  {
    var comments := [Range(2, 14)];
    assert QUOTED[14] == '-' && !IsBlank('-');
    assert !Holds(comments, 14);
  }

  lemma CloserHidden()
    ensures Commented([Range(2, 16)], 9, 7) && !TextInSource(QUOTED, [Range(2, 16)], 9, 7)
  {
    var comments := [Range(2, 16)];
    forall p: nat | 9 <= p < 16
      ensures Holds(comments, p)
    {
      assert comments[0] in comments;
    }
    assert Holds(comments, 9);
  }

  /** The second line of the quoted comment counts as prose, though all of it lies in the comment. */
  lemma DriftShowsCloser()
    ensures Lines(QUOTED) == ["> <!-- a", "> b -->"] && Mistaken(QUOTED, DRIFTING, 1, true)
  {
    assert QUOTED == "> <!-- a" + ['\n'] + "> b -->";
    SecondOfTwo(QUOTED, "> <!-- a", "> b -->", [Range(2, 14)]);
    SecondOfTwo(QUOTED, "> <!-- a", "> b -->", [Range(2, 16)]);
    DriftLosesCloser();
    CloserShows();
    CloserHidden();
  }

  lemma TextBehindTab()
    ensures Commented([Range(2, 16)], 9, 7) && !TextInSource(LISTED, [Range(2, 16)], 9, 7)
    ensures TextInSource(LISTED, [Range(2, 15)], 9, 7)
  {
    var claimed := [Range(2, 16)];
    forall p: nat | 9 <= p < 16
      ensures Holds(claimed, p)
    {
      assert claimed[0] in claimed;
    }
    assert Holds(claimed, 9);
    assert LISTED[15] == 'c' && !IsBlank('c');
    assert !Holds([Range(2, 15)], 15);
  }

  /** The text behind a comment in a list item is lost: the line is no prose, though a character of it is in no comment. */
  lemma TabHidesText()
    ensures Lines(LISTED) == ["- <!-- a", "\tb -->c"] && Mistaken(LISTED, STRETCHING, 1, false)
  {
    assert LISTED == "- <!-- a" + ['\n'] + "\tb -->c";
    SecondOfTwo(LISTED, "- <!-- a", "\tb -->c", [Range(2, 16)]);
    SecondOfTwo(LISTED, "- <!-- a", "\tb -->c", [Range(2, 15)]);
    TabOverruns();
    TextBehindTab();
  }
}
