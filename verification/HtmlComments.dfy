/** HTML comments by source offset: the search of `htmlCommentRanges` in scripts/markdown.ts, and when the offsets it
    takes from the value of a node are those of the source. */
module HtmlComments {
  import opened Basics
  import opened Whitespace

  /** Half-open: offsets into the source, or columns of a line. */
  datatype Range = Range(start: nat, end: nat)

  // ----- comments in one HTML node

  const OPEN := "<!--"
  const CLOSE := "-->"

  /** `indexOf` for a string. */
  function Search(t: string, s: string, from: nat): (r: int)
    ensures r == -1 || (from <= r && Stands(t, r, s))
    ensures forall p :: from <= p < (if r == -1 then |t| else r) ==> !Stands(t, p, s)
    decreases |t| - from
  {
    if from >= |t| then -1
    else if Stands(t, from, s) then from
    else Search(t, s, from + 1)
  }

  /** Behind the first `closer` from `body` on, or the end of the text. */
  function EndFrom(t: string, body: nat, closer: string): (end: nat)
    requires body <= |t|
    ensures body <= end <= |t|
  {
    var close := Search(t, closer, body);
    if close < 0 then |t| else close + |closer|
  }

  /** The end of the comment that opens at `start`. */
  function CommentEnd(t: string, start: nat): (end: nat)
    requires Stands(t, start, OPEN)
    ensures start + |OPEN| <= end <= |t|
  {
    EndFrom(t, start + |OPEN|, CLOSE)
  }

  function CommentsFrom(t: string, cursor: nat): seq<Range>
    decreases |t| - cursor
  {
    var start := Search(t, OPEN, cursor);
    if start < 0 then []
    else
      var end := CommentEnd(t, start);
      [Range(start, end)] + CommentsFrom(t, end)
  }

  lemma {:induction false} NextComment(t: string, cursor: nat, found: seq<Range>)
    requires cursor <= |t|
    ensures var start := Search(t, OPEN, cursor);
      if start < 0 then CommentsFrom(t, cursor) == []
      else
        var end := CommentEnd(t, start);
        found + CommentsFrom(t, cursor) == (found + [Range(start, end)]) + CommentsFrom(t, end)
  {
    var start := Search(t, OPEN, cursor);
    if start >= 0 {
      var end := CommentEnd(t, start);
      assert found + ([Range(start, end)] + CommentsFrom(t, end)) == (found + [Range(start, end)]) + CommentsFrom(t, end);
    }
  }

  method FindComments(value: string) returns (comments: seq<Range>)
    ensures comments == CommentsFrom(value, 0)
  {
    comments := [];
    var cursor: nat := 0;
    while true
      invariant cursor <= |value|
      invariant CommentsFrom(value, 0) == comments + CommentsFrom(value, cursor)
      decreases |value| - cursor
    {
      NextComment(value, cursor, comments);
      var start := Search(value, OPEN, cursor);
      if start < 0 {
        break;
      }
      var close := Search(value, CLOSE, start + |OPEN|);
      var end := if close < 0 then |value| else close + |CLOSE|;
      assert end == CommentEnd(value, start);
      comments := comments + [Range(start, end)];
      cursor := end;
    }
  }

  ghost predicate Closes(t: string, r: Range) {
    var body := r.start + |OPEN|;
    && body <= r.end <= |t|
    && if exists p :: body <= p && Stands(t, p, CLOSE)
       then body + |CLOSE| <= r.end && Stands(t, r.end - |CLOSE|, CLOSE) && forall p :: body <= p < r.end - |CLOSE| ==> !Stands(t, p, CLOSE)
       else r.end == |t|
  }

  /** The comments of a text: each opens at the first opener behind the one before and runs to its first closer. */
  ghost predicate AreComments(t: string, from: nat, rs: seq<Range>)
    decreases rs
  {
    if rs == [] then forall p :: from <= p ==> !Stands(t, p, OPEN)
    else
      && from <= rs[0].start && Stands(t, rs[0].start, OPEN) && Closes(t, rs[0])
      && (forall p :: from <= p < rs[0].start ==> !Stands(t, p, OPEN))
      && AreComments(t, rs[0].end, rs[1..])
  }

  lemma {:induction false} EndCloses(t: string, start: nat)
    requires Stands(t, start, OPEN)
    ensures Closes(t, Range(start, CommentEnd(t, start)))
  {
    var body := start + |OPEN|;
    var close := Search(t, CLOSE, body);
    assert close >= 0 ==> Stands(t, close, CLOSE);
    assert close < 0 ==> forall p :: body <= p ==> !Stands(t, p, CLOSE);
  }

  lemma {:induction false} ClosesOnce(t: string, a: Range, b: Range)
    requires Closes(t, a) && Closes(t, b) && a.start == b.start
    ensures a == b
  {
  }

  /** The search finds the comments of the text, and no other list of ranges is that. */
  lemma {:induction false} CommentsFound(t: string, from: nat, rs: seq<Range>)
    requires from <= |t|
    ensures AreComments(t, from, rs) <==> rs == CommentsFrom(t, from)
    decreases |t| - from, rs
  {
    var start := Search(t, OPEN, from);
    if start < 0 {
      assert forall p :: from <= p ==> !Stands(t, p, OPEN);
    } else {
      var end := CommentEnd(t, start);
      EndCloses(t, start);
      CommentsFound(t, end, CommentsFrom(t, end));
      if rs != [] && AreComments(t, from, rs) {
        assert rs[0].start == start;
        ClosesOnce(t, rs[0], Range(start, end));
        CommentsFound(t, end, rs[1..]);
        assert rs == [rs[0]] + rs[1..];
      }
    }
  }

  // ----- HTML nodes

  /** A character of the stretch of the source that a node covers: one that the node's value holds too, one that belongs to
      the containers the node stands in, or a tab of which they take a part, leaving some spaces to the value. */
  datatype Cell = Whole(c: char) | Taken(c: char) | Divided(spaces: nat) {

    function Source(): char { if Divided? then '\t' else c }

    function Width(): nat {
      match this
      case Whole(_) => 1
      case Taken(_) => 0
      case Divided(spaces) => spaces
    }

    function Left(): (s: string)
      ensures |s| == Width()
    {
      match this
      case Whole(c) => [c]
      case Taken(_) => ""
      case Divided(spaces) => seq(spaces, _ => ' ')
    }
  }

  function Written(cells: seq<Cell>): string {
    seq(|cells|, i requires 0 <= i < |cells| => cells[i].Source())
  }

  /** How much of the value the first `n` characters leave. */
  function Rank(cells: seq<Cell>, n: nat): nat
    requires n <= |cells|
  {
    if n == 0 then 0 else Rank(cells, n - 1) + cells[n - 1].Width()
  }

  function Kept(cells: seq<Cell>, n: nat): (s: string)
    requires n <= |cells|
    ensures |s| == Rank(cells, n)
  {
    if n == 0 then "" else Kept(cells, n - 1) + cells[n - 1].Left()
  }

  /** A parsed HTML node: where it starts, and what it covers. */
  datatype Html = Html(offset: nat, cells: seq<Cell>) {

    function Stretch(): string { Written(cells) }

    function Value(): string { Kept(cells, |cells|) }
  }

  /** Containers take marks and indentation at the beginning of a further line, and at the end of that part of a tab. */
  predicate Takeable(cells: seq<Cell>, k: nat)
    requires k < |cells|
  {
    && k > 0 && (IsBreak(cells[k - 1].Source()) || cells[k - 1].Taken?)
    && match cells[k]
       case Whole(_) => false
       case Taken(c) => c == '>' || c == ' ' || c == '\t'
       case Divided(spaces) => spaces > 0
  }

  predicate Parsed(cells: seq<Cell>) {
    forall k :: 0 <= k < |cells| && !cells[k].Whole? ==> Takeable(cells, k)
  }

  lemma {:induction false} RankGrows(cells: seq<Cell>, j: nat, k: nat)
    requires j <= k <= |cells|
    ensures Rank(cells, j) <= Rank(cells, k)
    ensures (forall i :: j <= i < k ==> cells[i].Whole?) ==> Rank(cells, k) == Rank(cells, j) + (k - j)
  {
    if j < k {
      RankGrows(cells, j, k - 1);
    }
  }

  /** What a character leaves stands in the value behind what those before it left. */
  lemma {:induction false} LeftAt(cells: seq<Cell>, k: nat, i: nat, n: nat)
    requires k < n <= |cells| && i < cells[k].Width()
    ensures Rank(cells, k) + i < Rank(cells, n) && Kept(cells, n)[Rank(cells, k) + i] == cells[k].Left()[i]
  {
    if k < n - 1 {
      LeftAt(cells, k, i, n - 1);
    }
  }

  /** The character of the source that left the one at `q` of the value. */
  function Place(cells: seq<Cell>, n: nat, q: nat): (k: nat)
    requires n <= |cells| && q < Rank(cells, n)
    ensures k < n && Rank(cells, k) <= q < Rank(cells, k + 1)
  {
    if Rank(cells, n - 1) <= q then n - 1 else Place(cells, n - 1, q)
  }

  /** What is no space in the value is whole in the source. */
  lemma {:induction false} PlaceOf(cells: seq<Cell>, q: nat)
    requires q < Rank(cells, |cells|) && Kept(cells, |cells|)[q] != ' '
    ensures var k := Place(cells, |cells|, q); Rank(cells, k) == q && cells[k] == Whole(Kept(cells, |cells|)[q])
  {
    var k := Place(cells, |cells|, q);
    LeftAt(cells, k, q - Rank(cells, k), |cells|);
  }

  // ----- openers and closers stand in the value as they stand in the source

  /** Text of one line without white space that begins with no mark of a block quote. */
  predicate Solid(s: string) {
    s != "" && s[0] != '>' && forall i :: 0 <= i < |s| ==> !IsBreak(s[i]) && s[i] != ' ' && s[i] != '\t'
  }

  lemma MarksAreSolid()
    ensures Solid(OPEN) && Solid(CLOSE)
  {
  }

  lemma {:induction false} CharacterWhole(cells: seq<Cell>, p: nat, s: string, k: nat)
    requires Parsed(cells) && Stands(Written(cells), p, s) && Solid(s) && k < |s|
    ensures cells[p + k] == Whole(s[k])
    decreases k
  {
    StandsCharacters(Written(cells), p, s);
    if k > 0 {
      CharacterWhole(cells, p, s, k - 1);
    }
    assert !Takeable(cells, p + k);
  }

  lemma {:induction false} OccurrenceWhole(cells: seq<Cell>, p: nat, s: string)
    requires Parsed(cells) && Stands(Written(cells), p, s) && Solid(s)
    ensures Rank(cells, p + |s|) == Rank(cells, p) + |s|
  {
    forall k | p <= k < p + |s|
      ensures cells[k].Whole?
    {
      CharacterWhole(cells, p, s, k - p);
    }
    RankGrows(cells, p, p + |s|);
  }

  lemma {:induction false} CharacterInValue(cells: seq<Cell>, p: nat, s: string, k: nat)
    requires Parsed(cells) && Stands(Written(cells), p, s) && Solid(s) && k < |s|
    ensures Rank(cells, p) + k < Rank(cells, |cells|) && Kept(cells, |cells|)[Rank(cells, p) + k] == s[k]
  {
    forall i | p <= i < p + k
      ensures cells[i].Whole?
    {
      CharacterWhole(cells, p, s, i - p);
    }
    CharacterWhole(cells, p, s, k);
    RankGrows(cells, p, p + k);
    LeftAt(cells, p + k, 0, |cells|);
  }

  lemma {:induction false} SourceOccurrence(cells: seq<Cell>, p: nat, s: string)
    requires Parsed(cells) && Stands(Written(cells), p, s) && Solid(s)
    ensures Stands(Kept(cells, |cells|), Rank(cells, p), s)
  {
    var value, q := Kept(cells, |cells|), Rank(cells, p);
    CharacterInValue(cells, p, s, |s| - 1);
    forall k | 0 <= k < |s|
      ensures value[q + k] == s[k]
    {
      CharacterInValue(cells, p, s, k);
    }
    StandsByCharacters(value, q, s);
  }

  /** Behind a whole character the next one of the value is whole too, unless a line ends. */
  lemma {:induction false} NextWhole(cells: seq<Cell>, p: nat)
    requires Parsed(cells) && p < |cells| && cells[p].Whole? && !IsBreak(cells[p].c) && Rank(cells, p) + 1 < Rank(cells, |cells|)
    ensures p + 1 < |cells| && cells[p + 1].Whole? && Rank(cells, p + 1) == Rank(cells, p) + 1
  {
    RankGrows(cells, p, p + 1);
    if p + 1 < |cells| {
      assert !Takeable(cells, p + 1);
    }
  }

  /** From `p` on, `n` more characters of the value stand side by side. */
  ghost predicate Runs(cells: seq<Cell>, p: nat, q: nat, s: string, n: nat)
    requires n < |s|
  {
    p + n < |cells| && Rank(cells, p + n) == q + n && forall i :: 0 <= i <= n ==> cells[p + i] == Whole(s[i])
  }

  lemma {:induction false} CharacterPlaced(cells: seq<Cell>, q: nat, s: string, n: nat, k: nat)
    requires Stands(Kept(cells, |cells|), q, s) && n < |s| && k < |cells| && cells[k].Whole? && Rank(cells, k) == q + n
    ensures cells[k] == Whole(s[n])
  {
    StandsCharacters(Kept(cells, |cells|), q, s);
    LeftAt(cells, k, 0, |cells|);
  }

  lemma {:induction false} RunStarts(cells: seq<Cell>, q: nat, s: string)
    requires Stands(Kept(cells, |cells|), q, s) && s != "" && s[0] != ' '
    ensures Runs(cells, Place(cells, |cells|, q), q, s, 0)
  {
    StandsCharacters(Kept(cells, |cells|), q, s);
    PlaceOf(cells, q);
  }

  lemma {:induction false} RunGoesOn(cells: seq<Cell>, p: nat, q: nat, s: string, n: nat)
    requires Parsed(cells) && Stands(Kept(cells, |cells|), q, s) && n + 1 < |s| && !IsBreak(s[n]) && Runs(cells, p, q, s, n)
    ensures Runs(cells, p, q, s, n + 1)
  {
    assert cells[p + n] == Whole(s[n]);
    NextWhole(cells, p + n);
    CharacterPlaced(cells, q, s, n + 1, p + n + 1);
  }

  lemma {:induction false} RunPlaced(cells: seq<Cell>, q: nat, s: string, n: nat)
    requires Parsed(cells) && Stands(Kept(cells, |cells|), q, s) && n < |s| && Solid(s)
    ensures Runs(cells, Place(cells, |cells|, q), q, s, n)
  {
    if n == 0 {
      RunStarts(cells, q, s);
    } else {
      RunPlaced(cells, q, s, n - 1);
      RunGoesOn(cells, Place(cells, |cells|, q), q, s, n - 1);
    }
  }

  lemma {:induction false} RunWritten(cells: seq<Cell>, p: nat, q: nat, s: string)
    requires s != "" && Runs(cells, p, q, s, |s| - 1)
    ensures Stands(Written(cells), p, s)
  {
    forall k | 0 <= k < |s|
      ensures Written(cells)[p + k] == s[k]
    {
      assert cells[p + k] == Whole(s[k]);
    }
    StandsByCharacters(Written(cells), p, s);
  }

  lemma {:induction false} ValueOccurrence(cells: seq<Cell>, q: nat, s: string)
    requires Parsed(cells) && Stands(Kept(cells, |cells|), q, s) && Solid(s)
    ensures var p := Place(cells, |cells|, q); Stands(Written(cells), p, s) && Rank(cells, p) == q && cells[p].Whole?
  {
    var p := Place(cells, |cells|, q);
    RunPlaced(cells, q, s, 0);
    assert cells[p + 0] == Whole(s[0]);
    RunPlaced(cells, q, s, |s| - 1);
    RunWritten(cells, p, q, s);
  }

  lemma {:induction false} SearchReaches(t: string, s: string, from: nat, k: nat)
    requires from <= k && Stands(t, k, s) && s != ""
    ensures from <= Search(t, s, from) <= k
  {
  }

  lemma {:induction false} FoundInSource(cells: seq<Cell>, p: nat, s: string)
    requires Parsed(cells) && p <= |cells| && Solid(s)
    ensures var i, j := Search(Kept(cells, |cells|), s, Rank(cells, p)), Search(Written(cells), s, p);
      j != -1 ==> 0 <= i <= Rank(cells, j)
  {
    var j := Search(Written(cells), s, p);
    if j != -1 {
      SourceOccurrence(cells, j, s);
      RankGrows(cells, p, j);
      SearchReaches(Kept(cells, |cells|), s, Rank(cells, p), Rank(cells, j));
    }
  }

  lemma {:induction false} FoundInValue(cells: seq<Cell>, p: nat, s: string)
    requires Parsed(cells) && p <= |cells| && Solid(s)
    ensures var i, j := Search(Kept(cells, |cells|), s, Rank(cells, p)), Search(Written(cells), s, p);
      i != -1 ==> j != -1 && Rank(cells, j) <= i
  {
    var i := Search(Kept(cells, |cells|), s, Rank(cells, p));
    if i != -1 {
      var k := Place(cells, |cells|, i);
      ValueOccurrence(cells, i, s);
      if k < p {
        RankGrows(cells, k, k + 1);
        RankGrows(cells, k + 1, p);
      }
      SearchReaches(Written(cells), s, p, k);
      RankGrows(cells, Search(Written(cells), s, p), k);
    }
  }

  /** A search from corresponding places finds corresponding places. */
  lemma {:induction false} SearchAgrees(cells: seq<Cell>, p: nat, s: string)
    requires Parsed(cells) && p <= |cells| && Solid(s)
    ensures var i, j := Search(Kept(cells, |cells|), s, Rank(cells, p)), Search(Written(cells), s, p);
      if j == -1 then i == -1 else i == Rank(cells, j)
  {
    FoundInSource(cells, p, s);
    FoundInValue(cells, p, s);
  }

  // ----- the comments of the value and those of the stretch

  lemma {:induction false} FoundIsWhole(cells: seq<Cell>, p: nat, s: string)
    requires Parsed(cells) && p <= |cells| && Solid(s) && Search(Written(cells), s, p) != -1
    ensures var j := Search(Written(cells), s, p); j + |s| <= |cells| && Rank(cells, j + |s|) == Rank(cells, j) + |s|
  {
    OccurrenceWhole(cells, Search(Written(cells), s, p), s);
  }

  /** From corresponding places the ends correspond too. */
  lemma {:induction false} EndAgrees(cells: seq<Cell>, p: nat, closer: string)
    requires Parsed(cells) && p <= |cells| && Solid(closer)
    ensures Rank(cells, p) <= Rank(cells, |cells|)
    ensures Rank(cells, EndFrom(Written(cells), p, closer)) == EndFrom(Kept(cells, |cells|), Rank(cells, p), closer)
  {
    RankGrows(cells, p, |cells|);
    SearchAgrees(cells, p, closer);
    var t, v, q := Written(cells), Kept(cells, |cells|), Rank(cells, p);
    var found, close := Search(t, closer, p), Search(v, closer, q);
    if found == -1 {
      assert EndFrom(t, p, closer) == |cells| && EndFrom(v, q, closer) == |v|;
    } else {
      FoundIsWhole(cells, p, closer);
      assert EndFrom(t, p, closer) == found + |closer| && EndFrom(v, q, closer) == close + |closer|;
    }
  }

  lemma {:induction false} CommentAgrees(cells: seq<Cell>, start: nat)
    requires Parsed(cells) && Stands(Written(cells), start, OPEN)
    ensures Stands(Kept(cells, |cells|), Rank(cells, start), OPEN)
    ensures Rank(cells, CommentEnd(Written(cells), start)) == CommentEnd(Kept(cells, |cells|), Rank(cells, start))
  {
    MarksAreSolid();
    SourceOccurrence(cells, start, OPEN);
    OccurrenceWhole(cells, start, OPEN);
    EndAgrees(cells, start + |OPEN|, CLOSE);
  }

  /** A range of the stretch, by what it and the characters before it leave to the value. */
  function Read(cells: seq<Cell>, r: Range): Range
    requires r.start <= |cells| && r.end <= |cells|
  {
    Range(Rank(cells, r.start), Rank(cells, r.end))
  }

  ghost predicate ReadAs(cells: seq<Cell>, r: Range, value: Range) {
    r.start <= |cells| && r.end <= |cells| && value == Read(cells, r)
  }

  ghost predicate AllRead(cells: seq<Cell>, found: seq<Range>, values: seq<Range>) {
    |found| == |values| && forall k :: 0 <= k < |values| ==> ReadAs(cells, found[k], values[k])
  }

  /** The comments of the value are those of the stretch, each read from its place. */
  lemma {:induction false} CommentsRead(cells: seq<Cell>, p: nat)
    requires Parsed(cells) && p <= |cells|
    ensures AllRead(cells, CommentsFrom(Written(cells), p), CommentsFrom(Kept(cells, |cells|), Rank(cells, p)))
    decreases |cells| - p
  {
    var start := Search(Written(cells), OPEN, p);
    MarksAreSolid();
    SearchAgrees(cells, p, OPEN);
    if start >= 0 {
      var r := Range(start, CommentEnd(Written(cells), start));
      CommentAgrees(cells, start);
      CommentsRead(cells, r.end);
      OneRead(cells, r, CommentsFrom(Written(cells), r.end), CommentsFrom(Kept(cells, |cells|), Rank(cells, r.end)));
    }
  }

  lemma {:induction false} OneRead(cells: seq<Cell>, r: Range, found: seq<Range>, values: seq<Range>)
    requires r.start <= |cells| && r.end <= |cells| && AllRead(cells, found, values)
    ensures AllRead(cells, [r] + found, [Read(cells, r)] + values)
  {
  }

  // ----- how many characters were taken and added

  function Lost(cells: seq<Cell>, n: nat): nat
    requires n <= |cells|
  {
    if n == 0 then 0 else Lost(cells, n - 1) + if cells[n - 1].Width() == 0 then 1 else 0
  }

  /** A divided tab stands for one character of the value, and adds all further ones. */
  function Gained(cells: seq<Cell>, n: nat): nat
    requires n <= |cells|
  {
    if n == 0 then 0
    else Gained(cells, n - 1) + if cells[n - 1].Width() > 1 then cells[n - 1].Width() - 1 else 0
  }

  lemma {:induction false} RankBalance(cells: seq<Cell>, n: nat)
    requires n <= |cells|
    ensures Rank(cells, n) + Lost(cells, n) == n + Gained(cells, n)
  {
    if n > 0 {
      RankBalance(cells, n - 1);
    }
  }

  /** Before `n`, as many characters were added as taken. */
  predicate Level(cells: seq<Cell>, n: nat) {
    n <= |cells| && Lost(cells, n) == Gained(cells, n)
  }

  /** Every comment starts and ends where as many characters were added before as taken. */
  predicate Undrifted(cells: seq<Cell>) {
    forall r <- CommentsFrom(Written(cells), 0) :: Level(cells, r.start) && Level(cells, r.end)
  }

  /** The comments of a value stand at the offsets of the source exactly when before every start and every end of one as
      many characters were added as taken. */
  lemma {:induction false} CommentsStayIff(cells: seq<Cell>)
    requires Parsed(cells)
    ensures |CommentsFrom(Kept(cells, |cells|), 0)| == |CommentsFrom(Written(cells), 0)|
    ensures CommentsFrom(Kept(cells, |cells|), 0) == CommentsFrom(Written(cells), 0) <==> Undrifted(cells)
  {
    var found, values := CommentsFrom(Written(cells), 0), CommentsFrom(Kept(cells, |cells|), 0);
    CommentsRead(cells, 0);
    forall k | 0 <= k < |values|
      ensures found[k] == values[k] <==> Level(cells, found[k].start) && Level(cells, found[k].end)
      ensures found[k] in found
    {
      assert ReadAs(cells, found[k], values[k]);
      RankBalance(cells, found[k].start);
      RankBalance(cells, found[k].end);
    }
  }

  lemma {:induction false} LostBefore(cells: seq<Cell>, m: nat, n: nat)
    requires m <= n <= |cells|
    ensures Lost(cells, m) <= Lost(cells, n) && Gained(cells, m) <= Gained(cells, n)
  {
    if m < n {
      LostBefore(cells, m, n - 1);
    }
  }

  /** Where no tab was divided, that is: exactly when nothing was taken before the end of a comment. */
  lemma {:induction false} StayWithoutTabs(cells: seq<Cell>)
    requires Parsed(cells) && forall k :: 0 <= k < |cells| ==> !cells[k].Divided?
    ensures Undrifted(cells) <==>
      forall r <- CommentsFrom(Written(cells), 0) :: forall k :: 0 <= k < r.end && k < |cells| ==> cells[k].Whole?
  {
    CommentsRead(cells, 0);
    var found := CommentsFrom(Written(cells), 0);
    forall r | r in found
      ensures Level(cells, r.start) && Level(cells, r.end) <==> forall k :: 0 <= k < r.end && k < |cells| ==> cells[k].Whole?
    {
      var i :| 0 <= i < |found| && found[i] == r;
      assert ReadAs(cells, found[i], CommentsFrom(Kept(cells, |cells|), 0)[i]);
      CommentsInOrder(Written(cells), 0, r);
      NothingTaken(cells, r.start);
      NothingTaken(cells, r.end);
    }
  }

  lemma {:induction false} CommentsInOrder(t: string, from: nat, r: Range)
    requires r in CommentsFrom(t, from)
    ensures r.start < r.end <= |t|
    decreases |t| - from
  {
    var start := Search(t, OPEN, from);
    var end := CommentEnd(t, start);
    if r != Range(start, end) {
      CommentsInOrder(t, end, r);
    }
  }

  lemma {:induction false} NothingTaken(cells: seq<Cell>, n: nat)
    requires n <= |cells| && forall k :: 0 <= k < |cells| ==> !cells[k].Divided?
    ensures Level(cells, n) <==> forall k :: 0 <= k < n ==> cells[k].Whole?
    ensures Gained(cells, n) == 0
  {
    if n > 0 {
      NothingTaken(cells, n - 1);
    }
  }

  // ----- the comments of a whole source

  /** Ranges of a value that starts at `offset` of the source. */
  function Shifted(rs: seq<Range>, offset: nat): seq<Range> {
    seq(|rs|, i requires 0 <= i < |rs| => Range(rs[i].start + offset, rs[i].end + offset))
  }

  /** All comments, by the offsets the script computes. */
  function AllComments(nodes: seq<Html>): seq<Range> {
    if nodes == [] then []
    else AllComments(nodes[..|nodes| - 1]) + Shifted(CommentsFrom(nodes[|nodes| - 1].Value(), 0), nodes[|nodes| - 1].offset)
  }

  method GatherComments(nodes: seq<Html>) returns (comments: seq<Range>)
    ensures comments == AllComments(nodes)
  {
    comments := [];
    for i := 0 to |nodes|
      invariant comments == AllComments(nodes[..i])
    {
      var found := FindComments(nodes[i].Value());
      assert nodes[..i + 1][..i] == nodes[..i];
      comments := comments + Shifted(found, nodes[i].offset);
    }
    assert nodes[..|nodes|] == nodes;
  }

  /** The node covers its stretch of the source. */
  ghost predicate Covers(source: string, node: Html) {
    At(source, node.offset, node.Stretch()) && Parsed(node.cells)
  }

  ghost function NodeComments(source: string, node: Html): seq<Range>
    requires Covers(source, node)
  {
    Shifted(CommentsFrom(source[node.offset..node.offset + |node.cells|], 0), node.offset)
  }

  /** The comments of the source itself: those of every stretch that an HTML node covers. */
  ghost function SourceComments(source: string, nodes: seq<Html>): seq<Range>
    requires forall node <- nodes :: Covers(source, node)
  {
    if nodes == [] then []
    else
      assert nodes[|nodes| - 1] in nodes;
      SourceComments(source, nodes[..|nodes| - 1]) + NodeComments(source, nodes[|nodes| - 1])
  }

  lemma ShiftedSame(a: seq<Range>, b: seq<Range>, offset: nat)
    ensures Shifted(a, offset) == Shifted(b, offset) <==> a == b
  {
    if Shifted(a, offset) == Shifted(b, offset) {
      assert |a| == |b|;
      forall k | 0 <= k < |a|
        ensures a[k] == b[k]
      {
        assert Shifted(a, offset)[k] == Shifted(b, offset)[k];
      }
    }
  }

  lemma {:induction false} SameParts(a: seq<Range>, b: seq<Range>, c: seq<Range>, d: seq<Range>)
    requires |b| == |d|
    ensures a + b == c + d <==> a == c && b == d
  {
    if a + b == c + d {
      assert |a + b| == |a| + |b| && |c + d| == |c| + |d|;
      assert a == (a + b)[..|a|] && b == (a + b)[|a|..];
      assert c == (c + d)[..|c|] && d == (c + d)[|c|..];
    }
  }

  lemma OneRightIff(source: string, node: Html)
    requires Covers(source, node)
    ensures var claimed := Shifted(CommentsFrom(node.Value(), 0), node.offset);
      && |claimed| == |NodeComments(source, node)|
      && (claimed == NodeComments(source, node) <==> Undrifted(node.cells))
  {
    var claimed, actual := CommentsFrom(node.Value(), 0), CommentsFrom(node.Stretch(), 0);
    assert NodeComments(source, node) == Shifted(actual, node.offset);
    CommentsStayIff(node.cells);
    ShiftedSame(claimed, actual, node.offset);
  }

  /** The script has the comments of the source exactly when no node drifted before the end of a comment. */
  lemma {:induction false} OffsetsRightIff(source: string, nodes: seq<Html>)
    requires forall node <- nodes :: Covers(source, node)
    ensures AllComments(nodes) == SourceComments(source, nodes) <==> forall node <- nodes :: Undrifted(node.cells)
    decreases |nodes|
  {
    if nodes != [] {
      var before, node := nodes[..|nodes| - 1], nodes[|nodes| - 1];
      var claimed := Shifted(CommentsFrom(node.Value(), 0), node.offset);
      assert nodes == before + [node] && node in nodes;
      OffsetsRightIff(source, before);
      OneRightIff(source, node);
      SameParts(AllComments(before), claimed, SourceComments(source, before), NodeComments(source, node));
    }
  }

  // ----- where the offsets drift

  /** `cells` are the characters `stretch`, and `value` is what they leave. */
  ghost predicate Reads(cells: seq<Cell>, stretch: string, value: string) {
    Written(cells) == stretch && Kept(cells, |cells|) == value
  }

  function Wholes(s: string): seq<Cell> {
    seq(|s|, i requires 0 <= i < |s| => Whole(s[i]))
  }

  lemma {:induction false} WholesKept(s: string, n: nat)
    requires n <= |s|
    ensures Kept(Wholes(s), n) == s[..n]
  {
    if n > 0 {
      WholesKept(s, n - 1);
      assert s[..n] == s[..n - 1] + [s[n - 1]];
    }
  }

  lemma {:induction false} KeptFirst(a: seq<Cell>, b: seq<Cell>, n: nat)
    requires n <= |a|
    ensures Kept(a + b, n) == Kept(a, n)
  {
    if n > 0 {
      KeptFirst(a, b, n - 1);
    }
  }

  lemma {:induction false} KeptBoth(a: seq<Cell>, b: seq<Cell>, n: nat)
    requires n <= |b|
    ensures Kept(a + b, |a| + n) == Kept(a, |a|) + Kept(b, n)
  {
    if n > 0 {
      KeptBoth(a, b, n - 1);
    } else {
      KeptFirst(a, b, |a|);
    }
  }

  lemma WrittenBoth(a: seq<Cell>, b: seq<Cell>)
    ensures |a + b| == |a| + |b| && Written(a + b) == Written(a) + Written(b)
  {
  }

  lemma {:induction false} ReadsBoth(a: seq<Cell>, b: seq<Cell>, s: string, t: string, v: string, w: string)
    requires Reads(a, s, v) && Reads(b, t, w)
    ensures Reads(a + b, s + t, v + w)
  {
    KeptBoth(a, b, |b|);
    WrittenBoth(a, b);
  }

  /** Two lines with what the containers have in front of the second. */
  function TwoLines(first: string, prefix: seq<Cell>, second: string): seq<Cell> {
    Wholes(first) + prefix + Wholes(second)
  }

  lemma {:induction false} TwoLinesRead(first: string, prefix: seq<Cell>, t: string, w: string, second: string)
    requires Reads(prefix, t, w)
    ensures Reads(TwoLines(first, prefix, second), first + t + second, first + w + second)
  {
    WholesKept(first, |first|);
    WholesKept(second, |second|);
    assert Reads(Wholes(first), first, first) && Reads(Wholes(second), second, second);
    ReadsBoth(Wholes(first), prefix, first, t, first, w);
    ReadsBoth(Wholes(first) + prefix, Wholes(second), first + t, second, first + w, second);
  }

  lemma {:induction false} TwoLinesParsed(first: string, prefix: seq<Cell>, second: string)
    requires first != "" && first[|first| - 1] == '\n' && |prefix| <= 2
    requires |prefix| >= 1 ==> prefix[0] == Taken('>') || (prefix[0].Divided? && prefix[0].spaces > 0)
    requires |prefix| == 2 ==> prefix[0].Taken? && prefix[1] == Taken(' ')
    ensures Parsed(TwoLines(first, prefix, second))
  {
    var cells := TwoLines(first, prefix, second);
    forall k | 0 <= k < |cells| && !cells[k].Whole?
      ensures Takeable(cells, k)
    {
      assert |first| <= k < |first| + |prefix| && cells[k] == prefix[k - |first|];
      assert cells[|first| - 1] == Whole('\n');
    }
  }

  lemma OtherStart(t: string, p: nat, s: string)
    requires p < |t| && s != "" && t[p] != s[0]
    ensures !Stands(t, p, s)
  {
    if Stands(t, p, s) {
      StandsCharacters(t, p, s);
    }
  }

  /** A text that is one comment and what follows it. */
  lemma {:induction false} OneComment(t: string, inside: string, rest: string)
    requires t == OPEN + inside + CLOSE + rest && '-' !in inside && '<' !in rest
    ensures CommentsFrom(t, 0) == [Range(0, 7 + |inside|)]
  {
    var end := 7 + |inside|;
    OneCommentStands(t, inside, rest);
    forall p | 4 <= p < end - 3
      ensures !Stands(t, p, CLOSE)
    {
      OtherStart(t, p, CLOSE);
    }
    forall p | end <= p < |t|
      ensures !Stands(t, p, OPEN)
    {
      OtherStart(t, p, OPEN);
    }
    assert Closes(t, Range(0, end));
    assert AreComments(t, end, []);
    assert AreComments(t, 0, [Range(0, end)]);
    CommentsFound(t, 0, [Range(0, end)]);
  }

  lemma OneCommentStands(t: string, inside: string, rest: string)
    requires t == OPEN + inside + CLOSE + rest && '-' !in inside && '<' !in rest
    ensures |t| == 7 + |inside| + |rest| && Stands(t, 0, OPEN) && Stands(t, 4 + |inside|, CLOSE)
    ensures forall p :: 4 <= p < 4 + |inside| ==> t[p] != '-'
    ensures forall p :: 7 + |inside| <= p < |t| ==> t[p] != '<'
  {
    assert t[0..4] == OPEN && t[4 + |inside|..7 + |inside|] == CLOSE;
    assert forall p :: 4 <= p < 4 + |inside| ==> t[p] == inside[p - 4];
    assert forall p :: 7 + |inside| <= p < |t| ==> t[p] == rest[p - 7 - |inside|];
  }

  lemma {:induction false} OneNodeClaimed(node: Html, end: nat)
    requires CommentsFrom(node.Value(), 0) == [Range(0, end)]
    ensures AllComments([node]) == [Range(node.offset, node.offset + end)]
  {
    assert [node][..0] == [];
    assert AllComments([node]) == [] + Shifted([Range(0, end)], node.offset);
    ShiftedOne(0, end, node.offset);
  }

  lemma {:induction false} OneNodeCovers(source: string, node: Html, end: nat)
    requires Covers(source, node) && CommentsFrom(node.Stretch(), 0) == [Range(0, end)]
    ensures SourceComments(source, [node]) == [Range(node.offset, node.offset + end)]
  {
    assert [node][..0] == [];
    assert SourceComments(source, [node]) == [] + NodeComments(source, node);
    ShiftedOne(0, end, node.offset);
  }

  lemma ShiftedOne(start: nat, end: nat, offset: nat)
    ensures Shifted([Range(start, end)], offset) == [Range(start + offset, end + offset)]
  {
  }

  /** A comment over two lines of a block quote, whose second quote mark is not in the node's value. */
  const QUOTED := "> <!-- a\n> b -->"
  const DRIFTING := Html(2, TwoLines("<!-- a\n", [Taken('>'), Taken(' ')], "b -->"))

  lemma DriftingCovers()
    ensures Covers(QUOTED, DRIFTING) && Reads(DRIFTING.cells, "<!-- a\n> b -->", "<!-- a\nb -->")
  {
    var prefix := [Taken('>'), Taken(' ')];
    assert Written(prefix) == "> " && Kept(prefix, 1) == "" && Kept(prefix, 2) == "";
    TwoLinesRead("<!-- a\n", prefix, "> ", "", "b -->");
    TwoLinesParsed("<!-- a\n", prefix, "b -->");
    assert "<!-- a\n" + "> " + "b -->" == "<!-- a\n> b -->" == QUOTED[2..16];
    assert "<!-- a\n" + "" + "b -->" == "<!-- a\nb -->";
  }

  lemma DriftingComments()
    ensures CommentsFrom("<!-- a\nb -->", 0) == [Range(0, 12)] && CommentsFrom("<!-- a\n> b -->", 0) == [Range(0, 14)]
  {
    OneComment("<!-- a\nb -->", " a\nb ", "");
    OneComment("<!-- a\n> b -->", " a\n> b ", "");
  }

  /** The comment ends at offset 16, but the script takes it to end at 14. */
  lemma DriftLosesCloser()
    ensures Covers(QUOTED, DRIFTING)
    ensures AllComments([DRIFTING]) == [Range(2, 14)] && SourceComments(QUOTED, [DRIFTING]) == [Range(2, 16)]
  {
    DriftingCovers();
    DriftingComments();
    OneNodeClaimed(DRIFTING, 12);
    OneNodeCovers(QUOTED, DRIFTING, 14);
  }

  /** A comment over two lines of a list item, of whose tab the item takes two columns and leaves two. */
  const LISTED := "- <!-- a\n\tb -->c"
  const STRETCHING := Html(2, TwoLines("<!-- a\n", [Divided(2)], "b -->c"))

  lemma StretchingCovers()
    ensures Covers(LISTED, STRETCHING) && Reads(STRETCHING.cells, "<!-- a\n\tb -->c", "<!-- a\n  b -->c")
  {
    var prefix := [Divided(2)];
    assert Written(prefix) == "\t" && Kept(prefix, 1) == "  ";
    TwoLinesRead("<!-- a\n", prefix, "\t", "  ", "b -->c");
    TwoLinesParsed("<!-- a\n", prefix, "b -->c");
    assert "<!-- a\n" + "\t" + "b -->c" == "<!-- a\n\tb -->c" == LISTED[2..16];
    assert "<!-- a\n" + "  " + "b -->c" == "<!-- a\n  b -->c";
  }

  lemma StretchingComments()
    ensures CommentsFrom("<!-- a\n  b -->c", 0) == [Range(0, 14)] && CommentsFrom("<!-- a\n\tb -->c", 0) == [Range(0, 13)]
  {
    OneComment("<!-- a\n  b -->c", " a\n  b ", "c");
    OneComment("<!-- a\n\tb -->c", " a\n\tb ", "c");
  }

  /** The comment ends at offset 15, but the script takes it to end at 16, behind the text that follows. */
  lemma TabOverruns()
    ensures Covers(LISTED, STRETCHING)
    ensures AllComments([STRETCHING]) == [Range(2, 16)] && SourceComments(LISTED, [STRETCHING]) == [Range(2, 15)]
  {
    StretchingCovers();
    StretchingComments();
    OneNodeClaimed(STRETCHING, 14);
    OneNodeCovers(LISTED, STRETCHING, 13);
  }
}
