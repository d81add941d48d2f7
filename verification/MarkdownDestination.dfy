/** Finding a link destination in its Markdown source: `destinationRange` of scripts/markdown.ts,
    against links, images and definitions written as the CommonMark standard allows. */
module MarkdownDestination {
  import opened Basics
  import opened BracketScan
  import opened Whitespace

  datatype Kind = Link | Image | Definition

  datatype Located = Located(start: nat, end: nat) | NoLabel | NoSeparator | NoInlineDestination | NotClosed

  // ----- the scans

  function LabelEndOf(t: string): (r: int)
    ensures r == -1 || 0 <= r < |t|
  {
    var first := IndexOf(t, '[', 0);
    if first == -1 then -1
    else
      var e := Stop(t, first + 1, 0, LABEL);
      if e == |t| then -1 else e
  }

  method LabelEnd(source: string) returns (end: int)
    ensures end == LabelEndOf(source)
  {
    var first := IndexOf(source, '[', 0);
    if first == -1 {
      return -1;
    }
    var depth, index := 0, first;
    while index < |source|
      invariant first <= index <= |source| + 1
      invariant index == first ==> depth == 0
      invariant index > first ==> depth >= 1 && Stop(source, first + 1, 0, LABEL) == Stop(source, index, depth - 1, LABEL)
    {
      var c := source[index];
      if c == '\\' {
        index := index + 1;
      } else if c == '[' {
        depth := depth + 1;
      } else if c == ']' {
        depth := depth - 1;
        if depth == 0 {
          return index;
        }
      }
      index := index + 1;
    }
    return -1;
  }

  method SkipWhitespace(source: string, start: nat) returns (index: nat)
    requires start <= |source|
    ensures index == FirstNonBlank(source, start)
  {
    index := start;
    while index < |source| && IsBlank(source[index])
      invariant start <= index <= |source|
      invariant FirstNonBlank(source, start) == FirstNonBlank(source, index)
    {
      index := index + 1;
    }
  }

  /** The destination that begins at `start`. */
  function LocateFrom(t: string, start: nat): Located
    requires start <= |t|
  {
    if start < |t| && t[start] == '<' then
      var e := Stop(t, start + 1, 0, ANGLE);
      if e == |t| then NotClosed else Located(start + 1, e)
    else Located(start, Stop(t, start, 0, ROUND))
  }

  /** Where the scan for the destination begins, once the label's end is known. */
  function DestinationStart(t: string, endOfLabel: nat, kind: Kind): (r: int)
    requires endOfLabel < |t|
    ensures r == -1 || 0 <= r <= |t|
  {
    match kind
    case Definition =>
      var colon := IndexOf(t, ':', endOfLabel + 1);
      if colon == -1 then -1 else FirstNonBlank(t, colon + 1)
    case _ =>
      if endOfLabel + 1 < |t| && t[endOfLabel + 1] == '(' then FirstNonBlank(t, endOfLabel + 2) else -1
  }

  function Locate(t: string, kind: Kind): Located {
    var endOfLabel := LabelEndOf(t);
    if endOfLabel == -1 then NoLabel
    else
      var start := DestinationStart(t, endOfLabel, kind);
      if start == -1 then if kind.Definition? then NoSeparator else NoInlineDestination
      else LocateFrom(t, start)
  }

  /** When each error is reported: no bracket opens or none closes it; a definition's label is followed by no colon; a
      link's or image's is not followed by a parenthesis; or an opening angle bracket is never closed. */
  lemma ErrorsMean(t: string, kind: Kind)
    ensures Locate(t, kind).NoLabel? <==> LabelEndOf(t) == -1
    ensures Locate(t, kind).NoSeparator? <==> kind == Definition && LabelEndOf(t) != -1 && ':' !in t[LabelEndOf(t) + 1..]
    ensures Locate(t, kind).NoInlineDestination? <==>
      kind != Definition && LabelEndOf(t) != -1 && !(LabelEndOf(t) + 1 < |t| && t[LabelEndOf(t) + 1] == '(')
    ensures Locate(t, kind).NotClosed? ==>
      exists start: nat :: start < |t| && t[start] == '<' && forall k: nat :: start < k < |t| && t[k] == '>' ==> t[k - 1] == '\\'
    ensures '[' !in t ==> Locate(t, kind).NoLabel?
  {
    var e := LabelEndOf(t);
    if e != -1 && kind == Definition {
      var colon := IndexOf(t, ':', e + 1);
      if colon == -1 {
        assert forall k :: e + 1 <= k < |t| ==> t[k] == t[e + 1..][k - e - 1];
      } else {
        assert t[e + 1..][colon - e - 1] == ':';
      }
    }
    if Locate(t, kind).NotClosed? {
      var start := DestinationStart(t, e, kind);
      NeverClosed(t, start + 1);
    }
  }

  /** A scan for a closing angle bracket that runs to the end has met only escaped ones. */
  lemma {:induction false} NeverClosed(t: string, i: nat)
    requires 0 < i <= |t| && Stop(t, i, 0, ANGLE) == |t|
    ensures forall k: nat :: i <= k < |t| && t[k] == '>' ==> t[k - 1] == '\\'
    decreases |t| - i
  {
    if i < |t| {
      if t[i] == '\\' {
        if i + 2 <= |t| {
          NeverClosed(t, i + 2);
        }
      } else {
        NeverClosed(t, i + 1);
      }
    }
  }

  method FindStart(rawNode: string, endOfLabel: nat, kind: Kind) returns (start: int)
    requires endOfLabel < |rawNode|
    ensures start == DestinationStart(rawNode, endOfLabel, kind)
  {
    if kind == Definition {
      var colon := IndexOf(rawNode, ':', endOfLabel + 1);
      if colon == -1 {
        return -1;
      }
      start := SkipWhitespace(rawNode, colon + 1);
    } else {
      if endOfLabel + 1 >= |rawNode| || rawNode[endOfLabel + 1] != '(' {
        return -1;
      }
      start := SkipWhitespace(rawNode, endOfLabel + 2);
    }
  }

  method DestinationRange(rawNode: string, kind: Kind) returns (range: Located)
    ensures range == Locate(rawNode, kind)
  {
    var endOfLabel := LabelEnd(rawNode);
    if endOfLabel == -1 {
      return NoLabel;
    }
    var start := FindStart(rawNode, endOfLabel, kind);
    if start == -1 {
      return if kind.Definition? then NoSeparator else NoInlineDestination;
    }
    if start < |rawNode| && rawNode[start] == '<' {
      range := AngleRange(rawNode, start);
    } else {
      range := BareRange(rawNode, start);
    }
  }

  method AngleRange(rawNode: string, start: nat) returns (range: Located)
    requires start < |rawNode| && rawNode[start] == '<'
    ensures range == LocateFrom(rawNode, start)
  {
    var index := start + 1;
    while index < |rawNode|
      invariant start + 1 <= index <= |rawNode| + 1
      invariant Stop(rawNode, start + 1, 0, ANGLE) == Stop(rawNode, index, 0, ANGLE)
    {
      if rawNode[index] == '\\' {
        index := index + 1;
      } else if rawNode[index] == '>' {
        return Located(start + 1, index);
      }
      index := index + 1;
    }
    return NotClosed;
  }

  method BareRange(rawNode: string, start: nat) returns (range: Located)
    requires start <= |rawNode| && (start < |rawNode| ==> rawNode[start] != '<')
    ensures range == LocateFrom(rawNode, start)
  {
    var depth, index := 0, start;
    while index < |rawNode|
      invariant start <= index <= |rawNode| + 1 && depth >= 0
      invariant Stop(rawNode, start, 0, ROUND) == Stop(rawNode, index, depth, ROUND)
    {
      var c := rawNode[index];
      if c == '\\' {
        index := index + 1;
      } else if c == '(' {
        depth := depth + 1;
      } else if c == ')' {
        if depth == 0 {
          return Located(start, index);
        }
        depth := depth - 1;
      } else if IsBlank(c) && depth == 0 {
        return Located(start, index);
      }
      index := index + 1;
    }
    return Located(start, |rawNode|);
  }

  // ----- what is written: CommonMark sections 6.3 and 4.7

  /** A bare destination may end in a backslash that escapes nothing. */
  datatype Target = Angle(items: seq<Item>) | Bare(items: seq<Item>, slash: bool) {

    function Written(): string { if Angle? then "<" + Name() + ">" else Name() }

    /** The part that names the destination, without the angle brackets. */
    function Name(): string {
      match this
      case Angle(items) => Print(items, ANGLE)
      case Bare(items, slash) => Print(items, ROUND) + if slash then "\\" else ""
    }
  }

  datatype Node = Node(kind: Kind, caption: string, gap: string, target: Target, tail: string) {

    function Opening(): string { if kind.Image? then "![" else "[" }

    function Separator(): string { if kind.Definition? then "]:" else "](" }

    function Head(): string { Opening() + caption + Separator() + gap }

    function Show(): string { Head() + target.Written() + tail }

    function Start(): nat { |Head()| + if target.Angle? then 1 else 0 }

    function End(): nat { Start() + |target.Name()| }
  }

  /** Spaces, tabs and line endings: all the standard allows around a destination. */
  predicate IsGap(c: char) { c == ' ' || c == '\t' || IsBreak(c) }

  /** Blanks, and behind a line ending the marks of the block quotes that the node stands in. */
  predicate LegalGap(gap: string) {
    forall k :: 0 <= k < |gap| ==> IsGap(gap[k]) || (gap[k] == '>' && exists j :: 0 <= j < k && IsBreak(gap[j]))
  }

  /** Characters a bare destination may hold: no ASCII control characters and no space. */
  predicate IsVisible(c: char) { c as int > 0x20 && c as int != 0x7F }

  predicate VisibleItem(item: Item)
    decreases item
  {
    match item
    case Plain(c) => IsVisible(c) && c != '\\' && c != '(' && c != ')'
    case Escaped(c) => IsVisible(c)
    case Group(items) => Visible(items)
  }

  predicate Visible(items: seq<Item>)
    decreases items
  {
    items == [] || (VisibleItem(items[0]) && Visible(items[1..]))
  }

  predicate AngleItem(item: Item) {
    !item.Group? && item.c != '\n' && item.c != '\r' && (item.Plain? ==> item.c != '<' && item.c != '>' && item.c != '\\')
  }

  predicate LegalTarget(target: Target) {
    match target
    case Angle(items) => forall k :: 0 <= k < |items| ==> AngleItem(items[k])
    case Bare(items, _) => Visible(items) && (items != [] ==> items[0] != Plain('<'))
  }

  /** No bracket but an escaped one: all the standard allows in the label of a definition. */
  ghost predicate Flat(caption: string) {
    exists items: seq<Item> ::
      Legal(items, LABEL, true) && caption == Print(items, LABEL) && forall item <- items :: !item.Group?
  }

  const EMPTY := Bare([], false)

  /** What follows the destination: an empty one is followed by nothing but the closing parenthesis, which would be
      escaped behind a backslash. */
  predicate LegalTail(kind: Kind, target: Target, tail: string) {
    if kind.Definition? then target != EMPTY && (tail == "" || IsGap(tail[0]))
    else tail != "" && (if tail[0] == ')' then target.Bare? ==> !target.slash else IsGap(tail[0]) && target != EMPTY)
  }

  ghost predicate WellFormed(node: Node) {
    && LegalGap(node.gap)
    && LegalTarget(node.target) && LegalTail(node.kind, node.target, node.tail)
    && (node.kind.Definition? ==> Flat(node.caption))
  }

  /** A character outside parentheses that the scan takes for white space: U+00A0 and its like. */
  ghost predicate OuterBlank(target: Target) {
    target.Bare? && exists k :: 0 <= k < |target.items| && target.items[k].Plain? && IsBlank(target.items[k].c)
  }

  /** The backslash that ends the destination takes the blank behind it along. */
  predicate TakesBlank(node: Node) {
    node.target.Bare? && node.target.slash && node.tail != ""
  }

  /** No mark of a block quote stands between the separator and the destination. */
  predicate Unmarked(node: Node) {
    '>' !in node.gap
  }

  // ----- the label

  lemma SpellsWhole(t: string, s: string)
    requires t == s
    ensures Stands(t, 0, s)
  {
    assert t[0..|s|] == s;
  }

  lemma SpellsTogether(t: string, i: nat, a: string, b: string)
    requires Stands(t, i, a) && Stands(t, i + |a|, b)
    ensures Stands(t, i, a + b)
  {
    StandsCharacters(t, i, a);
    StandsCharacters(t, i + |a|, b);
    forall k | 0 <= k < |a + b|
      ensures t[i + k] == (a + b)[k]
    {
      assert k >= |a| ==> t[i + |a| + (k - |a|)] == b[k - |a|];
    }
    StandsByCharacters(t, i, a + b);
  }

  /** Five stretches written one behind the other. */
  lemma FiveParts(t: string, a: string, b: string, c: string, d: string, e: string)
    requires t == (((a + b) + c) + d) + e
    ensures Stands(t, 0, a) && Stands(t, |a|, b) && Stands(t, |a| + |b|, c)
    ensures Stands(t, |a| + |b| + |c|, d) && Stands(t, |a| + |b| + |c| + |d|, e)
  {
    SpellsWhole(t, (((a + b) + c) + d) + e);
    SpellsBoth(t, 0, ((a + b) + c) + d, e);
    SpellsBoth(t, 0, (a + b) + c, d);
    SpellsBoth(t, 0, a + b, c);
    SpellsBoth(t, 0, a, b);
  }

  lemma AddedLast(h: string, w: string, t: string)
    ensures (h + w) + t == h + (w + t)
  {
  }

  /** The position of the bracket that ends the label, as written. */
  function Bracket(node: Node): nat { |node.Opening()| + |node.caption| }

  /** Where the parts of a node stand in its text. */
  lemma Parts(node: Node)
    ensures |node.Head()| == Bracket(node) + 2 + |node.gap|
    ensures |node.Show()| == |node.Head()| + |node.target.Written() + node.tail|
    ensures Stands(node.Show(), 0, node.Opening()) && Stands(node.Show(), |node.Opening()|, node.caption)
    ensures Stands(node.Show(), Bracket(node), node.Separator())
    ensures Stands(node.Show(), Bracket(node) + 2, node.gap)
    ensures Stands(node.Show(), |node.Head()|, node.target.Written() + node.tail)
  {
    AddedLast(node.Head(), node.target.Written(), node.tail);
    FiveParts(node.Show(), node.Opening(), node.caption, node.Separator(), node.gap, node.target.Written() + node.tail);
  }

  lemma SeparatorCharacters(node: Node)
    ensures var t, e := node.Show(), Bracket(node);
      e + 2 <= |t| && Stands(t, e, "]") && t[e] == ']' && t[e + 1] == if node.kind.Definition? then ':' else '('
  {
    var t, e, second := node.Show(), Bracket(node), if node.kind.Definition? then ':' else '(';
    Parts(node);
    assert node.Separator() == "]" + [second];
    SpellsBoth(t, e, "]", [second]);
    SpellsChar(t, e, ']');
    SpellsChar(t, e + 1, second);
  }

  lemma FirstBracket(t: string, opening: string)
    requires Stands(t, 0, opening) && (opening == "[" || opening == "![")
    ensures IndexOf(t, '[', 0) == |opening| - 1
  {
    var last := |opening| - 1;
    StandsCharacters(t, 0, opening);
    assert opening[last] == '[' && (last == 1 ==> opening[0] == '!');
  }

  /** The label's end is found exactly when its brackets balance. */
  lemma {:induction false} LabelFound(node: Node)
    ensures LabelEndOf(node.Show()) == Bracket(node) <==> Balanced(node.caption)
  {
    var t, a := node.Show(), node.Opening();
    Parts(node);
    SeparatorCharacters(node);
    SpellsTogether(t, |a|, node.caption, "]");
    LabelStops(t, |a|, node.caption);
    FirstBracket(t, a);
  }

  lemma {:induction false} SeparatorFound(node: Node)
    ensures Bracket(node) < |node.Show()|
    ensures DestinationStart(node.Show(), Bracket(node), node.kind) == FirstNonBlank(node.Show(), Bracket(node) + 2)
  {
    var t, e := node.Show(), Bracket(node);
    SeparatorCharacters(node);
    if node.kind.Definition? {
      assert IndexOf(t, ':', e + 1) == e + 1;
    }
  }

  /** The scan passes the blanks of a gap, but not the mark of a block quote. */
  lemma {:induction false} GapScanned(t: string, from: nat, gap: string, start: nat, end: nat)
    requires Stands(t, from, gap) && LegalGap(gap) && start == FirstNonBlank(t, from) && end == from + |gap|
    ensures if '>' !in gap then start >= end && (start > end ==> IsBlank(t[end])) else start < end && t[start] == '>'
  {
    StandsCharacters(t, from, gap);
    assert forall k :: from <= k < from + |gap| ==> t[k] == gap[k - from];
    if '>' in gap {
      var j :| 0 <= j < |gap| && gap[j] == '>';
      assert !IsBlank(t[from + j]);
    }
  }

  lemma GapHasNoBracket(t: string, from: nat, gap: string)
    requires Stands(t, from, gap) && LegalGap(gap)
    ensures forall k :: from <= k < from + |gap| ==> t[k] != ']'
  {
    StandsCharacters(t, from, gap);
    assert forall k :: from <= k < from + |gap| ==> t[k] == gap[k - from];
  }

  /** Past a correctly found label the scan starts at the destination or within blanks that it begins with; only the
      mark of a block quote stops it before. */
  lemma {:induction false} GapSkipped(node: Node)
    requires LegalGap(node.gap)
    ensures Bracket(node) + 2 <= |node.Head()| <= |node.Show()|
    ensures var start := DestinationStart(node.Show(), Bracket(node), node.kind);
      if Unmarked(node)
      then start >= |node.Head()| && (start > |node.Head()| ==> IsBlank(node.Show()[|node.Head()|]))
      else 0 <= start < |node.Head()| && node.Show()[start] == '>'
  {
    var t, from := node.Show(), Bracket(node) + 2;
    SeparatorFound(node);
    Parts(node);
    GapScanned(t, from, node.gap, DestinationStart(t, Bracket(node), node.kind), |node.Head()|);
  }

  // ----- the destination

  lemma {:induction false} AngleLegal(items: seq<Item>)
    requires forall k :: 0 <= k < |items| ==> AngleItem(items[k])
    ensures Legal(items, ANGLE, true)
  {
    if items != [] {
      AngleLegal(items[1..]);
    }
  }

  /** Visible text is legal inside parentheses, and outside them unless it holds a blank. */
  lemma {:induction false} VisibleLegal(items: seq<Item>, outer: bool)
    requires Visible(items)
    requires outer ==> forall k :: 0 <= k < |items| ==> !(items[k].Plain? && IsBlank(items[k].c))
    ensures Legal(items, ROUND, outer)
    decreases items
  {
    if items != [] {
      if items[0].Group? {
        VisibleLegal(items[0].items, false);
      }
      VisibleLegal(items[1..], outer);
    }
  }

  lemma {:induction false} PrintSplit(items: seq<Item>, k: nat, style: Style)
    requires k <= |items|
    ensures Print(items, style) == Print(items[..k], style) + Print(items[k..], style)
  {
    if k > 0 {
      PrintSplit(items[1..], k - 1, style);
      assert items[..k][1..] == items[1..][..k - 1];
      assert items[k..] == items[1..][k - 1..];
    } else {
      assert items[k..] == items;
    }
  }

  lemma {:induction false} VisiblePrefix(items: seq<Item>, k: nat)
    requires k <= |items| && Visible(items)
    ensures Visible(items[..k])
  {
    if k > 0 {
      VisiblePrefix(items[1..], k - 1);
      assert items[..k][1..] == items[1..][..k - 1];
    }
  }

  lemma {:induction false} AngleExact(t: string, at: nat, items: seq<Item>, tail: string)
    requires LegalTarget(Angle(items)) && Stands(t, at, Angle(items).Written() + tail)
    ensures LocateFrom(t, at) == Located(at + 1, at + 1 + |Print(items, ANGLE)|)
  {
    var name := Print(items, ANGLE);
    SpellsBoth(t, at, "<" + name + ">", tail);
    SpellsBoth(t, at, "<" + name, ">");
    SpellsBoth(t, at, "<", name);
    SpellsChar(t, at, '<');
    SpellsChar(t, at + 1 + |name|, '>');
    AngleLegal(items);
    Skips(t, at + 1, 0, items, ANGLE);
  }

  /** How a bare destination begins. */
  lemma BareBegins(t: string, at: nat, items: seq<Item>, tail: string)
    requires LegalTarget(Bare(items, false)) && items != [] && Stands(t, at, Print(items, ROUND) + tail)
    ensures at < |t| && t[at] != '<'
    ensures IsBlank(t[at]) <==> items[0].Plain? && IsBlank(items[0].c)
  {
    var first := ItemText(items[0], ROUND);
    assert Print(items, ROUND) + tail == [first[0]] + (first[1..] + Print(items[1..], ROUND) + tail);
    SpellsBoth(t, at, [first[0]], first[1..] + Print(items[1..], ROUND) + tail);
    SpellsChar(t, at, first[0]);
  }

  /** Over a bare destination without outer blanks the scan runs up to a backslash at its end. */
  lemma {:induction false} BareSkipped(t: string, at: nat, items: seq<Item>, rest: string)
    requires LegalTarget(Bare(items, false)) && !OuterBlank(Bare(items, false)) && Stands(t, at, Print(items, ROUND) + rest)
    requires items == [] && at < |t| ==> t[at] != '<'
    ensures LocateFrom(t, at) == Located(at, Stop(t, at + |Print(items, ROUND)|, 0, ROUND))
    ensures Stands(t, at + |Print(items, ROUND)|, rest)
  {
    SpellsBoth(t, at, Print(items, ROUND), rest);
    if items != [] {
      BareBegins(t, at, items, rest);
    }
    VisibleLegal(items, true);
    Skips(t, at, 0, items, ROUND);
  }

  /** What comes behind the text of a bare destination ends the scan, unless a backslash takes its first character. */
  lemma {:induction false} RestStops(t: string, e: nat, slash: string, tail: string)
    requires slash == "" || slash == "\\"
    requires Stands(t, e, slash + tail) && |t| == e + |slash + tail|
    requires tail == "" || IsGap(tail[0]) || (tail[0] == ')' && slash == "")
    ensures Stop(t, e, 0, ROUND) == e + |slash| <==> slash == "" || tail == ""
  {
    SpellsBoth(t, e, slash, tail);
    if slash != "" {
      SpellsChar(t, e, '\\');
    } else if tail != "" {
      assert tail == [tail[0]] + tail[1..];
      SpellsBoth(t, e, [tail[0]], tail[1..]);
      SpellsChar(t, e, tail[0]);
    }
  }

  lemma {:induction false} BareExact(t: string, at: nat, items: seq<Item>, slash: string, tail: string)
    requires LegalTarget(Bare(items, false)) && !OuterBlank(Bare(items, false)) && (slash == "" || slash == "\\")
    requires Stands(t, at, Print(items, ROUND) + (slash + tail)) && |t| == at + |Print(items, ROUND) + (slash + tail)|
    requires tail == "" || IsGap(tail[0]) || (tail[0] == ')' && slash == "")
    requires items == [] && at < |t| ==> t[at] != '<'
    ensures LocateFrom(t, at) == Located(at, at + |Print(items, ROUND) + slash|) <==> slash == "" || tail == ""
  {
    BareSkipped(t, at, items, slash + tail);
    RestStops(t, at + |Print(items, ROUND)|, slash, tail);
  }

  lemma StopsAtBlank(t: string, at: nat, items: seq<Item>, k: nat)
    requires Visible(items) && Stands(t, at, Print(items, ROUND))
    requires k < |items| && items[k].Plain? && IsBlank(items[k].c)
    requires forall j :: 0 <= j < k ==> !(items[j].Plain? && IsBlank(items[j].c))
    ensures at <= Stop(t, at, 0, ROUND) < at + |Print(items, ROUND)|
  {
    var before, after := Print(items[..k], ROUND), Print(items[k..], ROUND);
    PrintSplit(items, k, ROUND);
    SpellsBoth(t, at, before, after);
    SpellsBoth(t, at + |before|, [items[k].c], Print(items[k..][1..], ROUND));
    SpellsChar(t, at + |before|, items[k].c);
    VisiblePrefix(items, k);
    VisibleLegal(items[..k], true);
    Skips(t, at, 0, items[..k], ROUND);
    VisibleBlank(items, k);
  }

  /** The scan ends in front of the first outer blank. */
  lemma BareCutShort(t: string, at: nat, items: seq<Item>, tail: string)
    requires LegalTarget(Bare(items, false)) && OuterBlank(Bare(items, false))
    requires Stands(t, at, Print(items, ROUND) + tail) && !IsBlank(t[at])
    ensures LocateFrom(t, at).Located? && LocateFrom(t, at).end < at + |Print(items, ROUND)|
  {
    var k := FirstOuterBlank(items);
    SpellsBoth(t, at, Print(items, ROUND), tail);
    StopsAtBlank(t, at, items, k);
    BareBegins(t, at, items, tail);
  }

  lemma {:induction false} FirstOuterBlank(items: seq<Item>) returns (k: nat)
    requires OuterBlank(Bare(items, false))
    ensures k < |items| && items[k].Plain? && IsBlank(items[k].c)
    ensures forall j :: 0 <= j < k ==> !(items[j].Plain? && IsBlank(items[j].c))
  {
    k := 0;
    while !(items[k].Plain? && IsBlank(items[k].c))
      invariant k < |items|
      invariant forall j :: 0 <= j < k ==> !(items[j].Plain? && IsBlank(items[j].c))
      decreases |items| - k
    {
      k := k + 1;
    }
  }

  lemma {:induction false} VisibleBlank(items: seq<Item>, k: nat)
    requires Visible(items) && k < |items| && items[k].Plain?
    ensures items[k].c != '\\' && items[k].c != '(' && items[k].c != ')'
  {
    if k > 0 {
      VisibleBlank(items[1..], k - 1);
    }
  }

  // ----- the range of a whole node

  function Slash(target: Target): string
    requires target.Bare?
  {
    if target.slash then "\\" else ""
  }

  /** The scan from the place of a bare destination, whatever the text in front of it. */
  lemma {:induction false} BareScanned(t: string, at: nat, items: seq<Item>, slash: string, tail: string)
    requires LegalTarget(Bare(items, false)) && (slash == "" || slash == "\\")
    requires Stands(t, at, Print(items, ROUND) + (slash + tail)) && |t| == at + |Print(items, ROUND) + (slash + tail)|
    requires tail == "" || IsGap(tail[0]) || (tail[0] == ')' && slash == "")
    requires items == [] && at < |t| ==> t[at] != '<' && !IsBlank(t[at])
    ensures at < |t| && IsBlank(t[at]) ==> OuterBlank(Bare(items, false))
    ensures (at < |t| ==> !IsBlank(t[at])) ==>
      (LocateFrom(t, at) == Located(at, at + |Print(items, ROUND) + slash|) <==>
        !OuterBlank(Bare(items, false)) && (slash == "" || tail == ""))
  {
    if items != [] {
      BareBegins(t, at, items, slash + tail);
    }
    if !OuterBlank(Bare(items, false)) {
      BareExact(t, at, items, slash, tail);
    } else if !IsBlank(t[at]) {
      BareCutShort(t, at, items, slash + tail);
    }
  }

  /** What stands at the place of a bare destination without characters of its own. */
  lemma EmptyBegins(t: string, at: nat, node: Node)
    requires LegalTail(node.kind, node.target, node.tail) && node.target.Bare? && node.target.items == []
    requires Stands(t, at, Slash(node.target) + node.tail)
    requires Slash(node.target) + node.tail != ""
    ensures at < |t| && t[at] != '<' && !IsBlank(t[at])
  {
    var rest := Slash(node.target) + node.tail;
    assert rest == [rest[0]] + rest[1..];
    SpellsBoth(t, at, [rest[0]], rest[1..]);
    SpellsChar(t, at, rest[0]);
  }

  lemma BareParts(node: Node)
    requires node.target.Bare?
    ensures node.target.Written() + node.tail == Print(node.target.items, ROUND) + (Slash(node.target) + node.tail)
    ensures node.Start() == |node.Head()| && node.End() == |node.Head()| + |Print(node.target.items, ROUND) + Slash(node.target)|
    ensures OuterBlank(node.target) <==> OuterBlank(Bare(node.target.items, false))
  {
    AddedLast(Print(node.target.items, ROUND), Slash(node.target), node.tail);
  }

  /** From the place of a bare destination the scan finds its end exactly when neither a blank nor a backslash misleads
      it. */
  lemma {:induction false} BareFrom(node: Node)
    requires WellFormed(node) && node.target.Bare?
    ensures var t, at := node.Show(), |node.Head()|;
      && (at < |t| && IsBlank(t[at]) ==> OuterBlank(node.target))
      && ((at < |t| ==> !IsBlank(t[at])) ==>
            (LocateFrom(t, at) == Located(node.Start(), node.End()) <==> !OuterBlank(node.target) && !TakesBlank(node)))
  {
    var t, at, items, slash := node.Show(), |node.Head()|, node.target.items, Slash(node.target);
    Parts(node);
    BareParts(node);
    if items == [] && slash + node.tail != "" {
      assert Print(items, ROUND) + (slash + node.tail) == slash + node.tail;
      EmptyBegins(t, at, node);
    }
    BareScanned(t, at, items, slash, node.tail);
  }

  /** Given the label and no mark in the gap, the range is the destination's own exactly when neither a blank nor a
      backslash misleads the scan of the destination. */
  lemma {:induction false} GivenLabel(node: Node)
    requires WellFormed(node) && Balanced(node.caption) && Unmarked(node)
    ensures Locate(node.Show(), node.kind) == Located(node.Start(), node.End())
       <==> !OuterBlank(node.target) && !TakesBlank(node)
  {
    LabelFound(node);
    GapSkipped(node);
    Parts(node);
    match node.target
    case Angle(items) =>
      AngleExact(node.Show(), |node.Head()|, items, node.tail);
      assert node.Show()[|node.Head()|] == (node.target.Written() + node.tail)[0] == '<';
    case Bare(_, _) =>
      BareFrom(node);
  }

  /** Behind another bracket than the label's the scan starts too early or too late. */
  lemma OffLabel(t: string, found: nat, e: nat, head: nat)
    requires e + 2 <= head <= |t| && t[e + 1] == '(' && found + 2 <= |t| && (found <= e || found >= head)
    ensures var range := LocateFrom(t, FirstNonBlank(t, found + 2));
      range.Located? && head <= range.start <= head + 1 ==> found == e
  {
    assert !IsBlank(t[e + 1]);
  }

  /** In a link or an image the range can only be right when the label's end was. */
  lemma {:induction false} RightLabel(node: Node)
    requires WellFormed(node) && !node.kind.Definition?
    requires Locate(node.Show(), node.kind) == Located(node.Start(), node.End())
    ensures LabelEndOf(node.Show()) == Bracket(node)
  {
    var t, e, found := node.Show(), Bracket(node), LabelEndOf(node.Show());
    SeparatorCharacters(node);
    Parts(node);
    GapHasNoBracket(t, e + 2, node.gap);
    StopsAt(t, IndexOf(t, '[', 0) + 1, 0, LABEL);
    assert t[found] == ']' && found != e + 1;
    OffLabel(t, found, e, |node.Head()|);
  }

  /** Behind the mark of a block quote the range cannot be right. */
  lemma {:induction false} MarkMisleads(node: Node)
    requires WellFormed(node) && !Unmarked(node) && LabelEndOf(node.Show()) == Bracket(node)
    ensures Locate(node.Show(), node.kind) != Located(node.Start(), node.End())
  {
    GapSkipped(node);
  }

  /** The range found is the destination's own span exactly when the label's brackets balance, no mark of a block quote
      stands in front of the destination, the destination holds no blank outside parentheses, and no blank follows a
      backslash at its end. */
  lemma {:induction false} RangeIsDestination(node: Node)
    requires WellFormed(node)
    ensures Locate(node.Show(), node.kind) == Located(node.Start(), node.End())
       <==> Balanced(node.caption) && Unmarked(node) && !OuterBlank(node.target) && !TakesBlank(node)
  {
    LabelFound(node);
    if Locate(node.Show(), node.kind) == Located(node.Start(), node.End()) && !node.kind.Definition? {
      RightLabel(node);
    }
    if Balanced(node.caption) {
      if Unmarked(node) {
        GivenLabel(node);
      } else {
        MarkMisleads(node);
      }
    }
  }

  /** The span holds what was written there. */
  lemma SpanIsName(node: Node)
    ensures node.End() <= |node.Show()| && node.Show()[node.Start()..node.End()] == node.target.Name()
  {
    var t, at, name := node.Show(), |node.Head()|, node.target.Name();
    Parts(node);
    SpellsBoth(t, at, node.target.Written(), node.tail);
    if node.target.Angle? {
      SpellsBoth(t, at, "<" + name, ">");
      SpellsBoth(t, at, "<", name);
    }
  }

  // ----- where the promise fails

  const PLAIN_B := [Plain('b')]

  lemma PlainIsLegal()
    ensures Visible(PLAIN_B) && Print(PLAIN_B, ROUND) == "b" && LegalTarget(Bare(PLAIN_B, false))
    ensures Balanced("a")
  {
    assert Visible(PLAIN_B[1..]) && Print(PLAIN_B[1..], ROUND) == "";
    var caption := [Plain('a')];
    assert Legal(caption[1..], LABEL, true) && Print(caption[1..], LABEL) == "";
    assert Legal(caption, LABEL, true) && Print(caption, LABEL) == "a";
  }

  /** A no-break space is a legal character of a bare destination, but the range ends in front of it. */
  lemma NoBreakSpaceCutsShort()
    ensures var node := Node(Link, "a", "", Bare([Plain('b'), Plain('\U{00A0}'), Plain('c')], false), ")");
      WellFormed(node) && Locate(node.Show(), node.kind) != Located(node.Start(), node.End())
  {
    var items := [Plain('b'), Plain('\U{00A0}'), Plain('c')];
    var node := Node(Link, "a", "", Bare(items, false), ")");
    var two, one := [Plain('\U{00A0}'), Plain('c')], [Plain('c')];
    assert one[1..] == [] && two[1..] == one && items[1..] == two;
    assert Visible(one) && Visible(two) && Visible(items);
    assert items[1].Plain? && IsBlank(items[1].c);
    assert OuterBlank(node.target);
    RangeIsDestination(node);
  }

  /** A bracket inside a code span counts for the scan, though not for the standard. */
  lemma CodeSpanBracketMisleads()
    ensures var node := Node(Link, "`]`", "", Bare(PLAIN_B, false), ")");
      WellFormed(node) && Locate(node.Show(), node.kind) != Located(node.Start(), node.End())
  {
    var node := Node(Link, "`]`", "", Bare(PLAIN_B, false), ")");
    PlainIsLegal();
    var t := "[`]`]";
    assert t[1..1 + 4] == "`]`" + "]";
    assert Stop(t, 2, 0, LABEL) == 2 && Stop(t, 1, 0, LABEL) == 2;
    LabelStops(t, 1, "`]`");
    RangeIsDestination(node);
  }

  lemma MarkEndsAtBlank(t: string)
    requires t == "[a](\n> b)"
    ensures LocateFrom(t, 5) == Located(5, 6) && forall k :: 0 <= k < 7 && t[k] == '>' ==> k == 5
  {
    assert Stop(t, 6, 0, ROUND) == 6;
  }

  /** `> [a](` and `> b)` on two lines of a block quote: the range found is the second quote mark. */
  lemma QuoteMarkMisleads()
    ensures var node := Node(Link, "a", "\n> ", Bare(PLAIN_B, false), ")");
      WellFormed(node) && Balanced(node.caption) && Locate(node.Show(), node.kind) == Located(5, 6) != Located(node.Start(), node.End())
  {
    var node := Node(Link, "a", "\n> ", Bare(PLAIN_B, false), ")");
    PlainIsLegal();
    assert IsBreak(node.gap[0]);
    assert node.Show() == "[a](\n> b)" && node.Head() == "[a](\n> ";
    LabelFound(node);
    GapSkipped(node);
    MarkEndsAtBlank(node.Show());
  }

  /** `[a](b\ "t")`: the backslash escapes nothing, but the range runs on over the title. */
  lemma BackslashRunsOn()
    ensures var node := Node(Link, "a", "", Bare(PLAIN_B, true), " \"t\")");
      WellFormed(node) && Balanced(node.caption) && Locate(node.Show(), node.kind) != Located(node.Start(), node.End())
  {
    var node := Node(Link, "a", "", Bare(PLAIN_B, true), " \"t\")");
    PlainIsLegal();
    RangeIsDestination(node);
  }
}
