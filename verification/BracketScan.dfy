/** The depth-counting scans of scripts/markdown.ts, and the bracketed text they recognise. */
module BracketScan {
  import opened Basics
  import opened Whitespace

  /** Which characters a scan counts: closers always, openers only when it `nests`. */
  datatype Style = Style(open: char, nests: bool, close: char, blankStops: bool)

  const LABEL := Style('[', true, ']', false)
  const ROUND := Style('(', true, ')', true)
  const ANGLE := Style('<', false, '>', false)

  predicate Usable(style: Style) {
    style.open != '\\' && style.close != '\\' && style.open != style.close && !IsBlank(style.close)
  }

  /** Where a scan standing at `i` with `depth` open brackets stops; the end of the text if nowhere. */
  function Stop(t: string, i: nat, depth: nat, style: Style): (e: nat)
    ensures e <= |t| && (i <= |t| ==> i <= e)
    decreases |t| - i
  {
    if i >= |t| then |t|
    else if t[i] == '\\' then Stop(t, i + 2, depth, style)
    else if style.nests && t[i] == style.open then Stop(t, i + 1, depth + 1, style)
    else if t[i] == style.close then if depth == 0 then i else Stop(t, i + 1, depth - 1, style)
    else if style.blankStops && depth == 0 && IsBlank(t[i]) then i
    else Stop(t, i + 1, depth, style)
  }

  lemma {:induction false} StopsAt(t: string, i: nat, depth: nat, style: Style)
    requires Stop(t, i, depth, style) < |t|
    ensures var c := t[Stop(t, i, depth, style)]; c == style.close || (style.blankStops && IsBlank(c))
    decreases |t| - i
  {
    if t[i] == '\\' {
      StopsAt(t, i + 2, depth, style);
    } else if style.nests && t[i] == style.open {
      StopsAt(t, i + 1, depth + 1, style);
    } else if t[i] == style.close {
      if depth > 0 {
        StopsAt(t, i + 1, depth - 1, style);
      }
    } else if !(style.blankStops && depth == 0 && IsBlank(t[i])) {
      StopsAt(t, i + 1, depth, style);
    }
  }

  // ----- bracketed text

  datatype Item = Plain(c: char) | Escaped(c: char) | Group(items: seq<Item>)

  function ItemText(item: Item, style: Style): (s: string)
    ensures |s| > 0
    decreases item
  {
    match item
    case Plain(c) => [c]
    case Escaped(c) => ['\\', c]
    case Group(items) => [style.open] + Print(items, style) + [style.close]
  }

  function Print(items: seq<Item>, style: Style): string
    decreases items
  {
    if items == [] then "" else ItemText(items[0], style) + Print(items[1..], style)
  }

  /** No plain character that the scan would act on; `outer` holds outside every group. */
  predicate LegalItem(item: Item, style: Style, outer: bool)
    decreases item
  {
    match item
    case Plain(c) =>
      && c != '\\' && c != style.close
      && !(style.nests && c == style.open)
      && !(style.blankStops && outer && IsBlank(c))
    case Escaped(_) => true
    case Group(items) => style.nests && Legal(items, style, false)
  }

  predicate Legal(items: seq<Item>, style: Style, outer: bool)
    decreases items
  {
    items == [] || (LegalItem(items[0], style, outer) && Legal(items[1..], style, outer))
  }

  lemma SpellsBoth(t: string, i: nat, a: string, b: string)
    requires Stands(t, i, a + b)
    ensures Stands(t, i, a) && Stands(t, i + |a|, b)
  {
    assert StandsShown(t, i, a + b, Shown);
    assert t[i..i + |a|] == (a + b)[..|a|] == a;
    assert t[i + |a|..i + |a| + |b|] == (a + b)[|a|..] == b;
  }

  lemma SpellsChar(t: string, i: nat, c: char)
    requires Stands(t, i, [c])
    ensures i < |t| && t[i] == c
  {
    StandsCharacters(t, i, [c]);
    assert t[i + 0] == [c][0];
  }

  /** A scan runs over legal text without changing its depth. */
  lemma {:induction false} Skips(t: string, i: nat, depth: nat, items: seq<Item>, style: Style)
    requires Legal(items, style, depth == 0) && Stands(t, i, Print(items, style)) && Usable(style)
    ensures Stop(t, i, depth, style) == Stop(t, i + |Print(items, style)|, depth, style)
    decreases items, 0
  {
    if items != [] {
      var first, rest := ItemText(items[0], style), Print(items[1..], style);
      SpellsBoth(t, i, first, rest);
      SkipsItem(t, i, depth, items[0], style);
      Skips(t, i + |first|, depth, items[1..], style);
    }
  }

  lemma {:induction false} SkipsItem(t: string, i: nat, depth: nat, item: Item, style: Style)
    requires LegalItem(item, style, depth == 0) && Stands(t, i, ItemText(item, style)) && Usable(style)
    ensures Stop(t, i, depth, style) == Stop(t, i + |ItemText(item, style)|, depth, style)
    decreases item
  {
    match item
    case Plain(c) =>
      SpellsChar(t, i, c);
    case Escaped(c) =>
      assert ItemText(item, style) == "\\" + [c];
      SpellsBoth(t, i, "\\", [c]);
      SpellsChar(t, i, '\\');
    case Group(inner) =>
      SkipsGroup(t, i, depth, inner, style);
  }

  lemma {:induction false} SkipsGroup(t: string, i: nat, depth: nat, inner: seq<Item>, style: Style)
    requires style.nests && Legal(inner, style, false) && Usable(style)
    requires Stands(t, i, [style.open] + Print(inner, style) + [style.close])
    ensures Stop(t, i, depth, style) == Stop(t, i + |Print(inner, style)| + 2, depth, style)
    decreases inner, 1
  {
    var text := Print(inner, style);
    SpellsBoth(t, i, [style.open] + text, [style.close]);
    SpellsBoth(t, i, [style.open], text);
    SpellsChar(t, i, style.open);
    SpellsChar(t, i + 1 + |text|, style.close);
    Skips(t, i + 1, depth + 1, inner, style);
    assert Stop(t, i, depth, style) == Stop(t, i + 1, depth + 1, style);
  }

  // ----- and whatever a scan runs over is legal text

  function PrintLists(lists: seq<seq<Item>>, style: Style): string
    requires lists != []
  {
    if |lists| == 1 then Print(lists[0], style)
    else Print(lists[0], style) + [style.close] + PrintLists(lists[1..], style)
  }

  /** One list for each bracket still open, the outermost last. */
  ghost predicate Reads(lists: seq<seq<Item>>, text: string, depth: nat, style: Style) {
    && |lists| == depth + 1 && text == PrintLists(lists, style)
    && forall k :: 0 <= k <= depth ==> Legal(lists[k], style, k == depth)
  }

  lemma Prepend(item: Item, lists: seq<seq<Item>>, text: string, depth: nat, style: Style)
    requires Reads(lists, text, depth, style) && LegalItem(item, style, depth == 0)
    ensures Reads([[item] + lists[0]] + lists[1..], ItemText(item, style) + text, depth, style)
  {
    var more := [[item] + lists[0]] + lists[1..];
    assert ([item] + lists[0])[1..] == lists[0];
    assert more[1..] == lists[1..];
    if depth > 0 {
      assert ItemText(item, style) + (Print(lists[0], style) + [style.close] + PrintLists(lists[1..], style))
          == ItemText(item, style) + Print(lists[0], style) + [style.close] + PrintLists(lists[1..], style);
    }
  }

  lemma Close(lists: seq<seq<Item>>, text: string, depth: nat, style: Style)
    requires Reads(lists, text, depth, style)
    ensures Reads([[]] + lists, [style.close] + text, depth + 1, style)
  {
    var more := [[]] + lists;
    assert more[1..] == lists;
    assert Print([], style) == "";
    forall k | 0 <= k <= depth + 1
      ensures Legal(more[k], style, k == depth + 1)
    {
      assert k > 0 ==> more[k] == lists[k - 1];
    }
  }

  lemma Open(lists: seq<seq<Item>>, text: string, depth: nat, style: Style)
    requires Reads(lists, text, depth + 1, style) && style.nests
    ensures Reads([[Group(lists[0])] + lists[1]] + lists[2..], [style.open] + text, depth, style)
  {
    var rest := lists[1..];
    var after := PrintLists(rest, style);
    forall k | 0 <= k <= depth
      ensures Legal(rest[k], style, k == depth)
    {
      assert rest[k] == lists[k + 1];
    }
    assert Reads(rest, after, depth, style);
    Prepend(Group(lists[0]), rest, after, depth, style);
    assert rest[1..] == lists[2..];
    assert [style.open] + text == [style.open] + Print(lists[0], style) + [style.close] + after;
  }

  lemma Prepended(item: Item, lists: seq<seq<Item>>, t: string, i: nat, e: nat, depth: nat, style: Style)
    returns (more: seq<seq<Item>>)
    requires i + |ItemText(item, style)| <= e <= |t| && t[i..i + |ItemText(item, style)|] == ItemText(item, style)
    requires Reads(lists, t[i + |ItemText(item, style)|..e], depth, style) && LegalItem(item, style, depth == 0)
    ensures Reads(more, t[i..e], depth, style)
  {
    var n := |ItemText(item, style)|;
    Prepend(item, lists, t[i + n..e], depth, style);
    assert t[i..e] == t[i..i + n] + t[i + n..e];
    more := [[item] + lists[0]] + lists[1..];
  }

  lemma Opened(lists: seq<seq<Item>>, t: string, i: nat, e: nat, depth: nat, style: Style)
    returns (more: seq<seq<Item>>)
    requires i < e <= |t| && t[i] == style.open && style.nests
    requires Reads(lists, t[i + 1..e], depth + 1, style)
    ensures Reads(more, t[i..e], depth, style)
  {
    Open(lists, t[i + 1..e], depth, style);
    assert t[i..e] == [style.open] + t[i + 1..e];
    more := [[Group(lists[0])] + lists[1]] + lists[2..];
  }

  lemma Closed(lists: seq<seq<Item>>, t: string, i: nat, e: nat, depth: nat, style: Style)
    returns (more: seq<seq<Item>>)
    requires i < e <= |t| && t[i] == style.close && Reads(lists, t[i + 1..e], depth, style)
    ensures Reads(more, t[i..e], depth + 1, style)
  {
    Close(lists, t[i + 1..e], depth, style);
    assert t[i..e] == [style.close] + t[i + 1..e];
    more := [[]] + lists;
  }

  lemma Ended(t: string, i: nat, style: Style) returns (lists: seq<seq<Item>>)
    requires i <= |t|
    ensures Reads(lists, t[i..i], 0, style)
  {
    lists := [[]];
    assert t[i..i] == Print([], style);
  }

  /** The text up to the stopping place is legal at every level that is still open. */
  lemma {:induction false} Parsed(t: string, i: nat, depth: nat, style: Style, e: nat) returns (lists: seq<seq<Item>>)
    requires i <= e < |t| && Stop(t, i, depth, style) == e
    ensures Reads(lists, t[i..e], depth, style)
    decreases |t| - i
  {
    if e == i {
      lists := Ended(t, i, style);
    } else if t[i] == '\\' {
      lists := Parsed(t, i + 2, depth, style, e);
      lists := Prepended(Escaped(t[i + 1]), lists, t, i, e, depth, style);
    } else if style.nests && t[i] == style.open {
      lists := Parsed(t, i + 1, depth + 1, style, e);
      lists := Opened(lists, t, i, e, depth, style);
    } else if t[i] == style.close {
      lists := Parsed(t, i + 1, depth - 1, style, e);
      lists := Closed(lists, t, i, e, depth - 1, style);
    } else {
      lists := Parsed(t, i + 1, depth, style, e);
      lists := Prepended(Plain(t[i]), lists, t, i, e, depth, style);
    }
  }

  /** Brackets that are not escaped come in nested pairs. */
  ghost predicate Balanced(s: string) {
    exists items :: Legal(items, LABEL, true) && s == Print(items, LABEL)
  }

  /** The label scan stops at the bracket that follows a text exactly when the text is balanced. */
  lemma LabelStops(t: string, i: nat, s: string)
    requires Stands(t, i, s + "]")
    ensures Stop(t, i, 0, LABEL) == i + |s| <==> Balanced(s)
  {
    SpellsBoth(t, i, s, "]");
    SpellsChar(t, i + |s|, ']');
    if Balanced(s) {
      var items :| Legal(items, LABEL, true) && s == Print(items, LABEL);
      Skips(t, i, 0, items, LABEL);
    }
    if Stop(t, i, 0, LABEL) == i + |s| {
      var lists := Parsed(t, i, 0, LABEL, i + |s|);
      assert StandsShown(t, i, s, Shown);
      assert s == Print(lists[0], LABEL);
    }
  }

  // ----- balance, counted

  /** An odd number of backslashes stands in front of position `k`. */
  predicate EscapedAt(s: string, k: nat)
    requires k <= |s|
  {
    k > 0 && s[k - 1] == '\\' && !EscapedAt(s, k - 1)
  }

  /** How many more brackets are opened than closed in front of position `k`, escaped ones left out. */
  function Net(s: string, k: nat): int
    requires k <= |s|
  {
    if k == 0 then 0
    else
      Net(s, k - 1)
      + if EscapedAt(s, k - 1) then 0 else if s[k - 1] == '[' then 1 else if s[k - 1] == ']' then -1 else 0
  }

  /** From position `from` on no bracket is closed that is not open. */
  ghost predicate NeverBelow(s: string, from: nat) {
    forall k: nat :: from <= k <= |s| ==> Net(s, k) >= 0
  }

  lemma NeverBelowStep(s: string, i: nat)
    requires i < |s| && Net(s, i) >= 0
    ensures NeverBelow(s, i) <==> NeverBelow(s, i + 1)
  {
  }

  /** What the scan counts on its way through a text and the bracket behind it. */
  lemma {:induction false} ScanCounts(s: string, t: string, i: nat, depth: nat)
    requires t == s + "]" && i <= |s| && !EscapedAt(s, i) && Net(s, i) == depth
    ensures Stop(t, i, depth, LABEL) == |s| <==> !EscapedAt(s, |s|) && Net(s, |s|) == 0 && NeverBelow(s, i)
    decreases |s| - i
  {
    if i == |s| {
      assert t[i] == ']';
    } else {
      assert t[i] == s[i];
      NeverBelowStep(s, i);
      if s[i] == '\\' {
        assert EscapedAt(s, i + 1) && Net(s, i + 1) == Net(s, i);
        if i + 1 < |s| {
          NeverBelowStep(s, i + 1);
          ScanCounts(s, t, i + 2, depth);
        }
      } else if s[i] == '[' {
        ScanCounts(s, t, i + 1, depth + 1);
      } else if s[i] == ']' {
        if depth > 0 {
          ScanCounts(s, t, i + 1, depth - 1);
        } else {
          assert Net(s, i + 1) == -1;
        }
      } else {
        ScanCounts(s, t, i + 1, depth);
      }
    }
  }

  /** A text is balanced exactly when, escaped brackets left out, it opens as many brackets as it closes, never closes one
      that is not open, and does not end in a backslash that would escape what follows. */
  lemma BalancedByCount(s: string)
    ensures Balanced(s) <==>
      !EscapedAt(s, |s|) && Net(s, |s|) == 0 && NeverBelow(s, 0)
  {
    var t := s + "]";
    StandsByCharacters(t, 0, s + "]");
    LabelStops(t, 0, s);
    ScanCounts(s, t, 0, 0);
  }
}
