/** `rewriteMarkdown` of scripts/project-doc-site.ts: collect a replacement for every destination
    to be rewritten, then splice. Printed documents in, printed documents out. */
module LinkRewriting {
  import opened Basics
  import opened BracketScan
  import opened MarkdownDestination
  import opened Splice

  /** What the routes say about a destination: leave it, or put another in its place. */
  datatype Route = Keep | Put(url: string)

  /** Markdown source as text with links, images and definitions in it; labels nest. */
  datatype Inline =
    | Text(raw: string)
    | Reference(kind: Kind, children: seq<Inline>, gap: string, target: Target, tail: string, route: Route)

  function AsNode(inline: Inline): Node
    requires inline.Reference?
    decreases inline, 0
  {
    Node(inline.kind, ShowAll(inline.children), inline.gap, inline.target, inline.tail)
  }

  function ShowOne(inline: Inline): string
    decreases inline, 1
  {
    match inline
    case Text(raw) => raw
    case Reference(_, _, _, _, _, _) => AsNode(inline).Show()
  }

  function ShowAll(doc: seq<Inline>): string
    decreases doc, 0
  {
    if doc == [] then "" else ShowOne(doc[0]) + ShowAll(doc[1..])
  }

  // ----- a reference as five stretches: opening, label, up to the name, the name, the rest

  function UpToName(node: Node): string {
    node.Separator() + node.gap + if node.target.Angle? then "<" else ""
  }

  function BehindName(node: Node): string {
    (if node.target.Angle? then ">" else "") + node.tail
  }

  function Stretches(node: Node, inner: string, name: string): string {
    node.Opening() + (inner + (UpToName(node) + (name + BehindName(node))))
  }

  function NewName(inline: Inline): string
    requires inline.Reference?
  {
    match inline.route case Keep => inline.target.Name() case Put(url) => url
  }

  /** The same document with the new destinations in it. */
  function RewrittenOne(inline: Inline): string
    decreases inline, 1
  {
    match inline
    case Text(raw) => raw
    case Reference(_, children, _, _, _, _) => Stretches(AsNode(inline), RewrittenAll(children), NewName(inline))
  }

  function RewrittenAll(doc: seq<Inline>): string
    decreases doc, 0
  {
    if doc == [] then "" else RewrittenOne(doc[0]) + RewrittenAll(doc[1..])
  }

  lemma Grouped(o: string, c: string, s: string, g: string, l: string, n: string, r: string, t: string)
    ensures (((o + c) + s) + g) + ((l + n) + r) + t == o + (c + ((s + g + l) + (n + (r + t))))
  {
  }

  /** What is shown is what keeping every destination would write. */
  lemma ShownStretches(node: Node)
    ensures node.Show() == Stretches(node, node.caption, node.target.Name())
  {
    var left, right := if node.target.Angle? then "<" else "", if node.target.Angle? then ">" else "";
    Grouped(node.Opening(), node.caption, node.Separator(), node.gap, left, node.target.Name(), right, node.tail);
    assert node.target.Written() == (left + node.target.Name()) + right;
  }

  lemma StretchLengths(node: Node)
    ensures node.Start() == |node.Opening()| + |node.caption| + |UpToName(node)|
    ensures |node.Show()| == node.End() + |BehindName(node)|
  {
    ShownStretches(node);
  }

  // ----- documents whose destinations to be rewritten can be located

  datatype Demand = Written | Labelled | Reached | Ended | Named

  ghost predicate Demanded(inline: Inline, demand: Demand)
    requires inline.Reference?
  {
    var node := AsNode(inline);
    match demand
    case Written => WellFormed(node)
    case Labelled => Balanced(node.caption)
    case Reached => Unmarked(node)
    case Ended => !OuterBlank(node.target) && !TakesBlank(node)
    case Named => node.target.Name() != ""
  }

  /** A reference that is kept has nothing to meet: the script does not look for its destination. */
  ghost predicate Meets(inline: Inline, demand: Demand)
    requires inline.Reference?
  {
    inline.route.Put? ==> Demanded(inline, demand)
  }

  /** Every destination to be rewritten can be located, and none of them is empty. */
  ghost predicate ReadyOne(inline: Inline)
    decreases inline, 1
  {
    match inline
    case Text(_) => true
    case Reference(_, children, _, _, _, _) => (forall demand :: Meets(inline, demand)) && ReadyAll(children)
  }

  ghost predicate ReadyAll(doc: seq<Inline>)
    decreases doc, 0
  {
    doc == [] || (ReadyOne(doc[0]) && ReadyAll(doc[1..]))
  }

  // ----- collecting

  datatype Collected = Unlocated(reason: Located) | Replacements(list: seq<Replacement>)

  function Both(a: Collected, b: Collected): Collected {
    match (a, b)
    case (Unlocated(_), _) => a
    case (_, Unlocated(_)) => b
    case (Replacements(x), Replacements(y)) => Replacements(x + y)
  }

  /** What a located destination contributes, or the error when there is none. */
  function Placed(range: Located, at: nat, url: string): Collected {
    match range
    case Located(start, end) => Replacements([Replacement(at + start, at + end, url)])
    case failed => Unlocated(failed)
  }

  function OwnRange(inline: Inline, at: nat): Collected
    requires inline.Reference?
  {
    match inline.route
    case Keep => Replacements([])
    case Put(url) =>
      Placed(Locate(AsNode(inline).Show(), inline.kind), at, url)
  }

  /** Depth first, a reference before what its label holds. */
  function CollectOne(inline: Inline, at: nat): Collected
    decreases inline, 1
  {
    match inline
    case Text(_) => Replacements([])
    case Reference(_, children, _, _, _, _) =>
      Both(OwnRange(inline, at), CollectAll(children, at + |AsNode(inline).Opening()|))
  }

  function CollectAll(doc: seq<Inline>, at: nat): Collected
    decreases doc, 0
  {
    if doc == [] then Replacements([])
    else Both(CollectOne(doc[0], at), CollectAll(doc[1..], at + |ShowOne(doc[0])|))
  }

  lemma BothAssociative(a: Collected, b: Collected, c: Collected)
    ensures Both(a, Both(b, c)) == Both(Both(a, b), c)
  {
    if a.Replacements? && b.Replacements? && c.Replacements? {
      assert a.list + (b.list + c.list) == a.list + b.list + c.list;
    }
  }

  lemma {:induction false} CollectParts(before: Collected, inline: Inline, at: nat)
    requires inline.Reference?
    ensures Both(before, CollectOne(inline, at))
         == Both(Both(before, OwnRange(inline, at)), CollectAll(inline.children, at + |AsNode(inline).Opening()|))
  {
    var own, inner := OwnRange(inline, at), CollectAll(inline.children, at + |AsNode(inline).Opening()|);
    assert CollectOne(inline, at) == Both(own, inner);
    BothAssociative(before, own, inner);
  }

  lemma BothEmpty(c: Collected)
    ensures Both(Replacements([]), c) == c
  {
    if c.Replacements? {
      assert [] + c.list == c.list;
    }
  }

  class Rewriter {
    const source: string
    var collected: Collected

    constructor (source: string)
      ensures this.source == source && collected == Replacements([])
    {
      this.source := source;
      collected := Replacements([]);
    }

    method Push(range: Located, at: nat, url: string)
      modifies this`collected
      ensures collected == Both(old(collected), Placed(range, at, url))
    {
      match collected
      case Unlocated(_) =>
      case Replacements(list) =>
        match range {
          case Located(start, end) =>
            collected := Replacements(list + [Replacement(at + start, at + end, url)]);
          case failed =>
            collected := Unlocated(failed);
        }
    }

    method RewriteNode(inline: Inline, at: nat)
      requires inline.Reference? && Stands(source, at, ShowOne(inline))
      modifies this`collected
      ensures collected == Both(old(collected), OwnRange(inline, at))
    {
      match inline.route
      case Keep =>
      case Put(url) =>
        var rawNode := source[at..at + |ShowOne(inline)|];
        assert rawNode == ShowOne(inline) by {
          assert StandsShown(source, at, ShowOne(inline), Shown);
        }
        var range := DestinationRange(rawNode, inline.kind);
        Push(range, at, url);
    }

    method VisitOne(inline: Inline, at: nat)
      requires Stands(source, at, ShowOne(inline))
      modifies this`collected
      ensures collected == Both(old(collected), CollectOne(inline, at))
      decreases inline, 1
    {
      match inline
      case Text(_) =>
      case Reference(_, children, _, _, _, _) =>
        RewriteNode(inline, at);
        LabelSpelled(source, at, inline);
        Visit(children, at + |AsNode(inline).Opening()|);
        CollectParts(old(collected), inline, at);
    }

    method Visit(doc: seq<Inline>, at: nat)
      requires Stands(source, at, ShowAll(doc))
      modifies this`collected
      ensures collected == Both(old(collected), CollectAll(doc, at))
      decreases doc, 0
    {
      if doc != [] {
        SpellsBoth(source, at, ShowOne(doc[0]), ShowAll(doc[1..]));
        VisitOne(doc[0], at);
        Visit(doc[1..], at + |ShowOne(doc[0])|);
        BothAssociative(old(collected), CollectOne(doc[0], at), CollectAll(doc[1..], at + |ShowOne(doc[0])|));
      }
    }
  }

  lemma LabelSpelled(source: string, at: nat, inline: Inline)
    requires inline.Reference? && Stands(source, at, ShowOne(inline))
    ensures Stands(source, at + |AsNode(inline).Opening()|, ShowAll(inline.children))
  {
    var node := AsNode(inline);
    var rest := UpToName(node) + (node.target.Name() + BehindName(node));
    ShownStretches(node);
    SpellsBoth(source, at, node.Opening(), node.caption + rest);
    SpellsBoth(source, at + |node.Opening()|, node.caption, rest);
  }

  // ----- what is collected from a document that is ready

  function OwnReplacement(inline: Inline, at: nat): seq<Replacement>
    requires inline.Reference?
  {
    match inline.route
    case Keep => []
    case Put(url) => [Replacement(at + AsNode(inline).Start(), at + AsNode(inline).End(), url)]
  }

  function ListOne(inline: Inline, at: nat): seq<Replacement>
    decreases inline, 1
  {
    if inline.Text? then []
    else OwnReplacement(inline, at) + ListAll(inline.children, at + |AsNode(inline).Opening()|)
  }

  function ListAll(doc: seq<Inline>, at: nat): seq<Replacement>
    decreases doc, 0
  {
    if doc == [] then [] else ListOne(doc[0], at) + ListAll(doc[1..], at + |ShowOne(doc[0])|)
  }

  lemma OwnLocated(inline: Inline)
    requires inline.Reference? && ReadyOne(inline) && inline.route.Put?
    ensures Locate(AsNode(inline).Show(), inline.kind) == Located(AsNode(inline).Start(), AsNode(inline).End())
  {
    assert Meets(inline, Written) && Meets(inline, Labelled) && Meets(inline, Reached) && Meets(inline, Ended);
    RangeIsDestination(AsNode(inline));
  }

  lemma OwnCollected(inline: Inline, at: nat)
    requires inline.Reference? && ReadyOne(inline)
    ensures OwnRange(inline, at) == Replacements(OwnReplacement(inline, at))
  {
    if inline.route.Put? {
      OwnLocated(inline);
    }
  }

  lemma OwnWithin(inline: Inline, at: nat)
    requires inline.Reference? && ReadyOne(inline)
    ensures var node := AsNode(inline);
      InStretch(OwnReplacement(inline, at), at + |node.Opening()| + |node.caption|, at + |node.Show()|)
  {
    assert Meets(inline, Named);
    StretchLengths(AsNode(inline));
  }

  lemma {:induction false} CollectedOne(inline: Inline, at: nat)
    requires ReadyOne(inline)
    ensures CollectOne(inline, at) == Replacements(ListOne(inline, at))
    decreases inline, 1
  {
    if inline.Reference? {
      OwnCollected(inline, at);
      CollectedAll(inline.children, at + |AsNode(inline).Opening()|);
    }
  }

  /** Every destination to be rewritten is found, so nothing but the intended replacements is collected. */
  lemma {:induction false} CollectedAll(doc: seq<Inline>, at: nat)
    requires ReadyAll(doc)
    ensures CollectAll(doc, at) == Replacements(ListAll(doc, at))
    decreases doc, 0
  {
    if doc != [] {
      CollectedOne(doc[0], at);
      CollectedAll(doc[1..], at + |ShowOne(doc[0])|);
    }
  }

  ghost predicate InStretch(rs: seq<Replacement>, lo: nat, hi: nat) {
    forall r <- rs :: lo <= r.start < r.end <= hi
  }

  ghost predicate RangesDisjoint(rs: seq<Replacement>) {
    forall i, j :: 0 <= i < j < |rs| ==> Disjoint(rs[i], rs[j])
  }

  /** Two lists whose ranges lie in separate stretches of the text. */
  lemma Separate(a: seq<Replacement>, b: seq<Replacement>, lo: nat, mid: nat, hi: nat)
    requires lo <= mid <= hi && RangesDisjoint(a) && RangesDisjoint(b)
    requires (InStretch(a, lo, mid) && InStretch(b, mid, hi)) || (InStretch(b, lo, mid) && InStretch(a, mid, hi))
    ensures RangesDisjoint(a + b) && InStretch(a + b, lo, hi)
  {
    forall i, j | 0 <= i < |a| && 0 <= j < |b|
      ensures Disjoint(a[i], b[j])
    {
      assert a[i] in a && b[j] in b;
    }
  }

  lemma {:induction false} PlacesOne(inline: Inline, at: nat)
    requires ReadyOne(inline)
    ensures RangesDisjoint(ListOne(inline, at)) && InStretch(ListOne(inline, at), at, at + |ShowOne(inline)|)
    decreases inline, 1
  {
    if inline.Reference? {
      var node, inner := AsNode(inline), at + |AsNode(inline).Opening()|;
      OwnWithin(inline, at);
      Places(inline.children, inner);
      Separate(OwnReplacement(inline, at), ListAll(inline.children, inner), at, inner + |node.caption|, at + |node.Show()|);
    }
  }

  /** Nested labels included, no two ranges touch. */
  lemma {:induction false} Places(doc: seq<Inline>, at: nat)
    requires ReadyAll(doc)
    ensures RangesDisjoint(ListAll(doc, at)) && InStretch(ListAll(doc, at), at, at + |ShowAll(doc)|)
    decreases doc, 0
  {
    if doc != [] {
      var next := at + |ShowOne(doc[0])|;
      var end := next + |ShowAll(doc[1..])|;
      var first, rest := ListOne(doc[0], at), ListAll(doc[1..], next);
      assert ListAll(doc, at) == first + rest && at + |ShowAll(doc)| == end;
      PlacesOne(doc[0], at);
      Places(doc[1..], next);
      Separate(first, rest, at, next, end);
    }
  }

  // ----- what is substituted, stretch by stretch

  predicate Outside(r: Replacement, lo: nat, hi: nat) {
    r.start < r.end && (r.end <= lo || hi <= r.start)
  }

  /** `mine` are the replacements of the stretch from `lo` to `hi`; all others keep out of it. */
  ghost predicate Owns(rs: set<Replacement>, mine: seq<Replacement>, lo: nat, hi: nat) {
    && (forall r <- mine :: r in rs)
    && (forall r <- rs :: r in mine || Outside(r, lo, hi))
  }

  datatype Claim = Spelled | Tidied | Owned

  ghost predicate Claimed(text: string, rs: set<Replacement>, mine: seq<Replacement>, at: nat, shown: string, claim: Claim) {
    match claim
    case Spelled => Stands(text, at, shown)
    case Tidied => Tidy(text, rs)
    case Owned => Owns(rs, mine, at, at + |shown|)
  }

  /** The text reads `shown` at `at`, and of all the replacements `mine` are the ones for it. */
  ghost predicate Stretch(text: string, rs: set<Replacement>, mine: seq<Replacement>, at: nat, shown: string) {
    forall claim :: Claimed(text, rs, mine, at, shown, claim)
  }

  /** A stretch of two parts, each with its own replacements, however they are listed. */
  lemma StretchSplit(text: string, rs: set<Replacement>, mine: seq<Replacement>, a: seq<Replacement>, b: seq<Replacement>,
                     at: nat, s: string, t: string)
    requires Stretch(text, rs, mine, at, s + t) && (mine == a + b || mine == b + a)
    requires InStretch(a, at, at + |s|) && InStretch(b, at + |s|, at + |s| + |t|)
    ensures Stretch(text, rs, a, at, s) && Stretch(text, rs, b, at + |s|, t)
  {
    assert Claimed(text, rs, mine, at, s + t, Spelled) && Claimed(text, rs, mine, at, s + t, Tidied);
    assert Claimed(text, rs, mine, at, s + t, Owned);
    SpellsBoth(text, at, s, t);
    OwnsPart(rs, mine, a, b, at, at + |s + t|, at, at + |s|);
    OwnsPart(rs, mine, b, a, at, at + |s + t|, at + |s|, at + |s| + |t|);
  }

  lemma OwnsPart(rs: set<Replacement>, mine: seq<Replacement>, part: seq<Replacement>, other: seq<Replacement>,
                 lo: nat, hi: nat, a: nat, b: nat)
    requires Owns(rs, mine, lo, hi) && lo <= a <= b <= hi
    requires mine == part + other || mine == other + part
    requires forall r <- other :: Outside(r, a, b)
    ensures Owns(rs, part, a, b)
  {
    assert forall r :: r in mine <==> r in part || r in other;
  }

  ghost predicate Says(text: string, rs: set<Replacement>, lo: nat, hi: nat, s: string, shown: Shown) {
    Pieces(text, rs, lo, hi) == s
  }

  /** Substitution turns the stretch from `lo` to `hi` into `s`. */
  ghost predicate Yields(text: string, rs: set<Replacement>, lo: nat, hi: nat, s: string) {
    forall shown :: Says(text, rs, lo, hi, s, shown)
  }

  lemma YieldsItself(text: string, rs: set<Replacement>, at: nat, s: string)
    requires Stretch(text, rs, [], at, s)
    ensures Yields(text, rs, at, at + |s|, s)
  {
    assert Claimed(text, rs, [], at, s, Spelled) && Claimed(text, rs, [], at, s, Owned);
    assert StandsShown(text, at, s, Shown);
    UntouchedText(text, rs, at, at + |s|);
  }

  lemma YieldsValue(text: string, rs: set<Replacement>, r: Replacement, s: string)
    requires Stretch(text, rs, [r], r.start, s) && r.end == r.start + |s| && s != ""
    ensures Yields(text, rs, r.start, r.end, r.value)
  {
    assert Claimed(text, rs, [r], r.start, s, Tidied) && Claimed(text, rs, [r], r.start, s, Owned);
    assert r in [r];
    ReplacedText(text, rs, r);
  }

  lemma YieldsBoth(text: string, rs: set<Replacement>, lo: nat, mid: nat, hi: nat, s: string, t: string)
    requires lo <= mid <= hi && Yields(text, rs, lo, mid, s) && Yields(text, rs, mid, hi, t)
    ensures Yields(text, rs, lo, hi, s + t)
  {
    assert Says(text, rs, lo, mid, s, Shown) && Says(text, rs, mid, hi, t, Shown);
    PiecesSplit(text, rs, lo, mid, hi);
  }

  lemma NameYields(text: string, rs: set<Replacement>, inline: Inline, at: nat)
    requires inline.Reference? && ReadyOne(inline)
    requires Stretch(text, rs, OwnReplacement(inline, at), at + AsNode(inline).Start(), inline.target.Name())
    ensures Yields(text, rs, at + AsNode(inline).Start(), at + AsNode(inline).End(), NewName(inline))
  {
    match inline.route
    case Keep => YieldsItself(text, rs, at + AsNode(inline).Start(), inline.target.Name());
    case Put(url) =>
      assert Meets(inline, Named);
      YieldsValue(text, rs, OwnReplacement(inline, at)[0], inline.target.Name());
  }

  /** The four cuts of a reference, from the left. */
  lemma CutReference(text: string, rs: set<Replacement>, inline: Inline, at: nat)
    requires inline.Reference? && ReadyOne(inline) && Stretch(text, rs, ListOne(inline, at), at, ShowOne(inline))
    ensures var node := AsNode(inline); var a := at + |node.Opening()|; var b := a + |node.caption|;
      && Stretch(text, rs, [], at, node.Opening())
      && Stretch(text, rs, ListAll(inline.children, a), a, node.caption)
      && Stretch(text, rs, [], b, UpToName(node))
      && Stretch(text, rs, OwnReplacement(inline, at), at + node.Start(), node.target.Name())
      && Stretch(text, rs, [], at + node.End(), BehindName(node))
  {
    var node := AsNode(inline);
    var name, behind, a := node.target.Name(), BehindName(node), at + |node.Opening()|;
    var b, own, inner := a + |node.caption|, OwnReplacement(inline, at), ListAll(inline.children, a);
    ShownStretches(node);
    StretchLengths(node);
    OwnWithin(inline, at);
    OwnPlace(inline, at);
    Places(inline.children, a);
    StretchSplit(text, rs, own + inner, [], own + inner, at, node.Opening(), node.caption + (UpToName(node) + (name + behind)));
    StretchSplit(text, rs, own + inner, inner, own, a, node.caption, UpToName(node) + (name + behind));
    StretchSplit(text, rs, own, [], own, b, UpToName(node), name + behind);
    StretchSplit(text, rs, own, own, [], at + node.Start(), name, behind);
  }

  lemma OwnPlace(inline: Inline, at: nat)
    requires inline.Reference? && ReadyOne(inline)
    ensures InStretch(OwnReplacement(inline, at), at + AsNode(inline).Start(), at + AsNode(inline).End())
  {
    assert Meets(inline, Named);
  }

  lemma JoinReference(text: string, rs: set<Replacement>, at: nat, node: Node, inner: string, name: string)
    requires Yields(text, rs, at, at + |node.Opening()|, node.Opening())
    requires Yields(text, rs, at + |node.Opening()|, at + |node.Opening()| + |node.caption|, inner)
    requires Yields(text, rs, at + |node.Opening()| + |node.caption|, at + node.Start(), UpToName(node))
    requires Yields(text, rs, at + node.Start(), at + node.End(), name)
    requires Yields(text, rs, at + node.End(), at + |node.Show()|, BehindName(node))
    ensures Yields(text, rs, at, at + |node.Show()|, Stretches(node, inner, name))
  {
    StretchLengths(node);
    var a, end := at + |node.Opening()|, at + |node.Show()|;
    var b, c, d := a + |node.caption|, at + node.Start(), at + node.End();
    YieldsBoth(text, rs, c, d, end, name, BehindName(node));
    YieldsBoth(text, rs, b, c, end, UpToName(node), name + BehindName(node));
    YieldsBoth(text, rs, a, b, end, inner, UpToName(node) + (name + BehindName(node)));
    YieldsBoth(text, rs, at, a, end, node.Opening(), inner + (UpToName(node) + (name + BehindName(node))));
  }

  /** The three stretches of a reference that no replacement touches. */
  lemma AroundYields(text: string, rs: set<Replacement>, node: Node, at: nat)
    requires Stretch(text, rs, [], at, node.Opening())
    requires Stretch(text, rs, [], at + |node.Opening()| + |node.caption|, UpToName(node))
    requires Stretch(text, rs, [], at + node.End(), BehindName(node))
    ensures Yields(text, rs, at, at + |node.Opening()|, node.Opening())
    ensures Yields(text, rs, at + |node.Opening()| + |node.caption|, at + node.Start(), UpToName(node))
    ensures Yields(text, rs, at + node.End(), at + |node.Show()|, BehindName(node))
  {
    StretchLengths(node);
    YieldsItself(text, rs, at, node.Opening());
    YieldsItself(text, rs, at + |node.Opening()| + |node.caption|, UpToName(node));
    YieldsItself(text, rs, at + node.End(), BehindName(node));
  }

  lemma {:induction false} ReferenceYields(text: string, rs: set<Replacement>, inline: Inline, at: nat)
    requires inline.Reference? && ReadyOne(inline) && Stretch(text, rs, ListOne(inline, at), at, ShowOne(inline))
    ensures Yields(text, rs, at, at + |ShowOne(inline)|, RewrittenOne(inline))
    decreases inline, 1
  {
    var node := AsNode(inline);
    var a := at + |node.Opening()|;
    CutReference(text, rs, inline, at);
    AroundYields(text, rs, node, at);
    AllYield(text, rs, inline.children, a);
    NameYields(text, rs, inline, at);
    JoinReference(text, rs, at, node, RewrittenAll(inline.children), NewName(inline));
  }

  // ----- documents in a text, their insides kept out of sight

  ghost predicate HoldsOneShown(text: string, rs: set<Replacement>, inline: Inline, at: nat, shown: Shown) {
    Stretch(text, rs, ListOne(inline, at), at, ShowOne(inline))
  }

  ghost predicate HoldsOne(text: string, rs: set<Replacement>, inline: Inline, at: nat) {
    forall shown :: HoldsOneShown(text, rs, inline, at, shown)
  }

  ghost predicate HoldsAllShown(text: string, rs: set<Replacement>, doc: seq<Inline>, at: nat, shown: Shown) {
    Stretch(text, rs, ListAll(doc, at), at, ShowAll(doc))
  }

  /** The document stands in the text at `at`, and of all replacements its own are the ones for it. */
  ghost predicate HoldsAll(text: string, rs: set<Replacement>, doc: seq<Inline>, at: nat) {
    forall shown :: HoldsAllShown(text, rs, doc, at, shown)
  }

  ghost predicate TurnsOneShown(text: string, rs: set<Replacement>, inline: Inline, at: nat, shown: Shown) {
    Yields(text, rs, at, at + |ShowOne(inline)|, RewrittenOne(inline))
  }

  ghost predicate TurnsOne(text: string, rs: set<Replacement>, inline: Inline, at: nat) {
    forall shown :: TurnsOneShown(text, rs, inline, at, shown)
  }

  ghost predicate TurnsAllShown(text: string, rs: set<Replacement>, doc: seq<Inline>, at: nat, shown: Shown) {
    Yields(text, rs, at, at + |ShowAll(doc)|, RewrittenAll(doc))
  }

  /** Substitution turns the document at `at` into the rewritten one. */
  ghost predicate TurnsAll(text: string, rs: set<Replacement>, doc: seq<Inline>, at: nat) {
    forall shown :: TurnsAllShown(text, rs, doc, at, shown)
  }

  ghost predicate BehindShown(doc: seq<Inline>, at: nat, next: nat, shown: Shown)
    requires doc != []
  {
    next == at + |ShowOne(doc[0])|
  }

  /** The second part of the document begins at `next`. */
  ghost predicate Behind(doc: seq<Inline>, at: nat, next: nat)
    requires doc != []
  {
    forall shown :: BehindShown(doc, at, next, shown)
  }

  lemma {:induction false} OneWithin(inline: Inline, at: nat)
    requires ReadyOne(inline)
    ensures InStretch(ListOne(inline, at), at, at + |ShowOne(inline)|)
  {
    PlacesOne(inline, at);
  }

  lemma {:induction false} AllWithin(doc: seq<Inline>, at: nat)
    requires ReadyAll(doc)
    ensures InStretch(ListAll(doc, at), at, at + |ShowAll(doc)|)
  {
    Places(doc, at);
  }

  lemma {:induction false} ReadyParts(doc: seq<Inline>)
    requires doc != [] && ReadyAll(doc)
    ensures ReadyOne(doc[0]) && ReadyAll(doc[1..])
  {
  }

  lemma {:induction false} HoldsTogether(text: string, rs: set<Replacement>, doc: seq<Inline>, at: nat, next: nat, first: string,
                                         rest: string, mine: seq<Replacement>, others: seq<Replacement>)
    requires doc != [] && HoldsAll(text, rs, doc, at) && first == ShowOne(doc[0]) && rest == ShowAll(doc[1..])
    requires next == at + |first| && mine == ListOne(doc[0], at) && others == ListAll(doc[1..], next)
    ensures Stretch(text, rs, mine + others, at, first + rest)
  {
    assert HoldsAllShown(text, rs, doc, at, Shown);
    assert ListAll(doc, at) == mine + others && ShowAll(doc) == first + rest;
  }

  /** Cutting off the first part of a document. */
  lemma {:induction false} CutDocument(text: string, rs: set<Replacement>, doc: seq<Inline>, at: nat) returns (next: nat)
    requires doc != [] && ReadyAll(doc) && HoldsAll(text, rs, doc, at)
    ensures Behind(doc, at, next) && HoldsOne(text, rs, doc[0], at) && HoldsAll(text, rs, doc[1..], next)
  {
    var first, rest := ShowOne(doc[0]), ShowAll(doc[1..]);
    next := at + |first|;
    var mine, others := ListOne(doc[0], at), ListAll(doc[1..], next);
    ReadyParts(doc);
    OneWithin(doc[0], at);
    AllWithin(doc[1..], next);
    HoldsTogether(text, rs, doc, at, next, first, rest, mine, others);
    StretchSplit(text, rs, mine + others, mine, others, at, first, rest);
  }

  lemma {:induction false} OneYields(text: string, rs: set<Replacement>, inline: Inline, at: nat)
    requires ReadyOne(inline) && Stretch(text, rs, ListOne(inline, at), at, ShowOne(inline))
    ensures Yields(text, rs, at, at + |ShowOne(inline)|, RewrittenOne(inline))
    decreases inline, 2
  {
    match inline
    case Text(raw) => YieldsItself(text, rs, at, raw);
    case Reference(_, _, _, _, _, _) => ReferenceYields(text, rs, inline, at);
  }

  lemma {:induction false} OneTurns(text: string, rs: set<Replacement>, inline: Inline, at: nat)
    requires ReadyOne(inline) && HoldsOne(text, rs, inline, at)
    ensures TurnsOne(text, rs, inline, at)
    decreases inline, 3
  {
    assert HoldsOneShown(text, rs, inline, at, Shown);
    OneYields(text, rs, inline, at);
  }

  lemma {:induction false} JoinDocument(text: string, rs: set<Replacement>, doc: seq<Inline>, at: nat, next: nat)
    requires doc != [] && Behind(doc, at, next)
    requires TurnsOne(text, rs, doc[0], at) && TurnsAll(text, rs, doc[1..], next)
    ensures TurnsAll(text, rs, doc, at)
  {
    var first, rest := ShowOne(doc[0]), ShowAll(doc[1..]);
    assert BehindShown(doc, at, next, Shown);
    assert TurnsOneShown(text, rs, doc[0], at, Shown) && TurnsAllShown(text, rs, doc[1..], next, Shown);
    assert ShowAll(doc) == first + rest && RewrittenAll(doc) == RewrittenOne(doc[0]) + RewrittenAll(doc[1..]);
    YieldsBoth(text, rs, at, next, next + |rest|, RewrittenOne(doc[0]), RewrittenAll(doc[1..]));
  }

  lemma NothingTurns(text: string, rs: set<Replacement>, at: nat)
    requires HoldsAll(text, rs, [], at)
    ensures TurnsAll(text, rs, [], at)
  {
    assert HoldsAllShown(text, rs, [], at, Shown);
    YieldsItself(text, rs, at, "");
  }

  lemma {:induction false} AllTurn(text: string, rs: set<Replacement>, doc: seq<Inline>, at: nat)
    requires ReadyAll(doc) && HoldsAll(text, rs, doc, at)
    ensures TurnsAll(text, rs, doc, at)
    decreases doc, 0
  {
    if doc == [] {
      NothingTurns(text, rs, at);
    } else {
      ReadyParts(doc);
      var next := CutDocument(text, rs, doc, at);
      OneTurns(text, rs, doc[0], at);
      AllTurn(text, rs, doc[1..], next);
      JoinDocument(text, rs, doc, at, next);
    }
  }

  /** Wherever a document stands in a text, its own replacements turn it into the rewritten document. */
  lemma {:induction false} AllYield(text: string, rs: set<Replacement>, doc: seq<Inline>, at: nat)
    requires ReadyAll(doc) && Stretch(text, rs, ListAll(doc, at), at, ShowAll(doc))
    ensures Yields(text, rs, at, at + |ShowAll(doc)|, RewrittenAll(doc))
    decreases doc, 1
  {
    AllTurn(text, rs, doc, at);
    assert TurnsAllShown(text, rs, doc, at, Shown);
  }

  lemma WholeStretch(text: string, list: seq<Replacement>)
    requires Apart(text, list)
    ensures Stretch(text, Made(list), list, 0, text)
  {
    ApartIsTidy(text, list);
    assert text[0..|text|] == text;
  }

  lemma NothingAppended(text: string, list: seq<Replacement>)
    requires InStretch(list, 0, |text|)
    ensures Substituted(text, Made(list)) == Pieces(text, Made(list), 0, |text|)
  {
    PiecesSplit(text, Made(list), 0, |text|, |text| + 1);
    assert Pieces(text, Made(list), |text|, |text| + 1) == Piece(text, Made(list), |text|) == "";
  }

  lemma {:induction false} ListIsApart(doc: seq<Inline>)
    requires ReadyAll(doc)
    ensures Apart(ShowAll(doc), ListAll(doc, 0)) && InStretch(ListAll(doc, 0), 0, |ShowAll(doc)|)
  {
    Places(doc, 0);
  }

  /** Substituting what a ready document gives prints the document with its new destinations. */
  lemma {:induction false} SubstitutedIsRewritten(doc: seq<Inline>)
    requires ReadyAll(doc)
    ensures Apart(ShowAll(doc), ListAll(doc, 0))
    ensures Substituted(ShowAll(doc), Made(ListAll(doc, 0))) == RewrittenAll(doc)
  {
    var text, list := ShowAll(doc), ListAll(doc, 0);
    ListIsApart(doc);
    WholeStretch(text, list);
    AllYield(text, Made(list), doc, 0);
    assert Says(text, Made(list), 0, |text|, RewrittenAll(doc), Shown);
    NothingAppended(text, list);
  }

  // ----- the rewritten document is a document

  function Verbatim(url: string): seq<Item> {
    if url == "" then [] else [Plain(url[0])] + Verbatim(url[1..])
  }

  lemma {:induction false} VerbatimPrints(url: string, style: Style)
    ensures Print(Verbatim(url), style) == url
  {
    if url != "" {
      VerbatimPrints(url[1..], style);
      assert url == [url[0]] + url[1..];
    }
  }

  /** The same kind of destination with another name. */
  function Renamed(target: Target, url: string): (other: Target)
    ensures other.Angle? == target.Angle?
  {
    match target
    case Angle(_) => Angle(Verbatim(url))
    case Bare(_, _) => Bare(Verbatim(url), false)
  }

  /** The document that has each new destination as its own. */
  function RetargetedOne(inline: Inline): Inline
    decreases inline, 1
  {
    match inline
    case Text(_) => inline
    case Reference(kind, children, gap, target, tail, Keep) => Reference(kind, RetargetedAll(children), gap, target, tail, Keep)
    case Reference(kind, children, gap, target, tail, Put(url)) =>
      Reference(kind, RetargetedAll(children), gap, Renamed(target, url), tail, Keep)
  }

  function RetargetedAll(doc: seq<Inline>): seq<Inline>
    decreases doc, 0
  {
    if doc == [] then [] else [RetargetedOne(doc[0])] + RetargetedAll(doc[1..])
  }

  lemma SameStretches(inline: Inline)
    requires inline.Reference?
    ensures var other := RetargetedOne(inline);
      && other.target.Name() == NewName(inline)
      && AsNode(other).Show() == Stretches(AsNode(inline), ShowAll(other.children), NewName(inline))
  {
    var other := RetargetedOne(inline);
    if inline.route.Put? {
      VerbatimPrints(inline.route.url, ANGLE);
      VerbatimPrints(inline.route.url, ROUND);
    }
    assert other.target.Name() == NewName(inline);
    ShownStretches(AsNode(other));
  }

  lemma {:induction false} OneIsRetargeted(inline: Inline)
    ensures RewrittenOne(inline) == ShowOne(RetargetedOne(inline))
    decreases inline, 1
  {
    if inline.Reference? {
      RewrittenIsRetargeted(inline.children);
      SameStretches(inline);
    }
  }

  /** The rewritten text is the text of the same document with the new destinations in place of the old. */
  lemma {:induction false} RewrittenIsRetargeted(doc: seq<Inline>)
    ensures RewrittenAll(doc) == ShowAll(RetargetedAll(doc))
    decreases doc, 0
  {
    if doc != [] {
      OneIsRetargeted(doc[0]);
      RewrittenIsRetargeted(doc[1..]);
      assert RetargetedAll(doc)[1..] == RetargetedAll(doc[1..]);
    }
  }

  // ----- the first destination that cannot be located

  function FailureOne(inline: Inline): Option<Located>
    decreases inline, 1
  {
    if inline.Text? then None
    else if inline.route.Put? && !Locate(AsNode(inline).Show(), inline.kind).Located? then
      Some(Locate(AsNode(inline).Show(), inline.kind))
    else FailureAll(inline.children)
  }

  function FailureAll(doc: seq<Inline>): Option<Located>
    decreases doc, 0
  {
    if doc == [] then None else if FailureOne(doc[0]).Some? then FailureOne(doc[0]) else FailureAll(doc[1..])
  }

  ghost function FailureOf(c: Collected): Option<Located> {
    match c case Unlocated(reason) => Some(reason) case Replacements(_) => None
  }

  lemma {:induction false} OneFails(inline: Inline, at: nat)
    ensures FailureOf(CollectOne(inline, at)) == FailureOne(inline)
    decreases inline, 1
  {
    if inline.Reference? {
      CollectionFails(inline.children, at + |AsNode(inline).Opening()|);
    }
  }

  /** Collecting fails with the first error of a destination to be rewritten, and only with one. */
  lemma {:induction false} CollectionFails(doc: seq<Inline>, at: nat)
    ensures FailureOf(CollectAll(doc, at)) == FailureAll(doc)
    decreases doc, 0
  {
    if doc != [] {
      OneFails(doc[0], at);
      CollectionFails(doc[1..], at + |ShowOne(doc[0])|);
    }
  }

  datatype Projection = Failed(reason: Located) | Projected(text: string)

  /** Every destination to be rewritten replaced in place, everything else as it was. */
  method RewriteMarkdown(doc: seq<Inline>) returns (r: Projection)
    ensures if FailureAll(doc).Some? then r == Failed(FailureAll(doc).value) else r.Projected?
    ensures ReadyAll(doc) ==> r == Projected(RewrittenAll(doc)) && r.text == ShowAll(RetargetedAll(doc))
  {
    var source := ShowAll(doc);
    var rewriter := new Rewriter(source);
    rewriter.Visit(doc, 0);
    BothEmpty(CollectAll(doc, 0));
    CollectionFails(doc, 0);
    RewrittenIsRetargeted(doc);
    if ReadyAll(doc) {
      CollectedAll(doc, 0);
      SubstitutedIsRewritten(doc);
    }
    match rewriter.collected
    case Unlocated(reason) =>
      r := Failed(reason);
    case Replacements(list) =>
      var projected := Apply(source, list);
      r := Projected(projected);
  }
}
