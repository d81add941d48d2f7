/** Replacing ranges of a text from the right: `rewriteMarkdown` of scripts/project-doc-site.ts, its last step. */
module Splice {
  import opened Sorting

  datatype Replacement = Replacement(start: nat, end: nat, value: string)

  /** The two ranges share no character, and a reader can tell which of them comes first. */
  predicate Disjoint(a: Replacement, b: Replacement) {
    a.start != b.start && (a.end <= b.start || b.end <= a.start)
  }

  /** Well-formed ranges of the text, pairwise disjoint. */
  ghost predicate Tidy(text: string, rs: set<Replacement>) {
    && (forall r <- rs :: r.start <= r.end <= |text|)
    && (forall a <- rs, b <- rs :: a == b || Disjoint(a, b))
  }

  // ----- simultaneous substitution, position by position and without any order

  ghost predicate StartsAt(rs: set<Replacement>, p: nat) {
    exists r <- rs :: r.start == p
  }

  ghost predicate CoveredAt(rs: set<Replacement>, p: nat) {
    exists r <- rs :: r.start <= p < r.end
  }

  ghost function ValueAt(rs: set<Replacement>, p: nat): string
    requires StartsAt(rs, p)
  {
    var r :| r in rs && r.start == p;
    r.value
  }

  /** What position `p` contributes: the value that starts there, and its own character unless replaced. */
  ghost function Piece(text: string, rs: set<Replacement>, p: nat): string {
    (if StartsAt(rs, p) then ValueAt(rs, p) else "")
    + (if p < |text| && !CoveredAt(rs, p) then [text[p]] else "")
  }

  /** The contributions of positions `lo` to `hi`, in order. */
  ghost function Pieces(text: string, rs: set<Replacement>, lo: nat, hi: nat): string
    decreases hi - lo
  {
    if lo >= hi then "" else Piece(text, rs, lo) + Pieces(text, rs, lo + 1, hi)
  }

  /** Every replacement made at once: position `|text|` is where a value may be appended. */
  ghost function Substituted(text: string, rs: set<Replacement>): string {
    Pieces(text, rs, 0, |text| + 1)
  }

  lemma {:induction false} PiecesSplit(text: string, rs: set<Replacement>, lo: nat, mid: nat, hi: nat)
    requires lo <= mid <= hi
    ensures Pieces(text, rs, lo, hi) == Pieces(text, rs, lo, mid) + Pieces(text, rs, mid, hi)
    decreases mid - lo
  {
    if lo < mid {
      PiecesSplit(text, rs, lo + 1, mid, hi);
    }
  }

  /** Positions that two sets treat alike contribute alike. */
  lemma {:induction false} PiecesAgree(text: string, rs: set<Replacement>, qs: set<Replacement>, lo: nat, hi: nat)
    requires forall p :: lo <= p < hi ==> Piece(text, rs, p) == Piece(text, qs, p)
    ensures Pieces(text, rs, lo, hi) == Pieces(text, qs, lo, hi)
    decreases hi - lo
  {
    if lo < hi {
      PiecesAgree(text, rs, qs, lo + 1, hi);
    }
  }

  /** Text that no replacement touches comes through unchanged. */
  lemma {:induction false} UntouchedText(text: string, rs: set<Replacement>, lo: nat, hi: nat)
    requires lo <= hi <= |text|
    requires forall p :: lo <= p < hi ==> !StartsAt(rs, p) && !CoveredAt(rs, p)
    ensures Pieces(text, rs, lo, hi) == text[lo..hi]
    decreases hi - lo
  {
    if lo < hi {
      UntouchedText(text, rs, lo + 1, hi);
      assert text[lo..hi] == [text[lo]] + text[lo + 1..hi];
    }
  }

  lemma {:induction false} CoveredText(text: string, rs: set<Replacement>, lo: nat, hi: nat)
    requires forall p :: lo <= p < hi ==> !StartsAt(rs, p) && CoveredAt(rs, p)
    ensures Pieces(text, rs, lo, hi) == ""
    decreases hi - lo
  {
    if lo < hi {
      CoveredText(text, rs, lo + 1, hi);
    }
  }

  lemma TheValue(text: string, rs: set<Replacement>, r: Replacement)
    requires Tidy(text, rs) && r in rs
    ensures StartsAt(rs, r.start) && ValueAt(rs, r.start) == r.value
  {
    assert StartsAt(rs, r.start);
    var other :| other in rs && other.start == r.start && other.value == ValueAt(rs, r.start);
    assert other == r || Disjoint(other, r);
  }

  /** A non-empty range turns into its value, whatever is replaced elsewhere. */
  lemma ReplacedText(text: string, rs: set<Replacement>, r: Replacement)
    requires Tidy(text, rs) && r in rs && r.start < r.end
    ensures Pieces(text, rs, r.start, r.end) == r.value
  {
    TheValue(text, rs, r);
    assert CoveredAt(rs, r.start);
    forall p | r.start + 1 <= p < r.end
      ensures !StartsAt(rs, p) && CoveredAt(rs, p)
    {
      assert forall s <- rs :: s == r || Disjoint(r, s);
    }
    CoveredText(text, rs, r.start + 1, r.end);
  }

  // ----- a replacement in front of the others

  ghost predicate After(rs: set<Replacement>, p: nat) {
    forall s <- rs :: p <= s.start
  }

  /** Nothing in front of every range changes. */
  lemma BeforeAll(text: string, rs: set<Replacement>, p: nat)
    requires After(rs, p) && p <= |text|
    ensures Substituted(text, rs) == text[..p] + Pieces(text, rs, p, |text| + 1)
  {
    PiecesSplit(text, rs, 0, p, |text| + 1);
    UntouchedText(text, rs, 0, p);
    assert text[0..p] == text[..p];
  }

  /** Beyond its range a replacement changes nothing. */
  lemma SamePiece(text: string, rs: set<Replacement>, r: Replacement, p: nat)
    requires Tidy(text, rs) && r.start < p && r.end <= p
    ensures Piece(text, rs + {r}, p) == Piece(text, rs, p)
  {
    var all := rs + {r};
    assert StartsAt(all, p) == StartsAt(rs, p);
    assert CoveredAt(all, p) == CoveredAt(rs, p);
    if StartsAt(rs, p) {
      assert StartsAt(all, p);
      var s :| s in all && s.start == p && s.value == ValueAt(all, p);
      TheValue(text, rs, s);
    }
  }

  /** An empty range inserts its value in front of the character it stands at. */
  lemma InsertedPiece(text: string, rs: set<Replacement>, r: Replacement)
    requires Tidy(text, rs + {r}) && After(rs, r.start + 1) && r.start == r.end
    ensures Piece(text, rs + {r}, r.start) == r.value + Piece(text, rs, r.start)
  {
    TheValue(text, rs + {r}, r);
  }

  lemma SamePieces(text: string, rs: set<Replacement>, r: Replacement, lo: nat, hi: nat)
    requires Tidy(text, rs) && r.start < lo && r.end <= lo
    ensures Pieces(text, rs + {r}, lo, hi) == Pieces(text, rs, lo, hi)
  {
    forall p | lo <= p < hi
      ensures Piece(text, rs + {r}, p) == Piece(text, rs, p)
    {
      SamePiece(text, rs, r, p);
    }
    PiecesAgree(text, rs + {r}, rs, lo, hi);
  }

  lemma FirstPiece(text: string, rs: set<Replacement>, p: nat, hi: nat)
    requires p < hi
    ensures Pieces(text, rs, p, hi) == Piece(text, rs, p) + Pieces(text, rs, p + 1, hi)
  {
  }

  lemma InText(text: string, rs: set<Replacement>, r: Replacement)
    requires Tidy(text, rs) && r in rs
    ensures r.start <= r.end <= |text|
  {
  }

  lemma FrontRange(text: string, rs: set<Replacement>, r: Replacement, end: nat)
    requires Tidy(text, rs) && Tidy(text, rs + {r}) && r.start < r.end <= end
    ensures Pieces(text, rs + {r}, r.start, end) == r.value + Pieces(text, rs, r.end, end)
  {
    PiecesSplit(text, rs + {r}, r.start, r.end, end);
    ReplacedText(text, rs + {r}, r);
    SamePieces(text, rs, r, r.end, end);
  }

  lemma FrontInsertion(text: string, rs: set<Replacement>, r: Replacement, end: nat)
    requires Tidy(text, rs) && Tidy(text, rs + {r}) && After(rs, r.start + 1) && r.start == r.end < end
    ensures Pieces(text, rs + {r}, r.start, end) == r.value + Pieces(text, rs, r.end, end)
  {
    FirstPiece(text, rs + {r}, r.start, end);
    FirstPiece(text, rs, r.start, end);
    InsertedPiece(text, rs, r);
    SamePieces(text, rs, r, r.start + 1, end);
  }

  /** One replacement in front of all the others substitutes its own range only. */
  lemma FrontStep(text: string, rs: set<Replacement>, r: Replacement)
    requires Tidy(text, rs) && Tidy(text, rs + {r}) && After(rs, r.start + 1)
    ensures Pieces(text, rs + {r}, r.start, |text| + 1) == r.value + Pieces(text, rs, r.end, |text| + 1)
  {
    var end := |text| + 1;
    InText(text, rs + {r}, r);
    if r.start < r.end {
      FrontRange(text, rs, r, end);
    } else {
      FrontInsertion(text, rs, r, end);
    }
  }

  // ----- the loop

  /** The replacements of a list, in no order. */
  ghost function Made(rs: seq<Replacement>): set<Replacement> {
    set r | r in rs
  }

  function ByStartDescending(a: Replacement, b: Replacement): int { b.start - a.start }

  lemma Descends(sorted: seq<Replacement>, i: nat)
    requires SortedBy(sorted, ByStartDescending) && i < |sorted|
    requires forall j, k :: 0 <= j < k < |sorted| ==> Disjoint(sorted[j], sorted[k])
    requires forall r <- sorted :: r.start <= r.end
    ensures After(Made(sorted[..i]), sorted[i].end) && After(Made(sorted[..i]), sorted[i].start + 1)
  {
    forall r | r in sorted[..i]
      ensures sorted[i].end <= r.start && sorted[i].start + 1 <= r.start
    {
      var j: nat :| j < i && sorted[j] == r;
      assert ByStartDescending(sorted[j], sorted[i]) <= 0 && Disjoint(sorted[j], sorted[i]);
    }
  }

  /** Distinct list entries with disjoint ranges: what the visited destinations give. */
  ghost predicate Apart(text: string, rs: seq<Replacement>) {
    && (forall r <- rs :: r.start <= r.end <= |text|)
    && (forall i, j :: 0 <= i < j < |rs| ==> Disjoint(rs[i], rs[j]))
  }

  /** Sorting keeps the ranges apart. */
  lemma SortedApart(text: string, rs: seq<Replacement>, sorted: seq<Replacement>)
    requires Apart(text, rs) && multiset(sorted) == multiset(rs)
    ensures Apart(text, sorted) && Made(sorted) == Made(rs)
  {
    forall r
      ensures r in sorted <==> r in rs
    {
      assert r in sorted <==> r in multiset(sorted);
      assert r in rs <==> r in multiset(rs);
    }
    ApartIsTidy(text, rs);
    forall i, j | 0 <= i < j < |sorted|
      ensures Disjoint(sorted[i], sorted[j])
    {
      if sorted[i] == sorted[j] {
        TwiceListed(sorted, i, j);
        ListedOnce(text, rs, sorted[i]);
        assert false;
      }
      assert sorted[i] in Made(rs) && sorted[j] in Made(rs);
    }
  }

  lemma TwiceListed(s: seq<Replacement>, i: nat, j: nat)
    requires i < j < |s| && s[i] == s[j]
    ensures multiset(s)[s[i]] >= 2
  {
    assert s == s[..j] + [s[j]] + s[j + 1..];
    assert s[i] in s[..j];
    assert s[i] in multiset(s[..j]);
  }

  lemma {:induction false} ListedOnce(text: string, rs: seq<Replacement>, r: Replacement)
    requires Apart(text, rs)
    ensures multiset(rs)[r] <= 1
  {
    if rs != [] {
      ListedOnce(text, rs[1..], r);
      assert rs == [rs[0]] + rs[1..];
      forall j | 0 <= j < |rs[1..]|
        ensures rs[1..][j] != rs[0]
      {
        assert Disjoint(rs[0], rs[j + 1]);
      }
      assert rs[0] !in rs[1..];
      assert rs[0] !in multiset(rs[1..]);
    }
  }

  lemma ApartIsTidy(text: string, rs: seq<Replacement>)
    requires Apart(text, rs)
    ensures Tidy(text, Made(rs))
  {
    forall a, b | a in rs && b in rs
      ensures a == b || Disjoint(a, b)
    {
      var i: nat :| i < |rs| && rs[i] == a;
      var j: nat :| j < |rs| && rs[j] == b;
    }
  }

  /** One iteration of the loop. */
  lemma Step(source: string, sorted: seq<Replacement>, i: nat, projected: string)
    requires Apart(source, sorted) && SortedBy(sorted, ByStartDescending) && i < |sorted|
    requires projected == Substituted(source, Made(sorted[..i]))
    ensures sorted[i].start <= sorted[i].end <= |projected|
    ensures projected[..sorted[i].start] + sorted[i].value + projected[sorted[i].end..]
         == Substituted(source, Made(sorted[..i + 1]))
  {
    var r, done := sorted[i], Made(sorted[..i]);
    MadeGrows(sorted, i);
    ApartIsTidy(source, sorted[..i]);
    ApartIsTidy(source, sorted[..i + 1]);
    Descends(sorted, i);
    BeforeAll(source, done, r.end);
    BeforeAll(source, done + {r}, r.start);
    FrontStep(source, done, r);
    Cut(source, projected, r, Pieces(source, done, r.end, |source| + 1));
  }

  lemma MadeGrows(sorted: seq<Replacement>, i: nat)
    requires i < |sorted|
    ensures Made(sorted[..i + 1]) == Made(sorted[..i]) + {sorted[i]}
  {
    assert sorted[..i + 1] == sorted[..i] + [sorted[i]];
  }

  lemma Cut(source: string, projected: string, r: Replacement, rest: string)
    requires r.start <= r.end <= |source| && projected == source[..r.end] + rest
    ensures r.end <= |projected|
    ensures projected[..r.start] + r.value + projected[r.end..] == source[..r.start] + (r.value + rest)
  {
    assert projected[..r.start] == source[..r.start];
    assert projected[r.end..] == rest;
  }

  lemma NothingMade(source: string)
    ensures Substituted(source, {}) == source
  {
    UntouchedText(source, {}, 0, |source|);
    PiecesSplit(source, {}, 0, |source|, |source| + 1);
    assert Pieces(source, {}, |source|, |source| + 1) == Piece(source, {}, |source|);
    assert source[0..|source|] == source;
  }

  /** `slice(0, n)` and `slice(n)`, which stop at the end of the text. */
  function Take(s: string, n: nat): string { if n <= |s| then s[..n] else s }

  function Drop(s: string, n: nat): string { if n <= |s| then s[n..] else "" }

  /** Replacing disjoint ranges from the highest start downwards is replacing them all at once. */
  method Apply(source: string, replacements: seq<Replacement>) returns (projected: string)
    ensures Apart(source, replacements) ==> projected == Substituted(source, Made(replacements))
  {
    SortPermutes(replacements, ByStartDescending);
    SortSorts(replacements, ByStartDescending);
    var sorted := Sort(replacements, ByStartDescending);
    ghost var apart := Apart(source, replacements);
    if apart {
      SortedApart(source, replacements, sorted);
    }
    projected := source;
    NothingMade(source);
    assert Made(sorted[..0]) == {};
    for i := 0 to |sorted|
      invariant apart ==> projected == Substituted(source, Made(sorted[..i]))
    {
      var replacement := sorted[i];
      if apart {
        Step(source, sorted, i, projected);
      }
      projected := Take(projected, replacement.start) + replacement.value + Drop(projected, replacement.end);
    }
    assert sorted[..|sorted|] == sorted;
  }
}
