/** Finite directed graphs over string names: paths, reachability and strongly
    connected components, with the few closure lemmas every client needs. */
module Graphs {
  import opened Basics

  /** Every key is a node; edges to names that are not keys do not count. */
  type Graph = map<string, set<string>>

  ghost function Elems(s: seq<string>): set<string> {
    set x | x in s
  }

  lemma ElemsPrefix(s: seq<string>, n: nat)
    requires n < |s|
    ensures Elems(s[..n + 1]) == Elems(s[..n]) + {s[n]}
  {
    assert s[..n + 1] == s[..n] + [s[n]];
  }

  ghost predicate Edge(g: Graph, a: string, b: string) {
    a in g && b in g && b in g[a]
  }

  /** `p` is a walk of `g` from `a` to `b`. */
  ghost predicate Walk(g: Graph, a: string, p: seq<string>, b: string)
    decreases p
  {
    if p == [] then a == b && a in g
    else Edge(g, a, p[0]) && Walk(g, p[0], p[1..], b)
  }

  ghost predicate ReachShown(g: Graph, a: string, b: string, shown: Shown) {
    exists p :: Walk(g, a, p, b)
  }

  /** Some walk of `g` leads from `a` to `b`. */
  ghost predicate Reach(g: Graph, a: string, b: string) {
    forall shown :: ReachShown(g, a, b, shown)
  }

  lemma SomeWalk(g: Graph, a: string, b: string) returns (p: seq<string>)
    requires Reach(g, a, b)
    ensures Walk(g, a, p, b)
  {
    assert ReachShown(g, a, b, Shown);
    p :| Walk(g, a, p, b);
  }

  ghost predicate Mutual(g: Graph, a: string, b: string) {
    Reach(g, a, b) && Reach(g, b, a)
  }

  /** A strongly connected component: exactly the nodes mutually reachable with each member. */
  ghost predicate IsScc(g: Graph, c: set<string>) {
    && c != {} && c <= g.Keys
    && forall a, b :: a in c && b in g ==> (b in c <==> Mutual(g, a, b))
  }

  /** No edge of `g` leaves `s`. */
  ghost predicate Closed(g: Graph, s: set<string>) {
    forall a, b :: a in s && Edge(g, a, b) ==> b in s
  }

  lemma ReachRefl(g: Graph, a: string)
    requires a in g
    ensures Reach(g, a, a)
  {
    assert Walk(g, a, [], a);
  }

  lemma ReachEdge(g: Graph, a: string, b: string)
    requires Edge(g, a, b)
    ensures Reach(g, a, b)
  {
    assert Walk(g, b, [b][1..], b);
    assert Walk(g, a, [b], b);
  }

  lemma {:induction false} WalkConcat(g: Graph, a: string, p: seq<string>, b: string, q: seq<string>, c: string)
    requires Walk(g, a, p, b) && Walk(g, b, q, c)
    ensures Walk(g, a, p + q, c)
    decreases p
  {
    if p == [] {
      assert p + q == q;
    } else {
      WalkConcat(g, p[0], p[1..], b, q, c);
      assert (p + q)[1..] == p[1..] + q;
    }
  }

  lemma ReachTrans(g: Graph, a: string, b: string, c: string)
    requires Reach(g, a, b) && Reach(g, b, c)
    ensures Reach(g, a, c)
  {
    var p := SomeWalk(g, a, b);
    var q := SomeWalk(g, b, c);
    WalkConcat(g, a, p, b, q, c);
  }

  lemma {:induction false} WalkStays(g: Graph, a: string, p: seq<string>, b: string, s: set<string>)
    requires Walk(g, a, p, b) && a in s && Closed(g, s)
    ensures b in s
    decreases p
  {
    if p != [] {
      WalkStays(g, p[0], p[1..], b, s);
    }
  }

  /** A set that no edge leaves holds everything its members reach. */
  lemma ReachStays(g: Graph, a: string, b: string, s: set<string>)
    requires Reach(g, a, b) && a in s && Closed(g, s)
    ensures b in s
  {
    var p := SomeWalk(g, a, b);
    WalkStays(g, a, p, b, s);
  }

  /** Everything `a` reaches, as a set. */
  ghost function ReachSet(g: Graph, a: string): set<string> {
    set b | b in g && Reach(g, a, b)
  }

  lemma ReachSetClosed(g: Graph, a: string)
    ensures Closed(g, ReachSet(g, a))
  {
    forall x, y | x in ReachSet(g, a) && Edge(g, x, y)
      ensures y in ReachSet(g, a)
    {
      ReachEdge(g, x, y);
      ReachTrans(g, a, x, y);
    }
  }

  /** Two components that share a node are the same component. */
  lemma SccsDisjoint(g: Graph, c: set<string>, d: set<string>, x: string)
    requires IsScc(g, c) && IsScc(g, d) && x in c && x in d
    ensures c == d
  {
    assert forall b :: b in c ==> b in g && Mutual(g, x, b);
    assert forall b :: b in d ==> b in g && Mutual(g, x, b);
  }

  /** Dropping a set of nodes that no edge leaves keeps reachability among the others. */
  lemma {:induction false} WalkAvoids(g: Graph, h: Graph, gone: set<string>, a: string, p: seq<string>, b: string)
    requires Closed(g, gone) && h.Keys == g.Keys - gone
    requires forall x, y :: x in h && y in h ==> (Edge(h, x, y) <==> Edge(g, x, y))
    requires a in h && b in h && Walk(g, a, p, b)
    ensures Walk(h, a, p, b)
    decreases p
  {
    if p != [] {
      if p[0] in gone {
        WalkStays(g, p[0], p[1..], b, gone);
        assert false;
      }
      WalkAvoids(g, h, gone, p[0], p[1..], b);
    }
  }

  lemma {:induction false} WalkLifts(g: Graph, h: Graph, a: string, p: seq<string>, b: string)
    requires h.Keys <= g.Keys
    requires forall x, y :: Edge(h, x, y) ==> Edge(g, x, y)
    requires Walk(h, a, p, b)
    ensures Walk(g, a, p, b)
    decreases p
  {
    if p != [] {
      WalkLifts(g, h, p[0], p[1..], b);
    }
  }

  lemma ReachWithout(g: Graph, h: Graph, gone: set<string>, a: string, b: string)
    requires Closed(g, gone) && h.Keys == g.Keys - gone
    requires forall x, y :: x in h && y in h ==> (Edge(h, x, y) <==> Edge(g, x, y))
    requires a in h && b in h
    ensures Reach(g, a, b) <==> Reach(h, a, b)
  {
    if Reach(g, a, b) {
      var p := SomeWalk(g, a, b);
      WalkAvoids(g, h, gone, a, p, b);
    }
    if Reach(h, a, b) {
      var p := SomeWalk(h, a, b);
      WalkLifts(g, h, a, p, b);
    }
  }

  /** From any node a component is reachable that no edge leaves. */
  lemma {:induction false} SinkScc(g: Graph, a: string) returns (c: set<string>)
    requires a in g
    ensures IsScc(g, c) && Closed(g, c)
    decreases |ReachSet(g, a)|
  {
    ReachRefl(g, a);
    ReachSetClosed(g, a);
    if b :| b in ReachSet(g, a) && !Reach(g, b, a) {
      ReachSetShrinks(g, a, b);
      c := SinkScc(g, b);
    } else {
      c := ReachSet(g, a);
      assert a in c;
      forall x, y | x in c && y in g
        ensures y in c <==> Mutual(g, x, y)
      {
        if y in c {
          ReachTrans(g, x, a, y);
          ReachTrans(g, y, a, x);
        }
        if Mutual(g, x, y) {
          ReachTrans(g, a, x, y);
        }
      }
    }
  }

  /** Following an edge of no return loses the nodes left behind. */
  lemma ReachSetShrinks(g: Graph, a: string, b: string)
    requires a in g && Reach(g, a, b) && !Reach(g, b, a)
    ensures ReachSet(g, b) < ReachSet(g, a) && |ReachSet(g, b)| < |ReachSet(g, a)|
  {
    ReachRefl(g, a);
    forall x | x in ReachSet(g, b)
      ensures x in ReachSet(g, a)
    {
      ReachTrans(g, a, b, x);
    }
    assert a in ReachSet(g, a) && a !in ReachSet(g, b);
    SubsetSmaller(ReachSet(g, b), ReachSet(g, a));
  }
}
