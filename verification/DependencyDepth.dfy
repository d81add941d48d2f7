/** The order of packages in terms of dependency chains. Without cycles: by the length of the longest chain below them, and
    by the display comparison among those of one length. And what comes next when every remaining package waits. */
module DependencyDepth {
  import opened Basics
  import opened Graphs
  import opened Packages
  import opened Sorting
  import opened Ordering
  import opened CycleFinder
  import opened PackageGraph
  import opened TopoSort

  /** `k` depends on a package that depends on a package, `n` times over. */
  ghost predicate HasChain(all: map<string, Pkg>, k: string, n: nat)
    decreases n
  {
    k in all && (n == 0 || exists d :: d in all[k].deps && HasChain(all, d, n - 1))
  }

  /** Some chain below `b` is longer than every chain below `a`. */
  ghost predicate Deeper(all: map<string, Pkg>, b: string, a: string) {
    exists n: nat :: HasChain(all, b, n) && !HasChain(all, a, n)
  }

  ghost predicate SameDepth(all: map<string, Pkg>, a: string, b: string) {
    forall n: nat :: HasChain(all, a, n) <==> HasChain(all, b, n)
  }

  lemma {:induction false} ShorterChain(all: map<string, Pkg>, k: string, m: nat, n: nat)
    requires HasChain(all, k, n) && m <= n
    ensures HasChain(all, k, m)
    decreases n
  {
    if m > 0 {
      var d :| d in all[k].deps && HasChain(all, d, n - 1);
      ShorterChain(all, d, m - 1, n - 1);
    }
  }

  /** The longest chain below `k` has length `n`. */
  ghost predicate Exactly(all: map<string, Pkg>, k: string, n: nat) {
    HasChain(all, k, n) && !HasChain(all, k, n + 1)
  }

  lemma ExactlySame(all: map<string, Pkg>, a: string, b: string, n: nat)
    requires Exactly(all, a, n) && Exactly(all, b, n)
    ensures SameDepth(all, a, b)
  {
    forall m: nat
      ensures HasChain(all, a, m) <==> HasChain(all, b, m)
    {
      if m <= n {
        ShorterChain(all, a, m, n);
        ShorterChain(all, b, m, n);
      } else {
        if HasChain(all, a, m) {
          ShorterChain(all, a, n + 1, m);
        }
        if HasChain(all, b, m) {
          ShorterChain(all, b, n + 1, m);
        }
      }
    }
  }

  /** Placed are the packages below which no chain has length `n`. */
  ghost predicate AtDepth(all: map<string, Pkg>, placed: set<string>, n: nat) {
    forall k :: k in placed <==> k in all && !HasChain(all, k, n)
  }

  lemma ReadyIsDepth(all: map<string, Pkg>, remaining: map<string, Pkg>, placed: set<string>, n: nat)
    requires Stage(all, remaining, placed) && AtDepth(all, placed, n)
    ensures forall k :: k in ReadySet(remaining, placed) <==> Exactly(all, k, n)
  {
    forall k
      ensures k in ReadySet(remaining, placed) <==> Exactly(all, k, n)
    {
      if k in all {
        assert HasChain(all, k, n + 1) <==> exists d :: d in all[k].deps && HasChain(all, d, n);
        assert forall d :: d in all[k].deps ==> (d in placed <==> !HasChain(all, d, n));
      }
    }
  }

  /** Without cycles some remaining package is ready. */
  lemma AcyclicIsReady(block: seq<Pkg>, all: map<string, Pkg>, remaining: map<string, Pkg>, placed: set<string>, display: Display)
    requires Stage(all, remaining, placed) && Acyclic(all) && IsNextBlock(block, remaining, placed, display)
    ensures ReadySet(remaining, placed) != {}
  {
    NextBlockParts(block, remaining, placed, display);
    if ReadySet(remaining, placed) == {} {
      var names := Members(block);
      forall a, b | a in names && b in names
        ensures a == b && a !in remaining[a].deps
      {
        StageReach(all, remaining, placed, a, b);
        assert Edge(GraphOf(all), a, a) <==> a in all[a].deps;
      }
      OneMember(names);
      assert false;
    }
  }

  lemma OneMember(names: set<string>)
    requires forall a, b :: a in names && b in names ==> a == b
    ensures |names| <= 1
  {
    if a :| a in names {
      assert names == {a};
    }
  }

  /** `a` may stand in front of `b`: `b` is deeper, or they are equally deep and display order puts `a` first. */
  ghost predicate Ordered(all: map<string, Pkg>, display: Display, a: Pkg, b: Pkg) {
    Deeper(all, b.short, a.short) || (SameDepth(all, a.short, b.short) && display.Compare(a, b) <= 0)
  }

  /** A block holds the packages of one depth, in display order. */
  lemma BlockIsDepth(block: seq<Pkg>, all: map<string, Pkg>, remaining: map<string, Pkg>, placed: set<string>,
                     display: Display, n: nat)
    requires Stage(all, remaining, placed) && Acyclic(all) && AtDepth(all, placed, n)
    requires IsNextBlock(block, remaining, placed, display)
    ensures forall i :: 0 <= i < |block| ==> Exactly(all, block[i].short, n)
    ensures forall i, j :: 0 <= i < j < |block| ==> Ordered(all, display, block[i], block[j])
    ensures AtDepth(all, placed + Members(block), n + 1)
  {
    NextBlockParts(block, remaining, placed, display);
    AcyclicIsReady(block, all, remaining, placed, display);
    ReadyIsDepth(all, remaining, placed, n);
    forall i | 0 <= i < |block|
      ensures Exactly(all, block[i].short, n)
    {
      assert Names(block)[i] in Members(block);
    }
    forall i, j | 0 <= i < j < |block|
      ensures Ordered(all, display, block[i], block[j])
    {
      ExactlySame(all, block[i].short, block[j].short, n);
    }
    forall k
      ensures k in placed + Members(block) <==> k in all && !HasChain(all, k, n + 1)
    {
      if k in placed && HasChain(all, k, n + 1) {
        ShorterChain(all, k, n, n + 1);
      }
    }
  }

  /** Every package has a chain of length `n` below it, and the packages stand by depth and display order. */
  ghost predicate InLayers(out: seq<Pkg>, all: map<string, Pkg>, display: Display, n: nat) {
    && (forall i :: 0 <= i < |out| ==> HasChain(all, out[i].short, n))
    && (forall i, j :: 0 <= i < j < |out| ==> Ordered(all, display, out[i], out[j]))
  }

  lemma LayerInFront(block: seq<Pkg>, rest: seq<Pkg>, all: map<string, Pkg>, display: Display, n: nat)
    requires InLayers(rest, all, display, n + 1)
    requires forall i :: 0 <= i < |block| ==> Exactly(all, block[i].short, n)
    requires forall i, j :: 0 <= i < j < |block| ==> Ordered(all, display, block[i], block[j])
    ensures InLayers(block + rest, all, display, n)
  {
    var out, k := block + rest, |block|;
    forall i | 0 <= i < |out|
      ensures HasChain(all, out[i].short, n)
    {
      if i >= k {
        assert out[i] == rest[i - k];
        ShorterChain(all, out[i].short, n, n + 1);
      }
    }
    forall i, j | 0 <= i < j < |out|
      ensures Ordered(all, display, out[i], out[j])
    {
      if i >= k {
        assert out[i] == rest[i - k] && out[j] == rest[j - k];
      } else if j >= k {
        assert out[i] == block[i] && out[j] == rest[j - k];
        assert HasChain(all, out[j].short, n + 1) && !HasChain(all, out[i].short, n + 1);
      }
    }
  }

  lemma {:induction false} Layered(out: seq<Pkg>, all: map<string, Pkg>, remaining: map<string, Pkg>, placed: set<string>,
                                   display: Display, n: nat)
    requires Stage(all, remaining, placed) && Acyclic(all) && AtDepth(all, placed, n)
    requires IsOrder(out, remaining, placed, display)
    ensures InLayers(out, all, display, n)
    decreases |out|
  {
    if remaining != map[] {
      var k :| 0 < k <= |out| && Splits(out, k, remaining, placed, display);
      var block, rest := out[..k], out[k..];
      BlockAdvances(block, all, remaining, placed, display);
      BlockIsDepth(block, all, remaining, placed, display, n);
      Layered(rest, all, remaining - Members(block), placed + Members(block), display, n + 1);
      LayerInFront(block, rest, all, display, n);
      Rejoin(out, k);
    }
  }

  /** Without dependency cycles the output is sorted by depth first and by display order second. */
  lemma AcyclicIsByDepth(packages: seq<Pkg>, out: seq<Pkg>, display: Display)
    requires PeersPresent(packages) && IsOrder(out, MapOf(packages), {}, display) && Acyclic(MapOf(packages))
    ensures forall i, j :: 0 <= i < j < |out| ==>
      || Deeper(MapOf(packages), out[j].short, out[i].short)
      || (SameDepth(MapOf(packages), out[i].short, out[j].short) && display.Compare(out[i], out[j]) <= 0)
  {
    var all := MapOf(packages);
    StageStart(packages);
    Layered(out, all, all, {}, display, 0);
    forall i, j | 0 <= i < j < |out|
      ensures Deeper(all, out[j].short, out[i].short)
        || (SameDepth(all, out[i].short, out[j].short) && display.Compare(out[i], out[j]) <= 0)
    {
      assert Ordered(all, display, out[i], out[j]);
    }
  }

  // ----- when every remaining package waits for another

  /** Whatever `k` depends on, however indirectly, depends on `k` in turn. */
  ghost predicate LeadsBack(all: map<string, Pkg>, k: string) {
    k in all && forall b :: LeadsTo(all, k, b) ==> LeadsTo(all, b, k)
  }

  lemma LeadsIsReach(all: map<string, Pkg>)
    ensures forall a, b :: LeadsTo(all, a, b) <==> Reach(GraphOf(all), a, b)
  {
    forall a, b
      ensures LeadsTo(all, a, b) <==> Reach(GraphOf(all), a, b)
    {
      ReachDepends(all, a, b);
    }
  }

  /** The packages mutually reachable with one that everything leads back to. */
  ghost function Around(remaining: map<string, Pkg>, k: string): set<string> {
    set b | b in remaining && Mutual(GraphOf(remaining), k, b)
  }

  lemma AroundIsScc(remaining: map<string, Pkg>, k: string)
    requires k in remaining
    ensures k in Around(remaining, k) && IsScc(GraphOf(remaining), Around(remaining, k))
  {
    var g, names := GraphOf(remaining), Around(remaining, k);
    ReachRefl(g, k);
    forall a, b | a in names && b in g
      ensures b in names <==> Mutual(g, a, b)
    {
      if b in names {
        ReachTrans(g, a, k, b);
        ReachTrans(g, b, k, a);
      }
      if Mutual(g, a, b) {
        ReachTrans(g, k, a, b);
        ReachTrans(g, b, a, k);
      }
    }
  }

  /** When nothing is ready, a package that everything leads back to lies on a cycle that no dependency leaves. */
  lemma AroundIsSinkCycle(all: map<string, Pkg>, remaining: map<string, Pkg>, placed: set<string>, k: string)
    requires Stage(all, remaining, placed) && ReadySet(remaining, placed) == {} && LeadsBack(remaining, k)
    ensures k in Around(remaining, k) && IsSinkCycle(Around(remaining, k), remaining)
  {
    var g, names := GraphOf(remaining), Around(remaining, k);
    LeadsIsReach(remaining);
    AroundIsScc(remaining, k);
    forall a, d | a in names && d in remaining[a].deps && d in remaining
      ensures d in names
    {
      ReachEdge(g, a, d);
      ReachTrans(g, k, a, d);
      assert LeadsTo(remaining, k, d);
    }
    assert k !in ReadySet(remaining, placed);
    var d :| d in remaining[k].deps && d !in placed;
    assert d in remaining && d in names;
    if d != k {
      assert {d, k} <= names && |{d, k}| == 2;
      SubsetNotLarger({d, k}, names);
    }
  }

  lemma SinkLeadsBack(remaining: map<string, Pkg>, names: set<string>, k: string)
    requires IsSinkCycle(names, remaining) && k in names
    ensures LeadsBack(remaining, k)
  {
    var g := GraphOf(remaining);
    LeadsIsReach(remaining);
    assert Closed(g, names);
    forall b | LeadsTo(remaining, k, b)
      ensures LeadsTo(remaining, b, k)
    {
      ReachStays(g, k, b, names);
      assert Mutual(g, k, b);
    }
  }

  lemma LeastLeadsBack(block: seq<Pkg>, all: map<string, Pkg>, remaining: map<string, Pkg>, placed: set<string>, display: Display, k: string)
    requires Stage(all, remaining, placed) && IsNextBlock(block, remaining, placed, display)
    requires ReadySet(remaining, placed) == {} && LeadsBack(remaining, k) && block != []
    ensures display.Compare(block[0], remaining[k]) <= 0
  {
    AroundIsSinkCycle(all, remaining, placed, k);
    NextBlockParts(block, remaining, placed, display);
  }

  lemma CycleMembers(remaining: map<string, Pkg>, names: set<string>, first: string, b: string)
    requires IsSinkCycle(names, remaining) && first in names
    ensures b in names <==> LeadsTo(remaining, first, b) && LeadsTo(remaining, b, first)
  {
    ReachDepends(remaining, first, b);
    ReachDepends(remaining, b, first);
    assert Closed(GraphOf(remaining), names);
    if LeadsTo(remaining, first, b) {
      ReachStays(GraphOf(remaining), first, b, names);
    }
    if b in names {
      assert Mutual(GraphOf(remaining), first, b);
    }
  }

  /** When no remaining package is ready, the next block starts with the package that comes first in display order among
      those that everything they lead to leads back to, and it holds just what leads to that package and back. */
  lemma BlockedBlock(block: seq<Pkg>, all: map<string, Pkg>, remaining: map<string, Pkg>, placed: set<string>, display: Display)
    requires Stage(all, remaining, placed) && IsNextBlock(block, remaining, placed, display)
    requires forall k :: k in remaining ==> exists d :: d in remaining[k].deps && d !in placed
    ensures block != [] && LeadsBack(remaining, block[0].short)
    ensures forall k :: LeadsBack(remaining, k) ==> display.Compare(block[0], remaining[k]) <= 0
    ensures forall b :: b in Members(block) <==>
      LeadsTo(remaining, block[0].short, b) && LeadsTo(remaining, b, block[0].short)
  {
    assert ReadySet(remaining, placed) == {};
    BlockIsCycle(block, remaining, placed, display);
    SinkLeadsBack(remaining, Members(block), block[0].short);
    forall k | LeadsBack(remaining, k)
      ensures display.Compare(block[0], remaining[k]) <= 0
    {
      LeastLeadsBack(block, all, remaining, placed, display, k);
    }
    forall b
      ensures b in Members(block) <==> LeadsTo(remaining, block[0].short, b) && LeadsTo(remaining, b, block[0].short)
    {
      CycleMembers(remaining, Members(block), block[0].short, b);
    }
  }

  lemma BlockIsCycle(block: seq<Pkg>, remaining: map<string, Pkg>, placed: set<string>, display: Display)
    requires IsNextBlock(block, remaining, placed, display) && ReadySet(remaining, placed) == {}
    ensures block != [] && block[0].short in Members(block) && IsSinkCycle(Members(block), remaining)
  {
    NextBlockParts(block, remaining, placed, display);
    assert Names(block)[0] in Members(block);
  }
}
