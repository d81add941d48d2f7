/** What `topoSort` computes: packages in dependency order, a whole sink cycle at a
    time when every remaining package is blocked; and what such an order promises. */
module PackageGraph {
  import opened Basics
  import opened Graphs
  import opened Packages
  import opened Sorting
  import opened Ordering
  import opened CycleFinder

  // ----- what an order is

  /** Remaining packages with every dependency placed. */
  ghost function ReadySet(remaining: map<string, Pkg>, placed: set<string>): set<string> {
    set k | k in remaining && forall d :: d in remaining[k].deps ==> d in placed
  }

  datatype BlockRule = Arranged | AllReady | FirstCycle

  ghost predicate Follows(block: seq<Pkg>, remaining: map<string, Pkg>, placed: set<string>, display: Display, rule: BlockRule) {
    match rule
    case Arranged => block != [] && SortedBy(block, display.Compare)
    case AllReady => ReadySet(remaining, placed) != {} ==> Lists(block, ReadySet(remaining, placed), remaining)
    case FirstCycle =>
      ReadySet(remaining, placed) == {} && block != [] ==>
        && IsSinkCycle(Members(block), remaining) && Lists(block, Members(block), remaining)
        && forall names, k :: IsSinkCycle(names, remaining) && k in names && k in remaining
             ==> display.Compare(block[0], remaining[k]) <= 0
  }

  /** The block the loop places next: all ready packages, or else the sink cycle holding the first package on any sink cycle. */
  ghost predicate IsNextBlock(block: seq<Pkg>, remaining: map<string, Pkg>, placed: set<string>, display: Display) {
    forall rule :: Follows(block, remaining, placed, display, rule)
  }

  lemma NextBlockParts(block: seq<Pkg>, remaining: map<string, Pkg>, placed: set<string>, display: Display)
    requires IsNextBlock(block, remaining, placed, display)
    ensures block != [] && SortedBy(block, display.Compare)
    ensures ReadySet(remaining, placed) != {} ==> Lists(block, ReadySet(remaining, placed), remaining)
    ensures ReadySet(remaining, placed) == {} ==>
      && IsSinkCycle(Members(block), remaining) && Lists(block, Members(block), remaining)
      && forall names, k :: IsSinkCycle(names, remaining) && k in names && k in remaining
           ==> display.Compare(block[0], remaining[k]) <= 0
  {
    assert Follows(block, remaining, placed, display, Arranged);
    assert Follows(block, remaining, placed, display, AllReady);
    assert Follows(block, remaining, placed, display, FirstCycle);
  }

  lemma NextBlockSome(block: seq<Pkg>, remaining: map<string, Pkg>, placed: set<string>, display: Display)
    requires IsNextBlock(block, remaining, placed, display)
    ensures block != []
  {
    assert Follows(block, remaining, placed, display, Arranged);
  }

  /** `out` is the concatenation of the next blocks, from `remaining` until nothing remains. */
  ghost predicate IsOrder(out: seq<Pkg>, remaining: map<string, Pkg>, placed: set<string>, display: Display)
    decreases |out|
  {
    if remaining == map[] then out == []
    else exists k :: 0 < k <= |out| && Splits(out, k, remaining, placed, display)
  }

  ghost predicate Splits(out: seq<Pkg>, k: nat, remaining: map<string, Pkg>, placed: set<string>, display: Display)
    requires 0 < k <= |out|
    decreases |out|, 0
  {
    && IsNextBlock(out[..k], remaining, placed, display)
    && IsOrder(out[k..], remaining - Members(out[..k]), placed + Members(out[..k]), display)
  }

  // ----- the order is canonical

  ghost predicate ListingShown(a: seq<Pkg>, names: set<string>, remaining: map<string, Pkg>, display: Display, shown: Shown) {
    Collates(display.locale) && Lists(a, names, remaining) && SortedBy(a, display.Compare)
  }

  /** The named packages, each once and in display order. */
  ghost predicate Listing(a: seq<Pkg>, names: set<string>, remaining: map<string, Pkg>, display: Display) {
    forall shown :: ListingShown(a, names, remaining, display, shown)
  }

  lemma SizesSame(a: seq<Pkg>, b: seq<Pkg>, names: set<string>, remaining: map<string, Pkg>, display: Display)
    requires Listing(a, names, remaining, display) && Listing(b, names, remaining, display)
    ensures |a| == |b|
  {
    assert ListingShown(a, names, remaining, display, Shown) && ListingShown(b, names, remaining, display, Shown);
    MembersSize(a);
    MembersSize(b);
  }

  lemma HeadsSame(a: seq<Pkg>, b: seq<Pkg>, names: set<string>, remaining: map<string, Pkg>, display: Display)
    requires Listing(a, names, remaining, display) && Listing(b, names, remaining, display) && a != [] && b != []
    ensures a[0] == b[0]
  {
    assert ListingShown(a, names, remaining, display, Shown) && ListingShown(b, names, remaining, display, Shown);
    HeadLeast(a, names, remaining, display);
    HeadLeast(b, names, remaining, display);
    display.CompareAntisymmetric(a[0], b[0]);
  }

  lemma TailListing(a: seq<Pkg>, names: set<string>, remaining: map<string, Pkg>, display: Display)
    requires Listing(a, names, remaining, display) && a != []
    ensures Listing(a[1..], names - {a[0].short}, remaining, display)
  {
    assert ListingShown(a, names, remaining, display, Shown);
    TailLists(a, names, remaining);
  }

  lemma {:induction false} ListingUnique(a: seq<Pkg>, b: seq<Pkg>, names: set<string>, remaining: map<string, Pkg>,
                                         display: Display)
    requires Listing(a, names, remaining, display) && Listing(b, names, remaining, display)
    ensures a == b
    decreases |a|
  {
    SizesSame(a, b, names, remaining, display);
    if a != [] {
      HeadsSame(a, b, names, remaining, display);
      TailListing(a, names, remaining, display);
      TailListing(b, names, remaining, display);
      ListingUnique(a[1..], b[1..], names - {a[0].short}, remaining, display);
      assert a == [a[0]] + a[1..] && b == [b[0]] + b[1..];
    }
  }

  lemma HeadLeast(a: seq<Pkg>, names: set<string>, remaining: map<string, Pkg>, display: Display)
    requires Collates(display.locale)
    requires Lists(a, names, remaining) && SortedBy(a, display.Compare) && a != []
    ensures a[0].short in names && a[0].short in remaining && remaining[a[0].short] == a[0]
    ensures forall k :: k in names ==> k in remaining && display.Compare(a[0], remaining[k]) <= 0
  {
    display.CompareIsComparison();
    assert a[0] in a;
    MembersOf(a);
    forall k | k in names
      ensures k in remaining && display.Compare(a[0], remaining[k]) <= 0
    {
      var p :| p in a && p.short == k;
      var i :| 0 <= i < |a| && a[i] == p;
      assert display.Compare(a[0], a[0]) <= 0;
    }
  }

  lemma TailLists(a: seq<Pkg>, names: set<string>, remaining: map<string, Pkg>)
    requires Lists(a, names, remaining) && a != []
    ensures Lists(a[1..], names - {a[0].short}, remaining)
  {
    MembersTail(a);
    assert forall p :: p in a[1..] ==> p in a;
  }

  lemma MembersTail(a: seq<Pkg>)
    requires Distinct(a) && a != []
    ensures Members(a[1..]) == Members(a) - {a[0].short}
  {
    var tail := Names(a[1..]);
    assert Names(a) == [a[0].short] + tail;
    forall i | 0 <= i < |tail|
      ensures tail[i] != a[0].short
    {
      assert a[i + 1].short == tail[i];
    }
  }

  /** There is only one next block. */
  lemma NextBlockUnique(a: seq<Pkg>, b: seq<Pkg>, remaining: map<string, Pkg>, placed: set<string>, display: Display)
    requires Collates(display.locale)
    requires IsNextBlock(a, remaining, placed, display) && IsNextBlock(b, remaining, placed, display)
    ensures a == b
  {
    NextBlockParts(a, remaining, placed, display);
    NextBlockParts(b, remaining, placed, display);
    if ReadySet(remaining, placed) == {} {
      HeadLeast(a, Members(a), remaining, display);
      HeadLeast(b, Members(b), remaining, display);
      display.CompareAntisymmetric(a[0], b[0]);
      SccsDisjoint(GraphOf(remaining), Members(a), Members(b), a[0].short);
    }
    ListingUnique(a, b, Members(a), remaining, display);
  }

  lemma Rejoin(a: seq<Pkg>, k: nat)
    requires k <= |a|
    ensures a == a[..k] + a[k..]
  {
  }

  /** The order depends only on the packages, not on the sequence they came in. */
  lemma {:induction false} OrderUnique(a: seq<Pkg>, b: seq<Pkg>, remaining: map<string, Pkg>, placed: set<string>,
                                       display: Display)
    requires Collates(display.locale)
    requires IsOrder(a, remaining, placed, display) && IsOrder(b, remaining, placed, display)
    ensures a == b
    decreases |a|
  {
    if remaining != map[] {
      var k :| 0 < k <= |a| && Splits(a, k, remaining, placed, display);
      var j :| 0 < j <= |b| && Splits(b, j, remaining, placed, display);
      NextBlockUnique(a[..k], b[..j], remaining, placed, display);
      assert k == |a[..k]| == |b[..j]| == j;
      OrderUnique(a[k..], b[k..], remaining - Members(a[..k]), placed + Members(a[..k]), display);
      Rejoin(a, k);
      Rejoin(b, k);
    }
  }

  // ----- the order respects dependencies and components

  /** `placed` is a dependency-closed part of `all`, whose peers are all present; the rest remains. */
  ghost predicate Stage(all: map<string, Pkg>, remaining: map<string, Pkg>, placed: set<string>) {
    && WellKeyed(all) && placed <= all.Keys && remaining == all - placed
    && (forall k, d :: k in all && d in all[k].deps ==> d in all)
    && (forall k, d :: k in placed && d in all[k].deps ==> d in placed)
  }

  /** A next block lists remaining packages, whose dependencies are placed, absent or in the block. */
  lemma BlockCloses(block: seq<Pkg>, remaining: map<string, Pkg>, placed: set<string>, display: Display)
    requires IsNextBlock(block, remaining, placed, display)
    ensures block != [] && Lists(block, Members(block), remaining) && Members(block) <= remaining.Keys
    ensures forall k, d :: k in Members(block) && d in remaining[k].deps ==> d in placed || d !in remaining || d in Members(block)
  {
    NextBlockParts(block, remaining, placed, display);
    MembersOf(block);
  }

  lemma BlockAdvances(block: seq<Pkg>, all: map<string, Pkg>, remaining: map<string, Pkg>, placed: set<string>,
                      display: Display)
    requires Stage(all, remaining, placed) && IsNextBlock(block, remaining, placed, display)
    ensures Stage(all, remaining - Members(block), placed + Members(block))
    ensures block != [] && Lists(block, Members(block), remaining) && Members(block) <= remaining.Keys
  {
    BlockCloses(block, remaining, placed, display);
    assert remaining - Members(block) == all - (placed + Members(block));
  }

  /** Reachability among what remains is reachability in the whole graph. */
  lemma StageReach(all: map<string, Pkg>, remaining: map<string, Pkg>, placed: set<string>, a: string, b: string)
    requires Stage(all, remaining, placed) && a in remaining && b in remaining
    ensures Mutual(GraphOf(all), a, b) <==> Mutual(GraphOf(remaining), a, b)
  {
    ReachWithout(GraphOf(all), GraphOf(remaining), placed, a, b);
    ReachWithout(GraphOf(all), GraphOf(remaining), placed, b, a);
  }

  /** A ready package lies on no cycle with another package. */
  lemma ReadyAlone(all: map<string, Pkg>, remaining: map<string, Pkg>, placed: set<string>, k: string, b: string)
    requires Stage(all, remaining, placed) && k in ReadySet(remaining, placed)
    requires Mutual(GraphOf(all), k, b)
    ensures b == k
  {
    var g := GraphOf(all);
    assert Closed(g, placed);
    assert Closed(g, placed + {k});
    ReachStays(g, k, b, placed + {k});
    if b in placed {
      ReachStays(g, b, k, placed);
    }
  }

  /** When every remaining package is blocked there is a sink cycle to place. */
  lemma BlockedMeansCycle(all: map<string, Pkg>, remaining: map<string, Pkg>,
                          placed: set<string>) returns (names: set<string>)
    requires Stage(all, remaining, placed) && remaining != map[] && ReadySet(remaining, placed) == {}
    ensures IsSinkCycle(names, remaining)
  {
    var g := GraphOf(remaining);
    var a :| a in remaining;
    names := SinkScc(g, a);
    var k :| k in names;
    assert k !in ReadySet(remaining, placed);
    var d :| d in remaining[k].deps && d !in placed;
    assert Edge(g, k, d);
    if |names| <= 1 {
      assert |names - {k}| == 0;
      assert names == {k};
    }
    assert Sink(names, remaining) by {
      forall x, y | x in names && x in remaining && y in remaining[x].deps && y in remaining
        ensures y in names
      {
        assert Edge(g, x, y);
      }
    }
  }

  /** An order lists exactly what remained, each package once. */
  lemma {:induction false} OrderLists(out: seq<Pkg>, all: map<string, Pkg>, remaining: map<string, Pkg>,
                                      placed: set<string>, display: Display)
    requires Stage(all, remaining, placed) && IsOrder(out, remaining, placed, display)
    ensures Lists(out, remaining.Keys, remaining)
    decreases |out|
  {
    if remaining != map[] {
      var k :| 0 < k <= |out| && Splits(out, k, remaining, placed, display);
      var block, rest := out[..k], out[k..];
      BlockAdvances(block, all, remaining, placed, display);
      OrderLists(rest, all, remaining - Members(block), placed + Members(block), display);
      ListsConcat(block, rest, Members(block), remaining);
      Rejoin(out, k);
    }
  }

  lemma ListsConcat(a: seq<Pkg>, b: seq<Pkg>, names: set<string>, remaining: map<string, Pkg>)
    requires Lists(a, names, remaining) && names <= remaining.Keys
    requires Lists(b, (remaining - names).Keys, remaining - names)
    ensures Lists(a + b, remaining.Keys, remaining)
  {
    assert Names(a + b) == Names(a) + Names(b);
    assert Members(a + b) == Members(a) + Members(b);
    forall i, j | 0 <= i < |a| && 0 <= j < |b|
      ensures a[i].short != b[j].short
    {
      assert Names(a)[i] in Members(a) && Names(b)[j] in Members(b);
    }
  }

  /** Dependency `d` of `out[i]` was placed before, stands earlier, or is on a cycle with `out[i]`. */
  ghost predicate Settled(out: seq<Pkg>, i: nat, d: string, all: map<string, Pkg>, placed: set<string>)
    requires i < |out|
  {
    d in placed || (exists j :: 0 <= j < i && out[j].short == d) || Mutual(GraphOf(all), out[i].short, d)
  }

  lemma BlockSettled(block: seq<Pkg>, i: nat, d: string, all: map<string, Pkg>, remaining: map<string, Pkg>,
                     placed: set<string>, display: Display)
    requires Stage(all, remaining, placed) && IsNextBlock(block, remaining, placed, display)
    requires i < |block| && d in block[i].deps && d !in placed
    ensures Mutual(GraphOf(all), block[i].short, d)
  {
    NextBlockParts(block, remaining, placed, display);
    assert block[i] in block;
    MembersOf(block);
    var k := block[i].short;
    assert k in Members(block) && remaining[k] == block[i];
    if ReadySet(remaining, placed) == {} {
      assert d in Members(block);
      StageReach(all, remaining, placed, k, d);
    }
  }

  lemma {:induction false} OrderSettled(out: seq<Pkg>, all: map<string, Pkg>, remaining: map<string, Pkg>,
                                        placed: set<string>, display: Display)
    requires Stage(all, remaining, placed) && IsOrder(out, remaining, placed, display)
    ensures forall i, d :: 0 <= i < |out| && d in out[i].deps ==> Settled(out, i, d, all, placed)
    decreases |out|
  {
    if remaining != map[] {
      var k :| 0 < k <= |out| && Splits(out, k, remaining, placed, display);
      var block, rest := out[..k], out[k..];
      BlockAdvances(block, all, remaining, placed, display);
      OrderSettled(rest, all, remaining - Members(block), placed + Members(block), display);
      forall i, d | 0 <= i < |out| && d in out[i].deps
        ensures Settled(out, i, d, all, placed)
      {
        if d in placed {
        } else if i < k {
          BlockSettled(block, i, d, all, remaining, placed, display);
        } else {
          assert rest[i - k] == out[i];
          assert Settled(rest, i - k, d, all, placed + Members(block));
          if d in Members(block) {
            var j :| 0 <= j < |block| && Names(block)[j] == d;
            assert out[j].short == d;
          } else if j :| 0 <= j < i - k && rest[j].short == d {
            assert out[k + j].short == d;
          }
        }
      }
    }
  }

  /** Packages between two members of one component belong to it too. */
  ghost predicate Contiguous(out: seq<Pkg>, all: map<string, Pkg>) {
    forall i, j, l :: 0 <= i <= j <= l < |out| && Mutual(GraphOf(all), out[i].short, out[l].short)
      ==> Mutual(GraphOf(all), out[i].short, out[j].short)
  }

  /** A next block is closed under sharing a component with one of its packages. */
  lemma BlockWhole(block: seq<Pkg>, a: string, b: string, all: map<string, Pkg>, remaining: map<string, Pkg>,
                   placed: set<string>, display: Display)
    requires Stage(all, remaining, placed) && IsNextBlock(block, remaining, placed, display)
    requires a in Members(block) && b in remaining
    ensures ReadySet(remaining, placed) != {} ==> (Mutual(GraphOf(all), a, b) <==> a == b)
    ensures ReadySet(remaining, placed) == {} ==> (Mutual(GraphOf(all), a, b) <==> b in Members(block))
  {
    NextBlockParts(block, remaining, placed, display);
    if ReadySet(remaining, placed) == {} {
      StageReach(all, remaining, placed, a, b);
    } else {
      ReachRefl(GraphOf(all), a);
      if Mutual(GraphOf(all), a, b) {
        ReadyAlone(all, remaining, placed, a, b);
      }
    }
  }

  lemma PrefixMembers(out: seq<Pkg>, k: nat)
    requires Distinct(out) && k <= |out|
    ensures forall l :: 0 <= l < |out| ==> (out[l].short in Members(out[..k]) <==> l < k)
  {
    var names := Names(out[..k]);
    forall l | 0 <= l < |out|
      ensures out[l].short in names <==> l < k
    {
      if l < k {
        assert names[l] == out[l].short;
      }
    }
  }

  lemma HeadContiguous(out: seq<Pkg>, k: nat, i: nat, j: nat, l: nat,
                       all: map<string, Pkg>, remaining: map<string, Pkg>, placed: set<string>, display: Display)
    requires Stage(all, remaining, placed) && Lists(out, remaining.Keys, remaining)
    requires 0 < k <= |out| && IsNextBlock(out[..k], remaining, placed, display)
    requires i < k && i <= j <= l < |out| && Mutual(GraphOf(all), out[i].short, out[l].short)
    ensures Mutual(GraphOf(all), out[i].short, out[j].short)
  {
    PrefixMembers(out, k);
    assert out[j] in out && out[l] in out;
    BlockWhole(out[..k], out[i].short, out[l].short, all, remaining, placed, display);
    BlockWhole(out[..k], out[i].short, out[j].short, all, remaining, placed, display);
    if ReadySet(remaining, placed) != {} {
      assert i == l;
    }
  }

  lemma {:induction false} OrderContiguous(out: seq<Pkg>, all: map<string, Pkg>, remaining: map<string, Pkg>,
                                           placed: set<string>, display: Display)
    requires Stage(all, remaining, placed) && IsOrder(out, remaining, placed, display)
    ensures Contiguous(out, all)
    decreases |out|
  {
    if remaining != map[] {
      var k :| 0 < k <= |out| && Splits(out, k, remaining, placed, display);
      var block, rest := out[..k], out[k..];
      BlockAdvances(block, all, remaining, placed, display);
      OrderLists(out, all, remaining, placed, display);
      OrderContiguous(rest, all, remaining - Members(block), placed + Members(block), display);
      forall i, j, l | 0 <= i <= j <= l < |out| && Mutual(GraphOf(all), out[i].short, out[l].short)
        ensures Mutual(GraphOf(all), out[i].short, out[j].short)
      {
        if i < k {
          HeadContiguous(out, k, i, j, l, all, remaining, placed, display);
        } else {
          assert rest[i - k] == out[i] && rest[j - k] == out[j] && rest[l - k] == out[l];
        }
      }
    }
  }
}
