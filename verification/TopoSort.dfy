/** `topoSort` itself: the layered loop that falls back to sink cycles. */
module TopoSort {
  import opened Basics
  import opened Graphs
  import opened Packages
  import opened Sorting
  import opened Ordering
  import opened CycleFinder
  import opened PackageGraph

  /** The one error the sort reports: a package names a peer that is not in the repository. */
  datatype Result<+T> = Ok(value: T) | MissingPeer(name: string, dependency: string)

  // ----- the insertion-ordered map of packages by short name

  /** Setting a key: an old key keeps its place and takes the new value. */
  function Set(entries: seq<Pkg>, pkg: Pkg): seq<Pkg> {
    if entries == [] then [pkg]
    else if entries[0].short == pkg.short then [pkg] + entries[1..]
    else [entries[0]] + Set(entries[1..], pkg)
  }

  function Delete(entries: seq<Pkg>, short: string): seq<Pkg> {
    if entries == [] then []
    else if entries[0].short == short then entries[1..]
    else [entries[0]] + Delete(entries[1..], short)
  }

  /** The entries of the map built from `packages`; of two packages with one name the later counts. */
  function Entries(packages: seq<Pkg>): seq<Pkg> {
    if packages == [] then []
    else Set(Entries(packages[..|packages| - 1]), packages[|packages| - 1])
  }

  lemma DistinctInjective(entries: seq<Pkg>)
    requires Distinct(entries)
    ensures forall p, q :: p in entries && q in entries && p.short == q.short ==> p == q
  {
    forall p, q | p in entries && q in entries && p.short == q.short
      ensures p == q
    {
      var i :| 0 <= i < |entries| && entries[i] == p;
      var j :| 0 <= j < |entries| && entries[j] == q;
    }
  }

  /** The map whose entries are `entries`. */
  function ByName(entries: seq<Pkg>): (m: map<string, Pkg>)
    requires Distinct(entries)
    ensures WellKeyed(m) && From(entries, m) && m.Keys == Members(entries)
  {
    DistinctInjective(entries);
    MembersOf(entries);
    map p | p in entries :: p.short := p
  }

  lemma {:induction false} SetElements(entries: seq<Pkg>, pkg: Pkg)
    requires Distinct(entries)
    ensures forall p :: p in Set(entries, pkg) <==> p == pkg || (p in entries && p.short != pkg.short)
  {
    if entries != [] {
      assert entries == [entries[0]] + entries[1..];
      if entries[0].short != pkg.short {
        SetElements(entries[1..], pkg);
      }
    }
  }

  lemma {:induction false} SetDistinct(entries: seq<Pkg>, pkg: Pkg)
    requires Distinct(entries)
    ensures Distinct(Set(entries, pkg))
  {
    if entries != [] && entries[0].short != pkg.short {
      SetDistinct(entries[1..], pkg);
      SetElements(entries[1..], pkg);
      var rest := Set(entries[1..], pkg);
      forall j | 0 <= j < |rest|
        ensures entries[0].short != rest[j].short
      {
        assert rest[j] in rest;
      }
    }
  }

  lemma SetMembers(entries: seq<Pkg>, pkg: Pkg)
    requires Distinct(entries)
    ensures Members(Set(entries, pkg)) == Members(entries) + {pkg.short}
  {
    SetElements(entries, pkg);
    MembersOf(entries);
    MembersOf(Set(entries, pkg));
  }

  lemma {:induction false} SetFresh(entries: seq<Pkg>, pkg: Pkg)
    requires forall p :: p in entries ==> p.short != pkg.short
    ensures Set(entries, pkg) == entries + [pkg]
  {
    if entries != [] {
      assert entries[0] in entries;
      SetFresh(entries[1..], pkg);
    }
  }

  lemma {:induction false} EntriesKeys(packages: seq<Pkg>)
    ensures Distinct(Entries(packages)) && Members(Entries(packages)) == Members(packages)
    ensures forall p :: p in Entries(packages) ==> p in packages
  {
    if packages != [] {
      var init, last := packages[..|packages| - 1], packages[|packages| - 1];
      assert packages == init + [last];
      assert Names(packages) == Names(init) + [last.short];
      EntriesKeys(init);
      SetDistinct(Entries(init), last);
      SetElements(Entries(init), last);
      SetMembers(Entries(init), last);
    }
  }

  lemma {:induction false} EntriesSame(packages: seq<Pkg>)
    requires Distinct(packages)
    ensures Entries(packages) == packages
  {
    if packages != [] {
      var init, last := packages[..|packages| - 1], packages[|packages| - 1];
      assert packages == init + [last];
      EntriesSame(init);
      SetFresh(init, last);
    }
  }

  lemma {:induction false} DeleteFacts(entries: seq<Pkg>, short: string)
    requires Distinct(entries)
    ensures Distinct(Delete(entries, short))
    ensures forall p :: p in Delete(entries, short) <==> p in entries && p.short != short
  {
    if entries != [] {
      assert entries == [entries[0]] + entries[1..];
      DeleteFacts(entries[1..], short);
    }
  }

  lemma NamedAfter(entries: seq<Pkg>, after: seq<Pkg>, short: string, k: string)
    requires Distinct(entries) && Distinct(after) && forall p :: p in after <==> p in entries && p.short != short
    ensures k in ByName(after) <==> k in ByName(entries) && k != short
    ensures k in ByName(after) ==> ByName(after)[k] == ByName(entries)[k]
  {
    if k in ByName(entries) && k != short {
      assert ByName(entries)[k] in entries && ByName(entries)[k] in after;
    }
    if k in ByName(after) {
      assert ByName(after)[k] in after;
    }
  }

  lemma DeleteByName(entries: seq<Pkg>, short: string)
    requires Distinct(entries)
    ensures Distinct(Delete(entries, short))
    ensures ByName(Delete(entries, short)) == ByName(entries) - {short}
  {
    DeleteFacts(entries, short);
    var before, after := ByName(entries), ByName(Delete(entries, short));
    forall k
      ensures k in after <==> k in before && k != short
      ensures k in after ==> after[k] == before[k]
    {
      NamedAfter(entries, Delete(entries, short), short, k);
    }
    assert after == before - {short};
  }

  // ----- permutations of listings

  lemma {:induction false} DistinctCounts(a: seq<Pkg>, x: Pkg)
    requires Distinct(a)
    ensures multiset(a)[x] <= 1
  {
    if a != [] {
      assert a == [a[0]] + a[1..];
      DistinctCounts(a[1..], x);
    }
  }

  lemma SameElements(a: seq<Pkg>, b: seq<Pkg>)
    requires multiset(a) == multiset(b)
    ensures forall p :: p in a <==> p in b
    ensures Members(a) == Members(b)
  {
    forall p
      ensures p in a <==> p in b
    {
      assert p in a <==> p in multiset(a);
      assert p in b <==> p in multiset(b);
    }
    MembersOf(a);
    MembersOf(b);
  }

  lemma PermutationDistinct(a: seq<Pkg>, b: seq<Pkg>)
    requires Distinct(a) && multiset(a) == multiset(b)
    ensures Distinct(b)
  {
    SameElements(a, b);
    DistinctInjective(a);
    forall i, j | 0 <= i < j < |b|
      ensures b[i].short != b[j].short
    {
      assert b[i] in a && b[j] in a;
      DistinctCounts(a, b[i]);
      var before, after := b[..j], b[j..];
      assert b == before + after && b[i] in before && after[0] == b[j];
      assert multiset(b)[b[i]] == multiset(before)[b[i]] + multiset(after)[b[i]];
      assert before[i] == b[i] && b[i] in multiset(before);
      assert b[j] in multiset(after);
    }
  }

  lemma SortLists(a: seq<Pkg>, names: set<string>, remaining: map<string, Pkg>, display: Display)
    requires Collates(display.locale) && Lists(a, names, remaining)
    ensures Lists(Sort(a, display.Compare), names, remaining)
    ensures SortedBy(Sort(a, display.Compare), display.Compare)
  {
    display.CompareIsComparison();
    SortPermutes(a, display.Compare);
    SortSorts(a, display.Compare);
    PermutationDistinct(a, Sort(a, display.Compare));
    SameElements(a, Sort(a, display.Compare));
  }

  // ----- choosing the next block

  /** The remaining packages whose dependencies are all placed. */
  function ReadyOf(entries: seq<Pkg>, placed: set<string>): seq<Pkg> {
    if entries == [] then []
    else (if forall d :: d in entries[0].deps ==> d in placed then [entries[0]] else []) + ReadyOf(entries[1..], placed)
  }

  lemma {:induction false} ReadyElements(entries: seq<Pkg>, placed: set<string>)
    requires Distinct(entries)
    ensures Distinct(ReadyOf(entries, placed))
    ensures forall p :: p in ReadyOf(entries, placed) <==> p in entries && forall d :: d in p.deps ==> d in placed
  {
    if entries != [] {
      assert entries == [entries[0]] + entries[1..];
      ReadyElements(entries[1..], placed);
      var rest := ReadyOf(entries[1..], placed);
      forall j | 0 <= j < |rest|
        ensures entries[0].short != rest[j].short
      {
        assert rest[j] in rest;
      }
    }
  }

  lemma ReadyLists(entries: seq<Pkg>, placed: set<string>)
    requires Distinct(entries)
    ensures Lists(ReadyOf(entries, placed), ReadySet(ByName(entries), placed), ByName(entries))
  {
    ReadyElements(entries, placed);
    MembersOf(ReadyOf(entries, placed));
    MembersOf(entries);
  }

  function SortOne(cycle: Component, display: Display): Component {
    SortPermutes(cycle, display.Compare);
    Sort(cycle, display.Compare)
  }

  /** Every cycle sorted on its own. */
  function SortEach(cycles: seq<Component>, display: Display): (sorted: seq<Component>)
    ensures |sorted| == |cycles|
    ensures forall i :: 0 <= i < |cycles| ==> sorted[i] == Sort(cycles[i], display.Compare)
  {
    if cycles == [] then [] else [SortOne(cycles[0], display)] + SortEach(cycles[1..], display)
  }

  lemma HeadOfSorted(c: Component, names: set<string>, k: string, remaining: map<string, Pkg>, display: Display)
    requires Collates(display.locale) && Lists(c, names, remaining) && k in names
    ensures k in remaining && Sort(c, display.Compare) != []
    ensures display.Compare(Sort(c, display.Compare)[0], remaining[k]) <= 0
  {
    SortLists(c, names, remaining, display);
    SortPermutes(c, display.Compare);
    HeadLeast(Sort(c, display.Compare), names, remaining, display);
  }

  lemma LeastHead(sorted: seq<Component>, c: Component, display: Display)
    requires Collates(display.locale) && SortedBy(sorted, display.CompareHeads) && c in sorted
    ensures display.Compare(sorted[0][0], c[0]) <= 0
  {
    display.CompareIsComparison();
    var i :| 0 <= i < |sorted| && sorted[i] == c;
    assert display.Compare(c[0], c[0]) <= 0;
    if i > 0 {
      assert display.CompareHeads(sorted[0], sorted[i]) <= 0;
    }
  }

  /** The cycles of the source after both sorts. */
  function InDisplayOrder(cycles: seq<Component>, display: Display): seq<Component> {
    Sort(SortEach(cycles, display), display.CompareHeads)
  }

  lemma DisplayOrderFacts(cycles: seq<Component>, display: Display)
    requires Collates(display.locale)
    ensures |InDisplayOrder(cycles, display)| == |cycles|
    ensures SortedBy(InDisplayOrder(cycles, display), display.CompareHeads)
    ensures forall c :: c in InDisplayOrder(cycles, display) <==> c in SortEach(cycles, display)
  {
    var each := SortEach(cycles, display);
    display.HeadsAreComparison();
    SortPermutes(each, display.CompareHeads);
    SortSorts(each, display.CompareHeads);
    forall c: Component
      ensures c in InDisplayOrder(cycles, display) <==> c in each
    {
      assert c in multiset(each) <==> c in each;
      assert c in multiset(InDisplayOrder(cycles, display)) <==> c in InDisplayOrder(cycles, display);
    }
  }

  lemma LeastThrough(a: Pkg, b: Pkg, c: Pkg, display: Display)
    requires Collates(display.locale) && display.Compare(a, b) <= 0 && display.Compare(b, c) <= 0
    ensures display.Compare(a, c) <= 0
  {
    display.CompareIsComparison();
  }

  lemma FirstHeadLeast(cycles: seq<Component>, remaining: map<string, Pkg>, display: Display, names: set<string>, k: string)
    requires Collates(display.locale) && AllSinkCycles(cycles, remaining)
    requires IsSinkCycle(names, remaining) && k in names && k in remaining
    ensures InDisplayOrder(cycles, display) != []
    ensures display.Compare(InDisplayOrder(cycles, display)[0][0], remaining[k]) <= 0
  {
    DisplayOrderFacts(cycles, display);
    var c :| c in cycles && Members(c) == names;
    var n :| 0 <= n < |cycles| && cycles[n] == c;
    var mine := SortEach(cycles, display)[n];
    HeadOfSorted(c, names, k, remaining, display);
    assert mine in SortEach(cycles, display);
    var least := InDisplayOrder(cycles, display)[0][0];
    LeastHead(InDisplayOrder(cycles, display), mine, display);
    LeastThrough(least, mine[0], remaining[k], display);
  }

  /** The first cycle in display order is the next block when nothing is ready. */
  lemma FirstCycleIsNext(cycles: seq<Component>, remaining: map<string, Pkg>, placed: set<string>, display: Display)
    requires Collates(display.locale) && AllSinkCycles(cycles, remaining) && cycles != []
    requires ReadySet(remaining, placed) == {}
    ensures InDisplayOrder(cycles, display) != []
    ensures IsNextBlock(InDisplayOrder(cycles, display)[0], remaining, placed, display)
  {
    DisplayOrderFacts(cycles, display);
    var first := InDisplayOrder(cycles, display)[0];
    assert first in InDisplayOrder(cycles, display);
    var m :| 0 <= m < |cycles| && SortEach(cycles, display)[m] == first;
    assert cycles[m] in cycles;
    SortLists(cycles[m], Members(cycles[m]), remaining, display);
    forall names, k | IsSinkCycle(names, remaining) && k in names && k in remaining
      ensures display.Compare(first[0], remaining[k]) <= 0
    {
      FirstHeadLeast(cycles, remaining, display, names, k);
    }
  }

  lemma ReadyIsNext(entries: seq<Pkg>, placed: set<string>, display: Display)
    requires Collates(display.locale) && Distinct(entries)
    ensures var ready := Sort(ReadyOf(entries, placed), display.Compare);
            if ready == [] then ReadySet(ByName(entries), placed) == {}
            else IsNextBlock(ready, ByName(entries), placed, display)
  {
    ReadyLists(entries, placed);
    SortLists(ReadyOf(entries, placed), ReadySet(ByName(entries), placed), ByName(entries), display);
    var ready := Sort(ReadyOf(entries, placed), display.Compare);
    if ready != [] {
      assert Names(ready)[0] in Members(ready);
    } else {
      assert Members(ready) == {};
    }
  }

  /** The block the loop places next; the throw on finding no cycle is dead. */
  method NextBlock(entries: seq<Pkg>, placed: set<string>, display: Display, ghost all: map<string, Pkg>) returns (ready: seq<Pkg>)
    requires Collates(display.locale) && Distinct(entries) && entries != []
    requires Stage(all, ByName(entries), placed)
    ensures IsNextBlock(ready, ByName(entries), placed, display)
  {
    ReadyIsNext(entries, placed, display);
    ready := Sort(ReadyOf(entries, placed), display.Compare);
    if |ready| == 0 {
      var cycles := SinkCycles(entries, ByName(entries));
      CyclesFound(entries, placed, all, cycles);
      FirstCycleIsNext(cycles, ByName(entries), placed, display);
      var sorted := InDisplayOrder(cycles, display);
      if |sorted| == 0 {
        assert false;
      }
      ready := sorted[0];
    }
  }

  lemma CyclesFound(entries: seq<Pkg>, placed: set<string>, all: map<string, Pkg>, cycles: seq<Component>)
    requires Distinct(entries) && entries != [] && Stage(all, ByName(entries), placed)
    requires ReadySet(ByName(entries), placed) == {} && AllSinkCycles(cycles, ByName(entries))
    ensures cycles != []
  {
    assert entries[0] in entries;
    var names := BlockedMeansCycle(all, ByName(entries), placed);
  }

  // ----- the sort

  /** `byName` of the source. */
  ghost function MapOf(packages: seq<Pkg>): (m: map<string, Pkg>)
    ensures WellKeyed(m) && m.Keys == Members(packages)
  {
    EntriesKeys(packages);
    ByName(Entries(packages))
  }

  /** Some package names a peer that no package provides. */
  ghost predicate Dangles(packages: seq<Pkg>, name: string, dependency: string) {
    exists p :: p in packages && p.name == name && dependency in p.deps && dependency !in Members(packages)
  }

  /** The first peer, in the order of packages and of their lists, that no package provides. */
  ghost predicate FirstMissing(packages: seq<Pkg>, i: nat, j: nat) {
    && i < |packages| && j < |packages[i].deps| && packages[i].deps[j] !in Members(packages)
    && (forall d :: d in packages[i].deps[..j] ==> d in Members(packages))
    && (forall p, d :: p in packages[..i] && d in p.deps ==> d in Members(packages))
  }

  ghost predicate PeersPresent(packages: seq<Pkg>) {
    forall p, d :: p in packages && d in p.deps ==> d in Members(packages)
  }

  lemma StageStart(packages: seq<Pkg>)
    requires PeersPresent(packages)
    ensures Stage(MapOf(packages), MapOf(packages), {})
  {
    EntriesKeys(packages);
    var all := MapOf(packages);
    forall k, d | k in all && d in all[k].deps
      ensures d in all
    {
      MembersOf(Entries(packages));
      assert all[k] in packages;
    }
    assert all - {} == all;
  }

  /** The two loops that look for a missing peer. */
  method CheckPeers(packages: seq<Pkg>, byName: map<string, Pkg>) returns (r: Result<()>)
    requires byName.Keys == Members(packages)
    ensures r.Ok? <==> PeersPresent(packages)
    ensures r.MissingPeer? ==> Dangles(packages, r.name, r.dependency)
    ensures r.MissingPeer? ==> exists i: nat, j: nat ::
      FirstMissing(packages, i, j) && r.name == packages[i].name && r.dependency == packages[i].deps[j]
  {
    for i := 0 to |packages|
      invariant forall p, d :: p in packages[..i] && d in p.deps ==> d in byName
    {
      var pkg := packages[i];
      for j := 0 to |pkg.deps|
        invariant forall d :: d in pkg.deps[..j] ==> d in byName
      {
        if pkg.deps[j] !in byName {
          assert pkg in packages && pkg.deps[j] in pkg.deps;
          assert FirstMissing(packages, i, j);
          return MissingPeer(pkg.name, pkg.deps[j]);
        }
      }
      assert pkg.deps[..|pkg.deps|] == pkg.deps;
      assert packages[..i + 1] == packages[..i] + [pkg];
    }
    assert packages[..|packages|] == packages;
    return Ok(());
  }

  lemma DeleteMore(before: seq<Pkg>, entries: seq<Pkg>, gone: set<string>, short: string)
    requires Distinct(before) && Distinct(entries) && ByName(entries) == ByName(before) - gone
    ensures Distinct(Delete(entries, short))
    ensures ByName(Delete(entries, short)) == ByName(before) - (gone + {short})
  {
    DeleteByName(entries, short);
    assert ByName(before) - gone - {short} == ByName(before) - (gone + {short});
  }

  lemma PrefixGrows(ready: seq<Pkg>, n: nat)
    requires n < |ready|
    ensures ready[..n + 1] == ready[..n] + [ready[n]] && Names(ready)[n] == ready[n].short
  {
  }

  /** The loop that moves one block from `remaining` to the output. */
  method Place(ready: seq<Pkg>, out: seq<Pkg>, placed: set<string>, remaining: seq<Pkg>)
    returns (out': seq<Pkg>, placed': set<string>, remaining': seq<Pkg>)
    requires Distinct(remaining)
    ensures out' == out + ready && placed' == placed + Members(ready)
    ensures Distinct(remaining') && ByName(remaining') == ByName(remaining) - Members(ready)
  {
    out', placed', remaining' := out, placed, remaining;
    assert ByName(remaining) - {} == ByName(remaining);
    for n := 0 to |ready|
      invariant out' == out + ready[..n] && placed' == placed + Elems(Names(ready)[..n])
      invariant Distinct(remaining') && ByName(remaining') == ByName(remaining) - Elems(Names(ready)[..n])
    {
      var pkg := ready[n];
      ElemsPrefix(Names(ready), n);
      DeleteMore(remaining, remaining', Elems(Names(ready)[..n]), pkg.short);
      PrefixGrows(ready, n);
      out', placed', remaining' := out' + [pkg], placed' + {pkg.short}, Delete(remaining', pkg.short);
    }
    assert Names(ready)[..|ready|] == Names(ready) && ready[..|ready|] == ready;
  }

  /** Putting a next block in front of an order of the rest gives an order. */
  lemma OrderStep(block: seq<Pkg>, rest: seq<Pkg>, remaining: map<string, Pkg>, placed: set<string>, display: Display)
    requires remaining != map[] && IsNextBlock(block, remaining, placed, display)
    requires IsOrder(rest, remaining - Members(block), placed + Members(block), display)
    ensures IsOrder(block + rest, remaining, placed, display)
  {
    NextBlockSome(block, remaining, placed, display);
    var out := block + rest;
    assert out[..|block|] == block && out[|block|..] == rest;
    assert Splits(out, |block|, remaining, placed, display);
  }

  /** Whatever orders the rest completes `out` to an order of everything. */
  ghost predicate Completes(out: seq<Pkg>, remaining: map<string, Pkg>, placed: set<string>, all: map<string, Pkg>, display: Display) {
    forall rest :: IsOrder(rest, remaining, placed, display) ==> IsOrder(out + rest, all, {}, display)
  }

  lemma CompletesStep(out: seq<Pkg>, block: seq<Pkg>, remaining: map<string, Pkg>, placed: set<string>,
                      all: map<string, Pkg>, display: Display)
    requires Completes(out, remaining, placed, all, display)
    requires remaining != map[] && IsNextBlock(block, remaining, placed, display)
    ensures Completes(out + block, remaining - Members(block), placed + Members(block), all, display)
  {
    forall rest | IsOrder(rest, remaining - Members(block), placed + Members(block), display)
      ensures IsOrder(out + block + rest, all, {}, display)
    {
      OrderStep(block, rest, remaining, placed, display);
      assert out + block + rest == out + (block + rest);
    }
  }

  lemma CompletesStart(all: map<string, Pkg>, display: Display)
    ensures Completes([], all, {}, all, display)
  {
    assert forall rest: seq<Pkg> :: [] + rest == rest;
  }

  lemma CompletesNothing(out: seq<Pkg>, placed: set<string>, all: map<string, Pkg>, display: Display)
    requires Completes(out, map[], placed, all, display)
    ensures IsOrder(out, all, {}, display)
  {
    assert IsOrder([], map[], placed, display);
    assert out + [] == out;
  }

  lemma FirstIsMember(ready: seq<Pkg>)
    requires ready != []
    ensures ready[0].short in Members(ready)
  {
    assert Names(ready)[0] in Names(ready);
  }

  method TopoSort(packages: seq<Pkg>, display: Display) returns (r: Result<seq<Pkg>>)
    requires Collates(display.locale)
    ensures r.Ok? <==> PeersPresent(packages)
    ensures r.MissingPeer? ==> Dangles(packages, r.name, r.dependency)
    ensures r.MissingPeer? ==> exists i: nat, j: nat ::
      FirstMissing(packages, i, j) && r.name == packages[i].name && r.dependency == packages[i].deps[j]
    ensures r.Ok? ==> IsOrder(r.value, MapOf(packages), {}, display)
  {
    EntriesKeys(packages);
    var byName := Entries(packages);
    var checked := CheckPeers(packages, ByName(byName));
    if checked.MissingPeer? {
      return MissingPeer(checked.name, checked.dependency);
    }
    ghost var all := MapOf(packages);
    StageStart(packages);
    var remaining, placed, out := byName, {}, [];
    CompletesStart(all, display);
    while |remaining| > 0
      invariant Distinct(remaining) && Stage(all, ByName(remaining), placed)
      invariant Completes(out, ByName(remaining), placed, all, display)
      decreases ByName(remaining).Keys
    {
      assert remaining[0] in remaining && remaining[0].short in ByName(remaining);
      var ready := NextBlock(remaining, placed, display, all);
      BlockAdvances(ready, all, ByName(remaining), placed, display);
      CompletesStep(out, ready, ByName(remaining), placed, all, display);
      FirstIsMember(ready);
      out, placed, remaining := Place(ready, out, placed, remaining);
    }
    assert ByName(remaining) == map[];
    CompletesNothing(out, placed, all, display);
    return Ok(out);
  }

  // ----- what the result promises

  /** The output is a permutation of the input exactly when the short names are unique. */
  lemma OutputPermutes(packages: seq<Pkg>, out: seq<Pkg>, display: Display)
    requires PeersPresent(packages) && IsOrder(out, MapOf(packages), {}, display)
    ensures Distinct(out) && Members(out) == Members(packages)
    ensures multiset(out) == multiset(packages) <==> Distinct(packages)
  {
    StageStart(packages);
    OrderLists(out, MapOf(packages), MapOf(packages), {}, display);
    if multiset(out) == multiset(packages) {
      PermutationDistinct(out, packages);
    }
    if Distinct(packages) {
      EntriesSame(packages);
      MembersOf(out);
      MembersOf(packages);
      forall p
        ensures multiset(out)[p] == multiset(packages)[p]
      {
        DistinctCounts(out, p);
        DistinctCounts(packages, p);
        assert p in multiset(out) <==> p in out;
        assert p in multiset(packages) <==> p in packages;
      }
    }
  }

  lemma {:induction false} LaterEntry(packages: seq<Pkg>, i: nat)
    requires i < |packages| && forall j :: i < j < |packages| ==> packages[j].short != packages[i].short
    ensures packages[i] in Entries(packages)
    decreases |packages|
  {
    var init, last := packages[..|packages| - 1], packages[|packages| - 1];
    EntriesKeys(init);
    SetElements(Entries(init), last);
    if i < |init| {
      LaterEntry(init, i);
    }
  }

  /** Of several packages with one short name the last counts. */
  lemma LaterCounts(packages: seq<Pkg>, i: nat)
    requires i < |packages| && forall j :: i < j < |packages| ==> packages[j].short != packages[i].short
    ensures packages[i].short in MapOf(packages) && MapOf(packages)[packages[i].short] == packages[i]
  {
    EntriesKeys(packages);
    LaterEntry(packages, i);
  }

  lemma OneNameIsOne(packages: seq<Pkg>, out: seq<Pkg>, display: Display)
    requires PeersPresent(packages) && IsOrder(out, MapOf(packages), {}, display) && |Members(packages)| == 1
    ensures |out| == 1
  {
    OutputPermutes(packages, out, display);
    MembersSize(out);
  }

  const TWINS := [Pkg("a", "@x/a", "x", "x/a", []), Pkg("a", "@y/a", "y", "y/a", [])]

  lemma TwinsShareName()
    ensures PeersPresent(TWINS) && Members(TWINS) == {"a"}
  {
    var names := Names(TWINS);
    assert names[0] == "a" && names[1] == "a";
    forall p | p in TWINS
      ensures p.deps == []
    {
      assert p == TWINS[0] || p == TWINS[1];
    }
  }

  /** Two packages of one short name: the output has the second of them. */
  lemma TwinIsLost(out: seq<Pkg>, display: Display)
    requires IsOrder(out, MapOf(TWINS), {}, display)
    ensures out == [TWINS[1]]
  {
    TwinsShareName();
    OneNameIsOne(TWINS, out, display);
    LaterCounts(TWINS, 1);
    StageStart(TWINS);
    OrderLists(out, MapOf(TWINS), MapOf(TWINS), {}, display);
    assert out[0] in out;
  }

  /** Each dependency stands earlier unless the two packages are mutually reachable, and every component is one block. */
  lemma OutputRespectsGraph(packages: seq<Pkg>, out: seq<Pkg>, display: Display)
    requires PeersPresent(packages) && IsOrder(out, MapOf(packages), {}, display)
    ensures forall i, d :: 0 <= i < |out| && d in out[i].deps ==>
              (exists j :: 0 <= j < i && out[j].short == d) || Mutual(GraphOf(MapOf(packages)), out[i].short, d)
    ensures Contiguous(out, MapOf(packages))
  {
    var all := MapOf(packages);
    StageStart(packages);
    OrderSettled(out, all, all, {}, display);
    OrderContiguous(out, all, all, {}, display);
    assert forall i, d :: 0 <= i < |out| && d in out[i].deps ==> Settled(out, i, d, all, {});
  }

  /** `p` leads from `a` to `b`, each package in the list being a dependency of the one before. */
  ghost predicate DependsAlong(all: map<string, Pkg>, a: string, p: seq<string>, b: string)
    decreases |p|
  {
    a in all && if p == [] then a == b else p[0] in all[a].deps && DependsAlong(all, p[0], p[1..], b)
  }

  lemma {:induction false} WalkDepends(all: map<string, Pkg>, a: string, p: seq<string>, b: string)
    ensures Walk(GraphOf(all), a, p, b) <==> DependsAlong(all, a, p, b)
    decreases |p|
  {
    if p != [] {
      WalkDepends(all, p[0], p[1..], b);
    }
  }

  /** Some chain of dependencies leads from `a` to `b`. */
  ghost predicate LeadsTo(all: map<string, Pkg>, a: string, b: string) {
    exists p :: DependsAlong(all, a, p, b)
  }

  lemma ReachDepends(all: map<string, Pkg>, a: string, b: string)
    ensures Reach(GraphOf(all), a, b) <==> LeadsTo(all, a, b)
  {
    if Reach(GraphOf(all), a, b) {
      var p := SomeWalk(GraphOf(all), a, b);
      WalkDepends(all, a, p, b);
    }
    if LeadsTo(all, a, b) {
      var p :| DependsAlong(all, a, p, b);
      WalkDepends(all, a, p, b);
    }
  }

  /** Mutually reachable packages are those that depend on each other, through whatever others. */
  lemma MutualDepend(all: map<string, Pkg>, a: string, b: string)
    ensures Mutual(GraphOf(all), a, b) <==> LeadsTo(all, a, b) && LeadsTo(all, b, a)
  {
    ReachDepends(all, a, b);
    ReachDepends(all, b, a);
  }

  /** No two packages, and no package alone, form a dependency cycle. */
  ghost predicate Acyclic(all: map<string, Pkg>) {
    forall a, b :: Mutual(GraphOf(all), a, b) ==> a == b && !Edge(GraphOf(all), a, a)
  }

  lemma AcyclicIsStrict(packages: seq<Pkg>, out: seq<Pkg>, display: Display)
    requires PeersPresent(packages) && IsOrder(out, MapOf(packages), {}, display)
    requires Acyclic(MapOf(packages))
    ensures forall i, d :: 0 <= i < |out| && d in out[i].deps ==> exists j :: 0 <= j < i && out[j].short == d
  {
    var all := MapOf(packages);
    StageStart(packages);
    OrderLists(out, all, all, {}, display);
    OrderSettled(out, all, all, {}, display);
    forall i, d | 0 <= i < |out| && d in out[i].deps
      ensures exists j :: 0 <= j < i && out[j].short == d
    {
      assert out[i] in out && Settled(out, i, d, all, {});
      assert d == out[i].short ==> Edge(GraphOf(all), d, d);
    }
  }

  /** Every permutation of the same packages is sorted into the same sequence. */
  lemma OutputCanonical(a: seq<Pkg>, b: seq<Pkg>, outA: seq<Pkg>, outB: seq<Pkg>, display: Display)
    requires Collates(display.locale) && Distinct(a) && multiset(a) == multiset(b)
    requires IsOrder(outA, MapOf(a), {}, display) && IsOrder(outB, MapOf(b), {}, display)
    ensures outA == outB
  {
    PermutationDistinct(a, b);
    SameElements(a, b);
    EntriesSame(a);
    EntriesSame(b);
    assert MapOf(a) == MapOf(b);
    OrderUnique(outA, outB, MapOf(a), {}, display);
  }
}
