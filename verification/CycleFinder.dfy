/** The cycle finder of the package graph: Tarjan's algorithm with the variables
    its nested `visit` closure captures as fields, and the filter that keeps the
    cyclic components no remaining dependency leaves. */
module CycleFinder {
  import opened Basics
  import opened Graphs
  import opened Packages
  import opened SccSearch

  ghost function Sets(components: seq<Component>): (sets: seq<set<string>>)
    ensures |sets| == |components|
    ensures forall i :: 0 <= i < |components| ==> sets[i] == Members(components[i])
  {
    seq(|components|, i requires 0 <= i < |components| => Members(components[i]))
  }

  /** Each listed package is the one `remaining` holds under its name. */
  ghost predicate From(packages: seq<Pkg>, remaining: map<string, Pkg>) {
    forall p :: p in packages ==> p.short in remaining && remaining[p.short] == p
  }

  class Finder {
    const remaining: map<string, Pkg>
    var nextIndex: nat
    var indices: map<string, nat>
    var lowLinks: map<string, nat>
    var stack: seq<Pkg>
    var stacked: set<string>
    var components: seq<Component>
    /** The dependency graph, and the search over names that the variables above carry out. */
    ghost const g: Graph
    ghost var search: Search

    /** The variables carry out `search`. */
    ghost predicate Coupled()
      reads this
    {
      && nextIndex == search.nextIndex
      && indices == search.indices
      && lowLinks.Keys == indices.Keys
      && Names(stack) == search.stack
      && stacked == Elems(search.stack)
      && Sets(components) == search.components
    }

    ghost predicate Valid()
      reads this
    {
      && WellKeyed(remaining) && g == GraphOf(remaining)
      && Coupled() && Inv(g, search)
      && From(stack, remaining)
      && forall c :: c in components ==> Distinct(c) && From(c, remaining)
    }

    constructor (remaining: map<string, Pkg>)
      requires WellKeyed(remaining)
      ensures this.remaining == remaining && Valid()
      ensures indices == map[] && search.active == {}
    {
      this.remaining := remaining;
      nextIndex, indices, lowLinks := 0, map[], map[];
      stack, stacked, components := [], {}, [];
      g := GraphOf(remaining);
      search := Search(0, map[], [], [], {});
    }

    /** The `requiredValue` lookups: the branch that throws is dead. */
    method LowerTo(short: string, other: nat)
      requires short in lowLinks
      modifies this`lowLinks
      ensures lowLinks == old(lowLinks)[short := Min(old(lowLinks[short]), other)]
    {
      lowLinks := lowLinks[short := if lowLinks[short] <= other then lowLinks[short] else other];
    }

    /** Pop one package and forget it in `stacked`; the throw on an empty stack is dead. */
    method PopOne() returns (p: Pkg)
      requires stack != [] && Distinct(stack) && stacked == Members(stack)
      modifies this`stack, this`stacked
      ensures |stack| == |old(stack)| - 1 && p == old(stack)[|stack|]
      ensures stack == old(stack)[..|stack|] && stacked == Members(stack)
    {
      p := stack[|stack| - 1];
      assert stack == stack[..|stack| - 1] + [p];
      NamesAppend(stack[..|stack| - 1], p);
      stack, stacked := stack[..|stack| - 1], stacked - {p.short};
    }

    /** Take the stack down to and including `pkg`, which sits at height `base`. */
    method PopComponent(pkg: Pkg, ghost base: nat) returns (component: Component)
      requires base < |stack| && stack[base] == pkg && Distinct(stack) && stacked == Members(stack)
      modifies this`stack, this`stacked
      ensures stack == old(stack)[..base] && stacked == Members(stack)
      ensures |component| == |old(stack)| - base
      ensures forall i :: 0 <= i < |component| ==> component[i] == old(stack)[|old(stack)| - 1 - i]
    {
      ghost var whole := stack;
      var member := PopOne();
      component := [member];
      while member != pkg
        invariant base <= |stack| < |whole| && member == whole[|stack|]
        invariant stack == whole[..|stack|] && stacked == Members(stack)
        invariant |component| == |whole| - |stack|
        invariant forall i :: 0 <= i < |component| ==> component[i] == whole[|whole| - 1 - i]
        decreases |stack|
      {
        member := PopOne();
        component := component + [member];
      }
    }

    /** The nested `visit` of the source: number `pkg`, scan its dependencies, emit its component if it closes one. */
    method Visit(pkg: Pkg)
      requires Valid() && pkg.short in remaining && remaining[pkg.short] == pkg && pkg.short !in indices
      requires forall a :: a in search.active ==> Reach(g, a, pkg.short)
      modifies this
      ensures Valid() && Extends(old(search), search)
      ensures pkg.short in indices && indices[pkg.short] == old(nextIndex)
      ensures forall k :: k in old(lowLinks) ==> k in lowLinks && lowLinks[k] == old(lowLinks)[k]
      ensures LowLink(g, search, |old(stack)|, pkg.short, lowLinks[pkg.short])
      decreases remaining.Keys - indices.Keys, 0
    {
      ghost var base := |stack|;
      ghost var s0 := search;
      ScanStart(g, s0, pkg.short);
      Enter(pkg);
      assert Elems(pkg.deps[..0]) == {};
      for n := 0 to |pkg.deps|
        invariant Valid() && Extends(Push(s0, pkg.short), search)
        invariant forall k :: k in old(lowLinks) ==> k in lowLinks && lowLinks[k] == old(lowLinks)[k]
        invariant pkg.short in lowLinks
        invariant Scanning(g, search, base, pkg.short, lowLinks[pkg.short], Elems(pkg.deps[..n]))
      {
        ElemsPrefix(pkg.deps, n);
        TopActive(g, s0, pkg.short, search);
        Follow(pkg, pkg.deps[n], base, Elems(pkg.deps[..n]));
      }
      assert pkg.deps[..|pkg.deps|] == pkg.deps;
      TopActive(g, s0, pkg.short, search);
      ghost var t := search;
      Finish(pkg, base);
      VisitExtends(g, s0, pkg.short, t, search);
    }

    /** The opening assignments of `visit`. */
    method Enter(pkg: Pkg)
      requires Valid() && pkg.short in remaining && remaining[pkg.short] == pkg && pkg.short !in indices
      requires forall a :: a in search.active ==> Reach(g, a, pkg.short)
      modifies this
      ensures Valid() && search == Push(old(search), pkg.short)
      ensures lowLinks == old(lowLinks)[pkg.short := old(nextIndex)]
    {
      PushKeeps(g, search, pkg.short);
      NamesPush(stack, pkg);
      var index := nextIndex;
      nextIndex := nextIndex + 1;
      indices, lowLinks := indices[pkg.short := index], lowLinks[pkg.short := index];
      stack, stacked := stack + [pkg], stacked + {pkg.short};
      search := Push(search, pkg.short);
    }

    /** One round of the dependency loop of `visit`. */
    method Follow(pkg: Pkg, dependency: string, ghost base: nat, ghost seen: set<string>)
      requires Valid() && pkg.short in lowLinks && pkg.short in remaining && remaining[pkg.short] == pkg
      requires dependency in pkg.deps
      requires Scanning(g, search, base, pkg.short, lowLinks[pkg.short], seen)
      requires forall i :: base < i < |search.stack| ==> search.stack[i] !in search.active
      modifies this
      ensures Valid() && Extends(old(search), search)
      ensures forall k :: k in old(lowLinks) && k != pkg.short ==> k in lowLinks && lowLinks[k] == old(lowLinks)[k]
      ensures pkg.short in lowLinks
      ensures Scanning(g, search, base, pkg.short, lowLinks[pkg.short], seen + {dependency})
      decreases remaining.Keys - indices.Keys, 1
    {
      ghost var low, s := lowLinks[pkg.short], search;
      if dependency !in remaining {
        ScanSkipped(g, s, base, pkg.short, low, seen, dependency);
        return;
      }
      var target := remaining[dependency];
      if target.short !in indices {
        ActiveReach(g, s, base, pkg.short, dependency);
        Visit(target);
        ScanVisited(g, s, search, base, pkg.short, low, seen, dependency, lowLinks[target.short]);
        LowerTo(pkg.short, lowLinks[target.short]);
      } else if target.short in stacked {
        ScanStacked(g, s, base, pkg.short, low, seen, dependency);
        LowerTo(pkg.short, indices[target.short]);
      } else {
        ScanSkipped(g, s, base, pkg.short, low, seen, dependency);
      }
    }

    /** The tail of `visit`, once every dependency is behind it. */
    method Finish(pkg: Pkg, ghost base: nat)
      requires Valid() && pkg.short in lowLinks && pkg.short in remaining && remaining[pkg.short] == pkg
      requires Scanning(g, search, base, pkg.short, lowLinks[pkg.short], Elems(pkg.deps))
      requires pkg.short in search.active && forall i :: base < i < |search.stack| ==> search.stack[i] !in search.active
      modifies this
      ensures Valid() && indices == old(indices) && lowLinks == old(lowLinks) && nextIndex == old(nextIndex)
      ensures search.active == old(search).active - {pkg.short} && old(search).stack[..base] <= search.stack
      ensures LowLink(g, search, base, pkg.short, lowLinks[pkg.short])
    {
      ghost var s := search;
      if lowLinks[pkg.short] != indices[pkg.short] {
        ScanRetires(g, s, base, pkg.short, lowLinks[pkg.short], Elems(pkg.deps));
        search := s.(active := s.active - {pkg.short});
        return;
      }
      ScanSevers(g, s, base, pkg.short, lowLinks[pkg.short], Elems(pkg.deps));
      PopKeeps(g, s, base);
      StackDistinct();
      ghost var whole := stack;
      var component := PopComponent(pkg, base);
      Popped(whole, base, component);
      components := components + [component];
      search := Pop(s, base);
    }

    /** A visit with nothing under way. */
    method VisitRoot(pkg: Pkg)
      requires Valid() && search.active == {}
      requires pkg.short in remaining && remaining[pkg.short] == pkg && pkg.short !in indices
      modifies this
      ensures Valid() && search.active == {} && pkg.short in indices && old(indices.Keys) <= indices.Keys
    {
      Visit(pkg);
    }

    /** The outer loop of the source: visit every package not yet numbered. */
    method Explore(order: seq<Pkg>)
      requires Valid() && indices == map[] && search.active == {}
      requires Members(order) == remaining.Keys && From(order, remaining)
      modifies this
      ensures Valid() && search.active == {} && remaining.Keys <= indices.Keys
    {
      for n := 0 to |order|
        invariant Valid() && search.active == {} && Elems(Names(order)[..n]) <= indices.Keys
      {
        var pkg := order[n];
        assert pkg in order;
        ElemsPrefix(Names(order), n);
        if pkg.short !in indices {
          VisitRoot(pkg);
        }
      }
      assert Names(order)[..|order|] == Names(order);
    }

    /** After the outer loop the components partition the packages. */
    lemma Explored()
      requires Valid() && search.active == {} && remaining.Keys <= indices.Keys
      ensures Partitions(g, Sets(components), remaining.Keys)
    {
      InvParts(g, search);
      IdleStack(g, search);
    }

    lemma StackDistinct()
      requires Valid()
      ensures Distinct(stack)
    {
      InvParts(g, search);
      forall i, j | 0 <= i < j < |stack|
        ensures stack[i].short != stack[j].short
      {
        assert search.indices[search.stack[i]] < search.indices[search.stack[j]];
      }
    }

    /** A popped component lists the suffix it was popped from. */
    static lemma Popped(whole: seq<Pkg>, base: nat, component: seq<Pkg>)
      requires base <= |whole| && Distinct(whole) && |component| == |whole| - base
      requires forall i :: 0 <= i < |component| ==> component[i] == whole[|whole| - 1 - i]
      ensures Members(component) == Elems(Names(whole)[base..]) && Distinct(component)
      ensures forall p :: p in component ==> p in whole
    {
      var suffix := Names(whole)[base..];
      forall x | x in suffix
        ensures x in Names(component)
      {
        var i :| 0 <= i < |suffix| && suffix[i] == x;
        assert Names(component)[|component| - 1 - i] == x;
      }
      forall x | x in Names(component)
        ensures x in suffix
      {
        var i :| 0 <= i < |component| && Names(component)[i] == x;
        assert suffix[|component| - 1 - i] == x;
      }
    }

    static lemma NamesAppend(init: seq<Pkg>, last: Pkg)
      requires Distinct(init + [last])
      ensures Distinct(init)
      ensures Names(init + [last]) == Names(init) + [last.short]
      ensures Members(init) == Members(init + [last]) - {last.short}
    {
      var s := init + [last];
      NamesPush(init, last);
      assert s[|init|] == last;
      assert forall i :: 0 <= i < |init| ==> s[i] == init[i];
      forall x | x in Names(init)
        ensures x != last.short
      {
        var i :| 0 <= i < |init| && Names(init)[i] == x;
        assert s[i].short != s[|init|].short;
      }
    }
  }

  /** The filter of the source: more than one member or a self-dependency, and no remaining dependency outside. */
  predicate Kept(component: Component, remaining: map<string, Pkg>) {
    && (|component| > 1 || component[0].short in component[0].deps)
    && forall p :: p in component ==> forall d :: d in p.deps ==> d !in remaining || exists q :: q in component && q.short == d
  }

  lemma KeptMeans(component: Component, remaining: map<string, Pkg>)
    requires Distinct(component) && From(component, remaining)
    ensures Kept(component, remaining) <==> Cyclic(Members(component), remaining) && Sink(Members(component), remaining)
  {
    MembersSize(component);
    MembersOf(component);
    var first := component[0].short;
    assert component[0] in component;
    if |component| == 1 {
      assert forall p :: p in component ==> p == component[0];
    }
    forall p, d | p in component && d in p.deps
      ensures (exists q :: q in component && q.short == d) <==> d in Members(component)
    {
    }
    if Kept(component, remaining) {
      forall k, d | k in Members(component) && k in remaining && d in remaining[k].deps && d in remaining
        ensures d in Members(component)
      {
        var p :| p in component && p.short == k;
        assert d in p.deps;
      }
    }
  }

  lemma MembersOf(packages: seq<Pkg>)
    ensures forall k :: k in Members(packages) <==> exists p :: p in packages && p.short == k
  {
    forall k | k in Members(packages)
      ensures exists p :: p in packages && p.short == k
    {
      var i :| 0 <= i < |packages| && Names(packages)[i] == k;
      assert packages[i] in packages;
    }
    forall p | p in packages
      ensures p.short in Members(packages)
    {
      var i :| 0 <= i < |packages| && packages[i] == p;
      assert Names(packages)[i] == p.short;
    }
  }

  /** `cycles` holds every sink cycle of `remaining` exactly once, each as a list of its packages. */
  ghost predicate AllSinkCycles(cycles: seq<Component>, remaining: map<string, Pkg>) {
    && (forall c :: c in cycles ==> IsSinkCycle(Members(c), remaining) && Distinct(c) && From(c, remaining))
    && PairwiseDisjoint(cycles)
    && (forall names :: IsSinkCycle(names, remaining) ==> exists c :: c in cycles && Members(c) == names)
  }

  lemma ComponentFacts(components: seq<Component>, remaining: map<string, Pkg>, n: nat)
    requires Partitions(GraphOf(remaining), Sets(components), remaining.Keys) && n < |components|
    ensures IsScc(GraphOf(remaining), Members(components[n]))
    ensures forall m :: 0 <= m < n ==> Members(components[m]) !! Members(components[n])
  {
    assert Sets(components)[n] in Sets(components);
    assert forall m :: 0 <= m < n ==> Sets(components)[m] !! Sets(components)[n];
  }

  /** Every sink cycle is one of the components of a partition. */
  lemma SinkCycleIsComponent(components: seq<Component>, remaining: map<string, Pkg>, names: set<string>) returns (n: nat)
    requires Partitions(GraphOf(remaining), Sets(components), remaining.Keys) && IsSinkCycle(names, remaining)
    ensures n < |components| && Members(components[n]) == names
  {
    var x :| x in names;
    assert Covered(Sets(components), x);
    n :| 0 <= n < |components| && x in Sets(components)[n];
    ComponentFacts(components, remaining, n);
    SccsDisjoint(GraphOf(remaining), names, Members(components[n]), x);
  }

  function KeptOf(components: seq<Component>, remaining: map<string, Pkg>): (kept: seq<Component>)
    ensures forall c :: c in kept <==> c in components && Kept(c, remaining)
  {
    if components == [] then []
    else (if Kept(components[0], remaining) then [components[0]] else []) + KeptOf(components[1..], remaining)
  }

  ghost predicate PairwiseDisjoint(components: seq<Component>) {
    forall i, j :: 0 <= i < j < |components| ==> Members(components[i]) !! Members(components[j])
  }

  lemma {:induction false} KeptDisjoint(components: seq<Component>, remaining: map<string, Pkg>)
    requires PairwiseDisjoint(components)
    ensures PairwiseDisjoint(KeptOf(components, remaining))
  {
    if components != [] {
      KeptDisjoint(components[1..], remaining);
      var rest := KeptOf(components[1..], remaining);
      forall j | 0 <= j < |rest|
        ensures Members(components[0]) !! Members(rest[j])
      {
        assert rest[j] in rest;
        var m :| 0 <= m < |components[1..]| && components[1..][m] == rest[j];
        assert components[m + 1] == rest[j];
      }
      var kept := KeptOf(components, remaining);
      assert kept == rest || kept == [components[0]] + rest;
      assert |kept| > |rest| ==> forall j :: 1 <= j < |kept| ==> kept[j] == rest[j - 1];
    }
  }

  lemma KeptAreSinkCycles(components: seq<Component>, remaining: map<string, Pkg>)
    requires Partitions(GraphOf(remaining), Sets(components), remaining.Keys)
    requires forall c :: c in components ==> Distinct(c) && From(c, remaining)
    ensures forall c :: c in components ==> (Kept(c, remaining) <==> IsSinkCycle(Members(c), remaining))
    ensures PairwiseDisjoint(components)
  {
    forall n | 0 <= n < |components|
      ensures Kept(components[n], remaining) <==> IsSinkCycle(Members(components[n]), remaining)
      ensures forall m :: 0 <= m < n ==> Members(components[m]) !! Members(components[n])
    {
      ComponentFacts(components, remaining, n);
      KeptMeans(components[n], remaining);
    }
  }

  method SinkCycles(order: seq<Pkg>, remaining: map<string, Pkg>) returns (cycles: seq<Component>)
    requires WellKeyed(remaining) && Members(order) == remaining.Keys && From(order, remaining)
    ensures AllSinkCycles(cycles, remaining)
  {
    var finder := new Finder(remaining);
    finder.Explore(order);
    finder.Explored();
    KeptAreAll(finder.components, remaining);
    cycles := KeptOf(finder.components, remaining);
  }

  lemma KeptAreAll(components: seq<Component>, remaining: map<string, Pkg>)
    requires Partitions(GraphOf(remaining), Sets(components), remaining.Keys)
    requires forall c :: c in components ==> Distinct(c) && From(c, remaining)
    ensures AllSinkCycles(KeptOf(components, remaining), remaining)
  {
    KeptAreSinkCycles(components, remaining);
    var cycles := KeptOf(components, remaining);
    KeptDisjoint(components, remaining);
    forall names | IsSinkCycle(names, remaining)
      ensures exists c :: c in cycles && Members(c) == names
    {
      var n := SinkCycleIsComponent(components, remaining, names);
      assert components[n] in components;
    }
  }
}
