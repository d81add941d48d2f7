/** The state of a running Tarjan search over names, its invariant, and what each
    step of the search does to that invariant. */
module SccSearch {
  import opened Basics
  import opened Graphs

  /** Visit numbers, the stack (oldest first), the finished components, and the
      nodes whose visit has started and not yet returned. */
  datatype Search = Search(
    nextIndex: nat,
    indices: map<string, nat>,
    stack: seq<string>,
    components: seq<set<string>>,
    active: set<string>)

  /** Nodes already taken off the stack. */
  ghost function Done(s: Search): set<string> {
    s.indices.Keys - Elems(s.stack)
  }

  /** The stack lists visited nodes in the order they were numbered. */
  ghost predicate Shape(g: Graph, s: Search) {
    && s.indices.Keys <= g.Keys
    && (forall k :: k in s.indices ==> s.indices[k] < s.nextIndex)
    && (forall x :: x in s.stack ==> x in s.indices)
    && (forall i, j :: 0 <= i < j < |s.stack| ==> s.indices[s.stack[i]] < s.indices[s.stack[j]])
    && (forall a :: a in s.active ==> a in s.stack)
  }

  /** Finished nodes lead only to visited nodes, and nodes off the stack only to nodes off the stack. */
  ghost predicate Frontier(g: Graph, s: Search) {
    && (forall a, b :: a in s.indices && a !in s.active && Edge(g, a, b) ==> b in s.indices)
    && Closed(g, Done(s))
  }

  /** Some active node at or below position `j` is reachable from `stack[j]`. */
  ghost predicate Anchored(g: Graph, s: Search, j: nat)
    requires j < |s.stack|
  {
    exists i :: 0 <= i <= j && s.stack[i] in s.active && Reach(g, s.stack[j], s.stack[i])
  }

  /** An active node reaches everything above it; every stack node is anchored. */
  ghost predicate Linked(g: Graph, s: Search) {
    && (forall i, j :: 0 <= i <= j < |s.stack| && s.stack[i] in s.active ==> Reach(g, s.stack[i], s.stack[j]))
    && (forall j :: 0 <= j < |s.stack| ==> Anchored(g, s, j))
  }

  /** Distinct components that together hold exactly the nodes of `done`. */
  ghost predicate Partitions(g: Graph, components: seq<set<string>>, done: set<string>) {
    && (forall c :: c in components ==> IsScc(g, c) && c <= done)
    && (forall i, j :: 0 <= i < j < |components| ==> components[i] !! components[j])
    && (forall a :: a in done ==> Covered(components, a))
  }

  ghost predicate Covered(components: seq<set<string>>, a: string) {
    exists i :: 0 <= i < |components| && a in components[i]
  }

  /** The four parts of the invariant; quantifying over them keeps the methods that
      only carry the invariant along from seeing inside it. */
  datatype Rule = StackShape | ClosedFrontier | LinkedStack | WholeComponents

  ghost predicate Holds(g: Graph, s: Search, rule: Rule) {
    match rule
    case StackShape => Shape(g, s)
    case ClosedFrontier => Frontier(g, s)
    case LinkedStack => Linked(g, s)
    case WholeComponents => Partitions(g, s.components, Done(s))
  }

  ghost predicate Inv(g: Graph, s: Search) {
    forall rule :: Holds(g, s, rule)
  }

  lemma InvParts(g: Graph, s: Search)
    requires Inv(g, s)
    ensures Shape(g, s) && Frontier(g, s) && Linked(g, s) && Partitions(g, s.components, Done(s))
  {
    assert Holds(g, s, StackShape);
    assert Holds(g, s, ClosedFrontier);
    assert Holds(g, s, LinkedStack);
    assert Holds(g, s, WholeComponents);
  }

  // ----- starting a visit

  ghost function Push(s: Search, v: string): Search {
    Search(s.nextIndex + 1, s.indices[v := s.nextIndex], s.stack + [v], s.components, s.active + {v})
  }

  lemma PushLinked(g: Graph, s: Search, v: string)
    requires Shape(g, s) && Linked(g, s) && v in g && v !in s.indices
    requires forall a :: a in s.active ==> Reach(g, a, v)
    ensures Linked(g, Push(s, v))
  {
    var t := Push(s, v);
    ReachRefl(g, v);
    forall j | 0 <= j < |t.stack|
      ensures Anchored(g, t, j)
    {
      if j < |s.stack| {
        assert Anchored(g, s, j);
        var i :| 0 <= i <= j && s.stack[i] in s.active && Reach(g, s.stack[j], s.stack[i]);
        assert t.stack[i] == s.stack[i] && t.stack[j] == s.stack[j];
      } else {
        assert t.stack[j] == v && v in t.active;
      }
    }
  }

  lemma PushKeeps(g: Graph, s: Search, v: string)
    requires Inv(g, s) && v in g && v !in s.indices
    requires forall a :: a in s.active ==> Reach(g, a, v)
    ensures Inv(g, Push(s, v)) && Done(Push(s, v)) == Done(s)
  {
    InvParts(g, s);
    assert Done(Push(s, v)) == Done(s);
    PushLinked(g, s, v);
  }

  // ----- scanning the dependencies of an active node

  /** `t` is a later state of the same visit: older stack entries and numbers are untouched. */
  ghost predicate Extends(s: Search, t: Search) {
    && s.stack <= t.stack && s.active == t.active
    && s.indices.Keys <= t.indices.Keys
    && forall k :: k in s.indices ==> t.indices[k] == s.indices[k]
  }

  /** `low` is the number of a stack node that `v` reaches. */
  ghost predicate Witnessed(g: Graph, s: Search, v: string, low: nat) {
    exists w :: 0 <= w < |s.stack| && s.stack[w] in s.indices && s.indices[s.stack[w]] == low && Reach(g, v, s.stack[w])
  }

  /** Every edge from the stack above `top` to the stack below `base` lands on a number of at least `low`. */
  ghost predicate Bounded(g: Graph, s: Search, base: nat, top: nat, low: nat) {
    forall i, j :: 0 <= j < base <= top <= i < |s.stack| && s.stack[j] in s.indices && Edge(g, s.stack[i], s.stack[j])
      ==> low <= s.indices[s.stack[j]]
  }

  /** What the low-link of `v` means once its visit, begun at stack height `base`, has returned. */
  ghost predicate LowLink(g: Graph, s: Search, base: nat, v: string, low: nat) {
    && v in s.indices && low <= s.indices[v]
    && (low < s.indices[v] ==> Witnessed(g, s, v, low))
    && (low == s.indices[v] ==> |s.stack| == base)
    && Bounded(g, s, base, base, low)
  }

  datatype ScanPart = LowReached | OlderEdges | SeenDependencies

  /** With current low-link `low` and the dependencies `seen` behind it: `low` is reached,
      the edges above `v` are bounded by it, and so are the edges to `seen`. */
  ghost predicate ScanHolds(g: Graph, s: Search, base: nat, v: string, low: nat, seen: set<string>, part: ScanPart) {
    match part
    case LowReached => Witnessed(g, s, v, low)
    case OlderEdges => Bounded(g, s, base, base + 1, low)
    case SeenDependencies =>
      && (forall d :: d in seen && d in g ==> d in s.indices)
      && (forall j :: 0 <= j < base && j < |s.stack| && s.stack[j] in seen && s.stack[j] in s.indices
            ==> low <= s.indices[s.stack[j]])
  }

  /** The visit of `v = stack[base]` in the middle of its dependency loop. */
  ghost predicate Scanning(g: Graph, s: Search, base: nat, v: string, low: nat, seen: set<string>) {
    && base < |s.stack| && s.stack[base] == v && v in s.indices && low <= s.indices[v]
    && forall part :: ScanHolds(g, s, base, v, low, seen, part)
  }

  lemma ScanParts(g: Graph, s: Search, base: nat, v: string, low: nat, seen: set<string>)
    requires Scanning(g, s, base, v, low, seen)
    ensures Witnessed(g, s, v, low) && Bounded(g, s, base, base + 1, low)
    ensures forall d :: d in seen && d in g ==> d in s.indices
    ensures forall j :: 0 <= j < base && s.stack[j] in seen && s.stack[j] in s.indices ==> low <= s.indices[s.stack[j]]
  {
    assert ScanHolds(g, s, base, v, low, seen, LowReached);
    assert ScanHolds(g, s, base, v, low, seen, OlderEdges);
    assert ScanHolds(g, s, base, v, low, seen, SeenDependencies);
  }

  lemma WitnessExtends(g: Graph, s: Search, t: Search, v: string, low: nat)
    requires Extends(s, t) && Witnessed(g, s, v, low)
    ensures Witnessed(g, t, v, low)
  {
    var w :| 0 <= w < |s.stack| && s.stack[w] in s.indices && s.indices[s.stack[w]] == low && Reach(g, v, s.stack[w]);
    assert t.stack[w] == s.stack[w];
  }

  lemma WitnessThrough(g: Graph, s: Search, v: string, d: string, low: nat)
    requires Edge(g, v, d) && Witnessed(g, s, d, low)
    ensures Witnessed(g, s, v, low)
  {
    var w :| 0 <= w < |s.stack| && s.stack[w] in s.indices && s.indices[s.stack[w]] == low && Reach(g, d, s.stack[w]);
    ReachEdge(g, v, d);
    ReachTrans(g, v, d, s.stack[w]);
  }

  lemma BoundedExtends(g: Graph, s: Search, t: Search, base: nat, top: nat, low: nat, lowD: nat)
    requires Shape(g, s) && Extends(s, t) && base < top <= |s.stack|
    requires Bounded(g, s, base, top, low) && Bounded(g, t, |s.stack|, |s.stack|, lowD)
    ensures Bounded(g, t, base, top, Min(low, lowD))
  {
    forall i, j | 0 <= j < base && top <= i < |t.stack| && t.stack[j] in t.indices && Edge(g, t.stack[i], t.stack[j])
      ensures Min(low, lowD) <= t.indices[t.stack[j]]
    {
      assert t.stack[j] == s.stack[j] && s.stack[j] in s.stack;
      if i < |s.stack| {
        assert t.stack[i] == s.stack[i];
      }
    }
  }

  /** After visiting dependency `d`, the caller's low-link becomes the smaller of the two. */
  lemma ScanVisited(g: Graph, s: Search, t: Search, base: nat, v: string, low: nat, seen: set<string>, d: string, lowD: nat)
    requires Inv(g, s) && Inv(g, t) && Scanning(g, s, base, v, low, seen)
    requires Edge(g, v, d) && d !in s.indices && Extends(s, t) && LowLink(g, t, |s.stack|, d, lowD)
    requires t.indices[d] == s.nextIndex
    ensures Scanning(g, t, base, v, Min(low, lowD), seen + {d})
  {
    ScanParts(g, s, base, v, low, seen);
    assert Holds(g, s, StackShape);
    WitnessExtends(g, s, t, v, low);
    if lowD < low {
      WitnessThrough(g, t, v, d, lowD);
    }
    assert t.stack[base] == s.stack[base];
    BoundedExtends(g, s, t, base, base + 1, low, lowD);
    forall j | 0 <= j < base && t.stack[j] in seen + {d} && t.stack[j] in t.indices
      ensures Min(low, lowD) <= t.indices[t.stack[j]]
    {
      assert t.stack[j] == s.stack[j] && s.stack[j] in s.stack;
    }
  }

  /** A dependency already on the stack caps the low-link by its number. */
  lemma ScanStacked(g: Graph, s: Search, base: nat, v: string, low: nat, seen: set<string>, d: string)
    requires Inv(g, s) && Scanning(g, s, base, v, low, seen) && Edge(g, v, d) && d in s.stack && d in s.indices
    ensures Scanning(g, s, base, v, Min(low, s.indices[d]), seen + {d})
  {
    ScanParts(g, s, base, v, low, seen);
    assert Holds(g, s, StackShape);
    ReachEdge(g, v, d);
    var w :| 0 <= w < |s.stack| && s.stack[w] == d;
    assert Witnessed(g, s, v, s.indices[d]);
  }

  /** A dependency that is no node, or is already off the stack, changes nothing. */
  lemma ScanSkipped(g: Graph, s: Search, base: nat, v: string, low: nat, seen: set<string>, d: string)
    requires Scanning(g, s, base, v, low, seen) && d !in s.stack && (d in g ==> d in s.indices)
    ensures Scanning(g, s, base, v, low, seen + {d})
  {
    ScanParts(g, s, base, v, low, seen);
  }

  lemma ScanStart(g: Graph, s: Search, v: string)
    requires v in g && v !in s.indices
    ensures Scanning(g, Push(s, v), |s.stack|, v, s.nextIndex, {})
  {
    ReachRefl(g, v);
    var t := Push(s, v);
    assert t.stack[|s.stack|] == v;
  }

  // ----- ending a visit that leaves its node on the stack

  /** Finishing `stack[k]`, which still reaches the older `stack[w]`. */
  lemma RetireKeeps(g: Graph, s: Search, k: nat, w: nat)
    requires Inv(g, s) && w < k < |s.stack|
    requires forall b :: Edge(g, s.stack[k], b) ==> b in s.indices
    requires Reach(g, s.stack[k], s.stack[w])
    ensures Inv(g, s.(active := s.active - {s.stack[k]}))
  {
    InvParts(g, s);
    var t := s.(active := s.active - {s.stack[k]});
    assert Done(t) == Done(s);
    RetireLinked(g, s, k, w);
  }

  lemma RetireAnchored(g: Graph, s: Search, k: nat, z: nat, j: nat)
    requires Shape(g, s) && z < k < |s.stack| && j < |s.stack| && Anchored(g, s, j)
    requires s.stack[z] in s.active && Reach(g, s.stack[k], s.stack[z])
    ensures Anchored(g, s.(active := s.active - {s.stack[k]}), j)
  {
    var t := s.(active := s.active - {s.stack[k]});
    var i :| 0 <= i <= j && s.stack[i] in s.active && Reach(g, s.stack[j], s.stack[i]);
    if i == k {
      ReachTrans(g, s.stack[j], s.stack[k], s.stack[z]);
      assert s.indices[s.stack[z]] < s.indices[s.stack[k]];
      assert t.stack[z] in t.active;
    } else {
      assert s.stack[i] != s.stack[k] by {
        assert i < k || k < i;
      }
      assert t.stack[i] in t.active;
    }
  }

  lemma RetireLinked(g: Graph, s: Search, k: nat, w: nat)
    requires Shape(g, s) && Linked(g, s) && w < k < |s.stack|
    requires Reach(g, s.stack[k], s.stack[w])
    ensures Linked(g, s.(active := s.active - {s.stack[k]}))
  {
    assert Anchored(g, s, w);
    var z :| 0 <= z <= w && s.stack[z] in s.active && Reach(g, s.stack[w], s.stack[z]);
    ReachTrans(g, s.stack[k], s.stack[w], s.stack[z]);
    forall j | 0 <= j < |s.stack|
      ensures Anchored(g, s.(active := s.active - {s.stack[k]}), j)
    {
      RetireAnchored(g, s, k, z, j);
    }
  }

  // ----- ending a visit that completes a component

  /** No edge runs from `stack[k..]` down to `stack[..k]`, and `stack[k]` is the only active node of that suffix. */
  ghost predicate Severed(g: Graph, s: Search, k: nat)
    requires k < |s.stack|
  {
    && s.stack[k] in s.active
    && (forall i :: k < i < |s.stack| ==> s.stack[i] !in s.active)
    && (forall b :: Edge(g, s.stack[k], b) ==> b in s.indices)
    && (forall i, j :: 0 <= j < k <= i < |s.stack| ==> !Edge(g, s.stack[i], s.stack[j]))
  }

  lemma SeveredClosed(g: Graph, s: Search, k: nat)
    requires Shape(g, s) && Frontier(g, s) && k < |s.stack| && Severed(g, s, k)
    ensures Closed(g, Done(s) + Elems(s.stack[k..]))
    ensures forall j :: 0 <= j < k ==> s.stack[j] !in Done(s) + Elems(s.stack[k..])
  {
    var keep := Done(s) + Elems(s.stack[k..]);
    forall a, b | a in keep && Edge(g, a, b)
      ensures b in keep
    {
      if a !in Done(s) {
        var i :| 0 <= i < |s.stack[k..]| && s.stack[k..][i] == a;
        assert a == s.stack[k + i];
        if b in s.stack {
          var j :| 0 <= j < |s.stack| && s.stack[j] == b;
          assert j >= k;
          assert s.stack[k..][j - k] == b;
        }
      }
    }
  }

  lemma SeveredConnected(g: Graph, s: Search, k: nat, a: string)
    requires Shape(g, s) && Frontier(g, s) && Linked(g, s) && k < |s.stack| && Severed(g, s, k)
    requires a in s.stack[k..]
    ensures Mutual(g, s.stack[k], a)
  {
    SeveredClosed(g, s, k);
    var i :| 0 <= i < |s.stack[k..]| && s.stack[k..][i] == a;
    assert a == s.stack[k + i];
    assert Anchored(g, s, k + i);
    var z :| 0 <= z <= k + i && s.stack[z] in s.active && Reach(g, a, s.stack[z]);
    ReachStays(g, a, s.stack[z], Done(s) + Elems(s.stack[k..]));
    assert z == k;
  }

  lemma SeveredIsScc(g: Graph, s: Search, k: nat)
    requires Shape(g, s) && Frontier(g, s) && Linked(g, s) && k < |s.stack| && Severed(g, s, k)
    ensures IsScc(g, Elems(s.stack[k..]))
  {
    var c := Elems(s.stack[k..]);
    var v := s.stack[k];
    assert s.stack[k..][0] == v;
    assert v in c;
    SeveredClosed(g, s, k);
    forall a, b | a in c && b in g
      ensures b in c <==> Mutual(g, a, b)
    {
      SeveredConnected(g, s, k, a);
      if b in c {
        SeveredConnected(g, s, k, b);
        ReachTrans(g, a, v, b);
        ReachTrans(g, b, v, a);
      }
      if Mutual(g, a, b) {
        ReachStays(g, a, b, Done(s) + c);
        if b in Done(s) {
          ReachStays(g, b, a, Done(s));
        }
      }
    }
  }

  /** While `v` is being visited nothing above it on the stack is active. */
  lemma TopActive(g: Graph, s: Search, v: string, t: Search)
    requires Inv(g, s) && Inv(g, t) && Extends(Push(s, v), t)
    ensures forall i :: |s.stack| < i < |t.stack| ==> t.stack[i] !in t.active
  {
    InvParts(g, s);
    InvParts(g, t);
    forall i | |s.stack| < i < |t.stack|
      ensures t.stack[i] !in t.active
    {
      assert t.stack[|s.stack|] == v;
      assert forall j :: 0 <= j < |s.stack| ==> s.stack[j] == t.stack[j] != t.stack[i];
    }
  }

  /** A visit as a whole: pushing, scanning to `t` and finishing in `u` extends the state it began in. */
  lemma VisitExtends(g: Graph, s: Search, v: string, t: Search, u: Search)
    requires Inv(g, s) && v !in s.indices && Extends(Push(s, v), t)
    requires u.indices == t.indices && u.active == t.active - {v} && t.stack[..|s.stack|] <= u.stack
    ensures Extends(s, u)
  {
    InvParts(g, s);
    assert t.stack[..|s.stack|] == s.stack;
  }

  /** Every active node reaches the dependencies of the innermost active node. */
  lemma ActiveReach(g: Graph, s: Search, base: nat, v: string, d: string)
    requires Inv(g, s) && base < |s.stack| && s.stack[base] == v && Edge(g, v, d)
    requires forall i :: base < i < |s.stack| ==> s.stack[i] !in s.active
    ensures forall a :: a in s.active ==> Reach(g, a, d)
  {
    InvParts(g, s);
    ReachEdge(g, v, d);
    forall a | a in s.active
      ensures Reach(g, a, d)
    {
      var i :| 0 <= i < |s.stack| && s.stack[i] == a;
      assert i <= base;
      ReachTrans(g, a, v, d);
    }
  }

  /** A finished scan whose low-link is the node's own number has cut its suffix off from the older stack. */
  lemma ScanSevers(g: Graph, s: Search, base: nat, v: string, low: nat, seen: set<string>)
    requires Inv(g, s) && Scanning(g, s, base, v, low, seen) && low == s.indices[v]
    requires v in s.active && forall i :: base < i < |s.stack| ==> s.stack[i] !in s.active
    requires forall b :: Edge(g, v, b) ==> b in seen
    ensures Severed(g, s, base)
  {
    ScanParts(g, s, base, v, low, seen);
    assert Holds(g, s, StackShape);
    forall i, j | 0 <= j < base <= i < |s.stack|
      ensures !Edge(g, s.stack[i], s.stack[j])
    {
      assert s.stack[j] in s.stack;
      assert s.indices[s.stack[j]] < s.indices[s.stack[base]];
    }
  }

  /** A smaller low-link is the number of a stack node below the scanned one. */
  lemma WitnessBelow(g: Graph, s: Search, base: nat, v: string, low: nat) returns (w: nat)
    requires Shape(g, s) && base < |s.stack| && s.stack[base] == v && v in s.indices && low < s.indices[v]
    requires Witnessed(g, s, v, low)
    ensures w < base && s.stack[w] in s.indices && s.indices[s.stack[w]] == low && Reach(g, v, s.stack[w])
  {
    w :| 0 <= w < |s.stack| && s.stack[w] in s.indices && s.indices[s.stack[w]] == low && Reach(g, v, s.stack[w]);
    assert w <= base;
  }

  /** A finished scan with a smaller low-link leaves its node on the stack with that low-link. */
  lemma ScanLowLink(g: Graph, s: Search, base: nat, v: string, low: nat, seen: set<string>)
    requires Scanning(g, s, base, v, low, seen) && low != s.indices[v]
    requires forall b :: Edge(g, v, b) ==> b in seen
    ensures LowLink(g, s.(active := s.active - {v}), base, v, low)
  {
    ScanParts(g, s, base, v, low, seen);
    var t := s.(active := s.active - {v});
    assert Extends(s, s);
    assert Witnessed(g, t, v, low) by {
      var w :| 0 <= w < |s.stack| && s.stack[w] in s.indices && s.indices[s.stack[w]] == low && Reach(g, v, s.stack[w]);
      assert t.stack[w] == s.stack[w];
    }
    forall i, j | 0 <= j < base <= i < |t.stack| && t.stack[j] in t.indices && Edge(g, t.stack[i], t.stack[j])
      ensures low <= t.indices[t.stack[j]]
    {
      if i == base {
        assert t.stack[j] in seen;
      }
    }
  }

  lemma ScanRetires(g: Graph, s: Search, base: nat, v: string, low: nat, seen: set<string>)
    requires Inv(g, s) && Scanning(g, s, base, v, low, seen) && low != s.indices[v]
    requires forall b :: Edge(g, v, b) ==> b in seen
    ensures Inv(g, s.(active := s.active - {v}))
    ensures LowLink(g, s.(active := s.active - {v}), base, v, low)
  {
    ScanParts(g, s, base, v, low, seen);
    InvParts(g, s);
    var w := WitnessBelow(g, s, base, v, low);
    assert forall b :: Edge(g, v, b) ==> b in s.indices;
    RetireKeeps(g, s, base, w);
    ScanLowLink(g, s, base, v, low, seen);
  }

  ghost function Pop(s: Search, k: nat): Search
    requires k < |s.stack|
  {
    Search(s.nextIndex, s.indices, s.stack[..k], s.components + [Elems(s.stack[k..])], s.active - {s.stack[k]})
  }

  lemma PopDone(g: Graph, s: Search, k: nat)
    requires Shape(g, s) && k < |s.stack|
    ensures Done(Pop(s, k)) == Done(s) + Elems(s.stack[k..])
    ensures Done(s) !! Elems(s.stack[k..])
  {
    assert s.stack == s.stack[..k] + s.stack[k..];
    forall x | x in s.stack[k..]
      ensures x !in s.stack[..k]
    {
      var i :| 0 <= i < |s.stack[k..]| && s.stack[k..][i] == x;
      assert x == s.stack[k + i];
    }
  }

  lemma PopLinked(g: Graph, s: Search, k: nat)
    requires Shape(g, s) && Linked(g, s) && k < |s.stack| && Severed(g, s, k)
    ensures Linked(g, Pop(s, k))
  {
    var t := Pop(s, k);
    forall j | 0 <= j < |t.stack|
      ensures Anchored(g, t, j)
    {
      assert Anchored(g, s, j);
      var i :| 0 <= i <= j && s.stack[i] in s.active && Reach(g, s.stack[j], s.stack[i]);
      assert t.stack[i] == s.stack[i] != s.stack[k];
    }
  }

  lemma PartitionsAppend(g: Graph, components: seq<set<string>>, done: set<string>, c: set<string>)
    requires Partitions(g, components, done) && IsScc(g, c) && done !! c
    ensures Partitions(g, components + [c], done + c)
  {
    var more := components + [c];
    forall i, j | 0 <= i < j < |more|
      ensures more[i] !! more[j]
    {
      assert components[i] in components;
    }
    forall a | a in done + c
      ensures Covered(more, a)
    {
      if a in done {
        assert Covered(components, a);
        var i :| 0 <= i < |components| && a in components[i];
        assert more[i] == components[i];
      } else {
        assert more[|components|] == c;
      }
    }
  }

  lemma PopShape(g: Graph, s: Search, k: nat)
    requires Shape(g, s) && k < |s.stack| && Severed(g, s, k)
    ensures Shape(g, Pop(s, k))
  {
    forall a | a in Pop(s, k).active
      ensures a in s.stack[..k]
    {
      var i :| 0 <= i < |s.stack| && s.stack[i] == a;
      assert i < k;
      assert s.stack[..k][i] == a;
    }
  }

  lemma PopKeeps(g: Graph, s: Search, k: nat)
    requires Inv(g, s) && k < |s.stack| && Severed(g, s, k)
    ensures Inv(g, Pop(s, k))
  {
    InvParts(g, s);
    PopShape(g, s, k);
    PopLinked(g, s, k);
    PopDone(g, s, k);
    assert Frontier(g, Pop(s, k)) by { SeveredClosed(g, s, k); }
    SeveredIsScc(g, s, k);
    PartitionsAppend(g, s.components, Done(s), Elems(s.stack[k..]));
  }

  /** With no visit running the stack is empty, so every numbered node lies in a component. */
  lemma IdleStack(g: Graph, s: Search)
    requires Inv(g, s) && s.active == {}
    ensures s.stack == [] && Partitions(g, s.components, s.indices.Keys)
  {
    InvParts(g, s);
    assert s.stack == [] by {
      assert |s.stack| > 0 ==> Anchored(g, s, 0);
    }
    assert Done(s) == s.indices.Keys;
  }
}
