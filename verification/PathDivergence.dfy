/** A cycle of type aliases that lengthens the path is never left: nothing on it depends on the keys, every round comes
    with a longer path, and a walk that returned would have noted infinitely many lengths. */
module PathDivergence {
  import opened Basics
  import opened PathGrowth
  import opened PathLookup
  import opened PathTermination
  import opened TypeSyntax

  /** `t` refers to `e`, `delta` steps further, at a place every walk of `t` with a non-empty path comes to. */
  ghost predicate SurelyOccurs(w: World, file: string, t: Type, e: string, delta: nat)
    decreases t
  {
    || (Target(w, file, t) == Some(e) && delta == 0)
    || (0 <= Shift(t) <= delta && exists k :: k in Kids(ANYTHING, t) && SurelyOccurs(w, file, k, e, delta - Shift(t)))
  }

  /** Alias `d` surely leads to the interface or alias `e`. */
  ghost predicate SureLink(w: World, d: string, e: string, delta: nat) {
    && d in w.decls && w.decls[d].decl.Alias? && e in w.decls && !w.decls[e].decl.Enum?
    && SurelyOccurs(w, w.decls[d].file, w.decls[d].decl.type_, e, delta)
  }

  ghost predicate SurelyLeads(w: World, d: string, route: Route, e: string)
    decreases |route|
  {
    if route == [] then d == e
    else
      && route[0].1 >= 0 && SureLink(w, d, route[0].0, route[0].1)
      && SurelyLeads(w, route[0].0, route[1..], e)
  }

  // ----- what a walk that returned has noted

  /** Behind every alias noted since `before`, what it surely leads to is noted too. */
  ghost predicate ClosedSince(w: World, before: Seen, after: Seen) {
    && before <= after
    && forall d, n, e, delta: nat ::
         (d, n) in after && (d, n) !in before && n > 0 && SureLink(w, d, e, delta) ==> (e, n + delta) in after
  }

  lemma ClosedTwice(w: World, a: Seen, b: Seen, c: Seen)
    requires ClosedSince(w, a, b) && ClosedSince(w, b, c)
    ensures ClosedSince(w, a, c)
  {
  }

  /** Whatever `t` surely refers to has been noted. */
  ghost predicate Noted(w: World, file: string, t: Type, length: nat, seen: Seen) {
    forall e, delta: nat :: e in w.decls && !w.decls[e].decl.Enum? && SurelyOccurs(w, file, t, e, delta) ==>
      (e, length + delta) in seen
  }

  lemma NotedByKid(w: World, file: string, t: Type, kid: Type, length: nat, next: nat, seen: Seen)
    requires Kids(ANYTHING, t) == [kid] && Target(w, file, t).None?
    requires next == length + Shift(t) && Noted(w, file, kid, next, seen)
    ensures Noted(w, file, t, length, seen)
  {
    forall e, delta: nat | e in w.decls && !w.decls[e].decl.Enum? && SurelyOccurs(w, file, t, e, delta)
      ensures (e, length + delta) in seen
    {
      assert SurelyOccurs(w, file, kid, e, delta - Shift(t));
    }
  }

  lemma {:induction false} TypeNotes(w: World, file: string, t: Type, steps: seq<Step>, seen: Seen, fuel: nat)
    requires LookupType(w, file, t, steps, seen, fuel).Done?
    ensures ClosedSince(w, seen, LookupType(w, file, t, steps, seen, fuel).seen)
    ensures steps != [] ==> Noted(w, file, t, |steps|, LookupType(w, file, t, steps, seen, fuel).seen)
    decreases fuel, 0
  {
    if steps == [] {
      return;
    }
    var after := LookupType(w, file, t, steps, seen, fuel).seen;
    match MoveOf(w, file, t, steps)
    case Halt =>
    case IntoMembers(members) => MemberNotes(w, file, FindMember(members, steps[0].name), steps, seen, fuel - 1);
    case IntoParts(parts, _) =>
      PartsNote(w, file, parts, steps, seen, fuel - 1);
      NotedByParts(w, file, t, |steps|, after);
    case Into(inner, next) =>
      TypeNotes(w, file, inner, next, seen, fuel - 1);
      if Shift(t) >= 0 {
        NotedByKid(w, file, t, inner, |steps|, |next|, after);
      }
    case Enter(id) => DeclNotes(w, id, steps, seen, fuel - 1);
  }

  lemma NotedByParts(w: World, file: string, t: Type, length: nat, seen: Seen)
    requires t.Intersection? || t.Union?
    requires forall i :: 0 <= i < |t.parts| ==> Noted(w, file, t.parts[i], length, seen)
    ensures Noted(w, file, t, length, seen)
  {
    forall e, delta: nat | e in w.decls && !w.decls[e].decl.Enum? && SurelyOccurs(w, file, t, e, delta)
      ensures (e, length + delta) in seen
    {
      var k :| k in Kids(ANYTHING, t) && SurelyOccurs(w, file, k, e, delta);
      var i :| 0 <= i < |t.parts| && t.parts[i] == k;
      assert Noted(w, file, t.parts[i], length, seen);
    }
  }

  lemma {:induction false} MemberNotes(w: World, file: string, found: Option<Member>, steps: seq<Step>, seen: Seen, fuel: nat)
    requires steps != [] && (found.Some? ==> found.value.Property?)
    requires LookupMember(w, file, found, steps, seen, fuel).Done?
    ensures ClosedSince(w, seen, LookupMember(w, file, found, steps, seen, fuel).seen)
    decreases fuel, 1
  {
    if found.Some? && |steps| > 1 && found.value.type_.Some? {
      TypeNotes(w, file, found.value.type_.value, steps[1..], seen, fuel);
    }
  }

  lemma NotedLonger(w: World, file: string, t: Type, length: nat, seen: Seen, more: Seen)
    requires Noted(w, file, t, length, seen) && seen <= more
    ensures Noted(w, file, t, length, more)
  {
  }

  lemma {:induction false} PartsNote(w: World, file: string, parts: seq<Type>, steps: seq<Step>, seen: Seen, fuel: nat)
    requires steps != [] && LookupParts(w, file, parts, steps, seen, fuel).AllDone?
    ensures ClosedSince(w, seen, LookupParts(w, file, parts, steps, seen, fuel).seen)
    ensures forall i :: 0 <= i < |parts| ==> Noted(w, file, parts[i], |steps|, LookupParts(w, file, parts, steps, seen, fuel).seen)
    decreases fuel, 1 + |parts|
  {
    if parts != [] {
      var middle := LookupType(w, file, parts[0], steps, seen, fuel).seen;
      var after := LookupParts(w, file, parts, steps, seen, fuel).seen;
      TypeNotes(w, file, parts[0], steps, seen, fuel);
      PartsNote(w, file, parts[1..], steps, middle, fuel);
      ClosedTwice(w, seen, middle, after);
      NotedLonger(w, file, parts[0], |steps|, middle, after);
      forall i | 0 <= i < |parts|
        ensures Noted(w, file, parts[i], |steps|, after)
      {
        assert i > 0 ==> parts[i] == parts[1..][i - 1];
      }
    }
  }

  lemma {:induction false} DeclNotes(w: World, id: string, steps: seq<Step>, seen: Seen, fuel: nat)
    requires id in w.decls && LookupDecl(w, id, steps, seen, fuel).Done?
    ensures ClosedSince(w, seen, LookupDecl(w, id, steps, seen, fuel).seen)
    ensures steps != [] && !w.decls[id].decl.Enum? ==> (id, |steps|) in LookupDecl(w, id, steps, seen, fuel).seen
    decreases fuel, 0
  {
    if steps == [] || w.decls[id].decl.Enum? || (id, |steps|) in seen {
      return;
    }
    var file, key := w.decls[id].file, (id, |steps|);
    var seen', after := seen + {key}, LookupDecl(w, id, steps, seen, fuel).seen;
    match w.decls[id].decl
    case Alias(t) =>
      TypeNotes(w, file, t, steps, seen', fuel - 1);
      KeyNoted(w, key, seen, after);
    case Interface(members, bases) =>
      if steps[0].Key? {
        if FindMember(members, steps[0].name).Some? {
          MemberNotes(w, file, FindMember(members, steps[0].name), steps, seen', fuel - 1);
        } else {
          BasesNote(w, file, bases, steps, seen', fuel - 1);
        }
      }
      KeyNoted(w, key, seen, after);
  }

  /** With its own references noted the key just entered is closed too. */
  lemma KeyNoted(w: World, key: (string, nat), seen: Seen, after: Seen)
    requires key.0 in w.decls && ClosedSince(w, seen + {key}, after)
    requires w.decls[key.0].decl.Alias? ==> Noted(w, w.decls[key.0].file, w.decls[key.0].decl.type_, key.1, after)
    ensures ClosedSince(w, seen, after)
  {
  }

  lemma {:induction false} BasesNote(w: World, file: string, bases: seq<Base>, steps: seq<Step>, seen: Seen, fuel: nat)
    requires LookupBases(w, file, bases, steps, seen, fuel).AllDone?
    ensures ClosedSince(w, seen, LookupBases(w, file, bases, steps, seen, fuel).seen)
    decreases fuel, 2 + |bases|
  {
    if bases != [] {
      var middle := LookupBase(w, file, bases[0], steps, seen, fuel).seen;
      if bases[0].Named? && w.Resolve(file, bases[0].name).Some? {
        DeclNotes(w, w.Resolve(file, bases[0].name).value, steps, seen, fuel);
      }
      BasesNote(w, file, bases[1..], steps, middle, fuel);
      ClosedTwice(w, seen, middle, LookupBases(w, file, bases, steps, seen, fuel).seen);
    }
  }

  // ----- round and round

  lemma {:induction false} RouteNoted(w: World, d: string, n: nat, route: Route, e: string, after: Seen)
    requires ClosedSince(w, {}, after) && (d, n) in after && n > 0 && SurelyLeads(w, d, route, e)
    ensures Growth(route) >= 0 && (e, n + Growth(route)) in after
    decreases |route|
  {
    if route != [] {
      RouteNoted(w, route[0].0, n + route[0].1, route[1..], e, after);
    }
  }

  lemma {:induction false} RoundsNoted(w: World, d: string, n: nat, route: Route, after: Seen, length: nat)
    requires ClosedSince(w, {}, after) && (d, n) in after && n > 0
    requires SurelyLeads(w, d, route, d) && Growth(route) > 0
    ensures exists m: nat :: m >= length && (d, m) in after
    decreases if n < length then length - n else 0
  {
    if n < length {
      RouteNoted(w, d, n, route, d, after);
      RoundsNoted(w, d, n + Growth(route), route, after, length);
    }
  }

  lemma {:induction false} LengthsBounded(seen: Seen) returns (bound: nat)
    ensures forall d, m :: (d, m) in seen ==> m < bound
    decreases seen
  {
    bound := 0;
    if key :| key in seen {
      bound := LengthsBounded(seen - {key});
      bound := if bound <= key.1 then key.1 + 1 else bound;
    }
  }

  /** No walk of an alias on a growing cycle of aliases returns, whatever the path. */
  lemma GrowingAliasesNeverReturn(w: World, d: string, route: Route, steps: seq<Step>, fuel: nat)
    requires d in w.decls && SurelyLeads(w, d, route, d) && Growth(route) > 0 && steps != []
    ensures LookupDecl(w, d, steps, {}, fuel).Exhausted?
  {
    if LookupDecl(w, d, steps, {}, fuel).Done? {
      var after := LookupDecl(w, d, steps, {}, fuel).seen;
      DeclNotes(w, d, steps, {}, fuel);
      var bound := LengthsBounded(after);
      RoundsNoted(w, d, |steps|, route, after, bound);
    }
  }

  // ----- where all declarations are aliases of this kind the two conditions meet

  /** No members and no arrays: every place is one that every walk comes to. */
  ghost predicate KeyFree(t: Type)
    decreases t
  {
    Shift(t) >= 0 && forall k :: k in Kids(ANYTHING, t) ==> KeyFree(k)
  }

  ghost predicate KeyFreeAliases(w: World) {
    forall d :: d in w.decls ==> w.decls[d].decl.Alias? && KeyFree(w.decls[d].decl.type_)
  }

  lemma {:induction false} OccursSurely(w: World, file: string, t: Type, e: string, delta: int)
    requires KeyFree(t) && Occurs(w, ANYTHING, file, t, e, delta)
    ensures delta >= 0 && SurelyOccurs(w, file, t, e, delta)
    decreases t
  {
    if !(Target(w, file, t) == Some(e) && delta == 0) {
      var k :| k in Kids(ANYTHING, t) && Occurs(w, ANYTHING, file, k, e, delta - Shift(t));
      OccursSurely(w, file, k, e, delta - Shift(t));
    }
  }

  lemma {:induction false} LeadsSurely(w: World, d: string, route: Route, e: string)
    requires KeyFreeAliases(w) && Leads(w, ANYTHING, d, route, e)
    ensures SurelyLeads(w, d, route, e)
    decreases |route|
  {
    if route != [] {
      assert LinkShown(w, ANYTHING, d, route[0].0, route[0].1, Shown);
      OccursSurely(w, w.decls[d].file, w.decls[d].decl.type_, route[0].0, route[0].1);
      LeadsSurely(w, route[0].0, route[1..], e);
    }
  }

  ghost predicate Returns(w: World, d: string, steps: seq<Step>)
    requires d in w.decls
  {
    exists fuel: nat :: LookupDecl(w, d, steps, {}, fuel).Done?
  }

  ghost predicate AlwaysReturns(w: World) {
    forall d, steps :: d in w.decls ==> Returns(w, d, steps)
  }

  /** Among aliases without members and arrays every walk returns exactly when no cycle lengthens the path. */
  lemma AliasesReturnIff(w: World)
    requires KeyFreeAliases(w)
    ensures AlwaysReturns(w) <==> NoGrowingCycle(w, ANYTHING)
  {
    if NoGrowingCycle(w, ANYTHING) {
      forall d, steps | d in w.decls
        ensures Returns(w, d, steps)
      {
        NoneGrowsForAny(w, AskedFor(w, steps));
        WalkReturns(w, d, steps);
      }
    }
    if AlwaysReturns(w) {
      forall d, route | Leads(w, ANYTHING, d, route, d)
        ensures Growth(route) <= 0
      {
        LeadsSurely(w, d, route, d);
        LeadsSplit(w, ANYTHING, d, route, d, 0);
        var steps := [Element];
        assert Returns(w, d, steps);
        var fuel: nat :| LookupDecl(w, d, steps, {}, fuel).Done?;
        if Growth(route) > 0 {
          GrowingAliasesNeverReturn(w, d, route, steps, fuel);
        }
      }
    }
  }

  /** `type A = A['x']`. */
  const SELF_INDEXED: World := World(
    map["A" := Declared("a.ts", Alias(Indexed(Reference("A", false, []), Some("x"))))],
    map[("a.ts", "A") := "A"])

  /** It leads to itself with ever longer paths. */
  lemma SelfIndexedNeverReturns(steps: seq<Step>, fuel: nat)
    requires steps != []
    ensures LookupDecl(SELF_INDEXED, "A", steps, {}, fuel).Exhausted?
  {
    var self := Reference("A", false, []);
    var indexed := Indexed(self, Some("x"));
    var route: Route := [("A", 1)];
    assert Kids(ANYTHING, self) == [] && Kids(ANYTHING, indexed) == [self] && SELF_INDEXED.Resolve("a.ts", "A") == Some("A");
    assert SurelyOccurs(SELF_INDEXED, "a.ts", self, "A", 0);
    assert self in Kids(ANYTHING, indexed) && Shift(indexed) == 1;
    assert SurelyOccurs(SELF_INDEXED, "a.ts", self, "A", 1 - Shift(indexed));
    assert SurelyOccurs(SELF_INDEXED, "a.ts", indexed, "A", 1);
    assert SureLink(SELF_INDEXED, "A", "A", 1);
    assert route[1..] == [] && SurelyLeads(SELF_INDEXED, "A", route, "A") && Growth(route) == 1;
    GrowingAliasesNeverReturn(SELF_INDEXED, "A", route, steps, fuel);
  }
}
