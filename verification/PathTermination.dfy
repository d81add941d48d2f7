/** `lookupPath` returns on every set of declarations in which no cycle that the keys can follow lengthens the path. */
module PathTermination {
  import opened Basics
  import opened TypeSyntax
  import opened PathGrowth
  import opened PathLookup

  /** What a walk can ask for, the most the path can still grow from each declaration on, the depth of all bodies, and a
      length no walk exceeds. */
  datatype Limits = Limits(w: World, asked: iset<Step>, rise: map<string, nat>, depth: nat, cap: nat)

  ghost predicate StepsAsked(l: Limits, steps: seq<Step>) {
    forall s :: s in steps ==> s in l.asked
  }

  /** All keys that indexed accesses in `t` put in front of the path can be asked for. */
  ghost predicate KeysAsked(l: Limits, t: Type) {
    forall s :: Prefixes(t, s) ==> s in l.asked
  }

  /** Entered with `length` steps left, `id` never takes the path beyond the cap. */
  ghost predicate FitsDecl(l: Limits, id: string, length: int) {
    id in l.rise && length + l.rise[id] <= l.cap
  }

  /** Every declaration `t` leads to fits, at the length the path has there. */
  ghost predicate Fits(l: Limits, file: string, t: Type, length: int) {
    forall e, delta :: Occurs(l.w, l.asked, file, t, e, delta) ==> FitsDecl(l, e, length + delta)
  }

  /** Every body is shallow enough, and no link leads to where the path could grow beyond the rise of its start. */
  ghost predicate Bounded(l: Limits) {
    forall id {:trigger BoundedAt(l, id)} :: id in l.w.decls ==> BoundedAt(l, id)
  }

  ghost predicate BoundedAt(l: Limits, id: string)
    requires id in l.w.decls
  {
    && id in l.rise && DepthWithin(l.asked, Body(l.w.decls[id].decl), l.depth) && KeysAsked(l, Body(l.w.decls[id].decl))
    && forall e, delta :: Falls(l, id, e, delta)
  }

  ghost predicate Falls(l: Limits, id: string, e: string, delta: int)
    requires id in l.rise
  {
    Link(l.w, l.asked, id, e, delta) ==> e in l.rise && l.rise[e] + delta <= l.rise[id]
  }

  /** A node of a body, entered with `length` steps left, within all limits. */
  ghost predicate Ready(l: Limits, file: string, t: Type, d: nat, length: int) {
    Fits(l, file, t, length) && DepthWithin(l.asked, t, d) && KeysAsked(l, t)
  }

  /** What holds of a node holds of its kids, with the length they are entered with. */
  lemma KidReady(l: Limits, file: string, t: Type, kid: Type, d: nat, length: int)
    requires Ready(l, file, t, d, length) && kid in Kids(l.asked, t)
    ensures d > 0 && Ready(l, file, kid, d - 1, length + Shift(t))
  {
    forall e, delta | Occurs(l.w, l.asked, file, kid, e, delta)
      ensures FitsDecl(l, e, length + Shift(t) + delta)
    {
      assert Occurs(l.w, l.asked, file, t, e, delta + Shift(t));
    }
    forall s | Prefixes(kid, s)
      ensures s in l.asked
    {
      KidsAmongAll(l.asked, t);
      assert Prefixes(t, s);
    }
  }

  /** The moves of a walk within the limits: into kids, by as much as the path is longer there, or into the target. */
  lemma MoveReady(l: Limits, file: string, t: Type, steps: seq<Step>)
    requires steps != [] && StepsAsked(l, steps) && KeysAsked(l, t)
    ensures var move := MoveOf(l.w, file, t, steps);
      && (move.IntoMembers? ==> t == Literal(move.members))
      && (move.IntoParts? ==> move.parts == Kids(l.asked, t) && Shift(t) == 0)
      && (move.Into? ==> move.inner in Kids(l.asked, t) && |move.next| == |steps| + Shift(t) && StepsAsked(l, move.next))
      && (move.Enter? ==> Target(l.w, file, t) == Some(move.id))
  {
    assert steps[0] in steps;
    assert forall s :: s in steps[1..] ==> s in steps;
    if t.Indexed? && t.key.Some? {
      assert Prefixes(t, Key(t.key.value));
    }
  }

  /** The type of a member that the path goes into. */
  lemma MemberReady(l: Limits, file: string, t: Type, m: Member, d: nat, steps: seq<Step>)
    requires t.Literal? && m in t.members && m.Property? && m.type_.Some? && steps != [] && steps[0] == Key(m.text)
    requires Ready(l, file, t, d, |steps|) && StepsAsked(l, steps)
    ensures d > 0 && Ready(l, file, m.type_.value, d - 1, |steps| - 1) && StepsAsked(l, steps[1..])
  {
    assert steps[0] in steps && Asked(l.asked, m);
    assert forall s :: s in steps[1..] ==> s in steps;
    assert t.members[..|t.members|] == t.members;
    KidReady(l, file, t, m.type_.value, d, |steps|);
  }

  /** All keys `seen` can hold during a walk under the cap. */
  ghost function Keys(l: Limits): set<(string, nat)> {
    set id, n: nat | id in l.w.decls && n <= l.cap :: (id, n)
  }

  ghost function Unseen(l: Limits, seen: Seen): nat {
    |Keys(l) - seen|
  }

  /** Calls that entering as many fresh declarations can take. */
  ghost function Budget(unseen: nat, depth: nat): nat {
    if unseen == 0 then 0 else Budget(unseen - 1, depth) + depth + 2
  }

  lemma {:induction false} BudgetMonotone(a: nat, b: nat, depth: nat)
    requires a <= b
    ensures Budget(a, depth) <= Budget(b, depth)
  {
    if a < b {
      BudgetMonotone(a, b - 1, depth);
    }
  }

  /** More seen keys need no more calls. */
  lemma SeenSavesBudget(l: Limits, seen: Seen, more: Seen)
    requires seen <= more
    ensures Budget(Unseen(l, more), l.depth) <= Budget(Unseen(l, seen), l.depth)
  {
    SubsetNotLarger(Keys(l) - more, Keys(l) - seen);
    BudgetMonotone(Unseen(l, more), Unseen(l, seen), l.depth);
  }

  lemma FreshKeySavesBudget(l: Limits, seen: Seen, key: (string, nat))
    requires key in Keys(l) && key !in seen
    ensures Budget(Unseen(l, seen + {key}), l.depth) + l.depth + 2 <= Budget(Unseen(l, seen), l.depth)
  {
    assert Keys(l) - (seen + {key}) == (Keys(l) - seen) - {key};
  }

  lemma {:induction false} TypeReturns(l: Limits, file: string, t: Type, d: nat, steps: seq<Step>, seen: Seen, fuel: nat)
    requires Bounded(l) && Ready(l, file, t, d, |steps|) && StepsAsked(l, steps)
    requires fuel > Budget(Unseen(l, seen), l.depth) + d
    ensures LookupType(l.w, file, t, steps, seen, fuel).Done?
    ensures seen <= LookupType(l.w, file, t, steps, seen, fuel).seen
    decreases fuel, 0
  {
    if steps == [] {
      return;
    }
    MoveReady(l, file, t, steps);
    match MoveOf(l.w, file, t, steps)
    case Halt =>
    case IntoMembers(members) => MemberReturns(l, file, t, d, steps, seen, fuel - 1);
    case IntoParts(parts, _) =>
      forall p | p in parts
        ensures d > 0 && Ready(l, file, p, d - 1, |steps|)
      {
        KidReady(l, file, t, p, d, |steps|);
      }
      PartsReturn(l, file, parts, d - 1, steps, seen, fuel - 1);
    case Into(inner, next) =>
      KidReady(l, file, t, inner, d, |steps|);
      TypeReturns(l, file, inner, d - 1, next, seen, fuel - 1);
    case Enter(id) =>
      assert Occurs(l.w, l.asked, file, t, id, 0);
      DeclReturns(l, id, steps, seen, fuel - 1);
  }

  lemma {:induction false} MemberReturns(l: Limits, file: string, t: Type, d: nat, steps: seq<Step>, seen: Seen, fuel: nat)
    requires t.Literal? && steps != [] && steps[0].Key?
    requires Bounded(l) && Ready(l, file, t, d, |steps|) && StepsAsked(l, steps) && d > 0
    requires fuel >= Budget(Unseen(l, seen), l.depth) + d
    ensures var outcome := LookupMember(l.w, file, FindMember(t.members, steps[0].name), steps, seen, fuel);
      outcome.Done? && seen <= outcome.seen
    decreases fuel, 1
  {
    var found := FindMember(t.members, steps[0].name);
    if found.Some? && |steps| > 1 && found.value.type_.Some? {
      MemberReady(l, file, t, found.value, d, steps);
      TypeReturns(l, file, found.value.type_.value, d - 1, steps[1..], seen, fuel);
    }
  }

  lemma {:induction false} PartsReturn(l: Limits, file: string, parts: seq<Type>, d: nat, steps: seq<Step>, seen: Seen, fuel: nat)
    requires Bounded(l) && StepsAsked(l, steps) && forall p :: p in parts ==> Ready(l, file, p, d, |steps|)
    requires fuel > Budget(Unseen(l, seen), l.depth) + d
    ensures LookupParts(l.w, file, parts, steps, seen, fuel).AllDone?
    ensures seen <= LookupParts(l.w, file, parts, steps, seen, fuel).seen
    decreases fuel, 1 + |parts|
  {
    if parts != [] {
      assert parts[0] in parts;
      TypeReturns(l, file, parts[0], d, steps, seen, fuel);
      var after := LookupType(l.w, file, parts[0], steps, seen, fuel).seen;
      SeenSavesBudget(l, seen, after);
      assert forall p :: p in parts[1..] ==> p in parts;
      PartsReturn(l, file, parts[1..], d, steps, after, fuel);
    }
  }

  lemma BodyFits(l: Limits, id: string, length: nat)
    requires id in l.w.decls && BoundedAt(l, id) && FitsDecl(l, id, length)
    ensures Fits(l, l.w.decls[id].file, Body(l.w.decls[id].decl), length)
  {
    forall e, delta
      ensures Occurs(l.w, l.asked, l.w.decls[id].file, Body(l.w.decls[id].decl), e, delta) ==> FitsDecl(l, e, length + delta)
    {
      OccurrenceFits(l, id, length, e, delta);
    }
  }

  lemma OccurrenceFits(l: Limits, id: string, length: nat, e: string, delta: int)
    requires id in l.w.decls && BoundedAt(l, id) && FitsDecl(l, id, length)
    ensures Occurs(l.w, l.asked, l.w.decls[id].file, Body(l.w.decls[id].decl), e, delta) ==> FitsDecl(l, e, length + delta)
  {
    if Occurs(l.w, l.asked, l.w.decls[id].file, Body(l.w.decls[id].decl), e, delta) {
      OccursLinks(l.w, l.asked, id, e, delta);
      assert Falls(l, id, e, delta);
    }
  }

  lemma OccursLinks(w: World, asked: iset<Step>, id: string, e: string, delta: int)
    requires id in w.decls && Occurs(w, asked, w.decls[id].file, Body(w.decls[id].decl), e, delta)
    ensures Link(w, asked, id, e, delta)
  {
    OccursResolves(w, asked, w.decls[id].file, Body(w.decls[id].decl), e, delta);
  }

  lemma {:induction false} OccursResolves(w: World, asked: iset<Step>, file: string, t: Type, e: string, delta: int)
    requires Occurs(w, asked, file, t, e, delta)
    ensures e in w.decls
    decreases t
  {
    if !(Target(w, file, t) == Some(e) && delta == 0) {
      var k :| k in Kids(asked, t) && Occurs(w, asked, file, k, e, delta - Shift(t));
      OccursResolves(w, asked, file, k, e, delta - Shift(t));
    }
  }

  lemma KeyUnderCap(l: Limits, id: string, length: nat)
    requires id in l.w.decls && FitsDecl(l, id, length)
    ensures (id, length) in Keys(l)
  {
  }

  /** Entering a declaration under a fresh key leaves calls enough for its body, which fits. */
  lemma BodyReady(l: Limits, id: string, length: nat, seen: Seen)
    requires Bounded(l) && id in l.w.decls && FitsDecl(l, id, length) && (id, length) !in seen
    ensures Budget(Unseen(l, seen + {(id, length)}), l.depth) + l.depth + 2 <= Budget(Unseen(l, seen), l.depth)
    ensures Ready(l, l.w.decls[id].file, Body(l.w.decls[id].decl), l.depth, length)
  {
    KeyUnderCap(l, id, length);
    FreshKeySavesBudget(l, seen, (id, length));
    assert BoundedAt(l, id);
    BodyFits(l, id, length);
  }

  lemma {:induction false} DeclReturns(l: Limits, id: string, steps: seq<Step>, seen: Seen, fuel: nat)
    requires Bounded(l) && id in l.w.decls && FitsDecl(l, id, |steps|) && StepsAsked(l, steps)
    requires fuel > Budget(Unseen(l, seen), l.depth)
    ensures LookupDecl(l.w, id, steps, seen, fuel).Done?
    ensures seen <= LookupDecl(l.w, id, steps, seen, fuel).seen
    decreases fuel, 0
  {
    var file, decl := l.w.decls[id].file, l.w.decls[id].decl;
    if steps == [] || decl.Enum? || (id, |steps|) in seen {
      return;
    }
    var seen': Seen := seen + {(id, |steps|)};
    BodyReady(l, id, |steps|, seen);
    match decl
    case Interface(members, bases) =>
      if steps[0].Key? {
        if FindMember(members, steps[0].name).Some? {
          MemberReturns(l, file, Body(decl), l.depth, steps, seen', fuel - 1);
        } else {
          BasesReturn(l, id, bases, steps, seen', fuel - 1);
        }
      }
    case Alias(t) => TypeReturns(l, file, t, l.depth, steps, seen', fuel - 1);
    case Enum =>
  }

  lemma {:induction false} BasesReturn(l: Limits, id: string, bases: seq<Base>, steps: seq<Step>, seen: Seen, fuel: nat)
    requires Bounded(l) && id in l.w.decls && FitsDecl(l, id, |steps|) && l.w.decls[id].decl.Interface? && StepsAsked(l, steps)
    requires forall b :: b in bases ==> b in l.w.decls[id].decl.bases
    requires fuel > Budget(Unseen(l, seen), l.depth)
    ensures LookupBases(l.w, l.w.decls[id].file, bases, steps, seen, fuel).AllDone?
    ensures seen <= LookupBases(l.w, l.w.decls[id].file, bases, steps, seen, fuel).seen
    decreases fuel, 2 + |bases|
  {
    if bases != [] {
      var file, base := l.w.decls[id].file, bases[0];
      assert base in bases;
      if base.Named? && l.w.Resolve(file, base.name).Some? {
        var e := l.w.Resolve(file, base.name).value;
        assert BoundedAt(l, id) && BaseOf(l.w, id, e) && Falls(l, id, e, 0);
        DeclReturns(l, e, steps, seen, fuel);
      }
      var after := LookupBase(l.w, file, base, steps, seen, fuel).seen;
      SeenSavesBudget(l, seen, after);
      assert forall b :: b in bases[1..] ==> b in bases;
      BasesReturn(l, id, bases[1..], steps, after, fuel);
    }
  }

  /** Where no cycle of declarations that its keys can follow lengthens the path a walk returns: some depth of calls
      suffices. */
  lemma WalkReturns(w: World, id: string, steps: seq<Step>)
    requires id in w.decls && NoGrowingCycle(w, AskedFor(w, steps))
    ensures exists fuel: nat :: LookupDecl(w, id, steps, {}, fuel).Done?
  {
    var asked := AskedFor(w, steps);
    var depth := CommonDepth(w, asked, w.decls.Keys);
    var rise := map d | d in w.decls :: Rise(w, asked, d);
    var l := Limits(w, asked, rise, depth, |steps| + rise[id]);
    forall d | d in w.decls
      ensures BoundedAt(l, d)
    {
      forall e, delta
        ensures Falls(l, d, e, delta)
      {
        if Link(w, asked, d, e, delta) {
          RiseFalls(w, asked, d, e, delta);
        }
      }
    }
    var fuel := Budget(Unseen(l, {}), depth) + 1;
    DeclReturns(l, id, steps, {}, fuel);
  }

  /** More depth changes nothing once a walk has returned. */
  lemma {:induction false} DeclSettledBeyond(w: World, id: string, steps: seq<Step>, fuel: nat, more: nat)
    requires id in w.decls && fuel <= more && LookupDecl(w, id, steps, {}, fuel).Done?
    ensures LookupDecl(w, id, steps, {}, more) == LookupDecl(w, id, steps, {}, fuel)
    decreases more - fuel
  {
    if fuel < more {
      DeclSettled(w, id, steps, {}, fuel);
      DeclSettledBeyond(w, id, steps, fuel + 1, more);
    }
  }

  /** At the depth `fuel` and every greater one the walk returns with this verdict. */
  ghost predicate Settles(w: World, id: string, steps: seq<Step>, verdict: Verdict, fuel: nat)
    requires id in w.decls
  {
    forall more: nat :: fuel <= more ==>
      LookupDecl(w, id, steps, {}, more).Done? && LookupDecl(w, id, steps, {}, more).verdict == verdict
  }

  /** The verdict is right on every premise that the declarations and the keys meet, whatever the unseen types contain. */
  ghost predicate Right(w: World, id: string, steps: seq<Step>, verdict: Verdict)
    requires id in w.decls
  {
    forall ids, p, c: Contents :: Meets(w, ids, p) && id in ids && StepsMeet(steps, p) ==> DeclTold(w, c, p, id, steps, verdict)
  }

  lemma ReturnedIsRight(w: World, id: string, steps: seq<Step>, fuel: nat)
    requires id in w.decls && LookupDecl(w, id, steps, {}, fuel).Done?
    ensures var verdict := LookupDecl(w, id, steps, {}, fuel).verdict;
      Settles(w, id, steps, verdict, fuel) && Right(w, id, steps, verdict)
  {
    var verdict := LookupDecl(w, id, steps, {}, fuel).verdict;
    forall more: nat | fuel <= more
      ensures LookupDecl(w, id, steps, {}, more).Done? && LookupDecl(w, id, steps, {}, more).verdict == verdict
    {
      DeclSettledBeyond(w, id, steps, fuel, more);
    }
    forall ids, p, c: Contents | Meets(w, ids, p) && id in ids && StepsMeet(steps, p)
      ensures DeclTold(w, c, p, id, steps, verdict)
    {
      DeclSound(w, c, ids, p, id, steps, {}, fuel);
    }
  }

  /** The whole walk: it returns, with one verdict, which is right. */
  lemma WalkAnswers(w: World, id: string, steps: seq<Step>)
    requires id in w.decls && NoGrowingCycle(w, AskedFor(w, steps))
    ensures exists verdict, fuel: nat :: Settles(w, id, steps, verdict, fuel) && Right(w, id, steps, verdict)
  {
    WalkReturns(w, id, steps);
    var fuel: nat :| LookupDecl(w, id, steps, {}, fuel).Done?;
    ReturnedIsRight(w, id, steps, fuel);
  }

  // ----- an indexed access paid for by a member

  /** `interface A { x: any; y: A['x'] }`. */
  const SELF_MEMBER: World := World(
    map["A" := Declared("a.ts", Interface([Property("x", Some("x"), Some(Opaque(0))),
                                          Property("y", Some("y"), Some(Indexed(Reference("A", false, []), Some("x"))))], []))],
    map[("a.ts", "A") := "A"])

  const SELF := Reference("A", false, [])

  lemma SelfOccurs(asked: iset<Step>, t: Type, e: string, delta: int)
    requires t == SELF || t == Indexed(SELF, Some("x")) || t == Opaque(0)
    requires Occurs(SELF_MEMBER, asked, "a.ts", t, e, delta)
    ensures t != Opaque(0) && e == "A" && delta == if t == SELF then 0 else 1
  {
    assert Kids(asked, SELF) == [] && Kids(asked, Opaque(0)) == [] && Kids(asked, Indexed(SELF, Some("x"))) == [SELF];
    if t == Indexed(SELF, Some("x")) {
      var k :| k in Kids(asked, t) && Occurs(SELF_MEMBER, asked, "a.ts", k, e, delta - 1);
      assert Target(SELF_MEMBER, "a.ts", k) == Some(e) && delta - 1 == 0;
    }
  }

  lemma SelfMemberKids(asked: iset<Step>)
    ensures forall k :: k in Kids(asked, Body(SELF_MEMBER.decls["A"].decl)) ==> k == Opaque(0) || k == Indexed(SELF, Some("x"))
  {
    var body := Body(SELF_MEMBER.decls["A"].decl);
    assert |body.members| == 2 && MemberTypes(asked, body, 0) == [];
    assert forall k :: k in MemberTypes(asked, body, 1) ==> k == Opaque(0);
  }

  lemma ViaKid(w: World, asked: iset<Step>, file: string, t: Type, e: string, delta: int) returns (k: Type)
    requires Occurs(w, asked, file, t, e, delta) && Target(w, file, t).None?
    ensures k in Kids(asked, t) && Occurs(w, asked, file, k, e, delta - Shift(t))
  {
    k :| k in Kids(asked, t) && Occurs(w, asked, file, k, e, delta - Shift(t));
  }

  lemma SelfMemberBody(asked: iset<Step>, e: string, delta: int) returns (body: Type)
    requires Link(SELF_MEMBER, asked, "A", e, delta)
    ensures Occurs(SELF_MEMBER, asked, "a.ts", body, e, delta) && Target(SELF_MEMBER, "a.ts", body).None? && Shift(body) == -1
    ensures forall k :: k in Kids(asked, body) ==> k == Opaque(0) || k == Indexed(SELF, Some("x"))
  {
    body := Body(SELF_MEMBER.decls["A"].decl);
    assert LinkShown(SELF_MEMBER, asked, "A", e, delta, Shown);
    assert SELF_MEMBER.decls["A"].decl.bases == [];
    SelfMemberKids(asked);
  }

  lemma SelfMemberLinks(asked: iset<Step>, e: string, delta: int)
    requires Link(SELF_MEMBER, asked, "A", e, delta)
    ensures e == "A" && delta == 0
  {
    var body := SelfMemberBody(asked, e, delta);
    var k := ViaKid(SELF_MEMBER, asked, "a.ts", body, e, delta);
    SelfOccurs(asked, k, e, delta + 1);
  }

  lemma {:induction false} SelfMemberGrowth(asked: iset<Step>, route: Route)
    requires Leads(SELF_MEMBER, asked, "A", route, "A")
    ensures Growth(route) == 0
    decreases |route|
  {
    if route != [] {
      SelfMemberLinks(asked, route[0].0, route[0].1);
      SelfMemberGrowth(asked, route[1..]);
    }
  }

  /** The member step makes up for the indexed one, so every walk of `A` returns. */
  lemma SelfMemberReturns(steps: seq<Step>)
    ensures forall asked :: NoGrowingCycle(SELF_MEMBER, asked)
    ensures exists fuel: nat :: LookupDecl(SELF_MEMBER, "A", steps, {}, fuel).Done?
  {
    forall asked, d, route | Leads(SELF_MEMBER, asked, d, route, d)
      ensures Growth(route) <= 0
    {
      assert d == "A" by {
        if route == [] {
          assert d in SELF_MEMBER.decls;
        }
      }
      SelfMemberGrowth(asked, route);
    }
    WalkReturns(SELF_MEMBER, "A", steps);
  }
}
