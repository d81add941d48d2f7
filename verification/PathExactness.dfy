/** How much `lookupPath` sees: where no declaration comes up twice with as many steps left, the verdict is `found` exactly
    when the declared types have the path whatever the unseen places contain, `missing` exactly when they lack it even
    with every union read loosely, and `unknown` only when the unseen places or the branches of a union leave it open. */
module PathExactness {
  import opened Basics
  import opened LooseReading
  import opened PathBlindSpots
  import opened PathLookup
  import opened PathSurvey
  import opened TypeSyntax

  // ----- seeing all that matters is being fair to it

  lemma {:induction false} SeenIsFair(w: World, ids: set<string>, file: string, t: Type, keys: set<string>)
    requires TypeMeets(w, ids, file, t, AllSeen(keys))
    ensures TypeMeets(w, ids, file, t, FairTo(keys))
    decreases t
  {
    match t
    case Literal(members) =>
      forall i | 0 <= i < |members| && members[i].Property? && members[i].type_.Some?
        ensures TypeMeets(w, ids, file, members[i].type_.value, FairTo(keys))
      {
        SeenIsFair(w, ids, file, members[i].type_.value, keys);
      }
    case Parenthesized(inner) => SeenIsFair(w, ids, file, inner, keys);
    case Intersection(parts) =>
      forall i | 0 <= i < |parts|
        ensures TypeMeets(w, ids, file, parts[i], FairTo(keys))
      {
        SeenIsFair(w, ids, file, parts[i], keys);
      }
    case Union(parts) =>
      forall i | 0 <= i < |parts|
        ensures TypeMeets(w, ids, file, parts[i], FairTo(keys))
      {
        SeenIsFair(w, ids, file, parts[i], keys);
      }
    case ArrayOf(element) => SeenIsFair(w, ids, file, element, keys);
    case Operator(_, inner) => SeenIsFair(w, ids, file, inner, keys);
    case Indexed(object_, key) =>
      if key.Some? {
        SeenIsFair(w, ids, file, object_, keys);
      }
    case Reference(head, _, args) =>
      if head in PASSTHROUGH_WRAPPERS + ARRAY_WRAPPERS && args != [] {
        SeenIsFair(w, ids, file, args[0], keys);
      }
    case Opaque(_) =>
  }

  lemma AllSeenIsFair(w: World, ids: set<string>, keys: set<string>)
    requires Meets(w, ids, AllSeen(keys))
    ensures Meets(w, ids, FairTo(keys))
  {
    forall id | id in ids
      ensures DeclMeets(w, ids, id, FairTo(keys))
    {
      assert DeclMeets(w, ids, id, AllSeen(keys));
      var file := w.decls[id].file;
      match w.decls[id].decl
      case Interface(members, _) =>
        forall m | m in members && m.Property? && m.type_.Some?
          ensures TypeMeets(w, ids, file, m.type_.value, FairTo(keys))
        {
          SeenIsFair(w, ids, file, m.type_.value, keys);
        }
      case Alias(t) => SeenIsFair(w, ids, file, t, keys);
      case Enum =>
    }
  }

  // ----- nothing given, everything given

  /** Under the contents that deny everything only what is found is had; under those that grant everything, in the loose
      reading, all that is not missing is had. */
  ghost predicate Between(hadAnyway: bool, hadAtBest: bool, verdict: Verdict) {
    (hadAnyway ==> verdict == Found) && (verdict != Missing ==> hadAtBest)
  }

  ghost predicate Exact(outcome: Outcome, survey: Survey, seen: Seen, hadAnyway: bool, hadAtBest: bool)
    requires outcome.Done?
  {
    outcome.seen == seen + Met(survey.entries) && Between(hadAnyway, hadAtBest, outcome.verdict)
  }

  ghost predicate HadAnyway(w: World, file: string, t: Type, steps: seq<Step>) {
    Has(w, Nothing, file, t, steps)
  }

  ghost predicate HadAtBest(w: World, file: string, t: Type, steps: seq<Step>) {
    Has(Loosened(w), Everything, file, LooseType(t), steps)
  }

  lemma {:induction false} TypeExact(w: World, ids: set<string>, p: Premise, file: string, t: Type, steps: seq<Step>, seen: Seen, fuel: nat)
    requires p.AllSeen? && Meets(w, ids, p) && TypeMeets(w, ids, file, t, p) && StepsMeet(steps, p)
    requires LookupType(w, file, t, steps, seen, fuel).Done? && Fresh(SurveyType(w, file, t, steps, fuel).entries, seen)
    ensures Exact(LookupType(w, file, t, steps, seen, fuel), SurveyType(w, file, t, steps, fuel), seen,
                  HadAnyway(w, file, t, steps), HadAtBest(w, file, t, steps))
    decreases fuel, 0
  {
    EmptyReadOff(seen);
    if steps == [] {
      assert HasWithin(Loosened(w), Everything, file, LooseType(t), steps, 0);
    } else {
      TypeGoesOn(w, file, t, steps, seen, fuel);
      SurveyMoves(w, file, t, steps, fuel);
      MoveMeets(w, ids, p, file, t, steps);
      MoveReadings(w, ids, p, file, t, steps);
      MoveExact(w, ids, p, file, MoveOf(w, file, t, steps), steps, seen, fuel - 1);
    }
  }

  ghost predicate MoveAnyway(w: World, file: string, move: Move, steps: seq<Step>)
    requires steps != [] && (move.IntoMembers? ==> steps[0].Key?) && (move.Enter? ==> move.id in w.decls)
  {
    !move.Halt? && MoveHas(w, Nothing, file, move, steps)
  }

  ghost predicate MoveAtBest(w: World, file: string, move: Move, steps: seq<Step>)
    requires steps != [] && (move.IntoMembers? ==> steps[0].Key?) && (move.Enter? ==> move.id in w.decls)
  {
    move.Halt? || MoveHas(Loosened(w), Everything, file, LooseMove(move), steps)
  }

  lemma {:induction false} MoveExact(w: World, ids: set<string>, p: Premise, file: string, move: Move, steps: seq<Step>, seen: Seen, fuel: nat)
    requires steps != [] && (move.IntoMembers? ==> steps[0].Key?) && (move.Enter? ==> move.id in w.decls)
    requires p.AllSeen? && Meets(w, ids, p) && MoveMet(w, ids, p, file, move) && StepsMeet(steps, p)
    requires Onward(w, file, move, steps, seen, fuel).Done? && Fresh(SurveyMove(w, file, move, steps, fuel).entries, seen)
    ensures Exact(Onward(w, file, move, steps, seen, fuel), SurveyMove(w, file, move, steps, fuel), seen,
                  MoveAnyway(w, file, move, steps), MoveAtBest(w, file, move, steps))
    decreases fuel, 2
  {
    EmptyReadOff(seen);
    match move
    case Halt =>
    case IntoMembers(members) => MembersExact(w, ids, p, file, members, steps, seen, fuel);
    case IntoParts(parts, union) =>
      if parts != [] || !union {
        PartsExact(w, ids, p, file, parts, steps, seen, fuel);
        JudgedExact(w, file, parts, union, steps, LookupParts(w, file, parts, steps, seen, fuel).verdicts);
      }
    case Into(inner, next) => TypeExact(w, ids, p, file, inner, next, seen, fuel);
    case Enter(id) => DeclExact(w, ids, p, id, steps, seen, fuel);
  }

  /** What is had anyway, and at best, by a type, in terms of what the walk goes on to. */
  lemma MoveReadings(w: World, ids: set<string>, p: Premise, file: string, t: Type, steps: seq<Step>)
    requires TypeMeets(w, ids, file, t, p) && steps != []
    ensures HadAnyway(w, file, t, steps) <==> MoveAnyway(w, file, MoveOf(w, file, t, steps), steps)
    ensures HadAtBest(w, file, t, steps) <==> MoveAtBest(w, file, MoveOf(w, file, t, steps), steps)
  {
    LooseMoves(w, file, t, steps);
    if MoveOf(w, file, t, steps).Halt? {
      HaltMeans(w, Nothing, file, t, steps);
      HaltMeans(Loosened(w), Everything, file, LooseType(t), steps);
    } else {
      MoveMeans(w, Nothing, file, t, steps);
      MoveMeans(Loosened(w), Everything, file, LooseType(t), steps);
    }
  }

  lemma JudgedExact(w: World, file: string, parts: seq<Type>, union: bool, steps: seq<Step>, verdicts: seq<Verdict>)
    requires steps != [] && |verdicts| == |parts| && (parts != [] || !union)
    requires forall i :: 0 <= i < |parts| ==> Between(HadAnyway(w, file, parts[i], steps), HadAtBest(w, file, parts[i], steps), verdicts[i])
    ensures Between(MoveHas(w, Nothing, file, IntoParts(parts, union), steps),
                    MoveHas(Loosened(w), Everything, file, LooseMove(IntoParts(parts, union)), steps), Judge(verdicts, union))
  {
    CombineMissing(verdicts);
    if MoveHas(w, Nothing, file, IntoParts(parts, union), steps) {
      JudgedFound(w, file, parts, union, steps, verdicts);
    }
    if Judge(verdicts, union) != Missing {
      var i :| 0 <= i < |verdicts| && verdicts[i] != Missing;
      assert HadAtBest(w, file, parts[i], steps);
      assert LooseTypes(parts)[i] in LooseTypes(parts);
    }
  }

  lemma JudgedFound(w: World, file: string, parts: seq<Type>, union: bool, steps: seq<Step>, verdicts: seq<Verdict>)
    requires steps != [] && |verdicts| == |parts|
    requires forall i :: 0 <= i < |parts| && HadAnyway(w, file, parts[i], steps) ==> verdicts[i] == Found
    requires MoveHas(w, Nothing, file, IntoParts(parts, union), steps)
    ensures Judge(verdicts, union) == Found
  {
    if union {
      forall v | v in verdicts
        ensures v == Found
      {
        var i :| 0 <= i < |verdicts| && verdicts[i] == v;
        assert parts[i] in parts && HadAnyway(w, file, parts[i], steps);
      }
    } else {
      var part :| part in parts && Has(w, Nothing, file, part, steps);
      var i :| 0 <= i < |parts| && parts[i] == part;
      assert HadAnyway(w, file, parts[i], steps);
      assert verdicts[i] in verdicts;
    }
  }

  lemma {:induction false} PartsExact(w: World, ids: set<string>, p: Premise, file: string, parts: seq<Type>, steps: seq<Step>, seen: Seen, fuel: nat)
    requires p.AllSeen? && Meets(w, ids, p) && StepsMeet(steps, p) && forall i :: 0 <= i < |parts| ==> TypeMeets(w, ids, file, parts[i], p)
    requires LookupParts(w, file, parts, steps, seen, fuel).AllDone? && Fresh(SurveyParts(w, file, parts, steps, fuel).entries, seen)
    ensures var all := LookupParts(w, file, parts, steps, seen, fuel);
      && all.seen == seen + Met(SurveyParts(w, file, parts, steps, fuel).entries) && |all.verdicts| == |parts|
      && forall i :: 0 <= i < |parts| ==>
           Between(HadAnyway(w, file, parts[i], steps), HadAtBest(w, file, parts[i], steps), all.verdicts[i])
    decreases fuel, 1, |parts|
  {
    EmptyReadOff(seen);
    if parts != [] {
      var a, b := SurveyType(w, file, parts[0], steps, fuel).entries, SurveyParts(w, file, parts[1..], steps, fuel).entries;
      var first := LookupType(w, file, parts[0], steps, seen, fuel);
      FreshThen(a, b, seen);
      TypeExact(w, ids, p, file, parts[0], steps, seen, fuel);
      PartsExact(w, ids, p, file, parts[1..], steps, first.seen, fuel);
      assert (seen + Met(a)) + Met(b) == seen + (Met(a) + Met(b));
    }
  }

  lemma {:induction false} MembersExact(w: World, ids: set<string>, p: Premise, file: string, members: seq<Member>, steps: seq<Step>,
                                        seen: Seen, fuel: nat)
    requires steps != [] && steps[0].Key? && p.AllSeen? && Meets(w, ids, p) && StepsMeet(steps, p) && MembersMeet(members, false, p)
    requires forall m :: m in members && m.Property? && m.type_.Some? ==> TypeMeets(w, ids, file, m.type_.value, p)
    requires LookupMember(w, file, FindMember(members, steps[0].name), steps, seen, fuel).Done?
    requires Fresh(SurveyMember(w, file, FindMember(members, steps[0].name), steps, fuel).entries, seen)
    ensures Exact(LookupMember(w, file, FindMember(members, steps[0].name), steps, seen, fuel),
                  SurveyMember(w, file, FindMember(members, steps[0].name), steps, fuel), seen,
                  MembersHave(w, Nothing, file, members, steps),
                  MembersHave(Loosened(w), Everything, file, LooseMembers(members), steps))
    decreases fuel, 1
  {
    EmptyReadOff(seen);
    var found := FindMember(members, steps[0].name);
    if found.Some? && |steps| > 1 && found.value.type_.Some? {
      TypeExact(w, ids, p, file, found.value.type_.value, steps[1..], seen, fuel);
    }
    if MembersHave(w, Nothing, file, members, steps) {
      NothingGiven(w, p, file, members, steps);
    }
    if found.Some? && (|steps| == 1 || found.value.type_.None? || HadAtBest(w, file, found.value.type_.value, steps[1..])) {
      EverythingGiven(w, p, file, members, steps);
    }
  }

  /** What members have when nothing is granted they have through the one property that is found. */
  lemma NothingGiven(w: World, p: Premise, file: string, members: seq<Member>, steps: seq<Step>)
    requires p.AllSeen? && MembersMeet(members, false, p) && StepsMeet(steps, p)
    requires steps != [] && steps[0].Key? && MembersHave(w, Nothing, file, members, steps)
    ensures var found := FindMember(members, steps[0].name);
      found.Some? && (|steps| == 1 || (found.value.type_.Some? && HadAnyway(w, file, found.value.type_.value, steps[1..])))
  {
    var n: nat :| MembersWithin(w, Nothing, file, members, steps, n);
    var m :| m in members && MemberWithin(w, Nothing, file, m, steps, n);
    OnlyFound(members, p, steps[0].name, m);
    assert |steps| > 1 ==> n > 0 && m.type_.Some? && HasWithin(w, Nothing, file, m.type_.value, steps[1..], n - 1);
  }

  lemma EverythingGiven(w: World, p: Premise, file: string, members: seq<Member>, steps: seq<Step>)
    requires p.AllSeen? && MembersMeet(members, false, p) && StepsMeet(steps, p) && steps != [] && steps[0].Key?
    requires var found := FindMember(members, steps[0].name);
      found.Some? && (|steps| == 1 || found.value.type_.None? || HadAtBest(w, file, found.value.type_.value, steps[1..]))
    ensures MembersHave(Loosened(w), Everything, file, LooseMembers(members), steps)
  {
    var found := FindMember(members, steps[0].name).value;
    assert steps[0] in steps && Legible(found);
    LooseInMembers(members, found);
    MemberGiven(Loosened(w), file, LooseMembers(members), steps, LooseMember(found));
  }

  lemma LooseInMembers(members: seq<Member>, m: Member)
    requires m in members
    ensures LooseMember(m) in LooseMembers(members)
  {
    var i :| 0 <= i < |members| && members[i] == m;
    assert LooseMembers(members)[i] == LooseMember(m);
  }

  /** A property of the name gives the path when its type does, or when it has none. */
  lemma MemberGiven(w: World, file: string, members: seq<Member>, steps: seq<Step>, m: Member)
    requires steps != [] && steps[0].Key? && m in members && m.Property? && Declares(m, steps[0].name)
    requires |steps| == 1 || m.type_.None? || Has(w, Everything, file, m.type_.value, steps[1..])
    ensures MembersHave(w, Everything, file, members, steps)
  {
    if |steps| > 1 && m.type_.None? {
      assert MemberWithin(w, Everything, file, m, steps, 0);
      assert MembersWithin(w, Everything, file, members, steps, 0);
    } else {
      FoundHas(w, Everything, file, members, steps, m);
    }
  }

  // ----- declarations

  ghost predicate DeclAnyway(w: World, id: string, steps: seq<Step>)
    requires id in w.decls
  {
    DeclHas(w, Nothing, id, steps)
  }

  ghost predicate DeclAtBest(w: World, id: string, steps: seq<Step>)
    requires id in w.decls
  {
    DeclHas(Loosened(w), Everything, id, steps)
  }

  lemma {:induction false} DeclExact(w: World, ids: set<string>, p: Premise, id: string, steps: seq<Step>, seen: Seen, fuel: nat)
    requires p.AllSeen? && Meets(w, ids, p) && id in ids && StepsMeet(steps, p)
    requires LookupDecl(w, id, steps, seen, fuel).Done? && Fresh(SurveyDecl(w, id, steps, fuel).entries, seen)
    ensures Exact(LookupDecl(w, id, steps, seen, fuel), SurveyDecl(w, id, steps, fuel), seen,
                  DeclAnyway(w, id, steps), DeclAtBest(w, id, steps))
    decreases fuel, 0
  {
    EmptyReadOff(seen);
    assert DeclMeets(w, ids, id, p);
    if steps == [] {
      assert DeclWithin(Loosened(w), Everything, id, steps, 0);
    } else if w.decls[id].decl.Enum? {
      assert DeclWithin(Loosened(w), Everything, id, steps, 1);
    } else {
      var key := (id, |steps|);
      if w.decls[id].decl.Alias? {
        AliasExact(w, ids, p, id, steps, seen, fuel);
      } else if steps[0].Element? {
        assert Met([key]) == {key} && [key][0] in Met([key]);
        assert DeclWithin(Loosened(w), Everything, id, steps, 1);
      } else if FindMember(w.decls[id].decl.members, steps[0].name).Some? {
        FoundExact(w, ids, p, id, steps, seen, fuel);
      } else {
        HeritageExact(w, ids, p, id, steps, seen, fuel);
      }
    }
  }

  lemma KeyFirst(key: Entry, entries: seq<Entry>, seen: Seen)
    requires Fresh([key] + entries, seen)
    ensures key !in seen && Fresh(entries, seen + {key}) && (seen + {key}) + Met(entries) == seen + Met([key] + entries)
  {
    FreshThen([key], entries, seen);
    assert Met([key]) == {key} && [key][0] in Met([key]);
  }

  lemma {:induction false} AliasExact(w: World, ids: set<string>, p: Premise, id: string, steps: seq<Step>, seen: Seen, fuel: nat)
    requires p.AllSeen? && Meets(w, ids, p) && id in ids && StepsMeet(steps, p) && steps != [] && fuel > 0
    requires w.decls[id].decl.Alias? && DeclMeets(w, ids, id, p)
    requires LookupDecl(w, id, steps, seen, fuel).Done? && Fresh(SurveyDecl(w, id, steps, fuel).entries, seen)
    ensures Exact(LookupDecl(w, id, steps, seen, fuel), SurveyDecl(w, id, steps, fuel), seen,
                  DeclAnyway(w, id, steps), DeclAtBest(w, id, steps))
    decreases fuel - 1, 4
  {
    var file, t, key := w.decls[id].file, w.decls[id].decl.type_, (id, |steps|);
    KeyFirst(key, SurveyType(w, file, t, steps, fuel - 1).entries, seen);
    TypeExact(w, ids, p, file, t, steps, seen + {key}, fuel - 1);
    AliasHas(w, Nothing, id, steps);
    AliasHas(Loosened(w), Everything, id, steps);
  }

  lemma {:induction false} FoundExact(w: World, ids: set<string>, p: Premise, id: string, steps: seq<Step>, seen: Seen, fuel: nat)
    requires p.AllSeen? && Meets(w, ids, p) && id in ids && StepsMeet(steps, p) && steps != [] && steps[0].Key? && fuel > 0
    requires w.decls[id].decl.Interface? && DeclMeets(w, ids, id, p) && FindMember(w.decls[id].decl.members, steps[0].name).Some?
    requires LookupDecl(w, id, steps, seen, fuel).Done? && Fresh(SurveyDecl(w, id, steps, fuel).entries, seen)
    ensures Exact(LookupDecl(w, id, steps, seen, fuel), SurveyDecl(w, id, steps, fuel), seen,
                  DeclAnyway(w, id, steps), DeclAtBest(w, id, steps))
    decreases fuel - 1, 4
  {
    var file, members, key := w.decls[id].file, w.decls[id].decl.members, (id, |steps|);
    KeyFirst(key, SurveyMember(w, file, FindMember(members, steps[0].name), steps, fuel - 1).entries, seen);
    MembersExact(w, ids, p, file, members, steps, seen + {key}, fuel - 1);
    FoundDecides(w, p, id, steps);
  }

  lemma {:induction false} HeritageExact(w: World, ids: set<string>, p: Premise, id: string, steps: seq<Step>, seen: Seen, fuel: nat)
    requires p.AllSeen? && Meets(w, ids, p) && id in ids && StepsMeet(steps, p) && steps != [] && steps[0].Key? && fuel > 0
    requires w.decls[id].decl.Interface? && DeclMeets(w, ids, id, p) && FindMember(w.decls[id].decl.members, steps[0].name).None?
    requires LookupDecl(w, id, steps, seen, fuel).Done? && Fresh(SurveyDecl(w, id, steps, fuel).entries, seen)
    ensures Exact(LookupDecl(w, id, steps, seen, fuel), SurveyDecl(w, id, steps, fuel), seen,
                  DeclAnyway(w, id, steps), DeclAtBest(w, id, steps))
    decreases fuel - 1, 4 + |w.decls[id].decl.bases|
  {
    var file, bases, key := w.decls[id].file, w.decls[id].decl.bases, (id, |steps|);
    KeyFirst(key, SurveyBases(w, file, bases, steps, fuel - 1).entries, seen);
    BasesExact(w, ids, p, file, bases, steps, seen + {key}, fuel - 1);
    BasesDecide(w, p, id, steps, LookupBases(w, file, bases, steps, seen + {key}, fuel - 1).verdicts);
  }

  /** With a member of the name the members decide. */
  lemma FoundDecides(w: World, p: Premise, id: string, steps: seq<Step>)
    requires id in w.decls && w.decls[id].decl.Interface? && steps != [] && steps[0].Key? && p.AllSeen? && StepsMeet(steps, p)
    requires MembersMeet(w.decls[id].decl.members, false, p) && FindMember(w.decls[id].decl.members, steps[0].name).Some?
    ensures var file, members := w.decls[id].file, w.decls[id].decl.members;
      && (DeclAnyway(w, id, steps) ==> MembersHave(w, Nothing, file, members, steps))
      && (MembersHave(Loosened(w), Everything, file, LooseMembers(members), steps) ==> DeclAtBest(w, id, steps))
  {
    assert steps[0] in steps;
    InterfaceHas(w, Nothing, id, steps);
    InterfaceHas(Loosened(w), Everything, id, steps);
    FoundDeclares(w.decls[id].decl.members, p, steps[0]);
  }

  lemma FoundDeclares(members: seq<Member>, p: Premise, step: Step)
    requires p.AllSeen? && MembersMeet(members, false, p) && step.Key? && step.name in p.keys
    requires FindMember(members, step.name).Some?
    ensures exists m :: m in members && Declares(m, step.name)
  {
    assert Legible(FindMember(members, step.name).value);
  }

  ghost predicate BaseAnyway(w: World, file: string, base: Base, steps: seq<Step>) {
    BaseHas(w, Nothing, file, base, steps)
  }

  ghost predicate BaseAtBest(w: World, file: string, base: Base, steps: seq<Step>) {
    BaseHas(Loosened(w), Everything, file, base, steps)
  }

  /** Without a member of the name the bases decide. */
  lemma BasesDecide(w: World, p: Premise, id: string, steps: seq<Step>, verdicts: seq<Verdict>)
    requires id in w.decls && w.decls[id].decl.Interface? && steps != [] && steps[0].Key? && p.AllSeen? && StepsMeet(steps, p)
    requires MembersMeet(w.decls[id].decl.members, false, p) && FindMember(w.decls[id].decl.members, steps[0].name).None?
    requires |verdicts| == |w.decls[id].decl.bases|
    requires forall i :: 0 <= i < |verdicts| ==>
      Between(BaseAnyway(w, w.decls[id].file, w.decls[id].decl.bases[i], steps),
              BaseAtBest(w, w.decls[id].file, w.decls[id].decl.bases[i], steps), verdicts[i])
    ensures Between(DeclAnyway(w, id, steps), DeclAtBest(w, id, steps), Combine(verdicts))
  {
    var file, members, bases := w.decls[id].file, w.decls[id].decl.members, w.decls[id].decl.bases;
    InterfaceHas(w, Nothing, id, steps);
    InterfaceHas(Loosened(w), Everything, id, steps);
    if MembersHave(w, Nothing, file, members, steps) {
      NothingGiven(w, p, file, members, steps);
    }
    if DeclAnyway(w, id, steps) {
      var b :| b in bases && BaseHas(w, Nothing, file, b, steps);
      var i :| 0 <= i < |bases| && bases[i] == b;
      assert BaseAnyway(w, file, bases[i], steps) && verdicts[i] in verdicts;
    }
    if Combine(verdicts) != Missing {
      CombineMissing(verdicts);
      var i :| 0 <= i < |verdicts| && verdicts[i] != Missing;
      assert BaseAtBest(w, file, bases[i], steps) && bases[i] in bases;
      NoneDeclares(members, p, steps[0].name);
    }
  }

  lemma NoneDeclares(members: seq<Member>, p: Premise, key: string)
    requires p.AllSeen? && MembersMeet(members, false, p) && key in p.keys && FindMember(members, key).None?
    ensures forall m :: m in LooseMembers(members) ==> !Declares(m, key)
  {
    forall m | m in LooseMembers(members)
      ensures !Declares(m, key)
    {
      var i :| 0 <= i < |members| && LooseMembers(members)[i] == m;
      if Declares(members[i], key) {
        OnlyFound(members, p, key, members[i]);
      }
    }
  }

  lemma {:induction false} BasesExact(w: World, ids: set<string>, p: Premise, file: string, bases: seq<Base>, steps: seq<Step>, seen: Seen, fuel: nat)
    requires p.AllSeen? && Meets(w, ids, p) && StepsMeet(steps, p)
    requires forall b :: b in bases && b.Named? && w.Resolve(file, b.name).Some? ==> w.Resolve(file, b.name).value in ids
    requires LookupBases(w, file, bases, steps, seen, fuel).AllDone? && Fresh(SurveyBases(w, file, bases, steps, fuel).entries, seen)
    ensures var all := LookupBases(w, file, bases, steps, seen, fuel);
      && all.seen == seen + Met(SurveyBases(w, file, bases, steps, fuel).entries) && |all.verdicts| == |bases|
      && forall i :: 0 <= i < |bases| ==>
           Between(BaseAnyway(w, file, bases[i], steps), BaseAtBest(w, file, bases[i], steps), all.verdicts[i])
    decreases fuel, 2 + |bases|
  {
    EmptyReadOff(seen);
    if bases != [] {
      var a, b := SurveyBase(w, file, bases[0], steps, fuel).entries, SurveyBases(w, file, bases[1..], steps, fuel).entries;
      FreshThen(a, b, seen);
      BaseExact(w, ids, p, file, bases[0], steps, seen, fuel);
      BasesExact(w, ids, p, file, bases[1..], steps, LookupBase(w, file, bases[0], steps, seen, fuel).seen, fuel);
      assert (seen + Met(a)) + Met(b) == seen + (Met(a) + Met(b));
    }
  }

  lemma {:induction false} BaseExact(w: World, ids: set<string>, p: Premise, file: string, base: Base, steps: seq<Step>, seen: Seen, fuel: nat)
    requires p.AllSeen? && Meets(w, ids, p) && StepsMeet(steps, p)
    requires base.Named? && w.Resolve(file, base.name).Some? ==> w.Resolve(file, base.name).value in ids
    requires LookupBase(w, file, base, steps, seen, fuel).Done? && Fresh(SurveyBase(w, file, base, steps, fuel).entries, seen)
    ensures Exact(LookupBase(w, file, base, steps, seen, fuel), SurveyBase(w, file, base, steps, fuel), seen,
                  BaseAnyway(w, file, base, steps), BaseAtBest(w, file, base, steps))
    decreases fuel, 1
  {
    EmptyReadOff(seen);
    if base.Named? && w.Resolve(file, base.name).Some? {
      DeclExact(w, ids, p, w.Resolve(file, base.name).value, steps, seen, fuel);
      BaseHasDecl(w, Nothing, file, base, steps);
      BaseHasDecl(Loosened(w), Everything, file, base, steps);
    } else {
      assert BaseWithin(Loosened(w), Everything, file, base, steps, 0);
    }
  }

  // ----- the three verdicts

  /** `found` exactly when every choice of unseen contents gives the path; `missing` exactly when none does, even in the
      loose reading; and so `unknown` exactly when some choice gives it, in the loose reading, and some denies it. */
  ghost predicate SaysWhatIsKnown(w: World, id: string, steps: seq<Step>, verdict: Verdict)
    requires id in w.decls
  {
    && (verdict == Found <==> forall c: Contents :: DeclHas(w, c, id, steps))
    && (verdict == Missing <==> forall c: Contents :: !DeclHas(Loosened(w), c, id, steps))
    && (verdict == Unknown <==>
          (exists c: Contents :: DeclHas(Loosened(w), c, id, steps)) && (exists c: Contents :: !DeclHas(w, c, id, steps)))
  }

  /** The verdict says all that is known where whatever may declare a key asked for is a plainly named property, and no
      declaration comes up twice with as many steps left. */
  lemma VerdictExact(w: World, ids: set<string>, keys: set<string>, id: string, steps: seq<Step>, fuel: nat)
    requires Meets(w, ids, AllSeen(keys)) && id in ids && StepsMeet(steps, AllSeen(keys))
    requires LookupDecl(w, id, steps, {}, fuel).Done? && NoRepeat(SurveyDecl(w, id, steps, fuel).entries)
    ensures SaysWhatIsKnown(w, id, steps, LookupDecl(w, id, steps, {}, fuel).verdict)
  {
    var p, fair := AllSeen(keys), FairTo(keys);
    var verdict := LookupDecl(w, id, steps, {}, fuel).verdict;
    DeclExact(w, ids, p, id, steps, {}, fuel);
    DeclLoose(w, id, steps, {}, fuel);
    AllSeenIsFair(w, ids, keys);
    LooseMeets(w, ids, p);
    forall c: Contents
      ensures verdict == Found ==> DeclHas(w, c, id, steps)
      ensures verdict == Missing ==> !DeclHas(Loosened(w), c, id, steps)
    {
      DeclSound(w, c, ids, fair, id, steps, {}, fuel);
      DeclSound(Loosened(w), c, ids, p, id, steps, {}, fuel);
    }
    if forall c: Contents :: DeclHas(w, c, id, steps) {
      assert DeclAnyway(w, id, steps);
    }
    if forall c: Contents :: !DeclHas(Loosened(w), c, id, steps) {
      assert !DeclAtBest(w, id, steps);
    }
  }

  /** No declaration comes up twice with as many steps left, however deep the path is followed. */
  ghost predicate NeverTwice(w: World, id: string, steps: seq<Step>)
    requires id in w.decls
  {
    forall n: nat :: NoRepeat(SurveyDecl(w, id, steps, n).entries)
  }

  /** The verdict says all that is known, on any premise of that kind that the declarations meet. */
  ghost predicate Precise(w: World, id: string, steps: seq<Step>, verdict: Verdict)
    requires id in w.decls
  {
    forall ids, keys :: Meets(w, ids, AllSeen(keys)) && id in ids && StepsMeet(steps, AllSeen(keys)) && NeverTwice(w, id, steps) ==>
      SaysWhatIsKnown(w, id, steps, verdict)
  }

  lemma ReturnedIsPrecise(w: World, id: string, steps: seq<Step>, fuel: nat)
    requires id in w.decls && LookupDecl(w, id, steps, {}, fuel).Done?
    ensures Precise(w, id, steps, LookupDecl(w, id, steps, {}, fuel).verdict)
  {
    forall ids, keys | Meets(w, ids, AllSeen(keys)) && id in ids && StepsMeet(steps, AllSeen(keys)) && NeverTwice(w, id, steps)
      ensures SaysWhatIsKnown(w, id, steps, LookupDecl(w, id, steps, {}, fuel).verdict)
    {
      VerdictExact(w, ids, keys, id, steps, fuel);
    }
  }

  // ----- members of the elements of an array

  const ID := Property("id", Some("id"), Some(Opaque(0)))
  const AGENT_LIST := ArrayOf(Literal([ID]))

  /** `interface C { agents: { id: string }[] }`. */
  const AGENTS: World := World(map["C" := Declared("c.ts", Interface([Property("agents", Some("agents"), Some(AGENT_LIST))], []))], map[])

  lemma AgentSeen(name: string, steps: seq<Step>, seen: Seen, fuel: nat)
    requires fuel >= 2 && steps == [Element, Key(name)]
    ensures LookupType(AGENTS, "c.ts", AGENT_LIST, steps, seen, fuel) == Done(if name == "id" then Found else Missing, seen)
  {
    assert steps[1..] == [Key(name)];
    assert [ID][1..] == [] && FindMember([ID], name) == if name == "id" then Some(ID) else None;
    TypeGoesOn(AGENTS, "c.ts", AGENT_LIST, steps, seen, fuel);
    TypeGoesOn(AGENTS, "c.ts", Literal([ID]), [Key(name)], seen, fuel - 1);
    assert MoveOf(AGENTS, "c.ts", AGENT_LIST, steps) == Into(Literal([ID]), [Key(name)]);
    assert MoveOf(AGENTS, "c.ts", Literal([ID]), [Key(name)]) == IntoMembers([ID]);
  }

  /** `agents[].id` is found, and `agents[]` with any other name behind it is missing. */
  lemma AgentsSeen(name: string, fuel: nat)
    requires fuel >= 3
    ensures LookupDecl(AGENTS, "C", [Key("agents"), Element, Key(name)], {}, fuel)
         == Done(if name == "id" then Found else Missing, {("C", 3)})
  {
    var steps := [Key("agents"), Element, Key(name)];
    var members := AGENTS.decls["C"].decl.members;
    assert steps[1..] == [Element, Key(name)] && {} + {("C", |steps|)} == {("C", 3)};
    assert FindMember(members, "agents") == Some(members[0]);
    AgentSeen(name, steps[1..], {("C", 3)}, fuel - 1);
  }
}
