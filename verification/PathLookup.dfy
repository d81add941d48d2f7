/** `lookupPath` as a function that threads the shared `seen` set, and its
    soundness against what declared types have. `fuel` bounds the depth of calls;
    running out of it stands for a walk that has not returned. */
module PathLookup {
  import opened Basics
  import opened TypeSyntax

  datatype Verdict = Found | Missing | Unknown

  type Seen = set<(string, nat)>

  datatype Outcome = Done(verdict: Verdict, seen: Seen) | Exhausted

  datatype Outcomes = AllDone(verdicts: seq<Verdict>, seen: Seen) | SomeExhausted

  /** For parts of which one suffices: an unknown part keeps the answer open only while none is found. */
  function Combine(results: seq<Verdict>): Verdict {
    if Found in results then Found else if Unknown in results then Unknown else Missing
  }

  /** A union is definite only when every branch agrees. */
  function Agree(results: seq<Verdict>): Verdict {
    if forall r :: r in results ==> r == Found then Found
    else if forall r :: r in results ==> r == Missing then Missing
    else Unknown
  }

  /** What a walk of a type does next while steps are left. */
  datatype Move =
    | Halt  // out of reach
    | IntoMembers(members: seq<Member>)
    | IntoParts(parts: seq<Type>, union: bool)
    | Into(inner: Type, next: seq<Step>)
    | Enter(id: string)

  function MoveOf(w: World, file: string, t: Type, steps: seq<Step>): (move: Move)
    requires steps != []
    ensures move.IntoMembers? ==> t == Literal(move.members) && steps[0].Key?
    ensures move.Into? ==> move.inner < t
    ensures move.Enter? ==> move.id in w.decls
  {
    match t
    case Literal(members) => if steps[0].Element? then Halt else IntoMembers(members)
    case Parenthesized(inner) => Into(inner, steps)
    case Intersection(parts) => IntoParts(parts, false)
    case Union(parts) => IntoParts(parts, true)
    case ArrayOf(element) => if steps[0].Element? then Into(element, steps[1..]) else Halt
    case Operator(_, inner) => Into(inner, steps)
    case Indexed(object_, key) => if key.Some? then Into(object_, [Key(key.value)] + steps) else Halt
    case Reference(head, qualified, args) =>
      if head in PASSTHROUGH_WRAPPERS && args != [] then Into(args[0], steps)
      else if head in ARRAY_WRAPPERS && args != [] then if steps[0].Element? then Into(args[0], steps[1..]) else Halt
      else if qualified || w.Resolve(file, head).None? then Halt
      else Enter(w.Resolve(file, head).value)
    case Opaque(_) => Halt
  }

  /** How the verdicts on the parts make that on the whole. */
  function Judge(verdicts: seq<Verdict>, union: bool): Verdict {
    if union then Agree(verdicts) else Combine(verdicts)
  }

  function LookupType(w: World, file: string, t: Type, steps: seq<Step>, seen: Seen, fuel: nat): Outcome
    decreases fuel, 0
  {
    if steps == [] then Done(Found, seen)
    else if fuel == 0 then Exhausted
    else match MoveOf(w, file, t, steps)
      case Halt => Done(Unknown, seen)
      case IntoMembers(members) => LookupMember(w, file, FindMember(members, steps[0].name), steps, seen, fuel - 1)
      case IntoParts(parts, union) =>
        var all := LookupParts(w, file, parts, steps, seen, fuel - 1);
        if all.SomeExhausted? then Exhausted else Done(Judge(all.verdicts, union), all.seen)
      case Into(inner, next) => LookupType(w, file, inner, next, seen, fuel - 1)
      case Enter(id) => LookupDecl(w, id, steps, seen, fuel - 1)
  }

  /** `intoMembers`, where no member of the name counts as missing. */
  function LookupMember(w: World, file: string, found: Option<Member>, steps: seq<Step>, seen: Seen, fuel: nat): Outcome
    requires steps != [] && (found.Some? ==> found.value.Property?)
    decreases fuel, 1
  {
    if found.None? then Done(Missing, seen)
    else if |steps| == 1 then Done(Found, seen)
    else if found.value.type_.None? then Done(Unknown, seen)
    else LookupType(w, file, found.value.type_.value, steps[1..], seen, fuel)
  }

  /** The walk of every part, left to right over one `seen` set. */
  function LookupParts(w: World, file: string, parts: seq<Type>, steps: seq<Step>, seen: Seen, fuel: nat): Outcomes
    decreases fuel, 1 + |parts|
  {
    if parts == [] then AllDone([], seen)
    else
      var first := LookupType(w, file, parts[0], steps, seen, fuel);
      if first.Exhausted? then SomeExhausted
      else
        var rest := LookupParts(w, file, parts[1..], steps, first.seen, fuel);
        if rest.SomeExhausted? then SomeExhausted else AllDone([first.verdict] + rest.verdicts, rest.seen)
  }

  /** A declaration is entered once per remaining length; again means a recursive type. */
  function LookupDecl(w: World, id: string, steps: seq<Step>, seen: Seen, fuel: nat): Outcome
    requires id in w.decls
    decreases fuel, 0
  {
    var file := w.decls[id].file;
    if steps == [] then Done(Found, seen)
    else if fuel == 0 then Exhausted
    else if w.decls[id].decl.Enum? then Done(Unknown, seen)
    else if (id, |steps|) in seen then Done(Unknown, seen)
    else
      var seen' := seen + {(id, |steps|)};
      match w.decls[id].decl
      case Interface(members, bases) =>
        if steps[0].Element? then Done(Unknown, seen')
        else if FindMember(members, steps[0].name).Some? then
          LookupMember(w, file, FindMember(members, steps[0].name), steps, seen', fuel - 1)
        else
          var all := LookupBases(w, file, bases, steps, seen', fuel - 1);
          if all.SomeExhausted? then Exhausted
          else Done(if bases != [] then Combine(all.verdicts) else Missing, all.seen)
      case Alias(t) => LookupType(w, file, t, steps, seen', fuel - 1)
      case Enum => Done(Unknown, seen')
  }

  function LookupBase(w: World, file: string, base: Base, steps: seq<Step>, seen: Seen, fuel: nat): Outcome
    decreases fuel, 1
  {
    if base.Computed? || w.Resolve(file, base.name).None? then Done(Unknown, seen)
    else LookupDecl(w, w.Resolve(file, base.name).value, steps, seen, fuel)
  }

  function LookupBases(w: World, file: string, bases: seq<Base>, steps: seq<Step>, seen: Seen, fuel: nat): Outcomes
    decreases fuel, 2 + |bases|
  {
    if bases == [] then AllDone([], seen)
    else
      var first := LookupBase(w, file, bases[0], steps, seen, fuel);
      if first.Exhausted? then SomeExhausted
      else
        var rest := LookupBases(w, file, bases[1..], steps, first.seen, fuel);
        if rest.SomeExhausted? then SomeExhausted else AllDone([first.verdict] + rest.verdicts, rest.seen)
  }

  // ----- what decides at once

  /** A part of an intersection that is found settles it, whatever the other parts say. */
  lemma FoundPartWins(w: World, file: string, parts: seq<Type>, steps: seq<Step>, seen: Seen, fuel: nat, i: nat)
    requires steps != [] && LookupParts(w, file, parts, steps, seen, fuel).AllDone?
    requires var verdicts := LookupParts(w, file, parts, steps, seen, fuel).verdicts; i < |verdicts| && verdicts[i] == Found
    ensures LookupType(w, file, Intersection(parts), steps, seen, fuel + 1).Done?
    ensures LookupType(w, file, Intersection(parts), steps, seen, fuel + 1).verdict == Found
  {
    assert LookupParts(w, file, parts, steps, seen, fuel).verdicts[i] in LookupParts(w, file, parts, steps, seen, fuel).verdicts;
  }

  /** And so does a base that is found, for an interface without a member of the name. */
  lemma FoundBaseWins(w: World, id: string, steps: seq<Step>, seen: Seen, fuel: nat, i: nat)
    requires id in w.decls && w.decls[id].decl.Interface? && steps != [] && steps[0].Key? && (id, |steps|) !in seen
    requires FindMember(w.decls[id].decl.members, steps[0].name).None?
    requires LookupBases(w, w.decls[id].file, w.decls[id].decl.bases, steps, seen + {(id, |steps|)}, fuel).AllDone?
    requires var verdicts := LookupBases(w, w.decls[id].file, w.decls[id].decl.bases, steps, seen + {(id, |steps|)}, fuel).verdicts;
      i < |verdicts| && verdicts[i] == Found
    ensures LookupDecl(w, id, steps, seen, fuel + 1).Done? && LookupDecl(w, id, steps, seen, fuel + 1).verdict == Found
  {
    var verdicts := LookupBases(w, w.decls[id].file, w.decls[id].decl.bases, steps, seen + {(id, |steps|)}, fuel).verdicts;
    assert verdicts[i] in verdicts;
  }

  /** The wrappers by name: four that pass a path through, two that take an element off it. */
  lemma WrappersByName(w: World, file: string, qualified: bool, t: Type, more: seq<Type>, steps: seq<Step>, seen: Seen, fuel: nat)
    requires steps != []
    ensures forall name :: name == "Partial" || name == "Required" || name == "Readonly" || name == "NonNullable" ==>
      LookupType(w, file, Reference(name, qualified, [t] + more), steps, seen, fuel + 1) == LookupType(w, file, t, steps, seen, fuel)
    ensures forall name :: name == "Array" || name == "ReadonlyArray" ==>
      LookupType(w, file, Reference(name, qualified, [t] + more), [Element] + steps, seen, fuel + 1)
        == LookupType(w, file, t, steps, seen, fuel)
  {
    assert ([Element] + steps)[1..] == steps;
    assert forall name :: Reference(name, qualified, [t] + more).args[0] == t;
  }

  // ----- derivations only grow with their bound

  lemma {:induction false} TypeMonotone(w: World, c: Contents, file: string, t: Type, steps: seq<Step>, n: nat)
    requires HasWithin(w, c, file, t, steps, n)
    ensures HasWithin(w, c, file, t, steps, n + 1)
    decreases n
  {
    if steps != [] {
      match t
      case Literal(members) =>
        if steps[0].Key? {
          MembersMonotone(w, c, file, members, steps, n - 1);
        }
      case Parenthesized(inner) => TypeMonotone(w, c, file, inner, steps, n - 1);
      case Intersection(parts) =>
        var p :| p in parts && HasWithin(w, c, file, p, steps, n - 1);
        TypeMonotone(w, c, file, p, steps, n - 1);
      case Union(parts) =>
        forall p | p in parts
          ensures HasWithin(w, c, file, p, steps, n)
        {
          TypeMonotone(w, c, file, p, steps, n - 1);
        }
      case ArrayOf(element) =>
        if steps[0].Element? {
          TypeMonotone(w, c, file, element, steps[1..], n - 1);
        }
      case Operator(readonly, inner) =>
        if readonly {
          TypeMonotone(w, c, file, inner, steps, n - 1);
        }
      case Indexed(object_, key) =>
        if key.Some? {
          TypeMonotone(w, c, file, object_, [Key(key.value)] + steps, n - 1);
        }
      case Reference(head, qualified, args) =>
        if head in PASSTHROUGH_WRAPPERS && args != [] {
          TypeMonotone(w, c, file, args[0], steps, n - 1);
        } else if head in ARRAY_WRAPPERS && args != [] {
          if steps[0].Element? {
            TypeMonotone(w, c, file, args[0], steps[1..], n - 1);
          }
        } else if !qualified && w.Resolve(file, head).Some? {
          DeclMonotone(w, c, w.Resolve(file, head).value, steps, n - 1);
        }
      case Opaque(_) =>
    }
  }

  lemma {:induction false} MembersMonotone(w: World, c: Contents, file: string, members: seq<Member>,
                                           steps: seq<Step>, n: nat)
    requires steps != [] && steps[0].Key? && MembersWithin(w, c, file, members, steps, n)
    ensures MembersWithin(w, c, file, members, steps, n + 1)
    decreases n
  {
    var m :| m in members && MemberWithin(w, c, file, m, steps, n);
    if !Hidden(m) && |steps| > 1 && m.Property? && m.type_.Some? {
      TypeMonotone(w, c, file, m.type_.value, steps[1..], n - 1);
    }
    assert MemberWithin(w, c, file, m, steps, n + 1);
  }

  lemma {:induction false} DeclMonotone(w: World, c: Contents, id: string, steps: seq<Step>, n: nat)
    requires id in w.decls && DeclWithin(w, c, id, steps, n)
    ensures DeclWithin(w, c, id, steps, n + 1)
    decreases n
  {
    var file := w.decls[id].file;
    if steps != [] {
      match w.decls[id].decl
      case Interface(members, bases) =>
        if steps[0].Key? {
          if MembersWithin(w, c, file, members, steps, n - 1) {
            MembersMonotone(w, c, file, members, steps, n - 1);
          } else {
            var b :| b in bases && BaseWithin(w, c, file, b, steps, n - 1);
            if b.Named? && w.Resolve(file, b.name).Some? {
              DeclMonotone(w, c, w.Resolve(file, b.name).value, steps, n - 2);
            }
            assert BaseWithin(w, c, file, b, steps, n);
          }
        }
      case Alias(t) => TypeMonotone(w, c, file, t, steps, n - 1);
      case Enum =>
    }
  }

  lemma {:induction false} TypeMonotoneTo(w: World, c: Contents, file: string, t: Type, steps: seq<Step>, n: nat, m: nat)
    requires HasWithin(w, c, file, t, steps, n) && n <= m
    ensures HasWithin(w, c, file, t, steps, m)
    decreases m - n
  {
    if n < m {
      TypeMonotone(w, c, file, t, steps, n);
      TypeMonotoneTo(w, c, file, t, steps, n + 1, m);
    }
  }

  // ----- soundness

  /** What a verdict claims about a type, for one choice `c` of unseen contents. */
  ghost predicate TypeTold(w: World, c: Contents, p: Premise, file: string, t: Type, steps: seq<Step>, verdict: Verdict) {
    && (p.FairTo? && verdict == Found ==> Has(w, c, file, t, steps))
    && (p.AllSeen? && verdict == Missing ==> !Has(w, c, file, t, steps))
  }

  ghost predicate DeclTold(w: World, c: Contents, p: Premise, id: string, steps: seq<Step>, verdict: Verdict)
    requires id in w.decls
  {
    && (p.FairTo? && verdict == Found ==> DeclHas(w, c, id, steps))
    && (p.AllSeen? && verdict == Missing ==> !DeclHas(w, c, id, steps))
  }

  ghost predicate BaseHas(w: World, c: Contents, file: string, base: Base, steps: seq<Step>) {
    exists n: nat :: BaseWithin(w, c, file, base, steps, n)
  }

  ghost predicate BaseTold(w: World, c: Contents, p: Premise, file: string, base: Base, steps: seq<Step>, verdict: Verdict) {
    && (p.FairTo? && verdict == Found ==> BaseHas(w, c, file, base, steps))
    && (p.AllSeen? && verdict == Missing ==> !BaseHas(w, c, file, base, steps))
  }

  ghost predicate MembersHave(w: World, c: Contents, file: string, members: seq<Member>, steps: seq<Step>)
    requires steps != [] && steps[0].Key?
  {
    exists n: nat :: MembersWithin(w, c, file, members, steps, n)
  }

  /** `t` has the path exactly when `inner` has `rest`, because each derivation of one is a step of the other. */
  lemma Through(w: World, c: Contents, file: string, t: Type, steps: seq<Step>, inner: Type, rest: seq<Step>)
    requires steps != []
    requires forall n: nat {:trigger HasWithin(w, c, file, inner, rest, n)} ::
               HasWithin(w, c, file, t, steps, n + 1) == HasWithin(w, c, file, inner, rest, n)
    ensures Has(w, c, file, t, steps) <==> Has(w, c, file, inner, rest)
  {
    if Has(w, c, file, t, steps) {
      var n: nat :| HasWithin(w, c, file, t, steps, n);
      assert HasWithin(w, c, file, inner, rest, n - 1);
    }
    if Has(w, c, file, inner, rest) {
      var n: nat :| HasWithin(w, c, file, inner, rest, n);
      assert HasWithin(w, c, file, t, steps, n + 1);
    }
  }

  lemma {:induction false} CommonBound(w: World, c: Contents, file: string, parts: seq<Type>,
                                       steps: seq<Step>) returns (n: nat)
    requires forall p :: p in parts ==> Has(w, c, file, p, steps)
    ensures forall p :: p in parts ==> HasWithin(w, c, file, p, steps, n)
  {
    n := 0;
    if parts != [] {
      var m := CommonBound(w, c, file, parts[1..], steps);
      assert parts[0] in parts;
      var k: nat :| HasWithin(w, c, file, parts[0], steps, k);
      n := if m < k then k else m;
      forall p | p in parts
        ensures HasWithin(w, c, file, p, steps, n)
      {
        if p == parts[0] {
          TypeMonotoneTo(w, c, file, p, steps, k, n);
        } else {
          assert p in parts[1..];
          TypeMonotoneTo(w, c, file, p, steps, m, n);
        }
      }
    }
  }

  lemma UnionHas(w: World, c: Contents, file: string, parts: seq<Type>, steps: seq<Step>)
    requires steps != []
    ensures Has(w, c, file, Union(parts), steps) <==> forall p :: p in parts ==> Has(w, c, file, p, steps)
  {
    if Has(w, c, file, Union(parts), steps) {
      var n: nat :| HasWithin(w, c, file, Union(parts), steps, n);
      assert forall p :: p in parts ==> HasWithin(w, c, file, p, steps, n - 1);
    }
    if forall p :: p in parts ==> Has(w, c, file, p, steps) {
      var n := CommonBound(w, c, file, parts, steps);
      assert HasWithin(w, c, file, Union(parts), steps, n + 1);
    }
  }

  lemma IntersectionHas(w: World, c: Contents, file: string, parts: seq<Type>, steps: seq<Step>)
    requires steps != []
    ensures Has(w, c, file, Intersection(parts), steps) <==> exists p :: p in parts && Has(w, c, file, p, steps)
  {
    if Has(w, c, file, Intersection(parts), steps) {
      var n: nat :| HasWithin(w, c, file, Intersection(parts), steps, n);
      var p :| p in parts && HasWithin(w, c, file, p, steps, n - 1);
    }
    if p :| p in parts && Has(w, c, file, p, steps) {
      var n: nat :| HasWithin(w, c, file, p, steps, n);
      assert HasWithin(w, c, file, Intersection(parts), steps, n + 1);
    }
  }

  /** The premise for what the walk goes on to. */
  ghost predicate MoveMet(w: World, ids: set<string>, p: Premise, file: string, move: Move) {
    if move.IntoMembers? then
      && MembersMeet(move.members, false, p)
      && forall m :: m in move.members && m.Property? && m.type_.Some? ==> TypeMeets(w, ids, file, m.type_.value, p)
    else if move.IntoParts? then forall i :: 0 <= i < |move.parts| ==> TypeMeets(w, ids, file, move.parts[i], p)
    else if move.Into? then TypeMeets(w, ids, file, move.inner, p) && StepsMeet(move.next, p)
    else move.Enter? ==> move.id in ids
  }

  /** What the walk goes on to has the path, or what is left of it. */
  ghost predicate MoveHas(w: World, c: Contents, file: string, move: Move, steps: seq<Step>)
    requires !move.Halt? && steps != [] && (move.IntoMembers? ==> steps[0].Key?) && (move.Enter? ==> move.id in w.decls)
  {
    if move.IntoMembers? then MembersHave(w, c, file, move.members, steps)
    else if move.IntoParts? then
      if move.union then forall p :: p in move.parts ==> Has(w, c, file, p, steps)
      else exists p :: p in move.parts && Has(w, c, file, p, steps)
    else if move.Into? then Has(w, c, file, move.inner, move.next)
    else DeclHas(w, c, move.id, steps)
  }

  /** A type meets the premise only if what the walk goes on to does. */
  lemma MoveMeets(w: World, ids: set<string>, p: Premise, file: string, t: Type, steps: seq<Step>)
    requires TypeMeets(w, ids, file, t, p) && StepsMeet(steps, p) && steps != []
    ensures MoveMet(w, ids, p, file, MoveOf(w, file, t, steps))
  {
  }

  /** A type has the path exactly when what the walk goes on to has it; `keyof` is the exception. */
  lemma MoveMeans(w: World, c: Contents, file: string, t: Type, steps: seq<Step>)
    requires steps != [] && (t.Operator? ==> t.readonly) && !MoveOf(w, file, t, steps).Halt?
    ensures Has(w, c, file, t, steps) <==> MoveHas(w, c, file, MoveOf(w, file, t, steps), steps)
  {
    match MoveOf(w, file, t, steps)
    case IntoMembers(_) => LiteralHas(w, c, file, t, steps);
    case IntoParts(parts, union) =>
      if union {
        UnionHas(w, c, file, parts, steps);
      } else {
        IntersectionHas(w, c, file, parts, steps);
      }
    case Into(inner, next) => Through(w, c, file, t, steps, inner, next);
    case Enter(_) => NameHas(w, c, file, t, steps);
  }

  /** And it gives up only where nothing but the unseen contents decides. */
  lemma HaltMeans(w: World, c: Contents, file: string, t: Type, steps: seq<Step>)
    requires steps != [] && MoveOf(w, file, t, steps).Halt?
    ensures Has(w, c, file, t, steps) <==> c(AtType(file, t), steps)
  {
    if Has(w, c, file, t, steps) {
      var n: nat :| HasWithin(w, c, file, t, steps, n);
    }
    if c(AtType(file, t), steps) {
      assert HasWithin(w, c, file, t, steps, 1);
    }
  }

  /** The walk is right about every type whose surroundings meet the premise. */
  lemma {:induction false} TypeSound(w: World, c: Contents, ids: set<string>, p: Premise, file: string, t: Type,
                                     steps: seq<Step>, seen: Seen, fuel: nat)
    requires Meets(w, ids, p) && TypeMeets(w, ids, file, t, p) && StepsMeet(steps, p)
    requires LookupType(w, file, t, steps, seen, fuel).Done?
    ensures TypeTold(w, c, p, file, t, steps, LookupType(w, file, t, steps, seen, fuel).verdict)
    decreases fuel, 0
  {
    if steps == [] {
      assert HasWithin(w, c, file, t, steps, 0);
      return;
    }
    if MoveOf(w, file, t, steps).Halt? {
      return;
    }
    MoveMeets(w, ids, p, file, t, steps);
    MoveMeans(w, c, file, t, steps);
    match MoveOf(w, file, t, steps)
    case IntoMembers(members) => MembersSound(w, c, ids, p, file, members, false, steps, seen, fuel - 1);
    case IntoParts(parts, union) =>
      PartsSound(w, c, ids, p, file, parts, steps, seen, fuel - 1);
      PartsTold(w, c, p, file, parts, union, steps, LookupParts(w, file, parts, steps, seen, fuel - 1).verdicts);
    case Into(inner, next) => TypeSound(w, c, ids, p, file, inner, next, seen, fuel - 1);
    case Enter(id) => DeclSound(w, c, ids, p, id, steps, seen, fuel - 1);
  }

  lemma PartsTold(w: World, c: Contents, p: Premise, file: string, parts: seq<Type>, union: bool, steps: seq<Step>,
                  verdicts: seq<Verdict>)
    requires |verdicts| == |parts| && forall i :: 0 <= i < |parts| ==> TypeTold(w, c, p, file, parts[i], steps, verdicts[i])
    ensures var verdict := Judge(verdicts, union);
      if union then
        && (p.FairTo? && verdict == Found ==> forall t :: t in parts ==> Has(w, c, file, t, steps))
        && (p.AllSeen? && verdict == Missing ==> exists t :: t in parts && !Has(w, c, file, t, steps))
      else
        && (p.FairTo? && verdict == Found ==> exists t :: t in parts && Has(w, c, file, t, steps))
        && (p.AllSeen? && verdict == Missing ==> forall t :: t in parts ==> !Has(w, c, file, t, steps))
  {
    forall t | t in parts
      ensures p.FairTo? && union && Agree(verdicts) == Found ==> Has(w, c, file, t, steps)
      ensures p.AllSeen? && !union && Combine(verdicts) == Missing ==> !Has(w, c, file, t, steps)
    {
      var i :| 0 <= i < |parts| && parts[i] == t;
      assert verdicts[i] in verdicts;
    }
    if p.AllSeen? && union && Agree(verdicts) == Missing {
      assert verdicts[0] in verdicts && parts[0] in parts;
    }
    if p.FairTo? && !union && Combine(verdicts) == Found {
      var i :| 0 <= i < |verdicts| && verdicts[i] == Found;
      assert parts[i] in parts;
    }
  }

  lemma LiteralHas(w: World, c: Contents, file: string, t: Type, steps: seq<Step>)
    requires t.Literal? && steps != [] && steps[0].Key?
    ensures Has(w, c, file, t, steps) <==> MembersHave(w, c, file, t.members, steps)
  {
    if Has(w, c, file, t, steps) {
      var n: nat :| HasWithin(w, c, file, t, steps, n);
      assert MembersWithin(w, c, file, t.members, steps, n - 1);
    }
    if MembersHave(w, c, file, t.members, steps) {
      var n: nat :| MembersWithin(w, c, file, t.members, steps, n);
      assert HasWithin(w, c, file, t, steps, n + 1);
    }
  }

  /** A name that resolves has what its declaration has. */
  lemma NameHas(w: World, c: Contents, file: string, t: Type, steps: seq<Step>)
    requires t.Reference? && steps != [] && !t.qualified && w.Resolve(file, t.head).Some?
    requires t.head in PASSTHROUGH_WRAPPERS + ARRAY_WRAPPERS ==> t.args == []
    ensures Has(w, c, file, t, steps) <==> DeclHas(w, c, w.Resolve(file, t.head).value, steps)
  {
    var id := w.Resolve(file, t.head).value;
    if Has(w, c, file, t, steps) {
      var n: nat :| HasWithin(w, c, file, t, steps, n);
      assert DeclWithin(w, c, id, steps, n - 1);
    }
    if DeclHas(w, c, id, steps) {
      var n: nat :| DeclWithin(w, c, id, steps, n);
      assert HasWithin(w, c, file, t, steps, n + 1);
    }
  }

  /** Where all that may declare the key is seen, the property spelled like it is the only one that can. */
  lemma OnlyFound(members: seq<Member>, p: Premise, key: string, m: Member)
    requires p.AllSeen? && MembersMeet(members, false, p) && key in p.keys && m in members && May(m, key)
    ensures FindMember(members, key) == Some(m)
  {
    assert Legible(m) && m.text == key;
    var found := FindMember(members, key).value;
    var i :| 0 <= i < |members| && members[i] == m;
    var j :| 0 <= j < |members| && members[j] == found;
    assert i == j;
  }

  /** The member found by its spelling, and the members the path may have. */
  lemma {:induction false} MembersSound(w: World, c: Contents, ids: set<string>, p: Premise, file: string, members: seq<Member>,
                                        inherits: bool, steps: seq<Step>, seen: Seen, fuel: nat)
    requires steps != [] && steps[0].Key? && Meets(w, ids, p) && StepsMeet(steps, p) && MembersMeet(members, inherits, p)
    requires forall m :: m in members && m.Property? && m.type_.Some? ==> TypeMeets(w, ids, file, m.type_.value, p)
    requires LookupMember(w, file, FindMember(members, steps[0].name), steps, seen, fuel).Done?
    ensures var verdict := LookupMember(w, file, FindMember(members, steps[0].name), steps, seen, fuel).verdict;
            && (p.FairTo? && verdict == Found ==> MembersHave(w, c, file, members, steps))
            && (p.AllSeen? && verdict == Missing ==> !MembersHave(w, c, file, members, steps))
    decreases fuel, 1
  {
    var found := FindMember(members, steps[0].name);
    var verdict := LookupMember(w, file, found, steps, seen, fuel).verdict;
    if found.Some? && |steps| > 1 && found.value.type_.Some? {
      TypeSound(w, c, ids, p, file, found.value.type_.value, steps[1..], seen, fuel);
    }
    if p.FairTo? && verdict == Found {
      FoundHas(w, c, file, members, steps, found.value);
    }
    if p.AllSeen? && MembersHave(w, c, file, members, steps) {
      OnlyFoundHas(w, c, p, file, members, steps);
    }
  }

  lemma OnlyFoundHas(w: World, c: Contents, p: Premise, file: string, members: seq<Member>, steps: seq<Step>)
    requires p.AllSeen? && MembersMeet(members, false, p) && StepsMeet(steps, p)
    requires steps != [] && steps[0].Key? && MembersHave(w, c, file, members, steps)
    ensures var found := FindMember(members, steps[0].name);
            found.Some? && (|steps| == 1 || found.value.type_.None? || Has(w, c, file, found.value.type_.value, steps[1..]))
  {
    var n: nat :| MembersWithin(w, c, file, members, steps, n);
    var m :| m in members && MemberWithin(w, c, file, m, steps, n);
    OnlyFound(members, p, steps[0].name, m);
    assert |steps| > 1 && m.type_.Some? ==> n > 0 && HasWithin(w, c, file, m.type_.value, steps[1..], n - 1);
  }

  lemma FoundHas(w: World, c: Contents, file: string, members: seq<Member>, steps: seq<Step>, m: Member)
    requires steps != [] && steps[0].Key? && m in members && m.Property? && Declares(m, steps[0].name)
    requires |steps| == 1 || (m.type_.Some? && Has(w, c, file, m.type_.value, steps[1..]))
    ensures MembersHave(w, c, file, members, steps)
  {
    var n: nat := 0;
    if |steps| > 1 {
      n :| HasWithin(w, c, file, m.type_.value, steps[1..], n);
    }
    assert MemberWithin(w, c, file, m, steps, n + 1);
    assert MembersWithin(w, c, file, members, steps, n + 1);
  }

  lemma {:induction false} PartsSound(w: World, c: Contents, ids: set<string>, p: Premise, file: string, parts: seq<Type>,
                                      steps: seq<Step>, seen: Seen, fuel: nat)
    requires Meets(w, ids, p) && StepsMeet(steps, p) && forall i :: 0 <= i < |parts| ==> TypeMeets(w, ids, file, parts[i], p)
    requires LookupParts(w, file, parts, steps, seen, fuel).AllDone?
    ensures var verdicts := LookupParts(w, file, parts, steps, seen, fuel).verdicts;
            |verdicts| == |parts| && forall i :: 0 <= i < |parts| ==> TypeTold(w, c, p, file, parts[i], steps, verdicts[i])
    decreases fuel, 1 + |parts|
  {
    if parts != [] {
      var first := LookupType(w, file, parts[0], steps, seen, fuel);
      TypeSound(w, c, ids, p, file, parts[0], steps, seen, fuel);
      PartsSound(w, c, ids, p, file, parts[1..], steps, first.seen, fuel);
    }
  }

  lemma {:induction false} DeclSound(w: World, c: Contents, ids: set<string>, p: Premise, id: string, steps: seq<Step>,
                                     seen: Seen, fuel: nat)
    requires Meets(w, ids, p) && id in ids && StepsMeet(steps, p)
    requires LookupDecl(w, id, steps, seen, fuel).Done?
    ensures DeclTold(w, c, p, id, steps, LookupDecl(w, id, steps, seen, fuel).verdict)
    decreases fuel, 0
  {
    var file := w.decls[id].file;
    if steps == [] {
      assert DeclWithin(w, c, id, steps, 0);
      return;
    }
    if (id, |steps|) in seen {
      return;
    }
    var seen' := seen + {(id, |steps|)};
    assert DeclMeets(w, ids, id, p);
    match w.decls[id].decl
    case Interface(members, bases) =>
      if steps[0].Key? {
        MembersSoundIn(w, c, ids, p, id, steps, seen', fuel - 1);
      }
    case Alias(t) =>
      TypeSound(w, c, ids, p, file, t, steps, seen', fuel - 1);
      AliasHas(w, c, id, steps);
    case Enum =>
  }

  lemma {:induction false} MembersSoundIn(w: World, c: Contents, ids: set<string>, p: Premise, id: string, steps: seq<Step>,
                                          seen: Seen, fuel: nat)
    requires Meets(w, ids, p) && id in ids && DeclMeets(w, ids, id, p) && w.decls[id].decl.Interface?
    requires steps != [] && steps[0].Key? && StepsMeet(steps, p)
    requires InterfaceOutcome(w, id, steps, seen, fuel).Done?
    ensures DeclTold(w, c, p, id, steps, InterfaceOutcome(w, id, steps, seen, fuel).verdict)
    decreases fuel, 4 + |w.decls[id].decl.bases|
  {
    var file, members, bases := w.decls[id].file, w.decls[id].decl.members, w.decls[id].decl.bases;
    var found := FindMember(members, steps[0].name);
    InterfaceHas(w, c, id, steps);
    MembersSound(w, c, ids, p, file, members, bases != [], steps, seen, fuel);
    if found.None? {
      BasesSound(w, c, ids, p, file, bases, steps, seen, fuel);
      var verdicts := LookupBases(w, file, bases, steps, seen, fuel).verdicts;
      forall b | b in bases
        ensures p.AllSeen? && Combine(verdicts) == Missing ==> !BaseHas(w, c, file, b, steps)
      {
        var i :| 0 <= i < |bases| && bases[i] == b;
        assert verdicts[i] in verdicts;
      }
    }
  }

  /** What an interface's walk comes to, once its key is noted. */
  function InterfaceOutcome(w: World, id: string, steps: seq<Step>, seen: Seen, fuel: nat): Outcome
    requires id in w.decls && w.decls[id].decl.Interface? && steps != [] && steps[0].Key?
  {
    var file, members, bases := w.decls[id].file, w.decls[id].decl.members, w.decls[id].decl.bases;
    if FindMember(members, steps[0].name).Some? then
      LookupMember(w, file, FindMember(members, steps[0].name), steps, seen, fuel)
    else
      var all := LookupBases(w, file, bases, steps, seen, fuel);
      if all.SomeExhausted? then Exhausted
      else Done(if bases != [] then Combine(all.verdicts) else Missing, all.seen)
  }

  lemma InterfaceHas(w: World, c: Contents, id: string, steps: seq<Step>)
    requires id in w.decls && w.decls[id].decl.Interface? && steps != [] && steps[0].Key?
    ensures var file, members, bases := w.decls[id].file, w.decls[id].decl.members, w.decls[id].decl.bases;
            DeclHas(w, c, id, steps) <==>
              || MembersHave(w, c, file, members, steps)
              || ((forall m :: m in members ==> !Declares(m, steps[0].name))
                  && exists b :: b in bases && BaseHas(w, c, file, b, steps))
  {
    var file, members, bases := w.decls[id].file, w.decls[id].decl.members, w.decls[id].decl.bases;
    var undeclared := forall m :: m in members ==> !Declares(m, steps[0].name);
    if DeclHas(w, c, id, steps) {
      var n: nat :| DeclWithin(w, c, id, steps, n);
      if !MembersWithin(w, c, file, members, steps, n - 1) {
        var b :| b in bases && BaseWithin(w, c, file, b, steps, n - 1);
        assert BaseHas(w, c, file, b, steps);
      }
    }
    if n: nat :| MembersWithin(w, c, file, members, steps, n) {
      assert DeclWithin(w, c, id, steps, n + 1);
    }
    if b :| undeclared && b in bases && BaseHas(w, c, file, b, steps) {
      var n: nat :| BaseWithin(w, c, file, b, steps, n);
      assert DeclWithin(w, c, id, steps, n + 1);
    }
  }

  lemma AliasHas(w: World, c: Contents, id: string, steps: seq<Step>)
    requires id in w.decls && w.decls[id].decl.Alias? && steps != []
    ensures DeclHas(w, c, id, steps) <==> Has(w, c, w.decls[id].file, w.decls[id].decl.type_, steps)
  {
    var file, t := w.decls[id].file, w.decls[id].decl.type_;
    if DeclHas(w, c, id, steps) {
      var n: nat :| DeclWithin(w, c, id, steps, n);
      assert HasWithin(w, c, file, t, steps, n - 1);
    }
    if Has(w, c, file, t, steps) {
      var n: nat :| HasWithin(w, c, file, t, steps, n);
      assert DeclWithin(w, c, id, steps, n + 1);
    }
  }

  /** A base that resolves has what its declaration has. */
  lemma BaseHasDecl(w: World, c: Contents, file: string, base: Base, steps: seq<Step>)
    requires base.Named? && w.Resolve(file, base.name).Some?
    ensures BaseHas(w, c, file, base, steps) <==> DeclHas(w, c, w.Resolve(file, base.name).value, steps)
  {
    var id := w.Resolve(file, base.name).value;
    if n: nat :| DeclWithin(w, c, id, steps, n) {
      assert BaseWithin(w, c, file, base, steps, n + 1);
    }
    if n: nat :| BaseWithin(w, c, file, base, steps, n) {
      assert DeclWithin(w, c, id, steps, n - 1);
    }
  }

  lemma {:induction false} BasesSound(w: World, c: Contents, ids: set<string>, p: Premise, file: string, bases: seq<Base>,
                                      steps: seq<Step>, seen: Seen, fuel: nat)
    requires Meets(w, ids, p) && StepsMeet(steps, p)
    requires forall b :: b in bases && b.Named? && w.Resolve(file, b.name).Some? ==> w.Resolve(file, b.name).value in ids
    requires LookupBases(w, file, bases, steps, seen, fuel).AllDone?
    ensures var verdicts := LookupBases(w, file, bases, steps, seen, fuel).verdicts;
            |verdicts| == |bases| && forall i :: 0 <= i < |bases| ==> BaseTold(w, c, p, file, bases[i], steps, verdicts[i])
    decreases fuel, 2 + |bases|
  {
    if bases != [] {
      var base := bases[0];
      var first := LookupBase(w, file, base, steps, seen, fuel);
      if base.Named? && w.Resolve(file, base.name).Some? {
        DeclSound(w, c, ids, p, w.Resolve(file, base.name).value, steps, seen, fuel);
        BaseHasDecl(w, c, file, base, steps);
      }
      BasesSound(w, c, ids, p, file, bases[1..], steps, first.seen, fuel);
    }
  }

  // ----- once a walk returns, deeper calls change nothing

  lemma {:induction false} TypeSettled(w: World, file: string, t: Type, steps: seq<Step>, seen: Seen, fuel: nat)
    requires LookupType(w, file, t, steps, seen, fuel).Done?
    ensures LookupType(w, file, t, steps, seen, fuel + 1) == LookupType(w, file, t, steps, seen, fuel)
    decreases fuel, 0
  {
    if steps == [] {
      return;
    }
    match MoveOf(w, file, t, steps)
    case Halt =>
    case IntoMembers(members) => MemberSettled(w, file, FindMember(members, steps[0].name), steps, seen, fuel - 1);
    case IntoParts(parts, _) => PartsSettled(w, file, parts, steps, seen, fuel - 1);
    case Into(inner, next) => TypeSettled(w, file, inner, next, seen, fuel - 1);
    case Enter(id) => DeclSettled(w, id, steps, seen, fuel - 1);
  }

  lemma {:induction false} MemberSettled(w: World, file: string, found: Option<Member>, steps: seq<Step>, seen: Seen,
                                         fuel: nat)
    requires steps != [] && (found.Some? ==> found.value.Property?)
    requires LookupMember(w, file, found, steps, seen, fuel).Done?
    ensures LookupMember(w, file, found, steps, seen, fuel + 1) == LookupMember(w, file, found, steps, seen, fuel)
    decreases fuel, 1
  {
    if found.Some? && |steps| > 1 && found.value.type_.Some? {
      TypeSettled(w, file, found.value.type_.value, steps[1..], seen, fuel);
    }
  }

  lemma {:induction false} PartsSettled(w: World, file: string, parts: seq<Type>, steps: seq<Step>, seen: Seen, fuel: nat)
    requires LookupParts(w, file, parts, steps, seen, fuel).AllDone?
    ensures LookupParts(w, file, parts, steps, seen, fuel + 1) == LookupParts(w, file, parts, steps, seen, fuel)
    decreases fuel, 1 + |parts|
  {
    if parts != [] {
      TypeSettled(w, file, parts[0], steps, seen, fuel);
      PartsSettled(w, file, parts[1..], steps, LookupType(w, file, parts[0], steps, seen, fuel).seen, fuel);
    }
  }

  lemma {:induction false} DeclSettled(w: World, id: string, steps: seq<Step>, seen: Seen, fuel: nat)
    requires id in w.decls && LookupDecl(w, id, steps, seen, fuel).Done?
    ensures LookupDecl(w, id, steps, seen, fuel + 1) == LookupDecl(w, id, steps, seen, fuel)
    decreases fuel, 0
  {
    var file := w.decls[id].file;
    if steps == [] || (id, |steps|) in seen {
      return;
    }
    var seen': Seen := seen + {(id, |steps|)};
    match w.decls[id].decl
    case Interface(members, bases) =>
      if steps[0].Key? {
        var found := FindMember(members, steps[0].name);
        if found.Some? {
          MemberSettled(w, file, found, steps, seen', fuel - 1);
        } else {
          BasesSettled(w, file, bases, steps, seen', fuel - 1);
        }
      }
    case Alias(t) => TypeSettled(w, file, t, steps, seen', fuel - 1);
    case Enum =>
  }

  lemma {:induction false} BasesSettled(w: World, file: string, bases: seq<Base>, steps: seq<Step>, seen: Seen, fuel: nat)
    requires LookupBases(w, file, bases, steps, seen, fuel).AllDone?
    ensures LookupBases(w, file, bases, steps, seen, fuel + 1) == LookupBases(w, file, bases, steps, seen, fuel)
    decreases fuel, 2 + |bases|
  {
    if bases != [] {
      if bases[0].Named? && w.Resolve(file, bases[0].name).Some? {
        DeclSettled(w, w.Resolve(file, bases[0].name).value, steps, seen, fuel);
      }
      BasesSettled(w, file, bases[1..], steps, LookupBase(w, file, bases[0], steps, seen, fuel).seen, fuel);
    }
  }
}
