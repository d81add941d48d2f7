/** The declarations with every union read loosely, as what some branch has: `lookupPath` reports a path of a union missing
    only when no branch has it. */
module LooseReading {
  import opened Basics
  import opened PathLookup
  import opened TypeSyntax

  /** An intersection has what some part has. */
  function LooseType(t: Type): Type
    decreases t, 1
  {
    match t
    case Literal(members) => Literal(LooseMembers(members))
    case Parenthesized(inner) => Parenthesized(LooseType(inner))
    case Intersection(parts) => Intersection(LooseTypes(parts))
    case Union(parts) => if parts == [] then t else Intersection(LooseTypes(parts))
    case ArrayOf(element) => ArrayOf(LooseType(element))
    case Operator(readonly, inner) => Operator(readonly, LooseType(inner))
    case Indexed(object_, key) => Indexed(LooseType(object_), key)
    case Reference(head, qualified, args) => Reference(head, qualified, LooseTypes(args))
    case Opaque(_) => t
  }

  function LooseTypes(parts: seq<Type>): (loose: seq<Type>)
    ensures |loose| == |parts| && forall i :: 0 <= i < |parts| ==> loose[i] == LooseType(parts[i])
    decreases parts, 0
  {
    if parts == [] then [] else [LooseType(parts[0])] + LooseTypes(parts[1..])
  }

  function LooseMember(m: Member): Member
    decreases m, 1
  {
    match m
    case Property(text, name, Some(type_)) => Property(text, name, Some(LooseType(type_)))
    case _ => m
  }

  function LooseMembers(members: seq<Member>): (loose: seq<Member>)
    ensures |loose| == |members| && forall i :: 0 <= i < |members| ==> loose[i] == LooseMember(members[i])
    decreases members, 0
  {
    if members == [] then [] else [LooseMember(members[0])] + LooseMembers(members[1..])
  }

  function LooseDecl(d: Decl): Decl {
    match d
    case Interface(members, bases) => Interface(LooseMembers(members), bases)
    case Alias(t) => Alias(LooseType(t))
    case Enum => Enum
  }

  function Loosened(w: World): World {
    World(map id | id in w.decls :: Declared(w.decls[id].file, LooseDecl(w.decls[id].decl)), w.names)
  }

  // ----- the same walk

  function LooseMove(move: Move): Move {
    match move
    case Halt => Halt
    case IntoMembers(members) => IntoMembers(LooseMembers(members))
    case IntoParts(parts, union) => IntoParts(LooseTypes(parts), union && parts == [])
    case Into(inner, next) => Into(LooseType(inner), next)
    case Enter(id) => Enter(id)
  }

  lemma LooseMoves(w: World, file: string, t: Type, steps: seq<Step>)
    requires steps != []
    ensures MoveOf(Loosened(w), file, LooseType(t), steps) == LooseMove(MoveOf(w, file, t, steps))
  {
    assert forall name :: Loosened(w).Resolve(file, name) == w.Resolve(file, name);
  }

  function LooseFound(found: Option<Member>): Option<Member> {
    match found case None => None case Some(m) => Some(LooseMember(m))
  }

  lemma {:induction false} LooseFinds(members: seq<Member>, text: string)
    ensures FindMember(LooseMembers(members), text) == LooseFound(FindMember(members, text))
  {
    if members != [] {
      LooseFinds(members[1..], text);
      assert LooseMembers(members)[1..] == LooseMembers(members[1..]);
    }
  }

  /** Both return, with the same set, and both with `missing` or neither. */
  ghost predicate Alike(a: Outcome, b: Outcome) {
    (a.Done? <==> b.Done?) && (a.Done? ==> a.seen == b.seen && (a.verdict == Missing <==> b.verdict == Missing))
  }

  ghost predicate AllAlike(a: Outcomes, b: Outcomes) {
    && (a.AllDone? <==> b.AllDone?)
    && (a.AllDone? ==>
          && a.seen == b.seen && |a.verdicts| == |b.verdicts|
          && forall i :: 0 <= i < |a.verdicts| ==> (a.verdicts[i] == Missing <==> b.verdicts[i] == Missing))
  }

  lemma CombineMissing(verdicts: seq<Verdict>)
    ensures Combine(verdicts) == Missing <==> forall i :: 0 <= i < |verdicts| ==> verdicts[i] == Missing
    ensures verdicts != [] ==> (Agree(verdicts) == Missing <==> forall i :: 0 <= i < |verdicts| ==> verdicts[i] == Missing)
  {
    if Combine(verdicts) == Missing {
      forall i | 0 <= i < |verdicts|
        ensures verdicts[i] == Missing
      {
        assert verdicts[i] in verdicts;
      }
    }
    if verdicts != [] {
      assert verdicts[0] in verdicts;
      if Agree(verdicts) == Missing {
        forall i | 0 <= i < |verdicts|
          ensures verdicts[i] == Missing
        {
          assert verdicts[i] in verdicts;
        }
      }
    }
  }

  lemma AlikeTogether(a: Outcomes, b: Outcomes, union: bool, loose: bool)
    requires AllAlike(a, b) && (a.AllDone? ==> loose == (union && a.verdicts == []))
    ensures Alike(if a.SomeExhausted? then Exhausted else Done(Judge(a.verdicts, union), a.seen),
                  if b.SomeExhausted? then Exhausted else Done(Judge(b.verdicts, loose), b.seen))
  {
    if a.AllDone? {
      CombineMissing(a.verdicts);
      CombineMissing(b.verdicts);
    }
  }

  /** What a walk comes to behind its next move. */
  function Onward(w: World, file: string, move: Move, steps: seq<Step>, seen: Seen, fuel: nat): Outcome
    requires steps != [] && (move.IntoMembers? ==> steps[0].Key?) && (move.Enter? ==> move.id in w.decls)
  {
    match move
    case Halt => Done(Unknown, seen)
    case IntoMembers(members) => LookupMember(w, file, FindMember(members, steps[0].name), steps, seen, fuel)
    case IntoParts(parts, union) =>
      var all := LookupParts(w, file, parts, steps, seen, fuel);
      if all.SomeExhausted? then Exhausted else Done(Judge(all.verdicts, union), all.seen)
    case Into(inner, next) => LookupType(w, file, inner, next, seen, fuel)
    case Enter(id) => LookupDecl(w, id, steps, seen, fuel)
  }

  lemma TypeGoesOn(w: World, file: string, t: Type, steps: seq<Step>, seen: Seen, fuel: nat)
    requires steps != [] && fuel > 0
    ensures LookupType(w, file, t, steps, seen, fuel) == Onward(w, file, MoveOf(w, file, t, steps), steps, seen, fuel - 1)
  {
  }

  lemma {:induction false} TypeLoose(w: World, file: string, t: Type, steps: seq<Step>, seen: Seen, fuel: nat)
    ensures Alike(LookupType(w, file, t, steps, seen, fuel), LookupType(Loosened(w), file, LooseType(t), steps, seen, fuel))
    decreases fuel, 0
  {
    if steps != [] && fuel > 0 {
      TypeGoesOn(w, file, t, steps, seen, fuel);
      TypeGoesOn(Loosened(w), file, LooseType(t), steps, seen, fuel);
      LooseMoves(w, file, t, steps);
      MoveLoose(w, file, MoveOf(w, file, t, steps), steps, seen, fuel - 1);
    }
  }

  lemma {:induction false} MoveLoose(w: World, file: string, move: Move, steps: seq<Step>, seen: Seen, fuel: nat)
    requires steps != [] && (move.IntoMembers? ==> steps[0].Key?) && (move.Enter? ==> move.id in w.decls)
    ensures Alike(Onward(w, file, move, steps, seen, fuel), Onward(Loosened(w), file, LooseMove(move), steps, seen, fuel))
    decreases fuel, 2
  {
    match move
    case Halt =>
    case IntoMembers(members) =>
      LooseFinds(members, steps[0].name);
      MemberLoose(w, file, FindMember(members, steps[0].name), steps, seen, fuel);
    case IntoParts(parts, union) =>
      PartsLoose(w, file, parts, steps, seen, fuel);
      AlikeTogether(LookupParts(w, file, parts, steps, seen, fuel),
                    LookupParts(Loosened(w), file, LooseTypes(parts), steps, seen, fuel), union, union && parts == []);
    case Into(inner, next) => TypeLoose(w, file, inner, next, seen, fuel);
    case Enter(id) => DeclLoose(w, id, steps, seen, fuel);
  }

  lemma {:induction false} MemberLoose(w: World, file: string, found: Option<Member>, steps: seq<Step>, seen: Seen, fuel: nat)
    requires steps != [] && (found.Some? ==> found.value.Property?)
    ensures Alike(LookupMember(w, file, found, steps, seen, fuel), LookupMember(Loosened(w), file, LooseFound(found), steps, seen, fuel))
    decreases fuel, 1
  {
    if found.Some? && |steps| > 1 && found.value.type_.Some? {
      TypeLoose(w, file, found.value.type_.value, steps[1..], seen, fuel);
    }
  }

  lemma {:induction false} PartsLoose(w: World, file: string, parts: seq<Type>, steps: seq<Step>, seen: Seen, fuel: nat)
    ensures AllAlike(LookupParts(w, file, parts, steps, seen, fuel), LookupParts(Loosened(w), file, LooseTypes(parts), steps, seen, fuel))
    ensures LookupParts(w, file, parts, steps, seen, fuel).AllDone? ==>
      |LookupParts(w, file, parts, steps, seen, fuel).verdicts| == |parts|
    decreases fuel, 1, |parts|
  {
    if parts != [] {
      TypeLoose(w, file, parts[0], steps, seen, fuel);
      assert LooseTypes(parts)[1..] == LooseTypes(parts[1..]);
      var first := LookupType(w, file, parts[0], steps, seen, fuel);
      if first.Done? {
        PartsLoose(w, file, parts[1..], steps, first.seen, fuel);
      }
    }
  }

  lemma {:induction false} DeclLoose(w: World, id: string, steps: seq<Step>, seen: Seen, fuel: nat)
    requires id in w.decls
    ensures Alike(LookupDecl(w, id, steps, seen, fuel), LookupDecl(Loosened(w), id, steps, seen, fuel))
    decreases fuel, 0
  {
    if steps == [] || fuel == 0 || w.decls[id].decl.Enum? || (id, |steps|) in seen {
      return;
    }
    var file, seen' := w.decls[id].file, seen + {(id, |steps|)};
    match w.decls[id].decl
    case Interface(members, bases) =>
      if steps[0].Key? {
        LooseFinds(members, steps[0].name);
        var found := FindMember(members, steps[0].name);
        if found.Some? {
          MemberLoose(w, file, found, steps, seen', fuel - 1);
        } else {
          BasesLoose(w, file, bases, steps, seen', fuel - 1);
          AlikeTogether(LookupBases(w, file, bases, steps, seen', fuel - 1),
                        LookupBases(Loosened(w), file, bases, steps, seen', fuel - 1), false, false);
        }
      }
    case Alias(t) => TypeLoose(w, file, t, steps, seen', fuel - 1);
  }

  lemma {:induction false} BasesLoose(w: World, file: string, bases: seq<Base>, steps: seq<Step>, seen: Seen, fuel: nat)
    ensures AllAlike(LookupBases(w, file, bases, steps, seen, fuel), LookupBases(Loosened(w), file, bases, steps, seen, fuel))
    decreases fuel, 2 + |bases|
  {
    if bases != [] {
      var base := bases[0];
      if base.Named? && w.Resolve(file, base.name).Some? {
        DeclLoose(w, w.Resolve(file, base.name).value, steps, seen, fuel);
      }
      var first := LookupBase(w, file, base, steps, seen, fuel);
      if first.Done? {
        BasesLoose(w, file, bases[1..], steps, first.seen, fuel);
      }
    }
  }

  // ----- the same premises

  /** The same member but for its type. */
  predicate SameName(a: Member, b: Member) {
    if a.Property? then b.Property? && b.text == a.text && b.name == a.name else b == a
  }

  ghost predicate SameNames(a: seq<Member>, b: seq<Member>) {
    |a| == |b| && forall i :: 0 <= i < |a| ==> SameName(a[i], b[i])
  }

  lemma NamesFair(a: seq<Member>, b: seq<Member>, inherits: bool, p: Premise)
    requires p.FairTo? && SameNames(a, b) && MembersMeet(a, inherits, p)
    ensures MembersMeet(b, inherits, p)
  {
    forall m, key | m in b && key in p.keys && !Legible(m)
      ensures !(m.Property? && m.text == key) && (inherits ==> !Declares(m, key))
    {
      var i :| 0 <= i < |b| && b[i] == m;
      assert SameName(a[i], m) && a[i] in a;
    }
  }

  lemma NamesSeen(a: seq<Member>, b: seq<Member>, inherits: bool, p: Premise)
    requires p.AllSeen? && SameNames(a, b) && MembersMeet(a, inherits, p)
    ensures MembersMeet(b, inherits, p)
  {
    forall m, key | m in b && key in p.keys && (May(m, key) || (m.Property? && m.text == key))
      ensures Legible(m)
    {
      var i :| 0 <= i < |b| && b[i] == m;
      assert SameName(a[i], m) && a[i] in a;
    }
    forall i, j | 0 <= i < j < |b| && b[i].Property? && b[j].Property? && b[i].text in p.keys
      ensures b[i].text != b[j].text
    {
      assert SameName(a[i], b[i]) && SameName(a[j], b[j]);
    }
  }

  lemma LooseMembersMeet(members: seq<Member>, inherits: bool, p: Premise)
    requires MembersMeet(members, inherits, p)
    ensures MembersMeet(LooseMembers(members), inherits, p)
  {
    if p.FairTo? {
      NamesFair(members, LooseMembers(members), inherits, p);
    } else {
      NamesSeen(members, LooseMembers(members), inherits, p);
    }
  }

  lemma {:induction false} LooseTypeMeets(w: World, ids: set<string>, file: string, t: Type, p: Premise)
    requires TypeMeets(w, ids, file, t, p)
    ensures TypeMeets(Loosened(w), ids, file, LooseType(t), p)
    decreases t
  {
    match t
    case Literal(members) =>
      LooseMembersMeet(members, false, p);
      forall i | 0 <= i < |members| && members[i].Property? && members[i].type_.Some?
        ensures TypeMeets(Loosened(w), ids, file, LooseType(members[i].type_.value), p)
      {
        LooseTypeMeets(w, ids, file, members[i].type_.value, p);
      }
    case Parenthesized(inner) => LooseTypeMeets(w, ids, file, inner, p);
    case Intersection(parts) =>
      forall i | 0 <= i < |parts|
        ensures TypeMeets(Loosened(w), ids, file, LooseType(parts[i]), p)
      {
        LooseTypeMeets(w, ids, file, parts[i], p);
      }
    case Union(parts) =>
      forall i | 0 <= i < |parts|
        ensures TypeMeets(Loosened(w), ids, file, LooseType(parts[i]), p)
      {
        LooseTypeMeets(w, ids, file, parts[i], p);
      }
    case ArrayOf(element) => LooseTypeMeets(w, ids, file, element, p);
    case Operator(_, inner) => LooseTypeMeets(w, ids, file, inner, p);
    case Indexed(object_, key) =>
      if key.Some? {
        LooseTypeMeets(w, ids, file, object_, p);
      }
    case Reference(head, _, args) =>
      if head in PASSTHROUGH_WRAPPERS + ARRAY_WRAPPERS && args != [] {
        LooseTypeMeets(w, ids, file, args[0], p);
      }
    case Opaque(_) =>
  }

  lemma LooseMeets(w: World, ids: set<string>, p: Premise)
    requires Meets(w, ids, p)
    ensures Meets(Loosened(w), ids, p)
  {
    forall id | id in ids
      ensures DeclMeets(Loosened(w), ids, id, p)
    {
      assert DeclMeets(w, ids, id, p);
      LooseDeclMeets(w, ids, id, p);
    }
  }

  lemma LooseDeclMeets(w: World, ids: set<string>, id: string, p: Premise)
    requires id in w.decls && DeclMeets(w, ids, id, p)
    ensures DeclMeets(Loosened(w), ids, id, p)
  {
    var file := w.decls[id].file;
    match w.decls[id].decl
    case Interface(members, bases) =>
      LooseMembersMeet(members, bases != [], p);
      forall m | m in LooseMembers(members) && m.Property? && m.type_.Some?
        ensures TypeMeets(Loosened(w), ids, file, m.type_.value, p)
      {
        var i :| 0 <= i < |members| && LooseMembers(members)[i] == m;
        assert members[i] in members;
        LooseTypeMeets(w, ids, file, members[i].type_.value, p);
      }
    case Alias(t) => LooseTypeMeets(w, ids, file, t, p);
    case Enum =>
  }
}
