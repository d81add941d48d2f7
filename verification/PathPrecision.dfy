/** When `lookupPath` gives a definite verdict: a two-valued reading of the declarations, without
    the `seen` set, and the walk's agreement with it as long as no declaration comes up twice. */
module PathPrecision {
  import opened Basics
  import opened PathLookup
  import opened TypeSyntax

  /** A reading that saw everything it needed: whether the path is there, and the
      (declaration, remaining length) pairs it entered. `Dim` is one that did not, or entered a pair twice. */
  datatype Reading = Clear(has: bool, entered: Seen) | Dim

  datatype Readings = AllClear(each: seq<bool>, entered: Seen) | SomeDim

  /** The type `t`, read in `file`, has or has not the path; `n` bounds the depth of the reading. */
  ghost function ReadType(w: World, file: string, t: Type, steps: seq<Step>, n: nat): Reading
    decreases n, 0
  {
    if steps == [] then Clear(true, {})
    else if n == 0 then Dim
    else match t
      case Literal(members) =>
        if steps[0].Element? then Dim else ReadMember(w, file, FindMember(members, steps[0].name), steps, n - 1)
      case Parenthesized(inner) => ReadType(w, file, inner, steps, n - 1)
      case Intersection(parts) => AnyOf(ReadParts(w, file, parts, steps, n - 1))
      case Union(parts) => AllOf(ReadParts(w, file, parts, steps, n - 1))
      case ArrayOf(element) => if steps[0].Element? then ReadType(w, file, element, steps[1..], n - 1) else Dim
      case Operator(_, inner) => ReadType(w, file, inner, steps, n - 1)
      case Indexed(object_, key) => if key.Some? then ReadType(w, file, object_, [Key(key.value)] + steps, n - 1) else Dim
      case Reference(head, qualified, args) =>
        if args != [] && head in PASSTHROUGH_WRAPPERS then ReadType(w, file, args[0], steps, n - 1)
        else if args != [] && head in ARRAY_WRAPPERS then
          if steps[0].Element? then ReadType(w, file, args[0], steps[1..], n - 1) else Dim
        else if !qualified && w.Resolve(file, head).Some? then ReadDecl(w, w.Resolve(file, head).value, steps, n - 1)
        else Dim
      case Opaque(_) => Dim
  }

  /** The reading of a type is that of what the walk goes on to. */
  lemma ReadMoves(w: World, file: string, t: Type, steps: seq<Step>, n: nat)
    requires steps != [] && n > 0
    ensures ReadType(w, file, t, steps, n) ==
      match MoveOf(w, file, t, steps)
      case Halt => Dim
      case IntoMembers(members) => ReadMember(w, file, FindMember(members, steps[0].name), steps, n - 1)
      case IntoParts(parts, union) =>
        if union then AllOf(ReadParts(w, file, parts, steps, n - 1)) else AnyOf(ReadParts(w, file, parts, steps, n - 1))
      case Into(inner, next) => ReadType(w, file, inner, next, n - 1)
      case Enter(id) => ReadDecl(w, id, steps, n - 1)
  {
  }

  /** Some part has it. */
  ghost function AnyOf(all: Readings): Reading {
    if all.SomeDim? then Dim else Clear(true in all.each, all.entered)
  }

  /** All parts have it, or none; a union whose branches differ has no definite answer. */
  ghost function AllOf(all: Readings): Reading {
    if all.SomeDim? then Dim
    else if false !in all.each then Clear(true, all.entered)
    else if true !in all.each then Clear(false, all.entered)
    else Dim
  }

  ghost function ReadMember(w: World, file: string, found: Option<Member>, steps: seq<Step>, n: nat): Reading
    requires steps != [] && (found.Some? ==> found.value.Property?)
    decreases n, 1
  {
    if found.None? then Clear(false, {})
    else if |steps| == 1 then Clear(true, {})
    else if found.value.type_.None? then Dim
    else ReadType(w, file, found.value.type_.value, steps[1..], n)
  }

  /** One reading in front of others that enter nothing it entered. */
  ghost function Beside(first: Reading, rest: Readings): Readings {
    if first.Clear? && rest.AllClear? && first.entered !! rest.entered
    then AllClear([first.has] + rest.each, first.entered + rest.entered)
    else SomeDim
  }

  ghost function ReadParts(w: World, file: string, parts: seq<Type>, steps: seq<Step>, n: nat): Readings
    decreases n, 1 + |parts|
  {
    if parts == [] then AllClear([], {})
    else Beside(ReadType(w, file, parts[0], steps, n), ReadParts(w, file, parts[1..], steps, n))
  }

  /** Entering a declaration, unless its body comes back to it. */
  ghost function Entering(key: (string, nat), body: Reading): Reading {
    if body.Clear? && key !in body.entered then Clear(body.has, body.entered + {key}) else Dim
  }

  ghost function ReadDecl(w: World, id: string, steps: seq<Step>, n: nat): Reading
    requires id in w.decls
    decreases n, 0
  {
    var file, key := w.decls[id].file, (id, |steps|);
    if steps == [] then Clear(true, {})
    else if n == 0 then Dim
    else match w.decls[id].decl
      case Enum => Dim
      case Alias(t) => Entering(key, ReadType(w, file, t, steps, n - 1))
      case Interface(members, bases) =>
        if steps[0].Element? then Dim
        else if FindMember(members, steps[0].name).Some? then
          Entering(key, ReadMember(w, file, FindMember(members, steps[0].name), steps, n - 1))
        else Entering(key, AnyOf(ReadBases(w, file, bases, steps, n - 1)))
  }

  ghost function ReadBase(w: World, file: string, base: Base, steps: seq<Step>, n: nat): Reading
    decreases n, 1
  {
    if base.Computed? || w.Resolve(file, base.name).None? then Dim
    else ReadDecl(w, w.Resolve(file, base.name).value, steps, n)
  }

  ghost function ReadBases(w: World, file: string, bases: seq<Base>, steps: seq<Step>, n: nat): Readings
    decreases n, 2 + |bases|
  {
    if bases == [] then AllClear([], {})
    else Beside(ReadBase(w, file, bases[0], steps, n), ReadBases(w, file, bases[1..], steps, n))
  }

  // ----- the walk agrees with a clear reading

  function Definite(has: bool): Verdict { if has then Found else Missing }

  function DefiniteAll(each: seq<bool>): seq<Verdict> {
    seq(|each|, i requires 0 <= i < |each| => Definite(each[i]))
  }

  ghost predicate Agrees(outcome: Outcome, reading: Reading, seen: Seen) {
    reading.Clear? && reading.entered !! seen ==> outcome == Done(Definite(reading.has), seen + reading.entered)
  }

  ghost predicate AllAgree(outcomes: Outcomes, readings: Readings, seen: Seen) {
    readings.AllClear? && readings.entered !! seen ==> outcomes == AllDone(DefiniteAll(readings.each), seen + readings.entered)
  }

  lemma DefiniteHolds(each: seq<bool>)
    ensures Found in DefiniteAll(each) <==> true in each
    ensures Missing in DefiniteAll(each) <==> false in each
    ensures Unknown !in DefiniteAll(each)
  {
    var all := DefiniteAll(each);
    assert forall i :: 0 <= i < |each| ==> all[i] == Definite(each[i]);
    if true in each {
      var i :| 0 <= i < |each| && each[i];
      assert all[i] == Found;
    }
    if false in each {
      var i :| 0 <= i < |each| && !each[i];
      assert all[i] == Missing;
    }
  }

  lemma CombineDefinite(each: seq<bool>)
    ensures Combine(DefiniteAll(each)) == Definite(true in each)
  {
    DefiniteHolds(each);
  }

  lemma AgreeDefinite(each: seq<bool>)
    ensures false !in each ==> Agree(DefiniteAll(each)) == Found
    ensures false in each && true !in each ==> Agree(DefiniteAll(each)) == Missing
  {
    DefiniteHolds(each);
    var all := DefiniteAll(each);
    assert false in each ==> !(forall r :: r in all ==> r == Found);
    forall r | r in all
      ensures r == Found || r == Missing
    {
    }
  }

  lemma DefinitePrepend(has: bool, each: seq<bool>)
    ensures DefiniteAll([has] + each) == [Definite(has)] + DefiniteAll(each)
  {
  }

  lemma {:induction false} TypeAgrees(w: World, file: string, t: Type, steps: seq<Step>, seen: Seen, n: nat)
    ensures Agrees(LookupType(w, file, t, steps, seen, n), ReadType(w, file, t, steps, n), seen)
    decreases n, 0
  {
    if steps == [] || n == 0 {
      assert seen + {} == seen;
      return;
    }
    ReadMoves(w, file, t, steps, n);
    match MoveOf(w, file, t, steps)
    case Halt =>
    case IntoMembers(members) => MemberAgrees(w, file, FindMember(members, steps[0].name), steps, seen, n - 1);
    case IntoParts(parts, _) =>
      PartsAgree(w, file, parts, steps, seen, n - 1);
      AnyAgrees(LookupParts(w, file, parts, steps, seen, n - 1), ReadParts(w, file, parts, steps, n - 1), seen);
      AllAgrees(LookupParts(w, file, parts, steps, seen, n - 1), ReadParts(w, file, parts, steps, n - 1), seen);
    case Into(inner, next) => TypeAgrees(w, file, inner, next, seen, n - 1);
    case Enter(id) => DeclAgrees(w, id, steps, seen, n - 1);
  }

  lemma AnyAgrees(outcomes: Outcomes, readings: Readings, seen: Seen)
    requires AllAgree(outcomes, readings, seen)
    ensures Agrees(if outcomes.SomeExhausted? then Exhausted else Done(Combine(outcomes.verdicts), outcomes.seen), AnyOf(readings), seen)
  {
    if readings.AllClear? {
      CombineDefinite(readings.each);
    }
  }

  lemma AllAgrees(outcomes: Outcomes, readings: Readings, seen: Seen)
    requires AllAgree(outcomes, readings, seen)
    ensures Agrees(if outcomes.SomeExhausted? then Exhausted else Done(Agree(outcomes.verdicts), outcomes.seen), AllOf(readings), seen)
  {
    if readings.AllClear? {
      AgreeDefinite(readings.each);
    }
  }

  lemma {:induction false} MemberAgrees(w: World, file: string, found: Option<Member>, steps: seq<Step>, seen: Seen, n: nat)
    requires steps != [] && (found.Some? ==> found.value.Property?)
    ensures Agrees(LookupMember(w, file, found, steps, seen, n), ReadMember(w, file, found, steps, n), seen)
    decreases n, 1
  {
    assert seen + {} == seen;
    if found.Some? && |steps| > 1 && found.value.type_.Some? {
      TypeAgrees(w, file, found.value.type_.value, steps[1..], seen, n);
    }
  }

  /** The walk of the rest starts with what the first part has entered. */
  lemma {:induction false} PartsAgree(w: World, file: string, parts: seq<Type>, steps: seq<Step>, seen: Seen, n: nat)
    ensures AllAgree(LookupParts(w, file, parts, steps, seen, n), ReadParts(w, file, parts, steps, n), seen)
    decreases n, 1 + |parts|
  {
    if parts == [] {
      assert seen + {} == seen;
    } else {
      var first, rest := ReadType(w, file, parts[0], steps, n), ReadParts(w, file, parts[1..], steps, n);
      TypeAgrees(w, file, parts[0], steps, seen, n);
      if Beside(first, rest).AllClear? && Beside(first, rest).entered !! seen {
        PartsAgree(w, file, parts[1..], steps, seen + first.entered, n);
        DefinitePrepend(first.has, rest.each);
        assert (seen + first.entered) + rest.entered == seen + (first.entered + rest.entered);
      }
    }
  }

  lemma {:induction false} DeclAgrees(w: World, id: string, steps: seq<Step>, seen: Seen, n: nat)
    requires id in w.decls
    ensures Agrees(LookupDecl(w, id, steps, seen, n), ReadDecl(w, id, steps, n), seen)
    decreases n, 0
  {
    if steps == [] || n == 0 {
      assert seen + {} == seen;
      return;
    }
    var file, key := w.decls[id].file, (id, |steps|);
    var seen' := seen + {key};
    match w.decls[id].decl
    case Enum =>
    case Alias(t) =>
      TypeAgrees(w, file, t, steps, seen', n - 1);
      EnteringAgrees(key, ReadType(w, file, t, steps, n - 1), seen);
    case Interface(members, bases) =>
      if steps[0].Key? {
        var found := FindMember(members, steps[0].name);
        if found.Some? {
          MemberAgrees(w, file, found, steps, seen', n - 1);
          EnteringAgrees(key, ReadMember(w, file, found, steps, n - 1), seen);
        } else {
          BasesAgree(w, file, bases, steps, seen', n - 1);
          AnyAgrees(LookupBases(w, file, bases, steps, seen', n - 1), ReadBases(w, file, bases, steps, n - 1), seen');
          EnteringAgrees(key, AnyOf(ReadBases(w, file, bases, steps, n - 1)), seen);
        }
      }
  }

  lemma EnteringAgrees(key: (string, nat), body: Reading, seen: Seen)
    ensures Entering(key, body).Clear? && Entering(key, body).entered !! seen ==>
      key !in seen && body.entered !! seen + {key} && (seen + {key}) + body.entered == seen + Entering(key, body).entered
  {
  }

  lemma {:induction false} BasesAgree(w: World, file: string, bases: seq<Base>, steps: seq<Step>, seen: Seen, n: nat)
    ensures AllAgree(LookupBases(w, file, bases, steps, seen, n), ReadBases(w, file, bases, steps, n), seen)
    decreases n, 2 + |bases|
  {
    if bases == [] {
      assert seen + {} == seen;
    } else {
      var first, rest := ReadBase(w, file, bases[0], steps, n), ReadBases(w, file, bases[1..], steps, n);
      if bases[0].Named? && w.Resolve(file, bases[0].name).Some? {
        DeclAgrees(w, w.Resolve(file, bases[0].name).value, steps, seen, n);
      }
      if Beside(first, rest).AllClear? && Beside(first, rest).entered !! seen {
        BasesAgree(w, file, bases[1..], steps, seen + first.entered, n);
        DefinitePrepend(first.has, rest.each);
        assert (seen + first.entered) + rest.entered == seen + (first.entered + rest.entered);
      }
    }
  }

  /** A clear reading is the walk's verdict, and right wherever the premise is met, whatever the unseen types contain. */
  lemma ClearIsDefinite(w: World, ids: set<string>, p: Premise, id: string, steps: seq<Step>, n: nat)
    requires Meets(w, ids, p) && id in ids && StepsMeet(steps, p) && ReadDecl(w, id, steps, n).Clear?
    ensures LookupDecl(w, id, steps, {}, n).Done?
    ensures LookupDecl(w, id, steps, {}, n).verdict == Definite(ReadDecl(w, id, steps, n).has)
    ensures p.FairTo? && ReadDecl(w, id, steps, n).has ==> forall c: Contents :: DeclHas(w, c, id, steps)
    ensures p.AllSeen? && !ReadDecl(w, id, steps, n).has ==> forall c: Contents :: !DeclHas(w, c, id, steps)
  {
    DeclAgrees(w, id, steps, {}, n);
    var has := ReadDecl(w, id, steps, n).has;
    forall c: Contents
      ensures p.FairTo? && has ==> DeclHas(w, c, id, steps)
      ensures p.AllSeen? && !has ==> !DeclHas(w, c, id, steps)
    {
      DeclSound(w, c, ids, p, id, steps, {}, n);
    }
  }

  // ----- and only a clear reading is reported missing

  lemma AllMissing(all: Outcomes)
    requires all.AllDone?
    ensures Combine(all.verdicts) == Missing <==> forall v :: v in all.verdicts ==> v == Missing
    ensures Agree(all.verdicts) == Missing ==> forall v :: v in all.verdicts ==> v == Missing
    ensures Agree([]) == Found
  {
    forall v | v in all.verdicts && Combine(all.verdicts) == Missing
      ensures v == Missing
    {
      assert v != Found && v != Unknown;
    }
  }

  ghost predicate NoneHas(all: Readings, seen: Seen) {
    all.AllClear? && true !in all.each && all.entered !! seen
  }

  lemma {:induction false} TypeMissing(w: World, file: string, t: Type, steps: seq<Step>, seen: Seen, n: nat)
    requires LookupType(w, file, t, steps, seen, n).Done? && LookupType(w, file, t, steps, seen, n).verdict == Missing
    ensures ReadType(w, file, t, steps, n).Clear? && !ReadType(w, file, t, steps, n).has
    ensures ReadType(w, file, t, steps, n).entered !! seen
    decreases n, 0
  {
    ReadMoves(w, file, t, steps, n);
    match MoveOf(w, file, t, steps)
    case Halt =>
    case IntoMembers(members) => MemberMissing(w, file, FindMember(members, steps[0].name), steps, seen, n - 1);
    case IntoParts(parts, union) =>
      AllMissing(LookupParts(w, file, parts, steps, seen, n - 1));
      PartsMissing(w, file, parts, steps, seen, n - 1);
      assert union ==> ReadParts(w, file, parts, steps, n - 1).each[0] == false;
    case Into(inner, next) => TypeMissing(w, file, inner, next, seen, n - 1);
    case Enter(id) => DeclMissing(w, id, steps, seen, n - 1);
  }

  lemma {:induction false} MemberMissing(w: World, file: string, found: Option<Member>, steps: seq<Step>, seen: Seen, n: nat)
    requires steps != [] && (found.Some? ==> found.value.Property?)
    requires LookupMember(w, file, found, steps, seen, n).Done? && LookupMember(w, file, found, steps, seen, n).verdict == Missing
    ensures var reading := ReadMember(w, file, found, steps, n);
      reading.Clear? && !reading.has && reading.entered !! seen
    decreases n, 1
  {
    if found.Some? {
      TypeMissing(w, file, found.value.type_.value, steps[1..], seen, n);
    }
  }

  lemma {:induction false} PartsMissing(w: World, file: string, parts: seq<Type>, steps: seq<Step>, seen: Seen, n: nat)
    requires LookupParts(w, file, parts, steps, seen, n).AllDone?
    requires forall v :: v in LookupParts(w, file, parts, steps, seen, n).verdicts ==> v == Missing
    ensures NoneHas(ReadParts(w, file, parts, steps, n), seen) && |ReadParts(w, file, parts, steps, n).each| == |parts|
    decreases n, 1 + |parts|
  {
    if parts != [] {
      var first := LookupType(w, file, parts[0], steps, seen, n);
      var rest := LookupParts(w, file, parts[1..], steps, first.seen, n);
      var verdicts := LookupParts(w, file, parts, steps, seen, n).verdicts;
      assert verdicts == [first.verdict] + rest.verdicts && verdicts[0] in verdicts;
      assert forall v :: v in rest.verdicts ==> v in verdicts;
      TypeMissing(w, file, parts[0], steps, seen, n);
      TypeAgrees(w, file, parts[0], steps, seen, n);
      PartsMissing(w, file, parts[1..], steps, first.seen, n);
    }
  }

  lemma {:induction false} DeclMissing(w: World, id: string, steps: seq<Step>, seen: Seen, n: nat)
    requires id in w.decls
    requires LookupDecl(w, id, steps, seen, n).Done? && LookupDecl(w, id, steps, seen, n).verdict == Missing
    ensures ReadDecl(w, id, steps, n).Clear? && !ReadDecl(w, id, steps, n).has
    ensures ReadDecl(w, id, steps, n).entered !! seen
    decreases n, 0
  {
    var file, seen' := w.decls[id].file, seen + {(id, |steps|)};
    match w.decls[id].decl
    case Enum =>
    case Alias(t) => TypeMissing(w, file, t, steps, seen', n - 1);
    case Interface(members, bases) =>
      var found := FindMember(members, steps[0].name);
      if found.Some? {
        MemberMissing(w, file, found, steps, seen', n - 1);
      } else {
        AllMissing(LookupBases(w, file, bases, steps, seen', n - 1));
        BasesMissing(w, file, bases, steps, seen', n - 1);
      }
  }

  lemma {:induction false} BasesMissing(w: World, file: string, bases: seq<Base>, steps: seq<Step>, seen: Seen, n: nat)
    requires LookupBases(w, file, bases, steps, seen, n).AllDone?
    requires bases != [] ==> forall v :: v in LookupBases(w, file, bases, steps, seen, n).verdicts ==> v == Missing
    ensures NoneHas(ReadBases(w, file, bases, steps, n), seen)
    decreases n, 2 + |bases|
  {
    if bases != [] {
      var first := LookupBase(w, file, bases[0], steps, seen, n);
      var rest := LookupBases(w, file, bases[1..], steps, first.seen, n);
      var verdicts := LookupBases(w, file, bases, steps, seen, n).verdicts;
      assert verdicts == [first.verdict] + rest.verdicts && verdicts[0] in verdicts;
      assert forall v :: v in rest.verdicts ==> v in verdicts;
      DeclMissing(w, w.Resolve(file, bases[0].name).value, steps, seen, n);
      DeclAgrees(w, w.Resolve(file, bases[0].name).value, steps, seen, n);
      BasesMissing(w, file, bases[1..], steps, first.seen, n);
    }
  }

  /** A path is reported missing exactly when the reading is clear and denies it. */
  lemma MissingIffClear(w: World, id: string, steps: seq<Step>, n: nat)
    requires id in w.decls
    ensures var outcome := LookupDecl(w, id, steps, {}, n); var reading := ReadDecl(w, id, steps, n);
      outcome.Done? && outcome.verdict == Missing <==> reading.Clear? && !reading.has
  {
    DeclAgrees(w, id, steps, {}, n);
    var outcome := LookupDecl(w, id, steps, {}, n);
    if outcome.Done? && outcome.verdict == Missing {
      DeclMissing(w, id, steps, {}, n);
    }
  }

  // ----- a declaration that comes up twice

  /** `interface Base {}`, `interface Left extends Base {}`, `interface Right extends Base {}`,
      `interface Diamond extends Left, Right {}`. */
  const DIAMOND: World := World(
    map["Base" := Declared("d.ts", Interface([], [])),
        "Left" := Declared("d.ts", Interface([], [Named("Base")])),
        "Right" := Declared("d.ts", Interface([], [Named("Base")])),
        "Diamond" := Declared("d.ts", Interface([], [Named("Left"), Named("Right")]))],
    map[("d.ts", "Base") := "Base", ("d.ts", "Left") := "Left", ("d.ts", "Right") := "Right"])

  /** Nothing declares `x`, whatever unseen types contain. */
  lemma DiamondHasNoX(c: Contents)
    ensures !DeclHas(DIAMOND, c, "Diamond", [Key("x")])
  {
    var x := [Key("x")];
    Bare("Base", c);
    forall side | side in {"Left", "Right"}
      ensures !DeclHas(DIAMOND, c, side, x)
    {
      Bare(side, c);
      assert DIAMOND.Resolve("d.ts", "Base") == Some("Base");
      BaseHasDecl(DIAMOND, c, "d.ts", Named("Base"), x);
    }
    Bare("Diamond", c);
    assert DIAMOND.Resolve("d.ts", "Left") == Some("Left") && DIAMOND.Resolve("d.ts", "Right") == Some("Right");
    BaseHasDecl(DIAMOND, c, "d.ts", Named("Left"), x);
    BaseHasDecl(DIAMOND, c, "d.ts", Named("Right"), x);
  }

  /** An interface without members has what its bases have. */
  lemma Bare(id: string, c: Contents)
    requires id in DIAMOND.decls
    ensures DIAMOND.decls[id].file == "d.ts" && DIAMOND.decls[id].decl.Interface?
    ensures DeclHas(DIAMOND, c, id, [Key("x")]) ==>
      exists b :: b in DIAMOND.decls[id].decl.bases && BaseHas(DIAMOND, c, "d.ts", b, [Key("x")])
  {
    var x := [Key("x")];
    InterfaceHas(DIAMOND, c, id, x);
    assert forall n: nat :: !MembersWithin(DIAMOND, c, "d.ts", [], x, n);
  }

  /** Entering `Base` for the first time, through `Left`. */
  lemma LeftIsMissing(fuel: nat)
    requires fuel >= 2
    ensures LookupDecl(DIAMOND, "Left", [Key("x")], {("Diamond", 1)}, fuel)
         == Done(Missing, {("Diamond", 1), ("Left", 1), ("Base", 1)})
  {
    var x, base := [Key("x")], [Named("Base")];
    var left := {("Diamond", 1)} + {("Left", 1)};
    var both := left + {("Base", 1)};
    assert DIAMOND.Resolve("d.ts", "Base") == Some("Base");
    assert LookupDecl(DIAMOND, "Base", x, left, fuel - 1) == Done(Missing, both);
    assert base[1..] == [];
    assert LookupBases(DIAMOND, "d.ts", base, x, left, fuel - 1) == AllDone([Missing], both);
  }

  /** Coming to `Base` again, through `Right`. */
  lemma RightIsUnknown(fuel: nat)
    requires fuel >= 2
    ensures LookupDecl(DIAMOND, "Right", [Key("x")], {("Diamond", 1), ("Left", 1), ("Base", 1)}, fuel)
         == Done(Unknown, {("Diamond", 1), ("Left", 1), ("Base", 1), ("Right", 1)})
  {
    var x, base := [Key("x")], [Named("Base")];
    var right := {("Diamond", 1), ("Left", 1), ("Base", 1)} + {("Right", 1)};
    assert DIAMOND.Resolve("d.ts", "Base") == Some("Base");
    assert LookupDecl(DIAMOND, "Base", x, right, fuel - 1) == Done(Unknown, right);
    assert base[1..] == [];
    assert LookupBases(DIAMOND, "d.ts", base, x, right, fuel - 1) == AllDone([Unknown], right);
  }

  /** The walk enters `Base` once through each side, takes the second time for a recursion, and does not report `x` missing. */
  lemma DiamondIsUnknown(fuel: nat)
    requires fuel >= 3
    ensures LookupDecl(DIAMOND, "Diamond", [Key("x")], {}, fuel).Done?
    ensures LookupDecl(DIAMOND, "Diamond", [Key("x")], {}, fuel).verdict == Unknown
  {
    var x, root, sides := [Key("x")], {("Diamond", 1)}, [Named("Left"), Named("Right")];
    var both := {("Diamond", 1), ("Left", 1), ("Base", 1)};
    assert DIAMOND.Resolve("d.ts", "Left") == Some("Left") && DIAMOND.Resolve("d.ts", "Right") == Some("Right");
    LeftIsMissing(fuel - 1);
    RightIsUnknown(fuel - 1);
    assert sides[1..] == [Named("Right")] && sides[1..][1..] == [];
    assert LookupBases(DIAMOND, "d.ts", sides[1..], x, both, fuel - 1) == AllDone([Unknown], both + {("Right", 1)});
    assert LookupBases(DIAMOND, "d.ts", sides, x, root, fuel - 1) == AllDone([Missing, Unknown], both + {("Right", 1)});
    assert DIAMOND.decls["Diamond"].decl == Interface([], sides) && {} + {("Diamond", |x|)} == root;
  }
}
