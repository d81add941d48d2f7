/** When a key that is nowhere declared is reported missing: a list, made without `seen` and without verdicts, of the
    declarations a path leads through, and the walk's verdict read off that list. */
module PathSurvey {
  import opened Basics
  import opened PathLookup
  import opened TypeSyntax

  type Entry = (string, nat)

  /** The (declaration, remaining length) pairs met, in order and with repetitions. `clean`: no place met was out of
      reach or declares the whole path. `whole`: nothing was cut off by the depth of the survey. */
  datatype Survey = Survey(entries: seq<Entry>, clean: bool, whole: bool)

  const NOTHING_MET := Survey([], true, true)
  const CUT_OFF := Survey([], true, false)
  const UNCLEAN := Survey([], false, true)

  function Then(a: Survey, b: Survey): Survey {
    Survey(a.entries + b.entries, a.clean && b.clean, a.whole && b.whole)
  }

  function SurveyType(w: World, file: string, t: Type, steps: seq<Step>, n: nat): Survey
    decreases n, 0
  {
    if steps == [] then UNCLEAN
    else if n == 0 then CUT_OFF
    else match t
      case Literal(members) =>
        if steps[0].Element? then UNCLEAN else SurveyMember(w, file, FindMember(members, steps[0].name), steps, n - 1)
      case Parenthesized(inner) => SurveyType(w, file, inner, steps, n - 1)
      case Intersection(parts) => SurveyParts(w, file, parts, steps, n - 1)
      case Union(parts) => if parts == [] then UNCLEAN else SurveyParts(w, file, parts, steps, n - 1)
      case ArrayOf(element) => if steps[0].Element? then SurveyType(w, file, element, steps[1..], n - 1) else UNCLEAN
      case Operator(_, inner) => SurveyType(w, file, inner, steps, n - 1)
      case Indexed(object_, key) => if key.Some? then SurveyType(w, file, object_, [Key(key.value)] + steps, n - 1) else UNCLEAN
      case Reference(head, qualified, args) =>
        if args != [] && head in PASSTHROUGH_WRAPPERS then SurveyType(w, file, args[0], steps, n - 1)
        else if args != [] && head in ARRAY_WRAPPERS then
          if steps[0].Element? then SurveyType(w, file, args[0], steps[1..], n - 1) else UNCLEAN
        else if !qualified && w.Resolve(file, head).Some? then SurveyDecl(w, w.Resolve(file, head).value, steps, n - 1)
        else UNCLEAN
      case Opaque(_) => UNCLEAN
  }

  function SurveyMove(w: World, file: string, move: Move, steps: seq<Step>, n: nat): Survey
    requires steps != [] && (move.IntoMembers? ==> steps[0].Key?) && (move.Enter? ==> move.id in w.decls)
  {
    match move
    case Halt => UNCLEAN
    case IntoMembers(members) => SurveyMember(w, file, FindMember(members, steps[0].name), steps, n)
    case IntoParts(parts, union) => if union && parts == [] then UNCLEAN else SurveyParts(w, file, parts, steps, n)
    case Into(inner, next) => SurveyType(w, file, inner, next, n)
    case Enter(id) => SurveyDecl(w, id, steps, n)
  }

  /** The survey of a type is that of what the walk goes on to. */
  lemma SurveyMoves(w: World, file: string, t: Type, steps: seq<Step>, n: nat)
    requires steps != [] && n > 0
    ensures SurveyType(w, file, t, steps, n) == SurveyMove(w, file, MoveOf(w, file, t, steps), steps, n - 1)
  {
  }

  function SurveyMember(w: World, file: string, found: Option<Member>, steps: seq<Step>, n: nat): Survey
    requires steps != [] && (found.Some? ==> found.value.Property?)
    decreases n, 1
  {
    if found.None? then NOTHING_MET
    else if |steps| == 1 || found.value.type_.None? then UNCLEAN
    else SurveyType(w, file, found.value.type_.value, steps[1..], n)
  }

  function SurveyParts(w: World, file: string, parts: seq<Type>, steps: seq<Step>, n: nat): Survey
    decreases n, 1 + |parts|
  {
    if parts == [] then NOTHING_MET
    else Then(SurveyType(w, file, parts[0], steps, n), SurveyParts(w, file, parts[1..], steps, n))
  }

  function SurveyDecl(w: World, id: string, steps: seq<Step>, n: nat): Survey
    requires id in w.decls
    decreases n, 0
  {
    var file, here := w.decls[id].file, Survey([(id, |steps|)], true, true);
    if steps == [] then UNCLEAN
    else if n == 0 then CUT_OFF
    else match w.decls[id].decl
      case Enum => UNCLEAN
      case Alias(t) => Then(here, SurveyType(w, file, t, steps, n - 1))
      case Interface(members, bases) =>
        if steps[0].Element? then Then(here, UNCLEAN)
        else if FindMember(members, steps[0].name).Some? then
          Then(here, SurveyMember(w, file, FindMember(members, steps[0].name), steps, n - 1))
        else Then(here, SurveyBases(w, file, bases, steps, n - 1))
  }

  function SurveyBase(w: World, file: string, base: Base, steps: seq<Step>, n: nat): Survey
    decreases n, 1
  {
    if base.Computed? || w.Resolve(file, base.name).None? then UNCLEAN
    else SurveyDecl(w, w.Resolve(file, base.name).value, steps, n)
  }

  function SurveyBases(w: World, file: string, bases: seq<Base>, steps: seq<Step>, n: nat): Survey
    decreases n, 2 + |bases|
  {
    if bases == [] then NOTHING_MET
    else Then(SurveyBase(w, file, bases[0], steps, n), SurveyBases(w, file, bases[1..], steps, n))
  }

  // ----- the walk, read off the survey

  ghost predicate NoRepeat(entries: seq<Entry>) {
    forall i, j :: 0 <= i < j < |entries| ==> entries[i] != entries[j]
  }

  ghost function Met(entries: seq<Entry>): Seen {
    set e | e in entries
  }

  /** No entry repeats another or was seen before. */
  ghost predicate Fresh(entries: seq<Entry>, seen: Seen) {
    NoRepeat(entries) && Met(entries) !! seen
  }

  lemma FreshThen(a: seq<Entry>, b: seq<Entry>, seen: Seen)
    ensures Fresh(a + b, seen) <==> Fresh(a, seen) && Fresh(b, seen + Met(a))
    ensures Met(a + b) == Met(a) + Met(b)
  {
    if Fresh(a + b, seen) {
      forall i, j | 0 <= i < j < |a|
        ensures a[i] != a[j]
      {
        assert (a + b)[i] == a[i] && (a + b)[j] == a[j];
      }
      forall i, j | 0 <= i < j < |b|
        ensures b[i] != b[j]
      {
        assert (a + b)[|a| + i] == b[i] && (a + b)[|a| + j] == b[j];
      }
      forall e | e in b
        ensures e !in seen + Met(a)
      {
        var j :| 0 <= j < |b| && b[j] == e;
        assert (a + b)[|a| + j] == e && e in Met(a + b);
        if e in a {
          var i :| 0 <= i < |a| && a[i] == e;
          assert (a + b)[i] == e;
        }
      }
      assert Met(a) <= Met(a + b);
    }
    if Fresh(a, seen) && Fresh(b, seen + Met(a)) {
      forall i, j | 0 <= i < j < |a + b|
        ensures (a + b)[i] != (a + b)[j]
      {
        assert j >= |a| ==> b[j - |a|] in Met(b);
        assert i < |a| ==> a[i] in Met(a);
      }
      assert Met(a + b) == Met(a) + Met(b);
    }
  }

  /** A walk whose survey is clean finds nothing; it returns `missing` only if every entry was fresh and none was cut off,
      and when every entry is fresh it returns exactly if none was cut off, and then with `missing`. */
  ghost predicate ReadOff(outcome: Outcome, survey: Survey, seen: Seen) {
    survey.clean ==>
      && (outcome.Done? ==> outcome.verdict != Found)
      && (outcome.Done? && outcome.verdict == Missing ==>
            survey.whole && Fresh(survey.entries, seen) && outcome.seen == seen + Met(survey.entries))
      && (Fresh(survey.entries, seen) ==>
            (outcome.Done? <==> survey.whole) && (outcome.Done? ==> outcome.verdict == Missing))
  }

  ghost predicate OnlyMissing(verdicts: seq<Verdict>) {
    forall v :: v in verdicts ==> v == Missing
  }

  ghost predicate AllReadOff(outcomes: Outcomes, survey: Survey, seen: Seen) {
    survey.clean ==>
      && (outcomes.AllDone? ==> Found !in outcomes.verdicts)
      && (outcomes.AllDone? && OnlyMissing(outcomes.verdicts) ==>
            survey.whole && Fresh(survey.entries, seen) && outcomes.seen == seen + Met(survey.entries))
      && (Fresh(survey.entries, seen) ==>
            (outcomes.AllDone? <==> survey.whole) && (outcomes.AllDone? ==> OnlyMissing(outcomes.verdicts)))
  }

  lemma EmptyReadOff(seen: Seen)
    ensures Fresh([], seen) && Met([]) == {} && seen + Met([]) == seen
  {
  }

  lemma CombineReadOff(verdicts: seq<Verdict>)
    requires Found !in verdicts
    ensures Combine(verdicts) != Found && (Combine(verdicts) == Missing <==> OnlyMissing(verdicts))
    ensures verdicts != [] ==> Agree(verdicts) != Found && (Agree(verdicts) == Missing <==> OnlyMissing(verdicts))
  {
    if verdicts != [] {
      assert verdicts[0] in verdicts;
    }
    if Unknown !in verdicts {
      forall v | v in verdicts
        ensures v == Missing
      {
        assert v != Found && v != Unknown;
      }
    }
  }

  lemma {:induction false} TypeReadOff(w: World, file: string, t: Type, steps: seq<Step>, seen: Seen, n: nat)
    ensures ReadOff(LookupType(w, file, t, steps, seen, n), SurveyType(w, file, t, steps, n), seen)
    decreases n, 0
  {
    EmptyReadOff(seen);
    if steps == [] || n == 0 {
      return;
    }
    SurveyMoves(w, file, t, steps, n);
    match MoveOf(w, file, t, steps)
    case Halt =>
    case IntoMembers(members) => MemberReadOff(w, file, FindMember(members, steps[0].name), steps, seen, n - 1);
    case IntoParts(parts, union) =>
      if !(union && parts == []) {
        PartsReadOff(w, file, parts, steps, seen, n - 1);
        Gathered(LookupParts(w, file, parts, steps, seen, n - 1), SurveyParts(w, file, parts, steps, n - 1), seen);
      }
    case Into(inner, next) => TypeReadOff(w, file, inner, next, seen, n - 1);
    case Enter(id) => DeclReadOff(w, id, steps, seen, n - 1);
  }

  lemma Gathered(outcomes: Outcomes, survey: Survey, seen: Seen)
    requires AllReadOff(outcomes, survey, seen)
    ensures ReadOff(if outcomes.SomeExhausted? then Exhausted else Done(Combine(outcomes.verdicts), outcomes.seen), survey, seen)
    ensures outcomes.AllDone? && outcomes.verdicts != [] ==>
      ReadOff(Done(Agree(outcomes.verdicts), outcomes.seen), survey, seen)
  {
    if survey.clean && outcomes.AllDone? {
      CombineReadOff(outcomes.verdicts);
    }
  }

  lemma {:induction false} MemberReadOff(w: World, file: string, found: Option<Member>, steps: seq<Step>, seen: Seen, n: nat)
    requires steps != [] && (found.Some? ==> found.value.Property?)
    ensures ReadOff(LookupMember(w, file, found, steps, seen, n), SurveyMember(w, file, found, steps, n), seen)
    decreases n, 1
  {
    EmptyReadOff(seen);
    if found.Some? && |steps| > 1 && found.value.type_.Some? {
      TypeReadOff(w, file, found.value.type_.value, steps[1..], seen, n);
    }
  }

  lemma OnlyMissingPrepend(v: Verdict, rest: seq<Verdict>)
    ensures OnlyMissing([v] + rest) <==> v == Missing && OnlyMissing(rest)
  {
    assert ([v] + rest)[0] == v;
    assert forall u :: u in [v] + rest <==> u == v || u in rest;
    if OnlyMissing([v] + rest) {
      assert v in [v] + rest;
      forall u | u in rest
        ensures u == Missing
      {
        assert u in [v] + rest;
      }
    }
  }

  /** One walk in front of others that start with what it has seen. */
  lemma FirstAndRest(first: Outcome, rest: Outcomes, a: Survey, b: Survey, seen: Seen)
    requires ReadOff(first, a, seen) && (first.Done? ==> AllReadOff(rest, b, first.seen))
    ensures AllReadOff(if first.Exhausted? || rest.SomeExhausted? then SomeExhausted
                       else AllDone([first.verdict] + rest.verdicts, rest.seen), Then(a, b), seen)
  {
    FreshThen(a.entries, b.entries, seen);
    if first.Done? && rest.AllDone? {
      OnlyMissingPrepend(first.verdict, rest.verdicts);
    }
    assert (seen + Met(a.entries)) + Met(b.entries) == seen + (Met(a.entries) + Met(b.entries));
  }

  lemma {:induction false} PartsReadOff(w: World, file: string, parts: seq<Type>, steps: seq<Step>, seen: Seen, n: nat)
    ensures AllReadOff(LookupParts(w, file, parts, steps, seen, n), SurveyParts(w, file, parts, steps, n), seen)
    ensures LookupParts(w, file, parts, steps, seen, n).AllDone? && parts != [] ==>
      LookupParts(w, file, parts, steps, seen, n).verdicts != []
    decreases n, 1 + |parts|
  {
    EmptyReadOff(seen);
    if parts != [] {
      var first := LookupType(w, file, parts[0], steps, seen, n);
      TypeReadOff(w, file, parts[0], steps, seen, n);
      var rest := SomeExhausted;
      if first.Done? {
        PartsReadOff(w, file, parts[1..], steps, first.seen, n);
        rest := LookupParts(w, file, parts[1..], steps, first.seen, n);
      }
      FirstAndRest(first, rest, SurveyType(w, file, parts[0], steps, n), SurveyParts(w, file, parts[1..], steps, n), seen);
    }
  }

  lemma {:induction false} DeclReadOff(w: World, id: string, steps: seq<Step>, seen: Seen, n: nat)
    requires id in w.decls
    ensures ReadOff(LookupDecl(w, id, steps, seen, n), SurveyDecl(w, id, steps, n), seen)
    decreases n, 0
  {
    EmptyReadOff(seen);
    if steps == [] || n == 0 || w.decls[id].decl.Enum? {
      return;
    }
    var file, key := w.decls[id].file, (id, |steps|);
    var seen' := seen + {key};
    match w.decls[id].decl
    case Alias(t) =>
      TypeReadOff(w, file, t, steps, seen', n - 1);
      Entered(key, LookupType(w, file, t, steps, seen', n - 1), SurveyType(w, file, t, steps, n - 1), seen);
    case Interface(members, bases) =>
      if steps[0].Key? {
        var found := FindMember(members, steps[0].name);
        if found.Some? {
          MemberReadOff(w, file, found, steps, seen', n - 1);
          Entered(key, LookupMember(w, file, found, steps, seen', n - 1), SurveyMember(w, file, found, steps, n - 1), seen);
        } else {
          BasesReadOff(w, file, bases, steps, seen', n - 1);
          var all := LookupBases(w, file, bases, steps, seen', n - 1);
          Gathered(all, SurveyBases(w, file, bases, steps, n - 1), seen');
          Entered(key, if all.SomeExhausted? then Exhausted else Done(Combine(all.verdicts), all.seen),
                  SurveyBases(w, file, bases, steps, n - 1), seen);
        }
      }
  }

  /** Entering a declaration in front of the walk of its body. */
  lemma Entered(key: Entry, body: Outcome, survey: Survey, seen: Seen)
    requires ReadOff(body, survey, seen + {key})
    ensures ReadOff(if key in seen then Done(Unknown, seen) else body, Then(Survey([key], true, true), survey), seen)
  {
    FreshThen([key], survey.entries, seen);
    assert Met([key]) == {key};
    assert (seen + {key}) + Met(survey.entries) == seen + ({key} + Met(survey.entries));
  }

  lemma {:induction false} BasesReadOff(w: World, file: string, bases: seq<Base>, steps: seq<Step>, seen: Seen, n: nat)
    ensures AllReadOff(LookupBases(w, file, bases, steps, seen, n), SurveyBases(w, file, bases, steps, n), seen)
    ensures bases == [] ==> LookupBases(w, file, bases, steps, seen, n) == AllDone([], seen)
    decreases n, 2 + |bases|
  {
    EmptyReadOff(seen);
    if bases != [] {
      var first := LookupBase(w, file, bases[0], steps, seen, n);
      if bases[0].Named? && w.Resolve(file, bases[0].name).Some? {
        DeclReadOff(w, w.Resolve(file, bases[0].name).value, steps, seen, n);
      }
      var rest := SomeExhausted;
      if first.Done? {
        BasesReadOff(w, file, bases[1..], steps, first.seen, n);
        rest := LookupBases(w, file, bases[1..], steps, first.seen, n);
      }
      FirstAndRest(first, rest, SurveyBase(w, file, bases[0], steps, n), SurveyBases(w, file, bases[1..], steps, n), seen);
    }
  }

  /** Where nothing is out of reach and nothing declares the path, a walk that returns reports it missing exactly when
      it would not lead through one declaration twice with as many steps left. */
  lemma MissingIffNoRepeat(w: World, id: string, steps: seq<Step>, n: nat)
    requires id in w.decls && SurveyDecl(w, id, steps, n).clean && LookupDecl(w, id, steps, {}, n).Done?
    ensures LookupDecl(w, id, steps, {}, n).verdict == Missing <==> NoRepeat(SurveyDecl(w, id, steps, n).entries)
  {
    DeclReadOff(w, id, steps, {}, n);
  }

  // ----- a path that is had somewhere shows in the survey

  lemma {:induction false} HadTypeUnclean(w: World, c: Contents, ids: set<string>, p: Premise, file: string, t: Type,
                                          steps: seq<Step>, m: nat, n: nat)
    requires p.AllSeen? && Meets(w, ids, p) && TypeMeets(w, ids, file, t, p) && StepsMeet(steps, p)
    requires HasWithin(w, c, file, t, steps, m) && m <= n
    ensures !SurveyType(w, file, t, steps, n).clean
    decreases n, 0
  {
    if steps == [] {
      return;
    }
    SurveyMoves(w, file, t, steps, n);
    if MoveOf(w, file, t, steps).Halt? {
      return;
    }
    MoveMeets(w, ids, p, file, t, steps);
    match MoveOf(w, file, t, steps)
    case IntoMembers(members) => HadMembersUnclean(w, c, ids, p, file, members, steps, m - 1, n - 1);
    case IntoParts(parts, union) =>
      var i := 0;
      if union {
        assert parts != [] ==> parts[0] in parts;
      } else {
        i :| 0 <= i < |parts| && HasWithin(w, c, file, parts[i], steps, m - 1);
      }
      if parts != [] {
        HadPartUnclean(w, c, ids, p, file, parts, i, steps, m - 1, n - 1);
      }
    case Into(inner, next) => HadTypeUnclean(w, c, ids, p, file, inner, next, m - 1, n - 1);
    case Enter(id) => HadDeclUnclean(w, c, ids, p, id, steps, m - 1, n - 1);
  }

  lemma {:induction false} HadPartUnclean(w: World, c: Contents, ids: set<string>, p: Premise, file: string, parts: seq<Type>, i: nat,
                                          steps: seq<Step>, m: nat, n: nat)
    requires i < |parts| && p.AllSeen? && Meets(w, ids, p) && TypeMeets(w, ids, file, parts[i], p) && StepsMeet(steps, p)
    requires HasWithin(w, c, file, parts[i], steps, m) && m <= n
    ensures !SurveyParts(w, file, parts, steps, n).clean
    decreases n, 1 + i
  {
    if i == 0 {
      HadTypeUnclean(w, c, ids, p, file, parts[0], steps, m, n);
    } else {
      HadPartUnclean(w, c, ids, p, file, parts[1..], i - 1, steps, m, n);
    }
  }

  lemma {:induction false} HadMembersUnclean(w: World, c: Contents, ids: set<string>, p: Premise, file: string, members: seq<Member>,
                                             steps: seq<Step>, m: nat, n: nat)
    requires steps != [] && steps[0].Key? && p.AllSeen? && Meets(w, ids, p) && MembersMeet(members, false, p) && StepsMeet(steps, p) && m <= n
    requires forall k :: k in members && k.Property? && k.type_.Some? ==> TypeMeets(w, ids, file, k.type_.value, p)
    requires MembersWithin(w, c, file, members, steps, m)
    ensures !SurveyMember(w, file, FindMember(members, steps[0].name), steps, n).clean
    decreases n, 1
  {
    var k :| k in members && MemberWithin(w, c, file, k, steps, m);
    OnlyFound(members, p, steps[0].name, k);
    if |steps| > 1 && k.type_.Some? {
      HadTypeUnclean(w, c, ids, p, file, k.type_.value, steps[1..], m - 1, n);
    }
  }

  lemma {:induction false} HadDeclUnclean(w: World, c: Contents, ids: set<string>, p: Premise, id: string, steps: seq<Step>, m: nat, n: nat)
    requires p.AllSeen? && Meets(w, ids, p) && id in ids && StepsMeet(steps, p) && DeclWithin(w, c, id, steps, m) && m <= n
    ensures !SurveyDecl(w, id, steps, n).clean
    decreases n, 0
  {
    if steps == [] {
      return;
    }
    var file := w.decls[id].file;
    assert DeclMeets(w, ids, id, p);
    match w.decls[id].decl
    case Enum =>
    case Alias(t) => HadTypeUnclean(w, c, ids, p, file, t, steps, m - 1, n - 1);
    case Interface(members, bases) =>
      if steps[0].Key? {
        if MembersWithin(w, c, file, members, steps, m - 1) {
          HadMembersUnclean(w, c, ids, p, file, members, steps, m - 1, n - 1);
          MembersFound(w, c, p, file, members, steps, m - 1);
        } else {
          NoneFound(members, p, steps[0].name);
          var i :| 0 <= i < |bases| && BaseWithin(w, c, file, bases[i], steps, m - 1);
          HadBaseUnclean(w, c, ids, p, file, bases, i, steps, m - 1, n - 1);
        }
      }
  }

  lemma NoneFound(members: seq<Member>, p: Premise, key: string)
    requires p.AllSeen? && MembersMeet(members, false, p) && key in p.keys && forall m :: m in members ==> !Declares(m, key)
    ensures FindMember(members, key).None?
  {
    assert forall m :: m in members && m.Property? && m.text == key ==> !Legible(m);
  }

  lemma MembersFound(w: World, c: Contents, p: Premise, file: string, members: seq<Member>, steps: seq<Step>, m: nat)
    requires steps != [] && steps[0].Key? && p.AllSeen? && MembersMeet(members, false, p) && StepsMeet(steps, p)
    requires MembersWithin(w, c, file, members, steps, m)
    ensures FindMember(members, steps[0].name).Some?
  {
    var k :| k in members && MemberWithin(w, c, file, k, steps, m);
    OnlyFound(members, p, steps[0].name, k);
  }

  lemma {:induction false} HadBaseUnclean(w: World, c: Contents, ids: set<string>, p: Premise, file: string, bases: seq<Base>, i: nat,
                                          steps: seq<Step>, m: nat, n: nat)
    requires i < |bases| && p.AllSeen? && Meets(w, ids, p) && StepsMeet(steps, p) && BaseWithin(w, c, file, bases[i], steps, m) && m <= n
    requires bases[i].Named? && w.Resolve(file, bases[i].name).Some? ==> w.Resolve(file, bases[i].name).value in ids
    ensures !SurveyBases(w, file, bases, steps, n).clean
    decreases n, 1 + i
  {
    if i == 0 {
      if bases[0].Named? && w.Resolve(file, bases[0].name).Some? {
        HadDeclUnclean(w, c, ids, p, w.Resolve(file, bases[0].name).value, steps, m - 1, n);
      }
    } else {
      HadBaseUnclean(w, c, ids, p, file, bases[1..], i - 1, steps, m, n);
    }
  }

  /** A path whose surveys are clean at every depth is had by nothing, where all that may declare its keys is seen. */
  lemma CleanIsAbsent(w: World, ids: set<string>, p: Premise, id: string, steps: seq<Step>)
    requires p.AllSeen? && Meets(w, ids, p) && id in ids && StepsMeet(steps, p) && forall n: nat :: SurveyDecl(w, id, steps, n).clean
    ensures forall c: Contents :: !DeclHas(w, c, id, steps)
  {
    forall c: Contents, m: nat
      ensures !DeclWithin(w, c, id, steps, m)
    {
      if DeclWithin(w, c, id, steps, m) {
        HadDeclUnclean(w, c, ids, p, id, steps, m, m);
      }
    }
  }
}
