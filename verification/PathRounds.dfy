/** Rounds that a path keeps up by itself: on a cycle of declarations whose every member or element is asked for by a step
    that the cycle brings along, the walk has no choice, never comes back to an old length, and does not return. */
module PathRounds {
  import opened Basics
  import opened PathGrowth
  import opened PathLookup
  import opened TypeSyntax

  /** A declaration, and the steps known to be in front of the path there. */
  type Stage = (string, seq<Step>)

  /** Where a walk of `t` comes to without a choice, as far as the steps in front of the path decide it. */
  ghost function Ahead(w: World, file: string, t: Type, known: seq<Step>): Option<Stage>
    decreases t
  {
    if known == [] && Shift(t) < 0 then None
    else match MoveOf(w, file, t, known + [Element])
      case Halt => None
      case IntoMembers(members) =>
        var found := FindMember(members, (known + [Element])[0].name);
        if found.None? || found.value.type_.None? then None else Ahead(w, file, found.value.type_.value, known[1..])
      case IntoParts(_, _) => None
      case Into(inner, next) => Ahead(w, file, inner, next[..|next| - 1])
      case Enter(id) => Some((id, known))
  }

  /** The declaration a walk of `d` comes to next. */
  ghost function Next(w: World, d: string, known: seq<Step>): Option<Stage> {
    if d in w.decls then Ahead(w, w.decls[d].file, Body(w.decls[d].decl), known) else None
  }

  /** The steps behind those known make no difference. */
  lemma MoveAhead(w: World, file: string, t: Type, known: seq<Step>, rest: seq<Step>)
    requires rest != [] && !(known == [] && Shift(t) < 0)
    ensures var some, any := MoveOf(w, file, t, known + [Element]), MoveOf(w, file, t, known + rest);
      if some.Into? then some.next != [] && any == Into(some.inner, some.next[..|some.next| - 1] + rest)
      else any == some
  {
    var next := MoveOf(w, file, t, known + [Element]);
    if known != [] {
      assert (known + [Element])[0] == (known + rest)[0] == known[0];
      assert (known + [Element])[1..] == known[1..] + [Element] && (known + rest)[1..] == known[1..] + rest;
    }
    if t.Indexed? && t.key.Some? {
      assert [Key(t.key.value)] + (known + [Element]) == ([Key(t.key.value)] + known) + [Element];
      assert [Key(t.key.value)] + (known + rest) == ([Key(t.key.value)] + known) + rest;
    }
  }

  /** A walk of `t` that returns has returned from the declaration ahead. */
  lemma {:induction false} AheadReturned(w: World, file: string, t: Type, known: seq<Step>, rest: seq<Step>, seen: Seen, fuel: nat)
    returns (less: nat)
    requires rest != [] && Ahead(w, file, t, known).Some? && LookupType(w, file, t, known + rest, seen, fuel).Done?
    ensures var (id, steps) := Ahead(w, file, t, known).value;
      less < fuel && id in w.decls && LookupDecl(w, id, steps + rest, seen, less).Done?
    decreases t
  {
    MoveAhead(w, file, t, known, rest);
    match MoveOf(w, file, t, known + [Element])
    case Enter(_) => less := fuel - 1;
    case Into(inner, next) => less := AheadReturned(w, file, inner, next[..|next| - 1], rest, seen, fuel - 1);
    case IntoMembers(members) =>
      assert (known + rest)[0] == known[0] == (known + [Element])[0] && (known + rest)[1..] == known[1..] + rest;
      var found := FindMember(members, known[0].name);
      less := AheadReturned(w, file, found.value.type_.value, known[1..], rest, seen, fuel - 1);
  }

  /** A walk of a fresh declaration that returns has returned from the next one, its own key noted. */
  lemma NextReturned(w: World, d: string, known: seq<Step>, rest: seq<Step>, seen: Seen, fuel: nat) returns (less: nat)
    requires rest != [] && Next(w, d, known).Some? && (d, |known + rest|) !in seen
    requires LookupDecl(w, d, known + rest, seen, fuel).Done?
    ensures var (id, steps) := Next(w, d, known).value;
      less < fuel && id in w.decls && LookupDecl(w, id, steps + rest, seen + {(d, |known + rest|)}, less).Done?
  {
    var file, seen' := w.decls[d].file, seen + {(d, |known + rest|)};
    match w.decls[d].decl
    case Alias(t) => less := AheadReturned(w, file, t, known, rest, seen', fuel - 1);
    case Interface(members, _) =>
      assert (known + rest)[0] == known[0] == (known + [Element])[0] && (known + rest)[1..] == known[1..] + rest;
      var found := FindMember(members, known[0].name);
      less := AheadReturned(w, file, found.value.type_.value, known[1..], rest, seen', fuel - 1);
  }

  ghost predicate RoundShown(w: World, round: seq<Stage>, more: seq<Step>, shown: Shown) {
    forall i {:trigger round[i]} :: 0 <= i < |round| ==> Next(w, round[i].0, round[i].1) == Some(After(round, more, i))
  }

  /** From each stage the walk comes to the next, and from the last one to the first with `more` steps brought along. */
  ghost predicate IsRound(w: World, round: seq<Stage>, more: seq<Step>) {
    round != [] && more != [] && DistinctStages(round) && forall shown :: RoundShown(w, round, more, shown)
  }

  ghost predicate ReturnedShown(w: World, stage: Stage, rest: seq<Step>, seen: Seen, fuel: nat, shown: Shown) {
    stage.0 in w.decls && LookupDecl(w, stage.0, stage.1 + rest, seen, fuel).Done?
  }

  /** A walk of the stage, with `rest` behind the steps known, returns. */
  ghost predicate Returned(w: World, stage: Stage, rest: seq<Step>, seen: Seen, fuel: nat) {
    forall shown :: ReturnedShown(w, stage, rest, seen, fuel, shown)
  }

  ghost function After(round: seq<Stage>, more: seq<Step>, i: nat): Stage
    requires i < |round|
  {
    if i + 1 < |round| then round[i + 1] else (round[0].0, round[0].1 + more)
  }

  /** No stage has been seen at the length it comes up with next, or at a greater one. */
  ghost predicate Unvisited(round: seq<Stage>, more: seq<Step>, i: nat, rest: seq<Step>, seen: Seen) {
    forall j, m :: 0 <= j < |round| && (round[j].0, m) in seen ==>
      m < |round[j].1| + |rest| + if j < i then |more| else 0
  }

  ghost predicate DistinctStages(round: seq<Stage>) {
    forall i, j :: 0 <= i < j < |round| ==> round[i].0 != round[j].0
  }

  /** A stage noted at its length leaves the next one unvisited; behind the last one the path is longer by `more`. */
  lemma StageNoted(round: seq<Stage>, more: seq<Step>, i: nat, rest: seq<Step>, seen: Seen)
    requires i < |round| && more != [] && DistinctStages(round) && Unvisited(round, more, i, rest, seen)
    ensures var seen' := seen + {(round[i].0, |round[i].1 + rest|)};
      if i + 1 < |round| then Unvisited(round, more, i + 1, rest, seen') else Unvisited(round, more, 0, more + rest, seen')
  {
    var seen' := seen + {(round[i].0, |round[i].1 + rest|)};
    forall j, m | 0 <= j < |round| && (round[j].0, m) in seen'
      ensures m < |round[j].1| + |rest| + if j < i + 1 then |more| else 0
    {
      if (round[j].0, m) !in seen {
        assert j == i;
      }
    }
  }

  lemma StageReturned(w: World, round: seq<Stage>, more: seq<Step>, i: nat, rest: seq<Step>, seen: Seen, fuel: nat)
    returns (less: nat)
    requires IsRound(w, round, more) && i < |round| && rest != [] && Unvisited(round, more, i, rest, seen)
    requires Returned(w, round[i], rest, seen, fuel)
    ensures less < fuel && Returned(w, After(round, more, i), rest, seen + {(round[i].0, |round[i].1 + rest|)}, less)
  {
    assert RoundShown(w, round, more, Shown) && ReturnedShown(w, round[i], rest, seen, fuel, Shown);
    assert Next(w, round[i].0, round[i].1) == Some(After(round, more, i));
    less := NextReturned(w, round[i].0, round[i].1, rest, seen, fuel);
  }

  lemma BroughtAlong(w: World, first: Stage, more: seq<Step>, rest: seq<Step>, seen: Seen, fuel: nat)
    requires Returned(w, (first.0, first.1 + more), rest, seen, fuel)
    ensures Returned(w, first, more + rest, seen, fuel)
  {
    assert ReturnedShown(w, (first.0, first.1 + more), rest, seen, fuel, Shown);
    assert (first.1 + more) + rest == first.1 + (more + rest);
  }

  lemma {:induction false} RoundGoesOn(w: World, round: seq<Stage>, more: seq<Step>, i: nat, rest: seq<Step>, seen: Seen, fuel: nat)
    requires IsRound(w, round, more) && i < |round| && rest != [] && Unvisited(round, more, i, rest, seen)
    ensures !Returned(w, round[i], rest, seen, fuel)
    decreases fuel
  {
    if Returned(w, round[i], rest, seen, fuel) {
      var seen' := seen + {(round[i].0, |round[i].1 + rest|)};
      var less := StageReturned(w, round, more, i, rest, seen, fuel);
      StageNoted(round, more, i, rest, seen);
      if i + 1 < |round| {
        RoundGoesOn(w, round, more, i + 1, rest, seen', less);
      } else {
        BroughtAlong(w, round[0], more, rest, seen', less);
        RoundGoesOn(w, round, more, 0, more + rest, seen', less);
      }
    }
  }

  /** No walk along a round of its own returns. */
  lemma RoundsNeverReturn(w: World, round: seq<Stage>, more: seq<Step>, rest: seq<Step>, fuel: nat)
    requires IsRound(w, round, more) && rest != []
    ensures round[0].0 in w.decls && LookupDecl(w, round[0].0, round[0].1 + rest, {}, fuel).Exhausted?
  {
    assert RoundShown(w, round, more, Shown);
    assert Next(w, round[0].0, round[0].1).Some?;
    RoundGoesOn(w, round, more, 0, rest, {}, fuel);
  }

  /** `interface A { y: A['y']['y'] }`. */
  const SELF := Reference("A", false, [])
  const TWICE := Indexed(Indexed(SELF, Some("y")), Some("y"))
  const SELF_FED: World := World(
    map["A" := Declared("a.ts", Interface([Property("y", Some("y"), Some(TWICE))], []))],
    map[("a.ts", "A") := "A"])

  /** `y.q`, or any path behind `y`: each `y` taken off is replaced by two. */
  lemma SelfFedNeverReturns(rest: seq<Step>, fuel: nat)
    requires rest != []
    ensures LookupDecl(SELF_FED, "A", [Key("y")] + rest, {}, fuel).Exhausted?
  {
    var y := Key("y");
    var members := [Property("y", Some("y"), Some(TWICE))];
    assert Body(SELF_FED.decls["A"].decl) == Literal(members) && FindMember(members, "y") == Some(members[0]);
    assert SELF_FED.Resolve("a.ts", "A") == Some("A");
    assert Ahead(SELF_FED, "a.ts", SELF, [y, y]) == Some(("A", [y, y]));
    assert [y] + ([y] + [Element]) == [y, y] + [Element] && ([y, y] + [Element])[..2] == [y, y];
    assert Ahead(SELF_FED, "a.ts", Indexed(SELF, Some("y")), [y]) == Some(("A", [y, y]));
    assert [y] + ([] + [Element]) == [y] + [Element] && ([y] + [Element])[..1] == [y];
    assert Ahead(SELF_FED, "a.ts", TWICE, []) == Some(("A", [y, y]));
    assert [y][1..] == [] && ([y] + [Element])[0] == y;
    assert MoveOf(SELF_FED, "a.ts", Literal(members), [y] + [Element]) == IntoMembers(members);
    assert Ahead(SELF_FED, "a.ts", Literal(members), [y]) == Ahead(SELF_FED, "a.ts", TWICE, []);
    assert Next(SELF_FED, "A", [y]) == Ahead(SELF_FED, "a.ts", Literal(members), [y]);
    assert [y] + [y] == [y, y];
    RoundsNeverReturn(SELF_FED, [("A", [y])], [y], rest, fuel);
  }
}
