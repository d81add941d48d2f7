/** Where `lookupPath` is wrong: of a member list it looks at property signatures only and compares the spelling of a
    name with the key, and it sees through every type operator. */
module PathBlindSpots {
  import opened Basics
  import opened PathLookup
  import opened TypeSyntax

  function Everything(place: Unseen, steps: seq<Step>): bool { true }

  function Nothing(place: Unseen, steps: seq<Step>): bool { false }

  /** When the members have the key, under contents `c`: one declares it, or may declare it and does under `c`. */
  lemma KeyHad(w: World, c: Contents, file: string, members: seq<Member>, key: string)
    ensures Has(w, c, file, Literal(members), [Key(key)]) <==>
      exists m :: m in members && if Hidden(m) then c(AtMember(file, m), [Key(key)]) else Declares(m, key)
  {
    var steps := [Key(key)];
    LiteralHas(w, c, file, Literal(members), steps);
    if MembersHave(w, c, file, members, steps) {
      var n: nat :| MembersWithin(w, c, file, members, steps, n);
      var m :| m in members && MemberWithin(w, c, file, m, steps, n);
    }
    if m :| m in members && if Hidden(m) then c(AtMember(file, m), steps) else Declares(m, key) {
      assert MemberWithin(w, c, file, m, steps, 0);
      assert MembersWithin(w, c, file, members, steps, 0);
    }
  }

  /** For one key of one type literal: `missing` is right, whatever unspelled names stand for, exactly when no member
      declares the key or may declare it; `found` is right exactly when some member declares it. */
  lemma LiteralRightIff(w: World, file: string, members: seq<Member>, key: string, seen: Seen, fuel: nat)
    requires fuel > 0
    ensures LookupType(w, file, Literal(members), [Key(key)], seen, fuel)
         == Done(if FindMember(members, key).Some? then Found else Missing, seen)
    ensures (forall c: Contents :: !Has(w, c, file, Literal(members), [Key(key)])) <==>
      (forall m :: m in members ==> !May(m, key))
    ensures (forall c: Contents :: Has(w, c, file, Literal(members), [Key(key)])) <==>
      (exists m :: m in members && Declares(m, key))
  {
    var t, steps := Literal(members), [Key(key)];
    KeyHad(w, Everything, file, members, key);
    KeyHad(w, Nothing, file, members, key);
    forall c: Contents
      ensures Has(w, c, file, t, steps) <==>
        exists m :: m in members && if Hidden(m) then c(AtMember(file, m), steps) else Declares(m, key)
    {
      KeyHad(w, c, file, members, key);
    }
    if !(forall m :: m in members ==> !May(m, key)) {
      assert Has(w, Everything, file, t, steps);
    }
    if forall c: Contents :: Has(w, c, file, t, steps) {
      assert Has(w, Nothing, file, t, steps);
    }
  }

  const ON_EVENT := OtherMember(0, Some({"onEvent"}))

  /** `interface C { onEvent(): void }`. */
  const METHOD: World := World(map["C" := Declared("c.ts", Interface([ON_EVENT], []))], map[])

  /** The interface has `onEvent` and nothing else, whatever is unseen; the method is reported missing all the same. */
  lemma MethodReportedMissing(key: string, fuel: nat)
    requires fuel >= 2
    ensures LookupDecl(METHOD, "C", [Key(key)], {}, fuel) == Done(Missing, {("C", 1)})
    ensures forall c: Contents :: DeclHas(METHOD, c, "C", [Key(key)]) <==> key == "onEvent"
  {
    var steps := [Key(key)];
    assert METHOD.decls["C"].decl == Interface([ON_EVENT], []);
    assert {} + {("C", |steps|)} == {("C", 1)};
    forall c: Contents
      ensures DeclHas(METHOD, c, "C", steps) <==> key == "onEvent"
    {
      InterfaceHas(METHOD, c, "C", steps);
      KeyHad(METHOD, c, "c.ts", [ON_EVENT], key);
      LiteralHas(METHOD, c, "c.ts", Literal([ON_EVENT]), steps);
      assert ON_EVENT in [ON_EVENT];
    }
  }

  const QUOTED := Property("'max-age'", Some("max-age"), None)

  /** `{ 'max-age': number }` declares `max-age`, which is reported missing, and not `'max-age'`, which is found. */
  lemma QuotedNameMisread(w: World, file: string, fuel: nat)
    requires fuel > 0
    ensures LookupType(w, file, Literal([QUOTED]), [Key("max-age")], {}, fuel) == Done(Missing, {})
    ensures forall c: Contents :: Has(w, c, file, Literal([QUOTED]), [Key("max-age")])
    ensures LookupType(w, file, Literal([QUOTED]), [Key("'max-age'")], {}, fuel) == Done(Found, {})
    ensures forall c: Contents :: !Has(w, c, file, Literal([QUOTED]), [Key("'max-age'")])
  {
    LiteralRightIff(w, file, [QUOTED], "max-age", {}, fuel);
    LiteralRightIff(w, file, [QUOTED], "'max-age'", {}, fuel);
    assert QUOTED in [QUOTED] && Declares(QUOTED, "max-age");
    assert |"max-age"| != |"'max-age'"|;
    assert FindMember([QUOTED], "max-age") == None && FindMember([QUOTED], "'max-age'") == Some(QUOTED);
  }

  const KEYS_OF_X := Operator(false, Literal([Property("x", Some("x"), None)]))

  /** `keyof { x: any }` is a set of strings and need not have a member `x`, which is reported found. */
  lemma KeyofReportedFound(w: World, file: string, fuel: nat)
    requires fuel >= 2
    ensures LookupType(w, file, KEYS_OF_X, [Key("x")], {}, fuel) == Done(Found, {})
    ensures exists c: Contents :: !Has(w, c, file, KEYS_OF_X, [Key("x")])
  {
    assert LookupType(w, file, KEYS_OF_X.inner, [Key("x")], {}, fuel - 1) == Done(Found, {});
    assert !Has(w, Nothing, file, KEYS_OF_X, [Key("x")]);
  }
}
