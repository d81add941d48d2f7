/** How entering one declaration from another changes the length of the path: an indexed access adds a step, a member or
    an array element takes one away. Only members and elements that are asked for are followed. Where no cycle of
    declarations lengthens the path, its length is bounded. */
module PathGrowth {
  import opened Basics
  import opened TypeSyntax

  // ----- what a walk of a type can go on to

  /** A walk that only ever asks for the steps `asked` can go into the type of `m`. */
  ghost predicate Asked(asked: iset<Step>, m: Member) {
    m.Property? && m.type_.Some? && Key(m.text) in asked
  }

  /** The types of those of the first `n` members that are asked for. */
  ghost function MemberTypes(asked: iset<Step>, t: Type, n: nat): (kids: seq<Type>)
    requires t.Literal? && n <= |t.members|
    ensures forall k :: k in kids ==> k < t
    ensures forall m :: m in t.members[..n] && Asked(asked, m) ==> m.type_.value in kids
  {
    if n == 0 then []
    else
      var m := t.members[n - 1];
      assert t.members[..n] == t.members[..n - 1] + [m];
      MemberTypes(asked, t, n - 1) + if Asked(asked, m) then [m.type_.value] else []
  }

  /** The type nodes a walk of `t` can step into. */
  ghost function Kids(asked: iset<Step>, t: Type): (kids: seq<Type>)
    ensures forall k :: k in kids ==> k < t
  {
    match t
    case Literal(members) => MemberTypes(asked, t, |members|)
    case Parenthesized(inner) => [inner]
    case Intersection(parts) => parts
    case Union(parts) => parts
    case ArrayOf(element) => if Element in asked then [element] else []
    case Operator(_, inner) => [inner]
    case Indexed(object_, key) => if key.Some? then [object_] else []
    case Reference(head, _, args) =>
      if head in PASSTHROUGH_WRAPPERS && args != [] then [args[0]]
      else if head in ARRAY_WRAPPERS && args != [] && Element in asked then [args[0]]
      else []
    case Opaque(_) => []
  }

  ghost const ANYTHING: iset<Step> := iset s: Step | true

  /** Whatever is asked for, the kids are among those of a walk that asks for anything. */
  lemma MemberTypesAmongAll(asked: iset<Step>, t: Type, n: nat)
    requires t.Literal? && n <= |t.members|
    ensures forall k :: k in MemberTypes(asked, t, n) ==> k in MemberTypes(ANYTHING, t, n)
  {
  }

  lemma KidsAmongAll(asked: iset<Step>, t: Type)
    ensures forall k :: k in Kids(asked, t) ==> k in Kids(ANYTHING, t)
  {
    if t.Literal? {
      MemberTypesAmongAll(asked, t, |t.members|);
    }
  }

  /** An indexed access somewhere in `t` puts `s` in front of the path. */
  ghost predicate Prefixes(t: Type, s: Step)
    decreases t
  {
    || (t.Indexed? && t.key.Some? && s == Key(t.key.value))
    || exists k :: k in Kids(ANYTHING, t) && Prefixes(k, s)
  }

  /** Everything a walk for `steps` can ask for: its own steps and the keys of indexed accesses. */
  ghost function AskedFor(w: World, steps: seq<Step>): iset<Step> {
    iset s: Step | s in steps || exists d :: d in w.decls && Prefixes(Body(w.decls[d].decl), s)
  }

  /** How much longer the path is in the kids of `t`. */
  function Shift(t: Type): int {
    match t
    case Indexed(_, _) => 1
    case Literal(_) => -1
    case ArrayOf(_) => -1
    case Reference(head, _, _) => if head in ARRAY_WRAPPERS then -1 else 0
    case _ => 0
  }

  /** The declaration a walk of `t` enters directly. */
  ghost function Target(w: World, file: string, t: Type): Option<string> {
    if t.Reference? && !(t.head in PASSTHROUGH_WRAPPERS + ARRAY_WRAPPERS && t.args != []) && !t.qualified
    then w.Resolve(file, t.head) else None
  }

  /** `t` refers to `e` at a place where the path is `delta` steps longer than at `t`. */
  ghost predicate Occurs(w: World, asked: iset<Step>, file: string, t: Type, e: string, delta: int)
    decreases t
  {
    || (Target(w, file, t) == Some(e) && delta == 0)
    || exists k :: k in Kids(asked, t) && Occurs(w, asked, file, k, e, delta - Shift(t))
  }

  /** The body of a declaration, its members or its aliased type, as one type. */
  ghost function Body(d: Decl): Type {
    match d
    case Interface(members, _) => Literal(members)
    case Alias(t) => t
    case Enum => Opaque(0)
  }

  ghost predicate BaseOf(w: World, d: string, e: string)
    requires d in w.decls
  {
    var declared := w.decls[d];
    declared.decl.Interface? && exists b :: b in declared.decl.bases && b.Named? && w.Resolve(declared.file, b.name) == Some(e)
  }

  ghost predicate LinkShown(w: World, asked: iset<Step>, d: string, e: string, delta: int, shown: Shown)
    requires d in w.decls
  {
    Occurs(w, asked, w.decls[d].file, Body(w.decls[d].decl), e, delta) || (BaseOf(w, d, e) && delta == 0)
  }

  /** Declaration `d` leads to `e` with a path `delta` steps longer. */
  ghost predicate Link(w: World, asked: iset<Step>, d: string, e: string, delta: int) {
    d in w.decls && e in w.decls && forall shown :: LinkShown(w, asked, d, e, delta, shown)
  }

  // ----- routes through declarations

  type Route = seq<(string, int)>

  ghost predicate Leads(w: World, asked: iset<Step>, d: string, route: Route, e: string)
    decreases |route|
  {
    if route == [] then d == e && d in w.decls
    else Link(w, asked, d, route[0].0, route[0].1) && Leads(w, asked, route[0].0, route[1..], e)
  }

  ghost function Growth(route: Route): int {
    if route == [] then 0 else route[0].1 + Growth(route[1..])
  }

  /** No way from a declaration back to itself lengthens the path, when only `asked` is followed. */
  ghost predicate NoGrowingCycle(w: World, asked: iset<Step>) {
    forall d, route :: Leads(w, asked, d, route, d) ==> Growth(route) <= 0
  }

  lemma {:induction false} OccursAmongAll(w: World, asked: iset<Step>, file: string, t: Type, e: string, delta: int)
    requires Occurs(w, asked, file, t, e, delta)
    ensures Occurs(w, ANYTHING, file, t, e, delta)
    decreases t
  {
    if !(Target(w, file, t) == Some(e) && delta == 0) {
      var k :| k in Kids(asked, t) && Occurs(w, asked, file, k, e, delta - Shift(t));
      KidsAmongAll(asked, t);
      OccursAmongAll(w, asked, file, k, e, delta - Shift(t));
    }
  }

  lemma {:induction false} LeadsAmongAll(w: World, asked: iset<Step>, d: string, route: Route, e: string)
    requires Leads(w, asked, d, route, e)
    ensures Leads(w, ANYTHING, d, route, e)
    decreases |route|
  {
    if route != [] {
      assert LinkShown(w, asked, d, route[0].0, route[0].1, Shown);
      if Occurs(w, asked, w.decls[d].file, Body(w.decls[d].decl), route[0].0, route[0].1) {
        OccursAmongAll(w, asked, w.decls[d].file, Body(w.decls[d].decl), route[0].0, route[0].1);
      }
      LeadsAmongAll(w, asked, route[0].0, route[1..], e);
    }
  }

  /** A world in which no cycle grows has none that grows for some keys. */
  lemma NoneGrowsForAny(w: World, asked: iset<Step>)
    requires NoGrowingCycle(w, ANYTHING)
    ensures NoGrowingCycle(w, asked)
  {
    forall d, route | Leads(w, asked, d, route, d)
      ensures Growth(route) <= 0
    {
      LeadsAmongAll(w, asked, d, route, d);
    }
  }

  /** The declaration a route from `d` has reached after `i` links. */
  ghost function Stop(d: string, route: Route, i: nat): string
    requires i <= |route|
  {
    if i == 0 then d else route[i - 1].0
  }

  lemma {:induction false} GrowthConcat(a: Route, b: Route)
    ensures Growth(a + b) == Growth(a) + Growth(b)
  {
    if a == [] {
      assert a + b == b;
    } else {
      GrowthConcat(a[1..], b);
      assert (a + b)[1..] == a[1..] + b;
    }
  }

  lemma {:induction false} LeadsConcat(w: World, asked: iset<Step>, d: string, a: Route, e: string, b: Route, f: string)
    requires Leads(w, asked, d, a, e) && Leads(w, asked, e, b, f)
    ensures Leads(w, asked, d, a + b, f)
    decreases |a|
  {
    if a == [] {
      assert a + b == b;
    } else {
      LeadsConcat(w, asked, a[0].0, a[1..], e, b, f);
      assert (a + b)[1..] == a[1..] + b;
    }
  }

  lemma {:induction false} LeadsSplit(w: World, asked: iset<Step>, d: string, route: Route, e: string, i: nat)
    requires Leads(w, asked, d, route, e) && i <= |route|
    ensures Leads(w, asked, d, route[..i], Stop(d, route, i)) && Leads(w, asked, Stop(d, route, i), route[i..], e)
    ensures Stop(d, route, i) in w.decls
    decreases |route|
  {
    if i == 0 {
      assert route[..0] == [] && route[0..] == route;
    } else {
      LeadsSplit(w, asked, route[0].0, route[1..], e, i - 1);
      assert Stop(route[0].0, route[1..], i - 1) == Stop(d, route, i);
      assert route[..i][1..] == route[1..][..i - 1] && route[1..][i - 1..] == route[i..];
    }
  }

  lemma {:induction false} Repeats(s: seq<string>, names: set<string>) returns (i: nat, j: nat)
    requires (forall x :: x in s ==> x in names) && |s| > |names|
    ensures i < j < |s| && s[i] == s[j]
    decreases |s|
  {
    if s[0] in s[1..] {
      i := 0;
      var k: nat :| k < |s[1..]| && s[1..][k] == s[0];
      j := k + 1;
    } else {
      forall x | x in s[1..]
        ensures x in names - {s[0]}
      {
      }
      i, j := Repeats(s[1..], names - {s[0]});
      i, j := i + 1, j + 1;
    }
  }

  /** Cutting cycles out of a route shortens it and loses no growth. */
  lemma {:induction false} ShortRoute(w: World, asked: iset<Step>, d: string, route: Route, e: string) returns (short: Route)
    requires NoGrowingCycle(w, asked) && Leads(w, asked, d, route, e)
    ensures Leads(w, asked, d, short, e) && Growth(short) >= Growth(route) && |short| <= |w.decls|
    decreases |route|
  {
    short := route;
    if |route| > |w.decls| {
      var stops := seq(|route|, i requires 0 <= i < |route| => Stop(d, route, i));
      forall x | x in stops
        ensures x in w.decls.Keys
      {
        var i: nat :| i < |stops| && stops[i] == x;
        LeadsSplit(w, asked, d, route, e, i);
      }
      assert |w.decls.Keys| == |w.decls|;
      var i, j := Repeats(stops, w.decls.Keys);
      short := CutCycle(w, asked, d, route, e, i, j);
      short := ShortRoute(w, asked, d, short, e);
    }
  }

  /** A route that stops twice at one declaration, in three parts. */
  lemma RoundInside(w: World, asked: iset<Step>, d: string, route: Route, e: string, i: nat, j: nat)
    requires Leads(w, asked, d, route, e) && i < j <= |route| && Stop(d, route, i) == Stop(d, route, j)
    ensures var x := Stop(d, route, i);
      Leads(w, asked, d, route[..i], x) && Leads(w, asked, x, route[i..j], x) && Leads(w, asked, x, route[j..], e)
  {
    LeadsSplit(w, asked, d, route, e, i);
    LeadsSplit(w, asked, d, route, e, j);
    LeadsSplit(w, asked, d, route[..j], Stop(d, route, j), i);
    assert route[..j][..i] == route[..i] && route[..j][i..] == route[i..j] && Stop(d, route[..j], i) == Stop(d, route, i);
  }

  lemma RoundShrinks(w: World, asked: iset<Step>, d: string, round: Route)
    requires NoGrowingCycle(w, asked) && Leads(w, asked, d, round, d)
    ensures Growth(round) <= 0
  {
  }

  lemma CutCycle(w: World, asked: iset<Step>, d: string, route: Route, e: string, i: nat, j: nat) returns (short: Route)
    requires NoGrowingCycle(w, asked) && Leads(w, asked, d, route, e) && i < j <= |route| && Stop(d, route, i) == Stop(d, route, j)
    ensures Leads(w, asked, d, short, e) && Growth(short) >= Growth(route) && |short| < |route|
  {
    var x := Stop(d, route, i);
    var head, middle, tail := route[..i], route[i..j], route[j..];
    RoundInside(w, asked, d, route, e, i, j);
    RoundShrinks(w, asked, x, middle);
    short := head + tail;
    LeadsConcat(w, asked, d, head, x, tail, e);
    assert route == head + middle + tail;
    GrowthOfThree(head, middle, tail);
    assert Growth(short) == Growth(route) - Growth(middle);
  }

  lemma GrowthOfThree(head: Route, middle: Route, tail: Route)
    ensures Growth(head + middle + tail) == Growth(head + tail) + Growth(middle)
  {
    GrowthConcat(head, tail);
    GrowthConcat(head, middle);
    GrowthConcat(head + middle, tail);
  }

  // ----- depth bounds the growth of one link

  /** No chain of kids of `t` is longer than `d`. */
  ghost predicate DepthWithin(asked: iset<Step>, t: Type, d: nat)
    decreases t
  {
    d > 0 && forall k :: k in Kids(asked, t) ==> DepthWithin(asked, k, d - 1)
  }

  lemma {:induction false} DepthGrows(asked: iset<Step>, t: Type, d: nat, e: nat)
    requires DepthWithin(asked, t, d) && d <= e
    ensures DepthWithin(asked, t, e)
    decreases t
  {
    forall k | k in Kids(asked, t)
      ensures DepthWithin(asked, k, e - 1)
    {
      DepthGrows(asked, k, d - 1, e - 1);
    }
  }

  lemma {:induction false} SomeDepth(asked: iset<Step>, t: Type) returns (d: nat)
    ensures DepthWithin(asked, t, d)
    decreases t, 1, 0
  {
    d := SomeKidsDepth(asked, t, Kids(asked, t));
    d := d + 1;
  }

  lemma {:induction false} SomeKidsDepth(asked: iset<Step>, t: Type, kids: seq<Type>) returns (d: nat)
    requires forall k :: k in kids ==> k < t
    ensures forall k :: k in kids ==> DepthWithin(asked, k, d)
    decreases t, 0, |kids|
  {
    d := 0;
    if kids != [] {
      assert kids[0] in kids;
      var a := SomeDepth(asked, kids[0]);
      assert forall k :: k in kids[1..] ==> k in kids;
      var b := SomeKidsDepth(asked, t, kids[1..]);
      d := if a < b then b else a;
      forall k | k in kids
        ensures DepthWithin(asked, k, d)
      {
        if k == kids[0] {
          DepthGrows(asked, k, a, d);
        } else {
          assert k in kids[1..];
          DepthGrows(asked, k, b, d);
        }
      }
    }
  }

  ghost predicate AllWithin(w: World, asked: iset<Step>, ids: set<string>, depth: nat)
    requires ids <= w.decls.Keys
  {
    forall id :: id in ids ==> DepthWithin(asked, Body(w.decls[id].decl), depth)
  }

  /** One depth that bounds every body. */
  lemma {:induction false} CommonDepth(w: World, asked: iset<Step>, ids: set<string>) returns (d: nat)
    requires ids <= w.decls.Keys
    ensures AllWithin(w, asked, ids, d)
    decreases ids
  {
    d := 0;
    if id :| id in ids {
      var a := SomeDepth(asked, Body(w.decls[id].decl));
      var b := CommonDepth(w, asked, ids - {id});
      d := if a < b then b else a;
      forall e | e in ids
        ensures DepthWithin(asked, Body(w.decls[e].decl), d)
      {
        DepthGrows(asked, Body(w.decls[e].decl), if e == id then a else b, d);
      }
    }
  }

  lemma {:induction false} OccursWithin(w: World, asked: iset<Step>, file: string, t: Type, e: string, delta: int, d: nat)
    requires Occurs(w, asked, file, t, e, delta) && DepthWithin(asked, t, d)
    ensures delta < d
    decreases t
  {
    if !(Target(w, file, t) == Some(e) && delta == 0) {
      var k :| k in Kids(asked, t) && Occurs(w, asked, file, k, e, delta - Shift(t));
      OccursWithin(w, asked, file, k, e, delta - Shift(t), d - 1);
    }
  }

  /** `n` links with at most `depth` each. */
  ghost function Times(n: nat, depth: nat): nat {
    if n == 0 then 0 else Times(n - 1, depth) + depth
  }

  lemma {:induction false} TimesMonotone(a: nat, b: nat, depth: nat)
    requires a <= b
    ensures Times(a, depth) <= Times(b, depth)
  {
    if a < b {
      TimesMonotone(a, b - 1, depth);
    }
  }

  lemma {:induction false} GrowthWithin(w: World, asked: iset<Step>, d: string, route: Route, e: string, depth: nat)
    requires Leads(w, asked, d, route, e) && AllWithin(w, asked, w.decls.Keys, depth)
    ensures Growth(route) <= Times(|route|, depth)
    decreases |route|
  {
    if route != [] {
      assert LinkShown(w, asked, d, route[0].0, route[0].1, Shown);
      if Occurs(w, asked, w.decls[d].file, Body(w.decls[d].decl), route[0].0, route[0].1) {
        OccursWithin(w, asked, w.decls[d].file, Body(w.decls[d].decl), route[0].0, route[0].1, depth);
      }
      GrowthWithin(w, asked, route[0].0, route[1..], e, depth);
    }
  }

  // ----- the most a path can grow from a declaration on

  /** Some route from `d` grows by `x`. */
  ghost predicate Attained(w: World, asked: iset<Step>, d: string, x: int) {
    exists route, e :: Leads(w, asked, d, route, e) && Growth(route) == x
  }

  ghost predicate IsRise(w: World, asked: iset<Step>, d: string, rise: nat) {
    Attained(w, asked, d, rise) && forall x :: Attained(w, asked, d, x) ==> x <= rise
  }

  lemma StayingPut(w: World, asked: iset<Step>, d: string)
    requires d in w.decls
    ensures Attained(w, asked, d, 0)
  {
    assert Leads(w, asked, d, [], d) && Growth([]) == 0;
  }

  lemma {:induction false} GreatestAttained(w: World, asked: iset<Step>, d: string, bound: nat) returns (rise: nat)
    requires d in w.decls && forall x :: Attained(w, asked, d, x) ==> x <= bound
    ensures IsRise(w, asked, d, rise)
    decreases bound
  {
    StayingPut(w, asked, d);
    rise := bound;
    if !Attained(w, asked, d, bound) {
      rise := GreatestAttained(w, asked, d, bound - 1);
    }
  }

  lemma RiseExists(w: World, asked: iset<Step>, d: string)
    requires NoGrowingCycle(w, asked) && d in w.decls
    ensures exists rise: nat :: IsRise(w, asked, d, rise)
  {
    var depth := CommonDepth(w, asked, w.decls.Keys);
    var bound := Times(|w.decls|, depth);
    forall x | Attained(w, asked, d, x)
      ensures x <= bound
    {
      var route, e :| Leads(w, asked, d, route, e) && Growth(route) == x;
      var short := ShortRoute(w, asked, d, route, e);
      GrowthWithin(w, asked, d, short, e, depth);
      TimesMonotone(|short|, |w.decls|, depth);
    }
    var rise := GreatestAttained(w, asked, d, bound);
  }

  ghost function Rise(w: World, asked: iset<Step>, d: string): (rise: nat)
    requires NoGrowingCycle(w, asked) && d in w.decls
    ensures IsRise(w, asked, d, rise)
  {
    RiseExists(w, asked, d);
    var rise: nat :| IsRise(w, asked, d, rise);
    rise
  }

  /** A link never leads to a declaration from which the path could still grow beyond the rise of its start. */
  lemma RiseFalls(w: World, asked: iset<Step>, d: string, e: string, delta: int)
    requires NoGrowingCycle(w, asked) && Link(w, asked, d, e, delta)
    ensures Rise(w, asked, e) + delta <= Rise(w, asked, d)
  {
    assert LinkShown(w, asked, d, e, delta, Shown);
    assert Attained(w, asked, e, Rise(w, asked, e));
    var route, f :| Leads(w, asked, e, route, f) && Growth(route) == Rise(w, asked, e);
    var longer := [(e, delta)] + route;
    assert longer[1..] == route;
    assert Leads(w, asked, d, longer, f) && Growth(longer) == delta + Growth(route);
    assert Attained(w, asked, d, delta + Rise(w, asked, e));
  }
}
