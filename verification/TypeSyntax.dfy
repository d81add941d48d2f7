/** Type declarations as the config catalog reads them, and what it means for a
    declared type to have a member at a key path. */
module TypeSyntax {
  import opened Basics

  /** Type nodes the path walk tells apart; `Opaque` stands for every other kind. */
  datatype Type =
    | Literal(members: seq<Member>)
    | Parenthesized(inner: Type)
    | Intersection(parts: seq<Type>)
    | Union(parts: seq<Type>)
    | ArrayOf(element: Type)
    | Operator(readonly: bool, inner: Type)  // `readonly` or `keyof`; `unique symbol` is opaque, as `symbol` is
    | Indexed(object_: Type, key: Option<string>)  // the key when it is a string literal
    | Reference(head: string, qualified: bool, args: seq<Type>)
    | Opaque(tag: nat)

  /** A property signature, with its name as the source spells it and the name it declares (none when computed); or
      another signature with the names it declares: a method's or an accessor's own, none at all for a call or construct
      signature, and unknown ones (`None`) for an index signature or a computed name. */
  datatype Member =
    | Property(text: string, name: Option<string>, type_: Option<Type>)
    | OtherMember(tag: nat, names: Option<set<string>>)

  /** A heritage entry: an identifier, or an expression the walk does not resolve. */
  datatype Base = Named(name: string) | Computed

  datatype Decl =
    | Interface(members: seq<Member>, bases: seq<Base>)
    | Alias(type_: Type)
    | Enum

  datatype Declared = Declared(file: string, decl: Decl)

  /** All declarations by identity, and what each type name means in each file. */
  datatype World = World(decls: map<string, Declared>, names: map<(string, string), string>) {
    /** `declForTypeName`: the declaration a name resolves to, if it is within reach. */
    function Resolve(file: string, name: string): (id: Option<string>)
      ensures id.Some? ==> id.value in decls
    {
      if (file, name) in names && names[(file, name)] in decls then Some(names[(file, name)]) else None
    }
  }

  datatype Step = Key(name: string) | Element

  const PASSTHROUGH_WRAPPERS: set<string> := {"Partial", "Required", "Readonly", "NonNullable"}
  const ARRAY_WRAPPERS: set<string> := {"Array", "ReadonlyArray"}

  /** The first property signature spelled so. */
  function FindMember(members: seq<Member>, text: string): (m: Option<Member>)
    ensures m.Some? ==> m.value in members && m.value.Property? && m.value.text == text
    ensures m.None? ==> forall p :: p in members && p.Property? ==> p.text != text
  {
    if members == [] then None
    else if members[0].Property? && members[0].text == text then Some(members[0])
    else FindMember(members[1..], text)
  }

  /** Of several property signatures spelled alike it is the first. */
  lemma {:induction false} FindsFirst(members: seq<Member>, text: string, i: nat)
    requires i < |members| && members[i].Property? && members[i].text == text
    requires forall j :: 0 <= j < i ==> !(members[j].Property? && members[j].text == text)
    ensures FindMember(members, text) == Some(members[i])
  {
    if i > 0 {
      FindsFirst(members[1..], text, i - 1);
    }
  }

  // ----- what a declared type has

  /** Places whose members the walk cannot enumerate. */
  datatype Unseen =
    | AtType(file: string, type_: Type)
    | AtDecl(id: string)
    | AtMember(file: string, member: Member)
    | AtBase(file: string, base: Base)

  /** One choice of what every unseen place contains. */
  type Contents = (Unseen, seq<Step>) -> bool

  /** `t`, read in `file`, has a member at the path `steps`; `n` bounds the derivation. */
  ghost predicate HasWithin(w: World, c: Contents, file: string, t: Type, steps: seq<Step>, n: nat)
    decreases n
  {
    if steps == [] then true
    else if n == 0 then false
    else match t
      case Literal(members) =>
        if steps[0].Element? then c(AtType(file, t), steps)
        else MembersWithin(w, c, file, members, steps, n - 1)
      case Parenthesized(inner) => HasWithin(w, c, file, inner, steps, n - 1)
      case Intersection(parts) => exists p :: p in parts && HasWithin(w, c, file, p, steps, n - 1)
      case Union(parts) => forall p :: p in parts ==> HasWithin(w, c, file, p, steps, n - 1)
      case ArrayOf(element) =>
        if steps[0].Element? then HasWithin(w, c, file, element, steps[1..], n - 1) else c(AtType(file, t), steps)
      case Operator(readonly, inner) =>
        if readonly then HasWithin(w, c, file, inner, steps, n - 1) else c(AtType(file, t), steps)
      case Indexed(object_, key) =>
        if key.Some? then HasWithin(w, c, file, object_, [Key(key.value)] + steps, n - 1) else c(AtType(file, t), steps)
      case Reference(head, qualified, args) =>
        if head in PASSTHROUGH_WRAPPERS && args != [] then HasWithin(w, c, file, args[0], steps, n - 1)
        else if head in ARRAY_WRAPPERS && args != [] then
          if steps[0].Element? then HasWithin(w, c, file, args[0], steps[1..], n - 1) else c(AtType(file, t), steps)
        else if qualified || w.Resolve(file, head).None? then c(AtType(file, t), steps)
        else DeclWithin(w, c, w.Resolve(file, head).value, steps, n - 1)
      case Opaque(_) => c(AtType(file, t), steps)
  }

  /** `m` declares `key` for certain. */
  predicate Declares(m: Member, key: string) {
    match m
    case Property(_, name, _) => name == Some(key)
    case OtherMember(_, names) => names.Some? && key in names.value
  }

  /** `m` declares names that the source does not spell out. */
  predicate Hidden(m: Member) {
    if m.Property? then m.name.None? else m.names.None?
  }

  predicate May(m: Member, key: string) { Hidden(m) || Declares(m, key) }

  /** Some member declares the first step, with the rest of the path below it. */
  ghost predicate MembersWithin(w: World, c: Contents, file: string, members: seq<Member>, steps: seq<Step>, n: nat)
    requires steps != [] && steps[0].Key?
    decreases n, 1
  {
    exists m :: m in members && MemberWithin(w, c, file, m, steps, n)
  }

  ghost predicate MemberWithin(w: World, c: Contents, file: string, m: Member, steps: seq<Step>, n: nat)
    requires steps != [] && steps[0].Key?
    decreases n, 0
  {
    if Hidden(m) then c(AtMember(file, m), steps)
    else
      && Declares(m, steps[0].name)
      && if |steps| == 1 then true
         else if m.OtherMember? || m.type_.None? then c(AtMember(file, m), steps)
         else n > 0 && HasWithin(w, c, file, m.type_.value, steps[1..], n - 1)
  }

  /** The same for a declaration: a member that declares the step hides those of the bases. */
  ghost predicate DeclWithin(w: World, c: Contents, id: string, steps: seq<Step>, n: nat)
    requires id in w.decls
    decreases n
  {
    var file := w.decls[id].file;
    if steps == [] then true
    else if n == 0 then false
    else match w.decls[id].decl
      case Interface(members, bases) =>
        if steps[0].Element? then c(AtDecl(id), steps)
        else
          || MembersWithin(w, c, file, members, steps, n - 1)
          || ((forall m :: m in members ==> !Declares(m, steps[0].name))
              && exists b :: b in bases && BaseWithin(w, c, file, b, steps, n - 1))
      case Alias(t) => HasWithin(w, c, file, t, steps, n - 1)
      case Enum => c(AtDecl(id), steps)
  }

  ghost predicate BaseWithin(w: World, c: Contents, file: string, base: Base, steps: seq<Step>, n: nat)
    decreases n
  {
    if base.Computed? || w.Resolve(file, base.name).None? then c(AtBase(file, base), steps)
    else n > 0 && DeclWithin(w, c, w.Resolve(file, base.name).value, steps, n - 1)
  }

  ghost predicate Has(w: World, c: Contents, file: string, t: Type, steps: seq<Step>) {
    exists n: nat :: HasWithin(w, c, file, t, steps, n)
  }

  ghost predicate DeclHas(w: World, c: Contents, id: string, steps: seq<Step>)
    requires id in w.decls
  {
    exists n: nat :: DeclWithin(w, c, id, steps, n)
  }

  // ----- what a caller can look at before the walk

  /** A property signature spelled by the very name it declares. */
  predicate Legible(m: Member) { m.Property? && m.name == Some(m.text) }

  /** What is demanded of member lists, for the keys that a walk can ask for. `FairTo`: none of them is the spelling of a
      property of another name, nor, where members are inherited, declared by a member that the walk passes over.
      `AllSeen`: what may declare one of them, or is spelled like it, is a legible property, and the only one. */
  datatype Premise = FairTo(keys: set<string>) | AllSeen(keys: set<string>)

  predicate MembersMeet(members: seq<Member>, inherits: bool, p: Premise) {
    match p
    case FairTo(keys) =>
      forall m, k :: m in members && k in keys && !Legible(m) ==>
        !(m.Property? && m.text == k) && (inherits ==> !Declares(m, k))
    case AllSeen(keys) =>
      && (forall m, k :: m in members && k in keys && (May(m, k) || (m.Property? && m.text == k)) ==> Legible(m))
      && (forall i, j :: 0 <= i < j < |members| && members[i].Property? && members[j].Property? && members[i].text in keys ==>
            members[i].text != members[j].text)
  }

  /** Every member list inside `t` meets the premise, no operator but `readonly` stands in it, and every declaration it
      leads to is one of `ids`. */
  ghost predicate TypeMeets(w: World, ids: set<string>, file: string, t: Type, p: Premise)
    decreases t
  {
    match t
    case Literal(members) =>
      && MembersMeet(members, false, p)
      && forall i :: 0 <= i < |members| && members[i].Property? && members[i].type_.Some? ==>
           TypeMeets(w, ids, file, members[i].type_.value, p)
    case Parenthesized(inner) => TypeMeets(w, ids, file, inner, p)
    case Intersection(parts) => forall i :: 0 <= i < |parts| ==> TypeMeets(w, ids, file, parts[i], p)
    case Union(parts) => forall i :: 0 <= i < |parts| ==> TypeMeets(w, ids, file, parts[i], p)
    case ArrayOf(element) => TypeMeets(w, ids, file, element, p)
    case Operator(readonly, inner) => readonly && TypeMeets(w, ids, file, inner, p)
    case Indexed(object_, key) =>
      key.Some? ==> key.value in p.keys && TypeMeets(w, ids, file, object_, p)
    case Reference(head, qualified, args) =>
      if head in PASSTHROUGH_WRAPPERS + ARRAY_WRAPPERS && args != [] then TypeMeets(w, ids, file, args[0], p)
      else !qualified && w.Resolve(file, head).Some? ==> w.Resolve(file, head).value in ids
    case Opaque(_) => true
  }

  ghost predicate DeclMeets(w: World, ids: set<string>, id: string, p: Premise)
    requires id in w.decls
  {
    var file := w.decls[id].file;
    match w.decls[id].decl
    case Interface(members, bases) =>
      && MembersMeet(members, bases != [], p)
      && (forall m :: m in members && m.Property? && m.type_.Some? ==> TypeMeets(w, ids, file, m.type_.value, p))
      && (forall b :: b in bases && b.Named? && w.Resolve(file, b.name).Some? ==> w.Resolve(file, b.name).value in ids)
    case Alias(t) => TypeMeets(w, ids, file, t, p)
    case Enum => true
  }

  /** The declarations `ids` meet the premise and lead to no others. */
  ghost predicate Meets(w: World, ids: set<string>, p: Premise) {
    forall id :: id in ids ==> id in w.decls && DeclMeets(w, ids, id, p)
  }

  predicate StepsMeet(steps: seq<Step>, p: Premise) {
    forall s :: s in steps && s.Key? ==> s.name in p.keys
  }
}
