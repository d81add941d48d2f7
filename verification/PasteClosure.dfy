/** The config catalog's paste closure: starting from a plugin's config type, paste
    every package-local declaration it refers to, list the imports, and report
    every name that cannot be rendered unambiguously. */
module PasteClosure {
  import opened Basics

  /** A type name as it occurs in a file. */
  datatype Use = Use(name: string, file: string)

  /** What a name in a file stands for: a package-local declaration (known by its source
      pointer) and the file it is in, an import, or nothing within reach. */
  datatype Resolution =
    | Local(pointer: string, file: string)
    | Import(imported: string, specifier: string)
    | Unresolved

  /** Name resolution, the type names each declaration mentions, and the known global types. */
  datatype Sources = Sources(resolutions: map<Use, Resolution>, mentions: map<string, seq<string>>, globals: set<string>) {
    function Resolve(use: Use): Resolution {
      if use in resolutions then resolutions[use] else Unresolved
    }

    function Mentions(pointer: string): seq<string> {
      if pointer in mentions then mentions[pointer] else []
    }
  }

  datatype Violation =
    | NotFound(use: Use)
    | ConfigTypeImported(use: Use)
    | LocalThenImport(use: Use)
    | TwoImports(use: Use)
    | TwoDeclarations(use: Use)
    | ImportThenLocal(use: Use)

  // ----- what the closure is

  /** A declaration behind `a` mentions the non-global name of `b`. */
  ghost predicate Leads(w: Sources, a: Use, b: Use) {
    var r := w.Resolve(a);
    r.Local? && b.file == r.file && b.name in w.Mentions(r.pointer) && b.name !in w.globals
  }

  ghost predicate ReachedIn(w: Sources, root: Use, use: Use, n: nat)
    decreases n
  {
    if n == 0 then use == root
    else exists prev :: ReachedIn(w, root, prev, n - 1) && Leads(w, prev, use)
  }

  /** `use` occurs in a declaration reachable from the config type. */
  ghost predicate Reached(w: Sources, root: Use, use: Use) {
    exists n: nat :: ReachedIn(w, root, use, n)
  }

  /** The same declaration, or the same imported name of the same module. */
  ghost predicate SameOrigin(a: Resolution, b: Resolution) {
    match a
    case Local(pointer, _) => b.Local? && b.pointer == pointer
    case Import(_, _) => a == b
    case Unresolved => false
  }

  /** Every reachable name is found, the config type is local, and equal names have one origin. */
  ghost predicate Unambiguous(w: Sources, root: Use) {
    && w.Resolve(root).Local?
    && (forall a :: Reached(w, root, a) ==> !w.Resolve(a).Unresolved?)
    && (forall a, b :: Reached(w, root, a) && Reached(w, root, b) && a.name == b.name
          ==> SameOrigin(w.Resolve(a), w.Resolve(b)))
  }

  /** A source pointer names one declaration, which sits in one file. */
  ghost predicate PointersLocate(w: Sources) {
    forall a, b :: w.Resolve(a).Local? && w.Resolve(b).Local? && w.Resolve(a).pointer == w.Resolve(b).pointer
      ==> w.Resolve(a).file == w.Resolve(b).file
  }

  /** What a complaint about a use says is so: the name stands for nothing, or a reachable use of the same name stands
      for something else. */
  ghost predicate Right(w: Sources, root: Use, v: Violation) {
    && Reached(w, root, v.use)
    && var r := w.Resolve(v.use);
       match v
       case NotFound(_) => r.Unresolved?
       case ConfigTypeImported(use) => r.Import? && use.name == root.name
       case LocalThenImport(use) => r.Import? && exists u :: Reached(w, root, u) && u.name == use.name && w.Resolve(u).Local?
       case TwoImports(use) =>
         r.Import? && exists u :: Reached(w, root, u) && u.name == use.name && w.Resolve(u).Import? && w.Resolve(u) != r
       case TwoDeclarations(use) =>
         r.Local? && exists u :: Reached(w, root, u) && u.name == use.name && w.Resolve(u).Local? && w.Resolve(u).pointer != r.pointer
       case ImportThenLocal(use) => r.Local? && exists u :: Reached(w, root, u) && u.name == use.name && w.Resolve(u).Import?
  }

  lemma RightIsAmbiguous(w: Sources, root: Use, v: Violation)
    requires Right(w, root, v)
    ensures !Unambiguous(w, root)
  {
    RootReached(w, root);
  }

  // ----- the order of the pastes

  /** The type names that are not global, in the order mentioned. */
  ghost function Proper(w: Sources, mentions: seq<string>): seq<string> {
    if mentions == [] then []
    else (if mentions[0] in w.globals then [] else [mentions[0]]) + Proper(w, mentions[1..])
  }

  /** What the declarations mention, one declaration after the other. */
  ghost function MentionedBy(w: Sources, pointers: seq<string>): seq<string> {
    if pointers == [] then []
    else MentionedBy(w, pointers[..|pointers| - 1]) + Proper(w, w.Mentions(pointers[|pointers| - 1]))
  }

  /** The line in which names wait for their turn: the config type, and then what each paste mentions. */
  ghost function Line(w: Sources, root: Use, pastes: seq<string>): seq<string> {
    [root.name] + MentionedBy(w, pastes)
  }

  /** Each pasted name is pasted once, and `names` is their order. */
  ghost predicate PastedOnce(pastes: seq<string>, pasted: map<string, string>, names: seq<string>) {
    && |names| == |pastes| == |pasted|
    && (forall n :: n in names <==> n in pasted)
    && (forall i, j :: 0 <= i < j < |names| ==> names[i] != names[j])
    && (forall i :: 0 <= i < |names| ==> names[i] in pasted && pastes[i] == pasted[names[i]])
  }

  /** Names come in the order of their first places in the line. */
  ghost predicate InOrder(line: seq<string>, names: seq<string>) {
    && (forall i :: 0 <= i < |names| ==> 0 <= IndexOf(line, names[i], 0))
    && (forall i, j :: 0 <= i < j < |names| ==> IndexOf(line, names[i], 0) < IndexOf(line, names[j], 0))
  }

  /** The first `taken` names of the line have had their turn, the others are in the queue. */
  ghost predicate InTurn(line: seq<string>, taken: nat, queue: seq<Use>, names: seq<string>, known: set<string>) {
    && taken + |queue| == |line|
    && (forall i :: 0 <= i < |queue| ==> queue[i].name == line[taken + i])
    && (forall i :: 0 <= i < taken ==> line[i] in known)
    && InOrder(line, names)
    && (forall n <- names :: IndexOf(line, n, 0) < taken)
  }

  lemma StillFirst(line: seq<string>, more: seq<string>, x: string)
    requires IndexOf(line, x, 0) >= 0
    ensures IndexOf(line + more, x, 0) == IndexOf(line, x, 0)
  {
    var i := IndexOf(line, x, 0);
    assert (line + more)[i] == x;
    assert forall k :: 0 <= k < i ==> (line + more)[k] == line[k];
  }

  /** A turn that pastes nothing. */
  lemma TurnPassed(line: seq<string>, taken: nat, queue: seq<Use>, names: seq<string>, known: set<string>, more: set<string>)
    requires InTurn(line, taken, queue, names, known) && queue != [] && known <= more && queue[0].name in more
    ensures InTurn(line, taken + 1, queue[1..], names, more)
  {
  }

  lemma FirstPlace(line: seq<string>, taken: nat, queue: seq<Use>, names: seq<string>, known: set<string>)
    requires InTurn(line, taken, queue, names, known) && queue != [] && queue[0].name !in known
    ensures IndexOf(line, queue[0].name, 0) == taken
  {
    assert line[taken] == queue[0].name;
  }

  /** A turn that pastes a new name, whose declaration mentions `more`. */
  lemma TurnPasted(line: seq<string>, taken: nat, queue: seq<Use>, names: seq<string>, known: set<string>,
                   more: seq<string>, added: seq<Use>)
    requires InTurn(line, taken, queue, names, known) && queue != [] && queue[0].name !in known
    requires |added| == |more| && forall i :: 0 <= i < |added| ==> added[i].name == more[i]
    ensures InTurn(line + more, taken + 1, queue[1..] + added, names + [queue[0].name], known + {queue[0].name})
  {
    var x := queue[0].name;
    FirstPlace(line, taken, queue, names, known);
    forall n | n in names + [x]
      ensures 0 <= IndexOf(line, n, 0) == IndexOf(line + more, n, 0) < taken + 1
    {
      if n in names {
        var i :| 0 <= i < |names| && names[i] == n;
      }
      StillFirst(line, more, n);
    }
    forall i, j | 0 <= i < j < |names + [x]|
      ensures IndexOf(line + more, (names + [x])[i], 0) < IndexOf(line + more, (names + [x])[j], 0)
    {
      assert (names + [x])[i] in names && (names + [x])[j] in names + [x];
    }
    var rest := queue[1..] + added;
    forall i | 0 <= i < |rest|
      ensures rest[i].name == (line + more)[taken + 1 + i]
    {
    }
  }

  lemma LineGrows(w: Sources, root: Use, pastes: seq<string>, pointer: string)
    ensures Line(w, root, pastes + [pointer]) == Line(w, root, pastes) + Proper(w, w.Mentions(pointer))
  {
    assert (pastes + [pointer])[..|pastes|] == pastes;
  }

  lemma {:induction false} QueuedNames(w: Sources, mentions: seq<string>, file: string)
    ensures var added, more := Queued(w, mentions, file), Proper(w, mentions);
      |added| == |more| && forall i :: 0 <= i < |added| ==> added[i].name == more[i]
  {
    if mentions != [] {
      QueuedNames(w, mentions[1..], file);
    }
  }

  // ----- the worklist

  /** The variables of the loop, with every use queued so far. */
  datatype State = State(
    queue: seq<Use>,
    pastes: seq<string>,
    pasted: map<string, string>,
    refs: map<string, (string, string)>,
    violations: seq<Violation>,
    found: set<Use>)

  /** Everything the declaration at `pointer` in `file` mentions has been queued. */
  ghost predicate Expanded(w: Sources, s: State, pointer: string, file: string) {
    forall n :: n in w.Mentions(pointer) && n !in w.globals ==> Use(n, file) in s.found
  }

  /** What the tables hold for `use` once it has been taken from the queue without complaint. */
  ghost predicate Recorded(w: Sources, s: State, use: Use) {
    match w.Resolve(use)
    case Local(pointer, file) => use.name in s.pasted && s.pasted[use.name] == pointer && Expanded(w, s, pointer, file)
    case Import(imported, specifier) => use.name in s.refs && s.refs[use.name] == (imported, specifier)
    case Unresolved => false
  }

  /** The paste under `name` is that of some queued use, and has been expanded. */
  ghost predicate PasteJustified(w: Sources, s: State, name: string)
    requires name in s.pasted
  {
    exists u :: u in s.found && u.name == name && w.Resolve(u).Local? && w.Resolve(u).pointer == s.pasted[name]
                && Expanded(w, s, s.pasted[name], w.Resolve(u).file)
  }

  ghost predicate RefJustified(w: Sources, s: State, name: string)
    requires name in s.refs
  {
    exists u :: u in s.found && u.name == name && w.Resolve(u) == Import(s.refs[name].0, s.refs[name].1)
  }

  /** The tables come from queued uses and every queued use is reachable. */
  ghost predicate Tables(w: Sources, root: Use, s: State) {
    && root in s.found
    && (forall u :: u in s.queue ==> u in s.found)
    && (forall u :: u in s.found ==> Reached(w, root, u))
    && (forall n :: n in s.pasted ==> PasteJustified(w, s, n))
    && (forall n :: n in s.refs ==> RefJustified(w, s, n))
    && s.pasted.Keys !! s.refs.Keys
    && (forall p :: p in s.pastes <==> p in s.pasted.Values)
  }

  /** Nothing has been done yet, or the config type's declaration was pasted first. */
  ghost predicate RootFirst(w: Sources, root: Use, s: State) {
    || (s.pastes == [] && s.pasted == map[] && s.refs == map[] && s.queue == [root])
    || (s.pastes != [] && w.Resolve(root).Local? && s.pastes[0] == w.Resolve(root).pointer)
  }

  /** While nothing is reported each queued use is waiting or recorded; a report is right. */
  ghost predicate Judged(w: Sources, root: Use, s: State) {
    && (s.violations == [] ==> RootFirst(w, root, s) && forall u :: u in s.found ==> u in s.queue || Recorded(w, s, u))
    && (forall v :: v in s.violations ==> Right(w, root, v))
  }

  lemma ReachedStep(w: Sources, root: Use, a: Use, b: Use)
    requires Reached(w, root, a) && Leads(w, a, b)
    ensures Reached(w, root, b)
  {
    var n: nat :| ReachedIn(w, root, a, n);
    assert ReachedIn(w, root, b, n + 1);
  }

  lemma {:induction false} FoundHoldsReached(w: Sources, root: Use, s: State, use: Use, n: nat)
    requires root in s.found && ReachedIn(w, root, use, n)
    requires forall u :: u in s.found ==> Recorded(w, s, u)
    ensures use in s.found
    decreases n
  {
    if n > 0 {
      var prev :| ReachedIn(w, root, prev, n - 1) && Leads(w, prev, use);
      FoundHoldsReached(w, root, s, prev, n - 1);
      assert Recorded(w, s, prev);
      assert use == Use(use.name, w.Resolve(prev).file);
    }
  }

  /** The uses the declaration at `pointer` in `file` adds to the queue. */
  function Queued(w: Sources, mentions: seq<string>, file: string): (uses: seq<Use>)
    ensures forall u :: u in uses <==> u.file == file && u.name in mentions && u.name !in w.globals
  {
    if mentions == [] then []
    else (if mentions[0] in w.globals then [] else [Use(mentions[0], file)]) + Queued(w, mentions[1..], file)
  }

  // ----- one turn of the loop keeps the invariant

  lemma RootReached(w: Sources, root: Use)
    ensures Reached(w, root, root)
  {
    assert ReachedIn(w, root, root, 0);
  }

  /** The complaints of the loop are right. */
  lemma ComplaintsAreRight(w: Sources, root: Use, s: State, use: Use)
    requires Tables(w, root, s) && use in s.found
    ensures w.Resolve(use).Unresolved? ==> Right(w, root, NotFound(use))
    ensures w.Resolve(use).Import? && use.name == root.name ==> Right(w, root, ConfigTypeImported(use))
    ensures w.Resolve(use).Import? && use.name in s.pasted ==> Right(w, root, LocalThenImport(use))
    ensures (w.Resolve(use).Import? && use.name in s.refs
             && s.refs[use.name] != (w.Resolve(use).imported, w.Resolve(use).specifier)) ==> Right(w, root, TwoImports(use))
    ensures (w.Resolve(use).Local? && use.name in s.pasted && s.pasted[use.name] != w.Resolve(use).pointer)
            ==> Right(w, root, TwoDeclarations(use))
    ensures w.Resolve(use).Local? && use.name in s.refs ==> Right(w, root, ImportThenLocal(use))
  {
    if use.name in s.pasted {
      assert PasteJustified(w, s, use.name);
    }
    if use.name in s.refs {
      assert RefJustified(w, s, use.name);
    }
  }

  /** The tables depend on neither the queue nor the violations. */
  lemma SameTables(w: Sources, root: Use, s: State, t: State)
    requires Tables(w, root, s) && t.pastes == s.pastes && t.pasted == s.pasted && t.refs == s.refs && t.found == s.found
    requires forall u :: u in t.queue ==> u in s.queue
    ensures Tables(w, root, t)
  {
    forall n | n in t.pasted
      ensures PasteJustified(w, t, n)
    {
      assert PasteJustified(w, s, n);
    }
    forall n | n in t.refs
      ensures RefJustified(w, t, n)
    {
      assert RefJustified(w, s, n);
    }
  }

  /** A state that records the use just taken keeps its judgement. */
  lemma StillJudged(w: Sources, root: Use, s: State, t: State, use: Use)
    requires Judged(w, root, s) && s.queue != [] && use == s.queue[0] && t.violations == s.violations
    requires s.violations == [] ==> RootFirst(w, root, t)
    requires forall u :: u in s.queue[1..] ==> u in t.queue
    requires forall u :: u in t.found ==> u in s.found || u in t.queue
    requires forall u :: Recorded(w, s, u) ==> Recorded(w, t, u)
    requires Recorded(w, t, use)
    ensures Judged(w, root, t)
  {
    forall u | u in t.found && s.violations == []
      ensures u in t.queue || Recorded(w, t, u)
    {
      if u in s.queue && u != use {
        assert u in s.queue[1..];
      }
    }
  }

  /** Dropping a use that is recorded already. */
  lemma SkipKeeps(w: Sources, root: Use, s: State)
    requires PointersLocate(w) && Tables(w, root, s) && Judged(w, root, s) && s.queue != []
    requires var use := s.queue[0];
             w.Resolve(use).Local? && use.name in s.pasted && s.pasted[use.name] == w.Resolve(use).pointer
    ensures Tables(w, root, s.(queue := s.queue[1..])) && Judged(w, root, s.(queue := s.queue[1..]))
  {
    var use, t := s.queue[0], s.(queue := s.queue[1..]);
    assert PasteJustified(w, s, use.name);
    var u :| u in s.found && u.name == use.name && w.Resolve(u).Local? && w.Resolve(u).pointer == s.pasted[use.name]
             && Expanded(w, s, s.pasted[use.name], w.Resolve(u).file);
    assert w.Resolve(u).file == w.Resolve(use).file;
    SameTables(w, root, s, t);
    StillJudged(w, root, s, t, use);
  }

  /** Reporting a violation. */
  lemma ComplainKeeps(w: Sources, root: Use, s: State, v: Violation)
    requires Tables(w, root, s) && Judged(w, root, s) && s.queue != [] && Right(w, root, v)
    ensures var t := s.(queue := s.queue[1..], violations := s.violations + [v]);
            Tables(w, root, t) && Judged(w, root, t)
  {
    SameTables(w, root, s, s.(queue := s.queue[1..], violations := s.violations + [v]));
  }

  ghost function Listed(w: Sources, s: State): State
    requires s.queue != [] && w.Resolve(s.queue[0]).Import?
  {
    var use, r := s.queue[0], w.Resolve(s.queue[0]);
    s.(queue := s.queue[1..], refs := s.refs[use.name := (r.imported, r.specifier)])
  }

  ghost predicate Listable(w: Sources, root: Use, s: State) {
    s.queue != [] &&
    var use, r := s.queue[0], w.Resolve(s.queue[0]);
    && r.Import? && use.name != root.name && use.name !in s.pasted
    && (use.name in s.refs ==> s.refs[use.name] == (r.imported, r.specifier))
  }

  lemma ImportTables(w: Sources, root: Use, s: State)
    requires Tables(w, root, s) && Listable(w, root, s)
    ensures Tables(w, root, Listed(w, s))
  {
    var t := Listed(w, s);
    forall n | n in t.pasted
      ensures PasteJustified(w, t, n)
    {
      assert PasteJustified(w, s, n);
    }
    forall n | n in t.refs
      ensures RefJustified(w, t, n)
    {
      if n != s.queue[0].name {
        assert RefJustified(w, s, n);
      }
    }
  }

  lemma ListRecords(w: Sources, root: Use, s: State, u: Use)
    requires Listable(w, root, s) && (Recorded(w, s, u) || u == s.queue[0])
    ensures Recorded(w, Listed(w, s), u)
  {
  }

  /** Listing an import under its name. */
  lemma ImportKeeps(w: Sources, root: Use, s: State)
    requires Tables(w, root, s) && Judged(w, root, s) && Listable(w, root, s)
    ensures Tables(w, root, Listed(w, s)) && Judged(w, root, Listed(w, s))
  {
    ImportTables(w, root, s);
    forall u | Recorded(w, s, u) || u == s.queue[0]
      ensures Recorded(w, Listed(w, s), u)
    {
      ListRecords(w, root, s, u);
    }
    StillJudged(w, root, s, Listed(w, s), s.queue[0]);
  }

  /** The use at the head of the queue names a fresh declaration that mentions exactly `added`. */
  ghost predicate Pastable(w: Sources, s: State, added: seq<Use>) {
    s.queue != [] &&
    var use, r := s.queue[0], w.Resolve(s.queue[0]);
    && r.Local? && use.name !in s.pasted && use.name !in s.refs
    && forall u :: u in added <==> u.file == r.file && u.name in w.Mentions(r.pointer) && u.name !in w.globals
  }

  lemma PasteValues(w: Sources, root: Use, s: State, added: seq<Use>)
    requires Tables(w, root, s) && Pastable(w, s, added)
    ensures forall p :: p in Pasted(w, s, added).pastes <==> p in Pasted(w, s, added).pasted.Values
  {
    var use, r, t := s.queue[0], w.Resolve(s.queue[0]), Pasted(w, s, added);
    assert t.pasted.Values == s.pasted.Values + {r.pointer} by {
      assert forall n :: n in s.pasted ==> t.pasted[n] == s.pasted[n];
      assert t.pasted[use.name] == r.pointer;
    }
  }

  lemma PasteTables(w: Sources, root: Use, s: State, added: seq<Use>)
    requires Tables(w, root, s) && Pastable(w, s, added)
    ensures Tables(w, root, Pasted(w, s, added))
  {
    PasteValues(w, root, s, added);
    forall u | u in added
      ensures Reached(w, root, u)
    {
      ReachedStep(w, root, s.queue[0], u);
    }
    PasteJustifies(w, s, added);
  }

  lemma PasteRecords(w: Sources, s: State, added: seq<Use>, u: Use)
    requires Pastable(w, s, added) && (Recorded(w, s, u) || u == s.queue[0])
    ensures Recorded(w, Pasted(w, s, added), u)
  {
  }

  /** Pasting a declaration and queueing what it mentions. */
  lemma PasteKeeps(w: Sources, root: Use, s: State, added: seq<Use>)
    requires Tables(w, root, s) && Judged(w, root, s) && Pastable(w, s, added)
    ensures Tables(w, root, Pasted(w, s, added)) && Judged(w, root, Pasted(w, s, added))
  {
    PasteTables(w, root, s, added);
    forall u | Recorded(w, s, u) || u == s.queue[0]
      ensures Recorded(w, Pasted(w, s, added), u)
    {
      PasteRecords(w, s, added, u);
    }
    StillJudged(w, root, s, Pasted(w, s, added), s.queue[0]);
  }

  ghost function Pasted(w: Sources, s: State, added: seq<Use>): State
    requires s.queue != [] && w.Resolve(s.queue[0]).Local?
  {
    var use, r := s.queue[0], w.Resolve(s.queue[0]);
    s.(queue := s.queue[1..] + added, pastes := s.pastes + [r.pointer],
       pasted := s.pasted[use.name := r.pointer], found := s.found + set u | u in added)
  }

  lemma PasteJustifies(w: Sources, s: State, added: seq<Use>)
    requires s.queue != [] && s.queue[0] in s.found && w.Resolve(s.queue[0]).Local?
    requires forall n :: n in s.pasted ==> PasteJustified(w, s, n)
    requires forall n :: n in s.refs ==> RefJustified(w, s, n)
    requires var r := w.Resolve(s.queue[0]);
             forall u :: u in added <==> u.file == r.file && u.name in w.Mentions(r.pointer) && u.name !in w.globals
    ensures var t := Pasted(w, s, added);
            && (forall n :: n in t.pasted ==> PasteJustified(w, t, n))
            && (forall n :: n in t.refs ==> RefJustified(w, t, n))
  {
    var t := Pasted(w, s, added);
    forall n | n in t.pasted
      ensures PasteJustified(w, t, n)
    {
      if n == s.queue[0].name {
        assert Expanded(w, t, w.Resolve(s.queue[0]).pointer, w.Resolve(s.queue[0]).file);
      } else {
        assert PasteJustified(w, s, n);
      }
    }
    forall n | n in t.refs
      ensures RefJustified(w, t, n)
    {
      assert RefJustified(w, s, n);
    }
  }

  // ----- the loop

  ghost function KnownNames(w: Sources): set<string> {
    set u | u in w.resolutions :: u.name
  }

  lemma PastedOneMore(pastes: seq<string>, pasted: map<string, string>, names: seq<string>, name: string, pointer: string)
    requires PastedOnce(pastes, pasted, names) && name !in pasted
    ensures PastedOnce(pastes + [pointer], pasted[name := pointer], names + [name])
  {
    assert pasted[name := pointer].Keys == pasted.Keys + {name};
  }

  /** One turn that pastes: the name is new in the line, and what its declaration mentions joins the line. */
  lemma PasteInTurn(w: Sources, root: Use, taken: nat, queue: seq<Use>, pastes: seq<string>, names: seq<string>,
                    known: set<string>, pointer: string, file: string)
    requires InTurn(Line(w, root, pastes), taken, queue, names, known) && queue != [] && queue[0].name !in known
    ensures InTurn(Line(w, root, pastes + [pointer]), taken + 1, queue[1..] + Queued(w, w.Mentions(pointer), file),
                   names + [queue[0].name], known + {queue[0].name})
  {
    LineGrows(w, root, pastes, pointer);
    QueuedNames(w, w.Mentions(pointer), file);
    TurnPasted(Line(w, root, pastes), taken, queue, names, known, Proper(w, w.Mentions(pointer)), Queued(w, w.Mentions(pointer), file));
  }

  datatype Aspect = Sourced | Judging | Listing | Ordering

  ghost predicate Kept(w: Sources, root: Use, s: State, names: seq<string>, taken: nat, aspect: Aspect) {
    match aspect
    case Sourced => Tables(w, root, s)
    case Judging => Judged(w, root, s)
    case Listing => PastedOnce(s.pastes, s.pasted, names)
    case Ordering =>
      s.violations == [] ==> InTurn(Line(w, root, s.pastes), taken, s.queue, names, s.pasted.Keys + s.refs.Keys)
  }

  /** What every turn of the loop keeps, `names` being the names pasted so far and `taken` the number of turns. */
  ghost predicate Going(w: Sources, root: Use, s: State, names: seq<string>, taken: nat) {
    forall aspect :: Kept(w, root, s, names, taken, aspect)
  }

  lemma GoingParts(w: Sources, root: Use, s: State, names: seq<string>, taken: nat)
    requires Going(w, root, s, names, taken)
    ensures Tables(w, root, s) && Judged(w, root, s) && PastedOnce(s.pastes, s.pasted, names)
    ensures s.violations == [] ==> InTurn(Line(w, root, s.pastes), taken, s.queue, names, s.pasted.Keys + s.refs.Keys)
  {
    assert Kept(w, root, s, names, taken, Sourced) && Kept(w, root, s, names, taken, Judging);
    assert Kept(w, root, s, names, taken, Listing) && Kept(w, root, s, names, taken, Ordering);
  }

  lemma Starting(w: Sources, root: Use)
    ensures Going(w, root, State([root], [], map[], map[], [], {root}), [], 0)
  {
    RootReached(w, root);
  }

  /** A turn that only drops a use, reports it, or lists an import. */
  lemma StillGoing(w: Sources, root: Use, s: State, t: State, names: seq<string>, taken: nat)
    requires Going(w, root, s, names, taken) && s.queue != [] && t.queue == s.queue[1..]
    requires t.pastes == s.pastes && t.pasted == s.pasted && s.refs.Keys <= t.refs.Keys
    requires Tables(w, root, t) && Judged(w, root, t)
    requires t.violations == [] ==> s.violations == [] && s.queue[0].name in t.pasted.Keys + t.refs.Keys
    ensures Going(w, root, t, names, taken + 1)
  {
    GoingParts(w, root, s, names, taken);
    if t.violations == [] {
      TurnPassed(Line(w, root, s.pastes), taken, s.queue, names, s.pasted.Keys + s.refs.Keys, t.pasted.Keys + t.refs.Keys);
    }
  }

  ghost predicate Pasting(w: Sources, s: State) {
    s.queue != [] && w.Resolve(s.queue[0]).Local? && s.queue[0].name !in s.pasted && s.queue[0].name !in s.refs
  }

  ghost function AfterPaste(w: Sources, s: State): State
    requires Pasting(w, s)
  {
    var r := w.Resolve(s.queue[0]);
    Pasted(w, s, Queued(w, w.Mentions(r.pointer), r.file))
  }

  lemma PasteSourced(w: Sources, root: Use, s: State, names: seq<string>, taken: nat)
    requires Going(w, root, s, names, taken) && Pasting(w, s)
    ensures Tables(w, root, AfterPaste(w, s)) && Judged(w, root, AfterPaste(w, s))
  {
    var r := w.Resolve(s.queue[0]);
    assert Kept(w, root, s, names, taken, Sourced) && Kept(w, root, s, names, taken, Judging);
    PasteKeeps(w, root, s, Queued(w, w.Mentions(r.pointer), r.file));
  }

  lemma PasteListed(w: Sources, root: Use, s: State, names: seq<string>, taken: nat)
    requires Going(w, root, s, names, taken) && Pasting(w, s)
    ensures Kept(w, root, AfterPaste(w, s), names + [s.queue[0].name], taken + 1, Listing)
  {
    assert Kept(w, root, s, names, taken, Listing);
    PastedOneMore(s.pastes, s.pasted, names, s.queue[0].name, w.Resolve(s.queue[0]).pointer);
  }

  lemma PasteOrdered(w: Sources, root: Use, s: State, names: seq<string>, taken: nat)
    requires Going(w, root, s, names, taken) && Pasting(w, s)
    ensures Kept(w, root, AfterPaste(w, s), names + [s.queue[0].name], taken + 1, Ordering)
  {
    var name, r, t := s.queue[0].name, w.Resolve(s.queue[0]), AfterPaste(w, s);
    assert Kept(w, root, s, names, taken, Ordering);
    if s.violations == [] {
      PasteInTurn(w, root, taken, s.queue, s.pastes, names, s.pasted.Keys + s.refs.Keys, r.pointer, r.file);
      assert t.pasted.Keys + t.refs.Keys == s.pasted.Keys + s.refs.Keys + {name};
    }
  }

  lemma GoingOnPasted(w: Sources, root: Use, s: State, names: seq<string>, taken: nat)
    requires Going(w, root, s, names, taken) && Pasting(w, s)
    ensures Going(w, root, AfterPaste(w, s), names + [s.queue[0].name], taken + 1)
  {
    PasteSourced(w, root, s, names, taken);
    PasteListed(w, root, s, names, taken);
    PasteOrdered(w, root, s, names, taken);
  }

  /** A name that stands for nothing is reported. */
  lemma ReportKeeps(w: Sources, root: Use, s: State, v: Violation, names: seq<string>, taken: nat)
    requires Going(w, root, s, names, taken) && s.queue != [] && Right(w, root, v)
    ensures Going(w, root, s.(queue := s.queue[1..], violations := s.violations + [v]), names, taken + 1)
  {
    GoingParts(w, root, s, names, taken);
    ComplainKeeps(w, root, s, v);
    StillGoing(w, root, s, s.(queue := s.queue[1..], violations := s.violations + [v]), names, taken);
  }

  lemma SkipGoing(w: Sources, root: Use, s: State, names: seq<string>, taken: nat)
    requires PointersLocate(w) && Going(w, root, s, names, taken) && s.queue != []
    requires var use := s.queue[0];
             w.Resolve(use).Local? && use.name in s.pasted && s.pasted[use.name] == w.Resolve(use).pointer
    ensures Going(w, root, s.(queue := s.queue[1..]), names, taken + 1)
  {
    GoingParts(w, root, s, names, taken);
    SkipKeeps(w, root, s);
    StillGoing(w, root, s, s.(queue := s.queue[1..]), names, taken);
  }

  lemma ListGoing(w: Sources, root: Use, s: State, names: seq<string>, taken: nat)
    requires Going(w, root, s, names, taken) && Listable(w, root, s)
    ensures Going(w, root, Listed(w, s), names, taken + 1)
  {
    GoingParts(w, root, s, names, taken);
    ImportKeeps(w, root, s);
    StillGoing(w, root, s, Listed(w, s), names, taken);
  }

  /** Whatever a turn may report about the use it takes is right. */
  lemma ReportsAreRight(w: Sources, root: Use, s: State, names: seq<string>, taken: nat)
    requires Going(w, root, s, names, taken) && s.queue != []
    ensures var use, r := s.queue[0], w.Resolve(s.queue[0]);
      && (r.Unresolved? ==> Right(w, root, NotFound(use)))
      && (r.Import? && use.name == root.name ==> Right(w, root, ConfigTypeImported(use)))
      && (r.Import? && use.name in s.pasted ==> Right(w, root, LocalThenImport(use)))
      && (r.Import? && use.name in s.refs && s.refs[use.name] != (r.imported, r.specifier) ==> Right(w, root, TwoImports(use)))
      && (r.Local? && use.name in s.pasted && s.pasted[use.name] != r.pointer ==> Right(w, root, TwoDeclarations(use)))
      && (r.Local? && use.name in s.refs ==> Right(w, root, ImportThenLocal(use)))
  {
    GoingParts(w, root, s, names, taken);
    assert s.queue[0] in s.queue;
    ComplaintsAreRight(w, root, s, s.queue[0]);
  }

  /** An import under its own name, unless that name already stands for something else. */
  method TakeImport(w: Sources, root: Use, use: Use, pasted: map<string, string>, refs: map<string, (string, string)>,
                    violations: seq<Violation>, ghost s: State, ghost names: seq<string>, ghost taken: nat)
    returns (refs': map<string, (string, string)>, violations': seq<Violation>)
    requires Going(w, root, s, names, taken) && s.queue != [] && use == s.queue[0] && w.Resolve(use).Import?
    requires pasted == s.pasted && refs == s.refs && violations == s.violations
    ensures Going(w, root, s.(queue := s.queue[1..], refs := refs', violations := violations'), names, taken + 1)
  {
    var Import(imported, specifier) := w.Resolve(use);
    refs', violations' := refs, violations;
    ReportsAreRight(w, root, s, names, taken);
    if use.name == root.name {
      ReportKeeps(w, root, s, ConfigTypeImported(use), names, taken);
      violations' := violations + [ConfigTypeImported(use)];
    } else if use.name in pasted {
      ReportKeeps(w, root, s, LocalThenImport(use), names, taken);
      violations' := violations + [LocalThenImport(use)];
    } else if use.name in refs && refs[use.name] != (imported, specifier) {
      ReportKeeps(w, root, s, TwoImports(use), names, taken);
      violations' := violations + [TwoImports(use)];
    } else {
      ListGoing(w, root, s, names, taken);
      refs' := refs[use.name := (imported, specifier)];
    }
  }

  /** A declaration not pasted before is pasted, unless its name already stands for something else. */
  method TakeLocal(w: Sources, root: Use, use: Use, pastes: seq<string>, pasted: map<string, string>,
                   refs: map<string, (string, string)>, violations: seq<Violation>,
                   ghost s: State, ghost names: seq<string>, ghost taken: nat)
    returns (pastes': seq<string>, pasted': map<string, string>, violations': seq<Violation>, added: seq<Use>,
             ghost names': seq<string>)
    requires PointersLocate(w)
    requires Going(w, root, s, names, taken) && s.queue != [] && use == s.queue[0] && w.Resolve(use).Local?
    requires pastes == s.pastes && pasted == s.pasted && refs == s.refs && violations == s.violations
    ensures var t := State(s.queue[1..] + added, pastes', pasted', refs, violations', s.found + (set u | u in added));
            Going(w, root, t, names', taken + 1)
    ensures if use.name in pasted || use.name in refs
            then pastes' == pastes && pasted' == pasted && added == []
            else pastes' == pastes + [w.Resolve(use).pointer] && pasted' == pasted[use.name := w.Resolve(use).pointer]
    ensures pasted' == pasted || pasted'.Keys == pasted.Keys + {use.name}
  {
    var Local(pointer, file) := w.Resolve(use);
    pastes', pasted', violations', added, names' := pastes, pasted, violations, [], names;
    assert s.queue[1..] + [] == s.queue[1..] && s.found + (set u | u in []) == s.found;
    ReportsAreRight(w, root, s, names, taken);
    if use.name in pasted && pasted[use.name] == pointer {
      SkipGoing(w, root, s, names, taken);
    } else if use.name in pasted {
      ReportKeeps(w, root, s, TwoDeclarations(use), names, taken);
      violations' := violations + [TwoDeclarations(use)];
    } else if use.name in refs {
      ReportKeeps(w, root, s, ImportThenLocal(use), names, taken);
      violations' := violations + [ImportThenLocal(use)];
    } else {
      GoingOnPasted(w, root, s, names, taken);
      added := Queued(w, w.Mentions(pointer), file);
      pastes', pasted', names' := pastes + [pointer], pasted[use.name := pointer], names + [use.name];
    }
  }

  /** The worklist returns, and reports nothing exactly when every reachable name has one origin; every report is right.
      Each name is pasted once. When nothing is reported the pastes and references are complete: each reachable use is a
      paste or a reference of its own origin; and the pastes come in the order in which their names are first mentioned,
      by the config type's declaration and then by one paste after the other. */
  method Collect(w: Sources, root: Use)
    returns (pastes: seq<string>, pasted: map<string, string>, refs: map<string, (string, string)>, violations: seq<Violation>,
             ghost names: seq<string>)
    requires PointersLocate(w)
    ensures violations == [] <==> Unambiguous(w, root)
    ensures forall v :: v in violations ==> Right(w, root, v)
    ensures PastedOnce(pastes, pasted, names)
    ensures violations == [] ==> Complete(w, root, pastes, pasted, refs) && InOrder(Line(w, root, pastes), names)
  {
    var queue := [root];
    pastes, pasted, refs, violations, names := [], map[], map[], [], [];
    ghost var found, taken: nat := {root}, 0;
    Starting(w, root);
    while |queue| > 0
      invariant Going(w, root, State(queue, pastes, pasted, refs, violations, found), names, taken)
      decreases KnownNames(w) - pasted.Keys, |queue|
    {
      ghost var s := State(queue, pastes, pasted, refs, violations, found);
      var use := queue[0];
      queue := queue[1..];
      match w.Resolve(use) {
        case Unresolved =>
          ReportsAreRight(w, root, s, names, taken);
          ReportKeeps(w, root, s, NotFound(use), names, taken);
          violations := violations + [NotFound(use)];
        case Import(_, _) =>
          refs, violations := TakeImport(w, root, use, pasted, refs, violations, s, names, taken);
        case Local(_, _) =>
          var added;
          pastes, pasted, violations, added, names := TakeLocal(w, root, use, pastes, pasted, refs, violations, s, names, taken);
          queue, found := queue + added, found + set u | u in added;
          assert use.name in KnownNames(w);
      }
      taken := taken + 1;
    }
    Finished(w, root, State(queue, pastes, pasted, refs, violations, found), names, taken);
  }

  lemma Finished(w: Sources, root: Use, s: State, names: seq<string>, taken: nat)
    requires Going(w, root, s, names, taken) && s.queue == []
    ensures s.violations == [] <==> Unambiguous(w, root)
    ensures forall v :: v in s.violations ==> Right(w, root, v)
    ensures PastedOnce(s.pastes, s.pasted, names)
    ensures s.violations == [] ==> Complete(w, root, s.pastes, s.pasted, s.refs) && InOrder(Line(w, root, s.pastes), names)
  {
    GoingParts(w, root, s, names, taken);
    if s.violations == [] {
      NothingReported(w, root, s);
    } else {
      RightIsAmbiguous(w, root, s.violations[0]);
    }
  }

  /** Pastes start with the config type, are distinct from the references, and with them cover every reachable use. */
  ghost predicate Complete(w: Sources, root: Use, pastes: seq<string>, pasted: map<string, string>, refs: map<string, (string, string)>) {
    && pastes != [] && w.Resolve(root).Local? && pastes[0] == w.Resolve(root).pointer
    && (forall p :: p in pastes <==> p in pasted.Values)
    && pasted.Keys !! refs.Keys
    && (forall u :: Reached(w, root, u) ==>
          match w.Resolve(u)
          case Local(pointer, _) => u.name in pasted && pasted[u.name] == pointer
          case Import(imported, specifier) => u.name in refs && refs[u.name] == (imported, specifier)
          case Unresolved => false)
    && (forall n :: n in pasted || n in refs ==> exists u: Use :: u.name == n && Reached(w, root, u))
  }

  lemma AllRecorded(w: Sources, root: Use, s: State)
    requires Tables(w, root, s) && Judged(w, root, s) && s.queue == [] && s.violations == []
    ensures forall u :: Reached(w, root, u) ==> u in s.found && Recorded(w, s, u)
  {
    forall u | Reached(w, root, u)
      ensures u in s.found && Recorded(w, s, u)
    {
      var n: nat :| ReachedIn(w, root, u, n);
      FoundHoldsReached(w, root, s, u, n);
    }
  }

  lemma NamesReached(w: Sources, root: Use, s: State)
    requires Tables(w, root, s)
    ensures forall n :: n in s.pasted || n in s.refs ==> exists u: Use :: u.name == n && Reached(w, root, u)
  {
    forall n | n in s.pasted || n in s.refs
      ensures exists u: Use :: u.name == n && Reached(w, root, u)
    {
      if n in s.pasted {
        assert PasteJustified(w, s, n);
      } else {
        assert RefJustified(w, s, n);
      }
    }
  }

  lemma NothingAmbiguous(w: Sources, root: Use, s: State)
    requires Tables(w, root, s) && s.violations == [] && RootFirst(w, root, s) && s.queue == []
    requires forall u :: Reached(w, root, u) ==> Recorded(w, s, u)
    ensures Unambiguous(w, root)
  {
    RootReached(w, root);
  }

  lemma NothingReported(w: Sources, root: Use, s: State)
    requires Tables(w, root, s) && Judged(w, root, s) && s.queue == [] && s.violations == []
    ensures Unambiguous(w, root) && Complete(w, root, s.pastes, s.pasted, s.refs)
  {
    AllRecorded(w, root, s);
    NamesReached(w, root, s);
    NothingAmbiguous(w, root, s);
  }
}
