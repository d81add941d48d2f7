/** The walk as the script runs it: recursive calls that share one mutable `seen` set. That they return is proved
    beforehand; `fuel` says within how many nested calls. */
module PathWalker {
  import opened Basics
  import opened KeyPaths
  import opened PathExactness
  import opened PathGrowth
  import opened PathLookup
  import opened PathTermination
  import opened TypeSyntax

  class Walker {
    const world: World
    var seen: Seen

    constructor (world: World)
      ensures this.world == world && seen == {}
    {
      this.world := world;
      seen := {};
    }

    method WalkType(file: string, t: Type, steps: seq<Step>, ghost fuel: nat) returns (verdict: Verdict)
      requires LookupType(world, file, t, steps, seen, fuel).Done?
      modifies this
      ensures Done(verdict, seen) == LookupType(world, file, t, steps, old(seen), fuel)
      decreases fuel, 0
    {
      if |steps| == 0 {
        return Found;
      }
      var step := steps[0];
      match t
      case Literal(members) =>
        if step.Element? {
          return Unknown;
        }
        verdict := WalkMember(file, FindMember(members, step.name), steps, fuel - 1);
      case Parenthesized(inner) => verdict := WalkType(file, inner, steps, fuel - 1);
      case Intersection(parts) =>
        var verdicts := WalkParts(file, parts, steps, fuel - 1);
        return Combine(verdicts);
      case Union(parts) =>
        var verdicts := WalkParts(file, parts, steps, fuel - 1);
        return Agree(verdicts);
      case ArrayOf(element) =>
        if !step.Element? {
          return Unknown;
        }
        verdict := WalkType(file, element, steps[1..], fuel - 1);
      case Operator(_, inner) => verdict := WalkType(file, inner, steps, fuel - 1);
      case Indexed(object_, key) =>
        if key.None? {
          return Unknown;
        }
        verdict := WalkType(file, object_, [Key(key.value)] + steps, fuel - 1);
      case Reference(head, qualified, args) =>
        if head in PASSTHROUGH_WRAPPERS && args != [] {
          verdict := WalkType(file, args[0], steps, fuel - 1);
        } else if head in ARRAY_WRAPPERS && args != [] {
          if !step.Element? {
            return Unknown;
          }
          verdict := WalkType(file, args[0], steps[1..], fuel - 1);
        } else if qualified || world.Resolve(file, head).None? {
          return Unknown;
        } else {
          verdict := WalkDecl(world.Resolve(file, head).value, steps, fuel - 1);
        }
      case Opaque(_) => return Unknown;
    }

    method WalkMember(file: string, found: Option<Member>, steps: seq<Step>, ghost fuel: nat) returns (verdict: Verdict)
      requires steps != [] && (found.Some? ==> found.value.Property?)
      requires LookupMember(world, file, found, steps, seen, fuel).Done?
      modifies this
      ensures Done(verdict, seen) == LookupMember(world, file, found, steps, old(seen), fuel)
      decreases fuel, 1
    {
      if found.None? {
        return Missing;
      }
      if |steps| == 1 {
        return Found;
      }
      if found.value.type_.None? {
        return Unknown;
      }
      verdict := WalkType(file, found.value.type_.value, steps[1..], fuel);
    }

    method WalkParts(file: string, parts: seq<Type>, steps: seq<Step>, ghost fuel: nat) returns (verdicts: seq<Verdict>)
      requires LookupParts(world, file, parts, steps, seen, fuel).AllDone?
      modifies this
      ensures AllDone(verdicts, seen) == LookupParts(world, file, parts, steps, old(seen), fuel)
      decreases fuel, 1 + |parts|
    {
      if |parts| == 0 {
        return [];
      }
      var first := WalkType(file, parts[0], steps, fuel);
      var rest := WalkParts(file, parts[1..], steps, fuel);
      return [first] + rest;
    }

    method WalkDecl(id: string, steps: seq<Step>, ghost fuel: nat) returns (verdict: Verdict)
      requires id in world.decls && LookupDecl(world, id, steps, seen, fuel).Done?
      modifies this
      ensures Done(verdict, seen) == LookupDecl(world, id, steps, old(seen), fuel)
      decreases fuel, 0
    {
      var file, decl := world.decls[id].file, world.decls[id].decl;
      if |steps| == 0 {
        return Found;
      }
      if decl.Enum? || (id, |steps|) in seen {
        return Unknown;
      }
      seen := seen + {(id, |steps|)};
      match decl
      case Interface(members, bases) =>
        if steps[0].Element? {
          return Unknown;
        }
        var found := FindMember(members, steps[0].name);
        if found.Some? {
          verdict := WalkMember(file, found, steps, fuel - 1);
          return;
        }
        var verdicts := WalkBases(file, bases, steps, fuel - 1);
        return if |bases| > 0 then Combine(verdicts) else Missing;
      case Alias(t) => verdict := WalkType(file, t, steps, fuel - 1);
    }

    method WalkBases(file: string, bases: seq<Base>, steps: seq<Step>, ghost fuel: nat) returns (verdicts: seq<Verdict>)
      requires LookupBases(world, file, bases, steps, seen, fuel).AllDone?
      modifies this
      ensures AllDone(verdicts, seen) == LookupBases(world, file, bases, steps, old(seen), fuel)
      decreases fuel, 2 + |bases|
    {
      if |bases| == 0 {
        return [];
      }
      var first := Unknown;
      if !bases[0].Computed? && world.Resolve(file, bases[0].name).Some? {
        first := WalkDecl(world.Resolve(file, bases[0].name).value, steps, fuel);
      }
      var rest := WalkBases(file, bases[1..], steps, fuel);
      return [first] + rest;
    }
  }

  /** A schema key path looked up in a declaration, with a fresh `seen` set: where no cycle that its keys can follow
      lengthens the path, the walk ends, and its verdict is that of all sufficient depths, right, and precise. */
  method LookUp(world: World, id: string, path: string) returns (verdict: Verdict)
    requires id in world.decls && NoGrowingCycle(world, AskedFor(world, Steps(SegmentsOf(path))))
    ensures Right(world, id, Steps(SegmentsOf(path)), verdict) && Precise(world, id, Steps(SegmentsOf(path)), verdict)
    ensures exists fuel: nat :: Settles(world, id, Steps(SegmentsOf(path)), verdict, fuel)
  {
    var steps := ParsePath(path);
    WalkReturns(world, id, steps);
    ghost var fuel: nat :| LookupDecl(world, id, steps, {}, fuel).Done?;
    ReturnedIsRight(world, id, steps, fuel);
    ReturnedIsPrecise(world, id, steps, fuel);
    var walker := new Walker(world);
    verdict := walker.WalkDecl(id, steps, fuel);
  }
}
