/** Schema key paths such as `agents[].id`: `parsePath` of scripts/gen-config-catalog.ts. */
module KeyPaths {
  import opened Basics
  import opened Splitting
  import opened TypeSyntax

  /** A member name and how many array hops follow it. */
  datatype Segment = Segment(name: string, arrays: nat)

  predicate EndsInHop(s: string) { |s| >= 2 && s[|s| - 2] == '[' && s[|s| - 1] == ']' }

  function Hops(n: nat): string { if n == 0 then "" else Hops(n - 1) + "[]" }

  function SegmentText(segment: Segment): string { segment.name + Hops(segment.arrays) }

  /** Names that a path can spell: without dots, and not ending in a hop themselves. */
  predicate Spellable(segments: seq<Segment>) {
    segments != [] && forall segment <- segments :: '.' !in segment.name && !EndsInHop(segment.name)
  }

  function Texts(segments: seq<Segment>): seq<string> {
    seq(|segments|, i requires 0 <= i < |segments| => SegmentText(segments[i]))
  }

  function PathText(segments: seq<Segment>): string { Join(Texts(segments), '.') }

  /** `n` array hops. */
  function Elements(n: nat): seq<Step> { if n == 0 then [] else Elements(n - 1) + [Element] }

  function SegmentSteps(segment: Segment): seq<Step> { [Key(segment.name)] + Elements(segment.arrays) }

  function Steps(segments: seq<Segment>): seq<Step> {
    if segments == [] then []
    else Steps(segments[..|segments| - 1]) + SegmentSteps(segments[|segments| - 1])
  }

  // ----- reading

  function Peeled(s: string): (segment: Segment)
    ensures !EndsInHop(segment.name)
  {
    if EndsInHop(s) then
      var inner := Peeled(s[..|s| - 2]);
      Segment(inner.name, inner.arrays + 1)
    else Segment(s, 0)
  }

  function SegmentsOf(path: string): (segments: seq<Segment>)
    ensures segments != []
  {
    var parts := Split(path, '.');
    seq(|parts|, i requires 0 <= i < |parts| => Peeled(parts[i]))
  }

  method ParsePath(path: string) returns (steps: seq<Step>)
    ensures steps == Steps(SegmentsOf(path))
  {
    var parts := Split(path, '.');
    ghost var segments := SegmentsOf(path);
    steps := [];
    for k := 0 to |parts|
      invariant steps == Steps(segments[..k])
    {
      var name, arrays := parts[k], 0;
      while EndsInHop(name)
        invariant Peeled(parts[k]) == Segment(Peeled(name).name, Peeled(name).arrays + arrays) && arrays >= 0
        decreases |name|
      {
        name := name[..|name| - 2];
        arrays := arrays + 1;
      }
      ghost var before := steps;
      steps := steps + [Key(name)];
      for i := 0 to arrays
        invariant steps == before + ([Key(name)] + Elements(i))
      {
        steps := steps + [Element];
      }
      assert segments[..k + 1][..k] == segments[..k];
      assert segments[k] == Segment(name, arrays);
    }
    assert segments[..|parts|] == segments;
  }

  // ----- reading what was written, and writing what was read

  lemma PeeledHop(s: string)
    ensures Peeled(s + "[]") == Segment(Peeled(s).name, Peeled(s).arrays + 1)
  {
    var t := s + "[]";
    assert t[|t| - 2] == '[' && t[|t| - 1] == ']' && t[..|t| - 2] == s;
  }

  lemma {:induction false} PeeledText(name: string, n: nat)
    requires !EndsInHop(name)
    ensures Peeled(name + Hops(n)) == Segment(name, n)
  {
    if n > 0 {
      var s := name + Hops(n - 1);
      assert name + Hops(n) == s + "[]";
      PeeledText(name, n - 1);
      PeeledHop(s);
    } else {
      assert name + Hops(0) == name;
    }
  }

  lemma {:induction false} TextPeeled(s: string)
    ensures SegmentText(Peeled(s)) == s
  {
    if EndsInHop(s) {
      TextPeeled(s[..|s| - 2]);
      assert s == s[..|s| - 2] + "[]";
    } else {
      assert s + Hops(0) == s;
    }
  }

  lemma {:induction false} NoDots(n: nat)
    ensures '.' !in Hops(n)
  {
    if n > 0 {
      NoDots(n - 1);
    }
  }

  /** Reading a written path gives back its members and hops. */
  lemma ReadWritten(segments: seq<Segment>)
    requires Spellable(segments)
    ensures SegmentsOf(PathText(segments)) == segments
  {
    var texts := Texts(segments);
    forall text | text in texts
      ensures '.' !in text
    {
      var i: nat :| i < |texts| && texts[i] == text;
      assert segments[i] in segments;
      NoDots(segments[i].arrays);
    }
    SplitOfJoin(texts, '.');
    forall i: nat | i < |segments|
      ensures Peeled(texts[i]) == segments[i]
    {
      assert segments[i] in segments;
      PeeledText(segments[i].name, segments[i].arrays);
    }
  }

  /** Every path is the writing of what is read from it, so no two paths read alike. */
  lemma WrittenRead(path: string)
    ensures PathText(SegmentsOf(path)) == path && Spellable(SegmentsOf(path))
  {
    var parts, segments := Split(path, '.'), SegmentsOf(path);
    forall i: nat | i < |parts|
      ensures SegmentText(segments[i]) == parts[i] && '.' !in segments[i].name
    {
      TextPeeled(parts[i]);
      SplitParts(path, '.');
      assert parts[i] in parts;
      assert forall c <- segments[i].name :: c in SegmentText(segments[i]);
    }
    assert Texts(segments) == parts;
    JoinOfSplit(path, '.');
  }

  /** The text of a walk, step by step: names behind dots, and a pair of brackets for each element. */
  function Spelled(steps: seq<Step>): string {
    if steps == [] then ""
    else
      var init := steps[..|steps| - 1];
      match steps[|steps| - 1]
      case Key(name) => if init == [] then name else Spelled(init) + "." + name
      case Element => Spelled(init) + "[]"
  }

  lemma {:induction false} JoinLast(parts: seq<string>, last: string, sep: char)
    requires parts != []
    ensures Join(parts + [last], sep) == Join(parts, sep) + [sep] + last
  {
    assert (parts + [last])[1..] == parts[1..] + [last];
    if |parts| > 1 {
      JoinLast(parts[1..], last, sep);
    }
  }

  lemma SpelledHop(steps: seq<Step>, all: seq<Step>)
    requires all == steps + [Element]
    ensures Spelled(all) == Spelled(steps) + "[]"
  {
    assert all[..|steps|] == steps;
  }

  lemma {:induction false} SpelledHops(steps: seq<Step>, n: nat, all: seq<Step>)
    requires all == steps + Elements(n)
    ensures Spelled(all) == Spelled(steps) + Hops(n)
  {
    if n == 0 {
      assert all == steps;
    } else {
      var before := steps + Elements(n - 1);
      SpelledHops(steps, n - 1, before);
      assert all == before + [Element];
      SpelledHop(before, all);
    }
  }

  lemma SpelledSegment(before: seq<Step>, segment: Segment)
    ensures Spelled(before + SegmentSteps(segment))
         == (if before == [] then "" else Spelled(before) + ".") + SegmentText(segment)
  {
    var key := before + [Key(segment.name)];
    assert before + SegmentSteps(segment) == key + Elements(segment.arrays);
    SpelledHops(key, segment.arrays, before + SegmentSteps(segment));
    assert key[..|before|] == before;
  }

  lemma {:induction false} SpelledText(segments: seq<Segment>)
    requires segments != []
    ensures Steps(segments) != [] && Spelled(Steps(segments)) == PathText(segments)
  {
    var init, last := segments[..|segments| - 1], segments[|segments| - 1];
    SpelledSegment(Steps(init), last);
    assert Texts(segments) == Texts(init) + [SegmentText(last)];
    if init != [] {
      SpelledText(init);
      JoinLast(Texts(init), SegmentText(last), '.');
    }
  }

  /** The steps of a path spell the path: its names are the keys and its brackets the elements, in their order. */
  lemma StepsSpellPath(path: string)
    ensures Spelled(Steps(SegmentsOf(path))) == path
  {
    SpelledText(SegmentsOf(path));
    WrittenRead(path);
  }

  lemma {:induction false} StepsInjective(a: seq<Segment>, b: seq<Segment>)
    requires Steps(a) == Steps(b)
    ensures a == b
    decreases |a|
  {
    assert a != [] ==> |Steps(a)| > 0;
    assert b != [] ==> |Steps(b)| > 0;
    if a != [] && b != [] {
      var la, lb := a[|a| - 1], b[|b| - 1];
      var fa, fb := a[..|a| - 1], b[..|b| - 1];
      LastKey(Steps(fa), la, Steps(fb), lb);
      StepsInjective(fa, fb);
      assert a == fa + [la] && b == fb + [lb];
    }
  }

  lemma {:induction false} ElementsOnly(n: nat)
    ensures |Elements(n)| == n && forall i :: 0 <= i < n ==> Elements(n)[i] == Element
  {
    if n > 0 {
      ElementsOnly(n - 1);
    }
  }

  lemma LastKey(before: seq<Step>, x: Segment, other: seq<Step>, y: Segment)
    requires before + SegmentSteps(x) == other + SegmentSteps(y)
    ensures before == other && x == y
  {
    var all, same := before + SegmentSteps(x), other + SegmentSteps(y);
    ElementsOnly(x.arrays);
    ElementsOnly(y.arrays);
    assert all[|before|] == Key(x.name) && same[|other|] == Key(y.name);
    assert forall i :: |before| < i < |all| ==> all[i] == Elements(x.arrays)[i - |before| - 1] == Element;
    assert forall i :: |other| < i < |same| ==> same[i] == Elements(y.arrays)[i - |other| - 1] == Element;
    assert |before| == |other|;
    assert before == all[..|before|] && other == same[..|other|];
  }

  /** Two paths are walked alike only when they are the same text. */
  lemma PathsDiffer(a: string, b: string)
    requires Steps(SegmentsOf(a)) == Steps(SegmentsOf(b))
    ensures a == b
  {
    StepsInjective(SegmentsOf(a), SegmentsOf(b));
    WrittenRead(a);
    WrittenRead(b);
  }
}
