/** What several parts share: optional values, searches in sequences, bounds, and the size of subsets. */
module Basics {

  datatype Option<+T> = None | Some(value: T)

  /** The one device for keeping a definition out of sight: `forall shown :: P(x, shown)` says no more than
      `P(x, Shown)`, but its body is unfolded only in proofs that name `P(x, Shown)`. The enumerations of rules,
      claims and demands in other modules do the same for predicates of several parts. */
  datatype Shown = Shown

  const MAX_SAFE_INTEGER := 9007199254740991

  /** `indexOf` for one element, from a position on. */
  function IndexOf<T(==)>(s: seq<T>, x: T, from: nat): (r: int)
    ensures r == -1 || (from <= r < |s| && s[r] == x)
    ensures forall k :: from <= k < (if r == -1 then |s| else r) ==> s[k] != x
    decreases |s| - from
  {
    if from >= |s| then -1 else if s[from] == x then from else IndexOf(s, x, from + 1)
  }

  /** `s` stands in `t` at `i`. */
  predicate At(t: string, i: nat, s: string) {
    i + |s| <= |t| && t[i..i + |s|] == s
  }

  lemma AtCharacter(t: string, i: nat, s: string, k: nat)
    requires At(t, i, s) && k < |s|
    ensures t[i + k] == s[k]
  {
    assert t[i..i + |s|][k] == s[k];
  }

  lemma AtByCharacters(t: string, i: nat, s: string)
    requires i + |s| <= |t| && forall k :: 0 <= k < |s| ==> t[i + k] == s[k]
    ensures At(t, i, s)
  {
    assert t[i..i + |s|] == s;
  }

  predicate StandsShown(t: string, i: nat, s: string, shown: Shown) { At(t, i, s) }

  /** `s` stands in `t` at `i`, and what that says of the characters is kept out of sight. */
  predicate Stands(t: string, i: nat, s: string) {
    i + |s| <= |t| && forall shown: Shown :: StandsShown(t, i, s, shown)
  }

  lemma StandsCharacters(t: string, i: nat, s: string)
    requires Stands(t, i, s)
    ensures forall k :: 0 <= k < |s| ==> t[i + k] == s[k]
  {
    assert StandsShown(t, i, s, Shown);
    forall k | 0 <= k < |s|
      ensures t[i + k] == s[k]
    {
      AtCharacter(t, i, s, k);
    }
  }

  lemma StandsByCharacters(t: string, i: nat, s: string)
    requires i + |s| <= |t| && forall k :: 0 <= k < |s| ==> t[i + k] == s[k]
    ensures Stands(t, i, s)
  {
    AtByCharacters(t, i, s);
  }

  function Max(a: nat, b: nat): nat { if a < b then b else a }

  function Min(a: nat, b: nat): nat { if a <= b then a else b }

  ghost function Below(n: nat): set<nat> {
    if n == 0 then {} else Below(n - 1) + {n - 1}
  }

  lemma {:induction false} BelowFacts(n: nat)
    ensures |Below(n)| == n && forall i: nat :: i in Below(n) <==> i < n
  {
    if n > 0 {
      BelowFacts(n - 1);
    }
  }

  lemma SubsetSmaller<T>(s: set<T>, t: set<T>)
    requires s < t
    ensures |s| < |t|
  {
    var x :| x in t && x !in s;
    assert s <= t - {x};
    SubsetNotLarger(s, t - {x});
  }

  lemma {:induction false} SubsetNotLarger<T>(s: set<T>, t: set<T>)
    requires s <= t
    ensures |s| <= |t|
    decreases s
  {
    if x :| x in s {
      SubsetNotLarger(s - {x}, t - {x});
    }
  }
}
