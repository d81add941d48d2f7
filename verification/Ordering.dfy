/** The display order of packages. */
module Ordering {
  import opened Basics
  import opened Packages
  import opened Sorting

  /** The caller's group order with the string comparison of the runtime. */
  datatype Display = Display(groupOrder: seq<string>, locale: (string, string) -> int) {

    function Rank(group: string): int {
      var index := IndexOf(groupOrder, group, 0);
      if index == -1 then MAX_SAFE_INTEGER else index
    }

    /** `comparePackages`: listed groups first in their order, then group name, then short name. */
    function Compare(a: Pkg, b: Pkg): int {
      if Rank(a.group) != Rank(b.group) then Rank(a.group) - Rank(b.group)
      else if locale(a.group, b.group) != 0 then locale(a.group, b.group)
      else locale(a.short, b.short)
    }

    /** Components are compared by their first package. */
    function CompareHeads(a: Component, b: Component): int {
      Compare(a[0], b[0])
    }

    lemma CompareIsComparison()
      requires Collates(locale)
      ensures Comparison(Compare)
    {
    }

    /** Listed groups come first, by their first place in the list; then group names decide, then short names.
        A list is never as long as the largest safe integer. */
    lemma CompareMeans(a: Pkg, b: Pkg)
      requires Collates(locale) && |groupOrder| < MAX_SAFE_INTEGER
      ensures a.group in groupOrder && b.group !in groupOrder ==> Compare(a, b) < 0
      ensures forall i: nat :: i < |groupOrder| && groupOrder[i] == a.group && b.group !in groupOrder[..i + 1] ==> Compare(a, b) < 0
      ensures a.group !in groupOrder && b.group !in groupOrder && a.group != b.group ==>
        (Compare(a, b) < 0 <==> locale(a.group, b.group) < 0)
      ensures a.group == b.group ==> (Compare(a, b) < 0 <==> locale(a.short, b.short) < 0)
    {
      forall i: nat | i < |groupOrder| && groupOrder[i] == a.group && b.group !in groupOrder[..i + 1]
        ensures Compare(a, b) < 0
      {
        assert forall k: nat :: k <= i ==> groupOrder[k] == groupOrder[..i + 1][k];
        assert Rank(a.group) <= i < Rank(b.group);
      }
    }

    lemma HeadsAreComparison()
      requires Collates(locale)
      ensures Comparison(CompareHeads)
    {
      CompareIsComparison();
      forall a: Component, b: Component, c: Component
        ensures CompareHeads(a, b) <= 0 || CompareHeads(b, a) <= 0
        ensures CompareHeads(a, b) <= 0 && CompareHeads(b, c) <= 0 ==> CompareHeads(a, c) <= 0
      {
        assert Compare(a[0], b[0]) <= 0 || Compare(b[0], a[0]) <= 0;
        assert Compare(a[0], b[0]) <= 0 && Compare(b[0], c[0]) <= 0 ==> Compare(a[0], c[0]) <= 0;
      }
    }

    /** Packages that compare equal carry the same name. */
    lemma CompareAntisymmetric(a: Pkg, b: Pkg)
      requires Collates(locale) && Compare(a, b) <= 0 && Compare(b, a) <= 0
      ensures a.short == b.short
    {
    }
  }
}
