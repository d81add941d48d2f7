/** Workspace packages, the graph of their in-repo peers, and the meaning of a
    "sink cycle": a cyclic component with no dependency left outside itself. */
module Packages {
  import opened Graphs

  datatype Pkg = Pkg(short: string, name: string, group: string, rel: string, deps: seq<string>)

  /** A component lists at least one package. */
  type Component = c: seq<Pkg> | c != [] witness [Pkg("", "", "", "", [])]

  /** Packages indexed by their own short name. */
  ghost predicate WellKeyed(remaining: map<string, Pkg>) {
    forall k :: k in remaining ==> remaining[k].short == k
  }

  /** The dependency graph among the packages of `remaining`. */
  ghost function GraphOf(remaining: map<string, Pkg>): Graph {
    map k | k in remaining :: set d | d in remaining[k].deps && d in remaining
  }

  ghost function Names(packages: seq<Pkg>): (names: seq<string>)
    ensures |names| == |packages|
    ensures forall i :: 0 <= i < |packages| ==> names[i] == packages[i].short
  {
    seq(|packages|, i requires 0 <= i < |packages| => packages[i].short)
  }

  ghost function Members(packages: seq<Pkg>): set<string> {
    Elems(Names(packages))
  }

  lemma NamesPush(packages: seq<Pkg>, last: Pkg)
    ensures Names(packages + [last]) == Names(packages) + [last.short]
    ensures Members(packages + [last]) == Members(packages) + {last.short}
  {
    assert Names(packages + [last]) == Names(packages) + [last.short];
  }

  ghost predicate Distinct(packages: seq<Pkg>) {
    forall i, j :: 0 <= i < j < |packages| ==> packages[i].short != packages[j].short
  }

  /** `component` lists the packages of `remaining` named by `names`, each once. */
  ghost predicate Lists(component: seq<Pkg>, names: set<string>, remaining: map<string, Pkg>) {
    && Distinct(component)
    && Members(component) == names
    && forall p :: p in component ==> p.short in remaining && remaining[p.short] == p
  }

  ghost predicate Cyclic(names: set<string>, remaining: map<string, Pkg>) {
    |names| > 1 || exists k :: k in names && k in remaining && k in remaining[k].deps
  }

  /** No member depends on a remaining package outside `names`. */
  ghost predicate Sink(names: set<string>, remaining: map<string, Pkg>) {
    forall k, d :: k in names && k in remaining && d in remaining[k].deps && d in remaining ==> d in names
  }

  ghost predicate IsSinkCycle(names: set<string>, remaining: map<string, Pkg>) {
    IsScc(GraphOf(remaining), names) && Cyclic(names, remaining) && Sink(names, remaining)
  }

  lemma {:induction false} MembersSize(component: seq<Pkg>)
    requires Distinct(component)
    ensures |Members(component)| == |component|
  {
    if component != [] {
      var init := component[..|component| - 1];
      var last := component[|component| - 1];
      MembersSize(init);
      assert Names(component) == Names(init) + [last.short];
      assert Members(component) == Members(init) + {last.short};
    }
  }
}
