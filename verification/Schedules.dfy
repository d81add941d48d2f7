/** Assigning weighted jobs to machines: loads, greedy schedules, and how far a
    greedy schedule can be from any other assignment. */
module Schedules {

  /** Weight that the assignment `a` of the first `|a|` jobs puts on machine `k`. */
  ghost function Load(a: seq<nat>, w: seq<real>, k: nat): real
    requires |a| <= |w|
  {
    if a == [] then 0.0
    else Load(a[..|a| - 1], w, k) + if a[|a| - 1] == k then w[|a| - 1] else 0.0
  }

  /** Weight of the first `n` jobs. */
  ghost function Total(w: seq<real>, n: nat): real
    requires n <= |w|
  {
    if n == 0 then 0.0 else Total(w, n - 1) + w[n - 1]
  }

  /** Weight on the first `m` machines together. */
  ghost function LoadSum(a: seq<nat>, w: seq<real>, m: nat): real
    requires |a| <= |w|
  {
    if m == 0 then 0.0 else LoadSum(a, w, m - 1) + Load(a, w, m - 1)
  }

  ghost predicate OnMachines(a: seq<nat>, m: nat) {
    forall i :: 0 <= i < |a| ==> a[i] < m
  }

  ghost predicate NonNegative(w: seq<real>) {
    forall i :: 0 <= i < |w| ==> w[i] >= 0.0
  }

  ghost predicate Descending(w: seq<real>) {
    forall i, j :: 0 <= i <= j < |w| ==> w[i] >= w[j]
  }

  /** Machine `j` is lightest under `a`. */
  ghost predicate Lightest(a: seq<nat>, w: seq<real>, m: nat, j: nat)
    requires |a| <= |w|
  {
    j < m && forall k :: 0 <= k < m ==> Load(a, w, j) <= Load(a, w, k)
  }

  /** Each job went to a machine that was lightest at the time. */
  ghost predicate Greedy(a: seq<nat>, w: seq<real>, m: nat)
    requires |a| <= |w|
  {
    OnMachines(a, m) && forall n :: 0 <= n < |a| ==> Lightest(a[..n], w, m, a[n])
  }

  /** No machine carries more than `t`. */
  ghost predicate Within(a: seq<nat>, w: seq<real>, m: nat, t: real)
    requires |a| <= |w|
  {
    OnMachines(a, m) && forall k :: 0 <= k < m ==> Load(a, w, k) <= t
  }

  // ----- sums

  lemma LoadStep(a: seq<nat>, w: seq<real>, n: nat, k: nat)
    requires n < |a| <= |w|
    ensures Load(a[..n + 1], w, k) == Load(a[..n], w, k) + if a[n] == k then w[n] else 0.0
  {
    assert a[..n + 1][..n] == a[..n];
  }

  lemma {:induction false} LoadSumStep(a: seq<nat>, w: seq<real>, n: nat, m: nat)
    requires n < |a| <= |w|
    ensures LoadSum(a[..n + 1], w, m) == LoadSum(a[..n], w, m) + if a[n] < m then w[n] else 0.0
  {
    if m > 0 {
      LoadStep(a, w, n, m - 1);
      LoadSumStep(a, w, n, m - 1);
    }
  }

  lemma {:induction false} EmptyLoadSum(w: seq<real>, m: nat)
    ensures LoadSum([], w, m) == 0.0
  {
    if m > 0 {
      EmptyLoadSum(w, m - 1);
    }
  }

  /** The machines together carry exactly the jobs placed. */
  lemma {:induction false} LoadsAddUp(a: seq<nat>, w: seq<real>, n: nat, m: nat)
    requires n <= |a| <= |w| && OnMachines(a, m)
    ensures LoadSum(a[..n], w, m) == Total(w, n)
  {
    if n == 0 {
      EmptyLoadSum(w, m);
    } else {
      LoadsAddUp(a, w, n - 1, m);
      LoadSumStep(a, w, n - 1, m);
    }
  }

  /** `m` times `x`, as a sum. */
  ghost function Times(m: nat, x: real): real {
    if m == 0 then 0.0 else Times(m - 1, x) + x
  }

  lemma {:induction false} TimesIsProduct(m: nat, x: real)
    ensures Times(m, x) == m as real * x
  {
    if m > 0 {
      TimesIsProduct(m - 1, x);
      assert m as real * x == (m - 1) as real * x + x;
    }
  }

  lemma {:induction false} TimesAdd(m: nat, x: real, y: real)
    ensures Times(m, x + y) == Times(m, x) + Times(m, y)
  {
    if m > 0 {
      TimesAdd(m - 1, x, y);
    }
  }

  lemma {:induction false} TimesMono(m: nat, x: real, y: real)
    requires x <= y
    ensures Times(m, x) <= Times(m, y)
  {
    if m > 0 {
      TimesMono(m - 1, x, y);
    }
  }

  lemma {:induction false} TimesNonNegative(m: nat, x: real)
    requires x >= 0.0
    ensures Times(m, x) >= 0.0
  {
    if m > 0 {
      TimesNonNegative(m - 1, x);
    }
  }

  lemma {:induction false} SumAtLeast(a: seq<nat>, w: seq<real>, m: nat, x: real)
    requires |a| <= |w| && forall k :: 0 <= k < m ==> Load(a, w, k) >= x
    ensures LoadSum(a, w, m) >= Times(m, x)
  {
    if m > 0 {
      SumAtLeast(a, w, m - 1, x);
    }
  }

  lemma {:induction false} SumAtMost(a: seq<nat>, w: seq<real>, m: nat, x: real)
    requires |a| <= |w| && forall k :: 0 <= k < m ==> Load(a, w, k) <= x
    ensures LoadSum(a, w, m) <= Times(m, x)
  {
    if m > 0 {
      SumAtMost(a, w, m - 1, x);
    }
  }

  lemma {:induction false} LoadNonNegative(a: seq<nat>, w: seq<real>, k: nat)
    requires |a| <= |w| && NonNegative(w)
    ensures Load(a, w, k) >= 0.0
  {
    if a != [] {
      LoadNonNegative(a[..|a| - 1], w, k);
    }
  }

  /** Machines only get heavier. */
  lemma {:induction false} PrefixWithin(b: seq<nat>, w: seq<real>, n: nat, m: nat, t: real)
    requires n <= |b| <= |w| && NonNegative(w) && Within(b, w, m, t)
    ensures Within(b[..n], w, m, t)
    decreases |b| - n
  {
    if n < |b| {
      PrefixWithin(b, w, n + 1, m, t);
      forall k | 0 <= k < m
        ensures Load(b[..n], w, k) <= t
      {
        LoadStep(b, w, n, k);
      }
    } else {
      assert b[..n] == b;
    }
  }

  /** A job placed within `t` weighs at most `t`. */
  lemma JobWithin(b: seq<nat>, w: seq<real>, n: nat, m: nat, t: real)
    requires n < |b| <= |w| && NonNegative(w) && Within(b, w, m, t)
    ensures w[n] <= t
  {
    PrefixWithin(b, w, n + 1, m, t);
    LoadStep(b, w, n, b[n]);
    LoadNonNegative(b[..n], w, b[n]);
  }

  // ----- small jobs: the lightest machine is below the average

  /** Before job `n` is placed, `m` times the lightest load leaves room for it below `m` times `t`. */
  lemma LightestBelowAverage(a: seq<nat>, b: seq<nat>, w: seq<real>, n: nat, m: nat, t: real)
    requires |a| == |b| == |w| && n < |a| && NonNegative(w)
    requires Greedy(a, w, m) && Within(b, w, m, t)
    ensures Times(m, Load(a[..n], w, a[n])) + w[n] <= Times(m, t)
  {
    SumAtLeast(a[..n], w, m, Load(a[..n], w, a[n]));
    LoadsAddUp(a, w, n, m);
    PrefixWithin(b, w, n + 1, m, t);
    SumAtMost(b[..n + 1], w, m, t);
    LoadsAddUp(b, w, n + 1, m);
  }

  // ----- big jobs: counting slots

  /** A job that no other big job fits beside takes two of a machine's slots, any other takes one. */
  ghost function Slots(w: seq<real>, q: real, t: real): (c: seq<real>)
    ensures |c| == |w|
    ensures forall i :: 0 <= i < |w| ==> c[i] == if w[i] + q > t then 2.0 else 1.0
  {
    seq(|w|, i requires 0 <= i < |w| => if w[i] + q > t then 2.0 else 1.0)
  }

  /** What the slots of machine `k` say about its load when every job weighs at least `q > t/3`. */
  lemma {:induction false} SlotsMeasureLoad(a: seq<nat>, w: seq<real>, k: nat, q: real, t: real)
    requires |a| <= |w| && q >= 0.0 && 3.0 * q > t
    requires forall i :: 0 <= i < |a| ==> w[i] >= q
    ensures var slots, load := Load(a, Slots(w, q, t), k), Load(a, w, k);
            || (slots == 0.0 && load == 0.0)
            || (slots == 1.0 && load >= q && load + q <= t)
            || (slots == 2.0 && (load + q > t || load >= 2.0 * q))
            || (slots >= 3.0 && load > t)
  {
    if a != [] {
      SlotsMeasureLoad(a[..|a| - 1], w, k, q, t);
    }
  }

  /** When even the lightest job exceeds a third of `t`, the lightest machine still has room for it. */
  lemma BigJobFits(a: seq<nat>, b: seq<nat>, w: seq<real>, n: nat, m: nat, t: real)
    requires |a| == |b| == |w| && n < |a| && NonNegative(w) && Descending(w)
    requires Greedy(a, w, m) && Within(b, w, m, t) && 3.0 * w[n] > t
    ensures Load(a[..n], w, a[n]) + w[n] <= t
  {
    var q := w[n];
    var c := Slots(w, q, t);
    JobWithin(b, w, n, m, t);
    PrefixWithin(b, w, n + 1, m, t);
    var placed := b[..n + 1];
    forall k | 0 <= k < m
      ensures Load(placed, c, k) <= 2.0
    {
      SlotsMeasureLoad(placed, w, k, q, t);
    }
    SumAtMost(placed, c, m, 2.0);
    LoadsAddUp(b, c, n + 1, m);
    if Load(a[..n], w, a[n]) + q > t {
      forall k | 0 <= k < m
        ensures Load(a[..n], c, k) >= 2.0
      {
        SlotsMeasureLoad(a[..n], w, k, q, t);
      }
      SumAtLeast(a[..n], c, m, 2.0);
      LoadsAddUp(a, c, n, m);
    }
  }

  // ----- the bounds

  /** A job of at most `t` on a machine below the average ends within twice `t`; one of at most `t/3`, within 4/3. */
  lemma SmallJobBound(m: nat, l: real, q: real, t: real)
    requires m > 0 && q <= t && Times(m, l) + q <= Times(m, t)
    ensures Times(m, l + q) <= 2.0 * Times(m, t) - t
    ensures 3.0 * q <= t ==> 3.0 * Times(m, l + q) <= 4.0 * Times(m, t) - t
  {
    TimesAdd(m, l, q);
    TimesMono(m - 1, q, t);
    if 3.0 * q <= t {
      TimesAdd(m - 1, q, q);
      TimesAdd(m - 1, q + q, q);
      TimesMono(m - 1, q + q + q, t);
    }
  }

  lemma FittingJobBound(m: nat, x: real, t: real)
    requires m > 0 && x <= t && t >= 0.0
    ensures Times(m, x) <= 2.0 * Times(m, t) - t
    ensures 3.0 * Times(m, x) <= 4.0 * Times(m, t) - t
  {
    TimesMono(m, x, t);
    TimesNonNegative(m - 1, t);
  }

  /** One placement keeps the machine it touches within both bounds. */
  lemma PlacementBound(a: seq<nat>, b: seq<nat>, w: seq<real>, n: nat, m: nat, t: real)
    requires |a| == |b| == |w| && n < |a| && NonNegative(w) && m > 0
    requires Greedy(a, w, m) && Within(b, w, m, t)
    ensures Times(m, Load(a[..n + 1], w, a[n])) <= 2.0 * Times(m, t) - t
    ensures Descending(w) ==> 3.0 * Times(m, Load(a[..n + 1], w, a[n])) <= 4.0 * Times(m, t) - t
  {
    LoadStep(a, w, n, a[n]);
    LightestBelowAverage(a, b, w, n, m, t);
    JobWithin(b, w, n, m, t);
    SmallJobBound(m, Load(a[..n], w, a[n]), w[n], t);
    if Descending(w) && 3.0 * w[n] > t {
      BigJobFits(a, b, w, n, m, t);
      FittingJobBound(m, Load(a[..n + 1], w, a[n]), t);
    }
  }

  lemma {:induction false} BoundByPlacements(a: seq<nat>, b: seq<nat>, w: seq<real>, n: nat, m: nat, t: real, k: nat)
    requires |a| == |b| == |w| && n <= |a| && NonNegative(w) && t >= 0.0 && k < m
    requires Greedy(a, w, m) && Within(b, w, m, t)
    ensures Times(m, Load(a[..n], w, k)) <= 2.0 * Times(m, t) - t
    ensures Descending(w) ==> 3.0 * Times(m, Load(a[..n], w, k)) <= 4.0 * Times(m, t) - t
  {
    if n == 0 {
      FittingJobBound(m, 0.0, t);
    } else {
      BoundByPlacements(a, b, w, n - 1, m, t, k);
      LoadStep(a, w, n - 1, k);
      PlacementBound(a, b, w, n - 1, m, t);
    }
  }

  lemma BoundsAsProducts(m: nat, x: real, t: real)
    ensures Times(m, x) <= 2.0 * Times(m, t) - t ==> m as real * x <= (2.0 * m as real - 1.0) * t
    ensures 3.0 * Times(m, x) <= 4.0 * Times(m, t) - t ==> 3.0 * m as real * x <= (4.0 * m as real - 1.0) * t
  {
    TimesIsProduct(m, x);
    TimesIsProduct(m, t);
  }

  /** Against any other assignment, whose heaviest machine carries at most `t`: jobs taken longest
      first exceed it by no more than 4/3 - 1/(3m), jobs in any order by no more than 2 - 1/m. */
  lemma GreedyBound(a: seq<nat>, b: seq<nat>, w: seq<real>, m: nat, t: real, k: nat, x: real)
    requires |a| == |b| == |w| && NonNegative(w) && k < m && x == Load(a, w, k)
    requires Greedy(a, w, m) && Within(b, w, m, t)
    ensures m as real * x <= (2.0 * m as real - 1.0) * t
    ensures Descending(w) ==> 3.0 * m as real * x <= (4.0 * m as real - 1.0) * t
  {
    assert a[..|a|] == a;
    assert t >= 0.0 by { LoadNonNegative(b, w, k); }
    BoundByPlacements(a, b, w, |a|, m, t, k);
    BoundsAsProducts(m, x, t);
  }

  /** Two machines never differ by more than one job can weigh. */
  lemma {:induction false} SpreadBound(a: seq<nat>, w: seq<real>, n: nat, m: nat, most: real)
    requires n <= |a| <= |w| && NonNegative(w) && Greedy(a, w, m)
    requires most >= 0.0 && forall i :: 0 <= i < |w| ==> w[i] <= most
    ensures forall j, k :: 0 <= j < m && 0 <= k < m ==> Load(a[..n], w, j) - Load(a[..n], w, k) <= most
  {
    if n > 0 {
      SpreadBound(a, w, n - 1, m, most);
      forall j, k | 0 <= j < m && 0 <= k < m
        ensures Load(a[..n], w, j) - Load(a[..n], w, k) <= most
      {
        LoadStep(a, w, n - 1, j);
        LoadStep(a, w, n - 1, k);
      }
    }
  }
}
