/** Longest-processing-time assignment of test files to coverage partitions. */
module CoveragePartitions {
  import opened Basics
  import opened MinHeap
  import opened Schedules
  import opened Sorting

  const UNKNOWN_FILE_WEIGHT := 1.0

  function WeightOf(weights: map<string, real>, file: string): real {
    if file in weights then weights[file] else UNKNOWN_FILE_WEIGHT
  }

  ghost function WeightsOf(files: seq<string>, weights: map<string, real>): (w: seq<real>)
    ensures |w| == |files|
    ensures forall i :: 0 <= i < |files| ==> w[i] == WeightOf(weights, files[i])
  {
    seq(|files|, i requires 0 <= i < |files| => WeightOf(weights, files[i]))
  }

  /** Heavier first, then by name. */
  datatype ByWeight = ByWeight(weights: map<string, real>, locale: (string, string) -> int) {
    function Compare(a: string, b: string): int {
      if WeightOf(weights, b) < WeightOf(weights, a) then -1
      else if WeightOf(weights, b) > WeightOf(weights, a) then 1
      else locale(a, b)
    }

    lemma CompareIsComparison()
      requires Collates(locale)
      ensures Comparison(Compare)
    {
    }
  }

  /** The files that the assignment `a` of `files` puts in bucket `k`, in order. */
  ghost function FilesOf(a: seq<nat>, files: seq<string>, k: nat): seq<string>
    requires |a| <= |files|
  {
    if a == [] then []
    else FilesOf(a[..|a| - 1], files, k) + if a[|a| - 1] == k then [files[|a| - 1]] else []
  }

  ghost function Flatten(buckets: seq<seq<string>>): seq<string> {
    if buckets == [] then [] else Flatten(buckets[..|buckets| - 1]) + buckets[|buckets| - 1]
  }

  /** The buckets an assignment describes. */
  ghost function Partition(a: seq<nat>, files: seq<string>, m: nat): (p: seq<seq<string>>)
    requires |a| <= |files|
    ensures |p| == m && forall k :: 0 <= k < m ==> p[k] == FilesOf(a, files, k)
  {
    seq(m, k requires 0 <= k < m => FilesOf(a, files, k))
  }

  /** Bucket `j` has the least sum and, among those, the fewest files. */
  ghost predicate Leanest(a: seq<nat>, files: seq<string>, w: seq<real>, m: nat, j: nat)
    requires |a| <= |files| == |w|
  {
    && j < m
    && forall k :: 0 <= k < m ==>
         || Load(a, w, j) < Load(a, w, k)
         || (Load(a, w, j) == Load(a, w, k) && |FilesOf(a, files, j)| <= |FilesOf(a, files, k)|)
  }

  /** Each file went to a leanest bucket of all, as a scan of every bucket would choose. */
  ghost predicate LeanChoices(a: seq<nat>, files: seq<string>, w: seq<real>, m: nat)
    requires |a| <= |files| == |w|
  {
    forall n :: 0 <= n < |a| ==> Leanest(a[..n], files, w, m, a[n])
  }

  lemma FilesStep(a: seq<nat>, files: seq<string>, n: nat, k: nat)
    requires n < |a| <= |files|
    ensures FilesOf(a[..n + 1], files, k) == FilesOf(a[..n], files, k) + if a[n] == k then [files[n]] else []
  {
    assert a[..n + 1][..n] == a[..n];
  }

  lemma LeanIsGreedy(a: seq<nat>, files: seq<string>, w: seq<real>, m: nat)
    requires |a| <= |files| == |w| && LeanChoices(a, files, w, m)
    ensures Greedy(a, w, m)
  {
    forall n | 0 <= n < |a|
      ensures a[n] < m && Lightest(a[..n], w, m, a[n])
    {
      assert Leanest(a[..n], files, w, m, a[n]);
    }
  }

  // ----- conservation

  /** How often `x` occurs in `s`. */
  ghost function Count(s: seq<string>, x: string): nat {
    if s == [] then 0 else Count(s[..|s| - 1], x) + if s[|s| - 1] == x then 1 else 0
  }

  lemma {:induction false} CountConcat(a: seq<string>, b: seq<string>, x: string)
    ensures Count(a + b, x) == Count(a, x) + Count(b, x)
  {
    if b == [] {
      assert a + b == a;
    } else {
      assert (a + b)[..|a + b| - 1] == a + b[..|b| - 1];
      CountConcat(a, b[..|b| - 1], x);
    }
  }

  lemma CountStep(s: seq<string>, y: string, added: bool, x: string)
    ensures Count(s + if added then [y] else [], x) == Count(s, x) + if added && y == x then 1 else 0
  {
    if added {
      CountConcat(s, [y], x);
    } else {
      assert s + [] == s;
    }
  }

  lemma {:induction false} CountIsMultiplicity(s: seq<string>, x: string)
    ensures Count(s, x) == multiset(s)[x]
  {
    if s != [] {
      CountIsMultiplicity(s[..|s| - 1], x);
      assert s == s[..|s| - 1] + [s[|s| - 1]];
    }
  }

  ghost predicate SameFiles(a: seq<string>, b: seq<string>) {
    forall x :: Count(a, x) == Count(b, x)
  }

  lemma SameFilesIsPermutation(a: seq<string>, b: seq<string>)
    ensures SameFiles(a, b) <==> multiset(a) == multiset(b)
  {
    forall x
      ensures Count(a, x) == multiset(a)[x] && Count(b, x) == multiset(b)[x]
    {
      CountIsMultiplicity(a, x);
      CountIsMultiplicity(b, x);
    }
    if SameFiles(a, b) {
      assert forall x :: multiset(a)[x] == multiset(b)[x];
    }
  }

  /** How often `x` occurs in the first `m` buckets. */
  ghost function Held(a: seq<nat>, files: seq<string>, m: nat, x: string): nat
    requires |a| <= |files|
  {
    if m == 0 then 0 else Held(a, files, m - 1, x) + Count(FilesOf(a, files, m - 1), x)
  }

  /** One more file in bucket `k`, nothing changed in the others. */
  lemma {:induction false} HeldDiffers(p: seq<nat>, q: seq<nat>, files: seq<string>, m: nat, k: nat, y: string, x: string)
    requires |p| <= |files| && |q| <= |files|
    requires forall j: nat :: j < m ==>
      Count(FilesOf(q, files, j), x) == Count(FilesOf(p, files, j), x) + if j == k && y == x then 1 else 0
    ensures Held(q, files, m, x) == Held(p, files, m, x) + if k < m && y == x then 1 else 0
  {
    if m > 0 {
      HeldDiffers(p, q, files, m - 1, k, y, x);
    }
  }

  lemma HeldStep(a: seq<nat>, files: seq<string>, n: nat, m: nat, x: string)
    requires n < |a| <= |files|
    ensures Held(a[..n + 1], files, m, x) == Held(a[..n], files, m, x) + if a[n] < m && files[n] == x then 1 else 0
  {
    forall j: nat | j < m
      ensures Count(FilesOf(a[..n + 1], files, j), x)
           == Count(FilesOf(a[..n], files, j), x) + if j == a[n] && files[n] == x then 1 else 0
    {
      BucketStep(a, files, n, j, x);
    }
    HeldDiffers(a[..n], a[..n + 1], files, m, a[n], files[n], x);
  }

  lemma BucketStep(a: seq<nat>, files: seq<string>, n: nat, k: nat, x: string)
    requires n < |a| <= |files|
    ensures Count(FilesOf(a[..n + 1], files, k), x)
         == Count(FilesOf(a[..n], files, k), x) + if a[n] == k && files[n] == x then 1 else 0
  {
    FilesStep(a, files, n, k);
    CountStep(FilesOf(a[..n], files, k), files[n], a[n] == k, x);
  }

  lemma {:induction false} HeldNothing(files: seq<string>, m: nat, x: string)
    ensures Held([], files, m, x) == 0
  {
    if m > 0 {
      HeldNothing(files, m - 1, x);
    }
  }

  lemma CountPrefix(files: seq<string>, n: nat, x: string)
    requires n < |files|
    ensures Count(files[..n + 1], x) == Count(files[..n], x) + if files[n] == x then 1 else 0
  {
    assert files[..n + 1][..n] == files[..n];
  }

  lemma HeldOneMore(a: seq<nat>, files: seq<string>, n: nat, m: nat, x: string)
    requires n < |a| <= |files| && a[n] < m && Held(a[..n], files, m, x) == Count(files[..n], x)
    ensures Held(a[..n + 1], files, m, x) == Count(files[..n + 1], x)
  {
    HeldStep(a, files, n, m, x);
    CountPrefix(files, n, x);
  }

  lemma {:induction false} HeldAll(a: seq<nat>, files: seq<string>, n: nat, m: nat, x: string)
    requires n <= |a| <= |files| && OnMachines(a, m)
    ensures Held(a[..n], files, m, x) == Count(files[..n], x)
  {
    if n == 0 {
      HeldNothing(files, m, x);
    } else {
      HeldAll(a, files, n - 1, m, x);
      HeldOneMore(a, files, n - 1, m, x);
    }
  }

  lemma {:induction false} ListsAreHeld(p: seq<seq<string>>, a: seq<nat>, files: seq<string>, x: string)
    requires |a| <= |files| && forall k :: 0 <= k < |p| ==> p[k] == FilesOf(a, files, k)
    ensures Count(Flatten(p), x) == Held(a, files, |p|, x)
  {
    if p != [] {
      var init, last := p[..|p| - 1], p[|p| - 1];
      ListsAreHeld(init, a, files, x);
      CountConcat(Flatten(init), last, x);
    }
  }

  lemma FlattenIsHeld(a: seq<nat>, files: seq<string>, m: nat, x: string)
    requires |a| <= |files|
    ensures Count(Flatten(Partition(a, files, m)), x) == Held(a, files, m, x)
  {
    ListsAreHeld(Partition(a, files, m), a, files, x);
  }

  /** The buckets together hold exactly the files assigned. */
  lemma Conservation(a: seq<nat>, files: seq<string>, m: nat)
    requires |a| == |files| && OnMachines(a, m)
    ensures multiset(Flatten(Partition(a, files, m))) == multiset(files)
  {
    assert a[..|a|] == a && files[..|a|] == files;
    forall x
      ensures Count(Flatten(Partition(a, files, m)), x) == Count(files, x)
    {
      FlattenIsHeld(a, files, m, x);
      HeldAll(a, files, |a|, m, x);
    }
    SameFilesIsPermutation(Flatten(Partition(a, files, m)), files);
  }

  // ----- weights

  /** `partitionWeight`: the fold over one bucket. */
  method PartitionWeight(files: seq<string>, weights: map<string, real>) returns (sum: real)
    ensures sum == WeightSum(files, weights)
  {
    sum := 0.0;
    for i := 0 to |files|
      invariant sum == WeightSum(files[..i], weights)
    {
      assert files[..i + 1][..i] == files[..i];
      sum := sum + WeightOf(weights, files[i]);
    }
    assert files[..|files|] == files;
  }

  /** What the recorded weights say of a list: each recorded file adds its weight, each other file 1. */
  ghost function WeightSum(files: seq<string>, weights: map<string, real>): real {
    if files == [] then 0.0
    else
      var last := files[|files| - 1];
      WeightSum(files[..|files| - 1], weights) + if last in weights then weights[last] else 1.0
  }

  ghost function RecordedSum(files: seq<string>, weights: map<string, real>): real
    requires forall file <- files :: file in weights
  {
    if files == [] then 0.0 else RecordedSum(files[..|files| - 1], weights) + weights[files[|files| - 1]]
  }

  /** The files of a list that have a record, or those that have none, in order. */
  ghost function Having(files: seq<string>, weights: map<string, real>, record: bool): (some: seq<string>)
    ensures forall file :: file in some <==> file in files && (file in weights <==> record)
  {
    if files == [] then []
    else
      var init, last := files[..|files| - 1], files[|files| - 1];
      assert files == init + [last];
      Having(init, weights, record) + if last in weights <==> record then [last] else []
  }

  /** The weight of a list is what the map holds for its recorded files, and 1 for each of the others. */
  lemma {:induction false} WeightSumMeans(files: seq<string>, weights: map<string, real>)
    ensures WeightSum(files, weights)
         == RecordedSum(Having(files, weights, true), weights) + |Having(files, weights, false)| as real
  {
    if files != [] {
      var init, last := files[..|files| - 1], files[|files| - 1];
      WeightSumMeans(init, weights);
      var recorded := Having(init, weights, true);
      if last in weights {
        assert Having(files, weights, true) == recorded + [last];
        assert (recorded + [last])[..|recorded|] == recorded;
      } else {
        assert Having(files, weights, true) == recorded + [] == recorded;
      }
    }
  }

  /** A bucket's load is the weight of its files. */
  lemma {:induction false} LoadIsWeight(a: seq<nat>, files: seq<string>, weights: map<string, real>, k: nat)
    requires |a| <= |files|
    ensures Load(a, WeightsOf(files, weights), k) == WeightSum(FilesOf(a, files, k), weights)
  {
    if a != [] {
      LoadIsWeight(a[..|a| - 1], files, weights, k);
      var init := FilesOf(a[..|a| - 1], files, k);
      if a[|a| - 1] == k {
        assert (init + [files[|a| - 1]])[..|init|] == init;
      } else {
        assert FilesOf(a, files, k) == init;
      }
    }
  }

  // ----- no partition stays empty

  /** Buckets below `m` that hold a file. */
  ghost function Used(a: seq<nat>): set<nat> {
    set i | 0 <= i < |a| :: a[i]
  }

  lemma {:induction false} UsedHoldFiles(a: seq<nat>, files: seq<string>, k: nat)
    requires |a| <= |files|
    ensures FilesOf(a, files, k) != [] <==> k in Used(a)
  {
    if a != [] {
      UsedHoldFiles(a[..|a| - 1], files, k);
      assert Used(a) == Used(a[..|a| - 1]) + {a[|a| - 1]};
    }
  }

  lemma {:induction false} UnusedIsWeightless(a: seq<nat>, w: seq<real>, k: nat)
    requires |a| <= |w| && k !in Used(a)
    ensures Load(a, w, k) == 0.0
  {
    if a != [] {
      assert Used(a) == Used(a[..|a| - 1]) + {a[|a| - 1]};
      UnusedIsWeightless(a[..|a| - 1], w, k);
    }
  }

  /** While a bucket is empty, the leanest one is. */
  lemma LeanestIsUnused(a: seq<nat>, files: seq<string>, w: seq<real>, m: nat, j: nat, empty: nat)
    requires |a| <= |files| == |w| && NonNegative(w) && Leanest(a, files, w, m, j)
    requires empty < m && empty !in Used(a)
    ensures j !in Used(a)
  {
    UnusedIsWeightless(a, w, empty);
    LoadNonNegative(a, w, j);
    UsedHoldFiles(a, files, empty);
    UsedHoldFiles(a, files, j);
  }

  /** `n` lean choices fill `n` different buckets until none is empty. */
  lemma {:induction false} LeanChoicesSpread(a: seq<nat>, files: seq<string>, w: seq<real>, m: nat, n: nat)
    requires n <= |a| <= |files| == |w| && NonNegative(w) && LeanChoices(a, files, w, m)
    ensures Used(a[..n]) <= Below(m)
    ensures |Used(a[..n])| == if n <= m then n else m
  {
    BelowFacts(m);
    if n > 0 {
      LeanChoicesSpread(a, files, w, m, n - 1);
      var before := Used(a[..n - 1]);
      assert Leanest(a[..n - 1], files, w, m, a[n - 1]);
      assert Used(a[..n]) == before + {a[n - 1]};
      if n <= m {
        if Below(m) <= before {
          SubsetNotLarger(Below(m), before);
          assert false;
        }
        var empty :| empty in Below(m) && empty !in before;
        LeanestIsUnused(a[..n - 1], files, w, m, a[n - 1], empty);
      } else {
        if a[n - 1] !in before {
          SubsetNotLarger(before + {a[n - 1]}, Below(m));
          assert false;
        }
      }
    }
  }

  lemma AllUsedIffEnoughFiles(a: seq<nat>, files: seq<string>, w: seq<real>, m: nat)
    requires |a| == |files| == |w| && NonNegative(w) && LeanChoices(a, files, w, m)
    ensures Below(m) <= Used(a) <==> |files| >= m
  {
    assert a[..|a|] == a;
    LeanChoicesSpread(a, files, w, m, |a|);
    BelowFacts(m);
    if |files| >= m {
      if k :| k in Below(m) && k !in Used(a) {
        SubsetNotLarger(Used(a), Below(m) - {k});
      }
    } else if Below(m) <= Used(a) {
      SubsetNotLarger(Below(m), Used(a));
    }
  }

  ghost predicate AllFilled(a: seq<nat>, files: seq<string>, m: nat)
    requires |a| <= |files|
  {
    forall k :: 0 <= k < m ==> FilesOf(a, files, k) != []
  }

  /** Every bucket gets a file exactly when there are at least as many files as buckets. */
  lemma AllFilledIffEnoughFiles(a: seq<nat>, files: seq<string>, w: seq<real>, m: nat)
    requires |a| == |files| == |w| && NonNegative(w) && LeanChoices(a, files, w, m)
    ensures AllFilled(a, files, m) <==> |files| >= m
  {
    AllUsedIffEnoughFiles(a, files, w, m);
    BelowFacts(m);
    if |files| >= m {
      forall k | 0 <= k < m
        ensures FilesOf(a, files, k) != []
      {
        UsedHoldFiles(a, files, k);
      }
    }
    if AllFilled(a, files, m) {
      forall k | k in Below(m)
        ensures k in Used(a)
      {
        UsedHoldFiles(a, files, k);
      }
    }
  }

  // ----- the assignment

  datatype Outcome =
    | Assigned(buckets: seq<seq<string>>)
    | NoBucket  // the throw on an empty heap

  /** `order` is the files heaviest first and `choices` the leanest bucket at each step. */
  ghost predicate IsLptRun(order: seq<string>, choices: seq<nat>, files: seq<string>, m: nat, rule: ByWeight) {
    && multiset(order) == multiset(files) && |order| == |files| && SortedBy(order, rule.Compare)
    && |choices| == |order| && LeanChoices(choices, order, WeightsOf(order, rule.weights), m)
  }

  /** The buckets hold the files and sums of the choices made so far. */
  ghost predicate Tracks(buckets: seq<Bucket>, choices: seq<nat>, order: seq<string>, w: seq<real>)
    requires |choices| <= |order| == |w|
  {
    forall k :: 0 <= k < |buckets| ==> buckets[k] == Bucket(Load(choices, w, k), FilesOf(choices, order, k))
  }

  lemma TracksStep(buckets: seq<Bucket>, choices: seq<nat>, order: seq<string>, w: seq<real>, top: nat)
    requires |choices| < |order| == |w| && Tracks(buckets, choices, order, w) && top < |buckets|
    ensures Tracks(buckets[top := Bucket(buckets[top].sum + w[|choices|], buckets[top].files + [order[|choices|]])],
                   choices + [top], order, w)
  {
    var more := choices + [top];
    assert more[..|choices|] == choices;
  }

  lemma LeanStep(buckets: seq<Bucket>, choices: seq<nat>, order: seq<string>, w: seq<real>, top: nat)
    requires |choices| < |order| == |w| && Tracks(buckets, choices, order, w) && top < |buckets|
    requires LeanChoices(choices, order, w, |buckets|)
    requires forall k :: 0 <= k < |buckets| ==> !BucketLess(buckets[k], buckets[top])
    ensures LeanChoices(choices + [top], order, w, |buckets|)
  {
    var more := choices + [top];
    forall n | 0 <= n < |more|
      ensures Leanest(more[..n], order, w, |buckets|, more[n])
    {
      if n < |choices| {
        assert more[..n] == choices[..n];
      } else {
        assert more[..n] == choices;
      }
    }
  }

  /** Put the next file of `order` into the bucket at the root of the heap. */
  method PlaceNext(buckets: array<Bucket>, heap: array<nat>, order: seq<string>, n: nat, rule: ByWeight, ghost choices: seq<nat>)
    returns (ghost more: seq<nat>)
    requires 0 < heap.Length == buckets.Length && |choices| == n < |order|
    requires IsPermutation(heap[..]) && HeapOrdered(buckets[..], heap[..])
    requires Tracks(buckets[..], choices, order, WeightsOf(order, rule.weights))
    requires LeanChoices(choices, order, WeightsOf(order, rule.weights), buckets.Length)
    modifies buckets, heap
    ensures IsPermutation(heap[..]) && HeapOrdered(buckets[..], heap[..])
    ensures more == choices + [old(heap[0])]
    ensures Tracks(buckets[..], more, order, WeightsOf(order, rule.weights))
    ensures LeanChoices(more, order, WeightsOf(order, rule.weights), buckets.Length)
  {
    ghost var before, w := buckets[..], WeightsOf(order, rule.weights);
    var file := order[n];
    var top := Place(buckets, heap, file, WeightOf(rule.weights, file));
    LeanStep(before, choices, order, w, top);
    TracksStep(before, choices, order, w, top);
    more := choices + [top];
  }

  /** The placement loop over the sorted files. */
  method Fill(order: seq<string>, partitions: nat, rule: ByWeight) returns (r: Outcome, ghost choices: seq<nat>)
    requires order != []
    ensures r.NoBucket? <==> partitions == 0
    ensures r.Assigned? ==> |choices| == |order| && LeanChoices(choices, order, WeightsOf(order, rule.weights), partitions)
    ensures r.Assigned? ==> r.buckets == Partition(choices, order, partitions) && choices[0] == 0
  {
    choices := [];
    var buckets := new Bucket[partitions](_ => Bucket(0.0, []));
    var heap := new nat[partitions](i => i);
    for n := 0 to |order|
      invariant IsPermutation(heap[..]) && HeapOrdered(buckets[..], heap[..])
      invariant |choices| == n && Tracks(buckets[..], choices, order, WeightsOf(order, rule.weights))
      invariant LeanChoices(choices, order, WeightsOf(order, rule.weights), partitions)
      invariant n > 0 ==> partitions > 0 && choices[0] == 0
      invariant n == 0 && partitions > 0 ==> heap[0] == 0
    {
      if partitions == 0 {
        return NoBucket, [];
      }
      choices := PlaceNext(buckets, heap, order, n, rule, choices);
    }
    var lists := Lists(buckets);
    return Assigned(lists), choices;
  }

  /** The file lists of the buckets. */
  method Lists(buckets: array<Bucket>) returns (lists: seq<seq<string>>)
    ensures |lists| == buckets.Length && forall k :: 0 <= k < buckets.Length ==> lists[k] == buckets[k].files
  {
    lists := [];
    for k := 0 to buckets.Length
      invariant |lists| == k && forall j :: 0 <= j < k ==> lists[j] == buckets[j].files
    {
      lists := lists + [buckets[k].files];
    }
  }

  method AssignWeightedPartitions(files: seq<string>, partitions: nat, rule: ByWeight)
    returns (r: Outcome, ghost order: seq<string>, ghost choices: seq<nat>)
    requires Collates(rule.locale)
    ensures r.NoBucket? <==> partitions == 0 && files != []
    ensures r.Assigned? ==> IsLptRun(order, choices, files, partitions, rule)
    ensures r.Assigned? ==> r.buckets == Partition(choices, order, partitions)
    ensures r.Assigned? && files != [] ==> choices[0] == 0
  {
    if |files| == 0 {
      return Assigned(seq(partitions, _ => [])), [], [];
    }
    rule.CompareIsComparison();
    SortPermutes(files, rule.Compare);
    SortSorts(files, rule.Compare);
    var weighted := Sort(files, rule.Compare);
    order := weighted;
    r, choices := Fill(weighted, partitions, rule);
  }

  // ----- against every other way to split the files

  lemma {:induction false} WeightSumConcat(a: seq<string>, b: seq<string>, weights: map<string, real>)
    ensures WeightSum(a + b, weights) == WeightSum(a, weights) + WeightSum(b, weights)
  {
    if b == [] {
      assert a + b == a;
    } else {
      assert (a + b)[..|a + b| - 1] == a + b[..|b| - 1];
      WeightSumConcat(a, b[..|b| - 1], weights);
    }
  }

  /** `bucket` without position `i`. */
  ghost function Without(bucket: seq<string>, i: nat): seq<string>
    requires i < |bucket|
  {
    bucket[..i] + bucket[i + 1..]
  }

  lemma WithoutWeight(bucket: seq<string>, i: nat, weights: map<string, real>)
    requires i < |bucket|
    ensures WeightSum(Without(bucket, i), weights) == WeightSum(bucket, weights) - WeightOf(weights, bucket[i])
  {
    assert bucket == bucket[..i] + ([bucket[i]] + bucket[i + 1..]);
    WeightSumConcat(bucket[..i], [bucket[i]] + bucket[i + 1..], weights);
    WeightSumConcat([bucket[i]], bucket[i + 1..], weights);
    WeightSumConcat(bucket[..i], bucket[i + 1..], weights);
    assert [bucket[i]][..0] == [];
  }

  lemma WithoutCount(bucket: seq<string>, i: nat, x: string)
    requires i < |bucket|
    ensures Count(bucket, x) == Count(Without(bucket, i), x) + if bucket[i] == x then 1 else 0
  {
    assert bucket == bucket[..i] + ([bucket[i]] + bucket[i + 1..]);
    CountConcat(bucket[..i], [bucket[i]] + bucket[i + 1..], x);
    CountConcat([bucket[i]], bucket[i + 1..], x);
    CountConcat(bucket[..i], bucket[i + 1..], x);
    assert [bucket[i]][..0] == [];
  }

  /** Changing one bucket changes what all of them hold by the difference. */
  lemma {:induction false} FlattenUpdate(buckets: seq<seq<string>>, k: nat, bucket: seq<string>, x: string)
    requires k < |buckets|
    ensures Count(Flatten(buckets[k := bucket]), x) + Count(buckets[k], x) == Count(Flatten(buckets), x) + Count(bucket, x)
  {
    var init, last, after := buckets[..|buckets| - 1], buckets[|buckets| - 1], buckets[k := bucket];
    CountConcat(Flatten(init), last, x);
    CountConcat(Flatten(after[..|after| - 1]), after[|after| - 1], x);
    if k == |buckets| - 1 {
      assert after[..k] == init;
    } else {
      assert after[..|after| - 1] == init[k := bucket];
      FlattenUpdate(init, k, bucket, x);
    }
  }

  lemma {:induction false} CountFinds(s: seq<string>, x: string) returns (i: nat)
    requires Count(s, x) > 0
    ensures i < |s| && s[i] == x
  {
    if s[|s| - 1] == x {
      i := |s| - 1;
    } else {
      i := CountFinds(s[..|s| - 1], x);
    }
  }

  lemma {:induction false} FlattenFinds(buckets: seq<seq<string>>, x: string) returns (k: nat, i: nat)
    requires Count(Flatten(buckets), x) > 0
    ensures k < |buckets| && i < |buckets[k]| && buckets[k][i] == x
  {
    var init, last := buckets[..|buckets| - 1], buckets[|buckets| - 1];
    CountConcat(Flatten(init), last, x);
    if Count(last, x) > 0 {
      k := |buckets| - 1;
      i := CountFinds(last, x);
    } else {
      k, i := FlattenFinds(init, x);
    }
  }

  /** Taking one occurrence of the last file out of the bucket that holds it splits the files before it. */
  lemma RemoveLast(order: seq<string>, split: seq<seq<string>>) returns (k: nat, i: nat)
    requires order != [] && SameFiles(Flatten(split), order)
    ensures k < |split| && i < |split[k]| && split[k][i] == order[|order| - 1]
    ensures SameFiles(Flatten(split[k := Without(split[k], i)]), order[..|order| - 1])
  {
    k, i := FlattenFinds(split, order[|order| - 1]);
    var rest, init := Flatten(split[k := Without(split[k], i)]), order[..|order| - 1];
    forall x
      ensures Count(rest, x) == Count(init, x)
    {
      FlattenUpdate(split, k, Without(split[k], i), x);
      WithoutCount(split[k], i, x);
    }
  }

  /** Any split of `order` into buckets is an assignment with the same bucket weights. */
  lemma {:induction false} SplitIsAssignment(order: seq<string>, split: seq<seq<string>>, weights: map<string, real>)
    returns (b: seq<nat>)
    requires SameFiles(Flatten(split), order)
    ensures |b| == |order| && OnMachines(b, |split|)
    ensures forall k :: 0 <= k < |split| ==> Load(b, WeightsOf(order, weights), k) == WeightSum(split[k], weights)
    decreases |order|
  {
    if order == [] {
      b := [];
      forall k | 0 <= k < |split|
        ensures split[k] == []
      {
        EmptyFlatten(split, k);
      }
    } else {
      var k, i := RemoveLast(order, split);
      WithoutWeight(split[k], i, weights);
      var before := SplitIsAssignment(order[..|order| - 1], split[k := Without(split[k], i)], weights);
      b := before + [k];
      assert b[..|before|] == before;
      LoadOfInit(before, order, weights);
    }
  }

  lemma {:induction false} EmptyFlatten(buckets: seq<seq<string>>, k: nat)
    requires SameFiles(Flatten(buckets), []) && k < |buckets|
    ensures buckets[k] == []
  {
    if buckets[k] != [] {
      var x := buckets[k][|buckets[k]| - 1];
      FlattenUpdate(buckets, k, [], x);
    }
  }

  /** Loads read only the weights of the jobs assigned. */
  lemma {:induction false} LoadReads(a: seq<nat>, v: seq<real>, w: seq<real>, k: nat)
    requires |a| <= |v| && |a| <= |w| && v[..|a|] == w[..|a|]
    ensures Load(a, v, k) == Load(a, w, k)
  {
    if a != [] {
      var n := |a| - 1;
      assert v[n] == v[..|a|][n] == w[..|a|][n] == w[n];
      assert v[..n] == v[..|a|][..n] && w[..n] == w[..|a|][..n];
      LoadReads(a[..n], v, w, k);
    }
  }

  lemma LoadOfInit(a: seq<nat>, order: seq<string>, weights: map<string, real>)
    requires order != [] && |a| == |order| - 1
    ensures forall k :: Load(a, WeightsOf(order[..|order| - 1], weights), k) == Load(a, WeightsOf(order, weights), k)
  {
    forall k: nat
      ensures Load(a, WeightsOf(order[..|order| - 1], weights), k) == Load(a, WeightsOf(order, weights), k)
    {
      LoadReads(a, WeightsOf(order[..|order| - 1], weights), WeightsOf(order, weights), k);
    }
  }

  /** A recorded file is placed before another one whose recorded weight is smaller, before one without a record if its
      own weight exceeds 1, and behind it if its weight is below 1; files that weigh the same go by name. */
  lemma HeavierFirst(order: seq<string>, choices: seq<nat>, files: seq<string>, m: nat, rule: ByWeight, i: nat, j: nat)
    requires Collates(rule.locale) && IsLptRun(order, choices, files, m, rule) && i < |order| && j < |order|
    ensures order[i] in rule.weights && order[j] in rule.weights && rule.weights[order[i]] > rule.weights[order[j]] ==> i < j
    ensures order[i] in rule.weights && order[j] !in rule.weights && rule.weights[order[i]] > 1.0 ==> i < j
    ensures order[i] in rule.weights && order[j] !in rule.weights && rule.weights[order[i]] < 1.0 ==> j < i
    ensures i < j && order[i] in rule.weights && order[j] in rule.weights && rule.weights[order[i]] == rule.weights[order[j]] ==>
      rule.locale(order[i], order[j]) <= 0
    ensures order[i] !in rule.weights && order[j] !in rule.weights && i < j ==> rule.locale(order[i], order[j]) <= 0
  {
    assert i < j ==> rule.Compare(order[i], order[j]) <= 0;
    assert j < i ==> rule.Compare(order[j], order[i]) <= 0;
  }

  lemma SortedIsDescending(order: seq<string>, rule: ByWeight)
    requires SortedBy(order, rule.Compare)
    ensures Descending(WeightsOf(order, rule.weights))
  {
    var w := WeightsOf(order, rule.weights);
    forall i, j | 0 <= i <= j < |w|
      ensures w[i] >= w[j]
    {
      assert i < j ==> rule.Compare(order[i], order[j]) <= 0;
    }
  }

  ghost predicate NoNegativeWeights(weights: map<string, real>) {
    forall file :: file in weights ==> weights[file] >= 0.0
  }

  /** The assignment loses and repeats no file, balances to within one file, and fills every partition it can. */
  lemma PartitionsAreBalanced(order: seq<string>, choices: seq<nat>, files: seq<string>, m: nat, rule: ByWeight, most: real)
    requires IsLptRun(order, choices, files, m, rule) && NoNegativeWeights(rule.weights)
    requires most >= 0.0 && forall f :: f in order ==> WeightOf(rule.weights, f) <= most
    ensures multiset(Flatten(Partition(choices, order, m))) == multiset(files)
    ensures AllFilled(choices, order, m) <==> |files| >= m
    ensures forall j, k :: 0 <= j < m && 0 <= k < m ==>
              WeightSum(FilesOf(choices, order, j), rule.weights) - WeightSum(FilesOf(choices, order, k), rule.weights) <= most
  {
    var w := WeightsOf(order, rule.weights);
    LeanIsGreedy(choices, order, w, m);
    Conservation(choices, order, m);
    AllFilledIffEnoughFiles(choices, order, w, m);
    SpreadBound(choices, w, |choices|, m, most);
    assert choices[..|choices|] == choices;
    forall j, k | 0 <= j < m && 0 <= k < m
      ensures WeightSum(FilesOf(choices, order, j), rule.weights) - WeightSum(FilesOf(choices, order, k), rule.weights) <= most
    {
      LoadIsWeight(choices, order, rule.weights, j);
      LoadIsWeight(choices, order, rule.weights, k);
    }
  }

  /** One file for two partitions: every run leaves a partition empty. */
  lemma OneFileLeavesOneEmpty(order: seq<string>, choices: seq<nat>, rule: ByWeight)
    requires IsLptRun(order, choices, ["a.test.ts"], 2, rule)
    ensures !AllFilled(choices, order, 2)
  {
    assert |order| == 1 && choices[..0] == [];
    assert FilesOf(choices, order, 1 - choices[0]) == [];
  }

  /** For every way to split the same files into `m` lists of weight at most `t`, no partition of weight `x`
      exceeds 4/3 - 1/(3m) of `t`. */
  lemma LptGuarantee(order: seq<string>, choices: seq<nat>, files: seq<string>, m: nat, rule: ByWeight,
                     other: seq<seq<string>>, t: real, k: nat, x: real)
    requires IsLptRun(order, choices, files, m, rule) && NoNegativeWeights(rule.weights)
    requires |other| == m && multiset(Flatten(other)) == multiset(files)
    requires forall j :: 0 <= j < m ==> WeightSum(other[j], rule.weights) <= t
    requires k < m && x == WeightSum(FilesOf(choices, order, k), rule.weights)
    ensures 3.0 * m as real * x <= (4.0 * m as real - 1.0) * t
  {
    var w := WeightsOf(order, rule.weights);
    SameFilesIsPermutation(Flatten(other), order);
    var b := SplitIsAssignment(order, other, rule.weights);
    SortedIsDescending(order, rule);
    LeanIsGreedy(choices, order, w, m);
    LoadIsWeight(choices, order, rule.weights, k);
    GreedyBound(choices, b, w, m, t, k, x);
  }

  // ----- the per-project include lists

  /** Backslashes become slashes. */
  function Normalize(file: string): (path: string)
    ensures |path| == |file|
    ensures forall i :: 0 <= i < |file| ==> path[i] == if file[i] == '\\' then '/' else file[i]
  {
    seq(|file|, i requires 0 <= i < |file| => if file[i] == '\\' then '/' else file[i])
  }

  predicate IsProcessBound(projectOf: map<string, string>, file: string) {
    file in projectOf && projectOf[file] == "process-bound"
  }

  /** The include list that one partition's config gives to one project. */
  function Include(files: seq<string>, projectOf: map<string, string>, processBound: bool): seq<string> {
    if files == [] then []
    else
      var last := files[|files| - 1];
      Include(files[..|files| - 1], projectOf, processBound)
      + if IsProcessBound(projectOf, last) == processBound then [Normalize(last)] else []
  }

  ghost function Paths(files: seq<string>): seq<string> {
    if files == [] then [] else Paths(files[..|files| - 1]) + [Normalize(files[|files| - 1])]
  }

  /** Each file of a partition reaches exactly one of the two projects. */
  lemma {:induction false} ProjectsSplit(files: seq<string>, projectOf: map<string, string>, x: string)
    ensures Count(Include(files, projectOf, true), x) + Count(Include(files, projectOf, false), x) == Count(Paths(files), x)
  {
    if files != [] {
      var init, last := files[..|files| - 1], files[|files| - 1];
      ProjectsSplit(init, projectOf, x);
      CountStep(Include(init, projectOf, true), Normalize(last), IsProcessBound(projectOf, last), x);
      CountStep(Include(init, projectOf, false), Normalize(last), !IsProcessBound(projectOf, last), x);
      CountConcat(Paths(init), [Normalize(last)], x);
    }
  }

  /** A path is included in the process-bound project exactly when some file of that path is recorded for it, and in the
      other project exactly when some file of that path is not. */
  lemma {:induction false} ProjectsByRecord(files: seq<string>, projectOf: map<string, string>, x: string)
    ensures x in Include(files, projectOf, true) <==>
      exists file <- files :: Normalize(file) == x && file in projectOf && projectOf[file] == "process-bound"
    ensures x in Include(files, projectOf, false) <==>
      exists file <- files :: Normalize(file) == x && !(file in projectOf && projectOf[file] == "process-bound")
  {
    if files != [] {
      var init, last := files[..|files| - 1], files[|files| - 1];
      ProjectsByRecord(init, projectOf, x);
      assert files == init + [last];
    }
  }

  lemma {:induction false} PathsConcat(a: seq<string>, b: seq<string>)
    ensures Paths(a + b) == Paths(a) + Paths(b)
  {
    if b == [] {
      assert a + b == a;
    } else {
      assert (a + b)[..|a + b| - 1] == a + b[..|b| - 1];
      PathsConcat(a, b[..|b| - 1]);
    }
  }

  lemma PathsWithout(files: seq<string>, i: nat, x: string)
    requires i < |files|
    ensures Count(Paths(files), x) == Count(Paths(Without(files, i)), x) + if Normalize(files[i]) == x then 1 else 0
  {
    var before, after := files[..i], files[i + 1..];
    assert files == before + ([files[i]] + after);
    PathsConcat(before, [files[i]] + after);
    PathsConcat([files[i]], after);
    PathsConcat(before, after);
    assert [files[i]][..0] == [];
    CountConcat(Paths(before), [Normalize(files[i])] + Paths(after), x);
    CountConcat([Normalize(files[i])], Paths(after), x);
    CountConcat(Paths(before), Paths(after), x);
    CountStep([], Normalize(files[i]), true, x);
  }

  lemma {:induction false} PathsPermute(a: seq<string>, b: seq<string>, x: string)
    requires SameFiles(a, b)
    ensures Count(Paths(a), x) == Count(Paths(b), x)
    decreases |a|
  {
    if a == [] {
      assert b == [] by {
        assert b != [] ==> Count(a, b[|b| - 1]) == Count(b, b[|b| - 1]);
      }
    } else {
      var init, last := a[..|a| - 1], a[|a| - 1];
      var i := CountFinds(b, last);
      var rest := Without(b, i);
      forall y
        ensures Count(init, y) == Count(rest, y)
      {
        WithoutCount(b, i, y);
      }
      PathsPermute(init, rest, x);
      PathsWithout(b, i, x);
      CountConcat(Paths(init), [Normalize(last)], x);
      CountStep([], Normalize(last), true, x);
    }
  }

  /** How often `x` is included by the first `m` partitions, over both projects. */
  ghost function Included(buckets: seq<seq<string>>, projectOf: map<string, string>, x: string): nat {
    if buckets == [] then 0
    else
      var last := buckets[|buckets| - 1];
      Included(buckets[..|buckets| - 1], projectOf, x)
      + Count(Include(last, projectOf, true), x) + Count(Include(last, projectOf, false), x)
  }

  lemma {:induction false} IncludedIsPaths(buckets: seq<seq<string>>, projectOf: map<string, string>, x: string)
    ensures Included(buckets, projectOf, x) == Count(Paths(Flatten(buckets)), x)
  {
    if buckets != [] {
      var init, last := buckets[..|buckets| - 1], buckets[|buckets| - 1];
      IncludedIsPaths(init, projectOf, x);
      ProjectsSplit(last, projectOf, x);
      PathsConcat(Flatten(init), last);
      CountConcat(Paths(Flatten(init)), Paths(last), x);
    }
  }

  /** Over all partitions and both projects every file's path is included exactly as often as the file is listed. */
  lemma EveryFileIncluded(order: seq<string>, choices: seq<nat>, files: seq<string>, m: nat, rule: ByWeight,
                          projectOf: map<string, string>, x: string)
    requires IsLptRun(order, choices, files, m, rule)
    ensures Included(Partition(choices, order, m), projectOf, x) == Count(Paths(files), x)
  {
    LeanIsGreedy(choices, order, WeightsOf(order, rule.weights), m);
    Conservation(choices, order, m);
    var all := Flatten(Partition(choices, order, m));
    SameFilesIsPermutation(all, files);
    IncludedIsPaths(Partition(choices, order, m), projectOf, x);
    PathsPermute(all, files, x);
  }

  /** `assertNonEmptyAssignments`: the number of the first partition without files, if any. */
  method FirstEmpty(assignments: seq<seq<string>>) returns (index: int)
    ensures index == -1 <==> forall k :: 0 <= k < |assignments| ==> assignments[k] != []
    ensures index != -1 ==> 0 <= index < |assignments| && assignments[index] == []
                            && forall k :: 0 <= k < index ==> assignments[k] != []
  {
    for k := 0 to |assignments|
      invariant forall j :: 0 <= j < k ==> assignments[j] != []
    {
      if |assignments[k]| == 0 {
        return k;
      }
    }
    return -1;
  }
}
