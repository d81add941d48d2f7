/** `mapConcurrent`: several workers draw indices from one counter and write one
    result list. A step is what one worker does between two awaits. */
module WorkerPool {
  import opened Basics

  /** How a call of the operation settles. */
  datatype Reply<+R> = Resolved(value: R) | Rejected

  datatype Worker =
    | Ready             // about to test the loop condition
    | Waiting(index: nat)  // awaiting the operation on that index
    | Returned
    | Failed(index: nat)   // its operation rejected

  /** The values to map (`None` is an undefined entry), the worker limit, and how each call settles. */
  datatype Job<T, !R> = Job(values: seq<Option<T>>, jobs: nat, reply: nat -> Reply<R>)

  /** The shared counter and results, the workers, and who claimed each index so far. */
  datatype Pool<R> = Pool(next: nat, results: map<nat, R>, workers: seq<Worker>, claimedBy: seq<nat>)

  function WorkerCount<T, R>(job: Job<T, R>): nat {
    if job.jobs < |job.values| then job.jobs else |job.values|
  }

  function Start<T, R>(job: Job<T, R>): Pool<R> {
    Pool(0, map[], seq(WorkerCount(job), _ => Ready), [])
  }

  datatype Action = Claim | Stop | Settle

  predicate Enabled<T, R>(job: Job<T, R>, s: Pool<R>, w: nat, action: Action) {
    w < |s.workers| &&
    match action
    case Claim => s.workers[w].Ready? && s.next < |job.values|
    case Stop => s.workers[w].Ready? && s.next >= |job.values|
    case Settle => s.workers[w].Waiting?
  }

  /** Worker `w` claims an index (an undefined value ends it), stops, or has its operation settle. */
  function Perform<T, R>(job: Job<T, R>, s: Pool<R>, w: nat, action: Action): Pool<R>
    requires Enabled(job, s, w, action)
  {
    match action
    case Claim =>
      var worker := if job.values[s.next].None? then Returned else Waiting(s.next);
      Pool(s.next + 1, s.results, s.workers[w := worker], s.claimedBy + [w])
    case Stop => s.(workers := s.workers[w := Returned])
    case Settle =>
      var index := s.workers[w].index;
      match job.reply(index)
      case Resolved(value) => s.(results := s.results[index := value], workers := s.workers[w := Ready])
      case Rejected => s.(workers := s.workers[w := Failed(index)])
  }

  ghost predicate Next<T, R>(job: Job<T, R>, s: Pool<R>, t: Pool<R>) {
    exists w: nat, action :: Enabled(job, s, w, action) && t == Perform(job, s, w, action)
  }

  /** Any interleaving of steps from the start. */
  ghost predicate IsRun<T, R>(job: Job<T, R>, run: seq<Pool<R>>) {
    && |run| > 0 && run[0] == Start(job)
    && forall i :: 0 < i < |run| ==> Next(job, run[i - 1], run[i])
  }

  // ----- the invariant

  /** Index `i` is with the worker that claimed it, done, or an undefined entry its claimer stopped on. */
  ghost predicate Accounted<T, R>(job: Job<T, R>, s: Pool<R>, i: nat)
    requires i < |job.values| && i < |s.claimedBy|
  {
    var w := s.claimedBy[i];
    && w < |s.workers|
    && match job.values[i]
       case None => s.workers[w] == Returned && i !in s.results
       case Some(_) =>
         if i in s.results then job.reply(i) == Resolved(s.results[i])
         else s.workers[w] == Waiting(i) || (s.workers[w] == Failed(i) && job.reply(i) == Rejected)
  }

  /** What the state of worker `w` says about the counter. */
  ghost predicate Honest<T, R>(job: Job<T, R>, s: Pool<R>, w: nat)
    requires w < |s.workers|
  {
    match s.workers[w]
    case Ready => true
    case Waiting(i) => i < |s.claimedBy| && s.claimedBy[i] == w && i !in s.results
    case Returned => s.next >= |job.values| || exists i :: 0 <= i < |s.claimedBy| && i < |job.values| && job.values[i].None?
    case Failed(i) => i < |s.claimedBy| && s.claimedBy[i] == w && i !in s.results
  }

  ghost predicate Inv<T, R>(job: Job<T, R>, s: Pool<R>) {
    && |s.workers| == WorkerCount(job)
    && s.next == |s.claimedBy| <= |job.values|
    && (forall i :: i in s.results ==> i < s.next)
    && (forall i :: 0 <= i < s.next ==> Accounted(job, s, i))
    && (forall w :: 0 <= w < |s.workers| ==> Honest(job, s, w))
  }

  lemma StartKeeps<T, R>(job: Job<T, R>)
    ensures Inv(job, Start(job))
  {
  }

  lemma ClaimKeeps<T, R>(job: Job<T, R>, s: Pool<R>, w: nat)
    requires Inv(job, s) && Enabled(job, s, w, Claim)
    ensures Inv(job, Perform(job, s, w, Claim))
  {
    var t := Perform(job, s, w, Claim);
    forall i | 0 <= i < t.next
      ensures Accounted(job, t, i)
    {
      if i < s.next {
        assert Accounted(job, s, i);
        assert t.claimedBy[i] == s.claimedBy[i];
      }
    }
    forall v | 0 <= v < |t.workers|
      ensures Honest(job, t, v)
    {
      assert Honest(job, s, v);
      assert t.claimedBy[s.next] == w;
      if s.workers[v].Returned? && s.next < |job.values| {
        var i :| 0 <= i < |s.claimedBy| && i < |job.values| && job.values[i].None?;
        assert 0 <= i < |t.claimedBy|;
      }
    }
  }

  lemma StopKeeps<T, R>(job: Job<T, R>, s: Pool<R>, w: nat)
    requires Inv(job, s) && Enabled(job, s, w, Stop)
    ensures Inv(job, Perform(job, s, w, Stop))
  {
    var t := Perform(job, s, w, Stop);
    forall i | 0 <= i < t.next
      ensures Accounted(job, t, i)
    {
      assert Accounted(job, s, i);
    }
    forall v | 0 <= v < |t.workers|
      ensures Honest(job, t, v)
    {
      assert Honest(job, s, v);
    }
  }

  lemma SettleKeeps<T, R>(job: Job<T, R>, s: Pool<R>, w: nat)
    requires Inv(job, s) && Enabled(job, s, w, Settle)
    ensures Inv(job, Perform(job, s, w, Settle))
  {
    var t := Perform(job, s, w, Settle);
    var index := s.workers[w].index;
    assert Honest(job, s, w);
    assert Accounted(job, s, index);
    forall i | 0 <= i < t.next
      ensures Accounted(job, t, i)
    {
      assert Accounted(job, s, i);
    }
    forall v | 0 <= v < |t.workers|
      ensures Honest(job, t, v)
    {
      assert Honest(job, s, v);
    }
  }

  /** Every step of every worker keeps the invariant. */
  lemma StepKeeps<T, R>(job: Job<T, R>, s: Pool<R>, t: Pool<R>)
    requires Inv(job, s) && Next(job, s, t)
    ensures Inv(job, t)
  {
    var w: nat, action :| Enabled(job, s, w, action) && t == Perform(job, s, w, action);
    match action
    case Claim => ClaimKeeps(job, s, w);
    case Stop => StopKeeps(job, s, w);
    case Settle => SettleKeeps(job, s, w);
  }

  lemma {:induction false} RunKeeps<T, R>(job: Job<T, R>, run: seq<Pool<R>>)
    requires IsRun(job, run)
    ensures Inv(job, run[|run| - 1])
    decreases |run|
  {
    if |run| == 1 {
      StartKeeps(job);
    } else {
      var init := run[..|run| - 1];
      assert forall i :: 0 <= i < |init| ==> init[i] == run[i];
      RunKeeps(job, init);
      StepKeeps(job, run[|run| - 2], run[|run| - 1]);
    }
  }

  // ----- what every run keeps

  /** The indices whose operation is under way. */
  ghost function InFlight<R>(s: Pool<R>): set<nat> {
    set w | 0 <= w < |s.workers| && s.workers[w].Waiting? :: s.workers[w].index
  }

  lemma {:induction false} WaitingBound(workers: seq<Worker>)
    ensures |set w | 0 <= w < |workers| && workers[w].Waiting? :: workers[w].index| <= |workers|
  {
    if workers != [] {
      var init, last := workers[..|workers| - 1], workers[|workers| - 1];
      WaitingBound(init);
      var before := set w | 0 <= w < |init| && init[w].Waiting? :: init[w].index;
      var all := set w | 0 <= w < |workers| && workers[w].Waiting? :: workers[w].index;
      forall x | x in all
        ensures x in before || (last.Waiting? && x == last.index)
      {
        var w :| 0 <= w < |workers| && workers[w].Waiting? && workers[w].index == x;
        assert w < |init| ==> init[w] == workers[w];
      }
      if last.Waiting? {
        assert all <= before + {last.index};
        SubsetNotLarger(all, before + {last.index});
      } else {
        SubsetNotLarger(all, before);
      }
    }
  }

  /** In every interleaving: as many workers as the limit and the values allow, and never more operations under way;
      one claimer per index, in order; no index under way twice; every stored result is the operation's result on that
      very value. */
  lemma EveryRun<T, R>(job: Job<T, R>, run: seq<Pool<R>>)
    requires IsRun(job, run)
    ensures var s := run[|run| - 1];
            && |s.workers| <= job.jobs && |s.workers| <= |job.values|
            && (|s.workers| == job.jobs || |s.workers| == |job.values|)
            && |InFlight(s)| <= job.jobs && |InFlight(s)| <= |job.values|
            && |s.claimedBy| == s.next <= |job.values|
            && (forall v, w :: 0 <= v < w < |s.workers| && s.workers[v].Waiting? && s.workers[w].Waiting?
                  ==> s.workers[v].index != s.workers[w].index)
            && (forall i :: i in s.results ==> i < |job.values| && job.values[i].Some? && job.reply(i) == Resolved(s.results[i]))
  {
    var s := run[|run| - 1];
    RunKeeps(job, run);
    WaitingBound(s.workers);
    forall v, w | 0 <= v < w < |s.workers| && s.workers[v].Waiting? && s.workers[w].Waiting?
      ensures s.workers[v].index != s.workers[w].index
    {
      assert Honest(job, s, v) && Honest(job, s, w);
    }
    forall i | i in s.results
      ensures i < |job.values| && job.values[i].Some? && job.reply(i) == Resolved(s.results[i])
    {
      assert Accounted(job, s, i);
    }
  }

  // ----- the limit is reached

  /** The pool after each of the first `k` workers has claimed its first value. */
  function Claimed<T, R>(job: Job<T, R>, k: nat): Pool<R>
    requires k <= WorkerCount(job)
  {
    Pool(k, map[], seq(WorkerCount(job), w requires w >= 0 => if w < k then Waiting(w) else Ready), seq(k, i => i))
  }

  lemma ClaimsOneMore<T, R>(job: Job<T, R>, k: nat)
    requires k < WorkerCount(job) && job.values[k].Some?
    ensures Next(job, Claimed(job, k), Claimed(job, k + 1))
  {
    var s, t := Claimed(job, k), Claimed(job, k + 1);
    assert Enabled(job, s, k, Claim);
    assert t.workers == s.workers[k := Waiting(k)];
    assert t == Perform(job, s, k, Claim);
  }

  lemma {:induction false} ClaimingRun<T, R>(job: Job<T, R>, k: nat) returns (run: seq<Pool<R>>)
    requires k <= WorkerCount(job) && forall i :: 0 <= i < |job.values| ==> job.values[i].Some?
    ensures IsRun(job, run) && run[|run| - 1] == Claimed(job, k)
  {
    if k == 0 {
      assert Claimed(job, 0).workers == Start(job).workers;
      run := [Start(job)];
    } else {
      var before := ClaimingRun(job, k - 1);
      ClaimsOneMore(job, k - 1);
      run := before + [Claimed(job, k)];
    }
  }

  lemma AllInFlight<T, R>(job: Job<T, R>, k: nat)
    requires k <= WorkerCount(job)
    ensures |InFlight(Claimed(job, k))| == k
  {
    var s := Claimed(job, k);
    BelowFacts(k);
    forall i: nat
      ensures i in InFlight(s) <==> i in Below(k)
    {
      assert i < k ==> s.workers[i] == Waiting(i);
    }
    assert InFlight(s) == Below(k);
  }

  /** On defined values some interleaving has as many operations under way at once as the limit and the values allow. */
  lemma LimitReached<T, R>(job: Job<T, R>)
    requires forall i :: 0 <= i < |job.values| ==> job.values[i].Some?
    ensures exists run: seq<Pool<R>> ::
      IsRun(job, run) && |InFlight(run[|run| - 1])| == if job.jobs <= |job.values| then job.jobs else |job.values|
  {
    var run := ClaimingRun(job, WorkerCount(job));
    AllInFlight(job, WorkerCount(job));
  }

  // ----- progress

  predicate Ended(w: Worker) {
    w.Returned? || w.Failed?
  }

  /** Until every worker has ended some step is possible. */
  lemma SomeStepEnabled<T, R>(job: Job<T, R>, s: Pool<R>, w: nat)
    requires w < |s.workers| && !Ended(s.workers[w])
    ensures exists t :: Next(job, s, t)
  {
    var action := if s.workers[w].Waiting? then Settle else if s.next < |job.values| then Claim else Stop;
    assert Next(job, s, Perform(job, s, w, action));
  }

  ghost function Work(workers: seq<Worker>): nat {
    if workers == [] then 0
    else Work(workers[..|workers| - 1])
         + match workers[|workers| - 1]
           case Ready => 1
           case Waiting(_) => 2
           case Returned => 0
           case Failed(_) => 0
  }

  /** Steps a pool can still take. */
  ghost function Remaining<T, R>(job: Job<T, R>, s: Pool<R>): int {
    2 * (|job.values| - s.next) + Work(s.workers)
  }

  lemma {:induction false} WorkUpdate(workers: seq<Worker>, w: nat, worker: Worker)
    requires w < |workers|
    ensures Work(workers[w := worker]) == Work(workers) - Work([workers[w]]) + Work([worker])
  {
    var init := workers[..|workers| - 1];
    assert [workers[w]][..0] == [] && [worker][..0] == [];
    if w == |workers| - 1 {
      assert workers[w := worker][..w] == init;
    } else {
      assert workers[w := worker][..|workers| - 1] == init[w := worker];
      WorkUpdate(init, w, worker);
    }
  }

  lemma StepUsesWork<T, R>(job: Job<T, R>, s: Pool<R>, t: Pool<R>)
    requires Next(job, s, t)
    ensures Remaining(job, t) < Remaining(job, s)
  {
    var w: nat, action :| Enabled(job, s, w, action) && t == Perform(job, s, w, action);
    WorkUpdate(s.workers, w, t.workers[w]);
    assert [s.workers[w]][..0] == [] && [t.workers[w]][..0] == [];
  }

  lemma {:induction false} RunUsesWork<T, R>(job: Job<T, R>, run: seq<Pool<R>>)
    requires IsRun(job, run)
    ensures Remaining(job, run[|run| - 1]) + |run| - 1 <= Remaining(job, Start(job))
    decreases |run|
  {
    if |run| > 1 {
      var init := run[..|run| - 1];
      assert forall i :: 0 <= i < |init| ==> init[i] == run[i];
      RunUsesWork(job, init);
      StepUsesWork(job, run[|run| - 2], run[|run| - 1]);
    }
  }

  lemma {:induction false} AllReadyWork(n: nat)
    ensures Work(seq(n, _ => Ready)) == n
  {
    if n > 0 {
      assert seq(n, _ => Ready)[..n - 1] == seq(n - 1, _ => Ready);
      AllReadyWork(n - 1);
    }
  }

  /** No run takes more than two steps a value and one a worker, so every run ends. */
  lemma RunsEnd<T, R>(job: Job<T, R>, run: seq<Pool<R>>)
    requires IsRun(job, run)
    ensures |run| - 1 <= 2 * |job.values| + WorkerCount(job)
  {
    RunUsesWork(job, run);
    RunKeeps(job, run);
    AllReadyWork(WorkerCount(job));
    assert Start(job).workers == seq(WorkerCount(job), _ => Ready);
  }

  // ----- rejection

  ghost predicate AllEnded<R>(s: Pool<R>) {
    forall w :: 0 <= w < |s.workers| ==> Ended(s.workers[w])
  }

  /** Once every worker has ended, the call resolves exactly when no operation on a claimed value rejected. */
  lemma ResolvesIffNoneRejected<T, R>(job: Job<T, R>, run: seq<Pool<R>>)
    requires IsRun(job, run) && AllEnded(run[|run| - 1])
    ensures var s := run[|run| - 1];
      && s.next <= |job.values|
      && (Resolves(s) <==> forall i :: 0 <= i < s.next && job.values[i].Some? ==> job.reply(i).Resolved?)
  {
    var s := run[|run| - 1];
    RunKeeps(job, run);
    if Resolves(s) {
      forall i | 0 <= i < s.next && job.values[i].Some?
        ensures job.reply(i).Resolved?
      {
        assert Accounted(job, s, i);
      }
    } else {
      var w: nat :| w < |s.workers| && s.workers[w] != Returned;
      assert Ended(s.workers[w]) && Honest(job, s, w);
      var i := s.workers[w].index;
      assert Accounted(job, s, i);
    }
  }

  // ----- completion

  /** All workers returned: the call resolves with the results. */
  ghost predicate Resolves<R>(s: Pool<R>) {
    forall w :: 0 <= w < |s.workers| ==> s.workers[w] == Returned
  }

  ghost predicate Complete<T, R>(job: Job<T, R>, results: map<nat, R>) {
    && (forall i: nat :: i in results <==> i < |job.values|)
    && forall i :: i in results ==> job.reply(i) == Resolved(results[i])
  }

  /** Some worker runs, unless there is nothing to do, and no value is undefined. */
  predicate Fulfillable<T, R>(job: Job<T, R>) {
    (job.values == [] || job.jobs > 0) && forall i :: 0 <= i < |job.values| ==> job.values[i].Some?
  }

  lemma FulfillableCompletes<T, R>(job: Job<T, R>, s: Pool<R>)
    requires Inv(job, s) && Resolves(s) && Fulfillable(job)
    ensures Complete(job, s.results)
  {
    if job.values != [] {
      assert Honest(job, s, 0);
    }
    forall i: nat | i < |job.values|
      ensures i in s.results && job.reply(i) == Resolved(s.results[i])
    {
      assert Accounted(job, s, i);
    }
  }

  lemma CompleteWasFulfillable<T, R>(job: Job<T, R>, s: Pool<R>)
    requires Inv(job, s) && Complete(job, s.results)
    ensures Fulfillable(job)
  {
    forall i | 0 <= i < |job.values|
      ensures job.values[i].Some? && WorkerCount(job) > 0
    {
      assert i in s.results;
      assert Accounted(job, s, i);
    }
    assert job.values != [] ==> job.values[0].Some?;
  }

  /** The resolved results are the operation's results on every value exactly when there is a worker
      (or nothing to do) and no value is undefined. */
  lemma CompleteIff<T, R>(job: Job<T, R>, run: seq<Pool<R>>)
    requires IsRun(job, run) && Resolves(run[|run| - 1])
    ensures Complete(job, run[|run| - 1].results) <==> Fulfillable(job)
  {
    var s := run[|run| - 1];
    RunKeeps(job, run);
    if Fulfillable(job) {
      FulfillableCompletes(job, s);
    }
    if Complete(job, s.results) {
      CompleteWasFulfillable(job, s);
    }
  }

  // ----- the two ways to resolve with results missing

  lemma OneStepRun<T, R>(job: Job<T, R>, w: nat, action: Action)
    requires Enabled(job, Start(job), w, action)
    ensures IsRun(job, [Start(job), Perform(job, Start(job), w, action)])
  {
    assert Next(job, Start(job), Perform(job, Start(job), w, action));
  }

  /** The values undefined and 7 with one worker: it ends on the first value, and the second is never mapped. */
  lemma UndefinedEndsWorker(reply: nat -> Reply<nat>)
    ensures var job := Job([None, Some(7)], 1, reply);
      exists run: seq<Pool<nat>> :: IsRun(job, run) && Resolves(run[|run| - 1]) && run[|run| - 1].results == map[]
  {
    var job := Job([None, Some(7)], 1, reply);
    OneStepRun(job, 0, Claim);
    var run := [Start(job), Perform(job, Start(job), 0, Claim)];
    assert IsRun(job, run) && Resolves(run[|run| - 1]);
  }

  /** A limit of zero: no worker is started, and the call resolves at once without results. */
  lemma NoWorkerResolves(reply: nat -> Reply<nat>)
    ensures var job := Job([Some(7)], 0, reply);
      exists run: seq<Pool<nat>> :: IsRun(job, run) && Resolves(run[|run| - 1]) && run[|run| - 1].results == map[]
  {
    var job := Job([Some(7)], 0, reply);
    assert IsRun(job, [Start(job)]) && Resolves([Start(job)][0]);
  }
}
