/** `mapPool` of `eval/run.ts`: lanes that share a counter, each awaiting one worker call at a time. */
module MapPool {
  import opened Text

  datatype Lane = Ready | Working(index: nat) | Finished

  /** `calls` lists the indices handed to the worker, in order. */
  datatype Pool<R> = Pool(next: nat, lanes: seq<Lane>, results: seq<Option<R>>, calls: seq<nat>)

  function LaneCount(limit: int, n: nat): nat {
    if limit <= 0 then 0 else if limit < n then limit else n
  }

  function Start<R>(n: nat, limit: int): Pool<R> {
    Pool(0, seq(LaneCount(limit, n), _ => Ready), seq(n, _ => None), [])
  }

  /** One step of lane `k`: claim the next index or finish, or resume with the worker's answer. */
  function Step<R>(p: Pool<R>, k: nat, answer: nat -> R): Pool<R>
    requires k < |p.lanes| && !p.lanes[k].Finished?
    requires p.lanes[k].Working? ==> p.lanes[k].index < |p.results|
  {
    match p.lanes[k]
    case Ready =>
      if p.next < |p.results| then
        p.(next := p.next + 1, lanes := p.lanes[k := Working(p.next)], calls := p.calls + [p.next])
      else p.(lanes := p.lanes[k := Finished])
    case Working(i) =>
      p.(lanes := p.lanes[k := Ready], results := p.results[i := Some(answer(i))])
  }

  predicate Settled<R>(p: Pool<R>) {
    forall k :: 0 <= k < |p.lanes| ==> p.lanes[k].Finished?
  }

  function InFlight<R>(p: Pool<R>): set<nat> {
    set k | 0 <= k < |p.lanes| && p.lanes[k].Working?
  }

  ghost predicate Held(lanes: seq<Lane>, i: nat) {
    exists k :: 0 <= k < |lanes| && lanes[k] == Working(i)
  }

  /** The claimed indices are 0 up to `next`, each called once and either held by one lane or answered. */
  ghost predicate Inv<R>(p: Pool<R>, n: nat, limit: int, answer: nat -> R) {
    && |p.lanes| == LaneCount(limit, n)
    && |p.results| == n
    && p.next <= n
    && p.calls == seq(p.next, i => i)
    && (forall k :: 0 <= k < |p.lanes| && p.lanes[k].Working? ==> p.lanes[k].index < p.next)
    && (forall j, k :: 0 <= j < k < |p.lanes| && p.lanes[j].Working? && p.lanes[k].Working? ==>
          p.lanes[j].index != p.lanes[k].index)
    && (forall i :: 0 <= i < p.next ==> p.results[i] == if Held(p.lanes, i) then None else Some(answer(i)))
    && (forall i :: p.next <= i < n ==> p.results[i] == None)
    && (forall k :: 0 <= k < |p.lanes| && p.lanes[k].Finished? ==> p.next == n)
  }

  lemma StartsInInv<R>(n: nat, limit: int, answer: nat -> R)
    ensures Inv(Start<R>(n, limit), n, limit, answer)
  {
  }

  predicate HeldElsewhere(lanes: seq<Lane>, k: nat, i: nat) {
    exists j :: 0 <= j < |lanes| && j != k && lanes[j] == Working(i)
  }

  lemma HeldAfter(lanes: seq<Lane>, k: nat, lane: Lane, i: nat)
    requires k < |lanes|
    ensures Held(lanes[k := lane], i) <==> lane == Working(i) || HeldElsewhere(lanes, k, i)
    ensures Held(lanes, i) <==> lanes[k] == Working(i) || HeldElsewhere(lanes, k, i)
  {
    var after := lanes[k := lane];
    if lane == Working(i) { assert after[k] == Working(i); }
    if j :| 0 <= j < |lanes| && j != k && lanes[j] == Working(i) { assert after[j] == Working(i); }
  }

  lemma ReadyKeeps<R>(p: Pool<R>, k: nat, n: nat, limit: int, answer: nat -> R)
    requires Inv(p, n, limit, answer) && k < |p.lanes| && p.lanes[k].Ready?
    ensures Inv(Step(p, k, answer), n, limit, answer)
  {
    forall i: nat | i < n { HeldAfter(p.lanes, k, Step(p, k, answer).lanes[k], i); }
    forall i: nat | i == p.next ensures !HeldElsewhere(p.lanes, k, i) {}
    hide Held, HeldElsewhere, LaneCount;
  }

  lemma AnswerKeeps<R>(p: Pool<R>, k: nat, n: nat, limit: int, answer: nat -> R)
    requires Inv(p, n, limit, answer) && k < |p.lanes| && p.lanes[k].Working?
    ensures Inv(Step(p, k, answer), n, limit, answer)
  {
    forall i: nat | i < n { HeldAfter(p.lanes, k, Ready, i); }
    assert !HeldElsewhere(p.lanes, k, p.lanes[k].index);
    hide Held, HeldElsewhere, LaneCount;
  }

  lemma StepKeeps<R>(p: Pool<R>, k: nat, n: nat, limit: int, answer: nat -> R)
    requires Inv(p, n, limit, answer) && k < |p.lanes| && !p.lanes[k].Finished?
    ensures Inv(Step(p, k, answer), n, limit, answer)
    ensures Measure(Step(p, k, answer)) < Measure(p)
  {
    if p.lanes[k].Ready? { ReadyKeeps(p, k, n, limit, answer); } else { AnswerKeeps(p, k, n, limit, answer); }
    WeightUpdate(p.lanes, k, Step(p, k, answer).lanes[k]);
    hide TotalWeight;
  }

  // ----- termination

  function Weight(lane: Lane): nat {
    match lane case Ready => 1 case Working(_) => 2 case Finished => 0
  }

  function TotalWeight(lanes: seq<Lane>): nat {
    if lanes == [] then 0 else Weight(lanes[0]) + TotalWeight(lanes[1..])
  }

  /** Decreases with every step: two for each unclaimed index, and what the lanes still have to do. */
  function Measure<R>(p: Pool<R>): int {
    2 * (|p.results| - p.next) + TotalWeight(p.lanes)
  }

  lemma {:induction false} WeightUpdate(lanes: seq<Lane>, k: nat, lane: Lane)
    requires k < |lanes|
    ensures TotalWeight(lanes[k := lane]) == TotalWeight(lanes) - Weight(lanes[k]) + Weight(lane)
  {
    if k > 0 {
      WeightUpdate(lanes[1..], k - 1, lane);
      assert lanes[k := lane][1..] == lanes[1..][k - 1 := lane];
    }
  }

  // ----- whole runs

  /** A schedule: the lane that moves, step by step. */
  ghost predicate ValidRun<R>(p: Pool<R>, schedule: seq<nat>, answer: nat -> R)
    decreases |schedule|
  {
    schedule == []
    || (schedule[0] < |p.lanes| && !p.lanes[schedule[0]].Finished?
        && (p.lanes[schedule[0]].Working? ==> p.lanes[schedule[0]].index < |p.results|)
        && ValidRun(Step(p, schedule[0], answer), schedule[1..], answer))
  }

  function Run<R>(p: Pool<R>, schedule: seq<nat>, answer: nat -> R): Pool<R>
    requires ValidRun(p, schedule, answer)
    decreases |schedule|
  {
    if schedule == [] then p else Run(Step(p, schedule[0], answer), schedule[1..], answer)
  }

  lemma {:induction false} RunKeeps<R>(p: Pool<R>, schedule: seq<nat>, n: nat, limit: int, answer: nat -> R)
    requires Inv(p, n, limit, answer) && ValidRun(p, schedule, answer)
    ensures Inv(Run(p, schedule, answer), n, limit, answer)
    ensures |schedule| <= Measure(p) - Measure(Run(p, schedule, answer))
    decreases |schedule|
  {
    hide Inv;
    if schedule != [] {
      StepKeeps(p, schedule[0], n, limit, answer);
      RunKeeps(Step(p, schedule[0], answer), schedule[1..], n, limit, answer);
    }
  }

  lemma {:induction false} StartWeight(m: nat)
    ensures TotalWeight(seq(m, _ => Ready)) == m
  {
    if m > 0 {
      StartWeight(m - 1);
      assert seq(m, _ => Ready)[1..] == seq(m - 1, _ => Ready);
    }
  }

  lemma InFlightBound<R>(p: Pool<R>)
    ensures |InFlight(p)| <= |p.lanes|
  {
    BoundedCount(InFlight(p), |p.lanes|);
  }

  lemma {:induction false} BoundedCount(s: set<nat>, m: nat)
    requires forall x :: x in s ==> x < m
    ensures |s| <= m
  {
    if m > 0 {
      BoundedCount(s - {m - 1}, m - 1);
      assert s <= (s - {m - 1}) + {m - 1};
      assert |s| <= |s - {m - 1}| + 1;
    }
  }

  /** Under every schedule: at most min(limit, n) worker calls are in flight, every index is called
      at most once and in order, the number of steps is bounded, and once all lanes have finished
      every position holds the worker's answer exactly when the limit is positive or nothing was asked. */
  lemma EverySchedule<R>(n: nat, limit: int, schedule: seq<nat>, answer: nat -> R)
    requires ValidRun(Start<R>(n, limit), schedule, answer)
    ensures var p := Run(Start<R>(n, limit), schedule, answer);
            && |InFlight(p)| <= n && (limit >= 0 ==> |InFlight(p)| <= limit) && (limit < 0 ==> InFlight(p) == {})
            && p.calls == seq(p.next, i => i) && p.next <= n
            && |schedule| <= 3 * n
            && (Settled(p) && (limit >= 1 || n == 0) ==>
                  p.next == n && p.results == seq(n, i requires 0 <= i < n => Some(answer(i))))
            && (limit <= 0 ==> p.results == seq(n, _ => None))
  {
    var start := Start<R>(n, limit);
    StartsInInv(n, limit, answer);
    RunKeeps(start, schedule, n, limit, answer);
    StartWeight(LaneCount(limit, n));
    var p := Run(start, schedule, answer);
    InFlightBound(p);
    if Settled(p) && (limit >= 1 || n == 0) {
      if n > 0 { assert p.lanes[0].Finished?; }
      forall i: nat | i < n ensures p.results[i] == Some(answer(i)) {
        assert !Held(p.lanes, i);
      }
    }
    if limit <= 0 && schedule != [] { NoLaneNoStep(start, schedule, answer); }
  }

  /** The pool after each of the first `k` lanes has claimed an index. */
  function Filled<R>(n: nat, m: nat, k: nat): Pool<R>
    requires k <= m <= n
  {
    Pool(k, seq(m, i requires 0 <= i < m => if i < k then Working(i) else Ready), seq(n, _ => None), seq(k, i => i))
  }

  lemma {:induction false} FillLanes<R>(n: nat, m: nat, k: nat, answer: nat -> R)
    requires k <= m <= n
    ensures var lanes := seq(m - k, i => k + i);
            ValidRun(Filled<R>(n, m, k), lanes, answer) && Run(Filled<R>(n, m, k), lanes, answer) == Filled(n, m, m)
    decreases m - k
  {
    var p, lanes := Filled<R>(n, m, k), seq(m - k, i => k + i);
    if k < m {
      FillLanes(n, m, k + 1, answer);
      assert lanes[1..] == seq(m - (k + 1), i => k + 1 + i);
      assert p.lanes[k := Working(k)] == Filled<R>(n, m, k + 1).lanes;
      assert p.calls + [k] == Filled<R>(n, m, k + 1).calls;
      assert Step(p, k, answer) == Filled(n, m, k + 1);
    }
  }

  /** The bound is reached: for a positive limit some schedule has exactly min(limit, n) calls in flight. */
  lemma BoundIsReached<R>(n: nat, limit: int, answer: nat -> R)
    requires limit >= 1
    ensures exists schedule :: ValidRun(Start<R>(n, limit), schedule, answer)
              && |InFlight(Run(Start<R>(n, limit), schedule, answer))| == if limit < n then limit else n
  {
    var m := if limit < n then limit else n;
    FillLanes(n, m, 0, answer);
    assert Start<R>(n, limit) == Filled(n, m, 0);
    AllInFlight(Filled<R>(n, m, m), m);
  }

  lemma AllInFlight<R>(p: Pool<R>, m: nat)
    requires |p.lanes| == m && forall k :: 0 <= k < m ==> p.lanes[k].Working?
    ensures |InFlight(p)| == m
  {
    AllNumbers(InFlight(p), m);
  }

  lemma {:induction false} AllNumbers(s: set<nat>, m: nat)
    requires forall k: nat :: k in s <==> k < m
    ensures |s| == m
  {
    if m > 0 {
      AllNumbers(s - {m - 1}, m - 1);
    }
  }

  lemma NoLaneNoStep<R>(p: Pool<R>, schedule: seq<nat>, answer: nat -> R)
    requires |p.lanes| == 0 && ValidRun(p, schedule, answer)
    ensures schedule == []
  {
  }

  /** The call under an arbitrary scheduler; `worker(i)` is the answer for the item at index `i`. */
  method MapPool<R>(n: nat, limit: int, worker: nat -> R) returns (results: seq<Option<R>>)
    ensures |results| == n
    ensures limit >= 1 ==> forall i :: 0 <= i < n ==> results[i] == Some(worker(i))
    ensures limit <= 0 ==> forall i :: 0 <= i < n ==> results[i] == None
  {
    var pool := Start<R>(n, limit);
    StartsInInv(n, limit, worker);
    while !Settled(pool)
      invariant Inv(pool, n, limit, worker)
      invariant limit <= 0 ==> pool == Start<R>(n, limit)
      decreases Measure(pool)
    {
      var k: nat :| k < |pool.lanes| && !pool.lanes[k].Finished?;
      StepKeeps(pool, k, n, limit, worker);
      pool := Step(pool, k, worker);
    }
    results := pool.results;
    if limit >= 1 && n > 0 {
      assert pool.lanes[0].Finished?;
      forall i: nat | i < n ensures results[i] == Some(worker(i)) {
        assert !Held(pool.lanes, i);
      }
    }
  }
}
