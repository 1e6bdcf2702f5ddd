/** Background polling (`dash_mcp/src/scheduler.ts`) and the shutdown order of `dash_mcp/src/index.ts`. */
module Scheduling {

  type Timeout = nat
  type Job = nat

  const JOB_NAMES: seq<string> := ["alerts", "realtime", "content", "configuration", "retention"]

  /** The scheduler's `timers`, `running` and `stopped`, and the runtime's own list of timeouts that
      will still fire.  `timers` keeps the timeout set last for a name, also after it has fired. */
  datatype Polls = Polls(timers: map<string, Timeout>, pending: map<Timeout, string>, nextTimeout: Timeout,
                         running: map<Job, string>, stopped: bool)

  function Scheduled(p: Polls, name: string): Polls {
    p.(timers := p.timers[name := p.nextTimeout], pending := p.pending[p.nextTimeout := name],
       nextTimeout := p.nextTimeout + 1)
  }

  function AllScheduled(p: Polls, names: seq<string>): Polls
    decreases names
  {
    if names == [] then p else AllScheduled(Scheduled(p, names[0]), names[1..])
  }

  /** The timeout `t` fires and calls `run`. */
  function Fired(p: Polls, t: Timeout, job: Job): Polls
    requires t in p.pending
  {
    var quiet := p.(pending := p.pending - {t});
    if p.stopped then quiet else quiet.(running := p.running[job := p.pending[t]])
  }

  /** The `finally` of a job. */
  function JobDone(p: Polls, job: Job): Polls
    requires job in p.running
  {
    var done := p.(running := p.running - {job});
    if p.stopped then done else Scheduled(done, p.running[job])
  }

  /** `stop` up to its await: the timeouts in `timers` are cleared. */
  function Stopped(p: Polls): Polls {
    p.(timers := map[], pending := p.pending - p.timers.Values, stopped := true)
  }

  class PollScheduler {
    var timers: map<string, Timeout>
    var pending: map<Timeout, string>
    var nextTimeout: Timeout
    var running: map<Job, string>
    var stopped: bool

    constructor ()
      ensures Now() == IDLE
    {
      timers, pending, nextTimeout, running, stopped := map[], map[], 0, map[], false;
    }

    function Now(): Polls
      reads this
    {
      Polls(timers, pending, nextTimeout, running, stopped)
    }

    method Schedule(name: string)
      modifies this
      ensures Now() == Scheduled(old(Now()), name)
    {
      pending := pending[nextTimeout := name];
      timers := timers[name := nextTimeout];
      nextTimeout := nextTimeout + 1;
    }

    method Start(pollingEnabled: bool)
      modifies this
      ensures Now() == if pollingEnabled then AllScheduled(old(Now()), JOB_NAMES) else old(Now())
    {
      if !pollingEnabled {
        return;
      }
      ghost var before := Now();
      Schedule("alerts");
      Schedule("realtime");
      Schedule("content");
      Schedule("configuration");
      Schedule("retention");
      ScheduledInTurn(before);
    }

    method RunJob(t: Timeout, job: Job)
      requires t in pending
      modifies this
      ensures Now() == Fired(old(Now()), t, job)
    {
      var name := pending[t];
      pending := pending - {t};
      if stopped {
        return;
      }
      running := running[job := name];
    }

    method FinishJob(job: Job)
      requires job in running
      modifies this
      ensures Now() == JobDone(old(Now()), job)
    {
      var name := running[job];
      running := running - {job};
      if stopped {
        return;
      }
      Schedule(name);
    }

    /** Returns the promises that `stop` waits for. */
    method Stop() returns (waiting: set<Job>)
      modifies this
      ensures Now() == Stopped(old(Now()))
      ensures waiting == old(running).Keys
    {
      stopped := true;
      var left := timers.Values;
      ghost var cleared: set<Timeout> := {};
      while left != {}
        invariant left + cleared == old(timers).Values
        invariant pending == old(pending) - cleared
        invariant Now() == old(Now()).(pending := pending, stopped := true)
        decreases left
      {
        var t :| t in left;
        pending := pending - {t};
        left, cleared := left - {t}, cleared + {t};
      }
      assert cleared == old(timers).Values;
      timers := map[];
      waiting := running.Keys;
    }
  }

  lemma ScheduledInTurn(p: Polls)
    ensures var q := Scheduled(Scheduled(p, "alerts"), "realtime");
            AllScheduled(p, JOB_NAMES) == Scheduled(Scheduled(Scheduled(q, "content"), "configuration"), "retention")
  {
    hide Scheduled;
    assert JOB_NAMES[1..] == ["realtime", "content", "configuration", "retention"];
    assert JOB_NAMES[1..][1..] == ["content", "configuration", "retention"];
    assert JOB_NAMES[1..][1..][1..] == ["configuration", "retention"];
    assert JOB_NAMES[1..][1..][1..][1..] == ["retention"];
    assert JOB_NAMES[1..][1..][1..][1..][1..] == [];
    var q := Scheduled(Scheduled(p, "alerts"), "realtime");
    var r := Scheduled(Scheduled(q, "content"), "configuration");
    assert AllScheduled(r, ["retention"]) == AllScheduled(Scheduled(r, "retention"), ["retention"][1..]);
    assert AllScheduled(q, JOB_NAMES[1..][1..]) == AllScheduled(r, ["retention"]);
    assert AllScheduled(p, JOB_NAMES) == AllScheduled(q, JOB_NAMES[1..][1..]);
  }

  // ----- the process

  /** `waiting` is what `stop` awaits once the shutdown has begun. */
  datatype Process = Process(polls: Polls, stopping: bool, waiting: set<Job>, schedulerStopped: bool,
                             httpClosed: bool, storeClosed: bool)

  datatype Event =
    | TimerFires(t: Timeout, job: Job)
    | JobFinishes(job: Job)
    | Signal
    | StopResolves
    | HttpCloses
    | StoreCloses

  predicate Enabled(p: Process, e: Event) {
    match e
    case TimerFires(t, job) => t in p.polls.pending && job !in p.polls.running && job !in p.waiting
    case JobFinishes(job) => job in p.polls.running
    case Signal => true
    case StopResolves => p.stopping && !p.schedulerStopped && p.waiting !! p.polls.running.Keys
    case HttpCloses => p.stopping
    case StoreCloses => p.schedulerStopped && p.httpClosed
  }

  function Next(p: Process, e: Event): Process
    requires Enabled(p, e)
  {
    match e
    case TimerFires(t, job) => p.(polls := Fired(p.polls, t, job))
    case JobFinishes(job) => p.(polls := JobDone(p.polls, job))
    case Signal =>
      if p.stopping then p else p.(polls := Stopped(p.polls), stopping := true, waiting := p.polls.running.Keys)
    case StopResolves => p.(schedulerStopped := true)
    case HttpCloses => p.(httpClosed := true)
    case StoreCloses => p.(storeClosed := true)
  }

  const IDLE := Polls(map[], map[], 0, map[], false)

  /** The process after `scheduler.start()`. */
  const AFTER_START := Process(AllScheduled(IDLE, JOB_NAMES), false, {}, false, false, false)

  ghost predicate ValidRun(p: Process, events: seq<Event>)
    decreases |events|
  {
    events == [] || (Enabled(p, events[0]) && ValidRun(Next(p, events[0]), events[1..]))
  }

  function Run(p: Process, events: seq<Event>): Process
    requires ValidRun(p, events)
    decreases |events|
  {
    if events == [] then p else Run(Next(p, events[0]), events[1..])
  }

  // ----- the invariant

  predicate Waiting(p: Polls, name: string) {
    name in p.timers && p.timers[name] in p.pending
  }

  predicate Executing(p: Polls, name: string) {
    exists job :: job in p.running && p.running[job] == name
  }

  /** Every pending timeout is the one kept for its name, so clearing `timers` clears them all. */
  ghost predicate Kept(p: Polls) {
    && (forall t :: t in p.pending ==> p.pending[t] in p.timers && p.timers[p.pending[t]] == t)
    && (forall name :: name in p.timers ==> p.timers[name] < p.nextTimeout)
    && (forall name :: Waiting(p, name) ==> p.pending[p.timers[name]] == name)
  }

  ghost predicate OneAtATime(p: Polls) {
    && (forall j, k :: j in p.running && k in p.running && p.running[j] == p.running[k] ==> j == k)
    && (forall name :: Waiting(p, name) ==> !Executing(p, name))
  }

  ghost predicate AllAlive(p: Polls) {
    forall name :: name in JOB_NAMES ==> Waiting(p, name) || Executing(p, name)
  }

  /** Until the stop each job is either waiting for its timeout or in progress, once; afterwards it
      can only be in progress, and only in a run that `stop` waits for. */
  ghost predicate Inv(p: Process) {
    && (p.stopping <==> p.polls.stopped)
    && Kept(p.polls) && OneAtATime(p.polls)
    && (!p.stopping ==> AllAlive(p.polls))
    && (p.stopping ==> p.polls.pending == map[] && p.polls.running.Keys <= p.waiting)
    && (p.schedulerStopped ==> p.stopping && p.polls.running == map[])
    && (p.storeClosed ==> p.schedulerStopped)
  }

  lemma ScheduleEffect(p: Polls, name: string)
    requires Kept(p) && OneAtATime(p) && !Waiting(p, name) && !Executing(p, name)
    ensures Kept(Scheduled(p, name)) && OneAtATime(Scheduled(p, name))
    ensures forall n :: Waiting(Scheduled(p, name), n) <==> n == name || Waiting(p, n)
  {
    hide Executing;
    var next := Scheduled(p, name);
    assert p.nextTimeout !in p.pending;
    forall n ensures Executing(next, n) <==> Executing(p, n) { SameRunning(p, next, n); }
  }

  lemma SameRunning(p: Polls, q: Polls, name: string)
    requires p.running == q.running
    ensures Executing(p, name) <==> Executing(q, name)
  {
  }

  lemma {:induction false} ScheduleAllEffect(p: Polls, names: seq<string>)
    requires Kept(p) && OneAtATime(p) && p.running == map[]
    requires forall i, j :: 0 <= i < j < |names| ==> names[i] != names[j]
    requires forall i :: 0 <= i < |names| ==> !Waiting(p, names[i])
    ensures var q := AllScheduled(p, names);
            && Kept(q) && OneAtATime(q) && q.running == map[] && q.stopped == p.stopped
            && forall n :: Waiting(q, n) <==> n in names || Waiting(p, n)
    decreases |names|
  {
    if names != [] {
      ScheduleEffect(p, names[0]);
      hide Kept, OneAtATime, Waiting;
      ScheduleAllEffect(Scheduled(p, names[0]), names[1..]);
      assert forall n :: n in names <==> n == names[0] || n in names[1..];
    }
  }

  lemma StartsInInv()
    ensures Inv(AFTER_START)
  {
    hide Waiting, Executing, AllScheduled;
    assert Kept(IDLE) && OneAtATime(IDLE) && forall n :: !Waiting(IDLE, n) by { IdleHolds(); }
    assert forall i, j :: 0 <= i < j < |JOB_NAMES| ==> JOB_NAMES[i] != JOB_NAMES[j] by { NamesDiffer(); }
    ScheduleAllEffect(IDLE, JOB_NAMES);
  }

  lemma IdleHolds()
    ensures Kept(IDLE) && OneAtATime(IDLE) && forall n :: !Waiting(IDLE, n)
  {
  }

  lemma NamesDiffer()
    ensures forall i, j :: 0 <= i < j < |JOB_NAMES| ==> JOB_NAMES[i] != JOB_NAMES[j]
  {
    assert "alerts"[0] == 'a' && "realtime"[2] == 'a' && "retention"[2] == 't';
    assert |"content"| == 7 && |"configuration"| == 13 && |"realtime"| == 8 && |"retention"| == 9;
  }

  // ----- steps

  lemma FireKeeps(p: Process, t: Timeout, job: Job)
    requires Inv(p) && Enabled(p, TimerFires(t, job))
    ensures Inv(Next(p, TimerFires(t, job)))
  {
    var polls, next := p.polls, Next(p, TimerFires(t, job)).polls;
    var name := polls.pending[t];
    assert Waiting(polls, name);
    forall n ensures Waiting(next, n) <==> Waiting(polls, n) && n != name {}
    forall n ensures Executing(next, n) <==> Executing(polls, n) || n == name {
      MoreRunning(polls, next, job, name, n);
    }
    hide Waiting, Executing;
  }

  lemma MoreRunning(p: Polls, q: Polls, job: Job, name: string, n: string)
    requires job !in p.running && q.running == p.running[job := name]
    ensures Executing(q, n) <==> Executing(p, n) || n == name
  {
    if j :| j in p.running && p.running[j] == n { assert q.running[j] == n; }
    if n == name { assert q.running[job] == n; }
  }

  lemma LessRunning(p: Polls, q: Polls, job: Job, n: string)
    requires OneAtATime(p) && job in p.running && q.running == p.running - {job}
    ensures Executing(q, n) <==> Executing(p, n) && n != p.running[job]
  {
    if j :| j in p.running && p.running[j] == n && n != p.running[job] { assert q.running[j] == n; }
  }

  lemma DoneEffect(p: Polls, job: Job)
    requires Kept(p) && OneAtATime(p) && job in p.running
    ensures var q := p.(running := p.running - {job});
            && Kept(q) && OneAtATime(q)
            && (forall n :: Waiting(q, n) <==> Waiting(p, n))
            && (forall n :: Executing(q, n) <==> Executing(p, n) && n != p.running[job])
  {
    var q := p.(running := p.running - {job});
    forall n ensures Executing(q, n) <==> Executing(p, n) && n != p.running[job] { LessRunning(p, q, job, n); }
  }

  lemma FinishKeeps(p: Process, job: Job)
    requires Inv(p) && Enabled(p, JobFinishes(job))
    ensures Inv(Next(p, JobFinishes(job)))
  {
    hide Executing;
    var polls, name := p.polls, p.polls.running[job];
    var done := polls.(running := polls.running - {job});
    DoneEffect(polls, job);
    assert Executing(polls, name) by {
      assert done.running[job := name] == polls.running;
      MoreRunning(done, polls, job, name, name);
    }
    if !p.stopping {
      hide Waiting, Kept, OneAtATime;
      NotWaiting(polls, name);
      ScheduleEffect(done, name);
      forall n { SameRunning(done, Scheduled(done, name), n); }
    }
  }

  lemma NotWaiting(p: Polls, name: string)
    requires OneAtATime(p) && Executing(p, name)
    ensures !Waiting(p, name)
  {
  }

  lemma SignalKeeps(p: Process)
    requires Inv(p)
    ensures Inv(Next(p, Signal))
  {
    if !p.stopping {
      forall t | t in p.polls.pending ensures t in p.polls.timers.Values {
        assert p.polls.timers[p.polls.pending[t]] == t;
      }
      assert Stopped(p.polls).pending == map[];
    }
  }

  lemma StepKeeps(p: Process, e: Event)
    requires Inv(p) && Enabled(p, e)
    ensures Inv(Next(p, e))
  {
    match e
    case TimerFires(t, job) => FireKeeps(p, t, job);
    case JobFinishes(job) => FinishKeeps(p, job);
    case Signal => SignalKeeps(p);
    case StopResolves =>
      hide Kept, OneAtATime, AllAlive;
      assert p.polls.running.Keys == {};
      assert p.polls.running == map[];
    case _ =>
      hide Kept, OneAtATime, AllAlive;
  }

  lemma {:induction false} RunKeeps(p: Process, events: seq<Event>)
    requires Inv(p) && ValidRun(p, events)
    ensures Inv(Run(p, events))
    ensures p.stopping ==> Run(p, events).stopping && Run(p, events).polls.running.Keys <= p.polls.running.Keys
    decreases |events|
  {
    hide Inv;
    if events != [] {
      StepKeeps(p, events[0]);
      if p.stopping { StoppedShrinks(p, events[0]); }
      RunKeeps(Next(p, events[0]), events[1..]);
    }
  }

  lemma StoppedShrinks(p: Process, e: Event)
    requires Inv(p) && Enabled(p, e) && p.stopping
    ensures Next(p, e).stopping && Next(p, e).polls.running.Keys <= p.polls.running.Keys
  {
    hide Kept, OneAtATime, AllAlive;
  }

  // ----- runs

  /** In every run: two executions in progress are of different jobs; before a signal every job is
      either waiting for its timeout or in progress, not both; once `stop` has resolved, and so
      whenever the store is closed, no job is in progress and no timeout is left to start one. */
  lemma EveryRun(events: seq<Event>)
    requires ValidRun(AFTER_START, events)
    ensures var p := Run(AFTER_START, events);
            && (forall j, k :: j in p.polls.running && k in p.polls.running && j != k ==>
                  p.polls.running[j] != p.polls.running[k])
            && (!p.stopping ==> forall name :: name in JOB_NAMES ==>
                                  (Waiting(p.polls, name) <==> !Executing(p.polls, name)))
            && (p.schedulerStopped || p.storeClosed ==> p.polls.running == map[] && p.polls.pending == map[])
  {
    hide AFTER_START, Waiting, Executing, Kept;
    StartsInInv();
    RunKeeps(AFTER_START, events);
  }

  /** No job begins after the first signal, and a closed store stays unused for the rest of the run. */
  lemma NothingBeginsAfterStop(events: seq<Event>, more: seq<Event>)
    requires ValidRun(AFTER_START, events) && ValidRun(Run(AFTER_START, events), more)
    ensures var p, q := Run(AFTER_START, events), Run(Run(AFTER_START, events), more);
            && (p.stopping ==> q.polls.running.Keys <= p.polls.running.Keys)
            && (p.storeClosed ==> q.polls.running == map[])
  {
    hide AFTER_START, Kept, OneAtATime, AllAlive;
    StartsInInv();
    RunKeeps(AFTER_START, events);
    var p := Run(AFTER_START, events);
    RunKeeps(p, more);
    var q := Run(p, more);
    if p.storeClosed {
      assert q.polls.running.Keys == {};
      assert q.polls.running == map[];
    }
  }

  /** The first signal clears every timeout and waits for the jobs in progress; another one changes nothing. */
  lemma SignalEffect(p: Process)
    requires Inv(p)
    ensures var next := Next(p, Signal);
            && next.stopping && next.polls.pending == map[] && next.polls.running == p.polls.running
            && (!p.stopping ==> next.waiting == p.polls.running.Keys)
            && (p.stopping ==> next == p)
  {
    SignalKeeps(p);
  }

  lemma OneStep(p: Process, e: Event, more: seq<Event>)
    requires Enabled(p, e) && ValidRun(Next(p, e), more)
    ensures ValidRun(p, [e] + more) && Run(p, [e] + more) == Run(Next(p, e), more)
  {
    assert ([e] + more)[1..] == more;
  }

  /** Once the shutdown has begun it can always be completed: when the jobs in progress have finished,
      `stop` resolves and the store is closed. */
  lemma {:induction false} ShutdownCompletes(p: Process) returns (more: seq<Event>)
    requires Inv(p) && p.stopping
    ensures ValidRun(p, more) && Run(p, more).storeClosed
    decreases p.polls.running
  {
    hide Kept, OneAtATime, AllAlive;
    if p.polls.running != map[] {
      var job :| job in p.polls.running;
      StepKeeps(p, JobFinishes(job));
      var rest := ShutdownCompletes(Next(p, JobFinishes(job)));
      more := [JobFinishes(job)] + rest;
      OneStep(p, JobFinishes(job), rest);
    } else {
      var stopped := if p.schedulerStopped then p else Next(p, StopResolves);
      var quiet := Next(stopped, HttpCloses);
      assert ValidRun(Next(quiet, StoreCloses), []);
      OneStep(quiet, StoreCloses, []);
      OneStep(stopped, HttpCloses, [StoreCloses] + []);
      more := [HttpCloses] + ([StoreCloses] + []);
      if !p.schedulerStopped {
        OneStep(p, StopResolves, more);
        more := [StopResolves] + more;
      }
    }
  }
}
