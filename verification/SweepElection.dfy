/** Which cluster worker runs the file-retention sweep (`api/server/experimental.js`).

    `table` is `cluster.workers`: an entry leaves it when its worker has both exited and
    disconnected, in either order. */
module SweepElection {
  import opened Text

  type WorkerId = nat

  /** The variables of the master process. */
  datatype Master = Master(activeWorkers: int, listening: set<WorkerId>, assignee: Option<WorkerId>)

  lemma {:induction false} HasLast(s: set<WorkerId>)
    requires s != {}
    ensures exists w :: w in s && forall v :: v in s ==> v <= w
    decreases s
  {
    var w :| w in s;
    if s - {w} != {} {
      HasLast(s - {w});
      var v :| v in s - {w} && forall u :: u in s - {w} ==> u <= v;
      assert forall u :: u in s ==> u == w || u in s - {w};
      assert if w <= v then v in s && forall u :: u in s ==> u <= v else w in s && forall u :: u in s ==> u <= w;
    } else {
      assert forall u :: u in s ==> u == w || u in s - {w};
    }
  }

  /** The last entry of a list of workers in the order of their ids. */
  function Last(s: set<WorkerId>): (w: WorkerId)
    requires s != {}
    ensures w in s && forall v :: v in s ==> v <= w
  {
    HasLast(s);
    var w :| w in s && forall v :: v in s ==> v <= w;
    w
  }

  /** `assignRetentionSweepWorker`: the new assignment and the worker that is sent the message, if any. */
  function Assign(m: Master, table: set<WorkerId>, connected: set<WorkerId>): (Master, Option<WorkerId>) {
    if m.assignee.Some? && m.assignee.value in table then (m, None)
    else
      var connectedWorkers := table * connected;
      var available := connectedWorkers * m.listening;
      var pool := if available != {} then available else connectedWorkers;
      if pool == {} then (m, None) else (m.(assignee := Some(Last(pool))), Some(Last(pool)))
  }

  function OnListening(m: Master, w: WorkerId, workers: nat, table: set<WorkerId>, connected: set<WorkerId>)
    : (Master, Option<WorkerId>)
  {
    var m' := m.(listening := m.listening + {w});
    if |m'.listening| == workers || (m'.assignee.None? && m'.activeWorkers >= workers)
    then Assign(m', table, connected) else (m', None)
  }

  function OnExit(m: Master, w: WorkerId, table: set<WorkerId>, connected: set<WorkerId>): (Master, Option<WorkerId>) {
    var m' := Master(m.activeWorkers - 1, m.listening - {w}, m.assignee);
    if m.assignee == Some(w) then Assign(m'.(assignee := None), table, connected) else (m', None)
  }

  class MasterProcess {
    const workers: nat
    var activeWorkers: int
    var listeningWorkers: set<WorkerId>
    var retentionSweepWorkerId: Option<WorkerId>

    constructor (workers: nat)
      ensures this.workers == workers && Now() == Master(0, {}, None)
    {
      this.workers := workers;
      activeWorkers, listeningWorkers, retentionSweepWorkerId := 0, {}, None;
    }

    function Now(): Master
      reads this
    {
      Master(activeWorkers, listeningWorkers, retentionSweepWorkerId)
    }

    method AssignRetentionSweepWorker(table: set<WorkerId>, connected: set<WorkerId>) returns (sent: Option<WorkerId>)
      modifies this`retentionSweepWorkerId
      ensures (Now(), sent) == Assign(old(Now()), table, connected)
    {
      if retentionSweepWorkerId.Some? && retentionSweepWorkerId.value in table {
        return None;
      }
      var connectedWorkers := table * connected;
      var availableWorkers := connectedWorkers * listeningWorkers;
      var workerPool := if availableWorkers != {} then availableWorkers else connectedWorkers;
      if workerPool == {} {
        return None;
      }
      retentionSweepWorkerId := Some(Last(workerPool));
      return retentionSweepWorkerId;
    }

    method Online()
      modifies this`activeWorkers
      ensures activeWorkers == old(activeWorkers) + 1
    {
      activeWorkers := activeWorkers + 1;
    }

    method Listening(w: WorkerId, table: set<WorkerId>, connected: set<WorkerId>) returns (sent: Option<WorkerId>)
      modifies this
      ensures (Now(), sent) == OnListening(old(Now()), w, workers, table, connected)
    {
      listeningWorkers := listeningWorkers + {w};
      sent := None;
      if |listeningWorkers| == workers || (retentionSweepWorkerId.None? && activeWorkers >= workers) {
        sent := AssignRetentionSweepWorker(table, connected);
      }
    }

    method Exit(w: WorkerId, table: set<WorkerId>, connected: set<WorkerId>) returns (sent: Option<WorkerId>)
      modifies this
      ensures (Now(), sent) == OnExit(old(Now()), w, table, connected)
    {
      activeWorkers := activeWorkers - 1;
      listeningWorkers := listeningWorkers - {w};
      sent := None;
      if retentionSweepWorkerId == Some(w) {
        retentionSweepWorkerId := None;
        sent := AssignRetentionSweepWorker(table, connected);
      }
    }
  }

  /** The flags of one worker process; `starts` counts calls of `startExpiredFileSweep`. */
  datatype Worker = Worker(shouldStart: bool, hasOptions: bool, started: bool, starts: nat)

  const FRESH := Worker(false, false, false, 0)

  function StartOnce(w: Worker): Worker {
    if !w.shouldStart || w.started || !w.hasOptions then w else w.(started := true, starts := w.starts + 1)
  }

  function OnMessage(w: Worker): Worker {
    StartOnce(w.(shouldStart := true))
  }

  function OnConfig(w: Worker): Worker {
    StartOnce(w.(hasOptions := true))
  }

  class WorkerProcess {
    var shouldStartExpiredFileSweep: bool
    var hasOptions: bool
    var expiredFileSweepStarted: bool
    ghost var starts: nat

    constructor ()
      ensures Now() == FRESH
    {
      shouldStartExpiredFileSweep, hasOptions, expiredFileSweepStarted, starts := false, false, false, 0;
    }

    ghost function Now(): Worker
      reads this
    {
      Worker(shouldStartExpiredFileSweep, hasOptions, expiredFileSweepStarted, starts)
    }

    method StartExpiredFileSweepOnce()
      modifies this
      ensures Now() == StartOnce(old(Now()))
    {
      if !shouldStartExpiredFileSweep || expiredFileSweepStarted || !hasOptions {
        return;
      }
      expiredFileSweepStarted := true;
      starts := starts + 1;
    }

    method Message()
      modifies this
      ensures Now() == OnMessage(old(Now()))
    {
      shouldStartExpiredFileSweep := true;
      StartExpiredFileSweepOnce();
    }

    method ConfigLoaded()
      modifies this
      ensures Now() == OnConfig(old(Now()))
    {
      hasOptions := true;
      StartExpiredFileSweepOnce();
    }
  }

  // ----- the cluster

  /** `alive` are the processes that run; `sent` every worker that was ever sent the message. */
  datatype Cluster = Cluster(master: Master, table: set<WorkerId>, connected: set<WorkerId>, alive: set<WorkerId>,
                             sent: set<WorkerId>, procs: map<WorkerId, Worker>, nextId: WorkerId)

  datatype Event =
    | Online(w: WorkerId)
    | Listening(w: WorkerId)
    | Exit(w: WorkerId)
    | Disconnect(w: WorkerId)
    | Deliver(w: WorkerId)
    | ConfigLoaded(w: WorkerId)

  /** A worker reports while it runs, and gets only messages that were sent to it. */
  predicate Enabled(c: Cluster, e: Event) {
    match e
    case Online(w) => w in c.alive
    case Listening(w) => w in c.alive && w in c.connected
    case Exit(w) => w in c.alive
    case Disconnect(w) => w in c.connected
    case Deliver(w) => w in c.alive && w in c.sent && w in c.procs
    case ConfigLoaded(w) => w in c.alive && w in c.procs
  }

  function Send(c: Cluster, r: (Master, Option<WorkerId>)): Cluster {
    c.(master := r.0, sent := if r.1.Some? then c.sent + {r.1.value} else c.sent)
  }

  /** The exit of a worker as the cluster module records it before the event is handled. */
  function Gone(c: Cluster, w: WorkerId): Cluster {
    c.(alive := c.alive - {w}, table := if w in c.connected then c.table else c.table - {w})
  }

  function Fork(c: Cluster): Cluster {
    var w := c.nextId;
    c.(table := c.table + {w}, connected := c.connected + {w}, alive := c.alive + {w},
       procs := c.procs[w := FRESH], nextId := w + 1)
  }

  function Next(c: Cluster, e: Event, workers: nat): Cluster
    requires Enabled(c, e)
  {
    match e
    case Online(w) => c.(master := c.master.(activeWorkers := c.master.activeWorkers + 1))
    case Listening(w) => Send(c, OnListening(c.master, w, workers, c.table, c.connected))
    case Exit(w) =>
      var gone := Gone(c, w);
      Fork(Send(gone, OnExit(gone.master, w, gone.table, gone.connected)))
    case Disconnect(w) =>
      c.(connected := c.connected - {w}, table := if w in c.alive then c.table else c.table - {w})
    case Deliver(w) => c.(procs := c.procs[w := OnMessage(c.procs[w])])
    case ConfigLoaded(w) => c.(procs := c.procs[w := OnConfig(c.procs[w])])
  }

  function Forked(c: Cluster, n: nat): Cluster {
    if n == 0 then c else Fork(Forked(c, n - 1))
  }

  /** The cluster after the initial forks. */
  function Start(workers: nat): Cluster {
    Forked(Cluster(Master(0, {}, None), {}, {}, {}, {}, map[], 1), workers)
  }

  ghost predicate ValidRun(c: Cluster, events: seq<Event>, workers: nat)
    decreases |events|
  {
    events == [] || (Enabled(c, events[0]) && ValidRun(Next(c, events[0], workers), events[1..], workers))
  }

  function Run(c: Cluster, events: seq<Event>, workers: nat): Cluster
    requires ValidRun(c, events, workers)
    decreases |events|
  {
    if events == [] then c else Run(Next(c, events[0], workers), events[1..], workers)
  }

  // ----- invariants

  ghost predicate Inv(c: Cluster, workers: nat) {
    && |c.alive| == workers
    && c.alive <= c.table
    && c.alive <= c.procs.Keys
    && c.master.listening <= c.alive
    && (forall w :: w in c.table || w in c.connected || w in c.procs || w in c.sent ==> w < c.nextId)
    && (forall w :: w in c.alive && w in c.sent ==> c.master.assignee == Some(w))
    && (forall w :: w in c.procs ==> Orderly(c.procs[w]) && (c.procs[w].shouldStart ==> w in c.sent))
  }

  /** A worker has started the sweep, once, exactly when both the message and the configuration have come. */
  predicate Orderly(w: Worker) {
    && w.starts == (if w.started then 1 else 0)
    && (w.started <==> w.shouldStart && w.hasOptions)
  }

  ghost predicate AssignedAlive(c: Cluster) {
    c.master.assignee.Some? && c.master.assignee.value in c.alive
  }

  lemma ForkKeeps(c: Cluster, n: nat)
    requires Inv(c, n)
    ensures Inv(Fork(c), n + 1)
  {
    assert c.nextId !in c.alive;
  }

  lemma {:induction false} StartsInInv(workers: nat)
    ensures Inv(Start(workers), workers)
    ensures Start(workers).master == Master(0, {}, None) && Start(workers).table == Start(workers).alive
    ensures Start(workers).nextId == workers + 1 && Start(workers).sent == {}
  {
    ForkedInv(Cluster(Master(0, {}, None), {}, {}, {}, {}, map[], 1), workers);
  }

  lemma EmptyInv(c: Cluster)
    requires c == Cluster(Master(0, {}, None), {}, {}, {}, {}, map[], 1)
    ensures Inv(c, 0)
  {
  }

  lemma {:induction false} ForkedInv(c: Cluster, n: nat)
    requires c == Cluster(Master(0, {}, None), {}, {}, {}, {}, map[], 1)
    ensures Inv(Forked(c, n), n)
    ensures Forked(c, n).master == c.master && Forked(c, n).table == Forked(c, n).alive
    ensures Forked(c, n).nextId == n + 1 && Forked(c, n).sent == {}
  {
    hide Inv;
    if n > 0 {
      ForkedInv(c, n - 1);
      ForkKeeps(Forked(c, n - 1), n - 1);
    } else {
      EmptyInv(c);
    }
  }

  /** An assignment goes to a worker in the table that is connected; the message is sent only when no
      worker in the table has it. */
  lemma AssignFacts(m: Master, table: set<WorkerId>, connected: set<WorkerId>)
    ensures var r := Assign(m, table, connected);
            && r.0.listening == m.listening
            && (r.1.Some? ==> r.0.assignee == r.1 && r.1.value in table && r.1.value in connected)
            && (r.1.None? ==> r.0 == m)
            && (r.1.Some? ==> m.assignee.None? || m.assignee.value !in table)
            && (r.0.assignee.None? || r.0.assignee.value !in table ==> table * connected == {})
  {
  }

  lemma StepKeeps(c: Cluster, e: Event, workers: nat)
    requires Inv(c, workers) && Enabled(c, e)
    ensures Inv(Next(c, e, workers), workers)
  {
    match e
    case Listening(w) =>
      AssignFacts(c.master.(listening := c.master.listening + {w}), c.table, c.connected);
    case Exit(w) => ExitKeeps(c, w, workers);
    case _ =>
  }

  lemma ExitKeeps(c: Cluster, w: WorkerId, workers: nat)
    requires Inv(c, workers) && Enabled(c, Exit(w))
    ensures Inv(Next(c, Exit(w), workers), workers)
  {
    hide Assign;
    var gone := Gone(c, w);
    AssignFacts(Master(c.master.activeWorkers - 1, c.master.listening - {w}, None), gone.table, gone.connected);
    assert |gone.alive| == workers - 1;
    ForkKeeps(Send(gone, OnExit(gone.master, w, gone.table, gone.connected)), workers - 1);
  }

  lemma {:induction false} RunKeeps(c: Cluster, events: seq<Event>, workers: nat)
    requires Inv(c, workers) && ValidRun(c, events, workers)
    ensures Inv(Run(c, events, workers), workers)
    decreases |events|
  {
    hide Inv;
    if events != [] {
      StepKeeps(c, events[0], workers);
      RunKeeps(Next(c, events[0], workers), events[1..], workers);
    }
  }

  predicate Sweeping(c: Cluster, w: WorkerId) {
    w in c.alive && w in c.procs && c.procs[w].started
  }

  /** In every run: no two live workers run the sweep, and no worker starts it twice or before both
      the assignment and its configuration have arrived. */
  lemma AtMostOneSweeper(events: seq<Event>, workers: nat)
    requires ValidRun(Start(workers), events, workers)
    ensures var c := Run(Start(workers), events, workers);
            && (forall v: WorkerId, w: WorkerId :: Sweeping(c, v) && Sweeping(c, w) ==> v == w)
            && (forall w: WorkerId :: Sweeping(c, w) ==> c.master.assignee == Some(w))
            && (forall w :: w in c.procs ==>
                  c.procs[w].starts == if c.procs[w].shouldStart && c.procs[w].hasOptions then 1 else 0)
  {
    StartsInInv(workers);
    RunKeeps(Start(workers), events, workers);
  }

  // ----- when all workers listen

  ghost predicate AllListening(c: Cluster, workers: nat) {
    |c.master.listening| == workers
  }

  /** An assignment that a dead worker holds because it has not disconnected yet. */
  predicate HeldByDead(c: Cluster) {
    c.master.assignee.Some? && c.master.assignee.value in c.table && c.master.assignee.value !in c.alive
  }

  /** When the last worker starts listening, a live worker is assigned afterwards exactly when no
      exited worker that is still connected holds the assignment before. */
  lemma AssignedWhenAllListen(c: Cluster, w: WorkerId, workers: nat)
    requires Inv(c, workers) && Enabled(c, Listening(w))
    requires AllListening(Next(c, Listening(w), workers), workers)
    ensures AssignedAlive(Next(c, Listening(w), workers)) <==> !HeldByDead(c)
  {
    var m' := c.master.(listening := c.master.listening + {w});
    SubsetOfSize(m'.listening, c.alive);
    AssignFacts(m', c.table, c.connected);
    assert w in c.table * c.connected * m'.listening;
  }

  /** When a worker starts listening and somebody is told to sweep, that worker is alive and listening. */
  lemma ListenersFirst(c: Cluster, w: WorkerId, workers: nat)
    requires Inv(c, workers) && Enabled(c, Listening(w))
    ensures var r := OnListening(c.master, w, workers, c.table, c.connected);
            r.1.Some? ==> r.1.value in c.alive && r.1.value in r.0.listening
  {
    assert w in c.table * c.connected * (c.master.listening + {w});
  }

  lemma SubsetOfSize(a: set<WorkerId>, b: set<WorkerId>)
    requires a <= b
    ensures |a| <= |b| && (|a| == |b| ==> a == b)
  {
    assert b == a + (b - a) && |b| == |a| + |b - a|;
  }

  /** Whether an exited worker held the assignment when, last, a worker started listening. */
  ghost predicate BlockedAtLastListen(c: Cluster, events: seq<Event>, workers: nat, before: bool)
    requires ValidRun(c, events, workers)
    decreases |events|
  {
    if events == [] then before
    else BlockedAtLastListen(Next(c, events[0], workers), events[1..], workers,
                             if events[0].Listening? then HeldByDead(c) else before)
  }

  ghost predicate AssignedUnless(c: Cluster, workers: nat, blocked: bool) {
    AllListening(c, workers) ==> (AssignedAlive(c) <==> !blocked)
  }

  lemma FullStep(c: Cluster, e: Event, workers: nat, blocked: bool)
    requires Inv(c, workers) && Enabled(c, e) && workers > 0
    requires AssignedUnless(c, workers, blocked)
    ensures AssignedUnless(Next(c, e, workers), workers, if e.Listening? then HeldByDead(c) else blocked)
  {
    match e
    case Listening(w) => if AllListening(Next(c, e, workers), workers) { AssignedWhenAllListen(c, w, workers); }
    case Exit(w) => ExitUnfills(c, w, workers);
    case _ =>
  }

  lemma ExitUnfills(c: Cluster, w: WorkerId, workers: nat)
    requires Inv(c, workers) && Enabled(c, Exit(w)) && workers > 0
    ensures !AllListening(Next(c, Exit(w), workers), workers)
  {
    var gone := Gone(c, w);
    var m' := Master(c.master.activeWorkers - 1, c.master.listening - {w}, None);
    AssignFacts(m', gone.table, gone.connected);
    hide Assign;
    assert Next(c, Exit(w), workers).master.listening == c.master.listening - {w};
    SubsetOfSize(c.master.listening - {w}, c.alive - {w});
    assert |c.alive - {w}| == workers - 1;
  }

  lemma {:induction false} AssignedAfter(c: Cluster, events: seq<Event>, workers: nat, blocked: bool)
    requires Inv(c, workers) && ValidRun(c, events, workers) && workers > 0
    requires AssignedUnless(c, workers, blocked)
    ensures AssignedUnless(Run(c, events, workers), workers, BlockedAtLastListen(c, events, workers, blocked))
    decreases |events|
  {
    hide Inv, AssignedUnless, HeldByDead;
    if events != [] {
      StepKeeps(c, events[0], workers);
      FullStep(c, events[0], workers, blocked);
      AssignedAfter(Next(c, events[0], workers), events[1..], workers,
                    if events[0].Listening? then HeldByDead(c) else blocked);
    }
  }

  /** In every run, whenever all workers are listening, a live worker is assigned if and only if no
      exited worker that was still connected held the assignment when the last of them started listening. */
  lemma AllListeningAssigned(events: seq<Event>, workers: nat)
    requires ValidRun(Start(workers), events, workers) && workers > 0
    ensures var c := Run(Start(workers), events, workers);
            AllListening(c, workers) ==>
              (AssignedAlive(c) <==> !BlockedAtLastListen(Start(workers), events, workers, false))
  {
    StartsInInv(workers);
    hide Inv;
    assert AssignedUnless(Start(workers), workers, false);
    AssignedAfter(Start(workers), events, workers, false);
  }

  lemma OneStep(c: Cluster, e: Event, rest: seq<Event>, workers: nat)
    requires Enabled(c, e) && ValidRun(Next(c, e, workers), rest, workers)
    ensures ValidRun(c, [e] + rest, workers)
    ensures Run(c, [e] + rest, workers) == Run(Next(c, e, workers), rest, workers)
  {
    assert ([e] + rest)[1..] == rest;
  }

  lemma FiveSteps(c: Cluster, e: Event, f: Event, g: Event, h: Event, i: Event, workers: nat)
    requires Enabled(c, e) && var c1 := Next(c, e, workers); Enabled(c1, f) && var c2 := Next(c1, f, workers);
             Enabled(c2, g) && var c3 := Next(c2, g, workers); Enabled(c3, h) && Enabled(Next(c3, h, workers), i)
    ensures exists events :: ValidRun(c, events, workers) && Run(c, events, workers)
              == Next(Next(Next(Next(Next(c, e, workers), f, workers), g, workers), h, workers), i, workers)
  {
    hide Enabled, Next;
    var c1 := Next(c, e, workers);
    var c2 := Next(c1, f, workers);
    var c3 := Next(c2, g, workers);
    var c4 := Next(c3, h, workers);
    assert ValidRun(Next(c4, i, workers), [], workers);
    OneStep(c4, i, [], workers);
    OneStep(c3, h, [i] + [], workers);
    OneStep(c2, g, [h] + ([i] + []), workers);
    OneStep(c1, f, [g] + ([h] + ([i] + [])), workers);
    OneStep(c, e, [f] + ([g] + ([h] + ([i] + []))), workers);
  }

  lemma OneWorker()
    ensures var c := Start(1);
            && c.master == Master(0, {}, None) && c.nextId == 2
            && c.table == {1} && c.connected == {1} && c.alive == {1}
  {
    var empty := Cluster(Master(0, {}, None), {}, {}, {}, {}, map[], 1);
    assert Start(1) == Fork(Forked(empty, 0));
  }

  lemma AssignOnly(m: Master, table: set<WorkerId>, connected: set<WorkerId>, w: WorkerId)
    requires m.assignee.None? && table * connected == {w}
    ensures Assign(m, table, connected) == (m.(assignee := Some(w)), Some(w))
  {
    var available := table * connected * m.listening;
    assert available == {} || available == {w};
  }

  /** With one worker: it exits, is assigned again because it is still connected, and its replacement
      listens before it disconnects.  All workers listen, and the assigned one is dead. */
  lemma DeadWorkerCanHoldAssignment()
    ensures exists events :: ValidRun(Start(1), events, 1)
              && AllListening(Run(Start(1), events, 1), 1) && !AssignedAlive(Run(Start(1), events, 1))
  {
    hide Assign, ValidRun, Run, Start;
    OneWorker();
    var c1 := Next(Start(1), Online(1), 1);
    AssignOnly(Master(1, {1}, None), {1}, {1}, 1);
    assert c1.master.listening + {1} == {1};
    var c2 := Next(c1, Listening(1), 1);
    assert c2.master == Master(1, {1}, Some(1));
    AssignOnly(Master(0, {}, None), {1}, {1}, 1);
    var c3 := Next(c2, Exit(1), 1);
    assert c2.master.listening - {1} == {};
    assert c3.master == Master(0, {}, Some(1)) && c3.alive == {2} && c3.table == {1, 2};
    var c4 := Next(c3, Online(2), 1);
    AssignAgain(Master(1, {2}, Some(1)), c4.table, c4.connected);
    FiveSteps(Start(1), Online(1), Listening(1), Exit(1), Online(2), Listening(2), 1);
    assert c4.master.listening + {2} == {2};
    var c5 := Next(c4, Listening(2), 1);
    assert c5.master == Master(1, {2}, Some(1)) && c5.alive == {2};
  }

  lemma AssignAgain(m: Master, table: set<WorkerId>, connected: set<WorkerId>)
    requires m.assignee.Some? && m.assignee.value in table
    ensures Assign(m, table, connected) == (m, None)
  {
  }

  // ----- what the events of the cluster module do

  /** A worker leaves the table when it has both exited and disconnected. */
  ghost predicate InTable(c: Cluster) {
    c.table == c.alive + c.connected && forall w :: w in c.table ==> w < c.nextId
  }

  lemma TableKept(c: Cluster, e: Event, workers: nat)
    requires InTable(c) && Enabled(c, e)
    ensures InTable(Next(c, e, workers))
    ensures e.Disconnect? ==> Next(c, e, workers).connected == c.connected - {e.w}
                              && Next(c, e, workers).alive == c.alive
    ensures e.Exit? ==> Next(c, e, workers).alive == c.alive - {e.w} + {c.nextId}
                        && Next(c, e, workers).connected == c.connected + {c.nextId}
    ensures e.Online? || e.Listening? || e.Deliver? || e.ConfigLoaded? ==>
              Next(c, e, workers).alive == c.alive && Next(c, e, workers).connected == c.connected
  {
    hide Assign;
  }

  lemma {:induction false} TableInRun(c: Cluster, events: seq<Event>, workers: nat)
    requires InTable(c) && ValidRun(c, events, workers)
    ensures InTable(Run(c, events, workers))
    decreases |events|
  {
    hide InTable;
    if events != [] {
      TableKept(c, events[0], workers);
      TableInRun(Next(c, events[0], workers), events[1..], workers);
    }
  }

  lemma {:induction false} TableAtStart(n: nat)
    ensures InTable(Start(n))
  {
    if n > 0 { TableAtStart(n - 1); }
  }

  /** In every run the worker table holds exactly the workers that are alive or still connected. */
  lemma TableIsLiveOrConnected(events: seq<Event>, workers: nat)
    requires ValidRun(Start(workers), events, workers)
    ensures var c := Run(Start(workers), events, workers); c.table == c.alive + c.connected
  {
    TableAtStart(workers);
    TableInRun(Start(workers), events, workers);
  }

  /** The message and the configuration can reach a live worker that was told, in either order, and
      after both it sweeps. */
  lemma EitherOrderStarts(c: Cluster, w: WorkerId, workers: nat)
    requires Inv(c, workers) && w in c.alive && w in c.sent
    ensures Enabled(c, Deliver(w)) && Enabled(Next(c, Deliver(w), workers), ConfigLoaded(w))
    ensures Enabled(c, ConfigLoaded(w)) && Enabled(Next(c, ConfigLoaded(w), workers), Deliver(w))
    ensures Sweeping(Next(Next(c, Deliver(w), workers), ConfigLoaded(w), workers), w)
    ensures Sweeping(Next(Next(c, ConfigLoaded(w), workers), Deliver(w), workers), w)
  {
    StepKeeps(c, Deliver(w), workers);
    StepKeeps(c, ConfigLoaded(w), workers);
  }
}
