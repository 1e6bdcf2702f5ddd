/** Every interleaving of initializes, requests, responses, sweeps and closes on the session table. */
module SessionRuns {
  import opened Text
  import opened SessionTable

  /** An initialize in progress: the id it will give its session, its reservation's flag, and how far it got.
      The callback runs at most once and before the request that started it has failed or settled. */
  datatype Init = Init(id: string, released: bool, initialized: bool, failed: bool, settled: bool)

  /** `listeners` holds the responses whose close event is still awaited, with their session's id;
      `used` holds every id handed out so far. */
  datatype System = System(table: Table, inits: map<nat, Init>, listeners: map<nat, string>, used: set<string>)

  datatype Event =
    | Begin(request: nat, id: string)
    | Initialized(request: nat, now: int)
    | Fail(request: nat)
    | Settle(request: nat)
    | Request(request: nat, id: string, now: int)
    | ResponseEnd(request: nat, now: int)
    | Sweep(now: int)
    | Close(id: string)

  datatype Limits = Limits(maxSessions: nat, idleMs: int)

  /** Requests have distinct numbers and session ids are never handed out twice. */
  predicate Enabled(s: System, e: Event) {
    match e
    case Begin(r, id) => r !in s.inits && r !in s.listeners && id !in s.used
    case Initialized(r, _) =>
      r in s.inits && r !in s.listeners && !s.inits[r].initialized && !s.inits[r].failed && !s.inits[r].settled
    case Fail(r) => r in s.inits && !s.inits[r].failed && !s.inits[r].settled
    case Settle(r) => r in s.inits && !s.inits[r].settled
    case Request(q, _, _) => q !in s.inits && q !in s.listeners
    case ResponseEnd(q, _) => q in s.listeners
    case Sweep(_) => true
    case Close(_) => true
  }

  function Released(pending: int, init: Init): int {
    pending - if init.released then 0 else 1
  }

  function Next(s: System, e: Event, limits: Limits): System
    requires Enabled(s, e)
  {
    var t := s.table;
    match e
    case Begin(r, id) =>
      (match Reserve(t, limits.maxSessions)
       case None => s
       case Some(reserved) =>
         System(reserved, s.inits[r := Init(id, false, false, false, false)], s.listeners, s.used + {id}))
    case Initialized(r, now) =>
      var init := s.inits[r];
      s.(table := Table(Updated(t.sessions + [Session(init.id, now, 0)], init.id, Seen(now, 1)),
                        Released(t.pending, init)),
         inits := s.inits[r := init.(released := true, initialized := true)],
         listeners := s.listeners[r := init.id])
    case Fail(r) =>
      s.(table := t.(sessions := Without(t.sessions, s.inits[r].id)),
         inits := s.inits[r := s.inits[r].(failed := true)])
    case Settle(r) =>
      s.(table := t.(pending := Released(t.pending, s.inits[r])),
         inits := s.inits[r := s.inits[r].(released := true, settled := true)])
    case Request(q, id, now) =>
      if !Has(t.sessions, id) then s
      else s.(table := t.(sessions := Updated(t.sessions, id, Seen(now, 1))), listeners := s.listeners[q := id])
    case ResponseEnd(q, now) =>
      s.(table := t.(sessions := Updated(t.sessions, s.listeners[q], Seen(now, -1))), listeners := s.listeners - {q})
    case Sweep(now) =>
      s.(table := t.(sessions := Swept(t.sessions, now, limits.idleMs)))
    case Close(id) =>
      s.(table := t.(sessions := Without(t.sessions, id)))
  }

  const START := System(Table([], 0), map[], map[], {})

  predicate ValidRun(s: System, events: seq<Event>, limits: Limits)
    decreases |events|
  {
    events == [] || (Enabled(s, events[0]) && ValidRun(Next(s, events[0], limits), events[1..], limits))
  }

  function Run(s: System, events: seq<Event>, limits: Limits): System
    requires ValidRun(s, events, limits)
    decreases |events|
  {
    if events == [] then s else Run(Next(s, events[0], limits), events[1..], limits)
  }

  // ----- the invariant

  function Unreleased(inits: map<nat, Init>): set<nat> {
    set r | r in inits && !inits[r].released
  }

  function Listening(listeners: map<nat, string>, id: string): set<nat> {
    set q | q in listeners && listeners[q] == id
  }

  ghost predicate Counted(ss: seq<Session>, listeners: map<nat, string>) {
    forall i :: 0 <= i < |ss| ==> ss[i].openRequests == |Listening(listeners, ss[i].id)|
  }

  ghost predicate Ids(s: System) {
    && DistinctIds(s.table.sessions)
    && (forall x :: x in s.table.sessions ==> x.id in s.used)
    && (forall q :: q in s.listeners ==> s.listeners[q] in s.used)
    && (forall r :: r in s.inits ==> s.inits[r].id in s.used)
    && (forall r, p :: r in s.inits && p in s.inits && r != p ==> s.inits[r].id != s.inits[p].id)
    && (forall r, q :: r in s.inits && !s.inits[r].initialized && q in s.listeners ==> s.listeners[q] != s.inits[r].id)
    && (forall r, x :: r in s.inits && !s.inits[r].initialized && x in s.table.sessions ==> x.id != s.inits[r].id)
  }

  ghost predicate Flags(inits: map<nat, Init>) {
    forall r :: r in inits ==> (inits[r].released <==> inits[r].initialized || inits[r].settled)
  }

  /** Live sessions and pending slots stay within the cap, pending slots are the unreleased
      reservations, and a session's counter is the number of its responses that have not closed. */
  ghost predicate Inv(s: System, limits: Limits) {
    && Ids(s)
    && Flags(s.inits)
    && Counted(s.table.sessions, s.listeners)
    && s.table.pending == |Unreleased(s.inits)|
    && |s.table.sessions| + s.table.pending <= limits.maxSessions
  }

  // ----- removing entries

  lemma {:induction false} WithoutKeeps(ss: seq<Session>, id: string)
    requires DistinctIds(ss)
    ensures DistinctIds(Without(ss, id))
  {
    if ss != [] {
      WithoutKeeps(ss[1..], id);
      var rest := Without(ss[1..], id);
      forall x | x in rest ensures x.id != ss[0].id { assert x in ss[1..]; }
    }
  }

  lemma {:induction false} SweptKeeps(ss: seq<Session>, now: int, idleMs: int)
    requires DistinctIds(ss)
    ensures DistinctIds(Swept(ss, now, idleMs)) && |Swept(ss, now, idleMs)| <= |ss|
  {
    if ss != [] {
      SweptKeeps(ss[1..], now, idleMs);
      var rest := Swept(ss[1..], now, idleMs);
      forall x | x in rest ensures x.id != ss[0].id { assert x in ss[1..]; }
    }
  }

  lemma CountedPart(ss: seq<Session>, part: seq<Session>, listeners: map<nat, string>)
    requires Counted(ss, listeners)
    requires forall x :: x in part ==> x in ss
    ensures Counted(part, listeners)
  {
    forall i | 0 <= i < |part| ensures part[i].openRequests == |Listening(listeners, part[i].id)| {
      assert part[i] in ss;
    }
  }

  /** Any step that only takes entries out of the map keeps the invariant. */
  lemma RemovalKeeps(s: System, part: seq<Session>, limits: Limits)
    requires Inv(s, limits)
    requires DistinctIds(part) && |part| <= |s.table.sessions|
    requires forall x :: x in part ==> x in s.table.sessions
    ensures Inv(s.(table := s.table.(sessions := part)), limits)
  {
    CountedPart(s.table.sessions, part, s.listeners);
  }

  // ----- counting

  lemma ReleaseCounts(inits: map<nat, Init>, r: nat, init: Init)
    requires r in inits && init.released
    ensures |Unreleased(inits[r := init])| == Released(|Unreleased(inits)|, inits[r])
  {
    assert Unreleased(inits[r := init]) == Unreleased(inits) - {r};
  }

  lemma ReserveCounts(inits: map<nat, Init>, r: nat, init: Init)
    requires r !in inits && !init.released
    ensures |Unreleased(inits[r := init])| == |Unreleased(inits)| + 1
  {
    assert Unreleased(inits[r := init]) == Unreleased(inits) + {r};
  }

  lemma ListeningMore(listeners: map<nat, string>, q: nat, id: string, x: string)
    requires q !in listeners
    ensures |Listening(listeners[q := id], x)| == |Listening(listeners, x)| + if x == id then 1 else 0
  {
    assert Listening(listeners[q := id], x) == Listening(listeners, x) + if x == id then {q} else {};
  }

  lemma TrackCounts(ss: seq<Session>, listeners: map<nat, string>, q: nat, id: string, now: int)
    requires Counted(ss, listeners) && q !in listeners
    ensures Counted(Updated(ss, id, Seen(now, 1)), listeners[q := id])
  {
    hide Listening;
    forall i | 0 <= i < |ss| {
      ListeningMore(listeners, q, id, ss[i].id);
    }
  }

  lemma ListeningLess(listeners: map<nat, string>, q: nat, x: string)
    requires q in listeners
    ensures |Listening(listeners - {q}, x)| == |Listening(listeners, x)| - if x == listeners[q] then 1 else 0
  {
    assert Listening(listeners - {q}, x) == Listening(listeners, x) - {q};
  }

  lemma EndCounts(ss: seq<Session>, listeners: map<nat, string>, q: nat, now: int)
    requires Counted(ss, listeners) && q in listeners
    ensures Counted(Updated(ss, listeners[q], Seen(now, -1)), listeners - {q})
  {
    hide Listening;
    forall i | 0 <= i < |ss| {
      ListeningLess(listeners, q, ss[i].id);
    }
  }

  lemma UpdatedIds(ss: seq<Session>, id: string, now: int, requests: int)
    ensures |Updated(ss, id, Seen(now, requests))| == |ss|
    ensures forall i :: 0 <= i < |ss| ==> Updated(ss, id, Seen(now, requests))[i].id == ss[i].id
    ensures forall x :: x in Updated(ss, id, Seen(now, requests)) ==> exists y :: y in ss && y.id == x.id
  {
    var u := Updated(ss, id, Seen(now, requests));
    forall x | x in u ensures exists y :: y in ss && y.id == x.id {
      var i :| 0 <= i < |u| && u[i] == x;
      assert ss[i] in ss && ss[i].id == x.id;
    }
  }

  // ----- steps

  /** What a granted reservation leaves in the map. */
  lemma ReservedKeeps(t: Table, max: nat)
    requires DistinctIds(t.sessions) && Reserve(t, max).Some?
    ensures var kept := Reserve(t, max).value;
            && DistinctIds(kept.sessions)
            && (forall x :: x in kept.sessions ==> x in t.sessions)
            && kept.pending == t.pending + 1
            && |kept.sessions| <= |t.sessions|
            && (|t.sessions| + t.pending >= max ==> |kept.sessions| < |t.sessions|)
  {
    if |t.sessions| + t.pending >= max {
      var oldest := OldestIdle(t.sessions).value;
      WithoutKeeps(t.sessions, oldest.id);
      WithoutShorter(t.sessions, oldest.id);
      var i :| 0 <= i < |t.sessions| && t.sessions[i] == oldest;
      assert Has(t.sessions, oldest.id);
    }
  }

  lemma BeginIds(s: System, r: nat, id: string, kept: Table)
    requires Ids(s) && r !in s.inits && id !in s.used
    requires DistinctIds(kept.sessions) && forall x :: x in kept.sessions ==> x in s.table.sessions
    ensures Ids(System(kept, s.inits[r := Init(id, false, false, false, false)], s.listeners, s.used + {id}))
  {
    hide DistinctIds;
  }

  lemma BeginKeeps(s: System, r: nat, id: string, limits: Limits)
    requires Inv(s, limits) && Enabled(s, Begin(r, id))
    ensures Inv(Next(s, Begin(r, id), limits), limits)
  {
    var reserved := Reserve(s.table, limits.maxSessions);
    if reserved.Some? {
      ReservedKeeps(s.table, limits.maxSessions);
      hide Reserve, DistinctIds;
      BeginIds(s, r, id, reserved.value);
      hide Ids;
      ReserveCounts(s.inits, r, Init(id, false, false, false, false));
      CountedPart(s.table.sessions, reserved.value.sessions, s.listeners);
    }
  }

  lemma UpdateIds(s: System, id: string, now: int, requests: int)
    requires Ids(s)
    ensures Ids(s.(table := s.table.(sessions := Updated(s.table.sessions, id, Seen(now, requests)))))
  {
    hide Updated;
    UpdatedIds(s.table.sessions, id, now, requests);
  }

  lemma ListenIds(s: System, q: nat, id: string)
    requires Ids(s) && id in s.used
    requires forall r :: r in s.inits && !s.inits[r].initialized ==> s.inits[r].id != id
    ensures Ids(s.(listeners := s.listeners[q := id]))
  {
    hide DistinctIds;
  }

  lemma AddIds(s: System, r: nat, session: Session)
    requires Ids(s) && r in s.inits && !s.inits[r].initialized && session.id == s.inits[r].id
    ensures Ids(s.(table := s.table.(sessions := s.table.sessions + [session]),
                   inits := s.inits[r := s.inits[r].(released := true, initialized := true)]))
  {
    forall x | x in s.table.sessions ensures x.id != session.id {}
  }

  lemma PendingIds(s: System, pending: int)
    requires Ids(s)
    ensures Ids(s.(table := s.table.(pending := pending)))
  {
  }

  lemma InitializedIds(s: System, r: nat, now: int)
    requires Ids(s) && Enabled(s, Initialized(r, now))
    ensures Ids(Next(s, Initialized(r, now), Limits(0, 0)))
  {
    hide Updated;
    var session := Session(s.inits[r].id, now, 0);
    AddIds(s, r, session);
    var added := s.(table := s.table.(sessions := s.table.sessions + [session]),
                    inits := s.inits[r := s.inits[r].(released := true, initialized := true)]);
    ListenIds(added, r, session.id);
    hide Ids;
    var listening := added.(listeners := added.listeners[r := session.id]);
    UpdateIds(listening, session.id, now, 1);
    var seen := Updated(listening.table.sessions, session.id, Seen(now, 1));
    PendingIds(listening.(table := listening.table.(sessions := seen)),
               Released(s.table.pending, s.inits[r]));
  }

  lemma InitializedKeeps(s: System, r: nat, now: int, limits: Limits)
    requires Inv(s, limits) && Enabled(s, Initialized(r, now))
    ensures Inv(Next(s, Initialized(r, now), limits), limits)
  {
    InitializedIds(s, r, now);
    var t, init := s.table, s.inits[r];
    var added := t.sessions + [Session(init.id, now, 0)];
    assert Listening(s.listeners, init.id) == {};
    hide Ids;
    UpdatedIds(added, init.id, now, 1);
    ReleaseCounts(s.inits, r, init.(released := true, initialized := true));
    TrackCounts(added, s.listeners, r, init.id, now);
  }

  lemma RequestIds(s: System, q: nat, id: string, now: int)
    requires Ids(s) && Enabled(s, Request(q, id, now)) && Has(s.table.sessions, id)
    ensures Ids(Next(s, Request(q, id, now), Limits(0, 0)))
  {
    var i :| 0 <= i < |s.table.sessions| && s.table.sessions[i].id == id;
    assert s.table.sessions[i] in s.table.sessions;
    ListenIds(s, q, id);
    hide Ids;
    UpdateIds(s.(listeners := s.listeners[q := id]), id, now, 1);
  }

  lemma RequestKeeps(s: System, q: nat, id: string, now: int, limits: Limits)
    requires Inv(s, limits) && Enabled(s, Request(q, id, now))
    ensures Inv(Next(s, Request(q, id, now), limits), limits)
  {
    hide Ids;
    if Has(s.table.sessions, id) {
      RequestIds(s, q, id, now);
      TrackCounts(s.table.sessions, s.listeners, q, id, now);
      UpdatedIds(s.table.sessions, id, now, 1);
    }
  }

  lemma ResponseEndKeeps(s: System, q: nat, now: int, limits: Limits)
    requires Inv(s, limits) && Enabled(s, ResponseEnd(q, now))
    ensures Inv(Next(s, ResponseEnd(q, now), limits), limits)
  {
    EndCounts(s.table.sessions, s.listeners, q, now);
    UpdatedIds(s.table.sessions, s.listeners[q], now, -1);
  }

  lemma SettleKeeps(s: System, r: nat, limits: Limits)
    requires Inv(s, limits) && Enabled(s, Settle(r))
    ensures Inv(Next(s, Settle(r), limits), limits)
  {
    ReleaseCounts(s.inits, r, s.inits[r].(released := true, settled := true));
  }

  lemma FailKeeps(s: System, r: nat, limits: Limits)
    requires Inv(s, limits) && Enabled(s, Fail(r))
    ensures Inv(Next(s, Fail(r), limits), limits)
  {
    var id := s.inits[r].id;
    WithoutKeeps(s.table.sessions, id);
    WithoutShorter(s.table.sessions, id);
    RemovalKeeps(s, Without(s.table.sessions, id), limits);
    assert Unreleased(s.inits[r := s.inits[r].(failed := true)]) == Unreleased(s.inits);
  }

  lemma StepKeeps(s: System, e: Event, limits: Limits)
    requires Inv(s, limits) && Enabled(s, e)
    ensures Inv(Next(s, e, limits), limits)
  {
    hide Inv;
    match e
    case Begin(r, id) => BeginKeeps(s, r, id, limits);
    case Initialized(r, now) => InitializedKeeps(s, r, now, limits);
    case Fail(r) => FailKeeps(s, r, limits);
    case Settle(r) => SettleKeeps(s, r, limits);
    case Request(q, id, now) => RequestKeeps(s, q, id, now, limits);
    case ResponseEnd(q, now) => ResponseEndKeeps(s, q, now, limits);
    case Sweep(now) => SweepKeeps(s, now, limits);
    case Close(id) => CloseKeeps(s, id, limits);
  }

  lemma SweepKeeps(s: System, now: int, limits: Limits)
    requires Inv(s, limits)
    ensures Inv(Next(s, Sweep(now), limits), limits)
  {
    SweptKeeps(s.table.sessions, now, limits.idleMs);
    RemovalKeeps(s, Swept(s.table.sessions, now, limits.idleMs), limits);
  }

  lemma CloseKeeps(s: System, id: string, limits: Limits)
    requires Inv(s, limits)
    ensures Inv(Next(s, Close(id), limits), limits)
  {
    WithoutKeeps(s.table.sessions, id);
    WithoutShorter(s.table.sessions, id);
    RemovalKeeps(s, Without(s.table.sessions, id), limits);
  }

  lemma {:induction false} RunKeeps(s: System, events: seq<Event>, limits: Limits)
    requires Inv(s, limits) && ValidRun(s, events, limits)
    ensures Inv(Run(s, events, limits), limits)
    decreases |events|
  {
    hide Inv;
    if events != [] {
      StepKeeps(s, events[0], limits);
      RunKeeps(Next(s, events[0], limits), events[1..], limits);
    }
  }

  /** In every run from the empty table: the cap holds, pending slots are exactly the unreleased
      reservations, counters are exactly the open responses, and once every initialize has settled
      no slot is held. */
  lemma EveryRun(events: seq<Event>, limits: Limits)
    requires ValidRun(START, events, limits)
    ensures var s := Run(START, events, limits);
            && |s.table.sessions| + s.table.pending <= limits.maxSessions
            && s.table.pending == |Unreleased(s.inits)|
            && Counted(s.table.sessions, s.listeners)
            && ((forall r :: r in s.inits ==> s.inits[r].settled) ==> s.table.pending == 0)
  {
    assert Inv(START, limits) by { assert Unreleased(map[]) == {}; }
    RunKeeps(START, events, limits);
    var s := Run(START, events, limits);
    if forall r :: r in s.inits ==> s.inits[r].settled {
      assert Unreleased(s.inits) == {};
    }
  }

  // ----- who is removed

  predicate IsFailOf(e: Event, s: System, id: string) {
    e.Fail? && e.request in s.inits && s.inits[e.request].id == id
  }

  /** A session with an open response leaves the table only when its own initialize fails or it is closed. */
  lemma BusySessionStays(s: System, e: Event, limits: Limits, x: Session)
    requires Inv(s, limits) && Enabled(s, e)
    requires x in s.table.sessions && Listening(s.listeners, x.id) != {}
    requires !IsFailOf(e, s, x.id) && e != Close(x.id)
    ensures Has(Next(s, e, limits).table.sessions, x.id)
  {
    var ss := s.table.sessions;
    var i :| 0 <= i < |ss| && ss[i] == x;
    assert !Idle(x);
    var next := Next(s, e, limits).table.sessions;
    match e
    case Begin(_, _) =>
      OthersDiffer(ss, i);
      HasEntry(next, x);
    case Initialized(r, now) =>
      UpdatedIds(ss + [Session(s.inits[r].id, now, 0)], s.inits[r].id, now, 1);
      assert next[i].id == x.id;
    case Request(_, id, now) =>
      UpdatedIds(ss, id, now, 1);
      assert next[i].id == x.id;
    case ResponseEnd(q, now) =>
      UpdatedIds(ss, s.listeners[q], now, -1);
      assert next[i].id == x.id;
    case _ => HasEntry(next, x);
  }

  lemma HasEntry(ss: seq<Session>, x: Session)
    requires x in ss
    ensures Has(ss, x.id)
  {
    var i :| 0 <= i < |ss| && ss[i] == x;
  }

  predicate Free(x: Session, listeners: map<nat, string>) {
    Listening(listeners, x.id) == {}
  }

  /** `after` is `before` without one session that is free and was seen no later than any other free one. */
  ghost predicate EvictedOldest(before: seq<Session>, after: seq<Session>, listeners: map<nat, string>) {
    exists i :: 0 <= i < |before|
      && after == before[..i] + before[i + 1..]
      && Free(before[i], listeners)
      && forall x :: x in before && Free(x, listeners) ==> before[i].lastSeen <= x.lastSeen
  }

  lemma IdleIsFree(s: System, limits: Limits)
    requires Inv(s, limits)
    ensures forall x :: x in s.table.sessions ==> (Idle(x) <==> Free(x, s.listeners))
  {
    var ss := s.table.sessions;
    forall x | x in ss ensures Idle(x) <==> Free(x, s.listeners) {
      var i :| 0 <= i < |ss| && ss[i] == x;
    }
  }

  lemma EvictionTakesOldest(s: System, limits: Limits)
    requires Inv(s, limits) && OldestIdle(s.table.sessions).Some?
    ensures var ss := s.table.sessions;
            EvictedOldest(ss, Without(ss, OldestIdle(ss).value.id), s.listeners)
  {
    hide Without, Free, EvictedOldest;
    var ss := s.table.sessions;
    var oldest := OldestIdle(ss).value;
    var i :| 0 <= i < |ss| && ss[i] == oldest;
    RemoveAt(ss, i);
    IdleIsFree(s, limits);
    forall x | x in ss && Free(x, s.listeners) ensures oldest.lastSeen <= x.lastSeen {
      var k :| 0 <= k < |ss| && ss[k] == x;
    }
    EvictedAt(ss, i, s.listeners);
  }

  lemma RemoveAt(ss: seq<Session>, i: nat)
    requires DistinctIds(ss) && i < |ss|
    ensures Without(ss, ss[i].id) == ss[..i] + ss[i + 1..]
  {
    hide Without, DistinctIds;
    var a, s, b := ss[..i], ss[i], ss[i + 1..];
    OthersDiffer(ss, i);
    WithoutMiddle(a, s, b);
    assert ss == a + ([s] + b);
  }

  lemma EvictedAt(before: seq<Session>, i: nat, listeners: map<nat, string>)
    requires i < |before| && Free(before[i], listeners)
    requires forall x :: x in before && Free(x, listeners) ==> before[i].lastSeen <= x.lastSeen
    ensures EvictedOldest(before, before[..i] + before[i + 1..], listeners)
  {
  }

  /** An initialize is refused exactly when the cap is reached and every live session has an open
      response; granted at the cap, it removes one session, idle and seen no later than any other
      idle one, and leaves the rest as they were. */
  lemma ReservationOutcome(s: System, limits: Limits)
    requires Inv(s, limits)
    ensures var t := s.table;
            var reserved := Reserve(t, limits.maxSessions);
            var full := |t.sessions| + t.pending == limits.maxSessions;
            && (reserved.None? <==> full && forall x :: x in t.sessions ==> !Free(x, s.listeners))
            && (reserved.Some? ==> reserved.value.pending == t.pending + 1)
            && (reserved.Some? && !full ==> reserved.value.sessions == t.sessions)
            && (reserved.Some? && full ==> EvictedOldest(t.sessions, reserved.value.sessions, s.listeners))
  {
    hide Without, Free, EvictedOldest;
    var ss := s.table.sessions;
    IdleIsFree(s, limits);
    if OldestIdle(ss).Some? {
      EvictionTakesOldest(s, limits);
    } else {
      forall x | x in ss ensures !Idle(x) { var k :| 0 <= k < |ss| && ss[k] == x; }
    }
  }

  /** A sweep closes exactly the sessions without an open response that were idle longer than allowed. */
  lemma SweepOutcome(s: System, now: int, limits: Limits, x: Session)
    requires Inv(s, limits) && x in s.table.sessions
    ensures x !in Next(s, Sweep(now), limits).table.sessions <==>
            Listening(s.listeners, x.id) == {} && now - x.lastSeen > limits.idleMs
  {
    var i :| 0 <= i < |s.table.sessions| && s.table.sessions[i] == x;
  }

  // ----- a refusal is never for good

  function Unsettled(inits: map<nat, Init>): set<nat> {
    set r | r in inits && !inits[r].settled
  }

  /** Once every initialize has settled and every response has ended, no slot is held, every session
      is idle, and another initialize is granted unless the cap is zero. */
  lemma AllQuiet(s: System, limits: Limits)
    requires Inv(s, limits) && Unsettled(s.inits) == {} && s.listeners == map[]
    ensures s.table.pending == 0 && forall x :: x in s.table.sessions ==> x.openRequests == 0
    ensures limits.maxSessions > 0 ==> Reserve(s.table, limits.maxSessions).Some?
  {
    assert Unreleased(s.inits) == {};
    forall x | x in s.table.sessions ensures x.openRequests == 0 {
      var i :| 0 <= i < |s.table.sessions| && s.table.sessions[i] == x;
      assert Listening(s.listeners, x.id) == {};
    }
  }

  lemma OneStep(s: System, e: Event, more: seq<Event>, limits: Limits)
    requires Enabled(s, e) && ValidRun(Next(s, e, limits), more, limits)
    ensures ValidRun(s, [e] + more, limits)
    ensures Run(s, [e] + more, limits) == Run(Next(s, e, limits), more, limits)
  {
    assert ([e] + more)[1..] == more;
  }

  /** Whatever has happened, the initializes in progress can settle and the open responses end, and
      then an initialize is granted unless the cap is zero. */
  lemma {:induction false} RefusalCanEnd(s: System, now: int, limits: Limits) returns (more: seq<Event>)
    requires Inv(s, limits)
    ensures ValidRun(s, more, limits) && forall e :: e in more ==> e.Settle? || e.ResponseEnd?
    ensures var end := Run(s, more, limits);
            && end.table.pending == 0
            && (forall x :: x in end.table.sessions ==> x.openRequests == 0)
            && (limits.maxSessions > 0 ==> Reserve(end.table, limits.maxSessions).Some?)
    decreases Unsettled(s.inits), s.listeners.Keys
  {
    hide Inv, Reserve;
    if Unsettled(s.inits) == {} && s.listeners == map[] {
      AllQuiet(s, limits);
      return [];
    }
    var e;
    if Unsettled(s.inits) != {} {
      var r :| r in Unsettled(s.inits);
      e := Settle(r);
      assert r !in Unsettled(Next(s, e, limits).inits);
    } else {
      var q :| q in s.listeners;
      e := ResponseEnd(q, now);
      assert q !in Next(s, e, limits).listeners;
    }
    StepKeeps(s, e, limits);
    var rest := RefusalCanEnd(Next(s, e, limits), now, limits);
    OneStep(s, e, rest, limits);
    more := [e] + rest;
  }
}
