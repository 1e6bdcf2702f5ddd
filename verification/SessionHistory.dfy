/** What a run of the session table is about, told by its events alone: when a session was last used and
    which of its responses are open. */
module SessionHistory {
  import opened Text
  import opened SessionTable
  import opened SessionRuns

  /** The session that request `q` was last made for: the one it initializes or the one it names. */
  function OwnerOf(events: seq<Event>, q: nat): Option<string> {
    if events == [] then None
    else
      match events[|events| - 1]
      case Begin(r, id) => if r == q then Some(id) else OwnerOf(events[..|events| - 1], q)
      case Request(r, id, _) => if r == q then Some(id) else OwnerOf(events[..|events| - 1], q)
      case _ => OwnerOf(events[..|events| - 1], q)
  }

  /** The time of the last event that used the session: its initialization, a request that names it, or
      the end of the response to one of its requests. */
  function LastUse(events: seq<Event>, id: string): Option<int> {
    if events == [] then None
    else
      var before := events[..|events| - 1];
      match events[|events| - 1]
      case Initialized(r, now) => if OwnerOf(before, r) == Some(id) then Some(now) else LastUse(before, id)
      case Request(_, named, now) => if named == id then Some(now) else LastUse(before, id)
      case ResponseEnd(q, now) => if OwnerOf(before, q) == Some(id) then Some(now) else LastUse(before, id)
      case _ => LastUse(before, id)
  }

  predicate WasInitialized(events: seq<Event>, id: string) {
    if events == [] then false
    else
      var before := events[..|events| - 1];
      match events[|events| - 1]
      case Initialized(r, _) => OwnerOf(before, r) == Some(id) || WasInitialized(before, id)
      case _ => WasInitialized(before, id)
  }

  /** The requests of an initialized session whose responses have not ended. */
  function OpenResponses(events: seq<Event>, id: string): set<nat> {
    if events == [] then {}
    else
      var before := events[..|events| - 1];
      match events[|events| - 1]
      case Initialized(r, _) =>
        if OwnerOf(before, r) == Some(id) then OpenResponses(before, id) + {r} else OpenResponses(before, id)
      case Request(q, named, _) =>
        if named == id && WasInitialized(before, id) then OpenResponses(before, id) + {q} else OpenResponses(before, id)
      case ResponseEnd(q, _) => OpenResponses(before, id) - {q}
      case _ => OpenResponses(before, id)
  }

  ghost predicate Owners(s: System, events: seq<Event>) {
    && (forall r :: r in s.inits ==> OwnerOf(events, r) == Some(s.inits[r].id))
    && (forall q :: q in s.listeners ==> OwnerOf(events, q) == Some(s.listeners[q]))
  }

  predicate Untouched(events: seq<Event>, id: string) {
    !WasInitialized(events, id) && OpenResponses(events, id) == {}
  }

  /** Ids that were not handed out, or whose session is still to come, have no history. */
  ghost predicate Newcomers(s: System, events: seq<Event>) {
    && (forall r :: r in s.inits && !s.inits[r].initialized ==> Untouched(events, s.inits[r].id))
    && (forall id :: id !in s.used ==> Untouched(events, id))
  }

  ghost predicate RecordsSession(listeners: map<nat, string>, events: seq<Event>, x: Session) {
    && WasInitialized(events, x.id)
    && LastUse(events, x.id) == Some(x.lastSeen)
    && OpenResponses(events, x.id) == Listening(listeners, x.id)
  }

  /** The state after `events` keeps what they say about every session in the table. */
  ghost predicate Records(s: System, events: seq<Event>) {
    Owners(s, events) && Newcomers(s, events)
    && forall x :: x in s.table.sessions ==> RecordsSession(s.listeners, events, x)
  }

  // ----- steps

  lemma OneMore(h: seq<Event>, e: Event)
    ensures h + [e] != [] && (h + [e])[|h + [e]| - 1] == e && (h + [e])[..|h + [e]| - 1] == h
  {
  }

  /** Steps that only take sessions away, and that the history of no session mentions. */
  lemma RemovalRecords(s: System, h: seq<Event>, e: Event, after: System)
    requires Records(s, h) && (e.Fail? || e.Settle? || e.Sweep? || e.Close?)
    requires after.listeners == s.listeners && after.used == s.used && after.inits.Keys == s.inits.Keys
    requires forall r :: r in s.inits ==>
               after.inits[r].id == s.inits[r].id && after.inits[r].initialized == s.inits[r].initialized
    requires forall x :: x in after.table.sessions ==> x in s.table.sessions
    ensures Records(after, h + [e])
  {
    OneMore(h, e);
    assert forall q :: OwnerOf(h + [e], q) == OwnerOf(h, q);
    assert forall id :: WasInitialized(h + [e], id) == WasInitialized(h, id);
    assert forall id :: OpenResponses(h + [e], id) == OpenResponses(h, id) && LastUse(h + [e], id) == LastUse(h, id);
    hide OwnerOf, LastUse, WasInitialized, OpenResponses;
  }

  lemma BeginHistory(h: seq<Event>, r: nat, id: string)
    ensures var after := h + [Begin(r, id)];
            && (forall q :: OwnerOf(after, q) == if q == r then Some(id) else OwnerOf(h, q))
            && (forall i :: WasInitialized(after, i) == WasInitialized(h, i))
            && (forall i :: LastUse(after, i) == LastUse(h, i))
            && (forall i :: OpenResponses(after, i) == OpenResponses(h, i))
  {
    OneMore(h, Begin(r, id));
  }

  lemma BeginParts(s: System, h: seq<Event>, r: nat, id: string, kept: Table)
    requires Records(s, h) && r !in s.inits && r !in s.listeners && id !in s.used
    requires forall x :: x in kept.sessions ==> x in s.table.sessions
    ensures Records(System(kept, s.inits[r := Init(id, false, false, false, false)], s.listeners, s.used + {id}),
                    h + [Begin(r, id)])
    ensures Records(s, h + [Begin(r, id)])
  {
    BeginHistory(h, r, id);
    hide OwnerOf, LastUse, WasInitialized, OpenResponses, Listening;
    var started := System(kept, s.inits[r := Init(id, false, false, false, false)], s.listeners, s.used + {id});
    assert Owners(started, h + [Begin(r, id)]) && Owners(s, h + [Begin(r, id)]);
    assert forall i :: Untouched(h + [Begin(r, id)], i) == Untouched(h, i);
    hide Untouched;
    assert Newcomers(started, h + [Begin(r, id)]) && Newcomers(s, h + [Begin(r, id)]);
  }

  lemma BeginRecords(s: System, h: seq<Event>, r: nat, id: string, limits: Limits)
    requires Inv(s, limits) && Records(s, h) && Enabled(s, Begin(r, id))
    ensures Records(Next(s, Begin(r, id), limits), h + [Begin(r, id)])
  {
    var reserved := Reserve(s.table, limits.maxSessions);
    if reserved.Some? { ReservedKeeps(s.table, limits.maxSessions); }
    hide Inv, Reserve, Records;
    BeginParts(s, h, r, id, if reserved.Some? then reserved.value else s.table);
  }

  /** What an initialization adds to the history. */
  lemma InitializedHistory(h: seq<Event>, r: nat, now: int, id: string)
    requires OwnerOf(h, r) == Some(id)
    ensures var after := h + [Initialized(r, now)];
            && (forall q :: OwnerOf(after, q) == OwnerOf(h, q))
            && (forall i :: WasInitialized(after, i) == (i == id || WasInitialized(h, i)))
            && (forall i :: LastUse(after, i) == if i == id then Some(now) else LastUse(h, i))
            && (forall i :: OpenResponses(after, i) == OpenResponses(h, i) + if i == id then {r} else {})
  {
    OneMore(h, Initialized(r, now));
  }

  lemma InitializedOwners(s: System, h: seq<Event>, r: nat, now: int, limits: Limits)
    requires Inv(s, limits) && Records(s, h) && Enabled(s, Initialized(r, now))
    ensures Owners(Next(s, Initialized(r, now), limits), h + [Initialized(r, now)])
    ensures Newcomers(Next(s, Initialized(r, now), limits), h + [Initialized(r, now)])
  {
    InitializedHistory(h, r, now, s.inits[r].id);
    hide OwnerOf, LastUse, WasInitialized, OpenResponses, Updated;
    assert forall i :: i != s.inits[r].id ==> Untouched(h + [Initialized(r, now)], i) == Untouched(h, i);
    hide Untouched;
  }

  lemma InitializedRecords(s: System, h: seq<Event>, r: nat, now: int, limits: Limits)
    requires Inv(s, limits) && Records(s, h) && Enabled(s, Initialized(r, now))
    ensures Records(Next(s, Initialized(r, now), limits), h + [Initialized(r, now)])
  {
    var id := s.inits[r].id;
    var added := s.table.sessions + [Session(id, now, 0)];
    InitializedOwners(s, h, r, now, limits);
    InitializedHistory(h, r, now, id);
    assert Untouched(h, id) && Listening(s.listeners, id) == {};
    assert forall x :: x in s.table.sessions ==> x.id != id;
    hide OwnerOf, LastUse, WasInitialized, OpenResponses, Owners, Newcomers, Inv, Updated, Listening;
    var after := Next(s, Initialized(r, now), limits);
    forall x | x in after.table.sessions ensures RecordsSession(after.listeners, h + [Initialized(r, now)], x) {
      var y := Source(added, id, Seen(now, 1), x);
      RequestedSession(s.listeners, r, id, y.id);
    }
  }

  /** The entry that an updated entry comes from. */
  lemma Source(ss: seq<Session>, id: string, change: Session -> Session, x: Session) returns (y: Session)
    requires x in Updated(ss, id, change)
    ensures y in ss && x == if y.id == id then change(y) else y
  {
    var i :| 0 <= i < |ss| && Updated(ss, id, change)[i] == x;
    y := ss[i];
  }

  lemma RequestHistory(h: seq<Event>, q: nat, id: string, now: int)
    ensures var after := h + [Request(q, id, now)];
            && (forall p :: OwnerOf(after, p) == if p == q then Some(id) else OwnerOf(h, p))
            && (forall i :: WasInitialized(after, i) == WasInitialized(h, i))
            && (forall i :: LastUse(after, i) == if i == id then Some(now) else LastUse(h, i))
            && (forall i :: OpenResponses(after, i)
                  == OpenResponses(h, i) + if i == id && WasInitialized(h, i) then {q} else {})
  {
    OneMore(h, Request(q, id, now));
  }

  lemma RequestOwners(s: System, h: seq<Event>, q: nat, id: string, now: int, limits: Limits)
    requires Records(s, h) && Enabled(s, Request(q, id, now))
    ensures Owners(Next(s, Request(q, id, now), limits), h + [Request(q, id, now)])
    ensures Newcomers(Next(s, Request(q, id, now), limits), h + [Request(q, id, now)])
  {
    RequestHistory(h, q, id, now);
    assert forall i :: Untouched(h, i) ==> Untouched(h + [Request(q, id, now)], i);
    hide OwnerOf, LastUse, WasInitialized, OpenResponses, Updated, Untouched, RecordsSession;
  }

  lemma RequestSession(s: System, h: seq<Event>, q: nat, id: string, now: int, x: Session)
    requires Records(s, h) && q !in s.listeners && x in Updated(s.table.sessions, id, Seen(now, 1))
    ensures RecordsSession(s.listeners[q := id], h + [Request(q, id, now)], x)
  {
    RequestHistory(h, q, id, now);
    hide OwnerOf, LastUse, WasInitialized, OpenResponses, Updated, Listening, Owners, Newcomers;
    var y := Source(s.table.sessions, id, Seen(now, 1), x);
    RequestedSession(s.listeners, q, id, y.id);
  }

  lemma OtherSession(s: System, h: seq<Event>, q: nat, id: string, now: int, x: Session)
    requires Records(s, h) && x in s.table.sessions && x.id != id
    ensures RecordsSession(s.listeners, h + [Request(q, id, now)], x)
  {
    RequestHistory(h, q, id, now);
    hide OwnerOf, LastUse, WasInitialized, OpenResponses, Listening, Owners, Newcomers;
  }

  lemma RequestRecords(s: System, h: seq<Event>, q: nat, id: string, now: int, limits: Limits)
    requires Inv(s, limits) && Records(s, h) && Enabled(s, Request(q, id, now))
    ensures Records(Next(s, Request(q, id, now), limits), h + [Request(q, id, now)])
  {
    RequestOwners(s, h, q, id, now, limits);
    hide Inv, Updated, Owners, Newcomers, RecordsSession;
    if Has(s.table.sessions, id) {
      forall x | x in Updated(s.table.sessions, id, Seen(now, 1)) { RequestSession(s, h, q, id, now, x); }
    } else {
      forall x | x in s.table.sessions ensures RecordsSession(s.listeners, h + [Request(q, id, now)], x) {
        HasEntry(s.table.sessions, x);
        OtherSession(s, h, q, id, now, x);
      }
    }
  }

  lemma RequestedSession(listeners: map<nat, string>, q: nat, id: string, x: string)
    requires q !in listeners
    ensures Listening(listeners[q := id], x) == Listening(listeners, x) + if x == id then {q} else {}
  {
  }

  lemma EndHistory(h: seq<Event>, q: nat, now: int, id: string)
    requires OwnerOf(h, q) == Some(id)
    ensures var after := h + [ResponseEnd(q, now)];
            && (forall p :: OwnerOf(after, p) == OwnerOf(h, p))
            && (forall i :: WasInitialized(after, i) == WasInitialized(h, i))
            && (forall i :: LastUse(after, i) == if i == id then Some(now) else LastUse(h, i))
            && (forall i :: OpenResponses(after, i) == OpenResponses(h, i) - {q})
  {
    OneMore(h, ResponseEnd(q, now));
  }

  lemma EndRecords(s: System, h: seq<Event>, q: nat, now: int, limits: Limits)
    requires Inv(s, limits) && Records(s, h) && Enabled(s, ResponseEnd(q, now))
    ensures Records(Next(s, ResponseEnd(q, now), limits), h + [ResponseEnd(q, now)])
  {
    var id := s.listeners[q];
    EndHistory(h, q, now, id);
    hide OwnerOf, LastUse, WasInitialized, OpenResponses;
    var after := Next(s, ResponseEnd(q, now), limits);
    forall x | x in after.table.sessions ensures RecordsSession(after.listeners, h + [ResponseEnd(q, now)], x) {
      var y := Source(s.table.sessions, id, Seen(now, -1), x);
      assert Listening(after.listeners, y.id) == Listening(s.listeners, y.id) - {q};
    }
  }

  lemma StepRecords(s: System, h: seq<Event>, e: Event, limits: Limits)
    requires Inv(s, limits) && Records(s, h) && Enabled(s, e)
    ensures Records(Next(s, e, limits), h + [e])
  {
    match e
    case Begin(r, id) => BeginRecords(s, h, r, id, limits);
    case Initialized(r, now) => InitializedRecords(s, h, r, now, limits);
    case Request(q, id, now) => RequestRecords(s, h, q, id, now, limits);
    case ResponseEnd(q, now) => EndRecords(s, h, q, now, limits);
    case _ =>
      hide Inv, Records;
      RemovalRecords(s, h, e, Next(s, e, limits));
  }

  lemma {:induction false} RunRecords(s: System, h: seq<Event>, events: seq<Event>, limits: Limits)
    requires Inv(s, limits) && Records(s, h) && ValidRun(s, events, limits)
    ensures Records(Run(s, events, limits), h + events)
    decreases |events|
  {
    hide Inv, Records, Next, Enabled;
    if events == [] {
      assert h + events == h;
    } else {
      StepKeeps(s, events[0], limits);
      StepRecords(s, h, events[0], limits);
      RunRecords(Next(s, events[0], limits), h + [events[0]], events[1..], limits);
      assert h + [events[0]] + events[1..] == h + events;
    }
  }

  // ----- every run

  /** In every run from the empty table, each session in it was initialized, was last seen at the time of
      the last event that used it, and counts the responses that its requests have left open. */
  lemma TableTellsHistory(events: seq<Event>, limits: Limits, x: Session)
    requires ValidRun(START, events, limits) && x in Run(START, events, limits).table.sessions
    ensures WasInitialized(events, x.id)
    ensures LastUse(events, x.id) == Some(x.lastSeen)
    ensures x.openRequests == |OpenResponses(events, x.id)|
  {
    EveryRun(events, limits);
    StartKeeps(limits);
    RunRecords(START, [], events, limits);
    assert [] + events == events;
  }

  lemma StartKeeps(limits: Limits)
    ensures Inv(START, limits) && Records(START, [])
  {
    assert Unreleased(START.inits) == {};
  }

  /** No response of the session is open. */
  ghost predicate Quiet(events: seq<Event>, id: string) {
    OpenResponses(events, id) == {}
  }

  /** What an initialize after any run gives: it is refused if and only if the cap is reached and every
      live session has an open response; granted at the cap, it takes out one quiet session, which was
      last used no later than any other quiet one, and no other. */
  lemma EvictionByHistory(events: seq<Event>, limits: Limits)
    requires ValidRun(START, events, limits)
    ensures var t := Run(START, events, limits).table;
            var reserved := Reserve(t, limits.maxSessions);
            var full := |t.sessions| + t.pending == limits.maxSessions;
            && (reserved.None? <==> full && forall x :: x in t.sessions ==> !Quiet(events, x.id))
            && (reserved.Some? && !full ==> reserved.value.sessions == t.sessions)
            && (reserved.Some? && full ==> LeastUsedLeaves(events, t.sessions, reserved.value.sessions))
  {
    var s := Run(START, events, limits);
    StartKeeps(limits);
    RunKeeps(START, events, limits);
    ReservationOutcome(s, limits);
    forall x | x in s.table.sessions ensures Free(x, s.listeners) <==> Quiet(events, x.id) {
      FreeIsQuiet(events, limits, x);
    }
    var t := s.table;
    var reserved := Reserve(t, limits.maxSessions);
    if reserved.Some? && |t.sessions| + t.pending == limits.maxSessions {
      LeastUsed(events, limits, reserved.value.sessions);
    }
  }

  lemma FreeIsQuiet(events: seq<Event>, limits: Limits, x: Session)
    requires ValidRun(START, events, limits) && x in Run(START, events, limits).table.sessions
    ensures Free(x, Run(START, events, limits).listeners) <==> Quiet(events, x.id)
    ensures LastUse(events, x.id) == Some(x.lastSeen)
  {
    StartKeeps(limits);
    RunRecords(START, [], events, limits);
    assert [] + events == events;
  }

  /** `after` is `before` without one quiet session that was last used no later than any other quiet one. */
  ghost predicate LeastUsedLeaves(events: seq<Event>, before: seq<Session>, after: seq<Session>) {
    exists i :: 0 <= i < |before| && IsLeastUsed(events, before, before[i].id) && after == before[..i] + before[i + 1..]
  }

  ghost predicate IsLeastUsed(events: seq<Event>, ss: seq<Session>, id: string) {
    && Quiet(events, id) && LastUse(events, id).Some?
    && forall x :: x in ss && Quiet(events, x.id) ==>
         LastUse(events, x.id).Some? && LastUse(events, id).value <= LastUse(events, x.id).value
  }

  lemma LeastUsed(events: seq<Event>, limits: Limits, after: seq<Session>)
    requires ValidRun(START, events, limits)
    requires var s := Run(START, events, limits); EvictedOldest(s.table.sessions, after, s.listeners)
    ensures LeastUsedLeaves(events, Run(START, events, limits).table.sessions, after)
  {
    var s := Run(START, events, limits);
    var ss := s.table.sessions;
    forall x | x in ss
      ensures Free(x, s.listeners) <==> Quiet(events, x.id)
      ensures LastUse(events, x.id) == Some(x.lastSeen)
    {
      FreeIsQuiet(events, limits, x);
    }
    LeastSeenIsLeastUsed(events, ss, after, s.listeners);
  }

  lemma LeastSeenIsLeastUsed(events: seq<Event>, ss: seq<Session>, after: seq<Session>, listeners: map<nat, string>)
    requires forall x :: x in ss ==>
               (Free(x, listeners) <==> Quiet(events, x.id)) && LastUse(events, x.id) == Some(x.lastSeen)
    requires EvictedOldest(ss, after, listeners)
    ensures LeastUsedLeaves(events, ss, after)
  {
    hide LastUse, Quiet, Free;
    var i :| 0 <= i < |ss| && after == ss[..i] + ss[i + 1..] && Free(ss[i], listeners)
      && forall x :: x in ss && Free(x, listeners) ==> ss[i].lastSeen <= x.lastSeen;
    assert ss[i] in ss;
    assert IsLeastUsed(events, ss, ss[i].id);
  }

  /** A sweep after any run closes exactly the quiet sessions that were last used longer ago than allowed. */
  lemma SweepByHistory(events: seq<Event>, limits: Limits, now: int, x: Session)
    requires ValidRun(START, events, limits) && x in Run(START, events, limits).table.sessions
    ensures LastUse(events, x.id).Some?
    ensures x !in Next(Run(START, events, limits), Sweep(now), limits).table.sessions <==>
            Quiet(events, x.id) && now - LastUse(events, x.id).value > limits.idleMs
  {
    var s := Run(START, events, limits);
    StartKeeps(limits);
    RunKeeps(START, events, limits);
    SweepOutcome(s, now, limits, x);
    FreeIsQuiet(events, limits, x);
  }
}
