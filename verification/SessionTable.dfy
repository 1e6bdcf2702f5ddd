/** The MCP session table of `dash_mcp/src/http.ts`: slots claimed by concurrent initializes, eviction
    of the least recently seen idle session, and the idle sweep.

    Code between two awaits runs as one step, so every method of the server is atomic. */
module SessionTable {
  import opened Text

  /** An entry of the `sessions` map; the sequence of entries is the map in insertion order. */
  datatype Session = Session(id: string, lastSeen: int, openRequests: int)

  datatype Table = Table(sessions: seq<Session>, pending: int)

  predicate Idle(s: Session) {
    s.openRequests == 0
  }

  ghost predicate DistinctIds(ss: seq<Session>) {
    forall i, j :: 0 <= i < j < |ss| ==> ss[i].id != ss[j].id
  }

  predicate Has(ss: seq<Session>, id: string) {
    exists i :: 0 <= i < |ss| && ss[i].id == id
  }

  /** `filter` then `reduce`: the first idle session among those seen least recently. */
  function OldestIdle(ss: seq<Session>): (r: Option<Session>)
    ensures r.None? <==> forall i :: 0 <= i < |ss| ==> !Idle(ss[i])
    ensures r.Some? ==> r.value in ss && Idle(r.value)
    ensures r.Some? ==> forall i :: 0 <= i < |ss| && Idle(ss[i]) ==> r.value.lastSeen <= ss[i].lastSeen
    ensures r.Some? ==> exists k :: 0 <= k < |ss| && ss[k] == r.value
                          && forall i :: 0 <= i < k && Idle(ss[i]) ==> r.value.lastSeen < ss[i].lastSeen
  {
    if ss == [] then None
    else
      var s := ss[|ss| - 1];
      var best := OldestIdle(ss[..|ss| - 1]);
      assert forall i :: 0 <= i < |ss| - 1 ==> ss[..|ss| - 1][i] == ss[i];
      if Idle(s) && (best.None? || s.lastSeen < best.value.lastSeen) then Some(s) else best
  }

  function Without(ss: seq<Session>, id: string): (r: seq<Session>)
    ensures forall s :: s in r <==> s in ss && s.id != id
  {
    if ss == [] then []
    else if ss[0].id == id then Without(ss[1..], id)
    else [ss[0]] + Without(ss[1..], id)
  }

  /** The map after `change` has been applied to the session object stored under `id`, if any. */
  function Updated(ss: seq<Session>, id: string, change: Session -> Session): seq<Session> {
    seq(|ss|, i requires 0 <= i < |ss| => if ss[i].id == id then change(ss[i]) else ss[i])
  }

  function Seen(now: int, requests: int): Session -> Session {
    (s: Session) => Session(s.id, now, s.openRequests + requests)
  }

  // ----- one step of the table

  /** None is a refusal. */
  function Reserve(t: Table, max: int): Option<Table> {
    if |t.sessions| + t.pending < max then Some(t.(pending := t.pending + 1))
    else match OldestIdle(t.sessions)
         case None => None
         case Some(oldest) => Some(Table(Without(t.sessions, oldest.id), t.pending + 1))
  }

  predicate Expired(s: Session, now: int, idleMs: int) {
    Idle(s) && now - s.lastSeen > idleMs
  }

  function Swept(ss: seq<Session>, now: int, idleMs: int): (r: seq<Session>)
    ensures forall s :: s in r <==> s in ss && !Expired(s, now, idleMs)
  {
    if ss == [] then []
    else if Expired(ss[0], now, idleMs) then Swept(ss[1..], now, idleMs)
    else [ss[0]] + Swept(ss[1..], now, idleMs)
  }

  // ----- the server

  /** The closure returned by `reserveSession`; its flag makes the release idempotent. */
  class Reservation {
    var released: bool

    constructor ()
      ensures !released
    {
      released := false;
    }
  }

  class SwatHttpServer {
    const maxSessions: int
    const idleMs: int
    var sessions: seq<Session>
    var pendingSessions: int

    constructor (maxSessions: int, idleMs: int)
      ensures this.maxSessions == maxSessions && this.idleMs == idleMs
      ensures Contents() == Table([], 0)
    {
      this.maxSessions := maxSessions;
      this.idleMs := idleMs;
      sessions := [];
      pendingSessions := 0;
    }

    ghost function Contents(): Table
      reads this
    {
      Table(sessions, pendingSessions)
    }

    method ReserveSession() returns (reservation: Reservation?)
      modifies this
      ensures reservation != null ==> fresh(reservation) && !reservation.released
      ensures reservation == null <==> Reserve(old(Contents()), maxSessions).None?
      ensures Contents() == if reservation == null then old(Contents()) else Reserve(old(Contents()), maxSessions).value
    {
      if |sessions| + pendingSessions >= maxSessions {
        var oldest := OldestIdle(sessions);
        if oldest.None? {
          return null;
        }
        CloseSession(oldest.value.id);
      }
      pendingSessions := pendingSessions + 1;
      reservation := new Reservation();
    }

    method Release(reservation: Reservation)
      modifies this, reservation
      ensures reservation.released
      ensures Contents()
              == old(Contents()).(pending := old(pendingSessions) - if old(reservation.released) then 0 else 1)
    {
      if reservation.released {
        return;
      }
      reservation.released := true;
      pendingSessions := pendingSessions - 1;
    }

    method Track(id: string, now: int)
      modifies this
      ensures Contents() == Table(Updated(old(sessions), id, Seen(now, 1)), old(pendingSessions))
    {
      sessions := Updated(sessions, id, Seen(now, 1));
    }

    method ResponseClosed(id: string, now: int)
      modifies this
      ensures Contents() == Table(Updated(old(sessions), id, Seen(now, -1)), old(pendingSessions))
    {
      sessions := Updated(sessions, id, Seen(now, -1));
    }

    /** The `onsessioninitialized` callback. */
    method SessionInitialized(id: string, now: int, reservation: Reservation)
      modifies this, reservation
      ensures reservation.released
      ensures Contents() == Table(Updated(old(sessions) + [Session(id, now, 0)], id, Seen(now, 1)),
                                  old(pendingSessions) - if old(reservation.released) then 0 else 1)
    {
      sessions := sessions + [Session(id, now, 0)];
      Release(reservation);
      Track(id, now);
    }

    method CloseSession(id: string)
      modifies this
      ensures Contents() == Table(Without(old(sessions), id), old(pendingSessions))
    {
      sessions := Without(sessions, id);
    }

    /** Closes every expired session; the ids are collected before the first one is closed. */
    method SweepIdleSessions(now: int) returns (closed: nat)
      requires DistinctIds(sessions)
      modifies this
      ensures Contents() == Table(Swept(old(sessions), now, idleMs), old(pendingSessions))
      ensures closed == |old(sessions)| - |sessions|
    {
      var before := sessions;
      closed := 0;
      for i := 0 to |before|
        invariant before == old(sessions) && pendingSessions == old(pendingSessions)
        invariant sessions == Swept(before[..i], now, idleMs) + before[i..]
        invariant closed == |before| - |sessions|
      {
        SweepOne(before, i, now, idleMs);
        if Expired(before[i], now, idleMs) {
          CloseSession(before[i].id);
          closed := closed + 1;
        }
      }
      assert before[..|before|] == before && before[|before|..] == [];
    }

    /** `close` of the server, up to its first await. */
    method Close()
      modifies this
      ensures Contents() == Table([], old(pendingSessions))
    {
      var n := |sessions|;
      while |sessions| > 0
        invariant pendingSessions == old(pendingSessions)
        decreases |sessions|
      {
        WithoutShorter(sessions, sessions[0].id);
        CloseSession(sessions[0].id);
      }
    }
  }

  lemma {:induction false} SweptExtends(ss: seq<Session>, s: Session, now: int, idleMs: int)
    ensures Swept(ss + [s], now, idleMs) == Swept(ss, now, idleMs) + if Expired(s, now, idleMs) then [] else [s]
  {
    if ss != [] {
      SweptExtends(ss[1..], s, now, idleMs);
      var x := ss + [s];
      assert x[0] == ss[0] && x[1..] == ss[1..] + [s];
    }
  }

  /** Sweeping one more entry of the list that was current when the sweep began. */
  lemma SweepOne(before: seq<Session>, i: nat, now: int, idleMs: int)
    requires DistinctIds(before) && i < |before|
    ensures var current := Swept(before[..i], now, idleMs) + before[i..];
            var next := Swept(before[..i + 1], now, idleMs) + before[i + 1..];
            next == (if Expired(before[i], now, idleMs) then Without(current, before[i].id) else current)
            && |next| == |current| - if Expired(before[i], now, idleMs) then 1 else 0
  {
    hide Without, Swept;
    OthersDiffer(before, i);
    SweepMiddle(before[..i], before[i], before[i + 1..], now, idleMs);
    assert before[..i + 1] == before[..i] + [before[i]];
    assert before[i..] == [before[i]] + before[i + 1..];
  }

  lemma OthersDiffer(ss: seq<Session>, i: nat)
    requires DistinctIds(ss) && i < |ss|
    ensures forall x :: x in ss[..i] || x in ss[i + 1..] ==> x.id != ss[i].id
  {
  }

  lemma SweepMiddle(a: seq<Session>, s: Session, b: seq<Session>, now: int, idleMs: int)
    requires forall x :: x in a || x in b ==> x.id != s.id
    ensures var current, next := Swept(a, now, idleMs) + ([s] + b), Swept(a + [s], now, idleMs) + b;
            next == (if Expired(s, now, idleMs) then Without(current, s.id) else current)
            && |next| == |current| - if Expired(s, now, idleMs) then 1 else 0
  {
    hide Without, Swept;
    SweptExtends(a, s, now, idleMs);
    WithoutMiddle(Swept(a, now, idleMs), s, b);
    assert Swept(a, now, idleMs) + ([s] + b) == Swept(a, now, idleMs) + [s] + b;
    assert Swept(a, now, idleMs) + [] + b == Swept(a, now, idleMs) + b;
  }

  lemma {:induction false} WithoutAbsent(ss: seq<Session>, id: string)
    requires forall s :: s in ss ==> s.id != id
    ensures Without(ss, id) == ss
  {
    if ss != [] { WithoutAbsent(ss[1..], id); }
  }

  lemma {:induction false} WithoutShorter(ss: seq<Session>, id: string)
    ensures |Without(ss, id)| <= |ss|
    ensures Has(ss, id) ==> |Without(ss, id)| < |ss|
  {
    if ss != [] {
      WithoutShorter(ss[1..], id);
      if ss[0].id != id && Has(ss, id) {
        var i :| 0 <= i < |ss| && ss[i].id == id;
        assert ss[1..][i - 1].id == id;
      }
    }
  }

  lemma WithoutStep(ss: seq<Session>, id: string)
    ensures ss == [] ==> Without(ss, id) == []
    ensures ss != [] && ss[0].id == id ==> Without(ss, id) == Without(ss[1..], id)
    ensures ss != [] && ss[0].id != id ==> Without(ss, id) == [ss[0]] + Without(ss[1..], id)
  {
  }

  lemma {:induction false} WithoutSplit(a: seq<Session>, b: seq<Session>, id: string)
    ensures Without(a + b, id) == Without(a, id) + Without(b, id)
  {
    hide Without;
    WithoutStep(a, id);
    if a == [] {
      assert a + b == b;
    } else {
      assert (a + b)[1..] == a[1..] + b;
      WithoutStep(a + b, id);
      WithoutSplit(a[1..], b, id);
    }
  }

  lemma WithoutMiddle(a: seq<Session>, s: Session, b: seq<Session>)
    requires forall x :: x in a || x in b ==> x.id != s.id
    ensures Without(a + ([s] + b), s.id) == a + b
  {
    hide Without;
    WithoutSplit(a, [s] + b, s.id);
    WithoutSplit([s], b, s.id);
    WithoutAbsent(a, s.id);
    WithoutAbsent(b, s.id);
    WithoutItself(s);
  }

  lemma WithoutItself(s: Session)
    ensures Without([s], s.id) == []
  {
  }
}
