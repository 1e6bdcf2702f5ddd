/** The build, check, swap, prune and rollback protocol of `ingest/ingest.py` on the `kb` alias.

    Qdrant is a map of collections with one alias; every call to it may raise, and an upsert that
    raises may have stored part of its batch. */
module Ingest {
  import opened Text

  type Name = string
  type PointId = string

  /** `corpus` remembers which points the run that created a collection meant to store in it. */
  datatype State = State(collections: map<Name, set<PointId>>, alias: Option<Name>, corpus: map<Name, set<PointId>>)

  predicate IsKb(name: Name) {
    "kb_" <= name
  }

  lemma KbNames(name: Name)
    ensures IsKb(name) <==> exists rest: string :: name == "kb_" + rest
  {
    if IsKb(name) { assert name == "kb_" + name[3..]; }
  }

  ghost predicate Loaded(s: State, c: Name) {
    c in s.collections && c in s.corpus && s.collections[c] == s.corpus[c] != {}
  }

  ghost predicate AliasLoaded(s: State) {
    s.alias.Some? && Loaded(s, s.alias.value)
  }

  /** Every non-empty `kb_*` collection is fully loaded, so a rollback cannot pick a partial one. */
  ghost predicate NoPartial(s: State) {
    forall c :: c in s.collections && IsKb(c) && s.collections[c] != {} ==> Loaded(s, c)
  }

  // ----- what one ingest can do

  /** How an ingest ended.  `Refused` is a failed precondition and `RaisedEarly` a call that raised,
      both before the collection exists; `Cleaned` is a failed build whose collection was deleted,
      `CleanupRaised` one whose deletion raised too. */
  datatype IngestEnd =
    | Refused
    | RaisedEarly
    | IndexRaised
    | Cleaned
    | CleanupRaised(part: set<PointId>)
    | SwapRaised(applied: bool)
    | PruneRaised(dropped: set<Name>)
    | Completed

  /** Collections that the prune may delete: `kb_*` ones other than the new and the previous target. */
  function Prunable(pre: State, name: Name): set<Name> {
    set c | c in pre.collections && IsKb(c) && c != name && Some(c) != pre.alias
  }

  ghost predicate CanEnd(pre: State, name: Name, ids: set<PointId>, end: IngestEnd) {
    match end
    case Refused => true
    case RaisedEarly => true
    case IndexRaised => name !in pre.collections
    case Cleaned => name !in pre.collections
    case CleanupRaised(part) => name !in pre.collections && part <= ids
    case SwapRaised(_) => name !in pre.collections && ids != {}
    case PruneRaised(dropped) => name !in pre.collections && ids != {} && dropped <= Prunable(pre, name)
    case Completed => name !in pre.collections && ids != {}
  }

  function With(pre: State, name: Name, stored: set<PointId>, ids: set<PointId>): State {
    State(pre.collections[name := stored], pre.alias, pre.corpus[name := ids])
  }

  function After(pre: State, name: Name, ids: set<PointId>, end: IngestEnd): State {
    match end
    case Refused => pre
    case RaisedEarly => pre
    case Cleaned => pre
    case IndexRaised => With(pre, name, {}, ids)
    case CleanupRaised(part) => With(pre, name, part, ids)
    case SwapRaised(applied) =>
      var built := With(pre, name, ids, ids);
      if applied then built.(alias := Some(name)) else built
    case PruneRaised(dropped) =>
      var built := With(pre, name, ids, ids);
      built.(alias := Some(name), collections := built.collections - dropped)
    case Completed =>
      var built := With(pre, name, ids, ids);
      built.(alias := Some(name), collections := built.collections - Prunable(pre, name))
  }

  // ----- what one rollback can do

  predicate Candidate(s: State, c: Name) {
    c in s.collections && IsKb(c) && Some(c) != s.alias && s.collections[c] != {}
  }

  ghost predicate IsNewest(s: State, c: Name) {
    Candidate(s, c) && forall d :: Candidate(s, d) ==> !LexLess(c, d)
  }

  datatype RollbackEnd = NoCandidate | RollbackRaised | Moved(target: Name, raised: bool)

  ghost predicate CanRollBack(pre: State, end: RollbackEnd) {
    match end
    case NoCandidate => forall c :: !Candidate(pre, c)
    case RollbackRaised => true
    case Moved(target, _) => IsNewest(pre, target)
  }

  function AfterRollback(pre: State, end: RollbackEnd): State {
    if end.Moved? then pre.(alias := Some(end.target)) else pre
  }

  // ----- the script

  datatype Point = Point(id: PointId, text: string)

  function Ids(points: seq<Point>): set<PointId> {
    set p | p in points :: p.id
  }

  /** The inputs of a run: what parsing the corpus and the embedding service gave. */
  datatype Job = Job(name: Name, points: seq<Point>, vectors: nat, missingDirs: bool, emptyGroup: bool,
                     teiHealthy: bool, smokeFinds: bool, force: bool, minPoints: int, minRatio: real, batchSize: int)

  /** The number of points behind the alias. */
  function Served(s: State): nat {
    if s.alias.Some? && s.alias.value in s.collections then |s.collections[s.alias.value]| else 0
  }

  /** What makes an ingest refuse: a missing directory or group, too few points, points that are under
      the allowed share of the served ones unless forced, or an unhealthy embedding service. */
  predicate MustRefuse(job: Job, s: State) {
    || job.missingDirs || job.emptyGroup || !job.teiHealthy
    || |job.points| < job.minPoints
    || (!job.force && Served(s) > 0 && |job.points| as real < job.minRatio * Served(s) as real)
  }

  class Qdrant {
    /** Whether the `k`-th call of the script to another system raises. */
    const raises: nat -> bool
    var collections: map<Name, set<PointId>>
    var alias: Option<Name>
    ghost var corpus: map<Name, set<PointId>>
    var calls: nat

    constructor (raises: nat -> bool)
      ensures Now() == State(map[], None, map[]) && this.raises == raises && calls == 0
    {
      this.raises := raises;
      collections := map[];
      alias := None;
      corpus := map[];
      calls := 0;
    }

    ghost predicate RaisedSince(first: nat)
      reads this
    {
      exists k :: first <= k < calls && raises(k)
    }

    method Call() returns (ok: bool)
      modifies this`calls
      ensures calls == old(calls) + 1 && ok == !raises(old(calls))
    {
      ok := !raises(calls);
      calls := calls + 1;
    }

    ghost function Now(): State
      reads this
    {
      State(collections, alias, corpus)
    }

    method CreateCollection(name: Name, ghost ids: set<PointId>) returns (ok: bool)
      modifies this
      ensures ok ==> name !in old(collections) && Now() == With(old(Now()), name, {}, ids)
      ensures !ok ==> Now() == old(Now())
      ensures calls == old(calls) + 1 && (ok <==> !raises(old(calls)) && name !in old(collections))
    {
      ok := Call();
      if name in collections {
        ok := false;
      }
      if ok {
        collections := collections[name := {}];
        corpus := corpus[name := ids];
      }
    }

    /** On failure any part of the batch may have been stored. */
    method Upsert(name: Name, batch: set<PointId>) returns (ok: bool)
      requires name in collections
      modifies this`collections, this`calls
      ensures calls == old(calls) + 1 && ok == !raises(old(calls))
      ensures collections.Keys == old(collections).Keys
      ensures forall c :: c in collections && c != name ==> collections[c] == old(collections)[c]
      ensures old(collections)[name] <= collections[name] <= old(collections)[name] + batch
      ensures ok ==> collections[name] == old(collections)[name] + batch
    {
      ok := Call();
      var stored := batch;
      if !ok {
        stored := *;
        stored := stored * batch;
      }
      collections := collections[name := collections[name] + stored];
    }

    method DeleteCollection(name: Name) returns (ok: bool)
      modifies this`collections, this`calls
      ensures calls == old(calls) + 1 && ok == !raises(old(calls))
      ensures collections == if ok then old(collections) - {name} else old(collections)
    {
      ok := Call();
      if ok {
        collections := collections - {name};
      }
    }

    /** `swap_alias`: the change is atomic, but the call may raise before or after it took effect. */
    method SwapAlias(name: Name) returns (ok: bool)
      modifies this`alias, this`calls
      ensures calls == old(calls) + 1 && ok == !raises(old(calls))
      ensures alias == old(alias) || alias == Some(name)
      ensures ok ==> alias == Some(name)
    {
      ok := Call();
      var applied: bool := *;
      if ok || applied {
        alias := Some(name);
      }
    }

    /** `get_collections`, in any order. */
    method GetCollections() returns (ok: bool, names: seq<Name>)
      modifies this`calls
      ensures calls == old(calls) + 1 && ok == !raises(old(calls))
      ensures forall c :: c in names <==> c in collections
    {
      ok := Call();
      names := [];
      var rest := collections.Keys;
      while rest != {}
        invariant forall c :: c in collections <==> c in names || c in rest
        decreases rest
      {
        var c :| c in rest;
        names := names + [c];
        rest := rest - {c};
      }
    }

    /** `upsert_all`: batches of points paired with as many vectors. */
    method UpsertAll(name: Name, points: seq<Point>, vectors: nat, batchSize: int) returns (ok: bool)
      requires name in collections && collections[name] == {}
      modifies this`collections, this`calls
      ensures old(calls) <= calls
      ensures !ok ==> RaisedSince(old(calls)) || batchSize == 0 || vectors != |points|
      ensures batchSize == 0 ==> !ok
      ensures ok ==> !RaisedSince(old(calls))
      ensures collections.Keys == old(collections).Keys
      ensures forall c :: c in collections && c != name ==> collections[c] == old(collections)[c]
      ensures collections[name] <= Ids(points)
      ensures ok && batchSize > 0 ==> collections[name] == Ids(points)
    {
      if batchSize == 0 {
        return false;
      }
      var start := 0;
      while 0 < batchSize && start < |points|
        invariant 0 <= start && (start <= |points| || batchSize > 0)
        invariant old(calls) <= calls && !RaisedSince(old(calls))
        invariant collections.Keys == old(collections).Keys
        invariant forall c :: c in collections && c != name ==> collections[c] == old(collections)[c]
        invariant collections[name] == Ids(points[..Min(start, |points|)])
        decreases |points| - start
      {
        var end := Min(start + batchSize, |points|);
        var batch := points[start..end];
        IdsSplit(points, start, end);
        if Min(vectors, start + batchSize) - Min(vectors, start) != |batch| {
          return false;
        }
        ok := Upsert(name, Ids(batch));
        if !ok {
          return;
        }
        start := start + batchSize;
      }
      assert points[..|points|] == points;
      ok := true;
    }

    /** `check_new_collection`; a smoke query on an empty collection finds nothing. */
    method CheckNewCollection(name: Name, expected: nat, smokeFinds: bool) returns (ok: bool, healthy: bool)
      requires name in collections
      modifies this`calls
      ensures old(calls) <= calls && (ok <==> !RaisedSince(old(calls)))
      ensures ok ==> (healthy <==> |collections[name]| == expected && collections[name] != {} && smokeFinds)
      ensures calls == old(calls) + if raises(old(calls)) || |collections[name]| != expected then 1 else 2
    {
      healthy := false;
      ok := Call();
      if !ok || |collections[name]| != expected {
        return;
      }
      ok := Call();
      healthy := smokeFinds && collections[name] != {};
    }

    /** `fill_and_check`: a collection that passes holds exactly the points. */
    method FillAndCheck(name: Name, points: seq<Point>, vectors: nat, batchSize: int, smokeFinds: bool)
      returns (ok: bool, healthy: bool)
      requires name in collections && collections[name] == {}
      modifies this`collections, this`calls
      ensures old(calls) <= calls
      ensures ok ==> !RaisedSince(old(calls))
      ensures points != [] && vectors == |points| && batchSize > 0 && smokeFinds ==>
                (ok <==> !RaisedSince(old(calls))) && (ok ==> healthy)
      ensures collections.Keys == old(collections).Keys
      ensures forall c :: c in collections && c != name ==> collections[c] == old(collections)[c]
      ensures collections[name] <= Ids(points)
      ensures ok && healthy ==> collections[name] == Ids(points) != {}
    {
      healthy := false;
      ok := UpsertAll(name, points, vectors, batchSize);
      if ok {
        ok, healthy := CheckNewCollection(name, |Ids(points)|, smokeFinds);
        if points != [] { assert points[0].id in Ids(points); }
        if ok && healthy { SubsetOfEqualSize(collections[name], Ids(points)); }
      }
    }

    /** `drop_old_collections`: stops at the first call that raises. */
    method DropOldCollections(name: Name, previous: Option<Name>) returns (ok: bool, ghost dropped: set<Name>)
      modifies this`collections, this`calls
      ensures old(calls) <= calls && (ok <==> !RaisedSince(old(calls)))
      ensures collections == old(collections) - dropped
      ensures forall c :: c in dropped ==> c in old(collections) && IsKb(c) && c != name && Some(c) != previous
      ensures ok ==> forall c :: c in collections && IsKb(c) ==> c == name || Some(c) == previous
    {
      var names;
      dropped := {};
      ok, names := GetCollections();
      if !ok {
        return;
      }
      for i := 0 to |names|
        invariant old(calls) <= calls && !RaisedSince(old(calls))
        invariant collections == old(collections) - dropped
        invariant forall c :: c in dropped ==> c in old(collections) && IsKb(c) && c != name && Some(c) != previous
        invariant forall k :: 0 <= k < i && names[k] in collections && IsKb(names[k]) ==>
                    names[k] == name || Some(names[k]) == previous
        invariant forall c :: c in old(collections) ==> c in names
      {
        if IsKb(names[i]) && names[i] != name && Some(names[i]) != previous {
          ok := DeleteCollection(names[i]);
          if !ok {
            return;
          }
          dropped := dropped + {names[i]};
          assert names[i] in names;
        }
      }
      ok := true;
    }

    /** The part of `ingest` before the collection is created. */
    method Prepare(job: Job) returns (ok: bool, previous: Option<Name>, ghost end: IngestEnd)
      requires alias.Some? ==> alias.value in collections
      modifies this`calls
      ensures old(calls) <= calls && previous == alias
      ensures ok ==> !MustRefuse(job, Now()) && !RaisedSince(old(calls))
      ensures !ok ==> end.Refused? || end.RaisedEarly?
      ensures !ok && end.Refused? ==> MustRefuse(job, Now())
      ensures !ok && end.RaisedEarly? ==> RaisedSince(old(calls))
      ensures ok ==> calls == old(calls) + if alias.Some? then 4 else 3
    {
      previous, end := alias, Refused;
      if job.missingDirs {
        return false, previous, Refused;
      }
      ok := Call();
      if !ok {
        return false, previous, RaisedEarly;
      }
      var currentCount := 0;
      if previous.Some? {
        ok := Call();
        if !ok {
          return false, previous, RaisedEarly;
        }
        currentCount := |collections[previous.value]|;
      }
      var shrinks := currentCount != 0 && |job.points| as real < job.minRatio * currentCount as real;
      if job.emptyGroup || |job.points| < job.minPoints || (shrinks && !job.force) {
        return false, previous, Refused;
      }
      ok := Call();
      if !ok {
        return false, previous, RaisedEarly;
      }
      if !job.teiHealthy {
        return false, previous, Refused;
      }
      ok := Call();
      if !ok {
        return false, previous, RaisedEarly;
      }
    }

    /** Deletes the collection of a failed build. */
    method Discard(name: Name, ghost pre: State, ghost ids: set<PointId>) returns (ghost end: IngestEnd)
      requires name in collections && name !in pre.collections && collections[name] <= ids
      requires Now() == With(pre, name, collections[name], ids)
      modifies this
      ensures calls == old(calls) + 1
      ensures end == if raises(old(calls)) then CleanupRaised(old(collections)[name]) else Cleaned
      ensures CanEnd(pre, name, ids, end) && Now() == After(pre, name, ids, end)
    {
      ghost var part := collections[name];
      var deleted := DeleteCollection(name);
      if deleted {
        corpus := pre.corpus;
        assert collections == pre.collections;
      }
      end := if deleted then Cleaned else CleanupRaised(part);
    }

    /** The part of `ingest` from the creation of the collection to the end of the checks. */
    method Build(job: Job) returns (built: bool, ghost end: IngestEnd)
      modifies this
      ensures old(calls) < calls
      ensures built ==> job.name !in old(collections) && Ids(job.points) != {} && !RaisedSince(old(calls))
      ensures built ==> Now() == With(old(Now()), job.name, Ids(job.points), Ids(job.points))
      ensures !built ==> CanEnd(old(Now()), job.name, Ids(job.points), end)
                         && Now() == After(old(Now()), job.name, Ids(job.points), end)
      ensures !built ==> end.RaisedEarly? || end.IndexRaised? || end.Cleaned? || end.CleanupRaised?
      ensures (&& !RaisedSince(old(calls)) && job.points != [] && job.vectors == |job.points|
               && job.batchSize > 0 && job.name !in old(collections) && job.smokeFinds) ==> built
      ensures !built && end.CleanupRaised? ==> RaisedSince(old(calls))
      ensures !built ==> (end.RaisedEarly? <==> raises(old(calls)) || job.name in old(collections))
      ensures !built ==>
                (end.IndexRaised? <==>
                  !raises(old(calls)) && job.name !in old(collections) && raises(old(calls) + 1))
    {
      hide Ids, IsKb;
      ghost var pre, ids := Now(), Ids(job.points);
      var ok := CreateCollection(job.name, ids);
      if !ok {
        return false, RaisedEarly;
      }
      ok := Call();
      if !ok {
        return false, IndexRaised;
      }
      var healthy;
      ok, healthy := FillAndCheck(job.name, job.points, job.vectors, job.batchSize, job.smokeFinds);
      assert Now() == With(pre, job.name, collections[job.name], ids);
      if !ok || !healthy {
        end := Discard(job.name, pre, ids);
        return false, end;
      }
      built, end := true, Completed;
    }

    /** The part of `ingest` after the checks: swap, then prune. */
    method Publish(name: Name, previous: Option<Name>) returns (done: bool, ghost end: IngestEnd)
      requires name in collections && previous == alias
      modifies this`alias, this`collections, this`calls
      ensures old(calls) <= calls && (done <==> !RaisedSince(old(calls)))
      ensures done <==> end == Completed
      ensures end.SwapRaised? || end.PruneRaised? || end.Completed?
      ensures end.SwapRaised? ==>
                Now() == old(Now()).(alias := if end.applied then Some(name) else old(alias))
      ensures end.PruneRaised? ==>
                end.dropped <= Prunable(old(Now()), name)
                && Now() == old(Now()).(alias := Some(name), collections := old(collections) - end.dropped)
      ensures end.Completed? ==>
                Now() == old(Now()).(alias := Some(name), collections := old(collections) - Prunable(old(Now()), name))
    {
      ghost var pre := Now();
      var ok := SwapAlias(name);
      if !ok {
        return false, SwapRaised(alias == Some(name));
      }
      ghost var dropped;
      ok, dropped := DropOldCollections(name, previous);
      if !ok {
        return false, PruneRaised(dropped);
      }
      assert pre.collections - dropped == pre.collections - Prunable(pre, name);
      return true, Completed;
    }

    method Ingest(job: Job) returns (done: bool, ghost end: IngestEnd)
      requires alias.Some? ==> alias.value in collections
      modifies this
      ensures CanEnd(old(Now()), job.name, Ids(job.points), end)
      ensures Now() == After(old(Now()), job.name, Ids(job.points), end)
      ensures done <==> end == Completed
      ensures old(calls) <= calls
      ensures end.Refused? ==> MustRefuse(job, old(Now()))
      ensures MustRefuse(job, old(Now())) ==> end.Refused? || end.RaisedEarly?
      ensures (&& !end.Refused? && !RaisedSince(old(calls)) && job.points != [] && job.vectors == |job.points|
               && job.batchSize > 0 && job.name !in old(collections) && job.smokeFinds) ==> done
      ensures end.SwapRaised? || end.PruneRaised? || end.CleanupRaised? ==> RaisedSince(old(calls))
      ensures end.RaisedEarly? ==> RaisedSince(old(calls)) || job.name in old(collections)
      ensures done && IsKb(job.name) ==> KeepsTwo(old(Now()), Now(), job.name)
    {
      hide KeepsTwo, Ids, MustRefuse, IsKb;
      ghost var pre, ids := Now(), Ids(job.points);
      var ok, previous;
      ok, previous, end := Prepare(job);
      if !ok {
        return false, end;
      }
      ok, end := Build(job);
      if !ok {
        return false, end;
      }
      SamePrunable(pre, job.name, ids);
      done, end := Publish(job.name, previous);
      if done && IsKb(job.name) { SuccessKeepsTwo(pre, job.name, ids); }
    }

    method Rollback() returns (done: bool, ghost end: RollbackEnd)
      modifies this`alias, this`calls
      ensures old(calls) <= calls && (end.RollbackRaised? || (end.Moved? && end.raised) <==> RaisedSince(old(calls)))
      ensures CanRollBack(old(Now()), end)
      ensures Now() == AfterRollback(old(Now()), end)
      ensures done <==> end.Moved? && !end.raised
    {
      var current := alias;
      var ok := Call();
      if !ok {
        return false, RollbackRaised;
      }
      var names;
      ok, names := GetCollections();
      if !ok {
        return false, RollbackRaised;
      }
      var newest: Option<Name> := None;
      for i := 0 to |names|
        invariant Now() == old(Now())
        invariant old(calls) <= calls && !RaisedSince(old(calls))
        invariant newest.None? ==> forall k :: 0 <= k < i ==> !Candidate(Now(), names[k])
        invariant newest.Some? ==> Candidate(Now(), newest.value)
        invariant newest.Some? ==>
                    forall k :: 0 <= k < i && Candidate(Now(), names[k]) ==> !LexLess(newest.value, names[k])
      {
        if IsKb(names[i]) && Some(names[i]) != current {
          var counted := Call();
          if !counted {
            return false, RollbackRaised;
          }
          assert names[i] in names;
          if |collections[names[i]]| > 0 {
            NewestExtends(Now(), newest, names, i);
            if newest.None? || LexLess(newest.value, names[i]) {
              newest := Some(names[i]);
            }
          }
        }
      }
      assert forall c :: Candidate(Now(), c) ==> c in names;
      if newest.None? {
        return false, NoCandidate;
      }
      ok := SwapAlias(newest.value);
      if alias != Some(newest.value) {
        return false, RollbackRaised;
      }
      return ok, Moved(newest.value, !ok);
    }
  }

  lemma SamePrunable(pre: State, name: Name, ids: set<PointId>)
    ensures Prunable(With(pre, name, ids, ids), name) == Prunable(pre, name)
  {
  }

  function Min(a: int, b: int): int {
    if a < b then a else b
  }

  lemma IdsSplit(points: seq<Point>, start: nat, end: nat)
    requires start <= end <= |points|
    ensures Ids(points[..end]) == Ids(points[..start]) + Ids(points[start..end])
  {
    assert points[..end] == points[..start] + points[start..end];
  }

  lemma SubsetOfEqualSize<T>(a: set<T>, b: set<T>)
    requires a <= b && |a| == |b|
    ensures a == b
  {
    assert b == a + (b - a);
    assert |b| == |a| + |b - a|;
  }

  lemma NewestExtends(s: State, newest: Option<Name>, names: seq<Name>, i: nat)
    requires i < |names|
    requires newest.Some? ==> forall k :: 0 <= k < i && Candidate(s, names[k]) ==> !LexLess(newest.value, names[k])
    ensures newest.Some? && LexLess(newest.value, names[i]) ==>
              forall k :: 0 <= k <= i && Candidate(s, names[k]) ==> !LexLess(names[i], names[k])
    ensures !LexLess(names[i], names[i])
  {
    LexTrichotomy(names[i], names[i]);
    if newest.Some? && LexLess(newest.value, names[i]) {
      forall k | 0 <= k <= i && Candidate(s, names[k]) ensures !LexLess(names[i], names[k]) {
        if k < i && LexLess(names[i], names[k]) { LexTransitive(newest.value, names[i], names[k]); }
      }
    }
  }

  // ----- runs

  datatype Step =
    | IngestStep(name: Name, ids: set<PointId>, ingestEnd: IngestEnd)
    | RollbackStep(rollbackEnd: RollbackEnd)

  ghost predicate Enabled(s: State, step: Step) {
    match step
    case IngestStep(name, ids, end) => IsKb(name) && CanEnd(s, name, ids, end)
    case RollbackStep(end) => CanRollBack(s, end)
  }

  function Next(s: State, step: Step): State {
    match step
    case IngestStep(name, ids, end) => After(s, name, ids, end)
    case RollbackStep(end) => AfterRollback(s, end)
  }

  /** A build that failed part of the way and whose collection could not be deleted either. */
  predicate LeavesPartial(step: Step) {
    step.IngestStep? && step.ingestEnd.CleanupRaised?
    && step.ingestEnd.part != {} && step.ingestEnd.part != step.ids
  }

  ghost predicate ValidRun(s: State, steps: seq<Step>)
    decreases |steps|
  {
    steps == [] || (Enabled(s, steps[0]) && ValidRun(Next(s, steps[0]), steps[1..]))
  }

  function Run(s: State, steps: seq<Step>): State
    decreases |steps|
  {
    if steps == [] then s else Run(Next(s, steps[0]), steps[1..])
  }

  ghost predicate AliasSafe(s: State) {
    s.alias.Some? ==> Loaded(s, s.alias.value)
  }

  /** An ingest leaves the other collections as they are, apart from deleting some. */
  lemma IngestFrame(s: State, step: Step, c: Name)
    requires step.IngestStep? && Enabled(s, step) && c != step.name
    ensures Loaded(Next(s, step), c) ==> Loaded(s, c)
    ensures c in Next(s, step).collections ==>
              c in s.collections && Next(s, step).collections[c] == s.collections[c]
              && (Loaded(s, c) ==> Loaded(Next(s, step), c))
  {
  }

  /** The collection of an ingest is complete whenever it is there and not empty, unless it was left half built. */
  lemma IngestOwn(s: State, step: Step)
    requires step.IngestStep? && NoPartial(s) && Enabled(s, step)
    ensures var c, next := step.name, Next(s, step);
            if LeavesPartial(step) then c in next.collections && next.collections[c] != {} && !Loaded(next, c)
            else c in next.collections && next.collections[c] != {} ==> Loaded(next, c)
  {
  }

  lemma IngestAlias(s: State, step: Step)
    requires step.IngestStep? && AliasSafe(s) && Enabled(s, step)
    ensures AliasSafe(Next(s, step))
    ensures s.alias.Some? ==> Next(s, step).alias.Some?
  {
  }

  /** A step keeps every non-empty `kb_*` collection complete exactly when it does not leave a partial one behind. */
  lemma PartialOnlyByFailedCleanup(s: State, step: Step)
    requires NoPartial(s) && AliasSafe(s) && Enabled(s, step)
    ensures NoPartial(Next(s, step)) <==> !LeavesPartial(step)
    ensures AliasSafe(Next(s, step))
    ensures s.alias.Some? ==> Next(s, step).alias.Some?
  {
    if step.IngestStep? {
      IngestOwn(s, step);
      IngestAlias(s, step);
      hide Next, Loaded, LeavesPartial;
      forall c: Name | c != step.name { IngestFrame(s, step, c); }
      assert IsKb(step.name);
    }
  }

  /** In every run of ingests and rollbacks, raising anywhere, in which no cleanup failed half-way:
      an alias that targets a fully loaded, non-empty collection always targets one. */
  lemma {:induction false} AliasAlwaysLoaded(s: State, steps: seq<Step>)
    requires NoPartial(s) && AliasSafe(s) && ValidRun(s, steps)
    requires forall i :: 0 <= i < |steps| ==> !LeavesPartial(steps[i])
    ensures NoPartial(Run(s, steps)) && AliasSafe(Run(s, steps))
    ensures AliasLoaded(s) ==> AliasLoaded(Run(s, steps))
    decreases |steps|
  {
    if steps != [] {
      PartialOnlyByFailedCleanup(s, steps[0]);
      AliasAlwaysLoaded(Next(s, steps[0]), steps[1..]);
    }
  }

  /** From an empty Qdrant there is nothing to assume. */
  lemma AliasLoadedFromStart(steps: seq<Step>)
    requires ValidRun(State(map[], None, map[]), steps)
    requires forall i :: 0 <= i < |steps| ==> !LeavesPartial(steps[i])
    ensures var s := Run(State(map[], None, map[]), steps); s.alias.Some? ==> AliasLoaded(s)
  {
    AliasAlwaysLoaded(State(map[], None, map[]), steps);
  }

  // ----- when a rollback is safe

  /** However a rollback of this state ends, the alias targets a fully loaded collection if it is set. */
  ghost predicate RollbackSafe(s: State) {
    forall end :: CanRollBack(s, end) ==> AliasSafe(AfterRollback(s, end))
  }

  /** No candidate for a rollback has a greater name, as when names are the times of the runs. */
  ghost predicate NewestName(s: State, name: Name) {
    forall c :: Candidate(s, c) ==> !LexLess(name, c)
  }

  lemma LoadedIsSafe(s: State)
    requires NoPartial(s) && AliasSafe(s)
    ensures RollbackSafe(s)
  {
  }

  /** After an ingest step a rollback is safe if and only if the step did not fail half-way with a
      failed cleanup, or a newer candidate was already there. */
  lemma RollbackSafeExactly(s: State, step: Step)
    requires NoPartial(s) && AliasSafe(s) && Enabled(s, step) && step.IngestStep?
    ensures RollbackSafe(Next(s, step)) <==> !(LeavesPartial(step) && NewestName(s, step.name))
  {
    var next, name := Next(s, step), step.name;
    PartialOnlyByFailedCleanup(s, step);
    if !LeavesPartial(step) {
      LoadedIsSafe(next);
    } else {
      assert next == With(s, name, step.ingestEnd.part, step.ids);
      PartialTarget(s, name, step.ingestEnd.part, step.ids);
    }
  }

  lemma PartialTarget(s: State, name: Name, part: set<PointId>, ids: set<PointId>)
    requires NoPartial(s) && AliasSafe(s) && IsKb(name) && name !in s.collections && part != {} && part != ids
    ensures RollbackSafe(With(s, name, part, ids)) <==> !NewestName(s, name)
  {
    hide LexLess, IsKb;
    var next := With(s, name, part, ids);
    assert forall c :: Candidate(next, c) <==> c == name || Candidate(s, c);
    LexTrichotomy(name, name);
    assert !Loaded(next, name);
    if NewestName(s, name) {
      assert CanRollBack(next, Moved(name, false));
      assert !AliasSafe(AfterRollback(next, Moved(name, false)));
    } else {
      var d :| Candidate(s, d) && LexLess(name, d);
      forall end | CanRollBack(next, end) ensures AliasSafe(AfterRollback(next, end)) {
        if end.Moved? { assert end.target != name && Loaded(s, end.target); }
      }
    }
  }

  /** Every ingest of the run has a newer name than the candidates that are there when it begins. */
  ghost predicate InTimeOrder(s: State, steps: seq<Step>)
    decreases |steps|
  {
    steps == []
    || ((steps[0].IngestStep? ==> NewestName(s, steps[0].name)) && InTimeOrder(Next(s, steps[0]), steps[1..]))
  }

  /** A rollback is safe before the run, after it, and between any two of its steps. */
  ghost predicate SafeThroughout(s: State, steps: seq<Step>)
    decreases |steps|
  {
    RollbackSafe(s) && (steps != [] ==> SafeThroughout(Next(s, steps[0]), steps[1..]))
  }

  /** In every run of ingests and rollbacks whose names are in the order of time, a rollback is safe at
      every point if and only if no ingest failed half-way with a failed cleanup. */
  lemma {:induction false} SafeThroughoutExactly(s: State, steps: seq<Step>)
    requires NoPartial(s) && AliasSafe(s) && ValidRun(s, steps) && InTimeOrder(s, steps)
    ensures SafeThroughout(s, steps) <==> forall i :: 0 <= i < |steps| ==> !LeavesPartial(steps[i])
    decreases |steps|
  {
    hide NoPartial, AliasSafe, RollbackSafe, LeavesPartial, NewestName, Next, Enabled;
    LoadedIsSafe(s);
    if steps != [] {
      var rest := steps[1..];
      PartialOnlyByFailedCleanup(s, steps[0]);
      if LeavesPartial(steps[0]) {
        OnlyIngestsLeave(steps[0]);
        RollbackSafeExactly(s, steps[0]);
      } else {
        SafeThroughoutExactly(Next(s, steps[0]), rest);
        assert forall i :: 0 < i < |steps| ==> steps[i] == rest[i - 1];
        assert forall i :: 0 <= i < |rest| ==> rest[i] == steps[i + 1];
      }
    }
  }

  lemma OnlyIngestsLeave(step: Step)
    requires LeavesPartial(step)
    ensures step.IngestStep?
  {
  }

  /** Without that proviso it fails: a partial collection with the newest name is what a rollback picks. */
  lemma PartialCanBeServed()
    ensures exists s, steps :: NoPartial(s) && AliasLoaded(s) && ValidRun(s, steps) && !AliasSafe(Run(s, steps))
  {
    var s := State(map["kb_1" := {"a"}], Some("kb_1"), map["kb_1" := {"a"}]);
    var build := IngestStep("kb_2", {"a", "b"}, CleanupRaised({"b"}));
    var back := RollbackStep(Moved("kb_2", false));
    var middle := Next(s, build);
    assert middle.collections == map["kb_1" := {"a"}, "kb_2" := {"b"}];
    assert "kb_2"[2] == '_' && "kb_2"[3] == '2';
    assert Candidate(middle, "kb_2") && forall d :: Candidate(middle, d) ==> d == "kb_2";
    LexTrichotomy("kb_2", "kb_2");
    assert Enabled(s, build) && Enabled(middle, back);
    var steps := [build, back];
    assert steps[1..] == [back] && steps[1..][1..] == [];
    assert ValidRun(middle, [back]);
    assert ValidRun(s, steps);
    assert Run(s, steps) == Next(middle, back) by {
      assert Run(middle, [back]) == Run(Next(middle, back), [back][1..]);
      assert Run(Next(middle, back), []) == Next(middle, back);
    }
    assert "b" in {"a", "b"} && {"b"} != {"a", "b"} by { assert "a" in {"a", "b"}; }
  }

  /** An ingest that does not get as far as the swap changes neither the alias nor any collection that was there. */
  lemma FailedBuildChangesNothing(s: State, name: Name, ids: set<PointId>, end: IngestEnd)
    requires CanEnd(s, name, ids, end)
    requires end.Refused? || end.RaisedEarly? || end.IndexRaised? || end.Cleaned? || end.CleanupRaised?
    ensures var next := After(s, name, ids, end);
            && next.alias == s.alias
            && (forall c :: c in s.collections ==> c in next.collections && next.collections[c] == s.collections[c])
            && (forall c :: c in next.collections ==> c in s.collections || c == name)
            && (end.Refused? || end.RaisedEarly? || end.Cleaned? ==> next == s)
  {
  }

  /** After a successful ingest the alias targets the new, complete collection, and the only `kb_*`
      collections are that one and the previous target. */
  lemma SuccessKeepsTwo(s: State, name: Name, ids: set<PointId>)
    requires IsKb(name) && CanEnd(s, name, ids, Completed)
    ensures KeepsTwo(s, After(s, name, ids, Completed), name)
  {
  }

  ghost predicate KeepsTwo(s: State, next: State, name: Name) {
    && next.alias == Some(name) && Loaded(next, name)
    && (forall c :: c in next.collections && IsKb(c) <==>
          c == name || (c in s.collections && IsKb(c) && Some(c) == s.alias))
    && (forall c :: c in s.collections && (!IsKb(c) || Some(c) == s.alias) ==>
          c in next.collections && next.collections[c] == s.collections[c])
  }

  /** Two rollbacks that complete right after a successful ingest restore the alias; the first one
      serves the previous target again exactly when that is a non-empty `kb_*` collection. */
  lemma TwoRollbacks(s: State, name: Name, ids: set<PointId>, first: RollbackEnd, second: RollbackEnd)
    requires IsKb(name) && CanEnd(s, name, ids, Completed)
    requires s.alias.Some? ==> s.alias.value in s.collections
    requires first.NoCandidate? || first.Moved?
    requires second.NoCandidate? || second.Moved?
    requires CanRollBack(After(s, name, ids, Completed), first)
    requires CanRollBack(AfterRollback(After(s, name, ids, Completed), first), second)
    ensures var built := After(s, name, ids, Completed);
            var back := AfterRollback(built, first);
            && AfterRollback(back, second).alias == Some(name)
            && (back.alias == s.alias <==>
                  s.alias.Some? && IsKb(s.alias.value) && s.collections[s.alias.value] != {})
  {
    var built := After(s, name, ids, Completed);
    var back := AfterRollback(built, first);
    SuccessKeepsTwo(s, name, ids);
    assert forall c :: Candidate(built, c) ==> Some(c) == s.alias;
    if s.alias.Some? && IsKb(s.alias.value) && s.collections[s.alias.value] != {} {
      assert Candidate(built, s.alias.value);
      assert Candidate(back, name);
      assert forall c :: Candidate(back, c) ==> c == name;
    }
  }
}
