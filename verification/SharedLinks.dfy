/** The permission migration of `config/migrate-shared-link-permissions.js`: grants are upserted in
    batches that may fail in part, then the legacy `isPublic` field is removed.  A run may stop at any point. */
module SharedLinks {
  import opened Text

  type LinkId = string
  type UserId = string

  /** The raw value of `isPublic`; `Other` is anything that is neither true nor false nor undefined. */
  datatype Visibility = Undefined | True | False | Other

  datatype Link = Link(user: Option<UserId>, isPublic: Visibility)

  datatype Grant = Owner(link: LinkId, user: UserId) | PublicViewer(link: LinkId)

  type Links = map<LinkId, Link>

  datatype Store = Store(links: Links, acl: set<Grant>)

  function OwnerOps(id: LinkId, link: Link): seq<Grant> {
    if link.user.Some? then [Owner(id, link.user.value)] else []
  }

  function PublicOps(id: LinkId, link: Link): seq<Grant> {
    if link.isPublic == Undefined || link.isPublic == False then [] else [PublicViewer(id)]
  }

  /** The grants that a link calls for. */
  ghost predicate Wanted(links: Links, g: Grant) {
    g.link in links && g in OwnerOps(g.link, links[g.link]) + PublicOps(g.link, links[g.link])
  }

  ghost predicate Granted(links: Links, acl: set<Grant>, id: LinkId) {
    forall g: Grant :: g.link == id && Wanted(links, g) ==> g in acl
  }

  // ----- what one run can do

  datatype RunEnd =
    | DryRun
    | Aborted
    | Crashed
    | Finished(failed: set<LinkId>)

  predicate HasFalse(links: Links) {
    exists id :: id in links && links[id].isPublic == False
  }

  /** Grants are only added, and only ones that links call for; the field is only removed, and only
      from links whose grants are all in place; a run that finishes removes it from every link
      whose grants did not fail. */
  ghost predicate RunStep(pre: Store, post: Store, force: bool, end: RunEnd) {
    && post.links.Keys == pre.links.Keys
    && pre.acl <= post.acl
    && (forall g :: g in post.acl && g !in pre.acl ==> Wanted(pre.links, g))
    && (forall id :: id in pre.links ==> Cleared(pre, post, id))
    && (end.Aborted? ==> !force && exists id :: id in pre.links && pre.links[id].isPublic == False)
    && (end.Finished? ==> force || forall id :: id in pre.links ==> pre.links[id].isPublic != False)
    && (end.DryRun? || end.Aborted? ==> post == pre)
    && (end.Finished? ==> end.failed <= pre.links.Keys
                          && forall id :: id in pre.links ==>
                               if id in end.failed then post.links[id] == pre.links[id]
                               else Granted(pre.links, post.acl, id) && post.links[id].isPublic == Undefined)
  }

  ghost predicate Cleared(pre: Store, post: Store, id: LinkId)
    requires id in pre.links && id in post.links
  {
    || post.links[id] == pre.links[id]
    || (post.links[id] == pre.links[id].(isPublic := Undefined) && Granted(pre.links, post.acl, id))
  }

  // ----- the script

  /** A bulk write succeeds, reports the indices that failed, or raises without saying which. */
  datatype BulkOutcome = Written | WriteErrors(indices: seq<nat>) | Raised

  class Database {
    /** Whether the process is stopped at its `k`-th step. */
    const stops: nat -> bool
    var links: Links
    var acl: set<Grant>
    var step: nat

    constructor (links: Links, acl: set<Grant>, stops: nat -> bool)
      ensures Now() == Store(links, acl) && this.stops == stops && step == 0
    {
      this.links := links;
      this.acl := acl;
      this.stops := stops;
      step := 0;
    }

    /** The process has been stopped at one of the steps from `first` up to now. */
    ghost predicate StoppedSince(first: nat)
      reads this
    {
      exists k :: first <= k < step && stops(k)
    }

    method Stops() returns (stopped: bool)
      modifies this`step
      ensures step == old(step) + 1 && stopped == stops(old(step))
    {
      stopped := stops(step);
      step := step + 1;
    }

    ghost function Now(): Store
      reads this
    {
      Store(links, acl)
    }

    /** `bulkWrite` with `ordered: false`. */
    method BulkWrite(ops: seq<Grant>) returns (outcome: BulkOutcome)
      modifies this`acl
      ensures old(acl) <= acl
      ensures forall g :: g in acl && g !in old(acl) ==> g in ops
      ensures outcome.Written? ==> forall k :: 0 <= k < |ops| ==> ops[k] in acl
      ensures outcome.WriteErrors? ==> forall k :: 0 <= k < |ops| && k !in outcome.indices ==> ops[k] in acl
      ensures outcome.WriteErrors? ==> outcome.indices != [] && forall k :: k in outcome.indices ==> k < |ops|
    {
      var raised: bool := *;
      var failing: seq<nat> := [];
      for k := 0 to |ops|
        invariant old(acl) <= acl
        invariant forall g :: g in acl && g !in old(acl) ==> g in ops
        invariant forall j :: 0 <= j < k && j !in failing ==> ops[j] in acl
        invariant forall j :: j in failing ==> j < k
      {
        var fails: bool := *;
        if fails {
          failing := failing + [k];
        } else {
          acl := acl + {ops[k]};
        }
      }
      outcome := if raised then Raised else if failing == [] then Written else WriteErrors(failing);
    }

    /** The first loop of `processBatch`: operations, and beside each the link it is for. */
    method CollectOps(batch: seq<LinkId>) returns (bulkOps: seq<Grant>, opIndexToLinkId: seq<LinkId>)
      requires forall id :: id in batch ==> id in links
      ensures OpsOf(bulkOps, opIndexToLinkId, links, batch)
    {
      bulkOps, opIndexToLinkId := [], [];
      NoOps(links);
      hide OpsOf, Wanted;
      for i := 0 to |batch|
        invariant OpsOf(bulkOps, opIndexToLinkId, links, batch[..i])
      {
        var id := batch[i];
        var link := links[id];
        assert id in batch;
        OpsExtend(bulkOps, opIndexToLinkId, links, batch[..i], id);
        assert batch[..i + 1] == batch[..i] + [id];
        ghost var ops, owners, more := bulkOps, opIndexToLinkId, OwnerOps(id, link) + PublicOps(id, link);
        if link.user.Some? {
          opIndexToLinkId := opIndexToLinkId + [id];
          bulkOps := bulkOps + [Owner(id, link.user.value)];
        }
        if link.isPublic != Undefined && link.isPublic != False {
          opIndexToLinkId := opIndexToLinkId + [id];
          bulkOps := bulkOps + [PublicViewer(id)];
        }
        assert bulkOps == ops + more && opIndexToLinkId == owners + seq(|more|, k => id);
      }
      assert batch[..|batch|] == batch;
    }

    /** The error branch of `processBatch`: the links that the outcome of the bulk write blames. */
    method BlamedLinks(outcome: BulkOutcome, opIndexToLinkId: seq<LinkId>, batch: seq<LinkId>)
      returns (blamed: set<LinkId>)
      requires forall id :: id in opIndexToLinkId ==> id in batch
      ensures forall id :: id in blamed ==> id in batch
      ensures Blames(outcome, opIndexToLinkId, batch, blamed)
    {
      blamed := {};
      match outcome {
        case Written =>
        case WriteErrors(indices) =>
          for k := 0 to |indices|
            invariant forall id :: id in blamed ==> id in batch
            invariant forall id :: id in blamed <==>
                        exists x :: x in indices[..k] && x < |opIndexToLinkId| && opIndexToLinkId[x] == id
          {
            assert indices[..k + 1] == indices[..k] + [indices[k]];
            if indices[k] < |opIndexToLinkId| {
              assert opIndexToLinkId[indices[k]] in opIndexToLinkId;
              blamed := blamed + {opIndexToLinkId[indices[k]]};
            }
          }
          assert indices[..|indices|] == indices;
        case Raised =>
          blamed := set id | id in batch;
      }
    }

    /** `processBatch`; returns `failedLinkIds` afterwards.  The run may stop before the bulk write, as
        when a user id is malformed, and while it is under way, when any part of it may be stored. */
    method ProcessBatch(batch: seq<LinkId>, failedBefore: set<LinkId>)
      returns (failed: set<LinkId>, stopped: bool, ghost call: BulkCall)
      requires forall id :: id in batch ==> id in links
      modifies this`acl, this`step
      ensures old(step) <= step && (stopped <==> StoppedSince(old(step)))
      ensures old(acl) <= acl
      ensures forall g :: g in acl && g !in old(acl) ==> Wanted(links, g)
      ensures failedBefore <= failed
      ensures forall id :: id in failed ==> id in failedBefore || id in batch
      ensures !stopped ==> forall id :: id in batch ==> id in failed || Granted(links, acl, id)
      ensures !stopped ==> forall id :: id in failed && id !in failedBefore ==> Reported(links, call, id)
    {
      hide Wanted, Granted;
      failed, call := failedBefore, BulkCall([], Written);
      stopped := Stops();
      if stopped {
        return;
      }
      var bulkOps, opIndexToLinkId := CollectOps(batch);
      var outcome := Written;
      if |bulkOps| > 0 {
        outcome := BulkWrite(bulkOps);
        stopped := Stops();
        if stopped {
          return;
        }
      }
      call := BulkCall(bulkOps, outcome);
      var blamed := BlamedLinks(outcome, opIndexToLinkId, batch);
      failed := failedBefore + blamed;
      BatchCovered(bulkOps, opIndexToLinkId, links, batch, acl, outcome, blamed);
      BlameIsReported(bulkOps, opIndexToLinkId, links, batch, outcome, blamed);
    }

    /** The final `updateMany`; when the run is stopped it has reached some of the documents. */
    method UnsetIsPublic(ids: seq<LinkId>, failed: set<LinkId>) returns (finished: bool)
      requires forall id :: id in ids <==> id in links
      requires forall id :: id in links ==> id in failed || Granted(links, acl, id)
      modifies this`links, this`step
      ensures old(step) <= step && (finished <==> !StoppedSince(old(step)))
      ensures links.Keys == old(links).Keys
      ensures forall id :: id in links ==> Cleared(old(Now()), Now(), id)
      ensures forall id :: id in links && id in failed ==> links[id] == old(links)[id]
      ensures finished ==> forall id :: id in links && id !in failed ==> links[id].isPublic == Undefined
    {
      for i := 0 to |ids|
        invariant links.Keys == old(links).Keys
        invariant old(step) <= step && !StoppedSince(old(step))
        invariant forall id :: id in links ==> Cleared(old(Now()), Now(), id)
        invariant forall id :: id in links && id in failed ==> links[id] == old(links)[id]
        invariant forall k :: 0 <= k < i && ids[k] !in failed ==> links[ids[k]].isPublic == Undefined
      {
        var stopped := Stops();
        if stopped {
          return false;
        }
        assert ids[i] in ids;
        if ids[i] !in failed && links[ids[i]].isPublic != Undefined {
          links := links[ids[i] := links[ids[i]].(isPublic := Undefined)];
        }
      }
      finished := true;
    }

    /** The loop over the cursor, batch by batch.  `calls` are the bulk writes of the batches. */
    method ProcessAll(docs: seq<LinkId>, batchSize: int)
      returns (failed: set<LinkId>, stopped: bool, ghost calls: seq<BulkCall>)
      requires forall id :: id in docs ==> id in links
      modifies this`acl, this`step
      ensures old(step) <= step && (stopped <==> StoppedSince(old(step)))
      ensures GrantsAdded(old(Now()), acl)
      ensures failed <= links.Keys
      ensures !stopped ==> Covered(links, acl, docs, failed) && AllReported(links, calls, failed)
    {
      hide Wanted, Granted, Reported;
      calls, failed, stopped := [], {}, false;
      var batch: seq<LinkId> := [];
      ghost var done := 0;
      for i := 0 to |docs|
        invariant 0 <= done <= i && batch == docs[done..i]
        invariant GrantsAdded(old(Now()), acl)
        invariant failed <= links.Keys
        invariant Covered(links, acl, docs[..done], failed)
        invariant AllReported(links, calls, failed)
        invariant old(step) <= step && !stopped && !StoppedSince(old(step))
      {
        stopped := Stops();
        if stopped {
          return;
        }
        assert docs[done..i + 1] == docs[done..i] + [docs[i]];
        batch := batch + [docs[i]];
        if |batch| >= batchSize {
          ghost var before, failedBefore := acl, failed;
          ghost var call;
          failed, stopped, call := ProcessBatch(batch, failed);
          if stopped {
            return;
          }
          ReportedMore(links, calls, call, failedBefore, failed);
          calls := calls + [call];
          CoveredExtends(links, before, acl, docs, done, i + 1, failed);
          done := i + 1;
          batch := [];
        }
      }
      if |batch| > 0 {
        ghost var before, failedBefore := acl, failed;
        ghost var call;
        failed, stopped, call := ProcessBatch(batch, failed);
        if stopped {
          return;
        }
        ReportedMore(links, calls, call, failedBefore, failed);
        calls := calls + [call];
        CoveredExtends(links, before, acl, docs, done, |docs|, failed);
      }
      assert docs[..|docs|] == docs;
    }

    /** `docs` is the cursor: every link once, in any order. */
    method Migrate(docs: seq<LinkId>, dryRun: bool, force: bool, batchSize: int)
      returns (end: RunEnd, ghost calls: seq<BulkCall>)
      requires forall id :: id in docs <==> id in links
      modifies this
      ensures RunStep(old(Now()), Now(), force, end)
      ensures dryRun <==> end.DryRun?
      ensures end.Aborted? <==> !dryRun && !force && exists id :: id in old(links) && old(links)[id].isPublic == False
      ensures end.Crashed? <==> StoppedSince(old(step))
      ensures old(step) <= step
      ensures end == Finished({}) ==> forall id :: id in old(links) ==> FullyGranted(old(Now()), Now(), id)
      ensures end.Finished? ==> forall id :: id in end.failed ==> exists c :: c in calls && Reported(old(links), c, id)
      ensures end.Finished? && (forall c :: c in calls ==> c.outcome.Written?) ==> end == Finished({})
    {
      hide FullyGranted, Wanted, Granted, Reported;
      calls := [];
      if !dryRun && HasFalse(links) && !force {
        return Aborted, calls;
      }
      if dryRun {
        return DryRun, calls;
      }
      ghost var pre := Now();
      var failed, stopped;
      failed, stopped, calls := ProcessAll(docs, batchSize);
      if stopped {
        return Crashed, calls;
      }
      NothingReported(links, calls, failed);
      var finished := UnsetIsPublic(docs, failed);
      end := if finished then Finished(failed) else Crashed;
      if end == Finished({}) {
        EveryLinkGranted(pre, Now(), force);
      }
    }
  }

  // ----- the parallel arrays of a batch

  /** Operation `k` is a grant for the link at index `k`, and the batch's grants are all among the operations. */
  ghost predicate OpsOf(ops: seq<Grant>, owners: seq<LinkId>, links: Links, batch: seq<LinkId>) {
    && |ops| == |owners|
    && (forall k :: 0 <= k < |ops| ==> ops[k].link == owners[k] && owners[k] in batch && Wanted(links, ops[k]))
    && (forall g: Grant :: g.link in batch && Wanted(links, g) ==> g in ops)
  }

  lemma NoOps(links: Links)
    ensures OpsOf([], [], links, [])
  {
  }

  lemma OpsExtend(ops: seq<Grant>, owners: seq<LinkId>, links: Links, batch: seq<LinkId>, id: LinkId)
    requires OpsOf(ops, owners, links, batch) && id in links
    ensures var more := OwnerOps(id, links[id]) + PublicOps(id, links[id]);
            OpsOf(ops + more, owners + seq(|more|, k => id), links, batch + [id])
  {
    var more := OwnerOps(id, links[id]) + PublicOps(id, links[id]);
    var all := ops + more;
    forall k | 0 <= k < |all| ensures all[k].link == (owners + seq(|more|, j => id))[k] && Wanted(links, all[k]) {
      if k >= |ops| { assert all[k] == more[k - |ops|] && all[k] in more; }
    }
    forall g: Grant | g.link in batch + [id] && Wanted(links, g) ensures g in all {
      if g.link in batch { assert g in ops; } else { assert g.link == id && g in more; }
    }
  }

  /** Nobody is blamed for a write that succeeded, the links of the reported operations for one that
      reports errors, and the whole batch for one that raised. */
  ghost predicate Blames(outcome: BulkOutcome, owners: seq<LinkId>, batch: seq<LinkId>, failed: set<LinkId>) {
    match outcome
    case Written => failed == {}
    case WriteErrors(indices) =>
      forall id :: id in failed <==> exists k :: k in indices && k < |owners| && owners[k] == id
    case Raised => forall id :: id in failed <==> id in batch
  }

  /** The bulk write of a batch. */
  datatype BulkCall = BulkCall(ops: seq<Grant>, outcome: BulkOutcome)

  /** The write raised, or reports an operation for a grant that the link calls for. */
  ghost predicate Reported(links: Links, call: BulkCall, id: LinkId) {
    || call.outcome.Raised?
    || (call.outcome.WriteErrors?
        && exists k :: k in call.outcome.indices && k < |call.ops|
                       && call.ops[k].link == id && Wanted(links, call.ops[k]))
  }

  ghost predicate AllReported(links: Links, calls: seq<BulkCall>, failed: set<LinkId>) {
    forall id :: id in failed ==> exists c :: c in calls && Reported(links, c, id)
  }

  lemma BlameIsReported(ops: seq<Grant>, owners: seq<LinkId>, links: Links, batch: seq<LinkId>, outcome: BulkOutcome,
                        blamed: set<LinkId>)
    requires OpsOf(ops, owners, links, batch) && Blames(outcome, owners, batch, blamed)
    ensures forall id :: id in blamed ==> Reported(links, BulkCall(ops, outcome), id)
  {
    hide Wanted;
  }

  lemma ReportedMore(links: Links, calls: seq<BulkCall>, call: BulkCall, before: set<LinkId>, failed: set<LinkId>)
    requires AllReported(links, calls, before)
    requires forall id :: id in failed && id !in before ==> Reported(links, call, id)
    ensures AllReported(links, calls + [call], failed)
  {
    hide Reported;
    assert call in calls + [call];
    forall id | id in failed ensures exists c :: c in calls + [call] && Reported(links, c, id) {
      if id in before {
        var c :| c in calls && Reported(links, c, id);
        assert c in calls + [call];
      }
    }
  }

  lemma NothingReported(links: Links, calls: seq<BulkCall>, failed: set<LinkId>)
    requires AllReported(links, calls, failed)
    ensures (forall c :: c in calls ==> c.outcome.Written?) ==> failed == {}
  {
  }

  /** Every link of the batch has its grants unless a failure was attributed to it. */
  lemma BatchCovered(ops: seq<Grant>, owners: seq<LinkId>, links: Links, batch: seq<LinkId>, acl: set<Grant>,
                     outcome: BulkOutcome, failed: set<LinkId>)
    requires OpsOf(ops, owners, links, batch)
    requires outcome.Written? ==> forall k :: 0 <= k < |ops| ==> ops[k] in acl
    requires outcome.WriteErrors? ==> forall k :: 0 <= k < |ops| && k !in outcome.indices ==> ops[k] in acl
    requires Blames(outcome, owners, batch, failed)
    ensures forall id :: id in batch ==> id in failed || Granted(links, acl, id)
  {
    forall id, g: Grant | id in batch && id !in failed && g.link == id && Wanted(links, g) ensures g in acl {
      assert g in ops;
      var k :| 0 <= k < |ops| && ops[k] == g;
    }
  }

  ghost predicate GrantsAdded(pre: Store, acl: set<Grant>) {
    pre.acl <= acl && forall g :: g in acl && g !in pre.acl ==> Wanted(pre.links, g)
  }

  ghost predicate Covered(links: Links, acl: set<Grant>, ids: seq<LinkId>, failed: set<LinkId>) {
    forall id :: id in ids ==> id in failed || Granted(links, acl, id)
  }

  lemma CoveredExtends(links: Links, before: set<Grant>, acl: set<Grant>, docs: seq<LinkId>, done: nat, next: nat,
                       failed: set<LinkId>)
    requires done <= next <= |docs| && before <= acl
    requires forall id :: id in docs[..done] ==> id in failed || Granted(links, before, id)
    requires forall id :: id in docs[done..next] ==> id in failed || Granted(links, acl, id)
    ensures Covered(links, acl, docs[..next], failed)
  {
    assert docs[..next] == docs[..done] + docs[done..next];
  }

  // ----- sequences of runs

  /** Consecutive states of the store, each reached from the one before by a run. */
  ghost predicate IsHistory(stores: seq<Store>, forced: seq<bool>, ends: seq<RunEnd>) {
    && |stores| == |forced| + 1 == |ends| + 1
    && forall i :: 0 <= i < |ends| ==> RunStep(stores[i], stores[i + 1], forced[i], ends[i])
  }

  lemma {:induction false} HistoryKeeps(stores: seq<Store>, forced: seq<bool>, ends: seq<RunEnd>, id: LinkId, n: nat)
    requires IsHistory(stores, forced, ends) && n < |stores| && id in stores[0].links
    ensures id in stores[n].links && stores[n].links[id].user == stores[0].links[id].user
    ensures stores[0].acl <= stores[n].acl
    ensures stores[n].links[id].isPublic == stores[0].links[id].isPublic
            || (stores[n].links[id].isPublic == Undefined && Granted(stores[0].links, stores[n].acl, id))
    ensures forall g: Grant :: g.link == id && g in stores[n].acl && g !in stores[0].acl ==> Wanted(stores[0].links, g)
  {
    if n > 0 {
      HistoryKeeps(stores, forced, ends, id, n - 1);
      var before, after := stores[n - 1], stores[n];
      assert RunStep(before, after, forced[n - 1], ends[n - 1]);
      assert Cleared(before, after, id);
      forall g: Grant | g.link == id && Wanted(before.links, g) ensures Wanted(stores[0].links, g) {}
      if before.links[id] == stores[0].links[id] {
        forall g: Grant | g.link == id && Wanted(stores[0].links, g) ensures Wanted(before.links, g) {}
      }
    }
  }

  /** Over any sequence of runs, each stopping anywhere: a public link always still has its field or
      has the public grant; a link marked false never gets one; nor does any link get an owner
      other than its user. */
  lemma NeverLosesNorLeaks(stores: seq<Store>, forced: seq<bool>, ends: seq<RunEnd>, id: LinkId, n: nat)
    requires IsHistory(stores, forced, ends) && n < |stores| && id in stores[0].links
    ensures id in stores[n].links
    ensures stores[0].links[id].isPublic == True ==>
              stores[n].links[id].isPublic == True || PublicViewer(id) in stores[n].acl
    ensures stores[0].links[id].isPublic == False && PublicViewer(id) !in stores[0].acl ==>
              PublicViewer(id) !in stores[n].acl
    ensures forall u :: Owner(id, u) in stores[n].acl && Owner(id, u) !in stores[0].acl ==>
              stores[0].links[id].user == Some(u)
  {
    HistoryKeeps(stores, forced, ends, id, n);
    var g := PublicViewer(id);
    assert stores[0].links[id].isPublic == True ==> g in PublicOps(id, stores[0].links[id]);
    assert stores[0].links[id].isPublic == True ==> Wanted(stores[0].links, g);
    if stores[0].links[id].isPublic == False {
      assert !Wanted(stores[0].links, g);
    }
  }

  ghost predicate FullyGranted(pre: Store, post: Store, id: LinkId)
    requires id in pre.links
  {
    && id in post.links && post.links[id].isPublic == Undefined
    && (pre.links[id].user.Some? ==> Owner(id, pre.links[id].user.value) in post.acl)
    && (pre.links[id].isPublic == True ==> PublicViewer(id) in post.acl)
  }

  /** A run that finishes without a failed link leaves every link that has a user with its owner
      grant, every public one with the public grant, and no legacy field. */
  lemma CleanRunGrants(pre: Store, post: Store, force: bool, id: LinkId)
    requires RunStep(pre, post, force, Finished({})) && id in pre.links
    ensures FullyGranted(pre, post, id)
  {
    var link := pre.links[id];
    if link.user.Some? {
      assert Owner(id, link.user.value) in OwnerOps(id, link);
      assert Wanted(pre.links, Owner(id, link.user.value));
    }
    if link.isPublic == True {
      assert PublicViewer(id) in PublicOps(id, link);
      assert Wanted(pre.links, PublicViewer(id));
    }
  }

  lemma EveryLinkGranted(pre: Store, post: Store, force: bool)
    requires RunStep(pre, post, force, Finished({}))
    ensures forall id :: id in pre.links ==> FullyGranted(pre, post, id)
  {
    hide RunStep, FullyGranted;
    forall id | id in pre.links { CleanRunGrants(pre, post, force, id); }
  }

  /** A value that is neither true nor false, such as null, is treated as public. */
  lemma OtherValuesBecomePublic(pre: Store, post: Store, force: bool, id: LinkId)
    requires RunStep(pre, post, force, Finished({})) && id in pre.links
    ensures PublicViewer(id) in post.acl <==>
            PublicViewer(id) in pre.acl || pre.links[id].isPublic == True || pre.links[id].isPublic == Other
  {
    var link := pre.links[id];
    assert PublicViewer(id) in OwnerOps(id, link) + PublicOps(id, link)
      <==> link.isPublic == True || link.isPublic == Other;
  }
}
