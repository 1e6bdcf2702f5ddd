/** The group and rename loop of `config/migrate-code-file-duplicates.js`.

    `files` is the collection of code-execution files.  A missing scope key and a null one are the
    same value; the aggregation is the list `groups`, in any order and with its members in any order. */
module CodeFileDuplicates {
  import opened Text
  import opened Sorting
  import opened CodeFileNames

  type Id = nat

  datatype Scope = Scope(conversationId: Option<string>, tenantId: Option<string>)

  datatype File = File(filename: string, scope: Scope, createdAt: int)

  type Files = map<Id, File>

  /** What the aggregation pushes for every file of a group. */
  datatype Copy = Copy(id: Id, createdAt: int)

  datatype Group = Group(filename: string, scope: Scope, copies: seq<Copy>)

  ghost predicate InGroup(files: Files, g: Group, id: Id) {
    id in files && files[id].filename == g.filename && files[id].scope == g.scope
  }

  ghost predicate Lists(g: Group, id: Id) {
    exists c :: c in g.copies && c.id == id
  }

  /** `g` lists each file of its name and scope once. */
  ghost predicate IsGroupOf(files: Files, g: Group) {
    && |g.copies| > 1
    && DistinctBy((c: Copy) => c.id, g.copies)
    && (forall c :: c in g.copies ==> InGroup(files, g, c.id) && c.createdAt == files[c.id].createdAt)
    && (forall id :: InGroup(files, g, id) ==> Lists(g, id))
  }

  /** The groups are all sets of two or more files that share a name and a scope, each once. */
  ghost predicate IsGrouping(files: Files, groups: seq<Group>) {
    && (forall k :: 0 <= k < |groups| ==> IsGroupOf(files, groups[k]))
    && (forall j, k :: 0 <= j < k < |groups| ==>
          groups[j].filename != groups[k].filename || groups[j].scope != groups[k].scope)
    && (forall a, b :: a in files && b in files && a != b && SameKey(files, a, b) ==>
          exists k :: 0 <= k < |groups| && InGroup(files, groups[k], a))
  }

  predicate SameKey(files: Files, a: Id, b: Id)
    requires a in files && b in files
  {
    files[a].filename == files[b].filename && files[a].scope == files[b].scope
  }

  /** What the unique index demands. */
  ghost predicate Unique(files: Files) {
    forall a, b :: a in files && b in files && a != b ==> !SameKey(files, a, b)
  }

  // ----- the plan of one group

  function Newer(): (Copy, Copy) -> bool {
    (a: Copy, b: Copy) => a.createdAt >= b.createdAt
  }

  /** Newest first; copies of equal age keep their order. */
  function Ordered(g: Group): seq<Copy> {
    SortBy(Newer(), g.copies)
  }

  function Stale(g: Group): seq<Id> {
    var ordered := Ordered(g);
    if ordered == [] then [] else seq(|ordered| - 1, i requires 0 <= i < |ordered| - 1 => ordered[i + 1].id)
  }

  function NamesIn(files: Files, scope: Scope): set<string> {
    set id | id in files && files[id].scope == scope :: files[id].filename
  }

  /** The names that mapping `nextAvailableName` over `count` stale files gives. */
  function PlanNames(filename: string, count: nat, taken: set<string>): (names: seq<string>)
    ensures |names| == count
  {
    if count == 0 then []
    else
      var name := NextName(filename, taken);
      [name] + PlanNames(filename, count - 1, taken + {name})
  }

  function GroupPlan(files: Files, g: Group): seq<string> {
    PlanNames(g.filename, |Stale(g)|, NamesIn(files, g.scope))
  }

  function RenameFile(files: Files, id: Id, to: string): Files {
    if id in files then files[id := files[id].(filename := to)] else files
  }

  function Apply(files: Files, ids: seq<Id>, names: seq<string>): Files
    requires |ids| == |names|
  {
    if ids == [] then files
    else RenameFile(Apply(files, ids[..|ids| - 1], names[..|ids| - 1]), ids[|ids| - 1], names[|ids| - 1])
  }

  function GroupStep(files: Files, g: Group): Files {
    Apply(files, Stale(g), GroupPlan(files, g))
  }

  /** The collection after the groups have been processed one after the other. */
  function LiveFiles(files: Files, groups: seq<Group>): Files {
    if groups == [] then files else GroupStep(LiveFiles(files, groups[..|groups| - 1]), groups[|groups| - 1])
  }

  /** What a live run plans for group `k`, reading the names as earlier groups left them. */
  function LivePlan(files: Files, groups: seq<Group>, k: nat): seq<string>
    requires k < |groups|
  {
    GroupPlan(LiveFiles(files, groups[..k]), groups[k])
  }

  // ----- facts about plans

  ghost predicate FreshNames(filename: string, names: seq<string>, taken: set<string>) {
    && (forall i :: 0 <= i < |names| ==> names[i] !in taken && IsSuffixed(names[i], filename))
    && (forall i, j :: 0 <= i < j < |names| ==> names[i] != names[j])
  }

  lemma {:induction false} PlanFresh(filename: string, count: nat, taken: set<string>)
    ensures FreshNames(filename, PlanNames(filename, count, taken), taken)
  {
    hide SuffixFilename, IsSuffixed;
    if count > 0 {
      var name := NextName(filename, taken);
      var rest := PlanNames(filename, count - 1, taken + {name});
      PlanFresh(filename, count - 1, taken + {name});
      NextIsSuffixed(filename, taken);
      var names := [name] + rest;
      assert forall i :: 1 <= i < |names| ==> names[i] == rest[i - 1];
      assert FreshNames(filename, names, taken);
    }
  }

  lemma NextIsSuffixed(filename: string, taken: set<string>)
    ensures IsSuffixed(NextName(filename, taken), filename)
  {
    assert NextName(filename, taken) == SuffixFilename(filename, FirstFree(filename, taken, 1));
  }

  /** Taken names that are no candidates of `filename` do not change its plan. */
  lemma {:induction false} PlanIgnores(filename: string, count: nat, taken: set<string>, more: set<string>)
    requires taken <= more
    requires forall n :: n >= 1 && SuffixFilename(filename, n) in more ==> SuffixFilename(filename, n) in taken
    ensures PlanNames(filename, count, taken) == PlanNames(filename, count, more)
  {
    hide SuffixFilename;
    if count > 0 {
      var r := FirstFree(filename, taken, 1);
      assert AllTaken(filename, more, r);
      FirstFreeIs(filename, more, 1, r);
      var name := NextName(filename, taken);
      PlanIgnores(filename, count - 1, taken + {name}, more + {name});
    }
  }

  lemma {:induction false} ApplyEffect(files: Files, ids: seq<Id>, names: seq<string>)
    requires |ids| == |names|
    requires forall i :: 0 <= i < |ids| ==> ids[i] in files
    requires forall i, j :: 0 <= i < j < |ids| ==> ids[i] != ids[j]
    ensures var after := Apply(files, ids, names);
            && after.Keys == files.Keys
            && (forall i :: 0 <= i < |ids| ==> after[ids[i]] == files[ids[i]].(filename := names[i]))
            && (forall id :: id in files && id !in ids ==> after[id] == files[id])
  {
    if ids != [] {
      var n := |ids| - 1;
      ApplyEffect(files, ids[..n], names[..n]);
      forall id | id in files && id !in ids ensures id !in ids[..n] {}
      assert ids[n] !in ids[..n];
    }
  }

  // ----- groups

  lemma OrderedFacts(g: Group)
    requires DistinctBy((c: Copy) => c.id, g.copies) && |g.copies| > 1
    ensures |Ordered(g)| == |g.copies|
    ensures forall c :: c in Ordered(g) <==> c in g.copies
    ensures DistinctBy((c: Copy) => c.id, Ordered(g))
    ensures forall i, j :: 0 <= i < j < |Ordered(g)| ==> Ordered(g)[i].createdAt >= Ordered(g)[j].createdAt
  {
    SameElements(Ordered(g), g.copies);
    PermutationDistinct((c: Copy) => c.id, g.copies, Ordered(g));
    assert TotalPreorder(Newer());
    SortBySorted(Newer(), g.copies);
    forall i, j | 0 <= i < j < |Ordered(g)| ensures Ordered(g)[i].createdAt >= Ordered(g)[j].createdAt {
      assert Newer()(Ordered(g)[i], Ordered(g)[j]);
    }
  }

  /** The file that keeps its name: the newest of its group. */
  function Newest(g: Group): Copy
    requires |g.copies| > 0
  {
    assert |Ordered(g)| > 0 by { SameElements(Ordered(g), g.copies); }
    Ordered(g)[0]
  }

  lemma GroupFacts(files: Files, g: Group)
    requires IsGroupOf(files, g)
    ensures forall id :: id in Stale(g) ==> InGroup(files, g, id)
    ensures forall i, j :: 0 <= i < j < |Stale(g)| ==> Stale(g)[i] != Stale(g)[j]
    ensures forall id :: InGroup(files, g, id) ==> id == Newest(g).id || id in Stale(g)
    ensures InGroup(files, g, Newest(g).id) && Newest(g).id !in Stale(g)
    ensures forall id :: InGroup(files, g, id) ==> files[Newest(g).id].createdAt >= files[id].createdAt
  {
    hide SortBy;
    OrderedFacts(g);
    var ordered, stale := Ordered(g), Stale(g);
    var key := (c: Copy) => c.id;
    forall i, j | 0 <= i < j < |ordered| ensures ordered[i].id != ordered[j].id {
      assert key(ordered[i]) != key(ordered[j]);
    }
    forall i | 0 <= i < |stale| ensures InGroup(files, g, stale[i]) && stale[i] != Newest(g).id {
      assert ordered[i + 1] in ordered;
    }
    assert ordered[0] in ordered;
    forall id | InGroup(files, g, id)
      ensures (id == Newest(g).id || id in stale) && files[Newest(g).id].createdAt >= files[id].createdAt
    {
      assert Lists(g, id);
      var c :| c in g.copies && c.id == id;
      assert c in ordered;
      var i :| 0 <= i < |ordered| && ordered[i] == c;
      if i > 0 { assert stale[i - 1] == id; }
    }
  }

  // ----- progress of a live run

  /** The group among the first `i` in which `id` was renamed. */
  ghost predicate RenamedIn(groups: seq<Group>, i: nat, orig: File, id: Id)
    requires i <= |groups|
  {
    exists k :: 0 <= k < i && groups[k].filename == orig.filename && groups[k].scope == orig.scope
      && id in Stale(groups[k])
  }

  ghost predicate IsSuffixed(name: string, filename: string) {
    exists n :: n >= 1 && name == SuffixFilename(filename, n)
  }

  /** `cur` is `orig` with the first `i` groups normalized: only stale files have new names, each a
      suffixed form of the old one, and names still shared belong to groups that are yet to come. */
  ghost predicate Progress(orig: Files, cur: Files, groups: seq<Group>, i: nat)
    requires i <= |groups|
  {
    && cur.Keys == orig.Keys
    && (forall id :: id in orig ==> Kept(orig[id], cur[id]))
    && (forall id :: id in orig && RenamedIn(groups, i, orig[id], id) ==>
          IsSuffixed(cur[id].filename, orig[id].filename))
    && (forall id :: id in orig && !RenamedIn(groups, i, orig[id], id) ==> cur[id] == orig[id])
    && (forall a, b :: a in cur && b in cur && a != b && SameKey(cur, a, b) ==> Waiting(orig, cur, groups, i, a))
  }

  predicate Kept(before: File, after: File) {
    after.scope == before.scope && after.createdAt == before.createdAt
  }

  ghost predicate Waiting(orig: Files, cur: Files, groups: seq<Group>, i: nat, id: Id)
    requires i <= |groups|
  {
    id in orig && id in cur && cur[id] == orig[id] && exists k :: i <= k < |groups| && InGroup(orig, groups[k], id)
  }

  lemma NotYetRenamed(orig: Files, groups: seq<Group>, i: nat, id: Id)
    requires IsGrouping(orig, groups) && i < |groups| && InGroup(orig, groups[i], id)
    ensures !RenamedIn(groups, i, orig[id], id)
  {
  }

  /** The names a group sees are those of the start of the run plus suffixed forms of other names. */
  lemma NamesDuringRun(orig: Files, cur: Files, groups: seq<Group>, i: nat)
    requires IsGrouping(orig, groups) && i < |groups| && Progress(orig, cur, groups, i)
    ensures NamesIn(orig, groups[i].scope) <= NamesIn(cur, groups[i].scope)
    ensures forall n :: n >= 1 && SuffixFilename(groups[i].filename, n) in NamesIn(cur, groups[i].scope)
              ==> SuffixFilename(groups[i].filename, n) in NamesIn(orig, groups[i].scope)
  {
    hide SuffixFilename, Stale, IsGroupOf;
    var g := groups[i];
    forall name | name in NamesIn(orig, g.scope) ensures name in NamesIn(cur, g.scope) {
      var id :| id in orig && orig[id].scope == g.scope && orig[id].filename == name;
      if RenamedIn(groups, i, orig[id], id) {
        var k :| 0 <= k < i && groups[k].filename == orig[id].filename && groups[k].scope == orig[id].scope
          && id in Stale(groups[k]);
        KeptName(orig, cur, groups, i, k);
      }
    }
    forall n | n >= 1 && SuffixFilename(g.filename, n) in NamesIn(cur, g.scope)
      ensures SuffixFilename(g.filename, n) in NamesIn(orig, g.scope)
    {
      var id :| id in cur && cur[id].scope == g.scope && cur[id].filename == SuffixFilename(g.filename, n);
      if RenamedIn(groups, i, orig[id], id) {
        var m :| m >= 1 && cur[id].filename == SuffixFilename(orig[id].filename, m);
        SuffixInjective(orig[id].filename, m, g.filename, n);
        NotYetRenamed(orig, groups, i, id);
      }
    }
  }

  lemma KeptName(orig: Files, cur: Files, groups: seq<Group>, i: nat, k: nat)
    requires IsGrouping(orig, groups) && i <= |groups| && k < |groups| && Progress(orig, cur, groups, i)
    ensures groups[k].filename in NamesIn(cur, groups[k].scope)
  {
    NewestKeeps(orig, cur, groups, i, k);
    assert cur[Newest(groups[k]).id].filename == groups[k].filename;
  }

  lemma NewestKeeps(orig: Files, cur: Files, groups: seq<Group>, i: nat, k: nat)
    requires IsGrouping(orig, groups) && i <= |groups| && k < |groups| && Progress(orig, cur, groups, i)
    ensures |groups[k].copies| > 0 && Newest(groups[k]).id in cur
    ensures cur[Newest(groups[k]).id] == orig[Newest(groups[k]).id]
    ensures InGroup(orig, groups[k], Newest(groups[k]).id)
  {
    GroupFacts(orig, groups[k]);
  }

  /** The plan made in the middle of a live run is the plan that a dry run makes at the start. */
  lemma PlanUnaffected(orig: Files, cur: Files, groups: seq<Group>, i: nat)
    requires IsGrouping(orig, groups) && i < |groups| && Progress(orig, cur, groups, i)
    ensures GroupPlan(cur, groups[i]) == GroupPlan(orig, groups[i])
  {
    hide SuffixFilename, Stale;
    NamesDuringRun(orig, cur, groups, i);
    PlanIgnores(groups[i].filename, |Stale(groups[i])|, NamesIn(orig, groups[i].scope), NamesIn(cur, groups[i].scope));
  }

  // ----- one group

  ghost predicate StepEffect(cur: Files, next: Files, g: Group) {
    && next.Keys == cur.Keys
    && (forall id :: id in cur && id !in Stale(g) ==> next[id] == cur[id])
    && (forall id :: id in cur && id in Stale(g) ==>
          Kept(cur[id], next[id]) && IsSuffixed(next[id].filename, g.filename)
          && next[id].filename !in NamesIn(cur, g.scope))
    && (forall a, b :: a in cur && b in cur && a in Stale(g) && b in Stale(g) && a != b ==>
          next[a].filename != next[b].filename)
  }

  lemma StaleListed(orig: Files, cur: Files, groups: seq<Group>, i: nat)
    requires IsGrouping(orig, groups) && i < |groups| && Progress(orig, cur, groups, i)
    ensures forall id :: id in Stale(groups[i]) ==> id in cur
    ensures forall j, k :: 0 <= j < k < |Stale(groups[i])| ==> Stale(groups[i])[j] != Stale(groups[i])[k]
  {
    hide Stale, IsGrouping, Progress, IsGroupOf, Newest;
    SameFiles(orig, cur, groups, i);
    GroupAt(orig, groups, i);
    GroupFacts(orig, groups[i]);
  }

  lemma SameFiles(orig: Files, cur: Files, groups: seq<Group>, i: nat)
    requires i <= |groups| && Progress(orig, cur, groups, i)
    ensures cur.Keys == orig.Keys
  {
    hide RenamedIn, Waiting, IsSuffixed;
  }

  lemma GroupStepEffect(orig: Files, cur: Files, groups: seq<Group>, i: nat)
    requires IsGrouping(orig, groups) && i < |groups| && Progress(orig, cur, groups, i)
    ensures StepEffect(cur, GroupStep(cur, groups[i]), groups[i])
  {
    hide Stale, IsSuffixed, Apply, SuffixFilename, IsGrouping, Progress, NamesIn, PlanNames;
    var g := groups[i];
    var stale, plan := Stale(g), GroupPlan(cur, g);
    StaleListed(orig, cur, groups, i);
    PlanFresh(g.filename, |stale|, NamesIn(cur, g.scope));
    assert forall k :: 0 <= k < |stale| ==> stale[k] in stale;
    ApplyEffect(cur, stale, plan);
    var next := GroupStep(cur, g);
    forall id | id in cur && id in stale
      ensures Kept(cur[id], next[id]) && IsSuffixed(next[id].filename, g.filename)
              && next[id].filename !in NamesIn(cur, g.scope)
    {
      var k :| 0 <= k < |stale| && stale[k] == id;
      assert next[id] == cur[id].(filename := plan[k]);
    }
    forall a, b | a in stale && b in stale && a != b ensures next[a].filename != next[b].filename {
      var j :| 0 <= j < |stale| && stale[j] == a;
      var k :| 0 <= k < |stale| && stale[k] == b;
      assert plan[j] != plan[k];
    }
  }

  lemma StepNames(orig: Files, cur: Files, next: Files, groups: seq<Group>, i: nat, id: Id)
    requires IsGrouping(orig, groups) && i < |groups| && Progress(orig, cur, groups, i)
    requires StepEffect(cur, next, groups[i]) && id in orig
    ensures Kept(orig[id], next[id])
    ensures if RenamedIn(groups, i + 1, orig[id], id) then IsSuffixed(next[id].filename, orig[id].filename)
            else next[id] == orig[id]
  {
    hide Stale, IsSuffixed, IsGrouping, RenamedIn, Waiting;
    RenamedInOneMore(orig, groups, i, id);
  }

  /** The files renamed in one group more are those renamed before and the stale ones of that group. */
  lemma RenamedInOneMore(orig: Files, groups: seq<Group>, i: nat, id: Id)
    requires IsGrouping(orig, groups) && i < |groups| && id in orig
    ensures RenamedIn(groups, i + 1, orig[id], id) <==> RenamedIn(groups, i, orig[id], id) || id in Stale(groups[i])
    ensures id in Stale(groups[i]) ==> groups[i].filename == orig[id].filename && !RenamedIn(groups, i, orig[id], id)
  {
    hide Stale, IsGrouping;
    var g := groups[i];
    GroupAt(orig, groups, i);
    GroupFacts(orig, g);
    if id in Stale(g) {
      assert InGroup(orig, g, id);
      NotYetRenamed(orig, groups, i, id);
      assert RenamedIn(groups, i + 1, orig[id], id);
    }
  }

  lemma GroupAt(files: Files, groups: seq<Group>, i: nat)
    requires IsGrouping(files, groups) && i < |groups|
    ensures IsGroupOf(files, groups[i])
  {
  }

  lemma StepCollision(orig: Files, cur: Files, next: Files, groups: seq<Group>, i: nat, a: Id, b: Id)
    requires IsGrouping(orig, groups) && i < |groups| && Progress(orig, cur, groups, i)
    requires StepEffect(cur, next, groups[i])
    requires a in next && b in next && a != b && SameKey(next, a, b)
    ensures Waiting(orig, next, groups, i + 1, a)
  {
    hide Stale, IsSuffixed, IsGrouping, RenamedIn;
    var g := groups[i];
    GroupAt(orig, groups, i);
    GroupFacts(orig, g);
    StaleScope(orig, cur, groups, i, a);
    StaleScope(orig, cur, groups, i, b);
    StaleApart(cur, next, g, a, b);
    StaleApart(cur, next, g, b, a);
    assert SameKey(cur, a, b) && SameKey(cur, b, a);
    assert Waiting(orig, cur, groups, i, a) && Waiting(orig, cur, groups, i, b);
    assert InGroup(orig, g, a) && InGroup(orig, g, b) ==> a == b;
    assert InGroup(orig, g, a) ==> InGroup(orig, g, b);
    var k :| i <= k < |groups| && InGroup(orig, groups[k], a);
  }

  lemma StaleScope(orig: Files, cur: Files, groups: seq<Group>, i: nat, id: Id)
    requires IsGrouping(orig, groups) && i < |groups| && Progress(orig, cur, groups, i)
    requires id in cur
    ensures id in Stale(groups[i]) ==> cur[id].scope == groups[i].scope
  {
    hide Stale, IsSuffixed;
    GroupFacts(orig, groups[i]);
  }

  /** A name given in a step is shared with nobody afterwards. */
  lemma StaleApart(cur: Files, next: Files, g: Group, a: Id, b: Id)
    requires StepEffect(cur, next, g) && a in cur && b in cur && a != b
    requires a in Stale(g) ==> cur[a].scope == g.scope
    requires b in Stale(g) ==> cur[b].scope == g.scope
    requires SameKey(next, a, b)
    ensures a !in Stale(g)
  {
    hide Stale, IsSuffixed;
    assert cur[b].scope == g.scope ==> cur[b].filename in NamesIn(cur, g.scope);
  }

  lemma StepProgress(orig: Files, cur: Files, groups: seq<Group>, i: nat)
    requires IsGrouping(orig, groups) && i < |groups| && Progress(orig, cur, groups, i)
    ensures Progress(orig, GroupStep(cur, groups[i]), groups, i + 1)
  {
    hide StepEffect, IsGrouping, GroupStep, IsSuffixed, Waiting, RenamedIn;
    GroupStepEffect(orig, cur, groups, i);
    var next := GroupStep(cur, groups[i]);
    assert next.Keys == cur.Keys by { EffectKeys(cur, next, groups[i]); }
    forall id | id in orig
      ensures Kept(orig[id], next[id])
      ensures if RenamedIn(groups, i + 1, orig[id], id) then IsSuffixed(next[id].filename, orig[id].filename)
              else next[id] == orig[id]
    {
      StepNames(orig, cur, next, groups, i, id);
    }
    forall a, b | a in next && b in next && a != b && SameKey(next, a, b)
      ensures Waiting(orig, next, groups, i + 1, a)
    {
      StepCollision(orig, cur, next, groups, i, a, b);
    }
  }

  lemma EffectKeys(cur: Files, next: Files, g: Group)
    requires StepEffect(cur, next, g)
    ensures next.Keys == cur.Keys
  {
  }

  // ----- whole runs

  lemma StartProgress(files: Files, groups: seq<Group>)
    requires IsGrouping(files, groups)
    ensures Progress(files, files, groups, 0)
  {
  }

  lemma {:induction false} LiveProgress(files: Files, groups: seq<Group>, i: nat)
    requires IsGrouping(files, groups) && i <= |groups|
    ensures Progress(files, LiveFiles(files, groups[..i]), groups, i)
  {
    hide IsGrouping, Progress, GroupStep;
    if i == 0 {
      StartProgress(files, groups);
    } else {
      LiveProgress(files, groups, i - 1);
      StepProgress(files, LiveFiles(files, groups[..i - 1]), groups, i - 1);
      assert groups[..i][..i - 1] == groups[..i - 1];
    }
  }

  /** A dry run plans for every group exactly the renames that a live run performs, whatever the
      order of the groups, although the live run reads the names as earlier groups left them. */
  lemma DryRunIsExact(files: Files, groups: seq<Group>, k: nat)
    requires IsGrouping(files, groups) && k < |groups|
    ensures LivePlan(files, groups, k) == GroupPlan(files, groups[k])
  {
    hide IsGrouping, Progress;
    LiveProgress(files, groups, k);
    PlanUnaffected(files, LiveFiles(files, groups[..k]), groups, k);
  }

  /** After a live run every scope has distinct names, no file is lost or moved, only older copies
      are renamed, each to a suffixed form of its name, and the newest of each group keeps its own. */
  lemma LiveRunResult(files: Files, groups: seq<Group>)
    requires IsGrouping(files, groups)
    ensures var after := LiveFiles(files, groups);
            && Unique(after)
            && after.Keys == files.Keys
            && (forall id :: id in files ==> Kept(files[id], after[id]))
            && (forall id :: id in files && after[id] != files[id] ==>
                  IsSuffixed(after[id].filename, files[id].filename) && IsOlderCopy(files, groups, id))
            && (forall k :: 0 <= k < |groups| ==> KeepsNewest(files, after, groups[k]))
  {
    hide IsSuffixed, Stale, LiveFiles, IsGroupOf, KeepsNewest, IsOlderCopy;
    LiveProgress(files, groups, |groups|);
    assert groups[..|groups|] == groups;
    var after := LiveFiles(files, groups);
    forall k | 0 <= k < |groups| ensures KeepsNewest(files, after, groups[k]) {
      NewestKeeps(files, after, groups, |groups|, k);
      KeepsNewestIs(files, after, groups[k]);
    }
    forall id | id in files && after[id] != files[id] ensures IsOlderCopy(files, groups, id) {
      var k :| 0 <= k < |groups| && groups[k].filename == files[id].filename && groups[k].scope == files[id].scope
        && id in Stale(groups[k]);
      StaleIsOlder(files, groups, k, id);
    }
  }

  ghost predicate IsOlderCopy(files: Files, groups: seq<Group>, id: Id) {
    exists k :: 0 <= k < |groups| && OlderIn(files, groups[k], id)
  }

  ghost predicate OlderIn(files: Files, g: Group, id: Id) {
    && |g.copies| > 0 && InGroup(files, g, id) && id != Newest(g).id
    && InGroup(files, g, Newest(g).id) && files[Newest(g).id].createdAt >= files[id].createdAt
  }

  ghost predicate KeepsNewest(before: Files, after: Files, g: Group) {
    && |g.copies| > 0 && Newest(g).id in before && Newest(g).id in after
    && after[Newest(g).id] == before[Newest(g).id]
  }

  lemma KeepsNewestIs(before: Files, after: Files, g: Group)
    requires |g.copies| > 0 && Newest(g).id in before && Newest(g).id in after
    requires after[Newest(g).id] == before[Newest(g).id]
    ensures KeepsNewest(before, after, g)
  {
  }

  lemma StaleIsOlder(files: Files, groups: seq<Group>, k: nat, id: Id)
    requires IsGrouping(files, groups) && k < |groups| && id in Stale(groups[k])
    ensures IsOlderCopy(files, groups, id)
  {
    hide Stale;
    GroupFacts(files, groups[k]);
    assert OlderIn(files, groups[k], id);
  }

  /** A second run finds no group, so it renames nothing. */
  lemma SecondRunIdle(files: Files, groups: seq<Group>)
    requires Unique(files) && IsGrouping(files, groups)
    ensures groups == [] && LiveFiles(files, groups) == files
  {
    if groups != [] { GroupHasTwo(files, groups[0]); }
  }

  lemma GroupHasTwo(files: Files, g: Group)
    requires IsGroupOf(files, g)
    ensures exists a, b :: a in files && b in files && a != b && SameKey(files, a, b)
  {
    GroupFacts(files, g);
    OrderedFacts(g);
    var a, b := Stale(g)[0], Newest(g).id;
    assert a in Stale(g);
    assert SameKey(files, a, b);
  }

  // ----- the script

  /** Result counters; `plans` holds the `renames` of every group that did not fail. */
  datatype Results = Results(duplicateGroups: nat, filesRenamed: nat, errors: nat, indexBuilt: bool,
                             plans: seq<seq<string>>)

  class FileCollection {
    var files: Files

    constructor (files: Files)
      ensures this.files == files
    {
      this.files := files;
    }

    /** `updateOne`: an id in `failing` makes the write raise. */
    method UpdateName(id: Id, to: string, failing: set<Id>) returns (ok: bool)
      modifies this
      ensures ok <==> id !in failing
      ensures files == if ok then RenameFile(old(files), id, to) else old(files)
    {
      if id in failing {
        return false;
      }
      if id in files {
        files := files[id := files[id].(filename := to)];
      }
      return true;
    }

    method PlanRenames(g: Group) returns (names: seq<string>)
      ensures names == GroupPlan(files, g)
    {
      hide NextName, SuffixFilename, NamesIn, Stale;
      var taken := NamesIn(files, g.scope);
      ghost var all := PlanNames(g.filename, |Stale(g)|, taken);
      names := [];
      var stale := Stale(g);
      for i := 0 to |stale|
        invariant |names| == i
        invariant all == names + PlanNames(g.filename, |stale| - i, taken)
      {
        var name, more := NextAvailableName(g.filename, taken);
        assert PlanNames(g.filename, |stale| - i, taken) == [name] + PlanNames(g.filename, |stale| - i - 1, more);
        names, taken := names + [name], more;
      }
    }

    method RenameStale(g: Group, names: seq<string>, failing: set<Id>) returns (ok: bool)
      requires |names| == |Stale(g)|
      modifies this
      ensures files.Keys == old(files.Keys)
      ensures ok ==> files == Apply(old(files), Stale(g), names)
      ensures ok <==> forall id :: id in Stale(g) ==> id !in failing
    {
      hide Stale;
      var stale := Stale(g);
      for i := 0 to |stale|
        invariant files.Keys == old(files.Keys)
        invariant files == Apply(old(files), stale[..i], names[..i])
        invariant forall k :: 0 <= k < i ==> stale[k] !in failing
      {
        ok := UpdateName(stale[i], names[i], failing);
        if !ok {
          assert stale[i] in stale;
          return;
        }
        assert stale[..i + 1][..i] == stale[..i] && names[..i + 1][..i] == names[..i];
      }
      assert stale[..|stale|] == stale && names[..|stale|] == names;
      ok := true;
    }

    /** `groups` is the answer of the aggregation at the start; reading the names of a group whose
        position is in `unreadable` raises, and so may building the index. */
    method Migrate(groups: seq<Group>, dryRun: bool, unreadable: set<nat>, failing: set<Id>, indexFails: bool)
      returns (results: Results)
      requires IsGrouping(files, groups)
      modifies this
      ensures files.Keys == old(files.Keys)
      ensures dryRun ==> files == old(files)
      ensures NoneRaises(groups, |groups|, dryRun, unreadable, failing) ==>
                && PlansMade(old(files), groups, |groups|, dryRun, results.plans)
                && results.filesRenamed == Total(results.plans)
                && (!dryRun ==> files == LiveFiles(old(files), groups))
      ensures results.duplicateGroups == |groups|
      ensures results.errors == 0 <==>
                NoneRaises(groups, |groups|, dryRun, unreadable, failing) && (dryRun || !indexFails)
      ensures results.indexBuilt <==> !dryRun && results.errors == 0
      ensures results.indexBuilt ==> Unique(files)
    {
      hide GroupPlan, GroupStep, Stale, Unique, IsGrouping, LiveFiles, PlansMade;
      ghost var start := files;
      var renamed: nat, errors: nat := 0, 0;
      var plans: seq<seq<string>> := [];
      NoPlansMade(start, groups, dryRun);
      for i := 0 to |groups|
        invariant files.Keys == start.Keys
        invariant dryRun ==> files == start
        invariant errors == 0 <==> NoneRaises(groups, i, dryRun, unreadable, failing)
        invariant errors == 0 ==> renamed == Total(plans) && PlansMade(start, groups, i, dryRun, plans)
        invariant !dryRun && errors == 0 ==> files == LiveFiles(start, groups[..i])
      {
        var g := groups[i];
        ghost var before := files;
        var ok := i !in unreadable;
        if ok {
          var names := PlanRenames(g);
          PlanLength(files, g);
          if !dryRun {
            ok := RenameStale(g, names, failing);
            GroupStepIs(before, g);
          }
          OneMorePlan(start, before, groups, i, dryRun, plans);
          if ok {
            TotalExtends(plans, names);
            renamed := renamed + |names|;
            plans := plans + [names];
          }
        }
        assert ok <==> !Raises(groups, i, dryRun, unreadable, failing);
        OneMoreGroup(groups, i, dryRun, unreadable, failing);
        if !ok {
          errors := errors + 1;
        }
      }
      assert groups[..|groups|] == groups;
      if !dryRun && errors == 0 { LiveRunResult(start, groups); }
      var indexBuilt := false;
      if !dryRun && errors == 0 {
        if indexFails {
          errors := 1;
        } else {
          indexBuilt := true;
        }
      }
      results := Results(|groups|, renamed, errors, indexBuilt, plans);
    }
  }

  /** Reading the names of a group raises, or in a live run one of its renames does. */
  ghost predicate Raises(groups: seq<Group>, i: nat, dryRun: bool, unreadable: set<nat>, failing: set<Id>)
    requires i < |groups|
  {
    i in unreadable || (!dryRun && exists id :: id in Stale(groups[i]) && id in failing)
  }

  ghost predicate NoneRaises(groups: seq<Group>, n: nat, dryRun: bool, unreadable: set<nat>, failing: set<Id>)
    requires n <= |groups|
  {
    forall i :: 0 <= i < n ==> !Raises(groups, i, dryRun, unreadable, failing)
  }

  lemma OneMoreGroup(groups: seq<Group>, i: nat, dryRun: bool, unreadable: set<nat>, failing: set<Id>)
    requires i < |groups|
    ensures NoneRaises(groups, i + 1, dryRun, unreadable, failing) <==>
            NoneRaises(groups, i, dryRun, unreadable, failing) && !Raises(groups, i, dryRun, unreadable, failing)
  {
  }

  /** One plan for each of the first `n` groups: made from the files at the start in a dry run, and
      from the files as earlier groups left them in a live one. */
  ghost predicate PlansMade(start: Files, groups: seq<Group>, n: nat, dryRun: bool, plans: seq<seq<string>>)
    requires n <= |groups|
  {
    |plans| == n && forall k :: 0 <= k < n ==>
      plans[k] == if dryRun then GroupPlan(start, groups[k]) else LivePlan(start, groups, k)
  }

  lemma NoPlansMade(start: Files, groups: seq<Group>, dryRun: bool)
    ensures PlansMade(start, groups, 0, dryRun, []) && LiveFiles(start, groups[..0]) == start
  {
  }

  lemma OneMorePlan(start: Files, before: Files, groups: seq<Group>, i: nat, dryRun: bool, plans: seq<seq<string>>)
    requires i < |groups|
    ensures LiveFiles(start, groups[..i + 1]) == GroupStep(LiveFiles(start, groups[..i]), groups[i])
    ensures PlansMade(start, groups, i, dryRun, plans)
            && before == (if dryRun then start else LiveFiles(start, groups[..i]))
            ==> PlansMade(start, groups, i + 1, dryRun, plans + [GroupPlan(before, groups[i])])
  {
    hide GroupPlan, GroupStep;
    assert groups[..i + 1][..i] == groups[..i];
  }

  lemma PlanLength(files: Files, g: Group)
    ensures |GroupPlan(files, g)| == |Stale(g)|
  {
  }

  lemma GroupStepIs(files: Files, g: Group)
    ensures GroupStep(files, g) == Apply(files, Stale(g), GroupPlan(files, g))
  {
  }

  /** `filesRenamed` counts the renames of all groups. */
  function Total(plans: seq<seq<string>>): nat {
    if plans == [] then 0 else Total(plans[..|plans| - 1]) + |plans[|plans| - 1]|
  }

  lemma TotalExtends(plans: seq<seq<string>>, names: seq<string>)
    ensures Total(plans + [names]) == Total(plans) + |names|
  {
    assert (plans + [names])[..|plans|] == plans;
  }
}
