/** What the passes of a tick start, and whether one job can have two tasks of one tick. */
module SchedulerLaws {
  import opened Wrappers
  import opened Jobs
  import opened Scheduler

  // ------------------------------------------------------------ which jobs a pass starts

  /** The job stands in a main step of this kind, and its time, if it has one, has come. */
  ghost predicate MayStart(job: Job, kind: JobKind, now: int) {
    && (job.nextRunAt == None || job.nextRunAt.value <= now)
    && job.kind == kind
    && (job.state == Search || job.state == Choose || job.state == Add || job.state == Monitor
        || job.state == Finalize)
  }

  /** How many jobs of a kind may run: searches and filings share one setting, adds and downloads the other, and each
      kind may always run one. */
  ghost function Slots(kind: JobKind, settings: Settings): nat {
    var setting := if kind == SearchKind || kind == FinalizeKind then settings.searchConcurrency
                   else settings.activeDownloads;
    if setting == 0 then 1 else setting
  }

  /** The slots that `busy` running jobs leave. */
  ghost function Free(pass: Pass, settings: Settings): int {
    var slots := Slots(pass.kind, settings);
    if pass.busy <= 0 then slots else if pass.busy >= slots then 0 else slots - pass.busy
  }

  /** A pass starts only jobs that may start, oldest first and each once, no more than are free; and leaves one that
      may start only when older ones, or ones as old, have taken all that is free. */
  ghost predicate StartsOldest(pass: Pass, settings: Settings) {
    && |pass.started| <= Free(pass, settings)
    && (forall i, j :: 0 <= i < j < |pass.started| ==> pass.started[i] != pass.started[j])
    && (forall i :: 0 <= i < |pass.started| ==>
          pass.started[i] in pass.table && MayStart(pass.table[pass.started[i]], pass.kind, pass.now))
    && (forall i, j :: 0 <= i < j < |pass.started| ==>
          pass.table[pass.started[i]].createdAt <= pass.table[pass.started[j]].createdAt)
    && (forall id :: id in pass.table && MayStart(pass.table[id], pass.kind, pass.now) && id !in pass.started ==>
          && |pass.started| == Free(pass, settings)
          && forall i :: 0 <= i < |pass.started| ==>
               pass.table[pass.started[i]].createdAt <= pass.table[id].createdAt)
  }

  lemma DueIffMayStart(table: map<int, Job>, now: int, kind: JobKind, id: int)
    ensures id in DueIds(table, now, {kind}) <==> id in table && MayStart(table[id], kind, now)
  {
    if id in table { assert table[id].kind in {kind} <==> table[id].kind == kind; }
  }

  lemma PassStartsOldest(pass: Pass, settings: Settings)
    requires PassIsDue(pass, settings)
    ensures StartsOldest(pass, settings)
  {
    hide DueIds, IsDue, MayStart;
    assert pass.room == Free(pass, settings);
    forall id ensures id in DueIds(pass.table, pass.now, {pass.kind}) <==>
                      id in pass.table && MayStart(pass.table[id], pass.kind, pass.now)
    {
      DueIffMayStart(pass.table, pass.now, pass.kind, id);
    }
  }

  /** So does every pass of a tick. */
  lemma TickStartsOldest(before: Records, after: Records, passes: seq<Pass>, settings: Settings, p: nat)
    requires PassesRan(before, after, passes, settings) && p < |passes|
    ensures StartsOldest(passes[p], settings)
  {
    PassStartsOldest(passes[p], settings);
  }

  lemma {:induction false} DistinctFit(picked: seq<int>, ids: set<int>)
    requires forall i, j :: 0 <= i < j < |picked| ==> picked[i] != picked[j]
    requires forall i :: 0 <= i < |picked| ==> picked[i] in ids
    ensures |picked| <= |ids|
  {
    if picked != [] { DistinctFit(picked[1..], ids - {picked[0]}); }
  }

  /** A job that may start does, where no more jobs are in the table than are free. */
  lemma StartsWithRoom(pass: Pass, settings: Settings, id: int)
    requires PassIsDue(pass, settings) && |pass.table| <= Free(pass, settings)
    requires id in pass.table && MayStart(pass.table[id], pass.kind, pass.now)
    ensures id in pass.started
  {
    PassStartsOldest(pass, settings);
    hide MayStart, PassIsDue;
    assert |pass.table.Keys| == |pass.table|;
    if id !in pass.started { DistinctFit(pass.started, pass.table.Keys - {id}); }
  }

  /** A postponed job waits: no pass before its time starts it, over the table that the postponement left; a pass
      from that time on does, or finds all that is free taken by jobs no younger. */
  lemma PostponedUntilItsTime(db: Db, at: int, id: int, when: int, reason: string, pass: Pass, settings: Settings)
    requires id in db.jobs && PassIsDue(pass, settings)
    requires pass.table == Jobs.Apply(db, Postpone(at, id, when, reason)).jobs
    ensures pass.now < when ==> id !in pass.started
    ensures when <= pass.now && MayStart(db.jobs[id].(nextRunAt := None), pass.kind, 0) ==>
              || id in pass.started
              || (|pass.started| == Free(pass, settings)
                  && forall x :: x in pass.started ==> pass.table[x].createdAt <= db.jobs[id].createdAt)
    ensures when <= pass.now && MayStart(db.jobs[id].(nextRunAt := None), pass.kind, 0)
              && |pass.table| <= Free(pass, settings) ==>
              id in pass.started
  {
    PassStartsOldest(pass, settings);
    hide PassIsDue, Free;
    assert pass.table[id] == db.jobs[id].(nextRunAt := Some(when), lastError := Some(reason), updatedAt := at);
    if when <= pass.now && MayStart(db.jobs[id].(nextRunAt := None), pass.kind, 0) && id !in pass.started {
      assert MayStart(pass.table[id], pass.kind, pass.now);
      forall x | x in pass.started ensures pass.table[x].createdAt <= db.jobs[id].createdAt {
        var i :| 0 <= i < |pass.started| && pass.started[i] == x;
      }
      if |pass.table| <= Free(pass, settings) { StartsWithRoom(pass, settings, id); }
    }
  }

  /** A parked job, and one that asks, has failed or is done, is never started. */
  lemma SideStatesNeverStart(pass: Pass, settings: Settings, id: int)
    requires PassIsDue(pass, settings) && id in pass.started
    ensures id in pass.table && pass.table[id].state != Blocked && pass.table[id].state != NeedsInput
    ensures pass.table[id].state != Failed && pass.table[id].state != Done
  {
    PassStartsOldest(pass, settings);
    var i :| 0 <= i < |pass.started| && pass.started[i] == id;
  }

  // ------------------------------------------------------------ one job, two tasks

  ghost predicate StartedTwice(spawned: seq<Task>, job: int) {
    exists a, b :: 0 <= a < b < |spawned| && spawned[a].job == job && spawned[b].job == job
  }

  ghost predicate Takes(pass: Pass, job: int) {
    job in pass.started
  }

  ghost predicate TakenTwice(passes: seq<Pass>, job: int) {
    exists p, q :: 0 <= p < q < |passes| && Takes(passes[p], job) && Takes(passes[q], job)
  }

  ghost predicate AllDue(passes: seq<Pass>, settings: Settings) {
    forall p :: 0 <= p < |passes| ==> PassIsDue(passes[p], settings)
  }

  /** How many tasks the first `p` passes spawn. */
  ghost function TasksBefore(first: nat, passes: seq<Pass>, p: nat): nat
    requires p <= |passes|
  {
    |AllTasks(first, passes[..p])|
  }

  lemma TasksBeforeNext(first: nat, passes: seq<Pass>, p: nat)
    requires p < |passes|
    ensures TasksBefore(first, passes, p + 1) == TasksBefore(first, passes, p) + |passes[p].started|
  {
    assert passes[..p + 1][..p] == passes[..p];
  }

  lemma {:induction false} TasksBeforeGrows(first: nat, passes: seq<Pass>, p: nat, q: nat)
    requires p < q <= |passes|
    ensures TasksBefore(first, passes, p) + |passes[p].started| <= TasksBefore(first, passes, q)
    decreases q
  {
    TasksBeforeNext(first, passes, q - 1);
    if p < q - 1 { TasksBeforeGrows(first, passes, p, q - 1); }
  }

  /** The task of a started job. */
  lemma {:induction false} TaskOfStart(first: nat, passes: seq<Pass>, p: nat, i: nat)
    requires p < |passes| && i < |passes[p].started|
    ensures TasksBefore(first, passes, p) + i < |AllTasks(first, passes)|
    ensures AllTasks(first, passes)[TasksBefore(first, passes, p) + i].job == passes[p].started[i]
    decreases |passes|
  {
    var n := |passes| - 1;
    if p < n {
      TaskOfStart(first, passes[..n], p, i);
      assert passes[..n][..p] == passes[..p];
    }
  }

  /** The start of a task. */
  lemma {:induction false} StartOfTask(first: nat, passes: seq<Pass>, a: nat) returns (p: nat, i: nat)
    requires a < |AllTasks(first, passes)|
    ensures p < |passes| && i < |passes[p].started| && a == TasksBefore(first, passes, p) + i
    ensures AllTasks(first, passes)[a].job == passes[p].started[i]
    decreases |passes|
  {
    var n := |passes| - 1;
    var front := AllTasks(first, passes[..n]);
    if a < |front| {
      p, i := StartOfTask(first, passes[..n], a);
      assert passes[..n][..p] == passes[..p];
    } else {
      p, i := n, a - |front|;
    }
  }

  /** A tick starts two tasks for a job exactly when two of its passes take the job. */
  lemma StartedTwiceIffTakenTwice(first: nat, passes: seq<Pass>, settings: Settings, job: int)
    requires AllDue(passes, settings)
    ensures StartedTwice(AllTasks(first, passes), job) <==> TakenTwice(passes, job)
  {
    hide PassIsDue;
    var tasks := AllTasks(first, passes);
    if StartedTwice(tasks, job) {
      var a, b :| 0 <= a < b < |tasks| && tasks[a].job == job && tasks[b].job == job;
      var p, i := StartOfTask(first, passes, a);
      var q, j := StartOfTask(first, passes, b);
      assert PassIsDue(passes[p], settings);
      if p == q { NeverTwiceInAPass(passes[p], settings, i, j); }
      if q < p { TasksBeforeGrows(first, passes, q, p); }
      assert Takes(passes[p], job) && Takes(passes[q], job);
    }
    if TakenTwice(passes, job) {
      var p, q :| 0 <= p < q < |passes| && Takes(passes[p], job) && Takes(passes[q], job);
      var i :| 0 <= i < |passes[p].started| && passes[p].started[i] == job;
      var j :| 0 <= j < |passes[q].started| && passes[q].started[j] == job;
      TaskOfStart(first, passes, p, i);
      TaskOfStart(first, passes, q, j);
      TasksBeforeGrows(first, passes, p, q);
    }
  }

  lemma NeverTwiceInAPass(pass: Pass, settings: Settings, i: nat, j: nat)
    requires PassIsDue(pass, settings) && i < |pass.started| && j < |pass.started| && i != j
    ensures pass.started[i] != pass.started[j]
  {
  }

  ghost predicate KindsDiffer(passes: seq<Pass>) {
    forall p, q :: 0 <= p < q < |passes| ==> passes[p].kind != passes[q].kind
  }

  /** A pass takes a job under its own kind only. */
  lemma TakenUnderItsKind(pass: Pass, settings: Settings, job: int)
    requires PassIsDue(pass, settings) && Takes(pass, job)
    ensures job in pass.table && pass.table[job].kind == pass.kind && pass.table[job].state.IsActive()
  {
    var i :| 0 <= i < |pass.started| && pass.started[i] == job;
    DueMeansMainStep(pass.table, pass.now, pass.kind, pass.started, pass.room, i);
  }

  /** After a settled tick, a job has two tasks of the next one exactly when two passes take it, and that
      only when its kind changes between the tables they read. */
  lemma TwoTasksMeanKindChanged(before: Records, after: Records, passes: seq<Pass>, settings: Settings, job: int)
    requires PassesRan(before, after, passes, settings) && before.spawned == [] && KindsDiffer(passes)
    ensures StartedTwice(after.spawned, job) <==> TakenTwice(passes, job)
    ensures StartedTwice(after.spawned, job) ==>
              exists p, q :: 0 <= p < q < |passes| && KindChanges(passes[p], passes[q], job)
  {
    hide PassIsDue, AllTasks, Skeleton, Within;
    assert after.spawned == AllTasks(before.nextId, passes);
    StartedTwiceIffTakenTwice(before.nextId, passes, settings, job);
    if TakenTwice(passes, job) {
      var p, q :| 0 <= p < q < |passes| && Takes(passes[p], job) && Takes(passes[q], job);
      TakenUnderItsKind(passes[p], settings, job);
      TakenUnderItsKind(passes[q], settings, job);
      assert KindChanges(passes[p], passes[q], job);
    }
  }

  ghost predicate KindChanges(earlier: Pass, later: Pass, job: int) {
    job in earlier.table && job in later.table && earlier.table[job].kind != later.table[job].kind
  }

  // ------------------------------------------------------------ it happens

  ghost function AfterMove(chosen: Job, now: int): map<int, Job> {
    Transitioned(Db(map[1 := chosen], [], [], 2), now, 1, Add, "chosen", PLAIN).0.jobs
  }

  lemma MovedOn(chosen: Job, now: int)
    requires chosen.state == Choose
    ensures var moved := AfterMove(chosen, now);
            moved.Keys == {1} && moved[1].state == Add && moved[1].kind == AddKind && moved[1].nextRunAt == None
  {
  }

  /** The pass of a kind over a table with one due job, when nothing of the kind runs. */
  ghost function OnePass(table: map<int, Job>, now: int, kind: JobKind, settings: Settings): Pass {
    Pass(kind, table, now, 0, LimitFor(kind, settings), if 1 in table && table[1].kind == kind then [1] else [])
  }

  /** A job that chooses while the search pass starts it and is moved to add before the add pass reads. */
  ghost function Handover(chosen: Job, now: int, settings: Settings): seq<Pass> {
    var moved := AfterMove(chosen, now);
    [
      OnePass(map[1 := chosen], now, SearchKind, settings),
      OnePass(moved, now, AddKind, settings),
      OnePass(moved, now, MonitorKind, settings),
      OnePass(moved, now, FinalizeKind, settings)
    ]
  }

  /** The records after a pass over such a table. */
  ghost function RanAlone(before: Records, pass: Pass): Records {
    Records(before.marks + NewMarks(pass), before.spawned + Tasks(before.nextId, pass.started, pass.kind),
            before.nextId + |pass.started|)
  }

  ghost function NewMarks(pass: Pass): seq<Mark> {
    [Looked(pass.kind, 0)] + if pass.started == [] then [] else [Started(1, pass.kind, 1)]
  }

  lemma MarksAlone(pass: Pass, settings: Settings)
    requires pass.busy == 0 && (pass.started == [] || pass.started == [1])
    ensures Skeleton(NewMarks(pass)) == PassMarks(pass) && Within(NewMarks(pass), settings)
  {
    var look, start := Looked(pass.kind, 0), Started(1, pass.kind, 1);
    SkeletonOne(look);
    SkeletonOne(start);
    SkeletonConcat([look], [start]);
    hide Skeleton;
    assert NewMarks(pass) == if pass.started == [] then [look] else [look] + [start];
  }

  lemma RanAloneRan(before: Records, pass: Pass, settings: Settings)
    requires PassIsDue(pass, settings) && pass.busy == 0 && (pass.started == [] || pass.started == [1])
    ensures PassRan(before, RanAlone(before, pass), pass, settings)
  {
    hide PassIsDue, Skeleton, Within, PassMarks, NewMarks;
    MarksAlone(pass, settings);
    assert Since(before, RanAlone(before, pass)) == NewMarks(pass);
  }

  /** The records after a whole tick of such passes. */
  ghost function RanAll(start: Records, passes: seq<Pass>): Records {
    if passes == [] then start
    else RanAlone(RanAll(start, passes[..|passes| - 1]), passes[|passes| - 1])
  }

  lemma {:induction false} RanAllRan(start: Records, passes: seq<Pass>, settings: Settings)
    requires AllDue(passes, settings)
    requires forall p :: 0 <= p < |passes| ==>
               passes[p].busy == 0 && (passes[p].started == [] || passes[p].started == [1])
    ensures PassesRan(start, RanAll(start, passes), passes, settings)
  {
    hide PassIsDue, PassRan, PassesRan, RanAlone;
    if passes == [] {
      NoPassYet(start, settings);
    } else {
      var n := |passes| - 1;
      RanAllRan(start, passes[..n], settings);
      var mid := RanAll(start, passes[..n]);
      RanAloneRan(mid, passes[n], settings);
      PassNext(start, mid, RanAll(start, passes), passes[..n], passes[n], settings);
      assert passes == passes[..n] + [passes[n]];
    }
  }

  /** One tick then starts it twice: its records grow as those of a tick do, no task left from before. */
  lemma HandoverStartsTwice(chosen: Job, now: int, settings: Settings)
    requires chosen.state == Choose && chosen.kind == SearchKind && chosen.nextRunAt == None
    ensures var passes, start := Handover(chosen, now, settings), Records([], [], 0);
            && KindsDiffer(passes) && PassesRan(start, RanAll(start, passes), passes, settings)
            && StartedTwice(RanAll(start, passes).spawned, 1)
  {
    hide AfterMove, AllTasks, StartedTwice, PassIsDue, LimitFor, RanAll, PassesRan;
    var passes, start := Handover(chosen, now, settings), Records([], [], 0);
    HandoverIsDue(chosen, now, settings);
    RanAllRan(start, passes, settings);
    assert Takes(passes[0], 1) && Takes(passes[1], 1);
    TwoTasksMeanKindChanged(start, RanAll(start, passes), passes, settings, 1);
  }

  lemma HandoverIsDue(chosen: Job, now: int, settings: Settings)
    requires chosen.state == Choose && chosen.kind == SearchKind && chosen.nextRunAt == None
    ensures AllDue(Handover(chosen, now, settings), settings)
    ensures Handover(chosen, now, settings)[1].started == [1]
  {
    hide AfterMove, PassIsDue, LimitFor;
    MovedOn(chosen, now);
    PassOfOne(map[1 := chosen], now, SearchKind, settings);
    forall kind ensures PassIsDue(OnePass(AfterMove(chosen, now), now, kind, settings), settings) {
      PassOfOne(AfterMove(chosen, now), now, kind, settings);
    }
  }

  lemma PassOfOne(table: map<int, Job>, now: int, kind: JobKind, settings: Settings)
    requires table.Keys == {1} && table[1].state.IsActive() && table[1].nextRunAt == None
    ensures PassIsDue(OnePass(table, now, kind, settings), settings)
  {
  }
}
