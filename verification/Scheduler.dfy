/** The queue scheduler: per-kind concurrency counters against tasks that finish at any moment,
    which due jobs a tick starts, and the resumption of parked jobs. */
module Scheduler {
  import opened Wrappers
  import opened Jobs
  import opened Sets

  datatype Settings = Settings(automationOn: bool, searchConcurrency: nat, activeDownloads: nat)

  function LimitFor(kind: JobKind, settings: Settings): nat {
    var limit := match kind
      case SearchKind => settings.searchConcurrency
      case FinalizeKind => settings.searchConcurrency
      case AddKind => settings.activeDownloads
      case MonitorKind => settings.activeDownloads;
    if limit < 1 then 1 else limit
  }

  // ------------------------------------------------------------ due jobs

  predicate IsDue(job: Job, now: int, kinds: set<JobKind>) {
    && (job.nextRunAt.None? || job.nextRunAt.value <= now)
    && (kinds == {} || job.kind in kinds)
    && !job.state.Blocked? && !job.state.NeedsInput? && !job.state.Failed? && !job.state.Done?
  }

  function DueIds(table: map<int, Job>, now: int, kinds: set<JobKind>): set<int> {
    set id | id in table && IsDue(table[id], now, kinds)
  }

  /** The oldest due jobs, in order of age, as many as fit. Ties may come in any order. */
  ghost predicate OldestDue(table: map<int, Job>, now: int, kinds: set<JobKind>, limit: nat, picked: seq<int>) {
    && (forall i, j :: 0 <= i < j < |picked| ==> picked[i] != picked[j])
    && (forall i :: 0 <= i < |picked| ==> picked[i] in DueIds(table, now, kinds))
    && |picked| <= limit
    && (forall i, j :: 0 <= i < j < |picked| ==> table[picked[i]].createdAt <= table[picked[j]].createdAt)
    && (forall id, i :: id in DueIds(table, now, kinds) && id !in picked && 0 <= i < |picked| ==>
          table[picked[i]].createdAt <= table[id].createdAt)
    && (|picked| < limit ==> forall id :: id in DueIds(table, now, kinds) ==> id in picked)
  }

  /** Only main steps of the kind's own budget are ever due. */
  lemma DueMeansMainStep(table: map<int, Job>, now: int, kind: JobKind, due: seq<int>, limit: nat, i: nat)
    requires OldestDue(table, now, {kind}, limit, due) && i < |due|
    ensures due[i] in table && table[due[i]].state.IsActive() && table[due[i]].kind == kind
  {
    assert due[i] in DueIds(table, now, {kind});
    assert kind in {kind};
    assert IsDue(table[due[i]], now, {kind});
  }

  /** Some oldest member of a nonempty set of rows. */
  method Oldest(table: map<int, Job>, ids: set<int>) returns (oldest: int)
    requires ids != {} && ids <= table.Keys
    ensures oldest in ids && forall id :: id in ids ==> table[oldest].createdAt <= table[id].createdAt
  {
    HasElement(ids);
    oldest :| oldest in ids;
    var todo := ids - {oldest};
    while todo != {}
      invariant todo <= ids && oldest in ids
      invariant forall id :: id in ids && id !in todo ==> table[oldest].createdAt <= table[id].createdAt
    {
      HasElement(todo);
      var id :| id in todo;
      todo := todo - {id};
      if table[id].createdAt < table[oldest].createdAt { oldest := id; }
    }
  }

  /** The oldest due jobs so far, with the rest still waiting. */
  ghost predicate PickedSoFar(table: map<int, Job>, due: set<int>, limit: nat, picked: seq<int>, waiting: set<int>) {
    && due <= table.Keys && waiting == due - (set id | id in picked) && |picked| <= limit
    && (forall i, j :: 0 <= i < j < |picked| ==> picked[i] != picked[j])
    && (forall i :: 0 <= i < |picked| ==> picked[i] in due)
    && (forall i, j :: 0 <= i < j < |picked| ==> table[picked[i]].createdAt <= table[picked[j]].createdAt)
    && (forall id, i :: id in waiting && 0 <= i < |picked| ==> table[picked[i]].createdAt <= table[id].createdAt)
  }

  lemma PickNext(table: map<int, Job>, due: set<int>, limit: nat, picked: seq<int>, waiting: set<int>, id: int)
    requires PickedSoFar(table, due, limit, picked, waiting) && |picked| < limit
    requires id in waiting && forall x :: x in waiting ==> table[id].createdAt <= table[x].createdAt
    ensures PickedSoFar(table, due, limit, picked + [id], waiting - {id})
  {
    assert forall i :: 0 <= i < |picked| ==> picked[i] != id;
  }

  lemma PickDone(table: map<int, Job>, now: int, kinds: set<JobKind>, limit: nat, picked: seq<int>, waiting: set<int>)
    requires PickedSoFar(table, DueIds(table, now, kinds), limit, picked, waiting)
    requires waiting == {} || |picked| == limit
    ensures OldestDue(table, now, kinds, limit, picked)
  {
    forall id | id in DueIds(table, now, kinds) && id !in picked ensures id in waiting {
    }
  }

  /** `due_jobs`: the rows come out oldest first until the limit. */
  method DueJobs(table: map<int, Job>, now: int, kinds: set<JobKind>, limit: nat) returns (picked: seq<int>)
    ensures OldestDue(table, now, kinds, limit, picked)
  {
    picked := [];
    var waiting := DueIds(table, now, kinds);
    while waiting != {} && |picked| < limit
      invariant PickedSoFar(table, DueIds(table, now, kinds), limit, picked, waiting)
    {
      var id := Oldest(table, waiting);
      PickNext(table, DueIds(table, now, kinds), limit, picked, waiting, id);
      waiting := waiting - {id};
      picked := picked + [id];
    }
    PickDone(table, now, kinds, limit, picked, waiting);
  }

  // ------------------------------------------------------------ counters and tasks

  datatype Task = Task(id: nat, job: int, kind: JobKind)

  function CountOf(inFlight: map<JobKind, nat>, kind: JobKind): nat {
    if kind in inFlight then inFlight[kind] else 0
  }

  /** Live tasks started for a kind. */
  ghost function LiveCount(spawned: seq<Task>, finished: set<nat>, kind: JobKind): nat {
    if spawned == [] then 0
    else
      var last := spawned[|spawned| - 1];
      LiveCount(spawned[..|spawned| - 1], finished, kind) + if last.id !in finished && last.kind == kind then 1 else 0
  }

  ghost predicate DistinctTasks(spawned: seq<Task>, nextId: nat) {
    && (forall i, j :: 0 <= i < j < |spawned| ==> spawned[i].id != spawned[j].id)
    && (forall i :: 0 <= i < |spawned| ==> spawned[i].id < nextId)
  }

  lemma {:induction false} OthersUnaffected(spawned: seq<Task>, finished: set<nat>, id: nat, kind: JobKind)
    requires forall i :: 0 <= i < |spawned| ==> spawned[i].id != id
    ensures LiveCount(spawned, finished + {id}, kind) == LiveCount(spawned, finished, kind)
  {
    if spawned != [] { OthersUnaffected(spawned[..|spawned| - 1], finished, id, kind); }
  }

  lemma {:induction false} FinishOne(spawned: seq<Task>, finished: set<nat>, k: nat, nextId: nat, kind: JobKind)
    requires DistinctTasks(spawned, nextId) && k < |spawned| && spawned[k].id !in finished
    ensures LiveCount(spawned, finished, kind) ==
            LiveCount(spawned, finished + {spawned[k].id}, kind) + if spawned[k].kind == kind then 1 else 0
    decreases |spawned|
  {
    var n := |spawned| - 1;
    if k == n {
      OthersUnaffected(spawned[..n], finished, spawned[k].id, kind);
    } else {
      FinishOne(spawned[..n], finished, k, nextId, kind);
    }
  }

  lemma {:induction false} NoneLive(spawned: seq<Task>, finished: set<nat>, kind: JobKind)
    requires forall i :: 0 <= i < |spawned| ==> spawned[i].id in finished
    ensures LiveCount(spawned, finished, kind) == 0
  {
    if spawned != [] { NoneLive(spawned[..|spawned| - 1], finished, kind); }
  }

  lemma AddOne(spawned: seq<Task>, finished: set<nat>, task: Task, kind: JobKind)
    ensures LiveCount(spawned + [task], finished, kind) ==
            LiveCount(spawned, finished, kind) + if task.id !in finished && task.kind == kind then 1 else 0
  {
    assert (spawned + [task])[..|spawned|] == spawned;
  }

  lemma StillDistinct(spawned: seq<Task>, task: Task, nextId: nat)
    requires DistinctTasks(spawned, nextId) && task.id == nextId
    ensures DistinctTasks(spawned + [task], nextId + 1)
  {
  }

  /** The tasks of a list that have not run to their end, in order. */
  function Live(spawned: seq<Task>, finished: set<nat>): seq<Task> {
    if spawned == [] then []
    else
      var last := spawned[|spawned| - 1];
      Live(spawned[..|spawned| - 1], finished) + if last.id in finished then [] else [last]
  }

  lemma {:induction false} LiveDistinct(spawned: seq<Task>, finished: set<nat>, nextId: nat)
    requires DistinctTasks(spawned, nextId)
    ensures DistinctTasks(Live(spawned, finished), nextId)
    ensures forall i :: 0 <= i < |Live(spawned, finished)| ==>
              Live(spawned, finished)[i] in spawned && Live(spawned, finished)[i].id !in finished
    decreases |spawned|
  {
    if spawned != [] {
      var n := |spawned| - 1;
      var last, front := spawned[n], Live(spawned[..n], finished);
      LiveDistinct(spawned[..n], finished, nextId);
      assert spawned == spawned[..n] + [last];
      forall i | 0 <= i < |front| ensures front[i].id != last.id {
        var j :| 0 <= j < n && spawned[..n][j] == front[i];
      }
    }
  }

  lemma {:induction false} LiveCounts(spawned: seq<Task>, finished: set<nat>, kind: JobKind)
    ensures LiveCount(Live(spawned, finished), finished, kind) == LiveCount(spawned, finished, kind)
    decreases |spawned|
  {
    if spawned != [] {
      var n := |spawned| - 1;
      var last, front := spawned[n], Live(spawned[..n], finished);
      LiveCounts(spawned[..n], finished, kind);
      if last.id in finished { assert front + [] == front; } else { AddOne(front, finished, last, kind); }
    }
  }

  /** What happens at the counters, with the counter of its kind right after each event: a look, a start, a
      task's end. */
  datatype Mark =
    | Looked(kind: JobKind, running: int)
    | Started(job: int, kind: JobKind, running: int)
    | Finished(kind: JobKind, running: int)

  /** Starts less ends of a kind. */
  ghost function Balance(marks: seq<Mark>, kind: JobKind): int {
    if marks == [] then 0
    else
      var last := marks[|marks| - 1];
      Balance(marks[..|marks| - 1], kind)
      + if last.kind != kind then 0 else if last.Started? then 1 else if last.Finished? then -1 else 0
  }

  /** Every mark carries the true count. */
  ghost predicate Counted(marks: seq<Mark>) {
    forall i :: 0 <= i < |marks| ==> marks[i].running == Balance(marks[..i + 1], marks[i].kind)
  }

  lemma MarkNext(marks: seq<Mark>, mark: Mark)
    ensures forall kind :: Balance(marks + [mark], kind) ==
              Balance(marks, kind)
              + if mark.kind != kind then 0 else if mark.Started? then 1 else if mark.Finished? then -1 else 0
    ensures Counted(marks) && mark.running == Balance(marks + [mark], mark.kind) ==> Counted(marks + [mark])
  {
    var all := marks + [mark];
    assert all[..|marks|] == marks;
    if Counted(marks) && mark.running == Balance(all, mark.kind) {
      forall i | 0 <= i < |all| ensures all[i].running == Balance(all[..i + 1], all[i].kind) {
        if i < |marks| { assert all[..i + 1] == marks[..i + 1]; } else { assert all[..i + 1] == all; }
      }
    }
  }

  /** The looks and starts, in order, without the counts of the starts. */
  ghost function Skeleton(marks: seq<Mark>): seq<Mark> {
    if marks == [] then []
    else
      Skeleton(marks[..|marks| - 1])
      + match marks[|marks| - 1]
        case Looked(kind, running) => [Looked(kind, running)]
        case Started(job, kind, _) => [Started(job, kind, 0)]
        case Finished(_, _) => []
  }

  lemma {:induction false} SkeletonConcat(a: seq<Mark>, b: seq<Mark>)
    ensures Skeleton(a + b) == Skeleton(a) + Skeleton(b)
    decreases |b|
  {
    if b == [] {
      assert a + b == a;
    } else {
      SkeletonConcat(a, b[..|b| - 1]);
      assert (a + b)[..|a + b| - 1] == a + b[..|b| - 1];
    }
  }

  lemma SkeletonOne(mark: Mark)
    ensures Skeleton([mark]) ==
            match mark
            case Looked(kind, running) => [Looked(kind, running)]
            case Started(job, kind, _) => [Started(job, kind, 0)]
            case Finished(_, _) => []
  {
    assert [mark][..0] == [];
  }

  lemma {:induction false} OnlyEnds(marks: seq<Mark>)
    requires forall i :: 0 <= i < |marks| ==> marks[i].Finished?
    ensures Skeleton(marks) == []
  {
    if marks != [] { OnlyEnds(marks[..|marks| - 1]); }
  }

  /** No start takes the counter of its kind above that kind's limit. */
  ghost predicate Within(marks: seq<Mark>, settings: Settings) {
    forall i :: 0 <= i < |marks| && marks[i].Started? ==> marks[i].running <= LimitFor(marks[i].kind, settings)
  }

  /** What each kind's pass of a tick read and started. */
  datatype Pass = Pass(kind: JobKind, table: map<int, Job>, now: int, busy: int, room: nat, started: seq<int>)

  function Room(limit: nat, busy: int): nat {
    if limit > busy then limit - (if busy < 0 then 0 else busy) else 0
  }

  ghost function PassMarks(pass: Pass): seq<Mark> {
    [Looked(pass.kind, pass.busy)] + StartMarks(pass.kind, pass.started)
  }

  ghost function StartMarks(kind: JobKind, jobs: seq<int>): seq<Mark> {
    seq(|jobs|, i requires 0 <= i < |jobs| => Started(jobs[i], kind, 0))
  }

  function Tasks(first: nat, jobs: seq<int>, kind: JobKind): seq<Task> {
    seq(|jobs|, i requires 0 <= i < |jobs| => Task(first + i, jobs[i], kind))
  }

  /** The records of a scheduler: its marks, its tasks, its next task number. */
  datatype Records = Records(marks: seq<Mark>, spawned: seq<Task>, nextId: nat)

  ghost function Since(before: Records, after: Records): seq<Mark> {
    if |before.marks| <= |after.marks| then after.marks[|before.marks|..] else []
  }

  /** A pass fills exactly the room that the counter leaves with the oldest due jobs, and nothing else is
      started meanwhile. */
  ghost predicate PassRan(before: Records, after: Records, pass: Pass, settings: Settings) {
    && before.marks <= after.marks
    && Skeleton(Since(before, after)) == PassMarks(pass) && Within(Since(before, after), settings)
    && after.spawned == before.spawned + Tasks(before.nextId, pass.started, pass.kind)
    && after.nextId == before.nextId + |pass.started|
    && PassIsDue(pass, settings)
  }

  ghost predicate PassIsDue(pass: Pass, settings: Settings) {
    && pass.room == Room(LimitFor(pass.kind, settings), pass.busy)
    && OldestDue(pass.table, pass.now, {pass.kind}, pass.room, pass.started)
  }

  ghost function AllMarks(passes: seq<Pass>): seq<Mark> {
    if passes == [] then [] else AllMarks(passes[..|passes| - 1]) + PassMarks(passes[|passes| - 1])
  }

  ghost function AllTasks(first: nat, passes: seq<Pass>): seq<Task> {
    if passes == [] then []
    else
      var front, last := passes[..|passes| - 1], passes[|passes| - 1];
      AllTasks(first, front) + Tasks(first + |AllTasks(first, front)|, last.started, last.kind)
  }

  /** Several passes in a row. */
  ghost predicate PassesRan(before: Records, after: Records, passes: seq<Pass>, settings: Settings) {
    && before.marks <= after.marks
    && Skeleton(Since(before, after)) == AllMarks(passes) && Within(Since(before, after), settings)
    && after.spawned == before.spawned + AllTasks(before.nextId, passes)
    && after.nextId == before.nextId + |AllTasks(before.nextId, passes)|
    && forall p :: 0 <= p < |passes| ==> PassIsDue(passes[p], settings)
  }

  lemma NoPassYet(before: Records, settings: Settings)
    ensures PassesRan(before, before, [], settings)
  {
  }

  lemma WithinConcat(a: seq<Mark>, b: seq<Mark>, settings: Settings)
    requires Within(a, settings) && Within(b, settings)
    ensures Within(a + b, settings)
  {
  }

  lemma AllNext(first: nat, passes: seq<Pass>, pass: Pass)
    ensures AllMarks(passes + [pass]) == AllMarks(passes) + PassMarks(pass)
    ensures AllTasks(first, passes + [pass]) ==
            AllTasks(first, passes) + Tasks(first + |AllTasks(first, passes)|, pass.started, pass.kind)
  {
    assert (passes + [pass])[..|passes|] == passes;
  }

  lemma SinceConcat(before: Records, mid: Records, after: Records)
    requires before.marks <= mid.marks <= after.marks
    ensures Since(before, after) == Since(before, mid) + Since(mid, after)
  {
    var n := |mid.marks|;
    assert mid.marks == after.marks[..n];
    assert after.marks == mid.marks + after.marks[n..];
  }

  lemma PassNext(before: Records, mid: Records, after: Records, passes: seq<Pass>, pass: Pass, settings: Settings)
    requires PassesRan(before, mid, passes, settings) && PassRan(mid, after, pass, settings)
    ensures PassesRan(before, after, passes + [pass], settings)
  {
    hide PassIsDue, PassMarks, LimitFor, Tasks, AllMarks, AllTasks, Skeleton, Within, Since;
    SinceConcat(before, mid, after);
    SkeletonConcat(Since(before, mid), Since(mid, after));
    WithinConcat(Since(before, mid), Since(mid, after), settings);
    AllNext(before.nextId, passes, pass);
    TaskCount(mid.nextId, pass.started, pass.kind);
  }

  lemma TaskCount(first: nat, jobs: seq<int>, kind: JobKind)
    ensures |Tasks(first, jobs, kind)| == |jobs|
  {
  }

  class Scheduler {
    var inFlight: map<JobKind, nat>
    var spawned: seq<Task>
    /** Tasks whose body has run to its end. */
    var finished: set<nat>
    var nextId: nat
    ghost var marks: seq<Mark>

    /** The counter of every kind is the number of its live tasks, and the marks tell how it got there. */
    ghost predicate Valid()
      reads this
    {
      && DistinctTasks(spawned, nextId)
      && (forall id :: id in finished ==> id < nextId)
      && (forall kind :: CountOf(inFlight, kind) == LiveCount(spawned, finished, kind))
      && (forall kind :: CountOf(inFlight, kind) == Balance(marks, kind))
      && Counted(marks)
    }

    ghost function Now(): Records
      reads this
    {
      Records(marks, spawned, nextId)
    }

    constructor ()
      ensures Valid() && spawned == [] && marks == []
    {
      inFlight, spawned, finished, nextId := map[], [], {}, 0;
      marks := [];
    }

    /** `in_flight`. */
    method InFlight(kind: JobKind) returns (running: nat)
      requires Valid()
      modifies this`marks
      ensures Valid() && running == CountOf(inFlight, kind) && marks == old(marks) + [Looked(kind, running)]
    {
      running := CountOf(inFlight, kind);
      MarkNext(marks, Looked(kind, running));
      marks := marks + [Looked(kind, running)];
    }

    /** A task runs to its end, at any moment: its kind's counter goes down by one. */
    method Complete(k: nat)
      requires Valid() && k < |spawned| && spawned[k].id !in finished
      modifies this
      ensures Valid() && spawned == old(spawned) && nextId == old(nextId)
      ensures finished == old(finished) + {old(spawned[k].id)}
      ensures marks == old(marks) + [Finished(old(spawned[k].kind), CountOf(inFlight, old(spawned[k].kind)))]
      ensures forall kind :: CountOf(inFlight, kind) ==
                CountOf(old(inFlight), kind) - if kind == old(spawned[k].kind) then 1 else 0
    {
      hide LiveCount, Balance, Counted;
      var kind := spawned[k].kind;
      forall other ensures LiveCount(spawned, finished, other) ==
                           LiveCount(spawned, finished + {spawned[k].id}, other) + if kind == other then 1 else 0
      {
        FinishOne(spawned, finished, k, nextId, other);
      }
      if kind in inFlight {
        inFlight := inFlight[kind := if inFlight[kind] > 0 then inFlight[kind] - 1 else 0];
      }
      finished := finished + {spawned[k].id};
      MarkNext(marks, Finished(kind, CountOf(inFlight, kind)));
      marks := marks + [Finished(kind, CountOf(inFlight, kind))];
    }

    /** Any of the named tasks that are live complete, in any order. */
    method Interfere(ids: seq<nat>)
      requires Valid()
      modifies this
      ensures Valid() && spawned == old(spawned) && nextId == old(nextId)
      ensures forall kind :: CountOf(inFlight, kind) <= CountOf(old(inFlight), kind)
      ensures old(marks) <= marks && forall i :: |old(marks)| <= i < |marks| ==> marks[i].Finished?
    {
      for i := 0 to |ids|
        invariant Valid() && spawned == old(spawned) && nextId == old(nextId)
        invariant forall kind :: CountOf(inFlight, kind) <= CountOf(old(inFlight), kind)
        invariant old(marks) <= marks && forall j :: |old(marks)| <= j < |marks| ==> marks[j].Finished?
      {
        var k := 0;
        while k < |spawned| && spawned[k].id != ids[i] { k := k + 1; }
        if k < |spawned| && spawned[k].id !in finished { Complete(k); }
      }
    }

    /** `dispatch`: count first, then spawn. */
    method Dispatch(job: int, kind: JobKind)
      requires Valid()
      modifies this
      ensures Valid() && spawned == old(spawned) + [Task(old(nextId), job, kind)] && nextId == old(nextId) + 1
      ensures marks == old(marks) + [Started(job, kind, CountOf(inFlight, kind))]
      ensures forall other :: CountOf(inFlight, other) == CountOf(old(inFlight), other) + if other == kind then 1 else 0
    {
      hide LiveCount, Balance, Counted;
      var task := Task(nextId, job, kind);
      StillDistinct(spawned, task, nextId);
      forall other ensures LiveCount(spawned + [task], finished, other) ==
                           LiveCount(spawned, finished, other) + if kind == other then 1 else 0
      {
        AddOne(spawned, finished, task, other);
      }
      inFlight := inFlight[kind := CountOf(inFlight, kind) + 1];
      spawned, nextId := spawned + [task], nextId + 1;
      MarkNext(marks, Started(job, kind, CountOf(inFlight, kind)));
      marks := marks + [Started(job, kind, CountOf(inFlight, kind))];
    }

    /** `reap`: forget finished handles. */
    method Reap()
      requires Valid()
      modifies this`spawned
      ensures Valid() && spawned == Live(old(spawned), finished)
    {
      var kept: seq<Task> := [];
      ghost var all := spawned;
      for i := 0 to |spawned|
        invariant spawned == all && kept == Live(all[..i], finished)
      {
        assert all[..i + 1][..i] == all[..i];
        if spawned[i].id !in finished { kept := kept + [spawned[i]]; }
      }
      assert all[..|all|] == all;
      LiveDistinct(all, finished, nextId);
      forall kind ensures LiveCount(Live(all, finished), finished, kind) == LiveCount(all, finished, kind) {
        LiveCounts(all, finished, kind);
      }
      spawned := kept;
    }

    /** `settle`: wait for every handle. All counters are back at zero then, so the wait ends. */
    method Settle()
      requires Valid()
      modifies this
      ensures Valid() && spawned == [] && forall kind :: CountOf(inFlight, kind) == 0
    {
      for k := 0 to |spawned|
        invariant Valid() && spawned == old(spawned)
        invariant forall j :: 0 <= j < k ==> spawned[j].id in finished
      {
        if spawned[k].id !in finished { Complete(k); }
      }
      forall kind ensures LiveCount(spawned, finished, kind) == 0 {
        NoneLive(spawned, finished, kind);
      }
      spawned := [];
    }

    /** One kind's pass: start the oldest due jobs that fit the room left under the limit, while
        running tasks keep finishing. */
    method RunPass(kind: JobKind, settings: Settings, table: map<int, Job>, now: int, interference: nat -> seq<nat>)
      returns (pass: Pass)
      requires Valid()
      modifies this
      ensures Valid() && PassRan(old(Now()), Now(), pass, settings)
      ensures pass.kind == kind && pass.table == table && pass.now == now && pass.busy == CountOf(old(inFlight), kind)
      ensures CountOf(inFlight, kind) <= CountOf(old(inFlight), kind) + |pass.started|
      ensures forall other :: other != kind ==> CountOf(inFlight, other) <= CountOf(old(inFlight), other)
    {
      hide LimitFor, Balance, Counted, LiveCount, Skeleton, OldestDue, DistinctTasks;
      var limit := LimitFor(kind, settings);
      var busy := InFlight(kind);
      var room := Room(limit, busy);
      ghost var before := old(Now());
      LookedOnly(before, Now(), kind, busy, settings);
      if room == 0 {
        NothingDue(table, now, kind);
        return Pass(kind, table, now, busy, 0, []);
      }
      var due := DueJobs(table, now, {kind}, room);
      assert |due| <= room by { DueFits(table, now, {kind}, room, due); }
      for i := 0 to |due|
        invariant Valid() && Filling(before, Now(), kind, busy, due[..i], settings)
        invariant CountOf(inFlight, kind) <= busy + i <= limit
        invariant forall other :: other != kind ==> CountOf(inFlight, other) <= CountOf(old(inFlight), other)
      {
        ghost var start := Now();
        Interfere(interference(i));
        EndsOnly(before, start, Now(), kind, busy, due[..i], settings);
        // The guard against side states in the source never skips a due job.
        assert table[due[i]].state.IsActive() by { DueMeansMainStep(table, now, kind, due, room, i); }
        ghost var mid := Now();
        Dispatch(due[i], kind);
        StartedOne(before, mid, Now(), kind, busy, due, i, settings);
      }
      assert due[..|due|] == due;
      ghost var start := Now();
      Interfere(interference(|due|));
      EndsOnly(before, start, Now(), kind, busy, due, settings);
      return Pass(kind, table, now, busy, room, due);
    }

    /** `tick`, with the job table each pass reads. */
    method Tick(settings: Settings, resourceBlocked: bool, tables: JobKind -> map<int, Job>, now: int,
                interference: JobKind -> (nat -> seq<nat>))
      returns (paused: bool, passes: seq<Pass>)
      requires Valid()
      modifies this
      ensures Valid() && paused == !settings.automationOn
      ensures PassesRan(Records(old(marks), Live(old(spawned), old(finished)), old(nextId)), Now(), passes, settings)
      ensures passes == [] <==> paused || resourceBlocked
      ensures paused || resourceBlocked ==> inFlight == old(inFlight)
      ensures passes != [] ==>
                |passes| == 4 && passes[0].kind == SearchKind && passes[1].kind == AddKind
                && passes[2].kind == MonitorKind && passes[3].kind == FinalizeKind
      ensures forall p :: 0 <= p < |passes| ==> passes[p].table == tables(passes[p].kind) && passes[p].now == now
      ensures forall kind :: CountOf(inFlight, kind) <= CountOf(old(inFlight), kind)
                || CountOf(inFlight, kind) <= LimitFor(kind, settings)
    {
      hide LimitFor, PassRan, PassesRan, Balance, Counted, LiveCount, DistinctTasks, Live;
      Reap();
      passes := [];
      paused := !settings.automationOn;
      ghost var start := Now();
      NoPassYet(start, settings);
      if paused || resourceBlocked {
        return;
      }
      var order := [SearchKind, AddKind, MonitorKind, FinalizeKind];
      for p := 0 to 4
        invariant Valid() && |passes| == p && PassesRan(start, Now(), passes, settings)
        invariant forall q :: 0 <= q < p ==>
                    passes[q].kind == order[q] && passes[q].table == tables(order[q]) && passes[q].now == now
        invariant forall kind :: CountOf(inFlight, kind) <= CountOf(old(inFlight), kind)
                    || CountOf(inFlight, kind) <= LimitFor(kind, settings)
      {
        ghost var mid := Now();
        var pass := RunPass(order[p], settings, tables(order[p]), now, interference(order[p]));
        PassNext(start, mid, Now(), passes, pass, settings);
        PassFits(mid, Now(), pass, settings);
        passes := passes + [pass];
      }
    }
  }

  // ------------------------------------------------------------ inside a pass

  /** A pass that has looked and started some of its jobs. */
  ghost predicate Filling(before: Records, after: Records, kind: JobKind, busy: int, started: seq<int>,
                          settings: Settings)
  {
    && before.marks <= after.marks
    && Skeleton(Since(before, after)) == [Looked(kind, busy)] + StartMarks(kind, started)
    && Within(Since(before, after), settings)
    && after.spawned == before.spawned + Tasks(before.nextId, started, kind)
    && after.nextId == before.nextId + |started|
  }

  lemma LookedOnly(before: Records, after: Records, kind: JobKind, busy: int, settings: Settings)
    requires after == before.(marks := before.marks + [Looked(kind, busy)])
    ensures Filling(before, after, kind, busy, [], settings)
  {
    hide Skeleton;
    assert Since(before, after) == [Looked(kind, busy)];
    SkeletonOne(Looked(kind, busy));
  }

  lemma EndsOnly(before: Records, mid: Records, after: Records, kind: JobKind, busy: int, started: seq<int>,
                 settings: Settings)
    requires Filling(before, mid, kind, busy, started, settings)
    requires mid.marks <= after.marks && after.spawned == mid.spawned && after.nextId == mid.nextId
    requires forall i :: |mid.marks| <= i < |after.marks| ==> after.marks[i].Finished?
    ensures Filling(before, after, kind, busy, started, settings)
  {
    hide Skeleton;
    var u, v, s := Since(before, mid), Since(mid, after), Since(before, after);
    assert s == u + v;
    SkeletonConcat(u, v);
    OnlyEnds(v);
    forall i | 0 <= i < |s| && s[i].Started? ensures s[i].running <= LimitFor(s[i].kind, settings) {
      if i < |u| { assert s[i] == u[i]; }
    }
  }

  lemma StartedOne(before: Records, mid: Records, after: Records, kind: JobKind, busy: int, due: seq<int>, i: nat,
                   settings: Settings)
    requires i < |due| && Filling(before, mid, kind, busy, due[..i], settings)
    requires |after.marks| == |mid.marks| + 1
    requires var mark := after.marks[|mid.marks|];
             && after.marks == mid.marks + [mark] && mark.Started? && mark.job == due[i] && mark.kind == kind
             && mark.running <= LimitFor(kind, settings)
    requires after.spawned == mid.spawned + [Task(mid.nextId, due[i], kind)] && after.nextId == mid.nextId + 1
    ensures Filling(before, after, kind, busy, due[..i + 1], settings)
  {
    hide Skeleton, LimitFor;
    var mark := after.marks[|mid.marks|];
    var u, s := Since(before, mid), Since(before, after);
    assert s == u + [mark];
    SkeletonConcat(u, [mark]);
    SkeletonOne(mark);
    assert due[..i + 1] == due[..i] + [due[i]];
    assert StartMarks(kind, due[..i + 1]) == StartMarks(kind, due[..i]) + [Started(due[i], kind, 0)];
    assert Tasks(before.nextId, due[..i + 1], kind) ==
           Tasks(before.nextId, due[..i], kind) + [Task(before.nextId + i, due[i], kind)];
    forall j | 0 <= j < |s| && s[j].Started? ensures s[j].running <= LimitFor(s[j].kind, settings) {
      if j < |u| { assert s[j] == u[j]; }
    }
  }

  lemma NothingDue(table: map<int, Job>, now: int, kind: JobKind)
    ensures OldestDue(table, now, {kind}, 0, [])
  {
  }

  lemma DueFits(table: map<int, Job>, now: int, kinds: set<JobKind>, limit: nat, picked: seq<int>)
    requires OldestDue(table, now, kinds, limit, picked)
    ensures |picked| <= limit
  {
  }

  lemma PassFits(before: Records, after: Records, pass: Pass, settings: Settings)
    requires PassRan(before, after, pass, settings) && pass.busy >= 0
    ensures pass.started == [] || pass.busy + |pass.started| <= LimitFor(pass.kind, settings)
  {
    DueFits(pass.table, pass.now, {pass.kind}, pass.room, pass.started);
  }

  // ------------------------------------------------------------ resuming parked jobs

  /** What the probes say when one row is looked at: whether its own show's metadata is there, whether the
      breaker lets a search out, whether disk and folder are in order. */
  datatype Probes = Probes(metadataReady: bool, nyaaAllows: bool, resourcesFree: bool)

  predicate StartsWith(s: string, prefix: string) {
    prefix <= s
  }

  predicate PartAt(s: string, part: string, i: nat) {
    i + |part| <= |s| && s[i..i + |part|] == part
  }

  predicate Contains(s: string, part: string) {
    exists i :: 0 <= i <= |s| && PartAt(s, part, i)
  }

  predicate Cleared(reason: string, probes: Probes) {
    if StartsWith(reason, "Metadata unresolved") then probes.metadataReady
    else if Contains(reason, "Nyaa") then probes.nyaaAllows
    else if Contains(reason, "space") || Contains(reason, "folder") then probes.resourcesFree
    else true
  }

  function ResumeNote(reason: string): string {
    "resumed after: " + reason
  }

  /** A listed row that is resumed: it has a parking note and its blocker cleared. */
  predicate Resumes(row: Job, probes: Probes) {
    row.blockedFrom.Some? && Cleared(row.lastError.GetOr(""), probes)
  }

  function ResumedOne(db: Db, at: int, id: int, row: Job, probes: Probes): (Db, seq<(int, JobState)>) {
    if !Resumes(row, probes) then (db, [])
    else
      var (after, r) := Transitioned(db, at, id, row.blockedFrom.value, ResumeNote(row.lastError.GetOr("")), PLAIN);
      (after, if r.Ok? then [(id, row.blockedFrom.value)] else [])
  }

  /** The first `n` of the listed rows, which were all read before the first move. */
  function ResumedFirst(db: Db, at: int, listing: seq<(int, Job)>, probes: nat -> Probes, n: nat)
    : (Db, seq<(int, JobState)>)
    requires n <= |listing|
  {
    if n == 0 then (db, [])
    else
      var (before, out) := ResumedFirst(db, at, listing, probes, n - 1);
      var (after, more) := ResumedOne(before, at, listing[n - 1].0, listing[n - 1].1, probes(n - 1));
      (after, out + more)
  }

  method ResumeRow(store: Store, at: int, id: int, row: Job, probes: Probes) returns (more: seq<(int, JobState)>)
    modifies store
    ensures (store.Value(), more) == ResumedOne(old(store.Value()), at, id, row, probes)
  {
    hide Transitioned, Cleared;
    more := [];
    if Resumes(row, probes) {
      var r := store.Transition(at, id, row.blockedFrom.value, ResumeNote(row.lastError.GetOr("")), PLAIN);
      if r.Ok? { more := [(id, row.blockedFrom.value)]; }
    }
  }

  /** `resume_blocked`. */
  method ResumeBlocked(store: Store, at: int, listing: seq<(int, Job)>, probes: nat -> Probes)
    returns (out: seq<(int, JobState)>)
    modifies store
    ensures (store.Value(), out) == ResumedFirst(old(store.Value()), at, listing, probes, |listing|)
  {
    hide ResumedOne;
    out := [];
    for n := 0 to |listing|
      invariant (store.Value(), out) == ResumedFirst(old(store.Value()), at, listing, probes, n)
    {
      var more := ResumeRow(store, at, listing[n].0, listing[n].1, probes(n));
      out := out + more;
    }
  }

  /** A listing of parked rows, each once, as the table has them. */
  ghost predicate ListsParked(db: Db, listing: seq<(int, Job)>) {
    && (forall i, j :: 0 <= i < j < |listing| ==> listing[i].0 != listing[j].0)
    && (forall i :: 0 <= i < |listing| ==>
          && listing[i].0 in db.jobs && db.jobs[listing[i].0] == listing[i].1 && listing[i].1.state == Blocked
          && RowSound(listing[i].1))
  }

  /** How a listed row stands once the first `n` have been looked at. */
  ghost predicate RowResumed(db: Db, after: Db, row: Job, id: int, seen: bool, probes: Probes) {
    && id in after.jobs
    && if seen && Resumes(row, probes) then
         after.jobs[id].state == row.blockedFrom.value
         && SameStanding(after.jobs[id], row.(state := row.blockedFrom.value, blockedFrom := None))
       else after.jobs[id] == row
  }

  ghost predicate SameRow(db: Db, after: Db, id: int) {
    && (id in after.jobs <==> id in db.jobs)
    && (id in db.jobs ==> after.jobs[id] == db.jobs[id])
  }

  lemma ResumeIsLegal(db: Db, at: int, id: int, row: Job, probes: Probes)
    requires id in db.jobs && db.jobs[id] == row && row.state == Blocked
    requires row.blockedFrom.Some? ==>
               row.blockedFrom.value.IsActive() && row.kind == KindOfState(row.blockedFrom.value)
    ensures var (after, out) := ResumedOne(db, at, id, row, probes);
            && RowResumed(db, after, row, id, true, probes)
            && out == (if Resumes(row, probes) then [(id, row.blockedFrom.value)] else [])
            && forall x :: x != id ==> SameRow(db, after, x)
  {
    hide Cleared;
  }

  /** What holds after the first `n` listed rows. */
  ghost predicate ResumedUpTo(db: Db, after: Db, out: seq<(int, JobState)>, listing: seq<(int, Job)>,
                              probes: nat -> Probes, n: nat)
    requires n <= |listing|
  {
    && (forall i :: 0 <= i < |listing| ==> RowResumed(db, after, listing[i].1, listing[i].0, i < n, probes(i)))
    && Untouched(db, after, listing)
    && out == ResumedOnes(listing, probes, n)
  }

  /** The resumed rows among the first `n`, in order, with the steps they return to. */
  ghost function ResumedOnes(listing: seq<(int, Job)>, probes: nat -> Probes, n: nat): seq<(int, JobState)>
    requires n <= |listing|
  {
    if n == 0 then []
    else
      var (id, row) := listing[n - 1];
      ResumedOnes(listing, probes, n - 1) + if Resumes(row, probes(n - 1)) then [(id, row.blockedFrom.value)] else []
  }

  /** Jobs outside the listing are as they were. */
  ghost predicate Untouched(db: Db, after: Db, listing: seq<(int, Job)>) {
    forall x :: !Listed(listing, x) ==> SameRow(db, after, x)
  }

  ghost predicate Listed(listing: seq<(int, Job)>, x: int) {
    exists i :: 0 <= i < |listing| && listing[i].0 == x
  }

  lemma ResumeStep(db: Db, before: Db, out: seq<(int, JobState)>, at: int, listing: seq<(int, Job)>,
                   probes: nat -> Probes, n: nat)
    requires ListsParked(db, listing) && n < |listing| && ResumedUpTo(db, before, out, listing, probes, n)
    ensures var (after, more) := ResumedOne(before, at, listing[n].0, listing[n].1, probes(n));
            ResumedUpTo(db, after, out + more, listing, probes, n + 1)
  {
    hide Resumes, RowSound;
    var (id, row) := listing[n];
    assert RowResumed(db, before, row, id, false, probes(n));
    ParkedNote(row);
    ResumeIsLegal(before, at, id, row, probes(n));
    hide ResumedOne;
    var (after, more) := ResumedOne(before, at, id, row, probes(n));
    assert Listed(listing, id);
    forall i | 0 <= i < |listing| ensures RowResumed(db, after, listing[i].1, listing[i].0, i < n + 1, probes(i)) {
      assert RowResumed(db, before, listing[i].1, listing[i].0, i < n, probes(i));
      if i != n { assert listing[i].0 != id; }
    }
  }

  /** On any listing of sound parked rows, a tick resumes exactly the listed jobs whose blocker cleared, each by
      a legal move to the step it was parked from, with kind, attempts and torrent intact, and
      touches no other job. */
  lemma {:induction false} ResumedJobsReturn(db: Db, at: int, listing: seq<(int, Job)>, probes: nat -> Probes, n: nat)
    requires ListsParked(db, listing) && n <= |listing|
    ensures var (after, out) := ResumedFirst(db, at, listing, probes, n);
            ResumedUpTo(db, after, out, listing, probes, n)
  {
    hide ResumedOne, ResumedUpTo, ListsParked;
    if n == 0 {
      NothingResumedYet(db, listing, probes);
    } else {
      ResumedJobsReturn(db, at, listing, probes, n - 1);
      var (before, out) := ResumedFirst(db, at, listing, probes, n - 1);
      ResumeStep(db, before, out, at, listing, probes, n - 1);
    }
  }

  /** So it is in every table that a run of job writes reaches from none, with parking notes that name steps. */
  lemma ReachableJobsReturn(ops: seq<Op>, at: int, listing: seq<(int, Job)>, probes: nat -> Probes)
    requires forall i :: 0 <= i < |listing| ==> AllNoteStep(ops, listing[i].0)
    requires forall i, j :: 0 <= i < j < |listing| ==> listing[i].0 != listing[j].0
    requires forall i :: 0 <= i < |listing| ==>
               && listing[i].0 in Run(EMPTY, ops).jobs && Run(EMPTY, ops).jobs[listing[i].0] == listing[i].1
               && listing[i].1.state == Blocked
    ensures var db := Run(EMPTY, ops);
            var (after, out) := ResumedFirst(db, at, listing, probes, |listing|);
            ResumedUpTo(db, after, out, listing, probes, |listing|)
  {
    hide Run, AllNoteStep, ResumedFirst, ResumedUpTo, RowSound;
    forall i | 0 <= i < |listing| ensures RowSound(listing[i].1) {
      RowsAreSound(ops, listing[i].0);
    }
    ResumedJobsReturn(Run(EMPTY, ops), at, listing, probes, |listing|);
  }

  lemma NothingResumedYet(db: Db, listing: seq<(int, Job)>, probes: nat -> Probes)
    requires ListsParked(db, listing)
    ensures ResumedUpTo(db, db, [], listing, probes, 0)
  {
    hide RowSound, Resumes;
  }

  lemma ParkedNote(row: Job)
    requires RowSound(row)
    ensures row.blockedFrom.Some? ==> row.blockedFrom.value.IsActive() && row.kind == KindOfState(row.blockedFrom.value)
  {
  }
}
