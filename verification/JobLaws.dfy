/** What each write leaves in the job table, column by column, and what a retry forgets. */
module JobLaws {
  import opened Wrappers
  import opened Jobs

  // ------------------------------------------------------------ which moves are legal

  /** A place on the main line, search first. */
  ghost function PlaceOf(state: JobState): int {
    match state
    case Search => 1
    case Choose => 2
    case Add => 3
    case Monitor => 4
    case Finalize => 5
    case _ => 0
  }

  ghost predicate OnMainLine(state: JobState) {
    PlaceOf(state) > 0
  }

  /** The diagram: a main step goes on to the next one, `finalize` to `done`; every main step may park or fail and
      every one but `add` may ask; a question and a parked job go back to any main step or fail, a question may
      also settle the job; a failed job starts over or is settled; and three steps back exist. */
  ghost predicate OnDiagram(from: JobState, to: JobState) {
    || (OnMainLine(from) && OnMainLine(to) && PlaceOf(to) == PlaceOf(from) + 1)
    || (from == Finalize && to == Done)
    || (OnMainLine(from) && (to == Blocked || to == Failed || (to == NeedsInput && from != Add)))
    || ((from == NeedsInput || from == Blocked) && (OnMainLine(to) || to == Failed))
    || (from == NeedsInput && to == Done)
    || (from == Failed && (to == Search || to == Done))
    || (from == Add && to == Choose) || (from == Monitor && (to == Add || to == Search))
  }

  lemma EarlySteps(from: JobState, to: JobState)
    requires from == Search || from == Choose || from == Add
    ensures IsAllowed(from, to) <==> OnDiagram(from, to)
  {
  }

  lemma LateSteps(from: JobState, to: JobState)
    requires from == Monitor || from == Finalize || from == Done
    ensures IsAllowed(from, to) <==> OnDiagram(from, to)
  {
  }

  lemma SideStates(from: JobState, to: JobState)
    requires from == NeedsInput || from == Blocked || from == Failed
    ensures IsAllowed(from, to) <==> OnDiagram(from, to)
  {
  }

  lemma AllowedIffOnDiagram(from: JobState, to: JobState)
    ensures IsAllowed(from, to) <==> OnDiagram(from, to)
  {
    hide IsAllowed, OnDiagram;
    match from
    case Search => EarlySteps(from, to);
    case Choose => EarlySteps(from, to);
    case Add => EarlySteps(from, to);
    case Monitor => LateSteps(from, to);
    case Finalize => LateSteps(from, to);
    case Done => LateSteps(from, to);
    case _ => SideStates(from, to);
  }

  /** A move of this job to this state goes through. */
  ghost predicate GoesThrough(db: Db, id: int, to: JobState) {
    && id in db.jobs && db.jobs[id].state != Done
    && (db.jobs[id].state == to || OnDiagram(db.jobs[id].state, to))
  }

  lemma AcceptedIffGoesThrough(db: Db, id: int, to: JobState)
    ensures Accepts(db, id, to) <==> GoesThrough(db, id, to)
  {
    if id in db.jobs { AllowedIffOnDiagram(db.jobs[id].state, to); }
  }

  // ------------------------------------------------------------ the columns after a move

  /** The budget a main step counts against. */
  ghost predicate CountsAgainst(state: JobState, kind: JobKind) {
    match kind
    case SearchKind => state == Search || state == Choose
    case AddKind => state == Add
    case MonitorKind => state == Monitor
    case FinalizeKind => state == Finalize
  }

  /** Torrent, progress and stall timer: gone together, or as they were together. */
  ghost predicate TorrentColumns(before: Job, after: Job, cleared: bool) {
    if cleared then after.torrentId == None && after.progress == 0.0 && after.lastProgressAt == None
    else
      after.torrentId == before.torrentId && after.progress == before.progress
      && after.lastProgressAt == before.lastProgressAt
  }

  /** The columns that say why and when: a parked or failed job carries the reason, a job that leaves those states
      loses it; the next run is the time given, else half a minute later for a parked job, else at once. */
  ghost predicate ReasonColumns(before: Job, after: Job, reason: string, given: Option<int>, at: int) {
    && (after.state == Blocked || after.state == Failed ==> after.lastError == Some(reason))
    && (after.state != Blocked && after.state != Failed ==>
          after.lastError == (if before.state == Blocked || before.state == Failed then None else before.lastError))
    && (given.Some? ==> after.nextRunAt == given)
    && (given.None? && after.state == Blocked ==> after.nextRunAt == Some(at + 30))
    && (given.None? && after.state != Blocked ==> after.nextRunAt == None)
  }

  /** Kind and parking note. */
  ghost predicate StepColumns(before: Job, after: Job, note: Option<JobState>) {
    && (OnMainLine(after.state) ==> CountsAgainst(after.state, after.kind))
    && (!OnMainLine(after.state) && note.None? ==> after.kind == before.kind)
    && (!OnMainLine(after.state) && note.Some? && OnMainLine(note.value) ==> CountsAgainst(note.value, after.kind))
    && (note.Some? ==> after.blockedFrom == note)
    && (note.None? ==> after.blockedFrom == if after.state == Blocked then before.blockedFrom else None)
  }

  ghost predicate OthersAsTheyWere(db: Db, after: Db, id: int) {
    after.jobs.Keys == db.jobs.Keys && forall x :: x in db.jobs && x != id ==> after.jobs[x] == db.jobs[x]
  }

  /** The log line of a move: the two states, or only the reason when the job stays where it is. */
  ghost predicate LoggedMove(db: Db, after: Db, id: int, reason: string) {
    && id in db.jobs && id in after.jobs && |after.log| == |db.log| + 1 && db.log <= after.log
    && after.log[|db.log|] == if db.jobs[id].state == after.jobs[id].state then Noted(id, reason)
                              else Moved(id, db.jobs[id].state, after.jobs[id].state, reason)
  }

  /** The whole table after a move: nothing, if it is refused; else this row column by column, one log line, and
      every other row as it was. */
  ghost predicate AfterMove(db: Db, after: Db, id: int, to: JobState, reason: string, opts: MoveOptions, at: int) {
    if !GoesThrough(db, id, to) then after == db
    else
      && OthersAsTheyWere(db, after, id) && LoggedMove(db, after, id, reason)
      && after.questions == db.questions && after.nextId == db.nextId
      && var before, row := db.jobs[id], after.jobs[id];
         && row.state == to && row.updatedAt == at
         && row.episodeId == before.episodeId && row.createdAt == before.createdAt
         && (opts.resetAttempts ==> row.attempts == 0)
         && (!opts.resetAttempts && opts.countAttempt ==> row.attempts == before.attempts + 1)
         && (!opts.resetAttempts && !opts.countAttempt ==> row.attempts == before.attempts)
         && TorrentColumns(before, row, opts.clearTorrent)
         && ReasonColumns(before, row, reason, opts.nextRunAt, at)
         && StepColumns(before, row, opts.blockedFrom)
  }

  lemma MoveWritesColumns(db: Db, at: int, id: int, to: JobState, reason: string, opts: MoveOptions)
    ensures AfterMove(db, Apply(db, Move(at, id, to, reason, opts)), id, to, reason, opts, at)
  {
    hide IsAllowed, OnDiagram;
    AcceptedIffGoesThrough(db, id, to);
  }

  /** Parking with a copy of the row that says it is in a main step. */
  lemma ParkWritesColumns(db: Db, at: int, id: int, copy: JobState, reason: string)
    ensures AfterMove(db, Apply(db, Park(at, id, copy, reason)), id, Blocked, reason,
                      MoveOptions(false, Some(copy), false, false, None), at)
  {
    MoveWritesColumns(db, at, id, Blocked, reason, PLAIN.(blockedFrom := Some(copy)));
  }

  /** Another candidate, or giving up: the torrent, its progress and its stall timer are forgotten and the attempt is
      counted; with attempts left the job searches again, without any it fails and a question is raised. */
  lemma NextWritesColumns(db: Db, at: int, id: int, attempts: int, maxFailed: int, reason: string)
    ensures var after := Apply(db, Next(at, id, attempts, maxFailed, reason));
            var to := if attempts < maxFailed - 1 then Search else Failed;
            && AfterMove(db.(questions := after.questions), after, id, to, reason,
                         MoveOptions(true, None, false, true, None), at)
            && after.questions == db.questions + (if attempts < maxFailed - 1 then [] else [id])
            && (GoesThrough(db, id, to) ==>
                  && after.jobs[id].torrentId == None && after.jobs[id].progress == 0.0
                  && after.jobs[id].lastProgressAt == None && after.jobs[id].attempts == db.jobs[id].attempts + 1)
  {
    if attempts + 1 >= maxFailed {
      MoveWritesColumns(db.(questions := db.questions + [id]), at, id, Failed, reason, TRY_NEXT);
    } else {
      MoveWritesColumns(db, at, id, Search, reason, TRY_NEXT);
    }
  }

  // ------------------------------------------------------------ the other writes

  /** The row of one job after one of the other writes; every other job is as it was, unless a batch add deletes
      it. */
  ghost predicate AfterSmallWrite(db: Db, after: Db, op: Op) {
    match op
    case Postpone(at, id, when, reason) =>
      if id !in db.jobs then after == db
      else
        && OthersAsTheyWere(db, after, id) && after.log == db.log + [Noted(id, reason)]
        && after.questions == db.questions && after.nextId == db.nextId
        && after.jobs[id] == db.jobs[id].(nextRunAt := Some(when), lastError := Some(reason), updatedAt := at)
    case AutoAdd(id, torrent) =>
      if id !in db.jobs || db.jobs[id].state != NeedsInput then after == db
      else
        && OthersAsTheyWere(db, after, id) && after.log == db.log && after.questions == db.questions
        && after.jobs[id] == db.jobs[id].(state := Add, torrentId := torrent, lastError := None)
    case DropSearches(keep, episodes) =>
      && after.log == db.log && after.questions == db.questions && after.nextId == db.nextId
      && (forall x :: x in after.jobs ==> x in db.jobs && after.jobs[x] == db.jobs[x])
      && forall x :: x in db.jobs ==>
           (x !in after.jobs <==> x != keep && db.jobs[x].kind == SearchKind && db.jobs[x].episodeId in episodes)
    case Enqueue(episode, at) =>
      if exists x :: x in db.jobs && db.jobs[x].episodeId == episode && db.jobs[x].kind == SearchKind
                     && db.jobs[x].state != Done
      then after == db
      else
        var id := db.nextId;
        && after.nextId == id + 1 && after.log == db.log + [Noted(id, "queued")] && after.questions == db.questions
        && id in after.jobs && (forall x :: x != id ==> (x in after.jobs <==> x in db.jobs))
        && (forall x :: x in db.jobs && x != id ==> after.jobs[x] == db.jobs[x])
        && var row := after.jobs[id];
           && row.episodeId == episode && row.kind == SearchKind && row.state == Search && row.attempts == 0
           && row.nextRunAt == None && row.lastError == None && row.torrentId == None && row.blockedFrom == None
           && row.progress == 0.0 && row.lastProgressAt == None && row.createdAt == at && row.updatedAt == at
    case _ => true
  }

  lemma SmallWritesColumns(db: Db, op: Op)
    ensures AfterSmallWrite(db, Apply(db, op), op)
  {
    hide Transitioned;
    if op.Enqueue? { assert forall x :: x in db.jobs && IsOpenSearch(db.jobs[x], op.episode) ==>
                              db.jobs[x].episodeId == op.episode; }
  }

  // ------------------------------------------------------------ a retry starts without a torrent

  /** The operation gives the job a torrent. */
  ghost predicate GivesTorrent(op: Op, id: int) {
    (op.ChooseTorrent? && op.id == id) || (op.AutoAdd? && op.id == id)
  }

  lemma OpGivesNone(db: Db, op: Op, id: int)
    requires !GivesTorrent(op, id) && (id in db.jobs ==> db.jobs[id].torrentId == None)
    ensures id in Apply(db, op).jobs ==> Apply(db, op).jobs[id].torrentId == None
  {
    hide IsAllowed;
  }

  lemma {:induction false} StaysWithoutTorrent(db: Db, ops: seq<Op>, id: int)
    requires id in db.jobs ==> db.jobs[id].torrentId == None
    requires forall i :: 0 <= i < |ops| ==> !GivesTorrent(ops[i], id)
    ensures id in Run(db, ops).jobs ==> Run(db, ops).jobs[id].torrentId == None
    decreases |ops|
  {
    hide Apply;
    if ops != [] {
      StaysWithoutTorrent(db, Init(ops), id);
      OpGivesNone(Run(db, Init(ops)), Last(ops), id);
    }
  }

  /** After a retry that goes through, the job holds no torrent until one is chosen for it or a question of its show
      is resolved to one, whatever else happens to it or to other jobs. */
  lemma RetryForgetsTorrent(db: Db, at: int, id: int, attempts: int, maxFailed: int, reason: string, more: seq<Op>)
    requires GoesThrough(db, id, if attempts < maxFailed - 1 then Search else Failed)
    requires forall i :: 0 <= i < |more| ==> !GivesTorrent(more[i], id)
    ensures var after := Run(Apply(db, Next(at, id, attempts, maxFailed, reason)), more);
            id in after.jobs ==> after.jobs[id].torrentId == None
  {
    hide Apply;
    NextWritesColumns(db, at, id, attempts, maxFailed, reason);
    StaysWithoutTorrent(Apply(db, Next(at, id, attempts, maxFailed, reason)), more, id);
  }

  // ------------------------------------------------------------ recovery follows the client

  /** What the client knows decides where recovery sends a job that was added or monitored: to `finalize` a completed
      download, to `monitor` one that runs; a monitored one that is gone back to `search`; without a torrent back to
      `choose`. Every other job, and what is as it should be, is left alone. */
  lemma RecoveryFollowsClient(state: JobState, hasTorrent: bool, found: Option<bool>)
    ensures var to := RecoveryTarget(state, hasTorrent, found);
            && (to == Some(Finalize) <==> (state == Add || state == Monitor) && hasTorrent && found == Some(true))
            && (to == Some(Choose) <==> (state == Add || state == Monitor) && !hasTorrent)
            && (to == Some(Monitor) <==> state == Add && hasTorrent && found == Some(false))
            && (to == Some(Search) <==> state == Monitor && hasTorrent && found == None)
            && (to == None || to == Some(Finalize) || to == Some(Choose) || to == Some(Monitor) || to == Some(Search))
  {
  }
}
