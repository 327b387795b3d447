/** The job table: legal moves, the row update and its log line in one transaction, parking and
    resuming, and the retry budget. */
module Jobs {
  import opened Wrappers

  datatype JobState = Search | Choose | Add | Monitor | Finalize | NeedsInput | Blocked | Failed | Done {
    predicate IsTerminal() {
      Done?
    }

    predicate IsActive() {
      Search? || Choose? || Add? || Monitor? || Finalize?
    }
  }

  datatype JobKind = SearchKind | AddKind | MonitorKind | FinalizeKind

  const TRANSITIONS: set<(JobState, JobState)> := {
    (Search, Choose), (Choose, Add), (Add, Monitor), (Monitor, Finalize), (Finalize, Done),
    (Search, NeedsInput), (Search, Blocked), (Search, Failed),
    (Choose, NeedsInput), (Choose, Blocked), (Choose, Failed),
    (Add, Blocked), (Add, Failed),
    (Monitor, Search), (Monitor, NeedsInput), (Monitor, Blocked), (Monitor, Failed),
    (Finalize, NeedsInput), (Finalize, Blocked), (Finalize, Failed),
    (NeedsInput, Search), (NeedsInput, Choose), (NeedsInput, Add), (NeedsInput, Monitor),
    (NeedsInput, Finalize), (NeedsInput, Failed), (NeedsInput, Done),
    (Blocked, Search), (Blocked, Choose), (Blocked, Add), (Blocked, Monitor), (Blocked, Finalize), (Blocked, Failed),
    (Failed, Search), (Failed, Done),
    (Add, Choose), (Monitor, Add)
  }

  predicate IsAllowed(from: JobState, to: JobState) {
    from != to && !from.IsTerminal() && (from, to) in TRANSITIONS
  }

  function KindOfState(state: JobState): JobKind {
    match state
    case Add => AddKind
    case Monitor => MonitorKind
    case Finalize => FinalizeKind
    case _ => SearchKind
  }

  function KindFor(to: JobState, current: JobKind, blockedFrom: Option<JobState>): JobKind {
    match to
    case Search => SearchKind
    case Choose => SearchKind
    case Add => AddKind
    case Monitor => MonitorKind
    case Finalize => FinalizeKind
    case _ => if blockedFrom.Some? then KindOfState(blockedFrom.value) else current
  }

  datatype Job = Job(
    episodeId: int,
    kind: JobKind,
    state: JobState,
    attempts: int,
    nextRunAt: Option<int>,
    lastError: Option<string>,
    torrentId: Option<int>,
    createdAt: int,
    updatedAt: int,
    progress: real,
    lastProgressAt: Option<int>,
    blockedFrom: Option<JobState>
  )

  datatype MoveOptions = MoveOptions(
    clearTorrent: bool,
    blockedFrom: Option<JobState>,
    resetAttempts: bool,
    countAttempt: bool,
    nextRunAt: Option<int>
  )

  const PLAIN: MoveOptions := MoveOptions(false, None, false, false, None)

  /** A line of the activity log: a move between states, or any other note on a job. */
  datatype LogLine = Moved(job: int, from: JobState, to: JobState, reason: string) | Noted(job: int, text: string)

  datatype Error = NoJob | NeverLeaves | IllegalTransition(from: JobState, to: JobState)

  /** The tables that job writes touch, with the next row id: ids are never used twice. */
  datatype Db = Db(jobs: map<int, Job>, log: seq<LogLine>, questions: seq<int>, nextId: int)

  /** The row after a move, field by field as the UPDATE statement is assembled. */
  function MovedRow(job: Job, to: JobState, reason: string, opts: MoveOptions, at: int): Job {
    job.(
      state := to,
      updatedAt := at,
      attempts := if opts.resetAttempts then 0 else job.attempts + if opts.countAttempt then 1 else 0,
      kind := KindFor(to, job.kind, opts.blockedFrom),
      torrentId := if opts.clearTorrent then None else job.torrentId,
      progress := if opts.clearTorrent then 0.0 else job.progress,
      lastProgressAt := if opts.clearTorrent then None else job.lastProgressAt,
      blockedFrom := if opts.blockedFrom.Some? then opts.blockedFrom
                     else if to != Blocked then None else job.blockedFrom,
      nextRunAt := if opts.nextRunAt.Some? then opts.nextRunAt else if to == Blocked then Some(at + 30) else None,
      lastError := if to == Blocked || to == Failed then Some(reason)
                   else if job.state == Blocked || job.state == Failed then None
                   else job.lastError)
  }

  function MoveLine(id: int, from: JobState, to: JobState, reason: string): LogLine {
    if from == to then Noted(id, reason) else Moved(id, from, to, reason)
  }

  /** `transition`: the row and its log line change together, or nothing does. */
  function Transitioned(db: Db, at: int, id: int, to: JobState, reason: string, opts: MoveOptions)
    : (Db, Result<JobState, Error>)
  {
    if id !in db.jobs then (db, Err(NoJob))
    else
      var job := db.jobs[id];
      if job.state.IsTerminal() then (db, Err(NeverLeaves))
      else if job.state != to && !IsAllowed(job.state, to) then (db, Err(IllegalTransition(job.state, to)))
      else
        (db.(jobs := db.jobs[id := MovedRow(job, to, reason, opts, at)],
             log := db.log + [MoveLine(id, job.state, to, reason)]),
         Ok(job.state))
  }

  function Rescheduled(db: Db, at: int, id: int, when: int, reason: string): Db {
    if id !in db.jobs then db
    else
      db.(jobs := db.jobs[id := db.jobs[id].(nextRunAt := Some(when), lastError := Some(reason), updatedAt := at)],
          log := db.log + [Noted(id, reason)])
  }

  /** `block`: park the row, noting the state of the caller's copy of it. */
  function Parked(db: Db, at: int, id: int, copy: JobState, reason: string): (Db, Result<JobState, Error>) {
    Transitioned(db, at, id, Blocked, reason, PLAIN.(blockedFrom := Some(copy)))
  }

  const TRY_NEXT: MoveOptions := PLAIN.(countAttempt := true, clearTorrent := true)

  /** `next_candidate`: the next search, or a question and a failed job when the attempts of the caller's
      copy of the row are spent. */
  function NextCandidate(db: Db, at: int, id: int, copy: int, maxFailed: int, reason: string)
    : (Db, Result<JobState, Error>)
  {
    if copy + 1 >= maxFailed then
      Transitioned(db.(questions := db.questions + [id]), at, id, Failed, reason, TRY_NEXT)
    else Transitioned(db, at, id, Search, reason, TRY_NEXT)
  }

  function NewJob(episode: int, at: int): Job {
    Job(episode, SearchKind, Search, 0, None, None, None, at, at, 0.0, None, None)
  }

  /** A search job that already covers the episode. */
  predicate IsOpenSearch(job: Job, episode: int) {
    job.episodeId == episode && job.kind == SearchKind && job.state != Done
  }

  /** `enqueue_search`: a new row under a fresh id, unless one already covers the episode. */
  function Enqueued(db: Db, episode: int, at: int): Db {
    if exists id :: id in db.jobs && IsOpenSearch(db.jobs[id], episode) then db
    else
      db.(jobs := db.jobs[db.nextId := NewJob(episode, at)], log := db.log + [Noted(db.nextId, "queued")],
          nextId := db.nextId + 1)
  }

  /** The write of `auto_resolve_show_questions`: a row that waits for an answer becomes an add, with no
      log line and its kind as it was. */
  function AutoAdded(db: Db, id: int, torrent: Option<int>): Db {
    if id !in db.jobs || db.jobs[id].state != NeedsInput then db
    else db.(jobs := db.jobs[id := db.jobs[id].(state := Add, torrentId := torrent, lastError := None)])
  }

  predicate IsOtherSearch(id: int, job: Job, keep: int, episodes: set<int>) {
    id != keep && job.episodeId in episodes && job.kind == SearchKind
  }

  /** The deletion of a batch add: the other rows of kind search of the show's episodes. */
  function SearchesDropped(db: Db, keep: int, episodes: set<int>): Db {
    db.(jobs := map id | id in db.jobs && !IsOtherSearch(id, db.jobs[id], keep, episodes) :: db.jobs[id])
  }

  /** The UPDATE statement, clause by clause. */
  method AssembleRow(job: Job, to: JobState, reason: string, opts: MoveOptions, at: int) returns (row: Job)
    ensures row == MovedRow(job, to, reason, opts, at)
  {
    var attempts := 0;
    if !opts.resetAttempts {
      attempts := job.attempts + if opts.countAttempt then 1 else 0;
    }
    row := job.(state := to, updatedAt := at, attempts := attempts);
    if opts.clearTorrent {
      row := row.(torrentId := None, progress := 0.0, lastProgressAt := None);
    }
    if opts.blockedFrom.Some? {
      row := row.(blockedFrom := opts.blockedFrom);
    } else if to != Blocked {
      row := row.(blockedFrom := None);
    }
    if opts.nextRunAt.Some? {
      row := row.(nextRunAt := opts.nextRunAt);
    } else if to == Blocked {
      row := row.(nextRunAt := Some(at + 30));
    } else {
      row := row.(nextRunAt := None);
    }
    row := row.(kind := KindFor(to, job.kind, opts.blockedFrom));
    if to == Blocked || to == Failed {
      row := row.(lastError := Some(reason));
    } else if job.state == Blocked || job.state == Failed {
      row := row.(lastError := None);
    }
  }

  /** The stored tables as the source has them: updated in place by every operation. */
  class Store {
    var jobs: map<int, Job>
    var log: seq<LogLine>
    var questions: seq<int>
    var nextId: int

    ghost function Value(): Db
      reads this
    {
      Db(jobs, log, questions, nextId)
    }

    constructor ()
      ensures Value() == EMPTY
    {
      jobs, log, questions, nextId := map[], [], [], 1;
    }

    method EnqueueSearch(episode: int, at: int) returns (id: int)
      modifies this
      ensures Value() == Enqueued(old(Value()), episode, at)
      ensures id in jobs && IsOpenSearch(jobs[id], episode)
    {
      if exists id :: id in jobs && IsOpenSearch(jobs[id], episode) {
        id :| id in jobs && IsOpenSearch(jobs[id], episode);
      } else {
        id := nextId;
        jobs, log, nextId := jobs[id := NewJob(episode, at)], log + [Noted(id, "queued")], id + 1;
      }
    }

    method Transition(at: int, id: int, to: JobState, reason: string, opts: MoveOptions)
      returns (r: Result<JobState, Error>)
      modifies this
      ensures (Value(), r) == Transitioned(old(Value()), at, id, to, reason, opts)
    {
      hide IsAllowed, MovedRow;
      if id !in jobs {
        return Err(NoJob);
      }
      var job := jobs[id];
      var from := job.state;
      if from.IsTerminal() {
        return Err(NeverLeaves);
      }
      if from != to && !IsAllowed(from, to) {
        return Err(IllegalTransition(from, to));
      }
      var row := AssembleRow(job, to, reason, opts, at);
      jobs := jobs[id := row];
      log := log + [MoveLine(id, from, to, reason)];
      return Ok(from);
    }

    method Reschedule(at: int, id: int, when: int, reason: string) returns (known: bool)
      modifies this
      ensures Value() == Rescheduled(old(Value()), at, id, when, reason) && known == (id in old(jobs))
    {
      if id !in jobs {
        return false;
      }
      jobs := jobs[id := jobs[id].(nextRunAt := Some(when), lastError := Some(reason), updatedAt := at)];
      log := log + [Noted(id, reason)];
      return true;
    }

    method Block(at: int, id: int, copy: JobState, reason: string) returns (r: Result<JobState, Error>)
      modifies this
      ensures (Value(), r) == Parked(old(Value()), at, id, copy, reason)
    {
      r := Transition(at, id, Blocked, reason, PLAIN.(blockedFrom := Some(copy)));
    }

    method TryNextCandidate(at: int, id: int, copy: int, maxFailed: int, reason: string)
      returns (r: Result<JobState, Error>)
      modifies this
      ensures (Value(), r) == NextCandidate(old(Value()), at, id, copy, maxFailed, reason)
    {
      if copy + 1 >= maxFailed {
        questions := questions + [id];
        r := Transition(at, id, Failed, reason, TRY_NEXT);
      } else {
        r := Transition(at, id, Search, reason, TRY_NEXT);
      }
    }

    /** The UPDATE of `auto_resolve_show_questions`. */
    method AutoAdd(id: int, torrent: Option<int>)
      modifies this
      ensures Value() == AutoAdded(old(Value()), id, torrent)
    {
      if id in jobs && jobs[id].state == NeedsInput {
        jobs := jobs[id := jobs[id].(torrentId := torrent, state := Add, lastError := None)];
      }
    }

    /** The DELETE of a batch add. */
    method DropSearches(keep: int, episodes: set<int>)
      modifies this
      ensures Value() == SearchesDropped(old(Value()), keep, episodes)
    {
      jobs := map id | id in jobs && !IsOtherSearch(id, jobs[id], keep, episodes) :: jobs[id];
    }
  }

  // ------------------------------------------------------------ runs

  /** Everything that writes job rows. `Touch` stands for the writes that leave state, kind, attempts and
      the parking note alone: progress, stall timer, last error. */
  datatype Op =
    | Enqueue(episode: int, at: int)
    | Move(at: int, id: int, to: JobState, reason: string, opts: MoveOptions)
    | Park(at: int, id: int, copy: JobState, reason: string)
    | Next(at: int, id: int, attempts: int, maxFailed: int, reason: string)
    | Postpone(at: int, id: int, when: int, reason: string)
    | Touch(id: int, progress: real, lastProgressAt: Option<int>, lastError: Option<string>)
    | ChooseTorrent(id: int, torrent: Option<int>)
    | AutoAdd(id: int, torrent: Option<int>)
    | DropSearches(keep: int, episodes: set<int>)

  function Apply(db: Db, op: Op): Db {
    match op
    case Enqueue(episode, at) => Enqueued(db, episode, at)
    case Move(at, id, to, reason, opts) => Transitioned(db, at, id, to, reason, opts).0
    case Park(at, id, copy, reason) => Parked(db, at, id, copy, reason).0
    case Next(at, id, attempts, maxFailed, reason) => NextCandidate(db, at, id, attempts, maxFailed, reason).0
    case Postpone(at, id, when, reason) => Rescheduled(db, at, id, when, reason)
    case Touch(id, progress, lastProgressAt, lastError) =>
      if id !in db.jobs then db
      else
        db.(jobs := db.jobs[id := db.jobs[id].(progress := progress, lastProgressAt := lastProgressAt,
                                               lastError := lastError)])
    case ChooseTorrent(id, torrent) =>
      if id !in db.jobs then db else db.(jobs := db.jobs[id := db.jobs[id].(torrentId := torrent)])
    case AutoAdd(id, torrent) => AutoAdded(db, id, torrent)
    case DropSearches(keep, episodes) => SearchesDropped(db, keep, episodes)
  }

  function Init(ops: seq<Op>): seq<Op>
    requires ops != []
  {
    ops[..|ops| - 1]
  }

  function Last(ops: seq<Op>): Op
    requires ops != []
  {
    ops[|ops| - 1]
  }

  function Run(db: Db, ops: seq<Op>): Db {
    if ops == [] then db else Apply(Run(db, Init(ops)), Last(ops))
  }

  const EMPTY: Db := Db(map[], [], [], 1)

  // ------------------------------------------------------------ the log and the row agree

  /** A move line for a job. */
  predicate IsMoveOf(line: LogLine, id: int) {
    line.Moved? && line.job == id
  }

  /** Replaying a job's move lines from `search`; none when a line does not start where the last
      one ended. */
  ghost function Replay(log: seq<LogLine>, id: int): Option<JobState> {
    if log == [] then Some(Search)
    else
      var line := log[|log| - 1];
      var before := Replay(log[..|log| - 1], id);
      if !IsMoveOf(line, id) then before
      else if before == Some(line.from) && IsAllowed(line.from, line.to) then Some(line.to)
      else None
  }

  /** The last main step among a job's moves. */
  ghost function LastMainStep(log: seq<LogLine>, id: int): (step: JobState)
    ensures step.IsActive()
  {
    if log == [] then Search
    else
      var line := log[|log| - 1];
      if IsMoveOf(line, id) && line.to.IsActive() then line.to else LastMainStep(log[..|log| - 1], id)
  }

  lemma LogNext(log: seq<LogLine>, line: LogLine, id: int)
    ensures Replay(log + [line], id) ==
            if !IsMoveOf(line, id) then Replay(log, id)
            else if Replay(log, id) == Some(line.from) && IsAllowed(line.from, line.to) then Some(line.to)
            else None
    ensures LastMainStep(log + [line], id) ==
            if IsMoveOf(line, id) && line.to.IsActive() then line.to else LastMainStep(log, id)
  {
    assert (log + [line])[..|log|] == log;
  }

  /** `transition` does not refuse the move. */
  ghost predicate Accepts(db: Db, id: int, to: JobState) {
    id in db.jobs && !db.jobs[id].state.IsTerminal() && (db.jobs[id].state == to || IsAllowed(db.jobs[id].state, to))
  }

  /** The step is the main step the row is in, or the one it is parked from. */
  ghost predicate NamesStep(row: Job, step: JobState) {
    if row.state.IsActive() then step == row.state else row.blockedFrom == Some(step)
  }

  /** A note given for the row with a move that goes through is given for parking, and names its step. */
  ghost predicate NotesStep(db: Db, op: Op, id: int) {
    match op
    case Move(_, j, to, _, opts) =>
      j == id && opts.blockedFrom.Some? && Accepts(db, id, to) ==>
        to == Blocked && NamesStep(db.jobs[id], opts.blockedFrom.value)
    case Park(_, j, copy, _) => j == id && Accepts(db, id, Blocked) ==> NamesStep(db.jobs[id], copy)
    case _ => true
  }

  ghost predicate AllNoteStep(ops: seq<Op>, id: int) {
    ops == [] || (AllNoteStep(Init(ops), id) && NotesStep(Run(EMPTY, Init(ops)), Last(ops), id))
  }

  /** The operation writes the row from waiting for an answer to add, past the log. */
  ghost predicate AutoAdds(db: Db, op: Op, id: int) {
    op.AutoAdd? && op.id == id && id in db.jobs && db.jobs[id].state == NeedsInput
  }

  ghost predicate EverAutoAdded(ops: seq<Op>, id: int) {
    ops != [] && (EverAutoAdded(Init(ops), id) || AutoAdds(Run(EMPTY, Init(ops)), Last(ops), id))
  }

  /** State, kind and parking note of one row against the log. */
  ghost predicate RowAgrees(db: Db, id: int) {
    id in db.jobs ==>
      var job := db.jobs[id];
      && Replay(db.log, id) == Some(job.state)
      && StepAgrees(job, LastMainStep(db.log, id))
  }

  /** Kind and parking note belong to the last main step, and a row in a main step is in that one. */
  ghost predicate StepAgrees(job: Job, step: JobState) {
    && job.kind == KindOfState(step)
    && (job.state.IsActive() ==> job.state == step)
    && (job.state != Blocked ==> job.blockedFrom.None?)
    && (job.blockedFrom.Some? ==> job.blockedFrom.value == step)
  }

  /** An id not given out yet has neither a row nor moves. */
  ghost predicate Unused(db: Db, id: int) {
    id >= db.nextId ==> id !in db.jobs && Replay(db.log, id) == Some(Search) && LastMainStep(db.log, id) == Search
  }

  lemma MoveAgrees(db: Db, at: int, target: int, to: JobState, reason: string, opts: MoveOptions, id: int)
    requires RowAgrees(db, id) && Unused(db, id)
    ensures var after := Transitioned(db, at, target, to, reason, opts).0;
            && Unused(after, id)
            && (NotesStep(db, Move(at, target, to, reason, opts), id) ==> RowAgrees(after, id))
  {
    hide Replay, LastMainStep;
    if target in db.jobs {
      LogNext(db.log, MoveLine(target, db.jobs[target].state, to, reason), id);
    }
  }

  lemma WrongNoteParts(db: Db, at: int, id: int, to: JobState, reason: string, opts: MoveOptions)
    requires RowAgrees(db, id) && id in db.jobs && !NotesStep(db, Move(at, id, to, reason, opts), id)
    requires db.jobs[id].state == Blocked ==> db.jobs[id].blockedFrom.Some?
    ensures !RowAgrees(Transitioned(db, at, id, to, reason, opts).0, id)
  {
    hide Replay, LastMainStep, IsAllowed;
    LogNext(db.log, MoveLine(id, db.jobs[id].state, to, reason), id);
    if to == Blocked && db.jobs[id].state != Blocked { OnlyMainStepsPark(db.jobs[id].state); }
  }

  lemma OnlyMainStepsPark(from: JobState)
    ensures IsAllowed(from, Blocked) ==> from.IsActive()
  {
  }

  lemma OpAgrees(db: Db, op: Op, id: int)
    requires RowAgrees(db, id) && Unused(db, id)
    ensures Unused(Apply(db, op), id)
    ensures NotesStep(db, op, id) && !AutoAdds(db, op, id) ==> RowAgrees(Apply(db, op), id)
  {
    hide Replay, LastMainStep, StepAgrees, Transitioned;
    match op
    case Enqueue(_, _) =>
      LogNext(db.log, Noted(db.nextId, "queued"), id);
      FreshRowAgrees(db, op.episode, op.at, id);
    case Move(at, j, to, reason, opts) => MoveAgrees(db, at, j, to, reason, opts, id);
    case Park(at, j, copy, reason) =>
      MoveAgrees(db, at, j, Blocked, reason, PLAIN.(blockedFrom := Some(copy)), id);
    case Next(at, j, _, _, reason) =>
      MoveAgrees(db, at, j, Search, reason, TRY_NEXT, id);
      MoveAgrees(db.(questions := db.questions + [j]), at, j, Failed, reason, TRY_NEXT, id);
    case Postpone(at, j, when, reason) =>
      LogNext(db.log, Noted(j, reason), id);
      SmallWriteAgrees(db, op, id);
    case Touch(_, _, _, _) => SmallWriteAgrees(db, op, id);
    case ChooseTorrent(_, _) => SmallWriteAgrees(db, op, id);
    case _ =>
  }

  lemma FreshRowAgrees(db: Db, episode: int, at: int, id: int)
    requires RowAgrees(db, id) && Unused(db, id)
    ensures RowAgrees(Enqueued(db, episode, at), id) && Unused(Enqueued(db, episode, at), id)
  {
    LogNext(db.log, Noted(db.nextId, "queued"), id);
  }

  lemma SmallWriteAgrees(db: Db, op: Op, id: int)
    requires RowAgrees(db, id) && Unused(db, id) && (op.Postpone? || op.Touch? || op.ChooseTorrent?)
    ensures RowAgrees(Apply(db, op), id) && Unused(Apply(db, op), id)
  {
    if op.Postpone? { LogNext(db.log, Noted(op.id, op.reason), id); }
  }

  /** Exactly which operations keep a row in agreement with its log: those that give a parking note, if
      any, for its own step, and do not auto-add it. */
  lemma OpKeepsAgreementIff(db: Db, op: Op, id: int)
    requires RowAgrees(db, id) && Unused(db, id) && id in db.jobs && id in Apply(db, op).jobs
    requires db.jobs[id].state == Blocked ==> db.jobs[id].blockedFrom.Some?
    ensures RowAgrees(Apply(db, op), id) <==> NotesStep(db, op, id) && !AutoAdds(db, op, id)
  {
    hide Replay, LastMainStep, Transitioned;
    OpAgrees(db, op, id);
    if !NotesStep(db, op, id) {
      match op
      case Move(at, _, to, reason, opts) => WrongNoteParts(db, at, id, to, reason, opts);
      case Park(at, _, copy, reason) => WrongNoteParts(db, at, id, Blocked, reason, PLAIN.(blockedFrom := Some(copy)));
    }
  }

  /** With an up-to-date copy of the row, parking keeps the agreement unless the row is parked already:
      from every other state it is either refused or right. */
  lemma ParkingKeepsAgreementIffNotParked(db: Db, at: int, id: int, reason: string)
    requires RowAgrees(db, id) && Unused(db, id) && id in db.jobs
    ensures RowAgrees(Parked(db, at, id, db.jobs[id].state, reason).0, id) <==> db.jobs[id].state != Blocked
  {
    hide Replay, LastMainStep, IsAllowed;
    var copy := db.jobs[id].state;
    OnlyMainStepsPark(copy);
    MoveAgrees(db, at, id, Blocked, reason, PLAIN.(blockedFrom := Some(copy)), id);
  }

  lemma {:induction false} AgreesUnlessAutoAdded(ops: seq<Op>, id: int)
    requires AllNoteStep(ops, id) && !EverAutoAdded(ops, id)
    ensures RowAgrees(Run(EMPTY, ops), id) && Unused(Run(EMPTY, ops), id)
    decreases |ops|
  {
    hide Apply, NotesStep, AutoAdds;
    if ops != [] {
      AgreesUnlessAutoAdded(Init(ops), id);
      OpAgrees(Run(EMPTY, Init(ops)), Last(ops), id);
    }
  }

  /** The log has lost the row: it ends at the question, or at a move from somewhere else. */
  ghost predicate LogLost(db: Db, id: int) {
    && id < db.nextId
    && (id in db.jobs ==>
          || Replay(db.log, id) == None
          || (Replay(db.log, id) == Some(NeedsInput) && db.jobs[id].state == Add))
  }

  lemma MoveStaysLost(db: Db, at: int, target: int, to: JobState, reason: string, opts: MoveOptions, id: int)
    requires LogLost(db, id)
    ensures LogLost(Transitioned(db, at, target, to, reason, opts).0, id)
  {
    if target in db.jobs {
      LogNext(db.log, MoveLine(target, db.jobs[target].state, to, reason), id);
    }
  }

  lemma OpStaysLost(db: Db, op: Op, id: int)
    requires LogLost(db, id)
    ensures LogLost(Apply(db, op), id)
  {
    hide Replay, Transitioned;
    match op
    case Enqueue(_, _) => LogNext(db.log, Noted(db.nextId, "queued"), id);
    case Move(at, j, to, reason, opts) => MoveStaysLost(db, at, j, to, reason, opts, id);
    case Park(at, j, copy, reason) =>
      MoveStaysLost(db, at, j, Blocked, reason, PLAIN.(blockedFrom := Some(copy)), id);
    case Next(at, j, _, _, reason) =>
      MoveStaysLost(db, at, j, Search, reason, TRY_NEXT, id);
      MoveStaysLost(db.(questions := db.questions + [j]), at, j, Failed, reason, TRY_NEXT, id);
    case Postpone(_, j, _, reason) => LogNext(db.log, Noted(j, reason), id);
    case _ =>
  }

  lemma {:induction false} LostOnceAutoAdded(ops: seq<Op>, id: int)
    requires AllNoteStep(ops, id) && EverAutoAdded(ops, id)
    ensures LogLost(Run(EMPTY, ops), id)
    decreases |ops|
  {
    hide Replay, NotesStep, LastMainStep, Transitioned;
    var before := Run(EMPTY, Init(ops));
    if EverAutoAdded(Init(ops), id) {
      LostOnceAutoAdded(Init(ops), id);
      OpStaysLost(before, Last(ops), id);
    } else {
      AgreesUnlessAutoAdded(Init(ops), id);
    }
  }

  /** Every run of the job table: replaying a job's logged moves from `search` gives its state by legal
      steps only, its kind is that of its last main step, and a parking note names that step, exactly
      when the job was never auto-added. No later move repairs the log. */
  lemma LogAgreesIffNeverAutoAdded(ops: seq<Op>, id: int)
    requires AllNoteStep(ops, id) && id in Run(EMPTY, ops).jobs
    ensures RowAgrees(Run(EMPTY, ops), id) <==> !EverAutoAdded(ops, id)
  {
    if EverAutoAdded(ops, id) { LostOnceAutoAdded(ops, id); } else { AgreesUnlessAutoAdded(ops, id); }
  }

  /** What a later move does repair: after any move to another main step, kind, state and note belong to the
      last logged main step again. */
  lemma MainMoveRepairsStep(db: Db, at: int, id: int, to: JobState, reason: string, opts: MoveOptions)
    requires Accepts(db, id, to) && to.IsActive() && to != db.jobs[id].state && opts.blockedFrom.None?
    ensures var after := Transitioned(db, at, id, to, reason, opts).0;
            id in after.jobs && LastMainStep(after.log, id) == to && StepAgrees(after.jobs[id], to)
  {
    LogNext(db.log, Moved(id, db.jobs[id].state, to, reason), id);
  }

  const ASKED: seq<Op> := [
    Enqueue(7, 0),
    Move(1, 1, Choose, "candidates remembered", PLAIN),
    Move(2, 1, NeedsInput, "which release?", PLAIN),
    AutoAdd(1, Some(5))
  ]

  /** An input on which row and log part: a job that chose, asked and was auto-added is an add of kind search
      that the log still shows waiting; and the next batch add of its show deletes it. */
  lemma AutoAddPartsRowAndLog()
    ensures var db := Run(EMPTY, ASKED);
            && 1 in db.jobs && db.jobs[1].state == Add && db.jobs[1].kind == SearchKind
            && Replay(db.log, 1) == Some(NeedsInput) && !RowAgrees(db, 1)
            && 1 !in SearchesDropped(db, 2, {7}).jobs
  {
    assert Init(ASKED) == ASKED[..3];
    Asking();
    hide Run;
    var db := Run(EMPTY, ASKED[..3]);
    assert AutoAdded(db, 1, Some(5)).log == db.log;
  }

  lemma Chosen()
    ensures var db := Run(EMPTY, ASKED[..2]);
            && 1 in db.jobs && db.jobs[1].state == Choose && db.jobs[1].kind == SearchKind
            && db.jobs[1].episodeId == 7 && Replay(db.log, 1) == Some(Choose)
  {
    assert Init(ASKED[..2]) == ASKED[..1] && Init(ASKED[..1]) == [];
    var first := Enqueued(EMPTY, 7, 0);
    assert Run(EMPTY, ASKED[..1]) == first;
    LogNext([], Noted(1, "queued"), 1);
    assert [] + [Noted(1, "queued")] == first.log;
    LogNext(first.log, Moved(1, Search, Choose, "candidates remembered"), 1);
  }

  lemma Asking()
    ensures var db := Run(EMPTY, ASKED[..3]);
            && 1 in db.jobs && db.jobs[1].state == NeedsInput && db.jobs[1].kind == SearchKind
            && db.jobs[1].episodeId == 7 && Replay(db.log, 1) == Some(NeedsInput)
  {
    assert Init(ASKED[..3]) == ASKED[..2];
    Chosen();
    LogNext(Run(EMPTY, ASKED[..2]).log, Moved(1, Choose, NeedsInput, "which release?"), 1);
  }

  // ------------------------------------------------------------ what every row keeps

  /** Attempts are not negative, and only a parked row has a note: of a main step, whose kind it has. */
  ghost predicate RowSound(row: Job) {
    && row.attempts >= 0
    && (row.blockedFrom.Some? ==>
          row.state == Blocked && row.blockedFrom.value.IsActive() && row.kind == KindOfState(row.blockedFrom.value))
  }

  ghost predicate IdsGiven(db: Db) {
    forall id :: id in db.jobs ==> id < db.nextId
  }

  lemma MoveKeepsSound(db: Db, at: int, target: int, to: JobState, reason: string, opts: MoveOptions, id: int)
    requires id in db.jobs ==> RowSound(db.jobs[id])
    requires NotesStep(db, Move(at, target, to, reason, opts), id)
    ensures var after := Transitioned(db, at, target, to, reason, opts).0;
            && after.nextId == db.nextId && after.jobs.Keys == db.jobs.Keys
            && (id in after.jobs ==> RowSound(after.jobs[id]))
  {
    hide IsAllowed;
  }

  lemma OpKeepsSound(db: Db, op: Op, id: int)
    requires IdsGiven(db) && (id in db.jobs ==> RowSound(db.jobs[id])) && NotesStep(db, op, id)
    ensures IdsGiven(Apply(db, op)) && (id in Apply(db, op).jobs ==> RowSound(Apply(db, op).jobs[id]))
  {
    hide Transitioned, IsAllowed;
    match op
    case Move(at, j, to, reason, opts) => MoveKeepsSound(db, at, j, to, reason, opts, id);
    case Park(at, j, copy, reason) =>
      MoveKeepsSound(db, at, j, Blocked, reason, PLAIN.(blockedFrom := Some(copy)), id);
    case Next(at, j, _, _, reason) =>
      MoveKeepsSound(db, at, j, Search, reason, TRY_NEXT, id);
      MoveKeepsSound(db.(questions := db.questions + [j]), at, j, Failed, reason, TRY_NEXT, id);
    case _ =>
  }

  /** In every run, auto-adds and deletions included. */
  lemma {:induction false} RowsAreSound(ops: seq<Op>, id: int)
    requires AllNoteStep(ops, id)
    ensures IdsGiven(Run(EMPTY, ops))
    ensures id in Run(EMPTY, ops).jobs ==> RowSound(Run(EMPTY, ops).jobs[id])
    decreases |ops|
  {
    hide Apply, NotesStep, RowSound;
    if ops != [] {
      RowsAreSound(Init(ops), id);
      OpKeepsSound(Run(EMPTY, Init(ops)), Last(ops), id);
    }
  }

  // ------------------------------------------------------------ deletion, done, parking and resuming

  /** The operation deletes the row. */
  ghost predicate Drops(op: Op, id: int, row: Job) {
    op.DropSearches? && IsOtherSearch(id, row, op.keep, op.episodes)
  }

  ghost predicate Dropped(ops: seq<Op>, id: int, row: Job) {
    exists i :: 0 <= i < |ops| && Drops(ops[i], id, row)
  }

  lemma DroppedNext(ops: seq<Op>, id: int, row: Job)
    requires ops != []
    ensures Dropped(ops, id, row) <==> Dropped(Init(ops), id, row) || Drops(Last(ops), id, row)
  {
    if Dropped(Init(ops), id, row) {
      var i :| 0 <= i < |Init(ops)| && Drops(Init(ops)[i], id, row);
      assert Drops(ops[i], id, row);
    }
  }

  ghost predicate SameStanding(a: Job, b: Job) {
    && a.state == b.state && a.kind == b.kind && a.attempts == b.attempts && a.torrentId == b.torrentId
    && a.blockedFrom == b.blockedFrom && a.episodeId == b.episodeId
  }

  /** `done` is never left, whatever callers do; the row itself lasts exactly until a batch add of another
      job covers it. */
  lemma {:induction false} DoneIsFinal(db: Db, ops: seq<Op>, id: int)
    requires id in db.jobs && db.jobs[id].state == Done && id < db.nextId
    ensures id in Run(db, ops).jobs <==> !Dropped(ops, id, db.jobs[id])
    ensures id in Run(db, ops).jobs ==> Run(db, ops).jobs[id].state == Done
    ensures id in Run(db, ops).jobs ==> Run(db, ops).jobs[id].kind == db.jobs[id].kind
    ensures id in Run(db, ops).jobs ==> Run(db, ops).jobs[id].episodeId == db.jobs[id].episodeId
    ensures id < Run(db, ops).nextId
    decreases |ops|
  {
    hide Dropped, Apply;
    if ops == [] {
      NothingDropped(id, db.jobs[id]);
    } else {
      DoneIsFinal(db, Init(ops), id);
      DroppedNext(ops, id, db.jobs[id]);
      OpNeverRevives(Run(db, Init(ops)), Last(ops), id);
      if id in Run(db, Init(ops)).jobs { OpLeavesDone(Run(db, Init(ops)), Last(ops), id); }
    }
  }

  lemma OpLeavesDone(db: Db, op: Op, id: int)
    requires id in db.jobs && db.jobs[id].state == Done && id < db.nextId
    ensures id in Apply(db, op).jobs <==> !Drops(op, id, db.jobs[id])
    ensures id in Apply(db, op).jobs ==>
              Apply(db, op).jobs[id].state == Done && Apply(db, op).jobs[id].kind == db.jobs[id].kind
              && Apply(db, op).jobs[id].episodeId == db.jobs[id].episodeId
  {
    hide IsAllowed, MovedRow;
  }

  lemma OpNeverRevives(db: Db, op: Op, id: int)
    requires id < db.nextId
    ensures id < Apply(db, op).nextId && (id in Apply(db, op).jobs ==> id in db.jobs)
  {
    hide IsAllowed, MovedRow;
  }

  lemma OpLeavesParked(db: Db, op: Op, id: int)
    requires id in db.jobs && db.jobs[id].state == Blocked && id < db.nextId && LeavesParked(op, id)
    ensures id in Apply(db, op).jobs <==> !Drops(op, id, db.jobs[id])
    ensures id in Apply(db, op).jobs ==> SameStanding(Apply(db, op).jobs[id], db.jobs[id])
  {
    hide IsAllowed, MovedRow;
  }

  lemma NothingDropped(id: int, row: Job)
    ensures !Dropped([], id, row)
  {
  }

  /** An operation that neither moves a job nor changes its torrent. Other jobs may do anything. */
  ghost predicate LeavesParked(op: Op, id: int) {
    match op
    case Move(_, j, _, _, _) => j != id
    case Park(_, j, _, _) => j != id
    case Next(_, j, _, _, _) => j != id
    case ChooseTorrent(j, _) => j != id
    case _ => true
  }

  lemma {:induction false} ParkedStands(db: Db, ops: seq<Op>, id: int)
    requires id in db.jobs && db.jobs[id].state == Blocked && id < db.nextId
    requires forall i :: 0 <= i < |ops| ==> LeavesParked(ops[i], id)
    ensures id in Run(db, ops).jobs <==> !Dropped(ops, id, db.jobs[id])
    ensures id in Run(db, ops).jobs ==> SameStanding(Run(db, ops).jobs[id], db.jobs[id])
    ensures id < Run(db, ops).nextId
    decreases |ops|
  {
    hide Dropped, Apply;
    if ops == [] {
      NothingDropped(id, db.jobs[id]);
    } else {
      ParkedStands(db, Init(ops), id);
      assert LeavesParked(Last(ops), id);
      DroppedNext(ops, id, db.jobs[id]);
      OpNeverRevives(Run(db, Init(ops)), Last(ops), id);
      if id in Run(db, Init(ops)).jobs { OpLeavesParked(Run(db, Init(ops)), Last(ops), id); }
    }
  }

  /** A job parked in a main step is still there exactly if no batch add of another job has covered it; and
      then it resumes by a legal move to that same step, however long it waited and whatever other jobs
      did, with its kind, attempts and torrent as they were. */
  lemma ParkThenResume(db: Db, id: int, at: int, reason: string, ops: seq<Op>, later: int, note: string)
    requires id in db.jobs && db.jobs[id].state.IsActive() && id < db.nextId
    requires db.jobs[id].kind == KindOfState(db.jobs[id].state)
    requires forall i :: 0 <= i < |ops| ==> LeavesParked(ops[i], id)
    ensures var step := db.jobs[id].state;
            var parked := Run(Parked(db, at, id, step, reason).0, ops);
            && Parked(db, at, id, step, reason).1 == Ok(step)
            && (id in parked.jobs <==> !Dropped(ops, id, db.jobs[id]))
            && (id in parked.jobs ==>
                  && parked.jobs[id].state == Blocked && parked.jobs[id].blockedFrom == Some(step)
                  && var (after, r) := Transitioned(parked, later, id, step, note, PLAIN);
                     && r == Ok(Blocked)
                     && SameStanding(after.jobs[id], db.jobs[id].(blockedFrom := None)))
  {
    var parked := Parked(db, at, id, db.jobs[id].state, reason).0;
    ParkedStands(parked, ops, id);
    SameCover(ops, id, parked.jobs[id], db.jobs[id]);
  }

  lemma SameCover(ops: seq<Op>, id: int, a: Job, b: Job)
    requires a.episodeId == b.episodeId && a.kind == b.kind
    ensures Dropped(ops, id, a) <==> Dropped(ops, id, b)
  {
    forall i | 0 <= i < |ops| ensures Drops(ops[i], id, a) <==> Drops(ops[i], id, b) {
    }
  }

  // ------------------------------------------------------------ the retry budget

  /** The next operation sends the job back to search for another candidate. */
  ghost predicate Retries(db: Db, op: Op, id: int) {
    op.Next? && op.id == id && op.attempts + 1 < op.maxFailed && Accepts(db, id, Search)
  }

  ghost function RetryCount(db: Db, ops: seq<Op>, id: int): nat {
    if ops == [] then 0
    else RetryCount(db, Init(ops), id) + if Retries(Run(db, Init(ops)), Last(ops), id) then 1 else 0
  }

  /** No attempt reset for the job, one setting throughout, and no copy of the row with fewer attempts than
      the row has. */
  ghost predicate KeepsBudget(db: Db, op: Op, id: int, maxFailed: int) {
    match op
    case Move(_, j, _, _, opts) => j == id ==> !opts.resetAttempts
    case Next(_, j, attempts, max, _) =>
      j == id ==> max == maxFailed && (id in db.jobs ==> attempts >= db.jobs[id].attempts)
    case _ => true
  }

  ghost predicate AllKeepBudget(db: Db, ops: seq<Op>, id: int, maxFailed: int) {
    ops == [] || (AllKeepBudget(db, Init(ops), id, maxFailed)
                  && KeepsBudget(Run(db, Init(ops)), Last(ops), id, maxFailed))
  }

  lemma OneOpUsesAttempts(db: Db, op: Op, id: int, maxFailed: int)
    requires id < db.nextId && KeepsBudget(db, op, id, maxFailed)
    ensures id < Apply(db, op).nextId && (id in Apply(db, op).jobs ==> id in db.jobs)
    ensures id in Apply(db, op).jobs ==>
              db.jobs[id].attempts + (if Retries(db, op, id) then 1 else 0) <= Apply(db, op).jobs[id].attempts
    ensures Retries(db, op, id) ==> id in db.jobs && db.jobs[id].attempts + 1 <= maxFailed - 1
  {
    hide IsAllowed;
    OpNeverRevives(db, op, id);
  }

  /** The measure: every retry uses one of the attempts that are left below the limit. */
  lemma {:induction false} RetriesUseAttempts(db: Db, ops: seq<Op>, id: int, maxFailed: int)
    requires id in db.jobs && id < db.nextId && AllKeepBudget(db, ops, id, maxFailed)
    ensures id < Run(db, ops).nextId
    ensures id in Run(db, ops).jobs ==>
              db.jobs[id].attempts + RetryCount(db, ops, id) <= Run(db, ops).jobs[id].attempts
    ensures RetryCount(db, ops, id) > 0 ==> db.jobs[id].attempts + RetryCount(db, ops, id) <= maxFailed - 1
    decreases |ops|
  {
    hide Retries, Apply, KeepsBudget;
    if ops != [] {
      RetriesUseAttempts(db, Init(ops), id, maxFailed);
      OneOpUsesAttempts(Run(db, Init(ops)), Last(ops), id, maxFailed);
    }
  }

  /** Between two resets of the attempt counter, `next_candidate` sends a job back to search at
      most `max_failed_candidates - 1` times, in any run. */
  lemma RetryBudget(ops: seq<Op>, more: seq<Op>, id: int, maxFailed: int)
    requires AllNoteStep(ops, id) && id in Run(EMPTY, ops).jobs
    requires AllKeepBudget(Run(EMPTY, ops), more, id, maxFailed)
    ensures RetryCount(Run(EMPTY, ops), more, id) <= if maxFailed > 1 then maxFailed - 1 else 0
  {
    RowsAreSound(ops, id);
    RetriesUseAttempts(Run(EMPTY, ops), more, id, maxFailed);
  }

  // ------------------------------------------------------------ moves that are asked for

  /** The states a worker step may ask to move its job to. */
  function StepTargets(state: JobState): set<JobState> {
    match state
    case Search => {Choose, Blocked, Failed}
    case Choose => {Add, NeedsInput, Failed}
    case Add => {Monitor, Choose, NeedsInput, Blocked, Failed}
    case Monitor => {Finalize, Search, Choose, Blocked, Failed}
    case Finalize => {Done, Search, NeedsInput, Blocked, Failed}
    case _ => {}
  }

  /** An add above the size limit that asks, a monitored job without a torrent, a finished download that
      is gone. */
  predicate MovesOffTable(state: JobState, to: JobState) {
    || (state == Add && to == NeedsInput)
    || (state == Monitor && to == Choose)
    || (state == Finalize && to == Search)
  }

  lemma OffTable()
    ensures !IsAllowed(Add, NeedsInput) && !IsAllowed(Monitor, Choose) && !IsAllowed(Finalize, Search)
    ensures !IsAllowed(Add, Finalize)
  {
  }

  lemma OnTable(state: JobState, to: JobState)
    requires to in StepTargets(state)
    requires !MovesOffTable(state, to)
    ensures IsAllowed(state, to)
  {
    match state
    case Search => assert to == Choose || to == Blocked || to == Failed;
    case Choose => assert to == Add || to == NeedsInput || to == Failed;
    case Add => assert to == Monitor || to == Choose || to == Blocked || to == Failed;
    case Monitor => assert to == Finalize || to == Search || to == Blocked || to == Failed;
    case Finalize => assert to == Done || to == NeedsInput || to == Blocked || to == Failed;
    case _ =>
  }

  /** Of the moves that steps ask for, exactly three are not on the table. They leave everything as it is. */
  lemma StepMoveLegalIff(state: JobState, to: JobState, db: Db, at: int, id: int, reason: string, opts: MoveOptions)
    requires to in StepTargets(state) && id in db.jobs && db.jobs[id].state == state
    ensures Transitioned(db, at, id, to, reason, opts) == (db, Err(IllegalTransition(state, to))) <==>
            MovesOffTable(state, to)
  {
    hide IsAllowed, MovedRow;
    OffTable();
    if !MovesOffTable(state, to) {
      OnTable(state, to);
    }
  }

  /** The state that crash recovery moves a job with or without a torrent to; `found` says what the
      download client knows of it, completed or not. None: the row is left to the scheduler. */
  function RecoveryTarget(state: JobState, hasTorrent: bool, found: Option<bool>): Option<JobState> {
    match state
    case Add =>
      if !hasTorrent then Some(Choose)
      else if found.None? then None
      else Some(if found.value then Finalize else Monitor)
    case Monitor =>
      if !hasTorrent then Some(Choose)
      else if found.None? then Some(Search)
      else if found.value then Some(Finalize)
      else None
    case _ => None
  }

  /** Recovery asks for a move that is not on the table in two cases: an added torrent that has
      completed, and a monitored job without a torrent. */
  lemma RecoveryMoveLegalIff(state: JobState, hasTorrent: bool, found: Option<bool>)
    requires RecoveryTarget(state, hasTorrent, found).Some?
    ensures IsAllowed(state, RecoveryTarget(state, hasTorrent, found).value) <==>
            !((state == Add && hasTorrent && found == Some(true)) || (state == Monitor && !hasTorrent))
  {
    hide IsAllowed;
    OffTable();
    if !((state == Add && hasTorrent && found == Some(true)) || (state == Monitor && !hasTorrent)) {
      OnTable(state, RecoveryTarget(state, hasTorrent, found).value);
    }
  }
}
