/** The single-flight job protocol (jobs.py): every database statement, every
    look at the worker thread and every step of the clock is its own event, and
    events of `start`, of the worker and of `cancel` interleave freely. */
module JobProtocol {
  import opened Common

  type Id = string
  type Kind = string

  datatype JobState = Queued | Running | Completed | Failed | Cancelled
  {
    predicate Terminal() { Completed? || Failed? || Cancelled? }
  }

  datatype Job = Job(kind: Kind, state: JobState, created: int, progress: int)

  /** The step a completed job shows: the last of nine. */
  const PROGRESS_TOTAL := 9

  /** A worker thread: not yet at its first write, working, past its final
      write but still alive, gone. */
  datatype Phase = Spawned | Begun | Ending | Dead

  /** Where the holder of the lock stands inside `start`. */
  datatype Starter =
    | Idle
    | Reaping(kind: Kind, stale: set<Id>)
    | Looking(kind: Kind)
    | Checking(kind: Kind)
    | Inserting(kind: Kind)
    | Launching(kind: Kind, id: Id)
    | Replying(kind: Kind, id: Id)

  /** What `start` gave its caller: a job, or `JobBusy`. */
  datatype Reply =
    | Returned(wanted: Kind, id: Id, job: Job)
    | Busy(wanted: Kind, id: Id, job: Job, orphaned: bool)

  datatype State = State(
    now: int,
    timeout: int,
    jobs: map<Id, Job>,
    workers: map<Id, Phase>,
    thread: Option<Id>,
    starter: Starter,
    cancels: multiset<Id>,
    replies: seq<Reply>)
  {
    predicate Active(id: Id) { id in jobs && !jobs[id].state.Terminal() }

    predicate Alive(id: Id) { id in workers && workers[id] != Dead }

    predicate ThreadAlive() { thread.Some? && Alive(thread.value) }

    predicate Stale(id: Id) { Active(id) && jobs[id].created < now - timeout }

    function StaleIds(): set<Id> { set id | id in jobs && Stale(id) }

    function Mark(id: Id, state: JobState): State
      requires id in jobs
    {
      this.(jobs := jobs[id := jobs[id].(state := state)])
    }
  }

  function MarkAll(jobs: map<Id, Job>, ids: set<Id>, state: JobState): map<Id, Job> {
    map id | id in jobs :: if id in ids then jobs[id].(state := state) else jobs[id]
  }

  datatype Event =
    | Clock(time: int)
    | ReapRead(kind: Kind)
    | ReapWrite
    | Look(found: Option<Id>)
    | Check
    | Insert(id: Id)
    | Launch
    | Reply
    | Begin(id: Id)
    | Progress(id: Id, step: int)
    | Finish(id: Id, ok: bool)
    | Exit(id: Id)
    | CancelRead(id: Id)
    | CancelWrite(id: Id)

  ghost predicate Enabled(s: State, e: Event) {
    match e
    case Clock(_) => true
    case ReapRead(_) => s.starter.Idle?
    case ReapWrite => s.starter.Reaping?
    case Look(found) =>
      // `ORDER BY created_at DESC LIMIT 1` over the active rows.
      s.starter.Looking?
      && (found.None? ==> forall id :: id in s.jobs ==> !s.Active(id))
      && (found.Some? ==>
            (s.Active(found.value)
             && forall id :: id in s.jobs && s.Active(id) ==> s.jobs[id].created <= s.jobs[found.value].created))
    case Check => s.starter.Checking?
    case Insert(id) => s.starter.Inserting? && id !in s.jobs && id !in s.workers
    case Launch => s.starter.Launching?
    case Reply => s.starter.Replying? && s.starter.id in s.jobs
    case Begin(id) => id in s.workers && s.workers[id] == Spawned && id in s.jobs
    case Progress(id, _) => id in s.workers && s.workers[id] == Begun && id in s.jobs
    case Finish(id, _) => id in s.workers && s.workers[id] == Begun && id in s.jobs
    case Exit(id) => id in s.workers && s.workers[id] == Ending
    case CancelRead(id) => s.Active(id)
    case CancelWrite(id) => id in s.cancels && id in s.jobs
  }

  function Apply(s: State, e: Event): State
    requires Enabled(s, e)
  {
    match e
    case Clock(time) => s.(now := time)
    case ReapRead(kind) => s.(starter := Reaping(kind, s.StaleIds()))
    case ReapWrite =>
      s.(jobs := MarkAll(s.jobs, s.starter.stale, Failed), starter := Looking(s.starter.kind))
    case Look(found) =>
      if found.None? then s.(starter := Checking(s.starter.kind))
      else
        var job := s.jobs[found.value];
        var reply := if job.kind != s.starter.kind then Busy(s.starter.kind, found.value, job, false)
                     else Returned(s.starter.kind, found.value, job);
        s.(starter := Idle, replies := s.replies + [reply])
    case Check =>
      if s.ThreadAlive() && s.thread.value in s.jobs then
        s.(starter := Idle,
           replies := s.replies + [Busy(s.starter.kind, s.thread.value, s.jobs[s.thread.value], true)])
      else s.(starter := Inserting(s.starter.kind))
    case Insert(id) =>
      s.(jobs := s.jobs[id := Job(s.starter.kind, Queued, s.now, 0)], starter := Launching(s.starter.kind, id))
    case Launch =>
      s.(workers := s.workers[s.starter.id := Spawned], thread := Some(s.starter.id),
         starter := Replying(s.starter.kind, s.starter.id))
    case Reply =>
      s.(starter := Idle,
         replies := s.replies + [Returned(s.starter.kind, s.starter.id, s.jobs[s.starter.id])])
    case Begin(id) => s.Mark(id, Running).(workers := s.workers[id := Begun])
    case Progress(id, step) => s.(jobs := s.jobs[id := s.jobs[id].(progress := step + 1)])
    case Finish(id, ok) =>
      var done := if ok then s.jobs[id].(state := Completed, progress := PROGRESS_TOTAL)
                  else s.jobs[id].(state := Failed);
      s.(jobs := if s.jobs[id].state.Running? then s.jobs[id := done] else s.jobs, workers := s.workers[id := Ending])
    case Exit(id) => s.(workers := s.workers[id := Dead])
    case CancelRead(id) => s.(cancels := s.cancels + multiset{id})
    case CancelWrite(id) => s.Mark(id, Cancelled).(cancels := s.cancels - multiset{id})
  }

  // ---- what an event does, field by field ---------------------------------------------

  /** Which event writes which state over which; nothing else changes the state of a row. */
  ghost predicate WritesState(e: Event, id: Id, stale: set<Id>, was: JobState, now: JobState) {
    || (now == Running && e == Begin(id))
    || (now == Completed && e == Finish(id, true) && was == Running)
    || (now == Failed && e == Finish(id, false) && was == Running)
    || (now == Failed && e == ReapWrite && id in stale)
    || (now == Cancelled && e == CancelWrite(id))
  }

  ghost function BeingReaped(s: State): set<Id> {
    if s.starter.Reaping? then s.starter.stale else {}
  }

  /** A row that is there stays, of the same kind and date; its state is written as above and
      its progress by the worker alone. */
  lemma {:induction false} RowAfter(s: State, e: Event, id: Id)
    requires Enabled(s, e) && id in s.jobs
    ensures id in Apply(s, e).jobs
    ensures var was, after := s.jobs[id], Apply(s, e).jobs[id];
            && after.kind == was.kind && after.created == was.created
            && (after.state == was.state || WritesState(e, id, BeingReaped(s), was.state, after.state))
            && (forall to: JobState :: WritesState(e, id, BeingReaped(s), was.state, to) ==> after.state == to)
            && after.progress == if e.Progress? && e.id == id then e.step + 1
                              else if e == Finish(id, true) && was.state == Running then 9
                              else was.progress
  {
  }

  /** A row that was not there is the one just inserted. */
  lemma NewRow(s: State, e: Event, id: Id)
    requires Enabled(s, e) && id !in s.jobs && id in Apply(s, e).jobs
    ensures e == Insert(id) && s.starter.Inserting?
    ensures Apply(s, e).jobs[id] == Job(s.starter.kind, Queued, s.now, 0)
  {
  }

  /** A worker is spawned by the start that inserted its row, and moves forward by its own events. */
  lemma {:induction false} WorkerAfter(s: State, e: Event, id: Id)
    requires Enabled(s, e) && (id in s.workers || id in Apply(s, e).workers)
    ensures id in Apply(s, e).workers
    ensures var after := Apply(s, e).workers[id];
            || (id in s.workers && after == s.workers[id]
                && e != Begin(id) && !(e.Finish? && e.id == id) && e != Exit(id))
            || (after == Spawned && e == Launch && s.starter == Launching(s.starter.kind, id))
            || (id in s.workers && s.workers[id] == Spawned && after == Begun && e == Begin(id))
            || (id in s.workers && s.workers[id] == Begun && after == Ending && e.Finish? && e.id == id)
            || (id in s.workers && s.workers[id] == Ending && after == Dead && e == Exit(id))
  {
  }

  /** Only the clock moves the time, and a cancel is in flight from its read to its write. */
  lemma {:induction false} RestAfter(s: State, e: Event, id: Id)
    requires Enabled(s, e)
    ensures var s' := Apply(s, e);
            && s'.timeout == s.timeout && s'.now == (if e.Clock? then e.time else s.now)
            && s'.cancels[id] == s.cancels[id] + (if e == CancelRead(id) then 1 else 0)
                                 - (if e == CancelWrite(id) then 1 else 0)
            && s'.thread == (if e == Launch then Some(s.starter.id) else s.thread)
  {
  }

  /** What a reap is about to fail: the rows queued or running when it read the table that were
      created more than the timeout before. */
  lemma ReapReadsOverdue(s: State, kind: Kind, id: Id)
    requires s.starter.Idle?
    ensures Enabled(s, ReapRead(kind)) && Apply(s, ReapRead(kind)).starter.Reaping?
    ensures id in Apply(s, ReapRead(kind)).starter.stale <==>
              && id in s.jobs && (s.jobs[id].state == Queued || s.jobs[id].state == Running)
              && s.jobs[id].created < s.now - s.timeout
  {
  }

  /** A reply is given by the start that looked, checked or finished, for the kind it was asked
      for, about a row as it stands: refused if the row is of another kind, or if it is the row
      of a worker that is still alive although no row is queued or running. */
  lemma {:induction false} ReplyAfter(s: State, e: Event)
    requires Enabled(s, e)
    ensures var s' := Apply(s, e);
            || s'.replies == s.replies
            || (e.Look? && e.found.Some? && e.found.value in s.jobs
                && var job := s.jobs[e.found.value];
                   s'.replies == s.replies + [if job.kind == s.starter.kind
                                              then Returned(s.starter.kind, e.found.value, job)
                                              else Busy(s.starter.kind, e.found.value, job, false)])
            || (e == Check && s.thread.Some? && s.thread.value in s.jobs && s.thread.value in s.workers
                && s.workers[s.thread.value] != Dead
                && s'.replies == s.replies + [Busy(s.starter.kind, s.thread.value, s.jobs[s.thread.value], true)])
            || (e == Event.Reply && s.starter.Replying? && s.starter.id in s.jobs
                && s'.replies == s.replies + [Returned(s.starter.kind, s.starter.id, s.jobs[s.starter.id])])
    ensures (e.Look? && e.found.Some?) || e == Event.Reply ==> Apply(s, e).replies != s.replies
    ensures Apply(s, e).replies != s.replies ==> Apply(s, e).starter == Idle
  {
  }

  /** A new process on a table left by an earlier one. */
  ghost predicate Init(s: State) {
    && s.workers == map[] && s.thread.None? && s.starter.Idle?
    && s.cancels == multiset{} && s.replies == []
    && forall a, b :: s.Active(a) && s.Active(b) ==> a == b
  }

  ghost predicate Legal(s: State, trace: seq<Event>)
    decreases |trace|
  {
    trace == [] || (Enabled(s, trace[0]) && Legal(Apply(s, trace[0]), trace[1..]))
  }

  ghost function After(s: State, trace: seq<Event>): State
    requires Legal(s, trace)
    decreases |trace|
  {
    if trace == [] then s else After(Apply(s, trace[0]), trace[1..])
  }

  // ---- single flight ---------------------------------------------------------------

  /** At most one live worker, at most one row queued or running. */
  ghost predicate SingleFlight(s: State) {
    && (forall a, b :: s.Alive(a) && s.Alive(b) ==> a == b)
    && (forall a, b :: s.Active(a) && s.Active(b) ==> a == b)
  }

  ghost predicate Quiet(s: State) {
    forall id :: !s.Alive(id)
  }

  /** The lock's thread field names the only worker that can be alive, and a
      job's row keeps pace with its worker. */
  ghost predicate WorkersInv(s: State) {
    && (forall id :: id in s.workers ==> id in s.jobs)
    && (s.thread.Some? ==> s.thread.value in s.workers)
    && (forall id :: s.Alive(id) ==> s.thread == Some(id))
    && (forall id :: id in s.workers && s.workers[id] == Begun ==> !s.jobs[id].state.Queued?)
    && (forall id :: id in s.workers && s.workers[id] in {Ending, Dead} ==> s.jobs[id].state.Terminal())
  }

  /** One live row at most; beside a live worker it is that worker's own. */
  ghost predicate RowsInv(s: State) {
    && (forall a, b :: s.Active(a) && s.Active(b) ==> a == b)
    && (forall a, w :: s.Active(a) && s.Alive(w) ==> a == w)
  }

  /** What the holder of the lock can rely on while others keep stepping. */
  ghost predicate StarterInv(s: State) {
    match s.starter
    case Checking(_) => forall a :: s.Active(a) ==> s.Alive(a)
    case Inserting(_) => Quiet(s) && forall id :: !s.Active(id)
    case Launching(kind, id) =>
      Quiet(s) && id in s.jobs && id !in s.workers && s.jobs[id].kind == kind
      && forall a :: s.Active(a) ==> a == id
    case Replying(kind, id) => id in s.workers && id in s.jobs && s.jobs[id].kind == kind
    case _ => true
  }

  ghost predicate Inv(s: State) {
    WorkersInv(s) && RowsInv(s) && StarterInv(s)
  }

  lemma {:induction false} InitInv(s: State)
    requires Init(s)
    ensures Inv(s)
  {
  }

  /** Only the insert of a new job and a worker's first write make a row live. */
  lemma WhatBecomesActive(s: State, e: Event, a: Id)
    requires Enabled(s, e) && Apply(s, e).Active(a)
    ensures s.Active(a) || (e.Insert? && a == e.id) || (e.Begin? && a == e.id)
  {
  }

  lemma WhoComesAlive(s: State, e: Event, w: Id)
    requires Enabled(s, e) && Apply(s, e).Alive(w)
    ensures s.Alive(w) || (e.Launch? && s.starter.id == w)
  {
  }

  lemma {:induction false} StepWorkers(s: State, e: Event)
    requires Inv(s) && Enabled(s, e)
    ensures WorkersInv(Apply(s, e))
  {
    forall w | Apply(s, e).Alive(w)
      ensures s.Alive(w) || (e.Launch? && s.starter.id == w)
    {
      WhoComesAlive(s, e, w);
    }
  }

  lemma {:induction false} StepRows(s: State, e: Event)
    requires Inv(s) && Enabled(s, e)
    ensures RowsInv(Apply(s, e))
  {
    forall a | Apply(s, e).Active(a)
      ensures s.Active(a) || (e.Insert? && a == e.id) || (e.Begin? && a == e.id)
    {
      WhatBecomesActive(s, e, a);
    }
    forall w | Apply(s, e).Alive(w)
      ensures s.Alive(w) || (e.Launch? && s.starter.id == w)
    {
      WhoComesAlive(s, e, w);
    }
    assert e.Begin? ==> s.Alive(e.id);
  }

  lemma {:induction false} StepStarter(s: State, e: Event)
    requires Inv(s) && Enabled(s, e)
    ensures StarterInv(Apply(s, e))
  {
    forall a | Apply(s, e).Active(a)
      ensures s.Active(a) || (e.Insert? && a == e.id) || (e.Begin? && a == e.id)
    {
      WhatBecomesActive(s, e, a);
    }
    forall w | Apply(s, e).Alive(w)
      ensures s.Alive(w) || (e.Launch? && s.starter.id == w)
    {
      WhoComesAlive(s, e, w);
    }
    match e
    case Begin(id) => assert s.Alive(id);
    case Exit(id) => assert s.Alive(id);
    case Check => assert s.ThreadAlive() || Quiet(s);
    case _ =>
  }

  lemma {:induction false} StepInv(s: State, e: Event)
    requires Inv(s) && Enabled(s, e)
    ensures Inv(Apply(s, e))
  {
    StepWorkers(s, e);
    StepRows(s, e);
    StepStarter(s, e);
  }

  lemma {:induction false} InvAlways(s: State, trace: seq<Event>)
    requires Inv(s) && Legal(s, trace)
    ensures Inv(After(s, trace))
    decreases |trace|
  {
    if trace == [] {
    } else {
      StepInv(s, trace[0]);
      InvAlways(Apply(s, trace[0]), trace[1..]);
    }
  }

  /** Over every interleaving of a process: one worker, one live row. */
  lemma {:induction false} AlwaysSingleFlight(s: State, trace: seq<Event>)
    requires Init(s) && Legal(s, trace)
    ensures SingleFlight(After(s, trace))
  {
    InitInv(s);
    InvAlways(s, trace);
  }

  // ---- when a terminal state is final ------------------------------------------------

  /** Nothing in flight can still overwrite the terminal state of `id`: its
      worker is not about to make its unconditional first write, and no cancel
      or reap that has already read the row would write another state. */
  ghost predicate Settled(s: State, id: Id) {
    && id in s.jobs && s.jobs[id].state.Terminal()
    && !(id in s.workers && s.workers[id] == Spawned)
    && !(s.starter.Launching? && s.starter.id == id)
    && (id in s.cancels ==> s.jobs[id].state == Cancelled)
    && (s.starter.Reaping? && id in s.starter.stale ==> s.jobs[id].state == Failed)
  }

  lemma {:induction false} SettledStep(s: State, e: Event, id: Id)
    requires Inv(s) && Enabled(s, e) && Settled(s, id)
    ensures Settled(Apply(s, e), id) && Apply(s, e).jobs[id].state == s.jobs[id].state
  {
  }

  lemma {:induction false} SettledForever(s: State, trace: seq<Event>, id: Id)
    requires Inv(s) && Legal(s, trace) && Settled(s, id)
    ensures id in After(s, trace).jobs && After(s, trace).jobs[id].state == s.jobs[id].state
    decreases |trace|
  {
    if trace == [] {
    } else {
      StepInv(s, trace[0]);
      SettledStep(s, trace[0], id);
      SettledForever(Apply(s, trace[0]), trace[1..], id);
    }
  }

  /** Otherwise some continuation changes it. */
  lemma {:induction false} UnsettledCanChange(s: State, id: Id) returns (trace: seq<Event>)
    requires Inv(s) && id in s.jobs && s.jobs[id].state.Terminal() && !Settled(s, id)
    ensures Legal(s, trace) && id in After(s, trace).jobs
    ensures After(s, trace).jobs[id].state != s.jobs[id].state
  {
    if id in s.workers && s.workers[id] == Spawned {
      trace := [Begin(id)];
      OneEvent(s, Begin(id));
    } else if s.starter.Launching? && s.starter.id == id {
      trace := [Launch, Begin(id)];
      assert trace[1..] == [Begin(id)];
      OneEvent(Apply(s, Launch), Begin(id));
    } else if id in s.cancels && s.jobs[id].state != Cancelled {
      trace := [CancelWrite(id)];
      OneEvent(s, CancelWrite(id));
    } else {
      trace := [ReapWrite];
      OneEvent(s, ReapWrite);
    }
  }

  lemma OneEvent(s: State, e: Event)
    requires Enabled(s, e)
    ensures Legal(s, [e]) && After(s, [e]) == Apply(s, e)
  {
    assert [e][1..] == [];
  }

  /** A terminal state survives every continuation exactly when it is settled. */
  lemma {:induction false} TerminalIsFinalExactlyWhen(s: State, id: Id)
    requires Inv(s) && id in s.jobs && s.jobs[id].state.Terminal()
    ensures Settled(s, id)
            <==> forall trace :: Legal(s, trace) ==>
                   id in After(s, trace).jobs && After(s, trace).jobs[id].state == s.jobs[id].state
  {
    if Settled(s, id) {
      forall trace | Legal(s, trace)
        ensures id in After(s, trace).jobs && After(s, trace).jobs[id].state == s.jobs[id].state
      {
        SettledForever(s, trace, id);
      }
    } else {
      var trace := UnsettledCanChange(s, id);
    }
  }

  /** A cancel written once the worker has begun is final, unless a reap that
      read the row earlier is still to write. */
  lemma {:induction false} CancelAfterBeginIsFinal(s: State, id: Id, trace: seq<Event>)
    requires Inv(s) && Enabled(s, CancelWrite(id)) && Legal(Apply(s, CancelWrite(id)), trace)
    requires id in s.workers && s.workers[id] != Spawned
    requires s.starter.Reaping? ==> id !in s.starter.stale
    ensures var end := After(Apply(s, CancelWrite(id)), trace);
            id in end.jobs && end.jobs[id].state == Cancelled
  {
    var s' := Apply(s, CancelWrite(id));
    StepInv(s, CancelWrite(id));
    assert Settled(s', id);
    SettledForever(s', trace, id);
  }

  // ---- what start answers --------------------------------------------------------------

  /** A returned job is of the kind asked for; a refusal names a job of another
      kind, or an orphan whose worker has not stopped. */
  ghost predicate Honest(reply: Reply) {
    match reply
    case Returned(wanted, _, job) => job.kind == wanted
    case Busy(wanted, _, job, orphaned) => orphaned || job.kind != wanted
  }

  lemma {:induction false} RepliesAreHonest(s: State, trace: seq<Event>)
    requires Inv(s) && Legal(s, trace) && forall r :: r in s.replies ==> Honest(r)
    ensures forall r :: r in After(s, trace).replies ==> Honest(r)
    decreases |trace|
  {
    if trace == [] {
    } else {
      StepInv(s, trace[0]);
      RepliesAreHonest(Apply(s, trace[0]), trace[1..]);
    }
  }

  /** A live thread always has a row to report, so `start` never falls through
      to a second worker. */
  lemma OrphanHasARow(s: State)
    requires Inv(s) && s.starter.Checking? && s.ThreadAlive()
    ensures s.thread.value in s.jobs && Apply(s, Check).starter.Idle?
  {
  }

  /** A `start` that cannot be refused: no worker lives, and every live row is
      among those its reap will fail. `known` are the jobs it began with. */
  ghost predicate Clear(s: State, kind: Kind, known: set<Id>) {
    && known <= s.jobs.Keys
    && match s.starter
       case Idle => false
       case Reaping(k, stale) => k == kind && Quiet(s) && forall a :: s.Active(a) ==> a in stale
       case Launching(k, id) => k == kind && id !in known
       case Replying(k, id) => k == kind && id !in known
       case _ => s.starter.kind == kind && Quiet(s) && forall a :: !s.Active(a)
  }

  lemma {:induction false} ClearStep(s: State, e: Event, kind: Kind, known: set<Id>)
    requires Inv(s) && Enabled(s, e) && Clear(s, kind, known)
    ensures var s' := Apply(s, e);
            if e.Reply? then
              exists id: Id, job: Job :: id !in known && job.kind == kind
                                         && s'.replies == s.replies + [Returned(kind, id, job)]
            else Clear(s', kind, known) && s'.replies == s.replies
  {
    forall w | Apply(s, e).Alive(w)
      ensures s.Alive(w) || (e.Launch? && s.starter.id == w)
    {
      WhoComesAlive(s, e, w);
    }
    forall a | Apply(s, e).Active(a)
      ensures s.Active(a) || (e.Insert? && a == e.id) || (e.Begin? && a == e.id)
    {
      WhatBecomesActive(s, e, a);
    }
    if e.Begin? {
      assert s.Alive(e.id);
    }
    if e.Reply? {
      assert Apply(s, e).replies == s.replies + [Returned(kind, s.starter.id, s.jobs[s.starter.id])];
    }
  }

  /** Once the last worker has ended and every live row has timed out, the next
      `start` creates a job, whatever else interleaves with it. */
  lemma {:induction false} NextStartCreates(s: State, kind: Kind, known: set<Id>, trace: seq<Event>)
    requires Inv(s) && Clear(s, kind, known) && Legal(s, trace)
    ensures var end := After(s, trace);
            s.replies <= end.replies
            && (|end.replies| > |s.replies| ==>
                  var r := end.replies[|s.replies|];
                  r.Returned? && r.wanted == kind == r.job.kind && r.id !in known)
    decreases |trace|
  {
    if trace == [] {
    } else {
      var s' := Apply(s, trace[0]);
      StepInv(s, trace[0]);
      ClearStep(s, trace[0], kind, known);
      if trace[0].Reply? {
        RepliesGrow(s', trace[1..]);
      } else {
        NextStartCreates(s', kind, known, trace[1..]);
      }
    }
  }

  lemma {:induction false} RepliesGrow(s: State, trace: seq<Event>)
    requires Legal(s, trace)
    ensures s.replies <= After(s, trace).replies
    decreases |trace|
  {
    if trace == [] {
    } else {
      RepliesGrow(Apply(s, trace[0]), trace[1..]);
    }
  }

  // ---- start always completes --------------------------------------------------------------

  /** Steps a `start` has still to take. */
  function StepsLeft(starter: Starter): nat {
    match starter
    case Idle => 0
    case Replying(_, _) => 1
    case Launching(_, _) => 2
    case Inserting(_) => 3
    case Checking(_) => 4
    case Looking(_) => 5
    case Reaping(_, _) => 6
  }

  predicate OfStart(e: Event) {
    e.ReapWrite? || e.Look? || e.Check? || e.Insert? || e.Launch? || e.Reply?
  }

  /** A live worker is never stuck, the clock is always free, and a cancel can read any row
      queued or running. */
  lemma {:induction false} OthersAreNeverStuck(s: State, id: Id, step: int, ok: bool, time: int)
    requires Inv(s)
    ensures Enabled(s, Clock(time))
    ensures id in s.workers ==>
              match s.workers[id]
              case Spawned => Enabled(s, Begin(id))
              case Begun => Enabled(s, Event.Progress(id, step)) && Enabled(s, Finish(id, ok))
              case Ending => Enabled(s, Exit(id))
              case Dead => true
    ensures id in s.jobs && (s.jobs[id].state == Queued || s.jobs[id].state == Running) ==> Enabled(s, CancelRead(id))
    ensures id in s.jobs && s.cancels[id] > 0 ==> Enabled(s, CancelWrite(id))
  {
  }

  lemma SomeMember(ids: set<Id>) returns (id: Id)
    requires ids != {}
    ensures id in ids
  {
    id :| id in ids;
  }

  lemma {:induction false} NewestOf(jobs: map<Id, Job>, ids: set<Id>) returns (newest: Id)
    requires ids != {} && ids <= jobs.Keys
    ensures newest in ids && forall id :: id in ids ==> jobs[id].created <= jobs[newest].created
    decreases |ids|
  {
    newest := SomeMember(ids);
    var rest := ids - {newest};
    if rest != {} {
      var other := NewestOf(jobs, rest);
      if jobs[newest].created < jobs[other].created {
        newest := other;
      }
    }
  }

  lemma {:induction false} LongerThanAll(ids: set<Id>) returns (n: nat)
    ensures forall id :: id in ids ==> |id| < n
    decreases |ids|
  {
    n := 0;
    if ids != {} {
      var id := SomeMember(ids);
      n := LongerThanAll(ids - {id});
      n := if |id| < n then n else |id| + 1;
    }
  }

  lemma FreshId(ids: set<Id>) returns (id: Id)
    ensures id !in ids
  {
    var n := LongerThanAll(ids);
    id := seq(n, _ => 'x');
  }

  /** A start under way is never stuck: some step of its own is enabled. */
  lemma {:induction false} StartIsNeverStuck(s: State) returns (e: Event)
    requires Inv(s) && !s.starter.Idle?
    ensures OfStart(e) && Enabled(s, e)
  {
    match s.starter
    case Reaping(_, _) => e := ReapWrite;
    case Looking(_) =>
      var active := set id | id in s.jobs && s.Active(id);
      if active == {} {
        assert forall id :: id in s.jobs && s.Active(id) ==> id in active;
        e := Look(None);
      } else {
        var newest := NewestOf(s.jobs, active);
        assert forall id :: id in s.jobs && s.Active(id) ==> id in active;
        e := Look(Some(newest));
      }
    case Checking(_) => e := Check;
    case Inserting(_) =>
      var id := FreshId(s.jobs.Keys + s.workers.Keys);
      e := Insert(id);
    case Launching(_, _) => e := Launch;
    case Replying(_, _) => e := Event.Reply;
  }

  /** Each of its steps brings it closer to its reply, and nobody else's step moves it. */
  lemma {:induction false} StartAdvances(s: State, e: Event)
    requires Enabled(s, e) && !e.ReapRead?
    ensures if OfStart(e) then StepsLeft(Apply(s, e).starter) < StepsLeft(s.starter)
            else Apply(s, e).starter == s.starter
  {
  }

  /** A clear `start` has a continuation of at most six steps in which it returns the job
      it created. */
  lemma {:induction false} ClearStartReturns(s: State, kind: Kind, known: set<Id>) returns (trace: seq<Event>)
    requires Inv(s) && Clear(s, kind, known)
    ensures Legal(s, trace) && |trace| <= StepsLeft(s.starter)
    ensures exists id: Id, job: Job :: id !in known && job.kind == kind
                                       && After(s, trace).replies == s.replies + [Returned(kind, id, job)]
    decreases StepsLeft(s.starter)
  {
    var e := StartIsNeverStuck(s);
    var s' := Apply(s, e);
    StepInv(s, e);
    StartAdvances(s, e);
    ClearStep(s, e, kind, known);
    if e.Reply? {
      trace := [e];
      OneEvent(s, e);
    } else {
      var rest := ClearStartReturns(s', kind, known);
      trace := [e] + rest;
      assert trace[1..] == rest;
    }
  }

  /** The last worker has ended and every live row has timed out. */
  ghost predicate SlotFree(s: State) {
    Quiet(s) && forall a :: s.Active(a) ==> s.Stale(a)
  }

  /** Such a `start` exists as soon as the lock is free. */
  lemma {:induction false} TimedOutSlotIsClear(s: State, kind: Kind)
    requires Inv(s) && s.starter.Idle? && SlotFree(s)
    ensures Clear(Apply(s, ReapRead(kind)), kind, s.jobs.Keys)
  {
    var s' := Apply(s, ReapRead(kind));
    forall w ensures !s'.Alive(w) {
      assert !s.Alive(w);
    }
    forall a | s'.Active(a) ensures a in s'.starter.stale {
      assert s.Active(a);
    }
  }
}

/** The manager itself: the methods of `JobManager`, each run without
    interruption, are behaviours of the protocol. */
module JobManagers {
  import opened Common
  import opened JobProtocol

  class JobManager {
    const timeout: int
    var jobs: map<Id, Job>
    var workers: map<Id, Phase>
    var thread: Option<Id>

    ghost function View(now: int): State
      reads this
    {
      State(now, timeout, jobs, workers, thread, Idle, multiset{}, [])
    }

    /** A new process on the table an earlier one left behind. */
    constructor (table: map<Id, Job>, timeoutSeconds: int, now: int)
      ensures timeout == timeoutSeconds && workers == map[] && thread == None
      ensures var s := State(now, timeoutSeconds, table, map[], None, Idle, multiset{}, []);
              jobs == MarkAll(table, s.StaleIds(), Failed)
      ensures (forall a, b :: a in table && b in table && !table[a].state.Terminal() && !table[b].state.Terminal()
                              ==> a == b) ==>
                Init(View(now))
    {
      timeout := timeoutSeconds;
      jobs, workers, thread := table, map[], None;
      new;
      var n := ReapStale(now);
    }

    /** `reap_stale`. */
    method ReapStale(now: int) returns (count: nat)
      modifies this`jobs
      ensures jobs == MarkAll(old(jobs), old(View(now).StaleIds()), Failed)
      ensures count == |old(View(now).StaleIds())|
      ensures jobs.Keys == old(jobs.Keys)
      ensures forall id :: id in jobs ==> IfOverdueFailed(old(jobs)[id], jobs[id], now - timeout)
    {
      var cutoff := now - timeout;
      var ids := set id | id in jobs && jobs[id].state in {Running, Queued} && jobs[id].created < cutoff;
      assert ids == View(now).StaleIds();
      if ids != {} {
        jobs := MarkAll(jobs, ids, Failed);
      }
      count := |ids|;
    }

    /** `active_job`: the newest row that is queued or running. */
    method ActiveJob() returns (found: Option<Id>)
      ensures found.None? <==> forall id :: id in jobs ==> jobs[id].state.Terminal()
      ensures found.Some? ==> found.value in jobs && !jobs[found.value].state.Terminal()
      ensures found.Some? ==> forall id :: id in jobs && !jobs[id].state.Terminal() ==>
                                jobs[id].created <= jobs[found.value].created
    {
      found := None;
      var left := set id | id in jobs && !jobs[id].state.Terminal();
      ghost var all := left;
      while left != {}
        invariant left <= all
        invariant found.None? ==> left == all
        invariant found.Some? ==> found.value in all
        invariant found.Some? ==> forall id :: id in all && id !in left ==>
                                    jobs[id].created <= jobs[found.value].created
        decreases left
      {
        var id :| id in left;
        if found.None? || jobs[found.value].created < jobs[id].created {
          found := Some(id);
        }
        left := left - {id};
      }
      if found.None? {
        forall id | id in jobs ensures jobs[id].state.Terminal() {
          assert id !in all;
        }
      } else {
        forall id | id in jobs && !jobs[id].state.Terminal()
          ensures jobs[id].created <= jobs[found.value].created
        {
          assert id in all;
        }
      }
    }

    /** `start`. */
    method Start(kind: Kind, now: int, freshId: Id) returns (reply: JobProtocol.Reply, ghost trace: seq<Event>)
      requires Inv(View(now)) && freshId !in jobs
      modifies this
      ensures Legal(old(View(now)), trace) && After(old(View(now)), trace) == View(now).(replies := [reply])
      ensures Honest(reply)
      ensures Answers(reply, kind, old(jobs), old(workers), now - timeout, freshId, now)
      ensures reply.id == freshId ==> freshId in jobs && jobs[freshId] == reply.job
    {
      ghost var s0 := View(now);
      var n := ReapStale(now);
      ghost var reaped := Reaped(s0);
      assert View(now) == reaped;
      var found := ActiveJob();
      if found.Some? {
        var job := jobs[found.value];
        reply := if job.kind != kind then Busy(kind, found.value, job, false) else Returned(kind, found.value, job);
        trace := FoundTrace(s0, kind, found.value);
        SlotIsHeld(s0, found.value);
        AnswersFromTheSlot(reply, kind, s0, freshId);
        return;
      }
      reply, trace := StartNew(kind, now, freshId, s0);
    }

    /** The rest of `start`, once no row is queued or running: a worker may still be alive. */
    method StartNew(kind: Kind, now: int, freshId: Id, ghost s0: State)
      returns (reply: JobProtocol.Reply, ghost trace: seq<Event>)
      requires Inv(s0) && s0.starter.Idle? && s0.replies == [] && s0.now == now && s0.timeout == timeout
      requires View(now) == Reaped(s0) && NoneActive(Reaped(s0)) && freshId !in jobs
      modifies this
      ensures Legal(s0, trace) && After(s0, trace) == View(now).(replies := [reply])
      ensures Honest(reply)
      ensures Answers(reply, kind, s0.jobs, s0.workers, now - timeout, freshId, now)
      ensures reply.id == freshId ==> freshId in jobs && jobs[freshId] == reply.job
    {
      SlotIsEmpty(s0);
      if thread.Some? && thread.value in workers && workers[thread.value] != Dead && thread.value in jobs {
        reply := Busy(kind, thread.value, jobs[thread.value], true);
        trace := OrphanTrace(s0, kind);
        AnswersFromAnOrphan(reply, kind, s0, freshId);
        return;
      }
      NoneAlive(s0);
      trace := CreateTrace(s0, kind, freshId);
      jobs := jobs[freshId := Job(kind, Queued, now, 0)];
      workers := workers[freshId := Spawned];
      thread := Some(freshId);
      reply := Returned(kind, freshId, jobs[freshId]);
    }

    /** The worker's first write, which does not look at the state it replaces. */
    method BeginWork(id: Id, now: int)
      requires Enabled(View(now), Begin(id))
      modifies this`jobs, this`workers
      ensures View(now) == Apply(old(View(now)), Begin(id))
    {
      jobs := jobs[id := jobs[id].(state := Running)];
      workers := workers[id := Begun];
    }

    /** The worker's last write, made only over a row still RUNNING. */
    method FinishWork(id: Id, ok: bool, now: int)
      requires Enabled(View(now), Finish(id, ok))
      modifies this`jobs, this`workers
      ensures View(now) == Apply(old(View(now)), Finish(id, ok))
    {
      if jobs[id].state == Running {
        jobs := jobs[id := if ok then jobs[id].(state := Completed, progress := PROGRESS_TOTAL)
                           else jobs[id].(state := Failed)];
      }
      workers := workers[id := Ending];
    }

    /** `cancel`: read, then write. */
    method Cancel(id: Id, now: int) returns (cancelled: bool)
      modifies this`jobs
      ensures cancelled <==> old(View(now)).Active(id)
      ensures !cancelled ==> jobs == old(jobs)
      ensures cancelled ==> Legal(old(View(now)), [CancelRead(id), CancelWrite(id)])
                            && After(old(View(now)), [CancelRead(id), CancelWrite(id)]) == View(now)
    {
      if id !in jobs || jobs[id].state.Terminal() {
        return false;
      }
      TwoEvents(View(now), CancelRead(id), CancelWrite(id));
      jobs := jobs[id := jobs[id].(state := Cancelled)];
      return true;
    }
  }

  /** A row queued or running that was created no earlier than the cutoff. */
  ghost predicate InTime(jobs: map<Id, Job>, id: Id, cutoff: int) {
    id in jobs && (jobs[id].state == Queued || jobs[id].state == Running) && jobs[id].created >= cutoff
  }

  ghost predicate HoldsTheSlot(jobs: map<Id, Job>, cutoff: int) {
    exists id :: InTime(jobs, id, cutoff)
  }

  /** A row queued or running that was created before the cutoff is failed, and only such a row. */
  ghost predicate IfOverdueFailed(was: Job, job: Job, cutoff: int) {
    if (was.state == Queued || was.state == Running) && was.created < cutoff
    then job == Job(was.kind, Failed, was.created, was.progress)
    else job == was
  }

  ghost predicate StillAlive(workers: map<Id, Phase>, id: Id) {
    id in workers && workers[id] != Dead
  }

  /** What a start owes its caller: the row that holds the slot, or a refusal naming it if it is of
      another kind; else a refusal naming a worker still alive; else the job it has inserted. */
  ghost predicate Answers(reply: JobProtocol.Reply, kind: Kind, jobs: map<Id, Job>, workers: map<Id, Phase>,
                          cutoff: int, freshId: Id, now: int)
  {
    && reply.wanted == kind
    && if HoldsTheSlot(jobs, cutoff) then
         && InTime(jobs, reply.id, cutoff) && reply.job == jobs[reply.id]
         && (if reply.job.kind == kind then reply.Returned? else reply.Busy? && !reply.orphaned)
       else if SomeAlive(workers) then reply.Busy? && reply.orphaned && StillAlive(workers, reply.id)
       else reply == Returned(kind, freshId, Job(kind, Queued, now, 0))
  }

  lemma AnswersFromTheSlot(reply: JobProtocol.Reply, kind: Kind, s: State, freshId: Id)
    requires InTime(s.jobs, reply.id, s.now - s.timeout) && reply.job == s.jobs[reply.id]
    requires HoldsTheSlot(s.jobs, s.now - s.timeout)
    requires reply == if reply.job.kind != kind then Busy(kind, reply.id, reply.job, false)
                      else Returned(kind, reply.id, reply.job)
    ensures Answers(reply, kind, s.jobs, s.workers, s.now - s.timeout, freshId, s.now)
  {
  }

  lemma AnswersFromAnOrphan(reply: JobProtocol.Reply, kind: Kind, s: State, freshId: Id)
    requires !HoldsTheSlot(s.jobs, s.now - s.timeout) && reply.Busy? && reply.orphaned && reply.wanted == kind
    requires reply.id in s.workers && s.workers[reply.id] != Dead
    ensures Answers(reply, kind, s.jobs, s.workers, s.now - s.timeout, freshId, s.now)
  {
    assert StillAlive(s.workers, reply.id);
  }

  ghost predicate SomeAlive(workers: map<Id, Phase>) {
    exists id :: StillAlive(workers, id)
  }

  lemma SlotIsHeld(s: State, id: Id)
    requires Reaped(s).Active(id)
    ensures s.Active(id) && !s.Stale(id) && Reaped(s).jobs[id] == s.jobs[id]
    ensures InTime(s.jobs, id, s.now - s.timeout) && HoldsTheSlot(s.jobs, s.now - s.timeout)
  {
    var cutoff := s.now - s.timeout;
    assert InTime(s.jobs, id, cutoff);
  }

  lemma SlotIsEmpty(s: State)
    requires NoneActive(Reaped(s))
    ensures !HoldsTheSlot(s.jobs, s.now - s.timeout)
  {
    var cutoff := s.now - s.timeout;
    if HoldsTheSlot(s.jobs, cutoff) {
      var id :| InTime(s.jobs, id, cutoff);
      assert Reaped(s).Active(id);
    }
  }

  lemma NoneAlive(s: State)
    requires Inv(s) && !(s.ThreadAlive() && s.thread.value in s.jobs)
    ensures !SomeAlive(s.workers)
  {
    if SomeAlive(s.workers) {
      var id :| StillAlive(s.workers, id);
      assert s.Alive(id);
    }
  }

  // ---- the uninterrupted runs of start -----------------------------------------------

  /** The table after the reap that opens `start`. */
  ghost function Reaped(s: State): State {
    s.(jobs := MarkAll(s.jobs, s.StaleIds(), Failed))
  }

  ghost predicate NoneActive(s: State) {
    forall id :: id in s.jobs ==> !s.Active(id)
  }

  lemma {:induction false} ReapTrace(s: State, kind: Kind)
    requires s.starter.Idle?
    ensures Legal(s, [ReapRead(kind), ReapWrite])
    ensures After(s, [ReapRead(kind), ReapWrite]) == Reaped(s).(starter := Looking(kind))
  {
    TwoEvents(s, ReapRead(kind), ReapWrite);
  }

  lemma {:induction false} FoundTrace(s: State, kind: Kind, found: Id) returns (trace: seq<Event>)
    requires s.starter.Idle? && Enabled(Reaped(s).(starter := Looking(kind)), Look(Some(found)))
    ensures Legal(s, trace)
    ensures var job := Reaped(s).jobs[found];
            var reply := if job.kind != kind then Busy(kind, found, job, false) else Returned(kind, found, job);
            After(s, trace) == Reaped(s).(replies := s.replies + [reply])
  {
    ReapTrace(s, kind);
    OneEvent(Reaped(s).(starter := Looking(kind)), Look(Some(found)));
    trace := [ReapRead(kind), ReapWrite] + [Look(Some(found))];
    Chain(s, [ReapRead(kind), ReapWrite], [Look(Some(found))]);
  }

  lemma {:induction false} CheckTrace(s: State, kind: Kind) returns (trace: seq<Event>)
    requires s.starter.Idle? && NoneActive(Reaped(s))
    ensures Legal(s, trace) && After(s, trace) == Apply(Reaped(s).(starter := Checking(kind)), Check)
  {
    ReapTrace(s, kind);
    TwoEvents(Reaped(s).(starter := Looking(kind)), Look(None), Check);
    trace := [ReapRead(kind), ReapWrite] + [Look(None), Check];
    Chain(s, [ReapRead(kind), ReapWrite], [Look(None), Check]);
  }

  lemma {:induction false} OrphanTrace(s: State, kind: Kind) returns (trace: seq<Event>)
    requires s.starter.Idle? && NoneActive(Reaped(s)) && s.ThreadAlive() && s.thread.value in s.jobs
    ensures Legal(s, trace)
    ensures After(s, trace) == Reaped(s).(
              replies := s.replies + [Busy(kind, s.thread.value, Reaped(s).jobs[s.thread.value], true)])
  {
    trace := CheckTrace(s, kind);
  }

  lemma {:induction false} CreateTrace(s: State, kind: Kind, id: Id) returns (trace: seq<Event>)
    requires s.starter.Idle? && NoneActive(Reaped(s)) && !(s.ThreadAlive() && s.thread.value in s.jobs)
    requires id !in s.jobs && id !in s.workers
    ensures Legal(s, trace)
    ensures var job := Job(kind, Queued, s.now, 0);
            After(s, trace) == Reaped(s).(jobs := Reaped(s).jobs[id := job], workers := s.workers[id := Spawned],
                                          thread := Some(id), replies := s.replies + [Returned(kind, id, job)])
  {
    var checked := CheckTrace(s, kind);
    var s1 := Reaped(s).(starter := Inserting(kind));
    TwoEvents(s1, Insert(id), Launch);
    Chain(s, checked, [Insert(id), Launch]);
    var s2 := Apply(Apply(s1, Insert(id)), Launch);
    OneEvent(s2, Event.Reply);
    Chain(s, checked + [Insert(id), Launch], [Event.Reply]);
    trace := checked + [Insert(id), Launch] + [Event.Reply];
  }

  /** From an empty table a job can be completed while a cancel that read it running is
      still to write, and that write then cancels the completed job. */
  lemma {:induction false} CompletedCanBeCancelled(s: State, kind: Kind, id: Id) returns (trace: seq<Event>)
    requires Init(s) && s.jobs == map[]
    ensures Legal(s, trace) && Enabled(After(s, trace), CancelWrite(id))
    ensures id in After(s, trace).jobs && After(s, trace).jobs[id].state == Completed
    ensures !Settled(After(s, trace), id)
    ensures Apply(After(s, trace), CancelWrite(id)).jobs[id].state == Cancelled
  {
    assert NoneActive(Reaped(s));
    var created := CreateTrace(s, kind, id);
    var s1 := After(s, created);
    var rest := FinishUnderACancel(s1, id);
    Chain(s, created, rest);
    trace := created + rest;
  }

  /** The worker of `id` begins, a cancel reads the row, and the worker finishes. */
  lemma {:induction false} FinishUnderACancel(s: State, id: Id) returns (trace: seq<Event>)
    requires id in s.workers && s.workers[id] == Spawned && id in s.jobs && s.cancels == multiset{}
    ensures Legal(s, trace) && Enabled(After(s, trace), CancelWrite(id))
    ensures id in After(s, trace).jobs && After(s, trace).jobs[id].state == Completed
    ensures !Settled(After(s, trace), id)
    ensures Apply(After(s, trace), CancelWrite(id)).jobs[id].state == Cancelled
  {
    var s1 := Apply(s, Begin(id));
    var s2 := Apply(s1, CancelRead(id));
    TwoEvents(s, Begin(id), CancelRead(id));
    OneEvent(s2, Finish(id, true));
    Chain(s, [Begin(id), CancelRead(id)], [Finish(id, true)]);
    trace := [Begin(id), CancelRead(id)] + [Finish(id, true)];
  }

  lemma TwoEvents(s: State, a: Event, b: Event)
    requires Enabled(s, a) && Enabled(Apply(s, a), b)
    ensures Legal(s, [a, b]) && After(s, [a, b]) == Apply(Apply(s, a), b)
  {
    assert [a, b][1..] == [b];
    OneEvent(Apply(s, a), b);
  }

  lemma {:induction false} Chain(s: State, first: seq<Event>, next: seq<Event>)
    requires Legal(s, first) && Legal(After(s, first), next)
    ensures Legal(s, first + next) && After(s, first + next) == After(After(s, first), next)
    decreases |first|
  {
    if first == [] {
      assert first + next == next;
    } else {
      assert (first + next)[1..] == first[1..] + next;
      Chain(Apply(s, first[0]), first[1..], next);
    }
  }
}
