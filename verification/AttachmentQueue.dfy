/**
  One attachment of attachment_queue and its jobs, as a state machine.  A step is what one
  transaction does between two points where another one can interleave: taking the row lock,
  running, writing the failure, committing.  Only committed state is shared.
*/
module AttachmentQueue {
  import opened Machines
  import opened Wrappers

  datatype FileState = Pending | Failed | Done
  datatype JobState = Queued | Started | Finished | GivenUp
  datatype Actor = Job(id: nat) | User(id: nat)

  /** How a run can raise: a serialization error, a `RetryableJobError`, anything else. */
  datatype ErrorKind = Concurrency | Retryable | OtherError

  /** Where the transaction that holds the row lock is; nothing of it is committed. */
  datatype Phase = Locked | Ran | Raised(kind: ErrorKind) | FailureWritten(kind: ErrorKind)

  datatype System = System(
    state: FileState,
    runs: nat,           // successful runs whose effects are committed
    reschedules: nat,
    jobs: seq<JobState>,
    holder: Option<Actor>,
    phase: Phase)

  /** `create` queues one job in the same transaction. */
  function Created(): System {
    System(Pending, 0, 0, [Queued], None, Locked)
  }

  datatype Event =
    | StartJob(job: nat)
    | JobCannotLock(job: nat)
    | TakeLock(actor: Actor)
    | SkipDone
    | RunSucceeds
    | RunRaises(kind: ErrorKind)
    | WriteFailure
    | HandlerRaises(kind: ErrorKind, retriesLeft: bool)
    | Commit(retriesLeft: bool)
    | CommitFails
    | Crash
    | Reschedule
    | SetDone

  function SetJob(s: System, id: nat, j: JobState): System {
    if id < |s.jobs| then s.(jobs := s.jobs[id := j]) else s
  }

  /** The holder's transaction ends and its job, if it is one, becomes `j`. */
  function Release(s: System, j: JobState): System
    requires s.holder.Some?
  {
    var s' := s.(holder := None, phase := Locked);
    match s.holder.value case Job(id) => SetJob(s', id, j) case User(_) => s'
  }

  /** The queue's answer to an error that leaves a job. */
  function AfterError(kind: ErrorKind, retriesLeft: bool): JobState {
    match kind
    case Concurrency => Queued
    case Retryable => if retriesLeft then Queued else GivenUp
    case OtherError => GivenUp
  }

  predicate CanTake(s: System, actor: Actor) {
    s.holder.None? && match actor case Job(id) => id < |s.jobs| && s.jobs[id] == Started case User(_) => true
  }

  /** The state after an event, or None when the event cannot happen now. */
  function Step(s: System, e: Event): Option<System> {
    match e
    case StartJob(id) =>
      if id < |s.jobs| && s.jobs[id] == Queued then Some(SetJob(s, id, Started)) else None
    // `FOR UPDATE NOWAIT` fails, as the row is locked or was changed meanwhile: the job is retried later
    case JobCannotLock(id) =>
      if id < |s.jobs| && s.jobs[id] == Started && s.holder != Some(Job(id)) then Some(SetJob(s, id, Queued)) else None
    case TakeLock(actor) =>
      if CanTake(s, actor) then Some(s.(holder := Some(actor), phase := Locked)) else None
    case SkipDone =>
      if s.holder.Some? && s.phase == Locked && s.state == Done then Some(Release(s, Finished)) else None
    case RunSucceeds =>
      if s.holder.Some? && s.phase == Locked && s.state != Done then Some(s.(phase := Ran)) else None
    // a manual run is not caught: its transaction is rolled back
    case RunRaises(kind) =>
      if s.holder.Some? && s.phase == Locked && s.state != Done then
        if s.holder.value.User? then Some(Release(s, Queued)) else Some(s.(phase := Raised(kind)))
      else None
    // a serialization error is raised again, any other error marks the attachment as failed
    case WriteFailure =>
      if s.holder.Some? && s.phase.Raised? then
        if s.phase.kind == Concurrency then Some(Release(s, Queued))
        else Some(s.(phase := FailureWritten(s.phase.kind)))
      else None
    // the handler itself raises, for example while it sends the mail: everything is rolled back, and
    // the queue retries the job or gives it up, as for any error that leaves a job
    case HandlerRaises(kind, retriesLeft) =>
      if s.holder.Some? && s.phase.Raised? && s.phase.kind != Concurrency then
        Some(Release(s, AfterError(kind, retriesLeft)))
      else None
    case Commit(retriesLeft) =>
      if s.holder.None? then None
      else (match s.phase
            case Ran => Some(Release(s.(state := Done, runs := s.runs + 1), Finished))
            case FailureWritten(Retryable) =>
              Some(Release(s.(state := Failed), if retriesLeft then Queued else GivenUp))
            case FailureWritten(_) => Some(Release(s.(state := Failed), Finished))
            case _ => None)
    case CommitFails =>
      if s.holder.Some? && (s.phase == Ran || s.phase.FailureWritten?) then Some(Release(s, Queued)) else None
    // the process dies: the transaction is rolled back and the runner queues the job again
    case Crash =>
      if s.holder.Some? then Some(Release(s, Queued)) else None
    // both write the row, so they wait for the lock
    case Reschedule =>
      if s.holder.None? then
        Some(s.(state := Pending, jobs := s.jobs + [Queued], reschedules := s.reschedules + 1))
      else None
    case SetDone =>
      if s.holder.None? then Some(s.(state := Done)) else None
  }

  /** The state after a sequence of events, each of which can happen when it does. */
  function Run(s: System, events: seq<Event>): Option<System> {
    RunAll(Step, s, events)
  }

  // ----- safety -----

  predicate Alive(j: JobState) {
    j == Queued || j == Started
  }

  ghost predicate HasLiveJob(s: System) {
    exists i | 0 <= i < |s.jobs| :: Alive(s.jobs[i])
  }

  /** The lock is held by a running job or by a user, whose errors are not caught, and each run needs a schedule. */
  ghost predicate Orderly(s: System) {
    && (s.holder.Some? && s.holder.value.Job? ==> s.holder.value.id < |s.jobs| && s.jobs[s.holder.value.id] == Started)
    && (s.holder.Some? && s.holder.value.User? ==> s.phase == Locked || s.phase == Ran)
    && s.phase != FailureWritten(Concurrency)
    && (s.holder.Some? && s.phase != Locked ==> s.state != Done)
    && s.runs <= s.reschedules + if s.state == Done then 1 else 0
  }

  /** A pending attachment has a job that will process it. */
  ghost predicate Covered(s: System) {
    s.state == Pending ==> HasLiveJob(s)
  }

  ghost predicate Safe(s: System) {
    Orderly(s) && Covered(s)
  }

  /** The handler raises in the last live job of a pending attachment, and the job is not tried again. */
  ghost predicate Strands(s: System, e: Event) {
    && e.HandlerRaises? && (e.kind == OtherError || (e.kind == Retryable && !e.retriesLeft))
    && s.state == Pending && s.holder.Some? && s.holder.value.Job?
    && forall i | 0 <= i < |s.jobs| && Alive(s.jobs[i]) :: i == s.holder.value.id
  }

  /** A user schedules, finishes or runs the attachment. */
  predicate Rescues(e: Event) {
    e.Reschedule? || e.SetDone? || e.Commit?
  }

  lemma SetJobKeepsLive(s: System, id: nat, j: JobState)
    requires Alive(j) && Covered(s)
    ensures Covered(SetJob(s, id, j))
  {
    if s.state == Pending {
      var i :| 0 <= i < |s.jobs| && Alive(s.jobs[i]);
      assert Alive(SetJob(s, id, j).jobs[i]);
    }
  }

  lemma StepOrderly(s: System, e: Event)
    requires Orderly(s) && Step(s, e).Some?
    ensures Orderly(Step(s, e).value)
  {
  }

  /** Ending the last live job strands a pending attachment. */
  lemma EndStrandsExactly(s: System, id: nat)
    requires id < |s.jobs| && s.state == Pending
    ensures HasLiveJob(SetJob(s, id, GivenUp)) <==> exists i | 0 <= i < |s.jobs| && Alive(s.jobs[i]) :: i != id
  {
    var s' := SetJob(s, id, GivenUp);
    if i :| 0 <= i < |s.jobs| && Alive(s.jobs[i]) && i != id {
      assert Alive(s'.jobs[i]);
    }
    if HasLiveJob(s') {
      var i :| 0 <= i < |s'.jobs| && Alive(s'.jobs[i]);
      assert Alive(s.jobs[i]) && i != id;
    }
  }

  /** From a safe state only one event leaves a pending attachment without a live job. */
  lemma StepSafe(s: System, e: Event)
    requires Safe(s) && Step(s, e).Some?
    ensures Orderly(Step(s, e).value)
    ensures Covered(Step(s, e).value) <==> !Strands(s, e)
  {
    StepOrderly(s, e);
    match e
    case StartJob(id) => SetJobKeepsLive(s, id, Started);
    case JobCannotLock(id) => SetJobKeepsLive(s, id, Queued);
    case Reschedule =>
      assert Alive(Step(s, e).value.jobs[|s.jobs|]);
    case TakeLock(_) =>
    case RunSucceeds =>
    case SetDone =>
    case HandlerRaises(_, _) =>
      if s.holder.value.Job? {
        var free := s.(holder := None, phase := Locked);
        SetJobKeepsLive(free, s.holder.value.id, Queued);
        if s.state == Pending {
          EndStrandsExactly(free, s.holder.value.id);
        }
      }
    case _ =>
      if s.holder.Some? && s.holder.value.Job? {
        SetJobKeepsLive(s.(holder := None, phase := Locked), s.holder.value.id, Queued);
      }
  }

  /** Without a live job nothing but a user's action covers a pending attachment again. */
  lemma StrandedStays(s: System, e: Event)
    requires Orderly(s) && !Covered(s) && Step(s, e).Some?
    ensures Covered(Step(s, e).value) <==> Rescues(e)
    ensures !Strands(s, e)
  {
    if e == Reschedule {
      assert Alive(Step(s, e).value.jobs[|s.jobs|]);
    }
    assert s.holder.Some? && s.holder.value.Job? ==> Alive(s.jobs[s.holder.value.id]);
  }

  /** At some event the attachment was stranded, and no user has rescued it since. */
  ghost predicate LeftStranded(s: System, events: seq<Event>)
    requires Run(s, events).Some?
  {
    exists k | 0 <= k < |events| ::
      StrandsAt(s, events, k) && forall i | k < i < |events| :: !Rescues(events[i])
  }

  ghost predicate StrandsAt(s: System, events: seq<Event>, k: nat)
    requires k < |events|
  {
    Run(s, events[..k]).Some? && Strands(Run(s, events[..k]).value, events[k])
  }

  lemma RunSnoc(s: System, events: seq<Event>)
    requires events != [] && Run(s, events).Some?
    ensures var front := events[..|events| - 1];
            Run(s, front).Some? && Run(s, events) == Step(Run(s, front).value, events[|events| - 1])
    decreases |events|
  {
    var front, last := events[..|events| - 1], events[|events| - 1];
    assert events == front + [last];
    RunPrefix(s, front, [last]);
    RunConcat(Step, s, front, [last]);
    var s' := Run(s, front).value;
    if Step(s', last).Some? {
      RunOne(Step, s', last);
    }
  }

  lemma {:induction false} RunPrefix(s: System, a: seq<Event>, b: seq<Event>)
    requires Run(s, a + b).Some?
    ensures Run(s, a).Some?
    decreases |a|
  {
    if a != [] {
      assert (a + b)[0] == a[0] && (a + b)[1..] == a[1..] + b;
      RunPrefix(Step(s, a[0]).value, a[1..], b);
    }
  }

  lemma LeftStrandedSnoc(s: System, events: seq<Event>)
    requires events != [] && Run(s, events).Some?
    requires Run(s, events[..|events| - 1]).Some?
    ensures var n := |events| - 1;
            LeftStranded(s, events)
            <==> StrandsAt(s, events, n) || (LeftStranded(s, events[..n]) && !Rescues(events[n]))
  {
    var n := |events| - 1;
    var front := events[..n];
    forall k | 0 <= k < n ensures StrandsAt(s, front, k) <==> StrandsAt(s, events, k) {
      assert front[..k] == events[..k];
    }
    if LeftStranded(s, front) && !Rescues(events[n]) {
      var k :| 0 <= k < n && StrandsAt(s, front, k) && forall i | k < i < n :: !Rescues(front[i]);
      assert StrandsAt(s, events, k);
    }
    if LeftStranded(s, events) && !StrandsAt(s, events, n) {
      var k :| 0 <= k < |events| && StrandsAt(s, events, k) && forall i | k < i < |events| :: !Rescues(events[i]);
      assert StrandsAt(s, front, k);
      forall i | k < i < n ensures !Rescues(front[i]) {
        assert front[i] == events[i];
      }
    }
  }

  /**
    Under every interleaving of jobs, manual runs, failures, retries, crashes and reschedules, the
    successful committed runs are at most one more than the reschedules, and a pending attachment has
    a queued or running job exactly unless the failure handler raised in its last live job and no user
    has acted on it since.
  */
  lemma {:induction false} EveryRunSafe(s: System, events: seq<Event>)
    requires Safe(s) && Run(s, events).Some?
    ensures Orderly(Run(s, events).value)
    ensures Run(s, events).value.runs <= 1 + Run(s, events).value.reschedules
    ensures Covered(Run(s, events).value) <==> !LeftStranded(s, events)
    decreases |events|
  {
    if events != [] {
      var n := |events| - 1;
      RunSnoc(s, events);
      EveryRunSafe(s, events[..n]);
      LeftStrandedSnoc(s, events);
      var before := Run(s, events[..n]).value;
      StepOrderly(before, events[n]);
      if Covered(before) {
        StepSafe(before, events[n]);
      } else {
        StrandedStays(before, events[n]);
      }
    }
  }

  /** The first job fails, and sending the mail about it fails too: the attachment waits for nobody. */
  lemma HandlerStrands()
    ensures var r := Run(Created(), [StartJob(0), TakeLock(Job(0)), RunRaises(OtherError),
                                     HandlerRaises(OtherError, true)]);
            r.Some? && r.value.state == Pending && !HasLiveJob(r.value)
  {
    var events := [StartJob(0), TakeLock(Job(0)), RunRaises(OtherError), HandlerRaises(OtherError, true)];
    var s1 := Step(Created(), events[0]).value;
    var s2 := Step(s1, events[1]).value;
    var s3 := Step(s2, events[2]).value;
    assert events == [events[0]] + ([events[1]] + ([events[2]] + [events[3]]));
    RunFirst(Step, Created(), events[0], [events[1]] + ([events[2]] + [events[3]]));
    RunFirst(Step, s1, events[1], [events[2]] + [events[3]]);
    RunFirst(Step, s2, events[2], [events[3]]);
    RunOne(Step, s3, events[3]);
  }

  lemma CreatedIsSafe()
    ensures Safe(Created())
    ensures Created().state == Pending && Created().jobs == [Queued] && Created().holder == None
    ensures Created().runs == 0 && Created().reschedules == 0
  {
    assert Alive(Created().jobs[0]);
  }

  // ----- what one step does to the attachment -----

  /** Done is written by hand, or by the commit of a successful run, which only such a commit counts. */
  lemma DoneExactly(s: System, e: Event)
    requires Step(s, e).Some? && s.state != Done
    ensures var s' := Step(s, e).value;
            s'.state == Done <==> e == SetDone || (e.Commit? && s'.runs == s.runs + 1)
  {
  }

  /** A run is counted exactly by a commit after it. */
  lemma RunsExactly(s: System, e: Event)
    requires Step(s, e).Some?
    ensures var s' := Step(s, e).value;
            && (s'.runs == s.runs || s'.runs == s.runs + 1)
            && (s'.runs == s.runs + 1 <==> e.Commit? && s.phase == Ran)
            && (s'.phase == Ran && s.phase != Ran ==> e == RunSucceeds && s.state != Done)
            && (e == RunSucceeds ==> s'.phase == Ran)
  {
  }

  /** Failed is written exactly by the commit of a failure, and that is no run. */
  lemma FailedExactly(s: System, e: Event)
    requires Orderly(s) && Step(s, e).Some?
    ensures var s' := Step(s, e).value;
            && (s.state != Failed ==> (s'.state == Failed <==> e.Commit? && s.phase.FailureWritten?))
            && (e.Commit? && s.phase.FailureWritten? ==> s'.state == Failed && s'.runs == s.runs)
            && (s'.phase.FailureWritten? && s'.phase != s.phase ==>
                  e == WriteFailure && s.phase == Raised(s'.phase.kind) && s'.phase.kind != Concurrency)
  {
  }

  /** Pending is written exactly by rescheduling, which queues one more job. */
  lemma PendingExactly(s: System, e: Event)
    requires Step(s, e).Some?
    ensures var s' := Step(s, e).value;
            && (s.state != Pending ==> (s'.state == Pending <==> e == Reschedule))
            && (e == Reschedule ==> s'.state == Pending && s'.jobs == s.jobs + [Queued])
            && (e != Reschedule ==> |s'.jobs| == |s.jobs| && s'.reschedules == s.reschedules)
            && (e == Reschedule ==> s'.reschedules == s.reschedules + 1)
  {
  }

  /** The lock is taken when it is free, by a started job or a user, and nothing else is written meanwhile. */
  lemma LockExactly(s: System, e: Event)
    requires Orderly(s)
    ensures e.TakeLock? ==>
            (Step(s, e).Some? <==>
               s.holder.None? && (e.actor.Job? ==> e.actor.id < |s.jobs| && s.jobs[e.actor.id] == Started))
    ensures e == Reschedule || e == SetDone ==> (Step(s, e).Some? <==> s.holder.None?)
    ensures Step(s, e).Some? ==>
            var s' := Step(s, e).value;
            && (s'.holder.Some? && s'.holder != s.holder ==> e == TakeLock(s'.holder.value) && s'.phase == Locked)
            && (s.holder.Some? && !e.Commit? ==> s'.state == s.state && s'.runs == s.runs)
  {
  }

  /** The lock is kept until the transaction ends, and then given back. */
  lemma LockIsLeft(s: System, e: Event)
    requires Orderly(s) && s.holder.Some? && Step(s, e).Some?
    ensures var holder := Step(s, e).value.holder;
            if || e == SkipDone || e.HandlerRaises? || e.Commit? || e == CommitFails || e == Crash
               || (e.RunRaises? && s.holder.value.User?) || (e == WriteFailure && s.phase == Raised(Concurrency))
            then holder == None
            else holder == s.holder
  {
  }

  /** Whoever holds the lock of a done attachment only leaves it; of any other one it is run. */
  lemma RunsUnlessDone(s: System)
    requires Orderly(s) && s.holder.Some? && s.phase == Locked
    ensures Step(s, RunSucceeds).Some? <==> s.state != Done
    ensures forall kind :: Step(s, RunRaises(kind)).Some? <==> s.state != Done
    ensures Step(s, SkipDone).Some? <==> s.state == Done
    ensures s.state == Done ==> Step(s, SkipDone).value.holder == None
  {
  }

  /** A transaction goes through its phases in order: what can happen in each, besides a crash. */
  lemma PhasesInOrder(s: System, kind: ErrorKind, retriesLeft: bool)
    requires Orderly(s)
    ensures s.holder == None ==>
            && Step(s, RunSucceeds) == None && Step(s, RunRaises(kind)) == None && Step(s, SkipDone) == None
            && Step(s, WriteFailure) == None && Step(s, HandlerRaises(kind, retriesLeft)) == None
            && Step(s, Commit(retriesLeft)) == None && Step(s, CommitFails) == None && Step(s, Crash) == None
    ensures s.holder.Some? ==>
            && (s.phase != Locked ==> Step(s, RunSucceeds) == None && Step(s, RunRaises(kind)) == None)
            && (s.phase != Locked ==> Step(s, SkipDone) == None)
            && (Step(s, WriteFailure).Some? <==> s.phase.Raised?)
            && (Step(s, HandlerRaises(kind, retriesLeft)).Some? <==> s.phase.Raised? && s.phase != Raised(Concurrency))
            && (Step(s, Commit(retriesLeft)).Some? <==> s.phase == Ran || s.phase.FailureWritten?)
            && (Step(s, CommitFails).Some? <==> s.phase == Ran || s.phase.FailureWritten?)
            && Step(s, Crash).Some?
  {
  }

  /** A queued job can be started, and a started one that does not hold the lock may fail to get it. */
  lemma JobsCanBe(s: System, id: nat)
    ensures Step(s, StartJob(id)).Some? <==> id < |s.jobs| && s.jobs[id] == Queued
    ensures Step(s, JobCannotLock(id)).Some? <==>
            id < |s.jobs| && s.jobs[id] == Started && s.holder != Some(Job(id))
  {
  }

  /** What becomes of a started job: only its own transaction ends it, and it is retried unless that says otherwise. */
  lemma JobFate(s: System, e: Event, id: nat)
    requires Orderly(s) && Step(s, e).Some? && id < |s.jobs| && s.jobs[id] == Started
    ensures var job, own := Step(s, e).value.jobs[id], s.holder == Some(Job(id));
            && (job == Finished <==>
                  own && (e == SkipDone || (e.Commit? && s.phase in {Ran, FailureWritten(OtherError)})))
            && (job == GivenUp <==>
                  own && ((e.Commit? && s.phase == FailureWritten(Retryable) && !e.retriesLeft) ||
                          (e.HandlerRaises? && (e.kind == OtherError || (e.kind == Retryable && !e.retriesLeft)))))
            && (job == Queued <==>
                  || e == JobCannotLock(id)
                  || (own && (e == Crash || e == CommitFails || (e == WriteFailure && s.phase == Raised(Concurrency))))
                  || (own && e.Commit? && s.phase == FailureWritten(Retryable) && e.retriesLeft)
                  || (own && e.HandlerRaises? &&
                        (e.kind == Concurrency || (e.kind == Retryable && e.retriesLeft))))
  {
  }

  /** Jobs that are not started change only by being started, and no job is lost. */
  lemma OtherJobs(s: System, e: Event, id: nat)
    requires Orderly(s) && Step(s, e).Some? && id < |s.jobs| && s.jobs[id] != Started
    ensures id < |Step(s, e).value.jobs|
    ensures Step(s, e).value.jobs[id] == if e == StartJob(id) then Started else s.jobs[id]
    ensures e == StartJob(id) ==> s.jobs[id] == Queued
  {
  }

  /** A run of a job that raises leaves the attachment failed, or is tried again after a serialization error. */
  lemma FailedRunFails(s: System, id: nat, kind: ErrorKind, retriesLeft: bool)
    requires Orderly(s) && s.holder == Some(Job(id)) && s.phase == Locked && s.state != Done
    ensures var last := if kind == Concurrency then [] else [Commit(retriesLeft)];
            var r := Run(s, [RunRaises(kind), WriteFailure] + last);
            && r.Some? && r.value.holder == None && r.value.runs == s.runs
            && r.value.state == (if kind == Concurrency then s.state else Failed)
            && r.value.jobs == s.jobs[id := if kind == OtherError then Finished
                                            else if kind == Retryable && !retriesLeft then GivenUp else Queued]
  {
    var s1 := Step(s, RunRaises(kind)).value;
    var s2 := Step(s1, WriteFailure).value;
    var last := if kind == Concurrency then [] else [Commit(retriesLeft)];
    assert [RunRaises(kind), WriteFailure] + last == [RunRaises(kind)] + ([WriteFailure] + last);
    RunFirst(Step, s, RunRaises(kind), [WriteFailure] + last);
    RunFirst(Step, s1, WriteFailure, last);
    if kind != Concurrency {
      RunOne(Step, s2, Commit(retriesLeft));
    }
  }

  /** Over every run in which nobody sets it done by hand: a done attachment was run since. */
  lemma {:induction false} DoneMeansRun(s: System, events: seq<Event>)
    requires Run(s, events).Some? && SetDone !in events
    ensures Run(s, events).value.runs >= s.runs
    ensures Run(s, events).value.state == Done ==> s.state == Done || Run(s, events).value.runs > s.runs
    decreases |events|
  {
    if events != [] {
      var s' := Step(s, events[0]).value;
      RunsExactly(s, events[0]);
      if s.state != Done {
        DoneExactly(s, events[0]);
      }
      DoneMeansRun(s', events[1..]);
    }
  }

  /** A new attachment is pending, never run, and has one queued job; once done it was run or set done by hand. */
  lemma CreatedDoneMeansRun(events: seq<Event>)
    requires Run(Created(), events).Some? && SetDone !in events
    ensures Run(Created(), events).value.state == Done ==> Run(Created(), events).value.runs >= 1
  {
    DoneMeansRun(Created(), events);
  }

  // ----- a pending attachment can always be processed -----

  /** A started job can take the lock, run and commit. */
  lemma JobCanFinish(s: System, i: nat)
    requires s.holder.None? && s.state != Done && i < |s.jobs| && s.jobs[i] == Started
    ensures var r := Run(s, [TakeLock(Job(i)), RunSucceeds, Commit(true)]);
            r.Some? && r.value.state == Done && r.value.runs == s.runs + 1
  {
    var e1, e2, e3 := TakeLock(Job(i)), RunSucceeds, Commit(true);
    var s1 := Step(s, e1).value;
    var s2 := Step(s1, e2).value;
    assert [e1, e2, e3] == [e1] + ([e2] + [e3]);
    RunFirst(Step, s, e1, [e2] + [e3]);
    RunFirst(Step, s1, e2, [e3]);
    RunOne(Step, s2, e3);
  }

  /** A job of the queue, once the lock is free, brings a pending attachment to done, without the user. */
  lemma PendingCanFinish(s: System) returns (events: seq<Event>)
    requires Safe(s) && s.state == Pending
    ensures Run(s, events).Some? && Run(s, events).value.state == Done && Run(s, events).value.runs == s.runs + 1
    ensures forall e :: e in events ==>
        e.Crash? || e.StartJob? || (e.TakeLock? && e.actor.Job?) || e.RunSucceeds? || e.Commit?
  {
    var free, first := s, [];
    if s.holder.Some? {
      StepSafe(s, Crash);
      free, first := Step(s, Crash).value, [Crash];
      RunOne(Step, s, Crash);
    }
    var i :| 0 <= i < |free.jobs| && Alive(free.jobs[i]);
    var ready, second := free, [];
    if free.jobs[i] == Queued {
      ready, second := SetJob(free, i, Started), [StartJob(i)];
      RunOne(Step, free, StartJob(i));
    }
    JobCanFinish(ready, i);
    var work := [TakeLock(Job(i)), RunSucceeds, Commit(true)];
    RunConcat(Step, free, second, work);
    RunConcat(Step, s, first, second + work);
    events := first + (second + work);
  }
}
