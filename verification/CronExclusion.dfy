/**
  Mutually exclusive scheduled actions (base_cron_exclusion/models/ir_cron.py) as a state machine
  over the row locks of ir_cron.  A worker that processes a job holds the job's own row through the
  cursor of the scheduler; a second cursor locks the rows of the exclusive jobs, one at a time and
  without waiting.
*/
module CronExclusion {
  import opened Machines
  import opened Wrappers

  /** The two cursors of a job's worker. */
  datatype Owner = Own(job: nat) | Excluding(job: nat)

  /**
    `wanted` are the exclusive jobs found active by the query, `todo` those not locked yet.
    A job that is not in `workers` is not being processed.
  */
  datatype Worker = Owned | Locking(wanted: set<nat>, todo: set<nat>) | Running(wanted: set<nat>)

  /** `declared` is the many2many table; `active` are the jobs with `active` and a call left. */
  datatype System = System(declared: set<(nat, nat)>, active: set<nat>, locks: map<nat, Owner>,
      workers: map<nat, Worker>)

  /** The query reads the table in both directions. */
  predicate Exclusive(declared: set<(nat, nat)>, i: nat, j: nat) {
    (i, j) in declared || (j, i) in declared
  }

  function ExclusiveOf(s: System, i: nat): set<nat> {
    set j | j in s.active && Exclusive(s.declared, i, j)
  }

  datatype Event =
    | TakeOwn(job: nat)
    | Ask(job: nat)
    | LockRow(job: nat, row: nat)
    | GiveUp(job: nat)
    | Start(job: nat)
    | Finish(job: nat)
    | Toggle(row: nat)

  /** Both cursors of the worker are closed. */
  function Leave(s: System, i: nat): System {
    s.(locks := map r | r in s.locks && s.locks[r] != Own(i) && s.locks[r] != Excluding(i) :: s.locks[r],
       workers := s.workers - {i})
  }

  function Step(s: System, e: Event): Option<System> {
    match e
    // the scheduler picks an active job whose row is free
    case TakeOwn(i) =>
      if i in s.active && i !in s.locks && i !in s.workers then
        Some(s.(locks := s.locks[i := Own(i)], workers := s.workers[i := Owned]))
      else None
    case Ask(i) =>
      if i in s.workers && s.workers[i] == Owned then
        Some(s.(workers := s.workers[i := Locking(ExclusiveOf(s, i), ExclusiveOf(s, i))]))
      else None
    case LockRow(i, r) =>
      if i in s.workers && s.workers[i].Locking? && r in s.workers[i].todo && r !in s.locks then
        Some(s.(locks := s.locks[r := Excluding(i)],
            workers := s.workers[i := Locking(s.workers[i].wanted, s.workers[i].todo - {r})]))
      else None
    // NOWAIT: a locked or meanwhile changed row raises, and the job is left for later
    case GiveUp(i) =>
      if i in s.workers && !s.workers[i].Running? then Some(Leave(s, i)) else None
    case Start(i) =>
      if i in s.workers && s.workers[i].Locking? && s.workers[i].todo == {} then
        Some(s.(workers := s.workers[i := Running(s.workers[i].wanted)]))
      else None
    case Finish(i) =>
      if i in s.workers && s.workers[i].Running? then Some(Leave(s, i)) else None
    // any other update of a row needs its lock
    case Toggle(r) =>
      if r !in s.locks then Some(s.(active := if r in s.active then s.active - {r} else s.active + {r})) else None
  }

  function Run(s: System, events: seq<Event>): Option<System> {
    RunAll(Step, s, events)
  }

  predicate IsRunning(s: System, i: nat) {
    i in s.workers && s.workers[i].Running?
  }

  // ----- mutual exclusion -----

  predicate HasAsked(s: System, i: nat) {
    i in s.workers && !s.workers[i].Owned?
  }

  predicate Wants(s: System, i: nat, r: nat) {
    HasAsked(s, i) && r in s.workers[i].wanted
  }

  predicate Got(s: System, i: nat, r: nat) {
    Wants(s, i, r) && !(s.workers[i].Locking? && r in s.workers[i].todo)
  }

  ghost predicate Safe(s: System) {
    // a job being processed is active and has its own row locked by the scheduler
    && (forall i :: i in s.workers ==> i in s.active && i in s.locks && s.locks[i] == Own(i))
    // the other cursor holds exactly the rows it got
    && (forall i, r :: Got(s, i, r) ==> r in s.locks && s.locks[r] == Excluding(i))
    && (forall i, r :: i in s.workers && s.workers[i].Locking? && r in s.workers[i].todo ==> r in s.workers[i].wanted)
    // of two exclusive jobs that have both asked, one wants the row of the other
    && (forall i, j :: i != j && HasAsked(s, i) && HasAsked(s, j) && Exclusive(s.declared, i, j) ==>
        Wants(s, i, j) || Wants(s, j, i))
    // a job that excludes itself wants its own row
    && (forall i :: HasAsked(s, i) && Exclusive(s.declared, i, i) ==> Wants(s, i, i))
  }

  lemma LeaveSafe(s: System, i: nat)
    requires Safe(s)
    ensures Safe(Leave(s, i))
  {
    var s' := Leave(s, i);
    forall k, r | Got(s', k, r) ensures r in s'.locks && s'.locks[r] == Excluding(k) {
      assert Got(s, k, r);
    }
    forall k, j | k != j && HasAsked(s', k) && HasAsked(s', j) && Exclusive(s.declared, k, j)
        ensures Wants(s', k, j) || Wants(s', j, k) {
      assert HasAsked(s, k) && HasAsked(s, j);
    }
    forall k | HasAsked(s', k) && Exclusive(s.declared, k, k) ensures Wants(s', k, k) {
      assert HasAsked(s, k);
    }
  }

  lemma AskSafe(s: System, i: nat)
    requires Safe(s) && Step(s, Ask(i)).Some?
    ensures Safe(Step(s, Ask(i)).value)
  {
    var s' := Step(s, Ask(i)).value;
    forall k, r | Got(s', k, r) ensures r in s'.locks && s'.locks[r] == Excluding(k) {
      assert Got(s, k, r);
    }
    forall k, j | k != j && HasAsked(s', k) && HasAsked(s', j) && Exclusive(s.declared, k, j)
        ensures Wants(s', k, j) || Wants(s', j, k) {
      if k != i && j != i {
        assert HasAsked(s, k) && HasAsked(s, j);
      }
    }
    forall k | HasAsked(s', k) && Exclusive(s.declared, k, k) ensures Wants(s', k, k) {
      assert k != i ==> HasAsked(s, k);
    }
  }

  /** Steps that change no one's wishes. */
  lemma SameWishesSafe(s: System, s': System)
    requires Safe(s) && s'.declared == s.declared
    requires forall i :: i in s'.workers ==> i in s'.active && i in s'.locks && s'.locks[i] == Own(i)
    requires forall i, r :: Got(s', i, r) ==> r in s'.locks && s'.locks[r] == Excluding(i)
    requires forall i, r :: i in s'.workers && s'.workers[i].Locking? && r in s'.workers[i].todo ==>
        r in s'.workers[i].wanted
    requires forall i :: HasAsked(s', i) ==> HasAsked(s, i) && s'.workers[i].wanted == s.workers[i].wanted
    ensures Safe(s')
  {
    forall k, j | k != j && HasAsked(s', k) && HasAsked(s', j) && Exclusive(s.declared, k, j)
        ensures Wants(s', k, j) || Wants(s', j, k) {
      assert HasAsked(s, k) && HasAsked(s, j);
    }
    forall k | HasAsked(s', k) && Exclusive(s.declared, k, k) ensures Wants(s', k, k) {
      assert HasAsked(s, k);
    }
  }

  lemma StepSafe(s: System, e: Event)
    requires Safe(s) && Step(s, e).Some?
    ensures Safe(Step(s, e).value)
  {
    var s' := Step(s, e).value;
    match e
    case Ask(i) => AskSafe(s, i);
    case GiveUp(i) => LeaveSafe(s, i);
    case Finish(i) => LeaveSafe(s, i);
    case LockRow(i, r) =>
      forall k, x | Got(s', k, x) ensures x in s'.locks && s'.locks[x] == Excluding(k) {
        if !(k == i && x == r) {
          assert Got(s, k, x);
        }
      }
      SameWishesSafe(s, s');
    case _ =>
      forall k, x | Got(s', k, x) ensures x in s'.locks && s'.locks[x] == Excluding(k) {
        assert Got(s, k, x);
      }
      SameWishesSafe(s, s');
  }

  /** Two exclusive jobs do not run together, and a job that excludes itself does not run at all. */
  lemma SafeExcludes(s: System, i: nat, j: nat)
    requires Safe(s) && IsRunning(s, i) && IsRunning(s, j)
    ensures !Exclusive(s.declared, i, j)
  {
    if Exclusive(s.declared, i, j) {
      if Wants(s, i, j) {
        assert Got(s, i, j);
      } else {
        assert Got(s, j, i);
      }
      assert false;
    }
  }

  /**
    In every interleaving, whichever side declared the exclusion, and with jobs switched on and off
    in between: two mutually exclusive jobs never run at once.
  */
  lemma {:induction false} NeverTogether(s: System, events: seq<Event>)
    requires Safe(s) && Run(s, events).Some?
    ensures var s' := Run(s, events).value;
            Safe(s') && s'.declared == s.declared
            && forall i, j :: IsRunning(s', i) && IsRunning(s', j) ==> !Exclusive(s.declared, i, j)
    decreases |events|
  {
    if events == [] {
      forall i, j | IsRunning(s, i) && IsRunning(s, j) ensures !Exclusive(s.declared, i, j) {
        SafeExcludes(s, i, j);
      }
    } else {
      StepSafe(s, events[0]);
      NeverTogether(Step(s, events[0]).value, events[1..]);
    }
  }

  // ----- locks are held for running work only -----

  /** Every lock is a job's own row while it is processed, or a row that its worker got. */
  ghost predicate Accounted(s: System) {
    forall r :: r in s.locks ==> HeldFor(s, r, s.locks[r])
  }

  predicate HeldFor(s: System, r: nat, owner: Owner) {
    (owner == Own(r) && r in s.workers) || (owner.Excluding? && Got(s, owner.job, r))
  }

  lemma StepAccounted(s: System, e: Event)
    requires Safe(s) && Accounted(s) && Step(s, e).Some?
    ensures Accounted(Step(s, e).value)
  {
    var s' := Step(s, e).value;
    forall r | r in s'.locks ensures HeldFor(s', r, s'.locks[r]) {
      assert r in s.locks ==> HeldFor(s, r, s.locks[r]);
    }
  }

  /** Over every run: when no job is being processed any more, no row is locked. */
  lemma {:induction false} LocksAreReleased(s: System, events: seq<Event>)
    requires Safe(s) && Accounted(s) && Run(s, events).Some?
    ensures Accounted(Run(s, events).value)
    ensures Run(s, events).value.workers == map[] ==> Run(s, events).value.locks == map[]
    decreases |events|
  {
    if events == [] {
      if s.workers == map[] {
        assert forall r :: r in s.locks ==> !HeldFor(s, r, s.locks[r]);
      }
    } else {
      StepSafe(s, events[0]);
      StepAccounted(s, events[0]);
      LocksAreReleased(Step(s, events[0]).value, events[1..]);
    }
  }

  // ----- what one step does -----

  /** A worker that leaves gives back its rows, and takes nothing from anyone. */
  lemma LeavesExactly(s: System, i: nat, e: Event)
    requires (e == GiveUp(i) || e == Finish(i)) && Step(s, e).Some?
    ensures var s' := Step(s, e).value;
            && s'.declared == s.declared && s'.active == s.active
            && (forall j :: j in s'.workers <==> j in s.workers && j != i)
            && (forall j :: j in s'.workers ==> s'.workers[j] == s.workers[j])
            && (forall r :: r in s'.locks <==> r in s.locks && s.locks[r].job != i)
            && (forall r :: r in s'.locks ==> s'.locks[r] == s.locks[r])
    ensures e == Finish(i) <==> IsRunning(s, i)
    ensures i in s.workers
  {
  }

  /** A worker asks for the active jobs declared exclusive on either side, and for all of them. */
  lemma AsksExactly(s: System, i: nat)
    ensures Step(s, Ask(i)).Some? <==> i in s.workers && s.workers[i] == Owned
    ensures Step(s, Ask(i)).Some? ==>
            var w := Step(s, Ask(i)).value.workers[i];
            && w.Locking? && w.todo == w.wanted
            && forall j :: j in w.wanted <==> j in s.active && ((i, j) in s.declared || (j, i) in s.declared)
    ensures Step(s, Ask(i)).Some? ==>
            Step(s, Ask(i)).value == s.(workers := s.workers[i := Step(s, Ask(i)).value.workers[i]])
  {
  }

  /** Any row is got only when it is free, and a job starts only with all the rows it asked for. */
  lemma GetsExactly(s: System, i: nat, r: nat)
    requires Safe(s)
    ensures Step(s, TakeOwn(i)).Some? <==> i in s.active && i !in s.locks
    ensures Step(s, TakeOwn(i)).Some? ==>
            Step(s, TakeOwn(i)).value == s.(locks := s.locks[i := Own(i)], workers := s.workers[i := Owned])
    ensures Step(s, LockRow(i, r)).Some? <==> Wants(s, i, r) && !Got(s, i, r) && r !in s.locks
    ensures Step(s, LockRow(i, r)).Some? ==>
            var s' := Step(s, LockRow(i, r)).value;
            && Got(s', i, r) && s'.locks == s.locks[r := Excluding(i)]
            && forall j: nat, x: nat | j != i || x != r ::
                 (Got(s', j, x) <==> Got(s, j, x)) && (Wants(s', j, x) <==> Wants(s, j, x))
    ensures Step(s, Start(i)).Some? <==>
            HasAsked(s, i) && !IsRunning(s, i) && forall x :: Wants(s, i, x) ==> Got(s, i, x)
    ensures Step(s, Start(i)).Some? ==>
            IsRunning(Step(s, Start(i)).value, i) && Step(s, Start(i)).value.locks == s.locks
    ensures Step(s, GiveUp(i)).Some? <==> i in s.workers && !IsRunning(s, i)
    ensures Step(s, Finish(i)).Some? <==> IsRunning(s, i)
  {
    if i in s.workers && s.workers[i].Locking? {
      if forall x :: Wants(s, i, x) ==> Got(s, i, x) {
        assert forall x :: x in s.workers[i].todo ==> Wants(s, i, x) && !Got(s, i, x);
      }
      assert r in s.workers[i].todo <==> Wants(s, i, r) && !Got(s, i, r);
    }
  }

  /** A job is switched on or off only while its row is free, and nothing else is. */
  lemma TogglesExactly(s: System, r: nat)
    ensures Step(s, Toggle(r)).Some? <==> r !in s.locks
    ensures Step(s, Toggle(r)).Some? ==>
            var s' := Step(s, Toggle(r)).value;
            && s' == s.(active := s'.active)
            && forall j :: j in s'.active <==> if j == r then j !in s.active else j in s.active
  {
  }

  // ----- a job left alone runs exactly when it does not exclude itself -----

  ghost predicate Quiet(s: System) {
    s.locks == map[] && s.workers == map[]
  }

  lemma QuietIsSafe(s: System)
    requires Quiet(s)
    ensures Safe(s)
  {
  }

  /** With all wanted rows free, the worker gets them one by one. */
  lemma {:induction false} LocksAll(s: System, i: nat) returns (events: seq<Event>)
    requires i in s.workers && s.workers[i].Locking?
    requires forall r :: r in s.workers[i].todo ==> r !in s.locks
    ensures var r := Run(s, events);
            r.Some? && r.value.declared == s.declared && i in r.value.workers
                && r.value.workers[i] == Locking(s.workers[i].wanted, {})
    decreases |s.workers[i].todo|
  {
    var todo := s.workers[i].todo;
    if todo == {} {
      events := [];
    } else {
      var r :| r in todo;
      var s' := Step(s, LockRow(i, r)).value;
      assert todo == todo - {r} + {r};
      var rest := LocksAll(s', i);
      events := [LockRow(i, r)] + rest;
    }
  }

  lemma AloneRuns(s: System, i: nat) returns (events: seq<Event>)
    requires Quiet(s) && i in s.active && !Exclusive(s.declared, i, i)
    ensures Run(s, events).Some? && IsRunning(Run(s, events).value, i)
  {
    var s1 := Step(s, TakeOwn(i)).value;
    var s2 := Step(s1, Ask(i)).value;
    var locking := LocksAll(s2, i);
    var s3 := Run(s2, locking).value;
    var tail := locking + [Start(i)];
    RunConcat(Step, s2, locking, [Start(i)]);
    RunOne(Step, s3, Start(i));
    RunFirst(Step, s1, Ask(i), tail);
    RunFirst(Step, s, TakeOwn(i), [Ask(i)] + tail);
    events := [TakeOwn(i)] + ([Ask(i)] + tail);
  }

  /** Why a job may not exclude itself (`_check_auto_exclusion`): it could never run. */
  lemma RunsAloneExactly(s: System, i: nat)
    requires Quiet(s) && i in s.active
    ensures (exists events :: Run(s, events).Some? && IsRunning(Run(s, events).value, i))
        <==> !Exclusive(s.declared, i, i)
  {
    QuietIsSafe(s);
    if Exclusive(s.declared, i, i) {
      forall events: seq<Event> | Run(s, events).Some? ensures !IsRunning(Run(s, events).value, i) {
        NeverTogether(s, events);
      }
    } else {
      var events := AloneRuns(s, i);
    }
  }
}
