/**
 run_task: run all the given tasks, re-create those that fail for a reason that may pass, and raise at
 the end if any failed for good.
 */
module TaskRunner {

  datatype Outcome = Success | Permanent | Retriable

  /** A task object: the submitted definition it comes from, and how many were created for it before. */
  datatype Task = Task(origin: nat, attempt: nat)

  /** How the execution of a task object ends. */
  type Schedule = Task -> Outcome

  /** The first k executions of a definition all failed with an error that may pass. */
  ghost predicate Retried(ends: Schedule, origin: nat, k: nat) {
    forall j: nat :: j < k ==> ends(Task(origin, j)) == Retriable
  }

  /** The definition ends in this way, at whatever execution. */
  ghost predicate EndsIn(ends: Schedule, origin: nat, o: Outcome) {
    exists k: nat :: Retried(ends, origin, k) && ends(Task(origin, k)) == o
  }

  /** Within so many executions every definition ends. */
  ghost predicate Settles(ends: Schedule, n: nat, bound: nat) {
    forall origin: nat :: origin < n ==> !Retried(ends, origin, bound)
  }

  /** task_def at the start of round k: the definitions that were retried so far, unchanged. */
  ghost predicate IsPending<D(!new)>(ends: Schedule, defs: seq<D>, k: nat, taskDef: map<Task, D>) {
    && (forall t :: t in taskDef ==> t.attempt == k && t.origin < |defs| && Retried(ends, t.origin, k) && taskDef[t] == defs[t.origin])
    && (forall origin: nat :: origin < |defs| && Retried(ends, origin, k) ==> Task(origin, k) in taskDef)
  }

  /** task_def amid round k, when the tasks in `todo` are not yet handled: those as they were, and the
      others created again if their error may pass. */
  ghost predicate IsPartly<D(!new)>(ends: Schedule, k: nat, before: map<Task, D>, todo: set<Task>, taskDef: map<Task, D>) {
    var again := k + 1;
    && (forall t :: t in todo ==> t in before && t.attempt == k && t in taskDef && taskDef[t] == before[t])
    && (forall t :: t in taskDef ==> t in todo || (t.attempt == again && Created(ends, k, before, todo, t.origin)
                                                  && taskDef[t] == before[Task(t.origin, k)]))
    && (forall origin: nat :: Created(ends, k, before, todo, origin) ==> Task(origin, again) in taskDef)
  }

  ghost predicate Created<D(!new)>(ends: Schedule, k: nat, before: map<Task, D>, todo: set<Task>, origin: nat) {
    var t := Task(origin, k);
    t in before && t !in todo && ends(t) == Retriable
  }

  /** Which tasks have ended so, by the start of round k. */
  ghost predicate IsEnded(ends: Schedule, n: nat, k: nat, o: Outcome, tasks: set<Task>) {
    forall t :: t in tasks <==> t.origin < n && t.attempt < k && Retried(ends, t.origin, t.attempt) && ends(t) == o
  }

  lemma RetriedMore(ends: Schedule, origin: nat, k: nat)
    ensures Retried(ends, origin, k + 1) <==> Retried(ends, origin, k) && ends(Task(origin, k)) == Retriable
  {
  }

  lemma RetriedLess(ends: Schedule, origin: nat, j: nat, k: nat)
    requires j <= k && Retried(ends, origin, k)
    ensures Retried(ends, origin, j)
  {
  }

  lemma RoundDone<D(!new)>(ends: Schedule, defs: seq<D>, k: nat, next: nat, before: map<Task, D>, taskDef: map<Task, D>)
    requires IsPending(ends, defs, k, before) && IsPartly(ends, k, before, {}, taskDef) && next == k + 1
    ensures IsPending(ends, defs, next, taskDef)
  {
    forall t | t in taskDef
      ensures t.attempt == next && t.origin < |defs| && Retried(ends, t.origin, next) && taskDef[t] == defs[t.origin]
    {
      RetriedMore(ends, t.origin, k);
    }
    forall origin: nat | origin < |defs| && Retried(ends, origin, next) ensures Task(origin, next) in taskDef {
      RetriedMore(ends, origin, k);
      assert Created(ends, k, before, {}, origin);
    }
  }

  /** Handling one awaited task. */
  lemma PartlyStep<D(!new)>(ends: Schedule, k: nat, before: map<Task, D>, todo: set<Task>, taskDef: map<Task, D>, t: Task)
    requires IsPartly(ends, k, before, todo, taskDef) && t in todo
    ensures t in before && t in taskDef
    ensures var rest := taskDef - {t};
            IsPartly(ends, k, before, todo - {t},
                     if ends(t) == Retriable then rest[Task(t.origin, t.attempt + 1) := taskDef[t]] else rest)
  {
    assert t == Task(t.origin, k);
    forall origin: nat
      ensures Created(ends, k, before, todo - {t}, origin) <==>
              Created(ends, k, before, todo, origin) || (origin == t.origin && ends(t) == Retriable)
    {
      assert Task(origin, k) == t <==> origin == t.origin;
    }
    hide Created;
  }

  ghost function Handled<D>(ends: Schedule, before: map<Task, D>, todo: set<Task>, o: Outcome): set<Task> {
    set t | t in before && t !in todo && ends(t) == o
  }

  lemma HandledStep<D>(ends: Schedule, before: map<Task, D>, todo: set<Task>, o: Outcome, t: Task)
    requires t in todo && t in before
    ensures Handled(ends, before, todo - {t}, o) == Handled(ends, before, todo, o) + if ends(t) == o then {t} else {}
  {
  }

  /** The loop over the awaited tasks, when those in `todo` are not yet handled. */
  ghost predicate InRound<D(!new)>(ends: Schedule, k: nat, before: map<Task, D>, todo: set<Task>,
                                   taskDef: map<Task, D>, succeeded: set<Task>, permanent: set<Task>)
  {
    && IsPartly(ends, k, before, todo, taskDef)
    && succeeded == Handled(ends, before, todo, Success)
    && permanent == Handled(ends, before, todo, Permanent)
  }

  lemma InRoundStep<D(!new)>(ends: Schedule, k: nat, before: map<Task, D>, todo: set<Task>,
                             taskDef: map<Task, D>, succeeded: set<Task>, permanent: set<Task>, t: Task)
    requires InRound(ends, k, before, todo, taskDef, succeeded, permanent) && t in todo
    ensures t in taskDef
    ensures var rest := taskDef - {t};
            match ends(t)
            case Success => InRound(ends, k, before, todo - {t}, rest, succeeded + {t}, permanent)
            case Permanent => InRound(ends, k, before, todo - {t}, rest, succeeded, permanent + {t})
            case Retriable => InRound(ends, k, before, todo - {t}, rest[Task(t.origin, t.attempt + 1) := taskDef[t]], succeeded, permanent)
  {
    PartlyStep(ends, k, before, todo, taskDef, t);
    HandledStep(ends, before, todo, Success, t);
    HandledStep(ends, before, todo, Permanent, t);
    hide IsPartly, Handled;
  }

  /** One round: every task is awaited, popped, and re-created if its error may pass. */
  method Round<D(!new)>(ends: Schedule, ghost defs: seq<D>, ghost k: nat, before: map<Task, D>, failedBefore: bool)
    returns (taskDef: map<Task, D>, failed: bool, ghost succeeded: set<Task>, ghost permanent: set<Task>)
    requires IsPending(ends, defs, k, before)
    ensures IsPending(ends, defs, k + 1, taskDef)
    ensures failed <==> failedBefore || permanent != {}
    ensures succeeded == Handled(ends, before, {}, Success) && permanent == Handled(ends, before, {}, Permanent)
  {
    taskDef, failed := before, failedBefore;
    succeeded, permanent := {}, {};
    var done := taskDef.Keys;
    assert InRound(ends, k, before, done, taskDef, {}, {}) by {
      assert Handled(ends, before, done, Success) == {} == Handled(ends, before, done, Permanent);
    }
    hide IsPending, InRound;
    while done != {}
      invariant InRound(ends, k, before, done, taskDef, succeeded, permanent)
      invariant failed <==> failedBefore || permanent != {}
      decreases |done|
    {
      var task :| task in done;
      InRoundStep(ends, k, before, done, taskDef, succeeded, permanent, task);
      done := done - {task};
      var def := taskDef[task];
      taskDef := taskDef - {task};
      match ends(task)
      case Permanent =>
        failed := true;
        permanent := permanent + {task};
      case Retriable =>
        taskDef := taskDef[Task(task.origin, task.attempt + 1) := def];
      case Success =>
        succeeded := succeeded + {task};
    }
    RoundEnd(ends, defs, k, before, taskDef, succeeded, permanent);
  }

  lemma RoundEnd<D(!new)>(ends: Schedule, defs: seq<D>, k: nat, before: map<Task, D>,
                          taskDef: map<Task, D>, succeeded: set<Task>, permanent: set<Task>)
    requires IsPending(ends, defs, k, before) && InRound(ends, k, before, {}, taskDef, succeeded, permanent)
    ensures IsPending(ends, defs, k + 1, taskDef)
    ensures succeeded == Handled(ends, before, {}, Success) && permanent == Handled(ends, before, {}, Permanent)
  {
    RoundDone(ends, defs, k, k + 1, before, taskDef);
  }

  lemma EndedMore<D(!new)>(ends: Schedule, defs: seq<D>, k: nat, taskDef: map<Task, D>, o: Outcome, tasks: set<Task>, more: set<Task>)
    requires IsPending(ends, defs, k, taskDef) && IsEnded(ends, |defs|, k, o, tasks) && o != Retriable
    requires more == Handled(ends, taskDef, {}, o)
    ensures IsEnded(ends, |defs|, k + 1, o, tasks + more)
  {
    forall t
      ensures t in tasks + more <==> t.origin < |defs| && t.attempt < k + 1 && Retried(ends, t.origin, t.attempt) && ends(t) == o
    {
      assert t.attempt == k ==> t == Task(t.origin, k);
    }
  }

  /** The loop is over after k rounds exactly if every definition ended within k executions; so it runs
      for ever exactly if some definition never ends. */
  lemma OverExactly<D(!new)>(ends: Schedule, defs: seq<D>, k: nat, taskDef: map<Task, D>)
    requires IsPending(ends, defs, k, taskDef)
    ensures taskDef == map[] <==> Settles(ends, |defs|, k)
  {
    if taskDef != map[] {
      var t :| t in taskDef;
      assert t.origin < |defs| && Retried(ends, t.origin, k);
    } else {
      forall origin: nat | origin < |defs| ensures !Retried(ends, origin, k) {
        assert Task(origin, k) !in taskDef;
      }
    }
  }

  ghost predicate Among(tasks: set<Task>, origin: nat) {
    exists t :: t in tasks && t.origin == origin
  }

  lemma {:induction false} FirstEnd(ends: Schedule, origin: nat, k: nat) returns (j: nat)
    requires !Retried(ends, origin, k)
    ensures j < k && Retried(ends, origin, j) && ends(Task(origin, j)) != Retriable
  {
    if Retried(ends, origin, k - 1) {
      j := k - 1;
    } else {
      j := FirstEnd(ends, origin, k - 1);
    }
  }

  /** At the start of every round each submitted definition is in exactly one place: pending, succeeded or
      failed for good; and it ended once. */
  lemma Partition<D(!new)>(ends: Schedule, defs: seq<D>, k: nat, taskDef: map<Task, D>, succeeded: set<Task>, permanent: set<Task>)
    requires IsPending(ends, defs, k, taskDef)
    requires IsEnded(ends, |defs|, k, Success, succeeded) && IsEnded(ends, |defs|, k, Permanent, permanent)
    ensures forall origin: nat :: origin < |defs| ==>
              && (Task(origin, k) in taskDef || Among(succeeded, origin) || Among(permanent, origin))
              && !(Task(origin, k) in taskDef && Among(succeeded + permanent, origin))
              && !(Among(succeeded, origin) && Among(permanent, origin))
    ensures forall s, t :: s in succeeded + permanent && t in succeeded + permanent && s.origin == t.origin ==> s == t
  {
    forall s, t | s in succeeded + permanent && t in succeeded + permanent && s.origin == t.origin ensures s == t {
      EndOnce(ends, s, t);
    }
    forall origin: nat | origin < |defs|
      ensures Task(origin, k) in taskDef || Among(succeeded, origin) || Among(permanent, origin)
      ensures !(Task(origin, k) in taskDef && Among(succeeded + permanent, origin))
      ensures !(Among(succeeded, origin) && Among(permanent, origin))
    {
      if !Retried(ends, origin, k) {
        var j := FirstEnd(ends, origin, k);
        assert Task(origin, j) in succeeded + permanent;
      }
    }
  }

  lemma EndOnce(ends: Schedule, s: Task, t: Task)
    requires s.origin == t.origin && Retried(ends, s.origin, s.attempt) && Retried(ends, t.origin, t.attempt)
    requires ends(s) != Retriable && ends(t) != Retriable
    ensures s == t
  {
    assert s == Task(s.origin, s.attempt) && t == Task(s.origin, t.attempt);
  }

  method RunTask<D(!new)>(ends: Schedule, defs: seq<D>, submitted: map<Task, D>, ghost bound: nat)
    returns (raised: bool, ghost succeeded: set<Task>, ghost permanent: set<Task>)
    requires IsPending(ends, defs, 0, submitted) && Settles(ends, |defs|, bound)
    ensures raised <==> exists origin: nat :: origin < |defs| && EndsIn(ends, origin, Permanent)
    ensures forall t :: t in succeeded <==> t.origin < |defs| && Retried(ends, t.origin, t.attempt) && ends(t) == Success
    ensures forall t :: t in permanent <==> t.origin < |defs| && Retried(ends, t.origin, t.attempt) && ends(t) == Permanent
    ensures forall origin: nat :: origin < |defs| ==> Among(succeeded, origin) != Among(permanent, origin)
  {
    raised, succeeded, permanent := false, {}, {};
    var taskDef := submitted;
    ghost var k := 0;
    while taskDef != map[]
      invariant IsPending(ends, defs, k, taskDef)
      invariant IsEnded(ends, |defs|, k, Success, succeeded) && IsEnded(ends, |defs|, k, Permanent, permanent)
      invariant raised <==> permanent != {}
      invariant k <= bound
      decreases bound - k
    {
      OverExactly(ends, defs, k, taskDef);
      assert k < bound by {
        if k == bound {
          assert false;
        }
      }
      var next, failed, good, bad := Round(ends, defs, k, taskDef, raised);
      EndedMore(ends, defs, k, taskDef, Success, succeeded, good);
      EndedMore(ends, defs, k, taskDef, Permanent, permanent, bad);
      taskDef, raised := next, failed;
      succeeded, permanent := succeeded + good, permanent + bad;
      k := k + 1;
    }
    OverExactly(ends, defs, k, taskDef);
    Partition(ends, defs, k, taskDef, succeeded, permanent);
    forall t: Task | t.origin < |defs| && Retried(ends, t.origin, t.attempt) ensures t.attempt < k {
      if t.attempt >= k {
        RetriedLess(ends, t.origin, k, t.attempt);
      }
    }
    if raised {
      ghost var t :| t in permanent;
      assert EndsIn(ends, t.origin, Permanent) by {
        assert t == Task(t.origin, t.attempt);
      }
    }
    if origin: nat :| origin < |defs| && EndsIn(ends, origin, Permanent) {
      var j: nat :| Retried(ends, origin, j) && ends(Task(origin, j)) == Permanent;
      assert Task(origin, j) in permanent;
    }
  }
}
