/**
 The resumable stages of the OVS to OVN migration.  Stage statuses are persisted; a run may die at any
 point, any stage may fail, and writes of the status may fail with or without having taken effect.
 */
module StageMigration {
  import opened Wrappers

  datatype Status = Init | Started | Completed | Failed

  /** How a status write ends: done, refused, or done although an error is reported. */
  datatype Write = Done | Refused | DoneWithError

  datatype Death = Survives | AtStart | InBody | AtMark | AtPrompt

  /** What happens to one stage in one run: the outcomes of its writes and of its executable, the
      operator's answer to the prompt after it (Y or N), and where the process dies, if it does. */
  datatype Fate = Fate(start: Write, bodyOk: bool, finish: Write, mark: Write, yes: bool, dies: Death)

  datatype Outcome = Returned | Raised | Died

  /** `Wrote` records writes that took effect; `Ran` the statuses when a stage body was started. */
  datatype Event = Wrote(stage: nat, status: Status) | Ran(stage: nat, before: seq<Status>) | Erred(stage: nat) | Answered(stage: nat, yes: bool)

  /** A run after some stages; `end` is set once it is over. */
  datatype Run = Run(statuses: seq<Status>, end: Option<Outcome>, events: seq<Event>)

  /** No error, an error kept in `error`, or an exception on its way out of the except block. */
  datatype Fault = Clean | Caught | Escaping

  function Put(r: Run, i: nat, status: Status, w: Write): Run
    requires i < |r.statuses|
  {
    if w.Refused? then r else r.(statuses := r.statuses[i := status], events := r.events + [Wrote(i, status)])
  }

  /** except: mark the stage failed. */
  function Except(r: Run, i: nat, f: Fate): (Run, Fault)
    requires i < |r.statuses|
  {
    var erred := r.(events := r.events + [Erred(i)]);
    if f.dies.AtMark? then (erred.(end := Some(Died)), Caught)
    else (Put(erred, i, Failed, f.mark), if f.mark.Done? then Caught else Escaping)
  }

  /** try: skip a completed stage, or start it, run it and complete it. */
  function Try(r: Run, i: nat, f: Fate): (Run, Fault)
    requires i < |r.statuses|
  {
    if r.statuses[i] == Completed then (r, Clean)
    else if f.dies.AtStart? then (r.(end := Some(Died)), Clean)
    else
      var started := Put(r, i, Started, f.start);
      if !f.start.Done? then Except(started, i, f) else
      var ran := started.(events := started.events + [Ran(i, started.statuses)]);
      if f.dies.InBody? then (ran.(end := Some(Died)), Clean)
      else if !f.bodyOk then Except(ran, i, f)
      else
        var finished := Put(ran, i, Completed, f.finish);
        if f.finish.Done? then (finished, Clean) else Except(finished, i, f)
  }

  /** finally: ask in interactive mode, where N ends the run and drops any exception. */
  function Finally(r: Run, i: nat, f: Fate, fault: Fault, interactive: bool): Run {
    if f.dies.AtPrompt? then r.(end := Some(Died))
    else if interactive && i != |r.statuses| - 1 then
      var asked := r.(events := r.events + [Answered(i, f.yes)]);
      if !f.yes then asked.(end := Some(Returned))
      else if fault.Escaping? then asked.(end := Some(Raised))
      else asked
    else if fault.Clean? then r else r.(end := Some(Raised))
  }

  function Stage(r: Run, i: nat, f: Fate, interactive: bool): (next: Run)
    requires i < |r.statuses|
    ensures |next.statuses| == |r.statuses|
  {
    var (tried, fault) := Try(r, i, f);
    if tried.end.Some? then tried else Finally(tried, i, f, fault, interactive)
  }

  /** A stage after what went before. */
  function Then(before: Run, i: nat, f: Fate, interactive: bool): Run
    requires i < |before.statuses|
  {
    var r := Stage(before.(events := []), i, f, interactive);
    r.(events := before.events + r.events)
  }

  /** The run after the first k stages of the workflow. */
  function Upto(statuses: seq<Status>, fates: seq<Fate>, interactive: bool, k: nat): (r: Run)
    requires |fates| == |statuses| && k <= |statuses|
    ensures |r.statuses| == |statuses|
  {
    if k == 0 then Run(statuses, None, []) else
    var before := Upto(statuses, fates, interactive, k - 1);
    if before.end.Some? then before else Then(before, k - 1, fates[k - 1], interactive)
  }

  lemma UptoIs(statuses: seq<Status>, fates: seq<Fate>, interactive: bool, k: nat)
    requires |fates| == |statuses| && 0 < k <= |statuses|
    ensures var before := Upto(statuses, fates, interactive, k - 1);
            Upto(statuses, fates, interactive, k) == if before.end.Some? then before else Then(before, k - 1, fates[k - 1], interactive)
  {
  }

  function Migration(statuses: seq<Status>, fates: seq<Fate>, interactive: bool): Run
    requires |fates| == |statuses|
  {
    var r := Upto(statuses, fates, interactive, |statuses|);
    if r.end.Some? then r else r.(end := Some(Returned))
  }

  class StateCM {
    var data: seq<Status>

    constructor (stages: nat)
      ensures data == seq(stages, _ => Init)
    {
      data := seq(stages, _ => Init);
    }

    method Update(i: nat, status: Status, w: Write) returns (ok: bool)
      requires i < |data|
      modifies this
      ensures data == if w.Refused? then old(data) else old(data)[i := status]
      ensures ok == w.Done?
    {
      if !w.Refused? {
        data := data[i := status];
      }
      return w.Done?;
    }

    /** The try and except blocks of one stage; None means that the process died. */
    method RunStage(i: nat, f: Fate, ghost r: Run) returns (fault: Option<Fault>)
      requires i < |data| && r.statuses == data && r.end.None?
      modifies this
      ensures data == Try(r, i, f).0.statuses
      ensures fault == if Try(r, i, f).0.end.Some? then None else Some(Try(r, i, f).1)
    {
      if data[i] == Completed {
        return Some(Clean);
      }
      if f.dies.AtStart? {
        return None;
      }
      var ok := Update(i, Started, f.start);
      if ok {
        if f.dies.InBody? {
          return None;
        }
        ok := f.bodyOk;
        if ok {
          ok := Update(i, Completed, f.finish);
          if ok {
            return Some(Clean);
          }
        }
      }
      if f.dies.AtMark? {
        return None;
      }
      var marked := Update(i, Failed, f.mark);
      return Some(if marked then Caught else Escaping);
    }

    /** The whole body of the loop, the finally block included; Some when the run is over. */
    method StageAndPrompt(i: nat, f: Fate, interactive: bool, ghost r: Run) returns (end: Option<Outcome>)
      requires i < |data| && r.statuses == data && r.end.None?
      modifies this
      ensures data == Stage(r, i, f, interactive).statuses && end == Stage(r, i, f, interactive).end
    {
      var fault := RunStage(i, f, r);
      if fault.None? || f.dies.AtPrompt? {
        return Some(Died);
      }
      var error := fault.value.Caught?;
      if interactive && i != |data| - 1 {
        if f.yes {
          error := false;
        } else {
          return Some(Returned);
        }
      }
      return if error || fault.value.Escaping? then Some(Raised) else None;
    }

    method DoMigration(fates: seq<Fate>, interactive: bool) returns (outcome: Outcome)
      requires |fates| == |data|
      modifies this
      ensures data == Migration(old(data), fates, interactive).statuses
      ensures Some(outcome) == Migration(old(data), fates, interactive).end
    {
      var n := |data|;
      ghost var r := Run(data, None, []);
      hide Stage;
      for i := 0 to n
        invariant |data| == n && r == Upto(old(data), fates, interactive, i) && r.statuses == data && r.end.None?
      {
        var end := StageAndPrompt(i, fates[i], interactive, r.(events := []));
        r := Then(r, i, fates[i], interactive);
        if end.Some? {
          Over(old(data), fates, interactive, i + 1);
          return end.value;
        }
      }
      return Returned;
    }
  }

  /** A run that is over stays as it is. */
  lemma {:induction false} OverAt(statuses: seq<Status>, fates: seq<Fate>, interactive: bool, k: nat, m: nat)
    requires |fates| == |statuses| && k <= m <= |statuses| && Upto(statuses, fates, interactive, k).end.Some?
    ensures Upto(statuses, fates, interactive, m) == Upto(statuses, fates, interactive, k)
  {
    if k < m {
      OverAt(statuses, fates, interactive, k, m - 1);
    }
  }

  lemma Over(statuses: seq<Status>, fates: seq<Fate>, interactive: bool, k: nat)
    requires |fates| == |statuses| && k <= |statuses| && Upto(statuses, fates, interactive, k).end.Some?
    ensures Migration(statuses, fates, interactive) == Upto(statuses, fates, interactive, k)
  {
    OverAt(statuses, fates, interactive, k, |statuses|);
  }

  // ---------------------------------------------------------------- non-interactive runs

  /** COMPLETED* (STARTED | FAILED)? init* */
  ghost predicate Shape(statuses: seq<Status>) {
    exists k :: ShapeAt(statuses, k)
  }

  ghost predicate ShapeAt(statuses: seq<Status>, k: nat) {
    && k <= |statuses|
    && (forall i :: 0 <= i < k ==> statuses[i] == Completed)
    && (forall i :: k < i < |statuses| ==> statuses[i] == Init)
    && (k < |statuses| ==> statuses[k] != Completed)
  }

  /** Where a running non-interactive run is: all stages before k are completed. */
  ghost predicate Reached(r: Run, k: nat) {
    k <= |r.statuses| && forall i :: 0 <= i < k ==> r.statuses[i] == Completed
  }

  lemma StageReached(r: Run, i: nat, f: Fate)
    requires i < |r.statuses| && r.end.None? && Reached(r, i)
    ensures Then(r, i, f, false).end.None? ==> Reached(Then(r, i, f, false), i + 1)
    ensures Reached(Then(r, i, f, false), i)
    ensures r.statuses[i] == Completed ==> Then(r, i, f, false).statuses[i] == Completed
    ensures forall j :: 0 <= j < |r.statuses| && j != i ==> Then(r, i, f, false).statuses[j] == r.statuses[j]
  {
  }

  lemma {:induction false} UptoReached(statuses: seq<Status>, fates: seq<Fate>, k: nat)
    requires |fates| == |statuses| && k <= |statuses|
    ensures Upto(statuses, fates, false, k).end.None? ==> Reached(Upto(statuses, fates, false, k), k)
  {
    if k > 0 {
      hide Then, Stage;
      UptoReached(statuses, fates, k - 1);
      var before := Upto(statuses, fates, false, k - 1);
      if before.end.None? {
        StageReached(before, k - 1, fates[k - 1]);
      }
    }
  }

  lemma ThenShape(r: Run, i: nat, f: Fate)
    requires i < |r.statuses| && r.end.None? && Reached(r, i) && Shape(r.statuses)
    ensures Shape(Then(r, i, f, false).statuses)
  {
    StageReached(r, i, f);
    hide Then;
    StageShape(r, i, Then(r, i, f, false));
  }

  lemma {:induction false} UptoShape(statuses: seq<Status>, fates: seq<Fate>, k: nat)
    requires |fates| == |statuses| && k <= |statuses| && Shape(statuses)
    ensures Shape(Upto(statuses, fates, false, k).statuses)
  {
    hide Then, Shape, Reached;
    if k > 0 {
      UptoShape(statuses, fates, k - 1);
      UptoReached(statuses, fates, k - 1);
      var before := Upto(statuses, fates, false, k - 1);
      if before.end.None? {
        ThenShape(before, k - 1, fates[k - 1]);
      }
    }
  }

  lemma StageShape(r: Run, i: nat, next: Run)
    requires Shape(r.statuses) && Reached(r, i) && i < |r.statuses| == |next.statuses|
    requires r.statuses[i] == Completed ==> next.statuses[i] == Completed
    requires forall j :: 0 <= j < |r.statuses| && j != i ==> next.statuses[j] == r.statuses[j]
    ensures Shape(next.statuses)
  {
    var k :| ShapeAt(r.statuses, k);
    if r.statuses[i] == Completed {
      assert next.statuses == r.statuses;
    } else {
      assert k == i;
      assert ShapeAt(next.statuses, if next.statuses[i] == Completed then i + 1 else i);
    }
  }

  lemma CompletedKeptByStage(r: Run, i: nat, f: Fate, interactive: bool)
    requires i < |r.statuses|
    ensures forall j :: 0 <= j < |r.statuses| && r.statuses[j] == Completed ==> Then(r, i, f, interactive).statuses[j] == Completed
  {
  }

  /** Runs one after another, each in its own mode and ending as it may. */
  function Runs(statuses: seq<Status>, modes: seq<bool>, fates: seq<seq<Fate>>): (r: seq<Status>)
    requires |modes| == |fates| && forall i :: 0 <= i < |fates| ==> |fates[i]| == |statuses|
    ensures |r| == |statuses|
  {
    if modes == [] then statuses else
    var last := |modes| - 1;
    Migration(Runs(statuses, modes[..last], fates[..last]), fates[last], modes[last]).statuses
  }

  /** Across any number of non-interactive runs, each dying anywhere, the persisted statuses keep the
      shape COMPLETED* (STARTED | FAILED)? init*. */
  lemma {:induction false} ShapeAlways(statuses: seq<Status>, modes: seq<bool>, fates: seq<seq<Fate>>)
    requires |modes| == |fates| && forall i :: 0 <= i < |fates| ==> |fates[i]| == |statuses|
    requires forall i :: 0 <= i < |modes| ==> !modes[i]
    requires forall i :: 0 <= i < |statuses| ==> statuses[i] == Init
    ensures Shape(Runs(statuses, modes, fates))
  {
    if modes == [] {
      assert ShapeAt(statuses, 0);
    } else {
      var last := |modes| - 1;
      ShapeAlways(statuses, modes[..last], fates[..last]);
      UptoShape(Runs(statuses, modes[..last], fates[..last]), fates[last], |statuses|);
    }
  }

  lemma {:induction false} CompletedKept(statuses: seq<Status>, fates: seq<Fate>, interactive: bool, k: nat, j: nat)
    requires |fates| == |statuses| && k <= |statuses| && j < |statuses| && statuses[j] == Completed
    ensures Upto(statuses, fates, interactive, k).statuses[j] == Completed
  {
    hide Then;
    if k > 0 {
      CompletedKept(statuses, fates, interactive, k - 1, j);
      var before := Upto(statuses, fates, interactive, k - 1);
      if before.end.None? {
        CompletedKeptByStage(before, k - 1, fates[k - 1], interactive);
      }
    }
  }

  /** In either mode, a stage that is completed when a run begins stays completed in all later runs. */
  lemma {:induction false} CompletedForever(statuses: seq<Status>, modes: seq<bool>, fates: seq<seq<Fate>>, j: nat)
    requires |modes| == |fates| && forall i :: 0 <= i < |fates| ==> |fates[i]| == |statuses|
    requires j < |statuses| && statuses[j] == Completed
    ensures Runs(statuses, modes, fates)[j] == Completed
  {
    if modes != [] {
      var last := |modes| - 1;
      CompletedForever(statuses, modes[..last], fates[..last], j);
      CompletedKept(Runs(statuses, modes[..last], fates[..last]), fates[last], modes[last], |statuses|, j);
    }
  }

  /** Some later write replaced a COMPLETED of stage i. */
  ghost predicate Overwritten(events: seq<Event>, i: nat) {
    exists a, b :: 0 <= a < b < |events| && events[a] == Wrote(i, Completed) && events[b].Wrote? && events[b].stage == i && events[b].status != Completed
  }

  /** Within a run a stage overwrites its own COMPLETED exactly when that write took effect and yet
      reported an error, and the FAILED mark then takes effect. */
  lemma OverwrittenExactly(r: Run, i: nat, f: Fate, interactive: bool)
    requires i < |r.statuses| && r.end.None? && r.events == []
    ensures Overwritten(Stage(r, i, f, interactive).events, i) <==>
            && r.statuses[i] != Completed && f.start.Done? && f.bodyOk && f.finish.DoneWithError?
            && !f.mark.Refused? && f.dies in {Survives, AtPrompt}
  {
    StageLogIs(r, i, f, interactive);
    var events := Stage(r, i, f, interactive).events;
    if r.statuses[i] != Completed && f.start.Done? && f.bodyOk && f.finish.DoneWithError? && !f.mark.Refused? && f.dies in {Survives, AtPrompt} {
      assert events[2] == Wrote(i, Completed) && events[4] == Wrote(i, Failed);
    }
  }

  /** What a stage does, written out. */
  function StageLog(statuses: seq<Status>, i: nat, f: Fate): seq<Event>
    requires i < |statuses|
  {
    var marked := if f.dies.AtMark? || f.mark.Refused? then [Erred(i)] else [Erred(i), Wrote(i, Failed)];
    if statuses[i] == Completed || f.dies.AtStart? then []
    else if f.start.Refused? then marked
    else if f.start.DoneWithError? then [Wrote(i, Started)] + marked
    else
      var ran := [Wrote(i, Started), Ran(i, statuses[i := Started])];
      if f.dies.InBody? then ran
      else if !f.bodyOk || f.finish.Refused? then ran + marked
      else if f.finish.Done? then ran + [Wrote(i, Completed)]
      else ran + [Wrote(i, Completed)] + marked
  }

  lemma TryLogIs(r: Run, i: nat, f: Fate)
    requires i < |r.statuses| && r.events == []
    ensures Try(r, i, f).0.events == StageLog(r.statuses, i, f)
  {
  }

  lemma StageLogIs(r: Run, i: nat, f: Fate, interactive: bool)
    requires i < |r.statuses| && r.events == []
    ensures var s := Stage(r, i, f, interactive);
            s.events == StageLog(r.statuses, i, f) ||
            (interactive && i < |r.statuses| - 1 && s.events == StageLog(r.statuses, i, f) + [Answered(i, f.yes)])
  {
    hide StageLog;
    assert |Stage(r, i, f, interactive).statuses| == |r.statuses|;
    TryLogIs(r, i, f);
  }

  /** The statuses after the writes in the log. */
  function Replay(statuses: seq<Status>, events: seq<Event>): (r: seq<Status>)
    ensures |r| == |statuses|
  {
    if events == [] then statuses else
    var last := |events| - 1;
    var r := Replay(statuses, events[..last]);
    match events[last]
    case Wrote(i, status) => if i < |r| then r[i := status] else r
    case _ => r
  }

  lemma {:induction false} ReplayTwo(statuses: seq<Status>, a: seq<Event>, b: seq<Event>)
    ensures Replay(statuses, a + b) == Replay(Replay(statuses, a), b)
  {
    if b == [] {
      assert a + b == a;
    } else {
      var last := |b| - 1;
      assert (a + b)[..|a + b| - 1] == a + b[..last];
      ReplayTwo(statuses, a, b[..last]);
    }
  }

  lemma ReplaySnoc(statuses: seq<Status>, events: seq<Event>, e: Event)
    ensures Replay(statuses, events + [e]) ==
              if e.Wrote? && e.stage < |statuses| then Replay(statuses, events)[e.stage := e.status] else Replay(statuses, events)
  {
    assert (events + [e])[..|events|] == events;
  }

  ghost predicate Logged(statuses: seq<Status>, r: Run) {
    |r.statuses| == |statuses| && r.statuses == Replay(statuses, r.events)
  }

  lemma PutLogged(statuses: seq<Status>, r: Run, i: nat, status: Status, w: Write)
    requires i < |r.statuses| && Logged(statuses, r)
    ensures Logged(statuses, Put(r, i, status, w))
  {
    ReplaySnoc(statuses, r.events, Wrote(i, status));
  }

  lemma ExceptLogged(statuses: seq<Status>, r: Run, i: nat, f: Fate)
    requires i < |r.statuses| && Logged(statuses, r)
    ensures Logged(statuses, Except(r, i, f).0)
  {
    hide Replay;
    ReplaySnoc(statuses, r.events, Erred(i));
    PutLogged(statuses, r.(events := r.events + [Erred(i)]), i, Failed, f.mark);
  }

  lemma TryLogged(statuses: seq<Status>, r: Run, i: nat, f: Fate)
    requires i < |r.statuses| && Logged(statuses, r)
    ensures Logged(statuses, Try(r, i, f).0)
  {
    hide Replay, Except, Put;
    if r.statuses[i] != Completed && !f.dies.AtStart? {
      PutLogged(statuses, r, i, Started, f.start);
      var started := Put(r, i, Started, f.start);
      ExceptLogged(statuses, started, i, f);
      ReplaySnoc(statuses, started.events, Ran(i, started.statuses));
      var ran := started.(events := started.events + [Ran(i, started.statuses)]);
      ExceptLogged(statuses, ran, i, f);
      PutLogged(statuses, ran, i, Completed, f.finish);
      ExceptLogged(statuses, Put(ran, i, Completed, f.finish), i, f);
    }
  }

  lemma StageLogged(statuses: seq<Status>, r: Run, i: nat, f: Fate, interactive: bool)
    requires i < |r.statuses| && Logged(statuses, r)
    ensures Logged(statuses, Stage(r, i, f, interactive))
  {
    hide Replay, Try;
    TryLogged(statuses, r, i, f);
    ReplaySnoc(statuses, Try(r, i, f).0.events, Answered(i, f.yes));
  }

  /** In either mode and however the run ends, the persisted statuses are what the writes in its log
      make of the ones it began with. */
  lemma {:induction false} StatusesAreWrites(statuses: seq<Status>, fates: seq<Fate>, interactive: bool, k: nat)
    requires |fates| == |statuses| && k <= |statuses|
    ensures Upto(statuses, fates, interactive, k).statuses == Replay(statuses, Upto(statuses, fates, interactive, k).events)
  {
    hide Replay, Stage;
    if k == 0 {
      ReplayNothing(statuses);
    } else {
      StatusesAreWrites(statuses, fates, interactive, k - 1);
      var before := Upto(statuses, fates, interactive, k - 1);
      if before.end.None? {
        ReplayNothing(before.statuses);
        StageLogged(before.statuses, before.(events := []), k - 1, fates[k - 1], interactive);
        ReplayTwo(statuses, before.events, Stage(before.(events := []), k - 1, fates[k - 1], interactive).events);
      }
    }
  }

  lemma ReplayNothing(statuses: seq<Status>)
    ensures Replay(statuses, []) == statuses
  {
  }

  /** A stage not completed before goes wrong. */
  predicate Fails(status: Status, f: Fate) {
    status != Completed && !(f.start.Done? && f.bodyOk && f.finish.Done?)
  }

  /** The process dies in the stage, if it gets to that point of it. */
  predicate Dies(status: Status, f: Fate) {
    || f.dies.AtPrompt?
    || (status != Completed && (f.dies.AtStart? || (f.start.Done? && f.dies.InBody?)))
    || (Fails(status, f) && f.dies.AtMark?)
  }

  /** How a stage ends a run: by death; by the answer N; by an error, which the answer Y drops unless
      marking the failure failed too; and else not. */
  lemma StageEndsExactly(r: Run, i: nat, f: Fate, interactive: bool)
    requires i < |r.statuses| && r.end.None?
    ensures var end := Stage(r, i, f, interactive).end;
            var asked := interactive && i != |r.statuses| - 1;
            && (end == Some(Died) <==> Dies(r.statuses[i], f))
            && (end == Some(Returned) <==> !Dies(r.statuses[i], f) && asked && !f.yes)
            && (end == Some(Raised) <==>
                  !Dies(r.statuses[i], f) && Fails(r.statuses[i], f) && (asked ==> f.yes && !f.mark.Done?))
  {
  }

  /** In a stage the body runs at most once, before anything fails. */
  lemma StageLogOrder(statuses: seq<Status>, i: nat, f: Fate)
    requires i < |statuses|
    ensures var log := StageLog(statuses, i, f);
            && (forall a, b :: 0 <= a < b < |log| && log[a].Erred? ==> !log[b].Ran?)
            && (forall a :: 0 <= a < |log| && log[a].Erred? ==> log[a].stage == i)
            && (forall a :: 0 <= a < |log| && log[a].Ran? ==> log[a] == Ran(i, statuses[i := Started]))
  {
  }

  lemma EventsGrow(statuses: seq<Status>, fates: seq<Fate>, interactive: bool, k: nat)
    requires |fates| == |statuses| && 0 < k <= |statuses|
    ensures var (before, r) := (Upto(statuses, fates, interactive, k - 1), Upto(statuses, fates, interactive, k));
            var log := before.events + StageLog(before.statuses, k - 1, fates[k - 1]);
            if before.end.Some? then r == before
            else r.events == log || (interactive && k < |statuses| && r.events == log + [Answered(k - 1, fates[k - 1].yes)])
  {
    hide Stage, StageLog, Try, Upto;
    var before := Upto(statuses, fates, interactive, k - 1);
    UptoIs(statuses, fates, interactive, k);
    StageLogIs(before.(events := []), k - 1, fates[k - 1], interactive);
  }

  /** A non-interactive run starts a stage body only when all earlier stages are completed. */
  lemma {:induction false} RanOnlyInOrder(statuses: seq<Status>, fates: seq<Fate>, k: nat, e: nat)
    requires |fates| == |statuses| && k <= |statuses|
    requires var events := Upto(statuses, fates, false, k).events; e < |events| && events[e].Ran?
    ensures var ran := Upto(statuses, fates, false, k).events[e];
            ran.stage < |ran.before| && forall i :: 0 <= i < ran.stage ==> ran.before[i] == Completed
  {
    hide StageLog, Then;
    if k > 0 {
      var before := Upto(statuses, fates, false, k - 1);
      EventsGrow(statuses, fates, false, k);
      StageLogOrder(before.statuses, k - 1, fates[k - 1]);
      UptoReached(statuses, fates, k - 1);
      hide Upto, StageLog;
      if e < |before.events| {
        RanOnlyInOrder(statuses, fates, k - 1, e);
      }
    }
  }

  predicate AllCompleted(statuses: seq<Status>) {
    forall i :: 0 <= i < |statuses| ==> statuses[i] == Completed
  }

  /** A stage that lets a non-interactive run go on. */
  predicate Passes(status: Status, f: Fate) {
    if status == Completed then !f.dies.AtPrompt?
    else f.start.Done? && f.bodyOk && f.finish.Done? && f.dies in {Survives, AtMark}
  }

  /** A stage that ends a non-interactive run although it is completed: the process dies after the
      stage, or the COMPLETED write took effect, reported an error, and was not replaced. */
  predicate StopsCompleted(status: Status, f: Fate) {
    if status == Completed then f.dies.AtPrompt?
    else f.start.Done? && f.bodyOk &&
         ((f.finish.Done? && f.dies.AtPrompt?)
          || (f.finish.DoneWithError? && (f.dies.AtMark? || (f.mark.Refused? && f.dies in {Survives, AtPrompt}))))
  }

  lemma StageGoesOn(r: Run, i: nat, f: Fate)
    requires i < |r.statuses| && r.end.None?
    ensures Then(r, i, f, false).end.None? <==> Passes(r.statuses[i], f)
    ensures Then(r, i, f, false).end.Some? ==> (Then(r, i, f, false).statuses[i] == Completed <==> StopsCompleted(r.statuses[i], f))
    ensures forall j :: 0 <= j < |r.statuses| && j != i ==> Then(r, i, f, false).statuses[j] == r.statuses[j]
  {
  }

  lemma {:induction false} UptoGoesOn(statuses: seq<Status>, fates: seq<Fate>, k: nat)
    requires |fates| == |statuses| && k <= |statuses|
    ensures Upto(statuses, fates, false, k).end.None? <==> forall j :: 0 <= j < k ==> Passes(statuses[j], fates[j])
    ensures forall j :: k <= j < |statuses| ==> Upto(statuses, fates, false, k).statuses[j] == statuses[j]
  {
    hide Then, Passes;
    if k > 0 {
      UptoGoesOn(statuses, fates, k - 1);
      var before := Upto(statuses, fates, false, k - 1);
      if before.end.None? {
        StageGoesOn(before, k - 1, fates[k - 1]);
      }
    }
  }

  lemma {:induction false} FirstStop(statuses: seq<Status>, fates: seq<Fate>, k: nat) returns (i: nat)
    requires |fates| == |statuses| && k <= |statuses|
    requires exists j :: 0 <= j < k && !Passes(statuses[j], fates[j])
    ensures i < k && !Passes(statuses[i], fates[i]) && forall j :: 0 <= j < i ==> Passes(statuses[j], fates[j])
  {
    if forall j :: 0 <= j < k - 1 ==> Passes(statuses[j], fates[j]) {
      i := k - 1;
    } else {
      i := FirstStop(statuses, fates, k - 1);
    }
  }

  /** The run gets to stage i, which ends it although it is completed, and so are all stages after it. */
  predicate StopsDone(statuses: seq<Status>, fates: seq<Fate>, i: nat)
    requires |fates| == |statuses| && i < |statuses|
  {
    && (forall j :: 0 <= j < i ==> Passes(statuses[j], fates[j]))
    && StopsCompleted(statuses[i], fates[i])
    && (forall j :: i < j < |statuses| ==> statuses[j] == Completed)
  }

  /** Where a non-interactive run ends that does not get through all stages. */
  lemma EndsAt(statuses: seq<Status>, fates: seq<Fate>, i: nat)
    requires |fates| == |statuses| && i < |statuses|
    requires !Passes(statuses[i], fates[i]) && forall j :: 0 <= j < i ==> Passes(statuses[j], fates[j])
    ensures var r := Migration(statuses, fates, false);
            r.end.Some? && r.end != Some(Returned) && (AllCompleted(r.statuses) <==> StopsDone(statuses, fates, i))
  {
    hide Then, Passes, StopsCompleted;
    UptoGoesOn(statuses, fates, i);
    UptoReached(statuses, fates, i);
    UptoGoesOn(statuses, fates, i + 1);
    UptoReturned(statuses, fates, i + 1);
    Over(statuses, fates, false, i + 1);
    var before := Upto(statuses, fates, false, i);
    StageReached(before, i, fates[i]);
    StageGoesOn(before, i, fates[i]);
    UptoIs(statuses, fates, false, i + 1);
    var final := Upto(statuses, fates, false, i + 1).statuses;
    assert final == Then(before, i, fates[i], false).statuses;
    assert forall j :: i < j < |statuses| ==> final[j] == statuses[j];
  }

  /** A non-interactive run, dying or not, that returns has completed all stages; and it returns exactly
      when all stages end completed, except for just those runs that are stopped by a stage that is
      completed, with all later stages completed. */
  lemma ReturnsExactly(statuses: seq<Status>, fates: seq<Fate>)
    requires |fates| == |statuses|
    ensures var r := Migration(statuses, fates, false);
            && (r.end == Some(Returned) <==> forall j :: 0 <= j < |statuses| ==> Passes(statuses[j], fates[j]))
            && (r.end == Some(Returned) ==> AllCompleted(r.statuses))
            && ((r.end == Some(Returned) <==> AllCompleted(r.statuses)) <==>
                !exists i :: 0 <= i < |statuses| && StopsDone(statuses, fates, i))
  {
    forall j | 0 <= j < |statuses| ensures StopsCompleted(statuses[j], fates[j]) ==> !Passes(statuses[j], fates[j]) {}
    hide Passes, StopsCompleted;
    UptoGoesOn(statuses, fates, |statuses|);
    UptoReached(statuses, fates, |statuses|);
    if exists j :: 0 <= j < |statuses| && !Passes(statuses[j], fates[j]) {
      var i := FirstStop(statuses, fates, |statuses|);
      EndsAt(statuses, fates, i);
      forall k | 0 <= k < |statuses| && StopsDone(statuses, fates, k) ensures k == i {
        assert !Passes(statuses[k], fates[k]);
      }
    }
  }

  /** Among runs that survive, from the statuses that non-interactive runs leave, only the last stage
      can make the difference. */
  lemma ReturnsExactlyInShape(statuses: seq<Status>, fates: seq<Fate>)
    requires |fates| == |statuses| && Shape(statuses) && forall i :: 0 <= i < |fates| ==> fates[i].dies.Survives?
    ensures var r := Migration(statuses, fates, false);
            var last := |statuses| - 1;
            (r.end == Some(Returned) <==> AllCompleted(r.statuses)) <==>
            !(&& last >= 0 && statuses[last] != Completed
              && (forall j :: 0 <= j < last ==> Passes(statuses[j], fates[j]))
              && fates[last].start.Done? && fates[last].bodyOk && fates[last].finish.DoneWithError? && fates[last].mark.Refused?)
  {
    ReturnsExactly(statuses, fates);
    hide Migration, Passes;
    var last := |statuses| - 1;
    if i :| 0 <= i < |statuses| && StopsDone(statuses, fates, i) {
      var k :| ShapeAt(statuses, k);
      assert statuses[i] != Completed;
      assert i == last;
    }
    if last >= 0 && statuses[last] != Completed && StopsCompleted(statuses[last], fates[last]) && (forall j :: 0 <= j < last ==> Passes(statuses[j], fates[j])) {
      assert StopsDone(statuses, fates, last);
    }
  }

  lemma {:induction false} UptoReturned(statuses: seq<Status>, fates: seq<Fate>, k: nat)
    requires |fates| == |statuses| && k <= |statuses|
    ensures Upto(statuses, fates, false, k).end != Some(Returned)
  {
    if k > 0 {
      UptoReturned(statuses, fates, k - 1);
    }
  }

  /** With such a write a run may raise although every stage is completed. */
  lemma RaisedThoughCompleted()
    ensures var f := Fate(Done, true, DoneWithError, Refused, true, Survives);
            Migration([Init], [f], false).statuses == [Completed] && Migration([Init], [f], false).end == Some(Raised)
  {
    var f := Fate(Done, true, DoneWithError, Refused, true, Survives);
    var r := Upto([Init], [f], false, 0);
    assert Upto([Init], [f], false, 1) == Then(r, 0, f, false);
  }

  // ---------------------------------------------------------------- interactive runs

  /** In interactive mode, a stage body runs after a failure seen in the same run only if the operator
      answered Y to the prompt after that failure. */
  lemma {:induction false} RanPastFailureOnlyAfterYes(statuses: seq<Status>, fates: seq<Fate>, k: nat, a: nat, b: nat)
    requires |fates| == |statuses| && k <= |statuses|
    requires var events := Upto(statuses, fates, true, k).events; a < b < |events| && events[a].Erred? && events[b].Ran?
    ensures var events := Upto(statuses, fates, true, k).events;
            exists c :: a < c < b && events[c] == Answered(events[a].stage, true)
  {
    hide StageLog, Then;
    if k > 0 {
      var before := Upto(statuses, fates, true, k - 1);
      var events := Upto(statuses, fates, true, k).events;
      EventsGrow(statuses, fates, true, k);
      StageLogOrder(before.statuses, k - 1, fates[k - 1]);
      hide Upto;
      if b < |before.events| {
        RanPastFailureOnlyAfterYes(statuses, fates, k - 1, a, b);
        var c :| a < c < b && before.events[c] == Answered(before.events[a].stage, true);
        assert events[c] == before.events[c];
      } else {
        assert a < |before.events|;
        ErredThenYes(statuses, fates, k - 1, a);
        var c :| a < c < |before.events| && before.events[c] == Answered(before.events[a].stage, true);
        assert events[c] == before.events[c];
      }
    }
  }

  /** A stage that failed lets an interactive run go on only with a Y as its last event. */
  lemma GoesOnAfterYes(r: Run, i: nat, f: Fate)
    requires i < |r.statuses| - 1 && r.events == [] && r.end.None? && Stage(r, i, f, true).end.None?
    ensures Stage(r, i, f, true).events == StageLog(r.statuses, i, f) + [Answered(i, true)]
  {
    StageLogIs(r, i, f, true);
  }

  lemma {:induction false} ErredThenYes(statuses: seq<Status>, fates: seq<Fate>, k: nat, a: nat)
    requires |fates| == |statuses| && k < |statuses| && Upto(statuses, fates, true, k).end.None?
    requires a < |Upto(statuses, fates, true, k).events| && Upto(statuses, fates, true, k).events[a].Erred?
    ensures var events := Upto(statuses, fates, true, k).events;
            exists c :: a < c < |events| && events[c] == Answered(events[a].stage, true)
  {
    if k > 0 {
      var before := Upto(statuses, fates, true, k - 1);
      var events := Upto(statuses, fates, true, k).events;
      assert events == before.events + Stage(before.(events := []), k - 1, fates[k - 1], true).events;
      GoesOnAfterYes(before.(events := []), k - 1, fates[k - 1]);
      StageLogOrder(before.statuses, k - 1, fates[k - 1]);
      hide Upto, StageLog, Stage;
      if a < |before.events| {
        ErredThenYes(statuses, fates, k - 1, a);
        var c :| a < c < |before.events| && before.events[c] == Answered(before.events[a].stage, true);
        assert events[c] == before.events[c];
      } else {
        assert events[|events| - 1] == Answered(k - 1, true);
      }
    }
  }

  /** The operator gets to answer after stage i, and answers N. */
  predicate StoppedByNo(r: Run, i: nat, f: Fate)
    requires i < |r.statuses|
  {
    i != |r.statuses| - 1 && !f.yes && Try(r, i, f).0.end.None? && !f.dies.AtPrompt?
  }

  /** Within a stage an interactive run returns exactly by the answer N, whatever the stage did: an
      error kept, or an exception on its way out of the except block, is dropped. */
  lemma NoReturnsPastFailure(r: Run, i: nat, f: Fate)
    requires i < |r.statuses| && r.end.None?
    ensures Stage(r, i, f, true).end == Some(Returned) <==> StoppedByNo(r, i, f)
    ensures StoppedByNo(r, i, f) ==> Stage(r, i, f, true).statuses == Try(r, i, f).0.statuses
    ensures StoppedByNo(r, i, f) ==>
              (Try(r, i, f).1 == Clean <==> r.statuses[i] == Completed || (f.start.Done? && f.bodyOk && f.finish.Done?))
    ensures StoppedByNo(r, i, f) && Try(r, i, f).1 != Clean ==>
              (Stage(r, i, f, true).statuses[i] == Completed <==>
               f.start.Done? && f.bodyOk && f.finish.DoneWithError? && f.mark.Refused?)
  {
  }

  /** An interactive run gets to stage i and is stopped by the operator after it. */
  ghost predicate StoppedAt(statuses: seq<Status>, fates: seq<Fate>, i: nat)
    requires |fates| == |statuses| && i < |statuses|
  {
    var r := Upto(statuses, fates, true, i);
    r.end.None? && StoppedByNo(r.(events := []), i, fates[i])
  }

  lemma {:induction false} InteractiveUpto(statuses: seq<Status>, fates: seq<Fate>, k: nat)
    requires |fates| == |statuses| && k <= |statuses|
    ensures Upto(statuses, fates, true, k).end == Some(Returned) <==> exists i :: 0 <= i < k && StoppedAt(statuses, fates, i)
  {
    hide Stage, StoppedByNo, Upto;
    if k == 0 {
      UptoNone(statuses, fates);
    } else {
      InteractiveUpto(statuses, fates, k - 1);
      UptoIs(statuses, fates, true, k);
      var before := Upto(statuses, fates, true, k - 1);
      if before.end.None? {
        NoReturnsPastFailure(before.(events := []), k - 1, fates[k - 1]);
      }
      assert StoppedAt(statuses, fates, k - 1) <==> before.end.None? && StoppedByNo(before.(events := []), k - 1, fates[k - 1]);
    }
  }

  lemma UptoNone(statuses: seq<Status>, fates: seq<Fate>)
    requires |fates| == |statuses|
    ensures Upto(statuses, fates, true, 0).end.None?
  {
  }

  /** An interactive run returns exactly if it gets through all stages or the operator stops it. */
  lemma InteractiveReturns(statuses: seq<Status>, fates: seq<Fate>)
    requires |fates| == |statuses|
    ensures Migration(statuses, fates, true).end == Some(Returned) <==>
            Upto(statuses, fates, true, |statuses|).end.None? || exists i :: 0 <= i < |statuses| && StoppedAt(statuses, fates, i)
  {
    InteractiveUpto(statuses, fates, |statuses|);
    hide Upto, StoppedAt;
  }
}
