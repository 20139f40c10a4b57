/**
 The two maintenance request handlers as programs over the stored nodes and locks, each proved
 against a function of what was stored; and, for each, a run of MaintenanceProtocol that has the same
 effect, so that what is proved there about all interleavings is about these programs.
 */
module MaintenanceHandlers {
  import opened MaintenanceProtocol
  import opened NodeRoles
  import opened Wrappers

  /** A handler returns, finds nothing to do, or raises an error to be started again later. */
  datatype Outcome = Finished | Ignored | Retry

  predicate AllTrue(xs: seq<bool>) {
    forall i :: 0 <= i < |xs| ==> xs[i]
  }

  predicate AllAccept(answers: seq<Option<bool>>) {
    forall i :: 0 <= i < |answers| ==> answers[i] == Some(true)
  }

  /** Held already, or every role (of any node) is below its limit. */
  ghost predicate SlotFor(cfg: Config, s: State, n: string) {
    s.InMaintenance(n) || forall role: Role :: |s.Holders(role)| < Limit(cfg, role)
  }

  /** What the create/update/resume handler answers and leaves stored.  `answers` and `works` are what
      the services reply, None and false standing for an exception. */
  ghost function AfterChange(cfg: Config, s: State, n: string, deployment: bool, answers: seq<Option<bool>>, works: seq<bool>): (Outcome, map<string, Lock>) {
    if s.RolesOf(n) == {} then (Ignored, s.locks) else
    var lock := PresentLock(cfg, s, n);
    if !SlotFor(cfg, s, n) then (Retry, s.locks[n := lock]) else
    var held := lock.(inner := InProgress);
    if deployment && lock.state == Active && !(AllAccept(answers) && AllTrue(works)) then (Retry, s.locks[n := held])
    else (Finished, s.locks[n := held.(state := Inactive)])
  }

  /** What the delete handler answers and leaves stored.  It removes the lock of a node without roles
      and fails on a node without a lock. */
  ghost function AfterDelete(s: State, n: string, deployment: bool, works: seq<bool>): (Outcome, map<string, Lock>) {
    if n in s.nodes && s.nodes[n] == {} then (Ignored, s.locks - {n})
    else if n !in s.locks || (n in s.nodes && deployment && s.InMaintenance(n) && !AllTrue(works)) then (Retry, s.locks)
    else (Finished, s.locks[n := s.locks[n].(inner := Done, state := Active)])
  }

  /** What the handler of a node deletion request answers and leaves stored: a write to a lock that is
      not there fails. */
  ghost function AfterDeletion(s: State, n: string, deployment: bool, works: seq<bool>): (Outcome, map<string, Lock>) {
    if n !in s.locks || (deployment && n in s.nodes && !AllTrue(works)) then (Retry, s.locks)
    else (Finished, s.locks[n := s.locks[n].(state := Inactive)])
  }

  /** xs lists the members of ms, each once. */
  ghost predicate Lists(xs: seq<string>, ms: set<string>) {
    |xs| == |ms| && forall m :: m in xs <==> m in ms
  }

  lemma ListsGrow(xs: seq<string>, ms: set<string>, m: string)
    requires Lists(xs, ms) && m !in ms
    ensures Lists(xs + [m], ms + {m})
  {
  }

  /** The lists built so far: the holders among the locks already visited. */
  ghost predicate Tally(held: map<Role, seq<string>>, s: State, todo: set<string>) {
    forall role: Role :: role in held && Lists(held[role], s.Holders(role) - todo)
  }

  function AddTo(held: map<Role, seq<string>>, roles: set<Role>, m: string): map<Role, seq<string>> {
    map role | role in held :: if role in roles then held[role] + [m] else held[role]
  }

  lemma TallyStepRole(xs: seq<string>, s: State, todo: set<string>, m: string, role: Role)
    requires Lists(xs, s.Holders(role) - todo) && m in todo
    ensures Lists(if m in s.Holders(role) then xs + [m] else xs, s.Holders(role) - (todo - {m}))
  {
    if m in s.Holders(role) {
      ListsGrow(xs, s.Holders(role) - todo, m);
      assert s.Holders(role) - (todo - {m}) == (s.Holders(role) - todo) + {m};
    } else {
      assert s.Holders(role) - (todo - {m}) == s.Holders(role) - todo;
    }
  }

  lemma TallyStep(held: map<Role, seq<string>>, s: State, todo: set<string>, m: string)
    requires Tally(held, s, todo) && m in todo && m in s.locks
    ensures Tally(if s.InMaintenance(m) then AddTo(held, s.RolesOf(m), m) else held, s, todo - {m})
  {
    hide Lists;
    forall role: Role ensures Lists(if m in s.Holders(role) then held[role] + [m] else held[role], s.Holders(role) - (todo - {m})) {
      TallyStepRole(held[role], s, todo, m, role);
    }
  }

  lemma TallyDone(held: map<Role, seq<string>>, s: State)
    requires Tally(held, s, {})
    ensures forall role: Role :: role in held && Lists(held[role], s.Holders(role))
  {
    assert forall role: Role :: s.Holders(role) - {} == s.Holders(role);
  }

  /** Presenting the lock object takes no slot and frees none. */
  lemma PresentedSlot(cfg: Config, s: State, n: string, t: State)
    requires t == s.(locks := s.locks[n := PresentLock(cfg, s, n)])
    ensures SlotFor(cfg, t, n) <==> SlotFor(cfg, s, n)
  {
    assert forall role: Role :: t.Holders(role) == s.Holders(role);
  }

  class Controller {
    const cfg: Config
    var nodes: map<string, set<Role>>
    var locks: map<string, Lock>

    constructor (cfg: Config, nodes: map<string, set<Role>>, locks: map<string, Lock>)
      ensures this.cfg == cfg && this.nodes == nodes && this.locks == locks
    {
      this.cfg, this.nodes, this.locks := cfg, nodes, locks;
    }

    ghost function View(): State
      reads this
    {
      State(nodes, locks, map[], None)
    }

    method SetInnerState(n: string, inner: InnerState)
      requires n in locks
      modifies this`locks
      ensures locks == old(locks)[n := old(locks[n]).(inner := inner)]
    {
      locks := locks[n := locks[n].(inner := inner)];
    }

    method SetState(n: string, state: LockState)
      requires n in locks
      modifies this`locks
      ensures locks == old(locks)[n := old(locks[n]).(state := state)]
    {
      locks := locks[n := locks[n].(state := state)];
    }

    /** Create the lock object, or make one left by another release fit this controller. */
    method Present(n: string)
      modifies this`locks
      ensures locks == old(locks)[n := PresentLock(cfg, old(View()), n)]
    {
      if n !in locks {
        locks := locks[n := Lock(Active, Unset, true)];
      } else if cfg.checkRelease && !locks[n].current {
        locks := locks[n := locks[n].(state := Active, current := true)];
      } else {
        assert locks == locks[n := locks[n]];
      }
    }

    /** Lists, role by role, the nodes in maintenance, each once. */
    method MaintenanceLocks() returns (held: map<Role, seq<string>>)
      ensures forall role: Role :: role in held && Lists(held[role], View().Holders(role))
    {
      held := map[Compute := [], Gateway := [], Controller := []];
      var todo := locks.Keys;
      assert Tally(held, View(), todo) by {
        forall role: Role ensures role in held && held[role] == [] && View().Holders(role) - todo == {} {
          match role case Compute => case Gateway => case Controller =>
        }
      }
      hide Tally;
      while todo != {}
        invariant todo <= locks.Keys && Tally(held, View(), todo)
        decreases todo
      {
        var m :| m in todo;
        TallyStep(held, View(), todo, m);
        if locks[m].inner == InProgress {
          held := AddTo(held, if m in nodes then nodes[m] else {}, m);
        }
        todo := todo - {m};
      }
      TallyDone(held, View());
    }

    /** True when every role, whichever the asking node has, is below its limit. */
    method CanHandleNmr() returns (ok: bool)
      ensures ok <==> forall role: Role :: |View().Holders(role)| < Limit(cfg, role)
    {
      var active := MaintenanceLocks();
      var order := [Compute, Gateway, Controller];
      for i := 0 to |order|
        invariant forall j :: 0 <= j < i ==> |active[order[j]]| < Limit(cfg, order[j])
      {
        if |active[order[i]]| >= Limit(cfg, order[i]) {
          return false;
        }
      }
      assert order[0] == Compute && order[1] == Gateway && order[2] == Controller;
      return true;
    }

    /** Under the mutex: check the limits unless the lock is held already, then mark the lock. */
    method AcquireInternalLock(n: string) returns (ok: bool)
      requires n in locks
      modifies this`locks
      ensures ok <==> SlotFor(cfg, old(View()), n)
      ensures locks == if ok then old(locks)[n := old(locks[n]).(inner := InProgress)] else old(locks)
    {
      if locks[n].inner != InProgress {
        ok := CanHandleNmr();
        if !ok {
          return;
        }
      }
      SetInnerState(n, InProgress);
      ok := true;
    }

    /** Every service is asked before the answers are looked at. */
    method AskServices(answers: seq<Option<bool>>) returns (ok: bool)
      ensures ok <==> AllAccept(answers)
    {
      var canHandle: seq<bool> := [];
      for i := 0 to |answers|
        invariant |canHandle| == i && forall j :: 0 <= j < i ==> answers[j] == Some(canHandle[j])
      {
        if answers[i].None? {
          return false;
        }
        canHandle := canHandle + [answers[i].value];
      }
      return AllTrue(canHandle);
    }

    /** Calls the services one by one; the first exception ends it. */
    method CallServices(works: seq<bool>) returns (ok: bool)
      ensures ok <==> AllTrue(works)
    {
      for i := 0 to |works|
        invariant forall j :: 0 <= j < i ==> works[j]
      {
        if !works[i] {
          return false;
        }
      }
      return true;
    }

    /** `answers` and `works` have one entry for each service. */
    method ChangeHandler(n: string, deployment: bool, answers: seq<Option<bool>>, works: seq<bool>) returns (outcome: Outcome)
      requires |answers| == |works| == |cfg.services|
      modifies this`locks
      ensures (outcome, locks) == AfterChange(cfg, old(View()), n, deployment, answers, works)
    {
      if n !in nodes || nodes[n] == {} {
        return Ignored;
      }
      hide SlotFor, PresentLock, AllAccept, AllTrue;
      ghost var lock := PresentLock(cfg, View(), n);
      Present(n);
      PresentedSlot(cfg, old(View()), n, View());
      var acquired := AcquireInternalLock(n);
      if !acquired {
        return Retry;
      }
      ghost var held := lock.(inner := InProgress);
      assert locks == old(locks)[n := held];
      if deployment && locks[n].state == Active {
        var accepted := AskServices(answers);
        if !accepted {
          return Retry;
        }
        SetInnerState(n, InProgress);
        assert locks == old(locks)[n := held];
        var processed := CallServices(works);
        if !processed {
          return Retry;
        }
      }
      SetState(n, Inactive);
      assert locks == old(locks)[n := held.(state := Inactive)];
      return Finished;
    }

    method DeleteHandler(n: string, deployment: bool, works: seq<bool>) returns (outcome: Outcome)
      requires |works| == |cfg.services|
      modifies this`locks
      ensures (outcome, locks) == AfterDelete(old(View()), n, deployment, works)
    {
      if n in nodes && nodes[n] == {} {
        locks := locks - {n};
        return Ignored;
      }
      if n !in locks {
        return Retry;
      }
      if n in nodes && deployment && locks[n].inner == InProgress {
        var undone := CallServices(works);
        if !undone {
          return Retry;
        }
      }
      SetInnerState(n, Done);
      SetState(n, Active);
      assert locks == old(locks)[n := locks[n]];
      return Finished;
    }

    method DeletionRequestHandler(n: string, deployment: bool, works: seq<bool>) returns (outcome: Outcome)
      requires |works| == |cfg.services|
      modifies this`locks
      ensures (outcome, locks) == AfterDeletion(old(View()), n, deployment, works)
    {
      if deployment && n in nodes {
        var processed := CallServices(works);
        if !processed {
          return Retry;
        }
      }
      if n !in locks {
        return Retry;
      }
      SetState(n, Inactive);
      return Finished;
    }
  }

  // ---------------------------------------------------------------- the handlers are runs

  /** What the lookup and the services answer in one execution of a handler. */
  datatype Inputs = Inputs(deployment: bool, answers: seq<Option<bool>>, works: seq<bool>)

  predicate ForServices(cfg: Config, io: Inputs) {
    |io.answers| == |io.works| == |cfg.services|
  }

  /** The k-th call of an execution got the answer that the inputs hold for it: first the lookup, then
      the services one by one. */
  predicate Answered(cfg: Config, io: Inputs, c: Call, k: nat)
    requires ForServices(cfg, io)
  {
    var m := |cfg.services|;
    match c
    case NoNode => false
    case Deployment(found) => k == 0 && found == io.deployment
    case Asked(svc, yes) => 1 <= k <= m && svc == cfg.services[k - 1] && io.answers[k - 1] == Some(yes)
    case Processed(svc) => m < k <= 2 * m && svc == cfg.services[k - m - 1] && io.works[k - m - 1]
    case Undone(svc) => 1 <= k <= m && svc == cfg.services[m - k] && io.works[m - k]
  }

  predicate Heard(cfg: Config, io: Inputs, calls: seq<Call>)
    requires ForServices(cfg, io)
  {
    forall k :: 0 <= k < |calls| ==> Answered(cfg, io, calls[k], k)
  }

  /** A step by which the node's request handler, once started, goes on. */
  predicate Own(a: Action, n: string) {
    && a.n == n && !a.StartChange? && !a.StartDelete?
    && !a.Abort? && !a.NodeGone? && !a.NodeIs? && !a.DropLock? && !a.EnsureLock? && !a.Retire?
  }

  /** t is reached from s by further steps of the started request handler of node n alone, in which the
      lookup and the services were called `len` times and answered as the inputs say. */
  ghost predicate Reaches(cfg: Config, io: Inputs, s: State, n: string, t: State, len: nat)
    requires ForServices(cfg, io)
  {
    exists acts: seq<Action> ::
      && Exec(cfg, s, acts) == Some(t)
      && (forall a: Action :: a in acts ==> Own(a, n))
      && |Calls(acts, n)| == len && Heard(cfg, io, Calls(acts, n))
  }

  lemma ReachesSelf(cfg: Config, io: Inputs, s: State, n: string)
    requires ForServices(cfg, io)
    ensures Reaches(cfg, io, s, n, s, 0)
  {
    assert Exec(cfg, s, []) == Some(s) && Calls([], n) == [];
  }

  /** How many calls are made in this execution when `len` were made before the step. */
  function More(len: nat, a: Action): nat {
    match a
    case Lookup(_, _) => len + 1
    case Ask(_, _, _) => len + 1
    case Process(_, _) => len + 1
    case Undo(_, _) => len + 1
    case _ => len
  }

  /** The step is what the inputs say. */
  predicate Follows(cfg: Config, io: Inputs, len: nat, a: Action)
    requires ForServices(cfg, io)
  {
    match a
    case Lookup(_, found) => Answered(cfg, io, Deployment(found), len)
    case Ask(_, svc, yes) => Answered(cfg, io, Asked(svc, yes), len)
    case Process(_, svc) => Answered(cfg, io, Processed(svc), len)
    case Undo(_, svc) => Answered(cfg, io, Undone(svc), len)
    case _ => true
  }

  lemma RecordHeard(cfg: Config, io: Inputs, calls: seq<Call>, a: Action)
    requires ForServices(cfg, io) && Heard(cfg, io, calls) && Follows(cfg, io, |calls|, a)
    requires !a.StartChange? && !a.StartDelete?
    ensures Heard(cfg, io, Record(calls, a)) && |Record(calls, a)| == More(|calls|, a)
  {
    hide Answered;
  }

  lemma ReachesNext(cfg: Config, io: Inputs, s: State, n: string, t: State, len: nat, a: Action)
    requires ForServices(cfg, io) && Reaches(cfg, io, s, n, t, len)
    requires Own(a, n) && Enabled(cfg, t, a) && Follows(cfg, io, len, a)
    ensures Reaches(cfg, io, s, n, Next(cfg, t, a), More(len, a))
  {
    hide Enabled, Next, Exec, Own, Follows, Heard, Answered, More, Record;
    var acts: seq<Action> :|
      && Exec(cfg, s, acts) == Some(t) && (forall b: Action :: b in acts ==> Own(b, n))
      && |Calls(acts, n)| == len && Heard(cfg, io, Calls(acts, n));
    Extend(cfg, s, acts, t, a);
    assert !a.StartChange? && !a.StartDelete? by { OwnGoesOn(a, n); }
    RecordHeard(cfg, io, Calls(acts, n), a);
    CallsSnoc(acts, a, n);
  }

  lemma OwnGoesOn(a: Action, n: string)
    requires Own(a, n)
    ensures !a.StartChange? && !a.StartDelete?
  {
  }

  lemma CallsSnoc(acts: seq<Action>, a: Action, n: string)
    requires Own(a, n)
    ensures Calls(acts + [a], n) == Record(Calls(acts, n), a)
  {
    hide Record;
    assert (acts + [a])[..|acts|] == acts;
  }

  /** One lock is visited, and counted if its node is in maintenance. */
  lemma ReachesScannedOne(cfg: Config, io: Inputs, s: State, n: string, t: State, m: string) returns (u: State)
    requires ForServices(cfg, io) && Reaches(cfg, io, s, n, t, 0) && t.At(n).Scanning? && t.At(n).probing.None?
    requires m in t.At(n).pending && m in t.locks
    requires forall role: Role :: role in t.At(n).counted
    ensures Reaches(cfg, io, s, n, u, 0)
    ensures exists counted ::
              && u == t.Goto(n, Scanning(t.At(n).pending - {m}, None, counted))
              && forall role: Role :: role in counted && counted[role] == t.At(n).counted[role] + if m in t.Holders(role) then {m} else {}
  {
    hide Reaches;
    var p := t.At(n);
    ReachesNext(cfg, io, s, n, t, 0, ScanLock(n, m));
    u := Next(cfg, t, ScanLock(n, m));
    if t.InMaintenance(m) {
      assert u.RolesOf(m) == t.RolesOf(m);
      ReachesNext(cfg, io, s, n, u, 0, ScanNode(n));
      u := Next(cfg, u, ScanNode(n));
      var counted := Count(p.counted, m, t.RolesOf(m));
      assert u == t.Goto(n, Scanning(p.pending - {m}, None, counted));
    } else {
      assert u == t.Goto(n, Scanning(p.pending - {m}, None, p.counted));
    }
  }

  /** The scan of the locks visits all of them and counts exactly the holders. */
  lemma {:induction false} ReachesScanned(cfg: Config, io: Inputs, s: State, n: string, t: State)
    requires ForServices(cfg, io) && Reaches(cfg, io, s, n, t, 0) && t.At(n).Scanning? && t.At(n).probing.None?
    requires t.At(n).pending <= t.locks.Keys
    requires forall role: Role :: role in t.At(n).counted && t.At(n).counted[role] == t.Holders(role) - t.At(n).pending
    ensures exists counted ::
              && Reaches(cfg, io, s, n, t.Goto(n, Scanning({}, None, counted)), 0)
              && forall role: Role :: role in counted && counted[role] == t.Holders(role)
    decreases t.At(n).pending
  {
    hide Reaches;
    var p := t.At(n);
    if p.pending == {} {
      assert t.Goto(n, Scanning({}, None, p.counted)) == t;
      assert forall role: Role :: p.counted[role] == t.Holders(role);
    } else {
      var m :| m in p.pending;
      var u := ReachesScannedOne(cfg, io, s, n, t, m);
      hide Enabled, Next;
      assert forall role: Role :: u.Holders(role) == t.Holders(role);
      assert forall role: Role :: u.At(n).counted[role] == u.Holders(role) - u.At(n).pending;
      ReachesScanned(cfg, io, s, n, u);
      assert forall q: Position :: u.Goto(n, q) == t.Goto(n, q);
    }
  }

  /** One step that only moves the handler. */
  lemma Goes(cfg: Config, io: Inputs, s: State, n: string, t: State, p: Position, len: nat, a: Action, q: Position)
    requires ForServices(cfg, io) && Reaches(cfg, io, s, n, t.Goto(n, p), len)
    requires Own(a, n) && Enabled(cfg, t.Goto(n, p), a) && Follows(cfg, io, len, a)
    requires Next(cfg, t.Goto(n, p), a) == t.Goto(n, p).Goto(n, q)
    ensures Reaches(cfg, io, s, n, t.Goto(n, q), More(len, a))
  {
    hide Reaches, Next, Enabled, Follows, More;
    ReachesNext(cfg, io, s, n, t.Goto(n, p), len, a);
    assert t.Goto(n, p).Goto(n, q) == t.Goto(n, q);
  }

  lemma ScanEnds(cfg: Config, t: State, n: string, counted: map<Role, set<string>>)
    requires forall role: Role :: role in counted && |counted[role]| < Limit(cfg, role)
    ensures var u := t.Goto(n, Scanning({}, None, counted));
            Enabled(cfg, u, ScanDone(n)) && Next(cfg, u, ScanDone(n)) == u.Goto(n, Marking(false))
  {
  }

  /** Inside the mutex: the scan of a fresh acquisition finds room. */
  lemma ReachesRoom(cfg: Config, io: Inputs, s: State, n: string, t: State)
    requires ForServices(cfg, io) && Reaches(cfg, io, s, n, t, 0) && t.At(n) == Scanning(t.locks.Keys, None, EmptyCount())
    requires forall role: Role :: |t.Holders(role)| < Limit(cfg, role)
    ensures Reaches(cfg, io, s, n, t.Goto(n, Marking(false)), 0)
  {
    hide Reaches, Enabled, Next;
    forall role: Role ensures role in EmptyCount() && EmptyCount()[role] == t.Holders(role) - t.locks.Keys {
      EveryRoleCounted(role);
    }
    ReachesScanned(cfg, io, s, n, t);
    var counted :| Reaches(cfg, io, s, n, t.Goto(n, Scanning({}, None, counted)), 0) && forall role: Role :: role in counted && counted[role] == t.Holders(role);
    ScanEnds(cfg, t, n, counted);
    Goes(cfg, io, s, n, t, Scanning({}, None, counted), 0, ScanDone(n), Marking(false));
  }

  /** A node that is in maintenance, or for which there is room, acquires its lock. */
  lemma ReachesHeld(cfg: Config, io: Inputs, s: State, n: string, t: State)
    requires ForServices(cfg, io) && Reaches(cfg, io, s, n, t, 0) && t.At(n).Presented? && t.mutex.None?
    requires n in t.locks && SlotFor(cfg, t, n)
    ensures Reaches(cfg, io, s, n, SetInner(t, n, InProgress).Goto(n, Held), 0)
  {
    hide Reaches;
    ReachesNext(cfg, io, s, n, t, 0, Enter(n));
    var u := Next(cfg, t, Enter(n));
    var inside := t.InMaintenance(n);
    if !inside {
      assert forall role: Role :: u.Holders(role) == t.Holders(role);
      ReachesRoom(cfg, io, s, n, u);
    } else {
      assert u.Goto(n, Marking(true)) == u;
    }
    var v := u.Goto(n, Marking(inside));
    ReachesNext(cfg, io, s, n, v, 0, Mark(n));
    assert Next(cfg, v, Mark(n)) == SetInner(t, n, InProgress).Goto(n, Held);
  }

  /** The first k services gave an answer. */
  lemma {:induction false} ReachesAsked(cfg: Config, io: Inputs, s: State, n: string, t: State, k: nat)
    requires ForServices(cfg, io) && Reaches(cfg, io, s, n, t.Goto(n, Asking(0, true)), 1)
    requires k <= |cfg.services| && forall i :: 0 <= i < k ==> io.answers[i].Some?
    ensures Reaches(cfg, io, s, n, t.Goto(n, Asking(k, forall i :: 0 <= i < k ==> io.answers[i] == Some(true))), k + 1)
  {
    hide Reaches;
    if k > 0 {
      ReachesAsked(cfg, io, s, n, t, k - 1);
      var all := forall i :: 0 <= i < k - 1 ==> io.answers[i] == Some(true);
      var yes := io.answers[k - 1].value;
      Goes(cfg, io, s, n, t, Asking(k - 1, all), k, Ask(n, cfg.services[k - 1], yes), Asking(k, all && yes));
      assert all && yes <==> forall i :: 0 <= i < k ==> io.answers[i] == Some(true);
    }
  }

  /** The first k services finished. */
  lemma {:induction false} ReachesProcessed(cfg: Config, io: Inputs, s: State, n: string, t: State, k: nat)
    requires ForServices(cfg, io) && Reaches(cfg, io, s, n, t.Goto(n, Processing(0)), |cfg.services| + 1)
    requires k <= |cfg.services| && forall i :: 0 <= i < k ==> io.works[i]
    ensures Reaches(cfg, io, s, n, t.Goto(n, Processing(k)), |cfg.services| + 1 + k)
  {
    hide Reaches;
    if k > 0 {
      ReachesProcessed(cfg, io, s, n, t, k - 1);
      Goes(cfg, io, s, n, t, Processing(k - 1), |cfg.services| + k, Process(n, cfg.services[k - 1]), Processing(k));
    }
  }

  /** The last k services finished, from the last on. */
  lemma {:induction false} ReachesUndone(cfg: Config, io: Inputs, s: State, n: string, t: State, k: nat)
    requires ForServices(cfg, io) && Reaches(cfg, io, s, n, t.Goto(n, Undoing(0)), 1)
    requires k <= |cfg.services| && forall i :: |cfg.services| - k <= i < |cfg.services| ==> io.works[i]
    ensures Reaches(cfg, io, s, n, t.Goto(n, Undoing(k)), k + 1)
  {
    hide Reaches;
    if k > 0 {
      ReachesUndone(cfg, io, s, n, t, k - 1);
      Goes(cfg, io, s, n, t, Undoing(k - 1), k, Undo(n, cfg.services[|cfg.services| - k]), Undoing(k));
    }
  }

  /** With these inputs the handler cannot go on from here: an error is raised. */
  ghost predicate Stuck(cfg: Config, io: Inputs, t: State, n: string)
    requires ForServices(cfg, io)
  {
    var m := |cfg.services|;
    match t.At(n)
    case Presented => !t.InMaintenance(n) && exists role: Role :: |t.Holders(role)| >= Limit(cfg, role)
    case Asking(k, all) => if k < m then io.answers[k].None? else !all
    case Processing(k) => k < m && !io.works[k]
    case Checking => n !in t.locks
    case Undoing(k) => k < m && !io.works[m - 1 - k]
    case Clearing(_) => n !in t.locks
    case _ => false
  }

  /** A run of the handler with these inputs comes to a point where it is stuck, and is aborted there. */
  ghost predicate Aborted(cfg: Config, io: Inputs, s: State, n: string, end: State)
    requires ForServices(cfg, io)
  {
    exists t, len :: Reaches(cfg, io, s, n, t, len) && Stuck(cfg, io, t, n) && end == Next(cfg, t, Abort(n))
  }

  /** A run of the handler with these inputs ends with this step. */
  ghost predicate Completed(cfg: Config, io: Inputs, s: State, n: string, last: Action, end: State)
    requires ForServices(cfg, io)
  {
    exists t, len :: Reaches(cfg, io, s, n, t, len) && Enabled(cfg, t, last) && end == Next(cfg, t, last)
  }

  /** The number of entries before the first one that is not so. */
  lemma Answering(answers: seq<Option<bool>>) returns (k: nat)
    ensures k <= |answers| && forall i :: 0 <= i < k ==> answers[i].Some?
    ensures k < |answers| ==> answers[k].None?
  {
    k := 0;
    while k < |answers| && answers[k].Some?
      invariant k <= |answers| && forall i :: 0 <= i < k ==> answers[i].Some?
    {
      k := k + 1;
    }
  }

  lemma Working(works: seq<bool>) returns (k: nat)
    ensures k <= |works| && forall i :: 0 <= i < k ==> works[i]
    ensures k < |works| ==> !works[k]
  {
    k := 0;
    while k < |works| && works[k]
      invariant k <= |works| && forall i :: 0 <= i < k ==> works[i]
    {
      k := k + 1;
    }
  }

  lemma WorkingFromLast(works: seq<bool>) returns (k: nat)
    ensures k <= |works| && forall i :: |works| - k <= i < |works| ==> works[i]
    ensures k < |works| ==> !works[|works| - 1 - k]
  {
    k := 0;
    while k < |works| && works[|works| - 1 - k]
      invariant k <= |works| && forall i :: |works| - k <= i < |works| ==> works[i]
    {
      k := k + 1;
    }
  }

  lemma AbortsAt(cfg: Config, io: Inputs, s: State, n: string, t: State, p: Position, len: nat)
    requires ForServices(cfg, io) && Reaches(cfg, io, s, n, t.Goto(n, p), len) && Stuck(cfg, io, t.Goto(n, p), n)
    ensures Aborted(cfg, io, s, n, t.Goto(n, Idle))
  {
    hide Reaches, Stuck;
    assert !InMutex(p) by { StuckOutside(cfg, io, t.Goto(n, p), n); }
    assert Next(cfg, t.Goto(n, p), Abort(n)) == t.Goto(n, Idle);
  }

  lemma StuckOutside(cfg: Config, io: Inputs, t: State, n: string)
    requires ForServices(cfg, io) && Stuck(cfg, io, t, n)
    ensures !InMutex(t.At(n))
  {
  }

  /** When all services have agreed. */
  lemma AgreedGoesOn(cfg: Config, io: Inputs, s: State, n: string, t: State)
    requires ForServices(cfg, io) && Reaches(cfg, io, s, n, t.Goto(n, Asking(|cfg.services|, true)), |cfg.services| + 1)
    requires t.InMaintenance(n)
    ensures Reaches(cfg, io, s, n, t.Goto(n, Processing(0)), |cfg.services| + 1)
  {
    hide Reaches;
    var m := |cfg.services|;
    Goes(cfg, io, s, n, t, Asking(m, true), m + 1, AskDone(n), Reactivating);
    assert SetInner(t.Goto(n, Reactivating), n, InProgress) == t.Goto(n, Reactivating);
    Goes(cfg, io, s, n, t, Reactivating, m + 1, Reactivate(n), Processing(0));
  }

  lemma AsksFirst(cfg: Config, io: Inputs, s: State, n: string, t: State)
    requires ForServices(cfg, io) && Reaches(cfg, io, s, n, t.Goto(n, Deployed), 1)
    requires n in t.locks && t.locks[n].state == Active
    ensures Reaches(cfg, io, s, n, t.Goto(n, Asking(0, true)), 1)
  {
    hide Reaches;
    Goes(cfg, io, s, n, t, Deployed, 1, CheckActive(n), Asking(0, true));
  }

  /** The answers decide whether the handler goes on to processing. */
  lemma AnswersDecide(cfg: Config, io: Inputs, s: State, n: string, t: State)
    requires ForServices(cfg, io) && Reaches(cfg, io, s, n, t.Goto(n, Deployed), 1)
    requires n in t.locks && t.locks[n].state == Active && t.InMaintenance(n)
    ensures if AllAccept(io.answers) then Reaches(cfg, io, s, n, t.Goto(n, Processing(0)), |cfg.services| + 1)
            else Aborted(cfg, io, s, n, t.Goto(n, Idle))
  {
    hide Reaches, Aborted, Enabled, Next;
    var m := |cfg.services|;
    AsksFirst(cfg, io, s, n, t);
    var k := Answering(io.answers);
    ReachesAsked(cfg, io, s, n, t, k);
    var all := forall i :: 0 <= i < k ==> io.answers[i] == Some(true);
    if k < m || !all {
      AbortsAt(cfg, io, s, n, t, Asking(k, all), k + 1);
    } else {
      AgreedGoesOn(cfg, io, s, n, t);
    }
  }

  /** And the services' process_nmr whether it goes on to the release. */
  lemma WorksDecide(cfg: Config, io: Inputs, s: State, n: string, t: State)
    requires ForServices(cfg, io) && Reaches(cfg, io, s, n, t.Goto(n, Processing(0)), |cfg.services| + 1)
    ensures if AllTrue(io.works) then Reaches(cfg, io, s, n, t.Goto(n, Releasing(AllProcessed)), 2 * |cfg.services| + 1)
            else Aborted(cfg, io, s, n, t.Goto(n, Idle))
  {
    hide Reaches, Aborted;
    var m := |cfg.services|;
    var j := Working(io.works);
    ReachesProcessed(cfg, io, s, n, t, j);
    if j < m {
      AbortsAt(cfg, io, s, n, t, Processing(j), m + 1 + j);
    } else {
      Goes(cfg, io, s, n, t, Processing(m), 2 * m + 1, ProcessDone(n), Releasing(AllProcessed));
    }
  }

  /** From an acquired lock to the end of the handler. */
  lemma ReachesEnd(cfg: Config, io: Inputs, s: State, n: string, t: State)
    requires ForServices(cfg, io) && Reaches(cfg, io, s, n, t.Goto(n, Held), 0) && t.InMaintenance(n)
    ensures if io.deployment && t.locks[n].state == Active && !(AllAccept(io.answers) && AllTrue(io.works))
            then Aborted(cfg, io, s, n, t.Goto(n, Idle))
            else Completed(cfg, io, s, n, Release(n), SetState(t, n, Inactive).Goto(n, Idle))
  {
    hide Reaches, Aborted;
    if !io.deployment {
      Goes(cfg, io, s, n, t, Held, 0, Lookup(n, false), Releasing(NoDeployment));
      Releases(cfg, io, s, n, t, NoDeployment, 1);
    } else {
      Goes(cfg, io, s, n, t, Held, 0, Lookup(n, true), Deployed);
      if t.locks[n].state == Active {
        AnswersDecide(cfg, io, s, n, t);
        if AllAccept(io.answers) {
          WorksDecide(cfg, io, s, n, t);
          if AllTrue(io.works) {
            Releases(cfg, io, s, n, t, AllProcessed, 2 * |cfg.services| + 1);
          }
        }
      } else {
        Goes(cfg, io, s, n, t, Deployed, 1, CheckActive(n), Releasing(NotActive));
        Releases(cfg, io, s, n, t, NotActive, 1);
      }
    }
  }

  lemma Releases(cfg: Config, io: Inputs, s: State, n: string, t: State, why: ReleaseReason, len: nat)
    requires ForServices(cfg, io) && Reaches(cfg, io, s, n, t.Goto(n, Releasing(why)), len) && n in t.locks
    ensures Completed(cfg, io, s, n, Release(n), SetState(t, n, Inactive).Goto(n, Idle))
  {
    hide Reaches;
    var u := t.Goto(n, Releasing(why));
    assert Enabled(cfg, u, Release(n)) && Next(cfg, u, Release(n)) == SetState(t, n, Inactive).Goto(n, Idle);
  }

  lemma ReachesPresented(cfg: Config, io: Inputs, s: State, n: string)
    requires ForServices(cfg, io)
    ensures Reaches(cfg, io, s.Goto(n, Seen), n, s.(locks := s.locks[n := PresentLock(cfg, s, n)]).Goto(n, Presented), 0)
  {
    hide Reaches;
    var t := s.Goto(n, Seen);
    ReachesSelf(cfg, io, t, n);
    ReachesNext(cfg, io, t, n, t, 0, MaintenanceProtocol.Present(n));
    assert Next(cfg, t, MaintenanceProtocol.Present(n)) == s.(locks := s.locks[n := PresentLock(cfg, s, n)]).Goto(n, Presented);
  }

  /** From a presented lock for which there is room to the end of the handler. */
  lemma AcquiredEnds(cfg: Config, io: Inputs, s: State, n: string, lock: Lock)
    requires ForServices(cfg, io) && s.mutex.None? && SlotFor(cfg, s, n) && lock == PresentLock(cfg, s, n)
    requires Reaches(cfg, io, s.Goto(n, Seen), n, s.(locks := s.locks[n := lock]).Goto(n, Presented), 0)
    ensures var held := lock.(inner := InProgress);
            if io.deployment && lock.state == Active && !(AllAccept(io.answers) && AllTrue(io.works))
            then Aborted(cfg, io, s.Goto(n, Seen), n, s.(locks := s.locks[n := held]).Goto(n, Idle))
            else Completed(cfg, io, s.Goto(n, Seen), n, Release(n), s.(locks := s.locks[n := held.(state := Inactive)]).Goto(n, Idle))
  {
    hide Reaches, Aborted, Completed, AllAccept, AllTrue;
    var t := s.(locks := s.locks[n := lock]);
    assert forall role: Role :: t.Goto(n, Presented).Holders(role) == s.Holders(role);
    var seen := s.Goto(n, Seen);
    ReachesHeld(cfg, io, seen, n, t.Goto(n, Presented));
    hide SlotFor, PresentLock;
    var held := lock.(inner := InProgress);
    var u := s.(locks := s.locks[n := held]);
    assert SetInner(t.Goto(n, Presented), n, InProgress).Goto(n, Held) == u.Goto(n, Held);
    ReachesEnd(cfg, io, seen, n, u);
    assert SetState(u, n, Inactive) == s.(locks := s.locks[n := held.(state := Inactive)]);
  }

  /** No lock but that of the node is different. */
  ghost predicate OthersKept(before: map<string, Lock>, after: map<string, Lock>, n: string) {
    forall m :: m != n ==> (m in after <==> m in before) && (m in after ==> after[m] == before[m])
  }

  /** The stored locks after a handler: a finished change leaves the node held and released, a finished
      deletion of its request leaves it free and active again, a finished node deletion released. */
  lemma LocksAfter(cfg: Config, s: State, n: string, io: Inputs)
    ensures var (change, locks) := AfterChange(cfg, s, n, io.deployment, io.answers, io.works);
            && OthersKept(s.locks, locks, n)
            && (change == Finished ==> n in locks && locks[n].inner == InProgress && locks[n].state == Inactive)
            && (change == Retry ==>
                  && n in locks && locks[n].state == PresentLock(cfg, s, n).state
                  && (locks[n].inner == InProgress || locks[n].inner == PresentLock(cfg, s, n).inner))
    ensures var (delete, locks) := AfterDelete(s, n, io.deployment, io.works);
            && OthersKept(s.locks, locks, n)
            && (delete == Finished ==> n in locks && locks[n].inner == Done && locks[n].state == Active)
            && (delete == Ignored ==> n !in locks) && (delete == Retry ==> locks == s.locks)
    ensures var (deletion, locks) := AfterDeletion(s, n, io.deployment, io.works);
            && OthersKept(s.locks, locks, n)
            && (deletion == Finished ==> n in locks && locks[n] == s.locks[n].(state := Inactive))
  {
    hide AllAccept, AllTrue, SlotFor;
  }

  /** The change handler, started for a node with roles, is a run of its steps in which the lookup and
      the services answer what they answered to the handler: it finishes by a run that ends with the
      release, and is to be retried by a run that comes to a point where these answers stop it. */
  lemma ChangeHandlerIsRun(cfg: Config, s: State, n: string, io: Inputs)
    requires ForServices(cfg, io) && s.At(n).Idle? && s.mutex.None?
    ensures var (outcome, locks) := AfterChange(cfg, s, n, io.deployment, io.answers, io.works);
            var start, end := StartChange(n), s.(locks := locks).Goto(n, Idle);
            && (outcome == Ignored <==> !Enabled(cfg, s, start)) && (outcome == Ignored ==> locks == s.locks)
            && (outcome == Finished ==> Completed(cfg, io, Next(cfg, s, start), n, Release(n), end))
            && (outcome == Retry ==> Aborted(cfg, io, Next(cfg, s, start), n, end))
  {
    hide Reaches, Aborted, Completed, AllAccept, AllTrue, PresentLock;
    if s.RolesOf(n) != {} {
      ReachesPresented(cfg, io, s, n);
      var lock := PresentLock(cfg, s, n);
      if SlotFor(cfg, s, n) {
        AcquiredEnds(cfg, io, s, n, lock);
      } else {
        var t := s.(locks := s.locks[n := lock]);
        PresentedSlot(cfg, s, n, t);
        assert forall role: Role :: t.Goto(n, Presented).Holders(role) == t.Holders(role);
        AbortsAt(cfg, io, s.Goto(n, Seen), n, t, Presented, 0);
      }
    }
  }

  /** The services' delete_nmr decides. */
  lemma UndoDecides(cfg: Config, io: Inputs, s: State, n: string)
    requires ForServices(cfg, io) && Reaches(cfg, io, s.Goto(n, Returning), n, s.Goto(n, Checking), 1) && s.InMaintenance(n)
    ensures if AllTrue(io.works) then Reaches(cfg, io, s.Goto(n, Returning), n, s.Goto(n, Clearing(AllUndone)), |cfg.services| + 1)
            else Aborted(cfg, io, s.Goto(n, Returning), n, s.Goto(n, Idle))
  {
    hide Reaches, Aborted;
    var m, start := |cfg.services|, s.Goto(n, Returning);
    Goes(cfg, io, start, n, s, Checking, 1, CheckMaintenance(n), Undoing(0));
    var k := WorkingFromLast(io.works);
    ReachesUndone(cfg, io, start, n, s, k);
    if k < m {
      AbortsAt(cfg, io, start, n, s, Undoing(k), k + 1);
    } else {
      Goes(cfg, io, start, n, s, Undoing(m), m + 1, UndoDone(n), Clearing(AllUndone));
    }
  }

  /** Clearing the inner state and reopening the lock, if there is one. */
  lemma Clears(cfg: Config, io: Inputs, start: State, n: string, s: State, why: ClearReason, len: nat)
    requires ForServices(cfg, io) && Reaches(cfg, io, start, n, s.Goto(n, Clearing(why)), len)
    ensures if n in s.locks then Completed(cfg, io, start, n, Reopen(n), s.(locks := s.locks[n := s.locks[n].(inner := Done, state := Active)]).Goto(n, Idle))
            else Aborted(cfg, io, start, n, s.Goto(n, Idle))
  {
    hide Reaches, Aborted;
    if n !in s.locks {
      AbortsAt(cfg, io, start, n, s, Clearing(why), len);
    } else {
      ReachesNext(cfg, io, start, n, s.Goto(n, Clearing(why)), len, ClearInner(n));
      var t := SetInner(s, n, Done).Goto(n, Reopening);
      assert Next(cfg, s.Goto(n, Clearing(why)), ClearInner(n)) == t;
      assert Enabled(cfg, t, Reopen(n));
      assert Next(cfg, t, Reopen(n)) == s.(locks := s.locks[n := s.locks[n].(inner := Done, state := Active)]).Goto(n, Idle);
    }
  }

  /** The same for the delete handler; the removal of a lock that is not needed is the step DropLock. */
  lemma DeleteHandlerIsRun(cfg: Config, s: State, n: string, io: Inputs)
    requires ForServices(cfg, io) && s.At(n).Idle?
    ensures var (outcome, locks) := AfterDelete(s, n, io.deployment, io.works);
            var start, end := StartDelete(n, n !in s.nodes), s.(locks := locks).Goto(n, Idle);
            && (outcome == Ignored <==> !Enabled(cfg, s, start))
            && (outcome == Ignored ==> Enabled(cfg, s, DropLock(n)) && s.(locks := locks) == Next(cfg, s, DropLock(n)))
            && (outcome == Finished ==> Completed(cfg, io, Next(cfg, s, start), n, Reopen(n), end))
            && (outcome == Retry ==> Aborted(cfg, io, Next(cfg, s, start), n, end))
  {
    hide Reaches, Aborted, Completed;
    if !(n in s.nodes && s.nodes[n] == {}) {
      var start := Next(cfg, s, StartDelete(n, n !in s.nodes));
      ReachesSelf(cfg, io, start, n);
      if n !in s.nodes {
        Clears(cfg, io, start, n, s, NodeAbsent, 0);
      } else if !io.deployment {
        Goes(cfg, io, start, n, s, Returning, 0, Lookup(n, false), Clearing(NothingDeployed));
        Clears(cfg, io, start, n, s, NothingDeployed, 1);
      } else {
        Goes(cfg, io, start, n, s, Returning, 0, Lookup(n, true), Checking);
        if n !in s.locks {
          AbortsAt(cfg, io, start, n, s, Checking, 1);
        } else if !s.InMaintenance(n) {
          Goes(cfg, io, start, n, s, Checking, 1, CheckMaintenance(n), Clearing(NotInMaintenance));
          Clears(cfg, io, start, n, s, NotInMaintenance, 1);
        } else {
          UndoDecides(cfg, io, s, n);
          if AllTrue(io.works) {
            Clears(cfg, io, start, n, s, AllUndone, |cfg.services| + 1);
          }
        }
      }
    }
  }

  /** The handler of a node deletion request finishes by the step Retire, with every service done if
      there are a deployment and a node; or it fails and changes nothing, for want of a lock or because
      a service failed then. */
  lemma DeletionHandlerIsRun(cfg: Config, s: State, n: string, io: Inputs)
    requires ForServices(cfg, io)
    ensures var (outcome, locks) := AfterDeletion(s, n, io.deployment, io.works);
            && (outcome == Finished ==>
                  && Enabled(cfg, s, Retire(n)) && s.(locks := locks) == Next(cfg, s, Retire(n))
                  && (io.deployment && n in s.nodes ==> forall i :: 0 <= i < |cfg.services| ==> io.works[i]))
            && (outcome != Finished ==>
                  && outcome == Retry && locks == s.locks
                  && (n !in s.locks || (io.deployment && n in s.nodes && exists i :: 0 <= i < |cfg.services| && !io.works[i])))
  {
  }
}
