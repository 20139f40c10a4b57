/**
 The node maintenance protocol as a step system.

 Every NodeMaintenanceRequest has a handler that may be stopped at any step and started again from
 the top.  Handlers of different nodes interleave freely; handlers of one node do not (there is one
 program position per node).  Between any two steps the environment may change nodes, and the node
 event handlers may create or remove lock objects.
 */
module MaintenanceProtocol {
  import opened NodeRoles
  import opened Wrappers

  datatype LockState = Active | Inactive | Failed

  /** The inner_state annotation: not set yet, "active", or "inactive". */
  datatype InnerState = Unset | InProgress | Done

  /** `current` says that status.release names the release of this controller. */
  datatype Lock = Lock(state: LockState, inner: InnerState, current: bool)

  /** `services` are the names of the services with a maintenance API, in ORDERED_SERVICES order.
      `checkRelease` holds when the controller was given a cluster release.
      `steady` adds an assumption about the environment, see `MayGrow`. */
  datatype Config = Config(maxGateway: int, maxCompute: int, services: seq<string>, checkRelease: bool, steady: bool)

  function Limit(cfg: Config, role: Role): int {
    match role
    case Controller => 1
    case Gateway => cfg.maxGateway
    case Compute => cfg.maxCompute
  }

  datatype ReleaseReason = NoDeployment | NotActive | AllProcessed
  datatype ClearReason = NodeAbsent | NothingDeployed | NotInMaintenance | AllUndone

  /** Where the handler of a node is. */
  datatype Position =
    | Idle
    // change handler
    | Seen
    | Presented
    | Scanning(pending: set<string>, probing: Option<string>, counted: map<Role, set<string>>)
    | Marking(reentrant: bool)
    | Held
    | Deployed
    | Asking(asked: nat, allYes: bool)
    | Reactivating
    | Processing(done: nat)
    | Releasing(why: ReleaseReason)
    // delete handler
    | Returning
    | Checking
    | Undoing(undone: nat)
    | Clearing(because: ClearReason)
    | Reopening

  datatype State = State(
    nodes: map<string, set<Role>>,
    locks: map<string, Lock>,
    positions: map<string, Position>,
    mutex: Option<string>)
  {
    function At(n: string): Position {
      if n in positions then positions[n] else Idle
    }

    function RolesOf(n: string): set<Role> {
      if n in nodes then nodes[n] else {}
    }

    function Goto(n: string, p: Position): State {
      this.(positions := positions[n := p])
    }

    predicate InMaintenance(n: string) {
      n in locks && locks[n].inner == InProgress
    }

    /** The nodes that take a slot of the role: lock held, node exists and has the role. */
    function Holders(role: Role): set<string> {
      set n | n in locks && locks[n].inner == InProgress && n in nodes && role in nodes[n]
    }
  }

  ghost predicate Bounded(cfg: Config, s: State) {
    forall role: Role :: |s.Holders(role)| <= Limit(cfg, role)
  }

  datatype Action =
    // change handler of node n
    | StartChange(n: string)
    | Present(n: string)
    | Enter(n: string)
    | ScanLock(n: string, other: string)
    | ScanNode(n: string)
    | ScanDone(n: string)
    | Mark(n: string)
    | Lookup(n: string, found: bool)
    | CheckActive(n: string)
    | Ask(n: string, service: string, yes: bool)
    | AskDone(n: string)
    | Reactivate(n: string)
    | Process(n: string, service: string)
    | ProcessDone(n: string)
    | Release(n: string)
    // delete handler of node n
    | StartDelete(n: string, absent: bool)
    | CheckMaintenance(n: string)
    | Undo(n: string, service: string)
    | UndoDone(n: string)
    | ClearInner(n: string)
    | Reopen(n: string)
    // the write of the handler of a node deletion request for node n, which may run beside the others
    | Retire(n: string)
    // an error anywhere in a handler, to be retried from the top
    | Abort(n: string)
    // environment and node event handlers
    | NodeGone(n: string)
    | NodeIs(n: string, roles: set<Role>)
    | DropLock(n: string)
    | EnsureLock(n: string)

  /** nwl.present(): create the lock, or reset one left by another release. */
  function PresentLock(cfg: Config, s: State, n: string): Lock {
    if n !in s.locks then Lock(Active, Unset, true)
    else if cfg.checkRelease && !s.locks[n].current then s.locks[n].(state := Active, current := true)
    else s.locks[n]
  }

  /** Presenting a lock never touches the inner state, so it takes no slot; a lock left by another
      release, where that is looked at, is active again and is this release's from then on. */
  lemma PresentLockKeeps(cfg: Config, s: State, n: string)
    ensures var lock := PresentLock(cfg, s, n);
            && lock.inner == (if n in s.locks then s.locks[n].inner else Unset)
            && (lock.state == Inactive <==> n in s.locks && s.locks[n].state == Inactive && (cfg.checkRelease ==> s.locks[n].current))
            && (lock.current <==> n in s.locks && !cfg.checkRelease ==> s.locks[n].current)
  {
  }

  predicate InMutex(p: Position) {
    p.Scanning? || p.Marking?
  }

  /** The change handler relies on its lock being inner-active from here on. */
  predicate Holding(p: Position) {
    || p == Marking(true) || p.Held? || p.Deployed? || p.Asking? || p.Reactivating? || p.Processing? || p.Releasing?
  }

  /** When may a node appear or gain a role?  Never while its lock is inner-active; and, in a steady
      environment, not while its change handler relies on the lock either. */
  predicate MayGrow(cfg: Config, s: State, n: string) {
    !s.InMaintenance(n) && (cfg.steady ==> !Holding(s.At(n)))
  }

  predicate Room(cfg: Config, counted: map<Role, set<string>>) {
    forall role: Role :: role in counted && |counted[role]| < Limit(cfg, role)
  }

  predicate Enabled(cfg: Config, s: State, a: Action) {
    match a
    case StartChange(n) => s.At(n).Idle? && s.RolesOf(n) != {}
    case Present(n) => s.At(n).Seen?
    case Enter(n) => s.At(n).Presented? && s.mutex.None? && n in s.locks
    case ScanLock(n, m) => s.At(n).Scanning? && s.At(n).probing.None? && m in s.At(n).pending && m in s.locks
    case ScanNode(n) => s.At(n).Scanning? && s.At(n).probing.Some?
    case ScanDone(n) => s.At(n).Scanning? && s.At(n).pending == {} && Room(cfg, s.At(n).counted)
    case Mark(n) => s.At(n).Marking? && n in s.locks
    case Lookup(n, _) => s.At(n).Held? || s.At(n).Returning?
    case CheckActive(n) => s.At(n).Deployed? && n in s.locks
    case Ask(n, svc, _) => s.At(n).Asking? && s.At(n).asked < |cfg.services| && svc == cfg.services[s.At(n).asked]
    case AskDone(n) => s.At(n) == Asking(|cfg.services|, true)
    case Reactivate(n) => s.At(n).Reactivating? && n in s.locks
    case Process(n, svc) => s.At(n).Processing? && s.At(n).done < |cfg.services| && svc == cfg.services[s.At(n).done]
    case ProcessDone(n) => s.At(n) == Processing(|cfg.services|)
    case Release(n) => s.At(n).Releasing? && n in s.locks
    case StartDelete(n, absent) => s.At(n).Idle? && absent == (n !in s.nodes) && (absent || s.RolesOf(n) != {})
    case CheckMaintenance(n) => s.At(n).Checking? && n in s.locks
    case Undo(n, svc) =>
      s.At(n).Undoing? && s.At(n).undone < |cfg.services| && svc == cfg.services[|cfg.services| - 1 - s.At(n).undone]
    case UndoDone(n) => s.At(n) == Undoing(|cfg.services|)
    case ClearInner(n) => s.At(n).Clearing? && n in s.locks
    case Reopen(n) => s.At(n).Reopening? && n in s.locks
    case Retire(n) => n in s.locks
    case Abort(n) => true
    case NodeGone(n) => true
    case NodeIs(n, roles) => (n in s.nodes && roles <= s.nodes[n]) || MayGrow(cfg, s, n)
    case DropLock(n) => s.RolesOf(n) == {}
    case EnsureLock(n) => s.RolesOf(n) != {}
  }

  function EmptyCount(): map<Role, set<string>> {
    map[Compute := {}, Gateway := {}, Controller := {}]
  }

  /** locks[role].append(nwl) for every role of the node read. */
  function Count(counted: map<Role, set<string>>, m: string, roles: set<Role>): map<Role, set<string>> {
    map role | role in counted :: if role in roles then counted[role] + {m} else counted[role]
  }

  function SetInner(s: State, n: string, inner: InnerState): State
    requires n in s.locks
  {
    s.(locks := s.locks[n := s.locks[n].(inner := inner)])
  }

  function SetState(s: State, n: string, st: LockState): State
    requires n in s.locks
  {
    s.(locks := s.locks[n := s.locks[n].(state := st)])
  }

  function Next(cfg: Config, s: State, a: Action): State
    requires Enabled(cfg, s, a)
  {
    match a
    case StartChange(n) => s.Goto(n, Seen)
    case Present(n) => s.(locks := s.locks[n := PresentLock(cfg, s, n)]).Goto(n, Presented)
    case Enter(n) =>
      s.(mutex := Some(n)).Goto(n, if s.InMaintenance(n) then Marking(true) else Scanning(s.locks.Keys, None, EmptyCount()))
    case ScanLock(n, m) =>
      var p := s.At(n);
      s.Goto(n, if s.InMaintenance(m) then p.(probing := Some(m)) else p.(pending := p.pending - {m}))
    case ScanNode(n) =>
      var p := s.At(n);
      var m := p.probing.value;
      s.Goto(n, Scanning(p.pending - {m}, None, Count(p.counted, m, s.RolesOf(m))))
    case ScanDone(n) => s.Goto(n, Marking(false))
    case Mark(n) => SetInner(s, n, InProgress).(mutex := None).Goto(n, Held)
    case Lookup(n, found) =>
      s.Goto(n, if s.At(n).Held? then (if found then Deployed else Releasing(NoDeployment))
                else if found then Checking else Clearing(NothingDeployed))
    case CheckActive(n) => s.Goto(n, if s.locks[n].state == Active then Asking(0, true) else Releasing(NotActive))
    case Ask(n, _, yes) => s.Goto(n, Asking(s.At(n).asked + 1, s.At(n).allYes && yes))
    case AskDone(n) => s.Goto(n, Reactivating)
    case Reactivate(n) => SetInner(s, n, InProgress).Goto(n, Processing(0))
    case Process(n, _) => s.Goto(n, Processing(s.At(n).done + 1))
    case ProcessDone(n) => s.Goto(n, Releasing(AllProcessed))
    case Release(n) => SetState(s, n, Inactive).Goto(n, Idle)
    case StartDelete(n, absent) => s.Goto(n, if absent then Clearing(NodeAbsent) else Returning)
    case CheckMaintenance(n) => s.Goto(n, if s.InMaintenance(n) then Undoing(0) else Clearing(NotInMaintenance))
    case Undo(n, _) => s.Goto(n, Undoing(s.At(n).undone + 1))
    case UndoDone(n) => s.Goto(n, Clearing(AllUndone))
    case ClearInner(n) => SetInner(s, n, Done).Goto(n, Reopening)
    case Reopen(n) => SetState(s, n, Active).Goto(n, Idle)
    case Retire(n) => SetState(s, n, Inactive)
    case Abort(n) => s.(mutex := if InMutex(s.At(n)) then None else s.mutex).Goto(n, Idle)
    case NodeGone(n) => s.(nodes := s.nodes - {n})
    case NodeIs(n, roles) => s.(nodes := s.nodes[n := roles])
    case DropLock(n) => s.(locks := s.locks - {n})
    case EnsureLock(n) => s.(locks := s.locks[n := PresentLock(cfg, s, n)])
  }

  /** Any cluster the controller may be started on: no handler is running. */
  ghost predicate Init(cfg: Config, s: State) {
    && (forall n :: s.At(n) == Idle)
    && s.mutex == None
    && Bounded(cfg, s)
  }

  /** The state the actions lead to, if each is enabled when it is taken. */
  function Exec(cfg: Config, s: State, acts: seq<Action>): Option<State> {
    if acts == [] then Some(s) else
    var last := |acts| - 1;
    match Exec(cfg, s, acts[..last])
    case None => None
    case Some(t) => if Enabled(cfg, t, acts[last]) then Some(Next(cfg, t, acts[last])) else None
  }

  lemma ExecNone(cfg: Config, s: State)
    ensures Exec(cfg, s, []) == Some(s)
  {
  }

  // ---------------------------------------------------------------- invariant

  /** What the position of one node says about its own lock, whatever the environment does. */
  ghost predicate PlainFacts(cfg: Config, s: State, n: string) {
    var p := s.At(n);
    && (Holding(p) || p.Presented? || InMutex(p) ==> n in s.locks && cfg.checkRelease ==> s.locks[n].current)
    && (p == Clearing(NotInMaintenance) && n in s.locks ==> s.locks[n].inner != InProgress)
    && (InMutex(p) <==> s.mutex == Some(n))
  }

  /** The same in a steady environment. */
  ghost predicate LockFacts(cfg: Config, s: State, n: string) {
    var p := s.At(n);
    && PlainFacts(cfg, s, n)
    && (Holding(p) ==> if n in s.locks then s.locks[n].inner == InProgress else s.RolesOf(n) == {})
    && (p == Releasing(NotActive) && n in s.locks ==> s.locks[n].state != Active)
  }

  /** A scan in progress has counted, or has still to visit, every node that holds a slot. */
  ghost predicate ScanFacts(cfg: Config, s: State, n: string) {
    var p := s.At(n);
    && (p.Scanning? ==>
      && (p.probing.Some? ==> p.probing.value in p.pending)
      && (forall role: Role :: role in p.counted && s.Holders(role) <= p.counted[role] + p.pending))
    && (p == Marking(false) ==> forall role: Role :: |s.Holders(role)| < Limit(cfg, role))
  }

  ghost predicate Inv(cfg: Config, s: State) {
    && (forall n :: LockFacts(cfg, s, n))
    && (forall n :: ScanFacts(cfg, s, n))
    && Bounded(cfg, s)
  }

  lemma SubsetSize<T>(a: set<T>, b: set<T>)
    requires a <= b
    ensures |a| <= |b|
  {
    assert b == a + (b - a);
  }

  /** No step other than a first acquisition adds a node to the holders of a slot. */
  lemma HoldersOnlyShrink(cfg: Config, s: State, a: Action, role: Role)
    requires cfg.steady && Inv(cfg, s) && Enabled(cfg, s, a)
    requires !(a.Mark? && s.At(a.n) == Marking(false))
    ensures Next(cfg, s, a).Holders(role) <= s.Holders(role)
  {
    assert LockFacts(cfg, s, a.n);
  }

  lemma OtherPositions(cfg: Config, s: State, a: Action, n: string)
    requires Enabled(cfg, s, a) && n != a.n
    ensures Next(cfg, s, a).At(n) == s.At(n)
  {
  }

  lemma OtherRoles(cfg: Config, s: State, a: Action, n: string)
    requires Enabled(cfg, s, a) && n != a.n
    ensures Next(cfg, s, a).RolesOf(n) == s.RolesOf(n)
  {
  }

  lemma OtherLocksStay(cfg: Config, s: State, a: Action, n: string)
    requires Enabled(cfg, s, a) && n != a.n
    ensures n in Next(cfg, s, a).locks <==> n in s.locks
  {
  }

  lemma OtherLocksSame(cfg: Config, s: State, a: Action, n: string)
    requires Enabled(cfg, s, a) && n != a.n && n in s.locks && n in Next(cfg, s, a).locks
    ensures Next(cfg, s, a).locks[n] == s.locks[n]
  {
  }

  /** A step of one node's handler, or an event of one node, leaves every other node alone. */
  lemma OthersUntouched(cfg: Config, s: State, a: Action, n: string)
    requires Enabled(cfg, s, a) && n != a.n
    ensures var t := Next(cfg, s, a);
            && t.At(n) == s.At(n) && t.RolesOf(n) == s.RolesOf(n)
            && (n in t.locks <==> n in s.locks) && (n in s.locks ==> t.locks[n] == s.locks[n])
  {
    hide Next, Enabled;
    OtherPositions(cfg, s, a, n);
    OtherRoles(cfg, s, a, n);
    OtherLocksStay(cfg, s, a, n);
    if n in s.locks {
      OtherLocksSame(cfg, s, a, n);
    }
  }

  /** Only the node in the critical section leaves it, and only an empty one is entered. */
  lemma MutexMoves(cfg: Config, s: State, a: Action)
    requires Enabled(cfg, s, a) && (InMutex(s.At(a.n)) <==> s.mutex == Some(a.n))
    ensures var t := Next(cfg, s, a);
            && (InMutex(t.At(a.n)) <==> t.mutex == Some(a.n))
            && (t.mutex == s.mutex || ((s.mutex == None || s.mutex == Some(a.n)) && (t.mutex == None || t.mutex == Some(a.n))))
  {
  }

  lemma OwnPlainFacts(cfg: Config, s: State, a: Action)
    requires PlainFacts(cfg, s, a.n) && Enabled(cfg, s, a)
    ensures PlainFacts(cfg, Next(cfg, s, a), a.n)
  {
    MutexMoves(cfg, s, a);
  }

  lemma PlainFactsKept(cfg: Config, s: State, a: Action, n: string)
    requires PlainFacts(cfg, s, n) && PlainFacts(cfg, s, a.n) && Enabled(cfg, s, a)
    ensures PlainFacts(cfg, Next(cfg, s, a), n)
  {
    if n == a.n {
      OwnPlainFacts(cfg, s, a);
    } else {
      OthersUntouched(cfg, s, a, n);
      MutexMoves(cfg, s, a);
      hide Next, Enabled;
    }
  }

  lemma {:induction false} PlainFactsReached(cfg: Config, s: State, acts: seq<Action>, n: string)
    requires Init(cfg, s) && Exec(cfg, s, acts).Some?
    ensures PlainFacts(cfg, Exec(cfg, s, acts).value, n)
  {
    if acts != [] {
      var last := |acts| - 1;
      PlainFactsReached(cfg, s, acts[..last], n);
      PlainFactsReached(cfg, s, acts[..last], acts[last].n);
      PlainFactsKept(cfg, Exec(cfg, s, acts[..last]).value, acts[last], n);
    }
  }

  lemma OwnLockFacts(cfg: Config, s: State, a: Action)
    requires cfg.steady && LockFacts(cfg, s, a.n) && Enabled(cfg, s, a)
    ensures LockFacts(cfg, Next(cfg, s, a), a.n)
  {
    OwnPlainFacts(cfg, s, a);
    hide PlainFacts;
  }

  lemma LockFactsKept(cfg: Config, s: State, a: Action, n: string)
    requires cfg.steady && LockFacts(cfg, s, n) && LockFacts(cfg, s, a.n) && Enabled(cfg, s, a)
    ensures LockFacts(cfg, Next(cfg, s, a), n)
  {
    if n == a.n {
      OwnLockFacts(cfg, s, a);
    } else {
      OthersUntouched(cfg, s, a, n);
      PlainFactsKept(cfg, s, a, n);
      hide Next, Enabled, PlainFacts;
    }
  }

  lemma EveryRoleCounted(role: Role)
    ensures role in EmptyCount() && EmptyCount()[role] == {}
  {
    match role case Compute => case Gateway => case Controller =>
  }

  /** The node that scans goes on scanning correctly, while no node takes a slot. */
  lemma OwnScanFacts(cfg: Config, s: State, a: Action)
    requires LockFacts(cfg, s, a.n) && ScanFacts(cfg, s, a.n) && Enabled(cfg, s, a)
    requires !(a.Mark? && s.At(a.n) == Marking(false))
    requires forall role: Role :: Next(cfg, s, a).Holders(role) <= s.Holders(role)
    ensures ScanFacts(cfg, Next(cfg, s, a), a.n)
  {
    var t := Next(cfg, s, a);
    if a.Enter? || a.ScanLock? || a.ScanNode? {
      assert t.locks == s.locks && t.nodes == s.nodes;
      if t.At(a.n).Scanning? {
        forall role: Role
          ensures role in t.At(a.n).counted && s.Holders(role) <= t.At(a.n).counted[role] + t.At(a.n).pending
        {
          EveryRoleCounted(role);
          assert a.Enter? ==> s.Holders(role) <= s.locks.Keys;
        }
      }
    } else if a.ScanDone? {
      forall role: Role ensures |t.Holders(role)| < Limit(cfg, role) {
        SubsetSize(t.Holders(role), s.At(a.n).counted[role]);
      }
    } else {
      hide LockFacts;
      assert t.At(a.n).Scanning? || t.At(a.n) == Marking(false) ==> t.At(a.n) == s.At(a.n);
      OtherScanFacts(cfg, s, t, a.n);
    }
  }

  lemma OtherScanFacts(cfg: Config, s: State, t: State, n: string)
    requires ScanFacts(cfg, s, n) && (t.At(n).Scanning? || t.At(n) == Marking(false) ==> t.At(n) == s.At(n))
    requires forall role: Role :: t.Holders(role) <= s.Holders(role)
    ensures ScanFacts(cfg, t, n)
  {
    forall role: Role ensures |t.Holders(role)| <= |s.Holders(role)| {
      SubsetSize(t.Holders(role), s.Holders(role));
    }
  }

  lemma ScanFactsKept(cfg: Config, s: State, a: Action, n: string)
    requires cfg.steady && Inv(cfg, s) && Enabled(cfg, s, a)
    ensures ScanFacts(cfg, Next(cfg, s, a), n)
  {
    var t := Next(cfg, s, a);
    assert ScanFacts(cfg, s, n) && LockFacts(cfg, s, n) && ScanFacts(cfg, s, a.n) && LockFacts(cfg, s, a.n);
    if a.Mark? && s.At(a.n) == Marking(false) {
      // the mutex was held by a.n alone, so nobody else is scanning or marking
      if n == a.n {
        assert t.At(n) == Held;
      } else {
        OthersUntouched(cfg, s, a, n);
        hide Next, Enabled;
      }
    } else {
      forall role: Role ensures t.Holders(role) <= s.Holders(role) {
        HoldersOnlyShrink(cfg, s, a, role);
      }
      hide Next, ScanFacts, LockFacts;
      if n == a.n {
        OwnScanFacts(cfg, s, a);
      } else {
        OthersUntouched(cfg, s, a, n);
        OtherScanFacts(cfg, s, t, n);
      }
    }
  }

  lemma BoundKept(cfg: Config, s: State, a: Action)
    requires cfg.steady && Inv(cfg, s) && Enabled(cfg, s, a)
    ensures Bounded(cfg, Next(cfg, s, a))
  {
    var t := Next(cfg, s, a);
    forall role: Role ensures |t.Holders(role)| <= Limit(cfg, role) {
      if a.Mark? && s.At(a.n) == Marking(false) {
        assert ScanFacts(cfg, s, a.n);
        SubsetSize(t.Holders(role), s.Holders(role) + {a.n});
      } else {
        HoldersOnlyShrink(cfg, s, a, role);
        SubsetSize(t.Holders(role), s.Holders(role));
      }
    }
  }

  lemma {:induction false} InvReached(cfg: Config, s: State, acts: seq<Action>)
    requires cfg.steady && Init(cfg, s) && Exec(cfg, s, acts).Some?
    ensures Inv(cfg, Exec(cfg, s, acts).value)
  {
    if acts != [] {
      var last := |acts| - 1;
      InvReached(cfg, s, acts[..last]);
      var t := Exec(cfg, s, acts[..last]).value;
      forall n ensures LockFacts(cfg, Next(cfg, t, acts[last]), n) && ScanFacts(cfg, Next(cfg, t, acts[last]), n) {
        assert LockFacts(cfg, t, n) && LockFacts(cfg, t, acts[last].n);
        LockFactsKept(cfg, t, acts[last], n);
        ScanFactsKept(cfg, t, acts[last], n);
      }
      BoundKept(cfg, t, acts[last]);
    }
  }

  // ---------------------------------------------------------------- slots

  /** In every reachable state no role has more nodes in maintenance than its limit. */
  lemma SlotsNeverExceeded(cfg: Config, s: State, acts: seq<Action>)
    requires cfg.steady && Init(cfg, s) && Exec(cfg, s, acts).Some?
    ensures forall role: Role :: |Exec(cfg, s, acts).value.Holders(role)| <= Limit(cfg, role)
  {
    InvReached(cfg, s, acts);
  }

  /** A node already in maintenance gets its lock again, whatever the limits, and no count changes. */
  lemma ReacquireIsFree(cfg: Config, s: State, n: string)
    requires s.At(n).Presented? && s.mutex.None? && s.InMaintenance(n)
    ensures Enabled(cfg, s, Enter(n))
    ensures var t := Next(cfg, s, Enter(n));
            && Enabled(cfg, t, Mark(n))
            && Next(cfg, t, Mark(n)).locks == s.locks
            && Next(cfg, t, Mark(n)).At(n) == Held
            && forall role: Role :: Next(cfg, t, Mark(n)).Holders(role) == s.Holders(role)
  {
    var u := Next(cfg, Next(cfg, s, Enter(n)), Mark(n));
    assert u.locks == s.locks && u.nodes == s.nodes;
  }

  /** Writing an active inner state keeps the bound exactly when the lock is held already or every
      role of the node has a free slot.  The write at the start of the service loop happens outside
      the mutex and does not look. */
  lemma ActivationExact(cfg: Config, s: State, n: string)
    requires Bounded(cfg, s) && n in s.locks
    ensures Bounded(cfg, SetInner(s, n, InProgress)) <==>
            s.InMaintenance(n) || forall role :: role in s.RolesOf(n) ==> |s.Holders(role)| < Limit(cfg, role)
  {
    var t := SetInner(s, n, InProgress);
    if s.InMaintenance(n) {
      forall role: Role ensures t.Holders(role) == s.Holders(role) {}
    } else {
      forall role: Role
        ensures |t.Holders(role)| == |s.Holders(role)| + if role in s.RolesOf(n) then 1 else 0
      {
        assert t.Holders(role) == s.Holders(role) + if role in s.RolesOf(n) then {n} else {};
      }
    }
  }

  /** A write of the active inner state that finds its lock active, or a free slot in every role. */
  ghost predicate FindsRoom(cfg: Config, t: State, a: Action) {
    a.Mark? || a.Reactivate? ==>
      t.InMaintenance(a.n) || forall role :: role in t.RolesOf(a.n) ==> |t.Holders(role)| < Limit(cfg, role)
  }

  lemma OtherStepsTakeNoSlot(cfg: Config, t: State, a: Action, role: Role)
    requires Enabled(cfg, t, a) && !a.Mark? && !a.Reactivate?
    ensures Next(cfg, t, a).Holders(role) <= t.Holders(role)
  {
  }

  lemma LimitsKeptByStep(cfg: Config, t: State, a: Action)
    requires Bounded(cfg, t) && Enabled(cfg, t, a)
    ensures Bounded(cfg, Next(cfg, t, a)) <==> FindsRoom(cfg, t, a)
  {
    var u := Next(cfg, t, a);
    if a.Mark? || a.Reactivate? {
      ActivationExact(cfg, t, a.n);
      forall role: Role ensures u.Holders(role) == SetInner(t, a.n, InProgress).Holders(role) {
        assert u.locks == SetInner(t, a.n, InProgress).locks && u.nodes == t.nodes;
      }
    } else {
      forall role: Role ensures |u.Holders(role)| <= |t.Holders(role)| {
        OtherStepsTakeNoSlot(cfg, t, a, role);
        SubsetSize(u.Holders(role), t.Holders(role));
      }
    }
  }

  lemma {:induction false} PrefixRuns(cfg: Config, s: State, acts: seq<Action>, k: nat)
    requires Exec(cfg, s, acts).Some? && k <= |acts|
    ensures Exec(cfg, s, acts[..k]).Some?
    ensures k < |acts| ==> var t := Exec(cfg, s, acts[..k]).value;
              Enabled(cfg, t, acts[k]) && Exec(cfg, s, acts[..k + 1]) == Some(Next(cfg, t, acts[k]))
  {
    var last := |acts| - 1;
    if k == |acts| {
      assert acts[..k] == acts;
    } else if k == last {
      assert acts[..k + 1] == acts;
    } else {
      assert acts[..last][..k] == acts[..k] && acts[..last][..k + 1] == acts[..k + 1];
      PrefixRuns(cfg, s, acts[..last], k);
    }
  }

  ghost predicate BoundedUpto(cfg: Config, s: State, acts: seq<Action>, m: nat)
    requires Exec(cfg, s, acts).Some? && m <= |acts|
  {
    forall k :: 0 <= k <= m ==> Exec(cfg, s, acts[..k]).Some? && Bounded(cfg, Exec(cfg, s, acts[..k]).value)
  }

  ghost predicate RoomUpto(cfg: Config, s: State, acts: seq<Action>, m: nat)
    requires Exec(cfg, s, acts).Some? && m <= |acts|
  {
    forall k :: 0 <= k < m ==> Exec(cfg, s, acts[..k]).Some? && FindsRoom(cfg, Exec(cfg, s, acts[..k]).value, acts[k])
  }

  lemma {:induction false} LimitsKeptUpto(cfg: Config, s: State, acts: seq<Action>, m: nat)
    requires Init(cfg, s) && Exec(cfg, s, acts).Some? && m <= |acts|
    ensures BoundedUpto(cfg, s, acts, m) <==> RoomUpto(cfg, s, acts, m)
  {
    hide Exec, FindsRoom, Bounded, Enabled, Next;
    PrefixRuns(cfg, s, acts, m);
    if m == 0 {
      ExecNone(cfg, s);
      assert acts[..0] == [];
    } else {
      LimitsKeptUpto(cfg, s, acts, m - 1);
      PrefixRuns(cfg, s, acts, m - 1);
      if BoundedUpto(cfg, s, acts, m - 1) {
        LimitsKeptByStep(cfg, Exec(cfg, s, acts[..m - 1]).value, acts[m - 1]);
      }
    }
  }

  /** In any environment, steady or not: the limits hold in every state of a run exactly when every
      write of an active inner state finds its lock active or room in each role of its node. */
  lemma LimitsKeptExactly(cfg: Config, s: State, acts: seq<Action>)
    requires Init(cfg, s) && Exec(cfg, s, acts).Some?
    ensures BoundedUpto(cfg, s, acts, |acts|) <==> RoomUpto(cfg, s, acts, |acts|)
  {
    LimitsKeptUpto(cfg, s, acts, |acts|);
  }

  // ---------------------------------------------------------------- service calls

  /** What the handler of one node did since it was last started, read off the actions alone. */
  datatype Call = NoNode | Deployment(found: bool) | Asked(service: string, yes: bool) | Processed(service: string) | Undone(service: string)

  function Record(before: seq<Call>, a: Action): seq<Call> {
    match a
    case StartChange(_) => []
    case StartDelete(_, absent) => if absent then [NoNode] else []
    case Lookup(_, found) => before + [Deployment(found)]
    case Ask(_, svc, yes) => before + [Asked(svc, yes)]
    case Process(_, svc) => before + [Processed(svc)]
    case Undo(_, svc) => before + [Undone(svc)]
    case _ => before
  }

  function Calls(acts: seq<Action>, n: string): seq<Call> {
    if acts == [] then [] else
    var last := |acts| - 1;
    var before := Calls(acts[..last], n);
    if acts[last].n == n then Record(before, acts[last]) else before
  }

  function Accepted(services: seq<string>): seq<Call> {
    seq(|services|, i requires 0 <= i < |services| => Asked(services[i], true))
  }

  function AllProcess(services: seq<string>): seq<Call> {
    seq(|services|, i requires 0 <= i < |services| => Processed(services[i]))
  }

  function AllUndo(services: seq<string>, k: nat): seq<Call>
    requires k <= |services|
  {
    seq(k, i requires 0 <= i < k => Undone(services[|services| - 1 - i]))
  }

  /** The first k services were asked, each once and in order, after the deployment was found. */
  ghost predicate AskedInOrder(svcs: seq<string>, k: nat, calls: seq<Call>) {
    && k <= |svcs| && |calls| == k + 1 && calls[0] == Deployment(true)
    && forall i :: 1 <= i <= k ==> calls[i].Asked? && calls[i].service == svcs[i - 1]
  }

  ghost predicate CallFacts(cfg: Config, p: Position, calls: seq<Call>) {
    var svcs := cfg.services;
    match p
    case Seen | Presented | Scanning(_, _, _) | Marking(_) | Held | Returning => calls == []
    case Deployed | Checking => calls == [Deployment(true)]
    case Asking(k, all) => AskedInOrder(svcs, k, calls) && (all <==> forall i :: 1 <= i <= k ==> calls[i].yes)
    case Reactivating => calls == [Deployment(true)] + Accepted(svcs)
    case Processing(k) => k <= |svcs| && calls == [Deployment(true)] + Accepted(svcs) + AllProcess(svcs[..k])
    case Releasing(NoDeployment) => calls == [Deployment(false)]
    case Releasing(NotActive) => calls == [Deployment(true)]
    case Releasing(AllProcessed) => calls == [Deployment(true)] + Accepted(svcs) + AllProcess(svcs)
    case Undoing(k) => k <= |svcs| && calls == [Deployment(true)] + AllUndo(svcs, k)
    case Clearing(NodeAbsent) => calls == [NoNode]
    case Clearing(NothingDeployed) => calls == [Deployment(false)]
    case Clearing(NotInMaintenance) => calls == [Deployment(true)]
    case Clearing(AllUndone) => calls == [Deployment(true)] + AllUndo(svcs, |svcs|)
    case Reopening => calls in [[NoNode], [Deployment(false)], [Deployment(true)], [Deployment(true)] + AllUndo(svcs, |svcs|)]
    case Idle => true
  }

  lemma CallsGrow(svcs: seq<string>, k: nat)
    requires k < |svcs|
    ensures Accepted(svcs[..k + 1]) == Accepted(svcs[..k]) + [Asked(svcs[k], true)]
    ensures AllProcess(svcs[..k + 1]) == AllProcess(svcs[..k]) + [Processed(svcs[k])]
    ensures AllUndo(svcs, k + 1) == AllUndo(svcs, k) + [Undone(svcs[|svcs| - 1 - k])]
  {
  }

  lemma NoCalls(svcs: seq<string>)
    ensures Accepted(svcs[..0]) == [] && AllProcess(svcs[..0]) == [] && AllUndo(svcs, 0) == []
  {
  }

  lemma AskedMore(svcs: seq<string>, k: nat, calls: seq<Call>, yes: bool)
    requires AskedInOrder(svcs, k, calls) && k < |svcs|
    ensures var more := calls + [Asked(svcs[k], yes)];
            && AskedInOrder(svcs, k + 1, more)
            && ((forall i :: 1 <= i <= k + 1 ==> more[i].yes) <==> yes && forall i :: 1 <= i <= k ==> calls[i].yes)
  {
    var more := calls + [Asked(svcs[k], yes)];
    assert forall i :: 0 <= i <= k ==> more[i] == calls[i];
    assert more[k + 1] == Asked(svcs[k], yes);
  }

  lemma AllAsked(svcs: seq<string>, calls: seq<Call>)
    requires AskedInOrder(svcs, |svcs|, calls) && forall i :: 1 <= i <= |svcs| ==> calls[i].yes
    ensures calls == [Deployment(true)] + Accepted(svcs)
  {
  }

  lemma CallFactsServiceStep(cfg: Config, s: State, a: Action, calls: seq<Call>)
    requires CallFacts(cfg, s.At(a.n), calls) && Enabled(cfg, s, a)
    requires a.Ask? || a.Process? || a.Undo?
    ensures CallFacts(cfg, Next(cfg, s, a).At(a.n), Record(calls, a))
  {
    hide Accepted, AllProcess, AllUndo, AskedInOrder;
    var p := s.At(a.n);
    if a.Ask? {
      AskedMore(cfg.services, p.asked, calls, a.yes);
    } else {
      CallsGrow(cfg.services, if a.Process? then p.done else p.undone);
    }
  }

  /** From one loop over the services to the next. */
  lemma CallFactsTurn(cfg: Config, s: State, a: Action, calls: seq<Call>)
    requires CallFacts(cfg, s.At(a.n), calls) && Enabled(cfg, s, a)
    requires a.CheckActive? || a.AskDone? || a.Reactivate? || a.ProcessDone? || a.CheckMaintenance? || a.UndoDone?
    ensures CallFacts(cfg, Next(cfg, s, a).At(a.n), Record(calls, a))
  {
    hide Accepted, AllProcess, AllUndo;
    NoCalls(cfg.services);
    var svcs := cfg.services;
    assert svcs[..|svcs|] == svcs;
    if a.AskDone? {
      AllAsked(svcs, calls);
    }
  }

  lemma CallFactsStep(cfg: Config, s: State, a: Action, calls: seq<Call>)
    requires CallFacts(cfg, s.At(a.n), calls) && Enabled(cfg, s, a)
    ensures CallFacts(cfg, Next(cfg, s, a).At(a.n), Record(calls, a))
  {
    hide Accepted, AllProcess, AllUndo;
    if a.Ask? || a.Process? || a.Undo? {
      CallFactsServiceStep(cfg, s, a, calls);
    } else if a.CheckActive? || a.AskDone? || a.Reactivate? || a.ProcessDone? || a.CheckMaintenance? || a.UndoDone? {
      CallFactsTurn(cfg, s, a, calls);
    } else {
      assert Next(cfg, s, a).At(a.n) == s.At(a.n) ==> Record(calls, a) == calls;
    }
  }

  lemma {:induction false} CallFactsReached(cfg: Config, s: State, acts: seq<Action>, n: string)
    requires Init(cfg, s) && Exec(cfg, s, acts).Some?
    ensures CallFacts(cfg, Exec(cfg, s, acts).value.At(n), Calls(acts, n))
  {
    if acts != [] {
      var last := |acts| - 1;
      CallFactsReached(cfg, s, acts[..last], n);
      if acts[last].n == n {
        CallFactsStep(cfg, Exec(cfg, s, acts[..last]).value, acts[last], Calls(acts[..last], n));
      }
    }
  }

  /** What became of the lock of a node since its handler last looked whether it is active, read off
      the actions alone: NotChecked once the handler goes on. */
  datatype Since = NotChecked | Untouched | Dropped | Recreated

  function SinceCheck(acts: seq<Action>, n: string): Since {
    if acts == [] then NotChecked else
    var last := acts[|acts| - 1];
    var before := SinceCheck(acts[..|acts| - 1], n);
    if last.n != n then before else
    match last
    case CheckActive(_) => Untouched
    case NodeGone(_) => before
    case NodeIs(_, _) => before
    case Retire(_) => before
    case DropLock(_) => if before.NotChecked? then NotChecked else Dropped
    case EnsureLock(_) => if before.Dropped? then Recreated else before
    case _ => NotChecked
  }

  ghost predicate SinceFacts(s: State, n: string, since: Since) {
    s.At(n) == Releasing(NotActive) ==>
      && !since.NotChecked?
      && (since.Untouched? ==> n in s.locks && s.locks[n].state != Active)
      && (since.Dropped? ==> n !in s.locks)
  }

  lemma SinceStep(cfg: Config, s: State, a: Action, n: string, acts: seq<Action>)
    requires PlainFacts(cfg, s, n) && SinceFacts(s, n, SinceCheck(acts, n)) && Enabled(cfg, s, a)
    ensures SinceFacts(Next(cfg, s, a), n, SinceCheck(acts + [a], n))
  {
    assert (acts + [a])[..|acts|] == acts;
    if a.n != n {
      OthersUntouched(cfg, s, a, n);
      hide Next, Enabled, PlainFacts;
    }
  }

  lemma {:induction false} SinceReached(cfg: Config, s: State, acts: seq<Action>, n: string)
    requires Init(cfg, s) && Exec(cfg, s, acts).Some?
    ensures SinceFacts(Exec(cfg, s, acts).value, n, SinceCheck(acts, n))
  {
    if acts != [] {
      var last := |acts| - 1;
      SinceReached(cfg, s, acts[..last], n);
      PlainFactsReached(cfg, s, acts[..last], n);
      SinceStep(cfg, Exec(cfg, s, acts[..last]).value, acts[last], n, acts[..last]);
      assert acts == acts[..last] + [acts[last]];
    }
  }

  /** The handler of a node, since it was last started, asked every service, was accepted by all and
      saw every one of them finish in order; or found that there is no deployment. */
  ghost predicate Served(cfg: Config, calls: seq<Call>) {
    calls == [Deployment(false)] || calls == [Deployment(true)] + Accepted(cfg.services) + AllProcess(cfg.services)
  }

  /** A step that takes a lock out of the active state. */
  ghost predicate Deactivates(cfg: Config, t: State, a: Action, n: string) {
    && Enabled(cfg, t, a)
    && n in t.locks && t.locks[n].state == Active
    && n in Next(cfg, t, a).locks && Next(cfg, t, a).locks[n].state != Active
  }

  lemma OnlyReleaseDeactivates(cfg: Config, t: State, a: Action, n: string)
    requires Deactivates(cfg, t, a, n)
    ensures a == Retire(n) || (a == Release(n) && t.At(n).Releasing?)
  {
  }

  /** Whatever the environment does, a lock leaves the active state only by a node deletion request or
      by its own maintenance handler's release.  At a release the services were served, if there are
      any, exactly when the handler did not take the branch for a lock that is not active; and when it
      did, the lock that it releases was created anew after the handler had looked at the old one. */
  lemma DeactivatedExactly(cfg: Config, s: State, acts: seq<Action>, a: Action, n: string)
    requires Init(cfg, s) && Exec(cfg, s, acts).Some? && Deactivates(cfg, Exec(cfg, s, acts).value, a, n)
    ensures a == Release(n) || a == Retire(n)
    ensures a == Release(n) ==>
            var t := Exec(cfg, s, acts).value;
            && (Served(cfg, Calls(acts, n)) <==> t.At(n) != Releasing(NotActive) || cfg.services == [])
            && (t.At(n) == Releasing(NotActive) ==> Calls(acts, n) == [Deployment(true)] && SinceCheck(acts, n) == Recreated)
  {
    hide Exec, Calls, SinceCheck, Init, Next, Enabled;
    var t := Exec(cfg, s, acts).value;
    CallFactsReached(cfg, s, acts, n);
    SinceReached(cfg, s, acts, n);
    OnlyReleaseDeactivates(cfg, t, a, n);
    assert |Accepted(cfg.services)| == |AllProcess(cfg.services)| == |cfg.services|;
    if t.At(n) == Releasing(NotActive) && Served(cfg, Calls(acts, n)) {
      assert |[Deployment(true)] + Accepted(cfg.services) + AllProcess(cfg.services)| == 1 + 2 * |cfg.services|;
    }
  }

  /** In a steady environment the maintenance handler takes a lock out of the active state only when its
      services were served. */
  lemma DeactivatedOnlyAfterServices(cfg: Config, s: State, acts: seq<Action>, a: Action, n: string)
    requires cfg.steady && Init(cfg, s) && Exec(cfg, s, acts).Some? && Deactivates(cfg, Exec(cfg, s, acts).value, a, n)
    ensures a == Retire(n) || (a == Release(n) && Served(cfg, Calls(acts, n)))
  {
    hide Exec, Calls, SinceCheck, Init, Next, Enabled, Served;
    InvReached(cfg, s, acts);
    assert LockFacts(cfg, Exec(cfg, s, acts).value, n);
    DeactivatedExactly(cfg, s, acts, a, n);
  }

  lemma OnlyClearInnerClears(cfg: Config, t: State, a: Action, n: string)
    requires Enabled(cfg, t, a) && t.InMaintenance(n) && n in Next(cfg, t, a).locks && !Next(cfg, t, a).InMaintenance(n)
    ensures a == ClearInner(n) && t.At(n).Clearing?
  {
  }

  /** An active inner state is cleared only when the delete handler, since it was last started, saw
      every service finish in reverse order; or found the node or the deployment gone. */
  lemma ClearedOnlyAfterServices(cfg: Config, s: State, acts: seq<Action>, a: Action, n: string)
    requires Init(cfg, s) && Exec(cfg, s, acts).Some? && Enabled(cfg, Exec(cfg, s, acts).value, a)
    requires var t := Exec(cfg, s, acts).value;
             t.InMaintenance(n) && n in Next(cfg, t, a).locks && !Next(cfg, t, a).InMaintenance(n)
    ensures a == ClearInner(n)
    ensures || Calls(acts, n) == [NoNode]
            || Calls(acts, n) == [Deployment(false)]
            || Calls(acts, n) == [Deployment(true)] + AllUndo(cfg.services, |cfg.services|)
  {
    hide Exec, Calls, Init, Next, Enabled;
    PlainFactsReached(cfg, s, acts, n);
    CallFactsReached(cfg, s, acts, n);
    OnlyClearInnerClears(cfg, Exec(cfg, s, acts).value, a, n);
  }

  // ---------------------------------------------------------------- why the environment must be steady

  lemma Extend(cfg: Config, s: State, acts: seq<Action>, t: State, a: Action)
    requires Exec(cfg, s, acts) == Some(t) && Enabled(cfg, t, a)
    ensures Exec(cfg, s, acts + [a]) == Some(Next(cfg, t, a))
  {
    assert (acts + [a])[..|acts|] == acts;
  }

  function TwoComputes(roleOfA: set<Role>, locks: map<string, Lock>, a: Position, b: Position): State {
    State(map["a" := roleOfA, "b" := {Compute}], locks, map["a" := a, "b" := b], None)
  }

  /** The handler of node a acquires its lock and reaches the point just before it writes the inner
      state again. */
  lemma HandlerReady(cfg: Config, held: map<string, Lock>) returns (acts: seq<Action>)
    requires cfg.services == [] && held == map["a" := Lock(Active, InProgress, true)]
    ensures Exec(cfg, TwoComputes({Compute}, held, Idle, Idle), acts) == Some(TwoComputes({Compute}, held, Reactivating, Idle))
  {
    hide Exec;
    var s := TwoComputes({Compute}, held, Idle, Idle);
    ExecNone(cfg, s);
    acts := [];
    var t := s;
    var plan := [StartChange("a"), Present("a"), Enter("a"), Mark("a"), Lookup("a", true), CheckActive("a"), AskDone("a")];
    var ends := [Seen, Presented, Marking(true), Held, Deployed, Asking(0, true), Reactivating];
    for i := 0 to 7
      invariant Exec(cfg, s, acts) == Some(t)
      invariant t == TwoComputes({Compute}, held, if i == 0 then Idle else ends[i - 1], Idle).(mutex := if i == 3 then Some("a") else None)
    {
      Extend(cfg, s, acts, t, plan[i]);
      acts, t := acts + [plan[i]], Next(cfg, t, plan[i]);
      assert t.locks == held && t.positions == map["a" := ends[i], "b" := Idle];
    }
  }

  lemma {:induction false} ExecAppend(cfg: Config, s: State, xs: seq<Action>, t: State, ys: seq<Action>)
    requires Exec(cfg, s, xs) == Some(t)
    ensures Exec(cfg, s, xs + ys) == Exec(cfg, t, ys)
  {
    if ys == [] {
      assert xs + ys == xs;
    } else {
      ExecAppend(cfg, s, xs, t, ys[..|ys| - 1]);
      assert (xs + ys)[..|xs + ys| - 1] == xs + ys[..|ys| - 1];
    }
  }

  /** Node a loses its role and then its lock object. */
  lemma NodeLeaves(cfg: Config, held: map<string, Lock>)
    requires held == map["a" := Lock(Active, InProgress, true)]
    ensures Exec(cfg, TwoComputes({Compute}, held, Reactivating, Idle), [NodeIs("a", {}), DropLock("a")]) ==
            Some(TwoComputes({}, map[], Reactivating, Idle))
  {
    hide Exec;
    var s := TwoComputes({Compute}, held, Reactivating, Idle);
    ExecNone(cfg, s);
    var t := TwoComputes({}, held, Reactivating, Idle);
    Extend(cfg, s, [], s, NodeIs("a", {}));
    assert Next(cfg, s, NodeIs("a", {})) == t;
    assert [] + [NodeIs("a", {})] == [NodeIs("a", {})];
    Extend(cfg, s, [NodeIs("a", {})], t, DropLock("a"));
    assert Next(cfg, t, DropLock("a")) == TwoComputes({}, map[], Reactivating, Idle);
    assert [NodeIs("a", {})] + [DropLock("a")] == [NodeIs("a", {}), DropLock("a")];
  }

  /** Node b takes the slot that node a left. */
  lemma OtherNodeAcquires(cfg: Config, last: Lock) returns (acts: seq<Action>)
    requires cfg.maxCompute == 1 && cfg.maxGateway == 1 && last == Lock(Active, InProgress, true)
    ensures Exec(cfg, TwoComputes({}, map[], Reactivating, Idle), acts) == Some(TwoComputes({}, map["b" := last], Reactivating, Held))
  {
    hide Exec;
    var s := TwoComputes({}, map[], Reactivating, Idle);
    ExecNone(cfg, s);
    acts := [];
    var t := s;
    var plan := [StartChange("b"), Present("b"), Enter("b"), ScanLock("b", "b"), ScanDone("b"), Mark("b")];
    var ends := [Seen, Presented, Scanning({"b"}, None, EmptyCount()), Scanning({}, None, EmptyCount()), Marking(false), Held];
    var newLock := map["b" := Lock(Active, Unset, true)];
    assert newLock.Keys == {"b"} && {"b"} - {"b"} == {};
    forall role: Role ensures role in EmptyCount() && |EmptyCount()[role]| < Limit(cfg, role) {
      EveryRoleCounted(role);
    }
    for i := 0 to 6
      invariant Exec(cfg, s, acts) == Some(t)
      invariant t == TwoComputes({}, if i < 2 then map[] else if i < 6 then newLock else map["b" := last], Reactivating,
                                 if i == 0 then Idle else ends[i - 1]).(mutex := if 3 <= i < 6 then Some("b") else None)
    {
      Extend(cfg, s, acts, t, plan[i]);
      acts, t := acts + [plan[i]], Next(cfg, t, plan[i]);
      assert t.positions == map["a" := Reactivating, "b" := ends[i]];
      assert t.locks == if i < 1 then map[] else if i < 5 then newLock else map["b" := last];
    }
  }

  /** Node a gets its role back, and a new lock object. */
  lemma NodeReturns(cfg: Config, hb: map<string, Lock>)
    requires !cfg.steady && hb == map["b" := Lock(Active, InProgress, true)]
    ensures Exec(cfg, TwoComputes({}, hb, Reactivating, Held), [NodeIs("a", {Compute}), EnsureLock("a")]) ==
            Some(TwoComputes({Compute}, hb["a" := Lock(Active, Unset, true)], Reactivating, Held))
  {
    hide Exec;
    var s := TwoComputes({}, hb, Reactivating, Held);
    ExecNone(cfg, s);
    var t := TwoComputes({Compute}, hb, Reactivating, Held);
    Extend(cfg, s, [], s, NodeIs("a", {Compute}));
    assert Next(cfg, s, NodeIs("a", {Compute})) == t;
    assert [] + [NodeIs("a", {Compute})] == [NodeIs("a", {Compute})];
    Extend(cfg, s, [NodeIs("a", {Compute})], t, EnsureLock("a"));
    assert [NodeIs("a", {Compute})] + [EnsureLock("a")] == [NodeIs("a", {Compute}), EnsureLock("a")];
  }

  lemma TooManyAfter(cfg: Config, s: State) returns (t: State)
    requires cfg.maxCompute == 1
    requires s == TwoComputes({Compute}, map["b" := Lock(Active, InProgress, true), "a" := Lock(Active, Unset, true)], Reactivating, Held)
    ensures Enabled(cfg, s, Reactivate("a")) && t == Next(cfg, s, Reactivate("a")) && !Bounded(cfg, t)
  {
    t := Next(cfg, s, Reactivate("a"));
    assert t.Holders(Compute) == {"a", "b"};
    assert |t.Holders(Compute)| == 2;
  }

  lemma MayStart(cfg: Config, s: State)
    requires cfg.maxCompute == cfg.maxGateway == 1
    requires s == TwoComputes({Compute}, map["a" := Lock(Active, InProgress, true)], Idle, Idle)
    ensures Init(cfg, s)
  {
    assert s.Holders(Compute) == {"a"} && s.Holders(Gateway) == {} && s.Holders(Controller) == {};
    forall role: Role ensures |s.Holders(role)| <= Limit(cfg, role) {
      match role case Compute => case Gateway => case Controller =>
    }
  }

  /** The write outside the mutex can put two compute nodes into maintenance where one is allowed,
      although no node ever gains a role while its lock is inner-active: it is enough that a node
      loses and regains its role while its handler is between acquisition and that write. */
  lemma UnsteadyNodeBypassesTheMutex() returns (cfg: Config, s: State, acts: seq<Action>)
    ensures Init(cfg, s) && Exec(cfg, s, acts).Some? && !Bounded(cfg, Exec(cfg, s, acts).value)
  {
    hide Exec, Next, Enabled, Bounded, Init, TwoComputes;
    cfg := Config(1, 1, [], false, false);
    var last := Lock(Active, InProgress, true);
    var held := map["a" := last];
    s := TwoComputes({Compute}, held, Idle, Idle);
    MayStart(cfg, s);
    acts := HandlerReady(cfg, held);
    NodeLeaves(cfg, held);
    ExecAppend(cfg, s, acts, TwoComputes({Compute}, held, Reactivating, Idle), [NodeIs("a", {}), DropLock("a")]);
    acts := acts + [NodeIs("a", {}), DropLock("a")];
    var more := OtherNodeAcquires(cfg, last);
    ExecAppend(cfg, s, acts, TwoComputes({}, map[], Reactivating, Idle), more);
    acts := acts + more;
    NodeReturns(cfg, map["b" := last]);
    ExecAppend(cfg, s, acts, TwoComputes({}, map["b" := last], Reactivating, Held), [NodeIs("a", {Compute}), EnsureLock("a")]);
    acts := acts + [NodeIs("a", {Compute}), EnsureLock("a")];
    var u := TwoComputes({Compute}, map["b" := last]["a" := Lock(Active, Unset, true)], Reactivating, Held);
    var v := TooManyAfter(cfg, u);
    Extend(cfg, s, acts, u, Reactivate("a"));
    acts := acts + [Reactivate("a")];
  }

  function OneCompute(roles: set<Role>, locks: map<string, Lock>, a: Position): State {
    State(map["a" := roles], locks, map["a" := a], None)
  }

  const RENEWAL := [NodeIs("a", {}), DropLock("a"), NodeIs("a", {Compute}), EnsureLock("a")]

  function Renewing(old_: map<string, Lock>, i: nat): State {
    OneCompute(if i == 0 || i >= 3 then {Compute} else {},
               if i < 2 then old_ else if i < 4 then map[] else map["a" := Lock(Active, Unset, true)],
               Releasing(NotActive))
  }

  lemma RenewingStep(cfg: Config, old_: map<string, Lock>, i: nat)
    requires !cfg.steady && old_ == map["a" := Lock(Inactive, InProgress, true)] && i < 4
    ensures Enabled(cfg, Renewing(old_, i), RENEWAL[i])
    ensures Next(cfg, Renewing(old_, i), RENEWAL[i]) == Renewing(old_, i + 1)
  {
  }

  /** Node a loses its role and its lock, and gets the role back with a new lock, while its handler is
      about to release the old one. */
  lemma LockIsRenewed(cfg: Config, old_: map<string, Lock>)
    requires !cfg.steady && old_ == map["a" := Lock(Inactive, InProgress, true)]
    ensures Exec(cfg, OneCompute({Compute}, old_, Releasing(NotActive)), RENEWAL) ==
            Some(OneCompute({Compute}, map["a" := Lock(Active, Unset, true)], Releasing(NotActive)))
  {
    hide Exec, Enabled, Next;
    var s := Renewing(old_, 0);
    ExecNone(cfg, s);
    for i := 0 to 4
      invariant Exec(cfg, s, RENEWAL[..i]) == Some(Renewing(old_, i))
    {
      RenewingStep(cfg, old_, i);
      Extend(cfg, s, RENEWAL[..i], Renewing(old_, i), RENEWAL[i]);
      assert RENEWAL[..i + 1] == RENEWAL[..i] + [RENEWAL[i]];
    }
    assert RENEWAL[..4] == RENEWAL;
  }

  /** The handler of node a, restarted with its lock released already, finds it not active. */
  lemma HandlerFindsReleased(cfg: Config, old_: map<string, Lock>) returns (acts: seq<Action>)
    requires old_ == map["a" := Lock(Inactive, InProgress, true)]
    ensures Exec(cfg, OneCompute({Compute}, old_, Idle), acts) == Some(OneCompute({Compute}, old_, Releasing(NotActive)))
  {
    hide Exec;
    var s := OneCompute({Compute}, old_, Idle);
    ExecNone(cfg, s);
    acts := [];
    var t := s;
    var plan := [StartChange("a"), Present("a"), Enter("a"), Mark("a"), Lookup("a", true), CheckActive("a")];
    var ends := [Seen, Presented, Marking(true), Held, Deployed, Releasing(NotActive)];
    for i := 0 to 6
      invariant Exec(cfg, s, acts) == Some(t)
      invariant t == OneCompute({Compute}, old_, if i == 0 then Idle else ends[i - 1]).(mutex := if i == 3 then Some("a") else None)
    {
      Extend(cfg, s, acts, t, plan[i]);
      acts, t := acts + [plan[i]], Next(cfg, t, plan[i]);
      assert t.locks == old_ && t.positions == map["a" := ends[i]];
    }
  }

  /** Without a steady environment an active lock can be released with no service asked: the handler
      releases a lock created after it had looked at the old one. No node gains a role while its lock
      is inner-active, as in every run. */
  lemma RenewedLockIsReleasedUnserved(cfg: Config) returns (s: State, acts: seq<Action>)
    requires !cfg.steady && cfg.services != [] && cfg.maxCompute >= 1 && cfg.maxGateway >= 0
    ensures Init(cfg, s) && Exec(cfg, s, acts).Some?
    ensures Deactivates(cfg, Exec(cfg, s, acts).value, Release("a"), "a") && !Served(cfg, Calls(acts, "a"))
  {
    var old_ := map["a" := Lock(Inactive, InProgress, true)];
    s := OneCompute({Compute}, old_, Idle);
    OneMayStart(cfg, s);
    var first := HandlerFindsReleased(cfg, old_);
    LockIsRenewed(cfg, old_);
    ExecAppend(cfg, s, first, OneCompute({Compute}, old_, Releasing(NotActive)), RENEWAL);
    acts := first + RENEWAL;
    hide Exec, Calls, Init, Served;
    assert Deactivates(cfg, Exec(cfg, s, acts).value, Release("a"), "a");
    DeactivatedExactly(cfg, s, acts, Release("a"), "a");
  }

  lemma OneMayStart(cfg: Config, s: State)
    requires cfg.maxCompute >= 1 && cfg.maxGateway >= 0
    requires s == OneCompute({Compute}, map["a" := Lock(Inactive, InProgress, true)], Idle)
    ensures Init(cfg, s)
  {
    assert s.Holders(Compute) == {"a"} && s.Holders(Gateway) == {} && s.Holders(Controller) == {};
    forall role: Role ensures |s.Holders(role)| <= Limit(cfg, role) {
      match role case Compute => case Gateway => case Controller =>
    }
  }
}
