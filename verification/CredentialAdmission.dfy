/**
 The admission check of credential updates, and what it gives the rotation: the ids that reach
 rotate() never fall behind the priorities already written.
 */
module CredentialAdmission {
  import opened JsonTree
  import opened SecretRotation
  import opened Wrappers

  /** status.credentials in its order; a group need not carry a rotation_id. */
  datatype Group = Group(name: string, id: Option<int>)

  type Credentials = seq<Group>

  datatype Verdict = Accepted | Locked | Removed(group: string) | NotPositive(group: string) | Decreased(group: string) | Skipped(group: string)

  /** get_in(credentials, [name, "rotation_id"], 0) */
  function IdOf(creds: Credentials, name: string): int {
    if creds == [] then 0
    else if creds[0].name == name then (if creds[0].id.Some? then creds[0].id.value else 0)
    else IdOf(creds[1..], name)
  }

  /** The loop over the old groups; None means it ran to its end. */
  function OldGroups(todo: Credentials, new_: Credentials): Option<Verdict> {
    if todo == [] then None
    else if todo[0].id.None? then Some(Accepted)
    else if IdOf(new_, todo[0].name) == 0 then Some(Removed(todo[0].name))
    else OldGroups(todo[1..], new_)
  }

  /** The loop over the new groups. */
  function NewGroups(todo: Credentials, old_: Credentials): Verdict {
    if todo == [] || todo[0].id.None? then Accepted else
    var g, was, is_ := todo[0].name, IdOf(old_, todo[0].name), todo[0].id.value;
    if is_ <= 0 then NotPositive(g)
    else if was > is_ then Decreased(g)
    else if is_ - was > 1 then Skipped(g)
    else NewGroups(todo[1..], old_)
  }

  /** Equality of dicts, whatever their order. */
  predicate Same(a: Credentials, b: Credentials) {
    (forall g :: g in a ==> g in b) && (forall g :: g in b ==> g in a)
  }

  function Validate(old_: Credentials, new_: Credentials, locked: bool): Verdict {
    if Same(new_, old_) then Accepted
    else if locked then Locked
    else match OldGroups(old_, new_)
      case Some(v) => v
      case None => NewGroups(new_, old_)
  }

  predicate AllCarryId(creds: Credentials) {
    forall i :: 0 <= i < |creds| ==> creds[i].id.Some?
  }

  predicate Distinct(creds: Credentials) {
    forall i, j :: 0 <= i < j < |creds| ==> creds[i].name != creds[j].name
  }

  lemma {:induction false} IdOfAt(creds: Credentials, i: nat)
    requires i < |creds| && Distinct(creds)
    ensures IdOf(creds, creds[i].name) == if creds[i].id.Some? then creds[i].id.value else 0
  {
    if i > 0 {
      IdOfAt(creds[1..], i - 1);
    }
  }

  lemma {:induction false} IdOfAbsent(creds: Credentials, name: string)
    requires forall i :: 0 <= i < |creds| ==> creds[i].name != name
    ensures IdOf(creds, name) == 0
  {
    if creds != [] {
      IdOfAbsent(creds[1..], name);
    }
  }

  /** How many groups come before the first one without an id. */
  function Checked(creds: Credentials): (k: nat)
    ensures k <= |creds| && forall i :: 0 <= i < k ==> creds[i].id.Some?
    ensures k < |creds| ==> creds[k].id.None?
  {
    if creds == [] || creds[0].id.None? then 0 else 1 + Checked(creds[1..])
  }

  lemma {:induction false} OldGroupsMeans(todo: Credentials, new_: Credentials)
    ensures OldGroups(todo, new_) in {None, Some(Accepted)} <==> forall i :: 0 <= i < Checked(todo) ==> IdOf(new_, todo[i].name) != 0
    ensures OldGroups(todo, new_).None? <==> Checked(todo) == |todo| && forall i :: 0 <= i < |todo| ==> IdOf(new_, todo[i].name) != 0
  {
    if todo != [] {
      OldGroupsMeans(todo[1..], new_);
      assert forall i :: 1 <= i < |todo| ==> todo[i] == todo[1..][i - 1];
    }
  }

  predicate GoodStep(old_: Credentials, g: Group) {
    g.id.Some? && g.id.value > 0 && IdOf(old_, g.name) <= g.id.value <= IdOf(old_, g.name) + 1
  }

  lemma {:induction false} NewGroupsMeans(todo: Credentials, old_: Credentials)
    ensures NewGroups(todo, old_) == Accepted <==> forall i :: 0 <= i < Checked(todo) ==> GoodStep(old_, todo[i])
  {
    if todo != [] {
      NewGroupsMeans(todo[1..], old_);
      assert forall i :: 1 <= i < |todo| ==> todo[i] == todo[1..][i - 1];
    }
  }

  /** An update is accepted exactly when nothing changes, or nothing is in progress, no group is
      removed, and each id is positive and grows by at most one; but groups are looked at only up to
      the first one without an id, and the new ones only if every old one has an id. */
  lemma AcceptedExactly(old_: Credentials, new_: Credentials, locked: bool)
    ensures Validate(old_, new_, locked) == Accepted <==>
            Same(new_, old_) || (!locked
              && (forall i :: 0 <= i < Checked(old_) ==> IdOf(new_, old_[i].name) != 0)
              && (AllCarryId(old_) ==> forall i :: 0 <= i < Checked(new_) ==> GoodStep(old_, new_[i])))
  {
    OldGroupsMeans(old_, new_);
    NewGroupsMeans(new_, old_);
  }

  /** The first group of the old credentials that is checked and is not in the new ones. */
  predicate FirstRemoved(old_: Credentials, new_: Credentials, i: int) {
    0 <= i < Checked(old_) && IdOf(new_, old_[i].name) == 0 && forall j :: 0 <= j < i ==> IdOf(new_, old_[j].name) != 0
  }

  /** The first group of the new credentials that is checked and is no good step. */
  predicate FirstBad(old_: Credentials, new_: Credentials, i: int) {
    0 <= i < Checked(new_) && !GoodStep(old_, new_[i]) && forall j :: 0 <= j < i ==> GoodStep(old_, new_[j])
  }

  /** Why the group is refused: the id is not positive, or lower than before, or more than one higher. */
  function Reason(old_: Credentials, g: Group): Verdict
    requires g.id.Some?
  {
    if g.id.value <= 0 then NotPositive(g.name)
    else if g.id.value < IdOf(old_, g.name) then Decreased(g.name)
    else Skipped(g.name)
  }

  lemma {:induction false} OldVerdict(old_: Credentials, new_: Credentials)
    ensures match OldGroups(old_, new_)
            case Some(Removed(g)) => exists i :: FirstRemoved(old_, new_, i) && old_[i].name == g
            case Some(v) => v == Accepted && !AllCarryId(old_) && forall i :: !FirstRemoved(old_, new_, i)
            case None => AllCarryId(old_) && forall i :: !FirstRemoved(old_, new_, i)
  {
    if old_ != [] && old_[0].id.Some? {
      if IdOf(new_, old_[0].name) == 0 {
        assert FirstRemoved(old_, new_, 0);
      } else {
        var rest := old_[1..];
        OldVerdict(rest, new_);
        assert forall i :: 1 <= i < |old_| ==> old_[i] == rest[i - 1];
        if i :| FirstRemoved(rest, new_, i) {
          assert FirstRemoved(old_, new_, i + 1);
        }
        if i :| FirstRemoved(old_, new_, i) {
          assert FirstRemoved(rest, new_, i - 1);
        }
      }
    }
  }

  lemma {:induction false} NewVerdict(new_: Credentials, old_: Credentials)
    ensures match NewGroups(new_, old_)
            case Accepted => forall i :: !FirstBad(old_, new_, i)
            case v => exists i :: FirstBad(old_, new_, i) && v == Reason(old_, new_[i])
  {
    if new_ != [] && new_[0].id.Some? {
      if !GoodStep(old_, new_[0]) {
        assert FirstBad(old_, new_, 0);
      } else {
        var rest := new_[1..];
        NewVerdict(rest, old_);
        assert forall i :: 1 <= i < |new_| ==> new_[i] == rest[i - 1];
        if NewGroups(rest, old_) != Accepted {
          var i :| FirstBad(old_, rest, i) && NewGroups(rest, old_) == Reason(old_, rest[i]);
          assert FirstBad(old_, new_, i + 1);
        }
        if i :| FirstBad(old_, new_, i) {
          assert FirstBad(old_, rest, i - 1);
        }
      }
    }
  }

  lemma FirstIsOne(old_: Credentials, new_: Credentials, i: int, j: int)
    ensures FirstRemoved(old_, new_, i) && FirstRemoved(old_, new_, j) ==> i == j
    ensures FirstBad(old_, new_, i) && FirstBad(old_, new_, j) ==> i == j
  {
  }

  /** Which refusal is given: a locked one first, then the first removed group, then the first bad step
      with its reason. */
  lemma RefusedExactly(old_: Credentials, new_: Credentials, locked: bool)
    ensures var v := Validate(old_, new_, locked);
            && (v == Locked <==> locked && !Same(new_, old_))
            && (forall i :: !locked && !Same(new_, old_) && FirstRemoved(old_, new_, i) ==> v == Removed(old_[i].name))
            && (forall i :: !locked && !Same(new_, old_) && (forall j :: !FirstRemoved(old_, new_, j)) && AllCarryId(old_) && FirstBad(old_, new_, i)
                  ==> v == Reason(old_, new_[i]))
  {
    OldVerdict(old_, new_);
    NewVerdict(new_, old_);
    forall i, j | FirstRemoved(old_, new_, i) && FirstRemoved(old_, new_, j) ensures i == j {
      FirstIsOne(old_, new_, i, j);
    }
    forall i, j | FirstBad(old_, new_, i) && FirstBad(old_, new_, j) ensures i == j {
      FirstIsOne(old_, new_, i, j);
    }
  }

  /** A single group without an id switches the check off for the groups after it: ids may fall. */
  lemma GroupWithoutIdEndsTheCheck(id: int, lower: int)
    requires lower < id
    ensures Validate([Group("other", None), Group("service", Some(id))], [Group("other", None), Group("service", Some(lower))], false) == Accepted
  {
  }

  lemma SameIds(a: Credentials, b: Credentials, name: string)
    requires Same(a, b) && Distinct(a) && Distinct(b)
    ensures IdOf(a, name) == IdOf(b, name)
  {
    if i :| 0 <= i < |a| && a[i].name == name {
      assert a[i] in b;
      var j :| 0 <= j < |b| && b[j] == a[i];
      IdOfAt(a, i);
      IdOfAt(b, j);
    } else {
      forall j | 0 <= j < |b| ensures b[j].name != name {
        assert b[j] in a;
      }
      IdOfAbsent(a, name);
      IdOfAbsent(b, name);
    }
  }

  /** With ids everywhere, an accepted update lowers no group's id, not even by leaving it out. */
  lemma AcceptedNeverLowers(old_: Credentials, new_: Credentials, locked: bool, name: string)
    requires AllCarryId(old_) && AllCarryId(new_) && Distinct(old_) && Distinct(new_)
    requires forall i :: 0 <= i < |old_| ==> old_[i].id.value > 0
    requires Validate(old_, new_, locked) == Accepted
    ensures IdOf(old_, name) <= IdOf(new_, name) <= IdOf(old_, name) + 1
    ensures forall i :: 0 <= i < |new_| ==> new_[i].id.value > 0
  {
    AcceptedExactly(old_, new_, locked);
    assert Checked(new_) == |new_| && Checked(old_) == |old_|;
    if Same(new_, old_) {
      SameIds(new_, old_, name);
      assert forall i :: 0 <= i < |new_| ==> new_[i] in new_;
      assert forall g :: g in old_ ==> g.id.value > 0;
    } else {
      assert forall i :: 0 <= i < |new_| ==> GoodStep(old_, new_[i]);
      if i :| 0 <= i < |new_| && new_[i].name == name {
        IdOfAt(new_, i);
      } else {
        IdOfAbsent(new_, name);
        if forall i :: 0 <= i < |old_| ==> old_[i].name != name {
          IdOfAbsent(old_, name);
        }
      }
    }
  }

  /** A value below both the old id and zero: admission looks at it only where it checks steps. */
  function Lower(id: int): int {
    if id < 0 then id - 1 else -1
  }

  lemma LowerAccepted(old_: Credentials, new_: Credentials, i: nat)
    requires Distinct(old_) && Distinct(new_) && i < |new_| && new_[i].id.Some?
    requires forall k :: 0 <= k < |old_| && old_[k].id.Some? ==> old_[k].id.value > 0
    requires Validate(old_, new_, false) == Accepted
    requires !(AllCarryId(old_) && i < Checked(new_)) && IdOf(old_, new_[i].name) >= 0
    ensures var v := Lower(IdOf(old_, new_[i].name));
            v < IdOf(old_, new_[i].name) && Validate(old_, new_[i := Group(new_[i].name, Some(v))], false) == Accepted
  {
    var name := new_[i].name;
    var v := Lower(IdOf(old_, name));
    var next := new_[i := Group(name, Some(v))];
    AcceptedExactly(old_, new_, false);
    AcceptedExactly(old_, next, false);
    SameChecked(new_, next, i);
    forall k | 0 <= k < Checked(old_) ensures IdOf(next, old_[k].name) != 0 {
      IdOfAt(old_, k);
      IdOfChanged(new_, i, v, old_[k].name);
      if Same(new_, old_) {
        SameIds(new_, old_, old_[k].name);
      }
    }
    if AllCarryId(old_) {
      forall k | 0 <= k < Checked(next) ensures GoodStep(old_, next[k]) {
        assert next[k] == new_[k];
        if Same(new_, old_) {
          assert new_[k] in old_;
          IdOfAt(new_, k);
          SameIds(new_, old_, new_[k].name);
        }
      }
    }
  }

  lemma {:induction false} SameChecked(a: Credentials, b: Credentials, i: nat)
    requires i < |a| == |b| && a[i].id.Some? && b == a[i := b[i]] && b[i].id.Some?
    ensures Checked(a) == Checked(b)
  {
    if i > 0 && a[0].id.Some? {
      SameChecked(a[1..], b[1..], i - 1);
    } else if i == 0 {
      assert a[1..] == b[1..];
    }
  }

  lemma {:induction false} IdOfChanged(creds: Credentials, i: nat, v: int, name: string)
    requires Distinct(creds) && i < |creds|
    ensures IdOf(creds[i := Group(creds[i].name, Some(v))], name) == if name == creds[i].name then v else IdOf(creds, name)
  {
    var next := creds[i := Group(creds[i].name, Some(v))];
    if name == creds[i].name {
      IdOfAt(next, i);
    } else if i == 0 {
      assert next[1..] == creds[1..];
    } else {
      assert next[1..] == creds[1..][i - 1 := Group(creds[i].name, Some(v))];
      IdOfChanged(creds[1..], i - 1, v, name);
    }
  }

  /** Where ids can fall: given an accepted update, no other value for the id of its group i would be
      accepted that lowers the group's id, exactly if every old group carries an id and so does every
      new group up to the i-th. */
  lemma LoweringExactly(old_: Credentials, new_: Credentials, i: nat)
    requires Distinct(old_) && Distinct(new_) && i < |new_| && new_[i].id.Some?
    requires forall k :: 0 <= k < |old_| && old_[k].id.Some? ==> old_[k].id.value > 0
    requires Validate(old_, new_, false) == Accepted
    ensures (forall v :: Validate(old_, new_[i := Group(new_[i].name, Some(v))], false) == Accepted ==> IdOf(old_, new_[i].name) <= v)
            <==> AllCarryId(old_) && forall k :: 0 <= k <= i ==> new_[k].id.Some?
  {
    var name := new_[i].name;
    assert i < Checked(new_) <==> forall k :: 0 <= k <= i ==> new_[k].id.Some?;
    if AllCarryId(old_) && i < Checked(new_) {
      forall v | Validate(old_, new_[i := Group(name, Some(v))], false) == Accepted ensures IdOf(old_, name) <= v {
        var next := new_[i := Group(name, Some(v))];
        AcceptedExactly(old_, next, false);
        SameChecked(new_, next, i);
        if Same(next, old_) {
          IdOfAt(next, i);
          SameIds(next, old_, name);
        } else {
          assert GoodStep(old_, next[i]);
        }
      }
    } else {
      IdNotNegative(old_, name);
      LowerAccepted(old_, new_, i);
    }
  }

  /** Some accepted update leaves the group out, or out of it the id. */
  ghost predicate MayVanish(old_: Credentials, name: string) {
    exists new_ :: Distinct(new_) && Validate(old_, new_, false) == Accepted && IdOf(new_, name) == 0
  }

  /** The other way for an id to fall: an accepted update can leave a group out, or its id, exactly if
      an earlier group of the old credentials has no id. */
  lemma VanishesExactly(old_: Credentials, i: nat)
    requires Distinct(old_) && i < |old_| && old_[i].id.Some?
    requires forall k :: 0 <= k < |old_| && old_[k].id.Some? ==> old_[k].id.value > 0
    ensures MayVanish(old_, old_[i].name) <==> exists k :: 0 <= k < i && old_[k].id.None?
  {
    var name := old_[i].name;
    assert Checked(old_) <= i <==> exists k :: 0 <= k < i && old_[k].id.None?;
    if Checked(old_) <= i {
      var new_ := old_[..i] + old_[i + 1..];
      assert forall k :: 0 <= k < |new_| ==> new_[k] == old_[if k < i then k else k + 1];
      IdOfAbsent(new_, name);
      forall k | 0 <= k < Checked(old_) ensures IdOf(new_, old_[k].name) != 0 {
        IdOfAt(new_, k);
      }
      AcceptedExactly(old_, new_, false);
    }
    if MayVanish(old_, name) {
      var new_ :| Distinct(new_) && Validate(old_, new_, false) == Accepted && IdOf(new_, name) == 0;
      AcceptedExactly(old_, new_, false);
      if Same(new_, old_) {
        SameIds(new_, old_, name);
        IdOfAt(old_, i);
      }
    }
  }

  lemma {:induction false} IdNotNegative(creds: Credentials, name: string)
    requires forall k :: 0 <= k < |creds| && creds[k].id.Some? ==> creds[k].id.value > 0
    ensures IdOf(creds, name) >= 0
  {
    if creds != [] {
      assert forall k :: 0 <= k < |creds| - 1 ==> creds[1..][k] == creds[k + 1];
      IdNotNegative(creds[1..], name);
    }
  }

  // ---------------------------------------------------------------- the rotation never gets a stale id

  /** A secret belongs to a group; `handled` is the last id the handler worked on for the group. */
  datatype System = System(creds: Credentials, handled: map<string, int>, groupOf: map<string, string>, pairs: map<string, Pair>, stores: map<string, Store>)

  datatype Event =
    | Update(creds: Credentials, locked: bool)
    | RotateSecret(secret: string, id: int, created: Json, crash: Crash)
    | NewSecret(secret: string, group: string, pair: Pair, first: Json, second: Json)
    | ChangeSecret(secret: string, step: Step)

  function Handled(sys: System, group: string): int {
    if group in sys.handled then sys.handled[group] else 0
  }

  /** Updates are those that admission accepts, with an id in every group.  Ids are handled in order:
      not before the last handled one, not after the current one. */
  predicate Possible(sys: System, e: Event) {
    match e
    case Update(creds, locked) => AllCarryId(creds) && Distinct(creds) && Validate(sys.creds, creds, locked) == Accepted
    case RotateSecret(secret, id, _, _) =>
      && secret in sys.stores && secret in sys.groupOf && secret in sys.pairs
      && 0 < id && Handled(sys, sys.groupOf[secret]) <= id <= IdOf(sys.creds, sys.groupOf[secret])
    case NewSecret(secret, group, pair, _, _) => secret !in sys.stores && pair.n0 != pair.n1
    case ChangeSecret(secret, step) => secret in sys.stores && secret in sys.pairs && !step.Rotate?
  }

  function Occur(sys: System, e: Event): System
    requires Possible(sys, e)
  {
    match e
    case Update(creds, _) => sys.(creds := creds)
    case RotateSecret(secret, id, created, crash) =>
      sys.(handled := sys.handled[sys.groupOf[secret] := id],
           stores := sys.stores[secret := Attempt(sys.stores[secret], sys.pairs[secret], id, created, crash).1])
    case NewSecret(secret, group, pair, first, second) =>
      sys.(groupOf := sys.groupOf[secret := group], pairs := sys.pairs[secret := pair],
           stores := sys.stores[secret := map[pair.n0 := Secret(0, first), pair.n1 := Secret(0, second)]])
    case ChangeSecret(secret, step) => sys.(stores := sys.stores[secret := Take(sys.stores[secret], sys.pairs[secret], step)])
  }

  /** The system after a history, if every event of it was possible when it occurred. */
  function History(start: System, events: seq<Event>): Option<System> {
    if events == [] then Some(start) else
    match History(start, events[..|events| - 1])
    case None => None
    case Some(sys) => if Possible(sys, events[|events| - 1]) then Some(Occur(sys, events[|events| - 1])) else None
  }

  /** A new deployment. */
  predicate Fresh(sys: System) {
    sys.creds == [] && sys.handled == map[] && sys.stores == map[] && sys.groupOf == map[] && sys.pairs == map[]
  }

  ghost predicate NoneAbove(store: Store, p: Pair, id: int) {
    (p.n0 in store ==> store[p.n0].priority <= id) && (p.n1 in store ==> store[p.n1].priority <= id)
  }

  ghost predicate SecretInv(sys: System, secret: string) {
    && secret in sys.groupOf && secret in sys.pairs && secret in sys.stores
    && var (p, store) := (sys.pairs[secret], sys.stores[secret]);
    && PairOk(store, p.n0, p.n1)
    && NoneAbove(store, p, Handled(sys, sys.groupOf[secret]))
  }

  ghost predicate SystemInv(sys: System) {
    && AllCarryId(sys.creds) && Distinct(sys.creds) && (forall i :: 0 <= i < |sys.creds| ==> sys.creds[i].id.value > 0)
    && (forall g :: 0 <= Handled(sys, g) <= IdOf(sys.creds, g))
    && (forall secret :: secret in sys.stores ==> SecretInv(sys, secret))
  }

  /** rotate() with an id no lower than the priorities of a pair: it never finds a greater one, leaves
      none greater, and finds no pair exactly if one of the two secrets is missing. */
  lemma AttemptWithinId(store: Store, p: Pair, id: int, created: Json, crash: Crash)
    requires PairOk(store, p.n0, p.n1) && NoneAbove(store, p, id)
    ensures var (o, next) := Attempt(store, p, id, created, crash);
            && o != GreaterId && (o == NotAPair <==> p.n0 !in store || p.n1 !in store)
            && PairOk(next, p.n0, p.n1) && NoneAbove(next, p, id)
  {
    PairOkStep(store, p, Rotate(id, created, crash));
    if p.n0 in store && p.n1 in store {
      OrderedSorted(store, p.n0, p.n1);
    } else {
      LonelySorted(store, p.n0, p.n1);
    }
  }

  lemma UpdateKeeps(sys: System, creds: Credentials, locked: bool)
    requires SystemInv(sys) && Possible(sys, Update(creds, locked))
    ensures SystemInv(Occur(sys, Update(creds, locked)))
  {
    var next := Occur(sys, Update(creds, locked));
    forall g ensures 0 <= Handled(next, g) <= IdOf(next.creds, g) {
      AcceptedNeverLowers(sys.creds, creds, locked, g);
    }
    AcceptedNeverLowers(sys.creds, creds, locked, "");
    hide Validate, PairOk;
    forall s | s in next.stores ensures SecretInv(next, s) {
      assert SecretInv(sys, s);
    }
  }

  lemma NoneAboveMore(store: Store, p: Pair, id: int, more: int)
    requires NoneAbove(store, p, id) && id <= more
    ensures NoneAbove(store, p, more)
  {
  }

  lemma ChangeKeeps(sys: System, secret: string, step: Step)
    requires SystemInv(sys) && Possible(sys, ChangeSecret(secret, step))
    ensures SystemInv(Occur(sys, ChangeSecret(secret, step)))
  {
    var next := Occur(sys, ChangeSecret(secret, step));
    assert SecretInv(sys, secret);
    PairOkStep(sys.stores[secret], sys.pairs[secret], step);
    assert forall g :: Handled(next, g) == Handled(sys, g);
    forall s | s in next.stores ensures SecretInv(next, s) {
      assert SecretInv(sys, s);
    }
  }

  lemma RotateKeeps(sys: System, secret: string, id: int, created: Json, crash: Crash)
    requires SystemInv(sys) && Possible(sys, RotateSecret(secret, id, created, crash))
    ensures SystemInv(Occur(sys, RotateSecret(secret, id, created, crash)))
  {
    hide Attempt, PairOk, NoneAbove;
    var next := Occur(sys, RotateSecret(secret, id, created, crash));
    var group := sys.groupOf[secret];
    assert SecretInv(sys, secret);
    NoneAboveMore(sys.stores[secret], sys.pairs[secret], Handled(sys, group), id);
    AttemptWithinId(sys.stores[secret], sys.pairs[secret], id, created, crash);
    assert forall g :: Handled(next, g) == if g == group then id else Handled(sys, g);
    forall s | s in next.stores ensures SecretInv(next, s) {
      assert s in sys.stores && SecretInv(sys, s);
      NoneAboveMore(sys.stores[s], sys.pairs[s], Handled(sys, next.groupOf[s]), Handled(next, next.groupOf[s]));
    }
  }

  lemma NewSecretKeeps(sys: System, secret: string, group: string, pair: Pair, first: Json, second: Json)
    requires SystemInv(sys) && Possible(sys, NewSecret(secret, group, pair, first, second))
    ensures SystemInv(Occur(sys, NewSecret(secret, group, pair, first, second)))
  {
    var next := Occur(sys, NewSecret(secret, group, pair, first, second));
    forall s | s in next.stores ensures SecretInv(next, s) {
      if s == secret {
        assert next.stores[s].Keys == {pair.n0, pair.n1};
        assert Handled(next, group) == Handled(sys, group);
      } else {
        assert SecretInv(sys, s);
      }
    }
    assert forall g :: Handled(next, g) == Handled(sys, g);
  }

  lemma {:induction false} SystemInvReached(start: System, events: seq<Event>)
    requires Fresh(start) && History(start, events).Some?
    ensures SystemInv(History(start, events).value)
  {
    if events != [] {
      var last := |events| - 1;
      SystemInvReached(start, events[..last]);
      var mid := History(start, events[..last]).value;
      match events[last] {
        case Update(creds, locked) => UpdateKeeps(mid, creds, locked);
        case RotateSecret(secret, id, created, crash) => RotateKeeps(mid, secret, id, created, crash);
        case NewSecret(secret, group, pair, first, second) => NewSecretKeeps(mid, secret, group, pair, first, second);
        case ChangeSecret(secret, step) => ChangeKeeps(mid, secret, step);
      }
    } else {
      assert forall g :: Handled(start, g) == 0;
    }
  }

  /** Over the whole history of a deployment, deletions, re-creations and edits of secrets included, no
      priority exceeds the rotation id of its group; and no rotation that may come next ends in the
      "greater rotation_id" error, or finds no pair unless a secret is missing. */
  lemma NeverGreaterThanRequested(start: System, events: seq<Event>, sys: System, secret: string)
    requires Fresh(start) && History(start, events) == Some(sys) && secret in sys.stores
    ensures secret in sys.groupOf && secret in sys.pairs
    ensures NoneAbove(sys.stores[secret], sys.pairs[secret], IdOf(sys.creds, sys.groupOf[secret]))
    ensures forall id, created, crash :: Possible(sys, RotateSecret(secret, id, created, crash)) ==>
              var o := Attempt(sys.stores[secret], sys.pairs[secret], id, created, crash).0;
              o != GreaterId && (o == NotAPair <==> sys.pairs[secret].n0 !in sys.stores[secret] || sys.pairs[secret].n1 !in sys.stores[secret])
  {
    SystemInvReached(start, events);
    assert SecretInv(sys, secret);
    var group := sys.groupOf[secret];
    assert Handled(sys, group) <= IdOf(sys.creds, group);
    NoneAboveMore(sys.stores[secret], sys.pairs[secret], Handled(sys, group), IdOf(sys.creds, group));
    forall id, created, crash | Possible(sys, RotateSecret(secret, id, created, crash))
      ensures var o := Attempt(sys.stores[secret], sys.pairs[secret], id, created, crash).0;
              o != GreaterId && (o == NotAPair <==> sys.pairs[secret].n0 !in sys.stores[secret] || sys.pairs[secret].n1 !in sys.stores[secret])
    {
      NoneAboveMore(sys.stores[secret], sys.pairs[secret], Handled(sys, group), id);
      AttemptWithinId(sys.stores[secret], sys.pairs[secret], id, created, crash);
    }
  }

  ghost predicate BothThere(sys: System) {
    forall s :: s in sys.stores ==> s in sys.pairs && sys.pairs[s].n0 in sys.stores[s] && sys.pairs[s].n1 in sys.stores[s]
  }

  /** As long as nobody deletes a secret, every pair is complete. */
  lemma {:induction false} PairsComplete(start: System, events: seq<Event>)
    requires Fresh(start) && History(start, events).Some?
    requires forall i :: 0 <= i < |events| ==> !(events[i].ChangeSecret? && events[i].step.Delete?)
    ensures BothThere(History(start, events).value)
  {
    if events != [] {
      var last := |events| - 1;
      PairsComplete(start, events[..last]);
      var mid := History(start, events[..last]).value;
      assert !(events[last].ChangeSecret? && events[last].step.Delete?);
      OccurKeepsBoth(mid, events[last]);
    }
  }

  lemma OccurKeepsBoth(sys: System, e: Event)
    requires BothThere(sys) && Possible(sys, e) && !(e.ChangeSecret? && e.step.Delete?)
    ensures BothThere(Occur(sys, e))
  {
    hide Attempt, Validate;
    if e.RotateSecret? {
      AttemptKeys(sys.stores[e.secret], sys.pairs[e.secret], e.id, e.created, e.crash);
    }
  }
}
