/**
 Rotation of an active/backup pair of secrets.  The pair is ordered by a priority annotation; a
 rotation rewrites the backup and then raises its priority, and may die between the two writes.
 */
module SecretRotation {
  import opened JsonTree
  import opened SecretFill
  import opened SortedKeys
  import opened Wrappers

  /** A stored secret; priority 0 stands for no annotation. */
  datatype Secret = Secret(priority: int, data: Json)

  type Store = map<string, Secret>

  // ---------------------------------------------------------------- get_secrets_sorted

  /** res_map: of two names with one priority the later is kept. */
  function ByPriority(store: Store, names: seq<string>): map<int, string> {
    if names == [] then map[] else
    var last := |names| - 1;
    var m := ByPriority(store, names[..last]);
    if names[last] in store && store[names[last]].priority != 0 then m[store[names[last]].priority := names[last]] else m
  }

  function NoPriority(store: Store, names: seq<string>): seq<string> {
    if names == [] then [] else
    var last := |names| - 1;
    var m := NoPriority(store, names[..last]);
    if names[last] in store && store[names[last]].priority == 0 then m + [names[last]] else m
  }

  function Names(m: map<int, string>, order: seq<int>): seq<string>
    requires forall i :: 0 <= i < |order| ==> order[i] in m
  {
    if order == [] then [] else [m[order[0]]] + Names(m, order[1..])
  }

  function Sorted(store: Store, names: seq<string>): seq<string> {
    var m := ByPriority(store, names);
    Names(m, Descending(m.Keys)) + NoPriority(store, names)
  }

  method GetSecretsSorted(store: Store, names: seq<string>) returns (res: seq<string>)
    ensures res == Sorted(store, names)
  {
    var resMap: map<int, string> := map[];
    var noPriority: seq<string> := [];
    for i := 0 to |names|
      invariant resMap == ByPriority(store, names[..i]) && noPriority == NoPriority(store, names[..i])
    {
      assert names[..i + 1][..i] == names[..i];
      if names[i] in store {
        if store[names[i]].priority != 0 {
          resMap := resMap[store[names[i]].priority := names[i]];
        } else {
          noPriority := noPriority + [names[i]];
        }
      }
    }
    assert names[..|names|] == names;
    var order := Descending(resMap.Keys);
    assert forall i :: 0 <= i < |order| ==> order[i] in order;
    res := ListNames(resMap, order);
    res := res + noPriority;
  }

  method ListNames(m: map<int, string>, order: seq<int>) returns (res: seq<string>)
    requires forall i :: 0 <= i < |order| ==> order[i] in m
    ensures res == Names(m, order)
  {
    res := [];
    for i := 0 to |order|
      invariant res + Names(m, order[i..]) == Names(m, order)
    {
      assert order[i..][1..] == order[i + 1..];
      res := res + [m[order[i]]];
    }
  }

  lemma {:induction false} ByPriorityKeeps(store: Store, names: seq<string>, n: string)
    ensures n in NoPriority(store, names) <==> n in names && n in store && store[n].priority == 0
    ensures n in names && n in store && store[n].priority != 0 ==>
              var p := store[n].priority;
              p in ByPriority(store, names) && ByPriority(store, names)[p] in names && ByPriority(store, names)[p] in store
              && store[ByPriority(store, names)[p]].priority == p
  {
    if names != [] {
      var last := |names| - 1;
      ByPriorityKeeps(store, names[..last], n);
      assert n in names <==> n in names[..last] || n == names[last];
    }
  }

  lemma {:induction false} ByPriorityLabels(store: Store, names: seq<string>, p: int)
    requires p in ByPriority(store, names)
    ensures ByPriority(store, names)[p] in names && ByPriority(store, names)[p] in store
    ensures store[ByPriority(store, names)[p]].priority == p
  {
    var last := |names| - 1;
    if p in ByPriority(store, names[..last]) {
      ByPriorityLabels(store, names[..last], p);
    }
  }

  lemma {:induction false} NamesMembers(m: map<int, string>, order: seq<int>, n: string)
    requires forall i :: 0 <= i < |order| ==> order[i] in m
    ensures n in Names(m, order) <==> exists i :: 0 <= i < |order| && m[order[i]] == n
  {
    if order != [] {
      NamesMembers(m, order[1..], n);
      assert forall i :: 1 <= i < |order| ==> order[i] == order[1..][i - 1];
      if i :| 0 <= i < |order| && m[order[i]] == n {
        assert i > 0 ==> m[order[1..][i - 1]] == n;
      }
    }
  }

  /** The name is what its priority stands for in the map. */
  predicate Wins(store: Store, names: seq<string>, n: string)
    requires n in store
  {
    var m := ByPriority(store, names);
    store[n].priority in m && m[store[n].priority] == n
  }

  lemma SortedMembers(store: Store, names: seq<string>, n: string)
    ensures n in Sorted(store, names) <==> n in names && n in store && (store[n].priority != 0 ==> Wins(store, names, n))
  {
    var m := ByPriority(store, names);
    var order := Descending(m.Keys);
    NamesMembers(m, order, n);
    ByPriorityKeeps(store, names, n);
    if i :| 0 <= i < |order| && m[order[i]] == n {
      assert order[i] in order;
      ByPriorityLabels(store, names, order[i]);
    }
    if n in names && n in store && store[n].priority != 0 && Wins(store, names, n) {
      assert store[n].priority in order;
    }
  }

  /** Sorting through the priority-keyed map drops no secret exactly when no two secrets carry the
      same priority other than none. */
  lemma NothingDropped(store: Store, names: seq<string>)
    ensures (forall n :: n in names && n in store ==> n in Sorted(store, names)) <==>
            (forall n, k :: n in names && k in names && n in store && k in store && n != k ==>
               store[n].priority != store[k].priority || store[n].priority == 0)
  {
    forall n ensures n in Sorted(store, names) <==> n in names && n in store && (store[n].priority != 0 ==> Wins(store, names, n)) {
      SortedMembers(store, names, n);
    }
    if n, k :| n in names && k in names && n in store && k in store && n != k && store[n].priority == store[k].priority != 0 {
      assert !(n in Sorted(store, names) && k in Sorted(store, names));
    } else {
      forall n | n in names && n in store ensures n in Sorted(store, names) {
        ByPriorityKeeps(store, names, n);
      }
    }
  }

  /** The secret is the last one listed with its priority. */
  predicate LastOfPriority(store: Store, names: seq<string>, n: string)
    requires n in store
  {
    exists i :: 0 <= i < |names| && names[i] == n &&
      forall j :: i < j < |names| && names[j] in store && store[names[j]].priority == store[n].priority ==> names[j] == n
  }

  lemma {:induction false} WinsExactly(store: Store, names: seq<string>, n: string)
    requires n in store && store[n].priority != 0
    ensures Wins(store, names, n) <==> LastOfPriority(store, names, n)
  {
    if names != [] {
      var last := |names| - 1;
      var init := names[..last];
      WinsExactly(store, init, n);
      if LastOfPriority(store, names, n) {
        var i :| 0 <= i < |names| && names[i] == n &&
          forall j :: i < j < |names| && names[j] in store && store[names[j]].priority == store[n].priority ==> names[j] == n;
        if i < last {
          assert init[i] == n;
          assert forall j :: i < j < last ==> init[j] == names[j];
          assert LastOfPriority(store, init, n);
        }
      }
      if names[last] == n {
        assert LastOfPriority(store, names, n);
      } else if !(names[last] in store && store[names[last]].priority == store[n].priority) && LastOfPriority(store, init, n) {
        var i :| 0 <= i < last && init[i] == n &&
          forall j :: i < j < last && init[j] in store && store[init[j]].priority == store[n].priority ==> init[j] == n;
        assert names[i] == n;
        assert forall j :: i < j < last ==> init[j] == names[j];
        assert LastOfPriority(store, names, n);
      }
    }
  }

  lemma {:induction false} NamesAt(m: map<int, string>, order: seq<int>, i: nat)
    requires i < |order| && forall k :: 0 <= k < |order| ==> order[k] in m
    ensures |Names(m, order)| == |order| && Names(m, order)[i] == m[order[i]]
  {
    if |order| > 1 {
      NamesAt(m, order[1..], if i == 0 then 0 else i - 1);
    }
  }

  lemma {:induction false} NamesLength(m: map<int, string>, order: seq<int>)
    requires forall k :: 0 <= k < |order| ==> order[k] in m
    ensures |Names(m, order)| == |order|
  {
    if order != [] {
      NamesLength(m, order[1..]);
    }
  }

  lemma {:induction false} NoPriorityMeans(store: Store, names: seq<string>, i: nat)
    requires i < |NoPriority(store, names)|
    ensures NoPriority(store, names)[i] in store && store[NoPriority(store, names)[i]].priority == 0
  {
    var last := |names| - 1;
    if i < |NoPriority(store, names[..last])| {
      NoPriorityMeans(store, names[..last], i);
    }
  }

  /** The secrets with a priority come first, highest first; those without follow. */
  lemma SortedDescends(store: Store, names: seq<string>, i: nat, j: nat)
    requires i < j < |Sorted(store, names)|
    ensures var s := Sorted(store, names);
            && s[i] in store && s[j] in store
            && (store[s[j]].priority != 0 ==> store[s[i]].priority > store[s[j]].priority && store[s[i]].priority != 0)
  {
    var m := ByPriority(store, names);
    var order := Descending(m.Keys);
    assert forall k :: 0 <= k < |order| ==> order[k] in order;
    NamesLength(m, order);
    if i < |order| {
      NamesAt(m, order, i);
      ByPriorityLabels(store, names, order[i]);
      ByPriorityNonZero(store, names, order[i]);
    } else {
      NoPriorityMeans(store, names, i - |order|);
    }
    if j < |order| {
      NamesAt(m, order, j);
      ByPriorityLabels(store, names, order[j]);
      DescendingSorted(m.Keys, i, j);
    } else {
      NoPriorityMeans(store, names, j - |order|);
    }
  }

  lemma {:induction false} ByPriorityNonZero(store: Store, names: seq<string>, p: int)
    requires p in ByPriority(store, names)
    ensures p != 0
  {
    var last := |names| - 1;
    if p in ByPriority(store, names[..last]) {
      ByPriorityNonZero(store, names[..last], p);
    }
  }

  // ---------------------------------------------------------------- a pair

  /** Which of two present secrets is active: the one with the higher priority, a missing priority
      counting least; without priorities, the first. */
  ghost predicate Ordered(store: Store, a: string, b: string) {
    && a in store && b in store && a != b
    && 0 <= store[b].priority && (store[b].priority < store[a].priority || store[a].priority == store[b].priority == 0)
  }

  lemma OneName(store: Store, n: string)
    ensures ByPriority(store, [n]) == (if n in store && store[n].priority != 0 then map[store[n].priority := n] else map[])
    ensures NoPriority(store, [n]) == (if n in store && store[n].priority == 0 then [n] else [])
  {
    assert [n][..0] == [];
    assert ByPriority(store, []) == map[] && NoPriority(store, []) == [];
  }

  lemma PairSorted(store: Store, n0: string, n1: string)
    requires n0 in store && n1 in store && n0 != n1
    ensures var (p0, p1) := (store[n0].priority, store[n1].priority);
            Sorted(store, [n0, n1]) ==
              if p0 == 0 && p1 == 0 then [n0, n1]
              else if p0 == p1 then [n1]
              else if p0 == 0 then [n1, n0]
              else if p1 == 0 then [n0, n1]
              else if p0 > p1 then [n0, n1] else [n1, n0]
  {
    var (p0, p1) := (store[n0].priority, store[n1].priority);
    assert [n0, n1][..1] == [n0];
    var m0 := ByPriority(store, [n0]);
    var m := ByPriority(store, [n0, n1]);
    OneName(store, n0);
    assert m == if p1 == 0 then m0 else m0[p1 := n1];
    if p0 == 0 && p1 == 0 {
      assert m.Keys == {};
    } else if p0 == 0 || p1 == 0 || p0 == p1 {
      var p := if p0 == 0 then p1 else p0;
      assert m.Keys == {p};
      DescendingOne(p);
      assert [p][1..] == [];
      assert Names(m, [p]) == [m[p]];
    } else {
      var (hi, lo) := if p0 > p1 then (p0, p1) else (p1, p0);
      assert m.Keys == {hi, lo};
      DescendingTwo(hi, lo);
      assert [hi, lo][1..] == [lo] && [lo][1..] == [];
      assert Names(m, [lo]) == [m[lo]];
      assert Names(m, [hi, lo]) == [m[hi]] + [m[lo]];
    }
  }

  /** Both secrets, if there, are without priority or have different ones, and none is negative. */
  ghost predicate PairOk(store: Store, n0: string, n1: string) {
    && n0 != n1
    && (n0 in store ==> store[n0].priority >= 0)
    && (n1 in store ==> store[n1].priority >= 0)
    && (n0 in store && n1 in store ==> store[n0].priority != store[n1].priority || store[n0].priority == 0)
  }

  lemma OrderedSorted(store: Store, n0: string, n1: string)
    requires PairOk(store, n0, n1) && n0 in store && n1 in store
    ensures var s := Sorted(store, [n0, n1]);
            |s| == 2 && Ordered(store, s[0], s[1]) && (s == [n0, n1] || s == [n1, n0])
  {
    PairSorted(store, n0, n1);
  }

  // ---------------------------------------------------------------- rotate

  datatype Crash = NoCrash | BeforeSave | BetweenWrites

  datatype Outcome = Rotated | AlreadyRotated | GreaterId | NotAPair | BadData | Crashed

  /** `keep` and `renew` are the two rotation_fields of the kind of secret. */
  datatype Pair = Pair(n0: string, n1: string, keep: Rule, renew: Rule)

  /** One call of rotate.  `created` is what create() makes in it. */
  function Attempt(store: Store, p: Pair, id: int, created: Json, crash: Crash): (Outcome, Store) {
    var s := Sorted(store, [p.n0, p.n1]);
    if |s| != 2 || s[0] !in store || s[1] !in store then (NotAPair, store) else
    var active, backup := store[s[0]], store[s[1]];
    if active.priority == id then (AlreadyRotated, store)
    else if active.priority > id then (GreaterId, store)
    else match Blend(active.data, backup.data, p.keep, p.renew, created)
      case None => (BadData, store)
      case Some(r) =>
        match crash
        case BeforeSave => (Crashed, store)
        case BetweenWrites => (Crashed, store[s[1] := Secret(backup.priority, r)])
        case NoCrash => (Rotated, store[s[1] := Secret(id, r)])
  }

  /** For the two secrets of a pair, active a and backup b: when a call is refused, when it fails, when
      it rotates, and what it has written if it died. */
  lemma AttemptExactly(store: Store, p: Pair, id: int, created: Json, crash: Crash, a: string, b: string)
    requires Sorted(store, [p.n0, p.n1]) == [a, b] && a in store && b in store
    ensures var (o, t) := Attempt(store, p, id, created, crash);
            var blend := Blend(store[a].data, store[b].data, p.keep, p.renew, created);
            && (o == AlreadyRotated <==> store[a].priority == id)
            && (o == GreaterId <==> store[a].priority > id)
            && (o == BadData <==> store[a].priority < id && blend.None?)
            && (o == Crashed <==> store[a].priority < id && blend.Some? && crash != NoCrash)
            && (o == Rotated <==> store[a].priority < id && blend.Some? && crash == NoCrash)
            && (t != store ==> b in t && t == store[b := t[b]] && Blended(store[a].data, store[b].data, p.keep, p.renew, created, t[b].data))
            && (o == Rotated ==> t[b].priority == id && Some(t[b].data) == blend)
            && (o == Crashed && crash == BetweenWrites ==> t[b].priority == store[b].priority && Some(t[b].data) == blend)
            && (o != Rotated && !(o == Crashed && crash == BetweenWrites) ==> t == store)
  {
    hide Sorted, Blend, Blended;
    if Blend(store[a].data, store[b].data, p.keep, p.renew, created).Some? {
      BlendIsBlended(store[a].data, store[b].data, p.keep, p.renew, created);
    }
  }

  /** There is no pair to rotate exactly if a secret is missing or both carry the same priority. */
  lemma NotAPairExactly(store: Store, p: Pair, id: int, created: Json, crash: Crash)
    requires p.n0 != p.n1
    ensures Attempt(store, p, id, created, crash).0 == NotAPair <==>
              p.n0 !in store || p.n1 !in store || store[p.n0].priority == store[p.n1].priority != 0
  {
    hide Sorted, Blend;
    if p.n0 in store && p.n1 in store {
      PairSorted(store, p.n0, p.n1);
    } else {
      LonelySorted(store, p.n0, p.n1);
    }
  }

  lemma AttemptKeys(store: Store, p: Pair, id: int, created: Json, crash: Crash)
    ensures Attempt(store, p, id, created, crash).1.Keys == store.Keys
  {
    hide Sorted, Blend;
  }

  class SecretStore {
    var secrets: Store

    constructor (secrets: Store)
      ensures this.secrets == secrets
    {
      this.secrets := secrets;
    }

    /** Rewrites the data of a secret; its annotations stay. */
    method Save(name: string, data: Json)
      modifies this
      ensures secrets == old(secrets)[name := Secret(if name in old(secrets) then old(secrets)[name].priority else 0, data)]
    {
      secrets := secrets[name := Secret(if name in secrets then secrets[name].priority else 0, data)];
    }

    method SetPriority(name: string, priority: int)
      requires name in secrets
      modifies this
      ensures secrets == old(secrets)[name := Secret(priority, old(secrets)[name].data)]
    {
      secrets := secrets[name := secrets[name].(priority := priority)];
    }

    method Rotate(p: Pair, id: int, created: Json, crash: Crash) returns (outcome: Outcome)
      modifies this
      ensures (outcome, secrets) == Attempt(old(secrets), p, id, created, crash)
    {
      var pair := GetSecretsSorted(secrets, [p.n0, p.n1]);
      if |pair| != 2 || pair[0] !in secrets || pair[1] !in secrets {
        return NotAPair;
      }
      var active, backup := pair[0], pair[1];
      if secrets[active].priority == id {
        return AlreadyRotated;
      } else if secrets[active].priority > id {
        return GreaterId;
      }
      var kept := Fill(secrets[active].data, secrets[backup].data, p.keep);
      if kept.None? {
        return BadData;
      }
      var filled := Fill(created, kept.value, p.renew);
      if filled.None? {
        return BadData;
      }
      if crash == BeforeSave {
        return Crashed;
      }
      Save(backup, filled.value);
      if crash == BetweenWrites {
        return Crashed;
      }
      SetPriority(backup, id);
      assert secrets == old(secrets)[backup := Secret(id, filled.value)];
      return Rotated;
    }

    /** Creates the secrets that are missing and completes those that are not valid. */
    method Ensure(names: seq<string>, fields: set<string>, valid: Json -> bool, created: string -> Json) returns (ok: bool)
      modifies this
      ensures (ok, secrets) == Ensured(old(secrets), names, fields, valid, created)
    {
      for i := 0 to |names|
        invariant (true, secrets) == Ensured(old(secrets), names[..i], fields, valid, created)
      {
        assert names[..i + 1][..i] == names[..i];
        var n := names[i];
        if n !in secrets {
          Save(n, created(n));
        } else if !valid(secrets[n].data) {
          var completed := Completed(secrets[n].data, fields, created(n));
          if completed.None? || !valid(completed.value) {
            EnsureStops(old(secrets), names, i + 1, fields, valid, created);
            return false;
          }
          Save(n, completed.value);
        }
      }
      assert names[..|names|] == names;
      return true;
    }
  }

  // ---------------------------------------------------------------- ensure

  /** _update_format: the fields that the data lacks are filled in from fresh values. */
  function Completed(data: Json, fields: set<string>, created: Json): Option<Json> {
    Fill(created, data, Keys(map f | f in fields && !(data.Dict? && f in data.entries) :: Fields([])))
  }

  /** ensure(): false stands for data that stay invalid. */
  function Ensured(store: Store, names: seq<string>, fields: set<string>, valid: Json -> bool, created: string -> Json): (bool, Store) {
    if names == [] then (true, store) else
    var last := |names| - 1;
    var (ok, t) := Ensured(store, names[..last], fields, valid, created);
    var n := names[last];
    if !ok then (false, t)
    else if n !in t then (true, t[n := Secret(0, created(n))])
    else if valid(t[n].data) then (true, t)
    else match Completed(t[n].data, fields, created(n))
      case None => (false, t)
      case Some(r) => if valid(r) then (true, t[n := Secret(t[n].priority, r)]) else (false, t)
  }

  lemma {:induction false} EnsureStops(store: Store, names: seq<string>, k: nat, fields: set<string>, valid: Json -> bool, created: string -> Json)
    requires k <= |names| && !Ensured(store, names[..k], fields, valid, created).0
    ensures Ensured(store, names, fields, valid, created) == Ensured(store, names[..k], fields, valid, created)
  {
    if k == |names| {
      assert names[..k] == names;
    } else {
      var last := |names| - 1;
      assert names[..last][..k] == names[..k];
      EnsureStops(store, names[..last], k, fields, valid, created);
    }
  }

  /** Completion adds the missing fields, fresh, and fails exactly if there are some and the data are
      no dict or create() does not make them. */
  lemma CompletedExactly(data: Json, fields: set<string>, created: Json)
    ensures Completed(data, fields, created).Some? <==>
              fields == {} || (data.Dict? && forall f :: f in fields && f !in data.entries ==> created.Dict? && f in created.entries)
    ensures Completed(data, fields, created).Some? ==>
              var r := Completed(data, fields, created).value;
              if fields == {} then r == data else
              && r.Dict? && data.Dict? && r.entries.Keys == data.entries.Keys + fields
              && (forall k :: k in data.entries ==> r.entries[k] == data.entries[k])
              && forall f :: f in fields && f !in data.entries ==> created.Dict? && f in created.entries && r.entries[f] == created.entries[f]
  {
    var rule := Keys(map f | f in fields && !(data.Dict? && f in data.entries) :: Fields([]));
    if rule.rules == map[] {
      assert forall f :: f in fields && !(data.Dict? && f in data.entries) ==> f in rule.rules;
      assert forall f :: f in fields ==> data.Dict? && f in data.entries;
    } else {
      var f :| f in rule.rules;
      assert f in fields;
      if data.Dict? && created.Dict? {
        assert forall k :: k in rule.rules <==> k in fields && k !in data.entries;
        assert forall k :: k in rule.rules ==> rule.rules[k] == Fields([]);
        assert forall k :: k in rule.rules ==>
          KeyFilled(created, data, rule, k) == if k in created.entries then Some(created.entries[k]) else None;
      } else if data.Dict? {
        assert f !in data.entries;
      }
    }
  }

  /** What ensure() makes of one secret. */
  predicate IsEnsured(store: Store, n: string, fields: set<string>, valid: Json -> bool, created: string -> Json, after: Secret) {
    if n !in store then after == Secret(0, created(n))
    else if valid(store[n].data) then after == store[n]
    else after.priority == store[n].priority && Completed(store[n].data, fields, created(n)) == Some(after.data) && valid(after.data)
  }

  /** It is missing, valid, or valid once it is completed. */
  ghost predicate Ensurable(store: Store, n: string, fields: set<string>, valid: Json -> bool, created: string -> Json) {
    exists after :: IsEnsured(store, n, fields, valid, created, after)
  }

  predicate Distinct(names: seq<string>) {
    forall i, j :: 0 <= i < j < |names| ==> names[i] != names[j]
  }

  /** ensure() reaches the name, and gets past it. */
  ghost predicate Done(store: Store, names: seq<string>, fields: set<string>, valid: Json -> bool, created: string -> Json, n: string) {
    exists i :: 0 <= i < |names| && names[i] == n && forall j :: 0 <= j <= i ==> Ensurable(store, names[j], fields, valid, created)
  }

  lemma DoneSnoc(store: Store, names: seq<string>, fields: set<string>, valid: Json -> bool, created: string -> Json, n: string)
    requires names != []
    ensures var last := |names| - 1;
            Done(store, names, fields, valid, created, n) <==>
            || Done(store, names[..last], fields, valid, created, n)
            || (names[last] == n && forall j :: 0 <= j <= last ==> Ensurable(store, names[j], fields, valid, created))
  {
    hide Ensurable;
    var last := |names| - 1;
    var init := names[..last];
    assert forall j :: 0 <= j < last ==> init[j] == names[j];
    if i :| 0 <= i < |names| && names[i] == n && forall j :: 0 <= j <= i ==> Ensurable(store, names[j], fields, valid, created) {
      assert i < last ==> init[i] == n && forall j :: 0 <= j <= i ==> Ensurable(store, init[j], fields, valid, created);
    }
    if i :| 0 <= i < last && init[i] == n && forall j :: 0 <= j <= i ==> Ensurable(store, init[j], fields, valid, created) {
      assert names[i] == n && forall j :: 0 <= j <= i ==> Ensurable(store, names[j], fields, valid, created);
    }
  }

  /** The whole effect of ensure(): it gets through exactly if every named secret is missing, valid or
      can be completed; each one up to the first that cannot is created, left alone or completed; the
      others are untouched. */
  lemma {:induction false} EnsureExactly(store: Store, names: seq<string>, fields: set<string>, valid: Json -> bool, created: string -> Json, n: string)
    requires Distinct(names)
    ensures var (ok, t) := Ensured(store, names, fields, valid, created);
            && (ok <==> forall j :: 0 <= j < |names| ==> Ensurable(store, names[j], fields, valid, created))
            && if Done(store, names, fields, valid, created, n) then n in t && IsEnsured(store, n, fields, valid, created, t[n])
               else (n in t <==> n in store) && (n in t ==> t[n] == store[n])
  {
    hide Completed, Ensurable, Done, IsEnsured;
    if names == [] {
      NoneDone(store, fields, valid, created, n);
    } else {
      var last := |names| - 1;
      var m := names[last];
      EnsureExactly(store, names[..last], fields, valid, created, n);
      EnsureExactly(store, names[..last], fields, valid, created, m);
      DoneSnoc(store, names, fields, valid, created, n);
      NotDoneTwice(store, names, fields, valid, created);
      var (ok, t) := Ensured(store, names[..last], fields, valid, created);
      assert (m in t <==> m in store) && (m in t ==> t[m] == store[m]);
      EnsureOne(store, m, fields, valid, created);
      assert forall j :: 0 <= j < last ==> names[..last][j] == names[j];
    }
  }

  lemma NoneDone(store: Store, fields: set<string>, valid: Json -> bool, created: string -> Json, n: string)
    ensures !Done(store, [], fields, valid, created, n)
  {
  }

  lemma NotDoneTwice(store: Store, names: seq<string>, fields: set<string>, valid: Json -> bool, created: string -> Json)
    requires names != [] && Distinct(names)
    ensures !Done(store, names[..|names| - 1], fields, valid, created, names[|names| - 1])
  {
  }

  lemma EnsureOne(store: Store, m: string, fields: set<string>, valid: Json -> bool, created: string -> Json)
    ensures m !in store ==> IsEnsured(store, m, fields, valid, created, Secret(0, created(m)))
    ensures m in store && valid(store[m].data) ==> IsEnsured(store, m, fields, valid, created, store[m])
    ensures m in store && !valid(store[m].data) ==>
              var r := Completed(store[m].data, fields, created(m));
              if r.Some? && valid(r.value) then IsEnsured(store, m, fields, valid, created, Secret(store[m].priority, r.value))
              else !Ensurable(store, m, fields, valid, created)
    ensures (exists after :: IsEnsured(store, m, fields, valid, created, after)) ==> Ensurable(store, m, fields, valid, created)
  {
    hide Completed;
  }

  /** Everything the data held under a key of its own is there after completion. */
  lemma CompletedKeeps(data: Json, fields: set<string>, created: Json, path: seq<string>)
    requires Completed(data, fields, created).Some? && path != [] && At(data, path).Some?
    ensures At(Completed(data, fields, created).value, path) == At(data, path)
  {
    FillAt(created, data, Keys(map f | f in fields && !(data.Dict? && f in data.entries) :: Fields([])), path);
  }

  /** No value of a stored secret is lost or changed by ensure(), and no priority; what it adds to the
      store are secrets without priority. */
  lemma {:induction false} EnsureKeeps(store: Store, names: seq<string>, fields: set<string>, valid: Json -> bool, created: string -> Json, n: string, path: seq<string>)
    ensures var t := Ensured(store, names, fields, valid, created).1;
            && (n in store ==> n in t && t[n].priority == store[n].priority)
            && (n in store && path != [] && At(store[n].data, path).Some? ==> At(t[n].data, path) == At(store[n].data, path))
            && (n in t && n !in store ==> n in names && t[n].priority == 0)
  {
    hide Completed;
    if names != [] {
      var last := |names| - 1;
      EnsureKeeps(store, names[..last], fields, valid, created, n, path);
      var t := Ensured(store, names[..last], fields, valid, created).1;
      if n == names[last] && n in store && path != [] && At(store[n].data, path).Some? && Completed(t[n].data, fields, created(n)).Some? {
        CompletedKeeps(t[n].data, fields, created(n), path);
      }
    }
  }

  /** When ensure() gets through, every named secret is there and valid, if create() makes valid ones;
      valid ones are left alone. */
  lemma {:induction false} EnsureValid(store: Store, names: seq<string>, fields: set<string>, valid: Json -> bool, created: string -> Json, n: string)
    requires forall m :: m in names ==> valid(created(m))
    ensures var (ok, t) := Ensured(store, names, fields, valid, created);
            && (ok && n in names ==> n in t && valid(t[n].data))
            && (n in store && valid(store[n].data) ==> n in t && t[n] == store[n])
  {
    hide Completed;
    if names != [] {
      var last := |names| - 1;
      assert names[last] in names && forall m :: m in names[..last] ==> m in names;
      EnsureValid(store, names[..last], fields, valid, created, n);
      assert n in names <==> n in names[..last] || n == names[last];
    }
  }

  // ---------------------------------------------------------------- priorities over every run

  /** What may happen to a pair: rotations with any id that may die, re-creation of missing secrets,
      and outsiders deleting a secret or editing its data. */
  datatype Step = Rotate(id: int, created: Json, crash: Crash) | Ensure(name: string, fresh_data: Json) | Delete(name: string) | Edit(name: string, data: Json)

  function Take(store: Store, p: Pair, step: Step): Store {
    match step
    case Rotate(id, created, crash) => Attempt(store, p, id, created, crash).1
    case Ensure(n, data) => if n in store then store else store[n := Secret(0, data)]
    case Delete(n) => store - {n}
    case Edit(n, data) => if n in store then store[n := store[n].(data := data)] else store
  }

  function TakeAll(store: Store, p: Pair, steps: seq<Step>): Store {
    if steps == [] then store else Take(TakeAll(store, p, steps[..|steps| - 1]), p, steps[|steps| - 1])
  }

  lemma PairOkStep(store: Store, p: Pair, step: Step)
    requires PairOk(store, p.n0, p.n1)
    ensures PairOk(Take(store, p, step), p.n0, p.n1)
  {
    if step.Rotate? {
      assert [p.n0, p.n1][..1] == [p.n0] && [p.n0][..0] == [];
      if p.n0 in store && p.n1 in store {
        OrderedSorted(store, p.n0, p.n1);
      } else {
        LonelySorted(store, p.n0, p.n1);
      }
    }
  }

  lemma LonelySorted(store: Store, n0: string, n1: string)
    requires n0 !in store || n1 !in store
    ensures |Sorted(store, [n0, n1])| != 2
  {
    assert [n0, n1][..1] == [n0];
    var m0 := ByPriority(store, [n0]);
    var m := ByPriority(store, [n0, n1]);
    OneName(store, n0);
    assert m == (if n1 in store && store[n1].priority != 0 then m0[store[n1].priority := n1] else m0);
    if m.Keys != {} {
      var p: int :| p in m.Keys;
      assert m.Keys == {p};
      DescendingOne(p);
      assert [p][1..] == [];
      assert Names(m, [p]) == [m[p]];
    }
  }

  /** Over every run the two priorities are both none or distinct, so that whenever both secrets are
      there the sort returns both and active and backup are well defined. */
  lemma {:induction false} ActiveAndBackupDefined(store: Store, p: Pair, steps: seq<Step>)
    requires PairOk(store, p.n0, p.n1)
    ensures var t := TakeAll(store, p, steps);
            && PairOk(t, p.n0, p.n1)
            && (p.n0 in t && p.n1 in t ==>
                  var s := Sorted(t, [p.n0, p.n1]);
                  |s| == 2 && {s[0], s[1]} == {p.n0, p.n1} && Ordered(t, s[0], s[1]))
  {
    if steps != [] {
      ActiveAndBackupDefined(store, p, steps[..|steps| - 1]);
      PairOkStep(TakeAll(store, p, steps[..|steps| - 1]), p, steps[|steps| - 1]);
    }
    var t := TakeAll(store, p, steps);
    if p.n0 in t && p.n1 in t {
      OrderedSorted(t, p.n0, p.n1);
    }
  }

  // ---------------------------------------------------------------- one rotation through crashes

  /** A pair before rotation `id`: a is active, b is backup. */
  ghost predicate Before(store: Store, p: Pair, id: int, a: string, b: string) {
    && PairOk(store, p.n0, p.n1) && p.n0 in store && p.n1 in store
    && Sorted(store, [p.n0, p.n1]) == [a, b]
    && a in store && store[a].priority < id && b in store && a != b
  }

  ghost predicate Promoted(old_: Store, p: Pair, a: string, b: string, r: Json)
    requires a in old_ && b in old_
  {
    exists created :: Blended(old_[a].data, old_[b].data, p.keep, p.renew, created, r)
  }

  /** Since `old_` attempts may have rewritten the backup, and nothing else. */
  ghost predicate Pending(old_: Store, cur: Store, p: Pair, a: string, b: string) {
    && a in old_ && b in old_ && b in cur && a != b
    && cur == old_[b := cur[b]]
    && cur[b].priority == old_[b].priority
    && (cur[b] == old_[b] || Promoted(old_, p, a, b, cur[b].data))
  }

  /** Exactly one rotation since `old_`: the former backup is active with priority id, the former
      active secret is the backup, untouched. */
  ghost predicate RotatedOnce(old_: Store, cur: Store, p: Pair, id: int, a: string, b: string) {
    && a in old_ && b in old_ && b in cur && a != b
    && cur == old_[b := cur[b]]
    && cur[b].priority == id
    && Promoted(old_, p, a, b, cur[b].data)
    && Sorted(cur, [p.n0, p.n1]) == [b, a]
  }

  lemma StillOrdered(old_: Store, cur: Store, p: Pair, id: int, a: string, b: string)
    requires Before(old_, p, id, a, b) && Pending(old_, cur, p, a, b)
    ensures Sorted(cur, [p.n0, p.n1]) == [a, b]
  {
    PairSorted(old_, p.n0, p.n1);
    PairSorted(cur, p.n0, p.n1);
  }

  lemma CommitSwaps(old_: Store, cur: Store, p: Pair, id: int, a: string, b: string, data: Json)
    requires Before(old_, p, id, a, b) && Pending(old_, cur, p, a, b)
    ensures Sorted(cur[b := Secret(id, data)], [p.n0, p.n1]) == [b, a]
  {
    PairSorted(old_, p.n0, p.n1);
    PairSorted(cur[b := Secret(id, data)], p.n0, p.n1);
  }

  lemma PromotedAgain(old_: Store, cur: Store, p: Pair, a: string, b: string, created: Json)
    requires Pending(old_, cur, p, a, b) && a in cur && Blend(cur[a].data, cur[b].data, p.keep, p.renew, created).Some?
    ensures Promoted(old_, p, a, b, Blend(cur[a].data, cur[b].data, p.keep, p.renew, created).value)
  {
    var r := Blend(cur[a].data, cur[b].data, p.keep, p.renew, created).value;
    BlendIsBlended(cur[a].data, cur[b].data, p.keep, p.renew, created);
    hide Blended;
    if cur[b] != old_[b] {
      var c1 :| Blended(old_[a].data, old_[b].data, p.keep, p.renew, c1, cur[b].data);
      BlendedAgain(old_[a].data, old_[b].data, p.keep, p.renew, c1, cur[b].data, created, r);
    }
  }

  lemma AttemptPending(old_: Store, cur: Store, p: Pair, id: int, a: string, b: string, created: Json, crash: Crash)
    requires Before(old_, p, id, a, b) && Pending(old_, cur, p, a, b)
    ensures var (o, next) := Attempt(cur, p, id, created, crash);
            && (o == Rotated || o == Crashed || o == BadData)
            && (o == Rotated ==> RotatedOnce(old_, next, p, id, a, b))
            && (o != Rotated ==> Pending(old_, next, p, a, b))
  {
    hide Sorted, Blend, Promoted, PairOk;
    StillOrdered(old_, cur, p, id, a, b);
    var blend := Blend(cur[a].data, cur[b].data, p.keep, p.renew, created);
    if blend.Some? {
      PromotedAgain(old_, cur, p, a, b, created);
      CommitSwaps(old_, cur, p, id, a, b, blend.value);
    }
  }

  /** A further rotate with the same id is a no-op. */
  lemma AttemptDone(old_: Store, cur: Store, p: Pair, id: int, a: string, b: string, created: Json, crash: Crash)
    requires Before(old_, p, id, a, b) && RotatedOnce(old_, cur, p, id, a, b)
    ensures Attempt(cur, p, id, created, crash) == (AlreadyRotated, cur)
  {
  }

  datatype Try = Try(created: Json, crash: Crash)

  /** rotate(id) called again and again, however each call ends. */
  function Retry(store: Store, p: Pair, id: int, tries: seq<Try>): Store {
    if tries == [] then store else
    var last := |tries| - 1;
    Attempt(Retry(store, p, id, tries[..last]), p, id, tries[last].created, tries[last].crash).1
  }

  lemma {:induction false} RetryProgress(old_: Store, p: Pair, id: int, a: string, b: string, tries: seq<Try>)
    requires Before(old_, p, id, a, b)
    ensures var cur := Retry(old_, p, id, tries);
            Pending(old_, cur, p, a, b) || RotatedOnce(old_, cur, p, id, a, b)
  {
    if tries == [] {
      assert old_ == old_[b := old_[b]];
      assert Pending(old_, old_, p, a, b);
    } else {
      var last := |tries| - 1;
      RetryProgress(old_, p, id, a, b, tries[..last]);
      var cur := Retry(old_, p, id, tries[..last]);
      if Pending(old_, cur, p, a, b) {
        AttemptPending(old_, cur, p, id, a, b, tries[last].created, tries[last].crash);
      } else {
        AttemptDone(old_, cur, p, id, a, b, tries[last].created, tries[last].crash);
      }
    }
  }

  /** Through any number of calls that fail or die, until one completes: one rotation has happened,
      and no further call with the same id changes anything. */
  lemma RotationCompletes(old_: Store, p: Pair, id: int, a: string, b: string, tries: seq<Try>, final: Try)
    requires Before(old_, p, id, a, b)
    requires Attempt(Retry(old_, p, id, tries), p, id, final.created, final.crash).0 in {Rotated, AlreadyRotated}
    ensures var cur := Attempt(Retry(old_, p, id, tries), p, id, final.created, final.crash).1;
            && RotatedOnce(old_, cur, p, id, a, b)
            && forall again: Try :: Attempt(cur, p, id, again.created, again.crash) == (AlreadyRotated, cur)
  {
    RetryProgress(old_, p, id, a, b, tries);
    var before := Retry(old_, p, id, tries);
    var cur := Attempt(before, p, id, final.created, final.crash).1;
    if Pending(old_, before, p, a, b) {
      AttemptPending(old_, before, p, id, a, b, final.created, final.crash);
    } else {
      AttemptDone(old_, before, p, id, a, b, final.created, final.crash);
    }
    forall again: Try ensures Attempt(cur, p, id, again.created, again.crash) == (AlreadyRotated, cur) {
      AttemptDone(old_, cur, p, id, a, b, again.created, again.crash);
    }
  }

  // ---------------------------------------------------------------- the service group

  /** The pairs of the services that have a secret. */
  type Group = map<string, Store>

  /** Rotates the services in order, from the first one, until one fails. */
  function GroupAttempt(group: Group, pairs: map<string, Pair>, services: seq<string>, id: int, tries: map<string, Try>): (bool, Group)
    requires pairs.Keys <= group.Keys && pairs.Keys <= tries.Keys
  {
    if services == [] then (true, group) else
    var last := |services| - 1;
    var (ok, g) := GroupAttempt(group, pairs, services[..last], id, tries);
    var svc := services[last];
    if !ok || svc !in pairs || svc !in g then (ok, g) else
    var (o, store) := Attempt(g[svc], pairs[svc], id, tries[svc].created, tries[svc].crash);
    (o == Rotated || o == AlreadyRotated, g[svc := store])
  }

  method RotateServices(group: Group, pairs: map<string, Pair>, services: seq<string>, id: int, tries: map<string, Try>)
    returns (ok: bool, result: Group)
    requires pairs.Keys <= group.Keys && pairs.Keys <= tries.Keys
    ensures (ok, result) == GroupAttempt(group, pairs, services, id, tries)
  {
    ok, result := true, group;
    var i := 0;
    while i < |services| && ok
      invariant 0 <= i <= |services|
      invariant (ok, result) == GroupAttempt(group, pairs, services[..i], id, tries)
    {
      assert services[..i + 1][..i] == services[..i];
      if services[i] in pairs && services[i] in result {
        var secrets := new SecretStore(result[services[i]]);
        var outcome := secrets.Rotate(pairs[services[i]], id, tries[services[i]].created, tries[services[i]].crash);
        ok, result := outcome == Rotated || outcome == AlreadyRotated, result[services[i] := secrets.secrets];
      }
      i := i + 1;
    }
    if !ok {
      GroupStops(group, pairs, services, i, id, tries);
    } else {
      assert services[..|services|] == services;
    }
  }

  lemma {:induction false} GroupStops(group: Group, pairs: map<string, Pair>, services: seq<string>, i: nat, id: int, tries: map<string, Try>)
    requires pairs.Keys <= group.Keys && pairs.Keys <= tries.Keys && i <= |services|
    requires !GroupAttempt(group, pairs, services[..i], id, tries).0
    ensures GroupAttempt(group, pairs, services, id, tries) == GroupAttempt(group, pairs, services[..i], id, tries)
  {
    if i == |services| {
      assert services[..i] == services;
    } else {
      var last := |services| - 1;
      assert services[..last][..i] == services[..i];
      GroupStops(group, pairs, services[..last], i, id, tries);
    }
  }

  /** The service has no secret, or its secret is rotated by this pass or was before. */
  predicate Passes(group: Group, pairs: map<string, Pair>, id: int, tries: map<string, Try>, svc: string)
    requires pairs.Keys <= group.Keys && pairs.Keys <= tries.Keys
  {
    svc in pairs ==> Attempt(group[svc], pairs[svc], id, tries[svc].created, tries[svc].crash).0 in {Rotated, AlreadyRotated}
  }

  /** The pass comes to the service: all before it pass. */
  predicate ComesTo(group: Group, pairs: map<string, Pair>, services: seq<string>, id: int, tries: map<string, Try>, svc: string)
    requires pairs.Keys <= group.Keys && pairs.Keys <= tries.Keys
  {
    exists i :: 0 <= i < |services| && services[i] == svc && forall j :: 0 <= j < i ==> Passes(group, pairs, id, tries, services[j])
  }

  lemma ComesToSnoc(group: Group, pairs: map<string, Pair>, services: seq<string>, id: int, tries: map<string, Try>, svc: string)
    requires pairs.Keys <= group.Keys && pairs.Keys <= tries.Keys && services != []
    ensures var last := |services| - 1;
            ComesTo(group, pairs, services, id, tries, svc) <==>
            || ComesTo(group, pairs, services[..last], id, tries, svc)
            || (services[last] == svc && forall j :: 0 <= j < last ==> Passes(group, pairs, id, tries, services[j]))
  {
    hide Passes;
    var last := |services| - 1;
    var init := services[..last];
    assert forall j :: 0 <= j < last ==> init[j] == services[j];
    if i :| 0 <= i < |services| && services[i] == svc && forall j :: 0 <= j < i ==> Passes(group, pairs, id, tries, services[j]) {
      assert i < last ==> init[i] == svc && forall j :: 0 <= j < i ==> Passes(group, pairs, id, tries, init[j]);
    }
    if i :| 0 <= i < last && init[i] == svc && forall j :: 0 <= j < i ==> Passes(group, pairs, id, tries, init[j]) {
      assert services[i] == svc && forall j :: 0 <= j < i ==> Passes(group, pairs, id, tries, services[j]);
    }
  }

  /** One pass gets through exactly if each service passes; it makes one attempt on each service with a
      secret, up to the first that fails, and leaves the ones after it alone. */
  lemma {:induction false} GroupExactly(group: Group, pairs: map<string, Pair>, services: seq<string>, id: int, tries: map<string, Try>, svc: string)
    requires pairs.Keys <= group.Keys && pairs.Keys <= tries.Keys && Distinct(services)
    ensures var (ok, g) := GroupAttempt(group, pairs, services, id, tries);
            && g.Keys == group.Keys
            && (ok <==> forall j :: 0 <= j < |services| ==> Passes(group, pairs, id, tries, services[j]))
            && (svc in group ==>
                  if svc in pairs && ComesTo(group, pairs, services, id, tries, svc)
                  then g[svc] == Attempt(group[svc], pairs[svc], id, tries[svc].created, tries[svc].crash).1
                  else g[svc] == group[svc])
  {
    hide Attempt, Passes, ComesTo;
    if services == [] {
      NoneCome(group, pairs, id, tries, svc);
    } else {
      var last := |services| - 1;
      var next := services[last];
      GroupExactly(group, pairs, services[..last], id, tries, svc);
      GroupExactly(group, pairs, services[..last], id, tries, next);
      ComesToSnoc(group, pairs, services, id, tries, svc);
      ComesOnce(group, pairs, services, id, tries);
      PassMeans(group, pairs, id, tries, next);
      assert forall j :: 0 <= j < last ==> services[..last][j] == services[j];
    }
  }

  lemma NoneCome(group: Group, pairs: map<string, Pair>, id: int, tries: map<string, Try>, svc: string)
    requires pairs.Keys <= group.Keys && pairs.Keys <= tries.Keys
    ensures !ComesTo(group, pairs, [], id, tries, svc)
  {
  }

  lemma ComesOnce(group: Group, pairs: map<string, Pair>, services: seq<string>, id: int, tries: map<string, Try>)
    requires pairs.Keys <= group.Keys && pairs.Keys <= tries.Keys && services != [] && Distinct(services)
    ensures !ComesTo(group, pairs, services[..|services| - 1], id, tries, services[|services| - 1])
  {
  }

  lemma PassMeans(group: Group, pairs: map<string, Pair>, id: int, tries: map<string, Try>, svc: string)
    requires pairs.Keys <= group.Keys && pairs.Keys <= tries.Keys
    ensures Passes(group, pairs, id, tries, svc) <==>
              svc !in pairs || Attempt(group[svc], pairs[svc], id, tries[svc].created, tries[svc].crash).0 in {Rotated, AlreadyRotated}
  {
    hide Attempt;
  }

  /** Every service is either not rotated yet, its active secret untouched, or rotated once. */
  ghost predicate GroupProgress(old_: Group, cur: Group, pairs: map<string, Pair>, id: int, roles: map<string, (string, string)>) {
    && cur.Keys == old_.Keys
    && forall svc :: svc in pairs ==>
         && svc in old_ && svc in roles
         && Before(old_[svc], pairs[svc], id, roles[svc].0, roles[svc].1)
         && (Pending(old_[svc], cur[svc], pairs[svc], roles[svc].0, roles[svc].1)
             || RotatedOnce(old_[svc], cur[svc], pairs[svc], id, roles[svc].0, roles[svc].1))
  }

  lemma {:induction false} GroupAttemptProgress(old_: Group, cur: Group, pairs: map<string, Pair>, services: seq<string>, id: int, tries: map<string, Try>, roles: map<string, (string, string)>)
    requires pairs.Keys <= cur.Keys && pairs.Keys <= tries.Keys && GroupProgress(old_, cur, pairs, id, roles)
    ensures var (ok, next) := GroupAttempt(cur, pairs, services, id, tries);
            && GroupProgress(old_, next, pairs, id, roles)
            && (ok ==> forall svc :: svc in services && svc in pairs ==>
                  RotatedOnce(old_[svc], next[svc], pairs[svc], id, roles[svc].0, roles[svc].1))
  {
    hide Attempt, Pending, RotatedOnce, Before;
    if services != [] {
      var last := |services| - 1;
      GroupAttemptProgress(old_, cur, pairs, services[..last], id, tries, roles);
      var (ok, g) := GroupAttempt(cur, pairs, services[..last], id, tries);
      var svc := services[last];
      if ok && svc in pairs {
        var (a, b) := roles[svc];
        if Pending(old_[svc], g[svc], pairs[svc], a, b) {
          AttemptPending(old_[svc], g[svc], pairs[svc], id, a, b, tries[svc].created, tries[svc].crash);
        }
        if RotatedOnce(old_[svc], g[svc], pairs[svc], id, a, b) {
          AttemptDone(old_[svc], g[svc], pairs[svc], id, a, b, tries[svc].created, tries[svc].crash);
        }
      }
      assert forall s :: s in services <==> s in services[..last] || s == svc;
    }
  }

  /** The whole group started over after every failure. */
  function GroupRetry(group: Group, pairs: map<string, Pair>, services: seq<string>, id: int, attempts: seq<map<string, Try>>): Group
    requires pairs.Keys <= group.Keys && forall i :: 0 <= i < |attempts| ==> pairs.Keys <= attempts[i].Keys
    ensures pairs.Keys <= GroupRetry(group, pairs, services, id, attempts).Keys
  {
    if attempts == [] then group else
    var last := |attempts| - 1;
    var before := GroupRetry(group, pairs, services, id, attempts[..last]);
    GroupKeys(before, pairs, services, id, attempts[last]);
    GroupAttempt(before, pairs, services, id, attempts[last]).1
  }

  lemma {:induction false} GroupKeys(group: Group, pairs: map<string, Pair>, services: seq<string>, id: int, tries: map<string, Try>)
    requires pairs.Keys <= group.Keys && pairs.Keys <= tries.Keys
    ensures GroupAttempt(group, pairs, services, id, tries).1.Keys == group.Keys
  {
    if services != [] {
      GroupKeys(group, pairs, services[..|services| - 1], id, tries);
    }
  }

  lemma {:induction false} GroupRetryProgress(old_: Group, pairs: map<string, Pair>, services: seq<string>, id: int, attempts: seq<map<string, Try>>, roles: map<string, (string, string)>)
    requires pairs.Keys <= old_.Keys && forall i :: 0 <= i < |attempts| ==> pairs.Keys <= attempts[i].Keys
    requires GroupProgress(old_, old_, pairs, id, roles)
    ensures GroupProgress(old_, GroupRetry(old_, pairs, services, id, attempts), pairs, id, roles)
  {
    if attempts != [] {
      var last := |attempts| - 1;
      GroupRetryProgress(old_, pairs, services, id, attempts[..last], roles);
      GroupAttemptProgress(old_, GroupRetry(old_, pairs, services, id, attempts[..last]), pairs, services, id, attempts[last], roles);
    }
  }

  /** Starting the group over after any failures, until one pass completes, rotates every enabled
      service secret exactly once. */
  lemma GroupRotatedOnce(old_: Group, pairs: map<string, Pair>, services: seq<string>, id: int, attempts: seq<map<string, Try>>, final: map<string, Try>, roles: map<string, (string, string)>)
    requires pairs.Keys <= old_.Keys && pairs.Keys <= final.Keys && forall i :: 0 <= i < |attempts| ==> pairs.Keys <= attempts[i].Keys
    requires forall svc :: svc in pairs ==> svc in roles && Before(old_[svc], pairs[svc], id, roles[svc].0, roles[svc].1)
    requires GroupAttempt(GroupRetry(old_, pairs, services, id, attempts), pairs, services, id, final).0
    ensures var done := GroupAttempt(GroupRetry(old_, pairs, services, id, attempts), pairs, services, id, final).1;
            forall svc :: svc in services && svc in pairs ==>
              svc in done && RotatedOnce(old_[svc], done[svc], pairs[svc], id, roles[svc].0, roles[svc].1)
  {
    assert forall svc :: svc in pairs ==> old_[svc] == old_[svc][roles[svc].1 := old_[svc][roles[svc].1]];
    GroupRetryProgress(old_, pairs, services, id, attempts, roles);
    GroupAttemptProgress(old_, GroupRetry(old_, pairs, services, id, attempts), pairs, services, id, final, roles);
  }

  // ---------------------------------------------------------------- what never changes

  function ActiveData(store: Store, p: Pair): Json {
    var s := Sorted(store, [p.n0, p.n1]);
    if |s| > 0 && s[0] in store then store[s[0]].data else Null
  }

  datatype Call = Call(id: int, created: Json, crash: Crash)

  function Calls(store: Store, p: Pair, calls: seq<Call>): Store {
    if calls == [] then store else
    var last := |calls| - 1;
    Attempt(Calls(store, p, calls[..last]), p, calls[last].id, calls[last].created, calls[last].crash).1
  }

  /** Over any sequence of rotate calls, with any ids and crashes, the active secret's protected
      usernames, the Barbican kek and the Neutron shared secrets stay what they were. */
  lemma {:induction false} LastingNeverChanges(store: Store, p: Pair, kind: Kind, accounts: seq<string>, guarded: seq<string>, calls: seq<Call>, path: seq<string>)
    requires PairOk(store, p.n0, p.n1) && p.n0 in store && p.n1 in store
    requires p.keep == KeepRule(kind, guarded) && p.renew == RenewRule(accounts) && accounts != []
    requires Lasting(kind, guarded, path)
    ensures var t := Calls(store, p, calls);
            && PairOk(t, p.n0, p.n1) && p.n0 in t && p.n1 in t
            && At(ActiveData(t, p), path) == At(ActiveData(store, p), path)
  {
    if calls != [] {
      var last := |calls| - 1;
      LastingNeverChanges(store, p, kind, accounts, guarded, calls[..last], path);
      var t, c := Calls(store, p, calls[..last]), calls[last];
      LastingStep(t, p, kind, accounts, guarded, c, path);
    }
  }

  lemma LastingStep(t: Store, p: Pair, kind: Kind, accounts: seq<string>, guarded: seq<string>, c: Call, path: seq<string>)
    requires PairOk(t, p.n0, p.n1) && p.n0 in t && p.n1 in t
    requires p.keep == KeepRule(kind, guarded) && p.renew == RenewRule(accounts) && accounts != []
    requires Lasting(kind, guarded, path)
    ensures var u := Attempt(t, p, c.id, c.created, c.crash).1;
            && PairOk(u, p.n0, p.n1) && p.n0 in u && p.n1 in u
            && At(ActiveData(u, p), path) == At(ActiveData(t, p), path)
  {
    PairOkStep(t, p, Rotate(c.id, c.created, c.crash));
    OrderedSorted(t, p.n0, p.n1);
    var s := Sorted(t, [p.n0, p.n1]);
    var (a, b) := (s[0], s[1]);
    var (o, u) := Attempt(t, p, c.id, c.created, c.crash);
    hide Blend, Lasting, KeepRule, RenewRule, Selects, Above;
    if u != t {
      var r := u[b].data;
      assert Before(t, p, c.id, a, b) && t == t[b := t[b]];
      if o == Rotated {
        BlendIsBlended(t[a].data, t[b].data, p.keep, p.renew, c.created);
        LastingKept(kind, accounts, guarded, t[a].data, t[b].data, c.created, r, path);
        CommitSwaps(t, t, p, c.id, a, b, r);
      } else {
        PromotedAgain(t, t, p, a, b, c.created);
        StillOrdered(t, u, p, c.id, a, b);
      }
    }
  }
}
