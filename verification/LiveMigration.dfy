/**
 The loop that live-migrates the servers of a compute host, against an API that may answer anything.
 */
module LiveMigration {

  /** One turn of the loop: how many servers are reported migrating, which of the listed servers the
      shuffle brings up, and the servers listed as valid for migration at the end of the turn. */
  datatype Round = Round(migrating: int, pick: nat, valid: seq<string>)

  datatype Config = Config(concurrency: int, attempts: int)

  /** `counts` is servers_migrating_count; `calls` are the migrations requested so far. */
  datatype State = State(servers: seq<string>, counts: map<string, int>, calls: seq<string>)

  function Count(counts: map<string, int>, server: string): int {
    if server in counts then counts[server] else 1
  }

  /** The comprehension that drops the servers whose attempts are used up. */
  function WithinBudget(servers: seq<string>, counts: map<string, int>, attempts: int): (r: seq<string>)
    ensures forall s :: s in r <==> s in servers && !(s in counts && counts[s] > attempts)
  {
    if servers == [] then [] else
    var last := servers[|servers| - 1];
    var rest := WithinBudget(servers[..|servers| - 1], counts, attempts);
    assert forall s :: s in servers <==> s in servers[..|servers| - 1] || s == last;
    if last in counts && counts[last] > attempts then rest else rest + [last]
  }

  predicate Free(cfg: Config, r: Round) {
    r.migrating < cfg.concurrency
  }

  function Turn(cfg: Config, st: State, r: Round): State
    requires st.servers != []
  {
    var srv := st.servers[r.pick % |st.servers|];
    var counts := if Free(cfg, r) then st.counts[srv := Count(st.counts, srv) + 1] else st.counts;
    State(WithinBudget(r.valid, counts, cfg.attempts), counts, if Free(cfg, r) then st.calls + [srv] else st.calls)
  }

  /** The loop after as many turns as there are rounds, or fewer if no server is left. */
  function After(cfg: Config, first: seq<string>, rounds: seq<Round>): State {
    if rounds == [] then State(first, map[], []) else
    var st := After(cfg, first, rounds[..|rounds| - 1]);
    if st.servers == [] then st else Turn(cfg, st, rounds[|rounds| - 1])
  }

  method DoServersMigration(cfg: Config, first: seq<string>, rounds: seq<Round>) returns (ended: bool, calls: seq<string>)
    ensures calls == After(cfg, first, rounds).calls && ended == (After(cfg, first, rounds).servers == [])
  {
    var serversToMigrate := first;
    var migratingCount: map<string, int> := map[];
    calls := [];
    var i := 0;
    while serversToMigrate != [] && i < |rounds|
      invariant 0 <= i <= |rounds|
      invariant After(cfg, first, rounds[..i]) == State(serversToMigrate, migratingCount, calls)
      decreases |rounds| - i
    {
      assert rounds[..i + 1][..i] == rounds[..i];
      if rounds[i].migrating < cfg.concurrency {
        var srv := serversToMigrate[rounds[i].pick % |serversToMigrate|];
        migratingCount := migratingCount[srv := Count(migratingCount, srv) + 1];
        calls := calls + [srv];
      }
      serversToMigrate := WithinBudget(rounds[i].valid, migratingCount, cfg.attempts);
      i := i + 1;
    }
    EndedStays(cfg, first, rounds, i);
    ended := serversToMigrate == [];
  }

  lemma {:induction false} EndedStays(cfg: Config, first: seq<string>, rounds: seq<Round>, k: nat)
    requires k <= |rounds| && (k < |rounds| ==> After(cfg, first, rounds[..k]).servers == [])
    ensures After(cfg, first, rounds) == After(cfg, first, rounds[..k])
  {
    if k == |rounds| {
      assert rounds[..k] == rounds;
    } else {
      assert rounds[..|rounds| - 1][..k] == rounds[..k];
      EndedStays(cfg, first, rounds[..|rounds| - 1], k);
    }
  }

  // ---------------------------------------------------------------- budget

  function Budget(cfg: Config): nat {
    if cfg.attempts > 1 then cfg.attempts else 1
  }

  ghost predicate BudgetInv(cfg: Config, st: State) {
    && (forall s :: multiset(st.calls)[s] <= Budget(cfg))
    && (forall s :: s in st.counts <==> s in st.calls)
    && (forall s :: s in st.counts ==> st.counts[s] == multiset(st.calls)[s] + 1)
    && (forall s :: s in st.servers && s in st.counts ==> st.counts[s] <= cfg.attempts)
  }

  lemma {:induction false} BudgetKept(cfg: Config, first: seq<string>, rounds: seq<Round>)
    ensures BudgetInv(cfg, After(cfg, first, rounds))
  {
    if rounds != [] {
      BudgetKept(cfg, first, rounds[..|rounds| - 1]);
      var st, r := After(cfg, first, rounds[..|rounds| - 1]), rounds[|rounds| - 1];
      if st.servers != [] {
        BudgetTurn(cfg, st, r);
      }
    }
  }

  lemma BudgetTurn(cfg: Config, st: State, r: Round)
    requires BudgetInv(cfg, st) && st.servers != []
    ensures BudgetInv(cfg, Turn(cfg, st, r))
  {
    var srv := st.servers[r.pick % |st.servers|];
    assert srv in st.servers;
    var next := Turn(cfg, st, r);
    if Free(cfg, r) {
      assert multiset(st.calls + [srv]) == multiset(st.calls) + multiset{srv};
      assert forall s :: multiset(next.calls)[s] == multiset(st.calls)[s] + if s == srv then 1 else 0;
      assert srv !in st.calls ==> multiset(st.calls)[srv] == 0;
    }
  }

  /** Whatever the API answers, no server is asked to migrate more often than max(1, attempts). */
  lemma EachServerWithinBudget(cfg: Config, first: seq<string>, rounds: seq<Round>, server: string)
    ensures multiset(After(cfg, first, rounds).calls)[server] <= Budget(cfg)
  {
    BudgetKept(cfg, first, rounds);
  }

  /** Every server ever listed. */
  function Seen(first: seq<string>, rounds: seq<Round>): set<string> {
    (set s | s in first) + (set r, s | r in rounds && s in r.valid :: s)
  }

  lemma {:induction false} CallsAreSeen(cfg: Config, first: seq<string>, rounds: seq<Round>)
    ensures var st := After(cfg, first, rounds);
            forall s :: s in st.calls || s in st.servers ==> s in Seen(first, rounds)
  {
    if rounds != [] {
      var init, r := rounds[..|rounds| - 1], rounds[|rounds| - 1];
      CallsAreSeen(cfg, first, init);
      assert r in rounds && forall x :: x in init ==> x in rounds;
      assert Seen(first, init) <= Seen(first, rounds);
      var st := After(cfg, first, init);
      if st.servers != [] {
        assert st.servers[r.pick % |st.servers|] in st.servers;
      }
    }
  }

  lemma {:induction false} MultisetBound(m: multiset<string>, support: set<string>, most: nat)
    requires forall s :: s in m ==> s in support && m[s] <= most
    ensures |m| <= |support| * most
  {
    if support == {} {
      assert m == multiset{};
    } else {
      var s :| s in support;
      MultisetBound(m[s := 0], support - {s}, most);
      assert |support| * most == |support - {s}| * most + most;
    }
  }

  /** All calls together are at most the servers seen times the budget of each. */
  lemma TotalCallsBounded(cfg: Config, first: seq<string>, rounds: seq<Round>)
    ensures |After(cfg, first, rounds).calls| <= |Seen(first, rounds)| * Budget(cfg)
  {
    BudgetKept(cfg, first, rounds);
    CallsAreSeen(cfg, first, rounds);
    var calls := After(cfg, first, rounds).calls;
    MultisetBound(multiset(calls), Seen(first, rounds), Budget(cfg));
  }

  // ---------------------------------------------------------------- what each turn does

  /** A server that was asked as often as the attempts allow; each first request counts twice. */
  predicate UsedUp(cfg: Config, calls: seq<string>, server: string) {
    server in calls && multiset(calls)[server] + 1 > cfg.attempts
  }

  /** A turn that is reached asks one of the servers left, if few enough are migrating, and leaves the
      servers then listed that are not used up. */
  lemma TurnExactly(cfg: Config, first: seq<string>, rounds: seq<Round>)
    requires rounds != [] && After(cfg, first, rounds[..|rounds| - 1]).servers != []
    ensures var (before, after, r) := (After(cfg, first, rounds[..|rounds| - 1]), After(cfg, first, rounds), rounds[|rounds| - 1]);
            && (if r.migrating < cfg.concurrency then exists server :: server in before.servers && after.calls == before.calls + [server]
                else after.calls == before.calls)
            && (forall s :: s in after.servers <==> s in r.valid && !UsedUp(cfg, after.calls, s))
  {
    var init, r := rounds[..|rounds| - 1], rounds[|rounds| - 1];
    var before, after := After(cfg, first, init), After(cfg, first, rounds);
    BudgetKept(cfg, first, rounds);
    hide BudgetInv;
    assert forall s :: s in after.counts <==> s in after.calls by { CountsAreCalls(cfg, after); }
    assert forall s :: s in after.counts ==> after.counts[s] == multiset(after.calls)[s] + 1 by { CountsAreCalls(cfg, after); }
    assert before.servers[r.pick % |before.servers|] in before.servers;
  }

  lemma CountsAreCalls(cfg: Config, st: State)
    requires BudgetInv(cfg, st)
    ensures forall s :: s in st.counts <==> s in st.calls
    ensures forall s :: s in st.counts ==> st.counts[s] == multiset(st.calls)[s] + 1
  {
  }

  /** The turn is reached, and lists no server that is not used up. */
  ghost predicate ListsNone(cfg: Config, first: seq<string>, rounds: seq<Round>, k: nat)
    requires k < |rounds|
  {
    && After(cfg, first, rounds[..k]).servers != []
    && forall s :: s in rounds[k].valid ==> UsedUp(cfg, After(cfg, first, rounds[..k + 1]).calls, s)
  }

  /** The loop is over exactly if there was no server at first, or some turn listed none that is not
      used up. */
  lemma {:induction false} EndsExactly(cfg: Config, first: seq<string>, rounds: seq<Round>)
    ensures After(cfg, first, rounds).servers == [] <==> first == [] || exists k :: 0 <= k < |rounds| && ListsNone(cfg, first, rounds, k)
  {
    hide UsedUp, Turn;
    if rounds != [] {
      var last := |rounds| - 1;
      var init := rounds[..last];
      EndsExactly(cfg, first, init);
      forall k | 0 <= k < last ensures ListsNone(cfg, first, init, k) <==> ListsNone(cfg, first, rounds, k) {
        assert init[..k] == rounds[..k] && init[..k + 1] == rounds[..k + 1];
      }
      assert rounds[..last + 1] == rounds;
      if After(cfg, first, init).servers != [] {
        TurnExactly(cfg, first, rounds);
        var after := After(cfg, first, rounds);
        assert ListsNone(cfg, first, rounds, last) <==> after.servers == [] by {
          if after.servers != [] {
            assert after.servers[0] in after.servers;
          }
        }
      }
    }
  }

  // ---------------------------------------------------------------- concurrency and termination

  function FreeRounds(cfg: Config, rounds: seq<Round>): nat {
    if rounds == [] then 0 else FreeRounds(cfg, rounds[..|rounds| - 1]) + if Free(cfg, rounds[|rounds| - 1]) then 1 else 0
  }

  /** A server is asked to migrate in exactly those turns in which fewer than `concurrency` servers are
      reported migrating. */
  lemma {:induction false} CallsOnlyWhenFree(cfg: Config, first: seq<string>, rounds: seq<Round>)
    ensures |After(cfg, first, rounds).calls| <= FreeRounds(cfg, rounds)
    ensures After(cfg, first, rounds).servers != [] ==> |After(cfg, first, rounds).calls| == FreeRounds(cfg, rounds)
    ensures rounds != [] && !Free(cfg, rounds[|rounds| - 1]) ==>
              After(cfg, first, rounds).calls == After(cfg, first, rounds[..|rounds| - 1]).calls
  {
    if rounds != [] {
      CallsOnlyWhenFree(cfg, first, rounds[..|rounds| - 1]);
    }
  }

  /** No more than `wait` turns in a row are spent waiting. */
  predicate WaitsAreFinite(cfg: Config, rounds: seq<Round>, wait: nat) {
    forall i :: 0 <= i < |rounds| - wait ==> FreeWithin(cfg, rounds, i, wait)
  }

  predicate FreeWithin(cfg: Config, rounds: seq<Round>, i: nat, wait: nat)
    requires i + wait < |rounds|
  {
    exists j :: i <= j <= i + wait && Free(cfg, rounds[j])
  }

  lemma {:induction false} FreeRoundsMonotone(cfg: Config, rounds: seq<Round>, j: nat)
    requires j < |rounds| && Free(cfg, rounds[j])
    ensures FreeRounds(cfg, rounds) >= FreeRounds(cfg, rounds[..j]) + 1
  {
    var init := rounds[..|rounds| - 1];
    if j < |rounds| - 1 {
      FreeRoundsMonotone(cfg, init, j);
      assert init[..j] == rounds[..j];
    }
  }

  lemma {:induction false} FreeRoundsGrow(cfg: Config, rounds: seq<Round>, i: nat)
    requires i <= |rounds|
    ensures FreeRounds(cfg, rounds[..i]) <= FreeRounds(cfg, rounds)
  {
    if i < |rounds| {
      FreeRoundsGrow(cfg, rounds[..|rounds| - 1], i);
      assert rounds[..|rounds| - 1][..i] == rounds[..i];
    } else {
      assert rounds[..i] == rounds;
    }
  }

  lemma TimesMonotone(a: nat, b: nat, c: nat)
    requires a <= b
    ensures a * c <= b * c
  {
  }

  lemma WindowStep(before: nat, after: nat, window: nat, turns: int)
    requires before + 1 <= after && before * window + window > turns - window
    ensures after * window + window > turns
  {
    TimesMonotone(before + 1, after, window);
  }

  lemma {:induction false} FreeRoundsEnough(cfg: Config, rounds: seq<Round>, wait: nat)
    requires WaitsAreFinite(cfg, rounds, wait)
    ensures FreeRounds(cfg, rounds) * (wait + 1) + wait >= |rounds|
    decreases |rounds|
  {
    if |rounds| > wait {
      var i := |rounds| - wait - 1;
      assert FreeWithin(cfg, rounds, i, wait);
      var j :| i <= j <= i + wait && Free(cfg, rounds[j]);
      var init := rounds[..i];
      assert WaitsAreFinite(cfg, init, wait) by {
        forall k | 0 <= k < |init| - wait ensures FreeWithin(cfg, init, k, wait) {
          assert FreeWithin(cfg, rounds, k, wait);
          var l :| k <= l <= k + wait && Free(cfg, rounds[l]);
          assert init[l] == rounds[l];
        }
      }
      FreeRoundsEnough(cfg, init, wait);
      FreeRoundsMonotone(cfg, rounds, j);
      FreeRoundsGrow(cfg, rounds[..j], i);
      assert rounds[..j][..i] == init;
      WindowStep(FreeRounds(cfg, init), FreeRounds(cfg, rounds), wait + 1, |rounds|);
    }
  }

  lemma TurnsBound(turns: nat, calls: nat, seen: nat, servers: nat, budget: nat, window: nat)
    requires calls <= seen * budget && seen <= servers && turns < calls * window + window
    ensures turns < (servers * budget + 1) * window
  {
    TimesMonotone(seen, servers, budget);
    TimesMonotone(calls + 1, servers * budget + 1, window);
  }

  /** If the servers seen are among finitely many and waits between calls are finite, the loop is over
      within a number of turns known beforehand. */
  lemma LoopEnds(cfg: Config, first: seq<string>, rounds: seq<Round>, servers: set<string>, wait: nat)
    requires Seen(first, rounds) <= servers && WaitsAreFinite(cfg, rounds, wait)
    requires |rounds| >= (|servers| * Budget(cfg) + 1) * (wait + 1)
    ensures After(cfg, first, rounds).servers == []
  {
    CallsOnlyWhenFree(cfg, first, rounds);
    FreeRoundsEnough(cfg, rounds, wait);
    TotalCallsBounded(cfg, first, rounds);
    assert servers == Seen(first, rounds) + (servers - Seen(first, rounds));
    if After(cfg, first, rounds).servers != [] {
      TurnsBound(|rounds|, FreeRounds(cfg, rounds), |Seen(first, rounds)|, |servers|, Budget(cfg), wait + 1);
    }
  }

  /** Without that the loop need not end: with an API that always reports too many migrations it makes
      no call and is never over. */
  lemma {:induction false} WaitsForever(cfg: Config, server: string, turns: nat)
    ensures var busy := Round(cfg.concurrency, 0, [server]);
            After(cfg, [server], seq(turns, _ => busy)) == State([server], map[], [])
  {
    var busy := Round(cfg.concurrency, 0, [server]);
    if turns > 0 {
      WaitsForever(cfg, server, turns - 1);
      assert seq(turns, _ => busy)[..turns - 1] == seq(turns - 1, _ => busy);
      assert [server][..0] == [];
      assert WithinBudget([server], map[], cfg.attempts) == [server];
    }
  }

  // ---------------------------------------------------------------- exactly when it goes on for ever

  /** What the API answers, turn after turn. */
  type Answers = nat -> Round

  function Prefix(api: Answers, k: nat): seq<Round> {
    seq(k, i requires 0 <= i < k => api(i))
  }

  function AtTurn(cfg: Config, first: seq<string>, api: Answers, k: nat): State {
    After(cfg, first, Prefix(api, k))
  }

  lemma NextTurn(cfg: Config, first: seq<string>, api: Answers, k: nat)
    ensures var st := AtTurn(cfg, first, api, k);
            AtTurn(cfg, first, api, k + 1) == if st.servers == [] then st else Turn(cfg, st, api(k))
    ensures FreeRounds(cfg, Prefix(api, k + 1)) == FreeRounds(cfg, Prefix(api, k)) + if Free(cfg, api(k)) then 1 else 0
  {
    hide Turn;
    assert Prefix(api, k + 1)[..k] == Prefix(api, k);
  }

  /** The servers listed are among finitely many. */
  ghost predicate AmongServers(first: seq<string>, api: Answers, servers: set<string>) {
    (forall s :: s in first ==> s in servers) && forall k: nat, s :: s in api(k).valid ==> s in servers
  }

  ghost predicate GoesOn(cfg: Config, first: seq<string>, api: Answers) {
    forall k: nat :: AtTurn(cfg, first, api, k).servers != []
  }

  /** In turn k as many servers are migrating as may be, and a server within its budget is listed. */
  predicate BusyTurn(cfg: Config, api: Answers, counts: map<string, int>, k: nat) {
    !Free(cfg, api(k)) && exists s :: s in api(k).valid && !(s in counts && counts[s] > cfg.attempts)
  }

  /** The loop gets to turn m, and from then on every turn is busy. */
  ghost predicate BusyFrom(cfg: Config, first: seq<string>, api: Answers, m: nat) {
    var st := AtTurn(cfg, first, api, m);
    st.servers != [] && forall k: nat :: k >= m ==> BusyTurn(cfg, api, st.counts, k)
  }

  lemma {:induction false} OverStays(cfg: Config, first: seq<string>, api: Answers, k: nat, m: nat)
    requires k <= m && AtTurn(cfg, first, api, m).servers != []
    ensures AtTurn(cfg, first, api, k).servers != []
    decreases m - k
  {
    if k < m {
      OverStays(cfg, first, api, k + 1, m);
      NextTurn(cfg, first, api, k);
    }
  }

  lemma BusyTurnKeeps(cfg: Config, api: Answers, st: State, k: nat)
    requires st.servers != [] && !Free(cfg, api(k))
    ensures Turn(cfg, st, api(k)).counts == st.counts
    ensures Turn(cfg, st, api(k)).servers != [] <==> BusyTurn(cfg, api, st.counts, k)
  {
    var valid := api(k).valid;
    var rest := WithinBudget(valid, st.counts, cfg.attempts);
    if rest != [] {
      assert rest[0] in rest;
    }
  }

  lemma {:induction false} BusyGoesOn(cfg: Config, first: seq<string>, api: Answers, m: nat, k: nat)
    requires BusyFrom(cfg, first, api, m) && k >= m
    ensures AtTurn(cfg, first, api, k).servers != [] && AtTurn(cfg, first, api, k).counts == AtTurn(cfg, first, api, m).counts
  {
    if k > m {
      BusyGoesOn(cfg, first, api, m, k - 1);
      NextTurn(cfg, first, api, k - 1);
      assert BusyTurn(cfg, api, AtTurn(cfg, first, api, m).counts, k - 1);
      BusyTurnKeeps(cfg, api, AtTurn(cfg, first, api, k - 1), k - 1);
    }
  }

  /** A bounded number of free turns: some turn is the last. */
  lemma {:induction false} LastFree(cfg: Config, api: Answers, bound: nat, from: nat) returns (m: nat)
    requires forall k: nat :: FreeRounds(cfg, Prefix(api, k)) <= bound
    ensures m >= from && forall k: nat :: k >= m ==> !Free(cfg, api(k))
    decreases bound - FreeRounds(cfg, Prefix(api, from))
  {
    if k: nat :| k >= from && Free(cfg, api(k)) {
      FreeUpto(cfg, api, from, k + 1);
      FreeUpto(cfg, api, from, k);
      FreeCounts(cfg, api, k);
      assert FreeRounds(cfg, Prefix(api, k + 1)) <= bound;
      m := LastFree(cfg, api, bound, k + 1);
    } else {
      m := from;
    }
  }

  lemma FreeCounts(cfg: Config, api: Answers, k: nat)
    ensures FreeRounds(cfg, Prefix(api, k + 1)) == FreeRounds(cfg, Prefix(api, k)) + if Free(cfg, api(k)) then 1 else 0
  {
    NextTurn(cfg, [], api, k);
  }

  lemma {:induction false} FreeUpto(cfg: Config, api: Answers, from: nat, k: nat)
    requires from <= k
    ensures FreeRounds(cfg, Prefix(api, from)) <= FreeRounds(cfg, Prefix(api, k))
  {
    if from < k {
      FreeUpto(cfg, api, from, k - 1);
      FreeCounts(cfg, api, k - 1);
    }
  }

  lemma FreeTurnsBounded(cfg: Config, first: seq<string>, api: Answers, servers: set<string>, k: nat)
    requires AmongServers(first, api, servers) && GoesOn(cfg, first, api)
    ensures FreeRounds(cfg, Prefix(api, k)) <= |servers| * Budget(cfg)
  {
    assert AtTurn(cfg, first, api, k).servers != [];
    CallsOnlyWhenFree(cfg, first, Prefix(api, k));
    TotalCallsBounded(cfg, first, Prefix(api, k));
    var seen := Seen(first, Prefix(api, k));
    assert seen <= servers by {
      forall s | s in seen ensures s in servers {
        if s !in first {
          var r :| r in Prefix(api, k) && s in r.valid;
          var i :| 0 <= i < k && Prefix(api, k)[i] == r;
          assert s in api(i).valid;
        }
      }
    }
    assert servers == seen + (servers - seen);
    TimesMonotone(|seen|, |servers|, Budget(cfg));
  }

  /** Over finitely many servers the loop goes on for ever exactly if it gets to a turn from which on
      every turn finds too many servers migrating and lists one within its budget. */
  lemma GoesOnExactly(cfg: Config, first: seq<string>, api: Answers, servers: set<string>)
    requires AmongServers(first, api, servers)
    ensures GoesOn(cfg, first, api) <==> exists m: nat :: BusyFrom(cfg, first, api, m)
  {
    if GoesOn(cfg, first, api) {
      forall k: nat ensures FreeRounds(cfg, Prefix(api, k)) <= |servers| * Budget(cfg) {
        FreeTurnsBounded(cfg, first, api, servers, k);
      }
      var m := LastFree(cfg, api, |servers| * Budget(cfg), 0);
      forall k: nat | k >= m
        ensures BusyTurn(cfg, api, AtTurn(cfg, first, api, m).counts, k)
      {
        CountsSettle(cfg, first, api, m, k);
        NextTurn(cfg, first, api, k);
        assert AtTurn(cfg, first, api, k).servers != [] && AtTurn(cfg, first, api, k + 1).servers != [];
        BusyTurnKeeps(cfg, api, AtTurn(cfg, first, api, k), k);
      }
      assert AtTurn(cfg, first, api, m).servers != [];
      assert BusyFrom(cfg, first, api, m);
    }
    if m: nat :| BusyFrom(cfg, first, api, m) {
      forall k: nat ensures AtTurn(cfg, first, api, k).servers != [] {
        BusyGoesOn(cfg, first, api, m, if k < m then m else k);
        OverStays(cfg, first, api, k, if k < m then m else k);
      }
    }
  }

  lemma {:induction false} CountsSettle(cfg: Config, first: seq<string>, api: Answers, m: nat, k: nat)
    requires m <= k && GoesOn(cfg, first, api) && forall i: nat :: i >= m ==> !Free(cfg, api(i))
    ensures AtTurn(cfg, first, api, k).counts == AtTurn(cfg, first, api, m).counts
  {
    if m < k {
      CountsSettle(cfg, first, api, m, k - 1);
      NextTurn(cfg, first, api, k - 1);
      assert AtTurn(cfg, first, api, k - 1).servers != [];
      BusyTurnKeeps(cfg, api, AtTurn(cfg, first, api, k - 1), k - 1);
    }
  }
}
