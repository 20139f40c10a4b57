/**
 The dataplane stage of the migration: a script is run on every node, and up to two more times on the
 nodes where it failed, until the failed gateways and computes are within their thresholds.
 */
module DataplaneMigration {
  import opened NodeRoles

  /** One execution: the node of the pod and whether the status was "Success". */
  datatype Exec = Exec(node: string, ok: bool)

  /** The node roles, how many gateways and computes may fail, and --max-workers. */
  datatype World = World(roles: map<string, set<Role>>, gatewayThreshold: int, computeThreshold: int, maxWorkers: int)
  {
    predicate HasRole(node: string, role: Role) {
      node in roles && role in roles[node]
    }
  }

  /** Every pod listed, or those on the given nodes if there are any. */
  function Selected(listed: seq<Exec>, nodes: set<string>): (results: seq<Exec>)
    ensures forall e :: e in results <==> e in listed && (nodes == {} || e.node in nodes)
  {
    if listed == [] then [] else
    var rest := Selected(listed[..|listed| - 1], nodes);
    var e := listed[|listed| - 1];
    assert forall x :: x in listed <==> x in listed[..|listed| - 1] || x == e;
    if nodes == {} || e.node in nodes then rest + [e] else rest
  }

  /** The nodes of the role with an unsuccessful execution among the results. */
  function FailedNodes(w: World, results: seq<Exec>, role: Role): set<string> {
    set e | e in results && !e.ok && w.HasRole(e.node, role) :: e.node
  }

  predicate Exceeds(failed: set<string>, threshold: int) {
    failed != {} && |failed| > threshold
  }

  lemma FailedSnoc(w: World, results: seq<Exec>, e: Exec, role: Role)
    ensures FailedNodes(w, results + [e], role) == FailedNodes(w, results, role) + if w.HasRole(e.node, role) && !e.ok then {e.node} else {}
  {
    assert forall x :: x in results + [e] <==> x in results || x == e;
  }

  lemma FailedMember(w: World, results: seq<Exec>, role: Role, n: string)
    ensures n in FailedNodes(w, results, role) <==> w.HasRole(n, role) && FailedOn(results, n)
  {
  }

  predicate RanOn(results: seq<Exec>, n: string) {
    exists e :: e in results && e.node == n
  }

  predicate FailedOn(results: seq<Exec>, n: string) {
    exists e :: e in results && e.node == n && !e.ok
  }

  method CheckNodesResults(w: World, results: seq<Exec>, role: Role, threshold: int) returns (failed: set<string>, thresholdFail: bool)
    ensures failed == FailedNodes(w, results, role) && thresholdFail == Exceeds(failed, threshold)
  {
    failed, thresholdFail := {}, false;
    assert FailedNodes(w, results[..0], role) == {};
    hide FailedNodes;
    for i := 0 to |results|
      invariant failed == FailedNodes(w, results[..i], role)
    {
      assert results[..i + 1] == results[..i] + [results[i]];
      FailedSnoc(w, results[..i], results[i], role);
      if w.HasRole(results[i].node, role) && !results[i].ok {
        failed := failed + {results[i].node};
      }
    }
    assert results[..|results|] == results;
    if failed != {} && |failed| > threshold {
      thresholdFail := true;
    }
  }

  datatype Verdict = Exceeded | Within | NoWorkers

  /** After some tries: the nodes to run next, what was run in each try, and what the last one came to. */
  datatype Progress = Progress(failed: set<string>, tries: seq<seq<Exec>>, verdict: Verdict)

  /** The size of the thread pool: by default one worker for each pod listed, on whatever node. */
  function Workers(w: World, listed: seq<Exec>): int {
    if w.maxWorkers == 0 then |listed| else w.maxWorkers
  }

  /** A pool without workers cannot be created, which ends the stage. */
  function Once(w: World, p: Progress, listed: seq<Exec>): Progress {
    if Workers(w, listed) <= 0 then p.(verdict := NoWorkers) else
    var results := Selected(listed, p.failed);
    var gateways, computes := FailedNodes(w, results, Gateway), FailedNodes(w, results, Compute);
    Progress(gateways + computes, p.tries + [results],
             if Exceeds(gateways, w.gatewayThreshold) || Exceeds(computes, w.computeThreshold) then Exceeded else Within)
  }

  /** `listings` is what the cluster answers to each listing of the pods, with the outcome a pod would
      have. */
  function After(w: World, listings: seq<seq<Exec>>): (p: Progress)
    ensures |p.tries| <= |listings|
  {
    if listings == [] then Progress({}, [], Exceeded) else
    var before := After(w, listings[..|listings| - 1]);
    if before.verdict.Exceeded? then Once(w, before, listings[|listings| - 1]) else before
  }

  lemma OnceMore(w: World, listings: seq<seq<Exec>>, k: nat)
    requires k < |listings| && After(w, listings[..k]).verdict.Exceeded?
    ensures After(w, listings[..k + 1]) == Once(w, After(w, listings[..k]), listings[k])
  {
    hide Once;
    assert listings[..k + 1][..k] == listings[..k];
  }

  /** Whether the stage raises, and the nodes of the last try that failed. */
  method MigrateDataplane(w: World, listings: seq<seq<Exec>>) returns (raised: bool, failedNodes: set<string>)
    requires |listings| == 3
    ensures raised <==> !After(w, listings).verdict.Within?
    ensures failedNodes == After(w, listings).failed
  {
    var tries := 0;
    raised, failedNodes := true, {};
    ghost var p := Progress({}, [], Exceeded);
    NothingTried(w);
    assert listings[..0] == [];
    hide After, FailedNodes, Exceeds, Selected;
    while tries < 3 && raised
      invariant 0 <= tries <= 3 && p == After(w, listings[..tries])
      invariant failedNodes == p.failed && p.verdict == if raised then Exceeded else Within
      decreases 3 - tries
    {
      OnceMore(w, listings, tries);
      if Workers(w, listings[tries]) <= 0 {
        Stopped(w, listings, tries + 1);
        return;
      }
      var results := Selected(listings[tries], failedNodes);
      var failedGtw, gtwFail := CheckNodesResults(w, results, Gateway, w.gatewayThreshold);
      var failedCmp, cmpFail := CheckNodesResults(w, results, Compute, w.computeThreshold);
      p := Once(w, p, listings[tries]);
      failedNodes := failedGtw + failedCmp;
      tries := tries + 1;
      raised := gtwFail || cmpFail;
    }
    Stopped(w, listings, tries);
  }

  lemma {:induction false} Stopped(w: World, listings: seq<seq<Exec>>, k: nat)
    requires k <= |listings| && (k < |listings| ==> !After(w, listings[..k]).verdict.Exceeded?)
    ensures After(w, listings) == After(w, listings[..k])
  {
    if k == |listings| {
      assert listings[..k] == listings;
    } else {
      var init := listings[..|listings| - 1];
      assert init[..k] == listings[..k];
      Stopped(w, init, k);
    }
  }

  // ---------------------------------------------------------------- what a normal return means

  /** The last try in which something ran on the node had a failure there. */
  predicate LatestFailed(tries: seq<seq<Exec>>, node: string) {
    tries != [] &&
    var last := tries[|tries| - 1];
    if RanOn(last, node) then FailedOn(last, node) else LatestFailed(tries[..|tries| - 1], node)
  }

  /** The node was to be run again in try k + 1, and had no pod when the pods were listed for it. */
  predicate LostAt(w: World, listings: seq<seq<Exec>>, k: nat, n: string) {
    && 0 < k < |listings| && After(w, listings[..k]).verdict.Exceeded? && Workers(w, listings[k]) > 0
    && n in After(w, listings[..k]).failed && !RanOn(listings[k], n)
  }

  predicate Lost(w: World, listings: seq<seq<Exec>>, n: string) {
    exists k :: 0 < k < |listings| && LostAt(w, listings, k, n)
  }

  /** Every node to be run again still has a pod. */
  ghost predicate PodsStay(w: World, listings: seq<seq<Exec>>) {
    forall n :: !Lost(w, listings, n)
  }

  /** Retries run on failed nodes only, so the failed set only shrinks. */
  lemma RetriesOnlyFailed(w: World, listings: seq<seq<Exec>>, k: nat)
    requires 0 < k < |listings|
    ensures var (before, after) := (After(w, listings[..k]), After(w, listings[..k + 1]));
            && after.failed <= before.failed
            && (before.verdict.Exceeded? ==> before.failed != {})
            && (before.verdict.Exceeded? && !after.verdict.NoWorkers? ==>
                  && |after.tries| == |before.tries| + 1
                  && forall e :: e in after.tries[|before.tries|] ==> e.node in before.failed)
  {
    assert listings[..k + 1][..k] == listings[..k];
    assert listings[..k][..k - 1] == listings[..k - 1];
    if After(w, listings[..k]).verdict.Exceeded? {
      ExceededEarlier(w, listings[..k]);
    }
  }

  lemma ExceededEarlier(w: World, listings: seq<seq<Exec>>)
    requires listings != [] && After(w, listings).verdict.Exceeded?
    ensures After(w, listings).failed != {}
  {
  }

  lemma TriesCount(w: World, listings: seq<seq<Exec>>)
    requires listings != []
    ensures var (p, before) := (After(w, listings), After(w, listings[..|listings| - 1]));
            && (before.verdict.Exceeded? ==> if p.verdict.NoWorkers? then p.tries == before.tries else |p.tries| == |before.tries| + 1)
            && (!before.verdict.Exceeded? ==> p == before)
            && (before.verdict.Exceeded? && p.verdict.Within? ==>
                  var last := p.tries[|p.tries| - 1];
                  !Exceeds(FailedNodes(w, last, Gateway), w.gatewayThreshold) && !Exceeds(FailedNodes(w, last, Compute), w.computeThreshold))
  {
  }

  lemma NothingTried(w: World)
    ensures After(w, []) == Progress({}, [], Exceeded)
  {
  }

  /** It raises after three tries, or for want of workers, and returns within the thresholds. */
  lemma ReturnsWithinThresholds(w: World, listings: seq<seq<Exec>>)
    requires |listings| == 3
    ensures var p := After(w, listings);
            && |p.tries| <= 3
            && (p.verdict.Exceeded? ==> |p.tries| == 3)
            && (p.verdict.NoWorkers? ==> |p.tries| < 3)
            && (p.verdict.Within? ==>
                  |p.tries| >= 1 &&
                  var last := p.tries[|p.tries| - 1];
                  && (FailedNodes(w, last, Gateway) == {} || |FailedNodes(w, last, Gateway)| <= w.gatewayThreshold)
                  && (FailedNodes(w, last, Compute) == {} || |FailedNodes(w, last, Compute)| <= w.computeThreshold))
  {
    hide After, Once, FailedNodes;
    NothingTried(w);
    TriesCount(w, listings[..1]);
    TriesCount(w, listings[..2]);
    TriesCount(w, listings);
    assert listings[..1][..0] == [] && listings[..2][..1] == listings[..1] && listings[..2] == listings[..|listings| - 1];
  }

  // ---------------------------------------------------------------- the tries alone

  /** More nodes of the role failed in the try than may. */
  predicate TooMany(w: World, results: seq<Exec>, role: Role) {
    var failed := FailedNodes(w, results, role);
    failed != {} && |failed| > if role == Gateway then w.gatewayThreshold else w.computeThreshold
  }

  predicate GoesOn(w: World, results: seq<Exec>) {
    TooMany(w, results, Gateway) || TooMany(w, results, Compute)
  }

  /** What a try runs on: every pod listed, in the first; in a retry those on the gateways and computes
      that failed in the try before. */
  ghost predicate RunsOn(w: World, tries: seq<seq<Exec>>, j: nat, listed: seq<Exec>)
    requires j < |tries|
  {
    forall e :: multiset(tries[j])[e] ==
      if j == 0 || e.node in FailedNodes(w, tries[j - 1], Gateway) || e.node in FailedNodes(w, tries[j - 1], Compute)
      then multiset(listed)[e] else 0
  }

  lemma {:induction false} SelectedCount(listed: seq<Exec>, nodes: set<string>, e: Exec)
    ensures multiset(Selected(listed, nodes))[e] == if nodes == {} || e.node in nodes then multiset(listed)[e] else 0
  {
    if listed != [] {
      var last := |listed| - 1;
      SelectedCount(listed[..last], nodes, e);
      assert listed == listed[..last] + [listed[last]];
    }
  }

  /** There is another try exactly if the last one had too many failures in a role and workers can be
      had; each runs on what the one before left. */
  ghost predicate TriesFit(w: World, listings: seq<seq<Exec>>, p: Progress) {
    && |p.tries| <= |listings|
    && (forall j :: 0 <= j < |p.tries| ==> Workers(w, listings[j]) > 0 && RunsOn(w, p.tries, j, listings[j]))
    && (forall j :: 0 <= j < |p.tries| - 1 ==> GoesOn(w, p.tries[j]))
    && (p.verdict.Within? ==> p.tries != [] && !GoesOn(w, p.tries[|p.tries| - 1]))
    && (!p.verdict.Within? && p.tries != [] ==> GoesOn(w, p.tries[|p.tries| - 1]))
    && (p.verdict.Exceeded? ==> |p.tries| == |listings|)
    && (p.verdict.NoWorkers? ==> |p.tries| < |listings| && Workers(w, listings[|p.tries|]) <= 0)
  }

  /** Everything about the tries, told from the tries and the listings alone. */
  lemma {:induction false} TriesExactly(w: World, listings: seq<seq<Exec>>)
    ensures TriesFit(w, listings, After(w, listings))
  {
    hide FailedNodes, Selected, GoesOn, RunsOn, Once;
    if listings == [] {
      NothingTried(w);
    } else {
      var last := |listings| - 1;
      TriesExactly(w, listings[..last]);
      FailedIsLastTry(w, listings[..last]);
      var before := After(w, listings[..last]);
      if before.verdict.Exceeded? {
        OnceExactly(w, before, listings[last]);
        OneMoreFits(w, listings, before, Once(w, before, listings[last]));
      }
    }
  }

  lemma OneMoreFits(w: World, listings: seq<seq<Exec>>, before: Progress, p: Progress)
    requires listings != [] && before.verdict.Exceeded? && TriesFit(w, listings[..|listings| - 1], before)
    requires var last := |listings| - 1;
             if Workers(w, listings[last]) <= 0 then p.tries == before.tries && p.verdict.NoWorkers? else
             && |p.tries| == |before.tries| + 1 && p.tries[..|before.tries|] == before.tries
             && RunsOn(w, p.tries, |before.tries|, listings[last])
             && p.verdict == if GoesOn(w, p.tries[|before.tries|]) then Exceeded else Within
    ensures TriesFit(w, listings, p)
  {
    hide RunsOn, GoesOn, Workers;
    var last := |listings| - 1;
    if Workers(w, listings[last]) > 0 {
      assert forall j :: 0 <= j < last ==> p.tries[j] == p.tries[..last][j];
      forall j | 0 <= j < |p.tries| ensures Workers(w, listings[j]) > 0 && RunsOn(w, p.tries, j, listings[j]) {
        if j < last {
          assert Workers(w, listings[..last][j]) > 0 && RunsOn(w, before.tries, j, listings[..last][j]);
          RunsOnPrefix(w, before.tries, p.tries, j, listings[j]);
        }
      }
      assert forall j :: 0 <= j < last - 1 ==> GoesOn(w, before.tries[j]);
    }
  }

  lemma RunsOnPrefix(w: World, tries: seq<seq<Exec>>, more: seq<seq<Exec>>, j: nat, listed: seq<Exec>)
    requires j < |tries| <= |more| && more[..|tries|] == tries
    ensures RunsOn(w, tries, j, listed) <==> RunsOn(w, more, j, listed)
  {
    hide FailedNodes;
    assert more[..|tries|][j] == more[j];
    assert j > 0 ==> more[..|tries|][j - 1] == more[j - 1];
  }

  lemma OnceExactly(w: World, before: Progress, listed: seq<Exec>)
    requires before.failed == if before.tries == [] then {}
             else FailedNodes(w, before.tries[|before.tries| - 1], Gateway) + FailedNodes(w, before.tries[|before.tries| - 1], Compute)
    requires before.tries != [] ==> GoesOn(w, before.tries[|before.tries| - 1])
    ensures var p := Once(w, before, listed);
            if Workers(w, listed) <= 0 then p.tries == before.tries && p.verdict.NoWorkers? else
            && |p.tries| == |before.tries| + 1 && p.tries[..|before.tries|] == before.tries
            && RunsOn(w, p.tries, |before.tries|, listed)
            && p.verdict == if GoesOn(w, p.tries[|before.tries|]) then Exceeded else Within
  {
    hide FailedNodes;
    if Workers(w, listed) > 0 {
      var p := Once(w, before, listed);
      assert p.tries == before.tries + [Selected(listed, before.failed)];
      assert before.tries != [] ==> before.failed != {};
      forall e ensures multiset(Selected(listed, before.failed))[e] == if before.tries == [] || e.node in before.failed then multiset(listed)[e] else 0 {
        SelectedCount(listed, before.failed, e);
      }
    }
  }

  /** Of three listings, the stage raises for exceeded thresholds exactly if three tries had too many
      failures. */
  lemma RaisesExactly(w: World, listings: seq<seq<Exec>>)
    requires |listings| == 3
    ensures var p := After(w, listings);
            p.verdict.Exceeded? <==> |p.tries| == 3 && forall j :: 0 <= j < 3 ==> GoesOn(w, p.tries[j])
  {
    hide After, GoesOn, RunsOn;
    TriesExactly(w, listings);
  }

  predicate Counted(w: World, n: string) {
    w.HasRole(n, Gateway) || w.HasRole(n, Compute)
  }

  lemma LatestSnoc(tries: seq<seq<Exec>>, results: seq<Exec>, n: string)
    ensures LatestFailed(tries + [results], n) <==> if RanOn(results, n) then FailedOn(results, n) else LatestFailed(tries, n)
  {
    hide RanOn, FailedOn;
    assert (tries + [results])[..|tries|] == tries;
  }

  lemma NeverFailed(n: string)
    ensures !LatestFailed([], n)
  {
  }

  /** One more try keeps the failed and the lost nodes in step with the most recent executions. */
  lemma OnceLatest(w: World, before: Progress, listed: seq<Exec>, n: string, lost: bool)
    requires if before.tries == [] then before.failed == {} && !lost
             else before.failed != {} && (Counted(w, n) && LatestFailed(before.tries, n) <==> n in before.failed || lost)
                  && !(n in before.failed && lost)
    ensures var p := Once(w, before, listed);
            var gone := before.tries != [] && Workers(w, listed) > 0 && n in before.failed && !RanOn(listed, n);
            && (Counted(w, n) && LatestFailed(p.tries, n) <==> n in p.failed || lost || gone)
            && !(n in p.failed && (lost || gone))
  {
    var results := Selected(listed, before.failed);
    LatestSnoc(before.tries, results, n);
    FailedMember(w, results, Gateway, n);
    FailedMember(w, results, Compute, n);
    NeverFailed(n);
    hide FailedNodes, LatestFailed;
    if Workers(w, listed) > 0 {
      assert Once(w, before, listed).tries == before.tries + [results];
      assert FailedOn(results, n) ==> RanOn(results, n);
      if before.tries != [] && (n !in before.failed || !RanOn(listed, n)) {
        assert !RanOn(results, n);
      } else if before.tries != [] {
        var e :| e in listed && e.node == n;
        assert e in results;
      }
    }
  }

  lemma LostSnoc(w: World, listings: seq<seq<Exec>>, n: string)
    requires listings != []
    ensures var last := |listings| - 1;
            Lost(w, listings, n) <==> Lost(w, listings[..last], n) || LostAt(w, listings, last, n)
  {
    hide After, RanOn;
    var last := |listings| - 1;
    assert forall k :: 0 <= k <= last ==> listings[..last][..k] == listings[..k];
    if k :| 0 < k < |listings| && LostAt(w, listings, k, n) {
      assert k < last ==> LostAt(w, listings[..last], k, n);
    }
    if k :| 0 < k < last && LostAt(w, listings[..last], k, n) {
      assert LostAt(w, listings, k, n);
    }
  }

  /** For every course of the tries: the gateways and computes whose most recent execution failed are
      the nodes left failed and, besides, those that lost their pod while they were to be run again. */
  lemma {:induction false} LatestAreFailedOrLost(w: World, listings: seq<seq<Exec>>, n: string)
    requires listings != []
    ensures Counted(w, n) && LatestFailed(After(w, listings).tries, n) <==> n in After(w, listings).failed || Lost(w, listings, n)
    ensures !(n in After(w, listings).failed && Lost(w, listings, n))
  {
    hide Once, LatestFailed, Lost, RanOn;
    var last := |listings| - 1;
    LostSnoc(w, listings, n);
    if last > 0 {
      LatestAreFailedOrLost(w, listings[..last], n);
      FailedIsLastTry(w, listings[..last]);
      if After(w, listings[..last]).verdict.Exceeded? {
        ExceededEarlier(w, listings[..last]);
        OnceLatest(w, After(w, listings[..last]), listings[last], n, Lost(w, listings[..last], n));
      }
    } else {
      assert listings[..0] == [];
      NoneLost(w, n);
      OnceLatest(w, Progress({}, [], Exceeded), listings[0], n, false);
    }
  }

  lemma NoneLost(w: World, n: string)
    ensures !Lost(w, [], n)
  {
  }

  /** The nodes left failed are the gateways and computes whose most recent execution failed, exactly
      if no node that is to be run again loses its pod. */
  lemma FailedAreLatestExactly(w: World, listings: seq<seq<Exec>>)
    requires listings != []
    ensures (forall n :: n in After(w, listings).failed <==> Counted(w, n) && LatestFailed(After(w, listings).tries, n))
            <==> PodsStay(w, listings)
  {
    forall n
      ensures Counted(w, n) && LatestFailed(After(w, listings).tries, n) <==> n in After(w, listings).failed || Lost(w, listings, n)
      ensures !(n in After(w, listings).failed && Lost(w, listings, n))
    {
      LatestAreFailedOrLost(w, listings, n);
    }
    hide After, LatestFailed, Lost, Counted;
  }

  /** The nodes of the role whose most recent execution failed. */
  ghost function LatestBad(w: World, listings: seq<seq<Exec>>, role: Role): set<string> {
    set n | n in w.roles && w.HasRole(n, role) && LatestFailed(After(w, listings).tries, n)
  }

  ghost function LostNodes(w: World, listings: seq<seq<Exec>>, role: Role): set<string> {
    set n | n in w.roles && w.HasRole(n, role) && Lost(w, listings, n)
  }

  function Threshold(w: World, role: Role): int {
    if role == Gateway then w.gatewayThreshold else w.computeThreshold
  }

  /** How many nodes of a role had their most recent execution fail: those the last try counts and the
      lost ones. */
  lemma LatestBadCount(w: World, listings: seq<seq<Exec>>, role: Role)
    requires After(w, listings).tries != [] && (role == Gateway || role == Compute)
    ensures var tries := After(w, listings).tries;
            |LatestBad(w, listings, role)| == |FailedNodes(w, tries[|tries| - 1], role)| + |LostNodes(w, listings, role)|
  {
    hide After, LatestFailed, FailedNodes, Lost;
    FailedIsLastTry(w, listings);
    var p := After(w, listings);
    var last := p.tries[|p.tries| - 1];
    var bad, failed, lost := LatestBad(w, listings, role), FailedNodes(w, last, role), LostNodes(w, listings, role);
    forall n
      ensures n in bad <==> n in failed || n in lost
      ensures !(n in failed && n in lost)
    {
      LatestAreFailedOrLost(w, listings, n);
      FailedMember(w, last, Gateway, n);
      FailedMember(w, last, Compute, n);
    }
    assert bad == failed + lost && failed !! lost;
  }

  /** On a normal return at most the threshold of the nodes of a role (or none) had their most recent
      execution fail, exactly if the lost nodes still fit under the threshold besides the failed ones. */
  lemma MostRecentExactly(w: World, listings: seq<seq<Exec>>, role: Role)
    requires |listings| == 3 && After(w, listings).verdict.Within? && (role == Gateway || role == Compute)
    ensures After(w, listings).tries != []
    ensures var tries := After(w, listings).tries;
            var lost := LostNodes(w, listings, role);
            !Exceeds(LatestBad(w, listings, role), Threshold(w, role)) <==>
            lost == {} || |FailedNodes(w, tries[|tries| - 1], role)| + |lost| <= Threshold(w, role)
  {
    hide After, FailedNodes, LatestBad, LostNodes;
    ReturnsWithinThresholds(w, listings);
    LatestBadCount(w, listings, role);
    assert LatestBad(w, listings, role) == {} <==> |LatestBad(w, listings, role)| == 0;
    assert LostNodes(w, listings, role) == {} <==> |LostNodes(w, listings, role)| == 0;
  }

  /** So it holds if no node that is to be run again loses its pod. */
  lemma MostRecentWithinThresholds(w: World, listings: seq<seq<Exec>>, role: Role)
    requires |listings| == 3 && PodsStay(w, listings) && After(w, listings).verdict.Within?
    requires role == Gateway || role == Compute
    ensures var bad := LatestBad(w, listings, role);
            bad == {} || |bad| <= Threshold(w, role)
  {
    hide After, LatestBad, Lost, FailedNodes;
    MostRecentExactly(w, listings, role);
    assert LostNodes(w, listings, role) == {};
  }

  lemma {:induction false} FailedIsLastTry(w: World, listings: seq<seq<Exec>>)
    ensures var p := After(w, listings);
            p.failed == if p.tries == [] then {}
                        else FailedNodes(w, p.tries[|p.tries| - 1], Gateway) + FailedNodes(w, p.tries[|p.tries| - 1], Compute)
    ensures listings != [] && !After(w, listings).verdict.NoWorkers? ==> After(w, listings).tries != []
  {
    hide FailedNodes, Selected, Exceeds;
    if listings != [] {
      FailedIsLastTry(w, listings[..|listings| - 1]);
    }
  }

  /** A failed compute whose pod is gone when the retry lists the pods counts as recovered: the stage
      returns with threshold 0 although nothing ever succeeded on that node. */
  lemma LostPodCountsAsRecovered(other: string)
    requires other != "cmp"
    ensures var w := World(map["cmp" := {Compute}, other := {Compute}], 0, 0, 0);
            var listings := [[Exec("cmp", false), Exec(other, true)], [Exec(other, true)], [Exec(other, true)]];
            After(w, listings).verdict.Within? && LatestFailed(After(w, listings).tries, "cmp")
  {
    var w := World(map["cmp" := {Compute}, other := {Compute}], 0, 0, 0);
    var bad, good := Exec("cmp", false), Exec(other, true);
    var listings := [[bad, good], [good], [good]];
    hide Once, LatestFailed, After;
    NothingTried(w);
    assert listings[..0] == [];
    LostPodFirst(w, bad, good);
    LostPodSecond(w, bad, good);
    OnceMore(w, listings, 0);
    OnceMore(w, listings, 1);
    Stopped(w, listings, 2);
    assert bad in [bad, good];
    LatestSnoc([], [bad, good], "cmp");
    LatestSnoc([[bad, good]], [], "cmp");
    assert [] + [[bad, good]] == [[bad, good]] && [[bad, good]] + [[]] == [[bad, good], []];
  }

  lemma {:induction false} SelectedAll(listed: seq<Exec>)
    ensures Selected(listed, {}) == listed
  {
    if listed != [] {
      SelectedAll(listed[..|listed| - 1]);
    }
  }

  lemma LostPodFails(w: World, bad: Exec, good: Exec)
    requires bad == Exec("cmp", false) && good.ok && good.node != "cmp"
    requires w == World(map["cmp" := {Compute}, good.node := {Compute}], 0, 0, 0)
    ensures FailedNodes(w, [bad, good], Compute) == {"cmp"} && FailedNodes(w, [bad, good], Gateway) == {}
  {
    hide FailedNodes;
    assert bad in [bad, good];
    forall n
      ensures n in FailedNodes(w, [bad, good], Compute) <==> n == "cmp"
      ensures n !in FailedNodes(w, [bad, good], Gateway)
    {
      FailedMember(w, [bad, good], Compute, n);
      FailedMember(w, [bad, good], Gateway, n);
    }
  }

  lemma LostPodFirst(w: World, bad: Exec, good: Exec)
    requires bad == Exec("cmp", false) && good.ok && good.node != "cmp"
    requires w == World(map["cmp" := {Compute}, good.node := {Compute}], 0, 0, 0)
    ensures Once(w, Progress({}, [], Exceeded), [bad, good]) == Progress({"cmp"}, [[bad, good]], Exceeded)
  {
    hide Selected, FailedNodes;
    SelectedAll([bad, good]);
    LostPodFails(w, bad, good);
    assert |{"cmp"}| == 1;
  }

  lemma LostPodSecond(w: World, bad: Exec, good: Exec)
    requires bad == Exec("cmp", false) && good.ok && good.node != "cmp"
    requires w == World(map["cmp" := {Compute}, good.node := {Compute}], 0, 0, 0)
    ensures Once(w, Progress({"cmp"}, [[bad, good]], Exceeded), [good]) == Progress({}, [[bad, good], []], Within)
  {
    assert [good][..0] == [];
    assert Selected([good], {"cmp"}) == [];
  }
}
