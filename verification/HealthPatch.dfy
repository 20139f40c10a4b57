/**
 How the health of the deployed objects reaches the status of the OpenStackDeployment: two JSON merge
 patches (section 2 of RFC 7396), one that sets and one that removes.
 */
module HealthPatch {
  import opened Wrappers
  import opened JsonTree

  // ---------------------------------------------------------------- merge patches

  /** The members of an object; anything else counts as an empty object. */
  function Members(j: Json): map<string, Json> {
    if j.Dict? then j.entries else map[]
  }

  function Member(j: Json, key: string): Json {
    if key in Members(j) then Members(j)[key] else Null
  }

  predicate Removes(patch: Json, key: string) {
    key in Members(patch) && Members(patch)[key] == Null
  }

  function MergePatch(target: Json, patch: Json): Json
    decreases patch
  {
    if !patch.Dict? then patch else
    var kept := Members(target);
    Dict(map k | k in kept.Keys + patch.entries.Keys && !Removes(patch, k) ::
           if k in patch.entries then MergePatch(Member(target, k), patch.entries[k]) else kept[k])
  }

  /** Patching again with the same patch changes nothing. */
  lemma {:induction false} PatchIdempotent(target: Json, patch: Json)
    ensures MergePatch(MergePatch(target, patch), patch) == MergePatch(target, patch)
    decreases patch
  {
    if patch.Dict? {
      var once := MergePatch(target, patch);
      forall k | k in patch.entries && patch.entries[k] != Null
        ensures MergePatch(once.entries[k], patch.entries[k]) == once.entries[k]
      {
        PatchIdempotent(Member(target, k), patch.entries[k]);
      }
      assert MergePatch(once, patch).entries == once.entries;
    }
  }

  /** What a patch object does, member by member. */
  lemma Patched(target: Json, p: map<string, Json>)
    ensures var r := MergePatch(target, Dict(p));
            && r.Dict?
            && (forall k :: k in r.entries <==> if k in p then p[k] != Null else k in Members(target))
            && (forall k :: k in r.entries ==> r.entries[k] == if k in p then MergePatch(Member(target, k), p[k]) else Members(target)[k])
  {
  }

  /** A patch whose members change nothing changes nothing. */
  lemma PatchIdle(target: Json, p: map<string, Json>)
    requires target.Dict?
    requires forall k :: k in p ==> p[k] != Null && k in target.entries && MergePatch(target.entries[k], p[k]) == target.entries[k]
    ensures MergePatch(target, Dict(p)) == target
  {
    Patched(target, p);
    var r := MergePatch(target, Dict(p));
    hide MergePatch;
    assert r.entries == target.entries;
  }

  // ---------------------------------------------------------------- statuses

  datatype Status = Status(status: string, generation: int)

  /** By service (application), then component. */
  type Statuses = map<string, map<string, Status>>

  datatype K8sObject = K8sObject(service: string, component: string, status: Status)

  /** The last object listed for a service and component. */
  function Latest(objects: seq<K8sObject>, service: string, component: string): Option<Status> {
    if objects == [] then None else
    var o := objects[|objects| - 1];
    if o.service == service && o.component == component then Some(o.status)
    else Latest(objects[..|objects| - 1], service, component)
  }

  predicate IsOf(o: K8sObject, service: string, component: string) {
    o.service == service && o.component == component
  }

  /** The status is that of an object of the service and component after which no other is listed. */
  ghost predicate LastListed(objects: seq<K8sObject>, service: string, component: string, status: Status) {
    exists i :: 0 <= i < |objects| && IsOf(objects[i], service, component) && objects[i].status == status
      && forall j :: i < j < |objects| ==> !IsOf(objects[j], service, component)
  }

  lemma {:induction false} LatestExactly(objects: seq<K8sObject>, service: string, component: string)
    ensures Latest(objects, service, component).None? <==> forall i :: 0 <= i < |objects| ==> !IsOf(objects[i], service, component)
    ensures forall status :: Latest(objects, service, component) == Some(status) <==> LastListed(objects, service, component, status)
  {
    if objects != [] {
      var last := |objects| - 1;
      var init := objects[..last];
      LatestExactly(init, service, component);
      assert forall i :: 0 <= i < last ==> init[i] == objects[i];
      if !IsOf(objects[last], service, component) {
        forall status ensures LastListed(objects, service, component, status) <==> LastListed(init, service, component, status) {
          if i :| 0 <= i < last && IsOf(init[i], service, component) && init[i].status == status
                  && forall j :: i < j < last ==> !IsOf(init[j], service, component) {
            assert objects[i] == init[i];
          }
        }
      }
    }
  }

  ghost predicate Describes(objects: seq<K8sObject>, statuses: Statuses) {
    forall s, c :: (s in statuses && c in statuses[s] <==> Latest(objects, s, c).Some?)
                   && (s in statuses && c in statuses[s] ==> Latest(objects, s, c) == Some(statuses[s][c]))
  }

  method GetHealthStatuses(objects: seq<K8sObject>) returns (healthAll: Statuses)
    ensures Describes(objects, healthAll)
    ensures forall s :: s in healthAll ==> healthAll[s] != map[]
  {
    healthAll := map[];
    for i := 0 to |objects|
      invariant Describes(objects[..i], healthAll)
      invariant forall s :: s in healthAll ==> healthAll[s] != map[]
    {
      var o := objects[i];
      assert objects[..i + 1][..i] == objects[..i];
      var components := if o.service in healthAll then healthAll[o.service] else map[];
      var more := components[o.component := o.status];
      assert o.component in more;
      healthAll := healthAll[o.service := more];
    }
    assert objects[..|objects|] == objects;
  }

  const BAD := "Unhealthy"

  predicate Bad(components: map<string, Status>) {
    exists c :: c in components && components[c].status == BAD
  }

  ghost function BadOnes(statuses: Statuses, todo: set<string>): set<string> {
    set s | s in statuses && s !in todo && Bad(statuses[s])
  }

  ghost function Good(statuses: Statuses): set<string> {
    set s | s in statuses && !Bad(statuses[s])
  }

  lemma BadStep(statuses: Statuses, todo: set<string>, s: string)
    requires s in todo && s in statuses
    ensures |BadOnes(statuses, todo - {s})| == |BadOnes(statuses, todo)| + if Bad(statuses[s]) then 1 else 0
  {
    hide Bad;
    assert BadOnes(statuses, todo - {s}) == BadOnes(statuses, todo) + if Bad(statuses[s]) then {s} else {};
  }

  lemma GoodAndBad(statuses: Statuses)
    ensures |statuses.Keys| == |Good(statuses)| + |BadOnes(statuses, {})|
  {
    hide Bad;
    assert statuses.Keys == Good(statuses) + BadOnes(statuses, {});
  }

  /** The two numbers of get_overall_health. */
  method GetOverallHealth(statuses: Statuses) returns (ready: int, total: int)
    ensures total == |statuses.Keys| && ready == |Good(statuses)|
  {
    var notReady: seq<string> := [];
    total := |statuses.Keys|;
    var todo := statuses.Keys;
    assert BadOnes(statuses, todo) == {};
    hide BadOnes, Bad, Good;
    while todo != {}
      invariant todo <= statuses.Keys
      invariant |notReady| == |BadOnes(statuses, todo)|
      decreases |todo|
    {
      var service :| service in todo;
      BadStep(statuses, todo, service);
      todo := todo - {service};
      var bad := AnyBad(statuses[service]);
      if bad {
        notReady := notReady + [service];
      }
    }
    ready := total - |notReady|;
    GoodAndBad(statuses);
  }

  method AnyBad(components: map<string, Status>) returns (bad: bool)
    ensures bad == Bad(components)
  {
    var todo := components.Keys;
    while todo != {}
      invariant todo <= components.Keys
      invariant forall c :: c in components && c !in todo ==> components[c].status != BAD
      decreases |todo|
    {
      var c :| c in todo;
      if components[c].status == BAD {
        return true;
      }
      todo := todo - {c};
    }
    return false;
  }

  // ---------------------------------------------------------------- the two patches

  function StatusJson(st: Status): Json {
    Dict(map["status" := Str(st.status), "generation" := Int(st.generation)])
  }

  function ComponentsJson(components: map<string, Status>): (r: Json)
    ensures r.Dict? && r.entries.Keys == components.Keys
  {
    Dict(map c | c in components :: StatusJson(components[c]))
  }

  function StatusesJson(statuses: Statuses): Json {
    Dict(map s | s in statuses :: ComponentsJson(statuses[s]))
  }

  /** set_osdpl_health patches the whole object. */
  function HealthIn(health: Json): Json {
    Dict(map["status" := Dict(map["health" := health])])
  }

  function HealthOf(obj: Json): Json {
    Member(Member(obj, "status"), "health")
  }

  function StaleComponents(stored: Json, components: map<string, Status>): set<string> {
    set c | c in Members(stored) && c !in components
  }

  function RemovalPatch(stored: Json, statuses: Statuses): Json {
    Dict(map s | s in Members(stored) && (s in statuses ==> StaleComponents(Members(stored)[s], statuses[s]) != {}) ::
           if s !in statuses then Null
           else Dict(map c | c in StaleComponents(Members(stored)[s], statuses[s]) :: Null))
  }

  /** The removal patch while the services in `todo` are not yet looked into. */
  ghost function RemovalPart(stored: Json, statuses: Statuses, todo: set<string>): map<string, Json> {
    var removal := RemovalPatch(stored, statuses).entries;
    map s | s in removal && (s in statuses ==> s !in todo) :: removal[s]
  }

  lemma RemovalStep(stored: Json, statuses: Statuses, todo: set<string>, s: string)
    requires s in todo && s in Members(stored) && (s in statuses ==> Members(stored)[s].Dict?)
    ensures var patch := RemovalPart(stored, statuses, todo);
            RemovalPart(stored, statuses, todo - {s}) ==
            if s !in statuses then patch else
            var stale := map c | c in Members(stored)[s].entries && c !in statuses[s] :: Null;
            if stale == map[] then patch else patch[s := Dict(stale)]
  {
    if s in statuses {
      var stale := map c | c in Members(stored)[s].entries && c !in statuses[s] :: Null;
      assert stale.Keys == StaleComponents(Members(stored)[s], statuses[s]);
      hide StaleComponents;
      assert stale == map c | c in StaleComponents(Members(stored)[s], statuses[s]) :: Null;
    }
  }

  /** One pass of update_health_statuses over the stored object. */
  function Pass(obj: Json, statuses: Statuses): Json {
    var done := MergePatch(obj, HealthIn(StatusesJson(statuses)));
    var removal := RemovalPatch(HealthOf(done), statuses);
    if removal == Dict(map[]) then done else MergePatch(done, HealthIn(removal))
  }

  /** The OpenStackDeploymentStatus object in the cluster. */
  class StatusObject {
    var obj: Json

    constructor (obj: Json)
      ensures this.obj == obj
    {
      this.obj := obj;
    }

    method SetHealth(health: Json)
      modifies this
      ensures obj == MergePatch(old(obj), HealthIn(health))
    {
      obj := MergePatch(obj, HealthIn(health));
    }

    /** Reading fails if there is no health map, which a patch just before rules out. */
    method GetHealth() returns (health: map<string, Json>)
      requires HealthOf(obj).Dict?
      ensures health == HealthOf(obj).entries
    {
      health := HealthOf(obj).entries;
    }

    method RemoveStaleStatuses(statuses: Statuses)
      requires HealthOf(obj).Dict?
      requires forall s :: s in HealthOf(obj).entries && s in statuses ==> HealthOf(obj).entries[s].Dict?
      modifies this
      ensures var removal := RemovalPatch(old(HealthOf(obj)), statuses);
              obj == if removal == Dict(map[]) then old(obj) else MergePatch(old(obj), HealthIn(removal))
    {
      var oldStatuses := GetHealth();
      ghost var removal := RemovalPatch(HealthOf(obj), statuses).entries;
      ghost var health := HealthOf(obj);
      var patch: map<string, Json> := map s | s in oldStatuses.Keys - statuses.Keys :: Null;
      var todo := oldStatuses.Keys;
      assert patch == RemovalPart(health, statuses, todo);
      assert removal == RemovalPart(health, statuses, {});
      hide RemovalPatch, RemovalPart, HealthOf, StaleComponents;
      while todo != {}
        invariant obj == old(obj) && todo <= oldStatuses.Keys
        invariant patch == RemovalPart(health, statuses, todo)
        decreases |todo|
      {
        var service :| service in todo;
        RemovalStep(health, statuses, todo, service);
        todo := todo - {service};
        if service in statuses {
          var patchComponents := StaleOf(oldStatuses[service].entries, statuses[service]);
          if patchComponents != map[] {
            patch := patch[service := Dict(patchComponents)];
          }
        }
      }
      if patch != map[] {
        SetHealth(Dict(patch));
      }
    }

    method UpdateHealthStatuses(objects: seq<K8sObject>) returns (overall: (int, int))
      modifies this
      ensures exists statuses :: Describes(objects, statuses) && obj == Pass(old(obj), statuses)
                                 && overall == (|Good(statuses)|, |statuses.Keys|)
    {
      var statuses := GetHealthStatuses(objects);
      SetHealth(StatusesJson(statuses));
      SetIsThere(old(obj), statuses);
      RemoveStaleStatuses(statuses);
      var ready, total := GetOverallHealth(statuses);
      overall := (ready, total);
      assert Describes(objects, statuses) && obj == Pass(old(obj), statuses);
    }
  }

  method StaleOf(stored: map<string, Json>, components: map<string, Status>) returns (patch: map<string, Json>)
    ensures patch == map c | c in stored && c !in components :: Null
  {
    patch := map[];
    var todo := stored.Keys;
    while todo != {}
      invariant todo <= stored.Keys
      invariant patch == map c | c in stored && c !in components && c !in todo :: Null
      decreases |todo|
    {
      var c :| c in todo;
      if c !in components {
        patch := patch[c := Null];
      }
      todo := todo - {c};
    }
  }

  /** What the first patch leaves at the health map. */
  lemma SetIsThere(obj: Json, statuses: Statuses)
    ensures var health := HealthOf(MergePatch(obj, HealthIn(StatusesJson(statuses))));
            && health == MergePatch(HealthOf(obj), StatusesJson(statuses))
            && health.Dict?
            && (forall s :: s in statuses ==> s in health.entries && health.entries[s].Dict?)
  {
    HealthPatched(obj, StatusesJson(statuses));
    Patched(HealthOf(obj), StatusesJson(statuses).entries);
    hide MergePatch;
    forall s | s in statuses
      ensures MergePatch(Member(HealthOf(obj), s), ComponentsJson(statuses[s])).Dict?
    {
      Patched(Member(HealthOf(obj), s), ComponentsJson(statuses[s]).entries);
    }
  }

  // ---------------------------------------------------------------- what a pass leaves

  /** A component's health as stored: status and generation as computed; any other field as it was. */
  ghost predicate Shows(stored: Json, before: Json, st: Status) {
    && stored.Dict?
    && Member(stored, "status") == Str(st.status) && Member(stored, "generation") == Int(st.generation)
    && (forall f :: f != "status" && f != "generation" ==> Field(stored, f) == Field(before, f))
  }

  function Field(j: Json, f: string): Option<Json> {
    if f in Members(j) then Some(Members(j)[f]) else None
  }

  lemma StatusShown(before: Json, st: Status)
    ensures Shows(MergePatch(before, StatusJson(st)), before, st)
  {
    Patched(before, StatusJson(st).entries);
    assert MergePatch(Member(before, "status"), Str(st.status)) == Str(st.status);
    assert MergePatch(Member(before, "generation"), Int(st.generation)) == Int(st.generation);
    hide MergePatch;
  }

  /** Exactly the components of the statuses. */
  ghost predicate ServiceExactly(service: Json, before: Json, components: map<string, Status>) {
    && service.Dict? && service.entries.Keys == components.Keys
    && forall c :: c in components ==> Shows(service.entries[c], Member(before, c), components[c])
  }

  /** Exactly the services of the statuses, each with its components. */
  ghost predicate Exactly(health: Json, before: Json, statuses: Statuses) {
    && health.Dict? && health.entries.Keys == statuses.Keys
    && forall s :: s in statuses ==> ServiceExactly(health.entries[s], Member(before, s), statuses[s])
  }

  /** The first patch adds, the second removes: on the health map alone. */
  lemma TwoPatches(before: Json, statuses: Statuses)
    ensures var added := MergePatch(before, StatusesJson(statuses));
            Exactly(MergePatch(added, RemovalPatch(added, statuses)), before, statuses)
  {
    hide MergePatch, ServiceExactly, StaleComponents, ComponentsJson;
    var added := MergePatch(before, StatusesJson(statuses));
    var removal := RemovalPatch(added, statuses);
    var health := MergePatch(added, removal);
    Patched(before, StatusesJson(statuses).entries);
    Patched(added, removal.entries);
    assert forall s :: s in health.entries <==> s in statuses;
    forall s | s in statuses ensures ServiceExactly(health.entries[s], Member(before, s), statuses[s]) {
      assert added.entries[s] == MergePatch(Member(before, s), ComponentsJson(statuses[s]));
      ServicePatches(Member(before, s), statuses[s]);
    }
  }

  lemma ComponentsAdded(before: Json, components: map<string, Status>)
    ensures var added := MergePatch(before, ComponentsJson(components));
            && added.Dict? && components.Keys <= added.entries.Keys
            && forall c :: c in components ==> Shows(added.entries[c], Member(before, c), components[c])
  {
    hide MergePatch, Shows;
    Patched(before, ComponentsJson(components).entries);
    forall c | c in components
      ensures Shows(MergePatch(before, ComponentsJson(components)).entries[c], Member(before, c), components[c])
    {
      StatusShown(Member(before, c), components[c]);
    }
  }

  lemma ServicePatches(before: Json, components: map<string, Status>)
    ensures var added := MergePatch(before, ComponentsJson(components));
            var stale := StaleComponents(added, components);
            ServiceExactly(if stale == {} then added else MergePatch(added, Dict(map c | c in stale :: Null)), before, components)
  {
    hide MergePatch, Shows, ComponentsJson;
    var added := MergePatch(before, ComponentsJson(components));
    var stale := StaleComponents(added, components);
    var nulls: map<string, Json> := map c | c in stale :: Null;
    var done := MergePatch(added, Dict(nulls));
    ComponentsAdded(before, components);
    Patched(added, nulls);
    assert stale == added.entries.Keys - components.Keys;
    assert done.entries.Keys == components.Keys;
  }

  lemma HealthPatched(obj: Json, health: Json)
    requires health.Dict?
    ensures HealthOf(MergePatch(obj, HealthIn(health))) == MergePatch(HealthOf(obj), health)
  {
    hide MergePatch;
    var status := Dict(map["health" := health]);
    Patched(obj, map["status" := status]);
    Patched(Member(obj, "status"), map["health" := health]);
  }

  /** Whatever was stored, a pass leaves exactly the services and components of the statuses, with their
      status and generation. */
  lemma PassExactly(obj: Json, statuses: Statuses)
    ensures Exactly(HealthOf(Pass(obj, statuses)), HealthOf(obj), statuses)
  {
    var done := MergePatch(obj, HealthIn(StatusesJson(statuses)));
    HealthPatched(obj, StatusesJson(statuses));
    var added := HealthOf(done);
    var removal := RemovalPatch(added, statuses);
    HealthPatched(done, removal);
    TwoPatches(HealthOf(obj), statuses);
    Patched(HealthOf(obj), StatusesJson(statuses).entries);
    hide MergePatch, HealthOf, HealthIn, RemovalPatch, StatusesJson, Exactly;
    if removal == Dict(map[]) {
      PatchIdle(added, map[]);
    }
  }

  /** Nothing else of the object is touched. */
  lemma PassLeavesTheRest(obj: Json, statuses: Statuses, f: string)
    ensures f != "status" ==> Field(Pass(obj, statuses), f) == Field(obj, f)
    ensures f != "health" ==> Field(Member(Pass(obj, statuses), "status"), f) == Field(Member(obj, "status"), f)
  {
    var done := MergePatch(obj, HealthIn(StatusesJson(statuses)));
    RestPatched(obj, StatusesJson(statuses), f);
    RestPatched(done, RemovalPatch(HealthOf(done), statuses), f);
    hide MergePatch, HealthOf, HealthIn, RemovalPatch, StatusesJson;
  }

  lemma RestPatched(obj: Json, health: Json, f: string)
    requires health.Dict?
    ensures f != "status" ==> Field(MergePatch(obj, HealthIn(health)), f) == Field(obj, f)
    ensures f != "health" ==> Field(Member(MergePatch(obj, HealthIn(health)), "status"), f) == Field(Member(obj, "status"), f)
  {
    var status := Dict(map["health" := health]);
    Patched(obj, map["status" := status]);
    Patched(Member(obj, "status"), map["health" := health]);
    hide MergePatch;
  }

  /** Another pass with the same statuses finds nothing to remove and changes nothing. */
  lemma SecondPassIdle(obj: Json, statuses: Statuses)
    ensures var done := Pass(obj, statuses);
            && RemovalPatch(HealthOf(done), statuses) == Dict(map[])
            && Pass(done, statuses) == done
  {
    var done := Pass(obj, statuses);
    var health := HealthOf(done);
    PassExactly(obj, statuses);
    NothingToRemove(health, HealthOf(obj), statuses);
    NothingToSet(health, HealthOf(obj), statuses);
    assert health.Dict?;
    hide RemovalPatch, Exactly;
    HealthUnchanged(done, StatusesJson(statuses));
  }

  lemma NothingToRemove(health: Json, before: Json, statuses: Statuses)
    requires Exactly(health, before, statuses)
    ensures RemovalPatch(health, statuses) == Dict(map[])
  {
    hide Shows;
    forall s | s in statuses ensures StaleComponents(health.entries[s], statuses[s]) == {} {
      assert ServiceExactly(health.entries[s], Member(before, s), statuses[s]);
    }
    assert RemovalPatch(health, statuses).entries == map[];
  }

  lemma NothingToSet(health: Json, before: Json, statuses: Statuses)
    requires Exactly(health, before, statuses)
    ensures MergePatch(health, StatusesJson(statuses)) == health
  {
    hide MergePatch, ServiceExactly;
    forall s | s in statuses ensures MergePatch(health.entries[s], ComponentsJson(statuses[s])) == health.entries[s] {
      ServiceUnchanged(health.entries[s], Member(before, s), statuses[s]);
    }
    PatchIdle(health, StatusesJson(statuses).entries);
  }

  lemma ServiceUnchanged(service: Json, before: Json, components: map<string, Status>)
    requires ServiceExactly(service, before, components)
    ensures MergePatch(service, ComponentsJson(components)) == service
  {
    forall c | c in components ensures MergePatch(service.entries[c], StatusJson(components[c])) == service.entries[c] {
      ShownAlready(service.entries[c], Member(before, c), components[c]);
    }
    hide MergePatch, Shows;
    PatchIdle(service, ComponentsJson(components).entries);
  }

  lemma ShownAlready(stored: Json, before: Json, st: Status)
    requires Shows(stored, before, st)
    ensures MergePatch(stored, StatusJson(st)) == stored
  {
    assert MergePatch(Member(stored, "status"), Str(st.status)) == Str(st.status);
    assert MergePatch(Member(stored, "generation"), Int(st.generation)) == Int(st.generation);
    hide MergePatch;
    PatchIdle(stored, StatusJson(st).entries);
  }

  lemma HealthUnchanged(obj: Json, health: Json)
    requires health.Dict? && HealthOf(obj).Dict? && MergePatch(HealthOf(obj), health) == HealthOf(obj)
    ensures MergePatch(obj, HealthIn(health)) == obj
  {
    hide MergePatch;
    PatchIdle(Member(obj, "status"), map["health" := health]);
    PatchIdle(obj, map["status" := Dict(map["health" := health])]);
  }
}
