/**
 Ingress network policies are derived from the egress connections declared in the child tree, and
 policies of one destination with the same ports are squashed into one.
 */
module NetworkPolicies {
  import opened Wrappers

  /** podSelector.matchLabels */
  datatype Selector = Selector(labels: map<string, string>)

  datatype Port = Port(protocol: string, port: int)

  datatype NamedPort = NamedPort(name: string, value: Port)

  /** One egress entry of a child's meta; entries without to_child_object have no target. */
  datatype Egress = Egress(target: Option<string>, ports: seq<string>)

  datatype Child = Child(labels: Option<Selector>, ports: seq<NamedPort>, egress: seq<Egress>)

  /** The children by identifier, in the order they were read. */
  datatype Tree = Tree(order: seq<string>, childs: map<string, Child>)

  ghost predicate ValidTree(tree: Tree) {
    && (forall i, j :: 0 <= i < j < |tree.order| ==> tree.order[i] != tree.order[j])
    && (forall c :: c in tree.order <==> c in tree.childs)
  }

  datatype Policy = Policy(sources: seq<Selector>, ports: seq<Port>)

  /** How Kubernetes reads an ingress rule: an empty list of sources or of ports restricts nothing. */
  predicate Permits(p: Policy, source: Selector, port: Port) {
    (p.sources == [] || source in p.sources) && (p.ports == [] || port in p.ports)
  }

  predicate Allows(policies: seq<Policy>, source: Selector, port: Port) {
    exists i :: 0 <= i < |policies| && Permits(policies[i], source, port)
  }

  // ---------------------------------------------------------------- squash_policies

  type Hash = seq<Port> -> int

  /** Where the policy with this port hash is, or the length. */
  function Find(hash: Hash, policies: seq<Policy>, k: int): (i: nat)
    ensures i <= |policies|
    ensures i < |policies| ==> hash(policies[i].ports) == k
    ensures forall j :: 0 <= j < i ==> hash(policies[j].ports) != k
  {
    if policies == [] || hash(policies[0].ports) == k then 0 else 1 + Find(hash, policies[1..], k)
  }

  /** One more policy: its sources join those under the same port hash, where its ports are stored. */
  function Add(hash: Hash, squashed: seq<Policy>, p: Policy): seq<Policy> {
    var i := Find(hash, squashed, hash(p.ports));
    if i < |squashed| then squashed[i := Policy(squashed[i].sources + p.sources, p.ports)] else squashed + [p]
  }

  function Squash(hash: Hash, policies: seq<Policy>): seq<Policy> {
    if policies == [] then [] else Add(hash, Squash(hash, policies[..|policies| - 1]), policies[|policies| - 1])
  }

  /** The dictionaries of squash_policies, their keys in order of insertion, hold these policies. */
  ghost predicate Holds(hash: Hash, keys: seq<int>, ports: map<int, seq<Port>>, sources: map<int, seq<Selector>>, policies: seq<Policy>) {
    && |keys| == |policies|
    && (forall i, j :: 0 <= i < j < |keys| ==> keys[i] != keys[j])
    && (forall i :: 0 <= i < |keys| ==> keys[i] in ports && keys[i] in sources)
    && (forall i :: 0 <= i < |keys| ==> hash(ports[keys[i]]) == keys[i] && policies[i] == Policy(sources[keys[i]], ports[keys[i]]))
    && (forall k :: k in ports || k in sources ==> k in keys)
  }

  lemma HoldsUpdate(hash: Hash, keys: seq<int>, ports: map<int, seq<Port>>, sources: map<int, seq<Selector>>, policies: seq<Policy>, p: Policy)
    requires Holds(hash, keys, ports, sources, policies) && hash(p.ports) in keys
    ensures var k := hash(p.ports);
            Holds(hash, keys, ports[k := p.ports], sources[k := sources[k] + p.sources], Add(hash, policies, p))
  {
    var k := hash(p.ports);
    var i := Find(hash, policies, k);
    var j :| 0 <= j < |keys| && keys[j] == k;
    assert hash(policies[j].ports) == k;
    assert i < |keys| && hash(policies[i].ports) == keys[i];
    assert i == j;
  }

  lemma HoldsAppend(hash: Hash, keys: seq<int>, ports: map<int, seq<Port>>, sources: map<int, seq<Selector>>, policies: seq<Policy>, p: Policy)
    requires Holds(hash, keys, ports, sources, policies) && hash(p.ports) !in keys
    ensures var k := hash(p.ports);
            && k !in ports && k !in sources
            && Holds(hash, keys + [k], ports[k := p.ports], sources[k := [] + p.sources], Add(hash, policies, p))
  {
    var k := hash(p.ports);
    assert Find(hash, policies, k) == |policies|;
    assert [] + p.sources == p.sources;
  }

  method SquashPolicies(hash: Hash, policies: seq<Policy>) returns (squashed: seq<Policy>)
    ensures squashed == Squash(hash, policies)
  {
    var keys: seq<int> := [];
    var portsHashes: map<int, seq<Port>> := map[];
    var policyFrom: map<int, seq<Selector>> := map[];
    for i := 0 to |policies|
      invariant Holds(hash, keys, portsHashes, policyFrom, Squash(hash, policies[..i]))
    {
      assert policies[..i + 1][..i] == policies[..i];
      var k := hash(policies[i].ports);
      if k in keys {
        HoldsUpdate(hash, keys, portsHashes, policyFrom, Squash(hash, policies[..i]), policies[i]);
      } else {
        HoldsAppend(hash, keys, portsHashes, policyFrom, Squash(hash, policies[..i]), policies[i]);
      }
      if k !in portsHashes {
        keys := keys + [k];
      }
      portsHashes := portsHashes[k := policies[i].ports];
      policyFrom := policyFrom[k := (if k in policyFrom then policyFrom[k] else []) + policies[i].sources];
    }
    assert policies[..|policies|] == policies;
    squashed := [];
    for i := 0 to |keys|
      invariant |squashed| == i && forall j :: 0 <= j < i ==> squashed[j] == Squash(hash, policies)[j]
    {
      squashed := squashed + [Policy(policyFrom[keys[i]], portsHashes[keys[i]])];
    }
  }

  ghost predicate Injective(hash: Hash) {
    forall x: seq<Port>, y: seq<Port> {:trigger hash(x), hash(y)} :: hash(x) == hash(y) ==> x == y
  }

  predicate PortsDiffer(policies: seq<Policy>) {
    forall i, j :: 0 <= i < j < |policies| ==> policies[i].ports != policies[j].ports
  }

  predicate Sourced(policies: seq<Policy>) {
    forall i :: 0 <= i < |policies| ==> policies[i].sources != []
  }

  /** A policy that names no source lets everyone in; squashed with one that does, it no longer does. */
  lemma SourcelessPolicyIsNarrowed(hash: Hash, port: Port, one: Selector, other: Selector)
    requires one != other
    ensures var policies := [Policy([], [port]), Policy([one], [port])];
            Allows(policies, other, port) && !Allows(Squash(hash, policies), other, port)
  {
    var all, some := Policy([], [port]), Policy([one], [port]);
    assert [all, some][..1] == [all] && [all][..0] == [];
    assert Squash(hash, []) == [];
    assert Squash(hash, [all]) == Add(hash, [], all) == [all];
    assert [] + [one] == [one];
    assert Squash(hash, [all, some]) == Add(hash, [all], some) == [some];
    assert Permits([all, some][0], other, port);
  }

  predicate HasPorts(policies: seq<Policy>, ports: seq<Port>) {
    exists i :: 0 <= i < |policies| && policies[i].ports == ports
  }

  /** The sources of all policies with these ports. */
  function SourcesOf(policies: seq<Policy>, ports: seq<Port>): seq<Selector> {
    if policies == [] then [] else
    var last := policies[|policies| - 1];
    SourcesOf(policies[..|policies| - 1], ports) + if last.ports == ports then last.sources else []
  }

  lemma HasPortsSnoc(policies: seq<Policy>, p: Policy, ports: seq<Port>)
    ensures HasPorts(policies + [p], ports) <==> HasPorts(policies, ports) || p.ports == ports
  {
    assert (policies + [p])[|policies|] == p;
    assert forall i :: 0 <= i < |policies| ==> (policies + [p])[i] == policies[i];
  }

  lemma AddGroups(hash: Hash, squashed: seq<Policy>, p: Policy)
    requires Injective(hash) && PortsDiffer(squashed)
    ensures var next := Add(hash, squashed, p);
            && PortsDiffer(next)
            && (forall ports :: HasPorts(next, ports) <==> HasPorts(squashed, ports) || ports == p.ports)
            && (forall j :: 0 <= j < |next| && next[j].ports != p.ports ==> j < |squashed| && next[j] == squashed[j])
            && (forall j :: 0 <= j < |next| && next[j].ports == p.ports ==>
                  if j < |squashed| then squashed[j].ports == p.ports && next[j].sources == squashed[j].sources + p.sources
                  else !HasPorts(squashed, p.ports) && next[j] == p)
  {
    var i := Find(hash, squashed, hash(p.ports));
    if i < |squashed| {
      var next := Add(hash, squashed, p);
      assert squashed[i].ports == p.ports;
      assert forall j :: 0 <= j < |squashed| ==> next[j].ports == squashed[j].ports;
      forall ports ensures HasPorts(next, ports) <==> HasPorts(squashed, ports) {
        if j :| 0 <= j < |squashed| && squashed[j].ports == ports {
          assert next[j].ports == ports;
        }
      }
    } else {
      forall ports ensures HasPorts(squashed + [p], ports) <==> HasPorts(squashed, ports) || ports == p.ports {
        HasPortsSnoc(squashed, p, ports);
      }
    }
  }

  /** What squashing does, exactly: every port list of the policies once, with the sources of all
      policies that have it. */
  lemma {:induction false} SquashGroups(hash: Hash, policies: seq<Policy>)
    requires Injective(hash)
    ensures PortsDiffer(Squash(hash, policies))
    ensures forall ports :: HasPorts(Squash(hash, policies), ports) <==> HasPorts(policies, ports)
    ensures forall j :: 0 <= j < |Squash(hash, policies)| ==>
              Squash(hash, policies)[j].sources == SourcesOf(policies, Squash(hash, policies)[j].ports)
  {
    if policies != [] {
      var init, p := policies[..|policies| - 1], policies[|policies| - 1];
      SquashGroups(hash, init);
      var before, next := Squash(hash, init), Squash(hash, policies);
      AddGroups(hash, before, p);
      assert policies == init + [p];
      forall ports ensures HasPorts(policies, ports) <==> HasPorts(init, ports) || p.ports == ports {
        HasPortsSnoc(init, p, ports);
      }
      hide Add, HasPorts, Injective;
      assert next == Add(hash, before, p);
      forall j | 0 <= j < |next| ensures next[j].sources == SourcesOf(policies, next[j].ports) {
        if next[j].ports == p.ports && j >= |before| {
          NoSources(init, p.ports);
        }
      }
    }
  }

  lemma {:induction false} NoSources(policies: seq<Policy>, ports: seq<Port>)
    requires !HasPorts(policies, ports)
    ensures SourcesOf(policies, ports) == []
  {
    if policies != [] {
      var init, last := policies[..|policies| - 1], policies[|policies| - 1];
      assert policies == init + [last];
      HasPortsSnoc(init, last, ports);
      NoSources(init, ports);
    }
  }

  predicate PortOpen(p: Policy, port: Port) {
    p.ports == [] || port in p.ports
  }

  predicate AllSourceless(policies: seq<Policy>, ports: seq<Port>) {
    forall i :: 0 <= i < |policies| && policies[i].ports == ports ==> policies[i].sources == []
  }

  lemma {:induction false} SourcesOfMembers(policies: seq<Policy>, ports: seq<Port>, source: Selector)
    ensures source in SourcesOf(policies, ports) <==> exists i :: 0 <= i < |policies| && policies[i].ports == ports && source in policies[i].sources
    ensures SourcesOf(policies, ports) == [] <==> AllSourceless(policies, ports)
  {
    if policies != [] {
      var init, last := policies[..|policies| - 1], policies[|policies| - 1];
      SourcesOfMembers(init, ports, source);
      assert forall i :: 0 <= i < |init| ==> init[i] == policies[i];
      if AllSourceless(init, ports) && (last.ports == ports ==> last.sources == []) {
        assert AllSourceless(policies, ports);
      }
    }
  }

  /** A policy through which the squashed policies let the source in. */
  predicate LetsIn(policies: seq<Policy>, i: nat, source: Selector, port: Port)
    requires i < |policies|
  {
    PortOpen(policies[i], port) && (AllSourceless(policies, policies[i].ports) || source in policies[i].sources)
  }

  lemma SquashedLetsIn(hash: Hash, policies: seq<Policy>, source: Selector, port: Port, j: nat) returns (i: nat)
    requires Injective(hash) && j < |Squash(hash, policies)| && Permits(Squash(hash, policies)[j], source, port)
    ensures i < |policies| && LetsIn(policies, i, source, port)
  {
    SquashGroups(hash, policies);
    var q := Squash(hash, policies)[j];
    assert HasPorts(Squash(hash, policies), q.ports);
    hide Squash, SourcesOf, Injective, AllSourceless;
    SourcesOfMembers(policies, q.ports, source);
    if q.sources == [] {
      i :| 0 <= i < |policies| && policies[i].ports == q.ports;
    } else {
      i :| 0 <= i < |policies| && policies[i].ports == q.ports && source in policies[i].sources;
    }
  }

  lemma LetsInSquashed(hash: Hash, policies: seq<Policy>, source: Selector, port: Port, i: nat)
    requires Injective(hash) && i < |policies| && LetsIn(policies, i, source, port)
    ensures Allows(Squash(hash, policies), source, port)
  {
    SquashGroups(hash, policies);
    var squashed := Squash(hash, policies);
    assert HasPorts(policies, policies[i].ports);
    hide Squash, SourcesOf, Injective, AllSourceless;
    SourcesOfMembers(policies, policies[i].ports, source);
    var j :| 0 <= j < |squashed| && squashed[j].ports == policies[i].ports;
    assert Permits(squashed[j], source, port);
  }

  /** The traffic that the squashed policies allow, in terms of the policies. */
  lemma SquashAllows(hash: Hash, policies: seq<Policy>, source: Selector, port: Port)
    requires Injective(hash)
    ensures Allows(Squash(hash, policies), source, port) <==> exists i :: 0 <= i < |policies| && LetsIn(policies, i, source, port)
  {
    hide Squash, LetsIn, Injective;
    var squashed := Squash(hash, policies);
    if Allows(squashed, source, port) {
      var j :| 0 <= j < |squashed| && Permits(squashed[j], source, port);
      var i := SquashedLetsIn(hash, policies, source, port, j);
    }
    if i :| 0 <= i < |policies| && LetsIn(policies, i, source, port) {
      LetsInSquashed(hash, policies, source, port, i);
    }
  }

  function Label(s: Selector): string {
    if "k" in s.labels then s.labels["k"] else ""
  }

  /** A selector that is none of these. */
  lemma {:induction false} Fresh(policies: seq<Policy>) returns (length: nat)
    ensures forall i, s :: 0 <= i < |policies| && s in policies[i].sources ==> |Label(s)| < length
  {
    length := 0;
    if policies != [] {
      var init, last := policies[..|policies| - 1], policies[|policies| - 1];
      length := Fresh(init);
      assert forall i :: 0 <= i < |init| ==> init[i] == policies[i];
      var m := FreshAmong(last.sources);
      length := if length < m then m else length;
    }
  }

  lemma {:induction false} FreshAmong(sources: seq<Selector>) returns (length: nat)
    ensures forall s :: s in sources ==> |Label(s)| < length
  {
    length := 0;
    if sources != [] {
      length := FreshAmong(sources[1..]);
      assert forall s :: s in sources ==> s == sources[0] || s in sources[1..];
      length := if length < |Label(sources[0])| + 1 then |Label(sources[0])| + 1 else length;
    }
  }

  predicate KeepsOpenPorts(policies: seq<Policy>, port: Port) {
    (exists i :: 0 <= i < |policies| && policies[i].sources == [] && PortOpen(policies[i], port)) ==>
    exists k :: 0 <= k < |policies| && PortOpen(policies[k], port) && AllSourceless(policies, policies[k].ports)
  }

  /** Squashing keeps the traffic to a port, from any source, exactly if the port, when it is open to
      everyone, is open through a port list none of whose policies names a source. */
  lemma SquashKeepsTrafficExactly(hash: Hash, policies: seq<Policy>, port: Port)
    requires Injective(hash)
    ensures (forall source :: Allows(Squash(hash, policies), source, port) <==> Allows(policies, source, port))
            <==> KeepsOpenPorts(policies, port)
  {
    forall source
      ensures Allows(Squash(hash, policies), source, port) <==> exists i :: 0 <= i < |policies| && LetsIn(policies, i, source, port)
    {
      SquashAllows(hash, policies, source, port);
    }
    hide Squash, Injective;
    if KeepsOpenPorts(policies, port) {
      forall source ensures Allows(Squash(hash, policies), source, port) <==> Allows(policies, source, port) {
        KeepsOne(hash, policies, source, port);
      }
    } else {
      var length := Fresh(policies);
      var source := Selector(map["k" := seq(length, _ => 'k')]);
      assert |Label(source)| == length;
      var i :| 0 <= i < |policies| && policies[i].sources == [] && PortOpen(policies[i], port);
      assert Permits(policies[i], source, port);
      assert forall k :: 0 <= k < |policies| ==> source !in policies[k].sources;
      assert Allows(policies, source, port) && !Allows(Squash(hash, policies), source, port);
    }
  }

  lemma KeepsOne(hash: Hash, policies: seq<Policy>, source: Selector, port: Port)
    requires KeepsOpenPorts(policies, port)
    requires Allows(Squash(hash, policies), source, port) <==> exists i :: 0 <= i < |policies| && LetsIn(policies, i, source, port)
    ensures Allows(Squash(hash, policies), source, port) <==> Allows(policies, source, port)
  {
    hide Squash;
    if i :| 0 <= i < |policies| && LetsIn(policies, i, source, port) {
      assert Permits(policies[i], source, port);
    }
    if Allows(policies, source, port) {
      var i :| 0 <= i < |policies| && Permits(policies[i], source, port);
      if policies[i].sources == [] {
        assert PortOpen(policies[i], port);
        var k :| 0 <= k < |policies| && PortOpen(policies[k], port) && AllSourceless(policies, policies[k].ports);
        assert LetsIn(policies, k, source, port);
      } else {
        assert LetsIn(policies, i, source, port);
      }
    }
  }

  /** No two squashed policies have the same ports. */
  lemma SquashedPortsDiffer(hash: Hash, policies: seq<Policy>)
    requires Injective(hash)
    ensures PortsDiffer(Squash(hash, policies))
  {
    SquashGroups(hash, policies);
  }

  /** Squashing allows exactly the traffic that was allowed, if every policy names a source. */
  lemma SquashKeepsTraffic(hash: Hash, policies: seq<Policy>, source: Selector, port: Port)
    requires Injective(hash) && Sourced(policies)
    ensures PortsDiffer(Squash(hash, policies)) && Sourced(Squash(hash, policies))
    ensures Allows(Squash(hash, policies), source, port) <==> Allows(policies, source, port)
  {
    hide Squash, Injective, Allows, SourcesOf;
    SquashKeepsTrafficExactly(hash, policies, port);
    SquashGroups(hash, policies);
    var squashed := Squash(hash, policies);
    forall j | 0 <= j < |squashed| ensures squashed[j].sources != [] {
      assert HasPorts(squashed, squashed[j].ports);
      SourcesOfMembers(policies, squashed[j].ports, source);
    }
  }

  lemma {:induction false} SquashOfDistinct(hash: Hash, policies: seq<Policy>)
    requires Injective(hash) && PortsDiffer(policies)
    ensures Squash(hash, policies) == policies
  {
    if policies != [] {
      var init, p := policies[..|policies| - 1], policies[|policies| - 1];
      assert PortsDiffer(init);
      assert policies == init + [p];
      SquashOfDistinct(hash, init);
      AddAtEnd(hash, init, p);
    }
  }

  lemma AddAtEnd(hash: Hash, init: seq<Policy>, p: Policy)
    requires Injective(hash) && PortsDiffer(init + [p])
    ensures Add(hash, init, p) == init + [p]
  {
    forall i | 0 <= i < |init| ensures hash(init[i].ports) != hash(p.ports) {
      assert (init + [p])[i].ports != (init + [p])[|init|].ports;
    }
  }

  /** Squashing twice is squashing once. */
  lemma SquashIdempotent(hash: Hash, policies: seq<Policy>)
    requires Injective(hash)
    ensures Squash(hash, Squash(hash, policies)) == Squash(hash, policies)
  {
    SquashedPortsDiffer(hash, policies);
    SquashOfDistinct(hash, Squash(hash, policies));
  }

  // ---------------------------------------------------------------- get_network_policies

  datatype Connection = Connection(src: string, dst: string, ports: seq<string>)

  /** init_connections of one child. */
  function ConnectionsOf(ident: string, egress: seq<Egress>): seq<Connection> {
    if egress == [] then [] else
    ConnectionsOf(ident, egress[..|egress| - 1]) +
      if egress[|egress| - 1].target.Some? then [Connection(ident, egress[|egress| - 1].target.value, egress[|egress| - 1].ports)] else []
  }

  function Connections(tree: Tree, idents: seq<string>): seq<Connection>
    requires forall i :: 0 <= i < |idents| ==> idents[i] in tree.childs
  {
    if idents == [] then [] else
    var last := idents[|idents| - 1];
    Connections(tree, idents[..|idents| - 1]) + ConnectionsOf(last, tree.childs[last].egress)
  }

  /** get_port: the first port with the name. */
  function GetPort(ports: seq<NamedPort>, name: string): Option<Port> {
    if ports == [] then None
    else if ports[0].name == name then Some(ports[0].value)
    else GetPort(ports[1..], name)
  }

  function NpPorts(ports: seq<NamedPort>, names: seq<string>): Option<seq<Port>> {
    if names == [] then Some([]) else
    match (NpPorts(ports, names[..|names| - 1]), GetPort(ports, names[|names| - 1]))
    case (Some(ps), Some(p)) => Some(ps + [p])
    case _ => None
  }

  /** The policy of one connection; None stands for a missing child, label or port. */
  function PolicyOf(tree: Tree, c: Connection): Option<Policy> {
    if c.src !in tree.childs || c.dst !in tree.childs || tree.childs[c.src].labels.None? then None else
    match NpPorts(tree.childs[c.dst].ports, c.ports)
    case None => None
    case Some(ports) => Some(Policy([tree.childs[c.src].labels.value], ports))
  }

  /** Policies by destination. */
  function Ingress(tree: Tree, conns: seq<Connection>): Option<map<string, seq<Policy>>> {
    if conns == [] then Some(map[]) else
    var c := conns[|conns| - 1];
    match (Ingress(tree, conns[..|conns| - 1]), PolicyOf(tree, c))
    case (Some(m), Some(p)) => Some(m[c.dst := (if c.dst in m then m[c.dst] else []) + [p]])
    case _ => None
  }

  lemma IngressSnoc(tree: Tree, before: seq<Connection>, m: map<string, seq<Policy>>, c: Connection)
    requires Ingress(tree, before) == Some(m)
    ensures Ingress(tree, before + [c]) ==
            match PolicyOf(tree, c)
            case None => None
            case Some(p) => Some(m[c.dst := (if c.dst in m then m[c.dst] else []) + [p]])
  {
    hide PolicyOf;
    assert (before + [c])[..|before|] == before;
  }

  lemma AddStep(tree: Tree, before: seq<Connection>, conns: seq<Connection>, j: nat, m: map<string, seq<Policy>>)
    requires j < |conns| && Ingress(tree, before + conns[..j]) == Some(m)
    ensures PolicyOf(tree, conns[j]).None? ==> Ingress(tree, before + conns) == None
    ensures PolicyOf(tree, conns[j]).Some? ==>
              var (d, p) := (conns[j].dst, PolicyOf(tree, conns[j]).value);
              Ingress(tree, before + conns[..j + 1]) == Some(m[d := (if d in m then m[d] else []) + [p]])
  {
    hide PolicyOf, Ingress;
    IngressSnoc(tree, before + conns[..j], m, conns[j]);
    assert before + conns[..j + 1] == before + conns[..j] + [conns[j]];
    if PolicyOf(tree, conns[j]).None? {
      IngressFails(tree, before + conns[..j + 1], before + conns);
    }
  }

  /** The policies of one child's connections, appended under their destinations. */
  method AddPolicies(tree: Tree, conns: seq<Connection>, start: map<string, seq<Policy>>, ghost before: seq<Connection>)
    returns (r: Option<map<string, seq<Policy>>>)
    requires Ingress(tree, before) == Some(start)
    ensures r == Ingress(tree, before + conns)
  {
    hide PolicyOf, Ingress;
    var ingress := start;
    assert before + conns[..0] == before;
    for j := 0 to |conns|
      invariant Ingress(tree, before + conns[..j]) == Some(ingress)
    {
      AddStep(tree, before, conns, j, ingress);
      var policy := PolicyOf(tree, conns[j]);
      if policy.None? {
        return None;
      }
      var dst := conns[j].dst;
      ingress := ingress[dst := (if dst in ingress then ingress[dst] else []) + [policy.value]];
    }
    assert conns[..|conns|] == conns;
    return Some(ingress);
  }

  method GetNetworkPolicies(hash: Hash, tree: Tree) returns (r: Option<map<string, seq<Policy>>>)
    requires ValidTree(tree)
    ensures r.Some? <==> Ingress(tree, Connections(tree, tree.order)).Some?
    ensures r.Some? ==> var m := Ingress(tree, Connections(tree, tree.order)).value;
              r.value.Keys == m.Keys && forall d :: d in m ==> r.value[d] == Squash(hash, m[d])
  {
    var ingress := CollectPolicies(tree);
    if ingress.None? {
      return None;
    }
    var squashed := SquashAll(hash, ingress.value);
    return Some(squashed);
  }

  method CollectPolicies(tree: Tree) returns (r: Option<map<string, seq<Policy>>>)
    requires ValidTree(tree)
    ensures r == Ingress(tree, Connections(tree, tree.order))
  {
    var ingress: map<string, seq<Policy>> := map[];
    assert Connections(tree, tree.order[..0]) == [] && Ingress(tree, []) == Some(map[]);
    hide Ingress, Connections, ConnectionsOf;
    for i := 0 to |tree.order|
      invariant Ingress(tree, Connections(tree, tree.order[..i])) == Some(ingress)
    {
      ConnectionsSnoc(tree, i);
      var conns := ConnectionsOf(tree.order[i], tree.childs[tree.order[i]].egress);
      var more := AddPolicies(tree, conns, ingress, Connections(tree, tree.order[..i]));
      if more.None? {
        ConnectionsPrefix(tree, tree.order, i + 1);
        IngressFails(tree, Connections(tree, tree.order[..i + 1]), Connections(tree, tree.order));
        return None;
      }
      ingress := more.value;
    }
    assert tree.order[..|tree.order|] == tree.order;
    return Some(ingress);
  }

  method SquashAll(hash: Hash, ingress: map<string, seq<Policy>>) returns (squashed: map<string, seq<Policy>>)
    ensures squashed.Keys == ingress.Keys && forall d :: d in ingress ==> squashed[d] == Squash(hash, ingress[d])
  {
    squashed := map[];
    var todo := ingress.Keys;
    while todo != {}
      invariant todo <= ingress.Keys && squashed.Keys == ingress.Keys - todo
      invariant forall d :: d in squashed ==> squashed[d] == Squash(hash, ingress[d])
      decreases todo
    {
      var d :| d in todo;
      var policies := SquashPolicies(hash, ingress[d]);
      squashed := squashed[d := policies];
      todo := todo - {d};
    }
  }

  lemma {:induction false} IngressFails(tree: Tree, part: seq<Connection>, all: seq<Connection>)
    requires part <= all && Ingress(tree, part).None?
    ensures Ingress(tree, all).None?
  {
    if part != all {
      IngressFails(tree, part, all[..|all| - 1]);
    }
  }

  lemma ConnectionsSnoc(tree: Tree, i: nat)
    requires ValidTree(tree) && i < |tree.order|
    ensures tree.order[i] in tree.childs
    ensures var ident := tree.order[i];
            Connections(tree, tree.order[..i + 1]) == Connections(tree, tree.order[..i]) + ConnectionsOf(ident, tree.childs[ident].egress)
  {
    assert tree.order[i] in tree.order;
    assert tree.order[..i + 1][..i] == tree.order[..i];
  }

  lemma {:induction false} ConnectionsPrefix(tree: Tree, idents: seq<string>, k: nat)
    requires (forall i :: 0 <= i < |idents| ==> idents[i] in tree.childs) && k <= |idents|
    ensures Connections(tree, idents[..k]) <= Connections(tree, idents)
  {
    if k < |idents| {
      var last := |idents| - 1;
      assert idents[..last][..k] == idents[..k];
      ConnectionsPrefix(tree, idents[..last], k);
    } else {
      assert idents[..k] == idents;
    }
  }

  /** A connection is declared by a child of the tree. */
  ghost predicate Declared(tree: Tree, c: Connection) {
    c.src in tree.childs && exists e :: e in tree.childs[c.src].egress && e.target == Some(c.dst) && e.ports == c.ports
  }

  lemma {:induction false} ConnectionsOfMembers(ident: string, egress: seq<Egress>, c: Connection)
    ensures c in ConnectionsOf(ident, egress) <==> c.src == ident && exists e :: e in egress && e.target == Some(c.dst) && e.ports == c.ports
  {
    if egress != [] {
      ConnectionsOfMembers(ident, egress[..|egress| - 1], c);
      assert forall e :: e in egress <==> e in egress[..|egress| - 1] || e == egress[|egress| - 1];
    }
  }

  lemma {:induction false} ConnectionsMembers(tree: Tree, idents: seq<string>, c: Connection)
    requires forall i :: 0 <= i < |idents| ==> idents[i] in tree.childs
    ensures c in Connections(tree, idents) <==> c.src in idents && Declared(tree, c)
  {
    if idents != [] {
      var last := idents[|idents| - 1];
      ConnectionsMembers(tree, idents[..|idents| - 1], c);
      ConnectionsOfMembers(last, tree.childs[last].egress, c);
      assert c.src in idents <==> c.src in idents[..|idents| - 1] || c.src == last;
    }
  }

  lemma {:induction false} IngressFacts(tree: Tree, conns: seq<Connection>)
    ensures Ingress(tree, conns).Some? <==> forall c :: c in conns ==> PolicyOf(tree, c).Some?
    ensures Ingress(tree, conns).Some? ==> var m := Ingress(tree, conns).value;
              && (forall d :: d in m ==> exists c :: c in conns && c.dst == d)
              && (forall c :: c in conns ==> c.dst in m && PolicyOf(tree, c).value in m[c.dst])
  {
    if conns != [] {
      var init, c := conns[..|conns| - 1], conns[|conns| - 1];
      IngressFacts(tree, init);
      assert forall x :: x in conns <==> x in init || x == c;
    }
  }

  /** Is this traffic wanted: some child with these labels declares a connection to the destination and
      names the port (or names none). */
  ghost predicate Wanted(tree: Tree, d: string, source: Selector, port: Port) {
    exists c :: Declared(tree, c) && c.dst == d && Opens(tree, c, source, port)
  }

  /** The port is the first of the list that has the name. */
  predicate Named(ports: seq<NamedPort>, name: string, port: Port) {
    exists j :: 0 <= j < |ports| && NamedAt(ports, j, name) && ports[j].value == port
  }

  predicate NamedAt(ports: seq<NamedPort>, j: nat, name: string)
    requires j < |ports|
  {
    ports[j].name == name && forall i :: 0 <= i < j ==> ports[i].name != name
  }

  predicate HasName(ports: seq<NamedPort>, name: string) {
    exists j :: 0 <= j < |ports| && ports[j].name == name
  }

  lemma {:induction false} GetPortNamed(ports: seq<NamedPort>, name: string)
    ensures GetPort(ports, name).Some? <==> HasName(ports, name)
    ensures forall p :: GetPort(ports, name) == Some(p) <==> Named(ports, name, p)
  {
    if ports != [] && ports[0].name == name {
      assert NamedAt(ports, 0, name);
    } else if ports != [] {
      var rest := ports[1..];
      GetPortNamed(rest, name);
      assert forall j :: 1 <= j < |ports| ==> ports[j] == rest[j - 1];
      assert HasName(ports, name) <==> HasName(rest, name) by {
        if j :| 0 <= j < |rest| && rest[j].name == name {
          assert ports[j + 1].name == name;
        }
      }
      forall p ensures Named(ports, name, p) <==> Named(rest, name, p) {
        if j :| 0 <= j < |rest| && NamedAt(rest, j, name) && rest[j].value == p {
          assert NamedAt(ports, j + 1, name);
        }
        if j :| 0 <= j < |ports| && NamedAt(ports, j, name) && ports[j].value == p {
          assert NamedAt(rest, j - 1, name);
        }
      }
    }
  }

  predicate Opens(tree: Tree, c: Connection, source: Selector, port: Port) {
    && c.src in tree.childs && tree.childs[c.src].labels == Some(source)
    && c.dst in tree.childs
    && (c.ports == [] || exists n :: n in c.ports && Named(tree.childs[c.dst].ports, n, port))
  }

  lemma {:induction false} NpPortsMembers(ports: seq<NamedPort>, names: seq<string>)
    ensures NpPorts(ports, names).Some? <==> forall n :: n in names ==> GetPort(ports, n).Some?
    ensures NpPorts(ports, names).Some? ==>
              && |NpPorts(ports, names).value| == |names|
              && forall p :: p in NpPorts(ports, names).value <==> exists n :: n in names && GetPort(ports, n) == Some(p)
  {
    if names != [] {
      var init, last := names[..|names| - 1], names[|names| - 1];
      NpPortsMembers(ports, init);
      assert forall n :: n in names <==> n in init || n == last;
      hide GetPort;
      if NpPorts(ports, names).Some? {
        var before, q := NpPorts(ports, init).value, GetPort(ports, last).value;
        assert NpPorts(ports, names).value == before + [q];
        assert forall p :: p in before + [q] <==> p in before || p == q;
      } else {
        assert last in names;
        if NpPorts(ports, init).None? {
          var n :| n in init && GetPort(ports, n).None?;
          assert n in names;
        }
      }
    }
  }

  lemma PolicyOpens(tree: Tree, c: Connection, source: Selector, port: Port)
    requires PolicyOf(tree, c).Some?
    ensures Permits(PolicyOf(tree, c).value, source, port) <==> Opens(tree, c, source, port)
  {
    var ports := tree.childs[c.dst].ports;
    NpPortsMembers(ports, c.ports);
    forall n ensures GetPort(ports, n) == Some(port) <==> Named(ports, n, port) {
      GetPortNamed(ports, n);
    }
    hide NpPorts, GetPort, Named;
  }

  /** The connection names two children that are there, the first with labels, and ports of the second. */
  predicate Resolves(tree: Tree, c: Connection) {
    && c.src in tree.childs && c.dst in tree.childs && tree.childs[c.src].labels.Some?
    && forall n :: n in c.ports ==> HasName(tree.childs[c.dst].ports, n)
  }

  lemma PolicyResolves(tree: Tree, c: Connection)
    ensures PolicyOf(tree, c).Some? <==> Resolves(tree, c)
  {
    if c.src in tree.childs && c.dst in tree.childs {
      var ports := tree.childs[c.dst].ports;
      NpPortsMembers(ports, c.ports);
      forall n ensures GetPort(ports, n).Some? <==> HasName(ports, n) {
        GetPortNamed(ports, n);
      }
      hide NpPorts, GetPort, HasName;
    }
  }

  /** Policies exist exactly when every declared connection names children, labels and ports that are
      there. */
  lemma PoliciesDefined(tree: Tree)
    requires ValidTree(tree)
    ensures Ingress(tree, Connections(tree, tree.order)).Some? <==> forall c :: Declared(tree, c) ==> Resolves(tree, c)
  {
    var conns := Connections(tree, tree.order);
    IngressFacts(tree, conns);
    forall c
      ensures c in conns <==> Declared(tree, c)
      ensures PolicyOf(tree, c).Some? <==> Resolves(tree, c)
    {
      ConnectionsMembers(tree, tree.order, c);
      PolicyResolves(tree, c);
    }
    hide Ingress, Connections, Declared, PolicyOf, Resolves;
  }

  /** Every policy comes from a connection. */
  lemma {:induction false} ComesFrom(tree: Tree, conns: seq<Connection>, d: string, i: nat) returns (c: Connection)
    requires Ingress(tree, conns).Some? && d in Ingress(tree, conns).value && i < |Ingress(tree, conns).value[d]|
    ensures c in conns && c.dst == d && PolicyOf(tree, c) == Some(Ingress(tree, conns).value[d][i])
  {
    var init, last := conns[..|conns| - 1], conns[|conns| - 1];
    var before := Ingress(tree, init).value;
    if last.dst != d || (d in before && i < |before[d]|) {
      c := ComesFrom(tree, init, d, i);
    } else {
      c := last;
    }
  }

  lemma IngressSourced(tree: Tree, conns: seq<Connection>, m: map<string, seq<Policy>>, d: string)
    requires Ingress(tree, conns) == Some(m) && d in m
    ensures Sourced(m[d])
  {
    hide Ingress;
    forall i | 0 <= i < |m[d]| ensures m[d][i].sources != [] {
      var c := ComesFrom(tree, conns, d, i);
    }
  }

  /** The squashed ingress policies of a destination allow exactly the traffic that the egress
      connections of the tree ask for. */
  lemma PoliciesAllowExactlyConnections(hash: Hash, tree: Tree, d: string, source: Selector, port: Port)
    requires Injective(hash) && ValidTree(tree) && Ingress(tree, Connections(tree, tree.order)).Some?
    ensures var m := Ingress(tree, Connections(tree, tree.order)).value;
            && (d in m ==> (Allows(Squash(hash, m[d]), source, port) <==> Wanted(tree, d, source, port)))
            && (d in m <==> exists c :: Declared(tree, c) && c.dst == d)
  {
    var conns := Connections(tree, tree.order);
    var m := Ingress(tree, conns).value;
    IngressFacts(tree, conns);
    forall c ensures c in conns <==> Declared(tree, c) {
      ConnectionsMembers(tree, tree.order, c);
    }
    hide Ingress, Connections, Allows, Wanted, Squash, PolicyOf, Declared;
    if d in m {
      IngressSourced(tree, conns, m, d);
      SquashKeepsTraffic(hash, m[d], source, port);
      TrafficOf(tree, conns, m, d, source, port);
    }
  }

  lemma TrafficOf(tree: Tree, conns: seq<Connection>, m: map<string, seq<Policy>>, d: string, source: Selector, port: Port)
    requires Ingress(tree, conns) == Some(m) && d in m && forall c :: c in conns <==> Declared(tree, c)
    ensures Allows(m[d], source, port) <==> Wanted(tree, d, source, port)
  {
    IngressFacts(tree, conns);
    hide Ingress, PolicyOf, Declared, Opens;
    if Allows(m[d], source, port) {
      var i :| 0 <= i < |m[d]| && Permits(m[d][i], source, port);
      var c := ComesFrom(tree, conns, d, i);
      PolicyOpens(tree, c, source, port);
      assert Declared(tree, c) && Opens(tree, c, source, port);
    }
    if Wanted(tree, d, source, port) {
      var c :| Declared(tree, c) && c.dst == d && Opens(tree, c, source, port);
      PolicyOpens(tree, c, source, port);
      var p := PolicyOf(tree, c).value;
      assert p in m[d];
      var i :| 0 <= i < |m[d]| && m[d][i] == p;
      assert Permits(m[d][i], source, port);
    }
  }
}
