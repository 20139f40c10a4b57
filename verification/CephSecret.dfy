/**
 The secret through which the Ceph controller hands its parameters to the OpenStack controller: a
 dictionary of strings, its values lists of fields behind base64.
 */
module CephSecret {
  import opened Wrappers
  import opened TextFields

  datatype OSUser = Nova | Cinder | Glance | Manila

  datatype PoolRole = Ephemeral | Volumes | Backup | Images | RGW | Kubernetes | VMs | Other

  datatype Pool = Pool(deviceClass: string, role: PoolRole, name: string)

  datatype ServiceCreds = ServiceCreds(user: OSUser, key: string, keyName: string, pools: seq<Pool>)

  datatype RGWParams = RGWParams(internalUrl: string, externalUrl: string)

  datatype Endpoint = Endpoint(ip: IPv4, port: int)

  datatype Params = Params(adminKey: string, monEndpoints: seq<Endpoint>, services: seq<ServiceCreds>, rgw: Option<RGWParams>)

  /** A dictionary of strings, in the order of insertion. */
  datatype Entry = Entry(key: string, value: string)

  datatype Error = KeyError | ValueError | AttributeError

  /** base64 on the text behind ASCII: an inverse pair that keeps the empty text empty. */
  datatype Base64 = Base64(enc: string -> string, dec: string -> Option<string>)

  ghost predicate InversePair(b: Base64) {
    forall x: string :: b.dec(b.enc(x)) == Some(x) && (b.enc(x) == "" <==> x == "")
  }

  predicate Ascii(s: string) {
    forall c :: c in s ==> c as int < 128
  }

  function ToBase64(b: Base64, s: string): Result<string, Error> {
    if Ascii(s) then Ok(b.enc(s)) else Err(ValueError)
  }

  function FromBase64(b: Base64, s: string): Result<string, Error> {
    match b.dec(s)
    case Some(text) => Ok(text)
    case None => Err(ValueError)
  }

  // ---------------------------------------------------------------- dictionaries

  function Get(d: seq<Entry>, key: string): Option<string> {
    if d == [] then None else if d[0].key == key then Some(d[0].value) else Get(d[1..], key)
  }

  function Put(d: seq<Entry>, key: string, value: string): seq<Entry> {
    if d == [] then [Entry(key, value)]
    else if d[0].key == key then [Entry(key, value)] + d[1..]
    else [d[0]] + Put(d[1..], key, value)
  }

  function Pop(d: seq<Entry>, key: string): seq<Entry> {
    if d == [] then [] else if d[0].key == key then d[1..] else [d[0]] + Pop(d[1..], key)
  }

  lemma {:induction false} PopGet(d: seq<Entry>, key: string, k: string)
    requires k != key
    ensures Get(Pop(d, key), k) == Get(d, k)
  {
    if d != [] && d[0].key != key {
      PopGet(d[1..], key, k);
      assert Pop(d, key)[1..] == Pop(d[1..], key);
    }
  }

  lemma {:induction false} PopAt(d: seq<Entry>, key: string) returns (i: nat)
    ensures i <= |d| && (i == |d| ==> Pop(d, key) == d)
    ensures i < |d| ==> d[i].key == key && Pop(d, key) == d[..i] + d[i + 1..]
  {
    if d == [] {
      i := 0;
    } else if d[0].key == key {
      i := 0;
    } else {
      var k := PopAt(d[1..], key);
      i := k + 1;
      assert d[..i] == [d[0]] + d[1..][..k];
      assert i < |d| ==> d[i + 1..] == d[1..][k + 1..];
    }
  }

  // ---------------------------------------------------------------- names

  function UserName(u: OSUser): string {
    match u
    case Nova => "nova"
    case Cinder => "cinder"
    case Glance => "glance"
    case Manila => "manila"
  }

  function UserOf(name: string): Option<OSUser> {
    if name == "nova" then Some(Nova)
    else if name == "cinder" then Some(Cinder)
    else if name == "glance" then Some(Glance)
    else if name == "manila" then Some(Manila)
    else None
  }

  function RoleName(r: PoolRole): string {
    match r
    case Ephemeral => "ephemeral"
    case Volumes => "volumes"
    case Backup => "backup"
    case Images => "images"
    case RGW => "rgw"
    case Kubernetes => "kubernetes"
    case VMs => "vms"
    case Other => "other"
  }

  function RoleOf(name: string): Option<PoolRole> {
    if name == "ephemeral" then Some(Ephemeral)
    else if name == "volumes" then Some(Volumes)
    else if name == "backup" then Some(Backup)
    else if name == "images" then Some(Images)
    else if name == "rgw" then Some(RGW)
    else if name == "kubernetes" then Some(Kubernetes)
    else if name == "vms" then Some(VMs)
    else if name == "other" then Some(Other)
    else None
  }

  // ---------------------------------------------------------------- endpoints

  function EndpointText(e: Endpoint): string {
    Join([Quad(e.ip), IntText(e.port)], ':')
  }

  function EndpointTexts(es: seq<Endpoint>): (r: seq<string>)
    ensures |r| == |es| && forall i :: 0 <= i < |es| ==> r[i] == EndpointText(es[i])
  {
    if es == [] then [] else [EndpointText(es[0])] + EndpointTexts(es[1..])
  }

  function PackIps(es: seq<Endpoint>): string {
    Join(EndpointTexts(es), ',')
  }

  function ParseEndpoint(s: string): Option<Endpoint> {
    var parts := Split(s, ':');
    if |parts| != 2 then None else
    match (ParseQuad(parts[0]), ParseInt(parts[1]))
    case (Some(ip), Some(port)) => Some(Endpoint(ip, port))
    case _ => None
  }

  function ParseEndpoints(texts: seq<string>): Option<seq<Endpoint>> {
    if texts == [] then Some([]) else
    match (ParseEndpoint(texts[0]), ParseEndpoints(texts[1..]))
    case (Some(e), Some(es)) => Some([e] + es)
    case _ => None
  }

  function UnpackIps(s: string): Option<seq<Endpoint>> {
    ParseEndpoints(Split(s, ','))
  }

  lemma EndpointRoundTrip(e: Endpoint)
    ensures ParseEndpoint(EndpointText(e)) == Some(e) && ',' !in EndpointText(e)
  {
    var parts := [Quad(e.ip), IntText(e.port)];
    ParseOfQuad(e.ip);
    ParseOfInt(e.port);
    hide Quad, IntText, ParseQuad, ParseInt;
    assert Free(parts, ':');
    SplitOfJoin(parts, ':');
    JoinOver(parts, ':', ',');
  }

  lemma {:induction false} EndpointsRoundTrip(es: seq<Endpoint>)
    ensures ParseEndpoints(EndpointTexts(es)) == Some(es) && Free(EndpointTexts(es), ',')
  {
    hide ParseEndpoint, EndpointText;
    if es != [] {
      EndpointRoundTrip(es[0]);
      EndpointsRoundTrip(es[1..]);
      var texts := EndpointTexts(es);
      assert texts[1..] == EndpointTexts(es[1..]);
      assert [es[0]] + es[1..] == es;
      forall i | 0 <= i < |es| ensures ',' !in texts[i] {
        assert i > 0 ==> texts[i] == EndpointTexts(es[1..])[i - 1];
      }
    }
  }

  /** The monitors come back exactly if there is one: no endpoints read as a malformed one. */
  lemma MonitorsRoundTrip(es: seq<Endpoint>)
    ensures es != [] ==> UnpackIps(PackIps(es)) == Some(es)
    ensures es == [] ==> UnpackIps(PackIps(es)) == None
    ensures Ascii(PackIps(es))
  {
    EndpointsRoundTrip(es);
    if es != [] {
      SplitOfJoin(EndpointTexts(es), ',');
    } else {
      assert Split("", ',') == [""] && ParseEndpoint("") == None;
    }
    forall c | c in PackIps(es) ensures c as int < 128 {
      JoinOver(EndpointTexts(es), ',', c);
      if i :| 0 <= i < |es| && c in EndpointTexts(es)[i] {
        EndpointChars(es[i], c);
      }
    }
  }

  lemma EndpointChars(e: Endpoint, c: char)
    requires c in EndpointText(e)
    ensures c as int < 128
  {
    JoinOver([Quad(e.ip), IntText(e.port)], ':', c);
    ParseOfQuad(e.ip);
    ParseOfInt(e.port);
  }

  /** The text of an endpoint, with any text of the port. */
  function EndpointWith(ip: IPv4, port: string): string {
    Quad(ip) + ":" + port
  }

  /** An endpoint is read from exactly the texts of its address followed by a text of its port. */
  lemma EndpointExactly(s: string, e: Endpoint)
    ensures ParseEndpoint(s) == Some(e) <==> exists port :: s == EndpointWith(e.ip, port) && ':' !in port && ParseInt(port) == Some(e.port)
  {
    hide ParseQuad, ParseInt, Quad, Join, Split, Free;
    var parts := Split(s, ':');
    JoinOfSplit(s, ':');
    if |parts| == 2 {
      QuadExactly(parts[0], e.ip);
      FreeParts(parts, ':');
      assert parts == [parts[0], parts[1]];
      JoinTwo(parts[0], parts[1], ':');
      if ParseEndpoint(s) == Some(e) {
        assert s == EndpointWith(e.ip, parts[1]);
      }
    }
    forall port | s == EndpointWith(e.ip, port) && ':' !in port && ParseInt(port) == Some(e.port) ensures ParseEndpoint(s) == Some(e) {
      ParseOfQuad(e.ip);
      assert ':' !in Quad(e.ip);
      FreeTwo(Quad(e.ip), port, ':');
      JoinTwo(Quad(e.ip), port, ':');
      SplitOfJoin([Quad(e.ip), port], ':');
    }
  }

  lemma FreeParts(parts: seq<string>, sep: char)
    requires Free(parts, sep)
    ensures forall i :: 0 <= i < |parts| ==> sep !in parts[i]
  {
  }

  lemma FreeTwo(a: string, c: string, sep: char)
    requires sep !in a && sep !in c
    ensures Free([a, c], sep)
  {
  }

  lemma JoinTwo(a: string, c: string, sep: char)
    ensures Join([a, c], sep) == a + [sep] + c
  {
    assert [a, c][1..] == [c];
  }

  lemma JoinThree(a: string, c: string, d: string, sep: char)
    ensures Join([a, c, d], sep) == a + [sep] + c + [sep] + d
  {
    assert [a, c, d] == [a, c] + [d];
    JoinSnoc([a, c], sep, d);
    JoinTwo(a, c, sep);
  }

  /** The endpoints are read one by one from the parts between commas. */
  lemma {:induction false} EndpointsExactly(texts: seq<string>, es: seq<Endpoint>)
    ensures ParseEndpoints(texts) == Some(es) <==>
            |es| == |texts| && forall i :: 0 <= i < |texts| ==> ParseEndpoint(texts[i]) == Some(es[i])
  {
    hide ParseEndpoint;
    if texts != [] {
      if es != [] {
        EndpointsExactly(texts[1..], es[1..]);
        assert es == [es[0]] + es[1..];
        assert forall i :: 1 <= i < |texts| ==> texts[i] == texts[1..][i - 1];
        assert |es| == |texts| ==> forall i :: 1 <= i < |texts| ==> es[i] == es[1..][i - 1];
      }
      if ParseEndpoints(texts) == Some(es) {
        assert es[1..] == ParseEndpoints(texts[1..]).value;
      }
    }
  }

  /** How monitors are written: each as address, colon and port, with commas between. */
  lemma MonitorsFormat(es: seq<Endpoint>, e: Endpoint)
    ensures PackIps([]) == ""
    ensures PackIps(es + [e]) == (if es == [] then "" else PackIps(es) + ",") + EndpointWith(e.ip, IntText(e.port))
    ensures var ip := e.ip; Quad(ip) == Digits(ip.a) + "." + Digits(ip.b) + "." + Digits(ip.c) + "." + Digits(ip.d)
  {
    var ip := e.ip;
    var quads := [Digits(ip.a), Digits(ip.b), Digits(ip.c)];
    JoinThree(quads[0], quads[1], quads[2], '.');
    JoinSnoc(quads, '.', Digits(ip.d));
    assert quads + [Digits(ip.d)] == [Digits(ip.a), Digits(ip.b), Digits(ip.c), Digits(ip.d)];
    hide Quad, IntText, Digits, Join;
    JoinTwo(Quad(e.ip), IntText(e.port), ':');
    assert EndpointTexts(es + [e]) == EndpointTexts(es) + [EndpointText(e)];
    if es == [] {
      JoinOne(EndpointText(e), ',');
    } else {
      JoinSnoc(EndpointTexts(es), ',', EndpointText(e));
    }
    JoinNone(',');
  }

  lemma JoinOne(a: string, sep: char)
    ensures Join([a], sep) == a
  {
  }

  lemma JoinNone(sep: char)
    ensures Join([], sep) == ""
  {
  }

  // ---------------------------------------------------------------- one service

  function PoolText(p: Pool): string {
    Join([p.name, RoleName(p.role), p.deviceClass], ':')
  }

  function PoolTexts(ps: seq<Pool>): (r: seq<string>)
    ensures |r| == |ps| && forall i :: 0 <= i < |ps| ==> r[i] == PoolText(ps[i])
  {
    if ps == [] then [] else PoolTexts(ps[..|ps| - 1]) + [PoolText(ps[|ps| - 1])]
  }

  function ServiceFields(s: ServiceCreds): seq<string> {
    [s.keyName, s.key] + PoolTexts(s.pools)
  }

  function ServiceText(s: ServiceCreds): string {
    Join(ServiceFields(s), ';')
  }

  function ParsePool(text: string): Result<Pool, Error> {
    var parts := Split(text, ':');
    if |parts| != 3 then Err(ValueError) else
    match RoleOf(parts[1])
    case Some(role) => Ok(Pool(parts[2], role, parts[0]))
    case None => Err(KeyError)
  }

  function ParsePools(texts: seq<string>): Result<seq<Pool>, Error> {
    if texts == [] then Ok([]) else
    match ParsePools(texts[..|texts| - 1])
    case Err(e) => Err(e)
    case Ok(ps) =>
      match ParsePool(texts[|texts| - 1])
      case Err(e) => Err(e)
      case Ok(p) => Ok(ps + [p])
  }

  function ParseService(user: OSUser, text: string): Result<ServiceCreds, Error> {
    var parts := Split(text, ';');
    if |parts| < 2 then Err(ValueError) else
    match ParsePools(parts[2..])
    case Err(e) => Err(e)
    case Ok(ps) => Ok(ServiceCreds(user, parts[1], parts[0], ps))
  }

  /** The fields of a pool and of a service that the separators would cut. */
  predicate Unbroken(p: Pool) {
    ':' !in p.name && ':' !in p.deviceClass
  }

  predicate CleanPool(p: Pool) {
    Unbroken(p) && ';' !in p.name && ';' !in p.deviceClass
  }

  predicate CleanService(s: ServiceCreds) {
    && ';' !in s.keyName && ';' !in s.key
    && forall p :: p in s.pools ==> CleanPool(p)
  }

  lemma RoleRoundTrip(r: PoolRole)
    ensures RoleOf(RoleName(r)) == Some(r) && ':' !in RoleName(r) && ';' !in RoleName(r) && Ascii(RoleName(r))
  {
    match r
    case Ephemeral =>
    case Volumes =>
    case Backup =>
    case Images =>
    case RGW =>
    case Kubernetes =>
    case VMs =>
    case Other =>
  }

  /** A pool comes back exactly if its fields are free of ':'. */
  lemma PoolRoundTrip(p: Pool)
    ensures ParsePool(PoolText(p)) == Ok(p) <==> Unbroken(p)
    ensures ';' !in PoolText(p) <==> ';' !in p.name && ';' !in p.deviceClass
  {
    var parts := [p.name, RoleName(p.role), p.deviceClass];
    RoleRoundTrip(p.role);
    hide RoleOf, RoleName;
    if ':' !in p.name && ':' !in p.deviceClass {
      SplitOfJoin(parts, ':');
    }
    if |Split(Join(parts, ':'), ':')| == |parts| {
      PartsKeptOnlyIfFree(parts, ':');
      assert ':' !in parts[0] && ':' !in parts[2];
    }
    JoinOver(parts, ':', ';');
    assert forall i :: 0 <= i < 3 ==> parts[i] == p.name || parts[i] == RoleName(p.role) || parts[i] == p.deviceClass;
    assert parts[0] == p.name && parts[2] == p.deviceClass;
  }

  lemma ParsePoolsSnoc(texts: seq<string>, text: string)
    ensures ParsePools(texts + [text]) ==
            match ParsePools(texts)
            case Err(e) => Err(e)
            case Ok(ps) =>
              match ParsePool(text)
              case Err(e) => Err(e)
              case Ok(p) => Ok(ps + [p])
  {
    hide ParsePool;
    assert (texts + [text])[..|texts|] == texts;
  }

  lemma {:induction false} PoolsRoundTrip(ps: seq<Pool>)
    ensures ParsePools(PoolTexts(ps)) == Ok(ps) <==> forall p :: p in ps ==> Unbroken(p)
  {
    if ps != [] {
      var init, last := ps[..|ps| - 1], ps[|ps| - 1];
      PoolsRoundTrip(init);
      PoolRoundTrip(last);
      assert PoolTexts(ps) == PoolTexts(init) + [PoolText(last)];
      ParsePoolsSnoc(PoolTexts(init), PoolText(last));
      hide PoolTexts, PoolText, ParsePools, ParsePool, Unbroken;
      assert ps == init + [last];
      assert forall p :: p in ps <==> p in init || p == last;
    }
  }

  lemma {:induction false} ParsePoolsLength(texts: seq<string>)
    ensures ParsePools(texts).Ok? ==> |ParsePools(texts).value| == |texts|
  {
    if texts != [] {
      ParsePoolsLength(texts[..|texts| - 1]);
    }
  }

  /** A service's fields are free of the outer separator exactly if what they are made of is. */
  lemma FieldsFree(s: ServiceCreds)
    ensures Free(ServiceFields(s), ';') <==>
            ';' !in s.keyName && ';' !in s.key && forall p :: p in s.pools ==> ';' !in PoolText(p)
  {
    hide PoolText;
    var fields := ServiceFields(s);
    assert fields[0] == s.keyName && fields[1] == s.key;
    assert forall i :: 0 <= i < |s.pools| ==> fields[i + 2] == PoolText(s.pools[i]);
    if Free(fields, ';') {
      forall p | p in s.pools ensures ';' !in PoolText(p) {
        var i :| 0 <= i < |s.pools| && s.pools[i] == p;
        assert ';' !in fields[i + 2];
      }
    }
    if forall p :: p in s.pools ==> ';' !in PoolText(p) {
      forall i | 2 <= i < |fields| ensures ';' !in fields[i] {
        assert s.pools[i - 2] in s.pools;
      }
    }
  }

  lemma CleanFields(s: ServiceCreds)
    ensures CleanService(s) <==> Free(ServiceFields(s), ';') && forall p :: p in s.pools ==> Unbroken(p)
  {
    FieldsFree(s);
    forall p ensures ';' !in PoolText(p) <==> ';' !in p.name && ';' !in p.deviceClass {
      PoolRoundTrip(p);
    }
    hide PoolText, Free, Unbroken, ServiceFields;
  }

  /** A service's credentials come back exactly if its fields are free of the separators. */
  lemma ServiceRoundTrip(s: ServiceCreds)
    ensures ParseService(s.user, ServiceText(s)) == Ok(s) <==> CleanService(s)
  {
    CleanFields(s);
    hide Split, Join, ParsePools, PoolTexts, PoolText, Free, CleanService, Unbroken;
    var fields := ServiceFields(s);
    var parts := Split(ServiceText(s), ';');
    PoolsRoundTrip(s.pools);
    assert fields[2..] == PoolTexts(s.pools);
    if |parts| >= 2 {
      ParsePoolsLength(parts[2..]);
    }
    if Free(fields, ';') {
      SplitOfJoin(fields, ';');
      assert parts[0] == s.keyName && parts[1] == s.key;
    } else if |parts| == |fields| {
      PartsKeptOnlyIfFree(fields, ';');
    }
  }

  lemma RoleExactly(name: string, r: PoolRole)
    ensures RoleOf(name) == Some(r) <==> name == RoleName(r)
  {
    RoleRoundTrip(r);
  }

  /** A pool is read from its own text alone. */
  lemma PoolExactly(text: string, p: Pool)
    ensures ParsePool(text) == Ok(p) <==> Unbroken(p) && text == PoolText(p)
  {
    var parts := Split(text, ':');
    PoolRoundTrip(p);
    JoinOfSplit(text, ':');
    if ParsePool(text) == Ok(p) {
      RoleExactly(parts[1], p.role);
      assert parts == [p.name, RoleName(p.role), p.deviceClass];
      FreeParts(parts, ':');
      assert parts[0] == p.name && parts[2] == p.deviceClass;
    }
  }

  lemma {:induction false} PoolsExactly(texts: seq<string>, ps: seq<Pool>)
    ensures ParsePools(texts) == Ok(ps) <==> texts == PoolTexts(ps) && forall p :: p in ps ==> Unbroken(p)
  {
    hide ParsePool, PoolText, Unbroken;
    PoolsRoundTrip(ps);
    if texts != [] && ParsePools(texts) == Ok(ps) {
      var init, last := ps[..|ps| - 1], ps[|ps| - 1];
      PoolsExactly(texts[..|texts| - 1], init);
      PoolExactly(texts[|texts| - 1], last);
      assert texts == texts[..|texts| - 1] + [texts[|texts| - 1]];
    }
  }

  /** A service is read from its own text alone: nothing else is accepted, and nothing else is made of
      it. */
  lemma ServiceExactly(user: OSUser, text: string, s: ServiceCreds)
    ensures ParseService(user, text) == Ok(s) <==> s.user == user && CleanService(s) && text == ServiceText(s)
  {
    ServiceRoundTrip(s);
    hide Split, Join, PoolTexts, PoolText, Unbroken, ParsePools;
    var parts := Split(text, ';');
    JoinOfSplit(text, ';');
    if ParseService(user, text) == Ok(s) {
      PoolsExactly(parts[2..], s.pools);
      assert parts == [s.keyName, s.key] + PoolTexts(s.pools);
      assert ServiceFields(s) == parts;
    }
  }

  /** How a service is written: key name and key, then each pool as name, role and device class. */
  lemma ServiceFormat(s: ServiceCreds, p: Pool)
    ensures s.pools == [] ==> ServiceText(s) == s.keyName + ";" + s.key
    ensures ServiceText(s.(pools := s.pools + [p])) == ServiceText(s) + ";" + p.name + ":" + RoleName(p.role) + ":" + p.deviceClass
  {
    var more := s.(pools := s.pools + [p]);
    JoinTwo(s.keyName, s.key, ';');
    JoinThree(p.name, RoleName(p.role), p.deviceClass, ':');
    hide Join, RoleName;
    assert PoolTexts(more.pools) == PoolTexts(s.pools) + [PoolText(p)];
    assert ServiceFields(more) == ServiceFields(s) + [PoolText(p)];
    assert s.pools == [] ==> ServiceFields(s) == [s.keyName, s.key];
    JoinSnoc(ServiceFields(s), ';', PoolText(p));
    var name, role, cls, before := p.name, RoleName(p.role), p.deviceClass, ServiceText(s);
    assert before + [';'] + (name + [':'] + role + [':'] + cls) == before + ";" + name + ":" + role + ":" + cls;
  }

  /** The names of users and roles. */
  lemma NamesWritten()
    ensures UserName(Nova) == "nova" && UserName(Cinder) == "cinder" && UserName(Glance) == "glance" && UserName(Manila) == "manila"
    ensures RoleName(Ephemeral) == "ephemeral" && RoleName(Volumes) == "volumes" && RoleName(Backup) == "backup" && RoleName(Images) == "images"
    ensures RoleName(RGW) == "rgw" && RoleName(Kubernetes) == "kubernetes" && RoleName(VMs) == "vms" && RoleName(Other) == "other"
  {
  }

  // ---------------------------------------------------------------- the secret

  /** The dictionary before the services are added. */
  function Base(b: Base64, p: Params): seq<Entry>
    requires p.rgw.Some?
  {
    [Entry("client.admin", p.adminKey), Entry("mon_endpoints", b.enc(PackIps(p.monEndpoints))),
     Entry("rgw_internal", b.enc(p.rgw.value.internalUrl)), Entry("rgw_external", b.enc(p.rgw.value.externalUrl))]
  }

  function PutServices(b: Base64, start: seq<Entry>, services: seq<ServiceCreds>): seq<Entry> {
    if services == [] then start else
    var last := services[|services| - 1];
    Put(PutServices(b, start, services[..|services| - 1]), UserName(last.user), b.enc(ServiceText(last)))
  }

  predicate AsciiServices(services: seq<ServiceCreds>) {
    forall s :: s in services ==> Ascii(ServiceText(s))
  }

  function Encode(b: Base64, p: Params): Result<seq<Entry>, Error> {
    if p.rgw.None? then Err(AttributeError)
    else if !Ascii(p.rgw.value.internalUrl) || !Ascii(p.rgw.value.externalUrl) || !AsciiServices(p.services) then Err(ValueError)
    else Ok(PutServices(b, Base(b, p), p.services))
  }

  method FieldsOf(service: ServiceCreds) returns (pools: seq<string>)
    ensures pools == ServiceFields(service)
  {
    pools := [service.keyName, service.key];
    hide Join;
    for j := 0 to |service.pools|
      invariant pools == [service.keyName, service.key] + PoolTexts(service.pools[..j])
    {
      assert service.pools[..j + 1][..j] == service.pools[..j];
      var pool := service.pools[j];
      pools := pools + [Join([pool.name, RoleName(pool.role), pool.deviceClass], ':')];
    }
    assert service.pools[..|service.pools|] == service.pools;
  }

  method ToSecret(b: Base64, p: Params) returns (r: Result<seq<Entry>, Error>)
    ensures r == Encode(b, p)
  {
    if p.rgw.None? {
      return Err(AttributeError);
    }
    MonitorsRoundTrip(p.monEndpoints);
    var mon := ToBase64(b, PackIps(p.monEndpoints));
    var internal := ToBase64(b, p.rgw.value.internalUrl);
    var external := ToBase64(b, p.rgw.value.externalUrl);
    if internal.Err? || external.Err? {
      return Err(ValueError);
    }
    var data := [Entry("client.admin", p.adminKey), Entry("mon_endpoints", mon.value),
                 Entry("rgw_internal", internal.value), Entry("rgw_external", external.value)];
    assert data == Base(b, p);
    hide Ascii, AsciiServices, PutServices, PackIps;
    r := AddServices(b, data, p.services);
  }

  method AddServices(b: Base64, start: seq<Entry>, services: seq<ServiceCreds>) returns (r: Result<seq<Entry>, Error>)
    ensures r == if AsciiServices(services) then Ok(PutServices(b, start, services)) else Err(ValueError)
  {
    var data := start;
    hide Ascii, ServiceFields, Join, Put, UserName;
    for i := 0 to |services|
      invariant data == PutServices(b, start, services[..i])
      invariant forall j :: 0 <= j < i ==> Ascii(ServiceText(services[j]))
    {
      assert services[..i + 1][..i] == services[..i];
      var pools := FieldsOf(services[i]);
      var value := ToBase64(b, Join(pools, ';'));
      if value.Err? {
        assert services[i] in services && !Ascii(ServiceText(services[i]));
        return Err(ValueError);
      }
      data := Put(data, UserName(services[i].user), value.value);
    }
    assert services[..|services|] == services;
    return Ok(data);
  }

  /** Either URL missing or empty leaves the gateway undefined. */
  function DecodeRgw(b: Base64, internal: Option<string>, external: Option<string>): Result<Option<RGWParams>, Error> {
    match (internal, external)
    case (Some(i), Some(x)) =>
      if i == "" || x == "" then Ok(None) else
      (match (FromBase64(b, i), FromBase64(b, x))
       case (Ok(iu), Ok(xu)) => Ok(Some(RGWParams(iu, xu)))
       case _ => Err(ValueError))
    case _ => Ok(None)
  }

  /** One entry of the secret; unknown keys are skipped. */
  function DecodeEntry(b: Base64, e: Entry): Result<Option<ServiceCreds>, Error> {
    match UserOf(e.key)
    case None => Ok(None)
    case Some(u) =>
      match FromBase64(b, e.value)
      case Err(x) => Err(x)
      case Ok(text) =>
        match ParseService(u, text)
        case Err(x) => Err(x)
        case Ok(s) => Ok(Some(s))
  }

  function DecodeServices(b: Base64, d: seq<Entry>): Result<seq<ServiceCreds>, Error> {
    if d == [] then Ok([]) else
    match DecodeServices(b, d[..|d| - 1])
    case Err(x) => Err(x)
    case Ok(ss) =>
      match DecodeEntry(b, d[|d| - 1])
      case Err(x) => Err(x)
      case Ok(None) => Ok(ss)
      case Ok(Some(s)) => Ok(ss + [s])
  }

  function DecodeMonitors(b: Base64, value: string): Result<seq<Endpoint>, Error> {
    match FromBase64(b, value)
    case Err(x) => Err(x)
    case Ok(text) =>
      match UnpackIps(text)
      case None => Err(ValueError)
      case Some(es) => Ok(es)
  }

  function Decode(b: Base64, d: seq<Entry>): Result<Params, Error> {
    match (Get(d, "client.admin"), Get(d, "mon_endpoints"))
    case (Some(admin), Some(mon)) =>
      (match DecodeMonitors(b, mon)
       case Err(x) => Err(x)
       case Ok(es) =>
         match DecodeRgw(b, Get(d, "rgw_internal"), Get(d, "rgw_external"))
         case Err(x) => Err(x)
         case Ok(rgw) =>
           match DecodeServices(b, d)
           case Err(x) => Err(x)
           case Ok(ss) => Ok(Params(admin, es, ss, rgw)))
    case _ => Err(KeyError)
  }

  method FromSecret(b: Base64, secret: seq<Entry>) returns (r: Result<Params, Error>)
    ensures r == Decode(b, secret)
  {
    hide DecodeMonitors, DecodeEntry, DecodeServices, Get, Pop;
    var local := secret;
    var admin := Get(local, "client.admin");
    if admin.None? {
      return Err(KeyError);
    }
    local := Popped(b, local, "client.admin");
    var mon := Get(local, "mon_endpoints");
    if mon.None? {
      return Err(KeyError);
    }
    local := Popped(b, local, "mon_endpoints");
    var endpoints := DecodeMonitors(b, mon.value);
    if endpoints.Err? {
      return Err(endpoints.error);
    }
    var internal := Get(local, "rgw_internal");
    local := Popped(b, local, "rgw_internal");
    var external := Get(local, "rgw_external");
    local := Popped(b, local, "rgw_external");
    var rgw := DecodeRgw(b, internal, external);
    if rgw.Err? {
      return Err(rgw.error);
    }
    var services := ServicesOf(b, local);
    if services.Err? {
      return Err(services.error);
    }
    return Ok(Params(admin.value, endpoints.value, services.value, rgw.value));
  }

  method Popped(b: Base64, d: seq<Entry>, key: string) returns (r: seq<Entry>)
    requires UserOf(key).None?
    ensures r == Pop(d, key)
    ensures forall k :: k != key ==> Get(r, k) == Get(d, k)
    ensures DecodeServices(b, r) == DecodeServices(b, d)
  {
    r := Pop(d, key);
    forall k | k != key ensures Get(r, k) == Get(d, k) {
      PopGet(d, key, k);
    }
    PopServices(b, d, key);
  }

  method ServicesOf(b: Base64, d: seq<Entry>) returns (r: Result<seq<ServiceCreds>, Error>)
    ensures r == DecodeServices(b, d)
  {
    var services: seq<ServiceCreds> := [];
    for i := 0 to |d|
      invariant DecodeServices(b, d[..i]) == Ok(services)
    {
      assert d[..i + 1][..i] == d[..i];
      var one := DecodeEntry(b, d[i]);
      if one.Err? {
        ServicesFail(b, d, i + 1);
        return Err(one.error);
      }
      if one.value.Some? {
        services := services + [one.value.value];
      }
    }
    assert d[..|d|] == d;
    return Ok(services);
  }

  lemma {:induction false} ServicesFail(b: Base64, d: seq<Entry>, k: nat)
    requires k <= |d| && DecodeServices(b, d[..k]).Err?
    ensures DecodeServices(b, d) == DecodeServices(b, d[..k])
  {
    hide DecodeEntry;
    if k < |d| {
      assert d[..|d| - 1][..k] == d[..k];
      ServicesFail(b, d[..|d| - 1], k);
    } else {
      assert d[..k] == d;
    }
  }

  lemma PopServices(b: Base64, d: seq<Entry>, key: string)
    requires UserOf(key).None?
    ensures DecodeServices(b, Pop(d, key)) == DecodeServices(b, d)
  {
    var i := PopAt(d, key);
    if i < |d| {
      SkipOne(b, d, i);
    }
  }

  lemma {:induction false} SkipOne(b: Base64, d: seq<Entry>, i: nat)
    requires i < |d| && UserOf(d[i].key).None?
    ensures DecodeServices(b, d[..i] + d[i + 1..]) == DecodeServices(b, d)
  {
    var rest := d[..i] + d[i + 1..];
    if i == |d| - 1 {
      assert rest == d[..i];
    } else {
      hide UserOf;
      var init := d[..|d| - 1];
      assert rest[..|rest| - 1] == init[..i] + init[i + 1..];
      SkipOne(b, init, i);
      hide DecodeEntry;
      assert rest[|rest| - 1] == d[|d| - 1];
    }
  }

  // ---------------------------------------------------------------- what is read and written

  /** There is a gateway exactly if both URLs are there and not empty. */
  lemma RgwExactly(b: Base64, internal: Option<string>, external: Option<string>)
    ensures var r := DecodeRgw(b, internal, external);
            var given := internal.Some? && external.Some? && internal.value != "" && external.value != "";
            && (r == Ok(None) <==> !given)
            && (r.Err? <==> given && (b.dec(internal.value).None? || b.dec(external.value).None?))
            && (forall rgw: RGWParams :: r == Ok(Some(rgw)) <==>
                  given && b.dec(internal.value) == Some(rgw.internalUrl) && b.dec(external.value) == Some(rgw.externalUrl))
  {
  }

  /** The entries under the name of a user, in order. */
  function UserEntries(d: seq<Entry>): seq<Entry> {
    if d == [] then [] else
    var last := d[|d| - 1];
    UserEntries(d[..|d| - 1]) + if last.key in ["nova", "cinder", "glance", "manila"] then [last] else []
  }

  /** The entry is that of the service. */
  predicate Stands(b: Base64, e: Entry, s: ServiceCreds) {
    e.key == UserName(s.user) && b.dec(e.value) == Some(ServiceText(s)) && CleanService(s)
  }

  lemma EntryExactly(b: Base64, e: Entry, s: ServiceCreds)
    ensures DecodeEntry(b, e) == Ok(Some(s)) <==> Stands(b, e, s)
    ensures DecodeEntry(b, e) == Ok(None) <==> e.key !in ["nova", "cinder", "glance", "manila"]
  {
    UserNames(s.user);
    if UserOf(e.key).Some? && b.dec(e.value).Some? {
      ServiceExactly(UserOf(e.key).value, b.dec(e.value).value, s);
    }
    hide ServiceText, CleanService, ParseService;
  }

  /** The services read are those that the entries of the users stand for, one for each, in order. */
  lemma {:induction false} ServicesExactly(b: Base64, d: seq<Entry>, ss: seq<ServiceCreds>)
    ensures DecodeServices(b, d) == Ok(ss) <==>
            |ss| == |UserEntries(d)| && forall i :: 0 <= i < |ss| ==> Stands(b, UserEntries(d)[i], ss[i])
  {
    hide DecodeEntry, Stands;
    if d != [] {
      var init, e := d[..|d| - 1], d[|d| - 1];
      if e.key !in ["nova", "cinder", "glance", "manila"] {
        ServicesExactly(b, init, ss);
        EntryIgnored(b, e);
        assert UserEntries(d) == UserEntries(init);
      } else {
        EntryTaken(b, e);
        if ss != [] {
          var front, s := ss[..|ss| - 1], ss[|ss| - 1];
          ServicesExactly(b, init, front);
          EntryExactly(b, e, s);
          assert ss == front + [s];
          ServicesLast(b, d, ss);
        }
      }
    }
  }

  lemma EntryIgnored(b: Base64, e: Entry)
    requires e.key !in ["nova", "cinder", "glance", "manila"]
    ensures DecodeEntry(b, e) == Ok(None)
  {
  }

  lemma EntryTaken(b: Base64, e: Entry)
    requires e.key in ["nova", "cinder", "glance", "manila"]
    ensures DecodeEntry(b, e) != Ok(None)
  {
    hide ParseService;
  }

  lemma ServicesLast(b: Base64, d: seq<Entry>, ss: seq<ServiceCreds>)
    requires d != [] && ss != [] && DecodeEntry(b, d[|d| - 1]) != Ok(None)
    ensures DecodeServices(b, d) == Ok(ss) <==>
            DecodeServices(b, d[..|d| - 1]) == Ok(ss[..|ss| - 1]) && DecodeEntry(b, d[|d| - 1]) == Ok(Some(ss[|ss| - 1]))
  {
    hide DecodeEntry;
    var r, e := DecodeServices(b, d[..|d| - 1]), DecodeEntry(b, d[|d| - 1]);
    assert ss == ss[..|ss| - 1] + [ss[|ss| - 1]];
    if r.Ok? && e.Ok? && e.value.Some? {
      SnocInjective(r.value, e.value.value, ss[..|ss| - 1], ss[|ss| - 1]);
    }
  }

  /** What a secret says, read entry by entry. */
  ghost predicate Says(b: Base64, d: seq<Entry>, p: Params) {
    && Get(d, "client.admin") == Some(p.adminKey)
    && (exists value, text :: Get(d, "mon_endpoints") == Some(value) && b.dec(value) == Some(text)
          && |Split(text, ',')| == |p.monEndpoints|
          && forall i :: 0 <= i < |p.monEndpoints| ==> ParseEndpoint(Split(text, ',')[i]) == Some(p.monEndpoints[i]))
    && DecodeRgw(b, Get(d, "rgw_internal"), Get(d, "rgw_external")) == Ok(p.rgw)
    && |p.services| == |UserEntries(d)| && forall i :: 0 <= i < |p.services| ==> Stands(b, UserEntries(d)[i], p.services[i])
  }

  /** Decoding gives exactly the parameters that the secret says; a missing key is a KeyError. */
  lemma DecodeExactly(b: Base64, d: seq<Entry>, p: Params)
    ensures Decode(b, d) == Ok(p) <==> Says(b, d, p)
    ensures Get(d, "client.admin").None? || Get(d, "mon_endpoints").None? ==> Decode(b, d) == Err(KeyError)
  {
    hide Get, DecodeRgw, DecodeServices, UserEntries, Stands, Split, ParseEndpoint, ParseEndpoints;
    ServicesExactly(b, d, p.services);
    var mon := Get(d, "mon_endpoints");
    if mon.Some? && b.dec(mon.value).Some? {
      EndpointsExactly(Split(b.dec(mon.value).value, ','), p.monEndpoints);
    }
  }

  lemma {:induction false} PutGet(d: seq<Entry>, key: string, value: string, k: string)
    ensures Get(Put(d, key, value), k) == if k == key then Some(value) else Get(d, k)
  {
    if d != [] && d[0].key != key {
      PutGet(d[1..], key, value, k);
      assert Put(d, key, value)[1..] == Put(d[1..], key, value);
    }
  }

  /** The last service of a user is under the user's name. */
  lemma {:induction false} ServicePut(b: Base64, start: seq<Entry>, ss: seq<ServiceCreds>, i: nat)
    requires i < |ss| && forall j :: i < j < |ss| ==> ss[j].user != ss[i].user
    ensures Get(PutServices(b, start, ss), UserName(ss[i].user)) == Some(b.enc(ServiceText(ss[i])))
  {
    hide ServiceText, UserName, Put, Get;
    var init, last := ss[..|ss| - 1], ss[|ss| - 1];
    PutGet(PutServices(b, start, init), UserName(last.user), b.enc(ServiceText(last)), UserName(ss[i].user));
    if i < |init| {
      assert init[i] == ss[i];
      ServicePut(b, start, init, i);
      UserNames(ss[i].user);
      UserNames(last.user);
    }
  }

  lemma {:induction false} NothingPut(b: Base64, start: seq<Entry>, ss: seq<ServiceCreds>, u: OSUser)
    requires forall i :: 0 <= i < |ss| ==> ss[i].user != u
    ensures Get(PutServices(b, start, ss), UserName(u)) == Get(start, UserName(u))
  {
    hide ServiceText, UserName, Put, Get;
    if ss != [] {
      var init, last := ss[..|ss| - 1], ss[|ss| - 1];
      NothingPut(b, start, init, u);
      PutGet(PutServices(b, start, init), UserName(last.user), b.enc(ServiceText(last)), UserName(u));
      UserNames(u);
      UserNames(last.user);
    }
  }

  /** When there is a secret, and what is under the keys that are not users. */
  lemma EncodeExactly(b: Base64, p: Params)
    ensures Encode(b, p).Ok? <==>
              p.rgw.Some? && Ascii(p.rgw.value.internalUrl) && Ascii(p.rgw.value.externalUrl)
              && forall s :: s in p.services ==> Ascii(ServiceText(s))
    ensures Encode(b, p) == Err(AttributeError) <==> p.rgw.None?
    ensures Encode(b, p).Ok? ==>
              var d := Encode(b, p).value;
              && Get(d, "client.admin") == Some(p.adminKey) && Get(d, "mon_endpoints") == Some(b.enc(PackIps(p.monEndpoints)))
              && Get(d, "rgw_internal") == Some(b.enc(p.rgw.value.internalUrl)) && Get(d, "rgw_external") == Some(b.enc(p.rgw.value.externalUrl))
  {
    if Encode(b, p).Ok? {
      BaseGets(b, p, PutServices(b, [], p.services));
      ServicesAfterBase(b, Base(b, p), p.services);
    }
    hide ServiceText, PackIps, PutServices, Ascii, Get, Base;
  }

  /** Under the name of a user are the credentials of the last service with that user, if there is one. */
  lemma EncodedServices(b: Base64, p: Params, u: OSUser)
    requires Encode(b, p).Ok?
    ensures var value := Get(Encode(b, p).value, UserName(u));
            if exists i :: 0 <= i < |p.services| && p.services[i].user == u
            then exists i :: 0 <= i < |p.services| && p.services[i].user == u && value == Some(b.enc(ServiceText(p.services[i])))
                   && forall j :: i < j < |p.services| ==> p.services[j].user != u
            else value.None?
  {
    hide ServiceText, PackIps, PutServices, AsciiServices, Ascii, Get, UserName, Base;
    if exists i :: 0 <= i < |p.services| && p.services[i].user == u {
      var i := LastOf(p.services, u);
      ServicePut(b, Base(b, p), p.services, i);
    } else {
      NothingPut(b, Base(b, p), p.services, u);
      NotInBase(b, p, u);
    }
  }

  lemma {:induction false} LastOf(ss: seq<ServiceCreds>, u: OSUser) returns (i: nat)
    requires exists k :: 0 <= k < |ss| && ss[k].user == u
    ensures i < |ss| && ss[i].user == u && forall j :: i < j < |ss| ==> ss[j].user != u
  {
    if ss[|ss| - 1].user == u {
      i := |ss| - 1;
    } else {
      var init := ss[..|ss| - 1];
      var k :| 0 <= k < |ss| && ss[k].user == u;
      assert init[k].user == u;
      i := LastOf(init, u);
    }
  }

  lemma {:induction false} GetNone(d: seq<Entry>, key: string)
    requires forall i :: 0 <= i < |d| ==> d[i].key != key
    ensures Get(d, key).None?
  {
    if d != [] {
      GetNone(d[1..], key);
    }
  }

  lemma NotInBase(b: Base64, p: Params, u: OSUser)
    requires p.rgw.Some?
    ensures Get(Base(b, p), UserName(u)).None?
  {
    hide PackIps, Get;
    UserNames(u);
    assert UserOf("client.admin").None? && UserOf("mon_endpoints").None? && UserOf("rgw_internal").None? && UserOf("rgw_external").None?;
    hide UserOf, UserName;
    GetNone(Base(b, p), UserName(u));
  }

  // ---------------------------------------------------------------- the round trip

  predicate DistinctUsers(ss: seq<ServiceCreds>) {
    forall i, j :: 0 <= i < j < |ss| ==> ss[i].user != ss[j].user
  }

  /** What a set of parameters must satisfy to survive the secret. */
  predicate Clean(p: Params) {
    && p.rgw.Some? && p.rgw.value.internalUrl != "" && p.rgw.value.externalUrl != ""
    && Ascii(p.rgw.value.internalUrl) && Ascii(p.rgw.value.externalUrl)
    && p.monEndpoints != []
    && DistinctUsers(p.services) && AsciiServices(p.services)
    && forall s :: s in p.services ==> CleanService(s)
  }

  function EntryFor(b: Base64, s: ServiceCreds): Entry {
    Entry(UserName(s.user), b.enc(ServiceText(s)))
  }

  function Entries(b: Base64, ss: seq<ServiceCreds>): (r: seq<Entry>)
    ensures |r| == |ss| && forall i :: 0 <= i < |ss| ==> r[i] == EntryFor(b, ss[i])
  {
    if ss == [] then [] else Entries(b, ss[..|ss| - 1]) + [EntryFor(b, ss[|ss| - 1])]
  }

  ghost predicate HasKey(d: seq<Entry>, key: string) {
    exists i :: 0 <= i < |d| && d[i].key == key
  }

  lemma UserNames(u: OSUser)
    ensures UserOf(UserName(u)) == Some(u)
  {
  }

  lemma {:induction false} PutAfter(base: seq<Entry>, t: seq<Entry>, key: string, value: string)
    requires !HasKey(base, key)
    ensures Put(base + t, key, value) == base + Put(t, key, value)
  {
    if base == [] {
      assert base + t == t && base + Put(t, key, value) == Put(t, key, value);
    } else {
      assert base[0].key != key;
      forall i | 0 <= i < |base| - 1 ensures base[1..][i].key != key {
        assert base[1..][i] == base[i + 1];
      }
      assert (base + t)[1..] == base[1..] + t;
      PutAfter(base[1..], t, key, value);
    }
  }

  lemma {:induction false} PutNew(d: seq<Entry>, key: string, value: string)
    requires !HasKey(d, key)
    ensures Put(d, key, value) == d + [Entry(key, value)]
  {
    PutAfter(d, [], key, value);
    assert d + [] == d;
  }

  lemma {:induction false} PutKeys(d: seq<Entry>, key: string, value: string)
    ensures |Put(d, key, value)| == |d| + if HasKey(d, key) then 0 else 1
    ensures forall k :: HasKey(Put(d, key, value), k) <==> HasKey(d, k) || k == key
  {
    if !HasKey(d, key) {
      PutNew(d, key, value);
      var r := d + [Entry(key, value)];
      assert forall i :: 0 <= i < |d| ==> r[i] == d[i];
      assert r[|d|].key == key;
    } else if d[0].key == key {
      var r := [Entry(key, value)] + d[1..];
      assert forall i :: 0 <= i < |d| ==> r[i].key == d[i].key;
    } else {
      PutKeys(d[1..], key, value);
      var r := Put(d, key, value);
      HasKeyFront(d[0], d[1..]);
      HasKeyFront(d[0], Put(d[1..], key, value));
      assert d == [d[0]] + d[1..];
    }
  }

  lemma HasKeyFront(e: Entry, d: seq<Entry>)
    ensures forall k :: HasKey([e] + d, k) <==> e.key == k || HasKey(d, k)
  {
    forall k ensures HasKey([e] + d, k) <==> e.key == k || HasKey(d, k) {
      assert ([e] + d)[0] == e;
      if i :| 0 <= i < |d| && d[i].key == k {
        assert ([e] + d)[i + 1] == d[i];
      }
    }
  }

  /** The services are added after the base, whose keys are not users. */
  lemma {:induction false} ServicesAfterBase(b: Base64, base: seq<Entry>, ss: seq<ServiceCreds>)
    requires forall i :: 0 <= i < |base| ==> UserOf(base[i].key).None?
    ensures PutServices(b, base, ss) == base + PutServices(b, [], ss)
  {
    if ss == [] {
      assert base + [] == base;
    } else {
      var init, last := ss[..|ss| - 1], ss[|ss| - 1];
      ServicesAfterBase(b, base, init);
      UserNames(last.user);
      hide UserOf, UserName, ServiceText, Put;
      PutAfter(base, PutServices(b, [], init), UserName(last.user), b.enc(ServiceText(last)));
    }
  }

  /** One entry a user, so fewer entries than services if a user occurs twice. */
  lemma {:induction false} TailKeys(b: Base64, ss: seq<ServiceCreds>)
    ensures var tail := PutServices(b, [], ss);
            && |tail| <= |ss| && (|tail| == |ss| ==> DistinctUsers(ss))
            && (forall k :: HasKey(tail, k) <==> exists i :: 0 <= i < |ss| && UserName(ss[i].user) == k)
  {
    hide UserName, ServiceText, Put, HasKey;
    if ss == [] {
      assert forall k :: !HasKey([], k) by {
        NoKeys();
      }
    } else {
      var init, last := ss[..|ss| - 1], ss[|ss| - 1];
      TailKeys(b, init);
      var before := PutServices(b, [], init);
      PutKeys(before, UserName(last.user), b.enc(ServiceText(last)));
      assert forall i :: 0 <= i < |init| ==> init[i] == ss[i];
      if |PutServices(b, [], ss)| == |ss| {
        forall i | 0 <= i < |init| ensures ss[i].user != last.user {
          assert HasKey(before, UserName(init[i].user));
        }
      }
    }
  }

  lemma NoKeys()
    ensures forall k :: !HasKey([], k)
  {
  }

  lemma {:induction false} TailIsEntries(b: Base64, ss: seq<ServiceCreds>)
    requires DistinctUsers(ss)
    ensures PutServices(b, [], ss) == Entries(b, ss)
  {
    if ss != [] {
      var init, last := ss[..|ss| - 1], ss[|ss| - 1];
      TailIsEntries(b, init);
      forall i | 0 <= i < |init| ensures Entries(b, init)[i].key != UserName(last.user) {
        UserNames(init[i].user);
        UserNames(last.user);
      }
      PutNew(Entries(b, init), UserName(last.user), b.enc(ServiceText(last)));
    }
  }

  lemma {:induction false} DecodeAtMost(b: Base64, d: seq<Entry>)
    ensures DecodeServices(b, d).Ok? ==> |DecodeServices(b, d).value| <= |d|
  {
    hide DecodeEntry;
    if d != [] {
      DecodeAtMost(b, d[..|d| - 1]);
    }
  }

  lemma ServicesSnoc(b: Base64, d: seq<Entry>, e: Entry)
    ensures DecodeServices(b, d + [e]) ==
            match DecodeServices(b, d)
            case Err(x) => Err(x)
            case Ok(ss) =>
              match DecodeEntry(b, e)
              case Err(x) => Err(x)
              case Ok(None) => Ok(ss)
              case Ok(Some(s)) => Ok(ss + [s])
  {
    hide DecodeEntry;
    assert (d + [e])[..|d|] == d;
  }

  lemma DecodeOne(b: Base64, s: ServiceCreds)
    requires InversePair(b)
    ensures DecodeEntry(b, EntryFor(b, s)) == Ok(Some(s)) <==> CleanService(s)
    ensures DecodeEntry(b, EntryFor(b, s)).Ok? ==> DecodeEntry(b, EntryFor(b, s)).value.Some?
  {
    UserNames(s.user);
    ServiceRoundTrip(s);
    hide ParseService, ServiceText, CleanService, UserOf, UserName;
    assert b.dec(b.enc(ServiceText(s))) == Some(ServiceText(s));
  }

  lemma SnocInjective<T>(a: seq<T>, x: T, c: seq<T>, y: T)
    ensures a + [x] == c + [y] <==> a == c && x == y
  {
    if a + [x] == c + [y] {
      assert (a + [x])[|a|] == x && (c + [y])[|c|] == y;
      assert (a + [x])[..|a|] == a && (c + [y])[..|c|] == c;
    }
  }

  lemma {:induction false} DecodeEntries(b: Base64, ss: seq<ServiceCreds>)
    requires InversePair(b)
    ensures DecodeServices(b, Entries(b, ss)) == Ok(ss) <==> forall s :: s in ss ==> CleanService(s)
  {
    hide DecodeEntry, Entries, EntryFor, CleanService, InversePair;
    if ss == [] {
      assert Entries(b, ss) == [];
    } else {
      var init, last := ss[..|ss| - 1], ss[|ss| - 1];
      DecodeEntries(b, init);
      hide DecodeServices;
      DecodeOne(b, last);
      assert Entries(b, ss) == Entries(b, init) + [EntryFor(b, last)];
      ServicesSnoc(b, Entries(b, init), EntryFor(b, last));
      assert ss == init + [last];
      assert forall s :: s in ss <==> s in init || s == last;
      var r, e := DecodeServices(b, Entries(b, init)), DecodeEntry(b, EntryFor(b, last));
      if r.Ok? && e.Ok? {
        SnocInjective(r.value, e.value.value, init, last);
      }
    }
  }

  lemma {:induction false} DecodeAfterBase(b: Base64, base: seq<Entry>, t: seq<Entry>)
    requires forall i :: 0 <= i < |base| ==> UserOf(base[i].key).None?
    ensures DecodeServices(b, base + t) == DecodeServices(b, t)
  {
    if base == [] {
      assert base + t == t;
    } else {
      hide UserOf;
      var d := base + t;
      assert d[0] == base[0];
      SkipOne(b, d, 0);
      assert d[..0] + d[1..] == base[1..] + t;
      forall i | 0 <= i < |base| - 1 ensures UserOf(base[1..][i].key).None? {
        assert base[1..][i] == base[i + 1];
      }
      DecodeAfterBase(b, base[1..], t);
    }
  }

  lemma {:induction false} GetAt(d: seq<Entry>, i: nat)
    requires i < |d| && forall j :: 0 <= j < i ==> d[j].key != d[i].key
    ensures Get(d, d[i].key) == Some(d[i].value)
  {
    if i > 0 {
      assert d[0].key != d[i].key;
      GetAt(d[1..], i - 1);
    }
  }

  lemma BaseGets(b: Base64, p: Params, t: seq<Entry>)
    requires p.rgw.Some?
    ensures var d := Base(b, p) + t;
            && Get(d, "client.admin") == Some(p.adminKey)
            && Get(d, "mon_endpoints") == Some(b.enc(PackIps(p.monEndpoints)))
            && Get(d, "rgw_internal") == Some(b.enc(p.rgw.value.internalUrl))
            && Get(d, "rgw_external") == Some(b.enc(p.rgw.value.externalUrl))
    ensures forall i :: 0 <= i < 4 ==> UserOf(Base(b, p)[i].key).None?
  {
    hide PackIps;
    var base := Base(b, p);
    var d := base + t;
    assert d[0] == base[0] && d[1] == base[1] && d[2] == base[2] && d[3] == base[3];
    GetAt(d, 0);
    GetAt(d, 1);
    GetAt(d, 2);
    GetAt(d, 3);
  }

  /** Encoding succeeds and decoding gives the parameters back exactly if they are clean. */
  lemma RoundTrip(b: Base64, p: Params)
    requires InversePair(b)
    ensures Encode(b, p).Ok? && Decode(b, Encode(b, p).value) == Ok(p) <==> Clean(p)
  {
    if Encode(b, p).Ok? {
      var tail := PutServices(b, [], p.services);
      BaseGets(b, p, tail);
      ServicesAfterBase(b, Base(b, p), p.services);
      DecodeAfterBase(b, Base(b, p), tail);
      TailRoundTrip(b, p.services);
      HeadRoundTrip(b, p);
      hide PackIps, PutServices, Base, DecodeServices, DecodeMonitors, DecodeRgw, Get, Ascii, AsciiServices, CleanService, DistinctUsers, InversePair;
    }
  }

  lemma HeadRoundTrip(b: Base64, p: Params)
    requires InversePair(b) && p.rgw.Some?
    ensures DecodeMonitors(b, b.enc(PackIps(p.monEndpoints))) == if p.monEndpoints == [] then Err(ValueError) else Ok(p.monEndpoints)
    ensures var rgw := p.rgw.value;
            DecodeRgw(b, Some(b.enc(rgw.internalUrl)), Some(b.enc(rgw.externalUrl))) ==
            Ok(if rgw.internalUrl != "" && rgw.externalUrl != "" then Some(rgw) else None)
  {
    MonitorsRoundTrip(p.monEndpoints);
    hide PackIps, UnpackIps;
    var rgw := p.rgw.value;
    assert b.dec(b.enc(PackIps(p.monEndpoints))) == Some(PackIps(p.monEndpoints));
    assert b.dec(b.enc(rgw.internalUrl)) == Some(rgw.internalUrl) && b.dec(b.enc(rgw.externalUrl)) == Some(rgw.externalUrl);
  }

  lemma TailRoundTrip(b: Base64, ss: seq<ServiceCreds>)
    requires InversePair(b)
    ensures DecodeServices(b, PutServices(b, [], ss)) == Ok(ss) <==> DistinctUsers(ss) && forall s :: s in ss ==> CleanService(s)
  {
    if DistinctUsers(ss) {
      TailIsEntries(b, ss);
      DecodeEntries(b, ss);
    } else {
      TailKeys(b, ss);
      DecodeAtMost(b, PutServices(b, [], ss));
    }
  }

  // ---------------------------------------------------------------- other keys, other orders

  predicate IsKnown(key: string) {
    key in ["client.admin", "mon_endpoints", "rgw_internal", "rgw_external"] || UserOf(key).Some?
  }

  function Known(d: seq<Entry>): seq<Entry> {
    if d == [] then [] else (if IsKnown(d[0].key) then [d[0]] else []) + Known(d[1..])
  }

  lemma {:induction false} KnownGet(d: seq<Entry>, key: string)
    requires IsKnown(key)
    ensures Get(Known(d), key) == Get(d, key)
  {
    hide IsKnown;
    if d != [] {
      KnownGet(d[1..], key);
      if IsKnown(d[0].key) {
        assert Known(d)[1..] == Known(d[1..]);
      } else {
        assert Known(d) == Known(d[1..]);
      }
    }
  }

  lemma {:induction false} KnownServices(b: Base64, before: seq<Entry>, d: seq<Entry>)
    ensures DecodeServices(b, before + Known(d)) == DecodeServices(b, before + d)
    decreases |d|
  {
    hide DecodeServices, UserOf;
    if d != [] {
      var all := before + d;
      if IsKnown(d[0].key) {
        assert before + Known(d) == (before + [d[0]]) + Known(d[1..]);
        assert all == (before + [d[0]]) + d[1..];
        KnownServices(b, before + [d[0]], d[1..]);
      } else {
        assert all[|before|] == d[0];
        assert before + Known(d) == before + Known(d[1..]);
        SkipOne(b, all, |before|);
        assert all[..|before|] + all[|before| + 1..] == before + d[1..];
        KnownServices(b, before, d[1..]);
      }
    }
  }

  /** Unknown keys make no difference. */
  lemma UnknownKeysIgnored(b: Base64, d: seq<Entry>)
    ensures Decode(b, Known(d)) == Decode(b, d)
  {
    hide Get, DecodeServices, DecodeMonitors, DecodeRgw, Known;
    KnownGet(d, "client.admin");
    KnownGet(d, "mon_endpoints");
    KnownGet(d, "rgw_internal");
    KnownGet(d, "rgw_external");
    KnownServices(b, [], d);
    assert [] + d == d && [] + Known(d) == Known(d);
  }

  /** So the round trip holds for every secret whose known part is the encoded one. */
  lemma RoundTripWithExtras(b: Base64, p: Params, d: seq<Entry>)
    requires InversePair(b) && Encode(b, p).Ok? && Known(d) == Encode(b, p).value
    ensures Decode(b, d) == Ok(p) <==> Clean(p)
  {
    hide Encode, Decode, Clean, InversePair;
    RoundTrip(b, p);
    UnknownKeysIgnored(b, d);
  }

  /** The services an entry stands for: none or one. */
  function Given(r: Result<Option<ServiceCreds>, Error>): multiset<ServiceCreds> {
    match r
    case Ok(Some(s)) => multiset{s}
    case _ => multiset{}
  }

  lemma {:induction false} TakeOut(b: Base64, d: seq<Entry>, i: nat)
    requires i < |d|
    ensures var rest := DecodeServices(b, d[..i] + d[i + 1..]);
            var all := DecodeServices(b, d);
            && (all.Ok? <==> rest.Ok? && DecodeEntry(b, d[i]).Ok?)
            && (all.Ok? ==> multiset(all.value) == multiset(rest.value) + Given(DecodeEntry(b, d[i])))
  {
    hide DecodeServices, DecodeEntry;
    var init, last := d[..|d| - 1], d[|d| - 1];
    assert d == init + [last];
    ServicesSnoc(b, init, last);
    if i == |d| - 1 {
      assert d[..i] + d[i + 1..] == init;
    } else {
      assert d[..i] + d[i + 1..] == (init[..i] + init[i + 1..]) + [last];
      ServicesSnoc(b, init[..i] + init[i + 1..], last);
      TakeOut(b, init, i);
    }
  }

  lemma OneOut<T>(d: seq<T>, i: nat)
    requires i < |d|
    ensures multiset(d[..i] + d[i + 1..]) == multiset(d) - multiset{d[i]}
  {
    assert d == d[..i] + [d[i]] + d[i + 1..];
  }

  lemma {:induction false} ReorderedServices(b: Base64, d: seq<Entry>, e: seq<Entry>)
    requires multiset(d) == multiset(e)
    ensures var x := DecodeServices(b, d);
            var y := DecodeServices(b, e);
            (x.Ok? <==> y.Ok?) && (x.Ok? ==> multiset(x.value) == multiset(y.value))
    decreases |d|
  {
    hide DecodeServices, DecodeEntry, Given;
    assert |d| == |multiset(d)| == |multiset(e)| == |e|;
    if d == [] {
      assert e == [];
    } else {
      assert d[0] in multiset(e);
      var i :| 0 <= i < |e| && e[i] == d[0];
      OneOut(d, 0);
      OneOut(e, i);
      ReorderedServices(b, d[..0] + d[1..], e[..i] + e[i + 1..]);
      TakeOut(b, d, 0);
      TakeOut(b, e, i);
    }
  }

  /** A dictionary has a key once. */
  ghost predicate Keyed(d: seq<Entry>) {
    forall i, j :: 0 <= i < j < |d| ==> d[i].key != d[j].key
  }

  lemma {:induction false} GetIsMember(d: seq<Entry>, key: string)
    requires Keyed(d)
    ensures forall v :: Get(d, key) == Some(v) <==> Entry(key, v) in d
  {
    if d != [] {
      assert d == [d[0]] + d[1..];
      assert forall i :: 1 <= i < |d| ==> d[i] == d[1..][i - 1];
      GetIsMember(d[1..], key);
      if d[0].key == key {
        forall v ensures Entry(key, v) in d <==> v == d[0].value {
          if Entry(key, v) in d {
            var i :| 0 <= i < |d| && d[i] == Entry(key, v);
          }
        }
      }
    }
  }

  lemma SameGet(d: seq<Entry>, e: seq<Entry>, key: string)
    requires Keyed(d) && Keyed(e) && multiset(d) == multiset(e)
    ensures Get(d, key) == Get(e, key)
  {
    hide Get;
    GetIsMember(d, key);
    GetIsMember(e, key);
    forall v ensures Get(d, key) == Some(v) <==> Get(e, key) == Some(v) {
      assert Entry(key, v) in d <==> Entry(key, v) in multiset(d);
      assert Entry(key, v) in e <==> Entry(key, v) in multiset(e);
    }
    match Get(d, key)
    case Some(v) => assert Get(e, key) == Some(v);
    case None =>
  }

  /** The cluster may hand the keys back in another order: the services then come in that order, and
      nothing else changes. */
  lemma OrderOnlyMovesServices(b: Base64, d: seq<Entry>, e: seq<Entry>)
    requires Keyed(d) && Keyed(e) && multiset(d) == multiset(e)
    ensures Decode(b, d).Ok? <==> Decode(b, e).Ok?
    ensures Decode(b, d).Ok? ==>
              var p, q := Decode(b, d).value, Decode(b, e).value;
              q == p.(services := q.services) && multiset(q.services) == multiset(p.services)
  {
    hide DecodeServices, DecodeMonitors, DecodeRgw, Get;
    ReorderedServices(b, d, e);
    forall key ensures Get(d, key) == Get(e, key) {
      SameGet(d, e, key);
    }
  }
}
