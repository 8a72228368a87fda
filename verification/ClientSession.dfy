// What one client session sees: the servers it may use, the names of their tools, and how a
// name the client sends is resolved to a server and a tool.
module ClientSession {
  import opened Wrappers
  import opened Numbers
  import opened Names

  datatype Resource = Resource(name: string, uri: string)

  // A field is true here when it is literally true in the capability object.
  datatype Feature = Feature(listChanged: bool, subscribe: bool)

  datatype Capabilities = Capabilities(
    prompts: Option<Feature>, resources: Option<Feature>, completions: Option<string>, logging: Option<string>)

  // A running instance of a server; available means online or sleeping.
  datatype Server = Server(
    id: string, serverId: string, userId: Option<string>,
    enabled: bool, available: bool, allowUserInput: bool, publicAccess: bool, anonymousAccess: bool,
    tools: Option<seq<string>>, cachedTools: Option<seq<string>>,
    resources: Option<seq<Resource>>, cachedResources: Option<seq<Resource>>,
    capabilities: Option<Capabilities>)

  // Instances in the order they were registered: those shared by all users, and those
  // started for one user.
  datatype Registry = Registry(shared: seq<Server>, temporary: seq<Server>)

  datatype Access = Access(enabled: Option<bool>, tools: map<string, bool>, resources: map<string, bool>)

  datatype Session = Session(
    userId: string, anonymous: bool, permissions: map<string, Access>, preferences: map<string, Access>)

  datatype Target = Target(serverId: string, name: string)

  /* ---------- lookups ---------- */

  function First(servers: seq<Server>, wanted: Server -> bool): (r: Option<Server>)
    ensures r.Some? ==> r.value in servers && wanted(r.value)
    ensures r.Some? ==> exists k :: IsFirstOf(servers, wanted, k) && servers[k] == r.value
    ensures r.None? ==> forall x :: x in servers ==> !wanted(x)
  {
    if servers == [] then None
    else if wanted(servers[0]) then
      assert IsFirstOf(servers, wanted, 0);
      Some(servers[0])
    else
      var r := First(servers[1..], wanted);
      assert r.Some? ==> exists k :: IsFirstOf(servers, wanted, k) && servers[k] == r.value by {
        if r.Some? {
          var k :| IsFirstOf(servers[1..], wanted, k) && servers[1..][k] == r.value;
          assert IsFirstOf(servers, wanted, k + 1);
        }
      }
      r
  }

  ghost predicate IsFirstOf(servers: seq<Server>, wanted: Server -> bool, k: int) {
    0 <= k < |servers| && wanted(servers[k]) && forall j :: 0 <= j < k ==> !wanted(servers[j])
  }

  function TemporaryKey(serverId: string, userId: string): string {
    serverId + ":" + userId
  }

  function GetServerContext(reg: Registry, serverId: string, userId: string): Option<Server> {
    var found := First(reg.shared, (x: Server) => x.serverId == serverId);
    if found.Some? then found
    else if userId == "" then None
    else
      First(reg.temporary, (x: Server) =>
        x.userId.Some? && TemporaryKey(x.serverId, x.userId.value) == TemporaryKey(serverId, userId))
  }

  function ContextById(reg: Registry, s: Session, id: string): Option<Server> {
    var found := First(reg.shared, (x: Server) => x.id == id);
    if found.Some? then found
    else First(reg.temporary, (x: Server) => x.id == id && x.userId == Some(s.userId))
  }

  /* ---------- permissions ---------- */

  function OrElse(setting: Option<bool>, default: bool): bool {
    if setting.Some? then setting.value else default
  }

  function ServerSetting(m: map<string, Access>, serverId: string): Option<bool> {
    if serverId in m then m[serverId].enabled else None
  }

  function ToolSetting(m: map<string, Access>, serverId: string, tool: string): Option<bool> {
    if serverId in m && tool in m[serverId].tools then Some(m[serverId].tools[tool]) else None
  }

  function ResourceSetting(m: map<string, Access>, serverId: string, resource: string): Option<bool> {
    if serverId in m && resource in m[serverId].resources then Some(m[serverId].resources[resource]) else None
  }

  predicate CanAccessServer(reg: Registry, s: Session, serverId: string) {
    match GetServerContext(reg, serverId, s.userId)
    case None => false
    case Some(x) =>
      && x.enabled && x.available
      && (s.anonymous ==> x.anonymousAccess)
      && (x.allowUserInput ==> !s.anonymous && x.userId == Some(s.userId))
      && OrElse(ServerSetting(s.permissions, serverId), if s.anonymous then x.anonymousAccess else x.publicAccess)
      && OrElse(ServerSetting(s.preferences, serverId), true)
  }

  predicate CanUseTool(s: Session, x: Server, tool: string) {
    && (if x.allowUserInput then x.userId == Some(s.userId) else OrElse(ToolSetting(s.permissions, x.serverId, tool), true))
    && OrElse(ToolSetting(s.preferences, x.serverId, tool), true)
  }

  predicate CanAccessResource(s: Session, x: Server, resource: string) {
    && (if x.allowUserInput then x.userId == Some(s.userId)
        else OrElse(ResourceSetting(s.permissions, x.serverId, resource), true))
    && OrElse(ResourceSetting(s.preferences, x.serverId, resource), true)
  }

  /* ---------- available servers ---------- */

  predicate Usable(reg: Registry, s: Session, x: Server) {
    x.available && CanAccessServer(reg, s, x.serverId)
  }

  function UsableOf(reg: Registry, s: Session, servers: seq<Server>): (r: seq<Server>)
    ensures forall x :: x in r <==> x in servers && Usable(reg, s, x)
  {
    if servers == [] then []
    else
      var rest := UsableOf(reg, s, servers[..|servers| - 1]);
      var x := servers[|servers| - 1];
      if Usable(reg, s, x) then rest + [x] else rest
  }

  function Available(reg: Registry, s: Session): seq<Server> {
    UsableOf(reg, s, reg.shared + reg.temporary)
  }

  // The context of a server id: the first shared instance of it, else the first one started for this
  // user, under the key the two ids make.
  predicate FirstShared(reg: Registry, serverId: string, k: int) {
    && 0 <= k < |reg.shared| && reg.shared[k].serverId == serverId
    && forall j :: 0 <= j < k ==> reg.shared[j].serverId != serverId
  }

  predicate HasKey(x: Server, serverId: string, userId: string) {
    x.userId.Some? && x.serverId + ":" + x.userId.value == serverId + ":" + userId
  }

  predicate FirstTemporary(reg: Registry, serverId: string, userId: string, k: int) {
    && 0 <= k < |reg.temporary| && HasKey(reg.temporary[k], serverId, userId)
    && forall j :: 0 <= j < k ==> !HasKey(reg.temporary[j], serverId, userId)
  }

  ghost predicate IsContext(reg: Registry, s: Session, serverId: string, c: Server) {
    if exists x :: x in reg.shared && x.serverId == serverId
    then exists k :: FirstShared(reg, serverId, k) && c == reg.shared[k]
    else s.userId != "" && exists k :: FirstTemporary(reg, serverId, s.userId, k) && c == reg.temporary[k]
  }

  // Why a session is refused a server, or a tool or resource of it, by an entry under the server's id.
  predicate ServerDenied(m: map<string, Access>, serverId: string) {
    serverId in m && m[serverId].enabled == Some(false)
  }

  predicate ServerUnset(m: map<string, Access>, serverId: string) {
    serverId !in m || m[serverId].enabled == None
  }

  predicate ToolDenied(m: map<string, Access>, serverId: string, tool: string) {
    serverId in m && tool in m[serverId].tools && !m[serverId].tools[tool]
  }

  predicate ResourceDenied(m: map<string, Access>, serverId: string, resource: string) {
    serverId in m && resource in m[serverId].resources && !m[serverId].resources[resource]
  }

  // The reasons to refuse a server whose context is c.
  predicate Refused(s: Session, c: Server, serverId: string) {
    || !c.enabled
    || !c.available
    || (s.anonymous && !c.anonymousAccess)
    || (c.allowUserInput && s.anonymous)
    || (c.allowUserInput && c.userId != Some(s.userId))
    || ServerDenied(s.permissions, serverId)
    || (ServerUnset(s.permissions, serverId) && !s.anonymous && !c.publicAccess)
    || (ServerUnset(s.permissions, serverId) && s.anonymous && !c.anonymousAccess)
    || ServerDenied(s.preferences, serverId)
  }

  // A server is admitted if and only if it has a context and no reason refuses it.
  lemma AdmittedIff(reg: Registry, s: Session, serverId: string)
    ensures CanAccessServer(reg, s, serverId) <==> exists c :: IsContext(reg, s, serverId, c) && !Refused(s, c, serverId)
  {
    var found := GetServerContext(reg, serverId, s.userId);
    ContextIs(reg, s, serverId);
    if found.Some? {
      assert IsContext(reg, s, serverId, found.value);
    }
  }

  lemma ContextIs(reg: Registry, s: Session, serverId: string)
    ensures forall c :: IsContext(reg, s, serverId, c) <==> GetServerContext(reg, serverId, s.userId) == Some(c)
  {
    var ofServer := (x: Server) => x.serverId == serverId;
    var ofUser := (x: Server) =>
      x.userId.Some? && TemporaryKey(x.serverId, x.userId.value) == TemporaryKey(serverId, s.userId);
    if First(reg.shared, ofServer).Some? {
      var k :| IsFirstOf(reg.shared, ofServer, k) && reg.shared[k] == First(reg.shared, ofServer).value;
      assert FirstShared(reg, serverId, k);
      assert reg.shared[k] in reg.shared;
      assert forall j :: FirstShared(reg, serverId, j) ==> j == k;
    } else {
      assert forall x :: x in reg.temporary ==> (ofUser(x) <==> HasKey(x, serverId, s.userId));
      if First(reg.temporary, ofUser).Some? {
        var k :| IsFirstOf(reg.temporary, ofUser, k) && reg.temporary[k] == First(reg.temporary, ofUser).value;
        assert FirstTemporary(reg, serverId, s.userId, k);
        assert forall j :: FirstTemporary(reg, serverId, s.userId, j) ==> j == k;
      }
    }
  }

  // The available instances whose server is admitted.
  ghost predicate HoldsAdmitted(reg: Registry, s: Session, servers: seq<Server>) {
    forall x :: x in servers <==>
      && x in reg.shared + reg.temporary && x.available
      && exists c :: IsContext(reg, s, x.serverId, c) && !Refused(s, c, x.serverId)
  }

  lemma AvailableIff(reg: Registry, s: Session)
    ensures HoldsAdmitted(reg, s, Available(reg, s))
  {
    hide CanAccessServer, IsContext, Refused;
    forall x: Server
      ensures CanAccessServer(reg, s, x.serverId) <==> exists c :: IsContext(reg, s, x.serverId, c) && !Refused(s, c, x.serverId)
    {
      AdmittedIff(reg, s, x.serverId);
    }
  }

  method GetAvailableServers(reg: Registry, s: Session) returns (servers: seq<Server>)
    ensures servers == Available(reg, s)
    ensures HoldsAdmitted(reg, s, servers)
  {
    AvailableIff(reg, s);
    hide HoldsAdmitted, CanAccessServer;
    var all := reg.shared + reg.temporary;
    servers := [];
    for i := 0 to |all|
      invariant servers == UsableOf(reg, s, all[..i])
    {
      assert all[..i + 1][..i] == all[..i];
      if all[i].available && CanAccessServer(reg, s, all[i].serverId) {
        servers := servers + [all[i]];
      }
    }
    assert all[..|all|] == all;
  }

  // Live data is preferred to cached data.
  function ToolsOf(x: Server): Option<seq<string>> {
    if x.tools.Some? then x.tools else x.cachedTools
  }

  function ResourcesOf(x: Server): Option<seq<Resource>> {
    if x.resources.Some? then x.resources else x.cachedResources
  }

  // A tool may be used unless the server is another user's, or an entry denies it.
  lemma ToolAllowedIff(s: Session, x: Server, tool: string)
    ensures CanUseTool(s, x, tool) <==>
            && !ToolDenied(s.preferences, x.serverId, tool)
            && (x.allowUserInput ==> x.userId == Some(s.userId))
            && (!x.allowUserInput ==> !ToolDenied(s.permissions, x.serverId, tool))
  {
  }

  lemma ResourceAllowedIff(s: Session, x: Server, resource: string)
    ensures CanAccessResource(s, x, resource) <==>
            && !ResourceDenied(s.preferences, x.serverId, resource)
            && (x.allowUserInput ==> x.userId == Some(s.userId))
            && (!x.allowUserInput ==> !ResourceDenied(s.permissions, x.serverId, resource))
  {
  }

  // An id names the shared instance that has it, else this user's temporary one.
  lemma ContextByIdIs(reg: Registry, s: Session, id: string)
    ensures var r := ContextById(reg, s, id);
            if exists x :: x in reg.shared && x.id == id
            then r.Some? && exists k :: IsFirstOf(reg.shared, (x: Server) => x.id == id, k) && r.value == reg.shared[k]
            else if exists x :: x in reg.temporary && x.id == id && x.userId == Some(s.userId)
            then r.Some? && exists k :: IsFirstOf(reg.temporary, (x: Server) => x.id == id && x.userId == Some(s.userId), k) && r.value == reg.temporary[k]
            else r.None?
  {
  }

  /* ---------- listing ---------- */

  datatype Offer = Offer(server: Server, tool: string)

  function UsableTools(s: Session, x: Server, tools: seq<string>): (r: seq<Offer>)
    ensures forall o :: o in r <==> o.server == x && o.tool in tools && CanUseTool(s, x, o.tool)
  {
    if tools == [] then []
    else
      var rest := UsableTools(s, x, tools[..|tools| - 1]);
      var tool := tools[|tools| - 1];
      if CanUseTool(s, x, tool) then rest + [Offer(x, tool)] else rest
  }

  function OffersOf(s: Session, x: Server): seq<Offer> {
    if ToolsOf(x).Some? then UsableTools(s, x, ToolsOf(x).value) else []
  }

  function Offers(s: Session, servers: seq<Server>): (r: seq<Offer>)
    ensures forall o :: o in r <==> o.server in servers && o in OffersOf(s, o.server)
  {
    if servers == [] then []
    else
      var x := servers[|servers| - 1];
      Offers(s, servers[..|servers| - 1]) + OffersOf(s, x)
  }

  // What is offered: of each available server the tools of its live list, or of its cached one when it
  // has no live list, that the session may use.
  ghost predicate Listed(reg: Registry, s: Session, o: Offer) {
    && o.server in Available(reg, s)
    && (if o.server.tools.Some? then o.tool in o.server.tools.value
        else o.server.cachedTools.Some? && o.tool in o.server.cachedTools.value)
    && !ToolDenied(s.preferences, o.server.serverId, o.tool)
    && (o.server.allowUserInput ==> o.server.userId == Some(s.userId))
    && (!o.server.allowUserInput ==> !ToolDenied(s.permissions, o.server.serverId, o.tool))
  }

  lemma OfferedIff(reg: Registry, s: Session, o: Offer)
    ensures o in Offers(s, Available(reg, s)) <==> Listed(reg, s, o)
  {
    ToolAllowedIff(s, o.server, o.tool);
  }

  function OfferName(o: Offer): string {
    GenerateNewName(o.server.id, o.tool)
  }

  function OfferNames(offers: seq<Offer>): seq<string> {
    seq(|offers|, i requires 0 <= i < |offers| => OfferName(offers[i]))
  }

  lemma OfferNamesAppend(a: seq<Offer>, b: seq<Offer>)
    ensures OfferNames(a + b) == OfferNames(a) + OfferNames(b)
  {
  }

  lemma OffersNext(s: Session, servers: seq<Server>, i: nat)
    requires i < |servers|
    ensures OfferNames(Offers(s, servers[..i + 1])) == OfferNames(Offers(s, servers[..i])) + OfferNames(OffersOf(s, servers[i]))
  {
    hide OfferNames, OffersOf;
    var next := servers[..i + 1];
    assert next[..i] == servers[..i] && next != [];
    OfferNamesAppend(Offers(s, servers[..i]), OffersOf(s, servers[i]));
  }

  // listTools, reduced to the names.
  method ListTools(reg: Registry, s: Session) returns (names: seq<string>)
    ensures names == OfferNames(Offers(s, Available(reg, s)))
    ensures forall name :: name in names <==> exists o :: Listed(reg, s, o) && name == o.tool + "_-_" + o.server.id
  {
    ListedNames(reg, s);
    hide HoldsAdmitted, Listed, Available, Offers, OfferNames, OffersOf;
    var servers := GetAvailableServers(reg, s);
    names := [];
    NoOffers(s, servers);
    for i := 0 to |servers|
      invariant names == OfferNames(Offers(s, servers[..i]))
    {
      var x := servers[i];
      OffersNext(s, servers, i);
      var prefixed := PrefixedTools(s, x);
      names := names + prefixed;
    }
    assert servers[..|servers|] == servers;
  }

  lemma ListedNames(reg: Registry, s: Session)
    ensures forall name :: name in OfferNames(Offers(s, Available(reg, s))) <==>
              exists o :: Listed(reg, s, o) && name == o.tool + "_-_" + o.server.id
  {
    hide Available;
    var offers := Offers(s, Available(reg, s));
    forall o
      ensures o in offers <==> Listed(reg, s, o)
    {
      OfferedIff(reg, s, o);
    }
    hide Listed;
    forall name
      ensures name in OfferNames(offers) <==> exists o :: Listed(reg, s, o) && name == o.tool + "_-_" + o.server.id
    {
      if o :| Listed(reg, s, o) && name == o.tool + "_-_" + o.server.id {
        var i :| 0 <= i < |offers| && offers[i] == o;
        assert OfferNames(offers)[i] == name;
      }
      if name in OfferNames(offers) {
        var i :| 0 <= i < |offers| && OfferNames(offers)[i] == name;
        assert Listed(reg, s, offers[i]);
      }
    }
  }

  lemma NoOffers(s: Session, servers: seq<Server>)
    ensures OfferNames(Offers(s, servers[..0])) == []
  {
  }

  method PrefixedTools(s: Session, x: Server) returns (names: seq<string>)
    ensures names == OfferNames(OffersOf(s, x))
  {
    hide CanUseTool;
    names := [];
    if ToolsOf(x).None? {
      return;
    }
    var toolsData := ToolsOf(x).value;
    for j := 0 to |toolsData|
      invariant names == OfferNames(UsableTools(s, x, toolsData[..j]))
    {
      assert toolsData[..j + 1][..j] == toolsData[..j];
      if CanUseTool(s, x, toolsData[j]) {
        names := names + [GenerateNewName(x.id, toolsData[j])];
      }
    }
    assert toolsData[..|toolsData|] == toolsData;
  }

  // What the server manager guarantees: instance ids are distinct decimal numbers, shared and
  // temporary together, and temporary instances belong to a user of a template server. That a
  // server lists no tool twice is a promise of the servers.
  ghost predicate HasNumber(x: Server, n: nat) {
    x.id == ToString(n)
  }

  ghost predicate WellFormed(reg: Registry) {
    var all := reg.shared + reg.temporary;
    && (forall x :: x in all ==> exists n :: HasNumber(x, n))
    && (forall i, j :: 0 <= i < j < |all| ==> all[i].id != all[j].id)
    && (forall x :: x in reg.temporary ==> x.allowUserInput && x.userId.Some?)
  }

  predicate Distinct<T(==)>(xs: seq<T>) {
    forall i, j :: 0 <= i < j < |xs| ==> xs[i] != xs[j]
  }

  ghost predicate ToolsDistinct(reg: Registry) {
    forall x :: x in reg.shared + reg.temporary && ToolsOf(x).Some? ==> Distinct(ToolsOf(x).value)
  }

  lemma {:induction false} UsableToolsDistinct(s: Session, x: Server, tools: seq<string>)
    requires Distinct(tools)
    ensures Distinct(UsableTools(s, x, tools))
  {
    if tools != [] {
      var init, tool := tools[..|tools| - 1], tools[|tools| - 1];
      UsableToolsDistinct(s, x, init);
      assert tool !in init;
    }
  }

  lemma DistinctAppend<T>(a: seq<T>, b: seq<T>)
    requires Distinct(a) && Distinct(b) && forall x :: x in a ==> x !in b
    ensures Distinct(a + b)
  {
    var c := a + b;
    forall i, j | 0 <= i < j < |c|
      ensures c[i] != c[j]
    {
      if j < |a| {
        assert a[i] != a[j];
      } else if i < |a| {
        assert a[i] in a && b[j - |a|] in b;
      } else {
        assert b[i - |a|] != b[j - |a|];
      }
    }
  }

  lemma {:induction false} OffersDistinct(s: Session, servers: seq<Server>)
    requires Distinct(servers)
    requires forall x :: x in servers && ToolsOf(x).Some? ==> Distinct(ToolsOf(x).value)
    ensures Distinct(Offers(s, servers))
  {
    if servers != [] {
      var init, x := servers[..|servers| - 1], servers[|servers| - 1];
      assert x !in init;
      OffersDistinct(s, init);
      if ToolsOf(x).Some? {
        UsableToolsDistinct(s, x, ToolsOf(x).value);
      }
      assert Distinct(OffersOf(s, x));
      DistinctAppend(Offers(s, init), OffersOf(s, x));
    }
  }

  lemma {:induction false} UsableDistinct(reg: Registry, s: Session, servers: seq<Server>)
    requires Distinct(servers)
    ensures Distinct(UsableOf(reg, s, servers))
  {
    if servers != [] {
      var init := servers[..|servers| - 1];
      UsableDistinct(reg, s, init);
      assert servers[|servers| - 1] !in init;
    }
  }

  lemma IdsDetermineInstances(reg: Registry, x: Server, y: Server)
    requires WellFormed(reg) && x in reg.shared + reg.temporary && y in reg.shared + reg.temporary && x.id == y.id
    ensures x == y
  {
  }

  // Every listed name is different from every other.
  lemma ListedNamesAreDistinct(reg: Registry, s: Session)
    requires WellFormed(reg) && ToolsDistinct(reg)
    ensures Distinct(OfferNames(Offers(s, Available(reg, s))))
  {
    var all := reg.shared + reg.temporary;
    assert Distinct(all);
    UsableDistinct(reg, s, all);
    OffersDistinct(s, Available(reg, s));
    var offers := Offers(s, Available(reg, s));
    forall i, j | 0 <= i < j < |offers|
      ensures OfferName(offers[i]) != OfferName(offers[j])
    {
      OfferNameDetermines(reg, s, offers[i], offers[j]);
    }
  }

  lemma OfferNameDetermines(reg: Registry, s: Session, a: Offer, b: Offer)
    requires WellFormed(reg) && a in Offers(s, Available(reg, s)) && b in Offers(s, Available(reg, s))
    ensures OfferName(a) == OfferName(b) ==> a == b
  {
    IdIsSafe(reg, a.server);
    IdIsSafe(reg, b.server);
    if OfferName(a) == OfferName(b) {
      GeneratedNamesAreDistinct(a.server.id, a.tool, b.server.id, b.tool);
      IdsDetermineInstances(reg, a.server, b.server);
    }
  }

  lemma IdIsSafe(reg: Registry, x: Server)
    requires WellFormed(reg) && x in reg.shared + reg.temporary
    ensures SafeId(x.id)
  {
    var n :| HasNumber(x, n);
    DecimalIdsAreSafe(n);
  }

  /* ---------- resolving ---------- */

  function ParseName(reg: Registry, s: Session, text: string): Option<Target> {
    match SplitName(text)
    case None => None
    case Some(parts) =>
      match ContextById(reg, s, parts.id)
      case None => None
      case Some(x) => Some(Target(x.serverId, parts.name))
  }

  // Every listed name resolves to the server and the tool it was made for.
  lemma ListedNamesResolve(reg: Registry, s: Session, o: Offer)
    requires WellFormed(reg) && o in Offers(s, Available(reg, s))
    ensures ParseName(reg, s, OfferName(o)) == Some(Target(o.server.serverId, o.tool))
  {
    var x := o.server;
    IdIsSafe(reg, x);
    SplitsBackIffSafe(x.id, o.tool);
    var found := ContextById(reg, s, x.id);
    if x in reg.temporary {
      assert x.allowUserInput && x.userId == Some(s.userId);
    }
    IdsDetermineInstances(reg, found.value, x);
  }

  // The only server of a list with some property.
  predicate IsOnly(servers: seq<Server>, p: Server -> bool, k: int) {
    0 <= k < |servers| && p(servers[k]) && forall j :: 0 <= j < |servers| && j != k ==> !p(servers[j])
  }

  predicate OffersTool(s: Session, x: Server, name: string) {
    ToolsOf(x).Some? && name in ToolsOf(x).value && CanUseTool(s, x, name)
  }

  function FindUri(resources: seq<Resource>, uri: string): (r: Option<Resource>)
    ensures r.Some? ==> exists k :: FirstUri(resources, uri, k) && r.value == resources[k]
    ensures r.None? ==> forall x :: x in resources ==> x.uri != uri
  {
    if resources == [] then None
    else if resources[0].uri == uri then
      assert FirstUri(resources, uri, 0);
      Some(resources[0])
    else
      var r := FindUri(resources[1..], uri);
      assert r.Some? ==> exists k :: FirstUri(resources, uri, k) && r.value == resources[k] by {
        if r.Some? {
          var k :| FirstUri(resources[1..], uri, k) && r.value == resources[1..][k];
          assert FirstUri(resources, uri, k + 1);
        }
      }
      r
  }

  predicate FirstUri(resources: seq<Resource>, uri: string, k: int) {
    0 <= k < |resources| && resources[k].uri == uri && forall j :: 0 <= j < k ==> resources[j].uri != uri
  }

  predicate OffersUri(s: Session, x: Server, uri: string) {
    && ResourcesOf(x).Some?
    && var r := FindUri(ResourcesOf(x).value, uri);
    r.Some? && CanAccessResource(s, x, r.value.name)
  }

  // A server offers a URI by the first resource of its live list, or else of its cached one, that has it.
  lemma OffersUriIff(s: Session, x: Server, uri: string)
    ensures OffersUri(s, x, uri) <==>
            && (x.resources.Some? || x.cachedResources.Some?)
            && var all := if x.resources.Some? then x.resources.value else x.cachedResources.value;
            exists k :: FirstUri(all, uri, k) && !ResourceDenied(s.preferences, x.serverId, all[k].name)
              && (if x.allowUserInput then x.userId == Some(s.userId)
                  else !ResourceDenied(s.permissions, x.serverId, all[k].name))
  {
    if ResourcesOf(x).Some? {
      var all := ResourcesOf(x).value;
      var r := FindUri(all, uri);
      assert forall j, k :: FirstUri(all, uri, j) && FirstUri(all, uri, k) ==> j == k;
      if r.Some? {
        var k :| FirstUri(all, uri, k) && r.value == all[k];
        ResourceAllowedIff(s, x, r.value.name);
      }
    }
  }

  lemma OffersToolIff(s: Session, x: Server, tool: string)
    ensures OffersTool(s, x, tool) <==>
            && (x.tools.Some? || x.cachedTools.Some?)
            && tool in (if x.tools.Some? then x.tools.value else x.cachedTools.value)
            && !ToolDenied(s.preferences, x.serverId, tool)
            && (if x.allowUserInput then x.userId == Some(s.userId) else !ToolDenied(s.permissions, x.serverId, tool))
  {
    ToolAllowedIff(s, x, tool);
  }

  predicate OnlyToolServer(reg: Registry, s: Session, name: string, k: int) {
    IsOnly(Available(reg, s), (x: Server) => OffersTool(s, x, name), k)
  }

  predicate OnlyUriServer(reg: Registry, s: Session, uri: string, k: int) {
    IsOnly(Available(reg, s), (x: Server) => OffersUri(s, x, uri), k)
  }

  // What a name or URI resolves to: by its id if it has one, else to the only server offering it.
  ghost predicate ResolvesTool(reg: Registry, s: Session, name: string, r: Option<Target>) {
    if ParseName(reg, s, name).Some? then r == ParseName(reg, s, name)
    else
      && (r.Some? <==> exists k :: OnlyToolServer(reg, s, name, k))
      && forall k :: OnlyToolServer(reg, s, name, k) ==> r == Some(Target(Available(reg, s)[k].serverId, name))
  }

  ghost predicate ResolvesResource(reg: Registry, s: Session, uri: string, r: Option<Target>) {
    if ParseName(reg, s, uri).Some? then r == ParseName(reg, s, uri)
    else
      && (r.Some? <==> exists k :: OnlyUriServer(reg, s, uri, k))
      && forall k :: OnlyUriServer(reg, s, uri, k) ==> r == Some(Target(Available(reg, s)[k].serverId, uri))
  }

  // resolveToolName: a listed name resolves by its id; any other name resolves exactly when one
  // available server offers a usable tool of that name.
  method ResolveToolName(reg: Registry, s: Session, name: string) returns (r: Option<Target>)
    ensures ResolvesTool(reg, s, name, r)
  {
    hide HoldsAdmitted;
    var parsed := ParseName(reg, s, name);
    if parsed.Some? {
      return parsed;
    }
    var servers := GetAvailableServers(reg, s);
    ghost var p := (x: Server) => OffersTool(s, x, name);
    ghost var at := 0;
    var found: Option<Target> := None;
    for i := 0 to |servers|
      invariant found.None? ==> forall j :: 0 <= j < i ==> !p(servers[j])
      invariant found.Some? ==> at < i && p(servers[at]) && found.value == Target(servers[at].serverId, name)
      invariant found.Some? ==> forall j :: 0 <= j < i && j != at ==> !p(servers[j])
    {
      var x := servers[i];
      var toolsData := ToolsOf(x);
      if toolsData.None? {
        continue;
      }
      if name !in toolsData.value || !CanUseTool(s, x, name) {
        continue;
      }
      if found.Some? {
        assert p(servers[i]) && p(servers[at]);
        return None;
      }
      found, at := Some(Target(x.serverId, name)), i;
    }
    if found.Some? {
      assert OnlyToolServer(reg, s, name, at);
    }
    return found;
  }

  // resolveResourceUri: the same rule; of several resources with one URI a server's first counts.
  method ResolveResourceUri(reg: Registry, s: Session, uri: string) returns (r: Option<Target>)
    ensures ResolvesResource(reg, s, uri, r)
  {
    hide HoldsAdmitted;
    var parsed := ParseName(reg, s, uri);
    if parsed.Some? {
      return parsed;
    }
    var servers := GetAvailableServers(reg, s);
    ghost var p := (x: Server) => OffersUri(s, x, uri);
    ghost var at := 0;
    var found: Option<Target> := None;
    for i := 0 to |servers|
      invariant found.None? ==> forall j :: 0 <= j < i ==> !p(servers[j])
      invariant found.Some? ==> at < i && p(servers[at]) && found.value == Target(servers[at].serverId, uri)
      invariant found.Some? ==> forall j :: 0 <= j < i && j != at ==> !p(servers[j])
    {
      var x := servers[i];
      var resourcesData := ResourcesOf(x);
      if resourcesData.None? {
        continue;
      }
      var resource := FindUri(resourcesData.value, uri);
      if resource.None? || !CanAccessResource(s, x, resource.value.name) {
        continue;
      }
      if found.Some? {
        assert p(servers[i]) && p(servers[at]);
        return None;
      }
      found, at := Some(Target(x.serverId, resource.value.uri)), i;
    }
    if found.Some? {
      assert OnlyUriServer(reg, s, uri, at);
    }
    return found;
  }

  // Which server is the only one does not depend on the order of the servers.
  lemma OnlyInAnyOrder(a: seq<Server>, b: seq<Server>, p: Server -> bool, k: int) returns (j: int)
    requires multiset(a) == multiset(b) && IsOnly(a, p, k)
    ensures IsOnly(b, p, j) && b[j] == a[k]
  {
    var x := a[k];
    assert a == a[..k] + [x] + a[k + 1..];
    assert multiset(a) == multiset(a[..k]) + multiset{x} + multiset(a[k + 1..]);
    assert x !in a[..k] && x !in a[k + 1..];
    assert multiset(a)[x] == 1;
    assert x in multiset(a);
    j :| 0 <= j < |b| && b[j] == x;
    forall i | 0 <= i < |b| && i != j
      ensures !p(b[i])
    {
      assert b[i] in multiset(a);
      OccursTwice(b, if i < j then i else j, if i < j then j else i);
    }
  }

  lemma OccursTwice(s: seq<Server>, i: nat, j: nat)
    requires i < j < |s|
    ensures s[i] == s[j] ==> multiset(s)[s[i]] >= 2
  {
    assert s == s[..j] + s[j..];
    assert s[i] == s[..j][i] && s[j] == s[j..][0];
    assert multiset(s)[s[i]] == multiset(s[..j])[s[i]] + multiset(s[j..])[s[i]];
  }

  /* ---------- the order of the servers ---------- */

  // The same instances, registered in another order.
  predicate Reordered(a: Registry, b: Registry) {
    multiset(a.shared) == multiset(b.shared) && multiset(a.temporary) == multiset(b.temporary)
  }

  // Instances are kept under their server id, or server and user; ids are unique.
  ghost predicate Keyed(reg: Registry) {
    && (forall x, y :: x in reg.shared && y in reg.shared && (x.serverId == y.serverId || x.id == y.id) ==> x == y)
    && (forall x, y :: x in reg.temporary && y in reg.temporary && x.id == y.id ==> x == y)
    && (forall x, y :: x in reg.temporary && y in reg.temporary && SameKey(x, y) ==> x == y)
  }

  predicate SameKey(x: Server, y: Server) {
    && x.userId.Some? && y.userId.Some?
    && TemporaryKey(x.serverId, x.userId.value) == TemporaryKey(y.serverId, y.userId.value)
  }

  lemma SameMembers(a: seq<Server>, b: seq<Server>)
    requires multiset(a) == multiset(b)
    ensures forall x :: x in a <==> x in b
  {
    assert forall x :: x in a <==> x in multiset(a);
    assert forall x :: x in b <==> x in multiset(b);
  }

  // A lookup that at most one instance can answer finds it in any order.
  lemma FirstInAnyOrder(a: seq<Server>, b: seq<Server>, wanted: Server -> bool)
    requires multiset(a) == multiset(b)
    requires forall x, y :: x in a && y in a && wanted(x) && wanted(y) ==> x == y
    ensures First(a, wanted) == First(b, wanted)
  {
    SameMembers(a, b);
  }

  lemma ContextInAnyOrder(a: Registry, b: Registry, serverId: string, userId: string)
    requires Keyed(a) && Reordered(a, b)
    ensures GetServerContext(a, serverId, userId) == GetServerContext(b, serverId, userId)
  {
    FirstInAnyOrder(a.shared, b.shared, (x: Server) => x.serverId == serverId);
    FirstInAnyOrder(a.temporary, b.temporary, (x: Server) =>
      x.userId.Some? && TemporaryKey(x.serverId, x.userId.value) == TemporaryKey(serverId, userId));
  }

  lemma ParseInAnyOrder(a: Registry, b: Registry, s: Session, text: string)
    requires Keyed(a) && Reordered(a, b)
    ensures ParseName(a, s, text) == ParseName(b, s, text)
  {
    if SplitName(text).Some? {
      var id := SplitName(text).value.id;
      FirstInAnyOrder(a.shared, b.shared, (x: Server) => x.id == id);
      FirstInAnyOrder(a.temporary, b.temporary, (x: Server) => x.id == id && x.userId == Some(s.userId));
    }
  }

  lemma {:induction false} UsableCount(reg: Registry, s: Session, servers: seq<Server>, x: Server)
    ensures multiset(UsableOf(reg, s, servers))[x] == if Usable(reg, s, x) then multiset(servers)[x] else 0
  {
    hide Usable;
    if servers != [] {
      var init := servers[..|servers| - 1];
      UsableCount(reg, s, init, x);
      assert servers == init + [servers[|servers| - 1]];
    }
  }

  lemma AvailableInAnyOrder(a: Registry, b: Registry, s: Session)
    requires Keyed(a) && Reordered(a, b)
    ensures multiset(Available(a, s)) == multiset(Available(b, s))
  {
    hide Keyed;
    var p, q := a.shared + a.temporary, b.shared + b.temporary;
    assert multiset(p) == multiset(q);
    forall x: Server
      ensures multiset(Available(a, s))[x] == multiset(Available(b, s))[x]
    {
      ContextInAnyOrder(a, b, x.serverId, s.userId);
      UsableCount(a, s, p, x);
      UsableCount(b, s, q, x);
    }
  }

  // Two answers to the question which server of a list is the only one.
  lemma OnlyAgrees(a: seq<Server>, b: seq<Server>, p: Server -> bool)
    requires multiset(a) == multiset(b)
    ensures (exists k :: IsOnly(a, p, k)) <==> (exists k :: IsOnly(b, p, k))
    ensures forall j, k :: IsOnly(a, p, j) && IsOnly(b, p, k) ==> a[j] == b[k]
  {
    forall k | IsOnly(a, p, k)
      ensures exists j :: IsOnly(b, p, j)
    {
      var j := OnlyInAnyOrder(a, b, p, k);
    }
    forall k | IsOnly(b, p, k)
      ensures exists j :: IsOnly(a, p, j)
    {
      var j := OnlyInAnyOrder(b, a, p, k);
    }
    forall j, k | IsOnly(a, p, j) && IsOnly(b, p, k)
      ensures a[j] == b[k]
    {
      var m := OnlyInAnyOrder(a, b, p, j);
    }
  }

  // The result of resolveToolName does not depend on the order in which servers are registered.
  lemma ToolResolvesInAnyOrder(a: Registry, b: Registry, s: Session, name: string, r: Option<Target>, q: Option<Target>)
    requires Keyed(a) && Reordered(a, b) && ResolvesTool(a, s, name, r) && ResolvesTool(b, s, name, q)
    ensures r == q
  {
    hide Keyed, Reordered, Available, ParseName, IsOnly;
    ParseInAnyOrder(a, b, s, name);
    AvailableInAnyOrder(a, b, s);
    OnlyAgrees(Available(a, s), Available(b, s), (x: Server) => OffersTool(s, x, name));
  }

  // Nor does that of resolveResourceUri.
  lemma ResourceResolvesInAnyOrder(a: Registry, b: Registry, s: Session, uri: string, r: Option<Target>, q: Option<Target>)
    requires Keyed(a) && Reordered(a, b) && ResolvesResource(a, s, uri, r) && ResolvesResource(b, s, uri, q)
    ensures r == q
  {
    hide Keyed, Reordered, Available, ParseName, IsOnly;
    ParseInAnyOrder(a, b, s, uri);
    AvailableInAnyOrder(a, b, s);
    OnlyAgrees(Available(a, s), Available(b, s), (x: Server) => OffersUri(s, x, uri));
  }

  /* ---------- merged capabilities ---------- */

  datatype Merged = Merged(
    prompts: Option<Feature>, resources: Option<Feature>, completions: Option<string>, logging: Option<string>)

  predicate HasPrompts(x: Server) { x.capabilities.Some? && x.capabilities.value.prompts.Some? }
  predicate HasResources(x: Server) { x.capabilities.Some? && x.capabilities.value.resources.Some? }
  predicate PromptsChange(x: Server) { HasPrompts(x) && x.capabilities.value.prompts.value.listChanged }
  predicate Subscribes(x: Server) { HasResources(x) && x.capabilities.value.resources.value.subscribe }

  function CompletionsOf(x: Server): Option<string> {
    if x.capabilities.Some? then x.capabilities.value.completions else None
  }

  function LoggingOf(x: Server): Option<string> {
    if x.capabilities.Some? then x.capabilities.value.logging else None
  }

  // The first server that has a value decides.
  predicate IsFirst(servers: seq<Server>, of: Server -> Option<string>, k: int) {
    0 <= k < |servers| && of(servers[k]).Some? && forall j :: 0 <= j < k ==> of(servers[j]).None?
  }

  ghost predicate FirstDecides(servers: seq<Server>, of: Server -> Option<string>, r: Option<string>) {
    if r.None? then forall j :: 0 <= j < |servers| ==> of(servers[j]).None?
    else exists k :: IsFirst(servers, of, k) && r == of(servers[k])
  }

  // A feature is offered if some server offers it, and flagged if some server flags it.
  predicate PromptsMerged(servers: seq<Server>, m: Merged) {
    && (m.prompts.Some? <==> exists x :: x in servers && HasPrompts(x))
    && (m.prompts.Some? ==> (m.prompts.value.listChanged <==> exists x :: x in servers && PromptsChange(x)))
  }

  predicate ResourcesMerged(servers: seq<Server>, m: Merged) {
    && (m.resources.Some? <==> exists x :: x in servers && HasResources(x))
    && (m.resources.Some? ==> (m.resources.value.subscribe <==> exists x :: x in servers && Subscribes(x)))
  }

  ghost predicate AllMerged(servers: seq<Server>, m: Merged) {
    && PromptsMerged(servers, m)
    && ResourcesMerged(servers, m)
    && FirstDecides(servers, CompletionsOf, m.completions)
    && FirstDecides(servers, LoggingOf, m.logging)
  }

  // The merged value after one more server.
  predicate Merges(before: Merged, c: Capabilities, m: Merged) {
    && (m.prompts.Some? <==> before.prompts.Some? || c.prompts.Some?)
    && (m.prompts.Some? ==> (m.prompts.value.listChanged <==>
          (before.prompts.Some? && before.prompts.value.listChanged) || (c.prompts.Some? && c.prompts.value.listChanged)))
    && (m.resources.Some? <==> before.resources.Some? || c.resources.Some?)
    && (m.resources.Some? ==> (m.resources.value.subscribe <==>
          (before.resources.Some? && before.resources.value.subscribe) || (c.resources.Some? && c.resources.value.subscribe)))
    && m.completions == (if before.completions.Some? then before.completions else c.completions)
    && m.logging == (if before.logging.Some? then before.logging else c.logging)
  }

  lemma FirstNext(servers: seq<Server>, x: Server, of: Server -> Option<string>, r: Option<string>)
    requires FirstDecides(servers, of, r)
    ensures FirstDecides(servers + [x], of, if r.Some? then r else of(x))
  {
    var all := servers + [x];
    if r.Some? {
      var k :| IsFirst(servers, of, k) && r == of(servers[k]);
      assert IsFirst(all, of, k);
    } else if of(x).Some? {
      assert IsFirst(all, of, |servers|);
    }
  }

  lemma MergedNext(servers: seq<Server>, x: Server, before: Merged, m: Merged)
    requires AllMerged(servers, before)
    requires if x.capabilities.Some? then Merges(before, x.capabilities.value, m) else m == before
    ensures AllMerged(servers + [x], m)
  {
    hide FirstDecides;
    FirstNext(servers, x, CompletionsOf, before.completions);
    FirstNext(servers, x, LoggingOf, before.logging);
    assert x in servers + [x];
    assert forall y :: y in servers ==> y in servers + [x];
    PromptsNext(servers, x, before, m);
    ResourcesNext(servers, x, before, m);
  }

  lemma PromptsNext(servers: seq<Server>, x: Server, before: Merged, m: Merged)
    requires PromptsMerged(servers, before)
    requires if x.capabilities.Some? then Merges(before, x.capabilities.value, m) else m == before
    ensures PromptsMerged(servers + [x], m)
  {
    assert x in servers + [x];
    assert forall y :: y in servers + [x] <==> y in servers || y == x;
  }

  lemma ResourcesNext(servers: seq<Server>, x: Server, before: Merged, m: Merged)
    requires ResourcesMerged(servers, before)
    requires if x.capabilities.Some? then Merges(before, x.capabilities.value, m) else m == before
    ensures ResourcesMerged(servers + [x], m)
  {
    assert x in servers + [x];
    assert forall y :: y in servers + [x] <==> y in servers || y == x;
  }

  // getServerCapabilities: resource lists are always announced as changing.
  method GetServerCapabilities(reg: Registry, s: Session) returns (m: Merged)
    ensures AllMerged(Available(reg, s), m)
    ensures m.resources.Some? ==> m.resources.value.listChanged
  {
    hide HoldsAdmitted, Available, Merges, PromptsMerged, ResourcesMerged, FirstDecides;
    var servers := GetAvailableServers(reg, s);
    m := Merged(None, None, None, None);
    NothingMerged(m);
    for i := 0 to |servers|
      invariant AllMerged(servers[..i], m)
    {
      var x := servers[i];
      ghost var before := m;
      if x.capabilities.Some? {
        m := MergeOne(m, x.capabilities.value);
      }
      assert servers[..i + 1] == servers[..i] + [x];
      MergedNext(servers[..i], x, before, m);
    }
    assert servers[..|servers|] == servers;
    if m.resources.Some? {
      ghost var before := m;
      m := m.(resources := Some(m.resources.value.(listChanged := true)));
      ResourceFlag(servers, before, m);
    }
  }

  lemma NothingMerged(m: Merged)
    requires m == Merged(None, None, None, None)
    ensures AllMerged([], m)
  {
  }

  lemma ResourceFlag(servers: seq<Server>, before: Merged, m: Merged)
    requires AllMerged(servers, before) && before.resources.Some?
    requires m == before.(resources := Some(before.resources.value.(listChanged := true)))
    ensures AllMerged(servers, m)
  {
    hide FirstDecides;
  }

  method MergeOne(before: Merged, c: Capabilities) returns (m: Merged)
    ensures Merges(before, c, m)
  {
    m := MergePrompts(before, c);
    m := MergeResources(m, c);
    if m.completions.None? && c.completions.Some? {
      m := m.(completions := c.completions);
    }
    if m.logging.None? && c.logging.Some? {
      m := m.(logging := c.logging);
    }
  }

  method MergePrompts(before: Merged, c: Capabilities) returns (m: Merged)
    ensures Merges(before, Capabilities(c.prompts, None, None, None), m)
    ensures m.resources == before.resources
  {
    m := before;
    if m.prompts.None? && c.prompts.Some? {
      m := m.(prompts := Some(Feature(false, false)));
    }
    if c.prompts.Some? && c.prompts.value.listChanged {
      m := m.(prompts := Some(m.prompts.value.(listChanged := true)));
    }
  }

  method MergeResources(before: Merged, c: Capabilities) returns (m: Merged)
    ensures Merges(before, Capabilities(None, c.resources, None, None), m)
    ensures m.prompts == before.prompts
  {
    m := before;
    if m.resources.None? && c.resources.Some? {
      m := m.(resources := Some(Feature(false, false)));
    }
    if c.resources.Some? && c.resources.value.listChanged {
      m := m.(resources := Some(m.resources.value.(listChanged := true)));
    }
    if m.resources.Some? && !m.resources.value.subscribe && c.resources.Some? && c.resources.value.subscribe {
      m := m.(resources := Some(m.resources.value.(subscribe := true)));
    }
  }
}
