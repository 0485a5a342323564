/**
 The whole port conflict rule, service by service: app/witness/conflicts.rules.go,
 portConflicts and hostNetworkPorts.
 */
module PortConflicts {
  import opened Text
  import opened PortSpec
  import opened PortMatch
  import opened Findings
  import opened Ownership
  import opened PortRules

  // -------------------------------------------------------------- host network

  datatype Declared = Declared(port: int, protocol: string)

  function DeclaredRange(m: PortMapping, end: int): seq<Declared>
    decreases end - m.containerPort
  {
    if end < m.containerPort then []
    else DeclaredRange(m, end - 1) + [Declared(end, BaseProtocol(m.protocol))]
  }

  function DeclaredEnd(m: PortMapping): int {
    if m.containerPortEnd < m.containerPort then m.containerPort else m.containerPortEnd
  }

  function DeclaredPorts(ms: seq<PortMapping>): seq<Declared> {
    if ms == [] then []
    else DeclaredPorts(ms[..|ms| - 1]) + DeclaredRange(ms[|ms| - 1], DeclaredEnd(ms[|ms| - 1]))
  }

  function Exposed(expose: seq<int>): seq<Declared> {
    seq(|expose|, k requires 0 <= k < |expose| => Declared(expose[k], "tcp"))
  }

  /** The ports a service on the host's network stack says it listens on. */
  function ListensOn(s: Service): seq<Declared> { DeclaredPorts(s.ports) + Exposed(s.expose) }

  function HostClaim(d: Declared): Claim { Claim(d.protocol, d.port, "", None, false, true, "") }

  predicate IsWildcard(c: Claim) { c.anyAddr || (c.ip.Some? && c.ip.value.value == 0) }

  /** A running container of this service that the rule takes the run to stop first. */
  predicate RunningOwn(inp: Input, service: string, c: Container) {
    c.service == service && c.state == "running" &&
    OwnerOf(inp, c).kind == OwnService && OwnerOf(inp, c).released
  }

  function PreviousOf(inp: Input, service: string, cs: seq<Container>): string {
    if cs == [] then ""
    else if RunningOwn(inp, service, cs[0]) then cs[0].name
    else PreviousOf(inp, service, cs[1..])
  }

  predicate WildcardHolder(inp: Input, hs: seq<Holder>) {
    exists h :: h in hs && h.SocketHolder? && IsWildcard(ClaimFromSocket(h.socket, inp.parse))
  }

  function HostFinding(inp: Input, service: string, d: Declared): Option<PortFinding> {
    if !Observable(d.protocol) then None
    else
      var hs := SocketHolders(inp, HostClaim(d), inp.sockets);
      if hs == [] then None
      else if WildcardHolder(inp, hs) && PreviousOf(inp, service, inp.containers) == "" then
        Some(PortFinding(service, d.port, d.protocol, Problem, Blocker, hs))
      else Some(PortFinding(service, d.port, d.protocol, Unknown, Warning, hs))
  }

  function HostFindings(inp: Input, service: string, ds: seq<Declared>): seq<PortFinding> {
    if ds == [] then []
    else
      var f := HostFinding(inp, service, ds[|ds| - 1]);
      HostFindings(inp, service, ds[..|ds| - 1]) + if f.Some? then [f.value] else []
  }

  function UndeclaredFinding(service: string): PortFinding { PortFinding(service, 0, "", ManualCheck, Info, []) }

  function HostNetwork(inp: Input, s: Service): seq<PortFinding> {
    if ListensOn(s) == [] then [UndeclaredFinding(s.name)] else HostFindings(inp, s.name, ListensOn(s))
  }

  /** A declared port of the service, of its publications or exposed. */
  ghost predicate Declares(s: Service, d: Declared) {
    || (d.protocol == "tcp" && d.port in s.expose)
    || exists m :: && m in s.ports && d.protocol == BaseProtocol(m.protocol)
                   && (d.port == m.containerPort || m.containerPort <= d.port <= m.containerPortEnd)
  }

  lemma {:induction false} RangeIs(m: PortMapping, end: int, d: Declared)
    ensures d in DeclaredRange(m, end) <==> m.containerPort <= d.port <= end && d.protocol == BaseProtocol(m.protocol)
    decreases end - m.containerPort
  {
    if end >= m.containerPort { RangeIs(m, end - 1, d); }
  }

  lemma {:induction false} PublishedPortsAre(ms: seq<PortMapping>, d: Declared)
    ensures d in DeclaredPorts(ms) <==>
            exists m :: m in ms && m.containerPort <= d.port <= DeclaredEnd(m) && d.protocol == BaseProtocol(m.protocol)
  {
    if ms != [] {
      var init, last := ms[..|ms| - 1], ms[|ms| - 1];
      PublishedPortsAre(init, d);
      RangeIs(last, DeclaredEnd(last), d);
      assert forall m :: m in ms <==> m in init || m == last;
    }
  }

  lemma ExposedPortsAre(expose: seq<int>, d: Declared)
    ensures d in Exposed(expose) <==> d.protocol == "tcp" && d.port in expose
  {
    if d.protocol == "tcp" && d.port in expose {
      var k :| 0 <= k < |expose| && expose[k] == d.port;
      assert Exposed(expose)[k] == d;
    }
  }

  lemma ListensOnExactly(s: Service, d: Declared)
    ensures d in ListensOn(s) <==> Declares(s, d)
  {
    PublishedPortsAre(s.ports, d);
    ExposedPortsAre(s.expose, d);
  }

  /** A container that would be stopped first counts only under a name. */
  lemma {:induction false} PreviousIsRunning(inp: Input, service: string, cs: seq<Container>)
    ensures PreviousOf(inp, service, cs) != "" ==>
              exists c :: c in cs && RunningOwn(inp, service, c) && c.name == PreviousOf(inp, service, cs)
    ensures (forall c :: c in cs && RunningOwn(inp, service, c) ==> c.name != "") ==>
              (PreviousOf(inp, service, cs) == "" <==> forall c :: c in cs ==> !RunningOwn(inp, service, c))
  {
    if cs != [] {
      PreviousIsRunning(inp, service, cs[1..]);
      assert forall c :: c in cs <==> c == cs[0] || c in cs[1..];
    }
  }

  /** A running container of that service label, of this project, no one-off run, not of
      another checkout, and of a service the plan starts where it has one. */
  lemma RunningOwnExactlyWhen(inp: Input, service: string, c: Container)
    ensures RunningOwn(inp, service, c) <==>
            && c.service == service && c.state == "running" && SameProject(inp, c.project) && !c.oneOff
            && !(&& inp.plan.Some? && inp.plan.value.projectDirectory != "" && c.workingDir != ""
                 && inp.clean(inp.plan.value.projectDirectory) != inp.clean(c.workingDir))
            && (service == "" || exists s :: s in inp.services && s.name == service)
  {
    OwnKindsExactlyWhen(inp, c);
    ReleasedExactlyWhen(inp, c);
  }

  /** A wildcard is a socket on no address, on "*", or on an address whose number is 0. */
  lemma WildcardsAre(s: Socket, parse: AddressParser)
    requires Trimmed(s.address) && '[' !in s.address && ']' !in s.address
    ensures IsWildcard(ClaimFromSocket(s, parse)) <==>
            s.address == "" || s.address == "*" || (parse(s.address) != None && parse(s.address).value.value == 0)
  {
    hide ClaimFromSocket;
    ClaimsAre(PortMapping("", 0, 0, 0, 0, ""), 0, s, s.address, parse);
  }

  ghost predicate SocketMayHold(inp: Input, want: Claim) { exists s :: s in inp.sockets && SocketMay(inp, want, s) }

  ghost predicate WildcardMayHold(inp: Input, want: Claim) {
    exists s :: s in inp.sockets && SocketMay(inp, want, s) && IsWildcard(ClaimFromSocket(s, inp.parse))
  }

  /** A port declared on the host network is passed over exactly when no socket meets it
      in any completion, and blocks exactly when one that does is a wildcard and no
      container of the service is running. */
  lemma HostFindingExactly(inp: Input, service: string, d: Declared)
    requires ValidParser(inp.parse) && Observable(d.protocol)
    ensures var f, want := HostFinding(inp, service, d), Claim(d.protocol, d.port, "", None, false, true, "");
            && (f.None? <==> !SocketMayHold(inp, want))
            && (f.Some? ==> && f.value.service == service && f.value.port == d.port && f.value.protocol == d.protocol
                            && f.value.severity == if f.value.outcome == Problem then Blocker else Warning)
            && (f.Some? ==> f.value.outcome == Problem || f.value.outcome == Unknown)
            && (f.Some? && f.value.outcome == Problem <==>
                WildcardMayHold(inp, want) && PreviousOf(inp, service, inp.containers) == "")
  {
    hide SocketHolders;
    hide SocketOverlap;
    hide SocketMay;
    hide PreviousOf;
    var want := HostClaim(d);
    var hs := SocketHolders(inp, want, inp.sockets);
    forall s | s in inp.sockets ensures SocketHolder(SocketOverlap(inp, want, s), s) in hs <==> SocketMay(inp, want, s) {
      SocketHoldersAre(inp, want, inp.sockets, SocketHolder(SocketOverlap(inp, want, s), s));
      SocketOverlapExactly(inp, want, s);
    }
    forall h | h in hs ensures h.SocketHolder? && h.socket in inp.sockets && SocketMay(inp, want, h.socket) {
      SocketHoldersAre(inp, want, inp.sockets, h);
      SocketOverlapExactly(inp, want, h.socket);
    }
    assert hs != [] ==> hs[0] in hs;
  }

  // -------------------------------------------------------------- the whole rule

  ghost function FixedFindings(inp: Input, service: string, m: PortMapping, ports: seq<int>): seq<PortFinding> {
    if ports == [] then []
    else
      var f := FixedFinding(inp, service, m, ports[|ports| - 1]);
      FixedFindings(inp, service, m, ports[..|ports| - 1]) + if f.Some? then [f.value] else []
  }

  ghost function MappingFindings(inp: Input, service: string, m: PortMapping): seq<PortFinding> {
    if m.Dynamic() then
      var f := DynamicFinding(inp, service, m);
      if f.Some? then [f.value] else []
    else FixedFindings(inp, service, m, m.HostPorts())
  }

  ghost function PublishFindings(inp: Input, service: string, ms: seq<PortMapping>): seq<PortFinding> {
    if ms == [] then []
    else PublishFindings(inp, service, ms[..|ms| - 1]) + MappingFindings(inp, service, ms[|ms| - 1])
  }

  ghost function ServiceFindings(inp: Input, s: Service): seq<PortFinding> {
    if s.networkMode == "host" then HostNetwork(inp, s) else PublishFindings(inp, s.name, s.ports)
  }

  ghost function Conflicts(inp: Input, services: seq<Service>): seq<PortFinding> {
    if services == [] then []
    else Conflicts(inp, services[..|services| - 1]) + ServiceFindings(inp, services[|services| - 1])
  }

  method HostNetworkPorts(inp: Input, s: Service) returns (out: seq<PortFinding>)
    ensures out == HostNetwork(inp, s)
  {
    hide ListensOn;
    hide HostFinding;
    var ports := ListPorts(s);
    if |ports| == 0 {
      return [UndeclaredFinding(s.name)];
    }
    out := [];
    for n := 0 to |ports|
      invariant out == HostFindings(inp, s.name, ports[..n])
    {
      assert ports[..n + 1][..n] == ports[..n];
      var f := HostFinding(inp, s.name, ports[n]);
      if f.Some? {
        out := out + [f.value];
      }
    }
    assert ports[..|ports|] == ports;
  }

  method ListRange(m: PortMapping) returns (ports: seq<Declared>)
    ensures ports == DeclaredRange(m, DeclaredEnd(m))
  {
    ports := [];
    var end := if m.containerPortEnd < m.containerPort then m.containerPort else m.containerPortEnd;
    var p := m.containerPort;
    while p <= end
      invariant m.containerPort <= p <= end + 1 && ports == DeclaredRange(m, p - 1)
    {
      ports := ports + [Declared(p, BaseProtocol(m.protocol))];
      p := p + 1;
    }
  }

  method ListPorts(s: Service) returns (ports: seq<Declared>)
    ensures ports == ListensOn(s)
  {
    ports := [];
    for n := 0 to |s.ports|
      invariant ports == DeclaredPorts(s.ports[..n])
    {
      assert s.ports[..n + 1][..n] == s.ports[..n];
      var range := ListRange(s.ports[n]);
      ports := ports + range;
    }
    assert s.ports[..|s.ports|] == s.ports;
    ghost var published := ports;
    for n := 0 to |s.expose|
      invariant ports == published + Exposed(s.expose)[..n]
    {
      ports := ports + [Declared(s.expose[n], "tcp")];
    }
  }

  /** A service on the host network that declares no port at all is left to the reader. */
  lemma UndeclaredIsAnswered(inp: Input, s: Service)
    requires s.networkMode == "host"
    ensures s.ports == [] && s.expose == [] ==>
              ServiceFindings(inp, s) == [PortFinding(s.name, 0, "", ManualCheck, Info, [])]
    ensures s.ports != [] || s.expose != [] ==> ServiceFindings(inp, s) == HostFindings(inp, s.name, ListensOn(s))
  {
    hide HostFindings;
    if s.ports == [] && s.expose == [] {
      assert DeclaredPorts(s.ports) == [] && Exposed(s.expose) == [];
    } else {
      var d := if s.expose != [] then Declared(s.expose[0], "tcp")
               else Declared(s.ports[0].containerPort, BaseProtocol(s.ports[0].protocol));
      ListensOnExactly(s, d);
      assert s.expose == [] ==> s.ports[0] in s.ports;
      assert d in ListensOn(s);
    }
  }

  /** The findings of one publication that binds every port of its range. */
  method CheckFixed(inp: Input, service: string, m: PortMapping) returns (out: seq<PortFinding>)
    ensures out == FixedFindings(inp, service, m, m.HostPorts())
  {
    out := [];
    var ports := ExpandPorts(m);
    for k := 0 to |ports|
      invariant out == FixedFindings(inp, service, m, ports[..k])
    {
      assert ports[..k + 1][..k] == ports[..k];
      var want := ClaimFromMapping(m, ports[k], inp.parse);
      if !Observable(want.protocol) {
        out := out + [UnobservableFinding(service, want)];
        continue;
      }
      var holders := PortHolders(inp, want);
      if |holders| == 0 {
        continue;
      }
      out := out + [ConflictFinding(inp, service, want, holders)];
    }
    assert ports[..|ports|] == ports;
  }

  method CheckService(inp: Input, s: Service) returns (out: seq<PortFinding>)
    ensures out == ServiceFindings(inp, s)
  {
    if s.networkMode == "host" {
      out := HostNetworkPorts(inp, s);
      return;
    }
    out := [];
    for n := 0 to |s.ports|
      invariant out == PublishFindings(inp, s.name, s.ports[..n])
    {
      var m := s.ports[n];
      assert s.ports[..n + 1][..n] == s.ports[..n];
      if m.Dynamic() {
        var f := DynamicRange(inp, s.name, m);
        if f.Some? {
          out := out + [f.value];
        }
        continue;
      }
      var fixed := CheckFixed(inp, s.name, m);
      out := out + fixed;
    }
    assert s.ports[..|s.ports|] == s.ports;
  }

  method CheckPorts(inp: Input) returns (out: seq<PortFinding>)
    ensures out == Conflicts(inp, inp.services)
  {
    out := [];
    for n := 0 to |inp.services|
      invariant out == Conflicts(inp, inp.services[..n])
    {
      assert inp.services[..n + 1][..n] == inp.services[..n];
      var findings := CheckService(inp, inp.services[n]);
      out := out + findings;
    }
    assert inp.services[..|inp.services|] == inp.services;
  }

  // ---------------------------------------------------- what the rule promises

  lemma {:induction false} FixedAre(inp: Input, service: string, m: PortMapping, ports: seq<int>, f: PortFinding)
    ensures f in FixedFindings(inp, service, m, ports) <==>
            exists p :: p in ports && FixedFinding(inp, service, m, p) == Some(f)
  {
    hide FixedFinding;
    if ports != [] {
      FixedAre(inp, service, m, ports[..|ports| - 1], f);
      assert forall p :: p in ports <==> p in ports[..|ports| - 1] || p == ports[|ports| - 1];
    }
  }

  lemma {:induction false} PublishedAre(inp: Input, service: string, ms: seq<PortMapping>, f: PortFinding)
    ensures f in PublishFindings(inp, service, ms) <==> exists m :: m in ms && f in MappingFindings(inp, service, m)
  {
    hide MappingFindings;
    if ms != [] {
      PublishedAre(inp, service, ms[..|ms| - 1], f);
      assert forall m :: m in ms <==> m in ms[..|ms| - 1] || m == ms[|ms| - 1];
    }
  }

  lemma {:induction false} HostAre(inp: Input, service: string, ds: seq<Declared>, f: PortFinding)
    ensures f in HostFindings(inp, service, ds) <==> exists d :: d in ds && HostFinding(inp, service, d) == Some(f)
  {
    hide HostFinding;
    if ds != [] {
      HostAre(inp, service, ds[..|ds| - 1], f);
      assert forall d :: d in ds <==> d in ds[..|ds| - 1] || d == ds[|ds| - 1];
    }
  }

  lemma {:induction false} ConflictsAre(inp: Input, services: seq<Service>, f: PortFinding)
    ensures f in Conflicts(inp, services) <==> exists s :: s in services && f in ServiceFindings(inp, s)
  {
    hide ServiceFindings;
    if services != [] {
      ConflictsAre(inp, services[..|services| - 1], f);
      assert forall s :: s in services <==> s in services[..|services| - 1] || s == services[|services| - 1];
    }
  }

  /** The rule's conditions for a blocker hold of the one port of a fixed publish, or of the
      whole range of a dynamic one. */
  ghost predicate MeetsConditions(inp: Input, m: PortMapping, f: PortFinding) {
    if m.Dynamic() then
      f.port == m.hostPort &&
      forall p :: p in m.HostPorts() ==> CertainlyTaken(inp, ClaimFromMapping(m, p, inp.parse))
    else
      f.port in m.HostPorts() && CertainlyTaken(inp, ClaimFromMapping(m, f.port, inp.parse))
  }

  ghost predicate WildcardOnHost(inp: Input, f: PortFinding) {
    && PreviousOf(inp, f.service, inp.containers) == ""
    && exists s :: s in inp.sockets && IsWildcard(ClaimFromSocket(s, inp.parse)) &&
                   SocketMay(inp, HostClaim(Declared(f.port, f.protocol)), s)
  }

  lemma DynamicBlockerIsProven(inp: Input, service: string, m: PortMapping, p: int)
    requires ValidParser(inp.parse) && Observable(BaseProtocol(m.protocol))
    requires AllTaken(States(inp, m)) && p in m.HostPorts()
    ensures CertainlyTaken(inp, ClaimFromMapping(m, p, inp.parse))
  {
    var ports := m.HostPorts();
    var k :| 0 <= k < |ports| && ports[k] == p;
    assert States(inp, m)[k] == PortState(inp, m, p);
    assert States(inp, m)[k] in States(inp, m);
    StateExactly(inp, m, p);
  }

  lemma FixedBlockerIsProven(inp: Input, service: string, m: PortMapping, p: int, f: PortFinding)
    requires ValidParser(inp.parse) && FixedFinding(inp, service, m, p) == Some(f) && f.outcome == Problem
    ensures f.service == service && f.port == p && CertainlyTaken(inp, ClaimFromMapping(m, p, inp.parse))
  {
    VerdictExactly(inp, service, ClaimFromMapping(m, p, inp.parse));
  }

  lemma MappingBlockerIsProven(inp: Input, service: string, m: PortMapping, f: PortFinding)
    requires ValidParser(inp.parse) && f in MappingFindings(inp, service, m) && f.outcome == Problem
    ensures f.service == service && MeetsConditions(inp, m, f)
  {
    if m.Dynamic() {
      forall p | p in m.HostPorts() ensures CertainlyTaken(inp, ClaimFromMapping(m, p, inp.parse)) {
        DynamicBlockerIsProven(inp, service, m, p);
      }
    } else {
      FixedAre(inp, service, m, m.HostPorts(), f);
      var p :| p in m.HostPorts() && FixedFinding(inp, service, m, p) == Some(f);
      FixedBlockerIsProven(inp, service, m, p, f);
    }
  }

  /** What every blocker of the rule rests on: a publication of the service whose ports meet
      those conditions, or, on the host network, a wildcard socket that may be on its port. */
  lemma WhatBlockersRestOn(inp: Input, f: PortFinding)
    requires ValidParser(inp.parse) && f in Conflicts(inp, inp.services) && f.outcome == Problem
    ensures exists s :: s in inp.services && s.name == f.service &&
              if s.networkMode == "host" then WildcardOnHost(inp, f)
              else exists m :: m in s.ports && MeetsConditions(inp, m, f)
  {
    hide Conflicts;
    hide WildcardOnHost;
    hide MeetsConditions;
    ConflictsAre(inp, inp.services, f);
    var s :| s in inp.services && f in ServiceFindings(inp, s);
    if s.networkMode == "host" {
      HostBlockerRestsOnWildcard(inp, s, f);
    } else {
      PublishedAre(inp, s.name, s.ports, f);
      var m :| m in s.ports && f in MappingFindings(inp, s.name, m);
      MappingBlockerIsProven(inp, s.name, m, f);
    }
  }

  lemma HostBlockerRestsOnWildcard(inp: Input, s: Service, f: PortFinding)
    requires ValidParser(inp.parse) && f in HostNetwork(inp, s) && f.outcome == Problem
    ensures f.service == s.name && WildcardOnHost(inp, f)
  {
    HostAre(inp, s.name, ListensOn(s), f);
    var d :| d in ListensOn(s) && HostFinding(inp, s.name, d) == Some(f);
    HostFindingExactly(inp, s.name, d);
    assert d == Declared(f.port, f.protocol);
  }

  lemma FixedFindingIsPublished(inp: Input, s: Service, m: PortMapping, p: int, f: PortFinding)
    requires s in inp.services && s.networkMode != "host" && m in s.ports && !m.Dynamic() && p in m.HostPorts()
    requires FixedFinding(inp, s.name, m, p) == Some(f)
    ensures f in Conflicts(inp, inp.services)
  {
    FixedAre(inp, s.name, m, m.HostPorts(), f);
    PublishedAre(inp, s.name, s.ports, f);
    ConflictsAre(inp, inp.services, f);
  }

  lemma FixedFindingIs(inp: Input, service: string, m: PortMapping, p: int, want: Claim)
    requires want == ClaimFromMapping(m, p, inp.parse) && Observable(want.protocol) && HoldersOf(inp, want) != []
    ensures var f := ConflictFinding(inp, service, want, HoldersOf(inp, want));
            FixedFinding(inp, service, m, p) == Some(f) && f.service == service && f.port == want.port
  {}

  /** What may hold the port in some completion is answered, with the outcome the rule's
      own conditions give it. */
  lemma HeldPortIsAnswered(inp: Input, service: string, m: PortMapping, p: int) returns (f: PortFinding)
    requires ValidParser(inp.parse) && Observable(BaseProtocol(m.protocol))
    requires AnythingMayHold(inp, ClaimFromMapping(m, p, inp.parse))
    ensures FixedFinding(inp, service, m, p) == Some(f) && f.service == service && f.port == p
    ensures f.outcome == Problem <==> CertainlyTaken(inp, ClaimFromMapping(m, p, inp.parse))
  {
    var want := ClaimFromMapping(m, p, inp.parse);
    SilentExactlyWhen(inp, want);
    FixedFindingIs(inp, service, m, p, want);
    VerdictExactly(inp, service, want);
    f := ConflictFinding(inp, service, want, HoldersOf(inp, want));
  }

  /** Nothing on a wanted port is passed over: whatever may hold it in some completion is
      answered by a finding. That finding is a problem exactly when a container that is not
      released certainly holds the port, or a socket does and no released container may. */
  lemma NothingIsMissed(inp: Input, s: Service, m: PortMapping, p: int)
    requires ValidParser(inp.parse)
    requires s in inp.services && s.networkMode != "host" && m in s.ports && !m.Dynamic() && p in m.HostPorts()
    requires Observable(BaseProtocol(m.protocol)) && AnythingMayHold(inp, ClaimFromMapping(m, p, inp.parse))
    ensures exists f :: f in Conflicts(inp, inp.services) && f.service == s.name && f.port == p &&
              (f.outcome == Problem <==> CertainlyTaken(inp, ClaimFromMapping(m, p, inp.parse)))
  {
    var f := HeldPortIsAnswered(inp, s.name, m, p);
    FixedFindingIsPublished(inp, s, m, p, f);
  }

  /** Nor on the host network: whatever may hold a declared tcp or udp port is answered. */
  lemma NothingIsMissedOnHost(inp: Input, s: Service, d: Declared)
    requires ValidParser(inp.parse)
    requires s in inp.services && s.networkMode == "host" && Declares(s, d) && Observable(d.protocol)
    requires SocketMayHold(inp, HostClaim(d))
    ensures exists f :: f in Conflicts(inp, inp.services) && f.service == s.name && f.port == d.port &&
              f.protocol == d.protocol &&
              (f.outcome == Problem <==>
               WildcardMayHold(inp, HostClaim(d)) && PreviousOf(inp, s.name, inp.containers) == "")
  {
    ListensOnExactly(s, d);
    HostFindingExactly(inp, s.name, d);
    var f := HostFinding(inp, s.name, d).value;
    HostAre(inp, s.name, ListensOn(s), f);
    ConflictsAre(inp, inp.services, f);
    assert f in Conflicts(inp, inp.services);
  }

  /** A publication that leaves the host port to the engine is never reported: the engine
      picks a free one. */
  lemma EphemeralIsSilent(inp: Input, service: string, m: PortMapping)
    requires IsPublished(m) && m.Ephemeral()
    ensures MappingFindings(inp, service, m) == []
  {
    ReadRangesStartAtAPort(m);
  }
}
