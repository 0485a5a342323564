/**
 The port conflict rule of app/witness/conflicts.rules.go and the port state of the
 change list in app/witness/changes.go, over one matching of bindings.
 */
module PortRules {
  import opened Text
  import opened PortSpec
  import opened PortMatch
  import opened Findings
  import opened Ownership

  /** One thing already on the wanted binding. */
  datatype Holder = ContainerHolder(overlap: Overlap, container: Container) | SocketHolder(overlap: Overlap, socket: Socket)

  // ------------------------------------------------------------------- holders

  /** The bindings a container publishes, one claim per host port. */
  function MappingClaims(m: PortMapping, ports: seq<int>, parse: AddressParser): seq<Claim> {
    if ports == [] then []
    else MappingClaims(m, ports[..|ports| - 1], parse) + [ClaimFromMapping(m, ports[|ports| - 1], parse)]
  }

  function ClaimsOf(mappings: seq<PortMapping>, parse: AddressParser): seq<Claim> {
    if mappings == [] then []
    else
      var m := mappings[|mappings| - 1];
      ClaimsOf(mappings[..|mappings| - 1], parse) + MappingClaims(m, m.HostPorts(), parse)
  }

  function Stronger(a: Overlap, b: Overlap): Overlap { if Strength(b) > Strength(a) then b else a }

  function Strongest(st: Stack, want: Claim, claims: seq<Claim>): Overlap {
    if claims == [] then NoOverlap
    else Stronger(Strongest(st, want, claims[..|claims| - 1]), Collides(st, want, claims[|claims| - 1]))
  }

  function ContainerOverlap(inp: Input, want: Claim, c: Container): Overlap {
    Strongest(inp.stack, want, ClaimsOf(c.ports, inp.parse))
  }

  function SocketOverlap(inp: Input, want: Claim, s: Socket): Overlap {
    Collides(inp.stack, want, ClaimFromSocket(s, inp.parse))
  }

  function ContainerHolders(inp: Input, want: Claim, cs: seq<Container>): seq<Holder> {
    if cs == [] then []
    else
      var c := cs[|cs| - 1];
      var o := ContainerOverlap(inp, want, c);
      ContainerHolders(inp, want, cs[..|cs| - 1]) + if o != NoOverlap then [ContainerHolder(o, c)] else []
  }

  function SocketHolders(inp: Input, want: Claim, ss: seq<Socket>): seq<Holder> {
    if ss == [] then []
    else
      var s := ss[|ss| - 1];
      var o := SocketOverlap(inp, want, s);
      SocketHolders(inp, want, ss[..|ss| - 1]) + if o != NoOverlap then [SocketHolder(o, s)] else []
  }

  /** Containers first, then sockets. */
  function HoldersOf(inp: Input, want: Claim): seq<Holder> {
    ContainerHolders(inp, want, inp.containers) + SocketHolders(inp, want, inp.sockets)
  }

  lemma {:induction false} StrongestOfTwo(st: Stack, want: Claim, a: seq<Claim>, b: seq<Claim>)
    ensures Strongest(st, want, a + b) == Stronger(Strongest(st, want, a), Strongest(st, want, b))
  {
    if b == [] {
      assert a + b == a;
    } else {
      assert (a + b)[..|a + b| - 1] == a + b[..|b| - 1];
      StrongestOfTwo(st, want, a, b[..|b| - 1]);
    }
  }

  lemma NextPort(st: Stack, want: Claim, m: PortMapping, ports: seq<int>, k: nat, parse: AddressParser)
    requires k < |ports|
    ensures Strongest(st, want, MappingClaims(m, ports[..k + 1], parse)) ==
            Stronger(Strongest(st, want, MappingClaims(m, ports[..k], parse)),
                     Collides(st, want, ClaimFromMapping(m, ports[k], parse)))
  {
    var claims, held := MappingClaims(m, ports[..k], parse), ClaimFromMapping(m, ports[k], parse);
    assert ports[..k + 1][..k] == ports[..k];
    assert MappingClaims(m, ports[..k + 1], parse) == claims + [held];
    assert (claims + [held])[..|claims|] == claims;
  }

  lemma NextMapping(st: Stack, want: Claim, ms: seq<PortMapping>, n: nat, parse: AddressParser)
    requires n < |ms|
    ensures Strongest(st, want, ClaimsOf(ms[..n + 1], parse)) ==
            Stronger(Strongest(st, want, ClaimsOf(ms[..n], parse)),
                     Strongest(st, want, MappingClaims(ms[n], ms[n].HostPorts(), parse)))
  {
    assert ms[..n + 1][..n] == ms[..n];
    StrongestOfTwo(st, want, ClaimsOf(ms[..n], parse), MappingClaims(ms[n], ms[n].HostPorts(), parse));
  }

  /** The ports of one publication, against the best overlap seen so far. */
  method StrongestPort(st: Stack, want: Claim, m: PortMapping, parse: AddressParser, best0: Overlap) returns (best: Overlap)
    ensures best == Stronger(best0, Strongest(st, want, MappingClaims(m, m.HostPorts(), parse)))
  {
    hide Collides;
    hide ClaimFromMapping;
    best := best0;
    var ports := ExpandPorts(m);
    ghost var seen := NoOverlap;
    for k := 0 to |ports|
      invariant best == Stronger(best0, seen)
      invariant seen == Strongest(st, want, MappingClaims(m, ports[..k], parse))
    {
      NextPort(st, want, m, ports, k, parse);
      var result := Collides(st, want, ClaimFromMapping(m, ports[k], parse));
      if Strength(result) > Strength(best) {
        best := result;
      }
      seen := Stronger(seen, result);
    }
    assert ports[..|ports|] == ports;
  }

  method StrongestBinding(inp: Input, want: Claim, c: Container) returns (best: Overlap)
    ensures best == ContainerOverlap(inp, want, c)
  {
    best := NoOverlap;
    for n := 0 to |c.ports|
      invariant best == Strongest(inp.stack, want, ClaimsOf(c.ports[..n], inp.parse))
    {
      NextMapping(inp.stack, want, c.ports, n, inp.parse);
      best := StrongestPort(inp.stack, want, c.ports[n], inp.parse, best);
    }
    assert c.ports[..|c.ports|] == c.ports;
  }

  method HoldingContainers(inp: Input, want: Claim) returns (out: seq<Holder>)
    ensures out == ContainerHolders(inp, want, inp.containers)
  {
    hide ContainerOverlap;
    out := [];
    for n := 0 to |inp.containers|
      invariant out == ContainerHolders(inp, want, inp.containers[..n])
    {
      assert inp.containers[..n + 1][..n] == inp.containers[..n];
      var best := StrongestBinding(inp, want, inp.containers[n]);
      if best != NoOverlap {
        out := out + [ContainerHolder(best, inp.containers[n])];
      }
    }
    assert inp.containers[..|inp.containers|] == inp.containers;
  }

  method HoldingSockets(inp: Input, want: Claim) returns (out: seq<Holder>)
    ensures out == SocketHolders(inp, want, inp.sockets)
  {
    hide Collides;
    hide ClaimFromSocket;
    out := [];
    for n := 0 to |inp.sockets|
      invariant out == SocketHolders(inp, want, inp.sockets[..n])
    {
      assert inp.sockets[..n + 1][..n] == inp.sockets[..n];
      var result := Collides(inp.stack, want, ClaimFromSocket(inp.sockets[n], inp.parse));
      if result == NoOverlap {
        continue;
      }
      out := out + [SocketHolder(result, inp.sockets[n])];
    }
    assert inp.sockets[..|inp.sockets|] == inp.sockets;
  }

  method PortHolders(inp: Input, want: Claim) returns (out: seq<Holder>)
    ensures out == HoldersOf(inp, want)
  {
    out := HoldingContainers(inp, want);
    var sockets := HoldingSockets(inp, want);
    out := out + sockets;
  }

  // --------------------------------------------------------- judging the holders

  predicate IsReleased(inp: Input, h: Holder) { h.ContainerHolder? && Released(inp, h.container) }

  predicate IsForeign(inp: Input, h: Holder) { h.ContainerHolder? && !Released(inp, h.container) }

  function OwnHolder(inp: Input, hs: seq<Holder>): (own: Option<Holder>)
    ensures own.Some? ==> own.value in hs && IsReleased(inp, own.value)
    ensures own.None? ==> forall h :: h in hs ==> !IsReleased(inp, h)
  {
    if hs == [] then None
    else if IsReleased(inp, hs[0]) then Some(hs[0])
    else OwnHolder(inp, hs[1..])
  }

  /** It is the first of them. */
  lemma {:induction false} FirstOwnHolder(inp: Input, before: seq<Holder>, h: Holder, after: seq<Holder>)
    requires (forall g :: g in before ==> !IsReleased(inp, g)) && IsReleased(inp, h)
    ensures OwnHolder(inp, before + [h] + after) == Some(h)
  {
    hide IsReleased;
    var all := before + [h] + after;
    if before == [] {
      assert all[0] == h;
    } else {
      assert before[0] in before && all[0] == before[0] && all[1..] == before[1..] + [h] + after;
      FirstOwnHolder(inp, before[1..], h, after);
    }
  }

  function CertainHolders(hs: seq<Holder>): (certain: seq<Holder>)
    ensures forall h :: h in certain <==> h in hs && h.overlap == SureOverlap
  {
    if hs == [] then []
    else
      assert forall h :: h in hs <==> h == hs[0] || h in hs[1..];
      (if hs[0].overlap == SureOverlap then [hs[0]] else []) + CertainHolders(hs[1..])
  }

  predicate ForeignContainer(inp: Input, hs: seq<Holder>) { exists h :: h in hs && IsForeign(inp, h) }

  predicate OwnershipKnown(inp: Input, hs: seq<Holder>) {
    (exists h :: h in hs && h.ContainerHolder?) || EngineListed(inp, CONTAINERS)
  }

  /** A certain holder that is not, or not only, this deployment's own container. */
  predicate Blocked(inp: Input, hs: seq<Holder>) {
    var certain := CertainHolders(hs);
    certain != [] && (OwnHolder(inp, hs).None? || ForeignContainer(inp, certain))
  }

  datatype PortFinding = PortFinding(
    service: string,
    port: int,
    protocol: string,
    outcome: Outcome,
    severity: Severity,
    cited: seq<Holder>)

  function ConflictFinding(inp: Input, service: string, want: Claim, hs: seq<Holder>): PortFinding {
    var own, certain := OwnHolder(inp, hs), CertainHolders(hs);
    if Blocked(inp, hs) && !OwnershipKnown(inp, certain) then
      PortFinding(service, want.port, want.protocol, Unknown, Warning, certain)
    else if Blocked(inp, hs) then
      PortFinding(service, want.port, want.protocol, Problem, Blocker, certain)
    else if own.Some? then
      PortFinding(service, want.port, want.protocol, NoProblem, Info, [own.value])
    else
      PortFinding(service, want.port, want.protocol, Unknown, Warning, hs)
  }

  function UnobservableFinding(service: string, want: Claim): PortFinding {
    PortFinding(service, want.port, want.protocol, ManualCheck, Warning, [])
  }

  /** What the rule says about one fixed host port: nothing when nothing is on it. */
  function FixedFinding(inp: Input, service: string, m: PortMapping, port: int): Option<PortFinding> {
    var want := ClaimFromMapping(m, port, inp.parse);
    if !Observable(want.protocol) then Some(UnobservableFinding(service, want))
    else
      var hs := HoldersOf(inp, want);
      if hs == [] then None else Some(ConflictFinding(inp, service, want, hs))
  }

  // ---------------------------------------------- what the verdicts rest on

  ghost predicate ContainerMust(inp: Input, want: Claim, c: Container) {
    exists claim :: claim in ClaimsOf(c.ports, inp.parse) && MustMeet(inp.stack, want, claim)
  }

  ghost predicate ContainerMay(inp: Input, want: Claim, c: Container) {
    exists claim :: claim in ClaimsOf(c.ports, inp.parse) && MayMeet(inp.stack, want, claim)
  }

  ghost predicate SocketMust(inp: Input, want: Claim, s: Socket) {
    MustMeet(inp.stack, want, ClaimFromSocket(s, inp.parse))
  }

  ghost predicate SocketMay(inp: Input, want: Claim, s: Socket) {
    MayMeet(inp.stack, want, ClaimFromSocket(s, inp.parse))
  }

  /** A container that is not released holds the binding in every completion. */
  ghost predicate ForeignHolds(inp: Input, want: Claim) {
    exists c :: c in inp.containers && !Released(inp, c) && ContainerMust(inp, want, c)
  }

  /** A released container may be on the binding. */
  ghost predicate ReleasedMayHold(inp: Input, want: Claim) {
    exists c :: c in inp.containers && Released(inp, c) && ContainerMay(inp, want, c)
  }

  ghost predicate SocketHolds(inp: Input, want: Claim) {
    exists s :: s in inp.sockets && SocketMust(inp, want, s)
  }

  ghost predicate AnythingMayHold(inp: Input, want: Claim) {
    (exists c :: c in inp.containers && ContainerMay(inp, want, c)) ||
    (exists s :: s in inp.sockets && SocketMay(inp, want, s))
  }

  lemma {:induction false} MappingClaimsAreValid(m: PortMapping, ports: seq<int>, parse: AddressParser)
    requires ValidParser(parse)
    ensures forall c :: c in MappingClaims(m, ports, parse) ==> ValidClaim(c)
  {
    if ports != [] { MappingClaimsAreValid(m, ports[..|ports| - 1], parse); }
  }

  lemma {:induction false} ClaimsOfAreValid(ms: seq<PortMapping>, parse: AddressParser)
    requires ValidParser(parse)
    ensures forall c :: c in ClaimsOf(ms, parse) ==> ValidClaim(c)
  {
    if ms != [] {
      var m := ms[|ms| - 1];
      ClaimsOfAreValid(ms[..|ms| - 1], parse);
      MappingClaimsAreValid(m, m.HostPorts(), parse);
    }
  }

  lemma {:induction false} StrongestIsAttained(st: Stack, want: Claim, claims: seq<Claim>)
    ensures Strongest(st, want, claims) == SureOverlap <==>
            exists c :: c in claims && Collides(st, want, c) == SureOverlap
    ensures Strongest(st, want, claims) == NoOverlap <==>
            forall c :: c in claims ==> Collides(st, want, c) == NoOverlap
  {
    if claims != [] {
      var n := |claims| - 1;
      StrongestIsAttained(st, want, claims[..n]);
      assert forall c :: c in claims <==> c in claims[..n] || c == claims[n];
    }
  }

  lemma ContainerOverlapExactly(inp: Input, want: Claim, c: Container)
    requires ValidParser(inp.parse) && ValidClaim(want)
    ensures ContainerOverlap(inp, want, c) == SureOverlap <==> ContainerMust(inp, want, c)
    ensures ContainerOverlap(inp, want, c) == NoOverlap <==> !ContainerMay(inp, want, c)
  {
    var claims := ClaimsOf(c.ports, inp.parse);
    ClaimsOfAreValid(c.ports, inp.parse);
    StrongestIsAttained(inp.stack, want, claims);
    forall claim | claim in claims
      ensures Collides(inp.stack, want, claim) == SureOverlap <==> MustMeet(inp.stack, want, claim)
      ensures Collides(inp.stack, want, claim) == NoOverlap <==> !MayMeet(inp.stack, want, claim)
    {
      CollidesExactly(inp.stack, want, claim);
    }
  }

  lemma SocketOverlapExactly(inp: Input, want: Claim, s: Socket)
    requires ValidParser(inp.parse) && ValidClaim(want)
    ensures SocketOverlap(inp, want, s) == SureOverlap <==> SocketMust(inp, want, s)
    ensures SocketOverlap(inp, want, s) == NoOverlap <==> !SocketMay(inp, want, s)
  {
    CollidesExactly(inp.stack, want, ClaimFromSocket(s, inp.parse));
  }

  lemma {:induction false} ContainerHoldersAre(inp: Input, want: Claim, cs: seq<Container>, h: Holder)
    ensures h in ContainerHolders(inp, want, cs) <==>
            h.ContainerHolder? && h.container in cs &&
            h.overlap == ContainerOverlap(inp, want, h.container) && h.overlap != NoOverlap
  {
    hide ContainerOverlap;
    if cs != [] {
      ContainerHoldersAre(inp, want, cs[..|cs| - 1], h);
      assert forall c :: c in cs <==> c in cs[..|cs| - 1] || c == cs[|cs| - 1];
    }
  }

  lemma {:induction false} SocketHoldersAre(inp: Input, want: Claim, ss: seq<Socket>, h: Holder)
    ensures h in SocketHolders(inp, want, ss) <==>
            h.SocketHolder? && h.socket in ss &&
            h.overlap == SocketOverlap(inp, want, h.socket) && h.overlap != NoOverlap
  {
    hide SocketOverlap;
    if ss != [] {
      SocketHoldersAre(inp, want, ss[..|ss| - 1], h);
      assert forall s :: s in ss <==> s in ss[..|ss| - 1] || s == ss[|ss| - 1];
    }
  }

  lemma HoldersAre(inp: Input, want: Claim, h: Holder)
    ensures h in HoldersOf(inp, want) <==>
            && h.overlap != NoOverlap
            && (h.ContainerHolder? ==> h.container in inp.containers && h.overlap == ContainerOverlap(inp, want, h.container))
            && (h.SocketHolder? ==> h.socket in inp.sockets && h.overlap == SocketOverlap(inp, want, h.socket))
  {
    ContainerHoldersAre(inp, want, inp.containers, h);
    SocketHoldersAre(inp, want, inp.sockets, h);
  }

  /** Containers are cited before sockets. */
  lemma ContainersComeFirst(inp: Input, want: Claim, i: nat, j: nat)
    requires i < j < |HoldersOf(inp, want)|
    ensures HoldersOf(inp, want)[i].SocketHolder? ==> HoldersOf(inp, want)[j].SocketHolder?
  {
    var cs := ContainerHolders(inp, want, inp.containers);
    var ss := SocketHolders(inp, want, inp.sockets);
    forall h ensures h in cs ==> h.ContainerHolder? { ContainerHoldersAre(inp, want, inp.containers, h); }
    forall h ensures h in ss ==> h.SocketHolder? { SocketHoldersAre(inp, want, inp.sockets, h); }
    if i < |cs| { assert cs[i] in cs; }
    if j >= |cs| { assert ss[j - |cs|] in ss; }
  }

  /** Silence means nothing can be on the binding, in any completion. */
  lemma SilentExactlyWhen(inp: Input, want: Claim)
    requires ValidParser(inp.parse) && ValidClaim(want)
    ensures HoldersOf(inp, want) == [] <==> !AnythingMayHold(inp, want)
  {
    var hs := HoldersOf(inp, want);
    if AnythingMayHold(inp, want) {
      if c :| c in inp.containers && ContainerMay(inp, want, c) {
        ContainerOverlapExactly(inp, want, c);
        HoldersAre(inp, want, ContainerHolder(ContainerOverlap(inp, want, c), c));
      } else {
        var s :| s in inp.sockets && SocketMay(inp, want, s);
        SocketOverlapExactly(inp, want, s);
        HoldersAre(inp, want, SocketHolder(SocketOverlap(inp, want, s), s));
      }
    } else if hs != [] {
      var h := hs[0];
      HoldersAre(inp, want, h);
      if h.ContainerHolder? {
        ContainerOverlapExactly(inp, want, h.container);
      } else {
        SocketOverlapExactly(inp, want, h.socket);
      }
    }
  }

  /** A released container is among the holders exactly when one may hold the binding. */
  lemma OwnExactlyWhen(inp: Input, want: Claim)
    requires ValidParser(inp.parse) && ValidClaim(want)
    ensures OwnHolder(inp, HoldersOf(inp, want)).Some? <==> ReleasedMayHold(inp, want)
  {
    var own := OwnHolder(inp, HoldersOf(inp, want));
    if own.Some? {
      HoldersAre(inp, want, own.value);
      ContainerOverlapExactly(inp, want, own.value.container);
    }
    if ReleasedMayHold(inp, want) {
      var c :| c in inp.containers && Released(inp, c) && ContainerMay(inp, want, c);
      ContainerOverlapExactly(inp, want, c);
      HoldersAre(inp, want, ContainerHolder(ContainerOverlap(inp, want, c), c));
    }
  }

  lemma ForeignExactlyWhen(inp: Input, want: Claim)
    requires ValidParser(inp.parse) && ValidClaim(want)
    ensures ForeignContainer(inp, CertainHolders(HoldersOf(inp, want))) <==> ForeignHolds(inp, want)
  {
    var certain := CertainHolders(HoldersOf(inp, want));
    if ForeignContainer(inp, certain) {
      var h :| h in certain && IsForeign(inp, h);
      HoldersAre(inp, want, h);
      ContainerOverlapExactly(inp, want, h.container);
    }
    if ForeignHolds(inp, want) {
      var c :| c in inp.containers && !Released(inp, c) && ContainerMust(inp, want, c);
      ContainerOverlapExactly(inp, want, c);
      HoldersAre(inp, want, ContainerHolder(SureOverlap, c));
    }
  }

  lemma CertainSocketExactlyWhen(inp: Input, want: Claim)
    requires ValidParser(inp.parse) && ValidClaim(want)
    ensures (exists h :: h in CertainHolders(HoldersOf(inp, want)) && h.SocketHolder?) <==> SocketHolds(inp, want)
  {
    var certain := CertainHolders(HoldersOf(inp, want));
    if h :| h in certain && h.SocketHolder? {
      HoldersAre(inp, want, h);
      SocketOverlapExactly(inp, want, h.socket);
    }
    if SocketHolds(inp, want) {
      var s :| s in inp.sockets && SocketMust(inp, want, s);
      SocketOverlapExactly(inp, want, s);
      HoldersAre(inp, want, SocketHolder(SureOverlap, s));
    }
  }

  /** The rule's conditions for a blocker. */
  ghost predicate CertainlyTaken(inp: Input, want: Claim) {
    ForeignHolds(inp, want) ||
    (SocketHolds(inp, want) && !ReleasedMayHold(inp, want) && EngineListed(inp, CONTAINERS))
  }

  /** A socket counts against a plan of which no container may hold the binding, on a host
      without an engine or with its containers listed completely. */
  lemma TakenExactlyWhen(inp: Input, want: Claim)
    ensures CertainlyTaken(inp, want) <==>
            || ForeignHolds(inp, want)
            || (&& SocketHolds(inp, want) && !ReleasedMayHold(inp, want)
                && (!inp.hasRuntime || Observed(inp.observations, "containers").state == Complete))
  {}

  /** The outcome of a fixed tcp or udp publish, determined by what holds the binding in
      every completion and in some. Whether it is right is the subject of PortWorlds. */
  lemma VerdictExactly(inp: Input, service: string, want: Claim)
    requires ValidParser(inp.parse) && ValidClaim(want) && HoldersOf(inp, want) != []
    ensures var f := ConflictFinding(inp, service, want, HoldersOf(inp, want));
            && (f.outcome == Problem <==> CertainlyTaken(inp, want))
            && (f.outcome == NoProblem <==> ReleasedMayHold(inp, want) && !ForeignHolds(inp, want))
            && (f.outcome == Problem || f.outcome == NoProblem || f.outcome == Unknown)
            && (f.severity == Blocker <==> f.outcome == Problem)
            && (f.severity == Info <==> f.outcome == NoProblem)
            && (f.severity == Warning <==> f.outcome == Unknown)
            && f.service == service && f.port == want.port && f.protocol == want.protocol
            && f.cited != [] && (forall h :: h in f.cited ==> h in HoldersOf(inp, want))
            && (f.outcome == NoProblem ==> |f.cited| == 1 && IsReleased(inp, f.cited[0]))
            && (f.outcome == Problem ==> forall h :: h in f.cited ==> h.overlap == SureOverlap)
            && (f.outcome != NoProblem ==>
                  var certain := CertainHolders(HoldersOf(inp, want));
                  f.cited == if certain != [] then certain else HoldersOf(inp, want))
  {
    hide HoldersOf;
    hide ForeignHolds;
    hide ReleasedMayHold;
    hide SocketHolds;
    hide CertainHolders;
    hide OwnHolder;
    var hs := HoldersOf(inp, want);
    var certain := CertainHolders(hs);
    OwnExactlyWhen(inp, want);
    ForeignExactlyWhen(inp, want);
    CertainSocketExactlyWhen(inp, want);
    assert ForeignHolds(inp, want) ==> certain != [];
    assert SocketHolds(inp, want) ==> certain != [];
    if certain != [] && !ForeignHolds(inp, want) && OwnHolder(inp, hs).None? {
      assert !IsForeign(inp, certain[0]) && !IsReleased(inp, certain[0]);
    }
  }

  // ------------------------------------------------------------- the change list

  datatype Availability = Free | MaybeTaken | Taken | Unchecked

  /** The change list's question about one host port. */
  function PortState(inp: Input, m: PortMapping, port: int): Availability {
    var want := ClaimFromMapping(m, port, inp.parse);
    if !Observable(want.protocol) then Free
    else
      var hs := HoldersOf(inp, want);
      if hs == [] then (if inp.portsUnchecked then Unchecked else Free)
      else
        var own, certain := OwnHolder(inp, hs), CertainHolders(hs);
        var blocked := certain != [] && (own.None? || ForeignContainer(inp, certain));
        if blocked && !OwnershipKnown(inp, certain) then MaybeTaken
        else if blocked then Taken
        else if own.Some? then Free
        else MaybeTaken
  }

  /** The change list and the findings never disagree about an observable binding. */
  lemma StateAgreesWithFinding(inp: Input, service: string, m: PortMapping, port: int)
    requires Observable(BaseProtocol(m.protocol))
    ensures var f, state := FixedFinding(inp, service, m, port), PortState(inp, m, port);
            && (state == Taken <==> f.Some? && f.value.outcome == Problem)
            && (state == MaybeTaken <==> f.Some? && f.value.outcome == Unknown)
            && (state == Free <==> if f.Some? then f.value.outcome == NoProblem else !inp.portsUnchecked)
            && (state == Unchecked <==> f.None? && inp.portsUnchecked)
  {}

  /** On a protocol that is neither tcp nor udp they do: the finding says "not checked", for
      a range as for a port, and the list "free". */
  lemma UnobservableDisagrees(inp: Input, service: string, m: PortMapping, port: int)
    requires BaseProtocol(m.protocol) != "tcp" && BaseProtocol(m.protocol) != "udp"
    ensures PortState(inp, m, port) == Free
    ensures FixedFinding(inp, service, m, port) ==
            Some(PortFinding(service, port, BaseProtocol(m.protocol), ManualCheck, Warning, []))
    ensures DynamicFinding(inp, service, m) ==
            Some(PortFinding(service, m.hostPort, BaseProtocol(m.protocol), ManualCheck, Warning, []))
  {
    hide BaseProtocol;
  }

  /** What a port's state rests on, in completions. */
  lemma StateExactly(inp: Input, m: PortMapping, port: int)
    requires ValidParser(inp.parse) && Observable(BaseProtocol(m.protocol))
    ensures var want, state := ClaimFromMapping(m, port, inp.parse), PortState(inp, m, port);
            && (state == Taken <==> CertainlyTaken(inp, want))
            && (state == Unchecked <==> !AnythingMayHold(inp, want) && inp.portsUnchecked)
            && (state == Free <==> if AnythingMayHold(inp, want) then ReleasedMayHold(inp, want) && !ForeignHolds(inp, want)
                                   else !inp.portsUnchecked)
  {
    var want := ClaimFromMapping(m, port, inp.parse);
    StateAgreesWithFinding(inp, "", m, port);
    SilentExactlyWhen(inp, want);
    if AnythingMayHold(inp, want) {
      VerdictExactly(inp, "", want);
    } else {
      NothingHolds(inp, want);
    }
  }

  lemma NothingHolds(inp: Input, want: Claim)
    requires ValidParser(inp.parse) && ValidClaim(want) && !AnythingMayHold(inp, want)
    ensures !CertainlyTaken(inp, want)
  {
    forall c ensures ContainerMust(inp, want, c) ==> ContainerMay(inp, want, c) {
      ContainerOverlapExactly(inp, want, c);
    }
    forall s ensures SocketMust(inp, want, s) ==> SocketMay(inp, want, s) {
      SocketOverlapExactly(inp, want, s);
    }
  }

  // -------------------------------------------------------------- dynamic ranges

  /** The state of each port, in order. */
  function StatesOf(ports: seq<int>, stateOf: int -> Availability): seq<Availability> {
    seq(|ports|, k requires 0 <= k < |ports| => stateOf(ports[k]))
  }

  function StateFn(inp: Input, m: PortMapping): int -> Availability { p => PortState(inp, m, p) }

  function States(inp: Input, m: PortMapping): seq<Availability> {
    StatesOf(m.HostPorts(), StateFn(inp, m))
  }

  ghost predicate AllTaken(states: seq<Availability>) { forall state :: state in states ==> state == Taken }

  lemma AllTakenSnoc(states: seq<Availability>, last: Availability)
    ensures AllTaken(states + [last]) <==> AllTaken(states) && last == Taken
    ensures Free in states + [last] <==> Free in states || last == Free
  {
    var all := states + [last];
    assert all[|states|] == last;
    if AllTaken(states) && last == Taken {
      forall state | state in all ensures state == Taken {
        if state !in states { assert state == last; }
      }
    } else if AllTaken(all) {
      assert last in all;
      forall state | state in states ensures state == Taken { assert state in all; }
    }
  }

  /** Goes through the ports until one is free; else says whether every one is taken. */
  method JudgeRange(ports: seq<int>, stateOf: int -> Availability) returns (allTaken: Option<bool>)
    ensures allTaken.None? <==> Free in StatesOf(ports, stateOf)
    ensures allTaken.Some? ==> (allTaken.value <==> AllTaken(StatesOf(ports, stateOf)))
  {
    var taken, maybe: seq<int> := [], [];
    ghost var states := StatesOf(ports, stateOf);
    for n := 0 to |ports|
      invariant Free !in states[..n]
      invariant maybe == [] <==> AllTaken(states[..n])
    {
      assert states[..n + 1] == states[..n] + [states[n]];
      AllTakenSnoc(states[..n], states[n]);
      match stateOf(ports[n]) {
        case Free => return None;
        case Taken => taken := taken + [ports[n]];
        case _ => maybe := maybe + [ports[n]];
      }
    }
    assert states[..|ports|] == states;
    return Some(maybe == []);
  }

  /** The engine takes one free port of the range, so one settles it. */
  method DynamicRange(inp: Input, service: string, m: PortMapping) returns (f: Option<PortFinding>)
    ensures f == DynamicFinding(inp, service, m)
  {
    var protocol := BaseProtocol(m.protocol);
    if !Observable(protocol) {
      return Some(UnobservableFinding(service, ClaimFromMapping(m, m.hostPort, inp.parse)));
    }
    var ports := ExpandPorts(m);
    var allTaken := JudgeRange(ports, StateFn(inp, m));
    if allTaken.None? {
      return None;
    }
    if allTaken.value {
      return Some(PortFinding(service, m.hostPort, protocol, Problem, Blocker, []));
    }
    return Some(PortFinding(service, m.hostPort, protocol, Unknown, Warning, []));
  }

  ghost function DynamicFinding(inp: Input, service: string, m: PortMapping): Option<PortFinding> {
    var protocol := BaseProtocol(m.protocol);
    if !Observable(protocol) then Some(UnobservableFinding(service, ClaimFromMapping(m, m.hostPort, inp.parse)))
    else if Free in States(inp, m) then None
    else if AllTaken(States(inp, m)) then Some(PortFinding(service, m.hostPort, protocol, Problem, Blocker, []))
    else Some(PortFinding(service, m.hostPort, protocol, Unknown, Warning, []))
  }

  lemma StatesAre(m: PortMapping, stateOf: int -> Availability, state: Availability)
    ensures state in StatesOf(m.HostPorts(), stateOf) <==>
            m.hostPort != 0 && exists p :: m.hostPort <= p <= m.LastPort() && stateOf(p) == state
  {
    var ports := m.HostPorts();
    var states := StatesOf(ports, stateOf);
    if m.hostPort != 0 {
      if p :| m.hostPort <= p <= m.LastPort() && stateOf(p) == state {
        assert ports[p - m.hostPort] == p && states[p - m.hostPort] == state;
      }
      if state in states {
        var k :| 0 <= k < |states| && states[k] == state;
        assert stateOf(m.hostPort + k) == state;
      }
    }
  }

  ghost predicate RangeHas(m: PortMapping, stateOf: int -> Availability, state: Availability) {
    exists p :: m.hostPort <= p <= m.LastPort() && stateOf(p) == state
  }

  /** A dynamic range that starts at a port is silent exactly when some port of it is
      free, and a problem exactly when every one is taken. */
  lemma DynamicExactly(inp: Input, service: string, m: PortMapping)
    requires m.Dynamic() && m.hostPort != 0 && Observable(BaseProtocol(m.protocol))
    ensures var f := DynamicFinding(inp, service, m);
            && (f.None? <==> RangeHas(m, StateFn(inp, m), Free))
            && (f.Some? && f.value.outcome == Problem <==>
                forall state :: RangeHas(m, StateFn(inp, m), state) ==> state == Taken)
            && (f.Some? ==> f.value.outcome == Problem || f.value.outcome == Unknown)
            && (f.Some? ==> && f.value.service == service && f.value.port == m.hostPort
                            && f.value.protocol == BaseProtocol(m.protocol)
                            && f.value.severity == if f.value.outcome == Problem then Blocker else Warning)
  {
    forall state
      ensures state in States(inp, m) <==> RangeHas(m, StateFn(inp, m), state)
    {
      StatesAre(m, StateFn(inp, m), state);
    }
  }

  /** Every dynamic range that was read, from whatever form, is judged so. */
  lemma ReadRangeExactly(inp: Input, service: string, m: PortMapping)
    requires IsPublished(m) && m.Dynamic() && Observable(BaseProtocol(m.protocol))
    ensures var f := DynamicFinding(inp, service, m);
            && (f.None? <==> RangeHas(m, StateFn(inp, m), Free))
            && (f.Some? && f.value.outcome == Problem <==>
                forall state :: RangeHas(m, StateFn(inp, m), state) ==> state == Taken)
  {
    ReadRangesStartAtAPort(m);
    DynamicExactly(inp, service, m);
  }

  /** A range from port 0, which no reader yields, would hold no port at all and still
      read as entirely taken. */
  lemma EmptyRangeReadsAsTaken(inp: Input, service: string, m: PortMapping)
    requires m.Dynamic() && m.hostPort == 0 && Observable(BaseProtocol(m.protocol))
    ensures m.HostPorts() == []
    ensures DynamicFinding(inp, service, m).Some? && DynamicFinding(inp, service, m).value.outcome == Problem
  {}
}
