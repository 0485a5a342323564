/**
 What the port findings say, held against the hosts and runs that agree with everything
 that was read: app/witness/conflicts.rules.go and portState of app/witness/changes.go.

 A world settles at once whatever the audit could not read. Of the host's network: whether
 it has IPv6, which IPv6 wildcards are IPv6-only, what an unreadable address turns out to
 be. Of the run: which containers are up, what becomes of one whose fate is not known,
 which sockets belong to containers although no label says so, whose turn comes first. A
 run stops its own containers first, and their sockets go with them; what is left decides
 whether a new binding succeeds.
 */
module PortWorlds {
  import opened Text
  import opened PortSpec
  import opened PortMatch
  import opened Findings
  import opened Ownership
  import opened PortRules

  // ------------------------------------------------------------------- the network

  datatype Net = Net(ipv6: bool, wantV6Only: bool, v6only: Claim -> bool, unread: (Claim, IP) -> bool)

  ghost predicate IsNet(n: Net, st: Stack, want: Claim) {
    && Settles(n.ipv6, st.ipv6, "enabled", "disabled")
    && Settles(n.wantV6Only, want.v6only, "yes", "no")
    && forall c :: Settles(n.v6only(c), c.v6only, "yes", "no")
  }

  ghost predicate HoldsIn(n: Net, c: Claim, a: IP) {
    if c.readable then Holds(c, a, n.ipv6, n.v6only(c)) else n.unread(c, a)
  }

  ghost predicate WantsIn(n: Net, want: Claim, a: IP) {
    if want.readable then Holds(want, a, n.ipv6, n.wantV6Only) else n.unread(want, a)
  }

  ghost predicate ClashAt(n: Net, want: Claim, held: Claim, a: IP) {
    ValidIP(a) && WantsIn(n, want, a) && HoldsIn(n, held, a)
  }

  ghost predicate ClashIn(n: Net, want: Claim, held: Claim) {
    SameBinding(want, held) && exists a :: ClashAt(n, want, held, a)
  }

  ghost function CompletionOf(n: Net, held: Claim): Completion {
    Completion(n.ipv6, n.wantV6Only, n.v6only(held))
  }

  lemma ReadableClash(n: Net, want: Claim, held: Claim)
    requires want.readable && held.readable
    ensures ClashIn(n, want, held) <==> SameBinding(want, held) && Meets(want, held, CompletionOf(n, held))
  {
    if ClashIn(n, want, held) {
      var a :| ClashAt(n, want, held, a);
      assert BothHold(want, held, a, CompletionOf(n, held));
    }
    if SameBinding(want, held) && Meets(want, held, CompletionOf(n, held)) {
      var a :| BothHold(want, held, a, CompletionOf(n, held));
      assert ClashAt(n, want, held, a);
    }
  }

  lemma NetsAgree(n: Net, st: Stack, want: Claim, held: Claim)
    requires IsNet(n, st, want)
    ensures Agrees(CompletionOf(n, held), st, want, held)
  {}

  /** The network that holds the fewest addresses, and the one that holds the most. */
  ghost function LeastNet(st: Stack, want: Claim): Net {
    Net(st.ipv6 == "enabled", want.v6only != "no", (c: Claim) => c.v6only != "no", (c: Claim, a: IP) => false)
  }

  ghost function MostNet(st: Stack, want: Claim): Net {
    Net(st.ipv6 != "disabled", want.v6only == "yes", (c: Claim) => c.v6only == "yes", (c: Claim, a: IP) => true)
  }

  lemma MustClash(st: Stack, want: Claim, held: Claim)
    ensures MustMeet(st, want, held) <==> ClashIn(LeastNet(st, want), want, held)
  {
    var n := LeastNet(st, want);
    if want.readable && held.readable {
      ReadableClash(n, want, held);
      if SameBinding(want, held) { ExtremesDecide(st, want, held); }
    }
  }

  lemma SomethingIsHeld(c: Claim, n: Net)
    requires ValidClaim(c) && c.readable
    ensures exists a :: ValidIP(a) && Holds(c, a, n.ipv6, n.v6only(c))
    ensures exists a :: ValidIP(a) && Holds(c, a, n.ipv6, n.wantV6Only)
  {
    var a := if c.anyAddr || c.address == "" || c.ip.value == IP(true, 0) then IP(true, 1)
             else if c.ip.value == IP(false, 0) then IP(false, 1) else c.ip.value;
    assert ValidIP(a) && Holds(c, a, n.ipv6, n.v6only(c)) && Holds(c, a, n.ipv6, n.wantV6Only);
  }

  lemma MayClash(st: Stack, want: Claim, held: Claim)
    requires ValidClaim(want) && ValidClaim(held)
    ensures MayMeet(st, want, held) <==> ClashIn(MostNet(st, want), want, held)
  {
    var n := MostNet(st, want);
    if want.readable && held.readable {
      ReadableClash(n, want, held);
      if SameBinding(want, held) { ExtremesDecide(st, want, held); }
    } else if SameBinding(want, held) {
      UnreadableClash(n, want, held);
    }
  }

  lemma UnreadableClash(n: Net, want: Claim, held: Claim)
    requires ValidClaim(want) && ValidClaim(held) && SameBinding(want, held)
    requires !want.readable || !held.readable
    requires forall c, a :: n.unread(c, a)
    ensures ClashIn(n, want, held)
  {
    if want.readable {
      SomethingIsHeld(want, n);
      var a :| ValidIP(a) && Holds(want, a, n.ipv6, n.wantV6Only);
      assert ClashAt(n, want, held, a);
    } else if held.readable {
      SomethingIsHeld(held, n);
      var a :| ValidIP(a) && Holds(held, a, n.ipv6, n.v6only(held));
      assert ClashAt(n, want, held, a);
    } else {
      assert ClashAt(n, want, held, IP(true, 1));
    }
  }

  /** A clash in some network is a possible one. */
  lemma ClashIsPossible(n: Net, st: Stack, want: Claim, held: Claim)
    requires IsNet(n, st, want) && ClashIn(n, want, held)
    ensures MayMeet(st, want, held)
  {
    NetsAgree(n, st, want, held);
    if want.readable && held.readable { ReadableClash(n, want, held); }
  }

  lemma CertainClash(n: Net, st: Stack, want: Claim, held: Claim)
    requires IsNet(n, st, want) && MustMeet(st, want, held)
    ensures ClashIn(n, want, held)
  {
    NetsAgree(n, st, want, held);
    ReadableClash(n, want, held);
  }

  // ------------------------------------------------------------------------ the run

  /** `up`: the container runs and holds the ports it publishes. `goes`: the run stops it.
      `same`: it was created with the bindings the plan now has. `started`: the run starts
      it, as it is, before the service at hand. `ahead`: so it does a service of the plan.
      `unseen`: it keeps a container of the service that could not be told to be one.
      `inside`: a process in the container opened the socket itself, on the host's network.
      `unlisted`: the socket is of a container the run stops and nobody listed. */
  datatype Run = Run(
    up: Container -> bool,
    goes: Container -> bool,
    same: Container -> bool,
    started: Container -> bool,
    ahead: string -> bool,
    unseen: string -> bool,
    inside: (Container, Socket) -> bool,
    unlisted: Socket -> bool)

  predicate IsUp(c: Container) { c.state == "running" }

  predicate IsDown(c: Container) { c.state == "exited" || c.state == "created" || c.state == "dead" }

  /** On the host's network, as far as its networks were read. */
  predicate MayShareHost(c: Container) { c.networks == [] || "host" in c.networks }

  ghost predicate IsRun(r: Run, inp: Input) {
    && (forall c :: (IsUp(c) ==> r.up(c)) && (IsDown(c) ==> !r.up(c)))
    && (forall c :: (FateOf(inp, c) == Goes ==> r.goes(c)) && (FateOf(inp, c) == Remains ==> !r.goes(c)))
    && (forall c :: (Unchanged(inp, c) ==> r.same(c)) && (r.started(c) ==> MayBeStarted(inp, c)))
    && (forall service :: r.unseen(service) ==> MayKeepUnseen(inp))
    && (forall c, s :: r.inside(c, s) ==> MayShareHost(c))
    && (EngineListed(inp, CONTAINERS) ==> forall s :: !r.unlisted(s))
  }

  /** A container Compose runs for the service. */
  predicate OwnOf(inp: Input, service: string, c: Container) {
    SameProject(inp, c.project) && !c.oneOff && c.service == service
  }

  /** The engine opens a socket for a publication on the address it names; on the
      wildcards when it names none, the IPv6 one unless the host has no IPv6. */
  predicate Opens(st: Stack, claim: Claim, socket: Claim) {
    SameBinding(claim, socket) && claim.readable && socket.readable &&
    if claim.address == "" then
      socket.ip == Some(IP(true, 0)) || (st.ipv6 != "disabled" && (socket.anyAddr || socket.ip == Some(IP(false, 0))))
    else
      claim.ip.Some? && (claim.ip == socket.ip || (claim.ip == Some(IP(false, 0)) && socket.anyAddr))
  }

  ghost predicate Publishes(inp: Input, c: Container, s: Socket) {
    exists claim :: claim in ClaimsOf(c.ports, inp.parse) && Opens(inp.stack, claim, ClaimFromSocket(s, inp.parse))
  }

  /** The run makes the planned bindings of the service. It makes none where it keeps a
      container of the service that is up, and others where it starts one that was created
      with others. A container whose fate is not known is either replaced or unchanged; then
      it has the bindings itself, and nothing else is on them. */
  ghost predicate Starts(inp: Input, service: string, r: Run) {
    !r.unseen(service) &&
    forall c :: c in inp.containers && OwnOf(inp, service, c) && FateOf(inp, c) == Remains ==> !r.up(c) && r.same(c)
  }

  /** The container stands between the service and the port. */
  ghost predicate InTheWay(inp: Input, service: string, r: Run, c: Container) {
    c in inp.containers && (r.up(c) || r.started(c)) && !r.goes(c) && !OwnOf(inp, service, c)
  }

  /** So does another service of the plan, if its turn comes first. */
  ghost predicate IsAhead(inp: Input, service: string, r: Run, other: Service) {
    other in inp.services && other.name != service && other.networkMode != "host" &&
    r.ahead(other.name) && Starts(inp, other.name, r)
  }

  /** The socket is one of a container that goes, or of the service itself. */
  ghost predicate Takes(inp: Input, service: string, r: Run, c: Container, s: Socket) {
    c in inp.containers && r.up(c) && (r.goes(c) || OwnOf(inp, service, c)) && (r.inside(c, s) || Publishes(inp, c, s))
  }

  ghost predicate IsStray(inp: Input, service: string, r: Run, s: Socket) {
    s in inp.sockets && !r.unlisted(s) && forall c :: !Takes(inp, service, r, c, s)
  }

  /** A claim of another that is there when the service binds. */
  ghost predicate IsLeft(inp: Input, service: string, r: Run, k: Claim) {
    || (exists c :: InTheWay(inp, service, r, c) && k in ClaimsOf(c.ports, inp.parse))
    || (exists s :: IsStray(inp, service, r, s) && k == ClaimFromSocket(s, inp.parse))
    || (exists other :: IsAhead(inp, service, r, other) && k in ClaimsOf(other.ports, inp.parse))
  }

  datatype World = World(net: Net, run: Run)

  ghost predicate Possible(w: World, inp: Input, want: Claim) { IsNet(w.net, inp.stack, want) && IsRun(w.run, inp) }

  /** The run starts the service, and its binding fails. */
  ghost predicate BlockedIn(inp: Input, service: string, want: Claim, w: World) {
    Starts(inp, service, w.run) && exists k :: IsLeft(inp, service, w.run, k) && ClashIn(w.net, want, k)
  }

  ghost predicate SurelyBlocked(inp: Input, service: string, want: Claim) {
    forall w :: Possible(w, inp, want) ==> BlockedIn(inp, service, want, w)
  }

  ghost predicate MayBeBlocked(inp: Input, service: string, want: Claim) {
    exists w :: Possible(w, inp, want) && BlockedIn(inp, service, want, w)
  }

  // ----------------------------------------------- what is certain of the run, or possible

  ghost predicate SurelyStarts(inp: Input, service: string) {
    !MayKeepUnseen(inp) &&
    forall c :: c in inp.containers && OwnOf(inp, service, c) && FateOf(inp, c) == Remains ==>
      IsDown(c) && Unchanged(inp, c)
  }

  ghost predicate MayStart(inp: Input, service: string) {
    forall c :: c in inp.containers && OwnOf(inp, service, c) && FateOf(inp, c) == Remains ==> !IsUp(c)
  }

  ghost predicate SurelyInTheWay(inp: Input, service: string, c: Container) {
    c in inp.containers && IsUp(c) && FateOf(inp, c) == Remains && !OwnOf(inp, service, c)
  }

  ghost predicate MayBeInTheWay(inp: Input, service: string, c: Container) {
    c in inp.containers && (!IsDown(c) || MayBeStarted(inp, c)) && FateOf(inp, c) != Goes && !OwnOf(inp, service, c)
  }

  ghost predicate MayBeAhead(inp: Input, service: string, other: Service) {
    other in inp.services && other.name != service && other.networkMode != "host" && MayStart(inp, other.name)
  }

  ghost predicate SurelyTakes(inp: Input, service: string, c: Container, s: Socket) {
    c in inp.containers && IsUp(c) && (FateOf(inp, c) == Goes || OwnOf(inp, service, c)) && Publishes(inp, c, s)
  }

  ghost predicate MayTake(inp: Input, service: string, c: Container, s: Socket) {
    c in inp.containers && !IsDown(c) && (FateOf(inp, c) != Remains || OwnOf(inp, service, c)) &&
    (MayShareHost(c) || Publishes(inp, c, s))
  }

  ghost predicate SurelyStray(inp: Input, service: string, s: Socket) {
    s in inp.sockets && EngineListed(inp, CONTAINERS) && forall c :: !MayTake(inp, service, c, s)
  }

  ghost predicate MayBeStray(inp: Input, service: string, s: Socket) {
    s in inp.sockets && forall c :: !SurelyTakes(inp, service, c, s)
  }

  ghost predicate SurelyLeft(inp: Input, service: string, k: Claim) {
    || (exists c :: SurelyInTheWay(inp, service, c) && k in ClaimsOf(c.ports, inp.parse))
    || (exists s :: SurelyStray(inp, service, s) && k == ClaimFromSocket(s, inp.parse))
  }

  ghost predicate MayBeLeft(inp: Input, service: string, k: Claim) {
    || (exists c :: MayBeInTheWay(inp, service, c) && k in ClaimsOf(c.ports, inp.parse))
    || (exists s :: MayBeStray(inp, service, s) && k == ClaimFromSocket(s, inp.parse))
    || (exists other :: MayBeAhead(inp, service, other) && k in ClaimsOf(other.ports, inp.parse))
  }

  lemma StartsWithin(inp: Input, service: string, r: Run)
    requires IsRun(r, inp)
    ensures SurelyStarts(inp, service) ==> Starts(inp, service, r)
    ensures Starts(inp, service, r) ==> MayStart(inp, service)
  {}

  lemma CertainInEveryRun(inp: Input, service: string, r: Run)
    requires IsRun(r, inp)
    ensures SurelyStarts(inp, service) ==> Starts(inp, service, r)
    ensures Starts(inp, service, r) ==> MayStart(inp, service)
    ensures forall k :: SurelyLeft(inp, service, k) ==> IsLeft(inp, service, r, k)
    ensures forall k :: IsLeft(inp, service, r, k) ==> MayBeLeft(inp, service, k)
  {
    hide FateOf;
    hide OwnOf;
    hide Publishes;
    hide MayShareHost;
    hide MayBeStarted;
    hide Unchanged;
    hide Starts;
    hide MayStart;
    hide SurelyStarts;
    StartsWithin(inp, service, r);
    forall c, s ensures Takes(inp, service, r, c, s) ==> MayTake(inp, service, c, s) {}
    forall c, s ensures SurelyTakes(inp, service, c, s) ==> Takes(inp, service, r, c, s) {}
    forall s ensures SurelyStray(inp, service, s) ==> IsStray(inp, service, r, s) {}
    forall s ensures IsStray(inp, service, r, s) ==> MayBeStray(inp, service, s) {}
    forall c ensures SurelyInTheWay(inp, service, c) ==> InTheWay(inp, service, r, c) {}
    forall c ensures InTheWay(inp, service, r, c) ==> MayBeInTheWay(inp, service, c) {}
    forall other ensures IsAhead(inp, service, r, other) ==> MayBeAhead(inp, service, other) {
      StartsWithin(inp, other.name, r);
    }
  }

  /** The run that leaves the least in the way of the service. */
  ghost function LeastRun(inp: Input, service: string): Run {
    Run((c: Container) => IsUp(c) || (!IsDown(c) && (FateOf(inp, c) != Remains || OwnOf(inp, service, c))),
        (c: Container) => FateOf(inp, c) != Remains,
        (c: Container) => Unchanged(inp, c),
        (c: Container) => false,
        (name: string) => false,
        (name: string) => MayKeepUnseen(inp),
        (c: Container, s: Socket) => MayShareHost(c),
        (s: Socket) => !EngineListed(inp, CONTAINERS))
  }

  /** One that leaves as much as can be, and in which `other` is started. */
  ghost function MostRun(inp: Input, service: string, other: string): Run {
    Run((c: Container) => IsUp(c) || (!IsDown(c) && FateOf(inp, c) != Goes && !OwnOf(inp, service, c) && !OwnOf(inp, other, c)),
        (c: Container) => FateOf(inp, c) == Goes,
        (c: Container) => true,
        (c: Container) => MayBeStarted(inp, c),
        (name: string) => true,
        (name: string) => false,
        (c: Container, s: Socket) => false,
        (s: Socket) => false)
  }

  lemma LeastIsCertain(inp: Input, service: string)
    ensures var r := LeastRun(inp, service);
            && IsRun(r, inp)
            && (Starts(inp, service, r) <==> SurelyStarts(inp, service))
            && (forall k :: IsLeft(inp, service, r, k) <==> SurelyLeft(inp, service, k))
  {
    hide FateOf;
    hide OwnOf;
    hide Publishes;
    hide MayShareHost;
    hide MayBeStarted;
    hide Unchanged;
    hide IsUp;
    hide IsDown;
    var r := LeastRun(inp, service);
    UpOrDown();
    CertainInEveryRun(inp, service, r);
    forall c, s ensures MayTake(inp, service, c, s) <==> Takes(inp, service, r, c, s) {}
    forall s ensures SurelyStray(inp, service, s) <==> IsStray(inp, service, r, s) {}
    forall c ensures SurelyInTheWay(inp, service, c) <==> InTheWay(inp, service, r, c) {}
  }

  lemma MostIsARun(inp: Input, service: string, other: string)
    ensures var r := MostRun(inp, service, other);
            && IsRun(r, inp)
            && (Starts(inp, service, r) <==> MayStart(inp, service))
            && (Starts(inp, other, r) <==> MayStart(inp, other))
  {
    hide FateOf;
    hide OwnOf;
    hide MayShareHost;
    hide MayBeStarted;
    hide Unchanged;
    hide IsUp;
    hide IsDown;
    UpOrDown();
  }

  lemma MostLeavesContainer(inp: Input, service: string, c: Container)
    requires MayBeInTheWay(inp, service, c)
    ensures InTheWay(inp, service, MostRun(inp, service, service), c)
  {
    hide FateOf;
    hide OwnOf;
    hide MayBeStarted;
  }

  lemma MostLeavesSocket(inp: Input, service: string, s: Socket)
    requires MayBeStray(inp, service, s)
    ensures IsStray(inp, service, MostRun(inp, service, service), s)
  {
    hide FateOf;
    hide OwnOf;
    hide MayBeStarted;
    hide Publishes;
    forall c ensures !Takes(inp, service, MostRun(inp, service, service), c, s) {
      assert !SurelyTakes(inp, service, c, s);
    }
  }

  /** Whatever may be left is in some run, and in one that starts the service if any does. */
  lemma PossibleInSomeRun(inp: Input, service: string, k: Claim) returns (r: Run)
    requires MayBeLeft(inp, service, k)
    ensures IsRun(r, inp) && IsLeft(inp, service, r, k)
    ensures Starts(inp, service, r) <==> MayStart(inp, service)
  {
    hide MostRun;
    hide MayBeInTheWay;
    hide InTheWay;
    hide MayBeStray;
    hide IsStray;
    hide Starts;
    hide MayStart;
    hide IsRun;
    if other :| MayBeAhead(inp, service, other) && k in ClaimsOf(other.ports, inp.parse) {
      r := MostRun(inp, service, other.name);
      MostIsARun(inp, service, other.name);
      EveryoneIsAhead(inp, service, other.name);
      assert IsAhead(inp, service, r, other);
    } else {
      r := MostRun(inp, service, service);
      MostIsARun(inp, service, service);
      if c :| MayBeInTheWay(inp, service, c) && k in ClaimsOf(c.ports, inp.parse) {
        MostLeavesContainer(inp, service, c);
      } else {
        var s :| MayBeStray(inp, service, s) && k == ClaimFromSocket(s, inp.parse);
        MostLeavesSocket(inp, service, s);
      }
    }
  }

  lemma EveryoneIsAhead(inp: Input, service: string, other: string)
    ensures forall name :: MostRun(inp, service, other).ahead(name)
  {}

  lemma UpOrDown()
    ensures forall c :: !(IsUp(c) && IsDown(c))
  {}

  // ------------------------------------------------------------------- what is decided

  /** The binding fails in every world exactly when the run surely starts the service and
      one claim that surely is left meets it in every completion: no play of several
      unknowns makes up for that. */
  lemma BlockedByOneClaim(inp: Input, service: string, want: Claim)
    ensures SurelyBlocked(inp, service, want) <==>
            SurelyStarts(inp, service) && exists k :: SurelyLeft(inp, service, k) && MustMeet(inp.stack, want, k)
  {
    hide IsLeft;
    hide SurelyLeft;
    hide MustMeet;
    hide Starts;
    hide SurelyStarts;
    hide IsRun;
    hide ClashIn;
    var least := World(LeastNet(inp.stack, want), LeastRun(inp, service));
    LeastIsCertain(inp, service);
    if SurelyBlocked(inp, service, want) {
      assert Possible(least, inp, want);
      var k :| IsLeft(inp, service, least.run, k) && ClashIn(least.net, want, k);
      MustClash(inp.stack, want, k);
    }
    if SurelyStarts(inp, service) {
      if k :| SurelyLeft(inp, service, k) && MustMeet(inp.stack, want, k) {
        forall w | Possible(w, inp, want) ensures BlockedIn(inp, service, want, w) {
          CertainInEveryRun(inp, service, w.run);
          CertainClash(w.net, inp.stack, want, k);
        }
      }
    }
  }

  lemma PossibleClaimsAreValid(inp: Input, service: string, k: Claim)
    requires ValidParser(inp.parse) && MayBeLeft(inp, service, k)
    ensures ValidClaim(k)
  {
    if c :| MayBeInTheWay(inp, service, c) && k in ClaimsOf(c.ports, inp.parse) {
      ClaimsOfAreValid(c.ports, inp.parse);
    } else if other :| MayBeAhead(inp, service, other) && k in ClaimsOf(other.ports, inp.parse) {
      ClaimsOfAreValid(other.ports, inp.parse);
    }
  }

  lemma MayBeBlockedByOneClaim(inp: Input, service: string, want: Claim)
    requires ValidParser(inp.parse) && ValidClaim(want)
    ensures MayBeBlocked(inp, service, want) <==>
            MayStart(inp, service) && exists k :: MayBeLeft(inp, service, k) && MayMeet(inp.stack, want, k)
  {
    hide IsLeft;
    hide MayBeLeft;
    hide MayMeet;
    hide Starts;
    hide MayStart;
    hide IsRun;
    hide ClashIn;
    if MayBeBlocked(inp, service, want) {
      var w :| Possible(w, inp, want) && BlockedIn(inp, service, want, w);
      var k :| IsLeft(inp, service, w.run, k) && ClashIn(w.net, want, k);
      CertainInEveryRun(inp, service, w.run);
      ClashIsPossible(w.net, inp.stack, want, k);
    }
    if MayStart(inp, service) {
      if k :| MayBeLeft(inp, service, k) && MayMeet(inp.stack, want, k) {
        var r := PossibleInSomeRun(inp, service, k);
        var w := World(MostNet(inp.stack, want), r);
        PossibleClaimsAreValid(inp, service, k);
        MayClash(inp.stack, want, k);
        assert Possible(w, inp, want) && BlockedIn(inp, service, want, w);
      }
    }
  }

  // --------------------------------------------------------- by the holders that are seen

  /** The holder surely is still there when the service binds, or may be. */
  ghost predicate SurelyStays(inp: Input, service: string, h: Holder) {
    if h.ContainerHolder? then SurelyInTheWay(inp, service, h.container) else SurelyStray(inp, service, h.socket)
  }

  ghost predicate MayStay(inp: Input, service: string, h: Holder) {
    if h.ContainerHolder? then MayBeInTheWay(inp, service, h.container) else MayBeStray(inp, service, h.socket)
  }

  ghost predicate SomeSurelyStays(inp: Input, service: string, hs: seq<Holder>) {
    exists h :: h in hs && SurelyStays(inp, service, h)
  }

  ghost predicate SomeMayStay(inp: Input, service: string, hs: seq<Holder>) {
    exists h :: h in hs && MayStay(inp, service, h)
  }

  lemma CertainClaimsAreHolders(inp: Input, service: string, want: Claim)
    requires ValidParser(inp.parse) && ValidClaim(want)
    ensures (exists k :: SurelyLeft(inp, service, k) && MustMeet(inp.stack, want, k)) <==>
            SomeSurelyStays(inp, service, CertainHolders(HoldersOf(inp, want)))
  {
    hide MustMeet;
    hide HoldersOf;
    hide MayTake;
    var certain := CertainHolders(HoldersOf(inp, want));
    if k :| SurelyLeft(inp, service, k) && MustMeet(inp.stack, want, k) {
      if c :| SurelyInTheWay(inp, service, c) && k in ClaimsOf(c.ports, inp.parse) {
        ContainerOverlapExactly(inp, want, c);
        HoldersAre(inp, want, ContainerHolder(SureOverlap, c));
        assert SurelyStays(inp, service, ContainerHolder(SureOverlap, c));
      } else {
        var s :| SurelyStray(inp, service, s) && k == ClaimFromSocket(s, inp.parse);
        SocketOverlapExactly(inp, want, s);
        HoldersAre(inp, want, SocketHolder(SureOverlap, s));
        assert SurelyStays(inp, service, SocketHolder(SureOverlap, s));
      }
    }
    if h :| h in certain && SurelyStays(inp, service, h) {
      HoldersAre(inp, want, h);
      if h.ContainerHolder? {
        ContainerOverlapExactly(inp, want, h.container);
        var k :| k in ClaimsOf(h.container.ports, inp.parse) && MustMeet(inp.stack, want, k);
        assert SurelyLeft(inp, service, k);
      } else {
        SocketOverlapExactly(inp, want, h.socket);
        assert SurelyLeft(inp, service, ClaimFromSocket(h.socket, inp.parse));
      }
    }
  }

  /** Another service of the plan may bind first what the service wants. */
  ghost predicate PlanMayClash(inp: Input, service: string, want: Claim) {
    exists other, k :: MayBeAhead(inp, service, other) && k in ClaimsOf(other.ports, inp.parse) && MayMeet(inp.stack, want, k)
  }

  lemma PossibleClaimsAreHolders(inp: Input, service: string, want: Claim)
    requires ValidParser(inp.parse) && ValidClaim(want)
    ensures (exists k :: MayBeLeft(inp, service, k) && MayMeet(inp.stack, want, k)) <==>
            SomeMayStay(inp, service, HoldersOf(inp, want)) || PlanMayClash(inp, service, want)
  {
    hide MayMeet;
    hide HoldersOf;
    hide SurelyTakes;
    hide MayStart;
    hide MayBeStarted;
    hide FateOf;
    hide OwnOf;
    if other, k :| MayBeAhead(inp, service, other) && k in ClaimsOf(other.ports, inp.parse) && MayMeet(inp.stack, want, k) {
      assert MayBeLeft(inp, service, k);
    }
    if k :| MayBeLeft(inp, service, k) && MayMeet(inp.stack, want, k) {
      if c :| MayBeInTheWay(inp, service, c) && k in ClaimsOf(c.ports, inp.parse) {
        var h := ContainerHolder(ContainerOverlap(inp, want, c), c);
        ContainerOverlapExactly(inp, want, c);
        HoldersAre(inp, want, h);
        assert MayStay(inp, service, h);
      } else if s :| MayBeStray(inp, service, s) && k == ClaimFromSocket(s, inp.parse) {
        var h := SocketHolder(SocketOverlap(inp, want, s), s);
        SocketOverlapExactly(inp, want, s);
        HoldersAre(inp, want, h);
        assert MayStay(inp, service, h);
      }
    }
    if h :| h in HoldersOf(inp, want) && MayStay(inp, service, h) {
      HoldersAre(inp, want, h);
      if h.ContainerHolder? {
        ContainerOverlapExactly(inp, want, h.container);
        var k :| k in ClaimsOf(h.container.ports, inp.parse) && MayMeet(inp.stack, want, k);
        assert MayBeLeft(inp, service, k);
      } else {
        SocketOverlapExactly(inp, want, h.socket);
        assert MayBeLeft(inp, service, ClaimFromSocket(h.socket, inp.parse));
      }
    }
  }

  /** The binding fails in every world exactly when the run surely starts the service and
      one of the certain holders surely stays. */
  lemma SurelyBlockedExactly(inp: Input, service: string, want: Claim)
    requires ValidParser(inp.parse) && ValidClaim(want)
    ensures SurelyBlocked(inp, service, want) <==>
            SurelyStarts(inp, service) && SomeSurelyStays(inp, service, CertainHolders(HoldersOf(inp, want)))
  {
    BlockedByOneClaim(inp, service, want);
    CertainClaimsAreHolders(inp, service, want);
  }

  /** It fails in some world exactly when the run may start the service and one of the
      holders may stay or another service of the plan may bind first. */
  lemma MayBeBlockedExactly(inp: Input, service: string, want: Claim)
    requires ValidParser(inp.parse) && ValidClaim(want)
    ensures MayBeBlocked(inp, service, want) <==>
            MayStart(inp, service) &&
            (SomeMayStay(inp, service, HoldersOf(inp, want)) || PlanMayClash(inp, service, want))
  {
    MayBeBlockedByOneClaim(inp, service, want);
    PossibleClaimsAreHolders(inp, service, want);
  }

  // ------------------------------------------------------------ when a verdict is right

  ghost function Verdict(inp: Input, service: string, want: Claim): PortFinding {
    ConflictFinding(inp, service, want, HoldersOf(inp, want))
  }

  /** A blocker is right whatever was not read exactly when the run surely starts the
      service and one of the holders it cites surely stays. It can be right exactly when
      the run may start the service and some holder may stay, or another service of the plan
      may come first. */
  lemma BlockerIsRightExactlyWhen(inp: Input, service: string, want: Claim)
    requires ValidParser(inp.parse) && ValidClaim(want) && HoldersOf(inp, want) != []
    requires Verdict(inp, service, want).outcome == Problem
    ensures SurelyBlocked(inp, service, want) <==>
            SurelyStarts(inp, service) && SomeSurelyStays(inp, service, Verdict(inp, service, want).cited)
    ensures MayBeBlocked(inp, service, want) <==>
            MayStart(inp, service) &&
            (SomeMayStay(inp, service, HoldersOf(inp, want)) || PlanMayClash(inp, service, want))
  {
    hide SurelyBlocked;
    hide MayBeBlocked;
    SurelyBlockedExactly(inp, service, want);
    MayBeBlockedExactly(inp, service, want);
  }

  /** "Nothing is blocked" can be true exactly when the run may not start the service or no
      certain holder surely stays; it is true whatever was not read exactly when the run
      surely does not start it, or no holder may stay and no other service of the plan may
      bind first. */
  lemma ClearIsRightExactlyWhen(inp: Input, service: string, want: Claim)
    requires ValidParser(inp.parse) && ValidClaim(want) && HoldersOf(inp, want) != []
    requires Verdict(inp, service, want).outcome == NoProblem
    ensures !SurelyBlocked(inp, service, want) <==>
            !SurelyStarts(inp, service) ||
            forall h :: h in CertainHolders(HoldersOf(inp, want)) ==> !SurelyStays(inp, service, h)
    ensures !MayBeBlocked(inp, service, want) <==>
            !MayStart(inp, service) ||
            (!PlanMayClash(inp, service, want) && forall h :: h in HoldersOf(inp, want) ==> !MayStay(inp, service, h))
  {
    hide SurelyBlocked;
    hide MayBeBlocked;
    SurelyBlockedExactly(inp, service, want);
    MayBeBlockedExactly(inp, service, want);
  }

  /** The same of a port the change list calls free. */
  lemma FreeIsRightExactlyWhen(inp: Input, service: string, m: PortMapping, port: int)
    requires ValidParser(inp.parse) && Observable(BaseProtocol(m.protocol)) && PortState(inp, m, port) == Free
    ensures var want := ClaimFromMapping(m, port, inp.parse);
            && (!SurelyBlocked(inp, service, want) <==>
                !SurelyStarts(inp, service) ||
                forall h :: h in CertainHolders(HoldersOf(inp, want)) ==> !SurelyStays(inp, service, h))
            && (!MayBeBlocked(inp, service, want) <==>
                !MayStart(inp, service) ||
                (!PlanMayClash(inp, service, want) && forall h :: h in HoldersOf(inp, want) ==> !MayStay(inp, service, h)))
  {
    hide SurelyBlocked;
    hide MayBeBlocked;
    var want := ClaimFromMapping(m, port, inp.parse);
    SurelyBlockedExactly(inp, service, want);
    MayBeBlockedExactly(inp, service, want);
  }

  /** No port of the range can be bound, in any world: the engine takes any that can. */
  ghost predicate RangeBlockedIn(inp: Input, service: string, m: PortMapping, w: World) {
    forall p :: p in m.HostPorts() ==> BlockedIn(inp, service, ClaimFromMapping(m, p, inp.parse), w)
  }

  ghost predicate RangeSurelyBlocked(inp: Input, service: string, m: PortMapping) {
    forall w :: Possible(w, inp, ClaimFromMapping(m, m.hostPort, inp.parse)) ==> RangeBlockedIn(inp, service, m, w)
  }

  lemma RangeBlockedPortByPort(inp: Input, service: string, m: PortMapping)
    ensures RangeSurelyBlocked(inp, service, m) <==>
            forall p :: p in m.HostPorts() ==> SurelyBlocked(inp, service, ClaimFromMapping(m, p, inp.parse))
  {
    hide BlockedIn;
    if RangeSurelyBlocked(inp, service, m) {
      forall p, w | p in m.HostPorts() && Possible(w, inp, ClaimFromMapping(m, p, inp.parse))
        ensures BlockedIn(inp, service, ClaimFromMapping(m, p, inp.parse), w)
      {
        assert Possible(w, inp, ClaimFromMapping(m, m.hostPort, inp.parse));
        assert RangeBlockedIn(inp, service, m, w);
      }
    }
    if forall p :: p in m.HostPorts() ==> SurelyBlocked(inp, service, ClaimFromMapping(m, p, inp.parse)) {
      forall p, w | p in m.HostPorts() && Possible(w, inp, ClaimFromMapping(m, m.hostPort, inp.parse))
        ensures BlockedIn(inp, service, ClaimFromMapping(m, p, inp.parse), w)
      {
        assert Possible(w, inp, ClaimFromMapping(m, p, inp.parse));
      }
    }
  }

  /** A range that is a problem is one rightly exactly when the run surely starts the
      service and each of its ports has a certain holder that surely stays. */
  lemma RangeBlockerIsRightExactlyWhen(inp: Input, service: string, m: PortMapping)
    requires ValidParser(inp.parse) && IsPublished(m) && m.Dynamic() && Observable(BaseProtocol(m.protocol))
    requires DynamicFinding(inp, service, m).Some? && DynamicFinding(inp, service, m).value.outcome == Problem
    ensures RangeSurelyBlocked(inp, service, m) <==>
            SurelyStarts(inp, service) &&
            forall p :: p in m.HostPorts() ==>
              SomeSurelyStays(inp, service, CertainHolders(HoldersOf(inp, ClaimFromMapping(m, p, inp.parse))))
  {
    hide SurelyStarts;
    hide SurelyBlocked;
    hide SomeSurelyStays;
    hide RangeSurelyBlocked;
    ReadRangesStartAtAPort(m);
    RangeBlockedPortByPort(inp, service, m);
    assert m.HostPorts()[0] == m.hostPort && m.hostPort in m.HostPorts();
    forall p | p in m.HostPorts()
      ensures SurelyBlocked(inp, service, ClaimFromMapping(m, p, inp.parse)) <==>
              SurelyStarts(inp, service) &&
              SomeSurelyStays(inp, service, CertainHolders(HoldersOf(inp, ClaimFromMapping(m, p, inp.parse))))
    {
      SurelyBlockedExactly(inp, service, ClaimFromMapping(m, p, inp.parse));
    }
  }

  /** What is certain is never passed over and never left open: a binding that surely fails
      is reported, as a problem or, wrongly, as no problem, and the latter exactly when a
      released container may have the binding and no other container surely does. */
  lemma CertainFailureIsAnswered(inp: Input, service: string, want: Claim)
    requires ValidParser(inp.parse) && ValidClaim(want) && SurelyBlocked(inp, service, want)
    ensures HoldersOf(inp, want) != []
    ensures Verdict(inp, service, want).outcome == NoProblem <==>
            ReleasedMayHold(inp, want) && !ForeignHolds(inp, want)
    ensures Verdict(inp, service, want).outcome != NoProblem ==> Verdict(inp, service, want).outcome == Problem
  {
    hide SurelyBlocked;
    hide CertainHolders;
    hide HoldersOf;
    hide MayTake;
    var hs := HoldersOf(inp, want);
    SurelyBlockedExactly(inp, service, want);
    VerdictExactly(inp, service, want);
    var h :| h in CertainHolders(hs) && SurelyStays(inp, service, h);
    HoldersAre(inp, want, h);
    if h.ContainerHolder? {
      ContainerOverlapExactly(inp, want, h.container);
    } else {
      SocketOverlapExactly(inp, want, h.socket);
    }
  }

  // ------------------------------------------------------------------- an ordinary run

  /** The containers were listed, each is up and has a known fate, what the rule calls
      released does go, and nothing that goes is on the host's network. */
  ghost predicate Ordinary(inp: Input) {
    EngineListed(inp, CONTAINERS) &&
    forall c :: c in inp.containers ==>
      && IsUp(c)
      && FateOf(inp, c) != Undecided
      && (Released(inp, c) ==> FateOf(inp, c) == Goes)
      && (FateOf(inp, c) == Goes ==> !MayShareHost(c))
  }

  ghost predicate StraySocketHolds(inp: Input, service: string, want: Claim) {
    exists s :: SurelyStray(inp, service, s) && SocketMust(inp, want, s)
  }

  /** A socket claim names an address, or is on every interface. */
  ghost predicate IsSocketClaim(c: Claim) { c.address != "" && (c.anyAddr ==> c.ip.None?) }

  lemma SocketClaimsAre(s: Socket, parse: AddressParser)
    ensures IsSocketClaim(ClaimFromSocket(s, parse))
  {}

  /** A publication may be wherever a socket it opened certainly is. */
  lemma OpenedSocketIsWithin(st: Stack, want: Claim, claim: Claim, socket: Claim)
    requires ValidClaim(want) && ValidClaim(claim) && ValidClaim(socket)
    requires claim.v6only == "" && !claim.anyAddr && IsSocketClaim(socket)
    requires Opens(st, claim, socket) && MustMeet(st, want, socket)
    ensures MayMeet(st, want, claim)
  {
    ExtremesDecide(st, want, socket);
    ExtremesDecide(st, want, claim);
    var a :| BothHold(want, socket, a, Least(st, want, socket));
    assert BothHold(want, claim, a, Most(st, want, claim));
  }

  lemma {:induction false} PublishedClaimsAre(m: PortMapping, ports: seq<int>, parse: AddressParser)
    ensures forall c :: c in MappingClaims(m, ports, parse) ==> c.v6only == "" && !c.anyAddr
  {
    if ports != [] { PublishedClaimsAre(m, ports[..|ports| - 1], parse); }
  }

  lemma {:induction false} ContainerClaimsAre(ms: seq<PortMapping>, parse: AddressParser)
    ensures forall c :: c in ClaimsOf(ms, parse) ==> c.v6only == "" && !c.anyAddr
  {
    if ms != [] {
      ContainerClaimsAre(ms[..|ms| - 1], parse);
      PublishedClaimsAre(ms[|ms| - 1], ms[|ms| - 1].HostPorts(), parse);
    }
  }

  lemma PublishedSocketMeansContainer(inp: Input, want: Claim, c: Container, s: Socket)
    requires ValidParser(inp.parse) && ValidClaim(want)
    requires Publishes(inp, c, s) && SocketMust(inp, want, s)
    ensures ContainerMay(inp, want, c)
  {
    var claim :| claim in ClaimsOf(c.ports, inp.parse) && Opens(inp.stack, claim, ClaimFromSocket(s, inp.parse));
    ClaimsOfAreValid(c.ports, inp.parse);
    ContainerClaimsAre(c.ports, inp.parse);
    SocketClaimsAre(s, inp.parse);
    OpenedSocketIsWithin(inp.stack, want, claim, ClaimFromSocket(s, inp.parse));
  }

  /** On an ordinary run no blocker is false, and no clear is except beside a stray socket. */
  lemma OrdinaryRunIsJudgedRight(inp: Input, service: string, want: Claim)
    requires ValidParser(inp.parse) && ValidClaim(want) && HoldersOf(inp, want) != []
    requires Ordinary(inp) && PlannedService(inp, service)
    ensures Verdict(inp, service, want).outcome == Problem ==> SurelyBlocked(inp, service, want)
    ensures Verdict(inp, service, want).outcome == NoProblem ==>
              (SurelyBlocked(inp, service, want) <==> StraySocketHolds(inp, service, want))
  {
    hide SurelyBlocked;
    hide HoldersOf;
    hide MustMeet;
    hide MayMeet;
    BlockedByOneClaim(inp, service, want);
    VerdictExactly(inp, service, want);
    OrdinaryStarts(inp, service);
    OrdinaryLeavesWhatItSays(inp, service, want);
  }

  lemma OrdinaryStarts(inp: Input, service: string)
    requires Ordinary(inp) && PlannedService(inp, service)
    ensures SurelyStarts(inp, service)
    ensures forall c :: c in inp.containers ==> (SurelyInTheWay(inp, service, c) <==> !Released(inp, c))
  {
    forall c | c in inp.containers
      ensures OwnOf(inp, service, c) ==> Released(inp, c)
      ensures FateOf(inp, c) == Goes ==> Released(inp, c)
    {
      ReleasedIsRightExactlyWhen(inp, c);
    }
  }

  lemma OrdinaryLeavesWhatItSays(inp: Input, service: string, want: Claim)
    requires ValidParser(inp.parse) && ValidClaim(want) && Ordinary(inp) && PlannedService(inp, service)
    ensures (exists k :: SurelyLeft(inp, service, k) && MustMeet(inp.stack, want, k)) <==>
            ForeignHolds(inp, want) || StraySocketHolds(inp, service, want)
    ensures SocketHolds(inp, want) && !ReleasedMayHold(inp, want) && EngineListed(inp, CONTAINERS) ==>
              StraySocketHolds(inp, service, want)
  {
    hide MustMeet;
    hide MayMeet;
    hide Released;
    hide FateOf;
    OrdinaryStarts(inp, service);
    if c :| c in inp.containers && !Released(inp, c) && ContainerMust(inp, want, c) {
      var k :| k in ClaimsOf(c.ports, inp.parse) && MustMeet(inp.stack, want, k);
      assert SurelyLeft(inp, service, k);
    }
    if s :| SurelyStray(inp, service, s) && SocketMust(inp, want, s) {
      assert SurelyLeft(inp, service, ClaimFromSocket(s, inp.parse));
    }
    if SocketHolds(inp, want) && !ReleasedMayHold(inp, want) && EngineListed(inp, CONTAINERS) {
      var s :| s in inp.sockets && SocketMust(inp, want, s);
      forall c ensures !MayTake(inp, service, c, s) {
        if MayTake(inp, service, c, s) {
          assert Released(inp, c) && Publishes(inp, c, s);
          PublishedSocketMeansContainer(inp, want, c, s);
        }
      }
      assert SurelyStray(inp, service, s);
    }
  }

  // ---------------------------------------------------- where the rule and the run part

  /** An address as it is written when nothing is put around it. */
  predicate IsBareAddress(a: string) {
    a != "" && Trimmed(a) && !IsBracket(a[0]) && !IsBracket(a[|a| - 1])
  }

  lemma BareAddressIsKept(a: string)
    requires IsBareAddress(a)
    ensures TrimBrackets(TrimSpace(a)) == a
  {
    TrimmedIsKept(a);
  }

  /** One port, on every address or on the one named. */
  function OnePort(address: string, port: int): PortMapping { PortMapping(address, port, port, 80, 0, "tcp") }

  function Everywhere(port: int): Claim { Claim("tcp", port, "", None, false, true, "") }

  lemma EverywhereIs(port: int, parse: AddressParser)
    ensures ClaimFromMapping(OnePort("", port), port, parse) == Everywhere(port)
    ensures Observable(BaseProtocol("tcp")) && BaseProtocol("tcp") == "tcp"
  {
    FamilySuffixIsIgnored("tcp");
    TrimmedIsKept("");
  }

  lemma OnePortClaims(m: PortMapping, parse: AddressParser)
    requires m.hostPort == m.hostPortEnd >= 1
    ensures ClaimsOf([m], parse) == [ClaimFromMapping(m, m.hostPort, parse)]
  {
    var ports := m.HostPorts();
    assert ports == [m.hostPort] && ports[..0] == [];
    assert MappingClaims(m, ports, parse) == MappingClaims(m, [], parse) + [ClaimFromMapping(m, m.hostPort, parse)];
    assert [m][..0] == [];
    assert ClaimsOf([m], parse) == ClaimsOf([], parse) + MappingClaims(m, ports, parse);
  }

  /** The container publishes the port on one IPv4 address of the host. */
  ghost predicate HasOneAddress(inp: Input, c: Container, home: string, port: int) {
    && IsBareAddress(home) && port >= 1
    && inp.parse(home).Some? && inp.parse(home).value.v4 && inp.parse(home).value.value > 0
    && c.ports == [OnePort(home, port)]
  }

  lemma OneAddressHolds(inp: Input, c: Container, home: string, port: int)
    requires ValidParser(inp.parse) && HasOneAddress(inp, c, home, port)
    ensures ClaimsOf(c.ports, inp.parse) == [Claim("tcp", port, home, inp.parse(home), false, true, "")]
    ensures ContainerMust(inp, Everywhere(port), c) && ContainerMay(inp, Everywhere(port), c)
  {
    var want, held := Everywhere(port), ClaimFromMapping(c.ports[0], port, inp.parse);
    EverywhereIs(port, inp.parse);
    BareAddressIsKept(home);
    OnePortClaims(c.ports[0], inp.parse);
    assert held == Claim("tcp", port, home, inp.parse(home), false, true, "");
    CollidesExactly(inp.stack, want, held);
    assert held in ClaimsOf(c.ports, inp.parse);
  }

  /** What the finding says of a port wanted on every address. */
  ghost predicate Answered(inp: Input, service: string, port: int, outcome: Outcome) {
    FixedFinding(inp, service, OnePort("", port), port).Some? &&
    FixedFinding(inp, service, OnePort("", port), port).value.outcome == outcome
  }

  lemma AnsweredExactly(inp: Input, service: string, port: int)
    requires ValidParser(inp.parse) && AnythingMayHold(inp, Everywhere(port))
    ensures HoldersOf(inp, Everywhere(port)) != []
    ensures Answered(inp, service, port, Verdict(inp, service, Everywhere(port)).outcome)
    ensures Answered(inp, service, port, Problem) <==> CertainlyTaken(inp, Everywhere(port))
    ensures Answered(inp, service, port, NoProblem) <==>
            ReleasedMayHold(inp, Everywhere(port)) && !ForeignHolds(inp, Everywhere(port))
    ensures Answered(inp, service, port, NoProblem) <==> PortState(inp, OnePort("", port), port) == Free
  {
    hide HoldersOf;
    hide CertainlyTaken;
    hide ReleasedMayHold;
    hide ForeignHolds;
    EverywhereIs(port, inp.parse);
    SilentExactlyWhen(inp, Everywhere(port));
    VerdictExactly(inp, service, Everywhere(port));
    StateAgreesWithFinding(inp, service, OnePort("", port), port);
  }

  lemma NothingSurelyLeft(inp: Input, service: string, want: Claim)
    requires forall c :: !SurelyInTheWay(inp, service, c)
    requires forall s :: !SurelyStray(inp, service, s)
    ensures !SurelyBlocked(inp, service, want)
  {
    hide MustMeet;
    hide SurelyInTheWay;
    hide SurelyStray;
    BlockedByOneClaim(inp, service, want);
  }

  /** A socket on one address, or on the IPv4 wildcard, has the port of every address. */
  lemma IPv4SocketHolds(inp: Input, s: Socket, address: string, port: int)
    requires ValidParser(inp.parse) && IsBareAddress(address) && address != "*"
    requires inp.parse(address).Some? && inp.parse(address).value.v4 && s == Socket("tcp", address, port, "")
    ensures ClaimFromSocket(s, inp.parse) == Claim("tcp", port, address, inp.parse(address), false, true, "")
    ensures SocketMust(inp, Everywhere(port), s) && SocketMay(inp, Everywhere(port), s)
  {
    EverywhereIs(port, inp.parse);
    BareAddressIsKept(address);
    assert ClaimFromSocket(s, inp.parse) == Claim("tcp", port, address, inp.parse(address), false, true, "");
    CollidesExactly(inp.stack, Everywhere(port), ClaimFromSocket(s, inp.parse));
  }

  /** One container, certainly on the port: a blocker unless it is released. */
  lemma OneContainerIsAnswered(inp: Input, service: string, c: Container, home: string, port: int)
    requires ValidParser(inp.parse) && inp.containers == [c] && HasOneAddress(inp, c, home, port)
    requires Released(inp, c) || inp.sockets == []
    ensures Answered(inp, service, port, if Released(inp, c) then NoProblem else Problem)
    ensures Answered(inp, service, port, NoProblem) <==> PortState(inp, OnePort("", port), port) == Free
  {
    hide Answered;
    hide PortState;
    hide Released;
    hide ContainerMust;
    hide ContainerMay;
    hide HasOneAddress;
    OneAddressHolds(inp, c, home, port);
    assert c in inp.containers;
    AnsweredExactly(inp, service, port);
  }

  lemma NothingMayBeLeft(inp: Input, service: string, want: Claim)
    requires ValidParser(inp.parse) && ValidClaim(want)
    requires forall c :: !MayBeInTheWay(inp, service, c)
    requires forall other :: !MayBeAhead(inp, service, other)
    requires inp.sockets == []
    ensures !MayBeBlocked(inp, service, want)
  {
    hide MayMeet;
    hide MayBeInTheWay;
    hide MayBeAhead;
    MayBeBlockedByOneClaim(inp, service, want);
  }

  /** A container that is not released and no longer up: a blocker, and nothing is on the
      port but what the run itself may put there first. */
  lemma ExitedContainerBlocks(inp: Input, service: string, c: Container, home: string, port: int)
    requires ValidParser(inp.parse) && inp.containers == [c] && inp.sockets == []
    requires HasOneAddress(inp, c, home, port) && !Released(inp, c) && FateOf(inp, c) == Remains && c.state == "exited"
    ensures Answered(inp, service, port, Problem) && !SurelyBlocked(inp, service, Everywhere(port))
    ensures (forall other :: other in inp.services ==> other.name == service) ==>
              !MayBeBlocked(inp, service, Everywhere(port))
  {
    hide SurelyBlocked;
    hide MayBeBlocked;
    hide Answered;
    hide HasOneAddress;
    hide Released;
    OneContainerIsAnswered(inp, service, c, home, port);
    NothingSurelyLeft(inp, service, Everywhere(port));
    if forall other :: other in inp.services ==> other.name == service {
      NothingMayBeLeft(inp, service, Everywhere(port));
    }
  }

  lemma OneSocketIsAnswered(inp: Input, service: string, c: Container, any4: string, port: int)
    requires ValidParser(inp.parse) && EngineListed(inp, CONTAINERS)
    requires IsBareAddress(any4) && any4 != "*" && inp.parse(any4) == Some(IP(true, 0))
    requires inp.containers == [c] && c.ports == [] && inp.sockets == [Socket("tcp", any4, port, "")]
    ensures Answered(inp, service, port, Problem)
  {
    hide SocketMust;
    hide SocketMay;
    hide Answered;
    hide Released;
    hide IsBareAddress;
    var want, s := Everywhere(port), inp.sockets[0];
    IPv4SocketHolds(inp, s, any4, port);
    assert s in inp.sockets;
    assert ClaimsOf(c.ports, inp.parse) == [];
    assert !ReleasedMayHold(inp, want) && SocketHolds(inp, want);
    AnsweredExactly(inp, service, port);
  }

  /** A predecessor on the host's network, which publishes nothing: its own socket is a
      blocker, and goes with it if it is its own. */
  lemma HostPredecessorBlocks(inp: Input, service: string, c: Container, any4: string, port: int)
    requires ValidParser(inp.parse) && EngineListed(inp, CONTAINERS)
    requires IsBareAddress(any4) && any4 != "*" && inp.parse(any4) == Some(IP(true, 0))
    requires inp.containers == [c] && c.ports == [] && FateOf(inp, c) == Goes && IsUp(c) && "host" in c.networks
    requires inp.sockets == [Socket("tcp", any4, port, "")]
    ensures Answered(inp, service, port, Problem) && !SurelyBlocked(inp, service, Everywhere(port))
  {
    hide SurelyBlocked;
    hide Answered;
    hide FateOf;
    hide OwnOf;
    hide Publishes;
    hide IsBareAddress;
    OneSocketIsAnswered(inp, service, c, any4, port);
    assert c in inp.containers && MayTake(inp, service, c, inp.sockets[0]);
    NothingSurelyLeft(inp, service, Everywhere(port));
  }

  lemma UnlabelledIsUndecided(inp: Input, c: Container)
    requires OwnerOf(inp, c).kind == Unlabelled
    ensures !Released(inp, c) && FateOf(inp, c) == Undecided
  {}

  /** A container without labels may be this service's own: a blocker all the same. */
  lemma UnlabelledContainerBlocks(inp: Input, service: string, c: Container, home: string, port: int)
    requires ValidParser(inp.parse) && inp.containers == [c] && inp.sockets == []
    requires HasOneAddress(inp, c, home, port) && OwnerOf(inp, c).kind == Unlabelled
    ensures Answered(inp, service, port, Problem) && !SurelyBlocked(inp, service, Everywhere(port))
  {
    hide SurelyBlocked;
    hide Answered;
    hide HasOneAddress;
    hide OwnerOf;
    hide Released;
    hide FateOf;
    hide OwnOf;
    UnlabelledIsUndecided(inp, c);
    OneContainerIsAnswered(inp, service, c, home, port);
    NothingSurelyLeft(inp, service, Everywhere(port));
  }

  /** A service whose running container the run keeps binds nothing new: whatever the plan
      now asks for, a blocker on it is false. */
  lemma KeptServiceBlocks(inp: Input, service: string, own: Container, other: Container, home: string, port: int)
    requires ValidParser(inp.parse) && own in inp.containers && other in inp.containers
    requires OwnOf(inp, service, own) && FateOf(inp, own) == Remains && IsUp(own)
    requires HasOneAddress(inp, other, home, port) && !Released(inp, other)
    ensures Answered(inp, service, port, Problem) && !MayBeBlocked(inp, service, Everywhere(port))
  {
    hide MayBeBlocked;
    OneAddressHolds(inp, other, home, port);
    AnsweredExactly(inp, service, port);
    MayBeBlockedExactly(inp, service, Everywhere(port));
  }

  /** A released container that surely stays: cleared, and the binding of every service but
      its own fails. */
  lemma ReleasedButKept(inp: Input, service: string, c: Container, home: string, port: int)
    requires EngineListed(inp, CONTAINERS)
    requires ValidParser(inp.parse) && inp.containers == [c] && HasOneAddress(inp, c, home, port)
    requires Released(inp, c) && FateOf(inp, c) == Remains && IsUp(c) && c.service != service
    ensures Answered(inp, service, port, NoProblem) && PortState(inp, OnePort("", port), port) == Free
    ensures SurelyBlocked(inp, service, Everywhere(port)) && !MayBeBlocked(inp, c.service, Everywhere(port))
  {
    hide SurelyBlocked;
    hide MayBeBlocked;
    hide Answered;
    hide PortState;
    hide HasOneAddress;
    hide FateOf;
    hide Released;
    OneContainerIsAnswered(inp, service, c, home, port);
    ReleasedExactlyWhen(inp, c);
    KeptNeighbourHolds(inp, service, c, home, port);
    MayBeBlockedByOneClaim(inp, c.service, Everywhere(port));
    assert c in inp.containers && !MayStart(inp, c.service);
  }

  /** A container that goes, or of another service, keeps no service from being started. */
  lemma AloneStarts(inp: Input, service: string, c: Container)
    requires EngineListed(inp, CONTAINERS) && inp.containers == [c]
    requires FateOf(inp, c) == Goes || (FateOf(inp, c) == Remains && c.service != service)
    ensures SurelyStarts(inp, service)
  {
    hide FateOf;
  }

  lemma KeptNeighbourHolds(inp: Input, service: string, c: Container, home: string, port: int)
    requires EngineListed(inp, CONTAINERS)
    requires ValidParser(inp.parse) && inp.containers == [c] && HasOneAddress(inp, c, home, port)
    requires FateOf(inp, c) == Remains && IsUp(c) && c.service != service
    ensures SurelyBlocked(inp, service, Everywhere(port))
  {
    hide SurelyBlocked;
    hide MustMeet;
    hide HasOneAddress;
    hide FateOf;
    hide SurelyStarts;
    hide EngineListed;
    var want := Everywhere(port);
    AloneStarts(inp, service, c);
    OneAddressHolds(inp, c, home, port);
    var k :| k in ClaimsOf(c.ports, inp.parse) && MustMeet(inp.stack, want, k);
    assert c in inp.containers && SurelyInTheWay(inp, service, c) && SurelyLeft(inp, service, k);
    BlockedByOneClaim(inp, service, want);
  }

  /** With --no-recreate the container of one planned service keeps the port the plan now
      gives to another. */
  lemma KeptNeighbourIsCleared(inp: Input, service: string, c: Container, home: string, port: int)
    requires EngineListed(inp, CONTAINERS)
    requires ValidParser(inp.parse) && inp.containers == [c] && HasOneAddress(inp, c, home, port) && IsUp(c)
    requires inp.plan.Some? && inp.plan.value.noRecreate && !inp.plan.value.forceRecreate
    requires SameProject(inp, c.project) && !c.oneOff && c.service != "" && PlannedService(inp, c.service)
    requires c.service != service
    ensures Answered(inp, service, port, NoProblem) && PortState(inp, OnePort("", port), port) == Free
    ensures SurelyBlocked(inp, service, Everywhere(port)) && !MayBeBlocked(inp, c.service, Everywhere(port))
  {
    ReleasedButKept(inp, service, c, home, port);
  }

  /** An orphan from another checkout, nobody asked to remove it: cleared, and it stays, as
      the same orphan of this checkout does, which is no released container. */
  lemma OrphanElsewhereIsCleared(inp: Input, service: string, c: Container, home: string, port: int)
    requires EngineListed(inp, CONTAINERS)
    requires ValidParser(inp.parse) && inp.containers == [c] && HasOneAddress(inp, c, home, port) && IsUp(c)
    requires SameProject(inp, c.project) && !c.oneOff && DifferentDirectory(inp, c.workingDir)
    requires !PlannedService(inp, c.service) && !RemovesOrphans(inp) && PlannedService(inp, service)
    ensures Answered(inp, service, port, NoProblem) && PortState(inp, OnePort("", port), port) == Free
    ensures SurelyBlocked(inp, service, Everywhere(port))
    ensures !Released(inp, c.(workingDir := PlanDirectory(inp)))
  {
    ReleasedButKept(inp, service, c, home, port);
  }

  /** The plan publishes a port on every address, the previous container has it on one and
      another process listens on a second: "nothing is blocked", and the binding fails. */
  lemma StrayBesideOwnIsCleared(inp: Input, service: string, c: Container, home: string, lan: string, port: int)
    requires ValidParser(inp.parse) && EngineListed(inp, CONTAINERS)
    requires inp.containers == [c] && HasOneAddress(inp, c, home, port)
    requires Released(inp, c) && FateOf(inp, c) == Goes && !MayShareHost(c)
    requires IsBareAddress(lan) && lan != "*" && inp.parse(lan).Some? && inp.parse(lan).value.v4
    requires inp.parse(lan).value.value > 0 && inp.parse(lan) != inp.parse(home)
    requires inp.sockets == [Socket("tcp", lan, port, "")]
    ensures Answered(inp, service, port, NoProblem) && PortState(inp, OnePort("", port), port) == Free
    ensures SurelyBlocked(inp, service, Everywhere(port))
  {
    hide SurelyBlocked;
    hide MustMeet;
    hide Answered;
    hide PortState;
    hide FateOf;
    hide Released;
    hide OwnOf;
    hide MayShareHost;
    var s := inp.sockets[0];
    IPv4SocketHolds(inp, s, lan, port);
    NotPublished(inp, c, s, home, port);
    OneContainerIsAnswered(inp, service, c, home, port);
    AloneStarts(inp, service, c);
    assert s in inp.sockets && SurelyStray(inp, service, s) && SurelyLeft(inp, service, ClaimFromSocket(s, inp.parse));
    BlockedByOneClaim(inp, service, Everywhere(port));
  }

  lemma NotPublished(inp: Input, c: Container, s: Socket, home: string, port: int)
    requires ValidParser(inp.parse) && HasOneAddress(inp, c, home, port)
    requires var k := ClaimFromSocket(s, inp.parse); !k.anyAddr && k.ip != inp.parse(home)
    ensures !Publishes(inp, c, s)
  {
    OneAddressHolds(inp, c, home, port);
  }

  /** The rule never holds the plan against itself: on an empty host, two services that
      publish one port are both free to have it, and either may come second. */
  lemma PlanAgainstItselfIsFree(inp: Input, a: Service, b: Service, port: int)
    requires ValidParser(inp.parse) && inp.containers == [] && inp.sockets == [] && !inp.portsUnchecked && port >= 1
    requires inp.services == [a, b] && a.name != b.name && a.networkMode != "host" && b.networkMode != "host"
    requires a.ports == [OnePort("", port)] && b.ports == [OnePort("", port)]
    ensures forall s :: s in inp.services ==>
              && FixedFinding(inp, s.name, OnePort("", port), port).None?
              && PortState(inp, OnePort("", port), port) == Free
              && MayBeBlocked(inp, s.name, Everywhere(port))
  {
    hide MayBeBlocked;
    hide MayMeet;
    var want := Everywhere(port);
    EverywhereIs(port, inp.parse);
    OnePortClaims(OnePort("", port), inp.parse);
    CollidesExactly(inp.stack, want, want);
    assert inp.services[0] == a && inp.services[1] == b;
    assert MayBeAhead(inp, a.name, b) && MayBeAhead(inp, b.name, a) && want in ClaimsOf(a.ports, inp.parse);
    MayBeBlockedExactly(inp, a.name, want);
    MayBeBlockedExactly(inp, b.name, want);
  }
}
