/**
 The blocker on a host-network service, held against the same worlds: hostNetworkPorts of
 app/witness/conflicts.rules.go. The application binds an address of its own choosing, and
 the blocker says that the port is taken whichever it is.
 */
module HostWorlds {
  import opened Text
  import opened PortSpec
  import opened PortMatch
  import opened Findings
  import opened Ownership
  import opened PortRules
  import opened PortConflicts
  import opened PortWorlds

  /** An address the application may choose to bind: one the host can have. */
  ghost predicate IsChoice(n: Net, a: IP) { ValidIP(a) && a.value != 0 && (a.v4 || n.ipv6) }

  ghost predicate HeldIn(inp: Input, service: string, d: Declared, w: World, a: IP) {
    exists k :: IsLeft(inp, service, w.run, k) && SameBinding(HostClaim(d), k) && HoldsIn(w.net, k, a)
  }

  /** The sentence, of what is left after the run's stops. */
  ghost predicate TakenWhateverAddress(inp: Input, service: string, d: Declared) {
    forall w, a :: Possible(w, inp, HostClaim(d)) && IsChoice(w.net, a) ==> HeldIn(inp, service, d, w, a)
  }

  /** And its consequence: the application starts, and fails to bind. */
  ghost predicate SurelyFails(inp: Input, service: string, d: Declared) {
    forall w, a :: Possible(w, inp, HostClaim(d)) && IsChoice(w.net, a) ==>
      Starts(inp, service, w.run) && HeldIn(inp, service, d, w, a)
  }

  predicate OnEveryIPv4(c: Claim) {
    c.readable &&
    (c.anyAddr || c.address == "" || c.ip == Some(IP(true, 0)) || (c.ip == Some(IP(false, 0)) && c.v6only == "no"))
  }

  predicate OnEveryIPv6(c: Claim) { c.readable && (c.anyAddr || c.address == "" || c.ip == Some(IP(false, 0))) }

  predicate IsOn(c: Claim, a: IP) { c.readable && !c.anyAddr && c.address != "" && c.ip == Some(a) }

  /** A claim that surely is left on the port. */
  ghost predicate LeftOn(inp: Input, service: string, d: Declared, k: Claim) {
    SurelyLeft(inp, service, k) && SameBinding(HostClaim(d), k)
  }

  ghost predicate Some4(inp: Input, service: string, d: Declared) {
    exists k :: LeftOn(inp, service, d, k) && OnEveryIPv4(k)
  }

  ghost predicate Some6(inp: Input, service: string, d: Declared) {
    exists k :: LeftOn(inp, service, d, k) && OnEveryIPv6(k)
  }

  ghost predicate IsNamed(inp: Input, service: string, d: Declared, a: IP) {
    exists k :: LeftOn(inp, service, d, k) && IsOn(k, a)
  }

  /** The claims name every single address of the family. */
  ghost predicate NamesEvery(inp: Input, service: string, d: Declared, v4: bool) {
    forall a :: ValidIP(a) && a.v4 == v4 && a.value != 0 ==> IsNamed(inp, service, d, a)
  }

  /** The address is held whatever was not read of the network. */
  predicate SurelyOn(c: Claim, a: IP) { (if a.v4 then OnEveryIPv4(c) else OnEveryIPv6(c)) || IsOn(c, a) }

  lemma SurelyOnInEveryNet(n: Net, st: Stack, want: Claim, k: Claim, a: IP)
    requires IsNet(n, st, want) && IsChoice(n, a) && ValidClaim(k) && SurelyOn(k, a)
    ensures HoldsIn(n, k, a)
  {}

  /** The network in which claims hold the fewest addresses and the application has the
      most to choose from. */
  ghost function WorstNet(st: Stack): Net {
    Net(st.ipv6 != "disabled", true, (c: Claim) => c.v6only != "no", (c: Claim, a: IP) => false)
  }

  lemma HeldInTheWorst(st: Stack, k: Claim, a: IP)
    requires a.value != 0 && ValidClaim(k) && HoldsIn(WorstNet(st), k, a)
    ensures SurelyOn(k, a)
  {}

  ghost predicate SurelyHeld(inp: Input, service: string, d: Declared, a: IP) {
    exists k :: LeftOn(inp, service, d, k) && SurelyOn(k, a)
  }

  lemma LeftClaimsAreValid(inp: Input, service: string, k: Claim)
    requires ValidParser(inp.parse) && SurelyLeft(inp, service, k)
    ensures ValidClaim(k)
  {
    if c :| SurelyInTheWay(inp, service, c) && k in ClaimsOf(c.ports, inp.parse) {
      ClaimsOfAreValid(c.ports, inp.parse);
    }
  }

  lemma HeldInWorstWorld(inp: Input, service: string, d: Declared, a: IP)
    requires ValidParser(inp.parse) && a.value != 0
    requires HeldIn(inp, service, d, World(WorstNet(inp.stack), LeastRun(inp, service)), a)
    ensures SurelyHeld(inp, service, d, a)
  {
    hide IsLeft;
    hide SurelyLeft;
    hide LeastRun;
    hide WorstNet;
    LeastIsCertain(inp, service);
    var k :| IsLeft(inp, service, LeastRun(inp, service), k) && SameBinding(HostClaim(d), k) &&
             HoldsIn(WorstNet(inp.stack), k, a);
    LeftClaimsAreValid(inp, service, k);
    HeldInTheWorst(inp.stack, k, a);
    assert LeftOn(inp, service, d, k);
  }

  lemma SurelyHeldIsHeld(inp: Input, service: string, d: Declared, w: World, a: IP)
    requires ValidParser(inp.parse) && Possible(w, inp, HostClaim(d)) && IsChoice(w.net, a)
    requires SurelyHeld(inp, service, d, a)
    ensures HeldIn(inp, service, d, w, a)
  {
    hide IsLeft;
    hide SurelyLeft;
    hide IsRun;
    hide HoldsIn;
    hide SurelyOn;
    var k :| LeftOn(inp, service, d, k) && SurelyOn(k, a);
    LeftClaimsAreValid(inp, service, k);
    CertainInEveryRun(inp, service, w.run);
    SurelyOnInEveryNet(w.net, inp.stack, HostClaim(d), k, a);
  }

  lemma TakenIsSurelyHeld(inp: Input, service: string, d: Declared)
    requires ValidParser(inp.parse)
    ensures TakenWhateverAddress(inp, service, d) <==>
            forall a :: IsChoice(WorstNet(inp.stack), a) ==> SurelyHeld(inp, service, d, a)
  {
    hide HeldIn;
    hide SurelyHeld;
    hide IsRun;
    hide LeastRun;
    var worst := World(WorstNet(inp.stack), LeastRun(inp, service));
    LeastIsCertain(inp, service);
    assert Possible(worst, inp, HostClaim(d));
    forall a: IP | a.value != 0 && HeldIn(inp, service, d, worst, a) ensures SurelyHeld(inp, service, d, a) {
      HeldInWorstWorld(inp, service, d, a);
    }
    forall w, a | Possible(w, inp, HostClaim(d)) && IsChoice(w.net, a) && SurelyHeld(inp, service, d, a)
      ensures HeldIn(inp, service, d, w, a)
    {
      SurelyHeldIsHeld(inp, service, d, w, a);
    }
    forall w, a | Possible(w, inp, HostClaim(d)) && IsChoice(w.net, a) ensures IsChoice(worst.net, a) {}
  }

  /** The sentence holds exactly when each family the host may have is covered by what
      surely is left: by a wildcard certainly on it or by claims on every one of its
      addresses. */
  lemma HostSentenceExactly(inp: Input, service: string, d: Declared)
    requires ValidParser(inp.parse)
    ensures TakenWhateverAddress(inp, service, d) <==>
            (Some4(inp, service, d) || NamesEvery(inp, service, d, true)) &&
            (inp.stack.ipv6 == "disabled" || Some6(inp, service, d) || NamesEvery(inp, service, d, false))
  {
    hide TakenWhateverAddress;
    hide LeftOn;
    hide OnEveryIPv4;
    hide OnEveryIPv6;
    hide IsOn;
    var worst := WorstNet(inp.stack);
    TakenIsSurelyHeld(inp, service, d);
    forall a ensures SurelyHeld(inp, service, d, a) <==>
                     (if a.v4 then Some4(inp, service, d) else Some6(inp, service, d)) || IsNamed(inp, service, d, a)
    {}
    assert forall a :: IsChoice(worst, a) <==> ValidIP(a) && a.value != 0 && (a.v4 || inp.stack.ipv6 != "disabled");
  }

  // -------------------------------------------------------------- with fewer claims

  function ContainersClaims(cs: seq<Container>, parse: AddressParser): seq<Claim> {
    if cs == [] then [] else ClaimsOf(cs[0].ports, parse) + ContainersClaims(cs[1..], parse)
  }

  function SocketsClaims(ss: seq<Socket>, parse: AddressParser): seq<Claim> {
    seq(|ss|, i requires 0 <= i < |ss| => ClaimFromSocket(ss[i], parse))
  }

  /** Everything on the host that claims a port. */
  function ClaimsOn(inp: Input): seq<Claim> {
    ContainersClaims(inp.containers, inp.parse) + SocketsClaims(inp.sockets, inp.parse)
  }

  lemma {:induction false} ContainersClaimsAre(cs: seq<Container>, parse: AddressParser, c: Container, k: Claim)
    requires c in cs && k in ClaimsOf(c.ports, parse)
    ensures k in ContainersClaims(cs, parse)
  {
    hide ClaimsOf;
    if c != cs[0] { ContainersClaimsAre(cs[1..], parse, c, k); }
  }

  lemma LeftIsOnTheHost(inp: Input, service: string, k: Claim)
    requires SurelyLeft(inp, service, k)
    ensures k in ClaimsOn(inp)
  {
    if c :| SurelyInTheWay(inp, service, c) && k in ClaimsOf(c.ports, inp.parse) {
      ContainersClaimsAre(inp.containers, inp.parse, c, k);
    } else {
      var s :| SurelyStray(inp, service, s) && k == ClaimFromSocket(s, inp.parse);
      var i :| 0 <= i < |inp.sockets| && inp.sockets[i] == s;
      assert SocketsClaims(inp.sockets, inp.parse)[i] == k;
    }
  }

  ghost predicate NamedBy(ks: seq<Claim>, a: IP) { exists k :: k in ks && IsOn(k, a) }

  /** One claim names one address, so naming many takes as many claims. */
  lemma {:induction false} NamingTakesClaims(ks: seq<Claim>, v4: bool, n: nat)
    requires forall v :: 1 <= v <= n ==> NamedBy(ks, IP(v4, v))
    ensures |ks| >= n
    decreases n
  {
    if n > 0 {
      assert NamedBy(ks, IP(v4, n));
      var i :| 0 <= i < |ks| && IsOn(ks[i], IP(v4, n));
      var others := ks[..i] + ks[i + 1..];
      forall v | 1 <= v <= n - 1 ensures NamedBy(others, IP(v4, v)) {
        assert NamedBy(ks, IP(v4, v));
        var j :| 0 <= j < |ks| && IsOn(ks[j], IP(v4, v));
        assert others[if j < i then j else j - 1] == ks[j];
      }
      NamingTakesClaims(others, v4, n - 1);
    }
  }

  lemma FewClaimsNameNoFamily(inp: Input, service: string, d: Declared, v4: bool)
    requires |ClaimsOn(inp)| < 0xFFFF_FFFF
    ensures !NamesEvery(inp, service, d, v4)
  {
    hide SurelyLeft;
    hide ClaimsOn;
    hide IsOn;
    if NamesEvery(inp, service, d, v4) {
      forall v | 1 <= v <= 0xFFFF_FFFF ensures NamedBy(ClaimsOn(inp), IP(v4, v)) {
        assert ValidIP(IP(v4, v)) && IsNamed(inp, service, d, IP(v4, v));
        var k :| LeftOn(inp, service, d, k) && IsOn(k, IP(v4, v));
        LeftIsOnTheHost(inp, service, k);
      }
      NamingTakesClaims(ClaimsOn(inp), v4, 0xFFFF_FFFF);
    }
  }

  lemma FailsWhenTaken(inp: Input, service: string, d: Declared)
    ensures SurelyFails(inp, service, d) <==> SurelyStarts(inp, service) && TakenWhateverAddress(inp, service, d)
  {
    hide HeldIn;
    hide IsRun;
    hide Starts;
    hide SurelyStarts;
    LeastIsCertain(inp, service);
    var least := World(LeastNet(inp.stack, HostClaim(d)), LeastRun(inp, service));
    assert Possible(least, inp, HostClaim(d)) && IsChoice(least.net, IP(true, 1));
    forall w | Possible(w, inp, HostClaim(d)) ensures SurelyStarts(inp, service) ==> Starts(inp, service, w.run) {
      CertainInEveryRun(inp, service, w.run);
    }
  }

  /** The host-network blocker is right, whatever was not read, exactly when the run surely
      starts the service and, of the claims that surely are left on the port, one is on all
      of IPv4 and one on all of IPv6, which a host without IPv6 does not need. */
  lemma HostBlockerIsRightExactlyWhen(inp: Input, service: string, d: Declared)
    requires ValidParser(inp.parse) && |ClaimsOn(inp)| < 0xFFFF_FFFF
    requires HostFinding(inp, service, d).Some? && HostFinding(inp, service, d).value.outcome == Problem
    ensures TakenWhateverAddress(inp, service, d) <==>
            Some4(inp, service, d) && (inp.stack.ipv6 == "disabled" || Some6(inp, service, d))
    ensures SurelyFails(inp, service, d) <==> SurelyStarts(inp, service) && TakenWhateverAddress(inp, service, d)
  {
    hide TakenWhateverAddress;
    hide SurelyFails;
    hide NamesEvery;
    HostSentenceExactly(inp, service, d);
    FewClaimsNameNoFamily(inp, service, d, true);
    FewClaimsNameNoFamily(inp, service, d, false);
    FailsWhenTaken(inp, service, d);
  }

  // ------------------------------------------------------------------ false blockers

  lemma OneHolder(inp: Input, want: Claim, s: Socket)
    requires inp.sockets == [s]
    ensures SocketHolders(inp, want, inp.sockets) ==
            if SocketOverlap(inp, want, s) == NoOverlap then [] else [SocketHolder(SocketOverlap(inp, want, s), s)]
  {
    hide SocketOverlap;
    assert inp.sockets[..0] == [];
    assert SocketHolders(inp, want, []) == [];
  }

  lemma OneWildcardBlocks(inp: Input, service: string, d: Declared, s: Socket)
    requires inp.sockets == [s] && PreviousOf(inp, service, inp.containers) == "" && Observable(d.protocol)
    requires SocketOverlap(inp, HostClaim(d), s) != NoOverlap && IsWildcard(ClaimFromSocket(s, inp.parse))
    ensures HostFinding(inp, service, d).Some? && HostFinding(inp, service, d).value.outcome == Problem
  {
    hide SocketOverlap;
    hide ClaimFromSocket;
    OneHolder(inp, HostClaim(d), s);
    var h := SocketHolder(SocketOverlap(inp, HostClaim(d), s), s);
    assert [h][0] == h;
  }

  lemma AloneOnTheHost(inp: Input, service: string, d: Declared, s: Socket)
    requires ValidParser(inp.parse) && inp.sockets == [s] && inp.containers == [] && EngineListed(inp, CONTAINERS)
    requires SameBinding(HostClaim(d), ClaimFromSocket(s, inp.parse))
    requires HostFinding(inp, service, d).Some? && HostFinding(inp, service, d).value.outcome == Problem
    ensures var k := ClaimFromSocket(s, inp.parse);
            TakenWhateverAddress(inp, service, d) <==>
              OnEveryIPv4(k) && (inp.stack.ipv6 == "disabled" || OnEveryIPv6(k))
  {
    hide TakenWhateverAddress;
    hide HostFinding;
    hide ClaimFromSocket;
    hide OnEveryIPv4;
    hide OnEveryIPv6;
    assert SurelyStray(inp, service, s);
    assert forall k :: SurelyLeft(inp, service, k) <==> k == ClaimFromSocket(s, inp.parse);
    HostBlockerIsRightExactlyWhen(inp, service, d);
  }

  /** The IPv4 wildcard alone blocks, and rightly so exactly on a host without IPv6. */
  lemma ZeroAddressAlone(inp: Input, service: string, port: int, any4: string)
    requires ValidParser(inp.parse) && EngineListed(inp, CONTAINERS)
    requires IsBareAddress(any4) && any4 != "*" && inp.parse(any4) == Some(IP(true, 0))
    requires inp.sockets == [Socket("tcp", any4, port, "")] && inp.containers == []
    ensures var d := Declared(port, "tcp");
            && HostFinding(inp, service, d).Some? && HostFinding(inp, service, d).value.outcome == Problem
            && (TakenWhateverAddress(inp, service, d) <==> inp.stack.ipv6 == "disabled")
  {
    hide TakenWhateverAddress;
    hide HostFinding;
    var s := inp.sockets[0];
    IPv4SocketHolds(inp, s, any4, port);
    SocketOverlapExactly(inp, Everywhere(port), s);
    OneWildcardBlocks(inp, service, Declared(port, "tcp"), s);
    AloneOnTheHost(inp, service, Declared(port, "tcp"), s);
  }

  /** An IPv6-only wildcard on a host whose IPv6 was not read: the overlap is no more than
      possible, the finding a blocker, and its sentence false. */
  lemma BlockerOnAPossibleOverlap(inp: Input, service: string, port: int, any6: string)
    requires ValidParser(inp.parse) && EngineListed(inp, CONTAINERS)
    requires IsBareAddress(any6) && any6 != "*" && inp.parse(any6) == Some(IP(false, 0))
    requires inp.sockets == [Socket("tcp6", any6, port, "yes")] && inp.containers == [] && inp.stack.ipv6 == ""
    ensures var d := Declared(port, "tcp");
            && SocketOverlap(inp, HostClaim(d), inp.sockets[0]) == MaybeOverlap
            && HostFinding(inp, service, d).Some? && HostFinding(inp, service, d).value.outcome == Problem
            && !TakenWhateverAddress(inp, service, d)
  {
    hide TakenWhateverAddress;
    hide HostFinding;
    FamilySuffixIsIgnored("tcp");
    assert "tcp" + "6" == "tcp6";
    BareAddressIsKept(any6);
    var s := inp.sockets[0];
    assert ClaimFromSocket(s, inp.parse) == Claim("tcp", port, any6, Some(IP(false, 0)), false, true, "yes");
    OneWildcardBlocks(inp, service, Declared(port, "tcp"), s);
    AloneOnTheHost(inp, service, Declared(port, "tcp"), s);
  }

  lemma ItsPublicationIsCleared(inp: Input, service: string, c: Container, port: int)
    requires ValidParser(inp.parse) && port >= 1
    requires inp.containers == [c] && c.ports == [OnePort("", port)] && FateOf(inp, c) == Goes
    ensures Everywhere(port) in ClaimsOf(c.ports, inp.parse) && Answered(inp, service, port, NoProblem)
  {
    hide Answered;
    hide MayMeet;
    hide FateOf;
    hide Released;
    var want := Everywhere(port);
    EverywhereIs(port, inp.parse);
    OnePortClaims(c.ports[0], inp.parse);
    CollidesExactly(inp.stack, want, want);
    ReleasedIsRightExactlyWhen(inp, c);
    assert c in inp.containers && ContainerMay(inp, want, c);
    assert ReleasedMayHold(inp, want) && !ForeignHolds(inp, want);
    AnsweredExactly(inp, service, port);
  }

  /** The service's turn comes before that of any other. */
  ghost predicate StartsFirst(w: World) { forall name :: !w.run.ahead(name) }

  lemma ItsSocketGoes(inp: Input, service: string, c: Container, s: Socket)
    requires inp.containers == [c] && FateOf(inp, c) == Goes && IsUp(c)
    requires inp.sockets == [s] && Publishes(inp, c, s)
    ensures forall w, want, k :: Possible(w, inp, want) && StartsFirst(w) ==> !IsLeft(inp, service, w.run, k)
  {
    hide FateOf;
    hide OwnOf;
    hide Publishes;
    assert c in inp.containers;
    forall w, want | Possible(w, inp, want) && StartsFirst(w)
      ensures forall k :: !IsLeft(inp, service, w.run, k)
    {
      assert Takes(inp, service, w.run, c, s);
    }
  }

  /** The socket of a container the run stops, which publishes the port for another
      service: a blocker, and nothing is left to hold any address unless the run itself binds
      one first. For a publication of the same port the rule says that nothing is blocked. */
  lemma StoppedContainerBlocks(inp: Input, service: string, c: Container, any4: string, port: int)
    requires ValidParser(inp.parse) && port >= 1
    requires IsBareAddress(any4) && any4 != "*" && inp.parse(any4) == Some(IP(true, 0))
    requires inp.containers == [c] && c.ports == [OnePort("", port)]
    requires FateOf(inp, c) == Goes && IsUp(c) && c.service != service
    requires inp.sockets == [Socket("tcp", any4, port, "")]
    ensures var d := Declared(port, "tcp");
            && HostFinding(inp, service, d).Some? && HostFinding(inp, service, d).value.outcome == Problem
            && (forall w, a :: Possible(w, inp, HostClaim(d)) && StartsFirst(w) ==> !HeldIn(inp, service, d, w, a))
            && Answered(inp, service, port, NoProblem)
  {
    hide HostFinding;
    hide Answered;
    hide FateOf;
    hide OwnOf;
    hide IsBareAddress;
    hide IsUp;
    hide IsLeft;
    var s := inp.sockets[0];
    IPv4SocketHolds(inp, s, any4, port);
    SocketOverlapExactly(inp, Everywhere(port), s);
    OneWildcardBlocks(inp, service, Declared(port, "tcp"), s);
    ItsPublicationIsCleared(inp, service, c, port);
    assert Publishes(inp, c, s);
    ItsSocketGoes(inp, service, c, s);
  }

  lemma NothingLeftOnTheHost(inp: Input, service: string, d: Declared)
    requires ValidParser(inp.parse)
    requires forall c :: !SurelyInTheWay(inp, service, c)
    requires forall s :: !SurelyStray(inp, service, s)
    ensures !TakenWhateverAddress(inp, service, d)
  {
    hide TakenWhateverAddress;
    hide SurelyInTheWay;
    hide SurelyStray;
    HostSentenceExactly(inp, service, d);
    assert !IsNamed(inp, service, d, IP(true, 1));
  }

  /** The service's own previous container on the host's network, deployed from another
      directory: Compose replaces it, the rule does not take it for a previous one, and its
      socket is a blocker. */
  lemma PreviousElsewhereBlocks(inp: Input, service: string, c: Container, any4: string, port: int)
    requires ValidParser(inp.parse)
    requires IsBareAddress(any4) && any4 != "*" && inp.parse(any4) == Some(IP(true, 0))
    requires inp.containers == [c] && IsUp(c) && "host" in c.networks
    requires OwnOf(inp, service, c) && FateOf(inp, c) == Goes && DifferentDirectory(inp, c.workingDir)
    requires inp.sockets == [Socket("tcp", any4, port, "")]
    ensures var d := Declared(port, "tcp");
            && HostFinding(inp, service, d).Some? && HostFinding(inp, service, d).value.outcome == Problem
            && !TakenWhateverAddress(inp, service, d)
  {
    hide TakenWhateverAddress;
    hide HostFinding;
    hide Publishes;
    var s := inp.sockets[0];
    IPv4SocketHolds(inp, s, any4, port);
    SocketOverlapExactly(inp, Everywhere(port), s);
    assert OwnerOf(inp, c).kind == OtherCheckout;
    assert inp.containers[1..] == [];
    OneWildcardBlocks(inp, service, Declared(port, "tcp"), s);
    assert c in inp.containers && MayTake(inp, service, c, s);
    NothingLeftOnTheHost(inp, service, Declared(port, "tcp"));
  }
}
