/**
 Whether two port bindings collide: app/witness/portmatch.go.

 Some host configuration is not read, so the answer has three values. A completion
 settles what is unknown: whether the host has IPv6, and whether each IPv6 wildcard
 socket is IPv6-only (IPV6_V6ONLY, section 5.3 of RFC 3493). In a completion every
 claim holds a definite set of addresses.
 */
module PortMatch {
  import opened Text
  import opened PortSpec

  /** An address: its family and its number. An IPv4-mapped IPv6 address is IPv4. */
  datatype IP = IP(v4: bool, value: nat)

  ghost predicate ValidIP(a: IP) {
    a.value < if a.v4 then 0x1_0000_0000 else 0x1_0000_0000_0000_0000_0000_0000_0000_0000
  }

  type AddressParser = string -> Option<IP>

  ghost predicate ValidParser(parse: AddressParser) {
    forall s :: parse(s).Some? ==> ValidIP(parse(s).value)
  }

  /** From the weakest answer to the strongest. */
  datatype Overlap = NoOverlap | MaybeOverlap | SureOverlap

  function Strength(o: Overlap): int {
    match o
    case NoOverlap => 0
    case MaybeOverlap => 1
    case SureOverlap => 2
  }

  datatype Claim = Claim(
    protocol: string,
    port: int,
    address: string,
    ip: Option<IP>,
    anyAddr: bool,
    readable: bool,
    v6only: string)

  datatype Stack = Stack(ipv6: string, bindV6Only: string)

  datatype Socket = Socket(protocol: string, address: string, port: int, v6only: string)

  // ----------------------------------------------------------- reading a claim

  function TrimSuffix6(p: string): string { if p != "" && p[|p| - 1] == '6' then p[..|p| - 1] else p }

  function BaseProtocol(protocol: string): string {
    var p := ToLower(TrimSpace(protocol));
    if p == "" then "tcp" else TrimSuffix6(p)
  }

  predicate Observable(protocol: string) { protocol == "tcp" || protocol == "udp" }

  function ClaimFromMapping(m: PortMapping, port: int, parse: AddressParser): Claim {
    var address := TrimBrackets(TrimSpace(m.hostIp));
    if address == "" then Claim(BaseProtocol(m.protocol), port, "", None, false, true, "")
    else Claim(BaseProtocol(m.protocol), port, address, parse(address), false, parse(address).Some?, "")
  }

  function ClaimFromSocket(s: Socket, parse: AddressParser): Claim {
    var address := TrimBrackets(TrimSpace(s.address));
    if address == "" || address == "*" then Claim(BaseProtocol(s.protocol), s.port, "*", None, true, true, s.v6only)
    else Claim(BaseProtocol(s.protocol), s.port, address, parse(address), false, parse(address).Some?, s.v6only)
  }

  /** An address is the same with and without brackets; the family suffix of the table a
      socket was read from is no part of its protocol. */
  lemma BracketsAreIgnored(m: PortMapping, port: int, address: string, parse: AddressParser)
    requires Trimmed(address) && address != "" && !IsBracket(address[0]) && !IsBracket(address[|address| - 1])
    ensures ClaimFromMapping(m.(hostIp := "[" + address + "]"), port, parse) ==
            ClaimFromMapping(m.(hostIp := address), port, parse)
    ensures ClaimFromMapping(m.(hostIp := address), port, parse).address == address
  {
    var s := "[" + address + "]";
    TrimmedIsKept(s);
    TrimmedIsKept(address);
    assert s[1..] == address + "]" && (address + "]")[..|address|] == address;
    assert (address + "]")[0] == address[0];
    assert TrimBrackets(address) == address;
    assert TrimBrackets(address + "]") == address;
  }

  lemma FamilySuffixIsIgnored(protocol: string)
    requires protocol == "tcp" || protocol == "udp"
    ensures BaseProtocol(protocol) == protocol && BaseProtocol(protocol + "6") == protocol
    ensures Observable(BaseProtocol(protocol + "6"))
  {
    var six := protocol + "6";
    TrimmedIsKept(protocol);
    TrimmedIsKept(six);
    assert ToLower(protocol) == protocol && ToLower(six) == six;
    assert six[..|protocol|] == protocol;
  }

  /** Without a protocol it is tcp; else the text in small letters without the spaces around
      it, and without a '6' (54) at its end. */
  lemma ProtocolIs(before: string, p: string, after: string)
    requires AllSpaces(before) && AllSpaces(after) && Trimmed(p)
    ensures BaseProtocol(before + p + after) ==
            if p == "" then "tcp"
            else if p[|p| - 1] as int == 54 then ToLower(p[..|p| - 1])
            else ToLower(p)
  {
    hide TrimSpace;
    TrimmingIs(before, p, after);
    if p != "" {
      ClassesAre(p[|p| - 1]);
      assert ToLower(p)[..|p| - 1] == ToLower(p[..|p| - 1]);
    }
  }

  /** What the two readers make of an address: one that is named is read, where it can be
      read; none is every address the host has; a socket on "*" is on every address. */
  lemma ClaimsAre(m: PortMapping, port: int, s: Socket, address: string, parse: AddressParser)
    requires Trimmed(address) && '[' !in address && ']' !in address
    ensures m.hostIp == address ==>
              ClaimFromMapping(m, port, parse) ==
              if address == "" then Claim(BaseProtocol(m.protocol), port, "", None, false, true, "")
              else Claim(BaseProtocol(m.protocol), port, address, parse(address), false, parse(address) != None, "")
    ensures s.address == address ==>
              ClaimFromSocket(s, parse) ==
              if address == "" || address == "*" then
                Claim(BaseProtocol(s.protocol), s.port, "*", None, true, true, s.v6only)
              else
                Claim(BaseProtocol(s.protocol), s.port, address, parse(address), false, parse(address) != None, s.v6only)
  {
    hide TrimSpace;
    hide BaseProtocol;
    TrimmedIsKept(address);
    BracketsAreTrimmed(address);
  }

  // ---------------------------------------------------------------- the verdict

  datatype Coverage = Nothing | MaybeAll | All | Specific(ip: IP)

  /** How much of one family, of IPv4 or of IPv6, a claim takes up. */
  function CoverageOf(c: Claim, v4: bool, st: Stack): Coverage {
    if c.anyAddr then All
    else if c.address == "" then
      if v4 then All
      else if st.ipv6 == "disabled" then Nothing
      else if st.ipv6 == "enabled" then All
      else MaybeAll
    else if c.ip.None? then Nothing
    else if c.ip.value.value == 0 then
      if c.ip.value.v4 then (if v4 then All else Nothing)
      else if v4 then
        if c.v6only == "no" then All else if c.v6only == "yes" then Nothing else MaybeAll
      else All
    else if c.ip.value.v4 == v4 then Specific(c.ip.value)
    else Nothing
  }

  function FamilyOverlap(st: Stack, want: Claim, held: Claim, v4: bool): Overlap {
    var w, h := CoverageOf(want, v4, st), CoverageOf(held, v4, st);
    if w.Nothing? || h.Nothing? then NoOverlap
    else if w.MaybeAll? || h.MaybeAll? then MaybeOverlap
    else if w.Specific? && h.Specific? && w.ip != h.ip then NoOverlap
    else SureOverlap
  }

  predicate SameBinding(want: Claim, held: Claim) { want.port == held.port && want.protocol == held.protocol }

  function Collides(st: Stack, want: Claim, held: Claim): Overlap {
    if !SameBinding(want, held) then NoOverlap
    else if !want.readable || !held.readable then MaybeOverlap
    else
      var a, b := FamilyOverlap(st, want, held, true), FamilyOverlap(st, want, held, false);
      if Strength(b) > Strength(a) then b else a
  }

  /** A binding at an address. */
  function At(protocol: string, port: int, address: string, ip: IP, v6only: string): Claim {
    Claim(protocol, port, address, Some(ip), false, true, v6only)
  }

  /** Pair by pair. Two addresses collide when they are equal; the IPv4 wildcard with every
      IPv4 address; the IPv6 wildcard with every IPv6 address, and with IPv4 unless it is
      IPv6-only, which may be unknown; no address with all IPv4 and, where the host has it,
      all IPv6. */
  lemma PairsCollide(st: Stack, protocol: string, port: int, a: string, x: IP, b: string, y: IP, v6only: string)
    requires a != "" && b != "" && x.value != 0 && y.value != 0
    ensures var held, zero := At(protocol, port, b, y, v6only), At(protocol, port, b, IP(true, 0), "");
            var zero6 := At(protocol, port, b, IP(false, 0), v6only);
            var maybe := if v6only == "no" then SureOverlap else if v6only == "yes" then NoOverlap else MaybeOverlap;
            var none := Claim(protocol, port, "", None, false, true, "");
            && Collides(st, At(protocol, port, a, x, ""), held) == (if x == y then SureOverlap else NoOverlap)
            && Collides(st, At(protocol, port, a, x, ""), zero) == (if x.v4 then SureOverlap else NoOverlap)
            && Collides(st, At(protocol, port, a, x, ""), zero6) == (if x.v4 then maybe else SureOverlap)
            && Collides(st, At(protocol, port, a, IP(true, 0), ""), zero6) == maybe
            && Collides(st, At(protocol, port, a, IP(true, 0), ""), zero) == SureOverlap
            && Collides(st, none, zero) == SureOverlap
            && Collides(st, none, held) ==
               (if y.v4 || st.ipv6 == "enabled" then SureOverlap
                else if st.ipv6 == "disabled" then NoOverlap else MaybeOverlap)
  {
    hide BaseProtocol;
  }

  /** A socket on every address collides for certain with every publication of its port and
      protocol whose address can be read, maybe with one whose address cannot, and with
      nothing on another port or protocol. */
  lemma SocketOnEveryAddress(st: Stack, m: PortMapping, port: int, s: Socket, parse: AddressParser)
    requires s.address == "*" || s.address == ""
    ensures var want, held := ClaimFromMapping(m, port, parse), ClaimFromSocket(s, parse);
            Collides(st, want, held) ==
            if port != s.port || BaseProtocol(m.protocol) != BaseProtocol(s.protocol) then NoOverlap
            else if want.address == "" || parse(want.address) != None then SureOverlap
            else MaybeOverlap
  {
    hide TrimSpace;
    hide BaseProtocol;
    hide TrimBrackets;
    TrimmedIsKept(s.address);
    BracketsAreTrimmed(s.address);
  }

  // ---------------------------------------------------------- what it must mean

  datatype Completion = Completion(ipv6: bool, wantV6Only: bool, heldV6Only: bool)

  ghost predicate Settles(value: bool, known: string, yes: string, no: string) {
    (known == yes ==> value) && (known == no ==> !value)
  }

  /** The completion agrees with everything that was read. */
  ghost predicate Agrees(w: Completion, st: Stack, want: Claim, held: Claim) {
    && Settles(w.ipv6, st.ipv6, "enabled", "disabled")
    && Settles(w.wantV6Only, want.v6only, "yes", "no")
    && Settles(w.heldV6Only, held.v6only, "yes", "no")
  }

  /** The claim holds the address, once the host and the socket are settled. */
  ghost predicate Holds(c: Claim, a: IP, ipv6: bool, v6only: bool) {
    if c.anyAddr then true
    else if c.address == "" then a.v4 || ipv6
    else if c.ip.None? then false
    else if c.ip.value == IP(true, 0) then a.v4
    else if c.ip.value == IP(false, 0) then !a.v4 || !v6only
    else a == c.ip.value
  }

  ghost predicate BothHold(want: Claim, held: Claim, a: IP, w: Completion) {
    ValidIP(a) && Holds(want, a, w.ipv6, w.wantV6Only) && Holds(held, a, w.ipv6, w.heldV6Only)
  }

  ghost predicate Meets(want: Claim, held: Claim, w: Completion) { exists a :: BothHold(want, held, a, w) }

  /** A claim as the two readers build it. */
  ghost predicate ValidClaim(c: Claim) {
    && (c.ip.Some? ==> ValidIP(c.ip.value))
    && (c.readable && !c.anyAddr && c.address != "" ==> c.ip.Some?)
  }

  lemma ClaimsAreValid(m: PortMapping, port: int, s: Socket, parse: AddressParser)
    requires ValidParser(parse)
    ensures ValidClaim(ClaimFromMapping(m, port, parse)) && ValidClaim(ClaimFromSocket(s, parse))
  {}

  /** The completion that holds the fewest addresses, and the one that holds the most. */
  ghost function Least(st: Stack, want: Claim, held: Claim): Completion {
    Completion(st.ipv6 == "enabled", want.v6only != "no", held.v6only != "no")
  }

  ghost function Most(st: Stack, want: Claim, held: Claim): Completion {
    Completion(st.ipv6 != "disabled", want.v6only == "yes", held.v6only == "yes")
  }

  lemma LeastAndMost(st: Stack, want: Claim, held: Claim, w: Completion)
    requires Agrees(w, st, want, held)
    ensures Agrees(Least(st, want, held), st, want, held) && Agrees(Most(st, want, held), st, want, held)
    ensures Meets(want, held, Least(st, want, held)) ==> Meets(want, held, w)
    ensures Meets(want, held, w) ==> Meets(want, held, Most(st, want, held))
  {
    var lo, hi := Least(st, want, held), Most(st, want, held);
    if Meets(want, held, lo) {
      var a :| BothHold(want, held, a, lo);
      assert BothHold(want, held, a, w);
    }
    if Meets(want, held, w) {
      var a :| BothHold(want, held, a, w);
      assert BothHold(want, held, a, hi);
    }
  }

  /** An address both hold, if there is one: the one a claim names, else any. */
  ghost function Witness(want: Claim, held: Claim, v4: bool): IP {
    if !want.anyAddr && want.address != "" && want.ip.Some? && want.ip.value.value != 0 then want.ip.value
    else if !held.anyAddr && held.address != "" && held.ip.Some? && held.ip.value.value != 0 then held.ip.value
    else IP(v4, 1)
  }

  lemma MeetsByWitness(want: Claim, held: Claim, w: Completion)
    requires ValidClaim(want) && ValidClaim(held)
    ensures Meets(want, held, w) <==>
            BothHold(want, held, Witness(want, held, true), w) || BothHold(want, held, Witness(want, held, false), w)
  {}

  /** Certain in every completion, possible in some. */
  ghost predicate MustMeet(st: Stack, want: Claim, held: Claim) {
    SameBinding(want, held) && want.readable && held.readable &&
    forall w :: Agrees(w, st, want, held) ==> Meets(want, held, w)
  }

  ghost predicate MayMeet(st: Stack, want: Claim, held: Claim) {
    SameBinding(want, held) &&
    (!want.readable || !held.readable || exists w :: Agrees(w, st, want, held) && Meets(want, held, w))
  }

  lemma ExtremesDecide(st: Stack, want: Claim, held: Claim)
    requires SameBinding(want, held) && want.readable && held.readable
    ensures MustMeet(st, want, held) <==> Meets(want, held, Least(st, want, held))
    ensures MayMeet(st, want, held) <==> Meets(want, held, Most(st, want, held))
  {
    var lo, hi := Least(st, want, held), Most(st, want, held);
    LeastAndMost(st, want, held, lo);
    forall w | Agrees(w, st, want, held)
      ensures Meets(want, held, lo) ==> Meets(want, held, w)
      ensures Meets(want, held, w) ==> Meets(want, held, hi)
    {
      LeastAndMost(st, want, held, w);
    }
  }

  lemma LeastIsSure(st: Stack, want: Claim, held: Claim)
    requires ValidClaim(want) && ValidClaim(held) && SameBinding(want, held) && want.readable && held.readable
    ensures Collides(st, want, held) == SureOverlap <==> Meets(want, held, Least(st, want, held))
  {
    MeetsByWitness(want, held, Least(st, want, held));
  }

  lemma MostIsPossible(st: Stack, want: Claim, held: Claim)
    requires ValidClaim(want) && ValidClaim(held) && SameBinding(want, held) && want.readable && held.readable
    ensures Collides(st, want, held) == NoOverlap <==> !Meets(want, held, Most(st, want, held))
  {
    MeetsByWitness(want, held, Most(st, want, held));
  }

  /** The three values are exact: sure means a collision in every completion, none means
      one in no completion. */
  lemma CollidesExactly(st: Stack, want: Claim, held: Claim)
    requires ValidClaim(want) && ValidClaim(held)
    ensures Collides(st, want, held) == SureOverlap <==> MustMeet(st, want, held)
    ensures Collides(st, want, held) == NoOverlap <==> !MayMeet(st, want, held)
  {
    if SameBinding(want, held) && want.readable && held.readable {
      ExtremesDecide(st, want, held);
      LeastIsSure(st, want, held);
      MostIsPossible(st, want, held);
    }
  }

  lemma CollisionIsSymmetric(st: Stack, want: Claim, held: Claim)
    ensures Collides(st, want, held) == Collides(st, held, want)
  {}

  /** `after` knows what `before` knows, and maybe more. */
  ghost predicate LearnsFlag(before: string, after: string, yes: string, no: string) {
    (before == yes ==> after == yes) && (before == no ==> after == no)
  }

  ghost predicate LearnsClaim(before: Claim, after: Claim) {
    after == before.(v6only := after.v6only) && LearnsFlag(before.v6only, after.v6only, "yes", "no")
  }

  /** Reading more of the host never turns a certainty into its opposite, nor back into
      a doubt. */
  lemma LearningKeepsCertainty(st: Stack, st': Stack, want: Claim, want': Claim, held: Claim, held': Claim)
    requires LearnsFlag(st.ipv6, st'.ipv6, "enabled", "disabled")
    requires LearnsClaim(want, want') && LearnsClaim(held, held')
    ensures Collides(st, want, held) != MaybeOverlap ==> Collides(st', want', held') == Collides(st, want, held)
  {}
}
