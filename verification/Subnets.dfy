/**
 Overlapping address ranges (prefixes, section 3.1 of RFC 4632): subnetOverlaps and
 networksOverlap of app/witness/conflicts.rules.go.
 */
module Subnets {
  import opened Text
  import opened PortMatch
  import opened Ownership

  /** A masked prefix: its first address and how many leading bits it fixes. */
  datatype IPNet = IPNet(v4: bool, base: nat, ones: nat)

  function Pow2(n: nat): (p: nat)
    ensures p > 0
  {
    if n == 0 then 1 else 2 * Pow2(n - 1)
  }

  function Width(v4: bool): nat { if v4 then 32 else 128 }

  function Size(n: IPNet): (s: nat)
    requires n.ones <= Width(n.v4)
    ensures s > 0
  {
    Pow2(Width(n.v4) - n.ones)
  }

  /** As net.ParseCIDR returns it: the address is masked. */
  predicate ValidNet(n: IPNet) { n.ones <= Width(n.v4) && n.base % Size(n) == 0 }

  /** How many addresses a prefix stands for: one when it fixes all 32 or 128 bits, twice as
      many for every bit fewer; all 2 to the 32 or 2 to the 128 of them when it fixes none. */
  lemma SizesAre(n: IPNet)
    requires n.ones <= (if n.v4 then 32 else 128)
    ensures n.ones == (if n.v4 then 32 else 128) ==> Size(n) == 1
    ensures n.ones > 0 ==> Size(n.(ones := n.ones - 1)) == 2 * Size(n)
    ensures n.v4 && n.ones == 24 ==> Size(n) == 256
    ensures n.v4 && n.ones == 0 ==> Size(n) == 0x1_0000_0000
    ensures !n.v4 && n.ones == 0 ==> Size(n) == 0x1_0000_0000_0000_0000_0000_0000_0000_0000
  {
    hide Pow2;
    PowersAre();
    if n.ones > 0 { PowerStep(Width(n.v4) - n.ones); }
  }

  lemma PowerStep(n: nat)
    ensures Pow2(n + 1) == 2 * Pow2(n)
  {}

  lemma PowersAre()
    ensures Pow2(0) == 1 && Pow2(8) == 256 && Pow2(32) == 0x1_0000_0000
    ensures Pow2(128) == 0x1_0000_0000_0000_0000_0000_0000_0000_0000
  {
    hide Pow2;
    SmallPowers();
    Pow2Splits(2, 2);
    Pow2Splits(4, 4);
    Pow2Splits(8, 8);
    Pow2Splits(16, 16);
    Pow2Splits(32, 32);
    Pow2Splits(64, 64);
  }

  lemma SmallPowers()
    ensures Pow2(0) == 1 && Pow2(2) == 4
  {
    assert Pow2(2) == 2 * Pow2(1) && Pow2(1) == 2 * Pow2(0);
  }

  /** `IPNet.Contains`: the address agrees with the prefix on the bits it fixes. */
  predicate Contains(n: IPNet, a: IP)
    requires ValidNet(n)
  {
    a.v4 == n.v4 && a.value / Size(n) == n.base / Size(n)
  }

  predicate NetworksOverlap(a: IPNet, b: IPNet)
    requires ValidNet(a) && ValidNet(b)
  {
    Contains(a, IP(b.v4, b.base)) || Contains(b, IP(a.v4, a.base))
  }

  /** The range the prefix stands for. */
  predicate InRange(n: IPNet, a: IP)
    requires ValidNet(n)
  {
    a.v4 == n.v4 && n.base <= a.value < n.base + Size(n)
  }

  lemma DivIsBlock(x: nat, size: nat, k: nat)
    requires size > 0
    ensures x / size == k <==> size * k <= x < size * k + size
  {
    var q, r := x / size, x % size;
    assert x == size * q + r;
    if q < k { assert size * (q + 1) <= size * k; }
    if q > k { assert size * (k + 1) <= size * q; }
  }

  lemma ContainsIsRange(n: IPNet, a: IP)
    requires ValidNet(n)
    ensures Contains(n, a) <==> InRange(n, a)
  {
    var k := n.base / Size(n);
    assert n.base == Size(n) * k;
    DivIsBlock(a.value, Size(n), k);
  }

  lemma {:induction false} Pow2Splits(i: nat, j: nat)
    ensures Pow2(i + j) == Pow2(i) * Pow2(j)
  {
    if i > 0 {
      Pow2Splits(i - 1, j);
      MulAssociates(2, Pow2(i - 1), Pow2(j));
    }
  }

  lemma MulKeepsOrder(s: nat, a: nat, b: nat)
    requires a <= b
    ensures s * a <= s * b
  {}

  lemma MulAssociates(s: nat, d: nat, k: nat)
    ensures s * (d * k) == (s * d) * k
  {}

  /** The remainder of a block of `d` blocks of `s`. */
  lemma BlockOfBlocks(s: nat, d: nat, k: nat, t: nat, r: nat)
    requires r < s && t < d
    ensures s * (d * k + t) + r == (s * d) * k + (s * t + r) && s * t + r < s * d
  {
    MulAssociates(s, d, k);
    MulKeepsOrder(s, t + 1, d);
    assert s * (d * k + t) == s * (d * k) + s * t;
  }

  lemma Euclid(x: nat, d: nat) returns (q: nat, r: nat)
    requires d > 0
    ensures x == d * q + r && r < d && q == x / d
  {
    q, r := x / d, x % d;
  }

  lemma DivInTwoSteps(x: nat, s: nat, d: nat)
    requires s > 0 && d > 0
    ensures s * d > 0 && x / (s * d) == (x / s) / d
  {
    var q, r := Euclid(x, s);
    var k, t := Euclid(q, d);
    BlockOfBlocks(s, d, k, t, r);
    DivIsBlock(x, s * d, k);
  }

  /** Two aligned ranges that share an address are nested: the larger one contains the
      smaller one's first address. */
  lemma SharedMeansNested(a: IPNet, b: IPNet, x: IP)
    requires ValidNet(a) && ValidNet(b) && a.ones >= b.ones
    requires Contains(a, x) && Contains(b, x)
    ensures Contains(b, IP(a.v4, a.base))
  {
    var d := Pow2(a.ones - b.ones);
    Pow2Splits(Width(a.v4) - a.ones, a.ones - b.ones);
    assert Size(b) == Size(a) * d;
    DivInTwoSteps(x.value, Size(a), d);
    DivInTwoSteps(a.base, Size(a), d);
  }

  /** networksOverlap answers true exactly when the two ranges share an address. */
  lemma OverlapIsSharedAddress(a: IPNet, b: IPNet)
    requires ValidNet(a) && ValidNet(b)
    ensures NetworksOverlap(a, b) <==> exists x :: InRange(a, x) && InRange(b, x)
  {
    if x :| InRange(a, x) && InRange(b, x) {
      ContainsIsRange(a, x);
      ContainsIsRange(b, x);
      if a.ones >= b.ones {
        SharedMeansNested(a, b, x);
      } else {
        SharedMeansNested(b, a, x);
      }
    }
    var p, q := IP(a.v4, a.base), IP(b.v4, b.base);
    ContainsIsRange(a, q);
    ContainsIsRange(b, p);
    if NetworksOverlap(a, b) {
      assert InRange(a, p) && InRange(b, q);
      assert (InRange(a, q) && InRange(b, q)) || (InRange(a, p) && InRange(b, p));
    }
  }

  // -------------------------------------------------------------------- the rule

  datatype Network = Network(name: string, project: string, subnets: seq<string>)

  type SubnetParser = string -> Option<IPNet>

  ghost predicate ValidSubnets(parse: SubnetParser) { forall s :: parse(s).Some? ==> ValidNet(parse(s).value) }

  datatype Clash = Clash(network: string, cidr: string, existing: string, existingCidr: string)

  ghost predicate Overlaps(parse: SubnetParser, cidr: string, other: string)
    requires ValidSubnets(parse)
  {
    parse(cidr).Some? && parse(other).Some? && NetworksOverlap(parse(cidr).value, parse(other).value)
  }

  ghost function WithNetwork(parse: SubnetParser, name: string, cidr: string, e: Network, subnets: seq<string>): seq<Clash>
    requires ValidSubnets(parse)
  {
    if subnets == [] then []
    else
      var other := subnets[|subnets| - 1];
      WithNetwork(parse, name, cidr, e, subnets[..|subnets| - 1]) +
      if Overlaps(parse, cidr, other) then [Clash(name, cidr, e.name, other)] else []
  }

  ghost function WithNetworks(parse: SubnetParser, inp: Input, name: string, cidr: string, es: seq<Network>): seq<Clash>
    requires ValidSubnets(parse)
  {
    if es == [] || parse(cidr).None? then []
    else
      var e := es[|es| - 1];
      WithNetworks(parse, inp, name, cidr, es[..|es| - 1]) +
      if SameProject(inp, e.project) then [] else WithNetwork(parse, name, cidr, e, e.subnets)
  }

  ghost function OfNetwork(parse: SubnetParser, inp: Input, name: string, cidrs: seq<string>, es: seq<Network>): seq<Clash>
    requires ValidSubnets(parse)
  {
    if cidrs == [] then []
    else OfNetwork(parse, inp, name, cidrs[..|cidrs| - 1], es) + WithNetworks(parse, inp, name, cidrs[|cidrs| - 1], es)
  }

  ghost function OfPlan(parse: SubnetParser, inp: Input, networks: seq<Network>, es: seq<Network>): seq<Clash>
    requires ValidSubnets(parse)
  {
    if networks == [] then []
    else
      var n := networks[|networks| - 1];
      OfPlan(parse, inp, networks[..|networks| - 1], es) + OfNetwork(parse, inp, n.name, n.subnets, es)
  }

  /** One subnet of the plan against every subnet in the engine. */
  method CheckSubnet(parse: SubnetParser, inp: Input, name: string, cidr: string, existing: seq<Network>)
    returns (out: seq<Clash>)
    requires ValidSubnets(parse)
    ensures out == WithNetworks(parse, inp, name, cidr, existing)
  {
    out := [];
    if parse(cidr).None? {
      return;
    }
    var want := parse(cidr).value;
    for n := 0 to |existing|
      invariant out == WithNetworks(parse, inp, name, cidr, existing[..n])
    {
      var e := existing[n];
      assert existing[..n + 1][..n] == existing[..n];
      if SameProject(inp, e.project) {
        continue;
      }
      ghost var before := out;
      for k := 0 to |e.subnets|
        invariant out == before + WithNetwork(parse, name, cidr, e, e.subnets[..k])
      {
        assert e.subnets[..k + 1][..k] == e.subnets[..k];
        var have := parse(e.subnets[k]);
        if have.None? {
          continue;
        }
        if !NetworksOverlap(want, have.value) {
          continue;
        }
        out := out + [Clash(name, cidr, e.name, e.subnets[k])];
      }
      assert e.subnets[..|e.subnets|] == e.subnets;
    }
    assert existing[..|existing|] == existing;
  }

  method CheckNetwork(parse: SubnetParser, inp: Input, name: string, cidrs: seq<string>, existing: seq<Network>)
    returns (out: seq<Clash>)
    requires ValidSubnets(parse)
    ensures out == OfNetwork(parse, inp, name, cidrs, existing)
  {
    out := [];
    for k := 0 to |cidrs|
      invariant out == OfNetwork(parse, inp, name, cidrs[..k], existing)
    {
      assert cidrs[..k + 1][..k] == cidrs[..k];
      var clashes := CheckSubnet(parse, inp, name, cidrs[k], existing);
      out := out + clashes;
    }
    assert cidrs[..|cidrs|] == cidrs;
  }

  method SubnetOverlaps(parse: SubnetParser, inp: Input, networks: seq<Network>, existing: seq<Network>)
    returns (out: seq<Clash>)
    requires ValidSubnets(parse)
    ensures out == OfPlan(parse, inp, networks, existing)
  {
    out := [];
    for n := 0 to |networks|
      invariant out == OfPlan(parse, inp, networks[..n], existing)
    {
      assert networks[..n + 1][..n] == networks[..n];
      var clashes := CheckNetwork(parse, inp, networks[n].name, networks[n].subnets, existing);
      out := out + clashes;
    }
    assert networks[..|networks|] == networks;
  }

  lemma {:induction false} WithNetworkAre(parse: SubnetParser, name: string, cidr: string, e: Network, subnets: seq<string>,
                                          c: Clash)
    requires ValidSubnets(parse)
    ensures c in WithNetwork(parse, name, cidr, e, subnets) <==>
            c == Clash(name, cidr, e.name, c.existingCidr) && c.existingCidr in subnets &&
            Overlaps(parse, cidr, c.existingCidr)
  {
    if subnets != [] {
      WithNetworkAre(parse, name, cidr, e, subnets[..|subnets| - 1], c);
      assert forall s :: s in subnets <==> s in subnets[..|subnets| - 1] || s == subnets[|subnets| - 1];
    }
  }

  lemma {:induction false} WithNetworksAre(parse: SubnetParser, inp: Input, name: string, cidr: string, es: seq<Network>,
                                           c: Clash)
    requires ValidSubnets(parse)
    ensures c in WithNetworks(parse, inp, name, cidr, es) <==>
            exists e :: e in es && !SameProject(inp, e.project) && c in WithNetwork(parse, name, cidr, e, e.subnets)
  {
    hide WithNetwork;
    hide SameProject;
    if parse(cidr).None? {
      forall e: Network ensures c !in WithNetwork(parse, name, cidr, e, e.subnets) {
        WithNetworkAre(parse, name, cidr, e, e.subnets, c);
      }
    } else if es != [] {
      WithNetworksAre(parse, inp, name, cidr, es[..|es| - 1], c);
      assert forall e :: e in es <==> e in es[..|es| - 1] || e == es[|es| - 1];
    }
  }

  lemma {:induction false} OfNetworkAre(parse: SubnetParser, inp: Input, name: string, cidrs: seq<string>,
                                        es: seq<Network>, c: Clash)
    requires ValidSubnets(parse)
    ensures c in OfNetwork(parse, inp, name, cidrs, es) <==>
            exists cidr :: cidr in cidrs && c in WithNetworks(parse, inp, name, cidr, es)
  {
    hide WithNetworks;
    if cidrs != [] {
      var last := cidrs[|cidrs| - 1];
      OfNetworkAre(parse, inp, name, cidrs[..|cidrs| - 1], es, c);
      assert c in OfNetwork(parse, inp, name, cidrs, es) <==>
             c in OfNetwork(parse, inp, name, cidrs[..|cidrs| - 1], es) || c in WithNetworks(parse, inp, name, last, es);
      assert forall s :: s in cidrs <==> s in cidrs[..|cidrs| - 1] || s == cidrs[|cidrs| - 1];
    }
  }

  lemma {:induction false} OfPlanAre(parse: SubnetParser, inp: Input, networks: seq<Network>, es: seq<Network>, c: Clash)
    requires ValidSubnets(parse)
    ensures c in OfPlan(parse, inp, networks, es) <==>
            exists n :: n in networks && c in OfNetwork(parse, inp, n.name, n.subnets, es)
  {
    hide OfNetwork;
    if networks != [] {
      OfPlanAre(parse, inp, networks[..|networks| - 1], es, c);
      assert forall n :: n in networks <==> n in networks[..|networks| - 1] || n == networks[|networks| - 1];
    }
  }

  ghost predicate SharesAnAddress(parse: SubnetParser, cidr: string, other: string)
    requires ValidSubnets(parse)
  {
    parse(cidr).Some? && parse(other).Some? &&
    exists x :: InRange(parse(cidr).value, x) && InRange(parse(other).value, x)
  }

  /** The rule reports exactly the pairs of a planned subnet and a subnet of a network
      outside the project that share an address. */
  lemma ReportedExactlyWhen(parse: SubnetParser, inp: Input, networks: seq<Network>, es: seq<Network>, c: Clash)
    requires ValidSubnets(parse)
    ensures c in OfPlan(parse, inp, networks, es) <==>
            exists n, e ::
              n in networks && e in es && !SameProject(inp, e.project) &&
              c == Clash(n.name, c.cidr, e.name, c.existingCidr) &&
              c.cidr in n.subnets && c.existingCidr in e.subnets && SharesAnAddress(parse, c.cidr, c.existingCidr)
  {
    OfPlanAre(parse, inp, networks, es, c);
    forall n: Network
      ensures c in OfNetwork(parse, inp, n.name, n.subnets, es) <==>
              exists cidr :: cidr in n.subnets && c in WithNetworks(parse, inp, n.name, cidr, es)
    {
      OfNetworkAre(parse, inp, n.name, n.subnets, es, c);
    }
    forall name, cidr
      ensures c in WithNetworks(parse, inp, name, cidr, es) <==>
              exists e :: e in es && !SameProject(inp, e.project) && c in WithNetwork(parse, name, cidr, e, e.subnets)
    {
      WithNetworksAre(parse, inp, name, cidr, es, c);
    }
    forall name, cidr, e: Network
      ensures c in WithNetwork(parse, name, cidr, e, e.subnets) <==>
              c == Clash(name, cidr, e.name, c.existingCidr) && c.existingCidr in e.subnets &&
              Overlaps(parse, cidr, c.existingCidr)
    {
      WithNetworkAre(parse, name, cidr, e, e.subnets, c);
    }
    if parse(c.cidr).Some? && parse(c.existingCidr).Some? {
      OverlapIsSharedAddress(parse(c.cidr).value, parse(c.existingCidr).value);
    }
  }
}
