/**
 Port publications: model.PortMapping of app/model/preflight.go, and the short syntax
 of `ports:` (Compose Specification, services "ports", "Short syntax") as
 app/collect/manifest/ports.go reads it.
 */
module PortSpec {
  import opened Text
  import opened Decimal

  datatype PortMapping = PortMapping(
    hostIp: string,
    hostPort: int,
    hostPortEnd: int,
    containerPort: int,
    containerPortEnd: int,
    protocol: string)
  {
    /** Several host ports for one container port: the engine binds one of them. */
    predicate Dynamic() { hostPortEnd > hostPort && (containerPortEnd == 0 || containerPortEnd == containerPort) }

    predicate Ephemeral() { hostPort == 0 && containerPort > 0 }

    /** The last host port claimed. */
    function LastPort(): int { if hostPortEnd < hostPort then hostPort else hostPortEnd }

    /** The host ports the mapping claims, in order. */
    function HostPorts(): (r: seq<int>)
      ensures |r| == if hostPort == 0 then 0 else LastPort() - hostPort + 1
      ensures forall i :: 0 <= i < |r| ==> r[i] == hostPort + i
    {
      if hostPort == 0 then [] else seq(LastPort() - hostPort + 1, i requires 0 <= i => hostPort + i)
    }
  }

  /** The ports appended one by one, as HostPorts does it. */
  method ExpandPorts(m: PortMapping) returns (out: seq<int>)
    ensures out == m.HostPorts()
  {
    out := [];
    if m.hostPort == 0 {
      return;
    }
    var end := if m.hostPortEnd < m.hostPort then m.hostPort else m.hostPortEnd;
    var port := m.hostPort;
    while port <= end
      invariant m.hostPort <= port <= end + 1 && |out| == port - m.hostPort
      invariant forall i :: 0 <= i < |out| ==> out[i] == m.hostPort + i
    {
      out := out + [port];
      port := port + 1;
    }
  }

  datatype PortError = EmptyPort | NotANumber | OutOfRange | Backwards

  datatype SpecError =
    | EmptySpec | NoProtocol | Unterminated | NeedsBothPorts | TooManyParts
    | BadContainerPort(why: PortError) | BadHostPort(why: PortError)

  // -------------------------------------------------------------------- parsing

  const DEFAULT_PROTOCOL: string := "tcp"

  const MAX_INT64 := 0x7FFF_FFFF_FFFF_FFFF

  /** `strconv.Atoi`: an optional sign, decimal digits, within 64 bits. */
  function Atoi(s: string): Option<int> {
    var signed := s != "" && (s[0] == '+' || s[0] == '-');
    var digits := if signed then s[1..] else s;
    if !IsNumeric(digits) then None
    else
      var n: int := Value(digits);
      var v := if signed && s[0] == '-' then -n else n;
      if -MAX_INT64 - 1 <= v <= MAX_INT64 then Some(v) else None
  }

  function ParsePort(spec: string): (r: Result<int, PortError>)
    ensures r.Ok? ==> 1 <= r.value <= 65535
  {
    var port := Atoi(TrimSpace(spec));
    if port.None? then Err(NotANumber)
    else if port.value < 1 || port.value > 65535 then Err(OutOfRange)
    else Ok(port.value)
  }

  function ParsePortRange(spec: string): (r: Result<(int, int), PortError>)
    ensures r.Ok? ==> 1 <= r.value.0 <= r.value.1 <= 65535
  {
    var text := TrimSpace(spec);
    if text == "" then Err(EmptyPort)
    else
      var dash := Index(text, '-');
      var start := ParsePort(if dash >= 0 then text[..dash] else text);
      if start.Err? then Err(start.error)
      else if dash < 0 then Ok((start.value, start.value))
      else
        var end := ParsePort(text[dash + 1..]);
        if end.Err? then Err(end.error)
        else if end.value < start.value then Err(Backwards)
        else Ok((start.value, end.value))
  }

  /** `strings.Split(s, ":")`. */
  function Split(s: string): (parts: seq<string>)
    ensures |parts| > 0
    ensures parts[0] <= s && ':' !in parts[0]
    decreases |s|
  {
    var i := Index(s, ':');
    if i < 0 then [s] else [s[..i]] + Split(s[i + 1..])
  }

  datatype Places = Places(hostIp: string, host: string, container: string)

  /** The host address, host port and container port texts of a spec without its
      protocol. */
  function Locate(rest: string): Result<Places, SpecError> {
    if HasPrefix(rest, "[") then
      var close := Index(rest, ']');
      if close < 0 then Err(Unterminated)
      else
        var after := rest[close + 1..];
        var parts := Split(if HasPrefix(after, ":") then after[1..] else after);
        if |parts| == 2 then Ok(Places(rest[1..close], parts[0], parts[1])) else Err(NeedsBothPorts)
    else
      var parts := Split(rest);
      if |parts| == 1 then Ok(Places("", "", parts[0]))
      else if |parts| == 2 then Ok(Places("", parts[0], parts[1]))
      else if |parts| == 3 then Ok(Places(TrimSpace(parts[0]), parts[1], parts[2]))
      else Err(TooManyParts)
  }

  function ReadPorts(p: Places, protocol: string): Result<PortMapping, SpecError> {
    var container := ParsePortRange(p.container);
    if container.Err? then Err(BadContainerPort(container.error))
    else
      var (first, last) := container.value;
      var m := PortMapping(p.hostIp, 0, 0, first, if last > first then last else 0, protocol);
      if TrimSpace(p.host) == "" then Ok(m)
      else
        var host := ParsePortRange(p.host);
        if host.Err? then Err(BadHostPort(host.error))
        else Ok(m.(hostPort := host.value.0, hostPortEnd := host.value.1))
  }

  function ParseShortPort(spec: string): Result<PortMapping, SpecError> {
    var text := TrimSpace(spec);
    if text == "" then Err(EmptySpec)
    else
      var slash := LastIndex(text, '/');
      var protocol := if slash >= 0 then ToLower(TrimSpace(text[slash + 1..])) else DEFAULT_PROTOCOL;
      if protocol == "" then Err(NoProtocol)
      else
        ParseRest(if slash >= 0 then text[..slash] else text, protocol)
  }

  function ParseRest(rest: string, protocol: string): Result<PortMapping, SpecError> {
    var places := Locate(rest);
    if places.Err? then Err(places.error) else ReadPorts(places.value, protocol)
  }

  /** The long form of an entry, its fields as the text they were written in; a published
      port that does not parse is reported and left out. */
  function LongPort(target: string, published: string, protocol: string, hostIp: string):
    (r: Result<PortMapping, SpecError>)
    ensures r.Ok? ==> IsPublished(r.value)
  {
    var container := ParsePortRange(target);
    if container.Err? then Err(BadContainerPort(container.error))
    else
      var p := if TrimSpace(protocol) != "" then ToLower(TrimSpace(protocol)) else DEFAULT_PROTOCOL;
      var m := PortMapping(TrimSpace(hostIp), 0, 0, container.value.0, 0, p);
      var host := ParsePortRange(published);
      if host.Err? then Ok(m) else Ok(m.(hostPort := host.value.0, hostPortEnd := host.value.1))
  }

  /** An entry of the plan as Compose resolved it. */
  function ResolvedPort(target: int, published: string, protocol: string, hostIp: string):
    (r: Result<PortMapping, SpecError>)
    ensures r.Ok? ==> IsPublished(r.value)
  {
    var p := if ToLower(protocol) != "" then ToLower(protocol) else DEFAULT_PROTOCOL;
    var m := PortMapping(TrimBrackets(hostIp), 0, 0, target, 0, p);
    if TrimSpace(published) == "" then Ok(m)
    else
      var host := ParsePortRange(published);
      if host.Err? then Err(BadHostPort(host.error))
      else
        var (start, end) := host.value;
        Ok(m.(hostPort := start, hostPortEnd := if end != start then end else 0))
  }

  /** The host ports every reader leaves: none, or from 1 on and not backwards. */
  predicate IsPublished(m: PortMapping) {
    (m.hostPort == 0 && m.hostPortEnd == 0) ||
    (1 <= m.hostPort <= 65535 && (m.hostPortEnd == 0 || m.hostPort <= m.hostPortEnd <= 65535))
  }

  /** No publication that was read is a range from port 0: it names host ports from 1 on,
      or none, and then it can collide with nothing. */
  lemma ReadRangesStartAtAPort(m: PortMapping)
    requires IsPublished(m)
    ensures m.Dynamic() ==> m.hostPort >= 1
    ensures m.Ephemeral() ==> !m.Dynamic() && m.HostPorts() == []
    ensures forall p :: p in m.HostPorts() ==> 1 <= p <= 65535
  {}

  // ------------------------------------------------------------------- printing

  function PrintNat(n: nat): (s: string)
    ensures IsNumeric(s) && Value(s) == n
  {
    var d := [('0' as int + n % 10) as char];
    assert [] + d == d;
    if n < 10 then
      AppendDigit([], d[0]);
      d
    else
      AppendDigit(PrintNat(n / 10), d[0]);
      PrintNat(n / 10) + d
  }

  function PrintRange(start: nat, end: nat): string {
    if end > start then PrintNat(start) + "-" + PrintNat(end) else PrintNat(start)
  }

  /** An address that needs no brackets. */
  predicate IsPlainAddress(ip: string) { ip != "" && Trimmed(ip) && ':' !in ip && ip[0] != '[' }

  function PrintAddress(ip: string): string {
    if ip == "" then "" else if IsPlainAddress(ip) then ip + ":" else "[" + ip + "]:"
  }

  /** Host address, host port and container port; the colon before an omitted host port
      is kept after an address. */
  function PrintPlaces(p: Places): string {
    PrintAddress(p.hostIp) + (if p.host != "" || p.hostIp != "" then p.host + ":" else "") + p.container
  }

  function PlacesOf(m: PortMapping): Places
    requires NormalForm(m)
  {
    Places(m.hostIp,
           if m.hostPort != 0 then PrintRange(m.hostPort, m.hostPortEnd) else "",
           PrintRange(m.containerPort, m.containerPortEnd))
  }

  function Print(m: PortMapping): string
    requires NormalForm(m)
  {
    PrintPlaces(PlacesOf(m)) + "/" + m.protocol
  }

  predicate IsProtocol(p: string) { p != "" && Trimmed(p) && '/' !in p && ToLower(p) == p }

  predicate NormalForm(m: PortMapping) {
    && (m.hostIp == "" || IsPlainAddress(m.hostIp) || ']' !in m.hostIp)
    && ((m.hostPort == 0 && m.hostPortEnd == 0) || 1 <= m.hostPort <= m.hostPortEnd <= 65535)
    && 1 <= m.containerPort <= 65535
    && (m.containerPortEnd == 0 || m.containerPort < m.containerPortEnd <= 65535)
    && IsProtocol(m.protocol)
  }

  // -------------------------------------------------- what the printer is read as

  lemma NumberIsPlain(s: string)
    requires IsNumeric(s)
    ensures Trimmed(s) && '-' !in s && ':' !in s && TrimSpace(s) == s
  {}

  lemma PrintedPortParses(n: nat)
    requires 1 <= n <= 65535
    ensures ParsePort(PrintNat(n)) == Ok(n)
  {}

  /** One or two numbers: nothing a spec uses as a separator. */
  predicate IsRangeText(s: string) { s != "" && TrimSpace(s) == s && ':' !in s && IsDigit(s[0]) }

  lemma PrintedRangeParses(start: nat, end: nat)
    requires 1 <= start <= 65535 && end <= 65535
    ensures var s := PrintRange(start, end);
            ParsePortRange(s) == Ok((start, if end > start then end else start))
    ensures IsRangeText(PrintRange(start, end))
  {
    var a, s := PrintNat(start), PrintRange(start, end);
    NumberIsPlain(a);
    PrintedPortParses(start);
    if end > start {
      var b := PrintNat(end);
      NumberIsPlain(b);
      PrintedPortParses(end);
      assert s == a + ['-'] + b;
      IndexOfFirst(a, '-', b);
      assert s[..|a|] == a && s[|a| + 1..] == b;
      assert s[|s| - 1] == b[|b| - 1] && s[0] == a[0];
    }
    TrimmedIsKept(s);
  }

  lemma SplitOne(s: string)
    requires ':' !in s
    ensures Split(s) == [s]
  {}

  lemma SplitMore(a: string, b: string)
    requires ':' !in a
    ensures Split(a + ":" + b) == [a] + Split(b)
  {
    IndexOfFirst(a, ':', b);
    var s := a + ":" + b;
    assert s[..|a|] == a && s[|a| + 1..] == b;
  }

  function Pair(host: string, container: string): string { host + ":" + container }

  lemma SplitPair(host: string, container: string)
    requires ':' !in host && ':' !in container
    ensures Split(Pair(host, container)) == [host, container]
  {
    SplitOne(container);
    SplitMore(host, container);
  }

  lemma PlacesWithoutAddress(host: string, container: string)
    requires ':' !in host && ':' !in container && container != "" && container[0] != '['
    requires host != "" ==> host[0] != '['
    ensures Locate(container) == Ok(Places("", "", container))
    ensures host != "" ==> Locate(Pair(host, container)) == Ok(Places("", host, container))
  {
    SplitOne(container);
    SplitPair(host, container);
    if host != "" { assert Pair(host, container)[0] == host[0]; }
  }

  lemma PlacesAfterPlainAddress(ip: string, host: string, container: string)
    requires IsPlainAddress(ip) && ':' !in host && ':' !in container
    ensures Locate(ip + ":" + Pair(host, container)) == Ok(Places(ip, host, container))
  {
    TrimmedIsKept(ip);
    SplitPair(host, container);
    SplitMore(ip, Pair(host, container));
    assert (ip + ":" + Pair(host, container))[0] == ip[0];
  }

  lemma PlacesAfterBrackets(ip: string, host: string, container: string)
    requires ']' !in ip && ':' !in host && ':' !in container
    ensures Locate("[" + ip + "]:" + Pair(host, container)) == Ok(Places(ip, host, container))
  {
    hide Split;
    hide Pair;
    var pair := Pair(host, container);
    var s, after := "[" + ip + "]:" + pair, ":" + pair;
    SplitPair(host, container);
    assert s == ("[" + ip) + [']'] + after;
    IndexOfFirst("[" + ip, ']', after);
    assert s[|ip| + 2..] == after && s[1..|ip| + 1] == ip && after[1..] == pair;
  }

  /** Texts the printer may put into a spec. */
  predicate Printable(p: Places) {
    && (p.hostIp == "" || IsPlainAddress(p.hostIp) || ']' !in p.hostIp)
    && ':' !in p.host && (p.host != "" ==> IsDigit(p.host[0]))
    && ':' !in p.container && p.container != "" && IsDigit(p.container[0])
  }

  /** The printed address and ports are found where they were put. */
  lemma PrintedPlaces(p: Places)
    requires Printable(p)
    ensures Locate(PrintPlaces(p)) == Ok(p)
  {
    hide Locate;
    hide Pair;
    PrintedShape(p);
    if p.hostIp == "" {
      PlacesWithoutAddress(p.host, p.container);
    } else if IsPlainAddress(p.hostIp) {
      PlacesAfterPlainAddress(p.hostIp, p.host, p.container);
    } else {
      PlacesAfterBrackets(p.hostIp, p.host, p.container);
    }
  }

  lemma PrintedShape(p: Places)
    ensures PrintPlaces(p) ==
            if p.hostIp == "" then (if p.host != "" then Pair(p.host, p.container) else p.container)
            else if IsPlainAddress(p.hostIp) then p.hostIp + ":" + Pair(p.host, p.container)
            else "[" + p.hostIp + "]:" + Pair(p.host, p.container)
  {
    hide IsPlainAddress;
    assert PrintPlaces(p) == PrintAddress(p.hostIp) +
      ((if p.host != "" || p.hostIp != "" then p.host + ":" else "") + p.container);
  }

  lemma PrintedStart(p: Places)
    requires Printable(p)
    ensures PrintPlaces(p) != "" && !IsSpace(PrintPlaces(p)[0])
  {}

  lemma PlacesArePrintable(m: PortMapping)
    requires NormalForm(m)
    ensures Printable(PlacesOf(m)) && ReadPorts(PlacesOf(m), m.protocol) == Ok(m)
  {
    hide ParsePortRange;
    hide ReadPorts;
    hide TrimSpace;
    var p := PlacesOf(m);
    PrintedRangeParses(m.containerPort, m.containerPortEnd);
    if m.hostPort != 0 {
      PrintedRangeParses(m.hostPort, m.hostPortEnd);
    } else {
      TrimmedIsKept("");
    }
    PortsAreRead(m, p.host, p.container);
  }

  lemma PortsAreRead(m: PortMapping, host: string, container: string)
    requires NormalForm(m)
    requires ParsePortRange(container) ==
             Ok((m.containerPort, if m.containerPortEnd > m.containerPort then m.containerPortEnd else m.containerPort))
    requires TrimSpace(host) == host && (host == "" <==> m.hostPort == 0)
    requires m.hostPort != 0 ==> ParsePortRange(host) == Ok((m.hostPort, m.hostPortEnd))
    ensures ReadPorts(Places(m.hostIp, host, container), m.protocol) == Ok(m)
  {}

  lemma ProtocolIsFound(body: string, protocol: string)
    requires body != "" && !IsSpace(body[0]) && IsProtocol(protocol)
    ensures var text, n := body + "/" + protocol, |body|;
            && text != "" && TrimSpace(text) == text
            && LastIndex(text, '/') == n && text[..n] == body
            && ToLower(TrimSpace(text[n + 1..])) == protocol
  {
    var text := body + "/" + protocol;
    LastIndexOfLast(body, '/', protocol);
    assert text[|body| + 1..] == protocol;
    TrimmedIsKept(protocol);
    assert text[|text| - 1] == protocol[|protocol| - 1] && text[0] == body[0];
    TrimmedIsKept(text);
  }

  /** Parsing undoes printing on every mapping in normal form. */
  lemma ParseUndoesPrint(m: PortMapping)
    requires NormalForm(m)
    ensures ParseShortPort(Print(m)) == Ok(m)
  {
    PlacesArePrintable(m);
    PrintedPlaces(PlacesOf(m));
    PrintedStart(PlacesOf(m));
    ProtocolIsFound(PrintPlaces(PlacesOf(m)), m.protocol);
  }

  // ------------------------------------------------------- what a parse returns

  lemma {:induction false} TrimSpaceWithin(s: string, c: char)
    ensures c in TrimSpace(s) ==> c in s
  {
    TrimLeftWithin(s, c);
    assert TrimRight(TrimLeft(s)) <= TrimLeft(s);
  }

  lemma {:induction false} TrimLeftWithin(s: string, c: char)
    ensures c in TrimLeft(s) ==> c in s
  {
    if s != [] && IsSpace(s[0]) { TrimLeftWithin(s[1..], c); }
  }

  lemma {:induction false} TrimRightKeepsFirst(s: string)
    requires s != "" && !IsSpace(s[0])
    ensures TrimRight(s) != "" && TrimRight(s)[0] == s[0]
  {
    if IsSpace(s[|s| - 1]) { TrimRightKeepsFirst(s[..|s| - 1]); }
  }

  lemma LoweredIsProtocol(s: string)
    requires '/' !in s && ToLower(TrimSpace(s)) != ""
    ensures IsProtocol(ToLower(TrimSpace(s)))
  {
    var t := TrimSpace(s);
    TrimSpaceWithin(s, '/');
    assert ToLower(ToLower(t)) == ToLower(t);
    forall i | 0 <= i < |t| ensures ToLower(t)[i] != '/' { assert t[i] in t; }
  }

  lemma LocatedAddress(rest: string)
    requires Locate(rest).Ok? && (rest != "" ==> !IsSpace(rest[0]))
    ensures var ip := Locate(rest).value.hostIp; ip == "" || IsPlainAddress(ip) || ']' !in ip
  {
    if !HasPrefix(rest, "[") && |Split(rest)| == 3 {
      var part := Split(rest)[0];
      TrimSpaceWithin(part, ':');
      if part != "" {
        assert part[0] == rest[0];
        TrimRightKeepsFirst(part);
      }
    }
  }

  lemma ParsedIsRest(spec: string) returns (rest: string, protocol: string)
    requires ParseShortPort(spec).Ok?
    ensures IsProtocol(protocol) && (rest != "" ==> !IsSpace(rest[0]))
    ensures ParseShortPort(spec) == ParseRest(rest, protocol)
  {
    hide ParseRest;
    hide IsProtocol;
    hide TrimSpace;
    hide LastIndex;
    hide ToLower;
    var text := TrimSpace(spec);
    var slash := LastIndex(text, '/');
    if slash >= 0 {
      rest, protocol := text[..slash], ToLower(TrimSpace(text[slash + 1..]));
      LoweredIsProtocol(text[slash + 1..]);
    } else {
      rest, protocol := text, DEFAULT_PROTOCOL;
      DefaultIsProtocol();
    }
  }

  /** Every successful parse is in normal form, ports in 1 to 65535 and no range
      backwards: reading its printed form again gives the same mapping. */
  lemma ParsedIsNormal(spec: string)
    requires ParseShortPort(spec).Ok?
    ensures NormalForm(ParseShortPort(spec).value)
    ensures ParseShortPort(Print(ParseShortPort(spec).value)) == ParseShortPort(spec)
  {
    var rest, protocol := ParsedIsRest(spec);
    ParsedRestIsNormal(rest, protocol);
    ParseUndoesPrint(ParseShortPort(spec).value);
  }

  lemma NormalIsPublished(m: PortMapping)
    requires NormalForm(m)
    ensures IsPublished(m)
  {}

  lemma ParsedRestIsNormal(rest: string, protocol: string)
    requires IsProtocol(protocol) && ParseRest(rest, protocol).Ok? && (rest != "" ==> !IsSpace(rest[0]))
    ensures NormalForm(ParseRest(rest, protocol).value)
  {
    LocatedAddress(rest);
    ReadPortsAreNormal(Locate(rest).value, protocol);
  }

  lemma DefaultIsProtocol()
    ensures IsProtocol(DEFAULT_PROTOCOL)
  {}

  lemma ReadPortsAreNormal(p: Places, protocol: string)
    requires p.hostIp == "" || IsPlainAddress(p.hostIp) || ']' !in p.hostIp
    requires IsProtocol(protocol) && ReadPorts(p, protocol).Ok?
    ensures NormalForm(ReadPorts(p, protocol).value)
  {
    hide ParsePortRange;
    hide TrimSpace;
    hide IsProtocol;
    hide IsPlainAddress;
  }

  // --------------------------------------------- what the three forms of an entry are read as

  /** A port is read from decimal digits, with a plus sign or without, and from nothing else. */
  lemma PortParsesExactlyWhen(spec: string, port: int)
    ensures ParsePort(spec) == Ok(port) <==>
            && 1 <= port <= 65535
            && exists digits :: && IsNumeric(digits) && Value(digits) == port
                                && (TrimSpace(spec) == digits || TrimSpace(spec) == ['+'] + digits)
  {
    hide TrimSpace;
    hide Value;
    var text := TrimSpace(spec);
    if ParsePort(spec) == Ok(port) {
      var digits := if text[0] == '+' then text[1..] else text;
      assert IsNumeric(digits) && Value(digits) == port && (text == digits || text == ['+'] + digits);
    }
    if 1 <= port <= 65535 {
      forall digits | IsNumeric(digits) && Value(digits) == port && (text == digits || text == ['+'] + digits)
        ensures ParsePort(spec) == Ok(port)
      {
        assert IsDigit(digits[0]);
        assert (['+'] + digits)[1..] == digits;
      }
    }
  }

  /** The text names the ports from `start` to `end`: one number, or two around a hyphen. */
  ghost predicate Names(text: string, start: nat, end: nat) {
    && 1 <= start <= end <= 65535
    && ((IsNumeric(text) && Value(text) == start == end) ||
        (exists a, b :: IsNumeric(a) && IsNumeric(b) && Value(a) == start && Value(b) == end && text == a + ['-'] + b))
  }

  lemma NamedRangeParses(text: string, start: nat, end: nat)
    requires Names(text, start, end)
    ensures ParsePortRange(text) == Ok((start, end)) && IsRangeText(text) && '/' !in text
  {
    hide Value;
    hide TrimSpace;
    if IsNumeric(text) && Value(text) == start == end {
      NumberIsPlain(text);
      assert IsDigit(text[0]) && !IsDigit('/');
      NumberParses(text);
    } else {
      var a, b :| IsNumeric(a) && IsNumeric(b) && Value(a) == start && Value(b) == end && text == a + ['-'] + b;
      TwoNumbersParse(text, a, b);
    }
  }

  lemma NumberParses(text: string)
    requires IsNumeric(text) && 1 <= Value(text) <= 65535
    ensures ParsePort(text) == Ok(Value(text))
  {
    hide TrimSpace;
    NumberIsPlain(text);
    PortParsesExactlyWhen(text, Value(text));
  }

  lemma TwoNumbersParse(text: string, a: string, b: string)
    requires IsNumeric(a) && IsNumeric(b) && 1 <= Value(a) <= Value(b) <= 65535 && text == a + ['-'] + b
    ensures ParsePortRange(text) == Ok((Value(a), Value(b))) && IsRangeText(text) && '/' !in text
  {
    hide Value;
    hide ParsePort;
    hide TrimSpace;
    NumberIsPlain(a);
    NumberIsPlain(b);
    NumberParses(a);
    NumberParses(b);
    assert text[0] == a[0] && text[|text| - 1] == b[|b| - 1] && IsDigit(a[0]) && IsDigit(b[|b| - 1]);
    TrimmedIsKept(text);
    CutAtFirst(text, a, '-', b);
    assert !IsDigit('/');
  }

  /** What a publication is read as: one container port or a range of them, and no host port,
      one, or a range. */
  function Published(ip: string, hostStart: nat, hostEnd: nat, start: nat, end: nat, protocol: string): PortMapping {
    PortMapping(ip, hostStart, hostEnd, start, if end > start then end else 0, protocol)
  }

  /** The short form: container port; host and container port; host address in front of
      both, in brackets where it has colons. The protocol is tcp unless one follows a slash. */
  lemma ShortFormIs(ip: string, host: string, hostStart: nat, hostEnd: nat, container: string, start: nat, end: nat)
    requires Names(host, hostStart, hostEnd) && Names(container, start, end)
    ensures ParseShortPort(container) == Ok(Published("", 0, 0, start, end, "tcp"))
    ensures ParseShortPort(host + ":" + container) == Ok(Published("", hostStart, hostEnd, start, end, "tcp"))
    ensures IsPlainAddress(ip) && '/' !in ip ==>
              ParseShortPort(ip + ":" + (host + ":" + container)) ==
              Ok(Published(ip, hostStart, hostEnd, start, end, "tcp"))
    ensures ']' !in ip && '/' !in ip ==>
              ParseShortPort("[" + ip + "]:" + (host + ":" + container)) ==
              Ok(Published(ip, hostStart, hostEnd, start, end, "tcp"))
  {
    hide ParseRest;
    hide Locate;
    hide TrimSpace;
    hide Index;
    NamedRangeParses(host, hostStart, hostEnd);
    NamedRangeParses(container, start, end);
    RestIsRead(ip, host, hostStart, hostEnd, container, start, end, "tcp");
    var pair := host + ":" + container;
    assert pair[0] == host[0] && pair[|pair| - 1] == container[|container| - 1];
    EndsInDigit(container, start, end);
    WithoutProtocol(container);
    WithoutProtocol(pair);
    if IsPlainAddress(ip) && '/' !in ip {
      var text := ip + ":" + pair;
      assert text[0] == ip[0] && text[|text| - 1] == pair[|pair| - 1];
      WithoutProtocol(text);
    }
    if ']' !in ip && '/' !in ip {
      var text := "[" + ip + "]:" + pair;
      assert text[0] == '[' && text[|text| - 1] == pair[|pair| - 1];
      WithoutProtocol(text);
    }
  }

  /** With a protocol behind a slash, in any case and with spaces around it. */
  lemma ShortFormWithProtocol(ip: string, host: string, hostStart: nat, hostEnd: nat, container: string, start: nat,
                              end: nat, protocol: string)
    requires Names(host, hostStart, hostEnd) && Names(container, start, end)
    requires protocol != "" && Trimmed(protocol) && '/' !in protocol
    ensures ParseShortPort(container + "/" + protocol) == Ok(Published("", 0, 0, start, end, ToLower(protocol)))
    ensures ParseShortPort(host + ":" + container + "/" + protocol) ==
            Ok(Published("", hostStart, hostEnd, start, end, ToLower(protocol)))
    ensures IsPlainAddress(ip) ==>
              ParseShortPort(ip + ":" + (host + ":" + container) + "/" + protocol) ==
              Ok(Published(ip, hostStart, hostEnd, start, end, ToLower(protocol)))
    ensures ']' !in ip ==>
              ParseShortPort("[" + ip + "]:" + (host + ":" + container) + "/" + protocol) ==
              Ok(Published(ip, hostStart, hostEnd, start, end, ToLower(protocol)))
  {
    hide ParseRest;
    hide Locate;
    hide TrimSpace;
    hide ParseShortPort;
    NamedRangeParses(host, hostStart, hostEnd);
    NamedRangeParses(container, start, end);
    RestIsRead(ip, host, hostStart, hostEnd, container, start, end, ToLower(protocol));
    var pair := host + ":" + container;
    assert pair[0] == host[0];
    BeforeProtocol(container, protocol);
    BeforeProtocol(pair, protocol);
    if IsPlainAddress(ip) {
      assert (ip + ":" + pair)[0] == ip[0];
      BeforeProtocol(ip + ":" + pair, protocol);
    }
    if ']' !in ip {
      assert ("[" + ip + "]:" + pair)[0] == '[';
      BeforeProtocol("[" + ip + "]:" + pair, protocol);
    }
  }

  /** What the short form refuses: nothing at all, a slash with no protocol behind it, a
      bracket that is not closed, a bracketed address with one port, and more than three parts
      without brackets. */
  lemma RefusedForms(spaces: string, body: string, a: string, b: string, c: string, d: string, protocol: string)
    requires AllSpaces(spaces)
    ensures ParseShortPort(spaces) == Err(EmptySpec)
    ensures body != "" && !IsSpace(body[0]) ==> ParseShortPort(body + "/") == Err(NoProtocol)
    ensures ']' !in a ==> ParseRest("[" + a, protocol) == Err(Unterminated)
    ensures ']' !in a && ':' !in b ==> ParseRest("[" + a + "]:" + b, protocol) == Err(NeedsBothPorts)
    ensures ':' !in a && ':' !in b && ':' !in c && (a != "" ==> a[0] != '[') ==>
              ParseRest(a + ":" + (b + ":" + (c + ":" + d)), protocol) == Err(TooManyParts)
  {
    hide ReadPorts;
    NothingIsRefused(spaces);
    if body != "" && !IsSpace(body[0]) { SlashAloneIsRefused(body); }
    if ']' !in a { OpenBracketIsRefused(a, b); }
    if ':' !in a && ':' !in b && ':' !in c && (a != "" ==> a[0] != '[') { FourPartsAreRefused(a, b, c, d); }
  }

  lemma NothingIsRefused(spaces: string)
    requires AllSpaces(spaces)
    ensures ParseShortPort(spaces) == Err(EmptySpec)
  {
    hide TrimSpace;
    TrimmingIs(spaces, "", "");
    assert spaces + "" + "" == spaces;
  }

  lemma SlashAloneIsRefused(body: string)
    requires body != "" && !IsSpace(body[0])
    ensures ParseShortPort(body + "/") == Err(NoProtocol)
  {
    hide TrimSpace;
    hide ParseRest;
    var text := body + ['/'];
    assert body + "/" == text == body + ['/'] + "" && text[0] == body[0] && text[|text| - 1] == '/';
    TrimmedIsKept(text);
    CutAtLast(text, body, '/', "");
    TrimmedIsKept("");
  }

  lemma OpenBracketIsRefused(a: string, b: string)
    requires ']' !in a
    ensures Locate("[" + a) == Err(Unterminated)
    ensures ':' !in b ==> Locate("[" + a + "]:" + b) == Err(NeedsBothPorts)
  {
    hide Split;
    hide Index;
    var s, after := "[" + a + "]:" + b, ":" + b;
    assert s == ("[" + a) + [']'] + after;
    CutAtFirst(s, "[" + a, ']', after);
    assert after[1..] == b;
    if ':' !in b { SplitOne(b); }
  }

  lemma FourPartsAreRefused(a: string, b: string, c: string, d: string)
    requires ':' !in a && ':' !in b && ':' !in c && (a != "" ==> a[0] != '[')
    ensures Locate(a + ":" + (b + ":" + (c + ":" + d))) == Err(TooManyParts)
  {
    hide Split;
    SplitMore(a, b + ":" + (c + ":" + d));
    SplitMore(b, c + ":" + d);
    SplitMore(c, d);
  }

  lemma EndsInDigit(text: string, start: nat, end: nat)
    requires Names(text, start, end)
    ensures IsDigit(text[|text| - 1])
  {
    hide Value;
    if !IsNumeric(text) {
      var a, b :| IsNumeric(a) && IsNumeric(b) && Value(a) == start && Value(b) == end && text == a + ['-'] + b;
      assert text[|text| - 1] == b[|b| - 1];
    }
  }

  lemma WithoutProtocol(text: string)
    requires text != "" && !IsSpace(text[0]) && !IsSpace(text[|text| - 1]) && '/' !in text
    ensures ParseShortPort(text) == ParseRest(text, "tcp")
  {
    hide ParseRest;
    hide TrimSpace;
    TrimmedIsKept(text);
  }

  lemma BeforeProtocol(body: string, protocol: string)
    requires body != "" && !IsSpace(body[0]) && protocol != "" && Trimmed(protocol) && '/' !in protocol
    ensures ParseShortPort(body + "/" + protocol) == ParseRest(body, ToLower(protocol))
  {
    hide ParseRest;
    hide TrimSpace;
    var text := body + "/" + protocol;
    assert text == body + ['/'] + protocol;
    assert text[0] == body[0] && text[|text| - 1] == protocol[|protocol| - 1];
    TrimmedIsKept(text);
    TrimmedIsKept(protocol);
    CutAtLast(text, body, '/', protocol);
    assert |ToLower(protocol)| == |protocol|;
  }

  lemma RestIsRead(ip: string, host: string, hostStart: nat, hostEnd: nat, container: string, start: nat, end: nat,
                   protocol: string)
    requires Names(host, hostStart, hostEnd) && Names(container, start, end)
    ensures ParseRest(container, protocol) == Ok(Published("", 0, 0, start, end, protocol))
    ensures ParseRest(host + ":" + container, protocol) == Ok(Published("", hostStart, hostEnd, start, end, protocol))
    ensures IsPlainAddress(ip) ==>
              ParseRest(ip + ":" + (host + ":" + container), protocol) ==
              Ok(Published(ip, hostStart, hostEnd, start, end, protocol))
    ensures ']' !in ip ==>
              ParseRest("[" + ip + "]:" + (host + ":" + container), protocol) ==
              Ok(Published(ip, hostStart, hostEnd, start, end, protocol))
  {
    hide Locate;
    hide ReadPorts;
    hide IsPlainAddress;
    NamedRangeParses(host, hostStart, hostEnd);
    NamedRangeParses(container, start, end);
    PlacesWithoutAddress(host, container);
    if IsPlainAddress(ip) { PlacesAfterPlainAddress(ip, host, container); }
    if ']' !in ip { PlacesAfterBrackets(ip, host, container); }
    forall address {
      PlacesAreRead(address, host, hostStart, hostEnd, container, start, end, protocol);
    }
  }

  lemma PlacesAreRead(ip: string, host: string, hostStart: nat, hostEnd: nat, container: string, start: nat, end: nat,
                      protocol: string)
    requires Names(host, hostStart, hostEnd) && Names(container, start, end)
    ensures ReadPorts(Places(ip, host, container), protocol) == Ok(Published(ip, hostStart, hostEnd, start, end, protocol))
    ensures ReadPorts(Places(ip, "", container), protocol) == Ok(Published(ip, 0, 0, start, end, protocol))
  {
    hide ParsePortRange;
    hide TrimSpace;
    NamedRangeParses(host, hostStart, hostEnd);
    NamedRangeParses(container, start, end);
    TrimmedIsKept("");
  }

  /** The long form: its target is one container port, the first it names, and a published
      port that names none is left out. */
  lemma LongFormIs(target: string, start: nat, end: nat, published: string, hostStart: nat, hostEnd: nat,
                   protocol: string, hostIp: string)
    requires Names(target, start, end) && Names(published, hostStart, hostEnd)
    ensures var p := if TrimSpace(protocol) == "" then "tcp" else ToLower(TrimSpace(protocol));
            && LongPort(target, published, protocol, hostIp) ==
               Ok(PortMapping(TrimSpace(hostIp), hostStart, hostEnd, start, 0, p))
            && forall other :: ParsePortRange(other).Err? ==>
                 LongPort(target, other, protocol, hostIp) == Ok(PortMapping(TrimSpace(hostIp), 0, 0, start, 0, p))
  {
    hide ParsePortRange;
    hide TrimSpace;
    NamedRangeParses(target, start, end);
    NamedRangeParses(published, hostStart, hostEnd);
  }

  lemma NoPortsAreRead()
    ensures TrimSpace("") == "" && ParsePortRange("") == Err(EmptyPort)
  {}

  lemma BracketsAreTrimmed(ip: string)
    requires '[' !in ip && ']' !in ip
    ensures TrimBrackets(ip) == ip && TrimBrackets("[" + ip + "]") == ip
  {
    hide TrimBrackets;
    var t := ip + [']'];
    var s := ['['] + t;
    assert s == "[" + ip + "]" && s[1..] == t && t[..|t| - 1] == ip;
    TrimStep(s);
    TrimStep(t);
    TrimStep(ip);
    if ip == "" {
      assert t[1..] == "";
    } else {
      assert ip[0] in ip && ip[|ip| - 1] in ip && t[0] == ip[0];
    }
  }

  lemma TrimStep(s: string)
    ensures TrimBrackets(s) ==
            if s == "" then ""
            else if s[0] == '[' || s[0] == ']' then TrimBrackets(s[1..])
            else if s[|s| - 1] == '[' || s[|s| - 1] == ']' then TrimBrackets(s[..|s| - 1])
            else s
  {}

  /** The form Compose resolves an entry to: a target that is a number, one host port or a
      range, an address in brackets or not. */
  lemma ResolvedFormIs(target: int, published: string, hostStart: nat, hostEnd: nat, protocol: string, ip: string)
    requires Names(published, hostStart, hostEnd) && '[' !in ip && ']' !in ip
    ensures var p := if protocol == "" then "tcp" else ToLower(protocol);
            var m := PortMapping(ip, hostStart, if hostEnd > hostStart then hostEnd else 0, target, 0, p);
            && ResolvedPort(target, published, protocol, ip) == Ok(m)
            && ResolvedPort(target, published, protocol, "[" + ip + "]") == Ok(m)
            && ResolvedPort(target, "", protocol, ip) == Ok(PortMapping(ip, 0, 0, target, 0, p))
  {
    hide ParsePortRange;
    hide TrimSpace;
    hide TrimBrackets;
    NamedRangeParses(published, hostStart, hostEnd);
    NoPortsAreRead();
    BracketsAreTrimmed(ip);
    assert |ToLower(protocol)| == |protocol|;
  }

  /** One publication written in the three forms claims the same host ports of the same
      address, one after the other, for the same container port and protocol, and is a
      choice among them exactly when there are several. */
  lemma FormsAgree(ip: string, host: string, hostStart: nat, hostEnd: nat, container: string, port: nat, protocol: string)
    requires Names(host, hostStart, hostEnd) && Names(container, port, port) && IsProtocol(protocol)
    requires IsPlainAddress(ip) && '[' !in ip && ']' !in ip
    ensures var short := ParseShortPort(ip + ":" + (host + ":" + container) + "/" + protocol);
            var long := LongPort(container, host, protocol, ip);
            var resolved := ResolvedPort(port, host, protocol, ip);
            && short.Ok? && long.Ok? && resolved.Ok?
            && forall m :: m in {short.value, long.value, resolved.value} ==>
                 && m.hostIp == ip && m.containerPort == port && m.protocol == protocol
                 && |m.HostPorts()| == hostEnd - hostStart + 1
                 && (forall i :: 0 <= i < |m.HostPorts()| ==> m.HostPorts()[i] == hostStart + i)
                 && (m.Dynamic() <==> hostEnd > hostStart) && !m.Ephemeral()
  {
    hide ParseShortPort;
    hide LongPort;
    hide ResolvedPort;
    hide TrimSpace;
    TrimmedIsKept(protocol);
    TrimmedIsKept(ip);
    ShortFormWithProtocol(ip, host, hostStart, hostEnd, container, port, port, protocol);
    LongFormIs(container, port, port, host, hostStart, hostEnd, protocol, ip);
    ResolvedFormIs(port, host, hostStart, hostEnd, protocol, ip);
  }

  /** What a short form binds: all of as many host ports as it has container ports, one of
      several, or whatever the engine chooses. */
  lemma PublicationsAre(ip: string, hostStart: nat, hostEnd: nat, start: nat, end: nat, protocol: string)
    requires 1 <= hostStart <= hostEnd && 1 <= start <= end
    ensures Published(ip, hostStart, hostEnd, start, end, protocol).Dynamic() <==> hostEnd > hostStart && end == start
    ensures !Published(ip, hostStart, hostEnd, start, end, protocol).Ephemeral()
    ensures Published(ip, 0, 0, start, end, protocol).Ephemeral()
    ensures Published(ip, 0, 0, start, end, protocol).HostPorts() == []
  {}
}
