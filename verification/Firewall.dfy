/** The compiler from a firewall plan to an nftables ruleset, and what the ruleset lets in. */
module Firewall {
  import opened Common
  import opened Sorting

  // ---------------------------------------------------------------- packets

  datatype Family = Ip | Ip6

  datatype Protocol = Tcp | Udp

  datatype Tracking = New | Established | Related | Invalid | Untracked

  datatype Payload =
    | Ports(protocol: Protocol, sport: nat, dport: nat)
    | Icmp(kind: string)
    | Icmp6(kind: string)
    | OtherPayload

  datatype Packet = Packet(iif: string, tracking: Tracking, family: Family, source: nat, payload: Payload)

  function Pow2(n: nat): (r: nat)
    ensures r > 0
  {
    if n == 0 then 1 else 2 * Pow2(n - 1)
  }

  /** A network: its first address and how many low bits are the host's. */
  datatype Network = Network(family: Family, base: nat, hostBits: nat)

  predicate Contains(net: Network, address: nat) {
    net.base <= address < net.base + Pow2(net.hostBits)
  }

  /** What is left of an address without its n low bits. */
  ghost function Prefix(address: nat, n: nat): nat {
    if n == 0 then address else Prefix(address / 2, n - 1)
  }

  ghost predicate LowBitsAreZero(address: nat, n: nat) {
    n > 0 ==> address % 2 == 0 && LowBitsAreZero(address / 2, n - 1)
  }

  lemma MultipleGrows(m: nat, d: nat)
    requires d >= 1
    ensures m * d >= m
  {
  }

  /** Division with a remainder has one answer. */
  lemma OneQuotient(m: nat, k: nat, r: nat, q: nat, rest: nat)
    requires m * k + r == m * q + rest && r < m && rest < m
    ensures k == q && r == rest
  {
    if k < q {
      assert m * q - m * k == m * (q - k);
      MultipleGrows(m, q - k);
    } else if k > q {
      assert m * k - m * q == m * (k - q);
      MultipleGrows(m, k - q);
    }
  }

  lemma Quotient(x: nat, m: nat, q: nat, rest: nat)
    requires m > 0 && x == m * q + rest && rest < m
    ensures x / m == q && x % m == rest
  {
    OneQuotient(m, x / m, x % m, q, rest);
  }

  lemma Halved(x: nat, m: nat)
    requires m > 0
    ensures (x / 2) / m == x / (2 * m)
    ensures x % (2 * m) == 0 <==> x % 2 == 0 && (x / 2) % m == 0
  {
    var q, rest := x / (2 * m), x % (2 * m);
    var t := m * q;
    assert x == 2 * t + rest by {
      assert x == (2 * m) * q + rest && (2 * m) * q == 2 * (m * q);
    }
    assert x / 2 == t + rest / 2 && x % 2 == rest % 2;
    Quotient(x / 2, m, q, rest / 2);
  }

  lemma {:induction false} PrefixIs(address: nat, n: nat)
    ensures Prefix(address, n) == address / Pow2(n)
    ensures LowBitsAreZero(address, n) <==> address % Pow2(n) == 0
  {
    if n > 0 {
      PrefixIs(address / 2, n - 1);
      Halved(address, Pow2(n - 1));
    }
  }

  lemma SameQuotient(x: nat, m: nat, base: nat)
    requires m > 0 && base % m == 0
    ensures base <= x < base + m <==> x / m == base / m
  {
    var k := base / m;
    assert base == m * k;
    if base <= x < base + m {
      Quotient(x, m, k, x - base);
    }
    var r := x % m;
    assert x == m * (x / m) + r;
  }

  /** A network without host bits holds the addresses that share its prefix. */
  lemma ContainsIs(net: Network, address: nat)
    requires net.base % Pow2(net.hostBits) == 0
    ensures Contains(net, address) <==> Prefix(address, net.hostBits) == Prefix(net.base, net.hostBits)
  {
    PrefixIs(address, net.hostBits);
    PrefixIs(net.base, net.hostBits);
    hide Prefix, LowBitsAreZero, Pow2;
    SameQuotient(address, Pow2(net.hostBits), net.base);
  }

  predicate Within(nets: seq<Network>, address: nat) {
    exists net <- nets :: Contains(net, address)
  }

  /** No address lies in both. */
  ghost predicate Disjoint(a: Network, b: Network) {
    forall address: nat :: !(Contains(a, address) && Contains(b, address))
  }

  /** No address lies in two entries of the list. */
  ghost predicate NoOverlap(nets: seq<Network>) {
    forall i, j :: 0 <= i < j < |nets| ==> Disjoint(nets[i], nets[j])
  }

  // ---------------------------------------------------------------- rulesets

  datatype Match =
    | IifName(name: string)
    | CtState(states: set<Tracking>)
    | Sport(protocol: Protocol, port: nat)
    | DportIs(protocol: Protocol, port: nat)
    | DportIn(protocol: Protocol, ports: seq<nat>)
    | IcmpType(kinds: set<string>)
    | Icmp6Type(kinds: set<string>)
    | Saddr(family: Family, setName: string)

  datatype Verdict = Accept | Drop

  datatype Rule = Rule(matches: seq<Match>, verdict: Verdict)

  datatype Chain = Chain(policy: Verdict, rules: seq<Rule>)

  datatype AddressSet = AddressSet(family: Family, elements: seq<Network>)

  datatype Ruleset = Ruleset(sets: map<string, AddressSet>, input: Chain, forward: Chain, output: Chain)

  predicate Matches(m: Match, p: Packet, sets: map<string, AddressSet>) {
    match m
    case IifName(name) => p.iif == name
    case CtState(states) => p.tracking in states
    case Sport(protocol, port) => p.payload.Ports? && p.payload.protocol == protocol && p.payload.sport == port
    case DportIs(protocol, port) => p.payload.Ports? && p.payload.protocol == protocol && p.payload.dport == port
    case DportIn(protocol, ports) => p.payload.Ports? && p.payload.protocol == protocol && p.payload.dport in ports
    case IcmpType(kinds) => p.family.Ip? && p.payload.Icmp? && p.payload.kind in kinds
    case Icmp6Type(kinds) => p.family.Ip6? && p.payload.Icmp6? && p.payload.kind in kinds
    case Saddr(family, name) => p.family == family && name in sets && Within(sets[name].elements, p.source)
  }

  predicate Applies(r: Rule, p: Packet, sets: map<string, AddressSet>) {
    forall m <- r.matches :: Matches(m, p, sets)
  }

  /** The verdict of the first rule that applies. */
  function Walk(rules: seq<Rule>, p: Packet, sets: map<string, AddressSet>): Option<Verdict> {
    if rules == [] then None
    else if Applies(rules[0], p, sets) then Some(rules[0].verdict)
    else Walk(rules[1..], p, sets)
  }

  function Judge(chain: Chain, p: Packet, sets: map<string, AddressSet>): Verdict {
    var v := Walk(chain.rules, p, sets);
    if v.Some? then v.value else chain.policy
  }

  /** A match refers only to a declared set of its own family, and lists at least one port. */
  predicate WellTyped(m: Match, sets: map<string, AddressSet>) {
    && (m.Saddr? ==> m.setName in sets && sets[m.setName].family == m.family)
    && (m.DportIn? ==> |m.ports| > 0)
  }

  /** Every set holds networks of its family, at least one, and every match is well typed.  Whether
      nft accepts sets whose networks overlap is another matter. */
  ghost predicate Consistent(r: Ruleset) {
    && (forall name <- r.sets ::
          && r.sets[name].elements != []
          && forall net <- r.sets[name].elements :: net.family == r.sets[name].family)
    && (forall rule <- r.input.rules :: forall m <- rule.matches :: WellTyped(m, r.sets))
    && r.forward.rules == [] && r.output.rules == []
  }

  /** A rule at the end of a chain is reached exactly by the packets no earlier rule took. */
  lemma {:induction false} WalkAppend(rules: seq<Rule>, last: Rule, p: Packet, sets: map<string, AddressSet>)
    ensures Walk(rules + [last], p, sets) ==
            if Walk(rules, p, sets).Some? then Walk(rules, p, sets)
            else if Applies(last, p, sets) then Some(last.verdict)
            else None
  {
    var all := rules + [last];
    if rules == [] {
      assert Walk(all[1..], p, sets) == None;
    } else {
      assert all[0] == rules[0] && all[1..] == rules[1..] + [last];
      WalkAppend(rules[1..], last, p, sets);
    }
  }

  lemma WalkEmpty(sets: map<string, AddressSet>)
    ensures forall p :: Walk([], p, sets) == None
  {
  }

  lemma AppliesOne(a: Match, v: Verdict, sets: map<string, AddressSet>)
    ensures forall p :: Applies(Rule([a], v), p, sets) <==> Matches(a, p, sets)
    ensures !a.Saddr? && !a.DportIn? ==> forall m <- [a] :: WellTyped(m, sets)
  {
    assert a in [a];
  }

  lemma AppliesTwo(a: Match, b: Match, v: Verdict, sets: map<string, AddressSet>)
    ensures forall p :: Applies(Rule([a, b], v), p, sets) <==> Matches(a, p, sets) && Matches(b, p, sets)
    ensures a.Sport? && b.DportIs? ==> forall m <- [a, b] :: WellTyped(m, sets)
  {
    assert a in [a, b] && b in [a, b];
  }

  lemma AppliesThree(a: Match, b: Match, c: Match, v: Verdict, sets: map<string, AddressSet>)
    ensures forall p :: Applies(Rule([a, b, c], v), p, sets) <==>
              Matches(a, p, sets) && Matches(b, p, sets) && Matches(c, p, sets)
  {
    assert a in [a, b, c] && b in [a, b, c] && c in [a, b, c];
  }

  // ---------------------------------------------------------------- the plan

  datatype Service = Service(protocol: Protocol, ports: seq<nat>)

  datatype Plan = Plan(
    enabled: bool,
    inputPolicy: Verdict, forwardPolicy: Verdict, outputPolicy: Verdict,
    loopback: bool, established: bool, dhcpClient: bool, icmp: bool,
    sourcesV4: seq<Network>, sourcesV6: seq<Network>,
    sshPort: Option<nat>, agentTcp: seq<nat>, agentUdp: seq<nat>)

  const ICMP: set<string> := {"destination-unreachable", "time-exceeded", "parameter-problem", "echo-request"}

  const ICMP6: set<string> := {
    "destination-unreachable", "packet-too-big", "time-exceeded", "parameter-problem", "echo-request",
    "nd-router-advert", "nd-neighbor-solicit", "nd-neighbor-advert"
  }

  const SET_V4 := "management_sources_v4"
  const SET_V6 := "management_sources_v6"

  predicate DhcpReply(p: Packet) {
    && p.payload.Ports? && p.payload.protocol.Udp?
    && ((p.payload.sport == 67 && p.payload.dport == 68) || (p.payload.sport == 547 && p.payload.dport == 546))
  }

  predicate ListedIcmp(p: Packet) {
    || (p.family.Ip? && p.payload.Icmp? && p.payload.kind in ICMP)
    || (p.family.Ip6? && p.payload.Icmp6? && p.payload.kind in ICMP6)
  }

  /** The protocols and ports the plan opens to its management networks. */
  predicate Planned(plan: Plan, protocol: Protocol, port: nat) {
    match protocol
    case Tcp => (plan.sshPort.Some? && plan.sshPort.value == port) || port in plan.agentTcp
    case Udp => port in plan.agentUdp
  }

  function SourcesOf(plan: Plan, family: Family): seq<Network> {
    if family.Ip? then plan.sourcesV4 else plan.sourcesV6
  }

  predicate Managed(plan: Plan, p: Packet) {
    && p.tracking.New?
    && Within(SourcesOf(plan, p.family), p.source)
    && p.payload.Ports? && Planned(plan, p.payload.protocol, p.payload.dport)
  }

  /** What the plan means to let in, without reference to rules or their order. */
  predicate Allowed(plan: Plan, p: Packet) {
    || (plan.loopback && p.iif == "lo")
    || (!p.tracking.Invalid? &&
        (|| (plan.established && (p.tracking.Established? || p.tracking.Related?))
         || (plan.dhcpClient && DhcpReply(p))
         || (plan.icmp && ListedIcmp(p))
         || Managed(plan, p)))
  }

  predicate Refused(plan: Plan, p: Packet) {
    p.tracking.Invalid? && !(plan.loopback && p.iif == "lo")
  }

  // ---------------------------------------------------------------- the compiler

  function PortRule(protocol: Protocol, ports: seq<nat>): (m: Match)
    requires ports != []
    ensures forall p, sets :: Matches(m, p, sets) <==>
              p.payload.Ports? && p.payload.protocol == protocol && p.payload.dport in ports
    ensures forall sets :: WellTyped(m, sets)
  {
    if |ports| == 1 then DportIs(protocol, ports[0]) else DportIn(protocol, ports)
  }

  predicate Offers(services: seq<Service>, p: Packet) {
    && p.payload.Ports?
    && exists s <- services :: s.protocol == p.payload.protocol && p.payload.dport in s.ports
  }

  function SetName(family: Family): string {
    if family.Ip? then SET_V4 else SET_V6
  }

  ghost predicate RulesWellTyped(rules: seq<Rule>, sets: map<string, AddressSet>) {
    forall rule <- rules :: forall m <- rule.matches :: WellTyped(m, sets)
  }

  /** The rules for loopback and tracked connections. */
  method TrackingRules(plan: Plan, sets: map<string, AddressSet>) returns (lines: seq<Rule>)
    ensures RulesWellTyped(lines, sets)
    ensures forall p :: Walk(lines, p, sets) ==
              if plan.loopback && p.iif == "lo" then Some(Accept)
              else if p.tracking.Invalid? then Some(Drop)
              else if plan.established && (p.tracking.Established? || p.tracking.Related?) then Some(Accept)
              else None
  {
    hide Walk, Applies, WellTyped;
    WalkEmpty(sets);
    AppliesOne(IifName("lo"), Accept, sets);
    AppliesOne(CtState({Invalid}), Drop, sets);
    AppliesOne(CtState({Established, Related}), Accept, sets);
    lines := [];
    if plan.loopback {
      lines := Extend(lines, Rule([IifName("lo")], Accept), sets);
    }
    lines := Extend(lines, Rule([CtState({Invalid})], Drop), sets);
    if plan.established {
      lines := Extend(lines, Rule([CtState({Established, Related})], Accept), sets);
    }
  }

  /** The two rules for answers to the device's own DHCP requests. */
  method DhcpRules(lines: seq<Rule>, sets: map<string, AddressSet>) returns (longer: seq<Rule>)
    requires RulesWellTyped(lines, sets)
    ensures RulesWellTyped(longer, sets)
    ensures forall p :: Walk(longer, p, sets) ==
              if Walk(lines, p, sets).Some? then Walk(lines, p, sets)
              else if DhcpReply(p) then Some(Accept)
              else None
  {
    hide Walk, Applies, WellTyped;
    AppliesTwo(Sport(Udp, 67), DportIs(Udp, 68), Accept, sets);
    AppliesTwo(Sport(Udp, 547), DportIs(Udp, 546), Accept, sets);
    longer := Extend(lines, Rule([Sport(Udp, 67), DportIs(Udp, 68)], Accept), sets);
    longer := Extend(longer, Rule([Sport(Udp, 547), DportIs(Udp, 546)], Accept), sets);
  }

  /** The two rules for the listed kinds of ICMP. */
  method IcmpRules(lines: seq<Rule>, sets: map<string, AddressSet>) returns (longer: seq<Rule>)
    requires RulesWellTyped(lines, sets)
    ensures RulesWellTyped(longer, sets)
    ensures forall p :: Walk(longer, p, sets) ==
              if Walk(lines, p, sets).Some? then Walk(lines, p, sets)
              else if ListedIcmp(p) then Some(Accept)
              else None
  {
    hide Walk, Applies, WellTyped;
    AppliesOne(IcmpType(ICMP), Accept, sets);
    AppliesOne(Icmp6Type(ICMP6), Accept, sets);
    longer := Extend(lines, Rule([IcmpType(ICMP)], Accept), sets);
    longer := Extend(longer, Rule([Icmp6Type(ICMP6)], Accept), sets);
  }

  /** The rules that precede the management rules. */
  method GeneralRules(plan: Plan, sets: map<string, AddressSet>) returns (lines: seq<Rule>)
    ensures RulesWellTyped(lines, sets)
    ensures forall p :: Walk(lines, p, sets) ==
              if plan.loopback && p.iif == "lo" then Some(Accept)
              else if p.tracking.Invalid? then Some(Drop)
              else if plan.established && (p.tracking.Established? || p.tracking.Related?) then Some(Accept)
              else if plan.dhcpClient && DhcpReply(p) then Some(Accept)
              else if plan.icmp && ListedIcmp(p) then Some(Accept)
              else None
  {
    hide Walk, DhcpReply, ListedIcmp, RulesWellTyped;
    lines := TrackingRules(plan, sets);
    if plan.dhcpClient {
      lines := DhcpRules(lines, sets);
    }
    if plan.icmp {
      lines := IcmpRules(lines, sets);
    }
  }

  /** `lines.append`, with what it means for every packet. */
  method Extend(lines: seq<Rule>, rule: Rule, sets: map<string, AddressSet>) returns (longer: seq<Rule>)
    requires forall m <- rule.matches :: WellTyped(m, sets)
    ensures longer == lines + [rule]
    ensures RulesWellTyped(lines, sets) ==> RulesWellTyped(longer, sets)
    ensures forall p :: Walk(longer, p, sets) ==
              if Walk(lines, p, sets).Some? then Walk(lines, p, sets)
              else if Applies(rule, p, sets) then Some(rule.verdict)
              else None
  {
    longer := lines + [rule];
    forall p {
      WalkAppend(lines, rule, p, sets);
    }
  }

  /** One family's management rules: one rule per service that has ports. */
  method ManagementRules(lines: seq<Rule>, family: Family, services: seq<Service>, sets: map<string, AddressSet>)
    returns (longer: seq<Rule>)
    requires RulesWellTyped(lines, sets)
    requires SetName(family) in sets && sets[SetName(family)].family == family
    ensures RulesWellTyped(longer, sets)
    ensures forall p :: Walk(longer, p, sets) ==
              if Walk(lines, p, sets).Some? then Walk(lines, p, sets)
              else if p.tracking.New? && p.family == family
                      && Within(sets[SetName(family)].elements, p.source) && Offers(services, p) then Some(Accept)
              else None
  {
    longer := lines;
    for i := 0 to |services|
      invariant RulesWellTyped(longer, sets)
      invariant forall p :: Walk(longer, p, sets) ==
                  if Walk(lines, p, sets).Some? then Walk(lines, p, sets)
                  else if p.tracking.New? && p.family == family
                          && Within(sets[SetName(family)].elements, p.source) && Offers(services[..i], p)
                  then Some(Accept)
                  else None
    {
      var s := services[i];
      assert services[..i + 1] == services[..i] + [s];
      if s.ports != [] {
        var m := PortRule(s.protocol, s.ports);
        AppliesThree(Saddr(family, SetName(family)), m, CtState({New}), Accept, sets);
        longer := Extend(longer, Rule([Saddr(family, SetName(family)), m, CtState({New})], Accept), sets);
      }
    }
    assert services[..|services|] == services;
  }

  /** No address lies in two elements of one set. */
  ghost predicate SetsApart(sets: map<string, AddressSet>) {
    forall name <- sets :: NoOverlap(sets[name].elements)
  }

  /** There is a set for each family the plan has networks of, and it holds those. */
  ghost predicate SetsHold(sets: map<string, AddressSet>, plan: Plan) {
    && sets.Keys <= {"management_sources_v4", "management_sources_v6"}
    && (if plan.sourcesV4 == [] then "management_sources_v4" !in sets
        else "management_sources_v4" in sets && sets["management_sources_v4"] == AddressSet(Ip, plan.sourcesV4))
    && (if plan.sourcesV6 == [] then "management_sources_v6" !in sets
        else "management_sources_v6" in sets && sets["management_sources_v6"] == AddressSet(Ip6, plan.sourcesV6))
  }

  lemma WhenApart(plan: Plan, sets: map<string, AddressSet>)
    requires sets.Keys <= {SET_V4, SET_V6}
    requires plan.sourcesV4 != [] ==> SET_V4 in sets
    requires plan.sourcesV6 != [] ==> SET_V6 in sets
    requires SET_V4 in sets ==> sets[SET_V4].elements == plan.sourcesV4
    requires SET_V6 in sets ==> sets[SET_V6].elements == plan.sourcesV6
    ensures SetsApart(sets) <==> NoOverlap(plan.sourcesV4) && NoOverlap(plan.sourcesV6)
  {
    assert plan.sourcesV4 == [] ==> NoOverlap(plan.sourcesV4);
    assert plan.sourcesV6 == [] ==> NoOverlap(plan.sourcesV6);
  }

  method PlannedServices(plan: Plan) returns (services: seq<Service>)
    ensures forall p :: Offers(services, p) <==> p.payload.Ports? && Planned(plan, p.payload.protocol, p.payload.dport)
  {
    services := [];
    if plan.sshPort.Some? {
      services := services + [Service(Tcp, [plan.sshPort.value])];
    }
    services := services + [Service(Tcp, plan.agentTcp), Service(Udp, plan.agentUdp)];
    forall p
      ensures Offers(services, p) <==> p.payload.Ports? && Planned(plan, p.payload.protocol, p.payload.dport)
    {
      var n := |services|;
      assert services[n - 2] == Service(Tcp, plan.agentTcp) && services[n - 1] == Service(Udp, plan.agentUdp);
      assert plan.sshPort.Some? ==> services[0] == Service(Tcp, [plan.sshPort.value]);
    }
  }

  /** The generated ruleset is consistent, and its input chain accepts exactly what the plan allows.  (A
      plan whose input policy is accept also accepts whatever no rule took.) */
  method RulesetText(plan: Plan) returns (r: Ruleset)
    requires forall net <- plan.sourcesV4 :: net.family.Ip?
    requires forall net <- plan.sourcesV6 :: net.family.Ip6?
    ensures Consistent(r)
    ensures SetsApart(r.sets) <==> NoOverlap(plan.sourcesV4) && NoOverlap(plan.sourcesV6)
    ensures SetsHold(r.sets, plan)
    ensures r.forward == Chain(plan.forwardPolicy, []) && r.output == Chain(plan.outputPolicy, [])
    ensures forall p :: Judge(r.input, p, r.sets) ==
              if Allowed(plan, p) then Accept else if Refused(plan, p) then Drop else plan.inputPolicy
  {
    var sets := map[];
    if plan.sourcesV4 != [] {
      sets := sets[SET_V4 := AddressSet(Ip, plan.sourcesV4)];
    }
    if plan.sourcesV6 != [] {
      sets := sets[SET_V6 := AddressSet(Ip6, plan.sourcesV6)];
    }
    WhenApart(plan, sets);
    assert SetsHold(sets, plan);
    hide SetsApart, NoOverlap, SetsHold;
    var lines := GeneralRules(plan, sets);
    var services := PlannedServices(plan);
    if plan.sourcesV4 != [] {
      lines := ManagementRules(lines, Ip, services, sets);
    }
    if plan.sourcesV6 != [] {
      lines := ManagementRules(lines, Ip6, services, sets);
    }
    r := Ruleset(sets, Chain(plan.inputPolicy, lines), Chain(plan.forwardPolicy, []), Chain(plan.outputPolicy, []));
  }

  // ---------------------------------------------------------------- the plan's source

  /** A YAML scalar where a port is expected; a boolean is not a port although Python counts it as an int. */
  datatype Scalar = IntItem(n: int) | BoolItem(b: bool) | TextItem(text: string)

  predicate IsPort(item: Scalar) {
    item.IntItem? && 1 <= item.n <= 65535
  }

  function AtMost(): (int, int) -> bool {
    (a: int, b: int) => a <= b
  }

  /** `_ports`: an error exactly when some item is no port, else the distinct ports in rising order. */
  method ParsePorts(value: seq<Scalar>) returns (r: Option<seq<nat>>)
    ensures r.Some? <==> forall item <- value :: IsPort(item)
    ensures r.Some? ==>
              && (forall i, j :: 0 <= i < j < |r.value| ==> r.value[i] < r.value[j])
              && (forall port: nat :: port in r.value <==> IntItem(port) in value)
  {
    var result: seq<int> := [];
    for i := 0 to |value|
      invariant forall item <- value[..i] :: IsPort(item)
      invariant Distinct(result)
      invariant forall port :: port in result <==> IntItem(port) in value[..i]
    {
      assert value[..i + 1] == value[..i] + [value[i]];
      if !IsPort(value[i]) {
        return None;
      }
      if value[i].n !in result {
        result := result + [value[i].n];
      }
    }
    assert value[..|value|] == value;
    var sorted := Sorted(result, AtMost());
    assert forall port <- sorted :: port >= 0 && IntItem(port) in value;
    forall i, j | 0 <= i < j < |sorted|
      ensures sorted[i] < sorted[j]
    {
      assert AtMost()(sorted[i], sorted[j]);
    }
    forall i | 0 <= i < |sorted|
      ensures sorted[i] >= 0
    {
      assert sorted[i] in sorted;
    }
    var ports: seq<nat> := sorted;
    r := Some(ports);
  }

  /** A management source as `ip_network` sees it. */
  datatype Source = Parsed(net: Network) | Unparsable

  /** `strict=True` refuses a network whose host bits are not all zero. */
  predicate IsNetwork(s: Source) {
    s.Parsed? && s.net.base % Pow2(s.net.hostBits) == 0
  }

  datatype Config = Config(
    enabled: bool, statePath: string,
    input: string, forward: string, output: string,
    loopback: bool, established: bool, dhcpClient: bool, icmp: bool,
    sources: seq<Source>, sshFromConfig: bool, sshPort: Option<int>,
    agentEnabled: bool, agentTcp: seq<Scalar>, agentUdp: seq<Scalar>)

  predicate Acceptable(c: Config) {
    && c.input == "drop" && c.forward == "drop" && (c.output == "accept" || c.output == "drop")
    && c.sources != [] && (forall s <- c.sources :: IsNetwork(s))
    && (c.agentEnabled ==> (forall i <- c.agentTcp :: IsPort(i)) && (forall i <- c.agentUdp :: IsPort(i)))
    && (c.sshFromConfig ==> c.sshPort.Some? && 1 <= c.sshPort.value <= 65535)
    && STATE_DIRECTORY <= c.statePath
  }

  const STATE_DIRECTORY := "/var/lib/xaac-agent/"

  /** The same with every rule written out. */
  ghost predicate IsAccepted(c: Config) {
    && c.input == "drop" && c.forward == "drop" && c.output in {"accept", "drop"}
    && |c.sources| >= 1
    && (forall s <- c.sources :: s.Parsed? && LowBitsAreZero(s.net.base, s.net.hostBits))
    && (c.agentEnabled ==> forall item <- c.agentTcp + c.agentUdp :: exists n :: item == IntItem(n) && 1 <= n < 65536)
    && (c.sshFromConfig ==> exists n :: c.sshPort == Some(n) && 1 <= n < 65536)
    && "/var/lib/xaac-agent/" <= c.statePath
  }

  lemma AcceptedExactly(c: Config)
    ensures Acceptable(c) <==> IsAccepted(c)
  {
    forall s <- c.sources
      ensures IsNetwork(s) <==> s.Parsed? && LowBitsAreZero(s.net.base, s.net.hostBits)
    {
      if s.Parsed? {
        PrefixIs(s.net.base, s.net.hostBits);
      }
    }
    hide IsNetwork, LowBitsAreZero;
    forall item: Scalar
      ensures IsPort(item) <==> exists n :: item == IntItem(n) && 1 <= n < 65536
    {
    }
    assert forall item :: item in c.agentTcp + c.agentUdp <==> item in c.agentTcp || item in c.agentUdp;
  }

  /** The packet comes from an address with the prefix of a configured network. */
  ghost predicate FromPrefix(c: Config, p: Packet) {
    exists s <- c.sources ::
      && s.Parsed? && s.net.family == p.family
      && Prefix(p.source, s.net.hostBits) == Prefix(s.net.base, s.net.hostBits)
  }

  lemma ManagementIs(c: Config, p: Packet)
    requires forall s <- c.sources :: IsNetwork(s)
    ensures FromManagement(c, p) <==> FromPrefix(c, p)
  {
    hide Prefix, Contains;
    forall s <- c.sources
      ensures Contains(s.net, p.source) <==> Prefix(p.source, s.net.hostBits) == Prefix(s.net.base, s.net.hostBits)
    {
      ContainsIs(s.net, p.source);
    }
  }

  /** The root is a `rootfs` directory, and neither `/` nor right below it. */
  predicate IsRootfs(root: Root) {
    SafeRoot(root) && root[|root| - 1] == "rootfs"
  }

  /** What the configuration file opens to its management networks. */
  predicate Opens(c: Config, protocol: Protocol, port: nat) {
    || (protocol.Tcp? && c.sshFromConfig && c.sshPort == Some(port))
    || (c.agentEnabled && IntItem(port) in (if protocol.Tcp? then c.agentTcp else c.agentUdp))
  }

  predicate FromManagement(c: Config, p: Packet) {
    exists s <- c.sources :: s.Parsed? && s.net.family == p.family && Contains(s.net, p.source)
  }

  /** The sources of one family, in their order. */
  function NetworksOf(sources: seq<Source>, family: Family): seq<Network> {
    if sources == [] then []
    else
      var last := sources[|sources| - 1];
      NetworksOf(sources[..|sources| - 1], family)
      + if last.Parsed? && last.net.family == family then [last.net] else []
  }

  lemma {:induction false} NetworksAre(sources: seq<Source>, family: Family)
    ensures forall net :: net in NetworksOf(sources, family) <==> net.family == family && Parsed(net) in sources
  {
    if sources != [] {
      var front, last := sources[..|sources| - 1], sources[|sources| - 1];
      NetworksAre(front, family);
      assert forall s :: s in sources <==> s in front || s == last;
    }
  }

  lemma NetworksStep(sources: seq<Source>, i: nat, family: Family)
    requires i < |sources|
    ensures NetworksOf(sources[..i + 1], family) ==
            NetworksOf(sources[..i], family)
            + if sources[i].Parsed? && sources[i].net.family == family then [sources[i].net] else []
  {
    assert sources[..i + 1][..i] == sources[..i];
  }

  /** No address lies in two configured networks of one family. */
  ghost predicate SourcesApart(sources: seq<Source>, family: Family) {
    forall i, j :: 0 <= i < j < |sources| && sources[i].Parsed? && sources[j].Parsed?
                   && sources[i].net.family == family && sources[j].net.family == family ==>
      Disjoint(sources[i].net, sources[j].net)
  }

  lemma {:induction false} NoOverlapExactly(sources: seq<Source>, family: Family)
    ensures NoOverlap(NetworksOf(sources, family)) <==> SourcesApart(sources, family)
  {
    if sources != [] {
      hide NoOverlap, SourcesApart, Disjoint;
      var n := |sources| - 1;
      NoOverlapExactly(sources[..n], family);
      if sources[n].Parsed? && sources[n].net.family == family {
        OverlapStep(NetworksOf(sources[..n], family), sources[n].net);
        SourcesStep(sources, family);
      } else {
        SourcesSkip(sources, family);
        assert NetworksOf(sources, family) == NetworksOf(sources[..n], family);
      }
    }
  }

  lemma SourcesSkip(sources: seq<Source>, family: Family)
    requires sources != []
    requires var last := sources[|sources| - 1]; !(last.Parsed? && last.net.family == family)
    ensures SourcesApart(sources, family) <==> SourcesApart(sources[..|sources| - 1], family)
  {
    hide Disjoint;
    var front := sources[..|sources| - 1];
    assert forall i :: 0 <= i < |front| ==> front[i] == sources[i];
  }

  lemma OverlapStep(nets: seq<Network>, last: Network)
    ensures NoOverlap(nets + [last]) <==> NoOverlap(nets) && forall net <- nets :: Disjoint(net, last)
  {
    hide Disjoint;
    var all := nets + [last];
    assert forall i :: 0 <= i < |nets| ==> all[i] == nets[i];
    if NoOverlap(all) {
      forall net <- nets
        ensures Disjoint(net, last)
      {
        var i :| 0 <= i < |nets| && nets[i] == net;
        assert Disjoint(all[i], all[|nets|]);
      }
    }
  }

  lemma SourcesStep(sources: seq<Source>, family: Family)
    requires sources != [] && sources[|sources| - 1].Parsed? && sources[|sources| - 1].net.family == family
    ensures var front, last := sources[..|sources| - 1], sources[|sources| - 1].net;
            SourcesApart(sources, family) <==>
            SourcesApart(front, family) && forall net <- NetworksOf(front, family) :: Disjoint(net, last)
  {
    hide Disjoint, NetworksOf;
    var n := |sources| - 1;
    var front, last := sources[..n], sources[n].net;
    NetworksAre(front, family);
    assert forall i :: 0 <= i < n ==> front[i] == sources[i];
    if SourcesApart(sources, family) {
      forall net <- NetworksOf(front, family)
        ensures Disjoint(net, last)
      {
        var i :| 0 <= i < n && front[i] == Parsed(net);
        assert Disjoint(sources[i].net, sources[n].net);
      }
    }
    if SourcesApart(front, family) && forall net <- NetworksOf(front, family) :: Disjoint(net, last) {
      forall i | 0 <= i < n && sources[i].Parsed? && sources[i].net.family == family
        ensures Disjoint(sources[i].net, last)
      {
        assert front[i] in front;
      }
    }
  }

  predicate Represents(plan: Plan, c: Config) {
    && plan.enabled == c.enabled
    && plan.inputPolicy.Drop? && plan.forwardPolicy.Drop? && (plan.outputPolicy.Accept? <==> c.output == "accept")
    && plan.loopback == c.loopback && plan.established == c.established
    && plan.dhcpClient == c.dhcpClient && plan.icmp == c.icmp
    && plan.sourcesV4 == NetworksOf(c.sources, Ip) && plan.sourcesV6 == NetworksOf(c.sources, Ip6)
    && forall s <- c.sources :: s.Parsed?
  }

  /** The management networks by family, in order; None when one is no network. */
  method SplitSources(sources: seq<Source>) returns (r: Option<(seq<Network>, seq<Network>)>)
    ensures r.Some? <==> forall s <- sources :: IsNetwork(s)
    ensures r.Some? ==> r.value.0 == NetworksOf(sources, Ip) && r.value.1 == NetworksOf(sources, Ip6)
    ensures r.Some? ==> |r.value.0| + |r.value.1| == |sources|
  {
    var v4: seq<Network>, v6: seq<Network> := [], [];
    assert sources[..0] == [];
    hide NetworksOf, IsNetwork;
    for i := 0 to |sources|
      invariant forall s <- sources[..i] :: IsNetwork(s)
      invariant v4 == NetworksOf(sources[..i], Ip) && v6 == NetworksOf(sources[..i], Ip6)
      invariant |v4| + |v6| == i
    {
      var s := sources[i];
      assert sources[..i + 1] == sources[..i] + [s];
      NetworksStep(sources, i, Ip);
      NetworksStep(sources, i, Ip6);
      if !IsNetwork(s) {
        return None;
      }
      if s.net.family.Ip? {
        v4 := v4 + [s.net];
      } else {
        v6 := v6 + [s.net];
      }
    }
    assert sources[..|sources|] == sources;
    r := Some((v4, v6));
  }

  /** `create_firewall_configuration_plan`: refused exactly when the root or the configuration is not
      acceptable; otherwise the plan opens exactly the configured ports. */
  method CreatePlan(root: Root, c: Config) returns (r: Option<Plan>)
    ensures r.Some? <==> IsRootfs(root) && Acceptable(c)
    ensures r.Some? ==> Represents(r.value, c)
    ensures r.Some? ==> forall protocol, port :: Planned(r.value, protocol, port) <==> Opens(c, protocol, port)
  {
    if !IsRootfs(root) {
      return None;
    }
    if c.input !in {"accept", "drop"} || c.forward !in {"accept", "drop"} || c.output !in {"accept", "drop"} {
      return None;
    }
    if c.input != "drop" || c.forward != "drop" {
      return None;
    }
    hide NetworksOf, IsNetwork, Pow2;
    var split := SplitSources(c.sources);
    if split.None? {
      return None;
    }
    var (v4, v6) := split.value;
    if v4 == [] && v6 == [] {
      return None;
    }
    var tcp, udp := Some([]), Some([]);
    if c.agentEnabled {
      tcp := ParsePorts(c.agentTcp);
      udp := ParsePorts(c.agentUdp);
      if tcp.None? || udp.None? {
        return None;
      }
    }
    var ssh: Option<nat> := None;
    if c.sshFromConfig {
      if c.sshPort.None? || !(1 <= c.sshPort.value <= 65535) {
        return None;
      }
      ssh := Some(c.sshPort.value);
    }
    if !(STATE_DIRECTORY <= c.statePath) {
      return None;
    }
    var output := if c.output == "accept" then Accept else Drop;
    r := Some(Plan(c.enabled, Drop, Drop, output, c.loopback, c.established, c.dhcpClient, c.icmp, v4, v6, ssh,
                   tcp.value, udp.value));
  }

  /** From the configuration file to the ruleset, and whether it is loaded at boot: once it is, a
      packet gets in exactly when the configuration says so, and nothing is forwarded.  No address
      lies in two elements of a set exactly if none lies in two configured networks. */
  method Compile(root: Root, c: Config) returns (r: Option<Ruleset>, loaded: bool)
    ensures r.Some? <==> |root| > 1 && root[|root| - 1] == "rootfs" && IsAccepted(c)
    ensures loaded <==> r.Some? && c.enabled
    ensures r.Some? ==> Consistent(r.value)
    ensures r.Some? ==> (SetsApart(r.value.sets) <==> SourcesApart(c.sources, Ip) && SourcesApart(c.sources, Ip6))
    ensures r.Some? ==> forall p :: Judge(r.value.forward, p, r.value.sets).Drop?
    ensures r.Some? ==> forall p :: Judge(r.value.output, p, r.value.sets).Accept? <==> c.output == "accept"
    ensures r.Some? ==> forall p :: Judge(r.value.input, p, r.value.sets).Accept? <==>
              || (c.loopback && p.iif == "lo")
              || (!p.tracking.Invalid? &&
                  (|| (c.established && (p.tracking.Established? || p.tracking.Related?))
                   || (c.dhcpClient && DhcpReply(p))
                   || (c.icmp && p.family.Ip? && p.payload.Icmp? &&
                       p.payload.kind in {
                         "destination-unreachable", "time-exceeded", "parameter-problem", "echo-request"})
                   || (c.icmp && p.family.Ip6? && p.payload.Icmp6? &&
                       p.payload.kind in {
                         "destination-unreachable", "packet-too-big", "time-exceeded", "parameter-problem",
                         "echo-request", "nd-router-advert", "nd-neighbor-solicit", "nd-neighbor-advert"})
                   || (p.tracking.New? && FromPrefix(c, p)
                       && p.payload.Ports? && Opens(c, p.payload.protocol, p.payload.dport))))
  {
    hide SetsApart, NoOverlap, SourcesApart, IsAccepted, FromPrefix, FromManagement, IsNetwork,
      SetsHold;
    AcceptedExactly(c);
    var plan := CreatePlan(root, c);
    if plan.None? {
      return None, false;
    }
    loaded := plan.value.enabled;
    NetworksAre(c.sources, Ip);
    NetworksAre(c.sources, Ip6);
    var text := RulesetText(plan.value);
    NoOverlapExactly(c.sources, Ip);
    NoOverlapExactly(c.sources, Ip6);
    forall p: Packet
      ensures Within(SourcesOf(plan.value, p.family), p.source) <==> FromPrefix(c, p)
    {
      SameSources(plan.value, c, p);
      ManagementIs(c, p);
    }
    r := Some(text);
  }

  lemma SameSources(plan: Plan, c: Config, p: Packet)
    requires Represents(plan, c)
    ensures Within(SourcesOf(plan, p.family), p.source) <==> FromManagement(c, p)
  {
    NetworksAre(c.sources, p.family);
    if s :| s in c.sources && s.Parsed? && s.net.family == p.family && Contains(s.net, p.source) {
      assert s.net in SourcesOf(plan, p.family);
    }
    if net :| net in SourcesOf(plan, p.family) && Contains(net, p.source) {
      assert Parsed(net) in c.sources;
    }
  }
}
