/** The forward chain as the generator emits it: each block a loop over one part of
    the configuration, the blocks in a fixed order. */
module ForwardChain {
  import opened Ipv4
  import opened Sequences
  import opened Nft
  import opened GatewayConfig
  import opened FilterSets

  const NEW_ONLY: Match := CtIn([New])

  function OneHost(a: Addr): AddrRef { Anon([Host(a)]) }

  function ServiceProto(s: Service): Proto {
    match s
    case TcpOnly => Tcp
    case UdpOnly => Udp
    case AnyProto => OtherProto
    case UnknownProto => OtherProto
  }

  predicate Concrete(s: Service) { s == TcpOnly || s == UdpOnly }

  // ---- custom rules -------------------------------------------------------------------------

  function ActionVerdict(a: Action): Verdict {
    match a
    case AcceptIt => Accept
    case RejectIt => Reject
    case DropIt => Drop
    case UnknownAction => Drop
  }

  function FromZoneMatch(zs: seq<Zone>, r: CustomRule): seq<Match> {
    if r.fromZone != "" && ZoneIface(zs, r.fromZone) != "" then [IifName(ZoneIface(zs, r.fromZone))] else []
  }

  function ToZoneMatch(zs: seq<Zone>, r: CustomRule): seq<Match> {
    if r.toZone != "" && ZoneIface(zs, r.toZone) != "" then [OifName(ZoneIface(zs, r.toZone))] else []
  }

  function SrcAliasMatch(r: CustomRule): seq<Match> {
    if r.srcAlias != "" then [Saddr(Named(AliasSetName(r.srcAlias)))] else []
  }

  function DstAliasMatch(r: CustomRule): seq<Match> {
    if r.dstAlias != "" then [Daddr(Named(AliasSetName(r.dstAlias)))] else []
  }

  function PortMatch(r: CustomRule): seq<Match> {
    if r.dstPort != 0 then [Dport(ServiceProto(r.proto), [r.dstPort])]
    else if Concrete(r.proto) then [L4Proto(ServiceProto(r.proto))]
    else []
  }

  /** Weekdays in order of first appearance. */
  function Distinct(ds: seq<int>): seq<int> {
    if ds == [] then [] else
    var d, rest := ds[|ds| - 1], Distinct(ds[..|ds| - 1]);
    if d in rest then rest else rest + [d]
  }

  function ScheduleMatch(s: Option<Schedule>): seq<Match> {
    if s.None? then [] else
    (if s.value.days == [] then [] else [Days(Distinct(s.value.days))]) +
    (if s.value.start.Some? && s.value.end.Some? then [Hours(s.value.start.value, s.value.end.value)] else [])
  }

  function CompileRule(zs: seq<Zone>, r: CustomRule): Rule {
    Rule(FromZoneMatch(zs, r) + ToZoneMatch(zs, r) + SrcAliasMatch(r) + DstAliasMatch(r) +
         PortMatch(r) + ScheduleMatch(r.schedule),
         ActionVerdict(r.action))
  }

  function EmitCustom(zs: seq<Zone>): CustomRule -> seq<Rule> {
    (r: CustomRule) => if r.enabled then [CompileRule(zs, r)] else []
  }

  // ---- default grants -------------------------------------------------------------------------

  function AcceptWhen(ms: seq<Match>): Rule { Rule(ms, Accept) }

  function EmitZoneToWan(c: Config): Zone -> seq<Rule> {
    (z: Zone) =>
      if z.kind != Wan && c.wan != "" && z.IfaceName() != c.wan
      then [AcceptWhen([IifName(z.IfaceName()), OifName(c.wan)])] else []
  }

  function EmitZonePair(s: Zone): Zone -> seq<Rule> {
    (d: Zone) =>
      if d.kind != Wan && s.name != d.name && Trust(s.kind) > Trust(d.kind)
      then [AcceptWhen([IifName(s.IfaceName()), OifName(d.IfaceName())])] else []
  }

  function EmitZonePairs(c: Config): Zone -> seq<Rule> {
    (s: Zone) => if s.kind == Wan then [] else FlatMap(c.zones, EmitZonePair(s))
  }

  function EmitTunnel(): TunnelNet -> seq<Rule> {
    (t: TunnelNet) =>
      if t.local == [] || t.remote == [] then []
      else [AcceptWhen([Saddr(Anon(Blocks(t.local))), Daddr(Anon(Blocks(t.remote)))]),
            AcceptWhen([Saddr(Anon(Blocks(t.remote))), Daddr(Anon(Blocks(t.local)))])]
  }

  function LanToWan(c: Config): Rule { AcceptWhen([IifName(c.lan), OifName(c.wan)]) }

  function EmitForward(c: Config): PortForward -> seq<Rule> {
    (f: PortForward) =>
      [AcceptWhen([IifName(c.wan), Daddr(OneHost(f.destIp)), Dport(ServiceProto(f.proto), [f.destPort]), NEW_ONLY])]
  }

  function EmitOneToOne(c: Config): OneToOne -> seq<Rule> {
    (n: OneToOne) => [AcceptWhen([IifName(c.wan), Daddr(OneHost(n.intIp)), NEW_ONLY])]
  }

  function EmitHairpin(): PortForward -> seq<Rule> {
    (f: PortForward) =>
      [AcceptWhen([Daddr(OneHost(f.destIp)), Dport(ServiceProto(f.proto), [f.destPort]), CtDnat, NEW_ONLY])]
  }

  predicate Hairpin(c: Config) { c.hairpinNat && c.portForwards != [] }

  function OvpnDest(r: OvpnRule): AddrRef {
    if r.destAlias != "" then Named(AliasSetName(r.destAlias)) else Anon([r.dest])
  }

  function OvpnPortMatch(r: OvpnRule): seq<Match> {
    if Concrete(r.proto) && r.port > 0 then [Dport(ServiceProto(r.proto), [r.port])]
    else if Concrete(r.proto) then [L4Proto(ServiceProto(r.proto))]
    else []
  }

  function EmitOvpnRule(iface: string, addr: Addr): OvpnRule -> seq<Rule> {
    (r: OvpnRule) =>
      [AcceptWhen([IifName(iface), Saddr(OneHost(addr)), Daddr(OvpnDest(r))] + OvpnPortMatch(r) + [NEW_ONLY])]
  }

  function EmitOvpnClient(iface: string): OvpnAccess -> seq<Rule> {
    (a: OvpnAccess) =>
      if a.addr.None? then []
      else if a.allowAll then [AcceptWhen([IifName(iface), Saddr(OneHost(a.addr.value)), NEW_ONLY])]
      else FlatMap(a.rules, EmitOvpnRule(iface, a.addr.value))
  }

  predicate OvpnActive(c: Config) { c.ovpnIface != "" && c.ovpnAccess != [] }

  // ---- the blocks in order ----------------------------------------------------------------------

  predicate HasEnabledRule(c: Config) {
    exists i :: 0 <= i < |c.rules| && c.rules[i].enabled
  }

  predicate ForwardActive(c: Config) {
    c.gatewayEnabled || HasEnabledRule(c) || c.tunnels != [] || c.geo != []
  }

  function ConntrackBlock(c: Config): seq<Rule> {
    if ForwardActive(c) then [Rule([CtIn([Established, Related])], Accept), Rule([CtIn([Invalid])], Drop)] else []
  }

  function GeoBlock(c: Config): seq<Rule> {
    if c.geo != [] then [Rule([Saddr(Named("geo4"))], Drop)] else []
  }

  function InspectBlock(c: Config): seq<Rule> {
    if c.gatewayEnabled && c.ipsEnabled then [Rule([NEW_ONLY], Queue)] else []
  }

  function CustomBlock(c: Config): seq<Rule> { FlatMap(c.rules, EmitCustom(c.zones)) }

  function ZoneBlock(c: Config): seq<Rule> {
    if c.gatewayEnabled then FlatMap(c.zones, EmitZoneToWan(c)) + FlatMap(c.zones, EmitZonePairs(c)) else []
  }

  function TunnelBlock(c: Config): seq<Rule> { FlatMap(c.tunnels, EmitTunnel()) }

  function PublishBlock(c: Config): seq<Rule> {
    if c.gatewayEnabled then
      [LanToWan(c)] + FlatMap(c.portForwards, EmitForward(c)) + FlatMap(c.nat11, EmitOneToOne(c)) +
      (if Hairpin(c) then FlatMap(c.portForwards, EmitHairpin()) else [])
    else []
  }

  function OvpnBlock(c: Config): seq<Rule> {
    if OvpnActive(c) then FlatMap(c.ovpnAccess, EmitOvpnClient(c.ovpnIface)) else []
  }

  function TailBlock(c: Config): seq<Rule> {
    (if OvpnActive(c) then [Rule([IifName(c.ovpnIface)], Drop)] else []) +
    (if ForwardActive(c) then [Rule([], Drop)] else [])
  }

  function Prelude(c: Config): seq<Rule> { ConntrackBlock(c) + GeoBlock(c) + InspectBlock(c) }
  function Grants(c: Config): seq<Rule> { ZoneBlock(c) + TunnelBlock(c) + PublishBlock(c) + OvpnBlock(c) }
  function ForwardRules(c: Config): seq<Rule> { Prelude(c) + CustomBlock(c) + (Grants(c) + TailBlock(c)) }

  // ---- emission ------------------------------------------------------------------------------------

  method EmitZoneEgress(c: Config) returns (rs: seq<Rule>)
    ensures rs == FlatMap(c.zones, EmitZoneToWan(c))
  {
    rs := [];
    for i := 0 to |c.zones|
      invariant rs == FlatMap(c.zones[..i], EmitZoneToWan(c))
    {
      FlatMapStep(c.zones, i, EmitZoneToWan(c));
      var z := c.zones[i];
      if z.kind != Wan && c.wan != "" && z.IfaceName() != c.wan {
        rs := rs + [AcceptWhen([IifName(z.IfaceName()), OifName(c.wan)])];
      }
    }
    assert c.zones[..|c.zones|] == c.zones;
  }

  method EmitZonesBelow(zones: seq<Zone>, s: Zone) returns (rs: seq<Rule>)
    ensures rs == FlatMap(zones, EmitZonePair(s))
  {
    rs := [];
    for j := 0 to |zones|
      invariant rs == FlatMap(zones[..j], EmitZonePair(s))
    {
      FlatMapStep(zones, j, EmitZonePair(s));
      var d := zones[j];
      if d.kind == Wan || s.name == d.name {
        continue;
      }
      if Trust(s.kind) > Trust(d.kind) {
        rs := rs + [AcceptWhen([IifName(s.IfaceName()), OifName(d.IfaceName())])];
      }
    }
    assert zones[..|zones|] == zones;
  }

  method EmitZonePairRules(c: Config) returns (rs: seq<Rule>)
    ensures rs == FlatMap(c.zones, EmitZonePairs(c))
  {
    rs := [];
    for i := 0 to |c.zones|
      invariant rs == FlatMap(c.zones[..i], EmitZonePairs(c))
    {
      FlatMapStep(c.zones, i, EmitZonePairs(c));
      if c.zones[i].kind != Wan {
        var below := EmitZonesBelow(c.zones, c.zones[i]);
        rs := rs + below;
      }
    }
    assert c.zones[..|c.zones|] == c.zones;
  }

  method EmitZones(c: Config) returns (rs: seq<Rule>)
    ensures rs == ZoneBlock(c)
  {
    if !c.gatewayEnabled || |c.zones| == 0 {
      return [];
    }
    var egress := EmitZoneEgress(c);
    var pairs := EmitZonePairRules(c);
    rs := egress + pairs;
  }

  method EmitPublish(c: Config) returns (rs: seq<Rule>)
    ensures rs == PublishBlock(c)
  {
    if !c.gatewayEnabled {
      return [];
    }
    var forwards := Collect(c.portForwards, EmitForward(c));
    var hosts := Collect(c.nat11, EmitOneToOne(c));
    var reflected: seq<Rule> := [];
    if Hairpin(c) {
      reflected := Collect(c.portForwards, EmitHairpin());
    }
    rs := [LanToWan(c)] + forwards + hosts + reflected;
  }

  method EmitOvpnClientRules(iface: string, a: OvpnAccess) returns (rs: seq<Rule>)
    ensures rs == EmitOvpnClient(iface)(a)
  {
    rs := [];
    if a.addr.None? {
      return;
    }
    if a.allowAll {
      return [AcceptWhen([IifName(iface), Saddr(OneHost(a.addr.value)), NEW_ONLY])];
    }
    rs := Collect(a.rules, EmitOvpnRule(iface, a.addr.value));
  }

  method EmitOvpn(c: Config) returns (rs: seq<Rule>)
    ensures rs == OvpnBlock(c)
  {
    rs := [];
    if !OvpnActive(c) {
      return;
    }
    for i := 0 to |c.ovpnAccess|
      invariant rs == FlatMap(c.ovpnAccess[..i], EmitOvpnClient(c.ovpnIface))
    {
      FlatMapStep(c.ovpnAccess, i, EmitOvpnClient(c.ovpnIface));
      var more := EmitOvpnClientRules(c.ovpnIface, c.ovpnAccess[i]);
      rs := rs + more;
    }
    assert c.ovpnAccess[..|c.ovpnAccess|] == c.ovpnAccess;
  }

  method EmitCustomRules(c: Config) returns (rs: seq<Rule>)
    ensures rs == CustomBlock(c)
  {
    rs := [];
    for i := 0 to |c.rules|
      invariant rs == FlatMap(c.rules[..i], EmitCustom(c.zones))
    {
      FlatMapStep(c.rules, i, EmitCustom(c.zones));
      if c.rules[i].enabled {
        rs := rs + [CompileRule(c.zones, c.rules[i])];
      }
    }
    assert c.rules[..|c.rules|] == c.rules;
  }

  method EmitTunnels(c: Config) returns (rs: seq<Rule>)
    ensures rs == TunnelBlock(c)
  {
    rs := Collect(c.tunnels, EmitTunnel());
  }

  method EmitForwardChain(c: Config) returns (rs: seq<Rule>)
    ensures rs == ForwardRules(c)
  {
    var custom := EmitCustomRules(c);
    var zones := EmitZones(c);
    var tunnels := EmitTunnels(c);
    var publish := EmitPublish(c);
    var ovpn := EmitOvpn(c);
    rs := Prelude(c) + custom + (zones + tunnels + publish + ovpn + TailBlock(c));
  }
}
