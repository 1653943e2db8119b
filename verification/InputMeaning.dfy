/** What the input chain means, and why management access is exact and cannot be lost. */
module InputMeaning {
  import opened Ipv4
  import opened Sequences
  import opened Nft
  import opened GatewayConfig
  import opened FilterSets
  import opened ForwardChain
  import FM = ForwardMeaning
  import opened InputChain

  predicate VpnPort(c: Config, port: int) { 1 <= port <= 65535 && port in c.vpnPorts }

  predicate RowAllows(c: Config, row: AclRow, p: Packet) {
    p.iif == row.iface &&
    (|| (p.proto == Tcp && ((row.acl.https && p.dport == 443) || (row.acl.ssh && p.dport == 22)))
     || (row.acl.dns && (p.proto == Tcp || p.proto == Udp) && p.dport == 53)
     || (row.acl.ping && p.proto == Icmp && p.icmp == EchoRequest)
     || (row.acl.dhcp && p.proto == Udp && p.dport == 67)
     || (row.acl.vpn && p.proto == Udp && VpnPort(c, p.dport)))
  }

  ghost predicate MatrixAllows(c: Config, p: Packet) {
    exists i :: 0 <= i < |AclRows(c)| && RowAllows(c, AclRows(c)[i], p)
  }

  predicate ToManagement(p: Packet) { p.proto == Tcp && (p.dport == 22 || p.dport == 443) }

  predicate ToggleAllows(enabled: bool, iface: string, p: Packet) {
    enabled && iface != "" && p.iif == iface && ToManagement(p)
  }

  /** The behaviour without a resolvable matrix. Resolver access needs the internal set, which
      exists only while the matrix is empty. */
  ghost predicate LegacyAllows(c: Config, p: Packet) {
    || ToggleAllows(c.mgmtOnLan, c.lan, p)
    || ToggleAllows(c.mgmtOnWan, c.wan, p)
    || (c.serviceAcls == [] && Internal(c, p.src) && (p.proto == Tcp || p.proto == Udp) && p.dport == 53)
    || (p.proto == Udp && VpnPort(c, p.dport))
    || (c.dhcpInterface != "" && p.iif == c.dhcpInterface && p.proto == Udp && p.dport == 67)
  }

  ghost predicate AdminAllows(c: Config, p: Packet) {
    c.adminNetwork.Some? && Contains(c.adminNetwork.value, p.src) && ToManagement(p)
  }

  ghost predicate ServiceAllowed(c: Config, p: Packet) {
    AdminAllows(c, p) || if AclRows(c) != [] then MatrixAllows(c, p) else LegacyAllows(c, p)
  }

  predicate Guessing(c: Config, p: Packet) {
    c.bruteForceProtect && ToManagement(p) && p.ct == New && p.overLimit
  }

  /** Error reports are always heard; pings only while no matrix row decides about them. */
  predicate IcmpAnswered(c: Config, p: Packet) {
    p.proto == Icmp && p.icmp != OtherType && (p.icmp == EchoRequest ==> AclRows(c) == [])
  }

  /** The whole input policy. */
  ghost function InputPolicy(c: Config, p: Packet): Verdict {
    if p.ct == Established || p.ct == Related then Accept
    else if p.ct == Invalid then Drop
    else if p.iif == "lo" then Accept
    else if InBlocks(c.geo, p.src) then Drop
    else if IcmpAnswered(c, p) then Accept
    else if Guessing(c, p) then Drop
    else if ServiceAllowed(c, p) then Accept
    else Drop
  }

  // ---- which rows of the matrix count ------------------------------------------------------------

  /** The interface a row's zone stands for. */
  ghost predicate StandsFor(c: Config, zone: string, iface: string) {
    || (zone == "wan" && iface == c.wan)
    || (zone == "lan" && iface == c.lan)
    || (zone == "vpn" && iface == c.ovpnIface)
    || (zone !in {"wan", "lan", "vpn"} &&
        exists i :: 0 <= i < |c.zones| && c.zones[i].name == zone && c.zones[i].IfaceName() == iface)
  }

  lemma {:induction false} ZoneIfaceNeedsAZone(zs: seq<Zone>, name: string)
    ensures ZoneIface(zs, name) != "" ==>
              exists i :: 0 <= i < |zs| && zs[i].name == name && zs[i].IfaceName() == ZoneIface(zs, name)
  {
    if zs != [] {
      var n := |zs| - 1;
      ZoneIfaceNeedsAZone(zs[..n], name);
      assert forall i :: 0 <= i < n ==> zs[..n][i] == zs[i];
    }
  }

  lemma AclIfaceIsExact(c: Config, a: ServiceAcl, iface: string)
    requires ZonesOk(c.zones) && iface != ""
    ensures AclIface(c, a) == iface <==> StandsFor(c, a.zone, iface)
  {
    ZoneIfaceNeedsAZone(c.zones, a.zone);
    forall i | 0 <= i < |c.zones| && c.zones[i].name == a.zone {
      ZoneIfaceFinds(c.zones, i);
    }
  }

  /** A row takes effect exactly on the interface its zone has now; a row for a vanished zone never does. */
  lemma RowsResolveExactly(c: Config, row: AclRow)
    requires ZonesOk(c.zones)
    ensures row in AclRows(c) <==> row.acl in c.serviceAcls && row.iface != "" && StandsFor(c, row.acl.zone, row.iface)
  {
    FlatMapMembers(c.serviceAcls, ResolveAcl(c), row);
    if row.iface != "" {
      AclIfaceIsExact(c, row.acl, row.iface);
    }
    if row.acl in c.serviceAcls {
      var i :| 0 <= i < |c.serviceAcls| && c.serviceAcls[i] == row.acl;
      assert row in ResolveAcl(c)(c.serviceAcls[i]) <==> row.iface != "" && AclIface(c, row.acl) == row.iface;
    }
  }

  // ---- block by block -----------------------------------------------------------------------------

  lemma InternalSetContains(c: Config, x: Addr)
    ensures InNamed(Sets(c), "internal4", x) <==> c.serviceAcls == [] && Internal(c, x)
  {
    var blocks := Blocks(InternalNetworks(c.zones, c.clientNetwork));
    InNamedIsMembership(Sets(c), "internal4", x);
    FixedSetNamesAreApart();
    InternalNetworksCover(c, x);
    BlocksAreBlocks(InternalNetworks(c.zones, c.clientNetwork), x);
    if d :| InDecl(d, Sets(c), "internal4", x) {
      SetsMembers(c, d);
      forall i | 0 <= i < |c.aliases| {
        AliasSetNamesAreApart(c.aliases[i].name, "");
      }
    }
    if c.serviceAcls == [] && Internal(c, x) {
      var d := SetDecl("internal4", blocks);
      SetsMembers(c, d);
      assert InDecl(d, Sets(c), "internal4", x);
    }
  }

  lemma OnIfaceMeans(row: AclRow, m: Match, sets: seq<SetDecl>, p: Packet)
    ensures AnyHit([OnIface(row, m)], sets, p) <==> p.iif == row.iface && Holds(m, sets, p)
  {
    AnyHitOne(OnIface(row, m), sets, p);
    Holds2(IifName(row.iface), m, sets, p);
  }

  lemma PortsMean(ports: seq<int>, f: int -> seq<Rule>, sets: seq<SetDecl>, p: Packet, here: bool)
    requires forall q :: AnyHit(f(q), sets, p) <==> here && 1 <= q <= 65535 && p.proto == Udp && p.dport == q
    ensures AnyHit(FlatMap(ports, f), sets, p) <==> here && p.proto == Udp && 1 <= p.dport <= 65535 && p.dport in ports
  {
    AnyHitFlatMap(ports, f, sets, p);
    if p.dport in ports {
      var i :| 0 <= i < |ports| && ports[i] == p.dport;
      var q: int := ports[i];
      assert AnyHit(f(q), sets, p) <==> here && 1 <= q <= 65535 && p.proto == Udp;
    }
    if i :| 0 <= i < |ports| && AnyHit(f(ports[i]), sets, p) {
      var q: int := ports[i];
      assert AnyHit(f(q), sets, p);
    }
  }

  lemma AclVpnMeans(c: Config, row: AclRow, sets: seq<SetDecl>, p: Packet)
    ensures AnyHit(AclVpn(c.vpnPorts, row), sets, p) <==>
            (p.iif == row.iface && row.acl.vpn && p.proto == Udp && VpnPort(c, p.dport))
  {
    var f := EmitVpnOnIface(row);
    forall q ensures AnyHit(f(q), sets, p) <==> p.iif == row.iface && 1 <= q <= 65535 && p.proto == Udp && p.dport == q {
      if RealPort(q) {
        OnIfaceMeans(row, UdpPort(q), sets, p);
      }
    }
    PortsMean(c.vpnPorts, f, sets, p, p.iif == row.iface);
  }

  lemma AclDnsMeans(row: AclRow, sets: seq<SetDecl>, p: Packet)
    ensures AnyHit(AclDns(row), sets, p) <==>
            (p.iif == row.iface && row.acl.dns && (p.proto == Tcp || p.proto == Udp) && p.dport == 53)
  {
    if row.acl.dns {
      assert AclDns(row) == [OnIface(row, UdpPort(53))] + [OnIface(row, TcpPorts([53]))];
      AnyHitConcat([OnIface(row, UdpPort(53))], [OnIface(row, TcpPorts([53]))], sets, p);
      OnIfaceMeans(row, UdpPort(53), sets, p);
      OnIfaceMeans(row, TcpPorts([53]), sets, p);
    }
  }

  lemma AclMgmtMeans(row: AclRow, sets: seq<SetDecl>, p: Packet)
    ensures AnyHit(AclMgmt(row), sets, p) <==>
            (p.iif == row.iface && p.proto == Tcp && ((row.acl.https && p.dport == 443) || (row.acl.ssh && p.dport == 22)))
  {
    OnIfaceMeans(row, TcpPorts(AclPorts(row)), sets, p);
  }

  lemma RowMeans(c: Config, row: AclRow, sets: seq<SetDecl>, p: Packet)
    ensures AnyHit(EmitAcl(c)(row), sets, p) <==> RowAllows(c, row, p)
  {
    var m, d, g, h, v := AclMgmt(row), AclDns(row), AclPing(row), AclDhcp(row), AclVpn(c.vpnPorts, row);
    AnyHitFive(m, d, g, h, v, sets, p);
    AclMgmtMeans(row, sets, p);
    AclDnsMeans(row, sets, p);
    OnIfaceMeans(row, IcmpIn([EchoRequest]), sets, p);
    OnIfaceMeans(row, UdpPort(67), sets, p);
    AclVpnMeans(c, row, sets, p);
  }

  lemma MatrixMeans(c: Config, sets: seq<SetDecl>, p: Packet)
    ensures AnyHit(MatrixBlock(c), sets, p) <==> MatrixAllows(c, p)
  {
    AnyHitFlatMap(AclRows(c), EmitAcl(c), sets, p);
    forall i | 0 <= i < |AclRows(c)|
      ensures AnyHit(EmitAcl(c)(AclRows(c)[i]), sets, p) <==> RowAllows(c, AclRows(c)[i], p)
    {
      RowMeans(c, AclRows(c)[i], sets, p);
    }
  }

  lemma ToggleMeans(enabled: bool, iface: string, sets: seq<SetDecl>, p: Packet)
    ensures AnyHit(MgmtOn(enabled, iface), sets, p) <==> ToggleAllows(enabled, iface, p)
  {
    AnyHitOne(AcceptWhen([IifName(iface), TcpPorts(MGMT_PORTS)]), sets, p);
    Holds2(IifName(iface), TcpPorts(MGMT_PORTS), sets, p);
  }

  lemma InternalDnsMeans(c: Config, p: Packet)
    ensures AnyHit(InternalDns(), Sets(c), p) <==>
            (c.serviceAcls == [] && Internal(c, p.src) && (p.proto == Tcp || p.proto == Udp) && p.dport == 53)
  {
    var u := AcceptWhen([Saddr(Named("internal4")), UdpPort(53)]);
    var t := AcceptWhen([Saddr(Named("internal4")), TcpPorts([53])]);
    assert InternalDns() == [u] + [t];
    AnyHitConcat([u], [t], Sets(c), p);
    AnyHitOne(u, Sets(c), p);
    AnyHitOne(t, Sets(c), p);
    Holds2(u.matches[0], u.matches[1], Sets(c), p);
    Holds2(t.matches[0], t.matches[1], Sets(c), p);
    InternalSetContains(c, p.src);
  }

  lemma LegacyVpnMeans(c: Config, sets: seq<SetDecl>, p: Packet)
    ensures AnyHit(FlatMap(c.vpnPorts, EmitVpnPort()), sets, p) <==> (p.proto == Udp && VpnPort(c, p.dport))
  {
    var f := EmitVpnPort();
    forall q ensures AnyHit(f(q), sets, p) <==> true && 1 <= q <= 65535 && p.proto == Udp && p.dport == q {
      if RealPort(q) {
        AnyHitOne(AcceptWhen([UdpPort(q)]), sets, p);
        Holds1(UdpPort(q), sets, p);
      }
    }
    PortsMean(c.vpnPorts, f, sets, p, true);
  }

  lemma LegacyMeans(c: Config, p: Packet)
    ensures AnyHit(LegacyBlock(c), Sets(c), p) <==> LegacyAllows(c, p)
  {
    var sets := Sets(c);
    AnyHitFive(MgmtOn(c.mgmtOnLan, c.lan), MgmtOn(c.mgmtOnWan, c.wan), InternalDns(),
               FlatMap(c.vpnPorts, EmitVpnPort()), LegacyDhcp(c), sets, p);
    ToggleMeans(c.mgmtOnLan, c.lan, sets, p);
    ToggleMeans(c.mgmtOnWan, c.wan, sets, p);
    InternalDnsMeans(c, p);
    LegacyVpnMeans(c, sets, p);
    LegacyDhcpMeans(c, sets, p);
  }

  lemma LegacyDhcpMeans(c: Config, sets: seq<SetDecl>, p: Packet)
    ensures AnyHit(LegacyDhcp(c), sets, p) <==>
            (c.dhcpInterface != "" && p.iif == c.dhcpInterface && p.proto == Udp && p.dport == 67)
  {
    AnyHitOne(AcceptWhen([IifName(c.dhcpInterface), UdpPort(67)]), sets, p);
    Holds2(IifName(c.dhcpInterface), UdpPort(67), sets, p);
  }

  lemma AnyHitFive(a: seq<Rule>, b: seq<Rule>, d: seq<Rule>, e: seq<Rule>, f: seq<Rule>, sets: seq<SetDecl>, p: Packet)
    ensures AnyHit(a + b + d + e + f, sets, p) <==>
            AnyHit(a, sets, p) || AnyHit(b, sets, p) || AnyHit(d, sets, p) || AnyHit(e, sets, p) || AnyHit(f, sets, p)
  {
    AnyHitConcat(a + b + d + e, f, sets, p);
    AnyHitConcat(a + b + d, e, sets, p);
    AnyHitConcat(a + b, d, sets, p);
    AnyHitConcat(a, b, sets, p);
  }

  lemma ServiceBlockMeans(c: Config, p: Packet)
    ensures AnyHit(ServiceBlock(c), Sets(c), p) <==> ServiceAllowed(c, p)
  {
    var services := if AclRows(c) != [] then MatrixBlock(c) else LegacyBlock(c);
    AnyHitConcat(AdminBlock(c), services, Sets(c), p);
    AnyHitOne(AcceptWhen([Saddr(Named("mgmt4")), TcpPorts(MGMT_PORTS)]), Sets(c), p);
    Holds2(Saddr(Named("mgmt4")), TcpPorts(MGMT_PORTS), Sets(c), p);
    MgmtSetContains(c, p.src);
    MatrixMeans(c, Sets(c), p);
    LegacyMeans(c, p);
  }

  lemma RowAccepts(c: Config, row: AclRow)
    ensures forall r :: r in EmitAcl(c)(row) ==> r.verdict == Accept
  {
    FM.FlatMapVerdict(c.vpnPorts, EmitVpnOnIface(row), Accept);
    var services := AclMgmt(row) + AclDns(row) + AclPing(row) + AclDhcp(row);
    assert forall r :: r in services ==> r.verdict == Accept;
    assert EmitAcl(c)(row) == services + AclVpn(c.vpnPorts, row);
  }

  lemma MatrixAccepts(c: Config)
    ensures forall r :: r in MatrixBlock(c) ==> r.verdict == Accept
  {
    forall i | 0 <= i < |AclRows(c)| {
      RowAccepts(c, AclRows(c)[i]);
    }
    FM.FlatMapVerdict(AclRows(c), EmitAcl(c), Accept);
  }

  lemma LegacyAccepts(c: Config)
    ensures forall r :: r in LegacyBlock(c) ==> r.verdict == Accept
  {
    FM.FlatMapVerdict(c.vpnPorts, EmitVpnPort(), Accept);
  }

  lemma ServicesAllAccept(c: Config)
    ensures forall r :: r in ServiceBlock(c) ==> r.verdict == Accept
  {
    MatrixAccepts(c);
    LegacyAccepts(c);
  }

  lemma InputConntrackMeans(sets: seq<SetDecl>, p: Packet)
    ensures Decide(InputConntrack(), sets, p) ==
      if p.ct == Established || p.ct == Related then Some(Accept)
      else if p.ct == Invalid then Some(Drop)
      else if p.iif == "lo" then Some(Accept)
      else None
  {
    var a, b, d := Rule([CtIn([Established, Related])], Accept), Rule([CtIn([Invalid])], Drop), Rule([IifName("lo")], Accept);
    assert InputConntrack() == [a] + [b] + [d];
    DecideSequence([a] + [b], [d], sets, p);
    DecideSequence([a], [b], sets, p);
    Holds1(a.matches[0], sets, p);
    Holds1(b.matches[0], sets, p);
    Holds1(d.matches[0], sets, p);
  }

  lemma IcmpTypesAreExact(c: Config, p: Packet)
    requires p.proto == Icmp
    ensures p.icmp in IcmpTypes(c) <==> IcmpAnswered(c, p)
  {
  }

  lemma IcmpBlockMeans(c: Config, sets: seq<SetDecl>, p: Packet)
    ensures Decide(IcmpBlock(c), sets, p) == if IcmpAnswered(c, p) then Some(Accept) else None
  {
    var a, b := AcceptWhen([IcmpIn(IcmpTypes(c))]), AcceptWhen([Icmp6]);
    assert IcmpBlock(c) == [a] + [b];
    DecideSequence([a], [b], sets, p);
    Holds1(a.matches[0], sets, p);
    Holds1(b.matches[0], sets, p);
    if p.proto == Icmp {
      IcmpTypesAreExact(c, p);
    }
  }

  lemma BruteBlockMeans(c: Config, sets: seq<SetDecl>, p: Packet)
    ensures Decide(BruteBlock(c), sets, p) == if Guessing(c, p) then Some(Drop) else None
  {
    Holds3(TcpPorts(MGMT_PORTS), NEW_ONLY, OverRate("mgmt_brute4"), sets, p);
  }

  lemma ServiceBlockDecides(c: Config, p: Packet)
    ensures Decide(ServiceBlock(c) + [Rule([], Drop)], Sets(c), p) == Some(if ServiceAllowed(c, p) then Accept else Drop)
  {
    DecideSequence(ServiceBlock(c), [Rule([], Drop)], Sets(c), p);
    ServiceBlockMeans(c, p);
    ServicesAllAccept(c);
    DecideUniform(ServiceBlock(c), Accept, Sets(c), p);
  }

  /** Compiler correctness for the input chain, on every packet and every configuration. */
  lemma InputChainMeansPolicy(c: Config, p: Packet)
    ensures Run(InputRules(c), Drop, Sets(c), p) == InputPolicy(c, p)
  {
    var sets := Sets(c);
    FM.RunThree(InputConntrack() + GeoBlock(c), IcmpBlock(c) + BruteBlock(c), ServiceBlock(c) + [Rule([], Drop)], sets, p);
    DecideSequence(InputConntrack(), GeoBlock(c), sets, p);
    DecideSequence(IcmpBlock(c), BruteBlock(c), sets, p);
    InputConntrackMeans(sets, p);
    FM.GeoBlockMeans(c, p);
    IcmpBlockMeans(c, sets, p);
    BruteBlockMeans(c, sets, p);
    ServiceBlockDecides(c, p);
  }

  // ---- VPN listeners ---------------------------------------------------------------------------------

  /** A new UDP connection not over loopback, from a source that is not blocked, to a port that is neither
      the resolver's nor the DHCP server's. */
  ghost predicate Dials(c: Config, p: Packet) {
    p.proto == Udp && p.ct == New && p.iif != "lo" && !InBlocks(c.geo, p.src) && p.dport != 53 && p.dport != 67
  }

  /** No row of the matrix resolves, or a row with VPN access stands on the interface. */
  ghost predicate VpnOpenOn(c: Config, iface: string) {
    AclRows(c) != [] ==> exists i :: 0 <= i < |AclRows(c)| && AclRows(c)[i].iface == iface && AclRows(c)[i].acl.vpn
  }

  /** Such a connection is answered exactly when its port is a listed VPN port and its interface is
      open for the VPN. */
  lemma VpnIsExact(c: Config, p: Packet)
    requires Dials(c, p)
    ensures Answered(c, p) <==> p.dport in c.vpnPorts && 0 < p.dport < 0x1_0000 && VpnOpenOn(c, p.iif)
  {
    InputChainMeansPolicy(c, p);
    DialedIsAllowed(c, p);
  }

  lemma DialedIsAllowed(c: Config, p: Packet)
    requires Dials(c, p)
    ensures (if AclRows(c) != [] then MatrixAllows(c, p) else LegacyAllows(c, p)) <==> VpnPort(c, p.dport) && VpnOpenOn(c, p.iif)
  {
  }

  // ---- management ------------------------------------------------------------------------------------

  /** A new connection to the appliance's SSH or GUI port, not over loopback. */
  predicate Knock(p: Packet) {
    ToManagement(p) && p.ct == New && p.iif != "lo"
  }

  ghost predicate Answered(c: Config, p: Packet) {
    Run(InputRules(c), Drop, Sets(c), p) == Accept
  }

  /** The interface answers this management port: by the matrix when any row resolves, otherwise
      by the two toggles. */
  ghost predicate PortOpenOn(c: Config, iface: string, port: int) {
    if AclRows(c) != [] then
      exists i :: 0 <= i < |AclRows(c)| && AclRows(c)[i].iface == iface &&
                  ((port == 443 && AclRows(c)[i].acl.https) || (port == 22 && AclRows(c)[i].acl.ssh))
    else
      iface != "" && ((c.mgmtOnLan && iface == c.lan) || (c.mgmtOnWan && iface == c.wan))
  }

  /** Management access is exactly what was configured. */
  lemma ManagementIsExact(c: Config, p: Packet)
    requires Knock(p)
    ensures Answered(c, p) <==>
      && !InBlocks(c.geo, p.src)
      && !(c.bruteForceProtect && p.overLimit)
      && ((c.adminNetwork.Some? && Contains(c.adminNetwork.value, p.src)) || PortOpenOn(c, p.iif, p.dport))
  {
    InputChainMeansPolicy(c, p);
    OpenPortIsAllowed(c, p);
  }

  lemma OpenPortIsAllowed(c: Config, p: Packet)
    requires ToManagement(p)
    ensures (if AclRows(c) != [] then MatrixAllows(c, p) else LegacyAllows(c, p)) <==> PortOpenOn(c, p.iif, p.dport)
  {
  }

  /** An interface other than loopback answers SSH or the GUI. */
  ghost predicate SomePortOpen(c: Config) {
    exists iface: string, port: nat :: iface != "lo" && (port == 22 || port == 443) && PortOpenOn(c, iface, port)
  }

  function KnockFrom(x: Addr, iface: string, port: nat): Packet {
    Packet(iface, "", x, 0, Tcp, port, OtherType, New, false, true, 0, 0, false)
  }

  /** Somebody can still get in exactly when an unblocked source lies in the admin network, or any
      unblocked source exists and some non-loopback interface answers. */
  lemma ReachabilityIsExact(c: Config)
    ensures (exists p :: Knock(p) && Answered(c, p)) <==>
            exists x: Addr :: !InBlocks(c.geo, x) &&
              ((c.adminNetwork.Some? && Contains(c.adminNetwork.value, x)) || SomePortOpen(c))
  {
    if p :| Knock(p) && Answered(c, p) {
      ManagementIsExact(c, p);
      assert !InBlocks(c.geo, p.src);
    }
    if x: Addr :| !InBlocks(c.geo, x) &&
                  ((c.adminNetwork.Some? && Contains(c.adminNetwork.value, x)) || SomePortOpen(c)) {
      var p := KnockFrom(x, "", 22);
      if !(c.adminNetwork.Some? && Contains(c.adminNetwork.value, x)) {
        var iface: string, port: nat :| iface != "lo" && (port == 22 || port == 443) && PortOpenOn(c, iface, port);
        p := KnockFrom(x, iface, port);
      }
      ManagementIsExact(c, p);
      assert Knock(p);
    }
  }

  /** The validator's requirement is met exactly when there is an admin network or some interface, loopback
      included, on which the chain has an open management port. */
  lemma ValidatorCountsPaths(c: Config)
    ensures ManagementReachable(c) <==>
            c.adminNetwork.Some? || exists iface: string, port: nat :: (port == 22 || port == 443) && PortOpenOn(c, iface, port)
  {
    if ManagementReachable(c) && c.adminNetwork.None? {
      if AclRows(c) != [] {
        var i :| 0 <= i < |AclRows(c)| && (AclRows(c)[i].acl.https || AclRows(c)[i].acl.ssh);
        assert PortOpenOn(c, AclRows(c)[i].iface, if AclRows(c)[i].acl.ssh then 22 else 443);
      } else {
        assert PortOpenOn(c, if c.mgmtOnLan && c.lan != "" then c.lan else c.wan, 22);
      }
    }
  }

  /** Every management path the validator could count on is bound to loopback. */
  ghost predicate OnlyLoopback(c: Config) {
    if AclRows(c) != [] then
      forall i :: 0 <= i < |AclRows(c)| && (AclRows(c)[i].acl.https || AclRows(c)[i].acl.ssh) ==> AclRows(c)[i].iface == "lo"
    else (c.mgmtOnLan && c.lan != "" ==> c.lan == "lo") && (c.mgmtOnWan && c.wan != "" ==> c.wan == "lo")
  }

  lemma OpenExactlyOffLoopback(c: Config)
    ensures SomePortOpen(c) <==> !OnlyLoopback(c)
  {
    if !OnlyLoopback(c) {
      if AclRows(c) != [] {
        var i :| 0 <= i < |AclRows(c)| && (AclRows(c)[i].acl.https || AclRows(c)[i].acl.ssh) && AclRows(c)[i].iface != "lo";
        assert PortOpenOn(c, AclRows(c)[i].iface, if AclRows(c)[i].acl.ssh then 22 else 443);
      } else {
        assert PortOpenOn(c, if c.mgmtOnLan && c.lan != "" && c.lan != "lo" then c.lan else c.wan, 22);
      }
    }
  }

  /** A configuration the validator accepts answers some management packet from any unblocked eligible
      source, unless it has no admin network and every path it has is bound to loopback. */
  lemma ManagementIsNeverLost(c: Config, x: Addr)
    requires Valid(c) && !InBlocks(c.geo, x)
    requires c.adminNetwork.Some? ==> Contains(c.adminNetwork.value, x)
    ensures (exists p :: Knock(p) && p.src == x && Answered(c, p)) <==> c.adminNetwork.Some? || !OnlyLoopback(c)
  {
    OpenExactlyOffLoopback(c);
    if p :| Knock(p) && p.src == x && Answered(c, p) {
      ManagementIsExact(c, p);
    }
    if c.adminNetwork.Some? || !OnlyLoopback(c) {
      var p := KnockFrom(x, "", 22);
      if c.adminNetwork.None? {
        var iface: string, port: nat :| iface != "lo" && (port == 22 || port == 443) && PortOpenOn(c, iface, port);
        p := KnockFrom(x, iface, port);
      }
      ManagementIsExact(c, p);
      assert Knock(p);
    }
  }
}
