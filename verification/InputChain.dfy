/** The input chain as emitted: which of the appliance's own services a packet may reach. */
module InputChain {
  import opened Sequences
  import opened Nft
  import opened GatewayConfig
  import opened ForwardChain

  const MGMT_PORTS: seq<int> := [22, 443]

  function TcpPorts(ports: seq<int>): Match { Dport(Tcp, ports) }
  function UdpPort(port: int): Match { Dport(Udp, [port]) }

  function InputConntrack(): seq<Rule> {
    [Rule([CtIn([Established, Related])], Accept), Rule([CtIn([Invalid])], Drop), Rule([IifName("lo")], Accept)]
  }

  function IcmpTypes(c: Config): seq<IcmpType> {
    if AclRows(c) != [] then [Unreachable, TimeExceeded, ParameterProblem]
    else [EchoRequest, Unreachable, TimeExceeded, ParameterProblem]
  }

  function IcmpBlock(c: Config): seq<Rule> {
    [AcceptWhen([IcmpIn(IcmpTypes(c))]), AcceptWhen([Icmp6])]
  }

  function BruteBlock(c: Config): seq<Rule> {
    if c.bruteForceProtect then [Rule([TcpPorts(MGMT_PORTS), NEW_ONLY, OverRate("mgmt_brute4")], Drop)] else []
  }

  function AdminBlock(c: Config): seq<Rule> {
    if c.adminNetwork.Some? then [AcceptWhen([Saddr(Named("mgmt4")), TcpPorts(MGMT_PORTS)])] else []
  }

  predicate RealPort(port: int) { 0 < port <= 65535 }

  function OnIface(row: AclRow, m: Match): Rule { AcceptWhen([IifName(row.iface), m]) }

  function AclPorts(row: AclRow): seq<int> {
    (if row.acl.https then [443] else []) + (if row.acl.ssh then [22] else [])
  }

  function EmitVpnOnIface(row: AclRow): int -> seq<Rule> {
    (port: int) => if RealPort(port) then [OnIface(row, UdpPort(port))] else []
  }

  function AclMgmt(row: AclRow): seq<Rule> {
    if AclPorts(row) != [] then [OnIface(row, TcpPorts(AclPorts(row)))] else []
  }

  function AclDns(row: AclRow): seq<Rule> {
    if row.acl.dns then [OnIface(row, UdpPort(53)), OnIface(row, TcpPorts([53]))] else []
  }

  function AclPing(row: AclRow): seq<Rule> {
    if row.acl.ping then [OnIface(row, IcmpIn([EchoRequest]))] else []
  }

  function AclDhcp(row: AclRow): seq<Rule> {
    if row.acl.dhcp then [OnIface(row, UdpPort(67))] else []
  }

  function AclVpn(ports: seq<int>, row: AclRow): seq<Rule> {
    if row.acl.vpn then FlatMap(ports, EmitVpnOnIface(row)) else []
  }

  /** One matrix row, each service bound to the row's interface. */
  function EmitAcl(c: Config): AclRow -> seq<Rule> {
    (row: AclRow) => AclMgmt(row) + AclDns(row) + AclPing(row) + AclDhcp(row) + AclVpn(c.vpnPorts, row)
  }

  function MatrixBlock(c: Config): seq<Rule> { FlatMap(AclRows(c), EmitAcl(c)) }

  function MgmtOn(enabled: bool, iface: string): seq<Rule> {
    if enabled && iface != "" then [AcceptWhen([IifName(iface), TcpPorts(MGMT_PORTS)])] else []
  }

  function InternalDns(): seq<Rule> {
    [AcceptWhen([Saddr(Named("internal4")), UdpPort(53)]), AcceptWhen([Saddr(Named("internal4")), TcpPorts([53])])]
  }

  function EmitVpnPort(): int -> seq<Rule> {
    (port: int) => if RealPort(port) then [AcceptWhen([UdpPort(port)])] else []
  }

  function LegacyDhcp(c: Config): seq<Rule> {
    if c.dhcpInterface != "" then [AcceptWhen([IifName(c.dhcpInterface), UdpPort(67)])] else []
  }

  function LegacyBlock(c: Config): seq<Rule> {
    MgmtOn(c.mgmtOnLan, c.lan) + MgmtOn(c.mgmtOnWan, c.wan) + InternalDns() +
    FlatMap(c.vpnPorts, EmitVpnPort()) + LegacyDhcp(c)
  }

  function ServiceBlock(c: Config): seq<Rule> {
    AdminBlock(c) + (if AclRows(c) != [] then MatrixBlock(c) else LegacyBlock(c))
  }

  function InputRules(c: Config): seq<Rule> {
    (InputConntrack() + GeoBlock(c)) + (IcmpBlock(c) + BruteBlock(c)) + (ServiceBlock(c) + [Rule([], Drop)])
  }

  // ---- emission ---------------------------------------------------------------------------------

  method ServiceAclRows(c: Config) returns (rows: seq<AclRow>)
    ensures rows == AclRows(c)
  {
    rows := [];
    for i := 0 to |c.serviceAcls|
      invariant rows == FlatMap(c.serviceAcls[..i], ResolveAcl(c))
    {
      FlatMapStep(c.serviceAcls, i, ResolveAcl(c));
      var iface := AclIface(c, c.serviceAcls[i]);
      if iface == "" {
        continue;
      }
      rows := rows + [AclRow(c.serviceAcls[i], iface)];
    }
    assert c.serviceAcls[..|c.serviceAcls|] == c.serviceAcls;
  }

  method EmitMatrix(c: Config, rows: seq<AclRow>) returns (rs: seq<Rule>)
    ensures rs == FlatMap(rows, EmitAcl(c))
  {
    rs := [];
    for i := 0 to |rows|
      invariant rs == FlatMap(rows[..i], EmitAcl(c))
    {
      FlatMapStep(rows, i, EmitAcl(c));
      var row := rows[i];
      var vpn: seq<Rule> := [];
      if row.acl.vpn {
        vpn := Collect(c.vpnPorts, EmitVpnOnIface(row));
      }
      rs := rs + (AclMgmt(row) + AclDns(row) + AclPing(row) + AclDhcp(row) + vpn);
    }
    assert rows[..|rows|] == rows;
  }

  method EmitInputChain(c: Config) returns (rs: seq<Rule>)
    ensures rs == InputRules(c)
  {
    var rows := ServiceAclRows(c);
    var services;
    if |rows| > 0 {
      services := EmitMatrix(c, rows);
    } else {
      var vpn := Collect(c.vpnPorts, EmitVpnPort());
      services := MgmtOn(c.mgmtOnLan, c.lan) + MgmtOn(c.mgmtOnWan, c.wan) + InternalDns() + vpn + LegacyDhcp(c);
    }
    rs := (InputConntrack() + GeoBlock(c)) + (IcmpBlock(c) + BruteBlock(c)) + ((AdminBlock(c) + services) + [Rule([], Drop)]);
  }
}
