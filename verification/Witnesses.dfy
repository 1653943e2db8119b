/** Concrete inputs for the cases in which the program does less, or more, than its documentation
    says. The exact condition of each case is proved beside the code it is about. */
module Witnesses {
  import opened Ipv4
  import opened Sequences
  import opened Nft
  import opened GatewayConfig
  import opened FilterSets
  import opened ForwardChain
  import opened ForwardMeaning
  import opened NatTable
  import RuleTester
  import InputMeaning
  import OpenVpn
  import ConfigVersions
  import LoginLimiter
  import AlertAggregator
  import KeaSubnets
  import KeaTransaction
  import Text
  import PortMap
  import PortMapAgain
  import SetClosure
  import ZoneIsolation
  import BlockList

  const HOME: Cidr := Cidr(0xC0A8_0100, 24) // 192.168.1.0/24
  const HOST: Addr := 0xC0A8_0105           // 192.168.1.5
  const PUBLIC: Addr := 0xCB00_7107         // 203.0.113.7

  /** A gateway between eth0 (WAN) and eth1 (LAN) with an admin network and nothing else. */
  const BARE: Config := Config(
    Some(HOME), HOME, "", true, "eth0", "eth1", false, false, false, [], false, false, [], [], false,
    [], [], [], [], [], [], [], "", None, [])

  lemma BareIsValid()
    ensures Valid(BARE)
  {
    assert "eth0"[3] != "eth1"[3];
  }

  const MONDAYS: CustomRule :=
    CustomRule("mondays", DropIt, AnyProto, "", "", 0, true, "", "", false, true, Some(Schedule([1], None, None)))

  /** A rule for Mondays: on a Tuesday the tester still reports it, while the chain passes it by. */
  lemma TesterIgnoresTheSchedule()
    ensures
      var c := BARE.(rules := [MONDAYS]);
      var t := RuleTester.Probe(Some(HOST), Some(PUBLIC), TcpOnly, 80);
      var p := Packet("eth1", "eth0", HOST, PUBLIC, Tcp, 80, OtherType, New, false, false, 0, 2, false);
      && Valid(c) && RuleTester.Realises(c, t, p)
      && RuleTester.TesterFirst(c, t, 0) && RuleTester.Report(c, 0).Matched?
      && !RuleTester.Agrees(c, RuleTester.Report(c, 0), p)
  {
    var c := BARE.(rules := [MONDAYS]);
    var t := RuleTester.Probe(Some(HOST), Some(PUBLIC), TcpOnly, 80);
    var p := Packet("eth1", "eth0", HOST, PUBLIC, Tcp, 80, OtherType, New, false, false, 0, 2, false);
    BareIsValid();
    MondaysIsOk();
    assert c.rules[0] == MONDAYS;
    RuleTester.TesterMirrorsCompiler(c, t, p, 0);
  }

  lemma MondaysIsOk()
    ensures RuleOk(MONDAYS, {}, {})
  {
    assert ScheduleOk(MONDAYS.schedule);
  }

  const STALE: ServiceAcl := ServiceAcl("gone", true, true, true, true, true, true)

  /** A matrix left with one row for a deleted zone: accepted, but the table names a set it does not declare. */
  lemma StaleMatrixDoesNotLoad()
    ensures Valid(BARE.(serviceAcls := [STALE])) && !SetClosure.Closed(BARE.(serviceAcls := [STALE]))
  {
    var c := BARE.(serviceAcls := [STALE]);
    BareIsValid();
    assert "gone"[0] == 'g' && "wan"[0] == 'w' && "lan"[0] == 'l' && "vpn"[0] == 'v';
    assert ResolveAcl(c)(STALE) == [];
    assert AclRows(c) == ResolveAcl(c)(STALE) + FlatMap([STALE][1..], ResolveAcl(c));
    SetClosure.ClosureIsExact(c);
  }

  const GUEST: Zone := Zone("guest", Guest, "eth2", 0, Some(Cidr(0x0A00_0000, 24)), None)
  const LAN_ON_WAN: Zone := Zone("office", Lan, "eth0", 0, Some(Cidr(0x0A00_0100, 24)), None)

  lemma ExampleZonesAreOk()
    ensures ZonesOk([GUEST, LAN_ON_WAN])
    ensures GUEST.IfaceName() == "eth2" && LAN_ON_WAN.IfaceName() == "eth0" && "eth2" != "eth0"
  {
    assert "eth2"[3] != "eth0"[3] && "guest"[0] != "office"[0];
    assert ZoneOk(GUEST) && ZoneOk(LAN_ON_WAN);
  }

  /** A LAN zone bound to the WAN port is open to guests. */
  lemma GuestReachesLanOnTheWanPort()
    ensures
      var c := BARE.(zones := [GUEST, LAN_ON_WAN]);
      var p := Packet("eth2", "eth0", 0x0A00_0005, 0x0A00_0105, Tcp, 80, OtherType, New, false, false, 0, 0, false);
      Valid(c) && ZoneIsolation.OnlyZones(c) && ZoneIsolation.Between(c, 0, 1, p) && ZoneIsolation.Passes(c, p)
  {
    var c := BARE.(zones := [GUEST, LAN_ON_WAN]);
    var p := Packet("eth2", "eth0", 0x0A00_0005, 0x0A00_0105, Tcp, 80, OtherType, New, false, false, 0, 0, false);
    BareIsValid();
    assert c.zones[0] == GUEST && c.zones[1] == LAN_ON_WAN;
    ExampleZonesAreOk();
    ZoneIsolation.ZoneTrafficIsExact(c, 0, 1, p);
  }

  /** A network alias called blocklist: blocking an address makes the stored configuration invalid. */
  lemma BlockingBreaksANetworkAlias()
    ensures
      var c := BARE.(aliases := [Alias("blocklist", NetworkAlias, [Net(HOME)])]);
      Valid(c) && !ObjectsOk(BlockList.Block(c, HOST))
  {
    var c := BARE.(aliases := [Alias("blocklist", NetworkAlias, [Net(HOME)])]);
    BareIsValid();
    BlockList.BlocklistNamesAreValid();
    assert c.aliases[0].values[0] == Net(HOME);
    assert AliasOk(c.aliases[0]);
    BlockList.BlockKeepsValidityExactly(c, HOST, 0);
  }

  /** A VPN subnet on a gateway without any other translation: tunnel traffic to the LAN is not masqueraded. */
  lemma VpnAloneIsNotMasqueraded()
    ensures
      var c := BARE.(ovpnSubnet := Some(Cidr(0x0A09_0000, 24)));
      var p := Packet("ovpn-saguaro", "eth1", 0x0A09_0002, HOST, Tcp, 80, OtherType, New, false, false, 0, 0, false);
      Valid(c) && Outbound(c, p) != Some(Masquerade)
  {
    var c := BARE.(ovpnSubnet := Some(Cidr(0x0A09_0000, 24)));
    var p := Packet("ovpn-saguaro", "eth1", 0x0A09_0002, HOST, Tcp, 80, OtherType, New, false, false, 0, 0, false);
    BareIsValid();
    assert Contains(Cidr(0x0A09_0000, 24), 0x0A09_0002) by {
      assert Pow2(8) == 256;
    }
    VpnMasqueradeIsExact(c, p);
  }

  /** A 1:1 mapping of the public address takes the GUI port with it. */
  lemma OneToOneTakesTheGuiPort()
    ensures
      var c := BARE.(nat11 := [OneToOne(PUBLIC, HOST)]);
      var p := Packet("eth0", "", HOST + 1, PUBLIC, Tcp, 443, OtherType, New, false, true, 0, 0, false);
      Valid(c) && Inbound(c, p).dst == HOST
  {
    var c := BARE.(nat11 := [OneToOne(PUBLIC, HOST)]);
    var p := Packet("eth0", "", HOST + 1, PUBLIC, Tcp, 443, OtherType, New, false, true, 0, 0, false);
    BareIsValid();
    assert c.nat11[0].extIp == p.dst;
    InboundOneToOne(c, p);
  }

  const DMZ_ZONE: Zone := Zone("dmz", Dmz, "eth3", 0, Some(Cidr(0x0A00_0200, 24)), None)

  lemma ThreeZonesAreOk()
    ensures ZonesOk([GUEST, LAN_ON_WAN, DMZ_ZONE])
    ensures DMZ_ZONE.IfaceName() == "eth3" && "eth3" != "eth0"
  {
    ExampleZonesAreOk();
    assert "eth3"[3] != "eth0"[3] && "eth3"[3] != "eth2"[3] && "dmz"[0] != "guest"[0] && "dmz"[0] != "office"[0];
    assert ZoneOk(DMZ_ZONE);
  }

  /** Through a LAN zone on the WAN port a guest reaches the DMZ in two hops, though not in one. */
  lemma GuestReachesDmzThroughLan()
    ensures
      var c := BARE.(zones := [GUEST, LAN_ON_WAN, DMZ_ZONE]);
      && Valid(c) && ZoneIsolation.OnlyZones(c)
      && !ZoneIsolation.Hop(c, 0, 2) && ZoneIsolation.Reaches(c, 0, 2)
  {
    var c := BARE.(zones := [GUEST, LAN_ON_WAN, DMZ_ZONE]);
    BareIsValid();
    ThreeZonesAreOk();
    ExampleZonesAreOk();
    assert c.zones[0] == GUEST && c.zones[1] == LAN_ON_WAN && c.zones[2] == DMZ_ZONE;
    assert !InBlocks(c.geo, 0) && ZoneIsolation.SomeSourceUnblocked(c);
    assert ZoneIsolation.OutAndDown(c, 0, 1, 2) && !ZoneIsolation.Edge(c, 0, 2);
    ZoneIsolation.HopIsExact(c, 0, 2);
    ZoneIsolation.ReachIsExact(c, 0, 2);
  }

  /** A gateway whose only management path is the LAN port, which is named lo. */
  const LOOPED: Config := BARE.(adminNetwork := None, lan := "lo", mgmtOnLan := true)

  lemma LoopIsAName()
    ensures ValidIface("lo") && "lo" != "eth0" && "lo" != ""
  {
    var lo := "lo";
    assert |lo| == 2 && |"eth0"| == 4 && lo[0] == 'l' && lo[1] == 'o';
  }

  lemma LoopedIsValid()
    ensures Valid(LOOPED)
  {
    BareIsValid();
    LoopIsAName();
    assert ValidIface(LOOPED.wan) && ObjectsOk(LOOPED) && ManagementReachable(LOOPED);
  }

  /** It is accepted, and no management packet from outside the appliance is answered. */
  lemma LoopbackOnlyIsLockedOut()
    ensures Valid(LOOPED) && !exists p :: InputMeaning.Knock(p) && InputMeaning.Answered(LOOPED, p)
  {
    LoopedIsValid();
    assert AclRows(LOOPED) == [];
    assert InputMeaning.OnlyLoopback(LOOPED);
    InputMeaning.OpenExactlyOffLoopback(LOOPED);
    InputMeaning.ReachabilityIsExact(LOOPED);
  }

  const TUNNEL: Addr := 0x0A09_0002 // 10.9.0.2

  /** A host without gateway mode that serves one VPN client. */
  function VpnHost(rules: seq<OvpnRule>): Config {
    BARE.(gatewayEnabled := false, ovpnIface := OpenVpn.TUN, ovpnAccess := [OvpnAccess(Some(TUNNEL), rules == [], rules)])
  }

  lemma VpnHostIsValid(rules: seq<OvpnRule>)
    ensures Valid(VpnHost(rules))
  {
    BareIsValid();
  }

  lemma VpnHostGrants(rules: seq<OvpnRule>, p: Packet)
    requires p.iif == OpenVpn.TUN && p.src == TUNNEL && p.ct == New
    requires rules != [] ==> OvpnRuleAllows(VpnHost(rules), rules[0], p)
    ensures Run(ForwardRules(VpnHost(rules)), Drop, Sets(VpnHost(rules)), p) == Accept
  {
    var c := VpnHost(rules);
    assert ObjectsOk(c);
    ForwardChainMeansPolicy(c, p);
    assert OvpnClientAllows(c, c.ovpnAccess[0], p);
    assert Granted(c, p) by { assert OvpnGrant(c, p); }
    assert CustomDecision(c, p).None? && c.geo == [] && !ForwardActive(c);
  }

  /** A VPN client on such a host opens a connection, and the answer is dropped. */
  lemma RepliesToTheVpnAreDropped()
    ensures
      var c := VpnHost([]);
      var p := Packet(OpenVpn.TUN, "eth1", TUNNEL, HOST, Tcp, 80, OtherType, New, false, false, 0, 0, false);
      var q := Packet("eth1", OpenVpn.TUN, HOST, TUNNEL, Tcp, 40000, OtherType, Established, false, false, 0, 0, false);
      && Valid(c)
      && Run(ForwardRules(c), Drop, Sets(c), p) == Accept
      && Run(ForwardRules(c), Drop, Sets(c), q) != Accept
  {
    var c := VpnHost([]);
    var p := Packet(OpenVpn.TUN, "eth1", TUNNEL, HOST, Tcp, 80, OtherType, New, false, false, 0, 0, false);
    var q := Packet("eth1", OpenVpn.TUN, HOST, TUNNEL, Tcp, 40000, OtherType, Established, false, false, 0, 0, false);
    VpnHostIsValid([]);
    VpnHostGrants([], p);
    RepliesAreExact(c, q);
  }

  /** Blocking any address on such a host lets the open connections of everyone pass. */
  lemma BlockingOpensReplies()
    ensures
      var c := VpnHost([]);
      var q := Packet("eth1", OpenVpn.TUN, HOST, TUNNEL, Tcp, 40000, OtherType, Established, false, false, 0, 0, false);
      var b := BlockList.Block(c, PUBLIC);
      && Valid(c) && Run(ForwardRules(c), Drop, Sets(c), q) != Accept
      && Run(ForwardRules(b), Drop, Sets(b), q) == Accept
  {
    var c := VpnHost([]);
    var q := Packet("eth1", OpenVpn.TUN, HOST, TUNNEL, Tcp, 40000, OtherType, Established, false, false, 0, 0, false);
    VpnHostIsValid([]);
    RepliesAreExact(c, q);
    BlockList.BlockHolding(c, [], PUBLIC);
    BlockList.HoldingIsValid(c, [PUBLIC]);
    BlockList.HoldingIsActive(c, [PUBLIC]);
    assert [] + [PUBLIC] == [PUBLIC] && BlockList.Holding(c, []) == c;
    RepliesAreExact(BlockList.Holding(c, [PUBLIC]), q);
  }

  /** A rule for port 443 of one host over any protocol: the client reaches port 22 there. */
  lemma AnyProtocolIgnoresThePort()
    ensures
      var c := VpnHost([OvpnRule(Host(HOST), "", AnyProto, 443)]);
      var p := Packet(OpenVpn.TUN, "eth1", TUNNEL, HOST, Tcp, 22, OtherType, New, false, false, 0, 0, false);
      Valid(c) && Run(ForwardRules(c), Drop, Sets(c), p) == Accept
  {
    var rules := [OvpnRule(Host(HOST), "", AnyProto, 443)];
    var p := Packet(OpenVpn.TUN, "eth1", TUNNEL, HOST, Tcp, 22, OtherType, New, false, false, 0, 0, false);
    assert OvpnRuleAllows(VpnHost(rules), rules[0], p);
    VpnHostIsValid(rules);
    VpnHostGrants(rules, p);
  }

  const FIRST: PortForward := PortForward(TcpOnly, 8080, HOST, 80, Some(PUBLIC))
  const SECOND: PortForward := PortForward(TcpOnly, 8080, HOST + 1, 80, Some(PUBLIC + 1))

  /** One port published twice, for two public addresses, with reflection on. */
  const TWICE: Config := BARE.(portForwards := [FIRST, SECOND], hairpinNat := true)

  function AskSecond(iif: string, src: Addr): Packet {
    Packet(iif, "", src, PUBLIC + 1, Tcp, 8080, OtherType, New, false, true, 0, 0, false)
  }

  lemma TwiceIsValid()
    ensures Valid(TWICE) && TWICE.portForwards[0] == FIRST && TWICE.portForwards[1] == SECOND
  {
    BareIsValid();
  }

  lemma InsideGetsTheFirst()
    ensures Inbound(TWICE, AskSecond("eth1", HOST + 2)).dst == HOST
  {
    var p := AskSecond("eth1", HOST + 2);
    TwiceIsValid();
    assert "eth1"[3] != "eth0"[3];
    assert Contains(HOME, HOST + 2) by {
      assert Pow2(8) == 256;
    }
    assert FirstForward(TWICE.portForwards, AtLocalTest(TWICE, p), 0);
    ReflectedFlow(TWICE, p, 0, "");
  }

  lemma OutsideGetsTheSecond()
    ensures Inbound(TWICE, AskSecond("eth0", 0)).dst == HOST + 1
  {
    var w := AskSecond("eth0", 0);
    TwiceIsValid();
    assert FirstForward(TWICE.portForwards, AtWanTest(TWICE, w), 1);
    PortForwardPipeline(TWICE, w, 1, "");
  }

  /** Asking for the second address from outside leads to its host, from inside to the first one's. */
  lemma ReflectionIgnoresTheAddress()
    ensures
      && Valid(TWICE)
      && Inbound(TWICE, AskSecond("eth1", HOST + 2)).dst == HOST
      && Inbound(TWICE, AskSecond("eth0", 0)).dst == HOST + 1
  {
    TwiceIsValid();
    InsideGetsTheFirst();
    OutsideGetsTheSecond();
  }

  /** One port published for one public address, with reflection on. */
  const ONCE: Config := BARE.(portForwards := [FIRST], hairpinNat := true)

  function AskLan(iif: string, src: Addr): Packet {
    Packet(iif, "", src, HOST - 4, Tcp, 8080, OtherType, New, false, true, 0, 0, false)
  }

  lemma OnceIsValid()
    ensures Valid(ONCE) && ONCE.portForwards[0] == FIRST && "eth1" != "eth0"
  {
    BareIsValid();
    assert "eth1"[3] != "eth0"[3];
  }

  lemma HomeHolds(x: Addr)
    ensures Internal(ONCE, x) <==> 0xC0A8_0100 <= x < 0xC0A8_0200
  {
    assert Pow2(8) == 256 && BlockSize(HOME) == 256;
    ContainsIsInterval(HOME, x);
  }

  /** Asking the appliance's LAN address for that port leads an internal client to the host, and an outside
      client nowhere. */
  lemma ReflectionTakesOtherAddresses()
    ensures
      && Valid(ONCE)
      && Inbound(ONCE, AskLan("eth1", HOST + 2)).dst == HOST
      && Inbound(ONCE, AskLan("eth0", 0)) == AskLan("eth0", 0)
  {
    var p, w := AskLan("eth1", HOST + 2), AskLan("eth0", 0);
    OnceIsValid();
    HomeHolds(p.src);
    HomeHolds(w.src);
    assert FirstForward(ONCE.portForwards, AtLocalTest(ONCE, p), 0);
    assert FirstForward(ONCE.portForwards, AtWanTest(ONCE, w), 1);
    ReflectedFlow(ONCE, p, 0, "");
    ReflectionAgreesExactly(ONCE, p, w, 0, 1);
  }

  /** In a /30 tunnel the second client gets the last address of the block. */
  lemma LastAddressIsHandedOut()
    ensures
      var subnet := Cidr(0x0A09_0000, 30);
      OpenVpn.FreeFrom(subnet, [OpenVpn.Client("a", Some(TUNNEL), [], false)], 2) == Some(0x0A09_0003)
  {
    var subnet := Cidr(0x0A09_0000, 30);
    var clients := [OpenVpn.Client("a", Some(TUNNEL), [], false)];
    assert Pow2(2) == 4 && Network(subnet) == 0x0A09_0000;
    assert OpenVpn.HeldBy(clients[0], TUNNEL);
  }

  // ---- the state machines -------------------------------------------------------------------------------

  const EMPTY: ConfigVersions.Live := ConfigVersions.Live(map[], [], [], 1, [])

  /** Tokens set after the only snapshot: a restore removes them, and no later one brings them back. */
  lemma TokensAreLost()
    ensures
      var st := ConfigVersions.Opened(EMPTY, 0, true);
      var edited := ConfigVersions.Stepped(st, ConfigVersions.Edit(map[], ["ci"], 1, true));
      var after := ConfigVersions.Stepped(edited, ConfigVersions.Restore(0, 2, true));
      && edited.data.tokens == ["ci"]
      && forall k :: 0 <= k < |after.dir| ==> ConfigVersions.Stepped(after, ConfigVersions.Restore(k, 3, true)).data.tokens != ["ci"]
  {
    var st := ConfigVersions.Opened(EMPTY, 0, true);
    ConfigVersions.RunIsCurrent(EMPTY, 0, []);
    assert st.dir == [ConfigVersions.Snapshot(0, EMPTY)];
    ConfigVersions.TokensComeBackExactly(st, ["ci"], 1, 0, 2, 3);
  }

  /** A section changed while the snapshot directory was full: the next save does not make up for it. */
  lemma FailedSnapshotIsNotRetried()
    ensures
      var st := ConfigVersions.Opened(EMPTY, 0, true);
      var edited := ConfigVersions.Stepped(st, ConfigVersions.Edit(map["SIEM" := "on"], [], 1, false));
      var later := ConfigVersions.Stepped(edited, ConfigVersions.Record("login", 2, true));
      later.dir == st.dir && forall k :: 0 <= k < |later.dir| ==>
        ConfigVersions.Fingerprints(later.dir[k].state) != ConfigVersions.Fingerprints(later.data)
  {
    var st := ConfigVersions.Opened(EMPTY, 0, true);
    var edited := ConfigVersions.Stepped(st, ConfigVersions.Edit(map["SIEM" := "on"], [], 1, false));
    assert st.dir == [ConfigVersions.Snapshot(0, EMPTY)];
    assert "SIEM" in ConfigVersions.Fingerprints(edited.data) && "SIEM" !in ConfigVersions.Fingerprints(EMPTY);
    assert "SIEM" in ConfigVersions.Changed(st.last, ConfigVersions.Fingerprints(edited.data));
    ConfigVersions.RecordIsSilent(edited, "login", 2, true);
  }

  /** Six failures and a prune after the lock has run out: the seventh guess costs nothing, not a minute. */
  lemma PruneFreesAGuess()
    ensures
      var m := map["ip:a" := LoginLimiter.Entry(6, Some(LoginLimiter.BASE), 0)];
      var now := LoginLimiter.CAP + 1;
      && LoginLimiter.Delay(LoginLimiter.Failed(LoginLimiter.Lookup(m, "ip:a"), now).failures) == 60 * LoginLimiter.SECOND
      && LoginLimiter.Delay(LoginLimiter.Failed(LoginLimiter.Lookup(LoginLimiter.Pruned(m, now), "ip:a"), now).failures) == 0
  {
    var m := map["ip:a" := LoginLimiter.Entry(6, Some(LoginLimiter.BASE), 0)];
    assert Pow2(1) == 2;
    LoginLimiter.PruneForgetsTheCount(m, LoginLimiter.CAP + 1, "ip:a", LoginLimiter.CAP + 1);
  }

  /** Two events in one window and a third after it, no flush in between: the repeat is never reported. */
  lemma UnflushedRepeatIsLost()
    ensures
      var run := [AlertAggregator.Offer("disk", "", 0), AlertAggregator.Offer("disk", "", 5), AlertAggregator.Offer("disk", "", 20)];
      AlertAggregator.Count(10, run, "disk") == AlertAggregator.Tally(3, 2, 0, 1)
  {
    var a, b, d := AlertAggregator.Offer("disk", "", 0), AlertAggregator.Offer("disk", "", 5), AlertAggregator.Offer("disk", "", 20);
    var run := [a, b, d];
    assert run[..2] == [a, b] && [a, b][..1] == [a] && [a][..0] == [];
    assert AlertAggregator.After(10, [a]) == map["disk" := AlertAggregator.Pending(0, 0, "")];
    assert AlertAggregator.After(10, [a, b]) == map["disk" := AlertAggregator.Pending(0, 1, "")];
    assert AlertAggregator.Count(10, [a], "disk") == AlertAggregator.Tally(1, 1, 0, 0);
    assert AlertAggregator.Count(10, [a, b], "disk") == AlertAggregator.Tally(2, 1, 0, 0);
  }

  /** A MAC is blocked while Kea cannot write its file: after a restart the list has it and Kea serves it. */
  lemma RestartForgetsABlock()
    ensures
      var k := KeaSubnets.KeaConfig([], [], KeaSubnets.Sockets(None, None, None), []);
      var st := KeaTransaction.State(k, k, [], []);
      var replies := KeaTransaction.Replies(true, true, _ => true, true, true, true, false);
      var after := KeaTransaction.Restarted(KeaTransaction.Stepped(st, KeaTransaction.BlockMac("aa", replies, true)));
      after.macs == ["aa"] && !KeaTransaction.Ignored(after.running.classes, "aa")
  {
  }

  /** A list that could not be saved reaches the disk with the audit entry of the next request, here a refused
      deletion: a restart is then in step. */
  lemma NextRequestSavesTheList()
    ensures
      var k := KeaSubnets.KeaConfig([], [], KeaSubnets.Sockets(None, None, None), []);
      var st := KeaTransaction.State(k, k, [], []);
      var replies := KeaTransaction.Replies(true, true, _ => true, true, true, true, true);
      var mid := KeaTransaction.Stepped(st, KeaTransaction.BlockMac("aa", replies, false));
      var after := KeaTransaction.Stepped(mid, KeaTransaction.Subnets(KeaSubnets.Delete(7), replies, true));
      mid.disk == [] && after.disk == ["aa"] && KeaTransaction.InSync(KeaTransaction.Restarted(after))
  {
    var k := KeaSubnets.KeaConfig([], [], KeaSubnets.Sockets(None, None, None), []);
    KeaTransaction.WithDropKeepsOthers(k, ["aa"]);
  }

  /** Ten spare ports, eth0 to eth9. */
  function TenPorts(): seq<PortMap.Port> {
    seq(10, i requires 0 <= i < 10 => PortMap.Port("eth" + Text.Decimal(i), Some(i + 1)))
  }

  /** The automatic map succeeds on them, and is refused once its names are in place. */
  lemma TenPortsAreMappedOnce()
    ensures
      var ports := TenPorts();
      && PortMap.Succeeds(ports, "", "")
      && !PortMap.Succeeds(PortMapAgain.RenamedPorts(PortMap.Derived(ports, "", ""), ports), "", "")
  {
    var ports := TenPorts();
    assert Text.Decimal(10) == "10" && |PortMap.SpareName(10)| == 5;
    PortMapAgain.UntouchedMachineIsMapped(ports);
    PortMapAgain.TenSparesAreRefused(ports, "", "");
  }
}
