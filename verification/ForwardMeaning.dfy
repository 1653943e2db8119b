/** What the forward chain means, said without any order among the default grants, and
    the proof that the emitted first-match chain means exactly that. */
module ForwardMeaning {
  import opened Ipv4
  import opened Sequences
  import opened Nft
  import opened GatewayConfig
  import opened FilterSets
  import opened ForwardChain

  // ---- custom rules: what a rule asks of a packet ----------------------------------------------

  ghost predicate OnZone(zs: seq<Zone>, name: string, iface: string) {
    name == "" || exists i :: 0 <= i < |zs| && zs[i].name == name && zs[i].IfaceName() == iface
  }

  predicate Speaks(s: Service, t: Proto) {
    (s == TcpOnly && t == Tcp) || (s == UdpOnly && t == Udp)
  }

  /** Protocol and port; a port is looked at only for tcp and udp. */
  predicate ServiceAllows(s: Service, port: int, p: Packet) {
    Concrete(s) ==> Speaks(s, p.proto) && (port > 0 ==> p.dport == port)
  }

  predicate ScheduleAllows(s: Option<Schedule>, p: Packet) {
    s.Some? ==>
      && (s.value.days != [] ==> p.weekday in s.value.days)
      && (s.value.start.Some? && s.value.end.Some? ==> InWindow(s.value.start.value, s.value.end.value, p.second))
  }

  ghost predicate Addressed(c: Config, r: CustomRule, p: Packet) {
    && OnZone(c.zones, r.fromZone, p.iif)
    && OnZone(c.zones, r.toZone, p.oif)
    && (r.srcAlias == "" || InAlias(c, r.srcAlias, p.src))
    && (r.dstAlias == "" || InAlias(c, r.dstAlias, p.dst))
    && ServiceAllows(r.proto, r.dstPort, p)
  }

  ghost predicate Applies(c: Config, r: CustomRule, p: Packet) {
    Addressed(c, r, p) && ScheduleAllows(r.schedule, p)
  }

  lemma {:induction false} DistinctKeepsMembers(ds: seq<int>, d: int)
    ensures d in Distinct(ds) <==> d in ds
  {
    if ds != [] {
      DistinctKeepsMembers(ds[..|ds| - 1], d);
      assert ds == ds[..|ds| - 1] + [ds[|ds| - 1]];
    }
  }

  /** The weekday set names no day twice: dropping repeats loses none and reorders none. */
  lemma {:induction false} DistinctIsDistinct(ds: seq<int>)
    ensures forall i, j :: 0 <= i < j < |Distinct(ds)| ==> Distinct(ds)[i] != Distinct(ds)[j]
    ensures (forall i, j :: 0 <= i < j < |ds| ==> ds[i] != ds[j]) ==> Distinct(ds) == ds
  {
    if ds != [] {
      var n := |ds| - 1;
      DistinctIsDistinct(ds[..n]);
      DistinctKeepsMembers(ds[..n], ds[n]);
    }
  }

  lemma ScheduleMatchIsExact(s: Option<Schedule>, sets: seq<SetDecl>, p: Packet)
    ensures AllHold(ScheduleMatch(s), sets, p) <==> ScheduleAllows(s, p)
  {
    if s.Some? {
      DistinctKeepsMembers(s.value.days, p.weekday);
      var ds: seq<Match> := if s.value.days == [] then [] else [Days(Distinct(s.value.days))];
      var hs: seq<Match> := if s.value.start.Some? && s.value.end.Some?
                            then [Hours(s.value.start.value, s.value.end.value)] else [];
      HoldsConcat(ds, hs, sets, p);
      if ds != [] { Holds1(ds[0], sets, p); }
      if hs != [] { Holds1(hs[0], sets, p); }
    }
  }

  lemma {:induction false} ZoneLookupIsExact(zs: seq<Zone>, name: string, iface: string)
    requires ZonesOk(zs) && name != "" && name in ZoneNames(zs)
    ensures ZoneIface(zs, name) != "" && (OnZone(zs, name, iface) <==> ZoneIface(zs, name) == iface)
  {
    var i :| 0 <= i < |zs| && zs[i].name == name;
    ZoneIfaceFinds(zs, i);
  }

  lemma ZoneMatchesAreExact(zs: seq<Zone>, r: CustomRule, sets: seq<SetDecl>, p: Packet)
    requires ZonesOk(zs)
    requires r.fromZone != "" ==> r.fromZone in ZoneNames(zs)
    requires r.toZone != "" ==> r.toZone in ZoneNames(zs)
    ensures AllHold(FromZoneMatch(zs, r), sets, p) <==> OnZone(zs, r.fromZone, p.iif)
    ensures AllHold(ToZoneMatch(zs, r), sets, p) <==> OnZone(zs, r.toZone, p.oif)
  {
    if r.fromZone != "" {
      ZoneLookupIsExact(zs, r.fromZone, p.iif);
      Holds1(IifName(ZoneIface(zs, r.fromZone)), sets, p);
    }
    if r.toZone != "" {
      ZoneLookupIsExact(zs, r.toZone, p.oif);
      Holds1(OifName(ZoneIface(zs, r.toZone)), sets, p);
    }
  }

  lemma AliasMatchesAreExact(c: Config, r: CustomRule, p: Packet)
    ensures AllHold(SrcAliasMatch(r), Sets(c), p) <==> (r.srcAlias == "" || InAlias(c, r.srcAlias, p.src))
    ensures AllHold(DstAliasMatch(r), Sets(c), p) <==> (r.dstAlias == "" || InAlias(c, r.dstAlias, p.dst))
  {
    Holds1(Saddr(Named(AliasSetName(r.srcAlias))), Sets(c), p);
    Holds1(Daddr(Named(AliasSetName(r.dstAlias))), Sets(c), p);
    AliasSetContains(c, r.srcAlias, p.src);
    AliasSetContains(c, r.dstAlias, p.dst);
  }

  lemma PortMatchIsExact(r: CustomRule, sets: seq<SetDecl>, p: Packet)
    requires r.dstPort != 0 ==> Concrete(r.proto) && r.dstPort >= 1
    ensures AllHold(PortMatch(r), sets, p) <==> ServiceAllows(r.proto, r.dstPort, p)
  {
    if r.dstPort != 0 {
      Holds1(Dport(ServiceProto(r.proto), [r.dstPort]), sets, p);
    } else if Concrete(r.proto) {
      Holds1(L4Proto(ServiceProto(r.proto)), sets, p);
    }
  }

  /** The rendered match list of a rule hits exactly the packets the rule asks for. */
  lemma CompiledRuleIsExact(c: Config, r: CustomRule, p: Packet)
    requires ZonesOk(c.zones) && RuleOk(r, AliasNames(c.aliases), ZoneNames(c.zones))
    ensures Hits(CompileRule(c.zones, r), Sets(c), p) <==> Applies(c, r, p)
  {
    var sets := Sets(c);
    HoldsSix(FromZoneMatch(c.zones, r), ToZoneMatch(c.zones, r), SrcAliasMatch(r), DstAliasMatch(r),
             PortMatch(r), ScheduleMatch(r.schedule), sets, p);
    ZoneMatchesAreExact(c.zones, r, sets, p);
    AliasMatchesAreExact(c, r, p);
    PortMatchIsExact(r, sets, p);
    ScheduleMatchIsExact(r.schedule, sets, p);
  }

  lemma HoldsSix(a: seq<Match>, b: seq<Match>, d: seq<Match>, e: seq<Match>, f: seq<Match>, g: seq<Match>,
                 sets: seq<SetDecl>, p: Packet)
    ensures AllHold(a + b + d + e + f + g, sets, p) <==>
      && AllHold(a, sets, p) && AllHold(b, sets, p) && AllHold(d, sets, p)
      && AllHold(e, sets, p) && AllHold(f, sets, p) && AllHold(g, sets, p)
  {
    HoldsConcat(a, b, sets, p);
    HoldsConcat(a + b, d, sets, p);
    HoldsConcat(a + b + d, e, sets, p);
    HoldsConcat(a + b + d + e, f, sets, p);
    HoldsConcat(a + b + d + e + f, g, sets, p);
  }

  /** k is the first enabled rule that applies, or the number of rules. */
  ghost predicate FirstApplicable(c: Config, p: Packet, k: nat) {
    && k <= |c.rules|
    && (k < |c.rules| ==> c.rules[k].enabled && Applies(c, c.rules[k], p))
    && forall j :: 0 <= j < k ==> !(c.rules[j].enabled && Applies(c, c.rules[j], p))
  }

  predicate Decides(a: Action, v: Verdict) {
    match a
    case AcceptIt => v == Accept
    case DropIt => v == Drop
    case RejectIt => v == Reject
    case UnknownAction => true
  }

  ghost function CustomDecision(c: Config, p: Packet): (v: Option<Verdict>)
    ensures v.None? <==> forall j :: 0 <= j < |c.rules| ==> !(c.rules[j].enabled && Applies(c, c.rules[j], p))
    ensures v.Some? ==> exists k :: 0 <= k < |c.rules| && FirstApplicable(c, p, k) && Decides(c.rules[k].action, v.value)
  {
    var k := FirstFrom(c, p, 0);
    if k < |c.rules| then assert FirstApplicable(c, p, k); Some(ActionVerdict(c.rules[k].action)) else None
  }

  ghost function FirstFrom(c: Config, p: Packet, i: nat): (k: nat)
    requires i <= |c.rules|
    requires forall j :: 0 <= j < i ==> !(c.rules[j].enabled && Applies(c, c.rules[j], p))
    ensures FirstApplicable(c, p, k)
    decreases |c.rules| - i
  {
    if i == |c.rules| || (c.rules[i].enabled && Applies(c, c.rules[i], p)) then i else FirstFrom(c, p, i + 1)
  }

  /** The first applicable rule is the one that decides. */
  lemma DecisionOf(c: Config, p: Packet, k: nat)
    requires FirstApplicable(c, p, k)
    ensures CustomDecision(c, p) == if k < |c.rules| then Some(ActionVerdict(c.rules[k].action)) else None
  {
    var m := FirstFrom(c, p, 0);
    assert m == k;
  }

  lemma {:induction false} CustomBlockFrom(c: Config, p: Packet, i: nat)
    requires ObjectsOk(c) && i <= |c.rules|
    requires forall j :: 0 <= j < i ==> !(c.rules[j].enabled && Applies(c, c.rules[j], p))
    ensures Decide(FlatMap(c.rules[i..], EmitCustom(c.zones)), Sets(c), p) ==
            var k := FirstFrom(c, p, i); if k < |c.rules| then Some(ActionVerdict(c.rules[k].action)) else None
    decreases |c.rules| - i
  {
    if i < |c.rules| {
      var r, f := c.rules[i], EmitCustom(c.zones);
      var rest := FlatMap(c.rules[i + 1..], f);
      assert c.rules[i..][1..] == c.rules[i + 1..];
      DecideSequence(f(r), rest, Sets(c), p);
      if r.enabled {
        CompiledRuleIsExact(c, r, p);
      }
      if !(r.enabled && Applies(c, r, p)) {
        CustomBlockFrom(c, p, i + 1);
      }
    }
  }

  lemma CustomBlockMeans(c: Config, p: Packet)
    requires ObjectsOk(c)
    ensures Decide(CustomBlock(c), Sets(c), p) == CustomDecision(c, p)
  {
    assert c.rules[0..] == c.rules;
    CustomBlockFrom(c, p, 0);
  }

  // ---- the default grants, each one a fact about the configuration ---------------------------------

  ghost predicate ZoneToWanGrant(c: Config, p: Packet) {
    exists i :: 0 <= i < |c.zones| && c.zones[i].kind != Wan && c.zones[i].IfaceName() != c.wan && c.wan != "" &&
                p.iif == c.zones[i].IfaceName() && p.oif == c.wan
  }

  ghost predicate MayInitiate(s: Zone, d: Zone) {
    s.kind != Wan && d.kind != Wan && s.name != d.name && Trust(s.kind) > Trust(d.kind)
  }

  ghost predicate ZonePairGrant(c: Config, p: Packet) {
    exists i, j :: 0 <= i < |c.zones| && 0 <= j < |c.zones| && MayInitiate(c.zones[i], c.zones[j]) &&
                   p.iif == c.zones[i].IfaceName() && p.oif == c.zones[j].IfaceName()
  }

  /** One end of the tunnel to the other, either way. */
  ghost predicate Joins(t: TunnelNet, p: Packet) {
    || (InBlocks(t.local, p.src) && InBlocks(t.remote, p.dst))
    || (InBlocks(t.remote, p.src) && InBlocks(t.local, p.dst))
  }

  ghost predicate TunnelGrant(c: Config, p: Packet) {
    exists i :: 0 <= i < |c.tunnels| && Joins(c.tunnels[i], p)
  }

  predicate ToForwarded(f: PortForward, p: Packet) {
    p.dst == f.destIp && p.proto == ServiceProto(f.proto) && p.dport == f.destPort
  }

  ghost predicate PortForwardGrant(c: Config, p: Packet) {
    p.iif == c.wan && p.ct == New && exists i :: 0 <= i < |c.portForwards| && ToForwarded(c.portForwards[i], p)
  }

  ghost predicate OneToOneGrant(c: Config, p: Packet) {
    p.iif == c.wan && p.ct == New && exists i :: 0 <= i < |c.nat11| && p.dst == c.nat11[i].intIp
  }

  ghost predicate HairpinGrant(c: Config, p: Packet) {
    c.hairpinNat && p.dnat && p.ct == New && exists i :: 0 <= i < |c.portForwards| && ToForwarded(c.portForwards[i], p)
  }

  ghost predicate OvpnRuleAllows(c: Config, r: OvpnRule, p: Packet) {
    && (if r.destAlias != "" then InAlias(c, r.destAlias, p.dst) else InElement(r.dest, p.dst))
    && ServiceAllows(r.proto, r.port, p)
  }

  ghost predicate OvpnClientAllows(c: Config, a: OvpnAccess, p: Packet) {
    && a.addr == Some(p.src)
    && (a.allowAll || exists j :: 0 <= j < |a.rules| && OvpnRuleAllows(c, a.rules[j], p))
  }

  ghost predicate OvpnGrant(c: Config, p: Packet) {
    c.ovpnIface != "" && p.iif == c.ovpnIface && p.ct == New &&
    exists i :: 0 <= i < |c.ovpnAccess| && OvpnClientAllows(c, c.ovpnAccess[i], p)
  }

  ghost predicate Granted(c: Config, p: Packet) {
    || (c.gatewayEnabled && (ZoneToWanGrant(c, p) || ZonePairGrant(c, p)))
    || (c.gatewayEnabled && p.iif == c.lan && p.oif == c.wan)
    || (c.gatewayEnabled && (PortForwardGrant(c, p) || OneToOneGrant(c, p) || HairpinGrant(c, p)))
    || TunnelGrant(c, p)
    || OvpnGrant(c, p)
  }

  /** The whole policy: geo-block, inspection, explicit rules, then any grant at all. */
  ghost function Policy(c: Config, p: Packet): Verdict {
    if ForwardActive(c) && (p.ct == Established || p.ct == Related) then Accept
    else if ForwardActive(c) && p.ct == Invalid then Drop
    else if InBlocks(c.geo, p.src) then Drop
    else if c.gatewayEnabled && c.ipsEnabled && p.ct == New then Queue
    else if CustomDecision(c, p).Some? then CustomDecision(c, p).value
    else if Granted(c, p) then Accept
    else Drop
  }

  // ---- block by block ------------------------------------------------------------------------------

  lemma HostIsExact(a: Addr, sets: seq<SetDecl>, x: Addr)
    ensures InRef(sets, OneHost(a), x) <==> x == a
  {
    InOne(Host(a), x);
  }

  lemma ZoneToWanBlockMeans(c: Config, sets: seq<SetDecl>, p: Packet)
    ensures AnyHit(FlatMap(c.zones, EmitZoneToWan(c)), sets, p) <==> ZoneToWanGrant(c, p)
  {
    var f := EmitZoneToWan(c);
    AnyHitFlatMap(c.zones, f, sets, p);
    forall i | 0 <= i < |c.zones|
      ensures AnyHit(f(c.zones[i]), sets, p) <==>
              (c.zones[i].kind != Wan && c.wan != "" && c.zones[i].IfaceName() != c.wan &&
               p.iif == c.zones[i].IfaceName() && p.oif == c.wan)
    {
      if f(c.zones[i]) != [] {
        AnyHitOne(f(c.zones[i])[0], sets, p);
        Holds2(IifName(c.zones[i].IfaceName()), OifName(c.wan), sets, p);
      }
    }
  }

  lemma ZonePairRowMeans(c: Config, s: Zone, sets: seq<SetDecl>, p: Packet)
    requires s.kind != Wan
    ensures AnyHit(FlatMap(c.zones, EmitZonePair(s)), sets, p) <==>
            exists j :: 0 <= j < |c.zones| && MayInitiate(s, c.zones[j]) &&
                        p.iif == s.IfaceName() && p.oif == c.zones[j].IfaceName()
  {
    var f := EmitZonePair(s);
    AnyHitFlatMap(c.zones, f, sets, p);
    forall j | 0 <= j < |c.zones|
      ensures AnyHit(f(c.zones[j]), sets, p) <==>
              (MayInitiate(s, c.zones[j]) && p.iif == s.IfaceName() && p.oif == c.zones[j].IfaceName())
    {
      if f(c.zones[j]) != [] {
        AnyHitOne(f(c.zones[j])[0], sets, p);
        Holds2(IifName(s.IfaceName()), OifName(c.zones[j].IfaceName()), sets, p);
      }
    }
  }

  lemma ZonePairBlockMeans(c: Config, sets: seq<SetDecl>, p: Packet)
    ensures AnyHit(FlatMap(c.zones, EmitZonePairs(c)), sets, p) <==> ZonePairGrant(c, p)
  {
    AnyHitFlatMap(c.zones, EmitZonePairs(c), sets, p);
    forall i | 0 <= i < |c.zones|
      ensures AnyHit(EmitZonePairs(c)(c.zones[i]), sets, p) <==>
              exists j :: 0 <= j < |c.zones| && MayInitiate(c.zones[i], c.zones[j]) &&
                          p.iif == c.zones[i].IfaceName() && p.oif == c.zones[j].IfaceName()
    {
      if c.zones[i].kind != Wan {
        ZonePairRowMeans(c, c.zones[i], sets, p);
      }
    }
  }

  lemma TunnelBlockMeans(c: Config, sets: seq<SetDecl>, p: Packet)
    ensures AnyHit(TunnelBlock(c), sets, p) <==> TunnelGrant(c, p)
  {
    AnyHitFlatMap(c.tunnels, EmitTunnel(), sets, p);
    forall i | 0 <= i < |c.tunnels|
      ensures AnyHit(EmitTunnel()(c.tunnels[i]), sets, p) <==> Joins(c.tunnels[i], p)
    {
      TunnelMeans(c.tunnels[i], sets, p);
    }
  }

  lemma TunnelMeans(t: TunnelNet, sets: seq<SetDecl>, p: Packet)
    ensures AnyHit(EmitTunnel()(t), sets, p) <==> Joins(t, p)
  {
    var there := AcceptWhen([Saddr(Anon(Blocks(t.local))), Daddr(Anon(Blocks(t.remote)))]);
    var back := AcceptWhen([Saddr(Anon(Blocks(t.remote))), Daddr(Anon(Blocks(t.local)))]);
    if t.local != [] && t.remote != [] {
      assert EmitTunnel()(t) == [there] + [back];
      AnyHitConcat([there], [back], sets, p);
      AnyHitOne(there, sets, p);
      AnyHitOne(back, sets, p);
      Holds2(there.matches[0], there.matches[1], sets, p);
      Holds2(back.matches[0], back.matches[1], sets, p);
      BlocksAreBlocks(t.local, p.src);
      BlocksAreBlocks(t.local, p.dst);
      BlocksAreBlocks(t.remote, p.src);
      BlocksAreBlocks(t.remote, p.dst);
    }
  }

  lemma PortForwardBlockMeans(c: Config, sets: seq<SetDecl>, p: Packet)
    ensures AnyHit(FlatMap(c.portForwards, EmitForward(c)), sets, p) <==> PortForwardGrant(c, p)
  {
    AnyHitFlatMap(c.portForwards, EmitForward(c), sets, p);
    forall i | 0 <= i < |c.portForwards|
      ensures AnyHit(EmitForward(c)(c.portForwards[i]), sets, p) <==>
              (p.iif == c.wan && p.ct == New && ToForwarded(c.portForwards[i], p))
    {
      var f := c.portForwards[i];
      var r := EmitForward(c)(f)[0];
      AnyHitOne(r, sets, p);
      Holds4(IifName(c.wan), Daddr(OneHost(f.destIp)), Dport(ServiceProto(f.proto), [f.destPort]), NEW_ONLY, sets, p);
      HostIsExact(f.destIp, sets, p.dst);
    }
  }

  lemma OneToOneBlockMeans(c: Config, sets: seq<SetDecl>, p: Packet)
    ensures AnyHit(FlatMap(c.nat11, EmitOneToOne(c)), sets, p) <==> OneToOneGrant(c, p)
  {
    AnyHitFlatMap(c.nat11, EmitOneToOne(c), sets, p);
    forall i | 0 <= i < |c.nat11|
      ensures AnyHit(EmitOneToOne(c)(c.nat11[i]), sets, p) <==>
              (p.iif == c.wan && p.ct == New && p.dst == c.nat11[i].intIp)
    {
      AnyHitOne(EmitOneToOne(c)(c.nat11[i])[0], sets, p);
      Holds3(IifName(c.wan), Daddr(OneHost(c.nat11[i].intIp)), NEW_ONLY, sets, p);
      HostIsExact(c.nat11[i].intIp, sets, p.dst);
    }
  }

  lemma HairpinBlockMeans(c: Config, sets: seq<SetDecl>, p: Packet)
    ensures AnyHit(if Hairpin(c) then FlatMap(c.portForwards, EmitHairpin()) else [], sets, p) <==> HairpinGrant(c, p)
  {
    if Hairpin(c) {
      AnyHitFlatMap(c.portForwards, EmitHairpin(), sets, p);
      forall i | 0 <= i < |c.portForwards|
        ensures AnyHit(EmitHairpin()(c.portForwards[i]), sets, p) <==>
                (p.dnat && p.ct == New && ToForwarded(c.portForwards[i], p))
      {
        var f := c.portForwards[i];
        AnyHitOne(EmitHairpin()(f)[0], sets, p);
        Holds4(Daddr(OneHost(f.destIp)), Dport(ServiceProto(f.proto), [f.destPort]), CtDnat, NEW_ONLY, sets, p);
        HostIsExact(f.destIp, sets, p.dst);
      }
    }
  }

  lemma OvpnPortMeans(r: OvpnRule, sets: seq<SetDecl>, p: Packet)
    ensures AllHold(OvpnPortMatch(r), sets, p) <==> ServiceAllows(r.proto, r.port, p)
  {
    var q := OvpnPortMatch(r);
    if q != [] { Holds1(q[0], sets, p); }
  }

  lemma OvpnDestMeans(c: Config, r: OvpnRule, x: Addr)
    ensures InRef(Sets(c), OvpnDest(r), x) <==>
            if r.destAlias != "" then InAlias(c, r.destAlias, x) else InElement(r.dest, x)
  {
    AliasSetContains(c, r.destAlias, x);
    InOne(r.dest, x);
  }

  lemma {:induction false} OvpnRuleMeans(c: Config, iface: string, addr: Addr, r: OvpnRule, p: Packet)
    ensures AnyHit(EmitOvpnRule(iface, addr)(r), Sets(c), p) <==>
            (p.iif == iface && p.src == addr && p.ct == New && OvpnRuleAllows(c, r, p))
  {
    var sets := Sets(c);
    var head: seq<Match> := [IifName(iface), Saddr(OneHost(addr)), Daddr(OvpnDest(r))];
    AnyHitOne(EmitOvpnRule(iface, addr)(r)[0], sets, p);
    HoldsConcat(head, OvpnPortMatch(r), sets, p);
    HoldsConcat(head + OvpnPortMatch(r), [NEW_ONLY], sets, p);
    OvpnHeadMeans(c, iface, addr, r, p);
    Holds1(NEW_ONLY, sets, p);
    OvpnPortMeans(r, sets, p);
  }

  lemma {:induction false} OvpnHeadMeans(c: Config, iface: string, addr: Addr, r: OvpnRule, p: Packet)
    ensures AllHold([IifName(iface), Saddr(OneHost(addr)), Daddr(OvpnDest(r))], Sets(c), p) <==>
      && p.iif == iface && p.src == addr
      && (if r.destAlias != "" then InAlias(c, r.destAlias, p.dst) else InElement(r.dest, p.dst))
  {
    Holds3(IifName(iface), Saddr(OneHost(addr)), Daddr(OvpnDest(r)), Sets(c), p);
    HostIsExact(addr, Sets(c), p.src);
    OvpnDestMeans(c, r, p.dst);
  }

  lemma OvpnClientMeans(c: Config, iface: string, a: OvpnAccess, p: Packet)
    ensures AnyHit(EmitOvpnClient(iface)(a), Sets(c), p) <==> (p.iif == iface && p.ct == New && OvpnClientAllows(c, a, p))
  {
    var sets := Sets(c);
    if a.addr.Some? && a.allowAll {
      AnyHitOne(EmitOvpnClient(iface)(a)[0], sets, p);
      Holds3(IifName(iface), Saddr(OneHost(a.addr.value)), NEW_ONLY, sets, p);
      HostIsExact(a.addr.value, sets, p.src);
    } else if a.addr.Some? {
      var f := EmitOvpnRule(iface, a.addr.value);
      AnyHitFlatMap(a.rules, f, sets, p);
      forall j | 0 <= j < |a.rules|
        ensures AnyHit(f(a.rules[j]), sets, p) <==>
                (p.iif == iface && p.src == a.addr.value && p.ct == New && OvpnRuleAllows(c, a.rules[j], p))
      {
        OvpnRuleMeans(c, iface, a.addr.value, a.rules[j], p);
      }
    }
  }

  lemma OvpnBlockMeans(c: Config, p: Packet)
    ensures AnyHit(OvpnBlock(c), Sets(c), p) <==> OvpnGrant(c, p)
  {
    if OvpnActive(c) {
      AnyHitFlatMap(c.ovpnAccess, EmitOvpnClient(c.ovpnIface), Sets(c), p);
      forall i | 0 <= i < |c.ovpnAccess|
        ensures AnyHit(EmitOvpnClient(c.ovpnIface)(c.ovpnAccess[i]), Sets(c), p) <==>
                (p.iif == c.ovpnIface && p.ct == New && OvpnClientAllows(c, c.ovpnAccess[i], p))
      {
        OvpnClientMeans(c, c.ovpnIface, c.ovpnAccess[i], p);
      }
    }
  }

  lemma PublishBlockMeans(c: Config, sets: seq<SetDecl>, p: Packet)
    ensures AnyHit(PublishBlock(c), sets, p) <==>
            (c.gatewayEnabled &&
               ((p.iif == c.lan && p.oif == c.wan) ||
                PortForwardGrant(c, p) || OneToOneGrant(c, p) || HairpinGrant(c, p)))
  {
    if c.gatewayEnabled {
      var l, f, n := [LanToWan(c)], FlatMap(c.portForwards, EmitForward(c)), FlatMap(c.nat11, EmitOneToOne(c));
      var h := if Hairpin(c) then FlatMap(c.portForwards, EmitHairpin()) else [];
      AnyHitConcat(l + f + n, h, sets, p);
      AnyHitConcat(l + f, n, sets, p);
      AnyHitConcat(l, f, sets, p);
      AnyHitOne(LanToWan(c), sets, p);
      Holds2(IifName(c.lan), OifName(c.wan), sets, p);
      PortForwardBlockMeans(c, sets, p);
      OneToOneBlockMeans(c, sets, p);
      HairpinBlockMeans(c, sets, p);
    }
  }

  /** All the default grants together, as one order-free condition. */
  lemma GrantsMean(c: Config, p: Packet)
    ensures AnyHit(Grants(c), Sets(c), p) <==> Granted(c, p)
  {
    var sets := Sets(c);
    AnyHitConcat(ZoneBlock(c) + TunnelBlock(c) + PublishBlock(c), OvpnBlock(c), sets, p);
    AnyHitConcat(ZoneBlock(c) + TunnelBlock(c), PublishBlock(c), sets, p);
    AnyHitConcat(ZoneBlock(c), TunnelBlock(c), sets, p);
    if c.gatewayEnabled {
      AnyHitConcat(FlatMap(c.zones, EmitZoneToWan(c)), FlatMap(c.zones, EmitZonePairs(c)), sets, p);
      ZoneToWanBlockMeans(c, sets, p);
      ZonePairBlockMeans(c, sets, p);
    }
    TunnelBlockMeans(c, sets, p);
    PublishBlockMeans(c, sets, p);
    OvpnBlockMeans(c, p);
  }

  lemma FlatMapVerdict<T>(xs: seq<T>, f: T -> seq<Rule>, v: Verdict)
    requires forall i, r :: 0 <= i < |xs| && r in f(xs[i]) ==> r.verdict == v
    ensures forall r :: r in FlatMap(xs, f) ==> r.verdict == v
  {
    forall r | r in FlatMap(xs, f) ensures r.verdict == v {
      FlatMapMembers(xs, f, r);
    }
  }

  lemma ZonesAllAccept(c: Config)
    ensures forall r :: r in ZoneBlock(c) ==> r.verdict == Accept
  {
    forall i | 0 <= i < |c.zones| {
      FlatMapVerdict(c.zones, EmitZonePair(c.zones[i]), Accept);
    }
    FlatMapVerdict(c.zones, EmitZoneToWan(c), Accept);
    FlatMapVerdict(c.zones, EmitZonePairs(c), Accept);
  }

  lemma PublishAllAccept(c: Config)
    ensures forall r :: r in PublishBlock(c) ==> r.verdict == Accept
  {
    FlatMapVerdict(c.portForwards, EmitForward(c), Accept);
    FlatMapVerdict(c.nat11, EmitOneToOne(c), Accept);
    FlatMapVerdict(c.portForwards, EmitHairpin(), Accept);
  }

  lemma OvpnAllAccept(c: Config)
    ensures forall r :: r in OvpnBlock(c) ==> r.verdict == Accept
  {
    forall i | 0 <= i < |c.ovpnAccess| && c.ovpnAccess[i].addr.Some? {
      FlatMapVerdict(c.ovpnAccess[i].rules, EmitOvpnRule(c.ovpnIface, c.ovpnAccess[i].addr.value), Accept);
    }
    FlatMapVerdict(c.ovpnAccess, EmitOvpnClient(c.ovpnIface), Accept);
  }

  lemma GrantsAllAccept(c: Config)
    ensures forall r :: r in Grants(c) ==> r.verdict == Accept
  {
    ZonesAllAccept(c);
    FlatMapVerdict(c.tunnels, EmitTunnel(), Accept);
    PublishAllAccept(c);
    OvpnAllAccept(c);
  }

  lemma ConntrackBlockMeans(c: Config, sets: seq<SetDecl>, p: Packet)
    ensures Decide(ConntrackBlock(c), sets, p) ==
      if ForwardActive(c) && (p.ct == Established || p.ct == Related) then Some(Accept)
      else if ForwardActive(c) && p.ct == Invalid then Some(Drop)
      else None
  {
    var known, bad := Rule([CtIn([Established, Related])], Accept), Rule([CtIn([Invalid])], Drop);
    if ForwardActive(c) {
      assert ConntrackBlock(c) == [known] + [bad];
      DecideSequence([known], [bad], sets, p);
      Holds1(CtIn([Established, Related]), sets, p);
      Holds1(CtIn([Invalid]), sets, p);
    }
  }

  lemma GeoBlockMeans(c: Config, p: Packet)
    ensures Decide(GeoBlock(c), Sets(c), p) == if InBlocks(c.geo, p.src) then Some(Drop) else None
  {
    Holds1(Saddr(Named("geo4")), Sets(c), p);
    GeoSetContains(c, p.src);
  }

  lemma PreludeMeans(c: Config, p: Packet)
    ensures Decide(Prelude(c), Sets(c), p) ==
      if ForwardActive(c) && (p.ct == Established || p.ct == Related) then Some(Accept)
      else if ForwardActive(c) && p.ct == Invalid then Some(Drop)
      else if InBlocks(c.geo, p.src) then Some(Drop)
      else if c.gatewayEnabled && c.ipsEnabled && p.ct == New then Some(Queue)
      else None
  {
    DecideSequence(ConntrackBlock(c) + GeoBlock(c), InspectBlock(c), Sets(c), p);
    DecideSequence(ConntrackBlock(c), GeoBlock(c), Sets(c), p);
    ConntrackBlockMeans(c, Sets(c), p);
    GeoBlockMeans(c, p);
    Holds1(NEW_ONLY, Sets(c), p);
  }

  /** Past the explicit rules: accept on any grant, otherwise drop explicitly or by policy. */
  lemma {:induction false} GrantsDecide(c: Config, p: Packet)
    ensures Granted(c, p) ==> Decide(Grants(c) + TailBlock(c), Sets(c), p) == Some(Accept)
    ensures !Granted(c, p) ==> Decide(Grants(c) + TailBlock(c), Sets(c), p) in {Some(Drop), None}
  {
    GrantsMean(c, p);
    GrantsAllAccept(c);
    DecideSequence(Grants(c), TailBlock(c), Sets(c), p);
    DecideUniform(Grants(c), Accept, Sets(c), p);
    TailDrops(c, p);
  }

  lemma TailDrops(c: Config, p: Packet)
    ensures Decide(TailBlock(c), Sets(c), p) in {Some(Drop), None}
  {
    DecideUniform(TailBlock(c), Drop, Sets(c), p);
  }

  /** Three chains in a row under a drop policy. */
  lemma RunThree(a: seq<Rule>, b: seq<Rule>, d: seq<Rule>, sets: seq<SetDecl>, p: Packet)
    ensures Run(a + b + d, Drop, sets, p) ==
            if Decide(a, sets, p).Some? then Decide(a, sets, p).value
            else if Decide(b, sets, p).Some? then Decide(b, sets, p).value
            else Run(d, Drop, sets, p)
  {
    DecideSequence(a + b, d, sets, p);
    DecideSequence(a, b, sets, p);
  }

  /** Compiler correctness: on every packet the emitted chain, run first-match with its drop
      policy, gives exactly the verdict of the order-free policy. */
  lemma ForwardChainMeansPolicy(c: Config, p: Packet)
    requires ObjectsOk(c)
    ensures Run(ForwardRules(c), Drop, Sets(c), p) == Policy(c, p)
  {
    RunThree(Prelude(c), CustomBlock(c), Grants(c) + TailBlock(c), Sets(c), p);
    PreludeMeans(c, p);
    CustomBlockMeans(c, p);
    GrantsDecide(c, p);
  }

  /** Replies are let through exactly when something besides the VPN uses the chain: on a host with
      VPN clients alone a client may open connections and never hears the answers. */
  lemma RepliesAreExact(c: Config, p: Packet)
    requires ObjectsOk(c) && (p.ct == Established || p.ct == Related)
    ensures Run(ForwardRules(c), Drop, Sets(c), p) == Accept <==>
            c.gatewayEnabled || c.tunnels != [] || c.geo != [] || exists i :: 0 <= i < |c.rules| && c.rules[i].enabled
  {
    ForwardChainMeansPolicy(c, p);
    if !ForwardActive(c) {
      assert CustomDecision(c, p).None?;
      assert !TunnelGrant(c, p) && !OvpnGrant(c, p);
    }
  }

  lemma TailDecides(c: Config, p: Packet)
    ensures Decide(TailBlock(c), Sets(c), p).Some? <==>
            ForwardActive(c) || (c.ovpnIface != "" && c.ovpnAccess != [] && p.iif == c.ovpnIface)
  {
    var v := if OvpnActive(c) then [Rule([IifName(c.ovpnIface)], Drop)] else [];
    var d := if ForwardActive(c) then [Rule([], Drop)] else [];
    DecideSequence(v, d, Sets(c), p);
    Holds1(IifName(c.ovpnIface), Sets(c), p);
  }

  lemma InactiveChainIsSilent(c: Config, p: Packet)
    requires ObjectsOk(c) && !ForwardActive(c) && (p.iif == c.ovpnIface ==> c.ovpnAccess == [] || c.ovpnIface == "")
    ensures Decide(Prelude(c), Sets(c), p).None? && Decide(CustomBlock(c), Sets(c), p).None?
    ensures Decide(Grants(c), Sets(c), p).None?
  {
    CustomBlockMeans(c, p);
    assert CustomDecision(c, p).None?;
    GrantsMean(c, p);
    GrantsAllAccept(c);
    DecideUniform(Grants(c), Accept, Sets(c), p);
  }

  /** A packet reaches the chain's own policy, with nothing logged or counted, exactly when nothing but the VPN
      uses the chain and the packet is not from the tunnel. */
  lemma FallThroughIsExact(c: Config, p: Packet)
    requires ObjectsOk(c)
    ensures Decide(ForwardRules(c), Sets(c), p).None? <==>
      && !c.gatewayEnabled && c.tunnels == [] && c.geo == [] && (forall i :: 0 <= i < |c.rules| ==> !c.rules[i].enabled)
      && !(c.ovpnIface != "" && c.ovpnAccess != [] && p.iif == c.ovpnIface)
  {
    DecideSequence(Prelude(c) + CustomBlock(c), Grants(c) + TailBlock(c), Sets(c), p);
    DecideSequence(Prelude(c), CustomBlock(c), Sets(c), p);
    DecideSequence(Grants(c), TailBlock(c), Sets(c), p);
    TailDecides(c, p);
    if Decide(TailBlock(c), Sets(c), p).None? {
      InactiveChainIsSilent(c, p);
    }
  }
}
