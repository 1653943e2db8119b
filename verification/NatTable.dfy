/** Destination and source translation, and the path of a published connection through
    prerouting, the forward chain and postrouting. */
module NatTable {
  import opened Ipv4
  import opened Sequences
  import opened Nft
  import opened GatewayConfig
  import opened FilterSets
  import opened ForwardChain
  import opened ForwardMeaning

  function ExtMatch(f: PortForward): seq<Match> {
    if f.extIp.Some? then [Daddr(OneHost(f.extIp.value))] else []
  }

  function EmitDnat(c: Config): PortForward -> seq<Rule> {
    (f: PortForward) =>
      [Rule([IifName(c.wan)] + ExtMatch(f) + [Dport(ServiceProto(f.proto), [f.extPort])], DnatTo(f.destIp, Some(f.destPort)))]
  }

  function EmitDnatHost(c: Config): OneToOne -> seq<Rule> {
    (n: OneToOne) => [Rule([IifName(c.wan), Daddr(OneHost(n.extIp))], DnatTo(n.intIp, None))]
  }

  function InternalRef(c: Config): AddrRef { Anon(Blocks(InternalNetworks(c.zones, c.clientNetwork))) }

  function EmitReflect(c: Config): PortForward -> seq<Rule> {
    (f: PortForward) =>
      [Rule([Saddr(InternalRef(c)), FibLocal, Dport(ServiceProto(f.proto), [f.extPort])], DnatTo(f.destIp, Some(f.destPort)))]
  }

  predicate NatTableEmitted(c: Config) {
    c.gatewayEnabled &&
    (c.natEnabled || c.portForwards != [] || c.snatRules != [] || c.nat11 != [] || c.ovpnSubnet.Some?)
  }

  function PreroutingRules(c: Config): seq<Rule> {
    if NatTableEmitted(c) && (c.portForwards != [] || c.nat11 != []) then
      FlatMap(c.portForwards, EmitDnat(c)) + FlatMap(c.nat11, EmitDnatHost(c)) +
      (if Hairpin(c) then FlatMap(c.portForwards, EmitReflect(c)) else [])
    else []
  }

  function EmitSnat(c: Config): SnatRule -> seq<Rule> {
    (s: SnatRule) => [Rule([OifName(c.wan), Saddr(Anon([s.source]))], SnatTo(s.to))]
  }

  function EmitSnatHost(c: Config): OneToOne -> seq<Rule> {
    (n: OneToOne) => [Rule([OifName(c.wan), Saddr(OneHost(n.intIp))], SnatTo(n.extIp))]
  }

  function WanMasquerade(c: Config): seq<Rule> {
    if c.natEnabled then [Rule([OifName(c.wan)], Masquerade)] else []
  }

  function VpnMasquerade(c: Config): seq<Rule> {
    if c.ovpnSubnet.Some? && c.lan != ""
    then [Rule([OifName(c.lan), Saddr(Anon([Net(c.ovpnSubnet.value)]))], Masquerade)] else []
  }

  function EmitReflectMasquerade(c: Config): PortForward -> seq<Rule> {
    (f: PortForward) =>
      [Rule([Saddr(InternalRef(c)), Daddr(OneHost(f.destIp)), Dport(ServiceProto(f.proto), [f.destPort])], Masquerade)]
  }

  predicate PostroutingEmitted(c: Config) {
    NatTableEmitted(c) && (c.natEnabled || Hairpin(c) || c.snatRules != [] || c.nat11 != [])
  }

  function WanRewrites(c: Config): seq<Rule> {
    FlatMap(c.snatRules, EmitSnat(c)) + FlatMap(c.nat11, EmitSnatHost(c)) + WanMasquerade(c)
  }

  function LanRewrites(c: Config): seq<Rule> {
    VpnMasquerade(c) + (if Hairpin(c) then FlatMap(c.portForwards, EmitReflectMasquerade(c)) else [])
  }

  function PostroutingRules(c: Config): seq<Rule> {
    if PostroutingEmitted(c) then WanRewrites(c) + LanRewrites(c) else []
  }

  // ---- emission -----------------------------------------------------------------------------------

  method EmitPrerouting(c: Config) returns (rs: seq<Rule>)
    ensures rs == PreroutingRules(c)
  {
    if !NatTableEmitted(c) || (|c.portForwards| == 0 && |c.nat11| == 0) {
      return [];
    }
    var forwards := Collect(c.portForwards, EmitDnat(c));
    var hosts := Collect(c.nat11, EmitDnatHost(c));
    rs := forwards + hosts;
    if Hairpin(c) {
      var reflected := Collect(c.portForwards, EmitReflect(c));
      rs := rs + reflected;
    }
  }

  method EmitPostrouting(c: Config) returns (rs: seq<Rule>)
    ensures rs == PostroutingRules(c)
  {
    if !PostroutingEmitted(c) {
      return [];
    }
    var pinned := Collect(c.snatRules, EmitSnat(c));
    var hosts := Collect(c.nat11, EmitSnatHost(c));
    var reflected: seq<Rule> := [];
    if Hairpin(c) {
      reflected := Collect(c.portForwards, EmitReflectMasquerade(c));
    }
    rs := (pinned + hosts + WanMasquerade(c)) + (VpnMasquerade(c) + reflected);
  }

  // ---- translating a packet -------------------------------------------------------------------------

  /** Destination translation of a new connection's packet. */
  function Rewrite(v: Option<Verdict>, p: Packet): Packet {
    match v
    case Some(DnatTo(a, Some(port))) => p.(dst := a, dport := port, dnat := true)
    case Some(DnatTo(a, None)) => p.(dst := a, dnat := true)
    case _ => p
  }

  function Inbound(c: Config, p: Packet): Packet {
    Rewrite(Decide(PreroutingRules(c), [], p), p)
  }

  function Outbound(c: Config, p: Packet): Option<Verdict> {
    Decide(PostroutingRules(c), [], p)
  }

  predicate AtWan(c: Config, f: PortForward, p: Packet) {
    && p.iif == c.wan
    && (f.extIp.None? || p.dst == f.extIp.value)
    && p.proto == ServiceProto(f.proto) && p.dport == f.extPort
  }

  predicate AtLocal(c: Config, f: PortForward, p: Packet) {
    p.localDst && p.proto == ServiceProto(f.proto) && p.dport == f.extPort
  }

  /** k is the first forward satisfying the test, or the number of forwards. */
  ghost predicate FirstForward(fs: seq<PortForward>, test: PortForward -> bool, k: nat) {
    && k <= |fs|
    && (k < |fs| ==> test(fs[k]))
    && forall j :: 0 <= j < k ==> !test(fs[j])
  }

  function AtWanTest(c: Config, p: Packet): PortForward -> bool { (f: PortForward) => AtWan(c, f, p) }
  function AtLocalTest(c: Config, p: Packet): PortForward -> bool { (f: PortForward) => AtLocal(c, f, p) }

  lemma DnatHits(c: Config, f: PortForward, p: Packet)
    ensures Hits(EmitDnat(c)(f)[0], [], p) <==> AtWan(c, f, p)
  {
    var port := Dport(ServiceProto(f.proto), [f.extPort]);
    HoldsConcat([IifName(c.wan)] + ExtMatch(f), [port], [], p);
    HoldsConcat([IifName(c.wan)], ExtMatch(f), [], p);
    Holds1(IifName(c.wan), [], p);
    Holds1(port, [], p);
    if f.extIp.Some? {
      Holds1(Daddr(OneHost(f.extIp.value)), [], p);
      HostIsExact(f.extIp.value, [], p.dst);
    }
  }

  lemma DnatHostHits(c: Config, n: OneToOne, p: Packet)
    ensures Hits(EmitDnatHost(c)(n)[0], [], p) <==> p.iif == c.wan && p.dst == n.extIp
  {
    Holds2(IifName(c.wan), Daddr(OneHost(n.extIp)), [], p);
    HostIsExact(n.extIp, [], p.dst);
  }

  lemma InternalRefIsExact(c: Config, x: Addr)
    ensures InRef([], InternalRef(c), x) <==> Internal(c, x)
  {
    BlocksAreBlocks(InternalNetworks(c.zones, c.clientNetwork), x);
    InternalNetworksCover(c, x);
  }

  lemma ReflectHits(c: Config, f: PortForward, p: Packet)
    ensures Hits(EmitReflect(c)(f)[0], [], p) <==> Internal(c, p.src) && AtLocal(c, f, p)
  {
    Holds3(Saddr(InternalRef(c)), FibLocal, Dport(ServiceProto(f.proto), [f.extPort]), [], p);
    InternalRefIsExact(c, p.src);
  }

  lemma ForwardsDecide(c: Config, p: Packet, k: nat)
    requires FirstForward(c.portForwards, AtWanTest(c, p), k)
    ensures Decide(FlatMap(c.portForwards, EmitDnat(c)), [], p) ==
            if k < |c.portForwards| then Some(DnatTo(c.portForwards[k].destIp, Some(c.portForwards[k].destPort))) else None
  {
    forall i | 0 <= i < |c.portForwards| ensures Hits(EmitDnat(c)(c.portForwards[i])[0], [], p) <==> AtWan(c, c.portForwards[i], p) {
      DnatHits(c, c.portForwards[i], p);
    }
    assert forall j :: 0 <= j < k ==> !AtWanTest(c, p)(c.portForwards[j]);
    DecideByElement(c.portForwards, EmitDnat(c), [], p, k);
  }

  /** Prerouting, part by part. */
  lemma PreroutingSplits(c: Config, p: Packet)
    requires c.gatewayEnabled
    ensures
      var a, b := Decide(FlatMap(c.portForwards, EmitDnat(c)), [], p), Decide(FlatMap(c.nat11, EmitDnatHost(c)), [], p);
      var d := if Hairpin(c) then Decide(FlatMap(c.portForwards, EmitReflect(c)), [], p) else None;
      Decide(PreroutingRules(c), [], p) == if a.Some? then a else if b.Some? then b else d
  {
    var f, n := FlatMap(c.portForwards, EmitDnat(c)), FlatMap(c.nat11, EmitDnatHost(c));
    var h := if Hairpin(c) then FlatMap(c.portForwards, EmitReflect(c)) else [];
    DecideSequence(f + n, h, [], p);
    DecideSequence(f, n, [], p);
  }

  // ---- published connections ---------------------------------------------------------------------------

  /** What the forward chain makes of a connection it has a grant for: only the geo-block, inspection or
      an explicit rule can decide otherwise. */
  ghost predicate AcceptedUnlessOverruled(c: Config, p: Packet) {
    Run(ForwardRules(c), Drop, Sets(c), p) ==
      if InBlocks(c.geo, p.src) then Drop
      else if c.ipsEnabled then Queue
      else if CustomDecision(c, p).Some? then CustomDecision(c, p).value
      else Accept
  }

  lemma GrantIsAccepted(c: Config, q: Packet)
    requires ObjectsOk(c) && c.gatewayEnabled && q.ct == New && Granted(c, q)
    ensures AcceptedUnlessOverruled(c, q)
  {
    ForwardChainMeansPolicy(c, q);
  }

  /** A new WAN packet that hits a port forward goes to the first matching forward's target, and the
      forward chain lets it through wherever it is routed. */
  lemma PortForwardPipeline(c: Config, p: Packet, k: nat, oif: string)
    requires ObjectsOk(c) && c.gatewayEnabled && p.ct == New
    requires k < |c.portForwards| && FirstForward(c.portForwards, AtWanTest(c, p), k)
    ensures
      var f, q := c.portForwards[k], Inbound(c, p);
      && q == p.(dst := f.destIp, dport := f.destPort, dnat := true)
      && AcceptedUnlessOverruled(c, q.(oif := oif))
  {
    ForwardsDecide(c, p, k);
    PreroutingSplits(c, p);
    var q := Inbound(c, p).(oif := oif);
    assert AtWan(c, c.portForwards[k], p) by { assert AtWanTest(c, p)(c.portForwards[k]); }
    assert PortForwardGrant(c, q) by { assert ToForwarded(c.portForwards[k], q); }
    GrantIsAccepted(c, q);
  }

  lemma ReflectionsDecide(c: Config, p: Packet, k: nat)
    requires Internal(c, p.src) && FirstForward(c.portForwards, AtLocalTest(c, p), k)
    ensures Decide(FlatMap(c.portForwards, EmitReflect(c)), [], p) ==
            if k < |c.portForwards| then Some(DnatTo(c.portForwards[k].destIp, Some(c.portForwards[k].destPort))) else None
  {
    forall i | 0 <= i < |c.portForwards| ensures Hits(EmitReflect(c)(c.portForwards[i])[0], [], p) <==> AtLocal(c, c.portForwards[i], p) {
      ReflectHits(c, c.portForwards[i], p);
    }
    assert forall j :: 0 <= j < k ==> !AtLocalTest(c, p)(c.portForwards[j]);
    DecideByElement(c.portForwards, EmitReflect(c), [], p, k);
  }

  /** No port forward and no 1:1 entry takes the packet at the WAN port; every packet off it, for one. */
  ghost predicate Unpublished(c: Config, p: Packet) {
    && (forall i :: 0 <= i < |c.portForwards| ==> !AtWan(c, c.portForwards[i], p))
    && (p.iif == c.wan ==> forall i :: 0 <= i < |c.nat11| ==> c.nat11[i].extIp != p.dst)
  }

  /** Then only the reflections can apply. */
  lemma UnpublishedSkipsPublic(c: Config, p: Packet)
    requires Unpublished(c, p)
    ensures Decide(FlatMap(c.portForwards, EmitDnat(c)), [], p).None?
    ensures Decide(FlatMap(c.nat11, EmitDnatHost(c)), [], p).None?
  {
    forall i | 0 <= i < |c.portForwards| { DnatHits(c, c.portForwards[i], p); }
    forall i | 0 <= i < |c.nat11| { DnatHostHits(c, c.nat11[i], p); }
    DecideByElement(c.portForwards, EmitDnat(c), [], p, |c.portForwards|);
    DecideByElement(c.nat11, EmitDnatHost(c), [], p, |c.nat11|);
  }

  lemma ReflectMasqueradeHits(c: Config, f: PortForward, p: Packet)
    ensures Hits(EmitReflectMasquerade(c)(f)[0], [], p) <==> Internal(c, p.src) && ToForwarded(f, p)
  {
    Holds3(Saddr(InternalRef(c)), Daddr(OneHost(f.destIp)), Dport(ServiceProto(f.proto), [f.destPort]), [], p);
    InternalRefIsExact(c, p.src);
    HostIsExact(f.destIp, [], p.dst);
  }

  lemma OffWanSkipsWanRewrites(c: Config, p: Packet)
    requires p.oif != c.wan
    ensures Decide(WanRewrites(c), [], p).None?
  {
    var s, n, m := FlatMap(c.snatRules, EmitSnat(c)), FlatMap(c.nat11, EmitSnatHost(c)), WanMasquerade(c);
    DecideSequence(s + n, m, [], p);
    DecideSequence(s, n, [], p);
    forall i | 0 <= i < |c.snatRules| { SnatHits(c, c.snatRules[i], p); }
    forall i | 0 <= i < |c.nat11| { SnatHostHits(c, c.nat11[i], p); }
    DecideByElement(c.snatRules, EmitSnat(c), [], p, |c.snatRules|);
    DecideByElement(c.nat11, EmitSnatHost(c), [], p, |c.nat11|);
    Holds1(OifName(c.wan), [], p);
  }

  lemma SnatHits(c: Config, s: SnatRule, p: Packet)
    ensures Hits(EmitSnat(c)(s)[0], [], p) <==> p.oif == c.wan && InElement(s.source, p.src)
  {
    Holds2(OifName(c.wan), Saddr(Anon([s.source])), [], p);
    InOne(s.source, p.src);
  }

  lemma SnatHostHits(c: Config, n: OneToOne, p: Packet)
    ensures Hits(EmitSnatHost(c)(n)[0], [], p) <==> p.oif == c.wan && p.src == n.intIp
  {
    Holds2(OifName(c.wan), Saddr(OneHost(n.intIp)), [], p);
    HostIsExact(n.intIp, [], p.src);
  }

  lemma LanRewritesMasquerade(c: Config, p: Packet)
    ensures Decide(LanRewrites(c), [], p) ==
            if AnyHit(LanRewrites(c), [], p) then Some(Masquerade) else None
  {
    FlatMapVerdict(c.portForwards, EmitReflectMasquerade(c), Masquerade);
    DecideUniform(LanRewrites(c), Masquerade, [], p);
  }

  lemma LanRewritesHit(c: Config, p: Packet)
    ensures AnyHit(LanRewrites(c), [], p) <==>
      || (c.ovpnSubnet.Some? && c.lan != "" && p.oif == c.lan && Contains(c.ovpnSubnet.value, p.src))
      || (Hairpin(c) && Internal(c, p.src) && exists i :: 0 <= i < |c.portForwards| && ToForwarded(c.portForwards[i], p))
  {
    var h := if Hairpin(c) then FlatMap(c.portForwards, EmitReflectMasquerade(c)) else [];
    AnyHitConcat(VpnMasquerade(c), h, [], p);
    if VpnMasquerade(c) != [] {
      AnyHitOne(VpnMasquerade(c)[0], [], p);
      Holds2(OifName(c.lan), Saddr(Anon([Net(c.ovpnSubnet.value)])), [], p);
      InOne(Net(c.ovpnSubnet.value), p.src);
    }
    if Hairpin(c) {
      AnyHitFlatMap(c.portForwards, EmitReflectMasquerade(c), [], p);
      forall i | 0 <= i < |c.portForwards|
        ensures AnyHit(EmitReflectMasquerade(c)(c.portForwards[i]), [], p) <==>
                (Internal(c, p.src) && ToForwarded(c.portForwards[i], p))
      {
        AnyHitOne(EmitReflectMasquerade(c)(c.portForwards[i])[0], [], p);
        ReflectMasqueradeHits(c, c.portForwards[i], p);
      }
    }
  }

  /** An internal client using the public address of a published service: reflected to the host,
      let through, and source-masqueraded when it leaves anywhere but the WAN port. */
  lemma ReflectedFlow(c: Config, p: Packet, k: nat, oif: string)
    requires ObjectsOk(c) && c.gatewayEnabled && c.hairpinNat && p.ct == New
    requires Unpublished(c, p) && Internal(c, p.src)
    requires k < |c.portForwards| && FirstForward(c.portForwards, AtLocalTest(c, p), k)
    ensures
      var f, q := c.portForwards[k], Inbound(c, p);
      && q == p.(dst := f.destIp, dport := f.destPort, dnat := true)
      && AcceptedUnlessOverruled(c, q.(oif := oif))
      && (oif != c.wan ==> Outbound(c, q.(oif := oif)) == Some(Masquerade))
  {
    UnpublishedSkipsPublic(c, p);
    ReflectionsDecide(c, p, k);
    PreroutingSplits(c, p);
    var q := Inbound(c, p).(oif := oif);
    assert AtLocal(c, c.portForwards[k], p) by { assert AtLocalTest(c, p)(c.portForwards[k]); }
    assert ToForwarded(c.portForwards[k], q);
    assert HairpinGrant(c, q);
    GrantIsAccepted(c, q);
    if oif != c.wan {
      ReflectionIsMasqueraded(c, q, k);
    }
  }

  /** Reflection ignores the public address a forward is bound to. An internal client and an outside one
      asking for the same address and port are sent by the same forward exactly when the first forward of
      that port is bound to no other address; to the same host exactly when the two forwards agree; and the
      outside one is not sent anywhere when no forward and no 1:1 entry is for that address. */
  lemma ReflectionAgreesExactly(c: Config, p: Packet, w: Packet, j: nat, k: nat)
    requires c.gatewayEnabled && c.hairpinNat && Unpublished(c, p) && Internal(c, p.src)
    requires w.iif == c.wan && w.dst == p.dst && w.proto == p.proto && w.dport == p.dport
    requires j < |c.portForwards| && FirstForward(c.portForwards, AtLocalTest(c, p), j)
    requires FirstForward(c.portForwards, AtWanTest(c, w), k)
    ensures j == k <==> (c.portForwards[j].extIp.None? || c.portForwards[j].extIp.value == p.dst)
    ensures k < |c.portForwards| ==>
      (Inbound(c, p).dst == Inbound(c, w).dst && Inbound(c, p).dport == Inbound(c, w).dport <==>
         c.portForwards[j].destIp == c.portForwards[k].destIp && c.portForwards[j].destPort == c.portForwards[k].destPort)
    ensures k == |c.portForwards| && !Internal(c, w.src) && InTo(c.nat11, w.dst).None? ==> Inbound(c, w) == w
  {
    var f := c.portForwards[j];
    assert AtLocalTest(c, p)(f);
    assert AtWanTest(c, w)(f) <==> f.extIp.None? || f.extIp.value == p.dst;
    if k < |c.portForwards| {
      assert AtWanTest(c, w)(c.portForwards[k]);
      assert AtLocalTest(c, p)(c.portForwards[k]);
      InsideAndOutside(c, p, w, j, k);
    } else if !Internal(c, w.src) {
      OutsideIsLeftAlone(c, w);
    }
  }

  lemma InsideAndOutside(c: Config, p: Packet, w: Packet, j: nat, k: nat)
    requires c.gatewayEnabled && c.hairpinNat && Unpublished(c, p) && Internal(c, p.src)
    requires j < |c.portForwards| && FirstForward(c.portForwards, AtLocalTest(c, p), j)
    requires k < |c.portForwards| && FirstForward(c.portForwards, AtWanTest(c, w), k)
    ensures Inbound(c, p).dst == c.portForwards[j].destIp && Inbound(c, p).dport == c.portForwards[j].destPort
    ensures Inbound(c, w).dst == c.portForwards[k].destIp && Inbound(c, w).dport == c.portForwards[k].destPort
  {
    UnpublishedSkipsPublic(c, p);
    ReflectionsDecide(c, p, j);
    PreroutingSplits(c, p);
    ForwardsDecide(c, w, k);
    PreroutingSplits(c, w);
  }

  lemma OutsideIsLeftAlone(c: Config, w: Packet)
    requires c.gatewayEnabled && w.iif == c.wan && !Internal(c, w.src)
    requires FirstForward(c.portForwards, AtWanTest(c, w), |c.portForwards|)
    ensures InTo(c.nat11, w.dst).None? ==> Inbound(c, w) == w
  {
    ForwardsDecide(c, w, |c.portForwards|);
    HostsDecideIn(c, c.nat11, w);
    forall i | 0 <= i < |c.portForwards| { ReflectHits(c, c.portForwards[i], w); }
    DecideByElement(c.portForwards, EmitReflect(c), [], w, |c.portForwards|);
    PreroutingSplits(c, w);
  }

  lemma ReflectionIsMasqueraded(c: Config, q: Packet, k: nat)
    requires c.gatewayEnabled && Hairpin(c) && q.oif != c.wan && Internal(c, q.src)
    requires k < |c.portForwards| && ToForwarded(c.portForwards[k], q)
    ensures Outbound(c, q) == Some(Masquerade)
  {
    OffWanSkipsWanRewrites(c, q);
    DecideSequence(WanRewrites(c), LanRewrites(c), [], q);
    LanRewritesMasquerade(c, q);
    LanRewritesHit(c, q);
  }

  /** The VPN masquerade lives in a chain whose own guard does not mention the VPN: a tunnel packet
      leaving on the LAN port is masqueraded exactly when some other translation opens that chain. */
  lemma VpnMasqueradeIsExact(c: Config, p: Packet)
    requires Valid(c) && c.gatewayEnabled
    requires c.ovpnSubnet.Some? && Contains(c.ovpnSubnet.value, p.src) && p.oif == c.lan
    ensures Outbound(c, p) == Some(Masquerade) <==>
            c.natEnabled || Hairpin(c) || c.snatRules != [] || c.nat11 != []
  {
    OffWanSkipsWanRewrites(c, p);
    DecideSequence(WanRewrites(c), LanRewrites(c), [], p);
    LanRewritesMasquerade(c, p);
    LanRewritesHit(c, p);
  }

  // ---- management ports ---------------------------------------------------------------------------------

  /** Ports 22 and 443 are never taken by a port forward or a reflection; only a 1:1 mapping of the
      address itself redirects them. */
  lemma ManagementPortsStay(c: Config, p: Packet)
    requires Valid(c) && (p.dport == 22 || p.dport == 443)
    ensures Decide(PreroutingRules(c), [], p).Some? <==>
            c.gatewayEnabled && p.iif == c.wan && exists i :: 0 <= i < |c.nat11| && c.nat11[i].extIp == p.dst
  {
    if c.gatewayEnabled {
      forall i | 0 <= i < |c.portForwards|
        ensures !Hits(EmitDnat(c)(c.portForwards[i])[0], [], p) && !Hits(EmitReflect(c)(c.portForwards[i])[0], [], p)
      {
        assert PortForwardOk(c.portForwards[i]);
        DnatHits(c, c.portForwards[i], p);
        ReflectHits(c, c.portForwards[i], p);
      }
      DecideByElement(c.portForwards, EmitDnat(c), [], p, |c.portForwards|);
      DecideByElement(c.portForwards, EmitReflect(c), [], p, |c.portForwards|);
      PreroutingSplits(c, p);
      HostsDecide(c, p);
    }
  }

  // ---- 1:1 translation ------------------------------------------------------------------------------------

  function InTo(ns: seq<OneToOne>, ext: Addr): Option<Addr> {
    if ns == [] then None else if ns[0].extIp == ext then Some(ns[0].intIp) else InTo(ns[1..], ext)
  }

  function OutFrom(ns: seq<OneToOne>, int_: Addr): Option<Addr> {
    if ns == [] then None else if ns[0].intIp == int_ then Some(ns[0].extIp) else OutFrom(ns[1..], int_)
  }

  lemma {:induction false} HostsDecideIn(c: Config, ns: seq<OneToOne>, p: Packet)
    requires p.iif == c.wan
    ensures Decide(FlatMap(ns, EmitDnatHost(c)), [], p) ==
            match InTo(ns, p.dst) case Some(a) => Some(DnatTo(a, None)) case None => None
  {
    if ns != [] {
      DecideSequence(EmitDnatHost(c)(ns[0]), FlatMap(ns[1..], EmitDnatHost(c)), [], p);
      DnatHostHits(c, ns[0], p);
      HostsDecideIn(c, ns[1..], p);
    }
  }

  lemma {:induction false} HostsDecideOut(c: Config, ns: seq<OneToOne>, p: Packet)
    requires p.oif == c.wan
    ensures Decide(FlatMap(ns, EmitSnatHost(c)), [], p) ==
            match OutFrom(ns, p.src) case Some(a) => Some(SnatTo(a)) case None => None
  {
    if ns != [] {
      DecideSequence(EmitSnatHost(c)(ns[0]), FlatMap(ns[1..], EmitSnatHost(c)), [], p);
      SnatHostHits(c, ns[0], p);
      HostsDecideOut(c, ns[1..], p);
    }
  }

  lemma {:induction false} InToFindsFirst(ns: seq<OneToOne>, ext: Addr)
    ensures InTo(ns, ext).Some? <==> exists i :: 0 <= i < |ns| && ns[i].extIp == ext
    ensures InTo(ns, ext).Some? ==> exists i :: 0 <= i < |ns| && ns[i].extIp == ext && ns[i].intIp == InTo(ns, ext).value
  {
    if ns != [] && ns[0].extIp != ext {
      InToFindsFirst(ns[1..], ext);
      assert forall i :: 0 < i < |ns| ==> ns[i] == ns[1..][i - 1];
      assert forall i :: 0 <= i < |ns[1..]| ==> ns[1..][i] == ns[i + 1];
    }
  }

  lemma {:induction false} OutFromFindsFirst(ns: seq<OneToOne>, int_: Addr)
    ensures OutFrom(ns, int_).Some? <==> exists i :: 0 <= i < |ns| && ns[i].intIp == int_
    ensures OutFrom(ns, int_).Some? ==> exists i :: 0 <= i < |ns| && ns[i].intIp == int_ && ns[i].extIp == OutFrom(ns, int_).value
  {
    if ns != [] && ns[0].intIp != int_ {
      OutFromFindsFirst(ns[1..], int_);
      assert forall i :: 0 < i < |ns| ==> ns[i] == ns[1..][i - 1];
      assert forall i :: 0 <= i < |ns[1..]| ==> ns[1..][i] == ns[i + 1];
    }
  }

  lemma HostsDecide(c: Config, p: Packet)
    ensures Decide(FlatMap(c.nat11, EmitDnatHost(c)), [], p).Some? <==>
            p.iif == c.wan && exists i :: 0 <= i < |c.nat11| && c.nat11[i].extIp == p.dst
  {
    if p.iif == c.wan {
      HostsDecideIn(c, c.nat11, p);
      InToFindsFirst(c.nat11, p.dst);
    } else {
      UnpublishedSkipsPublic(c, p);
    }
  }

  /** Two entries agree on one side exactly when they agree on the other. */
  ghost predicate Bijective(ns: seq<OneToOne>) {
    forall i, j :: 0 <= i < |ns| && 0 <= j < |ns| ==> (ns[i].extIp == ns[j].extIp <==> ns[i].intIp == ns[j].intIp)
  }

  /** Every listed pair is honoured in both directions. */
  ghost predicate Honoured(ns: seq<OneToOne>) {
    forall i :: 0 <= i < |ns| ==> InTo(ns, ns[i].extIp) == Some(ns[i].intIp) && OutFrom(ns, ns[i].intIp) == Some(ns[i].extIp)
  }

  /** First-match translation honours the whole list exactly when the list is one-to-one. */
  lemma OneToOneIsExact(ns: seq<OneToOne>)
    ensures Honoured(ns) <==> Bijective(ns)
  {
    if Bijective(ns) {
      forall i | 0 <= i < |ns|
        ensures InTo(ns, ns[i].extIp) == Some(ns[i].intIp) && OutFrom(ns, ns[i].intIp) == Some(ns[i].extIp)
      {
        InToFindsFirst(ns, ns[i].extIp);
        OutFromFindsFirst(ns, ns[i].intIp);
      }
    }
  }

  ghost predicate Unforwarded(c: Config, p: Packet) {
    forall i :: 0 <= i < |c.portForwards| ==> !AtWan(c, c.portForwards[i], p)
  }

  ghost predicate Unpinned(c: Config, p: Packet) {
    forall i :: 0 <= i < |c.snatRules| ==> !InElement(c.snatRules[i].source, p.src)
  }

  lemma InboundOneToOne(c: Config, p: Packet)
    requires c.gatewayEnabled && p.iif == c.wan && Unforwarded(c, p) && InTo(c.nat11, p.dst).Some?
    ensures Inbound(c, p) == p.(dst := InTo(c.nat11, p.dst).value, dnat := true)
  {
    assert FirstForward(c.portForwards, AtWanTest(c, p), |c.portForwards|);
    ForwardsDecide(c, p, |c.portForwards|);
    HostsDecideIn(c, c.nat11, p);
    PreroutingSplits(c, p);
  }

  lemma OutboundOneToOne(c: Config, p: Packet)
    requires c.gatewayEnabled && p.oif == c.wan && Unpinned(c, p) && OutFrom(c.nat11, p.src).Some?
    ensures Outbound(c, p) == Some(SnatTo(OutFrom(c.nat11, p.src).value))
  {
    var s, n, m := FlatMap(c.snatRules, EmitSnat(c)), FlatMap(c.nat11, EmitSnatHost(c)), WanMasquerade(c);
    forall i | 0 <= i < |c.snatRules| { SnatHits(c, c.snatRules[i], p); }
    DecideByElement(c.snatRules, EmitSnat(c), [], p, |c.snatRules|);
    HostsDecideOut(c, c.nat11, p);
    OutFromFindsFirst(c.nat11, p.src);
    DecideSequence(s + n, m, [], p);
    DecideSequence(s, n, [], p);
    DecideSequence(WanRewrites(c), LanRewrites(c), [], p);
  }

  /** In both directions, translating back gives the address one started from. */
  lemma OneToOneRoundTrip(c: Config, p: Packet, q: Packet, i: nat)
    requires c.gatewayEnabled && Bijective(c.nat11) && i < |c.nat11|
    requires p.iif == c.wan && p.dst == c.nat11[i].extIp && Unforwarded(c, p)
    requires q.oif == c.wan && q.src == c.nat11[i].intIp && Unpinned(c, q)
    ensures Inbound(c, p).dst == q.src
    ensures Outbound(c, q) == Some(SnatTo(p.dst))
  {
    OneToOneIsExact(c.nat11);
    InboundOneToOne(c, p);
    OutboundOneToOne(c, q);
  }
}
