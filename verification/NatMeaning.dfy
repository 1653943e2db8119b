/** What the NAT table does to every packet, read off the configuration alone. */
module NatMeaning {
  import opened Ipv4
  import opened Sequences
  import opened Nft
  import opened GatewayConfig
  import opened FilterSets
  import opened ForwardChain
  import opened ForwardMeaning
  import opened NatTable

  /** Finds the first element passing the test, or the length. */
  lemma {:induction false} FirstIndex<T>(xs: seq<T>, test: T -> bool) returns (k: nat)
    ensures k <= |xs| && (k < |xs| ==> test(xs[k]))
    ensures forall j :: 0 <= j < k ==> !test(xs[j])
  {
    k := 0;
    if xs != [] && !test(xs[0]) {
      var n := FirstIndex(xs[1..], test);
      k := n + 1;
      assert forall j :: 0 < j < k ==> xs[j] == xs[1..][j - 1];
    }
  }

  // ---- leaving ------------------------------------------------------------------------------------

  /** Source rule k is the first whose source contains the packet's. */
  ghost predicate PinnedBy(c: Config, p: Packet, k: nat) {
    k < |c.snatRules| && InElement(c.snatRules[k].source, p.src) &&
    forall j :: 0 <= j < k ==> !InElement(c.snatRules[j].source, p.src)
  }

  /** 1:1 entry k is the first for the packet's source. */
  ghost predicate MappedOutBy(c: Config, p: Packet, k: nat) {
    k < |c.nat11| && c.nat11[k].intIp == p.src && forall j :: 0 <= j < k ==> c.nat11[j].intIp != p.src
  }

  ghost predicate UnmappedOut(c: Config, p: Packet) {
    forall i :: 0 <= i < |c.nat11| ==> c.nat11[i].intIp != p.src
  }

  /** Something other than the VPN asks for source translation. */
  predicate SourceTranslated(c: Config) {
    c.natEnabled || (c.hairpinNat && c.portForwards != []) || c.snatRules != [] || c.nat11 != []
  }

  /** A tunnel packet leaving on the LAN port. */
  predicate TunnelToLan(c: Config, p: Packet) {
    c.lan != "" && p.oif == c.lan && c.ovpnSubnet.Some? && Contains(c.ovpnSubnet.value, p.src)
  }

  /** An internal client on its way to a published host, with reflection on. */
  ghost predicate ToPublished(c: Config, p: Packet) {
    c.hairpinNat && Internal(c, p.src) && exists i :: 0 <= i < |c.portForwards| && ToForwarded(c.portForwards[i], p)
  }

  /** The whole source translation: on the WAN port the first source rule, else the first 1:1 entry, else the
      masquerade; anywhere the masquerades of the tunnel and of reflected connections. */
  ghost predicate LeavesAs(c: Config, p: Packet, v: Option<Verdict>) {
    if !c.gatewayEnabled then v == None
    else if p.oif == c.wan && !Unpinned(c, p) then exists k: nat :: PinnedBy(c, p, k) && v == Some(SnatTo(c.snatRules[k].to))
    else if p.oif == c.wan && !UnmappedOut(c, p) then exists k: nat :: MappedOutBy(c, p, k) && v == Some(SnatTo(c.nat11[k].extIp))
    else if p.oif == c.wan && c.natEnabled then v == Some(Masquerade)
    else if SourceTranslated(c) && (TunnelToLan(c, p) || ToPublished(c, p)) then v == Some(Masquerade)
    else v == None
  }

  lemma PinsDecide(c: Config, p: Packet, k: nat)
    requires PinnedBy(c, p, k) || (k == |c.snatRules| && Unpinned(c, p))
    ensures Decide(FlatMap(c.snatRules, EmitSnat(c)), [], p) ==
            if p.oif == c.wan && k < |c.snatRules| then Some(SnatTo(c.snatRules[k].to)) else None
  {
    forall i | 0 <= i < |c.snatRules| { SnatHits(c, c.snatRules[i], p); }
    DecideByElement(c.snatRules, EmitSnat(c), [], p, if p.oif == c.wan then k else |c.snatRules|);
  }

  lemma HostsOutDecide(c: Config, p: Packet, k: nat)
    requires MappedOutBy(c, p, k) || (k == |c.nat11| && UnmappedOut(c, p))
    ensures Decide(FlatMap(c.nat11, EmitSnatHost(c)), [], p) ==
            if p.oif == c.wan && k < |c.nat11| then Some(SnatTo(c.nat11[k].extIp)) else None
  {
    forall i | 0 <= i < |c.nat11| { SnatHostHits(c, c.nat11[i], p); }
    DecideByElement(c.nat11, EmitSnatHost(c), [], p, if p.oif == c.wan then k else |c.nat11|);
  }

  lemma MasqueradeDecides(c: Config, p: Packet)
    ensures Decide(WanMasquerade(c), [], p) == if p.oif == c.wan && c.natEnabled then Some(Masquerade) else None
  {
    Holds1(OifName(c.wan), [], p);
  }

  lemma LanRewritesDecide(c: Config, p: Packet)
    ensures Decide(LanRewrites(c), [], p) == if TunnelToLan(c, p) || ToPublished(c, p) then Some(Masquerade) else None
  {
    LanRewritesMasquerade(c, p);
    LanRewritesHit(c, p);
  }

  lemma PostroutingSplits(c: Config, p: Packet)
    requires PostroutingEmitted(c)
    ensures
      var a, b := Decide(FlatMap(c.snatRules, EmitSnat(c)), [], p), Decide(FlatMap(c.nat11, EmitSnatHost(c)), [], p);
      var d, e := Decide(WanMasquerade(c), [], p), Decide(LanRewrites(c), [], p);
      Outbound(c, p) == if a.Some? then a else if b.Some? then b else if d.Some? then d else e
  {
    var s, n := FlatMap(c.snatRules, EmitSnat(c)), FlatMap(c.nat11, EmitSnatHost(c));
    DecideSequence(WanRewrites(c), LanRewrites(c), [], p);
    DecideSequence(s + n, WanMasquerade(c), [], p);
    DecideSequence(s, n, [], p);
  }

  lemma FirstPin(c: Config, p: Packet) returns (k: nat)
    ensures PinnedBy(c, p, k) || (k == |c.snatRules| && Unpinned(c, p))
  {
    var test := (s: SnatRule) => InElement(s.source, p.src);
    k := FirstIndex(c.snatRules, test);
    assert forall j :: 0 <= j < k ==> !test(c.snatRules[j]);
  }

  lemma FirstHostOut(c: Config, p: Packet) returns (k: nat)
    ensures MappedOutBy(c, p, k) || (k == |c.nat11| && UnmappedOut(c, p))
  {
    var test := (n: OneToOne) => n.intIp == p.src;
    k := FirstIndex(c.nat11, test);
    assert forall j :: 0 <= j < k ==> !test(c.nat11[j]);
  }

  /** Every packet leaves as the configuration says. */
  lemma PostroutingMeansPolicy(c: Config, p: Packet)
    ensures LeavesAs(c, p, Outbound(c, p))
  {
    if PostroutingEmitted(c) {
      PostroutingSplits(c, p);
      var k := FirstPin(c, p);
      PinsDecide(c, p, k);
      var n := FirstHostOut(c, p);
      HostsOutDecide(c, p, n);
      MasqueradeDecides(c, p);
      LanRewritesDecide(c, p);
    }
  }

  // ---- arriving -----------------------------------------------------------------------------------

  /** Forward k is the first that takes the packet at the WAN port. */
  ghost predicate ForwardedBy(c: Config, p: Packet, k: nat) {
    k < |c.portForwards| && AtWan(c, c.portForwards[k], p) && forall j :: 0 <= j < k ==> !AtWan(c, c.portForwards[j], p)
  }

  /** 1:1 entry k is the first for the packet's destination. */
  ghost predicate MappedInBy(c: Config, p: Packet, k: nat) {
    k < |c.nat11| && c.nat11[k].extIp == p.dst && forall j :: 0 <= j < k ==> c.nat11[j].extIp != p.dst
  }

  ghost predicate UnmappedIn(c: Config, p: Packet) {
    forall i :: 0 <= i < |c.nat11| ==> c.nat11[i].extIp != p.dst
  }

  /** Forward k is the first for the packet's service at one of the appliance's own addresses. */
  ghost predicate ReflectedBy(c: Config, p: Packet, k: nat) {
    k < |c.portForwards| && AtLocal(c, c.portForwards[k], p) && forall j :: 0 <= j < k ==> !AtLocal(c, c.portForwards[j], p)
  }

  ghost predicate Unreflected(c: Config, p: Packet) {
    forall i :: 0 <= i < |c.portForwards| ==> !AtLocal(c, c.portForwards[i], p)
  }

  function SentTo(p: Packet, f: PortForward): Packet { p.(dst := f.destIp, dport := f.destPort, dnat := true) }

  /** The whole destination translation: at the WAN port the first forward, else the first 1:1 entry; else, for
      an internal client with reflection on, the first forward of its service. */
  ghost predicate ArrivesAs(c: Config, p: Packet, q: Packet) {
    if !c.gatewayEnabled then q == p
    else if !Unforwarded(c, p) then exists k: nat :: ForwardedBy(c, p, k) && q == SentTo(p, c.portForwards[k])
    else if p.iif == c.wan && !UnmappedIn(c, p) then
      exists k: nat :: MappedInBy(c, p, k) && q == p.(dst := c.nat11[k].intIp, dnat := true)
    else if c.hairpinNat && Internal(c, p.src) && !Unreflected(c, p) then
      exists k: nat :: ReflectedBy(c, p, k) && q == SentTo(p, c.portForwards[k])
    else q == p
  }

  lemma FirstForwarded(c: Config, p: Packet) returns (k: nat)
    ensures FirstForward(c.portForwards, AtWanTest(c, p), k)
    ensures ForwardedBy(c, p, k) || (k == |c.portForwards| && Unforwarded(c, p))
  {
    k := FirstIndex(c.portForwards, AtWanTest(c, p));
    assert forall j :: 0 <= j < k ==> !AtWanTest(c, p)(c.portForwards[j]);
  }

  lemma FirstReflected(c: Config, p: Packet) returns (k: nat)
    ensures FirstForward(c.portForwards, AtLocalTest(c, p), k)
    ensures ReflectedBy(c, p, k) || (k == |c.portForwards| && Unreflected(c, p))
  {
    k := FirstIndex(c.portForwards, AtLocalTest(c, p));
    assert forall j :: 0 <= j < k ==> !AtLocalTest(c, p)(c.portForwards[j]);
  }

  lemma FirstHostIn(c: Config, p: Packet) returns (k: nat)
    ensures MappedInBy(c, p, k) || (k == |c.nat11| && UnmappedIn(c, p))
  {
    var test := (n: OneToOne) => n.extIp == p.dst;
    k := FirstIndex(c.nat11, test);
    assert forall j :: 0 <= j < k ==> !test(c.nat11[j]);
  }

  lemma HostsInDecide(c: Config, p: Packet, k: nat)
    requires MappedInBy(c, p, k) || (k == |c.nat11| && UnmappedIn(c, p))
    ensures Decide(FlatMap(c.nat11, EmitDnatHost(c)), [], p) ==
            if p.iif == c.wan && k < |c.nat11| then Some(DnatTo(c.nat11[k].intIp, None)) else None
  {
    forall i | 0 <= i < |c.nat11| { DnatHostHits(c, c.nat11[i], p); }
    DecideByElement(c.nat11, EmitDnatHost(c), [], p, if p.iif == c.wan then k else |c.nat11|);
  }

  lemma ReflectionsMean(c: Config, p: Packet, k: nat)
    requires FirstForward(c.portForwards, AtLocalTest(c, p), k)
    ensures Decide(FlatMap(c.portForwards, EmitReflect(c)), [], p) ==
            if Internal(c, p.src) && k < |c.portForwards|
            then Some(DnatTo(c.portForwards[k].destIp, Some(c.portForwards[k].destPort))) else None
  {
    if Internal(c, p.src) {
      ReflectionsDecide(c, p, k);
    } else {
      forall i | 0 <= i < |c.portForwards| { ReflectHits(c, c.portForwards[i], p); }
      DecideByElement(c.portForwards, EmitReflect(c), [], p, |c.portForwards|);
    }
  }

  /** The packet after prerouting, from the first forward, 1:1 entry and reflection for it. */
  lemma InboundIsFirst(c: Config, p: Packet, k: nat, n: nat, m: nat)
    requires c.gatewayEnabled
    requires FirstForward(c.portForwards, AtWanTest(c, p), k) && FirstForward(c.portForwards, AtLocalTest(c, p), m)
    requires MappedInBy(c, p, n) || (n == |c.nat11| && UnmappedIn(c, p))
    ensures Inbound(c, p) ==
            if k < |c.portForwards| then SentTo(p, c.portForwards[k])
            else if p.iif == c.wan && n < |c.nat11| then p.(dst := c.nat11[n].intIp, dnat := true)
            else if c.hairpinNat && Internal(c, p.src) && m < |c.portForwards| then SentTo(p, c.portForwards[m])
            else p
  {
    PreroutingSplits(c, p);
    ForwardsDecide(c, p, k);
    HostsInDecide(c, p, n);
    ReflectionsMean(c, p, m);
  }

  /** Every packet is sent on as the configuration says. */
  lemma PreroutingMeansPolicy(c: Config, p: Packet)
    ensures ArrivesAs(c, p, Inbound(c, p))
  {
    if c.gatewayEnabled {
      var k := FirstForwarded(c, p);
      var n := FirstHostIn(c, p);
      var m := FirstReflected(c, p);
      InboundIsFirst(c, p, k, n, m);
    }
  }
}
