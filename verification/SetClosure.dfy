/** The filter table loads only if every set it names is declared: when that holds, exactly. */
module SetClosure {
  import opened Ipv4
  import opened Sequences
  import opened Nft
  import opened GatewayConfig
  import opened FilterSets
  import opened ForwardChain
  import opened InputChain

  predicate Mentions(m: Match, name: string) {
    match m
    case Saddr(r) => r == Named(name)
    case Daddr(r) => r == Named(name)
    case OverRate(s) => s == name
    case _ => false
  }

  ghost predicate RuleMentions(r: Rule, name: string) {
    exists i :: 0 <= i < |r.matches| && Mentions(r.matches[i], name)
  }

  ghost predicate Referenced(rs: seq<Rule>, name: string) {
    exists r :: r in rs && RuleMentions(r, name)
  }

  lemma ReferencedConcat(a: seq<Rule>, b: seq<Rule>, name: string)
    ensures Referenced(a + b, name) <==> Referenced(a, name) || Referenced(b, name)
  {
  }

  lemma ReferencedFlatMap<T>(xs: seq<T>, f: T -> seq<Rule>, name: string)
    ensures Referenced(FlatMap(xs, f), name) <==> exists i :: 0 <= i < |xs| && Referenced(f(xs[i]), name)
  {
    if r :| r in FlatMap(xs, f) && RuleMentions(r, name) {
      FlatMapMembers(xs, f, r);
      var i :| 0 <= i < |xs| && r in f(xs[i]);
      assert Referenced(f(xs[i]), name);
    }
    if i :| 0 <= i < |xs| && Referenced(f(xs[i]), name) {
      var r :| r in f(xs[i]) && RuleMentions(r, name);
      FlatMapMembers(xs, f, r);
    }
  }

  /** Blocks built without any named set. */
  ghost predicate Silent(rs: seq<Rule>) {
    forall r, i :: r in rs && 0 <= i < |r.matches| ==> forall name :: !Mentions(r.matches[i], name)
  }

  lemma SilentFlatMap<T>(xs: seq<T>, f: T -> seq<Rule>)
    requires forall i :: 0 <= i < |xs| ==> Silent(f(xs[i]))
    ensures Silent(FlatMap(xs, f))
  {
    forall r | r in FlatMap(xs, f) ensures forall i, name :: 0 <= i < |r.matches| ==> !Mentions(r.matches[i], name) {
      FlatMapMembers(xs, f, r);
    }
  }

  lemma {:induction false} DefaultGrantsAreSilent(c: Config)
    ensures Silent(ZoneBlock(c)) && Silent(TunnelBlock(c)) && Silent(PublishBlock(c))
  {
    forall i | 0 <= i < |c.zones| {
      SilentFlatMap(c.zones, EmitZonePair(c.zones[i]));
    }
    SilentFlatMap(c.zones, EmitZoneToWan(c));
    SilentFlatMap(c.zones, EmitZonePairs(c));
    SilentFlatMap(c.tunnels, EmitTunnel());
    SilentFlatMap(c.portForwards, EmitForward(c));
    SilentFlatMap(c.nat11, EmitOneToOne(c));
    SilentFlatMap(c.portForwards, EmitHairpin());
  }

  lemma SilentConcat(a: seq<Rule>, b: seq<Rule>)
    requires Silent(a) && Silent(b)
    ensures Silent(a + b)
  {
  }

  lemma RowIsSilent(c: Config, row: AclRow)
    ensures Silent(EmitAcl(c)(row))
  {
    SilentFlatMap(c.vpnPorts, EmitVpnOnIface(row));
    SilentConcat(AclMgmt(row), AclDns(row));
    SilentConcat(AclMgmt(row) + AclDns(row), AclPing(row));
    SilentConcat(AclMgmt(row) + AclDns(row) + AclPing(row), AclDhcp(row));
    SilentConcat(AclMgmt(row) + AclDns(row) + AclPing(row) + AclDhcp(row), AclVpn(c.vpnPorts, row));
  }

  lemma MatrixIsSilent(c: Config)
    ensures Silent(MatrixBlock(c))
  {
    forall i | 0 <= i < |AclRows(c)| ensures Silent(EmitAcl(c)(AclRows(c)[i])) {
      RowIsSilent(c, AclRows(c)[i]);
    }
    SilentFlatMap(AclRows(c), EmitAcl(c));
  }

  // ---- which names each remaining block uses ------------------------------------------------------

  predicate RuleUses(r: CustomRule, name: string) {
    r.enabled && ((r.srcAlias != "" && name == AliasSetName(r.srcAlias)) || (r.dstAlias != "" && name == AliasSetName(r.dstAlias)))
  }

  ghost predicate CustomUses(c: Config, name: string) {
    exists i :: 0 <= i < |c.rules| && RuleUses(c.rules[i], name)
  }

  ghost predicate GrantUses(c: Config, name: string) {
    OvpnActive(c) &&
    exists i, j :: 0 <= i < |c.ovpnAccess| && 0 <= j < |c.ovpnAccess[i].rules| &&
                   c.ovpnAccess[i].addr.Some? && !c.ovpnAccess[i].allowAll &&
                   c.ovpnAccess[i].rules[j].destAlias != "" && name == AliasSetName(c.ovpnAccess[i].rules[j].destAlias)
  }

  ghost predicate MatchesMention(ms: seq<Match>, name: string) {
    exists i :: 0 <= i < |ms| && Mentions(ms[i], name)
  }

  lemma MentionConcat(a: seq<Match>, b: seq<Match>, name: string)
    ensures MatchesMention(a + b, name) <==> MatchesMention(a, name) || MatchesMention(b, name)
  {
    var ms := a + b;
    if i :| 0 <= i < |a| && Mentions(a[i], name) { assert ms[i] == a[i]; }
    if i :| 0 <= i < |b| && Mentions(b[i], name) { assert ms[|a| + i] == b[i]; }
  }

  lemma ReferencedOne(r: Rule, name: string)
    ensures Referenced([r], name) <==> MatchesMention(r.matches, name)
  {
    assert r in [r];
  }

  lemma CompiledRuleUses(zs: seq<Zone>, r: CustomRule, name: string)
    ensures MatchesMention(CompileRule(zs, r).matches, name) <==>
            (r.srcAlias != "" && name == AliasSetName(r.srcAlias)) || (r.dstAlias != "" && name == AliasSetName(r.dstAlias))
  {
    MentionSix(FromZoneMatch(zs, r), ToZoneMatch(zs, r), SrcAliasMatch(r), DstAliasMatch(r),
               PortMatch(r), ScheduleMatch(r.schedule), name);
    AliasMatchesMention(r, name);
    OtherMatchesAreSilent(zs, r, name);
  }

  lemma OtherMatchesAreSilent(zs: seq<Zone>, r: CustomRule, name: string)
    ensures !MatchesMention(FromZoneMatch(zs, r), name) && !MatchesMention(ToZoneMatch(zs, r), name)
    ensures !MatchesMention(PortMatch(r), name) && !MatchesMention(ScheduleMatch(r.schedule), name)
  {
  }

  lemma AliasMatchesMention(r: CustomRule, name: string)
    ensures MatchesMention(SrcAliasMatch(r), name) <==> r.srcAlias != "" && name == AliasSetName(r.srcAlias)
    ensures MatchesMention(DstAliasMatch(r), name) <==> r.dstAlias != "" && name == AliasSetName(r.dstAlias)
  {
    var s, d := SrcAliasMatch(r), DstAliasMatch(r);
    if s != [] { assert Mentions(s[0], name) <==> name == AliasSetName(r.srcAlias); }
    if d != [] { assert Mentions(d[0], name) <==> name == AliasSetName(r.dstAlias); }
  }

  lemma MentionSix(a: seq<Match>, b: seq<Match>, d: seq<Match>, e: seq<Match>, f: seq<Match>, g: seq<Match>, name: string)
    ensures MatchesMention(a + b + d + e + f + g, name) <==>
      || MatchesMention(a, name) || MatchesMention(b, name) || MatchesMention(d, name)
      || MatchesMention(e, name) || MatchesMention(f, name) || MatchesMention(g, name)
  {
    MentionConcat(a + b + d + e + f, g, name);
    MentionConcat(a + b + d + e, f, name);
    MentionConcat(a + b + d, e, name);
    MentionConcat(a + b, d, name);
    MentionConcat(a, b, name);
  }

  lemma CustomBlockUses(c: Config, name: string)
    ensures Referenced(CustomBlock(c), name) <==> CustomUses(c, name)
  {
    var f := EmitCustom(c.zones);
    ReferencedFlatMap(c.rules, f, name);
    forall i | 0 <= i < |c.rules| ensures Referenced(f(c.rules[i]), name) <==> RuleUses(c.rules[i], name) {
      if c.rules[i].enabled {
        ReferencedOne(CompileRule(c.zones, c.rules[i]), name);
        CompiledRuleUses(c.zones, c.rules[i], name);
      }
    }
  }

  lemma OvpnRuleUses(iface: string, addr: Addr, r: OvpnRule, name: string)
    ensures Referenced(EmitOvpnRule(iface, addr)(r), name) <==> r.destAlias != "" && name == AliasSetName(r.destAlias)
  {
    var head: seq<Match> := [IifName(iface), Saddr(OneHost(addr)), Daddr(OvpnDest(r))];
    ReferencedOne(EmitOvpnRule(iface, addr)(r)[0], name);
    MentionConcat(head + OvpnPortMatch(r), [NEW_ONLY], name);
    MentionConcat(head, OvpnPortMatch(r), name);
    assert Mentions(head[2], name) <==> OvpnDest(r) == Named(name);
  }

  ghost predicate ClientUses(a: OvpnAccess, name: string) {
    a.addr.Some? && !a.allowAll &&
    exists j :: 0 <= j < |a.rules| && a.rules[j].destAlias != "" && name == AliasSetName(a.rules[j].destAlias)
  }

  lemma OvpnClientUses(iface: string, a: OvpnAccess, name: string)
    ensures Referenced(EmitOvpnClient(iface)(a), name) <==> ClientUses(a, name)
  {
    if a.addr.Some? && !a.allowAll {
      var f := EmitOvpnRule(iface, a.addr.value);
      ReferencedFlatMap(a.rules, f, name);
      forall j | 0 <= j < |a.rules|
        ensures Referenced(f(a.rules[j]), name) <==> a.rules[j].destAlias != "" && name == AliasSetName(a.rules[j].destAlias)
      {
        OvpnRuleUses(iface, a.addr.value, a.rules[j], name);
      }
    } else if a.addr.Some? {
      assert !Referenced(EmitOvpnClient(iface)(a), name);
    }
  }

  lemma OvpnBlockUses(c: Config, name: string)
    ensures Referenced(OvpnBlock(c), name) <==> GrantUses(c, name)
  {
    if OvpnActive(c) {
      ReferencedFlatMap(c.ovpnAccess, EmitOvpnClient(c.ovpnIface), name);
      forall i | 0 <= i < |c.ovpnAccess|
        ensures Referenced(EmitOvpnClient(c.ovpnIface)(c.ovpnAccess[i]), name) <==> ClientUses(c.ovpnAccess[i], name)
      {
        OvpnClientUses(c.ovpnIface, c.ovpnAccess[i], name);
      }
    }
  }

  lemma GrantsUse(c: Config, name: string)
    ensures Referenced(Grants(c) + TailBlock(c), name) <==> GrantUses(c, name)
  {
    var silent := ZoneBlock(c) + TunnelBlock(c) + PublishBlock(c);
    DefaultGrantsAreSilent(c);
    SilentConcat(ZoneBlock(c), TunnelBlock(c));
    SilentConcat(ZoneBlock(c) + TunnelBlock(c), PublishBlock(c));
    SilentIsUnreferenced(silent, name);
    SilentIsUnreferenced(TailBlock(c), name);
    ReferencedConcat(Grants(c), TailBlock(c), name);
    ReferencedConcat(silent, OvpnBlock(c), name);
    OvpnBlockUses(c, name);
  }

  lemma ForwardUses(c: Config, name: string)
    ensures Referenced(ForwardRules(c), name) <==>
            (c.geo != [] && name == "geo4") || CustomUses(c, name) || GrantUses(c, name)
  {
    ReferencedConcat(Prelude(c) + CustomBlock(c), Grants(c) + TailBlock(c), name);
    ReferencedConcat(Prelude(c), CustomBlock(c), name);
    PreludeUses(c, name);
    CustomBlockUses(c, name);
    GrantsUse(c, name);
  }

  lemma PreludeUses(c: Config, name: string)
    ensures Referenced(GeoBlock(c), name) <==> c.geo != [] && name == "geo4"
    ensures Referenced(Prelude(c), name) <==> c.geo != [] && name == "geo4"
  {
    ReferencedConcat(ConntrackBlock(c) + GeoBlock(c), InspectBlock(c), name);
    ReferencedConcat(ConntrackBlock(c), GeoBlock(c), name);
    assert Silent(ConntrackBlock(c)) && Silent(InspectBlock(c));
    var r := Rule([Saddr(Named("geo4"))], Drop);
    ReferencedOne(r, name);
    assert Mentions(r.matches[0], name) <==> name == "geo4";
  }

  lemma InternalDnsUses(name: string)
    ensures Referenced(InternalDns(), name) <==> name == "internal4"
  {
    var u := AcceptWhen([Saddr(Named("internal4")), UdpPort(53)]);
    var t := AcceptWhen([Saddr(Named("internal4")), TcpPorts([53])]);
    assert InternalDns() == [u] + [t];
    ReferencedConcat([u], [t], name);
    ReferencedOne(u, name);
    ReferencedOne(t, name);
    assert Mentions(u.matches[0], name) <==> name == "internal4";
    assert Mentions(t.matches[0], name) <==> name == "internal4";
  }

  lemma LegacyUses(c: Config, name: string)
    ensures Referenced(LegacyBlock(c), name) <==> name == "internal4"
  {
    var vpn := FlatMap(c.vpnPorts, EmitVpnPort());
    SilentFlatMap(c.vpnPorts, EmitVpnPort());
    SilentConcat(vpn, LegacyDhcp(c));
    SilentConcat(MgmtOn(c.mgmtOnLan, c.lan), MgmtOn(c.mgmtOnWan, c.wan));
    var before, after := MgmtOn(c.mgmtOnLan, c.lan) + MgmtOn(c.mgmtOnWan, c.wan), vpn + LegacyDhcp(c);
    assert LegacyBlock(c) == before + InternalDns() + after;
    ReferencedConcat(before + InternalDns(), after, name);
    ReferencedConcat(before, InternalDns(), name);
    SilentIsUnreferenced(before, name);
    SilentIsUnreferenced(after, name);
    InternalDnsUses(name);
  }

  lemma SilentIsUnreferenced(rs: seq<Rule>, name: string)
    requires Silent(rs)
    ensures !Referenced(rs, name)
  {
  }

  lemma ServiceUses(c: Config, name: string)
    ensures Referenced(ServiceBlock(c) + [Rule([], Drop)], name) <==>
            (c.adminNetwork.Some? && name == "mgmt4") || (AclRows(c) == [] && name == "internal4")
  {
    var services := if AclRows(c) != [] then MatrixBlock(c) else LegacyBlock(c);
    ReferencedConcat(ServiceBlock(c), [Rule([], Drop)], name);
    ReferencedConcat(AdminBlock(c), services, name);
    SilentIsUnreferenced([Rule([], Drop)], name);
    GuardUses(c, name);
    MatrixIsSilent(c);
    LegacyUses(c, name);
  }

  lemma InputUses(c: Config, name: string)
    ensures Referenced(InputRules(c), name) <==>
      || (c.geo != [] && name == "geo4") || (c.bruteForceProtect && name == "mgmt_brute4")
      || (c.adminNetwork.Some? && name == "mgmt4") || (AclRows(c) == [] && name == "internal4")
  {
    ReferencedConcat((InputConntrack() + GeoBlock(c)) + (IcmpBlock(c) + BruteBlock(c)), ServiceBlock(c) + [Rule([], Drop)], name);
    ReferencedConcat(InputConntrack() + GeoBlock(c), IcmpBlock(c) + BruteBlock(c), name);
    FrontUses(c, name);
    ServiceUses(c, name);
  }

  lemma FrontUses(c: Config, name: string)
    ensures Referenced(InputConntrack() + GeoBlock(c), name) <==> c.geo != [] && name == "geo4"
    ensures Referenced(IcmpBlock(c) + BruteBlock(c), name) <==> c.bruteForceProtect && name == "mgmt_brute4"
  {
    ReferencedConcat(InputConntrack(), GeoBlock(c), name);
    ReferencedConcat(IcmpBlock(c), BruteBlock(c), name);
    SilentIsUnreferenced(InputConntrack(), name);
    SilentIsUnreferenced(IcmpBlock(c), name);
    PreludeUses(c, name);
    GuardUses(c, name);
  }

  lemma GuardUses(c: Config, name: string)
    ensures Referenced(BruteBlock(c), name) <==> c.bruteForceProtect && name == "mgmt_brute4"
    ensures Referenced(AdminBlock(c), name) <==> c.adminNetwork.Some? && name == "mgmt4"
  {
    var b := Rule([TcpPorts(MGMT_PORTS), NEW_ONLY, OverRate("mgmt_brute4")], Drop);
    var a := AcceptWhen([Saddr(Named("mgmt4")), TcpPorts(MGMT_PORTS)]);
    ReferencedOne(a, name);
    ReferencedOne(b, name);
    assert Mentions(a.matches[0], name) <==> name == "mgmt4";
    assert Mentions(b.matches[2], name) <==> name == "mgmt_brute4";
  }

  // ---- the declarations ---------------------------------------------------------------------------

  ghost predicate ShouldDeclare(c: Config, name: string) {
    || (c.adminNetwork.Some? && name == "mgmt4") || (c.serviceAcls == [] && name == "internal4")
    || (c.bruteForceProtect && name == "mgmt_brute4") || (c.geo != [] && name == "geo4")
    || (exists i :: 0 <= i < |c.aliases| && name == AliasSetName(c.aliases[i].name))
  }

  lemma MemberIsDeclared(sets: seq<SetDecl>, d: SetDecl)
    requires d in sets
    ensures Declared(sets, d.name)
  {
  }

  lemma ShouldDeclareIsDeclared(c: Config, name: string)
    requires ShouldDeclare(c, name)
    ensures Declared(Sets(c), name)
  {
    var d;
    if c.adminNetwork.Some? && name == "mgmt4" {
      d := SetDecl("mgmt4", [Net(c.adminNetwork.value)]);
    } else if c.serviceAcls == [] && name == "internal4" {
      d := SetDecl("internal4", Blocks(InternalNetworks(c.zones, c.clientNetwork)));
    } else if c.bruteForceProtect && name == "mgmt_brute4" {
      d := SetDecl("mgmt_brute4", []);
    } else if c.geo != [] && name == "geo4" {
      d := SetDecl("geo4", Blocks(c.geo));
    } else {
      var i :| 0 <= i < |c.aliases| && name == AliasSetName(c.aliases[i].name);
      d := SetDecl(name, c.aliases[i].values);
    }
    SetsMembers(c, d);
    MemberIsDeclared(Sets(c), d);
  }

  lemma DeclaredNames(c: Config, name: string)
    ensures Declared(Sets(c), name) <==> ShouldDeclare(c, name)
  {
    if i :| 0 <= i < |Sets(c)| && Sets(c)[i].name == name {
      SetsMembers(c, Sets(c)[i]);
    }
    if ShouldDeclare(c, name) {
      ShouldDeclareIsDeclared(c, name);
    }
  }

  ghost predicate OneEach(sets: seq<SetDecl>) {
    forall i, j :: 0 <= i < j < |sets| ==> sets[i].name != sets[j].name
  }

  lemma {:induction false} AliasSetsAreDistinct(as_: seq<Alias>)
    requires forall i, j :: 0 <= i < j < |as_| ==> as_[i].name != as_[j].name
    ensures |FlatMap(as_, DeclareAlias())| == |as_|
    ensures forall i :: 0 <= i < |as_| ==> FlatMap(as_, DeclareAlias())[i].name == AliasSetName(as_[i].name)
    ensures OneEach(FlatMap(as_, DeclareAlias()))
  {
    if as_ != [] {
      AliasSetsAreDistinct(as_[1..]);
      forall i | 0 < i < |as_| {
        AliasSetNamesAreApart(as_[0].name, as_[i].name);
      }
    }
  }

  lemma {:induction false} FixedSetsAreDistinct(c: Config)
    ensures OneEach(MgmtSet(c) + InternalSet(c) + BruteSet(c) + GeoSet(c))
    ensures forall d :: d in MgmtSet(c) + InternalSet(c) + BruteSet(c) + GeoSet(c) ==>
              d.name in {"mgmt4", "internal4", "mgmt_brute4", "geo4"}
  {
    FixedSetNamesAreApart();
  }

  lemma OneEachConcat(a: seq<SetDecl>, b: seq<SetDecl>)
    requires OneEach(a) && OneEach(b)
    requires forall i, j :: 0 <= i < |a| && 0 <= j < |b| ==> a[i].name != b[j].name
    ensures OneEach(a + b)
  {
  }

  /** No set is declared twice. */
  lemma {:induction false} SetsAreDeclaredOnce(c: Config)
    requires AliasesOk(c.aliases)
    ensures OneEach(Sets(c))
  {
    var fixed, aliases := MgmtSet(c) + InternalSet(c) + BruteSet(c) + GeoSet(c), FlatMap(c.aliases, DeclareAlias());
    FixedSetsAreDistinct(c);
    AliasSetsAreDistinct(c.aliases);
    forall i, j | 0 <= i < |fixed| && 0 <= j < |aliases| ensures fixed[i].name != aliases[j].name {
      assert fixed[i] in fixed;
      AliasSetNamesAreApart(c.aliases[j].name, "");
    }
    OneEachConcat(fixed, aliases);
  }

  // ---- closure ---------------------------------------------------------------------------------------

  ghost predicate Closed(c: Config) {
    forall name :: Referenced(InputRules(c), name) || Referenced(ForwardRules(c), name) ==> Declared(Sets(c), name)
  }

  /** Every alias an emitted VPN grant names still exists. */
  ghost predicate GrantAliasesExist(c: Config) {
    OvpnActive(c) ==>
      forall i, j :: 0 <= i < |c.ovpnAccess| && c.ovpnAccess[i].addr.Some? && !c.ovpnAccess[i].allowAll &&
                     0 <= j < |c.ovpnAccess[i].rules| && c.ovpnAccess[i].rules[j].destAlias != ""
                     ==> c.ovpnAccess[i].rules[j].destAlias in AliasNames(c.aliases)
  }

  lemma AliasDeclared(c: Config, alias: string)
    ensures Declared(Sets(c), AliasSetName(alias)) <==> alias in AliasNames(c.aliases)
  {
    DeclaredNames(c, AliasSetName(alias));
    AliasSetNamesAreApart(alias, alias);
    forall i | 0 <= i < |c.aliases| {
      AliasSetNamesAreApart(c.aliases[i].name, alias);
    }
  }

  lemma GrantsAreDeclared(c: Config)
    ensures GrantAliasesExist(c) <==> forall name :: GrantUses(c, name) ==> Declared(Sets(c), name)
  {
    if GrantAliasesExist(c) {
      forall name | GrantUses(c, name) ensures Declared(Sets(c), name) {
        var i, j :| 0 <= i < |c.ovpnAccess| && 0 <= j < |c.ovpnAccess[i].rules| &&
                    c.ovpnAccess[i].addr.Some? && !c.ovpnAccess[i].allowAll &&
                    c.ovpnAccess[i].rules[j].destAlias != "" && name == AliasSetName(c.ovpnAccess[i].rules[j].destAlias);
        AliasDeclared(c, c.ovpnAccess[i].rules[j].destAlias);
      }
    } else {
      var i, j :| 0 <= i < |c.ovpnAccess| && c.ovpnAccess[i].addr.Some? && !c.ovpnAccess[i].allowAll &&
                  0 <= j < |c.ovpnAccess[i].rules| && c.ovpnAccess[i].rules[j].destAlias != "" &&
                  c.ovpnAccess[i].rules[j].destAlias !in AliasNames(c.aliases);
      AliasDeclared(c, c.ovpnAccess[i].rules[j].destAlias);
      assert GrantUses(c, AliasSetName(c.ovpnAccess[i].rules[j].destAlias));
    }
  }

  lemma CustomAliasesAreDeclared(c: Config, name: string)
    requires ObjectsOk(c) && CustomUses(c, name)
    ensures Declared(Sets(c), name)
  {
    var i :| 0 <= i < |c.rules| && RuleUses(c.rules[i], name);
    assert RuleOk(c.rules[i], AliasNames(c.aliases), ZoneNames(c.zones));
    AliasDeclared(c, c.rules[i].srcAlias);
    AliasDeclared(c, c.rules[i].dstAlias);
  }

  /** The table names no undeclared set exactly when the device-access matrix is empty or some row
      of it resolves, and every alias a VPN grant names exists. With a matrix of stale rows only,
      the fallback rules name the internal set, which is not declared then. */
  lemma ClosureIsExact(c: Config)
    requires ObjectsOk(c)
    ensures Closed(c) <==> (c.serviceAcls == [] || AclRows(c) != []) && GrantAliasesExist(c)
  {
    GrantsAreDeclared(c);
    DeclaredNames(c, "internal4");
    FixedSetNamesAreApart();
    forall i | 0 <= i < |c.aliases| {
      AliasSetNamesAreApart(c.aliases[i].name, "");
    }
    assert Declared(Sets(c), "internal4") <==> c.serviceAcls == [];
    InputUses(c, "internal4");
    if Closed(c) {
      forall name | GrantUses(c, name) ensures Declared(Sets(c), name) {
        ForwardUses(c, name);
      }
    } else {
      var name :| (Referenced(InputRules(c), name) || Referenced(ForwardRules(c), name)) && !Declared(Sets(c), name);
      InputUses(c, name);
      ForwardUses(c, name);
      DeclaredNames(c, name);
      if CustomUses(c, name) {
        CustomAliasesAreDeclared(c, name);
      }
    }
  }
}
