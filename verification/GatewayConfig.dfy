/** The declarative gateway configuration and what the generator refuses. Address
    fields are already parsed; an absent optional address is None, an absent
    interface or name is the empty string. */
module GatewayConfig {
  import opened Ipv4
  import opened Sequences
  import opened Nft
  import opened Text

  datatype ZoneKind = Wan | Guest | Dmz | Lan | UnknownKind

  datatype Zone = Zone(name: string, kind: ZoneKind, parent: string, vlan: int,
                       network: Option<Cidr>, address: Option<Cidr>)
  {
    /** The forwarding interface: the NIC itself, or its 802.1Q sub-interface. */
    function IfaceName(): string {
      if vlan > 0 then parent + "." + Decimal(vlan) else parent
    }
  }

  datatype AliasKind = HostAlias | NetworkAlias | RangeAlias | UnknownAlias
  datatype Alias = Alias(name: string, kind: AliasKind, values: seq<Element>)

  datatype Action = AcceptIt | DropIt | RejectIt | UnknownAction
  datatype Service = AnyProto | TcpOnly | UdpOnly | UnknownProto

  /** Clock bounds are minutes after midnight; None is the empty text. */
  datatype Schedule = Schedule(days: seq<int>, start: Option<int>, end: Option<int>)

  datatype CustomRule = CustomRule(
    name: string, action: Action, proto: Service, srcAlias: string, dstAlias: string, dstPort: int,
    categoryKnown: bool, fromZone: string, toZone: string, log: bool, enabled: bool,
    schedule: Option<Schedule>)

  datatype PortForward = PortForward(proto: Service, extPort: int, destIp: Addr, destPort: int, extIp: Option<Addr>)
  datatype OneToOne = OneToOne(extIp: Addr, intIp: Addr)
  datatype SnatRule = SnatRule(source: Element, to: Addr)
  datatype TunnelNet = TunnelNet(local: seq<Cidr>, remote: seq<Cidr>)
  datatype OvpnRule = OvpnRule(dest: Element, destAlias: string, proto: Service, port: int)
  datatype OvpnAccess = OvpnAccess(addr: Option<Addr>, allowAll: bool, rules: seq<OvpnRule>)
  datatype ServiceAcl = ServiceAcl(zone: string, https: bool, ssh: bool, dns: bool, ping: bool, dhcp: bool, vpn: bool)

  datatype Config = Config(
    adminNetwork: Option<Cidr>, clientNetwork: Cidr, dhcpInterface: string,
    gatewayEnabled: bool, wan: string, lan: string, mgmtOnWan: bool, mgmtOnLan: bool,
    natEnabled: bool, portForwards: seq<PortForward>, hairpinNat: bool, bruteForceProtect: bool,
    snatRules: seq<SnatRule>, nat11: seq<OneToOne>, ipsEnabled: bool,
    aliases: seq<Alias>, rules: seq<CustomRule>, serviceAcls: seq<ServiceAcl>, zones: seq<Zone>,
    tunnels: seq<TunnelNet>, geo: seq<Cidr>, vpnPorts: seq<int>,
    ovpnIface: string, ovpnSubnet: Option<Cidr>, ovpnAccess: seq<OvpnAccess>)

  function Trust(k: ZoneKind): int {
    match k
    case Wan => 0
    case Guest => 1
    case Dmz => 2
    case Lan => 3
    case UnknownKind => 0
  }

  // ---- what is a well-formed name -------------------------------------------------------------

  predicate Lower(ch: char) { 'a' <= ch <= 'z' }
  predicate Alnum(ch: char) { Lower(ch) || 'A' <= ch <= 'Z' || IsDigit(ch) }

  predicate ValidIface(s: string) {
    0 < |s| <= 15 && forall i :: 0 <= i < |s| ==> Alnum(s[i]) || s[i] in "._-"
  }

  predicate ValidAliasName(s: string) {
    0 < |s| <= 31 && Lower(s[0]) && forall i :: 0 <= i < |s| ==> Lower(s[i]) || IsDigit(s[i]) || s[i] == '_'
  }

  predicate ValidZoneName(s: string) {
    0 < |s| <= 21 && Lower(s[0]) && forall i :: 0 <= i < |s| ==> Lower(s[i]) || IsDigit(s[i]) || s[i] in "_-"
  }

  predicate ValidRuleName(s: string) {
    0 < |s| <= 40 && forall i :: 0 <= i < |s| ==> Alnum(s[i]) || s[i] in " ._-"
  }

  // ---- what is a valid object -----------------------------------------------------------------

  predicate ValidAliasValue(k: AliasKind, v: Element) {
    match k
    case HostAlias => v.Host?
    case NetworkAlias => v.Net?
    case RangeAlias => v.Range?
    case UnknownAlias => false
  }

  predicate AliasOk(a: Alias) {
    && ValidAliasName(a.name)
    && a.kind != UnknownAlias
    && a.values != []
    && forall i :: 0 <= i < |a.values| ==> ValidAliasValue(a.kind, a.values[i])
  }

  predicate ZoneOk(z: Zone) {
    && ValidZoneName(z.name)
    && z.kind != UnknownKind
    && ValidIface(z.parent)
    && 0 <= z.vlan <= 4094
    && ValidIface(z.IfaceName())
    && (z.kind != Wan ==> z.network.Some?)
    && (z.vlan > 0 ==> z.address.Some?)
  }

  predicate ScheduleOk(s: Option<Schedule>) {
    s.Some? ==>
      && (forall i :: 0 <= i < |s.value.days| ==> 0 <= s.value.days[i] <= 6)
      && (s.value.start.None? <==> s.value.end.None?)
      && (s.value.start.Some? ==> 0 <= s.value.start.value < 1440 && 0 <= s.value.end.value < 1440)
  }

  predicate RuleOk(r: CustomRule, aliasNames: set<string>, zoneNames: set<string>) {
    && ValidRuleName(r.name)
    && r.action != UnknownAction
    && r.proto != UnknownProto
    && (r.dstPort != 0 ==> (r.proto == TcpOnly || r.proto == UdpOnly) && 1 <= r.dstPort <= 65535)
    && r.categoryKnown
    && (r.srcAlias != "" ==> r.srcAlias in aliasNames)
    && (r.dstAlias != "" ==> r.dstAlias in aliasNames)
    && (r.fromZone != "" ==> r.fromZone in zoneNames)
    && (r.toZone != "" ==> r.toZone in zoneNames)
    && ScheduleOk(r.schedule)
  }

  function AliasNames(as_: seq<Alias>): set<string> {
    set i | 0 <= i < |as_| :: as_[i].name
  }

  function ZoneNames(zs: seq<Zone>): set<string> {
    set i | 0 <= i < |zs| :: zs[i].name
  }

  ghost predicate AliasesOk(as_: seq<Alias>) {
    && (forall i :: 0 <= i < |as_| ==> AliasOk(as_[i]))
    && (forall i, j :: 0 <= i < j < |as_| ==> as_[i].name != as_[j].name)
  }

  ghost predicate ZonesOk(zs: seq<Zone>) {
    && (forall i :: 0 <= i < |zs| ==> ZoneOk(zs[i]))
    && (forall i, j :: 0 <= i < j < |zs| ==> zs[i].name != zs[j].name && zs[i].IfaceName() != zs[j].IfaceName())
  }

  ghost predicate RulesOk(rs: seq<CustomRule>, aliasNames: set<string>, zoneNames: set<string>) {
    && (forall i :: 0 <= i < |rs| ==> RuleOk(rs[i], aliasNames, zoneNames))
    && (forall i, j :: 0 <= i < j < |rs| ==> rs[i].name != rs[j].name)
  }

  ghost predicate ObjectsOk(c: Config) {
    && AliasesOk(c.aliases)
    && ZonesOk(c.zones)
    && RulesOk(c.rules, AliasNames(c.aliases), ZoneNames(c.zones))
  }

  /** ASCII codes of what can end a string, a statement, a set or a line in nft: double quote, hash, dollar,
      single quote, comma, semicolon, at sign, backslash and the two braces. */
  const BREAKING: set<int> := {34, 35, 36, 39, 44, 59, 64, 92, 123, 125}

  /** Printable and not breaking. */
  ghost predicate InertChar(ch: char) {
    ' ' <= ch <= '~' && ch as int !in BREAKING
  }

  ghost predicate Inert(s: string) {
    s != "" && forall i :: 0 <= i < |s| ==> InertChar(s[i])
  }

  lemma ValidNamesAreInert(s: string)
    requires ValidIface(s) || ValidAliasName(s) || ValidZoneName(s) || ValidRuleName(s)
    ensures Inert(s)
  {
    forall i | 0 <= i < |s| ensures InertChar(s[i]) {
      assert Alnum(s[i]) || s[i] in " ._-";
    }
  }

  /** Whatever the validator accepts can be written into the ruleset as a name without changing its shape. */
  lemma AcceptedNamesAreInert(c: Config)
    requires ObjectsOk(c)
    ensures forall i :: 0 <= i < |c.zones| ==> Inert(c.zones[i].name) && Inert(c.zones[i].IfaceName())
    ensures forall i :: 0 <= i < |c.aliases| ==> Inert(c.aliases[i].name)
    ensures forall i :: 0 <= i < |c.rules| ==> Inert(c.rules[i].name)
  {
    forall i | 0 <= i < |c.zones| ensures Inert(c.zones[i].name) && Inert(c.zones[i].IfaceName()) {
      assert ZoneOk(c.zones[i]);
      ValidNamesAreInert(c.zones[i].name);
      ValidNamesAreInert(c.zones[i].IfaceName());
    }
    forall i | 0 <= i < |c.aliases| ensures Inert(c.aliases[i].name) {
      assert AliasOk(c.aliases[i]);
      ValidNamesAreInert(c.aliases[i].name);
    }
    forall i | 0 <= i < |c.rules| ensures Inert(c.rules[i].name) {
      assert RuleOk(c.rules[i], AliasNames(c.aliases), ZoneNames(c.zones));
      ValidNamesAreInert(c.rules[i].name);
    }
  }

  lemma SuffixAfterDot(a: string, s: string, b: string, t: string)
    requires (forall i :: 0 <= i < |s| ==> IsDigit(s[i])) && forall i :: 0 <= i < |t| ==> IsDigit(t[i])
    requires a + "." + s == b + "." + t
    ensures a == b && s == t
  {
    var x, y := a + "." + s, b + "." + t;
    assert x[|a|] == '.' && y[|b|] == '.';
    assert a == x[..|a|] && b == y[..|b|] && s == x[|a| + 1..] && t == y[|b| + 1..];
  }

  /** An untagged zone is on its port; tagged zones are on one sub-interface exactly when they share port
      and tag. */
  lemma SubInterfacesAreApart(z: Zone, w: Zone)
    requires z.vlan > 0
    ensures w.vlan <= 0 ==> w.IfaceName() == w.parent
    ensures w.vlan > 0 ==> (z.IfaceName() == w.IfaceName() <==> z.parent == w.parent && z.vlan == w.vlan)
    ensures z.parent + "." <= z.IfaceName()
  {
    assert z.IfaceName() == z.parent + "." + Decimal(z.vlan);
    if w.vlan > 0 && z.IfaceName() == w.IfaceName() {
      SuffixAfterDot(z.parent, Decimal(z.vlan), w.parent, Decimal(w.vlan));
      DecimalIsInjective(z.vlan, w.vlan);
    }
  }

  // ---- the validator, with its seen-sets -----------------------------------------------------------

  method ValidateAliases(as_: seq<Alias>) returns (ok: bool, names: set<string>)
    ensures ok <==> AliasesOk(as_)
    ensures ok ==> names == AliasNames(as_)
  {
    names := {};
    for i := 0 to |as_|
      invariant names == AliasNames(as_[..i])
      invariant AliasesOk(as_[..i])
    {
      var a := as_[i];
      if !ValidAliasName(a.name) || a.name in names || a.kind == UnknownAlias || a.values == [] {
        return false, names;
      }
      for j := 0 to |a.values|
        invariant forall k :: 0 <= k < j ==> ValidAliasValue(a.kind, a.values[k])
      {
        if !ValidAliasValue(a.kind, a.values[j]) {
          return false, names;
        }
      }
      names := names + {a.name};
      assert as_[..i + 1] == as_[..i] + [a];
    }
    assert as_[..|as_|] == as_;
    ok := true;
  }

  method ValidateZones(zs: seq<Zone>) returns (ok: bool, names: set<string>)
    ensures ok <==> ZonesOk(zs)
    ensures ok ==> names == ZoneNames(zs)
  {
    names := {};
    var ifaces: set<string> := {};
    for i := 0 to |zs|
      invariant names == ZoneNames(zs[..i])
      invariant ifaces == set k | 0 <= k < i :: zs[k].IfaceName()
      invariant ZonesOk(zs[..i])
    {
      var z := zs[i];
      var ifn := z.IfaceName();
      if !ZoneOk(z) || z.name in names || ifn in ifaces {
        return false, names;
      }
      names, ifaces := names + {z.name}, ifaces + {ifn};
      assert zs[..i + 1] == zs[..i] + [z];
    }
    assert zs[..|zs|] == zs;
    ok := true;
  }

  method ValidateRules(rs: seq<CustomRule>, aliasNames: set<string>, zoneNames: set<string>) returns (ok: bool)
    ensures ok <==> RulesOk(rs, aliasNames, zoneNames)
  {
    var names: set<string> := {};
    for i := 0 to |rs|
      invariant names == set k | 0 <= k < i :: rs[k].name
      invariant RulesOk(rs[..i], aliasNames, zoneNames)
    {
      if !RuleOk(rs[i], aliasNames, zoneNames) || rs[i].name in names {
        return false;
      }
      names := names + {rs[i].name};
      assert rs[..i + 1] == rs[..i] + [rs[i]];
    }
    assert rs[..|rs|] == rs;
    ok := true;
  }

  /** The incremental checks with their seen-sets accept exactly the configurations whose
      objects are well formed, pairwise distinct and closed under reference. */
  method ValidateObjects(c: Config) returns (ok: bool)
    ensures ok <==> ObjectsOk(c)
  {
    var aliasNames, zoneNames;
    ok, aliasNames := ValidateAliases(c.aliases);
    if !ok {
      return;
    }
    ok, zoneNames := ValidateZones(c.zones);
    if !ok {
      return;
    }
    ok := ValidateRules(c.rules, aliasNames, zoneNames);
  }

  // ---- the whole configuration -------------------------------------------------------------------

  predicate PortForwardOk(f: PortForward) {
    && (f.proto == TcpOnly || f.proto == UdpOnly)
    && 1 <= f.extPort <= 65535 && 1 <= f.destPort <= 65535
    && f.extPort != 22 && f.extPort != 443
  }

  predicate SnatRuleOk(s: SnatRule) {
    s.source.Host? || s.source.Net?
  }

  /** Last entry wins, as a map filled in list order; "" for an unknown name. */
  function ZoneIface(zs: seq<Zone>, name: string): string {
    if zs == [] then ""
    else if zs[|zs| - 1].name == name then zs[|zs| - 1].IfaceName()
    else ZoneIface(zs[..|zs| - 1], name)
  }

  datatype AclRow = AclRow(acl: ServiceAcl, iface: string)

  function AclIface(c: Config, a: ServiceAcl): string {
    if a.zone == "wan" then c.wan
    else if a.zone == "lan" then c.lan
    else if a.zone == "vpn" then c.ovpnIface
    else ZoneIface(c.zones, a.zone)
  }

  function ResolveAcl(c: Config): ServiceAcl -> seq<AclRow> {
    (a: ServiceAcl) => if AclIface(c, a) == "" then [] else [AclRow(a, AclIface(c, a))]
  }

  /** Rows whose zone still has an interface; a stale row is dropped. */
  function AclRows(c: Config): seq<AclRow> {
    FlatMap(c.serviceAcls, ResolveAcl(c))
  }

  predicate ManagementReachable(c: Config) {
    if c.adminNetwork.Some? then true
    else if AclRows(c) != [] then
      exists i :: 0 <= i < |AclRows(c)| && (AclRows(c)[i].acl.https || AclRows(c)[i].acl.ssh)
    else (c.mgmtOnLan && c.lan != "") || (c.mgmtOnWan && c.wan != "")
  }

  ghost predicate Valid(c: Config) {
    && (c.dhcpInterface != "" ==> ValidIface(c.dhcpInterface))
    && ObjectsOk(c)
    && (!c.gatewayEnabled ==> c.adminNetwork.Some?)
    && (c.gatewayEnabled ==>
          && ValidIface(c.wan) && ValidIface(c.lan) && c.wan != c.lan
          && ManagementReachable(c)
          && (forall i :: 0 <= i < |c.portForwards| ==> PortForwardOk(c.portForwards[i]))
          && (forall i :: 0 <= i < |c.snatRules| ==> SnatRuleOk(c.snatRules[i])))
  }

  method Validate(c: Config) returns (ok: bool)
    ensures ok <==> Valid(c)
  {
    if c.dhcpInterface != "" && !ValidIface(c.dhcpInterface) {
      return false;
    }
    ok := ValidateObjects(c);
    if !ok {
      return;
    }
    if !c.gatewayEnabled {
      return c.adminNetwork.Some?;
    }
    if !ValidIface(c.wan) || !ValidIface(c.lan) || c.wan == c.lan || !ManagementReachable(c) {
      return false;
    }
    for i := 0 to |c.portForwards|
      invariant forall k :: 0 <= k < i ==> PortForwardOk(c.portForwards[k])
    {
      if !PortForwardOk(c.portForwards[i]) {
        return false;
      }
    }
    for i := 0 to |c.snatRules|
      invariant forall k :: 0 <= k < i ==> SnatRuleOk(c.snatRules[k])
    {
      if !SnatRuleOk(c.snatRules[i]) {
        return false;
      }
    }
    ok := true;
  }

  /** With distinct names, looking a zone up finds the one that carries the name. */
  lemma {:induction false} ZoneIfaceFinds(zs: seq<Zone>, i: nat)
    requires i < |zs|
    requires forall j, k :: 0 <= j < k < |zs| ==> zs[j].name != zs[k].name
    ensures ZoneIface(zs, zs[i].name) == zs[i].IfaceName()
  {
    var n := |zs| - 1;
    if i < n {
      ZoneIfaceFinds(zs[..n], i);
    }
  }
}
