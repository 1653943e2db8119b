/** The named sets of the filter table, and what each of them contains. */
module FilterSets {
  import opened Ipv4
  import opened Sequences
  import opened Nft
  import opened GatewayConfig

  function Blocks(cs: seq<Cidr>): seq<Element> {
    seq(|cs|, i requires 0 <= i < |cs| => Net(cs[i]))
  }

  predicate InBlocks(cs: seq<Cidr>, x: Addr) {
    exists i :: 0 <= i < |cs| && Contains(cs[i], x)
  }

  lemma BlocksAreBlocks(cs: seq<Cidr>, x: Addr)
    ensures InElements(Blocks(cs), x) <==> InBlocks(cs, x)
  {
    if i :| 0 <= i < |cs| && Contains(cs[i], x) {
      assert InElement(Blocks(cs)[i], x);
    }
  }

  /** The deduplicated networks of the non-WAN zones, in zone order. */
  function ZoneNetworks(zs: seq<Zone>): seq<Cidr> {
    if zs == [] then [] else
    var z, nets := zs[|zs| - 1], ZoneNetworks(zs[..|zs| - 1]);
    if z.kind == Wan || z.network.None? || z.network.value in nets then nets else nets + [z.network.value]
  }

  function InternalNetworks(zs: seq<Zone>, client: Cidr): seq<Cidr> {
    var nets := ZoneNetworks(zs);
    if client in nets then nets else nets + [client]
  }

  method GatherInternalNetworks(zs: seq<Zone>, client: Cidr) returns (nets: seq<Cidr>)
    ensures nets == InternalNetworks(zs, client)
  {
    nets := [];
    var seen: set<Cidr> := {};
    for i := 0 to |zs|
      invariant nets == ZoneNetworks(zs[..i])
      invariant forall n :: n in seen <==> n in nets
    {
      assert zs[..i + 1][..i] == zs[..i];
      if zs[i].kind != Wan && zs[i].network.Some? && zs[i].network.value !in seen {
        seen := seen + {zs[i].network.value};
        nets := nets + [zs[i].network.value];
      }
    }
    assert zs[..|zs|] == zs;
    for i := 0 to |nets|
      invariant client !in nets[..i]
    {
      if nets[i] == client {
        return;
      }
    }
    assert nets[..|nets|] == nets;
    nets := nets + [client];
  }

  /** A segment counts as internal exactly when it is the client network or a non-WAN zone's. */
  lemma {:induction false} ZoneNetworksAreTheInternalOnes(zs: seq<Zone>, n: Cidr)
    ensures n in ZoneNetworks(zs) <==> exists i :: 0 <= i < |zs| && zs[i].kind != Wan && zs[i].network == Some(n)
    ensures forall i, j :: 0 <= i < j < |ZoneNetworks(zs)| ==> ZoneNetworks(zs)[i] != ZoneNetworks(zs)[j]
  {
    if zs != [] {
      var k := |zs| - 1;
      ZoneNetworksAreTheInternalOnes(zs[..k], n);
      assert forall i :: 0 <= i < k ==> zs[i] == zs[..k][i];
    }
  }

  ghost predicate Internal(c: Config, x: Addr) {
    || Contains(c.clientNetwork, x)
    || exists i :: 0 <= i < |c.zones| && c.zones[i].kind != Wan && c.zones[i].network.Some? &&
                   Contains(c.zones[i].network.value, x)
  }

  lemma InternalNetworksCover(c: Config, x: Addr)
    ensures InBlocks(InternalNetworks(c.zones, c.clientNetwork), x) <==> Internal(c, x)
  {
    var zn, nets := ZoneNetworks(c.zones), InternalNetworks(c.zones, c.clientNetwork);
    assert forall n :: n in nets <==> n in zn || n == c.clientNetwork;
    if i :| 0 <= i < |nets| && Contains(nets[i], x) {
      ZoneNetworksAreTheInternalOnes(c.zones, nets[i]);
    }
    if Internal(c, x) {
      if !Contains(c.clientNetwork, x) {
        var i :| 0 <= i < |c.zones| && c.zones[i].kind != Wan && c.zones[i].network.Some? &&
                 Contains(c.zones[i].network.value, x);
        ZoneNetworksAreTheInternalOnes(c.zones, c.zones[i].network.value);
        assert c.zones[i].network.value in nets;
      } else {
        assert c.clientNetwork in nets;
      }
      assert exists n :: n in nets && Contains(n, x);
      var n :| n in nets && Contains(n, x);
      var j :| 0 <= j < |nets| && nets[j] == n;
    }
  }

  // ---- set declarations --------------------------------------------------------------------

  function AliasSetName(name: string): string {
    "alias_" + name
  }

  function DeclareAlias(): Alias -> seq<SetDecl> {
    (a: Alias) => [SetDecl(AliasSetName(a.name), a.values)]
  }

  function MgmtSet(c: Config): seq<SetDecl> {
    if c.adminNetwork.Some? then [SetDecl("mgmt4", [Net(c.adminNetwork.value)])] else []
  }

  function InternalSet(c: Config): seq<SetDecl> {
    if c.serviceAcls == [] then [SetDecl("internal4", Blocks(InternalNetworks(c.zones, c.clientNetwork)))] else []
  }

  function BruteSet(c: Config): seq<SetDecl> {
    if c.bruteForceProtect then [SetDecl("mgmt_brute4", [])] else []
  }

  function GeoSet(c: Config): seq<SetDecl> {
    if c.geo != [] then [SetDecl("geo4", Blocks(c.geo))] else []
  }

  function Sets(c: Config): seq<SetDecl> {
    MgmtSet(c) + InternalSet(c) + BruteSet(c) + GeoSet(c) + FlatMap(c.aliases, DeclareAlias())
  }

  method DeclareSets(c: Config) returns (sets: seq<SetDecl>)
    ensures sets == Sets(c)
  {
    sets := MgmtSet(c);
    var internal := GatherInternalNetworks(c.zones, c.clientNetwork);
    if |c.serviceAcls| == 0 {
      sets := sets + [SetDecl("internal4", Blocks(internal))];
    }
    assert sets == MgmtSet(c) + InternalSet(c);
    sets := sets + BruteSet(c) + GeoSet(c);
    ghost var fixed := sets;
    for i := 0 to |c.aliases|
      invariant sets == fixed + FlatMap(c.aliases[..i], DeclareAlias())
    {
      FlatMapStep(c.aliases, i, DeclareAlias());
      sets := sets + [SetDecl(AliasSetName(c.aliases[i].name), c.aliases[i].values)];
    }
    assert c.aliases[..|c.aliases|] == c.aliases;
  }

  ghost predicate Declared(sets: seq<SetDecl>, name: string) {
    exists i :: 0 <= i < |sets| && sets[i].name == name
  }

  lemma SetsMembers(c: Config, d: SetDecl)
    ensures d in Sets(c) <==>
      || (c.adminNetwork.Some? && d == SetDecl("mgmt4", [Net(c.adminNetwork.value)]))
      || (c.serviceAcls == [] && d == SetDecl("internal4", Blocks(InternalNetworks(c.zones, c.clientNetwork))))
      || (c.bruteForceProtect && d == SetDecl("mgmt_brute4", []))
      || (c.geo != [] && d == SetDecl("geo4", Blocks(c.geo)))
      || (exists i :: 0 <= i < |c.aliases| && d == SetDecl(AliasSetName(c.aliases[i].name), c.aliases[i].values))
  {
    FlatMapMembers(c.aliases, DeclareAlias(), d);
    if i :| 0 <= i < |c.aliases| && d == SetDecl(AliasSetName(c.aliases[i].name), c.aliases[i].values) {
      assert d in DeclareAlias()(c.aliases[i]);
    }
  }

  ghost predicate InDecl(d: SetDecl, sets: seq<SetDecl>, name: string, x: Addr) {
    d in sets && d.name == name && InElements(d.elements, x)
  }

  lemma InNamedIsMembership(sets: seq<SetDecl>, name: string, x: Addr)
    ensures InNamed(sets, name, x) <==> exists d :: InDecl(d, sets, name, x)
  {
    if i :| 0 <= i < |sets| && sets[i].name == name && InElements(sets[i].elements, x) {
      assert InDecl(sets[i], sets, name, x);
    }
  }

  lemma AliasSetNamesAreApart(a: string, b: string)
    ensures AliasSetName(a) != "mgmt4" && AliasSetName(a) != "internal4"
    ensures AliasSetName(a) != "mgmt_brute4" && AliasSetName(a) != "geo4"
    ensures AliasSetName(a) == AliasSetName(b) ==> a == b
  {
    var s, t := AliasSetName(a), AliasSetName(b);
    assert s[0] == 'a';
    assert a == s[6..] && b == t[6..];
  }

  lemma FixedSetNamesAreApart()
    ensures "mgmt4" != "internal4" && "mgmt4" != "mgmt_brute4" && "mgmt4" != "geo4"
    ensures "internal4" != "mgmt_brute4" && "internal4" != "geo4" && "mgmt_brute4" != "geo4"
  {
    assert "mgmt4"[0] != "internal4"[0] && "mgmt4"[0] != "geo4"[0] && "internal4"[0] != "geo4"[0];
    assert "mgmt4"[4] != "mgmt_brute4"[4];
    assert "mgmt_brute4"[0] == 'm';
  }

  lemma GeoSetContains(c: Config, x: Addr)
    ensures InNamed(Sets(c), "geo4", x) <==> InBlocks(c.geo, x)
  {
    InNamedIsMembership(Sets(c), "geo4", x);
    BlocksAreBlocks(c.geo, x);
    FixedSetNamesAreApart();
    if d :| InDecl(d, Sets(c), "geo4", x) {
      SetsMembers(c, d);
      forall i | 0 <= i < |c.aliases| {
        AliasSetNamesAreApart(c.aliases[i].name, "");
      }
    }
    if InBlocks(c.geo, x) {
      var d := SetDecl("geo4", Blocks(c.geo));
      SetsMembers(c, d);
      assert InDecl(d, Sets(c), "geo4", x);
    }
  }

  lemma MgmtSetContains(c: Config, x: Addr)
    ensures InNamed(Sets(c), "mgmt4", x) <==> c.adminNetwork.Some? && Contains(c.adminNetwork.value, x)
  {
    InNamedIsMembership(Sets(c), "mgmt4", x);
    FixedSetNamesAreApart();
    if d :| InDecl(d, Sets(c), "mgmt4", x) {
      SetsMembers(c, d);
      forall i | 0 <= i < |c.aliases| {
        AliasSetNamesAreApart(c.aliases[i].name, "");
      }
    }
    if c.adminNetwork.Some? && Contains(c.adminNetwork.value, x) {
      var d := SetDecl("mgmt4", [Net(c.adminNetwork.value)]);
      SetsMembers(c, d);
      assert InElement(d.elements[0], x);
      assert InDecl(d, Sets(c), "mgmt4", x);
    }
  }

  ghost predicate InAlias(c: Config, name: string, x: Addr) {
    exists i :: 0 <= i < |c.aliases| && c.aliases[i].name == name && InElements(c.aliases[i].values, x)
  }

  lemma AliasSetContains(c: Config, name: string, x: Addr)
    ensures InNamed(Sets(c), AliasSetName(name), x) <==> InAlias(c, name, x)
  {
    InNamedIsMembership(Sets(c), AliasSetName(name), x);
    AliasSetNamesAreApart(name, name);
    if d :| InDecl(d, Sets(c), AliasSetName(name), x) {
      SetsMembers(c, d);
      var i :| 0 <= i < |c.aliases| && d == SetDecl(AliasSetName(c.aliases[i].name), c.aliases[i].values);
      AliasSetNamesAreApart(c.aliases[i].name, name);
    }
    if i :| 0 <= i < |c.aliases| && c.aliases[i].name == name && InElements(c.aliases[i].values, x) {
      var d := SetDecl(AliasSetName(name), c.aliases[i].values);
      SetsMembers(c, d);
      assert InDecl(d, Sets(c), AliasSetName(name), x);
    }
  }
}
