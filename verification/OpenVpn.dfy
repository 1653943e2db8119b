/** OpenVPN clients: the address allocator, the client list over add/revoke/access runs, and
    what the emitted tunnel rules then allow. */
module OpenVpn {
  import opened Ipv4
  import opened Sequences
  import opened Nft
  import opened GatewayConfig
  import opened FilterSets
  import opened ForwardChain
  import opened ForwardMeaning

  datatype Client = Client(name: string, addr: Option<Addr>, access: seq<OvpnRule>, revoked: bool)

  const TUN: string := "ovpn-saguaro"

  // ---- allocation ---------------------------------------------------------------------------------

  /** Addition on 32-bit addresses wraps around. */
  function IncIp(base: Addr, n: nat): Addr { (base + n) % 0x1_0000_0000 }

  function Server(subnet: Cidr): Addr { IncIp(Network(subnet), 1) }

  predicate HeldBy(c: Client, a: Addr) { !c.revoked && c.addr == Some(a) }

  predicate Held(clients: seq<Client>, a: Addr) {
    exists i :: 0 <= i < |clients| && HeldBy(clients[i], a)
  }

  predicate Taken(subnet: Cidr, clients: seq<Client>, a: Addr) {
    a == Server(subnet) || Held(clients, a)
  }

  /** The first free offset from i on, searched up to 253 while inside the subnet. */
  function FreeFrom(subnet: Cidr, clients: seq<Client>, i: nat): Option<Addr>
    decreases 254 - i
  {
    if i >= 254 || !Contains(subnet, IncIp(Network(subnet), i)) then None
    else if !Taken(subnet, clients, IncIp(Network(subnet), i)) then Some(IncIp(Network(subnet), i))
    else FreeFrom(subnet, clients, i + 1)
  }

  method NextFreeAddr(subnet: Cidr, clients: seq<Client>) returns (r: Option<Addr>)
    ensures r == FreeFrom(subnet, clients, 2)
  {
    var base := Network(subnet);
    var used: set<Addr> := {IncIp(base, 1)};
    for i := 0 to |clients|
      invariant forall a :: a in used <==> a == Server(subnet) || Held(clients[..i], a)
    {
      assert clients[..i + 1] == clients[..i] + [clients[i]];
      if clients[i].addr.Some? && !clients[i].revoked {
        used := used + {clients[i].addr.value};
        assert HeldBy(clients[i], clients[i].addr.value);
      }
      forall a ensures Held(clients[..i + 1], a) <==> Held(clients[..i], a) || HeldBy(clients[i], a) {
        HeldStep(clients, i, a);
      }
    }
    assert clients[..|clients|] == clients;
    var i := 2;
    while i < 254
      invariant 2 <= i <= 254
      invariant FreeFrom(subnet, clients, 2) == FreeFrom(subnet, clients, i)
    {
      var cand := IncIp(base, i);
      if !Contains(subnet, cand) {
        break;
      }
      if cand !in used {
        return Some(cand);
      }
      i := i + 1;
    }
    r := None;
  }

  lemma HeldStep(clients: seq<Client>, i: nat, a: Addr)
    requires i < |clients|
    ensures Held(clients[..i + 1], a) <==> Held(clients[..i], a) || HeldBy(clients[i], a)
  {
    var more := clients[..i + 1];
    if k :| 0 <= k < |more| && HeldBy(more[k], a) {
      if k < i {
        assert HeldBy(clients[..i][k], a);
      }
    }
    if k :| 0 <= k < i && HeldBy(clients[..i][k], a) {
      assert HeldBy(more[k], a);
    }
    if HeldBy(clients[i], a) {
      assert HeldBy(more[i], a);
    }
  }

  /** The n-th address after the base is inside exactly when n is below the block size; wrapping
      past the top never comes back in. */
  lemma OffsetIsInside(subnet: Cidr, n: nat)
    requires n < 254
    ensures Contains(subnet, IncIp(Network(subnet), n)) <==> n < BlockSize(subnet)
  {
    BlockFits(subnet);
    ContainsIsInterval(subnet, IncIp(Network(subnet), n));
  }

  ghost predicate FreeAt(subnet: Cidr, clients: seq<Client>, n: nat) {
    n < BlockSize(subnet) && !Taken(subnet, clients, IncIp(Network(subnet), n))
  }

  /** n is the lowest free offset from i on. */
  ghost predicate LowestFree(subnet: Cidr, clients: seq<Client>, i: nat, n: nat) {
    i <= n < 254 && FreeAt(subnet, clients, n) && forall m :: i <= m < n ==> !FreeAt(subnet, clients, m)
  }

  lemma {:induction false} FreeFromIsExact(subnet: Cidr, clients: seq<Client>, i: nat)
    requires i <= 254
    ensures
      match FreeFrom(subnet, clients, i)
      case Some(a) => exists n :: LowestFree(subnet, clients, i, n) && a == IncIp(Network(subnet), n)
      case None => forall n :: i <= n < 254 ==> !FreeAt(subnet, clients, n)
    decreases 254 - i
  {
    if i < 254 {
      OffsetIsInside(subnet, i);
      if FreeAt(subnet, clients, i) {
        assert LowestFree(subnet, clients, i, i);
      } else if i < BlockSize(subnet) {
        FreeFromIsExact(subnet, clients, i + 1);
        if FreeFrom(subnet, clients, i).Some? {
          var n :| LowestFree(subnet, clients, i + 1, n) && FreeFrom(subnet, clients, i).value == IncIp(Network(subnet), n);
          assert LowestFree(subnet, clients, i, n);
        }
      }
    }
  }

  /** The allocator's answer is the lowest free address of the subnet from offset 2 on, the last address
      of a small subnet included, and it gives up only when every offset to 253 inside it is taken. */
  lemma AllocationIsExact(subnet: Cidr, clients: seq<Client>)
    ensures
      var r := FreeFrom(subnet, clients, 2);
      && (r.Some? ==> Contains(subnet, r.value) && r.value != Server(subnet) && !Held(clients, r.value))
      && (r.None? <==> forall n :: 2 <= n < 254 && n < BlockSize(subnet) ==> Taken(subnet, clients, IncIp(Network(subnet), n)))
  {
    FreeFromIsExact(subnet, clients, 2);
    var r := FreeFrom(subnet, clients, 2);
    if r.Some? {
      var n :| LowestFree(subnet, clients, 2, n) && r.value == IncIp(Network(subnet), n);
      OffsetIsInside(subnet, n);
    } else {
      forall n | 2 <= n < 254 && n < BlockSize(subnet) ensures Taken(subnet, clients, IncIp(Network(subnet), n)) {
        assert !FreeAt(subnet, clients, n);
      }
    }
  }

  // ---- the client list -------------------------------------------------------------------------------

  predicate ActiveNamed(c: Client, name: string) { !c.revoked && c.name == name }

  predicate HasActive(clients: seq<Client>, name: string) {
    exists i :: 0 <= i < |clients| && ActiveNamed(clients[i], name)
  }

  /** A new client with the next free address, or none when the subnet is full. */
  function Added(subnet: Cidr, clients: seq<Client>, name: string): seq<Client> {
    if HasActive(clients, name) then clients
    else clients + [Client(name, FreeFrom(subnet, clients, 2), [], false)]
  }

  function Revoked(clients: seq<Client>, name: string): seq<Client> {
    seq(|clients|, i requires 0 <= i < |clients| =>
      if ActiveNamed(clients[i], name) then clients[i].(revoked := true) else clients[i])
  }

  function WithAccess(clients: seq<Client>, name: string, rules: seq<OvpnRule>): seq<Client> {
    seq(|clients|, i requires 0 <= i < |clients| =>
      if ActiveNamed(clients[i], name) then clients[i].(access := rules) else clients[i])
  }

  /** The stored client list, edited by index. */
  class ClientStore {
    const subnet: Cidr
    var clients: seq<Client>

    constructor (subnet: Cidr)
      ensures this.subnet == subnet && clients == []
    {
      this.subnet := subnet;
      clients := [];
    }

    method AddClient(name: string) returns (ok: bool)
      modifies this
      ensures ok <==> !HasActive(old(clients), name)
      ensures clients == Added(subnet, old(clients), name)
    {
      for i := 0 to |clients|
        invariant clients == old(clients)
        invariant forall k :: 0 <= k < i ==> !ActiveNamed(clients[k], name)
      {
        if clients[i].name == name && !clients[i].revoked {
          return false;
        }
      }
      var addr := NextFreeAddr(subnet, clients);
      clients := clients + [Client(name, addr, [], false)];
      ok := true;
    }

    method RevokeClient(name: string) returns (found: bool)
      modifies this
      ensures found <==> HasActive(old(clients), name)
      ensures clients == Revoked(old(clients), name)
    {
      found := false;
      ghost var start := clients;
      for i := 0 to |clients|
        invariant |clients| == |start|
        invariant forall k :: 0 <= k < i ==> clients[k] == Revoked(start, name)[k]
        invariant forall k :: i <= k < |clients| ==> clients[k] == start[k]
        invariant found <==> exists k :: 0 <= k < i && ActiveNamed(start[k], name)
      {
        if clients[i].name == name && !clients[i].revoked {
          clients := clients[i := clients[i].(revoked := true)];
          found := true;
          assert ActiveNamed(start[i], name);
        }
      }
    }

    method SetAccess(name: string, rules: seq<OvpnRule>) returns (found: bool)
      modifies this
      ensures found <==> HasActive(old(clients), name)
      ensures clients == WithAccess(old(clients), name, rules)
    {
      found := false;
      ghost var start := clients;
      for i := 0 to |clients|
        invariant |clients| == |start|
        invariant forall k :: 0 <= k < i ==> clients[k] == WithAccess(start, name, rules)[k]
        invariant forall k :: i <= k < |clients| ==> clients[k] == start[k]
        invariant found <==> exists k :: 0 <= k < i && ActiveNamed(start[k], name)
      {
        if clients[i].name == name && !clients[i].revoked {
          clients := clients[i := clients[i].(access := rules)];
          found := true;
          assert ActiveNamed(start[i], name);
        }
      }
    }
  }

  // ---- runs ---------------------------------------------------------------------------------------------

  datatype Step = Add(name: string) | Revoke(name: string) | Grant(name: string, rules: seq<OvpnRule>)

  function Apply(subnet: Cidr, clients: seq<Client>, s: Step): seq<Client> {
    match s
    case Add(name) => Added(subnet, clients, name)
    case Revoke(name) => Revoked(clients, name)
    case Grant(name, rules) => WithAccess(clients, name, rules)
  }

  function After(subnet: Cidr, run: seq<Step>): seq<Client> {
    if run == [] then [] else Apply(subnet, After(subnet, run[..|run| - 1]), run[|run| - 1])
  }

  /** Two active clients share neither name nor address, and every address lies in the subnet. */
  ghost predicate Sound(subnet: Cidr, clients: seq<Client>) {
    && (forall i, j :: 0 <= i < j < |clients| && !clients[i].revoked && !clients[j].revoked ==>
          clients[i].name != clients[j].name && (clients[i].addr.Some? ==> clients[i].addr != clients[j].addr))
    && (forall i :: 0 <= i < |clients| && clients[i].addr.Some? ==>
          Contains(subnet, clients[i].addr.value) && clients[i].addr.value != Server(subnet))
  }

  lemma StepKeepsSound(subnet: Cidr, clients: seq<Client>, s: Step)
    requires Sound(subnet, clients)
    ensures Sound(subnet, Apply(subnet, clients, s))
  {
    match s
    case Add(name) =>
      AllocationIsExact(subnet, clients);
      var next := Added(subnet, clients, name);
      if !HasActive(clients, name) {
        var r := FreeFrom(subnet, clients, 2);
        forall i | 0 <= i < |clients| && !clients[i].revoked
          ensures clients[i].name != name && (clients[i].addr.Some? ==> clients[i].addr != r)
        {
          assert !ActiveNamed(clients[i], name);
          assert r.Some? ==> !HeldBy(clients[i], r.value);
        }
      }
    case Revoke(name) =>
    case Grant(name, rules) =>
  }

  /** Over every run of adds, revocations and access changes. */
  lemma {:induction false} RunIsSound(subnet: Cidr, run: seq<Step>)
    ensures Sound(subnet, After(subnet, run))
  {
    if run != [] {
      RunIsSound(subnet, run[..|run| - 1]);
      StepKeepsSound(subnet, After(subnet, run[..|run| - 1]), run[|run| - 1]);
    }
  }

  /** What the requests come to for one name: None while it has no active client, otherwise its access list.
      An add opens an account that has none, a revocation closes it, a grant changes an open one. */
  ghost function Standing(run: seq<Step>, name: string): Option<seq<OvpnRule>> {
    if run == [] then None else
    var before := Standing(run[..|run| - 1], name);
    match run[|run| - 1]
    case Add(n) => if n == name && before.None? then Some([]) else before
    case Revoke(n) => if n == name then None else before
    case Grant(n, rules) => if n == name && before.Some? then Some(rules) else before
  }

  /** The list has an active client of the name exactly when it stands, and with that access. */
  ghost predicate Reflects(clients: seq<Client>, name: string, standing: Option<seq<OvpnRule>>) {
    && (HasActive(clients, name) <==> standing.Some?)
    && forall i :: 0 <= i < |clients| && ActiveNamed(clients[i], name) ==> standing == Some(clients[i].access)
  }

  lemma StepReflects(subnet: Cidr, clients: seq<Client>, s: Step, name: string, standing: Option<seq<OvpnRule>>)
    requires Reflects(clients, name, standing)
    ensures
      match s
      case Add(n) => Reflects(Added(subnet, clients, n), name, if n == name && standing.None? then Some([]) else standing)
      case Revoke(n) => Reflects(Revoked(clients, n), name, if n == name then None else standing)
      case Grant(n, rules) =>
        Reflects(WithAccess(clients, n, rules), name, if n == name && standing.Some? then Some(rules) else standing)
  {
    var next := Apply(subnet, clients, s);
    if i :| 0 <= i < |clients| && ActiveNamed(clients[i], name) {
      assert (s.Revoke? && s.name == name) || ActiveNamed(next[i], name);
    }
    if s.Add? && s.name == name && !HasActive(clients, name) {
      assert ActiveNamed(next[|clients|], name);
    }
  }

  /** Over every run: exactly the names that stand have an active client, with the access last granted. */
  lemma {:induction false} RunReflectsRequests(subnet: Cidr, run: seq<Step>, name: string)
    ensures Reflects(After(subnet, run), name, Standing(run, name))
  {
    if run != [] {
      var init := run[..|run| - 1];
      RunReflectsRequests(subnet, init, name);
      StepReflects(subnet, After(subnet, init), run[|run| - 1], name, Standing(init, name));
    }
  }

  /** Revoking a name frees exactly the addresses its active client held; nobody else is touched. */
  lemma RevocationIsExact(clients: seq<Client>, name: string, a: Addr)
    ensures !HasActive(Revoked(clients, name), name)
    ensures Held(Revoked(clients, name), a) <==>
            exists i :: 0 <= i < |clients| && HeldBy(clients[i], a) && clients[i].name != name
  {
    var after := Revoked(clients, name);
    if i :| 0 <= i < |after| && HeldBy(after[i], a) {
      assert HeldBy(clients[i], a) && clients[i].name != name;
    }
    if i :| 0 <= i < |clients| && HeldBy(clients[i], a) && clients[i].name != name {
      assert HeldBy(after[i], a);
    }
  }

  /** A new client is left without an address exactly when the subnet is exhausted. */
  lemma UnaddressedExactlyWhenFull(subnet: Cidr, clients: seq<Client>, name: string)
    requires !HasActive(clients, name)
    ensures
      var next := Added(subnet, clients, name);
      next[|clients|].addr.None? <==>
        forall n :: 2 <= n < 254 && n < BlockSize(subnet) ==> Taken(subnet, clients, IncIp(Network(subnet), n))
  {
    AllocationIsExact(subnet, clients);
  }

  // ---- what the tunnel rules allow -------------------------------------------------------------------------

  function ClientAccess(): Client -> seq<OvpnAccess> {
    (c: Client) =>
      if c.revoked || c.addr.None? then [] else [OvpnAccess(c.addr, c.access == [], c.access)]
  }

  method BuildAccess(clients: seq<Client>) returns (access: seq<OvpnAccess>)
    ensures access == FlatMap(clients, ClientAccess())
  {
    access := [];
    for i := 0 to |clients|
      invariant access == FlatMap(clients[..i], ClientAccess())
    {
      FlatMapStep(clients, i, ClientAccess());
      if clients[i].revoked || clients[i].addr.None? {
        continue;
      }
      access := access + [OvpnAccess(clients[i].addr, |clients[i].access| == 0, clients[i].access)];
    }
    assert clients[..|clients|] == clients;
  }

  /** The configuration as the compiler receives it while the server is enabled. */
  ghost predicate Serves(c: Config, clients: seq<Client>) {
    c.ovpnIface == TUN && c.ovpnAccess == FlatMap(clients, ClientAccess())
  }

  /** An empty list allows everything. */
  ghost predicate RulesAllow(c: Config, rules: seq<OvpnRule>, p: Packet) {
    rules == [] || exists j :: 0 <= j < |rules| && OvpnRuleAllows(c, rules[j], p)
  }

  /** The client holds the packet's source and has no access list or a rule for it. */
  ghost predicate Admits(c: Config, cl: Client, p: Packet) {
    HeldBy(cl, p.src) && RulesAllow(c, cl.access, p)
  }

  ghost predicate SomeAdmits(c: Config, clients: seq<Client>, p: Packet) {
    exists i :: 0 <= i < |clients| && Admits(c, clients[i], p)
  }

  lemma GrantIsSomeHolders(c: Config, clients: seq<Client>, p: Packet)
    requires Serves(c, clients) && p.iif == TUN && p.ct == New
    ensures OvpnGrant(c, p) <==> SomeAdmits(c, clients, p)
  {
    if OvpnGrant(c, p) {
      var k :| 0 <= k < |c.ovpnAccess| && OvpnClientAllows(c, c.ovpnAccess[k], p);
      FlatMapMembers(clients, ClientAccess(), c.ovpnAccess[k]);
      var i :| 0 <= i < |clients| && c.ovpnAccess[k] in ClientAccess()(clients[i]);
      assert Admits(c, clients[i], p);
    }
    if i :| 0 <= i < |clients| && Admits(c, clients[i], p) {
      var a := OvpnAccess(clients[i].addr, clients[i].access == [], clients[i].access);
      assert a in ClientAccess()(clients[i]);
      FlatMapMembers(clients, ClientAccess(), a);
      var k :| 0 <= k < |c.ovpnAccess| && c.ovpnAccess[k] == a;
      assert OvpnClientAllows(c, c.ovpnAccess[k], p);
    }
  }

  /** In every reachable client list, the emitted tunnel rules accept a new tunnel packet exactly
      when its source is held by an active client, necessarily a single one, that has no access
      list or a rule for the packet. */
  lemma TunnelAccessIsTheHolders(subnet: Cidr, run: seq<Step>, c: Config, p: Packet)
    requires Serves(c, After(subnet, run)) && p.iif == TUN && p.ct == New
    ensures
      var clients := After(subnet, run);
      && (AnyHit(OvpnBlock(c), Sets(c), p) <==> SomeAdmits(c, clients, p))
      && (forall i, j :: 0 <= i < |clients| && 0 <= j < |clients| && HeldBy(clients[i], p.src) && HeldBy(clients[j], p.src) ==> i == j)
  {
    var clients := After(subnet, run);
    OvpnBlockMeans(c, p);
    GrantIsSomeHolders(c, clients, p);
    RunIsSound(subnet, run);
  }

  /** After an access change the emitted tunnel rules hold the named client to exactly the new list, an
      empty one opening everything, and treat every other client as its own list says. */
  lemma GrantIsExact(subnet: Cidr, run: seq<Step>, name: string, rules: seq<OvpnRule>, c: Config, p: Packet)
    requires Serves(c, After(subnet, run + [Grant(name, rules)])) && p.iif == TUN && p.ct == New
    ensures
      var before := After(subnet, run);
      AnyHit(OvpnBlock(c), Sets(c), p) <==>
        exists i :: 0 <= i < |before| && HeldBy(before[i], p.src) &&
                    RulesAllow(c, if before[i].name == name then rules else before[i].access, p)
  {
    var longer := run + [Grant(name, rules)];
    assert longer[..|longer| - 1] == run;
    assert After(subnet, longer) == WithAccess(After(subnet, run), name, rules);
    TunnelAccessIsTheHolders(subnet, longer, c, p);
    GrantChangesOneList(c, After(subnet, run), name, rules, p);
  }

  lemma GrantChangesOneList(c: Config, clients: seq<Client>, name: string, rules: seq<OvpnRule>, p: Packet)
    ensures
      var after := WithAccess(clients, name, rules);
      SomeAdmits(c, after, p) <==>
      exists i :: 0 <= i < |clients| && HeldBy(clients[i], p.src) &&
                  RulesAllow(c, if clients[i].name == name then rules else clients[i].access, p)
  {
    var after := WithAccess(clients, name, rules);
    assert forall i :: 0 <= i < |clients| ==> HeldBy(after[i], p.src) == HeldBy(clients[i], p.src);
    assert forall i :: 0 <= i < |clients| && HeldBy(clients[i], p.src) ==>
      after[i].access == if clients[i].name == name then rules else clients[i].access;
    if i :| 0 <= i < |clients| && HeldBy(clients[i], p.src) &&
            RulesAllow(c, if clients[i].name == name then rules else clients[i].access, p) {
      assert Admits(c, after[i], p);
    }
  }

  /** After a revocation the named client's packets hit no tunnel rule; everyone else's do as before. */
  lemma RevokedReachNothing(subnet: Cidr, run: seq<Step>, name: string, c: Config, p: Packet)
    requires Serves(c, After(subnet, run + [Revoke(name)])) && p.iif == TUN && p.ct == New
    ensures
      var before := After(subnet, run);
      AnyHit(OvpnBlock(c), Sets(c), p) <==>
        exists i :: 0 <= i < |before| && before[i].name != name && Admits(c, before[i], p)
  {
    var longer := run + [Revoke(name)];
    assert longer[..|longer| - 1] == run;
    assert After(subnet, longer) == Revoked(After(subnet, run), name);
    TunnelAccessIsTheHolders(subnet, longer, c, p);
    RevocationClosesOneClient(c, After(subnet, run), name, p);
  }

  lemma RevocationClosesOneClient(c: Config, clients: seq<Client>, name: string, p: Packet)
    ensures SomeAdmits(c, Revoked(clients, name), p) <==>
            exists i :: 0 <= i < |clients| && clients[i].name != name && Admits(c, clients[i], p)
  {
    var after := Revoked(clients, name);
    if i :| 0 <= i < |clients| && clients[i].name != name && Admits(c, clients[i], p) {
      assert after[i] == clients[i];
    }
    if i :| 0 <= i < |after| && Admits(c, after[i], p) {
      assert after[i] == clients[i] && clients[i].name != name;
    }
  }

  /** The destination a rule names, by alias or directly. */
  ghost predicate Leads(c: Config, r: OvpnRule, x: Addr) {
    if r.destAlias != "" then InAlias(c, r.destAlias, x) else InElement(r.dest, x)
  }

  /** The port of a rule is enforced exactly when the rule names tcp or udp, or leads nowhere at all: for
      any protocol the emitted rule covers every port. */
  lemma PortIsEnforcedExactly(c: Config, iface: string, addr: Addr, r: OvpnRule)
    requires r.port > 0
    ensures (forall p: Packet :: AnyHit(EmitOvpnRule(iface, addr)(r), Sets(c), p) ==> p.dport == r.port) <==>
            Concrete(r.proto) || forall x: Addr :: !Leads(c, r, x)
  {
    forall p: Packet
      ensures AnyHit(EmitOvpnRule(iface, addr)(r), Sets(c), p) <==>
              (p.iif == iface && p.src == addr && p.ct == New && Leads(c, r, p.dst) && ServiceAllows(r.proto, r.port, p))
    {
      OvpnRuleMeans(c, iface, addr, r, p);
    }
    if x: Addr :| !Concrete(r.proto) && Leads(c, r, x) {
      var p := Packet(iface, "", addr, x, Tcp, 0, OtherType, New, false, false, 0, 0, false);
      assert AnyHit(EmitOvpnRule(iface, addr)(r), Sets(c), p);
    }
  }
}
