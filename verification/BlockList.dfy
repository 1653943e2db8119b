/** One-click blocking: a host alias and a top-priority drop rule, edited into and out of the
    gateway configuration. */
module BlockList {
  import opened Ipv4
  import opened Sequences
  import opened Nft
  import opened GatewayConfig
  import opened FilterSets
  import opened ForwardChain
  import opened ForwardMeaning
  import InputChain
  import InputMeaning

  const BLOCKLIST: string := "blocklist"
  const BLOCK_RULE: string := "Auto-blokada"

  const DROP_RULE: CustomRule :=
    CustomRule(BLOCK_RULE, DropIt, AnyProto, BLOCKLIST, "", 0, true, "", "", true, true, None)

  // ---- the two edits ------------------------------------------------------------------------------

  /** Some alias called blocklist, among these, holds the address. */
  predicate Seen(as_: seq<Alias>, ip: Addr) {
    exists j :: 0 <= j < |as_| && as_[j].name == BLOCKLIST && Host(ip) in as_[j].values
  }

  function Marked(a: Alias, ip: Addr, seen: bool): Alias {
    if a.name != BLOCKLIST || seen then a else a.(values := a.values + [Host(ip)])
  }

  /** Appends the address to the alias called blocklist unless it is already there. */
  function AddTo(as_: seq<Alias>, ip: Addr): seq<Alias> {
    seq(|as_|, i requires 0 <= i < |as_| => Marked(as_[i], ip, Seen(as_[..i + 1], ip)))
  }

  predicate HasAlias(as_: seq<Alias>) { exists i :: 0 <= i < |as_| && as_[i].name == BLOCKLIST }
  predicate HasRule(rs: seq<CustomRule>) { exists i :: 0 <= i < |rs| && rs[i].name == BLOCK_RULE }

  function BlockAliases(as_: seq<Alias>, ip: Addr): seq<Alias> {
    if HasAlias(as_) then AddTo(as_, ip) else as_ + [Alias(BLOCKLIST, HostAlias, [Host(ip)])]
  }

  function BlockRules(rs: seq<CustomRule>): seq<CustomRule> {
    if HasRule(rs) then rs else [DROP_RULE] + rs
  }

  function Block(c: Config, ip: Addr): Config {
    c.(aliases := BlockAliases(c.aliases, ip), rules := BlockRules(c.rules))
  }

  function Without<T(==)>(vs: seq<T>, v: T): seq<T> {
    if vs == [] then [] else (if vs[0] == v then [] else [vs[0]]) + Without(vs[1..], v)
  }

  function TakeOut(ip: Addr): Alias -> seq<Alias> {
    (a: Alias) => if a.name == BLOCKLIST then [a.(values := Without(a.values, Host(ip)))] else [a]
  }

  function KeepAlias(): Alias -> seq<Alias> { (a: Alias) => if a.name == BLOCKLIST then [] else [a] }
  function KeepRule(): CustomRule -> seq<CustomRule> { (r: CustomRule) => if r.name == BLOCK_RULE then [] else [r] }

  /** The last alias called blocklist holds nothing but this address. */
  predicate Empties(as_: seq<Alias>, ip: Addr) {
    as_ != [] &&
    var a := as_[|as_| - 1];
    if a.name == BLOCKLIST then Without(a.values, Host(ip)) == [] else Empties(as_[..|as_| - 1], ip)
  }

  function UnblockAliases(as_: seq<Alias>, ip: Addr): seq<Alias> {
    var kept := FlatMap(as_, TakeOut(ip));
    if Empties(as_, ip) then FlatMap(kept, KeepAlias()) else kept
  }

  function Unblock(c: Config, ip: Addr): Config {
    c.(aliases := UnblockAliases(c.aliases, ip),
       rules := if Empties(c.aliases, ip) then FlatMap(c.rules, KeepRule()) else c.rules)
  }

  lemma SeenStep(as_: seq<Alias>, ip: Addr, i: nat)
    requires i < |as_|
    ensures Seen(as_[..i + 1], ip) <==> Seen(as_[..i], ip) || (as_[i].name == BLOCKLIST && Host(ip) in as_[i].values)
    ensures HasAlias(as_[..i + 1]) <==> HasAlias(as_[..i]) || as_[i].name == BLOCKLIST
  {
    assert as_[..i + 1] == as_[..i] + [as_[i]];
  }

  /** One turn over the aliases marks the next one. */
  lemma MarkStep(as_: seq<Alias>, ip: Addr, i: nat)
    requires i < |as_|
    ensures AddTo(as_, ip)[..i + 1] + as_[i + 1..] ==
            (AddTo(as_, ip)[..i] + as_[i..])[i := Marked(as_[i], ip, Seen(as_[..i + 1], ip))]
  {
    var b := AddTo(as_, ip);
    assert b[..i + 1] == b[..i] + [b[i]] && as_[i..] == [as_[i]] + as_[i + 1..];
  }

  lemma WithoutStep<T>(vs: seq<T>, v: T, i: nat)
    requires i < |vs|
    ensures Without(vs[i..], v) == (if vs[i] == v then [] else [vs[i]]) + Without(vs[i + 1..], v)
  {
    assert vs[i..][1..] == vs[i + 1..];
  }

  // ---- the handlers' loops -------------------------------------------------------------------------

  /** The stored gateway configuration, edited in place by the two handlers. */
  class GatewayStore {
    var cfg: Config

    constructor (c: Config)
      ensures cfg == c
    {
      cfg := c;
    }

    method MarkBlocked(start: seq<Alias>, ip: Addr) returns (aliases: seq<Alias>)
      ensures aliases == BlockAliases(start, ip)
    {
      var found, already := false, false;
      aliases := start;
      for i := 0 to |start|
        invariant found <==> HasAlias(start[..i])
        invariant already <==> Seen(start[..i], ip)
        invariant aliases == AddTo(start, ip)[..i] + start[i..]
      {
        SeenStep(start, ip, i);
        MarkStep(start, ip, i);
        if aliases[i].name == BLOCKLIST {
          found := true;
          if Host(ip) in aliases[i].values {
            already := true;
          }
          if !already {
            aliases := aliases[i := aliases[i].(values := aliases[i].values + [Host(ip)])];
          }
        }
      }
      assert start[..|start|] == start && aliases == AddTo(start, ip);
      if !found {
        aliases := start + [Alias(BLOCKLIST, HostAlias, [Host(ip)])];
      }
    }

    method EnsureRule(start: seq<CustomRule>) returns (rules: seq<CustomRule>)
      ensures rules == BlockRules(start)
    {
      var hasRule := false;
      for j := 0 to |start|
        invariant hasRule <==> HasRule(start[..j])
      {
        assert start[..j + 1] == start[..j] + [start[j]];
        if start[j].name == BLOCK_RULE {
          hasRule := true;
        }
      }
      assert start[..|start|] == start;
      rules := if hasRule then start else [DROP_RULE] + start;
    }

    method BlockIp(ip: Addr)
      modifies this
      ensures cfg == Block(old(cfg), ip)
    {
      var aliases := MarkBlocked(cfg.aliases, ip);
      var rules := EnsureRule(cfg.rules);
      cfg := cfg.(aliases := aliases, rules := rules);
    }

    method FilterValues(vs: seq<Element>, v: Element) returns (kept: seq<Element>)
      ensures kept == Without(vs, v)
    {
      kept := [];
      for i := 0 to |vs|
        invariant Without(vs, v) == kept + Without(vs[i..], v)
      {
        WithoutStep(vs, v, i);
        if vs[i] != v {
          kept := kept + [vs[i]];
        }
      }
    }

    method FilterAliases(start: seq<Alias>, ip: Addr) returns (aliases: seq<Alias>, empty: bool)
      ensures aliases == FlatMap(start, TakeOut(ip))
      ensures empty <==> Empties(start, ip)
    {
      aliases, empty := [], false;
      for i := 0 to |start|
        invariant aliases == FlatMap(start[..i], TakeOut(ip))
        invariant empty <==> Empties(start[..i], ip)
      {
        FlatMapStep(start, i, TakeOut(ip));
        assert start[..i + 1][..i] == start[..i];
        var a := start[i];
        if a.name == BLOCKLIST {
          var kept := FilterValues(a.values, Host(ip));
          a := a.(values := kept);
          empty := |kept| == 0;
        }
        aliases := aliases + [a];
      }
      assert start[..|start|] == start;
    }

    method UnblockIp(ip: Addr)
      modifies this
      ensures cfg == Unblock(old(cfg), ip)
    {
      var aliases, empty := FilterAliases(cfg.aliases, ip);
      var rules := cfg.rules;
      if empty {
        aliases := Collect(aliases, KeepAlias());
        rules := Collect(rules, KeepRule());
      }
      cfg := cfg.(aliases := aliases, rules := rules);
    }
  }

  // ---- runs ------------------------------------------------------------------------------------------

  datatype Step = BlockStep(ip: Addr) | UnblockStep(ip: Addr)

  function Apply(c: Config, s: Step): Config {
    match s
    case BlockStep(ip) => Block(c, ip)
    case UnblockStep(ip) => Unblock(c, ip)
  }

  function After(c: Config, run: seq<Step>): Config {
    if run == [] then c else Apply(After(c, run[..|run| - 1]), run[|run| - 1])
  }

  /** The last step about an address was to block it. */
  predicate Blocked(run: seq<Step>, x: Addr) {
    run != [] &&
    var s := run[|run| - 1];
    if s.ip == x then s.BlockStep? else Blocked(run[..|run| - 1], x)
  }

  ghost predicate Clean(c: Config) { !HasAlias(c.aliases) && !HasRule(c.rules) }

  function Hosts(ips: seq<Addr>): seq<Element> {
    seq(|ips|, i requires 0 <= i < |ips| => Host(ips[i]))
  }

  function HoldAliases(as_: seq<Alias>, ips: seq<Addr>): seq<Alias> {
    if ips == [] then as_ else as_ + [Alias(BLOCKLIST, HostAlias, Hosts(ips))]
  }

  function HoldRules(rs: seq<CustomRule>, ips: seq<Addr>): seq<CustomRule> {
    if ips == [] then rs else [DROP_RULE] + rs
  }

  /** The configuration with exactly these addresses blocked. */
  function Holding(c: Config, ips: seq<Addr>): Config {
    c.(aliases := HoldAliases(c.aliases, ips), rules := HoldRules(c.rules, ips))
  }

  lemma HostsMembers(ips: seq<Addr>, x: Addr)
    ensures Host(x) in Hosts(ips) <==> x in ips
  {
    if x in ips {
      var i :| 0 <= i < |ips| && ips[i] == x;
      assert Hosts(ips)[i] == Host(x);
    }
  }

  lemma AddToLast(as_: seq<Alias>, a: Alias, ip: Addr)
    requires !HasAlias(as_) && a.name == BLOCKLIST
    ensures AddTo(as_ + [a], ip) == as_ + [Marked(a, ip, Host(ip) in a.values)]
  {
    var all, n := as_ + [a], |as_|;
    assert all[n] == a && all[..n + 1] == all;
    assert Seen(all, ip) <==> Host(ip) in a.values;
  }

  lemma BlockHeldAliases(as_: seq<Alias>, ips: seq<Addr>, ip: Addr)
    requires !HasAlias(as_)
    ensures BlockAliases(HoldAliases(as_, ips), ip) == HoldAliases(as_, if ip in ips then ips else ips + [ip])
  {
    HostsMembers(ips, ip);
    if ips == [] {
      assert ips + [ip] == [ip] && Hosts([ip]) == [Host(ip)];
    } else {
      var h, a := HoldAliases(as_, ips), Alias(BLOCKLIST, HostAlias, Hosts(ips));
      assert h[|as_|] == a;
      assert HasAlias(h);
      AddToLast(as_, a, ip);
      assert Hosts(ips + [ip]) == Hosts(ips) + [Host(ip)];
    }
  }

  lemma BlockHolding(c: Config, ips: seq<Addr>, ip: Addr)
    requires Clean(c)
    ensures Block(Holding(c, ips), ip) == Holding(c, if ip in ips then ips else ips + [ip])
  {
    BlockHeldAliases(c.aliases, ips, ip);
    BlockHeldRules(c.rules, ips, if ip in ips then ips else ips + [ip]);
  }

  lemma BlockHeldRules(rs: seq<CustomRule>, ips: seq<Addr>, after: seq<Addr>)
    requires !HasRule(rs) && after != []
    ensures BlockRules(HoldRules(rs, ips)) == HoldRules(rs, after)
  {
    if ips != [] {
      assert HoldRules(rs, ips)[0] == DROP_RULE;
    }
  }

  lemma {:induction false} KeepAllAliases(as_: seq<Alias>, ip: Addr)
    requires !HasAlias(as_)
    ensures FlatMap(as_, TakeOut(ip)) == as_ && FlatMap(as_, KeepAlias()) == as_ && !Empties(as_, ip)
    decreases |as_|
  {
    if as_ != [] {
      var n := |as_| - 1;
      assert forall i :: 0 <= i < n ==> as_[..n][i] == as_[i];
      KeepAllAliases(as_[..n], ip);
      FlatMapStep(as_, n, TakeOut(ip));
      FlatMapStep(as_, n, KeepAlias());
      assert as_[..n + 1] == as_ && as_[..n] + [as_[n]] == as_;
    }
  }

  lemma {:induction false} KeepAllRules(rs: seq<CustomRule>)
    requires !HasRule(rs)
    ensures FlatMap(rs, KeepRule()) == rs
  {
    if rs != [] {
      assert forall i :: 0 <= i < |rs[1..]| ==> rs[1..][i] == rs[i + 1];
      KeepAllRules(rs[1..]);
    }
  }

  lemma {:induction false} WithoutHosts(ips: seq<Addr>, ip: Addr)
    ensures Without(Hosts(ips), Host(ip)) == Hosts(Without(ips, ip))
  {
    if ips != [] {
      WithoutHosts(ips[1..], ip);
      assert Hosts(ips)[1..] == Hosts(ips[1..]);
      assert Hosts(Without(ips, ip)) == Hosts(if ips[0] == ip then [] else [ips[0]]) + Hosts(Without(ips[1..], ip));
    }
  }

  lemma UnblockHeldAliases(as_: seq<Alias>, ips: seq<Addr>, ip: Addr)
    requires !HasAlias(as_) && ips != []
    ensures UnblockAliases(HoldAliases(as_, ips), ip) == HoldAliases(as_, Without(ips, ip))
    ensures Empties(HoldAliases(as_, ips), ip) <==> Without(ips, ip) == []
  {
    var h, n, rest := HoldAliases(as_, ips), |as_|, Without(ips, ip);
    var b := Alias(BLOCKLIST, HostAlias, Hosts(rest));
    KeepAllAliases(as_, ip);
    WithoutHosts(ips, ip);
    assert h[..n] == as_ && h[..n + 1] == h;
    FlatMapStep(h, n, TakeOut(ip));
    var kept := FlatMap(h, TakeOut(ip));
    assert kept == as_ + [b];
    if rest == [] {
      assert kept[..n] == as_ && kept[..n + 1] == kept;
      FlatMapStep(kept, n, KeepAlias());
    }
  }

  lemma UnblockHolding(c: Config, ips: seq<Addr>, ip: Addr)
    requires Clean(c)
    ensures Unblock(Holding(c, ips), ip) == Holding(c, Without(ips, ip))
  {
    if ips == [] {
      KeepAllAliases(c.aliases, ip);
    } else {
      UnblockHeldAliases(c.aliases, ips, ip);
      KeepAllRules(c.rules);
      assert ([DROP_RULE] + c.rules)[1..] == c.rules;
    }
  }

  lemma {:induction false} WithoutMembers(ips: seq<Addr>, ip: Addr, x: Addr)
    requires forall i, j :: 0 <= i < j < |ips| ==> ips[i] != ips[j]
    ensures x in Without(ips, ip) <==> x in ips && x != ip
    ensures forall i, j :: 0 <= i < j < |Without(ips, ip)| ==> Without(ips, ip)[i] != Without(ips, ip)[j]
  {
    if ips != [] {
      WithoutMembers(ips[1..], ip, x);
      if ips[0] != ip {
        WithoutMembers(ips[1..], ip, ips[0]);
      }
      assert ips == [ips[0]] + ips[1..];
    }
  }

  /** After any run of blocks and unblocks, the configuration is the original one plus exactly the
      currently blocked addresses, each once: nothing else moves, and nothing is left behind. */
  lemma {:induction false} RunHoldsExactlyTheBlocked(c: Config, run: seq<Step>) returns (ips: seq<Addr>)
    requires Clean(c)
    ensures After(c, run) == Holding(c, ips)
    ensures forall x: Addr :: x in ips <==> Blocked(run, x)
    ensures forall i, j :: 0 <= i < j < |ips| ==> ips[i] != ips[j]
  {
    if run == [] {
      ips := [];
    } else {
      var s := run[|run| - 1];
      var before := RunHoldsExactlyTheBlocked(c, run[..|run| - 1]);
      match s
      case BlockStep(ip) =>
        BlockHolding(c, before, ip);
        ips := if ip in before then before else before + [ip];
      case UnblockStep(ip) =>
        UnblockHolding(c, before, ip);
        ips := Without(before, ip);
        forall x: Addr ensures x in ips <==> Blocked(run, x) {
          WithoutMembers(before, ip, x);
        }
        WithoutMembers(before, ip, ip);
    }
  }

  lemma BlocklistNamesAreValid()
    ensures ValidAliasName(BLOCKLIST) && ValidRuleName(BLOCK_RULE) && BLOCKLIST != ""
  {
  }

  lemma HoldingIsValid(c: Config, ips: seq<Addr>)
    requires Clean(c) && ObjectsOk(c)
    ensures ObjectsOk(Holding(c, ips))
  {
    if ips != [] {
      var h := Holding(c, ips);
      BlocklistNamesAreValid();
      assert AliasesOk(h.aliases);
      assert AliasNames(h.aliases) == AliasNames(c.aliases) + {BLOCKLIST} by {
        assert h.aliases[|c.aliases|].name == BLOCKLIST;
        forall i | 0 <= i < |c.aliases| ensures c.aliases[i].name in AliasNames(h.aliases) {
          assert h.aliases[i] == c.aliases[i];
        }
      }
      assert forall i :: 0 < i < |h.rules| ==> h.rules[i] == c.rules[i - 1];
      assert RuleOk(DROP_RULE, AliasNames(h.aliases), ZoneNames(h.zones));
    }
  }

  /** What becomes of a packet from a blocked address: connections already open go on, and with inspection
      on a new one is queued before the drop rule is reached. */
  ghost function BlockedVerdict(c: Config, p: Packet): Verdict {
    if p.ct == Established || p.ct == Related then Accept
    else if c.gatewayEnabled && c.ipsEnabled && p.ct == New && !InBlocks(c.geo, p.src) then Queue
    else Drop
  }

  lemma {:induction false} BlockedPacketIsDropped(c: Config, ips: seq<Addr>, p: Packet)
    requires Clean(c) && ObjectsOk(c) && p.src in ips
    ensures Run(ForwardRules(Holding(c, ips)), Drop, Sets(Holding(c, ips)), p) == BlockedVerdict(c, p)
  {
    HoldingIsValid(c, ips);
    ForwardChainMeansPolicy(Holding(c, ips), p);
    DropRuleDecides(c, ips, p);
    HoldingIsActive(c, ips);
  }

  lemma HoldingIsActive(c: Config, ips: seq<Addr>)
    requires ips != []
    ensures ForwardActive(Holding(c, ips))
  {
    assert Holding(c, ips).rules[0] == DROP_RULE;
  }

  lemma {:induction false} DropRuleDecides(c: Config, ips: seq<Addr>, p: Packet)
    requires Clean(c) && p.src in ips
    ensures CustomDecision(Holding(c, ips), p) == Some(Drop)
  {
    var h := Holding(c, ips);
    DropRuleAppliesExactly(c, ips, p);
    assert h.rules[0] == DROP_RULE;
    DecisionOf(h, p, 0);
  }

  lemma {:induction false} DropRuleAppliesExactly(c: Config, ips: seq<Addr>, p: Packet)
    requires Clean(c) && ips != []
    ensures Applies(Holding(c, ips), DROP_RULE, p) <==> p.src in ips
  {
    BlocklistHoldsExactly(c, ips, p.src);
    BlocklistNamesAreValid();
  }

  /** The alias holds exactly the blocked addresses, and every other alias what it held. */
  lemma {:induction false} BlocklistHoldsExactly(c: Config, ips: seq<Addr>, x: Addr)
    requires Clean(c)
    ensures InAlias(Holding(c, ips), BLOCKLIST, x) <==> x in ips
  {
    var h, n := Holding(c, ips), |c.aliases|;
    HostsMembers(ips, x);
    assert forall i :: 0 <= i < n ==> h.aliases[i] == c.aliases[i];
    if x in ips {
      var i :| 0 <= i < |ips| && Hosts(ips)[i] == Host(x);
      assert InElement(Hosts(ips)[i], x);
      assert h.aliases[n].name == BLOCKLIST && InElements(h.aliases[n].values, x);
    }
  }

  lemma {:induction false} OtherAliasesHold(c: Config, ips: seq<Addr>, name: string, x: Addr)
    requires name != BLOCKLIST
    ensures InAlias(Holding(c, ips), name, x) <==> InAlias(c, name, x)
  {
    var h := Holding(c, ips);
    assert forall i :: 0 <= i < |c.aliases| ==> h.aliases[i] == c.aliases[i];
  }

  // ---- packets from addresses that are not blocked -----------------------------------------------------

  lemma CleanAliasNames(c: Config)
    requires Clean(c)
    ensures BLOCKLIST !in AliasNames(c.aliases)
  {
  }

  lemma RulesNameOtherAliases(c: Config, i: nat)
    requires Clean(c) && ObjectsOk(c) && i < |c.rules|
    ensures c.rules[i].srcAlias != BLOCKLIST && c.rules[i].dstAlias != BLOCKLIST
  {
    CleanAliasNames(c);
    BlocklistNamesAreValid();
    assert RuleOk(c.rules[i], AliasNames(c.aliases), ZoneNames(c.zones));
  }

  lemma {:induction false} RuleAppliesAsBefore(c: Config, ips: seq<Addr>, r: CustomRule, p: Packet)
    requires r.srcAlias != BLOCKLIST && r.dstAlias != BLOCKLIST
    ensures Applies(Holding(c, ips), r, p) <==> Applies(c, r, p)
  {
    OtherAliasesHold(c, ips, r.srcAlias, p.src);
    OtherAliasesHold(c, ips, r.dstAlias, p.dst);
    assert Holding(c, ips).zones == c.zones;
  }

  lemma {:induction false} RulesDecideAsBefore(c: Config, ips: seq<Addr>, p: Packet)
    requires Clean(c) && ObjectsOk(c) && p.src !in ips
    ensures CustomDecision(Holding(c, ips), p) == CustomDecision(c, p)
  {
    var h, k := Holding(c, ips), FirstFrom(c, p, 0);
    if ips != [] {
      DropRuleAppliesExactly(c, ips, p);
      assert h.rules[0] == DROP_RULE && forall j :: 0 < j < |h.rules| ==> h.rules[j] == c.rules[j - 1];
      forall j | 0 <= j < |c.rules| ensures Applies(h, c.rules[j], p) <==> Applies(c, c.rules[j], p) {
        RulesNameOtherAliases(c, j);
        RuleAppliesAsBefore(c, ips, c.rules[j], p);
      }
      assert FirstApplicable(h, p, k + 1);
      DecisionOf(h, p, k + 1);
      DecisionOf(c, p, k);
    }
  }

  ghost predicate NamesBlocklist(a: OvpnAccess, p: Packet) {
    a.addr == Some(p.src) &&
    exists j :: 0 <= j < |a.rules| && a.rules[j].destAlias == BLOCKLIST && ServiceAllows(a.rules[j].proto, a.rules[j].port, p)
  }

  /** A VPN grant that names the alias, for the packet's source and service: it lies dormant while there is
      no such alias. */
  ghost predicate DormantGrant(c: Config, p: Packet) {
    c.ovpnIface != "" && p.iif == c.ovpnIface && p.ct == New &&
    exists i :: 0 <= i < |c.ovpnAccess| && NamesBlocklist(c.ovpnAccess[i], p)
  }

  lemma {:induction false} RuleAllowsWithBlocklist(c: Config, ips: seq<Addr>, r: OvpnRule, p: Packet)
    requires Clean(c)
    ensures OvpnRuleAllows(Holding(c, ips), r, p) <==>
      || OvpnRuleAllows(c, r, p)
      || (r.destAlias == BLOCKLIST && ServiceAllows(r.proto, r.port, p) && p.dst in ips)
  {
    BlocklistNamesAreValid();
    if r.destAlias == BLOCKLIST {
      BlocklistHoldsExactly(c, ips, p.dst);
      assert !InAlias(c, BLOCKLIST, p.dst);
    } else {
      OtherAliasesHold(c, ips, r.destAlias, p.dst);
    }
  }

  lemma {:induction false} ClientAllowsWithBlocklist(c: Config, ips: seq<Addr>, a: OvpnAccess, p: Packet)
    requires Clean(c)
    ensures OvpnClientAllows(Holding(c, ips), a, p) <==>
            OvpnClientAllows(c, a, p) || (NamesBlocklist(a, p) && p.dst in ips)
  {
    var h := Holding(c, ips);
    forall j | 0 <= j < |a.rules|
      ensures OvpnRuleAllows(h, a.rules[j], p) <==>
        || OvpnRuleAllows(c, a.rules[j], p)
        || (a.rules[j].destAlias == BLOCKLIST && ServiceAllows(a.rules[j].proto, a.rules[j].port, p) && p.dst in ips)
    {
      RuleAllowsWithBlocklist(c, ips, a.rules[j], p);
    }
  }

  lemma {:induction false} GrantsWithBlocklist(c: Config, ips: seq<Addr>, p: Packet)
    requires Clean(c)
    ensures Granted(Holding(c, ips), p) <==> Granted(c, p) || (DormantGrant(c, p) && p.dst in ips)
  {
    var h := Holding(c, ips);
    forall i | 0 <= i < |c.ovpnAccess|
      ensures OvpnClientAllows(h, c.ovpnAccess[i], p) <==>
              OvpnClientAllows(c, c.ovpnAccess[i], p) || (NamesBlocklist(c.ovpnAccess[i], p) && p.dst in ips)
    {
      ClientAllowsWithBlocklist(c, ips, c.ovpnAccess[i], p);
    }
    assert OvpnGrant(h, p) <==> OvpnGrant(c, p) || (DormantGrant(c, p) && p.dst in ips);
  }

  /** Past conntrack, geo-block, inspection and rules, the packet would be dropped for want of a grant. */
  ghost predicate LacksOnlyAGrant(c: Config, p: Packet) {
    !InBlocks(c.geo, p.src) && !(c.gatewayEnabled && c.ipsEnabled) && CustomDecision(c, p).None? && !Granted(c, p)
  }

  /** Blocking changes the verdict on a packet from an address that is not blocked in two cases only: open
      connections start to pass on a host whose chain was empty, and a dormant grant comes to life for a
      destination that is now blocked. */
  ghost predicate Disturbs(c: Config, p: Packet, any: bool, dstBlocked: bool) {
    || (any && !ForwardActive(c) && (p.ct == Established || p.ct == Related))
    || (dstBlocked && DormantGrant(c, p) && LacksOnlyAGrant(c, p))
  }

  /** Two policies that differ only in whether the chain is active and in a further grant. */
  lemma {:induction false} PoliciesDiffer(h: Config, c: Config, p: Packet, more: bool)
    requires h.geo == c.geo && h.gatewayEnabled == c.gatewayEnabled && h.ipsEnabled == c.ipsEnabled
    requires CustomDecision(h, p) == CustomDecision(c, p) && (Granted(h, p) <==> Granted(c, p) || more)
    requires ForwardActive(h) && (more ==> p.ct == New)
    ensures Policy(h, p) == Policy(c, p) <==>
      && !(!ForwardActive(c) && (p.ct == Established || p.ct == Related))
      && !(more && LacksOnlyAGrant(c, p))
  {
    if !ForwardActive(c) {
      if p.ct == Established || p.ct == Related || p.ct == Invalid {
        InactiveDropsReplies(c, p);
      }
    }
  }

  lemma {:induction false} OthersPolicyIsExact(c: Config, ips: seq<Addr>, p: Packet)
    requires Clean(c) && ObjectsOk(c) && p.src !in ips
    ensures Policy(Holding(c, ips), p) == Policy(c, p) <==> !Disturbs(c, p, ips != [], p.dst in ips)
  {
    if ips == [] {
      assert Holding(c, ips) == c;
    } else {
      RulesDecideAsBefore(c, ips, p);
      GrantsWithBlocklist(c, ips, p);
      HoldingIsActive(c, ips);
      PoliciesDiffer(Holding(c, ips), c, p, DormantGrant(c, p) && p.dst in ips);
    }
  }

  lemma {:induction false} InactiveDropsReplies(c: Config, p: Packet)
    requires !ForwardActive(c) && (p.ct == Established || p.ct == Related || p.ct == Invalid)
    ensures Policy(c, p) == Drop
  {
    assert CustomDecision(c, p).None? && !TunnelGrant(c, p) && !OvpnGrant(c, p);
  }

  lemma {:induction false} OthersVerdictIsExact(c: Config, ips: seq<Addr>, p: Packet)
    requires Clean(c) && ObjectsOk(c) && p.src !in ips
    ensures Run(ForwardRules(Holding(c, ips)), Drop, Sets(Holding(c, ips)), p) == Run(ForwardRules(c), Drop, Sets(c), p) <==>
            !Disturbs(c, p, ips != [], p.dst in ips)
  {
    HoldingIsValid(c, ips);
    ForwardChainMeansPolicy(Holding(c, ips), p);
    ForwardChainMeansPolicy(c, p);
    OthersPolicyIsExact(c, ips, p);
  }

  ghost predicate SomeBlocked(run: seq<Step>) { exists x: Addr :: Blocked(run, x) }

  /** Over every run, a packet from an address that is not blocked is treated as before, but for those cases. */
  lemma {:induction false} RunSparesOthersExactly(c: Config, run: seq<Step>, p: Packet)
    requires Clean(c) && ObjectsOk(c) && !Blocked(run, p.src)
    ensures Run(ForwardRules(After(c, run)), Drop, Sets(After(c, run)), p) == Run(ForwardRules(c), Drop, Sets(c), p) <==>
            !Disturbs(c, p, SomeBlocked(run), Blocked(run, p.dst))
  {
    var ips := RunHoldsExactlyTheBlocked(c, run);
    assert ips != [] <==> SomeBlocked(run) by {
      if ips != [] {
        assert Blocked(run, ips[0]);
      }
    }
    OthersVerdictIsExact(c, ips, p);
  }

  /** Every run keeps the objects valid, gives every forwarded packet from a blocked address exactly the
      verdict above, and is back at the original configuration when nothing is blocked any more. */
  lemma RunIsSafe(c: Config, run: seq<Step>)
    requires Clean(c) && ObjectsOk(c)
    ensures ObjectsOk(After(c, run))
    ensures forall p: Packet :: Blocked(run, p.src) ==>
              Run(ForwardRules(After(c, run)), Drop, Sets(After(c, run)), p) == BlockedVerdict(c, p)
    ensures (forall x: Addr :: !Blocked(run, x)) ==> After(c, run) == c
  {
    var ips := RunHoldsExactlyTheBlocked(c, run);
    HoldingIsValid(c, ips);
    forall p: Packet | Blocked(run, p.src)
      ensures Run(ForwardRules(After(c, run)), Drop, Sets(After(c, run)), p) == BlockedVerdict(c, p)
    {
      BlockedPacketIsDropped(c, ips, p);
    }
    if ips != [] {
      assert Blocked(run, ips[0]);
    }
  }

  // ---- configurations that already use the name -----------------------------------------------------

  /** With an alias of that name already present, blocking keeps the configuration valid exactly
      when the alias is a host alias: the address is appended whatever the type. */
  lemma BlockKeepsValidityExactly(c: Config, ip: Addr, i: nat)
    requires ObjectsOk(c) && i < |c.aliases| && c.aliases[i].name == BLOCKLIST
    ensures ObjectsOk(Block(c, ip)) <==> c.aliases[i].kind == HostAlias
  {
    var b := Block(c, ip);
    BlocklistNamesAreValid();
    assert AliasOk(c.aliases[i]);
    if c.aliases[i].kind == HostAlias {
      BlockStaysValid(c, ip, i);
    } else {
      assert !Seen(c.aliases[..i + 1], ip);
      var n := |c.aliases[i].values|;
      assert b.aliases[i].values[n] == Host(ip);
      assert !ValidAliasValue(b.aliases[i].kind, b.aliases[i].values[n]);
      assert !AliasOk(b.aliases[i]);
    }
  }

  lemma BlockedAliasesStayOk(as_: seq<Alias>, ip: Addr, i: nat)
    requires AliasesOk(as_) && i < |as_| && as_[i].name == BLOCKLIST && as_[i].kind == HostAlias
    ensures AliasesOk(AddTo(as_, ip)) && AliasNames(AddTo(as_, ip)) == AliasNames(as_)
  {
    var b := AddTo(as_, ip);
    forall k | 0 <= k < |b| ensures AliasOk(b[k]) && b[k].name == as_[k].name {
      assert AliasOk(as_[k]);
      assert as_[k].name == BLOCKLIST ==> k == i;
    }
    forall s ensures s in AliasNames(b) <==> s in AliasNames(as_) {
      if k :| 0 <= k < |b| && b[k].name == s { assert as_[k].name == s; }
      if k :| 0 <= k < |b| && as_[k].name == s { assert b[k].name == s; }
    }
  }

  lemma BlockedRulesStayOk(rs: seq<CustomRule>, aliasNames: set<string>, zoneNames: set<string>)
    requires RulesOk(rs, aliasNames, zoneNames) && BLOCKLIST in aliasNames
    ensures RulesOk(BlockRules(rs), aliasNames, zoneNames)
  {
    BlocklistNamesAreValid();
    assert RuleOk(DROP_RULE, aliasNames, zoneNames);
  }

  lemma BlockStaysValid(c: Config, ip: Addr, i: nat)
    requires ObjectsOk(c) && i < |c.aliases| && c.aliases[i].name == BLOCKLIST && c.aliases[i].kind == HostAlias
    ensures ObjectsOk(Block(c, ip))
  {
    BlockedAliasesStayOk(c.aliases, ip, i);
    assert BLOCKLIST in AliasNames(c.aliases);
    BlockedRulesStayOk(c.rules, AliasNames(c.aliases), ZoneNames(c.zones));
  }

  lemma SameServices(b: Config, c: Config, p: Packet)
    requires b == c.(aliases := b.aliases, rules := b.rules)
    ensures AclRows(b) == AclRows(c)
    ensures InputMeaning.ServiceAllowed(b, p) <==> InputMeaning.ServiceAllowed(c, p)
  {
    FlatMapSame(c.serviceAcls, ResolveAcl(b), ResolveAcl(c));
    assert AclRows(b) == AclRows(c);
    forall i | 0 <= i < |AclRows(c)|
      ensures InputMeaning.RowAllows(b, AclRows(b)[i], p) <==> InputMeaning.RowAllows(c, AclRows(c)[i], p)
    {
      assert InputMeaning.VpnPort(b, p.dport) <==> InputMeaning.VpnPort(c, p.dport);
    }
    assert Internal(b, p.src) <==> Internal(c, p.src);
  }

  /** Blocking never touches management: the input chain treats every packet as before. */
  lemma BlockingSparesTheInputChain(c: Config, ip: Addr, p: Packet)
    ensures Run(InputChain.InputRules(Block(c, ip)), Drop, Sets(Block(c, ip)), p) ==
            Run(InputChain.InputRules(c), Drop, Sets(c), p)
  {
    var b := Block(c, ip);
    InputMeaning.InputChainMeansPolicy(b, p);
    InputMeaning.InputChainMeansPolicy(c, p);
    SameServices(b, c, p);
  }
}
