/** The rule tester: a second evaluator of the custom rules, working on names and
    networks instead of interfaces and sets. */
module RuleTester {
  import opened Ipv4
  import opened Sequences
  import opened Nft
  import opened GatewayConfig
  import opened FilterSets
  import opened ForwardChain
  import opened ForwardMeaning

  /** A synthetic packet: an unparsable address is None, protocol "any" and port 0 are wildcards. */
  datatype Probe = Probe(src: Option<Addr>, dst: Option<Addr>, proto: Service, dport: int)

  datatype RuleEval = NoRule | Matched(name: string, index: nat, action: Action)

  function AliasMap(as_: seq<Alias>): map<string, Alias> {
    if as_ == [] then map[] else
    var a := as_[|as_| - 1];
    AliasMap(as_[..|as_| - 1])[a.name := a]
  }

  predicate AliasContains(a: Alias, x: Addr) {
    exists i :: 0 <= i < |a.values| && ValidAliasValue(a.kind, a.values[i]) && InElement(a.values[i], x)
  }

  predicate SideMatches(aliases: map<string, Alias>, name: string, x: Option<Addr>) {
    name == "" || (name in aliases && x.Some? && AliasContains(aliases[name], x.value))
  }

  /** Name of the first zone whose network contains the address, or "". */
  function ZoneOf(zs: seq<Zone>, x: Option<Addr>): string {
    if zs == [] || x.None? then ""
    else if zs[0].network.Some? && Contains(zs[0].network.value, x.value) then zs[0].name
    else ZoneOf(zs[1..], x)
  }

  predicate TesterMatches(c: Config, r: CustomRule, t: Probe) {
    && (r.fromZone == "" || r.fromZone == ZoneOf(c.zones, t.src))
    && (r.toZone == "" || r.toZone == ZoneOf(c.zones, t.dst))
    && SideMatches(AliasMap(c.aliases), r.srcAlias, t.src)
    && SideMatches(AliasMap(c.aliases), r.dstAlias, t.dst)
    && (r.proto == AnyProto || t.proto == AnyProto || r.proto == t.proto)
    && (r.dstPort == 0 || t.dport == 0 || r.dstPort == t.dport)
  }

  function CountEnabled(rs: seq<CustomRule>): nat {
    if rs == [] then 0 else CountEnabled(rs[..|rs| - 1]) + if rs[|rs| - 1].enabled then 1 else 0
  }

  ghost predicate TesterFirst(c: Config, t: Probe, k: nat) {
    && k <= |c.rules|
    && (k < |c.rules| ==> c.rules[k].enabled && TesterMatches(c, c.rules[k], t))
    && forall j :: 0 <= j < k ==> !(c.rules[j].enabled && TesterMatches(c, c.rules[j], t))
  }

  /** What the tester reports when its first matching rule is k. */
  function Report(c: Config, k: nat): RuleEval
    requires k <= |c.rules|
  {
    if k == |c.rules| then NoRule
    else Matched(c.rules[k].name, CountEnabled(c.rules[..k]) + 1, c.rules[k].action)
  }

  method EvaluateForward(c: Config, t: Probe) returns (r: RuleEval)
    ensures exists k :: TesterFirst(c, t, k) && r == Report(c, k)
  {
    var aliases: map<string, Alias> := map[];
    for i := 0 to |c.aliases|
      invariant aliases == AliasMap(c.aliases[..i])
    {
      assert c.aliases[..i + 1][..i] == c.aliases[..i];
      aliases := aliases[c.aliases[i].name := c.aliases[i]];
    }
    assert c.aliases[..|c.aliases|] == c.aliases;
    var srcZone, dstZone := ZoneOf(c.zones, t.src), ZoneOf(c.zones, t.dst);
    var idx := 0;
    for i := 0 to |c.rules|
      invariant idx == CountEnabled(c.rules[..i])
      invariant forall j :: 0 <= j < i ==> !(c.rules[j].enabled && TesterMatches(c, c.rules[j], t))
    {
      var r := c.rules[i];
      assert c.rules[..i + 1][..i] == c.rules[..i];
      if !r.enabled {
        continue;
      }
      idx := idx + 1;
      if r.fromZone != "" && r.fromZone != srcZone { continue; }
      if r.toZone != "" && r.toZone != dstZone { continue; }
      if !SideMatches(aliases, r.srcAlias, t.src) { continue; }
      if !SideMatches(aliases, r.dstAlias, t.dst) { continue; }
      if r.proto != AnyProto && t.proto != AnyProto && r.proto != t.proto { continue; }
      if r.dstPort != 0 && t.dport != 0 && r.dstPort != t.dport { continue; }
      assert TesterFirst(c, t, i);
      return Matched(r.name, idx, r.action);
    }
    assert TesterFirst(c, t, |c.rules|);
    return NoRule;
  }

  // ---- the tester and the compiled rules ---------------------------------------------------------

  lemma {:induction false} AliasMapFinds(as_: seq<Alias>, name: string)
    requires AliasesOk(as_)
    ensures name in AliasMap(as_) <==> exists i :: 0 <= i < |as_| && as_[i].name == name
    ensures forall i :: 0 <= i < |as_| && as_[i].name == name ==> name in AliasMap(as_) && AliasMap(as_)[name] == as_[i]
  {
    if as_ != [] {
      var n := |as_| - 1;
      AliasMapFinds(as_[..n], name);
      assert forall i :: 0 <= i < n ==> as_[..n][i] == as_[i];
    }
  }

  lemma SideMatchesIsSetMembership(c: Config, name: string, x: Addr)
    requires AliasesOk(c.aliases)
    ensures SideMatches(AliasMap(c.aliases), name, Some(x)) <==> (name == "" || InAlias(c, name, x))
  {
    AliasMapFinds(c.aliases, name);
    forall i | 0 <= i < |c.aliases|
      ensures AliasContains(c.aliases[i], x) <==> InElements(c.aliases[i].values, x)
    {
      assert AliasOk(c.aliases[i]);
    }
  }

  // ---- where the tester places an address ----------------------------------------------------------

  predicate InZone(z: Zone, x: Addr) { z.network.Some? && Contains(z.network.value, x) }

  /** Zone i is the first whose network contains the address. */
  ghost predicate Home(zs: seq<Zone>, x: Addr, i: nat) {
    i < |zs| && InZone(zs[i], x) && forall j :: 0 <= j < i ==> !InZone(zs[j], x)
  }

  ghost predicate Homeless(zs: seq<Zone>, x: Addr) {
    forall i :: 0 <= i < |zs| ==> !InZone(zs[i], x)
  }

  lemma {:induction false} HomeIsFound(zs: seq<Zone>, x: Addr) returns (i: nat)
    ensures i <= |zs| && (i == |zs| <==> Homeless(zs, x))
    ensures i < |zs| ==> Home(zs, x, i) && ZoneOf(zs, Some(x)) == zs[i].name
    ensures i == |zs| ==> ZoneOf(zs, Some(x)) == ""
  {
    i := 0;
    if zs != [] && !InZone(zs[0], x) {
      var k := HomeIsFound(zs[1..], x);
      i := k + 1;
      assert forall j :: 0 < j < |zs| ==> zs[j] == zs[1..][j - 1];
      assert forall j :: 0 <= j < |zs[1..]| ==> zs[1..][j] == zs[j + 1];
    }
  }

  /** The tester names the first zone whose network contains the address, and none exactly when no network
      does; an unparsable address is in no zone. */
  lemma ZoneOfIsHome(zs: seq<Zone>, x: Addr)
    requires ZonesOk(zs)
    ensures forall i :: 0 <= i < |zs| ==> (ZoneOf(zs, Some(x)) == zs[i].name <==> Home(zs, x, i))
    ensures ZoneOf(zs, Some(x)) == "" <==> Homeless(zs, x)
    ensures ZoneOf(zs, None) == ""
  {
    var k := HomeIsFound(zs, x);
    forall i | 0 <= i < |zs| ensures ZoneOf(zs, Some(x)) == zs[i].name <==> Home(zs, x, i) {
      HomeIsOnlyOne(zs, x, k, i);
    }
    if k < |zs| {
      assert ZoneOk(zs[k]);
    }
  }

  /** Among zones with distinct names and interfaces, the home is known by either. */
  lemma HomeIsOnlyOne(zs: seq<Zone>, x: Addr, k: nat, i: nat)
    requires ZonesOk(zs) && i < |zs| && if k < |zs| then Home(zs, x, k) else Homeless(zs, x)
    ensures zs[i].name != "" && zs[i].IfaceName() != ""
    ensures Home(zs, x, i) <==> i == k
    ensures i != k && k < |zs| ==> zs[i].name != zs[k].name && zs[i].IfaceName() != zs[k].IfaceName()
  {
    assert ZoneOk(zs[i]);
    if k < i && k < |zs| {
      assert InZone(zs[k], x);
    }
  }

  /** The packet enters (or leaves) where its address lives: on the interface of the first zone containing
      it, or on no zone's interface when there is none. */
  ghost predicate Placed(zs: seq<Zone>, x: Addr, iface: string) {
    forall i :: 0 <= i < |zs| ==> (zs[i].IfaceName() == iface <==> Home(zs, x, i))
  }

  lemma SomewherePlaced(zs: seq<Zone>, x: Addr) returns (iface: string)
    requires ZonesOk(zs)
    ensures Placed(zs, x, iface)
  {
    var k := HomeIsFound(zs, x);
    iface := if k < |zs| then zs[k].IfaceName() else "";
    forall i | 0 <= i < |zs| ensures zs[i].IfaceName() == iface <==> Home(zs, x, i) {
      HomeIsOnlyOne(zs, x, k, i);
    }
  }

  lemma PlacedDecidesZone(zs: seq<Zone>, name: string, x: Addr, iface: string)
    requires ZonesOk(zs) && Placed(zs, x, iface)
    requires name != "" ==> name in ZoneNames(zs)
    ensures OnZone(zs, name, iface) <==> (name == "" || name == ZoneOf(zs, Some(x)))
  {
    if name != "" {
      var i :| 0 <= i < |zs| && zs[i].name == name;
      ZoneOfIsHome(zs, x);
    }
  }

  // ---- probes and packets ---------------------------------------------------------------------------

  /** The protocols a probe's protocol stands for: "any" for all of them, an unknown word for none the
      rules can name. */
  predicate Covers(s: Service, t: Proto) {
    match s
    case AnyProto => true
    case TcpOnly => t == Tcp
    case UdpOnly => t == Udp
    case UnknownProto => t != Tcp && t != Udp
  }

  /** The packet is one of those the probe stands for. */
  ghost predicate Refines(c: Config, t: Probe, p: Packet) {
    && t.src == Some(p.src) && t.dst == Some(p.dst)
    && Covers(t.proto, p.proto) && (t.dport == 0 || t.dport == p.dport)
    && Placed(c.zones, p.src, p.iif) && Placed(c.zones, p.dst, p.oif)
  }

  /** The probe has no wildcard, so that nothing the rules look at is left open. */
  ghost predicate Realises(c: Config, t: Probe, p: Packet) {
    Refines(c, t, p) && t.proto != AnyProto && t.dport != 0
  }

  /** Zones and aliases mean the same to the tester and to the compiled rule. */
  lemma SidesAgree(c: Config, r: CustomRule, t: Probe, p: Packet)
    requires ObjectsOk(c) && RuleOk(r, AliasNames(c.aliases), ZoneNames(c.zones)) && Refines(c, t, p)
    ensures TesterMatches(c, r, t) <==>
      && Addressed(c, r.(proto := AnyProto), p)
      && (r.proto == AnyProto || t.proto == AnyProto || r.proto == t.proto)
      && (r.dstPort == 0 || t.dport == 0 || r.dstPort == t.dport)
    ensures Addressed(c, r, p) <==> Addressed(c, r.(proto := AnyProto), p) && ServiceAllows(r.proto, r.dstPort, p)
  {
    PlacedDecidesZone(c.zones, r.fromZone, p.src, p.iif);
    PlacedDecidesZone(c.zones, r.toZone, p.dst, p.oif);
    SideMatchesIsSetMembership(c, r.srcAlias, p.src);
    SideMatchesIsSetMembership(c, r.dstAlias, p.dst);
  }

  lemma RefinedIsMatched(c: Config, r: CustomRule, t: Probe, p: Packet)
    requires ObjectsOk(c) && RuleOk(r, AliasNames(c.aliases), ZoneNames(c.zones)) && Refines(c, t, p)
    ensures Addressed(c, r, p) ==> TesterMatches(c, r, t)
    ensures Realises(c, t, p) && TesterMatches(c, r, t) ==> Addressed(c, r, p)
  {
    SidesAgree(c, r, t, p);
  }

  /** Every schedule the validator accepts is in force at some time. */
  lemma ScheduleHasATime(s: Option<Schedule>) returns (second: nat, weekday: nat)
    requires ScheduleOk(s)
    ensures forall p: Packet :: p.second == second && p.weekday == weekday ==> ScheduleAllows(s, p)
  {
    second, weekday := 0, 0;
    if s.Some? && s.value.days != [] {
      weekday := s.value.days[0];
    }
    if s.Some? && s.value.start.Some? {
      second := s.value.start.value * 60;
    }
  }

  /** A packet the probe stands for, with any service and time the probe leaves open. */
  lemma SomeRefinement(c: Config, t: Probe, service: Service, dport: int, second: nat, weekday: nat) returns (p: Packet)
    requires ZonesOk(c.zones) && t.src.Some? && t.dst.Some?
    requires (t.proto == AnyProto || service == t.proto) && (t.dport == 0 || dport == t.dport)
    ensures Refines(c, t, p)
    ensures p.proto == ServiceProto(service) && p.dport == dport && p.second == second && p.weekday == weekday
  {
    var iif := SomewherePlaced(c.zones, t.src.value);
    var oif := SomewherePlaced(c.zones, t.dst.value);
    p := Packet(iif, oif, t.src.value, t.dst.value, ServiceProto(service), dport, OtherType, New, false, false, second, weekday, false);
  }

  /** A packet the probe stands for, taken by the rule if any is. */
  lemma MatchIsRefined(c: Config, r: CustomRule, t: Probe) returns (p: Packet)
    requires ObjectsOk(c) && RuleOk(r, AliasNames(c.aliases), ZoneNames(c.zones))
    requires t.src.Some? && t.dst.Some?
    ensures Refines(c, t, p)
    ensures TesterMatches(c, r, t) ==> Applies(c, r, p)
  {
    var second, weekday := ScheduleHasATime(r.schedule);
    p := SomeRefinement(c, t, if t.proto == AnyProto then r.proto else t.proto,
                        if t.dport != 0 then t.dport else r.dstPort, second, weekday);
    SidesAgree(c, r, t, p);
  }

  /** A rule matches a probe exactly when it applies to some packet, at some time, among those the probe
      stands for. */
  lemma MatchIsExact(c: Config, r: CustomRule, t: Probe)
    requires ObjectsOk(c) && RuleOk(r, AliasNames(c.aliases), ZoneNames(c.zones))
    requires t.src.Some? && t.dst.Some?
    ensures TesterMatches(c, r, t) <==> exists p :: Refines(c, t, p) && Applies(c, r, p)
  {
    if TesterMatches(c, r, t) {
      var p := MatchIsRefined(c, r, t);
    }
    if p :| Refines(c, t, p) && Applies(c, r, p) {
      RefinedIsMatched(c, r, t, p);
    }
  }

  /** An address the tester cannot parse matches exactly the rules that ask nothing of that side. */
  lemma UnparsedIsExact(c: Config, r: CustomRule, t: Probe, x: Addr)
    ensures TesterMatches(c, r, t.(src := None)) <==>
            r.fromZone == "" && r.srcAlias == "" && TesterMatches(c, r, t.(src := Some(x)))
    ensures TesterMatches(c, r, t.(dst := None)) <==>
            r.toZone == "" && r.dstAlias == "" && TesterMatches(c, r, t.(dst := Some(x)))
  {
    assert ZoneOf(c.zones, None) == "";
  }

  lemma {:induction false} EmittedPosition(c: Config, k: nat)
    requires k <= |c.rules|
    ensures |FlatMap(c.rules[..k], EmitCustom(c.zones))| == CountEnabled(c.rules[..k])
  {
    if k > 0 {
      EmittedPosition(c, k - 1);
      FlatMapStep(c.rules, k - 1, EmitCustom(c.zones));
      assert c.rules[..k][..k - 1] == c.rules[..k - 1];
    }
  }

  lemma NothingBefore(c: Config, t: Probe, p: Packet, k: nat)
    requires ObjectsOk(c) && Refines(c, t, p) && TesterFirst(c, t, k)
    ensures !AnyHit(FlatMap(c.rules[..k], EmitCustom(c.zones)), Sets(c), p)
  {
    var f := EmitCustom(c.zones);
    AnyHitFlatMap(c.rules[..k], f, Sets(c), p);
    forall j | 0 <= j < k ensures !AnyHit(f(c.rules[..k][j]), Sets(c), p) {
      var r := c.rules[j];
      if r.enabled {
        RefinedIsMatched(c, r, t, p);
        CompiledRuleIsExact(c, r, p);
        AnyHitOne(CompileRule(c.zones, r), Sets(c), p);
      }
    }
  }

  /** The report names rule k: its name, its action, and its place in the emitted block. */
  ghost predicate Names(c: Config, r: RuleEval, k: nat) {
    && k < |c.rules| && c.rules[k].enabled
    && r == Matched(c.rules[k].name, |FlatMap(c.rules[..k], EmitCustom(c.zones))| + 1, c.rules[k].action)
  }

  /** The report and the first hit in the emitted block name the same rule and action. */
  ghost predicate Agrees(c: Config, r: RuleEval, p: Packet) {
    var hit := FirstHit(CustomBlock(c), Sets(c), p);
    match r
    case NoRule => hit == |CustomBlock(c)|
    case Matched(_, index, action) =>
      && (exists k: nat :: Names(c, r, k))
      && hit == index - 1 && hit < |CustomBlock(c)| && CustomBlock(c)[hit].verdict == ActionVerdict(action)
  }

  lemma ReportAgreesExactly(c: Config, t: Probe, p: Packet, k: nat)
    requires ObjectsOk(c) && Refines(c, t, p) && TesterFirst(c, t, k)
    ensures Agrees(c, Report(c, k), p) <==> (k < |c.rules| ==> Applies(c, c.rules[k], p))
  {
    var f, sets := EmitCustom(c.zones), Sets(c);
    var before, rest := FlatMap(c.rules[..k], f), FlatMap(c.rules[k..], f);
    FlatMapSplit(c.rules, k, f);
    EmittedPosition(c, k);
    NothingBefore(c, t, p, k);
    DecideSequence(before, rest, sets, p);
    assert FirstHit(before, sets, p) == |before|;
    if k < |c.rules| {
      var r := c.rules[k];
      assert Names(c, Report(c, k), k);
      CompiledRuleIsExact(c, r, p);
      assert rest == [CompileRule(c.zones, r)] + FlatMap(c.rules[k..][1..], f);
      assert CustomBlock(c)[|before|] == rest[0];
      assert FirstHit(rest, sets, p) == 0 <==> Hits(rest[0], sets, p);
    }
  }

  /** The tester mirrors the compiled rules exactly when the rule it names is in force at the
      packet's time: it never looks at schedules, and nothing else separates the two. */
  lemma TesterMirrorsCompiler(c: Config, t: Probe, p: Packet, k: nat)
    requires ObjectsOk(c) && Realises(c, t, p) && TesterFirst(c, t, k)
    ensures Agrees(c, Report(c, k), p) <==> (k < |c.rules| ==> ScheduleAllows(c.rules[k].schedule, p))
  {
    ReportAgreesExactly(c, t, p, k);
    if k < |c.rules| {
      RefinedIsMatched(c, c.rules[k], t, p);
    }
  }

  /** Without schedules the tester always names the rule that decides. */
  lemma TesterIsRightWithoutSchedules(c: Config, t: Probe, p: Packet, k: nat)
    requires ObjectsOk(c) && Realises(c, t, p) && TesterFirst(c, t, k)
    requires forall i :: 0 <= i < |c.rules| ==> c.rules[i].schedule.None?
    ensures Agrees(c, Report(c, k), p)
  {
    TesterMirrorsCompiler(c, t, p, k);
  }

  /** With wildcards: a reported rule is the first to take some packet the probe stands for, at some time,
      and when none is reported the emitted rules take no such packet, ever. */
  lemma WildcardReportIsExact(c: Config, t: Probe, k: nat)
    requires ObjectsOk(c) && t.src.Some? && t.dst.Some? && TesterFirst(c, t, k)
    ensures k < |c.rules| ==> exists p :: Refines(c, t, p) && Agrees(c, Report(c, k), p)
    ensures k == |c.rules| ==> forall p :: Refines(c, t, p) ==> Agrees(c, NoRule, p)
  {
    if k < |c.rules| {
      var p := MatchIsRefined(c, c.rules[k], t);
      ReportAgreesExactly(c, t, p, k);
    } else {
      forall p | Refines(c, t, p) ensures Agrees(c, NoRule, p) {
        ReportAgreesExactly(c, t, p, k);
      }
    }
  }
}
