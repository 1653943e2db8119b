/** The default inter-zone policy on its own: trust decides, and trust cannot be regained
    by hopping. */
module ZoneIsolation {
  import opened Ipv4
  import opened Sequences
  import opened Nft
  import opened GatewayConfig
  import opened FilterSets
  import opened ForwardChain
  import opened ForwardMeaning

  /** Gateway mode with nothing but zones: no explicit rules, tunnels, published hosts or VPN grants. */
  ghost predicate OnlyZones(c: Config) {
    && c.gatewayEnabled && !c.ipsEnabled
    && !HasEnabledRule(c)
    && c.tunnels == [] && c.portForwards == [] && c.nat11 == []
    && !OvpnActive(c)
  }

  /** The trust order spelled out: LAN over DMZ over guest. */
  predicate Above(s: ZoneKind, d: ZoneKind) {
    (s == Lan && (d == Dmz || d == Guest)) || (s == Dmz && d == Guest)
  }

  ghost predicate Between(c: Config, i: nat, j: nat, p: Packet)
    requires i < |c.zones| && j < |c.zones|
  {
    p.ct == New && p.iif == c.zones[i].IfaceName() && p.oif == c.zones[j].IfaceName()
  }

  ghost predicate Passes(c: Config, p: Packet) {
    Run(ForwardRules(c), Drop, Sets(c), p) == Accept
  }

  lemma OnlyZonesPolicy(c: Config, p: Packet)
    requires ObjectsOk(c) && OnlyZones(c) && p.ct == New
    ensures Passes(c, p) <==>
            (!InBlocks(c.geo, p.src) &&
             (ZoneToWanGrant(c, p) || ZonePairGrant(c, p) || (p.iif == c.lan && p.oif == c.wan)))
  {
    ForwardChainMeansPolicy(c, p);
    assert CustomDecision(c, p).None?;
    assert !TunnelGrant(c, p) && !OvpnGrant(c, p);
    assert !PortForwardGrant(c, p) && !OneToOneGrant(c, p) && !HairpinGrant(c, p);
  }

  lemma PairGrantIsTrust(c: Config, i: nat, j: nat, p: Packet)
    requires ZonesOk(c.zones)
    requires i < |c.zones| && j < |c.zones| && Between(c, i, j, p)
    ensures ZonePairGrant(c, p) <==> Above(c.zones[i].kind, c.zones[j].kind)
  {
    RanksSpellTheOrder(c.zones[i], c.zones[j]);
    if ZonePairGrant(c, p) {
      var m, n :| 0 <= m < |c.zones| && 0 <= n < |c.zones| && MayInitiate(c.zones[m], c.zones[n]) &&
                  p.iif == c.zones[m].IfaceName() && p.oif == c.zones[n].IfaceName();
      assert m == i && n == j;
    } else {
      assert !MayInitiate(c.zones[i], c.zones[j]);
    }
  }

  lemma RanksSpellTheOrder(s: Zone, d: Zone)
    requires ZoneOk(s) && ZoneOk(d)
    ensures s.kind != Wan && d.kind != Wan && Trust(s.kind) > Trust(d.kind) <==> Above(s.kind, d.kind)
  {
  }

  /** The way out through the WAN port: open to every internal zone elsewhere, and to whatever zone
      sits on the LAN port. */
  predicate Leaves(c: Config, i: nat, j: nat)
    requires i < |c.zones| && j < |c.zones|
  {
    && c.zones[j].IfaceName() == c.wan && c.zones[i].IfaceName() != c.wan
    && (c.zones[i].kind != Wan || c.zones[i].IfaceName() == c.lan)
  }

  lemma EgressGrantIsWanPort(c: Config, i: nat, j: nat, p: Packet)
    requires ZonesOk(c.zones) && c.wan != "" && c.wan != c.lan
    requires i < |c.zones| && j < |c.zones| && Between(c, i, j, p)
    ensures ZoneToWanGrant(c, p) || (p.iif == c.lan && p.oif == c.wan) <==> Leaves(c, i, j)
  {
    if ZoneToWanGrant(c, p) {
      var m :| 0 <= m < |c.zones| && c.zones[m].kind != Wan && c.zones[m].IfaceName() != c.wan &&
               p.iif == c.zones[m].IfaceName() && p.oif == c.wan;
      assert m == i;
    }
  }

  /** Between any two zones a new packet passes when the source ranks strictly higher, or when the
      destination zone sits on the WAN port itself: the egress rules then let the others in,
      whatever the ranks. */
  lemma ZoneTrafficIsExact(c: Config, i: nat, j: nat, p: Packet)
    requires Valid(c) && OnlyZones(c)
    requires i < |c.zones| && j < |c.zones| && Between(c, i, j, p)
    ensures Passes(c, p) <==> !InBlocks(c.geo, p.src) && (Above(c.zones[i].kind, c.zones[j].kind) || Leaves(c, i, j))
  {
    OnlyZonesPolicy(c, p);
    PairGrantIsTrust(c, i, j, p);
    EgressGrantIsWanPort(c, i, j, p);
  }

  // ---- hopping from zone to zone ---------------------------------------------------------------------

  /** Some new packet is let through from zone i to zone j. */
  ghost predicate Hop(c: Config, i: nat, j: nat) {
    i < |c.zones| && j < |c.zones| && exists p :: Between(c, i, j, p) && Passes(c, p)
  }

  ghost predicate Route(c: Config, path: seq<nat>) {
    |path| < 2 || (Hop(c, path[0], path[1]) && Route(c, path[1..]))
  }

  ghost predicate Reaches(c: Config, i: nat, j: nat) {
    exists path: seq<nat> :: |path| >= 2 && path[0] == i && path[|path| - 1] == j && Route(c, path)
  }

  ghost predicate SomeSourceUnblocked(c: Config) {
    exists x: Addr :: !InBlocks(c.geo, x)
  }

  predicate Edge(c: Config, i: nat, j: nat) {
    i < |c.zones| && j < |c.zones| && (Above(c.zones[i].kind, c.zones[j].kind) || Leaves(c, i, j))
  }

  lemma HopIsExact(c: Config, i: nat, j: nat)
    requires Valid(c) && OnlyZones(c)
    ensures Hop(c, i, j) <==> SomeSourceUnblocked(c) && Edge(c, i, j)
  {
    if Hop(c, i, j) {
      var p :| Between(c, i, j, p) && Passes(c, p);
      ZoneTrafficIsExact(c, i, j, p);
    }
    if SomeSourceUnblocked(c) && Edge(c, i, j) {
      var x: Addr :| !InBlocks(c.geo, x);
      var p := Packet(c.zones[i].IfaceName(), c.zones[j].IfaceName(), x, 0, Tcp, 0, OtherType, New, false, false, 0, 0, false);
      ZoneTrafficIsExact(c, i, j, p);
      assert Between(c, i, j, p) && Passes(c, p);
    }
  }

  ghost predicate Walk(c: Config, path: seq<nat>) {
    |path| < 2 || (Edge(c, path[0], path[1]) && Walk(c, path[1..]))
  }

  lemma {:induction false} RouteIsWalk(c: Config, path: seq<nat>)
    requires Valid(c) && OnlyZones(c) && |path| >= 2
    ensures Route(c, path) <==> SomeSourceUnblocked(c) && Walk(c, path)
  {
    HopIsExact(c, path[0], path[1]);
    if |path| > 2 {
      RouteIsWalk(c, path[1..]);
    }
  }

  /** What any number of hops can achieve: falling trust or the way out, falling trust from the zone on
      the WAN port after the way out, or a return to that zone from below it. */
  ghost predicate Linked(c: Config, i: nat, j: nat) {
    || Edge(c, i, j)
    || (exists w: nat :: OutAndDown(c, i, w, j))
    || (i == j && exists x: nat :: DownAndOut(c, i, x))
  }

  ghost predicate OutAndDown(c: Config, i: nat, w: nat, j: nat) {
    i < |c.zones| && w < |c.zones| && j < |c.zones| && Leaves(c, i, w) && Above(c.zones[w].kind, c.zones[j].kind)
  }

  ghost predicate DownAndOut(c: Config, i: nat, x: nat) {
    i < |c.zones| && x < |c.zones| && c.zones[i].IfaceName() == c.wan && Above(c.zones[i].kind, c.zones[x].kind)
  }

  lemma OneZoneOnTheWanPort(c: Config, i: nat, j: nat)
    requires ZonesOk(c.zones) && i < |c.zones| && j < |c.zones|
    requires c.zones[i].IfaceName() == c.wan && c.zones[j].IfaceName() == c.wan
    ensures i == j
  {
  }

  lemma EdgeThenLinked(c: Config, i: nat, y: nat, j: nat)
    requires ZonesOk(c.zones) && Edge(c, i, y) && Linked(c, y, j)
    ensures Linked(c, i, j)
  {
    if Leaves(c, i, y) {
      if Edge(c, y, j) {
        assert OutAndDown(c, i, y, j);
      } else if w: nat :| OutAndDown(c, y, w, j) {
        assert false;
      }
    } else if c.zones[i].IfaceName() == c.wan {
      if Edge(c, y, j) && Leaves(c, y, j) {
        OneZoneOnTheWanPort(c, i, j);
        assert DownAndOut(c, i, y);
      } else if w: nat :| OutAndDown(c, y, w, j) {
        OneZoneOnTheWanPort(c, i, w);
      }
    } else if w: nat :| OutAndDown(c, y, w, j) {
      assert OutAndDown(c, i, w, j);
    }
  }

  lemma {:induction false} WalkIsLinked(c: Config, path: seq<nat>)
    requires ZonesOk(c.zones) && |path| >= 2 && Walk(c, path)
    ensures Linked(c, path[0], path[|path| - 1])
  {
    if |path| > 2 {
      WalkIsLinked(c, path[1..]);
      EdgeThenLinked(c, path[0], path[1], path[|path| - 1]);
    }
  }

  /** Some walk of at least one edge leads from i to j. */
  ghost predicate Strolls(c: Config, i: nat, j: nat) {
    exists path: seq<nat> :: |path| >= 2 && path[0] == i && path[|path| - 1] == j && Walk(c, path)
  }

  lemma OneStep(c: Config, i: nat, j: nat)
    requires Edge(c, i, j)
    ensures Strolls(c, i, j)
  {
    var path: seq<nat> := [i, j];
    assert path[1..] == [j] && Walk(c, path) && path[|path| - 1] == j;
  }

  lemma TwoSteps(c: Config, i: nat, w: nat, j: nat)
    requires Edge(c, i, w) && Edge(c, w, j)
    ensures Strolls(c, i, j)
  {
    var path: seq<nat> := [i, w, j];
    assert path[1..] == [w, j] && path[1..][1..] == [j];
    assert Walk(c, path) && path[|path| - 1] == j;
  }

  lemma StrollIsLinked(c: Config, i: nat, j: nat)
    requires ZonesOk(c.zones)
    ensures Strolls(c, i, j) <==> Linked(c, i, j)
  {
    if path: seq<nat> :| |path| >= 2 && path[0] == i && path[|path| - 1] == j && Walk(c, path) {
      WalkIsLinked(c, path);
    }
    if Edge(c, i, j) {
      OneStep(c, i, j);
    } else if w: nat :| OutAndDown(c, i, w, j) {
      TwoSteps(c, i, w, j);
    } else if Linked(c, i, j) {
      var x: nat :| DownAndOut(c, i, x);
      BackFromBelow(c, i, x);
      TwoSteps(c, i, x, i);
    }
  }

  lemma BackFromBelow(c: Config, i: nat, x: nat)
    requires ZonesOk(c.zones) && DownAndOut(c, i, x)
    ensures Edge(c, i, x) && Edge(c, x, i)
  {
    if c.zones[x].IfaceName() == c.wan {
      OneZoneOnTheWanPort(c, i, x);
    }
  }

  lemma ReachIsStroll(c: Config, i: nat, j: nat)
    requires Valid(c) && OnlyZones(c)
    ensures Reaches(c, i, j) <==> SomeSourceUnblocked(c) && Strolls(c, i, j)
  {
    if path: seq<nat> :| |path| >= 2 && path[0] == i && path[|path| - 1] == j && Route(c, path) {
      RouteIsWalk(c, path);
    }
    if path: seq<nat> :| |path| >= 2 && path[0] == i && path[|path| - 1] == j && Walk(c, path) {
      RouteIsWalk(c, path);
    }
  }

  /** Which zone reaches which by any number of default accepts. */
  lemma ReachIsExact(c: Config, i: nat, j: nat)
    requires Valid(c) && OnlyZones(c)
    ensures Reaches(c, i, j) <==> SomeSourceUnblocked(c) && Linked(c, i, j)
  {
    ReachIsStroll(c, i, j);
    StrollIsLinked(c, i, j);
  }

  /** Zone i is another zone that may leave through zone j. */
  ghost predicate Neighbour(c: Config, i: nat, j: nat) {
    i < |c.zones| && i != j && (c.zones[i].kind != Wan || c.zones[i].IfaceName() == c.lan)
  }

  lemma LanIsLinkedExactly(c: Config, j: nat)
    requires ZonesOk(c.zones) && j < |c.zones| && c.zones[j].kind == Lan
    ensures (exists i: nat :: Linked(c, i, j)) <==>
            c.zones[j].IfaceName() == c.wan && exists i: nat :: Neighbour(c, i, j)
  {
    if i: nat :| Linked(c, i, j) {
      if Edge(c, i, j) {
        assert Neighbour(c, i, j);
      } else {
        var x: nat :| DownAndOut(c, i, x);
        assert Neighbour(c, x, j);
      }
    }
    if i: nat :| c.zones[j].IfaceName() == c.wan && Neighbour(c, i, j) {
      if c.zones[i].IfaceName() == c.wan {
        OneZoneOnTheWanPort(c, i, j);
      }
      assert Linked(c, i, j);
    }
  }

  /** Some chain of default accepts, of any length and from anywhere, ends in a LAN zone exactly when that
      zone sits on the WAN port, another zone may leave through it, and a source is not geo-blocked. */
  lemma NoWayBackToLan(c: Config, j: nat)
    requires Valid(c) && OnlyZones(c) && j < |c.zones| && c.zones[j].kind == Lan
    ensures (exists i: nat :: Reaches(c, i, j)) <==>
            c.zones[j].IfaceName() == c.wan && SomeSourceUnblocked(c) && exists i: nat :: Neighbour(c, i, j)
  {
    LanIsLinkedExactly(c, j);
    forall i: nat ensures Reaches(c, i, j) <==> SomeSourceUnblocked(c) && Linked(c, i, j) {
      ReachIsExact(c, i, j);
    }
  }

  // ---- zones off the WAN port -------------------------------------------------------------------------

  ghost predicate InternalOffWan(c: Config, i: nat) {
    i < |c.zones| && c.zones[i].kind != Wan && c.zones[i].IfaceName() != c.wan
  }

  ghost predicate OffWan(c: Config, path: seq<nat>) {
    forall k :: 0 <= k < |path| ==> InternalOffWan(c, path[k])
  }

  lemma {:induction false} WalkDescends(c: Config, path: seq<nat>)
    requires |path| >= 2 && OffWan(c, path) && Walk(c, path)
    ensures InternalOffWan(c, path[0]) && InternalOffWan(c, path[|path| - 1])
    ensures Above(c.zones[path[0]].kind, c.zones[path[|path| - 1]].kind)
  {
    assert InternalOffWan(c, path[1]);
    if |path| > 2 {
      WalkDescends(c, path[1..]);
    }
  }

  /** Along any chain of default accepts between internal zones off the WAN port, of any length, trust
      strictly falls. */
  lemma RouteDescends(c: Config, path: seq<nat>)
    requires Valid(c) && OnlyZones(c) && |path| >= 2
    requires OffWan(c, path) && Route(c, path)
    ensures InternalOffWan(c, path[0]) && InternalOffWan(c, path[|path| - 1])
    ensures Above(c.zones[path[0]].kind, c.zones[path[|path| - 1]].kind)
  {
    RouteIsWalk(c, path);
    WalkDescends(c, path);
  }
}
