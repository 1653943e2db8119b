/** The conflict detector: an independent check of subnets, pools and reservations as read
    back from Kea. */
module Conflicts {
  import opened Ipv4
  import opened Sequences
  import opened KeaSubnets

  /** A subnet as read back: an unparsable CIDR or pool is None. */
  datatype Subnet = Subnet(id: int, cidr: Option<Cidr>, pools: seq<Option<Pool>>)
  datatype Reservation = Reservation(subnetId: int, ip: Addr, mac: string)

  /** One finding, with the positions it is about. */
  datatype Conflict =
    | InvalidCidr(s: nat)
    | SubnetOverlap(s: nat, t: nat)
    | MalformedPool(s: nat, q: nat)
    | ReversedPool(s: nat, q: nat)
    | PoolOutside(s: nat, q: nat)
    | PoolOverlap(s: nat, q: nat)
    | DuplicateIp(ip: Addr)
    | DuplicateMac(subnetId: int, mac: string)
    | ReservationOutside(r: nat)
    | ReservationInPool(r: nat, s: nat, q: nat)
    | BlockedReserved(r: nat)

  /** Parsed networks by id; the last parsable subnet with an id wins. */
  function Nets(ss: seq<Subnet>): map<int, Cidr> {
    if ss == [] then map[] else
    var s, m := ss[|ss| - 1], Nets(ss[..|ss| - 1]);
    if s.cidr.Some? then m[s.id := s.cidr.value] else m
  }

  predicate PoolsMeet(a: Pool, b: Pool) { a.lo <= b.hi && b.lo <= a.hi }

  predicate NetsMeet(nets: map<int, Cidr>, a: int, b: int) {
    a in nets && b in nets && Overlap(nets[a], nets[b])
  }

  predicate Strays(nets: map<int, Cidr>, id: int, p: Pool) {
    id in nets && (!Contains(nets[id], p.lo) || !Contains(nets[id], p.hi))
  }

  predicate MeetsEarlier(ps: seq<Option<Pool>>, q: nat)
    requires q < |ps| && ps[q].Some?
  {
    exists k :: 0 <= k < q && ps[k].Some? && PoolsMeet(ps[q].value, ps[k].value)
  }

  /** What each pool finding means. */
  predicate PoolFinding(nets: map<int, Cidr>, id: int, ps: seq<Option<Pool>>, s: nat, c: Conflict) {
    match c
    case MalformedPool(t, q) => t == s && q < |ps| && ps[q].None?
    case ReversedPool(t, q) => t == s && q < |ps| && ps[q].Some? && ps[q].value.lo > ps[q].value.hi
    case PoolOutside(t, q) => t == s && q < |ps| && ps[q].Some? && Strays(nets, id, ps[q].value)
    case PoolOverlap(t, q) => t == s && q < |ps| && ps[q].Some? && MeetsEarlier(ps, q)
    case _ => false
  }

  predicate Inside(p: Option<Pool>, x: Addr) { p.Some? && p.value.lo <= x <= p.value.hi }

  function Key(r: Reservation): (int, string) { (r.subnetId, r.mac) }

  predicate IpSeen(rs: seq<Reservation>, n: nat, ip: Addr)
    requires n <= |rs|
  {
    n > 0 && (rs[n - 1].ip == ip || IpSeen(rs, n - 1, ip))
  }

  predicate KeySeen(rs: seq<Reservation>, n: nat, key: (int, string))
    requires n <= |rs|
  {
    n > 0 && (Key(rs[n - 1]) == key || KeySeen(rs, n - 1, key))
  }

  /** Two of the first n reservations share the address. */
  predicate IpTwice(rs: seq<Reservation>, n: nat, ip: Addr)
    requires n <= |rs|
  {
    n > 0 && (IpTwice(rs, n - 1, ip) || (rs[n - 1].ip == ip && IpSeen(rs, n - 1, ip)))
  }

  /** Two of the first n reservations share subnet and MAC. */
  predicate KeyTwice(rs: seq<Reservation>, n: nat, key: (int, string))
    requires n <= |rs|
  {
    n > 0 && (KeyTwice(rs, n - 1, key) || (Key(rs[n - 1]) == key && KeySeen(rs, n - 1, key)))
  }

  lemma {:induction false} TwiceMeansTwo(rs: seq<Reservation>, n: nat, ip: Addr, key: (int, string))
    requires n <= |rs|
    ensures IpSeen(rs, n, ip) <==> exists i :: 0 <= i < n && rs[i].ip == ip
    ensures KeySeen(rs, n, key) <==> exists i :: 0 <= i < n && Key(rs[i]) == key
    ensures IpTwice(rs, n, ip) <==> exists i, j :: 0 <= i < j < n && rs[i].ip == ip && rs[j].ip == ip
    ensures KeyTwice(rs, n, key) <==> exists i, j :: 0 <= i < j < n && Key(rs[i]) == key && Key(rs[j]) == key
  {
    if n > 0 {
      TwiceMeansTwo(rs, n - 1, ip, key);
    }
  }

  /** What each finding means. */
  predicate Reported(ss: seq<Subnet>, rs: seq<Reservation>, blocked: set<string>, c: Conflict) {
    match c
    case InvalidCidr(s) => s < |ss| && ss[s].cidr.None?
    case SubnetOverlap(s, t) => s < t < |ss| && NetsMeet(Nets(ss), ss[s].id, ss[t].id)
    case DuplicateIp(ip) => IpTwice(rs, |rs|, ip)
    case DuplicateMac(id, mac) => KeyTwice(rs, |rs|, (id, mac))
    case ReservationOutside(r) =>
      r < |rs| && rs[r].subnetId in Nets(ss) && !Contains(Nets(ss)[rs[r].subnetId], rs[r].ip)
    case ReservationInPool(r, s, q) =>
      r < |rs| && s < |ss| && ss[s].id == rs[r].subnetId && q < |ss[s].pools| && Inside(ss[s].pools[q], rs[r].ip)
    case BlockedReserved(r) => r < |rs| && rs[r].mac in blocked
    case _ => c.s < |ss| && PoolFinding(Nets(ss), ss[c.s].id, ss[c.s].pools, c.s, c)
  }

  /** No finding is listed twice, except one about a MAC reserved more than twice. */
  ghost predicate Once(out: seq<Conflict>) {
    forall i, j :: 0 <= i < j < |out| && out[i] == out[j] ==> out[i].DuplicateMac?
  }

  lemma OnceConcat(a: seq<Conflict>, b: seq<Conflict>)
    requires Once(a) && Once(b)
    requires forall c :: c in a && c in b ==> c.DuplicateMac?
    ensures Once(a + b)
  {
    var all := a + b;
    forall i, j | 0 <= i < j < |all| && all[i] == all[j] ensures all[i].DuplicateMac? {
      if i < |a| <= j {
        assert all[i] in a && all[j] in b;
      }
    }
  }

  predicate AboutPools(c: Conflict) { c.MalformedPool? || c.ReversedPool? || c.PoolOutside? || c.PoolOverlap? }

  lemma PassesAreOnce(bad: seq<Conflict>, overlaps: seq<Conflict>, pools: seq<Conflict>, dups: seq<Conflict>, places: seq<Conflict>)
    requires Once(bad) && Once(overlaps) && Once(pools) && Once(dups) && Once(places)
    requires forall c :: c in bad ==> c.InvalidCidr?
    requires forall c :: c in overlaps ==> c.SubnetOverlap?
    requires forall c :: c in pools ==> AboutPools(c)
    requires forall c :: c in dups ==> c.DuplicateIp? || c.DuplicateMac?
    requires forall c :: c in places ==> c.ReservationOutside? || c.ReservationInPool? || c.BlockedReserved?
    ensures Once(bad + overlaps + pools + dups + places)
  {
    OnceConcat(bad, overlaps);
    OnceConcat(bad + overlaps, pools);
    OnceConcat(bad + overlaps + pools, dups);
    OnceConcat(bad + overlaps + pools + dups, places);
  }

  lemma CountedInOnePass(a: seq<Conflict>, b: seq<Conflict>, d: seq<Conflict>, c: Conflict)
    requires c !in a && c !in d
    ensures multiset(a + b + d)[c] == multiset(b)[c]
  {
    assert multiset(a + b + d) == multiset(a) + multiset(b) + multiset(d);
  }

  /** How many of the first n reservations repeat the key of an earlier one. */
  function KeyRepeats(rs: seq<Reservation>, n: nat, key: (int, string)): nat
    requires n <= |rs|
  {
    if n == 0 then 0
    else KeyRepeats(rs, n - 1, key) + if Key(rs[n - 1]) == key && KeySeen(rs, n - 1, key) then 1 else 0
  }

  function KeyCount(rs: seq<Reservation>, n: nat, key: (int, string)): nat
    requires n <= |rs|
  {
    if n == 0 then 0 else KeyCount(rs, n - 1, key) + if Key(rs[n - 1]) == key then 1 else 0
  }

  /** The repetitions of a key are all its reservations but the first. */
  lemma {:induction false} RepeatsAreAllButOne(rs: seq<Reservation>, n: nat, key: (int, string))
    requires n <= |rs|
    ensures KeyRepeats(rs, n, key) == if KeyCount(rs, n, key) > 0 then KeyCount(rs, n, key) - 1 else 0
    ensures KeySeen(rs, n, key) <==> KeyCount(rs, n, key) > 0
  {
    if n > 0 {
      RepeatsAreAllButOne(rs, n - 1, key);
    }
  }

  // ---- the passes ----------------------------------------------------------------------------------

  method CheckCidrs(ss: seq<Subnet>) returns (out: seq<Conflict>, nets: map<int, Cidr>)
    ensures nets == Nets(ss)
    ensures forall c :: c in out <==> c.InvalidCidr? && c.s < |ss| && ss[c.s].cidr.None?
    ensures Once(out)
  {
    out, nets := [], map[];
    for i := 0 to |ss|
      invariant nets == Nets(ss[..i])
      invariant forall c :: c in out <==> c.InvalidCidr? && c.s < i && ss[c.s].cidr.None?
      invariant Once(out)
    {
      assert ss[..i + 1][..i] == ss[..i];
      if ss[i].cidr.None? {
        OnceConcat(out, [InvalidCidr(i)]);
        out := out + [InvalidCidr(i)];
        continue;
      }
      nets := nets[ss[i].id := ss[i].cidr.value];
    }
    assert ss[..|ss|] == ss;
  }

  method CheckOverlaps(ss: seq<Subnet>, nets: map<int, Cidr>) returns (out: seq<Conflict>)
    ensures forall c :: c in out <==> c.SubnetOverlap? && c.s < c.t < |ss| && NetsMeet(nets, ss[c.s].id, ss[c.t].id)
    ensures Once(out)
  {
    out := [];
    for i := 0 to |ss|
      invariant forall c :: c in out <==> c.SubnetOverlap? && c.s < i && c.s < c.t < |ss| && NetsMeet(nets, ss[c.s].id, ss[c.t].id)
      invariant Once(out)
    {
      for j := i + 1 to |ss|
        invariant forall c :: c in out <==>
          && c.SubnetOverlap? && c.s < c.t < |ss| && NetsMeet(nets, ss[c.s].id, ss[c.t].id)
          && (c.s < i || (c.s == i && c.t < j))
        invariant Once(out)
      {
        if NetsMeet(nets, ss[i].id, ss[j].id) {
          OnceConcat(out, [SubnetOverlap(i, j)]);
          out := out + [SubnetOverlap(i, j)];
        }
      }
    }
  }

  /** The findings about one pool, given the parsed pools before it. */
  method CheckPool(nets: map<int, Cidr>, id: int, ps: seq<Option<Pool>>, s: nat, q: nat) returns (out: seq<Conflict>)
    requires q < |ps|
    ensures forall c :: c in out <==> PoolFinding(nets, id, ps, s, c) && c.q == q
    ensures Once(out)
  {
    out := [];
    if ps[q].None? {
      return [MalformedPool(s, q)];
    }
    var p := ps[q].value;
    if p.lo > p.hi {
      out := out + [ReversedPool(s, q)];
    }
    if id in nets {
      if !Contains(nets[id], p.lo) {
        out := out + [PoolOutside(s, q)];
      } else if !Contains(nets[id], p.hi) {
        out := out + [PoolOutside(s, q)];
      }
    }
    for k := 0 to q
      invariant forall m :: 0 <= m < k && ps[m].Some? ==> !PoolsMeet(p, ps[m].value)
    {
      if ps[k].Some? && PoolsMeet(p, ps[k].value) {
        out := out + [PoolOverlap(s, q)];
        return;
      }
    }
  }

  method CheckPools(ss: seq<Subnet>, nets: map<int, Cidr>) returns (out: seq<Conflict>)
    ensures forall c :: c in out <==> exists s :: 0 <= s < |ss| && PoolFinding(nets, ss[s].id, ss[s].pools, s, c)
    ensures Once(out)
  {
    out := [];
    for s := 0 to |ss|
      invariant forall c :: c in out <==> exists t :: 0 <= t < s && PoolFinding(nets, ss[t].id, ss[t].pools, t, c)
      invariant Once(out)
    {
      var here: seq<Conflict> := [];
      for q := 0 to |ss[s].pools|
        invariant forall c :: c in here <==> PoolFinding(nets, ss[s].id, ss[s].pools, s, c) && c.q < q
        invariant Once(here)
      {
        var found := CheckPool(nets, ss[s].id, ss[s].pools, s, q);
        OnceConcat(here, found);
        here := here + found;
      }
      OnceConcat(out, here);
      out := out + here;
    }
  }

  method CheckDuplicates(rs: seq<Reservation>) returns (out: seq<Conflict>)
    ensures forall ip :: DuplicateIp(ip) in out <==> IpTwice(rs, |rs|, ip)
    ensures forall id, mac :: DuplicateMac(id, mac) in out <==> KeyTwice(rs, |rs|, (id, mac))
    ensures forall c :: c in out ==> c.DuplicateIp? || c.DuplicateMac?
    ensures Once(out)
    ensures forall id, mac :: multiset(out)[DuplicateMac(id, mac)] == KeyRepeats(rs, |rs|, (id, mac))
  {
    out := [];
    var ipSeen: set<Addr> := {};
    var ipDup: set<Addr> := {};
    var macSeen: set<(int, string)> := {};
    for n := 0 to |rs|
      invariant forall ip :: ip in ipSeen <==> IpSeen(rs, n, ip)
      invariant forall ip :: ip in ipDup <==> IpTwice(rs, n, ip)
      invariant forall key :: key in macSeen <==> KeySeen(rs, n, key)
      invariant forall ip :: DuplicateIp(ip) in out <==> IpTwice(rs, n, ip)
      invariant forall id, mac :: DuplicateMac(id, mac) in out <==> KeyTwice(rs, n, (id, mac))
      invariant forall c :: c in out ==> c.DuplicateIp? || c.DuplicateMac?
      invariant Once(out)
      invariant forall id, mac :: multiset(out)[DuplicateMac(id, mac)] == KeyRepeats(rs, n, (id, mac))
    {
      if rs[n].ip in ipSeen && rs[n].ip !in ipDup {
        OnceConcat(out, [DuplicateIp(rs[n].ip)]);
        out := out + [DuplicateIp(rs[n].ip)];
        ipDup := ipDup + {rs[n].ip};
      }
      ipSeen := ipSeen + {rs[n].ip};
      if Key(rs[n]) in macSeen {
        OnceConcat(out, [DuplicateMac(rs[n].subnetId, rs[n].mac)]);
        out := out + [DuplicateMac(rs[n].subnetId, rs[n].mac)];
      }
      macSeen := macSeen + {Key(rs[n])};
    }
  }

  method CheckReservations(ss: seq<Subnet>, nets: map<int, Cidr>, rs: seq<Reservation>, blocked: set<string>)
    returns (out: seq<Conflict>)
    requires nets == Nets(ss)
    ensures forall c :: c in out <==>
      (c.ReservationOutside? || c.ReservationInPool? || c.BlockedReserved?) && Reported(ss, rs, blocked, c)
    ensures Once(out)
  {
    out := [];
    for r := 0 to |rs|
      invariant forall c :: c in out <==>
        (c.ReservationOutside? || c.ReservationInPool? || c.BlockedReserved?) && c.r < r && Reported(ss, rs, blocked, c)
      invariant Once(out)
    {
      var here: seq<Conflict> := [];
      if rs[r].subnetId in nets && !Contains(nets[rs[r].subnetId], rs[r].ip) {
        here := here + [ReservationOutside(r)];
      }
      if rs[r].mac in blocked {
        here := here + [BlockedReserved(r)];
      }
      var pools := PoolsHolding(ss, rs, r);
      OnceConcat(here, pools);
      OnceConcat(out, here + pools);
      assert out + here + pools == out + (here + pools);
      out := out + here + pools;
    }
  }

  method PoolsHolding(ss: seq<Subnet>, rs: seq<Reservation>, r: nat) returns (out: seq<Conflict>)
    requires r < |rs|
    ensures forall c :: c in out <==> c.ReservationInPool? && c.r == r && Reported(ss, rs, {}, c)
    ensures Once(out)
  {
    out := [];
    for s := 0 to |ss|
      invariant forall c :: c in out <==> c.ReservationInPool? && c.r == r && c.s < s && Reported(ss, rs, {}, c)
      invariant Once(out)
    {
      if ss[s].id != rs[r].subnetId {
        continue;
      }
      for q := 0 to |ss[s].pools|
        invariant forall c :: c in out <==>
          c.ReservationInPool? && c.r == r && (c.s < s || (c.s == s && c.q < q)) && Reported(ss, rs, {}, c)
        invariant Once(out)
      {
        if Inside(ss[s].pools[q], rs[r].ip) {
          OnceConcat(out, [ReservationInPool(r, s, q)]);
          out := out + [ReservationInPool(r, s, q)];
        }
      }
    }
  }

  /** Every finding is true and every truth is found; each is listed once, but for a MAC reserved again and
      again, which is listed for every repetition. */
  method DetectConflicts(ss: seq<Subnet>, rs: seq<Reservation>, blocked: set<string>) returns (out: seq<Conflict>)
    ensures forall c :: c in out <==> Reported(ss, rs, blocked, c)
    ensures Once(out)
    ensures forall id, mac :: multiset(out)[DuplicateMac(id, mac)] == KeyRepeats(rs, |rs|, (id, mac))
  {
    var bad, nets := CheckCidrs(ss);
    var overlaps := CheckOverlaps(ss, nets);
    var pools := CheckPools(ss, nets);
    var dups := CheckDuplicates(rs);
    var places := CheckReservations(ss, nets, rs, blocked);
    PassesAreOnce(bad, overlaps, pools, dups, places);
    out := bad + overlaps + pools + dups + places;
    forall id, mac ensures multiset(out)[DuplicateMac(id, mac)] == multiset(dups)[DuplicateMac(id, mac)] {
      CountedInOnePass(bad + overlaps + pools, dups, places, DuplicateMac(id, mac));
    }
    forall c ensures c in out <==> Reported(ss, rs, blocked, c) {
      assert c in out <==> c in bad || c in overlaps || c in pools || c in dups || c in places;
      match c
      case DuplicateIp(ip) => assert c in dups <==> IpTwice(rs, |rs|, ip);
      case DuplicateMac(id, mac) => assert c in dups <==> KeyTwice(rs, |rs|, (id, mac));
      case _ =>
    }
  }

  // ---- the plan and the detector -------------------------------------------------------------------

  function View(e: Entry): Subnet {
    Subnet(e.id.n, Some(e.subnet), seq(|e.pools|, i requires 0 <= i < |e.pools| => Some(e.pools[i])))
  }

  function Views(es: seq<Entry>): seq<Subnet> {
    seq(|es|, i requires 0 <= i < |es| => View(es[i]))
  }

  predicate AboutThePlan(c: Conflict) {
    c.InvalidCidr? || c.SubnetOverlap? || AboutPools(c)
  }

  lemma {:induction false} NetsFindsDistinct(ss: seq<Subnet>, i: nat)
    requires i < |ss| && forall j, k :: 0 <= j < k < |ss| ==> ss[j].id != ss[k].id
    ensures ss[i].id in Nets(ss) <==> ss[i].cidr.Some?
    ensures ss[i].cidr.Some? ==> Nets(ss)[ss[i].id] == ss[i].cidr.value
  {
    var n := |ss| - 1;
    if i < n {
      NetsFindsDistinct(ss[..n], i);
    } else {
      NetsForgets(ss[..n], ss[n].id);
    }
  }

  lemma {:induction false} NetsForgets(ss: seq<Subnet>, id: int)
    requires forall j :: 0 <= j < |ss| ==> ss[j].id != id
    ensures id !in Nets(ss)
  {
    if ss != [] {
      NetsForgets(ss[..|ss| - 1], id);
    }
  }

  ghost predicate DistinctIds(ss: seq<Subnet>) {
    forall j, k :: 0 <= j < k < |ss| ==> ss[j].id != ss[k].id
  }

  /** Every subnet parses, no two share an address, and every pool is sound. */
  ghost predicate PlanLooksSound(ss: seq<Subnet>) {
    && (forall s :: 0 <= s < |ss| ==> ss[s].cidr.Some?)
    && (forall s, t :: 0 <= s < t < |ss| ==> !ShareAddress(ss[s].cidr.value, ss[t].cidr.value))
    && (forall s, q :: 0 <= s < |ss| && 0 <= q < |ss[s].pools| ==> PoolSound(ss[s].cidr.value, ss[s].pools, q))
  }

  ghost predicate InPool(p: Pool, x: Addr) { p.lo <= x <= p.hi }

  ghost predicate Ordered(p: Option<Pool>) { p.Some? && p.value.lo <= p.value.hi }

  ghost predicate AllInside(net: Cidr, p: Pool) {
    forall x: Addr :: InPool(p, x) ==> Contains(net, x)
  }

  ghost predicate Disjoint(a: Pool, b: Pool) {
    forall x: Addr :: !(InPool(a, x) && InPool(b, x))
  }

  /** The pool parses and holds an address; all it holds is in the subnet and in none of the earlier pools. */
  ghost predicate PoolSound(net: Cidr, ps: seq<Option<Pool>>, q: nat)
    requires q < |ps|
  {
    && Ordered(ps[q]) && AllInside(net, ps[q].value)
    && forall k :: 0 <= k < q && ps[k].Some? ==> Disjoint(ps[q].value, ps[k].value)
  }

  lemma MeetingPoolsShare(a: Pool, b: Pool)
    requires a.lo <= a.hi && b.lo <= b.hi
    ensures PoolsMeet(a, b) <==> !Disjoint(a, b)
  {
    if PoolsMeet(a, b) {
      var x: Addr := if a.lo < b.lo then b.lo else a.lo;
      assert InPool(a, x) && InPool(b, x);
    }
  }

  lemma PoolInsideIsEnds(net: Cidr, p: Pool)
    requires p.lo <= p.hi
    ensures Contains(net, p.lo) && Contains(net, p.hi) <==> AllInside(net, p)
  {
    if Contains(net, p.lo) && Contains(net, p.hi) {
      forall x: Addr | InPool(p, x) ensures Contains(net, x) {
        ContainsIsInterval(net, x);
        ContainsIsInterval(net, p.lo);
        ContainsIsInterval(net, p.hi);
      }
    } else if AllInside(net, p) {
      assert InPool(p, p.lo) && InPool(p, p.hi);
    }
  }

  lemma MeetsEarlierMeans(ps: seq<Option<Pool>>, q: nat)
    requires q < |ps| && Ordered(ps[q]) && forall k :: 0 <= k < q ==> Ordered(ps[k])
    ensures MeetsEarlier(ps, q) <==> exists k :: 0 <= k < q && ps[k].Some? && !Disjoint(ps[q].value, ps[k].value)
  {
    forall k | 0 <= k < q ensures PoolsMeet(ps[q].value, ps[k].value) <==> !Disjoint(ps[q].value, ps[k].value) {
      MeetingPoolsShare(ps[q].value, ps[k].value);
    }
  }

  /** The two geometric findings about an ordered pool behind ordered ones, read as soundness. */
  lemma PoolFindingsMean(ss: seq<Subnet>, s: nat, q: nat)
    requires DistinctIds(ss) && s < |ss| && q < |ss[s].pools| && ss[s].cidr.Some?
    requires Ordered(ss[s].pools[q]) && forall k :: 0 <= k < q ==> Ordered(ss[s].pools[k])
    ensures !Strays(Nets(ss), ss[s].id, ss[s].pools[q].value) && !MeetsEarlier(ss[s].pools, q) <==>
            PoolSound(ss[s].cidr.value, ss[s].pools, q)
  {
    NetsFindsDistinct(ss, s);
    PoolInsideIsEnds(ss[s].cidr.value, ss[s].pools[q].value);
    MeetsEarlierMeans(ss[s].pools, q);
  }

  ghost predicate Quiet(ss: seq<Subnet>, rs: seq<Reservation>, blocked: set<string>) {
    forall c :: AboutThePlan(c) ==> !Reported(ss, rs, blocked, c)
  }

  lemma SoundPlanIsQuiet(ss: seq<Subnet>, rs: seq<Reservation>, blocked: set<string>)
    requires DistinctIds(ss) && PlanLooksSound(ss)
    ensures Quiet(ss, rs, blocked)
  {
    forall c | AboutThePlan(c) ensures !Reported(ss, rs, blocked, c) {
      if c.SubnetOverlap? && c.s < c.t < |ss| {
        NetsFindsDistinct(ss, c.s);
        NetsFindsDistinct(ss, c.t);
        OverlapIsExact(ss[c.s].cidr.value, ss[c.t].cidr.value);
      } else if !c.SubnetOverlap? && !c.InvalidCidr? && c.s < |ss| && c.q < |ss[c.s].pools| {
        assert PoolSound(ss[c.s].cidr.value, ss[c.s].pools, c.q);
        forall k | 0 <= k <= c.q ensures Ordered(ss[c.s].pools[k]) {
          assert PoolSound(ss[c.s].cidr.value, ss[c.s].pools, k);
        }
        PoolFindingsMean(ss, c.s, c.q);
      }
    }
  }

  lemma QuietSubnetsAreSound(ss: seq<Subnet>, rs: seq<Reservation>, blocked: set<string>)
    requires DistinctIds(ss) && Quiet(ss, rs, blocked)
    ensures forall s :: 0 <= s < |ss| ==> ss[s].cidr.Some?
    ensures forall s, t :: 0 <= s < t < |ss| ==> !ShareAddress(ss[s].cidr.value, ss[t].cidr.value)
  {
    forall s | 0 <= s < |ss| ensures ss[s].cidr.Some? {
      assert !Reported(ss, rs, blocked, InvalidCidr(s));
    }
    forall s, t | 0 <= s < t < |ss| ensures !ShareAddress(ss[s].cidr.value, ss[t].cidr.value) {
      assert !Reported(ss, rs, blocked, SubnetOverlap(s, t));
      NetsFindsDistinct(ss, s);
      NetsFindsDistinct(ss, t);
      OverlapIsExact(ss[s].cidr.value, ss[t].cidr.value);
    }
  }

  lemma QuietPoolIsOrdered(ss: seq<Subnet>, rs: seq<Reservation>, blocked: set<string>, s: nat, q: nat)
    requires Quiet(ss, rs, blocked) && s < |ss| && q < |ss[s].pools|
    ensures Ordered(ss[s].pools[q])
  {
    assert !Reported(ss, rs, blocked, MalformedPool(s, q));
    assert !Reported(ss, rs, blocked, ReversedPool(s, q));
  }

  lemma QuietPoolIsSound(ss: seq<Subnet>, rs: seq<Reservation>, blocked: set<string>, s: nat, q: nat)
    requires DistinctIds(ss) && Quiet(ss, rs, blocked) && s < |ss| && q < |ss[s].pools| && ss[s].cidr.Some?
    ensures PoolSound(ss[s].cidr.value, ss[s].pools, q)
  {
    forall k | 0 <= k <= q ensures Ordered(ss[s].pools[k]) {
      QuietPoolIsOrdered(ss, rs, blocked, s, k);
    }
    PoolFindingsMean(ss, s, q);
    assert !Reported(ss, rs, blocked, PoolOutside(s, q));
    assert !Reported(ss, rs, blocked, PoolOverlap(s, q));
  }

  lemma QuietPlanIsSound(ss: seq<Subnet>, rs: seq<Reservation>, blocked: set<string>)
    requires DistinctIds(ss) && Quiet(ss, rs, blocked)
    ensures PlanLooksSound(ss)
  {
    QuietSubnetsAreSound(ss, rs, blocked);
    forall s, q | 0 <= s < |ss| && 0 <= q < |ss[s].pools| ensures PoolSound(ss[s].cidr.value, ss[s].pools, q) {
      QuietPoolIsSound(ss, rs, blocked, s, q);
    }
  }

  /** No two reservations share an address, or a MAC in one subnet; each lies in its subnet, outside every
      pool of it, and belongs to nobody who is blocked. */
  ghost predicate ReservationsLookSound(ss: seq<Subnet>, rs: seq<Reservation>, blocked: set<string>) {
    && (forall i, j :: 0 <= i < j < |rs| ==> rs[i].ip != rs[j].ip && !(rs[i].subnetId == rs[j].subnetId && rs[i].mac == rs[j].mac))
    && (forall r, s :: 0 <= r < |rs| && 0 <= s < |ss| && ss[s].id == rs[r].subnetId ==> ReservedInside(ss[s], rs[r].ip))
    && (forall r :: 0 <= r < |rs| ==> rs[r].mac !in blocked)
  }

  ghost predicate ReservedInside(s: Subnet, x: Addr) {
    && (s.cidr.Some? ==> Contains(s.cidr.value, x))
    && forall q :: 0 <= q < |s.pools| && s.pools[q].Some? ==> !InPool(s.pools[q].value, x)
  }

  ghost predicate QuietAboutReservations(ss: seq<Subnet>, rs: seq<Reservation>, blocked: set<string>) {
    forall c :: !AboutThePlan(c) ==> !Reported(ss, rs, blocked, c)
  }

  lemma {:induction false} NetsHasASubnet(ss: seq<Subnet>, id: int)
    requires id in Nets(ss)
    ensures exists s :: 0 <= s < |ss| && ss[s].id == id && ss[s].cidr == Some(Nets(ss)[id])
  {
    var n := |ss| - 1;
    if !(ss[n].cidr.Some? && ss[n].id == id) {
      NetsHasASubnet(ss[..n], id);
      var s :| 0 <= s < n && ss[..n][s].id == id && ss[..n][s].cidr == Some(Nets(ss[..n])[id]);
      assert ss[s] == ss[..n][s];
    }
  }

  lemma SoundReservationsAreQuiet(ss: seq<Subnet>, rs: seq<Reservation>, blocked: set<string>, c: Conflict)
    requires ReservationsLookSound(ss, rs, blocked) && !AboutThePlan(c)
    ensures !Reported(ss, rs, blocked, c)
  {
    match c
    case DuplicateIp(ip) => TwiceMeansTwo(rs, |rs|, ip, (0, ""));
    case DuplicateMac(id, mac) => TwiceMeansTwo(rs, |rs|, 0, (id, mac));
    case ReservationOutside(r) =>
      if r < |rs| && rs[r].subnetId in Nets(ss) {
        NetsHasASubnet(ss, rs[r].subnetId);
      }
    case ReservationInPool(r, s, q) =>
      if r < |rs| && s < |ss| && ss[s].id == rs[r].subnetId {
        assert ReservedInside(ss[s], rs[r].ip);
      }
    case _ =>
  }

  lemma QuietPairIsSound(ss: seq<Subnet>, rs: seq<Reservation>, blocked: set<string>, i: nat, j: nat)
    requires QuietAboutReservations(ss, rs, blocked) && i < j < |rs|
    ensures rs[i].ip != rs[j].ip && !(rs[i].subnetId == rs[j].subnetId && rs[i].mac == rs[j].mac)
  {
    TwiceMeansTwo(rs, |rs|, rs[i].ip, Key(rs[i]));
    assert !Reported(ss, rs, blocked, DuplicateIp(rs[i].ip));
    assert !Reported(ss, rs, blocked, DuplicateMac(rs[i].subnetId, rs[i].mac));
  }

  lemma QuietPlaceIsSound(ss: seq<Subnet>, rs: seq<Reservation>, blocked: set<string>, r: nat, s: nat)
    requires DistinctIds(ss) && QuietAboutReservations(ss, rs, blocked)
    requires r < |rs| && s < |ss| && ss[s].id == rs[r].subnetId
    ensures ReservedInside(ss[s], rs[r].ip)
  {
    NetsFindsDistinct(ss, s);
    assert !Reported(ss, rs, blocked, ReservationOutside(r));
    forall q | 0 <= q < |ss[s].pools| && ss[s].pools[q].Some?
      ensures !InPool(ss[s].pools[q].value, rs[r].ip)
    {
      assert !Reported(ss, rs, blocked, ReservationInPool(r, s, q));
    }
  }

  lemma QuietReservationsAreSound(ss: seq<Subnet>, rs: seq<Reservation>, blocked: set<string>)
    requires DistinctIds(ss) && QuietAboutReservations(ss, rs, blocked)
    ensures ReservationsLookSound(ss, rs, blocked)
  {
    forall i, j | 0 <= i < j < |rs|
      ensures rs[i].ip != rs[j].ip && !(rs[i].subnetId == rs[j].subnetId && rs[i].mac == rs[j].mac)
    {
      QuietPairIsSound(ss, rs, blocked, i, j);
    }
    forall r, s | 0 <= r < |rs| && 0 <= s < |ss| && ss[s].id == rs[r].subnetId ensures ReservedInside(ss[s], rs[r].ip) {
      QuietPlaceIsSound(ss, rs, blocked, r, s);
    }
    forall r | 0 <= r < |rs| ensures rs[r].mac !in blocked {
      assert !Reported(ss, rs, blocked, BlockedReserved(r));
    }
  }

  /** With distinct ids, silence about the plan is exactly soundness of the plan, and silence about the
      reservations exactly soundness of the reservations. */
  lemma DetectorIsExact(ss: seq<Subnet>, rs: seq<Reservation>, blocked: set<string>)
    requires DistinctIds(ss)
    ensures Quiet(ss, rs, blocked) <==> PlanLooksSound(ss)
    ensures QuietAboutReservations(ss, rs, blocked) <==> ReservationsLookSound(ss, rs, blocked)
  {
    if PlanLooksSound(ss) {
      SoundPlanIsQuiet(ss, rs, blocked);
    }
    if Quiet(ss, rs, blocked) {
      QuietPlanIsSound(ss, rs, blocked);
    }
    if ReservationsLookSound(ss, rs, blocked) {
      forall c | !AboutThePlan(c) ensures !Reported(ss, rs, blocked, c) {
        SoundReservationsAreQuiet(ss, rs, blocked, c);
      }
    }
    if QuietAboutReservations(ss, rs, blocked) {
      QuietReservationsAreSound(ss, rs, blocked);
    }
  }

  lemma PlanViewIsSound(es: seq<Entry>)
    requires Plan(es)
    ensures PlanLooksSound(Views(es))
    ensures DistinctIds(Views(es))
  {
    var ss := Views(es);
    forall s, q | 0 <= s < |ss| && 0 <= q < |ss[s].pools| ensures PoolSound(ss[s].cidr.value, ss[s].pools, q) {
      assert EntryOk(es[s]);
      PoolInsideIsEnds(es[s].subnet, es[s].pools[q]);
    }
    forall j, k | 0 <= j < k < |es| ensures ss[j].id != ss[k].id {
      assert EntryOk(es[j]) && EntryOk(es[k]);
    }
  }

  /** On any configuration the subnet edits can reach from an empty list, the detector is silent
      about the plan, whatever the reservations. */
  lemma ReachablePlanIsQuiet(k: KeaConfig, run: seq<Op>, rs: seq<Reservation>, blocked: set<string>)
    requires k.subnets == []
    ensures Quiet(Views(After(k, run).subnets), rs, blocked)
  {
    RunKeepsPlan(k, run);
    PlanViewIsSound(After(k, run).subnets);
    SoundPlanIsQuiet(Views(After(k, run).subnets), rs, blocked);
  }
}
