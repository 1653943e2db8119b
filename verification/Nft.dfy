/** The part of nftables the generator targets: named sets, first-match chains,
    and what a chain does to one IPv4 packet. */
module Nft {
  import opened Ipv4
  import opened Sequences

  datatype Proto = Tcp | Udp | Icmp | OtherProto
  datatype CtState = New | Established | Related | Invalid | Untracked
  datatype IcmpType = EchoRequest | Unreachable | TimeExceeded | ParameterProblem | OtherType

  /** One IPv4 packet together with what the kernel knows about it: conntrack state
      and status, whether its destination is local, the time, and whether its source
      is over the management rate limit. */
  datatype Packet = Packet(
    iif: string, oif: string, src: Addr, dst: Addr,
    proto: Proto, dport: int, icmp: IcmpType,
    ct: CtState, dnat: bool, localDst: bool,
    second: nat, weekday: nat, overLimit: bool)

  /** A set element: one host, one block, or an inclusive range. */
  datatype Element = Host(addr: Addr) | Net(cidr: Cidr) | Range(lo: Addr, hi: Addr)

  predicate InElement(e: Element, x: Addr) {
    match e
    case Host(a) => x == a
    case Net(c) => Contains(c, x)
    case Range(lo, hi) => lo <= x <= hi
  }

  /** A range of one address is that host, a block is the range of its addresses, and a range is the two
      ranges it is cut into. */
  lemma RangesAreExact(lo: Addr, m: Addr, hi: Addr, c: Cidr, x: Addr)
    requires lo <= m < hi
    ensures InElement(Range(lo, lo), x) <==> InElement(Host(lo), x)
    ensures InElement(Range(lo, hi), x) <==> InElement(Range(lo, m), x) || InElement(Range(m + 1, hi), x)
    ensures Network(c) + BlockSize(c) <= 0x1_0000_0000
    ensures InElement(Net(c), x) <==> InElement(Range(Network(c), Network(c) + BlockSize(c) - 1), x)
  {
    BlockFits(c);
    ContainsIsInterval(c, x);
  }

  predicate InElements(es: seq<Element>, x: Addr) {
    exists i :: 0 <= i < |es| && InElement(es[i], x)
  }

  datatype SetDecl = SetDecl(name: string, elements: seq<Element>)

  predicate InNamed(sets: seq<SetDecl>, name: string, x: Addr) {
    exists i :: 0 <= i < |sets| && sets[i].name == name && InElements(sets[i].elements, x)
  }

  datatype AddrRef = Named(name: string) | Anon(elements: seq<Element>)

  predicate InRef(sets: seq<SetDecl>, r: AddrRef, x: Addr) {
    match r
    case Named(n) => InNamed(sets, n, x)
    case Anon(es) => InElements(es, x)
  }

  datatype Match =
    | IifName(name: string)
    | OifName(name: string)
    | Saddr(ref: AddrRef)
    | Daddr(ref: AddrRef)
    | L4Proto(proto: Proto)
    | Dport(proto: Proto, ports: seq<int>)
    | CtIn(states: seq<CtState>)
    | CtDnat
    | FibLocal
    | IcmpIn(types: seq<IcmpType>)
    | Icmp6
    | OverRate(setName: string)
    | Days(days: seq<int>)
    | Hours(start: int, end: int)

  /** A clock window in minutes, compared in seconds; start after end wraps past midnight. */
  predicate InWindow(start: int, end: int, second: int) {
    if start <= end then start * 60 <= second <= end * 60
    else start * 60 <= second || second <= end * 60
  }

  /** The window is the stretch of the clock from the start forward to the end, across midnight if need be. */
  lemma WindowRunsForward(start: int, end: int, second: int)
    requires 0 <= start < 1440 && 0 <= end < 1440 && 0 <= second < 86400
    ensures InWindow(start, end, second) <==> (second - start * 60) % 86400 <= (end - start) % 1440 * 60
  {
    assert (second - start * 60) % 86400 == if second < start * 60 then second - start * 60 + 86400 else second - start * 60;
    assert (end - start) % 1440 == if end < start then end - start + 1440 else end - start;
  }

  predicate Holds(m: Match, sets: seq<SetDecl>, p: Packet) {
    match m
    case IifName(n) => p.iif == n
    case OifName(n) => p.oif == n
    case Saddr(r) => InRef(sets, r, p.src)
    case Daddr(r) => InRef(sets, r, p.dst)
    case L4Proto(t) => p.proto == t
    case Dport(t, ports) => p.proto == t && p.dport in ports
    case CtIn(states) => p.ct in states
    case CtDnat => p.dnat
    case FibLocal => p.localDst
    case IcmpIn(types) => p.proto == Icmp && p.icmp in types
    case Icmp6 => false // an IPv4 packet never carries an IPv6 header
    case OverRate(_) => p.overLimit
    case Days(ds) => p.weekday in ds
    case Hours(a, b) => InWindow(a, b, p.second)
  }

  datatype Verdict =
    | Accept | Drop | Reject | Queue
    | DnatTo(addr: Addr, port: Option<int>) | SnatTo(src: Addr) | Masquerade

  datatype Rule = Rule(matches: seq<Match>, verdict: Verdict)

  /** All matches of a rule hold. */
  predicate Hits(r: Rule, sets: seq<SetDecl>, p: Packet) {
    AllHold(r.matches, sets, p)
  }

  predicate AllHold(ms: seq<Match>, sets: seq<SetDecl>, p: Packet) {
    forall i :: 0 <= i < |ms| ==> Holds(ms[i], sets, p)
  }

  /** The position of the first rule a packet hits, or the chain length. */
  function FirstHit(rs: seq<Rule>, sets: seq<SetDecl>, p: Packet): (k: nat)
    ensures k <= |rs|
    ensures k < |rs| ==> Hits(rs[k], sets, p)
    ensures forall j :: 0 <= j < k ==> !Hits(rs[j], sets, p)
  {
    if rs == [] || Hits(rs[0], sets, p) then 0 else
    var k := FirstHit(rs[1..], sets, p);
    assert forall j :: 0 < j < k + 1 ==> rs[j] == rs[1..][j - 1];
    k + 1
  }

  /** First match wins; None when the packet falls off the end. */
  function Decide(rs: seq<Rule>, sets: seq<SetDecl>, p: Packet): Option<Verdict> {
    var k := FirstHit(rs, sets, p);
    if k < |rs| then Some(rs[k].verdict) else None
  }

  /** A base chain: its policy applies at the end. */
  function Run(rs: seq<Rule>, policy: Verdict, sets: seq<SetDecl>, p: Packet): Verdict {
    match Decide(rs, sets, p)
    case Some(v) => v
    case None => policy
  }

  ghost predicate AnyHit(rs: seq<Rule>, sets: seq<SetDecl>, p: Packet) {
    exists i :: 0 <= i < |rs| && Hits(rs[i], sets, p)
  }

  lemma FirstHitIsLeast(rs: seq<Rule>, sets: seq<SetDecl>, p: Packet, k: nat)
    requires k <= |rs|
    requires k < |rs| ==> Hits(rs[k], sets, p)
    requires forall j :: 0 <= j < k ==> !Hits(rs[j], sets, p)
    ensures FirstHit(rs, sets, p) == k
  {
  }

  /** Chains compose: what the first part does not decide goes on to the second. */
  lemma DecideSequence(a: seq<Rule>, b: seq<Rule>, sets: seq<SetDecl>, p: Packet)
    ensures FirstHit(a + b, sets, p) ==
            (if FirstHit(a, sets, p) < |a| then FirstHit(a, sets, p) else |a| + FirstHit(b, sets, p))
    ensures Decide(a + b, sets, p) ==
            (if Decide(a, sets, p).Some? then Decide(a, sets, p) else Decide(b, sets, p))
  {
    var i, j := FirstHit(a, sets, p), FirstHit(b, sets, p);
    var k := if i < |a| then i else |a| + j;
    assert forall n :: 0 <= n < |a| ==> (a + b)[n] == a[n];
    assert forall n :: |a| <= n < |a| + |b| ==> (a + b)[n] == b[n - |a|];
    FirstHitIsLeast(a + b, sets, p, k);
  }

  /** A block whose rules share one verdict is order-free. */
  lemma DecideUniform(rs: seq<Rule>, v: Verdict, sets: seq<SetDecl>, p: Packet)
    requires forall i :: 0 <= i < |rs| ==> rs[i].verdict == v
    ensures Decide(rs, sets, p) == if AnyHit(rs, sets, p) then Some(v) else None
  {
  }

  lemma HoldsConcat(a: seq<Match>, b: seq<Match>, sets: seq<SetDecl>, p: Packet)
    ensures AllHold(a + b, sets, p) <==> AllHold(a, sets, p) && AllHold(b, sets, p)
  {
    var ms := a + b;
    if AllHold(ms, sets, p) {
      forall i | 0 <= i < |a| ensures Holds(a[i], sets, p) {
        assert ms[i] == a[i];
      }
      forall i | 0 <= i < |b| ensures Holds(b[i], sets, p) {
        assert ms[|a| + i] == b[i];
      }
    }
  }

  lemma Holds1(a: Match, sets: seq<SetDecl>, p: Packet)
    ensures AllHold([a], sets, p) <==> Holds(a, sets, p)
  {
    assert [a][0] == a;
  }

  lemma Holds2(a: Match, b: Match, sets: seq<SetDecl>, p: Packet)
    ensures AllHold([a, b], sets, p) <==> Holds(a, sets, p) && Holds(b, sets, p)
  {
    var ms := [a, b];
    assert ms[0] == a && ms[1] == b;
  }

  lemma Holds3(a: Match, b: Match, c: Match, sets: seq<SetDecl>, p: Packet)
    ensures AllHold([a, b, c], sets, p) <==> Holds(a, sets, p) && Holds(b, sets, p) && Holds(c, sets, p)
  {
    var ms := [a, b, c];
    assert ms[0] == a && ms[1] == b && ms[2] == c;
  }

  lemma Holds4(a: Match, b: Match, c: Match, d: Match, sets: seq<SetDecl>, p: Packet)
    ensures AllHold([a, b, c, d], sets, p) <==>
            Holds(a, sets, p) && Holds(b, sets, p) && Holds(c, sets, p) && Holds(d, sets, p)
  {
    var ms := [a, b, c, d];
    assert ms[0] == a && ms[1] == b && ms[2] == c && ms[3] == d;
  }

  lemma InOne(e: Element, x: Addr)
    ensures InElements([e], x) <==> InElement(e, x)
  {
    assert [e][0] == e;
  }

  /** What a block emitted by a loop hits is what some turn's rules hit. */
  lemma AnyHitFlatMap<T>(xs: seq<T>, f: T -> seq<Rule>, sets: seq<SetDecl>, p: Packet)
    ensures AnyHit(FlatMap(xs, f), sets, p) <==> exists i :: 0 <= i < |xs| && AnyHit(f(xs[i]), sets, p)
  {
    var rs := FlatMap(xs, f);
    if i :| 0 <= i < |rs| && Hits(rs[i], sets, p) {
      FlatMapMembers(xs, f, rs[i]);
      var n :| 0 <= n < |xs| && rs[i] in f(xs[n]);
      assert AnyHit(f(xs[n]), sets, p);
    }
    if n :| 0 <= n < |xs| && AnyHit(f(xs[n]), sets, p) {
      var j :| 0 <= j < |f(xs[n])| && Hits(f(xs[n])[j], sets, p);
      FlatMapMembers(xs, f, f(xs[n])[j]);
      var i :| 0 <= i < |rs| && rs[i] == f(xs[n])[j];
      assert Hits(rs[i], sets, p);
    }
  }

  lemma {:induction false} OneRuleEach<T>(xs: seq<T>, f: T -> seq<Rule>)
    requires forall i :: 0 <= i < |xs| ==> |f(xs[i])| == 1
    ensures |FlatMap(xs, f)| == |xs|
    ensures forall i :: 0 <= i < |xs| ==> FlatMap(xs, f)[i] == f(xs[i])[0]
  {
    if xs != [] {
      OneRuleEach(xs[1..], f);
    }
  }

  /** With one rule per element, the first element whose rule hits decides. */
  lemma DecideByElement<T>(xs: seq<T>, f: T -> seq<Rule>, sets: seq<SetDecl>, p: Packet, k: nat)
    requires forall i :: 0 <= i < |xs| ==> |f(xs[i])| == 1
    requires k <= |xs|
    requires k < |xs| ==> Hits(f(xs[k])[0], sets, p)
    requires forall j :: 0 <= j < k ==> !Hits(f(xs[j])[0], sets, p)
    ensures Decide(FlatMap(xs, f), sets, p) == if k < |xs| then Some(f(xs[k])[0].verdict) else None
  {
    OneRuleEach(xs, f);
    FirstHitIsLeast(FlatMap(xs, f), sets, p, k);
  }

  lemma AnyHitConcat(a: seq<Rule>, b: seq<Rule>, sets: seq<SetDecl>, p: Packet)
    ensures AnyHit(a + b, sets, p) <==> AnyHit(a, sets, p) || AnyHit(b, sets, p)
  {
    var rs := a + b;
    if i :| 0 <= i < |a| && Hits(a[i], sets, p) {
      assert rs[i] == a[i];
    }
    if i :| 0 <= i < |b| && Hits(b[i], sets, p) {
      assert rs[|a| + i] == b[i];
    }
  }

  lemma AnyHitOne(r: Rule, sets: seq<SetDecl>, p: Packet)
    ensures AnyHit([r], sets, p) <==> Hits(r, sets, p)
  {
    assert [r][0] == r;
  }
}
