/** Running the automatic map again on ports that already carry their logical names. */
module PortMapAgain {
  import opened Sequences
  import opened Text
  import opened PortMap

  // ---- sorting --------------------------------------------------------------------------------------

  ghost predicate InOrder(ports: seq<Port>) {
    forall i, j :: 0 <= i < j < |ports| ==> !Less(ports[j].kernel, ports[i].kernel)
  }

  lemma {:induction false} InsertMembers(p: Port, ports: seq<Port>, q: Port)
    ensures q in Insert(p, ports) <==> q == p || q in ports
  {
    if ports != [] && !Less(p.kernel, ports[0].kernel) {
      InsertMembers(p, ports[1..], q);
      assert ports == [ports[0]] + ports[1..];
    }
  }

  lemma NotLessChains(a: string, b: string, c: string)
    requires !Less(b, a) && !Less(c, b)
    ensures !Less(c, a)
  {
    LessIsStrict(a, b);
    LessIsStrict(b, c);
    LessIsStrict(a, c);
    if Less(a, b) && Less(b, c) {
      LessIsTransitive(a, b, c);
    }
  }

  lemma {:induction false} InsertKeepsOrder(p: Port, ports: seq<Port>)
    requires InOrder(ports)
    ensures InOrder(Insert(p, ports))
  {
    if ports == [] {
    } else if Less(p.kernel, ports[0].kernel) {
      forall j | 0 <= j < |ports| ensures !Less(ports[j].kernel, p.kernel) {
        LessIsStrict(p.kernel, ports[0].kernel);
        NotLessChains(p.kernel, ports[0].kernel, ports[j].kernel) by {
          LessIsStrict(ports[0].kernel, ports[0].kernel);
        }
      }
    } else {
      var rest := Insert(p, ports[1..]);
      InsertKeepsOrder(p, ports[1..]);
      forall j | 0 <= j < |rest| ensures !Less(rest[j].kernel, ports[0].kernel) {
        InsertMembers(p, ports[1..], rest[j]);
        if rest[j] in ports[1..] {
          var k :| 0 <= k < |ports[1..]| && ports[1..][k] == rest[j];
          assert ports[k + 1] == rest[j];
        }
      }
    }
  }

  lemma {:induction false} SortedIsInOrder(ports: seq<Port>)
    ensures InOrder(Sorted(ports))
    ensures forall q :: q in Sorted(ports) <==> q in ports
  {
    if ports != [] {
      var n := |ports| - 1;
      SortedIsInOrder(ports[..n]);
      InsertKeepsOrder(ports[n], Sorted(ports[..n]));
      forall q ensures q in Sorted(ports) <==> q in ports {
        InsertMembers(ports[n], Sorted(ports[..n]), q);
        assert ports == ports[..n] + [ports[n]];
      }
    }
  }

  ghost predicate Apart(p: Port, q: Port) { Usable(p) && Usable(q) ==> p.mac != q.mac }

  lemma SharesInserted(q: Port, p: Port, ports: seq<Port>)
    ensures SharesMac(q, Insert(p, ports)) <==> (Usable(p) && p.mac == q.mac) || SharesMac(q, ports)
  {
    SharesMacIsMembership(q, Insert(p, ports));
    SharesMacIsMembership(q, ports);
    forall x ensures x in Insert(p, ports) <==> x == p || x in ports {
      InsertMembers(p, ports, x);
    }
  }

  lemma SharesCons(q: Port, p: Port, ports: seq<Port>)
    ensures SharesMac(q, [p] + ports) <==> (Usable(p) && p.mac == q.mac) || SharesMac(q, ports)
  {
    SharesMacIsMembership(q, [p] + ports);
    SharesMacIsMembership(q, ports);
  }

  lemma DistinctCons(p: Port, ports: seq<Port>)
    ensures DistinctMacs([p] + ports) <==> DistinctMacs(ports) && (Usable(p) ==> !SharesMac(p, ports))
  {
    assert ([p] + ports)[1..] == ports;
  }

  lemma {:induction false} InsertKeepsApart(p: Port, ports: seq<Port>)
    ensures DistinctMacs(Insert(p, ports)) <==> DistinctMacs([p] + ports)
  {
    if ports != [] && !Less(p.kernel, ports[0].kernel) {
      var q, rest := ports[0], ports[1..];
      assert ports == [q] + rest;
      InsertKeepsApart(p, rest);
      DistinctCons(q, Insert(p, rest));
      DistinctCons(p, rest);
      DistinctCons(p, ports);
      DistinctCons(q, rest);
      SharesInserted(q, p, rest);
      SharesCons(p, q, rest);
    }
  }

  lemma SharesMacIsMembership(p: Port, ports: seq<Port>)
    ensures SharesMac(p, ports) <==> exists q :: q in ports && Usable(q) && q.mac == p.mac
  {
  }

  lemma LastApart(a: seq<Port>, sorted: seq<Port>, p: Port)
    requires forall q :: q in sorted <==> q in a
    requires DistinctMacs(sorted) <==> DistinctMacs(a)
    ensures DistinctMacs([p] + sorted) <==> DistinctMacs(a + [p])
  {
    var all := a + [p];
    SharesMacIsMembership(p, sorted);
    assert ([p] + sorted)[1..] == sorted;
    DistinctIsPairwise(all);
    DistinctIsPairwise(a);
    assert forall i :: 0 <= i < |a| ==> all[i] == a[i];
    assert all[|a|] == p;
    if Usable(p) && SharesMac(p, sorted) {
      var q :| q in sorted && Usable(q) && q.mac == p.mac;
      var i :| 0 <= i < |a| && a[i] == q;
      assert !DistinctMacs(all);
    } else {
      forall i | 0 <= i < |a| ensures Apart(a[i], p) {
        assert a[i] in sorted;
      }
    }
  }

  lemma {:induction false} SortedKeepsApart(ports: seq<Port>)
    ensures DistinctMacs(Sorted(ports)) <==> DistinctMacs(ports)
  {
    if ports != [] {
      var n := |ports| - 1;
      SortedKeepsApart(ports[..n]);
      SortedIsInOrder(ports[..n]);
      InsertKeepsApart(ports[n], Sorted(ports[..n]));
      LastApart(ports[..n], Sorted(ports[..n]), ports[n]);
      assert ports == ports[..n] + [ports[n]];
    }
  }

  // ---- what the first run assigned -------------------------------------------------------------------

  ghost predicate AllUsable(ports: seq<Port>) { forall i :: 0 <= i < |ports| ==> Usable(ports[i]) }

  lemma {:induction false} AssignShape(ports: seq<Port>, lan: string, wan: string, spare: nat)
    requires AllUsable(ports)
    ensures
      var as_ := Assign(ports, lan, wan, spare);
      |as_| == |ports| && forall i :: 0 <= i < |ports| ==> as_[i].mac == ports[i].mac.value && as_[i].kernel == ports[i].kernel
  {
    if ports != [] {
      AssignShape(ports[1..], lan, wan, spare);
      AssignShape(ports[1..], lan, wan, spare + 1);
    }
  }

  function Spares(ports: seq<Port>, lan: string, wan: string): nat {
    if ports == [] then 0
    else (if ports[0].kernel == lan || ports[0].kernel == wan then 0 else 1) + Spares(ports[1..], lan, wan)
  }

  ghost predicate NameOf(as_: seq<Assignment>, s: string) { exists i :: 0 <= i < |as_| && as_[i].name == s }

  lemma NameOfCons(a: Assignment, rest: seq<Assignment>, s: string)
    ensures NameOf([a] + rest, s) <==> a.name == s || NameOf(rest, s)
  {
    var all := [a] + rest;
    assert all[0] == a && forall i :: 0 <= i < |rest| ==> all[i + 1] == rest[i];
    assert forall i :: 0 < i < |all| ==> all[i] == rest[i - 1];
  }

  lemma HasKernelCons(ports: seq<Port>, k: string)
    requires ports != []
    ensures HasKernel(ports, k) <==> ports[0].kernel == k || HasKernel(ports[1..], k)
  {
    assert forall i :: 0 < i < |ports| ==> ports[i] == ports[1..][i - 1];
    assert forall i :: 0 <= i < |ports[1..]| ==> ports[1..][i] == ports[i + 1];
  }

  ghost predicate SpareAmong(s: string, from: nat, count: nat) {
    exists j :: from < j <= from + count && s == SpareName(j)
  }

  lemma SpareAmongCons(s: string, from: nat, count: nat)
    ensures SpareAmong(s, from, count + 1) <==> s == SpareName(from + 1) || SpareAmong(s, from + 1, count)
  {
    if j :| from < j <= from + count + 1 && s == SpareName(j) {
      assert j == from + 1 || from + 1 < j;
    }
  }

  /** The names handed out: the roles that were found, and net1 to netN for the N spares. */
  lemma {:induction false} AssignedNames(ports: seq<Port>, lan: string, wan: string, spare: nat, s: string)
    requires AllUsable(ports) && lan != wan
    ensures NameOf(Assign(ports, lan, wan, spare), s) <==>
      || (s == LAN_NAME && HasKernel(ports, lan)) || (s == WAN_NAME && HasKernel(ports, wan))
      || SpareAmong(s, spare, Spares(ports, lan, wan))
  {
    if ports != [] {
      var p, next := ports[0], NextSpare(ports[0], lan, wan, spare);
      HasKernelCons(ports, lan);
      HasKernelCons(ports, wan);
      AssignHead(ports, lan, wan, spare);
      AssignedNames(ports[1..], lan, wan, next, s);
      NameOfCons(HeadOf(p, lan, wan, spare), Assign(ports[1..], lan, wan, next), s);
      SpareAmongCons(s, spare, Spares(ports[1..], lan, wan));
    }
  }

  // ---- the renamed ports ---------------------------------------------------------------------------------

  function NameFor(as_: seq<Assignment>, mac: nat, otherwise: string): string {
    if as_ == [] then otherwise else if as_[0].mac == mac then as_[0].name else NameFor(as_[1..], mac, otherwise)
  }

  function RenamedPort(as_: seq<Assignment>, p: Port): Port {
    if Usable(p) then Port(NameFor(as_, p.mac.value, p.kernel), p.mac) else p
  }

  /** The same machine after the renames. */
  function RenamedPorts(as_: seq<Assignment>, ports: seq<Port>): seq<Port> {
    seq(|ports|, i requires 0 <= i < |ports| => RenamedPort(as_, ports[i]))
  }

  lemma {:induction false} NameForFinds(as_: seq<Assignment>, i: nat, otherwise: string)
    requires i < |as_| && forall j, k :: 0 <= j < k < |as_| ==> as_[j].mac != as_[k].mac
    ensures NameFor(as_, as_[i].mac, otherwise) == as_[i].name
  {
    if i > 0 {
      NameForFinds(as_[1..], i - 1, otherwise);
    }
  }

  function NewRole(role: string, name: string): string { if role == "" then "" else name }

  function Kernels(ports: seq<Port>): seq<string> {
    seq(|ports|, i requires 0 <= i < |ports| => ports[i].kernel)
  }

  lemma {:induction false} UsablesKeepOrder(ports: seq<Port>)
    requires InOrder(ports) && DistinctMacs(ports)
    ensures InOrder(Usables(ports)) && AllUsable(Usables(ports))
    ensures forall i, j :: 0 <= i < j < |Usables(ports)| ==> Usables(ports)[i].mac != Usables(ports)[j].mac
  {
    if ports != [] {
      UsablesKeepOrder(ports[1..]);
      var rest := Usables(ports[1..]);
      forall k | 0 <= k < |rest|
        ensures Usable(rest[k]) && !Less(rest[k].kernel, ports[0].kernel) && (Usable(ports[0]) ==> rest[k].mac != ports[0].mac)
      {
        UsablesAreUsable(ports[1..], rest[k]);
        var m :| 0 <= m < |ports[1..]| && ports[1..][m] == rest[k];
        assert ports[m + 1] == rest[k];
      }
    }
  }

  /** A run that succeeded, on ports whose kernel names are real. */
  ghost predicate FirstRun(ports: seq<Port>, lan: string, wan: string) {
    && Succeeds(ports, lan, wan)
    && forall i :: 0 <= i < |ports| ==> ports[i].kernel != ""
  }

  lemma UsedPorts(ports: seq<Port>)
    requires DistinctMacs(Sorted(ports))
    ensures
      var u := Usables(Sorted(ports));
      && AllUsable(u) && InOrder(u)
      && (forall i, j :: 0 <= i < j < |u| ==> u[i].mac != u[j].mac)
      && (forall p :: p in u <==> p in ports && Usable(p))
  {
    SortedIsInOrder(ports);
    UsablesKeepOrder(Sorted(ports));
    forall p ensures p in Usables(Sorted(ports)) <==> p in ports && Usable(p) {
      UsablesAreUsable(Sorted(ports), p);
    }
  }

  /** The map holds exactly the ports with a MAC that is not all zeroes, in kernel order; the two roles get
      lan0 and wan1, and every other port its number among the others. */
  lemma MapIsExact(ports: seq<Port>, lan: string, wan: string)
    requires Succeeds(ports, lan, wan)
    ensures
      var as_ := Derived(ports, lan, wan);
      && (forall i :: 0 <= i < |as_| ==> as_[i].mac != 0 && Port(as_[i].kernel, Some(as_[i].mac)) in ports)
      && (forall p :: p in ports && p.mac.Some? && p.mac.value != 0 ==>
            exists i :: 0 <= i < |as_| && as_[i].kernel == p.kernel && as_[i].mac == p.mac.value)
      && (forall i, j :: 0 <= i < j < |as_| ==> !Less(as_[j].kernel, as_[i].kernel))
  {
    UsedPorts(ports);
    var u, as_ := Usables(Sorted(ports)), Derived(ports, lan, wan);
    AssignShape(u, lan, wan, 0);
    forall i | 0 <= i < |as_| ensures as_[i].mac != 0 && Port(as_[i].kernel, Some(as_[i].mac)) in ports {
      assert u[i] in ports && Usable(u[i]) && u[i] == Port(as_[i].kernel, Some(as_[i].mac));
    }
    forall p | p in ports && p.mac.Some? && p.mac.value != 0
      ensures exists i :: 0 <= i < |as_| && as_[i].kernel == p.kernel && as_[i].mac == p.mac.value
    {
      assert p in u;
      var i :| 0 <= i < |u| && u[i] == p;
      assert as_[i].kernel == p.kernel;
    }
  }

  /** Positions of the ports that have no role. */
  ghost function RolelessBefore(as_: seq<Assignment>, k: nat, lan: string, wan: string): set<nat>
    requires k <= |as_|
  {
    set i: nat | i < k && as_[i].kernel != lan && as_[i].kernel != wan
  }

  /** The name of each assignment: by its role, or by the number of roleless ports up to it. */
  lemma NamesAreExact(ports: seq<Port>, lan: string, wan: string, k: nat)
    requires Succeeds(ports, lan, wan) && k < |Derived(ports, lan, wan)|
    ensures
      var as_ := Derived(ports, lan, wan);
      as_[k].name == if as_[k].kernel == lan then "lan0" else if as_[k].kernel == wan then "wan1"
                     else "net" + Decimal(|RolelessBefore(as_, k, lan, wan)| + 1)
  {
    UsedPorts(ports);
    var u, as_ := Usables(Sorted(ports)), Derived(ports, lan, wan);
    AssignShape(u, lan, wan, 0);
    SparesCountRoleless(u, as_, k, lan, wan);
    AssignAt(u, lan, wan, 0, k, Spares(u[..k], lan, wan));
  }

  lemma {:induction false} SparesCountRoleless(ports: seq<Port>, as_: seq<Assignment>, k: nat, lan: string, wan: string)
    requires k <= |ports| == |as_| && forall i :: 0 <= i < |ports| ==> as_[i].kernel == ports[i].kernel
    ensures Spares(ports[..k], lan, wan) == |RolelessBefore(as_, k, lan, wan)|
  {
    if k == 0 {
      assert RolelessBefore(as_, 0, lan, wan) == {};
    } else {
      SparesCountRoleless(ports, as_, k - 1, lan, wan);
      SparesGrow(ports, lan, wan, k - 1);
      var before := RolelessBefore(as_, k - 1, lan, wan);
      if as_[k - 1].kernel != lan && as_[k - 1].kernel != wan {
        assert RolelessBefore(as_, k, lan, wan) == before + {k - 1};
      } else {
        assert RolelessBefore(as_, k, lan, wan) == before;
      }
    }
  }

  lemma {:induction false} SparesGrow(ports: seq<Port>, lan: string, wan: string, k: nat)
    requires k < |ports|
    ensures Spares(ports[..k + 1], lan, wan) ==
            Spares(ports[..k], lan, wan) + if ports[k].kernel == lan || ports[k].kernel == wan then 0 else 1
  {
    if k > 0 {
      SparesGrow(ports[1..], lan, wan, k - 1);
      assert ports[..k + 1][1..] == ports[1..][..k] && ports[..k][1..] == ports[1..][..k - 1];
    }
  }

  lemma RenamedFromAssignment(ports: seq<Port>, lan: string, wan: string, p: Port) returns (i: nat)
    requires Succeeds(ports, lan, wan) && p in ports && Usable(p)
    ensures
      var as_ := Derived(ports, lan, wan);
      i < |as_| && as_[i].mac == p.mac.value && RenamedPort(as_, p) == Port(as_[i].name, p.mac)
  {
    UsedPorts(ports);
    var u, as_ := Usables(Sorted(ports)), Derived(ports, lan, wan);
    AssignShape(u, lan, wan, 0);
    i :| 0 <= i < |u| && u[i] == p;
    NameForFinds(as_, i, p.kernel);
  }

  lemma AssignmentToRenamed(ports: seq<Port>, lan: string, wan: string, i: nat) returns (p: Port)
    requires Succeeds(ports, lan, wan) && i < |Derived(ports, lan, wan)|
    ensures
      var as_ := Derived(ports, lan, wan);
      p in ports && Usable(p) && RenamedPort(as_, p) == Port(as_[i].name, p.mac)
  {
    UsedPorts(ports);
    var u, as_ := Usables(Sorted(ports)), Derived(ports, lan, wan);
    AssignShape(u, lan, wan, 0);
    p := u[i];
    NameForFinds(as_, i, p.kernel);
  }

  lemma RenamedStayApart(as_: seq<Assignment>, ports: seq<Port>)
    ensures DistinctMacs(Sorted(RenamedPorts(as_, ports))) <==> DistinctMacs(Sorted(ports))
  {
    var q := RenamedPorts(as_, ports);
    SortedKeepsApart(ports);
    SortedKeepsApart(q);
    DistinctIsPairwise(ports);
    DistinctIsPairwise(q);
    assert forall i :: 0 <= i < |ports| ==> q[i].mac == ports[i].mac && (Usable(q[i]) <==> Usable(ports[i]));
  }

  /** The usable ports of the renamed machine, in order, carry exactly the assigned names. */
  lemma RenamedKernels(ports: seq<Port>, lan: string, wan: string)
    requires Succeeds(ports, lan, wan)
    ensures
      var as_ := Derived(ports, lan, wan);
      var again := Usables(Sorted(RenamedPorts(as_, ports)));
      && DistinctMacs(Sorted(RenamedPorts(as_, ports)))
      && AllUsable(again)
      && (forall i, j :: 0 <= i < j < |again| ==> again[i].mac != again[j].mac)
      && (forall s :: s in Kernels(again) <==> NameOf(as_, s))
      && Ascending(Kernels(again))
  {
    var as_ := Derived(ports, lan, wan);
    RenamedStayApart(as_, ports);
    UsedPorts(RenamedPorts(as_, ports));
    var again := Usables(Sorted(RenamedPorts(as_, ports)));
    forall s ensures s in Kernels(again) <==> NameOf(as_, s) {
      RenamedKernelIsAName(ports, lan, wan, again, s);
    }
    forall i, j | 0 <= i < j < |again| ensures Less(Kernels(again)[i], Kernels(again)[j]) {
      FromRenamed(ports, lan, wan, again[i]);
      FromRenamed(ports, lan, wan, again[j]);
      LessIsStrict(again[i].kernel, again[j].kernel);
    }
  }

  lemma RenamedKernelIsAName(ports: seq<Port>, lan: string, wan: string, again: seq<Port>, s: string)
    requires Succeeds(ports, lan, wan)
    requires forall q :: q in again <==> q in RenamedPorts(Derived(ports, lan, wan), ports) && Usable(q)
    ensures s in Kernels(again) <==> NameOf(Derived(ports, lan, wan), s)
  {
    var as_ := Derived(ports, lan, wan);
    if s in Kernels(again) {
      var k :| 0 <= k < |again| && again[k].kernel == s;
      FromRenamed(ports, lan, wan, again[k]);
    }
    if NameOf(as_, s) {
      var i :| 0 <= i < |as_| && as_[i].name == s;
      var p := AssignmentToRenamed(ports, lan, wan, i);
      InRenamed(as_, ports, p);
      var k :| 0 <= k < |again| && again[k] == RenamedPort(as_, p);
      assert Kernels(again)[k] == s;
    }
  }

  lemma InRenamed(as_: seq<Assignment>, ports: seq<Port>, p: Port)
    requires p in ports
    ensures RenamedPort(as_, p) in RenamedPorts(as_, ports)
  {
    var i :| 0 <= i < |ports| && ports[i] == p;
    assert RenamedPorts(as_, ports)[i] == RenamedPort(as_, p);
  }

  /** A usable renamed port carries the name assigned to its MAC. */
  lemma FromRenamed(ports: seq<Port>, lan: string, wan: string, q: Port)
    requires Succeeds(ports, lan, wan) && q in RenamedPorts(Derived(ports, lan, wan), ports) && Usable(q)
    ensures
      var as_ := Derived(ports, lan, wan);
      exists i :: 0 <= i < |as_| && as_[i].mac == q.mac.value && as_[i].name == q.kernel
  {
    var as_ := Derived(ports, lan, wan);
    var k :| 0 <= k < |ports| && RenamedPort(as_, ports[k]) == q;
    var i := RenamedFromAssignment(ports, lan, wan, ports[k]);
  }

  // ---- the second run ---------------------------------------------------------------------------------------

  lemma LogicalNamesDiffer(j: nat)
    ensures SpareName(j) != LAN_NAME && SpareName(j) != WAN_NAME && SpareName(j) != "" && LAN_NAME != WAN_NAME
    ensures Less(LAN_NAME, SpareName(j)) && Less(SpareName(j), WAN_NAME) && Less(LAN_NAME, WAN_NAME)
  {
    assert SpareName(j)[0] == 'n' && LAN_NAME[0] == 'l' && WAN_NAME[0] == 'w';
  }

  lemma SpareNamesDiffer(i: nat, j: nat)
    requires SpareName(i) == SpareName(j)
    ensures i == j
  {
    assert Decimal(i) == SpareName(i)[3..] && Decimal(j) == SpareName(j)[3..];
    DecimalIsInjective(i, j);
  }

  function Nets(from: nat, count: nat): seq<string> {
    seq(count, i requires 0 <= i < count => SpareName(from + 1 + i))
  }

  function RoleList(present: bool, name: string): seq<string> { if present then [name] else [] }

  /** The names of a machine with these roles and n spares, in logical order. */
  function Logical(hasLan: bool, n: nat, hasWan: bool): seq<string> {
    RoleList(hasLan, LAN_NAME) + Nets(0, n) + RoleList(hasWan, WAN_NAME)
  }

  lemma LogicalIsAscending(hasLan: bool, n: nat, hasWan: bool)
    requires n <= 9
    ensures Ascending(Logical(hasLan, n, hasWan))
  {
    var l := Logical(hasLan, n, hasWan);
    var h := if hasLan then 1 else 0;
    forall i, j | 0 <= i < j < |l| ensures Less(l[i], l[j]) {
      LogicalNamesDiffer(i + 1 - h);
      LogicalNamesDiffer(if j >= h then j + 1 - h else 0);
      if h <= i && j < h + n {
        var a, b := i + 1 - h, j + 1 - h;
        NoLeadingZero(a);
        NoLeadingZero(b);
        SameLengthSortsByValue(a, b);
        LessAfterPrefix("net", Decimal(a), Decimal(b));
      }
    }
  }

  lemma LogicalMembers(hasLan: bool, n: nat, hasWan: bool, s: string)
    ensures s in Logical(hasLan, n, hasWan) <==>
      (s == LAN_NAME && hasLan) || (s == WAN_NAME && hasWan) || (exists j :: 0 < j <= n && s == SpareName(j))
  {
    if j :| 0 < j <= n && s == SpareName(j) {
      assert Nets(0, n)[j - 1] == s;
    }
    if s in Nets(0, n) {
      var i :| 0 <= i < n && Nets(0, n)[i] == s;
      assert s == SpareName(i + 1);
    }
  }

  /** Each port already carries the name the pass would give it. */
  predicate Numbered(ports: seq<Port>, lan: string, wan: string, spare: nat) {
    ports == [] ||
    (if ports[0].kernel == lan then lan == LAN_NAME && Numbered(ports[1..], lan, wan, spare)
     else if ports[0].kernel == wan then wan == WAN_NAME && Numbered(ports[1..], lan, wan, spare)
     else ports[0].kernel == SpareName(spare + 1) && Numbered(ports[1..], lan, wan, spare + 1))
  }

  lemma {:induction false} NumberedKeepNames(ports: seq<Port>, lan: string, wan: string, spare: nat)
    requires AllUsable(ports) && Numbered(ports, lan, wan, spare)
    ensures forall i :: 0 <= i < |Assign(ports, lan, wan, spare)| ==>
              Assign(ports, lan, wan, spare)[i].name == Assign(ports, lan, wan, spare)[i].kernel
  {
    if ports != [] {
      var next := if ports[0].kernel == lan || ports[0].kernel == wan then spare else spare + 1;
      NumberedKeepNames(ports[1..], lan, wan, next);
    }
  }

  lemma {:induction false} NetsAreNumbered(ports: seq<Port>, lan: string, wan: string, spare: nat, n: nat, hasWan: bool)
    requires Kernels(ports) == Nets(spare, n) + RoleList(hasWan, WAN_NAME)
    requires lan in {"", LAN_NAME} && wan == (if hasWan then WAN_NAME else "")
    ensures Numbered(ports, lan, wan, spare)
    decreases n
  {
    LogicalNamesDiffer(spare + 1);
    assert |ports| == n + |RoleList(hasWan, WAN_NAME)|;
    if n > 0 {
      assert Kernels(ports)[0] == SpareName(spare + 1);
      assert Kernels(ports[1..]) == Kernels(ports)[1..];
      assert Nets(spare, n)[1..] == Nets(spare + 1, n - 1);
      assert (Nets(spare, n) + RoleList(hasWan, WAN_NAME))[1..] == Nets(spare, n)[1..] + RoleList(hasWan, WAN_NAME);
      NetsAreNumbered(ports[1..], lan, wan, spare + 1, n - 1, hasWan);
    } else if hasWan {
      assert Kernels(ports)[0] == WAN_NAME;
    }
  }

  lemma LogicalIsNumbered(ports: seq<Port>, hasLan: bool, n: nat, hasWan: bool)
    requires Kernels(ports) == Logical(hasLan, n, hasWan)
    ensures Numbered(ports, if hasLan then LAN_NAME else "", if hasWan then WAN_NAME else "", 0)
  {
    var lan, wan := if hasLan then LAN_NAME else "", if hasWan then WAN_NAME else "";
    if hasLan {
      assert Kernels(ports)[0] == LAN_NAME;
      assert Kernels(ports[1..]) == Kernels(ports)[1..];
      assert Logical(hasLan, n, hasWan)[1..] == Nets(0, n) + RoleList(hasWan, WAN_NAME);
      NetsAreNumbered(ports[1..], lan, wan, 0, n, hasWan);
    } else {
      assert Kernels(ports) == Nets(0, n) + RoleList(hasWan, WAN_NAME);
      NetsAreNumbered(ports, lan, wan, 0, n, hasWan);
    }
  }

  /** How many ports got a spare name in the first run. */
  ghost function SpareCount(ports: seq<Port>, lan: string, wan: string): nat {
    Spares(Usables(Sorted(ports)), lan, wan)
  }

  lemma RolesAreFound(ports: seq<Port>, lan: string, wan: string)
    requires FirstRun(ports, lan, wan)
    ensures HasKernel(Usables(Sorted(ports)), lan) <==> lan != ""
    ensures HasKernel(Usables(Sorted(ports)), wan) <==> wan != ""
  {
    UsedPorts(ports);
    var u := Usables(Sorted(ports));
    forall i | 0 <= i < |u| ensures u[i].kernel != "" {
      assert u[i] in ports;
    }
  }

  /** With both roles empty every port is a spare, so the two names cannot be confused. */
  lemma AssignedNamesOfRun(ports: seq<Port>, lan: string, wan: string, s: string)
    requires FirstRun(ports, lan, wan)
    ensures NameOf(Derived(ports, lan, wan), s) <==> s in Logical(lan != "", SpareCount(ports, lan, wan), wan != "")
  {
    UsedPorts(ports);
    RolesAreFound(ports, lan, wan);
    LogicalMembers(lan != "", SpareCount(ports, lan, wan), wan != "", s);
    if lan != wan {
      AssignedNames(Usables(Sorted(ports)), lan, wan, 0, s);
    } else {
      AllSpares(Usables(Sorted(ports)), 0, s);
    }
  }

  lemma {:induction false} AllSpares(ports: seq<Port>, spare: nat, s: string)
    requires AllUsable(ports) && !HasKernel(ports, "")
    ensures NameOf(Assign(ports, "", "", spare), s) <==> exists j :: spare < j <= spare + Spares(ports, "", "") && s == SpareName(j)
  {
    if ports != [] {
      HasKernelCons(ports, "");
      AllSpares(ports[1..], spare + 1, s);
      NameOfCons(Assign(ports, "", "", spare)[0], Assign(ports[1..], "", "", spare + 1), s);
    }
  }

  lemma AgainIsLogical(ports: seq<Port>, lan: string, wan: string)
    requires FirstRun(ports, lan, wan) && SpareCount(ports, lan, wan) <= 9
    ensures
      var again := Usables(Sorted(RenamedPorts(Derived(ports, lan, wan), ports)));
      AllUsable(again) && Kernels(again) == Logical(lan != "", SpareCount(ports, lan, wan), wan != "")
  {
    var n := SpareCount(ports, lan, wan);
    var again := Usables(Sorted(RenamedPorts(Derived(ports, lan, wan), ports)));
    RenamedKernels(ports, lan, wan);
    forall s ensures s in Kernels(again) <==> s in Logical(lan != "", n, wan != "") {
      AssignedNamesOfRun(ports, lan, wan, s);
    }
    LogicalIsAscending(lan != "", n, wan != "");
    AscendingIsUnique(Kernels(again), Logical(lan != "", n, wan != ""));
  }

  lemma AgainKeepsNames(again: seq<Port>, hasLan: bool, n: nat, hasWan: bool)
    requires AllUsable(again) && Kernels(again) == Logical(hasLan, n, hasWan)
    ensures
      var as2 := Assign(again, if hasLan then LAN_NAME else "", if hasWan then WAN_NAME else "", 0);
      |as2| == |again| && forall i :: 0 <= i < |as2| ==>
        as2[i].mac == again[i].mac.value && as2[i].kernel == again[i].kernel && as2[i].name == as2[i].kernel
  {
    var lan, wan := if hasLan then LAN_NAME else "", if hasWan then WAN_NAME else "";
    LogicalIsNumbered(again, hasLan, n, hasWan);
    NumberedKeepNames(again, lan, wan, 0);
    AssignShape(again, lan, wan, 0);
  }

  lemma EmptyPlan(as_: seq<Assignment>)
    requires forall i :: 0 <= i < |as_| ==> as_[i].name == as_[i].kernel
    ensures RenamePlan(as_) == []
  {
    if RenamePlan(as_) != [] {
      PlanIsSubset(as_, RenamePlan(as_)[0]);
      assert false;
    }
  }

  /** Running again is a fixed point when there are at most nine spare ports: it succeeds, and the
      plan is empty because every port already carries its name. */
  lemma NineSparesAreStable(ports: seq<Port>, lan: string, wan: string)
    requires FirstRun(ports, lan, wan) && SpareCount(ports, lan, wan) <= 9
    ensures
      var q := RenamedPorts(Derived(ports, lan, wan), ports);
      var lan2, wan2 := NewRole(lan, LAN_NAME), NewRole(wan, WAN_NAME);
      Succeeds(q, lan2, wan2) && RenamePlan(Derived(q, lan2, wan2)) == []
  {
    var q := RenamedPorts(Derived(ports, lan, wan), ports);
    var again := Usables(Sorted(q));
    var as2 := Derived(q, NewRole(lan, LAN_NAME), NewRole(wan, WAN_NAME));
    AgainIsLogical(ports, lan, wan);
    AgainKeepsNames(again, lan != "", SpareCount(ports, lan, wan), wan != "");
    SecondMapIsOk(ports, lan, wan, again, as2);
    RolesFoundAgain(again, lan != "", SpareCount(ports, lan, wan), wan != "");
    RenamedStayApart(Derived(ports, lan, wan), ports);
    EmptyPlan(as2);
    LogicalNamesDiffer(0);
  }

  lemma RolesFoundAgain(again: seq<Port>, hasLan: bool, n: nat, hasWan: bool)
    requires Kernels(again) == Logical(hasLan, n, hasWan)
    ensures hasLan ==> HasKernel(again, LAN_NAME)
    ensures hasWan ==> HasKernel(again, WAN_NAME)
  {
    if hasLan { assert Kernels(again)[0] == LAN_NAME && again[0].kernel == LAN_NAME; }
    if hasWan { assert Kernels(again)[|again| - 1] == WAN_NAME && again[|again| - 1].kernel == WAN_NAME; }
  }

  lemma SecondMapIsOk(ports: seq<Port>, lan: string, wan: string, again: seq<Port>, as2: seq<Assignment>)
    requires Succeeds(ports, lan, wan)
    requires again == Usables(Sorted(RenamedPorts(Derived(ports, lan, wan), ports))) && AllUsable(again)
    requires |as2| == |again|
    requires forall i :: 0 <= i < |as2| ==>
      as2[i].mac == again[i].mac.value && as2[i].kernel == again[i].kernel && as2[i].name == as2[i].kernel
    ensures MapOk(as2)
  {
    var as_ := Derived(ports, lan, wan);
    RenamedKernels(ports, lan, wan);
    assert NameOf(as_, as_[0].name);
    assert as_[0].name in Kernels(again);
    forall i | 0 <= i < |as2| ensures ValidName(as2[i].name) {
      assert Kernels(again)[i] == as2[i].name;
      assert NameOf(as_, as2[i].name);
    }
    forall i, j | 0 <= i < j < |as2| ensures as2[i].name != as2[j].name && as2[i].mac != as2[j].mac {
      assert Less(Kernels(again)[i], Kernels(again)[j]);
      LessIsStrict(Kernels(again)[i], Kernels(again)[j]);
    }
  }

  // ---- from the tenth spare port on ----------------------------------------------------------------------

  lemma BeforeNetTen(j: nat)
    requires j >= 1
    ensures Less(SpareName(j), SpareName(10)) <==> j == 1
  {
    LessAfterPrefix("net", Decimal(j), Decimal(10));
    NoLeadingZero(j);
    assert Decimal(10) == "10" by { assert Decimal(1) == "1" && Decimal(10) == Decimal(1) + [Digit(0)]; }
    var d := Decimal(j);
    if j == 1 {
      assert d == "1" && d[1..] == [] && "10"[1..] == "0";
    } else if j < 10 {
      assert d == [Digit(j)];
    } else {
      assert "10"[1..] == "0" && "0"[1..] == [];
      assert IsDigit(d[1..][0]) && !Less(d[1..][1..], []);
      assert !Less(d[1..], "0");
      assert !Less(d, "10");
    }
  }

  function HeadOf(p: Port, lan: string, wan: string, spare: nat): Assignment
    requires Usable(p)
  {
    Assignment(p.mac.value,
               if p.kernel == lan then LAN_NAME else if p.kernel == wan then WAN_NAME else SpareName(spare + 1),
               p.kernel)
  }

  function NextSpare(p: Port, lan: string, wan: string, spare: nat): nat {
    if p.kernel == lan || p.kernel == wan then spare else spare + 1
  }

  lemma AssignHead(ports: seq<Port>, lan: string, wan: string, spare: nat)
    requires AllUsable(ports) && ports != []
    ensures Assign(ports, lan, wan, spare) ==
            [HeadOf(ports[0], lan, wan, spare)] + Assign(ports[1..], lan, wan, NextSpare(ports[0], lan, wan, spare))
  {
  }

  lemma AssignTail(ports: seq<Port>, lan: string, wan: string, spare: nat, k: nat)
    requires AllUsable(ports) && 0 < k < |ports|
    ensures
      var rest := Assign(ports[1..], lan, wan, NextSpare(ports[0], lan, wan, spare));
      |rest| == |ports| - 1 && |Assign(ports, lan, wan, spare)| == |ports| && Assign(ports, lan, wan, spare)[k] == rest[k - 1]
  {
    AssignHead(ports, lan, wan, spare);
    AssignShape(ports[1..], lan, wan, NextSpare(ports[0], lan, wan, spare));
  }

  /** The name at a position depends on its port and on the number n of spares handed out before it. */
  lemma {:induction false} AssignAt(ports: seq<Port>, lan: string, wan: string, spare: nat, k: nat, n: nat)
    requires AllUsable(ports) && k < |ports| && n == spare + Spares(ports[..k], lan, wan)
    ensures |Assign(ports, lan, wan, spare)| == |ports|
    ensures Assign(ports, lan, wan, spare)[k] == HeadOf(ports[k], lan, wan, n)
  {
    AssignShape(ports, lan, wan, spare);
    if k == 0 {
      AssignHead(ports, lan, wan, spare);
      assert n == spare;
    } else {
      AssignTail(ports, lan, wan, spare, k);
      SparesCons(ports, lan, wan, k);
      AssignAt(ports[1..], lan, wan, NextSpare(ports[0], lan, wan, spare), k - 1, n);
      assert ports[k] == ports[1..][k - 1];
    }
  }

  lemma SparesCons(ports: seq<Port>, lan: string, wan: string, k: nat)
    requires 0 < k <= |ports|
    ensures Spares(ports[..k], lan, wan) ==
            Spares(ports[1..][..k - 1], lan, wan) + if ports[0].kernel == lan || ports[0].kernel == wan then 0 else 1
  {
    assert ports[..k][1..] == ports[1..][..k - 1];
  }

  /** In an ascending list, what stands before a member is what is smaller. */
  lemma BeforeMember(k: seq<string>, p: nat, s: string)
    requires Ascending(k) && p < |k|
    ensures s in k[..p] <==> s in k && Less(s, k[p])
  {
    if s in k && Less(s, k[p]) {
      var i :| 0 <= i < |k| && k[i] == s;
      LessIsStrict(s, k[p]);
    }
  }

  lemma TenIsThird(k: seq<string>, hasLan: bool, n: nat, hasWan: bool) returns (p: nat)
    requires n >= 10 && Ascending(k)
    requires forall s :: s in k <==> s in Logical(hasLan, n, hasWan)
    ensures p < |k| && k[p] == SpareName(10) && k[..p] == RoleList(hasLan, LAN_NAME) + [SpareName(1)]
  {
    LogicalMembers(hasLan, n, hasWan, SpareName(10));
    p :| 0 <= p < |k| && k[p] == SpareName(10);
    var front := RoleList(hasLan, LAN_NAME) + [SpareName(1)];
    LogicalNamesDiffer(1);
    LogicalNamesDiffer(10);
    assert Ascending(front);
    forall s ensures s in k[..p] <==> s in front {
      BeforeMember(k, p, s);
      LogicalMembers(hasLan, n, hasWan, s);
      LessIsStrict(WAN_NAME, SpareName(10));
      BeforeNetTen(1);
      if j :| 0 < j <= n && s == SpareName(j) {
        BeforeNetTen(j);
      }
    }
    AscendingIsUnique(k[..p], front);
  }

  lemma SparesInFront(front: seq<Port>, hasLan: bool, lan: string, wan: string)
    requires Kernels(front) == RoleList(hasLan, LAN_NAME) + [SpareName(1)]
    requires lan == (if hasLan then LAN_NAME else "") && wan in {"", WAN_NAME}
    ensures Spares(front, lan, wan) == 1
  {
    LogicalNamesDiffer(1);
    var h := |front| - 1;
    assert Kernels(front)[h] == SpareName(1) && front[h].kernel == SpareName(1);
    assert front[h..][1..] == [];
    assert Spares(front[h..], lan, wan) == 1;
    if hasLan {
      assert Kernels(front)[0] == LAN_NAME && front[1..] == front[h..];
    } else {
      assert front == front[h..];
    }
  }

  /** From the tenth spare port on the second run refuses: as text net10 sorts before net2, so that port
      would be called net2 while another mapped port still is. */
  lemma TenSparesAreRefused(ports: seq<Port>, lan: string, wan: string)
    requires FirstRun(ports, lan, wan) && SpareCount(ports, lan, wan) >= 10
    ensures !Succeeds(RenamedPorts(Derived(ports, lan, wan), ports), NewRole(lan, LAN_NAME), NewRole(wan, WAN_NAME))
  {
    var as_, n := Derived(ports, lan, wan), SpareCount(ports, lan, wan);
    var q := RenamedPorts(as_, ports);
    var again := Usables(Sorted(q));
    var lan2, wan2 := NewRole(lan, LAN_NAME), NewRole(wan, WAN_NAME);
    RenamedKernels(ports, lan, wan);
    forall s ensures s in Kernels(again) <==> s in Logical(lan != "", n, wan != "") {
      AssignedNamesOfRun(ports, lan, wan, s);
    }
    var p := TenIsThird(Kernels(again), lan != "", n, wan != "");
    var r := TwoIsThere(again, lan != "", n, wan != "");
    TenBecomesTwo(again, p, lan2, wan2);
    AssignShape(again, lan2, wan2, 0);
    var as2 := Assign(again, lan2, wan2, 0);
    assert as2[p].name == as2[r].kernel;
    if SpareName(10) == SpareName(2) {
      SpareNamesDiffer(10, 2);
    }
    assert p != r;
    assert as2[p].mac != as2[r].mac;
    assert !MapOk(as2);
  }

  lemma TwoIsThere(again: seq<Port>, hasLan: bool, n: nat, hasWan: bool) returns (r: nat)
    requires n >= 2 && forall s :: s in Kernels(again) <==> s in Logical(hasLan, n, hasWan)
    ensures r < |again| && again[r].kernel == SpareName(2)
  {
    LogicalMembers(hasLan, n, hasWan, SpareName(2));
    r :| 0 <= r < |again| && Kernels(again)[r] == SpareName(2);
  }

  lemma TenBecomesTwo(again: seq<Port>, p: nat, lan: string, wan: string)
    requires AllUsable(again) && p < |again| && again[p].kernel == SpareName(10)
    requires lan in {"", LAN_NAME} && wan in {"", WAN_NAME}
    requires Kernels(again)[..p] == RoleList(lan == LAN_NAME, LAN_NAME) + [SpareName(1)]
    ensures |Assign(again, lan, wan, 0)| == |again| && Assign(again, lan, wan, 0)[p].name == SpareName(2)
  {
    var front := again[..p];
    assert Kernels(front) == Kernels(again)[..p];
    SparesInFront(front, lan == LAN_NAME, lan, wan);
    AssignAt(again, lan, wan, 0, p, 1);
    LogicalNamesDiffer(10);
  }

  /** The second run is a fixed point exactly when at most nine ports are spare. */
  lemma StabilityIsExact(ports: seq<Port>, lan: string, wan: string)
    requires FirstRun(ports, lan, wan)
    ensures
      var q := RenamedPorts(Derived(ports, lan, wan), ports);
      var lan2, wan2 := NewRole(lan, LAN_NAME), NewRole(wan, WAN_NAME);
      (Succeeds(q, lan2, wan2) && RenamePlan(Derived(q, lan2, wan2)) == []) <==> SpareCount(ports, lan, wan) <= 9
  {
    if SpareCount(ports, lan, wan) <= 9 {
      NineSparesAreStable(ports, lan, wan);
    } else {
      TenSparesAreRefused(ports, lan, wan);
    }
  }

  // ---- machines nobody has renamed yet ------------------------------------------------------------------

  /** Every port has its own MAC and a kernel name like eth0 or enp1s0. */
  ghost predicate Untouched(ports: seq<Port>) {
    && (forall i :: 0 <= i < |ports| ==> Usable(ports[i]) && ports[i].kernel != "" && ports[i].kernel[0] == 'e')
    && (forall i, j :: 0 <= i < j < |ports| ==> ports[i].mac != ports[j].mac)
  }

  lemma {:induction false} InsertGrows(p: Port, ports: seq<Port>)
    ensures |Insert(p, ports)| == |ports| + 1
  {
    if ports != [] && !Less(p.kernel, ports[0].kernel) {
      InsertGrows(p, ports[1..]);
    }
  }

  lemma {:induction false} SortedKeepsCount(ports: seq<Port>)
    ensures |Sorted(ports)| == |ports|
  {
    if ports != [] {
      SortedKeepsCount(ports[..|ports| - 1]);
      InsertGrows(ports[|ports| - 1], Sorted(ports[..|ports| - 1]));
    }
  }

  lemma {:induction false} UsablesKeepAll(ports: seq<Port>)
    requires AllUsable(ports)
    ensures Usables(ports) == ports
  {
    if ports != [] {
      UsablesKeepAll(ports[1..]);
    }
  }

  lemma {:induction false} SparesInOrder(ports: seq<Port>, spare: nat)
    requires AllUsable(ports) && !HasKernel(ports, "")
    ensures
      var as_ := Assign(ports, "", "", spare);
      |as_| == |ports| == Spares(ports, "", "") && forall i :: 0 <= i < |ports| ==> as_[i].name == SpareName(spare + i + 1)
  {
    if ports != [] {
      HasKernelCons(ports, "");
      SparesInOrder(ports[1..], spare + 1);
    }
  }

  lemma {:induction false} LongerNumbers(m: nat, n: nat)
    requires m <= n
    ensures |Decimal(m)| <= |Decimal(n)|
    decreases n
  {
    if m >= 10 {
      LongerNumbers(m / 10, n / 10);
    }
  }

  /** A spare name is a valid port name as long as it fits fourteen characters. */
  lemma {:induction false} SpareNameIsValid(n: nat)
    ensures ValidName(SpareName(n)) <==> |SpareName(n)| <= 14
    ensures SpareName(n)[0] == 'n'
  {
    var s := SpareName(n);
    assert s[0] == 'n' && s[1] == 'e' && s[2] == 't' && s[3..] == Decimal(n);
    forall i | 3 <= i < |s| ensures IsDigit(s[i]) {
      assert s[i] == Decimal(n)[i - 3];
    }
  }

  lemma {:induction false} FreshNamesDiffer(ports: seq<Port>)
    requires Untouched(ports)
    ensures AllUsable(ports)
    ensures
      var as_ := Assign(ports, "", "", 0);
      && |as_| == |ports|
      && (forall i :: 0 <= i < |as_| ==> as_[i].name == SpareName(i + 1) && as_[i].name[0] == 'n')
      && (forall i, j :: 0 <= i < j < |as_| ==> as_[i].name != as_[j].name)
  {
    var as_ := Assign(ports, "", "", 0);
    SparesInOrder(ports, 0);
    forall i | 0 <= i < |as_| ensures as_[i].name == SpareName(i + 1) && as_[i].name[0] == 'n' {
      SpareNameIsValid(i + 1);
    }
    forall i, j | 0 <= i < j < |as_| ensures as_[i].name != as_[j].name {
      if SpareName(i + 1) == SpareName(j + 1) {
        SpareNamesDiffer(i + 1, j + 1);
      }
    }
  }

  lemma {:induction false} FreshNamesAreOk(ports: seq<Port>)
    requires Untouched(ports) && ports != []
    ensures AllUsable(ports) && (MapOk(Assign(ports, "", "", 0)) <==> |SpareName(|ports|)| <= 14)
  {
    var as_ := Assign(ports, "", "", 0);
    FreshNamesDiffer(ports);
    AssignShape(ports, "", "", 0);
    SpareNameIsValid(|ports|);
    if |SpareName(|ports|)| <= 14 {
      forall i | 0 <= i < |as_| ensures ValidName(as_[i].name) {
        SpareNameIsValid(i + 1);
        LongerNumbers(i + 1, |ports|);
      }
    } else {
      assert !ValidName(as_[|ports| - 1].name);
    }
  }

  /** On such a machine, with no role given, every port is spare and the automatic map succeeds exactly when
      the last spare name fits fourteen characters. */
  lemma {:induction false} UntouchedMachineIsMapped(ports: seq<Port>)
    requires Untouched(ports) && ports != []
    ensures SpareCount(ports, "", "") == |ports|
    ensures FirstRun(ports, "", "") <==> |SpareName(|ports|)| <= 14
  {
    var sorted := Sorted(ports);
    SortedIsUntouched(ports);
    UsablesKeepAll(sorted);
    SparesInOrder(sorted, 0);
    FreshNamesAreOk(sorted);
  }

  lemma {:induction false} SortedIsUntouched(ports: seq<Port>)
    requires Untouched(ports)
    ensures Untouched(Sorted(ports)) && |Sorted(ports)| == |ports| && DistinctMacs(Sorted(ports))
  {
    var sorted := Sorted(ports);
    DistinctIsPairwise(ports);
    SortedKeepsApart(ports);
    DistinctIsPairwise(sorted);
    SortedIsInOrder(ports);
    SortedKeepsCount(ports);
    forall i | 0 <= i < |sorted| ensures Usable(sorted[i]) && sorted[i].kernel != "" && sorted[i].kernel[0] == 'e' {
      assert sorted[i] in ports;
    }
  }
}
