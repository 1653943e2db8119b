/** Stable port names: the automatic map from MAC addresses to logical names, and the live
    renames that put it into effect. */
module PortMap {
  import opened Sequences
  import opened Text

  /** A port as the system sees it; None is a MAC that does not parse, 0 the all-zero one. */
  datatype Port = Port(kernel: string, mac: Option<nat>)
  datatype Assignment = Assignment(mac: nat, name: string, kernel: string)

  predicate Usable(p: Port) { p.mac.Some? && p.mac.value != 0 }

  const LAN_NAME: string := "lan0"
  const WAN_NAME: string := "wan1"

  function SpareName(n: nat): string { "net" + Decimal(n) }

  // ---- the automatic map ---------------------------------------------------------------------------

  function Insert(p: Port, sorted: seq<Port>): seq<Port> {
    if sorted == [] || Less(p.kernel, sorted[0].kernel) then [p] + sorted
    else [sorted[0]] + Insert(p, sorted[1..])
  }

  /** Ports in kernel-name order. */
  function Sorted(ports: seq<Port>): seq<Port> {
    if ports == [] then [] else Insert(ports[|ports| - 1], Sorted(ports[..|ports| - 1]))
  }

  function KeepUsable(): Port -> seq<Port> { (p: Port) => if Usable(p) then [p] else [] }

  function Usables(ports: seq<Port>): seq<Port> { FlatMap(ports, KeepUsable()) }

  predicate SharesMac(p: Port, ports: seq<Port>) {
    exists i :: 0 <= i < |ports| && Usable(ports[i]) && ports[i].mac == p.mac
  }

  predicate DistinctMacs(ports: seq<Port>) {
    ports == [] || (DistinctMacs(ports[1..]) && (Usable(ports[0]) ==> !SharesMac(ports[0], ports[1..])))
  }

  predicate HasKernel(ports: seq<Port>, kernel: string) {
    exists i :: 0 <= i < |ports| && ports[i].kernel == kernel
  }

  /** lan0 and wan1 for the two roles, net1, net2, ... for the rest in order. */
  function Assign(ports: seq<Port>, lan: string, wan: string, spare: nat): seq<Assignment>
    requires forall i :: 0 <= i < |ports| ==> Usable(ports[i])
  {
    if ports == [] then [] else
    var p := ports[0];
    assert Usable(p);
    if p.kernel == lan then [Assignment(p.mac.value, LAN_NAME, p.kernel)] + Assign(ports[1..], lan, wan, spare)
    else if p.kernel == wan then [Assignment(p.mac.value, WAN_NAME, p.kernel)] + Assign(ports[1..], lan, wan, spare)
    else [Assignment(p.mac.value, SpareName(spare + 1), p.kernel)] + Assign(ports[1..], lan, wan, spare + 1)
  }

  predicate ValidName(s: string) {
    2 <= |s| <= 14 && 'a' <= s[0] <= 'z' && forall i :: 0 <= i < |s| ==> 'a' <= s[i] <= 'z' || IsDigit(s[i])
  }

  ghost predicate MapOk(as_: seq<Assignment>) {
    && as_ != []
    && (forall i :: 0 <= i < |as_| ==> ValidName(as_[i].name))
    && (forall i, j :: 0 <= i < j < |as_| ==> as_[i].name != as_[j].name && as_[i].mac != as_[j].mac)
    && (forall i, j :: 0 <= i < |as_| && 0 <= j < |as_| && as_[i].name == as_[j].kernel ==> as_[i].mac == as_[j].mac)
  }

  lemma UsablesAreUsable(ports: seq<Port>, p: Port)
    ensures p in Usables(ports) <==> p in ports && Usable(p)
  {
    FlatMapMembers(ports, KeepUsable(), p);
    if p in ports && Usable(p) {
      var i :| 0 <= i < |ports| && ports[i] == p;
      assert p in KeepUsable()(ports[i]);
    }
  }

  /** Which inputs the map is derived for, and the map. */
  ghost predicate RolesFound(ports: seq<Port>, lan: string, wan: string) {
    && (lan != "" ==> HasKernel(Usables(Sorted(ports)), lan))
    && (wan != "" ==> HasKernel(Usables(Sorted(ports)), wan))
  }

  ghost function Derived(ports: seq<Port>, lan: string, wan: string): seq<Assignment> {
    forall p | p in Usables(Sorted(ports)) ensures Usable(p) { UsablesAreUsable(Sorted(ports), p); }
    Assign(Usables(Sorted(ports)), lan, wan, 0)
  }

  ghost predicate Succeeds(ports: seq<Port>, lan: string, wan: string) {
    && (lan != "" ==> lan != wan)
    && DistinctMacs(Sorted(ports))
    && RolesFound(ports, lan, wan)
    && MapOk(Derived(ports, lan, wan))
  }

  /** No assigned name is the present kernel name of another mapped port. */
  method NoneTaken(as_: seq<Assignment>) returns (ok: bool)
    ensures ok <==>
      forall i, j :: 0 <= i < |as_| && 0 <= j < |as_| && as_[i].name == as_[j].kernel ==> as_[i].mac == as_[j].mac
  {
    for i := 0 to |as_|
      invariant forall j, k :: 0 <= j < i && 0 <= k < |as_| && as_[j].name == as_[k].kernel ==> as_[j].mac == as_[k].mac
    {
      for k := 0 to |as_|
        invariant forall m :: 0 <= m < k && as_[i].name == as_[m].kernel ==> as_[i].mac == as_[m].mac
      {
        if as_[i].name == as_[k].kernel && as_[i].mac != as_[k].mac {
          return false;
        }
      }
    }
    ok := true;
  }

  method Validate(as_: seq<Assignment>) returns (ok: bool)
    ensures ok <==> MapOk(as_)
  {
    if |as_| == 0 {
      return false;
    }
    var names: set<string> := {};
    var macs: set<nat> := {};
    for i := 0 to |as_|
      invariant forall k :: 0 <= k < i ==> ValidName(as_[k].name)
      invariant forall j, k :: 0 <= j < k < i ==> as_[j].name != as_[k].name && as_[j].mac != as_[k].mac
      invariant names == set k | 0 <= k < i :: as_[k].name
      invariant macs == set k | 0 <= k < i :: as_[k].mac
    {
      if !ValidName(as_[i].name) || as_[i].name in names || as_[i].mac in macs {
        return false;
      }
      names, macs := names + {as_[i].name}, macs + {as_[i].mac};
    }
    ok := NoneTaken(as_);
  }

  /** Sorting, then one pass that skips unusable ports and stops at a repeated MAC. */
  method Gather(sorted: seq<Port>) returns (usable: Option<seq<Port>>)
    ensures usable.Some? <==> DistinctMacs(sorted)
    ensures usable.Some? ==> usable.value == Usables(sorted)
  {
    var seen: set<nat> := {};
    var out: seq<Port> := [];
    for i := 0 to |sorted|
      invariant out == FlatMap(sorted[..i], KeepUsable())
      invariant forall m :: m in seen <==> exists k :: 0 <= k < i && Usable(sorted[k]) && sorted[k].mac.value == m
      invariant forall j, k :: 0 <= j < k < i && Usable(sorted[j]) && Usable(sorted[k]) ==> sorted[j].mac != sorted[k].mac
    {
      FlatMapStep(sorted, i, KeepUsable());
      if !Usable(sorted[i]) {
        continue;
      }
      if sorted[i].mac.value in seen {
        DistinctIsPairwise(sorted);
        return None;
      }
      seen := seen + {sorted[i].mac.value};
      out := out + [sorted[i]];
    }
    assert sorted[..|sorted|] == sorted;
    DistinctIsPairwise(sorted);
    usable := Some(out);
  }

  lemma {:induction false} DistinctIsPairwise(ports: seq<Port>)
    ensures DistinctMacs(ports) <==>
      forall j, k :: 0 <= j < k < |ports| && Usable(ports[j]) && Usable(ports[k]) ==> ports[j].mac != ports[k].mac
  {
    if ports != [] {
      DistinctIsPairwise(ports[1..]);
      assert forall k :: 0 <= k < |ports[1..]| ==> ports[1..][k] == ports[k + 1];
      assert forall k :: 0 < k < |ports| ==> ports[k] == ports[1..][k - 1];
    }
  }

  method AssignNames(usable: seq<Port>, lan: string, wan: string) returns (out: seq<Assignment>)
    requires forall i :: 0 <= i < |usable| ==> Usable(usable[i])
    ensures out == Assign(usable, lan, wan, 0)
  {
    out := [];
    var spare := 0;
    for i := 0 to |usable|
      invariant Assign(usable, lan, wan, 0) == out + Assign(usable[i..], lan, wan, spare)
    {
      var p := usable[i];
      assert usable[i..][1..] == usable[i + 1..];
      var name;
      if p.kernel == lan {
        name := LAN_NAME;
      } else if p.kernel == wan {
        name := WAN_NAME;
      } else {
        spare := spare + 1;
        name := SpareName(spare);
      }
      out := out + [Assignment(p.mac.value, name, p.kernel)];
    }
  }

  method FindKernel(ports: seq<Port>, kernel: string) returns (found: bool)
    ensures found <==> HasKernel(ports, kernel)
  {
    found := false;
    for i := 0 to |ports|
      invariant found <==> exists k :: 0 <= k < i && ports[k].kernel == kernel
    {
      if ports[i].kernel == kernel {
        found := true;
      }
    }
  }

  method Auto(ports: seq<Port>, lan: string, wan: string) returns (r: Option<seq<Assignment>>)
    ensures r.Some? <==> Succeeds(ports, lan, wan)
    ensures r.Some? ==> r.value == Derived(ports, lan, wan)
  {
    if lan != "" && lan == wan {
      return None;
    }
    var usable := Gather(Sorted(ports));
    if usable.None? {
      return None;
    }
    var lanFound := FindKernel(usable.value, lan);
    var wanFound := FindKernel(usable.value, wan);
    if (lan != "" && !lanFound) || (wan != "" && !wanFound) {
      return None;
    }
    forall p | p in usable.value ensures Usable(p) { UsablesAreUsable(Sorted(ports), p); }
    var out := AssignNames(usable.value, lan, wan);
    var ok := Validate(out);
    r := if ok then Some(out) else None;
  }

  // ---- live renames -----------------------------------------------------------------------------------

  function NeedsRename(): Assignment -> seq<Assignment> { (a: Assignment) => if a.kernel != a.name then [a] else [] }

  function RenamePlan(as_: seq<Assignment>): seq<Assignment> { FlatMap(as_, NeedsRename()) }

  /** What a mapped port is called once these steps are done. */
  function NowCalled(a: Assignment, steps: seq<Assignment>): string {
    if a in steps then a.name else a.kernel
  }

  /** The current names by MAC: every mapped port is called as the steps so far left it. */
  ghost predicate Named(as_: seq<Assignment>, names: map<nat, string>, steps: seq<Assignment>) {
    forall a :: a in as_ ==> a.mac in names && names[a.mac] == NowCalled(a, steps)
  }

  function Renamed(names: map<nat, string>, steps: seq<Assignment>): map<nat, string> {
    if steps == [] then names
    else Renamed(names, steps[..|steps| - 1])[steps[|steps| - 1].mac := steps[|steps| - 1].name]
  }

  /** No other mapped port holds the name at this moment. */
  ghost predicate Free(as_: seq<Assignment>, names: map<nat, string>, a: Assignment) {
    forall b :: b in as_ && b.mac != a.mac ==> b.mac in names && names[b.mac] != a.name
  }

  lemma AssignmentsAreApart(as_: seq<Assignment>, a: Assignment, b: Assignment)
    requires MapOk(as_) && a in as_ && b in as_ && a != b
    ensures a.mac != b.mac && a.name != b.name && a.name != b.kernel
  {
    var i :| 0 <= i < |as_| && as_[i] == a;
    var j :| 0 <= j < |as_| && as_[j] == b;
    assert i < j || j < i;
  }

  lemma StepKeepsNames(as_: seq<Assignment>, names: map<nat, string>, done: seq<Assignment>, s: Assignment)
    requires MapOk(as_) && Named(as_, names, done) && s in as_
    ensures Named(as_, names[s.mac := s.name], done + [s])
  {
    var next := names[s.mac := s.name];
    forall a | a in as_ ensures a.mac in next && next[a.mac] == NowCalled(a, done + [s]) {
      if a != s {
        AssignmentsAreApart(as_, a, s);
      }
    }
  }

  lemma {:induction false} StepsKeepNames(as_: seq<Assignment>, names: map<nat, string>, steps: seq<Assignment>)
    requires MapOk(as_) && Named(as_, names, [])
    requires forall k :: 0 <= k < |steps| ==> steps[k] in as_
    ensures Named(as_, Renamed(names, steps), steps)
  {
    if steps != [] {
      var n := |steps| - 1;
      StepsKeepNames(as_, names, steps[..n]);
      StepKeepsNames(as_, Renamed(names, steps[..n]), steps[..n], steps[n]);
      assert steps == steps[..n] + [steps[n]];
    }
  }

  lemma NamedIsFree(as_: seq<Assignment>, names: map<nat, string>, steps: seq<Assignment>, a: Assignment)
    requires MapOk(as_) && Named(as_, names, steps) && a in as_
    ensures Free(as_, names, a)
  {
    forall b | b in as_ && b.mac != a.mac ensures b.mac in names && names[b.mac] != a.name {
      AssignmentsAreApart(as_, a, b);
    }
  }

  /** Whenever the map is valid, its renames can be done one at a time in any order: no step ever takes a
      name another mapped port still holds, and when all are done every port carries its logical name. */
  lemma RenamesNeverCollide(as_: seq<Assignment>, names: map<nat, string>, steps: seq<Assignment>)
    requires MapOk(as_) && forall a :: a in as_ ==> a.mac in names && names[a.mac] == a.kernel
    requires forall k :: 0 <= k < |steps| ==> steps[k] in RenamePlan(as_)
    ensures forall k :: 0 <= k < |steps| ==> Free(as_, Renamed(names, steps[..k]), steps[k])
    ensures (forall a :: a in RenamePlan(as_) ==> a in steps) ==>
              forall a :: a in as_ ==> a.mac in Renamed(names, steps) && Renamed(names, steps)[a.mac] == a.name
  {
    forall k | 0 <= k < |steps| ensures steps[k] in as_ {
      PlanIsSubset(as_, steps[k]);
    }
    forall k | 0 <= k < |steps| ensures Free(as_, Renamed(names, steps[..k]), steps[k]) {
      StepsKeepNames(as_, names, steps[..k]);
      NamedIsFree(as_, Renamed(names, steps[..k]), steps[..k], steps[k]);
    }
    StepsKeepNames(as_, names, steps);
    forall a | a in as_ ensures a in RenamePlan(as_) <==> a.kernel != a.name {
      PlanIsSubset(as_, a);
    }
  }

  lemma PlanIsSubset(as_: seq<Assignment>, a: Assignment)
    ensures a in RenamePlan(as_) <==> a in as_ && a.kernel != a.name
  {
    FlatMapMembers(as_, NeedsRename(), a);
    if a in as_ && a.kernel != a.name {
      var i :| 0 <= i < |as_| && as_[i] == a;
      assert a in NeedsRename()(as_[i]);
    }
  }
}
