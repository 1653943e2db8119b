/** Kea's Dhcp4 configuration and the subnet edits made on it in place. */
module KeaSubnets {
  import opened Ipv4
  import opened Sequences
  import opened GatewayConfig

  /** A number as read back from JSON, or as a Go integer that was only just stored. */
  datatype IdValue = FromJson(n: int) | FromGo(n: int)

  datatype Pool = Pool(lo: Addr, hi: Addr)
  datatype OptionData = OptionData(router: Option<Addr>, dns: seq<Addr>, domain: string)
  datatype Entry = Entry(id: IdValue, subnet: Cidr, pools: seq<Pool>, options: OptionData, iface: string, other: string)

  /** The special DROP class carries the MACs its test matches; any other class is kept as it is. */
  datatype ClientClass = DropClass(macs: seq<string>) | OtherClass(name: string, test: string)

  datatype Sockets = Sockets(retries: Option<int>, wait: Option<int>, redetect: Option<bool>)
  datatype KeaConfig = KeaConfig(subnets: seq<Entry>, listen: seq<string>, sockets: Sockets, classes: seq<ClientClass>)

  datatype SubnetSpec = SubnetSpec(subnet: Cidr, poolStart: Addr, poolEnd: Addr, options: OptionData, iface: string)

  predicate SpecOk(s: SubnetSpec) {
    && s.poolStart <= s.poolEnd
    && Contains(s.subnet, s.poolStart) && Contains(s.subnet, s.poolEnd)
    && (s.options.router.Some? ==> Contains(s.subnet, s.options.router.value))
    && (s.iface != "" ==> ValidIface(s.iface))
  }

  /** Only ids that came through JSON are recognised. */
  function SubnetId(e: Entry): int {
    match e.id
    case FromJson(n) => n
    case FromGo(_) => 0
  }

  function MaxId(es: seq<Entry>): (m: int)
    ensures m >= 0
    ensures forall i :: 0 <= i < |es| ==> SubnetId(es[i]) <= m
  {
    if es == [] then 0 else
    var m, id := MaxId(es[..|es| - 1]), SubnetId(es[|es| - 1]);
    if id > m then id else m
  }

  predicate Clashes(es: seq<Entry>, subnet: Cidr) {
    exists i :: 0 <= i < |es| && (es[i].subnet == subnet || Overlap(es[i].subnet, subnet))
  }

  function WithDefaults(s: Sockets): Sockets {
    Sockets(if s.retries.None? then Some(5) else s.retries,
            if s.wait.None? then Some(5000) else s.wait,
            if s.redetect.None? then Some(true) else s.redetect)
  }

  function Listening(listen: seq<string>, iface: string): seq<string> {
    if iface == "" || iface in listen || "*" in listen then listen else listen + [iface]
  }

  function NewEntry(id: int, s: SubnetSpec): Entry {
    Entry(FromGo(id), s.subnet, [Pool(s.poolStart, s.poolEnd)], s.options, s.iface, "")
  }

  function AddAccepted(k: KeaConfig, s: SubnetSpec): KeaConfig {
    k.(subnets := k.subnets + [NewEntry(MaxId(k.subnets) + 1, s)],
       listen := Listening(k.listen, s.iface), sockets := WithDefaults(k.sockets))
  }

  /** What a refused edit leaves: socket defaults are filled in once the spec itself was accepted. */
  function Refused(k: KeaConfig, s: SubnetSpec): KeaConfig {
    if SpecOk(s) then k.(sockets := WithDefaults(k.sockets)) else k
  }

  function Rewritten(e: Entry, s: SubnetSpec): Entry {
    e.(pools := [Pool(s.poolStart, s.poolEnd)], options := s.options, iface := s.iface)
  }

  /** The first entry with the id, or the number of entries. */
  function IndexOf(es: seq<Entry>, id: int): (i: nat)
    ensures i <= |es|
    ensures i < |es| ==> SubnetId(es[i]) == id
    ensures forall j :: 0 <= j < i ==> SubnetId(es[j]) != id
  {
    if es == [] || SubnetId(es[0]) == id then 0 else
    var i := IndexOf(es[1..], id);
    assert forall j :: 0 < j < i + 1 ==> es[j] == es[1..][j - 1];
    i + 1
  }

  predicate Updatable(k: KeaConfig, id: int, s: SubnetSpec) {
    SpecOk(s) && var i := IndexOf(k.subnets, id); i < |k.subnets| && k.subnets[i].subnet == s.subnet
  }

  function UpdateAccepted(k: KeaConfig, id: int, s: SubnetSpec): KeaConfig
    requires Updatable(k, id, s)
  {
    var i := IndexOf(k.subnets, id);
    k.(subnets := k.subnets[i := Rewritten(k.subnets[i], s)],
       listen := Listening(k.listen, s.iface), sockets := WithDefaults(k.sockets))
  }

  function DropId(id: int): Entry -> seq<Entry> {
    (e: Entry) => if SubnetId(e) == id then [] else [e]
  }

  function DeleteAccepted(k: KeaConfig, id: int): KeaConfig {
    k.(subnets := FlatMap(k.subnets, DropId(id)))
  }

  function Test(macs: seq<string>): seq<ClientClass> {
    if macs == [] then [] else [DropClass(macs)]
  }

  function KeepOther(): ClientClass -> seq<ClientClass> {
    (c: ClientClass) => if c.DropClass? then [] else [c]
  }

  function Others(cs: seq<ClientClass>): seq<ClientClass> { FlatMap(cs, KeepOther()) }

  function WithDrop(k: KeaConfig, macs: seq<string>): KeaConfig {
    k.(classes := Others(k.classes) + Test(macs))
  }

  // ---- the configuration map, edited in place ------------------------------------------------------

  /** The nested map a transaction works on. */
  class Dhcp4 {
    var subnets: seq<Entry>
    var listen: seq<string>
    var sockets: Sockets
    var classes: seq<ClientClass>

    function Value(): KeaConfig
      reads this
    {
      KeaConfig(subnets, listen, sockets, classes)
    }

    constructor (k: KeaConfig)
      ensures Value() == k
    {
      subnets, listen, sockets, classes := k.subnets, k.listen, k.sockets, k.classes;
    }

    method EnsureDefaults()
      modifies this`sockets
      ensures sockets == WithDefaults(old(sockets))
    {
      if sockets.retries.None? { sockets := sockets.(retries := Some(5)); }
      if sockets.wait.None? { sockets := sockets.(wait := Some(5000)); }
      if sockets.redetect.None? { sockets := sockets.(redetect := Some(true)); }
    }

    method EnsureInterface(iface: string)
      modifies this`sockets, this`listen
      ensures sockets == WithDefaults(old(sockets)) && listen == Listening(old(listen), iface)
    {
      EnsureDefaults();
      if iface == "" {
        return;
      }
      for i := 0 to |listen|
        invariant listen == old(listen) && sockets == WithDefaults(old(sockets))
        invariant iface !in listen[..i] && "*" !in listen[..i]
      {
        if listen[i] == iface || listen[i] == "*" {
          return;
        }
      }
      assert listen[..|listen|] == listen;
      listen := listen + [iface];
    }

    /** Adds when the spec is sound and no existing subnet overlaps; a refused edit of a sound spec still
        leaves the socket defaults behind. */
    method AddSubnet(s: SubnetSpec) returns (id: Option<int>)
      modifies this
      ensures id.Some? <==> SpecOk(s) && !Clashes(old(subnets), s.subnet)
      ensures id.Some? ==> Value() == AddAccepted(old(Value()), s) && id.value == MaxId(old(subnets)) + 1
      ensures id.None? ==> Value() == Refused(old(Value()), s)
    {
      if !SpecOk(s) {
        return None;
      }
      EnsureDefaults();
      var maxId := 0;
      for i := 0 to |subnets|
        invariant subnets == old(subnets) && classes == old(classes) && listen == old(listen)
        invariant sockets == WithDefaults(old(sockets))
        invariant maxId == MaxId(subnets[..i])
        invariant !Clashes(subnets[..i], s.subnet)
      {
        assert subnets[..i + 1][..i] == subnets[..i];
        if subnets[i].subnet == s.subnet || Overlap(subnets[i].subnet, s.subnet) {
          return None;
        }
        if SubnetId(subnets[i]) > maxId {
          maxId := SubnetId(subnets[i]);
        }
      }
      assert subnets[..|subnets|] == subnets;
      if s.iface != "" {
        EnsureInterface(s.iface);
      }
      subnets := subnets + [NewEntry(maxId + 1, s)];
      id := Some(maxId + 1);
    }

    method UpdateSubnet(id: int, s: SubnetSpec) returns (ok: bool)
      modifies this
      ensures ok <==> Updatable(old(Value()), id, s)
      ensures ok ==> Value() == UpdateAccepted(old(Value()), id, s)
      ensures !ok ==> Value() == Refused(old(Value()), s)
    {
      if !SpecOk(s) {
        return false;
      }
      EnsureDefaults();
      for i := 0 to |subnets|
        invariant subnets == old(subnets) && classes == old(classes) && listen == old(listen)
        invariant sockets == WithDefaults(old(sockets))
        invariant forall j :: 0 <= j < i ==> SubnetId(subnets[j]) != id
      {
        if SubnetId(subnets[i]) != id {
          continue;
        }
        assert IndexOf(subnets, id) == i;
        if subnets[i].subnet != s.subnet {
          return false;
        }
        subnets := subnets[i := Rewritten(subnets[i], s)];
        if s.iface != "" {
          EnsureInterface(s.iface);
        }
        return true;
      }
      ok := false;
    }

    method DeleteSubnet(id: int) returns (found: bool)
      modifies this`subnets
      ensures found <==> IndexOf(old(subnets), id) < |old(subnets)|
      ensures subnets == DeleteAccepted(old(Value()), id).subnets
    {
      var out: seq<Entry> := [];
      found := false;
      for i := 0 to |subnets|
        invariant subnets == old(subnets)
        invariant out == FlatMap(subnets[..i], DropId(id))
        invariant found <==> exists j :: 0 <= j < i && SubnetId(subnets[j]) == id
        invariant !found ==> out == subnets[..i]
      {
        FlatMapStep(subnets, i, DropId(id));
        if SubnetId(subnets[i]) == id {
          found := true;
          continue;
        }
        out := out + [subnets[i]];
      }
      assert subnets[..|subnets|] == subnets;
      if found {
        subnets := out;
      }
    }

    method SetDropClass(macs: seq<string>)
      modifies this`classes
      ensures Value() == WithDrop(old(Value()), macs)
    {
      var kept: seq<ClientClass> := [];
      for i := 0 to |classes|
        invariant classes == old(classes) && kept == FlatMap(classes[..i], KeepOther())
      {
        FlatMapStep(classes, i, KeepOther());
        if classes[i].DropClass? {
          continue;
        }
        kept := kept + [classes[i]];
      }
      assert classes[..|classes|] == classes;
      if |macs| > 0 {
        kept := kept + [DropClass(macs)];
      }
      classes := kept;
    }
  }

  /** After an edit for an interface Kea listens there, directly or by wildcard; nothing it listened on
      before is lost, and asking twice changes nothing. */
  lemma ListeningIsEnsured(listen: seq<string>, iface: string)
    ensures
      var after := Listening(listen, iface);
      && (iface != "" ==> iface in after || "*" in after)
      && listen <= after && (forall s :: s in after ==> s in listen || s == iface)
      && Listening(after, iface) == after
  {
  }

  // ---- what every run keeps --------------------------------------------------------------------------

  function Reread(e: Entry): Entry { e.(id := FromJson(e.id.n)) }

  /** What the next transaction sees: every number has been through JSON. */
  function Reload(k: KeaConfig): KeaConfig {
    k.(subnets := seq(|k.subnets|, i requires 0 <= i < |k.subnets| => Reread(k.subnets[i])))
  }

  predicate EntryOk(e: Entry) {
    && e.id.FromJson? && e.id.n > 0
    && |e.pools| == 1 && e.pools[0].lo <= e.pools[0].hi
    && Contains(e.subnet, e.pools[0].lo) && Contains(e.subnet, e.pools[0].hi)
  }

  /** The address plan: positive distinct ids, disjoint subnets, one ordered pool inside each. */
  ghost predicate Plan(es: seq<Entry>) {
    && (forall i :: 0 <= i < |es| ==> EntryOk(es[i]))
    && (forall i, j :: 0 <= i < j < |es| ==> es[i].id != es[j].id && !ShareAddress(es[i].subnet, es[j].subnet))
  }

  datatype Op = Add(spec: SubnetSpec) | Update(id: int, spec: SubnetSpec) | Delete(id: int)

  /** One edit; a refused one changes nothing that is kept. */
  function Edited(k: KeaConfig, op: Op): KeaConfig {
    match op
    case Add(s) => if SpecOk(s) && !Clashes(k.subnets, s.subnet) then AddAccepted(k, s) else k
    case Update(id, s) => if Updatable(k, id, s) then UpdateAccepted(k, id, s) else k
    case Delete(id) => DeleteAccepted(k, id)
  }

  function After(k: KeaConfig, run: seq<Op>): KeaConfig {
    if run == [] then k else Reload(Edited(After(k, run[..|run| - 1]), run[|run| - 1]))
  }

  lemma AddKeepsPlan(k: KeaConfig, s: SubnetSpec)
    requires Plan(k.subnets) && SpecOk(s) && !Clashes(k.subnets, s.subnet)
    ensures Plan(Reload(AddAccepted(k, s)).subnets)
  {
    var n := |k.subnets|;
    var es := Reload(AddAccepted(k, s)).subnets;
    assert forall i :: 0 <= i < n ==> es[i] == k.subnets[i];
    forall i | 0 <= i < n ensures es[i].id != es[n].id && !ShareAddress(es[i].subnet, es[n].subnet) {
      OverlapIsExact(k.subnets[i].subnet, s.subnet);
      assert SubnetId(k.subnets[i]) <= MaxId(k.subnets);
    }
  }

  lemma UpdateKeepsPlan(k: KeaConfig, id: int, s: SubnetSpec)
    requires Plan(k.subnets) && Updatable(k, id, s)
    ensures Plan(Reload(UpdateAccepted(k, id, s)).subnets)
  {
    var i, es := IndexOf(k.subnets, id), Reload(UpdateAccepted(k, id, s)).subnets;
    assert EntryOk(k.subnets[i]);
    assert forall j :: 0 <= j < |es| ==> es[j].id == k.subnets[j].id && es[j].subnet == k.subnets[j].subnet;
    assert forall j :: 0 <= j < |es| && j != i ==> es[j] == k.subnets[j];
  }

  lemma DeleteMembers(es: seq<Entry>, id: int, e: Entry)
    ensures e in FlatMap(es, DropId(id)) <==> e in es && SubnetId(e) != id
  {
    FlatMapMembers(es, DropId(id), e);
    if e in es && SubnetId(e) != id {
      var i :| 0 <= i < |es| && es[i] == e;
      assert e in DropId(id)(es[i]);
    }
  }

  lemma PlanCons(e: Entry, es: seq<Entry>)
    requires EntryOk(e) && Plan(es)
    requires forall j :: 0 <= j < |es| ==> e.id != es[j].id && !ShareAddress(e.subnet, es[j].subnet)
    ensures Plan([e] + es)
  {
  }

  /** Deleting keeps a subsequence, in order. */
  lemma {:induction false} DeleteKeepsPlan(es: seq<Entry>, id: int)
    requires Plan(es)
    ensures Plan(FlatMap(es, DropId(id)))
  {
    if es != [] {
      DeleteKeepsPlan(es[1..], id);
      var rest := FlatMap(es[1..], DropId(id));
      if SubnetId(es[0]) != id {
        forall j | 0 <= j < |rest| ensures es[0].id != rest[j].id && !ShareAddress(es[0].subnet, rest[j].subnet) {
          DeleteMembers(es[1..], id, rest[j]);
          var m :| 0 <= m < |es[1..]| && es[1..][m] == rest[j];
          assert es[m + 1] == rest[j];
        }
        PlanCons(es[0], rest);
      }
    }
  }

  lemma ReloadIsIdentity(es: seq<Entry>)
    requires forall i :: 0 <= i < |es| ==> es[i].id.FromJson?
    ensures seq(|es|, i requires 0 <= i < |es| => Reread(es[i])) == es
  {
  }

  lemma EditKeepsPlan(k: KeaConfig, op: Op)
    requires Plan(k.subnets)
    ensures Plan(Reload(Edited(k, op)).subnets)
  {
    ReloadIsIdentity(k.subnets);
    match op
    case Add(s) =>
      if SpecOk(s) && !Clashes(k.subnets, s.subnet) {
        AddKeepsPlan(k, s);
      }
    case Update(id, s) =>
      if Updatable(k, id, s) {
        UpdateKeepsPlan(k, id, s);
      }
    case Delete(id) =>
      DeleteKeepsPlan(k.subnets, id);
      ReloadIsIdentity(FlatMap(k.subnets, DropId(id)));
  }

  /** Every configuration reached from a sound plan, the empty one included, by any run of edits
      is a sound plan. */
  lemma {:induction false} RunKeepsPlan(k: KeaConfig, run: seq<Op>)
    requires Plan(k.subnets)
    ensures Plan(After(k, run).subnets)
  {
    if run != [] {
      RunKeepsPlan(k, run[..|run| - 1]);
      EditKeepsPlan(After(k, run[..|run| - 1]), run[|run| - 1]);
    }
  }

  /** Kea listens wherever a subnet is bound. */
  ghost predicate Served(k: KeaConfig) {
    forall i :: 0 <= i < |k.subnets| && k.subnets[i].iface != "" ==>
      k.subnets[i].iface in k.listen || "*" in k.listen
  }

  /** Settings present before are the settings after. */
  predicate Respects(before: Sockets, after: Sockets) {
    && (before.retries.Some? ==> after.retries == before.retries)
    && (before.wait.Some? ==> after.wait == before.wait)
    && (before.redetect.Some? ==> after.redetect == before.redetect)
  }

  lemma EditKeepsServing(k: KeaConfig, op: Op)
    requires Served(k)
    ensures
      var after := Reload(Edited(k, op));
      Served(after) && k.listen <= after.listen && Respects(k.sockets, after.sockets)
  {
    var next := Edited(k, op);
    if op.Delete? {
      forall i | 0 <= i < |next.subnets| ensures next.subnets[i] in k.subnets {
        DeleteMembers(k.subnets, op.id, next.subnets[i]);
      }
    } else {
      ListeningIsEnsured(k.listen, op.spec.iface);
      assert forall s :: s in k.listen ==> s in next.listen;
    }
    assert Served(next);
    assert forall i :: 0 <= i < |next.subnets| ==> Reload(next).subnets[i].iface == next.subnets[i].iface;
  }

  /** Over every run of edits Kea listens wherever a subnet is bound, on everything it listened on before,
      and with every socket setting the operator chose. */
  lemma {:induction false} RunKeepsServing(k: KeaConfig, run: seq<Op>)
    requires Served(k)
    ensures Served(After(k, run)) && k.listen <= After(k, run).listen && Respects(k.sockets, After(k, run).sockets)
  {
    if run != [] {
      RunKeepsServing(k, run[..|run| - 1]);
      EditKeepsServing(After(k, run[..|run| - 1]), run[|run| - 1]);
    }
  }

  // ---- edits that undo each other ---------------------------------------------------------------------

  lemma {:induction false} DropNothing(es: seq<Entry>, id: int)
    requires forall i :: 0 <= i < |es| ==> SubnetId(es[i]) != id
    ensures FlatMap(es, DropId(id)) == es
  {
    if es != [] {
      DropNothing(es[1..], id);
    }
  }

  lemma DropLast(es: seq<Entry>, e: Entry, id: int)
    requires (forall i :: 0 <= i < |es| ==> SubnetId(es[i]) != id) && SubnetId(e) == id
    ensures FlatMap(es + [e], DropId(id)) == es
  {
    var all := es + [e];
    assert all[..|es|] == es && all[|es|..] == [e];
    FlatMapSplit(all, |es|, DropId(id));
    DropNothing(es, id);
  }

  /** Deleting what an add created restores the subnets, entry by entry. */
  lemma DeleteUndoesAdd(k: KeaConfig, s: SubnetSpec)
    requires Plan(k.subnets) && SpecOk(s) && !Clashes(k.subnets, s.subnet)
    ensures Reload(Edited(Reload(Edited(k, Add(s))), Delete(MaxId(k.subnets) + 1))).subnets == k.subnets
  {
    var id := MaxId(k.subnets) + 1;
    var e := Reread(NewEntry(id, s));
    ReloadIsIdentity(k.subnets);
    assert Reload(AddAccepted(k, s)).subnets == k.subnets + [e];
    DropLast(k.subnets, e, id);
  }

  /** A spec is sound exactly when its pool holds an address, all its addresses and the router lie in the
      subnet, and its interface has a name an interface can have. */
  lemma SpecIsSound(s: SubnetSpec)
    ensures SpecOk(s) <==>
      && s.poolStart <= s.poolEnd && (forall x: Addr :: s.poolStart <= x <= s.poolEnd ==> Contains(s.subnet, x))
      && (s.options.router == None || Contains(s.subnet, s.options.router.value))
      && (s.iface == "" || ValidIface(s.iface))
  {
    if SpecOk(s) {
      forall x: Addr | s.poolStart <= x <= s.poolEnd ensures Contains(s.subnet, x) {
        ContainsIsInterval(s.subnet, x);
        ContainsIsInterval(s.subnet, s.poolStart);
        ContainsIsInterval(s.subnet, s.poolEnd);
      }
    }
  }

  // ---- what was asked is what is stored ------------------------------------------------------------------

  /** What an entry says, read back as the spec of an add or update. */
  function SpecOf(e: Entry): SubnetSpec
    requires |e.pools| == 1
  {
    SubnetSpec(e.subnet, e.pools[0].lo, e.pools[0].hi, e.options, e.iface)
  }

  /** Every setting Kea needs is there: the operator's where there was one, otherwise the default. */
  ghost predicate Settled(before: Sockets, after: Sockets) {
    && after.retries == Some(if before.retries.Some? then before.retries.value else 5)
    && after.wait == Some(if before.wait.Some? then before.wait.value else 5000)
    && after.redetect == Some(if before.redetect.Some? then before.redetect.value else true)
  }

  /** An accepted add appends one entry under the new id that reads back as asked. */
  lemma AddReadsBack(k: KeaConfig, s: SubnetSpec)
    ensures
      var n, after := |k.subnets|, AddAccepted(k, s);
      && |after.subnets| == n + 1 && after.subnets[..n] == k.subnets
      && after.subnets[n].id.n == MaxId(k.subnets) + 1
      && |after.subnets[n].pools| == 1 && SpecOf(after.subnets[n]) == s
      && after.classes == k.classes && Settled(k.sockets, after.sockets)
  {
  }

  /** An accepted update leaves the entry reading back as asked, under its id, and every other entry alone. */
  lemma UpdateReadsBack(k: KeaConfig, id: int, s: SubnetSpec)
    requires Updatable(k, id, s)
    ensures
      var i, after := IndexOf(k.subnets, id), UpdateAccepted(k, id, s);
      && |after.subnets| == |k.subnets|
      && (forall j :: 0 <= j < |k.subnets| && j != i ==> after.subnets[j] == k.subnets[j])
      && after.subnets[i].id == k.subnets[i].id && after.subnets[i].other == k.subnets[i].other
      && |after.subnets[i].pools| == 1 && SpecOf(after.subnets[i]) == s
      && after.classes == k.classes && Settled(k.sockets, after.sockets)
  {
  }

  /** Updating with the previous values restores the subnets: an update loses nothing an entry carries besides
      pool, options and interface, and touches no other entry. */
  lemma UpdateCanBeUndone(k: KeaConfig, id: int, s: SubnetSpec)
    requires Plan(k.subnets) && Updatable(k, id, s)
    ensures
      var was, after := k.subnets[IndexOf(k.subnets, id)], UpdateAccepted(k, id, s);
      |was.pools| == 1 &&
      (SpecOk(SpecOf(was)) ==> Updatable(after, id, SpecOf(was)) && UpdateAccepted(after, id, SpecOf(was)).subnets == k.subnets)
  {
    var i, after := IndexOf(k.subnets, id), UpdateAccepted(k, id, s);
    assert EntryOk(k.subnets[i]) && k.subnets[i].pools == [k.subnets[i].pools[0]];
    assert forall j :: 0 <= j < |k.subnets| ==> SubnetId(after.subnets[j]) == SubnetId(k.subnets[j]);
    assert IndexOf(after.subnets, id) == i;
  }

  /** Without the JSON round trip in between, a second add reuses the first one's id. */
  lemma TwoAddsWithoutReloadCollide(k: KeaConfig, s: SubnetSpec, t: SubnetSpec)
    ensures
      var n, es := |k.subnets|, AddAccepted(AddAccepted(k, s), t).subnets;
      |es| == n + 2 && es[n].id == es[n + 1].id
  {
    var one := AddAccepted(k, s).subnets;
    assert one[..|one| - 1] == k.subnets;
  }
}
