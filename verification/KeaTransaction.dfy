/** The configuration transaction against Kea (get, mutate, test, set, verify, roll back) and the
    MAC blocklist kept in step with Kea's DROP class through it. */
module KeaTransaction {
  import opened Sequences
  import opened KeaSubnets

  datatype Mutation = EditSubnets(op: Op) | SetDrop(macs: seq<string>)

  /** How Kea answers the calls of one transaction. A failed config-set leaves Kea unchanged. */
  datatype Replies = Replies(configured: bool, get: bool, test: KeaConfig -> bool, set_: bool,
                             status: bool, rollback: bool, write: bool)

  datatype Outcome =
    | Applied | Unconfigured | GetFailed | Refused | TestFailed | SetFailed | RolledBack | RollbackFailed

  /** The mutated map, or None when the mutation itself reports an error. */
  function Mutated(k: KeaConfig, m: Mutation): Option<KeaConfig> {
    match m
    case EditSubnets(Add(s)) => if SpecOk(s) && !Clashes(k.subnets, s.subnet) then Some(AddAccepted(k, s)) else None
    case EditSubnets(Update(id, s)) => if Updatable(k, id, s) then Some(UpdateAccepted(k, id, s)) else None
    case EditSubnets(Delete(id)) => if IndexOf(k.subnets, id) < |k.subnets| then Some(DeleteAccepted(k, id)) else None
    case SetDrop(macs) => Some(WithDrop(k, macs))
  }

  /** Kea itself: the running configuration and the copy it wrote to disk. Numbers it holds are JSON numbers. */
  class Kea {
    var running: KeaConfig
    var written: KeaConfig

    constructor (k: KeaConfig)
      ensures running == k && written == k
    {
      running, written := k, k;
    }

    method ConfigSet(k: KeaConfig, ok: bool)
      modifies this`running
      ensures running == if ok then Reload(k) else old(running)
    {
      if ok {
        running := Reload(k);
      }
    }
  }

  method Mutate(cfg: Dhcp4, m: Mutation) returns (ok: bool)
    modifies cfg
    ensures ok <==> Mutated(old(cfg.Value()), m).Some?
    ensures ok ==> cfg.Value() == Mutated(old(cfg.Value()), m).value
  {
    match m
    case EditSubnets(Add(s)) =>
      var id := cfg.AddSubnet(s);
      ok := id.Some?;
    case EditSubnets(Update(id, s)) =>
      ok := cfg.UpdateSubnet(id, s);
    case EditSubnets(Delete(id)) =>
      ok := cfg.DeleteSubnet(id);
    case SetDrop(macs) =>
      cfg.SetDropClass(macs);
      ok := true;
  }

  /** The configuration Kea runs after one transaction, and what the caller is told. */
  function Transacted(k: KeaConfig, m: Mutation, r: Replies): (KeaConfig, Outcome) {
    if !r.configured then (k, Unconfigured)
    else if !r.get then (k, GetFailed)
    else if Mutated(k, m).None? then (k, Refused)
    else if !r.test(Mutated(k, m).value) then (k, TestFailed)
    else if !r.set_ then (k, SetFailed)
    else if !r.status && r.rollback then (Reload(k), RolledBack)
    else if !r.status then (Reload(Mutated(k, m).value), RollbackFailed)
    else (Reload(Mutated(k, m).value), Applied)
  }

  /** The map read from Kea is mutated in place; the backup is the text serialised before that. */
  method Transact(kea: Kea, m: Mutation, r: Replies) returns (outcome: Outcome)
    modifies kea
    ensures (kea.running, outcome) == Transacted(old(kea.running), m, r)
    ensures kea.written == if outcome == Applied && r.write then kea.running else old(kea.written)
  {
    if !r.configured {
      return Unconfigured;
    }
    if !r.get {
      return GetFailed;
    }
    var cfg := new Dhcp4(kea.running);
    var backup := cfg.Value();
    var ok := Mutate(cfg, m);
    if !ok {
      return Refused;
    }
    if !r.test(cfg.Value()) {
      return TestFailed;
    }
    kea.ConfigSet(cfg.Value(), r.set_);
    if !r.set_ {
      return SetFailed;
    }
    if !r.status {
      kea.ConfigSet(backup, r.rollback);
      return if r.rollback then RolledBack else RollbackFailed;
    }
    if r.write {
      kea.written := kea.running;
    }
    outcome := Applied;
  }

  ghost predicate JsonOnly(k: KeaConfig) {
    forall i :: 0 <= i < |k.subnets| ==> k.subnets[i].id.FromJson?
  }

  /** Atomicity: success means Kea runs exactly the mutated configuration it was asked to test and
      accepted; every error but the reported double failure leaves it as it was. */
  lemma TransactionIsAtomic(k: KeaConfig, m: Mutation, r: Replies)
    requires JsonOnly(k)
    ensures
      var (after, outcome) := Transacted(k, m, r);
      && (outcome == Applied ==>
            Mutated(k, m).Some? && r.test(Mutated(k, m).value) && after == Reload(Mutated(k, m).value))
      && (outcome != Applied && outcome != RollbackFailed ==> after == k)
      && JsonOnly(after)
  {
    ReloadIsIdentity(k.subnets);
  }

  // ---- the blocklist and its DROP class -----------------------------------------------------------

  lemma {:induction false} OthersConcat(a: seq<ClientClass>, b: seq<ClientClass>)
    ensures Others(a + b) == Others(a) + Others(b)
  {
    FlatMapSplit(a + b, |a|, KeepOther());
    assert (a + b)[..|a|] == a && (a + b)[|a|..] == b;
  }

  lemma {:induction false} OthersAgain(cs: seq<ClientClass>)
    ensures Others(Others(cs)) == Others(cs)
  {
    if cs != [] {
      OthersAgain(cs[1..]);
      OthersConcat(KeepOther()(cs[0]), Others(cs[1..]));
      assert Others([cs[0]]) == KeepOther()(cs[0]) + Others([cs[0]][1..]);
    }
  }

  /** Rebuilding the DROP class keeps every other class, in order. */
  lemma WithDropKeepsOthers(k: KeaConfig, macs: seq<string>)
    ensures Others(WithDrop(k, macs).classes) == Others(k.classes)
  {
    OthersOfFront(k.classes, macs);
  }

  /** Kea silently ignores a client some DROP class matches. */
  predicate Ignored(cs: seq<ClientClass>, mac: string) {
    exists i :: 0 <= i < |cs| && cs[i].DropClass? && mac in cs[i].macs
  }

  /** What Kea runs and what it wrote, the stored list and what reached the disk. */
  datatype State = State(running: KeaConfig, written: KeaConfig, macs: seq<string>, disk: seq<string>)

  /** A request, with what its transaction was answered and whether the state file could be written. A subnet
      request rewrites that file with its audit entry whether it succeeds or not, and so does any other
      request, which leaves Kea alone. */
  datatype Step =
    | Subnets(op: Op, replies: Replies, saved: bool)
    | Elsewhere(saved: bool)
    | BlockMac(mac: string, replies: Replies, saved: bool)
    | UnblockMac(mac: string, replies: Replies, saved: bool)

  function RemoveMac(mac: string): string -> seq<string> { (m: string) => if m == mac then [] else [m] }

  /** The list a blocklist request would store, or None when there is nothing to do. */
  function NextMacs(macs: seq<string>, s: Step): Option<seq<string>> {
    match s
    case BlockMac(mac, _, _) => if mac in macs then None else Some(macs + [mac])
    case UnblockMac(mac, _, _) => if mac in macs then Some(FlatMap(macs, RemoveMac(mac))) else None
    case _ => None
  }

  /** The copy on disk follows the running configuration when a transaction ends well and the write works. */
  function Kept(st: State, m: Mutation, r: Replies): KeaConfig {
    var (after, outcome) := Transacted(st.running, m, r);
    if outcome == Applied && r.write then after else st.written
  }

  /** Storing the list in memory comes first; writing the file may fail after it. */
  function Stepped(st: State, s: Step): State {
    match s
    case Subnets(op, r, saved) =>
      State(Transacted(st.running, EditSubnets(op), r).0, Kept(st, EditSubnets(op), r), st.macs,
            if saved then st.macs else st.disk)
    case Elsewhere(saved) => st.(disk := if saved then st.macs else st.disk)
    case _ =>
      var next := NextMacs(st.macs, s);
      if next.None? then st else
      var (after, outcome) := Transacted(st.running, SetDrop(next.value), s.replies);
      var written := Kept(st, SetDrop(next.value), s.replies);
      if outcome == Applied then State(after, written, next.value, if s.saved then next.value else st.disk)
      else st.(running := after, written := written)
  }

  /** The appliance: Kea beside the stored list. */
  class Appliance {
    const kea: Kea
    var macs: seq<string>
    var disk: seq<string>

    constructor (kea: Kea)
      ensures this.kea == kea && macs == [] && disk == []
    {
      this.kea := kea;
      macs, disk := [], [];
    }

    function Current(): State
      reads this, kea
    {
      State(kea.running, kea.written, macs, disk)
    }

    /** The audit entry of any request saves the whole state, the list included. */
    method RecordAudit(saved: bool)
      modifies this
      ensures Current() == Stepped(old(Current()), Elsewhere(saved))
    {
      if saved {
        disk := macs;
      }
    }

    method ChangeSubnets(op: Op, r: Replies, saved: bool) returns (outcome: Outcome)
      modifies this, kea
      ensures Current() == Stepped(old(Current()), Subnets(op, r, saved))
      ensures outcome == Transacted(old(kea.running), EditSubnets(op), r).1
    {
      outcome := Transact(kea, EditSubnets(op), r);
      RecordAudit(saved);
    }

    method StoreAfter(next: seq<string>, r: Replies, saved: bool)
      modifies this, kea
      ensures
        var (after, outcome) := Transacted(old(kea.running), SetDrop(next), r);
        var written := Kept(old(Current()), SetDrop(next), r);
        Current() == if outcome == Applied then State(after, written, next, if saved then next else old(disk))
                     else State(after, written, old(macs), old(disk))
    {
      var outcome := Transact(kea, SetDrop(next), r);
      if outcome != Applied {
        return;
      }
      macs := next;
      if saved {
        disk := next;
      }
    }

    method Block(mac: string, r: Replies, saved: bool)
      modifies this, kea
      ensures Current() == Stepped(old(Current()), BlockMac(mac, r, saved))
    {
      for i := 0 to |macs|
        invariant Current() == old(Current()) && mac !in macs[..i]
      {
        if macs[i] == mac {
          return;
        }
      }
      assert macs[..|macs|] == macs;
      StoreAfter(macs + [mac], r, saved);
    }

    method Unblock(mac: string, r: Replies, saved: bool) returns (found: bool)
      modifies this, kea
      ensures found <==> mac in old(macs)
      ensures Current() == Stepped(old(Current()), UnblockMac(mac, r, saved))
    {
      var next: seq<string> := [];
      found := false;
      for i := 0 to |macs|
        invariant Current() == old(Current())
        invariant next == FlatMap(macs[..i], RemoveMac(mac))
        invariant found <==> mac in macs[..i]
      {
        FlatMapStep(macs, i, RemoveMac(mac));
        if macs[i] == mac {
          found := true;
          continue;
        }
        next := next + [macs[i]];
      }
      assert macs[..|macs|] == macs;
      if !found {
        return;
      }
      StoreAfter(next, r, saved);
    }
  }

  // ---- runs ------------------------------------------------------------------------------------------

  /** The running DROP class is the stored list: the other classes, then one class for the list. */
  ghost predicate InSync(st: State) {
    st.running.classes == Others(st.running.classes) + Test(st.macs)
  }

  /** How a request that changes the list ended; None for any other request. */
  function EndOf(st: State, s: Step): Option<Outcome> {
    if NextMacs(st.macs, s).None? then None
    else Some(Transacted(st.running, SetDrop(NextMacs(st.macs, s).value), s.replies).1)
  }

  lemma {:induction false} RemovedMembers(macs: seq<string>, mac: string, x: string)
    ensures x in FlatMap(macs, RemoveMac(mac)) <==> x in macs && x != mac
  {
    FlatMapMembers(macs, RemoveMac(mac), x);
    if x in macs && x != mac {
      var i :| 0 <= i < |macs| && macs[i] == x;
      assert x in RemoveMac(mac)(macs[i]);
    }
  }

  lemma MutationKeepsClasses(k: KeaConfig, op: Op)
    requires Mutated(k, EditSubnets(op)).Some?
    ensures Mutated(k, EditSubnets(op)).value.classes == k.classes
  {
  }

  lemma NextMacsDiffers(macs: seq<string>, s: Step)
    requires NextMacs(macs, s).Some?
    ensures NextMacs(macs, s).value != macs
  {
    if s.UnblockMac? {
      RemovedMembers(macs, s.mac, s.mac);
    }
  }

  lemma TestIsInjective(a: seq<string>, b: seq<string>, front: seq<ClientClass>)
    requires front + Test(a) == front + Test(b)
    ensures a == b
  {
    assert Test(a) == (front + Test(a))[|front|..] == (front + Test(b))[|front|..] == Test(b);
    if a != [] { assert Test(a)[0] == DropClass(a); }
    if b != [] { assert Test(b)[0] == DropClass(b); }
  }

  /** One step, from any state: every other client class keeps its place whatever fails; a blocklist change
      that goes through brings the DROP class in step with the stored list, one whose verification and
      rollback both failed takes it out of step, and nothing else matters. */
  lemma StepSyncIsExact(st: State, s: Step)
    requires JsonOnly(st.running)
    ensures JsonOnly(Stepped(st, s).running)
    ensures Others(Stepped(st, s).running.classes) == Others(st.running.classes)
    ensures InSync(Stepped(st, s)) <==> EndOf(st, s) == Some(Applied) || (InSync(st) && EndOf(st, s) != Some(RollbackFailed))
  {
    ReloadIsIdentity(st.running.subnets);
    if s.Subnets? {
      TransactionIsAtomic(st.running, EditSubnets(s.op), s.replies);
      if Mutated(st.running, EditSubnets(s.op)).Some? {
        MutationKeepsClasses(st.running, s.op);
      }
    } else if NextMacs(st.macs, s).Some? {
      var next := NextMacs(st.macs, s).value;
      TransactionIsAtomic(st.running, SetDrop(next), s.replies);
      WithDropKeepsOthers(st.running, next);
      NextMacsDiffers(st.macs, s);
      if EndOf(st, s) == Some(RollbackFailed) && InSync(Stepped(st, s)) {
        TestIsInjective(next, st.macs, Others(st.running.classes));
      }
    }
  }

  function After(st: State, run: seq<Step>): State {
    if run == [] then st else Stepped(After(st, run[..|run| - 1]), run[|run| - 1])
  }

  /** How each request of a run ended, as a blocklist change. */
  function Ends(st: State, run: seq<Step>): seq<Option<Outcome>> {
    if run == [] then [] else
    var n := |run| - 1;
    Ends(st, run[..n]) + [EndOf(After(st, run[..n]), run[n])]
  }

  ghost predicate AppliedAfter(ends: seq<Option<Outcome>>, j: nat) {
    exists k :: j < k < |ends| && ends[k] == Some(Applied)
  }

  /** Every blocklist change left hanging was followed by one that went through. */
  ghost predicate Repaired(ends: seq<Option<Outcome>>) {
    forall j :: 0 <= j < |ends| && ends[j] == Some(RollbackFailed) ==> AppliedAfter(ends, j)
  }

  lemma RepairedStep(ends: seq<Option<Outcome>>, last: Option<Outcome>)
    ensures Repaired(ends + [last]) <==> last == Some(Applied) || (Repaired(ends) && last != Some(RollbackFailed))
  {
    var n, all := |ends|, ends + [last];
    assert all[n] == last && forall j :: 0 <= j < n ==> all[j] == ends[j];
    forall j | 0 <= j < n ensures AppliedAfter(all, j) <==> last == Some(Applied) || AppliedAfter(ends, j) {
      if k :| j < k < n && ends[k] == Some(Applied) {
        assert all[k] == Some(Applied);
      }
    }
    assert !AppliedAfter(all, n);
  }

  /** Over any mix of subnet and blocklist requests and whatever fails: every other class keeps its place, and
      Kea's DROP class is the stored list exactly when each blocklist change left hanging was followed by one
      that went through. */
  lemma {:induction false} RunSyncIsExact(st: State, run: seq<Step>)
    requires JsonOnly(st.running) && InSync(st)
    ensures JsonOnly(After(st, run).running)
    ensures Others(After(st, run).running.classes) == Others(st.running.classes)
    ensures InSync(After(st, run)) <==> Repaired(Ends(st, run))
  {
    if run != [] {
      var n := |run| - 1;
      RunSyncIsExact(st, run[..n]);
      StepSyncIsExact(After(st, run[..n]), run[n]);
      RepairedStep(Ends(st, run[..n]), EndOf(After(st, run[..n]), run[n]));
    }
  }

  /** A restart of Kea and the appliance: both come back with what they wrote. */
  function Restarted(st: State): State { st.(running := st.written, macs := st.disk) }

  /** From a state that is in step on disk too, one request leaves a restart in step exactly when it is not a
      blocklist change that went through with only one of the two writes working. */
  lemma RestartIsExact(st: State, s: Step)
    requires JsonOnly(st.running) && InSync(st) && st.written == st.running && st.disk == st.macs
    ensures InSync(Restarted(Stepped(st, s))) <==> !(EndOf(st, s) == Some(Applied) && s.replies.write != s.saved)
  {
    StepSyncIsExact(st, s);
    if NextMacs(st.macs, s).Some? {
      var next := NextMacs(st.macs, s).value;
      var dropped := WithDrop(st.running, next);
      WithDropKeepsOthers(st.running, next);
      NextMacsDiffers(st.macs, s);
      if InSync(Restarted(Stepped(st, s))) && EndOf(st, s) == Some(Applied) && s.replies.write != s.saved {
        TestIsInjective(next, st.macs, Others(st.running.classes));
      }
    }
  }

  // ---- restarts --------------------------------------------------------------------------------------

  /** The list Kea's DROP class shows: that of the last blocklist change Kea took over and kept. */
  function Shown(st: State, run: seq<Step>): seq<string> {
    if run == [] then st.macs else
    var n := |run| - 1;
    var end := EndOf(After(st, run[..n]), run[n]);
    if end == Some(Applied) || end == Some(RollbackFailed)
    then NextMacs(After(st, run[..n]).macs, run[n]).value else Shown(st, run[..n])
  }

  /** The request went through and Kea wrote its file. */
  predicate Writes(st: State, s: Step) {
    match s
    case Subnets(op, r, _) => r.write && Transacted(st.running, EditSubnets(op), r).1 == Applied
    case Elsewhere(_) => false
    case _ => s.replies.write && EndOf(st, s) == Some(Applied)
  }

  /** The list shown when Kea last wrote its file. */
  function LastWritten(st: State, run: seq<Step>): seq<string> {
    if run == [] then st.macs else
    var n := |run| - 1;
    if Writes(After(st, run[..n]), run[n]) then Shown(st, run) else LastWritten(st, run[..n])
  }

  /** The list the appliance stores: that of the last blocklist change that went through. */
  function Stored(st: State, run: seq<Step>): seq<string> {
    if run == [] then st.macs else
    var n := |run| - 1;
    if EndOf(After(st, run[..n]), run[n]) == Some(Applied) then NextMacs(After(st, run[..n]).macs, run[n]).value
    else Stored(st, run[..n])
  }

  /** The request rewrote the state file: a blocklist change does so only once Kea has taken it. */
  predicate Saves(st: State, s: Step) {
    s.saved && (s.Subnets? || s.Elsewhere? || EndOf(st, s) == Some(Applied))
  }

  /** The list stored when the state file was last written. */
  function LastSaved(st: State, run: seq<Step>): seq<string> {
    if run == [] then st.macs else
    var n := |run| - 1;
    if Saves(After(st, run[..n]), run[n]) then Stored(st, run) else LastSaved(st, run[..n])
  }

  lemma {:induction false} RunStores(st: State, run: seq<Step>)
    requires st.disk == st.macs
    ensures After(st, run).macs == Stored(st, run) && After(st, run).disk == LastSaved(st, run)
  {
    if run != [] {
      RunStores(st, run[..|run| - 1]);
    }
  }

  lemma StepShows(st: State, s: Step, front: seq<ClientClass>, list: seq<string>)
    requires JsonOnly(st.running) && Others(st.running.classes) == front && st.running.classes == front + Test(list)
    ensures
      var end, after := EndOf(st, s), Stepped(st, s);
      && after.running.classes == front + Test(if end == Some(Applied) || end == Some(RollbackFailed) then NextMacs(st.macs, s).value else list)
      && after.written == if Writes(st, s) then after.running else st.written
  {
    ReloadIsIdentity(st.running.subnets);
    if s.Subnets? && Mutated(st.running, EditSubnets(s.op)).Some? {
      MutationKeepsClasses(st.running, s.op);
    }
  }

  lemma {:induction false} RunShows(st: State, run: seq<Step>)
    requires JsonOnly(st.running) && InSync(st) && st.written == st.running
    ensures After(st, run).running.classes == Others(st.running.classes) + Test(Shown(st, run))
    ensures After(st, run).written.classes == Others(st.running.classes) + Test(LastWritten(st, run))
  {
    RunSyncIsExact(st, run);
    if run != [] {
      var n := |run| - 1;
      RunShows(st, run[..n]);
      RunSyncIsExact(st, run[..n]);
      StepShows(After(st, run[..n]), run[n], Others(st.running.classes), Shown(st, run[..n]));
    }
  }

  /** Over any run from a state in step on disk too: a restart is in step exactly when the list Kea showed when
      it last wrote its file is the list stored when the state file was last written. */
  lemma RunRestartIsExact(st: State, run: seq<Step>)
    requires JsonOnly(st.running) && InSync(st) && st.written == st.running && st.disk == st.macs
    ensures InSync(Restarted(After(st, run))) <==> LastWritten(st, run) == LastSaved(st, run)
  {
    var front, w := Others(st.running.classes), LastWritten(st, run);
    RunShows(st, run);
    RunStores(st, run);
    OthersOfFront(st.running.classes, w);
    if InSync(Restarted(After(st, run))) {
      TestIsInjective(w, After(st, run).disk, front);
    }
  }

  lemma OthersOfFront(cs: seq<ClientClass>, list: seq<string>)
    ensures Others(Others(cs) + Test(list)) == Others(cs)
  {
    OthersConcat(Others(cs), Test(list));
    OthersAgain(cs);
    if list != [] {
      assert Others(Test(list)) == KeepOther()(DropClass(list)) + Others(Test(list)[1..]);
    }
  }

  lemma OthersHaveNoDrop(cs: seq<ClientClass>, c: ClientClass)
    requires c in Others(cs)
    ensures !c.DropClass?
  {
    FlatMapMembers(cs, KeepOther(), c);
  }

  /** In step means: the clients Kea ignores are exactly the stored ones. */
  lemma SyncMeansExactlyTheStoredMacs(st: State, mac: string)
    requires InSync(st)
    ensures Ignored(st.running.classes, mac) <==> mac in st.macs
  {
    var cs, front := st.running.classes, Others(st.running.classes);
    if i :| 0 <= i < |cs| && cs[i].DropClass? && mac in cs[i].macs {
      if i < |front| {
        assert cs[i] == front[i];
        OthersHaveNoDrop(cs, cs[i]);
        assert false;
      }
      assert cs[i] in Test(st.macs);
    }
    if mac in st.macs {
      assert cs[|front|] == DropClass(st.macs);
    }
  }

  /** However the two drifted apart, the next blocklist change that goes through brings them together. */
  lemma NextSuccessRepairs(st: State, s: Step)
    requires EndOf(st, s) == Some(Applied)
    ensures InSync(Stepped(st, s))
  {
    WithDropKeepsOthers(st.running, NextMacs(st.macs, s).value);
  }

  lemma TransactionKeepsPlan(k: KeaConfig, m: Mutation, r: Replies)
    requires Plan(k.subnets)
    ensures Plan(Transacted(k, m, r).0.subnets)
  {
    ReloadIsIdentity(k.subnets);
    if m.EditSubnets? {
      EditKeepsPlan(k, m.op);
      assert Mutated(k, m).Some? ==> Mutated(k, m).value == Edited(k, m.op);
    }
  }

  /** The address plan survives every request, failed rollbacks included. */
  lemma StepKeepsPlan(st: State, s: Step)
    requires Plan(st.running.subnets)
    ensures Plan(Stepped(st, s).running.subnets)
  {
    if s.Subnets? {
      TransactionKeepsPlan(st.running, EditSubnets(s.op), s.replies);
    } else if NextMacs(st.macs, s).Some? {
      TransactionKeepsPlan(st.running, SetDrop(NextMacs(st.macs, s).value), s.replies);
    }
  }

  lemma {:induction false} RunKeepsPlan(st: State, run: seq<Step>)
    requires Plan(st.running.subnets)
    ensures Plan(After(st, run).running.subnets)
  {
    if run != [] {
      RunKeepsPlan(st, run[..|run| - 1]);
      StepKeepsPlan(After(st, run[..|run| - 1]), run[|run| - 1]);
    }
  }
}
