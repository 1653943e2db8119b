/** Configuration snapshots: taken when a fingerprinted section changes, capped at the newest
    forty, and restored without touching the audit trail or the service list. */
module ConfigVersions {

  const MAX_VERSIONS: nat := 40

  /** The whole state. Sections are the fingerprinted parts; an empty content is an absent section.
      API tokens are part of the state but of no section. */
  datatype Live = Live(sections: map<string, string>, audit: seq<string>, services: seq<string>,
                       version: nat, tokens: seq<string>)

  datatype Snapshot = Snapshot(time: int, state: Live)

  /** Store contents: live state, fingerprints at the last snapshot, snapshot files in name order. */
  datatype Store = Store(data: Live, last: map<string, string>, dir: seq<Snapshot>)

  function Fingerprints(d: Live): map<string, string> {
    map n | n in d.sections && d.sections[n] != "" :: d.sections[n]
  }

  /** A missing map entry reads as the empty text. */
  function Get(m: map<string, string>, n: string): string { if n in m then m[n] else "" }

  function Changed(prev: map<string, string>, cur: map<string, string>): set<string> {
    (set n | n in cur && Get(prev, n) != cur[n]) + (set n | n in prev && n !in cur)
  }

  method ChangedSections(prev: map<string, string>, cur: map<string, string>) returns (out: set<string>)
    ensures out == Changed(prev, cur)
  {
    out := {};
    var todo := cur.Keys;
    while todo != {}
      invariant todo <= cur.Keys
      invariant forall n :: n in out <==> n in cur && n !in todo && Get(prev, n) != cur[n]
      decreases |todo|
    {
      var n :| n in todo;
      if Get(prev, n) != cur[n] {
        out := out + {n};
      }
      todo := todo - {n};
    }
    todo := prev.Keys;
    while todo != {}
      invariant todo <= prev.Keys
      invariant forall n :: n in out <==> (n in cur && Get(prev, n) != cur[n]) || (n in prev && n !in todo && n !in cur)
      decreases |todo|
    {
      var n :| n in todo;
      if n !in cur {
        out := out + {n};
      }
      todo := todo - {n};
    }
  }

  /** For real fingerprints, nothing changed means equal. */
  lemma NothingChangedIsEqual(d: Live, e: Live)
    ensures Changed(Fingerprints(d), Fingerprints(e)) == {} <==> Fingerprints(d) == Fingerprints(e)
  {
    var p, c := Fingerprints(d), Fingerprints(e);
    if Changed(p, c) == {} {
      forall n ensures n in p <==> n in c {
        assert n !in Changed(p, c);
      }
      forall n | n in c ensures p[n] == c[n] {
        assert n !in Changed(p, c);
      }
      assert p == c;
    }
  }

  // ---- the store's steps as functions -----------------------------------------------------------------

  /** A file named by its time: the listing stays in name order, and an equal name is overwritten. */
  function Written(dir: seq<Snapshot>, s: Snapshot): seq<Snapshot> {
    if dir == [] then [s] else
    var n := |dir| - 1;
    if dir[n].time < s.time then dir + [s]
    else if dir[n].time == s.time then dir[..n] + [s]
    else Written(dir[..n], s) + [dir[n]]
  }

  function Pruned(dir: seq<Snapshot>): seq<Snapshot> {
    if |dir| <= MAX_VERSIONS then dir else dir[|dir| - MAX_VERSIONS..]
  }

  /** Writing a snapshot is best effort: nothing happens when the file cannot be written. */
  function Snapped(st: Store, time: int, wrote: bool): Store {
    if wrote then st.(dir := Pruned(Written(st.dir, Snapshot(time, st.data)))) else st
  }

  /** Saving takes a snapshot only when a section changed, and then remembers the new fingerprints. */
  function Saved(st: Store, time: int, wrote: bool): Store {
    var cur := Fingerprints(st.data);
    if Changed(st.last, cur) == {} then st else Snapped(st, time, wrote).(last := cur)
  }

  datatype Step =
    | Edit(sections: map<string, string>, tokens: seq<string>, time: int, wrote: bool)
    | Record(entry: string, time: int, wrote: bool)
    | Checkpoint(time: int, wrote: bool)
    | Restore(index: nat, time: int, wrote: bool)

  function Audited(audit: seq<string>, entry: string): seq<string> {
    var all := [entry] + audit;
    if |all| > 5000 then all[..5000] else all
  }

  function RolledBack(live: Live, old_: Live): Live {
    old_.(audit := live.audit, services := live.services,
          version := if old_.version == 0 then live.version else old_.version)
  }

  function Stepped(st: Store, s: Step): Store {
    match s
    case Edit(sections, tokens, time, wrote) => Saved(st.(data := st.data.(sections := sections, tokens := tokens)), time, wrote)
    case Record(entry, time, wrote) => Saved(st.(data := st.data.(audit := Audited(st.data.audit, entry))), time, wrote)
    case Checkpoint(time, wrote) => Snapped(st, time, wrote).(last := Fingerprints(st.data))
    case Restore(i, time, wrote) =>
      if i < |st.dir| then Saved(st.(data := RolledBack(st.data, st.dir[i].state)), time, wrote) else st
  }

  /** A fresh store takes a baseline snapshot, so there is always something to restore. */
  function Opened(d: Live, time: int, wrote: bool): Store {
    Snapped(Store(d, Fingerprints(d), []), time, wrote)
  }

  // ---- the store itself -----------------------------------------------------------------------------------

  class VersionedStore {
    var data: Live
    var last: map<string, string>
    var dir: seq<Snapshot>

    function Contents(): Store
      reads this
    {
      Store(data, last, dir)
    }

    constructor (d: Live, time: int, wrote: bool)
      ensures Contents() == Opened(d, time, wrote)
    {
      data, last, dir := d, Fingerprints(d), [];
      new;
      SnapshotLocked(time, wrote);
    }

    method PruneVersions()
      modifies this`dir
      ensures dir == Pruned(old(dir))
    {
      if |dir| <= MAX_VERSIONS {
        return;
      }
      var extra := |dir| - MAX_VERSIONS;
      for i := 0 to extra
        invariant dir == old(dir)[i..]
      {
        dir := dir[1..];
      }
    }

    method SnapshotLocked(time: int, wrote: bool)
      modifies this`dir
      ensures Contents() == Snapped(old(Contents()), time, wrote)
    {
      if !wrote {
        return;
      }
      dir := Written(dir, Snapshot(time, data));
      PruneVersions();
    }

    method SaveLocked(time: int, wrote: bool)
      modifies this
      ensures Contents() == Saved(old(Contents()), time, wrote)
    {
      var cur := Fingerprints(data);
      var changed := ChangedSections(last, cur);
      if |changed| == 0 {
        return;
      }
      SnapshotLocked(time, wrote);
      last := cur;
    }

    method EditConfig(sections: map<string, string>, tokens: seq<string>, time: int, wrote: bool)
      modifies this
      ensures Contents() == Stepped(old(Contents()), Edit(sections, tokens, time, wrote))
    {
      data := data.(sections := sections, tokens := tokens);
      SaveLocked(time, wrote);
    }

    method AddAudit(entry: string, time: int, wrote: bool)
      modifies this
      ensures Contents() == Stepped(old(Contents()), Record(entry, time, wrote))
    {
      data := data.(audit := [entry] + data.audit);
      if |data.audit| > 5000 {
        data := data.(audit := data.audit[..5000]);
      }
      SaveLocked(time, wrote);
    }

    /** The checkpoint request: a snapshot in any case, then its own audit entry. */
    method TakeCheckpoint(time: int, wrote: bool, entry: string, noted: int, notedWrote: bool)
      modifies this
      ensures Contents() == Stepped(Stepped(old(Contents()), Checkpoint(time, wrote)), Record(entry, noted, notedWrote))
    {
      SnapshotLocked(time, wrote);
      last := Fingerprints(data);
      AddAudit(entry, noted, notedWrote);
    }

    /** The restore request: roll back, save, then its own audit entry; nothing for an unknown version. */
    method RestoreVersion(index: nat, time: int, wrote: bool, entry: string, noted: int, notedWrote: bool)
      returns (changed: set<string>)
      modifies this
      ensures index < |old(dir)| ==>
        && Contents() == Stepped(Stepped(old(Contents()), Restore(index, time, wrote)), Record(entry, noted, notedWrote))
        && changed == Changed(Fingerprints(old(data)), Fingerprints(old(dir)[index].state))
      ensures index >= |old(dir)| ==> Contents() == old(Contents()) && changed == {}
    {
      changed := {};
      if index >= |dir| {
        return;
      }
      var restored := dir[index].state;
      changed := ChangedSections(Fingerprints(data), Fingerprints(restored));
      restored := restored.(audit := data.audit, services := data.services);
      if restored.version == 0 {
        restored := restored.(version := data.version);
      }
      data := restored;
      SaveLocked(time, wrote);
      AddAudit(entry, noted, notedWrote);
    }
  }

  // ---- what every run keeps -------------------------------------------------------------------------------

  ghost predicate Chronological(dir: seq<Snapshot>) {
    forall i, j :: 0 <= i < j < |dir| ==> dir[i].time < dir[j].time
  }

  /** The newest snapshot carries the live configuration, and at most forty are kept. */
  ghost predicate Current(st: Store) {
    && 0 < |st.dir| <= 40
    && Chronological(st.dir)
    && st.last == Fingerprints(st.data)
    && Fingerprints(st.dir[|st.dir| - 1].state) == Fingerprints(st.data)
  }

  // ---- the directory, whatever the clock does -------------------------------------------------------

  /** Writing a file leaves the listing in order; it then holds the new snapshot and every old one of
      another time. */
  lemma {:induction false} WrittenIsExact(dir: seq<Snapshot>, s: Snapshot)
    requires Chronological(dir)
    ensures Chronological(Written(dir, s))
    ensures forall x :: x in Written(dir, s) <==> x == s || (x in dir && x.time != s.time)
  {
    if dir != [] {
      var n := |dir| - 1;
      assert dir == dir[..n] + [dir[n]];
      assert forall x :: x in dir[..n] ==> x.time < dir[n].time;
      if dir[n].time < s.time {
        LaterIsChronological(dir, s);
      } else if dir[n].time == s.time {
        LaterIsChronological(dir[..n], s);
      } else {
        WrittenIsExact(dir[..n], s);
        var inner := Written(dir[..n], s);
        assert forall i :: 0 <= i < |inner| ==> inner[i] in inner && inner[i].time < dir[n].time;
        LaterIsChronological(inner, dir[n]);
      }
    }
  }

  /** Pruning keeps the newest forty. */
  lemma PrunedIsNewest(dir: seq<Snapshot>)
    ensures |dir| <= 40 ==> Pruned(dir) == dir
    ensures |dir| > 40 ==> |Pruned(dir)| == 40 && forall i :: 0 <= i < 40 ==> Pruned(dir)[i] == dir[|dir| - 40 + i]
  {
  }

  lemma PrunedIsChronological(dir: seq<Snapshot>)
    requires Chronological(dir)
    ensures Chronological(Pruned(dir)) && |Pruned(dir)| <= 40 && forall x :: x in Pruned(dir) ==> x in dir
  {
    PrunedIsNewest(dir);
  }

  /** The snapshot is of a state the store had: at the start, or after a step with the snapshot's time. */
  ghost predicate Taken(st: Store, run: seq<Step>, x: Snapshot) {
    || x in st.dir
    || exists k :: 0 <= k < |run| && run[k].wrote && run[k].time == x.time && After(st, run[..k + 1]).data == x.state
  }

  lemma TakenLater(st: Store, run: seq<Step>, x: Snapshot)
    requires run != [] && Taken(st, run[..|run| - 1], x)
    ensures Taken(st, run, x)
  {
    var init := run[..|run| - 1];
    if k :| 0 <= k < |init| && init[k].wrote && init[k].time == x.time && After(st, init[..k + 1]).data == x.state {
      assert init[..k + 1] == run[..k + 1] && run[k] == init[k];
    }
  }

  lemma SnappedIsExact(st: Store, time: int, wrote: bool)
    requires Chronological(st.dir) && |st.dir| <= 40
    ensures
      var next := Snapped(st, time, wrote);
      && Chronological(next.dir) && |next.dir| <= 40 && next.data == st.data
      && forall x :: x in next.dir ==> x in st.dir || (wrote && x == Snapshot(time, st.data))
  {
    if wrote {
      WrittenIsExact(st.dir, Snapshot(time, st.data));
      PrunedIsChronological(Written(st.dir, Snapshot(time, st.data)));
    }
  }

  lemma StepTakes(st: Store, s: Step)
    requires Chronological(st.dir) && |st.dir| <= 40
    ensures
      var next := Stepped(st, s);
      && Chronological(next.dir) && |next.dir| <= 40
      && forall x :: x in next.dir ==> x in st.dir || (s.wrote && x == Snapshot(s.time, next.data))
  {
    match s
    case Edit(sections, tokens, time, wrote) => SnappedIsExact(st.(data := st.data.(sections := sections, tokens := tokens)), time, wrote);
    case Record(entry, time, wrote) => SnappedIsExact(st.(data := st.data.(audit := Audited(st.data.audit, entry))), time, wrote);
    case Checkpoint(time, wrote) => SnappedIsExact(st, time, wrote);
    case Restore(i, time, wrote) =>
      if i < |st.dir| {
        SnappedIsExact(st.(data := RolledBack(st.data, st.dir[i].state)), time, wrote);
      }
  }

  /** Over every run, with failing writes and a clock that may jump either way: at most forty snapshots, in
      order and one per time, and each is of a state the store really had then. */
  lemma {:induction false} RunKeepsTrueSnapshots(st: Store, run: seq<Step>)
    requires Chronological(st.dir) && |st.dir| <= 40
    ensures
      var after := After(st, run);
      && Chronological(after.dir) && |after.dir| <= 40
      && forall x :: x in after.dir ==> Taken(st, run, x)
  {
    if run != [] {
      var n := |run| - 1;
      RunKeepsTrueSnapshots(st, run[..n]);
      var before, after := After(st, run[..n]), After(st, run);
      StepTakes(before, run[n]);
      assert run[..n + 1] == run;
      forall x | x in after.dir ensures Taken(st, run, x) {
        if x in before.dir {
          TakenLater(st, run, x);
        }
      }
    }
  }

  // ---- the live state over a run ---------------------------------------------------------------------

  /** The entries recorded by a run, newest first. */
  ghost function Entries(run: seq<Step>): seq<string> {
    if run == [] then [] else
    var s := run[|run| - 1];
    (if s.Record? then [s.entry] else []) + Entries(run[..|run| - 1])
  }

  /** The newest five thousand. */
  ghost function Newest(entries: seq<string>): seq<string> {
    if |entries| <= 5000 then entries else entries[..5000]
  }

  lemma RecordedIsNewest(entries: seq<string>, entry: string)
    ensures Audited(Newest(entries), entry) == Newest([entry] + entries)
  {
  }

  lemma StepKeepsTrail(st: Store, s: Step)
    ensures Stepped(st, s).data.services == st.data.services
    ensures Stepped(st, s).data.audit == if s.Record? then Audited(st.data.audit, s.entry) else st.data.audit
  {
  }

  /** The audit trail is everything ever recorded, newest first and cut at five thousand: no edit, checkpoint
      or restore takes anything out of it. The service list is no business of any step. */
  lemma {:induction false} RunKeepsTheTrail(st: Store, run: seq<Step>)
    requires |st.data.audit| <= 5000
    ensures After(st, run).data.audit == Newest(Entries(run) + st.data.audit)
    ensures After(st, run).data.services == st.data.services
  {
    if run == [] {
      assert Entries(run) + st.data.audit == st.data.audit;
    } else {
      var n := |run| - 1;
      var s, older := run[n], Entries(run[..n]) + st.data.audit;
      RunKeepsTheTrail(st, run[..n]);
      StepKeepsTrail(After(st, run[..n]), s);
      if s.Record? {
        RecordedIsNewest(older, s.entry);
        assert [s.entry] + older == Entries(run) + st.data.audit;
      } else {
        assert [] + Entries(run[..n]) == Entries(run[..n]);
      }
    }
  }

  /** The sections and tokens an operator last put in are there until the next edit or restore. */
  lemma {:induction false} RunShowsTheLastEdit(st: Store, run: seq<Step>, k: nat)
    requires k < |run| && run[k].Edit?
    requires forall j :: k < j < |run| ==> run[j].Record? || run[j].Checkpoint?
    ensures After(st, run).data.sections == run[k].sections && After(st, run).data.tokens == run[k].tokens
  {
    var n := |run| - 1;
    if k < n {
      RunShowsTheLastEdit(st, run[..n], k);
    }
  }

  lemma SnapshotAppends(st: Store, time: int)
    requires |st.dir| <= MAX_VERSIONS && Chronological(st.dir)
    requires st.dir == [] || st.dir[|st.dir| - 1].time < time
    ensures
      var all, next := st.dir + [Snapshot(time, st.data)], Snapped(st, time, true);
      && next.dir == (if |all| <= MAX_VERSIONS then all else all[1..])
      && 0 < |next.dir| <= MAX_VERSIONS && Chronological(next.dir)
      && next.dir[|next.dir| - 1] == Snapshot(time, st.data)
  {
    var s := Snapshot(time, st.data);
    var all := st.dir + [s];
    assert Written(st.dir, s) == all;
    assert all[|all| - 1] == s;
    LaterIsChronological(st.dir, s);
  }

  lemma LaterIsChronological(dir: seq<Snapshot>, s: Snapshot)
    requires Chronological(dir) && (dir == [] || dir[|dir| - 1].time < s.time)
    ensures Chronological(dir + [s]) && Chronological((dir + [s])[1..])
  {
    assert forall i :: 0 <= i < |dir| ==> dir[i].time < s.time;
  }

  lemma SaveIsCurrent(st: Store, d: Live, time: int)
    requires Current(st) && st.dir[|st.dir| - 1].time < time
    ensures Current(Saved(st.(data := d), time, true))
    ensures Saved(st.(data := d), time, true).data == d
  {
    NothingChangedIsEqual(st.data, d);
    SnapshotAppends(st.(data := d), time);
  }

  /** Every step with a later clock and a writable directory leaves the newest snapshot equal, section
      by section, to the live configuration. */
  lemma StepIsCurrent(st: Store, s: Step)
    requires Current(st) && s.wrote && st.dir[|st.dir| - 1].time < s.time
    ensures Current(Stepped(st, s))
  {
    match s
    case Edit(sections, tokens, time, wrote) => SaveIsCurrent(st, st.data.(sections := sections, tokens := tokens), time);
    case Record(entry, time, wrote) => SaveIsCurrent(st, st.data.(audit := Audited(st.data.audit, entry)), time);
    case Checkpoint(time, wrote) => SnapshotAppends(st, time);
    case Restore(i, time, wrote) =>
      if i < |st.dir| {
        SaveIsCurrent(st, RolledBack(st.data, st.dir[i].state), time);
      }
  }

  function After(st: Store, run: seq<Step>): Store {
    if run == [] then st else Stepped(After(st, run[..|run| - 1]), run[|run| - 1])
  }

  /** Every write succeeds and every step's clock is later than all snapshots so far. */
  ghost predicate Orderly(st: Store, run: seq<Step>) {
    run == [] ||
    var before := After(st, run[..|run| - 1]);
    && Orderly(st, run[..|run| - 1])
    && run[|run| - 1].wrote
    && forall k :: 0 <= k < |before.dir| ==> before.dir[k].time < run[|run| - 1].time
  }

  lemma {:induction false} RunFrom(st: Store, run: seq<Step>)
    requires Current(st) && Orderly(st, run)
    ensures Current(After(st, run))
  {
    if run != [] {
      RunFrom(st, run[..|run| - 1]);
      StepIsCurrent(After(st, run[..|run| - 1]), run[|run| - 1]);
    }
  }

  /** Over every orderly run from a fresh store. */
  lemma RunIsCurrent(d: Live, time: int, run: seq<Step>)
    requires Orderly(Opened(d, time, true), run)
    ensures Current(After(Opened(d, time, true), run))
  {
    SnapshotAppends(Store(d, Fingerprints(d), []), time);
    RunFrom(Opened(d, time, true), run);
  }

  lemma RestoreKeepsPrior(st: Store, i: nat, time: int)
    requires Current(st) && i < |st.dir| && st.dir[|st.dir| - 1].time < time
    ensures
      var after := Stepped(st, Restore(i, time, true));
      && after.data == RolledBack(st.data, st.dir[i].state)
      && exists k :: 0 <= k < |after.dir| && after.dir[k] == st.dir[|st.dir| - 1]
  {
    var d, prior := RolledBack(st.data, st.dir[i].state), st.dir[|st.dir| - 1];
    NothingChangedIsEqual(st.data, d);
    SnapshotAppends(st.(data := d), time);
    var after := Stepped(st, Restore(i, time, true));
    if Changed(st.last, Fingerprints(d)) == {} {
      assert after.dir[|st.dir| - 1] == prior;
    } else {
      var all := st.dir + [Snapshot(time, d)];
      assert all[|st.dir| - 1] == prior;
      assert after.dir[|after.dir| - 2] == prior;
    }
  }

  lemma RollbackRestoresSections(live: Live, snap: Live)
    ensures Fingerprints(RolledBack(live, snap)) == Fingerprints(snap)
  {
  }

  /** An audit entry alone never touches sections or snapshots. */
  lemma RecordIsSilent(st: Store, entry: string, time: int, wrote: bool)
    requires st.last == Fingerprints(st.data)
    ensures Stepped(st, Record(entry, time, wrote)) == st.(data := st.data.(audit := Audited(st.data.audit, entry)))
  {
    NothingChangedIsEqual(st.data, st.data.(audit := Audited(st.data.audit, entry)));
  }

  /** A restore request with its audit entry. */
  function Restored(st: Store, i: nat, time: int, entry: string): Store {
    Stepped(Stepped(st, Restore(i, time, true)), Record(entry, time, true))
  }

  lemma RestoreInstalls(st: Store, i: nat, time: int, entry: string)
    requires Current(st) && i < |st.dir| && st.dir[|st.dir| - 1].time < time
    ensures
      var after := Restored(st, i, time, entry);
      && Current(after) && after.dir[|after.dir| - 1].time <= time
      && after.dir == Stepped(st, Restore(i, time, true)).dir
      && Fingerprints(after.data) == Fingerprints(st.dir[i].state)
      && after.data.audit == Audited(st.data.audit, entry) && after.data.services == st.data.services
  {
    var mid := Stepped(st, Restore(i, time, true));
    StepIsCurrent(st, Restore(i, time, true));
    RestoreKeepsPrior(st, i, time);
    NewestIsNotLater(st, i, time);
    RollbackRestoresSections(st.data, st.dir[i].state);
    RecordIsSilent(mid, entry, time, true);
  }

  /** Every restore can be undone: it installs exactly the snapshot's sections, keeps service list and
      audit trail but for its own entry, and afterwards some kept snapshot brings the prior sections back. */
  lemma RestoreCanBeUndone(st: Store, i: nat, time: int, entry: string, later: int, undo: string) returns (k: nat)
    requires Current(st) && i < |st.dir| && st.dir[|st.dir| - 1].time < time < later
    ensures
      var after := Restored(st, i, time, entry);
      && Fingerprints(after.data) == Fingerprints(st.dir[i].state)
      && after.data.audit == Audited(st.data.audit, entry) && after.data.services == st.data.services
      && k < |after.dir|
      && var undone := Restored(after, k, later, undo);
         && Fingerprints(undone.data) == Fingerprints(st.data)
         && undone.data.audit == Audited(Audited(st.data.audit, entry), undo) && undone.data.services == st.data.services
  {
    var after := Restored(st, i, time, entry);
    RestoreKeepsPrior(st, i, time);
    RestoreInstalls(st, i, time, entry);
    k :| 0 <= k < |after.dir| && after.dir[k] == st.dir[|st.dir| - 1];
    RestoreInstalls(after, k, later, undo);
  }

  lemma NewestIsNotLater(st: Store, i: nat, time: int)
    requires Current(st) && i < |st.dir| && st.dir[|st.dir| - 1].time < time
    ensures
      var after := Stepped(st, Restore(i, time, true));
      |after.dir| > 0 && after.dir[|after.dir| - 1].time <= time
  {
    SnapshotAppends(st.(data := RolledBack(st.data, st.dir[i].state)), time);
  }

  /** A snapshot that could not be written is never retried: the newest snapshot then matches the live
      configuration exactly when the save changed no section. */
  lemma FailedSnapshotIsLost(st: Store, d: Live, time: int)
    requires Current(st)
    ensures
      var after := Saved(st.(data := d), time, false);
      && after.last == Fingerprints(d)
      && (Fingerprints(after.dir[|after.dir| - 1].state) == Fingerprints(d) <==> Fingerprints(d) == Fingerprints(st.data))
  {
    NothingChangedIsEqual(st.data, d);
  }

  /** API tokens are rolled back but belong to no section. After tokens are set and version i is restored,
      another restore can bring them back exactly when version i itself held them or a snapshot did that
      the restore kept; it drops the oldest one when forty are kept and a section changes. */
  lemma TokensComeBackExactly(st: Store, tokens: seq<string>, t: int, i: nat, time: int, later: int)
    requires Current(st) && i < |st.dir| && st.dir[|st.dir| - 1].time < time
    ensures
      var edited := Stepped(st, Edit(st.data.sections, tokens, t, true));
      var after := Stepped(edited, Restore(i, time, true));
      var dropped := if |st.dir| == MAX_VERSIONS && Fingerprints(st.dir[i].state) != Fingerprints(st.data) then 1 else 0;
      && edited.data.tokens == tokens
      && ((exists k :: 0 <= k < |after.dir| && Stepped(after, Restore(k, later, true)).data.tokens == tokens) <==>
            st.dir[i].state.tokens == tokens || exists k :: dropped <= k < |st.dir| && st.dir[k].state.tokens == tokens)
  {
    var edited := Stepped(st, Edit(st.data.sections, tokens, t, true));
    TokensMakeNoSnapshot(st, tokens, t);
    var d := RolledBack(edited.data, st.dir[i].state);
    RollbackRestoresSections(edited.data, st.dir[i].state);
    RestoreWrites(edited, i, time);
    var after := Stepped(edited, Restore(i, time, true));
    KeptSnapshots(edited, d, time, after.dir, tokens);
    TokensFrom(after, tokens, later);
  }

  lemma RestoreWrites(st: Store, i: nat, time: int)
    requires Current(st) && i < |st.dir| && st.dir[|st.dir| - 1].time < time
    ensures
      var d, after := RolledBack(st.data, st.dir[i].state), Stepped(st, Restore(i, time, true));
      var all := st.dir + [Snapshot(time, d)];
      after.dir == if Fingerprints(d) == Fingerprints(st.data) then st.dir else if |all| <= MAX_VERSIONS then all else all[1..]
  {
    var d := RolledBack(st.data, st.dir[i].state);
    NothingChangedIsEqual(st.data, d);
    SnapshotAppends(st.(data := d), time);
  }

  lemma TokensFrom(st: Store, tokens: seq<string>, later: int)
    ensures (exists k :: 0 <= k < |st.dir| && Stepped(st, Restore(k, later, true)).data.tokens == tokens) <==>
            exists k :: 0 <= k < |st.dir| && st.dir[k].state.tokens == tokens
  {
    forall k | 0 <= k < |st.dir| ensures Stepped(st, Restore(k, later, true)).data.tokens == st.dir[k].state.tokens {
    }
  }

  lemma TokensMakeNoSnapshot(st: Store, tokens: seq<string>, t: int)
    requires Current(st)
    ensures Stepped(st, Edit(st.data.sections, tokens, t, true)) == st.(data := st.data.(tokens := tokens))
    ensures Fingerprints(st.data.(tokens := tokens)) == Fingerprints(st.data)
  {
    NothingChangedIsEqual(st.data, st.data.(tokens := tokens));
  }

  /** Whose tokens the directory holds after one more snapshot, or none. */
  lemma KeptSnapshots(st: Store, d: Live, time: int, dir: seq<Snapshot>, tokens: seq<string>)
    requires 0 < |st.dir| <= MAX_VERSIONS
    requires
      var all := st.dir + [Snapshot(time, d)];
      dir == if Fingerprints(d) == Fingerprints(st.data) then st.dir else if |all| <= MAX_VERSIONS then all else all[1..]
    ensures
      var differs := Fingerprints(d) != Fingerprints(st.data);
      var dropped := if |st.dir| == MAX_VERSIONS && differs then 1 else 0;
      (exists k :: 0 <= k < |dir| && dir[k].state.tokens == tokens) <==>
      (differs && d.tokens == tokens) || exists k :: dropped <= k < |st.dir| && st.dir[k].state.tokens == tokens
  {
    var differs := Fingerprints(d) != Fingerprints(st.data);
    var dropped := if |st.dir| == MAX_VERSIONS && differs then 1 else 0;
    if k :| dropped <= k < |st.dir| && st.dir[k].state.tokens == tokens {
      assert dir[k - dropped] == st.dir[k];
    }
    if differs {
      assert dir[|dir| - 1] == Snapshot(time, d);
    }
  }
}
