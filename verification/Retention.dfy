/** Monthly event partitions: which months exist after ensuring and pruning, under the calendar
    arithmetic that carries an overflowing day into the next month. */
module Retention {
  import opened Sequences

  /** Months are counted from January of year 0: 12 * year + month - 1. */
  datatype Date = Date(month: int, day: int)

  predicate Leap(year: int) { year % 4 == 0 && (year % 100 != 0 || year % 400 == 0) }

  function DaysIn(month: int): (d: int)
    ensures 28 <= d <= 31
  {
    var m := month % 12;
    if m == 1 then (if Leap(month / 12) then 29 else 28)
    else if m == 3 || m == 5 || m == 8 || m == 10 then 30
    else 31
  }

  predicate Real(d: Date) { 1 <= d.day <= DaysIn(d.month) }

  /** Adding months keeps the day of month; a day the target month lacks runs over into the next. */
  function AddMonths(d: Date, k: int): Date {
    if d.day <= DaysIn(d.month + k) then Date(d.month + k, d.day)
    else Date(d.month + k + 1, d.day - DaysIn(d.month + k))
  }

  // ---- the calendar as a count of days --------------------------------------------------------------

  /** Days from 1 January of year 0 to the first of the month. */
  function FirstDay(month: int): int
    decreases if month < 0 then -month else month
  {
    if month == 0 then 0
    else if month > 0 then FirstDay(month - 1) + DaysIn(month - 1)
    else FirstDay(month + 1) - DaysIn(month)
  }

  function DayNumber(d: Date): int { FirstDay(d.month) + d.day - 1 }

  lemma {:induction false} FirstDaysGrow(a: int, b: int)
    requires a < b
    ensures FirstDay(a) + DaysIn(a) <= FirstDay(b)
    decreases b - a
  {
    assert FirstDay(b) == FirstDay(b - 1) + DaysIn(b - 1);
    if b > a + 1 {
      FirstDaysGrow(a, b - 1);
    }
  }

  lemma DayLiesInItsMonth(d: Date, month: int)
    requires Real(d)
    ensures FirstDay(month) <= DayNumber(d) < FirstDay(month) + DaysIn(month) <==> month == d.month
  {
    if month < d.month { FirstDaysGrow(month, d.month); }
    if d.month < month { FirstDaysGrow(d.month, month); }
  }

  /** Adding months is calendar normalisation: the result is the one real date that lies as many days
      after the first of the target month as today lies after the first of this one. */
  lemma AddMonthsNormalises(d: Date, k: int, e: Date)
    requires Real(d) && Real(e)
    ensures Real(AddMonths(d, k))
    ensures e == AddMonths(d, k) <==> DayNumber(e) == FirstDay(d.month + k) + d.day - 1
  {
    var a := AddMonths(d, k);
    assert FirstDay(d.month + k + 1) == FirstDay(d.month + k) + DaysIn(d.month + k);
    DayLiesInItsMonth(e, a.month);
    DayLiesInItsMonth(a, e.month);
  }

  /** Days gone before each month of a common year, and in the whole year. */
  const GONE: seq<int> := [0, 31, 59, 90, 120, 151, 181, 212, 243, 273, 304, 334, 365]

  lemma DaysInMonth(year: int, k: nat)
    requires k < 12
    ensures DaysIn(12 * year + k) == GONE[k + 1] - GONE[k] + if k == 1 && Leap(year) then 1 else 0
  {
    assert (12 * year + k) / 12 == year && (12 * year + k) % 12 == k;
  }

  lemma {:induction false} YearSoFar(year: int, k: nat)
    requires k <= 12
    ensures FirstDay(12 * year + k) == FirstDay(12 * year) + GONE[k] + if k >= 2 && Leap(year) then 1 else 0
  {
    if k > 0 {
      YearSoFar(year, k - 1);
      assert FirstDay(12 * year + k) == FirstDay(12 * year + k - 1) + DaysIn(12 * year + k - 1);
      DaysInMonth(year, k - 1);
    }
  }

  // ---- partition bounds tile time ------------------------------------------------------------------

  const DAY: int := 86400

  /** Seconds from the start of year 0. */
  function Instant(d: Date, second: int): int { DayNumber(d) * DAY + second }

  /** The first of the month, and one month after it. */
  function PartitionBounds(d: Date): (Date, Date) {
    var from := Date(d.month, 1);
    (from, AddMonths(from, 1))
  }

  ghost predicate Within(x: int, month: int) {
    var (from, to) := PartitionBounds(Date(month, 1));
    Instant(from, 0) <= x < Instant(to, 0)
  }

  lemma BoundsAreMonths(d: Date)
    ensures PartitionBounds(d) == (Date(d.month, 1), Date(d.month + 1, 1))
    ensures Instant(PartitionBounds(d).1, 0) == (FirstDay(d.month) + DaysIn(d.month)) * DAY
  {
    assert FirstDay(d.month + 1) == FirstDay(d.month) + DaysIn(d.month);
  }

  /** Leap years from year 0 up to the year, counted by the Gregorian rule; negative before year 0. */
  ghost function LeapsBefore(year: int): int { (year + 3) / 4 - (year + 99) / 100 + (year + 399) / 400 }

  lemma OneMoreLeap(year: int)
    ensures LeapsBefore(year + 1) - LeapsBefore(year) ==
            if year % 4 == 0 && (year % 100 != 0 || year % 400 == 0) then 1 else 0
  {
    EveryFourth(year);
    EveryHundredth(year);
    EveryFourHundredth(year);
    LeapsNest(year);
  }

  lemma EveryFourth(year: int)
    ensures (year + 4) / 4 - (year + 3) / 4 == if year % 4 == 0 then 1 else 0
  {
  }

  lemma EveryHundredth(year: int)
    ensures (year + 100) / 100 - (year + 99) / 100 == if year % 100 == 0 then 1 else 0
  {
  }

  lemma EveryFourHundredth(year: int)
    ensures (year + 400) / 400 - (year + 399) / 400 == if year % 400 == 0 then 1 else 0
  {
  }

  lemma LeapsNest(year: int)
    ensures year % 400 == 0 ==> year % 100 == 0
    ensures year % 100 == 0 ==> year % 4 == 0
  {
    if year % 400 == 0 { Hundreds(4 * (year / 400)); }
    if year % 100 == 0 { Fours(25 * (year / 100)); }
  }

  lemma Hundreds(k: int)
    ensures 100 * k % 100 == 0
  {
  }

  lemma Fours(k: int)
    ensures 4 * k % 4 == 0
  {
  }

  lemma {:induction false} YearStart(year: int)
    ensures FirstDay(12 * year) == 365 * year + LeapsBefore(year)
    decreases if year < 0 then -year else year
  {
    if year > 0 {
      YearStart(year - 1);
      YearSoFar(year - 1, 12);
      OneMoreLeap(year - 1);
    } else if year < 0 {
      YearStart(year + 1);
      YearSoFar(year, 12);
      OneMoreLeap(year);
    } else {
      assert LeapsBefore(0) == 0 - 0 + 0;
    }
  }

  /** The bounds of the month at position k of a year lie at the Gregorian day counts: 365 days a year, one
      more for each leap year, and the days gone in this one. */
  lemma BoundsAreGregorian(year: int, k: nat, day: int)
    requires k < 12
    ensures
      var (from, to) := PartitionBounds(Date(12 * year + k, day));
      var leap := year % 4 == 0 && (year % 100 != 0 || year % 400 == 0);
      && Instant(from, 0) == (365 * year + LeapsBefore(year) + GONE[k] + if k >= 2 && leap then 1 else 0) * 86400
      && Instant(to, 0) == (365 * year + LeapsBefore(year) + GONE[k + 1] + if k >= 1 && leap then 1 else 0) * 86400
  {
    YearStart(year);
    YearSoFar(year, k);
    YearSoFar(year, k + 1);
    BoundsAreMonths(Date(12 * year + k, day));
  }

  /** Instants tell dates and seconds apart, in their order. */
  lemma InstantsAreInOrder(d: Date, s: int, e: Date, t: int)
    requires Real(d) && Real(e) && 0 <= s < 86400 && 0 <= t < 86400
    ensures Instant(d, s) < Instant(e, t) <==>
            d.month < e.month || (d.month == e.month && (d.day < e.day || (d.day == e.day && s < t)))
  {
    if d.month < e.month { FirstDaysGrow(d.month, e.month); }
    if e.month < d.month { FirstDaysGrow(e.month, d.month); }
  }

  lemma {:induction false} FirstDayReaches(month: int)
    requires month >= 0
    ensures FirstDay(month) >= 28 * month && FirstDay(-month) <= -28 * month
    decreases month
  {
    if month > 0 {
      FirstDayReaches(month - 1);
    }
  }

  lemma {:induction false} SomeMonthBetween(day: int, lo: int, hi: int) returns (month: int)
    requires lo < hi && FirstDay(lo) <= day < FirstDay(hi)
    ensures FirstDay(month) <= day < FirstDay(month) + DaysIn(month)
    decreases hi - lo
  {
    assert FirstDay(hi) == FirstDay(hi - 1) + DaysIn(hi - 1);
    if day >= FirstDay(hi - 1) {
      month := hi - 1;
    } else {
      month := SomeMonthBetween(day, lo, hi - 1);
    }
  }

  lemma OneMonthOnly(x: int, a: int, b: int)
    requires Within(x, a) && Within(x, b)
    ensures a == b
  {
    BoundsAreMonths(Date(a, 1));
    BoundsAreMonths(Date(b, 1));
    if a < b { FirstDaysGrow(a, b); }
    if b < a { FirstDaysGrow(b, a); }
  }

  /** The monthly intervals tile time: every instant lies in exactly one of them. */
  lemma PartitionsTileTime(x: int)
    ensures exists m :: Within(x, m)
    ensures forall a, b :: Within(x, a) && Within(x, b) ==> a == b
  {
    var day := x / DAY;
    var n := (if day < 0 then -day else day) + 1;
    FirstDayReaches(n);
    var m := SomeMonthBetween(day, -n, n);
    BoundsAreMonths(Date(m, 1));
    assert Within(x, m);
    forall a, b | Within(x, a) && Within(x, b) ensures a == b {
      OneMonthOnly(x, a, b);
    }
  }

  /** An event's own partition is the one for its date. */
  lemma OwnPartition(d: Date, second: int, month: int)
    requires Real(d) && 0 <= second < DAY
    ensures Within(Instant(d, second), month) <==> month == d.month
  {
    BoundsAreMonths(Date(month, 1));
    DayLiesInItsMonth(d, month);
  }

  // ---- ensuring and pruning --------------------------------------------------------------------------

  datatype Table = Partition(month: int) | Other(name: string)

  function Keep(requested: int): int { if requested < 1 then 1 else requested }

  function Cutoff(now: Date, keep: int): int { AddMonths(now, -Keep(keep)).month }

  predicate Outdated(t: Table, now: Date, keep: int) { t.Partition? && t.month < Cutoff(now, keep) }

  /** One run of a job: when it ran, and how the database answered. A prune sees the tables in the order they
      were listed, or an error. */
  datatype Job =
    | Ensure(now: Date, creates: Table -> bool)
    | Prune(now: Date, keep: int, listing: Option<seq<Table>>, drops: Table -> bool)

  /** The two months a job on that day is to make sure of. */
  function Wanted(now: Date): seq<Table> { [Partition(now.month), Partition(AddMonths(now, 1).month)] }

  function CreateEach(tables: set<Table>, ts: seq<Table>, creates: Table -> bool): (set<Table>, bool)
    decreases |ts|
  {
    if ts == [] then (tables, true)
    else if !creates(ts[0]) then (tables, false)
    else CreateEach(tables + {ts[0]}, ts[1..], creates)
  }

  function DropEach(tables: set<Table>, ts: seq<Table>, drops: Table -> bool): (set<Table>, bool) {
    if ts == [] then (tables, true)
    else if !drops(ts[0]) then (tables, false)
    else DropEach(tables - {ts[0]}, ts[1..], drops)
  }

  function KeepOutdated(now: Date, keep: int): Table -> seq<Table> {
    (t: Table) => if Outdated(t, now, keep) then [t] else []
  }

  /** The tables after a job, and whether it reports success. */
  function Done(tables: set<Table>, job: Job): (set<Table>, bool) {
    match job
    case Ensure(now, creates) => CreateEach(tables, Wanted(now), creates)
    case Prune(now, keep, listing, drops) =>
      if listing.None? then (tables, false)
      else DropEach(tables, FlatMap(listing.value, KeepOutdated(now, keep)), drops)
  }

  /** The event database: its tables, created and dropped one statement at a time. */
  class EventStore {
    var tables: set<Table>

    constructor ()
      ensures tables == {}
    {
      tables := {};
    }

    /** Creates this month's partition and the one a month from today, stopping at a failed statement. */
    method EnsurePartitions(now: Date, creates: Table -> bool) returns (ok: bool)
      modifies this
      ensures (tables, ok) == Done(old(tables), Ensure(now, creates))
    {
      var ts := Wanted(now);
      for i := 0 to |ts|
        invariant CreateEach(old(tables), ts, creates) == CreateEach(tables, ts[i..], creates)
      {
        assert ts[i..][1..] == ts[i + 1..];
        if !creates(ts[i]) {
          return false;
        }
        tables := tables + {ts[i]};
      }
      ok := true;
    }

    /** Picks the outdated partitions out of the listing, then drops them in order until a drop fails. */
    method PruneOldPartitions(now: Date, keepMonths: int, listing: Option<seq<Table>>, drops: Table -> bool) returns (ok: bool)
      modifies this
      ensures (tables, ok) == Done(old(tables), Prune(now, keepMonths, listing, drops))
    {
      if listing.None? {
        return false;
      }
      var cutoff := PartitionBounds(AddMonths(now, -Keep(keepMonths))).0.month;
      var rows, candidates := listing.value, [];
      for i := 0 to |rows|
        invariant tables == old(tables) && candidates == FlatMap(rows[..i], KeepOutdated(now, keepMonths))
      {
        FlatMapStep(rows, i, KeepOutdated(now, keepMonths));
        if rows[i].Partition? && rows[i].month < cutoff {
          candidates := candidates + [rows[i]];
        }
      }
      assert rows[..|rows|] == rows;
      for i := 0 to |candidates|
        invariant DropEach(old(tables), candidates, drops) == DropEach(tables, candidates[i..], drops)
      {
        assert candidates[i..][1..] == candidates[i + 1..];
        if !drops(candidates[i]) {
          return false;
        }
        tables := tables - {candidates[i]};
      }
      ok := true;
    }
  }

  // ---- what one job achieves --------------------------------------------------------------------------

  lemma {:induction false} CreatedExactly(tables: set<Table>, ts: seq<Table>, creates: Table -> bool, t: Table)
    ensures CreateEach(tables, ts, creates).1 <==> forall j :: 0 <= j < |ts| ==> creates(ts[j])
    ensures t in CreateEach(tables, ts, creates).0 <==>
            t in tables || exists i :: 0 <= i < |ts| && ts[i] == t && forall j :: 0 <= j <= i ==> creates(ts[j])
    decreases |ts|
  {
    if ts != [] && creates(ts[0]) {
      CreatedExactly(tables + {ts[0]}, ts[1..], creates, t);
      assert forall j :: 0 < j < |ts| ==> ts[j] == ts[1..][j - 1];
    }
  }

  /** Ensuring makes this month's partition and the one AddDate gives, in that order, until one fails. */
  lemma EnsureIsExact(tables: set<Table>, now: Date, creates: Table -> bool)
    ensures
      var here, next := Partition(now.month), Partition(AddMonths(now, 1).month);
      var (after, ok) := Done(tables, Ensure(now, creates));
      && (ok <==> creates(here) && creates(next))
      && after == tables + (if !creates(here) then {} else if !creates(next) then {here} else {here, next})
  {
    var here, next := Partition(now.month), Partition(AddMonths(now, 1).month);
    assert Wanted(now)[1..] == [next];
    assert CreateEach(tables + {here}, [next], creates) ==
           if creates(next) then CreateEach(tables + {here} + {next}, [next][1..], creates) else (tables + {here}, false);
    assert tables + {here} + {next} == tables + {here, next} && tables + {} == tables;
  }

  /** A table disappears exactly when it comes up for dropping before any drop has failed. */
  lemma {:induction false} DroppedExactly(tables: set<Table>, ts: seq<Table>, drops: Table -> bool, t: Table)
    ensures DropEach(tables, ts, drops).1 <==> forall j :: 0 <= j < |ts| ==> drops(ts[j])
    ensures t in DropEach(tables, ts, drops).0 <==>
            t in tables && !exists i :: 0 <= i < |ts| && ts[i] == t && forall j :: 0 <= j <= i ==> drops(ts[j])
  {
    if ts != [] && drops(ts[0]) {
      DroppedExactly(tables - {ts[0]}, ts[1..], drops, t);
      assert forall j :: 0 < j < |ts| ==> ts[j] == ts[1..][j - 1];
    }
  }

  lemma OutdatedMembers(ts: seq<Table>, now: Date, keep: int, t: Table)
    ensures t in FlatMap(ts, KeepOutdated(now, keep)) <==> t in ts && Outdated(t, now, keep)
  {
    FlatMapMembers(ts, KeepOutdated(now, keep), t);
    if t in ts && Outdated(t, now, keep) {
      var i :| 0 <= i < |ts| && ts[i] == t;
      assert t in KeepOutdated(now, keep)(ts[i]);
    }
  }

  /** A prune that sees all tables succeeds exactly when every outdated partition can be dropped, and then
      exactly those are gone; a failed one has dropped only such partitions, and left one that cannot be. */
  lemma PruneIsExact(tables: set<Table>, now: Date, keep: int, rows: seq<Table>, drops: Table -> bool)
    requires forall t :: t in rows <==> t in tables
    ensures
      var (after, ok) := Done(tables, Prune(now, keep, Some(rows), drops));
      && (ok <==> forall t :: t in tables && Outdated(t, now, keep) ==> drops(t))
      && (ok ==> after == set t | t in tables && !Outdated(t, now, keep))
      && (forall t :: t in tables && t !in after ==> Outdated(t, now, keep) && drops(t))
      && after <= tables
      && (!ok ==> exists t :: t in after && Outdated(t, now, keep) && !drops(t))
  {
    var ts := FlatMap(rows, KeepOutdated(now, keep));
    var (after, ok) := Done(tables, Prune(now, keep, Some(rows), drops));
    forall t ensures t in ts <==> t in tables && Outdated(t, now, keep) {
      OutdatedMembers(rows, now, keep, t);
    }
    forall t
      ensures t in after ==> t in tables
      ensures t in tables && t !in after ==> t in ts && drops(t)
      ensures ok && t in ts ==> t !in after
      ensures t in tables && !drops(t) ==> t in after
    {
      DroppedExactly(tables, ts, drops, t);
    }
    DroppedExactly(tables, ts, drops, Other(""));
    if !ok {
      var j :| 0 <= j < |ts| && !drops(ts[j]);
      assert ts[j] in ts && ts[j] in after;
    } else {
      forall t | t in tables && Outdated(t, now, keep) ensures drops(t) {
        var j :| 0 <= j < |ts| && ts[j] == t;
      }
    }
  }

  /** A month is before the cutoff exactly when it has ended by the day that lies keep months back, counted
      in days from the first of that month. */
  lemma CutoffIsExact(now: Date, keep: int, month: int)
    requires Real(now)
    ensures
      var back := if keep <= 1 then 1 else keep;
      month < Cutoff(now, keep) <==> FirstDay(month + 1) <= FirstDay(now.month - back) + now.day - 1
  {
    var c := AddMonths(now, -Keep(keep));
    AddMonthsNormalises(now, -Keep(keep), now);
    AddMonthsNormalises(now, -Keep(keep), c);
    EndedBefore(c, month);
  }

  lemma EndedBefore(d: Date, month: int)
    requires Real(d)
    ensures month < d.month <==> FirstDay(month + 1) <= DayNumber(d)
  {
    assert FirstDay(d.month + 1) == FirstDay(d.month) + DaysIn(d.month);
    if month + 1 < d.month { FirstDaysGrow(month + 1, d.month); }
    if d.month < month { FirstDaysGrow(d.month + 1, month + 1); }
  }

  /** Whatever the day: months from m - k + 1 on survive, the current one included; months before m - k go. */
  lemma RetentionWindow(now: Date, keep: int, month: int)
    requires Real(now)
    ensures
      var back := if keep <= 1 then 1 else keep;
      && (month >= now.month - back + 1 ==> month >= Cutoff(now, keep))
      && (month < now.month - back ==> month < Cutoff(now, keep))
    ensures month == now.month ==> month >= Cutoff(now, keep)
  {
    var m := now.month - Keep(keep);
    CutoffIsExact(now, keep, month);
    EndsAround(m, month, now.day);
  }

  /** Which months have ended by a day of month m, or of the month after it. */
  lemma EndsAround(m: int, month: int, day: int)
    requires 1 <= day <= 31
    ensures month > m ==> FirstDay(month + 1) > FirstDay(m) + day - 1
    ensures month < m ==> FirstDay(month + 1) <= FirstDay(m) + day - 1
  {
    assert FirstDay(m + 1) == FirstDay(m) + DaysIn(m) && FirstDay(m + 2) == FirstDay(m + 1) + DaysIn(m + 1);
    if month > m + 1 { FirstDaysGrow(m + 2, month + 1); }
    if month + 1 < m { FirstDaysGrow(month + 1, m); }
  }

  /** The next month's partition is created exactly when that month has today's day; otherwise the month
      after it is created instead. */
  lemma NextMonthIsEnsuredExactly(now: Date)
    requires Real(now)
    ensures
      var made := {now.month, AddMonths(now, 1).month};
      && (now.month + 1 in made <==> now.day <= DaysIn(now.month + 1))
      && (now.day <= 28 ==> made == {now.month, now.month + 1})
      && (now.month + 1 !in made ==> made == {now.month, now.month + 2})
  {
  }

  // ---- runs of the retention job -----------------------------------------------------------------------

  function Tables(run: seq<Job>): set<Table> {
    if run == [] then {} else Done(Tables(run[..|run| - 1]), run[|run| - 1]).0
  }

  /** The month is within the retention window of every prune from position i on. */
  ghost predicate Retained(run: seq<Job>, i: nat, month: int) {
    forall j :: i <= j < |run| && run[j].Prune? ==> month > run[j].now.month - Keep(run[j].keep)
  }

  lemma JobKeeps(tables: set<Table>, job: Job, month: int)
    requires Partition(month) in tables && Real(job.now)
    requires job.Prune? ==> month > job.now.month - Keep(job.keep)
    ensures Partition(month) in Done(tables, job).0
  {
    var t := Partition(month);
    match job
    case Ensure(now, creates) =>
      CreatedExactly(tables, Wanted(now), creates, t);
    case Prune(now, keep, listing, drops) =>
      if listing.Some? {
        var ts := FlatMap(listing.value, KeepOutdated(now, keep));
        RetentionWindow(now, keep, month);
        OutdatedMembers(listing.value, now, keep, t);
        DroppedExactly(tables, ts, drops, t);
      }
  }

  /** Over any interleaving of the two jobs, on any days and whatever fails: a month that has its partition
      keeps it as long as it is inside the window. */
  lemma {:induction false} NothingRecentIsDropped(run: seq<Job>, i: nat, month: int)
    requires i <= |run| && Partition(month) in Tables(run[..i])
    requires forall j :: 0 <= j < |run| ==> Real(run[j].now)
    requires Retained(run, i, month)
    ensures Partition(month) in Tables(run)
  {
    var n := |run| - 1;
    if i == |run| {
      assert run[..i] == run;
    } else {
      var before := run[..n];
      assert before[..i] == run[..i];
      assert forall j :: 0 <= j < n ==> before[j] == run[j];
      NothingRecentIsDropped(before, i, month);
      JobKeeps(Tables(before), run[n], month);
    }
  }

  /** A prune that sees all tables and reports success leaves no month before m - k. */
  lemma NothingOldSurvives(run: seq<Job>, month: int)
    requires run != [] && run[|run| - 1].Prune? && Real(run[|run| - 1].now)
    requires
      var n := |run| - 1;
      && run[n].listing.Some? && (forall t :: t in run[n].listing.value <==> t in Tables(run[..n]))
      && Done(Tables(run[..n]), run[n]).1
    requires month < run[|run| - 1].now.month - Keep(run[|run| - 1].keep)
    ensures Partition(month) !in Tables(run)
  {
    var n := |run| - 1;
    var job := run[n];
    RetentionWindow(job.now, job.keep, month);
    PruneIsExact(Tables(run[..n]), job.now, job.keep, job.listing.value, job.drops);
  }

  /** The job makes sure of the month: its own, or the one a month ahead when its own could be created. */
  ghost predicate Makes(job: Job, month: int) {
    job.Ensure? && job.creates(Partition(job.now.month)) &&
    (month == job.now.month || (month == AddMonths(job.now, 1).month && job.creates(Partition(month))))
  }

  /** The job drops the month: listed, before the cutoff, and no drop failed up to it. */
  ghost predicate DropsMonth(job: Job, month: int) {
    job.Prune? && job.listing.Some? && Reached(job.listing.value, job.now, job.keep, job.drops, Partition(month))
  }

  ghost predicate Reached(rows: seq<Table>, now: Date, keep: int, drops: Table -> bool, t: Table) {
    exists i :: 0 <= i < |rows| && rows[i] == t && Outdated(t, now, keep) && forall j :: 0 <= j <= i && Outdated(rows[j], now, keep) ==> drops(rows[j])
  }

  lemma ReachedTail(rows: seq<Table>, now: Date, keep: int, drops: Table -> bool, t: Table)
    requires rows != []
    ensures Reached(rows, now, keep, drops, t) <==>
      && (Outdated(rows[0], now, keep) ==> drops(rows[0]))
      && ((rows[0] == t && Outdated(t, now, keep)) || Reached(rows[1..], now, keep, drops, t))
  {
    assert forall j :: 0 < j < |rows| ==> rows[j] == rows[1..][j - 1];
    if i :| 0 <= i < |rows[1..]| && rows[1..][i] == t && Outdated(t, now, keep) &&
            (forall j :: 0 <= j <= i && Outdated(rows[1..][j], now, keep) ==> drops(rows[1..][j])) {
      assert rows[i + 1] == t;
    }
    if i :| 0 <= i < |rows| && rows[i] == t && Outdated(t, now, keep) &&
            (forall j :: 0 <= j <= i && Outdated(rows[j], now, keep) ==> drops(rows[j])) {
      if i > 0 {
        assert rows[1..][i - 1] == t;
      }
    }
  }

  lemma {:induction false} DroppedByListing(tables: set<Table>, rows: seq<Table>, now: Date, keep: int, drops: Table -> bool, t: Table)
    ensures t in DropEach(tables, FlatMap(rows, KeepOutdated(now, keep)), drops).0 <==>
            t in tables && !Reached(rows, now, keep, drops, t)
  {
    if rows != [] {
      ReachedTail(rows, now, keep, drops, t);
      var rest := FlatMap(rows[1..], KeepOutdated(now, keep));
      if Outdated(rows[0], now, keep) {
        assert FlatMap(rows, KeepOutdated(now, keep)) == [rows[0]] + rest;
        assert ([rows[0]] + rest)[1..] == rest;
        if drops(rows[0]) {
          DroppedByListing(tables - {rows[0]}, rows[1..], now, keep, drops, t);
        }
      } else {
        assert FlatMap(rows, KeepOutdated(now, keep)) == [] + rest == rest;
        DroppedByListing(tables, rows[1..], now, keep, drops, t);
      }
    }
  }

  lemma JobIsMakingAndDropping(tables: set<Table>, job: Job, month: int)
    ensures Partition(month) in Done(tables, job).0 <==>
            Makes(job, month) || (Partition(month) in tables && !DropsMonth(job, month))
  {
    match job
    case Ensure(now, creates) => EnsureIsExact(tables, now, creates);
    case Prune(now, keep, listing, drops) =>
      if listing.Some? {
        DroppedByListing(tables, listing.value, now, keep, drops, Partition(month));
      }
  }

  /** After any run, on any days and whatever fails, a month has its partition exactly when some job made it
      and no later one dropped it. */
  lemma {:induction false} RunIsItsHistory(run: seq<Job>, month: int)
    ensures Partition(month) in Tables(run) <==>
            exists i :: 0 <= i < |run| && Makes(run[i], month) && forall j :: i < j < |run| ==> !DropsMonth(run[j], month)
  {
    if run != [] {
      var n := |run| - 1;
      var init := run[..n];
      RunIsItsHistory(init, month);
      JobIsMakingAndDropping(Tables(init), run[n], month);
      assert forall j :: 0 <= j < n ==> init[j] == run[j];
      if i :| 0 <= i < n && Makes(init[i], month) && forall j :: i < j < n ==> !DropsMonth(init[j], month) {
        assert Makes(run[i], month);
      }
      if i :| 0 <= i < |run| && Makes(run[i], month) && forall j :: i < j < |run| ==> !DropsMonth(run[j], month) {
        assert i < n ==> Makes(init[i], month);
      }
    }
  }

  /** On 31 January 2026 the February partition is not created. */
  lemma JanuaryThirtyFirstSkipsFebruary()
    ensures
      var now := Date(12 * 2026, 31);
      Real(now) && AddMonths(now, 1) == Date(12 * 2026 + 2, 3)
  {
    assert !Leap(2026);
  }
}
