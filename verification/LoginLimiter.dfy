/** The exponential login lockout. Times are nanoseconds; a never-locked entry has no lock time. */
module LoginLimiter {
  import opened Sequences
  import opened Ipv4

  datatype Entry = Entry(failures: nat, lockedUntil: Option<int>, lastSeen: int)

  const SECOND: int := 1_000_000_000
  const FREE_ATTEMPTS: nat := 5
  const BASE: int := 30 * SECOND
  const CAP: int := 15 * 60 * SECOND

  function Min(a: int, b: int): int { if a <= b then a else b }

  /** The lock a failure triggers: nothing for the first five, then doubling up to the cap. */
  function Delay(failures: nat): int {
    if failures <= FREE_ATTEMPTS then 0 else Min(CAP, BASE * Pow2(failures - FREE_ATTEMPTS - 1))
  }

  function Failed(e: Option<Entry>, now: int): Entry {
    var n := (if e.Some? then e.value.failures else 0) + 1;
    var until := if e.Some? then e.value.lockedUntil else None;
    Entry(n, if Delay(n) > 0 then Some(now + Delay(n)) else until, now)
  }

  /** Locked up to and including the lock time. */
  predicate Locked(e: Option<Entry>, now: int) {
    e.Some? && e.value.lockedUntil.Some? && now <= e.value.lockedUntil.value
  }

  predicate Idle(e: Entry, now: int) {
    now - e.lastSeen > CAP && (e.lockedUntil.Some? ==> now > e.lockedUntil.value)
  }

  function Lookup(m: map<string, Entry>, key: string): Option<Entry> {
    if key in m then Some(m[key]) else None
  }

  function Pruned(m: map<string, Entry>, now: int): map<string, Entry> {
    map k | k in m && !Idle(m[k], now) :: m[k]
  }

  lemma DelayIsPositive(failures: nat)
    ensures failures > FREE_ATTEMPTS ==> 0 < Delay(failures) <= CAP
  {
    if failures > FREE_ATTEMPTS {
      var p := Pow2(failures - FREE_ATTEMPTS - 1);
      MulLe(1, p, BASE);
    }
  }

  /** The guarded map of entries. */
  class Limiter {
    var entries: map<string, Entry>

    constructor ()
      ensures entries == map[]
    {
      entries := map[];
    }

    method Check(key: string, now: int) returns (locked: bool, retryAfter: int)
      ensures locked <==> Locked(Lookup(entries, key), now)
      ensures locked ==> 0 <= retryAfter && now + retryAfter == entries[key].lockedUntil.value
      ensures !locked ==> retryAfter == 0
    {
      if key !in entries || entries[key].lockedUntil.None? || now > entries[key].lockedUntil.value {
        return false, 0;
      }
      return true, entries[key].lockedUntil.value - now;
    }

    /** The doubling loop computes min(cap, base * 2^(failures - 6)). */
    method Fail(key: string, now: int) returns (d: int)
      modifies this
      ensures entries == old(entries)[key := Failed(Lookup(old(entries), key), now)]
      ensures d == Delay(entries[key].failures)
    {
      var e := if key in entries then entries[key] else Entry(0, None, now);
      e := e.(failures := e.failures + 1, lastSeen := now);
      entries := entries[key := e];
      DelayIsPositive(e.failures);
      var over := e.failures - FREE_ATTEMPTS;
      if over <= 0 {
        return 0;
      }
      d := BASE;
      var i := 1;
      while i < over && d < CAP
        invariant 1 <= i <= over
        invariant d == BASE * Pow2(i - 1)
      {
        d := d * 2;
        i := i + 1;
      }
      if i < over {
        DoublingOnlyGrows(i - 1, over - 1);
      }
      if d > CAP {
        d := CAP;
      }
      entries := entries[key := e.(lockedUntil := Some(now + d))];
    }

    method Success(key: string)
      modifies this
      ensures entries == old(entries) - {key}
    {
      entries := entries - {key};
    }

    method Prune(now: int)
      modifies this
      ensures entries == Pruned(old(entries), now)
    {
      var todo := entries.Keys;
      while todo != {}
        invariant todo <= old(entries).Keys
        invariant forall k :: k in entries <==> k in old(entries) && (k in todo || !Idle(old(entries)[k], now))
        invariant forall k :: k in entries ==> entries[k] == old(entries)[k]
        decreases |todo|
      {
        var key :| key in todo;
        if Idle(entries[key], now) {
          entries := entries - {key};
        }
        todo := todo - {key};
      }
    }
  }

  lemma DoublingOnlyGrows(a: nat, b: nat)
    requires a <= b
    ensures BASE * Pow2(a) <= BASE * Pow2(b)
  {
    Pow2Splits(a, b - a);
    MulLe(1, Pow2(b - a), Pow2(a));
    MulLe(Pow2(a), Pow2(b), BASE);
  }

  // ---- an attacker on one key -----------------------------------------------------------------------

  /** The entry after failures at these times, nothing else happening to the key. */
  function AfterFailures(times: seq<int>): Option<Entry> {
    if times == [] then None
    else Some(Failed(AfterFailures(times[..|times| - 1]), times[|times| - 1]))
  }

  /** Each attempt was admitted: the check at its own time found the key unlocked. */
  ghost predicate Admitted(times: seq<int>) {
    times == [] ||
    (Admitted(times[..|times| - 1]) && !Locked(AfterFailures(times[..|times| - 1]), times[|times| - 1]))
  }

  /** The delays of failures 6 to n added up. */
  function TotalDelay(n: nat): int {
    if n < 6 then 0 else TotalDelay(n - 1) + Delay(n)
  }

  lemma {:induction false} FailuresCount(times: seq<int>)
    ensures times != [] ==> AfterFailures(times).value.failures == |times|
    ensures |times| >= 6 ==> AfterFailures(times).value.lockedUntil == Some(times[|times| - 1] + Delay(|times|))
  {
    if times != [] {
      FailuresCount(times[..|times| - 1]);
      DelayIsPositive(|times|);
    }
  }

  /** Guessing is bounded by time: however the attempts are spread, failure n + 1 comes more than the sum
      of the delays for failures 6 to n after failure 6. */
  lemma {:induction false} LockoutBound(times: seq<int>)
    requires |times| >= 7 && Admitted(times)
    ensures times[|times| - 1] - times[5] > TotalDelay(|times| - 1)
  {
    var n := |times| - 1;
    var before := times[..n];
    FailuresCount(before);
    assert times[n] > before[n - 1] + Delay(n);
    if n > 6 {
      LockoutBound(before);
    }
  }

  /** From the eleventh failure on, every further guess costs the full fifteen minutes; the five before it
      cost fifteen and a half together. */
  lemma {:induction false} SteadyState(n: nat)
    requires n >= 10
    ensures n >= 11 ==> Delay(n) == CAP
    ensures TotalDelay(n) == 930_000_000_000 + (n - 10) * 900_000_000_000
  {
    if n == 10 {
      FirstDelays();
    } else {
      DoublingOnlyGrows(5, n - 6);
      assert Pow2(5) == 32;
      SteadyState(n - 1);
    }
  }

  lemma FirstDelays()
    ensures TotalDelay(10) == 930_000_000_000
  {
    DelayDoubles(6);
    DelayDoubles(7);
    DelayDoubles(8);
    DelayDoubles(9);
    assert TotalDelay(5) == 0 && TotalDelay(6) == TotalDelay(5) + Delay(6);
    assert TotalDelay(8) == TotalDelay(6) + Delay(7) + Delay(8);
  }

  // ---- all keys, all runs ------------------------------------------------------------------------------

  datatype Event = FailEvent(key: string, now: int) | SuccessEvent(key: string) | PruneEvent(now: int)

  function Stepped(m: map<string, Entry>, e: Event): map<string, Entry> {
    match e
    case FailEvent(key, now) => m[key := Failed(Lookup(m, key), now)]
    case SuccessEvent(key) => m - {key}
    case PruneEvent(now) => Pruned(m, now)
  }

  function After(run: seq<Event>): map<string, Entry> {
    if run == [] then map[] else Stepped(After(run[..|run| - 1]), run[|run| - 1])
  }

  /** The schedule in nanoseconds: five free failures, then half a minute, doubled with every failure and
      never above a quarter of an hour. */
  lemma DelayDoubles(n: nat)
    ensures n <= 5 ==> Delay(n) == 0
    ensures Delay(6) == 30_000_000_000
    ensures n >= 6 ==> Delay(n + 1) == if 2 * Delay(n) < 900_000_000_000 then 2 * Delay(n) else 900_000_000_000
  {
    if n >= 6 {
      Pow2Splits(n - 6, 1);
      assert Pow2(n - 5) == 2 * Pow2(n - 6);
      DelayIsPositive(n);
    }
  }

  /** What one key's history comes to: its failures since it last succeeded or was forgotten, and the time of
      the last one. Only a quarter of an hour without a failure lets a prune forget it. */
  ghost function Streak(run: seq<Event>, key: string): (nat, int) {
    if run == [] then (0, 0) else
    var (n, last) := Streak(run[..|run| - 1], key);
    match run[|run| - 1]
    case FailEvent(k, now) => if k == key then (n + 1, now) else (n, last)
    case SuccessEvent(k) => if k == key then (0, last) else (n, last)
    case PruneEvent(now) => if now - last > 900_000_000_000 then (0, last) else (n, last)
  }

  ghost predicate Tracks(e: Option<Entry>, n: nat, last: int) {
    e == if n == 0 then None else Some(Entry(n, if n > 5 then Some(last + Delay(n)) else None, last))
  }

  lemma FailureTracks(e: Option<Entry>, n: nat, last: int, now: int)
    requires Tracks(e, n, last)
    ensures Tracks(Some(Failed(e, now)), n + 1, now)
  {
    DelayIsPositive(n + 1);
  }

  lemma IdleIsQuiet(e: Entry, n: nat, last: int, now: int)
    requires Tracks(Some(e), n, last)
    ensures Idle(e, now) <==> now - last > 900_000_000_000
  {
    DelayIsPositive(n);
  }

  /** Over every run of failures, successes and prunes on any keys, the map holds exactly each key's streak:
      its count, its last failure and the lock that goes with them. */
  lemma {:induction false} RunCountsTheStreak(run: seq<Event>, key: string)
    ensures Tracks(Lookup(After(run), key), Streak(run, key).0, Streak(run, key).1)
  {
    if run != [] {
      var init, e := run[..|run| - 1], run[|run| - 1];
      var before := Lookup(After(init), key);
      RunCountsTheStreak(init, key);
      var (n, last) := Streak(init, key);
      if e.FailEvent? && e.key == key {
        FailureTracks(before, n, last, e.now);
      } else if e.PruneEvent? && before.Some? {
        IdleIsQuiet(before.value, n, last, e.now);
      }
    }
  }

  ghost predicate Bounded(e: Entry) {
    && (e.lockedUntil.Some? ==> e.lockedUntil.value <= e.lastSeen + CAP)
    && (e.lockedUntil.Some? <==> e.failures > FREE_ATTEMPTS)
  }

  /** In every reachable map no lock outlasts the last failure by more than the cap. */
  lemma {:induction false} LocksAreBounded(run: seq<Event>, key: string)
    requires key in After(run)
    ensures Bounded(After(run)[key])
  {
    var m, e := After(run[..|run| - 1]), run[|run| - 1];
    if key in m {
      LocksAreBounded(run[..|run| - 1], key);
    }
    if e.FailEvent? && e.key == key {
      DelayIsPositive(Failed(Lookup(m, key), e.now).failures);
    }
  }

  /** Pruning never changes what a later check answers. */
  lemma PruneIsInvisible(m: map<string, Entry>, now: int, key: string, later: int)
    requires now <= later
    ensures Locked(Lookup(Pruned(m, now), key), later) <==> Locked(Lookup(m, key), later)
  {
  }

  /** It does forget the count: the failure after a prune is free again exactly when the key was pruned
      or had fewer than five failures. */
  lemma PruneForgetsTheCount(m: map<string, Entry>, now: int, key: string, later: int)
    requires key in m && now <= later
    ensures Delay(Failed(Lookup(Pruned(m, now), key), later).failures) == 0 <==>
            Idle(m[key], now) || m[key].failures < FREE_ATTEMPTS
  {
    DelayIsPositive(m[key].failures + 1);
  }
}
