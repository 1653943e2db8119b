/** Alert aggregation: the first event of a kind is sent at once, repeats within a window are
    counted, and a flush after the window sums them up. */
module AlertAggregator {

  datatype Pending = Pending(firstSent: int, suppressed: nat, last: string)
  datatype Summary = Summary(key: string, count: nat, last: string)

  function Window(requested: int): int { if requested <= 0 then 600_000_000_000 else requested }

  predicate Fresh(seen: map<string, Pending>, window: int, key: string, now: int) {
    key !in seen || now - seen[key].firstSent > window
  }

  function Offered(seen: map<string, Pending>, window: int, key: string, message: string, now: int): map<string, Pending> {
    if Fresh(seen, window, key, now) then seen[key := Pending(now, 0, "")]
    else seen[key := Pending(seen[key].firstSent, seen[key].suppressed + 1, message)]
  }

  predicate Closed(p: Pending, window: int, now: int) { now - p.firstSent >= window }

  function Flushed(seen: map<string, Pending>, window: int, now: int): map<string, Pending> {
    map k | k in seen && !Closed(seen[k], window, now) :: seen[k]
  }

  /** What a flush reports about a key. */
  function SummarisedOf(seen: map<string, Pending>, window: int, now: int, key: string): nat {
    if key in seen && Closed(seen[key], window, now) then seen[key].suppressed else 0
  }

  class Aggregator {
    const window: int
    var seen: map<string, Pending>

    constructor (requested: int)
      ensures window == Window(requested) && seen == map[]
    {
      window := if requested <= 0 then 600_000_000_000 else requested;
      seen := map[];
    }

    method Offer(key: string, message: string, now: int) returns (sendNow: bool)
      modifies this
      ensures sendNow <==> Fresh(old(seen), window, key, now)
      ensures seen == Offered(old(seen), window, key, message, now)
    {
      if key !in seen || now - seen[key].firstSent > window {
        seen := seen[key := Pending(now, 0, "")];
        return true;
      }
      seen := seen[key := seen[key].(suppressed := seen[key].suppressed + 1, last := message)];
      sendNow := false;
    }

    /** One summary for every closed key with repeats, none for the others; closed keys are forgotten. */
    method Flush(now: int) returns (out: seq<Summary>)
      modifies this
      ensures seen == Flushed(old(seen), window, now)
      ensures forall s :: s in out <==>
        s.count > 0 && s.key in old(seen) && Closed(old(seen)[s.key], window, now) &&
        s.count == old(seen)[s.key].suppressed && s.last == old(seen)[s.key].last
      ensures forall i, j :: 0 <= i < j < |out| ==> out[i].key != out[j].key
    {
      out := [];
      var todo := seen.Keys;
      while todo != {}
        invariant todo <= old(seen).Keys
        invariant forall k :: k in seen <==> k in old(seen) && (k in todo || !Closed(old(seen)[k], window, now))
        invariant forall k :: k in seen ==> seen[k] == old(seen)[k]
        invariant forall s :: s in out <==>
          s.count > 0 && s.key in old(seen) && s.key !in todo && Closed(old(seen)[s.key], window, now) &&
          s.count == old(seen)[s.key].suppressed && s.last == old(seen)[s.key].last
        invariant forall i, j :: 0 <= i < j < |out| ==> out[i].key != out[j].key
        decreases |todo|
      {
        var key :| key in todo;
        todo := todo - {key};
        if now - seen[key].firstSent < window {
          continue;
        }
        if seen[key].suppressed > 0 {
          assert forall i :: 0 <= i < |out| ==> out[i] in out && out[i].key != key;
          out := out + [Summary(key, seen[key].suppressed, seen[key].last)];
        }
        seen := seen - {key};
      }
    }
  }

  // ---- runs ----------------------------------------------------------------------------------------

  datatype Event = Offer(key: string, message: string, now: int) | Flush(now: int)

  function After(window: int, run: seq<Event>): map<string, Pending> {
    if run == [] then map[] else
    var seen, e := After(window, run[..|run| - 1]), run[|run| - 1];
    match e
    case Offer(key, message, now) => Offered(seen, window, key, message, now)
    case Flush(now) => Flushed(seen, window, now)
  }

  /** The event alerts about the key at once. */
  predicate Alerts(window: int, seen: map<string, Pending>, key: string, e: Event) {
    e.Offer? && e.key == key && Fresh(seen, window, key, e.now)
  }

  /** Events of one key: offered, alerted at once, summarised, and counts lost by a late offer. */
  datatype Tally = Tally(offers: nat, immediate: nat, summarised: nat, overwritten: nat)

  function Count(window: int, run: seq<Event>, key: string): Tally {
    if run == [] then Tally(0, 0, 0, 0) else
    var t, seen, e := Count(window, run[..|run| - 1], key), After(window, run[..|run| - 1]), run[|run| - 1];
    match e
    case Offer(k, _, now) =>
      if k != key then t
      else if Fresh(seen, window, key, now) then
        Tally(t.offers + 1, t.immediate + 1, t.summarised, t.overwritten + if key in seen then seen[key].suppressed else 0)
      else t.(offers := t.offers + 1)
    case Flush(now) => t.(summarised := t.summarised + SummarisedOf(seen, window, now, key))
  }

  function StillPending(seen: map<string, Pending>, key: string): nat {
    if key in seen then seen[key].suppressed else 0
  }

  /** Nothing is miscounted: every offer was alerted, summarised, is pending, or was overwritten. */
  lemma {:induction false} OffersAreAccountedFor(window: int, run: seq<Event>, key: string)
    ensures
      var t := Count(window, run, key);
      t.offers == t.immediate + t.summarised + StillPending(After(window, run), key) + t.overwritten
  {
    if run != [] {
      OffersAreAccountedFor(window, run[..|run| - 1], key);
    }
  }

  predicate OfferOf(e: Event, key: string) { e.Offer? && e.key == key }

  /** The i-th event of the run alerts about the key at once. */
  ghost predicate AlertAt(window: int, run: seq<Event>, key: string, i: nat) {
    i < |run| && Alerts(window, After(window, run[..i]), key, run[i])
  }

  /** The window event i opened is still the key's: every later offer fell into it, and no flush came
      at or after its close. */
  ghost predicate StillOpen(window: int, run: seq<Event>, key: string, i: nat) {
    && AlertAt(window, run, key, i)
    && (forall m :: i < m < |run| && OfferOf(run[m], key) ==> run[m].now - run[i].now <= window)
    && (forall m :: i < m < |run| && run[m].Flush? ==> run[m].now - run[i].now < window)
  }

  ghost predicate Repeated(run: seq<Event>, key: string, i: nat) {
    exists m :: i < m < |run| && OfferOf(run[m], key)
  }

  lemma {:induction false} OpenWindowIsTheEntry(window: int, run: seq<Event>, key: string, i: nat)
    requires StillOpen(window, run, key, i)
    ensures
      var seen := After(window, run);
      key in seen && seen[key].firstSent == run[i].now && (seen[key].suppressed > 0 <==> Repeated(run, key, i))
  {
    var n := |run| - 1;
    var before := run[..n];
    if i < n {
      assert before[..i] == run[..i];
      assert forall m :: 0 <= m < n ==> before[m] == run[m];
      OpenWindowIsTheEntry(window, before, key, i);
      if OfferOf(run[n], key) {
        assert Repeated(run, key, i);
      } else {
        assert Repeated(run, key, i) <==> Repeated(before, key, i);
      }
    }
  }

  lemma {:induction false} EntryHasAnOpenWindow(window: int, run: seq<Event>, key: string) returns (i: nat)
    requires key in After(window, run)
    ensures StillOpen(window, run, key, i)
  {
    var n := |run| - 1;
    var before := run[..n];
    if Alerts(window, After(window, before), key, run[n]) {
      i := n;
    } else {
      i := EntryHasAnOpenWindow(window, before, key);
      OpenWindowIsTheEntry(window, before, key, i);
      assert before[..i] == run[..i];
      assert forall m :: 0 <= m < n ==> before[m] == run[m];
    }
  }

  /** Offer j comes after the close of window i, which saw repeats and was never flushed. */
  ghost predicate Loses(window: int, run: seq<Event>, key: string, i: nat, j: nat) {
    && i < j < |run| && OfferOf(run[j], key) && run[j].now - run[i].now > window
    && StillOpen(window, run[..j], key, i) && Repeated(run[..j], key, i)
  }

  lemma LateOfferOverwrites(window: int, run: seq<Event>, key: string)
    requires run != []
    ensures
      var n := |run| - 1;
      Count(window, run, key).overwritten > Count(window, run[..n], key).overwritten <==>
      exists i: nat :: Loses(window, run, key, i, n)
    ensures Count(window, run, key).overwritten >= Count(window, run[..|run| - 1], key).overwritten
  {
    var n := |run| - 1;
    var before := run[..n];
    var seen := After(window, before);
    if OfferOf(run[n], key) && key in seen && Fresh(seen, window, key, run[n].now) && seen[key].suppressed > 0 {
      var i := EntryHasAnOpenWindow(window, before, key);
      OpenWindowIsTheEntry(window, before, key, i);
      assert Loses(window, run, key, i, n);
    }
    if i: nat :| Loses(window, run, key, i, n) {
      OpenWindowIsTheEntry(window, before, key, i);
    }
  }

  /** Counts are lost exactly by offers that come after the close of a window with repeats which no
      flush at or after its close has summarised. */
  lemma {:induction false} LossIsExact(window: int, run: seq<Event>, key: string)
    ensures Count(window, run, key).overwritten > 0 <==> exists i: nat, j: nat :: Loses(window, run, key, i, j)
  {
    if run != [] {
      var n := |run| - 1;
      var before := run[..n];
      LossIsExact(window, before, key);
      LateOfferOverwrites(window, run, key);
      forall i: nat, j: nat | j < n ensures Loses(window, run, key, i, j) <==> Loses(window, before, key, i, j) {
        assert before[..j] == run[..j];
      }
      if i: nat, j: nat :| Loses(window, run, key, i, j) && j < n {
        assert Loses(window, before, key, i, j);
      }
      if i: nat, j: nat :| Loses(window, before, key, i, j) {
        assert Loses(window, run, key, i, j);
      }
    }
  }

  /** Between an offer that opened a window and a later offer after its close, some flush came at or after
      the close. */
  ghost predicate FlushedInTime(window: int, run: seq<Event>, key: string) {
    forall i: nat, j: nat :: i < j < |run| && AlertAt(window, run, key, i) && OfferOf(run[j], key) && run[j].now - run[i].now > window ==>
      exists m :: i < m < j && run[m].Flush? && run[m].now - run[i].now >= window
  }

  /** When flushes keep up, no count is ever lost. */
  lemma NothingIsOverwritten(window: int, run: seq<Event>, key: string)
    requires FlushedInTime(window, run, key)
    ensures Count(window, run, key).overwritten == 0
  {
    LossIsExact(window, run, key);
    forall i: nat, j: nat ensures !Loses(window, run, key, i, j) {
      if i < j < |run| && OfferOf(run[j], key) && run[j].now - run[i].now > window {
        FlushEndsTheWindow(window, run, key, i, j);
      }
    }
  }

  lemma FlushEndsTheWindow(window: int, run: seq<Event>, key: string, i: nat, j: nat)
    requires FlushedInTime(window, run, key)
    requires i < j < |run| && OfferOf(run[j], key) && run[j].now - run[i].now > window
    ensures !StillOpen(window, run[..j], key, i)
  {
    var before := run[..j];
    assert before[..i] == run[..i];
    if AlertAt(window, before, key, i) {
      assert AlertAt(window, run, key, i);
      var m :| i < m < j && run[m].Flush? && run[m].now - run[i].now >= window;
      assert before[m] == run[m];
    }
  }

  // ---- pacing -----------------------------------------------------------------------------------------

  ghost predicate Forward(run: seq<Event>) {
    forall i, j :: 0 <= i < j < |run| ==> run[i].now <= run[j].now
  }

  /** After an immediate alert the key is either still open with that or a later start, or a whole window has passed. */
  lemma {:induction false} AlertLeavesAMark(window: int, run: seq<Event>, key: string, i: nat)
    requires Forward(run) && AlertAt(window, run, key, i) && window > 0
    ensures
      var seen := After(window, run);
      || (key in seen && seen[key].firstSent >= run[i].now)
      || (key !in seen && run[|run| - 1].now - run[i].now >= window)
  {
    var n := |run| - 1;
    var before := run[..n];
    if i < n {
      assert before[..i] == run[..i];
      AlertLeavesAMark(window, before, key, i);
    }
  }

  /** Two immediate alerts for one key are at least one window apart. */
  lemma AlertsAreAWindowApart(window: int, run: seq<Event>, key: string, i: nat, j: nat)
    requires Forward(run) && window > 0 && i < j
    requires AlertAt(window, run, key, i) && AlertAt(window, run, key, j)
    ensures run[j].now - run[i].now >= window
  {
    var before := run[..j];
    assert before[..i] == run[..i];
    AlertLeavesAMark(window, before, key, i);
  }
}
