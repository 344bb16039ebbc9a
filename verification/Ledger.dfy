/**
 The reference the limiter is measured against: the full list of recorded messages, never pruned,
 summed by bucket or by exact time.
 */
module Ledger {
  import opened Ladder

  /** `count` recipients recorded at second `time`. */
  datatype Event = Event(time: nat, count: nat)

  /** Which event times a sum ranges over. */
  datatype Selector =
    | Between(lo: int, hi: int)                   // the closed interval [lo, hi]
    | InBuckets(size: Size, ids: set<nat>)
    | Reaching(size: Size, cutoff: int)           // buckets that end after the cutoff

  /** The bucket that second `time` falls into. */
  function BucketAt(time: nat, size: Size): nat {
    time / size
  }

  /** The second at which bucket `id` ends. */
  function BucketEnd(id: nat, size: Size): nat {
    (id + 1) * size
  }

  predicate Selects(s: Selector, time: nat) {
    match s
    case Between(lo, hi) => lo <= time <= hi
    case InBuckets(size, ids) => BucketAt(time, size) in ids
    case Reaching(size, cutoff) => BucketEnd(BucketAt(time, size), size) > cutoff
  }

  function Sum(events: seq<Event>, s: Selector): nat {
    if events == [] then 0
    else
      var last := events[|events| - 1];
      Sum(events[..|events| - 1], s) + if Selects(s, last.time) then last.count else 0
  }

  function BucketTotal(events: seq<Event>, size: Size, id: nat): nat {
    Sum(events, InBuckets(size, {id}))
  }

  ghost predicate NoneAfter(events: seq<Event>, now: nat) {
    forall e :: e in events ==> e.time <= now
  }

  ghost predicate Chronological(events: seq<Event>) {
    forall i, j :: 0 <= i < j < |events| ==> events[i].time <= events[j].time
  }

  // ---------- bucket arithmetic ----------

  lemma BucketContains(time: nat, size: Size)
    ensures BucketAt(time, size) * size <= time < BucketEnd(BucketAt(time, size), size) <= time + size
  {
    assert time == size * (time / size) + time % size;
  }

  lemma BucketEndIsMonotone(i: nat, j: nat, size: Size)
    requires i <= j
    ensures BucketEnd(i, size) <= BucketEnd(j, size)
    ensures i < j ==> BucketEnd(i, size) <= j * size
  {
    assert (i + 1) * size <= (j + 1) * size;
    if i < j {
      assert (i + 1) * size <= j * size;
    }
  }

  lemma DivIsMonotone(s: nat, t: nat, size: Size)
    requires s <= t
    ensures BucketAt(s, size) <= BucketAt(t, size)
  {
    if BucketAt(t, size) < BucketAt(s, size) {
      BucketContains(s, size);
      BucketContains(t, size);
      BucketEndIsMonotone(BucketAt(t, size), BucketAt(s, size), size);
      assert false;
    }
  }

  // ---------- sums ----------

  lemma {:induction false} SumIsMonotone(events: seq<Event>, s: Selector, t: Selector)
    requires forall e :: e in events && Selects(s, e.time) ==> Selects(t, e.time)
    ensures Sum(events, s) <= Sum(events, t)
  {
    if events != [] {
      assert events[|events| - 1] in events;
      SumIsMonotone(events[..|events| - 1], s, t);
    }
  }

  lemma SumAgrees(events: seq<Event>, s: Selector, t: Selector)
    requires forall e :: e in events ==> (Selects(s, e.time) <==> Selects(t, e.time))
    ensures Sum(events, s) == Sum(events, t)
  {
    SumIsMonotone(events, s, t);
    SumIsMonotone(events, t, s);
  }

  lemma SumOfAppended(events: seq<Event>, e: Event, s: Selector)
    ensures Sum(events + [e], s) == Sum(events, s) + if Selects(s, e.time) then e.count else 0
  {
    assert (events + [e])[..|events|] == events;
  }

  lemma {:induction false} SumOfNothing(events: seq<Event>, s: Selector)
    requires forall e :: e in events ==> !Selects(s, e.time)
    ensures Sum(events, s) == 0
  {
    if events != [] {
      assert events[|events| - 1] in events;
      SumOfNothing(events[..|events| - 1], s);
    }
  }

  /** Taking one bucket out of a set of buckets takes its total out of the sum. */
  lemma {:induction false} SumSplitsOffBucket(events: seq<Event>, size: Size, ids: set<nat>, id: nat)
    requires id in ids
    ensures Sum(events, InBuckets(size, ids))
         == BucketTotal(events, size, id) + Sum(events, InBuckets(size, ids - {id}))
  {
    if events != [] {
      SumSplitsOffBucket(events[..|events| - 1], size, ids, id);
    }
  }

  // ---------- precision ----------

  /**
   Counting whole buckets never undercounts the window ending at `now`, and counts nothing older
   than one bucket beyond it.
   */
  lemma WindowSumIsPrecise(events: seq<Event>, size: Size, now: nat, span: nat)
    requires NoneAfter(events, now)
    ensures Sum(events, Between(now - span, now))
         <= Sum(events, Reaching(size, now - span))
         <= Sum(events, Between(now - span - size + 1, now))
  {
    forall e | e in events
      ensures BucketAt(e.time, size) * size <= e.time < BucketEnd(BucketAt(e.time, size), size) <= e.time + size
    {
      BucketContains(e.time, size);
    }
    SumIsMonotone(events, Between(now - span, now), Reaching(size, now - span));
    SumIsMonotone(events, Reaching(size, now - span), Between(now - span - size + 1, now));
  }

  /** For a valid duration the overcount reaches back at most a fiftieth (2%) of the window. */
  lemma OvercountIsWithinTwoPercent(events: seq<Event>, now: nat, span: nat)
    requires MIN_WINDOW_SECS <= span <= MAX_WINDOW_SECS
    requires NoneAfter(events, now)
    ensures Sum(events, Between(now - span, now))
         <= Sum(events, Reaching(BucketSize(span), now - span))
         <= Sum(events, Between(now - span - span / 50 + 1, now))
  {
    var size := BucketSize(span);
    WindowSumIsPrecise(events, size, now, span);
    ValidDurationsSpanFiftyToAHundredBuckets(span);
    SumIsMonotone(events, Between(now - span - size + 1, now),
                  Between(now - span - span / 50 + 1, now));
  }

  // ---------- the window bound ----------

  /** No closed interval of `span` seconds, anywhere in time, holds more than `limit` recipients. */
  ghost predicate Bounded(events: seq<Event>, span: nat, limit: nat) {
    forall start: int :: WithinSpan(events, start, span) <= limit
  }

  /** The recipients recorded in the closed interval of `span` seconds that begins at `start`. */
  function WithinSpan(events: seq<Event>, start: int, span: nat): nat {
    Sum(events, Between(start, start + span))
  }

  /** Recording only what the bucket sum allows keeps every interval, not just the latest, within the limit. */
  lemma AllowedEventKeepsBound(events: seq<Event>, size: Size, span: nat, limit: nat, now: nat, count: nat)
    requires NoneAfter(events, now)
    requires Bounded(events, span, limit)
    requires Sum(events, Reaching(size, now - span)) + count <= limit
    ensures Bounded(events + [Event(now, count)], span, limit)
  {
    forall start: int
      ensures WithinSpan(events + [Event(now, count)], start, span) <= limit
    {
      assert WithinSpan(events, start, span) <= limit;
      SumOfAppended(events, Event(now, count), Between(start, start + span));
      if start <= now <= start + span {
        SumIsMonotone(events, Between(start, start + span), Between(now - span, now));
        WindowSumIsPrecise(events, size, now, span);
      }
    }
  }

  // ---------- the passage of time ----------

  /** With nothing recorded in between, a window's counted total only falls. */
  lemma CountFallsOverTime(events: seq<Event>, size: Size, cutoff: int, later: int)
    requires cutoff <= later
    ensures Sum(events, Reaching(size, later)) <= Sum(events, Reaching(size, cutoff))
  {
    SumIsMonotone(events, Reaching(size, later), Reaching(size, cutoff));
  }

  /** One span and one bucket after the last event, the window counts nothing. */
  lemma CountVanishes(events: seq<Event>, size: Size, now: nat, span: nat)
    requires forall e :: e in events ==> e.time + span + size <= now
    ensures Sum(events, Reaching(size, now - span)) == 0
  {
    forall e | e in events
      ensures !Selects(Reaching(size, now - span), e.time)
    {
      BucketContains(e.time, size);
    }
    SumOfNothing(events, Reaching(size, now - span));
  }
}
