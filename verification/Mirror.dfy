/**
 How one key's pruned, expiring hash mirrors the full ledger of its sender.
 */
module Mirror {
  import opened Wrappers
  import opened Ladder
  import opened Ledger
  import opened Store

  function LastTime(events: seq<Event>): nat
    requires events != []
  {
    events[|events| - 1].time
  }

  /** Every entry is a full bucket of the ledger, and nothing within retention of the last record is missing. */
  ghost predicate HashMirrors(h: Hash, events: seq<Event>, size: Size, oldest: int) {
    && (forall id :: id in h ==> h[id] == BucketTotal(events, size, id))
    && (forall e :: e in events && BucketEnd(BucketAt(e.time, size), size) > oldest ==> BucketAt(e.time, size) in h)
  }

  /** The hash spans no more than the buckets from the oldest retained one to the one last written. */
  ghost predicate HashSpans(h: Hash, size: Size, oldest: int, last: nat) {
    forall id :: id in h ==> BucketEnd(id, size) > oldest && id <= BucketAt(last, size)
  }

  /** What a key holds at second `now` for a sender whose recorded messages are `events`. */
  ghost predicate Mirrors(db: Database, key: string, events: seq<Event>, size: Size, retention: nat, now: nat) {
    if key in db then
      && events != []
      && db[key].deadline == Some(LastTime(events) + retention + size)
      && HashMirrors(db[key].hash, events, size, LastTime(events) - retention)
      && HashSpans(db[key].hash, size, LastTime(events) - retention, LastTime(events))
    else
      forall e :: e in events ==> BucketEnd(BucketAt(e.time, size), size) <= now - retention
  }

  ghost predicate Recent(events: seq<Event>, now: nat) {
    Chronological(events) && NoneAfter(events, now)
  }

  lemma LastIsLatest(events: seq<Event>)
    requires Chronological(events) && events != []
    ensures forall e :: e in events ==> e.time <= LastTime(events)
  {
  }

  /** A hash of full buckets sums to the ledger's events in those buckets. */
  lemma {:induction false} HashSumIsLedgerSum(h: Hash, events: seq<Event>, size: Size)
    requires forall id :: id in h ==> h[id] == BucketTotal(events, size, id)
    ensures HashSum(h) == Sum(events, InBuckets(size, h.Keys))
    decreases |h|
  {
    if h == map[] {
      SumOfNothing(events, InBuckets(size, h.Keys));
    } else {
      var id :| id in h;
      HashSumSplits(h, id);
      HashSumIsLedgerSum(h - {id}, events, size);
      SumSplitsOffBucket(events, size, h.Keys, id);
      assert (h - {id}).Keys == h.Keys - {id};
    }
  }

  /** At any later second the hash, present or expired, still mirrors what retention reaches. */
  lemma HashMirrorsNow(db: Database, key: string, events: seq<Event>, size: Size, retention: nat, now: nat)
    requires Recent(events, now) && Mirrors(db, key, events, size, retention, now)
    ensures HashMirrors(HashAt(db, key), events, size, now - retention)
    ensures forall id :: id in HashAt(db, key) ==> id <= BucketAt(now, size)
  {
    if key in db {
      assert events[|events| - 1] in events;
      DivIsMonotone(LastTime(events), now, size);
    }
  }

  /** A window no longer than the retention counts exactly what the full ledger would. */
  lemma CountsAgree(db: Database, key: string, events: seq<Event>, size: Size, retention: nat, now: nat, span: nat)
    requires Recent(events, now) && Mirrors(db, key, events, size, retention, now)
    requires span <= retention
    ensures Counted(HashAt(db, key), size, now - span) == Sum(events, Reaching(size, now - span))
  {
    HashMirrorsNow(db, key, events, size, retention, now);
    var part := ReachingPart(HashAt(db, key), size, now - span);
    HashSumIsLedgerSum(part, events, size);
    SumAgrees(events, InBuckets(size, part.Keys), Reaching(size, now - span));
  }

  /** When a key's TTL has run out, no window can reach any of its buckets. */
  lemma MirrorsAfterExpiry(db: Database, key: string, events: seq<Event>, size: Size, retention: nat, now: nat)
    requires Recent(events, now) && Mirrors(db, key, events, size, retention, now)
    requires key in db && db[key].deadline.value <= now
    ensures Mirrors(db - {key}, key, events, size, retention, now)
  {
    LastIsLatest(events);
    forall e | e in events
      ensures BucketEnd(BucketAt(e.time, size), size) <= now - retention
    {
      BucketContains(e.time, size);
    }
  }

  /** A bucket that is not in the hash has no events, if it can still be reached. */
  lemma AbsentBucketIsEmpty(h: Hash, events: seq<Event>, size: Size, oldest: int, id: nat)
    requires HashMirrors(h, events, size, oldest)
    requires id !in h && BucketEnd(id, size) > oldest
    ensures BucketTotal(events, size, id) == 0
  {
    SumOfNothing(events, InBuckets(size, {id}));
  }

  lemma RecordedHashMirrors(h: Hash, events: seq<Event>, size: Size, retention: nat, now: nat, count: nat)
    requires HashMirrors(h, events, size, now - retention)
    ensures HashMirrors(Recorded(h, size, retention, now, count), events + [Event(now, count)], size, now - retention)
  {
    var h' := Recorded(h, size, retention, now, count);
    var events' := events + [Event(now, count)];
    BucketContains(now, size);
    forall id | id in h'
      ensures h'[id] == BucketTotal(events', size, id)
    {
      SumOfAppended(events, Event(now, count), InBuckets(size, {id}));
      if id !in h {
        AbsentBucketIsEmpty(h, events, size, now - retention, id);
      }
    }
  }

  /** Recording keeps the mirror: the increment, the TTL and the prune together. */
  lemma MirrorsAfterRecord(db: Database, db': Database, key: string, events: seq<Event>, size: Size, retention: nat,
                           now: nat, count: nat)
    requires Recent(events, now) && Mirrors(db, key, events, size, retention, now)
    requires key in db' && db'[key] == RecordedEntry(HashAt(db, key), size, retention, now, count)
    ensures Mirrors(db', key, events + [Event(now, count)], size, retention, now)
  {
    HashMirrorsNow(db, key, events, size, retention, now);
    RecordedHashMirrors(HashAt(db, key), events, size, retention, now, count);
  }

  /** How many buckets a retention can reach into: as many as it fills or begins to fill, and the current one. */
  function Capacity(size: Size, retention: nat): nat {
    (retention + size - 1) / size + 1
  }

  lemma ProductIsMonotone(a: nat, b: nat, size: Size)
    requires a <= b
    ensures a * size <= b * size
  {
  }

  /** Bucket `top` starts at least `gap` buckets after the end of bucket `id`. */
  lemma BucketsAreFarApart(id: nat, gap: nat, top: nat, size: Size)
    requires id + 1 + gap <= top
    ensures BucketEnd(id, size) + gap * size <= top * size
  {
    ProductIsMonotone(id + 1 + gap, top, size);
  }

  /** A retained bucket is fewer buckets old than the capacity. */
  lemma RetainedIdIsRecent(id: nat, size: Size, retention: nat, last: nat)
    requires BucketEnd(id, size) > last - retention
    ensures BucketAt(last, size) - Capacity(size, retention) < id
  {
    var top, filled := BucketAt(last, size), Capacity(size, retention) - 1;
    BucketContains(last, size);
    assert filled * size >= retention by {
      assert retention + size - 1 == size * filled + (retention + size - 1) % size;
    }
    if id + 1 + filled <= top {
      BucketsAreFarApart(id, filled, top, size);
    }
  }

  /** Between the oldest retained bucket and the last written one there is room for no more than the capacity. */
  lemma HashStaysSmall(h: Hash, size: Size, retention: nat, last: nat)
    requires HashSpans(h, size, last - retention, last)
    ensures |h| <= Capacity(size, retention)
  {
    var top := BucketAt(last, size);
    forall id | id in h.Keys
      ensures top - Capacity(size, retention) + 1 <= id < top + 1
    {
      RetainedIdIsRecent(id, size, retention, last);
    }
    SetInRange(h.Keys, top - Capacity(size, retention) + 1, top + 1);
    assert |h| == |h.Keys|;
  }

  /** A retention of at most a hundred buckets needs no more than 101. */
  lemma CapacityIsBounded(size: Size, retention: nat)
    requires retention <= 100 * size
    ensures Capacity(size, retention) <= 101
  {
    var filled := Capacity(size, retention) - 1;
    assert retention + size - 1 == size * filled + (retention + size - 1) % size;
    if filled > 100 {
      ProductIsMonotone(101, filled, size);
    }
  }

  /** Writes go to a bucket later than every one that has ended. */
  lemma EndedBucketsStayBehind(size: Size, now: nat)
    ensures forall id: nat :: BucketEnd(id, size) <= now ==> id < BucketAt(now, size)
  {
    forall id: nat | BucketEnd(id, size) <= now
      ensures id < BucketAt(now, size)
    {
      BucketContains(now, size);
      if BucketAt(now, size) <= id {
        BucketEndIsMonotone(BucketAt(now, size), id, size);
      }
    }
  }

  lemma BucketsStartWhereTheyShould(id: nat, size: Size)
    ensures BucketAt(id * size, size) == id
  {
    var b := BucketAt(id * size, size);
    BucketContains(id * size, size);
    assert b + 1 <= id ==> (b + 1) * size <= id * size;
    assert id + 1 <= b ==> (id + 1) * size <= b * size;
  }

  /** The TTL cannot be a second shorter: a bucket filled as it opens is still counted until the TTL runs out. */
  lemma TtlIsTight(id: nat, size: Size, retention: nat, count: nat, now: nat)
    requires id * size <= now < id * size + retention + size
    ensures Sum([Event(id * size, count)], Reaching(size, now - retention)) == count
  {
    BucketsStartWhereTheyShould(id, size);
    SumOfAppended([], Event(id * size, count), Reaching(size, now - retention));
    assert [] + [Event(id * size, count)] == [Event(id * size, count)];
  }

  lemma {:induction false} SetInRange(s: set<nat>, lo: int, hi: int)
    requires lo <= hi && forall x :: x in s ==> lo <= x < hi
    ensures |s| <= hi - lo
    decreases hi - lo
  {
    if lo == hi {
      assert s == {};
    } else {
      var top := set x | x in s && x == hi - 1;
      assert top <= {hi - 1};
      SetInRange(s - top, lo, hi - 1);
      if hi - 1 in s {
        assert top == {hi - 1};
      } else {
        assert top == {};
      }
    }
  }
}
