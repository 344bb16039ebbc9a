/**
 The Valkey hashes and the check-and-record script that runs on them atomically
 (lua/check_and_record.lua).
 */
module Store {
  import opened Wrappers
  import opened Ladder
  import opened Ledger
  import opened Plans

  /** Bucket id to recipients recorded in that bucket. */
  type Hash = map<nat, nat>

  /** One key: its hash, and the second at which its TTL runs out, if it has one. */
  datatype Entry = Entry(hash: Hash, deadline: Option<nat>)

  type Database = map<string, Entry>

  /** A field of a hash as the script parses it. */
  datatype Bucket = Bucket(id: nat, count: nat)

  /** HGETALL's view of a key; a missing key is an empty hash. */
  function HashAt(db: Database, key: string): Hash {
    if key in db then db[key].hash else map[]
  }

  // ---------- summing a hash ----------

  /** The sum of a hash's values, taken in whatever order. */
  ghost function HashSum(h: Hash): nat
    decreases |h|
  {
    if h == map[] then 0
    else
      var id :| id in h;
      h[id] + HashSum(h - {id})
  }

  lemma {:induction false} HashSumSplits(h: Hash, id: nat)
    requires id in h
    ensures HashSum(h) == h[id] + HashSum(h - {id})
    decreases |h|
  {
    var first :| first in h && HashSum(h) == h[first] + HashSum(h - {first});
    if first != id {
      HashSumSplits(h - {first}, id);
      HashSumSplits(h - {id}, first);
      assert h - {first} - {id} == h - {id} - {first};
    }
  }

  /** The buckets of `h` that end after `cutoff`. */
  function ReachingPart(h: Hash, size: Size, cutoff: int): Hash {
    map id | id in h && BucketEnd(id, size) > cutoff :: h[id]
  }

  /** What a window counts in a key's hash. */
  ghost function Counted(h: Hash, size: Size, cutoff: int): nat {
    HashSum(ReachingPart(h, size, cutoff))
  }

  // ---------- the script as a function ----------

  /** Whether every window has room for `count` more recipients. */
  ghost predicate Allows(db: Database, keys: seq<string>, plan: CheckPlan, now: nat, count: nat)
    requires Indexed(plan) && |keys| == |plan.sizes|
  {
    forall p :: p in plan.windows ==> HasRoom(HashAt(db, keys[p.keyIndex]), plan.sizes[p.keyIndex], p, now, count)
  }

  ghost predicate HasRoom(h: Hash, size: Size, p: PlannedWindow, now: nat, count: nat) {
    count + Counted(h, size, now - p.span) <= p.limit
  }

  function Incremented(h: Hash, id: nat, count: nat): Hash {
    h[id := (if id in h then h[id] else 0) + count]
  }

  /** A key's hash after a record: the current bucket grows and everything past retention is gone. */
  function Recorded(h: Hash, size: Size, retention: nat, now: nat, count: nat): Hash {
    ReachingPart(Incremented(h, BucketAt(now, size), count), size, now - retention)
  }

  function RecordedEntry(h: Hash, size: Size, retention: nat, now: nat, count: nat): Entry {
    Entry(Recorded(h, size, retention, now, count), Some(now + retention + size))
  }

  /** The database after the first `n` keys of the plan have been recorded to. */
  function RecordFirst(db: Database, keys: seq<string>, plan: CheckPlan, now: nat, count: nat, n: nat): Database
    requires Indexed(plan) && |keys| == |plan.sizes| && n <= |keys|
  {
    if n == 0 then db
    else
      RecordFirst(db, keys, plan, now, count, n - 1)[
        keys[n - 1] := RecordedEntry(HashAt(db, keys[n - 1]), plan.sizes[n - 1], plan.retentions[n - 1], now, count)]
  }

  ghost predicate Distinct(keys: seq<string>) {
    forall i, j :: 0 <= i < j < |keys| ==> keys[i] != keys[j]
  }

  ghost predicate SameAt(db: Database, db': Database, key: string) {
    (key in db <==> key in db') && (key in db ==> db[key] == db'[key])
  }

  /** Recording touches no other key than the plan's. */
  lemma {:induction false} RecordFirstFrame(db: Database, keys: seq<string>, plan: CheckPlan, now: nat, count: nat,
                                            n: nat, key: string)
    requires Indexed(plan) && |keys| == |plan.sizes| && n <= |keys|
    requires forall i :: 0 <= i < n ==> keys[i] != key
    ensures SameAt(db, RecordFirst(db, keys, plan, now, count, n), key)
  {
    if n > 0 {
      RecordFirstFrame(db, keys, plan, now, count, n - 1, key);
    }
  }

  /** Recording touches each of the plan's keys exactly once, however many windows share it. */
  lemma {:induction false} RecordFirstAt(db: Database, keys: seq<string>, plan: CheckPlan, now: nat, count: nat,
                                         n: nat, i: nat)
    requires Indexed(plan) && |keys| == |plan.sizes| && i < n <= |keys| && Distinct(keys)
    ensures var db' := RecordFirst(db, keys, plan, now, count, n);
            && keys[i] in db'
            && db'[keys[i]] == RecordedEntry(HashAt(db, keys[i]), plan.sizes[i], plan.retentions[i], now, count)
  {
    if i < n - 1 {
      RecordFirstAt(db, keys, plan, now, count, n - 1, i);
    }
  }

  /** The bucket just incremented outlives the prune that follows, so an accepted count is never lost. */
  lemma CurrentBucketIsKept(h: Hash, size: Size, retention: nat, now: nat, count: nat)
    ensures var h' := Recorded(h, size, retention, now, count);
            && BucketAt(now, size) in h'
            && h'[BucketAt(now, size)] == (if BucketAt(now, size) in h then h[BucketAt(now, size)] else 0) + count
  {
    BucketContains(now, size);
  }

  // ---------- the script ----------

  ghost predicate DistinctIds(fields: seq<Bucket>) {
    forall i, j :: 0 <= i < j < |fields| ==> fields[i].id != fields[j].id
  }

  /** The hash whose fields are `fields`. */
  function HashOf(fields: seq<Bucket>): Hash {
    if fields == [] then map[] else HashOf(Init(fields))[Final(fields).id := Final(fields).count]
  }

  lemma HashOfAppended(fields: seq<Bucket>, f: Bucket)
    ensures HashOf(fields + [f]) == HashOf(fields)[f.id := f.count]
  {
    assert Init(fields + [f]) == fields;
  }

  lemma {:induction false} HashOfHolds(fields: seq<Bucket>)
    requires DistinctIds(fields)
    ensures forall f :: f in fields ==> f.id in HashOf(fields) && HashOf(fields)[f.id] == f.count
    ensures forall id :: id in HashOf(fields) ==> Bucket(id, HashOf(fields)[id]) in fields
  {
    if fields != [] {
      HashOfHolds(Init(fields));
    }
  }

  /** A listing has one field for each bucket of the hash. */
  lemma {:induction false} ListingIsAsLongAsHash(fields: seq<Bucket>)
    requires DistinctIds(fields)
    ensures |fields| == |HashOf(fields)|
  {
    if fields != [] {
      ListingIsAsLongAsHash(Init(fields));
      LastFieldIsNew(fields);
    }
  }

  /** `smallest` is the smallest listed id, if any is listed. */
  ghost predicate IsMinId(smallest: Option<nat>, fields: seq<Bucket>) {
    match smallest
    case None => fields == []
    case Some(m) => (exists f :: f in fields && f.id == m) && forall f :: f in fields ==> m <= f.id
  }

  /** Ids past retention, as the script collects them. */
  ghost predicate IsStaleList(stale: seq<nat>, h: Hash, size: Size, oldest: int) {
    forall id :: id in stale <==> id in h && BucketEnd(id, size) <= oldest
  }

  function Without(h: Hash, ids: seq<nat>): Hash {
    map id | id in h && id !in ids :: h[id]
  }

  /** One Valkey database and its clock, in seconds. */
  class Valkey {
    var db: Database
    var clock: nat

    constructor (db: Database, clock: nat)
      ensures this.db == db && this.clock == clock
    {
      this.db, this.clock := db, clock;
    }

    /** HGETALL: the fields in an order of the server's choosing. */
    method HGetAll(key: string) returns (fields: seq<Bucket>)
      ensures DistinctIds(fields) && HashOf(fields) == HashAt(db, key)
    {
      var h := HashAt(db, key);
      var rest := h;
      fields := [];
      while rest != map[]
        invariant DistinctIds(fields)
        invariant HashOf(fields) == h - rest.Keys
        invariant forall id :: id in rest ==> id in h && rest[id] == h[id]
        invariant forall f :: f in fields ==> f.id !in rest
        decreases |rest|
      {
        var id :| id in rest;
        HashOfAppended(fields, Bucket(id, rest[id]));
        assert h - (rest - {id}).Keys == (h - rest.Keys)[id := rest[id]];
        fields := fields + [Bucket(id, rest[id])];
        rest := rest - {id};
      }
    }

    /** HINCRBY: creates the key, without a TTL, or the field when missing. */
    method HIncrBy(key: string, id: nat, count: nat)
      modifies this`db
      ensures db == old(db)[key := Entry(Incremented(HashAt(old(db), key), id, count),
                                         if key in old(db) then old(db)[key].deadline else None)]
    {
      var deadline := if key in db then db[key].deadline else None;
      db := db[key := Entry(Incremented(HashAt(db, key), id, count), deadline)];
    }

    /** EXPIRE: does nothing to a missing key. */
    method Expire(key: string, secs: nat)
      modifies this`db
      ensures db == if key in old(db) then old(db)[key := old(db)[key].(deadline := Some(clock + secs))] else old(db)
    {
      if key in db {
        db := db[key := db[key].(deadline := Some(clock + secs))];
      }
    }

    /** HDEL: an error without fields to delete; a key whose last field goes is itself deleted. */
    method HDel(key: string, ids: seq<nat>)
      requires ids != []
      modifies this`db
      ensures db == if key !in old(db) then old(db)
                    else if Without(old(db)[key].hash, ids) == map[] then old(db) - {key}
                    else old(db)[key := old(db)[key].(hash := Without(old(db)[key].hash, ids))]
    {
      if key in db {
        var left := Without(db[key].hash, ids);
        db := if left == map[] then db - {key} else db[key := db[key].(hash := left)];
      }
    }

    /** Fetches one key's buckets and notes the smallest id. */
    method Fetch(key: string) returns (buckets: seq<Bucket>, minId: Option<nat>)
      ensures Fetched(buckets, minId, HashAt(db, key))
    {
      var fields := HGetAll(key);
      buckets, minId := [], None;
      for j := 0 to |fields|
        invariant buckets == fields[..j]
        invariant IsMinId(minId, buckets)
      {
        buckets := buckets + [fields[j]];
        if minId.None? || fields[j].id < minId.value {
          minId := Some(fields[j].id);
        }
        assert fields[j] in buckets;
      }
      assert fields[..|fields|] == fields;
    }

    /** Adds up what a window counts, starting from the request's own recipients. */
    method Total(buckets: seq<Bucket>, size: Size, oldest: int, count: nat) returns (total: nat)
      requires DistinctIds(buckets)
      ensures total == count + Counted(HashOf(buckets), size, oldest)
    {
      total := count;
      for j := 0 to |buckets|
        invariant total == count + Counted(HashOf(buckets[..j]), size, oldest)
      {
        var entry := buckets[j];
        assert Init(buckets[..j + 1]) == buckets[..j];
        LastFieldIsNew(buckets[..j + 1]);
        CountedWithNewField(HashOf(buckets[..j]), entry.id, entry.count, size, oldest);
        if BucketEnd(entry.id, size) > oldest {
          total := total + entry.count;
        }
      }
      assert buckets[..|buckets|] == buckets;
    }

    /** Collects the stale ids among `buckets`. */
    method Stale(buckets: seq<Bucket>, size: Size, oldest: int) returns (stale: seq<nat>)
      requires DistinctIds(buckets)
      ensures IsStaleList(stale, HashOf(buckets), size, oldest)
      ensures |stale| <= |buckets|
    {
      HashOfHolds(buckets);
      stale := [];
      for j := 0 to |buckets|
        invariant |stale| <= j
        invariant forall id :: id in stale <==>
                    BucketEnd(id, size) <= oldest && exists i :: 0 <= i < j && buckets[i].id == id
      {
        if BucketEnd(buckets[j].id, size) <= oldest {
          stale := stale + [buckets[j].id];
        }
      }
    }

    /** The script's last phase for one key: record, renew the TTL, prune behind the smallest-id shortcut. */
    method RecordKey(key: string, size: Size, retention: nat, count: nat, buckets: seq<Bucket>, minId: Option<nat>)
      requires Fetched(buckets, minId, HashAt(db, key))
      modifies this`db
      ensures db == old(db)[key := RecordedEntry(HashAt(old(db), key), size, retention, clock, count)]
    {
      var bucket := BucketAt(clock, size);
      var oldest := clock - retention;
      HIncrBy(key, bucket, count);
      Expire(key, retention + size);
      if minId.Some? && BucketEnd(minId.value, size) <= oldest {
        var stale := Stale(buckets, size, oldest);
        PruneIsExact(buckets, minId.value, stale, size, retention, clock, count);
        HDel(key, stale);
      } else {
        NothingStale(buckets, minId, size, oldest);
        SkippedPruneIsExact(HashOf(buckets), size, retention, clock, count);
      }
    }

    /** The script's first phase: every key's buckets, fetched once however many windows share it. */
    method FetchAll(keys: seq<string>) returns (bucketsByKey: seq<seq<Bucket>>, minIdByKey: seq<Option<nat>>)
      ensures AllFetched(bucketsByKey, minIdByKey, db, keys)
    {
      bucketsByKey, minIdByKey := [], [];
      for i := 0 to |keys|
        invariant |bucketsByKey| == |minIdByKey| == i
        invariant forall k :: 0 <= k < i ==> Fetched(bucketsByKey[k], minIdByKey[k], HashAt(db, keys[k]))
      {
        var buckets, minId := Fetch(keys[i]);
        bucketsByKey, minIdByKey := bucketsByKey + [buckets], minIdByKey + [minId];
      }
    }

    /** The script's second phase: every window is checked before anything is recorded. */
    method CheckWindows(keys: seq<string>, plan: CheckPlan, count: nat, bucketsByKey: seq<seq<Bucket>>,
                        minIdByKey: seq<Option<nat>>)
      returns (allowed: bool)
      requires Indexed(plan) && |keys| == |plan.sizes| && AllFetched(bucketsByKey, minIdByKey, db, keys)
      ensures allowed <==> Allows(db, keys, plan, clock, count)
    {
      for j := 0 to |plan.windows|
        invariant forall k :: 0 <= k < j ==>
                    var p := plan.windows[k];
                    HasRoom(HashAt(db, keys[p.keyIndex]), plan.sizes[p.keyIndex], p, clock, count)
      {
        var p := plan.windows[j];
        assert Fetched(bucketsByKey[p.keyIndex], minIdByKey[p.keyIndex], HashAt(db, keys[p.keyIndex]));
        var total := Total(bucketsByKey[p.keyIndex], plan.sizes[p.keyIndex], clock - p.span, count);
        if total > p.limit {
          assert !HasRoom(HashAt(db, keys[p.keyIndex]), plan.sizes[p.keyIndex], p, clock, count);
          return false;
        }
      }
      return true;
    }

    /** The whole script: fetch every key, check every window, and only then record. */
    method CheckAndRecord(keys: seq<string>, plan: CheckPlan, count: nat) returns (allowed: bool)
      requires Indexed(plan) && |keys| == |plan.sizes| && Distinct(keys)
      modifies this`db
      ensures allowed <==> Allows(old(db), keys, plan, clock, count)
      ensures db == if allowed then RecordFirst(old(db), keys, plan, clock, count, |keys|) else old(db)
    {
      var bucketsByKey, minIdByKey := FetchAll(keys);
      allowed := CheckWindows(keys, plan, count, bucketsByKey, minIdByKey);
      if !allowed {
        return;
      }
      for i := 0 to |keys|
        invariant db == RecordFirst(old(db), keys, plan, clock, count, i)
      {
        RecordFirstFrame(old(db), keys, plan, clock, count, i, keys[i]);
        assert Fetched(bucketsByKey[i], minIdByKey[i], HashAt(db, keys[i]));
        RecordKey(keys[i], plan.sizes[i], plan.retentions[i], count, bucketsByKey[i], minIdByKey[i]);
      }
    }
  }

  /** A key's buckets as the script holds them between its phases. */
  ghost predicate Fetched(buckets: seq<Bucket>, minId: Option<nat>, h: Hash) {
    DistinctIds(buckets) && HashOf(buckets) == h && IsMinId(minId, buckets)
  }

  ghost predicate AllFetched(bucketsByKey: seq<seq<Bucket>>, minIdByKey: seq<Option<nat>>, db: Database,
                             keys: seq<string>)
  {
    && |bucketsByKey| == |minIdByKey| == |keys|
    && forall k :: 0 <= k < |keys| ==> Fetched(bucketsByKey[k], minIdByKey[k], HashAt(db, keys[k]))
  }

  /** The scan finds at least one stale bucket, never the one just written, and deletes what retention drops. */
  lemma PruneIsExact(buckets: seq<Bucket>, minId: nat, stale: seq<nat>, size: Size, retention: nat, now: nat, count: nat)
    requires Fetched(buckets, Some(minId), HashOf(buckets)) && BucketEnd(minId, size) <= now - retention
    requires IsStaleList(stale, HashOf(buckets), size, now - retention)
    ensures stale != [] && BucketAt(now, size) !in stale
    ensures Without(Incremented(HashOf(buckets), BucketAt(now, size), count), stale)
         == Recorded(HashOf(buckets), size, retention, now, count) != map[]
  {
    HashOfHolds(buckets);
    BucketContains(now, size);
    assert minId in stale;
    assert BucketAt(now, size) in Recorded(HashOf(buckets), size, retention, now, count);
  }

  /** With nothing stale, leaving the hash alone is what filtering it would have done. */
  lemma SkippedPruneIsExact(h: Hash, size: Size, retention: nat, now: nat, count: nat)
    requires forall id :: id in h ==> BucketEnd(id, size) > now - retention
    ensures Incremented(h, BucketAt(now, size), count) == Recorded(h, size, retention, now, count)
  {
    BucketContains(now, size);
  }

  /** When even the oldest bucket is not stale, none is: skipping the scan is exact. */
  lemma NothingStale(buckets: seq<Bucket>, minId: Option<nat>, size: Size, oldest: int)
    requires DistinctIds(buckets) && IsMinId(minId, buckets)
    requires minId.Some? ==> BucketEnd(minId.value, size) > oldest
    ensures forall id :: id in HashOf(buckets) ==> BucketEnd(id, size) > oldest
  {
    HashOfHolds(buckets);
    forall id | id in HashOf(buckets)
      ensures BucketEnd(id, size) > oldest
    {
      assert Bucket(id, HashOf(buckets)[id]) in buckets;
      BucketEndIsMonotone(minId.value, id, size);
    }
  }

  /** A new field adds its count to what a window counts when its bucket reaches into the window. */
  lemma CountedWithNewField(h: Hash, id: nat, count: nat, size: Size, oldest: int)
    requires id !in h
    ensures Counted(h[id := count], size, oldest)
         == Counted(h, size, oldest) + if BucketEnd(id, size) > oldest then count else 0
  {
    var whole, part := ReachingPart(h[id := count], size, oldest), ReachingPart(h, size, oldest);
    if BucketEnd(id, size) > oldest {
      HashSumSplits(whole, id);
      assert whole - {id} == part;
    } else {
      assert whole == part;
    }
  }

  lemma LastFieldIsNew(fields: seq<Bucket>)
    requires DistinctIds(fields) && fields != []
    ensures Final(fields).id !in HashOf(Init(fields))
  {
    HashOfHolds(Init(fields));
  }
}
