/**
 The limiter (src/limiter.rs): one script call over the keys of one authenticated sender, and the
 ways in which the backend may fail around it.
 */
module Limiter {
  import opened Ladder
  import opened Plans
  import opened Store
  import Keys

  /** A SASL username as one instance, named by its key prefix, sees it. */
  datatype Sender = Sender(prefix: string, username: string)

  /** Whether a script call fails, and if so whether the script nevertheless ran. */
  datatype Fault = NoFault | BeforeScript | AfterScript

  datatype Reply = Accepted | Rejected | Failed

  function KeyFor(sender: Sender, size: nat): string {
    Keys.BucketKey(sender.prefix, Keys.Identity(Keys.SASL_KIND, sender.username), size)
  }

  /** One key per bucket size, in the plan's order. */
  function KeysFor(sender: Sender, sizes: seq<Size>): seq<string> {
    seq(|sizes|, i requires 0 <= i < |sizes| => KeyFor(sender, sizes[i]))
  }

  /** The text of a sender's key. */
  lemma KeyText(sender: Sender, size: nat)
    ensures KeyFor(sender, size)
         == sender.prefix + ":bucket:v1:sasl:" + Keys.Escape(sender.username) + ":" + Keys.Decimal(size)
  {
    var escaped := Keys.Escape(sender.username);
    assert Keys.MARKER + ":" + Keys.SASL_KIND + ":" == ":bucket:v1:sasl:";
    assert KeyFor(sender, size)
        == sender.prefix + (Keys.MARKER + ":" + Keys.SASL_KIND + ":") + escaped + ":" + Keys.Decimal(size);
  }

  /** No two senders, and no two sizes of one sender, ever meet in a key. */
  lemma SenderKeysNeverCollide(a: Sender, m: nat, b: Sender, n: nat)
    requires KeyFor(a, m) == KeyFor(b, n)
    ensures a == b && m == n
  {
    Keys.KeysNeverCollide(Keys.KeyParts(a.prefix, Keys.SASL_KIND, a.username, m),
                          Keys.KeyParts(b.prefix, Keys.SASL_KIND, b.username, n));
  }

  lemma KeysAreDistinct(sender: Sender, plan: CheckPlan)
    requires DistinctSizes(plan)
    ensures Distinct(KeysFor(sender, plan.sizes))
  {
    forall i, j | 0 <= i < j < |plan.sizes|
      ensures KeyFor(sender, plan.sizes[i]) != KeyFor(sender, plan.sizes[j])
    {
      if KeyFor(sender, plan.sizes[i]) == KeyFor(sender, plan.sizes[j]) {
        SenderKeysNeverCollide(sender, plan.sizes[i], sender, plan.sizes[j]);
      }
    }
  }

  ghost predicate SaslAllows(db: Database, now: nat, sender: Sender, plan: CheckPlan, count: nat)
    requires Indexed(plan)
  {
    Allows(db, KeysFor(sender, plan.sizes), plan, now, count)
  }

  function SaslRecorded(db: Database, now: nat, sender: Sender, plan: CheckPlan, count: nat): Database
    requires Indexed(plan)
  {
    RecordFirst(db, KeysFor(sender, plan.sizes), plan, now, count, |plan.sizes|)
  }

  /** The database and the reply after one check. A plan without keys never reaches the backend. */
  ghost function Checked(db: Database, now: nat, sender: Sender, plan: CheckPlan, count: nat, fault: Fault)
    : (Database, Reply)
    requires Indexed(plan)
  {
    if plan.sizes == [] then (db, Accepted)
    else if fault == BeforeScript then (db, Failed)
    else if SaslAllows(db, now, sender, plan, count) then
      (SaslRecorded(db, now, sender, plan, count), if fault == AfterScript then Failed else Accepted)
    else (db, if fault == AfterScript then Failed else Rejected)
  }

  class SaslLimiter {
    const prefix: string
    const backend: Valkey

    constructor (prefix: string, backend: Valkey)
      ensures this.prefix == prefix && this.backend == backend
    {
      this.prefix, this.backend := prefix, backend;
    }

    /** `check_sasl`, with the fault that the backend connection happens to show. */
    method CheckSasl(username: string, count: nat, plan: CheckPlan, fault: Fault) returns (reply: Reply)
      requires Indexed(plan) && DistinctSizes(plan)
      modifies backend`db
      ensures (backend.db, reply)
           == Checked(old(backend.db), backend.clock, Sender(prefix, username), plan, count, fault)
    {
      if plan.sizes == [] {
        return Accepted;
      }
      var identity := Keys.Identity(Keys.SASL_KIND, username);
      var keys: seq<string> := [];
      for i := 0 to |plan.sizes|
        invariant backend.db == old(backend.db)
        invariant keys == KeysFor(Sender(prefix, username), plan.sizes)[..i]
      {
        keys := keys + [Keys.BucketKey(prefix, identity, plan.sizes[i])];
      }
      assert keys == KeysFor(Sender(prefix, username), plan.sizes);
      KeysAreDistinct(Sender(prefix, username), plan);
      if fault == BeforeScript {
        return Failed;
      }
      var allowed := backend.CheckAndRecord(keys, plan, count);
      if fault == AfterScript {
        return Failed;
      }
      return if allowed then Accepted else Rejected;
    }
  }
}
