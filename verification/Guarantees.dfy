/**
 What the limiter guarantees over whole runs.
 */
module Guarantees {
  import opened Wrappers
  import opened Ladder
  import opened Ledger
  import opened Plans
  import opened Store
  import opened Limiter
  import opened Mirror
  import opened Runs
  import opened Config

  // ---------- the window bound ----------

  /** Every window is bounded over all of time, and has not used more than its limit by now. */
  ghost predicate WithinLimits(windows: seq<Window>, events: seq<Event>, now: nat) {
    forall w :: w in windows ==>
      Bounded(events, w.secs, w.count) && LedgerCounter(events, now)(BucketSize(w.secs), w.secs) <= w.count
  }

  lemma EmptyLedgerIsWithinLimits(windows: seq<Window>, now: nat)
    ensures WithinLimits(windows, [], now)
  {
    forall w | w in windows
      ensures Bounded([], w.secs, w.count)
      ensures LedgerCounter([], now)(BucketSize(w.secs), w.secs) == 0
    {
      assert Sum([], Reaching(BucketSize(w.secs), now - w.secs)) == 0;
    }
  }

  lemma RecordStaysWithinLimits(windows: seq<Window>, events: seq<Event>, now: nat, count: nat)
    requires Recent(events, now) && WithinLimits(windows, events, now)
    requires WindowsAllow(windows, events, now, count)
    ensures WithinLimits(windows, events + [Event(now, count)], now)
  {
    forall w | w in windows
      ensures Bounded(events + [Event(now, count)], w.secs, w.count)
      ensures LedgerCounter(events + [Event(now, count)], now)(BucketSize(w.secs), w.secs) <= w.count
    {
      assert WindowAllows(w, LedgerCounter(events, now), count);
      AllowedEventKeepsBound(events, BucketSize(w.secs), w.secs, w.count, now, count);
      SumOfAppended(events, Event(now, count), Reaching(BucketSize(w.secs), now - w.secs));
    }
  }

  lemma TimeStaysWithinLimits(windows: seq<Window>, events: seq<Event>, now: nat, later: nat)
    requires WithinLimits(windows, events, now) && now <= later
    ensures WithinLimits(windows, events, later)
  {
    forall w | w in windows
      ensures LedgerCounter(events, later)(BucketSize(w.secs), w.secs) <= w.count
    {
      CountFallsOverTime(events, BucketSize(w.secs), now - w.secs, later - w.secs);
    }
  }

  lemma LedgerMoveStaysWithinLimits(windows: seq<Window>, events: seq<Event>, now: nat, sender: Sender, step: Step)
    requires Recent(events, now) && WithinLimits(windows, events, now)
    ensures var events' := LedgerAfter(windows, events, now, sender, step);
            Recent(events', now) && WithinLimits(windows, events', now)
  {
    if LedgerAfter(windows, events, now, sender, step) != events {
      RecordStaysWithinLimits(windows, events, now, step.count);
    }
  }

  lemma {:induction false} LedgersStayWithinLimits(rules: Rules, start: World, steps: seq<Step>, sender: Sender)
    ensures var events, now := LedgerOf(rules, start, steps, sender), TimeAfter(rules, start, steps);
            Recent(events, now) && WithinLimits(rules(sender), events, now)
  {
    if steps == [] {
      assert LedgerOf(rules, start, steps, sender) == [];
      EmptyLedgerIsWithinLimits(rules(sender), start.now);
    } else {
      LedgersStayWithinLimits(rules, start, Init(steps), sender);
      LedgerMoves(rules, start, steps, sender);
      var before, now := LedgerOf(rules, start, Init(steps), sender), TimeAfter(rules, start, Init(steps));
      LedgerMoveStaysWithinLimits(rules(sender), before, now, sender, Final(steps));
      TimeStaysWithinLimits(rules(sender), LedgerOf(rules, start, steps, sender), now, TimeAfter(rules, start, steps));
    }
  }

  /**
   Safety. After any run, no closed interval as long as a configured window, anywhere in time, holds
   more recipients that the store recorded than the window's count, whether or not the caller was told.
   */
  lemma EveryWindowIsEnforced(rules: Rules, start: World, steps: seq<Step>, sender: Sender)
    requires Untouched(start.db)
    ensures var events, now := RecordsOf(rules, start, steps, sender), TimeAfter(rules, start, steps);
            Recent(events, now) && WithinLimits(rules(sender), events, now)
  {
    StoreKeepsLedger(rules, start, steps, sender);
    LedgersStayWithinLimits(rules, start, steps, sender);
  }

  // ---------- failing closed ----------

  predicate LetsThrough(reply: Reply, onError: FailureAction) {
    reply == Accepted || (reply == Failed && onError == Permit)
  }

  /** Whether the step lets a message of `sender` through. */
  ghost predicate Delivers(rules: Rules, w: World, step: Step, sender: Sender, onError: FailureAction) {
    step.Check? && step.sender == sender && LetsThrough(Next(rules, w, step).1.value, onError)
  }

  /** The messages of `sender` that were let through, as the run's own replies say. */
  ghost function Delivered(rules: Rules, start: World, steps: seq<Step>, sender: Sender, onError: FailureAction)
    : seq<Event>
  {
    if steps == [] then []
    else
      var w, step := Run(rules, start, Init(steps)).world, Final(steps);
      var before := Delivered(rules, start, Init(steps), sender, onError);
      if Delivers(rules, w, step, sender, onError) then before + [Event(w.now, step.count)] else before
  }

  /** `part` is `whole` with some messages left out. */
  ghost predicate IsSubsequence(part: seq<Event>, whole: seq<Event>) {
    || part == []
    || (whole != [] && part != [] && Final(part) == Final(whole) && IsSubsequence(Init(part), Init(whole)))
    || (whole != [] && IsSubsequence(part, Init(whole)))
  }

  lemma SubsequenceGrows(part: seq<Event>, whole: seq<Event>, e: Event)
    requires IsSubsequence(part, whole)
    ensures IsSubsequence(part, whole + [e]) && IsSubsequence(part + [e], whole + [e])
  {
    assert Init(whole + [e]) == whole && Init(part + [e]) == part;
  }

  lemma {:induction false} SubsequenceSumsToLess(part: seq<Event>, whole: seq<Event>, s: Selector)
    requires IsSubsequence(part, whole)
    ensures Sum(part, s) <= Sum(whole, s)
    decreases whole
  {
    if part != [] {
      if IsSubsequence(part, Init(whole)) {
        SubsequenceSumsToLess(part, Init(whole), s);
      } else {
        SubsequenceSumsToLess(Init(part), Init(whole), s);
      }
    }
  }

  /** When errors defer, a message that is let through is recorded in the same step. */
  lemma DeliveryIsRecorded(rules: Rules, w: World, step: Step, sender: Sender)
    requires rules(sender) != []
    ensures Delivers(rules, w, step, sender, Defer) ==> StoreRecords(rules, w, step, sender)
  {
    OnlyNoWindowsPlansNoKeys(rules(sender));
  }

  /**
   When errors defer, everything let through has a record of its own, whatever pattern of failures occurs:
   the messages let through are the recorded ones, in order, with some left out.
   */
  lemma {:induction false} DeliveredIsRecorded(rules: Rules, start: World, steps: seq<Step>, sender: Sender)
    requires Untouched(start.db) && rules(sender) != []
    ensures IsSubsequence(Delivered(rules, start, steps, sender, Defer), RecordsOf(rules, start, steps, sender))
  {
    if steps != [] {
      var init, step, w := Init(steps), Final(steps), Run(rules, start, Init(steps)).world;
      var delivered, records := Delivered(rules, start, init, sender, Defer), RecordsOf(rules, start, init, sender);
      DeliveredIsRecorded(rules, start, init, sender);
      DeliveryIsRecorded(rules, w, step, sender);
      if StoreRecords(rules, w, step, sender) {
        SubsequenceGrows(delivered, records, Event(w.now, step.count));
      }
    }
  }

  lemma SubsequenceIsBounded(part: seq<Event>, whole: seq<Event>, span: nat, limit: nat)
    requires IsSubsequence(part, whole) && Bounded(whole, span, limit)
    ensures Bounded(part, span, limit)
  {
    forall at: int
      ensures WithinSpan(part, at, span) <= limit
    {
      SubsequenceSumsToLess(part, whole, Between(at, at + span));
      assert WithinSpan(whole, at, span) <= limit;
    }
  }

  lemma DeferFailsClosed(rules: Rules, start: World, steps: seq<Step>, sender: Sender, w: Window)
    requires Untouched(start.db) && w in rules(sender)
    ensures Bounded(Delivered(rules, start, steps, sender, Defer), w.secs, w.count)
  {
    DeliveredIsRecorded(rules, start, steps, sender);
    EveryWindowIsEnforced(rules, start, steps, sender);
    SubsequenceIsBounded(Delivered(rules, start, steps, sender, Defer), RecordsOf(rules, start, steps, sender), w.secs,
                         w.count);
  }

  /** Two checks of allowed size, both lost before the script. */
  function LostChecks(sender: Sender, w: Window): seq<Step> {
    [Check(sender, w.count, BeforeScript), Check(sender, 1, BeforeScript)]
  }

  lemma LostCheckIsDelivered(rules: Rules, start: World, steps: seq<Step>, sender: Sender, count: nat)
    requires rules(sender) != []
    ensures var steps' := steps + [Check(sender, count, BeforeScript)];
            && Delivered(rules, start, steps', sender, Permit)
            == Delivered(rules, start, steps, sender, Permit) + [Event(TimeAfter(rules, start, steps), count)]
            && TimeAfter(rules, start, steps') == TimeAfter(rules, start, steps)
  {
    OnlyNoWindowsPlansNoKeys(rules(sender));
    assert Init(steps + [Check(sender, count, BeforeScript)]) == steps;
  }

  /** Two failed calls are enough to exceed a window when errors permit. */
  lemma PermitFailsOpen(rules: Rules, start: World, sender: Sender, w: Window)
    requires w in rules(sender)
    ensures !Bounded(Delivered(rules, start, LostChecks(sender, w), sender, Permit), w.secs, w.count)
  {
    var first, second := Event(start.now, w.count), Event(start.now, 1);
    var window := Between(start.now, start.now + w.secs);
    LostCheckIsDelivered(rules, start, [], sender, w.count);
    LostCheckIsDelivered(rules, start, [] + [Check(sender, w.count, BeforeScript)], sender, 1);
    assert [] + [Check(sender, w.count, BeforeScript)] + [Check(sender, 1, BeforeScript)] == LostChecks(sender, w);
    SumOfAppended([], first, window);
    SumOfAppended([] + [first], second, window);
    assert WithinSpan([] + [first] + [second], start.now, w.secs) > w.count;
  }

  /** What is let through stays within every window, over every run, exactly when backend errors defer. */
  lemma FailsClosedIffDefer(rules: Rules, start: World, sender: Sender, w: Window, onError: FailureAction)
    requires Untouched(start.db) && w in rules(sender)
    ensures onError == Defer
        <==> forall steps :: Bounded(Delivered(rules, start, steps, sender, onError), w.secs, w.count)
  {
    if onError == Defer {
      forall steps
        ensures Bounded(Delivered(rules, start, steps, sender, onError), w.secs, w.count)
      {
        DeferFailsClosed(rules, start, steps, sender, w);
      }
    } else {
      PermitFailsOpen(rules, start, sender, w);
    }
  }

  // ---------- precision ----------

  /** `count` more recipients would exceed the limit of `w` over the last `span` seconds. */
  ghost predicate OverLimit(events: seq<Event>, now: nat, w: Window, span: int, count: nat) {
    Sum(events, Between(now - span, now)) + count > w.count
  }

  /** The longest stretch, in seconds back from now, that a window of `secs` seconds can count. */
  function Reach(secs: nat): int {
    secs + secs / 50 - 1
  }

  lemma VerdictIsWithinTwoPercent(w: Window, events: seq<Event>, now: nat, count: nat)
    requires ValidWindow(w) && NoneAfter(events, now)
    ensures OverLimit(events, now, w, w.secs, count) ==> !WindowAllows(w, LedgerCounter(events, now), count)
    ensures !WindowAllows(w, LedgerCounter(events, now), count) ==> OverLimit(events, now, w, Reach(w.secs), count)
  {
    OvercountIsWithinTwoPercent(events, now, w.secs);
  }

  /** No undercounting: a check that would take some window's exact total over its limit is rejected. */
  lemma ExcessIsRejected(rules: Rules, start: World, steps: seq<Step>, sender: Sender, count: nat, w: Window)
    requires Untouched(start.db) && w in rules(sender) && ValidWindow(w)
    requires OverLimit(RecordsOf(rules, start, steps, sender), TimeAfter(rules, start, steps), w, w.secs, count)
    ensures ReplyAfter(rules, start, steps, sender, count, NoFault) == Rejected
  {
    StoreKeepsLedger(rules, start, steps, sender);
    RepliesFollowLedger(rules, start, steps, sender, count, NoFault);
    EveryWindowIsEnforced(rules, start, steps, sender);
    VerdictIsWithinTwoPercent(w, RecordsOf(rules, start, steps, sender), TimeAfter(rules, start, steps), count);
  }

  /** Bounded overcounting: a rejection is owed to real traffic within 1.02 times the length of some window. */
  lemma RejectionsAreJustified(rules: Rules, start: World, steps: seq<Step>, sender: Sender, count: nat)
    requires Untouched(start.db) && ValidWindows(rules(sender))
    requires ReplyAfter(rules, start, steps, sender, count, NoFault) == Rejected
    ensures exists w :: w in rules(sender)
              && OverLimit(RecordsOf(rules, start, steps, sender), TimeAfter(rules, start, steps), w, Reach(w.secs),
                           count)
  {
    StoreKeepsLedger(rules, start, steps, sender);
    var events, now := RecordsOf(rules, start, steps, sender), TimeAfter(rules, start, steps);
    RepliesFollowLedger(rules, start, steps, sender, count, NoFault);
    EveryWindowIsEnforced(rules, start, steps, sender);
    var w :| w in rules(sender) && !WindowAllows(w, LedgerCounter(events, now), count);
    VerdictIsWithinTwoPercent(w, events, now, count);
  }

  // ---------- recovery ----------

  lemma WindowsAllowLater(windows: seq<Window>, events: seq<Event>, now: nat, later: nat, count: nat)
    requires now <= later && WindowsAllow(windows, events, now, count)
    ensures WindowsAllow(windows, events, later, count)
  {
    forall w | w in windows
      ensures WindowAllows(w, LedgerCounter(events, later), count)
    {
      assert WindowAllows(w, LedgerCounter(events, now), count);
      CountFallsOverTime(events, BucketSize(w.secs), now - w.secs, later - w.secs);
    }
  }

  lemma {:induction false} ClockNeverTurnsBack(rules: Rules, start: World, steps: seq<Step>, later: seq<Step>)
    ensures TimeAfter(rules, start, steps) <= TimeAfter(rules, start, steps + later)
    decreases |later|
  {
    if later == [] {
      assert steps + later == steps;
    } else {
      ClockNeverTurnsBack(rules, start, steps, Init(later));
      assert Init(steps + later) == steps + Init(later);
      LedgerMoves(rules, start, steps + later, Sender("", ""));
    }
  }

  /** With nothing recorded in between, what a sender may send it may still send later. */
  lemma AcceptableStaysAcceptable(rules: Rules, start: World, steps: seq<Step>, later: seq<Step>, sender: Sender,
                                  count: nat)
    requires Untouched(start.db)
    requires RecordsOf(rules, start, steps + later, sender) == RecordsOf(rules, start, steps, sender)
    requires ReplyAfter(rules, start, steps, sender, count, NoFault) == Accepted
    ensures ReplyAfter(rules, start, steps + later, sender, count, NoFault) == Accepted
  {
    StoreKeepsLedger(rules, start, steps, sender);
    StoreKeepsLedger(rules, start, steps + later, sender);
    RepliesFollowLedger(rules, start, steps, sender, count, NoFault);
    RepliesFollowLedger(rules, start, steps + later, sender, count, NoFault);
    ClockNeverTurnsBack(rules, start, steps, later);
    if rules(sender) != [] {
      WindowsAllowLater(rules(sender), RecordsOf(rules, start, steps, sender), TimeAfter(rules, start, steps),
                        TimeAfter(rules, start, steps + later), count);
    }
  }

  /** One span and one bucket after the last record, every window allows whatever its limit allows. */
  lemma WindowsAllowAfterQuiet(windows: seq<Window>, events: seq<Event>, now: nat, count: nat)
    requires Chronological(events)
    requires forall w :: w in windows ==> count <= w.count
    requires forall w :: w in windows && events != [] ==> LastTime(events) + w.secs + BucketSize(w.secs) <= now
    ensures WindowsAllow(windows, events, now, count)
  {
    forall w | w in windows
      ensures WindowAllows(w, LedgerCounter(events, now), count)
    {
      if events != [] {
        LastIsLatest(events);
      }
      CountVanishes(events, BucketSize(w.secs), now, w.secs);
    }
  }

  /**
   A request within every limit is accepted once each window's span and one of its buckets have passed
   since the sender's last record, however many rejections came in between.
   */
  lemma QuietSendersRecover(rules: Rules, start: World, steps: seq<Step>, sender: Sender, count: nat)
    requires Untouched(start.db)
    requires forall w :: w in rules(sender) ==> count <= w.count
    requires var events := RecordsOf(rules, start, steps, sender);
             forall w :: w in rules(sender) && events != [] ==>
               LastTime(events) + w.secs + BucketSize(w.secs) <= TimeAfter(rules, start, steps)
    ensures ReplyAfter(rules, start, steps, sender, count, NoFault) == Accepted
  {
    StoreKeepsLedger(rules, start, steps, sender);
    RepliesFollowLedger(rules, start, steps, sender, count, NoFault);
    EveryWindowIsEnforced(rules, start, steps, sender);
    WindowsAllowAfterQuiet(rules(sender), RecordsOf(rules, start, steps, sender), TimeAfter(rules, start, steps),
                           count);
  }

  // ---------- all or nothing ----------

  lemma RejectionChangesNothing(rules: Rules, w: World, step: Step)
    requires Next(rules, w, step).1 == Some(Rejected)
    ensures Next(rules, w, step).0 == w
  {
  }

  /** The run's steps without the requests it rejected, and the replies that remain. */
  ghost function WithoutRejected(rules: Rules, start: World, steps: seq<Step>): (seq<Step>, seq<Option<Reply>>) {
    if steps == [] then ([], [])
    else
      var (kept, replies) := WithoutRejected(rules, start, Init(steps));
      var reply := Next(rules, Run(rules, start, Init(steps)).world, Final(steps)).1;
      if reply == Some(Rejected) then (kept, replies) else (kept + [Final(steps)], replies + [reply])
  }

  /** Rejected requests leave no trace: without them the run ends in the same database with the same other replies. */
  lemma {:induction false} RejectedRequestsLeaveNoTrace(rules: Rules, start: World, steps: seq<Step>)
    ensures var (kept, replies) := WithoutRejected(rules, start, steps);
            Run(rules, start, kept) == Outcome(Run(rules, start, steps).world, replies)
  {
    if steps != [] {
      RejectedRequestsLeaveNoTrace(rules, start, Init(steps));
      var (kept, replies) := WithoutRejected(rules, start, Init(steps));
      var world := Run(rules, start, Init(steps)).world;
      if Next(rules, world, Final(steps)).1 == Some(Rejected) {
        RejectionChangesNothing(rules, world, Final(steps));
      } else {
        assert Init(kept + [Final(steps)]) == kept;
      }
    }
  }

  /** `count` is added once to the current bucket; other buckets are kept as they were or pruned. */
  ghost predicate CountedOnce(before: Hash, after: Hash, current: nat, count: nat) {
    && current in after
    && after[current] == (if current in before then before[current] else 0) + count
    && forall id :: id in after && id != current ==> id in before && after[id] == before[id]
  }

  lemma RecordCountsOnce(keys: seq<string>, plan: CheckPlan, db: Database, now: nat, count: nat, i: nat)
    requires Indexed(plan) && |keys| == |plan.sizes| && Distinct(keys) && i < |keys|
    ensures CountedOnce(HashAt(db, keys[i]), HashAt(RecordFirst(db, keys, plan, now, count, |keys|), keys[i]),
                        BucketAt(now, plan.sizes[i]), count)
  {
    RecordFirstAt(db, keys, plan, now, count, |keys|, i);
    CurrentBucketIsKept(HashAt(db, keys[i]), plan.sizes[i], plan.retentions[i], now, count);
  }

  /** An accepted request adds its count to the current bucket of each of its keys, exactly once. */
  lemma AcceptedRequestsCountOnce(plan: CheckPlan, w: World, sender: Sender, count: nat, i: nat)
    requires Indexed(plan) && DistinctSizes(plan) && i < |plan.sizes|
    requires Checked(w.db, w.now, sender, plan, count, NoFault).1 == Accepted
    ensures var key := KeysFor(sender, plan.sizes)[i];
            CountedOnce(HashAt(w.db, key), HashAt(Checked(w.db, w.now, sender, plan, count, NoFault).0, key),
                        BucketAt(w.now, plan.sizes[i]), count)
  {
    KeysAreDistinct(sender, plan);
    RecordCountsOnce(KeysFor(sender, plan.sizes), plan, w.db, w.now, count, i);
  }

  // ---------- bounded storage ----------

  /**
   However long the run, a key never holds more buckets than its retention can reach into, nor does any listing
   of it; for valid windows these are at most 101.
   */
  lemma StorageIsBounded(rules: Rules, start: World, steps: seq<Step>, sender: Sender, i: nat, fields: seq<Bucket>)
    requires Untouched(start.db)
    requires i < |PlanOf(rules(sender)).sizes|
    requires DistinctIds(fields)
    requires HashOf(fields) == HashAt(Run(rules, start, steps).world.db, KeyFor(sender, PlanOf(rules(sender)).sizes[i]))
    ensures var plan := PlanOf(rules(sender));
            && |fields| == |HashOf(fields)| <= Capacity(plan.sizes[i], plan.retentions[i])
            && (ValidWindows(rules(sender)) ==>
                  Capacity(plan.sizes[i], plan.retentions[i]) <= 101)
  {
    var plan := PlanOf(rules(sender));
    var db, events := Run(rules, start, steps).world.db, RecordsOf(rules, start, steps, sender);
    var key := KeyFor(sender, plan.sizes[i]);
    StoreKeepsLedger(rules, start, steps, sender);
    ListingIsAsLongAsHash(fields);
    if key in db {
      HashStaysSmall(db[key].hash, plan.sizes[i], plan.retentions[i], LastTime(events));
    }
    if ValidWindows(rules(sender)) {
      RetentionIsWithinAHundredBuckets(rules(sender), i);
      CapacityIsBounded(plan.sizes[i], plan.retentions[i]);
    }
  }

  // ---------- ended buckets ----------

  /** Of the buckets that have ended by `now`, every one in `after` was in `before` with the same count. */
  ghost predicate EndedAreKeptOrGone(before: Hash, after: Hash, size: Size, now: nat) {
    forall id :: id in after && BucketEnd(id, size) <= now ==> id in before && after[id] == before[id]
  }

  lemma EndedStayKeptOrGone(a: Hash, b: Hash, c: Hash, size: Size, now: nat, later: nat)
    requires EndedAreKeptOrGone(a, b, size, now) && EndedAreKeptOrGone(b, c, size, later) && now <= later
    ensures EndedAreKeptOrGone(a, c, size, now)
  {
  }

  /** A record changes no bucket of any key that has ended. */
  lemma RecordSparesEnded(plan: CheckPlan, w: World, sender: Sender, count: nat, other: Sender, size: Size)
    requires WellFormed(plan)
    ensures var key := KeyFor(other, size);
            EndedAreKeptOrGone(HashAt(w.db, key), HashAt(SaslRecorded(w.db, w.now, sender, plan, count), key), size,
                               w.now)
  {
    var keys, key := KeysFor(sender, plan.sizes), KeyFor(other, size);
    if i :| 0 <= i < |keys| && keys[i] == key {
      SenderKeysNeverCollide(sender, plan.sizes[i], other, size);
      KeysAreDistinct(sender, plan);
      RecordFirstAt(w.db, keys, plan, w.now, count, |keys|, i);
      EndedBucketsStayBehind(size, w.now);
    } else {
      RecordFirstFrame(w.db, keys, plan, w.now, count, |keys|, key);
    }
  }

  lemma StepSparesEnded(rules: Rules, w: World, step: Step, sender: Sender, size: Size)
    ensures var key := KeyFor(sender, size);
            EndedAreKeptOrGone(HashAt(w.db, key), HashAt(Next(rules, w, step).0.db, key), size, w.now)
  {
    if step.Check? {
      RecordsAreWrites(rules, w, step);
      PlanIsWellFormed(rules(step.sender));
      RecordSparesEnded(PlanOf(rules(step.sender)), w, step.sender, step.count, sender, size);
    }
  }

  /**
   A bucket that has ended is final. However a run goes on from any state of the world, the bucket keeps its
   count until it is pruned or expires, and once it is gone it is never written again.
   */
  lemma {:induction false} EndedBucketsAreFinal(rules: Rules, w: World, later: seq<Step>, sender: Sender, size: Size)
    ensures var key := KeyFor(sender, size);
            EndedAreKeptOrGone(HashAt(w.db, key), HashAt(Run(rules, w, later).world.db, key), size, w.now)
  {
    if later != [] {
      var before, key := Run(rules, w, Init(later)).world, KeyFor(sender, size);
      EndedBucketsAreFinal(rules, w, Init(later), sender, size);
      ClockNeverTurnsBack(rules, w, [], Init(later));
      assert [] + Init(later) == Init(later);
      StepSparesEnded(rules, before, Final(later), sender, size);
      EndedStayKeptOrGone(HashAt(w.db, key), HashAt(before.db, key),
                          HashAt(Next(rules, before, Final(later)).0.db, key), size, w.now, before.now);
    }
  }
}
