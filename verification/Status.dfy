/**
 The live status of a sender's windows (src/control/mod.rs): a second implementation of the window sum,
 over plain reads, with saturating and 32-bit arithmetic.
 */
module Status {
  import opened Wrappers
  import opened Ladder
  import opened Ledger
  import opened Plans
  import opened Store
  import opened Limiter
  import opened Runs
  import opened Guarantees
  import Mirror

  const TWO_TO_THE_32: nat := 0x1_0000_0000

  datatype WindowStatus = WindowStatus(span: nat, limit: nat, currentTotal: nat)

  datatype StatusResponse = Unrestricted | Limited(computedAt: nat, windows: seq<WindowStatus>)

  /** The only failure modelled: a stored count that does not parse as a `u32`. */
  datatype StatusError = CountOutOfRange

  function SaturatingSub(a: nat, b: nat): nat {
    if a < b then 0 else a - b
  }

  /** A `u32` after overflow. */
  function Wrapped(n: nat): nat {
    n % TWO_TO_THE_32
  }

  lemma WrappedAddition(a: nat, b: nat)
    ensures Wrapped(Wrapped(a) + b) == Wrapped(a + b)
  {
  }

  /** What the status reports for a planned window: a sum that wraps at 32 bits. */
  ghost function Reported(db: Database, now: nat, sender: Sender, plan: CheckPlan, p: PlannedWindow): WindowStatus
    requires Indexed(plan) && p in plan.windows
  {
    var size := plan.sizes[p.keyIndex];
    WindowStatus(p.span, p.limit,
                 Wrapped(Counted(HashAt(db, KeyFor(sender, size)), size, SaturatingSub(now, p.span))))
  }

  /** Whether every count under the plan's keys parses as a `u32`. */
  ghost predicate CountsParse(db: Database, sender: Sender, plan: CheckPlan) {
    forall i :: 0 <= i < |plan.sizes| ==> SmallCounts(HashAt(db, KeyFor(sender, plan.sizes[i])))
  }

  predicate SmallCounts(h: Hash) {
    forall id :: id in h ==> h[id] < TWO_TO_THE_32
  }

  ghost predicate IsStatus(r: Result<StatusResponse, StatusError>, db: Database, now: nat, sender: Sender,
                           plan: CheckPlan)
    requires Indexed(plan)
  {
    if plan.sizes == [] then r == Ok(Unrestricted)
    else if !CountsParse(db, sender, plan) then r == Err(CountOutOfRange)
    else
      && r.Ok? && r.value.Limited? && r.value.computedAt == now && |r.value.windows| == |plan.windows|
      && forall j :: 0 <= j < |plan.windows| ==> r.value.windows[j] == Reported(db, now, sender, plan, plan.windows[j])
  }

  /** The wrapping sum of the counts whose buckets end after `oldest`. */
  method WrappingTotal(fields: seq<Bucket>, size: Size, oldest: nat) returns (total: nat)
    requires DistinctIds(fields)
    ensures total == Wrapped(Counted(HashOf(fields), size, oldest))
  {
    total := 0;
    for j := 0 to |fields|
      invariant total == Wrapped(Counted(HashOf(fields[..j]), size, oldest))
    {
      var f := fields[j];
      assert fields[..j + 1][..j] == fields[..j];
      LastFieldIsNew(fields[..j + 1]);
      CountedWithNewField(HashOf(fields[..j]), f.id, f.count, size, oldest);
      if BucketEnd(f.id, size) > oldest {
        WrappedAddition(Counted(HashOf(fields[..j]), size, oldest), f.count);
        total := Wrapped(total + f.count);
      }
    }
    assert fields[..|fields|] == fields;
  }

  /** `compute_sasl_status`, with no other command between its reads. */
  method ComputeSaslStatus(valkey: Valkey, prefix: string, plan: CheckPlan, username: string)
    returns (r: Result<StatusResponse, StatusError>)
    requires Indexed(plan)
    ensures IsStatus(r, valkey.db, valkey.clock, Sender(prefix, username), plan)
  {
    if plan.sizes == [] {
      return Ok(Unrestricted);
    }
    var sender := Sender(prefix, username);
    var now := valkey.clock;
    var bucketsByKey: seq<seq<Bucket>> := [];
    for i := 0 to |plan.sizes|
      invariant |bucketsByKey| == i
      invariant forall k :: 0 <= k < i ==> Read(bucketsByKey[k], HashAt(valkey.db, KeyFor(sender, plan.sizes[k])))
    {
      var fields := valkey.HGetAll(KeyFor(sender, plan.sizes[i]));
      HashOfHolds(fields);
      if exists f :: f in fields && f.count >= TWO_TO_THE_32 {
        assert !SmallCounts(HashAt(valkey.db, KeyFor(sender, plan.sizes[i])));
        return Err(CountOutOfRange);
      }
      bucketsByKey := bucketsByKey + [fields];
    }
    var windows: seq<WindowStatus> := [];
    for j := 0 to |plan.windows|
      invariant |windows| == j
      invariant forall k :: 0 <= k < j ==>
                  windows[k] == Reported(valkey.db, now, sender, plan, plan.windows[k])
    {
      var p := plan.windows[j];
      assert Read(bucketsByKey[p.keyIndex], HashAt(valkey.db, KeyFor(sender, plan.sizes[p.keyIndex])));
      var total := WrappingTotal(bucketsByKey[p.keyIndex], plan.sizes[p.keyIndex], SaturatingSub(now, p.span));
      windows := windows + [WindowStatus(p.span, p.limit, total)];
    }
    return Ok(Limited(now, windows));
  }

  ghost predicate Read(fields: seq<Bucket>, h: Hash) {
    DistinctIds(fields) && HashOf(fields) == h && SmallCounts(h)
  }

  // ---------- agreement with enforcement ----------

  /** Stopping at zero, where the script goes negative, counts the same buckets. */
  lemma SaturationIsHarmless(h: Hash, size: Size, now: nat, span: nat)
    ensures Counted(h, size, SaturatingSub(now, span)) == Counted(h, size, now - span)
  {
    forall id | id in h
      ensures BucketEnd(id, size) > 0
    {
    }
    assert ReachingPart(h, size, SaturatingSub(now, span)) == ReachingPart(h, size, now - span);
  }

  /** In a store that mirrors the ledger, a report below 32 bits is the exact count. */
  lemma ReportIsExact(plan: CheckPlan, w: World, sender: Sender, events: seq<Event>, p: PlannedWindow)
    requires WellFormed(plan) && p in plan.windows
    requires SenderMirrored(plan, w, sender, events)
    requires LedgerCounter(events, w.now)(plan.sizes[p.keyIndex], p.span) <= p.limit < TWO_TO_THE_32
    ensures Reported(w.db, w.now, sender, plan, p)
         == WindowStatus(p.span, p.limit, LedgerCounter(events, w.now)(plan.sizes[p.keyIndex], p.span))
  {
    var size := plan.sizes[p.keyIndex];
    PlannedCountsAgree(plan, w, sender, events, p);
    SaturationIsHarmless(HashAt(w.db, KeyFor(sender, size)), size, w.now, p.span);
  }

  /** Windows as the configuration holds them: valid durations and 32-bit counts. */
  ghost predicate Configured(windows: seq<Window>) {
    ValidWindows(windows) && forall w :: w in windows ==> w.count < TWO_TO_THE_32
  }

  /** Within its limits, a plan's windows count no more than their own limits, which fit in 32 bits. */
  lemma PlannedWithinLimit(windows: seq<Window>, events: seq<Event>, now: nat, p: PlannedWindow)
    requires Configured(windows) && WithinLimits(windows, events, now)
    requires p in PlanOf(windows).windows
    ensures Sound(PlanOf(windows), p, events, LedgerCounter(events, now))
  {
    PlanIsFaithful(windows);
    var w :| w in windows && Enforces(PlanOf(windows), p, w) && p.limit == w.count;
  }

  /** A bucket is shorter than any window that uses it, so its total is within that window's limit. */
  lemma BucketIsWithinLimit(events: seq<Event>, span: nat, limit: nat, id: nat)
    requires MIN_WINDOW_SECS <= span <= MAX_WINDOW_SECS
    requires Bounded(events, span, limit)
    ensures BucketTotal(events, BucketSize(span), id) <= limit
  {
    var size := BucketSize(span);
    ValidDurationsSpanFiftyToAHundredBuckets(span);
    forall e | e in events && BucketAt(e.time, size) == id
      ensures id * size <= e.time <= id * size + span
    {
      BucketContains(e.time, size);
    }
    SumIsMonotone(events, InBuckets(size, {id}), Between(id * size, id * size + span));
    assert WithinSpan(events, id * size, span) <= limit;
  }

  /** No stored count ever outgrows 32 bits. */
  lemma StoredCountsParse(plan: CheckPlan, w: World, sender: Sender, events: seq<Event>, i: nat)
    requires WellFormed(plan) && i < |plan.sizes| && SenderMirrored(plan, w, sender, events)
    requires forall p :: p in plan.windows ==> Sound(plan, p, events, LedgerCounter(events, w.now))
    ensures SmallCounts(HashAt(w.db, KeyFor(sender, plan.sizes[i])))
  {
    assert NeedsAllItsRetention(plan, i);
    var p :| p in plan.windows && p.keyIndex == i && p.span == plan.retentions[i];
    assert Sound(plan, p, events, LedgerCounter(events, w.now));
    var h := HashAt(w.db, KeyFor(sender, plan.sizes[i]));
    Mirror.HashMirrorsNow(w.db, KeyFor(sender, plan.sizes[i]), events, plan.sizes[i], plan.retentions[i], w.now);
    forall id | id in h
      ensures h[id] < TWO_TO_THE_32
    {
      BucketIsWithinLimit(events, p.span, p.limit, id);
    }
  }

  /**
   Status agrees with enforcement. After any run, with nothing else going on, the status of a restricted
   sender is always available, reports no window over its limit, and tells exactly which requests the
   limiter would accept in the same second.
   */
  lemma StatusAgreesWithEnforcement(rules: Rules, start: World, steps: seq<Step>, sender: Sender, count: nat,
                                    r: Result<StatusResponse, StatusError>)
    requires Untouched(start.db) && Configured(rules(sender)) && rules(sender) != []
    requires IsStatus(r, Run(rules, start, steps).world.db, TimeAfter(rules, start, steps), sender,
                      PlanOf(rules(sender)))
    ensures r.Ok? && r.value.Limited?
    ensures forall s :: s in r.value.windows ==> s.currentTotal <= s.limit
    ensures ReplyAfter(rules, start, steps, sender, count, NoFault) == Accepted
        <==> forall s :: s in r.value.windows ==> s.currentTotal + count <= s.limit
  {
    var windows, w := rules(sender), Run(rules, start, steps).world;
    var events := RecordsOf(rules, start, steps, sender);
    StoreKeepsLedger(rules, start, steps, sender);
    EveryWindowIsEnforced(rules, start, steps, sender);
    OnlyNoWindowsPlansNoKeys(windows);
    CheckFollowsLedger(windows, w, sender, events, count, NoFault);
    PlanningPreservesMeaning(windows, LedgerCounter(events, w.now), count);
    StatusReportsLedger(windows, w, sender, events, r);
    ExactReportsDecide(PlanOf(windows), LedgerCounter(events, w.now), count, r.value.windows);
  }

  /** Against one world and one ledger: the status is exact and within the limits. */
  lemma StatusReportsLedger(windows: seq<Window>, w: World, sender: Sender, events: seq<Event>,
                            r: Result<StatusResponse, StatusError>)
    requires Configured(windows) && PlanOf(windows).sizes != []
    requires SenderMirrored(PlanOf(windows), w, sender, events) && WithinLimits(windows, events, w.now)
    requires IsStatus(r, w.db, w.now, sender, PlanOf(windows))
    ensures r.Ok? && r.value.Limited?
    ensures r.value.computedAt == w.now && ReportsExactly(PlanOf(windows), LedgerCounter(events, w.now), r.value.windows)
    ensures forall s :: s in r.value.windows ==> s.currentTotal <= s.limit
  {
    var plan, counter := PlanOf(windows), LedgerCounter(events, w.now);
    PlanIsWellFormed(windows);
    forall p | p in plan.windows
      ensures Sound(plan, p, events, counter)
    {
      PlannedWithinLimit(windows, events, w.now, p);
    }
    SoundPlansReportExactly(plan, w, sender, events, r);
  }

  /** A planned window's own limit bounds the ledger and what it counts now, in 32 bits. */
  ghost predicate Sound(plan: CheckPlan, p: PlannedWindow, events: seq<Event>, counter: Counter)
    requires Indexed(plan) && p in plan.windows
  {
    && Bounded(events, p.span, p.limit) && ValidWindow(Window(p.limit, p.span))
    && plan.sizes[p.keyIndex] == BucketSize(p.span)
    && counter(plan.sizes[p.keyIndex], p.span) <= p.limit < TWO_TO_THE_32
  }

  /** The statuses report, window by window, what `counter` counts. */
  ghost predicate ReportsExactly(plan: CheckPlan, counter: Counter, statuses: seq<WindowStatus>)
    requires Indexed(plan)
  {
    && |statuses| == |plan.windows|
    && forall j :: 0 <= j < |statuses| ==>
         var p := plan.windows[j];
         statuses[j] == WindowStatus(p.span, p.limit, counter(plan.sizes[p.keyIndex], p.span))
  }

  lemma SoundPlansReportExactly(plan: CheckPlan, w: World, sender: Sender, events: seq<Event>,
                                r: Result<StatusResponse, StatusError>)
    requires WellFormed(plan) && plan.sizes != [] && SenderMirrored(plan, w, sender, events)
    requires forall p :: p in plan.windows ==> Sound(plan, p, events, LedgerCounter(events, w.now))
    requires IsStatus(r, w.db, w.now, sender, plan)
    ensures r.Ok? && r.value.Limited? && r.value.computedAt == w.now
    ensures ReportsExactly(plan, LedgerCounter(events, w.now), r.value.windows)
    ensures forall s :: s in r.value.windows ==> s.currentTotal <= s.limit
  {
    var counter := LedgerCounter(events, w.now);
    forall i | 0 <= i < |plan.sizes|
      ensures SmallCounts(HashAt(w.db, KeyFor(sender, plan.sizes[i])))
    {
      StoredCountsParse(plan, w, sender, events, i);
    }
    forall j | 0 <= j < |plan.windows|
      ensures var p := plan.windows[j];
              && r.value.windows[j] == WindowStatus(p.span, p.limit, counter(plan.sizes[p.keyIndex], p.span))
              && counter(plan.sizes[p.keyIndex], p.span) <= p.limit
    {
      assert Sound(plan, plan.windows[j], events, counter);
      ReportIsExact(plan, w, sender, events, plan.windows[j]);
    }
  }

  lemma ExactReportsDecide(plan: CheckPlan, counter: Counter, count: nat, statuses: seq<WindowStatus>)
    requires Indexed(plan) && ReportsExactly(plan, counter, statuses)
    ensures PlanAllows(plan, counter, count) <==> forall s :: s in statuses ==> s.currentTotal + count <= s.limit
  {
    if forall s :: s in statuses ==> s.currentTotal + count <= s.limit {
      forall p | p in plan.windows
        ensures counter(plan.sizes[p.keyIndex], p.span) + count <= p.limit
      {
        var j :| 0 <= j < |plan.windows| && plan.windows[j] == p;
        assert statuses[j] in statuses;
      }
    }
    if PlanAllows(plan, counter, count) {
      forall j | 0 <= j < |statuses|
        ensures statuses[j].currentTotal + count <= statuses[j].limit
      {
        assert plan.windows[j] in plan.windows;
      }
    }
  }

  // ---------- what the status says ----------

  ghost predicate IsListed(statuses: seq<WindowStatus>, w: Window) {
    exists s :: s in statuses && s.span == w.secs
  }

  ghost predicate IsConfigured(s: WindowStatus, windows: seq<Window>) {
    exists w :: w in windows && w.secs == s.span && w.count == s.limit
  }

  /** One status for each configured span, at the strictest of its limits. */
  ghost predicate ListsWindows(statuses: seq<WindowStatus>, windows: seq<Window>) {
    && (forall w :: w in windows ==> IsListed(statuses, w))
    && (forall s :: s in statuses ==> IsConfigured(s, windows))
    && (forall s, w :: s in statuses && w in windows && w.secs == s.span ==> s.limit <= w.count)
    && (forall i, j :: 0 <= i < j < |statuses| ==> statuses[i].span != statuses[j].span)
  }

  /** Every status counts the recorded recipients in the buckets that reach into its window. */
  ghost predicate CountsRecords(statuses: seq<WindowStatus>, events: seq<Event>, now: nat) {
    forall s :: s in statuses ==> s.currentTotal == Sum(events, Reaching(BucketSize(s.span), now - s.span))
  }

  lemma EverySpanIsListed(plan: CheckPlan, windows: seq<Window>, counter: Counter, statuses: seq<WindowStatus>)
    requires Indexed(plan) && Covers(plan, windows) && ReportsExactly(plan, counter, statuses)
    ensures forall w :: w in windows ==> IsListed(statuses, w)
  {
    forall w | w in windows
      ensures IsListed(statuses, w)
    {
      var p :| Enforces(plan, p, w) && p.limit <= w.count;
      var j :| 0 <= j < |plan.windows| && plan.windows[j] == p;
      assert statuses[j] in statuses;
    }
  }

  lemma ListedAreConfigured(plan: CheckPlan, windows: seq<Window>, events: seq<Event>, now: nat,
                            statuses: seq<WindowStatus>)
    requires Indexed(plan) && Faithful(plan, windows) && ReportsExactly(plan, LedgerCounter(events, now), statuses)
    ensures forall s :: s in statuses ==> IsConfigured(s, windows)
    ensures CountsRecords(statuses, events, now)
  {
    forall s | s in statuses
      ensures IsConfigured(s, windows)
      ensures s.currentTotal == Sum(events, Reaching(BucketSize(s.span), now - s.span))
    {
      var j :| 0 <= j < |statuses| && statuses[j] == s;
      var p := plan.windows[j];
      assert p in plan.windows;
      var w :| w in windows && Enforces(plan, p, w) && p.limit == w.count;
    }
  }

  lemma ListedAreStrictest(plan: CheckPlan, windows: seq<Window>, counter: Counter, statuses: seq<WindowStatus>)
    requires Indexed(plan) && Strictest(plan, windows) && ReportsExactly(plan, counter, statuses)
    ensures forall s, w :: s in statuses && w in windows && w.secs == s.span ==> s.limit <= w.count
    ensures forall i, j :: 0 <= i < j < |statuses| ==> statuses[i].span != statuses[j].span
  {
    forall s, w | s in statuses && w in windows && w.secs == s.span
      ensures s.limit <= w.count
    {
      var j :| 0 <= j < |statuses| && statuses[j] == s;
      assert plan.windows[j] in plan.windows;
    }
  }

  /**
   What the status of a sender says after any run. It is `unrestricted` exactly for a sender without windows.
   Any other is computed at the current second, lists each configured span once at the strictest of its limits,
   and counts what the store recorded.
   */
  lemma StatusIsAsConfigured(rules: Rules, start: World, steps: seq<Step>, sender: Sender,
                             r: Result<StatusResponse, StatusError>)
    requires Untouched(start.db) && Configured(rules(sender))
    requires IsStatus(r, Run(rules, start, steps).world.db, TimeAfter(rules, start, steps), sender,
                      PlanOf(rules(sender)))
    ensures r == Ok(Unrestricted) <==> rules(sender) == []
    ensures rules(sender) != [] ==>
              && r.Ok? && r.value.Limited? && r.value.computedAt == TimeAfter(rules, start, steps)
              && ListsWindows(r.value.windows, rules(sender))
              && CountsRecords(r.value.windows, RecordsOf(rules, start, steps, sender), TimeAfter(rules, start, steps))
  {
    OnlyNoWindowsPlansNoKeys(rules(sender));
    if rules(sender) != [] {
      var windows, plan, w := rules(sender), PlanOf(rules(sender)), Run(rules, start, steps).world;
      var events := RecordsOf(rules, start, steps, sender);
      StoreKeepsLedger(rules, start, steps, sender);
      EveryWindowIsEnforced(rules, start, steps, sender);
      StatusReportsLedger(windows, w, sender, events, r);
      PlanCoversItsWindows(windows);
      EverySpanIsListed(plan, windows, LedgerCounter(events, w.now), r.value.windows);
      PlanIsFaithful(windows);
      ListedAreConfigured(plan, windows, events, w.now, r.value.windows);
      EqualSpansCollapse(windows);
      ListedAreStrictest(plan, windows, LedgerCounter(events, w.now), r.value.windows);
    }
  }

  /** On any database: an error exactly when a stored count is no `u32`, else every total is exact up to wrapping. */
  lemma StatusReadsTheStore(r: Result<StatusResponse, StatusError>, db: Database, now: nat, sender: Sender,
                            plan: CheckPlan)
    requires Indexed(plan) && plan.sizes != [] && IsStatus(r, db, now, sender, plan)
    ensures r.Err? <==> exists i, id :: 0 <= i < |plan.sizes| && id in HashAt(db, KeyFor(sender, plan.sizes[i]))
                                   && HashAt(db, KeyFor(sender, plan.sizes[i]))[id] >= 0x1_0000_0000
    ensures r.Ok? ==> r.value.Limited? && r.value.computedAt == now && |r.value.windows| == |plan.windows|
    ensures r.Ok? ==> forall j :: 0 <= j < |plan.windows| ==>
              var p, size := plan.windows[j], plan.sizes[plan.windows[j].keyIndex];
              r.value.windows[j] == WindowStatus(p.span, p.limit,
                                                 Counted(HashAt(db, KeyFor(sender, size)), size, now - p.span)
                                                 % 0x1_0000_0000)
  {
    if r.Ok? {
      forall j | 0 <= j < |plan.windows|
        ensures var p, size := plan.windows[j], plan.sizes[plan.windows[j].keyIndex];
                && Wrapped(Counted(HashAt(db, KeyFor(sender, size)), size, SaturatingSub(now, p.span)))
                == Counted(HashAt(db, KeyFor(sender, size)), size, now - p.span) % 0x1_0000_0000
      {
        var size := plan.sizes[plan.windows[j].keyIndex];
        SaturationIsHarmless(HashAt(db, KeyFor(sender, size)), size, now, plan.windows[j].span);
      }
    } else {
      var i :| 0 <= i < |plan.sizes| && !SmallCounts(HashAt(db, KeyFor(sender, plan.sizes[i])));
    }
  }
}
