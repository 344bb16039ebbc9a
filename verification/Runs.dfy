/**
 Whole runs: any number of instances and senders checking against one database, in any order, while
 time passes, TTLs run out and calls to the backend fail. Each sender's windows are fixed.
 */
module Runs {
  import opened Wrappers
  import opened Ladder
  import opened Ledger
  import opened Plans
  import opened Store
  import opened Limiter
  import opened Mirror

  datatype Step =
    | Check(sender: Sender, count: nat, fault: Fault)
    | Tick(secs: nat)
    | Reap(key: string)          // the server drops a key whose TTL has run out

  /** The windows that apply to each sender. */
  type Rules = Sender -> seq<Window>

  datatype World = World(db: Database, now: nat)

  /** What the run has come to and the reply to each check so far, with `None` for the other steps. */
  datatype Outcome = Outcome(world: World, replies: seq<Option<Reply>>)

  // ---------- the implementation ----------

  function Reaped(w: World, key: string): World {
    if key in w.db && w.db[key].deadline.Some? && w.db[key].deadline.value <= w.now
    then w.(db := w.db - {key}) else w
  }

  ghost function Next(rules: Rules, w: World, step: Step): (World, Option<Reply>) {
    match step
    case Check(sender, count, fault) =>
      var (db, reply) := Checked(w.db, w.now, sender, PlanOf(rules(sender)), count, fault);
      (w.(db := db), Some(reply))
    case Tick(secs) => (w.(now := w.now + secs), None)
    case Reap(key) => (Reaped(w, key), None)
  }

  ghost function Run(rules: Rules, start: World, steps: seq<Step>): Outcome {
    if steps == [] then Outcome(start, [])
    else
      var before := Run(rules, start, Init(steps));
      var (world, reply) := Next(rules, before.world, Final(steps));
      Outcome(world, before.replies + [reply])
  }

  // ---------- the reference: full ledgers and configured windows, nothing else ----------

  type Books = map<Sender, seq<Event>>

  function Book(books: Books, sender: Sender): seq<Event> {
    if sender in books then books[sender] else []
  }

  datatype Reference = Reference(books: Books, now: nat)

  datatype Expectation = Expectation(reference: Reference, replies: seq<Option<Reply>>)

  /** The counter that sums the whole ledger at second `now`. */
  function LedgerCounter(events: seq<Event>, now: nat): Counter {
    (size: Size, span: nat) => Sum(events, Reaching(size, now - span))
  }

  /** Each configured window on its own has room. */
  ghost predicate WindowsAllow(windows: seq<Window>, events: seq<Event>, now: nat, count: nat) {
    forall w :: w in windows ==> WindowAllows(w, LedgerCounter(events, now), count)
  }

  /** Whether a check by a restricted sender is recorded. */
  ghost predicate LedgerRecords(windows: seq<Window>, events: seq<Event>, now: nat, count: nat, fault: Fault) {
    windows != [] && fault != BeforeScript && WindowsAllow(windows, events, now, count)
  }

  ghost function LedgerReply(windows: seq<Window>, events: seq<Event>, now: nat, count: nat, fault: Fault): Reply {
    if windows == [] then Accepted
    else if fault != NoFault then Failed
    else if WindowsAllow(windows, events, now, count) then Accepted
    else Rejected
  }

  ghost function NextExpected(rules: Rules, r: Reference, step: Step): (Reference, Option<Reply>) {
    match step
    case Tick(secs) => (r.(now := r.now + secs), None)
    case Reap(_) => (r, None)
    case Check(sender, count, fault) =>
      var events := Book(r.books, sender);
      (if LedgerRecords(rules(sender), events, r.now, count, fault)
       then r.(books := r.books[sender := events + [Event(r.now, count)]]) else r,
       Some(LedgerReply(rules(sender), events, r.now, count, fault)))
  }

  ghost function Expected(rules: Rules, now: nat, steps: seq<Step>): Expectation {
    if steps == [] then Expectation(Reference(map[], now), [])
    else
      var before := Expected(rules, now, Init(steps));
      var (reference, reply) := NextExpected(rules, before.reference, Final(steps));
      Expectation(reference, before.replies + [reply])
  }

  // ---------- the invariant ----------

  /** The store mirrors the sender's ledger under every key of the sender's plan. */
  ghost predicate SenderMirrored(plan: CheckPlan, w: World, sender: Sender, events: seq<Event>)
    requires Indexed(plan)
  {
    && Recent(events, w.now)
    && forall i :: 0 <= i < |plan.sizes| ==>
         Mirrors(w.db, KeyFor(sender, plan.sizes[i]), events, plan.sizes[i], plan.retentions[i], w.now)
  }

  ghost predicate Mirrored(rules: Rules, w: World, r: Reference) {
    && w.now == r.now
    && forall sender :: SenderMirrored(PlanOf(rules(sender)), w, sender, Book(r.books, sender))
  }

  /** A database that holds no bucket of any sender; it may hold anything else. */
  ghost predicate Untouched(db: Database) {
    forall sender, size :: KeyFor(sender, size) !in db
  }

  /** A planned window counts in the store what it would count in the full ledger. */
  lemma PlannedCountsAgree(plan: CheckPlan, w: World, sender: Sender, events: seq<Event>, p: PlannedWindow)
    requires WellFormed(plan) && p in plan.windows
    requires SenderMirrored(plan, w, sender, events)
    ensures Counted(HashAt(w.db, KeyFor(sender, plan.sizes[p.keyIndex])), plan.sizes[p.keyIndex], w.now - p.span)
         == LedgerCounter(events, w.now)(plan.sizes[p.keyIndex], p.span)
  {
    var i := p.keyIndex;
    CountsAgree(w.db, KeyFor(sender, plan.sizes[i]), events, plan.sizes[i], plan.retentions[i], w.now, p.span);
  }

  lemma PlanVerdictsAgree(plan: CheckPlan, w: World, sender: Sender, events: seq<Event>, count: nat)
    requires WellFormed(plan)
    requires SenderMirrored(plan, w, sender, events)
    ensures SaslAllows(w.db, w.now, sender, plan, count)
        <==> PlanAllows(plan, LedgerCounter(events, w.now), count)
  {
    var counter := LedgerCounter(events, w.now);
    forall p | p in plan.windows
      ensures HasRoom(HashAt(w.db, KeysFor(sender, plan.sizes)[p.keyIndex]), plan.sizes[p.keyIndex], p, w.now, count)
         <==> counter(plan.sizes[p.keyIndex], p.span) + count <= p.limit
    {
      PlannedCountsAgree(plan, w, sender, events, p);
    }
  }

  /** The script's verdict on the store is the configured windows' verdict on the full ledger. */
  lemma VerdictsAgree(windows: seq<Window>, w: World, sender: Sender, events: seq<Event>, count: nat)
    requires SenderMirrored(PlanOf(windows), w, sender, events)
    ensures SaslAllows(w.db, w.now, sender, PlanOf(windows), count) <==> WindowsAllow(windows, events, w.now, count)
  {
    PlanIsWellFormed(windows);
    PlanVerdictsAgree(PlanOf(windows), w, sender, events, count);
    PlanningPreservesMeaning(windows, LedgerCounter(events, w.now), count);
  }

  /** A record keeps the recording sender mirrored. */
  lemma RecordKeepsRecorder(plan: CheckPlan, w: World, sender: Sender, events: seq<Event>, count: nat)
    requires WellFormed(plan) && SenderMirrored(plan, w, sender, events)
    ensures SenderMirrored(plan, w.(db := SaslRecorded(w.db, w.now, sender, plan, count)), sender,
                           events + [Event(w.now, count)])
  {
    var keys := KeysFor(sender, plan.sizes);
    var db' := SaslRecorded(w.db, w.now, sender, plan, count);
    KeysAreDistinct(sender, plan);
    forall i | 0 <= i < |plan.sizes|
      ensures Mirrors(db', KeyFor(sender, plan.sizes[i]), events + [Event(w.now, count)], plan.sizes[i],
                      plan.retentions[i], w.now)
    {
      RecordFirstAt(w.db, keys, plan, w.now, count, |keys|, i);
      MirrorsAfterRecord(w.db, db', keys[i], events, plan.sizes[i], plan.retentions[i], w.now, count);
    }
  }

  /** A record by one sender leaves every other sender as it was. */
  lemma RecordKeepsOthers(plan: CheckPlan, other: CheckPlan, w: World, sender: Sender, bystander: Sender,
                          events: seq<Event>, count: nat)
    requires Indexed(plan) && Indexed(other)
    requires SenderMirrored(other, w, bystander, events) && sender != bystander
    ensures SenderMirrored(other, w.(db := SaslRecorded(w.db, w.now, sender, plan, count)), bystander, events)
  {
    var keys := KeysFor(sender, plan.sizes);
    forall size: Size
      ensures SameAt(w.db, SaslRecorded(w.db, w.now, sender, plan, count), KeyFor(bystander, size))
    {
      forall i | 0 <= i < |keys|
        ensures keys[i] != KeyFor(bystander, size)
      {
        if keys[i] == KeyFor(bystander, size) {
          SenderKeysNeverCollide(sender, plan.sizes[i], bystander, size);
        }
      }
      RecordFirstFrame(w.db, keys, plan, w.now, count, |keys|, KeyFor(bystander, size));
    }
  }

  lemma ExpiryKeepsSender(plan: CheckPlan, w: World, sender: Sender, events: seq<Event>, key: string)
    requires Indexed(plan) && SenderMirrored(plan, w, sender, events)
    ensures SenderMirrored(plan, Reaped(w, key), sender, events)
  {
    forall i | 0 <= i < |plan.sizes|
      ensures Mirrors(Reaped(w, key).db, KeyFor(sender, plan.sizes[i]), events, plan.sizes[i], plan.retentions[i], w.now)
    {
      if KeyFor(sender, plan.sizes[i]) == key && Reaped(w, key) != w {
        MirrorsAfterExpiry(w.db, key, events, plan.sizes[i], plan.retentions[i], w.now);
      }
    }
  }

  /** The store answers a check as the sender's ledger does, and records exactly when the ledger does. */
  lemma CheckFollowsLedger(windows: seq<Window>, w: World, sender: Sender, events: seq<Event>, count: nat, fault: Fault)
    requires SenderMirrored(PlanOf(windows), w, sender, events)
    ensures Checked(w.db, w.now, sender, PlanOf(windows), count, fault)
         == (if LedgerRecords(windows, events, w.now, count, fault)
             then SaslRecorded(w.db, w.now, sender, PlanOf(windows), count) else w.db,
             LedgerReply(windows, events, w.now, count, fault))
  {
    OnlyNoWindowsPlansNoKeys(windows);
    VerdictsAgree(windows, w, sender, events, count);
  }

  /** A check keeps every sender mirrored: the one that checks and all others. */
  lemma CheckKeepsMirror(rules: Rules, w: World, r: Reference, step: Step)
    requires Mirrored(rules, w, r) && step.Check?
    ensures Mirrored(rules, Next(rules, w, step).0, NextExpected(rules, r, step).0)
  {
    var sender, events := step.sender, Book(r.books, step.sender);
    CheckFollowsLedger(rules(sender), w, sender, events, step.count, step.fault);
    if LedgerRecords(rules(sender), events, r.now, step.count, step.fault) {
      var w', r' := Next(rules, w, step).0, NextExpected(rules, r, step).0;
      forall s
        ensures SenderMirrored(PlanOf(rules(s)), w', s, Book(r'.books, s))
      {
        assert SenderMirrored(PlanOf(rules(s)), w, s, Book(r.books, s));
        if s == sender {
          PlanIsWellFormed(rules(s));
          RecordKeepsRecorder(PlanOf(rules(s)), w, s, events, step.count);
        } else {
          RecordKeepsOthers(PlanOf(rules(sender)), PlanOf(rules(s)), w, sender, s, Book(r.books, s), step.count);
        }
      }
    }
  }

  /** Expiry and the passage of time keep every sender mirrored. */
  lemma TimeKeepsMirror(rules: Rules, w: World, r: Reference, step: Step)
    requires Mirrored(rules, w, r) && !step.Check?
    ensures Mirrored(rules, Next(rules, w, step).0, NextExpected(rules, r, step).0)
  {
    forall s
      ensures SenderMirrored(PlanOf(rules(s)), Next(rules, w, step).0, s, Book(r.books, s))
    {
      assert SenderMirrored(PlanOf(rules(s)), w, s, Book(r.books, s));
      if step.Reap? {
        ExpiryKeepsSender(PlanOf(rules(s)), w, s, Book(r.books, s), step.key);
      }
    }
  }

  /** One step of the store and one step of the reference reply alike and stay in step. */
  lemma StepRefines(rules: Rules, w: World, r: Reference, step: Step)
    requires Mirrored(rules, w, r)
    ensures Next(rules, w, step).1 == NextExpected(rules, r, step).1
    ensures Mirrored(rules, Next(rules, w, step).0, NextExpected(rules, r, step).0)
  {
    if step.Check? {
      CheckFollowsLedger(rules(step.sender), w, step.sender, Book(r.books, step.sender), step.count, step.fault);
      CheckKeepsMirror(rules, w, r, step);
    } else {
      TimeKeepsMirror(rules, w, r, step);
    }
  }

  /**
   Refinement. Over every run, the store that merges windows, rounds to buckets, prunes and expires
   gives the replies of full ledgers that are never pruned, checked window by window.
   */
  lemma {:induction false} RunsRefineLedgers(rules: Rules, start: World, steps: seq<Step>)
    requires Untouched(start.db)
    ensures Run(rules, start, steps).replies == Expected(rules, start.now, steps).replies
    ensures Mirrored(rules, Run(rules, start, steps).world, Expected(rules, start.now, steps).reference)
  {
    if steps != [] {
      RunsRefineLedgers(rules, start, Init(steps));
      StepRefines(rules, Run(rules, start, Init(steps)).world, Expected(rules, start.now, Init(steps)).reference,
                  Final(steps));
    }
  }

  // ---------- one sender's view of a run ----------

  /** The messages in the reference's ledger of `sender` at the end of a run. */
  ghost function LedgerOf(rules: Rules, start: World, steps: seq<Step>, sender: Sender): seq<Event> {
    Book(Expected(rules, start.now, steps).reference.books, sender)
  }

  /** The second at which a run ends. */
  ghost function TimeAfter(rules: Rules, start: World, steps: seq<Step>): nat {
    Run(rules, start, steps).world.now
  }

  /** The reply the store would give `sender` after a run. */
  ghost function ReplyAfter(rules: Rules, start: World, steps: seq<Step>, sender: Sender, count: nat, fault: Fault)
    : Reply
  {
    Next(rules, Run(rules, start, steps).world, Check(sender, count, fault)).1.value
  }

  /** The store's reply to any check, after any run, is read off the sender's own ledger. */
  lemma RepliesFollowLedger(rules: Rules, start: World, steps: seq<Step>, sender: Sender, count: nat, fault: Fault)
    requires Untouched(start.db)
    ensures ReplyAfter(rules, start, steps, sender, count, fault)
         == LedgerReply(rules(sender), LedgerOf(rules, start, steps, sender), TimeAfter(rules, start, steps), count,
                        fault)
  {
    RunsRefineLedgers(rules, start, steps);
    StepRefines(rules, Run(rules, start, steps).world, Expected(rules, start.now, steps).reference,
                Check(sender, count, fault));
  }

  /** Whether the store records the step as a message of `sender`. */
  ghost predicate StoreRecords(rules: Rules, w: World, step: Step, sender: Sender) {
    var plan := PlanOf(rules(sender));
    && step.Check? && step.sender == sender
    && plan.sizes != [] && step.fault != BeforeScript && SaslAllows(w.db, w.now, sender, plan, step.count)
  }

  /** The messages of `sender` that the store recorded in a run, in order. */
  ghost function RecordsOf(rules: Rules, start: World, steps: seq<Step>, sender: Sender): seq<Event> {
    if steps == [] then []
    else
      var w, step := Run(rules, start, Init(steps)).world, Final(steps);
      var before := RecordsOf(rules, start, Init(steps), sender);
      if StoreRecords(rules, w, step, sender) then before + [Event(w.now, step.count)] else before
  }

  /** A step that is recorded writes the message under every key of the sender's plan; no other check writes. */
  lemma RecordsAreWrites(rules: Rules, w: World, step: Step)
    requires step.Check?
    ensures Next(rules, w, step).0
         == if StoreRecords(rules, w, step, step.sender)
            then w.(db := SaslRecorded(w.db, w.now, step.sender, PlanOf(rules(step.sender)), step.count)) else w
  {
  }

  /**
   What the store recorded is what the reference's ledger holds, and what its keys still hold of it are
   full buckets, none within retention missing.
   */
  lemma {:induction false} StoreKeepsLedger(rules: Rules, start: World, steps: seq<Step>, sender: Sender)
    requires Untouched(start.db)
    ensures RecordsOf(rules, start, steps, sender) == LedgerOf(rules, start, steps, sender)
    ensures SenderMirrored(PlanOf(rules(sender)), Run(rules, start, steps).world, sender,
                           RecordsOf(rules, start, steps, sender))
  {
    RunsRefineLedgers(rules, start, steps);
    if steps != [] {
      var init, step := Init(steps), Final(steps);
      StoreKeepsLedger(rules, start, init, sender);
      LedgerMoves(rules, start, steps, sender);
      if step.Check? && step.sender == sender {
        OnlyNoWindowsPlansNoKeys(rules(sender));
        VerdictsAgree(rules(sender), Run(rules, start, init).world, sender, LedgerOf(rules, start, init, sender),
                      step.count);
      }
    }
  }

  /** How one more step moves the clock and one sender's ledger. */
  lemma LedgerMoves(rules: Rules, start: World, steps: seq<Step>, sender: Sender)
    requires steps != []
    ensures TimeAfter(rules, start, steps)
         == TimeAfter(rules, start, Init(steps)) + if Final(steps).Tick? then Final(steps).secs else 0
    ensures LedgerOf(rules, start, steps, sender)
         == LedgerAfter(rules(sender), LedgerOf(rules, start, Init(steps), sender), TimeAfter(rules, start, Init(steps)),
                        sender, Final(steps))
  {
    ClocksAgree(rules, start, Init(steps));
  }

  ghost function LedgerAfter(windows: seq<Window>, events: seq<Event>, now: nat, sender: Sender, step: Step)
    : seq<Event>
  {
    if step.Check? && step.sender == sender && LedgerRecords(windows, events, now, step.count, step.fault)
    then events + [Event(now, step.count)] else events
  }

  lemma {:induction false} ClocksAgree(rules: Rules, start: World, steps: seq<Step>)
    ensures TimeAfter(rules, start, steps) == Expected(rules, start.now, steps).reference.now
  {
    if steps != [] {
      ClocksAgree(rules, start, Init(steps));
    }
  }
}
