/**
 Check plans (src/config.rs): the grouping of a rule's windows by bucket size. Windows whose durations
 select the same bucket size share one key; windows of equal duration collapse into the stricter one.
 */
module Plans {
  import opened Wrappers
  import opened Ladder

  /** A configured cap: at most `count` recipients per `secs` seconds. */
  datatype Window = Window(count: nat, secs: nat)

  datatype PlannedWindow = PlannedWindow(keyIndex: nat, span: nat, limit: nat)

  datatype CheckPlan = CheckPlan(sizes: seq<Size>, windows: seq<PlannedWindow>, retentions: seq<nat>)

  const EMPTY_PLAN := CheckPlan([], [], [])

  predicate ValidWindow(w: Window) {
    MIN_WINDOW_SECS <= w.secs <= MAX_WINDOW_SECS
  }

  ghost predicate ValidWindows(windows: seq<Window>) {
    forall w :: w in windows ==> ValidWindow(w)
  }

  function Max(a: nat, b: nat): nat { if a < b then b else a }

  function Min(a: nat, b: nat): nat { if a < b then a else b }

  /** The first index at which `size` occurs. */
  function Position(sizes: seq<Size>, size: Size): (r: Option<nat>)
    ensures r.Some? ==> r.value < |sizes| && sizes[r.value] == size
    ensures r.None? ==> size !in sizes
  {
    if sizes == [] then None
    else if sizes[0] == size then Some(0)
    else match Position(sizes[1..], size)
      case None => None
      case Some(i) => Some(i + 1)
  }

  /** The first planned window with the given key and span. */
  function Find(windows: seq<PlannedWindow>, keyIndex: nat, span: nat): (r: Option<nat>)
    ensures r.Some? ==> r.value < |windows| && windows[r.value].keyIndex == keyIndex && windows[r.value].span == span
    ensures r.None? ==> forall i :: 0 <= i < |windows| ==> !(windows[i].keyIndex == keyIndex && windows[i].span == span)
  {
    if windows == [] then None
    else if windows[0].keyIndex == keyIndex && windows[0].span == span then Some(0)
    else match Find(windows[1..], keyIndex, span)
      case None => None
      case Some(i) => Some(i + 1)
  }

  /** A plan's parallel arrays line up and its indices are in range. */
  predicate Indexed(plan: CheckPlan) {
    && |plan.retentions| == |plan.sizes|
    && forall i :: 0 <= i < |plan.windows| ==> plan.windows[i].keyIndex < |plan.sizes|
  }

  /** The plan after one more window. */
  function AddWindow(plan: CheckPlan, w: Window): (r: CheckPlan)
    requires Indexed(plan)
    ensures Indexed(r)
  {
    var size := BucketSize(w.secs);
    var found := Position(plan.sizes, size);
    var (sizes, retentions, key) :=
      if found.Some? then (plan.sizes, plan.retentions, found.value)
      else (plan.sizes + [size], plan.retentions + [0], |plan.sizes|);
    var same := Find(plan.windows, key, w.secs);
    var windows :=
      if same.Some? then
        plan.windows[same.value := plan.windows[same.value].(limit := Min(plan.windows[same.value].limit, w.count))]
      else plan.windows + [PlannedWindow(key, w.secs, w.count)];
    CheckPlan(sizes, windows, retentions[key := Max(retentions[key], w.secs)])
  }

  /** The plan for a list of windows, taken in order. */
  function PlanOf(windows: seq<Window>): (r: CheckPlan)
    ensures Indexed(r)
  {
    if windows == [] then EMPTY_PLAN
    else AddWindow(PlanOf(windows[..|windows| - 1]), windows[|windows| - 1])
  }

  /** `CheckPlan::new`: three growing arrays, updated in place. */
  method NewPlan(windows: seq<Window>) returns (plan: CheckPlan)
    ensures plan == PlanOf(windows)
  {
    var sizes: seq<Size> := [];
    var retentions: seq<nat> := [];
    var planned: seq<PlannedWindow> := [];
    for k := 0 to |windows|
      invariant CheckPlan(sizes, planned, retentions) == PlanOf(windows[..k])
    {
      ghost var before := CheckPlan(sizes, planned, retentions);
      var w := windows[k];
      var size := ComputeBucketSize(w.secs);
      var found := Position(sizes, size);
      var keyIndex: nat;
      if found.Some? {
        keyIndex := found.value;
      } else {
        sizes := sizes + [size];
        retentions := retentions + [0];
        keyIndex := |sizes| - 1;
      }
      retentions := retentions[keyIndex := Max(retentions[keyIndex], w.secs)];
      var same := Find(planned, keyIndex, w.secs);
      if same.Some? {
        var existing := planned[same.value];
        planned := planned[same.value := existing.(limit := Min(existing.limit, w.count))];
      } else {
        planned := planned + [PlannedWindow(keyIndex, w.secs, w.count)];
      }
      assert windows[..k + 1][..k] == windows[..k];
      assert CheckPlan(sizes, planned, retentions) == AddWindow(before, w);
    }
    assert windows[..|windows|] == windows;
    plan := CheckPlan(sizes, planned, retentions);
  }

  // ---------- what a plan is ----------

  /** Planned window `p` of `plan` enforces the window `w`. */
  ghost predicate Enforces(plan: CheckPlan, p: PlannedWindow, w: Window)
    requires Indexed(plan)
  {
    p in plan.windows && p.span == w.secs && plan.sizes[p.keyIndex] == BucketSize(w.secs)
  }

  /** Every configured window is enforced at least as strictly as it asks. */
  ghost predicate Covers(plan: CheckPlan, windows: seq<Window>)
    requires Indexed(plan)
  {
    forall w :: w in windows ==> exists p :: Enforces(plan, p, w) && p.limit <= w.count
  }

  /** Every planned window is exactly one of the configured ones, under that window's own bucket size. */
  ghost predicate Faithful(plan: CheckPlan, windows: seq<Window>)
    requires Indexed(plan)
  {
    forall p :: p in plan.windows ==> exists w :: w in windows && Enforces(plan, p, w) && p.limit == w.count
  }

  /** No two keys share a bucket size. */
  ghost predicate DistinctSizes(plan: CheckPlan) {
    forall i, j :: 0 <= i < j < |plan.sizes| ==> plan.sizes[i] != plan.sizes[j]
  }

  /** A key retains exactly the longest span among the windows that use it, and is used. */
  ghost predicate RetainsLongestSpan(plan: CheckPlan)
    requires Indexed(plan)
  {
    && (forall p :: p in plan.windows ==> p.span <= plan.retentions[p.keyIndex])
    && (forall i :: 0 <= i < |plan.sizes| ==> NeedsAllItsRetention(plan, i))
  }

  /** Some window that uses key `i` spans all that the key retains. */
  ghost predicate NeedsAllItsRetention(plan: CheckPlan, i: nat)
    requires i < |plan.retentions|
  {
    exists p :: p in plan.windows && p.keyIndex == i && p.span == plan.retentions[i]
  }

  /** Planned windows are told apart by key and span. */
  ghost predicate DistinctWindows(plan: CheckPlan) {
    forall i, j :: 0 <= i < j < |plan.windows| ==>
      plan.windows[i].keyIndex != plan.windows[j].keyIndex || plan.windows[i].span != plan.windows[j].span
  }

  ghost predicate WellFormed(plan: CheckPlan) {
    Indexed(plan) && DistinctSizes(plan) && RetainsLongestSpan(plan) && DistinctWindows(plan)
  }

  /** The planned window that answers for `w` once `w` has been added. */
  function Slot(plan: CheckPlan, w: Window): (j: nat)
    requires Indexed(plan)
    ensures j < |AddWindow(plan, w).windows|
    ensures Enforces(AddWindow(plan, w), AddWindow(plan, w).windows[j], w)
  {
    var found := Position(plan.sizes, BucketSize(w.secs));
    var same := Find(plan.windows, if found.Some? then found.value else |plan.sizes|, w.secs);
    if same.Some? then same.value else |plan.windows|
  }

  /** Adding a window changes no other planned window than the one that answers for it. */
  lemma AddWindowTouchesOneSlot(plan: CheckPlan, w: Window)
    requires WellFormed(plan)
    ensures var r := AddWindow(plan, w);
            && plan.sizes <= r.sizes
            && |plan.windows| <= |r.windows| <= |plan.windows| + 1
            && (forall j :: 0 <= j < |plan.windows| && j != Slot(plan, w) ==> r.windows[j] == plan.windows[j])
            && (Slot(plan, w) < |plan.windows| ==>
                  var prior := plan.windows[Slot(plan, w)];
                  prior.span == w.secs && r.windows[Slot(plan, w)] == prior.(limit := Min(prior.limit, w.count)))
            && (|r.windows| > |plan.windows| ==>
                  Slot(plan, w) == |plan.windows| && r.windows[Slot(plan, w)].limit == w.count)
  {
  }

  /** A window that needs all of a key's retention goes on needing it when a longer span does not take over. */
  lemma RetentionStaysNeeded(plan: CheckPlan, w: Window, i: nat)
    requires WellFormed(plan) && i < |plan.sizes|
    requires AddWindow(plan, w).retentions[i] == plan.retentions[i]
    ensures NeedsAllItsRetention(AddWindow(plan, w), i)
  {
    AddWindowTouchesOneSlot(plan, w);
    assert NeedsAllItsRetention(plan, i);
    var p :| p in plan.windows && p.keyIndex == i && p.span == plan.retentions[i];
    var j :| 0 <= j < |plan.windows| && plan.windows[j] == p;
    assert AddWindow(plan, w).windows[j] in AddWindow(plan, w).windows;
  }

  lemma AddWindowUsesEveryKey(plan: CheckPlan, w: Window, i: nat)
    requires WellFormed(plan) && i < |AddWindow(plan, w).sizes|
    ensures NeedsAllItsRetention(AddWindow(plan, w), i)
  {
    var r := AddWindow(plan, w);
    if i < |plan.sizes| && r.retentions[i] == plan.retentions[i] {
      RetentionStaysNeeded(plan, w, i);
    } else {
      assert r.windows[Slot(plan, w)] in r.windows;
    }
  }

  lemma AddWindowRetainsEverySpan(plan: CheckPlan, w: Window, j: nat)
    requires WellFormed(plan) && j < |AddWindow(plan, w).windows|
    ensures var r := AddWindow(plan, w); r.windows[j].span <= r.retentions[r.windows[j].keyIndex]
  {
    AddWindowTouchesOneSlot(plan, w);
    if j < |plan.windows| {
      assert plan.windows[j] in plan.windows;
    }
  }

  lemma AddWindowStaysWellFormed(plan: CheckPlan, w: Window)
    requires WellFormed(plan)
    ensures WellFormed(AddWindow(plan, w))
  {
    AddWindowTouchesOneSlot(plan, w);
    var r := AddWindow(plan, w);
    forall i | 0 <= i < |r.sizes|
      ensures NeedsAllItsRetention(r, i)
    {
      AddWindowUsesEveryKey(plan, w, i);
    }
    forall j | 0 <= j < |r.windows|
      ensures r.windows[j].span <= r.retentions[r.windows[j].keyIndex]
    {
      AddWindowRetainsEverySpan(plan, w, j);
    }
  }

  lemma AddWindowCovers(plan: CheckPlan, windows: seq<Window>, w: Window)
    requires WellFormed(plan) && Covers(plan, windows)
    ensures Covers(AddWindow(plan, w), windows + [w])
  {
    AddWindowTouchesOneSlot(plan, w);
    var r := AddWindow(plan, w);
    var answering := r.windows[Slot(plan, w)];
    forall v | v in windows + [w]
      ensures exists p :: Enforces(r, p, v) && p.limit <= v.count
    {
      if v in windows {
        var p :| Enforces(plan, p, v) && p.limit <= v.count;
        var j :| 0 <= j < |plan.windows| && plan.windows[j] == p;
        assert Enforces(r, r.windows[j], v);
      } else {
        assert Enforces(r, answering, v);
      }
    }
  }

  lemma AddWindowIsFaithful(plan: CheckPlan, windows: seq<Window>, w: Window)
    requires WellFormed(plan) && Faithful(plan, windows)
    ensures Faithful(AddWindow(plan, w), windows + [w])
  {
    AddWindowTouchesOneSlot(plan, w);
    var r := AddWindow(plan, w);
    forall p | p in r.windows
      ensures exists v :: v in windows + [w] && Enforces(r, p, v) && p.limit == v.count
    {
      var j :| 0 <= j < |r.windows| && r.windows[j] == p;
      if j < |plan.windows| && plan.windows[j].limit == p.limit {
        var v :| v in windows && Enforces(plan, plan.windows[j], v) && p.limit == v.count;
        assert v in windows + [w] && Enforces(r, p, v);
      } else {
        assert w in windows + [w] && Enforces(r, p, w);
      }
    }
  }

  lemma PlanOfAppended(windows: seq<Window>, w: Window)
    ensures PlanOf(windows + [w]) == AddWindow(PlanOf(windows), w)
  {
    assert (windows + [w])[..|windows|] == windows;
  }

  lemma {:induction false} PlanIsWellFormed(windows: seq<Window>)
    ensures WellFormed(PlanOf(windows))
  {
    if windows != [] {
      PlanIsWellFormed(windows[..|windows| - 1]);
      AddWindowStaysWellFormed(PlanOf(windows[..|windows| - 1]), windows[|windows| - 1]);
    }
  }

  lemma {:induction false} PlanCoversItsWindows(windows: seq<Window>)
    ensures Covers(PlanOf(windows), windows)
  {
    if windows != [] {
      var init, last := windows[..|windows| - 1], windows[|windows| - 1];
      assert windows == init + [last];
      PlanIsWellFormed(init);
      PlanCoversItsWindows(init);
      AddWindowCovers(PlanOf(init), init, last);
      PlanOfAppended(init, last);
    }
  }

  lemma {:induction false} PlanIsFaithful(windows: seq<Window>)
    ensures Faithful(PlanOf(windows), windows)
  {
    if windows != [] {
      var init, last := windows[..|windows| - 1], windows[|windows| - 1];
      assert windows == init + [last];
      PlanIsWellFormed(init);
      PlanIsFaithful(init);
      AddWindowIsFaithful(PlanOf(init), init, last);
      PlanOfAppended(init, last);
    }
  }

  /** A plan has one window for each span, at the strictest of the limits configured for it. */
  ghost predicate Strictest(plan: CheckPlan, windows: seq<Window>) {
    && (forall p, w :: p in plan.windows && w in windows && w.secs == p.span ==> p.limit <= w.count)
    && (forall i, j :: 0 <= i < j < |plan.windows| ==> plan.windows[i].span != plan.windows[j].span)
  }

  lemma SameSpanSameWindow(plan: CheckPlan, windows: seq<Window>, p: PlannedWindow, q: PlannedWindow)
    requires WellFormed(plan) && Faithful(plan, windows)
    requires p in plan.windows && q in plan.windows && p.span == q.span
    ensures p == q && p.keyIndex == q.keyIndex
  {
    var v :| v in windows && Enforces(plan, p, v) && p.limit == v.count;
    var w :| w in windows && Enforces(plan, q, w) && q.limit == w.count;
    assert p.keyIndex == q.keyIndex;
  }

  lemma SpansAreDistinct(plan: CheckPlan, windows: seq<Window>)
    requires WellFormed(plan) && Faithful(plan, windows)
    ensures forall i, j :: 0 <= i < j < |plan.windows| ==> plan.windows[i].span != plan.windows[j].span
  {
    forall i, j | 0 <= i < j < |plan.windows|
      ensures plan.windows[i].span != plan.windows[j].span
    {
      if plan.windows[i].span == plan.windows[j].span {
        SameSpanSameWindow(plan, windows, plan.windows[i], plan.windows[j]);
      }
    }
  }

  lemma EnforcerOf(windows: seq<Window>, w: Window) returns (p: PlannedWindow)
    requires w in windows
    ensures Enforces(PlanOf(windows), p, w) && p.limit <= w.count
  {
    PlanCoversItsWindows(windows);
    p :| Enforces(PlanOf(windows), p, w) && p.limit <= w.count;
  }

  /** Windows of equal duration collapse into one, at the smallest count. */
  lemma EqualSpansCollapse(windows: seq<Window>)
    ensures Strictest(PlanOf(windows), windows)
  {
    var plan := PlanOf(windows);
    PlanIsWellFormed(windows);
    PlanIsFaithful(windows);
    SpansAreDistinct(plan, windows);
    forall p, w | p in plan.windows && w in windows && w.secs == p.span
      ensures p.limit <= w.count
    {
      var q := EnforcerOf(windows, w);
      SameSpanSameWindow(plan, windows, p, q);
    }
  }

  // ---------- what a plan means ----------

  /** How many recipients a window of the given bucket size and span counts at some moment. */
  type Counter = (Size, nat) -> nat

  /** The verdict of a plan: every planned window has room for `count` more. */
  ghost predicate PlanAllows(plan: CheckPlan, counted: Counter, count: nat)
    requires Indexed(plan)
  {
    forall p :: p in plan.windows ==> counted(plan.sizes[p.keyIndex], p.span) + count <= p.limit
  }

  /** Window `w` alone, with a bucket size of its own, has room for `count` more. */
  ghost predicate WindowAllows(w: Window, counted: Counter, count: nat) {
    counted(BucketSize(w.secs), w.secs) + count <= w.count
  }

  lemma PlanAllowsOnlyWhatWindowsAllow(windows: seq<Window>, counted: Counter, count: nat)
    requires PlanAllows(PlanOf(windows), counted, count)
    ensures forall w :: w in windows ==> WindowAllows(w, counted, count)
  {
    PlanCoversItsWindows(windows);
    forall w | w in windows
      ensures WindowAllows(w, counted, count)
    {
      var p :| Enforces(PlanOf(windows), p, w) && p.limit <= w.count;
    }
  }

  lemma PlanAllowsAllThatWindowsAllow(windows: seq<Window>, counted: Counter, count: nat)
    requires forall w :: w in windows ==> WindowAllows(w, counted, count)
    ensures PlanAllows(PlanOf(windows), counted, count)
  {
    var plan := PlanOf(windows);
    PlanIsFaithful(windows);
    forall p | p in plan.windows
      ensures counted(plan.sizes[p.keyIndex], p.span) + count <= p.limit
    {
      var w :| w in windows && Enforces(plan, p, w) && p.limit == w.count;
      assert WindowAllows(w, counted, count);
    }
  }

  /** Grouping, merging and collapsing windows never changes a verdict. */
  lemma PlanningPreservesMeaning(windows: seq<Window>, counted: Counter, count: nat)
    ensures PlanAllows(PlanOf(windows), counted, count)
        <==> forall w :: w in windows ==> WindowAllows(w, counted, count)
  {
    if PlanAllows(PlanOf(windows), counted, count) {
      PlanAllowsOnlyWhatWindowsAllow(windows, counted, count);
    }
    if forall w :: w in windows ==> WindowAllows(w, counted, count) {
      PlanAllowsAllThatWindowsAllow(windows, counted, count);
    }
  }

  /** Neither the order nor the repetition of windows matters. */
  lemma VerdictIgnoresOrderAndDuplicates(a: seq<Window>, b: seq<Window>, counted: Counter, count: nat)
    requires forall w :: w in a <==> w in b
    ensures PlanAllows(PlanOf(a), counted, count) <==> PlanAllows(PlanOf(b), counted, count)
  {
    PlanningPreservesMeaning(a, counted, count);
    PlanningPreservesMeaning(b, counted, count);
  }

  /** Only the rule without windows plans no keys. */
  lemma OnlyNoWindowsPlansNoKeys(windows: seq<Window>)
    ensures PlanOf(windows).sizes == [] <==> windows == []
  {
    if windows != [] {
      PlanCoversItsWindows(windows);
      var w := windows[0];
      assert w in windows;
      var p :| Enforces(PlanOf(windows), p, w);
    }
  }

  /**
   For valid windows each key keeps at least 50 and fewer than 100 buckets' worth of history.
   */
  lemma RetentionIsWithinAHundredBuckets(windows: seq<Window>, i: nat)
    requires ValidWindows(windows)
    requires i < |PlanOf(windows).sizes|
    ensures var plan := PlanOf(windows);
            50 * plan.sizes[i] <= plan.retentions[i] < 100 * plan.sizes[i]
  {
    var plan := PlanOf(windows);
    PlanIsWellFormed(windows);
    PlanIsFaithful(windows);
    assert NeedsAllItsRetention(plan, i);
    var p :| p in plan.windows && p.keyIndex == i && p.span == plan.retentions[i];
    var w :| w in windows && Enforces(plan, p, w) && p.limit == w.count;
    ValidDurationsSpanFiftyToAHundredBuckets(w.secs);
  }
}
