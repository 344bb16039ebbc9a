/**
 The periodic statistics and throttled logging (src/bin/postfix-ratelimitd.rs): counters that handlers
 increment and the reporter swaps to zero, one atomic operation at a time and in any interleaving.
 */
module Statistics {
  // Occurrences logged in full before the rest of an interval is suppressed.
  const LOG_SUPPRESSION_LIMIT: nat := 5

  datatype Counter =
    | Accepted | Rejected | FailedDeferred | FailedPermitted | Unauthenticated | Malformed | Misconfigured
    | ConnectionsAccepted | ConnectionsRejected | AcceptErrors

  datatype LogLine = NoLine | FullLine | SuppressionNotice

  /** What `log_throttled` writes when the counter stood at `previous`. */
  function ThrottledLine(previous: nat): LogLine {
    if previous < LOG_SUPPRESSION_LIMIT then FullLine
    else if previous == LOG_SUPPRESSION_LIMIT then SuppressionNotice
    else NoLine
  }

  type Counts = map<Counter, nat>

  function Of(counts: Counts, c: Counter): nat {
    if c in counts then counts[c] else 0
  }

  function Incremented(counts: Counts, c: Counter): Counts {
    counts[c := Of(counts, c) + 1]
  }

  /** The daemon's counters. */
  class Stats {
    var counts: Counts

    constructor ()
      ensures counts == map[]
    {
      counts := map[];
    }

    method FetchAdd(c: Counter) returns (previous: nat)
      modifies this
      ensures previous == Of(old(counts), c) && counts == Incremented(old(counts), c)
    {
      previous := Of(counts, c);
      counts := Incremented(counts, c);
    }

    method Swap(c: Counter) returns (previous: nat)
      modifies this
      ensures previous == Of(old(counts), c) && counts == old(counts)[c := 0]
    {
      previous := Of(counts, c);
      counts := counts[c := 0];
    }

    /** `log_throttled`. */
    method LogThrottled(c: Counter) returns (line: LogLine)
      modifies this
      ensures counts == Incremented(old(counts), c) && line == ThrottledLine(Of(old(counts), c))
    {
      var previous := FetchAdd(c);
      if previous < LOG_SUPPRESSION_LIMIT {
        line := FullLine;
      } else if previous == LOG_SUPPRESSION_LIMIT {
        line := SuppressionNotice;
      } else {
        line := NoLine;
      }
    }

    /** `report_stats`, with no occurrence in between: every counter is printed as it stood, and all start over. */
    method ReportStats() returns (printed: seq<nat>)
      modifies this
      ensures printed == [Of(old(counts), Accepted), Of(old(counts), Rejected), Of(old(counts), FailedDeferred),
                          Of(old(counts), FailedPermitted), Of(old(counts), Unauthenticated),
                          Of(old(counts), Malformed), Of(old(counts), ConnectionsAccepted),
                          Of(old(counts), ConnectionsRejected), Of(old(counts), AcceptErrors)]
      ensures forall c :: Of(counts, c) == 0
    {
      printed := [];
      for i := 0 to |PRINTED|
        invariant |printed| == i && forall k :: 0 <= k < i ==> printed[k] == Of(old(counts), PRINTED[k])
        invariant forall c :: Of(counts, c) == if c in PRINTED[..i] then 0 else Of(old(counts), c)
      {
        PrintedOnce(i);
        var previous := Swap(PRINTED[i]);
        printed := printed + [previous];
        assert PRINTED[..i + 1] == PRINTED[..i] + [PRINTED[i]];
      }
      var _ := Swap(Misconfigured);
      forall c
        ensures Of(counts, c) == 0
      {
        AllButMisconfiguredArePrinted(c);
      }
    }
  }

  /** The counters that the statistics line prints, in its order; the other is only reset. */
  const PRINTED := [Accepted, Rejected, FailedDeferred, FailedPermitted, Unauthenticated, Malformed,
                    ConnectionsAccepted, ConnectionsRejected, AcceptErrors]

  lemma PrintedOnce(i: nat)
    requires i < |PRINTED|
    ensures PRINTED[i] !in PRINTED[..i]
  {
  }

  lemma AllButMisconfiguredArePrinted(c: Counter)
    ensures c == Misconfigured || c in PRINTED[..|PRINTED|]
  {
    assert PRINTED[..|PRINTED|] == PRINTED;
    match c {
      case Accepted => assert PRINTED[0] == c;
      case Rejected => assert PRINTED[1] == c;
      case FailedDeferred => assert PRINTED[2] == c;
      case FailedPermitted => assert PRINTED[3] == c;
      case Unauthenticated => assert PRINTED[4] == c;
      case Malformed => assert PRINTED[5] == c;
      case ConnectionsAccepted => assert PRINTED[6] == c;
      case ConnectionsRejected => assert PRINTED[7] == c;
      case AcceptErrors => assert PRINTED[8] == c;
      case Misconfigured =>
    }
  }

  // ---------- whole runs ----------

  /** An occurrence, logged through the throttle or not, or a report reaching one counter. */
  datatype Event = Hit(counter: Counter, throttled: bool) | Report(counter: Counter)

  /** What one interval of one counter came to. */
  datatype Interval = Interval(total: nat, lines: nat, notices: nat)

  /** One counter's story: the reports made, the lines of the interval under way, and the value itself. */
  datatype Story = Story(reports: seq<Interval>, value: nat, lines: nat, notices: nat)

  function Told(events: seq<Event>, c: Counter): Story {
    if events == [] then Story([], 0, 0, 0)
    else
      var s, e := Told(events[..|events| - 1], c), events[|events| - 1];
      if e.counter != c then s
      else match e
        case Report(_) => Story(s.reports + [Interval(s.value, s.lines, s.notices)], 0, 0, 0)
        case Hit(_, throttled) =>
          var line := if throttled then ThrottledLine(s.value) else NoLine;
          s.(value := s.value + 1,
             lines := s.lines + if line == FullLine then 1 else 0,
             notices := s.notices + if line == SuppressionNotice then 1 else 0)
  }

  /** The counter's value after the same events, as the class computes it. */
  function ValuesAfter(events: seq<Event>): Counts {
    if events == [] then map[]
    else
      var counts, e := ValuesAfter(events[..|events| - 1]), events[|events| - 1];
      if e.Hit? then Incremented(counts, e.counter) else counts[e.counter := 0]
  }

  function Hits(events: seq<Event>, c: Counter): nat {
    if events == [] then 0
    else
      var e := events[|events| - 1];
      Hits(events[..|events| - 1], c) + if e.Hit? && e.counter == c then 1 else 0
  }

  function Reported(reports: seq<Interval>): nat {
    if reports == [] then 0 else Reported(reports[..|reports| - 1]) + reports[|reports| - 1].total
  }

  lemma ReportedGrows(reports: seq<Interval>, i: Interval)
    ensures Reported(reports + [i]) == Reported(reports) + i.total
  {
    assert (reports + [i])[..|reports|] == reports;
  }

  lemma {:induction false} ToldValueIsTheCounter(events: seq<Event>, c: Counter)
    ensures Told(events, c).value == Of(ValuesAfter(events), c)
  {
    if events != [] {
      ToldValueIsTheCounter(events[..|events| - 1], c);
    }
  }

  /** Nothing is lost or counted twice: what was reported and what is left add up to what happened. */
  lemma {:induction false} ReportsConserveEvents(events: seq<Event>, c: Counter)
    ensures Reported(Told(events, c).reports) + Of(ValuesAfter(events), c) == Hits(events, c)
  {
    ToldValueIsTheCounter(events, c);
    if events != [] {
      var s := Told(events[..|events| - 1], c);
      ReportsConserveEvents(events[..|events| - 1], c);
      ToldValueIsTheCounter(events[..|events| - 1], c);
      ReportedGrows(s.reports, Interval(s.value, s.lines, s.notices));
    }
  }

  /** Events on other counters do not matter. */
  ghost predicate AlwaysThrottled(events: seq<Event>, c: Counter) {
    forall e :: e in events && e.Hit? && e.counter == c ==> e.throttled
  }

  /** An interval of `total` throttled occurrences logs the first five, then one notice, then nothing. */
  predicate LoggedRight(total: nat, lines: nat, notices: nat) {
    && lines == (if total < 5 then total else 5)
    && notices == (if total > 5 then 1 else 0)
  }

  lemma {:induction false} IntervalsAreLoggedRight(events: seq<Event>, c: Counter)
    requires AlwaysThrottled(events, c)
    ensures forall i :: i in Told(events, c).reports ==> LoggedRight(i.total, i.lines, i.notices)
    ensures var s := Told(events, c); LoggedRight(s.value, s.lines, s.notices)
  {
    if events != [] {
      assert events[|events| - 1] in events;
      IntervalsAreLoggedRight(events[..|events| - 1], c);
    }
  }
}
