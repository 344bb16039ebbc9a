/**
 Reloading on SIGHUP (src/bin/postfix-ratelimitd.rs): the main loop's handler and the reload worker,
 sharing a counter and a flag. Every atomic operation is a step of its own, and steps interleave freely.
 */
module Reload {
  import opened Wrappers
  import opened Config

  // ---------- one reload ----------

  /** What a limiter was built for. */
  datatype LimiterSettings = LimiterSettings(redis: RedisSettings, keyPrefix: string)

  /** A configuration and its limiter, published together. */
  datatype RuntimeState = RuntimeState(config: Config, limiter: LimiterSettings)

  /** `same_redis_connection`. */
  predicate SameConnection(a: RedisSettings, b: RedisSettings) {
    a.addr == b.addr && a.db == b.db && a.username == b.username && a.password == b.password
    && a.protocol == b.protocol
  }

  /** The limiter connects where the configuration says, as whom it says, and writes under its prefix. */
  predicate Paired(state: RuntimeState) {
    var built, wanted := state.limiter.redis, state.config.server.redis;
    && built.addr == wanted.addr
    && built.db == wanted.db
    && built.username == wanted.username
    && built.password == wanted.password
    && built.protocol == wanted.protocol
    && state.limiter.keyPrefix == state.config.server.keyPrefix
  }

  /**
   What one reload publishes, if anything: `current` is the state it started from, `loaded` what the file
   then held, and `connects` whether a new limiter could be built where one is needed.
   */
  function Publication(current: RuntimeState, loaded: Result<Config, ConfigError>, connects: bool)
    : Option<RuntimeState>
  {
    match loaded
    case Err(_) => None
    case Ok(config) =>
      var before, after := current.config.server, config.server;
      if after.socket != before.socket || after.controlSocket != before.controlSocket then None
      else if !SameConnection(after.redis, before.redis) || after.keyPrefix != before.keyPrefix then
        if connects then Some(RuntimeState(config, LimiterSettings(after.redis, after.keyPrefix))) else None
      else Some(RuntimeState(config, current.limiter))
  }

  /** Published states keep the sockets bound at startup, and each pairs a configuration with its own limiter. */
  predicate Sound(startup: RuntimeState, state: RuntimeState) {
    && Paired(state)
    && state.config.server.socket == startup.config.server.socket
    && state.config.server.controlSocket == startup.config.server.controlSocket
  }

  lemma PublicationIsSound(startup: RuntimeState, current: RuntimeState, loaded: Result<Config, ConfigError>,
                           connects: bool)
    requires Sound(startup, current) && Publication(current, loaded, connects).Some?
    ensures Sound(startup, Publication(current, loaded, connects).value)
    ensures loaded == Ok(Publication(current, loaded, connects).value.config)
  {
  }

  /** Something that a limiter is built from differs: where it connects, as whom, or the prefix of its keys. */
  predicate NeedsOtherLimiter(before: Server, after: Server) {
    || before.redis.addr != after.redis.addr
    || before.redis.db != after.redis.db
    || before.redis.username != after.redis.username
    || before.redis.password != after.redis.password
    || before.redis.protocol != after.redis.protocol
    || before.keyPrefix != after.keyPrefix
  }

  /**
   What a reload comes to, setting by setting. A file that moves a socket, or whose redis settings need a limiter
   that cannot be built, is refused; otherwise it takes effect, with the running limiter if that still serves it
   and a new one if not. A file that does not load changes nothing.
   */
  lemma ReloadsAsWritten(current: RuntimeState, config: Config, connects: bool, error: ConfigError)
    ensures Publication(current, Err(error), connects) == None
    ensures var before, after := current.config.server, config.server;
            && var moved := after.socket != before.socket || after.controlSocket != before.controlSocket;
            && var limiter := if NeedsOtherLimiter(before, after) then LimiterSettings(after.redis, after.keyPrefix)
                              else current.limiter;
            && Publication(current, Ok(config), connects)
            == if moved || (NeedsOtherLimiter(before, after) && !connects) then None
               else Some(RuntimeState(config, limiter))
  {
  }

  /**
   A loaded configuration is refused exactly when no sound state could hold it: it moves a socket, or the
   running limiter does not serve it and no other could be built.
   */
  lemma RefusalIsJustified(startup: RuntimeState, current: RuntimeState, config: Config, connects: bool)
    requires Sound(startup, current)
    ensures Publication(current, Ok(config), connects).None?
        <==> forall limiter :: Sound(startup, RuntimeState(config, limiter)) ==> !connects && limiter != current.limiter
  {
    var rebuilt := LimiterSettings(config.server.redis, config.server.keyPrefix);
    assert Paired(RuntimeState(config, rebuilt));
    if Publication(current, Ok(config), connects).Some? {
      assert Sound(startup, RuntimeState(config, Publication(current, Ok(config), connects).value.limiter));
    }
  }

  // ---------- the interleaving ----------

  /** The main loop's SIGHUP branch, between its atomic operations. */
  datatype Handler =
    | Idle
    | Counted       // the request is counted; the flag is not yet swapped
    | Spawning      // the flag was clear and is now set; the worker is not yet running

  /** Where a worker stands. `generation` is the request count its current pass started from. */
  datatype Pc =
    | Loading
    | Snapshotting(generation: nat)
    | Reloading(generation: nat, current: RuntimeState)
    | Comparing(generation: nat)
    | Clearing      // the final comparison is done; the flag is not yet cleared

  datatype Worker = Worker(pc: Pc, passes: nat, spawnedAt: nat)

  /**
   The shared state. The last three fields are history: how many requests had been counted when the latest
   pass started, which requests were handled entirely between a worker's final comparison and its clearing
   of the flag, and whether the request being handled was counted there.
   */
  datatype State = State(
    requests: nat, inProgress: bool, handler: Handler, workers: seq<Worker>, published: RuntimeState,
    served: nat, gap: set<nat>, countedInGap: bool)

  datatype Event =
    | CountRequest
    | SwapFlag
    | Spawn
    | LoadGeneration(i: nat)
    | Snapshot(i: nat)
    | FinishReload(i: nat, loaded: Result<Config, ConfigError>, connects: bool)
    | Compare(i: nat)
    | ClearFlag(i: nat)

  function Start(startup: RuntimeState): State {
    State(0, false, Idle, [], startup, 0, {}, false)
  }

  predicate InGap(s: State) {
    exists w :: w in s.workers && w.pc == Clearing
  }

  predicate Enabled(s: State, e: Event) {
    match e
    case CountRequest => s.handler == Idle
    case SwapFlag => s.handler == Counted
    case Spawn => s.handler == Spawning
    case LoadGeneration(i) => i < |s.workers| && s.workers[i].pc == Loading
    case Snapshot(i) => i < |s.workers| && s.workers[i].pc.Snapshotting?
    case FinishReload(i, _, _) => i < |s.workers| && s.workers[i].pc.Reloading?
    case Compare(i) => i < |s.workers| && s.workers[i].pc.Comparing?
    case ClearFlag(i) => i < |s.workers| && s.workers[i].pc == Clearing
  }

  function MoveTo(s: State, i: nat, pc: Pc): State
    requires i < |s.workers|
  {
    s.(workers := s.workers[i := s.workers[i].(pc := pc)])
  }

  function Next(s: State, e: Event): State
    requires Enabled(s, e)
  {
    match e
    case CountRequest => s.(requests := s.requests + 1, handler := Counted, countedInGap := InGap(s))
    case SwapFlag =>
      if s.inProgress
      then s.(handler := Idle, gap := if s.countedInGap && InGap(s) then s.gap + {s.requests} else s.gap)
      else s.(inProgress := true, handler := Spawning)
    case Spawn => s.(handler := Idle, workers := s.workers + [Worker(Loading, 0, s.requests)])
    case LoadGeneration(i) =>
      var w := s.workers[i];
      s.(workers := s.workers[i := Worker(Snapshotting(s.requests), w.passes + 1, w.spawnedAt)], served := s.requests)
    case Snapshot(i) => MoveTo(s, i, Reloading(s.workers[i].pc.generation, s.published))
    case FinishReload(i, loaded, connects) =>
      var pc := s.workers[i].pc;
      var published := Publication(pc.current, loaded, connects);
      MoveTo(s.(published := if published.Some? then published.value else s.published), i, Comparing(pc.generation))
    case Compare(i) => MoveTo(s, i, if s.requests == s.workers[i].pc.generation then Clearing else Loading)
    case ClearFlag(i) => s.(inProgress := false, workers := s.workers[..i] + s.workers[i + 1..])
  }

  /** The state after a sequence of events, if each is enabled in its turn. */
  function After(startup: RuntimeState, events: seq<Event>): Option<State> {
    if events == [] then Some(Start(startup))
    else match After(startup, events[..|events| - 1])
      case None => None
      case Some(s) =>
        var e := events[|events| - 1];
        if Enabled(s, e) then Some(Next(s, e)) else None
  }

  // ---------- the invariant ----------

  /** The flag counts the workers, running or about to run. */
  predicate FlagCountsWorkers(s: State) {
    |s.workers| + (if s.handler == Spawning then 1 else 0) == if s.inProgress then 1 else 0
  }

  /** A pass is under way or certain to start. */
  predicate PassAhead(s: State) {
    s.handler == Spawning || exists w :: w in s.workers && w.pc != Clearing
  }

  /** Where no pass lies ahead, an unserved request was handled in the gap or is still being handled. */
  predicate UnservedAreInGap(s: State) {
    forall k :: s.served < k <= s.requests ==>
      k in s.gap || PassAhead(s) || (k == s.requests && s.handler == Counted && (s.inProgress ==> s.countedInGap))
  }

  predicate GapIsHistory(s: State) {
    && s.served <= s.requests
    && (forall k :: k in s.gap ==> 0 < k <= s.requests)
    && (s.handler == Counted ==> s.requests > 0 && s.requests !in s.gap)
    && (s.handler == Counted && s.countedInGap ==> s.served < s.requests && !PassAhead(s))
    && (PassAhead(s) ==> s.requests !in s.gap)
    && s.served !in s.gap
  }

  predicate WorkerIsSound(s: State, w: Worker) {
    match w.pc
    case Loading => w.passes <= s.requests - w.spawnedAt
    case Snapshotting(g) => w.passes <= 1 + g - w.spawnedAt && g == s.served
    case Reloading(g, current) => w.passes <= 1 + g - w.spawnedAt && g == s.served && current == s.published
    case Comparing(g) => w.passes <= 1 + g - w.spawnedAt && g == s.served
    case Clearing => w.passes <= 1 + s.served - w.spawnedAt
  }

  predicate Inv(startup: RuntimeState, s: State) {
    && FlagCountsWorkers(s)
    && GapIsHistory(s)
    && UnservedAreInGap(s)
    && (forall w :: w in s.workers ==> WorkerIsSound(s, w))
    && Sound(startup, s.published)
  }

  /** The handler's steps keep the invariant. */
  lemma HandlerKeepsInv(startup: RuntimeState, s: State, e: Event)
    requires Inv(startup, s) && Enabled(s, e) && (e == CountRequest || e == SwapFlag || e == Spawn)
    ensures Inv(startup, Next(s, e))
  {
    if s.workers != [] {
      assert s.workers[0] in s.workers;
    }
    if e == Spawn {
      assert Next(s, e).workers[0] in Next(s, e).workers;
    }
  }

  predicate WithinPass(e: Event) {
    e.LoadGeneration? || e.Snapshot? || e.FinishReload?
  }

  /** A worker's steps within a pass keep the invariant. */
  lemma PassKeepsInv(startup: RuntimeState, s: State, e: Event)
    requires Inv(startup, s) && Enabled(s, e) && WithinPass(e)
    ensures Inv(startup, Next(s, e))
  {
    assert s.workers[0] in s.workers;
    assert s.workers == [s.workers[0]];
    assert Next(s, e).workers == [Next(s, e).workers[0]];
    assert Next(s, e).workers[0] in Next(s, e).workers;
    if e.FinishReload? && Publication(s.workers[0].pc.current, e.loaded, e.connects).Some? {
      PublicationIsSound(startup, s.published, e.loaded, e.connects);
    }
  }

  /** The comparison that ends a pass, and the clearing of the flag, keep the invariant. */
  lemma EndOfPassKeepsInv(startup: RuntimeState, s: State, e: Event)
    requires Inv(startup, s) && Enabled(s, e) && (e.Compare? || e.ClearFlag?)
    ensures Inv(startup, Next(s, e))
  {
    assert s.workers[0] in s.workers;
    assert s.workers == [s.workers[0]];
    if e.Compare? {
      assert Next(s, e).workers == [Next(s, e).workers[0]];
      assert Next(s, e).workers[0] in Next(s, e).workers;
    }
  }

  lemma {:induction false} InvHolds(startup: RuntimeState, events: seq<Event>)
    requires Paired(startup) && After(startup, events).Some?
    ensures Inv(startup, After(startup, events).value)
  {
    if events != [] {
      InvHolds(startup, events[..|events| - 1]);
      var s, e := After(startup, events[..|events| - 1]).value, events[|events| - 1];
      if e == CountRequest || e == SwapFlag || e == Spawn {
        HandlerKeepsInv(startup, s, e);
      } else if WithinPass(e) {
        PassKeepsInv(startup, s, e);
      } else {
        EndOfPassKeepsInv(startup, s, e);
      }
    }
  }

  // ---------- what every interleaving guarantees ----------

  /** At most one worker exists, and only while the flag is set. */
  lemma AtMostOneWorker(startup: RuntimeState, events: seq<Event>)
    requires Paired(startup) && After(startup, events).Some?
    ensures var s := After(startup, events).value;
            |s.workers| <= 1 && (s.workers != [] ==> s.inProgress)
  {
    InvHolds(startup, events);
  }

  /** A worker makes at most one pass more than the requests that arrive while it runs. */
  lemma PassesAreBounded(startup: RuntimeState, events: seq<Event>, w: Worker)
    requires Paired(startup) && After(startup, events).Some? && w in After(startup, events).value.workers
    ensures w.passes <= 1 + After(startup, events).value.requests - w.spawnedAt
  {
    InvHolds(startup, events);
  }

  /**
   In every published state the limiter connects where the configuration says, as whom it says, and writes
   under its prefix; the sockets are those of startup. No reload ever overwrites a newer state than the one
   it started from.
   */
  lemma PublishedStatesAreSound(startup: RuntimeState, events: seq<Event>)
    requires Paired(startup) && After(startup, events).Some?
    ensures var s := After(startup, events).value;
            var built, server := s.published.limiter, s.published.config.server;
            && built.redis.addr == server.redis.addr
            && built.redis.db == server.redis.db
            && built.redis.username == server.redis.username
            && built.redis.password == server.redis.password
            && built.redis.protocol == server.redis.protocol
            && built.keyPrefix == server.keyPrefix
            && server.socket == startup.config.server.socket
            && server.controlSocket == startup.config.server.controlSocket
            && forall w :: w in s.workers && w.pc.Reloading? ==> w.pc.current == s.published
  {
    InvHolds(startup, events);
  }

  /**
   A reload that ends with a loaded configuration is refused exactly when it moves a socket bound at startup,
   or differs from the published state in what a limiter is built from and no limiter could be built.
   Otherwise its configuration is published, and the limiter is replaced exactly when it has to be.
   */
  lemma ReloadsTakeEffect(startup: RuntimeState, events: seq<Event>, i: nat, config: Config, connects: bool)
    requires Paired(startup)
    requires After(startup, events).Some? && Enabled(After(startup, events).value, FinishReload(i, Ok(config), connects))
    ensures var before, server := After(startup, events).value.published, config.server;
            && var moved := server.socket != startup.config.server.socket
                            || server.controlSocket != startup.config.server.controlSocket;
            && var other := NeedsOtherLimiter(before.config.server, server);
            && var limiter := if other then LimiterSettings(server.redis, server.keyPrefix) else before.limiter;
            && Next(After(startup, events).value, FinishReload(i, Ok(config), connects)).published
            == if moved || (other && !connects) then before else RuntimeState(config, limiter)
  {
    InvHolds(startup, events);
    var s := After(startup, events).value;
    assert s.workers[i] in s.workers;
    ReloadsAsWritten(s.published, config, connects, DefaultCount(0));
  }

  /** Nothing else is ever published. */
  lemma OnlyReloadsPublish(startup: RuntimeState, events: seq<Event>, e: Event)
    requires Paired(startup) && After(startup, events).Some? && Enabled(After(startup, events).value, e)
    requires !(e.FinishReload? && e.loaded.Ok?)
    ensures Next(After(startup, events).value, e).published == After(startup, events).value.published
  {
    InvHolds(startup, events);
  }

  /** At every moment, a request not served by a pass awaits one, is still being handled, or fell into the gap. */
  lemma UnservedRequestsAwaitAPass(startup: RuntimeState, events: seq<Event>, k: nat)
    requires Paired(startup) && After(startup, events).Some?
    requires After(startup, events).value.served < k <= After(startup, events).value.requests
    ensures var s := After(startup, events).value;
            PassAhead(s) || (k == s.requests && s.handler == Counted) || k in s.gap
  {
    InvHolds(startup, events);
  }

  predicate Quiescent(s: State) {
    s.handler == Idle && s.workers == []
  }

  /**
   Once things have settled, request `k` has had no reload pass start after it exactly when it and every
   request since were handled entirely between a worker's final comparison and its clearing of the flag.
   That gap is the one exception to the intent that no SIGHUP is lost.
   */
  lemma MissedExactlyInTheGap(startup: RuntimeState, events: seq<Event>, k: nat)
    requires Paired(startup) && After(startup, events).Some? && Quiescent(After(startup, events).value)
    requires 0 < k <= After(startup, events).value.requests
    ensures var s := After(startup, events).value;
            s.served < k <==> forall j :: k <= j <= s.requests ==> j in s.gap
  {
    InvHolds(startup, events);
  }

  lemma OneMore(startup: RuntimeState, events: seq<Event>, s: State, e: Event)
    requires After(startup, events) == Some(s) && Enabled(s, e)
    ensures After(startup, events + [e]) == Some(Next(s, e))
  {
    assert (events + [e])[..|events|] == events;
  }

  /** One SIGHUP, handled by one worker that has made its only pass and has yet to clear the flag. */
  lemma AWorkerReachesTheGap(startup: RuntimeState) returns (events: seq<Event>)
    ensures After(startup, events) == Some(State(1, true, Idle, [Worker(Clearing, 1, 1)], startup, 1, {}, false))
  {
    var failed: Result<Config, ConfigError> := Err(DefaultCount(0));
    var s := Start(startup);
    events := [];
    OneMore(startup, events, s, CountRequest);
    s, events := Next(s, CountRequest), events + [CountRequest];
    OneMore(startup, events, s, SwapFlag);
    s, events := Next(s, SwapFlag), events + [SwapFlag];
    OneMore(startup, events, s, Spawn);
    s, events := Next(s, Spawn), events + [Spawn];
    OneMore(startup, events, s, LoadGeneration(0));
    s, events := Next(s, LoadGeneration(0)), events + [LoadGeneration(0)];
    OneMore(startup, events, s, Snapshot(0));
    s, events := Next(s, Snapshot(0)), events + [Snapshot(0)];
    OneMore(startup, events, s, FinishReload(0, failed, false));
    s, events := Next(s, FinishReload(0, failed, false)), events + [FinishReload(0, failed, false)];
    assert s.workers == [Worker(Comparing(1), 1, 1)];
    OneMore(startup, events, s, Compare(0));
    assert Next(s, Compare(0)).workers == [Worker(Clearing, 1, 1)];
    events := events + [Compare(0)];
  }

  /** The gap is real: there is a run in which a second SIGHUP is counted and no pass ever starts after it. */
  lemma ASighupCanBeLost(startup: RuntimeState) returns (events: seq<Event>)
    ensures var s := After(startup, events);
            s.Some? && Quiescent(s.value) && s.value.requests == 2 && s.value.served == 1
  {
    events := AWorkerReachesTheGap(startup);
    var s := State(1, true, Idle, [Worker(Clearing, 1, 1)], startup, 1, {}, false);
    OneMore(startup, events, s, CountRequest);
    s, events := Next(s, CountRequest), events + [CountRequest];
    OneMore(startup, events, s, SwapFlag);
    s, events := Next(s, SwapFlag), events + [SwapFlag];
    OneMore(startup, events, s, ClearFlag(0));
    events := events + [ClearFlag(0)];
  }

  // ---------- settling ----------

  /** The step that takes a state closer to rest: the handler's, if it is in the middle of a request, or the worker's. */
  function SettlingStep(s: State): Event
    requires !Quiescent(s)
  {
    if s.handler == Counted then SwapFlag
    else if s.handler == Spawning then Spawn
    else match s.workers[0].pc
      case Loading => LoadGeneration(0)
      case Snapshotting(_) => Snapshot(0)
      case Reloading(_, _) => FinishReload(0, Err(DefaultCount(0)), false)
      case Comparing(_) => Compare(0)
      case Clearing => ClearFlag(0)
  }

  /** How many steps a worker is from its end, at most, if no further request is counted. */
  function StepsLeft(pc: Pc, requests: nat): nat {
    match pc
    case Loading => 5
    case Snapshotting(g) => if g == requests then 4 else 10
    case Reloading(g, _) => if g == requests then 3 else 9
    case Comparing(g) => if g == requests then 2 else 8
    case Clearing => 1
  }

  function Distance(s: State): nat {
    (match s.handler case Counted => 8 case Spawning => 7 case Idle => 0)
    + if s.workers == [] then 0 else StepsLeft(s.workers[0].pc, s.requests)
  }

  lemma SettlingStepSettles(startup: RuntimeState, s: State)
    requires Inv(startup, s) && !Quiescent(s)
    ensures Enabled(s, SettlingStep(s)) && Distance(Next(s, SettlingStep(s))) < Distance(s)
  {
  }

  lemma SettlingStepIsTaken(startup: RuntimeState, events: seq<Event>)
    requires Paired(startup) && After(startup, events).Some? && !Quiescent(After(startup, events).value)
    ensures var s := After(startup, events).value;
            var after := After(startup, events + [SettlingStep(s)]);
            SettlingStep(s) != CountRequest && after.Some? && Distance(after.value) < Distance(s)
  {
    var s := After(startup, events).value;
    InvHolds(startup, events);
    SettlingStepSettles(startup, s);
    OneMore(startup, events, s, SettlingStep(s));
  }

  /** Nothing ever stalls: from wherever a run has come to, it can settle without a further SIGHUP. */
  lemma {:induction false} RunsCanSettle(startup: RuntimeState, events: seq<Event>) returns (later: seq<Event>)
    requires Paired(startup) && After(startup, events).Some?
    ensures CountRequest !in later
    ensures var s := After(startup, events + later); s.Some? && Quiescent(s.value)
    decreases Distance(After(startup, events).value)
  {
    var s := After(startup, events).value;
    if Quiescent(s) {
      later := [];
      assert events + later == events;
    } else {
      var e := SettlingStep(s);
      SettlingStepIsTaken(startup, events);
      var rest := RunsCanSettle(startup, events + [e]);
      later := [e] + rest;
      assert events + later == events + [e] + rest;
    }
  }

  // ---------- the history, read off the events ----------

  /** How many SIGHUPs have been counted. */
  function Signals(events: seq<Event>): nat {
    if events == [] then 0
    else Signals(events[..|events| - 1]) + if events[|events| - 1] == CountRequest then 1 else 0
  }

  /** How many had been when the latest pass started. */
  function SignalsAtPass(events: seq<Event>): nat {
    if events == [] then 0
    else if events[|events| - 1].LoadGeneration? then Signals(events)
    else SignalsAtPass(events[..|events| - 1])
  }

  /** How many had been when the latest worker was spawned. */
  function SignalsAtSpawn(events: seq<Event>): nat {
    if events == [] then 0
    else if events[|events| - 1] == Spawn then Signals(events)
    else SignalsAtSpawn(events[..|events| - 1])
  }

  /** How many passes have started since then. */
  function PassesSinceSpawn(events: seq<Event>): nat {
    if events == [] || events[|events| - 1] == Spawn then 0
    else PassesSinceSpawn(events[..|events| - 1]) + if events[|events| - 1].LoadGeneration? then 1 else 0
  }

  lemma {:induction false} SignalsAreRequests(startup: RuntimeState, events: seq<Event>)
    requires After(startup, events).Some?
    ensures var s := After(startup, events).value;
            s.requests == Signals(events) && s.served == SignalsAtPass(events)
  {
    if events != [] {
      SignalsAreRequests(startup, events[..|events| - 1]);
    }
  }

  lemma {:induction false} PassesAreCounted(startup: RuntimeState, events: seq<Event>)
    requires Paired(startup) && After(startup, events).Some?
    ensures forall w :: w in After(startup, events).value.workers ==>
              w.passes == PassesSinceSpawn(events) && w.spawnedAt == SignalsAtSpawn(events)
  {
    if events != [] {
      var init := events[..|events| - 1];
      PassesAreCounted(startup, init);
      SignalsAreRequests(startup, init);
      InvHolds(startup, init);
      var s := After(startup, init).value;
      assert s.workers != [] ==> s.workers == [s.workers[0]] && s.workers[0] in s.workers;
    }
  }

  /** Event `i` counts a SIGHUP whose swap of the flag is still to come. */
  ghost predicate Pending(events: seq<Event>, i: nat) {
    i < |events| && events[i] == CountRequest && forall j :: i < j < |events| ==> events[j] != SwapFlag
  }

  /** The moment before event `i` lies between a worker's final comparison and its clearing of the flag. */
  ghost predicate InGapBefore(startup: RuntimeState, events: seq<Event>, i: nat)
    requires i <= |events|
  {
    After(startup, events[..i]).Some? && InGap(After(startup, events[..i]).value)
  }

  lemma {:induction false} PendingIsCounted(startup: RuntimeState, events: seq<Event>, i: nat)
    requires After(startup, events).Some? && Pending(events, i)
    ensures var s := After(startup, events).value;
            && s.handler == Counted && s.requests == Signals(events[..i]) + 1
            && (s.countedInGap <==> InGapBefore(startup, events, i))
    decreases |events|
  {
    var init := events[..|events| - 1];
    assert i < |init| ==> init[..i] == events[..i];
    if i == |events| - 1 {
      SignalsAreRequests(startup, init);
    } else {
      PendingIsCounted(startup, init, i);
    }
  }

  lemma StillCounted(s: State, e: Event)
    requires Enabled(s, e) && Next(s, e).handler == Counted
    ensures e == CountRequest || (s.handler == Counted && e != SwapFlag)
  {
  }

  lemma {:induction false} CountedIsPending(startup: RuntimeState, events: seq<Event>) returns (i: nat)
    requires After(startup, events).Some? && After(startup, events).value.handler == Counted
    ensures Pending(events, i)
  {
    var init, e := events[..|events| - 1], events[|events| - 1];
    StillCounted(After(startup, init).value, e);
    if e == CountRequest {
      i := |events| - 1;
    } else {
      i := CountedIsPending(startup, init);
    }
  }

  /** SIGHUP `k` is counted by event `i` and swaps the flag in event `j`, both in the gap. */
  ghost predicate HandledInGap(startup: RuntimeState, events: seq<Event>, i: nat, j: nat, k: nat) {
    && i < j < |events| && events[j] == SwapFlag && Pending(events[..j], i) && k == Signals(events[..i]) + 1
    && InGapBefore(startup, events, i) && InGapBefore(startup, events, j)
  }

  lemma HandledBefore(startup: RuntimeState, events: seq<Event>, i: nat, j: nat, k: nat)
    requires i < j < |events| - 1
    ensures HandledInGap(startup, events[..|events| - 1], i, j, k) <==> HandledInGap(startup, events, i, j, k)
  {
    var init := events[..|events| - 1];
    assert init[..i] == events[..i] && init[..j] == events[..j];
  }

  lemma HandledLast(startup: RuntimeState, events: seq<Event>, i: nat)
    requires Paired(startup) && After(startup, events).Some? && events != []
    requires events[|events| - 1] == SwapFlag && Pending(events[..|events| - 1], i)
    ensures var s := After(startup, events[..|events| - 1]).value;
            HandledInGap(startup, events, i, |events| - 1, s.requests) <==> s.countedInGap && InGap(s) && s.inProgress
  {
    var init := events[..|events| - 1];
    PendingIsCounted(startup, init, i);
    InvHolds(startup, init);
    assert init[..i] == events[..i];
  }

  ghost predicate FellIntoGap(startup: RuntimeState, events: seq<Event>, k: nat) {
    exists i: nat, j: nat :: HandledInGap(startup, events, i, j, k)
  }

  lemma GapIsHandled(startup: RuntimeState, events: seq<Event>, k: nat)
    requires Paired(startup) && After(startup, events).Some? && events != []
    requires k in After(startup, events).value.gap
    requires k in After(startup, events[..|events| - 1]).value.gap ==>
               FellIntoGap(startup, events[..|events| - 1], k)
    ensures FellIntoGap(startup, events, k)
  {
    var init := events[..|events| - 1];
    if k in After(startup, init).value.gap {
      var i: nat, j: nat :| HandledInGap(startup, init, i, j, k);
      HandledBefore(startup, events, i, j, k);
    } else {
      var i := CountedIsPending(startup, init);
      HandledLast(startup, events, i);
    }
  }

  lemma LastEntersGap(startup: RuntimeState, events: seq<Event>, i: nat, k: nat)
    requires Paired(startup) && After(startup, events).Some? && events != []
    requires HandledInGap(startup, events, i, |events| - 1, k)
    ensures k in After(startup, events).value.gap
  {
    var init := events[..|events| - 1];
    assert init[..i] == events[..i];
    PendingIsCounted(startup, init, i);
    HandledLast(startup, events, i);
  }

  lemma GapOnlyGrows(startup: RuntimeState, events: seq<Event>, k: nat)
    requires After(startup, events).Some? && events != []
    requires k in After(startup, events[..|events| - 1]).value.gap
    ensures k in After(startup, events).value.gap
  {
  }

  lemma HandledIsGap(startup: RuntimeState, events: seq<Event>, k: nat, i: nat, j: nat)
    requires Paired(startup) && After(startup, events).Some? && events != []
    requires HandledInGap(startup, events, i, j, k)
    requires FellIntoGap(startup, events[..|events| - 1], k) ==>
               k in After(startup, events[..|events| - 1]).value.gap
    ensures k in After(startup, events).value.gap
  {
    if j < |events| - 1 {
      HandledBefore(startup, events, i, j, k);
      GapOnlyGrows(startup, events, k);
    } else {
      LastEntersGap(startup, events, i, k);
    }
  }

  /** What the gap holds is true to the events: the SIGHUPs counted and swapped in within it. */
  lemma {:induction false} GapIsTrue(startup: RuntimeState, events: seq<Event>, k: nat)
    requires Paired(startup) && After(startup, events).Some?
    ensures k in After(startup, events).value.gap <==> FellIntoGap(startup, events, k)
  {
    if events != [] {
      GapIsTrue(startup, events[..|events| - 1], k);
      if k in After(startup, events).value.gap {
        GapIsHandled(startup, events, k);
      } else if i: nat, j: nat :| HandledInGap(startup, events, i, j, k) {
        HandledIsGap(startup, events, k, i, j);
      }
    }
  }

  /**
   The exception in terms of events alone. Once things have settled, no pass has started after the `k`-th SIGHUP
   was counted if and only if it and every later one were handled in the gap.
   */
  lemma MissedSighups(startup: RuntimeState, events: seq<Event>, k: nat)
    requires Paired(startup) && After(startup, events).Some? && Quiescent(After(startup, events).value)
    requires 0 < k <= Signals(events)
    ensures SignalsAtPass(events) < k
        <==> forall l: nat :: k <= l <= Signals(events) ==> FellIntoGap(startup, events, l)
  {
    SignalsAreRequests(startup, events);
    MissedExactlyInTheGap(startup, events, k);
    forall l: nat
      ensures l in After(startup, events).value.gap <==> FellIntoGap(startup, events, l)
    {
      GapIsTrue(startup, events, l);
    }
  }
}
