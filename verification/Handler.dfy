/**
 Answering one policy request (src/bin/postfix-ratelimitd.rs, src/protocol.rs), and what Postfix is told
 over whole runs of requests.
 */
module Handler {
  import opened Wrappers
  import opened Ledger
  import opened Plans
  import opened Config
  import opened Store
  import opened Limiter
  import opened Runs
  import opened Guarantees
  import Keys
  import Statistics

  const U32_MAX: nat := 0xFFFF_FFFF

  /** A request's attributes, decoded. */
  type Request = map<string, string>

  datatype Action = Dunno | ServiceUnavailable | RateLimited | Misconfigured

  // ---------- reading the attributes ----------

  /** The characters with the Unicode property White_Space. */
  predicate IsWhitespace(c: char) {
    || '\U{0009}' <= c <= '\U{000D}' || c == ' ' || c == '\U{0085}' || c == '\U{00A0}' || c == '\U{1680}'
    || '\U{2000}' <= c <= '\U{200A}' || c == '\U{2028}' || c == '\U{2029}' || c == '\U{202F}' || c == '\U{205F}'
    || c == '\U{3000}'
  }

  function TrimStart(s: string): string {
    if s != "" && IsWhitespace(s[0]) then TrimStart(s[1..]) else s
  }

  function TrimEnd(s: string): string {
    if s != "" && IsWhitespace(s[|s| - 1]) then TrimEnd(s[..|s| - 1]) else s
  }

  /** `sasl_username`: present but blank counts as absent. */
  function SaslUsername(request: Request): Option<string> {
    if "sasl_username" !in request then None
    else
      var trimmed := TrimEnd(TrimStart(request["sasl_username"]));
      if trimmed == "" then None else Some(trimmed)
  }

  /** Parsing a `u32`: decimal digits, with an optional plus sign, that fit in 32 bits. */
  function ParseU32(s: string): Option<nat> {
    match Keys.ParseDecimal(if s != "" && s[0] == '+' then s[1..] else s)
    case Some(n) => if n <= U32_MAX then Some(n) else None
    case None => None
  }

  function RecipientCount(request: Request): Option<nat> {
    if "recipient_count" in request then ParseU32(request["recipient_count"]) else None
  }

  /** Wired to a stage at which the recipient count is final, as far as the request says. */
  predicate WiredRight(request: Request) {
    "protocol_state" in request ==>
      request["protocol_state"] == "DATA" || request["protocol_state"] == "END-OF-MESSAGE"
  }

  lemma {:induction false} DecimalStartsWithDigit(n: nat)
    ensures Keys.Decimal(n) != "" && Keys.IsDigit(Keys.Decimal(n)[0])
  {
    if n >= 10 {
      DecimalStartsWithDigit(n / 10);
    }
  }

  /** A printed count is read back, with or without a plus sign, exactly when it fits in 32 bits. */
  lemma CountsRoundTrip(n: nat)
    ensures ParseU32(Keys.Decimal(n)) == ParseU32("+" + Keys.Decimal(n)) == if n <= U32_MAX then Some(n) else None
  {
    DecimalStartsWithDigit(n);
    Keys.DecimalRoundTrip(n);
    assert ("+" + Keys.Decimal(n))[1..] == Keys.Decimal(n);
  }

  lemma {:induction false} TrimEndKeepsStart(s: string)
    requires s != "" && !IsWhitespace(s[0])
    ensures TrimEnd(s) != "" && TrimEnd(s)[0] == s[0] && !IsWhitespace(TrimEnd(s)[|TrimEnd(s)| - 1])
  {
    if IsWhitespace(s[|s| - 1]) {
      TrimEndKeepsStart(s[..|s| - 1]);
    }
  }

  lemma {:induction false} TrimStartFindsText(s: string)
    ensures var t := TrimStart(s); t == "" || !IsWhitespace(t[0])
  {
    if s != "" && IsWhitespace(s[0]) {
      TrimStartFindsText(s[1..]);
    }
  }

  /** Not blank, with no whitespace around it. */
  predicate IsTrimmed(name: string) {
    name != "" && !IsWhitespace(name[0]) && !IsWhitespace(name[|name| - 1])
  }

  /** A username that is found is not blank and has no whitespace around it. */
  lemma UsernamesAreTrimmed(request: Request)
    requires SaslUsername(request).Some?
    ensures IsTrimmed(SaslUsername(request).value)
  {
    var start := TrimStart(request["sasl_username"]);
    TrimStartFindsText(request["sasl_username"]);
    if start != "" {
      TrimEndKeepsStart(start);
    }
  }

  /** The characters that are trimmed: the 25 that Unicode calls White_Space. */
  lemma WhitespaceIsUnicodes(c: char)
    ensures IsWhitespace(c)
        <==> c as int in {0x9, 0xA, 0xB, 0xC, 0xD, 0x20, 0x85, 0xA0, 0x1680, 0x2000, 0x2001, 0x2002, 0x2003, 0x2004,
                          0x2005, 0x2006, 0x2007, 0x2008, 0x2009, 0x200A, 0x2028, 0x2029, 0x202F, 0x205F, 0x3000}
  {
  }

  ghost predicate Blank(s: string) {
    forall i :: 0 <= i < |s| ==> IsWhitespace(s[i])
  }

  lemma {:induction false} TrimStartSkipsBlanks(before: string, s: string)
    requires Blank(before) && (s == "" || !IsWhitespace(s[0]))
    ensures TrimStart(before + s) == s
  {
    if before == "" {
      assert before + s == s;
    } else {
      TrimStartSkipsBlanks(before[1..], s);
      assert (before + s)[1..] == before[1..] + s;
    }
  }

  lemma {:induction false} TrimEndSkipsBlanks(s: string, after: string)
    requires Blank(after) && (s == "" || !IsWhitespace(s[|s| - 1]))
    ensures TrimEnd(s + after) == s
  {
    if after == "" {
      assert s + after == s;
    } else {
      TrimEndSkipsBlanks(s, after[..|after| - 1]);
      assert (s + after)[..|s + after| - 1] == s + after[..|after| - 1];
    }
  }

  /** Whitespace around a name is taken off. */
  lemma NamesAreTrimmed(request: Request, before: string, username: string, after: string)
    requires "sasl_username" in request && request["sasl_username"] == before + username + after
    requires Blank(before) && IsTrimmed(username) && Blank(after)
    ensures SaslUsername(request) == Some(username)
  {
    assert before + username + after == before + (username + after);
    TrimStartSkipsBlanks(before, username + after);
    TrimEndSkipsBlanks(username, after);
  }

  lemma {:induction false} TrimStartIsEmptyOnBlanks(s: string)
    ensures TrimStart(s) == "" <==> Blank(s)
  {
    if s != "" && IsWhitespace(s[0]) {
      TrimStartIsEmptyOnBlanks(s[1..]);
      assert Blank(s[1..]) ==> forall i :: 0 < i < |s| ==> s[i] == s[1..][i - 1];
      assert Blank(s) <==> Blank(s[1..]);
    }
  }

  /** A name is absent exactly when the attribute is missing or all whitespace. */
  lemma BlankNamesAreAbsent(request: Request)
    ensures SaslUsername(request).None? <==> "sasl_username" !in request || Blank(request["sasl_username"])
  {
    if "sasl_username" in request {
      var start := TrimStart(request["sasl_username"]);
      TrimStartIsEmptyOnBlanks(request["sasl_username"]);
      TrimStartFindsText(request["sasl_username"]);
      if start != "" {
        TrimEndKeepsStart(start);
      }
    }
  }

  /** `text` writes `n` in decimal, possibly after zeros and a plus sign. */
  ghost predicate Writes(text: string, n: nat) {
    exists z: nat :: text == Keys.Zeros(z) + Keys.Decimal(n) || text == "+" + (Keys.Zeros(z) + Keys.Decimal(n))
  }

  lemma DigitsComeFirst(z: nat, n: nat)
    ensures var s := Keys.Zeros(z) + Keys.Decimal(n); s != "" && s[0] != '+'
  {
    DecimalStartsWithDigit(n);
    ZerosAreZeros(z);
  }

  lemma {:induction false} ZerosAreZeros(z: nat)
    ensures forall i :: 0 <= i < |Keys.Zeros(z)| ==> Keys.Zeros(z)[i] == '0'
  {
    if z > 0 {
      ZerosAreZeros(z - 1);
    }
  }

  /** A count is read exactly when the text writes a number of at most 32 bits, and as that number. */
  lemma CountsAreRead(text: string, n: nat)
    ensures ParseU32(text) == Some(n) <==> n <= 0xFFFF_FFFF && Writes(text, n)
  {
    var digits := if text != "" && text[0] == '+' then text[1..] else text;
    if ParseU32(text) == Some(n) {
      var z := Keys.ReadIsPaddedDecimal(digits, n);
      assert text == digits || text == "+" + digits;
    }
    if Writes(text, n) {
      var z: nat :| text == Keys.Zeros(z) + Keys.Decimal(n) || text == "+" + (Keys.Zeros(z) + Keys.Decimal(n));
      DigitsComeFirst(z, n);
      Keys.PaddedDecimalIsRead(z, n);
      assert digits == Keys.Zeros(z) + Keys.Decimal(n);
    }
  }

  // ---------- answering ----------

  /** What a request asks for. */
  datatype Kind = Unusable | Anonymous | Checkable(username: string, count: nat)

  function KindOf(request: Request): Kind {
    if !WiredRight(request) then Unusable
    else match SaslUsername(request)
      case None => Anonymous
      case Some(username) =>
        match RecipientCount(request)
        case None => Unusable
        case Some(count) => Checkable(username, count)
  }

  function ActionFor(reply: Reply, onError: FailureAction): Action {
    match reply
    case Accepted => Dunno
    case Rejected => RateLimited
    case Failed => if onError == Defer then ServiceUnavailable else Dunno
  }

  function CounterFor(reply: Reply, onError: FailureAction): Statistics.Counter {
    match reply
    case Accepted => Statistics.Accepted
    case Rejected => Statistics.Rejected
    case Failed => if onError == Defer then Statistics.FailedDeferred else Statistics.FailedPermitted
  }

  /** The database, the counter that moves and the answer, for one request. */
  ghost function Handled(db: Database, now: nat, request: Request, regexes: Regexes, config: Config, prefix: string,
                         fault: Fault): (Database, Statistics.Counter, Action)
    requires forall username :: Indexed(PlanFor(regexes, config, username))
  {
    match KindOf(request)
    case Unusable => (db, Statistics.Misconfigured, Misconfigured)
    case Anonymous => (db, Statistics.Unauthenticated, Dunno)
    case Checkable(username, count) =>
      var (db', reply) := Checked(db, now, Sender(prefix, username), PlanFor(regexes, config, username), count, fault);
      var onError := config.server.onRedisError;
      (db', CounterFor(reply, onError), ActionFor(reply, onError))
  }

  /** Every plan of the configuration is well formed, as loading makes them. */
  ghost predicate PlansAreWellFormed(regexes: Regexes, config: Config) {
    forall username :: WellFormed(PlanFor(regexes, config, username))
  }

  /** Which counters are logged through the throttle; the unauthenticated only if that is wanted. */
  predicate IsLogged(counter: Statistics.Counter, warnOnUnauthenticated: bool) {
    match counter
    case Misconfigured => true
    case FailedDeferred => true
    case FailedPermitted => true
    case Unauthenticated => warnOnUnauthenticated
    case _ => false
  }

  /** What is logged of an event whose counter stood at `previous`. */
  function LineFor(counter: Statistics.Counter, warnOnUnauthenticated: bool, previous: nat): Statistics.LogLine {
    if IsLogged(counter, warnOnUnauthenticated) then Statistics.ThrottledLine(previous) else Statistics.NoLine
  }

  /** The last part of `handle_request`: what a check's reply comes to. */
  method Conclude(reply: Reply, onError: FailureAction, warn: bool, stats: Statistics.Stats)
    returns (action: Action, line: Statistics.LogLine)
    modifies stats
    ensures stats.counts == Statistics.Incremented(old(stats.counts), CounterFor(reply, onError))
    ensures action == ActionFor(reply, onError)
    ensures line == LineFor(CounterFor(reply, onError), warn, Statistics.Of(old(stats.counts), CounterFor(reply, onError)))
  {
    line := Statistics.NoLine;
    match reply {
      case Accepted =>
        var _ := stats.FetchAdd(Statistics.Accepted);
        action := Dunno;
      case Rejected =>
        var _ := stats.FetchAdd(Statistics.Rejected);
        action := RateLimited;
      case Failed =>
        match onError {
          case Defer =>
            line := stats.LogThrottled(Statistics.FailedDeferred);
            action := ServiceUnavailable;
          case Permit =>
            line := stats.LogThrottled(Statistics.FailedPermitted);
            action := Dunno;
        }
    }
  }

  /** `handle_request`. */
  method HandleRequest(request: Request, regexes: Regexes, config: Config, limiter: SaslLimiter,
                       stats: Statistics.Stats, fault: Fault)
    returns (action: Action, line: Statistics.LogLine)
    requires PlansAreWellFormed(regexes, config)
    modifies limiter.backend`db, stats
    ensures var (db, counter, answer) :=
              Handled(old(limiter.backend.db), limiter.backend.clock, request, regexes, config, limiter.prefix, fault);
            && limiter.backend.db == db
            && stats.counts == Statistics.Incremented(old(stats.counts), counter)
            && action == answer
            && line
            == if counter in {Statistics.Misconfigured, Statistics.FailedDeferred, Statistics.FailedPermitted}
                  || (counter == Statistics.Unauthenticated && config.server.warnOnUnauthenticated)
               then Statistics.ThrottledLine(Statistics.Of(old(stats.counts), counter)) else Statistics.NoLine
  {
    line := Statistics.NoLine;
    if "protocol_state" in request && request["protocol_state"] !in ["DATA", "END-OF-MESSAGE"] {
      assert KindOf(request) == Unusable;
      line := stats.LogThrottled(Statistics.Misconfigured);
      return Misconfigured, line;
    }
    var username := SaslUsername(request);
    if username.None? {
      assert KindOf(request) == Anonymous;
      if config.server.warnOnUnauthenticated {
        line := stats.LogThrottled(Statistics.Unauthenticated);
      } else {
        var _ := stats.FetchAdd(Statistics.Unauthenticated);
      }
      return Dunno, line;
    }
    var count := RecipientCount(request);
    if count.None? {
      line := stats.LogThrottled(Statistics.Misconfigured);
      return Misconfigured, line;
    }
    assert KindOf(request) == Checkable(username.value, count.value);
    var plan := PlanFor(regexes, config, username.value);
    var reply := limiter.CheckSasl(username.value, count.value, plan, fault);
    action, line := Conclude(reply, config.server.onRedisError, config.server.warnOnUnauthenticated, stats);
  }

  /**
   What each answer says about the request and the database. `dunno` means anonymous, recorded, unrestricted, or a
   failure that the configuration permits; the rate limit answer means some window had no room, and
   nothing was recorded; only checks that every window allows ever change the database.
   */
  lemma AnswersMeanWhatTheySay(db: Database, now: nat, request: Request, regexes: Regexes, config: Config,
                               prefix: string, username: string, count: nat, fault: Fault)
    requires PlansAreWellFormed(regexes, config) && KindOf(request) == Checkable(username, count)
    ensures var plan, sender := PlanFor(regexes, config, username), Sender(prefix, username);
            var (db', counter, action) := Handled(db, now, request, regexes, config, prefix, fault);
            && action != Misconfigured
            && (action == RateLimited ==> db' == db && !SaslAllows(db, now, sender, plan, count))
            && (action == Dunno && config.server.onRedisError == Defer ==>
                  plan.sizes == [] || (SaslAllows(db, now, sender, plan, count)
                                       && db' == SaslRecorded(db, now, sender, plan, count)))
            && (db' != db ==> SaslAllows(db, now, sender, plan, count) && fault != BeforeScript)
            && (action == ServiceUnavailable <==>
                  plan.sizes != [] && fault != NoFault && config.server.onRedisError == Defer)
  {
  }

  // ---------- requests as they are written ----------

  /** A request that says it was sent at another stage than the two expected ones is refused, and nothing is recorded. */
  lemma MiswiredRequestsAreRefused(db: Database, now: nat, request: Request, regexes: Regexes, config: Config,
                                   prefix: string, fault: Fault)
    requires PlansAreWellFormed(regexes, config)
    requires "protocol_state" in request
    requires request["protocol_state"] != "DATA" && request["protocol_state"] != "END-OF-MESSAGE"
    ensures Handled(db, now, request, regexes, config, prefix, fault)
         == (db, Statistics.Misconfigured, Misconfigured)
  {
  }

  /** The request says nothing of its stage, or one of the two expected ones. */
  predicate SentAtExpectedStage(request: Request) {
    "protocol_state" !in request || request["protocol_state"] == "DATA" || request["protocol_state"] == "END-OF-MESSAGE"
  }

  /** A request without a name passes, and nothing is recorded. */
  lemma AnonymousRequestsPass(db: Database, now: nat, request: Request, regexes: Regexes, config: Config,
                              prefix: string, fault: Fault)
    requires PlansAreWellFormed(regexes, config) && SentAtExpectedStage(request)
    requires "sasl_username" !in request || Blank(request["sasl_username"])
    ensures Handled(db, now, request, regexes, config, prefix, fault) == (db, Statistics.Unauthenticated, Dunno)
  {
    BlankNamesAreAbsent(request);
  }

  /** A request with a name and no readable count is refused, and nothing is recorded. */
  lemma CountlessRequestsAreRefused(db: Database, now: nat, request: Request, regexes: Regexes, config: Config,
                                    prefix: string, fault: Fault)
    requires PlansAreWellFormed(regexes, config) && SentAtExpectedStage(request)
    requires "sasl_username" in request && !Blank(request["sasl_username"])
    requires "recipient_count" in request ==> forall n: nat :: n <= 0xFFFF_FFFF ==> !Writes(request["recipient_count"], n)
    ensures Handled(db, now, request, regexes, config, prefix, fault)
         == (db, Statistics.Misconfigured, Misconfigured)
  {
    BlankNamesAreAbsent(request);
    if "recipient_count" in request && ParseU32(request["recipient_count"]).Some? {
      CountsAreRead(request["recipient_count"], ParseU32(request["recipient_count"]).value);
    }
  }

  /**
   A request with a name, whitespace around it or not, and a count of at most 32 bits is checked against the plan
   for that name, under the instance's prefix. Its answer and its counter tell the outcome.
   */
  lemma SendersAreChecked(db: Database, now: nat, request: Request, regexes: Regexes, config: Config, prefix: string,
                          fault: Fault, before: string, username: string, after: string, count: nat)
    requires PlansAreWellFormed(regexes, config) && SentAtExpectedStage(request)
    requires "sasl_username" in request && request["sasl_username"] == before + username + after
    requires Blank(before) && IsTrimmed(username) && Blank(after)
    requires "recipient_count" in request && Writes(request["recipient_count"], count) && count <= 0xFFFF_FFFF
    ensures var (db', reply) := Checked(db, now, Sender(prefix, username), PlanFor(regexes, config, username), count,
                                        fault);
            var defer := config.server.onRedisError == Defer;
            && Handled(db, now, request, regexes, config, prefix, fault)
            == match reply
               case Accepted => (db', Statistics.Accepted, Dunno)
               case Rejected => (db', Statistics.Rejected, RateLimited)
               case Failed => if defer then (db', Statistics.FailedDeferred, ServiceUnavailable)
                              else (db', Statistics.FailedPermitted, Dunno)
  {
    NamesAreTrimmed(request, before, username, after);
    CountsAreRead(request["recipient_count"], count);
  }

  // ---------- whole runs of requests ----------

  datatype Input =
    | Serve(prefix: string, request: Request, fault: Fault)    // one instance answers one request
    | Pass(secs: nat)
    | Expire(key: string)

  /** Any number of instances on one database, each named by its key prefix and with a configuration of its own. */
  datatype Deployment = Deployment(regexes: Regexes, configs: string -> Config, rules: Rules)

  /** `rules` lists the windows that each instance's configuration enforces. */
  ghost predicate Consistent(d: Deployment) {
    forall prefix, username ::
      PlanFor(d.regexes, d.configs(prefix), username) == PlanOf(d.rules(Sender(prefix, username)))
  }

  /** The windows that settings write down, one by one; none when they write down none. */
  ghost predicate WrittenIn(windows: seq<Window>, s: Settings) {
    match s.windows
    case None => windows == []
    case Some(written) =>
      |windows| == |written|
      && forall i :: 0 <= i < |windows| ==> windows[i] == Window(written[i].count, written[i].duration.secs)
  }

  /** The windows of a rule in force for the sender, in the rules as its instance's file states them. */
  ghost predicate StatesWindows(regexes: Regexes, raw: seq<RawRule>, username: string, windows: seq<Window>) {
    exists k: nat :: InForce(regexes, raw, k, username) && WrittenIn(windows, raw[k].settings)
  }

  /** Instances that run on loaded configurations enforce what their files state, with valid windows. */
  lemma LoadedDeploymentsAreConsistent(d: Deployment, servers: string -> Server, raw: string -> seq<RawRule>)
    requires forall prefix :: LoadError(d.regexes, servers(prefix), raw(prefix)).None?
    requires forall prefix :: d.configs(prefix) == ConfigOf(servers(prefix), raw(prefix))
    requires forall prefix, username ::
               StatesWindows(d.regexes, raw(prefix), username, d.rules(Sender(prefix, username)))
    ensures Consistent(d)
    ensures forall sender :: ValidWindows(d.rules(sender))
  {
    forall prefix, username
      ensures PlanFor(d.regexes, d.configs(prefix), username) == PlanOf(d.rules(Sender(prefix, username)))
      ensures ValidWindows(d.rules(Sender(prefix, username)))
    {
      assert StatesWindows(d.regexes, raw(prefix), username, d.rules(Sender(prefix, username)));
      var k: nat :| InForce(d.regexes, raw(prefix), k, username)
                    && WrittenIn(d.rules(Sender(prefix, username)), raw(prefix)[k].settings);
      assert d.rules(Sender(prefix, username)) == EnforcedWindows(raw(prefix)[k].settings);
      PlansFollowTheRuleInForce(d.regexes, servers(prefix), raw(prefix), username, k);
      LoadedWindowsAreValid(d.regexes, servers(prefix), raw(prefix), k);
    }
    forall sender: Sender
      ensures ValidWindows(d.rules(sender))
    {
      assert sender == Sender(sender.prefix, sender.username);
    }
  }

  ghost function Step(d: Deployment, w: World, input: Input): (World, Option<Action>)
    requires Consistent(d)
  {
    match input
    case Pass(secs) => (w.(now := w.now + secs), None)
    case Expire(key) => (Reaped(w, key), None)
    case Serve(prefix, request, fault) =>
      var (db, _, action) := Handled(w.db, w.now, request, d.regexes, d.configs(prefix), prefix, fault);
      (w.(db := db), Some(action))
  }

  ghost function Serving(d: Deployment, start: World, inputs: seq<Input>): World
    requires Consistent(d)
  {
    if inputs == [] then start else Step(d, Serving(d, start, Init(inputs)), Final(inputs)).0
  }

  /** Whether the input is a request of `sender` that is counted against its limits. */
  predicate Counts(input: Input, sender: Sender) {
    input.Serve? && input.prefix == sender.prefix
    && KindOf(input.request).Checkable? && KindOf(input.request).username == sender.username
  }

  /** Whether Postfix is told to let a message of `sender` through. */
  ghost predicate LetThrough(d: Deployment, w: World, input: Input, sender: Sender)
    requires Consistent(d)
  {
    Counts(input, sender) && Step(d, w, input).1 == Some(Dunno)
  }

  /** The messages of `sender` that Postfix was told to let through. */
  ghost function Answered(d: Deployment, start: World, inputs: seq<Input>, sender: Sender): seq<Event>
    requires Consistent(d)
  {
    if inputs == [] then []
    else
      var w, input, before := Serving(d, start, Init(inputs)), Final(inputs), Answered(d, start, Init(inputs), sender);
      if LetThrough(d, w, input, sender) then before + [Event(w.now, KindOf(input.request).count)] else before
  }

  /** What an input is to the limiter. Requests that are not checked are no more than time not passing. */
  function Lowered(input: Input): Runs.Step {
    match input
    case Pass(secs) => Tick(secs)
    case Expire(key) => Reap(key)
    case Serve(prefix, request, fault) =>
      match KindOf(request)
      case Checkable(username, count) => Check(Sender(prefix, username), count, fault)
      case _ => Tick(0)
  }

  function AllLowered(inputs: seq<Input>): seq<Runs.Step> {
    if inputs == [] then [] else AllLowered(Init(inputs)) + [Lowered(Final(inputs))]
  }

  lemma StepIsLowered(d: Deployment, w: World, input: Input)
    requires Consistent(d)
    ensures Step(d, w, input).0 == Next(d.rules, w, Lowered(input)).0
    ensures input.Serve? && KindOf(input.request).Checkable? ==>
              Step(d, w, input).1 == Some(ActionFor(Next(d.rules, w, Lowered(input)).1.value,
                                                    d.configs(input.prefix).server.onRedisError))
  {
    if input.Serve? && KindOf(input.request).Checkable? {
      var username := KindOf(input.request).username;
      assert PlanFor(d.regexes, d.configs(input.prefix), username) == PlanOf(d.rules(Sender(input.prefix, username)));
    }
  }

  lemma {:induction false} ServingIsLowered(d: Deployment, start: World, inputs: seq<Input>)
    requires Consistent(d)
    ensures Serving(d, start, inputs) == Run(d.rules, start, AllLowered(inputs)).world
  {
    if inputs != [] {
      ServingIsLowered(d, start, Init(inputs));
      StepIsLowered(d, Serving(d, start, Init(inputs)), Final(inputs));
      assert Init(AllLowered(inputs)) == AllLowered(Init(inputs));
    }
  }

  lemma LetThroughIsDelivered(d: Deployment, w: World, input: Input, sender: Sender)
    requires Consistent(d)
    ensures LetThrough(d, w, input, sender)
        <==> Delivers(d.rules, w, Lowered(input), sender, d.configs(sender.prefix).server.onRedisError)
    ensures LetThrough(d, w, input, sender) ==> Lowered(input).count == KindOf(input.request).count
  {
    if Counts(input, sender) {
      StepIsLowered(d, w, input);
    }
  }

  /** Postfix is told to let through exactly what the limiter lets through. */
  lemma {:induction false} AnsweredIsDelivered(d: Deployment, start: World, inputs: seq<Input>, sender: Sender)
    requires Consistent(d)
    ensures Answered(d, start, inputs, sender)
         == Delivered(d.rules, start, AllLowered(inputs), sender, d.configs(sender.prefix).server.onRedisError)
  {
    if inputs != [] {
      var init, input := Init(inputs), Final(inputs);
      AnsweredIsDelivered(d, start, init, sender);
      ServingIsLowered(d, start, init);
      assert Init(AllLowered(inputs)) == AllLowered(init);
      LetThroughIsDelivered(d, Serving(d, start, init), input, sender);
    }
  }

  /**
   End to end. With `on_redis_error = defer`, over every run of requests to any instances, of faults, expiry
   and time, the recipients for which Postfix is told to let a sender's messages through stay within every
   configured window, anywhere in time.
   */
  lemma AnswersStayWithinLimits(d: Deployment, start: World, inputs: seq<Input>, sender: Sender, w: Window)
    requires Consistent(d) && Untouched(start.db)
    requires w in d.rules(sender) && d.configs(sender.prefix).server.onRedisError == Defer
    ensures Bounded(Answered(d, start, inputs, sender), w.secs, w.count)
  {
    AnsweredIsDelivered(d, start, inputs, sender);
    DeferFailsClosed(d.rules, start, AllLowered(inputs), sender, w);
  }

  /** A planned window is as strict as the plan's source windows make it. */
  lemma PlannedWindowIsBounded(windows: seq<Window>, events: seq<Event>, p: PlannedWindow)
    requires p in PlanOf(windows).windows
    requires forall w :: w in windows ==> Bounded(events, w.secs, w.count)
    ensures Bounded(events, p.span, p.limit)
  {
    PlanIsFaithful(windows);
    var w :| w in windows && Enforces(PlanOf(windows), p, w) && p.limit == w.count;
  }

  lemma LooserLimitIsKept(events: seq<Event>, span: nat, limit: nat, looser: nat)
    requires Bounded(events, span, limit) && limit <= looser
    ensures Bounded(events, span, looser)
  {
  }

  /**
   From the file to the answers. Where an instance runs on a configuration that loads and defers on errors, each
   window written in the first rule that names a sender, or else in the default rule, bounds what the sender is
   let through with, over every run and in every interval of its length.
   */
  lemma WrittenWindowsAreKept(d: Deployment, server: Server, raw: seq<RawRule>, start: World, inputs: seq<Input>,
                              sender: Sender, k: nat, i: nat)
    requires Consistent(d) && Untouched(start.db)
    requires LoadError(d.regexes, server, raw).None? && d.configs(sender.prefix) == ConfigOf(server, raw)
    requires server.onRedisError == Defer && k < |raw|
    requires match raw[k]
             case UsernameRule(name, _) =>
               name == sender.username && PassedOverBefore(d.regexes, raw, k, sender.username)
             case RegexRule(regex, _) =>
               d.regexes.isMatch(regex, sender.username) && PassedOverBefore(d.regexes, raw, k, sender.username)
             case DefaultRule(_) => PassedOverBefore(d.regexes, raw, |raw|, sender.username)
    requires raw[k].settings.windows.Some? && i < |raw[k].settings.windows.value|
    ensures var w := raw[k].settings.windows.value[i];
            Bounded(Answered(d, start, inputs, sender), w.duration.secs, w.count)
  {
    var w, answered := raw[k].settings.windows.value[i], Answered(d, start, inputs, sender);
    var plan := PlanFor(d.regexes, d.configs(sender.prefix), sender.username);
    FirstRuleDecides(d.regexes, server, raw, sender.username, k);
    assert plan == PlanOf(d.rules(Sender(sender.prefix, sender.username)));
    forall v | v in d.rules(sender)
      ensures Bounded(answered, v.secs, v.count)
    {
      AnswersStayWithinLimits(d, start, inputs, sender, v);
    }
    assert IsPlanned(plan, w);
    var p :| p in plan.windows && PlannedFor(plan, p, w) && p.limit <= w.count;
    PlannedWindowIsBounded(d.rules(sender), answered, p);
    LooserLimitIsKept(answered, p.span, p.limit, w.count);
  }

  /** The request of a client that authenticated as `username` and addresses `count` recipients. */
  function SaslRequest(username: string, count: nat): Request {
    map["sasl_username" := username, "recipient_count" := Keys.Decimal(count)]
  }

  lemma SaslRequestIsCheckable(username: string, count: nat)
    requires IsTrimmed(username) && count <= U32_MAX
    ensures KindOf(SaslRequest(username, count)) == Checkable(username, count)
  {
    var request := SaslRequest(username, count);
    assert |"protocol_state"| == 14 && |"sasl_username"| == 13 && |"recipient_count"| == 15;
    assert request["sasl_username"] == username && request["recipient_count"] == Keys.Decimal(count);
    assert TrimStart(username) == username && TrimEnd(username) == username;
    CountsRoundTrip(count);
    assert WiredRight(request);
    assert SaslUsername(request) == Some(username);
    assert RecipientCount(request) == Some(count);
  }

  /** Two requests within the window's limit, for which the backend cannot be reached. */
  function LostRequests(sender: Sender, w: Window): seq<Input> {
    [Serve(sender.prefix, SaslRequest(sender.username, w.count), BeforeScript),
     Serve(sender.prefix, SaslRequest(sender.username, 1), BeforeScript)]
  }

  lemma PermitLetsTooManyThrough(d: Deployment, start: World, sender: Sender, w: Window)
    requires Consistent(d) && w in d.rules(sender) && w.count <= U32_MAX
    requires d.configs(sender.prefix).server.onRedisError == Permit && IsTrimmed(sender.username)
    ensures !Bounded(Answered(d, start, LostRequests(sender, w), sender), w.secs, w.count)
  {
    var inputs := LostRequests(sender, w);
    SaslRequestIsCheckable(sender.username, w.count);
    SaslRequestIsCheckable(sender.username, 1);
    LoweredPair(inputs[0], inputs[1]);
    assert inputs == [inputs[0], inputs[1]];
    AnsweredIsDelivered(d, start, inputs, sender);
    PermitFailsOpen(d.rules, start, sender, w);
  }

  lemma LoweredPair(a: Input, b: Input)
    ensures AllLowered([a, b]) == [Lowered(a), Lowered(b)]
  {
    assert Init([a, b]) == [a] && Init([a]) == [];
    assert AllLowered([a]) == [Lowered(a)];
  }

  /** No request counts against a name with whitespace around it. */
  lemma {:induction false} UntrimmedNamesAreNeverAnswered(d: Deployment, start: World, inputs: seq<Input>,
                                                          sender: Sender)
    requires Consistent(d) && !IsTrimmed(sender.username)
    ensures Answered(d, start, inputs, sender) == []
  {
    if inputs != [] {
      var input := Final(inputs);
      UntrimmedNamesAreNeverAnswered(d, start, Init(inputs), sender);
      if Counts(input, sender) {
        UsernamesAreTrimmed(input.request);
      }
    }
  }

  /**
   End to end, exactly. The recipients let through stay within a window over every run if and only if the
   sender's instance defers on errors, or the sender's name is one that no request can carry.
   */
  lemma AnswersStayWithinLimitsIffDefer(d: Deployment, start: World, sender: Sender, w: Window)
    requires Consistent(d) && Untouched(start.db) && w in d.rules(sender) && w.count <= U32_MAX
    ensures d.configs(sender.prefix).server.onRedisError == Defer || !IsTrimmed(sender.username)
        <==> forall inputs :: Bounded(Answered(d, start, inputs, sender), w.secs, w.count)
  {
    if d.configs(sender.prefix).server.onRedisError == Defer {
      forall inputs
        ensures Bounded(Answered(d, start, inputs, sender), w.secs, w.count)
      {
        AnswersStayWithinLimits(d, start, inputs, sender, w);
      }
    } else if IsTrimmed(sender.username) {
      PermitLetsTooManyThrough(d, start, sender, w);
    } else {
      forall inputs
        ensures Bounded(Answered(d, start, inputs, sender), w.secs, w.count)
      {
        UntrimmedNamesAreNeverAnswered(d, start, inputs, sender);
      }
    }
  }
}
