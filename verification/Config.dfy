/**
 From parsed rules to a validated configuration (src/config.rs). Decoding the file and resolving the
 redis settings come before; regular expressions are two uninterpreted predicates.
 */
module Config {
  import opened Wrappers
  import opened Ladder
  import opened Plans

  /** The configured answer to a backend error. */
  datatype FailureAction = Defer | Permit

  type Nanos = n: nat | n < 1_000_000_000

  datatype Duration = Duration(secs: nat, nanos: Nanos)

  datatype RawWindow = RawWindow(count: nat, duration: Duration)

  /** A rule's `windows` and `unrestricted` settings, each of which may be missing. */
  datatype Settings = Settings(windows: Option<seq<RawWindow>>, unrestricted: Option<bool>)

  datatype RawRule =
    | UsernameRule(username: string, settings: Settings)
    | RegexRule(regex: string, settings: Settings)
    | DefaultRule(settings: Settings)

  /** `client` stands for the fields that have no bearing on where a connection leads. */
  datatype RedisSettings = RedisSettings(
    addr: string, db: int, username: Option<string>, password: Option<string>, protocol: nat, client: string)

  /** Everything of a configuration but its rules. */
  datatype Server = Server(
    redis: RedisSettings, keyPrefix: string, onRedisError: FailureAction, warnOnUnauthenticated: bool,
    socket: string, controlSocket: Option<string>)

  datatype Matcher = Exactly(username: string) | Pattern(regex: string)

  datatype Rule = Rule(matcher: Matcher, plan: CheckPlan)

  datatype Config = Config(server: Server, limits: seq<Rule>, defaultPlan: CheckPlan)

  datatype ConfigError =
    | BadRegex(index: nat)
    | EmptyUsername(index: nat)
    | DefaultCount(count: nat)
    | NoWindows(index: nat)
    | WindowsWithUnrestricted(index: nat)
    | RedundantUnrestrictedFalse(index: nat)
    | WindowTooShort(index: nat, duration: Duration)
    | WindowTooLong(index: nat, duration: Duration)
    | ControlSocketSameAsSocket

  /** The regular expression engine: which patterns compile and what they match. */
  datatype Regexes = Regexes(compiles: string -> bool, isMatch: (string, string) -> bool)

  // ---------- validating windows ----------

  predicate Shorter(a: Duration, b: Duration) {
    a.secs < b.secs || (a.secs == b.secs && a.nanos < b.nanos)
  }

  function WindowError(index: nat, w: RawWindow): Option<ConfigError> {
    if w.duration.nanos != 0 || Shorter(w.duration, Duration(MIN_WINDOW_SECS, 0)) then
      Some(WindowTooShort(index, w.duration))
    else if Shorter(Duration(MAX_WINDOW_SECS, 0), w.duration) then Some(WindowTooLong(index, w.duration))
    else None
  }

  /** The first window in error, if any. */
  function FirstWindowError(index: nat, windows: seq<RawWindow>): Option<ConfigError> {
    if windows == [] then None
    else match WindowError(index, windows[0])
      case Some(e) => Some(e)
      case None => FirstWindowError(index, windows[1..])
  }

  function WindowsError(index: nat, windows: seq<RawWindow>): Option<ConfigError> {
    if windows == [] then Some(NoWindows(index)) else FirstWindowError(index, windows)
  }

  /** `validate_windows`. */
  method ValidateWindows(index: nat, windows: seq<RawWindow>) returns (r: Option<ConfigError>)
    ensures r == WindowsError(index, windows)
  {
    if windows == [] {
      return Some(NoWindows(index));
    }
    for k := 0 to |windows|
      invariant FirstWindowError(index, windows[k..]) == FirstWindowError(index, windows)
    {
      var duration := windows[k].duration;
      if duration.nanos != 0 || Shorter(duration, Duration(MIN_WINDOW_SECS, 0)) {
        return Some(WindowTooShort(index, duration));
      }
      if Shorter(Duration(MAX_WINDOW_SECS, 0), duration) {
        return Some(WindowTooLong(index, duration));
      }
      assert windows[k..][1..] == windows[k + 1..];
    }
    return None;
  }

  /** `as_secs` on every window. */
  function InSeconds(windows: seq<RawWindow>): seq<Window> {
    seq(|windows|, i requires 0 <= i < |windows| => Window(windows[i].count, windows[i].duration.secs))
  }

  // ---------- what windows as written ask for ----------

  /** Planned window `p` is for a window as written: its span, under the bucket size of that span. */
  ghost predicate PlannedFor(plan: CheckPlan, p: PlannedWindow, w: RawWindow) {
    p.keyIndex < |plan.sizes| && p.span == w.duration.secs && plan.sizes[p.keyIndex] == BucketSize(w.duration.secs)
  }

  /** The window as written is planned, at its own count or less. */
  ghost predicate IsPlanned(plan: CheckPlan, w: RawWindow) {
    exists p :: p in plan.windows && PlannedFor(plan, p, w) && p.limit <= w.count
  }

  /** The planned window is one of those written. */
  ghost predicate IsWritten(plan: CheckPlan, p: PlannedWindow, windows: seq<RawWindow>) {
    exists i :: 0 <= i < |windows| && PlannedFor(plan, p, windows[i]) && p.limit == windows[i].count
  }

  ghost predicate PlansAll(plan: CheckPlan, windows: seq<RawWindow>) {
    forall i :: 0 <= i < |windows| ==> IsPlanned(plan, windows[i])
  }

  ghost predicate PlansOnly(plan: CheckPlan, windows: seq<RawWindow>) {
    forall p :: p in plan.windows ==> IsWritten(plan, p, windows)
  }

  /** The plan allows a request exactly when each window as written has room for it. */
  ghost predicate AllowsExactly(plan: CheckPlan, windows: seq<RawWindow>)
    requires Indexed(plan)
  {
    forall counted: Counter, count: nat ::
      PlanAllows(plan, counted, count)
      <==> forall i :: 0 <= i < |windows| ==>
             counted(BucketSize(windows[i].duration.secs), windows[i].duration.secs) + count <= windows[i].count
  }

  /** `plan` is what a rule's settings ask for: the windows as written, or nothing to check. */
  ghost predicate FollowsSettings(plan: CheckPlan, s: Settings) {
    && Indexed(plan)
    && match s.windows
       case Some(windows) =>
         windows != [] && PlansAll(plan, windows) && PlansOnly(plan, windows) && AllowsExactly(plan, windows)
       case None => s.unrestricted == Some(true) && plan.sizes == [] && plan.windows == []
  }

  lemma RawWindowsArePlanned(plan: CheckPlan, windows: seq<RawWindow>)
    requires Indexed(plan) && Covers(plan, InSeconds(windows))
    ensures PlansAll(plan, windows)
  {
    forall i | 0 <= i < |windows|
      ensures IsPlanned(plan, windows[i])
    {
      var w := InSeconds(windows)[i];
      assert w in InSeconds(windows);
      var p :| Enforces(plan, p, w) && p.limit <= w.count;
      assert PlannedFor(plan, p, windows[i]);
    }
  }

  lemma OnlyRawWindowsArePlanned(plan: CheckPlan, windows: seq<RawWindow>)
    requires Indexed(plan) && Faithful(plan, InSeconds(windows))
    ensures PlansOnly(plan, windows)
  {
    forall p | p in plan.windows
      ensures IsWritten(plan, p, windows)
    {
      var w :| w in InSeconds(windows) && Enforces(plan, p, w) && p.limit == w.count;
      var i :| 0 <= i < |windows| && InSeconds(windows)[i] == w;
      assert PlannedFor(plan, p, windows[i]);
    }
  }

  lemma RawVerdictsAgree(windows: seq<RawWindow>)
    ensures AllowsExactly(PlanOf(InSeconds(windows)), windows)
  {
    var plan, inSeconds := PlanOf(InSeconds(windows)), InSeconds(windows);
    forall counted: Counter, count: nat
      ensures PlanAllows(plan, counted, count)
          <==> forall i :: 0 <= i < |windows| ==>
                 counted(BucketSize(windows[i].duration.secs), windows[i].duration.secs) + count <= windows[i].count
    {
      PlanningPreservesMeaning(inSeconds, counted, count);
      assert forall i :: 0 <= i < |windows| ==>
               (WindowAllows(inSeconds[i], counted, count)
                <==> counted(BucketSize(windows[i].duration.secs), windows[i].duration.secs) + count <= windows[i].count);
      assert forall i :: 0 <= i < |windows| ==> inSeconds[i] in inSeconds;
    }
  }

  /** A plan built from settings without errors follows them. */
  lemma PlansFollowSettings(index: nat, s: Settings)
    requires SettingsError(index, s).None?
    ensures FollowsSettings(PlanOf(EnforcedWindows(s)), s)
  {
    if s.windows.Some? {
      PlanCoversItsWindows(InSeconds(s.windows.value));
      RawWindowsArePlanned(PlanOf(InSeconds(s.windows.value)), s.windows.value);
      PlanIsFaithful(InSeconds(s.windows.value));
      OnlyRawWindowsArePlanned(PlanOf(InSeconds(s.windows.value)), s.windows.value);
      RawVerdictsAgree(s.windows.value);
    }
  }

  /** Validation passes exactly the non-empty lists of whole-second durations from a minute to 31 days. */
  lemma {:induction false} ValidationIsExact(index: nat, windows: seq<RawWindow>)
    ensures FirstWindowError(index, windows).None?
        <==> ValidWindows(InSeconds(windows)) && forall w :: w in windows ==> w.duration.nanos == 0
  {
    if windows != [] {
      ValidationIsExact(index, windows[1..]);
      var head := Window(windows[0].count, windows[0].duration.secs);
      assert InSeconds(windows) == [head] + InSeconds(windows[1..]);
      assert windows == [windows[0]] + windows[1..];
      assert WindowError(index, windows[0]).None? <==> ValidWindow(head) && windows[0].duration.nanos == 0;
      assert ValidWindows(InSeconds(windows)) <==> ValidWindow(head) && ValidWindows(InSeconds(windows[1..]));
    }
  }

  // ---------- building a rule's plan ----------

  /** What is wrong with a rule's settings. Exactly one of the two must be given, and `false` is no choice. */
  function SettingsError(index: nat, s: Settings): Option<ConfigError> {
    match (s.windows, s.unrestricted)
    case (None, Some(true)) => None
    case (Some(_), Some(true)) => Some(WindowsWithUnrestricted(index))
    case (Some(_), Some(false)) => Some(RedundantUnrestrictedFalse(index))
    case (Some(windows), None) => WindowsError(index, windows)
    case (None, _) => Some(NoWindows(index))
  }

  /** A whole number of seconds from a minute to 31 days. */
  predicate AcceptableDuration(d: Duration) {
    d.nanos == 0 && 60 <= d.secs <= 31 * 24 * 60 * 60
  }

  /** Either some windows, all of acceptable durations, and no word on `unrestricted`, or `unrestricted = true` alone. */
  predicate Acceptable(s: Settings) {
    match s.windows
    case Some(windows) =>
      s.unrestricted.None? && windows != []
      && forall i :: 0 <= i < |windows| ==> AcceptableDuration(windows[i].duration)
    case None => s.unrestricted == Some(true)
  }

  lemma AcceptableSettings(index: nat, s: Settings)
    ensures SettingsError(index, s).None? <==> Acceptable(s)
  {
    if s.windows.Some? {
      var windows := s.windows.value;
      ValidationIsExact(index, windows);
      assert forall i :: 0 <= i < |windows| ==> InSeconds(windows)[i] in InSeconds(windows) && windows[i] in windows;
    }
  }

  /** The first of a rule's windows with a bad duration, at `k`, is the one that is reported. */
  lemma {:induction false} FirstBadWindowIsReported(index: nat, windows: seq<RawWindow>, k: nat)
    requires k < |windows| && !AcceptableDuration(windows[k].duration)
    requires forall j :: 0 <= j < k ==> AcceptableDuration(windows[j].duration)
    ensures WindowsError(index, windows)
         == Some(if windows[k].duration.nanos == 0 && windows[k].duration.secs >= 60
                 then WindowTooLong(index, windows[k].duration) else WindowTooShort(index, windows[k].duration))
  {
    if k > 0 {
      assert AcceptableDuration(windows[0].duration);
      FirstBadWindowIsReported(index, windows[1..], k - 1);
    }
  }

  /** The windows that a rule without errors enforces; none when it is unrestricted. */
  function EnforcedWindows(s: Settings): seq<Window> {
    if s.windows.Some? then InSeconds(s.windows.value) else []
  }

  /** `build_plan`. */
  method BuildPlan(index: nat, s: Settings) returns (r: Result<CheckPlan, ConfigError>)
    ensures r == match SettingsError(index, s)
                 case Some(e) => Err(e)
                 case None => Ok(PlanOf(EnforcedWindows(s)))
    ensures s.windows.Some? && s.unrestricted == Some(true) ==> r == Err(WindowsWithUnrestricted(index))
    ensures s.windows.Some? && s.unrestricted == Some(false) ==> r == Err(RedundantUnrestrictedFalse(index))
    ensures s.windows.None? && s.unrestricted != Some(true) ==> r == Err(NoWindows(index))
    ensures s == Settings(Some([]), None) ==> r == Err(NoWindows(index))
    ensures r.Ok? <==> Acceptable(s)
    ensures r.Ok? ==> FollowsSettings(r.value, s)
  {
    AcceptableSettings(index, s);
    if Acceptable(s) {
      PlansFollowSettings(index, s);
    }
    match (s.windows, s.unrestricted) {
      case (None, Some(true)) =>
        var plan := NewPlan([]);
        return Ok(plan);
      case (Some(_), Some(true)) => return Err(WindowsWithUnrestricted(index));
      case (Some(_), Some(false)) => return Err(RedundantUnrestrictedFalse(index));
      case (Some(windows), None) =>
        var error := ValidateWindows(index, windows);
        if error.Some? {
          return Err(error.value);
        }
        var plan := NewPlan(InSeconds(windows));
        return Ok(plan);
      case (None, _) => return Err(NoWindows(index));
    }
  }

  // ---------- loading ----------

  function DefaultRules(rules: seq<RawRule>): nat {
    if rules == [] then 0
    else DefaultRules(rules[..|rules| - 1]) + if rules[|rules| - 1].DefaultRule? then 1 else 0
  }

  function RuleError(regexes: Regexes, index: nat, rule: RawRule): Option<ConfigError> {
    if rule.UsernameRule? && rule.username == "" then Some(EmptyUsername(index))
    else if SettingsError(index, rule.settings).Some? then SettingsError(index, rule.settings)
    else if rule.RegexRule? && !regexes.compiles(rule.regex) then Some(BadRegex(index))
    else None
  }

  predicate Matches(regexes: Regexes, matcher: Matcher, username: string) {
    match matcher
    case Exactly(name) => name == username
    case Pattern(regex) => regexes.isMatch(regex, username)
  }

  /** The plan of the first of `limits` that matches. */
  function FirstMatch(regexes: Regexes, limits: seq<Rule>, username: string): Option<CheckPlan> {
    if limits == [] then None
    else if Matches(regexes, limits[0].matcher, username) then Some(limits[0].plan)
    else FirstMatch(regexes, limits[1..], username)
  }

  /** `plan_for`. */
  function PlanFor(regexes: Regexes, config: Config, username: string): CheckPlan {
    match FirstMatch(regexes, config.limits, username)
    case Some(plan) => plan
    case None => config.defaultPlan
  }

  lemma {:induction false} FirstMatchOfAppended(regexes: Regexes, limits: seq<Rule>, rule: Rule, username: string)
    ensures FirstMatch(regexes, limits + [rule], username)
         == match FirstMatch(regexes, limits, username)
            case Some(plan) => Some(plan)
            case None => if Matches(regexes, rule.matcher, username) then Some(rule.plan) else None
  {
    if limits == [] {
      assert limits + [rule] == [rule];
    } else {
      FirstMatchOfAppended(regexes, limits[1..], rule, username);
      assert (limits + [rule])[1..] == limits[1..] + [rule];
    }
  }

  function MatcherOf(rule: RawRule): Matcher
    requires !rule.DefaultRule?
  {
    if rule.UsernameRule? then Exactly(rule.username) else Pattern(rule.regex)
  }

  /** The limits that rules without errors load to: all but the default, in order. */
  function LimitsOf(rules: seq<RawRule>): seq<Rule> {
    if rules == [] then []
    else
      var last := rules[|rules| - 1];
      LimitsOf(rules[..|rules| - 1])
      + if last.DefaultRule? then [] else [Rule(MatcherOf(last), PlanOf(EnforcedWindows(last.settings)))]
  }

  /** The plan of the default rule. */
  function DefaultOf(rules: seq<RawRule>): Option<CheckPlan> {
    if rules == [] then None
    else
      var last := rules[|rules| - 1];
      if last.DefaultRule? then Some(PlanOf(EnforcedWindows(last.settings))) else DefaultOf(rules[..|rules| - 1])
  }

  /** The configuration that rules without errors load to. */
  function ConfigOf(server: Server, rules: seq<RawRule>): Config {
    Config(server, LimitsOf(rules), match DefaultOf(rules) case Some(plan) => plan case None => EMPTY_PLAN)
  }

  /** The error of the first rule that has one, counting from `index`. */
  function FirstRuleError(regexes: Regexes, rules: seq<RawRule>, index: nat): Option<ConfigError>
    requires index <= |rules|
    decreases |rules| - index
  {
    if index == |rules| then None
    else match RuleError(regexes, index, rules[index])
      case Some(e) => Some(e)
      case None => FirstRuleError(regexes, rules, index + 1)
  }

  /** The first thing wrong with a configuration, in the order in which loading looks. */
  function LoadError(regexes: Regexes, server: Server, rules: seq<RawRule>): Option<ConfigError> {
    if DefaultRules(rules) != 1 then Some(DefaultCount(DefaultRules(rules)))
    else match FirstRuleError(regexes, rules, 0)
      case Some(e) => Some(e)
      case None => if server.controlSocket == Some(server.socket) then Some(ControlSocketSameAsSocket) else None
  }

  lemma {:induction false} OneDefaultIsFound(rules: seq<RawRule>)
    ensures DefaultOf(rules).Some? <==> DefaultRules(rules) > 0
  {
    if rules != [] {
      OneDefaultIsFound(rules[..|rules| - 1]);
    }
  }

  /** One more rule, loaded without error, adds itself to the limits or is the default. */
  lemma LoadingExtends(rules: seq<RawRule>, index: nat)
    requires index < |rules|
    ensures var rule, plan := rules[index], PlanOf(EnforcedWindows(rules[index].settings));
            && LimitsOf(rules[..index + 1])
            == (if rule.DefaultRule? then LimitsOf(rules[..index])
                else LimitsOf(rules[..index]) + [Rule(MatcherOf(rule), plan)])
            && DefaultOf(rules[..index + 1]) == if rule.DefaultRule? then Some(plan) else DefaultOf(rules[..index])
  {
    assert rules[..index + 1][..index] == rules[..index];
    assert LimitsOf(rules[..index]) + [] == LimitsOf(rules[..index]);
  }

  /** The part of `Config::load` that follows decoding: the default count, the rule loop, the sockets. */
  method Load(regexes: Regexes, server: Server, rules: seq<RawRule>) returns (r: Result<Config, ConfigError>)
    ensures r == match LoadError(regexes, server, rules)
                 case Some(e) => Err(e)
                 case None => Ok(ConfigOf(server, rules))
  {
    OneDefaultIsFound(rules);
    if DefaultRules(rules) != 1 {
      return Err(DefaultCount(DefaultRules(rules)));
    }
    var limits: seq<Rule> := [];
    var defaultPlan: Option<CheckPlan> := None;
    for index := 0 to |rules|
      invariant limits == LimitsOf(rules[..index]) && defaultPlan == DefaultOf(rules[..index])
      invariant FirstRuleError(regexes, rules, index) == FirstRuleError(regexes, rules, 0)
    {
      var rule := rules[index];
      LoadingExtends(rules, index);
      if rule.UsernameRule? && rule.username == "" {
        return Err(EmptyUsername(index));
      }
      var built := BuildPlan(index, rule.settings);
      if built.Err? {
        return Err(built.error);
      }
      if rule.RegexRule? && !regexes.compiles(rule.regex) {
        return Err(BadRegex(index));
      }
      if rule.DefaultRule? {
        defaultPlan := Some(built.value);
      } else {
        limits := limits + [Rule(MatcherOf(rule), built.value)];
      }
    }
    assert rules[..|rules|] == rules;
    if server.controlSocket == Some(server.socket) {
      return Err(ControlSocketSameAsSocket);
    }
    return Ok(Config(server, limits, defaultPlan.value));
  }

  // ---------- what a loaded configuration means ----------

  /** Whether a rule as written names `username`; a default rule names nobody. */
  predicate Names(regexes: Regexes, rule: RawRule, username: string) {
    match rule
    case UsernameRule(name, _) => username == name
    case RegexRule(regex, _) => regexes.isMatch(regex, username)
    case DefaultRule(_) => false
  }

  /** Rule `k` is the first that names `username`. */
  ghost predicate NamesFirst(regexes: Regexes, rules: seq<RawRule>, k: nat, username: string) {
    && k < |rules| && Names(regexes, rules[k], username)
    && forall j :: 0 <= j < k ==> !Names(regexes, rules[j], username)
  }

  ghost predicate NamesNobody(regexes: Regexes, rules: seq<RawRule>, username: string) {
    forall j :: 0 <= j < |rules| ==> !Names(regexes, rules[j], username)
  }

  lemma {:induction false} NobodyMatches(regexes: Regexes, rules: seq<RawRule>, username: string)
    requires NamesNobody(regexes, rules, username)
    ensures FirstMatch(regexes, LimitsOf(rules), username) == None
  {
    if rules != [] {
      var init, last := rules[..|rules| - 1], rules[|rules| - 1];
      NobodyMatches(regexes, init, username);
      if !last.DefaultRule? {
        FirstMatchOfAppended(regexes, LimitsOf(init), Rule(MatcherOf(last), PlanOf(EnforcedWindows(last.settings))),
                             username);
      } else {
        assert LimitsOf(init) + [] == LimitsOf(init);
      }
    }
  }

  lemma {:induction false} FirstNamedMatches(regexes: Regexes, rules: seq<RawRule>, k: nat, username: string)
    requires NamesFirst(regexes, rules, k, username)
    ensures FirstMatch(regexes, LimitsOf(rules), username) == Some(PlanOf(EnforcedWindows(rules[k].settings)))
  {
    var init, last := rules[..|rules| - 1], rules[|rules| - 1];
    if k == |rules| - 1 {
      NobodyMatches(regexes, init, username);
    } else {
      FirstNamedMatches(regexes, init, k, username);
    }
    if last.DefaultRule? {
      assert LimitsOf(init) + [] == LimitsOf(init);
    } else {
      FirstMatchOfAppended(regexes, LimitsOf(init), Rule(MatcherOf(last), PlanOf(EnforcedWindows(last.settings))),
                           username);
    }
  }

  lemma {:induction false} NoDefaultsMeansNone(rules: seq<RawRule>, k: nat)
    requires k < |rules| && DefaultRules(rules) == 0
    ensures !rules[k].DefaultRule?
  {
    if k < |rules| - 1 {
      NoDefaultsMeansNone(rules[..|rules| - 1], k);
    }
  }

  lemma {:induction false} TheDefaultIsLoaded(rules: seq<RawRule>, k: nat)
    requires k < |rules| && rules[k].DefaultRule? && DefaultRules(rules) == 1
    ensures DefaultOf(rules) == Some(PlanOf(EnforcedWindows(rules[k].settings)))
  {
    var init := rules[..|rules| - 1];
    if k < |rules| - 1 {
      if rules[|rules| - 1].DefaultRule? {
        NoDefaultsMeansNone(init, k);
      } else {
        TheDefaultIsLoaded(init, k);
      }
    }
  }

  lemma {:induction false} EveryRuleIsSound(regexes: Regexes, rules: seq<RawRule>, index: nat, k: nat)
    requires index <= k < |rules| && FirstRuleError(regexes, rules, index).None?
    ensures RuleError(regexes, k, rules[k]).None?
    decreases k - index
  {
    if index < k {
      EveryRuleIsSound(regexes, rules, index + 1, k);
    }
  }

  /** Rule `k` is in force for `username`: the first that names it, or else the default, wherever that stands. */
  ghost predicate InForce(regexes: Regexes, rules: seq<RawRule>, k: nat, username: string) {
    || NamesFirst(regexes, rules, k, username)
    || (k < |rules| && rules[k].DefaultRule? && NamesNobody(regexes, rules, username))
  }

  lemma {:induction false} SomeDefaultExists(rules: seq<RawRule>)
    requires DefaultRules(rules) > 0
    ensures exists k :: 0 <= k < |rules| && rules[k].DefaultRule?
  {
    var init := rules[..|rules| - 1];
    if rules[|rules| - 1].DefaultRule? {
    } else {
      SomeDefaultExists(init);
      var k :| 0 <= k < |init| && init[k].DefaultRule?;
      assert rules[k].DefaultRule?;
    }
  }

  lemma {:induction false} FirstNamingExists(regexes: Regexes, rules: seq<RawRule>, username: string, n: nat)
    requires n < |rules| && Names(regexes, rules[n], username)
    ensures exists k: nat :: NamesFirst(regexes, rules, k, username)
  {
    if j :| 0 <= j < n && Names(regexes, rules[j], username) {
      FirstNamingExists(regexes, rules, username, j);
    } else {
      assert NamesFirst(regexes, rules, n, username);
    }
  }

  /** A configuration that loads has a rule in force for everybody. */
  lemma SomeRuleIsInForce(regexes: Regexes, server: Server, rules: seq<RawRule>, username: string)
    requires LoadError(regexes, server, rules).None?
    ensures exists k: nat :: InForce(regexes, rules, k, username)
  {
    if NamesNobody(regexes, rules, username) {
      SomeDefaultExists(rules);
      var k: nat :| k < |rules| && rules[k].DefaultRule?;
      assert InForce(regexes, rules, k, username);
    } else {
      var n: nat :| n < |rules| && Names(regexes, rules[n], username);
      FirstNamingExists(regexes, rules, username, n);
      var k: nat :| NamesFirst(regexes, rules, k, username);
      assert InForce(regexes, rules, k, username);
    }
  }

  /** In a configuration that loads, a sender is held to the windows of the rule in force for it. */
  lemma PlansFollowTheRuleInForce(regexes: Regexes, server: Server, rules: seq<RawRule>, username: string, k: nat)
    requires LoadError(regexes, server, rules).None? && InForce(regexes, rules, k, username)
    ensures PlanFor(regexes, ConfigOf(server, rules), username) == PlanOf(EnforcedWindows(rules[k].settings))
  {
    if NamesFirst(regexes, rules, k, username) {
      FirstNamedMatches(regexes, rules, k, username);
    } else {
      NobodyMatches(regexes, rules, username);
      TheDefaultIsLoaded(rules, k);
    }
  }

  /** No username rule before `k` is for this very name, and no regular expression before `k` matches it. */
  ghost predicate PassedOverBefore(regexes: Regexes, rules: seq<RawRule>, k: nat, username: string)
    requires k <= |rules|
  {
    forall j :: 0 <= j < k ==>
      && (rules[j].UsernameRule? ==> rules[j].username != username)
      && (rules[j].RegexRule? ==> !regexes.isMatch(rules[j].regex, username))
  }

  /**
   Of a configuration that loads, the rule that decides about a name, read off the rules as written: the first
   username rule for that very name or regular expression that matches it, or else the default rule. The
   sender is held to exactly the windows written there, or to none.
   */
  lemma FirstRuleDecides(regexes: Regexes, server: Server, rules: seq<RawRule>, username: string, k: nat)
    requires LoadError(regexes, server, rules).None? && k < |rules|
    requires match rules[k]
             case UsernameRule(name, _) => name == username && PassedOverBefore(regexes, rules, k, username)
             case RegexRule(regex, _) =>
               regexes.isMatch(regex, username) && PassedOverBefore(regexes, rules, k, username)
             case DefaultRule(_) => PassedOverBefore(regexes, rules, |rules|, username)
    ensures FollowsSettings(PlanFor(regexes, ConfigOf(server, rules), username), rules[k].settings)
    ensures ConfigOf(server, rules).server == server
  {
    assert InForce(regexes, rules, k, username);
    PlansFollowTheRuleInForce(regexes, server, rules, username, k);
    EveryRuleIsSound(regexes, rules, 0, k);
    PlansFollowSettings(k, rules[k].settings);
  }

  /** A rule that could stand in a configuration. */
  predicate AcceptableRule(regexes: Regexes, rule: RawRule) {
    && Acceptable(rule.settings)
    && (rule.UsernameRule? ==> rule.username != "")
    && (rule.RegexRule? ==> regexes.compiles(rule.regex))
  }

  /** Rule `k` is the one default rule. */
  ghost predicate IsOnlyDefault(rules: seq<RawRule>, k: nat) {
    k < |rules| && forall j :: 0 <= j < |rules| ==> (rules[j].DefaultRule? <==> j == k)
  }

  lemma {:induction false} DefaultsAreCounted(rules: seq<RawRule>, k: nat)
    requires k < |rules| && rules[k].DefaultRule?
    ensures DefaultRules(rules) == 1 <==> IsOnlyDefault(rules, k)
  {
    var init, last := rules[..|rules| - 1], rules[|rules| - 1];
    if k < |rules| - 1 {
      DefaultsAreCounted(init, k);
      ADefaultCounts(init, k);
      assert last.DefaultRule? ==> rules[|rules| - 1].DefaultRule? && |rules| - 1 != k;
      assert IsOnlyDefault(rules, k) ==> IsOnlyDefault(init, k);
    } else if DefaultRules(init) == 0 {
      forall j | 0 <= j < |init|
        ensures !rules[j].DefaultRule?
      {
        NoDefaultsMeansNone(init, j);
      }
    } else {
      SomeDefaultExists(init);
      var j :| 0 <= j < |init| && init[j].DefaultRule?;
      assert rules[j].DefaultRule?;
    }
  }

  lemma {:induction false} ADefaultCounts(rules: seq<RawRule>, k: nat)
    requires k < |rules| && rules[k].DefaultRule?
    ensures DefaultRules(rules) > 0
  {
    if DefaultRules(rules) == 0 {
      NoDefaultsMeansNone(rules, k);
    }
  }

  lemma RuleErrorIsExact(regexes: Regexes, index: nat, rule: RawRule)
    ensures RuleError(regexes, index, rule).None? <==> AcceptableRule(regexes, rule)
  {
    AcceptableSettings(index, rule.settings);
  }

  lemma {:induction false} NoRuleErrors(regexes: Regexes, rules: seq<RawRule>, index: nat)
    requires index <= |rules|
    ensures FirstRuleError(regexes, rules, index).None?
        <==> forall k :: index <= k < |rules| ==> AcceptableRule(regexes, rules[k])
    decreases |rules| - index
  {
    if index < |rules| {
      RuleErrorIsExact(regexes, index, rules[index]);
      NoRuleErrors(regexes, rules, index + 1);
    }
  }

  lemma {:induction false} FirstBadRuleIsFound(regexes: Regexes, rules: seq<RawRule>, index: nat, k: nat)
    requires index <= k < |rules| && !AcceptableRule(regexes, rules[k])
    requires forall j :: index <= j < k ==> AcceptableRule(regexes, rules[j])
    ensures FirstRuleError(regexes, rules, index) == RuleError(regexes, k, rules[k])
    decreases k - index
  {
    RuleErrorIsExact(regexes, index, rules[index]);
    if index < k {
      FirstBadRuleIsFound(regexes, rules, index + 1, k);
    }
  }

  /** With one default, the first rule that cannot stand is reported: for its name first, and for its pattern last. */
  lemma FirstBadRuleIsReported(regexes: Regexes, server: Server, rules: seq<RawRule>, d: nat, k: nat)
    requires IsOnlyDefault(rules, d)
    requires k < |rules| && !AcceptableRule(regexes, rules[k])
    requires forall j :: 0 <= j < k ==> AcceptableRule(regexes, rules[j])
    ensures LoadError(regexes, server, rules)
         == if rules[k].UsernameRule? && rules[k].username == "" then Some(EmptyUsername(k))
            else if !Acceptable(rules[k].settings) then SettingsError(k, rules[k].settings)
            else Some(BadRegex(k))
  {
    DefaultsAreCounted(rules, d);
    FirstBadRuleIsFound(regexes, rules, 0, k);
    AcceptableSettings(k, rules[k].settings);
  }

  /** The places at which default rules stand. */
  ghost function DefaultPlaces(rules: seq<RawRule>): set<nat> {
    set k: nat | k < |rules| && rules[k].DefaultRule?
  }

  lemma {:induction false} DefaultsAreCountedByPlace(rules: seq<RawRule>)
    ensures DefaultRules(rules) == |DefaultPlaces(rules)|
  {
    if rules != [] {
      var n := |rules| - 1;
      DefaultsAreCountedByPlace(rules[..n]);
      assert DefaultPlaces(rules) == DefaultPlaces(rules[..n]) + if rules[n].DefaultRule? then {n} else {};
    }
  }

  /** Any other number of defaults is reported before anything else, and equal sockets after everything else. */
  lemma OtherRefusalsAreReported(regexes: Regexes, server: Server, rules: seq<RawRule>)
    ensures |DefaultPlaces(rules)| != 1
        ==> LoadError(regexes, server, rules) == Some(DefaultCount(|DefaultPlaces(rules)|))
    ensures |DefaultPlaces(rules)| == 1 && (forall k :: 0 <= k < |rules| ==> AcceptableRule(regexes, rules[k]))
            && server.controlSocket == Some(server.socket)
        ==> LoadError(regexes, server, rules) == Some(ControlSocketSameAsSocket)
  {
    DefaultsAreCountedByPlace(rules);
    NoRuleErrors(regexes, rules, 0);
  }

  /** Exactly these configurations load: one default rule, all rules acceptable, and two different sockets. */
  lemma LoadsExactly(regexes: Regexes, server: Server, rules: seq<RawRule>)
    ensures LoadError(regexes, server, rules).None?
        <==> && (exists k: nat :: IsOnlyDefault(rules, k))
             && (forall k :: 0 <= k < |rules| ==> AcceptableRule(regexes, rules[k]))
             && server.controlSocket != Some(server.socket)
  {
    NoRuleErrors(regexes, rules, 0);
    if DefaultRules(rules) > 0 {
      SomeDefaultExists(rules);
      var k: nat :| k < |rules| && rules[k].DefaultRule?;
      DefaultsAreCounted(rules, k);
      assert forall j: nat :: IsOnlyDefault(rules, j) ==> j == k;
    }
    if k: nat :| IsOnlyDefault(rules, k) {
      DefaultsAreCounted(rules, k);
    }
  }

  lemma SoundSettingsAreValid(index: nat, s: Settings)
    requires SettingsError(index, s).None?
    ensures ValidWindows(EnforcedWindows(s))
    ensures EnforcedWindows(s) == [] <==> s.unrestricted == Some(true)
  {
    if s.windows.Some? {
      ValidationIsExact(index, s.windows.value);
    }
  }

  /** Every rule of a configuration that loads has valid windows, and none exactly when it says `unrestricted = true`. */
  lemma LoadedWindowsAreValid(regexes: Regexes, server: Server, rules: seq<RawRule>, k: nat)
    requires LoadError(regexes, server, rules).None? && k < |rules|
    ensures ValidWindows(EnforcedWindows(rules[k].settings))
    ensures EnforcedWindows(rules[k].settings) == [] <==> rules[k].settings.unrestricted == Some(true)
  {
    EveryRuleIsSound(regexes, rules, 0, k);
    SoundSettingsAreValid(k, rules[k].settings);
  }
}
