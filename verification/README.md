# A verified model of postfix-ratelimitd

postfix-ratelimitd answers Postfix policy requests: it caps the recipients a SASL user may address within
sliding time windows. Counts live in Valkey hashes, rounded to time buckets, pruned and left to expire; one
script reads them, decides, and records. This project models that script, the planning of windows around it,
the key names, the status query, the request reader, and the daemon's reloads, connection slots and
statistics, and proves what they guarantee.

The main results are about whole runs: any number of instances and senders checking against one database in
any order, while time passes, TTLs run out, and backend calls fail before or after the script has run.

* `Runs.RunsRefineLedgers`: the store that merges windows, rounds, prunes and expires replies exactly as
  full ledgers that forget nothing, checked window by window.
* `Guarantees.EveryWindowIsEnforced`: no closed interval as long as a configured window, anywhere in time,
  holds more recipients recorded in the store than the window's count, also when the caller never heard of it.
* `Handler.WrittenWindowsAreKept`: each window written in the rule that decides about a sender bounds what Postfix
  is told to let through, from the file to the answers.
* `Guarantees.FailsClosedIffDefer` and `Handler.AnswersStayWithinLimitsIffDefer`: what Postfix is told to let
  through keeps those bounds under every pattern of backend failures if and only if `on_redis_error = defer`.
* `Isolation.SendersDoNotInterfere`: each sender is answered as if alone on a database of its own.
* `Status.StatusAgreesWithEnforcement`: the status query predicts the limiter's verdict exactly.
* `Reload.MissedExactlyInTheGap`: which SIGHUPs a reload can miss, exactly.
* `Encoding.SizeErrorIsMissedInsideACharacter`: which oversized requests miss the size error, exactly.

## Layout

| file | what it models |
|---|---|
| `Wrappers.dfy` | option and result, and the end of a sequence |
| `Ladder.dfy` | the choice of a bucket size for a window's duration |
| `Plans.dfy` | grouping windows into a check plan, and what a plan means |
| `Config.dfy` | validation of rules, loading, and the plan in force for a user |
| `Ledger.dfy` | the reference: recorded messages, never pruned, and sums over them |
| `Store.dfy` | Valkey's hashes and the check-and-record script |
| `Keys.dfy` | the printer of bucket keys and its inverse |
| `Limiter.dfy` | one script call for one sender, with backend faults |
| `Mirror.dfy` | how one key's hash mirrors the full ledger |
| `Runs.dfy` | whole runs and their refinement to ledgers |
| `Guarantees.dfy` | safety, failing closed, precision, recovery, storage |
| `Isolation.dfy` | senders and instances on one database |
| `Status.dfy` | the status query of the control socket |
| `Protocol.dfy` | framing of policy requests on a byte stream |
| `Encoding.dfy` | UTF-8, and what it makes of the request size limit |
| `Handler.dfy` | answering a request, and runs of requests end to end |
| `Reload.dfy` | the SIGHUP handler and the reload worker, step by step |
| `Connections.dfy` | the connection slots |
| `Statistics.dfy` | counters, reports and throttled logging |

## How to read the model

* The database is a field of class `Valkey`; the script is the method `CheckAndRecord` with the script's own
  loops, and it is proved equal to a function (`Allows`, `RecordFirst`). `Limiter.Checked` is one call with
  its possible fault; `SaslLimiter.CheckSasl` is proved equal to it, and `Runs.Run` iterates it.
* Time is Valkey's clock in whole seconds and never turns back; the script and the TTLs share it. A key may
  be dropped at any moment once its deadline has been reached, and need not be: this covers TTLs that
  run in milliseconds.
* A fault strikes a call before the script, which then did not run, or after it, which then did. Either way
  the caller sees an error.
* Integers stand for the script's doubles: bucket sizes are powers of two, so the division before `floor`
  is exact. The status sum wraps at 32 bits, as its type does.
* HGETALL returns a hash's fields in an unspecified order; every sum is proved independent of it.
* Regular expressions are an uninterpreted predicate. Framing is proved for any notion of valid text;
  `Encoding.dfy` defines UTF-8 by section 4 of RFC 3629 and applies the results to it.
* The comment at lua/check_and_record.lua:18-20 says the retention is used as each key's EXPIRE. The code
  (line 96) adds one bucket size, the model follows the code, and `Mirror.TtlIsTight` shows why it must.
* The comment at src/bin/postfix-ratelimitd.rs:623-626 says that a SIGHUP arriving during a reload is not
  dropped. The code has one gap, between the worker's last comparison (line 637) and its `store(false)`
  (line 642); `Reload.ASighupCanBeLost` gives a run that falls into it.
* src/protocol.rs:23-37 does not always report an oversized request as such: the text of a line is checked
  before its size, so a request that the cap cuts inside a multi-byte character fails as invalid text.
  `Encoding.SizeErrorIsMissedInsideACharacter` states exactly when (the first byte past the cap continues a
  character) and `Encoding.ARequestCanMissTheSizeError` gives such a request.

## Model

| member | source | states |
|---|---|---|
| `Ladder.ComputeBucketSize` | src/config.rs:99-106 | the doubling loop terminates at the size that the climb defines |
| `Ladder.BucketSizeIsLargestSpannedRung` | src/config.rs:78-106 | the size is the one largest power of two, up to 86400 s, of which 50 fit into the duration, or 1 when none does |
| `Ladder.BucketSizeIsMonotone` | src/config.rs:99-106 | longer windows never get smaller buckets |
| `Ladder.ValidDurationsSpanFiftyToAHundredBuckets` | src/config.rs:78-106 | for durations from 60 s to 31 days, 50 buckets fit in the window and 100 do not, so the one-day cap never stops the climb |
| `Plans.NewPlan` | src/config.rs:135-157 | the loop over three growing arrays computes the plan that adds the windows one by one |
| `Plans.PlanIsWellFormed` | src/config.rs:120-157 | bucket sizes are distinct, indices in range, planned windows distinct, every key used, and each retention is the longest span on its key |
| `Plans.PlanCoversItsWindows` | src/config.rs:140-154 | every configured window is enforced, under its own bucket size and at least as strictly |
| `Plans.PlanIsFaithful` | src/config.rs:140-154 | every planned window is one of the configured ones, with its span, limit and bucket size |
| `Plans.EqualSpansCollapse` | src/config.rs:150-154 | a plan has one window for each span, and none looser than any window configured with that span |
| `Plans.PlanningPreservesMeaning` | src/config.rs:135-157 | for any way of counting, the plan allows a request exactly when each original window alone does |
| `Plans.VerdictIgnoresOrderAndDuplicates` | src/config.rs:150-154 | the order and the repetition of windows never change a verdict |
| `Plans.OnlyNoWindowsPlansNoKeys` | src/limiter.rs:134-142 | a plan without keys comes only from a rule without windows |
| `Plans.RetentionIsWithinAHundredBuckets` | src/config.rs:128-148 | a key keeps at least 50 and fewer than 100 buckets' worth of seconds |
| `Config.ValidateWindows` | src/config.rs:276-289 | the scan returns the error of the first bad window, or that there are none |
| `Config.ValidationIsExact` | src/config.rs:276-289 | a list passes exactly when every duration is whole seconds from 60 s to 31 days |
| `Config.BuildPlan` | src/config.rs:295-308 | succeeds exactly for `unrestricted = true` alone, or for some windows of whole seconds from 60 s to 31 days alone; then each window as written is planned, nothing else is, and the verdict is that of the windows as written; every other combination gives its own error |
| `Config.FirstBadWindowIsReported` | src/config.rs:276-289 | the first window of bad duration is the one reported, as too short or too long |
| `Config.Load` | src/config.rs:340-381 | loading gives the configuration of the rules in order, the default apart, or the first error in the order of checking |
| `Config.LoadsExactly` | src/config.rs:340-370 | a configuration loads exactly when it has one default rule, every rule has a name or pattern and settings that can stand, and the sockets differ |
| `Config.FirstBadRuleIsReported` | src/config.rs:346-366 | with one default, the first bad rule is reported, its name checked before its settings and its pattern last |
| `Config.OtherRefusalsAreReported` | src/config.rs:340-370 | another number of defaults is reported before anything else, equal socket paths after everything else |
| `Config.SomeRuleIsInForce` | src/config.rs:340-344 | a configuration that loads has a rule in force for every user |
| `Config.PlansFollowTheRuleInForce` | src/config.rs:384-389 | a user gets the plan of the first rule as written that names it, else the default's, wherever that stands |
| `Config.FirstRuleDecides` | src/config.rs:61-68 | off the file: the first username rule for that very name or pattern that matches it, else the default, decides, and the user is held to exactly the windows written there |
| `Config.LoadedWindowsAreValid` | src/config.rs:291-308 | loaded rules have valid windows, and none exactly when they say `unrestricted = true` |
| `Ledger.WindowSumIsPrecise` | lua/check_and_record.lua:67-79 | the bucket sum lies between the exact sums over the window and over the window plus one bucket |
| `Ledger.OvercountIsWithinTwoPercent` | src/config.rs:84-106 | for valid durations the sum never reaches back beyond 1.02 times the window |
| `Ledger.AllowedEventKeepsBound` | lua/check_and_record.lua:64-92 | recording what the bucket sum allows keeps every interval of that span, at any time, within the limit |
| `Ledger.CountFallsOverTime` | lua/check_and_record.lua:69-79 | a window's count only falls while nothing is recorded |
| `Ledger.CountVanishes` | lua/check_and_record.lua:69-79 | one span and one bucket after the last record the count is zero |
| `Store.Valkey.HGetAll` | lua/check_and_record.lua:50-50 | the reply lists each field of the hash once, in some order |
| `Store.Valkey.HIncrBy` | lua/check_and_record.lua:92-92 | the field grows by the count, keeping the TTL; missing keys and fields are created |
| `Store.Valkey.Expire` | lua/check_and_record.lua:96-96 | the TTL of an existing key is reset from now |
| `Store.Valkey.HDel` | lua/check_and_record.lua:107-107 | the listed fields go; an empty list is never passed |
| `Store.Valkey.Fetch` | lua/check_and_record.lua:49-62 | the parsed buckets are the hash and `min_id` is its smallest id, or nothing when it is empty |
| `Store.Valkey.Total` | lua/check_and_record.lua:68-79 | the loop adds to the request's recipients every bucket that ends after the cutoff, in whatever order they come |
| `Store.Valkey.Stale` | lua/check_and_record.lua:101-106 | the list holds exactly the ids that end by the cutoff |
| `Store.Valkey.RecordKey` | lua/check_and_record.lua:89-109 | increment, TTL and guarded prune amount to one update that always filters |
| `Store.Valkey.FetchAll` | lua/check_and_record.lua:47-62 | every key is fetched once |
| `Store.Valkey.CheckWindows` | lua/check_and_record.lua:67-84 | the verdict is positive exactly when every window has room |
| `Store.Valkey.CheckAndRecord` | lua/check_and_record.lua:26-111 | a rejected request changes nothing; an accepted one records to every key of the plan |
| `Store.HashSumSplits` | lua/check_and_record.lua:72-78 | a hash's sum does not depend on the order of summing |
| `Store.NothingStale` | lua/check_and_record.lua:43-46 | when the smallest id is not stale, no id is |
| `Store.PruneIsExact` | lua/check_and_record.lua:98-108 | past the guard the list is never empty, never holds the bucket just written, and deleting it is filtering |
| `Store.SkippedPruneIsExact` | lua/check_and_record.lua:98-100 | before the guard, skipping the scan is filtering |
| `Store.CurrentBucketIsKept` | lua/check_and_record.lua:91-107 | the bucket just incremented survives the prune with its full count |
| `Store.RecordFirstAt` | lua/check_and_record.lua:86-97 | each key is recorded to exactly once, however many windows share it |
| `Store.RecordFirstFrame` | lua/check_and_record.lua:86-97 | no other key is touched |
| `Keys.EscapeIsPerCharacter` | src/limiter.rs:51-59 | the two replacement passes, and the short cut around them, equal escaping each character once |
| `Keys.UnescapeInvertsEscape` | src/limiter.rs:51-59 | escaping loses nothing |
| `Keys.EscapedText` | src/limiter.rs:51-59 | the escaped text, character by character |
| `Keys.DecimalText` | src/limiter.rs:71-73 | sizes are printed in decimal digits |
| `Keys.KeyRoundTrip` | src/limiter.rs:61-73 | a parser from the right recovers prefix, kind, value and size from any key, for any prefix and value |
| `Keys.KeysNeverCollide` | src/limiter.rs:61-73 | equal keys have equal prefixes, kinds, values and sizes |
| `Keys.KindWithColonsCollides` | src/limiter.rs:61-67 | without the restriction on kinds, keys of different prefixes and kinds do collide |
| `Limiter.SaslLimiter.CheckSasl` | src/limiter.rs:127-159 | one call has the outcome of the script on one key per bucket size; an empty plan never reaches the backend; a fault hides whether the script ran |
| `Limiter.KeyText` | src/limiter.rs:40-73 | a sender's key is its prefix, `:bucket:v1:sasl:`, the escaped name, a colon and the decimal size |
| `Limiter.SenderKeysNeverCollide` | src/limiter.rs:147-150 | different senders, instances or sizes never meet in a key |
| `Limiter.KeysAreDistinct` | src/limiter.rs:147-150 | the keys passed to the script are distinct |
| `Mirror.CountsAgree` | lua/check_and_record.lua:67-79 | in a pruned, possibly expired hash a window counts what the full ledger would |
| `Mirror.MirrorsAfterRecord` | lua/check_and_record.lua:86-109 | after a record every entry is a full bucket of the ledger, nothing within retention is missing, and the deadline is the last record plus retention plus a bucket |
| `Mirror.MirrorsAfterExpiry` | lua/check_and_record.lua:93-96 | when a key expires, no window can still count any of its buckets |
| `Mirror.TtlIsTight` | lua/check_and_record.lua:93-96 | one second before the TTL runs out, a bucket may still be counted |
| `Mirror.HashStaysSmall` | lua/check_and_record.lua:98-108 | the buckets left by a record are no more than the retention fills or begins to fill, and one |
| `Runs.VerdictsAgree` | lua/check_and_record.lua:64-84 | the script's verdict on the store is the configured windows' verdict on the full ledger |
| `Runs.StepRefines` | lua/check_and_record.lua:26-111 | every step of the store and of the reference reply alike and keep the mirror for all senders |
| `Runs.RunsRefineLedgers` | lua/check_and_record.lua:26-111 | over every run the replies are those of unpruned ledgers checked window by window |
| `Runs.RepliesFollowLedger` | src/limiter.rs:137-159 | after any run, the reply to any check is read off the sender's own ledger |
| `Runs.StoreKeepsLedger` | lua/check_and_record.lua:86-109 | the messages the store recorded in a run are those of the reference's ledger, and each key holds their full buckets with none missing within retention |
| `Guarantees.EveryWindowIsEnforced` | lua/check_and_record.lua:64-109 | after any run the messages the store recorded, lost replies included, keep every window's bound in every interval of its span, and no window has used more than its limit |
| `Guarantees.DeliveredIsRecorded` | src/bin/postfix-ratelimitd.rs:203-226 | with `defer`, whatever fails, the messages let through are the store's records in order with some left out, so each has a record of its own |
| `Guarantees.FailsClosedIffDefer` | src/bin/postfix-ratelimitd.rs:214-225 | messages let through stay within a window over all runs if and only if errors defer |
| `Guarantees.ExcessIsRejected` | lua/check_and_record.lua:67-84 | a check that would exceed a window's exact total is rejected |
| `Guarantees.RejectionsAreJustified` | lua/check_and_record.lua:67-84 | a rejection is owed to real traffic within 1.02 times the length of some window |
| `Guarantees.AcceptableStaysAcceptable` | lua/check_and_record.lua:67-84 | with nothing recorded in between, an acceptable request stays acceptable |
| `Guarantees.QuietSendersRecover` | lua/check_and_record.lua:67-84 | a request within every limit is accepted once each span and bucket has passed since the last record |
| `Guarantees.RejectedRequestsLeaveNoTrace` | lua/check_and_record.lua:64-84 | leaving out a run's rejected requests changes neither its database nor its other replies |
| `Guarantees.AcceptedRequestsCountOnce` | lua/check_and_record.lua:86-92 | an accepted request adds its count once to the current bucket of each key |
| `Guarantees.StorageIsBounded` | lua/check_and_record.lua:47-62 | however long the run, a key and any listing of it hold at most `ceil(retention / size) + 1` buckets, for valid windows no more than 101 |
| `Guarantees.EndedBucketsAreFinal` | lua/check_and_record.lua:91-108 | over any run a bucket that has ended keeps its count until it is pruned or expires, and is never written again once gone |
| `Isolation.SendersDoNotInterfere` | src/limiter.rs:147-150 | a sender's replies are those of the run with all other senders, instances and expiries left out, on any other database |
| `Status.WrappingTotal` | src/control/mod.rs:119-123 | the filtered 32-bit sum is the hash's count modulo 2^32 |
| `Status.ComputeSaslStatus` | src/control/mod.rs:88-129 | the loops compute the status that the stored hashes determine |
| `Status.StatusReadsTheStore` | src/control/mod.rs:105-126 | on any database: an error exactly when a stored count is no `u32`; else each planned window in order with what its buckets hold, modulo 2^32 |
| `Status.StatusIsAsConfigured` | src/control/mod.rs:88-129 | after any run: `unrestricted` exactly for a sender without windows; otherwise the current second, each configured span once at its strictest limit, and the recipients the store recorded in reach |
| `Status.SaturationIsHarmless` | src/control/mod.rs:116-121 | the saturating cutoff selects the buckets that the script's negative one does |
| `Status.StatusAgreesWithEnforcement` | src/control/mod.rs:111-126 | after any run the status is available, no total exceeds its limit or wraps, and a check of `n` is accepted exactly when every total leaves room for `n` |
| `Protocol.Reader.ReadFrom` | src/protocol.rs:18-50 | the loop computes the result that the bytes determine and consumes exactly the bytes read |
| `Protocol.AttributeRoundTrip` | src/protocol.rs:42-48 | a printed attribute is parsed back to its key and value |
| `Protocol.RequestRoundTrip` | src/protocol.rs:18-50 | a printed request is read back under any cap it fits, the last duplicate winning, and what follows it is left untouched |
| `Protocol.StreamsRoundTrip` | src/protocol.rs:18-50 | requests sent back to back are read back one by one, in order, to the last byte |
| `Protocol.LegibleRequestsAreRead` | src/protocol.rs:42-48 | carriage returns before line feeds and lines without `=` make no difference, and a line is split at its first `=`: the request is what its lines add up to |
| `Protocol.OversizedRequestsAreRefused` | src/protocol.rs:23-41 | a request over the cap is never read; it ends in the size error exactly when what the cap leaves of its last line is empty or valid text, else in the encoding error |
| `Protocol.ReadsAreClassified` | src/protocol.rs:18-50 | for any stream: the encoding error exactly when a line, as cut, is not text and no request was complete before it; else a request exactly when a blank line ends within the cap, else the size error exactly when the cap is used up, else the end of the stream between or within lines |
| `Protocol.OverlongLineIsCutAtAByte` | src/protocol.rs:23-37 | a line past the cap gives the size error exactly when the bytes before the cut are UTF-8 |
| `Encoding.CutFallsBetweenCharacters` | src/protocol.rs:23 | text cut at a byte is text exactly when the next byte does not continue a character |
| `Encoding.Utf8IsWhatItEncodes` | src/protocol.rs:23 | the byte grammar that stands for valid text accepts exactly the encodings of sequences of Unicode scalar values |
| `Encoding.TextIsSendable` | src/protocol.rs:42-48 | a request whose keys and values are UTF-8 meets the conditions of the round trips |
| `Encoding.SizeErrorIsMissedInsideACharacter` | src/protocol.rs:23-37 | a request over the cap ends in the size error if and only if its first byte past the cap does not continue a character, and in the encoding error otherwise |
| `Encoding.ARequestCanMissTheSizeError` | src/protocol.rs:23-37 | a concrete UTF-8 request of 65539 bytes that is reported as invalid text |
| `Handler.CountsRoundTrip` | src/protocol.rs:63-65 | a decimal count is read back, plus sign or not, exactly when it fits in 32 bits |
| `Handler.CountsAreRead` | src/protocol.rs:63-65 | a text is read as a count exactly when it is decimal digits, with zeros or a plus sign in front or not, of a number of at most 32 bits |
| `Handler.UsernamesAreTrimmed` | src/protocol.rs:52-60 | a username that is found is neither blank nor surrounded by whitespace |
| `Handler.NamesAreTrimmed` | src/protocol.rs:52-60 | whitespace around a name is taken off and nothing else |
| `Handler.BlankNamesAreAbsent` | src/protocol.rs:52-60 | a name is absent exactly when the attribute is missing or all whitespace |
| `Handler.Conclude` | src/bin/postfix-ratelimitd.rs:203-226 | each reply moves its own counter and gives its own action; only failures are logged, through the throttle |
| `Handler.HandleRequest` | src/bin/postfix-ratelimitd.rs:163-227 | the method's branches, counters and calls amount to one function of the request, the configuration and the database; misconfiguration, failures and, if wanted, missing names are logged through the throttle |
| `Handler.MiswiredRequestsAreRefused` | src/bin/postfix-ratelimitd.rs:66-174 | any stage but DATA and END-OF-MESSAGE is answered as misconfigured, is counted so, and leaves the database alone |
| `Handler.AnonymousRequestsPass` | src/bin/postfix-ratelimitd.rs:176-188 | a missing or blank name is answered `dunno`, is counted as unauthenticated, and leaves the database alone |
| `Handler.CountlessRequestsAreRefused` | src/bin/postfix-ratelimitd.rs:189-200 | a name without a readable count is answered as misconfigured, is counted so, and leaves the database alone |
| `Handler.SendersAreChecked` | src/bin/postfix-ratelimitd.rs:202-226 | any other request is checked under its trimmed name and written count, whatever else it says; each outcome has its counter and its answer |
| `Handler.AnswersMeanWhatTheySay` | src/bin/postfix-ratelimitd.rs:202-226 | a rate limit answer means a window without room and no record; `dunno` under `defer` means a record, unless unrestricted; only allowed checks change the database |
| `Handler.LoadedDeploymentsAreConsistent` | src/config.rs:384-389 | instances on loaded configurations enforce the windows written, one by one, in the rule in force for each sender |
| `Handler.AnsweredIsDelivered` | src/bin/postfix-ratelimitd.rs:202-226 | the messages answered `dunno` after a check are exactly those the limiter lets through |
| `Handler.AnswersStayWithinLimits` | src/bin/postfix-ratelimitd.rs:163-227 | with `defer`, the recipients answered `dunno` stay within every window, at any time, over any run of requests, instances and faults |
| `Handler.AnswersStayWithinLimitsIffDefer` | src/bin/postfix-ratelimitd.rs:163-227 | the recipients answered `dunno` stay within a window over all runs if and only if the instance defers on errors or no request can carry the sender's name |
| `Handler.WrittenWindowsAreKept` | src/config.rs:384-389 | from the file to the answers: each window written in the rule that decides about a sender bounds what it is let through with, over every run, where errors defer |
| `Reload.PublicationIsSound` | src/bin/postfix-ratelimitd.rs:446-483 | a reload keeps both sockets and pairs the new configuration with a limiter for its address, database, credentials, protocol and prefix |
| `Reload.ReloadsAsWritten` | src/bin/postfix-ratelimitd.rs:426-483 | setting by setting: what is refused, what keeps the running limiter, and what needs a new one |
| `Reload.RefusalIsJustified` | src/bin/postfix-ratelimitd.rs:456-479 | a loaded configuration is refused exactly when it moves a socket, or needs a limiter that could not be built |
| `Reload.InvHolds` | src/bin/postfix-ratelimitd.rs:620-645 | in every interleaving the flag counts the workers and unserved requests are accounted for |
| `Reload.AtMostOneWorker` | src/bin/postfix-ratelimitd.rs:628-643 | at most one worker exists, and only while the flag is set |
| `Reload.PassesAreBounded` | src/bin/postfix-ratelimitd.rs:634-641 | a worker makes at most one pass more than the requests that arrive while it runs |
| `Reload.PublishedStatesAreSound` | src/bin/postfix-ratelimitd.rs:435-483 | in every published state the limiter's address, database, username, password, protocol and prefix are the configuration's and the sockets are those of startup; no reload overwrites a newer state |
| `Reload.ReloadsTakeEffect` | src/bin/postfix-ratelimitd.rs:446-483 | in every run a loaded configuration is refused exactly when it moves a startup socket, or differs in one of those six settings and no limiter could be built; else it is published, with a new limiter exactly when one differs |
| `Reload.OnlyReloadsPublish` | src/bin/postfix-ratelimitd.rs:446-483 | no other step, and no file that fails to load, changes what is published |
| `Reload.UnservedRequestsAwaitAPass` | src/bin/postfix-ratelimitd.rs:620-645 | at any moment an unserved request awaits a pass, is being handled, or fell into the gap |
| `Reload.MissedExactlyInTheGap` | src/bin/postfix-ratelimitd.rs:620-645 | when all is quiet, a SIGHUP was missed exactly when it and all later ones were handled in the gap |
| `Reload.RunsCanSettle` | src/bin/postfix-ratelimitd.rs:620-645 | nothing stalls: every run can be continued, without a further SIGHUP, until no handler and no worker is left |
| `Reload.MissedSighups` | src/bin/postfix-ratelimitd.rs:620-645 | the same in terms of the steps alone: no pass starts after a SIGHUP exactly when it and all later ones were counted and swapped in the gap |
| `Reload.PassesAreCounted` | src/bin/postfix-ratelimitd.rs:634-641 | a worker's count of passes is the number that have started since it was spawned |
| `Reload.ASighupCanBeLost` | src/bin/postfix-ratelimitd.rs:637-642 | a run in which the second of two SIGHUPs has no pass start after it |
| `Connections.SlotsAreAccountedFor` | src/bin/postfix-ratelimitd.rs:649-687 | at most 512 handlers, no underflow, refusal exactly at 512 live handlers, and zero at the end |
| `Connections.AllSlotsCanBeTaken` | src/bin/postfix-ratelimitd.rs:649-687 | any number of handlers up to 512 can be live |
| `Connections.RefusalIsTemporary` | src/bin/postfix-ratelimitd.rs:649-687 | after a refusal at 512 and one handler's exit, a connection is admitted again |
| `Statistics.Stats.LogThrottled` | src/bin/postfix-ratelimitd.rs:153-160 | the counter always grows; the first five occurrences log a line, the sixth a notice, the rest nothing |
| `Statistics.Stats.ReportStats` | src/bin/postfix-ratelimitd.rs:120-139 | the nine counters of the line are returned as they stood, in its order, and all ten start over |
| `Statistics.ReportsConserveEvents` | src/bin/postfix-ratelimitd.rs:120-139 | reported totals plus the residual equal the occurrences, for any interleaving |
| `Statistics.IntervalsAreLoggedRight` | src/bin/postfix-ratelimitd.rs:141-160 | every interval of a throttled counter logs `min(n, 5)` lines, and one notice exactly when `n > 5` |

## Left out

- Connection management, timeouts, TLS, EVALSHA and the command support check: the script is one atomic step that may fail before or after it runs.
- `now_override`: only integration builds honour it, and it breaks the one clock that script and TTLs share.
- File decoding, the redis URL, password files and regular expression matching: rules and redis settings enter already parsed.
- Sockets, locks, permissions, signals' installation, log back ends and the command line: operating system effects.
- The JSON-RPC envelope, the control socket's line loop and `postfix-ratelimitctl`: wrappers and printing.
- Status reads that race with checks: TIME and each HGETALL are separate commands, so agreement is claimed for a status with nothing in between.
- Window bounds across plan changes, or across instances with differing windows for one key: README.md:249-254 of the repository disclaims them, so each sender's windows are fixed for a run.
- Loss of committed Valkey data: writes survive until the modelled prune or expiry.
- Fairness and latency: interleavings are arbitrary, so nothing is said about when a step is taken.
- Panics inside a reload pass, which would leave the flag set.
- Decoding of attribute bytes into characters: framing works on bytes, the handler on characters.
