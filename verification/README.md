# Verified model of go-shared's stateful cores

This project models five parts of the library and proves what they promise, for every input, every run and every
interleaving:

- **Rate limiter** (`SlidingWindow`, `SlidingWindowRuns`, `Gcra`, `GcraRuns`, `RateRule`, `RuleBehaviour`): the two
  Redis scripts as atomic steps of a small class, against references that know neither the sorted set, nor the
  stored arrival time, nor key expiry; and the way from a plan's rule to the scripts' parameters.
- **Service-token client** (`TokenScope`, `TokenBreaker`, `TokenEntry`, `TokenJournal`, `TokenOutage`, `TokenLoad`,
  `TokenSteps`, `TokenRuns`, `TokenAnswers`, `TokenPlays`, `TokenOutageRuns`, `TokenTransport`): the cache entry and the
  circuit breaker as classes; every interleaving of `Token`, `Refresh`, `Invalidate`, cancellations and issuing
  goroutines as a step system, which is shown to follow a lawful sequential journal; what every lawful journal
  guarantees, outages included; exactly when a call starts an exchange, and what the exchange comes to; and runs that
  show where the guarantees end.
- **Event bus** (`EventRetry`, `EventStore`, `EventPolicy`, `EventRuns`, `EventDelivery`, `EventOverlap`,
  `EventConsumer`): the in-memory store, its leases, backoff and dead-letter queue, one consumer on top of it, and
  several at once.
- **Criteria** (`Criteria`, `SqlLike`, `SqlWhere`, `SqlTruth`, `Float64`, `MemoryFilter`, `FilterAgreement`, `Ordering`,
  `Paging`, `SqlPages`): one query with two evaluators, the SQL converter and the in-memory filter, with sorting and
  paging.
- **Receiver** (`ServiceToken`, `PayloadReadings`, `ClaimAliases`, `Receiver`, `Acceptance`, `RouteStrictness`): the
  decision on a request that carries a service token, and exactly which requests it lets in.

`Wrappers`, `Arith`, `Timeline` and `Text` hold what several parts share. Code that updates state is modelled by
classes and methods with loops, each proved against a function of its inputs or of the old state; what the library
promises is then proved about those functions. `dafny verify dfyconfig.toml` checks the whole project.

## What the proofs found

Where a property does not hold for every input, the code is modelled as it is, and a lemma says exactly when it holds.

- A log member of the sliding window is a request's UnixNano, so two requests of one nanosecond share a member. With
  repeated instants the script bounds every run only if the limit is 1 (`BoundsRepeatsIffLimitIsOne`); with distinct
  instants it always does (`ServeWithinLimit`). The window is truncated to milliseconds, and the rule turns nothing
  away exactly when its limit exceeds the nanoseconds left (`ParsedWindowLimits`), which a window below 1 ms always
  brings about (`ShortWindowLimitsNothing`).
- A parsed GCRA rule is in one of four regimes (`ParsedMeterRegimes`), which `RegimeIsReadOffTheRule` reads off the
  plan. An emission below 1 ms is truncated to 0: with a positive tolerance the limiter then limits nothing, and
  without one every call fails, because Redis refuses an expiry of 0 ms. A burst whose product with the emission
  overflows to a negative tolerance rejects everything. In the fourth regime truncation lets a paced client exceed
  `Limit` per `Window` unless `Window` is a whole number of milliseconds times `Limit`
  (`PacedRateIsExactIffEmissionIsWhole`), and adds to the burst once the lost fractions make up an emission
  (`IdleKeyBurst`).
- A negative `RenewBefore` is exactly what makes the cache serve expired tokens (`ServesExpiredIffLeadIsNegative`).
- An `expires_in` whose conversion to nanoseconds wraps gives the caller a token that is expired at once
  (`HandedExpiredIffWrapped`, `LongLifetimeIsExpired`).
- The circuit breaker keeps an outage to `threshold + floor(T / openFor)` exchanges in any interval of length `T`, in
  every reachable state, exactly when no more than one exchange of an audience is in flight at a time
  (`LoadIsKeptIffAlone`). The client allows one per audience and scope, so it takes callers who share one scope. With
  `m` in flight the bound is `threshold - 1 + (floor(T / openFor) + 1) * (1 + 2 + ... + m)`, because each slow failure
  reopens the circuit for the exchanges that are not slow; it holds of all exchanges that start in the order of their
  clock readings (`CrowdKeepsBound`), and is reached for every `m` and every number of periods (`CrowdReachesBound`).
  Without that order there is no bound at all for `m >= 2`: a call may stall between reading the clock and asking the
  breaker (`StaleReadingsAddUp`, `LoadIsLimitedIffAlone`).
- A failure is recorded with the start of its exchange, so a slow one that is recorded late moves the reopening of the
  circuit back and reopens it early (`SlowFailureReopensEarly`). It never moves back exactly when the failures that
  open the circuit settle in the order in which they started (`ReopeningMovesBackIffOutOfOrder`), and again exactly
  when at most one exchange is in flight (`ReopeningIsKeptIffAlone`).
- `SaveBatch` is documented as atomic (eventbus/infrastructure/memory/store.go:55), but keeps the events before the
  first one it cannot save (`BatchIsPartialIff`).
- `Poll` sorts the batch it returns, not the events it chooses from: it takes the oldest events whatever the map's
  order exactly when the batch has room for all that are due, or these occurred at one instant
  (`PollIsOldestFirstIff`).
- The store backs off with the default policy whatever the use case is configured with; the delays are the configured
  ones exactly for the configurations `BackoffIsConfiguredIff` describes, the use case's default among them
  (`DefaultConfigIsServed`).
- An always-failing event is delivered at most `max(1, MaxRetries - a)` times, over every interleaving of consumers,
  exactly when it is never delivered again before the last delivery has been reported on (`TriesAreKeptIffInTurn`),
  which a lease that runs out does not ensure. A consumer slower than its lease can set the attempt count back exactly
  when there are three attempts to go (`CountFallsIff`).
- The poll loop ignores the store's answer to a failure, but stops at an acknowledgement the store refuses and leaves
  the rest of its batch unsettled under lease (`HandleAll`).
- An event can be lost from the ledger, or counted twice, exactly by saving an id that is dead or processed, by
  saving an event that already carries a death instant, or by burying a processed one
  (`StepConservesIffHarmless`).
- Validation accepts an undeclared operator without a value; its placeholder then has no parameter of its own, and
  the clause compares the column with the first value any later filter brings, or with none
  (`UnfedFilterBorrowsAValue`). The placeholders line up exactly when every filter brings its value
  (`PlaceholdersMatchIffFed`).
- The two evaluators of a filter differ outside a shared fragment. A column that a row lacks is passed over in memory
  and is NULL in the database (`MissingColumnAgreesIff`). For every operator a lemma of `FilterAgreement` gives the
  exact condition under which they agree on a row that has the column: the null tests on zero values
  (`NullTestAgreesIff`), list filters the converter drops (`DroppedListAgreesIff`), values that are equal in the
  database and of different Go types, such as a named string type (`EqualityAgreesIff`, `InequalityAgreesIff`,
  `InAgreesIff`, `NotInAgreesIff`, `NamedTextsDisagree`), ordering comparisons of numbers that round to one float64
  and of texts, times and truth values (`OrderingAgreesIff`), `ARRAY_CONTAINS`, which in memory compares the whole
  array (`ArrayContainsAgreesIff`), and searches with any pattern (`SearchAgreesIff`, `OtherSearchAgreesIff`), spelled
  out for edge blanks, `_`, one `%` at the start, at the end or inside, and patterns of a named type
  (`PlainSearchAgreesIff`, `UnderscoreSearchAgreesIff`, `SuffixSearchAgreesIff`, `PrefixSearchAgreesIff`,
  `InnerPercentAgreesIff`, `NamedSearchAgreesIff`).
- Memory compares numbers as float64. 2^53 + 1 is not greater than 2^53 there (`LargeIntegersDisagree`), while
  integers up to 2^53 in size always compare alike (`SmallIntegersAgree`), and a numeric column sorts as in the
  database exactly when no two of its numbers round alike (`SortedByValueIff`).
- The comparison given to the sort is a strict weak order for every list of orders exactly when no ordered column
  holds two values that differ beside one of another family (`SortableIffUnmixed`).
- Where both evaluators understand the filters and rows are sorted alike, the generated statement selects the page that
  is shown in memory, exactly when that page starts past the last match or ends within 64 bits
  (`StatementShowsMemoryPageIff`).
- A page number whose offset leaves 64 bits makes the in-memory filter stop the program, where validation refuses the
  query (`StopsIffRefused`), or show some other page (`PageIsBlockIff`, `FarPageRepeatsTheFirst`).
- Making a route stricter never accepts more exactly when the route declares its scopes, or could not serve with any
  (`StrictnessIsSafeIff`): one that is ready but for its scopes rejects everything, and accepts some request once a
  scope is required.
- A service token is decoded into a struct, which takes claim names without regard to case, and a user token into a
  map, which does not. A token passes both checks only if it writes both `iss` and `token_use` in two ways
  (`NoTokenIsBoth`), and a signer that keeps to some names never signs such a token exactly when the names are not
  confusing in the sense of `SomeTokenIsBothIff`.

## Modelling choices

- Clocks are parameters. One limiter key, one token client and one store each see a clock that does not go back. The
  zero time lies at least 30 s before any clock reading.
- A key with an expiry may be reclaimed at any instant from its expiry on: `swept` says whether it has been. The
  contracts do not depend on it, so expiry cannot be observed.
- Lua numbers are doubles; all values involved are integers below 2^53, where they are exact. The backoff's float64
  arithmetic is modelled on reals, as is the page count's ceiling, which is exact for counts below about 2^45.
- Go's 64-bit products and sums are written out with `Wrap64` where they can overflow.
- In the step system a step that is not enabled changes nothing, so every sequence of steps is a run and no run is
  excluded. IAM is an arbitrary answer to each exchange, with an `expires_in` whose conversion to nanoseconds fits 64
  bits. An entry's lock is a channel of capacity one: steps look only at whether it is full, and the id kept beside it
  is the call that filled it, so that the theorems can say who releases it.
- Map iteration order is arbitrary; the order in which `sort.Slice` leaves ties is an arbitrary fixed rearrangement.
- A row is a map from field to typed value; a value that memory can only compare for deep equality, such as a time, a
  pointer or a UUID, carries what the database holds for it. SQL conditions are a syntax tree with three-valued
  meaning. PostgreSQL's `LIKE` and the order of texts follow its documentation with the C collation; letter case is
  folded for ASCII. A pattern that ends in a backslash, for which PostgreSQL reports an error, is read literally.
- The database compares values of one family, numbers by their exact values, and gives no answer across families. A
  PostgreSQL server may convert a parameter to its column's type instead: a text to a number, or an integer to a
  double precision column's.
- In memory integers are rounded to float64, to nearest with ties to even. A float64 is any real up to 2^53 in size, and
  beyond it an integer that rounding keeps.
- The JWT library is assumed to check signatures, and `exp`, `nbf` and `iat` with the leeway (sections 4.1.4 to 4.1.6
  of RFC 7519). The members of the payload, in the order in which they are written, and a genuine-signature flag are
  inputs. A receiver judges the service token with its configured clock and the user token with the wall clock, so the
  model takes both.

## Model

| member | source | states |
|---|---|---|
| SlidingWindow.Log.Allow | infrastructure/ratelimit/limiter.go:30-47 | One run of the script replies what the full history of admitted requests implies, whether or not the key has expired |
| SlidingWindow.Log.Prune | infrastructure/ratelimit/limiter.go:35-36 | After removing old scores the set holds exactly the distinct admitted instants still inside the window |
| SlidingWindow.Log.ZRangeFirst | infrastructure/ratelimit/limiter.go:42-44 | The member fetched has the lowest score of the live instants |
| SlidingWindow.PruneLeavesLive | infrastructure/ratelimit/limiter.go:35-39 | Simulation: a set whose key may have expired stands for the same history as one that never expires |
| SlidingWindow.MirrorsAdmission | infrastructure/ratelimit/limiter.go:37-40 | ZADD with PEXPIRE window keeps the simulation |
| SlidingWindowRuns.AdmitsIffWithinLimit | infrastructure/ratelimit/limiter.go:35-41 | A request is admitted if and only if every window of the history, with it at the end, still holds at most limit requests |
| SlidingWindowRuns.ServeWithinLimit | infrastructure/ratelimit/limiter.go:30-47 | In every run any half-open interval of one window holds at most limit admissions, though each step prunes only relative to its own instant |
| SlidingWindowRuns.BoundsRepeatsIffLimitIsOne | infrastructure/ratelimit/limiter.go:89-95 | When instants may repeat, members collide and every run is bounded if and only if the limit is 1 |
| SlidingWindowRuns.RemainingIsExact | infrastructure/ratelimit/limiter.go:40-40 | remaining = r: of the requests that follow in the same millisecond exactly the first r are admitted |
| SlidingWindowRuns.RetryIsExact | infrastructure/ratelimit/limiter.go:42-46 | retry = d: a later request is admitted if and only if d ms have passed |
| SlidingWindowRuns.NothingIsServedWithoutLimit | infrastructure/ratelimit/limiter.go:36-46 | Without a positive limit a key admits nothing in any run, and names the whole window as the wait |
| SlidingWindowRuns.LimitsNothingIffWindowIsShort | infrastructure/ratelimit/limiter.go:35-41 | The script turns no request of any run away if and only if the limit exceeds the nanoseconds of the window |
| Gcra.Cell.Allow | infrastructure/ratelimit/limiter.go:51-66 | One run of the script replies what the admitted stream implies, whether or not the key has expired |
| Gcra.TatIsLatestBound | infrastructure/ratelimit/limiter.go:60-62 | The stored scalar is the latest of the instants all past admissions allow, and is attained by one of them |
| Gcra.ConformsAppend | infrastructure/ratelimit/limiter.go:55-60 | One comparison with the scalar decides conformance of the whole stream with the request at its end |
| Gcra.GrantedIffConforms | infrastructure/ratelimit/limiter.go:51-66 | The script grants exactly the streams in which any n + 1 arrivals span n emissions, up to the tolerance |
| Gcra.AdmitsIffConforms | infrastructure/ratelimit/limiter.go:56-60 | A request is admitted if and only if the granted stream conforms with it |
| Gcra.RemainingIsExact | infrastructure/ratelimit/limiter.go:63-65 | remaining = k: exactly k more requests at the same instant are admitted and the next is denied |
| Gcra.RetryIsExact | infrastructure/ratelimit/limiter.go:57-59 | retry = d: a later request is admitted if and only if d ms have passed |
| GcraRuns.AdmissionBound | infrastructure/ratelimit/limiter.go:51-66 | In any run n + 1 consecutive admissions span at least n emissions less the tolerance |
| GcraRuns.IntervalBound | infrastructure/ratelimit/limiter.go:51-66 | An interval of length T holds at most floor((T + tolerance) / emission) + 1 admissions |
| GcraRuns.AllServedIffConform | infrastructure/ratelimit/limiter.go:51-66 | A run loses no request if and only if the requests conform |
| GcraRuns.PacedConforms | infrastructure/ratelimit/limiter.go:56-60 | Requests at least one emission apart conform, so they are never denied |
| GcraRuns.IdleBurst | infrastructure/ratelimit/limiter.go:55-63 | An idle key takes floor(tolerance / emission) + 1 requests at once and no more |
| GcraRuns.LimitsNothingIffNoEmission | infrastructure/ratelimit/limiter.go:111-116 | Any number of requests at one instant is let through if and only if the emission is 0 ms and the tolerance positive |
| GcraRuns.FailsAlwaysIff | infrastructure/ratelimit/limiter.go:60-62 | Every call on a fresh key fails if and only if emission and tolerance are both 0 ms |
| GcraRuns.NothingIsServedOnFailure | infrastructure/ratelimit/limiter.go:60-62 | A key whose calls fail admits nothing in any run |
| RateRule.SplitAtSlashIsFirst | infrastructure/ratelimit/rule.go:74-77 | A rate is split at its first slash |
| RateRule.RateIsParsed | infrastructure/ratelimit/rule.go:56-91 | "n/unit" parses to n per unit, seconds when the unit is missing, and is rejected when n or the unit is not positive or there is no slash |
| RateRule.ParsedRuleIsUsable | infrastructure/ratelimit/rule.go:44-70 | A rule that parses has a positive limit and window and a non-negative burst |
| RateRule.MillisecondsAreCutOff | infrastructure/ratelimit/limiter.go:109-116 | The conversions to milliseconds go towards zero, also for a tolerance that has overflowed |
| RuleBehaviour.WindowIsParsed | infrastructure/ratelimit/rule.go:44-54 | A sliding-window rule is the raw limit per parsed window, without a burst, and is rejected if and only if the limit or the window is not positive or the window does not parse |
| RuleBehaviour.UnknownAlgorithmIsRejected | infrastructure/ratelimit/rule.go:44-70 | Any other algorithm name is an error |
| RuleBehaviour.EmissionTruncatesOnce | infrastructure/ratelimit/limiter.go:111-115 | The two truncations of the emission together equal floor(Window / (Limit * 10^6)) ms |
| RuleBehaviour.ToleranceBounds | infrastructure/ratelimit/limiter.go:112-115 | The tolerance lies between Burst emissions and Burst emissions of one more millisecond, and its exact value |
| RuleBehaviour.IdleKeyBurst | infrastructure/ratelimit/limiter.go:109-116 | An idle key admits Burst + 1 requests at once, and one more if and only if the truncated fractions make up an emission |
| RuleBehaviour.PacedStreamIsServed | infrastructure/ratelimit/rule.go:94-99 | A stream spaced at the truncated emission or slower is served whole from a fresh key |
| RuleBehaviour.PacedRateIsExactIffEmissionIsWhole | infrastructure/ratelimit/rule.go:93-99 | A paced client is held to Limit per Window if and only if Window is a multiple of Limit milliseconds |
| RuleBehaviour.ParsedMeterRegimes | infrastructure/ratelimit/limiter.go:109-116 | For any GCRA rule that parses: a fresh key rejects every call, fails every call, lets every burst through, or limits, each if and only if the rule is in that regime |
| RuleBehaviour.RegimeIsReadOffTheRule | infrastructure/ratelimit/rule.go:56-99 | Which regime a parsed rule is in, from its limit, window and burst, where Burst emissions fit 64 bits; so a rule that rejects everything has a product that overflowed |
| RuleBehaviour.ParsedMeterServes | infrastructure/ratelimit/rule.go:56-99 | What a parsed rule that limits promises: floor(tolerance / emission) + 1 requests at once, at least Burst + 1 where Burst emissions fit 64 bits, every paced stream whole, and the interval bound |
| RuleBehaviour.ParsedWindowLimits | infrastructure/ratelimit/limiter.go:89-95 | From the raw rule: a positive limit with a window that parses to w > 0 keeps that limit in every window of the whole milliseconds of w, for distinct instants, and turns nothing away if and only if the limit exceeds their nanoseconds |
| RuleBehaviour.ShortWindowLimitsNothing | infrastructure/ratelimit/limiter.go:93-93 | A parsed window below 1 ms reaches the script as 0, and every request is let through |
| RuleBehaviour.HugeBurstBlocks | infrastructure/ratelimit/limiter.go:112-115 | The raw rule of one request per second with a burst of 9300000000 rejects every request |
| TokenScope.NormalizeScope | infrastructure/s2stoken/client/client.go:466-479 | The result is the canonical text of the set of scope words, whatever order the set is visited in |
| TokenScope.CanonicalIffSameWords | infrastructure/s2stoken/client/client.go:466-479 | Two scope lists normalize alike if and only if they name the same words (section 3.3 of RFC 6749) |
| TokenScope.CanonicalIsSorted | infrastructure/s2stoken/client/client.go:466-479 | The canonical form holds each word of the call once, in alphabetical order, with one blank between them |
| Text.FieldsIff | infrastructure/s2stoken/client/client.go:466-479 | The words of a text are its longest stretches without white space |
| TokenScope.SameEntryIff | infrastructure/s2stoken/client/client.go:351-361 | Two calls share a cache entry if and only if they name the same audience and the same scope words, for audiences without NUL |
| TokenBreaker.Circuits.Allow | infrastructure/s2stoken/client/client.go:374-379 | Closed, or past openUntil; looking creates the breaker but changes no breaker's state |
| TokenBreaker.Circuits.RecordFailure | infrastructure/s2stoken/client/client.go:381-389 | Counts the failure and opens the circuit at the threshold, for that audience only |
| TokenBreaker.Circuits.RecordSuccess | infrastructure/s2stoken/client/client.go:391-396 | Closes the circuit of that audience only |
| TokenBreaker.OutageSpacing | infrastructure/s2stoken/client/client.go:374-389 | In an outage, attempts past the threshold are at least OpenFor apart |
| TokenBreaker.OutageBound | infrastructure/s2stoken/client/client.go:374-389 | Attempts that do not overlap and all fail number at most threshold + floor(T / OpenFor) in any interval of length T |
| TokenEntry.IssuedLifetime | infrastructure/s2stoken/client/client.go:442-446 | An issued token lives at most 300 s, at least 1 s unless the product overflows, and at all if and only if the wrapped product is positive |
| TokenEntry.HandedExpiredIffWrapped | infrastructure/s2stoken/client/client.go:332-337 | The caller is handed every issued token, and the cached one is expired at once if and only if the product wraps to 0 or below |
| TokenEntry.LongLifetimeIsExpired | infrastructure/s2stoken/client/client.go:442-446 | An expires_in of 9223372037 s does |
| TokenEntry.ValidTokenIsServed | infrastructure/s2stoken/client/client.go:272-331 | Only unexpired tokens are served from the cache, and while one is cached no call fails, whatever the breaker, the backoff or IAM do |
| TokenEntry.ServesExpiredIffLeadIsNegative | infrastructure/s2stoken/client/client.go:274-276 | An expired token can be served if and only if RenewBefore is negative |
| TokenEntry.Client.ObtainLocked | infrastructure/s2stoken/client/client.go:272-292 | The decision of a call that holds the lock |
| TokenEntry.Client.IssueAndStore | infrastructure/s2stoken/client/client.go:318-338 | The reply, the entry and the breaker after an exchange; every other entry and breaker is unchanged |
| TokenEntry.Client.CheckRefresh | infrastructure/s2stoken/client/client.go:219-231 | Adopts another live token, leaves a young one alone, or brings the renewal forward without dropping the token |
| TokenEntry.Client.Invalidate | infrastructure/s2stoken/client/client.go:244-249 | Drops the cached token and keeps the backoff |
| TokenJournal.SettledBeforeNext | infrastructure/s2stoken/client/client.go:253-315 | Between two exchanges started for one entry the first was settled: at most one is in flight |
| TokenJournal.TokenSurvives | infrastructure/s2stoken/client/client.go:210-240 | An issued token stays cached with its expiry until the next issue or an explicit clear, whatever fails meanwhile |
| TokenJournal.RejectionsAdopt | infrastructure/s2stoken/client/client.go:219-231 | A caller rejected with the cached token may force another only after 30 s, and one rejected with an older token not before the cached one expires |
| TokenJournal.RenewalWaits | infrastructure/s2stoken/client/client.go:274-276 | Unless a rejection brings it forward, no exchange starts before the renewal of the cached token |
| TokenJournal.NoExchangeIsEarly | infrastructure/s2stoken/client/client.go:206-276 | Whatever is called and rejected meanwhile, no exchange starts for an entry before its token is 30 s old, due for renewal or expired, whichever comes first |
| TokenJournal.BatchIsRenewedOnce | infrastructure/s2stoken/client/client.go:206-240 | However many callers were rejected with the same token, after it was replaced they start no exchange before the replacement is due |
| TokenJournal.BackoffIsKept | infrastructure/s2stoken/client/client.go:278-284 | For 5 s after a permanent rejection the entry starts no exchange, even across Invalidate and Refresh |
| TokenJournal.CachedTokenIsBacked | infrastructure/s2stoken/client/client.go:332-337 | A cached token that looks valid was issued for that audience and scope, and is alive |
| TokenOutage.DownIsOutage | infrastructure/s2stoken/client/client.go:285-292 | Exchanges of an audience that do not overlap and trip the breaker form an outage of that breaker |
| TokenOutage.OutageLoad | infrastructure/s2stoken/client/client.go:285-292 | The IAM call bound under outage, for any run's journal from any idle point on |
| TokenOutage.BreakerIsFailures | infrastructure/s2stoken/client/client.go:318-326 | Under an outage the breaker is what the failures make of it in the order in which they are recorded, each with the start of its exchange |
| TokenOutage.ReopeningMovesBackIffOutOfOrder | infrastructure/s2stoken/client/client.go:381-389 | The instant at which the circuit reopens never moves back if and only if the failures that open it are recorded in the order in which they started |
| TokenOutage.AloneNeverEarlier | infrastructure/s2stoken/client/client.go:381-389 | Failures of exchanges that do not overlap never move it back, from any idle point on |
| TokenLoad.WindowIsBounded | infrastructure/s2stoken/client/client.go:374-389 | In an outage with at most m in flight, started in order, each window of OpenFor keeps its account: the starts in it are paid for by failures below the threshold and by the slots that late failures of older exchanges free |
| TokenLoad.CrowdedLoad | infrastructure/s2stoken/client/client.go:374-389 | Such an outage starts at most threshold - 1 + (floor(T / OpenFor) + 1)(1 + ... + m) exchanges in any interval of length T |
| TokenPlays.PlaysHappen | infrastructure/s2stoken/client/client.go:251-338 | Calls that read the clock, start, and find IAM unreachable, in any order the breaker and the cap allow, are a run of the client |
| TokenOutageRuns.CrowdKeepsBound | infrastructure/s2stoken/client/client.go:374-389 | The bound in every reachable state, from any idle point on |
| TokenOutageRuns.CrowdReachesBound | infrastructure/s2stoken/client/client.go:374-389 | For every m and k some reachable outage starts exactly threshold - 1 + (k + 1)(1 + ... + m) exchanges within k OpenFor periods |
| TokenOutageRuns.StaleReadingsAddUp | infrastructure/s2stoken/client/client.go:285-292 | With two in flight and calls that stall after reading the clock, any number of exchanges can start at one instant |
| TokenOutageRuns.LoadIsLimitedIffAlone | infrastructure/s2stoken/client/client.go:374-389 | Some number bounds the starts at one instant in all reachable outages if and only if m <= 1 |
| TokenOutageRuns.LoadIsKeptIffAlone | infrastructure/s2stoken/client/client.go:374-389 | All reachable outages with at most m exchanges of the audience in flight keep to threshold + floor(T / OpenFor) if and only if m <= 1 |
| TokenOutageRuns.SlowFailureReopensEarly | infrastructure/s2stoken/client/client.go:324-324 | In some reachable outage a slow failure, recorded last, moves the reopening back by as much as it started earlier |
| TokenOutageRuns.ReopeningIsKeptIffAlone | infrastructure/s2stoken/client/client.go:381-389 | In all reachable outages with at most m exchanges in flight the reopening never moves back, if and only if m <= 1 |
| TokenSteps.MoveIsSound | infrastructure/s2stoken/client/client.go:190-338 | Each step of a call makes at most one lawful mark, keeps its promises, and takes and gives up the lock as it enters and leaves its critical section |
| TokenSteps.MoveWrites | infrastructure/s2stoken/client/client.go:231-337 | An entry is written only inside the critical section, and its token replaced only by IAM's or by none |
| TokenRuns.StepKeeps | infrastructure/s2stoken/client/client.go:190-338 | Every step of every call keeps the invariant that ties locks to owners and the program state to its journal |
| TokenRuns.SingleFlight | infrastructure/s2stoken/client/client.go:251-315 | In every reachable state a lock is taken if and only if a call or its worker is inside, and never two of them |
| TokenRuns.ReleaseNeverBlocks | infrastructure/s2stoken/client/client.go:267-270 | Whoever releases finds its own token in the channel |
| TokenRuns.QuietMeansUnlocked | infrastructure/s2stoken/client/client.go:190-249 | Once all calls and workers are done no lock is left taken |
| TokenRuns.OneReleasePerAcquire | infrastructure/s2stoken/client/client.go:199-315 | A call takes its lock at most once, and every lock taken is given back exactly once, by the call or by the worker it handed it to |
| TokenRuns.OnlyTheOwnerWrites | infrastructure/s2stoken/client/client.go:84-96 | An entry changes only in a step of the lock's owner; a failed or fruitless Refresh leaves the token in place |
| TokenRuns.RepliesAreHonest | infrastructure/s2stoken/client/client.go:190-240 | A returned token was issued for the call's audience and scope and is alive at its clock reading; Refresh never returns the rejected one; a call that fails was cancelled or found no valid token |
| TokenRuns.JournalIsLawful | infrastructure/s2stoken/client/client.go:272-338 | The journal of every run is lawful and describes every entry and breaker, so the journal theorems hold of all interleavings |
| TokenRuns.OwnerFreesLock | infrastructure/s2stoken/client/client.go:303-308 | A taken lock is freed by at most six steps of its owner alone |
| TokenRuns.CancelledCallIsStillServed | infrastructure/s2stoken/client/client.go:251-292 | A call that finds the lock free is served the valid cached token even if already cancelled, before renewal is due and, past it, during the backoff or with the circuit open |
| TokenAnswers.TokenStartsIff | infrastructure/s2stoken/client/client.go:190-315 | A Token call that finds the lock free starts an exchange if and only if there is no token or its renewal is due, no backoff is running and the circuit is not open; otherwise its reply is the token, the backoff error or the open circuit, and it leaves no trace |
| TokenAnswers.RefreshStartsIff | infrastructure/s2stoken/client/client.go:210-240 | A Refresh hands out another live token, has nothing for the cached token younger than 30 s, and otherwise brings the renewal forward and starts an exchange if and only if neither backoff nor open circuit forbids it; the rejected token is never handed out |
| TokenAnswers.InvalidateEmpties | infrastructure/s2stoken/client/client.go:244-249 | Invalidate clears the token and its three times, and keeps the backoff and the breaker |
| TokenAnswers.ExchangeComesTo | infrastructure/s2stoken/client/client.go:318-447 | By the status and body of the answer: what is cached, for how long, what the breaker and the backoff become, and what the call is told |
| TokenAnswers.ResultIsCollectedIff | infrastructure/s2stoken/client/client.go:303-314 | A waiting call gets the result as soon as it is sent, whether or not the lock is free again, and not before |
| TokenAnswers.CachedTokenIsRenewed | infrastructure/s2stoken/client/client.go:272-338 | In every reachable state in which a token was issued last for an entry, the next Token call renews it if and only if RenewBefore or less is left of its life, the circuit being closed |
| TokenAnswers.RejectedTokenIsRenewed | infrastructure/s2stoken/client/client.go:210-240 | In such a state a Refresh for that token starts an exchange once it is 30 s old and has nothing before; one for another token is given that token while it is alive |
| TokenAnswers.WaitingCallEnters | infrastructure/s2stoken/client/client.go:251-265 | A call that waits for the lock enters as soon as it is free, as it would have at once |
| TokenAnswers.WaitingCallLeavesIff | infrastructure/s2stoken/client/client.go:251-315 | A waiting call may leave if and only if it is cancelled, and disturbs nothing |
| TokenTransport.RoundTrip | infrastructure/s2stoken/client/transport.go:71-109 | Which sends are made, with which credential, and whose answer is returned |
| TokenTransport.SendsAreBounded | infrastructure/s2stoken/client/transport.go:48-103 | At most two sends, the second only after a 401 and with another live token; no credential on a redirect or to another host |
| TokenTransport.SendsIff | infrastructure/s2stoken/client/transport.go:71-109 | A request is sent if and only if it is redirected, or goes to its host and a token could be had; it is sent twice if and only if the first answer is a 401, its body can be produced again and the token is renewed |
| EventRetry.Pow | eventbus/domain/retry.go:40-46 | The loop computes the power |
| EventRetry.Jittered | eventbus/domain/retry.go:35-37 | The delay lies in [base, base + base / 10), and the draw fails below 10 ns |
| EventRetry.ComputeDelay | eventbus/domain/retry.go:24-38 | The delay lies in [base, base + base / 10) of the clamped and capped base |
| EventRetry.BaseIsMonotone | eventbus/domain/retry.go:25-34 | The base never shrinks with the attempt, for a factor of at least 1, and never exceeds the cap |
| EventRetry.DefaultBase | eventbus/domain/retry.go:14-21 | The default policy doubles from 1 s to 16 s |
| EventStore.Store.Save | eventbus/infrastructure/memory/store.go:38-53 | Saves the event with its visibility, or changes nothing |
| EventStore.Store.SaveBatch | eventbus/infrastructure/memory/store.go:55-63 | Keeps exactly the events before the first one without an id |
| EventStore.BatchIsPartialIff | eventbus/infrastructure/memory/store.go:55-63 | A batch of fresh events is saved in part if and only if an event without id follows one with an id |
| EventStore.Store.Poll | eventbus/infrastructure/memory/store.go:65-101 | Leases due events of the type for 30 s, all of them unless the batch fills up, and returns them in the order of their occurrence times |
| EventStore.PollTakesItsType | eventbus/infrastructure/memory/store.go:78-95 | Every event a poll takes has the polled type, was visible and carries no death instant; it is hidden for 30 s, and no other event is touched |
| EventStore.PollLeavesNothing | eventbus/infrastructure/memory/store.go:78-95 | A batch that is not full holds an event if and only if it is pending, of the polled type, visible and not dead |
| EventStore.Store.LeaseDue | eventbus/infrastructure/memory/store.go:78-95 | The loop leases events that are due and no others, up to the batch size |
| EventStore.Store.MarkProcessed | eventbus/infrastructure/memory/store.go:104-112 | Removes a pending event, or reports that there is none |
| EventStore.Store.MarkFailed | eventbus/infrastructure/memory/store.go:114-135 | Raises the attempt and re-queues with the default backoff, or buries the event at the last attempt |
| EventStore.Store.MoveToDLQ | eventbus/infrastructure/memory/store.go:137-160 | Moves the pending event, or the given one, to the queue with a death instant |
| EventStore.Store.ListDLQ | eventbus/infrastructure/memory/store.go:162-180 | Returns dead letters of the type, or of any type for the empty one, sorted by death instant, all of them unless the limit is reached |
| EventStore.OpKeepsWellFormed | eventbus/infrastructure/memory/store.go:38-180 | Every operation keeps events under their own id and dead letters stamped |
| EventPolicy.PollIsChoice | eventbus/infrastructure/memory/store.go:78-95 | A batch the poll may return is some choice of due events, as many as fit |
| EventPolicy.PollIsOldestFirstIff | eventbus/infrastructure/memory/store.go:67-101 | No choice leaves a due event older than one it takes if and only if all due events fit or occurred at one instant |
| EventPolicy.BackoffIsConfiguredIff | eventbus/infrastructure/memory/store.go:131-133 | The store's backoff is the configured one, attempt by attempt, if and only if the configuration's delay, factor and cap are like the default's as far as its attempts reach |
| EventPolicy.DefaultConfigIsServed | eventbus/application/usecase.go:26-35 | The default configuration, with a cap of 60 s, gets the backoff it asks for |
| EventRuns.StepConservesIffHarmless | eventbus/infrastructure/memory/store.go:38-160 | An operation keeps every saved id in exactly one of pending, dead and processed if and only if it is harmless |
| EventRuns.EventsAreConserved | eventbus/infrastructure/memory/store.go:38-180 | Over all careful runs every saved id is in exactly one place |
| EventRuns.DeadLettersAreStamped | eventbus/infrastructure/memory/store.go:144-178 | However the store is used, a dead letter has its instant, so listing never dereferences a missing one |
| EventRuns.DeliveriesAreSpaced | eventbus/infrastructure/memory/store.go:67-135 | Consecutive deliveries of an id are 30 s apart, and a delivery follows a failure by at least the delay that was drawn, which is the backoff of its attempt and up to a tenth more |
| EventRuns.DueIffHoldIsOver | eventbus/infrastructure/memory/store.go:67-135 | In every run a pending event can be polled if and only if the delay or lease that was last put on it is over: its saved visibility, 30 s from a delivery, or the drawn delay from a failure |
| EventRuns.SavedVisibility | eventbus/infrastructure/memory/store.go:38-53 | A saved event is visible from its delay on, if that lies ahead, and at once otherwise |
| EventRuns.DelayedEventWaits | eventbus/infrastructure/memory/store.go:38-101 | No poll delivers a delayed event before its delay is over |
| EventRuns.FailureComesTo | eventbus/infrastructure/memory/store.go:114-135 | A failure below the last attempt leaves the event pending with its attempt, its error and the drawn delay; the last one moves it to the queue with its instant and reason |
| EventRuns.BurialComesTo | eventbus/infrastructure/memory/store.go:137-160 | A burial moves the pending event, or the given one, keeping an earlier instant and an earlier error |
| EventDelivery.RoundOnEvent | eventbus/application/usecase.go:195-230 | What one poll does to each event of its batch: acknowledged, one attempt older, or dead |
| EventDelivery.AlwaysFailingEvent | eventbus/application/usecase.go:216-230 | An always-failing event starting at attempt a gains one attempt per delivery, is dead exactly after max(1, MaxRetries - a) deliveries, and is not delivered again |
| EventDelivery.RoundSpends | eventbus/application/usecase.go:195-230 | Each delivery of a poll uses up at least one of the attempts left, whatever the handlers answer |
| EventDelivery.DeliveriesAreBounded | eventbus/application/usecase.go:186-233 | All deliveries of any run of polls fit in the attempts left at its start |
| EventOverlap.TriesAreKeptIffInTurn | eventbus/infrastructure/memory/store.go:114-135 | Over every interleaving of consumers an always-failing event is delivered at most max(1, MaxRetries - a) times if and only if no more than one delivery of it is open at a time |
| EventOverlap.CountFallsIff | eventbus/infrastructure/memory/store.go:122-122 | Some interleaving sets the attempt count of an event back if and only if two deliveries may be open and three attempts are left |
| EventConsumer.SucceedsIffAllDo | eventbus/application/usecase.go:147-159 | A delivery succeeds if and only if every registered handler returns nil; otherwise it reports the first error |
| EventConsumer.Consumer.Subscribe | eventbus/application/usecase.go:136-145 | Appends the handler, or rejects a missing type or handler |
| EventConsumer.Consumer.Dispatch | eventbus/application/usecase.go:147-159 | Calls every handler and returns the first error |
| EventConsumer.Consumer.Handle | eventbus/application/usecase.go:202-229 | Acknowledges the event if and only if all handlers succeed, and fails it with the next attempt otherwise |
| EventConsumer.Consumer.HandleAll | eventbus/application/usecase.go:195-232 | Settles the events of any batch in order and counts the acknowledged ones, up to the first whose handlers succeed and whose id is no longer pending, whose acknowledgement error it returns |
| EventConsumer.Consumer.PollOnce | eventbus/application/usecase.go:184-233 | One poll is a round of possible store operations on at most ten due events by occurrence, on all of them if they are fewer; with the store to itself it never meets an acknowledgement error |
| Criteria.Validate | criteria/validator.go:22-60 | The first problem, filters before orders before the page |
| Criteria.ValidFilters | criteria/validator.go:22-39 | No problem if and only if all filters are well named and have the values they need; then only undeclared operators may lack theirs |
| Criteria.ValidIff | criteria/validator.go:22-60 | Validation finds no problem if and only if fields are well named, declared operators have the values they need, directions are known, and the page is non-negative |
| Criteria.ValidNameIff | criteria/validator.go:8-20 | A field name is letters, digits, underscores and dots, and begins with a letter or an underscore |
| Criteria.ProblemIsTheFirst | criteria/validator.go:22-60 | The problem reported is that of the first bad filter, else of the first bad order, else of the page; its name first, then its value or direction |
| SqlLike.WrappedIsSubstring | criteria/sql_converter.go:126-131 | LIKE with a plain text between two % signs is substring search |
| SqlLike.ILikeIsSubstring | criteria/memory_filter.go:131-136 | ILIKE of such a pattern is the case-insensitive substring search done in memory |
| SqlLike.LikeIsSpread | criteria/sql_converter.go:126-131 | For every pattern, LIKE is that the pieces between its % signs stand in the text one after the other, the first at the start and the last at the end |
| SqlWhere.BuildWhereClause | criteria/sql_converter.go:69-103 | The loop over the filters builds the compiled clause, numbering placeholders as it goes |
| SqlWhere.ExpandList | criteria/sql_converter.go:77-82 | A list becomes consecutive placeholders bound to its values in order |
| SqlWhere.PlaceholdersOf | criteria/sql_converter.go:120-159 | A filter writes one placeholder per parameter, and one too many when its value is missing |
| SqlWhere.PlaceholdersMatchIffFed | criteria/sql_converter.go:69-103 | Placeholders read $1..$n with n parameters if and only if every filter brings its value |
| SqlWhere.AddedMeans | criteria/sql_converter.go:120-159 | The condition of one filter, with its parameters, means the filter; a dropped list means true |
| SqlWhere.CompilePreservesMeaning | criteria/sql_converter.go:69-103 | On every row the clause with its parameters evaluates to the conjunction of the filters' meanings |
| SqlWhere.UnfedFilterBorrowsAValue | criteria/sql_converter.go:90-95 | An undeclared operator without a value passes validation and is compared with the first value of whatever filters follow; if they bring none its placeholder is out of range |
| SqlWhere.ToSelectSQL | criteria/sql_converter.go:19-46 | Validation first; then the clause, the orders and the page |
| SqlWhere.ToCountSQL | criteria/sql_converter.go:50-67 | The same clause and parameters as the selection, without order or page |
| SqlWhere.ValidCriteriaMean | criteria/sql_converter.go:19-33 | For validated criteria with declared operators the statement's placeholders line up and its clause means the filters |
| SqlTruth.DatabaseOrder | criteria/sql_converter.go:120-159 | What the six comparisons come to on numbers, texts, instants and truth values, and that they are unknown on anything else |
| SqlTruth.ClauseHoldsIff | criteria/sql_converter.go:69-103 | A clause is true of a row if and only if all of its conditions are, and false if and only if one is |
| SqlTruth.FilterAsks | criteria/sql_converter.go:120-159 | When searches, negated searches, null tests and array searches hold of a column |
| Float64.NearestGrows | criteria/memory_filter.go:182-200 | The conversion of integers to float64 never turns an order round |
| Float64.NearestIsNearest | criteria/memory_filter.go:182-200 | No representable integer is closer to a number than what it is rounded to |
| Float64.TiesGoToEven | criteria/memory_filter.go:182-200 | When two representable integers are equally near, the even one of the two is taken |
| Float64.KeptIffScaled | criteria/memory_filter.go:182-200 | Rounding keeps exactly the integers of at most 53 bits times a power of two |
| MemoryFilter.SharedFilterAgrees | criteria/memory_filter.go:96-123 | On the shared fragment, where numbers are exact as float64, a filter in memory holds if and only if its SQL meaning is true |
| MemoryFilter.EvaluatorsAgree | criteria/memory_filter.go:49-150 | On the shared fragment a row matches in memory if and only if the generated WHERE clause holds of it |
| FilterAgreement.EqualityAgreesIff | criteria/memory_filter.go:98-122 | Equality, and any undeclared operator, agrees exactly for equal scalars, and for values that differ in the database as well as in Go |
| FilterAgreement.InequalityAgreesIff | criteria/memory_filter.go:100-101 | Inequality agrees exactly for equal values and for different ones the database can tell apart |
| FilterAgreement.NamedTextsDisagree | criteria/memory_filter.go:98-101 | A column of a named string type never agrees with a plain string of the same characters |
| FilterAgreement.NullTestAgreesIff | criteria/memory_filter.go:106-109 | The null tests agree if and only if exactly the zero values of the column's type are stored as NULL |
| FilterAgreement.DroppedListAgreesIff | criteria/memory_filter.go:139-150 | A list filter the converter drops agrees if and only if the search in memory succeeds; for an empty list, only NOT IN does |
| FilterAgreement.MissingColumnAgreesIff | criteria/memory_filter.go:49-61 | A column that a row lacks is passed over in memory; the database agrees if and only if it is tested for NULL or the list is dropped |
| FilterAgreement.ZeroIsNull | criteria/memory_filter.go:106-107 | Memory takes for null exactly nil and the zero values |
| MemoryFilter.InIsMembership | criteria/memory_filter.go:139-150 | What a list search looks for in a slice, in a slice that does not exist, and in a value that is none |
| FilterAgreement.InAgreesIff | criteria/memory_filter.go:139-150 | IN agrees exactly for scalars in the list, and for values the database does not find in it either |
| FilterAgreement.NotInAgreesIff | criteria/memory_filter.go:112-113 | NOT IN agrees exactly for values in the list, and for values the database tells apart from every item |
| FilterAgreement.ArrayContainsAgreesIff | criteria/memory_filter.go:121-122 | ARRAY_CONTAINS, which in memory compares the whole array, agrees exactly when neither the column nor any item equals the value |
| FilterAgreement.OrderingAgreesIff | criteria/memory_filter.go:163-200 | Each of the four ordering comparisons agrees on numbers if and only if their float64 values differ or the exact ones answer like a tie, and on other values if and only if the database does not compare them or finds the comparison false |
| FilterAgreement.SmallIntegersAgree | criteria/memory_filter.go:182-200 | Integers up to 2^53 in size are always ordered alike |
| FilterAgreement.LargeIntegersDisagree | criteria/memory_filter.go:182-200 | 2^53 + 1 is greater than 2^53 in the database and not in memory |
| FilterAgreement.TimesAreNotOrdered | criteria/memory_filter.go:163-168 | Two times agree if and only if the database finds the comparison false |
| FilterAgreement.SearchAgreesIff | criteria/memory_filter.go:125-137 | For any pattern and any of the four search operators: memory must find the cleaned text exactly where the pieces of the pattern stand in order |
| FilterAgreement.OtherSearchAgreesIff | criteria/memory_filter.go:125-130 | Where memory sees no text, a search agrees if and only if the database searches texts in vain, or has no answer and the search is not negated |
| FilterAgreement.UnderscoreSearchAgreesIff | criteria/memory_filter.go:131-136 | With `_` for any character: exactly when the literal text, trimmed, occurs where the pattern does |
| FilterAgreement.PlainSearchAgreesIff | criteria/memory_filter.go:131-136 | A plain text, or one between two % signs, agrees if and only if it occurs, or does not occur even without its edge blanks |
| FilterAgreement.InnerPercentAgreesIff | criteria/memory_filter.go:131-136 | r%s agrees if and only if the two together occur exactly when r starts and s ends the column |
| FilterAgreement.PrefixSearchAgreesIff | criteria/memory_filter.go:131-136 | A text with a trailing % agrees if and only if it starts the column, or does not occur even without its edge blanks |
| FilterAgreement.SuffixSearchAgreesIff | criteria/memory_filter.go:131-136 | A text with a leading % agrees if and only if it ends the column, or does not occur even without its edge blanks |
| FilterAgreement.NamedSearchAgreesIff | criteria/sql_converter.go:126-131 | A pattern of a named type is not wrapped: it agrees if and only if the column is the text, or does not hold it even without its edge blanks |
| Ordering.ComparableIsLawful | criteria/memory_filter.go:202-241 | The comparison is irreflexive, asymmetric and transitive, and so are its ties, on three rows whose ordered columns differ only within a family |
| Ordering.TiesCarryIffUnmixed | criteria/memory_filter.go:220-241 | Among any values ties are transitive if and only if no two of them differ while a third is of another family |
| Ordering.SortableByOneIffUnmixed | criteria/memory_filter.go:202-218 | One order is a strict weak order on a set of rows if and only if its column is so unmixed |
| Ordering.SortableIffUnmixed | criteria/memory_filter.go:202-218 | All lists of orders on some fields are strict weak orders on a set of rows if and only if each of those columns is unmixed |
| Ordering.NumbersAreOrderedByValue | criteria/memory_filter.go:202-231 | One order on a numeric column is the order of the values, turned round for DESC, except that different numbers of one float64 value tie |
| Ordering.SortedByValueIff | criteria/memory_filter.go:220-231 | Memory and the database order a numeric column alike if and only if no two of its numbers round alike |
| Ordering.DescendingReverses | criteria/memory_filter.go:209-216 | DESC is ASC with the rows exchanged, whatever the column holds |
| Ordering.TextsAreOrderedAlphabetically | criteria/memory_filter.go:220-235 | A text column puts a before b if and only if, in lower case, a is smaller where the two first differ, or b goes on where a ends; DESC the reverse |
| Ordering.OthersAreNotOrdered | criteria/memory_filter.go:220-241 | Values that are neither two numbers nor two texts tie |
| Ordering.LaterOrdersBreakTies | criteria/memory_filter.go:202-218 | Later orders decide exactly the ties of earlier ones |
| Ordering.SomethingArranges | criteria/memory_filter.go:27-31 | Whatever the orders, all lists of rows whose ordered columns are unmixed can be sorted by the comparison |
| Paging.ApplyInMemory | criteria/memory_filter.go:12-47 | Filters, sorts and cuts; the total counts all matches on every page |
| Paging.CutFailsIff | criteria/memory_filter.go:33-44 | Slicing stops the program if and only if the page starts inside the list at a negative offset or its end leaves 64 bits |
| Paging.CutShows | criteria/memory_filter.go:33-44 | Without a positive limit everything is shown; otherwise the rows from the offset on, as many as the limit and the list allow |
| Paging.PaginationIsOf | criteria/criteria.go:110-130 | Pages count from 1 and have 10 rows, or the size asked for up to 100 |
| Paging.MatchingKeepsMatches | criteria/memory_filter.go:17-24 | Filtering keeps every matching row as often as it occurs and nothing else |
| Paging.MatchesKeepTheirOrder | criteria/memory_filter.go:17-24 | The matches come in the order of the items |
| Paging.TotalPagesIsLeast | criteria/criteria.go:138-143 | The number of pages is the least one whose blocks reach the end, and 0 for a page size of 0 |
| Paging.PageIsBlockIff | criteria/criteria.go:111-130 | Page n is block n of the list if and only if its offset fits 64 bits or wraps past the end |
| Paging.StopsIffRefused | criteria/validator.go:50-57 | A requested page stops the in-memory filter if and only if validation refuses it before writing SQL |
| Paging.FarPageRepeatsTheFirst | criteria/criteria.go:122-129 | Page 2^62 + 1 of size 100 has the offset of page 1 |
| Paging.PagesPartitionTheList | criteria/criteria.go:110-143 | Pages 1..total concatenate to the list, all full but the last, which is not empty; later pages are empty |
| Paging.PagesShowEveryMatchOnce | criteria/memory_filter.go:12-47 | Paging through a query shows every matching row exactly once, in order across pages |
| Paging.PagesAreAlphabetical | criteria/memory_filter.go:12-47 | The pages of a query ordered by one text column follow the alphabet, up or down, without regard to case, across all pages |
| SqlPages.StatementShowsMemoryPageIff | criteria/sql_converter.go:19-67 | On rows both evaluators understand, sorted alike, the statement selects the very page that is shown in memory if and only if the page starts past the last match or ends within 64 bits; and the count statement counts what memory counts |
| ServiceToken.NoTokenIsBoth | infrastructure/s2stoken/user.go:25-37 | No token passes both Verify and the user-token contract unless its payload has other spellings of both iss and token_use |
| ClaimAliases.SomeTokenIsBothIff | infrastructure/s2stoken/user.go:48-79 | For any set of member names, some payload of those names passes both if and only if they contain iss and exp, another spelling of iss and one of token_use, and a spelling of each other claim a service token needs |
| ServiceToken.AcceptedIsRecent | infrastructure/s2stoken/s2stoken.go:196-220 | An accepted token satisfies iat - 30 s <= now < iat + 330 s |
| ServiceToken.OneReceiverPerToken | infrastructure/s2stoken/s2stoken.go:221-236 | Receivers of different names or namespaces never accept the same token |
| ServiceToken.ForbiddenIsAuthentic | infrastructure/s2stoken/s2stoken.go:88-106 | 403 is answered only to an authentic token, and 200 only to one with every required scope |
| ServiceToken.MoreScopesAcceptNoMore | infrastructure/s2stoken/s2stoken.go:247-251 | Requiring more scopes never accepts more, if the config accepted anything |
| Acceptance.ServiceTokenIsAcceptedIff | infrastructure/s2stoken/s2stoken.go:182-253 | By the members the payload writes down, the clock and the receiver: 200, 403 or 401; accepted tokens are alive, within 30 s |
| Acceptance.UserTokenIsAcceptedIff | infrastructure/s2stoken/user.go:25-75 | A user token is accepted if and only if it is genuine, of the user issuer, without a token_use, before its exp plus 30 s and after its nbf, if any, less 30 s |
| Acceptance.RequestEntersIff | infrastructure/s2stoken/receiver/receiver.go:86-185 | By both payloads, the headers and the two clocks: exactly when a request is let in, unknown or forbidden |
| Acceptance.AcceptedIsGranted | infrastructure/s2stoken/receiver/receiver.go:122-185 | The service, scopes, tenant, roles and user claims an accepted request is given, from the members they are read from |
| ServiceToken.NameIsReadIff | infrastructure/s2stoken/s2stoken.go:57-69 | A claim is read from any spelling of its name that differs in case only, with the two letters beyond ASCII that stand for k and s |
| Receiver.SystemIgnoresAuthorization | infrastructure/s2stoken/receiver/receiver.go:122-145 | Two runs with different Authorization give a system token the same result |
| Receiver.SystemHasNoUser | infrastructure/s2stoken/receiver/receiver.go:122-145 | An accepted system request has no roles or user claims; its tenant is empty on a global route and the header's UUID in canonical form on a per-tenant one |
| Receiver.RolesAreTheTexts | infrastructure/s2stoken/receiver/receiver.go:285-294 | The roles are the texts of the claim, as often as they occur, and nothing else |
| Receiver.RolesKeepTheirOrder | infrastructure/s2stoken/receiver/receiver.go:285-294 | The roles come in the order of the list |
| Receiver.UserRightsComeFromTheBearer | infrastructure/s2stoken/receiver/receiver.go:147-185 | Two accepted requests with the same Authorization have the same tenant, roles and namespace, whatever their service tokens, headers and routes |
| Receiver.TenantHeaderOnlyRejects | infrastructure/s2stoken/receiver/receiver.go:176-184 | In user scope X-Tenant-ID changes the result only by turning acceptance into rejection, exactly when it names another tenant |
| Receiver.AcceptedIsAtHome | infrastructure/s2stoken/receiver/receiver.go:88-185 | An accepted request comes from a verified service that is not denied, of a kind the route is open to, in the expected namespaces, and its Bearer is not the service token, aliased claim names aside |
| Receiver.StricterAcceptsNoMore | infrastructure/s2stoken/receiver/receiver.go:88-185 | Growing DenySub, SystemOnlyScopes or a declared RequiredScopes never accepts more, nor differently |
| Receiver.UndeclaredScopesRejectAll | infrastructure/s2stoken/s2stoken.go:151-153 | A route that declares no scope and not AnyScope answers 401 to everything |
| RouteStrictness.SomeRequestIsAccepted | infrastructure/s2stoken/receiver/receiver.go:88-185 | A route that is ready and requires a scope nobody reserves accepts some request |
| RouteStrictness.StrictnessIsSafeIff | infrastructure/s2stoken/s2stoken.go:147-157 | No stricter route accepts more, or differently, if and only if the route declares scopes or AnyScope, or could not serve with any |
| Receiver.ParseDenySub | infrastructure/s2stoken/receiver/receiver.go:209-226 | The list is invalid if and only if a part is not a canonical name; otherwise it denies exactly the trimmed parts |
| Receiver.CanonicalNameIff | infrastructure/s2stoken/receiver/receiver.go:207-207 | A canonical name has 1 to 63 small letters, digits and hyphens, and no hyphen first |
| Receiver.SplitOfJoin | infrastructure/s2stoken/receiver/receiver.go:217-224 | Splitting undoes joining, so a written list denies exactly its names |

## Left out

- RSA, PEM, hashing and JWT parsing: cryptography and a library that is not part of this model.
- The HTTP exchange with IAM, assertion signing, and key and file loading: replaced by an arbitrary answer.
- The argument check of `Token` and `Refresh` for a blank audience or scope: such calls fail before they touch any state.
- Redis transport and script loading: only the script bodies are modelled, as atomic steps.
- Kafka, RabbitMQ and SQS stores: stubs that always return errors.
- gin and net/http adapters, tenant, platform and role middleware: plumbing around the receiver's decision.
- Metrics, logging, notifications, migrations, the database pool and environment helpers: input and output.
- The worker loop and its sleeping: any sequence of polls at any instants takes its place.
- `PublishUseCase`: fills in an id and a version, then saves.
- Reflection: field lookup by tag or name is a map lookup, and a filter on a missing field is passed over, as in the code.
- SQL text, quoting and the `ARRAY` literal: conditions are a syntax tree, so only their structure and meaning are modelled.
- `Sanitize`, the criteria builder and its URL parsing: real but easy members.
- EventConsumer.Consumer.PollOnce: assumes the store to itself during a poll, because handlers that call back into the store are not modelled.
- Ordering.SortableIffUnmixed: float64 NaN, infinities and negative zero are not modelled, because numbers are reals.
- MemoryFilter.EvaluatorsAgree: holds on the shared fragment, because outside it the two evaluators differ as the `FilterAgreement` lemmas say.
- Text.LowerAll: folds ASCII letters only, because full Unicode case mapping is not part of this model.
